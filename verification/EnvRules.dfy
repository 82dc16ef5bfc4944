/** What one `_do_setenv` call does to the insertion-ordered list, and what follows from it for one
    call and for whole runs of calls. */
module EnvRules {
  import opened Common
  import opened EnvLayout

  /** Build options: CONFIG_ENV_OVERWRITE, CONFIG_HAS_UID, and CONFIG_ETHADDR when
      CONFIG_OVERWRITE_ETHADDR_ONCE is set. */
  datatype Config = Config(overwrite: bool, hasUid: bool, ethaddrOnce: Option<string>)

  /** One call: `args` is argv[2..]; the two booleans are the answers of code outside this model
      (console assignment, baud rate table). */
  datatype Call = Call(flag: int, name: string, args: seq<string>, consoleOk: bool, baudOk: bool)

  const FORCE_FLAG := 0xdeaf4add

  predicate CallOk(c: Call) {
    CString(c.name) && forall i :: 0 <= i < |c.args| ==> CString(c.args[i])
  }

  /** The vendor variables that an existing value makes read-only. */
  predicate Protected(cfg: Config, flag: int, name: string, stored: string) {
    !cfg.overwrite &&
    ((name == "serial#" && !(cfg.hasUid && flag == FORCE_FLAG)) ||
     (name == "ethaddr" && cfg.ethaddrOnce != Some(stored)))
  }

  predicate Vetoed(c: Call) {
    (c.name in {"stdin", "stdout", "stderr"} && (c.args == [] || !c.consoleOk)) ||
    (c.name == "baudrate" && !c.baudOk)
  }

  /** Arguments joined by single spaces. */
  function Join(args: seq<string>): string {
    if args == [] then "" else if |args| == 1 then args[0] else Join(args[..|args| - 1]) + " " + args[|args| - 1]
  }

  function Without(es: Entries, name: string): Entries {
    if es == [] then []
    else if es[0].name == name then Without(es[1..], name)
    else [es[0]] + Without(es[1..], name)
  }

  predicate Refused(cfg: Config, es: Entries, c: Call) {
    '=' in c.name ||
    match Lookup(es, c.name)
      case Some(v) => Protected(cfg, c.flag, c.name, v) || Vetoed(c)
      case None => false
  }

  function Appended(es: Entries, c: Call): Entries {
    Without(es, c.name) + [Entry(c.name, Join(c.args))]
  }

  /** New list and return code (0 accepted, 1 rejected). */
  function Apply(cfg: Config, capacity: nat, es: Entries, c: Call): (Entries, int) {
    if Refused(cfg, es, c) then (es, 1)
    else if c.args == [] then (Without(es, c.name), 0)
    else if |Image(Appended(es, c))| <= capacity then (Appended(es, c), 0)
    else (Without(es, c.name), 1)
  }

  function Run(cfg: Config, capacity: nat, es: Entries, calls: seq<Call>): Entries
    decreases |calls|
  {
    if calls == [] then es else Run(cfg, capacity, Apply(cfg, capacity, es, calls[0]).0, calls[1..])
  }

  // ----- Without and Lookup

  lemma {:induction false} WithoutMembers(es: Entries, name: string)
    ensures forall e :: e in Without(es, name) <==> e in es && e.name != name
  {
    if es != [] {
      WithoutMembers(es[1..], name);
      assert forall e :: e in es <==> e == es[0] || e in es[1..];
    }
  }

  lemma {:induction false} WithoutShorter(es: Entries, name: string)
    ensures |Flat(Without(es, name))| <= |Flat(es)|
  {
    if es != [] {
      WithoutShorter(es[1..], name);
      FlatConcat([es[0]], Without(es[1..], name));
      FlatOne(es[0]);
    }
  }

  lemma {:induction false} WithoutWellFormed(es: Entries, name: string)
    requires WellFormed(es)
    ensures WellFormed(Without(es, name))
  {
    hide Flat;
    if es != [] {
      WithoutWellFormed(es[1..], name);
      WithoutMembers(es[1..], name);
      var tail := Without(es[1..], name);
      forall i | 0 <= i < |tail|
        ensures tail[i].name != es[0].name
      {
        assert tail[i] in es[1..];
      }
    }
  }

  lemma WithoutSound(es: Entries, name: string)
    requires WellFormed(es)
    ensures WellFormed(Without(es, name))
    ensures forall e :: e in Without(es, name) <==> e in es && e.name != name
    ensures |Flat(Without(es, name))| <= |Flat(es)|
  {
    WithoutWellFormed(es, name);
    WithoutMembers(es, name);
    WithoutShorter(es, name);
  }

  lemma {:induction false} WithoutAbsent(es: Entries, name: string)
    requires forall i :: 0 <= i < |es| ==> es[i].name != name
    ensures Without(es, name) == es
  {
    if es != [] {
      WithoutAbsent(es[1..], name);
    }
  }

  /** In a list with distinct names, dropping the found entry is filtering by name. */
  lemma {:induction false} DropIsWithout(es: Entries, k: nat)
    requires Distinct(es) && k < |es|
    ensures Drop(es, k) == Without(es, es[k].name)
  {
    if k == 0 {
      WithoutAbsent(es[1..], es[0].name);
      assert Drop(es, 0) == es[1..];
    } else {
      DropIsWithout(es[1..], k - 1);
      assert Drop(es, k) == [es[0]] + Drop(es[1..], k - 1);
    }
  }

  lemma {:induction false} LookupIff(es: Entries, name: string, v: string)
    requires Distinct(es)
    ensures Lookup(es, name) == Some(v) <==> Entry(name, v) in es
  {
    var k := Index(es, name);
    if Entry(name, v) in es {
      var j :| 0 <= j < |es| && es[j] == Entry(name, v);
      assert j == k;
    }
  }

  lemma LookupWithout(es: Entries, name: string, other: string)
    requires WellFormed(es)
    ensures Lookup(Without(es, name), other) == if other == name then None else Lookup(es, other)
  {
    WithoutSound(es, name);
    var rest := Without(es, name);
    match Lookup(rest, other) {
      case Some(v) => LookupIff(rest, other, v); LookupIff(es, other, v);
      case None =>
        if Lookup(es, other).Some? {
          LookupIff(es, other, Lookup(es, other).value);
          LookupIff(rest, other, Lookup(es, other).value);
        }
    }
  }

  lemma LookupAppended(es: Entries, c: Call, other: string)
    requires WellFormed(es)
    ensures Lookup(Appended(es, c), other) == if other == c.name then Some(Join(c.args)) else Lookup(es, other)
  {
    WithoutSound(es, c.name);
    LookupWithout(es, c.name, other);
    var rest, full, e := Without(es, c.name), Appended(es, c), Entry(c.name, Join(c.args));
    assert full[|rest|] == e;
    assert forall x :: x in full <==> x in rest || x == e;
    LookupIff(full, c.name, e.value);
    match Lookup(es, other) {
      case Some(v) => LookupIff(es, other, v); LookupIff(full, other, v);
      case None =>
        match Lookup(full, other)
        case Some(v) => LookupIff(full, other, v); LookupIff(es, other, v);
        case None =>
    }
  }

  // ----- one call

  lemma {:induction false} JoinIsCString(args: seq<string>)
    requires forall i :: 0 <= i < |args| ==> CString(args[i])
    ensures CString(Join(args))
  {
    if |args| > 1 {
      JoinIsCString(args[..|args| - 1]);
    }
  }

  /** A call keeps the list well formed and inside the storage. */
  lemma ApplyKeepsForm(cfg: Config, capacity: nat, es: Entries, c: Call)
    requires WellFormed(es) && |Image(es)| <= capacity && CallOk(c)
    ensures WellFormed(Apply(cfg, capacity, es, c).0)
    ensures |Image(Apply(cfg, capacity, es, c).0)| <= capacity
  {
    hide Flat, Text, Join, Lookup;
    var rest, full := Without(es, c.name), Appended(es, c);
    WithoutSound(es, c.name);
    EndAt(es);
    EndAt(rest);
    JoinIsCString(c.args);
    forall i | 0 <= i < |rest| ensures rest[i].name != c.name && full[i] == rest[i] {
      assert rest[i] in rest;
    }
  }

  /** The main contract: when a call is accepted, what the map answers afterwards, and that the other
      entries keep their order with the new one last. */
  lemma ApplyAccepted(cfg: Config, capacity: nat, es: Entries, c: Call, other: string)
    requires WellFormed(es)
    ensures var (es', rc) := Apply(cfg, capacity, es, c);
            && (rc == 0 <==> !Refused(cfg, es, c) && (c.args != [] ==> |Image(Appended(es, c))| <= capacity))
            && (rc == 0 ==>
                  && Without(es', c.name) == Without(es, c.name)
                  && (c.args != [] ==> es' == Without(es', c.name) + [Entry(c.name, Join(c.args))])
                  && Lookup(es', other) ==
                     if other != c.name then Lookup(es, other)
                     else if c.args == [] then None else Some(Join(c.args)))
  {
    LookupAppended(es, c, other);
    LookupWithout(es, c.name, other);
    WithoutSound(es, c.name);
    var rest, e := Without(es, c.name), Entry(c.name, Join(c.args));
    WithoutAbsent(rest, c.name);
    WithoutConcat(rest, [e], c.name);
    assert [e][1..] == [];
  }

  lemma {:induction false} WithoutConcat(a: Entries, b: Entries, name: string)
    ensures Without(a + b, name) == Without(a, name) + Without(b, name)
  {
    if a == [] {
      assert a + b == b;
    } else {
      WithoutConcat(a[1..], b, name);
      assert (a + b)[1..] == a[1..] + b && (a + b)[0] == a[0];
    }
  }

  /** A rejected call changes nothing, except that an overflowing one has already deleted the old value
      of its own name. */
  lemma ApplyRejected(cfg: Config, capacity: nat, es: Entries, c: Call, other: string)
    requires WellFormed(es) && Apply(cfg, capacity, es, c).1 != 0
    ensures var es' := Apply(cfg, capacity, es, c).0;
            && (Refused(cfg, es, c) ==> es' == es)
            && (!Refused(cfg, es, c) ==> c.args != [] && |Image(Appended(es, c))| > capacity)
            && (!Refused(cfg, es, c) ==> es' == Without(es, c.name))
            && (other != c.name ==> Lookup(es', other) == Lookup(es, other))
            && (other == c.name && !Refused(cfg, es, c) ==> Lookup(es', other) == None)
  {
    LookupWithout(es, c.name, other);
  }

  // ----- whole runs

  /** Once a vendor variable has a value that every call of the run finds protected, no run of calls on
      any names, deletions and overflows included, changes what a lookup of it returns. */
  lemma {:induction false} WriteOnce(cfg: Config, capacity: nat, es: Entries, calls: seq<Call>, name: string, v: string)
    requires WellFormed(es) && |Image(es)| <= capacity
    requires forall i :: 0 <= i < |calls| ==> CallOk(calls[i]) && Protected(cfg, calls[i].flag, name, v)
    requires Lookup(es, name) == Some(v)
    ensures Lookup(Run(cfg, capacity, es, calls), name) == Some(v)
    decreases |calls|
  {
    if calls != [] {
      var c := calls[0];
      ApplyKeepsForm(cfg, capacity, es, c);
      if Apply(cfg, capacity, es, c).1 == 0 {
        ApplyAccepted(cfg, capacity, es, c, name);
      } else {
        ApplyRejected(cfg, capacity, es, c, name);
      }
      WriteOnce(cfg, capacity, Apply(cfg, capacity, es, c).0, calls[1..], name, v);
    }
  }

  /** The stock configuration: `serial#` and `ethaddr` can be set once, whatever flags the calls carry. */
  lemma VendorWriteOnce(capacity: nat, es: Entries, calls: seq<Call>, name: string)
    requires WellFormed(es) && |Image(es)| <= capacity
    requires forall i :: 0 <= i < |calls| ==> CallOk(calls[i])
    requires name in {"serial#", "ethaddr"} && Lookup(es, name).Some?
    ensures Lookup(Run(Config(false, false, None), capacity, es, calls), name) == Lookup(es, name)
  {
    WriteOnce(Config(false, false, None), capacity, es, calls, name, Lookup(es, name).value);
  }

  /** Write-once is exact: a stored value that is not protected can be replaced in one call that fits. */
  lemma UnprotectedCanChange(cfg: Config, capacity: nat, es: Entries, c: Call)
    requires WellFormed(es) && '=' !in c.name && c.args != [] && !Vetoed(c)
    requires Lookup(es, c.name).Some? && !Protected(cfg, c.flag, c.name, Lookup(es, c.name).value)
    requires |Image(Appended(es, c))| <= capacity
    ensures Lookup(Apply(cfg, capacity, es, c).0, c.name) == Some(Join(c.args))
  {
    ApplyAccepted(cfg, capacity, es, c, c.name);
  }

  // ----- enumeration

  /** What `API_env_enum` writes through `next`: the entry at a position, NULL, or `last` itself. */
  datatype Next = AtEntry(k: nat) | AtEnd | Unchanged

  function NextAfter(es: Entries, last: Option<string>): Next {
    match last
    case None => AtEntry(0)
    case Some(s) =>
      var k := Index(es, NamePart(s));
      if k == -1 then Unchanged else if k + 1 == |es| then AtEnd else AtEntry(k + 1)
  }

  function Texts(es: Entries): seq<string> {
    if es == [] then [] else [Text(es[0])] + Texts(es[1..])
  }

  /** The texts a caller sees that starts from NULL and feeds each returned pointer back in. */
  function Walk(es: Entries, last: Option<string>, steps: nat): seq<string>
    decreases steps
  {
    if steps == 0 then []
    else
      match NextAfter(es, last)
      case AtEntry(k) => if k < |es| then [Text(es[k])] + Walk(es, Some(Text(es[k])), steps - 1) else []
      case _ => []
  }

  lemma NextAfterEntry(es: Entries, k: nat)
    requires WellFormed(es) && k < |es|
    ensures NextAfter(es, Some(Text(es[k]))) == if k + 1 == |es| then AtEnd else AtEntry(k + 1)
  {
    NamePartOfText(es[k]);
    assert Index(es, es[k].name) == k;
  }

  lemma {:induction false} WalkFrom(es: Entries, k: nat, steps: nat)
    requires WellFormed(es) && k < |es| && steps >= |es| - k
    ensures Walk(es, Some(Text(es[k])), steps) == Texts(es[k + 1..])
    decreases steps
  {
    hide Text, NamePart, Index, NextAfter;
    NextAfterEntry(es, k);
    if k + 1 < |es| {
      WalkFrom(es, k + 1, steps - 1);
      assert es[k + 1..][1..] == es[k + 2..];
    }
  }

  /** From NULL the walk yields every entry exactly once, in storage order, and then stops at NULL. */
  lemma WalkIsComplete(es: Entries, steps: nat)
    requires WellFormed(es) && es != [] && steps > |es|
    ensures Walk(es, None, steps) == Texts(es)
    ensures NextAfter(es, Some(Text(es[|es| - 1]))) == AtEnd
  {
    hide Text, NamePart, Index;
    NextAfterEntry(es, |es| - 1);
    calc {
      Walk(es, None, steps);
      [Text(es[0])] + Walk(es, Some(Text(es[0])), steps - 1);
      { WalkFrom(es, 0, steps - 1); }
      [Text(es[0])] + Texts(es[1..]);
    }
  }
}
