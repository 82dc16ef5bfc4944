/** What a `setenv` call does, name by name and byte by byte, without the predicates of the code's own tests. */
module EnvLaws {
  import opened Common
  import opened EnvLayout
  import opened EnvRules

  // ----- how much room a call needs

  /** Bytes of the entries, each with its equals sign and its NUL. */
  function Bytes(es: Entries): nat {
    if es == [] then 0 else Bytes(es[..|es| - 1]) + |es[|es| - 1].name| + |es[|es| - 1].value| + 2
  }

  /** Bytes of the arguments, each with the character in front of it. */
  function ArgBytes(args: seq<string>): nat {
    if args == [] then 0 else ArgBytes(args[..|args| - 1]) + |args[|args| - 1]| + 1
  }

  /** The new entry fits behind the others: its name, its arguments, its NUL and the one that ends the storage. */
  predicate Room(capacity: nat, es: Entries, c: Call) {
    Bytes(Without(es, c.name)) + |c.name| + ArgBytes(c.args) + 2 <= capacity
  }

  lemma {:induction false} BytesAreFlat(es: Entries)
    ensures |Flat(es)| == Bytes(es)
  {
    if es != [] {
      var e := es[|es| - 1];
      BytesAreFlat(es[..|es| - 1]);
      assert es == es[..|es| - 1] + [e];
      FlatConcat(es[..|es| - 1], [e]);
      FlatOne(e);
    }
  }

  lemma {:induction false} JoinLength(args: seq<string>)
    requires args != []
    ensures |Join(args)| + 1 == ArgBytes(args)
  {
    if |args| == 1 {
      assert args[..0] == [];
    } else {
      JoinLength(args[..|args| - 1]);
    }
  }

  lemma RoomIs(capacity: nat, es: Entries, c: Call)
    requires c.args != []
    ensures |Image(Appended(es, c))| <= capacity <==> Room(capacity, es, c)
  {
    hide Without, Join;
    var rest, e := Without(es, c.name), Entry(c.name, Join(c.args));
    FlatConcat(rest, [e]);
    FlatOne(e);
    BytesAreFlat(rest);
    JoinLength(c.args);
  }

  // ----- the value is the arguments

  /** A text cut at its spaces. */
  function Words(s: string): (w: seq<string>)
    ensures w != []
  {
    if s == "" then [""]
    else if s[|s| - 1] == ' ' then Words(s[..|s| - 1]) + [""]
    else var w := Words(s[..|s| - 1]); w[..|w| - 1] + [w[|w| - 1] + [s[|s| - 1]]]
  }

  lemma {:induction false} WordsOfOne(s: string)
    requires ' ' !in s
    ensures Words(s) == [s]
  {
    if s != "" {
      WordsOfOne(s[..|s| - 1]);
      assert s == s[..|s| - 1] + [s[|s| - 1]];
    }
  }

  lemma {:induction false} WordsOfMore(a: string, b: string)
    requires ' ' !in b
    ensures Words(a + " " + b) == Words(a) + [b]
    decreases |b|
  {
    var s := a + " " + b;
    if b == "" {
      assert s[..|s| - 1] == a;
    } else {
      assert s[..|s| - 1] == a + " " + b[..|b| - 1];
      WordsOfMore(a, b[..|b| - 1]);
      assert b == b[..|b| - 1] + [b[|b| - 1]];
    }
  }

  /** Cutting the value at its spaces gives the arguments back. */
  lemma {:induction false} JoinSplits(args: seq<string>)
    requires args != [] && forall i :: 0 <= i < |args| ==> ' ' !in args[i]
    ensures Words(Join(args)) == args
  {
    hide Words;
    if |args| == 1 {
      WordsOfOne(args[0]);
      assert args == [args[0]];
    } else {
      var init, last := args[..|args| - 1], args[|args| - 1];
      JoinSplits(init);
      WordsOfMore(Join(init), last);
      assert Join(args) == Join(init) + " " + last && args == init + [last];
    }
  }

  // ----- ordinary names

  predicate Ordinary(name: string) {
    '=' !in name && name !in {"serial#", "ethaddr", "stdin", "stdout", "stderr", "baudrate"}
  }

  /** Deleting an ordinary variable always succeeds: it is gone, and everything else is as it was. */
  lemma OrdinaryDelete(cfg: Config, capacity: nat, es: Entries, c: Call, other: string)
    requires WellFormed(es) && Ordinary(c.name) && c.args == []
    ensures var (es', rc) := Apply(cfg, capacity, es, c);
      && rc == 0
      && Lookup(es', other) == (if other == c.name then None else Lookup(es, other))
      && (forall e :: e in es' <==> e in es && e.name != c.name)
  {
    LookupWithout(es, c.name, other);
    WithoutSound(es, c.name);
  }

  /** Setting one succeeds exactly when there is room, whatever it was before. */
  lemma OrdinarySet(cfg: Config, capacity: nat, es: Entries, c: Call, other: string)
    requires WellFormed(es) && Ordinary(c.name) && c.args != []
    ensures var (es', rc) := Apply(cfg, capacity, es, c);
      && rc == (if Room(capacity, es, c) then 0 else 1)
      && Lookup(es', other) ==
           if other != c.name then Lookup(es, other) else if Room(capacity, es, c) then Some(Join(c.args)) else None
  {
    hide Room;
    RoomIs(capacity, es, c);
    LookupWithout(es, c.name, other);
    LookupAppended(es, c, other);
  }

  // ----- the others

  /** A name with an equals sign is refused before anything else. */
  lemma EqualsSign(cfg: Config, capacity: nat, es: Entries, c: Call)
    requires '=' in c.name
    ensures Apply(cfg, capacity, es, c) == (es, 1)
  {
  }

  /** A special variable that is not there yet is set or deleted like any other. */
  lemma SpecialUnset(cfg: Config, capacity: nat, es: Entries, c: Call)
    requires WellFormed(es) && '=' !in c.name && Lookup(es, c.name) == None
    ensures Apply(cfg, capacity, es, c).1 == (if c.args == [] || Room(capacity, es, c) then 0 else 1)
    ensures c.args == [] ==> Apply(cfg, capacity, es, c).0 == es
  {
    hide Room;
    WithoutAbsent(es, c.name);
    if c.args != [] {
      RoomIs(capacity, es, c);
    }
  }

  /** The call goes through, as far as room goes. */
  predicate Passes(cfg: Config, capacity: nat, es: Entries, c: Call) {
    Apply(cfg, capacity, es, c).1 == (if c.args == [] || Room(capacity, es, c) then 0 else 1)
    && Apply(cfg, capacity, es, c).0 ==
       if c.args == [] || !Room(capacity, es, c) then Without(es, c.name) else Appended(es, c)
  }

  /** The call is refused and changes nothing. */
  predicate Blocked(cfg: Config, capacity: nat, es: Entries, c: Call) {
    Apply(cfg, capacity, es, c) == (es, 1)
  }

  /** When a stored special variable can be changed or deleted, for each of the six, from the inputs alone. */
  lemma SpecialStored(cfg: Config, capacity: nat, es: Entries, c: Call, v: string)
    requires WellFormed(es) && Lookup(es, c.name) == Some(v)
    ensures c.name == "serial#" ==>
      if cfg.overwrite || (cfg.hasUid && c.flag == 0xdeaf4add) then Passes(cfg, capacity, es, c)
      else Blocked(cfg, capacity, es, c)
    ensures c.name == "ethaddr" ==>
      if cfg.overwrite || cfg.ethaddrOnce == Some(v) then Passes(cfg, capacity, es, c)
      else Blocked(cfg, capacity, es, c)
    ensures c.name == "stdin" || c.name == "stdout" || c.name == "stderr" ==>
      if c.args != [] && c.consoleOk then Passes(cfg, capacity, es, c) else Blocked(cfg, capacity, es, c)
    ensures c.name == "baudrate" ==>
      if c.baudOk then Passes(cfg, capacity, es, c) else Blocked(cfg, capacity, es, c)
  {
    hide Room, Without, Appended, Lookup, Image;
    if c.args != [] {
      RoomIs(capacity, es, c);
    }
  }

  // ----- enumeration

  /** The enumeration stands still exactly at a name that is not in the environment. */
  lemma EnumStandsStill(es: Entries, last: string)
    ensures NextAfter(es, Some(last)) == Unchanged <==> Lookup(es, NamePart(last)) == None
  {
  }
}
