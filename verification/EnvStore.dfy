/** The environment bytes and the loops that edit them in place. Every method is proved against the
    list semantics of `EnvRules`. */
module EnvStore {
  import opened Common
  import opened EnvLayout
  import opened EnvRules

  /** `env_get_addr` of a position, or NULL, or the caller's own `last` pointer. */
  datatype Pointer = At(index: nat) | Null | Same

  /** The C string that starts at `p` is `s`. */
  predicate StringAt(d: string, p: nat, s: string) {
    p + |s| < |d| && d[p..p + |s|] == s && d[p + |s|] == '\0'
  }

  /** After an append so far: the old bytes before `start`, then `text` and a NUL. */
  ghost predicate Written(d: string, was: string, start: nat, text: string) {
    && start + |text| < |d| == |was| && d[start + |text|] == '\0'
    && (forall j :: 0 <= j < start ==> d[j] == was[j])
    && forall j :: start <= j < start + |text| ==> d[j] == text[j - start]
  }

  lemma WrittenMore(was: string, mid: string, now: string, start: nat, text: string, c: char, s: string)
    requires Written(mid, was, start, text) && |now| == |mid|
    requires var p := start + |text|;
      && p + 1 + |s| < |now| && now[p] == c && now[p + 1 + |s|] == '\0'
      && (forall j :: 0 <= j < p ==> now[j] == mid[j])
      && forall j :: p < j < p + 1 + |s| ==> now[j] == s[j - p - 1]
    ensures Written(now, was, start, text + [c] + s)
  {
  }

  predicate DoubleNul(d: string, j: nat)
    requires j + 1 < |d|
  {
    d[j] == '\0' && d[j + 1] == '\0'
  }

  /** The first double NUL of an image is its end. */
  lemma DoubleNulOfImage(d: string, es: Entries)
    requires Holds(d, es) && es != []
    ensures 1 < |Flat(es)| < |d| && DoubleNul(d, |Flat(es)| - 1)
    ensures forall j :: 0 <= j < |Flat(es)| - 1 ==> !DoubleNul(d, j)
  {
    EndAt(es);
    assert forall i :: 0 <= i < |Image(es)| ==> d[i] == Image(es)[i];
    forall j | 0 <= j < |Flat(es)| - 1
      ensures !DoubleNul(d, j)
    {
      assert d[j] == Flat(es)[j] && d[j + 1] == Flat(es)[j + 1];
      if d[j] == '\0' {
        NoDoubleNul(es, j);
      }
    }
  }

  lemma DropWellFormed(es: Entries, k: nat)
    requires WellFormed(es) && k < |es|
    ensures WellFormed(Drop(es, k))
  {
    DropIsWithout(es, k);
    WithoutSound(es, es[k].name);
  }

  lemma DropImage(es: Entries, k: nat)
    requires k < |es|
    ensures var p, b := Flat(es[..k]), Flat(es[k + 1..]);
            Image(Drop(es, k)) == if p + b == "" then "\0\0" else p + b + "\0"
  {
    FlatConcat(es[..k], es[k + 1..]);
    FlatPositive(es[..k]);
    FlatPositive(es[k + 1..]);
  }

  lemma {:induction false} JoinStep(args: seq<string>, i: nat)
    requires i < |args|
    ensures Join(args[..i + 1]) == if i == 0 then args[0] else Join(args[..i]) + " " + args[i]
  {
    assert args[..i + 1][..i] == args[..i];
  }

  lemma {:induction false} JoinMonotone(args: seq<string>, i: nat)
    requires i <= |args|
    ensures |Join(args[..i])| <= |Join(args)|
    decreases |args| - i
  {
    if i == |args| {
      assert args[..i] == args;
    } else {
      JoinStep(args, i);
      JoinMonotone(args, i + 1);
    }
  }

  lemma FlatIsPrefix(es: Entries)
    ensures Flat(es) <= Image(es)
  {
  }

  lemma FlatPositive(es: Entries)
    ensures es != [] ==> |Flat(es)| > 1
  {
  }

  lemma SplicedOut(was: string, now: string, p: string, m: string, b: string)
    requires p + m + b <= was && |now| == |was|
    requires now[..|p|] == was[..|p|]
    requires now[|p|..|p| + |b|] == was[|p| + |m|..|p| + |m| + |b|]
    ensures p + b <= now
  {
    assert was[..|p|] == p && was[|p| + |m|..|p| + |m| + |b|] == b;
    assert now[..|p| + |b|] == now[..|p|] + now[|p|..|p| + |b|];
  }

  /** After the shift, the bytes are the image without entry `k`. */
  lemma DroppedImage(was: string, now: string, es: Entries, k: nat)
    requires Image(es) <= was && k < |es| && |now| == |was|
    requires var p, m, b := |Flat(es[..k])|, |Text(es[k])| + 1, |Flat(es[k + 1..])|;
      && p + m + b < |now| && now[p + b] == '\0' && (p + b == 0 ==> now[1] == '\0')
      && now[..p] == was[..p] && now[p..p + b] == was[p + m..p + m + b]
    ensures Image(Drop(es, k)) <= now
  {
    hide Flat, Image, Text;
    FlatSplit(es, k);
    FlatIsPrefix(es);
    DropImage(es, k);
    var p, m, b := Flat(es[..k]), Text(es[k]) + "\0", Flat(es[k + 1..]);
    assert p + m + b == Flat(es) <= Image(es) <= was;
    SplicedOut(was, now, p, m, b);
    assert p + b + "\0" <= now;
  }

  lemma AppendedImage(es: Entries, e: Entry)
    ensures Image(es + [e]) == Flat(es) + Text(e) + "\0" + "\0"
  {
    FlatConcat(es, [e]);
    FlatOne(e);
  }

  lemma AppendedHolds(was: string, mid: string, now: string, es: Entries, e: Entry)
    requires Holds(was, es) && EntryOk(e) && forall i :: 0 <= i < |es| ==> es[i].name != e.name
    requires var n := |Flat(es)| + |Text(e)|;
      && Written(mid, was, |Flat(es)|, Text(e))
      && n + 1 < |mid| && now == mid[n + 1 := '\0']
    ensures Holds(now, es + [e])
  {
    AppendedImage(es, e);
    EndAt(es);
    assert Flat(es) <= Image(es) <= was;
    Concatenated(was, mid, now, Flat(es), Text(e));
    assert forall i :: 0 <= i < |es| ==> (es + [e])[i] == es[i];
  }

  lemma Concatenated(was: string, mid: string, now: string, f: string, t: string)
    requires f <= was && Written(mid, was, |f|, t)
    requires |f| + |t| + 1 < |mid| && now == mid[|f| + |t| + 1 := '\0']
    ensures f + t + "\0" + "\0" <= now
  {
    assert forall j :: 0 <= j < |f| ==> was[j] == f[j];
    assert now[..|f| + |t| + 2] == f + t + "\0" + "\0";
  }

  class Environment {
    const data: array<char>
    const configEnvSize: nat
    const cfg: Config
    var envId: int
    ghost var entries: Entries

    function Bytes(): string
      reads data
    {
      data[..]
    }

    ghost predicate Valid()
      reads this, data
    {
      && Holds(Bytes(), entries) && data.Length <= configEnvSize
      && (cfg.ethaddrOnce.Some? ==> CString(cfg.ethaddrOnce.value))
    }

    constructor (size: nat, header: nat, cfg: Config)
      requires size >= 2 && (cfg.ethaddrOnce.Some? ==> CString(cfg.ethaddrOnce.value))
      ensures Valid() && entries == [] && data.Length == size && this.cfg == cfg
      ensures fresh(data) && envId == 1
    {
      data := new char[size](_ => '\0');
      configEnvSize := size + header;
      this.cfg := cfg;
      envId := 1;
      entries := [];
    }

    /** Where entry `k` starts. */
    ghost function Start(k: nat): (p: nat)
      requires k <= |entries|
      reads this
    {
      |Flat(entries[..k])|
    }

    lemma StartZero()
      ensures Start(0) == 0
    {
      assert entries[..0] == [];
    }

    /** Reading facts about entry `k` of a valid store. */
    lemma ReadEntry(k: nat)
      requires Valid() && k < |entries|
      ensures Start(k) + |Text(entries[k])| + 1 == Start(k + 1) < data.Length
      ensures forall j :: Start(k) <= j < Start(k) + |Text(entries[k])| ==>
                data[j] == Text(entries[k])[j - Start(k)] && data[j] != '\0'
      ensures data[Start(k) + |Text(entries[k])|] == '\0'
      ensures |Text(entries[k])| > 0
    {
      EntryAt(entries, k);
      EndAt(entries);
      var p, t := Start(k), Text(entries[k]);
      forall j | p <= j < p + |t|
        ensures data[j] == t[j - p]
      {
        assert t[j - p] == Image(entries)[p..p + |t|][j - p];
      }
    }

    lemma ValueAt(k: nat)
      requires Valid() && k < |entries|
      ensures StringAt(Bytes(), Start(k) + |entries[k].name| + 1, entries[k].value)
    {
      hide Flat, Image;
      ReadEntry(k);
      var e := entries[k];
      assert Text(e) == e.name + "=" + e.value;
      assert forall i :: 0 <= i < |e.value| ==> e.value[i] == Text(e)[|e.name| + 1 + i];
    }

    lemma ReadEnd()
      requires Valid()
      ensures Start(|entries|) == |Flat(entries)| < data.Length
      ensures data[Start(|entries|)] == '\0'
    {
      assert entries[..|entries|] == entries;
      EndAt(entries);
    }

    /** The outer scanning loops stop exactly at the end of the list. */
    lemma StopsAtEnd(k: nat)
      requires Valid() && k <= |entries|
      ensures Start(k) < data.Length
      ensures data[Start(k)] == '\0' <==> k == |entries|
    {
      if k < |entries| {
        ReadEntry(k);
      } else {
        ReadEnd();
      }
    }

    /** `envmatch`: walk the argument and the entry in step. */
    method Envmatch(s1: string, start: nat, ghost k: nat) returns (r: int)
      requires Valid() && CString(s1) && k < |entries| && start == Start(k)
      ensures r == if NamePart(s1) == entries[k].name then start + |entries[k].name| + 1 else -1
    {
      hide Flat, Image, NamePart;
      ReadEntry(k);
      ghost var t, n := Text(entries[k]), |entries[k].name|;
      assert t[n] == '=';
      var p, i2 := 0, start;
      while (if p < |s1| then s1[p] else '\0') == data[i2]
        invariant 0 <= p <= |s1| && p <= n && i2 == start + p
        invariant s1[..p] == t[..p]
        decreases |s1| - p
      {
        if s1[p] == '=' {
          assert p == n;
          NameIs(s1, p);
          return i2 + 1;
        }
        p, i2 := p + 1, i2 + 1;
      }
      if p == |s1| && data[i2] == '=' {
        assert p == n;
        NameIs(s1, p);
        return i2 + 1;
      }
      Mismatch(s1, entries[k], p);
      return -1;
    }

    static lemma NameIs(s: string, p: nat)
      requires p <= |s| && '=' !in s[..p] && (p == |s| || s[p] == '=')
      ensures NamePart(s) == s[..p]
    {
      var n := NamePart(s);
      assert forall i :: 0 <= i < p ==> s[i] == s[..p][i];
      assert forall i :: 0 <= i < |n| ==> s[i] == n[i];
      assert |n| == p;
    }

    static lemma Mismatch(s: string, e: Entry, p: nat)
      requires EntryOk(e) && CString(s) && p <= |s| && p <= |e.name| && s[..p] == Text(e)[..p]
      requires if p == |s| then Text(e)[p] != '=' else s[p] != Text(e)[p]
      ensures NamePart(s) != e.name
    {
      var n := NamePart(s);
      assert forall i :: 0 <= i < |n| ==> s[i] == n[i];
      assert forall i :: 0 <= i < |e.name| ==> Text(e)[i] == e.name[i];
    }

    /** `for (nxt = i; env_get_char(nxt) != '\0'; ++nxt)`, from an entry's start. */
    method FindNul(i: nat, ghost k: nat) returns (nxt: nat)
      requires Valid() && k < |entries| && i == Start(k)
      ensures nxt == i + |Text(entries[k])| && nxt + 1 == Start(k + 1) && nxt < data.Length
    {
      ReadEntry(k);
      nxt := i;
      while data[nxt] != '\0'
        invariant i <= nxt <= i + |Text(entries[k])|
        decreases i + |Text(entries[k])| - nxt
      {
        nxt := nxt + 1;
      }
    }

    /** The scanning loop that `_do_setenv`, `getenv` and `API_env_enum` share: find the first entry that
        matches. `pos` is its value's address, or -1; `env` and `nxt` are its first byte and its NUL. */
    method Search(name: string) returns (env: nat, nxt: nat, pos: int)
      requires Valid() && CString(name)
      ensures var k := Index(entries, NamePart(name));
              if k == -1 then pos == -1
              else && env == Start(k) && nxt + 1 == Start(k + 1) < data.Length
                   && pos == Start(k) + |entries[k].name| + 1
    {
      hide Flat, Image, Text, NamePart;
      StartZero();
      env, nxt, pos := 0, 0, -1;
      ghost var k := 0;
      StopsAtEnd(0);
      while data[env] != '\0'
        invariant 0 <= k <= |entries| && env == Start(k) < data.Length
        invariant data[env] == '\0' <==> k == |entries|
        invariant forall j :: 0 <= j < k ==> entries[j].name != NamePart(name)
        invariant pos == -1
        decreases |entries| - k
      {
        nxt := FindNul(env, k);
        pos := Envmatch(name, env, k);
        StopsAtEnd(k + 1);
        if pos >= 0 {
          return;
        }
        env, k := nxt + 1, k + 1;
      }
    }

    /** `getenv`: the address of the value, which is what a map lookup answers. */
    method GetEnv(name: string) returns (r: Option<nat>)
      requires Valid() && CString(name)
      ensures r.Some? <==> Lookup(entries, NamePart(name)).Some?
      ensures r.Some? ==> StringAt(Bytes(), r.value, Lookup(entries, NamePart(name)).value)
    {
      var _, _, val := Search(name);
      if val < 0 {
        return None;
      }
      ValueAt(Index(entries, NamePart(name)));
      return Some(val);
    }

    /** `API_env_enum`. */
    method EnvEnum(last: Option<string>) returns (r: Pointer)
      requires Valid() && (last.Some? ==> CString(last.value))
      ensures r == match NextAfter(entries, last)
                   case AtEntry(k) => if k <= |entries| then At(Start(k)) else Null
                   case AtEnd => Null
                   case Unchanged => Same
    {
      hide Flat, Image, Text, NamePart;
      StartZero();
      if last == None {
        return At(0);
      }
      var _, n, val := Search(last.value);
      if val < 0 {
        return Same;
      }
      StopsAtEnd(Index(entries, NamePart(last.value)) + 1);
      if data[n + 1] == '\0' {
        return Null;
      }
      return At(n + 1);
    }

    /** Shift the bytes from `src` down to `dst`, up to the first double NUL, whose second byte is `end`;
        the result is where that byte belongs. */
    method ShiftDown(dst: nat, src: nat, ghost end: nat) returns (env: nat)
      requires dst < src < end < data.Length && DoubleNul(data[..], end - 1)
      requires forall j :: src <= j < end - 1 ==> !DoubleNul(data[..], j)
      modifies data
      ensures env == end - (src - dst)
      ensures data[..dst] == old(data[..dst])
      ensures data[dst..env] == old(data[src..end])
    {
      ghost var was := data[..];
      var nxt := src;
      env := dst;
      while true
        invariant dst <= env && nxt - env == src - dst && nxt < end
        invariant forall j :: dst <= j < env ==> data[j] == was[j + (src - dst)]
        invariant forall j :: 0 <= j < dst || env <= j < data.Length ==> data[j] == was[j]
        decreases end - nxt
      {
        data[env] := data[nxt];
        nxt := nxt + 1;
        assert DoubleNul(was, nxt - 1) <==> data[env] == '\0' && data[nxt] == '\0';
        env := env + 1;
        if data[env - 1] == '\0' && data[nxt] == '\0' {
          break;
        }
      }
    }

    /** The in-place delete of entry `k`. */
    method DeleteEntry(start: nat, nul: nat, ghost k: nat)
      requires Valid() && k < |entries| && start == Start(k) && nul + 1 == Start(k + 1) < data.Length
      modifies this`entries, data
      ensures Valid() && entries == Drop(old(entries), k)
    {
      ghost var es := entries;
      StopsAtEnd(k + 1);
      FlatSplit(es, k);
      FlatPositive(es[..k]);
      FlatPositive(es[k + 1..]);
      DropWellFormed(es, k);
      DeleteBytes(start, nul, es, k);
      entries := Drop(es, k);
    }

    method DeleteBytes(start: nat, nul: nat, ghost es: Entries, ghost k: nat)
      requires Holds(Bytes(), es) && k < |es|
      requires start == |Flat(es[..k])| && nul == start + |Text(es[k])|
      requires nul + 1 + |Flat(es[k + 1..])| == |Flat(es)|
      requires nul + 1 < data.Length && (data[nul + 1] == '\0' <==> k + 1 == |es|)
      requires k + 1 == |es| <==> Flat(es[k + 1..]) == ""
      modifies data
      ensures Image(Drop(es, k)) <= Bytes()
    {
      hide Flat, Image;
      DoubleNulOfImage(Bytes(), es);
      ghost var was := data[..];
      CloseGap(start, nul, |Flat(es)|);
      DroppedImage(was, data[..], es, k);
    }

    method CloseGap(start: nat, nul: nat, ghost end: nat)
      requires start < nul < end < data.Length && DoubleNul(data[..], end - 1)
      requires forall j :: 0 <= j < end - 1 ==> !DoubleNul(data[..], j)
      requires data[nul + 1] == '\0' <==> nul + 1 == end
      modifies data
      ensures var b := end - (nul + 1);
        && data[..start] == old(data[..start])
        && data[start..start + b] == old(data[nul + 1..end])
        && data[start + b] == '\0'
        && (start + b == 0 ==> data[1] == '\0')
    {
      var env := start;
      if data[nul + 1] == '\0' {
        if env > 0 {
          env := env - 1;
        } else {
          data[env] := '\0';
        }
        env := env + 1;
      } else {
        env := ShiftDown(start, nul + 1, end);
      }
      data[env] := '\0';
    }

    /** `while ((*env = *s++) != '\0') env++`: copy a string with its NUL. */
    method CopyString(start: nat, s: string) returns (env: nat)
      requires start + |s| < data.Length
      modifies data
      ensures env == start + |s|
      ensures forall j :: 0 <= j < data.Length ==>
        data[j] == if j < start || j > env then old(data[j]) else if j == env then '\0' else s[j - start]
    {
      env := start;
      var p := 0;
      while p < |s|
        invariant 0 <= p <= |s| && env == start + p
        invariant forall j :: 0 <= j < data.Length ==>
          data[j] == if j < start || j >= env then old(data[j]) else s[j - start]
      {
        data[env] := s[p];
        env, p := env + 1, p + 1;
      }
      data[env] := '\0';
    }

    /** `strlen(name) + 2` plus one more than each argument's length. */
    static method EntrySize(name: string, args: seq<string>) returns (len: nat)
      requires args != []
      ensures len == |Text(Entry(name, Join(args)))| + 2
    {
      len := |name| + 2;
      for i := 0 to |args|
        invariant len == |name| + 2 + if i == 0 then 0 else |Join(args[..i])| + 1
      {
        JoinStep(args, i);
        len := len + |args[i]| + 1;
      }
      assert args[..|args|] == args;
    }

    /** One separator and one argument behind the text written so far. */
    method WriteArgument(env: nat, c: char, arg: string, ghost was: string, ghost start: nat, ghost text: string)
      returns (next: nat)
      requires env == start + |text| && env + 1 + |arg| < data.Length
      requires Written(data[..], was, start, text)
      modifies data
      ensures next == env + 1 + |arg| && Written(data[..], was, start, text + [c] + arg)
    {
      hide Written;
      ghost var mid := data[..];
      data[env] := c;
      next := CopyString(env + 1, arg);
      WrittenMore(was, mid, data[..], start, text, c, arg);
    }

    /** Write `name=arg1 arg2 ...` and its NUL from `start` on. */
    method WriteEntry(start: nat, name: string, args: seq<string>) returns (env: nat)
      requires args != [] && start + |Text(Entry(name, Join(args)))| < data.Length
      modifies data
      ensures env == start + |Text(Entry(name, Join(args)))|
      ensures Written(data[..], old(data[..]), start, Text(Entry(name, Join(args))))
    {
      hide Join, Written;
      ghost var was := data[..];
      env := CopyName(start, name);
      ghost var text := name;
      for i := 0 to |args|
        invariant env == start + |text| && Written(data[..], was, start, text)
        invariant text == if i == 0 then name else name + "=" + Join(args[..i])
      {
        JoinStep(args, i);
        JoinMonotone(args, i + 1);
        var c := if i == 0 then '=' else ' ';
        env := WriteArgument(env, c, args[i], was, start, text);
        text := text + [c] + args[i];
        assert text == name + "=" + Join(args[..i + 1]);
      }
      assert args[..|args|] == args;
    }

    method CopyName(start: nat, name: string) returns (env: nat)
      requires start + |name| < data.Length
      modifies data
      ensures env == start + |name| && Written(data[..], old(data[..]), start, name)
    {
      env := CopyString(start, name);
    }

    /** Append `name=arg1 arg2 ...` after the last entry, or report that it does not fit. */
    method AppendEntry(name: string, args: seq<string>) returns (rc: int)
      requires Valid() && args != []
      requires CString(name) && '=' !in name && forall i :: 0 <= i < |args| ==> CString(args[i])
      requires forall i :: 0 <= i < |entries| ==> entries[i].name != name
      modifies this`entries, data
      ensures Valid()
      ensures var full := old(entries) + [Entry(name, Join(args))];
              if |Image(full)| <= data.Length then rc == 0 && entries == full
              else rc == 1 && entries == old(entries) && Bytes() == old(Bytes())
    {
      ghost var es, was := entries, data[..];
      ghost var e := Entry(name, Join(args));
      hide Flat, Join;
      JoinIsCString(args);
      AppendedImage(es, e);
      var env := FindEnd();
      if env > 0 {
        env := env + 1;
      }
      assert env == |Flat(es)|;
      var len := EntrySize(name, args);
      if len > data.Length - env {
        return 1;
      }
      env := WriteEntry(env, name, args);
      ghost var mid := data[..];
      env := env + 1;
      data[env] := '\0';
      AppendedHolds(was, mid, data[..], es, e);
      entries := es + [e];
      return 0;
    }

    /** `for (env = env_data; *env || *(env+1); ++env)`: the first double NUL. */
    method FindEnd() returns (env: nat)
      requires Valid()
      ensures env == if entries == [] then 0 else |Flat(entries)| - 1
    {
      ghost var end := if entries == [] then 0 else |Flat(entries)| - 1;
      if entries != [] {
        DoubleNulOfImage(Bytes(), entries);
      }
      assert DoubleNul(data[..], end) && forall j :: 0 <= j < end ==> !DoubleNul(data[..], j);
      env := 0;
      while data[env] != '\0' || data[env + 1] != '\0'
        invariant env <= end
        decreases end - env
      {
        assert !DoubleNul(data[..], env) ==> env < end;
        env := env + 1;
      }
      assert DoubleNul(data[..], env);
    }

    /** `strcmp` of the value at `pos` with a fixed string. */
    method ValueEquals(pos: nat, s: string, ghost k: nat) returns (eq: bool)
      requires Valid() && CString(s) && k < |entries| && pos == Start(k) + |entries[k].name| + 1
      ensures eq <==> entries[k].value == s
    {
      hide Flat, Image, Text, NamePart;
      ValueAt(k);
      ghost var v := entries[k].value;
      assert CString(v);
      assert forall j :: pos <= j < pos + |v| ==> data[j] == Bytes()[pos..pos + |v|][j - pos];
      var p := 0;
      while p < |s| && data[pos + p] == s[p]
        invariant 0 <= p <= |s| && p <= |v| && s[..p] == v[..p]
      {
        p := p + 1;
      }
      eq := p == |s| && data[pos + p] == '\0';
      assert s == v ==> forall j :: pos <= j < pos + |v| ==> data[j] == s[j - pos];
      assert p == |s| ==> s == v[..p];
    }

    method IsProtected(c: Call, oldval: nat, ghost k: nat) returns (b: bool)
      requires Valid() && k < |entries| && entries[k].name == c.name && oldval == Start(k) + |c.name| + 1
      ensures b == Protected(cfg, c.flag, c.name, entries[k].value)
    {
      if cfg.overwrite {
        return false;
      }
      if c.name == "serial#" && !(cfg.hasUid && c.flag == FORCE_FLAG) {
        return true;
      }
      if c.name != "ethaddr" {
        return false;
      }
      match cfg.ethaddrOnce {
        case None => return true;
        case Some(default_) =>
          var same := ValueEquals(oldval, default_, k);
          return !same;
      }
    }

    /** The checks between finding an old definition and deleting it. */
    method IsRefused(c: Call, oldval: nat, ghost k: nat) returns (b: bool)
      requires Valid() && k < |entries| && entries[k].name == c.name && oldval == Start(k) + |c.name| + 1
      ensures b <==> Protected(cfg, c.flag, c.name, entries[k].value) || Vetoed(c)
    {
      var isProtected := IsProtected(c, oldval, k);
      if isProtected {
        return true;
      }
      if c.name in {"stdin", "stdout", "stderr"} && (c.args == [] || !c.consoleOk) {
        return true;
      }
      return c.name == "baudrate" && !c.baudOk;
    }

    /** The first half of `_do_setenv`: look the name up and delete any existing definition. */
    method DeleteOld(c: Call) returns (refused: bool)
      requires Valid() && CallOk(c) && '=' !in c.name
      modifies this`entries, data
      ensures Valid()
      ensures refused == Refused(cfg, old(entries), c)
      ensures entries == if refused then old(entries) else Without(old(entries), c.name)
    {
      hide Flat, Image, Text, NamePart, Without, Join;
      NameIs(c.name, |c.name|);
      assert c.name[..|c.name|] == c.name;
      var env, nxt, oldval := Search(c.name);
      ghost var k := Index(entries, c.name);
      if oldval >= 0 {
        refused := IsRefused(c, oldval, k);
        if refused {
          return;
        }
        DropIsWithout(entries, k);
        DeleteEntry(env, nxt, k);
      } else {
        WithoutAbsent(entries, c.name);
        refused := false;
      }
    }

    /** `_do_setenv`. */
    method DoSetenv(c: Call) returns (rc: int)
      requires Valid() && CallOk(c)
      modifies this, data
      ensures Valid()
      ensures (entries, rc) == Apply(cfg, data.Length, old(entries), c)
      ensures envId == old(envId) + if '=' in c.name then 0 else 1
    {
      hide Flat, Image, Text, NamePart, Without, Join;
      if '=' in c.name {
        return 1;
      }
      envId := envId + 1;
      var refused := DeleteOld(c);
      if refused {
        return 1;
      }
      if c.args == [] {
        return 0;
      }
      WithoutSound(old(entries), c.name);
      assert forall i :: 0 <= i < |entries| ==> entries[i] in entries;
      rc := AppendEntry(c.name, c.args);
    }
  }
}
