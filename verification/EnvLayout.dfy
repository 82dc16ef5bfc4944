/** The environment as its meaning: an insertion-ordered list of `name=value` entries with distinct
    names, and the packed byte image of such a list, `name=value\0...name=value\0\0`. */
module EnvLayout {
  import opened Common

  datatype Entry = Entry(name: string, value: string)

  type Entries = seq<Entry>

  predicate CString(s: string) {
    '\0' !in s
  }

  predicate EntryOk(e: Entry) {
    CString(e.name) && '=' !in e.name && CString(e.value)
  }

  predicate Distinct(es: Entries) {
    forall i, j :: 0 <= i < j < |es| ==> es[i].name != es[j].name
  }

  predicate WellFormed(es: Entries) {
    Distinct(es) && forall i :: 0 <= i < |es| ==> EntryOk(es[i])
  }

  function Text(e: Entry): string {
    e.name + "=" + e.value
  }

  function Flat(es: Entries): string {
    if es == [] then "" else Text(es[0]) + "\0" + Flat(es[1..])
  }

  /** The empty environment is two NULs, like the delete code leaves behind. */
  function Image(es: Entries): string {
    if es == [] then "\0\0" else Flat(es) + "\0"
  }

  /** The array contents `d` begin with the image of `es`; bytes after the double NUL are free. */
  predicate Holds(d: string, es: Entries) {
    WellFormed(es) && Image(es) <= d
  }

  /** Position of the entry called `name`, or -1. */
  function Index(es: Entries, name: string): (k: int)
    ensures -1 <= k < |es|
    ensures k >= 0 ==> es[k].name == name && forall j :: 0 <= j < k ==> es[j].name != name
    ensures k == -1 <==> forall j :: 0 <= j < |es| ==> es[j].name != name
  {
    if es == [] then -1
    else if es[0].name == name then 0
    else
      var k := Index(es[1..], name);
      assert forall j :: 0 < j < |es| ==> es[j] == es[1..][j - 1];
      assert k == -1 ==> forall j :: 0 <= j < |es| ==> es[j].name != name;
      if k == -1 then -1 else k + 1
  }

  /** What a map from names to values would answer. */
  function Lookup(es: Entries, name: string): Option<string> {
    var k := Index(es, name);
    if k == -1 then None else Some(es[k].value)
  }

  function Drop(es: Entries, k: nat): Entries
    requires k < |es|
  {
    es[..k] + es[k + 1..]
  }

  /** `envmatch` accepts a plain name or a whole `name=value` pair. */
  function NamePart(s: string): (n: string)
    ensures '=' !in n && n <= s
    ensures n == s || s[|n|] == '='
  {
    if s == "" || s[0] == '=' then "" else [s[0]] + NamePart(s[1..])
  }

  /** Two readings of "the first `c`" are the same position. */
  lemma FirstUnique(s: string, c: char, m: nat, n: nat)
    requires m < |s| && s[m] == c && forall i :: 0 <= i < m ==> s[i] != c
    requires n <= |s| && (n == |s| || s[n] == c) && forall i :: 0 <= i < n ==> s[i] != c
    ensures m == n
  {
  }

  lemma NamePartOfText(e: Entry)
    requires EntryOk(e)
    ensures NamePart(Text(e)) == e.name
  {
    var n := NamePart(Text(e));
    assert forall i :: 0 <= i < |n| ==> Text(e)[i] == n[i];
    FirstUnique(Text(e), '=', |e.name|, |n|);
  }

  lemma TextInjective(a: Entry, b: Entry)
    requires EntryOk(a) && EntryOk(b) && Text(a) == Text(b)
    ensures a == b
  {
    NamePartOfText(a);
    NamePartOfText(b);
    assert a.value == Text(a)[|a.name| + 1..];
    assert b.value == Text(b)[|b.name| + 1..];
  }

  // ----- shape of the image

  lemma {:induction false} FlatConcat(a: Entries, b: Entries)
    ensures Flat(a + b) == Flat(a) + Flat(b)
  {
    if a == [] {
      assert a + b == b;
    } else {
      assert (a + b)[1..] == a[1..] + b;
      FlatConcat(a[1..], b);
      assert Text(a[0]) + "\0" + (Flat(a[1..]) + Flat(b)) == Text(a[0]) + "\0" + Flat(a[1..]) + Flat(b);
    }
  }

  lemma {:induction false} FlatOne(e: Entry)
    ensures Flat([e]) == Text(e) + "\0"
  {
    assert [e][1..] == [];
  }

  lemma {:induction false} FlatSplit(es: Entries, k: nat)
    requires k < |es|
    ensures Flat(es[..k + 1]) == Flat(es[..k]) + (Text(es[k]) + "\0")
    ensures Flat(es) == Flat(es[..k + 1]) + Flat(es[k + 1..])
  {
    assert es == es[..k + 1] + es[k + 1..];
    FlatConcat(es[..k + 1], es[k + 1..]);
    assert es[..k + 1] == es[..k] + [es[k]];
    FlatConcat(es[..k], [es[k]]);
    FlatOne(es[k]);
  }

  /** Each entry's text is where `Flat` puts it, free of NULs, and closed by one. */
  lemma EntryAt(es: Entries, k: nat)
    requires k < |es| && WellFormed(es)
    ensures var p, n := |Flat(es[..k])|, |Text(es[k])|;
            && p + n + 1 == |Flat(es[..k + 1])| <= |Flat(es)|
            && Image(es)[p..p + n] == Text(es[k])
            && Image(es)[p + n] == '\0'
            && n > 0 && CString(Text(es[k]))
  {
    FlatSplit(es, k);
  }

  lemma EndAt(es: Entries)
    ensures Image(es)[|Flat(es)|] == '\0'
    ensures |Image(es)| == if es == [] then 2 else |Flat(es)| + 1
    ensures es != [] ==> |Flat(es)| >= 2 && Image(es)[|Flat(es)| - 1] == '\0'
  {
    if es != [] {
      FlatSplit(es, |es| - 1);
      assert es[..|es| - 1 + 1] == es;
    }
  }

  /** Inside the packed entries a NUL is always followed by the next entry's first byte. */
  lemma {:induction false} NoDoubleNul(es: Entries, j: nat)
    requires WellFormed(es) && j + 1 < |Flat(es)| && Flat(es)[j] == '\0'
    ensures Flat(es)[j + 1] != '\0'
  {
    var n := |Text(es[0])|;
    assert forall i :: 0 <= i < n ==> Flat(es)[i] == Text(es[0])[i] && Flat(es)[i] != '\0';
    assert j >= n;
    assert Flat(es)[j + 1] == Flat(es[1..])[j - n];
    if j == n {
      assert Flat(es[1..])[0] == Text(es[1..][0])[0];
    } else if j > n {
      NoDoubleNul(es[1..], j - n - 1);
    }
  }

  /** The entries of `es` followed by a NUL: what a suffix of an image looks like. */
  predicate Packed(d: string, es: Entries) {
    WellFormed(es) && Flat(es) + "\0" <= d
  }

  lemma PackedHead(d: string, es: Entries)
    requires Packed(d, es)
    ensures d[0] == '\0' <==> es == []
    ensures es != [] ==>
      var n := |Text(es[0])|;
      && n + 1 < |d| && d[..n] == Text(es[0]) && d[n] == '\0'
      && Packed(d[n + 1..], es[1..])
  {
    if es == [] {
      assert (Flat(es) + "\0")[0] == '\0';
    } else {
      var all, n := Flat(es) + "\0", |Text(es[0])|;
      assert all == Text(es[0]) + ("\0" + (Flat(es[1..]) + "\0"));
      assert all[0] == Text(es[0])[0] && all[n] == '\0' && all[..n] == Text(es[0]);
      assert all[n + 1..] == Flat(es[1..]) + "\0";
      assert d[..|all|] == all;
      assert d[..n] == all[..n];
      assert d[n + 1..][..|all| - n - 1] == all[n + 1..];
    }
  }

  lemma {:induction false} PackedInjective(d: string, a: Entries, b: Entries)
    requires Packed(d, a) && Packed(d, b)
    ensures a == b
    decreases |a|
  {
    PackedHead(d, a);
    PackedHead(d, b);
    if a != [] {
      var m, n := |Text(a[0])|, |Text(b[0])|;
      assert forall i :: 0 <= i < m ==> d[i] == Text(a[0])[i];
      assert forall i :: 0 <= i < n ==> d[i] == Text(b[0])[i];
      FirstUnique(d, '\0', m, n);
      TextInjective(a[0], b[0]);
      PackedInjective(d[|Text(a[0])| + 1..], a[1..], b[1..]);
      assert a == [a[0]] + a[1..] && b == [b[0]] + b[1..];
    }
  }

  /** The image determines the list: two readings of the same bytes agree. */
  lemma ImageInjective(d: string, a: Entries, b: Entries)
    requires Holds(d, a) && Holds(d, b)
    ensures a == b
  {
    PackedInjective(d, a, b);
  }
}
