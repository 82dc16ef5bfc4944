/** Words, bytes and sequences as several components use them. */
module Common {

  /** `ulong` has 32 bits. */
  const WRAP: nat := 0x1_0000_0000

  type byte = b: int | 0 <= b < 256

  datatype Option<+T> = None | Some(value: T)

  function Min(a: nat, b: nat): nat {
    if a < b then a else b
  }

  function Pow2(n: nat): (p: nat)
    ensures p >= 1
  {
    if n == 0 then 1 else 2 * Pow2(n - 1)
  }

  function Flatten(parts: seq<seq<byte>>): seq<byte> {
    if parts == [] then [] else parts[0] + Flatten(parts[1..])
  }

  function Sum(s: seq<byte>): nat {
    if s == [] then 0 else Sum(s[..|s| - 1]) + s[|s| - 1]
  }

  lemma {:induction false} SumConcat(a: seq<byte>, b: seq<byte>)
    ensures Sum(a + b) == Sum(a) + Sum(b)
    decreases |b|
  {
    if b == [] {
      assert a + b == a;
    } else {
      assert (a + b)[..|a + b| - 1] == a + b[..|b| - 1];
      SumConcat(a, b[..|b| - 1]);
    }
  }

  lemma SumOfOne(x: byte)
    ensures Sum([x]) == x
  {
    assert [x][..0] == [];
  }

  lemma SumUpdate(s: seq<byte>, i: nat, v: byte)
    requires i < |s|
    ensures Sum(s[i := v]) == Sum(s) - s[i] + v
  {
    hide Sum;
    SumConcat(s[..i], [s[i]]);
    SumConcat(s[..i] + [s[i]], s[i + 1..]);
    SumConcat(s[..i], [v]);
    SumConcat(s[..i] + [v], s[i + 1..]);
    SumOfOne(s[i]);
    SumOfOne(v);
    assert s == s[..i] + [s[i]] + s[i + 1..] && s[i := v] == s[..i] + [v] + s[i + 1..];
  }
}
