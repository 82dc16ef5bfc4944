/** Division facts used by several components. */
module Arith {

  /** Quotient and remainder are unique. */
  lemma DivModUnique(x: int, e: int, q: int, r: int)
    requires e > 0 && x == q * e + r && 0 <= r < e
    ensures x / e == q && x % e == r
  {
    var q', r' := x / e, x % e;
    assert x == q' * e + r';
    assert (q - q') * e == r' - r && (q' - q) * e == r - r';
    if q > q' {
      MulAtLeast(q - q', e);
    } else if q < q' {
      MulAtLeast(q' - q, e);
    }
  }

  lemma MulAtLeast(k: int, e: int)
    requires k >= 1 && e >= 0
    ensures k * e >= e
  {
    assert k * e == e + (k - 1) * e;
    assert (k - 1) * e >= 0;
  }

  lemma MulMonotone(a: int, b: int, e: int)
    requires a <= b && e >= 0
    ensures a * e <= b * e
  {
    assert (b - a) * e >= 0;
    assert (b - a) * e == b * e - a * e;
  }

  lemma ModShift(a: int, k: int, e: int)
    requires e > 0
    ensures (a + k * e) % e == a % e
    ensures (a + k * e) / e == a / e + k
  {
    assert a == (a / e) * e + a % e;
    assert a + k * e == (a / e + k) * e + a % e;
    DivModUnique(a + k * e, e, a / e + k, a % e);
  }

  lemma MulAssociates(a: int, b: int, c: int)
    ensures a * (b * c) == (a * b) * c == (a * c) * b
  {
  }

  lemma MulDistributes(a: int, b: int, c: int)
    ensures (a + b) * c == a * c + b * c
  {
  }

  /** Dividing by a product is dividing twice. */
  lemma DivModNested(b: nat, s: nat, h: nat)
    requires s > 0 && h > 0
    ensures s * h > 0
    ensures b / (s * h) == (b / s) / h
    ensures (b % (s * h)) / s == (b / s) % h
    ensures (b % (s * h)) % s == b % s
  {
    var q, r := b / s, b % s;
    var t, u := q / h, q % h;
    var low := u * s + r;
    assert q == t * h + u;
    MulDistributes(t * h, u, s);
    MulAssociates(t, s, h);
    assert b == t * (s * h) + low;
    MulMonotone(0, u, s);
    MulMonotone(u, h - 1, s);
    MulDistributes(h - 1, 1, s);
    assert h * s == s * h;
    DivModUnique(b, s * h, t, low);
    DivModUnique(low, s, u, r);
  }
}
