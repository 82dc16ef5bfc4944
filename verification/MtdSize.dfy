/** Sizes as text: `memsize_parse` (on top of `simple_strtoul` with base 0) undoes `memsize_format`. */
module MtdSize {
  import opened Common

  const KB: nat := 1024
  const MB: nat := 1024 * 1024
  const GB: nat := 1024 * 1024 * 1024

  /** The character a C string shows at its start. */
  function First(s: string): char {
    if s == "" then '\0' else s[0]
  }

  /** Value of a hexadecimal digit, or 16 for any other character. */
  function DigitValue(c: char): nat {
    if '0' <= c <= '9' then c as nat - '0' as nat
    else if 'a' <= c <= 'f' then c as nat - 'a' as nat + 10
    else if 'A' <= c <= 'F' then c as nat - 'A' as nat + 10
    else 16
  }

  /** The digit loop of `simple_strtoul`, in 32-bit arithmetic: value and unread rest. */
  function Digits(s: string, base: nat, acc: nat): (nat, string)
    requires base <= 16
  {
    if s != "" && DigitValue(s[0]) < base then Digits(s[1..], base, (acc * base + DigitValue(s[0])) % WRAP)
    else (acc, s)
  }

  function Strtoul(s: string): (nat, string) {
    if First(s) == '0' then
      if First(s[1..]) == 'x' && |s| > 2 && DigitValue(s[2]) < 16 then Digits(s[2..], 16, 0)
      else Digits(s[1..], 8, 0)
    else Digits(s, 10, 0)
  }

  /** `memsize_parse`: the G, M and K cases fall through. */
  function MemsizeParse(s: string): (r: (nat, string))
    ensures |r.1| <= |s|
  {
    DigitsShrink(s);
    var (v, rest) := Strtoul(s);
    var c := First(rest);
    if c in {'G', 'g'} then (v * GB % WRAP, rest[1..])
    else if c in {'M', 'm'} then (v * MB % WRAP, rest[1..])
    else if c in {'K', 'k'} then (v * KB % WRAP, rest[1..])
    else (v, rest)
  }

  lemma {:induction false} DigitsSuffix(s: string, base: nat, acc: nat)
    requires base <= 16
    ensures |Digits(s, base, acc).1| <= |s|
    decreases |s|
  {
    if s != "" && DigitValue(s[0]) < base {
      DigitsSuffix(s[1..], base, (acc * base + DigitValue(s[0])) % WRAP);
    }
  }

  lemma DigitsShrink(s: string)
    ensures |Strtoul(s).1| <= |s|
  {
    if First(s) == '0' {
      DigitsSuffix(s[1..], 8, 0);
      if |s| > 2 {
        DigitsSuffix(s[2..], 16, 0);
      }
    } else {
      DigitsSuffix(s, 10, 0);
    }
  }

  /** `%u`. */
  function Decimal(n: nat): (s: string)
    ensures s != ""
  {
    (if n < 10 then "" else Decimal(n / 10)) + [('0' as nat + n % 10) as char]
  }

  function MemsizeFormat(size: nat): string {
    if size % GB == 0 then Decimal(size / GB) + "g"
    else if size % MB == 0 then Decimal(size / MB) + "m"
    else if size % KB == 0 then Decimal(size / KB) + "k"
    else Decimal(size)
  }

  lemma {:induction false} DecimalDigits(n: nat)
    ensures forall i :: 0 <= i < |Decimal(n)| ==> '0' <= Decimal(n)[i] <= '9'
    ensures n > 0 ==> Decimal(n)[0] != '0'
    ensures n == 0 ==> Decimal(n) == "0"
  {
    if n >= 10 {
      DecimalDigits(n / 10);
    }
  }

  /** Reading back the printed digits of `n` after an accumulated prefix. */
  lemma {:induction false} DigitsOfDecimal(n: nat, rest: string)
    requires n < WRAP && (rest == "" || DigitValue(rest[0]) >= 10)
    ensures Digits(Decimal(n) + rest, 10, 0) == (n, rest)
  {
    DigitsContinue(n, rest);
  }

  lemma DigitStep(k: nat, rest: string, acc: nat)
    requires k < 10
    ensures Digits([('0' as nat + k) as char] + rest, 10, acc) == Digits(rest, 10, (acc * 10 + k) % WRAP)
  {
    var s := [('0' as nat + k) as char] + rest;
    assert s[1..] == rest && DigitValue(s[0]) == k;
  }

  lemma {:induction false} DigitsContinue(n: nat, rest: string)
    requires n < WRAP
    ensures Digits(Decimal(n) + rest, 10, 0) == Digits(rest, 10, n)
    decreases n
  {
    hide Digits;
    var d := [('0' as nat + n % 10) as char];
    if n < 10 {
      assert Decimal(n) == d;
      DigitStep(n, rest, 0);
    } else {
      assert Decimal(n) == Decimal(n / 10) + d;
      assert Decimal(n) + rest == Decimal(n / 10) + (d + rest);
      DigitsContinue(n / 10, d + rest);
      DigitStep(n % 10, rest, n / 10);
    }
  }

  /** What may follow a printed size: never a digit and never a size suffix. */
  predicate Stops(rest: string) {
    rest == "" || rest[0] in {'@', '(', 'r', ',', ';'}
  }

  lemma ReadScaled(n: nat, suffix: string, rest: string)
    requires n < WRAP && Stops(rest) && suffix in {"g", "m", "k"}
    ensures MemsizeParse(Decimal(n) + suffix + rest) ==
      (n * (if suffix == "g" then GB else if suffix == "m" then MB else KB) % WRAP, rest)
  {
    var s, tail := Decimal(n) + suffix + rest, suffix + rest;
    assert s == Decimal(n) + tail;
    assert tail[1..] == rest;
    DecimalDigits(n);
    assert s[0] == Decimal(n)[0];
    if n == 0 {
      assert s[1..] == tail;
      assert Digits(tail, 8, 0) == (0, tail);
    } else {
      DigitsOfDecimal(n, tail);
    }
    assert Strtoul(s) == (n, tail);
  }

  lemma ReadPlain(n: nat, rest: string)
    requires 0 < n < WRAP && Stops(rest)
    ensures MemsizeParse(Decimal(n) + rest) == (n, rest)
  {
    DecimalDigits(n);
    assert (Decimal(n) + rest)[0] == Decimal(n)[0];
    DigitsOfDecimal(n, rest);
  }

  /** For every u32 and every legal continuation, parsing a printed size gives it back. */
  lemma SizeRoundTrip(size: nat, rest: string)
    requires size < WRAP && Stops(rest)
    ensures MemsizeParse(MemsizeFormat(size) + rest) == (size, rest)
  {
    hide Decimal, MemsizeParse;
    if size % GB == 0 {
      ReadScaled(size / GB, "g", rest);
    } else if size % MB == 0 {
      ReadScaled(size / MB, "m", rest);
    } else if size % KB == 0 {
      ReadScaled(size / KB, "k", rest);
    } else {
      ReadPlain(size, rest);
    }
  }
}
