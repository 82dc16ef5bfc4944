/** The grammar of the `mtdparts` partition list, stated as texts and their meaning, and the proof that the parser
    accepts exactly these texts with exactly this meaning. */
module MtdGrammar {
  import opened Common
  import opened Arith
  import opened MtdSize
  import opened MtdParts
  import opened MtdText

  // ----- numbers

  /** A number as it is written: `0x`, `0` or nothing, digits, and a unit. */
  datatype Num = Num(base: nat, digits: string, suffix: string)

  function Prefix(base: nat): string {
    if base == 16 then "0x" else if base == 8 then "0" else ""
  }

  function NumText(n: Num): string {
    Prefix(n.base) + n.digits + n.suffix
  }

  /** The positional value of digits. */
  function Positional(d: string, base: nat): nat {
    if d == "" then 0 else Positional(d[..|d| - 1], base) * base + DigitValue(d[|d| - 1])
  }

  function Unit(suffix: string): nat {
    if suffix in ["g", "G"] then 0x4000_0000 else if suffix in ["m", "M"] then 0x10_0000
    else if suffix in ["k", "K"] then 0x400 else 1
  }

  /** The 32-bit value of a number. */
  function NumValue(n: Num): nat {
    Positional(n.digits, n.base) * Unit(n.suffix) % WRAP
  }

  /** A size is printed in the largest unit that divides it. */
  lemma PrintedInLargestUnit(v: nat)
    ensures MemsizeFormat(v * 0x4000_0000) == Decimal(v) + "g"
    ensures v % 1024 != 0 ==> MemsizeFormat(v * 0x10_0000) == Decimal(v) + "m"
    ensures v % 1024 != 0 ==> MemsizeFormat(v * 0x400) == Decimal(v) + "k"
    ensures v % 1024 != 0 ==> MemsizeFormat(v) == Decimal(v)
  {
    hide Decimal;
    var q, r := v / 1024, v % 1024;
    DivModUnique(v * 0x4000_0000, 0x4000_0000, v, 0);
    DivModUnique(v * 0x10_0000, 0x10_0000, v, 0);
    DivModUnique(v * 0x400, 0x400, v, 0);
    DivModUnique(v * 0x10_0000, 0x4000_0000, q, r * 0x10_0000);
    DivModUnique(v * 0x400, 0x10_0000, q, r * 0x400);
    NotInLarger(v * 0x400, 0x10_0000, 0x4000_0000, 1024);
    NotInLarger(v, 0x400, 0x10_0000, 1024);
    NotInLarger(v, 0x10_0000, 0x4000_0000, 1024);
  }

  lemma NotInLarger(size: nat, unit: nat, larger: nat, times: nat)
    requires unit > 0 && larger == unit * times && times > 0
    ensures size % unit != 0 ==> size % larger != 0
  {
    if size % larger == 0 {
      var k := size / larger;
      MulAssociates(k, times, unit);
      DivModUnique(size, unit, k * times, 0);
    }
  }

  predicate AllDigits(d: string, base: nat) {
    forall i :: 0 <= i < |d| ==> DigitValue(d[i]) < base
  }

  predicate NumOk(n: Num) {
    && (n.base == 8 || n.base == 10 || n.base == 16) && AllDigits(n.digits, n.base)
    && (n.base == 16 ==> n.digits != "") && (n.base == 10 && n.digits != "" ==> n.digits[0] != '0')
    && n.suffix in ["", "g", "G", "m", "M", "k", "K"]
  }

  predicate HexFollows(s: string) {
    |s| > 1 && s[0] == 'x' && DigitValue(s[1]) < 16
  }

  /** What follows a number is no part of it. */
  predicate NumEnds(n: Num, rest: string) {
    && (n.suffix == "" && rest != "" ==>
          DigitValue(rest[0]) >= n.base && rest[0] !in ['g', 'G', 'm', 'M', 'k', 'K'])
    && (n.base == 8 && n.digits == "" && n.suffix == "" ==> !HexFollows(rest))
    && (n.base == 10 && n.digits == "" && n.suffix == "" ==> First(rest) != '0')
  }

  lemma {:induction false} DigitsAre(d: string, base: nat, rest: string)
    requires 0 < base <= 16 && AllDigits(d, base)
    ensures Digits(d + rest, base, 0) == Digits(rest, base, Positional(d, base) % WRAP)
    decreases |d|
  {
    if d == "" {
      assert d + rest == rest;
    } else {
      var init, c := d[..|d| - 1], d[|d| - 1];
      assert d + rest == init + ([c] + rest);
      DigitsAre(init, base, [c] + rest);
      assert ([c] + rest)[1..] == rest;
      ModOfProduct(Positional(init, base), base, DigitValue(c));
    }
  }

  lemma ModOfProduct(v: nat, m: nat, k: nat)
    ensures (v % WRAP * m + k) % WRAP == (v * m + k) % WRAP
  {
    var q := v / WRAP;
    assert v == q * WRAP + v % WRAP;
    MulDistributes(q * WRAP, v % WRAP, m);
    MulAssociates(q, m, WRAP);
    assert v * m + k == (v % WRAP * m + k) + (q * m) * WRAP by { MulAssociates(q, WRAP, m); }
    ModShift(v % WRAP * m + k, q * m, WRAP);
  }

  lemma DigitsStop(rest: string, base: nat, acc: nat)
    requires base <= 16 && (rest == "" || DigitValue(rest[0]) >= base)
    ensures Digits(rest, base, acc) == (acc, rest)
  {
  }

  /** The digits and the base are read as they are written. */
  lemma NumeralRead(n: Num, rest: string)
    requires NumOk(n) && (rest == "" || DigitValue(rest[0]) >= n.base)
    requires n.base == 8 && n.digits == "" ==> !HexFollows(rest)
    requires n.base == 10 && n.digits == "" ==> First(rest) != '0'
    ensures Strtoul(Prefix(n.base) + n.digits + rest) == (Positional(n.digits, n.base) % WRAP, rest)
  {
    hide Digits, Strtoul, HexFollows, DigitValue;
    var t := n.digits + rest;
    assert Prefix(n.base) + n.digits + rest == Prefix(n.base) + t;
    DigitsAre(n.digits, n.base, rest);
    DigitsStop(rest, n.base, Positional(n.digits, n.base) % WRAP);
    assert n.digits != "" ==> t[0] == n.digits[0];
    assert n.digits == "" ==> t == rest;
    if n.base == 8 { NotHex(n, rest); }
    PrefixRead(n.base, t);
  }

  lemma NotHex(n: Num, rest: string)
    requires AllDigits(n.digits, 8) && (n.digits == "" ==> !HexFollows(rest))
    ensures !HexFollows(n.digits + rest)
  {
    var t := n.digits + rest;
    assert n.digits == "" ==> t == rest;
    assert n.digits != "" ==> t[0] == n.digits[0];
  }

  /** The prefix decides the base. */
  lemma PrefixRead(base: nat, t: string)
    requires base == 8 || base == 10 || base == 16
    requires base == 16 ==> t != "" && DigitValue(t[0]) < 16
    requires base == 10 ==> First(t) != '0'
    requires base == 8 ==> !HexFollows(t)
    ensures Strtoul(Prefix(base) + t) == Digits(t, base, 0)
  {
    hide Digits;
    var s := Prefix(base) + t;
    if base == 16 {
      assert s[2..] == t && s[1..][0] == 'x';
    } else if base == 8 {
      assert s[1..] == t;
    } else {
      assert s == t;
    }
  }

  /** A number has the value it is written with, modulo 32 bits. */
  lemma NumRead(n: Num, rest: string)
    requires NumOk(n) && NumEnds(n, rest)
    ensures MemsizeParse(NumText(n) + rest) == (NumValue(n), rest)
  {
    hide Strtoul, MemsizeParse, DigitValue, Unit, HexFollows;
    var s, tail := NumText(n) + rest, n.suffix + rest;
    assert s == Prefix(n.base) + n.digits + tail;
    SuffixEnds(n, rest);
    NumeralRead(n, tail);
    UnitRead(s, Positional(n.digits, n.base), n.suffix, rest);
  }

  lemma SuffixEnds(n: Num, rest: string)
    requires NumOk(n) && NumEnds(n, rest)
    ensures var tail := n.suffix + rest;
      && (tail == "" || DigitValue(tail[0]) >= n.base)
      && (n.base == 8 && n.digits == "" ==> !HexFollows(tail))
      && (n.base == 10 && n.digits == "" ==> First(tail) != '0')
  {
    if n.suffix == "" {
      assert n.suffix + rest == rest;
    } else {
      assert (n.suffix + rest)[0] == n.suffix[0];
    }
  }

  lemma UnitRead(s: string, v: nat, suffix: string, rest: string)
    requires Strtoul(s) == (v % WRAP, suffix + rest) && suffix in ["", "g", "G", "m", "M", "k", "K"]
    requires suffix == "" && rest != "" ==> rest[0] !in ['g', 'G', 'm', 'M', 'k', 'K']
    ensures MemsizeParse(s) == (v * Unit(suffix) % WRAP, rest)
  {
    hide Strtoul;
    ModOfProduct(v, Unit(suffix), 0);
    if suffix == "" {
      assert suffix + rest == rest;
    } else {
      assert (suffix + rest)[0] == suffix[0] && (suffix + rest)[1..] == rest;
    }
  }

  /** Every text begins with some number, if only an empty one. */
  lemma {:induction false} DigitsSplit(s: string, base: nat, acc: nat)
    requires base <= 16
    ensures var rest := Digits(s, base, acc).1;
      && |rest| <= |s| && s[|s| - |rest|..] == rest && AllDigits(s[..|s| - |rest|], base)
      && (rest != "" ==> DigitValue(rest[0]) >= base)
    decreases |s|
  {
    if s != "" && DigitValue(s[0]) < base {
      DigitsSplit(s[1..], base, (acc * base + DigitValue(s[0])) % WRAP);
      var rest := Digits(s, base, acc).1;
      var d := s[1..][..|s| - 1 - |rest|];
      assert s[..|s| - |rest|] == [s[0]] + d;
    }
  }

  function LeadingDigits(t: string, base: nat): string
    requires base <= 16
  {
    DigitsSuffix(t, base, 0);
    t[..|t| - |Digits(t, base, 0).1|]
  }

  function LeadingBase(s: string): nat {
    if First(s) != '0' then 10 else if HexFollows(s[1..]) then 16 else 8
  }

  function AfterPrefix(s: string): string {
    if First(s) != '0' then s else if HexFollows(s[1..]) then s[2..] else s[1..]
  }

  /** The number a text begins with. */
  function LeadingNum(s: string): Num {
    var c := First(Strtoul(s).1);
    Num(LeadingBase(s), LeadingDigits(AfterPrefix(s), LeadingBase(s)),
        if c in ['g', 'G', 'm', 'M', 'k', 'K'] then [c] else "")
  }

  lemma PrefixLeads(s: string)
    ensures s == Prefix(LeadingBase(s)) + AfterPrefix(s)
    ensures Strtoul(s) == Digits(AfterPrefix(s), LeadingBase(s), 0)
    ensures LeadingBase(s) == 16 ==> AfterPrefix(s) != "" && DigitValue(AfterPrefix(s)[0]) < 16
    ensures LeadingBase(s) == 10 ==> First(AfterPrefix(s)) != '0'
    ensures LeadingBase(s) == 8 ==> !HexFollows(AfterPrefix(s))
  {
    hide Digits;
  }

  lemma DigitsLead(t: string, base: nat)
    requires base <= 16
    ensures var d, rest := LeadingDigits(t, base), Digits(t, base, 0).1;
      && t == d + rest && AllDigits(d, base) && (rest != "" ==> DigitValue(rest[0]) >= base)
      && (d == "" ==> rest == t) && (d != "" ==> d[0] == t[0])
  {
    hide Digits;
    DigitsSplit(t, base, 0);
  }

  lemma NumLeads(s: string)
    ensures var n, rest := LeadingNum(s), MemsizeParse(s).1;
      NumOk(n) && NumEnds(n, rest) && s == NumText(n) + rest
  {
    hide *;
    NumTextLeads(s);
    NumOkLeads(s);
    NumEndsLeads(s);
  }

  lemma NumTextLeads(s: string)
    ensures s == NumText(LeadingNum(s)) + MemsizeParse(s).1
  {
    hide MemsizeParse, Strtoul, Digits, DigitValue, LeadingDigits, LeadingBase, AfterPrefix, HexFollows, Prefix;
    var n, t, rest := LeadingNum(s), AfterPrefix(s), MemsizeParse(s).1;
    BaseIs(s);
    PrefixLeads(s);
    DigitsLead(t, n.base);
    SuffixLeads(s);
    assert Prefix(n.base) + (n.digits + (n.suffix + rest)) == Prefix(n.base) + n.digits + n.suffix + rest;
  }

  lemma NumOkLeads(s: string)
    ensures NumOk(LeadingNum(s))
  {
    hide MemsizeParse, Strtoul, Digits, DigitValue, LeadingDigits, LeadingBase, AfterPrefix, HexFollows;
    var n, t := LeadingNum(s), AfterPrefix(s);
    BaseIs(s);
    PrefixLeads(s);
    DigitsLead(t, n.base);
    SuffixLeads(s);
    if n.base == 16 { FirstDigitRead(t, 16); }
  }

  lemma NumEndsLeads(s: string)
    ensures NumEnds(LeadingNum(s), MemsizeParse(s).1)
  {
    hide MemsizeParse, Strtoul, Digits, DigitValue, LeadingDigits, LeadingBase, AfterPrefix, HexFollows;
    var n, t := LeadingNum(s), AfterPrefix(s);
    BaseIs(s);
    PrefixLeads(s);
    DigitsLead(t, n.base);
    SuffixLeads(s);
    NoSuffix(n.suffix, MemsizeParse(s).1);
  }

  lemma BaseIs(s: string)
    ensures LeadingBase(s) == 8 || LeadingBase(s) == 10 || LeadingBase(s) == 16
  {
  }

  lemma NoSuffix(suffix: string, rest: string)
    ensures suffix == "" ==> suffix + rest == rest
  {
  }

  lemma FirstDigitRead(t: string, base: nat)
    requires base <= 16 && t != "" && DigitValue(t[0]) < base
    ensures LeadingDigits(t, base) != ""
  {
    DigitsSuffix(t[1..], base, DigitValue(t[0]) % WRAP);
  }

  lemma SuffixLeads(s: string)
    ensures var n, rest := LeadingNum(s), MemsizeParse(s).1;
      && Strtoul(s).1 == n.suffix + rest && n.suffix in ["", "g", "G", "m", "M", "k", "K"]
      && (n.suffix == "" && rest != "" ==> rest[0] !in ['g', 'G', 'm', 'M', 'k', 'K'])
  {
    hide Strtoul;
    var t := Strtoul(s).1;
    assert t != "" ==> t == [t[0]] + t[1..];
  }

  // ----- one partition

  /** A partition as it is written: a size or `-`, and what may be left out. */
  datatype Def = Def(size: Option<Num>, offset: Option<Num>, name: Option<string>, readOnly: bool)

  function SizeDef(size: Option<Num>): string {
    match size case None => "-" case Some(n) => NumText(n)
  }

  function OffsetDef(offset: Option<Num>): string {
    match offset case None => "" case Some(n) => "@" + NumText(n)
  }

  function NameDef(name: Option<string>): string {
    match name case None => "" case Some(t) => "(" + t + ")"
  }

  function FlagDef(readOnly: bool): string {
    if readOnly then "ro" else ""
  }

  function DefText(d: Def): string {
    SizeDef(d.size) + (OffsetDef(d.offset) + (NameDef(d.name) + FlagDef(d.readOnly)))
  }

  /** Its numbers are numbers, a size is written at all, and a name is not empty and does not contain its own end. */
  predicate DefOk(d: Def) {
    && (d.size.Some? ==> NumOk(d.size.value) && NumText(d.size.value) != "")
    && (d.offset.Some? ==> NumOk(d.offset.value))
    && (d.name.Some? ==> d.name.value != "" && ')' !in d.name.value)
  }

  /** A size of all ones stands for the rest of the device, whether it is written as a number or as `-`. */
  function SizeOf(d: Def): nat {
    if d.size.Some? then NumValue(d.size.value) else 0xFFFF_FFFF
  }

  function OffsetOf(d: Def): nat {
    if d.offset.Some? then NumValue(d.offset.value) else 0xFFFF_FFFF
  }

  function NameOf(d: Def): PartName {
    if d.name.Some? then Given(d.name.value) else Auto(SizeOf(d), OffsetOf(d))
  }

  /** What can follow a number in a partition. */
  predicate Delimits(rest: string) {
    rest == "" || rest[0] in ['@', '(', 'r', ',', ';']
  }

  lemma DelimiterEnds(n: Num, rest: string)
    requires NumOk(n) && Delimits(rest)
    ensures NumEnds(n, rest)
  {
  }

  lemma DefStages(d: Def, tail: string)
    requires Separator(tail)
    ensures var s4 := tail; var s3 := FlagDef(d.readOnly) + s4; var s2 := NameDef(d.name) + s3;
      var s1 := OffsetDef(d.offset) + s2;
      && DefText(d) + tail == SizeDef(d.size) + s1
      && Delimits(s1) && Delimits(s2) && First(s2) != '@' && First(s3) != '('
  {
    hide NumText;
    var s3 := FlagDef(d.readOnly) + tail;
    var s2 := NameDef(d.name) + s3;
    assert DefText(d) + tail == SizeDef(d.size) + (OffsetDef(d.offset) + s2);
  }

  lemma SizeRead(d: Def, rest: string)
    requires DefOk(d) && Delimits(rest)
    ensures ReadSize(SizeDef(d.size) + rest) == if SizeOf(d) < 4096 then None else Some((SizeOf(d), rest))
  {
    hide MemsizeParse, NumText, NumValue;
    if d.size.Some? {
      DelimiterEnds(d.size.value, rest);
      NumRead(d.size.value, rest);
      NotDash(d.size.value, rest);
    } else {
      assert ("-" + rest)[1..] == rest;
    }
  }

  lemma NotDash(n: Num, rest: string)
    requires NumOk(n) && Delimits(rest)
    ensures First(NumText(n) + rest) != '-'
  {
    if n.base == 10 && n.digits == "" && n.suffix == "" {
      assert NumText(n) + rest == rest;
    }
  }

  lemma OffsetRead(d: Def, rest: string)
    requires DefOk(d) && Delimits(rest) && First(rest) != '@'
    ensures ReadOffset(OffsetDef(d.offset) + rest) == (OffsetOf(d), rest)
  {
    hide MemsizeParse, NumText, NumValue;
    if d.offset.Some? {
      DelimiterEnds(d.offset.value, rest);
      NumRead(d.offset.value, rest);
      assert ("@" + NumText(d.offset.value) + rest)[1..] == NumText(d.offset.value) + rest;
    } else {
      assert "" + rest == rest;
    }
  }

  lemma NameRead(d: Def, rest: string)
    requires DefOk(d) && First(rest) != '('
    ensures ReadName(NameDef(d.name) + rest, SizeOf(d), OffsetOf(d)) == Some((NameOf(d), rest))
  {
    hide NumValue;
    if d.name.Some? {
      var t := d.name.value;
      assert (NameDef(d.name) + rest)[1..] == t + [')'] + rest;
      IndexOfConcat(t, ')', rest);
      assert (t + [')'] + rest)[..|t|] == t && (t + [')'] + rest)[|t| + 1..] == rest;
    } else {
      assert "" + rest == rest;
    }
  }

  lemma FlagRead(d: Def, tail: string)
    requires Separator(tail)
    ensures ReadOnly(FlagDef(d.readOnly) + tail) == (d.readOnly, tail)
  {
    var s := FlagDef(d.readOnly) + tail;
    assert d.readOnly ==> s[2..] == tail && s[..2] == "ro";
    assert !d.readOnly ==> s == tail;
  }

  /** Every partition written this way means what it says, is too small below 4096 bytes, and may not be followed by
      another one when it takes the rest of the device. */
  lemma DefRead(d: Def, tail: string)
    requires DefOk(d) && Separator(tail)
    ensures PartParse(DefText(d) + tail) ==
      if SizeOf(d) < 4096 || (First(tail) == ',' && SizeOf(d) == 0xFFFF_FFFF) then None
      else Some((Part(NameOf(d), SizeOf(d), OffsetOf(d), d.readOnly, 0),
                 if First(tail) == ',' then tail[1..] else tail))
  {
    hide ReadSize, ReadOffset, ReadName, ReadOnly, SizeOf, OffsetOf, NameOf;
    hide DefText, SizeDef, OffsetDef, NameDef, FlagDef;
    DefStages(d, tail);
    var s3 := FlagDef(d.readOnly) + tail;
    var s2 := NameDef(d.name) + s3;
    SizeRead(d, OffsetDef(d.offset) + s2);
    OffsetRead(d, s2);
    NameRead(d, s3);
    FlagRead(d, tail);
  }

  function LeadingSize(s: string): Option<Num> {
    if First(s) == '-' then None else Some(LeadingNum(s))
  }

  function LeadingOffset(s: string): Option<Num> {
    if First(s) == '@' then Some(LeadingNum(s[1..])) else None
  }

  function LeadingName(s: string): Option<string> {
    if First(s) == '(' then Some(s[1..][..IndexOf(s[1..], ')')]) else None
  }

  lemma SizeLeads(s: string)
    requires ReadSize(s).Some?
    ensures s == SizeDef(LeadingSize(s)) + ReadSize(s).value.1
    ensures LeadingSize(s).Some? ==> NumOk(LeadingSize(s).value) && NumText(LeadingSize(s).value) != ""
  {
    hide MemsizeParse, NumText, LeadingNum, NumOk, NumEnds;
    if First(s) == '-' {
      assert s == "-" + s[1..];
    } else {
      NumLeads(s);
      MemsizeU32(s);
    }
  }

  lemma OffsetLeads(s: string)
    ensures s == OffsetDef(LeadingOffset(s)) + ReadOffset(s).1
    ensures LeadingOffset(s).Some? ==> NumOk(LeadingOffset(s).value)
  {
    hide MemsizeParse, NumText, LeadingNum, NumOk, NumEnds;
    if First(s) == '@' {
      NumLeads(s[1..]);
      assert s == "@" + s[1..];
      assert s == "@" + NumText(LeadingNum(s[1..])) + MemsizeParse(s[1..]).1;
    } else {
      assert s == "" + s;
    }
  }

  lemma NameLeads(s: string, size: nat, offset: nat)
    requires ReadName(s, size, offset).Some?
    ensures s == NameDef(LeadingName(s)) + ReadName(s, size, offset).value.1
    ensures LeadingName(s).Some? ==> LeadingName(s).value != "" && ')' !in LeadingName(s).value
  {
    hide IndexOf;
    if First(s) == '(' {
      Bracketed(s, IndexOf(s[1..], ')'));
    } else {
      assert s == "" + s;
    }
  }

  lemma Bracketed(s: string, n: nat)
    requires s != "" && s[0] == '(' && n < |s[1..]| && s[1..][n] == ')'
    ensures s == "(" + s[1..][..n] + ")" + s[1..][n + 1..]
  {
    var t := s[1..];
    SplitAt(t, n);
    assert s == "(" + t;
    assert "(" + (t[..n] + ")" + t[n + 1..]) == "(" + t[..n] + ")" + t[n + 1..];
  }

  lemma SplitAt(t: string, n: nat)
    requires n < |t|
    ensures t == t[..n] + [t[n]] + t[n + 1..]
  {
  }

  lemma FlagLeads(s: string)
    ensures s == FlagDef("ro" <= s) + ReadOnly(s).1
  {
    assert s == "" + s;
  }

  /** The partition a text begins with. */
  function LeadingDef(s: string): Def
    requires PartParse(s).Some?
  {
    var (size, s1) := ReadSize(s).value;
    var (offset, s2) := ReadOffset(s1);
    var s3 := ReadName(s2, size, offset).value.1;
    Def(LeadingSize(s), LeadingOffset(s1), LeadingName(s2), "ro" <= s3)
  }

  /** Nothing else is accepted: such a text begins with a partition and what may follow one. */
  lemma DefLeads(s: string)
    requires PartParse(s).Some?
    ensures DefOk(LeadingDef(s)) && DefText(LeadingDef(s)) <= s && Separator(s[|DefText(LeadingDef(s))|..])
  {
    hide ReadSize, ReadOffset, ReadName, ReadOnly, SizeDef, OffsetDef, NameDef, FlagDef;
    hide LeadingSize, LeadingOffset, LeadingName, NumOk;
    var (size, s1) := ReadSize(s).value;
    var (offset, s2) := ReadOffset(s1);
    var (name, s3) := ReadName(s2, size, offset).value;
    var (ro, s4) := ReadOnly(s3);
    SizeLeads(s);
    OffsetLeads(s1);
    NameLeads(s2, size, offset);
    FlagLeads(s3);
    Regroup(SizeDef(LeadingSize(s)), OffsetDef(LeadingOffset(s1)), NameDef(LeadingName(s2)), FlagDef("ro" <= s3), s4);
  }

  lemma Regroup(a: string, b: string, c: string, d: string, tail: string)
    ensures var text := a + (b + (c + d)); var s := a + (b + (c + (d + tail))); text <= s && s[|text|..] == tail
  {
    assert a + (b + (c + (d + tail))) == a + (b + (c + d)) + tail;
  }

  // ----- a list of partitions

  /** The partitions separated by commas; one more comma may stand at the end. */
  function ListText(defs: seq<Def>, comma: bool): string {
    if defs == [] then ""
    else DefText(defs[0]) + ((if |defs| > 1 || comma then "," else "") + ListText(defs[1..], comma))
  }

  /** `v` is what `d` asks for on its device: where it says, or else at `expected`; as large as it says, or else up to
      the end of the device. */
  ghost predicate PlacedAs(g: Option<Geometry>, id: MtdId, expected: nat, d: Def, v: Part) {
    && v.name == NameOf(d) && v.readOnly == d.readOnly
    && v.offset == (if OffsetOf(d) == 0xFFFF_FFFF then expected else OffsetOf(d))
    && (if SizeOf(d) == 0xFFFF_FFFF then v.offset + v.size == id.size else v.size == SizeOf(d) >= 4096)
    && g.Some? && InDevice(g.value, id, v)
  }

  /** Each partition is placed with the end of the one before it in mind; one that takes the rest is the last. */
  ghost predicate LaidOut(g: Option<Geometry>, id: MtdId, expected: nat, defs: seq<Def>, comma: bool, vs: seq<Part>)
    decreases |defs|
  {
    if defs == [] then vs == []
    else
      && vs != [] && PlacedAs(g, id, expected, defs[0], vs[0])
      && (SizeOf(defs[0]) == 0xFFFF_FFFF ==> |defs| == 1 && !comma)
      && LaidOut(g, id, vs[0].offset + vs[0].size, defs[1..], comma, vs[1..])
  }

  lemma PlacedIff(g: Option<Geometry>, id: MtdId, expected: nat, d: Def, v: Part)
    requires IdOk(id) && expected < WRAP && SizeOf(d) >= 4096
    ensures var p := Part(NameOf(d), SizeOf(d), OffsetOf(d), d.readOnly, 0);
      Validated(g, id, p.(offset := if p.offset == OFFSET_NOT_SPECIFIED then expected else p.offset)) == Some(v)
      <==> PlacedAs(g, id, expected, d, v)
  {
    hide StartsBlock, EndsBlock, NumValue;
    var offset := if OffsetOf(d) == 0xFFFF_FFFF then expected else OffsetOf(d);
    OffsetFits(d);
    RestOfDevice(id.size, offset);
  }

  lemma OffsetFits(d: Def)
    ensures OffsetOf(d) < WRAP
  {
  }

  /** What is left of a device is computed modulo 32 bits, which only matters where nothing is left. */
  lemma RestOfDevice(device: nat, offset: nat)
    requires device < WRAP && offset < WRAP
    ensures offset <= device ==> (device - offset) % WRAP == device - offset
    ensures offset > device ==> offset + (device - offset) % WRAP > device
  {
    if offset > device {
      ModShift(device - offset, 1, WRAP);
    }
  }

  predicate DefsOk(defs: seq<Def>) {
    forall i :: 0 <= i < |defs| ==> DefOk(defs[i])
  }

  lemma DefTextStarts(d: Def, tail: string)
    requires DefOk(d)
    ensures var s := DefText(d) + tail; s != "" && s[0] != ';' && (s[0] == '-' ==> SizeOf(d) == 0xFFFF_FFFF)
  {
    hide OffsetDef, NameDef, FlagDef;
    if d.size.Some? {
      NumTextStarts(d.size.value);
      assert (DefText(d) + tail)[0] == NumText(d.size.value)[0];
    }
  }

  lemma NumTextStarts(n: Num)
    requires NumOk(n) && NumText(n) != ""
    ensures NumText(n)[0] != ';' && NumText(n)[0] != '-'
  {
    if n.base == 10 {
      assert n.digits != "" ==> NumText(n)[0] == n.digits[0];
      assert n.digits == "" ==> NumText(n) == n.suffix;
    }
  }

  /** The parser accepts a list of partitions with a certain result exactly when that is a layout of the list. */
  lemma {:induction false} ListRead(g: Option<Geometry>, id: MtdId, expected: nat, defs: seq<Def>, comma: bool,
                                    tail: string)
    requires IdOk(id) && expected < WRAP && DefsOk(defs) && (tail == "" || tail[0] == ';')
    ensures var r := PartsParse(g, id, expected, ListText(defs, comma) + tail);
      && (forall vs :: r == Some((vs, tail)) <==> LaidOut(g, id, expected, defs, comma, vs))
      && (r.Some? ==> r.value.1 == tail)
    decreases |defs|
  {
    hide PartParse, PartsParse, Validated, PlacedAs, SizeOf, OffsetOf, NameOf, DefOk, ListText, LaidOut;
    var s := ListText(defs, comma) + tail;
    if defs == [] {
      NoList(g, id, expected, comma, tail);
    } else {
      var d, more := defs[0], ListText(defs[1..], comma) + tail;
      ListHead(defs, comma, tail);
      TooSmall(g, id, expected, d);
      var v := PlacedOf(g, id, expected, d);
      ListStep(g, id, expected, defs, comma, tail);
      PlacedOnly(g, id, expected, d);
      if PartParse(s).Some? && v.Some? {
        PlacedFits(g, id, expected, d, v.value);
        var next := v.value.offset + v.value.size;
        ListRead(g, id, next, defs[1..], comma, tail);
        ThenTail(v.value, PartsParse(g, id, next, more), tail);
      }
      forall vs
        ensures PartsParse(g, id, expected, s) == Some((vs, tail)) <==> LaidOut(g, id, expected, defs, comma, vs)
      {
        LayoutStep(g, id, expected, defs, comma, vs);
      }
    }
  }

  lemma NoList(g: Option<Geometry>, id: MtdId, expected: nat, comma: bool, tail: string)
    requires tail == "" || tail[0] == ';'
    ensures PartsParse(g, id, expected, ListText([], comma) + tail) == Some(([], tail))
    ensures forall vs :: LaidOut(g, id, expected, [], comma, vs) <==> vs == []
  {
    assert ListText([], comma) + tail == tail;
  }

  /** How the first partition of a list is read. */
  lemma ListHead(defs: seq<Def>, comma: bool, tail: string)
    requires defs != [] && DefsOk(defs) && (tail == "" || tail[0] == ';')
    ensures var d, s := defs[0], ListText(defs, comma) + tail;
      && s != "" && s[0] != ';'
      && PartParse(s) ==
           if SizeOf(d) < 4096 || ((|defs| > 1 || comma) && SizeOf(d) == 0xFFFF_FFFF) then None
           else Some((Part(NameOf(d), SizeOf(d), OffsetOf(d), d.readOnly, 0), ListText(defs[1..], comma) + tail))
  {
    hide DefText, PartParse, SizeOf, OffsetOf, NameOf, DefOk;
    var d, more := defs[0], ListText(defs[1..], comma) + tail;
    var sep := if |defs| > 1 || comma then "," else "";
    assert ListText(defs, comma) + tail == DefText(d) + (sep + more);
    if sep == "" {
      assert ListText([], comma) == "" && more == tail && sep + more == tail;
    } else {
      assert (sep + more)[1..] == more && First(sep + more) == ',';
    }
    DefRead(d, sep + more);
    DefTextStarts(d, sep + more);
  }

  ghost function PlacedOf(g: Option<Geometry>, id: MtdId, expected: nat, d: Def): Option<Part> {
    var p := Part(NameOf(d), SizeOf(d), OffsetOf(d), d.readOnly, 0);
    Validated(g, id, p.(offset := if p.offset == OFFSET_NOT_SPECIFIED then expected else p.offset))
  }

  lemma PlacedOnly(g: Option<Geometry>, id: MtdId, expected: nat, d: Def)
    requires IdOk(id) && expected < WRAP
    ensures SizeOf(d) >= 4096 ==>
      forall w :: PlacedOf(g, id, expected, d) == Some(w) <==> PlacedAs(g, id, expected, d, w)
  {
    hide Validated, PlacedAs, SizeOf, OffsetOf, NameOf;
    if SizeOf(d) >= 4096 {
      forall w ensures PlacedOf(g, id, expected, d) == Some(w) <==> PlacedAs(g, id, expected, d, w) {
        PlacedIff(g, id, expected, d, w);
      }
    }
  }

  /** One turn of the parser's list loop. */
  lemma ListStep(g: Option<Geometry>, id: MtdId, expected: nat, defs: seq<Def>, comma: bool, tail: string)
    requires defs != [] && DefsOk(defs) && (tail == "" || tail[0] == ';')
    ensures var s, v := ListText(defs, comma) + tail, PlacedOf(g, id, expected, defs[0]);
      PartsParse(g, id, expected, s) ==
        if PartParse(s).None? || v.None? then None
        else Then(v.value, PartsParse(g, id, (v.value.offset + v.value.size) % WRAP, ListText(defs[1..], comma) + tail))
  {
    hide PartParse, Validated, SizeOf, OffsetOf, NameOf, ListText, DefsOk;
    ListHead(defs, comma, tail);
  }

  lemma ThenTail(v: Part, r: Option<(seq<Part>, string)>, tail: string)
    requires r.Some? ==> r.value.1 == tail
    ensures Then(v, r).Some? ==> Then(v, r).value.1 == tail
    ensures forall vs: seq<Part> ::
      Then(v, r) == Some((vs, tail)) <==> vs != [] && vs[0] == v && r == Some((vs[1..], tail))
  {
    assert forall vs: seq<Part> :: vs != [] ==> vs == [vs[0]] + vs[1..];
  }

  lemma LayoutStep(g: Option<Geometry>, id: MtdId, expected: nat, defs: seq<Def>, comma: bool, vs: seq<Part>)
    requires defs != []
    ensures LaidOut(g, id, expected, defs, comma, vs) <==>
      && vs != [] && PlacedAs(g, id, expected, defs[0], vs[0])
      && (SizeOf(defs[0]) == 0xFFFF_FFFF ==> |defs| == 1 && !comma)
      && LaidOut(g, id, vs[0].offset + vs[0].size, defs[1..], comma, vs[1..])
  {
  }

  function Then(v: Part, r: Option<(seq<Part>, string)>): Option<(seq<Part>, string)> {
    if r.Some? then Some(([v] + r.value.0, r.value.1)) else None
  }

  lemma TooSmall(g: Option<Geometry>, id: MtdId, expected: nat, d: Def)
    ensures SizeOf(d) < 4096 ==> forall v :: !PlacedAs(g, id, expected, d, v)
  {
    hide InDevice, NumValue;
  }

  lemma PlacedFits(g: Option<Geometry>, id: MtdId, expected: nat, d: Def, v: Part)
    requires IdOk(id) && PlacedAs(g, id, expected, d, v)
    ensures v.offset + v.size < WRAP
  {
  }

  /** Every accepted list is a list of partitions in this sense. */
  lemma {:induction false} ListLeads(g: Option<Geometry>, id: MtdId, expected: nat, s: string)
    requires PartsParse(g, id, expected, s).Some?
    ensures exists defs, comma :: DefsOk(defs) && s == ListText(defs, comma) + PartsParse(g, id, expected, s).value.1
    decreases |s|
  {
    hide PartParse, Validated, DefOk, DefText, LeadingDef;
    var tail := PartsParse(g, id, expected, s).value.1;
    if s == "" || s[0] == ';' {
      assert DefsOk([]) && s == ListText([], false) + tail;
    } else {
      var (p, rest) := PartParse(s).value;
      PartParseShrinks(s);
      var v := Validated(g, id, p.(offset := if p.offset == OFFSET_NOT_SPECIFIED then expected else p.offset)).value;
      var next := (v.offset + v.size) % WRAP;
      ListLeads(g, id, next, rest);
      var more, comma :| DefsOk(more) && rest == ListText(more, comma) + PartsParse(g, id, next, rest).value.1;
      DefLeads(s);
      var d, end := LeadingDef(s), s[|DefText(LeadingDef(s))|..];
      assert s == DefText(d) + end;
      DefRead(d, end);
      MoreList(d, more, comma, end, rest, tail);
    }
  }

  lemma MoreList(d: Def, more: seq<Def>, comma: bool, end: string, rest: string, tail: string)
    requires DefOk(d) && DefsOk(more) && rest == ListText(more, comma) + tail
    requires Separator(end) && rest == if First(end) == ',' then end[1..] else end
    ensures exists defs, comma' :: DefsOk(defs) && DefText(d) + end == ListText(defs, comma') + tail
  {
    hide DefText, DefOk;
    if First(end) == ',' {
      LongerList(d, more, comma, rest, tail);
      assert end == "," + rest;
    } else {
      EmptyList(more, comma, rest, tail);
      assert ListText([d], false) == DefText(d) + ("" + ListText([], false));
      assert DefsOk([d]) && DefText(d) + end == ListText([d], false) + tail;
    }
  }

  lemma LongerList(d: Def, more: seq<Def>, comma: bool, rest: string, tail: string)
    requires DefOk(d) && DefsOk(more) && rest == ListText(more, comma) + tail
    ensures exists defs, comma' :: DefsOk(defs) && DefText(d) + ("," + rest) == ListText(defs, comma') + tail
  {
    hide DefText, DefOk;
    var defs, comma' := [d] + more, comma || more == [];
    SameList(more, comma, comma');
    assert defs[1..] == more;
    assert ListText(defs, comma') == DefText(d) + ("," + ListText(more, comma'));
    assert DefText(d) + ("," + (ListText(more, comma') + tail)) == ListText(defs, comma') + tail;
    assert DefsOk(defs);
  }

  lemma SameList(more: seq<Def>, comma: bool, comma': bool)
    requires more != [] ==> comma == comma'
    ensures ListText(more, comma) == ListText(more, comma')
  {
  }

  lemma EmptyList(more: seq<Def>, comma: bool, rest: string, tail: string)
    requires DefsOk(more) && rest == ListText(more, comma) + tail && (rest == "" || rest[0] == ';')
    ensures rest == tail
  {
    if more != [] {
      ListStarts(more, comma, tail);
    } else {
      assert rest == "" + tail;
    }
  }

  lemma ListStarts(defs: seq<Def>, comma: bool, tail: string)
    requires defs != [] && DefsOk(defs)
    ensures var s := ListText(defs, comma) + tail;
      s != "" && s[0] != ';' && (s[0] == '-' ==> SizeOf(defs[0]) == 0xFFFF_FFFF)
  {
    hide DefText, DefOk;
    var t := (if |defs| > 1 || comma then "," else "") + ListText(defs[1..], comma) + tail;
    DefTextStarts(defs[0], t);
    assert ListText(defs, comma) + tail == DefText(defs[0]) + t;
  }

  /** A partition written as `-` that is accepted ends where the device ends, and it is the last one. */
  lemma DashTakesTheRest(g: Option<Geometry>, id: MtdId, expected: nat, s: string)
    requires IdOk(id) && expected < WRAP && First(s) == '-' && PartsParse(g, id, expected, s).Some?
    ensures var (vs, tail) := PartsParse(g, id, expected, s).value;
      |vs| == 1 && vs[0].offset + vs[0].size == id.size && (tail == "" || tail[0] == ';')
  {
    hide DefText, PartsParse, InDevice, DefOk;
    ListLeads(g, id, expected, s);
    var (vs, tail) := PartsParse(g, id, expected, s).value;
    var defs, comma :| DefsOk(defs) && s == ListText(defs, comma) + tail;
    PartsParseSuffix(g, id, expected, s);
    ListRead(g, id, expected, defs, comma, tail);
    assert defs == [] ==> ListText(defs, comma) + tail == tail;
    ListStarts(defs, comma, tail);
    LayoutStep(g, id, expected, defs, comma, vs);
    assert defs[1..] == [] && |vs| == 1 + |vs[1..]|;
  }
}
