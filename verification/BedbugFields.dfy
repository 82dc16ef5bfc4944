/** PowerPC instruction fields: inserting operands into an opcode and reading them back, in 32-bit words. */
module BedbugFields {

  type Word = bv32

  const ONES: Word := 0xFFFF_FFFF

  // ----- word operations, named so that proofs can treat them as algebra

  function And(a: Word, b: Word): Word {
    a & b
  }

  function Or(a: Word, b: Word): Word {
    a | b
  }

  function Shl(a: Word, s: Word): Word
    requires s < 32
  {
    a << s
  }

  function Shr(a: Word, s: Word): Word
    requires s < 32
  {
    a >> s
  }

  /** `1 << n`. */
  function Bit(n: Word): Word
    requires n < 32
  {
    1 << n
  }

  function Double(x: Word): Word {
    x << 1
  }

  function Half(x: Word): Word {
    x >> 1
  }

  lemma ShlStep(x: Word, s: Word)
    requires 0 < s < 32
    ensures Shl(x, s) == Shl(Double(x), s - 1)
  {
  }

  lemma ShrStep(x: Word, s: Word)
    requires 0 < s < 32
    ensures Shr(x, s) == Half(Shr(x, s - 1))
  {
  }

  lemma NoShift(x: Word)
    ensures Shl(x, 0) == x && Shr(x, 0) == x
  {
  }

  lemma OneStep(x: Word, y: Word)
    ensures Half(And(Double(x), y)) == And(x, Half(y))
  {
  }

  /** Shifting up and down again loses the top bits only. */
  lemma {:induction false} ShlShr(x: Word, s: Word)
    requires s < 32
    ensures Shr(Shl(x, s), s) == And(x, Shr(ONES, s))
    decreases s
  {
    hide Shl, Shr, And, Double, Half;
    if s == 0 {
      NoShift(x);
      NoShift(ONES);
      AndOnes(x);
    } else {
      ShlShr(Double(x), s - 1);
      ShlStep(x, s);
      ShrStep(Shl(x, s), s);
      ShrStep(ONES, s);
      OneStep(x, Shr(ONES, s - 1));
    }
  }

  lemma AndOnes(x: Word)
    ensures And(x, ONES) == x
  {
  }

  lemma OneStepZero(a: Word, k: Word)
    requires And(a, Double(k)) == 0
    ensures And(Half(a), k) == 0
  {
  }

  /** Bits outside a shifted mask are gone after shifting back. */
  lemma {:induction false} ShrZero(a: Word, k: Word, s: Word)
    requires s < 32 && And(a, Shl(k, s)) == 0
    ensures And(Shr(a, s), k) == 0
    decreases s
  {
    hide Shl, Shr, And, Double, Half;
    if s == 0 {
      NoShift(a);
      NoShift(k);
    } else {
      ShlStep(k, s);
      ShrZero(a, Double(k), s - 1);
      ShrStep(a, s);
      OneStepZero(Shr(a, s - 1), k);
    }
  }

  lemma OneAnd(a: Word, b: Word)
    ensures Double(And(a, b)) == And(Double(a), Double(b))
  {
  }

  lemma {:induction false} ShlAnd(a: Word, b: Word, s: Word)
    requires s < 32
    ensures Shl(And(a, b), s) == And(Shl(a, s), Shl(b, s))
    decreases s
  {
    hide Shl, And, Double;
    if s == 0 {
      NoShift(And(a, b));
      NoShift(a);
      NoShift(b);
    } else {
      ShlStep(And(a, b), s);
      ShlStep(a, s);
      ShlStep(b, s);
      OneAnd(a, b);
      ShlAnd(Double(a), Double(b), s - 1);
    }
  }

  lemma OneOr(a: Word, b: Word)
    ensures Half(Or(a, b)) == Or(Half(a), Half(b))
  {
  }

  lemma {:induction false} ShrOr(a: Word, b: Word, s: Word)
    requires s < 32
    ensures Shr(Or(a, b), s) == Or(Shr(a, s), Shr(b, s))
    decreases s
  {
    hide Shr, Or, Half;
    if s == 0 {
      NoShift(Or(a, b));
      NoShift(a);
      NoShift(b);
    } else {
      ShrOr(a, b, s - 1);
      ShrStep(Or(a, b), s);
      ShrStep(a, s);
      ShrStep(b, s);
      OneOr(Shr(a, s - 1), Shr(b, s - 1));
    }
  }

  lemma AndShrink(d: Word, k: Word, l: Word)
    requires And(k, l) == k
    ensures And(And(And(d, k), l), k) == And(d, k)
  {
  }

  lemma AndOutside(d: Word, f: Word, m: Word)
    requires And(m, f) == 0
    ensures And(And(d, f), m) == 0
  {
  }

  lemma AndOr(a: Word, b: Word, m: Word)
    ensures And(Or(a, b), m) == Or(And(a, m), And(b, m))
  {
  }

  lemma Zeros(a: Word)
    ensures Or(a, 0) == a && Or(0, a) == a && And(0, a) == 0
  {
  }

  // ----- unsigned order

  predicate AtMost(a: Word, b: Word) {
    a <= b
  }

  lemma HalfAtMost(a: Word, b: Word)
    requires AtMost(a, b)
    ensures AtMost(Half(a), Half(b))
  {
  }

  lemma SameHalf(a: Word, b: Word)
    requires Half(a) == Half(b) && a & 1 == b & 1
    ensures a == b
  {
  }

  lemma OddBit(a: Word, b: Word)
    requires Half(a) == Half(b) && a & 1 == 1 && b & 1 == 0
    ensures !AtMost(a, b)
  {
  }

  lemma LowBit(a: Word)
    ensures a & 1 == 0 || a & 1 == 1
  {
  }

  lemma HalfSmaller(a: Word)
    requires a != 0
    ensures Half(a) < a
  {
  }

  lemma AtMostZero(a: Word)
    requires AtMost(a, 0)
    ensures a == 0
  {
  }

  lemma SameHalfOrdered(a: Word, b: Word)
    requires Half(a) == Half(b) && AtMost(a, b) && AtMost(b, a)
    ensures a == b
  {
    hide Half, AtMost;
    LowBit(a);
    LowBit(b);
    if a & 1 == b & 1 {
      SameHalf(a, b);
    } else if a & 1 == 1 {
      OddBit(a, b);
    } else {
      OddBit(b, a);
    }
  }

  lemma {:induction false} OrderIsStrict(a: Word, b: Word)
    requires AtMost(a, b) && AtMost(b, a)
    ensures a == b
    decreases a
  {
    hide Half, AtMost;
    if a == 0 {
      AtMostZero(b);
    } else {
      HalfSmaller(a);
      HalfAtMost(a, b);
      HalfAtMost(b, a);
      OrderIsStrict(Half(a), Half(b));
      SameHalfOrdered(a, b);
    }
  }

  /** More bits make a number no smaller. */
  lemma GrowsBy(a: Word, b: Word, m: Word)
    ensures AtMost(And(a, m), And(Or(a, b), m))
  {
  }

  /** The order is decided by the halves, and by the last bit when they are equal. */
  lemma AtMostByHalves(a: Word, b: Word)
    requires AtMost(Half(a), Half(b)) && (Half(a) == Half(b) && a & 1 == 1 ==> b & 1 == 1)
    ensures AtMost(a, b)
  {
    hide Half, AtMost;
    if !AtMost(a, b) {
      TotalOrder(a, b);
      HalfAtMost(b, a);
      OrderIsStrict(Half(a), Half(b));
      LowBit(a);
      LowBit(b);
      if a & 1 == b & 1 {
        SameHalf(a, b);
        AtMostItself(a);
      } else {
        OddBit(b, a);
      }
    }
  }

  lemma AtMostItself(a: Word)
    ensures AtMost(a, a)
  {
  }

  lemma TotalOrder(a: Word, b: Word)
    ensures AtMost(a, b) || AtMost(b, a)
  {
  }

  lemma {:induction false} AtMostChain(a: Word, b: Word, c: Word)
    requires AtMost(a, b) && AtMost(b, c)
    ensures AtMost(a, c)
    decreases b
  {
    hide Half, AtMost;
    if b == 0 {
      AtMostZero(a);
    } else {
      HalfSmaller(b);
      HalfAtMost(a, b);
      HalfAtMost(b, c);
      AtMostChain(Half(a), Half(b), Half(c));
      if Half(a) == Half(c) {
        OrderIsStrict(Half(a), Half(b));
        LastBits(a, b, c);
      }
      AtMostByHalves(a, c);
    }
  }

  lemma LastBits(a: Word, b: Word, c: Word)
    requires Half(a) == Half(b) == Half(c) && AtMost(a, b) && AtMost(b, c)
    ensures a & 1 == 1 ==> c & 1 == 1
  {
    hide Half, AtMost;
    LowBit(b);
    LowBit(c);
    if a & 1 == 1 && b & 1 == 0 {
      OddBit(a, b);
    }
    if b & 1 == 1 && c & 1 == 0 {
      OddBit(b, c);
    }
  }

  function Not(m: Word): Word {
    !m
  }

  /** A word with known bits under a mask, and the same with every other bit set. */
  lemma FreeBits(w: Word, known: Word, m: Word)
    requires And(w, m) == known
    ensures Or(known, Not(m)) == Or(w, Not(m))
  {
  }

  // ----- fields

  datatype Hint = Plain | Silent | Addr | Reg | Spr | Tbr | Offset | Literal

  datatype Operand = Operand(bits: Word, shift: Word, hint: Hint)

  /** The field lies inside a word, and an address has a sign bit. */
  predicate Shaped(o: Operand) {
    o.bits < 32 && o.shift < 32 && o.bits + o.shift <= 32 && (o.hint == Addr ==> o.bits > 0)
  }

  function Mask(o: Operand): Word
    requires Shaped(o)
  {
    Bit(o.bits) - 1
  }

  /** The bits of a word that the field occupies. */
  function FieldMask(o: Operand): Word
    requires Shaped(o)
  {
    Shl(Mask(o), o.shift)
  }

  /** A value put in its place, as `parse_operand` returns it. */
  function Insert(o: Operand, data: Word): Word
    requires Shaped(o)
  {
    Shl(And(data, Mask(o)), o.shift)
  }

  /** The value `get_operand_value` and `print_operands` read. */
  function Extract(o: Operand, instr: Word): Word
    requires Shaped(o)
  {
    And(Shr(instr, o.shift), Mask(o))
  }

  lemma MaskFits(o: Operand)
    requires Shaped(o)
    ensures And(Mask(o), Shr(ONES, o.shift)) == Mask(o)
  {
  }

  lemma ExtractInserted(o: Operand, data: Word)
    requires Shaped(o)
    ensures Extract(o, Insert(o, data)) == And(data, Mask(o))
  {
    hide Mask, And, Shl, Shr;
    MaskFits(o);
    ShlShr(And(data, Mask(o)), o.shift);
    AndShrink(data, Mask(o), Shr(ONES, o.shift));
  }

  lemma InsertStaysInside(o: Operand, data: Word, m: Word)
    requires Shaped(o) && And(m, FieldMask(o)) == 0
    ensures And(Insert(o, data), m) == 0
  {
    hide Mask, And, Shl, Shr;
    ShlAnd(data, Mask(o), o.shift);
    AndOutside(Shl(data, o.shift), FieldMask(o), m);
  }

  lemma ExtractOr(o: Operand, a: Word, b: Word)
    requires Shaped(o)
    ensures Extract(o, Or(a, b)) == Or(Extract(o, a), Extract(o, b))
  {
    hide Mask, And, Or, Shr;
    ShrOr(a, b, o.shift);
    AndOr(Shr(a, o.shift), Shr(b, o.shift), Mask(o));
  }

  lemma ExtractOutside(o: Operand, a: Word)
    requires Shaped(o) && And(a, FieldMask(o)) == 0
    ensures Extract(o, a) == 0
  {
    hide Mask, And, Shl, Shr;
    ShrZero(a, Mask(o), o.shift);
  }

  // ----- several fields

  /** The part of an instruction one operand contributes: nothing when it is silent. */
  function Written(o: Operand, data: Word): Word
    requires Shaped(o)
  {
    if o.hint == Silent then 0 else Insert(o, data)
  }

  function Combined(ops: seq<Operand>, data: seq<Word>): Word
    requires |data| == |ops| && forall i :: 0 <= i < |ops| ==> Shaped(ops[i])
  {
    if ops == [] then 0 else Or(Written(ops[0], data[0]), Combined(ops[1..], data[1..]))
  }

  /** Bits that no written field touches. */
  predicate Untouched(ops: seq<Operand>, m: Word)
    requires forall i :: 0 <= i < |ops| ==> Shaped(ops[i])
  {
    forall i :: 0 <= i < |ops| && ops[i].hint != Silent ==> And(m, FieldMask(ops[i])) == 0
  }

  lemma WrittenOutside(o: Operand, data: Word, m: Word)
    requires Shaped(o) && (o.hint != Silent ==> And(m, FieldMask(o)) == 0)
    ensures And(Written(o, data), m) == 0
  {
    hide And, FieldMask, Insert;
    Zeros(m);
    if o.hint != Silent {
      InsertStaysInside(o, data, m);
    }
  }

  lemma {:induction false} CombinedOutside(ops: seq<Operand>, data: seq<Word>, m: Word)
    requires |data| == |ops| && (forall i :: 0 <= i < |ops| ==> Shaped(ops[i])) && Untouched(ops, m)
    ensures And(Combined(ops, data), m) == 0
    decreases |ops|
  {
    hide FieldMask, Written, And, Or;
    Zeros(m);
    if ops != [] {
      WrittenOutside(ops[0], data[0], m);
      CombinedOutside(ops[1..], data[1..], m);
      AndOr(Written(ops[0], data[0]), Combined(ops[1..], data[1..]), m);
      Zeros(0);
    }
  }

  /** The field of an operand is disjoint from those of the other written operands. */
  predicate Apart(ops: seq<Operand>, i: nat)
    requires i < |ops| && forall j :: 0 <= j < |ops| ==> Shaped(ops[j])
  {
    forall j :: 0 <= j < |ops| && j != i && ops[j].hint != Silent ==> And(FieldMask(ops[i]), FieldMask(ops[j])) == 0
  }

  /** Every written operand reads back as its value modulo its width; a silent one as nothing. */
  lemma {:induction false} CombinedReadsBack(ops: seq<Operand>, data: seq<Word>, i: nat)
    requires |data| == |ops| && i < |ops| && (forall j :: 0 <= j < |ops| ==> Shaped(ops[j])) && Apart(ops, i)
    ensures Extract(ops[i], Combined(ops, data)) == if ops[i].hint == Silent then 0 else And(data[i], Mask(ops[i]))
    decreases |ops|
  {
    hide FieldMask, Written, Extract, Mask, And, Or;
    var o, first, rest := ops[i], Written(ops[0], data[0]), Combined(ops[1..], data[1..]);
    ExtractOr(o, first, rest);
    if i == 0 {
      assert Untouched(ops[1..], FieldMask(o)) by {
        assert forall j :: 0 <= j < |ops[1..]| ==> ops[1..][j] == ops[j + 1];
      }
      CombinedOutside(ops[1..], data[1..], FieldMask(o));
      ExtractOutside(o, rest);
      ExtractWritten(o, data[0]);
      Zeros(Extract(o, first));
    } else {
      WrittenOutside(ops[0], data[0], FieldMask(o));
      ExtractOutside(o, first);
      assert Apart(ops[1..], i - 1) by {
        assert forall j :: 0 <= j < |ops[1..]| ==> ops[1..][j] == ops[j + 1];
      }
      CombinedReadsBack(ops[1..], data[1..], i - 1);
      Zeros(Extract(o, rest));
    }
  }

  lemma ExtractWritten(o: Operand, data: Word)
    requires Shaped(o)
    ensures Extract(o, Written(o, data)) == if o.hint == Silent then 0 else And(data, Mask(o))
  {
    hide FieldMask, Insert, Extract, Mask, And;
    if o.hint == Silent {
      Zeros(FieldMask(o));
      ExtractOutside(o, 0);
    } else {
      ExtractInserted(o, data);
    }
  }

  // ----- branch targets

  function Sub(a: Word, b: Word): Word {
    a - b
  }

  predicate Negative(d: Word) {
    d >= 0x8000_0000
  }

  /** An arithmetic shift right by two. */
  function Asr2(d: Word): Word {
    (d >> 2) | (if d >= 0x8000_0000 then 0xC000_0000 else 0)
  }

  /** The address case of `parse_operand`: a distance in words with the sign put on top of the field. */
  function AddrData(bits: Word, d: Word): Word
    requires 0 < bits < 32
  {
    var words := And(Asr2(d), Half(Bit(bits) - 1));
    if Negative(d) then Or(words, Bit(bits - 1)) else words
  }

  /** The distance a field stands for: sign extended, in bytes. */
  function Distance(bits: Word, v: Word): Word
    requires 0 < bits < 32
  {
    Shl(if And(v, Bit(bits - 1)) != 0 then Sub(v, Bit(bits)) else v, 2)
  }

  /** Word aligned and within the signed range of the field. */
  predicate Reachable(bits: Word, d: Word)
    requires 0 < bits < 30
  {
    And(d, 3) == 0 && (if Negative(d) then d >= 0 - Bit(bits + 1) else d < Bit(bits + 1))
  }

  lemma Bits()
    ensures Bit(13) == 0x2000 && Bit(14) == 0x4000 && Bit(15) == 0x8000
    ensures Bit(23) == 0x80_0000 && Bit(24) == 0x100_0000 && Bit(25) == 0x200_0000
    ensures Bit(24) - 1 == 0xFF_FFFF && Half(Bit(24) - 1) == 0x7F_FFFF
    ensures Bit(14) - 1 == 0x3FFF && Half(Bit(14) - 1) == 0x1FFF
    ensures 0 - Bit(25) == 0xFE00_0000 && 0 - Bit(15) == 0xFFFF_8000
  {
  }

  /** A distance survives the 24-bit field exactly when it is aligned and in range. */
  lemma Distance24(d: Word)
    ensures Distance(24, And(AddrData(24, d), Bit(24) - 1)) == d <==> Reachable(24, d)
  {
    hide Bit, And, Or, Sub, Shl, Half, Asr2;
    Bits();
    Below24(Asr2(d));
    Within24(Asr2(d));
    Signed24(Asr2(d));
    Extended24(Asr2(d));
    Back24(d);
  }

  lemma Below24(w: Word)
    ensures And(And(w, 0x7F_FFFF), 0xFF_FFFF) == And(w, 0x7F_FFFF) && And(And(w, 0x7F_FFFF), 0x80_0000) == 0
  {
  }

  lemma Within24(w: Word)
    ensures And(Or(And(w, 0x7F_FFFF), 0x80_0000), 0xFF_FFFF) == Or(And(w, 0x7F_FFFF), 0x80_0000)
  {
    AndOr(And(w, 0x7F_FFFF), 0x80_0000, 0xFF_FFFF);
    assert And(0x80_0000, 0xFF_FFFF) == 0x80_0000;
    hide And, Or;
    Below24(w);
  }

  lemma Signed24(w: Word)
    ensures And(Or(And(w, 0x7F_FFFF), 0x80_0000), 0x80_0000) != 0
  {
  }

  lemma Extended24(w: Word)
    ensures Sub(Or(And(w, 0x7F_FFFF), 0x80_0000), 0x100_0000) == Or(w, 0xFF80_0000)
  {
  }

  lemma Back24(d: Word)
    ensures Negative(d) ==> (Shl(Or(Asr2(d), 0xFF80_0000), 2) == d <==> And(d, 3) == 0 && d >= 0xFE00_0000)
    ensures !Negative(d) ==> (Shl(And(Asr2(d), 0x7F_FFFF), 2) == d <==> And(d, 3) == 0 && d < 0x200_0000)
  {
  }

  /** A distance survives the 14-bit field exactly when it is aligned and in range. */
  lemma Distance14(d: Word)
    ensures Distance(14, And(AddrData(14, d), Bit(14) - 1)) == d <==> Reachable(14, d)
  {
    hide Bit, And, Or, Sub, Shl, Half, Asr2;
    Bits();
    Below14(Asr2(d));
    Within14(Asr2(d));
    Signed14(Asr2(d));
    Extended14(Asr2(d));
    Back14(d);
  }

  lemma Below14(w: Word)
    ensures And(And(w, 0x1FFF), 0x3FFF) == And(w, 0x1FFF) && And(And(w, 0x1FFF), 0x2000) == 0
  {
  }

  lemma Within14(w: Word)
    ensures And(Or(And(w, 0x1FFF), 0x2000), 0x3FFF) == Or(And(w, 0x1FFF), 0x2000)
  {
    AndOr(And(w, 0x1FFF), 0x2000, 0x3FFF);
    assert And(0x2000, 0x3FFF) == 0x2000;
    hide And, Or;
    Below14(w);
  }

  lemma Signed14(w: Word)
    ensures And(Or(And(w, 0x1FFF), 0x2000), 0x2000) != 0
  {
  }

  lemma Extended14(w: Word)
    ensures Sub(Or(And(w, 0x1FFF), 0x2000), 0x4000) == Or(w, 0xFFFF_E000)
  {
  }

  lemma Back14(d: Word)
    ensures Negative(d) ==> (Shl(Or(Asr2(d), 0xFFFF_E000), 2) == d <==> And(d, 3) == 0 && d >= 0xFFFF_8000)
    ensures !Negative(d) ==> (Shl(And(Asr2(d), 0x1FFF), 2) == d <==> And(d, 3) == 0 && d < 0x8000)
  {
  }
}
