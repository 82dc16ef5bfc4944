/** Branches through registers, the meaning of branch conditions, and which operands assemble. */
module BedbugLaws {
  import opened BedbugFields
  import opened Bedbug
  import opened BedbugStep
  import opened BedbugNext

  // ----- conditions

  /** Condition register bits are counted from the most significant one. */
  lemma CrBitFromTop(cr: Word, bi: Word)
    requires BitNumber(bi)
    ensures CrBit(cr, bi) <==> Negative(cr << bi)
  {
  }

  /** What the BO field asks of the counter and the condition bit, by its value without the prediction bit. */
  function Asks(pair: nat, last: bool, bit: bool): bool {
    match pair
    case 0 => !last && !bit
    case 1 => last && !bit
    case 2 => !bit
    case 4 => !last && bit
    case 5 => last && bit
    case 6 => bit
    case 8 => !last
    case 9 => last
    case 10 => true
    case _ => false
  }

  /** A conditional branch is taken exactly when its BO field asks for it, whatever the prediction bit; `last` says
      that the counter is about to become zero. */
  lemma TakenTable(bo: Word, bi: Word, ctr: Word, cr: Word)
    requires BitNumber(bi) && bo < 32
    ensures Taken(bo, bi, ctr, cr) == Asks(bo as nat / 2, ctr == 1, Negative(cr << bi))
  {
    hide CrBit, And, Sub, BoCase, BitNumber, Negative, KnownCase, Asks;
    OneLess(ctr);
    CrBitFromTop(cr, bi);
    BoPairs(bo);
    PairMeaning(BoCase(bo), ctr == 1, CrBit(cr, bi));
  }

  lemma PairMeaning(c: Word, last: bool, bit: bool)
    requires c < 16
    ensures Asks(c as nat, last, bit) <==>
      && KnownCase(c) && (And(c, 8) != 0 || (bit <==> And(c, 4) != 0))
      && (And(c, 2) != 0 || (last <==> And(c, 1) != 0))
  {
    hide And;
    CaseBits();
    if KnownCase(c) {
      assert c == 0 || c == 1 || c == 2 || c == 4 || c == 5 || c == 6 || c == 8 || c == 9 || c == 10;
    }
  }

  lemma BoPairs(bo: Word)
    requires bo < 32
    ensures BoCase(bo) < 16 && BoCase(bo) as nat == bo as nat / 2
  {
    assert BoCase(bo) == bo / 2;
  }

  lemma OneLess(ctr: Word)
    ensures Sub(ctr, 1) == 0 <==> ctr == 1
  {
  }

  // ----- branches to a register

  /** `bcctr`, `bcctrl`, `bclr` and `bclrl`. */
  function BranchR(counter: bool, lk: bool): Opcode {
    Opcode(Or(if counter then 0x4C00_0420 else 0x4C00_0020, if lk then 1 else 0), 0xFC00_07FF,
           [O_BO, O_BI, O_LK], false)
  }

  lemma RegisterWords(counter: bool, lk: bool)
    ensures var w := BranchR(counter, lk).opcode;
      && FormOf(w) == (if counter then ToCtr else ToLr)
      && And(w, 0x03E0_0000) == 0 && And(w, 0x001F_0000) == 0 && Set(Extract(LK, w)) == lk
  {
  }

  lemma ROps(table: seq<Operand>, counter: bool, lk: bool)
    requires BranchTable(table)
    ensures OpcodeOk(BranchR(counter, lk), table) && Ops(BranchR(counter, lk), table) == [BO, BI, LK]
    ensures forall i :: 0 <= i < 3 ==> Apart(Ops(BranchR(counter, lk), table), i)
  {
    hide And, Or, FieldMask, TableOk;
    FieldMasks();
    MasksDisjoint();
  }

  lemma RParsed(memaddr: Word, bo: Word, bi: Word)
    ensures ParseAll(memaddr, false, [BO, BI, LK], [bo, bi]).AllData?
    ensures Rank([BO, BI, LK], 0) == 0 && Rank([BO, BI, LK], 1) == 1
  {
    assert [BO, BI, LK][1..] == [BI, LK] && [BI, LK][1..] == [LK] && [LK][1..] == [];
    assert [bo, bi][1..] == [bi] && [bi][1..] == [];
    assert ParseAll(memaddr, false, [LK], []).AllData?;
    assert ParseAll(memaddr, false, [BI, LK], [bi]).AllData?;
    assert Rank([BI, LK], 0) == 0;
  }

  /** The fields of an assembled branch to a register. */
  lemma RFields(table: seq<Operand>, memaddr: Word, bo: Word, bi: Word, counter: bool, lk: bool)
    requires BranchTable(table)
    ensures OpcodeOk(BranchR(counter, lk), table)
    ensures (var r := Assemble(memaddr, BranchR(counter, lk), table, [bo, bi]);
             && r.Instr?
             && Extract(BO, r.word) == And(bo, Mask(BO)) && Extract(BI, r.word) == And(bi, Mask(BI))
             && Set(Extract(LK, r.word)) == lk)
  {
    hide And, Or, FieldMask, TableOk, Mask, Extract, FormOf, Apart, Set, ParseAll, Rank;
    var opc, values := BranchR(counter, lk), [bo, bi];
    ROps(table, counter, lk);
    FieldMasks();
    RegisterWords(counter, lk);
    RParsed(memaddr, bo, bi);
    OperandReadsBack(memaddr, opc, table, values, 0);
    OperandReadsBack(memaddr, opc, table, values, 1);
    OperandReadsBack(memaddr, opc, table, values, 2);
  }

  lemma HasR(counter: bool, lk: bool)
    ensures HasFields(BranchR(counter, lk), ToCtr) && HasFields(BranchR(counter, lk), ToLr)
  {
  }

  /** Where a branch to a register with given fields goes. */
  lemma RegisterNext(table: seq<Operand>, w: Word, nip: Word, counter: bool, lk: bool, ctr: Word, cr: Word, lr: Word,
                     over: bool)
    requires BranchTable(table) && Set(Extract(LK, w)) == lk && BitNumber(Extract(BI, w))
    ensures NextAddress(BranchR(counter, lk), table, w, nip, ctr, cr, lr, over)
      == if Taken(Extract(BO, w), Extract(BI, w), ctr, cr) && !(over && lk) then At(if counter then ctr else lr)
         else At(Add(WordOf(nip), 4))
  {
    hide And, Or, Add, Extract, FormOf, HasFields, Taken, BitNumber, WordOf, Distance;
    RegisterWords(counter, lk);
    HasR(counter, lk);
  }

  /** Stepping an assembled `bclr` goes to the link register and `bcctr` to the counter register when the branch is
      taken, and past it otherwise; a linking one is stepped over. */
  lemma RegisterAgrees(table: seq<Operand>, memaddr: Word, bo: Word, bi: Word, counter: bool, lk: bool,
                       nip: Word, ctr: Word, cr: Word, lr: Word)
    requires BranchTable(table) && WordOf(nip) == memaddr
    requires BitNumber(bi) && And(bo, Mask(BO)) == bo && And(bi, Mask(BI)) == bi
    ensures OpcodeOk(BranchR(counter, lk), table)
    ensures (var opc := BranchR(counter, lk);
             var r := Assemble(memaddr, opc, table, [bo, bi]);
             && r.Instr?
             && (Taken(bo, bi, ctr, cr) ==>
                   NextAddress(opc, table, r.word, nip, ctr, cr, lr, false) == At(if counter then ctr else lr))
             && (!Taken(bo, bi, ctr, cr) ==>
                   NextAddress(opc, table, r.word, nip, ctr, cr, lr, false) == At(Add(memaddr, 4)))
             && NextAddress(opc, table, r.word, nip, ctr, cr, lr, true)
                == (if lk then At(Add(memaddr, 4)) else NextAddress(opc, table, r.word, nip, ctr, cr, lr, false)))
  {
    hide And, Or, Mask, Add, Extract, Set, Assemble, Taken, BitNumber, NextAddress, BranchR, TableOk, WordOf;
    RFields(table, memaddr, bo, bi, counter, lk);
    var w := Assemble(memaddr, BranchR(counter, lk), table, [bo, bi]).word;
    RegisterNext(table, w, nip, counter, lk, ctr, cr, lr, false);
    RegisterNext(table, w, nip, counter, lk, ctr, cr, lr, true);
  }

  /** An instruction that is no branch goes on to the next word. */
  lemma OtherGoesOn(opc: Opcode, table: seq<Operand>, instr: Word, nip: Word, ctr: Word, cr: Word, lr: Word, over: bool)
    requires BranchTable(table) && FormOf(opc.opcode) == Other
    ensures NextAddress(opc, table, instr, nip, ctr, cr, lr, over) == At(Add(WordOf(nip), 4))
  {
    hide And, Add, WordOf;
    NothingNeeded(opc);
  }

  /** The program counter is rounded down to a word. */
  lemma WordOfIs(nip: Word)
    ensures And(WordOf(nip), 3) == 0 && WordOf(nip) <= nip <= WordOf(nip) + 3
  {
  }

  // ----- which operands assemble

  /** A register number is at most 31; the numbers above 0x7FFFFFFF are taken for negative ones. A name of a special
      or time base register stands for a number other than 0. */
  predicate Accepts(o: Operand, value: Word) {
    match o.hint
    case Reg => value < 32 || value > 0x7FFF_FFFF
    case Spr => value != 0
    case Tbr => value != 0
    case _ => true
  }

  /** What is wrong with an operand that is missing or not accepted. */
  function ErrorOf(o: Operand, missing: bool): Error {
    if missing then NumOperands
    else if o.hint == Reg then BadRegister
    else if o.hint == Spr then BadSpr
    else BadTbr
  }

  lemma ParseDataIs(memaddr: Word, relative: bool, o: Operand, value: Word)
    requires Shaped(o)
    ensures ParseData(memaddr, relative, o, value).Data? <==> Accepts(o, value)
    ensures !Accepts(o, value) ==> ParseData(memaddr, relative, o, value) == Bad(ErrorOf(o, false))
  {
    hide Shaped, AddrData, Sub;
  }

  /** Operand `i` has a text, and it is accepted. */
  predicate Fine(ops: seq<Operand>, values: seq<Word>, i: nat)
    requires i < |ops|
  {
    ops[i].hint == Silent || (Rank(ops, i) < |values| && Accepts(ops[i], values[Rank(ops, i)]))
  }

  /** The first operand that is not fine. */
  predicate FirstBad(ops: seq<Operand>, values: seq<Word>, i: nat)
    requires i < |ops|
  {
    !Fine(ops, values, i) && forall j :: 0 <= j < i ==> Fine(ops, values, j)
  }

  /** The texts left for the operands after the first. */
  function Left(ops: seq<Operand>, values: seq<Word>): seq<Word>
    requires ops != [] && (ops[0].hint != Silent ==> values != [])
  {
    if ops[0].hint == Silent then values else values[1..]
  }

  lemma FirstFine(ops: seq<Operand>, values: seq<Word>)
    requires ops != []
    ensures Rank(ops, 0) == 0
    ensures Fine(ops, values, 0) <==> ops[0].hint == Silent || (values != [] && Accepts(ops[0], values[0]))
  {
  }

  lemma FineLater(ops: seq<Operand>, values: seq<Word>, i: nat)
    requires i + 1 < |ops| && (ops[0].hint != Silent ==> values != [])
    ensures Fine(ops, values, i + 1) <==> Fine(ops[1..], Left(ops, values), i)
    ensures Rank(ops, i + 1) >= |values| <==> Rank(ops[1..], i) >= |Left(ops, values)|
  {
    hide Accepts;
    assert Rank(ops, i + 1) == Rank(ops[1..], i) + if ops[0].hint == Silent then 0 else 1;
  }

  lemma FirstBadLater(ops: seq<Operand>, values: seq<Word>, i: nat)
    requires 0 < i < |ops| && FirstBad(ops, values, i) && (ops[0].hint != Silent ==> values != [])
    ensures FirstBad(ops[1..], Left(ops, values), i - 1)
  {
    hide Fine;
    forall j | 0 <= j < i
      ensures Fine(ops, values, j + 1) <==> Fine(ops[1..], Left(ops, values), j)
    {
      FineLater(ops, values, j);
    }
  }

  lemma AllFine(ops: seq<Operand>, values: seq<Word>)
    requires ops != [] && Fine(ops, values, 0) && (ops[0].hint != Silent ==> values != [])
    ensures (forall i :: 0 <= i < |ops| ==> Fine(ops, values, i))
       <==> (forall i :: 0 <= i < |ops| - 1 ==> Fine(ops[1..], Left(ops, values), i))
  {
    hide Fine;
    forall i | 0 <= i < |ops| - 1
      ensures Fine(ops, values, i + 1) <==> Fine(ops[1..], Left(ops, values), i)
    {
      FineLater(ops, values, i);
    }
    if forall i :: 0 <= i < |ops| - 1 ==> Fine(ops[1..], Left(ops, values), i) {
      forall i | 0 <= i < |ops| ensures Fine(ops, values, i) {
        if i > 0 { assert Fine(ops[1..], Left(ops, values), i - 1); }
      }
    }
    if forall i :: 0 <= i < |ops| ==> Fine(ops, values, i) {
      forall i | 0 <= i < |ops| - 1 ensures Fine(ops[1..], Left(ops, values), i) {
        assert Fine(ops, values, i + 1);
      }
    }
  }

  lemma ParsedStep(memaddr: Word, relative: bool, ops: seq<Operand>, values: seq<Word>)
    requires ops != [] && forall i :: 0 <= i < |ops| ==> Shaped(ops[i])
    ensures !Fine(ops, values, 0)
      ==> ParseAll(memaddr, relative, ops, values) == SomeBad(ErrorOf(ops[0], Rank(ops, 0) >= |values|))
    ensures Fine(ops, values, 0) ==> (ops[0].hint != Silent ==> values != [])
    ensures Fine(ops, values, 0)
      ==> ParseAll(memaddr, relative, ops, values)
          == Front(FirstData(memaddr, relative, ops[0], values),
                   ParseAll(memaddr, relative, ops[1..], Left(ops, values)))
  {
    hide ParseData, Accepts, Shaped, Front;
    FirstFine(ops, values);
    if ops[0].hint != Silent && values != [] {
      ParseDataIs(memaddr, relative, ops[0], values[0]);
    }
  }

  function FirstData(memaddr: Word, relative: bool, o: Operand, values: seq<Word>): Word
    requires Shaped(o)
  {
    if o.hint == Silent || values == [] then 0
    else match ParseData(memaddr, relative, o, values[0]) case Data(d) => d case Bad(_) => 0
  }

  /** All operands are read exactly when each is fine; otherwise the first that is not decides the error. Texts left
      over do not matter. */
  lemma {:induction false} ParseAllIff(memaddr: Word, relative: bool, ops: seq<Operand>, values: seq<Word>)
    requires forall i :: 0 <= i < |ops| ==> Shaped(ops[i])
    ensures var r := ParseAll(memaddr, relative, ops, values);
      && (r.AllData? <==> forall i :: 0 <= i < |ops| ==> Fine(ops, values, i))
      && (forall i :: 0 <= i < |ops| && FirstBad(ops, values, i) ==>
            r == SomeBad(ErrorOf(ops[i], Rank(ops, i) >= |values|)))
    decreases |ops|
  {
    hide ParseData, Accepts, ErrorOf, Shaped, Fine;
    if ops != [] {
      ParsedStep(memaddr, relative, ops, values);
      if Fine(ops, values, 0) {
        ParseAllIff(memaddr, relative, ops[1..], Left(ops, values));
        AllFine(ops, values);
        forall i | 0 <= i < |ops| && FirstBad(ops, values, i)
          ensures ParseAll(memaddr, relative, ops, values) == SomeBad(ErrorOf(ops[i], Rank(ops, i) >= |values|))
        {
          FirstBadLater(ops, values, i);
          FineLater(ops, values, i - 1);
        }
      }
    }
  }

  /** So exactly these instructions assemble, and every other one is refused for its first bad operand. */
  lemma AssembleIff(memaddr: Word, opc: Opcode, table: seq<Operand>, values: seq<Word>)
    requires TableOk(table) && OpcodeOk(opc, table)
    ensures var ops, r := Ops(opc, table), Assemble(memaddr, opc, table, values);
      && (r.Instr? <==> forall i :: 0 <= i < |ops| ==> Fine(ops, values, i))
      && (forall i :: 0 <= i < |ops| && FirstBad(ops, values, i) ==>
            r == Failed(ErrorOf(ops[i], Rank(ops, i) >= |values|)))
  {
    hide ParseAll, Fine, FirstBad, ErrorOf, Combined;
    ParseAllIff(memaddr, opc.relative, Ops(opc, table), values);
  }
}
