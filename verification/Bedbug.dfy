/** The assembler of bedbug, and reading its instructions back, over operand and opcode tables. */
module Bedbug {
  import opened BedbugFields

  /** `fields` holds positions in the operand table, counted from one. */
  datatype Opcode = Opcode(opcode: Word, mask: Word, fields: seq<nat>, relative: bool)

  const MAX_OPERANDS: nat := 8

  predicate TableOk(table: seq<Operand>) {
    forall i :: 0 <= i < |table| ==> Shaped(table[i])
  }

  predicate OpcodeOk(opc: Opcode, table: seq<Operand>) {
    |opc.fields| <= MAX_OPERANDS && forall i :: 0 <= i < |opc.fields| ==> 1 <= opc.fields[i] <= |table|
  }

  /** The operands of an opcode, in the order they are written. */
  function Ops(opc: Opcode, table: seq<Operand>): (ops: seq<Operand>)
    requires TableOk(table) && OpcodeOk(opc, table)
    ensures |ops| == |opc.fields| && forall i :: 0 <= i < |ops| ==> ops[i] == table[opc.fields[i] - 1] && Shaped(ops[i])
  {
    seq(|opc.fields|, i requires 0 <= i < |opc.fields| => table[opc.fields[i] - 1])
  }

  // ----- assembling

  datatype Error = NumOperands | BadRegister | BadSpr | BadTbr

  datatype Parsed = Data(data: Word) | Bad(error: Error)

  datatype ParsedAll = AllData(data: seq<Word>) | SomeBad(error: Error)

  datatype Assembled = Instr(word: Word) | Failed(error: Error)

  /** No register number: above 31 as a signed word. */
  predicate TooHigh(value: Word) {
    !Negative(value) && value > 31
  }

  /** `parse_operand` before masking: the number an operand's text stands for becomes its field's data. */
  function ParseData(memaddr: Word, relative: bool, o: Operand, value: Word): Parsed
    requires Shaped(o)
  {
    match o.hint
    case Addr => Data(AddrData(o.bits, if relative then Sub(value, memaddr) else value))
    case Reg => if TooHigh(value) then Bad(BadRegister) else Data(value)
    case Spr => if value == 0 then Bad(BadSpr) else Data(value)
    case Tbr => if value == 0 then Bad(BadTbr) else Data(value)
    case _ => Data(value)
  }

  /** All operands from left to right; silent ones take no text. */
  function ParseAll(memaddr: Word, relative: bool, ops: seq<Operand>, values: seq<Word>): (r: ParsedAll)
    requires forall i :: 0 <= i < |ops| ==> Shaped(ops[i])
    ensures r.AllData? ==> |r.data| == |ops|
    decreases |ops|
  {
    if ops == [] then AllData([])
    else if ops[0].hint == Silent then Front(0, ParseAll(memaddr, relative, ops[1..], values))
    else if values == [] then SomeBad(NumOperands)
    else
      match ParseData(memaddr, relative, ops[0], values[0])
      case Bad(error) => SomeBad(error)
      case Data(d) => Front(d, ParseAll(memaddr, relative, ops[1..], values[1..]))
  }

  function Front(d: Word, r: ParsedAll): ParsedAll {
    match r
    case AllData(data) => AllData([d] + data)
    case SomeBad(error) => r
  }

  /** An instruction under construction joined with the operands still to come. */
  function Joined(instr: Word, ops: seq<Operand>, r: ParsedAll): Assembled
    requires forall i :: 0 <= i < |ops| ==> Shaped(ops[i])
    requires r.AllData? ==> |r.data| == |ops|
  {
    match r
    case AllData(data) => Instr(Or(instr, Combined(ops, data)))
    case SomeBad(error) => Failed(error)
  }

  function Assemble(memaddr: Word, opc: Opcode, table: seq<Operand>, values: seq<Word>): Assembled
    requires TableOk(table) && OpcodeOk(opc, table)
  {
    Joined(opc.opcode, Ops(opc, table), ParseAll(memaddr, opc.relative, Ops(opc, table), values))
  }

  lemma OrAssociates(a: Word, b: Word, c: Word)
    ensures Or(Or(a, b), c) == Or(a, Or(b, c))
  {
  }

  /** One operand of the loop. */
  lemma JoinStep(instr: Word, memaddr: Word, relative: bool, ops: seq<Operand>, values: seq<Word>)
    requires ops != [] && forall i :: 0 <= i < |ops| ==> Shaped(ops[i])
    ensures ops[0].hint == Silent
      ==> Joined(instr, ops, ParseAll(memaddr, relative, ops, values))
          == Joined(instr, ops[1..], ParseAll(memaddr, relative, ops[1..], values))
    ensures ops[0].hint != Silent && values == []
      ==> Joined(instr, ops, ParseAll(memaddr, relative, ops, values)) == Failed(NumOperands)
    ensures (ops[0].hint != Silent && values != []
             ==> Joined(instr, ops, ParseAll(memaddr, relative, ops, values))
                 == match ParseData(memaddr, relative, ops[0], values[0])
                    case Bad(error) => Failed(error)
                    case Data(d) => Joined(Or(instr, Insert(ops[0], d)), ops[1..],
                                           ParseAll(memaddr, relative, ops[1..], values[1..])))
  {
    hide ParseData, Or, Insert;
    if ops[0].hint == Silent {
      var r := ParseAll(memaddr, relative, ops[1..], values);
      if r.AllData? {
        JoinedFront(instr, ops, 0, r.data);
        assert Or(instr, 0) == instr by {
          Zeros(instr);
        }
      }
    } else if values != [] {
      var p := ParseData(memaddr, relative, ops[0], values[0]);
      var r := ParseAll(memaddr, relative, ops[1..], values[1..]);
      if p.Data? && r.AllData? {
        JoinedFront(instr, ops, p.data, r.data);
      }
    }
  }

  lemma JoinedFront(instr: Word, ops: seq<Operand>, d: Word, rest: seq<Word>)
    requires ops != [] && |rest| == |ops| - 1 && forall i :: 0 <= i < |ops| ==> Shaped(ops[i])
    ensures Or(instr, Combined(ops, [d] + rest)) == Or(Or(instr, Written(ops[0], d)), Combined(ops[1..], rest))
  {
    hide Or, Written;
    assert ([d] + rest)[1..] == rest;
    OrAssociates(instr, Written(ops[0], d), Combined(ops[1..], rest));
  }

  /** `asmppc` once the mnemonic is found and the operand texts are numbers. */
  method Asmppc(memaddr: Word, opc: Opcode, table: seq<Operand>, values: seq<Word>) returns (r: Assembled)
    requires TableOk(table) && OpcodeOk(opc, table)
    ensures r == Assemble(memaddr, opc, table, values)
  {
    hide Joined, ParseAll, ParseData, Insert, Or;
    ghost var ops := Ops(opc, table);
    var wanted, n, next := |opc.fields|, 0, 0;
    var instr := opc.opcode;
    assert ops[0..] == ops && values[0..] == values;
    while n < wanted
      invariant 0 <= n <= wanted && 0 <= next <= |values|
      invariant Joined(instr, ops[n..], ParseAll(memaddr, opc.relative, ops[n..], values[next..]))
        == Assemble(memaddr, opc, table, values)
    {
      var o := table[opc.fields[n] - 1];
      assert ops[n..][0] == o && ops[n..][1..] == ops[n + 1..];
      JoinStep(instr, memaddr, opc.relative, ops[n..], values[next..]);
      if o.hint == Silent {
        n := n + 1;
        continue;
      }
      if next == |values| { break; }
      assert values[next..][0] == values[next] && values[next..][1..] == values[next + 1..];
      match ParseData(memaddr, opc.relative, o, values[next])
      case Bad(error) =>
        return Failed(error);
      case Data(d) =>
        instr := Or(instr, Insert(o, d));
        n, next := n + 1, next + 1;
    }
    if n < wanted {
      return Failed(NumOperands);
    }
    AllJoined(instr, memaddr, opc.relative, values[next..]);
    assert ops[n..] == [];
    return Instr(instr);
  }

  lemma AllJoined(instr: Word, memaddr: Word, relative: bool, values: seq<Word>)
    ensures Joined(instr, [], ParseAll(memaddr, relative, [], values)) == Instr(instr)
  {
    Zeros(instr);
  }

  // ----- reading back

  /** Bits no written field touches, the mask of the opcode among them, are the opcode's own. */
  lemma OpcodeIsKept(memaddr: Word, opc: Opcode, table: seq<Operand>, values: seq<Word>, m: Word)
    requires TableOk(table) && OpcodeOk(opc, table) && Untouched(Ops(opc, table), m)
    requires Assemble(memaddr, opc, table, values).Instr?
    ensures And(Assemble(memaddr, opc, table, values).word, m) == And(opc.opcode, m)
  {
    hide And, Or, Combined, ParseAll;
    var ops := Ops(opc, table);
    var data := ParseAll(memaddr, opc.relative, ops, values).data;
    CombinedOutside(ops, data, m);
    AndOr(opc.opcode, Combined(ops, data), m);
    Zeros(And(opc.opcode, m));
  }

  /** Number of operands before `i` that take a text. */
  function Rank(ops: seq<Operand>, i: nat): nat
    requires i <= |ops|
  {
    if i == 0 then 0 else (if ops[0].hint == Silent then 0 else 1) + Rank(ops[1..], i - 1)
  }

  lemma {:induction false} ParsedAt(memaddr: Word, relative: bool, ops: seq<Operand>, values: seq<Word>, i: nat)
    requires (forall j :: 0 <= j < |ops| ==> Shaped(ops[j])) && i < |ops| && ops[i].hint != Silent
    requires ParseAll(memaddr, relative, ops, values).AllData?
    ensures Rank(ops, i) < |values|
    ensures ParseData(memaddr, relative, ops[i], values[Rank(ops, i)])
      == Data(ParseAll(memaddr, relative, ops, values).data[i])
    decreases |ops|
  {
    hide ParseData;
    if i > 0 {
      ParsedAt(memaddr, relative, ops[1..], if ops[0].hint == Silent then values else values[1..], i - 1);
    }
  }

  /** What `get_operand_value` returns for an assembled instruction: the operand modulo its width, and for a
      silent operand the bit the opcode carries. */
  lemma OperandReadsBack(memaddr: Word, opc: Opcode, table: seq<Operand>, values: seq<Word>, i: nat)
    requires TableOk(table) && OpcodeOk(opc, table) && i < |opc.fields|
    requires Apart(Ops(opc, table), i) && Assemble(memaddr, opc, table, values).Instr?
    requires var o := Ops(opc, table)[i]; o.hint != Silent ==> And(opc.opcode, FieldMask(o)) == 0
    ensures (var ops := Ops(opc, table);
             var got := Extract(ops[i], Assemble(memaddr, opc, table, values).word);
             && (ops[i].hint == Silent ==> got == Extract(ops[i], opc.opcode))
             && (ops[i].hint != Silent ==>
                   Rank(ops, i) < |values|
                   && (var p := ParseData(memaddr, opc.relative, ops[i], values[Rank(ops, i)]);
                       p.Data? && got == And(p.data, Mask(ops[i])))))
  {
    hide And, Or, Combined, ParseAll, Extract, Mask, FieldMask, ParseData, Rank, Apart;
    var ops := Ops(opc, table);
    var o, data := ops[i], ParseAll(memaddr, opc.relative, ops, values).data;
    CombinedReadsBack(ops, data, i);
    ExtractOr(o, opc.opcode, Combined(ops, data));
    if o.hint == Silent {
      Zeros(Extract(o, opc.opcode));
    } else {
      ParsedAt(memaddr, opc.relative, ops, values, i);
      ExtractOutside(o, opc.opcode);
      Zeros(And(data[i], Mask(o)));
    }
  }

  /** `get_operand_value`. */
  method GetOperandValue(opc: Opcode, table: seq<Operand>, instr: Word, field: nat) returns (found: bool, value: Word)
    requires TableOk(table) && OpcodeOk(opc, table)
    ensures found <==> field in opc.fields
    ensures found ==> 1 <= field <= |table| && value == Extract(table[field - 1], instr)
  {
    hide Extract;
    if field > |table| {
      return false, 0;
    }
    for i := 0 to |opc.fields|
      invariant field !in opc.fields[..i]
    {
      if opc.fields[i] != field {
        continue;
      }
      return true, Extract(table[opc.fields[i] - 1], instr);
    }
    return false, 0;
  }

  // ----- finding the opcode

  predicate Matches(opc: Opcode, instr: Word) {
    And(instr, opc.mask) == opc.opcode
  }

  /** The instruction sorts before, or after, an entry. */
  predicate Below(opc: Opcode, instr: Word) {
    !AtMost(opc.opcode, And(instr, opc.mask))
  }

  predicate Above(opc: Opcode, instr: Word) {
    !AtMost(And(instr, opc.mask), opc.opcode)
  }

  lemma OneOfThree(opc: Opcode, instr: Word)
    ensures Matches(opc, instr) <==> !Below(opc, instr) && !Above(opc, instr)
  {
    hide And, AtMost;
    if !Below(opc, instr) && !Above(opc, instr) {
      OrderIsStrict(And(instr, opc.mask), opc.opcode);
    }
    AtMostItself(opc.opcode);
  }

  /** Entry `k` matches, and the table is sorted around it as the search sees it. */
  predicate SortedAround(opcodes: seq<Opcode>, instr: Word, k: nat) {
    && k < |opcodes| && Matches(opcodes[k], instr)
    && (forall i :: 0 <= i < k ==> Above(opcodes[i], instr))
    && (forall i :: k < i < |opcodes| ==> Below(opcodes[i], instr))
  }

  /** Where the entry the table is sorted around lies, seen from entry `idx`. */
  lemma WhichHalf(opcodes: seq<Opcode>, instr: Word, k: nat, idx: nat)
    requires SortedAround(opcodes, instr, k) && idx < |opcodes|
    ensures Below(opcodes[idx], instr) ==> k < idx
    ensures Above(opcodes[idx], instr) && !Below(opcodes[idx], instr) ==> k > idx
    ensures Matches(opcodes[idx], instr) ==> k == idx
  {
    hide Matches, Below, Above;
    OneOfThree(opcodes[idx], instr);
    OneOfThree(opcodes[k], instr);
    NotBoth(opcodes[idx], instr);
  }

  lemma NotBoth(opc: Opcode, instr: Word)
    ensures !(Below(opc, instr) && Above(opc, instr))
  {
    TotalOrder(And(instr, opc.mask), opc.opcode);
  }

  /** `find_opcode`: the binary search finds only matching entries, and the one the table is sorted around. */
  method FindOpcode(opcodes: seq<Opcode>, instr: Word) returns (found: int)
    ensures -1 <= found < |opcodes|
    ensures found >= 0 ==> Matches(opcodes[found], instr)
    ensures forall k: nat :: SortedAround(opcodes, instr, k) ==> found == k
  {
    hide Matches, Below, Above, SortedAround;
    var top, bottom := 0, |opcodes| - 1;
    forall k: nat | SortedAround(opcodes, instr, k)
      ensures k < |opcodes|
    {
      InTable(opcodes, instr, k);
    }
    while top <= bottom
      invariant 0 <= top <= bottom + 1 <= |opcodes|
      invariant forall k: nat :: SortedAround(opcodes, instr, k) ==> top <= k <= bottom
      decreases bottom - top
    {
      var idx: nat := (top + bottom) / 2;
      OneOfThree(opcodes[idx], instr);
      forall k: nat | SortedAround(opcodes, instr, k)
        ensures Below(opcodes[idx], instr) ==> k < idx
        ensures Above(opcodes[idx], instr) && !Below(opcodes[idx], instr) ==> k > idx
        ensures Matches(opcodes[idx], instr) ==> k == idx
      {
        WhichHalf(opcodes, instr, k, idx);
      }
      if Below(opcodes[idx], instr) {
        bottom := idx - 1;
      } else if Above(opcodes[idx], instr) {
        top := idx + 1;
      } else {
        return idx;
      }
    }
    return -1;
  }

  lemma InTable(opcodes: seq<Opcode>, instr: Word, k: nat)
    requires SortedAround(opcodes, instr, k)
    ensures k < |opcodes|
  {
  }

  /** An assembled instruction matches its own opcode again. */
  lemma AssembledMatches(memaddr: Word, opc: Opcode, table: seq<Operand>, values: seq<Word>)
    requires TableOk(table) && OpcodeOk(opc, table) && Untouched(Ops(opc, table), opc.mask)
    requires And(opc.opcode, opc.mask) == opc.opcode && Assemble(memaddr, opc, table, values).Instr?
    ensures Matches(opc, Assemble(memaddr, opc, table, values).word)
  {
    hide And, Assemble, Untouched;
    OpcodeIsKept(memaddr, opc, table, values, opc.mask);
  }

  /** Whatever the operands of `k`, its instructions sort after entry `i`, or before it. */
  predicate AlwaysAbove(i: Opcode, k: Opcode) {
    !AtMost(And(k.opcode, i.mask), i.opcode)
  }

  predicate AlwaysBelow(i: Opcode, k: Opcode) {
    !AtMost(i.opcode, And(Or(k.opcode, Not(k.mask)), i.mask))
  }

  /** What the opcode table has to meet, pair by pair, for the binary search to work on every instruction. */
  predicate TableSorted(opcodes: seq<Opcode>) {
    forall i, k :: 0 <= i < k < |opcodes| ==> AlwaysAbove(opcodes[i], opcodes[k]) && AlwaysBelow(opcodes[k], opcodes[i])
  }

  lemma SortsAfter(i: Opcode, k: Opcode, instr: Word)
    requires Matches(k, instr) && AlwaysAbove(i, k)
    ensures Above(i, instr)
  {
    hide And, Or, AtMost;
    AndOnly(instr, k.mask, i.mask);
    if AtMost(And(instr, i.mask), i.opcode) {
      AtMostChain(And(k.opcode, i.mask), And(instr, i.mask), i.opcode);
    }
  }

  lemma AndOnly(w: Word, m: Word, n: Word)
    ensures AtMost(And(And(w, m), n), And(w, n))
  {
  }

  lemma SortsBefore(i: Opcode, k: Opcode, instr: Word)
    requires Matches(k, instr) && AlwaysBelow(i, k)
    ensures Below(i, instr)
  {
    hide And, Or, AtMost, Not;
    FreeBits(instr, k.opcode, k.mask);
    GrowsBy(instr, Not(k.mask), i.mask);
    if AtMost(i.opcode, And(instr, i.mask)) {
      AtMostChain(i.opcode, And(instr, i.mask), And(Or(instr, Not(k.mask)), i.mask));
    }
  }

  /** In a sorted table the search finds an assembled instruction at its own entry. */
  lemma AssembledIsFound(memaddr: Word, opcodes: seq<Opcode>, k: nat, table: seq<Operand>, values: seq<Word>)
    requires TableOk(table) && TableSorted(opcodes) && k < |opcodes|
    requires OpcodeOk(opcodes[k], table) && Untouched(Ops(opcodes[k], table), opcodes[k].mask)
    requires And(opcodes[k].opcode, opcodes[k].mask) == opcodes[k].opcode
    requires Assemble(memaddr, opcodes[k], table, values).Instr?
    ensures SortedAround(opcodes, Assemble(memaddr, opcodes[k], table, values).word, k)
  {
    hide And, Assemble, Untouched, Matches, Above, Below, AlwaysAbove, AlwaysBelow;
    AssembledMatches(memaddr, opcodes[k], table, values);
    MatchIsFound(opcodes, k, Assemble(memaddr, opcodes[k], table, values).word);
  }

  lemma MatchIsFound(opcodes: seq<Opcode>, k: nat, instr: Word)
    requires TableSorted(opcodes) && k < |opcodes| && Matches(opcodes[k], instr)
    ensures SortedAround(opcodes, instr, k)
  {
    hide Matches, Above, Below, AlwaysAbove, AlwaysBelow;
    forall i | 0 <= i < k
      ensures Above(opcodes[i], instr)
    {
      SortsAfter(opcodes[i], opcodes[k], instr);
    }
    forall i | k < i < |opcodes|
      ensures Below(opcodes[i], instr)
    {
      SortsBefore(opcodes[i], opcodes[k], instr);
    }
  }
}
