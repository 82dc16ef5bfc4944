/** What the disassembler shows for an assembled instruction, and where the single-stepper goes next. */
module BedbugStep {
  import opened BedbugFields
  import opened Bedbug

  function Add(a: Word, b: Word): Word {
    a + b
  }

  lemma SumLess(a: Word, b: Word)
    ensures Sub(a + b, b) == a
  {
  }

  lemma DifferencePlus(a: Word, b: Word)
    ensures Add(a - b, b) == a
  {
  }

  lemma Named(a: Word, b: Word)
    ensures Add(a, b) == a + b && Sub(a, b) == a - b
  {
  }

  /** Adding and subtracting the same word undo each other. */
  lemma AddSub(a: Word, b: Word)
    ensures Sub(Add(a, b), b) == a
  {
    hide Add, Sub;
    Named(a, b);
    SumLess(a, b);
  }

  lemma SubAdd(a: Word, b: Word)
    ensures Add(Sub(a, b), b) == a
  {
    hide Add, Sub;
    Named(a, b);
    DifferencePlus(a, b);
  }

  // ----- disassembling

  /** The number `print_operands` formats for an operand that is no literal. */
  function Number(o: Operand, instr: Word, relative: bool, virt: Word): Word
    requires Shaped(o) && o.hint != Literal
  {
    match o.hint
    case Addr =>
      var d := Distance(o.bits, Extract(o, instr));
      if relative then Add(d, virt) else d
    case Reg => Extract(o, instr)
    case Spr => Extract(o, instr)
    case Tbr => Extract(o, instr)
    case _ => And(Extract(o, instr), 0xFFFF)
  }

  /** What is shown for an operand: a fixed text, or a number in the format its hint selects. */
  datatype Item = Text(text: string) | Value(hint: Hint, number: Word)

  function Shown(o: Operand, instr: Word, relative: bool, virt: Word): Item
    requires Shaped(o)
  {
    if o.hint == Literal then Text("cr2") else Value(o.hint, Number(o, instr, relative, virt))
  }

  /** What is shown for an instruction, silent operands left out. */
  function ShownAll(ops: seq<Operand>, instr: Word, relative: bool, virt: Word): seq<Item>
    requires forall i :: 0 <= i < |ops| ==> Shaped(ops[i])
  {
    if ops == [] then []
    else if ops[0].hint == Silent then ShownAll(ops[1..], instr, relative, virt)
    else [Shown(ops[0], instr, relative, virt)] + ShownAll(ops[1..], instr, relative, virt)
  }

  lemma ShownStep(out: seq<Item>, ops: seq<Operand>, instr: Word, relative: bool, virt: Word)
    requires ops != [] && forall i :: 0 <= i < |ops| ==> Shaped(ops[i])
    ensures (var more := if ops[0].hint == Silent then [] else [Shown(ops[0], instr, relative, virt)];
             out + ShownAll(ops, instr, relative, virt) == out + more + ShownAll(ops[1..], instr, relative, virt))
  {
    hide Shown, Shaped;
    if ops[0].hint == Silent {
      assert out + [] == out;
    } else {
      var s, rest := Shown(ops[0], instr, relative, virt), ShownAll(ops[1..], instr, relative, virt);
      assert ShownAll(ops, instr, relative, virt) == [s] + rest;
      assert out + ([s] + rest) == out + [s] + rest;
    }
  }

  /** `print_operands`, with what it formats as its output. */
  method PrintOperands(opc: Opcode, table: seq<Operand>, instr: Word, virt: Word) returns (out: seq<Item>)
    requires TableOk(table) && OpcodeOk(opc, table)
    ensures out == ShownAll(Ops(opc, table), instr, opc.relative, virt)
  {
    hide Shown, ShownAll, Ops;
    ghost var ops := Ops(opc, table);
    out := [];
    assert ops[0..] == ops && [] + ShownAll(ops, instr, opc.relative, virt) == ShownAll(ops, instr, opc.relative, virt);
    for field := 0 to |opc.fields|
      invariant out + ShownAll(ops[field..], instr, opc.relative, virt) == ShownAll(ops, instr, opc.relative, virt)
    {
      var o := table[opc.fields[field] - 1];
      assert ops[field..][0] == o && ops[field..][1..] == ops[field + 1..];
      ShownStep(out, ops[field..], instr, opc.relative, virt);
      if o.hint == Silent {
        assert out + [] == out;
        continue;
      }
      out := out + [Shown(o, instr, opc.relative, virt)];
    }
    NothingShown(out, instr, opc.relative, virt);
    assert ops[|opc.fields|..] == [];
  }

  lemma NothingShown(out: seq<Item>, instr: Word, relative: bool, virt: Word)
    ensures out + ShownAll([], instr, relative, virt) == out
  {
  }

  /** The operand kinds of the processor's tables: addresses of 24 or 14 bits, numbers of at most 16. */
  predicate Usual(o: Operand) {
    Shaped(o)
    && (o.hint == Addr ==> o.bits == 24 || o.bits == 14)
    && (o.hint == Plain || o.hint == Offset ==> o.bits <= 16)
  }

  /** The value fits its field: an address is aligned and in range, a number is no wider than the field. */
  predicate Fits(o: Operand, relative: bool, memaddr: Word, value: Word)
    requires Usual(o)
  {
    match o.hint
    case Addr => Reachable(o.bits, if relative then Sub(value, memaddr) else value)
    case _ => And(value, Mask(o)) == value
  }

  lemma DistanceBack(o: Operand, d: Word)
    requires Usual(o) && o.hint == Addr
    ensures Distance(o.bits, And(AddrData(o.bits, d), Mask(o))) == d <==> Reachable(o.bits, d)
  {
    hide And, Distance, AddrData, Reachable, Bit;
    if o.bits == 24 {
      Distance24(d);
    } else {
      Distance14(d);
    }
  }

  /** The address case: a target comes back from its field exactly when its distance is aligned and in range. */
  lemma TargetBack(o: Operand, relative: bool, memaddr: Word, value: Word)
    requires Usual(o) && o.hint == Addr
    ensures (var d := if relative then Sub(value, memaddr) else value;
             var back := Distance(o.bits, And(AddrData(o.bits, d), Mask(o)));
             (if relative then Add(back, memaddr) else back) == value <==> Reachable(o.bits, d))
  {
    hide And, Distance, AddrData, Add, Sub, Reachable, Mask;
    var d := if relative then Sub(value, memaddr) else value;
    DistanceBack(o, d);
    if relative {
      SumIs(Distance(o.bits, And(AddrData(o.bits, d), Mask(o))), memaddr, value);
    }
  }

  lemma SumIs(a: Word, b: Word, sum: Word)
    ensures Add(a, b) == sum <==> a == Sub(sum, b)
  {
    hide Add, Sub;
    AddSub(a, b);
    SubAdd(sum, b);
  }

  lemma AddrBack(o: Operand, instr: Word, relative: bool, memaddr: Word, value: Word, data: Word)
    requires Usual(o) && o.hint == Addr && ParseData(memaddr, relative, o, value) == Data(data)
    requires Extract(o, instr) == And(data, Mask(o))
    ensures Number(o, instr, relative, memaddr) == value <==> Fits(o, relative, memaddr, value)
  {
    hide And, Extract, Distance, AddrData, Add, Sub, Reachable, Mask, TooHigh, Shaped, Usual;
    TargetBack(o, relative, memaddr, value);
  }

  lemma NumberBack(o: Operand, instr: Word, relative: bool, memaddr: Word, value: Word, data: Word)
    requires Usual(o) && o.hint in {Plain, Offset} && ParseData(memaddr, relative, o, value) == Data(data)
    requires Extract(o, instr) == And(data, Mask(o))
    ensures Number(o, instr, relative, memaddr) == value <==> Fits(o, relative, memaddr, value)
  {
    hide And, Extract, Distance, AddrData, Add, Sub, Reachable, Mask, TooHigh, Shaped, Usual;
    ShortBack(o, data);
  }

  lemma NameBack(o: Operand, instr: Word, relative: bool, memaddr: Word, value: Word, data: Word)
    requires Usual(o) && o.hint in {Reg, Spr, Tbr} && ParseData(memaddr, relative, o, value) == Data(data)
    requires Extract(o, instr) == And(data, Mask(o))
    ensures Number(o, instr, relative, memaddr) == value <==> Fits(o, relative, memaddr, value)
  {
    hide And, Extract, Distance, AddrData, Add, Sub, Reachable, Mask, TooHigh, Shaped, Usual;
  }

  /** Assembling a value and showing the field gives the value back exactly when it fits. */
  lemma ShownIsValue(o: Operand, instr: Word, relative: bool, memaddr: Word, value: Word, data: Word)
    requires Usual(o) && o.hint !in {Silent, Literal} && ParseData(memaddr, relative, o, value) == Data(data)
    requires Extract(o, instr) == And(data, Mask(o))
    ensures Number(o, instr, relative, memaddr) == value <==> Fits(o, relative, memaddr, value)
  {
    hide *;
    match o.hint
    case Addr => AddrBack(o, instr, relative, memaddr, value, data);
    case Plain => NumberBack(o, instr, relative, memaddr, value, data);
    case Offset => NumberBack(o, instr, relative, memaddr, value, data);
    case _ => NameBack(o, instr, relative, memaddr, value, data);
  }

  lemma ShortBack(o: Operand, data: Word)
    requires Usual(o) && (o.hint == Plain || o.hint == Offset)
    ensures And(And(data, Mask(o)), 0xFFFF) == And(data, Mask(o))
  {
    hide And, Mask;
    MaskShort(o);
    AndTwice(data, Mask(o), 0xFFFF);
  }

  lemma MaskShort(o: Operand)
    requires Shaped(o) && o.bits <= 16
    ensures And(Mask(o), 0xFFFF) == Mask(o)
  {
  }

  lemma AndTwice(d: Word, k: Word, l: Word)
    requires And(k, l) == k
    ensures And(And(d, k), l) == And(d, k)
  {
  }

  lemma {:induction false} ShownAt(ops: seq<Operand>, instr: Word, relative: bool, virt: Word, i: nat)
    requires (forall j :: 0 <= j < |ops| ==> Shaped(ops[j])) && i < |ops| && ops[i].hint != Silent
    ensures Rank(ops, i) < |ShownAll(ops, instr, relative, virt)|
    ensures ShownAll(ops, instr, relative, virt)[Rank(ops, i)] == Shown(ops[i], instr, relative, virt)
    decreases |ops|
  {
    hide Shown;
    if i > 0 {
      ShownAt(ops[1..], instr, relative, virt, i - 1);
    }
  }

  /** Assembler and disassembler agree: at the address it was assembled for, an instruction shows an operand as
      it was written exactly when that operand fits its field. */
  lemma DisassemblesBack(memaddr: Word, opc: Opcode, table: seq<Operand>, values: seq<Word>, i: nat)
    requires TableOk(table) && OpcodeOk(opc, table) && i < |opc.fields|
    requires Apart(Ops(opc, table), i) && Assemble(memaddr, opc, table, values).Instr?
    requires var o := Ops(opc, table)[i]; Usual(o) && o.hint !in {Silent, Literal} && And(opc.opcode, FieldMask(o)) == 0
    ensures (var ops, k := Ops(opc, table), Rank(Ops(opc, table), i);
             var shown := ShownAll(ops, Assemble(memaddr, opc, table, values).word, opc.relative, memaddr);
             k < |shown| && k < |values|
             && (shown[k] == Value(ops[i].hint, values[k]) <==> Fits(ops[i], opc.relative, memaddr, values[k])))
  {
    hide And, Extract, Apart, FieldMask, Mask, Number, Fits, ParseData, Assemble, ShownAll, Rank;
    var ops, k := Ops(opc, table), Rank(Ops(opc, table), i);
    var w := Assemble(memaddr, opc, table, values).word;
    OperandReadsBack(memaddr, opc, table, values, i);
    ShownIsValue(ops[i], w, opc.relative, memaddr, values[k],
                 ParseData(memaddr, opc.relative, ops[i], values[k]).data);
    ShownAt(ops, w, opc.relative, memaddr, i);
  }
}
