/** The single-stepper: `find_next_address`, and its agreement with the assembler on branches. */
module BedbugNext {
  import opened BedbugFields
  import opened Bedbug
  import opened BedbugStep

  // Positions in the operand table of the operands branches use.
  const O_AA: nat := 1
  const O_BD: nat := 2
  const O_BI: nat := 3
  const O_BO: nat := 4
  const O_LI: nat := 14
  const O_LK: nat := 15

  predicate BranchTable(table: seq<Operand>) {
    && TableOk(table) && |table| >= O_LK
    && table[O_AA - 1] == Operand(1, 1, Silent) && table[O_LK - 1] == Operand(1, 0, Silent)
    && table[O_BD - 1] == Operand(14, 2, Addr) && table[O_LI - 1] == Operand(24, 2, Addr)
    && table[O_BI - 1] == Operand(5, 16, Plain) && table[O_BO - 1] == Operand(5, 21, Plain)
  }

  datatype Form = Cond | Uncond | ToCtr | ToLr | Other

  /** The branch forms by opcode: `bc`, `b`, `bcctr` and `bclr`, with and without their AA and LK bits. */
  function FormOf(opcode: Word): Form {
    if opcode in {0x4000_0000, 0x4000_0001, 0x4000_0002, 0x4000_0003} then Cond
    else if opcode in {0x4800_0000, 0x4800_0001, 0x4800_0002, 0x4800_0003} then Uncond
    else if opcode in {0x4C00_0420, 0x4C00_0421} then ToCtr
    else if opcode in {0x4C00_0020, 0x4C00_0021} then ToLr
    else Other
  }

  // ----- branch conditions

  /** The BO field without its prediction bit. */
  function BoCase(bo: Word): Word {
    Half(And(bo, 0x1E))
  }

  /** The valid encodings of that field. */
  predicate KnownCase(c: Word) {
    c in {0, 1, 2, 4, 5, 6, 8, 9, 10}
  }

  /** A number of a condition register bit. */
  predicate BitNumber(bi: Word) {
    bi <= 31
  }

  predicate Set(x: Word) {
    x != 0
  }

  /** The condition register bit named by BI, counted from the top. */
  predicate CrBit(cr: Word, bi: Word)
    requires BitNumber(bi)
  {
    And(cr, Bit(31 - bi)) != 0
  }

  /** Whether a conditional branch is taken. In the four bits of the case, 8 ignores the condition, 4 is the
      value it must have, 2 ignores the counter, and 1 asks for a zero count instead of a non-zero one. */
  predicate Taken(bo: Word, bi: Word, ctr: Word, cr: Word)
    requires BitNumber(bi)
  {
    var c := BoCase(bo);
    && KnownCase(c)
    && (And(c, 8) != 0 || (CrBit(cr, bi) <==> And(c, 4) != 0))
    && (And(c, 2) != 0 || (Sub(ctr, 1) == 0 <==> And(c, 1) != 0))
  }

  lemma CaseBits()
    ensures And(0, 8) == 0 && And(0, 4) == 0 && And(0, 2) == 0 && And(0, 1) == 0
    ensures And(1, 8) == 0 && And(1, 4) == 0 && And(1, 2) == 0 && And(1, 1) != 0
    ensures And(2, 8) == 0 && And(2, 4) == 0 && And(2, 2) != 0
    ensures And(4, 8) == 0 && And(4, 4) != 0 && And(4, 2) == 0 && And(4, 1) == 0
    ensures And(5, 8) == 0 && And(5, 4) != 0 && And(5, 2) == 0 && And(5, 1) != 0
    ensures And(6, 8) == 0 && And(6, 4) != 0 && And(6, 2) != 0
    ensures And(8, 8) != 0 && And(8, 2) == 0 && And(8, 1) == 0
    ensures And(9, 8) != 0 && And(9, 2) == 0 && And(9, 1) != 0
    ensures And(10, 8) != 0 && And(10, 2) != 0
  {
  }

  /** The switch of `find_next_address` over the nine cases it knows. */
  method Conditions(bo: Word, bi: Word, ctr0: Word, cr: Word) returns (ctrOk: bool, condOk: bool)
    requires BitNumber(bi)
    ensures ctrOk && condOk <==> Taken(bo, bi, ctr0, cr)
  {
    hide And, Sub, Half, CrBit, BoCase;
    CaseBits();
    ctrOk, condOk := false, false;
    var ctr := ctr0;
    var c := BoCase(bo);
    if c == 0 {
      ctr := Sub(ctr, 1);
      ctrOk, condOk := ctr != 0, !CrBit(cr, bi);
    } else if c == 1 {
      ctr := Sub(ctr, 1);
      ctrOk, condOk := ctr == 0, !CrBit(cr, bi);
    } else if c == 2 {
      ctrOk, condOk := true, !CrBit(cr, bi);
    } else if c == 4 {
      ctr := Sub(ctr, 1);
      ctrOk, condOk := ctr != 0, CrBit(cr, bi);
    } else if c == 5 {
      ctr := Sub(ctr, 1);
      ctrOk, condOk := ctr == 0, CrBit(cr, bi);
    } else if c == 6 {
      ctrOk, condOk := true, CrBit(cr, bi);
    } else if c == 8 {
      ctr := Sub(ctr, 1);
      if ctr != 0 { ctrOk, condOk := true, true; }
    } else if c == 9 {
      ctr := Sub(ctr, 1);
      if ctr == 0 { ctrOk, condOk := true, true; }
    } else if c == 10 {
      ctrOk, condOk := true, true;
    }
  }

  // ----- the next address

  datatype Next = Unknown | At(addr: Word)

  function Field(table: seq<Operand>, instr: Word, field: nat): Word
    requires TableOk(table) && 1 <= field <= |table|
  {
    Extract(table[field - 1], instr)
  }

  lemma BiInRange(table: seq<Operand>, instr: Word)
    requires BranchTable(table)
    ensures BitNumber(Field(table, instr, O_BI))
  {
    hide And, Shr, TableOk;
    FiveBits(Shr(instr, 16));
  }

  lemma FiveBits(w: Word)
    ensures And(w, Bit(5) - 1) <= 31
  {
  }

  /** Where execution goes: a taken branch to its target, unless a call is stepped over; otherwise on. */
  function Go(taken: bool, target: Word, lk: Word, pc: Word, stepOver: bool): Next {
    if taken && !(stepOver && Set(lk)) then At(target) else At(Add(pc, 4))
  }

  /** The fields a form needs. */
  function Needs(form: Form): seq<nat> {
    match form
    case Cond => [O_BD, O_BO, O_BI, O_AA, O_LK]
    case Uncond => [O_LI, O_AA, O_LK]
    case Other => []
    case _ => [O_BO, O_BI, O_LK]
  }

  predicate HasFields(opc: Opcode, form: Form) {
    forall f :: f in Needs(form) ==> f in opc.fields
  }

  /** What `find_next_address` has read about an instruction before it decides. */
  datatype Branch = Branch(branch: bool, conditional: bool, bo: Word, bi: Word, addr: Word, aa: Word, lk: Word)

  /** The branch an instruction is, from its opcode entry and its fields. */
  function BranchOf(opc: Opcode, table: seq<Operand>, instr: Word, ctr: Word, lr: Word): (b: Branch)
    requires BranchTable(table)
    ensures BitNumber(b.bi)
  {
    BiInRange(table, instr);
    var (bo, bi) := (Field(table, instr, O_BO), Field(table, instr, O_BI));
    var (aa, lk) := (Field(table, instr, O_AA), Field(table, instr, O_LK));
    match FormOf(opc.opcode)
    case Cond => Branch(true, true, bo, bi, Distance(14, Field(table, instr, O_BD)), aa, lk)
    case Uncond => Branch(true, false, 0, 0, Distance(24, Field(table, instr, O_LI)), aa, lk)
    case ToCtr => Branch(true, true, bo, bi, ctr, 1, lk)
    case ToLr => Branch(true, true, bo, bi, lr, 1, lk)
    case Other => Branch(false, false, 0, 0, 0, 0, 0)
  }

  /** The word the program counter points into. */
  function WordOf(nip: Word): Word {
    And(nip, 0xFFFF_FFFC)
  }

  /** The specification of `find_next_address` for an instruction whose opcode entry is `opc`. */
  function NextAddress(opc: Opcode, table: seq<Operand>, instr: Word, nip: Word, ctr: Word, cr: Word, lr: Word,
                       stepOver: bool): Next
    requires BranchTable(table)
  {
    var pc := WordOf(nip);
    if !HasFields(opc, FormOf(opc.opcode)) then Unknown
    else
      var b := BranchOf(opc, table, instr, ctr, lr);
      Go(b.branch && (!b.conditional || Taken(b.bo, b.bi, ctr, cr)),
         if Set(b.aa) then b.addr else Add(b.addr, pc), b.lk, pc, stepOver)
  }

  /** The operands of a conditional branch with a target field. */
  method CondFields(opc: Opcode, table: seq<Operand>, instr: Word)
    returns (ok: bool, addr: Word, bo: Word, bi: Word, aa: Word, lk: Word)
    requires BranchTable(table) && OpcodeOk(opc, table)
    ensures ok <==> HasFields(opc, Cond)
    ensures ok ==> addr == Field(table, instr, O_BD) && bo == Field(table, instr, O_BO)
    ensures ok ==> bi == Field(table, instr, O_BI) && aa == Field(table, instr, O_AA) && lk == Field(table, instr, O_LK)
  {
    hide Extract, TableOk;
    assert forall f :: f in Needs(Cond) <==> f in {O_BD, O_BO, O_BI, O_AA, O_LK};
    bo, bi, aa, lk := 0, 0, 0, 0;
    ok, addr := GetOperandValue(opc, table, instr, O_BD);
    if !ok { return; }
    ok, bo := GetOperandValue(opc, table, instr, O_BO);
    if !ok { return; }
    ok, bi := GetOperandValue(opc, table, instr, O_BI);
    if !ok { return; }
    ok, aa := GetOperandValue(opc, table, instr, O_AA);
    if !ok { return; }
    ok, lk := GetOperandValue(opc, table, instr, O_LK);
  }

  /** The operands of an unconditional branch. */
  method UncondFields(opc: Opcode, table: seq<Operand>, instr: Word)
    returns (ok: bool, addr: Word, aa: Word, lk: Word)
    requires BranchTable(table) && OpcodeOk(opc, table)
    ensures ok <==> HasFields(opc, Uncond)
    ensures ok ==>
      addr == Field(table, instr, O_LI) && aa == Field(table, instr, O_AA) && lk == Field(table, instr, O_LK)
  {
    hide Extract, TableOk;
    assert forall f :: f in Needs(Uncond) <==> f in {O_LI, O_AA, O_LK};
    aa, lk := 0, 0;
    ok, addr := GetOperandValue(opc, table, instr, O_LI);
    if !ok { return; }
    ok, aa := GetOperandValue(opc, table, instr, O_AA);
    if !ok { return; }
    ok, lk := GetOperandValue(opc, table, instr, O_LK);
  }

  /** The operands of a branch to a register. */
  method RegisterFields(opc: Opcode, table: seq<Operand>, instr: Word)
    returns (ok: bool, bo: Word, bi: Word, lk: Word)
    requires BranchTable(table) && OpcodeOk(opc, table)
    ensures ok <==> HasFields(opc, ToCtr)
    ensures ok <==> HasFields(opc, ToLr)
    ensures ok ==> bo == Field(table, instr, O_BO) && bi == Field(table, instr, O_BI) && lk == Field(table, instr, O_LK)
  {
    hide Extract, TableOk;
    assert Needs(ToCtr) == Needs(ToLr);
    assert forall f :: f in Needs(ToCtr) <==> f in {O_BO, O_BI, O_LK};
    bi, lk := 0, 0;
    ok, bo := GetOperandValue(opc, table, instr, O_BO);
    if !ok { return; }
    ok, bi := GetOperandValue(opc, table, instr, O_BI);
    if !ok { return; }
    ok, lk := GetOperandValue(opc, table, instr, O_LK);
  }

  /** The switch over the branch forms. */
  method ReadBranch(opc: Opcode, table: seq<Operand>, instr: Word, ctr: Word, lr: Word) returns (ok: bool, b: Branch)
    requires BranchTable(table) && OpcodeOk(opc, table)
    ensures ok <==> HasFields(opc, FormOf(opc.opcode))
    ensures ok ==> b == BranchOf(opc, table, instr, ctr, lr)
  {
    hide Distance, Field, BranchTable, FormOf, HasFields, OpcodeOk, BitNumber;
    NothingNeeded(opc);
    var addr: Word, aa: Word, lk: Word, bo: Word, bi: Word;
    ok, b := true, Branch(false, false, 0, 0, 0, 0, 0);
    match FormOf(opc.opcode) {
      case Cond =>
        ok, addr, bo, bi, aa, lk := CondFields(opc, table, instr);
        b := Branch(true, true, bo, bi, Distance(14, addr), aa, lk);
      case Uncond =>
        ok, addr, aa, lk := UncondFields(opc, table, instr);
        b := Branch(true, false, 0, 0, Distance(24, addr), aa, lk);
      case ToCtr =>
        ok, bo, bi, lk := RegisterFields(opc, table, instr);
        b := Branch(true, true, bo, bi, ctr, 1, lk);
      case ToLr =>
        ok, bo, bi, lk := RegisterFields(opc, table, instr);
        b := Branch(true, true, bo, bi, lr, 1, lk);
      case Other =>
    }
  }

  /** `find_next_address` once the opcode entry of the instruction is found. */
  method NextOfEntry(opc: Opcode, table: seq<Operand>, instr: Word, nip: Word, ctr: Word, cr: Word, lr: Word,
                     stepOver: bool) returns (ok: bool, next: Word)
    requires BranchTable(table) && OpcodeOk(opc, table)
    ensures (if ok then At(next) else Unknown) == NextAddress(opc, table, instr, nip, ctr, cr, lr, stepOver)
  {
    hide Add, Taken, BranchTable, FormOf, HasFields, OpcodeOk, BitNumber, Set, BranchOf, Go, WordOf;
    var pc := WordOf(nip);
    var b: Branch;
    ok, b := ReadBranch(opc, table, instr, ctr, lr);
    next := 0;
    if !ok {
      return;
    }
    var ctrOk, condOk := false, false;
    if b.conditional {
      ctrOk, condOk := Conditions(b.bo, b.bi, ctr, cr);
    }
    next := Choose(b.branch && (!b.conditional || (ctrOk && condOk)), b, pc, stepOver);
  }

  /** `find_next_address`, given the instruction at the program counter. */
  method FindNextAddress(opcodes: seq<Opcode>, table: seq<Operand>, instr: Word, nip: Word, ctr: Word, cr: Word,
                         lr: Word, stepOver: bool) returns (ok: bool, next: Word)
    requires BranchTable(table) && forall i :: 0 <= i < |opcodes| ==> OpcodeOk(opcodes[i], table)
    ensures (forall i :: 0 <= i < |opcodes| ==> !Matches(opcodes[i], instr)) ==> !ok
    ensures (forall k: nat :: SortedAround(opcodes, instr, k) ==>
               (if ok then At(next) else Unknown) == NextAddress(opcodes[k], table, instr, nip, ctr, cr, lr, stepOver))
  {
    hide NextAddress, SortedAround, Matches, BranchTable, OpcodeOk;
    var found := FindOpcode(opcodes, instr);
    if found < 0 {
      return false, 0;
    }
    ok, next := NextOfEntry(opcodes[found], table, instr, nip, ctr, cr, lr, stepOver);
  }

  /** The last step: the address for stepping into the branch or over it. */
  method Choose(taken: bool, b: Branch, pc: Word, stepOver: bool) returns (address: Word)
    ensures At(address) == Go(taken, if Set(b.aa) then b.addr else Add(b.addr, pc), b.lk, pc, stepOver)
  {
    hide Add, Set;
    var step, next := Add(pc, 4), Add(pc, 4);
    if taken {
      step := if Set(b.aa) then b.addr else Add(b.addr, pc);
      next := if Set(b.lk) then Add(pc, 4) else step;
    }
    address := if stepOver then next else step;
  }

  lemma NothingNeeded(opc: Opcode)
    ensures HasFields(opc, Other)
  {
  }

  // ----- assembled branches

  /** The opcode word of a branch form with its AA and LK bits. */
  function WithBits(opcode: Word, aa: bool, lk: bool): Word {
    Or(opcode, if aa then (if lk then 3 else 2) else if lk then 1 else 0)
  }

  /** `b`, `bl`, `ba` and `bla`. */
  function BranchI(aa: bool, lk: bool): Opcode {
    Opcode(WithBits(0x4800_0000, aa, lk), 0xFC00_0003, [O_LI, O_AA, O_LK], !aa)
  }

  /** `bc`, `bcl`, `bca` and `bcla`. */
  function BranchC(aa: bool, lk: bool): Opcode {
    Opcode(WithBits(0x4000_0000, aa, lk), 0xFC00_0003, [O_BO, O_BI, O_BD, O_AA, O_LK], !aa)
  }

  const LI: Operand := Operand(24, 2, Addr)
  const BD: Operand := Operand(14, 2, Addr)
  const BO: Operand := Operand(5, 21, Plain)
  const BI: Operand := Operand(5, 16, Plain)
  const AA: Operand := Operand(1, 1, Silent)
  const LK: Operand := Operand(1, 0, Silent)

  lemma FieldMasks()
    ensures FieldMask(LI) == 0x03FF_FFFC && FieldMask(BD) == 0xFFFC
    ensures FieldMask(BO) == 0x03E0_0000 && FieldMask(BI) == 0x001F_0000
    ensures FieldMask(AA) == 2 && FieldMask(LK) == 1
  {
  }

  lemma MasksDisjoint()
    ensures And(2, 0x03FF_FFFC) == 0 && And(1, 0x03FF_FFFC) == 0
    ensures And(2, 0xFFFC) == 0 && And(2, 0x03E0_0000) == 0 && And(2, 0x001F_0000) == 0
    ensures And(1, 0xFFFC) == 0 && And(1, 0x03E0_0000) == 0 && And(1, 0x001F_0000) == 0
    ensures And(0xFFFC, 0x03E0_0000) == 0 && And(0xFFFC, 0x001F_0000) == 0
    ensures And(0x03E0_0000, 0xFFFC) == 0 && And(0x03E0_0000, 0x001F_0000) == 0
    ensures And(0x001F_0000, 0xFFFC) == 0 && And(0x001F_0000, 0x03E0_0000) == 0
  {
  }

  /** The opcode words: which form they are, and what they hold in the operand fields. */
  lemma OpcodeWords(aa: bool, lk: bool)
    ensures FormOf(WithBits(0x4800_0000, aa, lk)) == Uncond && FormOf(WithBits(0x4000_0000, aa, lk)) == Cond
    ensures And(WithBits(0x4800_0000, aa, lk), 0x03FF_FFFC) == 0
    ensures And(WithBits(0x4000_0000, aa, lk), 0xFFFC) == 0
    ensures And(WithBits(0x4000_0000, aa, lk), 0x03E0_0000) == 0
    ensures And(WithBits(0x4000_0000, aa, lk), 0x001F_0000) == 0
  {
  }

  lemma OpcodeBits(aa: bool, lk: bool)
    ensures Set(Extract(AA, WithBits(0x4800_0000, aa, lk))) == aa
    ensures Set(Extract(LK, WithBits(0x4800_0000, aa, lk))) == lk
    ensures Set(Extract(AA, WithBits(0x4000_0000, aa, lk))) == aa
    ensures Set(Extract(LK, WithBits(0x4000_0000, aa, lk))) == lk
  {
  }

  lemma IOps(table: seq<Operand>, aa: bool, lk: bool)
    requires BranchTable(table)
    ensures OpcodeOk(BranchI(aa, lk), table) && Ops(BranchI(aa, lk), table) == [LI, AA, LK]
    ensures forall i :: 0 <= i < 3 ==> Apart(Ops(BranchI(aa, lk), table), i)
  {
    hide And, FieldMask, TableOk;
    FieldMasks();
    MasksDisjoint();
  }

  /** The fields of an assembled unconditional branch. */
  lemma IFields(table: seq<Operand>, memaddr: Word, target: Word, aa: bool, lk: bool)
    requires BranchTable(table)
    ensures OpcodeOk(BranchI(aa, lk), table)
    ensures (var d := if aa then target else Sub(target, memaddr);
             var r := Assemble(memaddr, BranchI(aa, lk), table, [target]);
             && r.Instr?
             && Extract(LI, r.word) == And(AddrData(24, d), Mask(LI))
             && Set(Extract(AA, r.word)) == aa && Set(Extract(LK, r.word)) == lk)
  {
    hide And, FieldMask, TableOk, Mask, AddrData, Sub, Extract, WithBits, FormOf, Apart, Set;
    var opc := BranchI(aa, lk);
    var ops := Ops(opc, table);
    IOps(table, aa, lk);
    FieldMasks();
    OpcodeWords(aa, lk);
    OpcodeBits(aa, lk);
    IParsed(memaddr, target, aa);
    OperandReadsBack(memaddr, opc, table, [target], 0);
    OperandReadsBack(memaddr, opc, table, [target], 1);
    OperandReadsBack(memaddr, opc, table, [target], 2);
  }

  lemma IParsed(memaddr: Word, target: Word, aa: bool)
    ensures ParseAll(memaddr, !aa, [LI, AA, LK], [target]).AllData?
    ensures Rank([LI, AA, LK], 0) == 0
  {
    hide AddrData, Sub;
    assert [LI, AA, LK][1..] == [AA, LK] && [target][1..] == [];
    SilentParsed(memaddr, !aa);
  }

  lemma SilentParsed(memaddr: Word, relative: bool)
    ensures ParseAll(memaddr, relative, [AA, LK], []).AllData?
  {
    assert [AA, LK][1..] == [LK] && [LK][1..] == [];
    assert ParseAll(memaddr, relative, [LK], []).AllData?;
  }

  /** Assembler, stepper and disassembler agree on unconditional branches: stepping goes to the written target,
      and the target is shown as written, exactly when its distance fits; stepping over a call goes past it. */
  lemma UncondAgrees(table: seq<Operand>, memaddr: Word, target: Word, aa: bool, lk: bool,
                     nip: Word, ctr: Word, cr: Word, lr: Word)
    requires BranchTable(table) && WordOf(nip) == memaddr
    ensures OpcodeOk(BranchI(aa, lk), table)
    ensures (var opc := BranchI(aa, lk);
             var r := Assemble(memaddr, opc, table, [target]);
             var fits := Reachable(24, if aa then target else Sub(target, memaddr));
             && r.Instr?
             && (NextAddress(opc, table, r.word, nip, ctr, cr, lr, false) == At(target) <==> fits)
             && (Shown(LI, r.word, !aa, memaddr) == Value(Addr, target) <==> fits)
             && NextAddress(opc, table, r.word, nip, ctr, cr, lr, true)
                == (if lk then At(Add(memaddr, 4)) else NextAddress(opc, table, r.word, nip, ctr, cr, lr, false)))
  {
    hide And, Mask, AddrData, Sub, Add, Extract, WithBits, FormOf, Set, Reachable, Distance, Assemble, HasFields,
      WordOf;
    IFields(table, memaddr, target, aa, lk);
    OpcodeWords(aa, lk);
    TargetBack(LI, !aa, memaddr, target);
    HasI(aa, lk);
  }

  lemma HasI(aa: bool, lk: bool)
    ensures HasFields(BranchI(aa, lk), Uncond)
  {
  }

  lemma COps(table: seq<Operand>, aa: bool, lk: bool)
    requires BranchTable(table)
    ensures OpcodeOk(BranchC(aa, lk), table) && Ops(BranchC(aa, lk), table) == [BO, BI, BD, AA, LK]
    ensures forall i :: 0 <= i < 5 ==> Apart(Ops(BranchC(aa, lk), table), i)
  {
    hide And, FieldMask, TableOk;
    FieldMasks();
    MasksDisjoint();
  }

  lemma CParsed(memaddr: Word, relative: bool, bo: Word, bi: Word, target: Word)
    ensures ParseAll(memaddr, relative, [BO, BI, BD, AA, LK], [bo, bi, target]).AllData?
    ensures (var ops := [BO, BI, BD, AA, LK]; Rank(ops, 0) == 0 && Rank(ops, 1) == 1 && Rank(ops, 2) == 2)
  {
    hide AddrData, Sub;
    SilentParsed(memaddr, relative);
    assert [BO, BI, BD, AA, LK][1..] == [BI, BD, AA, LK] && [BI, BD, AA, LK][1..] == [BD, AA, LK];
    assert [BD, AA, LK][1..] == [AA, LK];
    assert [bo, bi, target][1..] == [bi, target] && [bi, target][1..] == [target] && [target][1..] == [];
    assert ParseAll(memaddr, relative, [BD, AA, LK], [target]).AllData?;
    assert ParseAll(memaddr, relative, [BI, BD, AA, LK], [bi, target]).AllData?;
    assert Rank([BD, AA, LK], 0) == 0;
    assert Rank([BI, BD, AA, LK], 1) == 1;
  }

  /** The fields of an assembled conditional branch. */
  lemma CFields(table: seq<Operand>, memaddr: Word, bo: Word, bi: Word, target: Word, aa: bool, lk: bool)
    requires BranchTable(table)
    ensures OpcodeOk(BranchC(aa, lk), table)
    ensures (var d := if aa then target else Sub(target, memaddr);
             var r := Assemble(memaddr, BranchC(aa, lk), table, [bo, bi, target]);
             && r.Instr?
             && Extract(BO, r.word) == And(bo, Mask(BO)) && Extract(BI, r.word) == And(bi, Mask(BI))
             && Extract(BD, r.word) == And(AddrData(14, d), Mask(BD))
             && Set(Extract(AA, r.word)) == aa && Set(Extract(LK, r.word)) == lk)
  {
    hide And, FieldMask, TableOk, Mask, AddrData, Sub, Extract, WithBits, FormOf, Apart, Set, ParseAll, Rank;
    var opc, values := BranchC(aa, lk), [bo, bi, target];
    COps(table, aa, lk);
    FieldMasks();
    OpcodeWords(aa, lk);
    OpcodeBits(aa, lk);
    CParsed(memaddr, !aa, bo, bi, target);
    OperandReadsBack(memaddr, opc, table, values, 0);
    OperandReadsBack(memaddr, opc, table, values, 1);
    OperandReadsBack(memaddr, opc, table, values, 2);
    OperandReadsBack(memaddr, opc, table, values, 3);
    OperandReadsBack(memaddr, opc, table, values, 4);
  }

  /** Where a conditional branch with given fields goes. */
  lemma CondNext(table: seq<Operand>, w: Word, nip: Word, aa: bool, lk: bool, ctr: Word, cr: Word, lr: Word, over: bool)
    requires BranchTable(table)
    requires Set(Extract(AA, w)) == aa && Set(Extract(LK, w)) == lk && BitNumber(Extract(BI, w))
    ensures (var d, pc := Distance(14, Extract(BD, w)), WordOf(nip);
             NextAddress(BranchC(aa, lk), table, w, nip, ctr, cr, lr, over)
             == Go(Taken(Extract(BO, w), Extract(BI, w), ctr, cr), if aa then d else Add(d, pc),
                   Extract(LK, w), pc, over))
  {
    hide And, Add, Extract, WithBits, FormOf, Set, Distance, HasFields, Taken, BitNumber, Go, WordOf;
    OpcodeWords(aa, lk);
    HasC(aa, lk);
  }

  lemma HasC(aa: bool, lk: bool)
    ensures HasFields(BranchC(aa, lk), Cond)
  {
  }

  /** The same agreement for conditional branches: a taken branch steps to the written target, and the target is
      shown as written, exactly when its distance fits; one that is not taken goes on. */
  lemma CondAgrees(table: seq<Operand>, memaddr: Word, bo: Word, bi: Word, target: Word, aa: bool, lk: bool,
                   nip: Word, ctr: Word, cr: Word, lr: Word)
    requires BranchTable(table) && WordOf(nip) == memaddr
    requires BitNumber(bi) && And(bo, Mask(BO)) == bo && And(bi, Mask(BI)) == bi
    ensures OpcodeOk(BranchC(aa, lk), table)
    ensures (var opc := BranchC(aa, lk);
             var r := Assemble(memaddr, opc, table, [bo, bi, target]);
             var fits := Reachable(14, if aa then target else Sub(target, memaddr));
             && r.Instr?
             && (Taken(bo, bi, ctr, cr)
                 ==> (NextAddress(opc, table, r.word, nip, ctr, cr, lr, false) == At(target) <==> fits))
             && (!Taken(bo, bi, ctr, cr)
                 ==> NextAddress(opc, table, r.word, nip, ctr, cr, lr, false) == At(Add(memaddr, 4)))
             && (Shown(BD, r.word, !aa, memaddr) == Value(Addr, target) <==> fits)
             && NextAddress(opc, table, r.word, nip, ctr, cr, lr, true)
                == (if lk then At(Add(memaddr, 4)) else NextAddress(opc, table, r.word, nip, ctr, cr, lr, false)))
  {
    hide And, Mask, AddrData, Sub, Add, Extract, Set, Reachable, Distance, Assemble, Taken, BitNumber, NextAddress,
      BranchC, TableOk, WordOf;
    CFields(table, memaddr, bo, bi, target, aa, lk);
    var w := Assemble(memaddr, BranchC(aa, lk), table, [bo, bi, target]).word;
    CondNext(table, w, nip, aa, lk, ctr, cr, lr, false);
    CondNext(table, w, nip, aa, lk, ctr, cr, lr, true);
    TargetBack(BD, !aa, memaddr, target);
  }
}
