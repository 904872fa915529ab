/** What the decoder makes of every 32-bit word: which instruction, which registers and which
    immediate, in plain arithmetic on the word. */
module DecoderWords {
  import opened Common
  import opened Bits
  import opened Instr
  import opened Decoder
  import opened DecoderTheory

  // ---------------------------------------------------------------- words by slots

  /** The slots of a word. */
  function SlotsOf(code: Word32): (w: Slots)
    ensures ValidSlots(w)
  {
    Slots(code / 0x200_0000, (code / 0x10_0000) % 32, (code / 0x8000) % 32,
          (code / 0x1000) % 8, (code / 0x80) % 32, code % 0x80)
  }

  lemma {:induction false} SlotsPack(code: Word32)
    ensures Pack(SlotsOf(code)) == code
  {
    DivDiv(code, 0x80, 32);
    DivDiv(code, 0x1000, 8);
    DivDiv(code, 0x8000, 32);
    DivDiv(code, 0x10_0000, 32);
    PackUp(code, code / 0x80, code / 0x1000, code / 0x8000, code / 0x10_0000, code / 0x200_0000);
  }

  lemma {:induction false} PackUp(code: nat, q1: nat, q2: nat, q3: nat, q4: nat, q5: nat)
    requires q1 == code / 0x80 && q2 == q1 / 32 && q3 == q2 / 8 && q4 == q3 / 32 && q5 == q4 / 32
    ensures code == q5 * 0x200_0000 + (q4 % 32) * 0x10_0000 + (q3 % 32) * 0x8000 +
                    (q2 % 8) * 0x1000 + (q1 % 32) * 0x80 + code % 0x80
  {
    assert q4 == q5 * 32 + q4 % 32 && q3 == q4 * 32 + q3 % 32 && q2 == q3 * 8 + q2 % 8;
    assert q1 == q2 * 32 + q1 % 32 && code == q1 * 0x80 + code % 0x80;
  }

  /** Every field that the decision tree looks at. */
  lemma {:induction false} TreeFields(code: Word32)
    ensures Get(6, 0, code) == code % 0x80 && Get(14, 12, code) == (code / 0x1000) % 8
    ensures Get(31, 25, code) == code / 0x200_0000 && Get(31, 26, code) == code / 0x400_0000
    ensures Get(31, 27, code) == code / 0x800_0000 && Get(26, 25, code) == (code / 0x200_0000) % 4
    ensures Get(24, 20, code) == (code / 0x10_0000) % 32 && Get(24, 15, code) == (code / 0x8000) % 0x400
  {
    hide Get, Pack;
    SlotsPack(code);
    MainSlots(SlotsOf(code));
    WideSlots(SlotsOf(code));
    FormatSlots(code);
    Pieces(code);
  }

  lemma {:induction false} Pieces(code: Word32)
    ensures code / 0x400_0000 == (code / 0x200_0000) / 2
    ensures (code / 0x8000) % 0x400 == ((code / 0x10_0000) % 32) * 32 + (code / 0x8000) % 32
    ensures code / 0x10_0000 == (code / 0x200_0000) * 32 + (code / 0x10_0000) % 32
    ensures (code / 0x10_0000) % 64 == ((code / 0x200_0000) % 2) * 32 + (code / 0x10_0000) % 32
  {
    DivDiv(code, 0x200_0000, 2);
    DivDiv(code, 0x8000, 32);
    DivDiv(code, 0x10_0000, 32);
    ModSplit(code / 0x8000, 32, 32);
    ModSplit(code / 0x10_0000, 32, 2);
  }

  lemma {:induction false} FormatSlots(code: Word32)
    ensures Get(31, 27, code) == code / 0x800_0000 && Get(26, 25, code) == (code / 0x200_0000) % 4
  {
    hide Get, Pow2;
    PowTable();
    Pow2Small();
    assert Pow2(27) == 0x800_0000 by { Pow2Add(26, 1); }
    Slice(code, 31, 27, 0x800_0000, 32, 0, code / 0x800_0000, code % 0x800_0000);
    Slice(code, 26, 25, 0x200_0000, 4, code / 0x800_0000, (code / 0x200_0000) % 4, code % 0x200_0000);
  }

  // ---------------------------------------------------------------- which instruction

  /** What makes a word an implemented instruction: opcode, funct3 and funct7, as far as they are
      looked at.  JALR ought to have funct3 zero, SLLI bits 31:26, SLLIW bits 31:25 and ECALL bits
      11:7, but nothing looks at those. */
  predicate Selects(id: InstrId, code: Word32)
    requires id != UNIMPLEMENTED
  {
    var s := SpecOf(id);
    && code % 0x80 == s.opcode
    && (id !in {JAL, JALR, LUI, AUIPC} ==> (code / 0x1000) % 8 == s.funct3)
    && (id in {SRLI, SRAI} ==> code / 0x400_0000 == s.funct7 / 2)
    && (id in {SRLIW, SRAIW} || FormatOf(id) == Fields(true, true, true, NO_IMM) ==> code / 0x200_0000 == s.funct7)
    && (id == ECALL ==> code / 0x8000 == 0)
  }

  lemma {:induction false} SelectedLeaf(id: InstrId, code: Word32)
    requires id != UNIMPLEMENTED && Selects(id, code)
    ensures Decode(code).Op? && Decode(code).id == id
  {
    hide Get, Assemble, Unhandled, Atomics, FloatOps, Selects, Branches, OpImm, OpReg, OpImm32, OpReg32, Loads,
      Stores, System, SpecOf;
    TreeFields(code);
    LeafIds();
    if id in {ADDI, SLLI, SLTI, SLTIU, XORI, SRLI, SRAI, ORI, ANDI} { SelectedImmediate(id, code); }
    else if id in {ADDIW, SLLIW, SRLIW, SRAIW} { SelectedImmediate32(id, code); }
    else if id in {ADD, SLL, SLT, SLTU, XOR, SRL, OR, AND, SUB, SRA} { SelectedRegister(id, code); }
    else if id in {ADDW, SLLW, SRLW, SUBW, SRAW} { SelectedRegister32(id, code); }
    else if id in {LB, LH, LW, LD, LBU, LHU, LWU} { SelectedLoad(id, code); }
    else if id in {SB, SH, SW, SD} { SelectedStore(id, code); }
    else if id in {BEQ, BNE, BLT, BGE, BLTU, BGEU} { SelectedBranch(id, code); }
    else { SelectedOther(id, code); }
  }

  lemma {:induction false} SelectedImmediate(id: InstrId, code: Word32)
    requires id in {ADDI, SLLI, SLTI, SLTIU, XORI, SRLI, SRAI, ORI, ANDI} && Selects(id, code)
    ensures code % 0x80 == 19 && OpImm(code).Op? && OpImm(code).id == id
  {
    hide Get, Assemble;
    TreeFields(code);
    LeafIds();
  }

  lemma {:induction false} SelectedImmediate32(id: InstrId, code: Word32)
    requires id in {ADDIW, SLLIW, SRLIW, SRAIW} && Selects(id, code)
    ensures code % 0x80 == 27 && OpImm32(code).Op? && OpImm32(code).id == id
  {
    hide Get, Assemble;
    TreeFields(code);
    LeafIds();
  }

  lemma {:induction false} SelectedRegister(id: InstrId, code: Word32)
    requires id in {ADD, SLL, SLT, SLTU, XOR, SRL, OR, AND, SUB, SRA} && Selects(id, code)
    ensures code % 0x80 == 51 && OpReg(code).Op? && OpReg(code).id == id
  {
    hide Get, Assemble, Unhandled;
    TreeFields(code);
    LeafIds();
  }

  lemma {:induction false} SelectedRegister32(id: InstrId, code: Word32)
    requires id in {ADDW, SLLW, SRLW, SUBW, SRAW} && Selects(id, code)
    ensures code % 0x80 == 59 && OpReg32(code).Op? && OpReg32(code).id == id
  {
    hide Get, Assemble, Unhandled;
    TreeFields(code);
    LeafIds();
  }

  lemma {:induction false} SelectedLoad(id: InstrId, code: Word32)
    requires id in {LB, LH, LW, LD, LBU, LHU, LWU} && Selects(id, code)
    ensures code % 0x80 == 3 && Loads(code).Op? && Loads(code).id == id
  {
    hide Get, Assemble;
    TreeFields(code);
    LeafIds();
  }

  lemma {:induction false} SelectedStore(id: InstrId, code: Word32)
    requires id in {SB, SH, SW, SD} && Selects(id, code)
    ensures code % 0x80 == 35 && Stores(code).Op? && Stores(code).id == id
  {
    hide Get, Assemble;
    TreeFields(code);
    LeafIds();
  }

  lemma {:induction false} SelectedBranch(id: InstrId, code: Word32)
    requires id in {BEQ, BNE, BLT, BGE, BLTU, BGEU} && Selects(id, code)
    ensures code % 0x80 == 99 && Branches(code).Op? && Branches(code).id == id
  {
    hide Get, Assemble;
    TreeFields(code);
    LeafIds();
  }

  lemma {:induction false} SelectedOther(id: InstrId, code: Word32)
    requires id in {JAL, JALR, LUI, AUIPC, ECALL} && Selects(id, code)
    ensures id == JAL ==> code % 0x80 == 111
    ensures id == JALR ==> code % 0x80 == 103
    ensures id == LUI ==> code % 0x80 == 55
    ensures id == AUIPC ==> code % 0x80 == 23
    ensures id == ECALL ==> code % 0x80 == 115 && System(code).Op? && System(code).id == id
  {
    hide Get, Assemble, Unhandled;
    TreeFields(code);
    assert code / 0x8000 == 0 ==> code / 0x200_0000 == 0 && (code / 0x8000) % 0x400 == 0;
    LeafIds();
  }

  lemma {:induction false} LeafIds()
    ensures forall id, f, code {:trigger Assemble(id, f, code)} ::
              Assemble(id, f, code).Op? && Assemble(id, f, code).id == id
    ensures forall known :: Unhandled(known) == if known then Op(UNIMPLEMENTED, 0, 0, 0, 0) else ILLEGAL
  {
  }

  lemma {:induction false} LeafSelects(code: Word32)
    ensures var i := Decode(code); i.Op? && i.id != UNIMPLEMENTED ==> Selects(i.id, code)
  {
    hide Get, Assemble, Unhandled, Selects, Branches, OpImm, OpReg, OpImm32, OpReg32, Loads, Stores, System, Atomics,
      FloatOps;
    TreeFields(code);
    LeafIds();
    UnhandledOnly(code);
    if code % 0x80 in {19, 27} { ImmediateLeaves(code); }
    if code % 0x80 in {51, 59} { RegisterLeaves(code); }
    if code % 0x80 == 3 { LoadLeaves(code); }
    if code % 0x80 == 35 { StoreLeaves(code); }
    if code % 0x80 == 99 { BranchLeaves(code); }
    if code % 0x80 in {55, 23, 103, 111, 115} { OtherLeaves(code); }
  }

  lemma {:induction false} ImmediateLeaves(code: Word32)
    ensures var i := OpImm(code); code % 0x80 == 19 && i.Op? ==> i.id != UNIMPLEMENTED && Selects(i.id, code)
    ensures var i := OpImm32(code); code % 0x80 == 27 && i.Op? ==> i.id != UNIMPLEMENTED && Selects(i.id, code)
  {
    hide Get, Assemble;
    TreeFields(code);
    LeafIds();
  }

  lemma {:induction false} RegisterLeaves(code: Word32)
    ensures var i := OpReg(code); code % 0x80 == 51 && i.Op? && i.id != UNIMPLEMENTED ==> Selects(i.id, code)
    ensures var i := OpReg32(code); code % 0x80 == 59 && i.Op? && i.id != UNIMPLEMENTED ==> Selects(i.id, code)
  {
    hide Get, Assemble, Unhandled;
    TreeFields(code);
    LeafIds();
  }

  lemma {:induction false} LoadLeaves(code: Word32)
    ensures var i := Loads(code); code % 0x80 == 3 && i.Op? ==> i.id != UNIMPLEMENTED && Selects(i.id, code)
  {
    hide Get, Assemble;
    TreeFields(code);
    LeafIds();
  }

  lemma {:induction false} StoreLeaves(code: Word32)
    ensures var i := Stores(code); code % 0x80 == 35 && i.Op? ==> i.id != UNIMPLEMENTED && Selects(i.id, code)
  {
    hide Get, Assemble;
    TreeFields(code);
    LeafIds();
  }

  lemma {:induction false} BranchLeaves(code: Word32)
    ensures var i := Branches(code); code % 0x80 == 99 && i.Op? ==> i.id != UNIMPLEMENTED && Selects(i.id, code)
  {
    hide Get, Assemble;
    TreeFields(code);
    LeafIds();
  }

  lemma {:induction false} OtherLeaves(code: Word32)
    ensures var i := System(code); code % 0x80 == 115 && i.Op? && i.id != UNIMPLEMENTED ==> Selects(i.id, code)
    ensures code % 0x80 == 55 ==> Selects(LUI, code)
    ensures code % 0x80 == 23 ==> Selects(AUIPC, code)
    ensures code % 0x80 == 103 ==> Selects(JALR, code)
    ensures code % 0x80 == 111 ==> Selects(JAL, code)
  {
    hide Get, Assemble, Unhandled;
    TreeFields(code);
    Pieces(code);
    LeafIds();
    assert code / 0x200_0000 == 0 && (code / 0x8000) % 0x400 == 0 ==> code / 0x8000 == 0;
  }

  lemma {:induction false} UnhandledOnly(code: Word32)
    ensures Atomics(code).Op? ==> Atomics(code).id == UNIMPLEMENTED
    ensures FloatOps(code).Op? ==> FloatOps(code).id == UNIMPLEMENTED
  {
    hide Get;
  }

  /** Every implemented instruction is decoded from exactly the words that select it. */
  lemma {:induction false} DecodesExactly(id: InstrId, code: Word32)
    requires id != UNIMPLEMENTED
    ensures Decode(code).Op? && Decode(code).id == id <==> Selects(id, code)
  {
    hide Selects, Decode;
    if Selects(id, code) { SelectedLeaf(id, code); }
    LeafSelects(code);
  }

  // ---------------------------------------------------------------- instructions without a handler

  /** The other extensions: fences, M, A, F, D and Q, control and status registers, and the rest of
      the system instructions, by opcode, format and function as their chapters number them.
      FSQRT and moves to float registers ought to have rs2 zero, the system instructions rd. */
  predicate HasNoHandler(code: Word32) {
    var opcode, funct3, funct7 := code % 0x80, (code / 0x1000) % 8, code / 0x200_0000;
    var rs1, rs2 := (code / 0x8000) % 32, (code / 0x10_0000) % 32;
    || (opcode == 15 && funct3 <= 1)
    || (opcode == 51 && funct7 == 1)
    || (opcode == 59 && funct7 == 1 && (funct3 == 0 || funct3 >= 4))
    || (opcode == 47 && AtomicOp(code / 0x800_0000, rs2) && (funct3 == 2 || funct3 == 3))
    || ((opcode == 7 || opcode == 39) && 2 <= funct3 <= 4)
    || (opcode in {67, 71, 75, 79} && FloatFormat(funct7 % 4))
    || (opcode == 83 && FloatFormat(funct7 % 4) && FloatOp(code / 0x800_0000, funct7 % 4, funct3, rs2))
    || (opcode == 115 && funct3 !in {0, 4})
    || (opcode == 115 && funct3 == 0 && SystemOp(funct7, rs1, rs2))
  }

  /** S, D and Q; there are no 16-bit floats. */
  predicate FloatFormat(fmt: nat) { fmt == 0 || fmt == 1 || fmt == 3 }

  /** AMOADD, AMOSWAP, LR, SC and the AMOs numbered by multiples of four. */
  predicate AtomicOp(funct5: nat, rs2: nat) {
    funct5 % 4 == 0 || funct5 == 1 || (funct5 == 2 && rs2 == 0) || funct5 == 3
  }

  predicate FloatOp(funct5: nat, fmt: nat, rm: nat, rs2: nat) {
    match funct5
    case 0 => true                                                              // FADD
    case 1 => true                                                              // FSUB
    case 2 => true                                                              // FMUL
    case 3 => true                                                              // FDIV
    case 11 => true                                                             // FSQRT
    case 4 => rm <= 2                                                           // FSGNJ, FSGNJN, FSGNJX
    case 5 => rm <= 1                                                           // FMIN, FMAX
    case 20 => rm <= 2                                                          // FLE, FLT, FEQ
    case 8 => rs2 != fmt && FloatFormat(rs2)                                    // conversions between formats
    case 24 => rs2 <= 3                                                         // conversions to integers
    case 26 => rs2 <= 3                                                         // conversions from integers
    case 28 => rs2 == 0 && rm <= 1                                              // FMV.X, FCLASS
    case 30 => true                                                             // FMV from integers
    case _ => false
  }

  /** EBREAK and URET; SRET and WFI; MRET and DRET; the three address-translation fences. */
  predicate SystemOp(funct7: nat, rs1: nat, rs2: nat) {
    || (funct7 == 0 && rs1 == 0 && (rs2 == 1 || rs2 == 2))
    || (funct7 == 8 && rs1 == 0 && (rs2 == 2 || rs2 == 5))
    || funct7 == 24 || funct7 == 61
    || funct7 == 9 || funct7 == 17 || funct7 == 49
  }

  lemma {:induction false} AtomicsExactly(code: Word32)
    requires code % 0x80 == 47
    ensures Atomics(code) == if HasNoHandler(code) then Op(UNIMPLEMENTED, 0, 0, 0, 0) else ILLEGAL
  {
    hide Get;
    TreeFields(code);
  }

  lemma {:induction false} SystemExactly(code: Word32)
    requires code % 0x80 == 115
    ensures var i := System(code);
            if HasNoHandler(code) then i == Op(UNIMPLEMENTED, 0, 0, 0, 0) else i == ILLEGAL || (i.Op? && i.id == ECALL)
  {
    hide Get, RegField, Immediate;
    TreeFields(code);
    Pieces(code);
  }

  lemma {:induction false} FloatsExactly(code: Word32)
    requires code % 0x80 == 83
    ensures FloatOps(code) == if HasNoHandler(code) then Op(UNIMPLEMENTED, 0, 0, 0, 0) else ILLEGAL
  {
    hide Get;
    TreeFields(code);
    var funct7 := code / 0x200_0000;
    DivDiv(code, 0x200_0000, 4);
    assert funct7 == (code / 0x800_0000) * 4 + funct7 % 4;
  }

  /** A word decodes to an instruction without a handler exactly when it is one. */
  lemma {:induction false} NoHandlerExactly(code: Word32)
    ensures Decode(code) == Op(UNIMPLEMENTED, 0, 0, 0, 0) <==> HasNoHandler(code)
    ensures Decode(code).Op? && Decode(code).id == UNIMPLEMENTED ==> HasNoHandler(code)
  {
    hide Get, Assemble, HasNoHandler, Atomics, System, FloatOps, Unhandled;
    TreeFields(code);
    LeafIds();
    PlainFamilies(code);
    if code % 0x80 == 47 { AtomicsExactly(code); }
    if code % 0x80 == 115 { SystemExactly(code); }
    if code % 0x80 == 83 { FloatsExactly(code); }
  }

  lemma {:induction false} PlainFamilies(code: Word32)
    ensures var opcode, funct3, funct7 := code % 0x80, (code / 0x1000) % 8, code / 0x200_0000;
            opcode !in {47, 83, 115} ==>
              (HasNoHandler(code) <==>
                || (opcode == 15 && funct3 in {0, 1})
                || (opcode == 51 && funct7 == 1)
                || (opcode == 59 && funct7 == 1 && funct3 in {0, 4, 5, 6, 7})
                || (opcode in {7, 39} && funct3 in {2, 3, 4})
                || (opcode in {67, 71, 75, 79} && (code / 0x200_0000) % 4 in {0, 1, 3}))
  {
  }

  // ---------------------------------------------------------------- registers and immediates

  /** The low `width` bits of a number read as a signed number. */
  function SignedBits(v: int, width: nat): int
    requires width > 0
  {
    if v < Pow2(width - 1) then v else v - Pow2(width)
  }

  /** The immediate that the word holds in the given format. */
  function ImmediateOf(k: ImmKind, code: Word32): int {
    var a, b, c := code / 0x200_0000, (code / 0x10_0000) % 32, (code / 0x8000) % 32;
    var d, e := (code / 0x1000) % 8, (code / 0x80) % 32;
    match k
    case NO_IMM => 0
    case IMM12 => SignedBits(code / 0x10_0000, 12)
    case STOREIMM => SignedBits(a * 32 + e, 12)
    case BIMM => SignedBits((a / 64) * 0x1000 + (e % 2) * 0x800 + (a % 64) * 32 + (e / 2) * 2, 13)
    case JIMM20 =>
      SignedBits((a / 64) * 0x10_0000 + (c * 8 + d) * 0x1000 + (b % 2) * 0x800 + (a % 64) * 32 + (b / 2) * 2, 21)
    case IMM20 => SignedBits(code - code % 0x1000, 32)
    case SHAMT => (code / 0x10_0000) % 64
    case SHAMTW => b
  }

  predicate Formatted(i: Instr, code: Word32) {
    i.Op? && i.id != UNIMPLEMENTED ==> i == Assemble(i.id, FormatOf(i.id), code)
  }

  lemma {:induction false} ImmediateForms(code: Word32)
    ensures Formatted(OpImm(code), code) && Formatted(OpImm32(code), code)
  {
    hide Get, RegField, Immediate;
  }

  lemma {:induction false} RegisterForms(code: Word32)
    ensures Formatted(OpReg(code), code)
  {
    hide Get, RegField, Immediate, Unhandled;
    OtherForms(code);
  }

  lemma {:induction false} RegisterForms32(code: Word32)
    ensures Formatted(OpReg32(code), code)
  {
    hide Get, RegField, Immediate, Unhandled;
    OtherForms(code);
  }

  lemma {:induction false} LoadForms(code: Word32)
    ensures Formatted(Loads(code), code)
  {
    hide Get, RegField, Immediate;
  }

  lemma {:induction false} StoreForms(code: Word32)
    ensures Formatted(Stores(code), code)
  {
    hide Get, RegField, Immediate;
  }

  lemma {:induction false} BranchForms(code: Word32)
    ensures Formatted(Branches(code), code)
  {
    hide Get, RegField, Immediate;
  }

  lemma {:induction false} OtherForms(code: Word32)
    ensures Formatted(System(code), code) && forall known :: Formatted(Unhandled(known), code)
  {
    hide Get, RegField, Immediate;
  }

  lemma {:induction false} LeafForm(code: Word32)
    ensures Formatted(Decode(code), code)
  {
    hide Get, RegField, Immediate, Unhandled, Branches, OpImm, OpReg, OpImm32, OpReg32, Loads, Stores, System,
      Atomics, FloatOps;
    UnhandledOnly(code);
    ImmediateForms(code);
    RegisterForms(code);
    RegisterForms32(code);
    LoadForms(code);
    StoreForms(code);
    BranchForms(code);
    OtherForms(code);
  }

  lemma {:induction false} RegisterIs(present: bool, code: Word32)
    ensures RegField(present, 7, code) == if present then (code / 0x80) % 32 else 0
    ensures RegField(present, 15, code) == if present then (code / 0x8000) % 32 else 0
    ensures RegField(present, 20, code) == if present then (code / 0x10_0000) % 32 else 0
  {
    hide Pow2, GetBitField;
    PowTable();
    GetValue(32, 11, 7, code);
    GetValue(32, 19, 15, code);
    GetValue(32, 24, 20, code);
  }

  lemma {:induction false} GatheredIs(k: ImmKind, code: Word32)
    ensures var a, b, c := code / 0x200_0000, (code / 0x10_0000) % 32, (code / 0x8000) % 32;
            var d, e := (code / 0x1000) % 8, (code / 0x80) % 32;
            Gather(Sections(k), code) ==
            match k
            case NO_IMM => 0
            case IMM12 => code / 0x10_0000
            case STOREIMM => a * 32 + e
            case BIMM => (a / 64) * 0x1000 + (e % 2) * 0x800 + (a % 64) * 32 + (e / 2) * 2
            case JIMM20 => (a / 64) * 0x10_0000 + (c * 8 + d) * 0x1000 + (b % 2) * 0x800 + (a % 64) * 32 + (b / 2) * 2
            case IMM20 => code - code % 0x1000
            case SHAMT => (code / 0x10_0000) % 64
            case SHAMTW => b
  {
    hide Gather, Sections, Pack;
    SlotsPack(code);
    Pieces(code);
    UpperPart(code);
    var w := SlotsOf(code);
    match k
    case NO_IMM => NoSections(code);
    case IMM12 => GatherImm12(w, w.a * 32 + w.b);
    case STOREIMM => GatherStore(w, w.a * 32 + w.e);
    case BIMM => GatherBranch(w, w.a / 64, w.e % 2, w.a % 64, w.e / 2);
    case JIMM20 => GatherJump(w, w.a / 64, w.b % 2, w.a % 64, w.b / 2);
    case IMM20 => GatherUpper(w, (((w.a * 32 + w.b) * 32 + w.c) * 8 + w.d) * 0x1000);
    case SHAMT => GatherShamt(w, (w.a % 2) * 32 + w.b);
    case SHAMTW => GatherShamtw(w);
  }

  lemma {:induction false} UpperPart(code: Word32)
    ensures var w := SlotsOf(code); code - code % 0x1000 == (((w.a * 32 + w.b) * 32 + w.c) * 8 + w.d) * 0x1000
  {
    DivDiv(code, 0x1000, 8);
    DivDiv(code, 0x8000, 32);
    DivDiv(code, 0x10_0000, 32);
  }

  lemma {:induction false} ImmediateIs(k: ImmKind, code: Word32)
    ensures Signed(32, Immediate(k, code)) == ImmediateOf(k, code)
  {
    hide Gather, Sections, SignExtend, ExtendFrom, Pow2, Signed;
    GatheredIs(k, code);
    ExtendFromIs();
    GatherInRange(Sections(k), code);
    Widths();
    var v, top := Gather(Sections(k), code), ExtendFrom(Sections(k));
    if k in {IMM12, STOREIMM, BIMM, JIMM20} {
      SignExtendValue(32, top, v);
      SignedWidth(top + 1, v);
    } else {
      SignedWidth(32, v);
    }
  }

  lemma {:induction false} Widths()
    ensures Pow2(11) == 0x800 && Pow2(12) == 0x1000 && Pow2(13) == 0x2000
    ensures Pow2(20) == 0x10_0000 && Pow2(21) == 0x20_0000 && Pow2(31) == 0x8000_0000 && Pow2(32) == 0x1_0000_0000
  {
    hide Pow2;
    Pow2Values();
    PowTable();
    Pow2Add(10, 1);
    Pow2Add(12, 1);
  }

  lemma {:induction false} SignedWidth(width: nat, v: nat)
    requires width > 0 && v < Pow2(width)
    ensures Signed(width, v) == SignedBits(v, width)
  {
    hide Pow2;
    DivUnique(v, Pow2(width), 0, v);
  }

  /** Registers and immediate of every word that decodes to an implemented instruction: rd is bits
      11:7, rs1 bits 19:15 and rs2 bits 24:20 where the format has them, the immediate the signed
      number that the format spells. */
  lemma {:induction false} OperandsExactly(code: Word32)
    ensures var i := Decode(code);
            i.Op? && i.id != UNIMPLEMENTED ==>
              && i.rd == (if i.id in {SB, SH, SW, SD, BEQ, BNE, BLT, BGE, BLTU, BGEU, ECALL} then 0
                          else (code / 0x80) % 32)
              && i.rs1 == (if i.id in {LUI, AUIPC, JAL, ECALL} then 0 else (code / 0x8000) % 32)
              && i.rs2 == (if FormatOf(i.id).rs2 then (code / 0x10_0000) % 32 else 0)
              && Signed(32, i.imm) == ImmediateOf(FormatOf(i.id).imm, code)
  {
    hide Decode, Immediate, RegField, Signed, ImmediateOf;
    LeafForm(code);
    RegisterIs(true, code);
    RegisterIs(false, code);
    var i := Decode(code);
    if i.Op? && i.id != UNIMPLEMENTED { ImmediateIs(FormatOf(i.id).imm, code); }
  }

  /** Branches, stores and register operations have both sources, whatever the format table says. */
  lemma {:induction false} BothSources(code: Word32)
    ensures var i := Decode(code);
            i.Op? && i.id in {BEQ, BNE, BLT, BGE, BLTU, BGEU, SB, SH, SW, SD, ADD, SUB, SLL, SLT, SLTU, XOR, SRL, SRA,
                              OR, AND, ADDW, SUBW, SLLW, SRLW, SRAW} ==>
              i.rs1 == (code / 0x8000) % 32 && i.rs2 == (code / 0x10_0000) % 32
  {
    hide Decode, Signed, ImmediateOf;
    OperandsExactly(code);
  }
}
