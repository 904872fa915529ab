/** The instruction decoder that instr/gen_decode.py generates from risc-v.yaml: the
    assembly of the fields of a leaf, and the decision tree as nested switches. */
module Decoder {
  import opened Common
  import opened Bits
  import opened Instr

  /** One piece of an immediate: instruction bits msb..lsb hold immediate bits from..to. */
  datatype Section = Section(msb: nat, lsb: nat, from: nat, to: nat)

  predicate ValidSection(s: Section) {
    s.lsb <= s.msb < 32 && s.to <= s.from < 32 && s.msb - s.lsb == s.from - s.to
  }

  predicate AllValid(secs: seq<Section>) { forall i :: 0 <= i < |secs| ==> ValidSection(secs[i]) }

  datatype ImmKind = NO_IMM | IMM12 | IMM20 | JIMM20 | STOREIMM | BIMM | SHAMT | SHAMTW

  function Sections(k: ImmKind): (r: seq<Section>)
    ensures AllValid(r)
  {
    match k
    case NO_IMM => []
    case IMM12 => [Section(31, 20, 11, 0)]
    case IMM20 => [Section(31, 12, 31, 12)]
    case JIMM20 => [Section(31, 31, 20, 20), Section(30, 21, 10, 1), Section(20, 20, 11, 11), Section(19, 12, 19, 12)]
    case STOREIMM => [Section(31, 25, 11, 5), Section(11, 7, 4, 0)]
    case BIMM => [Section(31, 31, 12, 12), Section(30, 25, 10, 5), Section(11, 8, 4, 1), Section(7, 7, 11, 11)]
    case SHAMT => [Section(25, 20, 5, 0)]
    case SHAMTW => [Section(24, 20, 4, 0)]
  }

  /** m_imm |= getBitField(msb, lsb, code) << to, over all sections. */
  function Gather(secs: seq<Section>, code: nat): nat
    requires AllValid(secs)
  {
    if secs == [] then 0
    else
      var s := secs[|secs| - 1];
      Or(Gather(secs[..|secs| - 1], code), Shl(32, GetBitField(32, s.msb, s.lsb, code), s.to))
  }

  /** The highest immediate bit of any section. */
  function ExtendFrom(secs: seq<Section>): (r: nat)
    requires AllValid(secs)
    ensures r < 32
  {
    if secs == [] then 0
    else
      var rest := ExtendFrom(secs[..|secs| - 1]);
      var f := secs[|secs| - 1].from;
      if f > rest then f else rest
  }

  lemma {:induction false} GatherInRange(secs: seq<Section>, code: nat)
    requires AllValid(secs)
    ensures Gather(secs, code) < Pow2(32)
  {
    forall i: nat | i >= 32 ensures !Bit(Gather(secs, code), i) { GatherHigh(secs, code, i); }
    BelowPow2(Gather(secs, code), 32);
  }

  lemma {:induction false} GatherHigh(secs: seq<Section>, code: nat, i: nat)
    requires AllValid(secs) && i >= 32
    ensures !Bit(Gather(secs, code), i)
  {
    if secs == [] {
      BitOfZero(i);
    } else {
      var s := secs[|secs| - 1];
      GatherHigh(secs[..|secs| - 1], code, i);
      BitOfOr(Gather(secs[..|secs| - 1], code), Shl(32, GetBitField(32, s.msb, s.lsb, code), s.to), i);
      BitOfShl(32, GetBitField(32, s.msb, s.lsb, code), s.to, i);
    }
  }

  /** The immediate of a leaf: gathered, then sign-extended unless it is a shift amount or
      already reaches bit 31. */
  function Immediate(k: ImmKind, code: nat): Word32 {
    Pow2Values();
    GatherInRange(Sections(k), code);
    var imm := Gather(Sections(k), code);
    var top := ExtendFrom(Sections(k));
    if k == NO_IMM || k == SHAMT || k == SHAMTW || top > 30 then imm
    else
      SignExtendValue(32, top, imm);
      SignExtend(32, top, imm)
  }

  /** The register fields and the immediate of an instruction. */
  datatype Fields = Fields(rd: bool, rs1: bool, rs2: bool, imm: ImmKind)

  const FMT_R := Fields(true, true, true, NO_IMM)
  const FMT_I := Fields(true, true, false, IMM12)
  const FMT_SH := Fields(true, true, false, SHAMT)
  const FMT_SHW := Fields(true, true, false, SHAMTW)
  const FMT_S := Fields(false, true, true, STOREIMM)
  const FMT_B := Fields(false, true, true, BIMM)
  const FMT_U := Fields(true, false, false, IMM20)
  const FMT_J := Fields(true, false, false, JIMM20)
  const FMT_NONE := Fields(false, false, false, NO_IMM)

  /** A five-bit register field. */
  function RegField(present: bool, lo: nat, code: nat): Reg
    requires lo <= 27
  {
    if !present then 0
    else
      Pow2Values();
      GetValue(32, lo + 4, lo, code);
      DivMod(code, Pow2(lo));
      GetBitField(32, lo + 4, lo, code)
  }

  function Assemble(id: InstrId, f: Fields, code: nat): Instr {
    Op(id, RegField(f.rd, 7, code), RegField(f.rs1, 15, code), RegField(f.rs2, 20, code), Immediate(f.imm, code))
  }

  /** What the default constructor leaves when no leaf is reached. */
  const ILLEGAL := Status(SIM_NOT_IMPLEMENTED_INSTR)

  // ---------------------------------------------------------------- the decision tree

  function Get(msb: nat, lsb: nat, code: nat): nat
    requires lsb <= msb < 32
  {
    GetBitField(32, msb, lsb, code)
  }

  /** A leaf whose instruction has no handler. */
  function Unhandled(known: bool): Instr {
    if known then Op(UNIMPLEMENTED, 0, 0, 0, 0) else ILLEGAL
  }

  function Branches(code: nat): Instr {
    match Get(14, 12, code)
    case 0 => Assemble(BEQ, FMT_B, code)
    case 1 => Assemble(BNE, FMT_B, code)
    case 4 => Assemble(BLT, FMT_B, code)
    case 5 => Assemble(BGE, FMT_B, code)
    case 6 => Assemble(BLTU, FMT_B, code)
    case 7 => Assemble(BGEU, FMT_B, code)
    case _ => ILLEGAL
  }

  /** SLLI does not look at bits 31:26. */
  function OpImm(code: nat): Instr {
    match Get(14, 12, code)
    case 0 => Assemble(ADDI, FMT_I, code)
    case 1 => Assemble(SLLI, FMT_SH, code)
    case 2 => Assemble(SLTI, FMT_I, code)
    case 3 => Assemble(SLTIU, FMT_I, code)
    case 4 => Assemble(XORI, FMT_I, code)
    case 5 => (
      match Get(31, 26, code)
      case 0 => Assemble(SRLI, FMT_SH, code)
      case 16 => Assemble(SRAI, FMT_SH, code)
      case _ => ILLEGAL
    )
    case 6 => Assemble(ORI, FMT_I, code)
    case 7 => Assemble(ANDI, FMT_I, code)
    case _ => ILLEGAL
  }

  function OpReg(code: nat): Instr {
    match Get(31, 25, code)
    case 0 => (
      match Get(14, 12, code)
      case 0 => Assemble(ADD, FMT_R, code)
      case 1 => Assemble(SLL, FMT_R, code)
      case 2 => Assemble(SLT, FMT_R, code)
      case 3 => Assemble(SLTU, FMT_R, code)
      case 4 => Assemble(XOR, FMT_R, code)
      case 5 => Assemble(SRL, FMT_R, code)
      case 6 => Assemble(OR, FMT_R, code)
      case 7 => Assemble(AND, FMT_R, code)
      case _ => ILLEGAL
    )
    case 32 => (
      match Get(14, 12, code)
      case 0 => Assemble(SUB, FMT_R, code)
      case 5 => Assemble(SRA, FMT_R, code)
      case _ => ILLEGAL
    )
    case 1 => Unhandled(Get(14, 12, code) < 8)
    case _ => ILLEGAL
  }

  function OpImm32(code: nat): Instr {
    match Get(14, 12, code)
    case 0 => Assemble(ADDIW, FMT_I, code)
    case 1 => Assemble(SLLIW, FMT_SHW, code)
    case 5 => (
      match Get(31, 25, code)
      case 0 => Assemble(SRLIW, FMT_SHW, code)
      case 32 => Assemble(SRAIW, FMT_SHW, code)
      case _ => ILLEGAL
    )
    case _ => ILLEGAL
  }

  function OpReg32(code: nat): Instr {
    match Get(31, 25, code)
    case 0 => (
      match Get(14, 12, code)
      case 0 => Assemble(ADDW, FMT_R, code)
      case 1 => Assemble(SLLW, FMT_R, code)
      case 5 => Assemble(SRLW, FMT_R, code)
      case _ => ILLEGAL
    )
    case 32 => (
      match Get(14, 12, code)
      case 0 => Assemble(SUBW, FMT_R, code)
      case 5 => Assemble(SRAW, FMT_R, code)
      case _ => ILLEGAL
    )
    case 1 => Unhandled(Get(14, 12, code) in {0, 4, 5, 6, 7})
    case _ => ILLEGAL
  }

  function Loads(code: nat): Instr {
    match Get(14, 12, code)
    case 0 => Assemble(LB, FMT_I, code)
    case 1 => Assemble(LH, FMT_I, code)
    case 2 => Assemble(LW, FMT_I, code)
    case 3 => Assemble(LD, FMT_I, code)
    case 4 => Assemble(LBU, FMT_I, code)
    case 5 => Assemble(LHU, FMT_I, code)
    case 6 => Assemble(LWU, FMT_I, code)
    case _ => ILLEGAL
  }

  function Stores(code: nat): Instr {
    match Get(14, 12, code)
    case 0 => Assemble(SB, FMT_S, code)
    case 1 => Assemble(SH, FMT_S, code)
    case 2 => Assemble(SW, FMT_S, code)
    case 3 => Assemble(SD, FMT_S, code)
    case _ => ILLEGAL
  }

  function Atomics(code: nat): Instr {
    var funct5, width := Get(31, 27, code), Get(14, 12, code);
    var plain := funct5 in {0, 1, 3, 4, 8, 12, 16, 20, 24, 28};
    Unhandled(width in {2, 3} && (plain || (funct5 == 2 && Get(24, 20, code) == 0)))
  }

  function System(code: nat): Instr {
    match Get(14, 12, code)
    case 0 => (
      match Get(31, 25, code)
      case 0 =>
        if Get(24, 15, code) == 0 then Assemble(ECALL, FMT_NONE, code) else Unhandled(Get(24, 15, code) in {32, 64})
      case 8 => Unhandled(Get(24, 15, code) in {64, 160})
      case funct7 => Unhandled(funct7 in {24, 61, 9, 17, 49})
    )
    case funct3 => Unhandled(funct3 in {1, 2, 3, 5, 6, 7})
  }

  function FloatOps(code: nat): Instr {
    var funct7, rm, rs2 := Get(31, 25, code), Get(14, 12, code), Get(24, 20, code);
    Unhandled(
      || funct7 in {0, 4, 8, 12, 44, 1, 5, 9, 13, 45, 3, 7, 11, 15, 47, 120, 121, 123}
      || (funct7 in {16, 17, 19, 80, 81, 83} && rm in {0, 1, 2})
      || (funct7 in {20, 21, 23} && rm in {0, 1})
      || (funct7 == 32 && rs2 in {1, 3})
      || (funct7 == 33 && rs2 in {0, 3})
      || (funct7 == 35 && rs2 in {0, 1})
      || (funct7 in {96, 97, 99, 104, 105, 107} && rs2 in {0, 1, 2, 3})
      || (funct7 in {112, 113, 115} && rs2 == 0 && rm in {0, 1}))
  }

  /** Instr::Instr(InstrCode): every word decodes.  JALR does not look at its funct3. */
  function Decode(code: nat): Instr {
    match Get(6, 0, code)
    case 99 => Branches(code)
    case 103 => Assemble(JALR, FMT_I, code)
    case 111 => Assemble(JAL, FMT_J, code)
    case 55 => Assemble(LUI, FMT_U, code)
    case 23 => Assemble(AUIPC, FMT_U, code)
    case 19 => OpImm(code)
    case 51 => OpReg(code)
    case 27 => OpImm32(code)
    case 59 => OpReg32(code)
    case 3 => Loads(code)
    case 35 => Stores(code)
    case 15 => Unhandled(Get(14, 12, code) in {0, 1})
    case 47 => Atomics(code)
    case 115 => System(code)
    case 83 => FloatOps(code)
    case 7 => Unhandled(Get(14, 12, code) in {2, 3, 4})
    case 39 => Unhandled(Get(14, 12, code) in {2, 3, 4})
    case 67 => Unhandled(Get(26, 25, code) in {0, 1, 3})
    case 71 => Unhandled(Get(26, 25, code) in {0, 1, 3})
    case 75 => Unhandled(Get(26, 25, code) in {0, 1, 3})
    case 79 => Unhandled(Get(26, 25, code) in {0, 1, 3})
    case _ => ILLEGAL
  }

  /** Decoding yields an operation or the illegal-instruction status, no other status. */
  lemma {:induction false} DecodeShape(code: nat)
    ensures Decode(code).Op? || Decode(code) == ILLEGAL
  {
    hide Get, RegField, Immediate;
  }
}
