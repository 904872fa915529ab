/** What one instruction does, apart from the memory access itself
    (simulator/include/sim/simulator/sim_instr.hpp).  The simulator and the reference machine
    share it: they differ in how they fetch, load and store. */
module Exec {
  import opened Common
  import opened Bits
  import opened Instr

  /** The general purpose registers. */
  type Regs = s: seq<Word> | |s| == 32 witness seq(32, _ => 0)

  /** GPRFile::write: x0 is zeroed after every write. */
  function WriteReg(g: Regs, rd: Reg, v: Word): (r: Regs)
    ensures r[0] == 0
    ensures forall i :: 1 <= i < 32 ==> r[i] == if i == rd then v else g[i]
  {
    var written: seq<Word> := g[rd := v];
    written[0 := 0]
  }

  /** Access widths in bytes. */
  type Width = n: int | n == 1 || n == 2 || n == 4 || n == 8 witness 1

  datatype Effect =
    | Return(status: SimStatus)                             // leave the state, return the status
    | SetReg(rd: Reg, value: Word)                          // write a register, go on
    | Load(rd: Reg, va: Word, n: Width, isSigned: bool)     // load, write a register, go on
    | Store(va: Word, n: Width, value: Word)                // store, go on
    | Jump(rd: Reg, link: Word, target: Word)               // link and jump
    | Branch(target: Word)                                  // set pc only
    | Exit                                                  // ECALL

  function Wrap(x: int): Word { x % TWO64 }

  /** static_cast<int32_t> of the low 32 bits, widened to 64 bits. */
  function Sext32(x: int): Word { Wrap(Signed(32, x)) }

  function Low32(x: Word): Word32 { x % 0x1_0000_0000 }

  function Imm(i: Instr): int
    requires i.Op?
  {
    Signed(32, i.imm)
  }

  lemma {:induction false} BitwiseInRange(x: Word, y: Word)
    ensures And(x, y) < TWO64 && Or(x, y) < TWO64 && Xor(x, y) < TWO64
  {
    Pow2Values();
    forall i: nat | i >= 64 ensures !Bit(And(x, y), i) && !Bit(Or(x, y), i) && !Bit(Xor(x, y), i) {
      SmallBits(x, 64, i);
      SmallBits(y, 64, i);
      BitOfAnd(x, y, i);
      BitOfOr(x, y, i);
      BitOfXor(x, y, i);
    }
    BelowPow2(And(x, y), 64);
    BelowPow2(Or(x, y), 64);
    BelowPow2(Xor(x, y), 64);
  }

  function And64(x: Word, y: Word): Word { BitwiseInRange(x, y); And(x, y) }

  function Or64(x: Word, y: Word): Word { BitwiseInRange(x, y); Or(x, y) }

  function Xor64(x: Word, y: Word): Word { BitwiseInRange(x, y); Xor(x, y) }

  /** Arithmetic right shift of a signed value. */
  function Sar(x: int, n: nat): int { x / Pow2(n) }

  /** The shift amount in rs2: its low byte, which maskBits<uint8_t> leaves as it is. */
  function ShiftAmount(hi: nat, x: Word): nat
    requires hi < 8
  {
    MaskBits8(hi, 0, x % 256)
  }

  /** A register shift; an amount of the width or more is undefined in the source. */
  function Shift(rd: Reg, width: nat, amount: nat, value: Word): Effect {
    if amount < width then SetReg(rd, value) else Return(ABORT)
  }

  function Bool(b: bool): Word { if b then 1 else 0 }

  function CondBranch(taken: bool, pc: Word, offset: int): Effect {
    if !taken then Branch(Wrap(pc + 4))
    else if Wrap(pc + offset) % 4 != 0 then Return(SIM_PC_ALIGN_ERROR)
    else Branch(Wrap(pc + offset))
  }

  function JumpTo(rd: Reg, pc: Word, target: Word): Effect {
    if target % 4 != 0 then Return(SIM_PC_ALIGN_ERROR) else Jump(rd, Wrap(pc + 4), target)
  }

  function StoreEffect(va: Word, n: Width, value: Word): Effect {
    ModAtMost(value, Pow2(8 * n));
    Store(va, n, value % Pow2(8 * n))
  }

  /** Additions, comparisons and bitwise operations. */
  function AluOp(i: Instr, pc: Word, a: Word, b: Word): Effect
    requires i.Op?
  {
    var imm, rd := Imm(i), i.rd;
    match i.id
    case ADD => SetReg(rd, Wrap(a + b))
    case SUB => SetReg(rd, Wrap(a - b))
    case SLT => SetReg(rd, Bool(Signed(64, a) < Signed(64, b)))
    case SLTU => SetReg(rd, Bool(a < b))
    case AND => SetReg(rd, And64(a, b))
    case OR => SetReg(rd, Or64(a, b))
    case XOR => SetReg(rd, Xor64(a, b))
    case ADDI => SetReg(rd, Wrap(a + imm))
    case SLTI => SetReg(rd, Bool(Signed(64, a) < imm))
    case SLTIU => SetReg(rd, Bool(a < Wrap(imm)))
    case ANDI => SetReg(rd, And64(a, Wrap(imm)))
    case ORI => SetReg(rd, Or64(a, Wrap(imm)))
    case XORI => SetReg(rd, Xor64(a, Wrap(imm)))
    case ADDIW => SetReg(rd, Sext32(i.imm + a))
    case ADDW => SetReg(rd, Sext32(a + b))
    case SUBW => SetReg(rd, Sext32(a - b))
    case LUI => SetReg(rd, Wrap(imm))
    case AUIPC => SetReg(rd, Wrap(i.imm + pc))
    case _ => Return(ABORT)
  }

  function ShiftOp(i: Instr, a: Word, b: Word): Effect
    requires i.Op?
  {
    var rd := i.rd;
    match i.id
    case SLLI => Shift(rd, 64, i.imm, Wrap(a * Pow2(i.imm)))
    case SRLI => Shift(rd, 64, i.imm, Wrap(Shr(a, i.imm)))
    case SRAI => Shift(rd, 64, i.imm, Wrap(Sar(Signed(64, a), i.imm)))
    case SLLIW => Shift(rd, 32, i.imm, Sext32(Low32(a) * Pow2(i.imm)))
    case SRLIW => Shift(rd, 32, i.imm, Sext32(Shr(Low32(a), i.imm)))
    case SRAIW => Shift(rd, 32, i.imm, Wrap(Sar(Signed(32, a), i.imm)))
    case SLL => var n := ShiftAmount(5, b); Shift(rd, 64, n, Wrap(a * Pow2(n)))
    case SRL => var n := ShiftAmount(5, b); Shift(rd, 64, n, Wrap(Shr(a, n)))
    case SRA => var n := ShiftAmount(5, b); Shift(rd, 64, n, Wrap(Sar(Signed(64, a), n)))
    case SLLW => var n := ShiftAmount(4, b); Shift(rd, 32, n, Sext32(Low32(a) * Pow2(n)))
    case SRLW => var n := ShiftAmount(4, b); Shift(rd, 32, n, Sext32(Shr(Low32(a), n)))
    case SRAW => var n := ShiftAmount(4, b); Shift(rd, 32, n, Wrap(Sar(Signed(32, a), n)))
    case _ => Return(ABORT)
  }

  function MemoryOp(i: Instr, a: Word, b: Word): Effect
    requires i.Op?
  {
    var va, rd := Wrap(a + Imm(i)), i.rd;
    match i.id
    case LD => Load(rd, va, 8, true)
    case LW => Load(rd, va, 4, true)
    case LH => Load(rd, va, 2, true)
    case LB => Load(rd, va, 1, true)
    case LWU => Load(rd, va, 4, false)
    case LHU => Load(rd, va, 2, false)
    case LBU => Load(rd, va, 1, false)
    case SD => StoreEffect(va, 8, b)
    case SW => StoreEffect(va, 4, b)
    case SH => StoreEffect(va, 2, b)
    case SB => StoreEffect(va, 1, b)
    case _ => Return(ABORT)
  }

  function BranchOp(i: Instr, pc: Word, a: Word, b: Word): Effect
    requires i.Op?
  {
    var imm := Imm(i);
    match i.id
    case JAL => JumpTo(i.rd, pc, Wrap(pc + imm))
    case JALR => var t := Wrap(a + imm); JumpTo(i.rd, pc, t - t % 2)
    case BEQ => CondBranch(a == b, pc, imm)
    case BNE => CondBranch(a != b, pc, imm)
    case BLT => CondBranch(Signed(64, a) < Signed(64, b), pc, imm)
    case BLTU => CondBranch(a < b, pc, imm)
    case BGE => CondBranch(Signed(64, a) >= Signed(64, b), pc, imm)
    case BGEU => CondBranch(a >= b, pc, imm)
    case _ => Return(ABORT)
  }

  function EffectOf(i: Instr, pc: Word, g: Regs): Effect {
    match i
    case Status(s) => Return(s)
    case Op(id, _, rs1, rs2, _) =>
      match id
      case ECALL => Exit
      case UNIMPLEMENTED => Return(ABORT)
      case JAL | JALR | BEQ | BNE | BLT | BLTU | BGE | BGEU => BranchOp(i, pc, g[rs1], g[rs2])
      case LD | LW | LH | LB | LWU | LHU | LBU | SD | SW | SH | SB => MemoryOp(i, g[rs1], g[rs2])
      case SLLI | SRLI | SRAI | SLLIW | SRLIW | SRAIW | SLL | SRL | SRA | SLLW | SRLW | SRAW =>
        ShiftOp(i, g[rs1], g[rs2])
      case _ => AluOp(i, pc, g[rs1], g[rs2])
  }

  /** The register value of a loaded integer: sign- or zero-extended from n bytes. */
  function Extended(value: nat, n: Width, isSigned: bool): Word {
    if isSigned then Wrap(Signed(8 * n, value)) else Wrap(value)
  }

  // ---------------------------------------------------------------- shape of the effects

  lemma {:induction false} StraightLineOps(i: Instr, pc: Word, a: Word, b: Word)
    requires i.Op?
    ensures var e := AluOp(i, pc, a, b); e.SetReg? || e == Return(ABORT)
    ensures var e := ShiftOp(i, a, b); e.SetReg? || e == Return(ABORT)
    ensures var e := MemoryOp(i, a, b); e.Load? || e.Store? || e == Return(ABORT)
  {
    hide Wrap, Sext32, Low32, Imm, And64, Or64, Xor64, Sar, Shr, ShiftAmount, Bool, Signed, Pow2;
  }

  /** Only the instructions that end a block leave the straight line, and they always do. */
  lemma {:induction false} EndsLeave(i: Instr, pc: Word, g: Regs)
    ensures var e := EffectOf(i, pc, g);
            if Ends(i) then e.Return? || e.Jump? || e.Branch?
            else e.SetReg? || e.Load? || e.Store? || e.Exit? || e == Return(ABORT)
  {
    hide AluOp, ShiftOp, MemoryOp, Wrap, Imm, Signed;
    if i.Op? { StraightLineOps(i, pc, g[i.rs1], g[i.rs2]); }
  }

  /** Jumps and taken branches go to 4-byte aligned addresses; a branch not taken goes to pc + 4. */
  lemma {:induction false} TargetsAligned(i: Instr, pc: Word, g: Regs)
    ensures var e := EffectOf(i, pc, g);
            (e.Jump? ==> e.target % 4 == 0) && (e.Branch? ==> e.target % 4 == 0 || e.target == Wrap(pc + 4))
  {
    hide AluOp, ShiftOp, MemoryOp, Wrap, Imm, Signed;
    if i.Op? { StraightLineOps(i, pc, g[i.rs1], g[i.rs2]); }
  }
}
