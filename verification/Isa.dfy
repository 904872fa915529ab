/** What each instruction does to registers, memory and pc, stated of the reference machine in the
    terms of chapters 2 and 5 of the RISC-V Unprivileged ISA (20191213), with the departures of
    the handlers written out (simulator/include/sim/simulator/sim_instr.hpp). */
module Isa {
  import opened Common
  import opened Bits
  import opened Instr
  import opened PhysMem
  import opened Mmu
  import opened Exec
  import opened Access
  import Decoder
  import opened Block
  import opened Machine

  // ---------------------------------------------------------------- terms

  function Fetched(c: Csrs, r: Ref): Instr { FetchDecode(c, r.mem, r.pc) }

  predicate FetchesOp(c: Csrs, r: Ref, ids: set<InstrId>) { Fetched(c, r).Op? && Fetched(c, r).id in ids }

  /** The immediate as a signed number. */
  function SImm(imm: Word32): int { if imm < 0x8000_0000 then imm else imm - 0x1_0000_0000 }

  /** Words read as signed numbers. */
  function S64(x: Word): int { if x < 0x8000_0000_0000_0000 then x else x - TWO64 }

  function S32(x: int): int {
    var low := x % 0x1_0000_0000;
    if low < 0x8000_0000 then low else low - 0x1_0000_0000
  }

  function Next(r: Ref): Word { (r.pc + 4) % TWO64 }

  /** One retired instruction that writes v to rd and nothing else but pc. */
  ghost predicate Writes(r: Ref, s: Step, rd: Reg, v: int, pc: int) {
    && s.Running? && s.r.pc == pc && s.r.icount == r.icount + 1 && s.r.mem == r.mem
    && s.r.regs[0] == 0 && forall k :: 1 <= k < 32 ==> s.r.regs[k] == if k == rd then v else r.regs[k]
  }

  lemma {:induction false} SignedIs(x: Word, y: int)
    ensures Signed(64, x) == S64(x) && Signed(32, y) == S32(y)
  {
    hide Pow2;
    Pow2Values();
    HalfPowers();
  }

  lemma {:induction false} HalfPowers()
    ensures Pow2(63) == 0x8000_0000_0000_0000 && Pow2(31) == 0x8000_0000 && Pow2(15) == 0x8000 && Pow2(7) == 0x80
    ensures Pow2(16) == 0x1_0000
  {
    hide Pow2;
    Pow2Small();
    Pow2Add(4, 2);
    Pow2Add(6, 1);
    Pow2Add(8, 7);
    Pow2Add(8, 8);
    Pow2Add(16, 15);
    Pow2Add(31, 16);
    Pow2Add(47, 16);
  }

  lemma {:induction false} ImmIs(i: Instr)
    requires i.Op?
    ensures Imm(i) == SImm(i.imm)
  {
    hide Signed;
    SignedIs(0, i.imm);
  }

  /** A step is decided by the effect of the fetched instruction. */
  lemma {:induction false} StepOf(c: Csrs, r: Ref)
    ensures RefStep(c, r) == RefExec(c, r, Fetched(c, r))
  {
  }

  /** What is fetched: the decoded word whose four bytes are at the translated pc, or the status of the
      fetch that failed. */
  lemma {:induction false} FetchExactly(c: Csrs, r: Ref) returns (word: Word32)
    ensures var t := Translate(c, r.mem, USER, FETCH, r.pc);
            if r.pc % 4 != 0 then Fetched(c, r) == Status(SIM_UNALIGNED_LOAD)
            else if t.status != OK then Fetched(c, r) == Status(t.status)
            else if ByteAt(r.mem, t.pa).None? then Fetched(c, r) == Status(PHYS_MEM_ACCESS_FAULT)
            else HoldsNumber(r.mem, t.pa, 4, word) && Fetched(c, r) == Decoder.Decode(word)
  {
    hide Translate, RefLoad, Decoder.Decode, Pow2;
    Pow2Values();
    LoadExactly(c, r.mem, FETCH, r.pc, 4);
    var l := RefLoad(c, r.mem, FETCH, r.pc, 4);
    word := if l.value < 0x1_0000_0000 then l.value else 0;
  }

  // ---------------------------------------------------------------- jumps and branches

  const JUMPS: set<InstrId> := {JAL, JALR}

  const BRANCHES: set<InstrId> := {BEQ, BNE, BLT, BLTU, BGE, BGEU}

  /** JAL goes to pc plus the offset, JALR to rs1 plus the offset with bit 0 cleared; both leave the
      address of the next instruction in rd.  A misaligned target is an error and changes nothing. */
  lemma {:induction false} JumpStep(c: Csrs, r: Ref)
    requires FetchesOp(c, r, JUMPS)
    ensures var i := Fetched(c, r);
            var sum := ((if i.id == JAL then r.pc else r.regs[i.rs1]) + SImm(i.imm)) % TWO64;
            var target := if i.id == JALR && sum % 2 == 1 then sum - 1 else sum;
            if target % 4 == 0 then Writes(r, RefStep(c, r), i.rd, Next(r), target)
            else RefStep(c, r) == Done(SIM_PC_ALIGN_ERROR, r)
  {
    hide FetchDecode, EffectOf, RefLoad, RefStore, Extended;
    JumpEffect(Fetched(c, r), r.pc, r.regs);
  }

  lemma {:induction false} JumpEffect(i: Instr, pc: Word, g: Regs)
    requires i.Op? && i.id in JUMPS
    ensures var sum := ((if i.id == JAL then pc else g[i.rs1]) + SImm(i.imm)) % TWO64;
            var target := if i.id == JALR && sum % 2 == 1 then sum - 1 else sum;
            EffectOf(i, pc, g) ==
            if target % 4 == 0 then Jump(i.rd, (pc + 4) % TWO64, target) else Return(SIM_PC_ALIGN_ERROR)
  {
    hide Imm, AluOp, ShiftOp, MemoryOp;
    ImmIs(i);
  }

  predicate Taken(id: InstrId, a: Word, b: Word)
    requires id in BRANCHES
  {
    match id
    case BEQ => a == b
    case BNE => a != b
    case BLT => S64(a) < S64(b)
    case BGE => S64(a) >= S64(b)
    case BLTU => a < b
    case BGEU => a >= b
  }

  /** A branch goes to pc plus the offset when its comparison holds and to the next instruction
      otherwise; it changes pc only. */
  lemma {:induction false} BranchStep(c: Csrs, r: Ref)
    requires FetchesOp(c, r, BRANCHES)
    ensures var i := Fetched(c, r);
            var target := (r.pc + SImm(i.imm)) % TWO64;
            var taken := Taken(i.id, r.regs[i.rs1], r.regs[i.rs2]);
            if !taken then RefStep(c, r) == Running(Ref(Next(r), r.regs, r.icount + 1, r.mem))
            else if target % 4 == 0 then RefStep(c, r) == Running(Ref(target, r.regs, r.icount + 1, r.mem))
            else RefStep(c, r) == Done(SIM_PC_ALIGN_ERROR, r)
  {
    hide FetchDecode, EffectOf, RefLoad, RefStore, Extended, WriteReg, Taken;
    BranchEffect(Fetched(c, r), r.pc, r.regs);
  }

  lemma {:induction false} BranchEffect(i: Instr, pc: Word, g: Regs)
    requires i.Op? && i.id in BRANCHES
    ensures var target := (pc + SImm(i.imm)) % TWO64;
            EffectOf(i, pc, g) ==
            if !Taken(i.id, g[i.rs1], g[i.rs2]) then Branch((pc + 4) % TWO64)
            else if target % 4 == 0 then Branch(target)
            else Return(SIM_PC_ALIGN_ERROR)
  {
    hide Imm, Signed, S64, AluOp, ShiftOp, MemoryOp;
    ImmIs(i);
    SignedIs(g[i.rs1], 0);
    SignedIs(g[i.rs2], 0);
  }

  const RA: Reg := 1

  /** A call and the return from a function that does nothing: back behind the call. */
  lemma {:induction false} CallAndReturn(c: Csrs, r: Ref)
    requires r.pc % 4 == 0 && FetchesOp(c, r, {JAL}) && Fetched(c, r).rd == RA
    requires var f := RefStep(c, r);
             f.Running? ==> Fetched(c, f.r) == Op(JALR, 0, RA, 0, 0)
    ensures RefStep(c, r).Running? ==>
              var back := RefRun(c, r, 2);
              && back.Running? && back.r.pc == Next(r) && back.r.mem == r.mem && back.r.regs[RA] == Next(r)
              && forall k :: 2 <= k < 32 ==> back.r.regs[k] == r.regs[k]
  {
    hide FetchDecode, RefExec, RefStep, RefRun;
    JumpStep(c, r);
    var f := RefStep(c, r);
    if f.Running? {
      JumpStep(c, f.r);
      TwoSteps(c, r);
    }
  }

  lemma {:induction false} TwoSteps(c: Csrs, r: Ref)
    requires RefStep(c, r).Running?
    ensures RefRun(c, r, 2) == RefStep(c, RefStep(c, r).r)
  {
    hide RefStep;
    var f := RefStep(c, r);
    assert RefRun(c, r, 2) == RefRun(c, f.r, 1);
    if RefStep(c, f.r).Running? { assert RefRun(c, RefStep(c, f.r).r, 0) == RefStep(c, f.r); }
  }

  // ---------------------------------------------------------------- loads and stores

  const SIGNED_LOADS: set<InstrId> := {LB, LH, LW, LD}

  const LOADS: set<InstrId> := {LB, LH, LW, LD, LBU, LHU, LWU}

  const STORES: set<InstrId> := {SB, SH, SW, SD}

  function BytesOf(id: InstrId): Width
    requires id in LOADS + STORES
  {
    match id
    case LB | LBU | SB => 1
    case LH | LHU | SH => 2
    case LW | LWU | SW => 4
    case LD | SD => 8
  }

  /** The effective address. */
  function Address(r: Ref, i: Instr): Word
    requires i.Op?
  {
    (r.regs[i.rs1] + SImm(i.imm)) % TWO64
  }

  /** x is the number v of n bytes, extended to 64 bits. */
  predicate Extends(x: Word, n: Width, v: nat, isSigned: bool) {
    if isSigned then S64(x) == (if v < Pow2(8 * n - 1) then v else v - Pow2(8 * n)) else x == v
  }

  lemma {:induction false} ExtendedIs(v: nat, n: Width, isSigned: bool)
    requires v < Pow2(8 * n)
    ensures Extends(Extended(v, n, isSigned), n, v, isSigned)
  {
    hide Pow2, Signed;
    Pow2Values();
    HalfPowers();
    if isSigned {
      SignedSmall(8 * n, v);
      SignedIs(Extended(v, n, true), 0);
    }
  }

  lemma {:induction false} SignedSmall(w: nat, v: nat)
    requires w > 0 && v < Pow2(w)
    ensures Signed(w, v) == if v < Pow2(w - 1) then v else v - Pow2(w)
  {
    hide Pow2;
    DivUnique(v, Pow2(w), 0, v);
  }

  /** A load takes its bytes from the translated address and extends them: LB, LH, LW and LD as
      signed numbers, LBU, LHU and LWU as unsigned ones.  An unsuccessful load ends the run with its
      status and changes nothing. */
  lemma {:induction false} LoadStep(c: Csrs, r: Ref) returns (v: nat, x: Word)
    requires FetchesOp(c, r, LOADS)
    ensures var i := Fetched(c, r);
            var n, va := BytesOf(i.id), Address(r, i);
            var t := Translate(c, r.mem, USER, READ, va);
            if va % n != 0 then RefStep(c, r) == Done(SIM_UNALIGNED_LOAD, r)
            else if t.status != OK then RefStep(c, r) == Done(t.status, r)
            else if ByteAt(r.mem, t.pa).None? then RefStep(c, r) == Done(PHYS_MEM_ACCESS_FAULT, r)
            else
              && HoldsNumber(r.mem, t.pa, n, v) && Extends(x, n, v, i.id in SIGNED_LOADS)
              && Writes(r, RefStep(c, r), i.rd, x, Next(r))
  {
    hide FetchDecode, Imm, Translate, RefLoad, Extended, Extends, Pow2, Shr;
    var i := Fetched(c, r);
    var n: int, va := BytesOf(i.id), Address(r, i);
    ImmIs(i);
    LoadExactly(c, r.mem, READ, va, n);
    v := RefLoad(c, r.mem, READ, va, n).value;
    x := Extended(v, n, i.id in SIGNED_LOADS);
    LoadEffect(i, r.pc, r.regs);
    if v < Pow2(8 * n) { ExtendedIs(v, n, i.id in SIGNED_LOADS); }
  }

  lemma {:induction false} LoadEffect(i: Instr, pc: Word, g: Regs)
    requires i.Op? && i.id in LOADS
    ensures EffectOf(i, pc, g) == Load(i.rd, Wrap(g[i.rs1] + Imm(i)), BytesOf(i.id), i.id in SIGNED_LOADS)
  {
    hide Imm, Wrap, AluOp, ShiftOp, BranchOp;
  }

  /** A store puts the low bytes of rs2 at the translated address and changes no other byte and no
      register.  An unsuccessful store ends the run with its status and changes nothing. */
  lemma {:induction false} StoreStep(c: Csrs, r: Ref)
    requires FetchesOp(c, r, STORES)
    ensures var i := Fetched(c, r);
            var n, va := BytesOf(i.id), Address(r, i);
            var t, s := Translate(c, r.mem, USER, WRITE, va), RefStep(c, r);
            if va % n != 0 then s == Done(SIM_UNALIGNED_STORE, r)
            else if t.status != OK then s == Done(t.status, r)
            else if ByteAt(r.mem, t.pa).None? then s == Done(PHYS_MEM_ACCESS_FAULT, r)
            else
              && s.Running? && s.r == Ref(Next(r), r.regs, r.icount + 1, s.r.mem)
              && Stores(r.mem, s.r.mem, t.pa, n, r.regs[i.rs2])
  {
    hide FetchDecode, Imm, Translate, RefStore, Pow2, Stores;
    var i := Fetched(c, r);
    var n: int, va, b: int := BytesOf(i.id), Address(r, i), r.regs[i.rs2];
    ImmIs(i);
    DivMod(b, Pow2(8 * n));
    StoreExactly(c, r.mem, va, n, b % Pow2(8 * n));
    LowBytes(r.mem, RefStore(c, r.mem, va, n, b % Pow2(8 * n)).mem, Translate(c, r.mem, USER, WRITE, va).pa, n, b);
    StoreEffectIs(i, r.pc, r.regs);
  }

  lemma {:induction false} StoreEffectIs(i: Instr, pc: Word, g: Regs)
    requires i.Op? && i.id in STORES
    ensures var e := EffectOf(i, pc, g);
            && e.Store? && e.va == Wrap(g[i.rs1] + Imm(i)) && e.n == BytesOf(i.id)
            && e.value == g[i.rs2] % Pow2(8 * BytesOf(i.id))
  {
    hide Imm, Pow2, Wrap, AluOp, ShiftOp, BranchOp;
  }

  /** Storing the low bytes of b is storing b, as far as n bytes go. */
  lemma {:induction false} LowBytes(m: Mem, m': Mem, pa: nat, n: Width, b: nat)
    requires b % Pow2(8 * n) >= 0
    ensures Stores(m, m', pa, n, b % Pow2(8 * n)) ==> Stores(m, m', pa, n, b)
  {
    hide Pow2, Shr, ByteAt;
    if Stores(m, m', pa, n, b % Pow2(8 * n)) {
      forall q: nat ensures StoredByte(m, m', pa, n, b, q) {
        assert StoredByte(m, m', pa, n, b % Pow2(8 * n), q);
        if pa <= q < pa + n { DigitOfMod(b, n, q - pa); }
      }
    }
  }

  lemma {:induction false} DigitOfMod(b: nat, n: nat, d: nat)
    requires d < n
    ensures b % Pow2(8 * n) >= 0 && Shr(b % Pow2(8 * n), 8 * d) % 256 == Shr(b, 8 * d) % 256
  {
    hide Pow2, Shr, FromLE, ToLE;
    DivMod(b, Pow2(8 * n));
    LERoundTrip(b, n);
    FromLEDigit(ToLE(b, n), d);
    ToLEDigit(b, n, d);
  }

  /** A byte that was stored loads as the low byte of the register, read as a signed number. */
  lemma {:induction false} StoreThenLoadByte(c: Csrs, r: Ref)
    requires FetchesOp(c, r, {SB}) && RefStep(c, r).Running?
    requires var r1 := RefStep(c, r).r;
             && FetchesOp(c, r1, {LB}) && Fetched(c, r1).rd != 0
             && Fetched(c, r1).rs1 == Fetched(c, r).rs1 && Fetched(c, r1).imm == Fetched(c, r).imm
             && Translate(c, r1.mem, USER, READ, Address(r, Fetched(c, r))) ==
                Translate(c, r.mem, USER, WRITE, Address(r, Fetched(c, r)))
    ensures var r1 := RefStep(c, r).r;
            var low: int, s := r.regs[Fetched(c, r).rs2] % 256, RefStep(c, r1);
            s.Running? && S64(s.r.regs[Fetched(c, r1).rd]) == if low < 128 then low else low - 256
  {
    hide FetchDecode, Translate, RefStep, ByteAt, Stores, HoldsNumber, Extends, Address;
    StoreStep(c, r);
    var r1 := RefStep(c, r).r;
    var v, x := LoadStep(c, r1);
    SameAddress(r, r1, Fetched(c, r), Fetched(c, r1));
    var pa, b := Translate(c, r.mem, USER, WRITE, Address(r, Fetched(c, r))).pa, r.regs[Fetched(c, r).rs2];
    OneByte(r.mem, r1.mem, pa, b, v, x);
  }

  lemma {:induction false} SameAddress(r: Ref, r1: Ref, i: Instr, i1: Instr)
    requires i.Op? && i1.Op? && i.rs1 == i1.rs1 && i.imm == i1.imm && r.regs == r1.regs
    ensures Address(r, i) == Address(r1, i1)
  {
  }

  lemma {:induction false} OneByte(m: Mem, m': Mem, pa: nat, b: nat, v: nat, x: Word)
    requires Stores(m, m', pa, 1, b)
    ensures ByteAt(m', pa) == Some(b % 256)
    ensures HoldsNumber(m', pa, 1, v) && Extends(x, 1, v, true) ==>
              S64(x) == if b % 256 < 128 then b % 256 else b % 256 - 256
  {
    hide Shr, Pow2, ByteAt;
    assert StoredByte(m, m', pa, 1, b, pa);
    ShrZero(b);
    ShrZero(v);
    Pow2Values();
    HalfPowers();
    if HoldsNumber(m', pa, 1, v) { assert ByteAt(m', pa + 0) == Some(v % 256); }
  }

  // ---------------------------------------------------------------- arithmetic

  const ARITHMETIC: set<InstrId> :=
    {ADD, SUB, SLT, SLTU, ADDI, SLTI, SLTIU, ADDIW, ADDW, SUBW, LUI, AUIPC}

  /** Sums and differences wrap; the W forms keep the low 32 bits, sign-extended; comparisons give 0
      or 1.  AUIPC takes its immediate as unsigned. */
  predicate Computes(i: Instr, pc: Word, a: Word, b: Word, v: Word)
    requires i.Op? && i.id in ARITHMETIC
  {
    var s := SImm(i.imm);
    match i.id
    case ADD => (v - (a + b)) % TWO64 == 0
    case SUB => (v - (a - b)) % TWO64 == 0
    case ADDI => (v - (a + s)) % TWO64 == 0
    case LUI => (v - s) % TWO64 == 0
    case AUIPC => (v - (pc + i.imm)) % TWO64 == 0
    case ADDW => S64(v) == S32(a + b)
    case SUBW => S64(v) == S32(a - b)
    case ADDIW => S64(v) == S32(a + s)
    case SLT => v == if S64(a) < S64(b) then 1 else 0
    case SLTU => v == if a < b then 1 else 0
    case SLTI => v == if S64(a) < s then 1 else 0
    case SLTIU => v == if a < s % TWO64 then 1 else 0
  }

  lemma {:induction false} WrapIs(x: int)
    ensures (Wrap(x) - x) % TWO64 == 0
  {
  }

  lemma {:induction false} Sext32Is(x: int)
    ensures S64(Sext32(x)) == S32(x)
  {
    hide Signed;
    SignedIs(0, x);
  }

  lemma {:induction false} SameLow(x: int, y: int)
    requires (x - y) % 0x1_0000_0000 == 0
    ensures S32(x) == S32(y)
  {
  }

  lemma {:induction false} ArithmeticStep(c: Csrs, r: Ref) returns (v: Word)
    requires FetchesOp(c, r, ARITHMETIC)
    ensures var i := Fetched(c, r);
            Writes(r, RefStep(c, r), i.rd, v, Next(r)) && Computes(i, r.pc, r.regs[i.rs1], r.regs[i.rs2], v)
  {
    hide FetchDecode, EffectOf, RefLoad, RefStore, Extended, Computes, AluOp;
    var i := Fetched(c, r);
    v := ArithmeticOp(i, r.pc, r.regs[i.rs1], r.regs[i.rs2]);
    ArithmeticEffect(i, r.pc, r.regs);
  }

  lemma {:induction false} ArithmeticEffect(i: Instr, pc: Word, g: Regs)
    requires i.Op? && i.id in ARITHMETIC
    ensures EffectOf(i, pc, g) == AluOp(i, pc, g[i.rs1], g[i.rs2])
  {
    hide AluOp, ShiftOp, BranchOp, MemoryOp;
  }

  lemma {:induction false} ArithmeticOp(i: Instr, pc: Word, a: Word, b: Word) returns (v: Word)
    requires i.Op? && i.id in ARITHMETIC
    ensures AluOp(i, pc, a, b) == SetReg(i.rd, v) && Computes(i, pc, a, b, v)
  {
    hide Imm, Signed, Sext32, Wrap, And64, Or64, Xor64, S32, S64;
    var s := SImm(i.imm);
    ImmIs(i);
    SignedIs(a, 0);
    SignedIs(b, 0);
    WrapIs(a + b);
    WrapIs(a - b);
    WrapIs(a + s);
    WrapIs(s);
    WrapIs(pc + i.imm);
    Sext32Is(a + b);
    Sext32Is(a - b);
    Sext32Is(i.imm + a);
    SameLow(i.imm + a, a + s);
    WrapMod(s);
    v := AluOp(i, pc, a, b).value;
  }

  lemma {:induction false} WrapMod(x: int)
    ensures Wrap(x) == x % TWO64
  {
  }

  /** AUIPC adds the sign-extended immediate, as the ISA has it, exactly when bit 31 is clear. */
  lemma {:induction false} AuipcExactly(pc: Word, imm: Word32)
    ensures (pc + imm) % TWO64 == (pc + SImm(imm)) % TWO64 <==> imm < 0x8000_0000
  {
  }

  // ---------------------------------------------------------------- bitwise operations and shifts

  const BITWISE: set<InstrId> := {AND, OR, XOR, ANDI, ORI, XORI}

  const IMMEDIATE_SHIFTS: set<InstrId> := {SLLI, SRLI, SRAI, SLLIW, SRLIW, SRAIW}

  const REGISTER_SHIFTS: set<InstrId> := {SLL, SRL, SRA, SLLW, SRLW, SRAW}

  /** Bit k of the sign-extended immediate. */
  predicate ImmBit(imm: Word32, k: nat) { Bit(imm, if k < 32 then k else 31) }

  predicate BitwiseBit(id: InstrId, x: bool, y: bool)
    requires id in BITWISE
  {
    match id
    case AND | ANDI => x && y
    case OR | ORI => x || y
    case XOR | XORI => x != y
  }

  lemma {:induction false} ImmBits(imm: Word32, k: nat)
    requires k < 64
    ensures Bit(SImm(imm) % TWO64, k) == ImmBit(imm, k)
  {
    hide Pow2, Bit;
    Pow2Values();
    HalfPowers();
    if imm < 0x8000_0000 {
      if k >= 31 {
        SmallBits(imm, 31, k);
        SmallBits(imm, 31, 31);
      }
    } else {
      var ones := 0xFFFF_FFFF;
      assert SImm(imm) % TWO64 == ones * 0x1_0000_0000 + imm;
      BitOfConcat(ones, imm, 32, k);
      if k >= 32 { BitOfOnes(32, k - 32); }
      TopBit(imm, 31);
    }
  }

  lemma {:induction false} TopBit(x: nat, w: nat)
    requires Pow2(w) <= x < Pow2(w + 1)
    ensures Bit(x, w)
  {
    BitOfConcat(1, x - Pow2(w), w, w);
  }

  lemma {:induction false} BitwiseStep(c: Csrs, r: Ref) returns (v: Word)
    requires FetchesOp(c, r, BITWISE)
    ensures var i := Fetched(c, r);
            && Writes(r, RefStep(c, r), i.rd, v, Next(r))
            && forall k: nat :: k < 64 ==>
                 Bit(v, k) == BitwiseBit(i.id, Bit(r.regs[i.rs1], k),
                                         if i.id in {AND, OR, XOR} then Bit(r.regs[i.rs2], k) else ImmBit(i.imm, k))
  {
    hide FetchDecode, RefLoad, RefStore, Extended, Imm, And64, Or64, Xor64, Bit;
    var i := Fetched(c, r);
    var a := r.regs[i.rs1];
    var b := if i.id in {AND, OR, XOR} then r.regs[i.rs2] else SImm(i.imm) % TWO64;
    ImmIs(i);
    v := if i.id in {AND, ANDI} then And64(a, b) else if i.id in {OR, ORI} then Or64(a, b) else Xor64(a, b);
    BitwiseEffect(i, r.pc, r.regs, v);
    forall k: nat | k < 64
      ensures Bit(v, k) == BitwiseBit(i.id, Bit(a, k),
                                      if i.id in {AND, OR, XOR} then Bit(r.regs[i.rs2], k) else ImmBit(i.imm, k))
    {
      if i.id !in {AND, OR, XOR} { ImmBits(i.imm, k); }
      BitsOfResults(a, b, k);
    }
  }

  lemma {:induction false} BitsOfResults(a: Word, b: Word, k: nat)
    ensures Bit(And64(a, b), k) == (Bit(a, k) && Bit(b, k))
    ensures Bit(Or64(a, b), k) == (Bit(a, k) || Bit(b, k))
    ensures Bit(Xor64(a, b), k) == (Bit(a, k) != Bit(b, k))
  {
    hide Bit;
    BitOfAnd(a, b, k);
    BitOfOr(a, b, k);
    BitOfXor(a, b, k);
  }

  lemma {:induction false} BitwiseEffect(i: Instr, pc: Word, g: Regs, v: Word)
    requires i.Op? && i.id in BITWISE
    requires var a := g[i.rs1];
             var b := if i.id in {AND, OR, XOR} then g[i.rs2] else SImm(i.imm) % TWO64;
             v == if i.id in {AND, ANDI} then And64(a, b) else if i.id in {OR, ORI} then Or64(a, b) else Xor64(a, b)
    ensures EffectOf(i, pc, g) == SetReg(i.rd, v)
  {
    hide Imm, And64, Or64, Xor64, SImm, BranchOp, ShiftOp, MemoryOp;
    ImmIs(i);
  }

  predicate IsWordShift(id: InstrId) { id in {SLLIW, SRLIW, SRAIW, SLLW, SRLW, SRAW} }

  /** Bit k of the shifted value: zeros come in, or for SRA and its relatives copies of the top bit.
      The W forms shift the low 32 bits and sign-extend the result. */
  predicate ShiftedBit(id: InstrId, a: Word, n: nat, k: nat)
    requires id in IMMEDIATE_SHIFTS + REGISTER_SHIFTS
  {
    var w := if IsWordShift(id) then 32 else 64;
    var j := if k < w then k else w - 1;
    match id
    case SLLI | SLL | SLLIW | SLLW => n <= j && Bit(a, j - n)
    case SRLI | SRL | SRLIW | SRLW => j + n < w && Bit(a, j + n)
    case SRAI | SRA | SRAIW | SRAW => Bit(a, if j + n < w then j + n else w - 1)
  }

  /** Arithmetic shift of a w-bit word, sign-extended to 64 bits. */
  lemma {:induction false} SarBit(w: nat, a: nat, n: nat, k: nat)
    requires 0 < w <= 64 && a < Pow2(w) && n < w && k < 64
    ensures Bit(Sar(Signed(w, a), n) % TWO64, k) == Bit(a, if k + n < w then k + n else w - 1)
  {
    hide Pow2, Bit, Sar, Signed;
    BitOfShr(a, n, k);
    if a < Pow2(w - 1) {
      PositiveShift(w, a, n);
      if k + n >= w - 1 {
        SmallBits(a, w - 1, k + n);
        SmallBits(a, w - 1, w - 1);
      }
    } else {
      SignedSmall(w, a);
      TopBit(a, w - 1);
      NegativeShift(w, a, n);
      BitOfConcat(Pow2(64 - w + n) - 1, a / Pow2(n), w - n, k);
      if k >= w - n { BitOfOnes(64 - w + n, k - (w - n)); }
    }
  }

  lemma {:induction false} PositiveShift(w: nat, a: nat, n: nat)
    requires 0 < w <= 64 && a < Pow2(w - 1)
    ensures Sar(Signed(w, a), n) % TWO64 == a / Pow2(n)
  {
    hide Pow2, Signed;
    Pow2Values();
    Pow2Monotone(w - 1, w);
    Pow2Monotone(w, 64);
    SignedSmall(w, a);
    QuotientSmall(a, Pow2(n));
    DivUnique(a / Pow2(n), TWO64, 0, a / Pow2(n));
  }

  lemma {:induction false} QuotientSmall(a: nat, p: nat)
    requires p > 0
    ensures 0 <= a / p <= a
  {
    DivMod(a, p);
    if a / p >= 1 { MulAtLeast(p, a / p); }
  }

  /** A negative number shifted: ones come in from the left. */
  lemma {:induction false} NegativeShift(w: nat, a: nat, n: nat)
    requires 0 < w <= 64 && a < Pow2(w) && n < w && Signed(w, a) == a - Pow2(w)
    ensures a / Pow2(n) >= 0 && a / Pow2(n) < Pow2(w - n)
    ensures Sar(Signed(w, a), n) % TWO64 == (Pow2(64 - w + n) - 1) * Pow2(w - n) + a / Pow2(n)
  {
    hide Pow2, Signed;
    Pow2Values();
    DivMod(a, Pow2(n));
    Pow2Add(n, w - n);
    Pow2Add(64 - w + n, w - n);
    Pow2Monotone(w - n, 64);
    FloorBelowZero(a, Pow2(n), Pow2(w - n));
    OnesAbove(a / Pow2(n), Pow2(w - n), Pow2(64 - w + n));
  }

  /** Rounding down a - p * top. */
  lemma {:induction false} FloorBelowZero(a: nat, p: nat, top: nat)
    requires p > 0 && a < p * top
    ensures 0 <= a / p < top && (a - p * top) / p == a / p - top
  {
    DivMod(a, p);
    var q, rest := a / p, a % p;
    if q >= top { MulMono(top, q, p); }
    Distribute(q, top, p);
    IntDivUnique(a - p * top, p, q - top, rest);
  }

  lemma {:induction false} Distribute(x: int, y: int, p: int)
    ensures (x - y) * p == x * p - p * y
  {
  }

  lemma {:induction false} OnesAbove(q: nat, top: nat, high: nat)
    requires q < top && high * top == TWO64 && top <= TWO64
    ensures (q - top) % TWO64 == (high - 1) * top + q
  {
    Distribute(high, 1, top);
    assert (high - 1) * top + q == TWO64 - top + q;
  }

  lemma {:induction false} MulMono(x: nat, y: nat, p: nat)
    requires x <= y
    ensures x * p <= y * p
  {
  }

  lemma {:induction false} IntDivUnique(x: int, p: nat, q: int, rest: nat)
    requires rest < p && x == q * p + rest
    ensures x / p == q
  {
    if x / p > q {
      MulMono(1, x / p - q, p);
    } else if x / p < q {
      MulMono(1, q - x / p, p);
    }
  }

  lemma {:induction false} SextBit(x: nat, k: nat)
    requires k < 64
    ensures Bit(Sext32(x), k) == Bit(x, if k < 32 then k else 31)
  {
    hide Pow2, Bit, Signed;
    Pow2Values();
    var low := x % 0x1_0000_0000;
    SignedIs(0, x);
    SignedIs(0, low);
    SarBit(32, low, 0, k);
    Pow2Zero();
    BitOfMod(x, 32, if k < 32 then k else 31);
  }

  lemma {:induction false} ShiftBits(id: InstrId, a: Word, n: nat, k: nat)
    requires k < 64 && id in IMMEDIATE_SHIFTS + REGISTER_SHIFTS && n < if IsWordShift(id) then 32 else 64
    ensures Shr(Low32(a), n) >= 0
    ensures id in {SLLI, SLL} ==> Bit(Wrap(a * Pow2(n)), k) == ShiftedBit(id, a, n, k)
    ensures id in {SRLI, SRL} ==> Bit(Wrap(Shr(a, n)), k) == ShiftedBit(id, a, n, k)
    ensures id in {SRAI, SRA} ==> Bit(Wrap(Sar(Signed(64, a), n)), k) == ShiftedBit(id, a, n, k)
    ensures id in {SLLIW, SLLW} ==> Bit(Sext32(Low32(a) * Pow2(n)), k) == ShiftedBit(id, a, n, k)
    ensures id in {SRLIW, SRLW} ==> Bit(Sext32(Shr(Low32(a), n)), k) == ShiftedBit(id, a, n, k)
    ensures id in {SRAIW, SRAW} ==> Bit(Wrap(Sar(Signed(32, a), n)), k) == ShiftedBit(id, a, n, k)
  {
    hide Pow2, Bit, Signed, Sext32, Sar, Shr, ShiftedBit, Low32;
    LowWord(a);
    ShrBit(Low32(a), 32, n, k);
    if IsWordShift(id) {
      WordShiftBits(id, a, n, k);
    } else {
      LongShiftBits(id, a, n, k);
    }
  }

  lemma {:induction false} LowWord(a: Word)
    ensures Low32(a) < Pow2(32) && Low32(a) == a % Pow2(32)
  {
    hide Pow2;
    Pow2Values();
  }

  lemma {:induction false} LongShiftBits(id: InstrId, a: Word, n: nat, k: nat)
    requires k < 64 && id in IMMEDIATE_SHIFTS + REGISTER_SHIFTS && n < 64 && !IsWordShift(id)
    ensures id in {SLLI, SLL} ==> Bit(Wrap(a * Pow2(n)), k) == ShiftedBit(id, a, n, k)
    ensures id in {SRLI, SRL} ==> Bit(Wrap(Shr(a, n)), k) == ShiftedBit(id, a, n, k)
    ensures id in {SRAI, SRA} ==> Bit(Wrap(Sar(Signed(64, a), n)), k) == ShiftedBit(id, a, n, k)
  {
    hide Pow2, Bit, Signed, Sar, Shr;
    Pow2Values();
    match id
    case SLLI | SLL => BitOfShl(64, a, n, k);
    case SRLI | SRL => ShrBit(a, 64, n, k);
    case SRAI | SRA => SarBit(64, a, n, k);
  }

  lemma {:induction false} WordShiftBits(id: InstrId, a: Word, n: nat, k: nat)
    requires k < 64 && id in IMMEDIATE_SHIFTS + REGISTER_SHIFTS && n < 32 && IsWordShift(id)
    ensures Shr(Low32(a), n) >= 0
    ensures id in {SLLIW, SLLW} ==> Bit(Sext32(Low32(a) * Pow2(n)), k) == ShiftedBit(id, a, n, k)
    ensures id in {SRLIW, SRLW} ==> Bit(Sext32(Shr(Low32(a), n)), k) == ShiftedBit(id, a, n, k)
    ensures id in {SRAIW, SRAW} ==> Bit(Wrap(Sar(Signed(32, a), n)), k) == ShiftedBit(id, a, n, k)
  {
    hide Pow2, Bit, Signed, Sext32, Sar, Shr, Low32;
    Pow2Values();
    LowWord(a);
    var low := Low32(a);
    var j := if k < 32 then k else 31;
    match id
    case SLLIW | SLLW =>
      SextBit(low * Pow2(n), k);
      BitOfProduct(low, n, j);
      if n <= j { BitOfMod(a, 32, j - n); }
    case SRLIW | SRLW =>
      SextBit(Shr(low, n), k);
      ShrBit(low, 32, n, j);
      BitOfMod(a, 32, j + n);
    case SRAIW | SRAW =>
      SameSigned(a);
      SarBit(32, low, n, k);
      BitOfMod(a, 32, if k + n < 32 then k + n else 31);
  }

  lemma {:induction false} SameSigned(a: Word)
    ensures Signed(32, Low32(a)) == Signed(32, a)
  {
    hide Signed;
    SignedIs(0, a);
    SignedIs(0, Low32(a));
  }

  lemma {:induction false} BitOfProduct(x: nat, n: nat, k: nat)
    ensures Bit(x * Pow2(n), k) == (n <= k && Bit(x, k - n))
  {
    hide Pow2, Bit;
    BitOfConcat(x, 0, n, k);
    if k < n { BitOfZero(k); }
  }

  lemma {:induction false} ShrBit(x: nat, w: nat, n: nat, k: nat)
    requires x < Pow2(w)
    ensures Bit(Shr(x, n), k) == (k + n < w && Bit(x, k + n)) && Shr(x, n) <= x
  {
    hide Pow2, Bit;
    BitOfShr(x, n, k);
    QuotientSmall(x, Pow2(n));
    if k + n >= w { SmallBits(x, w, k + n); }
  }

  /** The amount of a shift: an immediate, or the low byte of rs2. */
  function Amount(r: Ref, i: Instr): nat
    requires i.Op?
  {
    if i.id in IMMEDIATE_SHIFTS then i.imm else r.regs[i.rs2] % 256
  }

  function Limit(id: InstrId): nat { if IsWordShift(id) then 32 else 64 }

  /** A shift by less than the width does what the ISA says; register amounts are not cut to the width
      but only to a byte, and a larger one is undefined. */
  lemma {:induction false} ShiftStep(c: Csrs, r: Ref) returns (v: Word)
    requires FetchesOp(c, r, IMMEDIATE_SHIFTS + REGISTER_SHIFTS)
    ensures var i := Fetched(c, r);
            var n := Amount(r, i);
            if n < Limit(i.id) then
              && Writes(r, RefStep(c, r), i.rd, v, Next(r))
              && forall k: nat :: k < 64 ==> Bit(v, k) == ShiftedBit(i.id, r.regs[i.rs1], n, k)
            else RefStep(c, r) == Done(ABORT, r)
  {
    hide FetchDecode, RefLoad, RefStore, Extended, Bit, ShiftOp, ShiftedBit;
    var i := Fetched(c, r);
    var n, a := Amount(r, i), r.regs[i.rs1];
    ShiftEffect(i, r);
    v := 0;
    if n < Limit(i.id) {
      v := ShiftOp(i, a, r.regs[i.rs2]).value;
      forall k: nat | k < 64 ensures Bit(v, k) == ShiftedBit(i.id, a, n, k) { ShiftValue(i, r, k); }
    }
  }

  lemma {:induction false} AmountIs(b: Word)
    ensures ShiftAmount(5, b) == b % 256 && ShiftAmount(4, b) == b % 256
  {
    hide MaskBits8, Pow2;
    MaskBits8DoesNotMask(5, b % 256);
    MaskBits8DoesNotMask(4, b % 256);
  }

  lemma {:induction false} ShiftEffect(i: Instr, r: Ref)
    requires i.Op? && i.id in IMMEDIATE_SHIFTS + REGISTER_SHIFTS
    ensures EffectOf(i, r.pc, r.regs) == ShiftOp(i, r.regs[i.rs1], r.regs[i.rs2])
    ensures var e := ShiftOp(i, r.regs[i.rs1], r.regs[i.rs2]);
            if Amount(r, i) < Limit(i.id) then e.SetReg? && e.rd == i.rd else e == Return(ABORT)
  {
    hide ShiftAmount, Wrap, Sext32, Sar, Shr, Signed, Low32, Pow2;
    AmountIs(r.regs[i.rs2]);
  }

  lemma {:induction false} ShiftValue(i: Instr, r: Ref, k: nat)
    requires i.Op? && i.id in IMMEDIATE_SHIFTS + REGISTER_SHIFTS && k < 64 && Amount(r, i) < Limit(i.id)
    requires ShiftOp(i, r.regs[i.rs1], r.regs[i.rs2]).SetReg?
    ensures Bit(ShiftOp(i, r.regs[i.rs1], r.regs[i.rs2]).value, k) == ShiftedBit(i.id, r.regs[i.rs1], Amount(r, i), k)
  {
    hide ShiftAmount, Wrap, Sext32, Sar, Shr, Signed, Low32, Pow2, Bit, ShiftedBit;
    AmountIs(r.regs[i.rs2]);
    ShiftBits(i.id, r.regs[i.rs1], Amount(r, i), k);
  }

  /** Register shifts use the amount that the ISA prescribes, modulo the width, exactly when the low
      byte of rs2 is below the width. */
  lemma {:induction false} AmountExactly(r: Ref, i: Instr)
    requires i.Op? && i.id in REGISTER_SHIFTS
    ensures Amount(r, i) == r.regs[i.rs2] % Limit(i.id) <==> r.regs[i.rs2] % 256 < Limit(i.id)
  {
  }

  // ---------------------------------------------------------------- environment calls

  /** ECALL retires and exits; it writes nothing. */
  lemma {:induction false} EcallStep(c: Csrs, r: Ref)
    requires FetchesOp(c, r, {ECALL})
    ensures RefStep(c, r) == Done(SIM_EXIT, Ref(Next(r), r.regs, r.icount + 1, r.mem))
  {
    hide FetchDecode;
  }

  /** An instruction without a handler loses the process; a fetch failure or an illegal word ends the
      run with its status. */
  lemma {:induction false} OtherStep(c: Csrs, r: Ref)
    requires Fetched(c, r).Op? ==> Fetched(c, r).id == UNIMPLEMENTED
    ensures RefStep(c, r) == Done(if Fetched(c, r).Op? then ABORT else Fetched(c, r).status, r)
  {
    hide FetchDecode;
  }
}
