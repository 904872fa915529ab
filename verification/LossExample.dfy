/** A memory on which filling a block ends the process although the program itself would exit
    normally: the last two words of a page are a no-op and an ECALL, which does not end a block, and
    the next page has an entry without A and D.  The mapper never writes such an entry. */
module LossExample {
  import opened Common
  import opened Bits
  import opened Instr
  import opened PhysMem
  import opened Pte
  import opened Mmu
  import opened MmuTheory
  import opened MapperTheory
  import opened Decoder
  import opened DecoderTheory
  import opened Tlb
  import opened Exec
  import opened Access
  import opened Block
  import opened Machine
  import opened Track
  import opened Refinement
  import opened RunTheorems

  const CSRS := Csrs(SV39, 0, false, false)

  /** The last two words below 1 GiB. */
  const PC: nat := 0x3FFF_FFF8

  /** V, R, X, U, A and D for the first GiB, mapped to itself. */
  const GOOD_PTE: nat := 0xDB

  /** V, R, X and U for the second one. */
  const BAD_PTE: nat := 0x1B

  const NOP := Op(ADDI, 0, 0, 0, 0)
  const CALL := Op(ECALL, 0, 0, 0, 0)

  function Root(): Page { seq(PAGE_SIZE, i => if i == 0 then GOOD_PTE else if i == 8 then BAD_PTE else 0) }

  ghost function Code(): Page {
    LegalOps();
    Splice(ZeroPage(), 0xFF8, ToLE(Encode(NOP), 4) + ToLE(Encode(CALL), 4))
  }

  lemma {:induction false} LegalOps()
    ensures Canonical(NOP) && Canonical(CALL)
  {
  }

  ghost function Image(): Mem { map[0 := Root(), 0x3_FFFF := Code()] }

  ghost function Host(): Phys {
    Phys(map[0 := HostPage(0, 0), 0x3_FFFF := HostPage(0, 1)], [[Root(), Code()]])
  }

  ghost function Machine0(): Fast {
    Fast(PC, seq(32, _ => 0), 0, Host(), Empty(), Empty(), Empty(), seq(BB_CACHE_SIZE, _ => DefaultBb()))
  }

  lemma {:induction false} ImageIs()
    ensures ValidFast(Machine0()) && Flat(Machine0().ph) == Image()
  {
    hide Root, Code;
  }

  // ---------------------------------------------------------------- translation

  lemma {:induction false} RootEntry(idx: nat)
    requires idx < 512
    ensures PteAt(Image(), 0, idx) == if idx == 0 then GOOD_PTE else if idx == 1 then BAD_PTE else 0
  {
    hide FromLE, Code;
    LowByte(Root()[8 * idx..8 * idx + 8]);
  }

  lemma {:induction false} LowByte(b: seq<Byte>)
    requires |b| > 0 && forall i :: 1 <= i < |b| ==> b[i] == 0
    ensures FromLE(b) == b[0]
  {
    ZeroWord(b[1..]);
  }

  lemma {:induction false} PteBits()
    ensures V(GOOD_PTE) && R(GOOD_PTE) && !W(GOOD_PTE) && X(GOOD_PTE) && U(GOOD_PTE) && A(GOOD_PTE) && D(GOOD_PTE)
    ensures V(BAD_PTE) && R(BAD_PTE) && !W(BAD_PTE) && X(BAD_PTE) && U(BAD_PTE) && !A(BAD_PTE) && !D(BAD_PTE)
    ensures !V(0) && !Reserved(GOOD_PTE) && !Reserved(BAD_PTE)
  {
    hide Reserved;
    assert 0xDB / 2 == 109 && 109 / 2 == 54 && 54 / 2 == 27 && 27 / 2 == 13 && 13 / 2 == 6 && 6 / 2 == 3 && 3 / 2 == 1;
    assert 0x1B / 2 == 13 && 1 / 2 == 0;
    SmallNotReserved(GOOD_PTE);
    SmallNotReserved(BAD_PTE);
  }

  lemma {:induction false} SmallNotReserved(pte: nat)
    requires pte < 256
    ensures !Reserved(pte)
  {
    hide ReservedMask, Pow2;
    Pow2Values();
    forall i: nat ensures Bit(And(pte, ReservedMask()), i) == Bit(0, i) {
      BitOfAnd(pte, ReservedMask(), i);
      ReservedMaskBits(i);
      BitOfZero(i);
      if i >= 8 { SmallBits(pte, 8, i); }
    }
    BitExt(And(pte, ReservedMask()), 0);
  }

  /** The walk ends at the root table. */
  lemma {:induction false} RootWalk(va: nat)
    ensures var idx := (va / 0x4000_0000) % 512;
            WalkTable(Image(), va, 2, 0) ==
            if idx == 0 then Leaf(GOOD_PTE, 2) else if idx == 1 then Leaf(BAD_PTE, 2) else Fault(MMU64_PAGE_FAULT)
  {
    hide V, R, W, X, Reserved, PteAt, FromLE, Root, Code, Read, Pow2, GetBitField;
    var idx: nat := (va / 0x4000_0000) % 512;
    assert GetVpn(va, 2) == idx by {
      Pow2Values();
      Pow2Add(12, 9);
      Pow2Add(21, 9);
      GetValue(64, 38, 30, va);
    }
    RootEntry(idx);
    ReadPte(Image(), 0, idx);
    PteBits();
  }

  lemma {:induction false} FirstGiB(va: nat)
    requires va < 0x4000_0000
    ensures Translate(CSRS, Image(), USER, FETCH, va) == Result(OK, va)
  {
    hide WalkTable, V, R, W, X, U, A, D, Reserved, Pow2, GetBitField, CalcPhysAddr, Image;
    RootWalk(va);
    PteBits();
    Pow2Values();
    Pow2Add(9, 9);
    GetValue(64, 27, 10, GOOD_PTE);
    GetValue(64, PTE_PPN_HI, PTE_PPN_LO, GOOD_PTE);
    assert GOOD_PTE / 1024 == 0;
    LeafAddress(GOOD_PTE, va, 2);
    assert (va / PAGE_SIZE) % 0x4_0000 == va / PAGE_SIZE;
  }

  lemma {:induction false} SecondGiB()
    ensures Translate(CSRS, Image(), USER, FETCH, 0x4000_0000) == Result(ABORT, 0)
  {
    hide WalkTable, V, R, W, X, U, A, D, Reserved, Pow2, GetBitField, CalcPhysAddr, Image;
    RootWalk(0x4000_0000);
    PteBits();
    Pow2Values();
    Pow2Add(9, 9);
    GetValue(64, 27, 10, BAD_PTE);
    assert BAD_PTE / 1024 == 0;
  }

  lemma {:induction false} NoUserStores()
    ensures Isolated(CSRS, Image(), {TableRef(2, 0)})
  {
    hide WalkTable, V, R, W, X, U, A, D, Reserved, Translate, PteAt, Root, Code;
    PteBits();
    forall idx: nat | idx < 512 ensures !IsPointer(PteAt(Image(), 0, idx)) { RootEntry(idx); }
    forall va: nat ensures StoreAvoids(CSRS, Image(), {TableRef(2, 0)}, va) {
      RootWalk(va);
      if Translate(CSRS, Image(), USER, WRITE, va).status == OK {
        TranslatePermissions(CSRS, Image(), USER, WRITE, va);
      }
    }
  }

  // ---------------------------------------------------------------- the program

  lemma {:induction false} CodeWord(i: Instr, off: nat)
    requires (i == NOP && off == 0xFF8) || (i == CALL && off == 0xFFC)
    ensures Canonical(i) && Code()[off..off + 4] == ToLE(Encode(i), 4)
  {
    hide Encode, ToLE, ZeroPage;
    LegalOps();
  }

  lemma {:induction false} Fetched(i: Instr, va: nat)
    requires (i == NOP && va == PC) || (i == CALL && va == PC + 4)
    ensures FetchDecode(CSRS, Image(), va) == i
  {
    hide Translate, Decode, Encode, Code, Root, FromLE, ToLE, Pow2;
    FirstGiB(va);
    CodeWord(i, va % PAGE_SIZE);
    EncodeSmall(i);
    LERoundTrip(Encode(i), 4);
    DivUnique(Encode(i), Pow2(32), 0, Encode(i));
    DecodeEncode(i);
  }

  lemma {:induction false} EncodeSmall(i: Instr)
    requires Canonical(i)
    ensures Encode(i) < Pow2(32)
  {
    hide Pow2, EncodeSlots;
    Pow2Values();
  }

  lemma {:induction false} LostFetch()
    ensures FetchDecode(CSRS, Image(), 0x4000_0000) == Status(ABORT)
  {
    hide Translate, Image;
    SecondGiB();
  }

  lemma {:induction false} LostWindow()
    ensures WindowLost(CSRS, Image(), PC, 0) && OffPoison(CSRS, Image(), PC, 0)
  {
    hide FetchDecode, Image;
    Fetched(NOP, PC);
    Fetched(CALL, PC + 4);
    LostFetch();
    assert EntryVa(PC, 0) == PC && EntryVa(PC, 1) == PC + 4 && EntryVa(PC, 2) == 0x4000_0000;
    assert WindowLost(CSRS, Image(), PC, 2) && OffPoison(CSRS, Image(), PC, 2);
    assert WindowLost(CSRS, Image(), PC, 1) && OffPoison(CSRS, Image(), PC, 1);
  }

  lemma {:induction false} Effects(pc: Word, g: Regs)
    ensures EffectOf(NOP, pc, g).SetReg? && EffectOf(CALL, pc, g) == Exit
  {
    hide Wrap, Sext32, Low32, And64, Or64, Xor64, Imm, Bool, ShiftOp, MemoryOp, BranchOp;
  }

  lemma {:induction false} TwoSteps(r: Ref)
    requires r.pc == PC && r.mem == Image()
    ensures var r1 := RefStep(CSRS, r);
            && r1.Running? && r1.r.pc == PC + 4 && r1.r.mem == Image()
            && RefStep(CSRS, r1.r) == Done(SIM_EXIT, Retire(r1.r, PC + 8))
  {
    hide FetchDecode, Image, EffectOf, WriteReg, RefLoad, RefStore, Extended;
    Fetched(NOP, PC);
    Fetched(CALL, PC + 4);
    Effects(r.pc, r.regs);
    Effects(RefStep(CSRS, r).r.pc, RefStep(CSRS, r).r.regs);
  }

  lemma {:induction false} RunIsSafe(t: Track)
    requires t.pos == 0 && t.r.pc == PC && t.r.mem == Image()
    ensures SafeRun(CSRS, t)
  {
    hide FetchDecode, Image, RefStep, WindowBytes, OffPoison, EffectOf;
    TwoSteps(t.r);
    Effects(t.r.pc, t.r.regs);
    Effects(RefStep(CSRS, t.r).r.pc, RefStep(CSRS, t.r).r.regs);
    LostWindow();
    Fetched(NOP, PC);
    Fetched(CALL, PC + 4);
    var t1 := Following(CSRS, t);
    assert StepSafe(CSRS, t) && StepSafe(CSRS, t1);
    forall k: nat ensures SafeFor(CSRS, t, k) {
      assert k > 1 ==> SafeFor(CSRS, t1, k - 1);
    }
  }

  /** The reference machine exits after two instructions; the simulator, which meets every condition
      of the refinement but survival, loses the process in its first iteration. */
  lemma {:induction false} BlockFillLosesTheProcess()
    ensures var s := Machine0();
            && ValidFast(s)
            && var t := Track(Abs(s), 0, iset{});
               && Inv(CSRS, s, {TableRef(2, 0)}, iset{}) && SafeRun(CSRS, t) && !Survives(CSRS, t)
               && RefRun(CSRS, Abs(s), 2).Done? && RefRun(CSRS, Abs(s), 2).status == SIM_EXIT
               && Iterate(CSRS, s).status == ABORT
  {
    hide Inv, SafeRun, RefStep, Iterate, Isolated, Flat, Image, WindowLost, Survives;
    var s := Machine0();
    ImageIs();
    NoUserStores();
    assert NothingCached(s);
    NothingCachedInv(CSRS, s, {TableRef(2, 0)}, iset{});
    var t := Track(Abs(s), 0, iset{});
    RunIsSafe(t);
    LostWindow();
    TwoSteps(Abs(s));
    assert RefRun(CSRS, Abs(s), 2) == RefRun(CSRS, RefStep(CSRS, Abs(s)).r, 1);
    LossSeen(CSRS, s, {TableRef(2, 0)}, t);
    if Survives(CSRS, t) { SurvivesNow(CSRS, t); }
  }
}
