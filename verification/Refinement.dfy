/** The simulator refines the reference machine over whole runs. */
module Refinement {
  import opened Common
  import Bits
  import opened Instr
  import opened PhysMem
  import opened Mmu
  import opened MmuTheory
  import opened Tlb
  import opened Exec
  import opened Access
  import Decoder
  import opened Block
  import opened Machine
  import opened Track

  // ---------------------------------------------------------------- the coupling

  ghost function Abs(s: Fast): Ref
    requires ValidFast(s)
  {
    Ref(s.pc, s.regs, s.icount, Flat(s.ph))
  }

  ghost predicate BbOk(c: Csrs, m: Mem, b: Bb, code: iset<nat>) {
    b.va == INVALID_VA || BlockFrom(c, m, b.va, b.instrs, 0, code)
  }

  ghost predicate CachesOk(c: Csrs, s: Fast)
    requires ValidFast(s)
  {
    && TlbOk(c, Flat(s.ph), s.ph.mapping, READ, s.rtlb)
    && TlbOk(c, Flat(s.ph), s.ph.mapping, WRITE, s.wtlb)
    && TlbOk(c, Flat(s.ph), s.ph.mapping, FETCH, s.ftlb)
  }

  ghost predicate BlocksOk(c: Csrs, m: Mem, bbs: Bbs, code: iset<nat>) {
    forall i :: 0 <= i < BB_CACHE_SIZE ==> BbOk(c, m, bbs[i], code)
  }

  /** Coherent caches, blocks that mirror memory, and tables that user stores cannot reach. */
  ghost predicate Inv(c: Csrs, s: Fast, T: set<TableRef>, code: iset<nat>) {
    && ValidFast(s)
    && CachesOk(c, s)
    && BlocksOk(c, Flat(s.ph), s.bbs, code)
    && Isolated(c, Flat(s.ph), T)
  }

  // ---------------------------------------------------------------- one handler

  /** What a handler has to achieve when the reference machine executes the same instruction. */
  ghost predicate Matches(c: Csrs, s: Fast, T: set<TableRef>, code: iset<nat>, f: Flow, step: Step) {
    && Inv(c, f.s, T, code)
    && f.s.bbs == s.bbs
    && (if f.Next? then step == Running(Abs(f.s)) && f.s.pc == Wrap(s.pc + 4) && f.s.icount == s.icount + 1
        else if f.status == OK then step == Running(Abs(f.s)) && f.s.icount == s.icount + 1
        else step == Done(f.status, Abs(f.s)))
  }

  lemma {:induction false} RegsOnly(c: Csrs, s: Fast, T: set<TableRef>, code: iset<nat>, s': Fast)
    requires Inv(c, s, T, code) && s'.ph == s.ph && s'.bbs == s.bbs
    requires s'.rtlb == s.rtlb && s'.wtlb == s.wtlb && s'.ftlb == s.ftlb
    ensures Inv(c, s', T, code)
  {
  }

  lemma {:induction false} LoadStep(c: Csrs, s: Fast, T: set<TableRef>, code: iset<nat>, e: Effect)
    requires Inv(c, s, T, code) && e.Load? && !InPoisonPage(e.va)
    ensures var l := LoadInt(c, s.ph, s.rtlb, READ, e.va, e.n);
            && Loaded(l.status, l.value) == RefLoad(c, Flat(s.ph), READ, e.va, e.n)
            && forall regs, pc, icount :: Inv(c, s.(rtlb := l.tlb, regs := regs, pc := pc, icount := icount), T, code)
  {
    hide TlbOk, BlocksOk, Isolated, LoadInt, RefLoad;
    LoadRefines(c, s.ph, s.rtlb, READ, e.va, e.n);
  }

  lemma {:induction false} BlocksStable(c: Csrs, m: Mem, m': Mem, bbs: Bbs, code: iset<nat>)
    requires BlocksOk(c, m, bbs, code)
    requires m'.Keys == m.Keys
    requires forall a: nat :: Translate(c, m', USER, FETCH, a) == Translate(c, m, USER, FETCH, a)
    requires forall q: nat :: q in code ==> ByteAt(m', q) == ByteAt(m, q)
    ensures BlocksOk(c, m', bbs, code)
  {
    hide Translate, ByteAt, BlockFrom;
    forall i | 0 <= i < BB_CACHE_SIZE ensures BbOk(c, m', bbs[i], code) {
      assert BbOk(c, m, bbs[i], code);
      if bbs[i].va != INVALID_VA { BlockStable(c, m, m', bbs[i].va, bbs[i].instrs, 0, code); }
    }
  }

  /** A store off the code bytes leaves every code byte as it is. */
  lemma {:induction false} StoreOffCode(c: Csrs, m: Mem, e: Effect, code: iset<nat>)
    requires e.Store? && EffectSafe(c, m, e, code)
    ensures var m' := RefStore(c, m, e.va, e.n, e.value).mem;
            m'.Keys == m.Keys && forall q: nat :: q in code ==> ByteAt(m', q) == ByteAt(m, q)
  {
    hide Translate, ByteAt, Write;
    var t := Translate(c, m, USER, WRITE, e.va);
    if e.va % e.n == 0 && t.status == OK {
      var w := Write(m, t.pa, e.n, e.value);
      if w.status == OK {
        WriteBytes(m, t.pa, e.n, e.value, 0);
        forall q: nat | q in code ensures ByteAt(w.mem, q) == ByteAt(m, q) {
          WriteBytes(m, t.pa, e.n, e.value, q);
        }
      } else {
        FailedWrite(m, t.pa, e.n, e.value);
      }
    }
  }

  lemma {:induction false} FailedWrite(m: Mem, pa: nat, n: nat, v: nat)
    requires Write(m, pa, n, v).status != OK
    ensures Write(m, pa, n, v).mem == m
  {
  }

  lemma {:induction false} FailedStore(c: Csrs, m: Mem, va: nat, n: Width, v: nat)
    requires RefStore(c, m, va, n, v).status != OK
    ensures RefStore(c, m, va, n, v).mem == m
  {
    hide Translate;
  }

  lemma {:induction false} StoreStep(c: Csrs, s: Fast, T: set<TableRef>, code: iset<nat>, e: Effect)
    requires Inv(c, s, T, code) && e.Store? && EffectSafe(c, Flat(s.ph), e, code)
    ensures var r := StoreInt(c, s.ph, s.wtlb, e.va, e.n, e.value);
            && ValidPhys(r.ph)
            && (r.status != OK ==> Flat(r.ph) == Flat(s.ph))
            && Stored(r.status, Flat(r.ph)) == RefStore(c, Flat(s.ph), e.va, e.n, e.value)
            && forall regs, pc, icount ::
                 Inv(c, s.(ph := r.ph, wtlb := r.tlb, regs := regs, pc := pc, icount := icount), T, code)
  {
    hide TlbOk, BlocksOk, Isolated, StoreInt, RefStore, ValidPhys, Flat, Translate, ByteAt;
    var m := Flat(s.ph);
    StoreRefines(c, s.ph, s.wtlb, e.va, e.n, e.value);
    var r := StoreInt(c, s.ph, s.wtlb, e.va, e.n, e.value);
    StoreKeepsCaches(c, m, s.ph.mapping, T, e.va, e.n, e.value, READ, s.rtlb);
    StoreKeepsCaches(c, m, s.ph.mapping, T, e.va, e.n, e.value, WRITE, r.tlb);
    StoreKeepsCaches(c, m, s.ph.mapping, T, e.va, e.n, e.value, FETCH, s.ftlb);
    if r.status != OK { FailedStore(c, m, e.va, e.n, e.value); }
    StoreOffCode(c, m, e, code);
    BlocksStable(c, m, Flat(r.ph), s.bbs, code);
  }

  /** A handler does what the reference machine does for the same instruction. */
  lemma {:induction false} HandleRefines(c: Csrs, s: Fast, T: set<TableRef>, code: iset<nat>, i: Instr)
    requires Inv(c, s, T, code) && i != Status(OK)
    requires EffectSafe(c, Flat(s.ph), EffectOf(i, s.pc, s.regs), code)
    ensures Matches(c, s, T, code, Handle(c, s, EffectOf(i, s.pc, s.regs)), RefExec(c, Abs(s), i))
  {
    hide EffectOf, CachesOk, BlocksOk, Isolated, LoadInt, RefLoad, StoreInt, RefStore, ValidPhys, Flat, WriteReg,
      Extended, EffectSafe;
    var e := EffectOf(i, s.pc, s.regs);
    NotOk(i, s.pc, s.regs);
    match e
    case Load(_, va, _, _) => LoadSafe(c, Flat(s.ph), e, code); LoadStep(c, s, T, code, e);
    case Store(_, _, _) => StoreStep(c, s, T, code, e);
    case _ => RegsOnly(c, s, T, code, Handle(c, s, e).s);
  }

  lemma {:induction false} LoadSafe(c: Csrs, m: Mem, e: Effect, code: iset<nat>)
    requires e.Load? && EffectSafe(c, m, e, code)
    ensures !InPoisonPage(e.va)
  {
  }

  lemma {:induction false} NotOk(i: Instr, pc: Word, g: Regs)
    requires i != Status(OK)
    ensures EffectOf(i, pc, g) != Return(OK)
  {
    hide AluOp, ShiftOp, MemoryOp, BranchOp;
    if i.Op? {
      StraightLineOps(i, pc, g[i.rs1], g[i.rs2]);
      BranchNotOk(i, pc, g[i.rs1], g[i.rs2]);
    }
  }

  lemma {:induction false} BranchNotOk(i: Instr, pc: Word, a: Word, b: Word)
    requires i.Op?
    ensures BranchOp(i, pc, a, b) != Return(OK)
  {
    hide Wrap, Imm;
  }

  // ---------------------------------------------------------------- the chain of a block

  lemma {:induction false} FetchNotOk(c: Csrs, m: Mem, a: nat)
    ensures FetchDecode(c, m, a) != Status(OK)
  {
    hide RefLoad, Decoder.Decode;
    Decoder.DecodeShape(RefLoad(c, m, FETCH, a, 4).value);
  }

  /** The outcome of a chain that starts at t against k reference steps, which end at t2. */
  ghost predicate ChainMatches(c: Csrs, s: Fast, T: set<TableRef>, f: Flow, t: Track, k: nat, t2: Track)
    requires ValidFast(s) && ValidFast(f.s)
  {
    && f.Stop?
    && (if f.status == OK then
          && Inv(c, f.s, T, t2.code)
          && RefRun(c, Abs(s), k) == Running(Abs(f.s)) && f.s.icount == s.icount + k
          && t2.r == Abs(f.s) && t2.pos == 0 && SafeRun(c, t2)
          && SameSurvival(c, t, k, t2)
        else
          && (f.status != ABORT ==> Inv(c, f.s, T, t2.code))
          && RefRun(c, Abs(s), k) == Done(f.status, Abs(f.s)) && Survives(c, t))
  }

  /** t survives as long as t2, which it reaches after k steps. */
  ghost predicate SameSurvival(c: Csrs, t: Track, k: nat, t2: Track) {
    forall j: nat :: SurvivesFor(c, t, j + k) == SurvivesFor(c, t2, j)
  }

  lemma {:induction false} RunStep(c: Csrs, r: Ref, k: nat)
    requires RefStep(c, r).Running?
    ensures RefRun(c, r, k + 1) == RefRun(c, RefStep(c, r).r, k)
  {
    hide RefStep;
  }

  lemma {:induction false} RunOne(c: Csrs, r: Ref)
    ensures RefRun(c, r, 1) == RefStep(c, r)
  {
    hide RefStep;
    var step := RefStep(c, r);
    if step.Running? { assert RefRun(c, step.r, 0) == step; }
  }

  lemma {:induction false} WrapNext(x: nat)
    ensures Wrap(Wrap(x) + 4) == Wrap(x + 4)
  {
    Bits.ModShift(x, 4, TWO64);
  }

  lemma {:induction false} NextAddress(va: nat, pc: Word, i: nat)
    requires pc == EntryVa(va, i)
    ensures Wrap(pc + 4) == EntryVa(va, i + 1)
  {
    hide Wrap;
    WrapNext(va + 4 * i);
    assert va + 4 * i + 4 == va + 4 * (i + 1);
  }

  /** From entry i of a block that mirrors memory, with pc at that entry, the chain runs the
      reference machine: it stays inside the array, executes no stale entry, and stops in a
      state the reference machine reaches. */
  lemma {:induction false} ChainRefines(c: Csrs, s: Fast, slot: nat, i: nat, T: set<TableRef>, t: Track,
                                        code: iset<nat>)
      returns (k: nat, t2: Track)
    requires Inv(c, s, T, code) && SafeRun(c, t) && t.r == Abs(s) && (i < MAX_SIZE - 1 ==> StartSurvives(c, t))
    requires slot < BB_CACHE_SIZE && i < MAX_SIZE && s.pc == EntryVa(s.bbs[slot].va, i)
    requires if i == MAX_SIZE - 1 then t.pos == 0 && t.code == code else t.pos == i && Entered(c, t) == code
    requires s.bbs[slot].va != INVALID_VA && forall j :: 0 <= j < i ==> !Ends(s.bbs[slot].instrs[j])
    ensures ChainMatches(c, s, T, Chain(c, s, slot, i), t, k, t2)
    ensures i < MAX_SIZE - 1 ==> k > 0
    decreases MAX_SIZE - i
  {
    hide EffectOf, FetchDecode, Handle, RefStep, RefExec, Inv, StepSafe, SafeRun, EntryVa, BlockFrom, Flat, ValidPhys,
      RefRun;
    hide Ends, SameSurvival, Survives, StartSurvives, Following, Entered, EffectSafe, Wrap, ChainMatches;
    InvBlock(c, s, slot, T, code);
    var b := s.bbs[slot];
    BlockAt(c, Flat(s.ph), b.va, b.instrs, 0, i, code);
    BlockEntry(c, Flat(s.ph), b.va, b.instrs, i, code);
    if i == MAX_SIZE - 1 {
      LastEntry(c, s, slot);
      NothingMatches(c, s, T, t);
      return 0, t;
    }
    var ins := b.instrs[i];
    FetchNotOk(c, Flat(s.ph), s.pc);
    SafeNow(c, t);
    StepFacts(c, t, ins);
    HandleRefines(c, s, T, code, ins);
    var f := Handle(c, s, EffectOf(ins, s.pc, s.regs));
    if f.Stop? {
      if f.status == OK { StopsAtEnd(c, s, ins, T, code); }
      t2 := StopMatches(c, s, T, code, f, t);
      return 1, t2;
    }
    FollowingFacts(c, t);
    EndsStop(c, s, ins, s.pc, s.regs);
    NextAddress(b.va, s.pc, i);
    MidBlock(c, Following(c, t));
    var k';
    k', t2 := ChainRefines(c, f.s, slot, i + 1, T, Following(c, t), code);
    NextMatches(c, s, f.s, T, t, k', t2, Chain(c, f.s, slot, i + 1));
    return k' + 1, t2;
  }

  lemma {:induction false} NothingMatches(c: Csrs, s: Fast, T: set<TableRef>, t: Track)
    requires Inv(c, s, T, t.code) && SafeRun(c, t) && t.r == Abs(s) && t.pos == 0
    ensures ChainMatches(c, s, T, Stop(OK, s), t, 0, t)
  {
    hide Inv, SafeRun, RefRun, SameSurvival, Abs;
    InvFacts(c, s, T, t.code);
    RunNone(c, Abs(s));
    NoSteps(c, t);
  }

  /** A handler that returns, against the one step it stands for. */
  lemma {:induction false} StopMatches(c: Csrs, s: Fast, T: set<TableRef>, code: iset<nat>, f: Flow, t: Track)
      returns (t2: Track)
    requires ValidFast(s) && ValidFast(f.s) && t.r == Abs(s)
    requires Entered(c, t) == code && SafeRun(c, t) && StartSurvives(c, t)
    requires f.Stop? && Matches(c, s, T, code, f, RefStep(c, t.r))
    requires f.status == OK ==> Ends(FetchDecode(c, t.r.mem, t.r.pc))
    ensures ChainMatches(c, s, T, f, t, 1, t2)
  {
    hide Inv, SafeRun, RefRun, RefStep, SameSurvival, Survives, StartSurvives, Abs, Ends, FetchDecode, Entered,
      Following;
    RunOne(c, Abs(s));
    if f.status == OK {
      SafeNow(c, t);
      FollowingFacts(c, t);
      t2 := Following(c, t);
    } else {
      DoneSurvives(c, t);
      t2 := Track(Abs(f.s), 0, code);
    }
  }

  /** A handler that goes on, followed by the rest of the chain. */
  lemma {:induction false} NextMatches(c: Csrs, s: Fast, s1: Fast, T: set<TableRef>, t: Track, k: nat, t2: Track,
                                       f: Flow)
    requires ValidFast(s) && ValidFast(s1) && ValidFast(f.s) && t.r == Abs(s) && StartSurvives(c, t)
    requires RefStep(c, t.r) == Running(Abs(s1)) && s1.icount == s.icount + 1
    requires ChainMatches(c, s1, T, f, Following(c, t), k, t2)
    ensures ChainMatches(c, s, T, f, t, k + 1, t2)
  {
    hide Inv, SafeRun, RefRun, RefStep, SameSurvival, Survives, StartSurvives, Abs, Following;
    RunStep(c, Abs(s), k);
    LaterSurvival(c, t, k, t2);
  }

  lemma {:induction false} NoSteps(c: Csrs, t: Track)
    ensures SameSurvival(c, t, 0, t)
  {
    hide SurvivesFor;
  }

  lemma {:induction false} DoneSurvives(c: Csrs, t: Track)
    requires StartSurvives(c, t) && RefStep(c, t.r).Done?
    ensures Survives(c, t)
  {
    hide RefStep, StartSurvives;
  }

  lemma {:induction false} FollowingFacts(c: Csrs, t: Track)
    requires StartSurvives(c, t) && RefStep(c, t.r).Running?
    ensures var t2 := Following(c, t);
            && t2.r == RefStep(c, t.r).r && t2.code == Entered(c, t)
            && t2.pos == if Ends(FetchDecode(c, t.r.mem, t.r.pc)) || t.pos + 1 == MAX_SIZE - 1 then 0 else t.pos + 1
    ensures SameSurvival(c, t, 1, Following(c, t))
  {
    hide RefStep, StartSurvives, Ends, FetchDecode, Entered;
  }

  /** In mid-block no bytes are added and no window is fetched. */
  lemma {:induction false} MidBlock(c: Csrs, t: Track)
    ensures t.pos != 0 ==> Entered(c, t) == t.code && StartSurvives(c, t)
  {
    hide RefStep, WindowLost, WindowBytes;
  }

  lemma {:induction false} LaterSurvival(c: Csrs, t: Track, k: nat, t2: Track)
    requires StartSurvives(c, t) && RefStep(c, t.r).Running?
    ensures SameSurvival(c, Following(c, t), k, t2) ==> SameSurvival(c, t, k + 1, t2)
    ensures Survives(c, Following(c, t)) ==> Survives(c, t)
  {
    hide RefStep, StartSurvives, Following;
    if SameSurvival(c, Following(c, t), k, t2) {
      forall j: nat ensures SurvivesFor(c, t, j + (k + 1)) == SurvivesFor(c, t2, j) {
        assert SurvivesFor(c, Following(c, t), j + k) == SurvivesFor(c, t2, j);
      }
    }
    if Survives(c, Following(c, t)) {
      forall j: nat ensures SurvivesFor(c, t, j) {
        assert j > 0 ==> SurvivesFor(c, Following(c, t), j - 1);
      }
    }
  }

  /** A handler that returns OK was the last instruction of its block. */
  lemma {:induction false} StopsAtEnd(c: Csrs, s: Fast, ins: Instr, T: set<TableRef>, code: iset<nat>)
    requires ValidFast(s) && Handle(c, s, EffectOf(ins, s.pc, s.regs)).Stop? && ins != Status(OK)
    requires Handle(c, s, EffectOf(ins, s.pc, s.regs)).status == OK
    ensures Ends(ins)
  {
    hide EffectOf, LoadInt, StoreInt;
    NotOk(ins, s.pc, s.regs);
    EndsLeave(ins, s.pc, s.regs);
  }

  lemma {:induction false} InvBlock(c: Csrs, s: Fast, slot: nat, T: set<TableRef>, code: iset<nat>)
    requires Inv(c, s, T, code) && slot < BB_CACHE_SIZE && s.bbs[slot].va != INVALID_VA
    ensures ValidFast(s) && BlockFrom(c, Flat(s.ph), s.bbs[slot].va, s.bbs[slot].instrs, 0, code)
  {
    hide CachesOk, Isolated, BlockFrom;
    assert BbOk(c, Flat(s.ph), s.bbs[slot], code);
  }

  lemma {:induction false} BlockAt(c: Csrs, m: Mem, va: nat, instrs: Instrs, i: nat, j: nat, code: iset<nat>)
    requires BlockFrom(c, m, va, instrs, i, code) && i <= j < MAX_SIZE
    requires forall k :: i <= k < j ==> !Ends(instrs[k])
    ensures BlockFrom(c, m, va, instrs, j, code)
    decreases j - i
  {
    hide FetchDecode, WordBytes;
    if i < j { BlockAt(c, m, va, instrs, i + 1, j, code); }
  }

  lemma {:induction false} BlockEntry(c: Csrs, m: Mem, va: nat, instrs: Instrs, i: nat, code: iset<nat>)
    requires BlockFrom(c, m, va, instrs, i, code) && i < MAX_SIZE
    ensures instrs[i] == if i == MAX_SIZE - 1 then Status(OK) else FetchDecode(c, m, EntryVa(va, i))
  {
  }

  lemma {:induction false} RunNone(c: Csrs, r: Ref)
    ensures RefRun(c, r, 0) == Running(r)
  {
  }

  lemma {:induction false} EndsStop(c: Csrs, s: Fast, ins: Instr, pc: Word, g: Regs)
    requires ValidFast(s) && Handle(c, s, EffectOf(ins, pc, g)).Next?
    ensures !Ends(ins)
  {
    hide EffectOf, LoadInt, StoreInt;
    EndsLeave(ins, pc, g);
  }

  /** The terminator of a full block returns OK without retiring anything. */
  lemma {:induction false} LastEntry(c: Csrs, s: Fast, slot: nat)
    requires ValidFast(s) && slot < BB_CACHE_SIZE && s.bbs[slot].instrs[MAX_SIZE - 1] == Status(OK)
    ensures Chain(c, s, slot, MAX_SIZE - 1) == Stop(OK, s)
  {
  }

  lemma {:induction false} StepFacts(c: Csrs, t: Track, ins: Instr)
    requires StepSafe(c, t) && ins == FetchDecode(c, t.r.mem, t.r.pc)
    ensures EffectSafe(c, t.r.mem, EffectOf(ins, t.r.pc, t.r.regs), Entered(c, t))
    ensures RefStep(c, t.r) == RefExec(c, t.r, ins)
  {
  }

  // ---------------------------------------------------------------- the main loop

  lemma {:induction false} BlocksGrow(c: Csrs, m: Mem, bbs: Bbs, code: iset<nat>, code': iset<nat>)
    requires BlocksOk(c, m, bbs, code) && code <= code'
    ensures BlocksOk(c, m, bbs, code')
  {
    hide BlockFrom;
    forall i | 0 <= i < BB_CACHE_SIZE ensures BbOk(c, m, bbs[i], code') {
      assert BbOk(c, m, bbs[i], code);
      if bbs[i].va != INVALID_VA { BlockGrows(c, m, bbs[i].va, bbs[i].instrs, 0, code, code'); }
    }
  }

  /** Looking up a block changes no architectural state.  It ends the process exactly when the
      window of pc holds a word whose fetch does; otherwise every cache and block is right. */
  lemma {:induction false} LookupRefines(c: Csrs, s: Fast, T: set<TableRef>, code: iset<nat>)
    requires Inv(c, s, T, code) && OffPoison(c, Flat(s.ph), s.pc, 0)
    ensures var l := Lookup(c, s);
            && l.lost == WindowLost(c, Flat(s.ph), s.pc, 0)
            && Abs(l.s) == Abs(s) && l.s.icount == s.icount && l.s.pc == s.pc
            && (!l.lost ==>
                  && Inv(c, l.s, T, code + WindowBytes(c, Flat(s.ph), s.pc, 0))
                  && l.s.bbs[BbSlot(s.pc)].va == s.pc && s.pc != INVALID_VA)
  {
    hide TlbOk, Isolated, BlockFrom, Fill, Flat, ValidPhys, WindowBytes, WindowLost, OffPoison;
    var m, slot := Flat(s.ph), BbSlot(s.pc);
    var code' := code + WindowBytes(c, m, s.pc, 0);
    WindowHead(c, m, s.pc);
    BlocksGrow(c, m, s.bbs, code, code');
    if s.bbs[slot].va == s.pc {
      assert BbOk(c, m, s.bbs[slot], code');
      CachedNotLost(c, m, s.pc, s.bbs[slot].instrs, 0, code');
    } else {
      FillRefines(c, s.ph, s.ftlb, s.bbs[slot].instrs, s.pc, 0, code');
      FilledBlocks(c, s, code');
    }
  }

  lemma {:induction false} FilledBlocks(c: Csrs, s: Fast, code: iset<nat>)
    requires ValidFast(s) && BlocksOk(c, Flat(s.ph), s.bbs, code) && s.bbs[BbSlot(s.pc)].va != s.pc
    requires var f := Fill(c, s.ph, s.ftlb, s.bbs[BbSlot(s.pc)].instrs, s.pc, 0);
             !f.lost ==> BlockFrom(c, Flat(s.ph), s.pc, f.instrs, 0, code)
    ensures var l := Lookup(c, s); !l.lost ==> BlocksOk(c, Flat(s.ph), l.s.bbs, code)
  {
    hide BlockFrom, Fill, Flat, ValidPhys;
    var f := Fill(c, s.ph, s.ftlb, s.bbs[BbSlot(s.pc)].instrs, s.pc, 0);
    if !f.lost {
      assert BbOk(c, Flat(s.ph), Bb(s.pc, f.instrs), code);
      forall i | 0 <= i < BB_CACHE_SIZE ensures BbOk(c, Flat(s.ph), Lookup(c, s).s.bbs[i], code) {
        assert BbOk(c, Flat(s.ph), s.bbs[i], code);
      }
    }
  }

  lemma {:induction false} WindowHead(c: Csrs, m: Mem, pc: Word)
    requires OffPoison(c, m, pc, 0)
    ensures !InPoisonPage(pc) && pc != INVALID_VA && EntryVa(pc, 0) == pc
  {
    hide FetchDecode;
    assert EntryVa(pc, 0) == pc;
  }

  /** One iteration of the main loop is k reference steps, at least one. */
  lemma {:induction false} IterateRefines(c: Csrs, s: Fast, T: set<TableRef>, t: Track) returns (k: nat, t2: Track)
    requires Inv(c, s, T, t.code) && SafeRun(c, t) && t.r == Abs(s) && t.pos == 0
    requires StartSurvives(c, t)
    ensures ChainMatches(c, s, T, Iterate(c, s), t, k, t2) && k > 0
  {
    hide Inv, SafeRun, StartSurvives, Chain, Lookup, RefRun, RefStep, WindowLost, WindowBytes, OffPoison,
      EffectSafe, BlockFrom, Flat, ValidPhys, Ends, EntryVa, SameSurvival, Survives, CachesOk, BlocksOk,
      Isolated, SafeFor, SurvivesFor, Following, FetchDecode, TlbOk;
    InvFacts(c, s, T, t.code);
    SafeNow(c, t);
    LookupRefines(c, s, T, t.code);
    WindowHead(c, Flat(s.ph), s.pc);
    if Lookup(c, s).lost {
      LostStart(c, t);
      RunOne(c, Abs(s));
      DoneSurvives(c, t);
      return 1, t;
    }
    k, t2 := ChainRefines(c, Lookup(c, s).s, BbSlot(s.pc), 0, T, t, t.code + WindowBytes(c, Flat(s.ph), s.pc, 0));
  }

  lemma {:induction false} LostStart(c: Csrs, t: Track)
    requires StartSurvives(c, t) && t.pos == 0 && WindowLost(c, t.r.mem, t.r.pc, 0)
    ensures RefStep(c, t.r) == Done(ABORT, t.r)
  {
    hide RefStep, WindowLost;
  }

  lemma {:induction false} InvFacts(c: Csrs, s: Fast, T: set<TableRef>, code: iset<nat>)
    requires Inv(c, s, T, code)
    ensures ValidFast(s) && Abs(s).mem == Flat(s.ph)
  {
  }

  lemma {:induction false} RefRunSplit(c: Csrs, r: Ref, a: nat, b: nat)
    requires RefRun(c, r, a).Running?
    ensures RefRun(c, r, a + b) == RefRun(c, RefRun(c, r, a).r, b)
    decreases a
  {
    hide RefStep;
    if a > 0 { RefRunSplit(c, RefStep(c, r).r, a - 1, b); }
  }

  /** A simulator outcome against k steps of the reference machine. */
  ghost predicate RunMatches(c: Csrs, s: Fast, o: Outcome, k: nat)
    requires ValidFast(s) && ValidFast(o.s)
  {
    match o.status
    case None => RefRun(c, Abs(s), k) == Running(Abs(o.s)) && o.s.icount == s.icount + k
    case Some(st) => RefRun(c, Abs(s), k) == Done(st, Abs(o.s))
  }

  /** Whole-run refinement: whatever the number of main-loop iterations, the simulator is in the
      state (pc, registers, instruction count, memory) and has the exit status of the reference
      machine after k steps, where k is the number of retired instructions and at least the
      number of iterations while the run goes on. */
  lemma {:induction false} RunRefines(c: Csrs, s: Fast, n: nat, T: set<TableRef>, t: Track)
      returns (k: nat, code: iset<nat>)
    requires Inv(c, s, T, t.code) && SafeRun(c, t) && t.r == Abs(s) && t.pos == 0 && Survives(c, t)
    ensures RunMatches(c, s, Run(c, s, n), k)
    ensures Run(c, s, n).status != Some(ABORT) ==> Inv(c, Run(c, s, n).s, T, code)
    ensures Run(c, s, n).status == None ==> k >= n
    decreases n
  {
    hide Inv, SafeRun, Iterate, RefRun, RefStep, Flat, ValidPhys, Survives, SameSurvival, StartSurvives, StepSafe,
      CachesOk, BlocksOk, Isolated, WindowLost, EffectSafe, SafeFor, SurvivesFor, Following, Entered, FetchDecode;
    InvFacts(c, s, T, t.code);
    if n == 0 {
      RunNone(c, Abs(s));
      return 0, t.code;
    }
    SurvivesNow(c, t);
    var k1, t1 := IterateRefines(c, s, T, t);
    var f := Iterate(c, s);
    if f.status != OK { return k1, t1.code; }
    SurvivesOn(c, t, k1, t1);
    var k2;
    k2, code := RunRefines(c, f.s, n - 1, T, t1);
    RefRunSplit(c, Abs(s), k1, k2);
    return k1 + k2, code;
  }

  lemma {:induction false} SurvivesOn(c: Csrs, t: Track, k: nat, t2: Track)
    requires Survives(c, t) && SameSurvival(c, t, k, t2)
    ensures Survives(c, t2)
  {
    hide SurvivesFor;
  }

  // ---------------------------------------------------------------- exactly when a run is refined

  /** A fetch that ends the process early is seen: no run of the reference machine ends like that. */
  lemma {:induction false} LossSeen(c: Csrs, s: Fast, T: set<TableRef>, t: Track)
    requires Inv(c, s, T, t.code) && SafeRun(c, t) && t.r == Abs(s) && t.pos == 0 && !StartSurvives(c, t)
    ensures Iterate(c, s).status == ABORT && forall k: nat :: RefRun(c, Abs(s), k) != Done(ABORT, Abs(Iterate(c, s).s))
  {
    hide Inv, SafeRun, Chain, Lookup, RefRun, RefStep, WindowLost, OffPoison, EffectSafe, Flat, ValidPhys,
      CachesOk, BlocksOk, Isolated, SafeFor, SurvivesFor, Following, FetchDecode, TlbOk;
    InvFacts(c, s, T, t.code);
    SafeNow(c, t);
    LookupRefines(c, s, T, t.code);
    forall k: nat ensures RefRun(c, Abs(s), k) != Done(ABORT, Abs(s)) { NeverThatState(c, Abs(s), k); }
  }

  lemma {:induction false} NeverThatState(c: Csrs, r: Ref, k: nat)
    requires RefStep(c, r) != Done(ABORT, r)
    ensures RefRun(c, r, k) != Done(ABORT, r)
  {
    hide RefStep;
    if k > 0 && RefStep(c, r).Running? {
      OneRetires(c, r);
      CountGrows(c, RefStep(c, r).r, k - 1);
    }
  }

  lemma {:induction false} OneRetires(c: Csrs, r: Ref)
    requires RefStep(c, r).Running?
    ensures RefStep(c, r).r.icount == r.icount + 1
  {
    hide EffectOf, FetchDecode, RefLoad, RefStore, WriteReg, Extended;
  }

  lemma {:induction false} CountGrows(c: Csrs, r: Ref, k: nat)
    ensures RefRun(c, r, k).r.icount >= r.icount
    decreases k
  {
    hide RefStep;
    if k > 0 {
      if RefStep(c, r).Running? {
        OneRetires(c, r);
        CountGrows(c, RefStep(c, r).r, k - 1);
      } else {
        PreciseExit(c, r);
      }
    }
  }

  /** The process is lost after n iterations, in a state that no reference run ends in. */
  ghost predicate LostAt(c: Csrs, s: Fast, n: nat)
    requires ValidFast(s)
  {
    Run(c, s, n).status == Some(ABORT) && forall k: nat :: RefRun(c, Abs(s), k) != Done(ABORT, Abs(Run(c, s, n).s))
  }

  lemma {:induction false} LostFirst(c: Csrs, s: Fast, T: set<TableRef>, t: Track)
    requires Inv(c, s, T, t.code) && SafeRun(c, t) && t.r == Abs(s) && t.pos == 0 && !StartSurvives(c, t)
    ensures ValidFast(s) && LostAt(c, s, 1)
  {
    hide Inv, SafeRun, StartSurvives, Iterate, RefRun, Abs;
    InvFacts(c, s, T, t.code);
    LossSeen(c, s, T, t);
    assert Run(c, s, 1) == Outcome(Some(ABORT), Iterate(c, s).s);
  }

  lemma {:induction false} LostLater(c: Csrs, s: Fast, n: nat, k1: nat)
    requires ValidFast(s) && Iterate(c, s).status == OK
    requires RefRun(c, Abs(s), k1) == Running(Abs(Iterate(c, s).s)) && LostAt(c, Iterate(c, s).s, n)
    ensures LostAt(c, s, n + 1)
  {
    hide Iterate, RefRun, Abs;
    var f := Iterate(c, s);
    assert Run(c, s, n + 1) == Run(c, f.s, n);
    forall k: nat ensures RefRun(c, Abs(s), k) != Done(ABORT, Abs(Run(c, s, n + 1).s)) {
      LaterRun(c, Abs(s), k1, k);
    }
  }

  /** A run that does not survive is lost after some number of iterations. */
  lemma {:induction false} LossFound(c: Csrs, s: Fast, T: set<TableRef>, t: Track, j: nat) returns (n: nat)
    requires Inv(c, s, T, t.code) && SafeRun(c, t) && t.r == Abs(s) && t.pos == 0 && !SurvivesFor(c, t, j)
    ensures ValidFast(s) && LostAt(c, s, n)
    decreases j
  {
    hide Inv, SafeRun, SafeFor, Iterate, RefRun, RefStep, SurvivesFor, StartSurvives, Abs, Flat, ValidPhys, LostAt;
    InvFacts(c, s, T, t.code);
    if !StartSurvives(c, t) {
      LostFirst(c, s, T, t);
      return 1;
    }
    var k1, t1 := IterateRefines(c, s, T, t);
    assert Iterate(c, s).status == OK;
    NoLossYet(c, t1);
    if j < k1 {
      assert SurvivesFor(c, t, 0 + k1) == SurvivesFor(c, t1, 0);
      SurvivesShorter(c, t, j, k1);
      assert false;
    }
    assert SurvivesFor(c, t, (j - k1) + k1) == SurvivesFor(c, t1, j - k1);
    n := LossFound(c, Iterate(c, s).s, T, t1, j - k1);
    LostLater(c, s, n, k1);
    n := n + 1;
  }

  lemma {:induction false} NoLossYet(c: Csrs, t: Track)
    ensures SurvivesFor(c, t, 0)
  {
  }

  lemma {:induction false} LaterRun(c: Csrs, r: Ref, k1: nat, k: nat)
    requires RefRun(c, r, k1).Running?
    ensures if k < k1 then RefRun(c, r, k).Running? else RefRun(c, r, k) == RefRun(c, RefRun(c, r, k1).r, k - k1)
    decreases k1
  {
    hide RefStep;
    if k1 > 0 && k > 0 { LaterRun(c, RefStep(c, r).r, k1 - 1, k - 1); }
  }

  /** n iterations end where the reference machine is after some number of steps. */
  ghost predicate Refined(c: Csrs, s: Fast, n: nat)
    requires ValidFast(s)
  {
    exists k: nat :: RunMatches(c, s, Run(c, s, n), k)
  }

  /** The exact condition: a run that leaves cached code alone is refined, for every number of
      iterations, if and only if wherever the reference run begins a block no word of the window
      ends the process when it is fetched, but for blocks whose first instruction does so itself. */
  lemma {:induction false} RefinedExactly(c: Csrs, s: Fast, T: set<TableRef>, t: Track)
    requires Inv(c, s, T, t.code) && SafeRun(c, t) && t.r == Abs(s) && t.pos == 0
    ensures ValidFast(s)
    ensures Survives(c, t) <==> forall n: nat :: Refined(c, s, n)
  {
    hide Inv, SafeRun, Run, RunMatches, SurvivesFor, Flat, ValidPhys;
    InvFacts(c, s, T, t.code);
    if Survives(c, t) {
      forall n: nat ensures Refined(c, s, n) {
        var k, code := RunRefines(c, s, n, T, t);
      }
    } else {
      var j: nat :| !SurvivesFor(c, t, j);
      var n := LossFound(c, s, T, t, j);
      LostNotRefined(c, s, n);
    }
  }

  lemma {:induction false} LostNotRefined(c: Csrs, s: Fast, n: nat)
    requires ValidFast(s) && LostAt(c, s, n)
    ensures !Refined(c, s, n)
  {
    hide Run, RefRun;
  }

  // ---------------------------------------------------------------- consequences

  lemma {:induction false} EffectNotExit(i: Instr, pc: Word, g: Regs)
    requires i != Status(SIM_EXIT)
    ensures EffectOf(i, pc, g) != Return(SIM_EXIT)
  {
    hide Wrap, Imm, AluOp, ShiftOp, MemoryOp;
    if i.Op? { StraightLineOps(i, pc, g[i.rs1], g[i.rs2]); }
  }

  /** Precise exits: an ECALL retires and ends the run with the exit status; any other instruction
      that ends it changes nothing and does not count. */
  lemma {:induction false} PreciseExit(c: Csrs, r: Ref)
    requires RefStep(c, r).Done?
    ensures RefStep(c, r).r == if RefStep(c, r).status == SIM_EXIT then Retire(r, Wrap(r.pc + 4)) else r
  {
    hide EffectOf, RefLoad, RefStore, Decoder.Decode;
    AccessNotExit(c, r.mem, FETCH, r.pc, 4, 0);
    var i := FetchDecode(c, r.mem, r.pc);
    Decoder.DecodeShape(RefLoad(c, r.mem, FETCH, r.pc, 4).value);
    EffectNotExit(i, r.pc, r.regs);
    var e := EffectOf(i, r.pc, r.regs);
    if e.Load? { AccessNotExit(c, r.mem, READ, e.va, e.n, 0); }
    if e.Store? { AccessNotExit(c, r.mem, WRITE, e.va, e.n, e.value); }
  }

  predicate FetchesEcall(c: Csrs, r: Ref) {
    var i := FetchDecode(c, r.mem, r.pc);
    i.Op? && i.id == ECALL
  }

  /** A step that ends a run has the exit status exactly when it is an ECALL, and never OK. */
  lemma {:induction false} DoneStatus(c: Csrs, r: Ref)
    requires RefStep(c, r).Done?
    ensures RefStep(c, r).status != OK
    ensures RefStep(c, r).status == SIM_EXIT <==> FetchesEcall(c, r)
  {
    hide EffectOf, RefLoad, RefStore, Decoder.Decode;
    FetchNotOk(c, r.mem, r.pc);
    AccessNotExit(c, r.mem, FETCH, r.pc, 4, 0);
    var i := FetchDecode(c, r.mem, r.pc);
    Decoder.DecodeShape(RefLoad(c, r.mem, FETCH, r.pc, 4).value);
    NotOk(i, r.pc, r.regs);
    EffectNotExit(i, r.pc, r.regs);
    OnlyEcallExits(i, r.pc, r.regs);
    var e := EffectOf(i, r.pc, r.regs);
    if e.Load? { AccessNotExit(c, r.mem, READ, e.va, e.n, 0); }
    if e.Store? { AccessNotExit(c, r.mem, WRITE, e.va, e.n, e.value); }
  }

  lemma {:induction false} OnlyEcallExits(i: Instr, pc: Word, g: Regs)
    ensures EffectOf(i, pc, g).Exit? <==> i.Op? && i.id == ECALL
  {
    hide Wrap, Imm, AluOp, ShiftOp, MemoryOp;
    if i.Op? { StraightLineOps(i, pc, g[i.rs1], g[i.rs2]); }
  }

  /** Aligned program counters and a zero x0 are invariants of every run. */
  lemma {:induction false} AlignedAndZero(c: Csrs, r: Ref, k: nat)
    requires r.pc % 4 == 0 && r.regs[0] == 0
    ensures RefRun(c, r, k).r.pc % 4 == 0 && RefRun(c, r, k).r.regs[0] == 0
    decreases k
  {
    hide RefStep;
    if k > 0 {
      AlignedStep(c, r);
      if RefStep(c, r).Running? { AlignedAndZero(c, RefStep(c, r).r, k - 1); }
    }
  }

  lemma {:induction false} AlignedStep(c: Csrs, r: Ref)
    requires r.pc % 4 == 0 && r.regs[0] == 0
    ensures RefStep(c, r).r.pc % 4 == 0 && RefStep(c, r).r.regs[0] == 0
  {
    hide EffectOf, FetchDecode, RefLoad, RefStore, Extended, Wrap;
    TargetsAligned(FetchDecode(c, r.mem, r.pc), r.pc, r.regs);
    WrapAligned(r.pc);
  }

  lemma {:induction false} WrapAligned(pc: Word)
    requires pc % 4 == 0
    ensures Wrap(pc + 4) % 4 == 0
  {
  }

  ghost predicate SameTranslation(c: Csrs, m: Mem, m': Mem) {
    forall priv, access, a: nat :: Translate(c, m', priv, access, a) == Translate(c, m, priv, access, a)
  }

  /** One instruction cannot change a byte of a table page. */
  lemma {:induction false} StepKeepsTables(c: Csrs, r: Ref, T: set<TableRef>)
    requires c.mode != BARE && Isolated(c, r.mem, T)
    ensures var m' := RefStep(c, r).r.mem;
            Isolated(c, m', T) && SameTables(r.mem, m', T) && SameTranslation(c, r.mem, m')
  {
    hide EffectOf, FetchDecode, RefLoad, Translate, Isolated, WriteReg, Extended, Write;
    var e := EffectOf(FetchDecode(c, r.mem, r.pc), r.pc, r.regs);
    if e.Store? && e.va % e.n == 0 {
      var t := Translate(c, r.mem, USER, WRITE, e.va);
      if t.status == OK && Write(r.mem, t.pa, e.n, e.value).status == OK {
        StoreKeepsTranslation(c, r.mem, T, e.va, e.n, e.value);
        AvoidedByStore(c, r.mem, T, e.va);
        OtherPagesSame(r.mem, t.pa, e.n, e.value, T);
      } else if t.status == OK {
        FailedWrite(r.mem, t.pa, e.n, e.value);
      }
    }
  }

  lemma {:induction false} AvoidedByStore(c: Csrs, m: Mem, T: set<TableRef>, va: nat)
    requires c.mode != BARE && Isolated(c, m, T) && Translate(c, m, USER, WRITE, va).status == OK
    ensures forall t <- T :: t.ppn != Translate(c, m, USER, WRITE, va).pa / PAGE_SIZE
  {
    hide Translate;
    assert StoreAvoids(c, m, T, va);
  }

  /** Over a whole run no byte of a table page changes and translation stays the same function. */
  lemma {:induction false} RunKeepsTables(c: Csrs, r: Ref, T: set<TableRef>, k: nat)
    requires c.mode != BARE && Isolated(c, r.mem, T)
    ensures var m' := RefRun(c, r, k).r.mem;
            Isolated(c, m', T) && SameTables(r.mem, m', T) && SameTranslation(c, r.mem, m')
    decreases k
  {
    hide RefStep, Translate, Isolated;
    if k > 0 {
      StepKeepsTables(c, r, T);
      if RefStep(c, r).Running? { RunKeepsTables(c, RefStep(c, r).r, T, k - 1); }
    }
  }
}
