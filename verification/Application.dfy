/** The program as a whole (sim_app/src/sim_app.cpp): map the stack, load the segments, turn
    paging on and simulate. */
module Application {
  import opened Common
  import opened Instr
  import opened PhysMem
  import opened Mmu
  import opened MmuTheory
  import opened Mapper
  import opened MapperTheory
  import opened MapperTheorems
  import opened Isolation
  import opened LoaderTheory
  import opened Loader
  import opened Csr
  import opened Tlb
  import opened Exec
  import opened Access
  import opened Block
  import opened Machine
  import opened Track
  import opened Refinement
  import opened RunTheorems
  import opened Simulator

  /** What the application writes: Sv39 in satp, and nothing in mstatus. */
  const CSRS := LoaderCsrs(false, false)

  const SP: Reg := 2

  // ---------------------------------------------------------------- runs on loaded memory

  /** Any run on a memory that the loader built is a run of the reference machine: its tables are
      isolated, and no fetch can end the process. */
  lemma {:induction false} LoadedRun(s: Fast, curr: nat, tab: Tables, mapped: Mapped, shadow: map<nat, nat>,
                                     next: nat, mxr: bool, sum: bool, n: nat, t: Track) returns (k: nat)
    requires ValidFast(s) && NothingCached(s) && t == Track(Abs(s), 0, iset{})
    requires TablesSound(Flat(s.ph), curr, tab, mapped, next) && ShadowSound(Flat(s.ph), mapped, shadow, next)
    requires SafeRun(LoaderCsrs(mxr, sum), t)
    ensures RunMatches(LoaderCsrs(mxr, sum), s, Run(LoaderCsrs(mxr, sum), s, n), k)
    ensures Run(LoaderCsrs(mxr, sum), s, n).status == None ==> k >= n
  {
    hide Tree, Agrees, AvoidsRegion, Isolated, Flat, ValidPhys, NothingCached, SafeRun, Survives, Inv, Run, RunMatches;
    var c := LoaderCsrs(mxr, sum);
    RoomLeft(shadow, mapped, next);
    LoadedAvoids(mapped, shadow, next);
    LoadedIsolated(Flat(s.ph), curr, tab, mapped, shadow, next, mxr, sum);
    TreeSurvives(REGION, c, t, curr, tab, mapped);
    NothingCachedInv(c, s, RegionRefs(REGION, tab), iset{});
    var code;
    k, code := RunRefines(c, s, n, RegionRefs(REGION, tab), t);
  }

  /** Where a run stops: after j retired instructions the machine is about to perform the one that
      stops it, and unless that is an ECALL the final state is the state before it. */
  lemma {:induction false} ExitState(c: Csrs, r: Ref, k: nat) returns (j: nat)
    requires RefRun(c, r, k).Done?
    ensures j < k && RefRun(c, r, j).Running? && RefRun(c, r, j).r.icount == r.icount + j
    ensures var last := RefRun(c, r, j).r;
            && RefStep(c, last) == RefRun(c, r, k)
            && RefRun(c, r, k).r == if RefRun(c, r, k).status == SIM_EXIT then Retire(last, Wrap(last.pc + 4)) else last
    decreases k
  {
    hide RefStep;
    var step := RefStep(c, r);
    if step.Done? {
      PreciseExit(c, r);
      return 0;
    }
    OneRetires(c, r);
    j := ExitState(c, step.r, k - 1);
    return j + 1;
  }

  // ---------------------------------------------------------------- main

  /** The reference machine when simulation starts. */
  function Start(entry: Word, image: Mem): Ref {
    Ref(entry, WriteReg(seq(32, _ => 0), SP, STACK_BASE * PAGE_SIZE), 0, image)
  }

  /** Registers are zero but for x2, which holds the end of the stack. */
  lemma {:induction false} StartRegisters(entry: Word, image: Mem)
    ensures var r := Start(entry, image);
            && r.pc == entry && r.icount == 0 && r.mem == image && r.regs[2] == 0x100_0000_0000
            && forall k :: 0 <= k < 32 && k != 2 ==> r.regs[k] == 0
  {
  }

  /** The segment can be read, written and fetched where it belongs. */
  ghost predicate InPlace(c: Csrs, m: Mem, s: Segment) {
    forall va: nat, access: AccessType :: s.vaddr <= va < s.vaddr + Extent(s) ==> ByteInPlace(c, m, access, s, va)
  }

  ghost predicate ByteInPlace(c: Csrs, m: Mem, access: AccessType, s: Segment, va: nat)
    requires s.vaddr <= va
  {
    var r := Translate(c, m, USER, access, va);
    r.status == OK && ByteAt(m, r.pa) == Some(SegmentByte(s, va - s.vaddr))
  }

  /** The simulation goes on, in the state after k instructions, no fewer than iterations. */
  ghost predicate GoesOn(c: Csrs, start: Ref, result: Option<SimStatus>, final: Ref, n: nat, k: nat) {
    result == None && k >= n && RefRun(c, start, k) == Running(final) && final.icount == start.icount + k
  }

  /** The simulation has ended at the instruction after the first k.  It reports OK exactly when that
      is an ECALL, which has retired; any other has changed nothing and does not count, and its
      status is reported as it is. */
  ghost predicate Stopped(c: Csrs, start: Ref, result: Option<SimStatus>, final: Ref, k: nat) {
    var last := RefRun(c, start, k);
    && last.Running? && last.r.icount == start.icount + k
    && var step := RefStep(c, last.r);
       && step.Done? && step.status != OK
       && (result == Some(OK) <==> FetchesEcall(c, last.r))
       && (result != Some(OK) ==> result == Some(step.status) && final == last.r)
       && (result == Some(OK) ==> step.status == SIM_EXIT && final == Retire(last.r, Wrap(last.r.pc + 4)))
  }

  /** What n iterations of the simulator have to come to. */
  ghost predicate Reached(c: Csrs, start: Ref, result: Option<SimStatus>, final: Ref, n: nat, k: nat) {
    && (GoesOn(c, start, result, final, n, k) || Stopped(c, start, result, final, k))
    && forall p :: 0 <= p < TABLE_REGION_SIZE && p in start.mem ==> p in final.mem && final.mem[p] == start.mem[p]
  }

  lemma {:induction false} SegmentsInPlace(m: Mem, curr: nat, tab: Tables, mapped: Mapped, shadow: map<nat, nat>,
                                           next: nat, segs: seq<Segment>)
    requires TablesSound(m, curr, tab, mapped, next) && ShadowSound(m, mapped, shadow, next)
    requires forall s <- segs :: SegmentLoaded(m, shadow, s)
    ensures forall s <- segs :: InPlace(CSRS, m, s)
  {
    hide TablesSound, ShadowSound, SegmentLoaded, Translate, ByteAt, Extent;
    forall s, va: nat, access: AccessType | s in segs && s.vaddr <= va < s.vaddr + Extent(s)
      ensures ByteInPlace(CSRS, m, access, s, va)
    {
      ImageThroughTables(m, curr, tab, mapped, shadow, next, false, false, access, s, va - s.vaddr);
    }
  }

  lemma {:induction false} RunReached(s: Fast, curr: nat, tab: Tables, mapped: Mapped, shadow: map<nat, nat>,
                                      next: nat, n: nat, result: Option<SimStatus>, final: Fast)
    requires ValidFast(s) && NothingCached(s) && ValidFast(final)
    requires TablesSound(Flat(s.ph), curr, tab, mapped, next) && ShadowSound(Flat(s.ph), mapped, shadow, next)
    requires SafeRun(CSRS, Track(Abs(s), 0, iset{}))
    requires var o := Run(CSRS, s, n);
             && final == o.s && (result == None <==> o.status == None)
             && (result == Some(OK) <==> o.status == Some(SIM_EXIT)) && (result != Some(OK) ==> result == o.status)
    ensures exists k: nat :: Reached(CSRS, Abs(s), result, Abs(final), n, k)
  {
    hide Tree, Agrees, AvoidsRegion, Flat, ValidPhys, NothingCached, SafeRun, Run, RefRun, RefStep, Stopped,
      FetchesEcall;
    hide TablesSound, ShadowSound;
    var start := Abs(s);
    var k := LoadedRun(s, curr, tab, mapped, shadow, next, false, false, n, Track(start, 0, iset{}));
    TablesKept(start, curr, tab, mapped, shadow, next, k);
    if result == None {
      assert Reached(CSRS, start, result, Abs(final), n, k);
    } else {
      var j := StopFound(CSRS, start, k, result);
      assert Reached(CSRS, start, result, Abs(final), n, j);
    }
  }

  lemma {:induction false} TablesKept(start: Ref, curr: nat, tab: Tables, mapped: Mapped, shadow: map<nat, nat>,
                                      next: nat, k: nat)
    requires TablesSound(start.mem, curr, tab, mapped, next) && ShadowSound(start.mem, mapped, shadow, next)
    ensures var m := RefRun(CSRS, start, k).r.mem;
            forall p :: 0 <= p < TABLE_REGION_SIZE && p in start.mem ==> p in m && m[p] == start.mem[p]
  {
    hide Tree, Agrees, AvoidsRegion, RefRun;
    RoomLeft(shadow, mapped, next);
    LoadedAvoids(mapped, shadow, next);
    RunKeepsTree(REGION, CSRS, start, curr, tab, mapped, k);
  }

  lemma {:induction false} StopFound(c: Csrs, start: Ref, k: nat, result: Option<SimStatus>) returns (j: nat)
    requires RefRun(c, start, k).Done?
    requires var st := RefRun(c, start, k).status;
             && result.Some? && (result == Some(OK) <==> st == SIM_EXIT) && (result != Some(OK) ==> result == Some(st))
    ensures Stopped(c, start, result, RefRun(c, start, k).r, j)
  {
    hide RefRun, RefStep, FetchesEcall;
    j := ExitState(c, start, k);
    DoneStatus(c, RefRun(c, start, j).r);
  }

  /** The part of main that comes before simulation. */
  method LoadProgram(segs: seq<Segment>)
    returns (loaded: SimStatus, sim: Simulator, ghost curr: nat, ghost tab: Tables, ghost mapped: Mapped,
             ghost shadow: map<nat, nat>, ghost next: nat)
    requires forall s <- segs :: NoOverflow(s)
    ensures sim.Valid() && fresh(sim.Parts()) && sim.csrs == CSRS
    ensures NothingCached(sim.Val()) && sim.Val().regs == Start(0, map[]).regs
    ensures (forall s <- segs :: Contained(s)) ==> loaded != ABORT
    ensures var m := Flat(sim.Val().ph);
            loaded == OK ==>
              && TablesSound(m, curr, tab, mapped, next) && ShadowSound(m, mapped, shadow, next)
              && ((forall s <- segs :: Contained(s)) ==> forall s <- segs :: SegmentLoaded(m, shadow, s))
  {
    hide TablesSound, ShadowSound, NoOverflow, Contained, SegmentLoaded, PhysMemory.Valid, PhysMemory.Contents, Flat;
    var csrs := SetUpPaging();
    var pm := new PhysMemory();
    var sp;
    loaded, sp, curr, tab, mapped, shadow, next := LoadImage(pm, segs);
    pm.Facts();
    sim := new Simulator(csrs, pm);
    sim.WriteGpr(SP, sp);
  }

  /** The loader's work on an empty memory. */
  method LoadImage(pm: PhysMemory, segs: seq<Segment>)
    returns (loaded: SimStatus, sp: nat, ghost curr: nat, ghost tab: Tables, ghost mapped: Mapped,
             ghost shadow: map<nat, nat>, ghost next: nat)
    requires pm.Valid() && pm.Contents() == map[] && forall s <- segs :: NoOverflow(s)
    modifies pm
    ensures pm.Valid() && sp == STACK_BASE * PAGE_SIZE
    ensures (forall s <- segs :: Contained(s)) ==> loaded != ABORT
    ensures var m := pm.Contents();
            loaded == OK ==>
              && TablesSound(m, curr, tab, mapped, next) && ShadowSound(m, mapped, shadow, next)
              && ((forall s <- segs :: Contained(s)) ==> forall s <- segs :: SegmentLoaded(m, shadow, s))
  {
    hide TablesSound, ShadowSound, Keeps, Free, RangeMapped, NoOverflow, Contained, SegmentLoaded, PhysMemory.Valid,
      PhysMemory.Contents;
    pm.Facts();
    var loader := new ElfLoader(pm);
    var stack;
    stack, sp := loader.MapStack();
    assert stack == OK;
    loaded := loader.LoadSegments(segs);
    curr, tab, mapped, shadow, next := loader.mapper.curr, loader.tab, loader.mapped, loader.shadow, loader.next;
  }

  /** satp and mstatus as the application leaves them. */
  method SetUpPaging() returns (csrs: Csrs)
    ensures csrs == CSRS
  {
    hide Packed;
    RegistersWellFormed();
    ZeroFields();
    var satp := new CsrValue(64, SATP, 0);
    var mstatus := new CsrValue(64, MSTATUS, 0);
    satp.SetField(0, ModeCode(SV39));
    csrs := TranslationCsrs(satp.values, mstatus.values);
  }

  /** main: when loading succeeds and the file bytes of each segment fit its pages, every segment is in
      place in the image.  Then n iterations of the simulator end where the reference machine does,
      with every table page as it was, provided that the reference run leaves cached code alone. */
  method RunProgram(segs: seq<Segment>, entry: Word, n: nat)
    returns (loaded: SimStatus, result: Option<SimStatus>, sim: Simulator, ghost image: Mem)
    requires forall s <- segs :: NoOverflow(s)
    ensures sim.Valid()
    ensures (forall s <- segs :: Contained(s)) ==> loaded != ABORT
    ensures loaded == OK && (forall s <- segs :: Contained(s)) ==> forall s <- segs :: InPlace(CSRS, image, s)
    ensures loaded == OK && SafeRun(CSRS, Track(Start(entry, image), 0, iset{})) ==>
              exists k: nat :: Reached(CSRS, Start(entry, image), result, Abs(sim.Val()), n, k)
  {
    hide TablesSound, ShadowSound, NoOverflow, Contained, SegmentLoaded, InPlace, SafeRun, Run, Simulator.Valid, Flat,
      ValidPhys, Reached;
    ghost var curr, tab, mapped, shadow, next;
    loaded, sim, curr, tab, mapped, shadow, next := LoadProgram(segs);
    result := None;
    ghost var before := sim.Val();
    image := Flat(before.ph);
    if loaded != OK { return; }
    result := sim.Simulate(entry, n);
    if forall s <- segs :: Contained(s) { SegmentsInPlace(image, curr, tab, mapped, shadow, next, segs); }
    if SafeRun(CSRS, Track(Start(entry, image), 0, iset{})) {
      RunReached(before.(pc := entry, icount := 0), curr, tab, mapped, shadow, next, n, result, sim.Val());
    }
  }
}
