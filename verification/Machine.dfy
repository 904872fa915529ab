/** Two machines: the reference, which translates, fetches, decodes and executes one instruction
    at a time, and the simulator with its three translation caches and its block cache
    (simulator/src/simulator.cpp, simulator/include/sim/simulator/sim_instr.hpp). */
module Machine {
  import opened Common
  import opened Instr
  import opened PhysMem
  import opened Mmu
  import opened Tlb
  import opened Exec
  import opened Access
  import opened Block

  // ---------------------------------------------------------------- the reference machine

  datatype Ref = Ref(pc: Word, regs: Regs, icount: nat, mem: Mem)

  datatype Step = Running(r: Ref) | Done(status: SimStatus, r: Ref)

  function Retire(r: Ref, pc: Word): Ref { r.(pc := pc, icount := r.icount + 1) }

  function RefExec(c: Csrs, r: Ref, i: Instr): Step {
    match EffectOf(i, r.pc, r.regs)
    case Return(s) => Done(s, r)
    case SetReg(rd, v) => Running(Retire(r.(regs := WriteReg(r.regs, rd, v)), Wrap(r.pc + 4)))
    case Load(rd, va, n, isSigned) =>
      var l := RefLoad(c, r.mem, READ, va, n);
      if l.status != OK then Done(l.status, r)
      else Running(Retire(r.(regs := WriteReg(r.regs, rd, Extended(l.value, n, isSigned))), Wrap(r.pc + 4)))
    case Store(va, n, v) =>
      var s := RefStore(c, r.mem, va, n, v);
      if s.status != OK then Done(s.status, r)
      else Running(Retire(r.(mem := s.mem), Wrap(r.pc + 4)))
    case Jump(rd, link, target) => Running(Retire(r.(regs := WriteReg(r.regs, rd, link)), target))
    case Branch(target) => Running(Retire(r, target))
    case Exit => Done(SIM_EXIT, Retire(r, Wrap(r.pc + 4)))
  }

  function RefStep(c: Csrs, r: Ref): Step { RefExec(c, r, FetchDecode(c, r.mem, r.pc)) }

  /** At most k steps; a machine that is done stays done. */
  function RefRun(c: Csrs, r: Ref, k: nat): Step
    decreases k
  {
    if k == 0 then Running(r)
    else
      match RefStep(c, r)
      case Running(r') => RefRun(c, r', k - 1)
      case Done(s, r') => Done(s, r')
  }

  // ---------------------------------------------------------------- the simulator

  datatype Fast = Fast(pc: Word, regs: Regs, icount: nat, ph: Phys, rtlb: Entries, wtlb: Entries, ftlb: Entries,
                       bbs: Bbs)

  ghost predicate ValidFast(s: Fast) { ValidPhys(s.ph) }

  /** A handler either goes on with the next entry of the block or returns a status. */
  datatype Flow = Next(s: Fast) | Stop(status: SimStatus, s: Fast)

  function Advance(s: Fast): Fast { s.(pc := Wrap(s.pc + 4), icount := s.icount + 1) }

  /** One handler of sim_instr.hpp. */
  ghost function Handle(c: Csrs, s: Fast, e: Effect): (f: Flow)
    requires ValidFast(s)
    ensures ValidFast(f.s)
  {
    match e
    case Return(st) => Stop(st, s)
    case SetReg(rd, v) => Next(Advance(s.(regs := WriteReg(s.regs, rd, v))))
    case Load(rd, va, n, isSigned) =>
      var l := LoadInt(c, s.ph, s.rtlb, READ, va, n);
      if l.status != OK then Stop(l.status, s.(rtlb := l.tlb))
      else Next(Advance(s.(rtlb := l.tlb, regs := WriteReg(s.regs, rd, Extended(l.value, n, isSigned)))))
    case Store(va, n, v) =>
      var r := StoreInt(c, s.ph, s.wtlb, va, n, v);
      var s' := s.(ph := r.ph, wtlb := r.tlb);
      if r.status != OK then Stop(r.status, s') else Next(Advance(s'))
    case Jump(rd, link, target) =>
      Stop(OK, s.(regs := WriteReg(s.regs, rd, link), icount := s.icount + 1, pc := target))
    case Branch(target) => Stop(OK, s.(icount := s.icount + 1, pc := target))
    case Exit => Stop(SIM_EXIT, Advance(s))
  }

  /** The SIM_NEXT chain from entry i of a cached block; running off the array is a crash. */
  ghost function Chain(c: Csrs, s: Fast, slot: nat, i: nat): (f: Flow)
    requires ValidFast(s) && slot < BB_CACHE_SIZE
    ensures f.Stop? && ValidFast(f.s)
    decreases MAX_SIZE - i
  {
    if i >= MAX_SIZE then Stop(ABORT, s)
    else
      match Handle(c, s, EffectOf(s.bbs[slot].instrs[i], s.pc, s.regs))
      case Stop(st, s') => Stop(st, s')
      case Next(s') => Chain(c, s', slot, i + 1)
  }

  /** lost: the process ended while the block was being filled. */
  datatype Looked = Looked(lost: bool, s: Fast)

  /** Look up the block of pc, filling its slot when another block is there. */
  ghost function Lookup(c: Csrs, s: Fast): (l: Looked)
    requires ValidFast(s)
    ensures ValidFast(l.s)
  {
    var slot := BbSlot(s.pc);
    if s.bbs[slot].va == s.pc then Looked(false, s)
    else
      var f := Fill(c, s.ph, s.ftlb, s.bbs[slot].instrs, s.pc, 0);
      Looked(f.lost, s.(ftlb := f.ftlb, bbs := s.bbs[slot := Bb(s.pc, f.instrs)]))
  }

  /** One iteration of the main loop of Simulator::simulate. */
  ghost function Iterate(c: Csrs, s: Fast): (f: Flow)
    requires ValidFast(s)
    ensures f.Stop? && ValidFast(f.s)
  {
    var l := Lookup(c, s);
    if l.lost then Stop(ABORT, l.s) else Chain(c, l.s, BbSlot(s.pc), 0)
  }

  /** At most n iterations: the status that ended the loop, if one did. */
  datatype Outcome = Outcome(status: Option<SimStatus>, s: Fast)

  ghost function Run(c: Csrs, s: Fast, n: nat): (o: Outcome)
    requires ValidFast(s)
    ensures ValidFast(o.s)
    decreases n
  {
    if n == 0 then Outcome(None, s)
    else
      var f := Iterate(c, s);
      if f.status == OK then Run(c, f.s, n - 1) else Outcome(Some(f.status), f.s)
  }
}
