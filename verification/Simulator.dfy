/** The simulator object (simulator/include/sim/simulator.hpp, simulator/src/simulator.cpp), its
    state updated in place; every method computes the function that specifies it. */
module Simulator {
  import opened Common
  import opened Instr
  import opened PhysMem
  import opened Mmu
  import opened Tlb
  import opened Exec
  import opened Access
  import opened Decoder
  import opened Block
  import opened Machine

  /** Host pointers in a cache come from the guest memory map. */
  ghost predicate HostsOk(mapping: map<nat, HostPage>, tlb: Entries) {
    forall i :: 0 <= i < TLB_SIZE && tlb[i].host.Some? ==> tlb[i].host.value in mapping.Values
  }

  lemma {:induction false} UpdateHosts(mapping: map<nat, HostPage>, tlb: Entries, va: nat, p: nat)
    requires HostsOk(mapping, tlb) && p in mapping
    ensures HostsOk(mapping, Update(tlb, va, mapping[p]))
  {
  }

  lemma {:induction false} HostOfSlot(mapping: map<nat, HostPage>, tlb: Entries, va: nat)
    requires HostsOk(mapping, tlb) && tlb[Slot(va)].host.Some?
    ensures tlb[Slot(va)].host.value in mapping.Values
  {
  }

  lemma {:induction false} RunStep(c: Csrs, s: Fast, n: nat)
    requires ValidFast(s) && n > 0
    ensures var f := Iterate(c, s);
            Run(c, s, n) == if f.status == OK then Run(c, f.s, n - 1) else Outcome(Some(f.status), f.s)
  {
    hide Iterate;
  }

  lemma {:induction false} RunNothing(c: Csrs, s: Fast)
    requires ValidFast(s)
    ensures Run(c, s, 0) == Outcome(None, s)
  {
    hide Iterate;
  }

  /** The block cache: 128 blocks of 16 entries, stored inline. */
  class BbCache {
    const vas: array<nat>
    const instrs: array2<Instr>

    ghost predicate Sized() {
      vas.Length == BB_CACHE_SIZE && instrs.Length0 == BB_CACHE_SIZE && instrs.Length1 == MAX_SIZE
    }

    ghost function Row(slot: nat): Instrs
      requires Sized() && slot < BB_CACHE_SIZE
      reads instrs
    {
      seq(MAX_SIZE, j requires 0 <= j < MAX_SIZE reads instrs => instrs[slot, j])
    }

    ghost function Val(): Bbs
      requires Sized()
      reads vas, instrs
    {
      seq(BB_CACHE_SIZE, i requires 0 <= i < BB_CACHE_SIZE reads vas, instrs => Bb(vas[i], Row(i)))
    }

    constructor ()
      ensures Sized() && fresh(vas) && fresh(instrs)
      ensures forall i :: 0 <= i < BB_CACHE_SIZE ==> Val()[i] == DefaultBb()
    {
      vas := new nat[BB_CACHE_SIZE](_ => INVALID_VA);
      instrs := new Instr[BB_CACHE_SIZE, MAX_SIZE]((_, _) => ILLEGAL);
      new;
      forall i | 0 <= i < BB_CACHE_SIZE ensures Val()[i] == DefaultBb() {
        assert Row(i) == DefaultBb().instrs;
      }
    }

    /** Bb::invalidate of every block: the tag and the first entry. */
    method Invalidate()
      requires Sized()
      modifies vas, instrs
      ensures forall i :: 0 <= i < BB_CACHE_SIZE ==>
                Val()[i] == Bb(INVALID_VA, old(Val())[i].instrs[0 := Status(SIM_NOT_IMPLEMENTED_INSTR)])
    {
      for i := 0 to BB_CACHE_SIZE
        invariant forall k :: 0 <= k < i ==> vas[k] == INVALID_VA && instrs[k, 0] == Status(SIM_NOT_IMPLEMENTED_INSTR)
        invariant forall k, j :: 0 <= k < BB_CACHE_SIZE && 0 < j < MAX_SIZE ==> instrs[k, j] == old(instrs[k, j])
      {
        vas[i] := INVALID_VA;
        instrs[i, 0] := Status(SIM_NOT_IMPLEMENTED_INSTR);
      }
      forall i | 0 <= i < BB_CACHE_SIZE
        ensures Val()[i] == Bb(INVALID_VA, old(Val())[i].instrs[0 := Status(SIM_NOT_IMPLEMENTED_INSTR)])
      {
        assert Row(i) == old(Val())[i].instrs[0 := Status(SIM_NOT_IMPLEMENTED_INSTR)];
      }
    }

    method SetEntry(slot: nat, j: nat, i: Instr)
      requires Sized() && slot < BB_CACHE_SIZE && j < MAX_SIZE
      modifies instrs
      ensures Row(slot) == old(Row(slot))[j := i]
      ensures forall k :: 0 <= k < BB_CACHE_SIZE && k != slot ==> Row(k) == old(Row(k))
    {
      instrs[slot, j] := i;
      assert Row(slot) == old(Row(slot))[j := i];
      forall k | 0 <= k < BB_CACHE_SIZE && k != slot ensures Row(k) == old(Row(k)) {
        assert forall l :: 0 <= l < MAX_SIZE ==> Row(k)[l] == old(Row(k))[l];
      }
    }
  }

  class Simulator {
    const csrs: Csrs
    const pm: PhysMemory
    const rtlb: TlbCache
    const wtlb: TlbCache
    const ftlb: TlbCache
    const bbs: BbCache
    const gpr: array<Word>
    var pc: Word
    var icount: nat

    /** The parts have their sizes and are different objects. */
    ghost predicate Wired() {
      && rtlb.entries.Length == wtlb.entries.Length == ftlb.entries.Length == TLB_SIZE
      && rtlb.entries != wtlb.entries && rtlb.entries != ftlb.entries && wtlb.entries != ftlb.entries
      && bbs.Sized()
      && gpr.Length == 32
    }

    ghost function Parts(): set<object> {
      {this, pm, rtlb.entries, wtlb.entries, ftlb.entries, bbs.vas, bbs.instrs, gpr}
    }

    ghost predicate Valid()
      reads Parts()
    {
      && Wired()
      && pm.Valid()
      && HostsOk(pm.mapping, rtlb.Val()) && HostsOk(pm.mapping, wtlb.Val()) && HostsOk(pm.mapping, ftlb.Val())
    }

    ghost function Val(): (s: Fast)
      requires Valid()
      reads Parts()
      ensures ValidFast(s)
    {
      Fast(pc, gpr[..], icount, pm.Val(), rtlb.Val(), wtlb.Val(), ftlb.Val(), bbs.Val())
    }

    constructor (csrs: Csrs, pm: PhysMemory)
      requires pm.Valid()
      ensures this.csrs == csrs && this.pm == pm && Valid() && fresh(Parts() - {pm})
      ensures Val() == Fast(0, seq(32, _ => 0), 0, pm.Val(), Empty(), Empty(), Empty(),
                            seq(BB_CACHE_SIZE, _ => DefaultBb()))
    {
      this.csrs := csrs;
      this.pm := pm;
      rtlb := new TlbCache();
      wtlb := new TlbCache();
      ftlb := new TlbCache();
      bbs := new BbCache();
      gpr := new Word[32](_ => 0);
      pc, icount := 0, 0;
      new;
      assert bbs.Val() == seq(BB_CACHE_SIZE, _ => DefaultBb());
      assert gpr[..] == seq(32, _ => 0);
    }

    /** Simulator::loadInt for one access type, with the cache that serves it. */
    method LoadThrough(tlb: TlbCache, access: AccessType, va: nat, n: Width) returns (status: SimStatus, value: nat)
      requires pm.Valid() && tlb.entries.Length == TLB_SIZE && HostsOk(pm.mapping, tlb.Val())
      modifies tlb.entries
      ensures HostsOk(pm.mapping, tlb.Val())
      ensures CachedLoad(status, value, tlb.Val()) == LoadInt(csrs, pm.Val(), old(tlb.Val()), access, va, n)
    {
      hide Translate, Read, HostRead, Hit, Update, Slot, HostsOk, PhysMemory.Valid, ValidPhys;
      pm.Facts();
      if va % n != 0 { return SIM_UNALIGNED_LOAD, 0; }
      var hit, host := tlb.Find(va);
      if hit {
        AlignedInPage(va, n);
        if host.None? { return ABORT, 0; }
        HostOfSlot(pm.mapping, tlb.Val(), va);
        pm.MappedAllocated(host.value);
        return OK, HostRead(pm.Val(), host.value, va % PAGE_SIZE, n);
      }
      var t := TranslateVa(pm, csrs, USER, access, va);
      if t.status != OK { return t.status, 0; }
      var r, page := pm.ReadInt(t.pa, n);
      if r.status != OK { return r.status, 0; }
      UpdateHosts(pm.mapping, tlb.Val(), va, t.pa / PAGE_SIZE);
      tlb.Put(va, page.value);
      return OK, r.value;
    }

    /** Simulator::storeInt. */
    method StoreThrough(va: nat, n: Width, v: nat) returns (status: SimStatus)
      requires Valid()
      modifies pm, wtlb.entries
      ensures Valid()
      ensures CachedStore(status, pm.Val(), wtlb.Val()) == StoreInt(csrs, old(pm.Val()), old(wtlb.Val()), va, n, v)
    {
      hide Translate, Write, HostWrite, Hit, Update, Slot, HostsOk, PhysMemory.Valid, ValidPhys;
      pm.Facts();
      if va % n != 0 { return SIM_UNALIGNED_STORE; }
      var hit, host := wtlb.Find(va);
      if hit {
        AlignedInPage(va, n);
        if host.None? { return ABORT; }
        HostOfSlot(pm.mapping, wtlb.Val(), va);
        pm.MappedAllocated(host.value);
        pm.StoreHost(host.value, va % PAGE_SIZE, n, v);
        return OK;
      }
      var t := TranslateVa(pm, csrs, USER, WRITE, va);
      if t.status != OK { return t.status; }
      var s, page := pm.WriteInt(t.pa, n, v);
      if s != OK { return s; }
      UpdateHosts(pm.mapping, wtlb.Val(), va, t.pa / PAGE_SIZE);
      wtlb.Put(va, page.value);
      return OK;
    }

    /** The loop of Bb::update: fetch and decode into the block until something ends it, or the
        process. */
    method FillBlock(slot: nat, va: Word) returns (lost: bool)
      requires Valid() && slot < BB_CACHE_SIZE
      modifies ftlb.entries, bbs.instrs
      ensures Valid()
      ensures Filled(lost, bbs.Row(slot), ftlb.Val()) ==
              Fill(csrs, pm.Val(), old(ftlb.Val()), old(bbs.Row(slot)), va, 0)
      ensures forall k :: 0 <= k < BB_CACHE_SIZE && k != slot ==> bbs.Row(k) == old(bbs.Row(k))
    {
      hide LoadInt, Decode, Ends, PhysMemory.Valid, ValidPhys, BbCache.Row, HostsOk;
      pm.Facts();
      ghost var goal := Fill(csrs, pm.Val(), ftlb.Val(), bbs.Row(slot), va, 0);
      var i, done := 0, false;
      lost := false;
      while !done && i < MAX_SIZE - 1
        invariant i < MAX_SIZE && Valid()
        invariant !done ==> !lost && Fill(csrs, pm.Val(), ftlb.Val(), bbs.Row(slot), va, i) == goal
        invariant done ==> Filled(lost, bbs.Row(slot), ftlb.Val()) == goal
        invariant forall k :: 0 <= k < BB_CACHE_SIZE && k != slot ==> bbs.Row(k) == old(bbs.Row(k))
        decreases !done, MAX_SIZE - i
      {
        var status, word := LoadThrough(ftlb, FETCH, EntryVa(va, i), 4);
        if status == ABORT {
          lost := true;
          break;
        }
        var instr := if status != OK then Status(status) else Decode(word);
        bbs.SetEntry(slot, i, instr);
        if status != OK || Ends(instr) {
          done := true;
        } else {
          i := i + 1;
        }
      }
      if !done && !lost { bbs.SetEntry(slot, MAX_SIZE - 1, Status(OK)); }
    }

    /** The block of pc, filled first when its slot holds another one. */
    method LookupBlock() returns (slot: nat, lost: bool)
      requires Valid()
      modifies ftlb.entries, bbs.instrs, bbs.vas
      ensures Valid() && slot == BbSlot(pc)
      ensures Looked(lost, Val()) == Lookup(csrs, old(Val()))
    {
      hide Fill, PhysMemory.Valid, ValidPhys, HostsOk;
      slot, lost := BbSlot(pc), false;
      if bbs.vas[slot] != pc {
        bbs.vas[slot] := pc;
        lost := FillBlock(slot, pc);
        assert bbs.Val() == old(bbs.Val())[slot := Bb(pc, bbs.Row(slot))];
      }
    }

    /** GPRFile::write. */
    method WriteGpr(rd: Reg, v: Word)
      requires gpr.Length == 32
      modifies gpr
      ensures gpr[..] == WriteReg(old(gpr[..]), rd, v)
    {
      gpr[rd] := v;
      gpr[0] := 0;
      assert gpr[..] == WriteReg(old(gpr[..]), rd, v);
    }

    /** One instruction handler. */
    method Perform(e: Effect) returns (next: bool, status: SimStatus)
      requires Valid()
      modifies this, pm, rtlb.entries, wtlb.entries, gpr
      ensures Valid()
      ensures Handle(csrs, old(Val()), e) == if next then Next(Val()) else Stop(status, Val())
    {
      hide LoadInt, StoreInt, PhysMemory.Valid, ValidPhys, HostsOk, BbCache.Val, WriteReg, Extended;
      next, status := true, OK;
      match e {
        case Return(st) => return false, st;
        case SetReg(rd, v) => WriteGpr(rd, v);
        case Load(rd, va, n, isSigned) =>
          var st, value := LoadThrough(rtlb, READ, va, n);
          if st != OK { return false, st; }
          WriteGpr(rd, Extended(value, n, isSigned));
        case Store(va, n, v) =>
          var st := StoreThrough(va, n, v);
          if st != OK { return false, st; }
        case Jump(rd, link, target) =>
          WriteGpr(rd, link);
          icount := icount + 1;
          pc := target;
          return false, OK;
        case Branch(target) =>
          icount := icount + 1;
          pc := target;
          return false, OK;
        case Exit => next, status := false, SIM_EXIT;
      }
      icount := icount + 1;
      pc := Wrap(pc + 4);
    }

    /** The SIM_NEXT chain through a block. */
    method RunChain(slot: nat) returns (status: SimStatus)
      requires Valid() && slot < BB_CACHE_SIZE
      modifies this, pm, rtlb.entries, wtlb.entries, gpr
      ensures Valid()
      ensures Chain(csrs, old(Val()), slot, 0) == Stop(status, Val())
    {
      hide Handle, EffectOf, PhysMemory.Valid, ValidPhys, HostsOk;
      ghost var goal := Chain(csrs, Val(), slot, 0);
      var i, next := 0, true;
      status := ABORT;
      while next && i < MAX_SIZE
        invariant i <= MAX_SIZE && Valid()
        invariant next ==> status == ABORT && Chain(csrs, Val(), slot, i) == goal
        invariant !next ==> Stop(status, Val()) == goal
        decreases next, MAX_SIZE - i
      {
        var st;
        next, st := Perform(EffectOf(bbs.instrs[slot, i], pc, gpr[..]));
        if !next { status := st; }
        i := i + 1;
      }
    }

    /** Simulator::simulate for at most n iterations of its main loop; None while it still runs. */
    method Simulate(start: Word, n: nat) returns (result: Option<SimStatus>)
      requires Valid()
      modifies Parts()
      ensures Valid()
      ensures var o := Run(csrs, old(Val()).(pc := start, icount := 0), n);
              && Val() == o.s
              && (result == None <==> o.status == None)
              && (result == Some(OK) <==> o.status == Some(SIM_EXIT))
              && (result != Some(OK) ==> result == o.status)
    {
      hide Run, PhysMemory.Valid, ValidPhys, HostsOk, BbCache.Val;
      pc, icount := start, 0;
      var status := MainLoop(n);
      result := status;
      if status == Some(SIM_EXIT) { result := Some(OK); }
    }

    method MainLoop(n: nat) returns (status: Option<SimStatus>)
      requires Valid()
      modifies Parts()
      ensures Valid() && Outcome(status, Val()) == Run(csrs, old(Val()), n) && status != Some(OK)
    {
      hide Iterate, Run, Simulator.Val, Simulator.Valid;
      ghost var goal := Run(csrs, Val(), n);
      status := None;
      var k := n;
      while k > 0 && status.None?
        invariant Valid()
        invariant status.None? ==> Run(csrs, Val(), k) == goal
        invariant status.Some? ==> Outcome(status, Val()) == goal && status != Some(OK)
        decreases k
      {
        RunStep(csrs, Val(), k);
        var st := IterateOnce();
        if st != OK { status := Some(st); }
        k := k - 1;
      }
      RunNothing(csrs, Val());
    }

    method IterateOnce() returns (status: SimStatus)
      requires Valid()
      modifies Parts()
      ensures Valid()
      ensures Iterate(csrs, old(Val())) == Stop(status, Val())
    {
      hide Lookup, Chain, PhysMemory.Valid, ValidPhys, HostsOk;
      var slot, lost := LookupBlock();
      if lost { return ABORT; }
      status := RunChain(slot);
    }
  }
}
