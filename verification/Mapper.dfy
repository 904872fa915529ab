/** SimpleMemoryMapper: builds translation tables in a region of physical pages
    (memory/src/memory.cpp and memory/include/sim/memory/simple_mapper.hpp). */
module Mapper {
  import opened Common
  import opened Bits
  import opened PhysMem
  import opened Pte
  import opened Mmu
  import opened MmuTheory

  type Flags = x: nat | x < 256

  /** MemoryMapping as the caller asks for it; V, A and D are added to the flags. */
  datatype Mapping = Mapping(flags: Flags, vpn: nat, ppn: nat)

  function FullFlags(flags: Flags): (f: Flags)
  {
    OrFlags(flags);
    Or(flags, DEFAULT_FLAGS)
  }

  lemma {:induction false} OrFlags(flags: Flags)
    ensures Or(flags, DEFAULT_FLAGS) < 256
  {
    Pow2Values();
    forall i: nat | i >= 8 ensures !Bit(Or(flags, DEFAULT_FLAGS), i) {
      BitOfOr(flags, DEFAULT_FLAGS, i);
      SmallBits(flags, 8, i);
      SmallBits(DEFAULT_FLAGS, 8, i);
    }
    BelowPow2(Or(flags, DEFAULT_FLAGS), 8);
  }

  /** V, A and D. */
  predicate DefaultsSet(flags: Flags) { V(flags) && A(flags) && D(flags) }

  lemma {:induction false} FullFlagsBits(flags: Flags)
    ensures DefaultsSet(FullFlags(flags))
    ensures forall k: nat :: 1 <= k <= 5 ==> Bit(FullFlags(flags), k) == Bit(flags, k)
  {
    assert DEFAULT_FLAGS / 2 / 2 / 2 / 2 / 2 / 2 == 3;
    BitOfOr(flags, DEFAULT_FLAGS, 0);
    BitOfOr(flags, DEFAULT_FLAGS, 6);
    BitOfOr(flags, DEFAULT_FLAGS, 7);
    BitOfConcat(3, 1, 6, 6);
    BitOfConcat(3, 1, 6, 7);
    Pow2Values();
    forall k: nat | 1 <= k <= 5 ensures Bit(FullFlags(flags), k) == Bit(flags, k) {
      BitOfOr(flags, DEFAULT_FLAGS, k);
      BitOfConcat(3, 1, 6, k);
      OneBit(k);
    }
  }

  /** The table region [begin, end); the root table is page `begin`. */
  datatype Region = Region(mode: Mode, begin: nat, end: nat)

  ghost predicate ValidRegion(g: Region) {
    g.mode != BARE && g.begin < g.end <= PPN_LIMIT
  }

  datatype MapResult = MapResult(status: SimStatus, mem: Mem, curr: nat)

  function MapVa(req: Mapping): nat { (req.vpn * PAGE_SIZE) % TWO64 }

  /** One iteration of the loop of SimpleMemoryMapper::map either returns or goes on with the
      next table, one level down. */
  datatype Level = Stop(result: MapResult) | Down(mem: Mem, curr: nat, table: nat)

  function MapLevel(g: Region, m: Mem, curr: nat, req: Mapping, i: nat, table: nat): (l: Level)
    requires i < 5
    ensures l.Down? ==> i > 0
  {
    var pa := PteAddr(table, MapVa(req), i);
    var read := Read(m, pa, 8);
    if read.status != OK then Stop(MapResult(read.status, m, curr))
    else if V(read.value) then
      if i == 0 then Stop(MapResult(MAPPER_ALREADY_MAPPED, m, curr))
      else Down(m, curr, PtePpn(read.value))
    else if i == 0 then
      var w := Write(m, pa, 8, CreatePte(req.ppn, FullFlags(req.flags)));
      Stop(MapResult(w.status, w.mem, curr))
    else if curr == g.end then Stop(MapResult(MAPPER_TABLE_REGION_END, m, curr))
    else
      var pte := CreatePte(curr, V_MASK);
      var w := Write(m, pa, 8, pte);
      if w.status != OK then Stop(MapResult(w.status, w.mem, curr + 1))
      else Down(w.mem, curr + 1, PtePpn(pte))
  }

  /** The whole loop, from `table` at level i; curr is m_curr_table. */
  function MapWalk(g: Region, m: Mem, curr: nat, req: Mapping, i: nat, table: nat): MapResult
    requires i < 5
    decreases i
  {
    match MapLevel(g, m, curr, req, i, table)
    case Stop(r) => r
    case Down(m', curr', table') => MapWalk(g, m', curr', req, i - 1, table')
  }

  function Map(g: Region, m: Mem, curr: nat, req: Mapping): MapResult {
    if g.begin <= req.ppn < g.end then MapResult(MAPPER_TABLE_REGION_PAGE_MAPPED, m, curr)
    else if g.mode == BARE then MapResult(ABORT, m, curr)
    else MapWalk(g, m, curr, req, ModeToLevels(g.mode) - 1, g.begin)
  }

  /** m with new zero pages from a up to b. */
  ghost function WithZeroPages(m: Mem, a: nat, b: nat): Mem {
    if b <= a then m else WithZeroPages(m, a, b - 1)[b - 1 := ZeroPage()]
  }

  lemma {:induction false} WithZeroPagesIs(m: Mem, a: nat, b: nat)
    ensures forall t :: t in WithZeroPages(m, a, b) <==> t in m || a <= t < b
    ensures forall t :: t in WithZeroPages(m, a, b) ==>
            WithZeroPages(m, a, b)[t] == if a <= t < b then ZeroPage() else m[t]
  {
    if a < b { WithZeroPagesIs(m, a, b - 1); }
  }

  ghost predicate Extends(before: map<nat, HostPage>, after: map<nat, HostPage>) {
    forall p <- before :: p in after && after[p] == before[p]
  }

  // ---------------------------------------------------------------- the mapper object

  class SimpleMemoryMapper {
    const pm: PhysMemory
    const region: Region
    var curr: nat

    /** Reserves the region: every page of it must be new (the source asserts that). */
    constructor (pm: PhysMemory, region: Region)
      requires pm.Valid() && region.begin < region.end
      requires forall t :: region.begin <= t < region.end ==> t !in pm.mapping
      modifies pm
      ensures this.pm == pm && this.region == region && curr == region.begin + 1
      ensures pm.Valid()
      ensures pm.Contents() == WithZeroPages(old(pm.Contents()), region.begin, region.end)
      ensures Extends(old(pm.mapping), pm.mapping)
    {
      this.pm := pm;
      this.region := region;
      curr := region.begin + 1;
      new;
      ReservePages(pm, region.begin, region.end);
    }

    /** The loop of the constructor. */
    static method ReservePages(pm: PhysMemory, begin: nat, end: nat)
      requires pm.Valid() && begin <= end
      requires forall t :: begin <= t < end ==> t !in pm.mapping
      modifies pm
      ensures pm.Valid()
      ensures pm.Contents() == WithZeroPages(old(pm.Contents()), begin, end)
      ensures Extends(old(pm.mapping), pm.mapping)
    {
      var t: nat := begin;
      while t != end
        invariant begin <= t <= end
        invariant pm.Valid()
        invariant pm.Contents() == WithZeroPages(old(pm.Contents()), begin, t)
        invariant Extends(old(pm.mapping), pm.mapping)
        invariant forall u :: t <= u < end ==> u !in pm.mapping
        decreases end - t
      {
        var added := pm.AddRamPage(t);
        t := t + 1;
      }
    }

    /** The body of the loop of SimpleMemoryMapper::map. */
    method MapOneLevel(req: Mapping, i: nat, table: nat) returns (stop: Option<SimStatus>, next: nat)
      requires pm.Valid() && i < 5
      modifies pm, this
      ensures pm.Valid() && pm.mapping == old(pm.mapping)
      ensures stop.Some? ==>
        MapLevel(region, old(pm.Contents()), old(curr), req, i, table) ==
          Stop(MapResult(stop.value, pm.Contents(), curr))
      ensures stop.None? ==>
        MapLevel(region, old(pm.Contents()), old(curr), req, i, table) == Down(pm.Contents(), curr, next)
    {
      hide CreatePte, PtePpn, FullFlags, PteAddr, Read, Write, PhysMemory.Valid, PhysMemory.Contents, Pow2;
      next := 0;
      var pa := PteAddr(table, MapVa(req), i);
      var read, _ := pm.ReadInt(pa, 8);
      if read.status != OK { return Some(read.status), 0; }
      var pte := read.value;
      if !V(pte) {
        if i != 0 {
          if curr == region.end { return Some(MAPPER_TABLE_REGION_END), 0; }
          pte := CreatePte(curr, V_MASK);
          curr := curr + 1;
        } else {
          pte := CreatePte(req.ppn, FullFlags(req.flags));
        }
        var s, _ := pm.WriteInt(pa, 8, pte);
        if s != OK || i == 0 { return Some(s), 0; }
      } else if i == 0 {
        return Some(MAPPER_ALREADY_MAPPED), 0;
      }
      return None, PtePpn(pte);
    }

    /** SimpleMemoryMapper::map. */
    method MapPage(req: Mapping) returns (status: SimStatus)
      requires pm.Valid()
      modifies pm, this
      ensures pm.Valid() && pm.mapping == old(pm.mapping)
      ensures MapResult(status, pm.Contents(), curr) == Map(region, old(pm.Contents()), old(curr), req)
    {
      if region.begin <= req.ppn < region.end { return MAPPER_TABLE_REGION_PAGE_MAPPED; }
      if region.mode == BARE { return ABORT; }
      status := MapLoop(req, ModeToLevels(region.mode) - 1, region.begin);
    }

    /** The loop of SimpleMemoryMapper::map. */
    method MapLoop(req: Mapping, top: nat, root: nat) returns (status: SimStatus)
      requires pm.Valid() && top < 5
      modifies pm, this
      ensures pm.Valid() && pm.mapping == old(pm.mapping)
      ensures MapResult(status, pm.Contents(), curr) == MapWalk(region, old(pm.Contents()), old(curr), req, top, root)
    {
      hide MapLevel, PhysMemory.Valid, PhysMemory.Contents, Pow2;
      var i, table, stop := top, root, None;
      while stop.None?
        invariant i < 5
        invariant pm.Valid() && pm.mapping == old(pm.mapping)
        invariant stop.None? ==>
          MapWalk(region, old(pm.Contents()), old(curr), req, top, root) ==
            MapWalk(region, pm.Contents(), curr, req, i, table)
        invariant stop.Some? ==>
          MapWalk(region, old(pm.Contents()), old(curr), req, top, root) == MapResult(stop.value, pm.Contents(), curr)
        decreases stop.None?, i
      {
        stop, table := MapOneLevel(req, i, table);
        if stop.None? { i := i - 1; }
      }
      status := stop.value;
    }
  }
}
