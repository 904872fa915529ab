/** ElfLoader (elf_load/include/sim/elf_load.hpp, elf_load/src/elf_load.cpp): maps pages, keeps
    its own copy of the mapping and copies segments into them.  The file is given as a list of
    loadable segments. */
module Loader {
  import opened Common
  import opened Bits
  import opened PhysMem
  import opened Pte
  import opened Mmu
  import opened MmuTheory
  import opened Mapper
  import opened MapperTheory
  import opened MapperTheorems
  import opened LoaderTheory

  class ElfLoader {
    const pm: PhysMemory
    const mapper: SimpleMemoryMapper
    var next: nat
    var shadow: map<nat, nat>
    ghost var tab: Tables
    ghost var mapped: Mapped

    ghost predicate Valid()
      reads this, pm, mapper
    {
      && pm.Valid() && mapper.pm == pm && mapper.region == REGION
      && TablesSound(pm.Contents(), mapper.curr, tab, mapped, next)
    }

    /** As long as every mapPage returned OK. */
    ghost predicate Agreed()
      reads this, pm
      requires pm.Valid()
    {
      ShadowSound(pm.Contents(), mapped, shadow, next)
    }

    /** The pages of the table region must be new, as the mapper asserts; others may be there. */
    constructor (pm: PhysMemory)
      requires pm.Valid() && forall t :: 0 <= t < TABLE_REGION_SIZE ==> t !in pm.mapping
      modifies pm
      ensures this.pm == pm && Valid() && Agreed() && fresh(mapper)
      ensures pm.Contents() == WithZeroPages(old(pm.Contents()), 0, TABLE_REGION_SIZE)
      ensures shadow == map[] && mapped == map[] && tab == map[Node(2, 0) := 0] && next == TABLE_REGION_SIZE
      ensures old(pm.Contents()) == map[] ==> Free(pm.Contents(), next)
    {
      hide TablesSound, ShadowSound, Free, PhysMemory.Valid, PhysMemory.Contents, ZeroPage, WithZeroPages;
      ghost var m0 := pm.Contents();
      this.pm := pm;
      mapper := new SimpleMemoryMapper(pm, REGION);
      next := TABLE_REGION_SIZE;
      shadow := map[];
      tab := map[Node(2, 0) := 0];
      mapped := map[];
      new;
      FreshLoader(m0);
    }

    /** ElfLoader::mapPage; the assertion that the page is new fails exactly when it is not. */
    method MapPage(vpn: nat) returns (status: SimStatus)
      requires Valid()
      modifies this, pm, mapper
      ensures Valid() && next == old(next) + 1
      ensures status == ABORT <==> old(next in pm.Contents())
      ensures status != ABORT ==>
                AbstractMap(REGION, Abstract(old(tab.Keys), old(mapped)), Mapping(PAGE_FLAGS, vpn, old(next))) ==
                AbstractResult(status, Abstract(tab.Keys, mapped))
      ensures old(Agreed()) && status == OK ==>
                Agreed() && old(vpn !in shadow) && shadow == old(shadow)[vpn := old(next)] &&
                old(next) in pm.Contents() && pm.Contents()[old(next)] == ZeroPage()
      ensures old(Agreed()) ==> Keeps(old(pm.Contents()), old(shadow), pm.Contents(), shadow)
      ensures old(Free(pm.Contents(), next)) ==> status != ABORT && Free(pm.Contents(), next)
    {
      hide TablesSound, ShadowSound, Map, AbstractMap, Keeps, Free, ZeroPage, PhysMemory.Valid, PhysMemory.Contents;
      ghost var m, a := pm.Contents(), AbstractMap(REGION, Abstract(tab.Keys, mapped), Mapping(PAGE_FLAGS, vpn, next));
      pm.Facts();
      StartRange(m, shadow, 0);
      ghost var tab' := tab;
      if next !in m { tab' := PageStep(m, mapper.curr, tab, mapped, shadow, next, vpn); }
      NextPage(m, mapper.curr, tab, mapped, next);
      NotThere(m, next);
      var ppn := next;
      next := next + 1;
      var added := pm.AddRamPage(ppn);
      if !added { return ABORT; }
      if vpn !in shadow { shadow := shadow[vpn := ppn]; }
      status := mapper.MapPage(Mapping(PAGE_FLAGS, vpn, ppn));
      tab, mapped := tab', a.state.mapped;
    }

    /** ElfLoader::mapStack.  On a fresh loader it cannot fail, and takes 9 of the 15 spare tables. */
    method MapStack() returns (status: SimStatus, sp: nat)
      requires Valid() && Agreed()
      modifies this, pm, mapper
      ensures Valid() && Keeps(old(pm.Contents()), old(shadow), pm.Contents(), shadow)
      ensures status == OK ==>
        && Agreed() && sp == STACK_BASE * PAGE_SIZE == 0x100_0000_0000
        && RangeMapped(pm.Contents(), old(shadow), shadow, STACK_BASE - STACK_SIZE, STACK_BASE)
      ensures old(Free(pm.Contents(), next)) ==> Free(pm.Contents(), next)
      ensures old(Free(pm.Contents(), next)) && old(tab.Keys) == {Node(2, 0)} && old(mapped) == map[] ==>
                status == OK && mapper.curr == 10
    {
      hide AbstractMap, TablesSound, ShadowSound, Keeps, Free, StackPages, StackNodes, PhysMemory.Valid,
        PhysMemory.Contents;
      ghost var m0, before, wasFree := pm.Contents(), shadow, Free(pm.Contents(), next);
      ghost var isFresh := wasFree && tab.Keys == {Node(2, 0)} && mapped == map[];
      StackBegins(m0, before, tab.Keys, mapped, next);
      ghost var j: nat := 0;
      var vpn: nat := STACK_BASE - STACK_SIZE;
      while vpn != STACK_BASE
        invariant vpn == STACK_BASE - STACK_SIZE + j && j <= STACK_SIZE
        invariant Valid() && Agreed()
        invariant StackPages(m0, before, pm.Contents(), shadow, tab.Keys, mapped, next, j, wasFree, isFresh)
        decreases STACK_BASE - vpn
      {
        ghost var m, s, nodes, mapped0, ppn := pm.Contents(), shadow, tab.Keys, mapped, next;
        TableCount(m, mapper.curr, tab, mapped, next);
        status := MapPage(vpn);
        StackGrows(m0, before, m, s, nodes, mapped0, ppn, j, wasFree, isFresh, pm.Contents(), shadow, tab.Keys,
          mapped, status);
        if status != OK { return status, 0; }
        vpn, j := vpn + 1, j + 1;
      }
      TableCount(pm.Contents(), mapper.curr, tab, mapped, next);
      StackEnds(m0, before, pm.Contents(), shadow, tab.Keys, mapped, next, wasFree, isFresh);
      return OK, STACK_BASE * PAGE_SIZE;
    }

    /** The page loop of loadElf. */
    method MapSegment(seg: Segment) returns (status: SimStatus)
      requires Valid() && Agreed() && NoOverflow(seg)
      modifies this, pm, mapper
      ensures Valid() && Keeps(old(pm.Contents()), old(shadow), pm.Contents(), shadow)
      ensures status == OK ==> Agreed() && RangeMapped(pm.Contents(), old(shadow), shadow, FirstPage(seg), EndPage(seg))
      ensures old(Free(pm.Contents(), next)) ==> status != ABORT && Free(pm.Contents(), next)
    {
      hide AbstractMap, TablesSound, ShadowSound, Keeps, Free, RangeMapped, PhysMemory.Valid, PhysMemory.Contents;
      ghost var m0, before := pm.Contents(), shadow;
      StartRange(m0, before, FirstPage(seg));
      var pageVa: nat, end := seg.vaddr - seg.vaddr % PAGE_SIZE, seg.vaddr + seg.memsz;
      while pageVa < end
        invariant pageVa % PAGE_SIZE == 0 && FirstPage(seg) <= pageVa / PAGE_SIZE <= EndPage(seg)
        invariant Valid() && Agreed() && Keeps(m0, before, pm.Contents(), shadow)
        invariant RangeMapped(pm.Contents(), before, shadow, FirstPage(seg), pageVa / PAGE_SIZE)
        invariant old(Free(pm.Contents(), next)) ==> Free(pm.Contents(), next)
      {
        ghost var m, s, ppn := pm.Contents(), shadow, next;
        status := MapPage(pageVa / PAGE_SIZE);
        KeepsTrans(m0, before, m, s, pm.Contents(), shadow);
        if status != OK { return; }
        RangeStep(m0, before, m, s, pm.Contents(), FirstPage(seg), pageVa / PAGE_SIZE, ppn);
        pageVa := pageVa + PAGE_SIZE;
      }
      return OK;
    }

    /** The chunk loop of loadElf.  If the file bytes fit the pages of the segment, all of it is in
        place at the end and what was mapped before is kept. */
    method CopySegment(seg: Segment, ghost m0: Mem, ghost before: map<nat, nat>) returns (status: SimStatus)
      requires Valid() && Agreed() && NoOverflow(seg) && Keeps(m0, before, pm.Contents(), shadow)
      requires RangeMapped(pm.Contents(), before, shadow, FirstPage(seg), EndPage(seg))
      modifies pm
      ensures Valid() && Agreed() && pm.Contents().Keys == old(pm.Contents()).Keys
      ensures status == OK || status == ABORT
      ensures Contained(seg) ==>
                status == OK && Keeps(m0, before, pm.Contents(), shadow) && SegmentLoaded(pm.Contents(), shadow, seg)
    {
      hide TablesSound, ShadowSound, Keeps, RangeMapped, Contained, Copied, NewPages, ChunkSize, FirstPage, EndPage,
        PhysMemory.Valid, PhysMemory.Contents;
      NothingCopied(pm.Contents(), before, shadow, seg);
      RangeIsNew(pm.Contents(), before, shadow, seg);
      var offset: nat := 0;
      while offset < |seg.data|
        invariant offset <= |seg.data| && Valid() && Agreed()
        invariant pm.Contents().Keys == old(pm.Contents()).Keys
        invariant Contained(seg) ==> ChunkReady(m0, before, pm.Contents(), shadow, seg, offset)
        decreases |seg.data| - offset
      {
        var n;
        status, n := CopyChunk(seg, offset, m0, before);
        if status != OK { return; }
        offset := offset + n;
      }
      if Contained(seg) { AllCopied(pm.Contents(), shadow, seg); }
      return OK;
    }

    /** One round of the chunk loop: the page is looked up in the shadow (the source asserts that it
        is there), probed with a write of zero, and the chunk is copied to it. */
    method CopyChunk(seg: Segment, offset: nat, ghost m0: Mem, ghost before: map<nat, nat>)
        returns (status: SimStatus, n: nat)
      requires Valid() && Agreed() && NoOverflow(seg) && offset < |seg.data|
      modifies pm
      ensures Valid() && Agreed() && n == ChunkSize(seg, offset)
      ensures var v := (seg.vaddr + offset) / PAGE_SIZE;
              if v in shadow then
                && status == OK && shadow[v] in old(pm.Contents())
                && var m := old(pm.Contents());
                   pm.Contents() == m[shadow[v] := ProbedPut(m[shadow[v]], seg, offset)]
              else status == ABORT && pm.Contents() == old(pm.Contents())
      ensures ChunkReady(m0, before, old(pm.Contents()), shadow, seg, offset) ==>
                status == OK && ChunkReady(m0, before, pm.Contents(), shadow, seg, offset + n)
    {
      hide TablesSound, ShadowSound, ChunkReady, ProbedPut, PhysMemory.Valid, PhysMemory.Contents;
      ghost var m := pm.Contents();
      var va := seg.vaddr + offset;
      var pageOffset := va % PAGE_SIZE;
      var vpn := (va - pageOffset) / PAGE_SIZE;
      assert vpn == va / PAGE_SIZE;
      n := if PAGE_SIZE - pageOffset <= |seg.data| - offset then PAGE_SIZE - pageOffset else |seg.data| - offset;
      if ChunkReady(m0, before, m, shadow, seg, offset) { ChunkStep(m0, before, m, mapped, shadow, next, seg, offset); }
      if vpn !in shadow { return ABORT, n; }
      ChunkAnywhere(m, mapper.curr, tab, mapped, shadow, next, seg, offset, vpn);
      WriteChunk(shadow[vpn], pageOffset, seg, offset, n);
      return OK, n;
    }

    method WriteChunk(ppn: nat, pageOffset: nat, seg: Segment, offset: nat, n: nat)
      requires pm.Valid() && ppn in pm.Contents() && offset < |seg.data|
      requires n == ChunkSize(seg, offset) && pageOffset == (seg.vaddr + offset) % PAGE_SIZE
      modifies pm
      ensures pm.Valid() && pm.Contents() == old(pm.Contents())[ppn := ProbedPut(old(pm.Contents())[ppn], seg, offset)]
    {
      hide Splice, ToLE, HostWrite, ChunkSize, PhysMemory.Valid, PhysMemory.Val, PhysMemory.Contents;
      ghost var m := pm.Contents();
      ProbeWrite(m, ppn);
      var probe, host := pm.WriteInt(ppn * PAGE_SIZE, 4, 0);
      assert probe == OK && host.Some?;
      pm.Facts();
      pm.CopyToPage(ppn, pageOffset, seg.data[offset..offset + n]);
      assert pm.Contents()[ppn] == ProbedPut(m[ppn], seg, offset);
    }

    /** loadElf on the list of its loadable segments: when their file bytes fit their pages, every one
        of them is in place at the end, and what was loaded before is still there. */
    method LoadSegments(segs: seq<Segment>) returns (status: SimStatus)
      requires Valid() && Agreed() && forall s <- segs :: NoOverflow(s)
      modifies this, pm, mapper
      ensures Valid() && (status == OK ==> Agreed())
      ensures (forall s <- segs :: Contained(s)) ==> Keeps(old(pm.Contents()), old(shadow), pm.Contents(), shadow)
      ensures (forall s <- segs :: Contained(s)) && status == OK ==>
              forall s <- segs :: SegmentLoaded(pm.Contents(), shadow, s)
      ensures (forall s <- segs :: Contained(s)) && old(Free(pm.Contents(), next)) ==> status != ABORT
    {
      hide TablesSound, ShadowSound, Keeps, Free, SegmentLoaded, RangeMapped, NoOverflow, Contained, PhysMemory.Valid,
        PhysMemory.Contents;
      ghost var m0, before, fit := pm.Contents(), shadow, forall s <- segs :: Contained(s);
      StartRange(m0, before, 0);
      var i := 0;
      while i < |segs|
        invariant i <= |segs|
        invariant Valid() && Agreed()
        invariant fit ==> Keeps(m0, before, pm.Contents(), shadow)
        invariant old(Free(pm.Contents(), next)) ==> Free(pm.Contents(), next)
        invariant fit ==> forall j: nat :: j < i ==> SegmentLoaded(pm.Contents(), shadow, segs[j])
      {
        ghost var m, s := pm.Contents(), shadow;
        status := LoadSegment(segs[i]);
        if fit { KeepsTrans(m0, before, m, s, pm.Contents(), shadow); }
        if status != OK { return; }
        if fit { KeepsSegments(m, s, pm.Contents(), shadow, segs[..i]); }
        i := i + 1;
      }
      return OK;
    }

    /** One segment: its pages are mapped, then its bytes are copied. */
    method LoadSegment(seg: Segment) returns (status: SimStatus)
      requires Valid() && Agreed() && NoOverflow(seg)
      modifies this, pm, mapper
      ensures Valid() && (status == OK ==> Agreed())
      ensures Contained(seg) ==> Keeps(old(pm.Contents()), old(shadow), pm.Contents(), shadow)
      ensures Contained(seg) && status == OK ==> SegmentLoaded(pm.Contents(), shadow, seg)
      ensures old(Free(pm.Contents(), next)) ==> Free(pm.Contents(), next) && (Contained(seg) ==> status != ABORT)
    {
      hide TablesSound, ShadowSound, Keeps, SegmentLoaded, RangeMapped, NoOverflow, Contained, PhysMemory.Valid,
        PhysMemory.Contents;
      ghost var m, s := pm.Contents(), shadow;
      status := MapSegment(seg);
      if status != OK { return; }
      status := CopySegment(seg, m, s);
    }
  }
}
