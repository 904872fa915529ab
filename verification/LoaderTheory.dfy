/** What the loader's steps do to memory, page tables and the loader's own copy of the mapping
    (elf_load/include/sim/elf_load.hpp, elf_load/src/elf_load.cpp). */
module LoaderTheory {
  import opened Common
  import opened Bits
  import opened PhysMem
  import opened Pte
  import opened Mmu
  import opened MmuTheory
  import opened Mapper
  import opened MapperTheory
  import opened MapperTheorems
  import opened Isolation

  const TABLE_REGION_SIZE: nat := 0x10
  const STACK_BASE: nat := 0x1000_0000
  const STACK_SIZE: nat := 0x1000

  /** U, R, W and X. */
  const PAGE_FLAGS: Flags := 0x1E

  const REGION := Region(SV39, 0, TABLE_REGION_SIZE)

  /** satp as the application sets it: SV39 with the root table at page 0. */
  function LoaderCsrs(mxr: bool, sum: bool): Csrs { Csrs(SV39, 0, mxr, sum) }

  /** A PT_LOAD segment: its bytes in the file, and its size in memory. */
  datatype Segment = Segment(vaddr: nat, data: seq<Byte>, memsz: nat)

  /** Neither loop of loadElf wraps around the end of the address space. */
  predicate NoOverflow(s: Segment) {
    s.vaddr + s.memsz <= TWO64 - PAGE_SIZE && s.vaddr + |s.data| <= TWO64 - PAGE_SIZE
  }

  function FirstPage(s: Segment): nat { s.vaddr / PAGE_SIZE }

  /** One past the last page the segment touches. */
  function EndPage(s: Segment): nat { (s.vaddr + s.memsz + PAGE_SIZE - 1) / PAGE_SIZE }

  /** The file bytes fit the pages of the segment.  They do when the file size is at most the memory
      size, as it should be, and also when the excess stays inside the last page. */
  predicate Contained(s: Segment) {
    s.data == [] || (s.vaddr + |s.data| - 1) / PAGE_SIZE < EndPage(s)
  }

  lemma {:induction false} ProperlySized(s: Segment)
    requires |s.data| <= s.memsz
    ensures Contained(s)
  {
  }

  /** How many bytes the segment gets: those of memory, and those of the file. */
  function Extent(s: Segment): nat { if s.memsz >= |s.data| then s.memsz else |s.data| }

  lemma {:induction false} InPages(s: Segment, k: nat)
    requires Contained(s) && k < Extent(s)
    ensures FirstPage(s) <= (s.vaddr + k) / PAGE_SIZE < EndPage(s)
  {
  }

  // ---------------------------------------------------------------- the shadow mapping

  function PageEntry(ppn: nat): Entry { Entry(ppn, FullFlags(PAGE_FLAGS)) }

  /** The page tables map v to the page the shadow names. */
  ghost predicate ShadowEntry(shadow: map<nat, nat>, mapped: Mapped, next: nat, v: nat)
    requires v in shadow
  {
    && Key(v, 3) in mapped && mapped[Key(v, 3)] == PageEntry(shadow[v])
    && TABLE_REGION_SIZE <= shadow[v] < next
  }

  /** Shadow and page tables are the same relation, and it is injective. */
  ghost predicate Agrees(shadow: map<nat, nat>, mapped: Mapped, next: nat) {
    && (forall v <- shadow :: ShadowEntry(shadow, mapped, next, v))
    && (forall v, w :: v in shadow && w in shadow && (shadow[v] == shadow[w] || Key(v, 3) == Key(w, 3)) ==> v == w)
    && (forall k <- mapped :: exists v :: v in shadow && Key(v, 3) == k)
  }

  /** The tables are well formed and pages are handed out behind them. */
  ghost predicate TablesSound(m: Mem, curr: nat, tab: Tables, mapped: Mapped, next: nat) {
    Tree(REGION, m, curr, tab, mapped) && TABLE_REGION_SIZE <= next
  }

  /** No page from `next` on is there yet. */
  ghost predicate Free(m: Mem, next: nat) { forall p <- m :: p < next }

  /** What holds as long as every mapped page succeeded: the shadow agrees with the tables, its
      pages are present and no page number was wasted. */
  ghost predicate ShadowSound(m: Mem, mapped: Mapped, shadow: map<nat, nat>, next: nat) {
    && Agrees(shadow, mapped, next)
    && next == TABLE_REGION_SIZE + |mapped|
    && (forall v <- shadow :: shadow[v] in m)
  }

  lemma {:induction false} ExtendAgreement(shadow: map<nat, nat>, mapped: Mapped, next: nat, vpn: nat)
    requires Agrees(shadow, mapped, next) && Key(vpn, 3) !in mapped && next >= TABLE_REGION_SIZE
    ensures vpn !in shadow
    ensures Agrees(shadow[vpn := next], mapped[Key(vpn, 3) := PageEntry(next)], next + 1)
  {
    hide Key, Pow2;
    assert vpn in shadow ==> ShadowEntry(shadow, mapped, next, vpn);
    var shadow', mapped' := shadow[vpn := next], mapped[Key(vpn, 3) := PageEntry(next)];
    forall v | v in shadow' ensures ShadowEntry(shadow', mapped', next + 1, v) {
      assert v != vpn ==> ShadowEntry(shadow, mapped, next, v);
    }
    forall v, w | v in shadow' && w in shadow' && (shadow'[v] == shadow'[w] || Key(v, 3) == Key(w, 3)) ensures v == w {
      assert v != vpn ==> ShadowEntry(shadow, mapped, next, v);
      assert w != vpn ==> ShadowEntry(shadow, mapped, next, w);
    }
    forall k | k in mapped' ensures exists v :: v in shadow' && Key(v, 3) == k {
      if k == Key(vpn, 3) {
        assert vpn in shadow';
      } else {
        var v :| v in shadow && Key(v, 3) == k;
        assert v in shadow';
      }
    }
  }

  // ---------------------------------------------------------------- translation of loaded pages

  lemma {:induction false} PageFlagsLegal()
    ensures UserWritable(FullFlags(PAGE_FLAGS)) && X(FullFlags(PAGE_FLAGS)) && R(FullFlags(PAGE_FLAGS))
    ensures forall access, mxr, sum :: CheckLeafFlags(USER, access, FullFlags(PAGE_FLAGS), mxr, sum)
  {
    hide FullFlags, Pow2;
    FullFlagsBits(PAGE_FLAGS);
    var f := FullFlags(PAGE_FLAGS);
    assert Bit(PAGE_FLAGS, 1) && Bit(PAGE_FLAGS, 2) && Bit(PAGE_FLAGS, 3) && Bit(PAGE_FLAGS, 4) by {
      assert PAGE_FLAGS / 2 == 15 && 15 / 2 == 7 && 7 / 2 == 3 && 3 / 2 == 1;
    }
    assert Bit(f, 1) == Bit(PAGE_FLAGS, 1) && Bit(f, 2) == Bit(PAGE_FLAGS, 2);
    assert Bit(f, 3) == Bit(PAGE_FLAGS, 3) && Bit(f, 4) == Bit(PAGE_FLAGS, 4);
  }

  /** Every access type translates a page of the shadow to the page it names, and nothing else
      translates (up to the key, the low 27 bits of the page number). */
  lemma {:induction false} LoadedTranslate(m: Mem, curr: nat, tab: Tables, mapped: Mapped, shadow: map<nat, nat>,
                                           next: nat, mxr: bool, sum: bool, access: AccessType, va: nat)
    requires Tree(REGION, m, curr, tab, mapped) && Agrees(shadow, mapped, next) && next <= PPN_LIMIT
    ensures va / PAGE_SIZE in shadow ==>
              Translate(LoaderCsrs(mxr, sum), m, USER, access, va) ==
              Result(OK, shadow[va / PAGE_SIZE] * PAGE_SIZE + va % PAGE_SIZE)
    ensures (forall v <- shadow :: Key(v, 3) != Key(va / PAGE_SIZE, 3)) ==>
              Translate(LoaderCsrs(mxr, sum), m, USER, access, va) == PAGE_FAULT_RES
  {
    hide Tree, Translate, Key, FullFlags, CheckLeafFlags, Pow2;
    var c := LoaderCsrs(mxr, sum);
    TranslateIsMapped(REGION, m, curr, tab, mapped, c, USER, access, va);
    PageFlagsLegal();
    var v := va / PAGE_SIZE;
    if v in shadow {
      assert ShadowEntry(shadow, mapped, next, v);
      assert shadow[v] % PPN_LIMIT == shadow[v];
    }
  }

  lemma {:induction false} LoadedAvoids(mapped: Mapped, shadow: map<nat, nat>, next: nat)
    requires Agrees(shadow, mapped, next) && next <= PPN_LIMIT
    ensures AvoidsRegion(REGION, mapped)
  {
    hide Key, FullFlags, UserWritable;
    forall k | k in mapped ensures !(REGION.begin <= mapped[k].ppn % PPN_LIMIT < REGION.end) {
      var v :| v in shadow && Key(v, 3) == k;
      assert ShadowEntry(shadow, mapped, next, v);
    }
  }

  /** Loaded pages are never table pages, so user stores cannot reach the region. */
  lemma {:induction false} LoadedIsolated(m: Mem, curr: nat, tab: Tables, mapped: Mapped, shadow: map<nat, nat>,
                                          next: nat, mxr: bool, sum: bool)
    requires Tree(REGION, m, curr, tab, mapped) && Agrees(shadow, mapped, next) && next <= PPN_LIMIT
    ensures Isolated(LoaderCsrs(mxr, sum), m, RegionRefs(REGION, tab)) && StoresOutside(REGION, LoaderCsrs(mxr, sum), m)
  {
    hide Tree, AvoidsRegion, Agrees, Isolated;
    LoadedAvoids(mapped, shadow, next);
    TreeIsolated(REGION, m, curr, tab, mapped, LoaderCsrs(mxr, sum));
    IsolationExactly(REGION, m, curr, tab, mapped, LoaderCsrs(mxr, sum));
  }

  // ---------------------------------------------------------------- the image

  /** The byte the shadow finds at a virtual address. */
  ghost predicate ByteIs(m: Mem, shadow: map<nat, nat>, va: nat, b: Byte) {
    va / PAGE_SIZE in shadow && ByteAt(m, shadow[va / PAGE_SIZE] * PAGE_SIZE + va % PAGE_SIZE) == Some(b)
  }

  function SegmentByte(s: Segment, k: nat): Byte { if k < |s.data| then s.data[k] else 0 }

  /** Every byte of the segment is in place: file bytes, then zeros. */
  ghost predicate SegmentLoaded(m: Mem, shadow: map<nat, nat>, s: Segment) {
    forall k: nat :: k < Extent(s) ==> ByteIs(m, shadow, s.vaddr + k, SegmentByte(s, k))
  }

  /** Old mappings stay, and so do the contents of the pages they name. */
  ghost predicate Keeps(m: Mem, shadow: map<nat, nat>, m': Mem, shadow': map<nat, nat>) {
    forall v <- shadow :: v in shadow' && shadow'[v] == shadow[v] &&
                          (shadow[v] in m ==> shadow[v] in m' && m'[shadow[v]] == m[shadow[v]])
  }

  lemma {:induction false} KeepsSegment(m: Mem, shadow: map<nat, nat>, m': Mem, shadow': map<nat, nat>, s: Segment)
    requires Keeps(m, shadow, m', shadow') && SegmentLoaded(m, shadow, s)
    ensures SegmentLoaded(m', shadow', s)
  {
    forall k: nat | k < Extent(s) ensures ByteIs(m', shadow', s.vaddr + k, SegmentByte(s, k)) {
      var va := s.vaddr + k;
      assert ByteIs(m, shadow, va, SegmentByte(s, k));
      PageOfSum(shadow[va / PAGE_SIZE], va % PAGE_SIZE);
    }
  }

  lemma {:induction false} KeepsSegments(m: Mem, shadow: map<nat, nat>, m': Mem, shadow': map<nat, nat>,
                                         segs: seq<Segment>)
    requires Keeps(m, shadow, m', shadow') && forall s <- segs :: SegmentLoaded(m, shadow, s)
    ensures forall s <- segs :: SegmentLoaded(m', shadow', s)
  {
    hide Keeps, SegmentLoaded, Pow2;
    forall s | s in segs ensures SegmentLoaded(m', shadow', s) { KeepsSegment(m, shadow, m', shadow', s); }
  }

  lemma {:induction false} FreshLoader(m0: Mem)
    ensures var m := WithZeroPages(m0, 0, TABLE_REGION_SIZE);
            && TablesSound(m, 1, map[Node(2, 0) := 0], map[], TABLE_REGION_SIZE)
            && ShadowSound(m, map[], map[], TABLE_REGION_SIZE)
            && (m0 == map[] ==> Free(m, TABLE_REGION_SIZE))
  {
    hide Tree, ZeroPage, WithZeroPages, Pow2;
    WithZeroPagesIs(m0, 0, TABLE_REGION_SIZE);
    FreshTree(REGION, WithZeroPages(m0, 0, TABLE_REGION_SIZE));
  }

  /** What mapping one page at `next` does to memory, tables and shadow. */
  lemma {:induction false} PageStep(m: Mem, curr: nat, tab: Tables, mapped: Mapped, shadow: map<nat, nat>, next: nat,
                                    vpn: nat)
      returns (tab': Tables)
    requires TablesSound(m, curr, tab, mapped, next) && next !in m
    ensures var r := Map(REGION, m[next := ZeroPage()], curr, Mapping(PAGE_FLAGS, vpn, next));
            var a := AbstractMap(REGION, Abstract(tab.Keys, mapped), Mapping(PAGE_FLAGS, vpn, next));
            var shadow' := if vpn in shadow then shadow else shadow[vpn := next];
            && r.status == a.status != ABORT && (Free(m, next) ==> Free(r.mem, next + 1))
            && TablesSound(r.mem, r.curr, tab', a.state.mapped, next + 1) && tab'.Keys == a.state.nodes
            && (ShadowSound(m, mapped, shadow, next) ==> Keeps(m, shadow, r.mem, shadow'))
            && (ShadowSound(m, mapped, shadow, next) && r.status == OK ==>
                  && vpn !in shadow && ShadowSound(r.mem, a.state.mapped, shadow', next + 1)
                  && next in r.mem && r.mem[next] == ZeroPage())
  {
    hide Tree, Map, AbstractMap, ShadowSound, Keeps, ZeroPage, Pow2;
    var m1 := m[next := ZeroPage()];
    TreeInRegion(REGION, m, m1, curr, tab, mapped);
    var req := Mapping(PAGE_FLAGS, vpn, next);
    tab' := MapRefines(REGION, m1, curr, tab, mapped, req);
    var r := Map(REGION, m1, curr, req);
    assert r.mem.Keys == m.Keys + {next};
    NoAbort(Abstract(tab.Keys, mapped), req);
    if ShadowSound(m, mapped, shadow, next) { ShadowStep(m, r.mem, tab.Keys, mapped, shadow, next, vpn); }
  }

  lemma {:induction false} NextPage(m: Mem, curr: nat, tab: Tables, mapped: Mapped, next: nat)
    requires TablesSound(m, curr, tab, mapped, next)
    ensures TablesSound(m, curr, tab, mapped, next + 1)
  {
    hide Tree;
  }

  lemma {:induction false} NotThere(m: Mem, next: nat)
    ensures Free(m, next) ==> next !in m
  {
  }

  lemma {:induction false} NoAbort(a: Abstract, req: Mapping)
    ensures AbstractMap(REGION, a, req).status != ABORT
  {
    hide Key, FullFlags, Missing, PathSet;
  }

  lemma {:induction false} ShadowStep(m: Mem, m': Mem, nodes: set<Node>, mapped: Mapped, shadow: map<nat, nat>,
                                      next: nat, vpn: nat)
    requires ShadowSound(m, mapped, shadow, next) && TABLE_REGION_SIZE <= next
    requires OutsideSame(REGION, m[next := ZeroPage()], m') && m'.Keys == m.Keys + {next}
    ensures var a := AbstractMap(REGION, Abstract(nodes, mapped), Mapping(PAGE_FLAGS, vpn, next));
            var shadow' := if vpn in shadow then shadow else shadow[vpn := next];
            && Keeps(m, shadow, m', shadow')
            && (a.status == OK ==>
                  && vpn !in shadow && ShadowSound(m', a.state.mapped, shadow', next + 1)
                  && m'[next] == ZeroPage())
  {
    hide AbstractMap, Key, PageEntry, Agrees, Keeps, ZeroPage, Pow2;
    KeepsStep(m, m', mapped, shadow, next, vpn);
    var a := AbstractMap(REGION, Abstract(nodes, mapped), Mapping(PAGE_FLAGS, vpn, next));
    if a.status == OK {
      PageMapped(nodes, mapped, next, vpn);
      ExtendAgreement(shadow, mapped, next, vpn);
    }
  }

  lemma {:induction false} PageMapped(nodes: set<Node>, mapped: Mapped, next: nat, vpn: nat)
    requires AbstractMap(REGION, Abstract(nodes, mapped), Mapping(PAGE_FLAGS, vpn, next)).status == OK
    ensures Key(vpn, 3) !in mapped
    ensures AbstractMap(REGION, Abstract(nodes, mapped), Mapping(PAGE_FLAGS, vpn, next)).state.mapped ==
            mapped[Key(vpn, 3) := PageEntry(next)]
  {
    hide Key, FullFlags, Missing, PathSet, Pow2;
  }

  lemma {:induction false} KeepsStep(m: Mem, m': Mem, mapped: Mapped, shadow: map<nat, nat>, next: nat, vpn: nat)
    requires Agrees(shadow, mapped, next)
    requires OutsideSame(REGION, m[next := ZeroPage()], m')
    ensures Keeps(m, shadow, m', if vpn in shadow then shadow else shadow[vpn := next])
  {
    hide Key, PageEntry, Pow2;
    forall v | v in shadow ensures TABLE_REGION_SIZE <= shadow[v] < next {
      assert ShadowEntry(shadow, mapped, next, v);
    }
  }

  // ---------------------------------------------------------------- page numbers never run out

  /** Injective keys below 2^27 bound the number of pages, so no page number is ever truncated. */
  lemma {:induction false} RoomLeft(shadow: map<nat, nat>, mapped: Mapped, next: nat)
    requires Agrees(shadow, mapped, next) && next == TABLE_REGION_SIZE + |mapped|
    ensures next <= PPN_LIMIT
  {
    hide Agrees, Key, Pow2;
    var n := 0x800_0000;
    forall k | k in mapped.Keys ensures k < n {
      assert exists v :: v in shadow && Key(v, 3) == k by { AgreesKeys(shadow, mapped, next, k); }
      var v :| v in shadow && Key(v, 3) == k;
      Pow2Values();
      Pow2Add(9, 18);
      Pow2Add(8, 10);
    }
    BoundedSet(mapped.Keys, n);
    assert |mapped| == |mapped.Keys|;
  }

  lemma {:induction false} AgreesKeys(shadow: map<nat, nat>, mapped: Mapped, next: nat, k: nat)
    requires Agrees(shadow, mapped, next) && k in mapped
    ensures exists v :: v in shadow && Key(v, 3) == k
  {
    hide Key, Pow2;
  }

  lemma {:induction false} BoundedSet(s: set<nat>, n: nat)
    requires forall x <- s :: x < n
    ensures |s| <= n
  {
    if n > 0 {
      BoundedSet(s - {n - 1}, n - 1);
    } else {
      assert s == {};
    }
  }

  // ---------------------------------------------------------------- the stack

  /** The key of stack page j, and what the first j stack pages need. */
  function StackKey(j: nat): nat { 0x7FF_F000 + j }

  function StackKeys(j: nat): set<nat> { set i: nat | i < j :: StackKey(i) }

  function LeafTables(n: nat): (s: set<Node>)
    ensures |s| == n
    ensures forall x :: x in s <==> x.level == 0 && 0x3_FFF8 <= x.prefix < 0x3_FFF8 + n
  {
    if n == 0 then {} else LeafTables(n - 1) + {Node(0, 0x3_FFF8 + n - 1)}
  }

  /** The root, one middle table and one leaf table for every 512 pages. */
  function StackNodes(j: nat): (s: set<Node>)
    ensures |s| == (if j == 0 then 1 else 2) + (j + 511) / 512
    ensures forall x :: x in s <==>
                        || x == Node(2, 0)
                        || (j > 0 && x == Node(1, 511))
                        || (x.level == 0 && 0x3_FFF8 <= x.prefix < 0x3_FFF8 + (j + 511) / 512)
  {
    var leaves := LeafTables((j + 511) / 512);
    var inner := leaves + {Node(2, 0)};
    assert Node(2, 0) !in leaves;
    assert |inner| == |leaves| + 1;
    if j == 0 then inner else assert Node(1, 511) !in inner; inner + {Node(1, 511)}
  }

  lemma {:induction false} StackStart()
    ensures StackNodes(0) == {Node(2, 0)} && StackKeys(0) == {}
  {
  }

  /** The cursor of the table allocator counts the tables. */
  lemma {:induction false} TableCount(m: Mem, curr: nat, tab: Tables, mapped: Mapped, next: nat)
    requires TablesSound(m, curr, tab, mapped, next)
    ensures |tab.Keys| == curr && next >= TABLE_REGION_SIZE
  {
    hide Tree, Pow2;
    TreeFacts(REGION, m, curr, tab, mapped);
  }

  lemma {:induction false} StackPath(j: nat)
    requires j < STACK_SIZE
    ensures var vpn := STACK_BASE - STACK_SIZE + j;
            && Key(vpn, 3) == StackKey(j)
            && PathNode(StackKey(j), 1) == Node(1, 511)
            && PathNode(StackKey(j), 0) == Node(0, 0x3_FFF8 + j / 512)
  {
    hide Pow2;
    Pow2Values();
    Pow2Add(9, 18);
    Pow2Add(8, 10);
    var key := StackKey(j);
    assert Up(key, 1) == Up(key, 0) / 512;
    assert Up(key, 2) == Up(key, 1) / 512;
  }

  /** Mapping stack page j after the first j succeeds; it creates the tables that page is the
      first to need. */
  lemma {:induction false} StackStep(mapped: Mapped, next: nat, j: nat)
    requires j < STACK_SIZE && mapped.Keys == StackKeys(j) && next >= TABLE_REGION_SIZE
    ensures var req := Mapping(PAGE_FLAGS, STACK_BASE - STACK_SIZE + j, next);
            var a := AbstractMap(REGION, Abstract(StackNodes(j), mapped), req);
            a.status == OK && a.state.nodes == StackNodes(j + 1) && a.state.mapped.Keys == StackKeys(j + 1)
  {
    hide Key, Up, FullFlags, PathNode, PathSet, Missing, StackNodes, Pow2;
    StackPath(j);
    StackMissing(j);
  }

  lemma {:induction false} StackMissing(j: nat)
    requires j < STACK_SIZE
    ensures var missing := Missing(StackNodes(j), StackKey(j), 2);
            && missing + |StackNodes(j)| <= TABLE_REGION_SIZE
            && StackNodes(j) + PathSet(StackKey(j), 0, missing) == StackNodes(j + 1)
  {
    hide Key, Up, PathNode, PathSet, StackKey, StackNodes, Pow2;
    StackPath(j);
    var key, q := StackKey(j), j / 512;
    var nodes, n0, n1 := StackNodes(j), PathNode(key, 0), PathNode(key, 1);
    assert Missing(nodes, key, 1) == (if n0 in nodes then 0 else 1) by { assert Missing(nodes, key, 0) == 0; }
    assert Missing(nodes, key, 2) == if n1 in nodes then Missing(nodes, key, 1) else 2;
    hide Missing, Pow2;
    PathSets(key);
    assert (j + 512) / 512 == q + 1 && q < 8;
    if j % 512 == 0 {
      assert (j + 511) / 512 == q;
    } else {
      assert (j + 511) / 512 == q + 1;
    }
  }

  lemma {:induction false} PathSets(key: nat)
    ensures PathSet(key, 0, 0) == {}
    ensures PathSet(key, 0, 1) == {PathNode(key, 0)}
    ensures PathSet(key, 0, 2) == {PathNode(key, 0), PathNode(key, 1)}
  {
    hide PathNode, Pow2;
    assert PathNode(key, 1) in PathSet(key, 0, 2);
    assert PathNode(key, 0) in PathSet(key, 0, 2) && PathNode(key, 0) in PathSet(key, 0, 1);
  }

  // ---------------------------------------------------------------- mapping a range of pages

  ghost predicate FreshPage(m: Mem, before: map<nat, nat>, shadow: map<nat, nat>, v: nat) {
    v !in before && v in shadow && shadow[v] in m && m[shadow[v]] == ZeroPage()
  }

  /** Pages lo..hi are new and hold zeros, and nothing else was mapped. */
  ghost predicate RangeMapped(m: Mem, before: map<nat, nat>, shadow: map<nat, nat>, lo: nat, hi: nat) {
    && (forall v: nat :: lo <= v < hi ==> FreshPage(m, before, shadow, v))
    && (forall v <- shadow :: v in before || lo <= v < hi)
  }

  lemma {:induction false} RangeStep(m0: Mem, before: map<nat, nat>, m: Mem, shadow: map<nat, nat>, m': Mem, lo: nat,
                                     v: nat, ppn: nat)
    requires Keeps(m0, before, m, shadow) && RangeMapped(m, before, shadow, lo, v) && lo <= v
    requires v !in shadow && Keeps(m, shadow, m', shadow[v := ppn]) && ppn in m' && m'[ppn] == ZeroPage()
    ensures RangeMapped(m', before, shadow[v := ppn], lo, v + 1)
  {
    hide ZeroPage, Pow2;
    var shadow' := shadow[v := ppn];
    forall w: nat | lo <= w < v + 1 ensures FreshPage(m', before, shadow', w) {
      assert w < v ==> FreshPage(m, before, shadow, w);
    }
  }

  lemma {:induction false} StartRange(m: Mem, shadow: map<nat, nat>, lo: nat)
    ensures RangeMapped(m, shadow, shadow, lo, lo) && Keeps(m, shadow, m, shadow)
  {
  }

  lemma {:induction false} KeepsTrans(m0: Mem, s0: map<nat, nat>, m1: Mem, s1: map<nat, nat>, m2: Mem,
                                      s2: map<nat, nat>)
    requires Keeps(m0, s0, m1, s1) && Keeps(m1, s1, m2, s2)
    ensures Keeps(m0, s0, m2, s2)
  {
  }

  /** After j pages of the stack have been mapped: on a fresh loader with the tables expected. */
  ghost predicate StackPages(m0: Mem, before: map<nat, nat>, m: Mem, shadow: map<nat, nat>, nodes: set<Node>,
                             mapped: Mapped, next: nat, j: nat, wasFree: bool, isFresh: bool)
  {
    && Keeps(m0, before, m, shadow)
    && RangeMapped(m, before, shadow, STACK_BASE - STACK_SIZE, STACK_BASE - STACK_SIZE + j)
    && (wasFree ==> Free(m, next))
    && (isFresh ==> wasFree && nodes == StackNodes(j) && mapped.Keys == StackKeys(j))
  }

  lemma {:induction false} StackBegins(m: Mem, shadow: map<nat, nat>, nodes: set<Node>, mapped: Mapped, next: nat)
    ensures var isFresh := Free(m, next) && nodes == {Node(2, 0)} && mapped == map[];
            StackPages(m, shadow, m, shadow, nodes, mapped, next, 0, Free(m, next), isFresh)
  {
    hide StackNodes, StackKeys;
    StartRange(m, shadow, STACK_BASE - STACK_SIZE);
    StackStart();
  }

  lemma {:induction false} StackEnds(m0: Mem, before: map<nat, nat>, m: Mem, shadow: map<nat, nat>, nodes: set<Node>,
                                     mapped: Mapped, next: nat, wasFree: bool, isFresh: bool)
    requires StackPages(m0, before, m, shadow, nodes, mapped, next, STACK_SIZE, wasFree, isFresh)
    ensures Keeps(m0, before, m, shadow) && RangeMapped(m, before, shadow, STACK_BASE - STACK_SIZE, STACK_BASE)
    ensures (wasFree ==> Free(m, next)) && (isFresh ==> |nodes| == 10)
  {
    hide Keeps, RangeMapped, Free;
  }

  /** One more page, as mapPage leaves it; it cannot fail on a fresh loader. */
  lemma {:induction false} StackGrows(m0: Mem, before: map<nat, nat>, m: Mem, shadow: map<nat, nat>, nodes: set<Node>,
                                      mapped: Mapped, next: nat, j: nat, wasFree: bool, isFresh: bool, m': Mem,
                                      shadow': map<nat, nat>, nodes': set<Node>, mapped': Mapped, status: SimStatus)
    requires StackPages(m0, before, m, shadow, nodes, mapped, next, j, wasFree, isFresh)
    requires j < STACK_SIZE && TABLE_REGION_SIZE <= next && Keeps(m, shadow, m', shadow')
    requires Free(m, next) ==> status != ABORT && Free(m', next + 1)
    requires var vpn := STACK_BASE - STACK_SIZE + j;
             && (status != ABORT ==>
                   AbstractMap(REGION, Abstract(nodes, mapped), Mapping(PAGE_FLAGS, vpn, next)) ==
                   AbstractResult(status, Abstract(nodes', mapped')))
             && (status == OK ==>
                   && vpn !in shadow && shadow' == shadow[vpn := next]
                   && next in m' && m'[next] == ZeroPage())
    ensures Keeps(m0, before, m', shadow') && (isFresh ==> status == OK) && (wasFree ==> Free(m', next + 1))
    ensures status == OK ==> StackPages(m0, before, m', shadow', nodes', mapped', next + 1, j + 1, wasFree, isFresh)
  {
    hide AbstractMap, Keeps, Free, RangeMapped, StackNodes, StackKeys, ZeroPage;
    KeepsTrans(m0, before, m, shadow, m', shadow');
    if isFresh { StackStep(mapped, next, j); }
    if status == OK {
      RangeStep(m0, before, m, shadow, m', STACK_BASE - STACK_SIZE, STACK_BASE - STACK_SIZE + j, next);
    }
  }

  // ---------------------------------------------------------------- copying a segment

  /** The byte at va when the first `offset` file bytes have been copied. */
  function PartByte(s: Segment, offset: nat, va: nat): Byte {
    if s.vaddr <= va < s.vaddr + offset && va - s.vaddr < |s.data| then s.data[va - s.vaddr] else 0
  }

  ghost predicate PageCopied(m: Mem, shadow: map<nat, nat>, s: Segment, offset: nat, v: nat) {
    && v in shadow && shadow[v] in m
    && forall k: nat :: k < PAGE_SIZE ==> m[shadow[v]][k] == PartByte(s, offset, v * PAGE_SIZE + k)
  }

  ghost predicate Copied(m: Mem, shadow: map<nat, nat>, s: Segment, offset: nat) {
    forall v: nat :: FirstPage(s) <= v < EndPage(s) ==> PageCopied(m, shadow, s, offset, v)
  }

  lemma {:induction false} NothingCopied(m: Mem, before: map<nat, nat>, shadow: map<nat, nat>, s: Segment)
    requires RangeMapped(m, before, shadow, FirstPage(s), EndPage(s))
    ensures Copied(m, shadow, s, 0)
  {
    forall v: nat | FirstPage(s) <= v < EndPage(s) ensures PageCopied(m, shadow, s, 0, v) {
      assert FreshPage(m, before, shadow, v);
    }
  }

  lemma {:induction false} AllCopied(m: Mem, shadow: map<nat, nat>, s: Segment)
    requires Contained(s) && Copied(m, shadow, s, |s.data|)
    ensures SegmentLoaded(m, shadow, s)
  {
    forall k: nat | k < Extent(s) ensures ByteIs(m, shadow, s.vaddr + k, SegmentByte(s, k)) {
      var va := s.vaddr + k;
      InPages(s, k);
      assert PageCopied(m, shadow, s, |s.data|, va / PAGE_SIZE);
      PageOfSum(shadow[va / PAGE_SIZE], va % PAGE_SIZE);
    }
  }

  /** A chunk starts the segment or a page, and ends the segment or a page. */
  predicate ChunkAt(s: Segment, offset: nat) {
    offset == 0 || offset == |s.data| || (s.vaddr + offset) % PAGE_SIZE == 0
  }

  function ChunkSize(s: Segment, offset: nat): (n: nat)
    requires offset < |s.data|
    ensures n > 0 && offset + n <= |s.data| && (s.vaddr + offset) % PAGE_SIZE + n <= PAGE_SIZE
    ensures ChunkAt(s, offset + n)
  {
    var left := PAGE_SIZE - (s.vaddr + offset) % PAGE_SIZE;
    if left <= |s.data| - offset then left else |s.data| - offset
  }

  /** The page a chunk goes to is mapped and still zero, so the probing write does no harm. */
  lemma {:induction false} ChunkPage(m: Mem, shadow: map<nat, nat>, s: Segment, offset: nat)
    requires Contained(s) && offset < |s.data| && ChunkAt(s, offset) && Copied(m, shadow, s, offset)
    ensures var v := (s.vaddr + offset) / PAGE_SIZE;
            && FirstPage(s) <= v < EndPage(s) && v in shadow && shadow[v] in m && m[shadow[v]] == ZeroPage()
  {
    var v: nat := (s.vaddr + offset) / PAGE_SIZE;
    InPages(s, offset);
    assert PageCopied(m, shadow, s, offset, v);
    forall k: nat | k < PAGE_SIZE ensures m[shadow[v]][k] == 0 {
      assert m[shadow[v]][k] == PartByte(s, offset, v * PAGE_SIZE + k);
    }
    assert m[shadow[v]] == ZeroPage();
  }

  function ChunkBytes(s: Segment, offset: nat): seq<Byte>
    requires offset < |s.data|
  {
    s.data[offset..offset + ChunkSize(s, offset)]
  }

  /** The page with the chunk copied into it. */
  function ChunkPut(page: Page, s: Segment, offset: nat): Page
    requires offset < |s.data|
  {
    Splice(page, (s.vaddr + offset) % PAGE_SIZE, ChunkBytes(s, offset))
  }

  lemma {:induction false} CopyStep(m: Mem, shadow: map<nat, nat>, s: Segment, offset: nat, page: Page)
    requires Contained(s) && offset < |s.data| && ChunkAt(s, offset) && Copied(m, shadow, s, offset)
    requires forall v, w: nat :: v in shadow && w in shadow && shadow[v] == shadow[w] ==> v == w
    requires (s.vaddr + offset) / PAGE_SIZE in shadow
    requires page == ChunkPut(ZeroPage(), s, offset)
    ensures Copied(m[shadow[(s.vaddr + offset) / PAGE_SIZE] := page], shadow, s, offset + ChunkSize(s, offset))
  {
    hide Copied, ChunkPut, ChunkSize, ZeroPage, PageCopied, Pow2;
    var v: nat := (s.vaddr + offset) / PAGE_SIZE;
    var m', offset' := m[shadow[v] := page], offset + ChunkSize(s, offset);
    ChunkPage(m, shadow, s, offset);
    forall w: nat | FirstPage(s) <= w < EndPage(s) ensures PageCopied(m', shadow, s, offset', w) {
      CopiedAt(m, shadow, s, offset, w);
      if w == v {
        ChunkWritten(m', shadow, s, offset, page);
      } else {
        OtherPage(m, m', shadow, s, offset, w);
      }
    }
    CopiedAll(m', shadow, s, offset');
  }

  lemma {:induction false} CopiedAt(m: Mem, shadow: map<nat, nat>, s: Segment, offset: nat, v: nat)
    requires Copied(m, shadow, s, offset) && FirstPage(s) <= v < EndPage(s)
    ensures PageCopied(m, shadow, s, offset, v) && v in shadow && shadow[v] in m
  {
    hide FirstPage, EndPage, Pow2;
    assert PageCopied(m, shadow, s, offset, v);
  }

  lemma {:induction false} CopiedAll(m: Mem, shadow: map<nat, nat>, s: Segment, offset: nat)
    requires forall v: nat :: FirstPage(s) <= v < EndPage(s) ==> PageCopied(m, shadow, s, offset, v)
    ensures Copied(m, shadow, s, offset)
  {
    hide PageCopied, FirstPage, EndPage, Pow2;
  }

  lemma {:induction false} ChunkWritten(m: Mem, shadow: map<nat, nat>, s: Segment, offset: nat, page: Page)
    requires offset < |s.data| && ChunkAt(s, offset)
    requires var v := (s.vaddr + offset) / PAGE_SIZE; v in shadow && shadow[v] in m && m[shadow[v]] == page
    requires page == ChunkPut(ZeroPage(), s, offset)
    ensures PageCopied(m, shadow, s, offset + ChunkSize(s, offset), (s.vaddr + offset) / PAGE_SIZE)
  {
    hide ChunkSize, Pow2;
    var v, po, n := (s.vaddr + offset) / PAGE_SIZE, (s.vaddr + offset) % PAGE_SIZE, ChunkSize(s, offset);
    assert v * PAGE_SIZE + po == s.vaddr + offset;
    forall k: nat | k < PAGE_SIZE ensures page[k] == PartByte(s, offset + n, v * PAGE_SIZE + k) {
      assert page[k] == if po <= k < po + n then s.data[offset + (k - po)] else 0;
    }
  }

  /** The chunk's bytes all lie in one page. */
  lemma {:induction false} OtherPage(m: Mem, m': Mem, shadow: map<nat, nat>, s: Segment, offset: nat, w: nat)
    requires offset < |s.data| && w != (s.vaddr + offset) / PAGE_SIZE && PageCopied(m, shadow, s, offset, w)
    requires shadow[w] in m' && m'[shadow[w]] == m[shadow[w]]
    ensures PageCopied(m', shadow, s, offset + ChunkSize(s, offset), w)
  {
    hide ChunkSize, Pow2;
    var n := ChunkSize(s, offset);
    forall k: nat | k < PAGE_SIZE ensures m[shadow[w]][k] == PartByte(s, offset + n, w * PAGE_SIZE + k) {
      var va := w * PAGE_SIZE + k;
      assert va / PAGE_SIZE == w;
      assert m[shadow[w]][k] == PartByte(s, offset, va);
      assert !(s.vaddr + offset <= va < s.vaddr + offset + n);
    }
  }

  /** Writing to a page that was not in the old shadow keeps what the old shadow named. */
  lemma {:induction false} KeepsOutside(m0: Mem, before: map<nat, nat>, m: Mem, shadow: map<nat, nat>, v: nat,
                                        page: Page)
    requires Keeps(m0, before, m, shadow) && v in shadow && v !in before && shadow[v] in m
    requires forall v, w: nat :: v in shadow && w in shadow && shadow[v] == shadow[w] ==> v == w
    ensures Keeps(m0, before, m[shadow[v] := page], shadow)
  {
  }

  /** Loading into a page of the shadow leaves the tables alone. */
  lemma {:induction false} PagePut(m: Mem, curr: nat, tab: Tables, mapped: Mapped, shadow: map<nat, nat>, next: nat,
                                   v: nat, page: Page)
    requires TablesSound(m, curr, tab, mapped, next) && ShadowSound(m, mapped, shadow, next) && v in shadow
    ensures shadow[v] in m
    ensures TablesSound(m[shadow[v] := page], curr, tab, mapped, next) &&
            ShadowSound(m[shadow[v] := page], mapped, shadow, next)
  {
    hide Tree, Pow2;
    assert ShadowEntry(shadow, mapped, next, v);
    TreeInRegion(REGION, m, m[shadow[v] := page], curr, tab, mapped);
  }

  /** No page of the segment was mapped before. */
  ghost predicate NewPages(before: map<nat, nat>, s: Segment) {
    forall v <- before :: !(FirstPage(s) <= v < EndPage(s))
  }

  lemma {:induction false} RangeIsNew(m: Mem, before: map<nat, nat>, shadow: map<nat, nat>, s: Segment)
    requires RangeMapped(m, before, shadow, FirstPage(s), EndPage(s))
    ensures NewPages(before, s)
  {
    hide FirstPage, EndPage, Pow2;
    forall v | v in before ensures !(FirstPage(s) <= v < EndPage(s)) {
      assert FirstPage(s) <= v < EndPage(s) ==> FreshPage(m, before, shadow, v);
    }
  }

  /** The page after the probing write of a zero and the copy. */
  function ProbedPut(page: Page, s: Segment, offset: nat): Page
    requires offset < |s.data|
  {
    ChunkPut(Splice(page, 0, ToLE(0, 4)), s, offset)
  }

  lemma {:induction false} ProbeWrite(m: Mem, p: nat)
    requires p in m
    ensures Write(m, p * PAGE_SIZE, 4, 0) == WriteResult(OK, m[p := Splice(m[p], 0, ToLE(0, 4))])
  {
    hide ToLE, Splice;
    PageOfSum(p, 0);
  }

  /** What one chunk does to any page of the shadow. */
  lemma {:induction false} ChunkAnywhere(m: Mem, curr: nat, tab: Tables, mapped: Mapped, shadow: map<nat, nat>,
                                         next: nat, s: Segment, offset: nat, v: nat)
    requires TablesSound(m, curr, tab, mapped, next) && ShadowSound(m, mapped, shadow, next)
    requires offset < |s.data| && v in shadow
    ensures shadow[v] in m
    ensures var p := shadow[v];
            && TablesSound(m[p := ProbedPut(m[p], s, offset)], curr, tab, mapped, next)
            && ShadowSound(m[p := ProbedPut(m[p], s, offset)], mapped, shadow, next)
  {
    hide TablesSound, Agrees, ProbedPut;
    PagePut(m, curr, tab, mapped, shadow, next, v, ProbedPut(m[shadow[v]], s, offset));
  }

  /** Before a chunk is copied: what was copied so far is right, in pages that were not mapped before
      the segment was, and what was mapped before is kept. */
  ghost predicate ChunkReady(m0: Mem, before: map<nat, nat>, m: Mem, shadow: map<nat, nat>, s: Segment, offset: nat) {
    && Contained(s) && ChunkAt(s, offset) && Copied(m, shadow, s, offset)
    && Keeps(m0, before, m, shadow) && NewPages(before, s)
  }

  /** One chunk of a segment whose file bytes fit its pages. */
  lemma {:induction false} ChunkStep(m0: Mem, before: map<nat, nat>, m: Mem, mapped: Mapped, shadow: map<nat, nat>,
                                     next: nat, s: Segment, offset: nat)
    requires ShadowSound(m, mapped, shadow, next)
    requires offset < |s.data| && ChunkReady(m0, before, m, shadow, s, offset)
    ensures var v := (s.vaddr + offset) / PAGE_SIZE;
            && v in shadow && shadow[v] in m
            && var m' := m[shadow[v] := ProbedPut(m[shadow[v]], s, offset)];
               ChunkReady(m0, before, m', shadow, s, offset + ChunkSize(s, offset))
  {
    hide Copied, ChunkAt, Keeps, Write, ChunkPut, FirstPage, EndPage, Contained, ZeroPage, Agrees, Splice;
    var v: nat := (s.vaddr + offset) / PAGE_SIZE;
    ChunkPage(m, shadow, s, offset);
    ProbeHarmless(m[shadow[v]]);
    var page := ProbedPut(m[shadow[v]], s, offset);
    Injective(shadow, mapped, next);
    CopyStep(m, shadow, s, offset, page);
    KeepsOutside(m0, before, m, shadow, v, page);
  }

  lemma {:induction false} Injective(shadow: map<nat, nat>, mapped: Mapped, next: nat)
    requires Agrees(shadow, mapped, next)
    ensures forall v, w: nat :: v in shadow && w in shadow && shadow[v] == shadow[w] ==> v == w
  {
    hide Key, ShadowEntry;
  }

  lemma {:induction false} ProbeHarmless(page: Page)
    requires page == ZeroPage()
    ensures Splice(page, 0, ToLE(0, 4)) == page
  {
    assert ToLE(0, 4) == [0, 0, 0, 0];
  }

  /** Segment bytes, read through the page tables for any kind of user access. */
  lemma {:induction false} ImageThroughTables(m: Mem, curr: nat, tab: Tables, mapped: Mapped, shadow: map<nat, nat>,
                                              next: nat, mxr: bool, sum: bool, access: AccessType, s: Segment, k: nat)
    requires TablesSound(m, curr, tab, mapped, next) && ShadowSound(m, mapped, shadow, next)
    requires SegmentLoaded(m, shadow, s) && k < Extent(s)
    ensures var r := Translate(LoaderCsrs(mxr, sum), m, USER, access, s.vaddr + k);
            r.status == OK && ByteAt(m, r.pa) == Some(SegmentByte(s, k))
  {
    hide Tree, Translate, Agrees, ByteAt, Pow2;
    RoomLeft(shadow, mapped, next);
    LoadedTranslate(m, curr, tab, mapped, shadow, next, mxr, sum, access, s.vaddr + k);
    assert ByteIs(m, shadow, s.vaddr + k, SegmentByte(s, k));
  }
}
