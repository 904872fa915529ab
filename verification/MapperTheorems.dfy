/** Main results about the mapper: it refines an abstract finite map, and translation through its
    tables is that map. */
module MapperTheorems {
  import opened Common
  import opened Bits
  import opened PhysMem
  import opened Pte
  import opened Mmu
  import opened MmuTheory
  import opened Mapper
  import opened MapperTheory

  // ---------------------------------------------------------------- the abstract mapper

  /** The tables that exist and the pages that are mapped; no memory, no page numbers. */
  datatype Abstract = Abstract(nodes: set<Node>, mapped: Mapped)

  function PathSet(key: nat, lo: nat, hi: nat): set<Node> {
    set i | lo <= i < hi :: PathNode(key, i)
  }

  /** How many tables below level i are missing on the path of key. */
  function Missing(nodes: set<Node>, key: nat, i: nat): (n: nat)
    ensures n <= i
  {
    if i == 0 then 0
    else if PathNode(key, i - 1) in nodes then Missing(nodes, key, i - 1)
    else i
  }

  datatype AbstractResult = AbstractResult(status: SimStatus, state: Abstract)

  function MaxZero(x: int): nat { if x < 0 then 0 else x }

  /** The mapping that a page gets, or the error, decided from the table count alone. */
  function AbstractMap(g: Region, a: Abstract, req: Mapping): AbstractResult
    requires g.mode != BARE
  {
    var key := Key(req.vpn, Levels(g));
    var missing := Missing(a.nodes, key, Levels(g) - 1);
    var left := g.end - g.begin - |a.nodes|;
    if g.begin <= req.ppn < g.end then AbstractResult(MAPPER_TABLE_REGION_PAGE_MAPPED, a)
    else if key in a.mapped then AbstractResult(MAPPER_ALREADY_MAPPED, a)
    else if missing > left then
      AbstractResult(MAPPER_TABLE_REGION_END, a.(nodes := a.nodes + PathSet(key, MaxZero(missing - left), missing)))
    else
      AbstractResult(OK, Abstract(a.nodes + PathSet(key, 0, missing),
                                  a.mapped[key := Entry(req.ppn, FullFlags(req.flags))]))
  }

  // ---------------------------------------------------------------- paths

  lemma {:induction false} PathUp(g: Region, curr: nat, tab: Tables, key: nat, i: nat, j: nat)
    requires g.mode != BARE && TablesOk(g, curr, tab)
    requires i <= j < Levels(g) && PathNode(key, i) in tab
    ensures PathNode(key, j) in tab
    decreases j - i
  {
    if i < j {
      assert HasParent(g, tab, PathNode(key, i));
      PathUp(g, curr, tab, key, i + 1, j);
    }
  }

  lemma {:induction false} RootOnPath(g: Region, curr: nat, tab: Tables, vpn: nat)
    requires g.mode != BARE && TablesOk(g, curr, tab)
    ensures var n := PathNode(Key(vpn, Levels(g)), Levels(g) - 1); n in tab && tab[n] == g.begin
  {
    UpOfKeyTop(vpn, Levels(g));
  }

  // ---------------------------------------------------------------- one level of map

  /** The word the loop reads at level i. */
  lemma {:induction false} LevelRead(g: Region, m: Mem, curr: nat, tab: Tables, mapped: Mapped, req: Mapping, i: nat)
    requires Tree(g, m, curr, tab, mapped) && i < Levels(g)
    requires PathNode(Key(req.vpn, Levels(g)), i) in tab
    ensures var key := Key(req.vpn, Levels(g));
            var n, slot := PathNode(key, i), Up(key, i) % 512;
            && tab[n] in m
            && PteAddr(tab[n], MapVa(req), i) == tab[n] * PAGE_SIZE + slot * 8
            && Read(m, PteAddr(tab[n], MapVa(req), i), 8) == ReadResult(OK, SlotWord(tab, mapped, n, slot))
  {
    hide CreatePte, PteAt, Read, GetVpn, Pow2;
    var key := Key(req.vpn, Levels(g));
    var n, slot := PathNode(key, i), Up(key, i) % 512;
    MapSlot(req, Levels(g), i);
    assert SlotOk(m, tab, mapped, n, slot);
    ReadPte(m, tab[n], slot);
  }

  /** The last iteration of the mapping loop. */
  lemma {:induction false} LeafStep(g: Region, m: Mem, curr: nat, tab: Tables, mapped: Mapped, req: Mapping)
    requires Tree(g, m, curr, tab, mapped)
    requires PathNode(Key(req.vpn, Levels(g)), 0) in tab
    ensures var key := Key(req.vpn, Levels(g));
            var t := tab[PathNode(key, 0)];
            var l := MapLevel(g, m, curr, req, 0, t);
            if key in mapped then l == Stop(MapResult(MAPPER_ALREADY_MAPPED, m, curr))
            else l.Stop? && l.result.status == OK && l.result.curr == curr &&
                 SlotWritten(m, l.result.mem, t, key % 512, CreatePte(req.ppn, FullFlags(req.flags)))
  {
    hide CreatePte, Write, Read, PteAddr, SlotWritten, MapVa, FullFlags, Key, Tree, SlotWord, V, Pow2;
    TreeFacts(g, m, curr, tab, mapped);
    var key := Key(req.vpn, Levels(g));
    LevelRead(g, m, curr, tab, mapped, req, 0);
    UpZero(key);
    LeafWord(tab, mapped, key);
    CreatePteFields(req.ppn, FullFlags(req.flags));
    WriteSlot(m, tab[PathNode(key, 0)], key % 512, CreatePte(req.ppn, FullFlags(req.flags)));
  }

  lemma {:induction false} UpZero(key: nat)
    ensures Up(key, 0) == key
  {
  }

  /** The word of a leaf slot is valid exactly when its key is mapped. */
  lemma {:induction false} LeafWord(tab: Tables, mapped: Mapped, key: nat)
    requires MappedOk(tab, mapped)
    ensures V(SlotWord(tab, mapped, PathNode(key, 0), key % 512)) <==> key in mapped
  {
    hide CreatePte, PtePpn, Reserved, Pow2;
    UpOne(key);
    BitOfZero(0);
    if key in mapped { CreatePteFields(mapped[key].ppn, mapped[key].flags); }
  }

  /** An inner iteration follows a pointer, adds a table or runs out of tables. */
  lemma {:induction false} InnerStep(g: Region, m: Mem, curr: nat, tab: Tables, mapped: Mapped, req: Mapping, i: nat)
    requires Tree(g, m, curr, tab, mapped) && 0 < i < Levels(g)
    requires PathNode(Key(req.vpn, Levels(g)), i) in tab
    ensures var key := Key(req.vpn, Levels(g));
            var t := tab[PathNode(key, i)];
            var l := MapLevel(g, m, curr, req, i, t);
            if PathNode(key, i - 1) in tab then l == Down(m, curr, tab[PathNode(key, i - 1)])
            else if curr == g.end then l == Stop(MapResult(MAPPER_TABLE_REGION_END, m, curr))
            else l.Down? && l.curr == curr + 1 && l.table == curr &&
                 SlotWritten(m, l.mem, t, Up(key, i) % 512, CreatePte(curr, V_MASK))
  {
    hide CreatePte, PtePpn, Write, Read, PteAddr, SlotWritten, MapVa, FullFlags, Key, Reserved, SlotOk, ZeroSlot, R,
      W, X, MappedOk, Up, Pow2;
    var key := Key(req.vpn, Levels(g));
    var n, c, slot := PathNode(key, i), PathNode(key, i - 1), Up(key, i) % 512;
    LevelRead(g, m, curr, tab, mapped, req, i);
    ChildSlot(n, slot, key, i);
    BitOfZero(0);
    if c in tab {
      PointerPte(tab[c]);
    } else if curr < g.end {
      PointerPte(curr);
      WriteSlot(m, tab[n], slot, CreatePte(curr, V_MASK));
    }
  }

  // ---------------------------------------------------------------- map refines the abstract mapper

  /** Only table pages differ. */
  ghost predicate OutsideSame(g: Region, m: Mem, m': Mem) {
    m'.Keys == m.Keys && forall p :: p in m && !(g.begin <= p < g.end) ==> m'[p] == m[p]
  }

  lemma {:induction false} MissingAfterAdd(g: Region, curr: nat, tab: Tables, key: nat, i: nat)
    requires g.mode != BARE && TablesOk(g, curr, tab)
    requires 0 < i < Levels(g) && PathNode(key, i - 1) !in tab
    ensures Missing(tab.Keys + {PathNode(key, i - 1)}, key, i - 1) == i - 1
  {
    if i > 1 && PathNode(key, i - 2) in tab {
      PathUp(g, curr, tab, key, i - 2, i - 1);
    }
  }

  /** What the mapping loop has to achieve from a state with `missing` tables to add: keep the
      tree, add exactly the missing tables it has pages for, and end with the status that the
      table count decides. */
  ghost predicate Outcome(g: Region, m: Mem, curr: nat, tab: Tables, mapped: Mapped, req: Mapping, missing: nat,
                          r: MapResult, tab': Tables)
    requires g.mode != BARE && curr <= g.end
  {
    var key := Key(req.vpn, Levels(g));
    var left := g.end - curr;
    && OutsideSame(g, m, r.mem)
    && (key in mapped ==> r == MapResult(MAPPER_ALREADY_MAPPED, m, curr) && tab' == tab)
    && (key !in mapped ==>
          && r.status == (if missing > left then MAPPER_TABLE_REGION_END else OK)
          && tab'.Keys == tab.Keys + PathSet(key, MaxZero(missing - left), missing))
    && Tree(g, r.mem, r.curr, tab',
            if r.status == OK then mapped[key := Entry(req.ppn, FullFlags(req.flags))] else mapped)
  }

  lemma {:induction false} LeafOutcome(g: Region, m: Mem, curr: nat, tab: Tables, mapped: Mapped, req: Mapping)
    requires Tree(g, m, curr, tab, mapped) && PathNode(Key(req.vpn, Levels(g)), 0) in tab
    ensures var t := tab[PathNode(Key(req.vpn, Levels(g)), 0)];
            Outcome(g, m, curr, tab, mapped, req, 0, MapWalk(g, m, curr, req, 0, t), tab)
  {
    hide MapLevel, CreatePte, FullFlags, Key, SlotOk, ZeroSlot, SlotIs, Pow2;
    var key := Key(req.vpn, Levels(g));
    var t := tab[PathNode(key, 0)];
    LeafStep(g, m, curr, tab, mapped, req);
    assert tab.Keys + PathSet(key, 0, 0) == tab.Keys;
    if key !in mapped {
      FullFlagsBits(req.flags);
      var m' := MapLevel(g, m, curr, req, 0, t).result.mem;
      AddLeaf(g, m, m', curr, tab, mapped, key, Entry(req.ppn, FullFlags(req.flags)));
    }
  }

  lemma {:induction false} PathSetAdd(key: nat, i: nat, left: nat)
    requires i > 0 && left > 0
    ensures {PathNode(key, i - 1)} + PathSet(key, MaxZero((i - 1) - (left - 1)), i - 1) ==
            PathSet(key, MaxZero(i - left), i)
  {
    var lo := MaxZero(i - left);
    forall n | n in PathSet(key, lo, i) ensures n in {PathNode(key, i - 1)} + PathSet(key, lo, i - 1) {
      assert n == PathNode(key, n.level);
    }
  }

  lemma {:induction false} AddOutcome(g: Region, m: Mem, m': Mem, curr: nat, tab: Tables, mapped: Mapped,
                                      req: Mapping, i: nat, r: MapResult, tab': Tables)
    requires Tree(g, m, curr, tab, mapped) && curr < g.end && 0 < i < Levels(g)
    requires var key := Key(req.vpn, Levels(g));
             && PathNode(key, i) in tab && PathNode(key, i - 1) !in tab && key !in mapped
             && OutsideSame(g, m, m')
             && Outcome(g, m', curr + 1, tab[PathNode(key, i - 1) := curr], mapped, req, i - 1, r, tab')
    ensures Outcome(g, m, curr, tab, mapped, req, i, r, tab')
  {
    hide Key, FullFlags, TablesOk, MappedOk, SlotOk, ZeroSlot, Pow2;
    var key := Key(req.vpn, Levels(g));
    PathSetAdd(key, i, g.end - curr);
    assert tab[PathNode(key, i - 1) := curr].Keys == tab.Keys + {PathNode(key, i - 1)};
  }

  lemma {:induction false} NotMapped(g: Region, m: Mem, curr: nat, tab: Tables, mapped: Mapped, key: nat, i: nat)
    requires Tree(g, m, curr, tab, mapped) && i < Levels(g) && PathNode(key, i) !in tab
    ensures key !in mapped
  {
    if key in mapped { PathUp(g, curr, tab, key, 0, i); }
  }

  lemma {:induction false} FullOutcome(g: Region, m: Mem, curr: nat, tab: Tables, mapped: Mapped, req: Mapping, i: nat)
    requires Tree(g, m, curr, tab, mapped) && curr == g.end && i > 0 && Key(req.vpn, Levels(g)) !in mapped
    ensures Outcome(g, m, curr, tab, mapped, req, i, MapResult(MAPPER_TABLE_REGION_END, m, curr), tab)
  {
    assert tab.Keys + PathSet(Key(req.vpn, Levels(g)), i, i) == tab.Keys;
  }

  lemma {:induction false} TreeFacts(g: Region, m: Mem, curr: nat, tab: Tables, mapped: Mapped)
    requires Tree(g, m, curr, tab, mapped)
    ensures ValidRegion(g) && curr <= g.end && TablesOk(g, curr, tab) && |tab.Keys| == curr - g.begin
    ensures MappedOk(tab, mapped)
    ensures forall n <- tab :: g.begin <= tab[n] < g.end
  {
    assert |tab.Keys| == |tab|;
  }

  lemma {:induction false} MapWalkRefines(g: Region, m: Mem, curr: nat, tab: Tables, mapped: Mapped, req: Mapping,
                                          i: nat)
      returns (tab': Tables)
    requires Tree(g, m, curr, tab, mapped) && i < Levels(g)
    requires PathNode(Key(req.vpn, Levels(g)), i) in tab
    ensures var key := Key(req.vpn, Levels(g));
            var r := MapWalk(g, m, curr, req, i, tab[PathNode(key, i)]);
            Outcome(g, m, curr, tab, mapped, req, Missing(tab.Keys, key, i), r, tab')
    decreases i
  {
    hide MapLevel, CreatePte, FullFlags, Key, Tree, TablesOk, SlotIs, Outcome, Pow2;
    TreeFacts(g, m, curr, tab, mapped);
    var key := Key(req.vpn, Levels(g));
    if i == 0 {
      LeafOutcome(g, m, curr, tab, mapped, req);
      tab' := tab;
      return;
    }
    var n, c := PathNode(key, i), PathNode(key, i - 1);
    InnerStep(g, m, curr, tab, mapped, req, i);
    var l := MapLevel(g, m, curr, req, i, tab[n]);
    if c in tab {
      tab' := MapWalkRefines(g, m, curr, tab, mapped, req, i - 1);
      return;
    }
    NotMapped(g, m, curr, tab, mapped, key, i - 1);
    if curr == g.end {
      tab' := tab;
      FullOutcome(g, m, curr, tab, mapped, req, i);
      return;
    }
    AddTable(g, m, l.mem, curr, tab, mapped, key, i);
    MissingAfterAdd(g, curr, tab, key, i);
    var tab1 := tab[c := curr];
    assert tab1.Keys == tab.Keys + {c};
    tab' := MapWalkRefines(g, l.mem, curr + 1, tab1, mapped, req, i - 1);
    var r := MapWalk(g, l.mem, curr + 1, req, i - 1, curr);
    AddOutcome(g, m, l.mem, curr, tab, mapped, req, i, r, tab');
  }

  /** map refines the abstract mapper: same status, the tree afterwards holds the abstract tables
      and mappings, and no page outside the region changes.  In particular TABLE_REGION_END is
      returned exactly when more tables are missing on the path than are left. */
  lemma {:induction false} MapRefines(g: Region, m: Mem, curr: nat, tab: Tables, mapped: Mapped, req: Mapping)
      returns (tab': Tables)
    requires Tree(g, m, curr, tab, mapped)
    ensures var r := Map(g, m, curr, req);
            var a := AbstractMap(g, Abstract(tab.Keys, mapped), req);
            && r.status == a.status
            && Tree(g, r.mem, r.curr, tab', a.state.mapped)
            && tab'.Keys == a.state.nodes
            && OutsideSame(g, m, r.mem)
  {
    hide MapWalk, Key, FullFlags, Tree, TablesOk, MappedOk, Outcome, Missing, Pow2;
    TreeFacts(g, m, curr, tab, mapped);
    if g.begin <= req.ppn < g.end {
      tab' := tab;
    } else {
      hide AbstractMap;
      RootOnPath(g, curr, tab, req.vpn);
      tab' := MapWalkRefines(g, m, curr, tab, mapped, req, Levels(g) - 1);
      OutcomeIsAbstract(g, m, curr, tab, mapped, req, Map(g, m, curr, req), tab');
    }
  }

  lemma {:induction false} OutcomeIsAbstract(g: Region, m: Mem, curr: nat, tab: Tables, mapped: Mapped, req: Mapping,
                                             r: MapResult, tab': Tables)
    requires g.mode != BARE && g.begin <= curr <= g.end && |tab.Keys| == curr - g.begin && !(g.begin <= req.ppn < g.end)
    requires Outcome(g, m, curr, tab, mapped, req, Missing(tab.Keys, Key(req.vpn, Levels(g)), Levels(g) - 1), r, tab')
    ensures var a := AbstractMap(g, Abstract(tab.Keys, mapped), req);
            && r.status == a.status
            && Tree(g, r.mem, r.curr, tab', a.state.mapped)
            && tab'.Keys == a.state.nodes
            && OutsideSame(g, m, r.mem)
  {
    hide AbstractMap, Key, FullFlags, Tree, OutsideSame, PathSet, Missing, Pow2, Levels;
    AbstractCases(g, Abstract(tab.Keys, mapped), req, Missing(tab.Keys, Key(req.vpn, Levels(g)), Levels(g) - 1),
      g.end - curr);
  }

  /** The abstract mapper, case by case. */
  lemma {:induction false} AbstractCases(g: Region, a: Abstract, req: Mapping, missing: nat, left: nat)
    requires g.mode != BARE && !(g.begin <= req.ppn < g.end) && left == g.end - g.begin - |a.nodes|
    requires missing == Missing(a.nodes, Key(req.vpn, Levels(g)), Levels(g) - 1)
    ensures var key, r := Key(req.vpn, Levels(g)), AbstractMap(g, a, req);
            && (key in a.mapped ==> r == AbstractResult(MAPPER_ALREADY_MAPPED, a))
            && (key !in a.mapped ==>
                  && r.status == (if missing > left then MAPPER_TABLE_REGION_END else OK)
                  && r.state.nodes == a.nodes + PathSet(key, MaxZero(missing - left), missing)
                  && r.state.mapped == (if missing > left then a.mapped
                                        else a.mapped[key := Entry(req.ppn, FullFlags(req.flags))]))
  {
    hide Key, FullFlags, PathSet, Missing, Pow2, Levels;
  }

  // ---------------------------------------------------------------- sequences of map calls

  datatype Calls = Calls(statuses: seq<SimStatus>, mem: Mem, curr: nat)

  function MapAll(g: Region, m: Mem, curr: nat, reqs: seq<Mapping>): Calls {
    if reqs == [] then Calls([], m, curr)
    else
      var before := MapAll(g, m, curr, reqs[..|reqs| - 1]);
      var r := Map(g, before.mem, before.curr, reqs[|reqs| - 1]);
      Calls(before.statuses + [r.status], r.mem, r.curr)
  }

  datatype AbstractCalls = AbstractCalls(statuses: seq<SimStatus>, state: Abstract)

  function AbstractMapAll(g: Region, reqs: seq<Mapping>): AbstractCalls
    requires g.mode != BARE
  {
    if reqs == [] then AbstractCalls([], Abstract({Node(Levels(g) - 1, 0)}, map[]))
    else
      var before := AbstractMapAll(g, reqs[..|reqs| - 1]);
      var r := AbstractMap(g, before.state, reqs[|reqs| - 1]);
      AbstractCalls(before.statuses + [r.status], r.state)
  }

  /** After any sequence of map calls on a fresh zeroed region the statuses are the abstract ones
      and the tree invariant holds of the abstract tables and mappings. */
  lemma {:induction false} MapAllRefines(g: Region, m: Mem, reqs: seq<Mapping>) returns (tab: Tables)
    requires ValidRegion(g)
    requires forall t :: g.begin <= t < g.end ==> t in m && m[t] == ZeroPage()
    ensures var c := MapAll(g, m, g.begin + 1, reqs);
            var a := AbstractMapAll(g, reqs);
            && c.statuses == a.statuses
            && Tree(g, c.mem, c.curr, tab, a.state.mapped) && tab.Keys == a.state.nodes
            && OutsideSame(g, m, c.mem)
  {
    hide Map, AbstractMap, Tree, Pow2;
    if reqs == [] {
      FreshTree(g, m);
      tab := map[Node(Levels(g) - 1, 0) := g.begin];
    } else {
      var rest := reqs[..|reqs| - 1];
      var tab0 := MapAllRefines(g, m, rest);
      var c, a := MapAll(g, m, g.begin + 1, rest), AbstractMapAll(g, rest);
      tab := MapRefines(g, c.mem, c.curr, tab0, a.state.mapped, reqs[|reqs| - 1]);
      assert Abstract(tab0.Keys, a.state.mapped) == a.state;
    }
  }

  // ---------------------------------------------------------------- translation is the finite map

  predicate LegalFlags(flags: Flags) { (R(flags) || X(flags)) && !(W(flags) && !R(flags)) }

  /** Translation decided by the finite map alone. */
  function MappedTranslate(c: Csrs, mapped: Mapped, priv: PrivLevel, access: AccessType, va: nat): Result
    requires c.mode != BARE
  {
    var key := Key(va / PAGE_SIZE, ModeToLevels(c.mode));
    if key in mapped && LegalFlags(mapped[key].flags) && CheckLeafFlags(priv, access, mapped[key].flags, c.mxr, c.sum)
    then Result(OK, (mapped[key].ppn % PPN_LIMIT) * PAGE_SIZE + va % PAGE_SIZE)
    else PAGE_FAULT_RES
  }

  function MappedWalk(mapped: Mapped, key: nat): Walk {
    if key in mapped && LegalFlags(mapped[key].flags) then Leaf(CreatePte(mapped[key].ppn, mapped[key].flags), 0)
    else Fault(MMU64_PAGE_FAULT)
  }

  lemma {:induction false} WalkRead(g: Region, m: Mem, curr: nat, tab: Tables, mapped: Mapped, va: nat, i: nat)
    requires Tree(g, m, curr, tab, mapped) && i < Levels(g)
    requires PathNode(Key(va / PAGE_SIZE, Levels(g)), i) in tab
    ensures var key := Key(va / PAGE_SIZE, Levels(g));
            var n := PathNode(key, i);
            Read(m, PteAddr(tab[n], va, i), 8) == ReadResult(OK, SlotWord(tab, mapped, n, Up(key, i) % 512))
  {
    hide CreatePte, PteAt, Read, GetVpn, Pow2;
    var key := Key(va / PAGE_SIZE, Levels(g));
    var n, slot := PathNode(key, i), Up(key, i) % 512;
    WalkSlot(va, Levels(g), i);
    assert SlotOk(m, tab, mapped, n, slot);
    ReadPte(m, tab[n], slot);
  }

  /** The flag tests of an entry are those of the flags it was made from. */
  lemma {:induction false} LeafPteFlags(e: Entry)
    requires DefaultsSet(e.flags)
    ensures var pte := CreatePte(e.ppn, e.flags);
            && Malformed(pte) == (W(e.flags) && !R(e.flags))
            && R(pte) == R(e.flags) && X(pte) == X(e.flags) && A(pte) && D(pte)
            && PtePpn(pte) == e.ppn % PPN_LIMIT
            && forall priv, access, mxr, sum ::
                 CheckLeafFlags(priv, access, pte, mxr, sum) == CheckLeafFlags(priv, access, e.flags, mxr, sum)
  {
    hide CreatePte, Reserved, PtePpn, Pow2;
    CreatePteFields(e.ppn, e.flags);
    var pte := CreatePte(e.ppn, e.flags);
    assert Bit(pte, 0) == Bit(e.flags, 0) && Bit(pte, 1) == Bit(e.flags, 1) && Bit(pte, 2) == Bit(e.flags, 2);
    assert Bit(pte, 3) == Bit(e.flags, 3) && Bit(pte, 4) == Bit(e.flags, 4);
    assert Bit(pte, 6) == Bit(e.flags, 6) && Bit(pte, 7) == Bit(e.flags, 7);
  }

  lemma {:induction false} WalkIsMapped(g: Region, m: Mem, curr: nat, tab: Tables, mapped: Mapped, va: nat, i: nat)
    requires Tree(g, m, curr, tab, mapped) && i < Levels(g)
    requires PathNode(Key(va / PAGE_SIZE, Levels(g)), i) in tab
    ensures var key := Key(va / PAGE_SIZE, Levels(g));
            WalkTable(m, va, i, tab[PathNode(key, i)]) == MappedWalk(mapped, key)
    decreases i
  {
    hide CreatePte, Read, PteAddr, Key, Tree, TablesOk, Reserved, PtePpn, Pow2;
    TreeFacts(g, m, curr, tab, mapped);
    var key := Key(va / PAGE_SIZE, Levels(g));
    WalkRead(g, m, curr, tab, mapped, va, i);
    BitOfZero(0);
    if i == 0 {
      UpOne(key);
      if key in mapped { LeafPteFlags(mapped[key]); }
    } else {
      var n, c := PathNode(key, i), PathNode(key, i - 1);
      ChildSlot(n, Up(key, i) % 512, key, i);
      if c in tab {
        PointerPte(tab[c]);
        WalkIsMapped(g, m, curr, tab, mapped, va, i - 1);
      } else {
        NotMapped(g, m, curr, tab, mapped, key, i - 1);
      }
    }
  }

  /** Through the mapper's tables, every address translates as the finite map says: a mapped page
      with legal flags and a permitted access gives its page number, everything else a page
      fault, and the assertion on A and D never fails. */
  lemma {:induction false} TranslateIsMapped(g: Region, m: Mem, curr: nat, tab: Tables, mapped: Mapped, c: Csrs,
                                             priv: PrivLevel, access: AccessType, va: nat)
    requires Tree(g, m, curr, tab, mapped) && c.mode == g.mode && c.root == g.begin
    ensures Translate(c, m, priv, access, va) == MappedTranslate(c, mapped, priv, access, va)
  {
    hide CreatePte, WalkTable, Key, Malformed, CheckLeafFlags, Tree, TablesOk, CalcPhysAddr, PtePpn, Pow2;
    TreeFacts(g, m, curr, tab, mapped);
    var key := Key(va / PAGE_SIZE, Levels(g));
    RootOnPath(g, curr, tab, va / PAGE_SIZE);
    WalkIsMapped(g, m, curr, tab, mapped, va, Levels(g) - 1);
    if key in mapped {
      var pte := CreatePte(mapped[key].ppn, mapped[key].flags);
      LeafPteFlags(mapped[key]);
      LeafAddress(pte, va, 0);
      Pow2Zero();
    }
  }

  /** After any sequence of map calls on a fresh region, translation is the finite map that the
      abstract mapper holds after the same calls. */
  lemma {:induction false} TranslateAfterMaps(g: Region, m: Mem, reqs: seq<Mapping>, c: Csrs, priv: PrivLevel,
                                              access: AccessType, va: nat)
    requires ValidRegion(g) && c.mode == g.mode && c.root == g.begin
    requires forall t :: g.begin <= t < g.end ==> t in m && m[t] == ZeroPage()
    ensures Translate(c, MapAll(g, m, g.begin + 1, reqs).mem, priv, access, va) ==
            MappedTranslate(c, AbstractMapAll(g, reqs).state.mapped, priv, access, va)
    ensures MapAll(g, m, g.begin + 1, reqs).statuses == AbstractMapAll(g, reqs).statuses
  {
    hide Map, AbstractMap, Tree, Translate, MappedTranslate, Pow2;
    var tab := MapAllRefines(g, m, reqs);
    var after := MapAll(g, m, g.begin + 1, reqs);
    TranslateIsMapped(g, after.mem, after.curr, tab, AbstractMapAll(g, reqs).state.mapped, c, priv, access, va);
  }

  /** A map call changes translation only for the page it maps, and only when it returns OK: a
      call that fails after adding some tables is invisible. */
  lemma {:induction false} MapChangesOnePage(g: Region, m: Mem, curr: nat, tab: Tables, mapped: Mapped, req: Mapping,
                                             c: Csrs, priv: PrivLevel, access: AccessType, va: nat)
    requires Tree(g, m, curr, tab, mapped) && c.mode == g.mode && c.root == g.begin
    ensures var r := Map(g, m, curr, req);
            var same := Key(va / PAGE_SIZE, Levels(g)) == Key(req.vpn, Levels(g));
            && (r.status != OK || !same ==> Translate(c, r.mem, priv, access, va) == Translate(c, m, priv, access, va))
            && (r.status == OK && same ==>
                  && Translate(c, m, priv, access, va) == PAGE_FAULT_RES
                  && Translate(c, r.mem, priv, access, va) ==
                     if LegalFlags(FullFlags(req.flags)) &&
                       CheckLeafFlags(priv, access, FullFlags(req.flags), c.mxr, c.sum)
                     then Result(OK, (req.ppn % PPN_LIMIT) * PAGE_SIZE + va % PAGE_SIZE) else PAGE_FAULT_RES)
  {
    hide Map, Tree, Translate, Key, PathSet, Missing, FullFlags, LegalFlags, CheckLeafFlags, Pow2;
    TreeFacts(g, m, curr, tab, mapped);
    var tab' := MapRefines(g, m, curr, tab, mapped, req);
    var r, a := Map(g, m, curr, req), AbstractMap(g, Abstract(tab.Keys, mapped), req);
    TranslateIsMapped(g, m, curr, tab, mapped, c, priv, access, va);
    TranslateIsMapped(g, r.mem, r.curr, tab', a.state.mapped, c, priv, access, va);
  }

  /** Translations that succeed keep succeeding when more pages are mapped. */
  lemma {:induction false} MapKeepsTranslations(g: Region, m: Mem, curr: nat, tab: Tables, mapped: Mapped,
                                                req: Mapping, c: Csrs, priv: PrivLevel, access: AccessType, va: nat)
    requires Tree(g, m, curr, tab, mapped) && c.mode == g.mode && c.root == g.begin
    requires Translate(c, m, priv, access, va).status == OK
    ensures Translate(c, Map(g, m, curr, req).mem, priv, access, va) == Translate(c, m, priv, access, va)
  {
    hide Map, Tree, Translate, Key, FullFlags, LegalFlags, CheckLeafFlags, Pow2;
    MapChangesOnePage(g, m, curr, tab, mapped, req, c, priv, access, va);
  }

  // ---------------------------------------------------------------- table accounting

  /** Slots of inner tables that hold a valid entry. */
  ghost function PointerSlots(m: Mem, tab: Tables): set<(nat, nat)>
    requires forall n <- tab :: tab[n] in m
  {
    set n, idx: nat | n in tab && n.level > 0 && idx < 512 && V(PteAt(m, tab[n], idx)) :: (tab[n], idx)
  }

  ghost predicate HasSlot(tab: Tables, c: Node) { Node(c.level + 1, c.prefix / 512) in tab }

  /** The slot that points to table c. */
  ghost function ParentSlot(tab: Tables, c: Node): (nat, nat)
    requires HasSlot(tab, c)
  {
    (tab[Node(c.level + 1, c.prefix / 512)], c.prefix % 512)
  }

  lemma {:induction false} ParentSlotInjective(tab: Tables, c: Node, d: Node)
    requires HasSlot(tab, c) && HasSlot(tab, d)
    requires forall n, n' :: n in tab && n' in tab && tab[n] == tab[n'] ==> n == n'
    requires ParentSlot(tab, c) == ParentSlot(tab, d)
    ensures c == d
  {
    assert Node(c.level + 1, c.prefix / 512) == Node(d.level + 1, d.prefix / 512);
  }

  lemma {:induction false} PointerSlotOf(g: Region, m: Mem, curr: nat, tab: Tables, mapped: Mapped, n: Node, idx: nat)
    requires Tree(g, m, curr, tab, mapped) && n in tab && n.level > 0 && idx < 512
    ensures tab[n] in m && V(PteAt(m, tab[n], idx)) == (Child(n, idx) in tab)
  {
    hide CreatePte, PteAt, Pow2;
    assert SlotOk(m, tab, mapped, n, idx);
    BitOfZero(0);
    if Child(n, idx) in tab { PointerPte(tab[Child(n, idx)]); }
  }

  /** The valid entries of inner tables are the slots that point to the tables below the root. */
  lemma {:induction false} PointerSlotsAre(g: Region, m: Mem, curr: nat, tab: Tables, mapped: Mapped, nodes: set<Node>)
    requires Tree(g, m, curr, tab, mapped) && nodes == tab.Keys - {Node(Levels(g) - 1, 0)}
    requires (forall n <- tab :: tab[n] in m) && forall c <- nodes :: HasSlot(tab, c)
    ensures PointerSlots(m, tab) == set c <- nodes :: ParentSlot(tab, c)
  {
    hide Tree, PointerSlots, ParentSlot, HasSlot;
    TreeFacts(g, m, curr, tab, mapped);
    var image := set c <- nodes :: ParentSlot(tab, c);
    forall s | s in PointerSlots(m, tab) ensures s in image {
      var c := SlotTarget(g, m, curr, tab, mapped, s);
      assert c in nodes;
    }
    forall s | s in image ensures s in PointerSlots(m, tab) {
      var c :| c in nodes && s == ParentSlot(tab, c);
      assert HasSlot(tab, c);
      ParentIsSlot(g, m, curr, tab, mapped, c);
    }
  }

  lemma {:induction false} SlotTarget(g: Region, m: Mem, curr: nat, tab: Tables, mapped: Mapped, s: (nat, nat))
      returns (c: Node)
    requires Tree(g, m, curr, tab, mapped) && (forall n <- tab :: tab[n] in m) && s in PointerSlots(m, tab)
    ensures c in tab && c != Node(Levels(g) - 1, 0) && HasSlot(tab, c) && ParentSlot(tab, c) == s
  {
    hide Tree, PteAt, V, Pow2;
    TreeFacts(g, m, curr, tab, mapped);
    var n, idx: nat :| n in tab && n.level > 0 && idx < 512 && V(PteAt(m, tab[n], idx)) && s == (tab[n], idx);
    PointerSlotOf(g, m, curr, tab, mapped, n, idx);
    c := Child(n, idx);
    assert Node(c.level + 1, c.prefix / 512) == n;
  }

  lemma {:induction false} ParentIsSlot(g: Region, m: Mem, curr: nat, tab: Tables, mapped: Mapped, c: Node)
    requires Tree(g, m, curr, tab, mapped) && (forall n <- tab :: tab[n] in m) && c in tab && HasSlot(tab, c)
    ensures ParentSlot(tab, c) in PointerSlots(m, tab)
  {
    hide Tree, PteAt, V, Pow2;
    var n := Node(c.level + 1, c.prefix / 512);
    PointerSlotOf(g, m, curr, tab, mapped, n, c.prefix % 512);
    assert Child(n, c.prefix % 512) == c;
  }

  /** Table accounting: the tables handed out after the root are as many as the valid entries of
      inner tables. */
  lemma {:induction false} TableAccounting(g: Region, m: Mem, curr: nat, tab: Tables, mapped: Mapped)
    requires Tree(g, m, curr, tab, mapped)
    ensures forall n <- tab :: tab[n] in m
    ensures |PointerSlots(m, tab)| == curr - g.begin - 1
  {
    hide PteAt, MappedOk, PointerSlots, Pow2;
    forall n | n in tab ensures tab[n] in m { assert SlotOk(m, tab, mapped, n, 0); }
    TreeFacts(g, m, curr, tab, mapped);
    var nodes := tab.Keys - {Node(Levels(g) - 1, 0)};
    forall c | c in nodes ensures HasSlot(tab, c) {
      InnerHasParent(g, curr, tab, c);
    }
    PointerSlotsAre(g, m, curr, tab, mapped, nodes);
    SlotCount(g, curr, tab, nodes);
  }

  /** Different tables are pointed to from different slots. */
  lemma {:induction false} SlotCount(g: Region, curr: nat, tab: Tables, nodes: set<Node>)
    requires g.mode != BARE && TablesOk(g, curr, tab) && nodes <= tab.Keys && forall c <- nodes :: HasSlot(tab, c)
    ensures |set c <- nodes :: ParentSlot(tab, c)| == |nodes|
  {
    hide ParentSlot, HasSlot, Pow2;
    if nodes != {} {
      var x :| x in nodes;
      var rest := nodes - {x};
      SlotCount(g, curr, tab, rest);
      forall c | c in rest ensures ParentSlot(tab, c) != ParentSlot(tab, x) {
        if ParentSlot(tab, c) == ParentSlot(tab, x) { ParentSlotInjective(tab, c, x); }
      }
      assert (set c <- nodes :: ParentSlot(tab, c)) == (set c <- rest :: ParentSlot(tab, c)) + {ParentSlot(tab, x)};
    }
  }

  /** Every table but the root has a parent: the prefix of a top-level table is zero. */
  lemma {:induction false} InnerHasParent(g: Region, curr: nat, tab: Tables, c: Node)
    requires g.mode != BARE && TablesOk(g, curr, tab) && c in tab && c != Node(Levels(g) - 1, 0)
    ensures HasSlot(tab, c)
  {
    assert HasParent(g, tab, c);
  }
}
