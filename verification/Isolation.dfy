/** Page-table isolation: when user stores cannot reach the table region, and when a mapping
    request breaks that. */
module Isolation {
  import opened Common
  import opened Bits
  import opened PhysMem
  import opened Pte
  import opened Mmu
  import opened MmuTheory
  import opened Mapper
  import opened MapperTheory
  import opened MapperTheorems

  ghost function TableRefs(tab: Tables): set<TableRef> {
    set n <- tab :: TableRef(n.level, tab[n])
  }

  /** The tables in use, and every page of the region whether it holds a table yet or not. */
  ghost function RegionRefs(g: Region, tab: Tables): set<TableRef> {
    TableRefs(tab) + set t | g.begin <= t < g.end :: TableRef(0, t)
  }

  predicate UserWritable(flags: Flags) { LegalFlags(flags) && W(flags) && U(flags) }

  /** No page that a user may write is, as the entry keeps it, a page of the table region. */
  ghost predicate AvoidsRegion(g: Region, mapped: Mapped) {
    forall k <- mapped :: UserWritable(mapped[k].flags) ==> !(g.begin <= mapped[k].ppn % PPN_LIMIT < g.end)
  }

  lemma {:induction false} TreeClosed(g: Region, m: Mem, curr: nat, tab: Tables, mapped: Mapped)
    requires Tree(g, m, curr, tab, mapped)
    ensures Closed(m, RegionRefs(g, tab))
  {
    hide CreatePte, PteAt, PtePpn, Reserved, W, Pow2;
    var refs := RegionRefs(g, tab);
    forall r, idx | r in refs && r.level > 0 && r.ppn in m && 0 <= idx < 512 && IsPointer(PteAt(m, r.ppn, idx))
      ensures TableRef(r.level - 1, PtePpn(PteAt(m, r.ppn, idx))) in refs
    {
      var n :| n in tab && r == TableRef(n.level, tab[n]);
      assert SlotOk(m, tab, mapped, n, idx);
      BitOfZero(0);
      var c := Child(n, idx);
      assert c in tab;
      PointerPte(tab[c]);
    }
  }

  ghost predicate StoreOutside(g: Region, c: Csrs, m: Mem, va: nat) {
    var r := Translate(c, m, USER, WRITE, va);
    r.status == OK ==> !(g.begin <= r.pa / PAGE_SIZE < g.end)
  }

  /** No user store reaches the table region. */
  ghost predicate StoresOutside(g: Region, c: Csrs, m: Mem) { forall va: nat :: StoreOutside(g, c, m, va) }

  /** Page-table isolation, exactly: user stores stay out of the table region if and only if no
      user-writable entry keeps a page of it. */
  lemma {:induction false} IsolationExactly(g: Region, m: Mem, curr: nat, tab: Tables, mapped: Mapped, c: Csrs)
    requires Tree(g, m, curr, tab, mapped) && c.mode == g.mode && c.root == g.begin
    ensures AvoidsRegion(g, mapped) <==> StoresOutside(g, c, m)
  {
    hide Tree, Translate, Key, Pow2;
    TreeFacts(g, m, curr, tab, mapped);
    if AvoidsRegion(g, mapped) {
      forall va: nat ensures StoreOutside(g, c, m, va) {
        TranslateIsMapped(g, m, curr, tab, mapped, c, USER, WRITE, va);
        var key := Key(va / PAGE_SIZE, Levels(g));
        if key in mapped { PageOfSum(mapped[key].ppn % PPN_LIMIT, va % PAGE_SIZE); }
      }
    } else {
      var k :| k in mapped && UserWritable(mapped[k].flags) && g.begin <= mapped[k].ppn % PPN_LIMIT < g.end;
      var va := k * PAGE_SIZE;
      MappedStore(g, m, curr, tab, mapped, c, k);
      assert !StoreOutside(g, c, m, va);
    }
  }

  /** A user store to a user-writable entry goes to the page that the entry keeps. */
  lemma {:induction false} MappedStore(g: Region, m: Mem, curr: nat, tab: Tables, mapped: Mapped, c: Csrs, k: nat)
    requires Tree(g, m, curr, tab, mapped) && c.mode == g.mode && c.root == g.begin
    requires k in mapped && UserWritable(mapped[k].flags)
    ensures var r := Translate(c, m, USER, WRITE, k * PAGE_SIZE);
            r.status == OK && r.pa / PAGE_SIZE == mapped[k].ppn % PPN_LIMIT && r.pa % PAGE_SIZE == 0
  {
    hide Tree, Translate, Key, Pow2;
    TreeFacts(g, m, curr, tab, mapped);
    KeyBound(g, m, curr, tab, mapped, k);
    KeyOfKey(k, Levels(g));
    assert k * PAGE_SIZE / PAGE_SIZE == k && k * PAGE_SIZE % PAGE_SIZE == 0;
    TranslateIsMapped(g, m, curr, tab, mapped, c, USER, WRITE, k * PAGE_SIZE);
    PageOfSum(mapped[k].ppn % PPN_LIMIT, 0);
  }

  /** Only keys get mapped. */
  lemma {:induction false} KeyBound(g: Region, m: Mem, curr: nat, tab: Tables, mapped: Mapped, k: nat)
    requires Tree(g, m, curr, tab, mapped) && k in mapped
    ensures k < Pow2(9 * Levels(g))
  {
    hide Tree, Up, Pow2;
    TreeFacts(g, m, curr, tab, mapped);
    var top := Levels(g) - 1;
    PathUp(g, curr, tab, k, 0, top);
    UpShift(k, top + 1);
    DivMod(k, Pow2(9 * (top + 1)));
  }

  lemma {:induction false} KeyOfKey(k: nat, levels: nat)
    requires k < Pow2(9 * levels)
    ensures Key(k, levels) == k
  {
    DivUnique(k, Pow2(9 * levels), 0, k);
  }

  /** The whole region of such tables, spare pages included, is isolated in the sense that store
      steps need. */
  lemma {:induction false} TreeIsolated(g: Region, m: Mem, curr: nat, tab: Tables, mapped: Mapped, c: Csrs)
    requires Tree(g, m, curr, tab, mapped) && c.mode == g.mode && c.root == g.begin && AvoidsRegion(g, mapped)
    ensures Isolated(c, m, RegionRefs(g, tab))
  {
    hide Tree, Translate, Closed, AvoidsRegion;
    TreeFacts(g, m, curr, tab, mapped);
    TreeClosed(g, m, curr, tab, mapped);
    assert TableRef(Levels(g) - 1, g.begin) in RegionRefs(g, tab) by {
      assert Node(Levels(g) - 1, 0) in tab;
    }
    IsolationExactly(g, m, curr, tab, mapped, c);
    forall va: nat ensures StoreAvoids(c, m, RegionRefs(g, tab), va) {
      assert StoreOutside(g, c, m, va);
    }
  }

  /** The tree is a matter of the region's pages alone. */
  lemma {:induction false} TreeInRegion(g: Region, m: Mem, m': Mem, curr: nat, tab: Tables, mapped: Mapped)
    requires Tree(g, m, curr, tab, mapped)
    requires forall t :: g.begin <= t < g.end && t in m ==> t in m' && m'[t] == m[t]
    ensures Tree(g, m', curr, tab, mapped)
  {
    hide TablesOk, MappedOk, SlotWord;
    TreeFacts(g, m, curr, tab, mapped);
    forall n, idx: nat | n in tab && idx < 512 ensures SlotOk(m', tab, mapped, n, idx) {
      assert SlotOk(m, tab, mapped, n, idx);
    }
    forall t, idx: nat | curr <= t < g.end && idx < 512 ensures ZeroSlot(m', t, idx) {
      assert ZeroSlot(m, t, idx);
    }
  }

  // ---------------------------------------------------------------- which requests keep it

  /** The entry that a request writes lets user stores into the region: it is user-writable and
      its page number, cut to 44 bits, is one of the region.  map itself compares the page number
      before it is cut. */
  predicate OpensRegion(g: Region, req: Mapping) {
    UserWritable(FullFlags(req.flags)) && g.begin <= req.ppn % PPN_LIMIT < g.end
  }

  lemma {:induction false} OpensExactly(g: Region, a: Abstract, req: Mapping)
    requires ValidRegion(g) && AvoidsRegion(g, a.mapped)
    ensures var r := AbstractMap(g, a, req);
            AvoidsRegion(g, r.state.mapped) <==> !(r.status == OK && OpensRegion(g, req))
  {
    hide UserWritable, FullFlags, Key, PathSet, Missing;
    var r := AbstractMap(g, a, req);
    if r.status == OK { assert Key(req.vpn, Levels(g)) in r.state.mapped; }
  }

  /** A call keeps user stores out of the region if and only if it does not succeed with a request
      that opens it. */
  lemma {:induction false} MapKeepsIsolationExactly(g: Region, m: Mem, curr: nat, tab: Tables, mapped: Mapped,
                                                    req: Mapping, c: Csrs)
    requires Tree(g, m, curr, tab, mapped) && c.mode == g.mode && c.root == g.begin && StoresOutside(g, c, m)
    ensures var r := Map(g, m, curr, req);
            StoresOutside(g, c, r.mem) <==> !(r.status == OK && OpensRegion(g, req))
  {
    hide Tree, Map, StoresOutside, AvoidsRegion, AbstractMap, OpensRegion;
    TreeFacts(g, m, curr, tab, mapped);
    IsolationExactly(g, m, curr, tab, mapped, c);
    var tab' := MapRefines(g, m, curr, tab, mapped, req);
    var r, a := Map(g, m, curr, req), AbstractMap(g, Abstract(tab.Keys, mapped), req);
    IsolationExactly(g, r.mem, r.curr, tab', a.state.mapped, c);
    OpensExactly(g, Abstract(tab.Keys, mapped), req);
  }

  /** Page numbers below 2^44 cannot open the region: map refuses those that would. */
  lemma {:induction false} SmallPagesKeepIsolation(g: Region, m: Mem, curr: nat, tab: Tables, mapped: Mapped,
                                                   req: Mapping)
    requires Tree(g, m, curr, tab, mapped) && req.ppn < PPN_LIMIT
    ensures !(Map(g, m, curr, req).status == OK && OpensRegion(g, req))
  {
    hide Tree, MapWalk, UserWritable, FullFlags;
    TreeFacts(g, m, curr, tab, mapped);
  }

  /** Page 2^44 opens the region 0..16 of a fresh Sv39 mapper: the call succeeds, and a user store
      to address 0 goes to the first byte of the root table. */
  lemma {:induction false} TruncationDefeatsTheCheck(m: Mem, mxr: bool, sum: bool)
    requires forall t :: 0 <= t < 16 ==> t in m && m[t] == ZeroPage()
    ensures var r := Map(Region(SV39, 0, 16), m, 1, Mapping(0x16, 0, PPN_LIMIT));
            r.status == OK && Translate(Csrs(SV39, 0, mxr, sum), r.mem, USER, WRITE, 0) == Result(OK, 0)
  {
    hide Tree, Map, Translate, Key, Up, FullFlags, PathSet, UserWritable, Pow2;
    var g, req, tab := Region(SV39, 0, 16), Mapping(0x16, 0, PPN_LIMIT), map[Node(2, 0) := 0];
    FreshTree(g, m);
    assert |tab.Keys| == 1;
    var tab' := MapRefines(g, m, 1, tab, map[], req);
    var r, a := Map(g, m, 1, req), AbstractMap(g, Abstract(tab.Keys, map[]), req);
    KeyOfKey(0, 3);
    assert a.status == OK && a.state.mapped == map[0 := Entry(PPN_LIMIT, FullFlags(0x16))];
    WritableFlags();
    MappedStore(g, r.mem, r.curr, tab', a.state.mapped, Csrs(SV39, 0, mxr, sum), 0);
  }

  lemma {:induction false} WritableFlags()
    ensures UserWritable(FullFlags(0x16))
  {
    hide FullFlags;
    FullFlagsBits(0x16);
    assert 0x16 / 2 == 11 && 11 / 2 == 5 && 5 / 2 == 2 && 2 / 2 == 1;
    assert Bit(0x16, 1) && Bit(0x16, 2) && Bit(0x16, 4);
  }
}
