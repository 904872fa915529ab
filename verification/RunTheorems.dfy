/** Whole runs over page tables that the mapper built. */
module RunTheorems {
  import opened Common
  import opened Instr
  import opened PhysMem
  import opened Mmu
  import opened MmuTheory
  import opened Mapper
  import opened MapperTheory
  import opened MapperTheorems
  import opened Isolation
  import opened Tlb
  import opened Exec
  import opened Access
  import opened Decoder
  import opened Block
  import opened Machine
  import opened Track
  import opened Refinement

  // ---------------------------------------------------------------- mapping and the caches

  /** A map call, successful or not, keeps every translation cache coherent. */
  lemma {:induction false} MapKeepsCaches(g: Region, m: Mem, curr: nat, tab: Tables, mapped: Mapped, req: Mapping,
                                          c: Csrs, mapping: map<nat, HostPage>, access: AccessType, tlb: Entries)
    requires Tree(g, m, curr, tab, mapped) && c.mode == g.mode && c.root == g.begin
    requires TlbOk(c, m, mapping, access, tlb)
    ensures TlbOk(c, Map(g, m, curr, req).mem, mapping, access, tlb)
  {
    hide Tree, Map, Translate;
    var m' := Map(g, m, curr, req).mem;
    forall i | 0 <= i < TLB_SIZE ensures EntryOk(c, m', mapping, access, tlb[i]) {
      assert EntryOk(c, m, mapping, access, tlb[i]);
      if tlb[i].va != POISON_VA { MapKeepsTranslations(g, m, curr, tab, mapped, req, c, USER, access, tlb[i].va); }
    }
  }

  // ---------------------------------------------------------------- starting

  ghost predicate Poisoned(t: Entries) { forall i :: 0 <= i < TLB_SIZE ==> t[i].va == POISON_VA }

  /** Nothing is cached: so it is in a new simulator, and after the caches have been invalidated. */
  ghost predicate NothingCached(s: Fast) {
    && Poisoned(s.rtlb) && Poisoned(s.wtlb) && Poisoned(s.ftlb)
    && forall i :: 0 <= i < BB_CACHE_SIZE ==> s.bbs[i].va == INVALID_VA
  }

  /** Empty caches, whatever is left in their payload, are right for any memory, any registers and
      any choice of code bytes. */
  lemma {:induction false} NothingCachedInv(c: Csrs, s: Fast, T: set<TableRef>, code: iset<nat>)
    requires ValidFast(s) && NothingCached(s) && Isolated(c, Flat(s.ph), T)
    ensures Inv(c, s, T, code)
  {
    hide Isolated, Flat, ValidPhys, Translate, BlockFrom;
    forall i | 0 <= i < BB_CACHE_SIZE ensures BbOk(c, Flat(s.ph), s.bbs[i], code) {}
  }

  // ---------------------------------------------------------------- the tree over a run

  /** The table pages are what they were, so the tree is, and user stores still cannot reach it. */
  lemma {:induction false} StepKeepsTree(g: Region, c: Csrs, r: Ref, curr: nat, tab: Tables, mapped: Mapped)
    requires Tree(g, r.mem, curr, tab, mapped) && AvoidsRegion(g, mapped) && c.mode == g.mode && c.root == g.begin
    ensures var m' := RefStep(c, r).r.mem;
            && Tree(g, m', curr, tab, mapped)
            && forall p :: g.begin <= p < g.end && p in r.mem ==> p in m' && m'[p] == r.mem[p]
  {
    hide Tree, RefStep, AvoidsRegion, Isolated, SameTranslation;
    TreeFacts(g, r.mem, curr, tab, mapped);
    TreeIsolated(g, r.mem, curr, tab, mapped, c);
    StepKeepsTables(c, r, RegionRefs(g, tab));
    var m' := RefStep(c, r).r.mem;
    forall p | g.begin <= p < g.end && p in r.mem ensures p in m' && m'[p] == r.mem[p] {
      assert TableRef(0, p) in RegionRefs(g, tab);
    }
    TreeInRegion(g, r.mem, m', curr, tab, mapped);
  }

  /** Over a whole run no byte of the table region changes, pages not yet used for tables included,
      so the tree survives and the mapper can go on with it. */
  lemma {:induction false} RunKeepsTree(g: Region, c: Csrs, r: Ref, curr: nat, tab: Tables, mapped: Mapped, k: nat)
    requires Tree(g, r.mem, curr, tab, mapped) && AvoidsRegion(g, mapped) && c.mode == g.mode && c.root == g.begin
    ensures var m' := RefRun(c, r, k).r.mem;
            && Tree(g, m', curr, tab, mapped)
            && forall p :: g.begin <= p < g.end && p in r.mem ==> p in m' && m'[p] == r.mem[p]
    decreases k
  {
    hide Tree, RefStep, AvoidsRegion;
    if k > 0 {
      StepKeepsTree(g, c, r, curr, tab, mapped);
      if RefStep(c, r).Running? { RunKeepsTree(g, c, RefStep(c, r).r, curr, tab, mapped, k - 1); }
    }
  }

  // ---------------------------------------------------------------- no fetch ends the process

  /** The mapper sets A and D in every leaf, so the assertion on them holds in every fetch. */
  lemma {:induction false} TreeFetches(g: Region, m: Mem, curr: nat, tab: Tables, mapped: Mapped, c: Csrs, a: nat)
    requires Tree(g, m, curr, tab, mapped) && c.mode == g.mode && c.root == g.begin
    ensures FetchDecode(c, m, a) != Status(ABORT)
  {
    hide Tree, Translate, Decode, Key, CheckLeafFlags;
    TreeFacts(g, m, curr, tab, mapped);
    TranslateIsMapped(g, m, curr, tab, mapped, c, USER, FETCH, a);
    DecodeShape(RefLoad(c, m, FETCH, a, 4).value);
  }

  lemma {:induction false} TreeWindow(g: Region, m: Mem, curr: nat, tab: Tables, mapped: Mapped, c: Csrs, va: nat,
                                      i: nat)
    requires Tree(g, m, curr, tab, mapped) && c.mode == g.mode && c.root == g.begin
    ensures !WindowLost(c, m, va, i)
    decreases MAX_SIZE - i
  {
    hide Tree, FetchDecode, Ends;
    if i < MAX_SIZE - 1 {
      TreeFetches(g, m, curr, tab, mapped, c, EntryVa(va, i));
      TreeWindow(g, m, curr, tab, mapped, c, va, i + 1);
    }
  }

  lemma {:induction false} TreeSurvivesFor(g: Region, c: Csrs, t: Track, curr: nat, tab: Tables, mapped: Mapped,
                                           k: nat)
    requires Tree(g, t.r.mem, curr, tab, mapped) && AvoidsRegion(g, mapped) && c.mode == g.mode && c.root == g.begin
    ensures SurvivesFor(c, t, k)
    decreases k
  {
    hide Tree, RefStep, AvoidsRegion, WindowLost, Ends, FetchDecode, Entered;
    if k > 0 {
      TreeWindow(g, t.r.mem, curr, tab, mapped, c, t.r.pc, 0);
      StepKeepsTree(g, c, t.r, curr, tab, mapped);
      if RefStep(c, t.r).Running? { TreeSurvivesFor(g, c, Following(c, t), curr, tab, mapped, k - 1); }
    }
  }

  /** On tables of the mapper that user stores cannot reach, every run survives its fetches. */
  lemma {:induction false} TreeSurvives(g: Region, c: Csrs, t: Track, curr: nat, tab: Tables, mapped: Mapped)
    requires Tree(g, t.r.mem, curr, tab, mapped) && AvoidsRegion(g, mapped) && c.mode == g.mode && c.root == g.begin
    ensures Survives(c, t)
  {
    hide Tree, AvoidsRegion, SurvivesFor;
    forall k: nat ensures SurvivesFor(c, t, k) { TreeSurvivesFor(g, c, t, curr, tab, mapped, k); }
  }
}
