/** The tables the mapper builds are a radix tree, and translation through them is a finite map
    from page keys to page numbers and flags. */
module MapperTheory {
  import opened Common
  import opened Bits
  import opened PhysMem
  import opened Pte
  import opened Mmu
  import opened MmuTheory
  import opened Mapper

  // ---------------------------------------------------------------- keys

  function Levels(g: Region): nat
    requires g.mode != BARE
  {
    ModeToLevels(g.mode)
  }

  /** Pages are told apart by the low 9 * levels bits of their number only. */
  function Key(vpn: nat, levels: nat): (k: nat)
    ensures k < Pow2(9 * levels)
  {
    DivMod(vpn, Pow2(9 * levels));
    vpn % Pow2(9 * levels)
  }

  lemma {:induction false} UpOfKey(vpn: nat, levels: nat, i: nat)
    requires i < levels
    ensures Up(Key(vpn, levels), i) % 512 == Up(vpn, i) % 512
  {
    hide Pow2, Up;
    var j: nat := levels - i - 1;
    Pow2Values();
    Pow2Levels(i, j);
    UpShift(vpn, i);
    UpShift(Key(vpn, levels), i);
    DivMod(vpn, Pow2(9 * i));
    SliceOfMod(vpn, Pow2(9 * i), 512 * Pow2(9 * j));
    KeyOfMod(vpn / Pow2(9 * i), 512, Pow2(9 * j));
  }

  lemma {:induction false} Pow2Levels(i: nat, j: nat)
    ensures Pow2(9 * (i + j + 1)) == Pow2(9 * i) * (512 * Pow2(9 * j))
  {
    hide Pow2;
    Pow2Values();
    Pow2Add(9, 9 * j);
    Pow2Add(9 * i, 9 + 9 * j);
    assert 9 * (i + j + 1) == 9 * i + (9 + 9 * j);
  }

  lemma {:induction false} SliceOfMod(v: nat, a: nat, b: nat)
    requires a > 0 && b > 0
    ensures a * b > 0 && (v % (a * b)) / a == (v / a) % b
  {
    ModSplit(v, a, b);
    DivMod(v, a);
    DivMod(v / a, b);
    DivUnique(v % (a * b), a, (v / a) % b, v % a);
  }

  lemma {:induction false} UpOfKeyTop(vpn: nat, levels: nat)
    ensures Up(Key(vpn, levels), levels) == 0
  {
    UpShift(Key(vpn, levels), levels);
    DivUnique(Key(vpn, levels), Pow2(9 * levels), 0, Key(vpn, levels));
  }

  /** The walk for va at level i reads the slot its key selects. */
  lemma {:induction false} WalkSlot(va: nat, levels: nat, i: nat)
    requires i < levels <= 5
    ensures GetVpn(va, i) == Up(Key(va / PAGE_SIZE, levels), i) % 512
  {
    VpnIndex(va, i);
    UpOfKey(va / PAGE_SIZE, levels, i);
  }

  /** The same for a mapping request, whose address is the page number shifted with wrap-around. */
  lemma {:induction false} MapSlot(req: Mapping, levels: nat, i: nat)
    requires i < levels <= 5
    ensures GetVpn(MapVa(req), i) == Up(Key(req.vpn, levels), i) % 512
  {
    WalkSlot(MapVa(req), levels, i);
    WrappedPage(req.vpn);
    var a, b := Pow2(9 * levels), Pow2(52 - 9 * levels);
    assert a * b == 0x10_0000_0000_0000 by {
      Pow2Values();
      Pow2Add(8, 44);
      Pow2Add(9 * levels, 52 - 9 * levels);
    }
    KeyOfMod(req.vpn, a, b);
  }

  lemma {:induction false} WrappedPage(vpn: nat)
    ensures ((vpn * PAGE_SIZE) % TWO64) / PAGE_SIZE == vpn % 0x10_0000_0000_0000
  {
  }

  lemma {:induction false} KeyOfMod(v: nat, a: nat, b: nat)
    requires a > 0 && b > 0
    ensures a * b > 0 && (v % (a * b)) % a == v % a
  {
    ModSplit(v, a, b);
    DivMod(v, a);
    DivMod(v / a, b);
    DivUnique(v % (a * b), a, (v / a) % b, v % a);
  }

  // ---------------------------------------------------------------- the tree invariant

  /** A table: its level, and the key bits above the ones it indexes. */
  datatype Node = Node(level: nat, prefix: nat)

  /** Which page holds which table. */
  type Tables = map<Node, nat>

  datatype Entry = Entry(ppn: nat, flags: Flags)

  /** What has been mapped. */
  type Mapped = map<nat, Entry>

  function PathNode(key: nat, i: nat): Node { Node(i, Up(key, i + 1)) }

  function Child(n: Node, idx: nat): Node
    requires n.level > 0
  {
    Node(n.level - 1, n.prefix * 512 + idx)
  }

  /** The word that slot idx of table n must hold. */
  function SlotWord(tab: Tables, mapped: Mapped, n: Node, idx: nat): nat {
    if n.level > 0 then
      if Child(n, idx) in tab then CreatePte(tab[Child(n, idx)], V_MASK) else 0
    else
      var key := n.prefix * 512 + idx;
      if key in mapped then CreatePte(mapped[key].ppn, mapped[key].flags) else 0
  }

  ghost predicate SlotOk(m: Mem, tab: Tables, mapped: Mapped, n: Node, idx: nat)
    requires n in tab
  {
    tab[n] in m && idx < 512 && PteAt(m, tab[n], idx) == SlotWord(tab, mapped, n, idx)
  }

  ghost predicate ZeroSlot(m: Mem, t: nat, idx: nat) {
    t in m && idx < 512 && PteAt(m, t, idx) == 0
  }

  /** Tables are distinct pages of [begin, curr), exactly that many, closed under parents. */
  ghost predicate TablesOk(g: Region, curr: nat, tab: Tables)
    requires g.mode != BARE
  {
    && g.begin < curr <= g.end
    && |tab| == curr - g.begin
    && Node(Levels(g) - 1, 0) in tab && tab[Node(Levels(g) - 1, 0)] == g.begin
    && (forall n <- tab :: n.level < Levels(g) && g.begin <= tab[n] < curr)
    && (forall n <- tab :: n.level == Levels(g) - 1 ==> n.prefix == 0)
    && (forall n, n' :: n in tab && n' in tab && tab[n] == tab[n'] ==> n == n')
    && (forall n {:trigger HasParent(g, tab, n)} :: n in tab ==> HasParent(g, tab, n))
  }

  ghost predicate HasParent(g: Region, tab: Tables, n: Node)
    requires g.mode != BARE
  {
    n.level + 1 < Levels(g) ==> Node(n.level + 1, n.prefix / 512) in tab
  }

  ghost predicate MappedOk(tab: Tables, mapped: Mapped) {
    forall k <- mapped :: PathNode(k, 0) in tab && DefaultsSet(mapped[k].flags)
  }

  ghost predicate Tree(g: Region, m: Mem, curr: nat, tab: Tables, mapped: Mapped) {
    && ValidRegion(g)
    && TablesOk(g, curr, tab)
    && MappedOk(tab, mapped)
    && (forall n, idx: nat :: n in tab && idx < 512 ==> SlotOk(m, tab, mapped, n, idx))
    && (forall t, idx: nat :: curr <= t < g.end && idx < 512 ==> ZeroSlot(m, t, idx))
  }

  /** A freshly reserved region is the tree with only its root table. */
  lemma {:induction false} FreshTree(g: Region, m: Mem)
    requires ValidRegion(g)
    requires forall t :: g.begin <= t < g.end ==> t in m && m[t] == ZeroPage()
    ensures Tree(g, m, g.begin + 1, map[Node(Levels(g) - 1, 0) := g.begin], map[])
  {
    var root := Node(Levels(g) - 1, 0);
    var tab := map[root := g.begin];
    forall t, idx: nat | g.begin <= t < g.end && idx < 512 ensures ZeroSlot(m, t, idx) {
      ZeroWord(m[t][8 * idx..8 * idx + 8]);
    }
    forall n, idx: nat | n in tab && idx < 512 ensures SlotOk(m, tab, map[], n, idx) {
      assert ZeroSlot(m, g.begin, idx);
    }
  }

  lemma {:induction false} ZeroWord(b: seq<Byte>)
    requires forall i :: 0 <= i < |b| ==> b[i] == 0
    ensures FromLE(b) == 0
  {
    if b != [] { ZeroWord(b[1..]); }
  }

  // ---------------------------------------------------------------- writing one slot

  ghost predicate SlotIs(m: Mem, m': Mem, t: nat, idx: nat, v: nat, u: nat, k: nat) {
    u in m && u in m' && k < 512 && PteAt(m', u, k) == if u == t && k == idx then v else PteAt(m, u, k)
  }

  /** m' is m with v in slot idx of page t, and nothing else changed. */
  ghost predicate SlotWritten(m: Mem, m': Mem, t: nat, idx: nat, v: nat) {
    && m'.Keys == m.Keys
    && (forall u, k: nat :: u in m && k < 512 ==> SlotIs(m, m', t, idx, v, u, k))
    && (forall u :: u in m && u != t ==> m'[u] == m[u])
  }

  lemma {:induction false} WriteSlot(m: Mem, t: nat, idx: nat, v: nat)
    requires t in m && idx < 512 && v < Pow2(64)
    ensures var w := Write(m, t * PAGE_SIZE + idx * 8, 8, v);
            w.status == OK && SlotWritten(m, w.mem, t, idx, v)
  {
    hide FromLE, ToLE, Splice, Pow2;
    var pa := t * PAGE_SIZE + idx * 8;
    PageOfSum(t, idx * 8);
    var w := Write(m, pa, 8, v);
    forall u, k: nat | u in m && k < 512 ensures SlotIs(m, w.mem, t, idx, v, u, k) {
      if u == t && k != idx { OtherSlot(m[t], idx, ToLE(v, 8), k); }
      if u == t && k == idx { WrittenSlot(m[t], idx, v); }
    }
  }

  lemma {:induction false} WrittenSlot(page: Page, idx: nat, v: nat)
    requires idx < 512 && v < Pow2(64)
    ensures FromLE(Splice(page, 8 * idx, ToLE(v, 8))[8 * idx..8 * idx + 8]) == v
  {
    hide FromLE, ToLE, Splice, Pow2;
    SpliceSlice(page, 8 * idx, ToLE(v, 8), 0, 8);
    LERoundTrip(v, 8);
    DivUnique(v, Pow2(64), 0, v);
    assert ToLE(v, 8)[0..8] == ToLE(v, 8);
  }

  lemma {:induction false} OtherSlot(page: Page, idx: nat, b: seq<Byte>, k: nat)
    requires idx < 512 && k < 512 && k != idx && |b| == 8
    ensures Splice(page, 8 * idx, b)[8 * k..8 * k + 8] == page[8 * k..8 * k + 8]
  {
    SameSlice(page, Splice(page, 8 * idx, b), 8 * k, 8);
  }

  lemma {:induction false} ChildSlot(n: Node, idx: nat, key: nat, i: nat)
    requires n.level > 0 && idx < 512 && i > 0
    ensures Child(n, idx) == PathNode(key, i - 1) <==> n == PathNode(key, i) && idx == Up(key, i) % 512
  {
  }

  // ---------------------------------------------------------------- map keeps the tree

  lemma {:induction false} AddTableNode(g: Region, curr: nat, tab: Tables, key: nat, i: nat)
    requires g.mode != BARE && TablesOk(g, curr, tab) && curr < g.end
    requires 0 < i < Levels(g) && PathNode(key, i) in tab && PathNode(key, i - 1) !in tab
    ensures TablesOk(g, curr + 1, tab[PathNode(key, i - 1) := curr])
  {
    hide Up, HasParent, Pow2;
    var tab' := tab[PathNode(key, i - 1) := curr];
    assert tab'.Keys == tab.Keys + {PathNode(key, i - 1)};
    forall n | n in tab' ensures HasParent(g, tab', n) {
      AddedHasParent(g, curr, tab, key, i, n);
    }
  }

  lemma {:induction false} AddedHasParent(g: Region, curr: nat, tab: Tables, key: nat, i: nat, n: Node)
    requires g.mode != BARE && TablesOk(g, curr, tab)
    requires 0 < i < Levels(g) && PathNode(key, i) in tab && (n in tab || n == PathNode(key, i - 1))
    ensures HasParent(g, tab[PathNode(key, i - 1) := curr], n)
  {
    hide Up, Pow2;
    UpParent(key, i);
    assert n in tab ==> HasParent(g, tab, n);
  }

  lemma {:induction false} UpParent(key: nat, i: nat)
    ensures Up(key, i + 1) == Up(key, i) / 512
  {
  }

  lemma {:induction false} AddTableSlot(g: Region, m: Mem, m': Mem, curr: nat, tab: Tables, mapped: Mapped, key: nat,
                                        i: nat, n: Node, idx: nat)
    requires Tree(g, m, curr, tab, mapped) && curr < g.end
    requires 0 < i < Levels(g) && PathNode(key, i) in tab && PathNode(key, i - 1) !in tab
    requires SlotWritten(m, m', tab[PathNode(key, i)], Up(key, i) % 512, CreatePte(curr, V_MASK))
    requires n in tab || n == PathNode(key, i - 1)
    requires idx < 512
    ensures SlotOk(m', tab[PathNode(key, i - 1) := curr], mapped, n, idx)
  {
    hide PteAt, CreatePte, Pow2;
    var p, c, slot, v := PathNode(key, i), PathNode(key, i - 1), Up(key, i) % 512, CreatePte(curr, V_MASK);
    if n == c {
      assert ZeroSlot(m, curr, idx);
      assert SlotIs(m, m', tab[p], slot, v, curr, idx);
      NoChildYet(g, curr, tab, mapped, c, idx);
    } else {
      assert SlotOk(m, tab, mapped, n, idx);
      assert SlotIs(m, m', tab[p], slot, v, tab[n], idx);
      if n.level > 0 { ChildSlot(n, idx, key, i); }
      assert tab[n] == tab[p] ==> n == p;
    }
  }

  /** A new, empty table below PathNode(key, i). */
  lemma {:induction false} AddTable(g: Region, m: Mem, m': Mem, curr: nat, tab: Tables, mapped: Mapped, key: nat,
                                    i: nat)
    requires Tree(g, m, curr, tab, mapped) && curr < g.end
    requires 0 < i < Levels(g) && PathNode(key, i) in tab && PathNode(key, i - 1) !in tab
    requires SlotWritten(m, m', tab[PathNode(key, i)], Up(key, i) % 512, CreatePte(curr, V_MASK))
    ensures Tree(g, m', curr + 1, tab[PathNode(key, i - 1) := curr], mapped)
  {
    var p, tab' := PathNode(key, i), tab[PathNode(key, i - 1) := curr];
    AddTableNode(g, curr, tab, key, i);
    forall n, idx: nat | n in tab' && idx < 512 ensures SlotOk(m', tab', mapped, n, idx) {
      AddTableSlot(g, m, m', curr, tab, mapped, key, i, n, idx);
    }
    forall t, idx: nat | curr + 1 <= t < g.end && idx < 512 ensures ZeroSlot(m', t, idx) {
      assert ZeroSlot(m, t, idx);
      assert SlotIs(m, m', tab[p], Up(key, i) % 512, CreatePte(curr, V_MASK), t, idx);
    }
  }

  lemma {:induction false} UpOne(key: nat)
    ensures Up(key, 1) == key / 512
  {
    assert Up(key, 0) == key;
  }

  /** A table that does not exist has neither subtables nor mapped pages. */
  lemma {:induction false} NoChildYet(g: Region, curr: nat, tab: Tables, mapped: Mapped, c: Node, idx: nat)
    requires g.mode != BARE && TablesOk(g, curr, tab) && MappedOk(tab, mapped)
    requires c !in tab && idx < 512 && c.level + 1 < Levels(g)
    ensures SlotWord(tab[c := curr], mapped, c, idx) == 0
  {
    hide CreatePte, Pow2;
    if c.level > 0 {
      var d := Child(c, idx);
      assert d.prefix / 512 == c.prefix;
      assert d in tab ==> HasParent(g, tab, d);
      assert d != c;
    } else {
      UpOne(c.prefix * 512 + idx);
    }
  }

  lemma {:induction false} AddLeafSlot(g: Region, m: Mem, m': Mem, curr: nat, tab: Tables, mapped: Mapped, key: nat,
                                       e: Entry, n: Node, idx: nat)
    requires Tree(g, m, curr, tab, mapped)
    requires PathNode(key, 0) in tab && key !in mapped
    requires SlotWritten(m, m', tab[PathNode(key, 0)], key % 512, CreatePte(e.ppn, e.flags))
    requires n in tab && idx < 512
    ensures SlotOk(m', tab, mapped[key := e], n, idx)
  {
    hide PteAt, CreatePte, Pow2;
    var p := PathNode(key, 0);
    UpOne(key);
    assert SlotOk(m, tab, mapped, n, idx);
    assert SlotIs(m, m', tab[p], key % 512, CreatePte(e.ppn, e.flags), tab[n], idx);
    assert tab[n] == tab[p] ==> n == p;
    if n.level == 0 { assert n.prefix * 512 + idx == key <==> n == p && idx == key % 512; }
  }

  /** The leaf entry of a page not mapped before. */
  lemma {:induction false} AddLeaf(g: Region, m: Mem, m': Mem, curr: nat, tab: Tables, mapped: Mapped, key: nat,
                                   e: Entry)
    requires Tree(g, m, curr, tab, mapped)
    requires PathNode(key, 0) in tab && key !in mapped && DefaultsSet(e.flags)
    requires SlotWritten(m, m', tab[PathNode(key, 0)], key % 512, CreatePte(e.ppn, e.flags))
    ensures Tree(g, m', curr, tab, mapped[key := e])
  {
    var p, mapped' := PathNode(key, 0), mapped[key := e];
    forall n, idx: nat | n in tab && idx < 512 ensures SlotOk(m', tab, mapped', n, idx) {
      AddLeafSlot(g, m, m', curr, tab, mapped, key, e, n, idx);
    }
    forall t, idx: nat | curr <= t < g.end && idx < 512 ensures ZeroSlot(m', t, idx) {
      assert ZeroSlot(m, t, idx);
      assert SlotIs(m, m', tab[p], key % 512, CreatePte(e.ppn, e.flags), t, idx);
    }
  }
}
