/** Translation as section 4.3.2 of the RISC-V Privileged Architecture words it, by the entries on
    the path of an address, and the proof that the walk of the simulator is exactly that but for
    the checks it leaves out. */
module MmuSpec {
  import opened Common
  import opened Bits
  import opened PhysMem
  import opened Pte
  import opened Mmu
  import opened MmuTheory

  // ---------------------------------------------------------------- entries

  /** Bits 7:0 of an entry are D, A, G, U, X, W, R and V. */
  ghost predicate Valid(pte: nat) {
    && Bit(pte, 0) && (Bit(pte, 2) ==> Bit(pte, 1))
    && forall k: nat :: IsReserved(k) ==> !Bit(pte, k)
  }

  predicate IsReserved(k: nat) { k == 8 || k == 9 || 54 <= k < 64 }

  ghost predicate Pointer(pte: nat) { Valid(pte) && !Bit(pte, 1) && !Bit(pte, 3) }

  ghost predicate LeafEntry(pte: nat) { Valid(pte) && (Bit(pte, 1) || Bit(pte, 3)) }

  /** The access has its permission, and the privilege level may use the page. */
  predicate Permitted(c: Csrs, priv: PrivLevel, access: AccessType, pte: nat) {
    && (access == READ ==> Bit(pte, 1) || (c.mxr && Bit(pte, 3)))
    && (access == WRITE ==> Bit(pte, 2))
    && (access == FETCH ==> Bit(pte, 3))
    && (priv == USER ==> Bit(pte, 4))
    && (priv != USER && Bit(pte, 4) ==> c.sum && access != FETCH)
  }

  /** Bits 53:10 of an entry. */
  function PagePart(pte: nat): nat { (pte / 1024) % 0x1000_0000_0000 }

  /** How many tables an address can go through. */
  function Depth(mode: Mode): nat {
    match mode
    case BARE => 0
    case SV39 => 3
    case SV48 => 4
    case SV57 => 5
  }

  // ---------------------------------------------------------------- paths

  function TableOf(root: nat, ptes: seq<nat>): nat {
    if ptes == [] then root else PagePart(ptes[|ptes| - 1])
  }

  /** Index of va in a table of level i: nine bits from bit 12 + 9 * i on. */
  function Index(va: nat, i: nat): nat { Shr(va, 12 + 9 * i) % 512 }

  /** Entry j is the one that va selects in the table its predecessor points to. */
  ghost predicate OnPath(m: Mem, root: nat, va: nat, depth: nat, ptes: seq<nat>, j: nat)
    requires j < |ptes| <= depth
  {
    var table := TableOf(root, ptes[..j]);
    table in m && ptes[j] == PteAt(m, table, Index(va, depth - 1 - j))
  }

  /** Pointers all the way. */
  ghost predicate Pointers(m: Mem, root: nat, va: nat, depth: nat, ptes: seq<nat>) {
    |ptes| <= depth && forall j: nat :: j < |ptes| ==> OnPath(m, root, va, depth, ptes, j) && Pointer(ptes[j])
  }

  /** Pointers to a last entry, which is at level depth - |ptes|. */
  ghost predicate PathTo(m: Mem, root: nat, va: nat, depth: nat, ptes: seq<nat>) {
    && 0 < |ptes| <= depth
    && Pointers(m, root, va, depth, ptes[..|ptes| - 1])
    && OnPath(m, root, va, depth, ptes, |ptes| - 1)
  }

  // ---------------------------------------------------------------- the walk follows the path

  lemma {:induction false} ReservedExactly(pte: nat)
    ensures Reserved(pte) <==> exists k: nat :: IsReserved(k) && Bit(pte, k)
  {
    hide ReservedMask, Pow2, Bit;
    var masked := And(pte, ReservedMask());
    forall i: nat ensures Bit(masked, i) == (Bit(pte, i) && IsReserved(i)) {
      BitOfAnd(pte, ReservedMask(), i);
      ReservedMaskExactly(i);
    }
    if i: nat :| Bit(masked, i) {
      if masked == 0 { BitOfZero(i); }
    } else {
      forall i: nat ensures Bit(masked, i) == Bit(0, i) { BitOfZero(i); }
      BitExt(masked, 0);
    }
  }

  lemma {:induction false} ReservedMaskExactly(i: nat)
    ensures Bit(ReservedMask(), i) <==> IsReserved(i)
  {
    hide Pow2;
    Pow2Values();
    Pow2Add(2, 0);
    BitOfOr(Shl(64, 0x3FF, 54), Shl(64, 3, 8), i);
    BitOfShl(64, 0x3FF, 54, i);
    BitOfShl(64, 3, 8, i);
    if i >= 54 { BitOfOnes(10, i - 54); }
    if i >= 8 { BitOfOnes(2, i - 8); }
  }

  lemma {:induction false} EntryKinds(pte: nat)
    ensures Malformed(pte) <==> !Valid(pte)
    ensures Pointer(pte) <==> !Malformed(pte) && !R(pte) && !X(pte)
    ensures LeafEntry(pte) <==> !Malformed(pte) && (R(pte) || X(pte))
  {
    hide Bit, Reserved;
    ReservedExactly(pte);
  }

  lemma {:induction false} PagePartIs(pte: nat)
    ensures PtePpn(pte) == PagePart(pte)
  {
    hide Pow2, GetBitField;
    Pow2Values();
    GetValue(64, PTE_PPN_HI, PTE_PPN_LO, pte);
  }

  lemma {:induction false} IndexIs(va: nat, i: nat)
    requires i < 5
    ensures GetVpn(va, i) == Index(va, i)
  {
    hide Pow2, GetBitField;
    Pow2Values();
    GetValue(64, 12 + i * 9 + 8, 12 + i * 9, va);
  }

  /** One table of the walk. */
  lemma {:induction false} WalkOnce(m: Mem, va: nat, i: nat, table: nat)
    requires i < 5
    ensures var w := WalkTable(m, va, i, table);
            if table !in m then w == Fault(PHYS_MEM_ACCESS_FAULT)
            else
              var pte := PteAt(m, table, Index(va, i));
              if LeafEntry(pte) then w == Leaf(pte, i)
              else if Pointer(pte) && i > 0 then w == WalkTable(m, va, i - 1, PagePart(pte))
              else w == Fault(MMU64_PAGE_FAULT)
  {
    hide PteAt, Read, Malformed, R, X, PtePpn, GetVpn, Index, LeafEntry, Pointer;
    IndexIs(va, i);
    IndexBound(va, i);
    ReadPte(m, table, Index(va, i));
    if table in m {
      var pte := PteAt(m, table, Index(va, i));
      EntryKinds(pte);
      PagePartIs(pte);
    }
  }

  lemma {:induction false} IndexBound(va: nat, i: nat)
    ensures Index(va, i) < 512
  {
  }

  /** The walk reaches whatever the path leads to. */
  lemma {:induction false} WalkFollows(m: Mem, root: nat, va: nat, depth: nat, ptes: seq<nat>)
    requires depth <= 5 && |ptes| < depth && Pointers(m, root, va, depth, ptes)
    ensures WalkTable(m, va, depth - 1, root) == WalkTable(m, va, depth - 1 - |ptes|, TableOf(root, ptes))
    decreases |ptes|
  {
    hide WalkTable, Pointer, Index, PteAt, PagePart;
    if ptes != [] {
      var n := |ptes| - 1;
      var front := ptes[..n];
      forall j: nat | j < n ensures OnPath(m, root, va, depth, front, j) && Pointer(front[j]) {
        assert OnPath(m, root, va, depth, ptes, j);
        assert ptes[..j] == front[..j];
      }
      WalkFollows(m, root, va, depth, front);
      assert OnPath(m, root, va, depth, ptes, n);
      WalkOnce(m, va, depth - 1 - n, TableOf(root, front));
      PointerNotLeaf(ptes[n]);
    }
  }

  lemma {:induction false} PointerNotLeaf(pte: nat)
    requires Pointer(pte)
    ensures !LeafEntry(pte)
  {
    hide Valid, Bit;
  }

  /** The path that the walk takes from below ptes on. */
  lemma {:induction false} PathTaken(m: Mem, root: nat, va: nat, depth: nat, ptes: seq<nat>) returns (path: seq<nat>)
    requires depth <= 5 && |ptes| < depth && Pointers(m, root, va, depth, ptes)
    ensures var w := WalkTable(m, va, depth - 1 - |ptes|, TableOf(root, ptes));
            match w
            case Leaf(pte, i) =>
              PathTo(m, root, va, depth, path) && LeafEntry(pte) && path[|path| - 1] == pte && i == depth - |path|
            case Fault(s) =>
              || (s == PHYS_MEM_ACCESS_FAULT && |path| < depth && Pointers(m, root, va, depth, path)
                  && TableOf(root, path) !in m)
              || (s == MMU64_PAGE_FAULT && PathTo(m, root, va, depth, path) && !LeafEntry(path[|path| - 1])
                  && (Pointer(path[|path| - 1]) ==> |path| == depth))
    decreases depth - |ptes|
  {
    hide WalkTable, Pointer, LeafEntry, Index, PteAt, PagePart;
    var i, table := depth - 1 - |ptes|, TableOf(root, ptes);
    WalkOnce(m, va, i, table);
    if table !in m { return ptes; }
    var pte := PteAt(m, table, IndexIn(va, i));
    path := ptes + [pte];
    assert path[..|ptes|] == ptes;
    assert OnPath(m, root, va, depth, path, |ptes|);
    if Pointer(pte) && !LeafEntry(pte) && i > 0 {
      forall j: nat | j < |path| ensures OnPath(m, root, va, depth, path, j) && Pointer(path[j]) {
        if j < |ptes| {
          assert OnPath(m, root, va, depth, ptes, j);
          assert path[..j] == ptes[..j];
        }
      }
      path := PathTaken(m, root, va, depth, path);
    }
  }

  function IndexIn(va: nat, i: nat): (k: nat)
    ensures k == Index(va, i) < 512
  {
    Index(va, i)
  }

  // ---------------------------------------------------------------- what translation comes to

  /** The low 9 * i bits of the page number of a leaf at level i are zero. */
  predicate Aligned(pte: nat, i: nat) { PagePart(pte) % Pow2(9 * i) == 0 }

  /** A leaf at level i that gives the access its page. */
  ghost predicate Grants(c: Csrs, priv: PrivLevel, access: AccessType, pte: nat, i: nat) {
    LeafEntry(pte) && Permitted(c, priv, access, pte) && Aligned(pte, i)
  }

  /** The outcomes of translation under paging, by the path of the address. */
  ghost predicate Outcome(c: Csrs, m: Mem, priv: PrivLevel, access: AccessType, va: nat, ptes: seq<nat>, r: Result) {
    var depth, n := Depth(c.mode), |ptes|;
    // a table on the path is not there
    || (n < depth && Pointers(m, c.root, va, depth, ptes) && TableOf(c.root, ptes) !in m
        && r.status == PHYS_MEM_ACCESS_FAULT)
    || (PathTo(m, c.root, va, depth, ptes) &&
        var pte, i := ptes[n - 1], depth - n;
        if Grants(c, priv, access, pte, i) then
          if Bit(pte, 6) && Bit(pte, 7)
          then r == Result(OK, (PagePart(pte) + Shr(va, 12) % Pow2(9 * i)) * 4096 + va % 4096)
          else r.status == ABORT
        else (Pointer(pte) ==> i == 0) && r.status == MMU64_PAGE_FAULT)
  }

  lemma {:induction false} AlignedIs(pte: nat, i: nat)
    requires i < 5
    ensures i > 0 && GetBitField(64, 10 + 9 * i - 1, 10, pte) != 0 <==> !Aligned(pte, i)
  {
    hide Pow2, GetBitField;
    Pow2Values();
    Pow2Zero();
    if i > 0 {
      GetValue(64, 10 + 9 * i - 1, 10, pte);
      Pow2Add(9 * i, 44 - 9 * i);
      var x, a, b := pte / 1024, Pow2(9 * i), Pow2(44 - 9 * i);
      assert a * b == 0x1000_0000_0000;
      ModOfMod(x, a, b);
    }
  }

  lemma {:induction false} ModOfMod(x: nat, a: nat, b: nat)
    requires a > 0 && b > 0
    ensures a * b > 0 && (x % (a * b)) % a == x % a
  {
    ModSplit(x, a, b);
    DivMod(x, a);
    DivMod(x / a, b);
    DivUnique(x % (a * b), a, (x / a) % b, x % a);
  }

  lemma {:induction false} PermittedIs(c: Csrs, priv: PrivLevel, access: AccessType, pte: nat)
    ensures CheckLeafFlags(priv, access, pte, c.mxr, c.sum) <==> Permitted(c, priv, access, pte)
  {
    hide Bit;
  }

  /** The decisions after the walk. */
  lemma {:induction false} FinishIs(c: Csrs, priv: PrivLevel, access: AccessType, va: nat, pte: nat, i: nat)
    requires i < 5
    ensures var r := FinishLeaf(c, priv, access, va, pte, i);
            if Permitted(c, priv, access, pte) && Aligned(pte, i) then
              if Bit(pte, 6) && Bit(pte, 7)
              then r == Result(OK, (PagePart(pte) + Shr(va, 12) % Pow2(9 * i)) * 4096 + va % 4096)
              else r.status == ABORT
            else r.status == MMU64_PAGE_FAULT
  {
    hide Bit, Pow2, GetBitField, CheckLeafFlags, CalcPhysAddr, Permitted, Aligned, PagePart, PtePpn;
    PermittedIs(c, priv, access, pte);
    AlignedIs(pte, i);
    PagePartIs(pte);
    PageNumber(va);
    if Aligned(pte, i) { LeafAddress(pte, va, i); }
  }

  lemma {:induction false} PageNumber(va: nat)
    ensures Shr(va, 12) == va / PAGE_SIZE
  {
    hide Pow2;
    Pow2Values();
  }

  lemma {:induction false} TranslateCases(c: Csrs, m: Mem, priv: PrivLevel, access: AccessType, va: nat)
    requires c.mode != BARE
    ensures var w := WalkTable(m, va, Depth(c.mode) - 1, c.root);
            && (w.Fault? ==> Translate(c, m, priv, access, va) == Result(w.status, 0))
            && (w.Leaf? ==>
                  w.level < 5 && Translate(c, m, priv, access, va) == FinishLeaf(c, priv, access, va, w.pte, w.level))
  {
    hide WalkTable, FinishLeaf, Malformed, R, X;
    WalkLevel(m, va, Depth(c.mode) - 1, c.root);
  }

  /** Translation under paging is the outcome of the path of the address, for any memory, privilege
      level and access type. */
  lemma {:induction false} TranslateExactly(c: Csrs, m: Mem, priv: PrivLevel, access: AccessType, va: nat)
      returns (ptes: seq<nat>)
    requires c.mode != BARE
    ensures Outcome(c, m, priv, access, va, ptes, Translate(c, m, priv, access, va))
  {
    hide WalkTable, Translate, Pointer, LeafEntry, Permitted, Aligned, PagePart, FinishLeaf, PathTo, Pointers, TableOf;
    hide Bit, Pow2, Shr;
    var depth := Depth(c.mode);
    NoPointers(m, c.root, va, depth);
    ptes := PathTaken(m, c.root, va, depth, []);
    var w := WalkTable(m, va, depth - 1, c.root);
    TranslateCases(c, m, priv, access, va);
    if w.Leaf? {
      FinishIs(c, priv, access, va, w.pte, w.level);
      LeafNotPointer(w.pte);
    }
  }

  lemma {:induction false} NoPointers(m: Mem, root: nat, va: nat, depth: nat)
    ensures Pointers(m, root, va, depth, []) && TableOf(root, []) == root
  {
  }

  lemma {:induction false} LeafNotPointer(pte: nat)
    requires LeafEntry(pte)
    ensures !Pointer(pte)
  {
    hide Valid, Bit;
  }

  /** A path has one outcome, so the path decides the translation. */
  lemma {:induction false} PathDecides(c: Csrs, m: Mem, priv: PrivLevel, access: AccessType, va: nat, ptes: seq<nat>,
                                       r: Result)
    requires c.mode != BARE && Outcome(c, m, priv, access, va, ptes, r)
    ensures var t := Translate(c, m, priv, access, va); t.status == r.status && (r.status == OK ==> t == r)
  {
    hide WalkTable, Translate, Pointer, LeafEntry, Permitted, Aligned, PagePart, FinishLeaf, Pointers, TableOf, OnPath;
    hide Bit, Pow2, Shr;
    var depth, n := Depth(c.mode), |ptes|;
    TranslateCases(c, m, priv, access, va);
    if r.status == PHYS_MEM_ACCESS_FAULT {
      WalkFollows(m, c.root, va, depth, ptes);
      WalkOnce(m, va, depth - 1 - n, TableOf(c.root, ptes));
    } else {
      WalkEnds(m, c.root, va, depth, ptes);
      var pte := ptes[n - 1];
      if LeafEntry(pte) {
        LeafNotPointer(pte);
        FinishIs(c, priv, access, va, pte, depth - n);
      }
    }
  }

  /** The walk along a path to its last entry. */
  lemma {:induction false} WalkEnds(m: Mem, root: nat, va: nat, depth: nat, ptes: seq<nat>)
    requires depth <= 5 && PathTo(m, root, va, depth, ptes)
    ensures var pte := ptes[|ptes| - 1];
            && (LeafEntry(pte) ==> WalkTable(m, va, depth - 1, root) == Leaf(pte, depth - |ptes|))
            && (!LeafEntry(pte) && (Pointer(pte) ==> |ptes| == depth) ==>
                  WalkTable(m, va, depth - 1, root) == Fault(MMU64_PAGE_FAULT))
  {
    hide WalkTable, Pointer, LeafEntry, PagePart, Pointers, TableOf, Index, PteAt;
    var n := |ptes|;
    WalkFollows(m, root, va, depth, ptes[..n - 1]);
    LastEntry(m, root, va, depth, ptes);
    WalkOnce(m, va, depth - n, TableOf(root, ptes[..n - 1]));
  }

  lemma {:induction false} LastEntry(m: Mem, root: nat, va: nat, depth: nat, ptes: seq<nat>)
    requires 0 < |ptes| <= depth && OnPath(m, root, va, depth, ptes, |ptes| - 1)
    ensures var table := TableOf(root, ptes[..|ptes| - 1]);
            table in m && ptes[|ptes| - 1] == PteAt(m, table, IndexIn(va, depth - |ptes|))
  {
    hide PteAt, TableOf, Index;
  }

  // ---------------------------------------------------------------- with translation off

  /** Without paging every address is its own translation. */
  lemma {:induction false} Untranslated(c: Csrs, m: Mem, priv: PrivLevel, access: AccessType, va: nat)
    requires c.mode == BARE
    ensures Translate(c, m, priv, access, va) == Result(OK, va)
  {
  }
}
