/** What translation guarantees for arbitrary memory contents. */
module MmuTheory {
  import opened Common
  import opened Bits
  import opened PhysMem
  import opened Pte
  import opened Mmu

  // ---------------------------------------------------------------- page numbers by level

  /** The virtual page number without its i lowest 9-bit fields. */
  function Up(vpn: nat, i: nat): nat {
    if i == 0 then vpn else Up(vpn, i - 1) / 512
  }

  lemma {:induction false} UpShift(vpn: nat, i: nat)
    ensures Up(vpn, i) == vpn / Pow2(9 * i)
  {
    if i != 0 {
      UpShift(vpn, i - 1);
      Pow2Add(9 * i - 9, 9);
      Pow2Values();
      DivDiv(vpn, Pow2(9 * i - 9), 512);
    }
  }

  lemma {:induction false} VpnIndex(va: nat, i: nat)
    requires i < 5
    ensures GetVpn(va, i) == Up(va / PAGE_SIZE, i) % 512
  {
    var lo := 12 + i * 9;
    GetValue(64, lo + 8, lo, va);
    Pow2Add(12, 9 * i);
    Pow2Values();
    DivDiv(va, 4096, Pow2(9 * i));
    UpShift(va / 4096, i);
  }

  // ---------------------------------------------------------------- which address bits matter

  lemma {:induction false} WalkSameVpn(m: Mem, va: nat, va': nat, i: nat, table: nat)
    requires i < 5
    requires forall j: nat :: j <= i ==> GetVpn(va, j) == GetVpn(va', j)
    ensures WalkTable(m, va, i, table) == WalkTable(m, va', i, table)
    decreases i
  {
    hide FromLE, GetVpn, Reserved, PtePpn, Pow2;
    var read := Read(m, PteAddr(table, va, i), 8);
    assert GetVpn(va, i) == GetVpn(va', i);
    if read.status == OK && !Malformed(read.value) && i > 0 && !R(read.value) && !X(read.value) {
      WalkSameVpn(m, va, va', i - 1, PtePpn(read.value));
    }
  }

  /** Low bits of an address: the field [hi:lo] does not see what lies above bit hi. */
  lemma {:induction false} GetOfLow(va: nat, n: nat, hi: nat, lo: nat)
    requires lo <= hi < n && hi < 64
    ensures GetBitField(64, hi, lo, va % Pow2(n)) == GetBitField(64, hi, lo, va)
  {
    hide Pow2, Bit, GetBitField;
    DivMod(va, Pow2(n));
    var a, b := GetBitField(64, hi, lo, va % Pow2(n)), GetBitField(64, hi, lo, va);
    forall i: nat ensures Bit(a, i) == Bit(b, i) {
      GetBit(64, hi, lo, va % Pow2(n), i);
      GetBit(64, hi, lo, va, i);
      BitOfMod(va, n, lo + i);
    }
    BitExt(a, b);
  }

  function LowBits(va: nat, levels: nat): (r: nat) {
    DivMod(va, Pow2(12 + 9 * levels));
    va % Pow2(12 + 9 * levels)
  }

  lemma {:induction false} FieldsOfLow(va: nat, levels: nat, pte: nat, i: nat)
    requires i < levels <= 5
    ensures GetVpn(LowBits(va, levels), i) == GetVpn(va, i)
    ensures CalcPhysAddr(pte, LowBits(va, levels), i) == CalcPhysAddr(pte, va, i)
  {
    hide Pow2, GetBitField;
    GetOfLow(va, 12 + 9 * levels, 12 + i * 9 + 9 - 1, 12 + i * 9);
    GetOfLow(va, 12 + 9 * levels, 12 + i * 9 - 1, 0);
  }

  /** Under paging, translation depends only on the low 12 + 9 * levels bits of the address. */
  lemma {:induction false} TranslateLowBits(c: Csrs, m: Mem, priv: PrivLevel, access: AccessType, va: nat)
    requires c.mode != BARE
    ensures Translate(c, m, priv, access, va) ==
            Translate(c, m, priv, access, LowBits(va, ModeToLevels(c.mode)))
  {
    hide GetVpn, CalcPhysAddr, Malformed, CheckLeafFlags, WalkTable, LowBits, GetBitField;
    var levels := ModeToLevels(c.mode);
    var top, low := levels - 1, LowBits(va, levels);
    forall j: nat | j <= top ensures GetVpn(va, j) == GetVpn(low, j) {
      FieldsOfLow(va, levels, 0, j);
    }
    WalkSameVpn(m, va, low, top, c.root);
    WalkLevel(m, va, top, c.root);
    var w := WalkTable(m, va, top, c.root);
    if w.Leaf? { FieldsOfLow(va, levels, w.pte, w.level); }
  }

  // ---------------------------------------------------------------- the resulting address

  /** calcPhysAddr concatenates the upper PPN fields of the entry with the low 12 + 9i bits of
      the address; the shift never overflows. */
  lemma {:induction false} CalcValue(pte: nat, va: nat, i: nat)
    requires i < 5
    ensures CalcPhysAddr(pte, va, i) ==
            UpperPpn(pte, i) * Pow2(12 + 9 * i) + va % Pow2(12 + 9 * i)
  {
    hide Pow2, GetBitField;
    var b := 12 + 9 * i;
    Pow2Zero();
    GetValue(64, b - 1, 0, va);
    GetValue(64, 53, 10 + 9 * i, pte);
    DivMod(pte, Pow2(10 + 9 * i));
    DivMod(pte / Pow2(10 + 9 * i), Pow2(44 - 9 * i));
    DivMod(va, Pow2(b));
    var ppn := (pte / Pow2(10 + 9 * i)) % Pow2(44 - 9 * i);
    assert va / Pow2(0) == va;
    ShlFits(ppn, 44 - 9 * i, b);
  }

  lemma {:induction false} ShlFits(x: nat, k: nat, n: nat)
    requires x < Pow2(k) && k + n < 64
    ensures Shl(64, x, n) == x * Pow2(n)
  {
    hide Pow2;
    Pow2Add(k, n);
    Pow2Monotone(k + n, 64);
    MulLess(x, Pow2(k), Pow2(n));
    DivUnique(x * Pow2(n), Pow2(64), 0, x * Pow2(n));
  }

  /** An aligned (super)page: the translated page is the entry's page number plus the page's
      position inside the superpage. */
  lemma {:induction false} LeafAddress(pte: nat, va: nat, i: nat)
    requires i < 5
    requires i > 0 ==> GetBitField(64, 10 + 9 * i - 1, 10, pte) == 0
    ensures PtePpn(pte) % Pow2(9 * i) == 0
    ensures CalcPhysAddr(pte, va, i) == (PtePpn(pte) + (va / PAGE_SIZE) % Pow2(9 * i)) * PAGE_SIZE + va % PAGE_SIZE
  {
    hide Pow2, PtePpn, CalcPhysAddr, GetBitField, UpperPpn;
    AlignedPpn(pte, i);
    CalcValue(pte, va, i);
    Pow2Values();
    Pow2Add(12, 9 * i);
    SuperAddress(Pow2(9 * i), UpperPpn(pte, i), va);
  }

  lemma {:induction false} SuperAddress(s: nat, k: nat, va: nat)
    requires s > 0
    ensures k * (4096 * s) + va % (4096 * s) == (s * k + (va / 4096) % s) * 4096 + va % 4096
  {
    ModSplit(va, 4096, s);
    assert k * (4096 * s) == (s * k) * 4096;
  }

  function UpperPpn(pte: nat, i: nat): nat
    requires i < 5
  {
    DivMod(pte, Pow2(10 + 9 * i));
    (pte / Pow2(10 + 9 * i)) % Pow2(44 - 9 * i)
  }

  lemma {:induction false} MultipleOf(x: nat, s: nat, u: nat)
    requires s > 0 && u > 0 && x % s == 0
    ensures s * u > 0 && x % (s * u) == s * ((x / s) % u) && (x % (s * u)) % s == 0
  {
    ModSplit(x, s, u);
    DivMod(x, s);
    DivMod(x / s, u);
    DivUnique(s * ((x / s) % u), s, (x / s) % u, 0);
  }

  lemma {:induction false} AlignedPpn(pte: nat, i: nat)
    requires i < 5
    requires i > 0 ==> GetBitField(64, 10 + 9 * i - 1, 10, pte) == 0
    ensures PtePpn(pte) == Pow2(9 * i) * UpperPpn(pte, i)
    ensures PtePpn(pte) % Pow2(9 * i) == 0
  {
    hide Pow2, GetBitField;
    var x, s, u := pte / 1024, Pow2(9 * i), Pow2(44 - 9 * i);
    Pow2Values();
    assert x % s == 0 by {
      if i > 0 { GetValue(64, 10 + 9 * i - 1, 10, pte); } else { Pow2Zero(); }
    }
    assert pte / Pow2(10 + 9 * i) == x / s by { Pow2Add(10, 9 * i); DivDiv(pte, 1024, s); }
    assert PtePpn(pte) == x % (s * u) by {
      GetValue(64, 53, 10, pte);
      Pow2Add(9 * i, 44 - 9 * i);
    }
    MultipleOf(x, s, u);
  }

  /** For any memory: a successful paged translation comes from a leaf of the walk and is the
      concatenation of its page number and the page offset, plus the superpage index. */
  lemma {:induction false} TranslateOk(c: Csrs, m: Mem, priv: PrivLevel, access: AccessType, va: nat)
    requires c.mode != BARE && Translate(c, m, priv, access, va).status == OK
    ensures var w := WalkTable(m, va, ModeToLevels(c.mode) - 1, c.root);
            var pa := Translate(c, m, priv, access, va).pa;
            && w.Leaf? && w.level < 5 && CheckLeafFlags(priv, access, w.pte, c.mxr, c.sum)
            && PtePpn(w.pte) % Pow2(9 * w.level) == 0
            && pa / PAGE_SIZE == PtePpn(w.pte) + (va / PAGE_SIZE) % Pow2(9 * w.level)
            && pa % PAGE_SIZE == va % PAGE_SIZE
  {
    var top := ModeToLevels(c.mode) - 1;
    WalkLevel(m, va, top, c.root);
    var w := WalkTable(m, va, top, c.root);
    FinishOk(c, priv, access, va, w.pte, w.level);
  }

  /** What a successful translation says about the leaf: a user reaches user pages only, a
      supervisor reaches them with SUM only and never to execute, stores need a readable and
      writable page, and MXR opens executable pages to loads. */
  lemma {:induction false} TranslatePermissions(c: Csrs, m: Mem, priv: PrivLevel, access: AccessType, va: nat)
    requires c.mode != BARE && Translate(c, m, priv, access, va).status == OK
    ensures var w := WalkTable(m, va, ModeToLevels(c.mode) - 1, c.root);
            && w.Leaf? && V(w.pte) && A(w.pte) && D(w.pte) && !Reserved(w.pte)
            && (access == WRITE ==> W(w.pte) && R(w.pte))
            && (access == FETCH ==> X(w.pte))
            && (access == READ && !R(w.pte) ==> X(w.pte) && c.mxr)
            && (priv == USER ==> U(w.pte))
            && (priv != USER && U(w.pte) ==> c.sum && access != FETCH)
  {
    hide WalkTable, CalcPhysAddr, GetBitField, V, R, W, X, U, A, D, Reserved;
    var top := ModeToLevels(c.mode) - 1;
    WalkLevel(m, va, top, c.root);
  }

  /** SUM is nothing to a user. */
  lemma {:induction false} UserIgnoresSum(c: Csrs, m: Mem, access: AccessType, va: nat, b: bool)
    ensures Translate(c.(sum := b), m, USER, access, va) == Translate(c, m, USER, access, va)
  {
    hide WalkTable, CalcPhysAddr, GetBitField, CheckLeafFlags, Malformed, A, D;
    if c.mode != BARE {
      var top := ModeToLevels(c.mode) - 1;
      WalkLevel(m, va, top, c.root);
      var w := WalkTable(m, va, top, c.root);
      if w.Leaf? { FlagsIgnored(USER, access, w.pte, c.mxr, c.sum, b); }
    }
  }

  /** MXR is nothing to stores and fetches. */
  lemma {:induction false} MxrIsForLoads(c: Csrs, m: Mem, priv: PrivLevel, access: AccessType, va: nat, b: bool)
    requires access != READ
    ensures Translate(c.(mxr := b), m, priv, access, va) == Translate(c, m, priv, access, va)
  {
    hide WalkTable, CalcPhysAddr, GetBitField, CheckLeafFlags, Malformed, A, D;
    if c.mode != BARE {
      var top := ModeToLevels(c.mode) - 1;
      WalkLevel(m, va, top, c.root);
      var w := WalkTable(m, va, top, c.root);
      if w.Leaf? { FlagsIgnored(priv, access, w.pte, c.mxr, c.sum, b); }
    }
  }

  lemma {:induction false} FlagsIgnored(priv: PrivLevel, access: AccessType, pte: nat, mxr: bool, sum: bool, b: bool)
    ensures priv == USER ==> CheckLeafFlags(priv, access, pte, mxr, b) == CheckLeafFlags(priv, access, pte, mxr, sum)
    ensures access != READ ==> CheckLeafFlags(priv, access, pte, b, sum) == CheckLeafFlags(priv, access, pte, mxr, sum)
  {
    hide U, R, W, X;
  }

  lemma {:induction false} FinishOk(c: Csrs, priv: PrivLevel, access: AccessType, va: nat, pte: nat, i: nat)
    requires i < 5 && FinishLeaf(c, priv, access, va, pte, i).status == OK
    ensures var pa := FinishLeaf(c, priv, access, va, pte, i).pa;
            && CheckLeafFlags(priv, access, pte, c.mxr, c.sum)
            && PtePpn(pte) % Pow2(9 * i) == 0
            && pa / PAGE_SIZE == PtePpn(pte) + (va / PAGE_SIZE) % Pow2(9 * i)
            && pa % PAGE_SIZE == va % PAGE_SIZE
  {
    DivMod(va / PAGE_SIZE, Pow2(9 * i));
    LeafAddress(pte, va, i);
    PageOfSum(PtePpn(pte) + (va / PAGE_SIZE) % Pow2(9 * i), va % PAGE_SIZE);
  }

  lemma {:induction false} PageOfSum(p: nat, off: nat)
    requires off < PAGE_SIZE
    ensures (p * PAGE_SIZE + off) / PAGE_SIZE == p && (p * PAGE_SIZE + off) % PAGE_SIZE == off
  {
  }

  /** Translation is uniform over each 4 KiB page, in every mode. */
  lemma {:induction false} TranslateUniform(c: Csrs, m: Mem, priv: PrivLevel, access: AccessType, va: nat, va': nat)
    requires va / PAGE_SIZE == va' / PAGE_SIZE
    ensures var r, r' := Translate(c, m, priv, access, va), Translate(c, m, priv, access, va');
            && r.status == r'.status
            && (r.status == OK ==> r.pa / PAGE_SIZE == r'.pa / PAGE_SIZE && r.pa % PAGE_SIZE == va % PAGE_SIZE)
  {
    if c.mode != BARE {
      var top := ModeToLevels(c.mode) - 1;
      forall j: nat | j <= top ensures GetVpn(va, j) == GetVpn(va', j) {
        VpnIndex(va, j);
        VpnIndex(va', j);
      }
      WalkSameVpn(m, va, va', top, c.root);
      SameStatus(c, m, priv, access, va, va');
      if Translate(c, m, priv, access, va).status == OK {
        TranslateOk(c, m, priv, access, va);
        TranslateOk(c, m, priv, access, va');
      }
    }
  }

  lemma {:induction false} SameStatus(c: Csrs, m: Mem, priv: PrivLevel, access: AccessType, va: nat, va': nat)
    requires c.mode != BARE
    requires WalkTable(m, va, ModeToLevels(c.mode) - 1, c.root) == WalkTable(m, va', ModeToLevels(c.mode) - 1, c.root)
    ensures Translate(c, m, priv, access, va).status == Translate(c, m, priv, access, va').status
  {
    hide WalkTable, CheckLeafFlags, CalcPhysAddr, GetBitField;
  }

  lemma {:induction false} WalkNotExit(m: Mem, va: nat, i: nat, table: nat)
    requires i < 5
    ensures var w := WalkTable(m, va, i, table); w.Fault? ==> w.status != SIM_EXIT
    decreases i
  {
    hide PteAddr, PtePpn;
    var r := Read(m, PteAddr(table, va, i), 8);
    if r.status == OK && i > 0 { WalkNotExit(m, va, i - 1, PtePpn(r.value)); }
  }

  lemma {:induction false} TranslateNotExit(c: Csrs, m: Mem, priv: PrivLevel, access: AccessType, va: nat)
    ensures Translate(c, m, priv, access, va).status != SIM_EXIT
  {
    hide WalkTable, CheckLeafFlags, CalcPhysAddr;
    if c.mode != BARE {
      var top := ModeToLevels(c.mode) - 1;
      WalkLevel(m, va, top, c.root);
      WalkNotExit(m, va, top, c.root);
    }
  }

  // ---------------------------------------------------------------- memory that translation sees

  /** Extra pages never disturb a successful translation. */
  lemma {:induction false} WalkMonotone(m: Mem, m': Mem, va: nat, i: nat, table: nat)
    requires i < 5
    requires forall p <- m :: p in m' && m'[p] == m[p]
    requires WalkTable(m, va, i, table).Leaf?
    ensures WalkTable(m', va, i, table) == WalkTable(m, va, i, table)
    decreases i
  {
    hide FromLE, GetVpn, Reserved, PtePpn;
    var read := Read(m, PteAddr(table, va, i), 8);
    assert Read(m', PteAddr(table, va, i), 8) == read;
    if i > 0 && !R(read.value) && !X(read.value) {
      WalkMonotone(m, m', va, i - 1, PtePpn(read.value));
    }
  }

  lemma {:induction false} TranslateMonotone(c: Csrs, m: Mem, m': Mem, priv: PrivLevel, access: AccessType, va: nat)
    requires forall p <- m :: p in m' && m'[p] == m[p]
    requires Translate(c, m, priv, access, va).status == OK
    ensures Translate(c, m', priv, access, va) == Translate(c, m, priv, access, va)
  {
    hide WalkTable, CheckLeafFlags, CalcPhysAddr, GetBitField;
    if c.mode != BARE {
      TranslateOk(c, m, priv, access, va);
      WalkMonotone(m, m', va, ModeToLevels(c.mode) - 1, c.root);
    }
  }

  /** A table page, with the level at which walks read it. */
  datatype TableRef = TableRef(level: nat, ppn: nat)

  /** The 64-bit entry idx of table page t. */
  function PteAt(m: Mem, t: nat, idx: nat): nat
    requires t in m && idx < 512
  {
    FromLE(m[t][8 * idx..8 * idx + 8])
  }

  lemma {:induction false} ReadPte(m: Mem, t: nat, idx: nat)
    requires idx < 512
    ensures Read(m, t * PAGE_SIZE + idx * 8, 8) ==
            if t in m then ReadResult(OK, PteAt(m, t, idx)) else ReadResult(PHYS_MEM_ACCESS_FAULT, 0)
  {
    hide FromLE;
    PageOfSum(t, idx * 8);
  }

  predicate IsPointer(pte: nat) { !Malformed(pte) && !R(pte) && !X(pte) }

  /** Every table a walk can reach from a member of T is a member of T. */
  ghost predicate Closed(m: Mem, T: set<TableRef>) {
    forall r, idx ::
      r in T && r.level > 0 && r.ppn in m && 0 <= idx < 512 && IsPointer(PteAt(m, r.ppn, idx)) ==>
      TableRef(r.level - 1, PtePpn(PteAt(m, r.ppn, idx))) in T
  }

  ghost predicate SameTables(m: Mem, m': Mem, T: set<TableRef>) {
    forall r <- T :: (r.ppn in m <==> r.ppn in m') && (r.ppn in m ==> m[r.ppn] == m'[r.ppn])
  }

  lemma {:induction false} WalkStable(m: Mem, m': Mem, T: set<TableRef>, va: nat, i: nat, table: nat)
    requires i < 5 && Closed(m, T) && SameTables(m, m', T) && TableRef(i, table) in T
    ensures WalkTable(m', va, i, table) == WalkTable(m, va, i, table)
    decreases i
  {
    hide Pow2, PtePpn, Reserved, FromLE, Read, GetVpn;
    VpnIndex(va, i);
    var idx := GetVpn(va, i);
    ReadPte(m, table, idx);
    ReadPte(m', table, idx);
    var r := TableRef(i, table);
    assert r in T;
    if table in m {
      var pte := PteAt(m, table, idx);
      if i > 0 && IsPointer(pte) {
        assert TableRef(r.level - 1, PtePpn(PteAt(m, r.ppn, idx))) in T;
        WalkStable(m, m', T, va, i - 1, PtePpn(pte));
      }
    }
  }

  lemma {:induction false} TranslateStable(c: Csrs, m: Mem, m': Mem, T: set<TableRef>, priv: PrivLevel,
                                           access: AccessType, va: nat)
    requires c.mode != BARE ==> Closed(m, T) && SameTables(m, m', T) && TableRef(ModeToLevels(c.mode) - 1, c.root) in T
    ensures Translate(c, m', priv, access, va) == Translate(c, m, priv, access, va)
  {
    if c.mode != BARE {
      WalkStable(m, m', T, va, ModeToLevels(c.mode) - 1, c.root);
    }
  }

  /** No user store can reach a page that translation reads. */
  ghost predicate StoreAvoids(c: Csrs, m: Mem, T: set<TableRef>, va: nat) {
    var r := Translate(c, m, USER, WRITE, va);
    r.status == OK ==> forall t <- T :: t.ppn != r.pa / PAGE_SIZE
  }

  ghost predicate Isolated(c: Csrs, m: Mem, T: set<TableRef>) {
    c.mode != BARE ==>
      && TableRef(ModeToLevels(c.mode) - 1, c.root) in T
      && Closed(m, T)
      && forall va: nat :: StoreAvoids(c, m, T, va)
  }

  /** A user store leaves translation the same function, and isolation in place. */
  lemma {:induction false} StoreKeepsTranslation(c: Csrs, m: Mem, T: set<TableRef>, va: nat, n: nat, v: nat)
    requires Isolated(c, m, T)
    requires Translate(c, m, USER, WRITE, va).status == OK
    requires Write(m, Translate(c, m, USER, WRITE, va).pa, n, v).status == OK
    ensures var m' := Write(m, Translate(c, m, USER, WRITE, va).pa, n, v).mem;
            && (forall priv, access, a: nat :: Translate(c, m', priv, access, a) == Translate(c, m, priv, access, a))
            && Isolated(c, m', T)
  {
    var pa := Translate(c, m, USER, WRITE, va).pa;
    var m' := Write(m, pa, n, v).mem;
    if c.mode != BARE {
      assert StoreAvoids(c, m, T, va);
      OtherPagesSame(m, pa, n, v, T);
    }
    forall priv, access, a: nat ensures Translate(c, m', priv, access, a) == Translate(c, m, priv, access, a) {
      TranslateStable(c, m, m', T, priv, access, a);
    }
    if c.mode != BARE {
      ClosedStable(m, m', T);
      forall a: nat ensures StoreAvoids(c, m', T, a) {
        assert StoreAvoids(c, m, T, a);
      }
    }
  }

  lemma {:induction false} OtherPagesSame(m: Mem, pa: nat, n: nat, v: nat, T: set<TableRef>)
    requires Write(m, pa, n, v).status == OK
    requires forall t <- T :: t.ppn != pa / PAGE_SIZE
    ensures SameTables(m, Write(m, pa, n, v).mem, T)
  {
  }

  lemma {:induction false} ClosedStable(m: Mem, m': Mem, T: set<TableRef>)
    requires Closed(m, T) && SameTables(m, m', T)
    ensures Closed(m', T)
  {
    forall r, idx | r in T && r.level > 0 && r.ppn in m' && 0 <= idx < 512 && IsPointer(PteAt(m', r.ppn, idx))
      ensures TableRef(r.level - 1, PtePpn(PteAt(m', r.ppn, idx))) in T
    {
      assert PteAt(m', r.ppn, idx) == PteAt(m, r.ppn, idx);
    }
  }
}
