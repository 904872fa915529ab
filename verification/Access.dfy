/** Loads and stores of the simulator: through the translation caches (loadInt, storeInt of
    simulator/include/sim/simulator.hpp) and, as the reference, by an uncached translation and
    a flat memory access. */
module Access {
  import opened Common
  import opened Bits
  import opened PhysMem
  import opened Mmu
  import opened MmuTheory
  import opened Tlb
  import opened Exec

  // ---------------------------------------------------------------- reference accesses

  datatype Loaded = Loaded(status: SimStatus, value: nat)

  function RefLoad(c: Csrs, m: Mem, access: AccessType, va: nat, n: Width): Loaded {
    if va % n != 0 then Loaded(SIM_UNALIGNED_LOAD, 0)
    else
      var t := Translate(c, m, USER, access, va);
      if t.status != OK then Loaded(t.status, 0)
      else
        var r := Read(m, t.pa, n);
        if r.status != OK then Loaded(r.status, 0) else Loaded(OK, r.value)
  }

  datatype Stored = Stored(status: SimStatus, mem: Mem)

  function RefStore(c: Csrs, m: Mem, va: nat, n: Width, v: nat): Stored {
    if va % n != 0 then Stored(SIM_UNALIGNED_STORE, m)
    else
      var t := Translate(c, m, USER, WRITE, va);
      if t.status != OK then Stored(t.status, m)
      else
        var w := Write(m, t.pa, n, v);
        Stored(w.status, w.mem)
  }

  /** No memory access ends a run with the exit status. */
  lemma {:induction false} AccessNotExit(c: Csrs, m: Mem, access: AccessType, va: nat, n: Width, v: nat)
    ensures RefLoad(c, m, access, va, n).status != SIM_EXIT && RefStore(c, m, va, n, v).status != SIM_EXIT
  {
    hide Translate;
    TranslateNotExit(c, m, USER, access, va);
    TranslateNotExit(c, m, USER, WRITE, va);
  }

  /** With translation off, an aligned load is the number that the bytes at va spell. */
  lemma {:induction false} BareLoad(c: Csrs, m: Mem, access: AccessType, va: nat, n: Width)
    requires c.mode == BARE && va % n == 0
    ensures var l := RefLoad(c, m, access, va, n);
            if ByteAt(m, va).Some? then l.status == OK && HoldsNumber(m, va, n, l.value)
            else l == Loaded(PHYS_MEM_ACCESS_FAULT, 0)
  {
    hide Read, HoldsNumber;
    AlignedInPage(va, n);
    ReadExactly(m, va, n);
  }

  /** With translation off, an aligned store changes the bytes at va and nothing else. */
  lemma {:induction false} BareStore(c: Csrs, m: Mem, va: nat, n: Width, v: nat)
    requires c.mode == BARE && va % n == 0
    ensures var s := RefStore(c, m, va, n, v);
            if ByteAt(m, va).Some? then s.status == OK && Stores(m, s.mem, va, n, v)
            else s == Stored(PHYS_MEM_ACCESS_FAULT, m)
  {
    hide Write, Stores;
    AlignedInPage(va, n);
    WriteExactly(m, va, n, v);
  }

  /** A load, exactly: misaligned, not translated, not there, or the number that the bytes at the
      translated address spell. */
  lemma {:induction false} LoadExactly(c: Csrs, m: Mem, access: AccessType, va: nat, n: Width)
    ensures var l, t := RefLoad(c, m, access, va, n), Translate(c, m, USER, access, va);
            if va % n != 0 then l.status == SIM_UNALIGNED_LOAD
            else if t.status != OK then l.status == t.status
            else if ByteAt(m, t.pa).None? then l.status == PHYS_MEM_ACCESS_FAULT
            else l.status == OK && HoldsNumber(m, t.pa, n, l.value)
  {
    hide Read, HoldsNumber, Translate;
    if va % n == 0 {
      AlignedInPage(va, n);
      TranslateUniform(c, m, USER, access, va, va);
      ReadExactly(m, Translate(c, m, USER, access, va).pa, n);
    }
  }

  /** A store, exactly; unsuccessful ones change nothing. */
  lemma {:induction false} StoreExactly(c: Csrs, m: Mem, va: nat, n: Width, v: nat)
    ensures var s, t := RefStore(c, m, va, n, v), Translate(c, m, USER, WRITE, va);
            && (s.status != OK ==> s.mem == m)
            && if va % n != 0 then s.status == SIM_UNALIGNED_STORE
               else if t.status != OK then s.status == t.status
               else if ByteAt(m, t.pa).None? then s.status == PHYS_MEM_ACCESS_FAULT
               else s.status == OK && Stores(m, s.mem, t.pa, n, v)
  {
    hide Write, Stores, Translate;
    if va % n == 0 {
      AlignedInPage(va, n);
      TranslateUniform(c, m, USER, WRITE, va, va);
      WriteExactly(m, Translate(c, m, USER, WRITE, va).pa, n, v);
    }
  }

  // ---------------------------------------------------------------- cached accesses

  datatype CachedLoad = CachedLoad(status: SimStatus, value: nat, tlb: Entries)

  /** A hit reads through the cached host pointer; a null or wild pointer is a crash. */
  ghost function LoadInt(c: Csrs, ph: Phys, tlb: Entries, access: AccessType, va: nat, n: Width): CachedLoad
    requires ValidPhys(ph)
  {
    if va % n != 0 then CachedLoad(SIM_UNALIGNED_LOAD, 0, tlb)
    else if Hit(tlb, va) then
      var h := tlb[Slot(va)].host;
      if h.Some? && HostIn(ph.mmaps, h.value) && va % PAGE_SIZE + n <= PAGE_SIZE
      then CachedLoad(OK, HostRead(ph, h.value, va % PAGE_SIZE, n), tlb)
      else CachedLoad(ABORT, 0, tlb)
    else
      var t := Translate(c, Flat(ph), USER, access, va);
      if t.status != OK then CachedLoad(t.status, 0, tlb)
      else
        var r := Read(Flat(ph), t.pa, n);
        if r.status != OK then CachedLoad(r.status, 0, tlb)
        else CachedLoad(OK, r.value, Update(tlb, va, ph.mapping[t.pa / PAGE_SIZE]))
  }

  datatype CachedStore = CachedStore(status: SimStatus, ph: Phys, tlb: Entries)

  ghost function StoreInt(c: Csrs, ph: Phys, tlb: Entries, va: nat, n: Width, v: nat): (s: CachedStore)
    requires ValidPhys(ph)
    ensures ValidPhys(s.ph)
  {
    if va % n != 0 then CachedStore(SIM_UNALIGNED_STORE, ph, tlb)
    else if Hit(tlb, va) then
      var h := tlb[Slot(va)].host;
      if h.Some? && HostIn(ph.mmaps, h.value) && va % PAGE_SIZE + n <= PAGE_SIZE
      then CachedStore(OK, HostWrite(ph, h.value, va % PAGE_SIZE, n, v), tlb)
      else CachedStore(ABORT, ph, tlb)
    else
      var t := Translate(c, Flat(ph), USER, WRITE, va);
      if t.status != OK then CachedStore(t.status, ph, tlb)
      else
        var w := Write(Flat(ph), t.pa, n, v);
        if w.status != OK then CachedStore(w.status, ph, tlb)
        else
          var h := ph.mapping[t.pa / PAGE_SIZE];
          CachedStore(OK, HostWrite(ph, h, t.pa % PAGE_SIZE, n, v), Update(tlb, va, h))
  }

  // ---------------------------------------------------------------- coherence

  /** Entry i names the host page that an uncached user translation of its page reaches. */
  ghost predicate EntryOk(c: Csrs, m: Mem, mapping: map<nat, HostPage>, access: AccessType, e: Entry) {
    e.va == POISON_VA ||
    var t := Translate(c, m, USER, access, e.va);
    && e.va % PAGE_SIZE == 0
    && t.status == OK && t.pa / PAGE_SIZE in mapping && e.host == Some(mapping[t.pa / PAGE_SIZE])
  }

  ghost predicate TlbOk(c: Csrs, m: Mem, mapping: map<nat, HostPage>, access: AccessType, tlb: Entries) {
    forall i :: 0 <= i < TLB_SIZE ==> EntryOk(c, m, mapping, access, tlb[i])
  }

  /** Accesses to the page whose address is the poison tag are outside the contract of a cache. */
  predicate InPoisonPage(va: nat) { PageVa(va) == POISON_VA }

  lemma {:induction false} AlignedInPage(va: nat, n: Width)
    requires va % n == 0
    ensures va % PAGE_SIZE + n <= PAGE_SIZE
  {
    if n == 2 { ModSplit(va, 2, 2048); }
    if n == 4 { ModSplit(va, 4, 1024); }
    if n == 8 { ModSplit(va, 8, 512); }
  }

  /** A hit in a coherent cache: translation succeeds and the entry names its host page. */
  lemma {:induction false} HitIsTranslation(c: Csrs, ph: Phys, tlb: Entries, access: AccessType, va: nat)
    requires ValidPhys(ph) && TlbOk(c, Flat(ph), ph.mapping, access, tlb) && !InPoisonPage(va) && Hit(tlb, va)
    ensures var t := Translate(c, Flat(ph), USER, access, va);
            && t.status == OK && t.pa % PAGE_SIZE == va % PAGE_SIZE && t.pa / PAGE_SIZE in ph.mapping
            && tlb[Slot(va)].host == Some(ph.mapping[t.pa / PAGE_SIZE])
  {
    hide Translate;
    assert EntryOk(c, Flat(ph), ph.mapping, access, tlb[Slot(va)]);
    TranslateUniform(c, Flat(ph), USER, access, va, PageVa(va));
  }

  lemma {:induction false} UpdateKeepsOk(c: Csrs, m: Mem, mapping: map<nat, HostPage>, access: AccessType,
                                         tlb: Entries, va: nat)
    requires TlbOk(c, m, mapping, access, tlb)
    requires var t := Translate(c, m, USER, access, va); t.status == OK && t.pa / PAGE_SIZE in mapping
    ensures TlbOk(c, m, mapping, access, Update(tlb, va, mapping[Translate(c, m, USER, access, va).pa / PAGE_SIZE]))
  {
    hide Translate;
    TranslateUniform(c, m, USER, access, va, PageVa(va));
    var t := Translate(c, m, USER, access, va);
    assert EntryOk(c, m, mapping, access, Entry(Some(mapping[t.pa / PAGE_SIZE]), PageVa(va)));
  }

  /** A cached load is the uncached load, and leaves the cache coherent. */
  lemma {:induction false} LoadRefines(c: Csrs, ph: Phys, tlb: Entries, access: AccessType, va: nat, n: Width)
    requires ValidPhys(ph) && TlbOk(c, Flat(ph), ph.mapping, access, tlb) && !InPoisonPage(va)
    ensures var l := LoadInt(c, ph, tlb, access, va, n);
            && Loaded(l.status, l.value) == RefLoad(c, Flat(ph), access, va, n)
            && TlbOk(c, Flat(ph), ph.mapping, access, l.tlb)
  {
    hide Translate, TlbOk, Hit, Update, FromLE;
    if va % n == 0 {
      AlignedInPage(va, n);
      var t := Translate(c, Flat(ph), USER, access, va);
      if Hit(tlb, va) {
        HitIsTranslation(c, ph, tlb, access, va);
        HostReadRefines(ph, t.pa / PAGE_SIZE, va % PAGE_SIZE, n);
        assert t.pa == (t.pa / PAGE_SIZE) * PAGE_SIZE + va % PAGE_SIZE;
      } else if t.status == OK && Read(Flat(ph), t.pa, n).status == OK {
        UpdateKeepsOk(c, Flat(ph), ph.mapping, access, tlb, va);
      }
    }
  }

  // ---------------------------------------------------------------- stores

  lemma {:induction false} FlatKeys(ph: Phys)
    requires ValidPhys(ph)
    ensures Flat(ph).Keys == ph.mapping.Keys
  {
  }

  lemma {:induction false} MappedHostIn(ph: Phys, p: nat)
    requires ValidPhys(ph) && p in ph.mapping
    ensures HostIn(ph.mmaps, ph.mapping[p])
  {
  }

  /** A cached store is the uncached store on the flat memory; host pages do not move. */
  lemma {:induction false} StoreRefines(c: Csrs, ph: Phys, tlb: Entries, va: nat, n: Width, v: nat)
    requires ValidPhys(ph) && TlbOk(c, Flat(ph), ph.mapping, WRITE, tlb) && !InPoisonPage(va)
    ensures var s := StoreInt(c, ph, tlb, va, n, v);
            && ValidPhys(s.ph) && s.ph.mapping == ph.mapping
            && Stored(s.status, Flat(s.ph)) == RefStore(c, Flat(ph), va, n, v)
            && TlbOk(c, Flat(ph), ph.mapping, WRITE, s.tlb)
  {
    hide Translate, TlbOk, Hit, Update, ToLE, HostWrite, ValidPhys, Flat, Splice;
    FlatKeys(ph);
    if va % n == 0 {
      AlignedInPage(va, n);
      var t := Translate(c, Flat(ph), USER, WRITE, va);
      if Hit(tlb, va) {
        HitIsTranslation(c, ph, tlb, WRITE, va);
        MappedHostIn(ph, t.pa / PAGE_SIZE);
        HostWriteRefines(ph, t.pa / PAGE_SIZE, va % PAGE_SIZE, n, v);
        assert t.pa == (t.pa / PAGE_SIZE) * PAGE_SIZE + va % PAGE_SIZE;
      } else if t.status == OK && Write(Flat(ph), t.pa, n, v).status == OK {
        MappedHostIn(ph, t.pa / PAGE_SIZE);
        HostWriteRefines(ph, t.pa / PAGE_SIZE, t.pa % PAGE_SIZE, n, v);
        assert t.pa == (t.pa / PAGE_SIZE) * PAGE_SIZE + t.pa % PAGE_SIZE;
        UpdateKeepsOk(c, Flat(ph), ph.mapping, WRITE, tlb, va);
      }
    }
  }

  /** With isolated tables a store changes no translation, so it keeps every cache coherent. */
  lemma {:induction false} StoreKeepsCaches(c: Csrs, m: Mem, mapping: map<nat, HostPage>, T: set<TableRef>, va: nat,
                                            n: Width, v: nat, access: AccessType, tlb: Entries)
    requires Isolated(c, m, T) && TlbOk(c, m, mapping, access, tlb)
    ensures var m' := RefStore(c, m, va, n, v).mem; Isolated(c, m', T) && TlbOk(c, m', mapping, access, tlb)
    ensures var m' := RefStore(c, m, va, n, v).mem;
            forall priv, acc, a: nat :: Translate(c, m', priv, acc, a) == Translate(c, m, priv, acc, a)
  {
    hide Translate, Isolated;
    var t := Translate(c, m, USER, WRITE, va);
    if va % n == 0 && t.status == OK && Write(m, t.pa, n, v).status == OK {
      StoreKeepsTranslation(c, m, T, va, n, v);
    }
    var m' := RefStore(c, m, va, n, v).mem;
    forall i | 0 <= i < TLB_SIZE ensures EntryOk(c, m', mapping, access, tlb[i]) {
      assert EntryOk(c, m, mapping, access, tlb[i]);
    }
  }

  /** New RAM pages keep every cache coherent. */
  lemma {:induction false} AddPageKeepsCaches(c: Csrs, m: Mem, mapping: map<nat, HostPage>, m': Mem,
                                              mapping': map<nat, HostPage>, access: AccessType, tlb: Entries)
    requires TlbOk(c, m, mapping, access, tlb)
    requires forall p <- m :: p in m' && m'[p] == m[p]
    requires forall p <- mapping :: p in mapping' && mapping'[p] == mapping[p]
    ensures TlbOk(c, m', mapping', access, tlb)
  {
    hide Translate;
    forall i | 0 <= i < TLB_SIZE ensures EntryOk(c, m', mapping', access, tlb[i]) {
      assert EntryOk(c, m, mapping, access, tlb[i]);
      if tlb[i].va != POISON_VA { TranslateMonotone(c, m, m', USER, access, tlb[i].va); }
    }
  }
}
