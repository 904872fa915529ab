/** Guest physical memory: the flat partial byte map it stands for, and the host pages that
    hold it (memory/include/sim/memory/phys_memory.hpp). */
module PhysMem {
  import opened Common
  import opened Bits

  /** One host page. */
  type Page = s: seq<Byte> | |s| == PAGE_SIZE witness seq(4096, _ => 0)

  function ZeroPage(): Page { seq(PAGE_SIZE, _ => 0) }

  /** Flat guest memory: page number to contents. */
  type Mem = map<nat, Page>

  // ---------------------------------------------------------------- little-endian words

  function FromLE(b: seq<Byte>): nat {
    if b == [] then 0 else b[0] + 256 * FromLE(b[1..])
  }

  function ToLE(v: nat, n: nat): (b: seq<Byte>)
    ensures |b| == n
  {
    if n == 0 then [] else [v % 256] + ToLE(v / 256, n - 1)
  }

  lemma {:induction false} Pow2Step(n: nat)
    ensures Pow2(n + 8) == 256 * Pow2(n)
  {
    Pow2Add(n, 8);
  }

  /** Writing a word and reading it back truncates to the width. */
  lemma {:induction false} LERoundTrip(v: nat, n: nat)
    ensures FromLE(ToLE(v, n)) == v % Pow2(8 * n)
  {
    if n != 0 {
      LERoundTrip(v / 256, n - 1);
      Pow2Step(8 * n - 8);
      assert ToLE(v, n)[1..] == ToLE(v / 256, n - 1);
      ModSplit(v, 256, Pow2(8 * n - 8));
    }
  }

  lemma {:induction false} LEInverse(b: seq<Byte>)
    ensures ToLE(FromLE(b), |b|) == b
  {
    if b != [] {
      LEInverse(b[1..]);
      assert FromLE(b) / 256 == FromLE(b[1..]);
      assert b == [b[0]] + b[1..];
    }
  }

  // ---------------------------------------------------------------- flat reads and writes

  datatype ReadResult = ReadResult(status: SimStatus, value: nat)

  datatype WriteResult = WriteResult(status: SimStatus, mem: Mem)

  function Splice(page: Page, off: nat, b: seq<Byte>): (r: Page)
    requires off + |b| <= PAGE_SIZE
  {
    page[..off] + b + page[off + |b|..]
  }

  /** Read n bytes at pa; an access never crosses a page. */
  function Read(m: Mem, pa: nat, n: nat): ReadResult {
    var off, p := pa % PAGE_SIZE, pa / PAGE_SIZE;
    if off + n > PAGE_SIZE then ReadResult(PHYS_MEM_PAGE_ALIGN_ERROR, 0)
    else if p in m then ReadResult(OK, FromLE(m[p][off..off + n]))
    else ReadResult(PHYS_MEM_ACCESS_FAULT, 0)
  }

  function Write(m: Mem, pa: nat, n: nat, v: nat): WriteResult {
    var off, p := pa % PAGE_SIZE, pa / PAGE_SIZE;
    if off + n > PAGE_SIZE then WriteResult(PHYS_MEM_PAGE_ALIGN_ERROR, m)
    else if p in m then WriteResult(OK, m[p := Splice(m[p], off, ToLE(v, n))])
    else WriteResult(PHYS_MEM_ACCESS_FAULT, m)
  }

  /** The byte at a guest address, where one is present. */
  function ByteAt(m: Mem, pa: nat): Option<Byte> {
    if pa / PAGE_SIZE in m then Some(m[pa / PAGE_SIZE][pa % PAGE_SIZE]) else None
  }

  lemma {:induction false} SameSlice(a: Page, b: Page, off: nat, n: nat)
    requires off + n <= PAGE_SIZE
    requires forall i :: off <= i < off + n ==> a[i] == b[i]
    ensures a[off..off + n] == b[off..off + n]
  {
  }

  /** A successful write changes exactly the bytes pa..pa+n, to the little-endian bytes of v. */
  lemma {:induction false} WriteBytes(m: Mem, pa: nat, n: nat, v: nat, q: nat)
    requires Write(m, pa, n, v).status == OK
    ensures var m' := Write(m, pa, n, v).mem;
            && m'.Keys == m.Keys
            && ByteAt(m', q) == if pa <= q < pa + n then Some(ToLE(v, n)[q - pa]) else ByteAt(m, q)
  {
    var off: nat, p: nat := pa % PAGE_SIZE, pa / PAGE_SIZE;
    var m' := Write(m, pa, n, v).mem;
    if q / PAGE_SIZE == p {
      var k := q % PAGE_SIZE;
      assert m'[p][k] == if off <= k < off + n then ToLE(v, n)[k - off] else m[p][k];
    } else {
      assert !(pa <= q < pa + n);
    }
  }

  /** A read of any width is decided by the bytes it covers. */
  lemma {:induction false} ReadDepends(m: Mem, m': Mem, pa: nat, n: nat)
    requires m'.Keys == m.Keys
    requires forall q :: pa <= q < pa + n ==> ByteAt(m', q) == ByteAt(m, q)
    ensures Read(m', pa, n) == Read(m, pa, n)
  {
    var off: nat, p: nat := pa % PAGE_SIZE, pa / PAGE_SIZE;
    if off + n <= PAGE_SIZE && p in m {
      forall i | off <= i < off + n ensures m[p][i] == m'[p][i] {
        var q := p * PAGE_SIZE + i;
        assert q / PAGE_SIZE == p && q % PAGE_SIZE == i;
        assert ByteAt(m', q) == ByteAt(m, q);
      }
      SameSlice(m[p], m'[p], off, n);
    }
  }

  lemma {:induction false} SpliceSlice(page: Page, off: nat, b: seq<Byte>, d: nat, k: nat)
    requires off + |b| <= PAGE_SIZE && d + k <= |b|
    ensures Splice(page, off, b)[off + d..off + d + k] == b[d..d + k]
  {
  }

  lemma {:induction false} SamePage(pa: nat, d: nat)
    requires pa % PAGE_SIZE + d < PAGE_SIZE
    ensures (pa + d) / PAGE_SIZE == pa / PAGE_SIZE && (pa + d) % PAGE_SIZE == pa % PAGE_SIZE + d
  {
  }

  /** A narrower read inside a written word returns the matching slice of the value. */
  lemma {:induction false} NarrowReadBack(m: Mem, pa: nat, n: nat, v: nat, d: nat, k: nat)
    requires Write(m, pa, n, v).status == OK && d + k <= n && k > 0
    ensures Read(Write(m, pa, n, v).mem, pa + d, k) == ReadResult(OK, Shr(v, 8 * d) % Pow2(8 * k))
  {
    hide FromLE, ToLE, Splice, Shr, Pow2;
    var off: nat, p: nat := pa % PAGE_SIZE, pa / PAGE_SIZE;
    var m' := Write(m, pa, n, v).mem;
    assert p in m' && off + n <= PAGE_SIZE;
    SamePage(pa, d);
    SpliceSlice(m[p], off, ToLE(v, n), d, k);
    NarrowLE(v, n, d, k);
  }

  lemma {:induction false} NarrowLE(v: nat, n: nat, d: nat, k: nat)
    requires d + k <= n
    ensures FromLE(ToLE(v, n)[d..d + k]) == Shr(v, 8 * d) % Pow2(8 * k)
  {
    hide FromLE, ToLE, Shr, Pow2;
    ToLESlice(v, n, d, k);
    LERoundTrip(Shr(v, 8 * d), k);
  }

  lemma {:induction false} ShrStep(v: nat, d: nat)
    requires d > 0
    ensures Shr(v / 256, 8 * (d - 1)) == Shr(v, 8 * d)
  {
    hide Pow2;
    Pow2Step(8 * d - 8);
    DivDiv(v, 256, Pow2(8 * d - 8));
  }

  lemma {:induction false} ShrZero(v: nat)
    ensures Shr(v, 0) == v
  {
  }

  lemma {:induction false} ToLESlice(v: nat, n: nat, d: nat, k: nat)
    requires d + k <= n
    ensures ToLE(v, n)[d..d + k] == ToLE(Shr(v, 8 * d), k)
    decreases n
  {
    hide Shr, Pow2;
    if d == 0 {
      ShrZero(v);
      if k != 0 {
        ToLESlice(v / 256, n - 1, 0, k - 1);
        ShrZero(v / 256);
        SliceFirst(v % 256, ToLE(v / 256, n - 1), k);
      }
    } else {
      ToLESlice(v / 256, n - 1, d - 1, k);
      ShrStep(v, d);
      SliceRest(v % 256, ToLE(v / 256, n - 1), d, k);
    }
  }

  lemma {:induction false} SliceFirst(x: Byte, b: seq<Byte>, k: nat)
    requires 0 < k <= |b| + 1
    ensures ([x] + b)[0..k] == [x] + b[0..k - 1]
  {
  }

  lemma {:induction false} SliceRest(x: Byte, b: seq<Byte>, d: nat, k: nat)
    requires 0 < d && d + k <= |b| + 1
    ensures ([x] + b)[d..d + k] == b[d - 1..d - 1 + k]
  {
  }

  // ---------------------------------------------------------------- reads and writes byte by byte

  /** Digit d of a little-endian number is byte d. */
  lemma {:induction false} FromLEDigit(b: seq<Byte>, d: nat)
    requires d < |b|
    ensures Shr(FromLE(b), 8 * d) % 256 == b[d]
  {
    hide Shr, Pow2;
    if d == 0 {
      ShrZero(FromLE(b));
    } else {
      FromLEDigit(b[1..], d - 1);
      assert FromLE(b) / 256 == FromLE(b[1..]);
      ShrStep(FromLE(b), d);
    }
  }

  lemma {:induction false} FromLEBound(b: seq<Byte>)
    ensures FromLE(b) < Pow2(8 * |b|)
  {
    hide Pow2;
    Pow2Zero();
    if b != [] {
      FromLEBound(b[1..]);
      Pow2Step(8 * |b| - 8);
    }
  }

  lemma {:induction false} ToLEDigit(v: nat, n: nat, d: nat)
    requires d < n
    ensures ToLE(v, n)[d] == Shr(v, 8 * d) % 256
  {
    hide Shr, Pow2;
    if d == 0 {
      ShrZero(v);
    } else {
      ToLEDigit(v / 256, n - 1, d - 1);
      ShrStep(v, d);
    }
  }

  /** The bytes of v, the lowest first, are at pa. */
  ghost predicate HoldsNumber(m: Mem, pa: nat, n: nat, v: nat) {
    v < Pow2(8 * n) && forall d: nat :: d < n ==> ByteAt(m, pa + d) == Some(Shr(v, 8 * d) % 256)
  }

  /** A read that crosses a page is an alignment error, one of an absent page a fault; otherwise it
      is the number that the bytes spell. */
  lemma {:induction false} ReadExactly(m: Mem, pa: nat, n: nat)
    requires n > 0
    ensures var r := Read(m, pa, n);
            && (pa % PAGE_SIZE + n > PAGE_SIZE ==> r.status == PHYS_MEM_PAGE_ALIGN_ERROR)
            && (pa % PAGE_SIZE + n <= PAGE_SIZE && ByteAt(m, pa).None? ==> r.status == PHYS_MEM_ACCESS_FAULT)
            && (pa % PAGE_SIZE + n <= PAGE_SIZE && ByteAt(m, pa).Some? ==>
                  r.status == OK && HoldsNumber(m, pa, n, r.value))
  {
    hide FromLE, Shr, Pow2;
    var off: nat, p: nat := pa % PAGE_SIZE, pa / PAGE_SIZE;
    if off + n <= PAGE_SIZE && p in m {
      var b := m[p][off..off + n];
      FromLEBound(b);
      forall d: nat | d < n ensures ByteAt(m, pa + d) == Some(Shr(FromLE(b), 8 * d) % 256) {
        SamePage(pa, d);
        FromLEDigit(b, d);
      }
    }
  }

  /** The same for a write, which changes the bytes it covers and nothing else; when it fails it
      changes nothing. */
  lemma {:induction false} WriteExactly(m: Mem, pa: nat, n: nat, v: nat)
    requires n > 0
    ensures var w := Write(m, pa, n, v);
            && (pa % PAGE_SIZE + n > PAGE_SIZE ==> w.status == PHYS_MEM_PAGE_ALIGN_ERROR)
            && (pa % PAGE_SIZE + n <= PAGE_SIZE && ByteAt(m, pa).None? ==> w.status == PHYS_MEM_ACCESS_FAULT)
            && (pa % PAGE_SIZE + n <= PAGE_SIZE && ByteAt(m, pa).Some? ==> w.status == OK && Stores(m, w.mem, pa, n, v))
            && (w.status != OK ==> w.mem == m)
  {
    hide Splice, ToLE, Shr;
    var w := Write(m, pa, n, v);
    if w.status == OK {
      WriteBytes(m, pa, n, v, 0);
      forall q: nat ensures StoredByte(m, w.mem, pa, n, v, q) {
        WriteBytes(m, pa, n, v, q);
        if pa <= q < pa + n { ToLEDigit(v, n, q - pa); }
      }
    }
  }

  ghost predicate StoredByte(m: Mem, m': Mem, pa: nat, n: nat, v: nat, q: nat) {
    ByteAt(m', q) == if pa <= q < pa + n then Some(Shr(v, 8 * (q - pa)) % 256) else ByteAt(m, q)
  }

  /** m' is m with the low n bytes of v, the lowest first, from pa on. */
  ghost predicate Stores(m: Mem, m': Mem, pa: nat, n: nat, v: nat) {
    m'.Keys == m.Keys && forall q: nat :: StoredByte(m, m', pa, n, v, q)
  }

  // ---------------------------------------------------------------- host pages

  /** A page of one of the host mappings: what a HostPtr points at. */
  datatype HostPage = HostPage(region: nat, page: nat)

  /** Guest page to host page, and the contents of the host mappings. */
  datatype Phys = Phys(mapping: map<nat, HostPage>, mmaps: seq<seq<Page>>)

  predicate HostIn(mmaps: seq<seq<Page>>, h: HostPage) {
    h.region < |mmaps| && h.page < |mmaps[h.region]|
  }

  function PageOf(mmaps: seq<seq<Page>>, h: HostPage): Page
    requires HostIn(mmaps, h)
  {
    mmaps[h.region][h.page]
  }

  /** Host pages are in bounds and no two guest pages share one. */
  ghost predicate ValidPhys(ph: Phys) {
    && (forall p <- ph.mapping :: HostIn(ph.mmaps, ph.mapping[p]))
    && (forall p, q :: p in ph.mapping && q in ph.mapping && ph.mapping[p] == ph.mapping[q] ==> p == q)
  }

  ghost function Flat(ph: Phys): Mem
    requires ValidPhys(ph)
  {
    map p <- ph.mapping :: PageOf(ph.mmaps, ph.mapping[p])
  }

  /** Loads and stores through a host page pointer. */
  function HostRead(ph: Phys, h: HostPage, off: nat, n: nat): nat
    requires HostIn(ph.mmaps, h) && off + n <= PAGE_SIZE
  {
    FromLE(PageOf(ph.mmaps, h)[off..off + n])
  }

  function PutPage(mmaps: seq<seq<Page>>, h: HostPage, page: Page): (r: seq<seq<Page>>)
    requires HostIn(mmaps, h)
    ensures |r| == |mmaps| && forall i :: 0 <= i < |r| ==> |r[i]| == |mmaps[i]|
    ensures forall g :: HostIn(mmaps, g) ==> HostIn(r, g)
    ensures forall g :: HostIn(mmaps, g) ==> PageOf(r, g) == if g == h then page else PageOf(mmaps, g)
  {
    var region: seq<Page> := mmaps[h.region][h.page := page];
    mmaps[h.region := region]
  }

  function HostWrite(ph: Phys, h: HostPage, off: nat, n: nat, v: nat): (r: Phys)
    requires HostIn(ph.mmaps, h) && off + n <= PAGE_SIZE
    ensures ValidPhys(ph) ==> ValidPhys(r)
  {
    ph.(mmaps := PutPage(ph.mmaps, h, Splice(PageOf(ph.mmaps, h), off, ToLE(v, n))))
  }

  lemma {:induction false} FlatPut(ph: Phys, p: nat, page: Page)
    requires ValidPhys(ph) && p in ph.mapping
    ensures var ph' := Phys(ph.mapping, PutPage(ph.mmaps, ph.mapping[p], page));
            ValidPhys(ph') && Flat(ph') == Flat(ph)[p := page]
  {
  }

  /** A store through the host page of guest page p is the flat write to p and to no other page. */
  lemma {:induction false} HostWriteRefines(ph: Phys, p: nat, off: nat, n: nat, v: nat)
    requires ValidPhys(ph) && p in ph.mapping && off + n <= PAGE_SIZE && n > 0
    ensures var ph' := HostWrite(ph, ph.mapping[p], off, n, v);
            && ValidPhys(ph') && ph'.mapping == ph.mapping
            && Write(Flat(ph), p * PAGE_SIZE + off, n, v) == WriteResult(OK, Flat(ph'))
  {
    hide ToLE, Splice;
    SamePage(p * PAGE_SIZE, off);
    FlatPut(ph, p, Splice(PageOf(ph.mmaps, ph.mapping[p]), off, ToLE(v, n)));
  }

  lemma {:induction false} FlatAdd(ph: Phys, p: nat, h: HostPage)
    requires ValidPhys(ph) && p !in ph.mapping && HostIn(ph.mmaps, h) && h !in ph.mapping.Values
    ensures var ph' := Phys(ph.mapping[p := h], ph.mmaps);
            ValidPhys(ph') && Flat(ph') == Flat(ph)[p := PageOf(ph.mmaps, h)]
  {
    assert forall q :: q in ph.mapping ==> ph.mapping[q] in ph.mapping.Values;
  }

  lemma {:induction false} HostReadRefines(ph: Phys, p: nat, off: nat, n: nat)
    requires ValidPhys(ph) && p in ph.mapping && off + n <= PAGE_SIZE && n > 0
    ensures Read(Flat(ph), p * PAGE_SIZE + off, n) == ReadResult(OK, HostRead(ph, ph.mapping[p], off, n))
  {
    SamePage(p * PAGE_SIZE, off);
  }

  // ---------------------------------------------------------------- the memory object

  /** PhysMemory with its RAM and PageAllocator.  Guest pages are keyed by page number, host
      mappings are zero-filled when they are made. */
  class PhysMemory {
    var mapping: map<nat, HostPage>
    var mmaps: seq<seq<Page>>
    var currPpn: nat

    static const PPN_16MB: nat := 4096

    /** Host pages handed out so far. */
    ghost predicate Allocated(h: HostPage)
      reads this
    {
      && HostIn(mmaps, h)
      && (h.region == |mmaps| - 1 ==> h.page < currPpn)
    }

    ghost predicate Valid()
      reads this
    {
      && 0 < |mmaps|
      && 0 < |mmaps[|mmaps| - 1]|
      && currPpn <= |mmaps[|mmaps| - 1]|
      && ValidPhys(Phys(mapping, mmaps))
      && (forall p <- mapping :: Allocated(mapping[p]))
      && (forall h :: HostIn(mmaps, h) && !Allocated(h) ==> PageOf(mmaps, h) == ZeroPage())
    }

    function Val(): Phys
      reads this
    {
      Phys(mapping, mmaps)
    }

    ghost function Contents(): Mem
      requires Valid()
      reads this
    {
      Flat(Val())
    }

    constructor ()
      ensures Valid() && mapping == map[] && Contents() == map[]
    {
      mapping := map[];
      mmaps := [seq(PPN_16MB, _ => ZeroPage())];
      currPpn := 0;
    }

    lemma {:induction false} MappedAllocated(h: HostPage)
      requires Valid() && h in mapping.Values
      ensures Allocated(h) && HostIn(mmaps, h)
    {
    }

    lemma {:induction false} Facts()
      requires Valid()
      ensures ValidPhys(Val()) && Contents() == Flat(Val()) && Contents().Keys == mapping.Keys
    {
    }

    /** PageAllocator::allocPage: the next host page, from a mapping of twice the size when the
        last one is used up. */
    method AllocPage() returns (h: HostPage)
      requires Valid()
      modifies this
      ensures Valid() && mapping == old(mapping) && Contents() == old(Contents())
      ensures !old(Allocated(h)) && Allocated(h) && PageOf(mmaps, h) == ZeroPage()
      ensures h !in mapping.Values
      ensures var last := |old(mmaps)| - 1;
              var size := |old(mmaps)[last]|;
              if old(currPpn) == size
              then h == HostPage(last + 1, 0) && |mmaps| == last + 2 && |mmaps[last + 1]| == 2 * size && currPpn == 1
              else h == HostPage(last, old(currPpn)) && mmaps == old(mmaps) && currPpn == old(currPpn) + 1
    {
      hide ZeroPage;
      var endPpn := |mmaps[|mmaps| - 1]|;
      if currPpn == endPpn {
        ghost var before := mmaps;
        mmaps := mmaps + [seq(endPpn * 2, _ => ZeroPage())];
        currPpn := 0;
        assert forall g :: HostIn(before, g) ==> HostIn(mmaps, g) && PageOf(mmaps, g) == PageOf(before, g);
        assert Contents() == old(Contents());
      }
      h := HostPage(|mmaps| - 1, currPpn);
      currPpn := currPpn + 1;
    }

    /** RAM::addPage: the host page is allocated first and is wasted when ppn is already there. */
    method AddRamPage(ppn: nat) returns (added: bool)
      requires Valid()
      modifies this
      ensures Valid()
      ensures added == (ppn !in old(mapping))
      ensures !added ==> mapping == old(mapping) && Contents() == old(Contents())
      ensures added ==> mapping.Keys == old(mapping).Keys + {ppn} && Contents() == old(Contents())[ppn := ZeroPage()]
      ensures forall p :: p in old(mapping) ==> p in mapping && mapping[p] == old(mapping)[p]
    {
      var h := AllocPage();
      added := ppn !in mapping;
      if added {
        FlatAdd(Val(), ppn, h);
        mapping := mapping[ppn := h];
      }
    }

    /** Read n bytes; also forwards the accessed host page. */
    method ReadInt(pa: nat, n: nat) returns (res: ReadResult, host: Option<HostPage>)
      requires Valid()
      ensures res == Read(Contents(), pa, n)
      ensures res.status == OK ==> pa / PAGE_SIZE in mapping
      ensures host == if res.status == OK then Some(mapping[pa / PAGE_SIZE]) else None
    {
      var off, p := pa % PAGE_SIZE, pa / PAGE_SIZE;
      if off + n > PAGE_SIZE { return ReadResult(PHYS_MEM_PAGE_ALIGN_ERROR, 0), None; }
      if p in mapping {
        return ReadResult(OK, HostRead(Val(), mapping[p], off, n)), Some(mapping[p]);
      }
      return ReadResult(PHYS_MEM_ACCESS_FAULT, 0), None;
    }

    method WriteInt(pa: nat, n: nat, v: nat) returns (status: SimStatus, host: Option<HostPage>)
      requires Valid() && n > 0
      modifies this
      ensures Valid() && mapping == old(mapping)
      ensures WriteResult(status, Contents()) == Write(old(Contents()), pa, n, v)
      ensures status == OK ==> pa / PAGE_SIZE in mapping && pa % PAGE_SIZE + n <= PAGE_SIZE
      ensures status == OK ==>
        && host == Some(mapping[pa / PAGE_SIZE])
        && Val() == HostWrite(old(Val()), mapping[pa / PAGE_SIZE], pa % PAGE_SIZE, n, v)
      ensures status != OK ==> host == None && Val() == old(Val())
    {
      var off, p := pa % PAGE_SIZE, pa / PAGE_SIZE;
      if off + n > PAGE_SIZE { return PHYS_MEM_PAGE_ALIGN_ERROR, None; }
      if p in mapping {
        HostWriteRefines(Val(), p, off, n, v);
        StoreHost(mapping[p], off, n, v);
        return OK, Some(mapping[p]);
      }
      return PHYS_MEM_ACCESS_FAULT, None;
    }

    /** memcpy to the host page of guest page p. */
    method CopyToPage(p: nat, off: nat, b: seq<Byte>)
      requires Valid() && p in mapping && off + |b| <= PAGE_SIZE
      modifies this
      ensures Valid() && mapping == old(mapping)
      ensures p in old(Contents()) && Contents() == old(Contents())[p := Splice(old(Contents())[p], off, b)]
    {
      var h := mapping[p];
      FlatPut(Val(), p, Splice(PageOf(mmaps, h), off, b));
      mmaps := PutPage(mmaps, h, Splice(PageOf(mmaps, h), off, b));
    }

    /** A store through a forwarded host page pointer. */
    method StoreHost(h: HostPage, off: nat, n: nat, v: nat)
      requires Valid() && Allocated(h) && off + n <= PAGE_SIZE
      modifies this
      ensures Valid() && mapping == old(mapping) && currPpn == old(currPpn)
      ensures Val() == HostWrite(old(Val()), h, off, n, v)
    {
      hide ToLE, Splice, ZeroPage, PutPage;
      var page := PageOf(mmaps, h);
      mmaps := PutPage(mmaps, h, Splice(page, off, ToLE(v, n)));
      assert |mmaps| == old(|mmaps|);
    }
  }
}
