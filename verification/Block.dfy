/** Basic blocks and their direct-mapped cache (bb/include/sim/bb.hpp and
    cache/include/sim/bb_cache.hpp). */
module Block {
  import opened Common
  import opened Bits
  import opened Instr
  import opened PhysMem
  import opened Mmu
  import opened Tlb
  import opened Exec
  import opened Access
  import opened Decoder

  const MAX_SIZE: nat := 16
  const INVALID_VA: nat := 0x100_0000_0000_0000
  const BB_CACHE_SIZE: nat := 128

  type Instrs = s: seq<Instr> | |s| == MAX_SIZE witness seq(16, _ => Status(OK))

  datatype Bb = Bb(va: nat, instrs: Instrs)

  type Bbs = s: seq<Bb> | |s| == BB_CACHE_SIZE witness seq(128, _ => Bb(0, seq(16, _ => Status(OK))))

  function DefaultBb(): Bb { Bb(INVALID_VA, seq(MAX_SIZE, _ => ILLEGAL)) }

  /** getBitField(2 + 7 - 1, 2, pc). */
  function BbSlot(pc: nat): (i: nat)
    ensures i == (pc / 4) % BB_CACHE_SIZE
  {
    assert Pow2(7) == 128 && Pow2(2) == 4 by { Pow2Values(); }
    GetValue(64, 8, 2, pc);
    GetBitField(64, 8, 2, pc)
  }

  /** The address of entry i of a block. */
  function EntryVa(va: nat, i: nat): Word { Wrap(va + 4 * i) }

  /** lost: a fetch ended the process while the block was being filled. */
  datatype Filled = Filled(lost: bool, instrs: Instrs, ftlb: Entries)

  /** Bb::update from entry i on: fetch and decode until something ends the block, or put the
      OK status into the last entry.  A failed assertion inside a fetch ends the process at once,
      whether or not the fetched word would ever be executed. */
  ghost function Fill(c: Csrs, ph: Phys, ftlb: Entries, instrs: Instrs, va: nat, i: nat): Filled
    requires ValidPhys(ph) && i < MAX_SIZE
    decreases MAX_SIZE - i
  {
    if i == MAX_SIZE - 1 then Filled(false, instrs[i := Status(OK)], ftlb)
    else
      var l := LoadInt(c, ph, ftlb, FETCH, EntryVa(va, i), 4);
      if l.status == ABORT then Filled(true, instrs, l.tlb)
      else if l.status != OK then Filled(false, instrs[i := Status(l.status)], l.tlb)
      else
        var d := Decode(l.value);
        var instrs': Instrs := instrs[i := d];
        if Ends(d) then Filled(false, instrs', l.tlb) else Fill(c, ph, l.tlb, instrs', va, i + 1)
  }

  // ---------------------------------------------------------------- what a block stands for

  /** The instruction the reference machine meets at address a. */
  function FetchDecode(c: Csrs, m: Mem, a: nat): Instr {
    var l := RefLoad(c, m, FETCH, a, 4);
    if l.status != OK then Status(l.status) else Decode(l.value)
  }

  /** The bytes of the word at address a, where it can be fetched. */
  ghost function WordBytes(c: Csrs, m: Mem, a: nat): iset<nat> {
    var t := Translate(c, m, USER, FETCH, a);
    if t.status == OK then iset{t.pa, t.pa + 1, t.pa + 2, t.pa + 3} else iset{}
  }

  /** From entry i on, the block holds what is in memory, up to an entry that ends it. */
  ghost predicate BlockFrom(c: Csrs, m: Mem, va: nat, instrs: Instrs, i: nat, code: iset<nat>)
    decreases MAX_SIZE - i
  {
    if i >= MAX_SIZE then false
    else if i == MAX_SIZE - 1 then instrs[i] == Status(OK)
    else
      && instrs[i] == FetchDecode(c, m, EntryVa(va, i)) != Status(ABORT)
      && WordBytes(c, m, EntryVa(va, i)) <= code
      && (Ends(instrs[i]) || BlockFrom(c, m, va, instrs, i + 1, code))
  }

  // ---------------------------------------------------------------- the window of a block

  /** The bytes that a block of va takes in from entry i on. */
  ghost function WindowBytes(c: Csrs, m: Mem, va: nat, i: nat): iset<nat>
    decreases MAX_SIZE - i
  {
    if i >= MAX_SIZE - 1 then iset{}
    else
      var rest := if Ends(FetchDecode(c, m, EntryVa(va, i))) then iset{} else WindowBytes(c, m, va, i + 1);
      WordBytes(c, m, EntryVa(va, i)) + rest
  }

  /** No word of the window lies in the poison page. */
  ghost predicate OffPoison(c: Csrs, m: Mem, va: nat, i: nat)
    decreases MAX_SIZE - i
  {
    i >= MAX_SIZE - 1 || (
      && !InPoisonPage(EntryVa(va, i))
      && (Ends(FetchDecode(c, m, EntryVa(va, i))) || OffPoison(c, m, va, i + 1)))
  }

  /** Fetching some word of the window ends the process. */
  ghost predicate WindowLost(c: Csrs, m: Mem, va: nat, i: nat)
    decreases MAX_SIZE - i
  {
    i < MAX_SIZE - 1 && (
      || FetchDecode(c, m, EntryVa(va, i)) == Status(ABORT)
      || (!Ends(FetchDecode(c, m, EntryVa(va, i))) && WindowLost(c, m, va, i + 1)))
  }

  lemma {:induction false} FillFrame(c: Csrs, ph: Phys, ftlb: Entries, instrs: Instrs, va: nat, i: nat)
    requires ValidPhys(ph) && i < MAX_SIZE
    ensures var f := Fill(c, ph, ftlb, instrs, va, i); forall k :: 0 <= k < i ==> f.instrs[k] == instrs[k]
    decreases MAX_SIZE - i
  {
    hide LoadInt, Decode, Ends;
    if i < MAX_SIZE - 1 {
      var l := LoadInt(c, ph, ftlb, FETCH, EntryVa(va, i), 4);
      var instrs': Instrs := instrs[i := Decode(l.value)];
      if l.status == OK && !Ends(Decode(l.value)) { FillFrame(c, ph, l.tlb, instrs', va, i + 1); }
    }
  }

  /** An update ends the process exactly when the window holds a word whose fetch does.  Otherwise
      every entry up to the first one that ends the block is the decoded word at its address.  The
      fetch cache stays coherent. */
  lemma {:induction false} FillRefines(c: Csrs, ph: Phys, ftlb: Entries, instrs: Instrs, va: nat, i: nat,
                                       code: iset<nat>)
    requires ValidPhys(ph) && i < MAX_SIZE && TlbOk(c, Flat(ph), ph.mapping, FETCH, ftlb)
    requires OffPoison(c, Flat(ph), va, i) && WindowBytes(c, Flat(ph), va, i) <= code
    ensures var f := Fill(c, ph, ftlb, instrs, va, i);
            && f.lost == WindowLost(c, Flat(ph), va, i)
            && (!f.lost ==> BlockFrom(c, Flat(ph), va, f.instrs, i, code))
            && TlbOk(c, Flat(ph), ph.mapping, FETCH, f.ftlb)
    decreases MAX_SIZE - i
  {
    hide LoadInt, RefLoad, Decode, TlbOk, ValidPhys, Flat, WordBytes, EntryVa, InPoisonPage;
    if i < MAX_SIZE - 1 {
      var a := EntryVa(va, i);
      LoadRefines(c, ph, ftlb, FETCH, a, 4);
      var l := LoadInt(c, ph, ftlb, FETCH, a, 4);
      DecodeShape(l.value);
      var d := FetchDecode(c, Flat(ph), a);
      if l.status == OK && !Ends(d) {
        var instrs': Instrs := instrs[i := d];
        FillRefines(c, ph, l.tlb, instrs', va, i + 1, code);
        FillFrame(c, ph, l.tlb, instrs', va, i + 1);
      }
    }
  }

  /** A block in the cache has a window that could be fetched. */
  lemma {:induction false} CachedNotLost(c: Csrs, m: Mem, va: nat, instrs: Instrs, i: nat, code: iset<nat>)
    requires BlockFrom(c, m, va, instrs, i, code)
    ensures !WindowLost(c, m, va, i)
    decreases MAX_SIZE - i
  {
    hide FetchDecode, WordBytes;
    if i < MAX_SIZE - 1 && !Ends(instrs[i]) { CachedNotLost(c, m, va, instrs, i + 1, code); }
  }

  /** A block stays right when more bytes count as code. */
  lemma {:induction false} BlockGrows(c: Csrs, m: Mem, va: nat, instrs: Instrs, i: nat, code: iset<nat>,
                                      code': iset<nat>)
    requires BlockFrom(c, m, va, instrs, i, code) && code <= code'
    ensures BlockFrom(c, m, va, instrs, i, code')
    decreases MAX_SIZE - i
  {
    hide FetchDecode, WordBytes;
    if i < MAX_SIZE - 1 && !Ends(instrs[i]) { BlockGrows(c, m, va, instrs, i + 1, code, code'); }
  }

  /** A block stays right as long as translation and the code bytes stay the same. */
  lemma {:induction false} BlockStable(c: Csrs, m: Mem, m': Mem, va: nat, instrs: Instrs, i: nat, code: iset<nat>)
    requires BlockFrom(c, m, va, instrs, i, code)
    requires m'.Keys == m.Keys
    requires forall a: nat :: Translate(c, m', USER, FETCH, a) == Translate(c, m, USER, FETCH, a)
    requires forall q: nat :: q in code ==> ByteAt(m', q) == ByteAt(m, q)
    ensures BlockFrom(c, m', va, instrs, i, code)
    decreases MAX_SIZE - i
  {
    hide Translate, Read, Decode, EntryVa, ByteAt;
    if i < MAX_SIZE - 1 {
      var a := EntryVa(va, i);
      FetchStable(c, m, m', a, code);
      if !Ends(instrs[i]) { BlockStable(c, m, m', va, instrs, i + 1, code); }
    }
  }

  lemma {:induction false} FetchStable(c: Csrs, m: Mem, m': Mem, a: nat, code: iset<nat>)
    requires WordBytes(c, m, a) <= code
    requires m'.Keys == m.Keys
    requires Translate(c, m', USER, FETCH, a) == Translate(c, m, USER, FETCH, a)
    requires forall q: nat :: q in code ==> ByteAt(m', q) == ByteAt(m, q)
    ensures FetchDecode(c, m', a) == FetchDecode(c, m, a) && WordBytes(c, m', a) == WordBytes(c, m, a)
  {
    hide Translate, Read, Decode, ByteAt;
    var t := Translate(c, m, USER, FETCH, a);
    if t.status == OK { ReadDepends(m, m', t.pa, 4); }
  }
}
