/** Direct-mapped translation cache (cache/include/sim/tlb.hpp). */
module Tlb {
  import opened Common
  import opened Bits
  import opened PhysMem

  /** The tag of an empty entry: the page at 2^56. */
  const POISON_VA: nat := 0x100_0000_0000_0000

  const TLB_SIZE: nat := 128

  /** host is None for a null pointer. */
  datatype Entry = Entry(host: Option<HostPage>, va: nat)

  type Entries = s: seq<Entry> | |s| == TLB_SIZE witness seq(128, _ => Entry(None, 0))

  function PageVa(va: nat): nat { va - va % PAGE_SIZE }

  /** getBitField(12 + 7 - 1, 12, va). */
  function Slot(va: nat): (i: nat)
    ensures i == (va / PAGE_SIZE) % TLB_SIZE
  {
    assert Pow2(7) == 128 && Pow2(12) == 4096 by { Pow2Values(); }
    GetValue(64, 18, 12, va);
    GetBitField(64, 18, 12, va)
  }

  /** An empty cache. */
  function Empty(): Entries { seq(TLB_SIZE, _ => Entry(None, POISON_VA)) }

  predicate Hit(t: Entries, va: nat) { PageVa(va) == t[Slot(va)].va }

  function Update(t: Entries, va: nat, host: HostPage): Entries {
    t[Slot(va) := Entry(Some(host), PageVa(va))]
  }

  class TlbCache {
    const entries: array<Entry>

    function Val(): Entries
      requires entries.Length == TLB_SIZE
      reads entries
    {
      entries[..]
    }

    constructor ()
      ensures fresh(entries) && entries.Length == TLB_SIZE && Val() == Empty()
    {
      entries := new Entry[TLB_SIZE](_ => Entry(None, POISON_VA));
      new;
      assert entries[..] == Empty();
    }

    /** Poisons every tag; host pointers stay. */
    method Invalidate()
      requires entries.Length == TLB_SIZE
      modifies entries
      ensures forall i :: 0 <= i < TLB_SIZE ==> entries[i] == old(entries[i]).(va := POISON_VA)
    {
      for i := 0 to TLB_SIZE
        invariant forall k :: 0 <= k < i ==> entries[k] == old(entries[k]).(va := POISON_VA)
        invariant forall k :: i <= k < TLB_SIZE ==> entries[k] == old(entries[k])
      {
        entries[i] := entries[i].(va := POISON_VA);
      }
    }

    method Find(va: nat) returns (hit: bool, host: Option<HostPage>)
      requires entries.Length == TLB_SIZE
      ensures hit == Hit(Val(), va) && host == Val()[Slot(va)].host
    {
      var e := entries[Slot(va)];
      hit, host := PageVa(va) == e.va, e.host;
    }

    method Put(va: nat, host: HostPage)
      requires entries.Length == TLB_SIZE
      modifies entries
      ensures Val() == Update(old(Val()), va, host)
    {
      entries[Slot(va)] := Entry(Some(host), PageVa(va));
      assert entries[..] == Update(old(Val()), va, host);
    }
  }
}
