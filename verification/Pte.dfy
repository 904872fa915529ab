/** Page table entries (memory/include/sim/memory/pte.hpp). */
module Pte {
  import opened Bits

  const PTE_PPN_HI: nat := 53
  const PTE_PPN_LO: nat := 10

  /** 2^44: a PTE keeps 44 bits of a page number. */
  const PPN_LIMIT: nat := 0x1000_0000_0000

  /** (0x3FF << 54) | (3 << 8). */
  function ReservedMask(): nat { Or(Shl(64, 0x3FF, 54), Shl(64, 3, 8)) }

  predicate Reserved(pte: nat) { And(pte, ReservedMask()) != 0 }

  // PTEFlags is the low byte of the entry.
  predicate V(pte: nat) { Bit(pte, 0) }
  predicate R(pte: nat) { Bit(pte, 1) }
  predicate W(pte: nat) { Bit(pte, 2) }
  predicate X(pte: nat) { Bit(pte, 3) }
  predicate U(pte: nat) { Bit(pte, 4) }
  predicate A(pte: nat) { Bit(pte, 6) }
  predicate D(pte: nat) { Bit(pte, 7) }

  const V_MASK: nat := 0x01
  const DEFAULT_FLAGS: nat := 0xC1

  function PtePpn(pte: nat): nat { GetBitField(64, PTE_PPN_HI, PTE_PPN_LO, pte) }

  function CreatePte(ppn: nat, flags: nat): nat
    requires flags < 256
  {
    Pow2Values();
    SetBitField(64, PTE_PPN_HI, PTE_PPN_LO, flags, ppn)
  }

  lemma {:induction false} ReservedMaskBits(i: nat)
    ensures Bit(ReservedMask(), i) ==> 8 <= i <= 9 || 54 <= i < 64
  {
    Pow2Values();
    BitOfOr(Shl(64, 0x3FF, 54), Shl(64, 3, 8), i);
    BitOfShl(64, 0x3FF, 54, i);
    BitOfShl(64, 3, 8, i);
    if i >= 54 { BitOfOnes(10, i - 54); }
    if i >= 8 { BitOfOnes(2, i - 8); }
  }

  /** createPTE round trip: PPN truncated to 44 bits, the flag byte unchanged, no reserved bit
      (so its assertion cannot fail). */
  lemma {:induction false} CreatePteFields(ppn: nat, flags: nat)
    requires flags < 256
    ensures var pte := CreatePte(ppn, flags);
            && pte < Pow2(64)
            && PtePpn(pte) == ppn % PPN_LIMIT
            && !Reserved(pte)
            && forall k: nat :: k < 8 ==> Bit(pte, k) == Bit(flags, k)
  {
    Pow2Values();
    var pte := CreatePte(ppn, flags);
    SetInRange(64, PTE_PPN_HI, PTE_PPN_LO, flags, ppn);
    GetAfterSet(64, PTE_PPN_HI, PTE_PPN_LO, flags, ppn);
    forall i: nat ensures !Bit(And(pte, ReservedMask()), i) {
      BitOfAnd(pte, ReservedMask(), i);
      ReservedMaskBits(i);
      SetBit(64, PTE_PPN_HI, PTE_PPN_LO, flags, ppn, i);
      if i >= 8 { SmallBits(flags, 8, i); }
    }
    forall i: nat ensures Bit(And(pte, ReservedMask()), i) == Bit(0, i) { BitOfZero(i); }
    BitExt(And(pte, ReservedMask()), 0);
    forall k: nat | k < 8 ensures Bit(pte, k) == Bit(flags, k) {
      SetBit(64, PTE_PPN_HI, PTE_PPN_LO, flags, ppn, k);
    }
  }

  /** A pointer entry, as the mapper writes it, is valid and not a leaf. */
  lemma {:induction false} PointerPte(ppn: nat)
    requires ppn < PPN_LIMIT
    ensures var pte := CreatePte(ppn, V_MASK);
            pte < Pow2(64) && V(pte) && !R(pte) && !W(pte) && !X(pte) && !Reserved(pte) && PtePpn(pte) == ppn
  {
    hide CreatePte, Reserved, PtePpn;
    var pte := CreatePte(ppn, V_MASK);
    CreatePteFields(ppn, V_MASK);
    assert ppn % PPN_LIMIT == ppn;
    assert Bit(pte, 0) == Bit(V_MASK, 0);
    assert Bit(pte, 1) == Bit(V_MASK, 1);
    assert Bit(pte, 2) == Bit(V_MASK, 2);
    assert Bit(pte, 3) == Bit(V_MASK, 3);
    OneBit(1);
    OneBit(2);
    OneBit(3);
  }
}
