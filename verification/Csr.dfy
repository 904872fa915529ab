/** Control and status registers as the generator lays them out (csr/gen_csr_value.py): setValue
    takes the fields out of a raw value, getValue puts them back together. */
module Csr {
  import opened Common
  import opened Bits
  import opened Mmu

  /** Bits hi..lo of a register; an enumerated field lists its legal values, and 0 is one of them
      because it is the default. */
  datatype Field = Field(hi: nat, lo: nat, legal: Option<set<nat>>)

  type Fields = seq<Field>

  ghost predicate InRange(w: nat, fields: Fields) {
    forall f <- fields :: f.lo <= f.hi < w && (f.legal.Some? ==> 0 in f.legal.value)
  }

  ghost predicate Disjoint(fields: Fields) {
    forall j, k :: 0 <= j < k < |fields| ==> fields[j].hi < fields[k].lo || fields[k].hi < fields[j].lo
  }

  predicate Legal(f: Field, value: nat) { f.legal.Some? ==> value in f.legal.value }

  /** What setValue stores for one field. */
  function Taken(w: nat, f: Field, raw: nat): nat
    requires f.lo <= f.hi < w
  {
    var v := GetBitField(w, f.hi, f.lo, raw);
    if Legal(f, v) then v else 0
  }

  function Values(w: nat, fields: Fields, raw: nat): seq<nat>
    requires InRange(w, fields)
  {
    seq(|fields|, k requires 0 <= k < |fields| => Taken(w, fields[k], raw))
  }

  /** What getValue has folded after n fields. */
  function Packed(w: nat, fields: Fields, values: seq<nat>, n: nat): (r: nat)
    requires InRange(w, fields) && n <= |fields| == |values|
    ensures r < Pow2(w)
  {
    if n == 0 then 0
    else
      var f := fields[n - 1];
      var rest := Packed(w, fields, values, n - 1);
      SetInRange(w, f.hi, f.lo, rest, values[n - 1]);
      SetBitField(w, f.hi, f.lo, rest, values[n - 1])
  }

  predicate Holds(f: Field, i: nat) { f.lo <= i <= f.hi }

  // ---------------------------------------------------------------- packing

  /** Every field reads back what was put there, cut to its width. */
  lemma {:induction false} PackedField(w: nat, fields: Fields, values: seq<nat>, n: nat, k: nat)
    requires InRange(w, fields) && Disjoint(fields) && k < n <= |fields| == |values|
    ensures var f := fields[k];
            GetBitField(w, f.hi, f.lo, Packed(w, fields, values, n)) == values[k] % Pow2(f.hi - f.lo + 1)
    decreases n
  {
    hide GetBitField, SetBitField;
    var f, g := fields[n - 1], fields[k];
    var rest := Packed(w, fields, values, n - 1);
    if k == n - 1 {
      GetAfterSet(w, f.hi, f.lo, rest, values[k]);
    } else {
      GetFrame(w, f.hi, f.lo, rest, values[n - 1], g.hi, g.lo);
      PackedField(w, fields, values, n - 1, k);
    }
  }

  /** Bits of no field are zero. */
  lemma {:induction false} PackedElsewhere(w: nat, fields: Fields, values: seq<nat>, n: nat, i: nat)
    requires InRange(w, fields) && n <= |fields| == |values|
    requires forall k :: 0 <= k < n ==> !Holds(fields[k], i)
    ensures !Bit(Packed(w, fields, values, n), i)
    decreases n
  {
    hide SetBitField;
    if n == 0 {
      BitOfZero(i);
    } else {
      var f := fields[n - 1];
      assert !Holds(f, i);
      SetBit(w, f.hi, f.lo, Packed(w, fields, values, n - 1), values[n - 1], i);
      PackedElsewhere(w, fields, values, n - 1, i);
    }
  }

  /** What a register shows after a raw value has been written to it. */
  function Legalised(w: nat, fields: Fields, raw: nat): (r: nat)
    requires InRange(w, fields)
    ensures r < Pow2(w)
  {
    Packed(w, fields, Values(w, fields, raw), |fields|)
  }

  lemma {:induction false} TakenSmall(w: nat, f: Field, raw: nat)
    requires f.lo <= f.hi < w
    ensures Taken(w, f, raw) < Pow2(f.hi - f.lo + 1)
  {
    GetValue(w, f.hi, f.lo, raw);
    DivMod(raw, Pow2(f.lo));
    DivMod(raw / Pow2(f.lo), Pow2(f.hi - f.lo + 1));
  }

  /** Each field of the written register is the field of the raw value, or zero where that is not
      a legal value. */
  lemma {:induction false} LegalisedField(w: nat, fields: Fields, raw: nat, k: nat)
    requires InRange(w, fields) && Disjoint(fields) && k < |fields|
    ensures var f := fields[k];
            GetBitField(w, f.hi, f.lo, Legalised(w, fields, raw)) == Taken(w, f, raw)
  {
    hide GetBitField, Packed, Taken;
    var f := fields[k];
    PackedField(w, fields, Values(w, fields, raw), |fields|, k);
    TakenSmall(w, f, raw);
    DivUnique(Taken(w, f, raw), Pow2(f.hi - f.lo + 1), 0, Taken(w, f, raw));
  }

  /** Exactly the bits of the legal fields of the raw value survive. */
  lemma {:induction false} LegalisedBit(w: nat, fields: Fields, raw: nat, i: nat)
    requires InRange(w, fields) && Disjoint(fields)
    ensures Bit(Legalised(w, fields, raw), i) <==>
            exists k :: 0 <= k < |fields| && Holds(fields[k], i) &&
                        Legal(fields[k], GetBitField(w, fields[k].hi, fields[k].lo, raw)) && Bit(raw, i)
  {
    hide GetBitField, Packed, Legal;
    if k: nat :| k < |fields| && Holds(fields[k], i) {
      var f := fields[k];
      LegalisedField(w, fields, raw, k);
      GetBit(w, f.hi, f.lo, Legalised(w, fields, raw), i - f.lo);
      GetBit(w, f.hi, f.lo, raw, i - f.lo);
      BitOfZero(i - f.lo);
      forall j | 0 <= j < |fields| && Holds(fields[j], i) ensures j == k {}
    } else {
      PackedElsewhere(w, fields, Values(w, fields, raw), |fields|, i);
    }
  }

  /** Writing back what was read changes no field. */
  lemma {:induction false} WriteBackChangesNothing(w: nat, fields: Fields, raw: nat)
    requires InRange(w, fields) && Disjoint(fields)
    ensures Values(w, fields, Legalised(w, fields, raw)) == Values(w, fields, raw)
    ensures Legalised(w, fields, Legalised(w, fields, raw)) == Legalised(w, fields, raw)
  {
    hide GetBitField, Packed, Legalised;
    forall k | 0 <= k < |fields| ensures Taken(w, fields[k], Legalised(w, fields, raw)) == Taken(w, fields[k], raw) {
      LegalisedField(w, fields, raw, k);
    }
    assert Values(w, fields, Legalised(w, fields, raw)) == Values(w, fields, raw);
    LegalisedOfValues(w, fields, Legalised(w, fields, raw), raw);
  }

  lemma {:induction false} LegalisedOfValues(w: nat, fields: Fields, a: nat, b: nat)
    requires InRange(w, fields) && Values(w, fields, a) == Values(w, fields, b)
    ensures Legalised(w, fields, a) == Legalised(w, fields, b)
  {
    hide Values, Packed;
  }

  ghost predicate AllLegal(w: nat, fields: Fields, raw: nat)
    requires InRange(w, fields)
  {
    forall f <- fields :: Legal(f, GetBitField(w, f.hi, f.lo, raw))
  }

  ghost predicate InSomeField(fields: Fields, i: nat) { exists k :: 0 <= k < |fields| && Holds(fields[k], i) }

  ghost predicate Covered(fields: Fields, raw: nat) { forall i: nat :: Bit(raw, i) ==> InSomeField(fields, i) }

  /** A raw value reads back unchanged exactly when it is legal and has no bit outside the fields. */
  lemma {:induction false} UnchangedExactly(w: nat, fields: Fields, raw: nat)
    requires InRange(w, fields) && Disjoint(fields)
    ensures Legalised(w, fields, raw) == raw <==> AllLegal(w, fields, raw) && Covered(fields, raw)
  {
    hide GetBitField, Legalised, Holds, Bit;
    if Legalised(w, fields, raw) == raw {
      forall f | f in fields ensures Legal(f, GetBitField(w, f.hi, f.lo, raw)) {
        var k: nat :| k < |fields| && fields[k] == f;
        LegalisedField(w, fields, raw, k);
      }
      forall i: nat | Bit(raw, i) ensures InSomeField(fields, i) {
        LegalisedBit(w, fields, raw, i);
      }
    }
    if AllLegal(w, fields, raw) && Covered(fields, raw) {
      forall i: nat ensures Bit(Legalised(w, fields, raw), i) == Bit(raw, i) {
        LegalisedBit(w, fields, raw, i);
        if Bit(raw, i) {
          assert InSomeField(fields, i);
          var k: nat :| k < |fields| && Holds(fields[k], i);
          assert Legal(fields[k], GetBitField(w, fields[k].hi, fields[k].lo, raw));
        }
      }
      BitExt(Legalised(w, fields, raw), raw);
    }
  }

  // ---------------------------------------------------------------- the registers of csr.yaml

  const SATP: Fields := [Field(63, 60, Some({0, 8, 9, 10})), Field(59, 44, None), Field(43, 0, None)]

  const MSTATUS: Fields := [Field(18, 18, None), Field(19, 19, None)]

  lemma {:induction false} RegistersWellFormed()
    ensures InRange(64, SATP) && Disjoint(SATP) && InRange(64, MSTATUS) && Disjoint(MSTATUS)
  {
  }

  /** satp has no unused bit: it keeps every raw value whose mode is known; otherwise only the
      mode is dropped. */
  lemma {:induction false} SatpKeeps(raw: nat)
    requires raw < Pow2(64)
    ensures InRange(64, SATP)
    ensures Legalised(64, SATP, raw) == raw <==> GetBitField(64, 63, 60, raw) in {0, 8, 9, 10}
    ensures GetBitField(64, 43, 0, Legalised(64, SATP, raw)) == GetBitField(64, 43, 0, raw)
  {
    hide GetBitField, Legalised, Bit;
    RegistersWellFormed();
    UnchangedExactly(64, SATP, raw);
    LegalisedField(64, SATP, raw, 2);
    forall i: nat | Bit(raw, i) ensures InSomeField(SATP, i) {
      if i >= 64 { SmallBits(raw, 64, i); }
      assert Holds(SATP[if i >= 60 then 0 else if i >= 44 then 1 else 2], i);
    }
    assert SATP[0] in SATP;
  }

  // ---------------------------------------------------------------- what translation reads

  function ModeOf(raw: nat): Mode {
    match raw
    case 8 => SV39
    case 9 => SV48
    case 10 => SV57
    case _ => BARE
  }

  function ModeCode(mode: Mode): nat {
    match mode
    case BARE => 0
    case SV39 => 8
    case SV48 => 9
    case SV57 => 10
  }

  /** Translation reads MODE and PPN of satp, and MXR and SUM of mstatus. */
  function TranslationCsrs(satp: seq<nat>, mstatus: seq<nat>): Csrs
    requires |satp| == |SATP| && |mstatus| == |MSTATUS|
  {
    Csrs(ModeOf(satp[0]), satp[2], mstatus[1] != 0, mstatus[0] != 0)
  }

  /** The same, from raw values written to the registers. */
  function RawCsrs(satp: nat, mstatus: nat): Csrs {
    RegistersWellFormed();
    TranslationCsrs(Values(64, SATP, satp), Values(64, MSTATUS, mstatus))
  }

  /** Registers start with zero in every field. */
  lemma {:induction false} ZeroFields()
    ensures InRange(64, SATP) && Values(64, SATP, 0) == [0, 0, 0]
    ensures InRange(64, MSTATUS) && Values(64, MSTATUS, 0) == [0, 0]
  {
    hide GetBitField;
    RegistersWellFormed();
    ZeroField(63, 60);
    ZeroField(59, 44);
    ZeroField(43, 0);
    ZeroField(18, 18);
    ZeroField(19, 19);
  }

  lemma {:induction false} ZeroField(hi: nat, lo: nat)
    requires lo <= hi < 64
    ensures GetBitField(64, hi, lo, 0) == 0
  {
    hide GetBitField, Bit;
    var v := GetBitField(64, hi, lo, 0);
    forall j: nat ensures Bit(v, j) == Bit(0, j) {
      GetBit(64, hi, lo, 0, j);
      BitOfZero(j);
      BitOfZero(lo + j);
    }
    BitExt(v, 0);
  }

  lemma {:induction false} OneBitField(raw: nat, i: nat)
    requires i < 64
    ensures GetBitField(64, i, i, raw) != 0 <==> Bit(raw, i)
  {
    hide GetBitField, Bit;
    var v := GetBitField(64, i, i, raw);
    forall j: nat ensures Bit(v, j) == (j == 0 && Bit(raw, i)) { GetBit(64, i, i, raw, j); }
    if !Bit(raw, i) {
      forall j: nat ensures Bit(v, j) == Bit(0, j) { BitOfZero(j); }
      BitExt(v, 0);
    }
    BitOfZero(0);
  }

  /** An unknown mode leaves translation off; the other fields are the bits of the raw values. */
  lemma {:induction false} RawCsrsBits(satp: nat, mstatus: nat)
    ensures RawCsrs(satp, mstatus) ==
            Csrs(ModeOf(GetBitField(64, 63, 60, satp)), GetBitField(64, 43, 0, satp),
                 Bit(mstatus, 19), Bit(mstatus, 18))
  {
    hide GetBitField, Bit;
    RegistersWellFormed();
    OneBitField(mstatus, 18);
    OneBitField(mstatus, 19);
  }

  /** Reading satp and mstatus and writing them back changes no translation. */
  lemma {:induction false} WriteBackKeepsTranslation(satp: nat, mstatus: nat)
    ensures InRange(64, SATP) && InRange(64, MSTATUS)
    ensures RawCsrs(Legalised(64, SATP, satp), Legalised(64, MSTATUS, mstatus)) == RawCsrs(satp, mstatus)
  {
    hide Values, Legalised;
    RegistersWellFormed();
    WriteBackChangesNothing(64, SATP, satp);
    WriteBackChangesNothing(64, MSTATUS, mstatus);
  }

  /** Every configuration with a 44-bit root can be packed into register values that give it back. */
  lemma {:induction false} PackedCsrs(c: Csrs, asid: nat)
    requires c.root < Pow2(44)
    ensures InRange(64, SATP) && InRange(64, MSTATUS)
    ensures Legal(SATP[0], ModeCode(c.mode)) && ModeOf(ModeCode(c.mode)) == c.mode
    ensures RawCsrs(Packed(64, SATP, [ModeCode(c.mode), asid, c.root], 3),
                    Packed(64, MSTATUS, [if c.sum then 1 else 0, if c.mxr then 1 else 0], 2)) == c
  {
    hide GetBitField, Packed, Pow2, Bit, InRange, Disjoint;
    RegistersWellFormed();
    var satp, mstatus := [ModeCode(c.mode), asid, c.root], [if c.sum then 1 else 0, if c.mxr then 1 else 0];
    var a, b := Packed(64, SATP, satp, 3), Packed(64, MSTATUS, mstatus, 2);
    RawCsrsBits(a, b);
    PackedField(64, SATP, satp, 3, 0);
    PackedField(64, SATP, satp, 3, 2);
    PackedField(64, MSTATUS, mstatus, 2, 0);
    PackedField(64, MSTATUS, mstatus, 2, 1);
    SmallPowers();
    DivUnique(c.root, Pow2(44), 0, c.root);
    OneBitField(b, 18);
    OneBitField(b, 19);
  }

  lemma {:induction false} SmallPowers()
    ensures Pow2(63 - 60 + 1) == 16 && Pow2(18 - 18 + 1) == 2 && Pow2(19 - 19 + 1) == 2 && Pow2(43 - 0 + 1) == Pow2(44)
  {
    Pow2Small();
  }

  // ---------------------------------------------------------------- the register object

  class CsrValue {
    const w: nat
    const fields: Fields
    var values: seq<nat>

    ghost predicate Valid()
      reads this
    {
      InRange(w, fields) && |values| == |fields|
    }

    constructor (w: nat, fields: Fields, raw: nat)
      requires InRange(w, fields)
      ensures Valid() && this.w == w && this.fields == fields && values == Values(w, fields, raw)
    {
      this.w, this.fields := w, fields;
      values := seq(|fields|, _ => 0);
      new;
      SetValue(raw);
    }

    /** The generated setValue. */
    method SetValue(raw: nat)
      requires Valid()
      modifies this
      ensures Valid() && values == Values(w, fields, raw)
    {
      for k := 0 to |fields|
        invariant Valid()
        invariant forall j :: 0 <= j < k ==> values[j] == Taken(w, fields[j], raw)
      {
        var f := fields[k];
        var v := GetBitField(w, f.hi, f.lo, raw);
        if f.legal.Some? && v !in f.legal.value { v := 0; }
        values := values[k := v];
      }
    }

    /** The generated setter of one field. */
    method SetField(k: nat, v: nat)
      requires Valid() && k < |fields|
      modifies this
      ensures Valid() && values == old(values)[k := v]
    {
      values := values[k := v];
    }

    /** The generated getValue. */
    method ReadValue() returns (value: nat)
      requires Valid()
      ensures value < Pow2(w)
      ensures value == Packed(w, fields, values, |fields|)
      ensures Disjoint(fields) ==>
        forall k :: 0 <= k < |fields| ==>
          GetBitField(w, fields[k].hi, fields[k].lo, value) == values[k] % Pow2(fields[k].hi - fields[k].lo + 1)
    {
      value := 0;
      for k := 0 to |fields|
        invariant value == Packed(w, fields, values, k)
      {
        value := SetBitField(w, fields[k].hi, fields[k].lo, value, values[k]);
      }
      forall k | 0 <= k < |fields| && Disjoint(fields)
        ensures GetBitField(w, fields[k].hi, fields[k].lo, value) == values[k] % Pow2(fields[k].hi - fields[k].lo + 1)
      {
        PackedField(w, fields, values, |fields|, k);
      }
    }
  }
}
