/** Encoding as the formats of sections 2.2 and 2.3 of the RISC-V Unprivileged ISA (20191213)
    define it, and the round trip through the decoder. */
module DecoderTheory {
  import opened Common
  import opened Bits
  import opened Instr
  import opened Decoder

  // ---------------------------------------------------------------- scattered immediates

  /** Some section holds immediate bit b. */
  predicate Covered(secs: seq<Section>, b: nat) {
    exists i :: 0 <= i < |secs| && secs[i].to <= b <= secs[i].from
  }

  /** Each section of the code holds the slice of v that it should. */
  ghost predicate Scattered(secs: seq<Section>, v: nat, code: nat)
    requires AllValid(secs)
  {
    forall i :: 0 <= i < |secs| ==>
      GetBitField(32, secs[i].msb, secs[i].lsb, code) == GetBitField(32, secs[i].from, secs[i].to, v)
  }

  /** Gathering a scattered immediate gives back exactly its covered bits, for any layout. */
  lemma {:induction false} GatherScattered(secs: seq<Section>, v: nat, code: nat, b: nat)
    requires AllValid(secs) && Scattered(secs, v, code)
    ensures Bit(Gather(secs, code), b) == (Covered(secs, b) && Bit(v, b))
  {
    hide GetBitField, Shl;
    if secs == [] {
      BitOfZero(b);
    } else {
      var rest, s := secs[..|secs| - 1], secs[|secs| - 1];
      var got := GetBitField(32, s.msb, s.lsb, code);
      GatherScattered(rest, v, code, b);
      BitOfOr(Gather(rest, code), Shl(32, got, s.to), b);
      BitOfShl(32, got, s.to, b);
      if b >= s.to { GetBit(32, s.from, s.to, v, b - s.to); }
      assert Covered(secs, b) <==> Covered(rest, b) || s.to <= b <= s.from by {
        if Covered(rest, b) {
          var i :| 0 <= i < |rest| && rest[i].to <= b <= rest[i].from;
          assert secs[i] == rest[i];
        }
        if Covered(secs, b) {
          var i :| 0 <= i < |secs| && secs[i].to <= b <= secs[i].from;
          if i < |rest| { assert secs[i] == rest[i]; }
        }
      }
    }
  }

  lemma {:induction false} GatherAll(secs: seq<Section>, v: nat, code: nat)
    requires AllValid(secs) && Scattered(secs, v, code)
    requires forall b: nat :: Bit(v, b) ==> Covered(secs, b)
    ensures Gather(secs, code) == v
  {
    forall b: nat ensures Bit(Gather(secs, code), b) == Bit(v, b) {
      GatherScattered(secs, v, code, b);
    }
    BitExt(Gather(secs, code), v);
  }

  // ---------------------------------------------------------------- words by slots

  /** The six slots 31:25, 24:20, 19:15, 14:12, 11:7 and 6:0 of an instruction word. */
  datatype Slots = Slots(a: nat, b: nat, c: nat, d: nat, e: nat, f: nat)

  predicate ValidSlots(w: Slots) {
    w.a < 128 && w.b < 32 && w.c < 32 && w.d < 8 && w.e < 32 && w.f < 128
  }

  function Pack(w: Slots): nat {
    w.a * 0x200_0000 + w.b * 0x10_0000 + w.c * 0x8000 + w.d * 0x1000 + w.e * 0x80 + w.f
  }

  /** The slice of a word written as (up, x, low). */
  lemma {:induction false} Slice(code: nat, hi: nat, lo: nat, p: nat, q: nat, up: nat, x: nat, low: nat)
    requires lo <= hi < 32 && Pow2(lo) == p && Pow2(hi - lo + 1) == q
    requires code == (up * q + x) * p + low && x < q && low < p
    ensures Get(hi, lo, code) == x
  {
    GetValue(32, hi, lo, code);
    DivUnique(code, p, up * q + x, low);
    DivUnique(up * q + x, q, up, x);
  }

  lemma {:induction false} PowTable()
    ensures Pow2(0) == 1 && Pow2(1) == 2 && Pow2(3) == 8 && Pow2(4) == 16 && Pow2(5) == 32 && Pow2(6) == 64
    ensures Pow2(7) == 0x80 && Pow2(8) == 0x100 && Pow2(10) == 0x400 && Pow2(12) == 0x1000 && Pow2(15) == 0x8000
    ensures Pow2(20) == 0x10_0000 && Pow2(21) == 0x20_0000 && Pow2(25) == 0x200_0000 && Pow2(26) == 0x400_0000
    ensures Pow2(31) == 0x8000_0000
  {
    hide Pow2;
    Pow2Zero();
    Pow2Small();
    Pow2Add(2, 1);
    Pow2Add(4, 1);
    Pow2Add(4, 2);
    Pow2Add(4, 3);
    Pow2Add(8, 2);
    Pow2Add(8, 4);
    Pow2Add(8, 7);
    Pow2Add(10, 10);
    Pow2Add(20, 1);
    Pow2Add(20, 5);
    Pow2Add(25, 1);
    Pow2Add(25, 6);
  }

  lemma {:induction false} MainSlots(w: Slots)
    requires ValidSlots(w)
    ensures Get(6, 0, Pack(w)) == w.f && Get(11, 7, Pack(w)) == w.e && Get(14, 12, Pack(w)) == w.d
    ensures Get(19, 15, Pack(w)) == w.c && Get(24, 20, Pack(w)) == w.b && Get(31, 25, Pack(w)) == w.a
  {
    hide Get, Pow2;
    var code := Pack(w);
    PowTable();
    var r1 := w.f;
    var r2 := w.e * 0x80 + r1;
    var r3 := w.d * 0x1000 + r2;
    var r4 := w.c * 0x8000 + r3;
    var r5 := w.b * 0x10_0000 + r4;
    var u5 := w.a * 32 + w.b;
    var u4 := u5 * 32 + w.c;
    var u3 := u4 * 8 + w.d;
    Slice(code, 6, 0, 1, 0x80, u3 * 32 + w.e, w.f, 0);
    Slice(code, 11, 7, 0x80, 32, u3, w.e, r1);
    Slice(code, 14, 12, 0x1000, 8, u4, w.d, r2);
    Slice(code, 19, 15, 0x8000, 32, u5, w.c, r3);
    Slice(code, 24, 20, 0x10_0000, 32, w.a, w.b, r4);
    Slice(code, 31, 25, 0x200_0000, 0x80, 0, w.a, r5);
  }

  lemma {:induction false} WideSlots(w: Slots)
    requires ValidSlots(w)
    ensures Get(31, 20, Pack(w)) == w.a * 32 + w.b && Get(25, 20, Pack(w)) == (w.a % 2) * 32 + w.b
    ensures Get(31, 26, Pack(w)) == w.a / 2 && Get(24, 15, Pack(w)) == w.b * 32 + w.c
    ensures Get(31, 12, Pack(w)) == ((w.a * 32 + w.b) * 32 + w.c) * 8 + w.d
  {
    hide Get, Pow2;
    var code := Pack(w);
    PowTable();
    var r2 := w.e * 0x80 + w.f;
    var r3 := w.d * 0x1000 + r2;
    var r4 := w.c * 0x8000 + r3;
    var r5 := w.b * 0x10_0000 + r4;
    Slice(code, 31, 20, 0x10_0000, 0x1000, 0, w.a * 32 + w.b, r4);
    Slice(code, 25, 20, 0x10_0000, 64, w.a / 2, (w.a % 2) * 32 + w.b, r4);
    Slice(code, 31, 26, 0x400_0000, 64, 0, w.a / 2, (w.a % 2) * 0x200_0000 + r5);
    Slice(code, 24, 15, 0x8000, 0x400, w.a, w.b * 32 + w.c, r3);
    Slice(code, 31, 12, 0x1000, 0x10_0000, 0, ((w.a * 32 + w.b) * 32 + w.c) * 8 + w.d, r2);
  }

  lemma {:induction false} BranchSlots(w: Slots)
    requires ValidSlots(w)
    ensures Get(31, 31, Pack(w)) == w.a / 64 && Get(30, 25, Pack(w)) == w.a % 64
    ensures Get(11, 8, Pack(w)) == w.e / 2 && Get(7, 7, Pack(w)) == w.e % 2
    ensures Get(30, 21, Pack(w)) == (w.a % 64) * 16 + w.b / 2 && Get(20, 20, Pack(w)) == w.b % 2
    ensures Get(19, 12, Pack(w)) == w.c * 8 + w.d
  {
    hide Get, Pow2;
    var code := Pack(w);
    PowTable();
    var r2 := w.e * 0x80 + w.f;
    var r3 := w.d * 0x1000 + r2;
    var r4 := w.c * 0x8000 + r3;
    var r5 := w.b * 0x10_0000 + r4;
    var u3 := ((w.a * 32 + w.b) * 32 + w.c) * 8 + w.d;
    Slice(code, 31, 31, 0x8000_0000, 2, 0, w.a / 64, (w.a % 64) * 0x200_0000 + r5);
    Slice(code, 30, 25, 0x200_0000, 64, w.a / 64, w.a % 64, r5);
    Slice(code, 11, 8, 0x100, 16, u3, w.e / 2, (w.e % 2) * 0x80 + w.f);
    Slice(code, 7, 7, 0x80, 2, u3 * 16 + w.e / 2, w.e % 2, w.f);
    Slice(code, 30, 21, 0x20_0000, 0x400, w.a / 64, (w.a % 64) * 16 + w.b / 2, (w.b % 2) * 0x10_0000 + r4);
    Slice(code, 20, 20, 0x10_0000, 2, w.a * 16 + w.b / 2, w.b % 2, r4);
    Slice(code, 19, 12, 0x1000, 0x100, w.a * 32 + w.b, w.c * 8 + w.d, r2);
  }

  // ---------------------------------------------------------------- immediates by format

  lemma {:induction false} CoveredBelow(secs: seq<Section>, v: nat, n: nat)
    requires v < Pow2(n)
    requires forall b: nat :: b < n && Bit(v, b) ==> Covered(secs, b)
    ensures forall b: nat :: Bit(v, b) ==> Covered(secs, b)
  {
    forall b: nat | Bit(v, b) ensures Covered(secs, b) {
      if b >= n { SmallBits(v, n, b); }
    }
  }

  /** A section of the immediate at index i covers bit b. */
  lemma {:induction false} CoveredAt(secs: seq<Section>, i: nat, b: nat)
    requires i < |secs| && secs[i].to <= b <= secs[i].from
    ensures Covered(secs, b)
  {
  }

  lemma {:induction false} GatherImm12(w: Slots, v: nat)
    requires ValidSlots(w) && v == w.a * 32 + w.b
    ensures Gather(Sections(IMM12), Pack(w)) == v
  {
    hide Gather, Pack;
    WideSlots(w);
    PowTable();
    Slice(v, 11, 0, 1, 0x1000, 0, v, 0);
    forall b: nat | b < 12 ensures Covered(Sections(IMM12), b) { CoveredAt(Sections(IMM12), 0, b); }
    CoveredBelow(Sections(IMM12), v, 12);
    GatherAll(Sections(IMM12), v, Pack(w));
  }

  lemma {:induction false} GatherShamt(w: Slots, v: nat)
    requires ValidSlots(w) && v == (w.a % 2) * 32 + w.b
    ensures Gather(Sections(SHAMT), Pack(w)) == v
  {
    hide Gather, Pack;
    WideSlots(w);
    PowTable();
    Slice(v, 5, 0, 1, 64, 0, v, 0);
    forall b: nat | b < 6 ensures Covered(Sections(SHAMT), b) { CoveredAt(Sections(SHAMT), 0, b); }
    CoveredBelow(Sections(SHAMT), v, 6);
    GatherAll(Sections(SHAMT), v, Pack(w));
  }

  lemma {:induction false} GatherShamtw(w: Slots)
    requires ValidSlots(w)
    ensures Gather(Sections(SHAMTW), Pack(w)) == w.b
  {
    hide Gather, Pack;
    MainSlots(w);
    PowTable();
    Slice(w.b, 4, 0, 1, 32, 0, w.b, 0);
    forall b: nat | b < 5 ensures Covered(Sections(SHAMTW), b) { CoveredAt(Sections(SHAMTW), 0, b); }
    CoveredBelow(Sections(SHAMTW), w.b, 5);
    GatherAll(Sections(SHAMTW), w.b, Pack(w));
  }

  lemma {:induction false} GatherStore(w: Slots, v: nat)
    requires ValidSlots(w) && v == w.a * 32 + w.e
    ensures Gather(Sections(STOREIMM), Pack(w)) == v
  {
    hide Gather, Pack;
    MainSlots(w);
    PowTable();
    Slice(v, 11, 5, 32, 0x80, 0, w.a, w.e);
    Slice(v, 4, 0, 1, 32, w.a, w.e, 0);
    forall b: nat | b < 12 ensures Covered(Sections(STOREIMM), b) {
      CoveredAt(Sections(STOREIMM), if b >= 5 then 0 else 1, b);
    }
    CoveredBelow(Sections(STOREIMM), v, 12);
    GatherAll(Sections(STOREIMM), v, Pack(w));
  }

  lemma {:induction false} GatherUpper(w: Slots, v: nat)
    requires ValidSlots(w) && v == (((w.a * 32 + w.b) * 32 + w.c) * 8 + w.d) * 0x1000
    ensures Gather(Sections(IMM20), Pack(w)) == v
  {
    hide Gather, Pack;
    WideSlots(w);
    PowTable();
    Slice(v, 31, 12, 0x1000, 0x10_0000, 0, v / 0x1000, 0);
    forall b: nat | b < 32 && Bit(v, b) ensures Covered(Sections(IMM20), b) {
      LowZero(v, 12, b);
      CoveredAt(Sections(IMM20), 0, b);
    }
    Pow2Values();
    CoveredBelow(Sections(IMM20), v, 32);
    GatherAll(Sections(IMM20), v, Pack(w));
  }

  lemma {:induction false} LowZero(v: nat, n: nat, b: nat)
    requires v % Pow2(n) == 0 && Bit(v, b)
    ensures b >= n
  {
    BitOfMod(v, n, b);
    BitOfZero(b);
  }

  lemma {:induction false} BranchScattered(w: Slots, v: nat, v12: nat, v11: nat, v10: nat, v4: nat)
    requires ValidSlots(w) && v12 < 2 && v11 < 2 && v10 < 64 && v4 < 16
    requires w.a == v12 * 64 + v10 && w.e == v4 * 2 + v11
    requires v == v12 * 0x1000 + v11 * 0x800 + v10 * 32 + v4 * 2
    ensures Get(12, 12, v) == Get(31, 31, Pack(w)) && Get(10, 5, v) == Get(30, 25, Pack(w))
    ensures Get(4, 1, v) == Get(11, 8, Pack(w)) && Get(11, 11, v) == Get(7, 7, Pack(w))
  {
    hide Pack, Get, Pow2;
    BranchSlots(w);
    PowTable();
    assert Pow2(11) == 0x800 by { Pow2Add(10, 1); }
    Slice(v, 12, 12, 0x1000, 2, 0, v12, v11 * 0x800 + v10 * 32 + v4 * 2);
    Slice(v, 10, 5, 32, 64, v12 * 2 + v11, v10, v4 * 2);
    Slice(v, 4, 1, 2, 16, v12 * 128 + v11 * 64 + v10, v4, 0);
    Slice(v, 11, 11, 0x800, 2, v12, v11, v10 * 32 + v4 * 2);
  }

  /** The branch offset in its pieces 12, 11, 10:5 and 4:1. */
  lemma {:induction false} GatherBranch(w: Slots, v12: nat, v11: nat, v10: nat, v4: nat)
    requires ValidSlots(w) && v12 < 2 && v11 < 2 && v10 < 64 && v4 < 16
    requires w.a == v12 * 64 + v10 && w.e == v4 * 2 + v11
    ensures Gather(Sections(BIMM), Pack(w)) == v12 * 0x1000 + v11 * 0x800 + v10 * 32 + v4 * 2
  {
    hide Gather, Pack, Get, Pow2;
    PowTable();
    assert Pow2(13) == 0x2000 by { Pow2Add(12, 1); }
    var v := v12 * 0x1000 + v11 * 0x800 + v10 * 32 + v4 * 2;
    BranchScattered(w, v, v12, v11, v10, v4);
    assert Scattered(Sections(BIMM), v, Pack(w)) by { GetIs(); }
    BranchCovered(v);
    GatherAll(Sections(BIMM), v, Pack(w));
  }

  lemma {:induction false} BranchCovered(v: nat)
    requires v % Pow2(1) == 0 && v < Pow2(13)
    ensures forall b: nat :: Bit(v, b) ==> Covered(Sections(BIMM), b)
  {
    var secs := Sections(BIMM);
    forall b: nat | b < 13 && Bit(v, b) ensures Covered(secs, b) {
      LowZero(v, 1, b);
      CoveredAt(secs, if b == 12 then 0 else if b == 11 then 3 else if b >= 5 then 1 else 2, b);
    }
    CoveredBelow(secs, v, 13);
  }

  lemma {:induction false} GetIs()
    ensures forall hi: nat, lo: nat, code: nat {:trigger GetBitField(32, hi, lo, code)} ::
              lo <= hi < 32 ==> GetBitField(32, hi, lo, code) == Get(hi, lo, code)
  {
  }

  lemma {:induction false} JumpScattered(w: Slots, v: nat, v20: nat, v11: nat, v10: nat, v4: nat)
    requires ValidSlots(w) && v20 < 2 && v11 < 2 && v10 < 64 && v4 < 16
    requires w.a == v20 * 64 + v10 && w.b == v4 * 2 + v11
    requires v == v20 * 0x10_0000 + (w.c * 8 + w.d) * 0x1000 + v11 * 0x800 + v10 * 32 + v4 * 2
    ensures Get(20, 20, v) == Get(31, 31, Pack(w)) && Get(10, 1, v) == Get(30, 21, Pack(w))
    ensures Get(11, 11, v) == Get(20, 20, Pack(w)) && Get(19, 12, v) == Get(19, 12, Pack(w))
  {
    hide Pack, Get, Pow2;
    BranchSlots(w);
    PowTable();
    assert Pow2(11) == 0x800 by { Pow2Add(10, 1); }
    var v19 := w.c * 8 + w.d;
    Slice(v, 20, 20, 0x10_0000, 2, 0, v20, v19 * 0x1000 + v11 * 0x800 + v10 * 32 + v4 * 2);
    Slice(v, 10, 1, 2, 0x400, (v20 * 256 + v19) * 2 + v11, v10 * 16 + v4, 0);
    Slice(v, 11, 11, 0x800, 2, v20 * 256 + v19, v11, v10 * 32 + v4 * 2);
    Slice(v, 19, 12, 0x1000, 0x100, v20, v19, v11 * 0x800 + v10 * 32 + v4 * 2);
  }

  /** The jump offset in its pieces 20, 19:12, 11, 10:5 and 4:1. */
  lemma {:induction false} GatherJump(w: Slots, v20: nat, v11: nat, v10: nat, v4: nat)
    requires ValidSlots(w) && v20 < 2 && v11 < 2 && v10 < 64 && v4 < 16
    requires w.a == v20 * 64 + v10 && w.b == v4 * 2 + v11
    ensures Gather(Sections(JIMM20), Pack(w)) ==
            v20 * 0x10_0000 + (w.c * 8 + w.d) * 0x1000 + v11 * 0x800 + v10 * 32 + v4 * 2
  {
    hide Gather, Pack, Get, Pow2;
    PowTable();
    var v := v20 * 0x10_0000 + (w.c * 8 + w.d) * 0x1000 + v11 * 0x800 + v10 * 32 + v4 * 2;
    JumpScattered(w, v, v20, v11, v10, v4);
    assert Scattered(Sections(JIMM20), v, Pack(w)) by { GetIs(); }
    JumpCovered(v);
    GatherAll(Sections(JIMM20), v, Pack(w));
  }

  lemma {:induction false} JumpCovered(v: nat)
    requires v % Pow2(1) == 0 && v < Pow2(21)
    ensures forall b: nat :: Bit(v, b) ==> Covered(Sections(JIMM20), b)
  {
    var secs := Sections(JIMM20);
    forall b: nat | b < 21 && Bit(v, b) ensures Covered(secs, b) {
      LowZero(v, 1, b);
      CoveredAt(secs, if b == 20 then 0 else if b >= 12 then 3 else if b == 11 then 2 else 1, b);
    }
    CoveredBelow(secs, v, 21);
  }

  // ---------------------------------------------------------------- encoding

  /** The fields of each instruction as sections 2.2 and 2.3 and chapter 5 give them: R, I, S, B, U
      and J format, and shift amounts of six and five bits.  This table is not the decoder's. */
  function FormatOf(id: InstrId): Fields
    requires id != UNIMPLEMENTED
  {
    match id
    case ADD | SUB | SLL | SLT | SLTU | XOR | SRL | SRA | OR | AND | ADDW | SUBW | SLLW | SRLW | SRAW =>
      Fields(true, true, true, NO_IMM)
    case ADDI | SLTI | SLTIU | XORI | ORI | ANDI | ADDIW | JALR | LB | LH | LW | LD | LBU | LHU | LWU =>
      Fields(true, true, false, IMM12)
    case SLLI | SRLI | SRAI => Fields(true, true, false, SHAMT)
    case SLLIW | SRLIW | SRAIW => Fields(true, true, false, SHAMTW)
    case SB | SH | SW | SD => Fields(false, true, true, STOREIMM)
    case BEQ | BNE | BLT | BGE | BLTU | BGEU => Fields(false, true, true, BIMM)
    case LUI | AUIPC => Fields(true, false, false, IMM20)
    case JAL => Fields(true, false, false, JIMM20)
    case ECALL => Fields(false, false, false, NO_IMM)
  }

  /** Format, opcode, funct3 and funct7 of an instruction (its fixed bits). */
  datatype Spec = Spec(fields: Fields, opcode: nat, funct3: nat, funct7: nat)

  function SpecOf(id: InstrId): (s: Spec)
    requires id != UNIMPLEMENTED
    ensures s.opcode < 128 && s.funct3 < 8 && (s.funct7 == 0 || s.funct7 == 32)
  {
    match id
    case BEQ => Spec(FormatOf(id), 99, 0, 0)
    case BNE => Spec(FormatOf(id), 99, 1, 0)
    case BLT => Spec(FormatOf(id), 99, 4, 0)
    case BGE => Spec(FormatOf(id), 99, 5, 0)
    case BLTU => Spec(FormatOf(id), 99, 6, 0)
    case BGEU => Spec(FormatOf(id), 99, 7, 0)
    case JALR => Spec(FormatOf(id), 103, 0, 0)
    case JAL => Spec(FormatOf(id), 111, 0, 0)
    case LUI => Spec(FormatOf(id), 55, 0, 0)
    case AUIPC => Spec(FormatOf(id), 23, 0, 0)
    case ADDI => Spec(FormatOf(id), 19, 0, 0)
    case SLLI => Spec(FormatOf(id), 19, 1, 0)
    case SLTI => Spec(FormatOf(id), 19, 2, 0)
    case SLTIU => Spec(FormatOf(id), 19, 3, 0)
    case XORI => Spec(FormatOf(id), 19, 4, 0)
    case SRLI => Spec(FormatOf(id), 19, 5, 0)
    case SRAI => Spec(FormatOf(id), 19, 5, 32)
    case ORI => Spec(FormatOf(id), 19, 6, 0)
    case ANDI => Spec(FormatOf(id), 19, 7, 0)
    case ADD => Spec(FormatOf(id), 51, 0, 0)
    case SLL => Spec(FormatOf(id), 51, 1, 0)
    case SLT => Spec(FormatOf(id), 51, 2, 0)
    case SLTU => Spec(FormatOf(id), 51, 3, 0)
    case XOR => Spec(FormatOf(id), 51, 4, 0)
    case SRL => Spec(FormatOf(id), 51, 5, 0)
    case OR => Spec(FormatOf(id), 51, 6, 0)
    case AND => Spec(FormatOf(id), 51, 7, 0)
    case SUB => Spec(FormatOf(id), 51, 0, 32)
    case SRA => Spec(FormatOf(id), 51, 5, 32)
    case ADDIW => Spec(FormatOf(id), 27, 0, 0)
    case SLLIW => Spec(FormatOf(id), 27, 1, 0)
    case SRLIW => Spec(FormatOf(id), 27, 5, 0)
    case SRAIW => Spec(FormatOf(id), 27, 5, 32)
    case ADDW => Spec(FormatOf(id), 59, 0, 0)
    case SLLW => Spec(FormatOf(id), 59, 1, 0)
    case SRLW => Spec(FormatOf(id), 59, 5, 0)
    case SUBW => Spec(FormatOf(id), 59, 0, 32)
    case SRAW => Spec(FormatOf(id), 59, 5, 32)
    case LB => Spec(FormatOf(id), 3, 0, 0)
    case LH => Spec(FormatOf(id), 3, 1, 0)
    case LW => Spec(FormatOf(id), 3, 2, 0)
    case LD => Spec(FormatOf(id), 3, 3, 0)
    case LBU => Spec(FormatOf(id), 3, 4, 0)
    case LHU => Spec(FormatOf(id), 3, 5, 0)
    case LWU => Spec(FormatOf(id), 3, 6, 0)
    case SB => Spec(FormatOf(id), 35, 0, 0)
    case SH => Spec(FormatOf(id), 35, 1, 0)
    case SW => Spec(FormatOf(id), 35, 2, 0)
    case SD => Spec(FormatOf(id), 35, 3, 0)
    case ECALL => Spec(FormatOf(id), 115, 0, 0)
  }

  /** Immediates a format can hold. */
  predicate LegalImm(k: ImmKind, imm: Word32) {
    var s := if imm < 0x8000_0000 then imm else imm - 0x1_0000_0000;
    match k
    case NO_IMM => imm == 0
    case IMM12 => -0x800 <= s < 0x800
    case STOREIMM => -0x800 <= s < 0x800
    case BIMM => -0x1000 <= s < 0x1000 && imm % 2 == 0
    case JIMM20 => -0x10_0000 <= s < 0x10_0000 && imm % 2 == 0
    case IMM20 => imm % 0x1000 == 0
    case SHAMT => imm < 64
    case SHAMTW => imm < 32
  }

  /** An implemented instruction with legal operands, unused fields zero. */
  predicate Canonical(i: Instr) {
    && i.Op? && i.id != UNIMPLEMENTED
    && var f := SpecOf(i.id).fields;
       (f.rd || i.rd == 0) && (f.rs1 || i.rs1 == 0) && (f.rs2 || i.rs2 == 0) && LegalImm(f.imm, i.imm)
  }

  /** The slots of the encoded word. */
  function EncodeSlots(i: Instr): (w: Slots)
    requires Canonical(i)
    ensures ValidSlots(w)
  {
    var s, v := SpecOf(i.id), i.imm;
    match s.fields.imm
    case NO_IMM => Slots(s.funct7, i.rs2, i.rs1, s.funct3, i.rd, s.opcode)
    case IMM12 => Slots((v % 0x1000) / 32, v % 32, i.rs1, s.funct3, i.rd, s.opcode)
    case SHAMT => Slots(s.funct7 + v / 32, v % 32, i.rs1, s.funct3, i.rd, s.opcode)
    case SHAMTW => Slots(s.funct7, v, i.rs1, s.funct3, i.rd, s.opcode)
    case STOREIMM => Slots((v % 0x1000) / 32, i.rs2, i.rs1, s.funct3, v % 32, s.opcode)
    case BIMM => Slots(((v / 0x1000) % 2) * 64 + (v / 32) % 64, i.rs2, i.rs1, s.funct3,
                       ((v / 2) % 16) * 2 + (v / 0x800) % 2, s.opcode)
    case IMM20 => Slots(v / 0x200_0000, (v / 0x10_0000) % 32, (v / 0x8000) % 32, (v / 0x1000) % 8, i.rd, s.opcode)
    case JIMM20 => Slots(((v / 0x10_0000) % 2) * 64 + (v / 32) % 64, ((v / 2) % 16) * 2 + (v / 0x800) % 2,
                         (v / 0x8000) % 32, (v / 0x1000) % 8, i.rd, s.opcode)
  }

  function Encode(i: Instr): nat
    requires Canonical(i)
  {
    Pack(EncodeSlots(i))
  }

  // ---------------------------------------------------------------- the round trip

  lemma {:induction false} SignUnique(top: nat, v: nat, imm: Word32)
    requires top < 31 && v < Pow2(32) && Signed(top + 1, v) == Signed(32, imm)
    ensures SignExtend(32, top, v) == imm
  {
    hide SignExtend, Pow2;
    SignExtendValue(32, top, v);
    Pow2Values();
    PowTable();
    DivUnique(SignExtend(32, top, v), Pow2(32), 0, SignExtend(32, top, v));
  }

  lemma {:induction false} LowBitsOf(half: nat, imm: Word32)
    requires half == 0x800 || half == 0x1000 || half == 0x10_0000
    requires imm < half || 0x1_0000_0000 - half <= imm
    ensures imm % (2 * half) == if imm < half then imm else imm - 0x1_0000_0000 + 2 * half
  {
  }

  lemma {:induction false} SignBackAt(top: nat, half: nat, imm: Word32)
    requires top < 31 && Pow2(top) == half && Pow2(top + 1) == 2 * half
    requires half == 0x800 || half == 0x1000 || half == 0x10_0000
    requires imm < half || 0x1_0000_0000 - half <= imm
    ensures imm % (2 * half) < Pow2(32) && SignExtend(32, top, imm % (2 * half)) == imm
  {
    hide SignExtend, Pow2;
    Pow2Values();
    PowTable();
    LowBitsOf(half, imm);
    var v := imm % (2 * half);
    DivUnique(v, 2 * half, 0, v);
    DivUnique(imm, 0x1_0000_0000, 0, imm);
    SignUnique(top, v, imm);
  }

  /** Sign extension undoes truncation for immediates in range. */
  lemma {:induction false} SignBack(k: ImmKind, imm: Word32)
    requires (k == IMM12 || k == STOREIMM || k == BIMM || k == JIMM20) && LegalImm(k, imm)
    ensures var n := if k == JIMM20 then 0x20_0000 else if k == BIMM then 0x2000 else 0x1000;
            var top := if k == JIMM20 then 20 else if k == BIMM then 12 else 11;
            imm % n < Pow2(32) && SignExtend(32, top, imm % n) == imm
  {
    hide SignExtend, Pow2;
    Pow2Values();
    PowTable();
    assert Pow2(11) == 0x800 && Pow2(13) == 0x2000 by { Pow2Add(10, 1); Pow2Add(12, 1); }
    if k == JIMM20 {
      SignBackAt(20, 0x10_0000, imm);
    } else if k == BIMM {
      SignBackAt(12, 0x1000, imm);
    } else {
      SignBackAt(11, 0x800, imm);
    }
  }

  lemma {:induction false} ExtendFromIs()
    ensures ExtendFrom(Sections(IMM12)) == 11 && ExtendFrom(Sections(STOREIMM)) == 11 &&
            ExtendFrom(Sections(BIMM)) == 12
    ensures ExtendFrom(Sections(JIMM20)) == 20 && ExtendFrom(Sections(IMM20)) == 31
  {
    assert Sections(BIMM)[..3][..2] == [Section(31, 31, 12, 12), Section(30, 25, 10, 5)];
    assert Sections(JIMM20)[..3][..2] == [Section(31, 31, 20, 20), Section(30, 21, 10, 1)];
  }

  /** What gathering finds in the encoded word. */
  function Truncated(k: ImmKind, imm: Word32): nat {
    match k
    case IMM12 => imm % 0x1000
    case STOREIMM => imm % 0x1000
    case BIMM => imm % 0x2000
    case JIMM20 => imm % 0x20_0000
    case _ => imm
  }

  lemma {:induction false} GatherEncoded(i: Instr)
    requires Canonical(i)
    ensures Gather(Sections(SpecOf(i.id).fields.imm), Encode(i)) == Truncated(SpecOf(i.id).fields.imm, i.imm)
  {
    hide SpecOf, Gather, Sections, Pack;
    var k, v, w := SpecOf(i.id).fields.imm, i.imm, EncodeSlots(i);
    match k
    case NO_IMM => NoSections(Encode(i));
    case SHAMT =>
      ShamtPieces(SpecOf(i.id).funct7, v);
      GatherShamt(w, v);
    case SHAMTW => GatherShamtw(w);
    case IMM20 =>
      UpperPieces(v);
      GatherUpper(w, v);
    case IMM12 =>
      TwelvePieces(v);
      GatherImm12(w, v % 0x1000);
    case STOREIMM =>
      TwelvePieces(v);
      GatherStore(w, v % 0x1000);
    case BIMM =>
      GatherBranch(w, (v / 0x1000) % 2, (v / 0x800) % 2, (v / 32) % 64, (v / 2) % 16);
      BranchPieces(v);
    case JIMM20 =>
      GatherJump(w, (v / 0x10_0000) % 2, (v / 0x800) % 2, (v / 32) % 64, (v / 2) % 16);
      JumpPieces(v);
  }

  /** The immediate survives encoding and decoding. */
  lemma {:induction false} ImmediateBack(i: Instr)
    requires Canonical(i)
    ensures Immediate(SpecOf(i.id).fields.imm, Encode(i)) == i.imm
  {
    hide SpecOf, Gather, Sections, SignExtend, ExtendFrom, Pack, EncodeSlots, Encode;
    var k := SpecOf(i.id).fields.imm;
    GatherEncoded(i);
    ExtendFromIs();
    if k == IMM12 || k == STOREIMM || k == BIMM || k == JIMM20 { SignBack(k, i.imm); }
  }

  lemma {:induction false} NoSections(code: nat)
    ensures Gather(Sections(NO_IMM), code) == 0
  {
  }

  lemma {:induction false} TwelvePieces(v: nat)
    ensures v % 0x1000 == ((v % 0x1000) / 32) * 32 + v % 32
  {
    ModSplit(v, 32, 128);
    DivMod(v / 32, 128);
    DivUnique(v % 0x1000, 32, (v / 32) % 128, v % 32);
  }

  lemma {:induction false} ShamtPieces(funct7: nat, v: nat)
    requires v < 64 && (funct7 == 0 || funct7 == 32)
    ensures v == ((funct7 + v / 32) % 2) * 32 + v % 32
  {
  }

  lemma {:induction false} UpperPieces(v: nat)
    requires v % 0x1000 == 0
    ensures v == (((v / 0x200_0000 * 32 + (v / 0x10_0000) % 32) * 32 + (v / 0x8000) % 32) * 8 +
            (v / 0x1000) % 8) * 0x1000
  {
    ModSplit(v, 0x1000, 8);
    ModSplit(v, 0x8000, 32);
    ModSplit(v, 0x10_0000, 32);
  }

  lemma {:induction false} BranchPieces(v: nat)
    requires v % 2 == 0
    ensures v % 0x2000 == ((v / 0x1000) % 2) * 0x1000 + ((v / 0x800) % 2) * 0x800 + ((v / 32) % 64) * 32 +
            ((v / 2) % 16) * 2
  {
    ModSplit(v, 2, 16);
    ModSplit(v, 32, 64);
    ModSplit(v, 0x800, 2);
    ModSplit(v, 0x1000, 2);
  }

  lemma {:induction false} JumpPieces(v: nat)
    requires v % 2 == 0
    ensures v % 0x20_0000 == ((v / 0x10_0000) % 2) * 0x10_0000 + (((v / 0x8000) % 32) * 8 + (v / 0x1000) % 8) * 0x1000 +
                             ((v / 0x800) % 2) * 0x800 + ((v / 32) % 64) * 32 + ((v / 2) % 16) * 2
  {
    ModSplit(v, 2, 16);
    ModSplit(v, 32, 64);
    ModSplit(v, 0x800, 2);
    ModSplit(v, 0x1000, 8);
    ModSplit(v, 0x8000, 32);
    ModSplit(v, 0x10_0000, 2);
  }

  /** The decision tree reaches the leaf of the encoded instruction. */
  lemma {:induction false} TreeReaches(i: Instr)
    requires Canonical(i)
    ensures Decode(Encode(i)) == Assemble(i.id, SpecOf(i.id).fields, Encode(i))
  {
    hide Assemble, Get, Pack, Atomics, FloatOps, Unhandled;
    MainSlots(EncodeSlots(i));
    WideSlots(EncodeSlots(i));
  }

  lemma {:induction false} RegistersBack(i: Instr)
    requires Canonical(i)
    ensures var f := SpecOf(i.id).fields;
            && RegField(f.rd, 7, Encode(i)) == i.rd
            && RegField(f.rs1, 15, Encode(i)) == i.rs1
            && RegField(f.rs2, 20, Encode(i)) == i.rs2
  {
    hide Pack;
    MainSlots(EncodeSlots(i));
  }

  /** For every implemented instruction and all legal operands, decoding the encoded word gives
      the instruction back: id, registers and sign-extended immediate. */
  lemma {:induction false} DecodeEncode(i: Instr)
    requires Canonical(i)
    ensures Decode(Encode(i)) == i
  {
    hide Decode, Encode, Immediate, RegField, SpecOf;
    TreeReaches(i);
    RegistersBack(i);
    ImmediateBack(i);
  }

  lemma {:induction false} ShiftForms(code: nat)
    ensures var i := Decode(code);
            && (i.Op? && i.id in {SLLI, SRLI, SRAI} ==> i == Assemble(i.id, Fields(true, true, false, SHAMT), code))
            && (i.Op? && i.id in {SLLIW, SRLIW, SRAIW} ==> i == Assemble(i.id, Fields(true, true, false, SHAMTW), code))
  {
    hide Get, RegField, Immediate;
  }

  /** Whatever the word, a decoded shift amount fits its operand width. */
  lemma {:induction false} ShiftAmountsInRange(code: nat)
    ensures var i := Decode(code);
            i.Op? ==> (i.id in {SLLI, SRLI, SRAI} ==> i.imm < 64) && (i.id in {SLLIW, SRLIW, SRAIW} ==> i.imm < 32)
  {
    hide Get, Gather, RegField, SignExtend, Decode;
    ShiftForms(code);
    GatherSmall([Section(25, 20, 5, 0)], code, 6);
    GatherSmall([Section(24, 20, 4, 0)], code, 5);
    PowTable();
  }

  lemma {:induction false} GatherSmall(secs: seq<Section>, code: nat, n: nat)
    requires |secs| == 1 && AllValid(secs) && secs[0].to == 0 && secs[0].from < n
    ensures Gather(secs, code) < Pow2(n)
  {
    hide Pow2, Bit, GetBitField;
    var s := secs[0];
    var got := GetBitField(32, s.msb, s.lsb, code);
    forall b: nat | b >= n ensures !Bit(Gather(secs, code), b) {
      BitOfZero(b);
      BitOfOr(0, Shl(32, got, 0), b);
      BitOfShl(32, got, 0, b);
      GetBit(32, s.msb, s.lsb, code, b);
    }
    BelowPow2(Gather(secs, code), n);
  }
}
