/** Bit helpers of the simulator (getBitField, setBitField, maskBits, signExtend) on
    natural numbers.  A W-bit machine word is a number below Pow2(W); wrap-around is written
    out as a remainder.  `Bit` is the independent reading of a word that all laws are stated in. */
module Bits {

  function Pow2(n: nat): (r: nat)
    ensures r >= 1
  {
    if n == 0 then 1 else 2 * Pow2(n - 1)
  }

  /** Bit i of x. */
  predicate Bit(x: nat, i: nat) {
    if i == 0 then x % 2 == 1 else Bit(x / 2, i - 1)
  }

  function And(x: nat, y: nat): nat {
    if x == 0 || y == 0 then 0 else 2 * And(x / 2, y / 2) + (if x % 2 == 1 && y % 2 == 1 then 1 else 0)
  }

  function Or(x: nat, y: nat): nat
    decreases x + y
  {
    if x == 0 then y else if y == 0 then x
    else 2 * Or(x / 2, y / 2) + (if x % 2 == 1 || y % 2 == 1 then 1 else 0)
  }

  function Xor(x: nat, y: nat): nat
    decreases x + y
  {
    if x == 0 then y else if y == 0 then x
    else 2 * Xor(x / 2, y / 2) + (if x % 2 != y % 2 then 1 else 0)
  }

  /** W-bit shifts, complement and subtraction. */
  function Shl(w: nat, x: nat, n: nat): nat { (x * Pow2(n)) % Pow2(w) }

  function Shr(x: nat, n: nat): nat {
    DivMod(x, Pow2(n));
    x / Pow2(n)
  }

  function Not(w: nat, x: nat): nat
    requires x < Pow2(w)
  {
    Pow2(w) - 1 - x
  }

  function Sub(w: nat, x: nat, y: nat): nat
    requires y <= Pow2(w)
  {
    (x + Pow2(w) - y) % Pow2(w)
  }

  // ---------------------------------------------------------------- powers and slices

  lemma {:induction false} Pow2Add(a: nat, b: nat)
    ensures Pow2(a + b) == Pow2(a) * Pow2(b)
  {
    if a != 0 {
      Pow2Add(a - 1, b);
      assert Pow2(a + b) == 2 * Pow2(a - 1 + b);
    }
  }

  lemma {:induction false} Pow2Monotone(a: nat, b: nat)
    requires a <= b
    ensures Pow2(a) <= Pow2(b)
  {
    if a < b { Pow2Monotone(a, b - 1); }
  }

  lemma {:induction false} Halve(a: nat, c: nat, p: nat)
    ensures (a * (2 * p) + c) / 2 == a * p + c / 2
    ensures (a * (2 * p) + c) % 2 == c % 2
  {
    assert a * (2 * p) == 2 * (a * p);
  }

  /** The word whose low n bits are c and whose upper part is a. */
  lemma {:induction false} BitOfConcat(a: nat, c: nat, n: nat, i: nat)
    requires c < Pow2(n)
    ensures Bit(a * Pow2(n) + c, i) == if i < n then Bit(c, i) else Bit(a, i - n)
  {
    if n != 0 {
      Halve(a, c, Pow2(n - 1));
      if i != 0 { BitOfConcat(a, c / 2, n - 1, i - 1); }
    }
  }

  lemma {:induction false} DivMod(x: nat, d: nat)
    requires d > 0
    ensures x == (x / d) * d + x % d && x % d < d && x / d >= 0
  {
  }

  lemma {:induction false} ModAtMost(x: nat, d: nat)
    requires d > 0
    ensures 0 <= x % d <= x
  {
    DivMod(x, d);
    if x / d >= 1 { MulAtLeast(x / d, d); }
  }

  lemma {:induction false} MulAtLeast(k: int, m: nat)
    requires k >= 1
    ensures k * m >= m
  {
    assert k * m == (k - 1) * m + m;
  }

  lemma {:induction false} MulLess(x: nat, y: nat, m: nat)
    requires x < y && m > 0
    ensures x * m < y * m
  {
    MulAtLeast(y - x, m);
    assert y * m == x * m + (y - x) * m;
  }

  /** Quotient and remainder are unique. */
  lemma {:induction false} DivUnique(x: nat, m: nat, q: nat, r: nat)
    requires x == q * m + r && r < m
    ensures x / m == q && x % m == r
  {
    var q', r' := x / m, x % m;
    DivMod(x, m);
    assert (q - q') * m == r' - r;
    if q > q' { MulAtLeast(q - q', m); }
    if q < q' {
      assert (q' - q) * m == r - r';
      MulAtLeast(q' - q, m);
    }
  }

  lemma {:induction false} BitOfUpper(x: nat, q: nat, r: nat, n: nat, i: nat)
    requires x == q * Pow2(n) + r && r < Pow2(n)
    ensures Bit(x, i + n) == Bit(q, i)
  {
    BitOfConcat(q, r, n, i + n);
  }

  lemma {:induction false} BitOfShr(x: nat, n: nat, i: nat)
    ensures x / Pow2(n) >= 0 && Bit(x / Pow2(n), i) == Bit(x, i + n)
  {
    DivMod(x, Pow2(n));
    BitOfUpper(x, x / Pow2(n), x % Pow2(n), n, i);
  }

  lemma {:induction false} BitOfMod(x: nat, n: nat, i: nat)
    ensures Bit(x % Pow2(n), i) == (i < n && Bit(x, i))
  {
    DivMod(x, Pow2(n));
    BitOfConcat(x / Pow2(n), x % Pow2(n), n, i);
    if i >= n { SmallBits(x % Pow2(n), n, i); }
  }

  lemma {:induction false} SmallBits(x: nat, n: nat, i: nat)
    requires x < Pow2(n) && n <= i
    ensures !Bit(x, i)
  {
    if i != 0 {
      SmallBits(x / 2, if n == 0 then 0 else n - 1, i - 1);
    }
  }

  /** Words with the same bits are equal. */
  lemma {:induction false} BitExt(x: nat, y: nat)
    requires forall i: nat :: Bit(x, i) == Bit(y, i)
    ensures x == y
    decreases x + y
  {
    assert Bit(x, 0) == Bit(y, 0);
    if x != 0 || y != 0 {
      forall i: nat ensures Bit(x / 2, i) == Bit(y / 2, i) {
        assert Bit(x, i + 1) == Bit(y, i + 1);
      }
      BitExt(x / 2, y / 2);
    }
  }

  lemma {:induction false} BelowPow2(x: nat, n: nat)
    requires forall i: nat :: i >= n ==> !Bit(x, i)
    ensures x < Pow2(n)
  {
    forall i: nat ensures Bit(x % Pow2(n), i) == Bit(x, i) {
      BitOfMod(x, n, i);
    }
    BitExt(x % Pow2(n), x);
  }

  lemma {:induction false} BitOfZero(i: nat)
    ensures !Bit(0, i)
  {
    if i != 0 { BitOfZero(i - 1); }
  }

  lemma {:induction false} BitOfAnd(x: nat, y: nat, i: nat)
    ensures Bit(And(x, y), i) == (Bit(x, i) && Bit(y, i))
  {
    if x == 0 || y == 0 {
      BitOfZero(i);
    } else if i != 0 {
      BitOfAnd(x / 2, y / 2, i - 1);
    }
  }

  lemma {:induction false} BitOfOr(x: nat, y: nat, i: nat)
    ensures Bit(Or(x, y), i) == (Bit(x, i) || Bit(y, i))
  {
    if x == 0 || y == 0 {
      BitOfZero(i);
    } else if i != 0 {
      BitOfOr(x / 2, y / 2, i - 1);
    }
  }

  lemma {:induction false} BitOfXor(x: nat, y: nat, i: nat)
    ensures Bit(Xor(x, y), i) == (Bit(x, i) != Bit(y, i))
  {
    if x == 0 || y == 0 {
      BitOfZero(i);
    } else if i != 0 {
      BitOfXor(x / 2, y / 2, i - 1);
    }
  }

  lemma {:induction false} BitOfOnes(n: nat, i: nat)
    ensures Bit(Pow2(n) - 1, i) == (i < n)
  {
    if n == 0 {
      BitOfZero(i);
    } else if i != 0 {
      BitOfOnes(n - 1, i - 1);
    }
  }

  lemma {:induction false} BitOfNot(w: nat, x: nat, i: nat)
    requires x < Pow2(w)
    ensures Bit(Not(w, x), i) == (i < w && !Bit(x, i))
  {
    if w == 0 {
      BitOfZero(i);
    } else if i != 0 {
      BitOfNot(w - 1, x / 2, i - 1);
    }
  }

  /** The mask of bits hi..lo is 2^(hi+1) - 2^lo. */
  lemma {:induction false} BitOfMask(hi: nat, lo: nat, i: nat)
    requires lo <= hi + 1
    ensures Pow2(lo) <= Pow2(hi + 1)
    ensures Bit(Pow2(hi + 1) - Pow2(lo), i) == (lo <= i <= hi)
  {
    Pow2Monotone(lo, hi + 1);
    Pow2Add(hi + 1 - lo, lo);
    var ones := Pow2(hi + 1 - lo) - 1;
    assert Pow2(hi + 1) - Pow2(lo) == ones * Pow2(lo) + 0;
    BitOfConcat(ones, 0, lo, i);
    BitOfZero(i);
    if i >= lo { BitOfOnes(hi + 1 - lo, i - lo); }
  }

  lemma {:induction false} BitOfShl(w: nat, x: nat, n: nat, i: nat)
    ensures Bit(Shl(w, x, n), i) == (n <= i < w && Bit(x, i - n))
  {
    BitOfMod(x * Pow2(n), w, i);
    assert x * Pow2(n) == x * Pow2(n) + 0;
    BitOfConcat(x, 0, n, i);
    BitOfZero(i);
  }

  lemma {:induction false} DivDiv(x: nat, a: nat, b: nat)
    requires a > 0 && b > 0
    ensures a * b > 0 && x / (a * b) == (x / a) / b
  {
    DivMod(x, a);
    DivMod(x / a, b);
    var q, r := (x / a) / b, (x / a) % b;
    assert x == q * (a * b) + (a * r + x % a) by {
      assert x == (q * b + r) * a + x % a;
      assert (q * b) * a == q * (a * b);
    }
    assert a * r + x % a < a * b by {
      MulAtLeast(b - r, a);
      assert a * b == a * r + (b - r) * a;
    }
    DivUnique(x, a * b, q, a * r + x % a);
  }

  lemma {:induction false} ModSplit(v: nat, a: nat, b: nat)
    requires a > 0 && b > 0
    ensures a * b > 0 && v % (a * b) == v % a + a * ((v / a) % b)
  {
    DivMod(v, a);
    DivMod(v / a, b);
    var q, r := (v / a) / b, (v / a) % b;
    assert v == q * (a * b) + (v % a + a * r) by {
      assert v == (q * b + r) * a + v % a;
      assert (q * b) * a == q * (a * b);
    }
    assert v % a + a * r < a * b by {
      MulAtLeast(b - r, a);
      assert a * b == a * r + (b - r) * a;
    }
    DivUnique(v, a * b, q, v % a + a * r);
  }

  lemma {:induction false} ModShift(x: nat, d: nat, m: nat)
    requires m > 0
    ensures (x % m + d) % m == (x + d) % m
  {
    DivMod(x, m);
    var y := x % m + d;
    DivMod(y, m);
    assert x + d == (x / m + y / m) * m + y % m;
    DivUnique(x + d, m, x / m + y / m, y % m);
  }

  lemma {:induction false} Pow2Zero()
    ensures Pow2(0) == 1
  {
  }

  lemma {:induction false} Pow2Small()
    ensures Pow2(1) == 2 && Pow2(2) == 4 && Pow2(4) == 16 && Pow2(8) == 256
  {
    assert Pow2(3) == 2 * Pow2(2) && Pow2(5) == 2 * Pow2(4) && Pow2(6) == 2 * Pow2(5) && Pow2(7) == 2 * Pow2(6);
  }

  lemma {:induction false} Pow2Values()
    ensures Pow2(2) == 4 && Pow2(6) == 64 && Pow2(8) == 256 && Pow2(9) == 512 && Pow2(10) == 1024 && Pow2(12) == 4096
    ensures Pow2(32) == 0x1_0000_0000 && Pow2(44) == 0x1000_0000_0000 && Pow2(64) == 0x1_0000_0000_0000_0000
  {
    hide Pow2;
    Pow2Small();
    Pow2Add(4, 2);
    Pow2Add(8, 1);
    Pow2Add(8, 2);
    Pow2Add(8, 4);
    Pow2Add(8, 8);
    Pow2Add(16, 16);
    Pow2Add(32, 12);
    Pow2Add(32, 32);
  }

  // ---------------------------------------------------------------- getBitField / setBitField

  /** getBitField<UInt> for an unpromoted W-bit UInt (32 and 64 bits). */
  function GetBitField(w: nat, hi: nat, lo: nat, value: nat): nat
    requires lo <= hi < w
  {
    var leftShift := w - hi - 1;
    Shr(Shl(w, value, leftShift), leftShift + lo)
  }

  /** setBitField<UInt>, with its wrap of the mask when hi is the top bit. */
  function SetBitField(w: nat, hi: nat, lo: nat, value: nat, field: nat): nat
    requires lo <= hi < w && value < Pow2(w)
  {
    Pow2Monotone(lo, w);
    var hiShift := if hi + 1 == w then 0 else Shl(w, 1, hi + 1);
    var mask := Sub(w, hiShift, Pow2(lo));
    var shifted := And(Shl(w, field, lo), mask);
    Or(And(value, Not(w, mask)), shifted)
  }

  lemma {:induction false} GetBit(w: nat, hi: nat, lo: nat, value: nat, i: nat)
    requires lo <= hi < w
    ensures Bit(GetBitField(w, hi, lo, value), i) == (i <= hi - lo && Bit(value, lo + i))
  {
    var s := w - hi - 1;
    BitOfShr(Shl(w, value, s), s + lo, i);
    BitOfShl(w, value, s, i + (s + lo));
  }

  /** getBitField is the slice of the number between lo and hi. */
  lemma {:induction false} GetValue(w: nat, hi: nat, lo: nat, value: nat)
    requires lo <= hi < w
    ensures GetBitField(w, hi, lo, value) == (value / Pow2(lo)) % Pow2(hi - lo + 1)
  {
    forall i: nat
      ensures Bit(GetBitField(w, hi, lo, value), i) == Bit((value / Pow2(lo)) % Pow2(hi - lo + 1), i)
    {
      GetBit(w, hi, lo, value, i);
      BitOfMod(value / Pow2(lo), hi - lo + 1, i);
      BitOfShr(value, lo, i);
    }
    BitExt(GetBitField(w, hi, lo, value), (value / Pow2(lo)) % Pow2(hi - lo + 1));
  }

  lemma {:induction false} MaskValue(w: nat, hi: nat, lo: nat)
    requires lo <= hi < w
    ensures Pow2(lo) <= Pow2(hi + 1) && Pow2(lo) <= Pow2(w)
    ensures Sub(w, if hi + 1 == w then 0 else Shl(w, 1, hi + 1), Pow2(lo)) == Pow2(hi + 1) - Pow2(lo)
  {
    Pow2Monotone(lo, hi + 1);
    Pow2Monotone(hi + 1, w);
    if hi + 1 < w {
      Pow2Monotone(hi + 2, w);
      assert Shl(w, 1, hi + 1) == Pow2(hi + 1) by {
        DivUnique(1 * Pow2(hi + 1), Pow2(w), 0, Pow2(hi + 1));
      }
      var d := Pow2(hi + 1) - Pow2(lo);
      DivUnique(Pow2(hi + 1) + Pow2(w) - Pow2(lo), Pow2(w), 1, d);
    } else {
      DivUnique(Pow2(w) - Pow2(lo), Pow2(w), 0, Pow2(w) - Pow2(lo));
    }
  }

  /** setBitField replaces exactly the bits hi..lo: get-after-set and the frame in one law. */
  lemma {:induction false} SetBit(w: nat, hi: nat, lo: nat, value: nat, field: nat, i: nat)
    requires lo <= hi < w && value < Pow2(w)
    ensures Bit(SetBitField(w, hi, lo, value, field), i) ==
            if lo <= i <= hi then Bit(field, i - lo) else Bit(value, i)
  {
    MaskValue(w, hi, lo);
    var mask := Pow2(hi + 1) - Pow2(lo);
    Pow2Monotone(hi + 1, w);
    BitOfOr(And(value, Not(w, mask)), And(Shl(w, field, lo), mask), i);
    BitOfAnd(value, Not(w, mask), i);
    BitOfAnd(Shl(w, field, lo), mask, i);
    BitOfNot(w, mask, i);
    BitOfMask(hi, lo, i);
    BitOfShl(w, field, lo, i);
    if i >= w { SmallBits(value, w, i); }
  }

  lemma {:induction false} SetInRange(w: nat, hi: nat, lo: nat, value: nat, field: nat)
    requires lo <= hi < w && value < Pow2(w)
    ensures SetBitField(w, hi, lo, value, field) < Pow2(w)
  {
    var r := SetBitField(w, hi, lo, value, field);
    forall i: nat | i >= w ensures !Bit(r, i) {
      SetBit(w, hi, lo, value, field, i);
      SmallBits(value, w, i);
    }
    BelowPow2(r, w);
  }

  /** Reading the field just written gives the written value truncated to the field. */
  lemma {:induction false} GetAfterSet(w: nat, hi: nat, lo: nat, value: nat, field: nat)
    requires lo <= hi < w && value < Pow2(w)
    ensures GetBitField(w, hi, lo, SetBitField(w, hi, lo, value, field)) == field % Pow2(hi - lo + 1)
  {
    var word := SetBitField(w, hi, lo, value, field);
    var got := GetBitField(w, hi, lo, word);
    forall i: nat ensures Bit(got, i) == Bit(field % Pow2(hi - lo + 1), i) {
      GetBit(w, hi, lo, word, i);
      SetBit(w, hi, lo, value, field, lo + i);
      BitOfMod(field, hi - lo + 1, i);
    }
    BitExt(got, field % Pow2(hi - lo + 1));
  }

  /** A field that does not meet the written one is unchanged. */
  lemma {:induction false} GetFrame(w: nat, hi: nat, lo: nat, value: nat, field: nat, hi2: nat, lo2: nat)
    requires lo <= hi < w && lo2 <= hi2 < w && value < Pow2(w)
    requires hi < lo2 || hi2 < lo
    ensures GetBitField(w, hi2, lo2, SetBitField(w, hi, lo, value, field)) == GetBitField(w, hi2, lo2, value)
  {
    var word := SetBitField(w, hi, lo, value, field);
    var now, before := GetBitField(w, hi2, lo2, word), GetBitField(w, hi2, lo2, value);
    forall i: nat ensures Bit(now, i) == Bit(before, i) {
      GetBit(w, hi2, lo2, word, i);
      GetBit(w, hi2, lo2, value, i);
      SetBit(w, hi, lo, value, field, lo2 + i);
    }
    BitExt(now, before);
  }

  // ---------------------------------------------------------------- the uint8_t instance

  /** maskBits<uint8_t>: the operand is promoted to int, so the left shift drops nothing and
      only the conversion back to eight bits truncates. */
  function MaskBits8(hi: nat, lo: nat, value: nat): nat
    requires lo <= hi < 8 && value < 256
  {
    var leftShift := 8 - hi - 1;
    var got := ((value * Pow2(leftShift)) / Pow2(leftShift + lo)) % 256;
    (got * Pow2(lo)) % 256
  }

  /** Because of that promotion maskBits<uint8_t>(hi, 0, v) masks nothing: it yields v itself,
      which is the promised mask exactly when v already fits. */
  lemma {:induction false} MaskBits8DoesNotMask(hi: nat, value: nat)
    requires hi < 8 && value < 256
    ensures MaskBits8(hi, 0, value) == value
    ensures MaskBits8(hi, 0, value) == value % Pow2(hi + 1) <==> value < Pow2(hi + 1)
  {
    var p := Pow2(8 - hi - 1);
    DivUnique(value * p, p, value, 0);
    DivMod(value, Pow2(hi + 1));
    if value < Pow2(hi + 1) { DivUnique(value, Pow2(hi + 1), 0, value); }
  }

  /** A shift amount of 64 already shows it. */
  lemma {:induction false} MaskBits8Witness()
    ensures MaskBits8(5, 0, 64) == 64
    ensures MaskBits8(5, 0, 64) != 64 % Pow2(6)
  {
    MaskBits8DoesNotMask(5, 64);
  }

  // ---------------------------------------------------------------- signExtend

  function SignExtend(w: nat, signIdx: nat, value: nat): nat
    requires signIdx < w && value < Pow2(w)
  {
    if signIdx == w - 1 then value
    else
      Pow2Monotone(signIdx, w);
      var low := And(value, Pow2(signIdx + 1) - 1);
      Sub(w, Xor(low, Pow2(signIdx)), Pow2(signIdx))
  }

  /** Two's-complement reading of a W-bit word. */
  function Signed(w: nat, value: int): int
    requires w > 0
  {
    var v := value % Pow2(w);
    if v < Pow2(w - 1) then v else v - Pow2(w)
  }

  /** Flipping bit s of a word below 2^(s+1). */
  lemma {:induction false} XorTop(low: nat, s: nat)
    requires low < Pow2(s + 1)
    ensures Xor(low, Pow2(s)) == if low < Pow2(s) then low + Pow2(s) else low - Pow2(s)
  {
    var p := Pow2(s);
    var b, c := if low < p then 0 else 1, if low < p then low else low - p;
    var flipped := (1 - b) * p + c;
    forall i: nat ensures Bit(Xor(low, p), i) == Bit(flipped, i) {
      BitOfXor(low, p, i);
      assert low == b * p + c && p == 1 * p + 0;
      BitOfConcat(b, c, s, i);
      BitOfConcat(1, 0, s, i);
      BitOfConcat(1 - b, c, s, i);
      BitOfZero(i);
      if i > s { BitOfZero(i - s); OneBit(i - s); }
    }
    BitExt(Xor(low, p), flipped);
  }

  lemma {:induction false} OneBit(i: nat)
    requires i > 0
    ensures !Bit(1, i)
  {
    BitOfZero(i - 1);
  }

  lemma {:induction false} AndOnes(value: nat, n: nat)
    ensures And(value, Pow2(n) - 1) == value % Pow2(n)
  {
    forall i: nat ensures Bit(And(value, Pow2(n) - 1), i) == Bit(value % Pow2(n), i) {
      BitOfAnd(value, Pow2(n) - 1, i);
      BitOfOnes(n, i);
      BitOfMod(value, n, i);
    }
    BitExt(And(value, Pow2(n) - 1), value % Pow2(n));
  }

  /** signExtend keeps the two's-complement value of the low signIdx+1 bits. */
  lemma {:induction false} SignExtendValue(w: nat, signIdx: nat, value: nat)
    requires signIdx < w && value < Pow2(w)
    ensures SignExtend(w, signIdx, value) < Pow2(w)
    ensures Signed(w, SignExtend(w, signIdx, value)) == Signed(signIdx + 1, value)
  {
    if signIdx < w - 1 {
      Pow2Monotone(signIdx + 2, w);
      AndOnes(value, signIdx + 1);
      var low := value % Pow2(signIdx + 1);
      XorTop(low, signIdx);
      SignExtendLow(w, signIdx, low);
    }
  }

  lemma {:induction false} SignExtendLow(w: nat, signIdx: nat, low: nat)
    requires signIdx + 1 < w && low < Pow2(signIdx + 1) && Pow2(signIdx + 2) <= Pow2(w)
    ensures var flipped := if low < Pow2(signIdx) then low + Pow2(signIdx) else low - Pow2(signIdx);
            var r := Sub(w, flipped, Pow2(signIdx));
            r < Pow2(w) && Signed(w, r) == if low < Pow2(signIdx) then low else low - Pow2(signIdx + 1)
  {
    var s, q := Pow2(signIdx), Pow2(w);
    Pow2Monotone(signIdx + 1, w - 1);
    if low < s {
      DivUnique(low + q, q, 1, low);
      DivUnique(low, q, 0, low);
    } else {
      DivUnique(low + q - 2 * s, q, 0, low + q - 2 * s);
    }
  }
}
