/** Doubling in GF(2^128) on two 64-bit words, as dbl in libaes_siv/aes_siv.c does it. */
module Gf128 {
  import opened Polynomial

  /** The high word of the double. */
  function DblHigh(high: bv64, low: bv64): bv64 {
    (high << 1) | ((low & 0x8000_0000_0000_0000) >> 63)
  }

  /** The low word of the double: the mask is made from the carry without a branch. */
  function DblLow(high: bv64, low: bv64): bv64 {
    (low << 1) ^ ((0 - ((high & 0x8000_0000_0000_0000) >> 63)) & 0x87)
  }

  /** The 128-bit string of two words. */
  function Value(high: bv64, low: bv64): bv128 {
    ((high as bv128) << 64) | (low as bv128)
  }

  /** Doubling as section 2.3 of RFC 5297 puts it. */
  function ShiftAndReduce(v: bv128): bv128 {
    if v & 0x80000000_00000000_00000000_00000000 != 0 then (v << 1) ^ 0x87 else v << 1
  }

  predicate TopSet(v: bv128) {
    v & 0x80000000_00000000_00000000_00000000 != 0
  }

  // ----- blocks as polynomials

  /** Bit `k` of a block, the lowest being bit zero. */
  predicate Has(v: bv128, k: nat) {
    if k == 0 then v & 1 != 0 else Has(v >> 1, k - 1)
  }

  /** The polynomial of a block: its bits are the coefficients, the constant term lowest. */
  function Exponents(v: bv128): Poly {
    set k | 0 <= k < 128 && Has(v, k)
  }

  lemma {:induction false} HasNone(k: nat)
    ensures !Has(0, k)
  {
    if k > 0 {
      assert 0 as bv128 >> 1 == 0;
      HasNone(k - 1);
    }
  }

  predicate IsXor(c: bv128, a: bv128, b: bv128) {
    c == a ^ b
  }

  lemma {:induction false} HasXor(c: bv128, a: bv128, b: bv128, k: nat)
    requires IsXor(c, a, b)
    ensures Has(c, k) <==> (Has(a, k) != Has(b, k))
    decreases k
  {
    if k == 0 {
      LowXor(c, a, b);
    } else {
      ShiftXor(c, a, b);
      HasXor(c >> 1, a >> 1, b >> 1, k - 1);
      HalvesDecide(c, a, b, k);
    }
  }

  lemma HalvesDecide(c: bv128, a: bv128, b: bv128, k: nat)
    requires k > 0 && (Has(c >> 1, k - 1) <==> (Has(a >> 1, k - 1) != Has(b >> 1, k - 1)))
    ensures Has(c, k) <==> (Has(a, k) != Has(b, k))
  {
  }

  lemma LowXor(c: bv128, a: bv128, b: bv128)
    requires IsXor(c, a, b)
    ensures Has(c, 0) <==> (Has(a, 0) != Has(b, 0))
  {
  }

  lemma ShiftXor(c: bv128, a: bv128, b: bv128)
    requires IsXor(c, a, b)
    ensures IsXor(c >> 1, a >> 1, b >> 1)
  {
  }

  // Several bits down at once.

  lemma Down2(v: bv128, k: nat)
    ensures Has(v, k + 2) <==> Has(v >> 2, k)
  {
    assert (v >> 1) >> 1 == v >> 2;
  }

  lemma Down4(v: bv128, k: nat)
    ensures Has(v, k + 4) <==> Has(v >> 4, k)
  {
    Down2(v, k + 2);
    Down2(v >> 2, k);
    assert (v >> 2) >> 2 == v >> 4;
  }

  lemma Down8(v: bv128, k: nat)
    ensures Has(v, k + 8) <==> Has(v >> 8, k)
  {
    Down4(v, k + 4);
    Down4(v >> 4, k);
    assert (v >> 4) >> 4 == v >> 8;
  }

  lemma Down16(v: bv128, k: nat)
    ensures Has(v, k + 16) <==> Has(v >> 16, k)
  {
    Down8(v, k + 8);
    Down8(v >> 8, k);
    assert (v >> 8) >> 8 == v >> 16;
  }

  lemma Down32(v: bv128, k: nat)
    ensures Has(v, k + 32) <==> Has(v >> 32, k)
  {
    Down16(v, k + 16);
    Down16(v >> 16, k);
    assert (v >> 16) >> 16 == v >> 32;
  }

  lemma Down64(v: bv128, k: nat)
    ensures Has(v, k + 64) <==> Has(v >> 64, k)
  {
    Down32(v, k + 32);
    Down32(v >> 32, k);
    assert (v >> 32) >> 32 == v >> 64;
  }

  lemma Down96(v: bv128, k: nat)
    ensures Has(v, k + 96) <==> Has(v >> 96, k)
  {
    Down64(v, k + 32);
    Down32(v >> 64, k);
    assert (v >> 64) >> 32 == v >> 96;
  }

  lemma Down112(v: bv128, k: nat)
    ensures Has(v, k + 112) <==> Has(v >> 112, k)
  {
    Down96(v, k + 16);
    Down16(v >> 96, k);
    assert (v >> 96) >> 16 == v >> 112;
  }

  lemma Down120(v: bv128, k: nat)
    ensures Has(v, k + 120) <==> Has(v >> 120, k)
  {
    Down112(v, k + 8);
    Down8(v >> 112, k);
    assert (v >> 112) >> 8 == v >> 120;
  }

  lemma Down126(v: bv128, k: nat)
    ensures Has(v, k + 126) <==> Has(v >> 126, k)
  {
    Down120(v, k + 6);
    Down4(v >> 120, k + 2);
    Down2((v >> 120) >> 4, k);
    assert ((v >> 120) >> 4) >> 2 == v >> 126;
  }

  lemma HasTop(v: bv128)
    ensures Has(v, 127) <==> TopSet(v)
  {
    Down126(v, 1);
    TopAlone(v);
  }

  lemma TopAlone(v: bv128)
    ensures ((v >> 126) >> 1) & 1 != 0 <==> TopSet(v)
  {
  }

  /** A block without further bits below its lowest one. */
  predicate IsPower(p: bv128) {
    p & (p - 1) == 0
  }

  lemma {:induction false} OneBit(p: bv128, j: nat, k: nat)
    requires IsPower(p) && j < k && Has(p, k)
    ensures !Has(p, j)
    decreases j
  {
    if p & 1 != 0 {
      OddPower(p);
      HasNone(k - 1);
    } else if j > 0 {
      EvenPower(p);
      OneBit(p >> 1, j - 1, k - 1);
    }
  }

  lemma OddPower(p: bv128)
    requires IsPower(p) && p & 1 != 0
    ensures p >> 1 == 0
  {
  }

  lemma EvenPower(p: bv128)
    requires IsPower(p) && p & 1 == 0
    ensures IsPower(p >> 1)
  {
  }

  lemma HasShift(v: bv128, k: nat)
    requires k < 128
    ensures Has(v << 1, k) <==> k > 0 && Has(v, k - 1)
  {
    if k == 0 {
      ShiftClearsLow(v);
    } else if TopSet(v) {
      ShiftLosesTop(v);
      HasXor(v ^ TOP, v, TOP, k - 1);
      HasTop(TOP);
      OneBit(TOP, k - 1, 127);
    } else {
      ShiftKeeps(v);
    }
  }

  const TOP: bv128 := 0x80000000_00000000_00000000_00000000

  lemma ShiftClearsLow(v: bv128)
    ensures (v << 1) & 1 == 0
  {
  }

  lemma ShiftLosesTop(v: bv128)
    requires TopSet(v)
    ensures (v << 1) >> 1 == v ^ TOP && IsPower(TOP)
  {
  }

  lemma ShiftKeeps(v: bv128)
    requires !TopSet(v)
    ensures (v << 1) >> 1 == v
  {
  }

  /** The low coefficients of MODULUS. */
  lemma HasLow(k: nat)
    requires k < 128
    ensures Has(0x87, k) <==> k in {7, 2, 1, 0}
  {
    if k >= 8 {
      Down8(0x87, k - 8);
      HasNone(k - 8);
    } else if k >= 4 {
      Down4(0x87, k - 4);
      assert 0x87 as bv128 >> 4 == 8;
      Nibble8(k - 4);
    } else {
      Nibble7(k);
    }
  }

  lemma Nibble8(k: nat)
    requires k < 4
    ensures Has(8, k) <==> k == 3
  {
    if k >= 2 { Down2(8, k - 2); }
  }

  lemma Nibble7(k: nat)
    requires k < 4
    ensures Has(0x87, k) <==> k < 3
  {
    if k >= 2 { Down2(0x87, k - 2); }
  }

  // ----- doubling is multiplication by x

  lemma Reduces(v: bv128)
    requires v & 0x80000000_00000000_00000000_00000000 != 0
    ensures ShiftAndReduce(v) == (v << 1) ^ 0x87
  {
  }

  lemma Shifts(v: bv128)
    requires v & 0x80000000_00000000_00000000_00000000 == 0
    ensures ShiftAndReduce(v) == v << 1
  {
  }

  /** The coefficients of the double. */
  lemma DoubleHas(v: bv128, k: nat)
    requires k < 128
    ensures Has(ShiftAndReduce(v), k) <==> ((k > 0 && Has(v, k - 1)) != (Has(v, 127) && k in {7, 2, 1, 0}))
  {
    HasTop(v);
    HasShift(v, k);
    if TopSet(v) {
      Reduces(v);
      HasXor(ShiftAndReduce(v), v << 1, 0x87, k);
      HasLow(k);
    } else {
      Shifts(v);
    }
  }

  /** Doubling is multiplication by x in GF(2^128): the remainder of the product modulo MODULUS. */
  lemma DoublingIsTimesX(v: bv128)
    ensures IsRemainder(X, Exponents(v), Exponents(ShiftAndReduce(v)))
  {
    var a, r := Exponents(v), Exponents(ShiftAndReduce(v));
    var q: Poly := if 127 in a then ONE else {};
    forall k: nat ensures InProduct(X, a, k) <==> (InProduct(q, MODULUS, k) != (k in r)) {
      TimesX(a, k);
      TimesOne(MODULUS, k);
      TimesZero(MODULUS, k);
      if k < 128 { DoubleHas(v, k); }
    }
    assert IsQuotient(X, a, r, q);
  }

  // ----- the words compute the doubling

  lemma MaskSet(high: bv64)
    requires high & 0x8000_0000_0000_0000 != 0
    ensures (0 - ((high & 0x8000_0000_0000_0000) >> 63)) & 0x87 == 0x87
  {
  }

  lemma MaskClear(high: bv64)
    requires high & 0x8000_0000_0000_0000 == 0
    ensures (0 - ((high & 0x8000_0000_0000_0000) >> 63)) & 0x87 == 0
  {
  }

  lemma LowSet(high: bv64, low: bv64)
    requires high & 0x8000_0000_0000_0000 != 0
    ensures DblLow(high, low) == (low << 1) ^ 0x87
  {
    MaskSet(high);
  }

  lemma LowClear(high: bv64, low: bv64)
    requires high & 0x8000_0000_0000_0000 == 0
    ensures DblLow(high, low) == low << 1
  {
    MaskClear(high);
  }

  lemma TopBit(high: bv64, low: bv64)
    ensures TopSet(Value(high, low)) <==> high & 0x8000_0000_0000_0000 != 0
  {
  }

  lemma ShiftOnly(high: bv64, low: bv64)
    ensures Value((high << 1) | ((low & 0x8000_0000_0000_0000) >> 63), low << 1) == Value(high, low) << 1
  {
  }

  lemma ShiftOut(high: bv64, low: bv64)
    ensures Value((high << 1) | ((low & 0x8000_0000_0000_0000) >> 63), (low << 1) ^ 0x87) == (Value(high, low) << 1) ^ 0x87
  {
  }

  lemma DblSet(high: bv64, low: bv64)
    requires high & 0x8000_0000_0000_0000 != 0
    ensures Value(DblHigh(high, low), DblLow(high, low)) == (Value(high, low) << 1) ^ 0x87
  {
    LowSet(high, low);
    ShiftOut(high, low);
  }

  lemma DblClear(high: bv64, low: bv64)
    requires high & 0x8000_0000_0000_0000 == 0
    ensures Value(DblHigh(high, low), DblLow(high, low)) == Value(high, low) << 1
  {
    LowClear(high, low);
    ShiftOnly(high, low);
  }

  lemma SetShifts(high: bv64, low: bv64)
    requires high & 0x8000_0000_0000_0000 != 0
    ensures Value(DblHigh(high, low), DblLow(high, low)) == ShiftAndReduce(Value(high, low))
  {
    DblSet(high, low);
    TopBit(high, low);
    Reduces(Value(high, low));
  }

  lemma ClearShifts(high: bv64, low: bv64)
    requires high & 0x8000_0000_0000_0000 == 0
    ensures Value(DblHigh(high, low), DblLow(high, low)) == ShiftAndReduce(Value(high, low))
  {
    DblClear(high, low);
    TopBit(high, low);
    Shifts(Value(high, low));
  }

  /** dbl on two words computes the doubling of RFC 5297. */
  lemma DblShifts(high: bv64, low: bv64)
    ensures Value(DblHigh(high, low), DblLow(high, low)) == ShiftAndReduce(Value(high, low))
  {
    if high & 0x8000_0000_0000_0000 != 0 { SetShifts(high, low); } else { ClearShifts(high, low); }
  }

  // ----- the way back

  function HalfHigh(high: bv64, low: bv64): bv64 {
    (high >> 1) | ((low & 1) << 63)
  }

  function HalfLow(high: bv64, low: bv64): bv64 {
    ((low ^ (if low & 1 != 0 then 0x87 else 0)) >> 1) | ((high & 1) << 63)
  }

  /** Halving undoes doubling. */
  lemma HalfOfDouble(high: bv64, low: bv64)
    ensures HalfHigh(DblHigh(high, low), DblLow(high, low)) == high
    ensures HalfLow(DblHigh(high, low), DblLow(high, low)) == low
  {
  }

  /** No two values have the same double. */
  lemma DblWordsInjective(h1: bv64, l1: bv64, h2: bv64, l2: bv64)
    requires DblHigh(h1, l1) == DblHigh(h2, l2) && DblLow(h1, l1) == DblLow(h2, l2)
    ensures h1 == h2 && l1 == l2
  {
    HalfOfDouble(h1, l1);
    HalfOfDouble(h2, l2);
  }
}
