/** libntp/timespecops.c: seconds and nanoseconds, and their conversion to 64-bit fixed point. */
module Timespec {
  import opened CInt
  import opened Era

  const NS := 1_000_000_000

  datatype Tspec = Tspec(sec: int, nsec: int)

  /** The interval in nanoseconds. */
  function Nanos(x: Tspec): int { x.sec * NS + x.nsec }

  predicate Normal(x: Tspec) { 0 <= x.nsec < NS }

  // ----- normalisation

  /** normalize_tspec by division */
  function Normalize(x: Tspec): Tspec {
    if x.nsec < 0 || x.nsec >= NS then
      var quot, rem := Div(x.nsec, NS), Mod(x.nsec, NS);
      if rem < 0 then Tspec(x.sec + quot - 1, rem + NS) else Tspec(x.sec + quot, rem)
    else x
  }

  /** normalize_tspec by repeated addition or subtraction: the same result. */
  method NormalizeLoop(x: Tspec) returns (r: Tspec)
    ensures r == Normalize(x)
  {
    r := x;
    if r.nsec < 0 {
      r := Tspec(r.sec - 1, r.nsec + NS);
      while r.nsec < 0
        invariant Nanos(r) == Nanos(x) && r.nsec < NS
        decreases -r.nsec
      {
        r := Tspec(r.sec - 1, r.nsec + NS);
      }
    } else if r.nsec >= NS {
      r := Tspec(r.sec + 1, r.nsec - NS);
      while r.nsec >= NS
        invariant Nanos(r) == Nanos(x) && r.nsec >= 0
        decreases r.nsec
      {
        r := Tspec(r.sec + 1, r.nsec - NS);
      }
    }
    NormalizeIs(x);
    NormalIsUnique(r, Normalize(x));
  }

  /** Normalising keeps the interval. */
  lemma NormalizeIs(x: Tspec)
    ensures Normal(Normalize(x)) && Nanos(Normalize(x)) == Nanos(x) && (Normal(x) ==> Normalize(x) == x)
  {
    FloorDiv(x.nsec, NS);
  }

  /** No two normalised values stand for the same interval. */
  lemma NormalIsUnique(a: Tspec, b: Tspec)
    requires Normal(a) && Normal(b) && Nanos(a) == Nanos(b)
    ensures a == b
  {
  }

  // ----- arithmetic

  function Add(a: Tspec, b: Tspec): Tspec { Normalize(Tspec(a.sec + b.sec, a.nsec + b.nsec)) }
  function AddNs(a: Tspec, b: int): Tspec { Normalize(Tspec(a.sec, a.nsec + b)) }
  function Sub(a: Tspec, b: Tspec): Tspec { Normalize(Tspec(a.sec - b.sec, a.nsec - b.nsec)) }
  function SubNs(a: Tspec, b: int): Tspec { Normalize(Tspec(a.sec, a.nsec - b)) }
  function Neg(a: Tspec): Tspec { Normalize(Tspec(-a.sec, -a.nsec)) }

  function Abs(a: Tspec): Tspec {
    var c := Normalize(a);
    if c.sec < 0 then
      (if c.nsec != 0 then Tspec(-c.sec - 1, NS - c.nsec) else Tspec(-c.sec, c.nsec))
    else c
  }

  function Sign(x: int): int { if x > 0 then 1 else if x < 0 then -1 else 0 }

  /** cmp_tspec, for normalised arguments */
  function Cmp(a: Tspec, b: Tspec): int {
    if a.sec != b.sec then Sign(a.sec - b.sec) else Sign(a.nsec - b.nsec)
  }

  function CmpDenorm(a: Tspec, b: Tspec): int { Cmp(Normalize(a), Normalize(b)) }

  /** test_tspec, for a normalised argument */
  function Test(a: Tspec): int {
    if a.sec != 0 then Sign(a.sec) else if a.nsec > 0 then 1 else 0
  }

  function TestDenorm(a: Tspec): int { Test(Normalize(a)) }

  /** Every operation gives the normalised form of what it does to the intervals. */
  lemma ArithmeticIs(a: Tspec, b: Tspec, n: int)
    ensures Normal(Add(a, b)) && Nanos(Add(a, b)) == Nanos(a) + Nanos(b)
    ensures Normal(Sub(a, b)) && Nanos(Sub(a, b)) == Nanos(a) - Nanos(b)
    ensures Normal(AddNs(a, n)) && Nanos(AddNs(a, n)) == Nanos(a) + n
    ensures Normal(SubNs(a, n)) && Nanos(SubNs(a, n)) == Nanos(a) - n
    ensures Normal(Neg(a)) && Nanos(Neg(a)) == -Nanos(a)
  {
    NormalizeIs(Tspec(a.sec + b.sec, a.nsec + b.nsec));
    NormalizeIs(Tspec(a.sec - b.sec, a.nsec - b.nsec));
    NormalizeIs(Tspec(a.sec, a.nsec + n));
    NormalizeIs(Tspec(a.sec, a.nsec - n));
    NormalizeIs(Tspec(-a.sec, -a.nsec));
  }

  lemma AbsIs(a: Tspec)
    ensures Normal(Abs(a)) && Nanos(Abs(a)) == if Nanos(a) < 0 then -Nanos(a) else Nanos(a)
  {
    NormalizeIs(a);
  }

  /** Comparison of normalised values, and of any after normalising, is that of the intervals. */
  lemma ComparisonIs(a: Tspec, b: Tspec)
    ensures Normal(a) && Normal(b) ==> Cmp(a, b) == Sign(Nanos(a) - Nanos(b)) && Test(a) == Sign(Nanos(a))
    ensures CmpDenorm(a, b) == Sign(Nanos(a) - Nanos(b)) && TestDenorm(a) == Sign(Nanos(a))
  {
    NormalizeIs(a);
    NormalizeIs(b);
    NormalOrder(Normalize(a), Normalize(b));
    if Normal(a) && Normal(b) { NormalOrder(a, b); }
  }

  lemma NormalOrder(a: Tspec, b: Tspec)
    requires Normal(a) && Normal(b)
    ensures Cmp(a, b) == Sign(Nanos(a) - Nanos(b)) && Test(a) == Sign(Nanos(a))
  {
  }

  // ----- fixed point

  /** FTOTVN: a binary fraction to nanoseconds, rounded. */
  function FracToNs(f: int): int { I32(U64(U64(f * NS) + TWO31) / TWO32) }

  /** TVNTOF: nanoseconds to a binary fraction, rounded. */
  function NsToFrac(n: int): int { U32(U64(U64(n * TWO32) + NS / 2) / NS) }

  function LfpInit(sec: int, frac: int): int { U32(sec) * TWO32 + U32(frac) }

  function IntvToLfp(x: Tspec): int {
    var v := Normalize(x);
    LfpInit(I32(v.sec), NsToFrac(v.nsec))
  }

  function StampToLfp(x: Tspec): int { U64(IntvToLfp(x) + U64(JAN_1970 * TWO32)) }

  function LfpToIntv(x: int): Tspec {
    if x / TWO32 >= TWO31 then
      var absx := U64(-x);
      Normalize(Tspec(-I32(absx / TWO32), -FracToNs(absx % TWO32)))
    else Tspec(I32(x / TWO32), FracToNs(x % TWO32))
  }

  function LfpToStamp(x: int, pivot: int): Tspec {
    Tspec(I64(NtpToTime(x / TWO32, pivot)), FracToNs(x % TWO32))
  }

  predicate Lfp(x: int) { 0 <= x < TWO64 }

  // ----- how close the conversions are

  /** `g` units of 2^-32 s are `n` nanoseconds, to the nearest unit. */
  predicate NearUnit(g: int, n: int) { -NS / 2 <= g * NS - n * TWO32 <= NS / 2 }

  /** `n` nanoseconds are `v` units of 2^-32 s, to the nearest nanosecond. */
  predicate NearNano(n: int, v: int) { -TWO31 <= n * TWO32 - v * NS <= TWO31 }

  lemma NsToFracIs(n: int)
    requires 0 <= n < NS
    ensures var f := NsToFrac(n); 0 <= f < TWO32 && NearUnit(f, n) && (f == 0 <==> n == 0) && f <= TWO32 - 4
  {
    var q := (n * TWO32 + NS / 2) / NS;
    assert 0 <= n * TWO32 + NS / 2 < TWO64;
    assert q * NS <= n * TWO32 + NS / 2 < q * NS + NS;
  }

  lemma FracToNsIs(f: int)
    requires 0 <= f < TWO32
    ensures var n := FracToNs(f); 0 <= n <= NS && NearNano(n, f) && (f <= TWO32 - 4 ==> n < NS)
  {
    var q := (f * NS + TWO31) / TWO32;
    assert 0 <= f * NS + TWO31 < TWO64;
    assert q * TWO32 <= f * NS + TWO31 < q * TWO32 + TWO32;
  }

  /** The fixed-point number before it is cut to 64 bits. */
  function Units(x: Tspec): int { x.sec * TWO32 + NsToFrac(x.nsec) }

  lemma IntvToLfpIs(x: Tspec)
    requires Normal(x)
    ensures NearUnit(Units(x), Nanos(x)) && IntvToLfp(x) == U64(Units(x))
  {
    NormalizeIs(x);
    NsToFracIs(x.nsec);
    Assemble(x.sec, NsToFrac(x.nsec));
  }

  lemma Assemble(sec: int, f: int)
    requires 0 <= f < TWO32
    ensures LfpInit(I32(sec), f) == U64(sec * TWO32 + f)
  {
    var k := sec / TWO32;
    assert U32(I32(sec)) == sec % TWO32;
    DivModUnique(sec * TWO32 + f, TWO64, k, (sec % TWO32) * TWO32 + f);
  }

  /** The number that a 64-bit pattern is read as: two's complement, but 2^63 is positive. */
  function Reading(x: int): int { if x <= TWO63 then x else x - TWO64 }

  lemma LfpToIntvIs(x: int)
    requires Lfp(x)
    ensures NearNano(Nanos(LfpToIntv(x)), Reading(x))
    ensures (Normal(LfpToIntv(x)) || x % TWO32 > TWO32 - 4)
  {
    if x >= TWO63 {
      NegativeIs(x, (TWO64 - x) / TWO32, (TWO64 - x) % TWO32);
    } else {
      FracToNsIs(x % TWO32);
    }
  }

  lemma NegativeIs(x: int, s: int, f: int)
    requires TWO63 <= x < TWO64 && s == (TWO64 - x) / TWO32 && f == (TWO64 - x) % TWO32
    ensures NearNano(Nanos(LfpToIntv(x)), Reading(x)) && Normal(LfpToIntv(x))
  {
    Negated(x);
    FracToNsIs(f);
    NormalizeIs(Tspec(-I32(s), -FracToNs(f)));
    NegativeNear(x, s, f, FracToNs(f));
  }

  lemma Negated(x: int)
    requires TWO63 <= x < TWO64
    ensures U64(-x) == TWO64 - x
  {
  }

  lemma NegativeNear(x: int, s: int, f: int, n: int)
    requires TWO63 <= x < TWO64 && s * TWO32 + f == TWO64 - x && 0 <= f < TWO32 && NearNano(n, f)
    ensures NearNano(-I32(s) * NS - n, Reading(x))
  {
    assert I32(s) == if s == TWO31 then -TWO31 else s;
    if s == TWO31 { assert f == 0 && n == 0; }
  }

  // ----- round trips

  /** From l_fp to timespec and back: at most two units off, modulo 2^64. */
  lemma LfpThereAndBack(x: int) returns (d: int)
    requires Lfp(x)
    ensures -2 <= d <= 2 && IntvToLfp(LfpToIntv(x)) == U64(x + d)
  {
    var t := Normalize(LfpToIntv(x));
    NormalizeIs(LfpToIntv(x));
    LfpToIntvIs(x);
    IntvToLfpIs(t);
    NormalizeIs(t);
    d := Units(t) - Reading(x);
    Within2(Units(t), Nanos(t), Reading(x));
    WrapReading(x, d);
  }

  lemma Within2(g: int, n: int, v: int)
    requires NearUnit(g, n) && NearNano(n, v)
    ensures -2 <= g - v <= 2
  {
  }

  lemma WrapReading(x: int, d: int)
    requires Lfp(x)
    ensures U64(Reading(x) + d) == U64(x + d)
  {
    if x > TWO63 { RestOfSum(x, d, TWO64, -1); }
  }

  /** From timespec to l_fp and back: the identity exactly on intervals
      greater than -2^31 s and at most 2^31 s. */
  lemma IntvThereAndBackIff(x: Tspec)
    requires Normal(x)
    ensures LfpToIntv(IntvToLfp(x)) == x <==> -TWO31 * NS < Nanos(x) <= TWO31 * NS
  {
    var g := Units(x);
    var y := U64(g);
    IntvToLfpIs(x);
    NsToFracIs(x.nsec);
    LfpToIntvIs(y);
    var k := g / TWO64;
    assert g == k * TWO64 + y;
    LowFraction(x.sec, NsToFrac(x.nsec), y, k);
    assert InReach(g) <==> -TWO31 * NS < Nanos(x) <= TWO31 * NS by { Reach(x); }
    if InReach(g) {
      ReadingOf(g);
      SameNanos(g, Nanos(x), Nanos(LfpToIntv(y)));
      NormalIsUnique(x, LfpToIntv(y));
    } else {
      FarNanos(g, Nanos(x), Nanos(LfpToIntv(y)), Reading(y), if y <= TWO63 then k else k + 1);
    }
  }

  /** The one 32-bit interval that does not come back: its sign is lost. */
  lemma LeastIntervalFlips()
    ensures LfpToIntv(IntvToLfp(Tspec(-TWO31, 0))) == Tspec(TWO31, 0)
  {
    assert NsToFrac(0) == 0 && IntvToLfp(Tspec(-TWO31, 0)) == TWO63;
    assert FracToNs(0) == 0;
  }

  predicate InReach(g: int) { -TWO63 < g <= TWO63 }

  lemma Reach(x: Tspec)
    requires Normal(x)
    ensures InReach(Units(x)) <==> -TWO31 * NS < Nanos(x) <= TWO31 * NS
  {
    NsToFracIs(x.nsec);
  }

  lemma LowFraction(sec: int, f: int, y: int, k: int)
    requires sec * TWO32 + f == k * TWO64 + y && 0 <= f < TWO32 && 0 <= y < TWO64
    ensures y % TWO32 == f
  {
    DivModUnique(y, TWO32, sec - k * TWO32, f);
  }

  lemma ReadingOf(g: int)
    requires InReach(g)
    ensures Reading(U64(g)) == g
  {
  }

  lemma SameNanos(g: int, n: int, m: int)
    requires NearUnit(g, n) && NearNano(m, g)
    ensures m == n
  {
  }

  lemma FarNanos(g: int, n: int, m: int, v: int, k: int)
    requires NearUnit(g, n) && NearNano(m, v) && !InReach(g) && InReach(v) && g == v + k * TWO64
    ensures m != n
  {
  }

  /** A time stamp comes back exactly when its seconds are within half an era of the pivot,
      in 64-bit arithmetic. */
  lemma StampThereAndBackIff(x: Tspec, pivot: int)
    requires Normal(x) && -TWO63 <= x.sec < TWO63 && -TWO63 <= pivot < TWO63
    ensures LfpToStamp(StampToLfp(x), pivot) == x <==> U64(x.sec - pivot + TWO31) < TWO32
  {
    StampBack(x, pivot);
    SecondsFound(x.sec, pivot);
  }

  lemma StampBack(x: Tspec, pivot: int)
    requires Normal(x) && -TWO63 <= pivot < TWO63
    ensures LfpToStamp(StampToLfp(x), pivot) == Tspec(SecondsOf(x.sec, pivot), x.nsec)
  {
    StampToLfpIs(x);
    FracAndBack(x.nsec);
    ToStamp(U32(x.sec + JAN_1970), NsToFrac(x.nsec), pivot);
  }

  /** The seconds that come back. */
  function SecondsOf(sec: int, pivot: int): int { I64(U64(Unfold(U32(sec + JAN_1970) - JAN_1970, pivot))) }

  lemma SecondsFound(sec: int, pivot: int)
    requires -TWO63 <= sec < TWO63
    ensures SecondsOf(sec, pivot) == sec <==> U64(sec - pivot + TWO31) < TWO32
  {
    AddCongruent(U32(sec + JAN_1970), sec + JAN_1970, -JAN_1970);
    SecondsBack(sec, Unfold(U32(sec + JAN_1970) - JAN_1970, pivot), pivot);
  }

  lemma StampToLfpIs(x: Tspec)
    requires Normal(x)
    ensures StampToLfp(x) == U32(x.sec + JAN_1970) * TWO32 + NsToFrac(x.nsec)
  {
    FracAndBack(x.nsec);
    IntvToLfpIs(x);
    StampParts(x.sec, NsToFrac(x.nsec));
  }

  lemma FracAndBack(n: int)
    requires 0 <= n < NS
    ensures 0 <= NsToFrac(n) < TWO32 && FracToNs(NsToFrac(n)) == n
  {
    var f := NsToFrac(n);
    NsToFracIs(n);
    FracToNsIs(f);
    SameNanos(f, n, FracToNs(f));
  }

  lemma ToStamp(s: int, f: int, pivot: int)
    requires 0 <= s < TWO32 && 0 <= f < TWO32 && -TWO63 <= pivot < TWO63
    ensures LfpToStamp(s * TWO32 + f, pivot) == Tspec(I64(U64(Unfold(s - JAN_1970, pivot))), FracToNs(f))
  {
    DivModUnique(s * TWO32 + f, TWO32, s, f);
    UnfoldsAroundPivot(s, pivot);
  }

  lemma StampParts(sec: int, f: int)
    requires 0 <= f < TWO32
    ensures U64(U64(sec * TWO32 + f) + U64(JAN_1970 * TWO32)) == U32(sec + JAN_1970) * TWO32 + f
  {
    U64Sum(sec * TWO32 + f, JAN_1970 * TWO32);
    var k := (sec + JAN_1970) / TWO32;
    DivModUnique((sec + JAN_1970) * TWO32 + f, TWO64, k, U32(sec + JAN_1970) * TWO32 + f);
  }

  lemma SecondsBack(sec: int, t: int, pivot: int)
    requires -TWO63 <= sec < TWO63 && pivot - TWO31 <= t < pivot + TWO31 && t % TWO32 == sec % TWO32
    ensures I64(U64(t)) == sec <==> U64(sec - pivot + TWO31) < TWO32
  {
    if U64(sec - pivot + TWO31) < TWO32 {
      var k := (sec - pivot + TWO31) / TWO64;
      NearPivot(sec, t, pivot, k);
      SameBits(t, sec, k);
    }
    if I64(U64(t)) == sec {
      var j := SameSigned(t, sec);
      RestOfSum(t - pivot, TWO31, TWO64, -j);
      DivModUnique(t - pivot + TWO31, TWO64, 0, t - pivot + TWO31);
    }
  }

  lemma NearPivot(sec: int, t: int, pivot: int, k: int)
    requires pivot - TWO31 <= t < pivot + TWO31 && t % TWO32 == sec % TWO32
    requires 0 <= sec - pivot + TWO31 - k * TWO64 < TWO32
    ensures t == sec - k * TWO64
  {
    var u := sec - k * TWO64;
    RestOfSum(sec, 0, TWO32, -k * TWO32);
    assert sec + 0 + (-k * TWO32) * TWO32 == u;
    UnfoldIsUnique(t, pivot, u);
    UnfoldIsUnique(t, pivot, t);
  }

  lemma SameBits(t: int, sec: int, k: int)
    requires -TWO63 <= sec < TWO63 && t == sec - k * TWO64
    ensures I64(U64(t)) == sec
  {
    RestOfSum(sec, 0, TWO64, -k);
  }

  lemma SameSigned(t: int, sec: int) returns (j: int)
    requires I64(U64(t)) == sec
    ensures t - sec == j * TWO64
  {
    var k := t / TWO64;
    j := if U64(t) < TWO63 then k else k + 1;
  }

  /** A 64-bit time stamp comes back with at most two units of error, modulo 2^64. */
  lemma LfpStampThereAndBack(x: int, pivot: int) returns (d: int)
    requires Lfp(x) && -TWO63 <= pivot < TWO63
    ensures -2 <= d <= 2 && StampToLfp(LfpToStamp(x, pivot)) == U64(x + d)
  {
    var s, f := x / TWO32, x % TWO32;
    ToStamp(s, f, pivot);
    var sec, n := I64(U64(Unfold(s - JAN_1970, pivot))), FracToNs(f);
    FracToNsIs(f);
    StampBase(x, sec, Unfold(s - JAN_1970, pivot));
    d := BackFrom(x, sec, f, n);
  }

  lemma BackFrom(x: int, sec: int, f: int, n: int) returns (d: int)
    requires Lfp(x) && f == x % TWO32 && NearNano(n, f) && sec % TWO32 == (x / TWO32 - JAN_1970) % TWO32
    ensures -2 <= d <= 2 && StampToLfp(Tspec(sec, n)) == U64(x + d)
  {
    var t := Normalize(Tspec(sec, n));
    NormalizeIs(Tspec(sec, n));
    NormalizeIs(t);
    IntvToLfpIs(t);
    var v := sec * TWO32 + f;
    d := Units(t) - v;
    Within2(Units(t), Nanos(t), v);
    U64Sum(Units(t), U64(JAN_1970 * TWO32));
    DivModUnique(v, TWO32, sec, f);
    StampWrap(x, v, d);
  }

  /** The seconds found are those of the stamp, in Unix time, modulo 2^32. */
  lemma StampBase(x: int, sec: int, t: int)
    requires Lfp(x) && sec == I64(U64(t)) && t % TWO32 == (x / TWO32 - JAN_1970) % TWO32
    ensures sec % TWO32 == (x / TWO32 - JAN_1970) % TWO32
  {
    LowBits(t);
    LowBits(sec);
    assert U64(sec) == U64(t);
  }

  lemma StampWrap(x: int, v: int, d: int)
    requires Lfp(x) && v % TWO32 == x % TWO32 && (v / TWO32) % TWO32 == (x / TWO32 - JAN_1970) % TWO32
    ensures U64(v + d + U64(JAN_1970 * TWO32)) == U64(x + d)
  {
    var a, b := v / TWO32, x / TWO32;
    var k := a / TWO32 - (b - JAN_1970) / TWO32;
    assert a == b - JAN_1970 + k * TWO32;
    assert v + JAN_1970 * TWO32 == x + k * TWO64;
    RestOfSum(x, d, TWO64, k);
  }
}
