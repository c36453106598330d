/** Unfolding of truncated values around a pivot, as libntp/ntp_calendar.c does it. */
module Era {
  import opened CInt

  const JAN_1970 := 2208988800

  // ----- ntpcal_periodic_extend

  /** The absolute difference, as an unsigned number. */
  function Difference(pivot: int, value: int): int {
    if value >= pivot then U32(U32(value) - U32(pivot)) else U32(U32(pivot) - U32(value))
  }

  /** The step from the pivot for a rest `d` of the difference: complemented or negated as needed. */
  function StepBy(d: int, c: int, cpl: bool, neg: bool): int {
    var d1 := if cpl then c - d else d;
    I32(if neg then U32(TWO32 - 1 - d1 + 1) else d1)
  }

  /** ntpcal_periodic_extend */
  function PeriodicExtend(pivot: int, value: int, cycle: int): int {
    var c := if cycle < 0 then I32(-cycle) else cycle;
    if c > 1 then
      var d := Difference(pivot, value) % c;
      if d != 0 then pivot + StepBy(d, c, (cycle < 0) != (value < pivot), cycle < 0) else pivot
    else pivot
  }

  predicate Int32(x: int) {
    -TWO31 <= x < TWO31
  }

  lemma UnsignedDifference(a: int, b: int)
    requires Int32(a) && Int32(b) && a >= b
    ensures U32(U32(a) - U32(b)) == a - b
  {
  }

  lemma RestOfSum(p: int, x: int, c: int, k: int)
    requires c > 0
    ensures (p + x + k * c) % c == (p + x) % c
  {
    var q, r := (p + x) / c, (p + x) % c;
    assert p + x + k * c == (q + k) * c + r;
    DivModUnique(p + x + k * c, c, q + k, r);
  }

  /** For a cycle of more than one in size, the result is congruent to the value and
      lies in the cycle that starts at the pivot, in the direction of the cycle; for
      others, and for the one cycle whose negation does not fit, it is the pivot. */
  lemma PeriodicExtendIs(pivot: int, value: int, cycle: int)
    requires Int32(pivot) && Int32(value) && Int32(cycle)
    ensures var r := PeriodicExtend(pivot, value, cycle);
            var c := if cycle < 0 then -cycle else cycle;
            if c <= 1 || cycle == -TWO31 then r == pivot
            else r % c == value % c && if cycle > 0 then pivot <= r < pivot + c else pivot - c < r <= pivot
  {
    var c := if cycle < 0 then -cycle else cycle;
    if c > 1 && cycle != -TWO31 {
      if value >= pivot {
        UnsignedDifference(value, pivot);
        Extended(pivot, value, cycle, value - pivot, c);
      } else {
        UnsignedDifference(pivot, value);
        Extended(pivot, value, cycle, pivot - value, c);
      }
    }
  }

  /** Negation by complement, read as a signed number. */
  lemma StepByIs(d: int, c: int, cpl: bool, neg: bool)
    requires 0 < d < c < TWO31
    ensures StepBy(d, c, cpl, neg) == (var d1 := if cpl then c - d else d; if neg then -d1 else d1)
  {
    var d1 := if cpl then c - d else d;
    Signed(d1);
  }

  lemma Signed(d: int)
    requires 0 < d < TWO31
    ensures I32(U32(TWO32 - 1 - d + 1)) == -d && I32(d) == d
  {
  }

  lemma Extended(pivot: int, value: int, cycle: int, diff: int, c: int)
    requires 1 < c < TWO31 && (cycle == c || cycle == -c) && Difference(pivot, value) == diff
    requires diff == (if value >= pivot then value - pivot else pivot - value)
    ensures var r := PeriodicExtend(pivot, value, cycle);
            (cycle > 0 ==> pivot <= r < pivot + c) && (cycle < 0 ==> pivot - c < r <= pivot) && r % c == value % c
  {
    SmallCycle(c);
    Congruent(pivot, value, diff, c);
    var d := diff % c;
    if d != 0 { StepByIs(d, c, (cycle < 0) != (value < pivot), cycle < 0); }
  }

  lemma SmallCycle(c: int)
    requires 0 < c < TWO31
    ensures I32(c) == c
  {
  }

  /** The four candidates that can be the result are congruent to the value. */
  lemma Congruent(pivot: int, value: int, diff: int, c: int)
    requires c > 1 && diff == (if value >= pivot then value - pivot else pivot - value)
    ensures var d := diff % c;
            if value >= pivot then (pivot + d) % c == value % c && (pivot - (c - d)) % c == value % c
            else (pivot - d) % c == value % c && (pivot + (c - d)) % c == value % c
  {
    var k, d := diff / c, diff % c;
    assert diff == k * c + d;
    if value >= pivot {
      RestOfSum(pivot, d, c, k);
      RestOfSum(pivot + d, 0, c, -1);
      assert pivot + d + k * c == value && pivot + d + 0 + -1 * c == pivot - (c - d);
    } else {
      RestOfSum(pivot, -d, c, -k);
      RestOfSum(pivot - d, 0, c, 1);
      assert pivot + -d + -k * c == value && pivot - d + 0 + 1 * c == pivot + (c - d);
    }
  }

  // ----- ntpcal_ntp_to_time, ntpcal_ntp_to_ntp

  /** The integer congruent to `x` modulo 2^32 within half an era of the pivot. */
  function Unfold(x: int, pivot: int): (t: int)
    ensures pivot - TWO31 <= t < pivot + TWO31 && t % TWO32 == x % TWO32
  {
    pivot - TWO31 + (x - (pivot - TWO31)) % TWO32
  }

  lemma UnfoldIsUnique(x: int, pivot: int, t: int)
    requires pivot - TWO31 <= t < pivot + TWO31 && t % TWO32 == x % TWO32
    ensures t == Unfold(x, pivot)
  {
  }

  /** ntpcal_ntp_to_time, on the 64-bit representation of the result. */
  function NtpToTime(ntp: int, pivot: int): int {
    var res := U64(U64(pivot) - TWO31);
    var n := U32(U32(ntp - JAN_1970) - res % TWO32);
    U64(res + n)
  }

  /** ntpcal_ntp_to_ntp */
  function NtpToNtp(ntp: int, pivot: int): int {
    var res := U64(U64(U64(pivot) - TWO31) + JAN_1970);
    var n := U32(ntp - res % TWO32);
    U64(res + n)
  }

  /** The NTP time is unfolded around the pivot into Unix time, and adding the offset
      between the epochs gives NTP time; both for every pivot, modulo 2^64. */
  lemma UnfoldsAroundPivot(ntp: int, pivot: int)
    requires 0 <= ntp < TWO32 && -TWO63 <= pivot < TWO63
    ensures NtpToTime(ntp, pivot) == U64(Unfold(ntp - JAN_1970, pivot))
    ensures NtpToNtp(ntp, pivot) == U64(Unfold(ntp - JAN_1970, pivot) + JAN_1970)
  {
    UnfoldsToTime(ntp, pivot);
    UnfoldsToNtp(ntp, pivot);
  }

  lemma UnfoldsToTime(ntp: int, pivot: int)
    ensures NtpToTime(ntp, pivot) == U64(Unfold(ntp - JAN_1970, pivot))
  {
    var a, x := pivot - TWO31, ntp - JAN_1970;
    U64Sum(pivot, -TWO31);
    CycleDifference(x, a);
    U64Sum(a, U32(x - a));
  }

  lemma UnfoldsToNtp(ntp: int, pivot: int)
    ensures NtpToNtp(ntp, pivot) == U64(Unfold(ntp - JAN_1970, pivot) + JAN_1970)
  {
    var a, x := pivot - TWO31, ntp - JAN_1970;
    U64Sum(pivot, -TWO31);
    U64Sum(a, JAN_1970);
    CycleDifference(ntp, a + JAN_1970);
    U64Sum(a + JAN_1970, U32(x - a));
  }

  lemma U64Sum(a: int, b: int)
    ensures U64(U64(a) + b) == U64(a + b)
  {
  }

  lemma CycleDifference(x: int, a: int)
    ensures U32(U32(x) - U64(a) % TWO32) == U32(x - a)
    ensures U32(x - U64(a) % TWO32) == U32(x - a)
  {
    LowBits(a);
  }

  /** Congruence modulo 2^32 survives adding the same number. */
  lemma AddCongruent(a: int, b: int, k: int)
    requires a % TWO32 == b % TWO32
    ensures (a + k) % TWO32 == (b + k) % TWO32
  {
    var q := a / TWO32 - b / TWO32;
    assert a + k == b + k + q * TWO32;
    RestOfSum(b + k, 0, TWO32, q);
  }

  /** Wrapping to 64 bits keeps the low 32 bits. */
  lemma LowBits(x: int)
    ensures U64(x) % TWO32 == x % TWO32
  {
    var q := x / TWO64;
    assert x == U64(x) + q * TWO32 * TWO32;
  }
}
