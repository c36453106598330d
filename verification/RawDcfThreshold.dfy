/** libparse/clk_rawdcf.c: the cutoff between short and long pulses. */
module RawDcfThreshold {
  import opened CInt
  import opened RawDcf
  import opened RawDcfPulses

  // ----- the mean lengths on both sides of the average

  function Average(m: seq<char>, size: nat): nat
    requires size <= |m|
  {
    if Lengths(m, size) > 0 then Quotient(LengthSum(m, size), Lengths(m, size)) else 4
  }

  function Quotient(a: nat, b: nat): (q: nat)
    requires b > 0
    ensures q == a / b
  {
    NotNegative(a, b);
    a / b
  }

  lemma NotNegative(a: nat, b: nat)
    requires b > 0
    ensures a / b >= 0
  {
  }

  /** The mean of the lengths up to the average, rounded. */
  function LowMax(h: seq<nat>, avg: nat): nat
    requires avg < |h|
  {
    var c := Count(h, 0, avg + 1);
    if c > 0 then Quotient(Weight(h, 0, avg + 1) + c / 2, c) else 0
  }

  /** The mean of the lengths above the average, truncated. */
  function HighMax(h: seq<nat>, avg: nat): nat
    requires avg < |h|
  {
    var c := Count(h, avg + 1, |h|);
    if c > 0 then Quotient(Weight(h, avg + 1, |h|), c) else |h| - 1
  }

  lemma Cancel(n: int, x: int, y: int)
    requires n > 0 && n * x < n * y
    ensures x < y
  {
    assert n * (y - x) > 0;
  }

  lemma QuotientAtMost(a: nat, b: nat, k: nat)
    requires b > 0 && a <= k * b
    ensures a / b <= k
  {
    var q := a / b;
    assert b * q <= a && b * (k + 1) == k * b + b;
    Cancel(b, q, k + 1);
  }

  lemma {:induction false} SumBound(m: seq<char>, size: nat)
    requires size <= |m|
    ensures LengthSum(m, size) <= 8 * Lengths(m, size)
  {
    if size > 0 { SumBound(m, size - 1); }
  }

  lemma AverageBound(m: seq<char>, size: nat)
    requires size <= |m|
    ensures Average(m, size) < BITS
  {
    SumBound(m, size);
    if Lengths(m, size) > 0 { QuotientAtMost(LengthSum(m, size), Lengths(m, size), 8); }
  }

  lemma {:induction false} WeightBound(h: seq<nat>, lo: nat, hi: nat, k: nat)
    requires lo <= hi <= |h| && hi <= k + 1
    ensures Weight(h, lo, hi) <= k * Count(h, lo, hi)
    decreases hi - lo
  {
    if lo < hi {
      WeightBound(h, lo, hi - 1, k);
      OneMoreEntry(Weight(h, lo, hi - 1), Count(h, lo, hi - 1), h[hi - 1], hi - 1, k);
    }
  }

  lemma OneMoreEntry(w: nat, c: nat, x: nat, i: nat, k: nat)
    requires i <= k && w <= k * c
    ensures w + x * i <= k * (c + x)
  {
    assert k * (c + x) == k * c + x * k;
    Monotone(x, i, k);
  }

  lemma Monotone(x: nat, i: nat, k: nat)
    requires i <= k
    ensures x * i <= x * k
  {
  }

  lemma HighBound(h: seq<nat>, avg: nat)
    requires avg < |h|
    ensures HighMax(h, avg) < |h|
  {
    var c := Count(h, avg + 1, |h|);
    WeightBound(h, avg + 1, |h|, |h| - 1);
    if c > 0 { QuotientAtMost(Weight(h, avg + 1, |h|), c, |h| - 1); }
  }

  /** The loops over both parts of the histogram. */
  method LowLoop(hist: array<nat>, avg: nat) returns (lowmax: nat, i: nat)
    requires avg < hist.Length
    ensures lowmax == LowMax(hist[..], avg) && i == avg + 1
  {
    lowmax, i := 0, 0;
    var highmax := 0;
    while i <= avg
      invariant 0 <= i <= avg + 1
      invariant lowmax == Weight(hist[..], 0, i) && highmax == Count(hist[..], 0, i)
    {
      lowmax := lowmax + hist[i] * i;
      highmax := highmax + hist[i];
      i := i + 1;
    }
    lowmax := lowmax + highmax / 2;
    if highmax != 0 {
      lowmax := Quotient(lowmax, highmax);
    } else {
      lowmax := 0;
    }
  }

  method HighLoop(hist: array<nat>, from: nat) returns (highmax: nat)
    requires 0 < from <= hist.Length
    ensures highmax == HighMax(hist[..], from - 1)
  {
    highmax := 0;
    var cutoff := 0;
    var i := from;
    while i < hist.Length
      invariant from <= i <= hist.Length
      invariant highmax == Weight(hist[..], from, i) && cutoff == Count(hist[..], from, i)
    {
      highmax := highmax + hist[i] * i;
      cutoff := cutoff + hist[i];
      i := i + 1;
    }
    if cutoff != 0 {
      highmax := Quotient(highmax, cutoff);
    } else {
      highmax := hist.Length - 1;
    }
  }

  // ----- the valley between them

  /** The first and the last of the least entries from `lo` to `hi`. */
  predicate Valley(h: seq<nat>, lo: nat, hi: nat, first: nat, last: nat) {
    if lo > hi || hi >= |h| then first == last == lo
    else
      lo <= first <= last <= hi && h[last] == h[first] &&
      forall i :: lo <= i <= hi ==> h[first] <= h[i] && (h[i] == h[first] ==> first <= i <= last)
  }

  method FindValley(hist: array<nat>, lowmax: nat, highmax: nat) returns (cutoff: nat, span: nat)
    requires highmax < hist.Length
    ensures Valley(hist[..], lowmax, highmax, cutoff, span)
  {
    cutoff, span := lowmax, lowmax;
    var i := lowmax;
    while i <= highmax
      invariant lowmax <= i && (i == lowmax || i <= highmax + 1)
      invariant i == lowmax ==> cutoff == span == lowmax
      invariant i > lowmax ==> Valley(hist[..], lowmax, i - 1, cutoff, span)
      decreases highmax + 1 - i
    {
      if hist[cutoff] > hist[i] {
        cutoff, span := i, i;
      } else if hist[cutoff] == hist[i] {
        span := i;
      }
      i := i + 1;
    }
  }

  ghost predicate IsCutoff(h: seq<nat>, avg: nat, cut: nat) {
    avg < |h| && exists f: nat, l: nat :: Valley(h, LowMax(h, avg), HighMax(h, avg), f, l) && cut == (f + l) / 2
  }

  /** From the histogram to the cutoff: the middle of the valley between the two means. */
  method Threshold(hist: array<nat>, n: nat, sum: nat, ghost m: seq<char>, ghost size: nat) returns (cutoff: nat)
    requires hist.Length == BITS && size <= |m| && n == Lengths(m, size) && sum == LengthSum(m, size)
    ensures IsCutoff(hist[..], Average(m, size), cutoff)
  {
    AverageBound(m, size);
    var avg := if n > 0 then Quotient(sum, n) else 4;
    var lowmax, i := LowLoop(hist, avg);
    var highmax := HighLoop(hist, i);
    HighBound(hist[..], avg);
    var span;
    cutoff, span := FindValley(hist, lowmax, highmax);
    cutoff := (cutoff + span) / 2;
  }

  // ----- one length for zeros, one for ones

  /** All bytes are pulses, of two different lengths. */
  predicate TwoLengths(m: seq<char>, size: nat, a: nat, b: nat) {
    size <= |m| && a < b < BITS && Number(m, size, a) > 0 && Number(m, size, b) > 0 && OnlyThese(m, size, a, b)
  }

  predicate OnlyThese(m: seq<char>, size: nat, a: nat, b: nat)
    requires size <= |m|
  {
    forall i :: 0 <= i < size ==> m[i] as int == a || m[i] as int == b
  }

  lemma {:induction false} TwoSums(m: seq<char>, size: nat, a: nat, b: nat)
    requires size <= |m| && a < b < BITS && OnlyThese(m, size, a, b)
    ensures Lengths(m, size) == Number(m, size, a) + Number(m, size, b)
    ensures LengthSum(m, size) == Number(m, size, a) * a + Number(m, size, b) * b
  {
    if size > 0 {
      TwoSums(m, size - 1, a, b);
      OneMore(Number(m, size - 1, a), a);
      OneMore(Number(m, size - 1, b), b);
    }
  }

  lemma OneMore(p: nat, a: nat)
    ensures (p + 1) * a == p * a + a
  {
  }

  lemma {:induction false} NoOthers(m: seq<char>, size: nat, a: nat, b: nat, k: nat)
    requires size <= |m| && OnlyThese(m, size, a, b) && k != a && k != b
    ensures Number(m, size, k) == 0
  {
    if size > 0 { NoOthers(m, size - 1, a, b, k); }
  }

  lemma {:induction false} Occurs(m: seq<char>, size: nat, k: nat) returns (i: nat)
    requires size <= |m| && Number(m, size, k) > 0
    ensures i < size && m[i] as int == k
  {
    if m[size - 1] as int == k { i := size - 1; } else { i := Occurs(m, size - 1, k); }
  }

  /** The average lies between the lengths. */
  lemma Between(p: nat, q: nat, a: nat, b: nat)
    requires p > 0 && q > 0 && a < b
    ensures a <= (p * a + q * b) / (p + q) < b
  {
    var n, s := p + q, p * a + q * b;
    assert s == n * a + q * (b - a) && q * (b - a) > 0;
    assert s == n * b - p * (b - a) && p * (b - a) > 0;
    Floor(s, n, a, b);
  }

  lemma Floor(s: int, n: int, a: int, b: int)
    requires n > 0 && n * a <= s < n * b
    ensures a <= s / n < b
  {
    var q := s / n;
    assert n * q <= s < n * (q + 1);
    assert n * a < n * (q + 1) && n * q < n * b;
    Cancel(n, a, q + 1);
    Cancel(n, q, b);
  }

  /** A histogram with two peaks. */
  predicate TwoPeaks(h: seq<nat>, a: nat, b: nat) {
    a < b < |h| && h[a] > 0 && h[b] > 0 && forall i :: 0 <= i < |h| && i != a && i != b ==> h[i] == 0
  }

  lemma {:induction false} OnePeak(h: seq<nat>, lo: nat, hi: nat, k: nat)
    requires lo <= k < hi <= |h| && forall i :: lo <= i < hi && i != k ==> h[i] == 0
    ensures Count(h, lo, hi) == h[k] && Weight(h, lo, hi) == h[k] * k
    decreases hi - lo
  {
    if k < hi - 1 {
      OnePeak(h, lo, hi - 1, k);
    } else {
      Flat(h, lo, hi - 1);
    }
  }

  lemma {:induction false} Flat(h: seq<nat>, lo: nat, hi: nat)
    requires lo <= hi <= |h| && forall i :: lo <= i < hi ==> h[i] == 0
    ensures Count(h, lo, hi) == 0 && Weight(h, lo, hi) == 0
    decreases hi - lo
  {
    if lo < hi { Flat(h, lo, hi - 1); }
  }

  /** The means are the two lengths. */
  lemma MeansArePeaks(h: seq<nat>, a: nat, b: nat, avg: nat)
    requires TwoPeaks(h, a, b) && a <= avg < b
    ensures LowMax(h, avg) == a && HighMax(h, avg) == b
  {
    OnePeak(h, 0, avg + 1, a);
    OnePeak(h, avg + 1, |h|, b);
    DivModUnique(h[a] * a + h[a] / 2, h[a], a, h[a] / 2);
    DivModUnique(h[b] * b, h[b], b, 0);
  }

  /** Where the valley between two peaks is. */
  lemma ValleyOfPeaks(h: seq<nat>, a: nat, b: nat, f: nat, l: nat)
    requires TwoPeaks(h, a, b) && Valley(h, a, b, f, l)
    ensures a < (f + l) / 2 <= b <==> b - a >= 2 || h[a] > h[b]
  {
    if b - a >= 2 {
      assert h[a + 1] == 0 && h[b - 1] == 0;
      assert h[f] == 0 && f <= a + 1 && b - 1 <= l;
    } else {
      assert b == a + 1 && h[f] <= h[a] && h[f] <= h[b];
    }
  }

  /** A cutoff separates two lengths. */
  predicate Separates(m: seq<char>, size: nat, b: nat, cut: nat)
    requires size <= |m|
  {
    forall i :: 0 <= i < size ==> (m[i] as int >= cut <==> m[i] as int == b)
  }

  lemma SeparatesIff(m: seq<char>, size: nat, a: nat, b: nat, cut: nat)
    requires TwoLengths(m, size, a, b)
    ensures Separates(m, size, b, cut) <==> a < cut <= b
  {
    var i := Occurs(m, size, a);
    var j := Occurs(m, size, b);
  }

  lemma PeaksOf(h: seq<nat>, m: seq<char>, size: nat, a: nat, b: nat)
    requires TwoLengths(m, size, a, b) && Tallied(h, m, size)
    ensures TwoPeaks(h, a, b) && h[a] == Number(m, size, a) && h[b] == Number(m, size, b)
  {
    forall i | 0 <= i < |h| && i != a && i != b ensures h[i] == 0 {
      NoOthers(m, size, a, b, i);
    }
  }

  /** Pulses of two lengths are told apart exactly when the lengths differ by two or more,
      or the shorter one is the more frequent. */
  lemma ToldApartIff(h: seq<nat>, m: seq<char>, size: nat, a: nat, b: nat, cut: nat)
    requires TwoLengths(m, size, a, b) && Tallied(h, m, size) && IsCutoff(h, Average(m, size), cut)
    ensures Separates(m, size, b, cut) <==> b - a >= 2 || Number(m, size, a) > Number(m, size, b)
  {
    TwoSums(m, size, a, b);
    Between(Number(m, size, a), Number(m, size, b), a, b);
    PeaksOf(h, m, size, a, b);
    SeparatesIff(m, size, a, b, cut);
    CutoffOfPeaks(h, a, b, Average(m, size), cut);
  }

  /** One pulse of length 4 and one of length 5: the cutoff is 4, and does not tell them apart. */
  lemma OneApartIsNotEnough()
    ensures var m, h := [4 as char, 5 as char], [0, 0, 0, 0, 1, 1, 0, 0, 0];
            Tallied(h, m, 2) && IsCutoff(h, Average(m, 2), 4) && !Separates(m, 2, 5, 4)
  {
    var m, h: seq<nat> := [4 as char, 5 as char], [0, 0, 0, 0, 1, 1, 0, 0, 0];
    forall k: nat | k < BITS ensures h[k] == Number(m, 2, k) { CountPair(m, k); }
    CountPair(m, 4);
    CountPair(m, 5);
    TwoSums(m, 2, 4, 5);
    assert Average(m, 2) == 4;
    MeansArePeaks(h, 4, 5, 4);
    assert Valley(h, LowMax(h, 4), HighMax(h, 4), 4, 5);
    ToldApartIff(h, m, 2, 4, 5, 4);
  }

  lemma CountPair(m: seq<char>, k: nat)
    requires |m| == 2
    ensures Number(m, 2, k) == (if m[0] as int == k then 1 else 0) + (if m[1] as int == k then 1 else 0)
  {
    assert Number(m, 0, k) == 0;
    assert Number(m, 1, k) == if m[0] as int == k then 1 else 0;
  }

  lemma CutoffOfPeaks(h: seq<nat>, a: nat, b: nat, avg: nat, cut: nat)
    requires TwoPeaks(h, a, b) && a <= avg < b && IsCutoff(h, avg, cut)
    ensures a < cut <= b <==> b - a >= 2 || h[a] > h[b]
  {
    var f, l := TheValley(h, avg, cut);
    MeansArePeaks(h, a, b, avg);
    ValleyOfPeaks(h, a, b, f, l);
  }

  lemma TheValley(h: seq<nat>, avg: nat, cut: nat) returns (f: nat, l: nat)
    requires IsCutoff(h, avg, cut)
    ensures Valley(h, LowMax(h, avg), HighMax(h, avg), f, l) && cut == (f + l) / 2
  {
    f, l :| Valley(h, LowMax(h, avg), HighMax(h, avg), f, l) && cut == (f + l) / 2;
  }

  // ----- the whole conversion

  /** What is stored for a pulse in the end. */
  function Mark(v: char, i: nat, cut: nat): char
    requires i < BUFFER_MAX
  {
    if v == BAD then '?' else if v as int >= cut then One(i) else Zero(i)
  }

  /** The last loop: a character for each length. */
  method Classify(buffer: array<char>, size: nat, cutoff: nat)
    requires size <= BUFFER_MAX && size < buffer.Length
    modifies buffer
    ensures forall i :: 0 <= i < size ==> buffer[i] == Mark(old(buffer[i]), i, cutoff)
    ensures buffer[size] == 0 as char
    ensures forall i :: size < i < buffer.Length ==> buffer[i] == old(buffer[i])
  {
    var s := 0;
    while s < size
      invariant 0 <= s <= size
      invariant forall i :: 0 <= i < s ==> buffer[i] == Mark(old(buffer[i]), i, cutoff)
      invariant forall i :: s <= i < buffer.Length ==> buffer[i] == old(buffer[i])
    {
      if buffer[s] == BAD {
        buffer[s] := '?';
      } else {
        buffer[s] := if buffer[s] as int >= cutoff then One(s) else Zero(s);
      }
      s := s + 1;
    }
    buffer[s] := 0 as char;
  }

  /** The pulse lengths in a buffer of bytes. */
  function MeasuredSeq(was: seq<char>, size: nat): (m: seq<char>)
    requires size <= |was| && forall i :: 0 <= i < size ==> IsByte(was[i])
    ensures AllMeasured(was, m, size)
  {
    seq(size, i requires 0 <= i < size => Measured(was[i])) + was[size..]
  }

  /** The record that pulses of two lengths stand for. */
  predicate Right(s: seq<char>, m: seq<char>, size: nat, b: nat)
    requires size <= |m| && size <= |s| && size <= BUFFER_MAX
  {
    forall i :: 0 <= i < size ==> s[i] == if m[i] as int == b then One(i) else Zero(i)
  }

  lemma RightIff(s: seq<char>, m: seq<char>, size: nat, a: nat, b: nat, cut: nat)
    requires size <= |s| && size <= BUFFER_MAX && TwoLengths(m, size, a, b)
    requires forall i :: 0 <= i < size ==> s[i] == Mark(m[i], i, cut)
    ensures Right(s, m, size, b) <==> Separates(m, size, b, cut)
  {
    forall i: nat | i < size
      ensures (s[i] == if m[i] as int == b then One(i) else Zero(i)) <==> (m[i] as int >= cut <==> m[i] as int == b)
    {
      Distinct(i);
    }
  }

  /** The conversion of pulses to a record, in place: lengths are compared with the cutoff `cut` of
      their histogram `h`. */
  method Cvt(buffer: array<char>, size: nat, ghost m: seq<char>) returns (bad: bool, ghost h: seq<nat>, ghost cut: nat)
    requires size <= BUFFER_MAX && size < buffer.Length && forall i :: 0 <= i < size ==> IsByte(buffer[i])
    requires m == MeasuredSeq(buffer[..], size)
    modifies buffer
    ensures bad == SomeBad(m, size) && Tallied(h, m, size) && IsCutoff(h, Average(m, size), cut)
    ensures forall i :: 0 <= i < size ==> buffer[i] == Mark(m[i], i, cut)
    ensures buffer[size] == 0 as char && forall i :: size < i < buffer.Length ==> buffer[i] == old(buffer[i])
    ensures forall a, b :: TwoLengths(m, size, a, b) ==>
                             (Right(buffer[..], m, size, b) <==> b - a >= 2 || Number(m, size, a) > Number(m, size, b))
  {
    var hist := new nat[BITS](_ => 0);
    var n, sum;
    ghost var rest := buffer[size..];
    n, sum, bad := Tally(buffer, size, hist, m);
    h := hist[..];
    assert buffer[size..] == rest;
    var cutoff := Threshold(hist, n, sum, m, size);
    cut := cutoff;
    Classify(buffer, size, cutoff);
    forall i | size < i < buffer.Length ensures buffer[i] == old(buffer[i]) {
      assert old(buffer[i]) == rest[i - size];
    }
    forall a, b | TwoLengths(m, size, a, b)
      ensures Right(buffer[..], m, size, b) <==> b - a >= 2 || Number(m, size, a) > Number(m, size, b)
    {
      RightIff(buffer[..], m, size, a, b, cutoff);
      ToldApartIff(h, m, size, a, b, cutoff);
    }
  }
}
