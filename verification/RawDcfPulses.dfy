/** libparse/clk_rawdcf.c: telling long pulses from short ones by a histogram of their lengths. */
module RawDcfPulses {
  import opened Bits

  const BITS := 9

  // ----- the length of a pulse

  /** The number of bits up to the highest one. */
  function Width(c: nat): nat { if c == 0 then 0 else 1 + Width(c / 2) }

  lemma {:induction false} AndSelf(x: nat)
    ensures BitAnd(x, x) == x
  {
    if x > 0 { AndSelf(x / 2); }
  }

  /** The test of the code finds exactly the bytes whose ones are all at the low end. */
  lemma {:induction false} RunTest(c: nat)
    ensures BitAnd(c + 1, c) == 0 <==> c + 1 == Pow2(Width(c))
  {
    if c % 2 == 1 {
      RunTest(c / 2);
      assert (c + 1) / 2 == c / 2 + 1;
    } else if c > 0 {
      assert (c + 1) / 2 == c / 2;
      AndSelf(c / 2);
      assert Pow2(Width(c)) == 2 * Pow2(Width(c) - 1);
    }
  }

  lemma ByteWidth(c: nat)
    requires c < 256
    ensures Width(c) < BITS
  {
    WidthBelow(c, 8);
  }

  lemma {:induction false} WidthBelow(c: nat, k: nat)
    requires c < Pow2(k)
    ensures Width(c) <= k
  {
    if c > 0 { WidthBelow(c / 2, k - 1); }
  }

  predicate IsByte(c: char) { c as int < 256 }

  /** A byte that is a pulse: ones above the start bits. */
  predicate IsPulse(c: char)
    requires IsByte(c)
  {
    var ch := 255 - c as int;
    ch + 1 == Pow2(Width(ch))
  }

  function Length(c: char): nat
    requires IsByte(c)
  {
    Width(255 - c as int)
  }

  const BAD: char := 255 as char

  /** What is stored in place of a byte: the length of the pulse, or a mark. */
  function Measured(c: char): char
    requires IsByte(c)
  {
    ByteWidth(255 - c as int);
    if IsPulse(c) then Length(c) as char else BAD
  }

  predicate MeasuredAs(c: char, v: char) { IsByte(c) && v == Measured(c) }

  /** The shift loop. */
  method Measure(c: char) returns (i: nat)
    requires IsByte(c)
    ensures i == Length(c) < BITS
  {
    ByteWidth(255 - c as int);
    var ch: nat := 255 - c as int;
    i := 0;
    while ch != 0
      invariant i + Width(ch) == Length(c)
      decreases ch
    {
      ch := ch / 2;
      i := i + 1;
    }
  }

  lemma WholeByte()
    ensures IsPulse(0 as char)
  {
    assert Width(255) == 8 && Pow2(8) == 256;
  }

  /** One byte: whether it is a pulse, and how long. */
  method MeasureByte(c: char) returns (pulse: bool, i: nat)
    requires IsByte(c)
    ensures i < BITS && (if pulse then i as char else BAD) == Measured(c)
  {
    var ch := 255 - c as int;
    RunTest(ch);
    WholeByte();
    pulse, i := false, 0;
    if BitAnd(ch + 1, ch) == 0 || c as int == 0 {
      i := Measure(c);
      pulse := true;
    }
  }

  // ----- the histogram

  function Count(h: seq<nat>, lo: nat, hi: nat): nat
    requires lo <= hi <= |h|
    decreases hi - lo
  {
    if lo == hi then 0 else Count(h, lo, hi - 1) + h[hi - 1]
  }

  function Weight(h: seq<nat>, lo: nat, hi: nat): nat
    requires lo <= hi <= |h|
    decreases hi - lo
  {
    if lo == hi then 0 else Weight(h, lo, hi - 1) + h[hi - 1] * (hi - 1)
  }

  /** How many of the first characters are a length. */
  function Number(m: seq<char>, size: nat, k: nat): nat
    requires size <= |m|
  {
    if size == 0 then 0 else Number(m, size - 1, k) + if m[size - 1] as int == k then 1 else 0
  }

  /** A histogram of the first lengths. */
  predicate Tallied(h: seq<nat>, m: seq<char>, size: nat)
    requires size <= |m|
  {
    |h| == BITS && forall k :: 0 <= k < BITS ==> h[k] == Number(m, size, k)
  }

  /** A pulse length. */
  predicate IsLength(c: char) { c as int < BITS }

  /** The histogram after one more character. */
  function TallyOne(h: seq<nat>, c: char): seq<nat>
    requires |h| == BITS
  {
    if IsLength(c) then h[c as int := h[c as int] + 1] else h
  }

  lemma TallyNext(h: seq<nat>, m: seq<char>, size: nat)
    requires size < |m| && Tallied(h, m, size)
    ensures Tallied(TallyOne(h, m[size]), m, size + 1)
  {
  }

  /** How many of the first characters are lengths, and their sum. */
  function Lengths(m: seq<char>, size: nat): nat
    requires size <= |m|
  {
    if size == 0 then 0 else Lengths(m, size - 1) + if IsLength(m[size - 1]) then 1 else 0
  }

  function LengthSum(m: seq<char>, size: nat): nat
    requires size <= |m|
  {
    if size == 0 then 0 else LengthSum(m, size - 1) + if IsLength(m[size - 1]) then m[size - 1] as int else 0
  }

  /** Replace one byte by its length, and count it. */
  method Replace(buffer: array<char>, s: nat, hist: array<nat>, ghost v: char) returns (pulse: bool, i: nat)
    requires s < buffer.Length && hist.Length == BITS && MeasuredAs(buffer[s], v)
    modifies buffer, hist
    ensures buffer[..] == old(buffer[..])[s := v] && hist[..] == TallyOne(old(hist[..]), v)
    ensures pulse == IsLength(v) && (pulse ==> i == v as int)
  {
    pulse, i := MeasureByte(buffer[s]);
    if pulse {
      buffer[s] := i as char;
      hist[i] := hist[i] + 1;
    } else {
      buffer[s] := BAD;
    }
  }

  /** All bytes replaced. */
  predicate AllMeasured(was: seq<char>, m: seq<char>, size: nat) {
    |m| == |was| && size <= |m| && m[size..] == was[size..] &&
    forall i {:trigger MeasuredAs(was[i], m[i])} :: 0 <= i < size ==> MeasuredAs(was[i], m[i])
  }

  /** Some byte was not a pulse. */
  predicate SomeBad(m: seq<char>, size: nat)
    requires size <= |m|
  {
    exists i :: 0 <= i < size && !IsLength(m[i])
  }

  lemma Replaced(m: seq<char>, was: seq<char>, s: nat)
    requires |m| == |was| && s < |m|
    ensures (m[..s] + was[s..])[s] == was[s] && (m[..s] + was[s..])[s := m[s]] == m[..s + 1] + was[s + 1..]
  {
  }

  /** One turn of the first loop. */
  method TallyStep(buffer: array<char>, s: nat, hist: array<nat>, ghost was: seq<char>, ghost m: seq<char>)
    returns (pulse: bool, i: nat)
    requires s < buffer.Length == |was| == |m| && hist.Length == BITS && MeasuredAs(was[s], m[s])
    requires buffer[..] == m[..s] + was[s..] && Tallied(hist[..], m, s)
    modifies buffer, hist
    ensures buffer[..] == m[..s + 1] + was[s + 1..] && Tallied(hist[..], m, s + 1)
    ensures pulse == IsLength(m[s]) && (pulse ==> i == m[s] as int)
  {
    TallyNext(hist[..], m, s);
    Replaced(m, was, s);
    assert buffer[s] == buffer[..][s];
    pulse, i := Replace(buffer, s, hist, m[s]);
  }

  lemma SomeBadNext(m: seq<char>, s: nat)
    requires s < |m|
    ensures SomeBad(m, s + 1) == (SomeBad(m, s) || !IsLength(m[s]))
  {
    if SomeBad(m, s + 1) && IsLength(m[s]) {
      var i :| 0 <= i < s + 1 && !IsLength(m[i]);
      assert i < s;
    }
  }

  /** The first loop: lengths in place of bytes, and their histogram. */
  method Tally(buffer: array<char>, size: nat, hist: array<nat>, ghost m: seq<char>)
    returns (n: nat, sum: nat, bad: bool)
    requires AllMeasured(buffer[..], m, size)
    requires hist.Length == BITS && forall i :: 0 <= i < BITS ==> hist[i] == 0
    modifies buffer, hist
    ensures buffer[..] == m && Tallied(hist[..], m, size)
    ensures n == Lengths(m, size) && sum == LengthSum(m, size) && bad == SomeBad(m, size)
  {
    ghost var was := buffer[..];
    n, sum, bad := 0, 0, false;
    var s := 0;
    assert m[..0] + was[0..] == was;
    while s < size
      invariant 0 <= s <= size
      invariant buffer[..] == m[..s] + was[s..]
      invariant Tallied(hist[..], m, s)
      invariant n == Lengths(m, s) && sum == LengthSum(m, s) && bad == SomeBad(m, s)
    {
      assert MeasuredAs(was[s], m[s]);
      SomeBadNext(m, s);
      var pulse, i := TallyStep(buffer, s, hist, was, m);
      if pulse {
        n, sum := n + 1, sum + i;
      } else {
        bad := true;
      }
      s := s + 1;
    }
    assert m[..size] + was[size..] == m;
  }
}
