/** A whole minute of DCF77, from pulses to clock time. */
module RawDcfMinute {
  import opened Bits
  import opened RawDcf
  import RawDcfCode
  import opened RawDcfPulses
  import opened RawDcfThreshold

  const SECONDS := 59

  // ----- pulses

  /** The byte that a pulse of a length is received as. */
  function PulseByte(k: nat): (c: char)
    requires k < BITS
    ensures IsByte(c)
  {
    PowerBelow(k);
    (256 - Pow2(k)) as char
  }

  lemma PowerBelow(k: nat)
    requires k < BITS
    ensures 1 <= Pow2(k) <= 256
  {
    PowerGrows(k, 8);
    assert Pow2(8) == 256;
  }

  lemma {:induction false} PowerGrows(a: nat, b: nat)
    requires a <= b
    ensures Pow2(a) <= Pow2(b)
    decreases b - a
  {
    if a < b { PowerGrows(a, b - 1); }
  }

  lemma {:induction false} WidthOfOnes(k: nat)
    ensures Width(Pow2(k) - 1) == k
  {
    if k > 0 {
      WidthOfOnes(k - 1);
      assert (Pow2(k) - 1) / 2 == Pow2(k - 1) - 1;
    }
  }

  /** A pulse is measured as its length. */
  lemma PulseMeasured(k: nat)
    requires k < BITS
    ensures MeasuredAs(PulseByte(k), k as char)
  {
    PowerBelow(k);
    WidthOfOnes(k);
    assert 255 - PulseByte(k) as int == Pow2(k) - 1;
  }

  // ----- only the seconds of the record matter

  lemma {:induction false} SameField(s: seq<char>, t: seq<char>, lo: nat, hi: nat)
    requires Minute(s) && Minute(t) && s[..SECONDS] == t[..SECONDS] && lo <= hi <= SECONDS
    ensures Field(s, lo, hi) == Field(t, lo, hi)
    decreases hi - lo
  {
    if lo < hi {
      assert s[lo] == s[..SECONDS][lo] && t[lo] == t[..SECONDS][lo];
      SameField(s, t, lo + 1, hi);
    }
  }

  lemma {:induction false} SameEven(s: seq<char>, t: seq<char>, lo: nat, hi: nat)
    requires Minute(s) && Minute(t) && s[..SECONDS] == t[..SECONDS] && lo <= hi <= SECONDS
    ensures Even(s, lo, hi) == Even(t, lo, hi)
    decreases hi - lo
  {
    if lo < hi {
      assert s[hi - 1] == s[..SECONDS][hi - 1] && t[hi - 1] == t[..SECONDS][hi - 1];
      SameEven(s, t, lo, hi - 1);
    }
  }

  lemma SameFields(s: seq<char>, t: seq<char>)
    requires Minute(s) && Minute(t) && s[..SECONDS] == t[..SECONDS]
    ensures RawDcfCode.Fields(s) == RawDcfCode.Fields(t)
  {
    Tables();
    forall i | 0 <= i < 20 ensures RawDcfCode.Fields(s)[i] == RawDcfCode.Fields(t)[i] {
      SameField(s, t, OFFSET[i], OFFSET[i + 1]);
    }
  }

  lemma SameChecks(s: seq<char>, t: seq<char>)
    requires Minute(s) && Minute(t) && s[..SECONDS] == t[..SECONDS]
    ensures Checks(s) == Checks(t) && FieldNo(s, Z) == FieldNo(t, Z)
  {
    Tables();
    SameField(s, t, OFFSET[S], OFFSET[S + 1]);
    SameField(s, t, OFFSET[Z], OFFSET[Z + 1]);
    SameEven(s, t, PARITY[0], PARITY[1]);
    SameEven(s, t, PARITY[1], PARITY[2]);
    SameEven(s, t, PARITY[2], PARITY[3]);
  }

  lemma SameKinds(s: seq<char>, t: seq<char>)
    requires Minute(s) && Minute(t) && s[..SECONDS] == t[..SECONDS]
    ensures TwoKinds(s, SECONDS) == TwoKinds(t, SECONDS)
  {
    assert forall i :: 0 <= i < SECONDS ==> s[i] == s[..SECONDS][i] && t[i] == t[..SECONDS][i];
  }

  /** A record of 59 characters means the same whatever follows it in the buffer. */
  lemma SameRecord(s: seq<char>, t: seq<char>)
    requires Minute(s) && Minute(t) && s[..SECONDS] == t[..SECONDS]
    ensures Decode(s, SECONDS) == Decode(t, SECONDS)
  {
    SameKinds(s, t);
    SameChecks(s, t);
    SameFields(s, t);
    RawDcfCode.ReadFromFields(s);
    RawDcfCode.ReadFromFields(t);
  }

  // ----- every minute has long and short pulses

  lemma BothKinds(g: RawDcfCode.Signal)
    ensures RawDcfCode.SentBit(g, 20) && (!RawDcfCode.SentBit(g, 17) || !RawDcfCode.SentBit(g, 18))
  {
    Tables();
    assert RawDcfCode.FieldAt(20) == 5 && RawDcfCode.FieldAt(17) == 3 && RawDcfCode.FieldAt(18) == 3;
    assert OFFSET[3] == 17 && OFFSET[5] == 20;
  }

  lemma {:induction false} Counted(m: seq<char>, size: nat, i: nat, k: nat)
    requires i < size <= |m| && m[i] as int == k
    ensures Number(m, size, k) > 0
  {
    if i < size - 1 { Counted(m, size - 1, i, k); }
  }

  /** The length of the pulse of a second. */
  function Sent(g: RawDcfCode.Signal, i: nat, a: nat, b: nat): nat
    requires i < SECONDS
  {
    if RawDcfCode.SentBit(g, i) then b else a
  }

  lemma LengthsSent(m: seq<char>, g: RawDcfCode.Signal, a: nat, b: nat)
    requires SECONDS <= |m| && a < b < BITS && forall i :: 0 <= i < SECONDS ==> m[i] as int == Sent(g, i, a, b)
    ensures TwoLengths(m, SECONDS, a, b)
  {
    BothKinds(g);
    Counted(m, SECONDS, 20, b);
    if RawDcfCode.SentBit(g, 17) { Counted(m, SECONDS, 18, a); } else { Counted(m, SECONDS, 17, a); }
  }

  /** A minute sent with two pulse lengths that differ by two or more is received as the time it was
      sent for. */
  method ReceiveMinute(buffer: array<char>, ghost g: RawDcfCode.Signal, ghost a: nat, ghost b: nat) returns (r: Result)
    requires buffer.Length > BUFFER_MAX && RawDcfCode.Sendable(g) && a + 2 <= b < BITS
    requires forall i :: 0 <= i < SECONDS ==> buffer[i] == PulseByte(Sent(g, i, a, b))
    modifies buffer
    ensures r == Ok(g.time)
  {
    ghost var m := MeasuredSeq(buffer[..], SECONDS);
    forall i | 0 <= i < SECONDS ensures m[i] as int == Sent(g, i, a, b) {
      assert MeasuredAs(buffer[..][i], m[i]);
      PulseMeasured(Sent(g, i, a, b));
    }
    LengthsSent(m, g, a, b);
    var bad;
    ghost var h, cut;
    bad, h, cut := Cvt(buffer, SECONDS, m);
    assert Right(buffer[..], m, SECONDS, b);
    assert buffer[..][..SECONDS] == RawDcfCode.Encode(g)[..SECONDS];
    SameRecord(buffer[..], RawDcfCode.Encode(g));
    RawDcfCode.DecodeInvertsEncode(g, SECONDS);
    if bad {
      r := BadFormat;
      assert false;
    } else {
      r := Convert(buffer, SECONDS);
    }
  }
}
