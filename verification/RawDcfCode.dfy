/** The DCF77 encoding, its inverse, and what a wrong bit does. */
module RawDcfCode {
  import opened Bits
  import opened RawDcf

  // ----- the encoding

  /** What is sent in a minute: the time, and the bits that are not part of it. */
  datatype Signal = Signal(free: nat, weekday: nat, time: Time)

  /** Each number fits the bits it is sent in. */
  predicate Sendable(g: Signal) {
    && g.free < 32768 && g.weekday < 8
    && g.time.minute < 80 && g.time.hour < 40 && g.time.day < 40 && g.time.month < 20 && g.time.year < 160
    && g.time.utcoffset == if g.time.dst then -7200 else -3600
  }

  /** The number sent in a field; parity fields are left at zero. */
  function Sent(g: Signal, idx: nat): nat {
    var t := g.time;
    match idx
    case 0 => g.free
    case 1 => Value(t.callBit)
    case 2 => Value(t.announce)
    case 3 => if t.dst then MED else MET
    case 4 => Value(t.leapAdd)
    case 5 => 1
    case 6 => t.minute % 10
    case 7 => t.minute / 10
    case 9 => t.hour % 10
    case 10 => t.hour / 10
    case 12 => t.day % 10
    case 13 => t.day / 10
    case 14 => g.weekday
    case 15 => t.month % 10
    case 16 => t.month / 10
    case 17 => t.year % 10
    case 18 => t.year / 10
    case _ => 0
  }

  /** The field that a second belongs to. */
  function FieldAt(i: nat): nat
    requires i < 59
  {
    if i < 15 then 0 else if i < 16 then 1 else if i < 17 then 2 else if i < 19 then 3 else if i < 20 then 4
    else if i < 21 then 5 else if i < 25 then 6 else if i < 28 then 7 else if i < 29 then 8 else if i < 33 then 9
    else if i < 35 then 10 else if i < 36 then 11 else if i < 40 then 12 else if i < 42 then 13 else if i < 45 then 14
    else if i < 49 then 15 else if i < 50 then 16 else if i < 54 then 17 else if i < 58 then 18 else 19
  }

  function BitOf(v: nat, k: nat): bool {
    if k == 0 then v % 2 == 1 else BitOf(v / 2, k - 1)
  }

  function DataBit(g: Signal, i: nat): bool
    requires i < 59
  {
    Tables();
    var k := i - OFFSET[FieldAt(i)];
    k >= 0 && BitOf(Sent(g, FieldAt(i)), k)
  }

  predicate Odd(g: Signal, lo: nat, hi: nat)
    requires lo <= hi <= 59
    decreases hi - lo
  {
    lo < hi && Odd(g, lo, hi - 1) != DataBit(g, hi - 1)
  }

  /** A bit as sent: parity bits make the number of ones even. */
  predicate SentBit(g: Signal, i: nat)
    requires i < 59
  {
    if i == 28 then Odd(g, 21, 28) else if i == 35 then Odd(g, 29, 35) else if i == 58 then Odd(g, 36, 58)
    else DataBit(g, i)
  }

  /** The characters of a minute. */
  function Encode(g: Signal): (s: seq<char>)
    ensures Minute(s) && |s| == BUFFER_MAX
  {
    seq(BUFFER_MAX, i requires 0 <= i < BUFFER_MAX => if i < 59 && SentBit(g, i) then One(i) else Zero(i))
  }

  // ----- decoding what was encoded

  lemma EncodedBit(g: Signal, i: nat)
    requires i < 59
    ensures Bit(Encode(g), i) == SentBit(g, i)
  {
    Distinct(i);
  }

  lemma {:induction false} FieldOfBits(s: seq<char>, lo: nat, hi: nat, v: nat)
    requires Minute(s) && lo <= hi <= BUFFER_MAX && v < Pow2(hi - lo)
    requires forall i :: lo <= i < hi ==> Bit(s, i) == BitOf(v, i - lo)
    ensures Field(s, lo, hi) == v
    decreases hi - lo
  {
    if lo < hi {
      assert Bit(s, lo) == BitOf(v, lo - lo);
      forall i | lo + 1 <= i < hi ensures Bit(s, i) == BitOf(v / 2, i - (lo + 1)) {
        assert BitOf(v, i - lo) == BitOf(v / 2, i - lo - 1);
      }
      FieldOfBits(s, lo + 1, hi, v / 2);
    }
  }

  predicate IsParity(idx: nat) { idx == 8 || idx == 11 || idx == 19 }

  lemma InField(idx: nat, i: nat)
    requires idx < 20 && |OFFSET| == 21 && OFFSET[idx] <= i < OFFSET[idx + 1]
    ensures i < 59 && FieldAt(i) == idx && (i == 28 <==> idx == 8) && (i == 35 <==> idx == 11) && (i == 58 <==> idx == 19)
  {
  }

  /** A field of the encoding holds its number. */
  lemma SentComesBack(g: Signal, idx: nat)
    requires idx < 20 && !IsParity(idx) && |OFFSET| == 21
    requires OFFSET[idx] <= OFFSET[idx + 1] && Sent(g, idx) < Pow2(OFFSET[idx + 1] - OFFSET[idx])
    ensures FieldNo(Encode(g), idx) == Sent(g, idx)
  {
    Tables();
    var lo, hi := OFFSET[idx], OFFSET[idx + 1];
    forall i | lo <= i < hi ensures Bit(Encode(g), i) == BitOf(Sent(g, idx), i - lo) {
      InField(idx, i);
      EncodedBit(g, i);
    }
    FieldOfBits(Encode(g), lo, hi, Sent(g, idx));
  }

  lemma {:induction false} OddEven(g: Signal, lo: nat, hi: nat)
    requires lo <= hi <= 58 && (28 < lo || hi <= 28) && (35 < lo || hi <= 35)
    ensures Even(Encode(g), lo, hi) == !Odd(g, lo, hi)
    decreases hi - lo
  {
    if lo < hi {
      OddEven(g, lo, hi - 1);
      EncodedBit(g, hi - 1);
    }
  }

  lemma ParityHolds(g: Signal, lo: nat, hi: nat)
    requires (lo == 21 && hi == 28) || (lo == 29 && hi == 35) || (lo == 36 && hi == 58)
    ensures Even(Encode(g), lo, hi + 1)
  {
    OddEven(g, lo, hi);
    EncodedBit(g, hi);
  }

  lemma ParitiesHold(g: Signal)
    ensures EvenNo(Encode(g), 0) && EvenNo(Encode(g), 1) && EvenNo(Encode(g), 2)
  {
    ParityHolds(g, 21, 28);
    ParityHolds(g, 29, 35);
    ParityHolds(g, 36, 58);
  }

  /** Every number fits its field. */
  lemma Fits(g: Signal, idx: nat)
    requires Sendable(g) && idx < 20 && !IsParity(idx)
    ensures |OFFSET| == 21 && OFFSET[idx] <= OFFSET[idx + 1] && Sent(g, idx) < Pow2(OFFSET[idx + 1] - OFFSET[idx])
  {
    Powers();
  }

  lemma Powers()
    ensures Pow2(1) == 2 && Pow2(2) == 4 && Pow2(3) == 8 && Pow2(4) == 16 && Pow2(15) == 32768
  {
  }

  /** convert_rawdcf inverts the encoding, for every length it accepts. */
  lemma DecodeInvertsEncode(g: Signal, size: nat)
    requires Sendable(g) && 57 <= size <= BUFFER_MAX
    ensures Decode(Encode(g), size) == Ok(g.time)
  {
    FieldsBack(g);
    TimeSent(g, Fields(Encode(g)));
    ReadFromFields(Encode(g));
    ParitiesHold(g);
    AllTwoKinds(g);
    StartAndZoneBack(g);
  }

  /** The numbers in all fields. */
  function Fields(s: seq<char>): (f: seq<nat>)
    requires Minute(s)
    ensures |f| == 20
  {
    seq(20, i requires 0 <= i < 20 => FieldNo(s, i))
  }

  /** The clock time that the numbers stand for. */
  function TimeOf(f: seq<nat>): Time
    requires |f| == 20
  {
    Time(10 * f[M10] + f[M1], 10 * f[H10] + f[H1], 10 * f[D10] + f[D1], 10 * f[MO0] + f[MO], 10 * f[Y10] + f[Y1],
         if f[Z] == MED then -7200 else -3600, f[Z] == MED, f[A1] != 0, f[A2] != 0, f[R] != 0)
  }

  lemma ReadFromFields(s: seq<char>)
    requires Minute(s)
    ensures ReadTime(s) == TimeOf(Fields(s))
  {
  }

  predicate SameFields(f: seq<nat>, g: Signal)
    requires |f| == 20
  {
    forall i :: 0 <= i < 20 && !IsParity(i) ==> f[i] == Sent(g, i)
  }

  lemma FieldsBack(g: Signal)
    requires Sendable(g)
    ensures SameFields(Fields(Encode(g)), g)
  {
    forall i | 0 <= i < 20 && !IsParity(i) ensures Fields(Encode(g))[i] == Sent(g, i) {
      Fits(g, i);
      SentComesBack(g, i);
    }
  }

  lemma TimeSent(g: Signal, f: seq<nat>)
    requires Sendable(g) && |f| == 20 && SameFields(f, g)
    ensures TimeOf(f) == g.time
  {
  }

  lemma AllTwoKinds(g: Signal)
    ensures TwoKinds(Encode(g), BUFFER_MAX)
  {
  }

  lemma StartAndZoneBack(g: Signal)
    requires Sendable(g)
    ensures FieldNo(Encode(g), S) == 1 && GoodZone(FieldNo(Encode(g), Z))
  {
    Fits(g, S);
    Fits(g, Z);
    SentComesBack(g, S);
    SentComesBack(g, Z);
  }

  // ----- one wrong bit

  function Flip(s: seq<char>, k: nat): (t: seq<char>)
    requires Minute(s) && k < BUFFER_MAX
    ensures Minute(t)
  {
    s[k := if s[k] == Zero(k) then One(k) else Zero(k)]
  }

  lemma FlippedBit(s: seq<char>, k: nat, i: nat)
    requires Minute(s) && k < BUFFER_MAX && i < BUFFER_MAX
    ensures Bit(Flip(s, k), i) == if i == k then !Bit(s, i) else Bit(s, i)
  {
    Distinct(k);
  }

  lemma {:induction false} FlippedEven(s: seq<char>, k: nat, lo: nat, hi: nat)
    requires Minute(s) && k < BUFFER_MAX && lo <= hi <= BUFFER_MAX
    ensures Even(Flip(s, k), lo, hi) == (Even(s, lo, hi) == !(lo <= k < hi))
    decreases hi - lo
  {
    if lo < hi {
      FlippedEven(s, k, lo, hi - 1);
      FlippedBit(s, k, hi - 1);
    }
  }

  lemma {:induction false} FlippedElsewhere(s: seq<char>, k: nat, lo: nat, hi: nat)
    requires Minute(s) && k < BUFFER_MAX && lo <= hi <= BUFFER_MAX && !(lo <= k < hi)
    ensures Field(Flip(s, k), lo, hi) == Field(s, lo, hi)
    decreases hi - lo
  {
    if lo < hi {
      FlippedElsewhere(s, k, lo + 1, hi);
      FlippedBit(s, k, lo);
    }
  }

  lemma OneBit(s: seq<char>, lo: nat, hi: nat)
    requires Minute(s) && hi == lo + 1 <= BUFFER_MAX
    ensures Field(s, lo, hi) == Value(Bit(s, lo))
  {
  }

  lemma TwoBits(s: seq<char>, lo: nat, hi: nat)
    requires Minute(s) && hi == lo + 2 <= BUFFER_MAX
    ensures Field(s, lo, hi) == Value(Bit(s, lo)) + 2 * Value(Bit(s, lo + 1))
  {
    OneBit(s, lo + 1, hi);
  }

  /** A flipped start bit is not one any more, and one flipped zone bit makes a bad zone. */
  lemma FlippedFields(s: seq<char>, k: nat)
    requires Minute(s) && k < BUFFER_MAX && FieldNo(s, S) == 1 && GoodZone(FieldNo(s, Z))
    ensures FieldNo(Flip(s, k), S) == 1 <==> k != 20
    ensures GoodZone(FieldNo(Flip(s, k), Z)) <==> k != 17 && k != 18
  {
    var t := Flip(s, k);
    FlippedBit(s, k, 17);
    FlippedBit(s, k, 18);
    FlippedBit(s, k, 20);
    StartAndZone(s);
    StartAndZone(t);
  }

  lemma StartAndZone(s: seq<char>)
    requires Minute(s)
    ensures FieldNo(s, S) == Value(Bit(s, 20)) && FieldNo(s, Z) == Value(Bit(s, 17)) + 2 * Value(Bit(s, 18))
  {
    Tables();
    OneBit(s, OFFSET[S], OFFSET[S + 1]);
    TwoBits(s, OFFSET[Z], OFFSET[Z + 1]);
  }

  lemma FlippedParities(s: seq<char>, k: nat)
    requires Minute(s) && k < BUFFER_MAX && EvenNo(s, 0) && EvenNo(s, 1) && EvenNo(s, 2)
    ensures EvenNo(Flip(s, k), 0) && EvenNo(Flip(s, k), 1) && EvenNo(Flip(s, k), 2) <==> !(21 <= k < 59)
  {
    Tables();
    FlippedEven(s, k, PARITY[0], PARITY[1]);
    FlippedEven(s, k, PARITY[1], PARITY[2]);
    FlippedEven(s, k, PARITY[2], PARITY[3]);
  }

  /** Of a full record that is accepted, flipping one bit leads to refusal exactly for the time zone,
      the start bit, and everything from the minutes to the last parity bit. */
  lemma FlipRefusedIff(s: seq<char>, size: nat, k: nat)
    requires Minute(s) && 59 <= size <= BUFFER_MAX && k < size && Decode(s, size).Ok?
    ensures Decode(Flip(s, k), size) == BadFormat <==> k == 17 || k == 18 || 20 <= k <= 58
    ensures Decode(Flip(s, k), size) != None
  {
    FlippedFields(s, k);
    FlippedParities(s, k);
  }

  /** A flipped bit that is not refused leaves time and date alone. */
  lemma FlipKeepsTime(s: seq<char>, size: nat, k: nat)
    requires Minute(s) && 59 <= size <= BUFFER_MAX && k < size && Decode(s, size).Ok? && Decode(Flip(s, k), size).Ok?
    ensures SameTime(Decode(s, size).time, Decode(Flip(s, k), size).time)
  {
    FlipRefusedIff(s, size, k);
    ReadFromFields(s);
    ReadFromFields(Flip(s, k));
    FlippedOutside(s, k);
    TimeKept(Fields(s), Fields(Flip(s, k)));
  }

  /** Two times that differ in nothing but announcements. */
  predicate SameTime(t: Time, u: Time) {
    u == t.(announce := u.announce, leapAdd := u.leapAdd, callBit := u.callBit)
  }

  lemma FlippedOutside(s: seq<char>, k: nat)
    requires Minute(s) && k < BUFFER_MAX && !(k == 17 || k == 18 || 20 <= k <= 58)
    ensures forall i :: 6 <= i < 20 || i == Z ==> Fields(Flip(s, k))[i] == Fields(s)[i]
  {
    forall i | 6 <= i < 20 || i == Z ensures Fields(Flip(s, k))[i] == Fields(s)[i] {
      Tables();
      FlippedElsewhere(s, k, OFFSET[i], OFFSET[i + 1]);
    }
  }

  lemma TimeKept(f: seq<nat>, h: seq<nat>)
    requires |f| == |h| == 20 && forall i :: 6 <= i < 20 || i == Z ==> h[i] == f[i]
    ensures SameTime(TimeOf(f), TimeOf(h))
  {
  }
}
