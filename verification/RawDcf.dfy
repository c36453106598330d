/** libparse/clk_rawdcf.c: the DCF77 time code, one character for each second of a minute. */
module RawDcf {
  const BUFFER_MAX := 61

  // ----- characters and bits

  /** The character for a one, by second. */
  function One(i: nat): char
    requires i < BUFFER_MAX
  {
    if i < 15 then '#'
    else if i < 21 then "RADMLS"[i - 15]
    else if i < 29 then "1248124P"[i - 21]
    else if i < 36 then "124812P"[i - 29]
    else if i < 45 then "124812124"[i - 36]
    else if i < 54 then "124811248"[i - 45]
    else "1248P??"[i - 54]
  }

  /** The character for a zero, by second. */
  function Zero(i: nat): char
    requires i < BUFFER_MAX
  {
    if i == 20 then 's' else if i == 28 || i == 35 || i == 58 then 'p' else if i >= 59 then '_' else '-'
  }

  lemma Distinct(i: nat)
    requires i < BUFFER_MAX
    ensures One(i) != Zero(i)
  {
  }

  /** The start bits of the fields. */
  const OFFSET: seq<nat> := [0, 15, 16, 17, 19, 20, 21, 25, 28, 29, 33, 35, 36, 40, 42, 45, 49, 50, 54, 58, 59]

  const R := 1
  const A1 := 2
  const Z := 3
  const A2 := 4
  const S := 5
  const M1 := 6
  const M10 := 7
  const H1 := 9
  const H10 := 10
  const D1 := 12
  const D10 := 13
  const MO := 15
  const MO0 := 16
  const Y1 := 17
  const Y10 := 18

  const MET := 2
  const MED := 1

  /** The start bits of the parity fields. */
  const PARITY: seq<nat> := [21, 29, 36, 59]

  lemma Tables()
    ensures |OFFSET| == 21 && |PARITY| == 4
    ensures forall i, j :: 0 <= i < j < 21 ==> OFFSET[i] <= OFFSET[j] <= 59
    ensures forall i, j :: 0 <= i < j < 4 ==> PARITY[i] <= PARITY[j] <= 59
  {
  }

  /** A buffer that can hold a minute. */
  predicate Minute(s: seq<char>) { |s| >= BUFFER_MAX }

  predicate Bit(s: seq<char>, i: nat)
    requires Minute(s) && i < BUFFER_MAX
  {
    s[i] != Zero(i)
  }

  function Value(b: bool): nat { if b then 1 else 0 }

  /** A binary number, the least significant bit first. */
  function Field(s: seq<char>, lo: nat, hi: nat): nat
    requires Minute(s) && lo <= hi <= BUFFER_MAX
    decreases hi - lo
  {
    if lo == hi then 0 else Value(Bit(s, lo)) + 2 * Field(s, lo + 1, hi)
  }

  /** The number in a field. */
  function FieldNo(s: seq<char>, idx: nat): nat
    requires Minute(s) && idx < 20
  {
    Tables(); Field(s, OFFSET[idx], OFFSET[idx + 1])
  }

  /** An even number of ones. */
  predicate Even(s: seq<char>, lo: nat, hi: nat)
    requires Minute(s) && lo <= hi <= BUFFER_MAX
    decreases hi - lo
  {
    lo == hi || Even(s, lo, hi - 1) != Bit(s, hi - 1)
  }

  /** The parity of a group of fields is right. */
  predicate EvenNo(s: seq<char>, idx: nat)
    requires Minute(s) && idx < 3
  {
    Tables(); Even(s, PARITY[idx], PARITY[idx + 1])
  }

  /** ext_bf: the number in a field. */
  method ExtBf(buf: array<char>, idx: nat) returns (sum: nat)
    requires Minute(buf[..]) && idx < 20
    ensures sum == FieldNo(buf[..], idx)
  {
    Tables();
    sum := 0;
    var first, end := OFFSET[idx], OFFSET[idx + 1];
    var i: int := end - 1;
    while i >= first
      invariant first - 1 <= i <= end - 1
      invariant sum == Field(buf[..], i + 1, end)
    {
      sum := 2 * sum;
      sum := sum + Value(buf[i] != Zero(i));
      i := i - 1;
    }
  }

  /** pcheck: one for an even number of ones, else zero. */
  method PCheck(buf: array<char>, idx: nat) returns (psum: nat)
    requires Minute(buf[..]) && idx < 3
    ensures psum == Value(EvenNo(buf[..], idx))
  {
    Tables();
    psum := 1;
    var first, last := PARITY[idx], PARITY[idx + 1];
    var i := first;
    while i < last
      invariant first <= i <= last
      invariant psum == Value(Even(buf[..], first, i))
    {
      psum := if (buf[i] != Zero(i)) == (psum == 1) then 0 else 1;
      i := i + 1;
    }
  }

  // ----- convert_rawdcf

  datatype Time = Time(minute: nat, hour: nat, day: nat, month: nat, year: nat, utcoffset: int, dst: bool,
                       announce: bool, leapAdd: bool, callBit: bool)

  datatype Result = None | BadFormat | Ok(time: Time)

  /** Only characters for ones and zeros. */
  predicate TwoKinds(s: seq<char>, size: nat)
    requires Minute(s) && size <= BUFFER_MAX
  {
    forall i :: 0 <= i < size ==> s[i] == One(i) || s[i] == Zero(i)
  }

  /** The start bit and the three parities. */
  predicate Checks(s: seq<char>)
    requires Minute(s)
  {
    FieldNo(s, S) == 1 && EvenNo(s, 0) && EvenNo(s, 1) && EvenNo(s, 2)
  }

  predicate GoodZone(z: nat) { z == MET || z == MED }

  function Two(s: seq<char>, tens: nat, units: nat): nat
    requires Minute(s) && tens < 20 && units < 20
  {
    10 * FieldNo(s, tens) + FieldNo(s, units)
  }

  /** The clock time of a record. */
  function ReadTime(s: seq<char>): Time
    requires Minute(s)
  {
    Time(Two(s, M10, M1), Two(s, H10, H1), Two(s, D10, D1), Two(s, MO0, MO), Two(s, Y10, Y1),
         if FieldNo(s, Z) == MED then -7200 else -3600, FieldNo(s, Z) == MED,
         FieldNo(s, A1) != 0, FieldNo(s, A2) != 0, FieldNo(s, R) != 0)
  }

  /** What a record means. */
  function Decode(s: seq<char>, size: nat): Result
    requires Minute(s) && size <= BUFFER_MAX
  {
    if size < 57 then BadFormat
    else if !TwoKinds(s, size) then None
    else if Checks(s) && GoodZone(FieldNo(s, Z)) then Ok(ReadTime(s))
    else BadFormat
  }

  /** The loop that refuses a character that is neither. */
  method TwoKindsCheck(buffer: array<char>, size: nat) returns (ok: bool)
    requires Minute(buffer[..]) && size <= BUFFER_MAX
    ensures ok == TwoKinds(buffer[..], size)
  {
    var i := 0;
    while i < size
      invariant 0 <= i <= size && TwoKinds(buffer[..], i)
    {
      if buffer[i] != One(i) && buffer[i] != Zero(i) {
        assert buffer[..][i] == buffer[i];
        return false;
      }
      i := i + 1;
    }
    return true;
  }

  /** The start bit and parity test. */
  method Passes(buffer: array<char>) returns (ok: bool)
    requires Minute(buffer[..])
    ensures ok == Checks(buffer[..])
  {
    var start := ExtBf(buffer, S);
    var p1 := PCheck(buffer, 0);
    var p2 := PCheck(buffer, 1);
    var p3 := PCheck(buffer, 2);
    ok := start == 1 && p1 == 1 && p2 == 1 && p3 == 1;
  }

  /** Tens and units of a two-digit number. */
  method TwoDigits(buffer: array<char>, tens: nat, units: nat) returns (v: nat)
    requires Minute(buffer[..]) && tens < 20 && units < 20
    ensures v == Two(buffer[..], tens, units)
  {
    v := ExtBf(buffer, tens);
    var low := ExtBf(buffer, units);
    v := 10 * v + low;
  }

  /** The clock time of a record that passed. */
  method Extract(buffer: array<char>) returns (r: Result)
    requires Minute(buffer[..])
    ensures r == if GoodZone(FieldNo(buffer[..], Z)) then Ok(ReadTime(buffer[..])) else BadFormat
  {
    var minute := TwoDigits(buffer, M10, M1);
    var hour := TwoDigits(buffer, H10, H1);
    var day := TwoDigits(buffer, D10, D1);
    var month := TwoDigits(buffer, MO0, MO);
    var year := TwoDigits(buffer, Y10, Y1);
    var zone := ExtBf(buffer, Z);
    var utcoffset, dst;
    if zone == MET {
      utcoffset, dst := -3600, false;
    } else if zone == MED {
      utcoffset, dst := -7200, true;
    } else {
      return BadFormat;
    }
    var a1 := ExtBf(buffer, A1);
    var a2 := ExtBf(buffer, A2);
    var callBit := ExtBf(buffer, R);
    r := Ok(Time(minute, hour, day, month, year, utcoffset, dst, a1 != 0, a2 != 0, callBit != 0));
  }

  /** convert_rawdcf */
  method Convert(buffer: array<char>, size: nat) returns (r: Result)
    requires Minute(buffer[..]) && size <= BUFFER_MAX
    ensures r == Decode(buffer[..], size)
  {
    if size < 57 {
      return BadFormat;
    }
    var kinds := TwoKindsCheck(buffer, size);
    if !kinds {
      return None;
    }
    var ok := Passes(buffer);
    if ok {
      r := Extract(buffer);
    } else {
      r := BadFormat;
    }
  }
}
