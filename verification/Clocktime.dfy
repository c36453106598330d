/** libntp/clocktime.c: the year that makes a time of year closest to a receive time. */
module Clocktime {
  import opened CInt
  import opened Calendar
  import opened CalendarDates
  import opened CalendarTime
  import opened Era

  const CLOSETIME := 4 * 60 * 60
  const NEARTIME := 182 * SECSPERDAY

  // ----- the code, in 32-bit arithmetic

  /** ntp_to_year */
  function NtpToYear(ntp: int, pivot: int): int {
    YearOf(I64(NtpToNtp(ntp, pivot)))
  }

  /** The year of a 64-bit NTP time. */
  function YearOf(t: int): int {
    EraYear(DaySplit(t).hi + DAY_NTP_STARTS - 1)
  }

  function EraYear(days: int): int {
    SplitEraDays(days).0.hi + 1
  }

  /** year_to_ntp */
  function YearToNtp(year: int): int {
    U32(U32(U32(DaysInYears(year - 1)) - DAY_NTP_STARTS + 1) * SECSPERDAY)
  }

  /** The absolute difference of two 32-bit time stamps. */
  function Distance(a: int, b: int): (d: int)
    ensures 0 <= d <= TWO31
  {
    var d := U32(a - b);
    if d >= TWO31 then U32(-d) else d
  }

  /** The offset into the year in seconds. */
  function Offset(yday: int, hour: int, minute: int, second: int): (r: int)
    ensures 0 <= r < TWO32
  {
    U32(second + 60 * (minute + 60 * (hour + 24 * (yday - 1))))
  }

  // ----- what it is about, in unbounded time

  /** The start of a year, in seconds of NTP time. */
  function Start(y: int): int {
    (DaysBefore(y - 1) + 1 - DAY_NTP_STARTS) * SECSPERDAY
  }

  /** The receive time less the offset, unfolded around the pivot: a start of a year
      is as far from here as its time stamp is from the receive time. */
  function Target(rec: int, offset: int, pivot: int): (t: int)
    ensures t % TWO32 == (rec - offset) % TWO32
  {
    var x := U32(rec - offset) - JAN_1970;
    AddCongruent(Unfold(x, pivot), x, JAN_1970);
    Unfold(x, pivot) + JAN_1970
  }

  function Abs(x: int): int { if x < 0 then -x else x }

  ghost predicate Nearest(y: int, t: int) {
    forall z :: Abs(Start(y) - t) <= Abs(Start(z) - t)
  }

  // ----- the pieces

  lemma WrapProduct(a: int, b: int)
    requires a % TWO32 == b % TWO32
    ensures U32(a * SECSPERDAY) == U32(b * SECSPERDAY)
  {
    var k := a / TWO32 - b / TWO32;
    assert a == b + k * TWO32;
    assert a * SECSPERDAY == b * SECSPERDAY + k * SECSPERDAY * TWO32;
    RestOfSum(b * SECSPERDAY, 0, TWO32, k * SECSPERDAY);
  }

  /** The time stamp of a year start is its NTP time modulo 2^32. */
  lemma YearToNtpIsStart(y: int)
    ensures YearToNtp(y) == U32(Start(y))
  {
    DaysInYearsIsSum(y - 1);
    var d := DaysBefore(y - 1);
    DaysWrap(d);
    WrapProduct(U32(U32(d) - DAY_NTP_STARTS + 1), d + 1 - DAY_NTP_STARTS);
  }

  lemma DaysWrap(d: int)
    ensures U32(U32(d) - DAY_NTP_STARTS + 1) % TWO32 == (d + 1 - DAY_NTP_STARTS) % TWO32
  {
  }

  /** Distances less than half an era are true distances. */
  lemma DistanceIs(a: int, b: int, x: int)
    requires (a - b) % TWO32 == x % TWO32 && Abs(x) <= TWO31
    ensures Distance(a, b) == Abs(x)
  {
  }

  /** The time stamp that ntp_to_year unfolds is the target. */
  lemma UnfoldedIsTarget(rec: int, offset: int, pivot: int)
    requires -TWO63 <= pivot < TWO63 && DaysFit(Target(rec, offset, pivot))
    ensures I64(NtpToNtp(U32(rec - offset), pivot)) == Target(rec, offset, pivot)
  {
    UnfoldsAroundPivot(U32(rec - offset), pivot);
    SignedTime(Target(rec, offset, pivot));
  }

  lemma SignedTime(t: int)
    requires DaysFit(t)
    ensures I64(U64(t)) == t
  {
  }

  /** The year guessed is the one the time falls in. */
  lemma YearOfTime(t: int)
    requires DaysFit(t)
    ensures Start(YearOf(t)) <= t < Start(YearOf(t) + 1)
  {
    YearOfIs(t);
    YearOfDays(t / SECSPERDAY + DAY_NTP_STARTS - 1, t);
  }

  lemma YearOfIs(t: int)
    requires DaysFit(t)
    ensures YearOf(t) == EraYear(t / SECSPERDAY + DAY_NTP_STARTS - 1)
  {
    DaySplitFloor(t);
  }

  lemma YearOfDays(days: int, t: int)
    requires days == t / SECSPERDAY + DAY_NTP_STARTS - 1
    ensures Start(EraYear(days)) <= t < Start(EraYear(days) + 1)
  {
    SplitIsSplit(days);
    YearHolds(days, SplitEraDays(days).0, SplitEraDays(days).1, t);
  }

  lemma YearHolds(days: int, s: Split, leap: bool, t: int)
    requires IsSplit(days, s, leap) && days == t / SECSPERDAY + DAY_NTP_STARTS - 1
    ensures Start(s.hi + 1) <= t < Start(s.hi + 2)
  {
    assert DaysBefore(s.hi + 1) == DaysBefore(s.hi) + YearLength(s.hi + 1);
  }

  lemma StartsApart(a: int, b: int)
    requires a <= b
    ensures Start(a) + 365 * SECSPERDAY * (b - a) <= Start(b)
  {
    YearsApart(a - 1, b - 1);
  }

  lemma NextStart(y: int)
    ensures 365 * SECSPERDAY <= Start(y + 1) - Start(y) <= 366 * SECSPERDAY
  {
    assert DaysBefore(y) == DaysBefore(y - 1) + YearLength(y);
  }

  /** Whichever of a year and the next is closer to a time between them is the nearest of all. */
  lemma NearestOfTwo(y: int, t: int, best: int)
    requires Start(y) <= t < Start(y + 1) && (best == y || best == y + 1)
    requires Abs(Start(best) - t) <= Abs(Start(y) - t) && Abs(Start(best) - t) <= Abs(Start(y + 1) - t)
    ensures Nearest(best, t)
  {
    forall z ensures Abs(Start(best) - t) <= Abs(Start(z) - t) {
      if z <= y { StartsApart(z, y); } else { StartsApart(y + 1, z); }
    }
  }

  // ----- the search

  /** The year among `y - 1`, `y`, `y + 1` that has the least of three distances, `y` if none is less. */
  function Pick(y: int, before: int, here: int, after: int): int {
    if before < here then (if after < before then y + 1 else y - 1) else if after < here then y + 1 else y
  }

  /** How far the start of a year is from a target. */
  function Away(y: int, t: int): int { Abs(Start(y) - t) }

  /** What the search over three years finds for a target in year `y`. */
  function Best(y: int, t: int): int {
    Pick(y, Away(y - 1, t), Away(y, t), Away(y + 1, t))
  }

  lemma BestIsNearest(y: int, t: int)
    requires Start(y) <= t < Start(y + 1)
    ensures Nearest(Best(y, t), t) && Away(Best(y, t), t) <= 183 * SECSPERDAY
  {
    NextStart(y - 1);
    NextStart(y);
    NearestOfTwo(y, t, Best(y, t));
  }

  /** How far the time stamp that a year gives is from the receive time, in 32-bit arithmetic. */
  function StampAway(y: int, offset: int, rec: int): int {
    Distance(U32(U32(Start(y)) + offset), rec)
  }

  /** What clocktime works out for one year: start of the year, time stamp, distance. */
  predicate Tried(y: int, offset: int, rec: int, yearstart: int, ts: int, d: int) {
    yearstart == U32(Start(y)) && ts == U32(yearstart + offset) && d == StampAway(y, offset, rec)
  }

  /** The outcome when clocktime settles on a year: its start, the time stamp, and whether that is close. */
  predicate Settled(y: int, offset: int, rec: int, close: bool, yearstart: int, ts: int) {
    yearstart == U32(Start(y)) && ts == U32(yearstart + offset) && close == (StampAway(y, offset, rec) < CLOSETIME)
  }

  /** Distances of 32-bit time stamps are true distances of the year starts. */
  lemma StampAwayIs(y: int, offset: int, rec: int, t: int)
    requires t % TWO32 == (rec - offset) % TWO32 && Away(y, t) <= TWO31
    ensures StampAway(y, offset, rec) == Away(y, t)
  {
    StampDifference(Start(y), offset, rec, t);
    DistanceIs(U32(U32(Start(y)) + offset), rec, Start(y) - t);
  }

  lemma StampDifference(a: int, offset: int, rec: int, t: int)
    requires t % TWO32 == (rec - offset) % TWO32
    ensures (U32(U32(a) + offset) - rec) % TWO32 == (a - t) % TWO32
  {
    AddCongruent(U32(a), a, offset);
    AddCongruent(U32(U32(a) + offset), a + offset, -rec);
    var k := t / TWO32 - (rec - offset) / TWO32;
    assert t == rec - offset + k * TWO32;
    RestOfSum(a + offset - rec, 0, TWO32, -k);
  }

  /** The absolute difference of two time stamps. */
  method Difference(test: int, rec: int) returns (diff: int)
    ensures diff == Distance(test, rec)
  {
    diff := U32(test - rec);
    if diff >= TWO31 {
      diff := U32(-diff);
    }
  }

  /** One year of the first loop. */
  method Try(y: int, offset: int, rec: int) returns (yst: int, test: int, diff: int)
    ensures Tried(y, offset, rec, yst, test, diff)
  {
    YearToNtpIsStart(y);
    yst := YearToNtp(y);
    test := U32(yst + offset);
    diff := Difference(test, rec);
  }

  /** The first loop of clocktime: year starts, time stamps and distances. */
  method Candidates(y: int, offset: int, rec: int) returns (ystt: array<int>, test: array<int>, diff: array<int>)
    ensures ystt.Length == test.Length == diff.Length == 3
    ensures forall i :: 0 <= i < 3 ==> Tried(y + i - 1, offset, rec, ystt[i], test[i], diff[i])
  {
    ystt, test, diff := new int[3], new int[3], new int[3];
    var idx := 0;
    while idx < 3
      invariant 0 <= idx <= 3
      invariant forall i :: 0 <= i < idx ==> Tried(y + i - 1, offset, rec, ystt[i], test[i], diff[i])
    {
      ystt[idx], test[idx], diff[idx] := Try(y + idx - 1, offset, rec);
      idx := idx + 1;
    }
  }

  /** The second loop: the index of the least distance, the middle one if none is less. */
  method Least(diff: array<int>) returns (min: nat)
    requires diff.Length == 3
    ensures min < 3 && min == Pick(1, diff[0], diff[1], diff[2])
  {
    min := 1;
    var idx := 0;
    while idx < 3
      invariant 0 <= idx <= 3
      invariant min == if idx >= 1 && diff[0] < diff[1] then (if idx == 3 && diff[2] < diff[0] then 2 else 0)
                       else if idx == 3 && diff[2] < diff[1] then 2 else 1
    {
      if diff[idx] < diff[min] {
        min := idx;
      }
      idx := idx + 1;
    }
  }

  /** The year that the three-year search around `y` settles on. */
  function Picked(y: int, offset: int, rec: int): int {
    Pick(y, StampAway(y - 1, offset, rec), StampAway(y, offset, rec), StampAway(y + 1, offset, rec))
  }

  /** The three-year search around the year `y` that was guessed. */
  method SearchAround(y: int, offset: int, rec: int) returns (close: bool, yearstart: int, ts: int)
    ensures Settled(Picked(y, offset, rec), offset, rec, close, yearstart, ts)
  {
    var ystt, test, diff := Candidates(y, offset, rec);
    var min := Least(diff);
    assert Tried(y + 0 - 1, offset, rec, ystt[0], test[0], diff[0]);
    assert Tried(y + 1 - 1, offset, rec, ystt[1], test[1], diff[1]);
    assert Tried(y + 2 - 1, offset, rec, ystt[2], test[2], diff[2]);
    assert Tried(y + min - 1, offset, rec, ystt[min], test[min], diff[min]);
    ts, yearstart, close := test[min], ystt[min], diff[min] < CLOSETIME;
  }

  /** Around the year of the target the search settles on the best year. */
  lemma PickedIsBest(y: int, offset: int, rec: int, t: int)
    requires t % TWO32 == (rec - offset) % TWO32 && Start(y) <= t < Start(y + 1)
    ensures Picked(y, offset, rec) == Best(y, t) && StampAway(Best(y, t), offset, rec) == Away(Best(y, t), t)
  {
    NextStart(y - 1);
    NextStart(y);
    StampAwayIs(y - 1, offset, rec, t);
    StampAwayIs(y, offset, rec, t);
    StampAwayIs(y + 1, offset, rec, t);
  }

  /** What the full search finds for a target. */
  function Found(t: int): int {
    Best(YearOf(t), t)
  }

  /** The year that the full search settles on. */
  function Searched(offset: int, pivot: int, rec: int): int {
    Picked(NtpToYear(U32(rec - offset), pivot), offset, rec)
  }

  /** While the day count of the target fits, the full search settles on the year start nearest to
      the target, over all years, and its distance is the true one. */
  lemma SearchIsNearest(offset: int, pivot: int, rec: int)
    requires -TWO63 <= pivot < TWO63 && DaysFit(Target(rec, offset, pivot))
    ensures var t := Target(rec, offset, pivot);
            Searched(offset, pivot, rec) == Found(t) && Nearest(Found(t), t) &&
            Away(Found(t), t) <= 183 * SECSPERDAY && StampAway(Found(t), offset, rec) == Away(Found(t), t)
  {
    var t := Target(rec, offset, pivot);
    UnfoldedIsTarget(rec, offset, pivot);
    YearOfTime(t);
    PickedIsBest(YearOf(t), offset, rec, t);
    BestIsNearest(YearOf(t), t);
  }

  /** The outcome of the full search: that of one of three years for every input, and that of the
      year start nearest to the target while the day count of the target fits. */
  ghost predicate SearchOutcome(offset: int, pivot: int, rec: int, close: bool, yearstart: int, ts: int) {
    Settled(Searched(offset, pivot, rec), offset, rec, close, yearstart, ts) &&
    var t := Target(rec, offset, pivot);
    (DaysFit(t) ==> Nearest(Found(t), t) && yearstart == U32(Start(Found(t))) && close == (Away(Found(t), t) < CLOSETIME))
  }

  /** The full search of clocktime. */
  method Search(offset: int, pivot: int, rec: int) returns (close: bool, yearstart: int, ts: int)
    requires -TWO63 <= pivot < TWO63
    ensures SearchOutcome(offset, pivot, rec, close, yearstart, ts)
  {
    if DaysFit(Target(rec, offset, pivot)) { SearchIsNearest(offset, pivot, rec); }
    close, yearstart, ts := SearchAround(NtpToYear(U32(rec - offset), pivot), offset, rec);
  }

  // ----- the whole of clocktime

  /** The cached year start is good enough. */
  predicate FastPath(cached: int, offset: int, rec: int) {
    cached != 0 && Distance(U32(cached + offset), rec) < NEARTIME
  }

  /** The attempt with the cached year start. */
  method TryCached(cached: int, offset: int, rec: int) returns (hit: bool, close: bool, test: int)
    ensures hit == FastPath(cached, offset, rec)
    ensures hit ==> test == U32(cached + offset) && close == (Distance(test, rec) < CLOSETIME)
  {
    hit, close, test := false, false, 0;
    if cached != 0 {
      test := U32(cached + offset);
      var diff := Difference(test, rec);
      hit, close := diff < NEARTIME, diff < CLOSETIME;
    }
  }

  /** clocktime: a four-digit year is taken as it is, a cached year start if it is near,
      and otherwise the nearest year start is searched for. */
  method Clocktime(year: int, yday: int, hour: int, minute: int, second: int, pivot: int, rec: int, cached: int)
    returns (close: bool, yearstart: int, ts: int)
    requires -TWO63 <= pivot < TWO63
    ensures var offset := Offset(yday, hour, minute, second);
            if year > 1970 then close && yearstart == U32(Start(year)) && ts == U32(yearstart + offset)
            else if FastPath(cached, offset, rec) then
              yearstart == cached && ts == U32(cached + offset) && close == (Distance(ts, rec) < CLOSETIME)
            else SearchOutcome(offset, pivot, rec, close, yearstart, ts)
  {
    var tmp := Offset(yday, hour, minute, second);
    if year > 1970 {
      YearToNtpIsStart(year);
      yearstart := YearToNtp(year);
      ts := U32(yearstart + tmp);
      return true, yearstart, ts;
    }
    var hit;
    hit, close, ts := TryCached(cached, tmp, rec);
    if hit {
      return close, cached, ts;
    }
    close, yearstart, ts := Search(tmp, pivot, rec);
  }

  /** The answer from the cached year start is the one that the full search gives. */
  predicate AnswersAgree(cached: int, offset: int, rec: int, t: int) {
    var ts := U32(cached + offset);
    ts == U32(U32(Start(Found(t))) + offset) && (Distance(ts, rec) < CLOSETIME <==> Away(Found(t), t) < CLOSETIME)
  }

  /** The cached value is the time stamp of a year start less than half an era from the target. */
  ghost predicate IsYearStart(cached: int, t: int) {
    exists y :: Away(y, t) < TWO31 && cached == U32(Start(y))
  }

  /** A year start less than NEARTIME away has no nearer rival. */
  lemma NearIsBest(y: int, z: int, t: int)
    requires Away(y, t) < NEARTIME && Nearest(z, t)
    ensures y == z
  {
    assert Away(z, t) <= Away(y, t);
    if y < z { StartsApart(y, z); } else if z < y { StartsApart(z, y); }
  }

  lemma SumInjective(a: int, b: int, offset: int)
    requires 0 <= a < TWO32 && 0 <= b < TWO32 && U32(a + offset) == U32(b + offset)
    ensures a == b
  {
    AddCongruent(a + offset, b + offset, -offset);
  }

  /** The fast path answers as the full search would exactly when the cache holds a year start
      of the era around the target. */
  lemma FastPathIff(cached: int, offset: int, rec: int, pivot: int)
    requires 0 <= cached < TWO32 && FastPath(cached, offset, rec)
    requires -TWO63 <= pivot < TWO63 && DaysFit(Target(rec, offset, pivot))
    ensures var t := Target(rec, offset, pivot); AnswersAgree(cached, offset, rec, t) <==> IsYearStart(cached, t)
  {
    var t := Target(rec, offset, pivot);
    SearchIsNearest(offset, pivot, rec);
    AgreeingIsStart(cached, offset, rec, t, Found(t));
    StartAgrees(cached, offset, rec, t, Found(t));
  }

  lemma AgreeingIsStart(cached: int, offset: int, rec: int, t: int, best: int)
    requires 0 <= cached < TWO32 && best == Found(t) && Away(best, t) <= 183 * SECSPERDAY
    ensures AnswersAgree(cached, offset, rec, t) ==> IsYearStart(cached, t)
  {
    if AnswersAgree(cached, offset, rec, t) {
      SumInjective(cached, U32(Start(best)), offset);
      assert Away(best, t) < TWO31 && cached == U32(Start(best));
    }
  }

  lemma StartAgrees(cached: int, offset: int, rec: int, t: int, best: int)
    requires FastPath(cached, offset, rec)
    requires t % TWO32 == (rec - offset) % TWO32 && best == Found(t) && Nearest(best, t)
    ensures IsYearStart(cached, t) ==> AnswersAgree(cached, offset, rec, t)
  {
    if IsYearStart(cached, t) {
      var y :| Away(y, t) < TWO31 && cached == U32(Start(y));
      StampAwayIs(y, offset, rec, t);
      NearIsBest(y, best, t);
    }
  }

  /** A cached value that is no year start answers differently. */
  lemma StaleCacheDiffers()
    ensures FastPath(1, 0, 1) && !AnswersAgree(1, 0, 1, Target(1, 0, -JAN_1970))
  {
    assert Target(1, 0, -JAN_1970) == 1;
    forall y ensures !(Away(y, 1) < TWO31 && 1 == U32(Start(y))) {
      NoDayAtOne(DaysBefore(y - 1) + 1 - DAY_NTP_STARTS);
    }
    FastPathIff(1, 0, 1, -JAN_1970);
  }

  lemma NoDayAtOne(days: int)
    ensures !(Abs(days * SECSPERDAY - 1) < TWO31 && U32(days * SECSPERDAY) == 1)
  {
  }
}
