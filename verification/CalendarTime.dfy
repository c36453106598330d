/** Times and `struct calendar`: the conversions of libntp/ntp_calendar.c that store
    through a pointer, and the GPS week conversions of libparse/gpstolfp.c on top. */
module CalendarTime {
  import opened CInt
  import opened Calendar
  import opened CalendarDates

  const SECSPERWEEK := 604800
  const GPSORIGIN := 2524953600

  // ----- seconds and days

  /** ntpcal_daysplit, for a signed 64-bit time; the day count is cut to 32 bits. */
  function DaySplit(t: int): Split {
    var hi, lo := I32(Div(t, SECSPERDAY)), I32(Mod(t, SECSPERDAY));
    if lo < 0 then Split(hi - 1, lo + SECSPERDAY) else Split(hi, lo)
  }

  predicate DaysFit(t: int) {
    -TWO31 <= t / SECSPERDAY < TWO31
  }

  /** The second of the day is right for every time; the day number is right while it fits,
      and otherwise right modulo 2^32. */
  lemma DaySplitFloor(t: int)
    ensures DaySplit(t).lo == t % SECSPERDAY && U32(DaySplit(t).hi) == U32(t / SECSPERDAY)
    ensures DaysFit(t) ==> DaySplit(t) == Split(t / SECSPERDAY, t % SECSPERDAY)
  {
    FloorDiv(t, SECSPERDAY);
    SmallRest(Mod(t, SECSPERDAY));
    DayCount(Div(t, SECSPERDAY));
  }

  lemma SmallRest(r: int)
    requires -SECSPERDAY < r < SECSPERDAY
    ensures I32(r) == r
  {
  }

  lemma DayCount(d: int)
    ensures U32(I32(d)) == U32(d) && U32(I32(d) - 1) == U32(d - 1) && (-TWO31 <= d < TWO31 ==> I32(d) == d)
  {
  }

  /** The day part of priv_timesplit: excess days, and the second of the day. */
  function DayPart(ts: int): Split {
    if 0 <= ts < SECSPERDAY then Split(0, ts)
    else if Mod(ts, SECSPERDAY) < 0 then Split(Div(ts, SECSPERDAY) - 1, Mod(ts, SECSPERDAY) + SECSPERDAY)
    else Split(Div(ts, SECSPERDAY), Mod(ts, SECSPERDAY))
  }

  /** The rest of priv_timesplit: hours, minutes and seconds. */
  function ClockFrom(s: int): Clock {
    var m := Div(s, 60);
    Clock(U8(Div(m, 60)), U8(Mod(m, 60)), U8(Mod(s, 60)))
  }

  /** priv_timesplit */
  function TimeSplit(ts: int): (int, Clock) {
    (DayPart(ts).hi, ClockFrom(DayPart(ts).lo))
  }

  predicate IsClock(k: Clock) {
    0 <= k.hour < 24 && 0 <= k.minute < 60 && 0 <= k.second < 60
  }

  /** ntpcal_etime_to_seconds */
  function Seconds(k: Clock): int {
    (k.hour * 60 + k.minute) * 60 + k.second
  }

  lemma DayPartIs(ts: int)
    ensures DayPart(ts) == Split(ts / SECSPERDAY, ts % SECSPERDAY)
  {
    FloorDiv(ts, SECSPERDAY);
  }

  lemma ClockFromIs(s: int)
    requires 0 <= s < SECSPERDAY
    ensures IsClock(ClockFrom(s)) && Seconds(ClockFrom(s)) == s
  {
    var m := s / 60;
    assert 0 <= m < 1440 && s == m * 60 + s % 60;
    assert 0 <= m / 60 < 24 && m == m / 60 * 60 + m % 60;
  }

  /** The split and the sum are inverse: a time of day and the excess days. */
  lemma TimeSplitInverts(ts: int)
    ensures var (days, k) := TimeSplit(ts);
            days == ts / SECSPERDAY && IsClock(k) && Seconds(k) == ts % SECSPERDAY
  {
    DayPartIs(ts);
    ClockFromIs(ts % SECSPERDAY);
  }

  /** A second of the day has one clock time. */
  lemma SameClock(k: Clock, k': Clock)
    requires IsClock(k) && IsClock(k') && Seconds(k) == Seconds(k')
    ensures k == k'
  {
    assert k.hour * 60 + k.minute == k'.hour * 60 + k'.minute;
  }

  // ----- the structure

  /** struct calendar */
  class Cal {
    var year: int
    var yearday: int
    var month: int
    var monthday: int
    var hour: int
    var minute: int
    var second: int
    var weekday: int

    constructor () {
      year, yearday, month, monthday, hour, minute, second, weekday := 0, 0, 0, 0, 0, 0, 0, 0;
    }

    function TheDate(): Date
      reads this
    {
      Date(year, yearday, month, monthday, weekday)
    }

    function TheClock(): Clock
      reads this
    {
      Clock(hour, minute, second)
    }

    /** The weekday, which is stored in eight bits first. */
    method StoreWeekday(rd: int)
      modifies `weekday
      ensures weekday == WeekDay(rd)
    {
      weekday := U8(Mod(rd, 7));
      if weekday >= 7 {
        weekday := U8(weekday + 7);
      }
    }

    /** The statements of ntpcal_rd_to_date. */
    method StoreDate(rd: int) returns (r: int)
      modifies `year, `yearday, `month, `monthday, `weekday
      ensures (TheDate(), r) == CalendarDates.RdToDate(rd)
    {
      StoreWeekday(rd);
      var (s, leap) := SplitEraDays(rd - 1);
      r := StoreSplit(s, leap);
    }

    /** ntpcal_rd_to_date */
    method SetDate(rd: int) returns (r: int)
      modifies `year, `yearday, `month, `monthday, `weekday
      ensures Converted(rd, TheDate(), r) && weekday == rd % 7
    {
      r := StoreDate(rd);
      RdToDateInverts(rd);
    }

    /** The year, month and day part of ntpcal_rd_to_date. */
    method StoreSplit(s: Split, leap: bool) returns (r: int)
      modifies `year, `yearday, `month, `monthday
      ensures (TheDate(), r) == FromSplit(weekday, s, leap)
    {
      r := if leap then 1 else 0;
      year := U16(U16(s.hi) + 1);
      if year != s.hi + 1 {
        year := 0;
        r := -1;
      }
      yearday := U16(U16(s.lo) + 1);
      var m := SplitYearDays(s.lo, leap);
      month := U8(U8(m.hi) + 1);
      monthday := U8(U8(m.lo) + 1);
    }

    /** ntpcal_daysec_to_date */
    method SetClock(sec: int) returns (days: int)
      modifies `hour, `minute, `second
      ensures days == sec / SECSPERDAY && IsClock(TheClock()) && Seconds(TheClock()) == sec % SECSPERDAY
    {
      var (d, k) := TimeSplit(sec);
      hour, minute, second := k.hour, k.minute, k.second;
      days := d;
      TimeSplitInverts(sec);
    }

    /** The fields hold the day and the second of `ds`, counted from day `origin`. */
    ghost predicate Shows(ds: Split, origin: int, r: int)
      reads this
    {
      var rd := ds.hi + origin;
      IsClock(TheClock()) && Seconds(TheClock()) == ds.lo && Converted(rd, TheDate(), r) && weekday == rd % 7
    }

    /** ntpcal_time_to_date (origin 719163) and ntpcal_ntp64_to_date (origin DAY_NTP_STARTS). */
    method SetTime(t: int, origin: int) returns (r: int)
      modifies this
      ensures Shows(DaySplit(t), origin, r)
      ensures DaysFit(t) ==> Shows(Split(t / SECSPERDAY, t % SECSPERDAY), origin, r)
    {
      var ds := DaySplit(t);
      DaySplitFloor(t);
      r := StoreTime(ds, origin);
    }

    /** Clock and date of a day and a second of that day. */
    method StoreTime(ds: Split, origin: int) returns (r: int)
      requires 0 <= ds.lo < SECSPERDAY
      modifies this
      ensures Shows(ds, origin, r)
    {
      var days := SetClock(ds.lo);
      assert days == 0;
      r := SetDate(ds.hi + days + origin);
    }

    /** The time since day `origin` that the fields denote: ntpcal_dayjoin of the
        day number and the second of the day. */
    function Time(origin: int): int
      reads this
    {
      (DateToRd(year, month, monthday) - origin) * SECSPERDAY + Seconds(TheClock())
    }
  }

  /** Fields that show a day of the calendar denote its time. */
  lemma ShownTime(jd: Cal, ds: Split, origin: int, r: int)
    requires jd.Shows(ds, origin, r) && InCalendar(ds.hi + origin)
    ensures jd.Time(origin) == ds.hi * SECSPERDAY + ds.lo
  {
  }

  /** ntpcal_date_to_time inverts ntpcal_time_to_date for every time in the years 0..65535. */
  method TimeThereAndBack(t: int, origin: int) returns (t': int)
    requires DaysFit(t) && InCalendar(t / SECSPERDAY + origin)
    ensures t' == t
  {
    var jd := new Cal();
    var r := jd.SetTime(t, origin);
    ShownTime(jd, Split(t / SECSPERDAY, t % SECSPERDAY), origin, r);
    Rejoined(t);
    t' := jd.Time(origin);
  }

  /** ntpcal_time_to_date inverts ntpcal_date_to_time on every date and time of day of
      the years 0..65535, counted from any day within a billion days. */
  method DateThereAndBack(year: int, month: int, monthday: int, k: Clock, origin: int) returns (jd: Cal)
    requires IsDate(year, month, monthday) && IsClock(k) && -1_000_000_000 <= origin <= 1_000_000_000
    ensures jd.year == year && jd.month == month && jd.monthday == monthday && jd.TheClock() == k
  {
    jd := new Cal();
    jd.year, jd.month, jd.monthday := year, month, monthday;
    jd.hour, jd.minute, jd.second := k.hour, k.minute, k.second;
    var t := jd.Time(origin);
    TimeOfDate(year, month, monthday, k, origin, t);
    var r := jd.SetTime(t, origin);
    DateInCalendar(year, month, monthday);
    SameDay(year, month, monthday, jd.year, jd.month, jd.monthday);
    SameClock(k, jd.TheClock());
  }

  /** Only one date has a given day number. */
  lemma SameDay(year: int, month: int, monthday: int, year': int, month': int, monthday': int)
    requires IsDate(year, month, monthday) && IsDate(year', month', monthday')
    requires DateToRd(year, month, monthday) == DateToRd(year', month', monthday')
    ensures year == year' && month == month' && monthday == monthday'
  {
    DateToRdInverts(year, month, monthday);
    DateToRdInverts(year', month', monthday');
  }

  lemma TimeOfDate(year: int, month: int, monthday: int, k: Clock, origin: int, t: int)
    requires IsDate(year, month, monthday) && IsClock(k) && -1_000_000_000 <= origin <= 1_000_000_000
    requires t == (DateToRd(year, month, monthday) - origin) * SECSPERDAY + Seconds(k)
    ensures DaysFit(t) && t % SECSPERDAY == Seconds(k) && t / SECSPERDAY + origin == DateToRd(year, month, monthday)
  {
    DateBounds(year, month, monthday);
    JoinedDays(DateToRd(year, month, monthday), Seconds(k), origin, t);
  }

  lemma JoinedDays(rd: int, s: int, origin: int, t: int)
    requires -1_000_000_000 <= origin <= 1_000_000_000 && -366 < rd <= 23936166 && 0 <= s < SECSPERDAY
    requires t == (rd - origin) * SECSPERDAY + s
    ensures DaysFit(t) && t / SECSPERDAY + origin == rd && t % SECSPERDAY == s
  {
    DivModUnique(t, SECSPERDAY, rd - origin, s);
  }

  lemma DateBounds(year: int, month: int, monthday: int)
    requires IsDate(year, month, monthday)
    ensures -366 < DateToRd(year, month, monthday) <= 23936166
  {
    DateInCalendar(year, month, monthday);
    CalendarBounds(DateToRd(year, month, monthday));
  }

  lemma DateInCalendar(year: int, month: int, monthday: int)
    requires IsDate(year, month, monthday)
    ensures InCalendar(DateToRd(year, month, monthday))
  {
    DateToRdInverts(year, month, monthday);
    RdToDateInverts(DateToRd(year, month, monthday));
  }

  lemma CalendarBounds(rd: int)
    requires InCalendar(rd)
    ensures -366 < rd <= 23936166
  {
    DaysInYearsIsSum(0xFFFF);
    DaysInYearsIsSum(-1);
  }

  // ----- GPS weeks

  /** The NTP time that gpstocal computes, in 64-bit arithmetic. */
  function GpsTime(week: int, tow: int, offset: int): int {
    U64(U64(U64(GPSORIGIN - offset) + week * SECSPERWEEK) + tow)
  }

  /** gpstocal */
  method GpsToCal(week: int, tow: int, offset: int, out: Cal) returns (ghost r: int)
    modifies out
    ensures var t := I64(GpsTime(week, tow, offset));
            out.Shows(DaySplit(t), DAY_NTP_STARTS, r) &&
            (DaysFit(t) ==> out.Shows(Split(t / SECSPERDAY, t % SECSPERDAY), DAY_NTP_STARTS, r))
  {
    r := out.SetTime(I64(GpsTime(week, tow, offset)), DAY_NTP_STARTS);
  }

  /** The seconds from the start of the GPS time scale to a date. */
  function GpsSeconds(time: int, offset: int): int { time - (GPSORIGIN - offset) }

  /** caltogps: weeks and seconds that add up to the time since the start of the GPS time scale,
      as long as that is not negative and its weeks fit 32 bits. */
  method CalToGps(jd: Cal, offset: int) returns (week: int, tow: int)
    ensures var s := GpsSeconds(jd.Time(DAY_NTP_STARTS), offset);
            0 <= tow < SECSPERWEEK && 0 <= week < TWO32 &&
            (0 <= s < TWO32 * SECSPERWEEK ==> week * SECSPERWEEK + tow == s)
  {
    ghost var time := jd.Time(DAY_NTP_STARTS);
    var t := U64(jd.Time(DAY_NTP_STARTS));
    t := U64(t - U64(GPSORIGIN - offset));
    Difference64(time, GPSORIGIN - offset);
    WeeksOf(t);
    week := U32(Div(t, SECSPERWEEK));
    tow := Mod(t, SECSPERWEEK);
  }

  lemma Difference64(a: int, b: int)
    ensures U64(U64(a) - U64(b)) == U64(a - b)
  {
  }

  lemma WeeksOf(t: int)
    requires 0 <= t < TWO64
    ensures t < TWO32 * SECSPERWEEK ==> U32(t / SECSPERWEEK) * SECSPERWEEK + t % SECSPERWEEK == t
  {
    if t < TWO32 * SECSPERWEEK {
      assert 0 <= t / SECSPERWEEK < TWO32;
    }
  }

  /** caltogps inverts gpstocal for every week and second whose date is in the years
      0..65535; a time of week of a week or more counts on into later weeks. */
  method GpsThereAndBack(week: int, tow: int, offset: int) returns (week': int, tow': int)
    requires 0 <= week < TWO32 && 0 <= tow < TWO64 && -TWO31 <= offset < TWO31
    requires InCalendar((GPSORIGIN - offset + week * SECSPERWEEK + tow) / SECSPERDAY + DAY_NTP_STARTS)
    ensures week' * SECSPERWEEK + tow' == week * SECSPERWEEK + tow && 0 <= tow' < SECSPERWEEK
  {
    ghost var s := week * SECSPERWEEK + tow;
    CalendarBounds((GPSORIGIN - offset + s) / SECSPERDAY + DAY_NTP_STARTS);
    WeeksFit(s, offset);
    var out := GpsDate(week, tow, offset, s);
    week', tow' := CalToGps(out, offset);
  }

  lemma WeeksFit(s: int, offset: int)
    requires (GPSORIGIN - offset + s) / SECSPERDAY <= 23936166 && -TWO31 <= offset < TWO31
    ensures s < TWO32 * SECSPERWEEK
  {
  }

  /** The date from gpstocal denotes the time that was put in. */
  method GpsDate(week: int, tow: int, offset: int, ghost s: int) returns (out: Cal)
    requires 0 <= week && 0 <= tow && -TWO31 <= offset < TWO31 && s == week * SECSPERWEEK + tow
    requires InCalendar((GPSORIGIN - offset + s) / SECSPERDAY + DAY_NTP_STARTS)
    requires (GPSORIGIN - offset + s) / SECSPERDAY <= 23936166
    ensures fresh(out) && GpsSeconds(out.Time(DAY_NTP_STARTS), offset) == s
  {
    NoWrap(week, tow, offset);
    out := DateAt(week, tow, offset, GPSORIGIN - offset + s);
  }

  method DateAt(week: int, tow: int, offset: int, ghost t: int) returns (out: Cal)
    requires t == I64(GpsTime(week, tow, offset)) && DaysFit(t) && InCalendar(t / SECSPERDAY + DAY_NTP_STARTS)
    ensures fresh(out) && out.Time(DAY_NTP_STARTS) == t
  {
    out := new Cal();
    ghost var r := GpsToCal(week, tow, offset, out);
    ShownTime(out, Split(t / SECSPERDAY, t % SECSPERDAY), DAY_NTP_STARTS, r);
    Rejoined(t);
  }

  lemma Rejoined(t: int)
    ensures t / SECSPERDAY * SECSPERDAY + t % SECSPERDAY == t
  {
  }

  /** No step of the conversion leaves 63 bits. */
  lemma NoWrap(week: int, tow: int, offset: int)
    requires 0 <= week && 0 <= tow && -TWO31 <= offset < TWO31
    requires (GPSORIGIN - offset + week * SECSPERWEEK + tow) / SECSPERDAY <= 23936166
    ensures I64(GpsTime(week, tow, offset)) == GPSORIGIN - offset + week * SECSPERWEEK + tow
    ensures DaysFit(GPSORIGIN - offset + week * SECSPERWEEK + tow)
  {
    var a, b := GPSORIGIN - offset, week * SECSPERWEEK;
    assert 0 < a && 0 <= b && a + b + tow < TWO63;
    Unwrapped(a);
    Unwrapped(a + b);
    Unwrapped(a + b + tow);
  }

  lemma Unwrapped(x: int)
    requires 0 <= x < TWO63
    ensures U64(x) == x && I64(x) == x
  {
  }

  // ----- gpsweekadj

  /** The greatest 32-bit week number in steps of a rollover. */
  function LastWeek(week: int): int { TWO32 - 1024 + week % 1024 }

  /** The week number after some turns of the loop of gpsweekadj. */
  function WeekAfter(week: int, n: nat): int { U32(week + 1024 * n) }

  /** The loop of gpsweekadj can end if and only if the greatest week number is not before the build week. */
  lemma WeekAdjEndsIff(week: int, buildWeek: int)
    requires 0 <= week < TWO32
    ensures (exists n: nat :: WeekAfter(week, n) >= buildWeek) <==> LastWeek(week) >= buildWeek
  {
    if LastWeek(week) >= buildWeek {
      var n: nat := TWO32 / 1024 - 1 - week / 1024;
      assert week + 1024 * n == LastWeek(week);
      assert WeekAfter(week, n) >= buildWeek;
    }
    forall n: nat ensures WeekAfter(week, n) <= LastWeek(week) {
      WeekStep(week, n);
    }
  }

  lemma WeekStep(week: int, n: nat)
    ensures WeekAfter(week, n) % 1024 == week % 1024 && WeekAfter(week, n) <= LastWeek(week)
  {
    var x := week + 1024 * n;
    assert x % 1024 == week % 1024;
    LowTenBits(x);
  }

  lemma LowTenBits(x: int)
    ensures U32(x) % 1024 == x % 1024 && U32(x) <= TWO32 - 1024 + x % 1024
  {
  }

  /** gpsweekadj: the first week number from `week` on, in steps of a rollover, that is
      not before the build week, whenever there is one. */
  method WeekAdj(week: int, buildWeek: int) returns (w: int)
    requires 0 <= week < TWO32 && LastWeek(week) >= buildWeek
    ensures w >= buildWeek && w % 1024 == week % 1024 && (w == week || w - 1024 < buildWeek)
    ensures week <= w < TWO32
  {
    w := week;
    while w < buildWeek
      invariant week <= w <= LastWeek(week) && w % 1024 == week % 1024
      invariant w == week || w - 1024 < buildWeek
      decreases buildWeek - w
    {
      NextWeek(week, w);
      w := U32(w + 1024);
    }
  }

  lemma NextWeek(week: int, w: int)
    requires 0 <= w < LastWeek(week) && w % 1024 == week % 1024
    ensures w + 1024 <= LastWeek(week) && U32(w + 1024) == w + 1024 && (w + 1024) % 1024 == week % 1024
  {
    var a, r := w / 1024, week % 1024;
    assert w == 1024 * a + r && 1024 * a < TWO32 - 1024;
    assert a < TWO32 / 1024 - 1;
  }
}
