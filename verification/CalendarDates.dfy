/** Dates: conversion between day numbers, times and the fields of a `struct
    calendar`, as libntp/ntp_calendar.c and libparse/gpstolfp.c do it. */
module CalendarDates {
  import opened CInt
  import opened Calendar

  datatype Date = Date(year: int, yearday: int, month: int, monthday: int, weekday: int)
  datatype Clock = Clock(hour: int, minute: int, second: int)

  // ----- day numbers and dates

  /** What ntpcal_rd_to_date stores and returns. */
  function RdToDate(rd: int): (Date, int) {
    var (s, leap) := SplitEraDays(rd - 1);
    FromSplit(WeekDay(rd), s, leap)
  }

  /** The remainder is stored in eight bits, which makes a negative one 250 or more. */
  function WeekDay(rd: int): int {
    var w := U8(Mod(rd, 7));
    if w >= 7 then U8(w + 7) else w
  }

  /** The fields and the result, with the conversions to the types of the fields. */
  function FromParts(weekday: int, s: Split, leap: bool, m: Split): (Date, int) {
    var y := U16(U16(s.hi) + 1);
    (Date(if y != s.hi + 1 then 0 else y, U16(U16(s.lo) + 1), U8(U8(m.hi) + 1), U8(U8(m.lo) + 1), weekday),
     if y != s.hi + 1 then -1 else if leap then 1 else 0)
  }

  function FromSplit(weekday: int, s: Split, leap: bool): (Date, int) {
    FromParts(weekday, s, leap, SplitYearDays(s.lo, leap))
  }

  /** ntpcal_date_to_rd */
  function DateToRd(year: int, month: int, monthday: int): int {
    EraDays(year - 1, month - 1, monthday - 1) + 1
  }

  /** A date of the years a `struct calendar` can hold. */
  predicate IsDate(year: int, month: int, monthday: int) {
    0 <= year < 0x1_0000 && 1 <= month <= 12 && 1 <= monthday <= MonthLength(IsLeap(year), month - 1)
  }

  /** The day numbers of those years. */
  predicate InCalendar(rd: int) {
    DaysBefore(-1) < rd <= DaysBefore(0xFFFF)
  }

  /** `s` and `leap` are a day's year, day of the year and leap flag. */
  ghost predicate IsSplit(days: int, s: Split, leap: bool) {
    DaysBefore(s.hi) + s.lo == days && 0 <= s.lo < YearLength(s.hi + 1) && leap == IsLeap(s.hi + 1)
  }

  lemma SplitIsSplit(days: int)
    ensures IsSplit(days, SplitEraDays(days).0, SplitEraDays(days).1)
  {
    SplitEraDaysIsYear(days);
    DaysInYearsIsSum(SplitEraDays(days).0.hi);
  }

  lemma {:induction false} YearsApart(a: int, b: int)
    requires a <= b
    ensures DaysBefore(a) + 365 * (b - a) <= DaysBefore(b)
    decreases b - a
  {
    if a < b { YearsApart(a, b - 1); }
  }

  /** Only one year has a given day. */
  lemma YearIsUnique(y: int, days: int, s: Split, leap: bool)
    requires IsSplit(days, s, leap) && DaysBefore(y) <= days < DaysBefore(y + 1)
    ensures s == Split(y, days - DaysBefore(y))
  {
    if s.hi < y {
      YearsApart(s.hi + 1, y);
    } else if s.hi > y {
      YearsApart(y + 1, s.hi);
    }
  }

  lemma {:induction false} MonthsApart(leap: bool, a: int, b: int)
    requires 0 <= a <= b <= 12
    ensures DaysOfMonths(leap, a) <= DaysOfMonths(leap, b)
    decreases b - a
  {
    if a < b { MonthsApart(leap, a, b - 1); }
  }

  lemma YearHasMonths(y: int)
    ensures DaysOfMonths(IsLeap(y), 12) == YearLength(y)
  {
    TableIsSum(IsLeap(y), 12);
  }

  /** Only one month has a given day of the year. */
  lemma MonthIsUnique(leap: bool, m: int, d: int)
    requires 0 <= m < 12 && 0 <= d < MonthLength(leap, m)
    ensures SplitYearDays(DaysOfMonths(leap, m) + d, leap) == Split(m, d)
  {
    var eyd := DaysOfMonths(leap, m) + d;
    MonthInYear(leap, m, d);
    SplitYearDaysIsMonth(eyd, leap);
    SameMonth(leap, m, d, SplitYearDays(eyd, leap));
  }

  lemma MonthInYear(leap: bool, m: int, d: int)
    requires 0 <= m < 12 && 0 <= d < MonthLength(leap, m)
    ensures 0 <= DaysOfMonths(leap, m) + d < (if leap then 366 else 365)
  {
    TableIsSum(leap, 12);
    MonthsApart(leap, m + 1, 12);
    MonthsApart(leap, 0, m);
  }

  lemma SameMonth(leap: bool, m: int, d: int, s: Split)
    requires 0 <= m < 12 && 0 <= d < MonthLength(leap, m) && IsMonth(DaysOfMonths(leap, m) + d, leap, s)
    ensures s == Split(m, d)
  {
    if s.hi < m {
      MonthsApart(leap, s.hi + 1, m);
    } else if s.hi > m {
      MonthsApart(leap, m + 1, s.hi);
    }
  }

  /** The year of a day number is in range exactly for the day numbers of those years. */
  lemma YearInRange(rd: int, s: Split, leap: bool)
    requires IsSplit(rd - 1, s, leap)
    ensures 0 <= s.hi + 1 < 0x1_0000 <==> InCalendar(rd)
  {
    var h := s.hi;
    if h < -1 { YearsApart(h + 1, -1); } else { YearsApart(-1, h); }
    if h < 0xFFFF { YearsApart(h + 1, 0xFFFF); } else { YearsApart(0xFFFF, h); }
  }

  /** A year is stored unchanged just when it fits 16 bits. */
  lemma YearField(h: int)
    ensures U16(U16(h) + 1) == h + 1 <==> 0 <= h + 1 < 0x1_0000
  {
  }

  /** The fields stored for a day with a year that fits. */
  lemma FieldsStored(w: int, s: Split, leap: bool)
    requires 0 <= s.hi + 1 < 0x1_0000 && 0 <= s.lo < (if leap then 366 else 365)
    ensures var m := SplitYearDays(s.lo, leap);
            FromSplit(w, s, leap) == (Date(s.hi + 1, s.lo + 1, m.hi + 1, m.lo + 1, w), if leap then 1 else 0)
  {
    SplitYearDaysIsMonth(s.lo, leap);
    PartsStored(w, s, leap, SplitYearDays(s.lo, leap));
  }

  lemma PartsStored(w: int, s: Split, leap: bool, m: Split)
    requires 0 <= s.hi + 1 < 0x1_0000 && 0 <= s.lo < 366 && 0 <= m.hi < 12 && 0 <= m.lo < 31
    ensures FromParts(w, s, leap, m) == (Date(s.hi + 1, s.lo + 1, m.hi + 1, m.lo + 1, w), if leap then 1 else 0)
  {
    YearField(s.hi);
    SmallField(s.lo);
    SmallField(m.hi);
    SmallField(m.lo);
  }

  lemma SmallField(x: int)
    requires 0 <= x < 366
    ensures U16(U16(x) + 1) == x + 1 && (x < 255 ==> U8(U8(x) + 1) == x + 1)
  {
  }

  /** The day number of a date, counted out. */
  lemma RdOfDate(year: int, month: int, monthday: int)
    requires 1 <= month <= 12
    ensures DateToRd(year, month, monthday) ==
            DaysBefore(year - 1) + DaysOfMonths(IsLeap(year), month - 1) + monthday
  {
    EraDaysCounts(year - 1, month - 1, monthday - 1);
  }

  /** The date `d` and result `r` are right for day number `rd`: exactly the days of
      the years 0..65535 are converted, to a valid date that ntpcal_date_to_rd takes
      back, with the right day of the year and leap year flag; for others the result
      is -1. */
  ghost predicate Converted(rd: int, d: Date, r: int) {
    if InCalendar(rd) then
      IsDate(d.year, d.month, d.monthday) && DateToRd(d.year, d.month, d.monthday) == rd &&
      d.yearday == rd - DaysBefore(d.year - 1) && r == (if IsLeap(d.year) then 1 else 0)
    else r == -1
  }

  lemma FieldsOfSplit(rd: int, w: int, s: Split, leap: bool)
    requires IsSplit(rd - 1, s, leap)
    ensures Converted(rd, FromSplit(w, s, leap).0, FromSplit(w, s, leap).1)
  {
    YearInRange(rd, s, leap);
    if InCalendar(rd) {
      GoodFields(rd, w, s, leap, FromSplit(w, s, leap));
    } else {
      YearField(s.hi);
    }
  }

  lemma GoodFields(rd: int, w: int, s: Split, leap: bool, f: (Date, int))
    requires IsSplit(rd - 1, s, leap) && InCalendar(rd) && 0 <= s.hi + 1 < 0x1_0000 && f == FromSplit(w, s, leap)
    ensures Converted(rd, f.0, f.1)
  {
    FieldsStored(w, s, leap);
    SplitYearDaysIsMonth(s.lo, leap);
    DateOfSplit(rd, f.0, s, leap, SplitYearDays(s.lo, leap));
  }

  lemma DateOfSplit(rd: int, d: Date, s: Split, leap: bool, m: Split)
    requires IsSplit(rd - 1, s, leap) && IsMonth(s.lo, leap, m) && InCalendar(rd) && 0 <= s.hi + 1 < 0x1_0000
    requires d.year == s.hi + 1 && d.yearday == s.lo + 1 && d.month == m.hi + 1 && d.monthday == m.lo + 1
    ensures Converted(rd, d, if leap then 1 else 0)
  {
    RdOfDate(d.year, d.month, d.monthday);
  }

  lemma WeekDayIsFloor(rd: int)
    ensures WeekDay(rd) == rd % 7
  {
    FloorDiv(rd, 7);
  }

  /** ntpcal_rd_to_date converts every day number rightly. */
  lemma RdToDateInverts(rd: int)
    ensures Converted(rd, RdToDate(rd).0, RdToDate(rd).1) && RdToDate(rd).0.weekday == rd % 7
  {
    WeekDayIsFloor(rd);
    SplitIsSplit(rd - 1);
    FieldsOfSplit(rd, WeekDay(rd), SplitEraDays(rd - 1).0, SplitEraDays(rd - 1).1);
  }

  /** The split of the day number of a date is the date's. */
  lemma SplitOfDate(year: int, month: int, monthday: int, s: Split, leap: bool)
    requires IsDate(year, month, monthday) && IsSplit(DateToRd(year, month, monthday) - 1, s, leap)
    ensures s == Split(year - 1, DaysOfMonths(IsLeap(year), month - 1) + monthday - 1)
  {
    RdOfDate(year, month, monthday);
    YearHasMonths(year);
    MonthsApart(IsLeap(year), month, 12);
    MonthsApart(IsLeap(year), 0, month - 1);
    YearIsUnique(year - 1, DateToRd(year, month, monthday) - 1, s, leap);
  }

  /** The fields built from the split of a date's day number are the date's. */
  lemma FieldsOfDate(year: int, month: int, monthday: int, w: int, s: Split, leap: bool)
    requires IsDate(year, month, monthday) && IsSplit(DateToRd(year, month, monthday) - 1, s, leap)
    ensures var (d, r) := FromSplit(w, s, leap);
            r != -1 && d.year == year && d.month == month && d.monthday == monthday
  {
    SplitOfDate(year, month, monthday, s, leap);
    MonthIsUnique(leap, month - 1, monthday - 1);
    FieldsStored(w, s, leap);
  }

  /** And every date of those years comes back from its day number. */
  lemma DateToRdInverts(year: int, month: int, monthday: int)
    requires IsDate(year, month, monthday)
    ensures var (d, r) := RdToDate(DateToRd(year, month, monthday));
            r != -1 && d.year == year && d.month == month && d.monthday == monthday
  {
    var rd := DateToRd(year, month, monthday);
    SplitIsSplit(rd - 1);
    FieldsOfDate(year, month, monthday, WeekDay(rd), SplitEraDays(rd - 1).0, SplitEraDays(rd - 1).1);
  }
}
