/** The calendar arithmetic of libntp/ntp_calendar.c on values: splitting and merging
    days, months and years of the proleptic Gregorian calendar. */
module Calendar {
  import opened CInt

  const SECSPERDAY := 86400
  const DAY_NTP_STARTS := 693596
  const LEAP_CYCLE := 1461
  const CENTURY := 36524
  const CYCLE := 146097

  datatype Split = Split(hi: int, lo: int)

  // ----- the calendar itself

  predicate IsLeap(y: int) {
    y % 4 == 0 && (y % 100 != 0 || y % 400 == 0)
  }

  function YearLength(y: int): (n: int)
    ensures 365 <= n <= 366
  {
    if IsLeap(y) then 366 else 365
  }

  /** The days of the years 1..y, or minus those of the years y+1..0. */
  function DaysBefore(y: int): int
    decreases if y >= 0 then y else -y
  {
    if y == 0 then 0
    else if y > 0 then DaysBefore(y - 1) + YearLength(y)
    else DaysBefore(y + 1) - YearLength(y + 1)
  }

  function MonthLength(leap: bool, m: int): (n: int)
    requires 0 <= m < 12
    ensures 28 <= n <= 31
  {
    if m == 1 then (if leap then 29 else 28)
    else if m == 3 || m == 5 || m == 8 || m == 10 then 30
    else 31
  }

  /** The days of the first `m` months of a year. */
  function DaysOfMonths(leap: bool, m: int): int
    requires 0 <= m <= 12
  {
    if m == 0 then 0 else DaysOfMonths(leap, m - 1) + MonthLength(leap, m - 1)
  }

  // ----- the tables of the code

  const ShiftMonthTable: seq<int> := [0, 31, 61, 92, 122, 153, 184, 214, 245, 275, 306, 337, 366]
  const RegularMonthTable: seq<int> := [0, 31, 59, 90, 120, 151, 181, 212, 243, 273, 304, 334, 365]
  const LeapMonthTable: seq<int> := [0, 31, 60, 91, 121, 152, 182, 213, 244, 274, 305, 335, 366]

  function RealMonthTable(leap: bool): (t: seq<int>)
    ensures |t| == 13
  {
    if leap then LeapMonthTable else RegularMonthTable
  }

  /** The month tables hold what the month lengths add up to. */
  lemma TableIsSum(leap: bool, m: int)
    requires 0 <= m <= 12
    ensures RealMonthTable(leap)[m] == DaysOfMonths(leap, m)
  {
    if m > 0 { TableIsSum(leap, m - 1); }
  }

  // ----- years and days

  /** ntpcal_days_in_years */
  function DaysInYears(years: int): int {
    var cycle, y := Div(years, 400), Mod(years, 400);
    var (cycle', y') := if y < 0 then (cycle - 1, y + 400) else (cycle, y);
    cycle' * CYCLE + y' * 365 + Div(y', 4) - Div(y', 100)
  }

  /** The closed form for year `r` of a 400-year cycle. */
  lemma CycleForm(c: int, r: int)
    requires 0 <= r < 400
    ensures DaysInYears(400 * c + r) == c * CYCLE + r * 365 + r / 4 - r / 100
  {
    FloorDiv(400 * c + r, 400);
    DivModUnique(400 * c + r, 400, c, r);
  }

  lemma LeapInCycle(c: int, r: int)
    ensures IsLeap(400 * c + r) == IsLeap(r)
  {
    SameRest(c, r, 4, 100);
    SameRest(c, r, 100, 4);
    SameRest(c, r, 400, 1);
  }

  lemma SameRest(c: int, r: int, b: int, k: int)
    requires b > 0 && b * k == 400
    ensures (400 * c + r) % b == r % b
  {
    DivModUnique(400 * c + r, b, k * c + r / b, r % b);
  }

  lemma StepInCycle(r: int)
    requires 0 <= r < 399
    ensures (r + 1) / 4 - (r + 1) / 100 - (r / 4 - r / 100) == YearLength(r + 1) - 365
  {
  }

  lemma NextYearInCycle(c: int, r: int)
    requires 0 <= r < 400
    ensures DaysInYears(400 * c + (r + 1)) == DaysInYears(400 * c + r) + YearLength(400 * c + (r + 1))
  {
    LeapInCycle(c, r + 1);
    var d0, d1 := DaysInYears(400 * c + r), DaysInYears(400 * c + (r + 1));
    CycleForm(c, r);
    if r < 399 {
      CycleForm(c, r + 1);
    } else {
      LastOfCycle(c);
    }
    FormsApart(c, r, d0, d1);
  }

  lemma LastOfCycle(c: int)
    ensures DaysInYears(400 * c + 400) == c * CYCLE + CYCLE
  {
    CycleForm(c + 1, 0);
  }

  lemma FormsApart(c: int, r: int, d0: int, d1: int)
    requires 0 <= r < 400 && d0 == c * CYCLE + r * 365 + r / 4 - r / 100
    requires d1 == if r < 399 then c * CYCLE + (r + 1) * 365 + (r + 1) / 4 - (r + 1) / 100 else c * CYCLE + CYCLE
    ensures d1 == d0 + YearLength(r + 1)
  {
    if r < 399 { StepInCycle(r); }
  }

  lemma NextYear(y: int)
    ensures DaysInYears(y + 1) == DaysInYears(y) + YearLength(y + 1)
  {
    NextYearInCycle(y / 400, y % 400);
    assert 400 * (y / 400) + (y % 400 + 1) == y + 1;
  }

  /** ntpcal_days_in_years is the sum of the lengths of the years. */
  lemma {:induction false} DaysInYearsIsSum(y: int)
    ensures DaysInYears(y) == DaysBefore(y)
    decreases if y >= 0 then y else -y
  {
    if y > 0 {
      DaysInYearsIsSum(y - 1);
      NextYear(y - 1);
    } else if y < 0 {
      DaysInYearsIsSum(y + 1);
      NextYear(y);
    }
  }

  /** ntpcal_split_eradays: elapsed years and days in the year, and the leap flag. */
  function SplitEraDays(days: int): (r: (Split, bool)) {
    var n400, d400 := Div(days, CYCLE), Mod(days, CYCLE);
    var (n400', d) := if d400 < 0 then (n400 - 1, d400 + CYCLE) else (n400, d400);
    var n100, d100 := Div(d, CENTURY), Mod(d, CENTURY);
    var n004, d004 := Div(d100, LEAP_CYCLE), Mod(d100, LEAP_CYCLE);
    var n001, yday := Div(d004, 365), Mod(d004, 365);
    Merge(n400', n100, n004, n001, yday)
  }

  /** The end of ntpcal_split_eradays: overflows corrected, cycles merged to years.
      The test `(n001 | n100) > 3` is written out for operands of at most 4. */
  function Merge(n400: int, n100: int, n004: int, n001: int, yday: int): (r: (Split, bool)) {
    if n001 > 3 || n100 > 3 then
      (Split(((4 * n400 + n100) * 25 + n004) * 4 + n001 - 1, yday + 365), true)
    else
      (Split(((4 * n400 + n100) * 25 + n004) * 4 + n001, yday), n001 == 3 && (n004 != 24 || n100 == 3))
  }

  /** Years in a 400-year cycle from centuries, leap cycles and years. */
  lemma YearParts(n400: int, a: int, b: int, c: int)
    requires 0 <= a < 4 && 0 <= b < 25 && 0 <= c < 4
    ensures var y := ((4 * n400 + a) * 25 + b) * 4 + c;
            DaysInYears(y) == n400 * CYCLE + a * CENTURY + b * LEAP_CYCLE + c * 365 &&
            (IsLeap(y + 1) <==> c == 3 && (b != 24 || a == 3))
  {
    var r := 100 * a + 4 * b + c;
    assert ((4 * n400 + a) * 25 + b) * 4 + c == 400 * n400 + r;
    CycleForm(n400, r);
    assert r / 4 == 25 * a + b && r / 100 == a;
    LeapInCycle(n400, r + 1);
    LeapParts(a, b, c);
  }

  lemma LeapParts(a: int, b: int, c: int)
    requires 0 <= a < 4 && 0 <= b < 25 && 0 <= c < 4
    ensures IsLeap(100 * a + 4 * b + c + 1) <==> c == 3 && (b != 24 || a == 3)
  {
  }

  /** All divisions of the split are floor divisions. */
  lemma SplitByParts(days: int)
    ensures var d := days % CYCLE;
            var d100 := d % CENTURY;
            var d004 := d100 % LEAP_CYCLE;
            SplitEraDays(days) == Merge(days / CYCLE, d / CENTURY, d100 / LEAP_CYCLE, d004 / 365, d004 % 365)
  {
    FloorDiv(days, CYCLE);
  }

  /** Splitting finds the year a day is in, the day in that year, and whether it is a leap year. */
  lemma SplitEraDaysIsYear(days: int)
    ensures var (s, leap) := SplitEraDays(days);
            DaysInYears(s.hi) + s.lo == days && 0 <= s.lo < YearLength(s.hi + 1) && leap == IsLeap(s.hi + 1)
  {
    var d := days % CYCLE;
    var d100 := d % CENTURY;
    var d004 := d100 % LEAP_CYCLE;
    SplitByParts(days);
    PartsInRange(d);
    MergeIsYear(days / CYCLE, d / CENTURY, d100 / LEAP_CYCLE, d004 / 365, d004 % 365, days);
  }

  /** The year and day that the parts of a day merge to. */
  lemma MergeIsYear(n400: int, n100: int, n004: int, n001: int, yday: int, days: int)
    requires days == n400 * CYCLE + n100 * CENTURY + n004 * LEAP_CYCLE + n001 * 365 + yday
    requires 0 <= n100 <= 4 && 0 <= n004 < 25 && 0 <= n001 <= 4 && 0 <= yday < 365
    requires n100 == 4 ==> n004 == 0 && n001 == 0 && yday == 0
    requires n001 == 4 ==> yday == 0 && (n004 != 24 || n100 == 3)
    ensures var (s, leap) := Merge(n400, n100, n004, n001, yday);
            DaysInYears(s.hi) + s.lo == days && 0 <= s.lo < YearLength(s.hi + 1) && leap == IsLeap(s.hi + 1)
  {
    if n100 == 4 {
      YearParts(n400, 3, 24, 3);
    } else if n001 == 4 {
      YearParts(n400, n100, n004, 3);
    } else {
      YearParts(n400, n100, n004, n001);
    }
  }

  /** The parts a day of a 400-year cycle splits into; the last day of the cycle and
      of a leap year overflow into a fifth century or year. */
  lemma PartsInRange(d: int)
    requires 0 <= d < CYCLE
    ensures var n100, d100 := d / CENTURY, d % CENTURY;
            var n004, d004 := d100 / LEAP_CYCLE, d100 % LEAP_CYCLE;
            var n001, yday := d004 / 365, d004 % 365;
            d == n100 * CENTURY + n004 * LEAP_CYCLE + n001 * 365 + yday &&
            0 <= n100 <= 4 && 0 <= n004 < 25 && 0 <= n001 <= 4 && 0 <= yday < 365 &&
            (n100 == 4 ==> n004 == 0 && n001 == 0 && yday == 0) &&
            (n001 == 4 ==> yday == 0 && (n004 != 24 || n100 == 3))
  {
  }

  // ----- months

  /** ntpcal_split_yeardays: elapsed months and days in the month, or (-1, -1). */
  function SplitYearDays(eyd: int, leap: bool): Split {
    var lt := RealMonthTable(leap);
    if 0 <= eyd < lt[12] then
      var m := eyd / 32;
      var m' := if lt[m + 1] <= eyd then m + 1 else m;
      Split(m', eyd - lt[m'])
    else Split(-1, -1)
  }

  /** `s` is the month and the day in it of a day of the year. */
  predicate IsMonth(eyd: int, leap: bool, s: Split) {
    0 <= s.hi < 12 && DaysOfMonths(leap, s.hi) + s.lo == eyd && 0 <= s.lo < MonthLength(leap, s.hi)
  }

  /** Splitting finds the month a day of the year is in. */
  lemma SplitYearDaysIsMonth(eyd: int, leap: bool)
    ensures if 0 <= eyd < (if leap then 366 else 365) then IsMonth(eyd, leap, SplitYearDays(eyd, leap))
            else SplitYearDays(eyd, leap) == Split(-1, -1)
  {
    if 0 <= eyd < (if leap then 366 else 365) {
      var s := SplitYearDays(eyd, leap);
      TableIsSum(leap, s.hi);
      TableIsSum(leap, s.hi + 1);
    }
  }

  /** ntpcal_days_in_months: excess years, and days relative to the year after them. */
  function DaysInMonths(m: int): Split {
    var (hi, lo) :=
      if 0 <= m < 12 then (0, m)
      else if Mod(m, 12) < 0 then (Div(m, 12) - 1, Mod(m, 12) + 12)
      else (Div(m, 12), Mod(m, 12));
    var (hi', lo') := if lo < 2 then (hi, lo + 10) else (hi + 1, lo - 2);
    Split(hi', (if 0 <= lo' < 13 then ShiftMonthTable[lo'] else 0) - 306)
  }

  /** ntpcal_edate_to_eradays */
  function EraDays(years: int, mons: int, mdays: int): int {
    if mons != 0 then
      var t := DaysInMonths(mons);
      DaysInYears(years + t.hi) + t.lo + mdays
    else DaysInYears(years) + mdays
  }

  /** ntpcal_edate_to_yeardays */
  function YearDays(years: int, mons: int, mdays: int): int {
    if 0 <= mons < 12 then mdays + RealMonthTable(IsLeap(years + 1))[mons]
    else
      var t := DaysInMonths(mons);
      mdays + t.lo + DaysInYears(years + t.hi) - DaysInYears(years)
  }

  /** The branch with the real month table and the branch with shifted months agree,
      for every year and every month and day count. */
  lemma BranchesAgree(years: int, mons: int, mdays: int)
    ensures YearDays(years, mons, mdays) == EraDays(years, mons, mdays) - DaysInYears(years)
  {
    if 0 <= mons < 12 {
      InsideYear(years, mons, mdays);
    } else {
      OutsideYear(years, mons, mdays);
    }
  }

  lemma InsideYear(years: int, mons: int, mdays: int)
    requires 0 <= mons < 12
    ensures EraDays(years, mons, mdays) == DaysInYears(years) + YearDays(years, mons, mdays)
  {
    EraDaysByTable(years, mons, mdays);
    assert mons / 12 == 0 && mons % 12 == mons && years + 0 == years;
  }

  lemma OutsideYear(years: int, mons: int, mdays: int)
    requires mons < 0 || mons >= 12
    ensures EraDays(years, mons, mdays) == DaysInYears(years) + YearDays(years, mons, mdays)
  {
  }

  /** Days to a month with the year counted from March, and from January. */
  lemma ShiftedMonths(before: int, after: int, leap: bool, m: int)
    requires 0 <= m < 12 && after == before + (if leap then 366 else 365)
    ensures (if m < 2 then before + ShiftMonthTable[m + 10] else after + ShiftMonthTable[m - 2]) - 306 ==
            before + RealMonthTable(leap)[m]
  {
  }

  lemma DaysInMonthsFloor(mons: int)
    ensures var k, m := mons / 12, mons % 12;
            DaysInMonths(mons) ==
            if m < 2 then Split(k, ShiftMonthTable[m + 10] - 306) else Split(k + 1, ShiftMonthTable[m - 2] - 306)
  {
    FloorDiv(mons, 12);
  }

  lemma EraDaysByTable(years: int, mons: int, mdays: int)
    ensures EraDays(years, mons, mdays) ==
            DaysInYears(years + mons / 12) + RealMonthTable(IsLeap(years + mons / 12 + 1))[mons % 12] + mdays
  {
    if mons != 0 {
      DaysInMonthsFloor(mons);
      var y, m := years + mons / 12, mons % 12;
      NextYear(y);
      ShiftedMonths(DaysInYears(y), DaysInYears(y + 1), IsLeap(y + 1), m);
      EraDaysUnfold(years, mons, mdays, DaysInMonths(mons), y, m);
    }
  }

  lemma EraDaysUnfold(years: int, mons: int, mdays: int, t: Split, y: int, m: int)
    requires mons != 0 && t == DaysInMonths(mons) && 0 <= m < 12
    requires t == if m < 2 then Split(y - years, ShiftMonthTable[m + 10] - 306) else Split(y - years + 1, ShiftMonthTable[m - 2] - 306)
    ensures EraDays(years, mons, mdays) ==
            (if m < 2 then DaysInYears(y) + ShiftMonthTable[m + 10] else DaysInYears(y + 1) + ShiftMonthTable[m - 2]) - 306 + mdays
  {
  }

  /** Months off the scale count whole years, of the lengths those years have. */
  lemma EraDaysCounts(years: int, mons: int, mdays: int)
    ensures EraDays(years, mons, mdays) ==
            DaysBefore(years + mons / 12) + DaysOfMonths(IsLeap(years + mons / 12 + 1), mons % 12) + mdays
  {
    EraDaysByTable(years, mons, mdays);
    DaysInYearsIsSum(years + mons / 12);
    TableIsSum(IsLeap(years + mons / 12 + 1), mons % 12);
  }
}
