/**
 The calendar arithmetic of timeutils.cc and what it means: the leap-year test
 is the Gregorian rule, the looped `make_time` is the POSIX "Seconds Since the
 Epoch" formula, and the table-driven weekday is the day count modulo seven.
 */
module Calendar {

  import opened Instants

  const MONTH_DAYS: seq<int> := [31, 28, 31, 30, 31, 30, 31, 31, 30, 31, 30, 31]
  const SHIFT: seq<int> := [0, 3, 2, 5, 0, 3, 5, 1, 4, 6, 2, 4]
  const DAY_SECONDS := 86400

  /** Division and remainder of C++, which truncate toward zero. */
  function TruncDiv(a: int, b: int): int
    requires b > 0
  {
    if a >= 0 then a / b else -((-a) / b)
  }

  function TruncMod(a: int, b: int): int
    requires b > 0
  {
    a - b * TruncDiv(a, b)
  }

  function ZeroBasedMonth(month: int): (r: int)
    ensures 0 <= r < 12 && (month - 1 - r) % 12 == 0
  {
    var result := TruncMod(month - 1, 12);
    if result < 0 then result + 12 else result
  }

  /** `year & 3` and `year & 15` are the remainders modulo 4 and 16, for negative years too. */
  predicate IsLeapYear(year: int) {
    year % 4 == 0 && (year % 16 == 0 || year % 25 != 0)
  }

  function LeapDay(year: int): int {
    if IsLeapYear(year) then 1 else 0
  }

  function DaysPerMonth(month: int, year: int): int {
    var m := ZeroBasedMonth(month);
    MONTH_DAYS[m] + (if m == 1 then LeapDay(year) else 0)
  }

  function WeekDay(day: int, month: int, year: int): int {
    var m := ZeroBasedMonth(month);
    var y := if m < 2 then year - 1 else year;
    TruncMod(y + TruncDiv(y, 4) - TruncDiv(y, 100) + TruncDiv(y, 400) + SHIFT[m] + day, 7)
  }

  /** Days in the years 1970, ..., year - 1. */
  ghost function DaysBeforeYear(year: int): nat
    decreases year
  {
    if year <= 1970 then 0 else DaysBeforeYear(year - 1) + 365 + LeapDay(year - 1)
  }

  /** Days in the first `m` months of `year`. */
  ghost function DaysBeforeMonth(m: nat, year: int): nat
    requires m <= 12
  {
    if m == 0 then 0
    else DaysBeforeMonth(m - 1, year) + MONTH_DAYS[m - 1] + (if m == 2 then LeapDay(year) else 0)
  }

  ghost function DayNumber(year: int, month: int, day: int): int {
    day - 1 + DaysBeforeYear(year) + DaysBeforeMonth(ZeroBasedMonth(month), year)
  }

  ghost function TimeOf(year: int, month: int, day: int, hour: int, minute: int, second: int): int {
    DayNumber(year, month, day) * DAY_SECONDS + hour * 3600 + minute * 60 + second
  }

  method MakeTime(year: int, month: int, day: int, hour: int, minute: int, second: int) returns (result: int)
    ensures result == TimeOf(year, month, day, hour, minute, second)
  {
    var zeroBased := ZeroBasedMonth(month);
    result := day - 1;
    var y := 1970;
    while y < year
      invariant 1970 <= y && (y <= year || y == 1970)
      invariant result == day - 1 + DaysBeforeYear(y)
    {
      result := result + (if IsLeapYear(y) then 366 else 365);
      y := y + 1;
    }
    for m := 0 to zeroBased
      invariant result == day - 1 + DaysBeforeYear(year) + DaysBeforeMonth(m, year)
    {
      result := result + MONTH_DAYS[m] + (if m == 1 && IsLeapYear(year) then 1 else 0);
    }
    result := result * DAY_SECONDS;
    result := result + hour * 3600 + minute * 60 + second;
  }

  // ----- the leap-year test is the Gregorian rule

  lemma {:induction false} AtLeastOnce(b: int, n: int)
    requires b > 0 && n >= 1
    ensures b * n >= b
    decreases n
  {
    if n > 1 {
      AtLeastOnce(b, n - 1);
      assert b * n == b * (n - 1) + b;
    }
  }

  /** Quotient and remainder are determined by their equation. */
  lemma DivMod(b: int, q: int, t: int, a: int)
    requires 0 <= t < b && a == b * q + t
    ensures a / b == q && a % b == t
  {
    var q' := a / b;
    assert b * (q - q') == a % b - t;
    if q > q' {
      AtLeastOnce(b, q - q');
    } else if q < q' {
      assert b * (q' - q) == -(b * (q - q'));
      AtLeastOnce(b, q' - q);
    }
  }

  /** The class modulo 400 decides, and among its four multiples of 100 only 0 is a multiple of 16. */
  lemma LeapIsGregorian(year: int)
    ensures IsLeapYear(year) <==> year % 4 == 0 && (year % 100 != 0 || year % 400 == 0)
  {
    var a, d := year / 400, year % 400;
    DivMod(4, 100 * a + d / 4, d % 4, year);
    DivMod(16, 25 * a + d / 16, d % 16, year);
    DivMod(25, 16 * a + d / 25, d % 25, year);
    DivMod(100, 4 * a + d / 100, d % 100, year);
    LeapIn400(d);
  }

  lemma LeapIn400(d: int)
    requires 0 <= d < 400
    ensures d % 4 == 0 && (d % 16 == 0 || d % 25 != 0) <==> d % 4 == 0 && (d % 100 != 0 || d == 0)
  {
    if d % 25 == 0 {
      var w, t := d / 25 / 4, d / 25 % 4;
      assert d == 100 * w + 25 * t && 0 <= w < 4;
      DivMod(4, 25 * w + 6 * t, t, d);
      DivMod(100, w, 25 * t, d);
      DivMod(16, 6 * w + w / 4, 4 * w, 100 * w);
    }
  }

  /** Leap days in the years 1, ..., year. */
  ghost function LeapsThrough(year: int): int {
    year / 4 - year / 100 + year / 400
  }

  lemma LeapsThroughStep(year: int)
    ensures LeapsThrough(year) == LeapsThrough(year - 1) + LeapDay(year)
  {
    LeapIsGregorian(year);
    QuotientStep(4, year);
    QuotientStep(100, year);
    QuotientStep(400, year);
    NestedMultiples(year);
  }

  /** A quotient grows exactly at the multiples of the divisor. */
  lemma QuotientStep(b: int, y: int)
    requires b > 1
    ensures y / b == (y - 1) / b + (if y % b == 0 then 1 else 0)
  {
    var q, t := y / b, y % b;
    if t == 0 {
      assert b * (q - 1) == b * q - b;
      DivMod(b, q - 1, b - 1, y - 1);
    } else {
      DivMod(b, q, t - 1, y - 1);
    }
  }

  lemma NestedMultiples(year: int)
    ensures year % 100 == 0 ==> year % 4 == 0
    ensures year % 400 == 0 ==> year % 100 == 0
  {
    if year % 100 == 0 {
      DivMod(4, 25 * (year / 100), 0, year);
    }
    if year % 400 == 0 {
      DivMod(100, 4 * (year / 400), 0, year);
    }
  }

  lemma {:induction false} YearClosedForm(year: int)
    requires year >= 1970
    ensures DaysBeforeYear(year) == 365 * (year - 1970) + LeapsThrough(year - 1) - 477
  {
    if year > 1970 {
      YearClosedForm(year - 1);
      LeapsThroughStep(year - 1);
    }
  }

  // ----- POSIX "Seconds Since the Epoch", section 4.16 of IEEE Std 1003.1-2017, Base Definitions

  ghost function PosixSeconds(tmYear: int, tmYday: int, hour: int, minute: int, second: int): int {
    second + minute * 60 + hour * 3600 + tmYday * 86400 + (tmYear - 70) * 31536000
    + ((tmYear - 69) / 4) * 86400 - ((tmYear - 1) / 100) * 86400 + ((tmYear + 299) / 400) * 86400
  }

  /** `make_time` agrees with the POSIX formula exactly from 1970 on: every earlier year counts as 1970. */
  lemma MakeTimeIsPosix(year: int, month: int, day: int, hour: int, minute: int, second: int)
    ensures var yday := day - 1 + DaysBeforeMonth(ZeroBasedMonth(month), year);
            var time := TimeOf(year, month, day, hour, minute, second);
            && (time == PosixSeconds(year - 1900, yday, hour, minute, second) <==> year >= 1970)
            && (year < 1970 ==> time == PosixSeconds(70, yday, hour, minute, second))
  {
    var t := year - 1900;
    DivMod(4, (year - 1) / 4 - 492, (year - 1) % 4, t - 69);
    DivMod(100, (year - 1) / 100 - 19, (year - 1) % 100, t - 1);
    DivMod(400, (year - 1) / 400 - 4, (year - 1) % 400, t + 299);
    if year >= 1970 {
      YearClosedForm(year);
    }
  }

  // ----- weekday

  lemma TruncPositive(a: int, b: int)
    requires a >= 0 && b > 0
    ensures TruncDiv(a, b) == a / b && TruncMod(a, b) == a % b
  {
  }

  ghost function WeekNumber(y: int): int {
    y + LeapsThrough(y)
  }

  lemma ModShift(a: int, b: int, k: int)
    requires a == b + 7 * k
    ensures a % 7 == b % 7
  {
  }

  /** Table and loops agree: the weekday formula is the day count since Thursday 1970-01-01. */
  lemma WeekDayIsDayCount(day: int, month: int, year: int)
    requires year >= 1970 && day >= 0
    ensures WeekDay(day, month, year) == (DayNumber(year, month, day) + 4) % 7
  {
    var m := ZeroBasedMonth(month);
    var y := if m < 2 then year - 1 else year;
    YearClosedForm(year);
    LeapsThroughStep(year);
    TruncPositive(y, 4); TruncPositive(y, 100); TruncPositive(y, 400);
    var a := WeekNumber(y) + SHIFT[m] + day;
    assert a >= 0 by { assert LeapsThrough(y) >= 0; }
    TruncPositive(a, 7);
    MonthShift(m, year);
    assert DayNumber(year, month, day) + 4
        == 364 * (year - 1970) + WeekNumber(year - 1) - 2446 + DaysBeforeMonth(m, year) + day + 3;
    var k :| DaysBeforeMonth(m, year) == SHIFT[m] + (if m < 2 then 0 else 1 + LeapDay(year)) + 7 * k;
    ModShift(DayNumber(year, month, day) + 4, a, 52 * (year - 1970) - 349 + k);
  }

  lemma MonthShift(m: nat, year: int)
    requires m < 12
    ensures exists k: int :: DaysBeforeMonth(m, year) == SHIFT[m] + (if m < 2 then 0 else 1 + LeapDay(year)) + 7 * k
  {
    var l := LeapDay(year);
    MonthTable(year);
    var k := (DaysBeforeMonth(m, year) - SHIFT[m] - (if m < 2 then 0 else 1 + l)) / 7;
    assert DaysBeforeMonth(m, year) == SHIFT[m] + (if m < 2 then 0 else 1 + LeapDay(year)) + 7 * k;
  }

  lemma MonthTable(year: int)
    ensures var l := LeapDay(year);
            var t := [0, 31, 59 + l, 90 + l, 120 + l, 151 + l, 181 + l, 212 + l, 243 + l, 273 + l, 304 + l, 334 + l,
              365 + l];
            forall m :: 0 <= m <= 12 ==> DaysBeforeMonth(m, year) == t[m]
  {
    assert DaysBeforeMonth(0, year) == 0;
    assert DaysBeforeMonth(1, year) == 31;
    var l := LeapDay(year);
    assert DaysBeforeMonth(2, year) == 59 + l;
    assert DaysBeforeMonth(3, year) == 90 + l;
    assert DaysBeforeMonth(4, year) == 120 + l;
    assert DaysBeforeMonth(5, year) == 151 + l;
    assert DaysBeforeMonth(6, year) == 181 + l;
    assert DaysBeforeMonth(7, year) == 212 + l;
    assert DaysBeforeMonth(8, year) == 243 + l;
    assert DaysBeforeMonth(9, year) == 273 + l;
    assert DaysBeforeMonth(10, year) == 304 + l;
    assert DaysBeforeMonth(11, year) == 334 + l;
    assert DaysBeforeMonth(12, year) == 365 + l;
  }

  // ----- the length of a month

  lemma MonthInYear(month: int)
    requires 1 <= month <= 12
    ensures ZeroBasedMonth(month) == month - 1
  {
    DivMod(12, 0, month - 1, month - 1);
  }

  /** The year and the name of a month determine its length; only the leap day depends on the year. */
  lemma LengthByName(month: int, year: int)
    requires 1 <= month <= 12
    ensures DaysPerMonth(month, year) ==
      if month in {4, 6, 9, 11} then 30 else if month != 2 then 31 else 28 + LeapDay(year)
  {
    MonthInYear(month);
    assert MONTH_DAYS == [31, 28, 31, 30, 31, 30, 31, 31, 30, 31, 30, 31];
  }

  /** Thirty days have April, June, September and November; the leap day is the Gregorian one. */
  lemma MonthLengths(month: int, year: int)
    requires 1 <= month <= 12
    ensures DaysPerMonth(month, year) ==
      if month in {4, 6, 9, 11} then 30
      else if month != 2 then 31
      else if year % 4 == 0 && (year % 100 != 0 || year % 400 == 0) then 29
      else 28
  {
    LengthByName(month, year);
    LeapIsGregorian(year);
  }

  /** The lengths are those that the month loop of `make_time` adds up. */
  lemma MonthIsDifference(month: int, year: int)
    requires 1 <= month <= 12
    ensures DaysPerMonth(month, year) == DaysBeforeMonth(month, year) - DaysBeforeMonth(month - 1, year)
  {
    MonthInYear(month);
  }

  // ----- order

  /** A civil date and minute of the proleptic Gregorian calendar. */
  predicate RealInstant(x: Instant) {
    && 1 <= x[MONTH] <= 12
    && 1 <= x[MDAY] <= DaysPerMonth(x[MONTH], x[YEAR])
    && 0 <= x[HOUR] < 24
    && 0 <= x[MINUTE] < 60
  }

  ghost function Timestamp(x: Instant, second: int): int {
    TimeOf(x[YEAR], x[MONTH], x[MDAY], x[HOUR], x[MINUTE], second)
  }

  lemma {:induction false} YearsAccumulate(a: int, b: int)
    requires 1970 <= a < b
    ensures DaysBeforeYear(a) + 365 + LeapDay(a) <= DaysBeforeYear(b)
    decreases b
  {
    if a < b - 1 {
      YearsAccumulate(a, b - 1);
    }
  }

  /** A real day lies within its month, and the month within the year. */
  lemma DayInYear(x: Instant)
    requires RealInstant(x)
    ensures var y, m := x[YEAR], x[MONTH] - 1;
            && ZeroBasedMonth(x[MONTH]) == m
            && DaysBeforeMonth(m, y) <= DayNumber(y, x[MONTH], x[MDAY]) - DaysBeforeYear(y)
            && DayNumber(y, x[MONTH], x[MDAY]) - DaysBeforeYear(y) < DaysBeforeMonth(m + 1, y) <= 365 + LeapDay(y)
  {
    MonthsAccumulate(x[MONTH], 12, x[YEAR]);
    MonthTable(x[YEAR]);
  }

  /** `make_time` embeds the lexicographic order on real instants from 1970 on, so it is injective there. */
  lemma MakeTimeEmbedsOrder(a: Instant, b: Instant, s: int, t: int)
    requires RealInstant(a) && RealInstant(b) && a[YEAR] >= 1970 && b[YEAR] >= 1970
    requires 0 <= s < 60 && 0 <= t < 60
    ensures Less(a, b) ==> Timestamp(a, s) < Timestamp(b, t)
    ensures Timestamp(a, s) == Timestamp(b, t) ==> a == b && s == t
    ensures Timestamp(a, s) < Timestamp(b, t) <==> Less(a, b) || (a == b && s < t)
  {
    Total(a, b);
    if Less(a, b) { EarlierIsSmaller(a, b, s, t); }
    if Less(b, a) { EarlierIsSmaller(b, a, t, s); }
  }

  lemma EarlierIsSmaller(a: Instant, b: Instant, s: int, t: int)
    requires RealInstant(a) && RealInstant(b) && a[YEAR] >= 1970 && b[YEAR] >= 1970
    requires 0 <= s < 60 && 0 <= t < 60
    requires Less(a, b)
    ensures Timestamp(a, s) < Timestamp(b, t)
  {
    LessFields(a, b);
    if a[..3] == b[..3] {
      assert a[YEAR] == b[YEAR] && a[MONTH] == b[MONTH] && a[MDAY] == b[MDAY] by {
        assert forall q :: 0 <= q < 3 ==> a[q] == a[..3][q] && b[q] == b[..3][q];
      }
    } else {
      EarlierDay(a, b);
    }
  }

  lemma EarlierYear(a: Instant, b: Instant)
    requires RealInstant(a) && RealInstant(b) && 1970 <= a[YEAR] < b[YEAR]
    ensures DayNumber(a[YEAR], a[MONTH], a[MDAY]) < DayNumber(b[YEAR], b[MONTH], b[MDAY])
  {
    DayInYear(a);
    DayInYear(b);
    YearsAccumulate(a[YEAR], b[YEAR]);
    MonthsAccumulate(0, b[MONTH] - 1, b[YEAR]);
    MonthTable(b[YEAR]);
  }

  lemma EarlierMonth(a: Instant, b: Instant)
    requires RealInstant(a) && RealInstant(b) && a[YEAR] == b[YEAR] && a[MONTH] < b[MONTH]
    ensures DayNumber(a[YEAR], a[MONTH], a[MDAY]) < DayNumber(b[YEAR], b[MONTH], b[MDAY])
  {
    DayInYear(a);
    DayInYear(b);
    MonthsAccumulate(a[MONTH], b[MONTH] - 1, a[YEAR]);
  }

  lemma EarlierDay(a: Instant, b: Instant)
    requires RealInstant(a) && RealInstant(b) && a[YEAR] >= 1970 && b[YEAR] >= 1970
    requires Less(a, b) && a[..3] != b[..3]
    ensures DayNumber(a[YEAR], a[MONTH], a[MDAY]) < DayNumber(b[YEAR], b[MONTH], b[MDAY])
  {
    EarlierDate(a, b);
    if a[YEAR] < b[YEAR] {
      EarlierYear(a, b);
    } else if a[MONTH] < b[MONTH] {
      EarlierMonth(a, b);
    }
  }

  lemma EarlierDate(a: Instant, b: Instant)
    requires Less(a, b) && a[..3] != b[..3]
    ensures a[YEAR] < b[YEAR]
      || (a[YEAR] == b[YEAR] && (a[MONTH] < b[MONTH] || (a[MONTH] == b[MONTH] && a[MDAY] < b[MDAY])))
  {
    LessFields(a, b);
    assert a[..3] == [a[0], a[1], a[2]] && b[..3] == [b[0], b[1], b[2]];
  }

  lemma {:induction false} MonthsAccumulate(m: nat, n: nat, year: int)
    requires m <= n <= 12
    ensures DaysBeforeMonth(m, year) <= DaysBeforeMonth(n, year)
    decreases n
  {
    if m < n {
      MonthsAccumulate(m, n - 1, year);
    }
  }

  // ----- every day is a date

  /** The day after a real date is a real date: the next of the month, or the first of a month or of a year. */
  function DayAfter(x: Instant): Instant
    requires RealInstant(x)
  {
    if x[MDAY] < DaysPerMonth(x[MONTH], x[YEAR]) then x[MDAY := x[MDAY] + 1]
    else if x[MONTH] < 12 then x[MONTH := x[MONTH] + 1][MDAY := 1]
    else [x[YEAR] + 1, 1, 1, x[HOUR], x[MINUTE]]
  }

  lemma DayAfterIsReal(x: Instant)
    requires RealInstant(x)
    ensures RealInstant(DayAfter(x))
  {
    var y := DayAfter(x);
    LengthByName(x[MONTH], x[YEAR]);
    LengthByName(y[MONTH], y[YEAR]);
  }

  /** The number of a day within its month, counted from the first of that month. */
  lemma DayOfMonth(year: int, month: int, day: int)
    requires 1 <= month <= 12
    ensures DayNumber(year, month, day) == DaysBeforeYear(year) + DaysBeforeMonth(month - 1, year) + day - 1
  {
    MonthInYear(month);
  }

  lemma MonthTurns(year: int, month: int)
    requires 1 <= month < 12
    ensures DayNumber(year, month + 1, 1) == DayNumber(year, month, DaysPerMonth(month, year)) + 1
  {
    DayOfMonth(year, month, DaysPerMonth(month, year));
    DayOfMonth(year, month + 1, 1);
    MonthIsDifference(month, year);
  }

  lemma YearTurns(year: int)
    requires year >= 1970
    ensures DayNumber(year + 1, 1, 1) == DayNumber(year, 12, DaysPerMonth(12, year)) + 1
  {
    DayOfMonth(year, 12, DaysPerMonth(12, year));
    DayOfMonth(year + 1, 1, 1);
    LengthByName(12, year);
    MonthTable(year);
  }

  lemma DayAfterIsNext(x: Instant)
    requires RealInstant(x) && x[YEAR] >= 1970
    ensures var y := DayAfter(x);
            DayNumber(y[YEAR], y[MONTH], y[MDAY]) == DayNumber(x[YEAR], x[MONTH], x[MDAY]) + 1
  {
    if x[MDAY] < DaysPerMonth(x[MONTH], x[YEAR]) {
    } else if x[MONTH] < 12 {
      MonthTurns(x[YEAR], x[MONTH]);
    } else {
      YearTurns(x[YEAR]);
    }
  }

  /** Midnight of a real date from 1970 on. */
  ghost predicate IsDate(x: Instant) {
    RealInstant(x) && x[YEAR] >= 1970 && x[HOUR] == x[MINUTE] == 0
  }

  ghost predicate IsDayNumber(x: Instant, n: int) {
    IsDate(x) && DayNumber(x[YEAR], x[MONTH], x[MDAY]) == n
  }

  /** From 1970 on real dates and day numbers correspond one to one. */
  lemma EveryDayIsADate(n: nat)
    ensures exists x: Instant :: IsDayNumber(x, n) && forall y: Instant :: IsDayNumber(y, n) ==> y == x
  {
    var x := DateOf(n);
    forall y: Instant | IsDayNumber(y, n)
      ensures y == x
    {
      MakeTimeEmbedsOrder(x, y, 0, 0);
    }
  }

  lemma {:induction false} DateOf(n: nat) returns (x: Instant)
    ensures IsDayNumber(x, n)
  {
    if n == 0 {
      x := [1970, 1, 1, 0, 0];
    } else {
      var before := DateOf(n - 1);
      DayAfterIsReal(before);
      DayAfterIsNext(before);
      x := DayAfter(before);
    }
  }
}
