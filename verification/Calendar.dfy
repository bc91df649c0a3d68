/**
 * The proleptic Gregorian calendar by day number: day 0 is Monday, 1 January of year 1. The
 * years before it are counted 0, -1, ... All divisions are floor divisions (positive divisors).
 */
module Calendar {

  predicate Leap(y: int) {
    y % 4 == 0 && (y % 100 != 0 || y % 400 == 0)
  }

  function YearDays(y: int): int {
    if Leap(y) then 366 else 365
  }

  /** The day number of 1 January. */
  function YearStart(y: int): int {
    365 * (y - 1) + (y - 1) / 4 - (y - 1) / 100 + (y - 1) / 400
  }

  /** A floor division steps up exactly at the multiples. */
  lemma FloorSteps(y: int)
    ensures y / 4 - (y - 1) / 4 == if y % 4 == 0 then 1 else 0
    ensures y / 100 - (y - 1) / 100 == if y % 100 == 0 then 1 else 0
    ensures y / 400 - (y - 1) / 400 == if y % 400 == 0 then 1 else 0
  {
  }

  lemma MultiplesNest(y: int)
    ensures y % 100 == 0 ==> y % 4 == 0
    ensures y % 400 == 0 ==> y % 100 == 0
  {
    assert y == 100 * (y / 100) + y % 100 && 100 * (y / 100) == 4 * (25 * (y / 100));
    assert y == 400 * (y / 400) + y % 400 && 400 * (y / 400) == 100 * (4 * (y / 400));
  }

  lemma YearsAdjoin(y: int)
    ensures YearStart(y + 1) == YearStart(y) + YearDays(y)
  {
    FloorSteps(y);
    MultiplesNest(y);
  }

  lemma {:induction false} YearStartIncreases(y: int, z: int)
    requires y <= z
    ensures YearStart(y) + 365 * (z - y) <= YearStart(z)
    decreases z - y
  {
    if y < z {
      YearsAdjoin(z - 1);
      YearStartIncreases(y, z - 1);
    }
  }

  /** The year that a day lies in: whole 400-year cycles, then centuries, 4-year spans and years. */
  function YearOf(n: int): (y: int)
    ensures YearStart(y) <= n < YearStart(y + 1)
  {
    var q400, r400 := n / 146097, n % 146097;
    var c := if r400 / 36524 < 4 then r400 / 36524 else 3;
    var r100 := r400 - c * 36524;
    var q4, r4 := r100 / 1461, r100 % 1461;
    var q1 := if r4 / 365 < 4 then r4 / 365 else 3;
    CycleStart(q400, c, q4, q1);
    400 * q400 + 100 * c + 4 * q4 + q1 + 1
  }

  lemma SplitBy4(k: int, r: int)
    ensures (4 * k + r) / 4 == k + r / 4 && (4 * k + r) % 4 == r % 4
  {
  }

  lemma SplitBy100(k: int, r: int)
    ensures (100 * k + r) / 100 == k + r / 100 && (100 * k + r) % 100 == r % 100
  {
  }

  lemma SplitBy400(k: int, r: int)
    ensures (400 * k + r) / 400 == k + r / 400 && (400 * k + r) % 400 == r % 400
  {
  }

  /** Which years of a 400-year cycle are leap years. */
  lemma CycleLeap(q400: int, c: int, q4: int, q1: int)
    requires 0 <= c < 4 && 0 <= q4 < 25 && 0 <= q1 < 4
    ensures Leap(400 * q400 + 100 * c + 4 * q4 + q1 + 1) <==> q1 == 3 && (q4 != 24 || c == 3)
  {
    var y := 400 * q400 + 100 * c + 4 * q4 + q1 + 1;
    SplitBy4(100 * q400 + 25 * c + q4, q1 + 1);
    SplitBy100(4 * q400 + c, 4 * q4 + q1 + 1);
    SplitBy400(q400, 100 * c + 4 * q4 + q1 + 1);
    assert y % 4 == (q1 + 1) % 4;
    assert y % 100 == (4 * q4 + q1 + 1) % 100;
    assert y % 400 == (100 * c + 4 * q4 + q1 + 1) % 400;
  }

  /** Where a year starts, by its position in the cycle, and how long it is. */
  lemma CycleStart(q400: int, c: int, q4: int, q1: int)
    requires 0 <= c < 4 && 0 <= q4 < 25 && 0 <= q1 < 4
    ensures YearStart(400 * q400 + 100 * c + 4 * q4 + q1 + 1) == 146097 * q400 + 36524 * c + 1461 * q4 + 365 * q1
    ensures YearDays(400 * q400 + 100 * c + 4 * q4 + q1 + 1) ==
            if q1 == 3 && (q4 != 24 || c == 3) then 366 else 365
    ensures YearStart(400 * q400 + 100 * c + 4 * q4 + q1 + 2) ==
            YearStart(400 * q400 + 100 * c + 4 * q4 + q1 + 1) + YearDays(400 * q400 + 100 * c + 4 * q4 + q1 + 1)
  {
    var x := 400 * q400 + 100 * c + 4 * q4 + q1;
    SplitBy4(100 * q400 + 25 * c + q4, q1);
    SplitBy100(4 * q400 + c, 4 * q4 + q1);
    SplitBy400(q400, 100 * c + 4 * q4 + q1);
    assert x / 4 == 100 * q400 + 25 * c + q4;
    assert x / 100 == 4 * q400 + c;
    assert x / 400 == q400;
    YearsAdjoin(x + 1);
    CycleLeap(q400, c, q4, q1);
  }

  lemma YearOfUnique(n: int, y: int)
    requires YearStart(y) <= n < YearStart(y + 1)
    ensures YearOf(n) == y
  {
    var z := YearOf(n);
    if z < y { YearStartIncreases(z + 1, y); }
    if y < z { YearStartIncreases(y + 1, z); }
  }

  // ---- Months and days ----

  function MonthDays(y: int, m: int): int
    requires 1 <= m <= 12
  {
    if m == 2 then if Leap(y) then 29 else 28
    else if m == 4 || m == 6 || m == 9 || m == 11 then 30
    else 31
  }

  /** Days of the year before the first of the month. */
  function MonthStart(y: int, m: int): int
    requires 1 <= m <= 13
    decreases m
  {
    if m == 1 then 0 else MonthStart(y, m - 1) + MonthDays(y, m - 1)
  }

  lemma MonthLengths(y: int, m: int)
    requires 1 <= m <= 12
    ensures MonthDays(y, m) == [31, if Leap(y) then 29 else 28, 31, 30, 31, 30, 31, 31, 30, 31, 30, 31][m - 1]
    ensures Leap(2000) && Leap(2024) && !Leap(1900) && !Leap(2023)
  {
  }

  /** time.Date at midnight: a day outside the month runs on into its neighbours. */
  function DateDay(y: int, m: int, d: int): int
    requires 1 <= m <= 12
  {
    YearStart(y) + MonthStart(y, m) + d - 1
  }

  function DayOfYear(n: int): int {
    n - YearStart(YearOf(n))
  }

  /** The last month that starts at or before the given day of the year. */
  function MonthAt(y: int, day: int, m: int): (r: int)
    requires 1 <= m <= 12 && 0 <= day < MonthStart(y, m + 1)
    ensures 1 <= r <= m && MonthStart(y, r) <= day < MonthStart(y, r + 1)
    decreases m
  {
    if MonthStart(y, m) <= day then m else MonthAt(y, day, m - 1)
  }

  lemma YearHasTwelveMonths(y: int)
    ensures MonthStart(y, 13) == YearDays(y)
  {
    assert MonthStart(y, 13) == MonthStart(y, 9) + 122;
    assert MonthStart(y, 9) == MonthStart(y, 5) + 123;
    assert MonthStart(y, 5) == MonthStart(y, 1) + 31 + MonthDays(y, 2) + 31 + 30;
  }

  function MonthOf(n: int): (m: int)
    ensures 1 <= m <= 12
  {
    YearHasTwelveMonths(YearOf(n));
    YearsAdjoin(YearOf(n));
    MonthAt(YearOf(n), DayOfYear(n), 12)
  }

  function DayOf(n: int): int {
    DayOfYear(n) - MonthStart(YearOf(n), MonthOf(n)) + 1
  }

  /** The year, month and day of a day name that day, and an offset from its day number moves by days. */
  lemma DateOfDay(n: int, k: int)
    ensures DateDay(YearOf(n), MonthOf(n), DayOf(n) + k) == n + k
    ensures 1 <= DayOf(n) <= MonthDays(YearOf(n), MonthOf(n))
  {
    YearHasTwelveMonths(YearOf(n));
    YearsAdjoin(YearOf(n));
    var m := MonthAt(YearOf(n), DayOfYear(n), 12);
    assert m == MonthOf(n);
  }

  lemma {:induction false} MonthStartIncreases(y: int, m: int, k: int)
    requires 1 <= m < k <= 13
    ensures MonthStart(y, m) + MonthDays(y, m) <= MonthStart(y, k)
    decreases k
  {
    if m < k - 1 { MonthStartIncreases(y, m, k - 1); }
  }

  /** A date that exists is the year, month and day of its day number. */
  lemma DateIsFound(y: int, m: int, d: int)
    requires 1 <= m <= 12 && 1 <= d <= MonthDays(y, m)
    ensures var n := DateDay(y, m, d);
            YearOf(n) == y && MonthOf(n) == m && DayOf(n) == d
  {
    var n := DateDay(y, m, d);
    YearHasTwelveMonths(y);
    YearsAdjoin(y);
    MonthStartIncreases(y, m, 13);
    MonthStartNotNegative(y, m);
    YearOfUnique(n, y);
    var r := MonthOf(n);
    DateOfDay(n, 0);
    if r < m { MonthStartIncreases(y, r, m); }
    if m < r { MonthStartIncreases(y, m, r); }
  }

  lemma {:induction false} MonthStartNotNegative(y: int, m: int)
    requires 1 <= m <= 13
    ensures MonthStart(y, m) >= 0
    decreases m
  {
    if m > 1 { MonthStartNotNegative(y, m - 1); }
  }

  // ---- Weekdays and ISO weeks ----

  /** Go's Weekday: Sunday is 0. */
  function Weekday(n: int): (w: int)
    ensures 0 <= w < 7
  {
    (n + 1) % 7
  }

  /** The Monday of the week that contains the day. */
  function MondayOf(n: int): int {
    n - n % 7
  }

  predicate IsMonday(n: int) {
    n % 7 == 0
  }

  /** The week belongs to the year of its Thursday (section 2.2.10 of ISO 8601:2004). */
  function Thursday(n: int): int {
    MondayOf(n) + 3
  }

  function IsoYear(n: int): int {
    YearOf(Thursday(n))
  }

  function IsoWeek(n: int): int {
    DayOfYear(Thursday(n)) / 7 + 1
  }

  /** A year has 53 weeks when it starts on a Thursday, or on a Wednesday and is a leap year. */
  function WeeksIn(y: int): int {
    if YearStart(y) % 7 == 3 || (YearStart(y) % 7 == 2 && Leap(y)) then 53 else 52
  }

  /** Where some dates lie: the epoch was a Thursday, and 3 January 2021 a Sunday of week 53 of 2020. */
  lemma KnownDates()
    ensures DateDay(1970, 1, 1) == 719162 && Weekday(719162) == 4
    ensures DateDay(2024, 2, 29) == 738944 && Weekday(738944) == 4
    ensures DateDay(2021, 1, 3) == 737792 && Weekday(737792) == 0
    ensures IsoYear(737792) == 2020 && IsoWeek(737792) == 53
  {
    YearOfUnique(Thursday(737792), 2020);
    assert MonthStart(2024, 2) == 31;
  }
}
