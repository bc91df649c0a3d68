/** Days as the strings "2006-01-02" under which the store groups and the program looks up. */
module DayStrings {
  import opened Options
  import opened Decimal
  import opened Calendar

  /** At least four digits of the year, with the sign of the years before 0. */
  function YearDigits(y: int): string {
    if y < 0 then "-" + PadDigits(4, -y) else PadDigits(4, y)
  }

  function DayString(n: int): (s: string) {
    YearDigits(YearOf(n)) + "-" + TwoDigits(MonthOf(n)) + "-" + TwoDigits(DayInMonth(n))
  }

  function DayInMonth(n: int): (d: nat)
    ensures d == DayOf(n) && 1 <= d <= MonthDays(YearOf(n), MonthOf(n)) <= 31
  {
    DateOfDay(n, 0);
    DayOf(n)
  }

  function TwoDigits(n: nat): string {
    PadDigits(2, n)
  }

  lemma PadLength(width: nat, n: nat)
    requires width > 0 && n < Pow10(width)
    ensures |PadDigits(width, n)| == width
  {
    DigitsShort(n, width);
  }

  lemma TwoDigitsLength(n: nat)
    requires n < 100
    ensures |TwoDigits(n)| == 2 && AllDigits(TwoDigits(n)) && Value(TwoDigits(n)) == n
  {
    assert Pow10(2) == 10 * Pow10(1) && Pow10(1) == 10 * Pow10(0);
    PadLength(2, n);
    PaddedNumeral(2, n);
  }

  /** time.Parse with the layout "2006-01-02": two separators, digits elsewhere, and a day that exists. */
  function ParseDay(s: string): Option<int> {
    if |s| != 10 || s[4] != '-' || s[7] != '-' then None
    else if !AllDigits(s[..4]) || !AllDigits(s[5..7]) || !AllDigits(s[8..]) then None
    else ParsedDay(Value(s[..4]), Value(s[5..7]), Value(s[8..]))
  }

  function ParsedDay(y: int, m: int, d: int): Option<int> {
    if 1 <= m <= 12 && 1 <= d <= MonthDays(y, m) then Some(DateDay(y, m, d)) else None
  }

  /** The format at an example. */
  lemma DayFormat()
    ensures DayString(738944) == "2024-02-29"
  {
    ExampleDay();
    ExampleNumerals();
  }

  lemma ExampleDay()
    ensures YearOf(738944) == 2024 && MonthOf(738944) == 2 && DayInMonth(738944) == 29
  {
    KnownDates();
    DateIsFound(2024, 2, 29);
  }

  lemma ExampleNumerals()
    ensures YearDigits(2024) == "2024" && TwoDigits(2) == "02" && TwoDigits(29) == "29"
  {
    assert Digits(2) == "2" && Digits(20) == "20" && Digits(202) == "202" && Digits(2024) == "2024";
    assert Digits(29) == "29" && Zeros(0) == "" && Zeros(1) == "0";
  }

  /** A day of the years 0 to 9999 is read back from its string. */
  lemma DayRoundTrip(n: int)
    requires 0 <= YearOf(n) <= 9999
    ensures ParseDay(DayString(n)) == Some(n)
  {
    var y, m, d := YearOf(n), MonthOf(n), DayInMonth(n);
    FourDigits(y);
    TwoDigitsLength(m);
    TwoDigitsLength(d);
    Fields(YearDigits(y), TwoDigits(m), TwoDigits(d));
    DayIsItsDate(n);
  }

  /** A numeral of the given width is what padding its value to that width prints. */
  lemma PadOfValue(width: nat, s: string)
    requires AllDigits(s) && |s| == width > 0
    ensures PadDigits(width, Value(s)) == s
  {
    ValueBound(s);
    PadLength(width, Value(s));
    PaddedNumeral(width, Value(s));
    SameLengthSameValue(PadDigits(width, Value(s)), s);
  }

  /** Exactly the strings of the days of four-digit years are read, each as its day. */
  lemma ParsedIsPrinted(s: string, n: int)
    ensures ParseDay(s) == Some(n) <==> 0 <= YearOf(n) <= 9999 && s == DayString(n)
  {
    if ParseDay(s) == Some(n) {
      var y, m, d := s[..4], s[5..7], s[8..];
      PadOfValue(4, y);
      PadOfValue(2, m);
      PadOfValue(2, d);
      DateIsFound(Value(y), Value(m), Value(d));
      ValueBound(y);
      assert Pow10(4) == 10 * Pow10(3) && Pow10(3) == 10 * Pow10(2);
      assert Pow10(2) == 10 * Pow10(1) && Pow10(1) == 10 * Pow10(0);
      assert s == y + "-" + m + "-" + d;
    }
    if 0 <= YearOf(n) <= 9999 { DayRoundTrip(n); }
  }

  lemma DayIsItsDate(n: int)
    ensures ParsedDay(YearOf(n), MonthOf(n), DayInMonth(n)) == Some(n)
  {
    DateOfDay(n, 0);
  }

  lemma FourDigits(y: nat)
    requires y <= 9999
    ensures |YearDigits(y)| == 4 && AllDigits(YearDigits(y)) && Value(YearDigits(y)) == y
  {
    assert Pow10(4) == 10 * Pow10(3) && Pow10(3) == 10 * Pow10(2);
    assert Pow10(2) == 10 * Pow10(1) && Pow10(1) == 10 * Pow10(0);
    PadLength(4, y);
    PaddedNumeral(4, y);
  }

  lemma Fields(y: string, m: string, d: string)
    requires |y| == 4 && |m| == 2 && |d| == 2
    ensures var s := y + "-" + m + "-" + d;
            |s| == 10 && s[4] == '-' && s[7] == '-' && s[..4] == y && s[5..7] == m && s[8..] == d
  {
  }

  lemma YearDigitsRead(y: int)
    ensures YearDigits(y) != [] && (YearDigits(y)[0] == '-' <==> y < 0)
    ensures y < 0 ==> AllDigits(YearDigits(y)[1..]) && Value(YearDigits(y)[1..]) == -y
    ensures y >= 0 ==> AllDigits(YearDigits(y)) && Value(YearDigits(y)) == y
  {
    if y < 0 {
      PaddedNumeral(4, -y);
      assert YearDigits(y)[1..] == PadDigits(4, -y);
    } else {
      PaddedNumeral(4, y);
      assert IsDigit(YearDigits(y)[0]);
    }
  }

  lemma YearDigitsInjective(y: int, z: int)
    requires YearDigits(y) == YearDigits(z)
    ensures y == z
  {
    YearDigitsRead(y);
    YearDigitsRead(z);
  }

  lemma TwoDigitsInjective(m: nat, n: nat)
    requires m < 100 && n < 100 && TwoDigits(m) == TwoDigits(n)
    ensures m == n
  {
    TwoDigitsLength(m);
    TwoDigitsLength(n);
  }

  lemma SplitFields(y: string, m: string, d: string, y': string, m': string, d': string)
    requires |m| == |d| == |m'| == |d'| == 2 && y + "-" + m + "-" + d == y' + "-" + m' + "-" + d'
    ensures y == y' && m == m' && d == d'
  {
    var s := y + "-" + m + "-" + d;
    assert |y| == |y'|;
    assert y == s[..|y|] && y' == s[..|y|];
    assert m == s[|y| + 1..|y| + 3] && m' == s[|y| + 1..|y| + 3];
    assert d == s[|y| + 4..] && d' == s[|y| + 4..];
  }

  /** Different days have different strings. */
  lemma DayStringInjective(a: int, b: int)
    requires DayString(a) == DayString(b)
    ensures a == b
  {
    var ma, da, mb, db := MonthOf(a), DayInMonth(a), MonthOf(b), DayInMonth(b);
    TwoDigitsLength(ma);
    TwoDigitsLength(da);
    TwoDigitsLength(mb);
    TwoDigitsLength(db);
    SplitFields(YearDigits(YearOf(a)), TwoDigits(ma), TwoDigits(da),
                YearDigits(YearOf(b)), TwoDigits(mb), TwoDigits(db));
    SameFields(a, b);
  }

  lemma SameFields(a: int, b: int)
    requires YearDigits(YearOf(a)) == YearDigits(YearOf(b))
    requires TwoDigits(MonthOf(a)) == TwoDigits(MonthOf(b)) && TwoDigits(DayInMonth(a)) == TwoDigits(DayInMonth(b))
    ensures a == b
  {
    YearDigitsInjective(YearOf(a), YearOf(b));
    TwoDigitsInjective(MonthOf(a), MonthOf(b));
    TwoDigitsInjective(DayInMonth(a), DayInMonth(b));
    DateOfDay(a, 0);
    DateOfDay(b, 0);
  }
}
