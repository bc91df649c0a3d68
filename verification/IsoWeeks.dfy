/**
 * ISO week labels ("2026-W18") and back. The label is printed from the ISO year and week of a
 * Monday; parsing finds the Monday of week 1 through 4 January and steps on by weeks.
 */
module IsoWeeks {
  import opened Options
  import opened Decimal
  import opened Calendar

  // ---- The arithmetic ----

  /** Go's remainder truncates toward zero. */
  function GoRem(a: int, b: int): int
    requires b > 0
  {
    if a < 0 then -((-a) % b) else a % b
  }

  function Jan4(year: int): int {
    DateDay(year, 1, 4)
  }

  /** The Monday that ParseISOWeekLabel computes for a year and a week. */
  function ParsedMonday(year: int, week: int): int {
    var mondayOfWeek1 := Jan4(year) + GoRem(-(Weekday(Jan4(year)) + 6), 7);
    mondayOfWeek1 + (week - IsoWeek(Jan4(year))) * 7
  }

  /** Go's way back to the Monday of a day's week. */
  lemma BackToMonday(n: int)
    ensures n + GoRem(-(Weekday(n) + 6), 7) == MondayOf(n)
  {
    assert (Weekday(n) + 6) % 7 == n % 7;
  }

  /** The Thursday of the week of the fourth day from `start` is among the first seven days. */
  lemma ThursdayNear(start: int)
    ensures start <= Thursday(start + 3) <= start + 6
  {
  }

  lemma WeekStep(n: int, k: int)
    ensures IsMonday(MondayOf(n) + 7 * k) && Thursday(MondayOf(n) + 7 * k) == MondayOf(n) + 7 * k + 3
  {
  }

  /** A 53rd Thursday fits into the year only when the year starts late enough in the week. */
  lemma FiftyThirdThursday(start: int, leap: bool)
    ensures start % 7 == 3 || (start % 7 == 2 && leap) <==>
            MondayOf(start + 3) + 7 * 52 + 3 < start + if leap then 366 else 365
  {
  }

  lemma Jan4Day(year: int)
    ensures Jan4(year) == YearStart(year) + 3
  {
  }

  /** 4 January lies in week 1 of its year. */
  lemma Jan4IsInWeek1(year: int)
    ensures IsoWeek(Jan4(year)) == 1 && IsoYear(Jan4(year)) == year
    ensures ParsedMonday(year, 1) == MondayOf(Jan4(year))
  {
    Jan4Day(year);
    YearsAdjoin(year);
    ThursdayNear(YearStart(year));
    YearOfUnique(Thursday(Jan4(year)), year);
    BackToMonday(Jan4(year));
  }

  /** Week 1 starts on the Monday of 4 January, and the weeks follow it. */
  lemma ParsedFromWeek1(year: int, week: int)
    ensures ParsedMonday(year, week) == MondayOf(YearStart(year) + 3) + 7 * (week - 1)
  {
    Jan4IsInWeek1(year);
    Jan4Day(year);
    BackToMonday(Jan4(year));
  }

  lemma ThursdayInWeek(start: int, week: int)
    ensures var m := MondayOf(start + 3) + 7 * (week - 1);
            IsMonday(m) && Thursday(m) == m + 3 && 7 * (week - 1) <= Thursday(m) - start < 7 * week
  {
    WeekStep(start + 3, week - 1);
    ThursdayNear(start);
  }

  /** The Thursday of the parsed week, counted from 1 January of the given year. */
  lemma ParsedThursday(year: int, week: int)
    ensures IsMonday(ParsedMonday(year, week))
    ensures Thursday(ParsedMonday(year, week)) == ParsedMonday(year, week) + 3
    ensures 7 * (week - 1) <= Thursday(ParsedMonday(year, week)) - YearStart(year) < 7 * week
  {
    ParsedFromWeek1(year, week);
    ThursdayInWeek(YearStart(year), week);
  }

  /** The 53rd parsed Thursday lies in the year exactly when the year has 53 weeks. */
  lemma LongYear(year: int)
    ensures WeeksIn(year) == 53 <==> ParsedMonday(year, 53) + 3 < YearStart(year + 1)
  {
    ParsedFromWeek1(year, 53);
    YearsAdjoin(year);
    FiftyThirdThursday(YearStart(year), Leap(year));
  }

  /**
   * Week and year of the parsed Monday: what was asked for when the year has that many weeks,
   * and week 1 of the next year for a 53rd week that does not exist.
   */
  lemma ParsedWeek(year: int, week: int)
    requires 1 <= week <= 53
    ensures week <= WeeksIn(year) ==>
              IsoYear(ParsedMonday(year, week)) == year && IsoWeek(ParsedMonday(year, week)) == week
    ensures week > WeeksIn(year) ==>
              IsoYear(ParsedMonday(year, week)) == year + 1 && IsoWeek(ParsedMonday(year, week)) == 1
  {
    var m := ParsedMonday(year, week);
    ParsedThursday(year, week);
    LongYear(year);
    YearsAdjoin(year);
    if week <= WeeksIn(year) {
      WeekOfThursday(m, year, week);
    } else {
      YearsAdjoin(year + 1);
      WeekOfThursday(m, year + 1, 1);
    }
  }

  /** A Monday whose Thursday is the week-th of the year has that year and week. */
  lemma WeekOfThursday(m: int, year: int, week: int)
    requires IsMonday(m) && 1 <= week
    requires 7 * (week - 1) <= m + 3 - YearStart(year) < 7 * week && m + 3 < YearStart(year + 1)
    ensures IsoYear(m) == year && IsoWeek(m) == week
  {
    assert Thursday(m) == m + 3;
    YearOfUnique(m + 3, year);
  }

  /** A Monday is found again from its ISO year and week, which lies within its year's weeks. */
  lemma MondayRoundTrip(m: int)
    requires IsMonday(m)
    ensures 1 <= IsoWeek(m) <= WeeksIn(IsoYear(m)) <= 53
    ensures ParsedMonday(IsoYear(m), IsoWeek(m)) == m
  {
    MondayInYear(m, IsoYear(m));
  }

  lemma MondayInYear(m: int, year: int)
    requires IsMonday(m) && YearStart(year) <= Thursday(m) < YearStart(year + 1)
    ensures IsoYear(m) == year && 1 <= IsoWeek(m) <= WeeksIn(year)
    ensures ParsedMonday(year, IsoWeek(m)) == m
  {
    var start := YearStart(year);
    YearOfUnique(Thursday(m), year);
    WeekNumber(m + 3, start);
    assert IsoWeek(m) == (m + 3 - start) / 7 + 1;
    FindMonday(m, year, IsoWeek(m));
    YearsAdjoin(year);
    LongYear(year);
  }

  /** The Monday whose Thursday is the week-th of the year is the one that parsing computes. */
  lemma FindMonday(m: int, year: int, week: int)
    requires IsMonday(m) && 7 * (week - 1) <= m + 3 - YearStart(year) < 7 * week
    ensures ParsedMonday(year, week) == m
  {
    ParsedThursday(year, week);
    SameWeekSameMonday(m, ParsedMonday(year, week), YearStart(year) - 3, week);
  }

  lemma WeekNumber(thursday: int, start: int)
    requires start <= thursday
    ensures 7 * ((thursday - start) / 7) <= thursday - start < 7 * ((thursday - start) / 7) + 7
  {
  }

  /** Two Mondays in the same seven days are one. */
  lemma SameWeekSameMonday(a: int, b: int, start: int, week: int)
    requires IsMonday(a) && IsMonday(b)
    requires 7 * (week - 1) <= a - start < 7 * week && 7 * (week - 1) <= b - start < 7 * week
    ensures a == b
  {
  }

  // ---- The label ----

  /** %0*d: zeros between the sign and the digits, up to the width. */
  function Pad(width: nat, n: int): string
    requires width > 0
  {
    if n < 0 then "-" + PadDigits(width - 1, -n) else PadDigits(width, n)
  }

  function Label(monday: int): string {
    Pad(4, IsoYear(monday)) + "-W" + Pad(2, IsoWeek(monday))
  }

  /** The first occurrence of "-W", or the length when there is none. */
  function FirstDashW(s: string): (i: nat)
    ensures i <= |s|
    ensures i < |s| ==> i + 1 < |s| && s[i] == '-' && s[i + 1] == 'W'
    ensures forall j | 0 <= j < i && j + 1 < |s| :: !(s[j] == '-' && s[j + 1] == 'W')
  {
    if |s| < 2 then |s|
    else if s[0] == '-' && s[1] == 'W' then 0
    else FirstDashW(s[1..]) + 1
  }

  /** strings.Split(s, "-W"). */
  function SplitDashW(s: string): seq<string>
    decreases |s|
  {
    var i := FirstDashW(s);
    if i == |s| then [s] else [s[..i]] + SplitDashW(s[i + 2..])
  }

  /** The blanks that Go's scanner skips before a number; a newline makes it fail. */
  predicate IsBlank(c: char) {
    c == '\t' || c == '\U{0B}' || c == '\U{0C}' || c == '\r' || c == ' ' || c == '\U{85}' || c == '\U{A0}'
    || c == '\U{1680}' || ('\U{2000}' <= c <= '\U{200A}') || c == '\U{2028}' || c == '\U{2029}'
    || c == '\U{202F}' || c == '\U{205F}' || c == '\U{3000}'
  }

  function SkipBlanks(s: string): string {
    if s != [] && IsBlank(s[0]) then SkipBlanks(s[1..]) else s
  }

  function DigitPrefix(s: string): (t: string)
    ensures AllDigits(t) && t <= s
  {
    if s == [] || !IsDigit(s[0]) then [] else [s[0]] + DigitPrefix(s[1..])
  }

  /** fmt.Sscanf(s, "%d"): blanks, a sign, digits; whatever follows is ignored. */
  function ScanInt(s: string): Option<int> {
    var t := SkipBlanks(s);
    var signed := t != [] && (t[0] == '-' || t[0] == '+');
    var digits := DigitPrefix(if signed then t[1..] else t);
    if digits == [] then None
    else
      var n := Signed(signed && t[0] == '-', Value(digits));
      if Int64(n) then Some(n) else None
  }

  /** ParseISOWeekLabel; None stands for its errors. */
  function ParseLabel(text: string): Option<int> {
    var parts := SplitDashW(text);
    if |parts| != 2 then None
    else
      match (ScanInt(parts[0]), ScanInt(parts[1]))
      case (Some(year), Some(week)) => if 1 <= week <= 53 then Some(ParsedMonday(year, week)) else None
      case _ => None
  }

  /** The format at an example: 27 April 2026 is the Monday of week 18. */
  lemma LabelFormat()
    ensures DateDay(2026, 4, 27) == 739732 && IsMonday(739732) && Label(739732) == "2026-W18"
  {
    ExampleWeek();
    ExampleNumerals();
  }

  lemma ExampleWeek()
    ensures DateDay(2026, 4, 27) == 739732 && IsMonday(739732) && IsoYear(739732) == 2026 && IsoWeek(739732) == 18
  {
    YearOfUnique(Thursday(739732), 2026);
    assert MonthStart(2026, 4) == 90;
  }

  lemma ExampleNumerals()
    ensures Pad(4, 2026) == "2026" && Pad(2, 18) == "18"
  {
    assert Digits(2) == "2" && Digits(20) == "20" && Digits(202) == "202" && Digits(2026) == "2026";
    assert Digits(1) == "1" && Digits(18) == "18" && Zeros(0) == "";
  }

  // ---- Reading back what was printed ----

  predicate NoW(s: string) {
    forall i | 0 <= i < |s| :: s[i] != 'W'
  }

  lemma {:induction false} NoSplitWithoutW(s: string)
    requires NoW(s)
    ensures SplitDashW(s) == [s]
  {
    assert FirstDashW(s) == |s|;
  }

  lemma SplitLabel(y: string, w: string)
    requires NoW(y) && NoW(w)
    ensures SplitDashW(y + "-W" + w) == [y, w]
  {
    var s := y + "-W" + w;
    assert s[|y|] == '-' && s[|y| + 1] == 'W';
    assert forall i | 0 <= i < |y| :: s[i] == y[i];
    assert FirstDashW(s) == |y|;
    assert s[..|y|] == y && s[|y| + 2..] == w;
    NoSplitWithoutW(w);
  }

  lemma {:induction false} DigitPrefixOfDigits(s: string)
    requires AllDigits(s)
    ensures DigitPrefix(s) == s
    decreases |s|
  {
    if s != [] {
      DigitPrefixOfDigits(s[1..]);
      assert s == [s[0]] + s[1..];
    }
  }

  lemma ScanUnsigned(body: string)
    requires body != [] && AllDigits(body) && Int64(Value(body))
    ensures ScanInt(body) == Some(Value(body))
  {
    assert IsDigit(body[0]);
    assert SkipBlanks(body) == body;
    DigitPrefixOfDigits(body);
  }

  lemma ScanNegative(body: string)
    requires body != [] && AllDigits(body) && Int64(Signed(true, Value(body)))
    ensures ScanInt("-" + body) == Some(Signed(true, Value(body)))
  {
    var p := "-" + body;
    assert p[0] == '-' && p[1..] == body;
    assert SkipBlanks(p) == p;
    DigitPrefixOfDigits(body);
  }

  lemma DigitsNoW(s: string)
    requires AllDigits(s)
    ensures NoW(s) && NoW("-" + s)
  {
  }

  /** A printed number has no 'W' and scans as itself. */
  lemma ScanPad(width: nat, n: int)
    requires width > 0 && Int64(n)
    ensures NoW(Pad(width, n)) && ScanInt(Pad(width, n)) == Some(n)
  {
    var body := if n < 0 then PadDigits(width - 1, -n) else PadDigits(width, n);
    PaddedNumeral(if n < 0 then width - 1 else width, if n < 0 then -n else n);
    DigitsNoW(body);
    if n < 0 {
      ScanNegative(body);
    } else {
      ScanUnsigned(body);
    }
  }

  /** Parsing the label of a Monday gives the Monday back. */
  lemma LabelRoundTrip(m: int)
    requires IsMonday(m) && Int64(IsoYear(m))
    ensures ParseLabel(Label(m)) == Some(m)
  {
    MondayRoundTrip(m);
    ScanPad(4, IsoYear(m));
    ScanPad(2, IsoWeek(m));
    SplitLabel(Pad(4, IsoYear(m)), Pad(2, IsoWeek(m)));
  }

  /** The two numbers in a label. */
  predicate Names(text: string, year: int, week: int) {
    var parts := SplitDashW(text);
    |parts| == 2 && ScanInt(parts[0]) == Some(year) && ScanInt(parts[1]) == Some(week)
  }

  lemma ParseNames(text: string, year: int, week: int)
    requires Names(text, year, week)
    ensures ParseLabel(text) == if 1 <= week <= 53 then Some(ParsedMonday(year, week)) else None
  {
  }

  /**
   * A label that names a year and a week is accepted iff the week is between 1 and 53. The
   * result is a Monday whose own label names that year and week, or week 1 of the next year
   * when the year has no 53rd week.
   */
  lemma AcceptedLabel(text: string, year: int, week: int)
    requires Names(text, year, week)
    ensures ParseLabel(text).Some? <==> 1 <= week <= 53
    ensures ParseLabel(text).Some? ==>
              && IsMonday(ParseLabel(text).value)
              && IsoYear(ParseLabel(text).value) == (if week <= WeeksIn(year) then year else year + 1)
              && IsoWeek(ParseLabel(text).value) == (if week <= WeeksIn(year) then week else 1)
  {
    ParseNames(text, year, week);
    if 1 <= week <= 53 {
      ParsedThursday(year, week);
      ParsedWeek(year, week);
    }
  }
}
