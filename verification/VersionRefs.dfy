/**
 * How a version of a prompt template is written and read: itoaShort's buffer, the digit loop of
 * the promote route, references `name@v<n>`, and the row ids `pt_<name>_v<n>`.
 */
module VersionRefs {
  import opened Options
  import opened Decimal

  /** The int64 that arithmetic leaves behind. */
  function Wrap(n: int): (w: int)
    ensures Int64(w)
  {
    (n - MIN_INT) % U64 + MIN_INT
  }

  /** The one int64 that differs from n by a multiple of 2^64. */
  lemma WrapUnique(n: int, w: int, k: int)
    requires Int64(w) && n == w + U64 * k
    ensures Wrap(n) == w
  {
  }

  lemma WrapDigit(a: int, d: int)
    ensures Wrap(Wrap(a) * 10 + d) == Wrap(a * 10 + d)
  {
    var k := (a - MIN_INT) / U64;
    assert a == Wrap(a) + U64 * k;
    var w := Wrap(a * 10 + d);
    var j := (a * 10 + d - MIN_INT) / U64;
    assert a * 10 + d == w + U64 * j;
    assert Wrap(a) * 10 + d == w + U64 * (j - 10 * k);
    WrapUnique(Wrap(a) * 10 + d, w, j - 10 * k);
  }

  // ---- Printing ----

  /** itoaShort: digits from the back of a buffer of twenty characters. */
  method ItoaShort(value: int) returns (s: string)
    requires Int64(value)
    ensures s == if value == MIN_INT then "-" else Itoa(value)
  {
    if value == 0 {
      return "0";
    }
    var n := value;
    var neg := n < 0;
    if neg {
      n := Negated(n);
    }
    var buf := new char[20];
    AllLeft(value);
    var i := FillDigits(buf, n);
    ghost var tail := buf[i..];
    if neg {
      i := i - 1;
      buf[i] := '-';
      assert buf[i..] == ['-'] + tail;
    }
    s := buf[i..];
    Printed(value, tail);
  }

  /** The loop of itoaShort; there is room left for a sign. */
  method FillDigits(buf: array<char>, top: int) returns (i: int)
    requires buf.Length == 20 && Left(top, top, 20, [])
    modifies buf
    ensures 1 <= i <= 20 && buf[i..] == if top > 0 then Digits(top) else []
  {
    var n := top;
    i := buf.Length;
    ghost var tail: string := [];
    while n > 0
      invariant 1 <= i <= 20 && tail == buf[i..] && Left(top, n, i, tail)
      decreases n
    {
      NextDigit(top, n, i, tail);
      tail := [DigitChar(n % 10)] + tail;
      i := i - 1;
      buf[i] := DigitChar(n % 10);
      n := n / 10;
    }
  }

  /** Negation of an int64: the least one stays as it is. */
  function Negated(n: int): (m: int)
    requires Int64(n)
    ensures m == Wrap(-n)
  {
    if n == MIN_INT then n else -n
  }

  /** What the loop starts from: the magnitude, or the one number whose negation wraps to itself. */
  function Magnitude(value: int): int
    requires Int64(value)
  {
    if value < 0 then Negated(value) else value
  }

  lemma AllLeft(value: int)
    requires Int64(value) && value != 0
    ensures Left(Magnitude(value), Magnitude(value), 20, [])
  {
    TwentyDigits();
  }

  lemma Printed(value: int, tail: string)
    requires Int64(value) && value != 0
    requires tail == if Magnitude(value) > 0 then Digits(Magnitude(value)) else []
    ensures (if value < 0 then ['-'] + tail else tail) == if value == MIN_INT then "-" else Itoa(value)
  {
  }

  /**
   * The digits of `top` that are not yet in the tail of the buffer are those of n, and there is room
   * for them and a sign.
   */
  ghost predicate Left(top: int, n: int, i: int, tail: string) {
    && i >= 1
    && (n > 0 ==> n < Pow10(i - 1) && top > 0 && Digits(top) == Digits(n) + tail)
    && (n <= 0 ==> tail == if top > 0 then Digits(top) else [])
  }

  lemma NextDigit(top: int, n: int, i: int, tail: string)
    requires n > 0 && Left(top, n, i, tail)
    ensures i >= 2 && Left(top, n / 10, i - 1, [DigitChar(n % 10)] + tail)
  {
    var next := [DigitChar(n % 10)] + tail;
    if n >= 10 {
      assert Digits(n) + tail == Digits(n / 10) + next;
    }
  }

  lemma TwentyDigits()
    ensures MAX_INT < Pow10(19)
  {
    assert Pow10(19) == 10_000_000_000 * Pow10(9) by {
      assert Pow10(19) == 10 * Pow10(18) && Pow10(18) == 10 * Pow10(17) && Pow10(17) == 10 * Pow10(16);
      assert Pow10(16) == 10 * Pow10(15) && Pow10(15) == 10 * Pow10(14) && Pow10(14) == 10 * Pow10(13);
      assert Pow10(13) == 10 * Pow10(12) && Pow10(12) == 10 * Pow10(11) && Pow10(11) == 10 * Pow10(10);
      assert Pow10(10) == 10 * Pow10(9);
    }
    assert Pow10(9) == 1_000_000_000 by {
      assert Pow10(9) == 10 * Pow10(8) && Pow10(8) == 10 * Pow10(7) && Pow10(7) == 10 * Pow10(6);
      assert Pow10(6) == 10 * Pow10(5) && Pow10(5) == 10 * Pow10(4) && Pow10(4) == 10 * Pow10(3);
    }
  }

  // ---- The promote route ----

  datatype Parsed = NotNumeric | NotPositive | Version(v: int)

  /** What the digit loop makes of a path segment: only digits, and the number they wrap to, unless that is 0. */
  function PromoteVersion(s: string): Parsed {
    if !AllDigits(s) then NotNumeric
    else if Wrap(Value(s)) == 0 then NotPositive
    else Version(Wrap(Value(s)))
  }

  method ParsePromoteVersion(s: string) returns (r: Parsed)
    ensures r == PromoteVersion(s)
  {
    var version := 0;
    for k := 0 to |s|
      invariant AllDigits(s[..k]) && version == Wrap(Value(s[..k]))
    {
      if s[k] < '0' || s[k] > '9' {
        return NotNumeric;
      }
      assert s[..k + 1] == s[..k] + [s[k]];
      ValueAppend(s[..k], s[k]);
      WrapDigit(Value(s[..k]), DigitValue(s[k]));
      version := Wrap(version * 10 + DigitValue(s[k]));
    }
    assert s[..|s|] == s;
    if version == 0 {
      return NotPositive;
    }
    r := Version(version);
  }

  /** A numeral is promoted as the number it denotes exactly when that is positive and fits an int. */
  lemma PromoteReadsTheNumber(s: string)
    requires AllDigits(s)
    ensures PromoteVersion(s) == Version(Value(s)) <==> 0 < Value(s) <= MAX_INT
  {
    if Value(s) <= MAX_INT {
      WrapUnique(Value(s), Value(s), 0);
    }
  }

  /** One that does not fit: the loop wraps around instead of refusing it. */
  lemma PromoteWraps()
    ensures PromoteVersion(Digits(U64 + 1)) == Version(1)
  {
    ValueOfDigits(U64 + 1);
    WrapUnique(U64 + 1, 1, 1);
  }

  // ---- References ----

  datatype Ref = Ref(name: string, version: int)

  function LastIndex(s: string, c: char): (i: int)
    ensures -1 <= i < |s|
    ensures i >= 0 ==> s[i] == c
    ensures forall j | i < j < |s| :: s[j] != c
  {
    if s == [] then -1
    else if s[|s| - 1] == c then |s| - 1
    else LastIndex(s[..|s| - 1], c)
  }

  /** parsePromptVersionRef. */
  function ParseRef(ref: string): Option<Ref> {
    var at := LastIndex(ref, '@');
    if at <= 0 || at == |ref| - 1 then None
    else
      var vs := ref[at + 1..];
      if vs[0] != 'v' then None
      else
        match Atoi(vs[1..])
        case None => None
        case Some(version) => if version <= 0 then None else Some(Ref(ref[..at], version))
  }

  function PrintRef(r: Ref): string {
    r.name + "@v" + Itoa(r.version)
  }

  lemma NumeralsHaveNo(s: string, c: char)
    requires Atoi(s).Some? && !IsDigit(c) && c != '-' && c != '+'
    ensures c !in s
  {
    forall k | 0 <= k < |s| ensures s[k] != c {
      if k > 0 {
        var digits := if s[0] == '-' || s[0] == '+' then s[1..] else s;
        assert s[k] == digits[if digits == s then k else k - 1];
      }
    }
  }

  /** The accepted references: a non-empty name, "@v", and a positive numeral, with any sign or zeros Atoi takes. */
  lemma AcceptedRef(ref: string, r: Ref)
    ensures ParseRef(ref) == Some(r) <==>
            r.name != "" && r.version > 0 && exists num: string ::
                ref == Written(r.name, num) && Atoi(num) == Some(r.version)
  {
    if ParseRef(ref) == Some(r) {
      RefParts(ref, r);
    }
    if r.name != "" && r.version > 0 && exists num: string ::
        ref == Written(r.name, num) && Atoi(num) == Some(r.version) {
      var num :| ref == Written(r.name, num) && Atoi(num) == Some(r.version);
      WrittenParses(r, num);
    }
  }

  function Written(name: string, num: string): string {
    name + ['@', 'v'] + num
  }

  lemma Pieces(ref: string, at: nat)
    requires 0 < at < |ref| - 1 && ref[at] == '@' && ref[at + 1] == 'v'
    ensures ref == Written(ref[..at], ref[at + 2..]) && ref[at + 1..][1..] == ref[at + 2..]
  {
  }

  lemma RefParts(ref: string, r: Ref)
    requires ParseRef(ref) == Some(r)
    ensures exists num: string :: ref == Written(r.name, num) && Atoi(num) == Some(r.version)
  {
    Pieces(ref, LastIndex(ref, '@'));
  }

  lemma WrittenParses(r: Ref, num: string)
    requires r.name != "" && r.version > 0 && Atoi(num) == Some(r.version)
    ensures ParseRef(Written(r.name, num)) == Some(r)
  {
    NumeralsHaveNo(num, '@');
    var ref := Written(r.name, num);
    var at := |r.name|;
    assert ref[at] == '@' && ref[..at] == r.name;
    assert ref[at + 1..] == ['v'] + num;
    assert (['v'] + num)[1..] == num;
    LastAt(ref, at);
  }

  lemma LastAt(ref: string, at: nat)
    requires at < |ref| && ref[at] == '@' && '@' !in ref[at + 1..]
    ensures LastIndex(ref, '@') == at
  {
    forall j | at < j < |ref| ensures ref[j] != '@' {
      assert ref[j] == ref[at + 1..][j - at - 1];
    }
  }

  /** A printed reference is read back, for every name and every version the program can hold. */
  lemma RefRoundTrip(r: Ref)
    requires r.name != "" && 1 <= r.version <= MAX_INT
    ensures ParseRef(PrintRef(r)) == Some(r)
    ensures PromoteVersion(Itoa(r.version)) == Version(r.version)
  {
    AtoiOfDigits(r.version);
    ValueOfDigits(r.version);
    PromoteReadsTheNumber(Digits(r.version));
    WrittenParses(r, Digits(r.version));
    assert PrintRef(r) == Written(r.name, Digits(r.version));
  }

  // ---- Row ids ----

  function RowId(r: Ref): string {
    "pt_" + r.name + "_v" + Itoa(r.version)
  }

  /** The two formats at an example: the row of version 12 of "base", and a reference to it. */
  lemma FormatsOfAVersion()
    ensures RowId(Ref("base", 12)) == "pt_base_v12" && PrintRef(Ref("base", 12)) == "base@v12"
  {
    assert Digits(1) == "1" && Digits(12) == Digits(1) + "2";
  }

  lemma ItoaHasNoV(n: int)
    ensures 'v' !in Itoa(n)
  {
  }

  lemma ItoaInjective(m: int, n: int)
    requires Itoa(m) == Itoa(n)
    ensures m == n
  {
    assert forall k | k >= 0 :: IsDigit(Itoa(k)[0]);
    if m < 0 && n < 0 {
      assert Itoa(m)[1..] == Digits(-m) && Itoa(n)[1..] == Digits(-n);
      DigitsInjective(-m, -n);
    } else if m >= 0 && n >= 0 {
      DigitsInjective(m, n);
    }
  }

  lemma LongerTailHasV(x: string, a: string, y: string, b: string)
    requires x + ['v'] + a == y + ['v'] + b && |a| < |b|
    ensures 'v' in b
  {
    var s := x + ['v'] + a;
    assert s[|x|] == 'v' && s[|x|] == b[|b| - |a| - 1];
  }

  lemma TailsAgree(x: string, a: string, y: string, b: string)
    requires x + ['v'] + a == y + ['v'] + b && 'v' !in a && 'v' !in b
    ensures x == y && a == b
  {
    if |a| < |b| { LongerTailHasV(x, a, y, b); }
    if |b| < |a| { LongerTailHasV(y, b, x, a); }
    var s := x + ['v'] + a;
    assert x == s[..|s| - |a| - 1] && y == s[..|s| - |b| - 1];
    assert a == s[|s| - |a|..] && b == s[|s| - |b|..];
  }

  /** Two ids are the same only for the same name and the same version, even when names look like ids. */
  lemma RowIdInjective(q: Ref, r: Ref)
    requires RowId(q) == RowId(r)
    ensures q == r
  {
    var x, y := "pt_" + q.name + "_", "pt_" + r.name + "_";
    ItoaHasNoV(q.version);
    ItoaHasNoV(r.version);
    assert RowId(q) == x + ['v'] + Itoa(q.version) && RowId(r) == y + ['v'] + Itoa(r.version);
    TailsAgree(x, Itoa(q.version), y, Itoa(r.version));
    ItoaInjective(q.version, r.version);
    assert q.name == x[3..|x| - 1] && r.name == y[3..|y| - 1];
  }

  datatype Row = Row(ref: Ref, body: string)

  /** Every row is stored under the id of its name and version. */
  ghost predicate Keyed(rows: map<string, Row>) {
    forall id | id in rows :: id == RowId(rows[id].ref)
  }

  function Resolve(rows: map<string, Row>, text: string): Option<Row> {
    match ParseRef(text)
    case None => None
    case Some(r) => if RowId(r) in rows then Some(rows[RowId(r)]) else None
  }

  /** A printed reference finds the row of that name and version, or nothing when there is none. */
  lemma RefAddressesItsRow(rows: map<string, Row>, r: Ref)
    requires Keyed(rows) && r.name != "" && 1 <= r.version <= MAX_INT
    ensures Resolve(rows, PrintRef(r)).Some? ==> Resolve(rows, PrintRef(r)).value.ref == r
    ensures Resolve(rows, PrintRef(r)).None? <==> forall id | id in rows :: rows[id].ref != r
  {
    RefRoundTrip(r);
    if RowId(r) in rows {
      RowIdInjective(r, rows[RowId(r)].ref);
    }
  }
}
