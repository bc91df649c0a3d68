/**
 * Retention cohorts: users by the bucket of their first sign-up in the window, and for each
 * cohort how many were active in each of the following buckets. The two aggregations of the
 * event store are functions of the event log; instants and days are those of the crons.
 */
module Retention {
  import opened Options
  import opened Counting
  import opened Calendar
  import opened Division
  import opened Crons
  import D = DayStrings

  const COHORTS: nat := 30

  datatype Event = Event(userId: string, name: string, at: Instant)

  datatype RetentionCell = RetentionCell(users: nat, retention: real)

  datatype CohortRow = CohortRow(bucketStart: Instant, cohortSize: nat, cells: seq<RetentionCell>)

  datatype Response = BadUnit | Cohorts(n: nat, rows: seq<CohortRow>)

  // ---- Buckets ----

  predicate IsUnit(unit: string) {
    unit == "day" || unit == "week"
  }

  function BucketDur(unit: string): (d: int) {
    if unit == "week" then WEEK else DAY
  }

  /** truncateToBucket: midnight, or the midnight of the week's Monday. */
  function TruncateToBucket(t: Instant, unit: string): Instant {
    if unit == "day" then DateAt(t, 0, 0) else DateAt(t, -(IsoWeekday(DayAt(t)) - 1), 0)
  }

  /** Go's division truncates, but only a non-negative difference is divided. */
  function BucketIndex(t: Instant, start: Instant, dur: int): int
    requires dur > 0
  {
    if t - start < 0 then -1 else (t - start) / dur
  }

  function StartBucket(now: Instant, unit: string): Instant {
    TruncateToBucket(now, unit) - (COHORTS - 1) * BucketDur(unit)
  }

  /** The start of the j-th bucket. */
  function BucketAt(start: Instant, dur: int, j: int): Instant {
    start + dur * j
  }

  /** The day number at which the bucket starts. */
  function BucketDay(t: Instant, unit: string): int {
    if unit == "day" then DayAt(t) else MondayOf(DayAt(t))
  }

  lemma TruncateIs(t: Instant, unit: string)
    ensures TruncateToBucket(t, unit) == BucketDay(t, unit) * DAY
  {
    DateAtIs(t, if unit == "day" then 0 else -(IsoWeekday(DayAt(t)) - 1), 0);
    MondayOffset(DayAt(t));
  }

  lemma WeekBounds(n: int)
    ensures MondayOf(n) <= n <= MondayOf(n) + 6 && IsMonday(MondayOf(n))
  {
    MondayOffset(n);
  }

  /** The bucket of an instant contains it and starts at a midnight, for weeks on a Monday. */
  lemma TruncateIsTheBucket(t: Instant, unit: string)
    requires IsUnit(unit)
    ensures TruncateToBucket(t, unit) <= t < TruncateToBucket(t, unit) + BucketDur(unit)
    ensures TruncateToBucket(t, unit) % DAY == 0
    ensures unit == "week" ==> IsMonday(DayAt(TruncateToBucket(t, unit)))
  {
    TruncateIs(t, unit);
    var day := BucketDay(t, unit);
    WeekBounds(DayAt(t));
    DayOfMidnight(day);
    WithinDays(t, day, if unit == "week" then 7 else 1);
  }

  lemma WithinDays(t: Instant, day: int, k: int)
    requires (k == 1 || k == 7) && day <= DayAt(t) < day + k
    ensures day * DAY <= t < day * DAY + k * DAY
  {
    DayBounds(t);
  }

  /** The index says which bucket the instant is in. */
  lemma IndexIsTheBucket(t: Instant, start: Instant, dur: int, j: nat)
    requires dur > 0
    ensures BucketIndex(t, start, dur) == j <==> BucketAt(start, dur, j) <= t < BucketAt(start, dur, j) + dur
  {
    if BucketAt(start, dur, j) <= t < BucketAt(start, dur, j) + dur {
      NotNegative(dur, j);
      Unique(t - start, dur, j, t - start - dur * j);
    }
  }

  lemma NotNegative(dur: int, j: nat)
    requires dur > 0
    ensures dur * j >= 0
  {
  }

  lemma IndexOfDays(days: nat, rest: int, k: int)
    requires (k == 1 || k == 7) && 0 <= rest < DAY
    ensures (days * DAY + rest) / (k * DAY) == days / k
  {
    var q, r := days / k, days % k;
    assert days == k * q + r;
    if k == 7 {
      Unique(days * DAY + rest, 7 * DAY, q, r * DAY + rest);
    } else {
      Unique(days * DAY + rest, DAY, q, rest);
    }
  }

  lemma IndexByDay(day: int, rest: int, s: int, k: int)
    requires (k == 1 || k == 7) && 0 <= rest < DAY
    ensures BucketIndex(day * DAY, s * DAY, k * DAY) == BucketIndex(day * DAY + rest, s * DAY, k * DAY)
  {
    var days := day - s;
    assert day * DAY - s * DAY == days * DAY;
    if days >= 0 {
      IndexOfDays(days, rest, k);
      IndexOfDays(days, 0, k);
    }
  }

  /** Counting from a midnight in whole days, only the day of an instant matters. */
  lemma SameIndexAsTheDay(t: Instant, start: Instant, unit: string)
    requires start % DAY == 0
    ensures BucketIndex(DayAt(t) * DAY, start, BucketDur(unit)) == BucketIndex(t, start, BucketDur(unit))
  {
    DayBounds(t);
    IndexByDay(DayAt(t), t - DayAt(t) * DAY, start / DAY, if unit == "week" then 7 else 1);
  }

  // ---- The answers of the store ----

  predicate IsSignup(e: Event, lo: Instant, hi: Instant) {
    e.name == "signed_up" && lo <= e.at < hi
  }

  /** Each user's first sign-up in the window. */
  function Signups(events: seq<Event>, lo: Instant, hi: Instant): map<string, Instant> {
    if events == [] then map[]
    else
      var e, m := events[|events| - 1], Signups(events[..|events| - 1], lo, hi);
      if !IsSignup(e, lo, hi) || (e.userId in m && m[e.userId] <= e.at) then m else m[e.userId := e.at]
  }

  lemma {:induction false} SignupsMeaning(events: seq<Event>, lo: Instant, hi: Instant, u: string)
    ensures u in Signups(events, lo, hi) <==>
            exists k :: 0 <= k < |events| && events[k].userId == u && IsSignup(events[k], lo, hi)
    ensures u in Signups(events, lo, hi) ==>
              exists k :: 0 <= k < |events| && events[k].userId == u && IsSignup(events[k], lo, hi)
                          && events[k].at == Signups(events, lo, hi)[u]
    ensures u in Signups(events, lo, hi) ==>
              forall k | 0 <= k < |events| && events[k].userId == u && IsSignup(events[k], lo, hi) ::
                Signups(events, lo, hi)[u] <= events[k].at
    decreases |events|
  {
    if events != [] {
      var n := |events| - 1;
      SignupsMeaning(events[..n], lo, hi, u);
      assert forall k | 0 <= k < n :: events[..n][k] == events[k];
      assert forall k | 0 <= k < |events| :: k == n || events[k] == events[..n][k];
    }
  }

  /** How the store writes a day, and how the program reads it. */
  datatype DayText = DayText(name: int -> string, parse: string -> Option<int>)

  const DAY_TEXT := DayText(D.DayString, D.ParseDay)

  /** Days of the years 0 to 9999 are read back. */
  ghost predicate Reads(text: DayText) {
    forall n | FourDigitYear(n) :: text.parse(text.name(n)) == Some(n)
  }

  lemma ReadsDays()
    ensures Reads(DAY_TEXT)
  {
    forall n | FourDigitYear(n) ensures D.ParseDay(D.DayString(n)) == Some(n) {
      D.DayRoundTrip(n);
    }
  }

  /** Users of a set and the days on which they did anything in the window. */
  function ActiveDays(text: DayText, events: seq<Event>, users: set<string>, lo: Instant, hi: Instant)
    : set<(string, string)>
  {
    set k | 0 <= k < |events| && events[k].userId in users && lo <= events[k].at < hi ::
      (events[k].userId, text.name(DayAt(events[k].at)))
  }

  // ---- Filling the table ----

  /** The answer to the activity query: the window ends with the last column of the last cohort. */
  function ActivityRows(text: DayText, events: seq<Event>, userCohort: map<string, int>, start: Instant, dur: int,
                        n: int)
    : set<(string, string)>
  {
    ActiveDays(text, events, userCohort.Keys, start, BucketAt(start, dur, COHORTS - 1 + n))
  }

  function UsersAt(cohortUsers: map<int, set<string>>, i: int): set<string> {
    if i in cohortUsers then cohortUsers[i] else {}
  }

  /** The bucket of each first sign-up. */
  function Indices(signups: map<string, Instant>, start: Instant, dur: int): map<string, int>
    requires dur > 0
  {
    map u | u in signups :: BucketIndex(signups[u], start, dur)
  }

  ghost function UsersWithIndex(users: set<string>, index: map<string, int>, i: int): set<string> {
    set u | u in users && u in index && index[u] == i
  }

  ghost function CohortMap(users: set<string>, index: map<string, int>): map<string, int> {
    map u | u in users && u in index && 0 <= index[u] < COHORTS :: index[u]
  }

  lemma NextUser(users: set<string>, u: string, index: map<string, int>)
    requires u in index
    ensures forall i :: UsersWithIndex(users + {u}, index, i) ==
                        UsersWithIndex(users, index, i) + if i == index[u] then {u} else {}
    ensures CohortMap(users + {u}, index) ==
            if 0 <= index[u] < COHORTS then CohortMap(users, index)[u := index[u]] else CohortMap(users, index)
  {
  }

  method AddToCohort(cohortUsers: map<int, set<string>>, idx: int, u: string) returns (more: map<int, set<string>>)
    ensures UsersAt(more, idx) == UsersAt(cohortUsers, idx) + {u}
    ensures forall i | i != idx :: UsersAt(more, i) == UsersAt(cohortUsers, i)
  {
    more := cohortUsers;
    if idx !in more {
      more := more[idx := {}];
    }
    more := more[idx := more[idx] + {u}];
  }

  /** The two maps hold exactly the users of the set, at their indices. */
  ghost predicate Placed(users: set<string>, index: map<string, int>, cohortUsers: map<int, set<string>>,
                         userCohort: map<string, int>)
  {
    && (forall i | 0 <= i < COHORTS :: UsersAt(cohortUsers, i) == UsersWithIndex(users, index, i))
    && userCohort == CohortMap(users, index)
  }

  /** The body of the first loop of Compute. */
  method PlaceUser(cohortUsers: map<int, set<string>>, userCohort: map<string, int>, u: string, idx: int,
                   ghost users: set<string>, ghost index: map<string, int>)
    returns (more: map<int, set<string>>, mapped: map<string, int>)
    requires Placed(users, index, cohortUsers, userCohort) && u in index && index[u] == idx
    ensures Placed(users + {u}, index, more, mapped)
  {
    NextUser(users, u, index);
    if idx < 0 || idx >= COHORTS {
      return cohortUsers, userCohort;
    }
    more := AddToCohort(cohortUsers, idx, u);
    mapped := userCohort[u := idx];
  }

  /** The first loop of Compute, over the sign-ups in any order. */
  method BucketSignups(signups: map<string, Instant>, start: Instant, dur: int)
    returns (cohortUsers: map<int, set<string>>, userCohort: map<string, int>)
    requires dur > 0
    ensures Placed(signups.Keys, Indices(signups, start, dur), cohortUsers, userCohort)
  {
    cohortUsers, userCohort := map[], map[];
    var rest := signups.Keys;
    ghost var done: set<string> := {};
    ghost var index := Indices(signups, start, dur);
    while rest != {}
      invariant rest <= signups.Keys && done == signups.Keys - rest
      invariant Placed(done, index, cohortUsers, userCohort)
      decreases |rest|
    {
      var u :| u in rest;
      cohortUsers, userCohort := PlaceUser(cohortUsers, userCohort, u, BucketIndex(signups[u], start, dur),
                                           done, index);
      rest, done := rest - {u}, done + {u};
    }
    assert done == signups.Keys;
  }

  type Cells = map<int, map<int, set<string>>>

  function CellAt(cells: Cells, c: int, o: int): set<string> {
    if c in cells && o in cells[c] then cells[c][o] else {}
  }

  method AddToCell(cells: Cells, c: int, o: int, u: string) returns (more: Cells)
    ensures CellAt(more, c, o) == CellAt(cells, c, o) + {u}
    ensures forall i, j | !(i == c && j == o) :: CellAt(more, i, j) == CellAt(cells, i, j)
  {
    more := cells;
    if c !in more {
      more := more[c := map[]];
    }
    if o !in more[c] {
      more := more[c := more[c][o := {}]];
    }
    more := more[c := more[c][o := more[c][o] + {u}]];
  }

  /** The cell in which a user's day is counted: the user's cohort and the offset from it. */
  function TargetOfDay(u: string, day: Option<int>, userCohort: map<string, int>, start: Instant, dur: int,
                       n: int): Option<(int, int)>
    requires dur > 0
  {
    if u !in userCohort || day.None? then None
    else
      var o := BucketIndex(day.value * DAY, start, dur) - userCohort[u];
      if o < 0 || o >= n then None else Some((userCohort[u], o))
  }

  function Target(text: DayText, row: (string, string), userCohort: map<string, int>, start: Instant, dur: int,
                  n: int): Option<(int, int)>
    requires dur > 0
  {
    TargetOfDay(row.0, text.parse(row.1), userCohort, start, dur, n)
  }

  ghost function Landed(text: DayText, rows: set<(string, string)>, userCohort: map<string, int>, start: Instant,
                        dur: int, n: int, c: int, o: int): set<string>
    requires dur > 0
  {
    set row | row in rows && Target(text, row, userCohort, start, dur, n) == Some((c, o)) :: row.0
  }

  lemma LandedStep(text: DayText, rows: set<(string, string)>, row: (string, string), userCohort: map<string, int>,
                   start: Instant, dur: int, n: int, c: int, o: int)
    requires dur > 0
    ensures Landed(text, rows + {row}, userCohort, start, dur, n, c, o) ==
            Landed(text, rows, userCohort, start, dur, n, c, o)
            + if Target(text, row, userCohort, start, dur, n) == Some((c, o)) then {row.0} else {}
  {
  }

  /** The body of the second loop of Compute. */
  method PlaceRow(text: DayText, cells: Cells, row: (string, string), userCohort: map<string, int>, start: Instant,
                  dur: int, n: int)
    returns (more: Cells)
    requires dur > 0
    ensures forall c, o :: CellAt(more, c, o) ==
              CellAt(cells, c, o) + if Target(text, row, userCohort, start, dur, n) == Some((c, o)) then {row.0} else {}
  {
    if row.0 !in userCohort {
      return cells;
    }
    var t := text.parse(row.1);
    if t.None? {
      return cells;
    }
    var cohort := userCohort[row.0];
    var offset := BucketIndex(t.value * DAY, start, dur) - cohort;
    if offset < 0 || offset >= n {
      return cells;
    }
    more := AddToCell(cells, cohort, offset, row.0);
  }

  /** The second loop of Compute, over the activity rows in any order. */
  method FillCells(text: DayText, rows: set<(string, string)>, userCohort: map<string, int>, start: Instant, dur: int,
                   n: int)
    returns (cells: Cells)
    requires dur > 0
    ensures forall c, o :: CellAt(cells, c, o) == Landed(text, rows, userCohort, start, dur, n, c, o)
  {
    cells := map[];
    var rest := rows;
    ghost var done: set<(string, string)> := {};
    while rest != {}
      invariant rest <= rows && done == rows - rest
      invariant forall c, o :: CellAt(cells, c, o) == Landed(text, done, userCohort, start, dur, n, c, o)
      decreases |rest|
    {
      var row :| row in rest;
      ghost var before := cells;
      cells := PlaceRow(text, cells, row, userCohort, start, dur, n);
      forall c, o
        ensures CellAt(cells, c, o) == Landed(text, done + {row}, userCohort, start, dur, n, c, o)
      {
        LandedStep(text, done, row, userCohort, start, dur, n, c, o);
        assert CellAt(before, c, o) == Landed(text, done, userCohort, start, dur, n, c, o);
      }
      rest, done := rest - {row}, done + {row};
    }
    assert done == rows;
  }

  // ---- The table ----

  function Columns(n: int): (r: nat)
    ensures 1 <= r <= 30
  {
    if n <= 0 || n > 30 then 7 else n
  }

  /** First sign-ups in the 30 buckets from `start`. */
  function SignupsFrom(events: seq<Event>, start: Instant, dur: int): map<string, Instant> {
    Signups(events, start, BucketAt(start, dur, COHORTS))
  }

  function IndicesFrom(events: seq<Event>, start: Instant, dur: int): map<string, int>
    requires dur > 0
  {
    Indices(SignupsFrom(events, start, dur), start, dur)
  }

  /** The i-th cohort: users whose first sign-up of the window is in the i-th of the 30 buckets. */
  ghost function Cohort(events: seq<Event>, start: Instant, dur: int, i: int): set<string>
    requires dur > 0
  {
    UsersWithIndex(SignupsFrom(events, start, dur).Keys, IndicesFrom(events, start, dur), i)
  }

  ghost predicate ActiveIn(events: seq<Event>, u: string, lo: Instant, hi: Instant) {
    exists k :: 0 <= k < |events| && events[k].userId == u && lo <= events[k].at < hi
  }

  /** The members of the i-th cohort with any event in the bucket `o` after theirs. */
  ghost function Active(events: seq<Event>, start: Instant, dur: int, i: int, o: int): set<string>
    requires dur > 0
  {
    set u | u in Cohort(events, start, dur, i)
            && ActiveIn(events, u, BucketAt(start, dur, i + o), BucketAt(start, dur, i + o) + dur)
  }

  ghost predicate RowIs(row: CohortRow, events: seq<Event>, start: Instant, dur: int, n: nat, i: nat)
    requires dur > 0
  {
    && row.bucketStart == BucketAt(start, dur, i)
    && row.cohortSize == |Cohort(events, start, dur, i)|
    && |row.cells| == n
    && forall o | 0 <= o < n ::
         var users := |Active(events, start, dur, i, o)|;
         row.cells[o] == RetentionCell(users, Share(users, row.cohortSize))
  }

  /** A row of the response from what the two loops collected. */
  ghost predicate RowFrom(row: CohortRow, start: Instant, dur: int, n: nat, i: nat, members: set<string>, cells: Cells)
  {
    && row.bucketStart == BucketAt(start, dur, i) && row.cohortSize == |members| && |row.cells| == n
    && forall o | 0 <= o < n ::
         row.cells[o] == RetentionCell(|CellAt(cells, i, o)|, Share(|CellAt(cells, i, o)|, |members|))
  }

  method BuildRow(start: Instant, dur: int, n: nat, i: nat, members: set<string>, cells: Cells) returns (row: CohortRow)
    ensures RowFrom(row, start, dur, n, i, members, cells)
  {
    var cohortSize := |members|;
    var out: seq<RetentionCell> := [];
    for offset := 0 to n
      invariant |out| == offset
      invariant forall o | 0 <= o < offset ::
                  out[o] == RetentionCell(|CellAt(cells, i, o)|, Share(|CellAt(cells, i, o)|, cohortSize))
    {
      var count := |CellAt(cells, i, offset)|;
      out := out + [RetentionCell(count, Share(count, cohortSize))];
    }
    row := CohortRow(BucketAt(start, dur, i), cohortSize, out);
  }

  /** Start and size are exact for every clock, the cells where the days have four-digit years. */
  ghost predicate RowAt(row: CohortRow, events: seq<Event>, start: Instant, dur: int, n: nat, i: nat)
    requires dur > 0
  {
    && row.bucketStart == BucketAt(start, dur, i) && |row.cells| == n
    && row.cohortSize == |Cohort(events, start, dur, i)|
    && (Grid(start, dur) ==> RowIs(row, events, start, dur, n, i))
  }

  /** The cells are what the second loop makes of the activity answer. */
  ghost predicate CellsFrom(text: DayText, events: seq<Event>, start: Instant, dur: int, n: nat, cells: Cells)
    requires dur > 0
  {
    var userCohort := CohortMap(SignupsFrom(events, start, dur).Keys, IndicesFrom(events, start, dur));
    var days := ActivityRows(text, events, userCohort, start, dur, n);
    forall c, o :: CellAt(cells, c, o) == Landed(text, days, userCohort, start, dur, n, c, o)
  }

  lemma RowIsExact(text: DayText, events: seq<Event>, start: Instant, dur: int, n: nat, i: nat, cells: Cells,
                   row: CohortRow)
    requires Reads(text) && dur > 0 && n <= 30 && i < COHORTS && CellsFrom(text, events, start, dur, n, cells)
    requires RowFrom(row, start, dur, n, i, Cohort(events, start, dur, i), cells)
    ensures RowAt(row, events, start, dur, n, i)
  {
    if Grid(start, dur) {
      forall o | 0 <= o < n ensures CellAt(cells, i, o) == Active(events, start, dur, i, o) {
        CellsAreExact(text, events, start, dur, n, i, o);
      }
    }
  }

  method BuildRows(text: DayText, ghost events: seq<Event>, start: Instant, dur: int, n: nat,
                   cohortUsers: map<int, set<string>>, cells: Cells) returns (rows: seq<CohortRow>)
    requires Reads(text) && dur > 0 && n <= 30 && CellsFrom(text, events, start, dur, n, cells)
    requires forall i | 0 <= i < COHORTS :: UsersAt(cohortUsers, i) == Cohort(events, start, dur, i)
    ensures |rows| == COHORTS && forall i | 0 <= i < COHORTS :: RowAt(rows[i], events, start, dur, n, i)
  {
    rows := [];
    for i := 0 to COHORTS
      invariant |rows| == i
      invariant forall j | 0 <= j < i :: RowAt(rows[j], events, start, dur, n, j)
    {
      var row := BuildRow(start, dur, n, i, UsersAt(cohortUsers, i), cells);
      RowIsExact(text, events, start, dur, n, i, cells, row);
      rows := rows + [row];
    }
  }

  /** Both loops and the rows of Compute, from the start of the oldest bucket. */
  method ComputeFrom(text: DayText, events: seq<Event>, start: Instant, dur: int, n: nat) returns (rows: seq<CohortRow>)
    requires Reads(text) && dur > 0 && n <= 30
    ensures SignupsFrom(events, start, dur) == map[] ==> rows == []
    ensures SignupsFrom(events, start, dur) != map[] ==>
              |rows| == COHORTS && forall i | 0 <= i < COHORTS :: RowAt(rows[i], events, start, dur, n, i)
  {
    var signups := SignupsFrom(events, start, dur);
    var cohortUsers, userCohort := BucketSignups(signups, start, dur);
    EveryoneIsInACohort(events, start, dur);
    if |userCohort| == 0 {
      assert signups.Keys == {} by { assert userCohort == map[]; }
      return [];
    }
    assert signups != map[] by { assert userCohort != map[]; }
    var days := ActivityRows(text, events, userCohort, start, dur, n);
    var cells := FillCells(text, days, userCohort, start, dur, n);
    rows := BuildRows(text, events, start, dur, n, cohortUsers, cells);
  }

  /**
   * Compute: exactly the cohorts, for every clock, and exactly their activity for a clock in the
   * years 1 to 9998, in whatever order the store answers.
   */
  method Compute(events: seq<Event>, unit: string, columns: int, now: Instant) returns (r: Response)
    ensures r.BadUnit? <==> unit != "day" && unit != "week"
    ensures r.Cohorts? ==> r.n == if 1 <= columns <= 30 then columns else 7
    ensures r.Cohorts? && SignupsFrom(events, StartBucket(now, unit), BucketDur(unit)) == map[] ==> r.rows == []
    ensures r.Cohorts? && SignupsFrom(events, StartBucket(now, unit), BucketDur(unit)) != map[] ==>
              |r.rows| == 30
              && forall i | 0 <= i < COHORTS ::
                   RowAt(r.rows[i], events, StartBucket(now, unit), BucketDur(unit), r.n, i)
    ensures IsUnit(unit) && ClockInRange(now) ==> Grid(StartBucket(now, unit), BucketDur(unit))
  {
    if unit != "day" && unit != "week" {
      return BadUnit;
    }
    if ClockInRange(now) {
      ClockGivesGrid(now, unit);
    }
    ReadsDays();
    var rows := ComputeFrom(DAY_TEXT, events, StartBucket(now, unit), BucketDur(unit), Columns(columns));
    r := Cohorts(Columns(columns), rows);
  }

  // ---- Why it is exact ----

  /** Buckets of whole days from a midnight, in years of four digits as far as the last column reaches. */
  ghost predicate Grid(start: Instant, dur: int) {
    && (dur == DAY || dur == WEEK) && start % DAY == 0
    && forall t: Instant | start <= t < BucketAt(start, dur, COHORTS + 29) :: FourDigitYear(DayAt(t))
  }

  predicate FourDigitYear(n: int) {
    0 <= YearOf(n) <= 9999
  }

  /** The clock is in a year whose neighbours also have four digits. */
  predicate ClockInRange(now: Instant) {
    1 <= YearOf(DayAt(now)) <= 9998
  }

  /** Days within a year of each other lie in neighbouring years. */
  lemma NearYears(m: int, n: int)
    requires m <= n <= m + 365
    ensures YearOf(m) <= YearOf(n) <= YearOf(m) + 1
  {
    if YearOf(n) < YearOf(m) { YearStartIncreases(YearOf(n) + 1, YearOf(m)); }
    if YearOf(n) > YearOf(m) + 1 { YearStartIncreases(YearOf(m) + 1, YearOf(n)); }
  }

  lemma NearDays(s: Instant, t: Instant)
    requires s <= t < s + 364 * DAY
    ensures DayAt(s) <= DayAt(t) <= DayAt(s) + 365
  {
    DayBounds(s);
    DayBounds(t);
  }

  lemma NearClock(now: Instant, t: Instant)
    requires ClockInRange(now) && now - 364 * DAY < t < now + 364 * DAY
    ensures FourDigitYear(DayAt(t))
  {
    if t <= now {
      NearDays(t, now);
      NearYears(DayAt(t), DayAt(now));
    } else {
      NearDays(now, t);
      NearYears(DayAt(now), DayAt(t));
    }
  }

  lemma MidnightsBefore(end: Instant, dur: int)
    requires end % DAY == 0 && (dur == DAY || dur == WEEK)
    ensures (end - (COHORTS - 1) * dur) % DAY == 0
  {
    var d := end / DAY - (COHORTS - 1) * if dur == WEEK then 7 else 1;
    assert end - (COHORTS - 1) * dur == d * DAY;
    DayOfMidnight(d);
  }

  /** The 30 buckets end with the one that contains the clock. */
  lemma ClockGivesGrid(now: Instant, unit: string)
    requires IsUnit(unit) && ClockInRange(now)
    ensures Grid(StartBucket(now, unit), BucketDur(unit))
    ensures var last := BucketAt(StartBucket(now, unit), BucketDur(unit), COHORTS - 1);
            last <= now < last + BucketDur(unit)
  {
    TruncateIsTheBucket(now, unit);
    var end, dur := TruncateToBucket(now, unit), BucketDur(unit);
    GridAround(now, end, dur);
  }

  /** The same of every clock. */
  lemma LastBucketIsNow(now: Instant, unit: string)
    requires IsUnit(unit)
    ensures var last := StartBucket(now, unit) + 29 * BucketDur(unit);
            last <= now < last + BucketDur(unit) && last % DAY == 0
    ensures BucketDur(unit) == if unit == "week" then 7 * DAY else DAY
  {
    TruncateIsTheBucket(now, unit);
  }

  lemma GridAround(now: Instant, end: Instant, dur: int)
    requires ClockInRange(now) && end % DAY == 0 && (dur == DAY || dur == WEEK) && end <= now < end + dur
    ensures Grid(end - (COHORTS - 1) * dur, dur)
  {
    MidnightsBefore(end, dur);
    var start := end - (COHORTS - 1) * dur;
    forall t: Instant | start <= t < BucketAt(start, dur, COHORTS + 29) ensures FourDigitYear(DayAt(t)) {
      NearClock(now, t);
    }
  }

  lemma IndexBound(x: int, dur: int)
    requires dur > 0 && 0 <= x < dur * COHORTS
    ensures 0 <= x / dur < COHORTS
  {
    assert x == dur * (x / dur) + x % dur;
    MulBounds(dur, x / dur);
    MulBounds(dur, x / dur - COHORTS);
    assert dur * (x / dur - COHORTS) == dur * (x / dur) - dur * COHORTS;
  }

  lemma SignupsInRange(events: seq<Event>, start: Instant, dur: int, u: string)
    requires dur > 0 && u in SignupsFrom(events, start, dur)
    ensures 0 <= BucketIndex(SignupsFrom(events, start, dur)[u], start, dur) < COHORTS
  {
    SignupsMeaning(events, start, BucketAt(start, dur, COHORTS), u);
    IndexBound(SignupsFrom(events, start, dur)[u] - start, dur);
  }

  lemma EveryoneIsInACohort(events: seq<Event>, start: Instant, dur: int)
    requires dur > 0
    ensures var signups := SignupsFrom(events, start, dur);
            CohortMap(signups.Keys, IndicesFrom(events, start, dur)).Keys == signups.Keys
  {
    var signups := SignupsFrom(events, start, dur);
    forall u | u in signups
      ensures 0 <= BucketIndex(signups[u], start, dur) < COHORTS
    {
      SignupsInRange(events, start, dur, u);
    }
  }

  /** A day of activity is counted in the bucket of the event itself. */
  lemma TargetOfEvent(text: DayText, start: Instant, dur: int, n: nat, userCohort: map<string, int>, u: string,
                      t: Instant, c: int, o: int)
    requires Reads(text) && Grid(start, dur) && n <= 30 && u in userCohort && userCohort[u] == c && c >= 0 && 0 <= o < n
    requires start <= t < BucketAt(start, dur, COHORTS - 1 + n)
    ensures Target(text, (u, text.name(DayAt(t))), userCohort, start, dur, n) == Some((c, o)) <==>
            BucketAt(start, dur, c + o) <= t < BucketAt(start, dur, c + o) + dur
  {
    EventDay(text, start, dur, n, t);
    RowTarget(text, start, dur, n, userCohort, (u, text.name(DayAt(t))), t, o);
  }

  lemma RowTarget(text: DayText, start: Instant, dur: int, n: nat, userCohort: map<string, int>, row: (string, string),
                  t: Instant, o: int)
    requires dur > 0 && row.0 in userCohort && userCohort[row.0] >= 0 && 0 <= o < n
    requires text.parse(row.1) == Some(DayAt(t))
    requires BucketIndex(DayAt(t) * DAY, start, dur) == BucketIndex(t, start, dur)
    ensures var c := userCohort[row.0];
            Target(text, row, userCohort, start, dur, n) == Some((c, o)) <==>
            BucketAt(start, dur, c + o) <= t < BucketAt(start, dur, c + o) + dur
  {
    IndexIsTheBucket(t, start, dur, userCohort[row.0] + o);
    SmallTarget(row.0, DayAt(t), userCohort, start, dur, n, BucketIndex(t, start, dur), o);
  }

  lemma SmallTarget(u: string, day: int, userCohort: map<string, int>, start: Instant, dur: int, n: int, idx: int,
                    o: int)
    requires dur > 0 && u in userCohort && 0 <= o < n && BucketIndex(day * DAY, start, dur) == idx
    ensures TargetOfDay(u, Some(day), userCohort, start, dur, n) == Some((userCohort[u], o)) <==>
            idx == userCohort[u] + o
  {
  }

  lemma EventDay(text: DayText, start: Instant, dur: int, n: nat, t: Instant)
    requires Reads(text) && Grid(start, dur) && n <= 30
    requires start <= t < BucketAt(start, dur, COHORTS - 1 + n)
    ensures text.parse(text.name(DayAt(t))) == Some(DayAt(t))
    ensures BucketIndex(DayAt(t) * DAY, start, dur) == BucketIndex(t, start, dur)
  {
    assert t < BucketAt(start, dur, COHORTS + 29);
    assert FourDigitYear(DayAt(t));
    SameIndexAsTheDay(t, start, if dur == WEEK then "week" else "day");
  }

  /** A bucket up to the last column lies in the window of the activity query. */
  lemma BucketInWindow(start: Instant, dur: int, n: nat, i: nat, o: nat, t: Instant)
    requires dur > 0 && i < COHORTS && o < n
    requires BucketAt(start, dur, i + o) <= t < BucketAt(start, dur, i + o) + dur
    ensures start <= t < BucketAt(start, dur, COHORTS - 1 + n)
  {
    NotNegative(dur, i + o);
    var k := COHORTS - 1 + n - (i + o + 1);
    NotNegative(dur, k);
    assert dur * k == dur * (COHORTS - 1 + n) - dur * (i + o) - dur;
  }

  lemma LandedAreActive(text: DayText, events: seq<Event>, start: Instant, dur: int, n: nat,
                        userCohort: map<string, int>, i: nat, o: nat, u: string)
    requires Reads(text) && Grid(start, dur) && n <= 30 && o < n
    requires u in Landed(text, ActivityRows(text, events, userCohort, start, dur, n), userCohort, start, dur, n, i, o)
    ensures u in userCohort && userCohort[u] == i
    ensures ActiveIn(events, u, BucketAt(start, dur, i + o), BucketAt(start, dur, i + o) + dur)
  {
    var hi := BucketAt(start, dur, COHORTS - 1 + n);
    var days := ActivityRows(text, events, userCohort, start, dur, n);
    var row :| row in days && Target(text, row, userCohort, start, dur, n) == Some((i, o)) && row.0 == u;
    var k :| 0 <= k < |events| && events[k].userId in userCohort.Keys && start <= events[k].at < hi
             && row == (events[k].userId, text.name(DayAt(events[k].at)));
    TargetOfEvent(text, start, dur, n, userCohort, u, events[k].at, i, o);
  }

  lemma ActiveLand(text: DayText, events: seq<Event>, start: Instant, dur: int, n: nat, userCohort: map<string, int>,
                   i: nat, o: nat, u: string)
    requires Reads(text) && Grid(start, dur) && n <= 30 && i < COHORTS && o < n && u in userCohort && userCohort[u] == i
    requires ActiveIn(events, u, BucketAt(start, dur, i + o), BucketAt(start, dur, i + o) + dur)
    ensures u in Landed(text, ActivityRows(text, events, userCohort, start, dur, n), userCohort, start, dur, n, i, o)
  {
    var lo := BucketAt(start, dur, i + o);
    var k :| 0 <= k < |events| && events[k].userId == u && lo <= events[k].at < lo + dur;
    var row := (u, text.name(DayAt(events[k].at)));
    BucketInWindow(start, dur, n, i, o, events[k].at);
    TargetOfEvent(text, start, dur, n, userCohort, u, events[k].at, i, o);
    assert row in ActivityRows(text, events, userCohort, start, dur, n);
    assert row.0 == u;
  }

  /**
   * Neither the day strings nor the windows of the queries lose or move anyone: each cell is exactly
   * the active members.
   */
  lemma CellsAreExact(text: DayText, events: seq<Event>, start: Instant, dur: int, n: nat, i: nat, o: nat)
    requires Reads(text) && Grid(start, dur) && n <= 30 && i < COHORTS && o < n
    ensures var signups := SignupsFrom(events, start, dur);
            var userCohort := CohortMap(signups.Keys, IndicesFrom(events, start, dur));
            Landed(text, ActivityRows(text, events, userCohort, start, dur, n),
                userCohort, start, dur, n, i, o)
            == Active(events, start, dur, i, o)
  {
    var signups := SignupsFrom(events, start, dur);
    var userCohort := CohortMap(signups.Keys, IndicesFrom(events, start, dur));
    var days := ActivityRows(text, events, userCohort, start, dur, n);
    forall u | u in Landed(text, days, userCohort, start, dur, n, i, o) ensures u in Active(events, start, dur, i, o) {
      LandedAreActive(text, events, start, dur, n, userCohort, i, o, u);
    }
    forall u | u in Active(events, start, dur, i, o) ensures u in Landed(text, days, userCohort, start, dur, n, i, o) {
      ActiveLand(text, events, start, dur, n, userCohort, i, o, u);
    }
  }

  // ---- What the table shows ----

  /** Every user with a sign-up in the window is in exactly one of the 30 cohorts, and nobody else is in any. */
  lemma ExactlyOneCohort(events: seq<Event>, start: Instant, dur: int, u: string)
    requires dur > 0
    ensures (exists k :: 0 <= k < |events| && events[k].userId == u
              && IsSignup(events[k], start, BucketAt(start, dur, COHORTS)))
            <==> exists i :: 0 <= i < COHORTS && u in Cohort(events, start, dur, i)
    ensures forall i, j :: u in Cohort(events, start, dur, i) && u in Cohort(events, start, dur, j) ==> i == j
  {
    var signups := SignupsFrom(events, start, dur);
    SignupsMeaning(events, start, BucketAt(start, dur, COHORTS), u);
    if u in signups {
      SignupsInRange(events, start, dur, u);
      assert u in Cohort(events, start, dur, BucketIndex(signups[u], start, dur));
    }
  }

  /** Who is in a cohort: those whose first sign-up among the 30 buckets lies in its bucket. */
  lemma CohortMeans(events: seq<Event>, start: Instant, dur: int, i: nat, u: string)
    requires dur > 0 && i < 30
    ensures u in Cohort(events, start, dur, i) <==>
            exists k :: 0 <= k < |events| && FirstSignup(events, start, start + dur * 30, u, k)
                        && start + dur * i <= events[k].at < start + dur * i + dur
  {
    var signups := SignupsFrom(events, start, dur);
    SignupsMeaning(events, start, BucketAt(start, dur, COHORTS), u);
    if u in signups {
      IndexIsTheBucket(signups[u], start, dur, i);
      var k :| 0 <= k < |events| && events[k].userId == u && IsSignup(events[k], start, start + dur * 30)
               && events[k].at == signups[u];
      assert FirstSignup(events, start, start + dur * 30, u, k);
    }
  }

  /** The k-th event is a sign-up of the user in the window, and no other one is earlier. */
  ghost predicate FirstSignup(events: seq<Event>, lo: Instant, hi: Instant, u: string, k: nat)
    requires k < |events|
  {
    && events[k].userId == u && events[k].name == "signed_up" && lo <= events[k].at < hi
    && forall j | 0 <= j < |events| && events[j].userId == u && events[j].name == "signed_up"
                  && lo <= events[j].at < hi :: events[k].at <= events[j].at
  }

  /** The rate of a cell is its users over the size of the cohort. */
  lemma RatesOfARow(row: CohortRow, events: seq<Event>, start: Instant, dur: int, n: nat, i: nat, o: nat)
    requires dur > 0 && o < n && RowIs(row, events, start, dur, n, i)
    ensures row.cells[o].users == |Active(events, start, dur, i, o)|
    ensures if row.cohortSize > 0 then row.cells[o].retention == (row.cells[o].users as real) / (row.cohortSize as real)
            else row.cells[o].retention == 0.0
  {
  }

  lemma MemberWasActive(events: seq<Event>, start: Instant, dur: int, i: nat, u: string)
    requires dur > 0 && u in Cohort(events, start, dur, i)
    ensures ActiveIn(events, u, BucketAt(start, dur, i), BucketAt(start, dur, i) + dur)
  {
    SignupsMeaning(events, start, BucketAt(start, dur, COHORTS), u);
    IndexIsTheBucket(SignupsFrom(events, start, dur)[u], start, dur, i);
  }

  /**
   * In the bucket of its own sign-ups all of a cohort was active. Later cells are parts of the cohort,
   * so every rate is in [0, 1].
   */
  lemma CellsWithinCohort(events: seq<Event>, start: Instant, dur: int, i: nat, o: nat)
    requires dur > 0
    ensures Active(events, start, dur, i, 0) == Cohort(events, start, dur, i)
    ensures Active(events, start, dur, i, o) <= Cohort(events, start, dur, i)
    ensures |Active(events, start, dur, i, o)| <= |Cohort(events, start, dur, i)|
    ensures 0.0 <= Share(|Active(events, start, dur, i, o)|, |Cohort(events, start, dur, i)|) <= 1.0
  {
    forall u | u in Cohort(events, start, dur, i) ensures u in Active(events, start, dur, i, 0) {
      MemberWasActive(events, start, dur, i, u);
    }
    SubsetSize(Active(events, start, dur, i, o), Cohort(events, start, dur, i));
    ShareIsFraction(|Active(events, start, dur, i, o)|, |Cohort(events, start, dur, i)|);
  }

  ghost function SizesUpTo(events: seq<Event>, start: Instant, dur: int, i: nat): nat
    requires dur > 0
  {
    if i == 0 then 0 else SizesUpTo(events, start, dur, i - 1) + |Cohort(events, start, dur, i - 1)|
  }

  /** Users whose first sign-up is in one of the first i buckets. */
  ghost function MembersUpTo(events: seq<Event>, start: Instant, dur: int, i: nat): set<string>
    requires dur > 0
  {
    set u | u in SignupsFrom(events, start, dur) && 0 <= BucketIndex(SignupsFrom(events, start, dur)[u], start, dur) < i
  }

  lemma {:induction false} DisjointSizes(events: seq<Event>, start: Instant, dur: int, i: nat)
    requires dur > 0
    ensures |MembersUpTo(events, start, dur, i)| == SizesUpTo(events, start, dur, i)
    decreases i
  {
    if i > 0 {
      DisjointSizes(events, start, dur, i - 1);
      var before, these := MembersUpTo(events, start, dur, i - 1), Cohort(events, start, dur, i - 1);
      assert MembersUpTo(events, start, dur, i) == before + these && before !! these;
    }
  }

  /** The cohort sizes add up to the number of users who signed up in the window. */
  lemma SizesAddUp(events: seq<Event>, start: Instant, dur: int)
    requires dur > 0
    ensures SizesUpTo(events, start, dur, COHORTS) == |SignupsFrom(events, start, dur).Keys|
  {
    DisjointSizes(events, start, dur, COHORTS);
    forall u | u in SignupsFrom(events, start, dur)
      ensures 0 <= BucketIndex(SignupsFrom(events, start, dur)[u], start, dur) < COHORTS
    {
      SignupsInRange(events, start, dur, u);
    }
    assert MembersUpTo(events, start, dur, COHORTS) == SignupsFrom(events, start, dur).Keys;
  }
}
