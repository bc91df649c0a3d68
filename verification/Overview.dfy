/**
 * The 30-day series of the overview: spend, calls and active users by day, and spend by feature
 * and day with the tail of the ranking folded into one series. As in the sums over the ledger,
 * `name` is the naming of the days; the program's is DayString, which is injective.
 */
module Overview {
  import opened Options
  import opened Crons
  import D = DayStrings
  import opened LedgerSums

  const DAYS: nat := 30

  datatype Metric = Metric(date: string, value: real)

  /** The first of the 30 days that end today. */
  function FirstDay(now: Instant): int {
    DayAt(now) - (DAYS - 1)
  }

  function StartOfWindow(now: Instant): Instant {
    DateAt(now, 0, 0) - (DAYS - 1) * 24 * HOUR
  }

  /** Thirty days, the last of which is the day of the clock. */
  lemma TheLastDayIsToday(now: Instant)
    ensures DAYS == 30 && FirstDay(now) + 29 == DayAt(now)
    ensures StartOfWindow(now) == (DayAt(now) - 29) * DAY
  {
    WindowIsMidnight(now);
  }

  lemma WindowIsMidnight(now: Instant)
    ensures StartOfWindow(now) == FirstDay(now) * DAY
  {
    DateAtIs(now, 0, 0);
    DaysBack(DayAt(now), DateAt(now, 0, 0));
  }

  lemma DaysBack(n: int, midnight: Instant)
    requires midnight == n * DAY
    ensures midnight - (DAYS - 1) * 24 * HOUR == (n - (DAYS - 1)) * DAY
  {
  }

  lemma DayAtOffset(first: int, i: nat)
    ensures DayAt(first * DAY + i * 24 * HOUR) == first + i
  {
    assert first * DAY + i * 24 * HOUR == (first + i) * DAY;
    DayOfMidnight(first + i);
  }

  lemma DayStringsAreInjective()
    ensures Injective(D.DayString)
  {
    forall a, b | D.DayString(a) == D.DayString(b) ensures a == b {
      D.DayStringInjective(a, b);
    }
  }

  /** The names of the 30 days. */
  ghost predicate AreKeys(name: DayName, keys: seq<string>, first: int) {
    |keys| == DAYS && forall i | 0 <= i < DAYS :: keys[i] == name(first + i)
  }

  /** The keys, as the program formats start plus i times 24 hours. */
  method DayKeys(name: DayName, start: Instant, ghost first: int) returns (keys: seq<string>)
    requires start == first * DAY
    ensures AreKeys(name, keys, first)
  {
    keys := [];
    for i := 0 to DAYS
      invariant |keys| == i && forall j | 0 <= j < i :: keys[j] == name(first + j)
    {
      DayAtOffset(first, i);
      keys := keys + [name(DayAt(start + i * 24 * HOUR))];
    }
  }

  // ---- DailySeries ----

  /** The calls since `lo` on the day with this string, and the calls on a calendar day. */
  ghost function CallsUnder(name: DayName, calls: seq<Call>, lo: Instant, id: string): set<int> {
    set k | 0 <= k < |calls| && calls[k].at >= lo && DayOfCall(calls[k], name) == id
  }

  ghost function CallsOn(calls: seq<Call>, n: int): set<int> {
    set k | 0 <= k < |calls| && DayAt(calls[k].at) == n
  }

  ghost function UsersOf(calls: seq<Call>, some: set<int>): set<string> {
    set k | k in some && 0 <= k < |calls| :: calls[k].userId
  }

  /** The calls and the users of a day, said of the calls themselves. */
  lemma DayMeans(calls: seq<Call>, n: int, k: int, u: string)
    ensures k in CallsOn(calls, n) <==> 0 <= k < |calls| && n * DAY <= calls[k].at < n * DAY + DAY
    ensures u in UsersOf(calls, CallsOn(calls, n)) <==>
            exists j :: 0 <= j < |calls| && n * DAY <= calls[j].at < n * DAY + DAY && calls[j].userId == u
  {
    forall j | 0 <= j < |calls|
      ensures DayAt(calls[j].at) == n <==> n * DAY <= calls[j].at < n * DAY + DAY
    {
      DayBounds(calls[j].at);
    }
  }

  datatype DayRow = DayRow(id: string, spend: real, count: nat, users: set<string>)

  /** The answer of the grouping by day: a row for exactly the days with calls. */
  ghost predicate IsDayGrouping(name: DayName, rows: seq<DayRow>, calls: seq<Call>, lo: Instant) {
    && (forall i, j | 0 <= i < j < |rows| :: rows[i].id != rows[j].id)
    && (forall i | 0 <= i < |rows| ::
          && rows[i].spend == Spend(name, calls, lo, None, Some(rows[i].id))
          && rows[i].count == |CallsUnder(name, calls, lo, rows[i].id)| > 0
          && rows[i].users == UsersOf(calls, CallsUnder(name, calls, lo, rows[i].id)))
    && (forall k | 0 <= k < |calls| && calls[k].at >= lo :: HasDay(rows, DayOfCall(calls[k], name)))
  }

  ghost predicate HasDay(rows: seq<DayRow>, id: string) {
    exists i :: 0 <= i < |rows| && rows[i].id == id
  }

  lemma UnderIsOn(name: DayName, calls: seq<Call>, lo: Instant, n: int)
    requires Injective(name) && lo <= n * DAY
    ensures CallsUnder(name, calls, lo, name(n)) == CallsOn(calls, n)
  {
    forall k | 0 <= k < |calls|
      ensures k in CallsUnder(name, calls, lo, name(n)) <==> k in CallsOn(calls, n)
    {
      DayBounds(calls[k].at);
      assert name(DayAt(calls[k].at)) == name(n) <==> DayAt(calls[k].at) == n;
    }
  }

  lemma {:induction false} QuietDay(name: DayName, calls: seq<Call>, lo: Instant, id: string)
    requires forall k | 0 <= k < |calls| && calls[k].at >= lo :: DayOfCall(calls[k], name) != id
    ensures Spend(name, calls, lo, None, Some(id)) == 0.0
    decreases |calls|
  {
    if calls != [] {
      var n := |calls| - 1;
      assert forall k | 0 <= k < n :: calls[..n][k] == calls[k];
      QuietDay(name, calls[..n], lo, id);
      assert calls[n].at >= lo ==> DayOfCall(calls[n], name) != id;
    }
  }

  method IndexByDate(rows: seq<DayRow>) returns (byDate: map<string, DayRow>)
    requires forall i, j | 0 <= i < j < |rows| :: rows[i].id != rows[j].id
    ensures forall id :: id in byDate <==> HasDay(rows, id)
    ensures forall i | 0 <= i < |rows| :: rows[i].id in byDate && byDate[rows[i].id] == rows[i]
  {
    byDate := map[];
    for k := 0 to |rows|
      invariant forall id :: id in byDate <==> exists i :: 0 <= i < k && rows[i].id == id
      invariant forall i | 0 <= i < k :: rows[i].id in byDate && byDate[rows[i].id] == rows[i]
    {
      byDate := byDate[rows[k].id := rows[k]];
    }
  }

  /** What a day shows: its row, or zeros. */
  function Bucket(byDate: map<string, DayRow>, id: string): DayRow {
    if id in byDate then byDate[id] else DayRow("", 0.0, 0, {})
  }

  lemma BucketIs(name: DayName, rows: seq<DayRow>, byDate: map<string, DayRow>, calls: seq<Call>, lo: Instant,
                 id: string)
    requires IsDayGrouping(name, rows, calls, lo)
    requires forall d :: d in byDate <==> HasDay(rows, d)
    requires forall i | 0 <= i < |rows| :: rows[i].id in byDate && byDate[rows[i].id] == rows[i]
    ensures var b := Bucket(byDate, id);
            && b.spend == Spend(name, calls, lo, None, Some(id))
            && b.count == |CallsUnder(name, calls, lo, id)|
            && b.users == UsersOf(calls, CallsUnder(name, calls, lo, id))
  {
    if HasDay(rows, id) {
      var j :| 0 <= j < |rows| && rows[j].id == id;
    } else {
      forall k | 0 <= k < |calls| && calls[k].at >= lo ensures DayOfCall(calls[k], name) != id {
        assert HasDay(rows, DayOfCall(calls[k], name));
      }
      QuietDay(name, calls, lo, id);
      assert CallsUnder(name, calls, lo, id) == {};
      assert UsersOf(calls, {}) == {};
    }
  }

  /** The three figures of a day. */
  ghost predicate DayIs(calls: seq<Call>, n: int, key: string, spend: Metric, count: Metric, dau: Metric) {
    && spend == Metric(key, DaySpend(calls, None, n))
    && count == Metric(key, |CallsOn(calls, n)| as real)
    && dau == Metric(key, |UsersOf(calls, CallsOn(calls, n))| as real)
  }

  method SeriesUnder(name: DayName, now: Instant, rows: seq<DayRow>, ghost calls: seq<Call>)
    returns (spend: seq<Metric>, count: seq<Metric>, dau: seq<Metric>)
    requires Injective(name) && IsDayGrouping(name, rows, calls, StartOfWindow(now))
    ensures |spend| == |count| == |dau| == DAYS
    ensures forall i | 0 <= i < DAYS ::
              DayIs(calls, FirstDay(now) + i, name(FirstDay(now) + i), spend[i], count[i], dau[i])
  {
    ghost var first, lo := FirstDay(now), StartOfWindow(now);
    WindowIsMidnight(now);
    var keys := DayKeys(name, StartOfWindow(now), first);
    var byDate := IndexByDate(rows);
    spend, count, dau := [], [], [];
    for i := 0 to DAYS
      invariant |spend| == |count| == |dau| == i
      invariant forall j | 0 <= j < i :: DayIs(calls, first + j, name(first + j), spend[j], count[j], dau[j])
    {
      var b := Bucket(byDate, keys[i]);
      BucketIs(name, rows, byDate, calls, lo, keys[i]);
      OnTheDay(name, calls, first, i);
      spend := spend + [Metric(keys[i], b.spend)];
      count := count + [Metric(keys[i], b.count as real)];
      dau := dau + [Metric(keys[i], |b.users| as real)];
    }
  }

  /** DailySeries: 30 days in order, each with its exact spend, calls and distinct users, quiet ones with zeros. */
  method DailySeries(now: Instant, rows: seq<DayRow>, ghost calls: seq<Call>)
    returns (spend: seq<Metric>, count: seq<Metric>, dau: seq<Metric>)
    requires IsDayGrouping(D.DayString, rows, calls, StartOfWindow(now))
    ensures |spend| == |count| == |dau| == DAYS
    ensures forall i | 0 <= i < DAYS ::
              DayIs(calls, FirstDay(now) + i, D.DayString(FirstDay(now) + i), spend[i], count[i], dau[i])
  {
    DayStringsAreInjective();
    spend, count, dau := SeriesUnder(D.DayString, now, rows, calls);
  }

  /** From the start of the first day on, a day's name selects the calls of that day. */
  lemma OnTheDay(name: DayName, calls: seq<Call>, first: int, i: nat)
    requires Injective(name)
    ensures Spend(name, calls, first * DAY, None, Some(name(first + i))) == DaySpend(calls, None, first + i)
    ensures CallsUnder(name, calls, first * DAY, name(first + i)) == CallsOn(calls, first + i)
  {
    SpendOfDay(name, calls, first * DAY, None, first + i);
    UnderIsOn(name, calls, first * DAY, first + i);
  }
}
