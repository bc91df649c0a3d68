/**
 * Funnel statistics over an event log. The program carries a map of anchors (user -> time of the
 * event that passed the previous step), asks the store for the next step's events within bounds
 * computed from all anchors, and keeps each user's first event in the window after the anchor.
 * The specification has no bounds: it looks for each user's earliest event in the whole log.
 * Times are whole milliseconds, as stored.
 */
module Funnels {
  import opened Options
  import opened Counting

  type Millis = int

  /** A scalar property value; Mongo's equality with null also matches a missing property. */
  datatype Prop = NullProp | PropValue(v: string)

  datatype Event = Event(userId: string, name: string, props: map<string, Prop>, at: Millis)

  datatype Step = Step(eventName: string, filters: map<string, Prop>)

  datatype Funnel = Funnel(steps: seq<Step>, windowDays: nat, analysisDays: nat)

  datatype StepStat = StepStat(stepIndex: nat, eventName: string, userCount: nat, dropOffRate: real, cumulative: real)

  type Anchors = map<string, Millis>

  const DAY_MS: int := 24 * 60 * 60 * 1000

  predicate FilterMatches(filters: map<string, Prop>, props: map<string, Prop>) {
    forall k | k in filters ::
      if filters[k] == NullProp then k !in props || props[k] == NullProp
      else k in props && props[k] == filters[k]
  }

  predicate Matches(step: Step, e: Event) {
    e.name == step.eventName && FilterMatches(step.filters, e.props)
  }

  /**
   * Mongo's match: the event's name, and for each filter the very value, where a null filter also
   * takes an event without the property.
   */
  lemma MatchesMeans(step: Step, e: Event)
    ensures Matches(step, e) <==>
            && step.eventName == e.name
            && (forall k, v | k in step.filters && step.filters[k] == PropValue(v) ::
                  k in e.props && e.props[k] == PropValue(v))
            && (forall k | k in step.filters && step.filters[k] == NullProp && k in e.props :: e.props[k] == NullProp)
  {
  }

  /** A step event of the user after `lo` and, if there is an upper bound, not after it. */
  predicate Hits(e: Event, user: string, step: Step, lo: Millis, hi: Option<Millis>) {
    e.userId == user && Matches(step, e) && lo < e.at && (hi.Some? ==> e.at <= hi.value)
  }

  // ---- Specification ----

  /** The time of the user's earliest hit in the whole log. */
  function Earliest(log: seq<Event>, user: string, step: Step, lo: Millis, hi: Option<Millis>): Option<Millis> {
    if log == [] then None
    else
      var n := |log| - 1;
      var before := Earliest(log[..n], user, step, lo, hi);
      if Hits(log[n], user, step, lo, hi) && (before.None? || log[n].at < before.value) then Some(log[n].at)
      else before
  }

  /** It is the time of a hit, no hit is earlier, and it is missing only when there is no hit. */
  lemma {:induction false} EarliestIsLeast(log: seq<Event>, user: string, step: Step, lo: Millis, hi: Option<Millis>)
    ensures Earliest(log, user, step, lo, hi).Some? <==> exists j :: 0 <= j < |log| && Hits(log[j], user, step, lo, hi)
    ensures Earliest(log, user, step, lo, hi).Some? ==>
              exists j :: 0 <= j < |log| && Hits(log[j], user, step, lo, hi)
                          && log[j].at == Earliest(log, user, step, lo, hi).value
    ensures Earliest(log, user, step, lo, hi).Some? ==>
              forall j | 0 <= j < |log| && Hits(log[j], user, step, lo, hi) ::
                Earliest(log, user, step, lo, hi).value <= log[j].at
    decreases |log|
  {
    if log != [] {
      var n := |log| - 1;
      EarliestIsLeast(log[..n], user, step, lo, hi);
      assert forall j | 0 <= j < n :: log[..n][j] == log[j];
      if Hits(log[n], user, step, lo, hi) {
        assert Earliest(log, user, step, lo, hi).Some?;
      }
    }
  }

  /** Step 0: everyone with a first-step event since the start of the analysis. */
  function FirstAnchors(log: seq<Event>, step: Step, start: Millis): Anchors {
    map u | u in Users(log) && Earliest(log, u, step, start - 1, None).Some? ::
      Earliest(log, u, step, start - 1, None).value
  }

  function Users(log: seq<Event>): set<string> {
    set j | 0 <= j < |log| :: log[j].userId
  }

  /** A later step: who among the carried users has an event in (anchor, anchor + window]. */
  function NextAnchors(log: seq<Event>, step: Step, anchors: Anchors, window: Millis): Anchors {
    map u | u in anchors && Earliest(log, u, step, anchors[u], Some(anchors[u] + window)).Some? ::
      Earliest(log, u, step, anchors[u], Some(anchors[u] + window)).value
  }

  /** The anchors after step `i`. */
  function AnchorsAt(log: seq<Event>, f: Funnel, start: Millis, i: nat): Anchors
    requires i < |f.steps|
  {
    if i == 0 then FirstAnchors(log, f.steps[0], start)
    else NextAnchors(log, f.steps[i], AnchorsAt(log, f, start, i - 1), f.windowDays * DAY_MS)
  }

  /** A row from its own count, the previous step's and the first step's. */
  function StatFrom(i: nat, name: string, count: nat, prev: nat, first: nat): StepStat {
    StepStat(i, name, count,
             if prev > 0 then 1.0 - Share(count, prev) else 0.0,
             Share(count, first))
  }

  /** The row of step `i`, from the sizes of the anchor maps. */
  function StatAt(log: seq<Event>, f: Funnel, start: Millis, i: nat): StepStat
    requires i < |f.steps|
  {
    var count := |AnchorsAt(log, f, start, i)|;
    if i == 0 then StepStat(0, f.steps[0].eventName, count, 0.0, 1.0)
    else StatFrom(i, f.steps[i].eventName, count, |AnchorsAt(log, f, start, i - 1)|, |AnchorsAt(log, f, start, 0)|)
  }

  // ---- The store ----

  datatype Row = Row(userId: string, at: Millis)

  /** What the store's Find promises: the matching rows, each user's in ascending time. */
  ghost predicate IsFindResult(log: seq<Event>, ids: set<string>, step: Step, lo: Millis, hi: Millis, rows: seq<Row>) {
    && (forall i | 0 <= i < |rows| :: Listed(log, ids, step, lo, hi, rows[i]))
    && (forall j | 0 <= j < |log| && log[j].userId in ids && Matches(step, log[j]) && lo < log[j].at <= hi ::
          Row(log[j].userId, log[j].at) in rows)
    && (forall i, j | 0 <= i < j < |rows| && rows[i].userId == rows[j].userId :: rows[i].at <= rows[j].at)
  }

  ghost predicate Listed(log: seq<Event>, ids: set<string>, step: Step, lo: Millis, hi: Millis, row: Row) {
    exists j :: 0 <= j < |log| && log[j].userId in ids && Matches(step, log[j]) && lo < log[j].at <= hi
                && row == Row(log[j].userId, log[j].at)
  }

  ghost predicate InTimeOrder(rows: seq<Row>) {
    forall i, j | 0 <= i < j < |rows| :: rows[i].at <= rows[j].at
  }

  /** The rows with one more, behind every row that is not later. */
  function InsertRow(rows: seq<Row>, row: Row): (r: seq<Row>)
    ensures forall x :: x in r <==> x in rows || x == row
    ensures InTimeOrder(rows) ==> InTimeOrder(r)
    ensures |r| == |rows| + 1
  {
    if rows == [] || rows[|rows| - 1].at <= row.at then rows + [row]
    else
      var n := |rows| - 1;
      assert rows == rows[..n] + [rows[n]];
      var init := InsertRow(rows[..n], row);
      assert InTimeOrder(rows) ==> forall x | x in rows[..n] :: x.at <= rows[n].at;
      assert InTimeOrder(rows) ==> forall x | x in init :: x.at <= rows[n].at;
      init + [rows[n]]
  }

  /** The query, answered from a log. */
  method Find(log: seq<Event>, ids: set<string>, step: Step, lo: Millis, hi: Millis) returns (rows: seq<Row>)
    ensures IsFindResult(log, ids, step, lo, hi, rows)
  {
    rows := [];
    for n := 0 to |log|
      invariant forall r | r in rows :: Listed(log, ids, step, lo, hi, r)
      invariant forall j | 0 <= j < n && log[j].userId in ids && Matches(step, log[j]) && lo < log[j].at <= hi ::
                  Row(log[j].userId, log[j].at) in rows
      invariant InTimeOrder(rows)
    {
      var e := log[n];
      if e.userId in ids && Matches(step, e) && lo < e.at <= hi {
        rows := InsertRow(rows, Row(e.userId, e.at));
      }
    }
  }

  // ---- The program ----

  /** anchorBounds: the users, and the least and greatest anchor, over the map in any order. */
  method AnchorBounds(anchors: Anchors) returns (ids: set<string>, minA: Millis, maxA: Millis)
    ensures ids == anchors.Keys
    ensures forall u | u in anchors :: minA <= anchors[u] <= maxA
    ensures anchors != map[] ==> (exists u :: u in anchors && anchors[u] == minA)
    ensures anchors != map[] ==> (exists u :: u in anchors && anchors[u] == maxA)
  {
    ids, minA, maxA := {}, 0, 0;
    var first := true;
    var remaining := anchors.Keys;
    while remaining != {}
      invariant remaining <= anchors.Keys && ids == anchors.Keys - remaining
      invariant first <==> ids == {}
      invariant forall u | u in ids :: minA <= anchors[u] <= maxA
      invariant ids != {} ==> exists u :: u in ids && anchors[u] == minA
      invariant ids != {} ==> exists u :: u in ids && anchors[u] == maxA
      decreases remaining
    {
      var u :| u in remaining;
      ghost var before := ids;
      ids := ids + {u};
      assert u in ids;
      if first || anchors[u] < minA {
        minA := anchors[u];
      }
      if first || anchors[u] > maxA {
        maxA := anchors[u];
      }
      first := false;
      remaining := remaining - {u};
      assert forall w | w in before :: w in ids;
    }
  }

  /** May this row become the user's next anchor? */
  predicate Qualifies(row: Row, anchors: Anchors, window: Millis) {
    row.userId in anchors && anchors[row.userId] < row.at && row.at - anchors[row.userId] <= window
  }

  /** The rows of one step: the first qualifying row of each user wins. */
  method FoldRows(rows: seq<Row>, anchors: Anchors, window: Millis) returns (next: Anchors)
    ensures forall u :: u in next <==> exists j ::
              0 <= j < |rows| && rows[j].userId == u && Qualifies(rows[j], anchors, window)
    ensures forall u | u in next :: FirstQualifying(rows, anchors, window, u, next[u])
  {
    next := map[];
    for n := 0 to |rows|
      invariant forall u :: u in next <==>
                  exists j :: 0 <= j < n && rows[j].userId == u && Qualifies(rows[j], anchors, window)
      invariant forall u | u in next :: FirstQualifying(rows, anchors, window, u, next[u])
    {
      var row := rows[n];
      if row.userId !in anchors {
        continue;
      }
      var anchor := anchors[row.userId];
      if row.at < anchor || row.at == anchor {
        continue;
      }
      if row.at - anchor > window {
        continue;
      }
      if row.userId !in next {
        assert Qualifies(rows[n], anchors, window);
        assert FirstQualifying(rows, anchors, window, row.userId, row.at);
        next := next[row.userId := row.at];
      }
    }
  }

  ghost predicate FirstQualifying(rows: seq<Row>, anchors: Anchors, window: Millis, u: string, at: Millis) {
    exists j :: 0 <= j < |rows| && rows[j] == Row(u, at) && Qualifies(rows[j], anchors, window)
                && forall i | 0 <= i < j && rows[i].userId == u :: !Qualifies(rows[i], anchors, window)
  }

  /**
   * The global bounds lose nothing: folding the bounded rows gives exactly the unbounded
   * specification.
   */
  lemma BoundedRowsSuffice(log: seq<Event>, step: Step, anchors: Anchors, window: Millis,
                           minA: Millis, maxA: Millis, rows: seq<Row>, next: Anchors)
    requires forall u | u in anchors :: minA <= anchors[u] <= maxA
    requires IsFindResult(log, anchors.Keys, step, minA, maxA + window, rows)
    requires forall u :: u in next <==>
               exists j :: 0 <= j < |rows| && rows[j].userId == u && Qualifies(rows[j], anchors, window)
    requires forall u | u in next :: FirstQualifying(rows, anchors, window, u, next[u])
    ensures next == NextAnchors(log, step, anchors, window)
  {
    forall u
      ensures u in next <==> u in NextAnchors(log, step, anchors, window)
      ensures u in next ==> next[u] == NextAnchors(log, step, anchors, window)[u]
    {
      if u in next {
        FirstRowIsEarliest(log, step, anchors, window, minA, maxA, rows, u, next[u]);
      } else if u in anchors {
        var e := Earliest(log, u, step, anchors[u], Some(anchors[u] + window));
        EarliestIsLeast(log, u, step, anchors[u], Some(anchors[u] + window));
        if e.Some? {
          var j := HitIsListed(log, step, anchors, window, minA, maxA, rows, u, e.value);
          assert false;
        }
      }
    }
  }

  /** A hit of a carried user is among the bounded rows, and qualifies. */
  lemma HitIsListed(log: seq<Event>, step: Step, anchors: Anchors, window: Millis,
                    minA: Millis, maxA: Millis, rows: seq<Row>, u: string, at: Millis) returns (i: nat)
    requires forall u | u in anchors :: minA <= anchors[u] <= maxA
    requires IsFindResult(log, anchors.Keys, step, minA, maxA + window, rows)
    requires u in anchors
    requires exists j :: 0 <= j < |log| && Hits(log[j], u, step, anchors[u], Some(anchors[u] + window))
              && log[j].at == at
    ensures i < |rows| && rows[i] == Row(u, at) && Qualifies(rows[i], anchors, window)
  {
    var j :| 0 <= j < |log| && Hits(log[j], u, step, anchors[u], Some(anchors[u] + window)) && log[j].at == at;
    assert Row(log[j].userId, log[j].at) in rows;
    i :| 0 <= i < |rows| && rows[i] == Row(u, at);
  }

  lemma FirstRowIsEarliest(log: seq<Event>, step: Step, anchors: Anchors, window: Millis,
                           minA: Millis, maxA: Millis, rows: seq<Row>, u: string, at: Millis)
    requires forall u | u in anchors :: minA <= anchors[u] <= maxA
    requires IsFindResult(log, anchors.Keys, step, minA, maxA + window, rows)
    requires FirstQualifying(rows, anchors, window, u, at)
    ensures u in anchors && Earliest(log, u, step, anchors[u], Some(anchors[u] + window)) == Some(at)
  {
    var j :| 0 <= j < |rows| && rows[j] == Row(u, at) && Qualifies(rows[j], anchors, window)
             && forall i | 0 <= i < j && rows[i].userId == u :: !Qualifies(rows[i], anchors, window);
    assert Listed(log, anchors.Keys, step, minA, maxA + window, rows[j]);
    var n :| 0 <= n < |log| && log[n].userId in anchors.Keys && Matches(step, log[n])
             && minA < log[n].at <= maxA + window && rows[j] == Row(log[n].userId, log[n].at);
    assert Hits(log[n], u, step, anchors[u], Some(anchors[u] + window));
    var e := Earliest(log, u, step, anchors[u], Some(anchors[u] + window));
    EarliestIsLeast(log, u, step, anchors[u], Some(anchors[u] + window));
    var i := HitIsListed(log, step, anchors, window, minA, maxA, rows, u, e.value);
    assert e.value <= at;
    if i < j { assert false; }
  }

  /** One step for a non-empty map of anchors: bounds, query, fold. */
  method StepAnchors(log: seq<Event>, step: Step, current: Anchors, minA: Millis, maxA: Millis, window: Millis)
    returns (next: Anchors)
    requires forall u | u in current :: minA <= current[u] <= maxA
    ensures next == NextAnchors(log, step, current, window)
  {
    var rows := Find(log, current.Keys, step, minA, maxA + window);
    next := FoldRows(rows, current, window);
    BoundedRowsSuffice(log, step, current, window, minA, maxA, rows, next);
  }

  ghost predicate RowsDone(log: seq<Event>, f: Funnel, start: Millis, stats: seq<StepStat>, n: nat) {
    n <= |f.steps| && |stats| == n && forall k | 0 <= k < n :: stats[k] == StatAt(log, f, start, k)
  }

  lemma RowsExtend(log: seq<Event>, f: Funnel, start: Millis, stats: seq<StepStat>, n: nat, stat: StepStat)
    requires RowsDone(log, f, start, stats, n) && n < |f.steps| && stat == StatAt(log, f, start, n)
    ensures RowsDone(log, f, start, stats + [stat], n + 1)
  {
  }

  /** The arithmetic of one row. */
  method RowOf(i: nat, name: string, count: nat, prevCount: nat, step0Count: nat) returns (stat: StepStat)
    ensures stat == StatFrom(i, name, count, prevCount, step0Count)
  {
    var dropOff, cumulative := 0.0, 0.0;
    if prevCount > 0 {
      dropOff := 1.0 - Share(count, prevCount);
    }
    if step0Count > 0 {
      cumulative := Share(count, step0Count);
    }
    stat := StepStat(i, name, count, dropOff, cumulative);
  }

  /**
   * Stats: one row per step, each exactly as the specification of the whole log has it. The
   * store groups the first step's events by user itself.
   */
  method Stats(log: seq<Event>, f: Funnel, now: Millis) returns (stats: seq<StepStat>)
    requires |f.steps| > 0
    ensures RowsDone(log, f, now - f.analysisDays * 86_400_000, stats, |f.steps|)
    ensures RowsMean(f, stats)
  {
    var start := now - f.analysisDays * DAY_MS;
    stats := StepRows(log, f, start);
    DoneRowsMean(log, f, start, stats);
  }

  /** The rows, from the start of the analysis on. */
  method StepRows(log: seq<Event>, f: Funnel, start: Millis) returns (stats: seq<StepStat>)
    requires |f.steps| > 0
    ensures RowsDone(log, f, start, stats, |f.steps|)
  {
    var window := f.windowDays * DAY_MS;
    var current := FirstAnchors(log, f.steps[0], start);
    var step0Count := |current|;
    stats := [StepStat(0, f.steps[0].eventName, step0Count, 0.0, 1.0)];
    var prevCount := step0Count;
    for i := 1 to |f.steps|
      invariant current == AnchorsAt(log, f, start, i - 1)
      invariant prevCount == |current| && step0Count == |AnchorsAt(log, f, start, 0)|
      invariant RowsDone(log, f, start, stats, i)
    {
      var step := f.steps[i];
      var ids, minA, maxA := AnchorBounds(current);
      if |ids| == 0 {
        EmptyStaysEmpty(log, f, start, i);
        RowsExtend(log, f, start, stats, i, StepStat(i, step.eventName, 0, 0.0, 0.0));
        stats := stats + [StepStat(i, step.eventName, 0, 0.0, 0.0)];
        continue;
      }
      current := StepAnchors(log, step, current, minA, maxA, window);
      var stat := RowOf(i, step.eventName, |current|, prevCount, step0Count);
      RowsExtend(log, f, start, stats, i, stat);
      stats := stats + [stat];
      prevCount := |current|;
    }
  }

  /** What the figures of the rows say of their counts. */
  ghost predicate RowsMean(f: Funnel, stats: seq<StepStat>) {
    && |stats| == |f.steps| > 0
    && (forall i | 0 <= i < |f.steps| :: stats[i].stepIndex == i && stats[i].eventName == f.steps[i].eventName)
    && stats[0].dropOffRate == 0.0 && stats[0].cumulative == 1.0
    && (forall i | 0 < i < |f.steps| :: RatesAt(stats, i))
  }

  lemma DoneRowsMean(log: seq<Event>, f: Funnel, start: Millis, stats: seq<StepStat>)
    requires |f.steps| > 0 && RowsDone(log, f, start, stats, |f.steps|)
    ensures RowsMean(f, stats)
  {
    assert stats[0] == StatAt(log, f, start, 0);
    forall i | 0 < i < |f.steps|
      ensures RatesAt(stats, i)
    {
      assert stats[i] == StatAt(log, f, start, i) && stats[i - 1] == StatAt(log, f, start, i - 1);
      RatesOfRow(i, f.steps[i].eventName, stats[i].userCount, stats[i - 1].userCount, stats[0].userCount);
    }
  }

  /** A row against the rows of the previous and of the first step. */
  ghost predicate RatesAt(stats: seq<StepStat>, i: nat)
    requires 0 < i < |stats|
  {
    RatesOf(stats[i], stats[i - 1].userCount, stats[0].userCount)
  }

  /** The drop-off is taken from the previous step and the cumulative rate from the first. */
  ghost predicate RatesOf(stat: StepStat, prev: nat, first: nat) {
    && (if prev > 0 then (1.0 - stat.dropOffRate) * (prev as real) == stat.userCount as real
        else stat.dropOffRate == 0.0)
    && (if first > 0 then stat.cumulative * (first as real) == stat.userCount as real
        else stat.cumulative == 0.0)
  }

  lemma RatesOfRow(i: nat, name: string, count: nat, prev: nat, first: nat)
    ensures RatesOf(StatFrom(i, name, count, prev, first), prev, first)
  {
    if prev > 0 { ShareTimesWhole(count, prev); }
    if first > 0 { ShareTimesWhole(count, first); }
  }

  /** Once nobody is carried, the shortcut's row is the specification's row. */
  lemma EmptyStaysEmpty(log: seq<Event>, f: Funnel, start: Millis, i: nat)
    requires 0 < i < |f.steps| && AnchorsAt(log, f, start, i - 1) == map[]
    ensures AnchorsAt(log, f, start, i) == map[]
    ensures StatAt(log, f, start, i) == StepStat(i, f.steps[i].eventName, 0, 0.0, 0.0)
  {
    assert forall u :: u !in AnchorsAt(log, f, start, i);
    assert AnchorsAt(log, f, start, i) == map[];
    var first := |AnchorsAt(log, f, start, 0)|;
    assert Share(0, first) == 0.0;
  }

  // ---- What the numbers mean ----

  /** Anchors only ever come from carried users. */
  lemma {:induction false} StepsNarrow(log: seq<Event>, f: Funnel, start: Millis, i: nat, j: nat)
    requires i <= j < |f.steps|
    ensures AnchorsAt(log, f, start, j).Keys <= AnchorsAt(log, f, start, i).Keys
    ensures |AnchorsAt(log, f, start, j)| <= |AnchorsAt(log, f, start, i)|
    decreases j
  {
    if i < j {
      StepsNarrow(log, f, start, i, j - 1);
      assert AnchorsAt(log, f, start, j).Keys <= AnchorsAt(log, f, start, j - 1).Keys;
      SubsetSize(AnchorsAt(log, f, start, j).Keys, AnchorsAt(log, f, start, i).Keys);
    }
  }

  /** Counts never increase along the funnel, and both rates stay between 0 and 1. */
  lemma RatesAreFractions(log: seq<Event>, f: Funnel, start: Millis, i: nat)
    requires i < |f.steps|
    ensures i > 0 ==> StatAt(log, f, start, i).userCount <= StatAt(log, f, start, i - 1).userCount
    ensures 0.0 <= StatAt(log, f, start, i).dropOffRate <= 1.0
    ensures 0.0 <= StatAt(log, f, start, i).cumulative <= 1.0
  {
    if i > 0 {
      StepsNarrow(log, f, start, i - 1, i);
      StepsNarrow(log, f, start, 0, i);
      StatFromIsFraction(i, f.steps[i].eventName, |AnchorsAt(log, f, start, i)|,
                         |AnchorsAt(log, f, start, i - 1)|, |AnchorsAt(log, f, start, 0)|);
    }
  }

  lemma StatFromIsFraction(i: nat, name: string, count: nat, prev: nat, first: nat)
    requires count <= prev && count <= first
    ensures 0.0 <= StatFrom(i, name, count, prev, first).dropOffRate <= 1.0
    ensures 0.0 <= StatFrom(i, name, count, prev, first).cumulative <= 1.0
  {
    ShareIsFraction(count, prev);
    ShareIsFraction(count, first);
  }

  /** A chain of step events of one user, each after the last and within the window. */
  ghost predicate IsChain(log: seq<Event>, f: Funnel, start: Millis, u: string, chain: seq<Event>) {
    && |chain| <= |f.steps|
    && (forall k | 0 <= k < |chain| :: chain[k] in log && chain[k].userId == u && Matches(f.steps[k], chain[k]))
    && (chain != [] ==> start <= chain[0].at)
    && (forall j, k | 0 <= j && k == j + 1 && k < |chain| ::
          chain[j].at < chain[k].at <= chain[j].at + f.windowDays * DAY_MS)
  }

  /** An event of the user for step k after the event of the step before, or since the start of the analysis. */
  predicate Follows(e: Event, f: Funnel, start: Millis, u: string, chain: seq<Event>, k: nat)
    requires k < |f.steps| && k <= |chain|
  {
    e.userId == u && Matches(f.steps[k], e) && if k == 0 then start <= e.at else chain[k - 1].at < e.at
  }

  /** No event of the log could have taken the k-th place earlier. */
  ghost predicate EarliestAt(log: seq<Event>, f: Funnel, start: Millis, u: string, chain: seq<Event>, k: nat)
    requires k < |chain| <= |f.steps|
  {
    forall j | 0 <= j < |log| && Follows(log[j], f, start, u, chain, k) :: chain[k].at <= log[j].at
  }

  /** A chain in which each event is the earliest one for its step after the event before it. */
  ghost predicate IsEarliestChain(log: seq<Event>, f: Funnel, start: Millis, u: string, chain: seq<Event>) {
    IsChain(log, f, start, u, chain) && forall k | 0 <= k < |chain| :: EarliestAt(log, f, start, u, chain, k)
  }

  lemma ChainExtends(log: seq<Event>, f: Funnel, start: Millis, u: string, chain: seq<Event>, e: Event)
    requires IsEarliestChain(log, f, start, u, chain) && chain != [] && |chain| < |f.steps| && e in log
    requires Hits(e, u, f.steps[|chain|], chain[|chain| - 1].at, Some(chain[|chain| - 1].at + f.windowDays * DAY_MS))
    requires forall j | 0 <= j < |log| && Follows(log[j], f, start, u, chain, |chain|) :: e.at <= log[j].at
    ensures IsEarliestChain(log, f, start, u, chain + [e])
  {
    var longer := chain + [e];
    forall k | 0 <= k < |longer| ensures EarliestAt(log, f, start, u, longer, k) {
      if k < |chain| { assert EarliestAt(log, f, start, u, chain, k); }
    }
  }

  lemma ChainStarts(log: seq<Event>, f: Funnel, start: Millis, u: string) returns (e: Event)
    requires |f.steps| > 0 && Earliest(log, u, f.steps[0], start - 1, None).Some?
    ensures IsEarliestChain(log, f, start, u, [e]) && Earliest(log, u, f.steps[0], start - 1, None) == Some(e.at)
  {
    var j := EarliestHit(log, u, f.steps[0], start - 1, None);
    e := log[j];
    forall k | 0 <= k < |log| && Follows(log[k], f, start, u, [e], 0) ensures e.at <= log[k].at {
      assert Hits(log[k], u, f.steps[0], start - 1, None);
    }
    assert EarliestAt(log, f, start, u, [e], 0);
  }

  lemma NextInChain(log: seq<Event>, f: Funnel, start: Millis, u: string, chain: seq<Event>) returns (e: Event)
    requires IsEarliestChain(log, f, start, u, chain) && chain != [] && |chain| < |f.steps|
    requires var prev := chain[|chain| - 1].at;
             Earliest(log, u, f.steps[|chain|], prev, Some(prev + f.windowDays * DAY_MS)).Some?
    ensures IsEarliestChain(log, f, start, u, chain + [e])
    ensures var prev := chain[|chain| - 1].at;
            Earliest(log, u, f.steps[|chain|], prev, Some(prev + f.windowDays * DAY_MS)) == Some(e.at)
  {
    var n, prev := |chain|, chain[|chain| - 1].at;
    var hi := prev + f.windowDays * DAY_MS;
    var j := EarliestHit(log, u, f.steps[n], prev, Some(hi));
    e := log[j];
    forall k | 0 <= k < |log| && Follows(log[k], f, start, u, chain, n) ensures e.at <= log[k].at {
      assert log[k].at <= hi ==> Hits(log[k], u, f.steps[n], prev, Some(hi));
    }
    ChainExtends(log, f, start, u, chain, e);
  }

  /** Every counted user has such a chain, ending at the user's anchor. */
  lemma {:induction false} CountedUserHasChain(log: seq<Event>, f: Funnel, start: Millis, i: nat, u: string)
      returns (chain: seq<Event>)
    requires i < |f.steps| && u in AnchorsAt(log, f, start, i)
    ensures |chain| == i + 1 && IsEarliestChain(log, f, start, u, chain)
    ensures chain[i].at == AnchorsAt(log, f, start, i)[u]
    decreases i
  {
    if i == 0 {
      var e := ChainStarts(log, f, start, u);
      chain := [e];
    } else {
      var init := CountedUserHasChain(log, f, start, i - 1, u);
      var e := NextInChain(log, f, start, u, init);
      chain := init + [e];
    }
  }

  lemma ChainShortens(log: seq<Event>, f: Funnel, start: Millis, u: string, chain: seq<Event>)
    requires IsEarliestChain(log, f, start, u, chain) && |chain| > 1
    ensures IsEarliestChain(log, f, start, u, chain[..|chain| - 1])
  {
    var shorter := chain[..|chain| - 1];
    forall k | 0 <= k < |shorter| ensures EarliestAt(log, f, start, u, shorter, k) {
      assert EarliestAt(log, f, start, u, chain, k);
    }
  }

  /** A hit that no other hit precedes is the earliest one. */
  lemma EarliestIs(log: seq<Event>, user: string, step: Step, lo: Millis, hi: Option<Millis>, e: Event)
    requires e in log && Hits(e, user, step, lo, hi)
    requires forall j | 0 <= j < |log| && Hits(log[j], user, step, lo, hi) :: e.at <= log[j].at
    ensures Earliest(log, user, step, lo, hi) == Some(e.at) && user in Users(log)
  {
    EarliestIsLeast(log, user, step, lo, hi);
    var j :| 0 <= j < |log| && log[j] == e;
  }

  /** And such a chain counts its user, with its last event as the anchor. */
  lemma {:induction false} EarliestChainCounts(log: seq<Event>, f: Funnel, start: Millis, i: nat, u: string,
                                               chain: seq<Event>)
    requires i < |f.steps| && |chain| == i + 1 && IsEarliestChain(log, f, start, u, chain)
    ensures u in AnchorsAt(log, f, start, i) && AnchorsAt(log, f, start, i)[u] == chain[i].at
    decreases i
  {
    assert EarliestAt(log, f, start, u, chain, i);
    if i == 0 {
      EarliestIs(log, u, f.steps[0], start - 1, None, chain[0]);
    } else {
      var prev := chain[i - 1].at;
      ChainShortens(log, f, start, u, chain);
      EarliestChainCounts(log, f, start, i - 1, u, chain[..i]);
      EarliestIs(log, u, f.steps[i], prev, Some(prev + f.windowDays * DAY_MS), chain[i]);
    }
  }

  /** A user is counted at a step exactly when there is a chain of earliest events up to it. */
  lemma CountedIffEarliestChain(log: seq<Event>, f: Funnel, start: Millis, i: nat, u: string)
    requires i < |f.steps|
    ensures u in AnchorsAt(log, f, start, i)
            <==> exists chain :: |chain| == i + 1 && IsEarliestChain(log, f, start, u, chain)
  {
    if u in AnchorsAt(log, f, start, i) {
      var chain := CountedUserHasChain(log, f, start, i, u);
    }
    if chain :| |chain| == i + 1 && IsEarliestChain(log, f, start, u, chain) {
      EarliestChainCounts(log, f, start, i, u, chain);
    }
  }

  lemma EarliestHit(log: seq<Event>, user: string, step: Step, lo: Millis, hi: Option<Millis>) returns (j: nat)
    requires Earliest(log, user, step, lo, hi).Some?
    ensures j < |log| && Hits(log[j], user, step, lo, hi) && Earliest(log, user, step, lo, hi) == Some(log[j].at)
    ensures forall k | 0 <= k < |log| && Hits(log[k], user, step, lo, hi) :: log[j].at <= log[k].at
  {
    EarliestIsLeast(log, user, step, lo, hi);
    j :| 0 <= j < |log| && Hits(log[j], user, step, lo, hi) && log[j].at == Earliest(log, user, step, lo, hi).value;
  }

  // A chain does not make a user count: the program commits to each step's earliest event, and a
  // later one may be the only way on. Here the first "b" closes its window before "c" comes.

  const STEP_A: Step := Step("a", map[])
  const STEP_B: Step := Step("b", map[])
  const STEP_C: Step := Step("c", map[])
  const SLOW_FUNNEL: Funnel := Funnel([STEP_A, STEP_B, STEP_C], 2, 30)

  const SLOW_LOG: seq<Event> := [
    Event("u", "a", map[], 0),
    Event("u", "b", map[], 1),
    Event("u", "b", map[], 2 * DAY_MS),
    Event("u", "c", map[], 3 * DAY_MS)]

  lemma SlowChain()
    ensures IsChain(SLOW_LOG, SLOW_FUNNEL, 0, "u", [SLOW_LOG[0], SLOW_LOG[2], SLOW_LOG[3]])
  {
    var chain := [SLOW_LOG[0], SLOW_LOG[2], SLOW_LOG[3]];
    assert forall k | 0 <= k < 3 :: chain[k] in SLOW_LOG;
    assert Matches(STEP_A, chain[0]) && Matches(STEP_B, chain[1]) && Matches(STEP_C, chain[2]);
  }

  lemma SlowFirstAnchors()
    ensures "u" in AnchorsAt(SLOW_LOG, SLOW_FUNNEL, 0, 1)
    ensures AnchorsAt(SLOW_LOG, SLOW_FUNNEL, 0, 1)["u"] <= 1
  {
    assert SLOW_LOG[0].userId == "u";
    assert Hits(SLOW_LOG[0], "u", STEP_A, -1, None);
    EarliestIsLeast(SLOW_LOG, "u", STEP_A, -1, None);
    var a := FirstAnchors(SLOW_LOG, STEP_A, 0);
    assert a["u"] == 0;
    assert Hits(SLOW_LOG[1], "u", STEP_B, 0, Some(2 * DAY_MS));
    EarliestIsLeast(SLOW_LOG, "u", STEP_B, 0, Some(2 * DAY_MS));
    assert AnchorsAt(SLOW_LOG, SLOW_FUNNEL, 0, 1) == NextAnchors(SLOW_LOG, STEP_B, a, 2 * DAY_MS);
  }

  lemma NoHitInTime(b: Millis)
    requires b <= 1
    ensures Earliest(SLOW_LOG, "u", STEP_C, b, Some(b + 2 * DAY_MS)).None?
  {
    EarliestIsLeast(SLOW_LOG, "u", STEP_C, b, Some(b + 2 * DAY_MS));
    forall j | 0 <= j < |SLOW_LOG|
      ensures !Hits(SLOW_LOG[j], "u", STEP_C, b, Some(b + 2 * DAY_MS))
    {
    }
  }

  lemma SlowUncounted()
    ensures "u" !in AnchorsAt(SLOW_LOG, SLOW_FUNNEL, 0, 2)
  {
    SlowFirstAnchors();
    NoHitInTime(AnchorsAt(SLOW_LOG, SLOW_FUNNEL, 0, 1)["u"]);
    NotCarried(SLOW_LOG, SLOW_FUNNEL, 0, 2, "u", STEP_C);
  }

  lemma NotCarried(log: seq<Event>, f: Funnel, start: Millis, i: nat, u: string, step: Step)
    requires 0 < i < |f.steps| && step == f.steps[i] && u in AnchorsAt(log, f, start, i - 1)
    requires var a := AnchorsAt(log, f, start, i - 1)[u];
             Earliest(log, u, step, a, Some(a + f.windowDays * DAY_MS)).None?
    ensures u !in AnchorsAt(log, f, start, i)
  {
  }

  /** The user of the slow log has a chain through all three steps and is not counted at the last. */
  lemma ChainDoesNotSuffice()
    ensures IsChain(SLOW_LOG, SLOW_FUNNEL, 0, "u", [SLOW_LOG[0], SLOW_LOG[2], SLOW_LOG[3]])
    ensures "u" !in AnchorsAt(SLOW_LOG, SLOW_FUNNEL, 0, 2)
  {
    SlowChain();
    SlowUncounted();
  }
}
