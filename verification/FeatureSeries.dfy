/**
 * DailySeriesByFeature: the rows of the store are pivoted to features and days, the features
 * ranked by their total, and those past the cap folded into one series called "other".
 */
module FeatureSeries {
  import opened Options
  import opened Crons
  import D = DayStrings
  import opened LedgerSums
  import opened Overview
  import opened Strings

  // ---- Pivot ----

  type Pivoted = map<string, map<string, real>>

  function ValueAt(byFeature: Pivoted, f: string, d: string): real {
    if f in byFeature && d in byFeature[f] then byFeature[f][d] else 0.0
  }

  /** Only one value moved, by x. */
  ghost predicate MovedAt(before: Pivoted, after: Pivoted, f: string, d: string, x: real) {
    && ValueAt(after, f, d) == ValueAt(before, f, d) + x
    && forall g, e | !(g == f && e == d) :: ValueAt(after, g, e) == ValueAt(before, g, e)
  }

  method AddAt(byFeature: Pivoted, f: string, d: string, x: real) returns (more: Pivoted)
    ensures MovedAt(byFeature, more, f, d, x)
  {
    more := byFeature;
    if f !in more {
      more := more[f := map[]];
    }
    more := more[f := more[f][d := ValueAt(more, f, d) + x]];
  }

  ghost predicate HasFeature(rows: seq<Row>, f: string) {
    rows != [] && (FeatureName(rows[|rows| - 1].key.feature) == f || HasFeature(rows[..|rows| - 1], f))
  }

  lemma {:induction false} HasFeatureMeans(rows: seq<Row>, f: string)
    ensures HasFeature(rows, f) <==> exists i :: 0 <= i < |rows| && FeatureName(rows[i].key.feature) == f
    decreases |rows|
  {
    if rows != [] {
      var n := |rows| - 1;
      HasFeatureMeans(rows[..n], f);
      assert forall i | 0 <= i < n :: rows[..n][i] == rows[i];
    }
  }

  lemma HasFeatureStep(rows: seq<Row>, k: nat, f: string)
    requires k < |rows|
    ensures HasFeature(rows[..k + 1], f) <==> HasFeature(rows[..k], f) || FeatureName(rows[k].key.feature) == f
  {
    assert rows[..k + 1][..k] == rows[..k];
  }

  lemma RowSumStep(rows: seq<Row>, k: nat, f: Option<string>, d: Option<string>)
    requires k < |rows|
    ensures RowSum(rows[..k + 1], f, d) == RowSum(rows[..k], f, d)
              + if KeyCounts(rows[k].key, f, d) then rows[k].spend else 0.0
  {
    assert rows[..k + 1][..k] == rows[..k];
  }

  ghost predicate PivotIs(rows: seq<Row>, totals: map<string, real>, byFeature: Pivoted) {
    && (forall f :: f in totals <==> HasFeature(rows, f))
    && (forall f | f in totals :: totals[f] == RowSum(rows, Some(f), None))
    && (forall f, d :: ValueAt(byFeature, f, d) == RowSum(rows, Some(f), Some(d)))
  }

  /** The accumulating loop, whatever the order of the rows. */
  method Pivot(rows: seq<Row>) returns (totals: map<string, real>, byFeature: Pivoted)
    ensures PivotIs(rows, totals, byFeature)
  {
    totals, byFeature := map[], map[];
    for k := 0 to |rows|
      invariant PivotIs(rows[..k], totals, byFeature)
    {
      ghost var totals0, byFeature0 := totals, byFeature;
      var x := rows[k];
      var feat := FeatureName(x.key.feature);
      AbsentIsZero(rows[..k], feat);
      totals := totals[feat := (if feat in totals then totals[feat] else 0.0) + x.spend];
      byFeature := AddAt(byFeature, feat, x.key.day, x.spend);
      PivotStep(rows, k, totals0, byFeature0, totals, byFeature);
    }
    assert rows[..|rows|] == rows;
  }

  lemma {:induction false} AbsentIsZero(rows: seq<Row>, f: string)
    ensures !HasFeature(rows, f) ==> RowSum(rows, Some(f), None) == 0.0
    decreases |rows|
  {
    if rows != [] { AbsentIsZero(rows[..|rows| - 1], f); }
  }

  lemma PivotStep(rows: seq<Row>, k: nat, totals0: map<string, real>, byFeature0: Pivoted, totals: map<string, real>,
                  byFeature: Pivoted)
    requires k < |rows| && PivotIs(rows[..k], totals0, byFeature0)
    requires var feat := FeatureName(rows[k].key.feature);
             && totals == totals0[feat := RowSum(rows[..k], Some(feat), None) + rows[k].spend]
             && MovedAt(byFeature0, byFeature, feat, rows[k].key.day, rows[k].spend)
    ensures PivotIs(rows[..k + 1], totals, byFeature)
  {
    forall f ensures f in totals <==> HasFeature(rows[..k + 1], f) {
      HasFeatureStep(rows, k, f);
    }
    forall f | f in totals ensures totals[f] == RowSum(rows[..k + 1], Some(f), None) {
      RowSumStep(rows, k, Some(f), None);
    }
    forall f, d ensures ValueAt(byFeature, f, d) == RowSum(rows[..k + 1], Some(f), Some(d)) {
      RowSumStep(rows, k, Some(f), Some(d));
    }
  }

  // ---- Rank ----

  datatype Rank = Rank(feat: string, total: real)

  /** Greater totals first, ties by name. */
  predicate RankBefore(a: Rank, b: Rank) {
    a.total > b.total || (a.total == b.total && StringLess(a.feat, b.feat))
  }

  ghost predicate Ordered(ranked: seq<Rank>) {
    forall i, j | 0 <= i < j < |ranked| :: RankBefore(ranked[i], ranked[j])
  }

  lemma RankBeforeIsTotal(a: Rank, b: Rank)
    ensures RankBefore(a, b) || a == b || RankBefore(b, a)
    ensures !(RankBefore(a, b) && RankBefore(b, a)) && !RankBefore(a, a)
  {
    StringTrichotomy(a.feat, b.feat);
    StringIrreflexive(a.feat);
  }

  lemma RankBeforeTransitive(a: Rank, b: Rank, c: Rank)
    requires RankBefore(a, b) && RankBefore(b, c)
    ensures RankBefore(a, c)
  {
    if a.total == b.total == c.total { StringTransitive(a.feat, b.feat, c.feat); }
  }

  function InsertRank(r: Rank, ranked: seq<Rank>): seq<Rank> {
    if ranked == [] || RankBefore(r, ranked[0]) then [r] + ranked
    else [ranked[0]] + InsertRank(r, ranked[1..])
  }

  lemma {:induction false} InsertedMembers(r: Rank, ranked: seq<Rank>)
    ensures forall x :: x in InsertRank(r, ranked) <==> x == r || x in ranked
    ensures |InsertRank(r, ranked)| == |ranked| + 1
    decreases |ranked|
  {
    if ranked != [] && !RankBefore(r, ranked[0]) {
      InsertedMembers(r, ranked[1..]);
      assert ranked == [ranked[0]] + ranked[1..];
    }
  }

  lemma {:induction false} InsertedOrdered(r: Rank, ranked: seq<Rank>)
    requires Ordered(ranked) && r !in ranked
    ensures Ordered(InsertRank(r, ranked))
    decreases |ranked|
  {
    if ranked == [] {
    } else if RankBefore(r, ranked[0]) {
      forall j | 0 <= j < |ranked| ensures RankBefore(r, ranked[j]) {
        if j > 0 { RankBeforeTransitive(r, ranked[0], ranked[j]); }
      }
    } else {
      RankBeforeIsTotal(r, ranked[0]);
      InsertedOrdered(r, ranked[1..]);
      InsertedMembers(r, ranked[1..]);
      var rest := InsertRank(r, ranked[1..]);
      forall j | 0 <= j < |rest| ensures RankBefore(ranked[0], rest[j]) {
        assert rest[j] in rest;
        if rest[j] != r {
          var i :| 0 <= i < |ranked[1..]| && ranked[1..][i] == rest[j];
          assert ranked[i + 1] == rest[j];
        }
      }
    }
  }

  /** Every feature with its total, in order. */
  ghost predicate IsRanking(ranked: seq<Rank>, totals: map<string, real>) {
    Ordered(ranked) && forall r :: r in ranked <==> r.feat in totals && r.total == totals[r.feat]
  }

  /** The ranking of the totals, collected in any order and sorted. */
  method RankFeatures(totals: map<string, real>) returns (ranked: seq<Rank>)
    ensures IsRanking(ranked, totals)
  {
    ranked := [];
    var rest := totals.Keys;
    while rest != {}
      invariant rest <= totals.Keys && Ordered(ranked)
      invariant forall r :: r in ranked <==> r.feat in totals && r.feat !in rest && r.total == totals[r.feat]
      decreases |rest|
    {
      var f :| f in rest;
      var r := Rank(f, totals[f]);
      InsertedOrdered(r, ranked);
      InsertedMembers(r, ranked);
      ranked, rest := InsertRank(r, ranked), rest - {f};
    }
  }

  /** The order is fully determined, so the stack of series is stable across requests. */
  lemma {:induction false} RankingIsUnique(a: seq<Rank>, b: seq<Rank>)
    requires Ordered(a) && Ordered(b) && forall r :: r in a <==> r in b
    ensures a == b
    decreases |a|
  {
    assert b != [] ==> b[0] in b;
    if a != [] {
      assert a[0] in b && b[0] in a;
      var i :| 0 <= i < |b| && b[i] == a[0];
      var j :| 0 <= j < |a| && a[j] == b[0];
      if i > 0 && j > 0 { RankBeforeIsTotal(a[0], b[0]); }
      TailMembers(a);
      TailMembers(b);
      RankingIsUnique(a[1..], b[1..]);
      assert a == [a[0]] + a[1..] && b == [b[0]] + b[1..];
    }
  }

  lemma TailMembers(a: seq<Rank>)
    requires a != [] && Ordered(a)
    ensures Ordered(a[1..]) && forall r :: r in a[1..] <==> r in a && r != a[0]
  {
    forall r ensures r in a[1..] <==> r in a && r != a[0] {
      if r in a[1..] {
        var i :| 0 <= i < |a[1..]| && a[1..][i] == r;
        assert a[i + 1] == r;
        RankBeforeIsTotal(a[0], r);
      }
      if r in a && r != a[0] {
        var i :| 0 <= i < |a| && a[i] == r;
        assert a[1..][i - 1] == r;
      }
    }
  }

  lemma FeaturesAreDistinct(ranked: seq<Rank>, totals: map<string, real>)
    requires IsRanking(ranked, totals)
    ensures forall i, j | 0 <= i < j < |ranked| :: ranked[i].feat != ranked[j].feat
  {
    forall i, j | 0 <= i < j < |ranked| ensures ranked[i].feat != ranked[j].feat {
      RankBeforeIsTotal(ranked[i], ranked[j]);
      assert ranked[i] in ranked && ranked[j] in ranked;
    }
  }

  // ---- Fold ----

  datatype Series = Series(feature: string, series: seq<Metric>)

  /** The values of the folded features on one day. */
  function FoldAt(byFeature: Pivoted, ranked: seq<Rank>, d: string): real {
    if ranked == [] then 0.0
    else FoldAt(byFeature, ranked[..|ranked| - 1], d) + ValueAt(byFeature, ranked[|ranked| - 1].feat, d)
  }

  ghost predicate FeatureLine(s: Series, byFeature: Pivoted, feat: string, keys: seq<string>) {
    && s.feature == feat && |s.series| == |keys|
    && forall j | 0 <= j < |keys| :: s.series[j] == Metric(keys[j], ValueAt(byFeature, feat, keys[j]))
  }

  ghost predicate FoldedLine(s: Series, byFeature: Pivoted, tail: seq<Rank>, keys: seq<string>) {
    && s.feature == "other" && |s.series| == |keys|
    && forall j | 0 <= j < |keys| :: s.series[j] == Metric(keys[j], FoldAt(byFeature, tail, keys[j]))
  }

  method Line(byFeature: Pivoted, feat: string, keys: seq<string>) returns (s: Series)
    ensures FeatureLine(s, byFeature, feat, keys)
  {
    var series: seq<Metric> := [];
    for j := 0 to |keys|
      invariant |series| == j
      invariant forall i | 0 <= i < j :: series[i] == Metric(keys[i], ValueAt(byFeature, feat, keys[i]))
    {
      series := series + [Metric(keys[j], ValueAt(byFeature, feat, keys[j]))];
    }
    s := Series(feat, series);
  }

  /** The tail of the ranking, added up in place day by day. */
  method FoldTail(byFeature: Pivoted, tail: seq<Rank>, keys: seq<string>) returns (s: Series)
    requires tail != []
    ensures FoldedLine(s, byFeature, tail, keys)
  {
    var other := new Metric[|keys|](_ => Metric("", 0.0));
    for i := 0 to |tail|
      invariant forall j | 0 <= j < |keys| ::
                  other[j].value == FoldAt(byFeature, tail[..i], keys[j]) && (i > 0 ==> other[j].date == keys[j])
    {
      assert tail[..i + 1][..i] == tail[..i];
      for j := 0 to |keys|
        invariant forall k | 0 <= k < j :: other[k] == Metric(keys[k], FoldAt(byFeature, tail[..i + 1], keys[k]))
        invariant forall k | j <= k < |keys| :: other[k].value == FoldAt(byFeature, tail[..i], keys[k])
      {
        other[j] := Metric(keys[j], other[j].value + ValueAt(byFeature, tail[i].feat, keys[j]));
      }
    }
    assert tail[..|tail|] == tail;
    s := Series("other", other[..]);
  }

  function Cap(maxFeatures: int): (cap: nat)
    ensures cap > 0
  {
    if maxFeatures <= 0 then 8 else maxFeatures
  }

  function Shown(ranked: seq<Rank>, cap: nat): nat {
    if |ranked| < cap then |ranked| else cap
  }

  /** One line for each of the first `cap` features in order, and one for all the others together. */
  ghost predicate Folded(out: seq<Series>, byFeature: Pivoted, ranked: seq<Rank>, cap: nat, keys: seq<string>) {
    var m := Shown(ranked, cap);
    && |out| == (if |ranked| > cap then cap + 1 else |ranked|)
    && (forall i | 0 <= i < m :: FeatureLine(out[i], byFeature, ranked[i].feat, keys))
    && (|ranked| > cap ==> FoldedLine(out[cap], byFeature, ranked[cap..], keys))
  }

  method Fold(byFeature: Pivoted, ranked: seq<Rank>, cap: nat, keys: seq<string>) returns (out: seq<Series>)
    ensures Folded(out, byFeature, ranked, cap, keys)
  {
    out := [];
    var i := 0;
    while i < |ranked|
      invariant 0 <= i <= Shown(ranked, cap) && |out| == i
      invariant forall k | 0 <= k < i :: FeatureLine(out[k], byFeature, ranked[k].feat, keys)
    {
      if i >= cap {
        break;
      }
      var line := Line(byFeature, ranked[i].feat, keys);
      out := out + [line];
      i := i + 1;
    }
    if |ranked| > cap {
      var line := FoldTail(byFeature, ranked[cap..], keys);
      out := out + [line];
    }
  }

  // ---- DailySeriesByFeature ----

  /** The features with calls since `lo`, in order of their totals. */
  ghost predicate RanksLedger(ranked: seq<Rank>, name: DayName, calls: seq<Call>, lo: Instant) {
    && Ordered(ranked)
    && (forall i, j | 0 <= i < j < |ranked| :: ranked[i].feat != ranked[j].feat)
    && (forall i | 0 <= i < |ranked| :: ranked[i].total == Spend(name, calls, lo, Some(ranked[i].feat), None))
    && (forall k | 0 <= k < |calls| && calls[k].at >= lo :: Ranked(ranked, FeatureName(calls[k].feature)))
    && (forall i | 0 <= i < |ranked| :: HasCall(calls, lo, ranked[i].feat))
  }

  ghost predicate HasCall(calls: seq<Call>, lo: Instant, f: string) {
    exists k :: 0 <= k < |calls| && calls[k].at >= lo && FeatureName(calls[k].feature) == f
  }

  ghost predicate Ranked(ranked: seq<Rank>, f: string) {
    ranked != [] && (ranked[|ranked| - 1].feat == f || Ranked(ranked[..|ranked| - 1], f))
  }

  /** The spend of several features on one day. */
  function DaySpendOf(calls: seq<Call>, ranked: seq<Rank>, n: int): real {
    if ranked == [] then 0.0
    else DaySpendOf(calls, ranked[..|ranked| - 1], n) + DaySpend(calls, Some(ranked[|ranked| - 1].feat), n)
  }

  /** What is returned: the ranked features' own spend by day, and the rest in one series. */
  ghost predicate SeriesAre(out: seq<Series>, name: DayName, calls: seq<Call>, ranked: seq<Rank>, cap: nat, first: int)
  {
    && |out| == (if |ranked| > cap then cap + 1 else |ranked|)
    && (forall i | 0 <= i < |out| :: |out[i].series| == DAYS)
    && (forall i, j | 0 <= i < Shown(ranked, cap) && 0 <= j < DAYS ::
          out[i].feature == ranked[i].feat
          && out[i].series[j] == Metric(name(first + j), DaySpend(calls, Some(ranked[i].feat), first + j)))
    && (|ranked| > cap ==>
          out[cap].feature == "other"
          && forall j | 0 <= j < DAYS ::
               out[cap].series[j] == Metric(name(first + j), DaySpendOf(calls, ranked[cap..], first + j)))
  }

  method FeatureSeriesUnder(name: DayName, now: Instant, maxFeatures: int, rows: seq<Row>, ghost calls: seq<Call>)
    returns (out: seq<Series>, ranked: seq<Rank>)
    requires Injective(name) && IsGrouping(name, rows, calls, StartOfWindow(now))
    ensures RanksLedger(ranked, name, calls, StartOfWindow(now))
    ensures SeriesAre(out, name, calls, ranked, Cap(maxFeatures), FirstDay(now))
  {
    ghost var first, lo := FirstDay(now), StartOfWindow(now);
    WindowIsMidnight(now);
    var totals, byFeature := Pivot(rows);
    ranked := RankFeatures(totals);
    RankingRanksLedger(name, rows, calls, lo, totals, byFeature, ranked);
    var keys := DayKeys(name, StartOfWindow(now), first);
    out := Fold(byFeature, ranked, Cap(maxFeatures), keys);
    ValuesAreSpend(name, rows, calls, totals, byFeature, first);
    FoldedIsSeries(name, calls, byFeature, ranked, Cap(maxFeatures), keys, first, out);
  }

  method DailySeriesByFeature(now: Instant, maxFeatures: int, rows: seq<Row>, ghost calls: seq<Call>)
    returns (out: seq<Series>, ranked: seq<Rank>)
    requires IsGrouping(D.DayString, rows, calls, StartOfWindow(now))
    ensures RanksLedger(ranked, D.DayString, calls, StartOfWindow(now))
    ensures SeriesAre(out, D.DayString, calls, ranked, Cap(maxFeatures), FirstDay(now))
    ensures var cap := if maxFeatures <= 0 then 8 else maxFeatures;
            |out| == if |ranked| > cap then cap + 1 else |ranked|
    ensures forall i, j | 0 <= i < j < |ranked| ::
              ranked[i].total > ranked[j].total
              || (ranked[i].total == ranked[j].total && StringLess(ranked[i].feat, ranked[j].feat))
  {
    DayStringsAreInjective();
    out, ranked := FeatureSeriesUnder(D.DayString, now, maxFeatures, rows, calls);
    assert forall i, j | 0 <= i < j < |ranked| :: RankBefore(ranked[i], ranked[j]);
  }

  // ---- Why it is exact ----

  lemma {:induction false} RankedMeans(ranked: seq<Rank>, f: string)
    ensures Ranked(ranked, f) <==> exists i :: 0 <= i < |ranked| && ranked[i].feat == f
    decreases |ranked|
  {
    if ranked != [] {
      var n := |ranked| - 1;
      RankedMeans(ranked[..n], f);
      assert forall i | 0 <= i < n :: ranked[..n][i] == ranked[i];
    }
  }

  lemma GroupedFeatures(name: DayName, rows: seq<Row>, calls: seq<Call>, lo: Instant, f: string)
    requires IsGrouping(name, rows, calls, lo)
    ensures HasFeature(rows, f) <==> HasCall(calls, lo, f)
  {
    HasFeatureMeans(rows, f);
    if HasFeature(rows, f) {
      var i :| 0 <= i < |rows| && FeatureName(rows[i].key.feature) == f;
      var k :| 0 <= k < |calls| && calls[k].at >= lo && KeyOf(calls[k], name) == rows[i].key;
      assert calls[k].feature == rows[i].key.feature;
    }
    if k :| 0 <= k < |calls| && calls[k].at >= lo && FeatureName(calls[k].feature) == f {
      assert HasKey(rows, KeyOf(calls[k], name));
      var i :| 0 <= i < |rows| && rows[i].key == KeyOf(calls[k], name);
      assert FeatureName(rows[i].key.feature) == f;
    }
  }

  lemma RankingRanksLedger(name: DayName, rows: seq<Row>, calls: seq<Call>, lo: Instant,
                           totals: map<string, real>, byFeature: Pivoted, ranked: seq<Rank>)
    requires IsGrouping(name, rows, calls, lo) && PivotIs(rows, totals, byFeature) && IsRanking(ranked, totals)
    ensures RanksLedger(ranked, name, calls, lo)
  {
    FeaturesAreDistinct(ranked, totals);
    forall i | 0 <= i < |ranked|
      ensures ranked[i].total == Spend(name, calls, lo, Some(ranked[i].feat), None)
      ensures HasCall(calls, lo, ranked[i].feat)
    {
      assert ranked[i] in ranked;
      RowsSumToCalls(name, rows, calls, lo, Some(ranked[i].feat), None);
      GroupedFeatures(name, rows, calls, lo, ranked[i].feat);
    }
    forall k | 0 <= k < |calls| && calls[k].at >= lo
      ensures Ranked(ranked, FeatureName(calls[k].feature))
    {
      var f := FeatureName(calls[k].feature);
      GroupedFeatures(name, rows, calls, lo, f);
      assert Rank(f, totals[f]) in ranked;
      RankedMeans(ranked, f);
    }
  }

  ghost predicate PivotsDay(name: DayName, calls: seq<Call>, byFeature: Pivoted, n: int) {
    forall f :: ValueAt(byFeature, f, name(n)) == DaySpend(calls, Some(f), n)
  }

  ghost predicate PivotsDays(name: DayName, calls: seq<Call>, byFeature: Pivoted, first: int) {
    forall n | first <= n < first + DAYS :: PivotsDay(name, calls, byFeature, n)
  }

  /** On each of the days the pivot holds the calls of that day. */
  lemma ValuesAreSpend(name: DayName, rows: seq<Row>, calls: seq<Call>, totals: map<string, real>, byFeature: Pivoted,
                       first: int)
    requires Injective(name) && IsGrouping(name, rows, calls, first * DAY) && PivotIs(rows, totals, byFeature)
    ensures PivotsDays(name, calls, byFeature, first)
  {
    forall n | first <= n < first + DAYS ensures PivotsDay(name, calls, byFeature, n) {
      forall f ensures ValueAt(byFeature, f, name(n)) == DaySpend(calls, Some(f), n) {
        ValueIsSpend(name, rows, calls, byFeature, first * DAY, f, n);
      }
    }
  }

  lemma ValueIsSpend(name: DayName, rows: seq<Row>, calls: seq<Call>, byFeature: Pivoted, lo: Instant, f: string,
                     n: int)
    requires Injective(name) && IsGrouping(name, rows, calls, lo) && lo <= n * DAY
    requires ValueAt(byFeature, f, name(n)) == RowSum(rows, Some(f), Some(name(n)))
    ensures ValueAt(byFeature, f, name(n)) == DaySpend(calls, Some(f), n)
  {
    RowsSumToCalls(name, rows, calls, lo, Some(f), Some(name(n)));
    SpendOfDay(name, calls, lo, Some(f), n);
  }

  lemma {:induction false} FoldIsDaySpendOf(name: DayName, calls: seq<Call>, byFeature: Pivoted, ranked: seq<Rank>,
                                            n: int)
    requires PivotsDay(name, calls, byFeature, n)
    ensures FoldAt(byFeature, ranked, name(n)) == DaySpendOf(calls, ranked, n)
    decreases |ranked|
  {
    if ranked != [] {
      FoldIsDaySpendOf(name, calls, byFeature, ranked[..|ranked| - 1], n);
    }
  }

  lemma FoldedIsSeries(name: DayName, calls: seq<Call>, byFeature: Pivoted, ranked: seq<Rank>, cap: nat,
                       keys: seq<string>, first: int, out: seq<Series>)
    requires PivotsDays(name, calls, byFeature, first) && AreKeys(name, keys, first)
              && Folded(out, byFeature, ranked, cap, keys)
    ensures SeriesAre(out, name, calls, ranked, cap, first)
  {
    forall i, j | 0 <= i < Shown(ranked, cap) && 0 <= j < DAYS
      ensures out[i].feature == ranked[i].feat
      ensures out[i].series[j] == Metric(name(first + j), DaySpend(calls, Some(ranked[i].feat), first + j))
    {
      assert FeatureLine(out[i], byFeature, ranked[i].feat, keys);
      assert keys[j] == name(first + j) && PivotsDay(name, calls, byFeature, first + j);
    }
    if |ranked| > cap {
      forall j | 0 <= j < DAYS
        ensures out[cap].series[j] == Metric(name(first + j), DaySpendOf(calls, ranked[cap..], first + j))
      {
        assert keys[j] == name(first + j) && PivotsDay(name, calls, byFeature, first + j);
        FoldIsDaySpendOf(name, calls, byFeature, ranked[cap..], first + j);
      }
    }
  }

  // ---- The series add up ----

  /** What the series show together on the j-th day. */
  function SumAt(out: seq<Series>, j: nat): real
    requires forall i | 0 <= i < |out| :: j < |out[i].series|
  {
    if out == [] then 0.0 else SumAt(out[..|out| - 1], j) + out[|out| - 1].series[j].value
  }

  lemma {:induction false} ShownSum(out: seq<Series>, calls: seq<Call>, ranked: seq<Rank>, m: nat, j: nat, n: int)
    requires m <= |out| && m <= |ranked| && forall i | 0 <= i < |out| :: j < |out[i].series|
    requires forall i | 0 <= i < m :: out[i].series[j].value == DaySpend(calls, Some(ranked[i].feat), n)
    ensures SumAt(out[..m], j) == DaySpendOf(calls, ranked[..m], n)
    decreases m
  {
    if m > 0 {
      ShownSum(out, calls, ranked, m - 1, j, n);
      assert out[..m][..m - 1] == out[..m - 1] && ranked[..m][..m - 1] == ranked[..m - 1];
    }
  }

  lemma {:induction false} SpendOfParts(calls: seq<Call>, a: seq<Rank>, b: seq<Rank>, n: int)
    ensures DaySpendOf(calls, a + b, n) == DaySpendOf(calls, a, n) + DaySpendOf(calls, b, n)
    decreases |b|
  {
    if b == [] {
      assert a + b == a;
    } else {
      var m := |b| - 1;
      SpendOfParts(calls, a, b[..m], n);
      assert (a + b)[..|a + b| - 1] == a + b[..m];
    }
  }

  ghost predicate DistinctFeatures(ranked: seq<Rank>) {
    forall i, j | 0 <= i < j < |ranked| :: ranked[i].feat != ranked[j].feat
  }

  /** One more call is in exactly one of the ranked features, if it is in any. */
  lemma {:induction false} OneMoreRanked(calls: seq<Call>, ranked: seq<Rank>, f: string, n: int)
    requires calls != [] && DistinctFeatures(ranked) && f == FeatureName(calls[|calls| - 1].feature)
    ensures var c := calls[|calls| - 1];
            DaySpendOf(calls, ranked, n) == DaySpendOf(calls[..|calls| - 1], ranked, n)
              + if DayAt(c.at) == n && Ranked(ranked, f) then c.cost else 0.0
    decreases |ranked|
  {
    if ranked != [] {
      var m := |ranked| - 1;
      OneMoreRanked(calls, ranked[..m], f, n);
      RankedMeans(ranked[..m], ranked[m].feat);
    }
  }

  lemma {:induction false} NothingToSpend(ranked: seq<Rank>, n: int)
    ensures DaySpendOf([], ranked, n) == 0.0
    decreases |ranked|
  {
    if ranked != [] { NothingToSpend(ranked[..|ranked| - 1], n); }
  }

  lemma {:induction false} AllFeaturesAreAll(calls: seq<Call>, ranked: seq<Rank>, n: int)
    requires DistinctFeatures(ranked)
    requires forall k | 0 <= k < |calls| && DayAt(calls[k].at) == n :: Ranked(ranked, FeatureName(calls[k].feature))
    ensures DaySpendOf(calls, ranked, n) == DaySpend(calls, None, n)
    decreases |calls|
  {
    if calls == [] {
      NothingToSpend(ranked, n);
    } else {
      var m := |calls| - 1;
      assert forall k | 0 <= k < m :: calls[..m][k] == calls[k];
      AllFeaturesAreAll(calls[..m], ranked, n);
      OneMoreRanked(calls, ranked, FeatureName(calls[m].feature), n);
    }
  }

  lemma SumsToAll(out: seq<Series>, name: DayName, calls: seq<Call>, ranked: seq<Rank>, cap: nat, first: int, j: nat)
    requires j < DAYS && SeriesAre(out, name, calls, ranked, cap, first)
    ensures SumAt(out, j) == DaySpendOf(calls, ranked, first + j)
  {
    var n, m := first + j, Shown(ranked, cap);
    ShownSum(out, calls, ranked, m, j, n);
    if |ranked| > cap {
      assert out[..|out| - 1] == out[..m];
      SpendOfParts(calls, ranked[..m], ranked[m..], n);
      assert ranked[..m] + ranked[m..] == ranked;
    } else {
      assert out[..m] == out && ranked[..m] == ranked;
    }
  }

  lemma DayIsSince(t: Instant, first: int)
    requires DayAt(t) >= first
    ensures t >= first * DAY
  {
    DayBounds(t);
  }

  lemma RankedAreAll(name: DayName, calls: seq<Call>, ranked: seq<Rank>, first: int, n: int)
    requires RanksLedger(ranked, name, calls, first * DAY) && n >= first
    ensures DaySpendOf(calls, ranked, n) == DaySpend(calls, None, n)
  {
    forall k | 0 <= k < |calls| && DayAt(calls[k].at) == n
      ensures Ranked(ranked, FeatureName(calls[k].feature))
    {
      DayIsSince(calls[k].at, first);
    }
    AllFeaturesAreAll(calls, ranked, n);
  }

  /** Day by day the series add up to the spend that DailySeries shows, whatever the cap folds away. */
  lemma SeriesSumToSpend(out: seq<Series>, name: DayName, calls: seq<Call>, ranked: seq<Rank>, cap: nat, first: int,
                         j: nat)
    requires j < DAYS && RanksLedger(ranked, name, calls, first * DAY)
              && SeriesAre(out, name, calls, ranked, cap, first)
    ensures |out| <= cap + 1
    ensures SumAt(out, j) == DaySpend(calls, None, first + j)
  {
    SumsToAll(out, name, calls, ranked, cap, first, j);
    RankedAreAll(name, calls, ranked, first, first + j);
  }
}
