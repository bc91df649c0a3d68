/**
 * Sums over the ledger of model calls, as the store's groupings answer them: one row for each
 * group that has a call, in any order. The strings of the days are any naming under which
 * different days have different names.
 */
module LedgerSums {
  import opened Options
  import opened Crons

  /** A call; the feature may be missing from the document. */
  datatype Call = Call(at: Instant, feature: Option<string>, userId: string, cost: real)

  datatype Key = Key(feature: Option<string>, day: string)

  type DayName = int -> string

  ghost predicate Injective(name: DayName) {
    forall a, b :: name(a) == name(b) ==> a == b
  }

  function DayOfCall(c: Call, name: DayName): string {
    name(DayAt(c.at))
  }

  function KeyOf(c: Call, name: DayName): Key {
    Key(c.feature, DayOfCall(c, name))
  }

  /** A missing feature decodes to the empty string, and that is shown as "unknown". */
  function FeatureName(feature: Option<string>): string {
    if feature.None? || feature.value == "" then "unknown" else feature.value
  }

  /** Does a group count for this feature and this day? None stands for all of them. */
  predicate KeyCounts(key: Key, f: Option<string>, d: Option<string>) {
    (f.None? || FeatureName(key.feature) == f.value) && (d.None? || key.day == d.value)
  }

  /** The spend of the calls since `lo` that count. */
  function Spend(name: DayName, calls: seq<Call>, lo: Instant, f: Option<string>, d: Option<string>): real {
    if calls == [] then 0.0
    else
      var c := calls[|calls| - 1];
      Spend(name, calls[..|calls| - 1], lo, f, d)
          + if c.at >= lo && KeyCounts(KeyOf(c, name), f, d) then c.cost else 0.0
  }

  /** The spend of one group. */
  function KeySpend(name: DayName, calls: seq<Call>, lo: Instant, key: Key): real {
    if calls == [] then 0.0
    else
      var c := calls[|calls| - 1];
      KeySpend(name, calls[..|calls| - 1], lo, key) + if c.at >= lo && KeyOf(c, name) == key then c.cost else 0.0
  }

  datatype Row = Row(key: Key, spend: real)

  ghost predicate DistinctKeys(rows: seq<Row>) {
    forall i, j | 0 <= i < j < |rows| :: rows[i].key != rows[j].key
  }

  ghost predicate HasKey(rows: seq<Row>, key: Key) {
    exists i :: 0 <= i < |rows| && rows[i].key == key
  }

  /** The answer of the grouping by feature and day: a row with its sum for exactly the groups with calls. */
  ghost predicate IsGrouping(name: DayName, rows: seq<Row>, calls: seq<Call>, lo: Instant) {
    && DistinctKeys(rows)
    && (forall i | 0 <= i < |rows| :: rows[i].spend == KeySpend(name, calls, lo, rows[i].key))
    && (forall i | 0 <= i < |rows| :: exists k ::
         0 <= k < |calls| && calls[k].at >= lo && KeyOf(calls[k], name) == rows[i].key)
    && (forall k | 0 <= k < |calls| && calls[k].at >= lo :: HasKey(rows, KeyOf(calls[k], name)))
  }

  function RowSum(rows: seq<Row>, f: Option<string>, d: Option<string>): real {
    if rows == [] then 0.0
    else
      var r := rows[|rows| - 1];
      RowSum(rows[..|rows| - 1], f, d) + if KeyCounts(r.key, f, d) then r.spend else 0.0
  }

  function KeySum(name: DayName, rows: seq<Row>, calls: seq<Call>, lo: Instant, f: Option<string>,
                  d: Option<string>): real
  {
    if rows == [] then 0.0
    else
      var r := rows[|rows| - 1];
      KeySum(name, rows[..|rows| - 1], calls, lo, f, d)
          + if KeyCounts(r.key, f, d) then KeySpend(name, calls, lo, r.key) else 0.0
  }

  lemma HasKeyStep(rows: seq<Row>, key: Key)
    requires rows != []
    ensures HasKey(rows, key) <==> HasKey(rows[..|rows| - 1], key) || rows[|rows| - 1].key == key
  {
    var n := |rows| - 1;
    if i :| 0 <= i < |rows| && rows[i].key == key { assert i == n || rows[..n][i].key == key; }
    if i :| 0 <= i < n && rows[..n][i].key == key { assert rows[i].key == key; }
  }

  lemma LastKeyIsNew(rows: seq<Row>)
    requires rows != [] && DistinctKeys(rows)
    ensures !HasKey(rows[..|rows| - 1], rows[|rows| - 1].key) && DistinctKeys(rows[..|rows| - 1])
  {
  }

  lemma KeySpendStep(name: DayName, calls: seq<Call>, lo: Instant, key: Key, own: Key)
    requires calls != [] && own == KeyOf(calls[|calls| - 1], name)
    ensures KeySpend(name, calls, lo, key) == KeySpend(name, calls[..|calls| - 1], lo, key)
              + if calls[|calls| - 1].at >= lo && own == key then calls[|calls| - 1].cost else 0.0
  {
  }

  /** One more call adds its cost to the sum over the groups exactly once, if its group is there and counts. */
  lemma {:induction false} OneMoreCall(name: DayName, rows: seq<Row>, calls: seq<Call>, own: Key, lo: Instant,
                                       f: Option<string>, d: Option<string>)
    requires calls != [] && DistinctKeys(rows) && own == KeyOf(calls[|calls| - 1], name)
    ensures KeySum(name, rows, calls, lo, f, d) == KeySum(name, rows, calls[..|calls| - 1], lo, f, d)
              + if calls[|calls| - 1].at >= lo && HasKey(rows, own)
                  && KeyCounts(own, f, d) then calls[|calls| - 1].cost else 0.0
    decreases |rows|
  {
    if rows != [] {
      OneMoreCall(name, rows[..|rows| - 1], calls, own, lo, f, d);
      HasKeyStep(rows, own);
      LastKeyIsNew(rows);
      KeySpendStep(name, calls, lo, rows[|rows| - 1].key, own);
    }
  }

  lemma {:induction false} NoCallsNoSum(name: DayName, rows: seq<Row>, lo: Instant, f: Option<string>,
                                        d: Option<string>)
    ensures KeySum(name, rows, [], lo, f, d) == 0.0
    decreases |rows|
  {
    if rows != [] { NoCallsNoSum(name, rows[..|rows| - 1], lo, f, d); }
  }

  lemma {:induction false} KeySumIsSpend(name: DayName, rows: seq<Row>, calls: seq<Call>, lo: Instant,
                                         f: Option<string>, d: Option<string>)
    requires DistinctKeys(rows) && forall k | 0 <= k < |calls| && calls[k].at >= lo ::
              HasKey(rows, KeyOf(calls[k], name))
    ensures KeySum(name, rows, calls, lo, f, d) == Spend(name, calls, lo, f, d)
    decreases |calls|
  {
    if calls == [] {
      NoCallsNoSum(name, rows, lo, f, d);
    } else {
      var n := |calls| - 1;
      KeySumIsSpend(name, rows, calls[..n], lo, f, d);
      OneMoreCall(name, rows, calls, KeyOf(calls[n], name), lo, f, d);
    }
  }

  lemma {:induction false} RowSumIsKeySum(name: DayName, rows: seq<Row>, calls: seq<Call>, lo: Instant,
                                          f: Option<string>, d: Option<string>)
    requires forall i | 0 <= i < |rows| :: rows[i].spend == KeySpend(name, calls, lo, rows[i].key)
    ensures RowSum(rows, f, d) == KeySum(name, rows, calls, lo, f, d)
    decreases |rows|
  {
    if rows != [] { RowSumIsKeySum(name, rows[..|rows| - 1], calls, lo, f, d); }
  }

  /** Summing the rows of the answer sums the calls, whatever the selection and the order. */
  lemma RowsSumToCalls(name: DayName, rows: seq<Row>, calls: seq<Call>, lo: Instant, f: Option<string>,
                       d: Option<string>)
    requires IsGrouping(name, rows, calls, lo)
    ensures RowSum(rows, f, d) == Spend(name, calls, lo, f, d)
  {
    RowSumIsKeySum(name, rows, calls, lo, f, d);
    KeySumIsSpend(name, rows, calls, lo, f, d);
  }

  /** The spend on one calendar day. */
  function DaySpend(calls: seq<Call>, f: Option<string>, n: int): real {
    if calls == [] then 0.0
    else
      var c := calls[|calls| - 1];
      DaySpend(calls[..|calls| - 1], f, n)
          + if DayAt(c.at) == n && (f.None? || FeatureName(c.feature) == f.value) then c.cost else 0.0
  }

  /** A call adds its cost to its own day and feature, and one without a feature to "unknown". */
  lemma OneCallIsSpent(calls: seq<Call>, c: Call, f: string, n: int)
    ensures var own := n * DAY <= c.at < n * DAY + DAY
                       && ((c.feature == Some(f) && f != "")
                           || (f == "unknown" && (c.feature == None || c.feature == Some(""))));
            DaySpend(calls + [c], Some(f), n) == DaySpend(calls, Some(f), n) + if own then c.cost else 0.0
    ensures DaySpend(calls + [c], None, n) ==
            DaySpend(calls, None, n) + if n * DAY <= c.at < n * DAY + DAY then c.cost else 0.0
  {
    assert (calls + [c])[..|calls|] == calls;
    DayBounds(c.at);
  }

  /** Grouping by the day's name is grouping by the day. */
  lemma {:induction false} SpendOfDay(name: DayName, calls: seq<Call>, lo: Instant, f: Option<string>, n: int)
    requires Injective(name) && lo <= n * DAY
    ensures Spend(name, calls, lo, f, Some(name(n))) == DaySpend(calls, f, n)
    decreases |calls|
  {
    if calls != [] {
      var c := calls[|calls| - 1];
      SpendOfDay(name, calls[..|calls| - 1], lo, f, n);
      DayBounds(c.at);
      assert name(DayAt(c.at)) == name(n) <==> DayAt(c.at) == n;
    }
  }
}
