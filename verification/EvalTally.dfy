/**
 * What one eval case contributes to a run: the result of its body, the counters kept under the
 * run's mutex, and the aggregate computed from them. Costs and averages are reals.
 */
module EvalTally {
  import opened Options
  import opened EvalStore
  import opened Counting

  /** What the generator and the judge return for one case. */
  datatype Generated = Generated(outfitJson: string, checksPassed: int, checksTotal: int, cost: real,
                                 err: Option<string>)
  datatype Judged = Judged(score: int, cost: real, err: Option<string>)

  /** The judge is asked only when there is one and the generator produced something. */
  predicate JudgeAsked(judgeOn: bool, gen: Generated) {
    gen.err.None? && judgeOn && gen.outfitJson != ""
  }

  function CaseError(judgeOn: bool, gen: Generated, judged: Judged): string {
    if gen.err.Some? then "generate: " + gen.err.value
    else if JudgeAsked(judgeOn, gen) && judged.err.Some? then "judge: " + judged.err.value
    else ""
  }

  /** The body of a worker, up to the lock. */
  function CaseBody(id: string, judgeOn: bool, gen: Generated, judged: Judged): (r: CaseResult)
    ensures r.caseId == id
    ensures r.status != Pending
    ensures r.status == Success <==> gen.err.None? && (JudgeAsked(judgeOn, gen) ==> judged.err.None?)
  {
    var asked := JudgeAsked(judgeOn, gen);
    var error := CaseError(judgeOn, gen, judged);
    CaseResult(
      id,
      if error == "" then Success else Failed,
      if asked && judged.err.None? then judged.score else 0,
      gen.checksPassed,
      gen.checksTotal,
      gen.cost + if asked then judged.cost else 0.0,
      gen.outfitJson,
      error)
  }

  /** What a case's result says of what the generator and the judge returned. */
  ghost predicate Reports(r: CaseResult, id: string, judgeOn: bool, gen: Generated, judged: Judged) {
    var asked := judgeOn && gen.err == None && gen.outfitJson != "";
    && r.caseId == id && r.outfitJson == gen.outfitJson
    && r.checksPassed == gen.checksPassed && r.checksTotal == gen.checksTotal
    && (asked ==> r.costUSD == gen.cost + judged.cost)
    && (!asked ==> r.costUSD == gen.cost)
    && (asked && judged.err == None ==> r.judgeScore == judged.score)
    && (!asked || judged.err.Some? ==> r.judgeScore == 0)
    && (gen.err.Some? ==> r.status == Failed && r.error == "generate: " + gen.err.value)
    && (asked && judged.err.Some? ==> r.status == Failed && r.error == "judge: " + judged.err.value)
    && (gen.err == None && !(asked && judged.err.Some?) ==> r.status == Success && r.error == "")
  }

  lemma CaseReports(id: string, judgeOn: bool, gen: Generated, judged: Judged)
    ensures Reports(CaseBody(id, judgeOn, gen, judged), id, judgeOn, gen, judged)
  {
  }

  /** All automated checks green, and a judge score of at least 4 when there is a judge. */
  predicate Passed(judgeOn: bool, r: CaseResult) {
    r.checksTotal > 0 && r.checksPassed == r.checksTotal && (!judgeOn || r.judgeScore >= 4)
  }

  datatype Counters = Counters(completed: nat, passed: nat, scoreSum: int, scoreCount: nat, costAcc: real)

  const ZERO: Counters := Counters(0, 0, 0, 0, 0.0)

  function Record(k: Counters, judgeOn: bool, r: CaseResult): Counters {
    Counters(
      k.completed + 1,
      k.passed + if Passed(judgeOn, r) then 1 else 0,
      k.scoreSum + if r.judgeScore > 0 then r.judgeScore else 0,
      k.scoreCount + if r.judgeScore > 0 then 1 else 0,
      k.costAcc + r.costUSD)
  }

  function Tally(judgeOn: bool, rs: seq<CaseResult>): Counters {
    if rs == [] then ZERO else Record(Tally(judgeOn, rs[..|rs| - 1]), judgeOn, rs[|rs| - 1])
  }

  function Mean(sum: int, count: nat): real
    requires count > 0
  {
    sum as real / count as real
  }

  function Snapshot(k: Counters, total: nat): Aggregate {
    Aggregate(total, k.completed, k.passed, if k.scoreCount > 0 then Mean(k.scoreSum, k.scoreCount) else 0.0, k.costAcc)
  }

  lemma {:induction false} TallyBounds(judgeOn: bool, rs: seq<CaseResult>)
    ensures Tally(judgeOn, rs).passed <= Tally(judgeOn, rs).completed == |rs|
    decreases |rs|
  {
    if rs != [] { TallyBounds(judgeOn, rs[..|rs| - 1]); }
  }

  // ---- What the figures mean ----

  /** The cases with all checks green and, when there is a judge, a score of at least 4. */
  ghost function GreenCases(judgeOn: bool, rs: seq<CaseResult>): set<nat> {
    set i | 0 <= i < |rs| && 0 < rs[i].checksTotal == rs[i].checksPassed && (judgeOn ==> 4 <= rs[i].judgeScore)
  }

  ghost function ScoredCases(rs: seq<CaseResult>): set<nat> {
    set i | 0 <= i < |rs| && 0 < rs[i].judgeScore
  }

  ghost function PositiveScores(rs: seq<CaseResult>): seq<real> {
    seq(|rs|, i requires 0 <= i < |rs| => if 0 < rs[i].judgeScore then rs[i].judgeScore as real else 0.0)
  }

  ghost function Costs(rs: seq<CaseResult>): seq<real> {
    seq(|rs|, i requires 0 <= i < |rs| => rs[i].costUSD)
  }

  /** The figures of an aggregate, said of the results themselves. */
  ghost predicate IsRollup(a: Aggregate, judgeOn: bool, rs: seq<CaseResult>, total: nat) {
    && a.total == total && a.completed == |rs|
    && a.passed == |GreenCases(judgeOn, rs)|
    && a.avgJudgeScore * (|ScoredCases(rs)| as real) == Sum(PositiveScores(rs))
    && (ScoredCases(rs) == {} ==> a.avgJudgeScore == 0.0)
    && a.totalCostUSD == Sum(Costs(rs))
  }

  lemma FiguresAppend(rs: seq<CaseResult>, r: CaseResult)
    ensures |ScoredCases(rs + [r])| == |ScoredCases(rs)| + if r.judgeScore > 0 then 1 else 0
    ensures Sum(PositiveScores(rs + [r]))
         == Sum(PositiveScores(rs)) + if r.judgeScore > 0 then r.judgeScore as real else 0.0
    ensures Sum(Costs(rs + [r])) == Sum(Costs(rs)) + r.costUSD
  {
    var n := |rs|;
    assert ScoredCases(rs + [r]) == ScoredCases(rs) + if r.judgeScore > 0 then {n} else {};
    var score := if r.judgeScore > 0 then r.judgeScore as real else 0.0;
    assert PositiveScores(rs + [r]) == PositiveScores(rs) + [score];
    SumAppend(PositiveScores(rs), score);
    assert Costs(rs + [r]) == Costs(rs) + [r.costUSD];
    SumAppend(Costs(rs), r.costUSD);
  }

  lemma GreenAppend(judgeOn: bool, rs: seq<CaseResult>, r: CaseResult)
    ensures |GreenCases(judgeOn, rs + [r])| == |GreenCases(judgeOn, rs)| + if Passed(judgeOn, r) then 1 else 0
  {
    var n := |rs|;
    assert GreenCases(judgeOn, rs + [r]) == GreenCases(judgeOn, rs) + if Passed(judgeOn, r) then {n} else {};
  }

  lemma {:induction false} TallyFigures(judgeOn: bool, rs: seq<CaseResult>)
    ensures var k := Tally(judgeOn, rs);
            && k.completed == |rs| && k.passed == |GreenCases(judgeOn, rs)| && k.scoreCount == |ScoredCases(rs)|
            && (k.scoreCount == 0 ==> k.scoreSum == 0)
            && k.scoreSum as real == Sum(PositiveScores(rs)) && k.costAcc == Sum(Costs(rs))
    decreases |rs|
  {
    if rs == [] {
      assert GreenCases(judgeOn, rs) == {} && ScoredCases(rs) == {};
    } else {
      var n := |rs| - 1;
      assert rs == rs[..n] + [rs[n]];
      TallyFigures(judgeOn, rs[..n]);
      FiguresAppend(rs[..n], rs[n]);
      GreenAppend(judgeOn, rs[..n], rs[n]);
    }
  }

  /** The snapshot of the counters has the figures of the results. */
  lemma SnapshotIsRollup(judgeOn: bool, rs: seq<CaseResult>, total: nat)
    ensures IsRollup(Snapshot(Tally(judgeOn, rs), total), judgeOn, rs, total)
  {
    TallyFigures(judgeOn, rs);
    SnapshotFigures(Tally(judgeOn, rs), judgeOn, rs, total);
  }

  lemma SnapshotFigures(k: Counters, judgeOn: bool, rs: seq<CaseResult>, total: nat)
    requires k.completed == |rs| && k.passed == |GreenCases(judgeOn, rs)| && k.costAcc == Sum(Costs(rs))
    requires k.scoreCount == |ScoredCases(rs)| && k.scoreSum as real == Sum(PositiveScores(rs))
    requires k.scoreCount == 0 ==> k.scoreSum == 0
    ensures IsRollup(Snapshot(k, total), judgeOn, rs, total)
  {
    AverageTimesCount(k, total);
  }

  lemma AverageTimesCount(k: Counters, total: nat)
    requires k.scoreCount == 0 ==> k.scoreSum == 0
    ensures Snapshot(k, total).avgJudgeScore * (k.scoreCount as real) == k.scoreSum as real
  {
    if k.scoreCount > 0 { MeanTimesCount(k.scoreSum, k.scoreCount); }
  }

  lemma MeanTimesCount(sum: int, count: nat)
    requires count > 0
    ensures Mean(sum, count) * (count as real) == sum as real
  {
  }

  // ---- The totals do not depend on the order of completion ----

  lemma TallyAppend(judgeOn: bool, rs: seq<CaseResult>, r: CaseResult)
    ensures Tally(judgeOn, rs + [r]) == Record(Tally(judgeOn, rs), judgeOn, r)
  {
    assert (rs + [r])[..|rs|] == rs;
  }

  lemma RecordCommutes(k: Counters, judgeOn: bool, a: CaseResult, b: CaseResult)
    ensures Record(Record(k, judgeOn, a), judgeOn, b) == Record(Record(k, judgeOn, b), judgeOn, a)
  {
  }

  /** Taking one result out and putting it last changes nothing. */
  lemma {:induction false} TallyMoveLast(judgeOn: bool, rs: seq<CaseResult>, j: nat)
    requires j < |rs|
    ensures Tally(judgeOn, rs) == Tally(judgeOn, rs[..j] + rs[j + 1..] + [rs[j]])
    decreases |rs|
  {
    var n := |rs| - 1;
    if j == n {
      assert rs[..j] + rs[j + 1..] + [rs[j]] == rs;
    } else {
      var init := rs[..n];
      var rest := init[..j] + init[j + 1..];
      assert rs == init + [rs[n]];
      assert rs[..j] + rs[j + 1..] == rest + [rs[n]];
      TallyMoveLast(judgeOn, init, j);
      TallyAppend(judgeOn, init, rs[n]);
      TallyAppend(judgeOn, rest, rs[j]);
      TallyAppend(judgeOn, rest, rs[n]);
      TallyAppend(judgeOn, rest + [rs[n]], rs[j]);
      RecordCommutes(Tally(judgeOn, rest), judgeOn, rs[j], rs[n]);
    }
  }

  lemma {:induction false} TallyIsOrderIndependent(judgeOn: bool, rs: seq<CaseResult>, qs: seq<CaseResult>)
    requires multiset(rs) == multiset(qs)
    ensures Tally(judgeOn, rs) == Tally(judgeOn, qs)
    decreases |rs|
  {
    if rs == [] {
      assert |multiset(qs)| == 0;
      assert qs == [];
    } else {
      var n := |rs| - 1;
      assert rs == rs[..n] + [rs[n]];
      assert rs[n] in multiset(rs);
      var j :| 0 <= j < |qs| && qs[j] == rs[n];
      var rest := qs[..j] + qs[j + 1..];
      assert qs == qs[..j] + [qs[j]] + qs[j + 1..];
      assert multiset(rest) == multiset(qs) - multiset{qs[j]};
      assert multiset(rs[..n]) == multiset(rs) - multiset{rs[n]};
      TallyIsOrderIndependent(judgeOn, rs[..n], rest);
      TallyMoveLast(judgeOn, qs, j);
      TallyAppend(judgeOn, rest, qs[j]);
    }
  }

  // ---- The section under the lock ----

  /** The variables the workers share under the run's mutex. */
  class Board {
    var completed: nat
    var passed: nat
    var scoreSum: int
    var scoreCount: nat
    var costAcc: real
    var landed: seq<CaseResult>

    constructor ()
      ensures Valid(true) && Valid(false) && landed == []
    {
      completed, passed, scoreSum, scoreCount, costAcc := 0, 0, 0, 0, 0.0;
      landed := [];
    }

    function Totals(): Counters
      reads this
    {
      Counters(completed, passed, scoreSum, scoreCount, costAcc)
    }

    /** The counters are the totals of the results that have landed. */
    ghost predicate Valid(judgeOn: bool)
      reads this
    {
      Totals() == Tally(judgeOn, landed)
    }

    /** The statements between Lock and Unlock. */
    method Count(r: CaseResult, judgeOn: bool, total: nat) returns (snap: Aggregate)
      modifies this
      ensures Totals() == Record(old(Totals()), judgeOn, r) && landed == old(landed) + [r]
      ensures snap == Snapshot(Totals(), total)
    {
      completed := completed + 1;
      landed := landed + [r];
      if r.judgeScore > 0 {
        scoreSum := scoreSum + r.judgeScore;
        scoreCount := scoreCount + 1;
      }
      if r.checksTotal > 0 && r.checksPassed == r.checksTotal {
        if !judgeOn || r.judgeScore >= 4 {
          passed := passed + 1;
        }
      }
      costAcc := costAcc + r.costUSD;
      snap := Aggregate(total, completed, passed, 0.0, costAcc);
      if scoreCount > 0 {
        snap := snap.(avgJudgeScore := Mean(scoreSum, scoreCount));
      }
    }

    /** A result lands: the snapshot taken under the lock is the rollup of all that have landed. */
    method Land(r: CaseResult, judgeOn: bool, total: nat) returns (snap: Aggregate)
      requires Valid(judgeOn)
      modifies this
      ensures Valid(judgeOn) && landed == old(landed) + [r]
      ensures snap == Snapshot(Tally(judgeOn, landed), total) && IsRollup(snap, judgeOn, landed, total)
    {
      TallyAppend(judgeOn, landed, r);
      SnapshotIsRollup(judgeOn, landed + [r], total);
      snap := Count(r, judgeOn, total);
    }
  }
}
