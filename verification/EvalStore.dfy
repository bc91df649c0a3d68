/**
 * The cases array of a stored eval run. `UpsertCase` is two store statements, each atomic:
 * replace the element with this id in place, or else push the element unless the id has
 * appeared in between. Workers run these pairs concurrently.
 */
module EvalStore {
  import opened Options

  datatype CaseStatus = Pending | Success | Failed

  datatype CaseResult = CaseResult(
    caseId: string,
    status: CaseStatus,
    judgeScore: int,
    checksPassed: int,
    checksTotal: int,
    costUSD: real,
    outfitJson: string,
    error: string)

  type Cases = seq<CaseResult>

  predicate Present(cases: Cases, id: string) {
    exists k :: 0 <= k < |cases| && cases[k].caseId == id
  }

  /** The positional operator addresses the first matching element. */
  function FirstIndex(cases: Cases, id: string): (k: nat)
    requires Present(cases, id)
    ensures k < |cases| && cases[k].caseId == id
    ensures forall j | 0 <= j < k :: cases[j].caseId != id
  {
    if cases[0].caseId == id then 0
    else
      assert Present(cases[1..], id) by {
        var k :| 0 <= k < |cases| && cases[k].caseId == id;
        assert cases[1..][k - 1] == cases[k];
      }
      FirstIndex(cases[1..], id) + 1
  }

  /** What one whole upsert is meant to do. */
  function Upsert(cases: Cases, c: CaseResult): Cases {
    if Present(cases, c.caseId) then cases[FirstIndex(cases, c.caseId) := c] else cases + [c]
  }

  function UpsertAll(cases: Cases, cs: seq<CaseResult>): Cases {
    if cs == [] then cases else Upsert(UpsertAll(cases, cs[..|cs| - 1]), cs[|cs| - 1])
  }

  /** First statement: replace the matched element in place. */
  function SetStatement(cases: Cases, c: CaseResult): Cases
    requires Present(cases, c.caseId)
  {
    cases[FirstIndex(cases, c.caseId) := c]
  }

  /** Second statement: push, guarded by the absence of the id. */
  function PushStatement(cases: Cases, c: CaseResult): Cases {
    if Present(cases, c.caseId) then cases else cases + [c]
  }

  // ---- The stored document ----

  datatype RunStatus = RunPending | Processing | Completed | RunFailed

  datatype Aggregate = Aggregate(total: nat, completed: nat, passed: nat, avgJudgeScore: real, totalCostUSD: real)

  class EvalRunDoc {
    var cases: Cases
    var status: RunStatus
    var aggregate: Aggregate

    /** Filter on the id, set the matched element. */
    method SetInPlace(c: CaseResult) returns (matched: bool)
      modifies this`cases
      ensures matched <==> Present(old(cases), c.caseId)
      ensures cases == if matched then SetStatement(old(cases), c) else old(cases)
    {
      matched := exists k :: 0 <= k < |cases| && cases[k].caseId == c.caseId;
      if matched {
        cases := cases[FirstIndex(cases, c.caseId) := c];
      }
    }

    /** Filter on the absence of the id, push the element. */
    method PushGuarded(c: CaseResult)
      modifies this`cases
      ensures cases == PushStatement(old(cases), c)
    {
      if !exists k :: 0 <= k < |cases| && cases[k].caseId == c.caseId {
        cases := cases + [c];
      }
    }

    /** UpsertCase, running alone. */
    method UpsertCase(c: CaseResult)
      modifies this`cases
      ensures cases == Upsert(old(cases), c)
    {
      var matched := SetInPlace(c);
      if matched {
        return;
      }
      PushGuarded(c);
    }

    /** UpdateProgress writes the status and the aggregate, and never the cases. */
    method UpdateProgress(status: RunStatus, aggregate: Aggregate)
      modifies this`status, this`aggregate
      ensures this.status == status && this.aggregate == aggregate
    {
      this.status, this.aggregate := status, aggregate;
    }
  }

  // ---- Concurrent calls, one statement at a time ----

  /** A call has not begun, has found no element to set, has returned, or has returned an error. */
  datatype Phase = NotStarted | Missed | Done | Errored

  datatype Call = Call(c: CaseResult, phase: Phase)

  datatype Sys = Sys(cases: Cases, calls: seq<Call>)

  /** The scheduler picks a call and whether its next statement succeeds. */
  datatype Event = Event(i: nat, ok: bool)

  function With(s: Sys, i: nat, phase: Phase, cases: Cases): Sys
    requires i < |s.calls|
  {
    Sys(cases, s.calls[i := Call(s.calls[i].c, phase)])
  }

  /** One atomic statement. A call that has returned, or does not exist, takes no step. */
  function Next(s: Sys, e: Event): Sys {
    if e.i >= |s.calls| then s
    else
      var c := s.calls[e.i].c;
      match s.calls[e.i].phase
      case NotStarted =>
        if !e.ok then With(s, e.i, Errored, s.cases)
        else if Present(s.cases, c.caseId) then With(s, e.i, Done, SetStatement(s.cases, c))
        else With(s, e.i, Missed, s.cases)
      case Missed =>
        if !e.ok then With(s, e.i, Errored, s.cases)
        else With(s, e.i, Done, PushStatement(s.cases, c))
      case _ => s
  }

  function Run(s: Sys, schedule: seq<Event>): Sys {
    if schedule == [] then s else Next(Run(s, schedule[..|schedule| - 1]), schedule[|schedule| - 1])
  }

  predicate Initial(s: Sys) {
    forall i | 0 <= i < |s.calls| :: s.calls[i].phase == NotStarted
  }

  // ---- Every run is equivalent to whole upserts, one after the other ----

  /** The calls below `n` that missed this id: the push of a competitor decides them all. */
  function Waiting(s: Sys, id: string, but: nat, n: nat): seq<nat>
    requires n <= |s.calls|
  {
    if n == 0 then []
    else
      Waiting(s, id, but, n - 1)
      + if n - 1 != but && s.calls[n - 1].phase == Missed && s.calls[n - 1].c.caseId == id then [n - 1] else []
  }

  /** The calls that take effect at this event, in order. */
  function Effects(s: Sys, e: Event): seq<nat> {
    if e.i >= |s.calls| || !e.ok then []
    else
      var c := s.calls[e.i].c;
      match s.calls[e.i].phase
      case NotStarted => if Present(s.cases, c.caseId) then [e.i] else []
      case Missed => if Present(s.cases, c.caseId) then [] else Waiting(s, c.caseId, e.i, |s.calls|) + [e.i]
      case _ => []
  }

  /** The order in which the calls of a run take effect. */
  function Linearization(s: Sys, schedule: seq<Event>): seq<nat> {
    if schedule == [] then []
    else
      var init := schedule[..|schedule| - 1];
      Linearization(s, init) + Effects(Run(s, init), schedule[|schedule| - 1])
  }

  function ResultsOf(calls: seq<Call>, order: seq<nat>): seq<CaseResult>
    requires forall i | i in order :: i < |calls|
  {
    seq(|order|, k requires 0 <= k < |order| => assert order[k] in order; calls[order[k]].c)
  }

  ghost predicate NoRepeats(order: seq<nat>) {
    forall a, b | 0 <= a < b < |order| :: order[a] != order[b]
  }

  /** What every event keeps: the array is the upserts of `log` in order, and who is in `log`. */
  ghost predicate Inv(s0: Sys, s: Sys, log: seq<nat>) {
    && |s.calls| == |s0.calls|
    && (forall i | 0 <= i < |s.calls| :: s.calls[i].c == s0.calls[i].c)
    && (forall i | i in log :: i < |s.calls|)
    && NoRepeats(log)
    && s.cases == UpsertAll(s0.cases, ResultsOf(s0.calls, log))
    && (forall i | 0 <= i < |s.calls| :: CallInv(s, i, log))
  }

  ghost predicate CallInv(s: Sys, i: nat, log: seq<nat>)
    requires i < |s.calls|
  {
    match s.calls[i].phase
    case NotStarted => i !in log
    case Missed => i in log <==> Present(s.cases, s.calls[i].c.caseId)
    case Done => i in log && Present(s.cases, s.calls[i].c.caseId)
    case Errored => true
  }

  lemma PresentUpsert(cases: Cases, c: CaseResult, id: string)
    ensures Present(Upsert(cases, c), id) <==> Present(cases, id) || id == c.caseId
  {
    var after := Upsert(cases, c);
    if Present(cases, id) {
      var k :| 0 <= k < |cases| && cases[k].caseId == id;
      assert after[k].caseId == id;
    }
    if Present(cases, c.caseId) {
      assert after[FirstIndex(cases, c.caseId)].caseId == c.caseId;
    } else {
      assert after[|cases|].caseId == c.caseId;
    }
    if Present(after, id) && id != c.caseId {
      var k :| 0 <= k < |after| && after[k].caseId == id;
      assert k < |cases| && cases[k].caseId == id;
    }
  }

  /** The second of two upserts of one id is the only one that shows. */
  lemma UpsertTwice(cases: Cases, a: CaseResult, b: CaseResult)
    requires a.caseId == b.caseId
    ensures Upsert(Upsert(cases, a), b) == Upsert(cases, b)
  {
    var mid := Upsert(cases, a);
    PresentUpsert(cases, a, b.caseId);
    var k := FirstIndex(mid, b.caseId);
    if Present(cases, a.caseId) {
      var j := FirstIndex(cases, a.caseId);
      assert mid[j].caseId == b.caseId;
      assert k == j;
    } else {
      assert forall j | 0 <= j < |cases| :: cases[j].caseId != a.caseId;
      assert k == |cases|;
    }
  }

  lemma {:induction false} UpsertAllConcat(cases: Cases, xs: seq<CaseResult>, ys: seq<CaseResult>)
    ensures UpsertAll(cases, xs + ys) == UpsertAll(UpsertAll(cases, xs), ys)
    decreases |ys|
  {
    if ys == [] {
      assert xs + ys == xs;
    } else {
      var n := |ys| - 1;
      assert (xs + ys)[..|xs + ys| - 1] == xs + ys[..n];
      UpsertAllConcat(cases, xs, ys[..n]);
    }
  }

  /** Any number of upserts of one id, then one more of the same id. */
  lemma {:induction false} OvertakenUpserts(cases: Cases, xs: seq<CaseResult>, c: CaseResult)
    requires forall x | x in xs :: x.caseId == c.caseId
    ensures UpsertAll(cases, xs + [c]) == Upsert(cases, c)
    decreases |xs|
  {
    assert (xs + [c])[..|xs|] == xs;
    if xs != [] {
      var n := |xs| - 1;
      var x := xs[n];
      assert x in xs;
      assert xs == xs[..n] + [x];
      OvertakenUpserts(cases, xs[..n], x);
      UpsertTwice(cases, x, c);
    }
  }

  lemma {:induction false} WaitingMembers(s: Sys, id: string, but: nat, n: nat)
    requires n <= |s.calls|
    ensures forall i: nat :: i in Waiting(s, id, but, n) <==>
              i < n && i != but && s.calls[i].phase == Missed && s.calls[i].c.caseId == id
    ensures NoRepeats(Waiting(s, id, but, n))
    decreases n
  {
    if n > 0 {
      WaitingMembers(s, id, but, n - 1);
      var w := Waiting(s, id, but, n - 1);
      forall a | 0 <= a < |w|
        ensures w[a] < n - 1
      {
        assert w[a] in w;
      }
    }
  }

  lemma ResultsOfConcat(calls: seq<Call>, xs: seq<nat>, ys: seq<nat>)
    requires forall i | i in xs + ys :: i < |calls|
    ensures (forall i | i in xs :: i < |calls|) && (forall i | i in ys :: i < |calls|)
    ensures ResultsOf(calls, xs + ys) == ResultsOf(calls, xs) + ResultsOf(calls, ys)
  {
    assert forall i :: i in xs ==> i in xs + ys;
    assert forall i :: i in ys ==> i in xs + ys;
  }

  /** The array after the event is the array before it with the effects of the event applied. */
  lemma EffectsApplied(s: Sys, e: Event)
    ensures forall i | i in Effects(s, e) :: i < |s.calls|
    ensures Next(s, e).cases == UpsertAll(s.cases, ResultsOf(s.calls, Effects(s, e)))
  {
    var eff := Effects(s, e);
    if eff != [] {
      var c := s.calls[e.i].c;
      if s.calls[e.i].phase == Missed {
        var w := Waiting(s, c.caseId, e.i, |s.calls|);
        WaitingMembers(s, c.caseId, e.i, |s.calls|);
        var rs := ResultsOf(s.calls, w);
        ResultsOfConcat(s.calls, w, [e.i]);
        assert ResultsOf(s.calls, [e.i]) == [c];
        forall x | x in rs
          ensures x.caseId == c.caseId
        {
          var k :| 0 <= k < |rs| && rs[k] == x;
          assert w[k] in w;
        }
        OvertakenUpserts(s.cases, rs, c);
      } else {
        assert ResultsOf(s.calls, eff) == [c];
        assert UpsertAll(s.cases, [c]) == Upsert(UpsertAll(s.cases, [c][..0]), c);
      }
    }
  }

  /** Which ids the event makes present. */
  lemma PresentNext(s: Sys, e: Event, id: string)
    ensures Present(s.cases, id) ==> Present(Next(s, e).cases, id)
    ensures Present(Next(s, e).cases, id) && !Present(s.cases, id) ==>
              e.i < |s.calls| && e.ok && s.calls[e.i].phase == Missed && id == s.calls[e.i].c.caseId
    ensures e.i < |s.calls| && Effects(s, e) != [] ==> Present(Next(s, e).cases, s.calls[e.i].c.caseId)
  {
    if e.i < |s.calls| {
      PresentUpsert(s.cases, s.calls[e.i].c, id);
      PresentUpsert(s.cases, s.calls[e.i].c, s.calls[e.i].c.caseId);
    }
  }

  lemma EffectsAreNew(s0: Sys, s: Sys, log: seq<nat>, e: Event)
    requires Inv(s0, s, log)
    ensures NoRepeats(log + Effects(s, e))
  {
    if e.i < |s.calls| {
      WaitingMembers(s, s.calls[e.i].c.caseId, e.i, |s.calls|);
      assert CallInv(s, e.i, log);
      forall k | 0 <= k < |Effects(s, e)|
        ensures Effects(s, e)[k] !in log
      {
        var i := Effects(s, e)[k];
        assert i in Effects(s, e);
        assert i < |s.calls| && CallInv(s, i, log);
      }
    }
  }

  lemma CallInvNext(s0: Sys, s: Sys, log: seq<nat>, e: Event, i: nat)
    requires Inv(s0, s, log) && i < |s.calls|
    ensures CallInv(Next(s, e), i, log + Effects(s, e))
  {
    assert CallInv(s, i, log);
    var id := s.calls[i].c.caseId;
    PresentNext(s, e, id);
    if e.i < |s.calls| {
      WaitingMembers(s, s.calls[e.i].c.caseId, e.i, |s.calls|);
      assert CallInv(s, e.i, log);
      assert forall k :: k in log + Effects(s, e) <==> k in log || k in Effects(s, e);
    }
  }

  lemma SameResults(s0: Sys, s: Sys, order: seq<nat>)
    requires |s0.calls| == |s.calls|
    requires forall i | 0 <= i < |s.calls| :: s.calls[i].c == s0.calls[i].c
    requires forall i | i in order :: i < |s.calls|
    ensures ResultsOf(s0.calls, order) == ResultsOf(s.calls, order)
  {
    forall k | 0 <= k < |order|
      ensures ResultsOf(s0.calls, order)[k] == ResultsOf(s.calls, order)[k]
    {
      assert order[k] in order;
    }
  }

  lemma InvNext(s0: Sys, s: Sys, log: seq<nat>, e: Event)
    requires Inv(s0, s, log)
    ensures Inv(s0, Next(s, e), log + Effects(s, e))
  {
    var eff := Effects(s, e);
    EffectsAreNew(s0, s, log, e);
    forall i | 0 <= i < |s.calls|
      ensures CallInv(Next(s, e), i, log + eff)
    {
      CallInvNext(s0, s, log, e, i);
    }
    ArrayNext(s0, s, log, e);
  }

  lemma ArrayNext(s0: Sys, s: Sys, log: seq<nat>, e: Event)
    requires Inv(s0, s, log)
    ensures forall i | i in log + Effects(s, e) :: i < |s0.calls|
    ensures Next(s, e).cases == UpsertAll(s0.cases, ResultsOf(s0.calls, log + Effects(s, e)))
  {
    var eff := Effects(s, e);
    EffectsApplied(s, e);
    assert forall i | i in log + eff :: i < |s.calls|;
    ResultsOfConcat(s0.calls, log, eff);
    SameResults(s0, s, eff);
    UpsertAllConcat(s0.cases, ResultsOf(s0.calls, log), ResultsOf(s0.calls, eff));
  }

  lemma {:induction false} InvRun(s: Sys, schedule: seq<Event>)
    requires Initial(s)
    ensures Inv(s, Run(s, schedule), Linearization(s, schedule))
    decreases |schedule|
  {
    if schedule != [] {
      var n := |schedule| - 1;
      InvRun(s, schedule[..n]);
      InvNext(s, Run(s, schedule[..n]), Linearization(s, schedule[..n]), schedule[n]);
    } else {
      assert s.cases == UpsertAll(s.cases, ResultsOf(s.calls, []));
    }
  }

  /**
   * Linearizability: in every interleaving the array is what whole upserts, one after the other,
   * would have left, in an order that takes each call at most once, takes every call that has
   * returned, and takes no call that has not begun.
   */
  lemma UpsertsAreLinearizable(s: Sys, schedule: seq<Event>)
    requires Initial(s)
    ensures forall i | i in Linearization(s, schedule) :: i < |s.calls|
    ensures Run(s, schedule).cases == UpsertAll(s.cases, ResultsOf(s.calls, Linearization(s, schedule)))
    ensures NoRepeats(Linearization(s, schedule))
    ensures |Run(s, schedule).calls| == |s.calls|
    ensures forall i | 0 <= i < |s.calls| ::
              && (Run(s, schedule).calls[i].phase == Done ==> i in Linearization(s, schedule))
              && (Run(s, schedule).calls[i].phase == NotStarted ==> i !in Linearization(s, schedule))
  {
    InvRun(s, schedule);
    forall i | 0 <= i < |s.calls|
      ensures Run(s, schedule).calls[i].phase == Done ==> i in Linearization(s, schedule)
      ensures Run(s, schedule).calls[i].phase == NotStarted ==> i !in Linearization(s, schedule)
    {
      assert CallInv(Run(s, schedule), i, Linearization(s, schedule));
    }
  }

  /**
   * The order respects real time: what took effect in an earlier part of the run comes first.
   * A call that had returned by then is in that part, one that had not begun is not.
   */
  lemma {:induction false} LinearizationRespectsTime(s: Sys, schedule: seq<Event>, k: nat)
    requires Initial(s) && k <= |schedule|
    ensures Linearization(s, schedule[..k]) <= Linearization(s, schedule)
    decreases |schedule|
  {
    var n := |schedule| - 1;
    if k == |schedule| {
      assert schedule[..k] == schedule;
    } else {
      assert schedule[..n][..k] == schedule[..k];
      LinearizationRespectsTime(s, schedule[..n], k);
    }
  }

  // ---- What that means for the array ----

  ghost predicate DistinctIds(cases: Cases) {
    forall a, b | 0 <= a < b < |cases| :: cases[a].caseId != cases[b].caseId
  }

  function EntryOf(cases: Cases, id: string): Option<CaseResult> {
    if Present(cases, id) then Some(cases[FirstIndex(cases, id)]) else None
  }

  function LastFor(cs: seq<CaseResult>, id: string): Option<CaseResult> {
    if cs == [] then None
    else if cs[|cs| - 1].caseId == id then Some(cs[|cs| - 1])
    else LastFor(cs[..|cs| - 1], id)
  }

  lemma UpsertKeeps(cases: Cases, c: CaseResult, id: string)
    requires DistinctIds(cases)
    ensures DistinctIds(Upsert(cases, c))
    ensures EntryOf(Upsert(cases, c), id) == if id == c.caseId then Some(c) else EntryOf(cases, id)
  {
    var after := Upsert(cases, c);
    assert forall k | 0 <= k < |cases| :: after[k].caseId == cases[k].caseId;
    if !Present(cases, c.caseId) {
      assert forall k | 0 <= k < |cases| :: cases[k].caseId != c.caseId;
    }
    assert DistinctIds(after);
    PresentUpsert(cases, c, id);
    if Present(after, id) {
      var k := FirstIndex(after, id);
      if id == c.caseId {
        if Present(cases, id) { assert after[FirstIndex(cases, id)] == c; } else { assert after[|cases|] == c; }
      } else {
        assert after[FirstIndex(cases, id)].caseId == id;
      }
    }
  }

  lemma {:induction false} UpsertAllKeeps(cases: Cases, cs: seq<CaseResult>, id: string)
    requires DistinctIds(cases)
    ensures DistinctIds(UpsertAll(cases, cs))
    ensures EntryOf(UpsertAll(cases, cs), id) ==
            if LastFor(cs, id).Some? then LastFor(cs, id) else EntryOf(cases, id)
    ensures |cases| <= |UpsertAll(cases, cs)|
    ensures forall k | 0 <= k < |cases| :: UpsertAll(cases, cs)[k].caseId == cases[k].caseId
    decreases |cs|
  {
    if cs != [] {
      var n := |cs| - 1;
      UpsertAllKeeps(cases, cs[..n], id);
      UpsertKeeps(UpsertAll(cases, cs[..n]), cs[n], id);
    }
  }

  /**
   * In every interleaving a duplicate-free array stays duplicate-free, no id is lost or moved,
   * the entry of each id is the result of the call on that id that took effect last, or the
   * entry it had, and a returned call's id is there.
   */
  lemma ConcurrentUpsertsKeepTheArray(s: Sys, schedule: seq<Event>, id: string)
    requires Initial(s) && DistinctIds(s.cases)
    ensures DistinctIds(Run(s, schedule).cases)
    ensures |s.cases| <= |Run(s, schedule).cases|
    ensures forall k | 0 <= k < |s.cases| :: Run(s, schedule).cases[k].caseId == s.cases[k].caseId
    ensures forall i | i in Linearization(s, schedule) :: i < |s.calls|
    ensures EntryOf(Run(s, schedule).cases, id) ==
            var last := LastFor(ResultsOf(s.calls, Linearization(s, schedule)), id);
            if last.Some? then last else EntryOf(s.cases, id)
    ensures forall i | 0 <= i < |Run(s, schedule).calls| && Run(s, schedule).calls[i].phase == Done ::
              Present(Run(s, schedule).cases, Run(s, schedule).calls[i].c.caseId)
  {
    InvRun(s, schedule);
    UpsertAllKeeps(s.cases, ResultsOf(s.calls, Linearization(s, schedule)), id);
    forall i | 0 <= i < |Run(s, schedule).calls| && Run(s, schedule).calls[i].phase == Done
      ensures Present(Run(s, schedule).cases, Run(s, schedule).calls[i].c.caseId)
    {
      assert CallInv(Run(s, schedule), i, Linearization(s, schedule));
    }
  }

  lemma {:induction false} LastForSingle(cs: seq<CaseResult>, k: nat)
    requires k < |cs| && forall j | 0 <= j < |cs| && cs[j].caseId == cs[k].caseId :: j == k
    ensures LastFor(cs, cs[k].caseId) == Some(cs[k])
    decreases |cs|
  {
    if k < |cs| - 1 {
      LastForSingle(cs[..|cs| - 1], k);
    }
  }

  /** An id that a single call writes ends with that call's result once the call has returned. */
  lemma SingleWriterWins(s: Sys, schedule: seq<Event>, i: nat)
    requires Initial(s) && DistinctIds(s.cases) && i < |s.calls|
    requires forall j | 0 <= j < |s.calls| && s.calls[j].c.caseId == s.calls[i].c.caseId :: j == i
    requires |Run(s, schedule).calls| == |s.calls| && Run(s, schedule).calls[i].phase == Done
    ensures EntryOf(Run(s, schedule).cases, s.calls[i].c.caseId) == Some(s.calls[i].c)
  {
    ConcurrentUpsertsKeepTheArray(s, schedule, s.calls[i].c.caseId);
    UpsertsAreLinearizable(s, schedule);
    var order := Linearization(s, schedule);
    var rs := ResultsOf(s.calls, order);
    var k :| 0 <= k < |order| && order[k] == i;
    forall j | 0 <= j < |rs| && rs[j].caseId == rs[k].caseId
      ensures j == k
    {
      assert order[j] in order;
    }
    LastForSingle(rs, k);
  }
}
