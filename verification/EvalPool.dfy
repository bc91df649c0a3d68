/**
 * One eval run as a state machine. The main goroutine spawns a worker per case behind a
 * semaphore of five; a worker computes its result, lands it under the mutex, upserts its case
 * (two store statements), writes the progress, releases the semaphore and signs off; the main
 * goroutine waits for all and finalizes. The scheduler picks every step, and every store
 * statement may fail.
 */
module EvalPool {
  import opened Options
  import opened EvalStore
  import opened EvalTally

  const PARALLELISM: nat := 5

  datatype Pc = Unspawned | Running | Landed | SetMissed | Upserted | Leaving | Released | Exited

  /** `stored` remembers whether the upsert took effect. */
  datatype Worker = Worker(pc: Pc, result: Option<CaseResult>, snap: Aggregate, stored: bool)

  datatype Main = Starting | Spawning | Finished(written: bool)

  /** `landed` lists the results as they landed; `order` remembers which workers landed them. */
  datatype Pool = Pool(
    ids: seq<string>,
    judgeOn: bool,
    main: Main,
    next: nat,
    sem: nat,
    workers: seq<Worker>,
    counters: Counters,
    landed: seq<CaseResult>,
    order: seq<nat>,
    cases: Cases,
    status: RunStatus,
    aggregate: Aggregate)

  datatype Event =
    | MarkProcessing(ok: bool)
    | Spawn
    | Land(i: nat, gen: Generated, judged: Judged)
    | Panic(i: nat)
    | SetStep(i: nat, ok: bool)
    | PushStep(i: nat, ok: bool)
    | Progress(i: nat, ok: bool)
    | Release(i: nat)
    | Exit(i: nat)
    | Finalize(ok: bool)

  function PendingCase(id: string): CaseResult {
    CaseResult(id, Pending, 0, 0, 0, 0.0, "", "")
  }

  function EmptyAggregate(total: nat): Aggregate {
    Aggregate(total, 0, 0, 0.0, 0.0)
  }

  /** The row that Start creates, and the goroutine about to run it. */
  function Created(ids: seq<string>, judgeOn: bool): Pool {
    Pool(ids, judgeOn, Starting, 0, 0,
         seq(|ids|, i => Worker(Unspawned, None, EmptyAggregate(0), false)),
         ZERO, [], [],
         seq(|ids|, i requires 0 <= i < |ids| => PendingCase(ids[i])),
         RunPending, EmptyAggregate(|ids|))
  }

  predicate AllExited(p: Pool) {
    forall i | 0 <= i < |p.workers| :: p.workers[i].pc == Exited
  }

  /** Is the step possible now? */
  predicate Enabled(p: Pool, e: Event) {
    match e
    case MarkProcessing(_) => p.main == Starting
    case Spawn => p.main == Spawning && p.next < |p.workers| && p.sem < PARALLELISM
    case Land(i, _, _) => i < |p.workers| && i < |p.ids| && p.workers[i].pc == Running
    case Panic(i) => i < |p.workers| && p.workers[i].pc == Running
    case SetStep(i, _) => i < |p.workers| && p.workers[i].pc == Landed && p.workers[i].result.Some?
    case PushStep(i, _) => i < |p.workers| && p.workers[i].pc == SetMissed && p.workers[i].result.Some?
    case Progress(i, _) => i < |p.workers| && p.workers[i].pc == Upserted
    case Release(i) => i < |p.workers| && p.workers[i].pc == Leaving && p.sem > 0
    case Exit(i) => i < |p.workers| && p.workers[i].pc == Released
    case Finalize(_) => p.main == Spawning && p.next == |p.workers| && AllExited(p)
  }

  function Move(p: Pool, i: nat, w: Worker): Pool
    requires i < |p.workers|
  {
    p.(workers := p.workers[i := w])
  }

  function Apply(p: Pool, e: Event): Pool
    requires Enabled(p, e)
  {
    match e
    case MarkProcessing(ok) =>
      if ok then p.(main := Spawning, status := Processing, aggregate := EmptyAggregate(|p.ids|))
      else p.(main := Spawning)
    case Spawn =>
      Move(p, p.next, p.workers[p.next].(pc := Running)).(next := p.next + 1, sem := p.sem + 1)
    case Land(i, gen, judged) =>
      var r := CaseBody(p.ids[i], p.judgeOn, gen, judged);
      var k := Record(p.counters, p.judgeOn, r);
      Move(p, i, Worker(Landed, Some(r), Snapshot(k, |p.ids|), false))
      .(counters := k, landed := p.landed + [r], order := p.order + [i])
    case Panic(i) =>
      Move(p, i, p.workers[i].(pc := Leaving))
    case SetStep(i, ok) =>
      var r := p.workers[i].result.value;
      if !ok then Move(p, i, p.workers[i].(pc := Upserted))
      else if Present(p.cases, r.caseId) then
        Move(p, i, p.workers[i].(pc := Upserted, stored := true)).(cases := SetStatement(p.cases, r))
      else Move(p, i, p.workers[i].(pc := SetMissed))
    case PushStep(i, ok) =>
      var r := p.workers[i].result.value;
      if !ok then Move(p, i, p.workers[i].(pc := Upserted))
      else Move(p, i, p.workers[i].(pc := Upserted, stored := true)).(cases := PushStatement(p.cases, r))
    case Progress(i, ok) =>
      var q := Move(p, i, p.workers[i].(pc := Leaving));
      if ok then q.(status := Processing, aggregate := p.workers[i].snap) else q
    case Release(i) =>
      Move(p, i, p.workers[i].(pc := Released)).(sem := p.sem - 1)
    case Exit(i) =>
      Move(p, i, p.workers[i].(pc := Exited))
    case Finalize(ok) =>
      if ok then p.(main := Finished(true), status := Completed, aggregate := Snapshot(p.counters, |p.ids|))
      else p.(main := Finished(false))
  }

  function Next(p: Pool, e: Event): Pool {
    if Enabled(p, e) then Apply(p, e) else p
  }

  /** Any schedule: events that are not possible when their turn comes do nothing. */
  function Run(p: Pool, schedule: seq<Event>): Pool {
    if schedule == [] then p else Next(Run(p, schedule[..|schedule| - 1]), schedule[|schedule| - 1])
  }

  // ---- What every step keeps ----

  predicate HoldsSlot(w: Worker) {
    w.pc.Running? || w.pc.Landed? || w.pc.SetMissed? || w.pc.Upserted? || w.pc.Leaving?
  }

  /** The cases in flight: spawned and not yet off the semaphore. */
  function InFlight(workers: seq<Worker>): set<nat> {
    set i | 0 <= i < |workers| && HoldsSlot(workers[i])
  }

  ghost predicate Unique(ids: seq<string>, i: nat)
    requires i < |ids|
  {
    forall j | 0 <= j < |ids| && ids[j] == ids[i] :: j == i
  }

  /** An earlier tuple has the same id. */
  ghost predicate Shadowed(ids: seq<string>, i: nat)
    requires i < |ids|
  {
    exists j :: 0 <= j < i && ids[j] == ids[i]
  }

  /** `a` is the rollup of some first completions. */
  ghost predicate IsSnapshot(p: Pool, a: Aggregate) {
    exists k :: 0 <= k <= |p.landed| && a == PrefixSnapshot(p, k)
  }

  function PrefixSnapshot(p: Pool, k: nat): Aggregate
    requires k <= |p.landed|
  {
    Snapshot(Tally(p.judgeOn, p.landed[..k]), |p.ids|)
  }

  ghost predicate PcInv(p: Pool, i: nat)
    requires i < |p.workers| && i < |p.ids|
  {
    var w := p.workers[i];
    && (w.pc == Unspawned <==> i >= p.next)
    && (w.pc == Unspawned || w.pc == Running ==> w.result.None?)
    && (w.pc == Landed || w.pc == Upserted ==> w.result.Some?)
    && w.pc != SetMissed
    && (w.pc == Landed ==> !w.stored)
    && (w.stored ==> w.result.Some?)
    && (w.result.Some? ==> w.result.value.caseId == p.ids[i])
  }

  ghost predicate CaseInv(p: Pool, i: nat)
    requires i < |p.workers| && i < |p.ids| && i < |p.cases|
  {
    var w := p.workers[i];
    && p.cases[i].caseId == p.ids[i]
    && (Shadowed(p.ids, i) ==> p.cases[i] == PendingCase(p.ids[i]))
    && (Unique(p.ids, i) ==>
          p.cases[i] == if w.stored && w.result.Some? then w.result.value else PendingCase(p.ids[i]))
  }

  ghost predicate Shape(p: Pool) {
    && |p.workers| == |p.ids| == |p.cases|
    && p.next <= |p.workers|
    && (p.main == Starting ==> p.next == 0)
    && (forall i | 0 <= i < |p.workers| :: PcInv(p, i))
    && (forall i | 0 <= i < |p.workers| :: CaseInv(p, i))
  }

  /** Each worker with a result has landed it once. */
  ghost predicate Lists(workers: seq<Worker>, order: seq<nat>, landed: seq<CaseResult>) {
    && |order| == |landed| && NoRepeats(order)
    && (forall k | 0 <= k < |order| :: order[k] < |workers| && workers[order[k]].result == Some(landed[k]))
    && (forall i | 0 <= i < |workers| && workers[i].result.Some? :: i in order)
  }

  ghost predicate OrderInv(p: Pool) {
    Lists(p.workers, p.order, p.landed)
  }

  predicate SlotsInv(p: Pool) {
    p.sem == |InFlight(p.workers)| && p.sem <= PARALLELISM
  }

  ghost predicate TallyInv(p: Pool) {
    && p.counters == Tally(p.judgeOn, p.landed)
    && (forall i | 0 <= i < |p.workers| && p.workers[i].result.Some? :: IsSnapshot(p, p.workers[i].snap))
  }

  ghost predicate Published(p: Pool) {
    match p.main
    case Finished(written) =>
      && AllExited(p)
      && p.next == |p.workers|
      && (written ==> p.status == Completed && p.aggregate == Snapshot(p.counters, |p.ids|))
      && (!written ==> p.status in {RunPending, Processing} && IsSnapshot(p, p.aggregate))
    case _ =>
      p.status in {RunPending, Processing} && IsSnapshot(p, p.aggregate)
  }

  ghost predicate Inv(p: Pool) {
    Shape(p) && OrderInv(p) && SlotsInv(p) && TallyInv(p) && Published(p)
  }

  lemma CreatedInv(ids: seq<string>, judgeOn: bool)
    ensures Inv(Created(ids, judgeOn))
  {
    var p := Created(ids, judgeOn);
    assert InFlight(p.workers) == {};
    assert p.landed[..0] == [];
    assert p.aggregate == PrefixSnapshot(p, 0);
  }

  /** Every id is present from the start, and the set statement finds the first case with it. */
  lemma SetFindsTheCase(p: Pool, i: nat)
    requires Shape(p) && i < |p.ids|
    ensures Present(p.cases, p.ids[i])
    ensures forall j | 0 <= j < |p.ids| :: p.cases[j].caseId == p.ids[j]
    ensures !Shadowed(p.ids, FirstIndex(p.cases, p.ids[i]))
    ensures Unique(p.ids, i) ==> FirstIndex(p.cases, p.ids[i]) == i
  {
    forall j | 0 <= j < |p.ids|
      ensures p.cases[j].caseId == p.ids[j]
    {
      assert CaseInv(p, j);
    }
    assert p.cases[i].caseId == p.ids[i];
  }

  lemma PcNext(p: Pool, e: Event, i: nat)
    requires Shape(p) && Enabled(p, e) && i < |p.workers|
    ensures PcInv(Apply(p, e), i)
  {
    assert PcInv(p, i);
    match e {
      case SetStep(j, _) => assert PcInv(p, j); SetFindsTheCase(p, j);
      case Spawn => assert PcInv(p, p.next);
      case _ =>
    }
  }

  /** Only the set statement touches the cases, and it touches the first case with the id. */
  lemma SetCaseNext(p: Pool, e: Event, i: nat)
    requires Shape(p) && Enabled(p, e) && i < |p.workers| && e.SetStep?
    ensures |Apply(p, e).cases| == |p.cases| && CaseInv(Apply(p, e), i)
  {
    assert CaseInv(p, i) && PcInv(p, e.i) && CaseInv(p, e.i);
    SetFindsTheCase(p, e.i);
    var at := FirstIndex(p.cases, p.ids[e.i]);
    var q := Apply(p, e);
    if e.ok {
      assert q.cases == p.cases[at := p.workers[e.i].result.value];
    } else {
      assert q.cases == p.cases;
    }
    assert i != e.i ==> q.workers[i] == p.workers[i];
    assert p.ids[at] == p.ids[e.i];
  }

  lemma CaseNext(p: Pool, e: Event, i: nat)
    requires Shape(p) && Enabled(p, e) && i < |p.workers| && !e.PushStep?
    ensures |Apply(p, e).cases| == |p.cases|
    ensures CaseInv(Apply(p, e), i)
  {
    if e.SetStep? {
      SetCaseNext(p, e, i);
    } else {
      assert CaseInv(p, i) && PcInv(p, i);
      var q := Apply(p, e);
      assert q.cases == p.cases && q.ids == p.ids;
      assert q.workers[i].stored && q.workers[i].result.Some? <==> p.workers[i].stored && p.workers[i].result.Some?;
      assert p.workers[i].result.Some? ==> q.workers[i].result == p.workers[i].result;
    }
  }

  /** The push statement is never reached: the set statement never misses. */
  lemma PushIsNeverReached(p: Pool, e: Event)
    requires Shape(p) && e.PushStep?
    ensures !Enabled(p, e)
  {
    if e.i < |p.workers| { assert PcInv(p, e.i); }
  }

  lemma ShapeNext(p: Pool, e: Event)
    requires Shape(p) && Enabled(p, e) && !e.PushStep?
    ensures Shape(Apply(p, e))
  {
    var q := Apply(p, e);
    forall i | 0 <= i < |p.workers|
      ensures PcInv(q, i)
      ensures |q.cases| == |p.cases| && CaseInv(q, i)
    {
      PcNext(p, e, i);
      CaseNext(p, e, i);
    }
    if |p.workers| == 0 { assert Shape(q); }
  }

  /** Only landing changes a result, and only landing adds to the list. */
  lemma ResultsKept(p: Pool, e: Event)
    requires Enabled(p, e) && !e.Land?
    ensures |Apply(p, e).workers| == |p.workers|
    ensures forall i | 0 <= i < |p.workers| ::
              Apply(p, e).workers[i].result == p.workers[i].result && Apply(p, e).workers[i].snap == p.workers[i].snap
    ensures Apply(p, e).landed == p.landed && Apply(p, e).order == p.order && Apply(p, e).counters == p.counters
  {
    var q := Apply(p, e);
    if e.MarkProcessing? || e.Finalize? {
      assert q.workers == p.workers;
    } else {
      var i := Mover(p, e);
      assert q.workers == p.workers[i := q.workers[i]];
      assert q.workers[i].result == p.workers[i].result && q.workers[i].snap == p.workers[i].snap;
    }
  }

  /** The run keeps its tuples and its judge, and the landed results only grow. */
  lemma LandedGrows(p: Pool, e: Event)
    requires Enabled(p, e)
    ensures Apply(p, e).ids == p.ids && Apply(p, e).judgeOn == p.judgeOn
    ensures p.landed <= Apply(p, e).landed
  {
  }

  lemma OrderNext(p: Pool, e: Event)
    requires Shape(p) && OrderInv(p) && Enabled(p, e)
    ensures OrderInv(Apply(p, e))
  {
    if e.Land? {
      assert PcInv(p, e.i);
      OrderLand(p, Apply(p, e), e.i);
    } else {
      ResultsKept(p, e);
    }
  }

  lemma OrderLand(p: Pool, q: Pool, i: nat)
    requires OrderInv(p) && i < |p.workers| && p.workers[i].result.None?
    requires |q.workers| == |p.workers| && q.workers[i].result.Some?
    requires forall j | 0 <= j < |p.workers| && j != i :: q.workers[j] == p.workers[j]
    requires q.order == p.order + [i] && q.landed == p.landed + [q.workers[i].result.value]
    ensures OrderInv(q)
  {
    assert forall k | 0 <= k < |p.order| :: p.order[k] != i;
    forall j | 0 <= j < |q.workers| && q.workers[j].result.Some?
      ensures j in q.order
    {
      assert q.order[|p.order|] == i;
      if j != i { assert j in p.order; }
    }
  }

  lemma InFlightMove(workers: seq<Worker>, i: nat, w: Worker)
    requires i < |workers|
    ensures InFlight(workers[i := w]) == if HoldsSlot(w) then InFlight(workers) + {i} else InFlight(workers) - {i}
    ensures i in InFlight(workers) <==> HoldsSlot(workers[i])
  {
  }

  /** How far a worker is from its end. */
  function PcRank(pc: Pc): nat {
    match pc
    case Unspawned => 7
    case Running => 6
    case Landed => 5
    case SetMissed => 4
    case Upserted => 3
    case Leaving => 2
    case Released => 1
    case Exited => 0
  }

  /** The worker that a step moves. */
  function Mover(p: Pool, e: Event): nat {
    match e
    case Land(i, _, _) => i
    case Panic(i) => i
    case SetStep(i, _) => i
    case PushStep(i, _) => i
    case Progress(i, _) => i
    case Release(i) => i
    case Exit(i) => i
    case _ => p.next
  }

  /** Every step of a worker moves that worker only, forward. */
  lemma MovesOneForward(p: Pool, e: Event)
    requires Shape(p) && Enabled(p, e) && !e.MarkProcessing? && !e.Finalize?
    ensures var i := Mover(p, e); var q := Apply(p, e);
            && i < |p.workers| == |q.workers|
            && q.workers == p.workers[i := q.workers[i]]
            && PcRank(q.workers[i].pc) < PcRank(p.workers[i].pc)
            && (HoldsSlot(p.workers[i]) <==> !e.Spawn? && !e.Exit?)
            && (HoldsSlot(q.workers[i]) <==> !e.Release? && !e.Exit?)
            && q.sem == (if e.Spawn? then p.sem + 1 else if e.Release? then p.sem - 1 else p.sem)
  {
    if e.Spawn? { assert PcInv(p, p.next); }
  }

  lemma SlotsNext(p: Pool, e: Event)
    requires Shape(p) && SlotsInv(p) && Enabled(p, e)
    ensures SlotsInv(Apply(p, e))
  {
    var q := Apply(p, e);
    if !e.MarkProcessing? && !e.Finalize? {
      var i := Mover(p, e);
      MovesOneForward(p, e);
      InFlightMove(p.workers, i, q.workers[i]);
      if !e.Spawn? && !e.Release? {
        assert InFlight(q.workers) == InFlight(p.workers);
      }
    }
  }

  lemma SnapshotStays(p: Pool, q: Pool, a: Aggregate)
    requires q.ids == p.ids && q.judgeOn == p.judgeOn && p.landed <= q.landed && IsSnapshot(p, a)
    ensures IsSnapshot(q, a)
  {
    var k :| 0 <= k <= |p.landed| && a == PrefixSnapshot(p, k);
    assert q.landed[..k] == p.landed[..k];
    assert a == PrefixSnapshot(q, k);
  }

  /** The new counters are the totals of the grown list, and the snapshot taken with them is its rollup. */
  lemma LandTallies(p: Pool, q: Pool, r: CaseResult)
    requires p.counters == Tally(p.judgeOn, p.landed)
    requires q.ids == p.ids && q.judgeOn == p.judgeOn && q.landed == p.landed + [r]
    ensures Record(p.counters, p.judgeOn, r) == Tally(q.judgeOn, q.landed)
    ensures IsSnapshot(q, Snapshot(Record(p.counters, p.judgeOn, r), |p.ids|))
  {
    TallyAppend(p.judgeOn, p.landed, r);
    assert q.landed[..|q.landed|] == q.landed;
    assert Snapshot(Record(p.counters, p.judgeOn, r), |p.ids|) == PrefixSnapshot(q, |q.landed|);
  }

  lemma TallyNext(p: Pool, e: Event)
    requires TallyInv(p) && Enabled(p, e)
    ensures TallyInv(Apply(p, e))
  {
    var q := Apply(p, e);
    LandedGrows(p, e);
    if e.Land? {
      LandTallies(p, q, CaseBody(p.ids[e.i], p.judgeOn, e.gen, e.judged));
    } else {
      ResultsKept(p, e);
    }
    forall i | 0 <= i < |q.workers| && q.workers[i].result.Some?
      ensures IsSnapshot(q, q.workers[i].snap)
    {
      if !(e.Land? && e.i == i) {
        assert p.workers[i].result.Some? && q.workers[i].snap == p.workers[i].snap;
        SnapshotStays(p, q, p.workers[i].snap);
      }
    }
  }

  lemma PublishedNext(p: Pool, e: Event)
    requires Shape(p) && TallyInv(p) && Published(p) && Enabled(p, e)
    ensures Published(Apply(p, e))
  {
    var q := Apply(p, e);
    if p.main.Finished? {
      // Nothing is enabled any more.
      assert false;
    }
    LandedGrows(p, e);
    SnapshotStays(p, q, p.aggregate);
    match e {
      case MarkProcessing(ok) =>
        assert q.landed[..0] == [];
        assert EmptyAggregate(|p.ids|) == PrefixSnapshot(q, 0);
      case Progress(i, ok) =>
        assert PcInv(p, i);
        SnapshotStays(p, q, p.workers[i].snap);
      case _ =>
    }
  }

  lemma InvNext(p: Pool, e: Event)
    requires Inv(p)
    ensures Inv(Next(p, e))
  {
    if e.PushStep? { PushIsNeverReached(p, e); }
    if Enabled(p, e) {
      ShapeNext(p, e);
      OrderNext(p, e);
      SlotsNext(p, e);
      TallyNext(p, e);
      PublishedNext(p, e);
    }
  }

  lemma {:induction false} InvRunFrom(p: Pool, schedule: seq<Event>)
    requires Inv(p)
    ensures Inv(Run(p, schedule))
    ensures Run(p, schedule).ids == p.ids && Run(p, schedule).judgeOn == p.judgeOn
    decreases |schedule|
  {
    if schedule != [] {
      var n := |schedule| - 1;
      var mid := Run(p, schedule[..n]);
      InvRunFrom(p, schedule[..n]);
      InvNext(mid, schedule[n]);
      if Enabled(mid, schedule[n]) { LandedGrows(mid, schedule[n]); }
    }
  }

  // ---- The order of completion is a permutation of the tuple order ----

  /** The results that exist, in tuple order. */
  function ByTuple(workers: seq<Worker>): (rs: seq<CaseResult>)
    ensures |rs| <= |workers|
  {
    if workers == [] then []
    else
      var n := |workers| - 1;
      ByTuple(workers[..n]) + if workers[n].result.Some? then [workers[n].result.value] else []
  }

  function Without<T>(xs: seq<T>, k: nat): (ys: seq<T>)
    requires k < |xs|
    ensures |ys| == |xs| - 1
    ensures forall j | 0 <= j < |ys| :: ys[j] == xs[if j < k then j else j + 1]
  {
    xs[..k] + xs[k + 1..]
  }

  /** Striking the last worker off the list. */
  lemma ListsWithoutLast(workers: seq<Worker>, order: seq<nat>, landed: seq<CaseResult>, k: nat)
    requires Lists(workers, order, landed) && workers != []
    requires k < |order| && order[k] == |workers| - 1
    ensures Lists(workers[..|workers| - 1], Without(order, k), Without(landed, k))
  {
    var n := |workers| - 1;
    var order' := Without(order, k);
    assert NoRepeats(order');
    forall j | 0 <= j < |order'|
      ensures order'[j] < n && workers[order'[j]].result == Some(Without(landed, k)[j])
    {
      var at := if j < k then j else j + 1;
      assert order'[j] == order[at] && order[at] != order[k];
    }
    forall i | 0 <= i < n && workers[i].result.Some?
      ensures i in order'
    {
      var j :| 0 <= j < |order| && order[j] == i;
      assert order'[if j < k then j else j - 1] == i;
    }
  }

  /** A last worker without a result is on no list. */
  lemma ListsWithoutPanicked(workers: seq<Worker>, order: seq<nat>, landed: seq<CaseResult>)
    requires Lists(workers, order, landed) && workers != [] && workers[|workers| - 1].result.None?
    ensures Lists(workers[..|workers| - 1], order, landed)
  {
    var n := |workers| - 1;
    forall k | 0 <= k < |order|
      ensures order[k] < n && workers[..n][order[k]].result == Some(landed[k])
    {
    }
  }

  lemma MultisetWithout(rs: seq<CaseResult>, k: nat)
    requires k < |rs|
    ensures multiset(rs) == multiset(Without(rs, k)) + multiset{rs[k]}
  {
    assert rs == rs[..k] + [rs[k]] + rs[k + 1..];
  }

  lemma {:induction false} OrderIsPermutation(workers: seq<Worker>, order: seq<nat>, landed: seq<CaseResult>)
    requires Lists(workers, order, landed)
    ensures multiset(landed) == multiset(ByTuple(workers))
    ensures |landed| <= |workers|
    decreases |workers|
  {
    if workers == [] {
      assert |order| == 0;
    } else {
      var n := |workers| - 1;
      if workers[n].result.None? {
        ListsWithoutPanicked(workers, order, landed);
        OrderIsPermutation(workers[..n], order, landed);
        assert ByTuple(workers) == ByTuple(workers[..n]);
      } else {
        assert n in order;
        var k :| 0 <= k < |order| && order[k] == n;
        ListsWithoutLast(workers, order, landed, k);
        OrderIsPermutation(workers[..n], Without(order, k), Without(landed, k));
        MultisetWithout(landed, k);
        assert ByTuple(workers) == ByTuple(workers[..n]) + [landed[k]];
      }
    }
  }

  // ---- The main results, for every schedule of a created run ----

  /** Never more than five cases in flight. */
  lemma AtMostFiveInFlight(ids: seq<string>, judgeOn: bool, schedule: seq<Event>)
    ensures |InFlight(Run(Created(ids, judgeOn), schedule).workers)| <= 5
  {
    CreatedInv(ids, judgeOn);
    InvRunFrom(Created(ids, judgeOn), schedule);
  }

  /**
   * What a reader of the stored run sees at any moment is a rollup of the first so many
   * completions, never a mixture, and passed <= completed <= total.
   */
  lemma EveryPublishedAggregateIsASnapshot(ids: seq<string>, judgeOn: bool, schedule: seq<Event>)
    ensures IsSnapshot(Run(Created(ids, judgeOn), schedule), Run(Created(ids, judgeOn), schedule).aggregate)
    ensures Run(Created(ids, judgeOn), schedule).aggregate.passed
         <= Run(Created(ids, judgeOn), schedule).aggregate.completed
         <= Run(Created(ids, judgeOn), schedule).aggregate.total == |ids|
  {
    CreatedInv(ids, judgeOn);
    InvRunFrom(Created(ids, judgeOn), schedule);
    var p := Run(Created(ids, judgeOn), schedule);
    if p.main == Finished(true) {
      assert p.landed[..|p.landed|] == p.landed;
      assert p.aggregate == PrefixSnapshot(p, |p.landed|);
    }
    var k :| 0 <= k <= |p.landed| && p.aggregate == PrefixSnapshot(p, k);
    TallyBounds(judgeOn, p.landed[..k]);
    OrderIsPermutation(p.workers, p.order, p.landed);
  }

  // ---- The finished run ----

  /**
   * After a run whose final write succeeded, however the progress writes landed: the run is
   * completed, its aggregate is the rollup of the results in tuple order, with the passed cases,
   * the average score and the cost said of the results themselves, no worker is left, and
   * every case with an id of its own holds its result if the upsert took effect and is pending
   * if not.
   */
  lemma FinishedRun(ids: seq<string>, judgeOn: bool, schedule: seq<Event>)
    requires Run(Created(ids, judgeOn), schedule).main == Finished(true)
    ensures var p := Run(Created(ids, judgeOn), schedule);
            && p.status == Completed
            && p.aggregate == Snapshot(Tally(judgeOn, ByTuple(p.workers)), |ids|)
            && IsRollup(p.aggregate, judgeOn, ByTuple(p.workers), |ids|)
            && |p.workers| == |p.cases| == |ids|
            && AllExited(p)
            && forall i | 0 <= i < |ids| && Unique(ids, i) ::
                 p.cases[i] == if p.workers[i].stored && p.workers[i].result.Some? then p.workers[i].result.value
                               else CaseResult(ids[i], Pending, 0, 0, 0, 0.0, "", "")
  {
    CreatedInv(ids, judgeOn);
    InvRunFrom(Created(ids, judgeOn), schedule);
    var p := Run(Created(ids, judgeOn), schedule);
    OrderIsPermutation(p.workers, p.order, p.landed);
    TallyIsOrderIndependent(judgeOn, p.landed, ByTuple(p.workers));
    SnapshotIsRollup(judgeOn, ByTuple(p.workers), |ids|);
    forall i | 0 <= i < |ids| && Unique(ids, i)
      ensures p.cases[i] == if p.workers[i].stored && p.workers[i].result.Some? then p.workers[i].result.value
                            else PendingCase(ids[i])
    {
      assert CaseInv(p, i);
    }
  }

  ghost predicate LandedBy(schedule: seq<Event>, i: nat, id: string, judgeOn: bool, r: CaseResult) {
    exists k :: 0 <= k < |schedule| && schedule[k].Land? && schedule[k].i == i
                && Reports(r, id, judgeOn, schedule[k].gen, schedule[k].judged)
  }

  /** Every result is that of one generation and judgement of its own tuple. */
  lemma {:induction false} ResultsAreReports(ids: seq<string>, judgeOn: bool, schedule: seq<Event>, i: nat)
    requires i < |ids|
    ensures var p := Run(Created(ids, judgeOn), schedule);
            |p.workers| == |ids|
            && (p.workers[i].result.Some? ==> LandedBy(schedule, i, ids[i], judgeOn, p.workers[i].result.value))
    decreases |schedule|
  {
    if schedule != [] {
      var n := |schedule| - 1;
      var mid, e := Run(Created(ids, judgeOn), schedule[..n]), schedule[n];
      ResultsAreReports(ids, judgeOn, schedule[..n], i);
      CreatedInv(ids, judgeOn);
      InvRunFrom(Created(ids, judgeOn), schedule[..n]);
      if Enabled(mid, e) && e.Land? && e.i == i {
        CaseReports(ids[i], judgeOn, e.gen, e.judged);
      } else {
        if Enabled(mid, e) && !e.Land? { ResultsKept(mid, e); }
        assert forall k | 0 <= k < n :: schedule[..n][k] == schedule[k];
      }
    }
  }

  /** A tuple whose id an earlier tuple has never gets its case stored. */
  lemma ShadowedCaseStaysPending(ids: seq<string>, judgeOn: bool, schedule: seq<Event>, i: nat)
    requires i < |ids| && Shadowed(ids, i)
    ensures var p := Run(Created(ids, judgeOn), schedule);
            |p.cases| == |ids| && p.cases[i] == CaseResult(ids[i], Pending, 0, 0, 0, 0.0, "", "")
  {
    CreatedInv(ids, judgeOn);
    InvRunFrom(Created(ids, judgeOn), schedule);
    assert CaseInv(Run(Created(ids, judgeOn), schedule), i);
  }

  /** A write that succeeds takes effect, and one that fails leaves the stored run as it was. */
  lemma WritesTakeEffect(p: Pool, e: Event)
    requires Inv(p) && Enabled(p, e)
    ensures var q := Apply(p, e);
            match e
            case MarkProcessing(ok) =>
              if ok then q.status == Processing && q.aggregate == Aggregate(|p.ids|, 0, 0, 0.0, 0.0)
              else q.status == p.status && q.aggregate == p.aggregate
            case Land(i, _, _) => IsRollup(q.workers[i].snap, p.judgeOn, q.landed, |p.ids|)
            case SetStep(i, ok) =>
              if ok then q.workers[i].stored && (Unique(p.ids, i) ==> q.cases[i] == p.workers[i].result.value)
              else !q.workers[i].stored && q.cases == p.cases
            case Progress(i, ok) =>
              if ok then q.status == Processing && q.aggregate == p.workers[i].snap
              else q.status == p.status && q.aggregate == p.aggregate
            case Finalize(ok) => q.main == Finished(ok) && (!ok ==> q.status == p.status && q.aggregate == p.aggregate)
            case _ => q.cases == p.cases && q.status == p.status && q.aggregate == p.aggregate
  {
    match e
    case Land(i, gen, judged) =>
      TallyAppend(p.judgeOn, p.landed, CaseBody(p.ids[i], p.judgeOn, gen, judged));
      SnapshotIsRollup(p.judgeOn, Apply(p, e).landed, |p.ids|);
    case SetStep(i, _) =>
      assert PcInv(p, i);
      SetFindsTheCase(p, i);
    case PushStep(_, _) => PushIsNeverReached(p, e);
    case _ =>
  }

  ghost predicate Succeeds(p: Pool, e: Event, i: nat) {
    e == SetStep(i, true) && Enabled(p, e)
  }

  /** Somewhere in the run the set statement of the worker succeeded. */
  ghost predicate WrittenIn(p: Pool, schedule: seq<Event>, i: nat) {
    schedule != []
    && (WrittenIn(p, schedule[..|schedule| - 1], i)
        || Succeeds(Run(p, schedule[..|schedule| - 1]), schedule[|schedule| - 1], i))
  }

  /** A result is stored exactly if the set statement of its worker has succeeded. */
  lemma {:induction false} StoredIffWritten(p: Pool, schedule: seq<Event>, i: nat)
    requires Inv(p) && i < |p.workers| && !p.workers[i].stored
    ensures i < |Run(p, schedule).workers|
    ensures Run(p, schedule).workers[i].stored <==> WrittenIn(p, schedule, i)
    decreases |schedule|
  {
    if schedule != [] {
      var n := |schedule| - 1;
      StoredIffWritten(p, schedule[..n], i);
      InvRunFrom(p, schedule[..n]);
      StoredNext(Run(p, schedule[..n]), schedule[n], i);
    }
  }

  lemma StoredNext(p: Pool, e: Event, i: nat)
    requires Inv(p) && i < |p.workers|
    ensures i < |Next(p, e).workers|
    ensures Next(p, e).workers[i].stored <==> p.workers[i].stored || Succeeds(p, e, i)
  {
    if Enabled(p, e) { StoredStep(p, e, i); }
  }

  lemma OnlySetStores(p: Pool, e: Event, i: nat)
    requires Enabled(p, e) && !e.SetStep? && !e.PushStep? && !e.Land? && i < |p.workers|
    ensures i < |Apply(p, e).workers| && Apply(p, e).workers[i].stored == p.workers[i].stored
  {
  }

  lemma LandedIsNotStored(p: Pool, e: Event, i: nat)
    requires Shape(p) && Enabled(p, e) && e.Land? && i < |p.workers|
    ensures i < |Apply(p, e).workers| && Apply(p, e).workers[i].stored == p.workers[i].stored
  {
    assert PcInv(p, i);
  }

  lemma SetStores(p: Pool, e: Event, i: nat)
    requires Shape(p) && Enabled(p, e) && e.SetStep? && i < |p.workers|
    ensures i < |Apply(p, e).workers|
    ensures Apply(p, e).workers[i].stored <==> p.workers[i].stored || (e.ok && e.i == i)
  {
    assert PcInv(p, e.i);
    SetFindsTheCase(p, e.i);
  }

  lemma StoredStep(p: Pool, e: Event, i: nat)
    requires Shape(p) && Enabled(p, e) && i < |p.workers|
    ensures i < |Apply(p, e).workers|
    ensures Apply(p, e).workers[i].stored <==> p.workers[i].stored || e == SetStep(i, true)
  {
    if e.PushStep? {
      PushIsNeverReached(p, e);
    } else if e.SetStep? {
      SetStores(p, e, i);
    } else if e.Land? {
      LandedIsNotStored(p, e, i);
    } else {
      OnlySetStores(p, e, i);
    }
  }

  // ---- The first of several equal ids ----

  ghost predicate StoredFor(p: Pool, i: nat, w: int)
    requires i < |p.ids|
  {
    0 <= w < |p.workers| && w < |p.ids| && p.ids[w] == p.ids[i] && p.workers[w].stored
  }

  ghost predicate HeldFrom(p: Pool, i: nat, w: int)
    requires i < |p.ids| && i < |p.cases|
  {
    StoredFor(p, i, w) && p.workers[w].result == Some(p.cases[i])
  }

  /** The first case with an id is pending until a tuple with that id is stored, and then one of their results. */
  ghost predicate FirstInv(p: Pool, i: nat)
    requires i < |p.ids| && i < |p.cases|
  {
    if exists w :: StoredFor(p, i, w) then exists w :: HeldFrom(p, i, w) else p.cases[i] == PendingCase(p.ids[i])
  }

  /** A step that neither touches the case nor stores for its id. */
  lemma FirstStays(p: Pool, q: Pool, i: nat)
    requires i < |p.ids| && i < |p.cases| && FirstInv(p, i)
    requires q.ids == p.ids && |q.cases| == |p.cases| && q.cases[i] == p.cases[i] && |q.workers| == |p.workers|
    requires forall w :: StoredFor(q, i, w) <==> StoredFor(p, i, w)
    requires forall w | StoredFor(p, i, w) :: q.workers[w].result == p.workers[w].result
    ensures FirstInv(q, i)
  {
    if w :| StoredFor(q, i, w) {
      assert StoredFor(p, i, w);
      var h :| HeldFrom(p, i, h);
      assert HeldFrom(q, i, h);
    }
  }

  lemma FirstStored(p: Pool, e: Event, i: nat)
    requires Shape(p) && Enabled(p, e) && i < |p.workers| && !Shadowed(p.ids, i)
    requires e.SetStep? && e.ok && p.ids[e.i] == p.ids[i]
    ensures |Apply(p, e).cases| == |p.cases| && FirstInv(Apply(p, e), i)
  {
    assert PcInv(p, e.i) && CaseInv(p, i);
    SetFindsTheCase(p, e.i);
    var q := Apply(p, e);
    assert FirstIndex(p.cases, p.ids[e.i]) == i;
    assert StoredFor(q, i, e.i) && HeldFrom(q, i, e.i);
  }

  /** Storing for another id, or failing to store, moves one other worker and another case. */
  lemma FirstNotMine(p: Pool, e: Event, i: nat)
    requires Shape(p) && Enabled(p, e) && e.SetStep? && i < |p.workers| && !Shadowed(p.ids, i) && FirstInv(p, i)
    requires !e.ok || p.ids[e.i] != p.ids[i]
    ensures i < |Apply(p, e).cases| && Apply(p, e).ids == p.ids && FirstInv(Apply(p, e), i)
  {
    var q := Apply(p, e);
    assert PcInv(p, e.i) && CaseInv(p, i);
    SetFindsTheCase(p, e.i);
    forall w ensures StoredFor(q, i, w) <==> StoredFor(p, i, w) {
      if w != e.i && 0 <= w < |p.workers| { assert q.workers[w] == p.workers[w]; }
    }
    FirstStays(p, q, i);
  }

  lemma FirstLand(p: Pool, e: Event, i: nat)
    requires Shape(p) && Enabled(p, e) && e.Land? && i < |p.workers| && FirstInv(p, i)
    ensures i < |Apply(p, e).cases| && Apply(p, e).ids == p.ids && FirstInv(Apply(p, e), i)
  {
    var q := Apply(p, e);
    assert PcInv(p, e.i);
    forall w ensures StoredFor(q, i, w) <==> StoredFor(p, i, w) {
      if w != e.i && 0 <= w < |p.workers| { assert q.workers[w] == p.workers[w]; }
    }
    FirstStays(p, q, i);
  }

  lemma OthersStoreNothing(p: Pool, e: Event, w: int)
    requires Enabled(p, e) && !e.SetStep? && !e.PushStep? && !e.Land? && 0 <= w < |p.workers|
    ensures |Apply(p, e).workers| == |p.workers| && Apply(p, e).workers[w].stored == p.workers[w].stored
    ensures Apply(p, e).cases == p.cases && Apply(p, e).ids == p.ids
  {
  }

  lemma FirstNext(p: Pool, e: Event, i: nat)
    requires Shape(p) && Enabled(p, e) && !e.PushStep? && i < |p.workers| && !Shadowed(p.ids, i) && FirstInv(p, i)
    ensures i < |Apply(p, e).cases| && Apply(p, e).ids == p.ids && FirstInv(Apply(p, e), i)
  {
    if e.SetStep? {
      if e.ok && p.ids[e.i] == p.ids[i] { FirstStored(p, e, i); } else { FirstNotMine(p, e, i); }
    } else if e.Land? {
      FirstLand(p, e, i);
    } else {
      var q := Apply(p, e);
      ResultsKept(p, e);
      OthersStoreNothing(p, e, i);
      forall w ensures StoredFor(q, i, w) <==> StoredFor(p, i, w) {
        if 0 <= w < |p.workers| { OthersStoreNothing(p, e, w); }
      }
      FirstStays(p, q, i);
    }
  }

  lemma {:induction false} FirstRun(ids: seq<string>, judgeOn: bool, schedule: seq<Event>, i: nat)
    requires i < |ids| && !Shadowed(ids, i)
    ensures var p := Run(Created(ids, judgeOn), schedule);
            Inv(p) && p.ids == ids && FirstInv(p, i)
    decreases |schedule|
  {
    CreatedInv(ids, judgeOn);
    if schedule != [] {
      var n := |schedule| - 1;
      var p, e := Run(Created(ids, judgeOn), schedule[..n]), schedule[n];
      FirstRun(ids, judgeOn, schedule[..n], i);
      InvNext(p, e);
      if Enabled(p, e) {
        if e.PushStep? { PushIsNeverReached(p, e); }
        FirstNext(p, e, i);
      }
    }
  }

  /**
   * In every state of every run the first case with an id holds the result of some tuple with
   * that id as soon as one of them was stored, and is pending until then.
   */
  lemma FirstOfEqualIds(ids: seq<string>, judgeOn: bool, schedule: seq<Event>, i: nat)
    requires i < |ids| && !Shadowed(ids, i)
    ensures var p := Run(Created(ids, judgeOn), schedule);
            && p.ids == ids && |p.cases| == |p.workers| == |ids|
            && ((exists w :: StoredFor(p, i, w)) ==> exists w :: HeldFrom(p, i, w))
            && ((forall w :: !StoredFor(p, i, w)) ==> p.cases[i] == PendingCase(ids[i]))
  {
    FirstRun(ids, judgeOn, schedule, i);
  }

  // ---- Every run comes to its end ----

  function WorkersRank(workers: seq<Worker>): nat {
    if workers == [] then 0 else WorkersRank(workers[..|workers| - 1]) + PcRank(workers[|workers| - 1].pc)
  }

  function Rank(p: Pool): nat {
    WorkersRank(p.workers) + match p.main case Starting => 2 case Spawning => 1 case Finished(_) => 0
  }

  lemma {:induction false} RankOfMove(workers: seq<Worker>, i: nat, w: Worker)
    requires i < |workers|
    ensures WorkersRank(workers[i := w]) == WorkersRank(workers) - PcRank(workers[i].pc) + PcRank(w.pc)
    decreases |workers|
  {
    var n := |workers| - 1;
    if i == n {
      assert workers[i := w][..n] == workers[..n];
    } else {
      assert workers[i := w][..n] == workers[..n][i := w];
      RankOfMove(workers[..n], i, w);
    }
  }

  /** Every step that happens brings the run closer to its end ... */
  lemma StepsAreBounded(p: Pool, e: Event)
    requires Shape(p) && Enabled(p, e)
    ensures Rank(Apply(p, e)) < Rank(p)
  {
    if !e.MarkProcessing? && !e.Finalize? {
      MovesOneForward(p, e);
      RankOfMove(p.workers, Mover(p, e), Apply(p, e).workers[Mover(p, e)]);
    }
  }

  /**
   * ... and as long as it has not ended, some step can happen that is not a panic, whatever the
   * generator and the judge answer: the semaphore never blocks for good.
   */
  lemma NoDeadlock(p: Pool, gen: Generated, judged: Judged) returns (e: Event)
    requires Inv(p) && !p.main.Finished?
    ensures Enabled(p, e) && !e.Panic? && (e.Land? ==> e == Land(e.i, gen, judged))
    ensures e.Finalize? ==> e.ok
  {
    if p.main == Starting {
      e := MarkProcessing(true);
    } else if i :| 0 <= i < p.next && p.workers[i].pc != Exited {
      assert PcInv(p, i);
      match p.workers[i].pc {
        case Running => e := Land(i, gen, judged);
        case Landed => e := SetStep(i, true);
        case Upserted => e := Progress(i, true);
        case Leaving =>
          assert i in InFlight(p.workers);
          e := Release(i);
        case Released => e := Exit(i);
        case _ => assert false;
      }
    } else if p.next == |p.workers| {
      e := Finalize(true);
    } else {
      forall i | 0 <= i < |p.workers|
        ensures !HoldsSlot(p.workers[i])
      {
        assert PcInv(p, i);
      }
      assert InFlight(p.workers) == {};
      e := Spawn;
    }
  }

  lemma {:induction false} RunAfter(p: Pool, e: Event, rest: seq<Event>)
    ensures Run(p, [e] + rest) == Run(Next(p, e), rest)
    decreases |rest|
  {
    var all := [e] + rest;
    if rest == [] {
      assert all[..0] == [] && all[0] == e;
    } else {
      var n := |rest| - 1;
      assert all[..|all| - 1] == [e] + rest[..n];
      RunAfter(p, e, rest[..n]);
    }
  }

  /** So from every reachable state the run can be brought to its end, with the final write done and no panic. */
  lemma {:induction false} CanFinish(p: Pool, gen: Generated, judged: Judged) returns (schedule: seq<Event>)
    requires Inv(p) && p.main != Finished(false)
    ensures Run(p, schedule).main == Finished(true)
    decreases Rank(p)
  {
    if p.main.Finished? {
      schedule := [];
    } else {
      var e := NoDeadlock(p, gen, judged);
      StepsAreBounded(p, e);
      InvNext(p, e);
      WritesTakeEffect(p, e);
      var rest := CanFinish(Next(p, e), gen, judged);
      RunAfter(p, e, rest);
      schedule := [e] + rest;
    }
  }
}
