/**
 * The three in-process caches in front of the store - production prompt bodies, the routing
 * table and the active A/B tests - share one protocol: a read under the shared lock, and on a
 * miss the exclusive lock, a second look, a refresh from the store, and the new map. They
 * differ in the refresh. Store writes and `Invalidate` come from other goroutines at any time;
 * every store read, store write and lock section is one step.
 *
 * `history` lists the contents the store has had and `written` the times of its writes; `floor`
 * is the version at the last `Invalidate`, and a read remembers the floor it started with.
 * `began`, `filled` and `loads` record when the running refresh, the last one, and that of each
 * A/B name took the lock. All of these only serve the statements.
 */
module CacheProtocol {
  import opened Options

  /** What the store answers: the known names, and the value of each name that has one. */
  datatype Repo = Repo(names: set<string>, values: map<string, string>)

  /** A name that has a value is a known name. */
  predicate WellFormed(r: Repo) {
    r.values.Keys <= r.names
  }

  function Lookup(r: Repo, name: string): Option<string> {
    if name in r.values then Some(r.values[name]) else None
  }

  /** Cached answers; an entry may say that the store has no value. */
  type Entries = map<string, Option<string>>

  function Cached(m: Entries, name: string): Option<string> {
    if name in m then m[name] else None
  }

  datatype Kind = Prompts(seeded: set<string>) | Routing | ABTests

  datatype Lock = Free | Held(i: nat)

  /** A version of the store and a time at which it was current. */
  datatype Moment = Moment(version: nat, clock: int)

  datatype Phase =
    | Idle
    | Called(name: string, since: nat)
    | Missed(name: string, since: nat)
    | Refreshing(name: string, since: nat, names: Option<set<string>>, pending: set<string>, loaded: Entries)
    | Answered(name: string, since: nat, answer: Option<string>)
    | Errored(name: string)

  datatype Sys = Sys(
    kind: Kind,
    ttl: int,
    history: seq<Repo>,
    cache: Option<Entries>,
    exp: int,
    clock: int,
    lock: Lock,
    readers: seq<Phase>,
    floor: nat,
    written: seq<int>,
    began: Moment,
    filled: Moment,
    loads: map<string, Moment>)

  datatype Event =
    | Write(r: Repo)
    | Tick(d: nat)
    | Invalidate
    | Call(i: nat, name: string)
    | FastRead(i: nat)
    | Acquire(i: nat)
    | ListNames(i: nat)
    | Fetch(i: nat, n: string)
    | GetRouting(i: nat)
    | GetActive(i: nat)
    | Fail(i: nat)
    | StoreFresh(i: nat)

  function Current(s: Sys): Repo
    requires s.history != []
  {
    s.history[|s.history| - 1]
  }

  predicate Fresh(s: Sys) {
    s.cache.Some? && s.clock < s.exp
  }

  predicate IsRefreshing(s: Sys, i: nat) {
    i < |s.readers| && s.readers[i].Refreshing? && s.lock == Held(i) && s.history != []
  }

  predicate Enabled(s: Sys, e: Event) {
    match e
    case Write(r) => WellFormed(r)
    case Tick(_) => true
    case Invalidate => s.lock == Free && s.history != []
    case Call(i, _) => i < |s.readers| && s.readers[i] == Idle
    case FastRead(i) => i < |s.readers| && s.readers[i].Called? && s.lock == Free
    case Acquire(i) => i < |s.readers| && s.readers[i].Missed? && s.lock == Free && s.history != []
    case ListNames(i) => s.kind.Prompts? && IsRefreshing(s, i) && s.readers[i].names.None?
    case Fetch(i, n) => s.kind.Prompts? && IsRefreshing(s, i) && s.readers[i].names.Some? && n in s.readers[i].pending
    case GetRouting(i) => s.kind.Routing? && IsRefreshing(s, i) && s.readers[i].names.None?
    case GetActive(i) => s.kind.ABTests? && IsRefreshing(s, i) && s.readers[i].names.None?
    case Fail(i) => !s.kind.Prompts? && IsRefreshing(s, i) && s.readers[i].names.None?
    case StoreFresh(i) => IsRefreshing(s, i) && s.readers[i].names.Some? && s.readers[i].pending == {}
  }

  function SetPhase(s: Sys, i: nat, ph: Phase): Sys
    requires i < |s.readers|
  {
    s.(readers := s.readers[i := ph])
  }

  function Apply(s: Sys, e: Event): Sys
    requires Enabled(s, e)
  {
    match e
    case Write(r) => s.(history := s.history + [r], written := s.written + [s.clock])
    case Tick(d) => s.(clock := s.clock + d)
    case Invalidate => s.(cache := None, exp := 0, floor := |s.history| - 1, loads := map[])
    case Call(i, name) => SetPhase(s, i, Called(name, s.floor))
    case FastRead(i) =>
      var ph := s.readers[i];
      if Fresh(s) then SetPhase(s, i, Answered(ph.name, ph.since, Cached(s.cache.value, ph.name)))
      else SetPhase(s, i, Missed(ph.name, ph.since))
    case Acquire(i) =>
      var ph := s.readers[i];
      if Fresh(s) then SetPhase(s, i, Answered(ph.name, ph.since, Cached(s.cache.value, ph.name)))
      else
        SetPhase(s, i, Refreshing(ph.name, ph.since, None, {}, map[]))
        .(lock := Held(i), began := Moment(|s.history| - 1, s.clock))
    case ListNames(i) =>
      var names := s.kind.seeded + Current(s).names;
      SetPhase(s, i, s.readers[i].(names := Some(names), pending := names))
    case Fetch(i, n) =>
      var ph := s.readers[i];
      var doc := Lookup(Current(s), n);
      SetPhase(s, i, ph.(pending := ph.pending - {n}, loaded := if doc.Some? then ph.loaded[n := doc] else ph.loaded))
    case GetRouting(i) =>
      var r := Current(s);
      SetPhase(s, i, s.readers[i].(names := Some({}), loaded := map k | k in r.values :: Some(r.values[k])))
    case GetActive(i) =>
      var ph := s.readers[i];
      var base := if s.cache.Some? then s.cache.value else map[];
      SetPhase(s, i, ph.(names := Some({}), loaded := base[ph.name := Lookup(Current(s), ph.name)]))
    case Fail(i) =>
      var ph := s.readers[i];
      SetPhase(s, i, if s.kind.ABTests? then Answered(ph.name, ph.since, None) else Errored(ph.name)).(lock := Free)
    case StoreFresh(i) =>
      var ph := s.readers[i];
      SetPhase(s, i, Answered(ph.name, ph.since, Cached(ph.loaded, ph.name)))
      .(cache := Some(ph.loaded), exp := s.clock + s.ttl, lock := Free, filled := s.began,
        loads := if s.kind.ABTests? then s.loads[ph.name := s.began] else map[])
  }

  function Next(s: Sys, e: Event): Sys {
    if Enabled(s, e) then Apply(s, e) else s
  }

  function Run(s: Sys, schedule: seq<Event>): Sys {
    if schedule == [] then s else Next(Run(s, schedule[..|schedule| - 1]), schedule[|schedule| - 1])
  }

  /** At boot: an empty cache, nobody reading, the store as it is. */
  predicate Initial(s: Sys) {
    && |s.history| == 1 && WellFormed(s.history[0]) && s.written == [s.clock]
    && s.ttl > 0 && s.cache == None && s.loads == map[] && s.lock == Free && s.floor == 0
    && forall i | 0 <= i < |s.readers| :: s.readers[i] == Idle
  }

  // ---- Invariant ----

  /** Some version from `lo` on gave this answer for this name. */
  ghost predicate Genuine(s: Sys, name: string, answer: Option<string>, lo: nat) {
    exists v :: lo <= v < |s.history| && Lookup(s.history[v], name) == answer
  }

  /** The version at which the refresh began that last looked for this name. */
  function LoadedFrom(s: Sys, n: string): nat {
    if !s.kind.ABTests? then s.filled.version
    else if n in s.loads then s.loads[n].version
    else s.floor
  }

  /** A name that the cache does not hold is an answer too, except for the A/B tests. */
  ghost predicate EntriesGenuine(s: Sys, m: Entries) {
    forall n :: (s.kind.ABTests? ==> n in m) ==> Genuine(s, n, Cached(m, n), LoadedFrom(s, n))
  }

  /** The same of the map that a refresh of this name is about to store. */
  ghost predicate NextEntriesGenuine(s: Sys, m: Entries, name: string) {
    forall n :: (s.kind.ABTests? ==> n in m) ==>
      Genuine(s, n, Cached(m, n), if s.kind.ABTests? && n != name then LoadedFrom(s, n) else s.began.version)
  }

  ghost predicate AboveTheFloor(s: Sys) {
    && (s.cache.Some? ==> s.floor <= s.filled.version)
    && (forall n | n in s.loads :: s.floor <= s.loads[n].version)
  }

  ghost predicate RefreshInv(s: Sys, ph: Phase)
    requires ph.Refreshing?
  {
    && (ph.names.None? ==> ph.loaded == map[] && ph.pending == {})
    && (ph.names.Some? && s.kind.Prompts? ==>
          && ph.loaded.Keys <= ph.names.value && ph.pending <= ph.names.value
          && (forall n | n !in ph.names.value :: Genuine(s, n, None, s.began.version))
          && (forall n | n in ph.pending :: n !in ph.loaded)
          && (forall n | n in ph.names.value && n !in ph.pending ::
               Genuine(s, n, Cached(ph.loaded, n), s.began.version)))
    && (ph.names.Some? && !s.kind.Prompts? ==> ph.pending == {} && NextEntriesGenuine(s, ph.loaded, ph.name))
  }

  ghost predicate PhaseInv(s: Sys, i: nat)
    requires i < |s.readers|
  {
    match s.readers[i]
    case Idle => true
    case Called(_, since) => since <= s.floor
    case Missed(_, since) => since <= s.floor
    case Refreshing(_, since, _, _, _) =>
      && since <= s.floor <= s.began.version < |s.history|
      && s.lock == Held(i) && RefreshInv(s, s.readers[i])
    case Answered(name, since, answer) =>
      (s.kind.ABTests? ==> answer.Some?) ==> Genuine(s, name, answer, since)
    case Errored(_) => !s.kind.Prompts?
  }

  ghost predicate Inv(s: Sys) {
    && s.history != [] && s.floor < |s.history|
    && (forall v | 0 <= v < |s.history| :: WellFormed(s.history[v]))
    && (s.cache.Some? ==> EntriesGenuine(s, s.cache.value)) && AboveTheFloor(s)
    && (s.lock.Held? ==> s.lock.i < |s.readers| && s.readers[s.lock.i].Refreshing?)
    && (forall i | 0 <= i < |s.readers| :: PhaseInv(s, i))
  }

  /** The store's history only grows, so what was genuine stays so. */
  lemma GenuineStays(s: Sys, t: Sys, name: string, answer: Option<string>, lo: nat, lo': nat)
    requires s.history <= t.history && lo' <= lo && Genuine(s, name, answer, lo)
    ensures Genuine(t, name, answer, lo')
  {
    var v :| lo <= v < |s.history| && Lookup(s.history[v], name) == answer;
    assert t.history[v] == s.history[v];
  }

  lemma CurrentIsGenuine(s: Sys, name: string, lo: nat)
    requires lo < |s.history|
    ensures Genuine(s, name, Lookup(Current(s), name), lo)
  {
    assert s.history[|s.history| - 1] == Current(s);
  }

  /** A step that neither invalidates nor fills the cache nor starts a refresh. */
  predicate SameMoments(s: Sys, t: Sys) {
    t.kind == s.kind && t.floor == s.floor && t.began == s.began && t.filled == s.filled && t.loads == s.loads
  }

  lemma EntriesStay(s: Sys, t: Sys, m: Entries)
    requires s.history <= t.history && EntriesGenuine(s, m)
    requires t.kind == s.kind && forall n :: LoadedFrom(t, n) == LoadedFrom(s, n)
    ensures EntriesGenuine(t, m)
  {
    forall n | s.kind.ABTests? ==> n in m
      ensures Genuine(t, n, Cached(m, n), LoadedFrom(t, n))
    {
      GenuineStays(s, t, n, Cached(m, n), LoadedFrom(s, n), LoadedFrom(t, n));
    }
  }

  lemma NextEntriesStay(s: Sys, t: Sys, m: Entries, name: string)
    requires s.history <= t.history && SameMoments(s, t) && NextEntriesGenuine(s, m, name)
    ensures NextEntriesGenuine(t, m, name)
  {
    forall n | s.kind.ABTests? ==> n in m
      ensures Genuine(t, n, Cached(m, n), if s.kind.ABTests? && n != name then LoadedFrom(t, n) else t.began.version)
    {
      var lo := if s.kind.ABTests? && n != name then LoadedFrom(s, n) else s.began.version;
      GenuineStays(s, t, n, Cached(m, n), lo, lo);
    }
  }

  lemma RefreshStays(s: Sys, t: Sys, ph: Phase)
    requires s.history <= t.history && SameMoments(s, t)
    requires ph.Refreshing? && RefreshInv(s, ph)
    ensures RefreshInv(t, ph)
  {
    if ph.names.Some? {
      if s.kind.Prompts? {
        forall n | n !in ph.names.value
          ensures Genuine(t, n, None, t.began.version)
        {
          GenuineStays(s, t, n, None, s.began.version, t.began.version);
        }
        forall n | n in ph.names.value && n !in ph.pending
          ensures Genuine(t, n, Cached(ph.loaded, n), t.began.version)
        {
          GenuineStays(s, t, n, Cached(ph.loaded, n), s.began.version, t.began.version);
        }
      } else {
        NextEntriesStay(s, t, ph.loaded, ph.name);
      }
    }
  }

  /** A reader that does not move keeps its invariant, whatever else happens. */
  lemma OthersStay(s: Sys, t: Sys, i: nat)
    requires Inv(s) && i < |s.readers| == |t.readers| && t.readers[i] == s.readers[i]
    requires s.history <= t.history && t.kind == s.kind && s.floor <= t.floor
    requires s.readers[i].Refreshing? ==> SameMoments(s, t) && t.lock == s.lock
    ensures PhaseInv(t, i)
  {
    assert PhaseInv(s, i);
    match s.readers[i] {
      case Refreshing(_, _, _, _, _) => RefreshStays(s, t, s.readers[i]);
      case Answered(name, since, answer) =>
        if s.kind.ABTests? ==> answer.Some? { GenuineStays(s, t, name, answer, since, since); }
      case _ =>
    }
  }

  /** Only the refreshing reader holds the lock, so an invalidation never meets a refresh. */
  lemma FreeMeansNoRefresh(s: Sys, i: nat)
    requires Inv(s) && s.lock == Free && i < |s.readers|
    ensures !s.readers[i].Refreshing?
  {
    assert PhaseInv(s, i);
  }

  /** A failed read of the store: "no test" for an A/B call, an error for a routing call, and the cache as it was. */
  lemma FailedRefresh(s: Sys, i: nat)
    requires Enabled(s, Fail(i))
    ensures var t := Apply(s, Fail(i));
            && t.cache == s.cache && t.exp == s.exp && t.lock == Free && !s.kind.Prompts?
            && (s.kind.ABTests? ==> t.readers[i] == Answered(s.readers[i].name, s.readers[i].since, None))
            && (s.kind.Routing? ==> t.readers[i] == Errored(s.readers[i].name))
  {
  }

  /** The reader that a step moves. */
  function Mover(e: Event): Option<nat> {
    match e
    case Write(_) => None
    case Tick(_) => None
    case Invalidate => None
    case Call(i, _) => Some(i)
    case FastRead(i) => Some(i)
    case Acquire(i) => Some(i)
    case ListNames(i) => Some(i)
    case Fetch(i, _) => Some(i)
    case GetRouting(i) => Some(i)
    case GetActive(i) => Some(i)
    case Fail(i) => Some(i)
    case StoreFresh(i) => Some(i)
  }

  /** What a step leaves alone. */
  lemma StepFrame(s: Sys, e: Event)
    requires Enabled(s, e)
    ensures var t := Apply(s, e);
            && t.kind == s.kind && s.history <= t.history && |t.readers| == |s.readers|
            && (e != Invalidate ==> t.floor == s.floor)
            && (forall j | 0 <= j < |s.readers| && Mover(e) != Some(j) :: t.readers[j] == s.readers[j])
            && (!e.Acquire? && !e.Fail? && !e.StoreFresh? ==> t.lock == s.lock)
            && (!e.Invalidate? && !e.StoreFresh? ==> t.cache == s.cache && t.filled == s.filled && t.loads == s.loads)
            && (!e.Invalidate? && !e.StoreFresh? && !e.Acquire? ==> SameMoments(s, t))
  {
  }

  lemma AnswerFromCache(s: Sys, i: nat, name: string, since: nat)
    requires Inv(s) && Fresh(s) && since <= s.floor
    ensures var answer := Cached(s.cache.value, name);
            (s.kind.ABTests? ==> answer.Some?) ==> Genuine(s, name, answer, since)
  {
    var answer := Cached(s.cache.value, name);
    if s.kind.ABTests? ==> answer.Some? {
      assert Genuine(s, name, answer, LoadedFrom(s, name));
      GenuineStays(s, s, name, answer, LoadedFrom(s, name), since);
    }
  }

  lemma CallMoves(s: Sys, e: Event)
    requires Inv(s) && Enabled(s, e) && (e.Call? || e.FastRead? || e.Acquire?)
    ensures PhaseInv(Apply(s, e), e.i)
  {
    assert PhaseInv(s, e.i);
    var t := Apply(s, e);
    StepFrame(s, e);
    if !e.Call? && Fresh(s) {
      var ph := s.readers[e.i];
      AnswerFromCache(s, e.i, ph.name, ph.since);
      if s.kind.ABTests? ==> Cached(s.cache.value, ph.name).Some? {
        GenuineStays(s, t, ph.name, Cached(s.cache.value, ph.name), ph.since, ph.since);
      }
    }
  }

  lemma ListMoves(s: Sys, e: Event)
    requires Inv(s) && Enabled(s, e) && e.ListNames?
    ensures PhaseInv(Apply(s, e), e.i)
  {
    assert PhaseInv(s, e.i);
    var t := Apply(s, e);
    var names := s.kind.seeded + Current(s).names;
    forall n | n !in names
      ensures Genuine(t, n, None, t.began.version)
    {
      CurrentIsGenuine(s, n, s.began.version);
      GenuineStays(s, t, n, None, s.began.version, t.began.version);
    }
  }

  lemma FetchMoves(s: Sys, e: Event)
    requires Inv(s) && Enabled(s, e) && e.Fetch?
    ensures PhaseInv(Apply(s, e), e.i)
  {
    assert PhaseInv(s, e.i);
    var t := Apply(s, e);
    var ph, ph' := s.readers[e.i], t.readers[e.i];
    RefreshStays(s, t, ph);
    CurrentIsGenuine(s, e.n, s.began.version);
    GenuineStays(s, t, e.n, Lookup(Current(s), e.n), s.began.version, t.began.version);
    forall n | n in ph'.names.value && n !in ph'.pending
      ensures Genuine(t, n, Cached(ph'.loaded, n), t.began.version)
    {
      assert n == e.n || n !in ph.pending;
    }
  }

  lemma GetMoves(s: Sys, e: Event)
    requires Inv(s) && Enabled(s, e) && (e.GetRouting? || e.GetActive?)
    ensures PhaseInv(Apply(s, e), e.i)
  {
    assert PhaseInv(s, e.i);
    var t := Apply(s, e);
    var name, loaded := s.readers[e.i].name, t.readers[e.i].loaded;
    forall n | s.kind.ABTests? ==> n in loaded
      ensures Genuine(t, n, Cached(loaded, n),
                      if s.kind.ABTests? && n != name then LoadedFrom(t, n) else t.began.version)
    {
      if e.GetRouting? || n == name {
        assert Cached(loaded, n) == Lookup(Current(s), n);
        CurrentIsGenuine(s, n, s.began.version);
        GenuineStays(s, t, n, Lookup(Current(s), n), s.began.version, s.began.version);
      } else {
        assert s.cache.Some? && n in s.cache.value && Cached(loaded, n) == Cached(s.cache.value, n);
        GenuineStays(s, t, n, Cached(s.cache.value, n), LoadedFrom(s, n), LoadedFrom(s, n));
      }
    }
  }

  /** The refreshed map holds nothing but answers from after the start of the refresh that loaded them. */
  lemma FreshIsGenuine(s: Sys, i: nat)
    requires Inv(s) && IsRefreshing(s, i) && s.readers[i].names.Some? && s.readers[i].pending == {}
    ensures NextEntriesGenuine(s, s.readers[i].loaded, s.readers[i].name)
  {
    assert PhaseInv(s, i);
    var ph := s.readers[i];
    if s.kind.Prompts? {
      forall n
        ensures Genuine(s, n, Cached(ph.loaded, n), s.began.version)
      {
        if n !in ph.names.value { assert n !in ph.loaded; }
      }
    }
  }

  lemma StoreMoves(s: Sys, e: Event)
    requires Inv(s) && Enabled(s, e) && e.StoreFresh?
    ensures PhaseInv(Apply(s, e), e.i) && EntriesGenuine(Apply(s, e), Apply(s, e).cache.value)
  {
    assert PhaseInv(s, e.i);
    var t := Apply(s, e);
    var ph := s.readers[e.i];
    FreshIsGenuine(s, e.i);
    forall n | s.kind.ABTests? ==> n in ph.loaded
      ensures Genuine(t, n, Cached(ph.loaded, n), LoadedFrom(t, n))
    {
      var lo := if s.kind.ABTests? && n != ph.name then LoadedFrom(s, n) else s.began.version;
      GenuineStays(s, t, n, Cached(ph.loaded, n), lo, LoadedFrom(t, n));
    }
    var answer := Cached(ph.loaded, ph.name);
    if s.kind.ABTests? ==> answer.Some? {
      assert Genuine(t, ph.name, answer, LoadedFrom(t, ph.name));
      GenuineStays(t, t, ph.name, answer, LoadedFrom(t, ph.name), ph.since);
    }
  }

  lemma PhaseNext(s: Sys, e: Event, i: nat)
    requires Inv(s) && Enabled(s, e) && i < |s.readers|
    ensures i < |Apply(s, e).readers| && PhaseInv(Apply(s, e), i)
  {
    StepFrame(s, e);
    if Mover(e) == Some(i) {
      match e {
        case ListNames(_) => ListMoves(s, e);
        case Fetch(_, _) => FetchMoves(s, e);
        case GetRouting(_) => GetMoves(s, e);
        case GetActive(_) => GetMoves(s, e);
        case StoreFresh(_) => StoreMoves(s, e);
        case Fail(_) =>
        case _ => CallMoves(s, e);
      }
    } else {
      assert PhaseInv(s, i);
      if s.lock == Free { FreeMeansNoRefresh(s, i); }
      OthersStay(s, Apply(s, e), i);
    }
  }

  lemma CacheNext(s: Sys, e: Event)
    requires Inv(s) && Enabled(s, e)
    ensures var t := Apply(s, e);
            && t.floor < |t.history| && AboveTheFloor(t)
            && (t.cache.Some? ==> EntriesGenuine(t, t.cache.value))
            && (t.lock.Held? ==> t.lock.i < |t.readers| && t.readers[t.lock.i].Refreshing?)
  {
    var t := Apply(s, e);
    StepFrame(s, e);
    if e.StoreFresh? {
      assert PhaseInv(s, e.i);
      StoreMoves(s, e);
    } else if t.cache.Some? {
      EntriesStay(s, t, s.cache.value);
    }
  }

  lemma InvNext(s: Sys, e: Event)
    requires Inv(s)
    ensures Inv(Next(s, e))
  {
    if Enabled(s, e) {
      var t := Apply(s, e);
      StepFrame(s, e);
      CacheNext(s, e);
      forall i | 0 <= i < |t.readers|
        ensures PhaseInv(t, i)
      {
        PhaseNext(s, e, i);
      }
      assert forall v | 0 <= v < |t.history| :: WellFormed(t.history[v]);
    }
  }

  lemma InitialInv(s: Sys)
    requires Initial(s)
    ensures Inv(s)
  {
  }

  /** The invariant holds on; versions are added, and the floor never falls. */
  lemma {:induction false} InvRun(s: Sys, schedule: seq<Event>)
    requires Inv(s)
    ensures Inv(Run(s, schedule))
    ensures Run(s, schedule).kind == s.kind && |Run(s, schedule).readers| == |s.readers|
    ensures s.floor <= Run(s, schedule).floor && s.history <= Run(s, schedule).history
    decreases |schedule|
  {
    if schedule != [] {
      var n := |schedule| - 1;
      var mid := Run(s, schedule[..n]);
      InvRun(s, schedule[..n]);
      InvNext(mid, schedule[n]);
      if Enabled(mid, schedule[n]) { StepFrame(mid, schedule[n]); }
    }
  }

  // ---- What a read may return ----

  /** What a call remembers is the floor it started at, until it has answered. */
  lemma {:induction false} SinceIsTheFloorAtTheCall(s: Sys, i: nat, name: string, schedule: seq<Event>)
    requires Inv(s) && Enabled(s, Call(i, name))
    ensures var t := Run(Apply(s, Call(i, name)), schedule);
            i < |t.readers|
            && (t.readers[i].Called? || t.readers[i].Missed? || t.readers[i].Refreshing? || t.readers[i].Answered? ==>
                  t.readers[i].since == s.floor && t.readers[i].name == name)
            && t.readers[i] != Idle
    decreases |schedule|
  {
    if schedule != [] {
      var n := |schedule| - 1;
      SinceIsTheFloorAtTheCall(s, i, name, schedule[..n]);
      var mid := Run(Apply(s, Call(i, name)), schedule[..n]);
      if Enabled(mid, schedule[n]) { StepFrame(mid, schedule[n]); }
    }
  }

  /** A call of reader i that has been answered by the end of the schedule; of the A/B cache, with a test. */
  ghost predicate Answers(s: Sys, i: nat, name: string, schedule: seq<Event>) {
    && Enabled(s, Call(i, name))
    && i < |Run(Apply(s, Call(i, name)), schedule).readers|
    && Run(Apply(s, Call(i, name)), schedule).readers[i].Answered?
    && (s.kind.ABTests? ==> Run(Apply(s, Call(i, name)), schedule).readers[i].answer.Some?)
  }

  /** An answer is what the store held, for that name, at the floor of the call or later. */
  lemma AnswersAreGenuine(s: Sys, i: nat, name: string, schedule: seq<Event>)
    requires Inv(s) && Answers(s, i, name, schedule)
    ensures var t := Run(Apply(s, Call(i, name)), schedule);
            Genuine(t, name, t.readers[i].answer, s.floor)
  {
    InvNext(s, Call(i, name));
    InvRun(Apply(s, Call(i, name)), schedule);
    SinceIsTheFloorAtTheCall(s, i, name, schedule);
    assert PhaseInv(Run(Apply(s, Call(i, name)), schedule), i);
  }

  /** A write, anything, and then an `Invalidate`. */
  ghost predicate Invalidates(s: Sys, r: Repo, between: seq<Event>) {
    WellFormed(r) && Enabled(Run(Next(s, Write(r)), between), Invalidate)
  }

  ghost function AfterInvalidate(s: Sys, r: Repo, between: seq<Event>, after: seq<Event>): Sys {
    Run(Next(Run(Next(s, Write(r)), between), Invalidate), after)
  }

  /**
   * A write, later an `Invalidate`, later a call, with anything going on before, between and
   * after: a prompt or routing read answers what the store held with that write or later, though
   * a refresh reads the store name by name while writes go on; so does an A/B answer other than
   * "no test".
   */
  lemma ReadAfterInvalidateSeesTheWrite(s: Sys, before: seq<Event>, r: Repo, between: seq<Event>,
                                        after: seq<Event>, i: nat, name: string, rest: seq<Event>)
    requires Initial(s) && Invalidates(Run(s, before), r, between)
    requires Answers(AfterInvalidate(Run(s, before), r, between, after), i, name, rest)
    ensures var s1 := Run(s, before);
            var t := Run(Apply(AfterInvalidate(s1, r, between, after), Call(i, name)), rest);
            && Genuine(t, name, t.readers[i].answer, |s1.history|)
            && Next(s1, Write(r)).history == s1.history + [r]
  {
    var s1 := Run(s, before);
    var s2 := Next(s1, Write(r));
    var s3 := Run(s2, between);
    var s4 := Next(s3, Invalidate);
    var s5 := Run(s4, after);
    InitialInv(s);
    InvRun(s, before);
    InvNext(s1, Write(r));
    InvRun(s2, between);
    InvNext(s3, Invalidate);
    InvRun(s4, after);
    AnswersAreGenuine(s5, i, name, rest);
    var t := Run(Apply(s5, Call(i, name)), rest);
    GenuineStays(t, t, name, t.readers[i].answer, s5.floor, |s1.history|);
  }

  /** For the A/B cache too, what is held for a loaded name - "no test" included - is genuine. */
  lemma LoadedNamesAreGenuine(s: Sys, schedule: seq<Event>, name: string)
    requires Initial(s)
    requires Run(s, schedule).cache.Some? && name in Run(s, schedule).cache.value
    ensures Genuine(Run(s, schedule), name, Run(s, schedule).cache.value[name], Run(s, schedule).floor)
  {
    InitialInv(s);
    InvRun(s, schedule);
    var t := Run(s, schedule);
    assert Genuine(t, name, Cached(t.cache.value, name), LoadedFrom(t, name));
    GenuineStays(t, t, name, Cached(t.cache.value, name), LoadedFrom(t, name), t.floor);
  }

  // ---- Where the A/B cache does not answer from the store ----

  ghost function HeldNames(s: Sys): set<string> {
    if s.cache.Some? then s.cache.value.Keys else {}
  }

  /** The names that a refresh has loaded since the last invalidation. */
  ghost function LoadedNames(s: Sys, schedule: seq<Event>): set<string> {
    if schedule == [] then {}
    else
      var n := |schedule| - 1;
      var t, e := Run(s, schedule[..n]), schedule[n];
      if !Enabled(t, e) then LoadedNames(s, schedule[..n])
      else if e.Invalidate? then {}
      else if e.StoreFresh? then LoadedNames(s, schedule[..n]) + {t.readers[e.i].name}
      else LoadedNames(s, schedule[..n])
  }

  /** The names held have their moments, and a refresh adds its one name to them. */
  ghost predicate RefreshAdds(s: Sys) {
    HeldNames(s) == s.loads.Keys &&
    forall i | 0 <= i < |s.readers| && s.readers[i].Refreshing? && s.readers[i].names.Some? ::
      s.readers[i].loaded.Keys == HeldNames(s) + {s.readers[i].name}
  }

  lemma OneRefresh(s: Sys, i: nat, j: nat)
    requires Inv(s) && i < |s.readers| && j < |s.readers| && s.readers[i].Refreshing? && s.readers[j].Refreshing?
    ensures i == j
  {
    assert PhaseInv(s, i) && PhaseInv(s, j);
  }

  lemma RefreshAddsNext(s: Sys, e: Event)
    requires Inv(s) && s.kind.ABTests? && Enabled(s, e) && RefreshAdds(s)
    ensures RefreshAdds(Apply(s, e))
    ensures HeldNames(Apply(s, e)) ==
            if e.Invalidate? then {} else if e.StoreFresh? then HeldNames(s) + {s.readers[e.i].name} else HeldNames(s)
  {
    var t := Apply(s, e);
    StepFrame(s, e);
    forall i | 0 <= i < |t.readers| && t.readers[i].Refreshing? && t.readers[i].names.Some?
      ensures t.readers[i].loaded.Keys == HeldNames(t) + {t.readers[i].name}
    {
      if Mover(e) != Some(i) {
        assert t.readers[i] == s.readers[i];
        if e.Invalidate? { FreeMeansNoRefresh(s, i); }
        if e.StoreFresh? { OneRefresh(s, i, e.i); }
      }
    }
  }

  /** In every reachable state the A/B cache holds exactly the names loaded since the last invalidation. */
  lemma {:induction false} HeldIsLoaded(s: Sys, schedule: seq<Event>)
    requires Initial(s) && s.kind.ABTests?
    ensures var t := Run(s, schedule);
            && t.kind == s.kind && Inv(t) && RefreshAdds(t)
            && HeldNames(t) == t.loads.Keys == LoadedNames(s, schedule)
    decreases |schedule|
  {
    if schedule == [] {
      InitialInv(s);
    } else {
      var n := |schedule| - 1;
      var t := Run(s, schedule[..n]);
      HeldIsLoaded(s, schedule[..n]);
      InvNext(t, schedule[n]);
      if Enabled(t, schedule[n]) {
        RefreshAddsNext(t, schedule[n]);
        StepFrame(t, schedule[n]);
      }
    }
  }

  /** A read that is answered by a cache in its time, under either lock. */
  ghost predicate ReadsCache(s: Sys, e: Event) {
    Enabled(s, e) && (e.FastRead? || e.Acquire?) && Fresh(s)
  }

  /**
   * In every reachable state, a read that the A/B cache answers for a name that was not loaded
   * since the last invalidation answers "no test". Its answer is genuine exactly when the name
   * was loaded, or the store has indeed been without a test for it since then.
   */
  lemma CachedAnswerIsGenuineIff(s: Sys, schedule: seq<Event>, e: Event)
    requires Initial(s) && s.kind.ABTests? && ReadsCache(Run(s, schedule), e)
    ensures var t, u, loaded := Run(s, schedule), Next(Run(s, schedule), e), LoadedNames(s, schedule);
            var name := t.readers[e.i].name;
            && u.readers[e.i].Answered? && u.readers[e.i].name == name
            && (name !in loaded ==> u.readers[e.i].answer == None)
            && (Genuine(u, name, u.readers[e.i].answer, u.floor) <==> name in loaded || Genuine(t, name, None, t.floor))
  {
    HeldIsLoaded(s, schedule);
    var t := Run(s, schedule);
    var name := t.readers[e.i].name;
    assert Next(t, e).history == t.history && Next(t, e).floor == t.floor;
    if name in t.cache.value {
      assert Genuine(t, name, Cached(t.cache.value, name), LoadedFrom(t, name));
      GenuineStays(t, Next(t, e), name, Cached(t.cache.value, name), LoadedFrom(t, name), t.floor);
    } else if Genuine(t, name, None, t.floor) {
      GenuineStays(t, Next(t, e), name, None, t.floor, t.floor);
    } else if Genuine(Next(t, e), name, None, t.floor) {
      GenuineStays(Next(t, e), t, name, None, t.floor, t.floor);
    }
  }

  // ---- How old an answer can be ----

  /** At this time this version was the store's contents. */
  ghost predicate WasCurrent(s: Sys, m: Moment) {
    && m.version < |s.history| == |s.written|
    && s.written[m.version] <= m.clock <= s.clock
    && (m.version + 1 < |s.written| ==> m.clock <= s.written[m.version + 1])
  }

  ghost predicate WritesInOrder(s: Sys) {
    && |s.written| == |s.history|
    && (forall v, w | 0 <= v <= w < |s.written| :: s.written[v] <= s.written[w])
    && (forall v | 0 <= v < |s.written| :: s.written[v] <= s.clock)
  }

  ghost predicate Timed(s: Sys) {
    && WritesInOrder(s) && s.ttl > 0
    && (s.lock.Held? ==> WasCurrent(s, s.began))
    && (s.cache.Some? ==> WasCurrent(s, s.filled) && s.filled.clock <= s.exp - s.ttl <= s.clock)
    && (forall n | n in s.loads :: WasCurrent(s, s.loads[n]))
  }

  lemma WasCurrentStays(s: Sys, e: Event, m: Moment)
    requires Enabled(s, e) && WasCurrent(s, m)
    ensures WasCurrent(Apply(s, e), m)
  {
  }

  lemma WritesStayInOrder(s: Sys, e: Event)
    requires Enabled(s, e) && WritesInOrder(s)
    ensures WritesInOrder(Apply(s, e))
  {
  }

  lemma LoadsNext(s: Sys, e: Event)
    requires Timed(s) && Enabled(s, e)
    ensures forall n | n in Apply(s, e).loads :: WasCurrent(Apply(s, e), Apply(s, e).loads[n])
  {
    if e.StoreFresh? { WasCurrentStays(s, e, s.began); }
    forall n | n in s.loads
      ensures WasCurrent(Apply(s, e), s.loads[n])
    {
      WasCurrentStays(s, e, s.loads[n]);
    }
  }

  lemma TimedNext(s: Sys, e: Event)
    requires Timed(s)
    ensures Timed(Next(s, e))
  {
    if Enabled(s, e) {
      WritesStayInOrder(s, e);
      LoadsNext(s, e);
      if s.lock.Held? { WasCurrentStays(s, e, s.began); }
      if s.cache.Some? { WasCurrentStays(s, e, s.filled); }
    }
  }

  lemma {:induction false} TimedRun(s: Sys, schedule: seq<Event>)
    requires Initial(s)
    ensures Timed(Run(s, schedule))
    decreases |schedule|
  {
    if schedule != [] {
      var n := |schedule| - 1;
      TimedRun(s, schedule[..n]);
      TimedNext(Run(s, schedule[..n]), schedule[n]);
    }
  }

  /** The store gave this answer at some moment that was not before `time`: it holds it still, or replaced it later. */
  ghost predicate HeldSince(s: Sys, name: string, answer: Option<string>, time: int) {
    exists v :: 0 <= v < |s.history| && Lookup(s.history[v], name) == answer
                && (v + 1 < |s.history| == |s.written| ==> time <= s.written[v + 1])
  }

  lemma GenuineIsHeld(s: Sys, name: string, answer: Option<string>, m: Moment, time: int)
    requires Timed(s) && WasCurrent(s, m) && Genuine(s, name, answer, m.version) && time <= m.clock
    ensures HeldSince(s, name, answer, time)
  {
    var v :| m.version <= v < |s.history| && Lookup(s.history[v], name) == answer;
    if v + 1 < |s.written| { assert s.written[m.version + 1] <= s.written[v + 1]; }
  }

  /** A step that answers a call: from a cache in its time under either lock, or from the refresh that ends. */
  ghost predicate Answering(s: Sys, e: Event) {
    ReadsCache(s, e) || (Enabled(s, e) && e.StoreFresh?)
  }

  /** The time that the refresh took which filled the cache. */
  function RefreshTime(s: Sys): int {
    s.exp - s.ttl - s.filled.clock
  }

  /** The start of the refresh that last looked for this name. */
  function LoadMoment(s: Sys, n: string): Moment {
    if s.kind.ABTests? && n in s.loads then s.loads[n] else s.filled
  }

  lemma AnsweredFromLoad(s: Sys, e: Event)
    requires Inv(s) && Answering(s, e)
    requires s.kind.ABTests? ==> s.readers[e.i].name in HeldNames(Next(s, e))
    ensures var u, name := Next(s, e), s.readers[e.i].name;
            && u.readers[e.i].Answered? && u.cache.Some? && u.readers[e.i].answer == Cached(u.cache.value, name)
            && Genuine(u, name, u.readers[e.i].answer, LoadedFrom(u, name))
  {
    InvNext(s, e);
    var u, name := Next(s, e), s.readers[e.i].name;
    assert Genuine(u, name, Cached(u.cache.value, name), LoadedFrom(u, name));
  }

  /** Not older than its load and, after the last refresh, than the cache's lifetime and that refresh. */
  ghost predicate RecentAnswer(u: Sys, name: string, answer: Option<string>) {
    && HeldSince(u, name, answer, LoadMoment(u, name).clock)
    && (LoadMoment(u, name) == u.filled ==> HeldSince(u, name, answer, u.clock - u.ttl - RefreshTime(u)))
  }

  lemma RecentFromLoad(u: Sys, name: string, answer: Option<string>)
    requires Timed(u) && u.cache.Some? && u.clock <= u.exp && Genuine(u, name, answer, LoadMoment(u, name).version)
    ensures RecentAnswer(u, name, answer)
  {
    var m := LoadMoment(u, name);
    GenuineIsHeld(u, name, answer, m, m.clock);
    if m == u.filled { GenuineIsHeld(u, name, answer, m, u.clock - u.ttl - RefreshTime(u)); }
  }

  lemma AnsweredRecently(s: Sys, e: Event)
    requires Inv(s) && Timed(s) && Answering(s, e)
    requires s.kind.ABTests? ==> s.readers[e.i].name in HeldNames(Next(s, e)) && s.readers[e.i].name in Next(s, e).loads
    ensures RecentAnswer(Next(s, e), s.readers[e.i].name, Next(s, e).readers[e.i].answer)
  {
    var u, name := Next(s, e), s.readers[e.i].name;
    AnsweredFromLoad(s, e);
    TimedNext(s, e);
    RecentFromLoad(u, name, u.readers[e.i].answer);
  }

  /**
   * Also without any invalidation: in every reachable state each answer is what the store held at
   * some moment not before the refresh that loaded it began. For prompts and routing, and for an
   * A/B name of the last refresh, that moment is at most the lifetime of the cache and the time
   * of that refresh ago.
   */
  lemma BoundedStaleness(s: Sys, schedule: seq<Event>, e: Event)
    requires Initial(s) && Answering(Run(s, schedule), e)
    requires s.kind.ABTests? ==> Run(s, schedule).readers[e.i].name in HeldNames(Next(Run(s, schedule), e))
    ensures var t, u := Run(s, schedule), Next(Run(s, schedule), e);
            && u.readers[e.i].Answered? && u.readers[e.i].name == t.readers[e.i].name
            && RecentAnswer(u, t.readers[e.i].name, u.readers[e.i].answer)
  {
    TimedRun(s, schedule);
    InitialInv(s);
    InvRun(s, schedule);
    if s.kind.ABTests? {
      HeldIsLoaded(s, schedule + [e]);
      assert (schedule + [e])[..|schedule|] == schedule;
    }
    AnsweredRecently(Run(s, schedule), e);
  }

  // ---- Answers between two refreshes ----

  /** A filled cache in its time is not touched until it expires or is invalidated. */
  lemma {:induction false} StaysFilled(s: Sys, between: seq<Event>)
    requires Inv(s) && s.lock == Free && s.cache.Some? && Invalidate !in between && Run(s, between).clock < s.exp
    ensures var t := Run(s, between);
            t.cache == s.cache && t.exp == s.exp && t.lock == Free
    decreases |between|
  {
    if between != [] {
      var n := |between| - 1;
      var mid, e := Run(s, between[..n]), between[n];
      assert between[n] in between && mid.clock <= Next(mid, e).clock;
      StaysFilled(s, between[..n]);
    }
  }

  /**
   * Two answers for one name, with anything but an invalidation in between and before the cache
   * of the first has expired: the two are the same, whatever is written meanwhile.
   */
  lemma AnswersAgree(s: Sys, e: Event, between: seq<Event>, e': Event)
    requires Inv(s) && Answering(s, e) && Invalidate !in between
    requires Answering(Run(Next(s, e), between), e') && Run(Next(s, e), between).clock < Next(s, e).exp
    requires Run(Next(s, e), between).readers[e'.i].name == s.readers[e.i].name
    ensures var u, v := Next(s, e), Next(Run(Next(s, e), between), e');
            u.readers[e.i].Answered? && v.readers[e'.i].Answered? && u.readers[e.i].answer == v.readers[e'.i].answer
  {
    var u := Next(s, e);
    InvNext(s, e);
    StaysFilled(u, between);
  }

  // ---- Runs of the A/B cache ----

  /** Two readers, a test active on "b" from the start. */
  function TwoReaders(): Sys {
    Sys(ABTests, 60, [Repo({"a", "b"}, map["b" := "test"])], None, 0, 1, Free, [Idle, Idle], 0,
        [1], Moment(0, 0), Moment(0, 0), map[])
  }

  lemma {:induction false} RunConcat(s: Sys, a: seq<Event>, b: seq<Event>)
    ensures Run(s, a + b) == Run(Run(s, a), b)
    decreases |b|
  {
    if b == [] {
      assert a + b == a;
    } else {
      var n := |b| - 1;
      assert (a + b)[..|a| + n] == a + b[..n];
      RunConcat(s, a, b[..n]);
    }
  }

  lemma OneStep(s: Sys, e: Event)
    ensures Run(s, [e]) == Next(s, e)
  {
    assert [e][..0] == [];
  }

  lemma TwoSteps(s: Sys, a: Event, b: Event)
    ensures Run(s, [a, b]) == Next(Next(s, a), b)
  {
    OneStep(s, a);
    assert [a, b][..1] == [a];
  }

  /** A call that misses and loads its name, with nothing in between. */
  function Load(i: nat, name: string): seq<Event> {
    [Call(i, name), FastRead(i)] + [Acquire(i), GetActive(i)] + [StoreFresh(i)]
  }

  function Loaded(s: Sys, i: nat, name: string): Sys
    requires i < |s.readers| && s.history != []
  {
    var m, answer := Moment(|s.history| - 1, s.clock), Lookup(Current(s), name);
    var base := if s.cache.Some? then s.cache.value else map[];
    s.(readers := s.readers[i := Answered(name, s.floor, answer)], cache := Some(base[name := answer]),
       exp := s.clock + s.ttl, began := m, filled := m, loads := s.loads[name := m])
  }

  lemma MissRuns(s: Sys, i: nat, name: string)
    requires s.lock == Free && !Fresh(s) && Enabled(s, Call(i, name))
    ensures Run(s, [Call(i, name), FastRead(i)]) == s.(readers := s.readers[i := Missed(name, s.floor)])
  {
    TwoSteps(s, Call(i, name), FastRead(i));
  }

  lemma HitRuns(s: Sys, i: nat, name: string)
    requires s.lock == Free && Fresh(s) && Enabled(s, Call(i, name))
    ensures Run(s, [Call(i, name), FastRead(i)]) ==
            s.(readers := s.readers[i := Answered(name, s.floor, Cached(s.cache.value, name))])
  {
    TwoSteps(s, Call(i, name), FastRead(i));
  }

  function Loading(s: Sys, name: string): Phase
    requires s.history != []
  {
    var base := if s.cache.Some? then s.cache.value else map[];
    Refreshing(name, s.floor, Some({}), {}, base[name := Lookup(Current(s), name)])
  }

  lemma AcquireStep(s: Sys, i: nat, name: string)
    requires s.lock == Free && !Fresh(s) && s.history != [] && i < |s.readers|
    ensures Next(s.(readers := s.readers[i := Missed(name, s.floor)]), Acquire(i)) ==
            s.(readers := s.readers[i := Refreshing(name, s.floor, None, {}, map[])],
               lock := Held(i), began := Moment(|s.history| - 1, s.clock))
  {
  }

  lemma GetStep(s: Sys, i: nat, name: string, m: Moment)
    requires s.kind.ABTests? && s.history != [] && i < |s.readers|
    ensures Next(s.(readers := s.readers[i := Refreshing(name, s.floor, None, {}, map[])], lock := Held(i), began := m),
                 GetActive(i)) ==
            s.(readers := s.readers[i := Loading(s, name)], lock := Held(i), began := m)
  {
  }

  lemma StoreStep(s: Sys, i: nat, name: string)
    requires s.kind.ABTests? && s.lock == Free && s.history != [] && i < |s.readers|
    ensures Next(s.(readers := s.readers[i := Loading(s, name)], lock := Held(i),
                    began := Moment(|s.history| - 1, s.clock)),
                 StoreFresh(i)) == Loaded(s, i, name)
  {
  }

  lemma ThreeParts(s: Sys, a: seq<Event>, b: seq<Event>, c: seq<Event>)
    ensures Run(s, a + b + c) == Run(Run(Run(s, a), b), c)
  {
    RunConcat(s, a, b);
    RunConcat(s, a + b, c);
  }

  lemma LoadRuns(s: Sys, i: nat, name: string)
    requires s.kind.ABTests? && s.lock == Free && !Fresh(s) && s.history != [] && Enabled(s, Call(i, name))
    ensures Run(s, Load(i, name)) == Loaded(s, i, name)
  {
    ThreeParts(s, [Call(i, name), FastRead(i)], [Acquire(i), GetActive(i)], [StoreFresh(i)]);
    MissRuns(s, i, name);
    AfterMiss(s, i, name);
  }

  lemma AfterMiss(s: Sys, i: nat, name: string)
    requires s.kind.ABTests? && s.lock == Free && !Fresh(s) && s.history != [] && i < |s.readers|
    ensures var missed := s.(readers := s.readers[i := Missed(name, s.floor)]);
            Run(Run(missed, [Acquire(i), GetActive(i)]), [StoreFresh(i)]) == Loaded(s, i, name)
  {
    var missed := s.(readers := s.readers[i := Missed(name, s.floor)]);
    AcquireStep(s, i, name);
    GetStep(s, i, name, Moment(|s.history| - 1, s.clock));
    StoreStep(s, i, name);
    TwoSteps(missed, Acquire(i), GetActive(i));
    OneStep(Next(Next(missed, Acquire(i)), GetActive(i)), StoreFresh(i));
  }

  /**
   * "No test" need not be true: once the cache has been filled for one name, a name that has
   * not been loaded answers "no test" until the expiry, although its test is active.
   */
  lemma UnloadedNameAnswersNone()
    ensures Initial(TwoReaders())
    ensures Lookup(TwoReaders().history[0], "b") == Some("test")
    ensures var t := Run(TwoReaders(), Load(0, "a") + [Call(1, "b"), FastRead(1)]);
            |t.readers| == 2 && t.readers[1] == Answered("b", 0, None) && t.history == TwoReaders().history
  {
    var s := TwoReaders();
    LoadRuns(s, 0, "a");
    RunConcat(s, Load(0, "a"), [Call(1, "b"), FastRead(1)]);
    HitRuns(Loaded(s, 0, "a"), 1, "b");
  }

  /** Three readers: "b" is loaded, its test ends without an invalidation, and time passes. */
  function Aged(age: nat): seq<Event> {
    Load(0, "b") + [Write(Repo({"a", "b"}, map[])), Tick(age)]
  }

  lemma AgedRuns(s: Sys, age: nat)
    requires s == TwoReaders().(readers := [Idle, Idle, Idle])
    ensures Run(s, Aged(age)) ==
            Loaded(s, 0, "b").(history := s.history + [Repo({"a", "b"}, map[])], written := [1, 1], clock := 1 + age)
  {
    LoadRuns(s, 0, "b");
    RunConcat(s, Load(0, "b"), [Write(Repo({"a", "b"}, map[])), Tick(age)]);
    TwoSteps(Loaded(s, 0, "b"), Write(Repo({"a", "b"}, map[])), Tick(age));
  }

  lemma RevivedRuns(s: Sys, age: nat)
    requires age >= 60 && s == TwoReaders().(readers := [Idle, Idle, Idle])
    ensures var t := Run(s, Aged(age) + Load(1, "a") + [Call(2, "b"), FastRead(2)]);
            && |t.readers| == 3 && t.readers[2] == Answered("b", 0, Some("test"))
            && t.history == s.history + [Repo({"a", "b"}, map[])] && t.written == [1, 1] && t.clock == 1 + age
  {
    AgedRuns(s, age);
    var s1 := Run(s, Aged(age));
    LoadRuns(s1, 1, "a");
    HitRuns(Loaded(s1, 1, "a"), 2, "b");
    RunConcat(s, Aged(age), Load(1, "a"));
    RunConcat(s, Aged(age) + Load(1, "a"), [Call(2, "b"), FastRead(2)]);
  }

  /**
   * For the A/B cache there is no such bound: an expired entry is served again once another name
   * is refreshed. After any time at all beyond the expiry, an answer can be a test that the store
   * has not held for all that time.
   */
  lemma RevivedEntryIsOld(age: nat)
    requires age >= 60
    ensures var s := TwoReaders().(readers := [Idle, Idle, Idle]);
            var schedule := Aged(age) + Load(1, "a") + [Call(2, "b"), FastRead(2)];
            var t := Run(s, schedule);
            && Initial(s) && Invalidate !in schedule
            && |t.readers| == 3 && t.readers[2] == Answered("b", 0, Some("test"))
            && !HeldSince(t, "b", Some("test"), t.clock - age + 1)
  {
    RevivedRuns(TwoReaders().(readers := [Idle, Idle, Idle]), age);
  }

  /** A run that meets all that the theorem on invalidations asks for, and in which the new test is answered. */
  lemma SomeReadSeesItsWrite()
    ensures var s, r := TwoReaders(), Repo({"b"}, map["b" := "new"]);
            var rest := [FastRead(0), Acquire(0), GetActive(0), StoreFresh(0)];
            && Initial(s) && Invalidates(Run(s, []), r, [])
            && Answers(AfterInvalidate(Run(s, []), r, [], []), 0, "b", rest)
            && Run(Apply(AfterInvalidate(Run(s, []), r, [], []), Call(0, "b")), rest).readers[0].answer == Some("new")
  {
    var s, r := TwoReaders(), Repo({"b"}, map["b" := "new"]);
    var rest := [FastRead(0), Acquire(0), GetActive(0), StoreFresh(0)];
    var s4 := Next(Next(s, Write(r)), Invalidate);
    assert AfterInvalidate(Run(s, []), r, [], []) == s4;
    var t0 := Apply(s4, Call(0, "b"));
    var t1 := Next(t0, FastRead(0));
    var t2 := Next(t1, Acquire(0));
    var t3 := Next(t2, GetActive(0));
    var t4 := Next(t3, StoreFresh(0));
    assert t4.readers[0] == Answered("b", 1, Some("new"));
    FourSteps(t0, rest);
    assert Run(t0, rest) == t4;
  }

  lemma FourSteps(s: Sys, es: seq<Event>)
    requires |es| == 4
    ensures Run(s, es) == Next(Next(Next(Next(s, es[0]), es[1]), es[2]), es[3])
  {
    assert es[..3][..2] == es[..2] && es[..2][..1] == es[..1] && es[..1][..0] == [];
    assert Run(s, es[..1]) == Next(s, es[0]);
    assert Run(s, es[..2]) == Next(Run(s, es[..1]), es[1]);
    assert Run(s, es[..3]) == Next(Run(s, es[..2]), es[2]);
  }
}
