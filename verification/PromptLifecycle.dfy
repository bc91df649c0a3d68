/**
 * The versions of the prompt templates: seeding, creating and promoting, each split into the
 * single statements that other requests can fall between.
 */
module PromptLifecycle {
  import opened Options

  datatype Key = Key(name: string, version: int)

  datatype Row = Row(body: string, createdBy: string, isProduction: bool)

  type Rows = map<Key, Row>

  // ---- The statements ----

  predicate Insertable(rows: Rows, key: Key) {
    key.name != "" && key.version > 0 && key !in rows
  }

  /** CreateVersion's insert, which the unique index on (name, version) refuses for a taken pair. */
  function Insert(rows: Rows, key: Key, row: Row): Rows {
    if Insertable(rows, key) then rows[key := row] else rows
  }

  function Demote(rows: Rows, name: string): Rows {
    map k | k in rows :: if k.name == name then rows[k].(isProduction := false) else rows[k]
  }

  function Raise(rows: Rows, key: Key): Rows {
    if key in rows then rows[key := rows[key].(isProduction := true)] else rows
  }

  function Promoted(rows: Rows, key: Key): Rows {
    if key in rows then Raise(Demote(rows, key.name), key) else rows
  }

  /** The production versions of a name. */
  ghost function Production(rows: Rows, name: string): set<int> {
    set k | k in rows && k.name == name && rows[k].isProduction :: k.version
  }

  ghost function Versions(rows: Rows, name: string): set<int> {
    set k | k in rows && k.name == name :: k.version
  }

  lemma VersionRow(rows: Rows, name: string, v: int)
    ensures v in Versions(rows, name) <==> Key(name, v) in rows
  {
  }

  // ---- The repository and the handler, one request at a time ----

  lemma {:induction false} HasMaximum(s: set<int>)
    requires |s| > 0
    ensures exists m :: m in s && forall v | v in s :: v <= m
    decreases |s|
  {
    assert (forall x :: x !in s) ==> s == {};
    var x :| x in s;
    if s != {x} {
      assert s - {x} != {} by { assert s == (s - {x}) + {x}; }
      assert |s - {x}| > 0;
      HasMaximum(s - {x});
      var m :| m in s - {x} && forall v | v in s - {x} :: v <= m;
      var top := if m < x then x else m;
      assert top in s && forall v | v in s :: v <= top;
    }
  }

  function Elements(existing: seq<int>): set<int> {
    set v | v in existing
  }

  /** The version after every listed one. */
  ghost predicate IsNext(existing: set<int>, next: int) {
    next >= 1 && (forall v | v in existing :: v < next) && (next == 1 || next - 1 in existing)
  }

  /** The loop of createPromptVersion, over the versions in any order. */
  method NextVersion(existing: seq<int>) returns (next: int)
    ensures IsNext(Elements(existing), next)
  {
    next := 1;
    for k := 0 to |existing|
      invariant IsNext(Elements(existing[..k]), next)
    {
      assert Elements(existing[..k + 1]) == Elements(existing[..k]) + {existing[k]} by {
        assert existing[..k + 1] == existing[..k] + [existing[k]];
        assert forall v :: v in existing[..k + 1] <==> v in existing[..k] || v == existing[k];
      }
      if existing[k] >= next {
        next := existing[k] + 1;
      }
    }
    assert existing[..|existing|] == existing;
  }

  class PromptTemplates {
    var rows: Rows

    constructor ()
      ensures rows == map[]
    {
      rows := map[];
    }

    /** Every version of one name, newest first. */
    method ListVersions(name: string) returns (versions: seq<int>)
      ensures forall v :: v in versions <==> v in Versions(rows, name)
      ensures forall i, j | 0 <= i < j < |versions| :: versions[i] > versions[j]
    {
      var rest := set k | k in rows && k.name == name :: k.version;
      versions := [];
      while rest != {}
        invariant forall v :: v in versions || v in rest <==> v in Versions(rows, name)
        invariant forall v, w | v in versions && w in rest :: v > w
        invariant forall i, j | 0 <= i < j < |versions| :: versions[i] > versions[j]
        decreases |rest|
      {
        HasMaximum(rest);
        var top :| top in rest && forall v | v in rest :: v <= top;
        assert forall i | 0 <= i < |versions| :: versions[i] in versions;
        versions, rest := versions + [top], rest - {top};
      }
    }

    method CreateVersion(key: Key, row: Row) returns (ok: bool)
      modifies this
      ensures ok <==> Insertable(old(rows), key)
      ensures rows == if ok then old(rows)[key := row] else old(rows)
    {
      ok := Insertable(rows, key);
      rows := Insert(rows, key, row);
    }

    /** createPromptVersion: list, compute the next version, insert, never in production. */
    method CreateNext(name: string, body: string, admin: string) returns (key: Option<Key>)
      modifies this
      ensures name == "" <==> key.None?
      ensures key.None? ==> rows == old(rows)
      ensures key.Some? ==> key.value.name == name && IsNext(Versions(old(rows), name), key.value.version)
      ensures key.Some? ==> rows == old(rows)[key.value := Row(body, admin, false)] && key.value !in old(rows)
    {
      var existing := ListVersions(name);
      var next := NextVersion(existing);
      assert Elements(existing) == Versions(rows, name) by {
        forall v ensures v in Elements(existing) <==> v in Versions(rows, name) {
        }
      }
      VersionRow(rows, name, next);
      var ok := CreateVersion(Key(name, next), Row(body, admin, false));
      key := if ok then Some(Key(name, next)) else None;
    }

    /** promoteInternal: count, demote, promote. */
    method PromoteInternal(name: string, version: int) returns (ok: bool)
      modifies this
      ensures ok <==> Key(name, version) in old(rows)
      ensures rows == Promoted(old(rows), Key(name, version))
    {
      if Key(name, version) !in rows {
        return false;
      }
      rows := Demote(rows, name);
      rows := Raise(rows, Key(name, version));
      ok := true;
    }

    /** SeedPromptTemplates, over the defaults in the order in which the map yields them. */
    method Seed(names: seq<string>, defaults: map<string, string>) returns (ok: bool)
      requires forall n | n in names :: n in defaults
      modifies this
      ensures forall k | k in old(rows) :: k in rows && rows[k] == old(rows)[k]
      ensures forall k | k in rows && k !in old(rows) ::
                k.name in names && k.version == 1 && Versions(old(rows), k.name) == {}
                    && rows[k] == Row(defaults[k.name], "", true)
      ensures ok ==> forall n | n in names :: Versions(rows, n) != {}
      ensures !ok ==> "" in names
    {
      for i := 0 to |names|
        invariant forall k | k in old(rows) :: k in rows && rows[k] == old(rows)[k]
        invariant forall k | k in rows && k !in old(rows) ::
                    && k.name in names && k.version == 1 && Versions(old(rows), k.name) == {}
                    && rows[k] == Row(defaults[k.name], "", true)
        invariant forall j | 0 <= j < i :: Versions(rows, names[j]) != {}
      {
        var name := names[i];
        ghost var before := rows;
        var versions := ListVersions(name);
        if |versions| > 0 {
          assert versions[0] in versions;
          continue;
        }
        assert Versions(rows, name) == {} by {
          if v :| v in Versions(rows, name) { assert v in versions; }
        }
        assert Versions(old(rows), name) == {} by {
          assert Versions(old(rows), name) <= Versions(rows, name);
        }
        VersionRow(rows, name, 1);
        var created := CreateVersion(Key(name, 1), Row(defaults[name], "", true));
        if !created {
          return false;
        }
        assert 1 in Versions(rows, name) by { assert Key(name, 1) in rows; }
        forall j | 0 <= j < i ensures Versions(rows, names[j]) != {} {
          var v :| v in Versions(before, names[j]);
          assert Key(names[j], v) in rows;
          assert v in Versions(rows, names[j]);
        }
      }
      ok := true;
    }
  }

  /**
   * A promote of an existing version leaves it the one production version of its name, moves
   * no other name's flags, and changes nothing but flags.
   */
  lemma PromotedExactly(rows: Rows, key: Key)
    requires key in rows
    ensures Production(Promoted(rows, key), key.name) == {key.version}
    ensures forall name | name != key.name :: Production(Promoted(rows, key), name) == Production(rows, name)
    ensures SameButFlags(rows, Promoted(rows, key)) && Promoted(rows, key).Keys == rows.Keys
  {
    var after := Promoted(rows, key);
    forall v ensures v in Production(after, key.name) <==> v == key.version {
      if v in Production(after, key.name) { assert Key(key.name, v) in after; }
      if v == key.version { assert key in after && after[key].isProduction; }
    }
    OtherNames(rows, after, key.name);
  }

  /** A promote of a version that does not exist changes nothing. */
  lemma MissingIsNotPromoted(rows: Rows, key: Key)
    requires key !in rows
    ensures Promoted(rows, key) == rows
  {
  }

  /** Rows stay, with their bodies and authors. */
  ghost predicate SameButFlags(before: Rows, after: Rows) {
    forall k | k in before :: k in after && after[k].body == before[k].body && after[k].createdBy == before[k].createdBy
  }

  lemma OtherNames(before: Rows, after: Rows, name: string)
    requires before.Keys == after.Keys
    requires forall k | k in before && k.name != name :: after[k] == before[k]
    ensures forall other | other != name :: Production(after, other) == Production(before, other)
  {
    forall other | other != name
      ensures Production(after, other) == Production(before, other)
    {
      forall v ensures v in Production(after, other) <==> v in Production(before, other) {
        if v in Production(before, other) { assert Key(other, v) in after; }
        if v in Production(after, other) { assert Key(other, v) in before; }
      }
    }
  }

  // ---- Requests side by side ----

  /** A creator between its listing and its insert, and afterwards. */
  datatype Creator = NotStarted | Listed(name: string, next: int, row: Row) | Created(key: Key) | Refused

  datatype Seeder = Waiting | SawNone(seedName: string, seedBody: string) | Done

  /** A promote that has counted its target, or that has demoted and not yet promoted. */
  datatype Stage = Counted(version: int) | Demoted(version: int)

  /**
   * Any number of creators and seeders, and at most one promote outside a transaction per name.
   * `settled` are the names that were given a production version and not left without one by a
   * promote that stopped half-way.
   */
  datatype Sys = Sys(
    rows: Rows,
    creators: seq<Creator>,
    seeders: seq<Seeder>,
    promoting: map<string, Stage>,
    settled: set<string>)

  datatype Event =
    | CreateList(i: nat, name: string, next: int, row: Row)
    | CreateInsert(i: nat)
    | SeedList(i: nat, seedName: string, body: string)
    | SeedInsert(i: nat)
    | PromoteInTransaction(key: Key)
    | PromoteCount(key: Key)
    | PromoteDemote(name: string)
    | PromoteSet(name: string)
    | PromoteStops(name: string)

  ghost predicate Enabled(s: Sys, e: Event) {
    match e
    case CreateList(i, name, next, row) =>
      i < |s.creators| && s.creators[i].NotStarted? && name != "" && row.body != "" && !row.isProduction
      && IsNext(Versions(s.rows, name), next)
    case CreateInsert(i) => i < |s.creators| && s.creators[i].Listed?
    case SeedList(i, name, body) => i < |s.seeders| && Versions(s.rows, name) == {}
    case SeedInsert(i) => i < |s.seeders| && s.seeders[i].SawNone?
    case PromoteInTransaction(key) => key in s.rows && key.name !in s.promoting
    case PromoteCount(key) => key in s.rows && key.name !in s.promoting
    case PromoteDemote(name) => name in s.promoting && s.promoting[name].Counted?
    case PromoteSet(name) => name in s.promoting && s.promoting[name].Demoted?
    case PromoteStops(name) => name in s.promoting
  }

  ghost function Next(s: Sys, e: Event): Sys
    requires Enabled(s, e)
  {
    match e
    case CreateList(i, name, next, row) => s.(creators := s.creators[i := Listed(name, next, row)])
    case CreateInsert(i) =>
      var c := s.creators[i];
      var key := Key(c.name, c.next);
      s.(rows := Insert(s.rows, key, c.row),
         creators := s.creators[i := if Insertable(s.rows, key) then Created(key) else Refused])
    case SeedList(i, name, body) => s.(seeders := s.seeders[i := SawNone(name, body)])
    case SeedInsert(i) =>
      var seed := s.seeders[i];
      var key := Key(seed.seedName, 1);
      s.(rows := Insert(s.rows, key, Row(seed.seedBody, "", true)),
         seeders := s.seeders[i := Done],
         settled := if Insertable(s.rows, key) then s.settled + {key.name} else s.settled)
    case PromoteInTransaction(key) => s.(rows := Promoted(s.rows, key), settled := s.settled + {key.name})
    case PromoteCount(key) => s.(promoting := s.promoting[key.name := Counted(key.version)])
    case PromoteDemote(name) =>
      s.(rows := Demote(s.rows, name), promoting := s.promoting[name := Demoted(s.promoting[name].version)])
    case PromoteSet(name) =>
      s.(rows := Raise(s.rows, Key(name, s.promoting[name].version)),
         promoting := s.promoting - {name},
         settled := s.settled + {name})
    case PromoteStops(name) =>
      s.(promoting := s.promoting - {name},
         settled := if s.promoting[name].Demoted? then s.settled - {name} else s.settled)
  }

  ghost predicate Contiguous(rows: Rows) {
    forall k | k in rows :: k.version >= 1 && k.name != "" && forall v | 1 <= v <= k.version :: Key(k.name, v) in rows
  }

  ghost predicate AtMostOne(rows: Rows) {
    forall j, k | j in rows && k in rows && j.name == k.name && rows[j].isProduction && rows[k].isProduction :: j == k
  }

  ghost predicate PromotesAgree(s: Sys) {
    forall name | name in s.promoting ::
      && Key(name, s.promoting[name].version) in s.rows
      && (s.promoting[name].Demoted? ==> forall k | k in s.rows && k.name == name :: !s.rows[k].isProduction)
  }

  ghost predicate CreatorsAgree(s: Sys) {
    forall c | c in s.creators && c.Listed? ::
      c.name != "" && c.next >= 1 && !c.row.isProduction && forall v | 1 <= v < c.next :: Key(c.name, v) in s.rows
  }

  ghost predicate HasProduction(rows: Rows, name: string) {
    exists k :: k in rows && k.name == name && rows[k].isProduction
  }

  ghost predicate SettledHaveOne(s: Sys) {
    forall name | name in s.settled ::
        HasProduction(s.rows, name) || (name in s.promoting && s.promoting[name].Demoted?)
  }

  ghost predicate Inv(s: Sys) {
    Contiguous(s.rows) && AtMostOne(s.rows) && PromotesAgree(s) && CreatorsAgree(s) && SettledHaveOne(s)
  }

  lemma ListedAreThere(rows: Rows, name: string, next: int)
    requires Contiguous(rows) && IsNext(Versions(rows, name), next)
    ensures forall v | 1 <= v < next :: Key(name, v) in rows
  {
    if next > 1 { assert Key(name, next - 1) in rows; }
  }

  /** Inserting version n where 1..n-1 are all taken keeps the versions contiguous. */
  lemma InsertKeepsRows(rows: Rows, key: Key, row: Row)
    requires Contiguous(rows) && AtMostOne(rows)
    requires forall v | 1 <= v < key.version :: Key(key.name, v) in rows
    requires row.isProduction ==> key.version == 1
    ensures Contiguous(Insert(rows, key, row)) && AtMostOne(Insert(rows, key, row))
  {
    var after := Insert(rows, key, row);
    if Insertable(rows, key) {
      NoneAbove(rows, key);
      forall j, k | j in after && k in after && j.name == k.name && after[j].isProduction && after[k].isProduction
        ensures j == k
      {
        if j == key || k == key { assert key.version == 1; }
      }
    }
  }

  /** With contiguous versions a free one is above all the others. */
  lemma NoneAbove(rows: Rows, key: Key)
    requires Contiguous(rows) && key !in rows && key.version >= 1
    ensures forall k | k in rows && k.name == key.name :: k.version < key.version
  {
  }

  lemma DemoteKeepsRows(rows: Rows, name: string)
    requires Contiguous(rows) && AtMostOne(rows)
    ensures Contiguous(Demote(rows, name)) && AtMostOne(Demote(rows, name))
  {
    var after := Demote(rows, name);
    assert forall k | k in after :: k in rows && (after[k].isProduction ==> rows[k].isProduction);
  }

  lemma RaiseKeepsRows(rows: Rows, key: Key)
    requires Contiguous(rows) && AtMostOne(rows)
    requires forall k | k in rows && k.name == key.name :: !rows[k].isProduction
    ensures Contiguous(Raise(rows, key)) && AtMostOne(Raise(rows, key))
  {
  }

  lemma InsertStep(s: Sys, e: Event)
    requires Inv(s) && Enabled(s, e) && (e.CreateInsert? || e.SeedInsert?)
    ensures Inv(Next(s, e))
  {
    var t := Next(s, e);
    var key := if e.CreateInsert? then Key(s.creators[e.i].name, s.creators[e.i].next)
               else Key(s.seeders[e.i].seedName, 1);
    var row := if e.CreateInsert? then s.creators[e.i].row else Row(s.seeders[e.i].seedBody, "", true);
    InsertKeepsRows(s.rows, key, row);
    assert t.rows == Insert(s.rows, key, row);
    forall name | name in t.settled
      ensures HasProduction(t.rows, name) || (name in t.promoting && t.promoting[name].Demoted?)
    {
      if name in s.settled && HasProduction(s.rows, name) {
        var k :| k in s.rows && k.name == name && s.rows[k].isProduction;
        assert k in t.rows && t.rows[k].isProduction;
      } else if name !in s.settled {
        assert key in t.rows && t.rows[key].isProduction;
      }
    }
    forall name | name in t.promoting && t.promoting[name].Demoted?
      ensures forall k | k in t.rows && k.name == name :: !t.rows[k].isProduction
    {
      var target := Key(name, s.promoting[name].version);
      assert target in s.rows;
      if key.name == name { assert Key(name, 1) in s.rows; }
    }
    assert forall c | c in t.creators && c.Listed? :: c in s.creators;
  }

  lemma SettledElsewhere(s: Sys, t: Sys, name: string)
    requires SettledHaveOne(s) && t.settled <= s.settled + {name}
    requires forall other | other != name && other in s.promoting ::
              other in t.promoting && t.promoting[other] == s.promoting[other]
    requires forall k | k in s.rows && k.name != name :: k in t.rows && t.rows[k] == s.rows[k]
    requires name in t.settled ==> HasProduction(t.rows, name) || (name in t.promoting && t.promoting[name].Demoted?)
    ensures SettledHaveOne(t)
  {
    forall other | other in t.settled && other != name
      ensures HasProduction(t.rows, other) || (other in t.promoting && t.promoting[other].Demoted?)
    {
      if HasProduction(s.rows, other) {
        var k :| k in s.rows && k.name == other && s.rows[k].isProduction;
        assert k in t.rows && t.rows[k].isProduction;
      }
    }
  }

  lemma TransactionStep(s: Sys, key: Key)
    requires Inv(s) && Enabled(s, PromoteInTransaction(key))
    ensures Inv(Next(s, PromoteInTransaction(key)))
  {
    var t := Next(s, PromoteInTransaction(key));
    DemoteKeepsRows(s.rows, key.name);
    RaiseKeepsRows(Demote(s.rows, key.name), key);
    assert key in t.rows && t.rows[key].isProduction;
    SettledElsewhere(s, t, key.name);
  }

  lemma DemoteStep(s: Sys, name: string)
    requires Inv(s) && Enabled(s, PromoteDemote(name))
    ensures Inv(Next(s, PromoteDemote(name)))
  {
    var t := Next(s, PromoteDemote(name));
    DemoteKeepsRows(s.rows, name);
    assert t.rows.Keys == s.rows.Keys;
    SettledElsewhere(s, t, name);
  }

  lemma SetStep(s: Sys, name: string)
    requires Inv(s) && Enabled(s, PromoteSet(name))
    ensures Inv(Next(s, PromoteSet(name)))
  {
    var t := Next(s, PromoteSet(name));
    var key := Key(name, s.promoting[name].version);
    RaiseKeepsRows(s.rows, key);
    assert key in t.rows && t.rows[key].isProduction;
    SettledElsewhere(s, t, name);
  }

  lemma InvNext(s: Sys, e: Event)
    requires Inv(s) && Enabled(s, e)
    ensures Inv(Next(s, e))
  {
    match e
    case CreateInsert(_) => InsertStep(s, e);
    case SeedInsert(_) => InsertStep(s, e);
    case PromoteInTransaction(key) => TransactionStep(s, key);
    case PromoteDemote(name) => DemoteStep(s, name);
    case PromoteSet(name) => SetStep(s, name);
    case CreateList(i, name, next, row) =>
      ListedAreThere(s.rows, name, next);
      assert forall c | c in Next(s, e).creators :: c == Listed(name, next, row) || c in s.creators;
    case _ =>
  }

  /** A run from a table that is in order, with nothing under way, possibly empty. */
  ghost predicate Initial(s: Sys) {
    && Contiguous(s.rows) && AtMostOne(s.rows)
    && s.promoting == map[] && s.settled == {}
    && (forall c | c in s.creators :: c.NotStarted?)
  }

  ghost predicate IsRun(run: seq<Sys>, events: seq<Event>) {
    && |run| == |events| + 1 && Initial(run[0])
    && forall i | 0 <= i < |events| :: Enabled(run[i], events[i]) && run[i + 1] == Next(run[i], events[i])
  }

  lemma {:induction false} InvRun(run: seq<Sys>, events: seq<Event>, n: nat)
    requires IsRun(run, events) && n < |run|
    ensures Inv(run[n])
    decreases n
  {
    if n > 0 {
      InvRun(run, events, n - 1);
      InvNext(run[n - 1], events[n - 1]);
    }
  }

  // ---- What the runs show ----

  lemma ProductionIs(rows: Rows, key: Key)
    requires AtMostOne(rows) && key in rows && rows[key].isProduction
    ensures Production(rows, key.name) == {key.version}
  {
    forall v ensures v in Production(rows, key.name) <==> v == key.version {
      if v in Production(rows, key.name) { assert Key(key.name, v) in rows; }
    }
  }

  /**
   * A name is settled by a seed that inserts, by a promote in a transaction and by a promote that
   * completes, and unsettled only by one that stops after it has demoted.
   */
  lemma SettledIff(s: Sys, e: Event, name: string)
    requires Enabled(s, e)
    ensures name in Next(s, e).settled <==>
            || (e.SeedInsert? && s.seeders[e.i].seedName == name && Insertable(s.rows, Key(name, 1)))
            || (e.PromoteInTransaction? && e.key.name == name)
            || (e.PromoteSet? && e.name == name)
            || (name in s.settled && !(e.PromoteStops? && e.name == name && s.promoting[name].Demoted?))
  {
  }

  /**
   * In every state of every run, also between the two writes of a promote, a name has at most one
   * production version.
   */
  lemma OneProductionVersion(run: seq<Sys>, events: seq<Event>, n: nat, name: string)
    requires IsRun(run, events) && n < |run|
    ensures |Production(run[n].rows, name)| <= 1
    ensures name in run[n].settled && !(name in run[n].promoting && run[n].promoting[name].Demoted?)
            ==> |Production(run[n].rows, name)| == 1
  {
    InvRun(run, events, n);
    var rows := run[n].rows;
    if HasProduction(rows, name) {
      var k :| k in rows && k.name == name && rows[k].isProduction;
      ProductionIs(rows, k);
    } else {
      assert Production(rows, name) == {};
    }
  }

  /**
   * A version is created only above every existing one, by exactly one, and outside production,
   * whoever else creates.
   */
  lemma CreatedIsFreshMaximum(run: seq<Sys>, events: seq<Event>, n: nat)
    requires IsRun(run, events) && n < |events| && events[n].CreateInsert?
    requires run[n + 1].creators[events[n].i].Created?
    ensures var key := run[n + 1].creators[events[n].i].key;
            && IsNext(Versions(run[n].rows, key.name), key.version)
            && run[n + 1].rows == run[n].rows[key := run[n].creators[events[n].i].row]
            && !run[n + 1].rows[key].isProduction
  {
    InvRun(run, events, n);
    var s := run[n];
    assert s.creators[events[n].i] in s.creators;
    var key := run[n + 1].creators[events[n].i].key;
    NoneAbove(s.rows, key);
    if key.version > 1 {
      assert Key(key.name, key.version - 1) in s.rows;
    }
  }

  /** The insert of a creator is refused exactly when another one took its version since it listed. */
  lemma RefusedOnlyWhenOvertaken(run: seq<Sys>, events: seq<Event>, n: nat)
    requires IsRun(run, events) && n < |events| && events[n].CreateInsert?
    ensures var c := run[n].creators[events[n].i];
            run[n + 1].creators[events[n].i].Refused? <==> !IsNext(Versions(run[n].rows, c.name), c.next)
  {
    InvRun(run, events, n);
    var s := run[n];
    var c := s.creators[events[n].i];
    assert c in s.creators;
    if Key(c.name, c.next) in s.rows {
      assert c.next in Versions(s.rows, c.name);
    } else {
      NoneAbove(s.rows, Key(c.name, c.next));
      if c.next > 1 { assert Key(c.name, c.next - 1) in s.rows; }
    }
  }

  /** The version that a promote was asked for. */
  function Requested(s: Sys, e: Event): Key
    requires e.PromoteInTransaction? || (e.PromoteSet? && e.name in s.promoting)
  {
    if e.PromoteSet? then Key(e.name, s.promoting[e.name].version) else e.key
  }

  /**
   * A promote that completes, in one transaction or in two writes, leaves exactly the requested
   * version in production.
   */
  lemma CompletedPromote(run: seq<Sys>, events: seq<Event>, n: nat)
    requires IsRun(run, events) && n < |events| && (events[n].PromoteSet? || events[n].PromoteInTransaction?)
    ensures var key := Requested(run[n], events[n]);
            Production(run[n + 1].rows, key.name) == {key.version}
  {
    InvRun(run, events, n);
    InvRun(run, events, n + 1);
    var t := run[n + 1];
    var key := Requested(run[n], events[n]);
    assert key in t.rows && t.rows[key].isProduction;
    ProductionIs(t.rows, key);
  }

  ghost predicate TouchesFlags(e: Event, name: string) {
    match e
    case PromoteInTransaction(key) => key.name == name
    case PromoteDemote(n) => n == name
    case PromoteSet(n) => n == name
    case _ => false
  }

  lemma SameButFlagsStep(s: Sys, e: Event)
    requires Enabled(s, e)
    ensures SameButFlags(s.rows, Next(s, e).rows)
  {
  }

  lemma SameButFlagsChain(a: Rows, b: Rows, c: Rows)
    requires SameButFlags(a, b) && SameButFlags(b, c)
    ensures SameButFlags(a, c)
  {
  }

  /** A production flag moves only in a promote of its own name. */
  lemma FlagsMoveInPromotes(s: Sys, e: Event, key: Key)
    requires Enabled(s, e) && key in s.rows && !TouchesFlags(e, key.name)
    ensures key in Next(s, e).rows && Next(s, e).rows[key] == s.rows[key]
  {
  }

  /** A seed adds nothing to a name that has versions. */
  lemma SeedIsFirst(run: seq<Sys>, events: seq<Event>, n: nat, key: Key)
    requires IsRun(run, events) && n < |events| && events[n].SeedInsert?
    requires key in run[n + 1].rows && key !in run[n].rows
    ensures Versions(run[n].rows, key.name) == {} && Production(run[n + 1].rows, key.name) == {1}
  {
    InvRun(run, events, n);
    InvRun(run, events, n + 1);
    assert key == Key(run[n].seeders[events[n].i].seedName, 1);
    NoneAbove(run[n].rows, key);
    forall v
      ensures v !in Versions(run[n].rows, key.name)
    {
      VersionRow(run[n].rows, key.name, v);
    }
    ProductionIs(run[n + 1].rows, key);
  }

  /** Over any stretch of a run no row is lost, and every row keeps its body and author. */
  lemma {:induction false} BodiesAreForever(run: seq<Sys>, events: seq<Event>, i: nat, j: nat)
    requires IsRun(run, events) && i <= j < |run|
    ensures SameButFlags(run[i].rows, run[j].rows)
    decreases j
  {
    if i < j {
      BodiesAreForever(run, events, i, j - 1);
      SameButFlagsStep(run[j - 1], events[j - 1]);
      SameButFlagsChain(run[i].rows, run[j - 1].rows, run[j].rows);
    }
  }

  /** Every body is written, in the table and under way. */
  ghost predicate Written(s: Sys) {
    && (forall k | k in s.rows :: s.rows[k].body != "")
    && (forall c | c in s.creators && c.Listed? :: c.row.body != "")
    && (forall d | d in s.seeders && d.SawNone? :: d.seedBody != "")
  }

  lemma WrittenNext(s: Sys, e: Event)
    requires Written(s) && Enabled(s, e) && (e.SeedList? ==> e.body != "")
    ensures Written(Next(s, e))
  {
    var t := Next(s, e);
    match e
    case CreateInsert(i) =>
      assert s.creators[i] in s.creators;
      assert forall c | c in t.creators && c.Listed? :: c in s.creators;
    case SeedInsert(i) =>
      assert s.seeders[i] in s.seeders;
      assert forall d | d in t.seeders && d.SawNone? :: d in s.seeders;
    case CreateList(i, name, next, row) =>
      assert forall c | c in t.creators :: c == Listed(name, next, row) || c in s.creators;
    case SeedList(i, name, body) =>
      assert forall d | d in t.seeders :: d == SawNone(name, body) || d in s.seeders;
    case _ =>
  }

  /** No version without a body ever appears, unless the defaults have one. */
  lemma {:induction false} BodiesAreWritten(run: seq<Sys>, events: seq<Event>, n: nat)
    requires IsRun(run, events) && n < |run| && Written(run[0])
    requires forall e | e in events && e.SeedList? :: e.body != ""
    ensures Written(run[n])
    decreases n
  {
    if n > 0 {
      BodiesAreWritten(run, events, n - 1);
      assert events[n - 1] in events;
      WrittenNext(run[n - 1], events[n - 1]);
    }
  }
}
