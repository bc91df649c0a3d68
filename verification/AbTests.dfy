/**
 * The life of the A/B tests of prompt templates: starting under the partial unique index that
 * admits one active test per template, and ending. Each is a single statement of the store, so
 * a run of statements is every interleaving of the requests.
 */
module AbTests {

  datatype Status = Active | Ended(endedBy: string, notes: string)

  datatype Test = Test(templateName: string, candidateVersion: int, trafficPct: int, status: Status)

  type Rows = map<string, Test>

  datatype Outcome = Started | NameRequired | BadTraffic | AlreadyActive

  ghost predicate HasActive(rows: Rows, templateName: string) {
    exists id :: id in rows && rows[id].templateName == templateName && rows[id].status.Active?
  }

  ghost predicate OneActive(rows: Rows) {
    forall i, j | i in rows && j in rows && rows[i].templateName == rows[j].templateName
                  && rows[i].status.Active? && rows[j].status.Active? :: i == j
  }

  /** The answer to a start, decided in the order in which the code checks. */
  ghost function StartOutcome(rows: Rows, id: string, t: Test): Outcome {
    if t.templateName == "" then NameRequired
    else if t.trafficPct < 1 || t.trafficPct > 99 then BadTraffic
    else if id in rows || HasActive(rows, t.templateName) then AlreadyActive
    else Started
  }

  ghost function AfterStart(rows: Rows, id: string, t: Test): Rows {
    if StartOutcome(rows, id, t).Started? then rows[id := t.(status := Active)] else rows
  }

  predicate CanEnd(rows: Rows, id: string) {
    id in rows && rows[id].status.Active?
  }

  function AfterEnd(rows: Rows, id: string, endedBy: string, notes: string): Rows {
    if CanEnd(rows, id) then rows[id := rows[id].(status := Ended(endedBy, notes))] else rows
  }

  class ABTests {
    var rows: Rows

    /** The index on the template names of the active rows. */
    var index: set<string>

    ghost predicate Valid()
      reads this
    {
      OneActive(rows) && forall name :: name in index <==> HasActive(rows, name)
    }

    constructor ()
      ensures Valid() && rows == map[]
    {
      rows, index := map[], {};
    }

    method Start(id: string, t: Test) returns (outcome: Outcome)
      requires Valid()
      modifies this
      ensures Valid()
      ensures outcome == StartOutcome(old(rows), id, t)
      ensures rows == AfterStart(old(rows), id, t)
    {
      if t.templateName == "" {
        return NameRequired;
      }
      if t.trafficPct < 1 || t.trafficPct > 99 {
        return BadTraffic;
      }
      if id in rows || t.templateName in index {
        return AlreadyActive;
      }
      rows := rows[id := t.(status := Active)];
      index := index + {t.templateName};
      assert HasActive(rows, t.templateName) by { assert rows[id].status.Active?; }
      forall name | name != t.templateName
        ensures HasActive(rows, name) <==> HasActive(old(rows), name)
      {
        SameActive(old(rows), rows, id, name);
      }
      outcome := Started;
    }

    method End(id: string, endedBy: string, notes: string) returns (ok: bool)
      requires Valid()
      modifies this
      ensures Valid()
      ensures ok <==> CanEnd(old(rows), id)
      ensures rows == AfterEnd(old(rows), id, endedBy, notes)
    {
      if !(id in rows && rows[id].status.Active?) {
        return false;
      }
      var name := rows[id].templateName;
      rows := rows[id := rows[id].(status := Ended(endedBy, notes))];
      index := index - {name};
      assert !HasActive(rows, name);
      forall other | other != name
        ensures HasActive(rows, other) <==> HasActive(old(rows), other)
      {
        SameActive(old(rows), rows, id, other);
      }
      ok := true;
    }
  }

  /** A write of one row leaves the activity of the other templates alone. */
  lemma SameActive(before: Rows, after: Rows, id: string, name: string)
    requires after.Keys == before.Keys + {id} && forall i | i in before && i != id :: after[i] == before[i]
    requires after[id].templateName != name && (id in before ==> before[id].templateName != name)
    ensures HasActive(after, name) <==> HasActive(before, name)
  {
    if i :| i in before && before[i].templateName == name && before[i].status.Active? {
      assert i in after && after[i] == before[i];
    }
    if i :| i in after && after[i].templateName == name && after[i].status.Active? {
      assert i in before && after[i] == before[i];
    }
  }

  // ---- Runs ----

  datatype Event = StartTest(id: string, test: Test) | EndTest(id: string, endedBy: string, notes: string)

  ghost function Next(rows: Rows, e: Event): Rows {
    match e
    case StartTest(id, t) => AfterStart(rows, id, t)
    case EndTest(id, admin, notes) => AfterEnd(rows, id, admin, notes)
  }

  ghost function Run(rows: Rows, events: seq<Event>): Rows {
    if events == [] then rows else Next(Run(rows, events[..|events| - 1]), events[|events| - 1])
  }

  lemma OneActiveNext(rows: Rows, e: Event)
    requires OneActive(rows)
    ensures OneActive(Next(rows, e))
  {
    if e.StartTest? && StartOutcome(rows, e.id, e.test).Started? {
      var after := Next(rows, e);
      forall i | i in rows && after[i].status.Active? ensures rows[i].templateName != e.test.templateName {
      }
    }
  }

  /** Every interleaving keeps at most one active test per template. */
  lemma {:induction false} AtMostOneActive(rows: Rows, events: seq<Event>)
    requires OneActive(rows)
    ensures OneActive(Run(rows, events))
    decreases |events|
  {
    if events != [] {
      AtMostOneActive(rows, events[..|events| - 1]);
      OneActiveNext(Run(rows, events[..|events| - 1]), events[|events| - 1]);
    }
  }

  /** A row is never removed, keeps everything but its status, and once ended never changes again. */
  ghost predicate Continues(before: Test, after: Test) {
    after == before || (before.status.Active? && after.status.Ended? && after == before.(status := after.status))
  }

  lemma {:induction false} EndedIsForever(rows: Rows, events: seq<Event>, id: string)
    requires id in rows
    ensures id in Run(rows, events) && Continues(rows[id], Run(rows, events)[id])
    ensures rows[id].status.Ended? ==> Run(rows, events)[id] == rows[id]
    decreases |events|
  {
    if events != [] {
      EndedIsForever(rows, events[..|events| - 1], id);
    }
  }

  /** Until its own end an active test stays as it was started, and no other start on its template succeeds. */
  lemma {:induction false} ActiveUntilEnded(rows: Rows, events: seq<Event>, id: string, other: string, t: Test)
    requires id in rows && rows[id].status.Active? && t.templateName == rows[id].templateName
    requires forall k | 0 <= k < |events| && events[k].EndTest? :: events[k].id != id
    ensures id in Run(rows, events) && Run(rows, events)[id] == rows[id]
    ensures !StartOutcome(Run(rows, events), other, t).Started?
    decreases |events|
  {
    if events != [] {
      ActiveUntilEnded(rows, events[..|events| - 1], id, other, t);
    }
    var after := Run(rows, events);
    assert id in after && after[id].templateName == t.templateName;
  }

  /** Only named templates and shares from 1 to 99 percent are ever tested, and nothing ends without being ended. */
  ghost predicate Proper(rows: Rows) {
    forall id | id in rows :: rows[id].templateName != "" && 0 < rows[id].trafficPct < 100
  }

  lemma {:induction false} TestsAreProper(events: seq<Event>)
    ensures Proper(Run(map[], events))
    decreases |events|
  {
    if events != [] { TestsAreProper(events[..|events| - 1]); }
  }

  /** When a start succeeds. */
  lemma StartedIff(rows: Rows, id: string, t: Test)
    ensures StartOutcome(rows, id, t) == Started <==>
            t.templateName != "" && 0 < t.trafficPct < 100 && id !in rows
            && forall other | other in rows && rows[other].templateName == t.templateName ::
                 rows[other].status.Ended?
  {
  }

  /**
   * The life of a test: what was started is active with its template, version and share until
   * it is ended, and from then on ended, by the one who ended it and with their notes.
   */
  lemma LifeOfATest(rows: Rows, id: string, t: Test, before: seq<Event>, admin: string, notes: string,
                    after: seq<Event>)
    requires StartOutcome(rows, id, t) == Started
    requires forall k | 0 <= k < |before| && before[k].EndTest? :: before[k].id != id
    ensures var running := Run(Next(rows, StartTest(id, t)), before);
            var ended := Run(Next(running, EndTest(id, admin, notes)), after);
            && id in running && running[id] == Test(t.templateName, t.candidateVersion, t.trafficPct, Active)
            && id in ended && ended[id] == Test(t.templateName, t.candidateVersion, t.trafficPct, Ended(admin, notes))
  {
    var started := Next(rows, StartTest(id, t));
    ActiveUntilEnded(started, before, id, id, t);
    EndedIsForever(Next(Run(started, before), EndTest(id, admin, notes)), after, id);
  }

  /** After its end a template is free: a start with a new id and a proper share of the traffic succeeds. */
  lemma EndedTemplateIsFree(rows: Rows, id: string, endedBy: string, notes: string, other: string, t: Test)
    requires OneActive(rows) && CanEnd(rows, id)
    requires t.templateName == rows[id].templateName && t.templateName != "" && 1 <= t.trafficPct <= 99
    requires other !in rows
    ensures StartOutcome(AfterEnd(rows, id, endedBy, notes), other, t).Started?
  {
    var after := AfterEnd(rows, id, endedBy, notes);
    assert forall i | i in after && after[i].templateName == t.templateName :: !after[i].status.Active?;
  }
}
