/**
 * The review of training trials: the first reviewer's picks are canonical, a second reviewer
 * only leaves a measure of agreement, and the snapshots for the export are never blanked.
 */
module TrainingTrials {
  import opened Options
  import opened Counting
  import opened Json

  /** What a reviewer picked: path to winning side, and path to typed text for the side "custom". */
  datatype Review = Review(picks: map<string, string>, custom: map<string, string>)

  const CUSTOM := "custom"

  // ---- Agreement ----

  /** A missing text reads as the map's zero value. */
  function TextAt(custom: map<string, string>, p: string): string {
    if p in custom then custom[p] else ""
  }

  predicate AgreesAt(a: Review, b: Review, p: string) {
    && p in a.picks && p in b.picks && a.picks[p] == b.picks[p]
    && (a.picks[p] == CUSTOM ==> TextAt(a.custom, p) == TextAt(b.custom, p))
  }

  function PathsOf(a: Review, b: Review): set<string> {
    a.picks.Keys + b.picks.Keys
  }

  function AgreedPaths(a: Review, b: Review): set<string> {
    set p | p in PathsOf(a, b) && AgreesAt(a, b, p)
  }

  /** The share of the touched paths on which two reviewers agree. */
  function Agreement(a: Review, b: Review): real {
    if PathsOf(a, b) == {} then 1.0 else Share(|AgreedPaths(a, b)|, |PathsOf(a, b)|)
  }

  method AddKeys(paths: set<string>, picks: map<string, string>) returns (more: set<string>)
    ensures more == paths + picks.Keys
  {
    more := paths;
    var rest := picks.Keys;
    while rest != {}
      invariant rest <= picks.Keys && more == paths + (picks.Keys - rest)
      decreases |rest|
    {
      var p :| p in rest;
      more, rest := more + {p}, rest - {p};
    }
  }

  /** pickAgreement: the union is collected from both maps and counted through in any order. */
  method PickAgreement(a: Review, b: Review) returns (r: real)
    ensures r == Agreement(a, b)
  {
    var paths := AddKeys({}, a.picks);
    paths := AddKeys(paths, b.picks);
    assert paths == PathsOf(a, b);
    if |paths| == 0 {
      return 1.0;
    }
    var matches := CountMatches(a, b, paths, AgreedPaths(a, b));
    r := Share(matches, |paths|);
  }

  method CountMatches(a: Review, b: Review, paths: set<string>, ghost agreed: set<string>) returns (matches: nat)
    requires agreed <= paths && forall p | p in paths :: p in agreed <==> AgreesAt(a, b, p)
    ensures matches == |agreed|
  {
    matches := 0;
    var rest := paths;
    while rest != {}
      invariant rest <= paths && matches == |agreed - rest|
      decreases |rest|
    {
      var p :| p in rest;
      CountOne(agreed, rest, p);
      rest := rest - {p};
      if p !in a.picks || p !in b.picks || a.picks[p] != b.picks[p] {
        continue;
      }
      if a.picks[p] == CUSTOM && TextAt(a.custom, p) != TextAt(b.custom, p) {
        continue;
      }
      matches := matches + 1;
    }
    assert agreed - rest == agreed;
  }

  lemma CountOne(agreed: set<string>, rest: set<string>, p: string)
    requires p in rest
    ensures |agreed - (rest - {p})| == |agreed - rest| + if p in agreed then 1 else 0
  {
    if p in agreed {
      assert agreed - (rest - {p}) == (agreed - rest) + {p};
    } else {
      assert agreed - (rest - {p}) == agreed - rest;
    }
  }

  lemma AgreementIsSymmetric(a: Review, b: Review)
    ensures Agreement(a, b) == Agreement(b, a)
  {
    assert PathsOf(a, b) == PathsOf(b, a);
    assert AgreedPaths(a, b) == AgreedPaths(b, a);
  }

  /** Both touched the same paths, chose the same sides, and typed the same texts where they typed any. */
  ghost predicate SameReview(a: Review, b: Review) {
    && a.picks == b.picks
    && forall p | p in a.picks && a.picks[p] == CUSTOM :: TextAt(a.custom, p) == TextAt(b.custom, p)
  }

  /** Agreement is a share, and full exactly between reviewers who decided the same. */
  lemma AgreementRange(a: Review, b: Review)
    ensures 0.0 <= Agreement(a, b) <= 1.0
    ensures Agreement(a, b) == 1.0 <==> SameReview(a, b)
  {
    var all, agreed := PathsOf(a, b), AgreedPaths(a, b);
    if all == {} {
      assert a.picks.Keys == {} && b.picks.Keys == {};
      assert a.picks == map[] && b.picks == map[];
    } else {
      SubsetSize(agreed, all);
      ShareIsFraction(|agreed|, |all|);
      if agreed == all {
        assert forall p | p in all :: AgreesAt(a, b, p);
        assert a.picks.Keys == b.picks.Keys;
      }
      if SameReview(a, b) {
        assert forall p | p in all :: AgreesAt(a, b, p);
        assert agreed == all;
      }
    }
  }

  /** The paths that both decided alike: the same side, and for the custom side the same text. */
  ghost function AlikePaths(a: Review, b: Review): set<string> {
    set p | p in a.picks && p in b.picks && a.picks[p] == b.picks[p]
            && (a.picks[p] == "custom" ==>
                  (p in a.custom ==> a.custom[p] == if p in b.custom then b.custom[p] else "")
                  && (p !in a.custom && p in b.custom ==> b.custom[p] == ""))
  }

  lemma AlikeIsAgreed(a: Review, b: Review)
    ensures AlikePaths(a, b) == AgreedPaths(a, b)
  {
  }

  /** The agreement is the number of these over the number of the paths that either touched. */
  lemma AgreementIsTheShare(a: Review, b: Review)
    requires a.picks != map[] || b.picks != map[]
    ensures a.picks.Keys + b.picks.Keys != {}
    ensures Agreement(a, b) == (|AlikePaths(a, b)| as real) / (|a.picks.Keys + b.picks.Keys| as real)
  {
    AlikeIsAgreed(a, b);
    NotEmpty(a.picks, b.picks);
    assert PathsOf(a, b) == a.picks.Keys + b.picks.Keys;
  }

  lemma NotEmpty(p: map<string, string>, q: map<string, string>)
    requires p != map[] || q != map[]
    ensures p.Keys + q.Keys != {}
  {
    assert p != map[] ==> p.Keys != {};
    assert q != map[] ==> q.Keys != {};
  }

  // ---- The stored trials ----

  datatype Status = InReview | Submitted

  /** The fields that the export rebuilds its pairs from. */
  datatype Snapshot = Snapshot(claude: Option<Desc>, gemma: Option<Desc>, imageUrl: string,
                               claudeRequest: string, gemmaRequest: string, source: string)

  const NO_SNAPSHOT := Snapshot(None, None, "", "", "", "")

  datatype Trial = Trial(status: Status, createdBy: string, submittedBy: string, review: Review,
                         pickCount: nat, attrCount: int, snapshot: Snapshot,
                         reviewCount: nat, agreement: Option<real>, secondReviewer: string)

  datatype Input = Input(review: Review, attrCount: int, snapshot: Snapshot)

  type Rows = map<string, Trial>

  function Kept<T>(before: Option<T>, supplied: Option<T>): Option<T> {
    if supplied.Some? then supplied else before
  }

  function KeptText(before: string, supplied: string): string {
    if supplied != "" then supplied else before
  }

  /** Only the fields that were supplied are written. */
  function Merged(before: Snapshot, supplied: Snapshot): Snapshot {
    Snapshot(Kept(before.claude, supplied.claude), Kept(before.gemma, supplied.gemma),
             KeptText(before.imageUrl, supplied.imageUrl), KeptText(before.claudeRequest, supplied.claudeRequest),
             KeptText(before.gemmaRequest, supplied.gemmaRequest), KeptText(before.source, supplied.source))
  }

  /** The row a submit finds, or the one it inserts. */
  function FoundOrNew(rows: Rows, id: string, admin: string): Trial {
    if id in rows then rows[id] else Trial(InReview, admin, "", Review(map[], map[]), 0, 0, NO_SNAPSHOT, 1, None, "")
  }

  function AfterSubmit(rows: Rows, id: string, admin: string, input: Input): Rows {
    var t := FoundOrNew(rows, id, admin);
    rows[id := t.(status := Submitted, submittedBy := admin, review := input.review, pickCount := |input.review.picks|,
                  attrCount := input.attrCount, snapshot := Merged(t.snapshot, input.snapshot))]
  }

  function AfterReReview(rows: Rows, id: string, admin: string, agreement: real): Rows {
    if id in rows then
      rows[id := rows[id].(agreement := Some(agreement), secondReviewer := admin, reviewCount := 2)]
    else rows
  }

  /** A submit of a trial that somebody else has submitted is a second review. */
  predicate IsReReview(rows: Rows, id: string, admin: string) {
    id in rows && rows[id].status.Submitted? && rows[id].submittedBy != "" && rows[id].submittedBy != admin
  }

  function AfterReview(rows: Rows, id: string, admin: string, input: Input): Rows {
    if IsReReview(rows, id, admin) then AfterReReview(rows, id, admin, Agreement(rows[id].review, input.review))
    else AfterSubmit(rows, id, admin, input)
  }

  /** The handler: without an answer from the look-up it submits. */
  function AfterRequest(rows: Rows, id: string, admin: string, input: Input, lookedUp: bool): Rows {
    if lookedUp then AfterReview(rows, id, admin, input) else AfterSubmit(rows, id, admin, input)
  }

  function AfterCreate(rows: Rows, id: string, admin: string): Rows {
    if id == "" || id in rows then rows
    else rows[id := Trial(InReview, admin, "", Review(map[], map[]), 0, 0, NO_SNAPSHOT, 0, None, "")]
  }

  /** The part of SubmitTrainingTrial that decides, field by field, what the update sets. */
  method MergeSnapshot(before: Snapshot, supplied: Snapshot) returns (after: Snapshot)
    ensures after == Merged(before, supplied)
  {
    after := before;
    if supplied.claude.Some? {
      after := after.(claude := supplied.claude);
    }
    if supplied.gemma.Some? {
      after := after.(gemma := supplied.gemma);
    }
    if supplied.imageUrl != "" {
      after := after.(imageUrl := supplied.imageUrl);
    }
    if supplied.claudeRequest != "" {
      after := after.(claudeRequest := supplied.claudeRequest);
    }
    if supplied.gemmaRequest != "" {
      after := after.(gemmaRequest := supplied.gemmaRequest);
    }
    if supplied.source != "" {
      after := after.(source := supplied.source);
    }
  }

  class TrainingTrialsStore {
    var rows: Rows

    constructor ()
      ensures rows == map[]
    {
      rows := map[];
    }

    /** createTrainingTrial: a known id answers with the stored record. */
    method Create(id: string, admin: string) returns (known: bool)
      modifies this
      ensures known <==> id in old(rows)
      ensures rows == AfterCreate(old(rows), id, admin)
    {
      known := id in rows;
      if id != "" && !known {
        rows := rows[id := Trial(InReview, admin, "", Review(map[], map[]), 0, 0, NO_SNAPSHOT, 0, None, "")];
      }
    }

    method SubmitTrainingTrial(id: string, admin: string, input: Input)
      modifies this
      ensures rows == AfterSubmit(old(rows), id, admin, input)
    {
      var doc := FoundOrNew(rows, id, admin);
      var snapshot := MergeSnapshot(doc.snapshot, input.snapshot);
      rows := rows[id := doc.(status := Submitted, submittedBy := admin, review := input.review,
                              pickCount := |input.review.picks|, attrCount := input.attrCount, snapshot := snapshot)];
    }

    method RecordReReview(id: string, admin: string, agreement: real) returns (found: bool)
      modifies this
      ensures found <==> id in old(rows)
      ensures rows == AfterReReview(old(rows), id, admin, agreement)
    {
      found := id in rows;
      if found {
        rows := rows[id := rows[id].(agreement := Some(agreement), secondReviewer := admin, reviewCount := 2)];
      }
    }

    /** submitTrainingTrial: look the trial up, then either measure the agreement or submit. */
    method SubmitReview(id: string, admin: string, input: Input, lookedUp: bool)
      modifies this
      ensures rows == AfterRequest(old(rows), id, admin, input, lookedUp)
    {
      var existing := if lookedUp && id in rows then Some(rows[id]) else None;
      if existing.Some? && existing.value.status.Submitted?
         && existing.value.submittedBy != "" && existing.value.submittedBy != admin {
        var agreement := PickAgreement(existing.value.review, input.review);
        var _ := RecordReReview(id, admin, agreement);
      } else {
        SubmitTrainingTrial(id, admin, input);
      }
    }
  }

  // ---- Runs of requests, one at a time ----

  /**
   * Requests of administrators, whose look-up of the trial may fail, and the ingest of a
   * correction, which submits under a newly made id.
   */
  datatype Event =
    | Create(id: string, admin: string)
    | SubmitBy(id: string, admin: string, input: Input, lookedUp: bool)
    | Ingest(id: string, admin: string, input: Input)

  function Next(rows: Rows, e: Event): Rows {
    match e
    case Create(id, admin) => AfterCreate(rows, id, admin)
    case SubmitBy(id, admin, input, lookedUp) => AfterRequest(rows, id, admin, input, lookedUp)
    case Ingest(id, admin, input) => if id in rows then rows else AfterSubmit(rows, id, admin, input)
  }

  function Run(rows: Rows, events: seq<Event>): Rows {
    if events == [] then rows else Next(Run(rows, events[..|events| - 1]), events[|events| - 1])
  }

  predicate Reviewed(rows: Rows, id: string) {
    id in rows && rows[id].status.Submitted? && rows[id].submittedBy != ""
  }

  /** Another reviewer submits the trial and the look-up that would tell fails. */
  predicate Overwrites(e: Event, id: string, reviewer: string) {
    e.SubmitBy? && e.id == id && e.admin != reviewer && !e.lookedUp
  }

  /** One request: a reviewed trial stays with its reviewer exactly unless it is such a submit. */
  lemma StaysUnlessOverwritten(rows: Rows, e: Event, id: string)
    requires Reviewed(rows, id)
    ensures id in Next(rows, e)
    ensures Next(rows, e)[id].submittedBy == rows[id].submittedBy <==> !Overwrites(e, id, rows[id].submittedBy)
  {
  }

  predicate IsSubmitOf(e: Event, id: string, admin: string) {
    e.SubmitBy? && e.id == id && e.admin == admin
  }

  /** Any other request leaves the review and the snapshot; the reviewer's own submit replaces and merges them. */
  lemma OneRequest(rows: Rows, e: Event, id: string)
    requires Reviewed(rows, id) && !Overwrites(e, id, rows[id].submittedBy)
    ensures var t, own := Next(rows, e), IsSubmitOf(e, id, rows[id].submittedBy);
            && Reviewed(t, id) && t[id].submittedBy == rows[id].submittedBy
            && t[id].review == (if own then e.input.review else rows[id].review)
            && t[id].snapshot == if own then Merged(rows[id].snapshot, e.input.snapshot) else rows[id].snapshot
  {
  }

  /** The last review that this reviewer handed in for this trial. */
  function LastReviewBy(events: seq<Event>, id: string, admin: string, before: Review): Review {
    if events == [] then before
    else
      var e := events[|events| - 1];
      if IsSubmitOf(e, id, admin) then e.input.review
      else LastReviewBy(events[..|events| - 1], id, admin, before)
  }

  /** What this reviewer has supplied for this trial's snapshot. */
  function SnapshotBy(events: seq<Event>, id: string, admin: string, before: Snapshot): Snapshot {
    if events == [] then before
    else
      var e := events[|events| - 1];
      var earlier := SnapshotBy(events[..|events| - 1], id, admin, before);
      if IsSubmitOf(e, id, admin) then Merged(earlier, e.input.snapshot) else earlier
  }

  ghost predicate NeverOverwritten(events: seq<Event>, id: string, reviewer: string) {
    forall k | 0 <= k < |events| :: !Overwrites(events[k], id, reviewer)
  }

  /**
   * From the moment a reviewer has submitted a trial, it stays theirs in every run in which no
   * other's look-up fails: still submitted, by them, with the review they handed in last and the
   * snapshot they supplied.
   */
  lemma {:induction false} FirstReviewIsCanonical(rows: Rows, events: seq<Event>, id: string)
    requires Reviewed(rows, id) && NeverOverwritten(events, id, rows[id].submittedBy)
    ensures var t := Run(rows, events);
            && Reviewed(t, id) && t[id].submittedBy == rows[id].submittedBy
            && t[id].review == LastReviewBy(events, id, rows[id].submittedBy, rows[id].review)
            && t[id].snapshot == SnapshotBy(events, id, rows[id].submittedBy, rows[id].snapshot)
    decreases |events|
  {
    if events != [] {
      var n := |events| - 1;
      FirstReviewIsCanonical(rows, events[..n], id);
      assert !Overwrites(events[n], id, rows[id].submittedBy);
      OneRequest(Run(rows, events[..n]), events[n], id);
    }
  }

  datatype DescField = ClaudeSide | GemmaSide

  datatype TextField = ImageUrl | ClaudeRequestId | GemmaRequestId | Source

  function DescIn(s: Snapshot, f: DescField): Option<Desc> {
    match f
    case ClaudeSide => s.claude
    case GemmaSide => s.gemma
  }

  function TextIn(s: Snapshot, f: TextField): string {
    match f
    case ImageUrl => s.imageUrl
    case ClaudeRequestId => s.claudeRequest
    case GemmaRequestId => s.gemmaRequest
    case Source => s.source
  }

  ghost predicate NoDescFrom(supplied: seq<Snapshot>, f: DescField, k: nat) {
    forall j | k <= j < |supplied| :: DescIn(supplied[j], f).None?
  }

  ghost predicate NoTextFrom(supplied: seq<Snapshot>, f: TextField, k: nat) {
    forall j | k <= j < |supplied| :: TextIn(supplied[j], f) == ""
  }

  /** The field holds what was supplied for it last, and what it held before if nothing was. */
  ghost predicate HoldsLastDesc(supplied: seq<Snapshot>, f: DescField, before: Option<Desc>, after: Option<Desc>) {
    && (NoDescFrom(supplied, f, 0) ==> after == before)
    && (forall k: nat | k < |supplied| && DescIn(supplied[k], f).Some? && NoDescFrom(supplied, f, k + 1) ::
          after == DescIn(supplied[k], f))
  }

  ghost predicate HoldsLastText(supplied: seq<Snapshot>, f: TextField, before: string, after: string) {
    && (NoTextFrom(supplied, f, 0) ==> after == before)
    && (forall k: nat | k < |supplied| && TextIn(supplied[k], f) != "" && NoTextFrom(supplied, f, k + 1) ::
          after == TextIn(supplied[k], f))
  }

  /** What each request supplies: the snapshot of the reviewer's own submits, nothing of any other. */
  ghost function SuppliedBy(events: seq<Event>, id: string, admin: string): seq<Snapshot> {
    if events == [] then []
    else
      var n := |events| - 1;
      var e := events[n];
      SuppliedBy(events[..n], id, admin)
      + [if e.SubmitBy? && e.id == id && e.admin == admin then e.input.snapshot else NO_SNAPSHOT]
  }

  lemma NoDescBefore(supplied: seq<Snapshot>, s: Snapshot, f: DescField, k: nat)
    requires NoDescFrom(supplied + [s], f, k)
    ensures NoDescFrom(supplied, f, k)
    ensures k <= |supplied| ==> DescIn(s, f).None?
  {
    assert forall j | 0 <= j < |supplied| :: (supplied + [s])[j] == supplied[j];
    assert (supplied + [s])[|supplied|] == s;
  }

  lemma NoTextBefore(supplied: seq<Snapshot>, s: Snapshot, f: TextField, k: nat)
    requires NoTextFrom(supplied + [s], f, k)
    ensures NoTextFrom(supplied, f, k)
    ensures k <= |supplied| ==> TextIn(s, f) == ""
  {
    assert forall j | 0 <= j < |supplied| :: (supplied + [s])[j] == supplied[j];
    assert (supplied + [s])[|supplied|] == s;
  }

  lemma LastDescAppend(supplied: seq<Snapshot>, s: Snapshot, f: DescField, before: Option<Desc>, mid: Option<Desc>)
    requires HoldsLastDesc(supplied, f, before, mid)
    ensures HoldsLastDesc(supplied + [s], f, before, if DescIn(s, f).Some? then DescIn(s, f) else mid)
  {
    var more, n := supplied + [s], |supplied|;
    var after := if DescIn(s, f).Some? then DescIn(s, f) else mid;
    if NoDescFrom(more, f, 0) { NoDescBefore(supplied, s, f, 0); }
    forall k: nat | k < |more| && DescIn(more[k], f).Some? && NoDescFrom(more, f, k + 1)
      ensures after == DescIn(more[k], f)
    {
      if k < n { NoDescBefore(supplied, s, f, k + 1); }
    }
  }

  lemma LastTextAppend(supplied: seq<Snapshot>, s: Snapshot, f: TextField, before: string, mid: string)
    requires HoldsLastText(supplied, f, before, mid)
    ensures HoldsLastText(supplied + [s], f, before, if TextIn(s, f) != "" then TextIn(s, f) else mid)
  {
    var more, n := supplied + [s], |supplied|;
    var after := if TextIn(s, f) != "" then TextIn(s, f) else mid;
    if NoTextFrom(more, f, 0) { NoTextBefore(supplied, s, f, 0); }
    forall k: nat | k < |more| && TextIn(more[k], f) != "" && NoTextFrom(more, f, k + 1)
      ensures after == TextIn(more[k], f)
    {
      if k < n { NoTextBefore(supplied, s, f, k + 1); }
    }
  }

  /** Merging takes each field that is supplied, and keeps the others. */
  lemma MergedFields(before: Snapshot, s: Snapshot, d: DescField, t: TextField)
    ensures DescIn(Merged(before, s), d) == if DescIn(s, d).Some? then DescIn(s, d) else DescIn(before, d)
    ensures TextIn(Merged(before, s), t) == if TextIn(s, t) != "" then TextIn(s, t) else TextIn(before, t)
  {
  }

  /**
   * Over every run in which no other's look-up fails, each field of the snapshot holds what the
   * reviewer supplied for it last, and what it held before when they supplied nothing for it.
   */
  lemma {:induction false} LastSuppliedIsHeld(rows: Rows, events: seq<Event>, id: string, d: DescField, t: TextField)
    requires Reviewed(rows, id) && NeverOverwritten(events, id, rows[id].submittedBy)
    ensures id in Run(rows, events)
    ensures var supplied := SuppliedBy(events, id, rows[id].submittedBy);
            var before, after := rows[id].snapshot, Run(rows, events)[id].snapshot;
            && HoldsLastDesc(supplied, d, DescIn(before, d), DescIn(after, d))
            && HoldsLastText(supplied, t, TextIn(before, t), TextIn(after, t))
    decreases |events|
  {
    var admin := rows[id].submittedBy;
    if events != [] {
      var n := |events| - 1;
      LastSuppliedIsHeld(rows, events[..n], id, d, t);
      FirstReviewIsCanonical(rows, events[..n], id);
      assert !Overwrites(events[n], id, admin);
      var supplied := SuppliedBy(events[..n], id, admin);
      LastSuppliedStep(Run(rows, events[..n]), events[n], id, rows[id].snapshot, supplied, d, t);
    }
  }

  lemma LastSuppliedStep(rows: Rows, e: Event, id: string, before: Snapshot, supplied: seq<Snapshot>,
                         d: DescField, t: TextField)
    requires Reviewed(rows, id) && !Overwrites(e, id, rows[id].submittedBy)
    requires HoldsLastDesc(supplied, d, DescIn(before, d), DescIn(rows[id].snapshot, d))
    requires HoldsLastText(supplied, t, TextIn(before, t), TextIn(rows[id].snapshot, t))
    ensures id in Next(rows, e)
    ensures var own := e.SubmitBy? && e.id == id && e.admin == rows[id].submittedBy;
            var more, after := supplied + [if own then e.input.snapshot else NO_SNAPSHOT], Next(rows, e)[id].snapshot;
            && HoldsLastDesc(more, d, DescIn(before, d), DescIn(after, d))
            && HoldsLastText(more, t, TextIn(before, t), TextIn(after, t))
  {
    OneRequest(rows, e, id);
    var own := IsSubmitOf(e, id, rows[id].submittedBy);
    var s := if own then e.input.snapshot else NO_SNAPSHOT;
    LastDescAppend(supplied, s, d, DescIn(before, d), DescIn(rows[id].snapshot, d));
    LastTextAppend(supplied, s, t, TextIn(before, t), TextIn(rows[id].snapshot, t));
    if own { MergedFields(rows[id].snapshot, s, d, t); }
  }

  // ---- What a request does to a row ----

  /** A trial that nobody has submitted yet is taken by whoever submits it, with all they hand in. */
  lemma UnclaimedIsTaken(rows: Rows, id: string, admin: string, input: Input, lookedUp: bool)
    requires !Reviewed(rows, id)
    ensures id in Next(rows, SubmitBy(id, admin, input, lookedUp))
    ensures var t := Next(rows, SubmitBy(id, admin, input, lookedUp))[id];
            && t.status == Submitted && t.submittedBy == admin && t.review == input.review
            && t.attrCount == input.attrCount
            && (id !in rows ==> t.snapshot == input.snapshot && t.agreement == None && t.secondReviewer == "")
  {
  }

  /** The creator is the admin of the request that inserted the row, and stays; only a submit counts as a review. */
  lemma CreatorIsTheFirst(rows: Rows, e: Event, id: string)
    ensures id in rows ==> id in Next(rows, e) && Next(rows, e)[id].createdBy == rows[id].createdBy
    ensures id !in rows && id in Next(rows, e) ==>
              && e.id == id && Next(rows, e)[id].createdBy == e.admin
              && Next(rows, e)[id].reviewCount == if e.Create? then 0 else 1
    ensures e.id != "" ==> e.id in Next(rows, e)
    ensures e.Create? && (e.id == "" || e.id in rows) ==> Next(rows, e) == rows
  {
  }

  /** The figures of a row fit its contents. */
  ghost predicate FiguresFit(t: Trial) {
    && (t.status.Submitted? ==> t.pickCount == |t.review.picks|)
    && (t.status.InReview? ==> t.pickCount == 0 && t.review == Review(map[], map[]))
    && (t.agreement.Some? <==> t.reviewCount == 2)
    && t.reviewCount <= 2
  }

  lemma FiguresStayFit(rows: Rows, e: Event)
    requires e.id in rows ==> FiguresFit(rows[e.id])
    ensures e.id in Next(rows, e) ==> FiguresFit(Next(rows, e)[e.id])
    ensures forall id | id != e.id :: id in Next(rows, e) <==> id in rows
    ensures forall id | id != e.id && id in rows :: Next(rows, e)[id] == rows[id]
  {
  }

  /** Over every run from the empty store. */
  lemma {:induction false} FiguresAlwaysFit(events: seq<Event>, id: string)
    requires id in Run(map[], events)
    ensures FiguresFit(Run(map[], events)[id])
    decreases |events|
  {
    if events != [] {
      var n := |events| - 1;
      var before := Run(map[], events[..n]);
      if events[n].id in before { FiguresAlwaysFit(events[..n], events[n].id); }
      FiguresStayFit(before, events[n]);
      if id != events[n].id { FiguresAlwaysFit(events[..n], id); }
    }
  }

  /** No snapshot field that was filled is ever blank again. */
  ghost predicate NotBlanked(before: Snapshot, after: Snapshot) {
    && (before.claude.Some? ==> after.claude.Some?)
    && (before.gemma.Some? ==> after.gemma.Some?)
    && (before.imageUrl != "" ==> after.imageUrl != "")
    && (before.claudeRequest != "" ==> after.claudeRequest != "")
    && (before.gemmaRequest != "" ==> after.gemmaRequest != "")
    && (before.source != "" ==> after.source != "")
  }

  lemma {:induction false} SnapshotsAreNeverBlanked(rows: Rows, events: seq<Event>, id: string)
    requires id in rows
    ensures id in Run(rows, events) && NotBlanked(rows[id].snapshot, Run(rows, events)[id].snapshot)
    decreases |events|
  {
    if events != [] {
      SnapshotsAreNeverBlanked(rows, events[..|events| - 1], id);
    }
  }

  /** However many others review a submitted trial, nothing of it changes but the measure of agreement. */
  lemma {:induction false} OthersOnlyAnnotate(rows: Rows, events: seq<Event>, id: string)
    requires Reviewed(rows, id) && NeverOverwritten(events, id, rows[id].submittedBy)
    requires forall k | 0 <= k < |events| && events[k].SubmitBy? && events[k].id == id ::
               events[k].admin != rows[id].submittedBy
    ensures id in Run(rows, events)
    ensures var t := Run(rows, events)[id];
            t == rows[id].(agreement := t.agreement, secondReviewer := t.secondReviewer, reviewCount := t.reviewCount)
    decreases |events|
  {
    if events != [] {
      OthersOnlyAnnotate(rows, events[..|events| - 1], id);
      assert !Overwrites(events[|events| - 1], id, rows[id].submittedBy);
    }
  }

  /** Every recorded agreement is a share. */
  ghost predicate AgreementsAreShares(rows: Rows) {
    forall id | id in rows && rows[id].agreement.Some? :: 0.0 <= rows[id].agreement.value <= 1.0
  }

  lemma {:induction false} AgreementsStayShares(rows: Rows, events: seq<Event>)
    requires AgreementsAreShares(rows)
    ensures AgreementsAreShares(Run(rows, events))
    decreases |events|
  {
    if events != [] {
      var before, e := Run(rows, events[..|events| - 1]), events[|events| - 1];
      AgreementsStayShares(rows, events[..|events| - 1]);
      if e.SubmitBy? && IsReReview(before, e.id, e.admin) {
        AgreementRange(before[e.id].review, e.input.review);
      }
    }
  }

  /** And of two different reviewers of a submitted trial, as long as no look-up fails. */
  ghost predicate AgreementsAreProper(rows: Rows) {
    forall id | id in rows && rows[id].agreement.Some? ::
      Reviewed(rows, id) && rows[id].secondReviewer != rows[id].submittedBy
  }

  lemma {:induction false} AgreementsStayProper(rows: Rows, events: seq<Event>)
    requires AgreementsAreShares(rows) && AgreementsAreProper(rows)
    requires forall k | 0 <= k < |events| && events[k].SubmitBy? :: events[k].lookedUp
    ensures AgreementsAreShares(Run(rows, events)) && AgreementsAreProper(Run(rows, events))
    decreases |events|
  {
    AgreementsStayShares(rows, events);
    if events != [] {
      AgreementsStayProper(rows, events[..|events| - 1]);
      assert events[|events| - 1].SubmitBy? ==> events[|events| - 1].lookedUp;
    }
  }

  // ---- What a recorded agreement measures ----

  /** The two reviews that a second review compares, and the second reviewer. */
  datatype Comparison = Comparison(canonical: Review, second: Review, reviewer: string)

  /** The last second review of a trial in a run. */
  function LastComparison(rows: Rows, events: seq<Event>, id: string): Option<Comparison> {
    if events == [] then None
    else
      var n := |events| - 1;
      var t, e := Run(rows, events[..n]), events[n];
      if e.SubmitBy? && e.id == id && e.lookedUp && IsReReview(t, id, e.admin) then
        Some(Comparison(t[id].review, e.input.review, e.admin))
      else LastComparison(rows, events[..n], id)
  }

  /**
   * Over every run the recorded agreement is that between the review which was canonical at the
   * last second review and that second review, by its reviewer.
   */
  lemma {:induction false} AgreementIsOfTheLastComparison(rows: Rows, events: seq<Event>, id: string)
    requires id in rows
    ensures id in Run(rows, events)
    ensures var t := Run(rows, events)[id];
            match LastComparison(rows, events, id)
            case None => t.agreement == rows[id].agreement && t.secondReviewer == rows[id].secondReviewer
            case Some(c) => t.agreement == Some(Agreement(c.canonical, c.second)) && t.secondReviewer == c.reviewer
    decreases |events|
  {
    if events != [] {
      AgreementIsOfTheLastComparison(rows, events[..|events| - 1], id);
    }
  }

  lemma SameReviewAgrees(a: Review, b: Review, s: Review)
    requires SameReview(a, b)
    ensures Agreement(a, s) == Agreement(b, s)
  {
    assert PathsOf(a, s) == PathsOf(b, s);
    forall p ensures AgreesAt(a, s, p) <==> AgreesAt(b, s, p) {
    }
    assert AgreedPaths(a, s) == AgreedPaths(b, s);
  }

  /** Two canonical reviews measure the same against every second review exactly when they decide the same. */
  lemma MeasuresTheSameIff(a: Review, b: Review)
    ensures (forall s :: Agreement(a, s) == Agreement(b, s)) <==> SameReview(a, b)
  {
    if SameReview(a, b) {
      forall s ensures Agreement(a, s) == Agreement(b, s) {
        SameReviewAgrees(a, b, s);
      }
    }
    if forall s :: Agreement(a, s) == Agreement(b, s) {
      AgreementRange(b, b);
      assert Agreement(a, b) == Agreement(b, b) == 1.0;
      AgreementRange(a, b);
    }
  }

  /**
   * So after a second review the recorded agreement is current, whatever that review was, exactly
   * as long as what the first reviewer handed in since decides the same as what was compared.
   */
  lemma AgreementIsCurrentIff(rows: Rows, later: seq<Event>, id: string, reviewer: string)
    requires Reviewed(rows, id) && reviewer != rows[id].submittedBy && reviewer != ""
    requires NeverOverwritten(later, id, rows[id].submittedBy)
    requires forall k | 0 <= k < |later| && later[k].SubmitBy? && later[k].id == id ::
               later[k].admin == rows[id].submittedBy
    ensures (forall input: Input ::
               var t := Run(Next(rows, SubmitBy(id, reviewer, input, true)), later);
               id in t && t[id].agreement == Some(Agreement(t[id].review, input.review)))
            <==> SameReview(rows[id].review, LastReviewBy(later, id, rows[id].submittedBy, rows[id].review))
  {
    var now := LastReviewBy(later, id, rows[id].submittedBy, rows[id].review);
    forall input: Input
      ensures var t := Run(Next(rows, SubmitBy(id, reviewer, input, true)), later);
              id in t && t[id].review == now && t[id].agreement == Some(Agreement(rows[id].review, input.review))
    {
      AfterSecondReview(rows, later, id, reviewer, input);
    }
    MeasuresTheSameIff(rows[id].review, now);
    if !SameReview(rows[id].review, now) {
      var s :| Agreement(rows[id].review, s) != Agreement(now, s);
      var input := Input(s, 0, NO_SNAPSHOT);
      assert Run(Next(rows, SubmitBy(id, reviewer, input, true)), later)[id].review == now;
    }
  }

  lemma AfterSecondReview(rows: Rows, later: seq<Event>, id: string, reviewer: string, input: Input)
    requires Reviewed(rows, id) && reviewer != rows[id].submittedBy && reviewer != ""
    requires NeverOverwritten(later, id, rows[id].submittedBy)
    requires forall k | 0 <= k < |later| && later[k].SubmitBy? && later[k].id == id ::
               later[k].admin == rows[id].submittedBy
    ensures var t := Run(Next(rows, SubmitBy(id, reviewer, input, true)), later);
            && id in t && t[id].agreement == Some(Agreement(rows[id].review, input.review))
            && t[id].review == LastReviewBy(later, id, rows[id].submittedBy, rows[id].review)
  {
    var second := Next(rows, SubmitBy(id, reviewer, input, true));
    assert second[id].review == rows[id].review && second[id].submittedBy == rows[id].submittedBy;
    FirstReviewIsCanonical(second, later, id);
    NoComparison(second, later, id);
    AgreementIsOfTheLastComparison(second, later, id);
  }

  /** The first reviewer's own submits compare nothing. */
  lemma {:induction false} NoComparison(rows: Rows, later: seq<Event>, id: string)
    requires Reviewed(rows, id) && NeverOverwritten(later, id, rows[id].submittedBy)
    requires forall k | 0 <= k < |later| && later[k].SubmitBy? && later[k].id == id ::
               later[k].admin == rows[id].submittedBy
    ensures LastComparison(rows, later, id) == None
    decreases |later|
  {
    if later != [] {
      var n := |later| - 1;
      NoComparison(rows, later[..n], id);
      FirstReviewIsCanonical(rows, later[..n], id);
      assert later[n].SubmitBy? && later[n].id == id ==> later[n].admin == rows[id].submittedBy;
    }
  }

  /** Requests for other trials change nothing. */
  lemma {:induction false} OtherTrialsUntouched(rows: Rows, events: seq<Event>, id: string)
    requires forall k | 0 <= k < |events| :: events[k].id != id
    ensures id in rows <==> id in Run(rows, events)
    ensures id in rows ==> Run(rows, events)[id] == rows[id]
    decreases |events|
  {
    if events != [] {
      OtherTrialsUntouched(rows, events[..|events| - 1], id);
    }
  }
}
