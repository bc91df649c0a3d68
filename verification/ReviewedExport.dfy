/**
 * From the review store to the export: the gold that is rebuilt from a stored trial is that of
 * its first reviewer's last review, and a recorded correction is exported as the correction.
 */
module ReviewedExport {
  import opened Options
  import opened Json
  import opened Paths
  import opened Flatten
  import opened Unflatten
  import opened RoundTrip
  import opened TrainingTrials
  import E = TrainingExport
  import H = HitlIngest

  const CLAUDE := "claude"
  const GEMMA := "gemma"

  /** The sides as the export's switch reads them. */
  function PickOf(side: string): E.Pick {
    if side == CLAUDE then E.ClaudePick
    else if side == CUSTOM then E.CustomPick
    else if side == GEMMA then E.GemmaPick
    else E.UnknownPick(side)
  }

  /** What the export reads of a stored trial with this review and this snapshot. */
  function ExportInput(review: Review, snapshot: Snapshot): E.Trial {
    E.Trial(snapshot.gemma, snapshot.claude,
            map p | p in review.picks :: PickOf(review.picks[p]),
            review.custom)
  }

  function ForExport(t: Trial): E.Trial {
    ExportInput(t.review, t.snapshot)
  }

  /** The value that one review puts at a path, over the two flattened sides. */
  function DecidedAt(review: Review, gemma: Flat, claude: Flat, p: string): Option<Json> {
    if p in review.picks && review.picks[p] == CUSTOM then Some(Text(TextAt(review.custom, p)))
    else if p in review.picks && review.picks[p] == CLAUDE && p in claude then Some(claude[p])
    else if p in gemma then Some(gemma[p])
    else None
  }

  /** The paths that a review decides about. */
  ghost function DecidedPaths(review: Review, gemma: Flat, claude: Flat): set<string> {
    set p | p in review.picks.Keys + gemma.Keys && DecidedAt(review, gemma, claude, p).Some?
  }

  lemma ChosenIsDecided(review: Review, snapshot: Snapshot, gemma: Flat, claude: Flat)
    ensures E.Chosen(ExportInput(review, snapshot), gemma, claude).Keys == DecidedPaths(review, gemma, claude)
    ensures forall p :: DecidedAt(review, gemma, claude, p) ==
                        var t := ExportInput(review, snapshot);
                        if E.Overrides(t, claude, p) then Some(E.OverrideValue(t, claude, p))
                        else if p in gemma then Some(gemma[p]) else None
  {
    var t := ExportInput(review, snapshot);
    forall p
      ensures DecidedAt(review, gemma, claude, p) ==
              if E.Overrides(t, claude, p) then Some(E.OverrideValue(t, claude, p))
              else if p in gemma then Some(gemma[p]) else None
    {
    }
    forall p
      ensures p in E.Chosen(t, gemma, claude) <==> p in DecidedPaths(review, gemma, claude)
    {
    }
  }

  /**
   * Once a reviewer has submitted a trial, then over every run in which no other's look-up fails
   * the exported gold is, path by path, what that reviewer's last review decides over the
   * descriptions they supplied; whatever other reviewers submit does not enter.
   */
  lemma GoldIsTheFirstReviewers(rows: Rows, events: seq<Event>, id: string, gemma: Flat, claude: Flat,
                                order: seq<string>, gold: Desc, changed: bool, p: string)
    requires Reviewed(rows, id) && NeverOverwritten(events, id, rows[id].submittedBy)
    requires id in Run(rows, events)
    requires E.GoldVia(ForExport(Run(rows, events)[id]), gemma, claude, order, gold, changed)
    requires PrefixFree(DecidedPaths(LastReviewBy(events, id, rows[id].submittedBy, rows[id].review), gemma, claude))
    ensures var snapshot := SnapshotBy(events, id, rows[id].submittedBy, rows[id].snapshot);
            IsFlattening(E.OrEmpty(snapshot.gemma), gemma) && IsFlattening(E.OrEmpty(snapshot.claude), claude)
    ensures var last := LastReviewBy(events, id, rows[id].submittedBy, rows[id].review);
            LeafAt(gold, Split(p)) == DecidedAt(last, gemma, claude, p)
  {
    var last := LastReviewBy(events, id, rows[id].submittedBy, rows[id].review);
    var t := Run(rows, events)[id];
    FirstReviewIsCanonical(rows, events, id);
    ChosenIsDecided(last, t.snapshot, gemma, claude);
    E.GoldLeaf(ForExport(t), gemma, claude, order, gold, changed, p);
  }

  /** The run without what other reviewers submit for this trial. */
  function WithoutOthers(events: seq<Event>, id: string, reviewer: string): seq<Event> {
    if events == [] then []
    else
      var n := |events| - 1;
      var kept := WithoutOthers(events[..n], id, reviewer);
      if events[n].SubmitBy? && events[n].id == id && events[n].admin != reviewer then kept else kept + [events[n]]
  }

  lemma {:induction false} OthersDoNotCount(events: seq<Event>, id: string, reviewer: string,
                                            review: Review, snapshot: Snapshot)
    ensures var own := WithoutOthers(events, id, reviewer);
            && NeverOverwritten(own, id, reviewer)
            && LastReviewBy(own, id, reviewer, review) == LastReviewBy(events, id, reviewer, review)
            && SnapshotBy(own, id, reviewer, snapshot) == SnapshotBy(events, id, reviewer, snapshot)
    decreases |events|
  {
    if events != [] {
      var n := |events| - 1;
      var kept := WithoutOthers(events[..n], id, reviewer);
      OthersDoNotCount(events[..n], id, reviewer, review, snapshot);
      assert (kept + [events[n]])[..|kept|] == kept;
    }
  }

  /** The export gets the same trial as if nobody but the first reviewer had submitted it. */
  lemma OthersDoNotReachTheExport(rows: Rows, events: seq<Event>, id: string)
    requires Reviewed(rows, id) && NeverOverwritten(events, id, rows[id].submittedBy)
    ensures var own := WithoutOthers(events, id, rows[id].submittedBy);
            && id in Run(rows, events) && id in Run(rows, own)
            && ForExport(Run(rows, events)[id]) == ForExport(Run(rows, own)[id])
  {
    var own := WithoutOthers(events, id, rows[id].submittedBy);
    OthersDoNotCount(events, id, rows[id].submittedBy, rows[id].review, rows[id].snapshot);
    FirstReviewIsCanonical(rows, events, id);
    FirstReviewIsCanonical(rows, own, id);
  }

  // ---- Corrections ----

  /** What the ingest of a correction submits. */
  function CorrectionInput(original: Desc, corrected: Desc, patched: set<string>, imageUrl: string): Input {
    Input(Review(map p | p in patched :: CLAUDE, map[]), |patched|,
          Snapshot(Some(corrected), Some(original), imageUrl, "", "", "hitl"))
  }

  lemma StoredCorrection(original: Desc, corrected: Desc, patched: set<string>, imageUrl: string)
    ensures var input := CorrectionInput(original, corrected, patched, imageUrl);
            ExportInput(input.review, Merged(NO_SNAPSHOT, input.snapshot)) ==
            H.HitlRecord(original, corrected, patched)
  {
  }

  /**
   * A correction that is ingested under a new id is exported as the corrected description
   * exactly when its patches are leaves at paths without a leading dot, however often others
   * review it in between, as long as their look-ups succeed.
   */
  lemma CorrectionIsExported(rows: Rows, id: string, admin: string, imageUrl: string, later: seq<Event>,
                             original: Desc, patches: Flat, flat: Flat, order: seq<string>, corrected: Desc,
                             gemma: Flat, claude: Flat, goldOrder: seq<string>, gold: Desc, changed: bool)
    requires id !in rows && admin != "" && NeverOverwritten(later, id, admin)
    requires forall k | 0 <= k < |later| :: !IsSubmitOf(later[k], id, admin)
    requires IsFlattening(original, flat) && Unambiguous(original) && NoLeadingDot(flat.Keys)
    requires IsOrder(order, (flat + patches).Keys) && PrefixFree((flat + patches).Keys)
    requires corrected == Build(order, flat + patches)
    requires var input := CorrectionInput(original, corrected, patches.Keys, imageUrl);
             var t := Run(Next(rows, Ingest(id, admin, input)), later);
             id in t && E.GoldVia(ForExport(t[id]), gemma, claude, goldOrder, gold, changed)
    ensures gold == corrected <==> H.Recordable(patches)
  {
    var input := CorrectionInput(original, corrected, patches.Keys, imageUrl);
    var stored := Next(rows, Ingest(id, admin, input));
    StoredCorrection(original, corrected, patches.Keys, imageUrl);
    OthersOnlyAnnotate(stored, later, id);
    var t := ForExport(Run(stored, later)[id]);
    assert t == H.HitlRecord(original, corrected, patches.Keys);
    H.HitlReconstructs(original, patches, flat, order, t, gemma, claude, goldOrder, gold, changed);
  }
}
