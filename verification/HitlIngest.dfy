/**
 * A successful correction of an item is recorded as an already reviewed trial: Gemma's side is
 * the original description, Claude's side the corrected one, and every patched path a claude
 * pick. The export must get the corrected description back from that record.
 */
module HitlIngest {
  import opened Options
  import opened Json
  import opened Paths
  import opened Flatten
  import opened Unflatten
  import opened RoundTrip
  import opened TrainingExport

  function HitlRecord(original: Desc, corrected: Desc, patched: set<string>): Trial {
    Trial(Some(original), Some(corrected), map p | p in patched :: ClaudePick, map[])
  }

  /** `t` is a possible record of the correction. */
  ghost predicate IngestVia(original: Desc, patches: Flat, flat: Flat, order: seq<string>, t: Trial) {
    && IsFlattening(original, flat)
    && IsOrder(order, (flat + patches).Keys)
    && t == HitlRecord(original, Build(order, flat + patches), patches.Keys)
  }

  /** Every patch overwrites its path and becomes a claude pick, in any order. */
  method ApplyPatches(flat: Flat, patches: Flat) returns (chosen: Flat, picks: map<string, Pick>)
    ensures chosen == flat + patches
    ensures picks == map p | p in patches.Keys :: ClaudePick
  {
    chosen, picks := flat, map[];
    var paths := patches.Keys;
    while paths != {}
      invariant paths <= patches.Keys
      invariant forall p :: p in chosen <==> p in flat || (p in patches && p !in paths)
      invariant forall p | p in chosen :: chosen[p] == if p in patches && p !in paths then patches[p] else flat[p]
      invariant picks == map p | p in patches.Keys && p !in paths :: ClaudePick
      decreases paths
    {
      var p :| p in paths;
      chosen := chosen[p := patches[p]];
      picks := picks[p := ClaudePick];
      paths := paths - {p};
    }
  }

  /** ingestHitlCorrection: nothing is recorded without a snapshot or without patches. */
  method Ingest(snapshot: Option<Desc>, patches: Flat)
    returns (ghost t: Option<Trial>, recorded: bool, ghost flat: Flat, ghost order: seq<string>)
    ensures recorded <==> t.Some?
    ensures recorded <==> snapshot.Some? && patches != map[]
    ensures recorded ==> IngestVia(snapshot.value, patches, flat, order, t.value)
  {
    t, recorded, flat, order := None, false, map[], [];
    if snapshot.None? || |patches| == 0 {
      return;
    }
    var original := FlattenDesc(snapshot.value);
    flat := original;
    var chosen, picks := ApplyPatches(original, patches);
    var root: Dict;
    ghost var nodes;
    root, nodes, order := UnflattenDesc(chosen);
    recorded := true;
    t := Some(Trial(snapshot, Some(root.model), picks, map[]));
  }

  /** With prefix-free paths the value written at a path is what the tree holds there. */
  lemma {:induction false} GetBuild(order: seq<string>, flat: Flat, p: string)
    requires forall x | x in order :: x in flat
    requires forall i, j | 0 <= i < j < |order| :: order[i] != order[j]
    requires PrefixFree(flat.Keys) && p in order
    ensures Get(Build(order, flat), Split(p)) == Some(flat[p])
    decreases |order|
  {
    var n := |order| - 1;
    var init := order[..n];
    assert order == init + [order[n]];
    GetPut(Build(init, flat), Split(order[n]), flat[order[n]], Split(p));
    if order[n] != p {
      assert p in init;
      GetBuild(init, flat, p);
      ComparableIsAbove(order[n], p);
    }
  }

  /** In a tree without empty sub-objects an inner node lies above some leaf. */
  lemma {:induction false} NodeHasLeaf(d: Desc, ks: Keys) returns (q: Keys)
    requires Canonical(d) && ks != [] && Get(d, ks).Some? && Get(d, ks).value.Object?
    ensures ks < q && LeafAt(d, q).Some?
    decreases |ks|
  {
    var sub := d.fields[ks[0]];
    if |ks| == 1 {
      var rest := SomeLeaf(sub);
      q := [ks[0]] + rest;
      LeafBelow(d, ks[0], rest);
    } else {
      var rest := NodeHasLeaf(sub, ks[1..]);
      q := [ks[0]] + rest;
      LeafBelow(d, ks[0], rest);
      assert ks == [ks[0]] + ks[1..];
    }
  }

  lemma PatchedAreLeaves(original: Desc, patches: Flat, flat: Flat)
    requires IsFlattening(original, flat) && AllLeaves(patches)
    ensures AllLeaves(flat + patches)
  {
    FlatValuesAreLeaves(original, flat);
  }

  /** All picks are claude picks; where Claude's side is the patched set, so is the outcome. */
  lemma ChosenIsPatched(t: Trial, patches: Flat, flat: Flat)
    requires t.picks == map p | p in patches.Keys :: ClaudePick
    ensures Chosen(t, flat, flat + patches) == flat + patches
  {
    forall p
      ensures Overrides(t, flat + patches, p) <==> p in patches
    {
    }
  }

  /** Leaf-valued patches: Claude's flattened side is exactly the patched set of leaves. */
  lemma CorrectedSideIsPatched(original: Desc, patches: Flat, flat: Flat, order: seq<string>, t: Trial,
                               gemma: Flat, claude: Flat)
    requires Unambiguous(original) && IngestVia(original, patches, flat, order, t)
    requires IsFlattening(original, gemma) && IsFlattening(t.claude.value, claude)
    requires PrefixFree((flat + patches).Keys) && NoLeadingDot((flat + patches).Keys)
    requires AllLeaves(patches)
    ensures gemma == flat && claude == flat + patches && Chosen(t, gemma, claude) == flat + patches
  {
    FlatteningUnique(original, flat, gemma);
    PatchedAreLeaves(original, patches, flat);
    FlatRoundTrip(flat + patches, order, claude);
    ChosenIsPatched(t, patches, flat);
  }

  /** A patch whose value is an object is not a leaf of Claude's side, so its pick is void. */
  lemma ObjectPatchIsLost(original: Desc, patches: Flat, flat: Flat, order: seq<string>, t: Trial,
                          gemma: Flat, claude: Flat, goldOrder: seq<string>, gold: Desc, changed: bool, p: string)
    requires Unambiguous(original) && IngestVia(original, patches, flat, order, t)
    requires GoldVia(t, gemma, claude, goldOrder, gold, changed)
    requires PrefixFree((flat + patches).Keys)
    requires p in patches && !IsLeaf(patches[p])
    ensures gold != t.claude.value
  {
    var patched := flat + patches;
    var chosen := Chosen(t, gemma, claude);
    FlatteningUnique(original, flat, gemma);
    assert p in order;
    GetBuild(order, patched, p);
    ChosenAreLeaves(t, gemma, claude);
    assert chosen.Keys <= patched.Keys;
    BuildShape(goldOrder, chosen);
    if gold == t.claude.value {
      var q := NodeHasLeaf(gold, Split(p));
      var i := LeafHasWriter(goldOrder, chosen, q);
      assert goldOrder[i] in patched.Keys;
      AboveIsPrefix(p, goldOrder[i]);
      assert false;
    }
  }

  /** A leading dot names an empty first key, which Claude's flattened side drops: such a pick is void. */
  lemma LeadingDotIsVoid(original: Desc, patches: Flat, flat: Flat, order: seq<string>, t: Trial,
                         gemma: Flat, claude: Flat, p: string)
    requires Unambiguous(original) && NoLeadingDot(flat.Keys) && IngestVia(original, patches, flat, order, t)
    requires IsFlattening(original, gemma) && IsFlattening(t.claude.value, claude)
    requires AllLeaves(patches) && p in patches && "." <= p
    ensures p !in Chosen(t, gemma, claude)
  {
    FlatteningUnique(original, flat, gemma);
    PatchedAreLeaves(original, patches, flat);
    BuildShape(order, flat + patches);
    if p in claude {
      var ks :| EmitsAt("", t.claude.value, p, claude[p], ks);
      LeafPathDotFree(t.claude.value, ks);
      FlatPathNoLeadingDot(ks);
    }
  }

  lemma LeadingDotPatchIsLost(original: Desc, patches: Flat, flat: Flat, order: seq<string>, t: Trial,
                              gemma: Flat, claude: Flat, goldOrder: seq<string>, gold: Desc, changed: bool, p: string)
    requires Unambiguous(original) && NoLeadingDot(flat.Keys) && IngestVia(original, patches, flat, order, t)
    requires GoldVia(t, gemma, claude, goldOrder, gold, changed)
    requires PrefixFree((flat + patches).Keys)
    requires AllLeaves(patches) && p in patches && "." <= p
    ensures LeafAt(t.claude.value, Split(p)) == Some(patches[p]) && LeafAt(gold, Split(p)) == None
  {
    LeadingDotIsVoid(original, patches, flat, order, t, gemma, claude, p);
    PatchedAreLeaves(original, patches, flat);
    BuildLeaves(order, flat + patches);
    ChosenAreLeaves(t, gemma, claude);
    if LeafAt(gold, Split(p)).Some? {
      var i := LeafHasWriter(goldOrder, Chosen(t, gemma, claude), Split(p));
      SplitInjective(goldOrder[i], p);
    }
  }

  /** The patches that can be recorded and rebuilt: leaves, at paths whose first key is not empty. */
  ghost predicate Recordable(patches: Flat) {
    AllLeaves(patches) && NoLeadingDot(patches.Keys)
  }

  lemma RecordableComeBack(original: Desc, patches: Flat, flat: Flat, order: seq<string>, t: Trial,
                           gemma: Flat, claude: Flat, goldOrder: seq<string>, gold: Desc, changed: bool)
    requires Unambiguous(original) && NoLeadingDot(flat.Keys) && IngestVia(original, patches, flat, order, t)
    requires GoldVia(t, gemma, claude, goldOrder, gold, changed)
    requires PrefixFree((flat + patches).Keys) && Recordable(patches)
    ensures gold == t.claude.value
    ensures changed <==> flat + patches != flat
    ensures forall p | p in flat + patches :: LeafAt(gold, Split(p)) == Some((flat + patches)[p])
  {
    CorrectedSideIsPatched(original, patches, flat, order, t, gemma, claude);
    PatchedAreLeaves(original, patches, flat);
    SameForTwoOrders(flat + patches, goldOrder, order);
    BuildLeaves(goldOrder, flat + patches);
  }

  /**
   * The export reconstructs the corrected description from the record exactly when every
   * patched value is a leaf and no patched path starts with a dot, for every visiting order on
   * both sides; then every path holds its patched or original value, and `changed` tells whether
   * some patch moved a value.
   */
  lemma HitlReconstructs(original: Desc, patches: Flat, flat: Flat, order: seq<string>, t: Trial,
                         gemma: Flat, claude: Flat, goldOrder: seq<string>, gold: Desc, changed: bool)
    requires Unambiguous(original) && NoLeadingDot(flat.Keys) && IngestVia(original, patches, flat, order, t)
    requires GoldVia(t, gemma, claude, goldOrder, gold, changed)
    requires PrefixFree((flat + patches).Keys)
    ensures gold == t.claude.value <==> Recordable(patches)
    ensures Recordable(patches) ==>
              (changed <==> exists p :: p in patches && !(p in flat && flat[p] == patches[p]))
    ensures Recordable(patches) ==>
              forall p | p in flat + patches :: LeafAt(gold, Split(p)) == Some((flat + patches)[p])
  {
    if Recordable(patches) {
      RecordableComeBack(original, patches, flat, order, t, gemma, claude, goldOrder, gold, changed);
      PatchedDiffers(flat, patches);
    } else if AllLeaves(patches) {
      var p :| p in patches && "." <= p;
      LeadingDotPatchIsLost(original, patches, flat, order, t, gemma, claude, goldOrder, gold, changed, p);
    } else {
      var p :| p in patches && !IsLeaf(patches[p]);
      ObjectPatchIsLost(original, patches, flat, order, t, gemma, claude, goldOrder, gold, changed, p);
    }
  }

  /** Every faithful original qualifies. */
  lemma FaithfulOriginal(original: Desc, flat: Flat)
    requires Faithful(original) && IsFlattening(original, flat)
    ensures Unambiguous(original) && NoLeadingDot(flat.Keys) && PrefixFree(flat.Keys)
  {
    FaithfulIsUnambiguous(original);
    FaithfulFlat(original, flat);
  }

  lemma NothingToFlatten(flat: Flat)
    requires IsFlattening(EMPTY, flat)
    ensures flat == map[] && Unambiguous(EMPTY)
  {
  }

  lemma VisitsSomething(order: seq<string>, paths: set<string>)
    requires IsOrder(order, paths) && order != []
    ensures paths != {}
  {
    assert order[0] in order;
  }

  /** A patch of the path ".x" on an empty description is recorded, and rebuilt as no correction at all. */
  lemma DottedPatchIsDropped(t: Trial, flat: Flat, order: seq<string>,
                             gemma: Flat, claude: Flat, goldOrder: seq<string>, gold: Desc, changed: bool)
    requires IngestVia(EMPTY, map[".x" := Null], flat, order, t)
    requires GoldVia(t, gemma, claude, goldOrder, gold, changed)
    ensures LeafAt(t.claude.value, ["", "x"]) == Some(Null) && gold == EMPTY && !changed
  {
    var patches: Flat := map[".x" := Null];
    NothingToFlatten(flat);
    NothingToFlatten(gemma);
    assert flat + patches == patches;
    assert Split(".x") == ["", "x"];
    LeadingDotPatchIsLost(EMPTY, patches, flat, order, t, gemma, claude, goldOrder, gold, changed, ".x");
    LeadingDotIsVoid(EMPTY, patches, flat, order, t, gemma, claude, ".x");
    assert Chosen(t, gemma, claude) == map[];
    if goldOrder != [] { VisitsSomething(goldOrder, Chosen(t, gemma, claude).Keys); }
  }

  lemma PatchedDiffers(flat: Flat, patches: Flat)
    ensures flat + patches != flat <==> exists p :: p in patches && !(p in flat && flat[p] == patches[p])
  {
    if p :| p in patches && !(p in flat && flat[p] == patches[p]) {
      assert p in flat + patches;
    } else {
      assert flat + patches == flat;
    }
  }
}
