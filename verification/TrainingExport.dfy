/**
 * From a reviewed trial to a training record: the human picks are applied to Gemma's flattened
 * description and the result is rebuilt (the gold); a preference pair is emitted when the
 * flattened gold differs from Gemma's.
 */
module TrainingExport {
  import opened Options
  import opened Counting
  import opened Json
  import opened Paths
  import opened Flatten
  import opened Unflatten
  import opened RoundTrip

  /** The side that won an attribute; the program ignores any other marker. */
  datatype Pick = ClaudePick | CustomPick | GemmaPick | UnknownPick(marker: string)

  /** The fields of a stored trial that the export reads. */
  datatype Trial = Trial(
    gemma: Option<Desc>,
    claude: Option<Desc>,
    picks: map<string, Pick>,
    custom: map<string, string>)

  function OrEmpty(d: Option<Desc>): Desc {
    match d
    case Some(x) => x
    case None => EMPTY
  }

  // ---- Applying the picks ----

  /** A custom pick without a typed value reads the map's zero value. */
  function CustomText(custom: map<string, string>, p: string): Json {
    Text(if p in custom then custom[p] else "")
  }

  /** Does the pick at `p` overwrite Gemma's value? */
  predicate Overrides(t: Trial, claude: Flat, p: string) {
    p in t.picks && (t.picks[p] == CustomPick || (t.picks[p] == ClaudePick && p in claude))
  }

  function OverrideValue(t: Trial, claude: Flat, p: string): Json
    requires Overrides(t, claude, p)
  {
    if t.picks[p] == CustomPick then CustomText(t.custom, p) else claude[p]
  }

  /** Gemma's leaves with the overriding picks on top. */
  function Chosen(t: Trial, gemma: Flat, claude: Flat): Flat {
    gemma + map p | p in t.picks && Overrides(t, claude, p) :: OverrideValue(t, claude, p)
  }

  /** Copying a map entry by entry, in any order. */
  method CopyFlat(flat: Flat) returns (copy: Flat)
    ensures copy == flat
  {
    copy := map[];
    var keys := flat.Keys;
    while keys != {}
      invariant keys <= flat.Keys
      invariant copy == map k | k in flat && k !in keys :: flat[k]
      decreases keys
    {
      var k :| k in keys;
      copy := copy[k := flat[k]];
      keys := keys - {k};
    }
  }

  /** Gemma's leaves with some of the overriding picks on top. */
  ghost function ChosenSoFar(t: Trial, gemma: Flat, claude: Flat, done: set<string>): Flat {
    gemma + map p | p in t.picks && p in done && Overrides(t, claude, p) :: OverrideValue(t, claude, p)
  }

  lemma NoPickAndAllPicks(t: Trial, gemma: Flat, claude: Flat)
    ensures ChosenSoFar(t, gemma, claude, {}) == gemma
    ensures ChosenSoFar(t, gemma, claude, t.picks.Keys) == Chosen(t, gemma, claude)
  {
  }

  lemma OneMorePick(t: Trial, gemma: Flat, claude: Flat, done: set<string>, p: string)
    requires p in t.picks
    ensures ChosenSoFar(t, gemma, claude, done + {p}) ==
            if Overrides(t, claude, p) then ChosenSoFar(t, gemma, claude, done)[p := OverrideValue(t, claude, p)]
            else ChosenSoFar(t, gemma, claude, done)
  {
  }

  /** The picks are applied in any order. */
  method ApplyPicks(t: Trial, gemma: Flat, claude: Flat) returns (chosen: Flat)
    ensures chosen == Chosen(t, gemma, claude)
  {
    chosen := CopyFlat(gemma);
    var paths := t.picks.Keys;
    NoPickAndAllPicks(t, gemma, claude);
    assert t.picks.Keys - paths == {};
    while paths != {}
      invariant paths <= t.picks.Keys
      invariant chosen == ChosenSoFar(t, gemma, claude, t.picks.Keys - paths)
      decreases paths
    {
      var path :| path in paths;
      OneMorePick(t, gemma, claude, t.picks.Keys - paths, path);
      assert t.picks.Keys - (paths - {path}) == t.picks.Keys - paths + {path};
      match t.picks[path] {
        case ClaudePick =>
          if path in claude {
            chosen := chosen[path := claude[path]];
          }
        case CustomPick =>
          chosen := chosen[path := CustomText(t.custom, path)];
        case _ =>
      }
      paths := paths - {path};
    }
    assert t.picks.Keys - paths == t.picks.Keys;
  }

  /** flatDiffers: sizes first, then every entry of `a`, in any order. */
  method FlatDiffers(a: Flat, b: Flat) returns (differs: bool)
    ensures differs <==> a != b
  {
    if |a| != |b| {
      return true;
    }
    var keys := a.Keys;
    while keys != {}
      invariant keys <= a.Keys
      invariant forall k | k in a && k !in keys :: k in b && a[k] == b[k]
      decreases keys
    {
      var k :| k in keys;
      if k !in b || a[k] != b[k] {
        return true;
      }
      keys := keys - {k};
    }
    SubsetSize(a.Keys, b.Keys);
    assert a == b;
    differs := false;
  }

  // ---- The reconstruction ----

  /** `gold` and `changed` are a possible outcome, for the flattenings and the visiting order given. */
  ghost predicate GoldVia(t: Trial, gemma: Flat, claude: Flat, order: seq<string>, gold: Desc, changed: bool) {
    && IsFlattening(OrEmpty(t.gemma), gemma)
    && IsFlattening(OrEmpty(t.claude), claude)
    && IsOrder(order, Chosen(t, gemma, claude).Keys)
    && gold == Build(order, Chosen(t, gemma, claude))
    && (changed <==> Chosen(t, gemma, claude) != gemma)
  }

  /** reconstructGold. */
  method ReconstructGold(t: Trial)
    returns (root: Dict, changed: bool,
             ghost nodes: set<Dict>, ghost gemma: Flat, ghost claude: Flat, ghost order: seq<string>)
    ensures fresh(nodes) && Tree(nodes, root)
    ensures GoldVia(t, gemma, claude, order, root.model, changed)
  {
    var gemmaFlat := FlattenDesc(OrEmpty(t.gemma));
    var claudeFlat := FlattenDesc(OrEmpty(t.claude));
    var chosen := ApplyPicks(t, gemmaFlat, claudeFlat);
    root, nodes, order := UnflattenDesc(chosen);
    changed := FlatDiffers(chosen, gemmaFlat);
    gemma, claude := gemmaFlat, claudeFlat;
  }

  lemma ChosenAreLeaves(t: Trial, gemma: Flat, claude: Flat)
    requires IsFlattening(OrEmpty(t.gemma), gemma) && IsFlattening(OrEmpty(t.claude), claude)
    ensures AllLeaves(Chosen(t, gemma, claude))
  {
    FlatValuesAreLeaves(OrEmpty(t.gemma), gemma);
    FlatValuesAreLeaves(OrEmpty(t.claude), claude);
  }

  /**
   * The gold, path by path: a custom pick puts the typed text, a claude pick Claude's value
   * where Claude has one, every other path keeps Gemma's value, and nothing else is in it.
   */
  lemma GoldLeaf(t: Trial, gemma: Flat, claude: Flat, order: seq<string>, gold: Desc, changed: bool, p: string)
    requires GoldVia(t, gemma, claude, order, gold, changed)
    requires PrefixFree(Chosen(t, gemma, claude).Keys)
    ensures LeafAt(gold, Split(p)) ==
            if Overrides(t, claude, p) then Some(OverrideValue(t, claude, p))
            else if p in gemma then Some(gemma[p])
            else None
  {
    var chosen := Chosen(t, gemma, claude);
    ChosenAreLeaves(t, gemma, claude);
    if p in chosen {
      BuildLeaves(order, chosen);
    } else if LeafAt(gold, Split(p)).Some? {
      var i := LeafHasWriter(order, chosen, Split(p));
      SplitInjective(order[i], p);
    }
  }

  // ---- The `changed` flag and the preference pair ----

  /**
   * The case in which the flag and the pair disagree: the picks add paths without moving any of
   * Gemma's values, and each added path lies under some path that one of Gemma's also lies
   * under, so that the visiting order can make all the additions vanish from the gold.
   */
  ghost predicate Masked(gemma: Flat, chosen: Flat) {
    && chosen != gemma
    && (forall p | p in gemma :: p in chosen && chosen[p] == gemma[p])
    && (forall p | p in chosen && p !in gemma :: Tied(gemma, chosen, p))
  }

  ghost predicate Tied(gemma: Flat, chosen: Flat, p: string) {
    exists r, q :: r in chosen && q in gemma && AtOrAbove(r, p) && AtOrAbove(r, q)
  }

  predicate AtOrAbove(r: string, p: string) {
    r == p || Above(r, p)
  }

  lemma AtOrAboveIsPrefix(r: string, p: string)
    ensures AtOrAbove(r, p) <==> Split(r) <= Split(p)
  {
    AboveIsPrefix(r, p);
    if Split(r) == Split(p) { SplitInjective(r, p); }
  }

  /** When some value of Gemma's moved, no visiting order can hide it. */
  lemma MovedValueShows(d: Desc, gemma: Flat, chosen: Flat, order: seq<string>, p: string)
    requires Faithful(d) && IsFlattening(d, gemma)
    requires AllLeaves(chosen) && IsOrder(order, chosen.Keys)
    requires p in gemma && (p !in chosen || chosen[p] != gemma[p])
    ensures Build(order, chosen) != d
  {
    FaithfulFlat(d, gemma);
    if LeafAt(Build(order, chosen), Split(p)).Some? {
      var i := LeafHasWriter(order, chosen, Split(p));
      SplitInjective(order[i], p);
    }
  }

  /** The shortest path of `paths` at or above `p`. */
  lemma {:induction false} TopOf(paths: set<string>, p: string) returns (r: string)
    requires p in paths
    ensures r in paths && Split(r) <= Split(p)
    ensures forall x | x in paths && Split(x) <= Split(p) :: Split(r) <= Split(x)
    decreases |Split(p)|
  {
    r := p;
    if x :| x in paths && Split(x) < Split(p) {
      r := TopOf(paths, x);
      forall y | y in paths && Split(y) <= Split(p)
        ensures Split(r) <= Split(y)
      {
        PrefixesOfOne(Split(x), Split(y), Split(p));
      }
    } else {
      forall y | y in paths && Split(y) <= Split(p)
        ensures Split(r) <= Split(y)
      {
        assert !(Split(y) < Split(p));
      }
    }
  }

  lemma PrefixesOfOne(a: Keys, b: Keys, c: Keys)
    requires a <= c && b <= c
    ensures Comparable(a, b)
  {
    assert |a| <= |b| ==> a == b[..|a|];
    assert |b| <= |a| ==> b == a[..|b|];
  }

  /** Below a topmost path, the last visit is the last among all comparable ones. */
  lemma LastBelowIsLast(order: seq<string>, chosen: Flat, r: string, i: nat)
    requires IsOrder(order, chosen.Keys)
    requires forall x | x in chosen && Split(x) <= Split(r) :: x == r
    requires i < |order| && Split(r) <= Split(order[i])
    requires forall k | i < k < |order| :: !(Split(r) <= Split(order[k]))
    ensures LastWriter(order, i, Split(order[i]))
  {
    forall j | i < j < |order|
      ensures !Comparable(Split(order[j]), Split(order[i]))
    {
      assert order[j] in order;
      if Split(order[j]) <= Split(order[i]) {
        PrefixesOfOne(Split(r), Split(order[j]), Split(order[i]));
      }
    }
  }

  /** The last visit at or below a topmost path leaves its leaf in the tree. */
  lemma LastBelowStays(order: seq<string>, chosen: Flat, r: string) returns (i: nat)
    requires IsOrder(order, chosen.Keys)
    requires forall x | x in chosen && Split(x) <= Split(r) :: x == r
    requires exists k :: 0 <= k < |order| && Split(r) <= Split(order[k])
    ensures i < |order| && Split(r) <= Split(order[i]) && LastWriter(order, i, Split(order[i]))
  {
    i := LastBelow(order, Split(r));
    LastBelowIsLast(order, chosen, r, i);
  }

  lemma {:induction false} LastBelow(order: seq<string>, ks: Keys) returns (i: nat)
    requires exists k :: 0 <= k < |order| && ks <= Split(order[k])
    ensures i < |order| && ks <= Split(order[i])
    ensures forall k | i < k < |order| :: !(ks <= Split(order[k]))
    decreases |order|
  {
    var n := |order| - 1;
    if ks <= Split(order[n]) {
      i := n;
    } else {
      i := LastBelow(order[..n], ks);
    }
  }

  /** An added path in a region of its own shows, whatever the visiting order. */
  lemma UntiedPathShows(d: Desc, gemma: Flat, chosen: Flat, order: seq<string>, p: string)
    requires Faithful(d) && IsFlattening(d, gemma)
    requires AllLeaves(chosen) && IsOrder(order, chosen.Keys)
    requires p in chosen && !Tied(gemma, chosen, p)
    ensures Build(order, chosen) != d
  {
    var r := TopOf(chosen.Keys, p);
    forall x | x in chosen && Split(x) <= Split(r)
      ensures x == r
    {
      assert Split(x) <= Split(p);
      SplitInjective(x, r);
    }
    assert r in order;
    var k :| 0 <= k < |order| && order[k] == r;
    var i := LastBelowStays(order, chosen, r);
    var q := order[i];
    assert q in order;
    LeafAtBuild(order, chosen, Split(q));
    AtOrAboveIsPrefix(r, p);
    AtOrAboveIsPrefix(r, q);
    assert q !in gemma;
    FaithfulFlat(d, gemma);
    if LeafAt(d, Split(q)).Some? {
      JoinSplit(q);
      assert false;
    }
  }

  // ---- A masking order: the added paths from the deepest up, then Gemma's ----

  lemma {:induction false} Deepest(paths: set<string>) returns (p: string)
    requires paths != {}
    ensures p in paths && forall x | x in paths :: |Split(x)| <= |Split(p)|
    decreases paths
  {
    p :| p in paths;
    if paths != {p} {
      var q := Deepest(paths - {p});
      if |Split(p)| < |Split(q)| { p := q; }
    }
  }

  lemma {:induction false} DeepFirst(paths: set<string>) returns (order: seq<string>)
    ensures IsOrder(order, paths)
    ensures forall i, j | 0 <= i < j < |order| :: |Split(order[i])| >= |Split(order[j])|
    decreases paths
  {
    order := [];
    if paths != {} {
      var p := Deepest(paths);
      var rest := DeepFirst(paths - {p});
      order := [p] + rest;
      forall i, j | 0 <= i < j < |order|
        ensures |Split(order[i])| >= |Split(order[j])|
      {
        assert order[j] in rest;
      }
    }
  }

  lemma MaskingOrder(d: Desc, gemma: Flat, chosen: Flat) returns (order: seq<string>)
    requires Faithful(d) && IsFlattening(d, gemma)
    requires AllLeaves(chosen) && Masked(gemma, chosen)
    ensures IsOrder(order, chosen.Keys) && Build(order, chosen) == d
  {
    var added := DeepFirst(chosen.Keys - gemma.Keys);
    var kept := DeepFirst(gemma.Keys);
    order := added + kept;
    forall i, j | 0 <= i < j < |order|
      ensures order[i] != order[j]
    {
      assert i < |added| ==> order[i] in added;
      assert j >= |added| ==> order[j] in kept;
    }
    assert forall p :: p in order <==> p in added || p in kept;
    FaithfulFlat(d, gemma);
    BuildShape(order, chosen);
    forall q
      ensures LeafAt(Build(order, chosen), q) == LeafAt(d, q)
    {
      MaskedLeaf(d, gemma, chosen, added, kept, q);
    }
    SameLeavesEqual(Build(order, chosen), d);
  }

  lemma MaskedLeaf(d: Desc, gemma: Flat, chosen: Flat, added: seq<string>, kept: seq<string>, q: Keys)
    requires Faithful(d) && IsFlattening(d, gemma)
    requires AllLeaves(chosen) && Masked(gemma, chosen)
    requires IsOrder(added, chosen.Keys - gemma.Keys) && IsOrder(kept, gemma.Keys)
    requires forall i, j | 0 <= i < j < |added| :: |Split(added[i])| >= |Split(added[j])|
    requires IsOrder(added + kept, chosen.Keys)
    ensures LeafAt(Build(added + kept, chosen), q) == LeafAt(d, q)
  {
    var order := added + kept;
    FaithfulFlat(d, gemma);
    if LeafAt(Build(order, chosen), q).Some? {
      var i := LeafHasWriter(order, chosen, q);
      if i < |added| {
        AddedIsOverwritten(gemma, chosen, added, kept, i);
        assert false;
      }
      assert order[i] == kept[i - |added|] && order[i] in kept;
    }
    if LeafAt(d, q).Some? {
      KeptIsLast(gemma, added, kept, Join(q));
      assert Join(q) in chosen;
      LeafAtBuild(order, chosen, q);
    }
  }

  /** Gemma's own paths come last, and they are prefix-free. */
  lemma KeptIsLast(gemma: Flat, added: seq<string>, kept: seq<string>, p: string)
    requires PrefixFree(gemma.Keys) && IsOrder(kept, gemma.Keys) && p in gemma
    ensures exists i :: 0 <= i < |added + kept| && (added + kept)[i] == p && LastWriter(added + kept, i, Split(p))
  {
    var order := added + kept;
    assert p in kept;
    var j :| 0 <= j < |kept| && kept[j] == p;
    var i := |added| + j;
    forall k | i < k < |order|
      ensures !Comparable(Split(order[k]), Split(p))
    {
      assert order[k] == kept[k - |added|] && kept[k - |added|] in kept;
      ComparableIsAbove(order[k], p);
    }
    assert order[i] == p && LastWriter(order, i, Split(p));
  }

  /** In the masking order every added path is followed by a comparable one. */
  lemma AddedIsOverwritten(gemma: Flat, chosen: Flat, added: seq<string>, kept: seq<string>, i: nat)
    requires Masked(gemma, chosen)
    requires IsOrder(added, chosen.Keys - gemma.Keys) && IsOrder(kept, gemma.Keys)
    requires forall i, j | 0 <= i < j < |added| :: |Split(added[i])| >= |Split(added[j])|
    requires i < |added|
    ensures !LastWriter(added + kept, i, Split(added[i]))
  {
    var order := added + kept;
    var p := added[i];
    assert p in added;
    assert Tied(gemma, chosen, p);
    var r, q :| r in chosen && q in gemma && AtOrAbove(r, p) && AtOrAbove(r, q);
    AtOrAboveIsPrefix(r, p);
    AtOrAboveIsPrefix(r, q);
    var killer := if r == p then q else r;
    if killer in gemma {
      assert killer in kept;
      var j :| 0 <= j < |kept| && kept[j] == killer;
      assert order[|added| + j] == killer && Comparable(Split(killer), Split(p));
    } else {
      assert killer in added;
      var j :| 0 <= j < |added| && added[j] == killer;
      if Split(killer) == Split(p) { SplitInjective(killer, p); }
      assert |Split(killer)| < |Split(p)|;
      assert order[j] == killer && j > i && Comparable(Split(killer), Split(p));
    }
  }

  /**
   * For a faithful Gemma description, `changed` says for every visiting order whether the gold
   * differs from it, exactly when the picks are not masked.
   */
  lemma ChangedIffGoldDiffers(d: Desc, gemma: Flat, chosen: Flat)
    requires Faithful(d) && IsFlattening(d, gemma)
    requires AllLeaves(chosen) && gemma.Keys <= chosen.Keys
    ensures (forall order | IsOrder(order, chosen.Keys) :: chosen != gemma <==> Build(order, chosen) != d)
            <==> !Masked(gemma, chosen)
  {
    if Masked(gemma, chosen) {
      var order := MaskingOrder(d, gemma, chosen);
    } else {
      forall order | IsOrder(order, chosen.Keys)
        ensures chosen != gemma <==> Build(order, chosen) != d
      {
        if chosen == gemma {
          TreeRoundTrip(d, gemma, order);
        } else if p :| p in gemma && chosen[p] != gemma[p] {
          MovedValueShows(d, gemma, chosen, order, p);
        } else {
          var p :| p in chosen && p !in gemma && !Tied(gemma, chosen, p);
          UntiedPathShows(d, gemma, chosen, order, p);
        }
      }
    }
  }

  /** Picks that keep the set of paths prefix-free are never masked. */
  lemma PrefixFreeIsNotMasked(gemma: Flat, chosen: Flat)
    requires PrefixFree(chosen.Keys) && gemma.Keys <= chosen.Keys
    ensures !Masked(gemma, chosen)
  {
    forall p | p in chosen && p !in gemma
      ensures !Tied(gemma, chosen, p)
    {
    }
    if forall p | p in gemma :: p in chosen && chosen[p] == gemma[p] {
      assert chosen == gemma || exists p :: p in chosen && p !in gemma;
    }
  }

  // ---- Export rows ----

  datatype Format = Sft | Dpo

  datatype Row = SftRow(gold: Desc) | DpoRow(chosen: Desc, rejected: Desc)

  /**
   * One row of the export: no snapshot, no row; below the agreement bar, no row; a preference
   * pair only for a changed gold.
   */
  method ExportRow(t: Trial, format: Format, minAgreement: real, agreement: Option<real>)
    returns (ghost row: Option<Row>, emitted: bool,
             ghost gemma: Flat, ghost claude: Flat, ghost order: seq<string>)
    ensures emitted <==> row.Some?
    ensures t.gemma.None? || (minAgreement > 0.0 && (agreement.None? || agreement.value < minAgreement)) ==> !emitted
    ensures t.gemma.Some? && (minAgreement <= 0.0 || (agreement.Some? && agreement.value >= minAgreement)) ==>
              exists gold, changed :: RowFor(t, format, gemma, claude, order, gold, changed, row)
  {
    row, emitted, gemma, claude, order := None, false, map[], map[], [];
    if t.gemma.None? {
      return;
    }
    if minAgreement > 0.0 && (agreement.None? || agreement.value < minAgreement) {
      return;
    }
    var root: Dict, changed: bool;
    ghost var nodes;
    root, changed, nodes, gemma, claude, order := ReconstructGold(t);
    if format.Sft? {
      row, emitted := Some(SftRow(root.model)), true;
    } else if changed {
      row, emitted := Some(DpoRow(root.model, t.gemma.value)), true;
    }
    assert RowFor(t, format, gemma, claude, order, root.model, changed, row);
  }

  ghost predicate RowFor(t: Trial, format: Format, gemma: Flat, claude: Flat, order: seq<string>,
                         gold: Desc, changed: bool, row: Option<Row>)
    requires t.gemma.Some?
  {
    && GoldVia(t, gemma, claude, order, gold, changed)
    && row == (if format.Sft? then Some(SftRow(gold))
               else if changed then Some(DpoRow(gold, t.gemma.value))
               else None)
  }

  /**
   * Every emitted pair has two different halves and every pair held back would have had equal
   * ones, for a faithful Gemma description and picks that are not masked.
   */
  lemma PairsCarryASignal(t: Trial, gemma: Flat, claude: Flat, order: seq<string>,
                          gold: Desc, changed: bool, row: Option<Row>)
    requires t.gemma.Some? && Faithful(t.gemma.value)
    requires RowFor(t, Dpo, gemma, claude, order, gold, changed, row)
    requires !Masked(gemma, Chosen(t, gemma, claude))
    ensures row.Some? ==> row.value == DpoRow(gold, t.gemma.value) && row.value.chosen != row.value.rejected
    ensures row.None? ==> gold == t.gemma.value
  {
    ChosenAreLeaves(t, gemma, claude);
    ChangedIffGoldDiffers(t.gemma.value, gemma, Chosen(t, gemma, claude));
  }

  const BLUE_LEAF: Json := Text("blue")
  const BLUE_COLOR: Desc := Object(map["primary" := BLUE_LEAF])
  const BLUE_GARMENT: Desc := Object(map["color" := BLUE_COLOR])

  /** Gemma says {"color": {"primary": "blue"}} and the reviewer types "navy" at "color". */
  const MASKED_TRIAL: Trial := Trial(Some(BLUE_GARMENT), None, map["color" := CustomPick], map["color" := "navy"])

  /** The masked trial can be emitted as a pair with two equal halves. */
  lemma MaskedPairExists()
    ensures exists gemma, claude, order ::
              RowFor(MASKED_TRIAL, Dpo, gemma, claude, order, BLUE_GARMENT, true,
                     Some(DpoRow(BLUE_GARMENT, BLUE_GARMENT)))
  {
    var gemma := map["color.primary" := BLUE_LEAF];
    ExampleFlattening(BLUE_GARMENT, BLUE_COLOR, BLUE_LEAF, gemma);
    var claude: Flat := map[];
    assert IsFlattening(EMPTY, claude);
    var chosen := Chosen(MASKED_TRIAL, gemma, claude);
    assert chosen == map["color.primary" := BLUE_LEAF, "color" := Text("navy")];
    assert Above("color", "color.primary");
    assert AtOrAbove("color", "color") && AtOrAbove("color", "color.primary");
    assert "color" in chosen && "color.primary" in gemma;
    assert Tied(gemma, chosen, "color");
    ChosenAreLeaves(MASKED_TRIAL, gemma, claude);
    var order := MaskingOrder(BLUE_GARMENT, gemma, chosen);
    var pair := DpoRow(BLUE_GARMENT, BLUE_GARMENT);
    assert RowFor(MASKED_TRIAL, Dpo, gemma, claude, order, BLUE_GARMENT, true, Some(pair));
  }

  lemma ExampleFlattening(d: Desc, sub: Desc, leaf: Json, flat: Flat)
    requires leaf == Text("blue") && sub == Object(map["primary" := leaf]) && d == Object(map["color" := sub])
    requires flat == map["color.primary" := leaf]
    ensures Faithful(d) && IsFlattening(d, flat)
  {
    var ks := ["color", "primary"];
    assert ks[1..] == ["primary"];
    assert LeafAt(d, ks) == Some(leaf);
    PathFromJoin("", ks);
    assert "color.primary" == "color" + "." + "primary";
    assert Join(ks) == "color.primary";
    assert EmitsAt("", d, "color.primary", leaf, ks);
    assert '.' !in "color" && '.' !in "primary";
    assert DotFreeKeys(sub) && Canonical(sub);
    forall q | LeafAt(d, q).Some?
      ensures PathFrom("", q) in flat.Keys
    {
      assert q[0] == "color" && |q| > 1;
      var rest := q[1..];
      assert LeafAt(sub, rest).Some?;
      assert rest[0] == "primary" && |rest| == 1;
      assert q == [q[0]] + rest;
      assert q == ks;
    }
  }
}
