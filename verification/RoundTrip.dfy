/**
 * Flattening and rebuilding undo one another, for every order in which Go may visit the maps:
 * exactly which descriptions and which sets of leaves survive.
 */
module RoundTrip {
  import opened Options
  import opened Json
  import opened Paths
  import opened Flatten
  import opened Unflatten

  /**
   * The descriptions that survive: no empty sub-object (flattening drops it), no dot in a key
   * (rebuilding splits it) and no object under an empty key at the top (its prefix vanishes).
   */
  ghost predicate Faithful(d: Desc) {
    && Canonical(d)
    && DotFreeKeys(d)
    && ("" in d.fields ==> IsLeaf(d.fields[""]))
  }

  /** No two leaves are written to one path, so that the visiting order does not matter. */
  ghost predicate Unambiguous(d: Desc) {
    forall p, q | LeafAt(d, p).Some? && LeafAt(d, q).Some? && PathFrom("", p) == PathFrom("", q) ::
      LeafAt(d, p) == LeafAt(d, q)
  }

  lemma FlatteningUnique(d: Desc, a: Flat, b: Flat)
    requires Unambiguous(d) && IsFlattening(d, a) && IsFlattening(d, b)
    ensures a == b
  {
    forall p
      ensures p in a <==> p in b
      ensures p in a ==> a[p] == b[p]
    {
      if p in a { var ks :| EmitsAt("", d, p, a[p], ks); assert p in b.Keys; }
      if p in b { var ks :| EmitsAt("", d, p, b[p], ks); assert p in a.Keys; }
      if p in a {
        var i :| EmitsAt("", d, p, a[p], i);
        var j :| EmitsAt("", d, p, b[p], j);
      }
    }
  }

  // ---- The leaves of a faithful description ----

  lemma {:induction false} LeafPathDotFree(d: Desc, ks: Keys)
    requires DotFreeKeys(d) && LeafAt(d, ks).Some?
    ensures AllDotFree(ks)
    decreases |ks|
  {
    if |ks| > 1 {
      LeafPathDotFree(d.fields[ks[0]], ks[1..]);
      assert ks == [ks[0]] + ks[1..];
    }
  }

  /** A leaf and another leaf are never on comparable paths. */
  lemma LeavesIncomparable(d: Desc, p: Keys, q: Keys)
    requires LeafAt(d, p).Some? && LeafAt(d, q).Some? && p <= q
    ensures p == q
    decreases |p|
  {
    if |p| > 1 {
      LeavesIncomparable(d.fields[p[0]], p[1..], q[1..]);
      assert p == [p[0]] + p[1..] && q == [q[0]] + q[1..];
    }
  }

  lemma FaithfulLeafPath(d: Desc, ks: Keys)
    requires Faithful(d) && LeafAt(d, ks).Some?
    ensures PathFrom("", ks) == Join(ks) && Split(Join(ks)) == ks
  {
    LeafPathDotFree(d, ks);
    SplitJoin(ks);
    PathFromJoin("", ks);
  }

  lemma FaithfulIsUnambiguous(d: Desc)
    requires Faithful(d)
    ensures Unambiguous(d)
  {
    forall p, q | LeafAt(d, p).Some? && LeafAt(d, q).Some? && PathFrom("", p) == PathFrom("", q)
      ensures LeafAt(d, p) == LeafAt(d, q)
    {
      FaithfulLeafPath(d, p);
      FaithfulLeafPath(d, q);
    }
  }

  /** Flattening a faithful description lists exactly its leaves, on a prefix-free set of paths. */
  lemma FaithfulFlat(d: Desc, flat: Flat)
    requires Faithful(d) && IsFlattening(d, flat)
    ensures forall p | p in flat :: LeafAt(d, Split(p)) == Some(flat[p])
    ensures forall ks | LeafAt(d, ks).Some? :: Join(ks) in flat && Split(Join(ks)) == ks
    ensures PrefixFree(flat.Keys) && NoLeadingDot(flat.Keys)
  {
    forall p | p in flat
      ensures LeafAt(d, Split(p)) == Some(flat[p]) && !("." <= p)
    {
      var ks :| EmitsAt("", d, p, flat[p], ks);
      FaithfulLeafPath(d, ks);
      LeafPathDotFree(d, ks);
      FlatPathNoLeadingDot(ks);
    }
    forall ks | LeafAt(d, ks).Some?
      ensures Join(ks) in flat && Split(Join(ks)) == ks
    {
      FaithfulLeafPath(d, ks);
      assert PathFrom("", ks) in flat.Keys;
    }
    forall p, q | p in flat && q in flat
      ensures !Above(p, q)
    {
      AboveIsPrefix(p, q);
      if Split(p) < Split(q) { LeavesIncomparable(d, Split(p), Split(q)); }
    }
  }

  // ---- The leaves of a rebuilt description ----

  /** Without comparable paths every visit is a last writer, whatever the order. */
  lemma BuildLeaves(order: seq<string>, flat: Flat)
    requires IsOrder(order, flat.Keys) && AllLeaves(flat) && PrefixFree(flat.Keys)
    ensures forall p | p in flat :: LeafAt(Build(order, flat), Split(p)) == Some(flat[p])
  {
    forall p | p in flat
      ensures LeafAt(Build(order, flat), Split(p)) == Some(flat[p])
    {
      assert p in order;
      var i :| 0 <= i < |order| && order[i] == p;
      forall j | i < j < |order|
        ensures !Comparable(Split(order[j]), Split(p))
      {
        ComparableIsAbove(order[j], p);
      }
      assert LastWriter(order, i, Split(p));
      LeafAtBuild(order, flat, Split(p));
    }
  }

  /** Every leaf of the rebuilt tree was written by one of the paths. */
  lemma LeafHasWriter(order: seq<string>, flat: Flat, q: Keys) returns (i: nat)
    requires IsOrder(order, flat.Keys) && AllLeaves(flat)
    requires LeafAt(Build(order, flat), q).Some?
    ensures i < |order| && LastWriter(order, i, q) && LeafAt(Build(order, flat), q) == Some(flat[order[i]])
    ensures order[i] in flat
  {
    LeafAtBuild(order, flat, q);
    i :| 0 <= i < |order| && LastWriter(order, i, q);
    assert order[i] in order;
  }

  // ---- The two round trips ----

  /** unflatten after flatten is the identity on exactly the faithful descriptions. */
  lemma {:induction false} TreeRoundTrip(d: Desc, flat: Flat, order: seq<string>)
    requires IsFlattening(d, flat) && IsOrder(order, flat.Keys)
    ensures Build(order, flat) == d <==> Faithful(d)
  {
    FlatValuesAreLeaves(d, flat);
    var b := Build(order, flat);
    BuildShape(order, flat);
    if Faithful(d) {
      FaithfulFlat(d, flat);
      BuildLeaves(order, flat);
      forall q
        ensures LeafAt(b, q) == LeafAt(d, q)
      {
        if LeafAt(b, q).Some? {
          var i := LeafHasWriter(order, flat, q);
        }
      }
      SameLeavesEqual(b, d);
    }
    if b == d && "" in d.fields && d.fields[""].Object? {
      // A leaf below the empty top key would have to come from a path that starts with a dot.
      var rest := SomeLeaf(d.fields[""]);
      var ks := [""] + rest;
      LeafBelow(d, "", rest);
      var i := LeafHasWriter(order, flat, ks);
      JoinSplit(order[i]);
      LeadingDotJoin(ks);
      var from :| EmitsAt("", d, order[i], flat[order[i]], from);
      LeafPathDotFree(d, from);
      FlatPathNoLeadingDot(from);
      assert false;
    }
  }

  lemma FlatSurvives(flat: Flat, order: seq<string>, again: Flat)
    requires AllLeaves(flat) && IsOrder(order, flat.Keys)
    requires IsFlattening(Build(order, flat), again)
    requires PrefixFree(flat.Keys) && NoLeadingDot(flat.Keys)
    ensures again == flat
  {
    forall p | p in again
      ensures p in flat && again[p] == flat[p]
    {
      var i := WriterOfPath(flat, order, again, p);
    }
    forall p | p in flat
      ensures p in again
    {
      BuildLeaves(order, flat);
      PathIsListed(Build(order, flat), again, p);
    }
  }

  lemma PathIsListed(d: Desc, again: Flat, p: string)
    requires IsFlattening(d, again) && LeafAt(d, Split(p)).Some? && !("." <= p)
    ensures p in again
  {
    JoinSplit(p);
    PathIsJoin(Split(p));
    assert PathFrom("", Split(p)) in again.Keys;
  }

  lemma SurvivorsArePrefixFree(flat: Flat, order: seq<string>)
    requires AllLeaves(flat) && IsOrder(order, flat.Keys)
    requires IsFlattening(Build(order, flat), flat)
    ensures PrefixFree(flat.Keys) && NoLeadingDot(flat.Keys)
  {
    var b := Build(order, flat);
    BuildShape(order, flat);
    forall p | p in flat
      ensures !("." <= p)
    {
      var ks :| EmitsAt("", b, p, flat[p], ks);
      LeafPathDotFree(b, ks);
      FlatPathNoLeadingDot(ks);
    }
    forall p, q | p in flat && q in flat
      ensures !Above(p, q)
    {
      var i := WriterOfPath(flat, order, flat, p);
      var j := WriterOfPath(flat, order, flat, q);
      AboveIsPrefix(p, q);
      if Above(p, q) { LeavesIncomparable(b, Split(p), Split(q)); }
    }
  }

  /**
   * flatten after unflatten is the identity on exactly the sets of leaves whose paths are
   * prefix-free and do not start with a dot.
   */
  lemma FlatRoundTrip(flat: Flat, order: seq<string>, again: Flat)
    requires AllLeaves(flat) && IsOrder(order, flat.Keys)
    requires IsFlattening(Build(order, flat), again)
    ensures again == flat <==> PrefixFree(flat.Keys) && NoLeadingDot(flat.Keys)
  {
    if again == flat { SurvivorsArePrefixFree(flat, order); }
    if PrefixFree(flat.Keys) && NoLeadingDot(flat.Keys) { FlatSurvives(flat, order, again); }
  }

  /** A path of the second flattening was, dots aside, one of the paths the tree was built from. */
  lemma WriterOfPath(flat: Flat, order: seq<string>, again: Flat, p: string) returns (i: nat)
    requires AllLeaves(flat) && IsOrder(order, flat.Keys) && NoLeadingDot(flat.Keys)
    requires IsFlattening(Build(order, flat), again) && p in again
    ensures i < |order| && order[i] == p && p in flat && again[p] == flat[p]
    ensures LeafAt(Build(order, flat), Split(p)) == Some(again[p])
  {
    var ks :| EmitsAt("", Build(order, flat), p, again[p], ks);
    i := LeafHasWriter(order, flat, ks);
    JoinSplit(order[i]);
    PathIsJoin(ks);
  }

  // ---- When the visiting order matters ----

  /** There is an order of the paths with the given one last. */
  lemma {:induction false} OrderEndingWith(paths: set<string>, last: string) returns (order: seq<string>)
    requires last in paths
    ensures IsOrder(order, paths) && order != [] && order[|order| - 1] == last
    decreases paths
  {
    var rest := paths - {last};
    if rest == {} {
      order := [last];
    } else {
      var other :| other in rest;
      var init := OrderEndingWith(rest, other);
      order := init + [last];
    }
  }

  lemma LastVisitStays(order: seq<string>, flat: Flat)
    requires IsOrder(order, flat.Keys) && AllLeaves(flat) && order != []
    ensures LeafAt(Build(order, flat), Split(order[|order| - 1])).Some?
  {
    var n := |order| - 1;
    assert order[n] in order;
    assert LastWriter(order, n, Split(order[n]));
    LeafAtBuild(order, flat, Split(order[n]));
  }

  /** The rebuilt tree is the same for every visiting order exactly when the paths are prefix-free. */
  lemma OrderIndependent(flat: Flat)
    requires AllLeaves(flat)
    ensures (forall a, b | IsOrder(a, flat.Keys) && IsOrder(b, flat.Keys) :: Build(a, flat) == Build(b, flat))
            <==> PrefixFree(flat.Keys)
  {
    if PrefixFree(flat.Keys) {
      forall a, b | IsOrder(a, flat.Keys) && IsOrder(b, flat.Keys)
        ensures Build(a, flat) == Build(b, flat)
      {
        SameForTwoOrders(flat, a, b);
      }
    } else {
      var p, q :| p in flat && q in flat && Above(p, q);
      var a := OrderEndingWith(flat.Keys, p);
      var b := OrderEndingWith(flat.Keys, q);
      LastVisitStays(a, flat);
      LastVisitStays(b, flat);
      AboveIsPrefix(p, q);
      if Build(a, flat) == Build(b, flat) {
        LeavesIncomparable(Build(a, flat), Split(p), Split(q));
      }
    }
  }

  lemma SameForTwoOrders(flat: Flat, a: seq<string>, b: seq<string>)
    requires AllLeaves(flat) && PrefixFree(flat.Keys)
    requires IsOrder(a, flat.Keys) && IsOrder(b, flat.Keys)
    ensures Build(a, flat) == Build(b, flat)
  {
    BuildShape(a, flat);
    BuildShape(b, flat);
    BuildLeaves(a, flat);
    BuildLeaves(b, flat);
    forall q
      ensures LeafAt(Build(a, flat), q) == LeafAt(Build(b, flat), q)
    {
      if LeafAt(Build(a, flat), q).Some? { var i := LeafHasWriter(a, flat, q); }
      if LeafAt(Build(b, flat), q).Some? { var i := LeafHasWriter(b, flat, q); }
    }
    SameLeavesEqual(Build(a, flat), Build(b, flat));
  }
}
