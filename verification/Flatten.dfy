/**
 * Flattening a description to dotted paths. The program recurses through nested maps with a
 * closure that fills one captured map; Go visits the keys of a map in no particular order, so
 * the loop below picks any remaining key.
 */
module Flatten {
  import opened Options
  import opened Json
  import opened Paths

  type Flat = map<string, Json>

  /** Descending from `prefix` through `d` writes leaf `v` at path `p`. */
  ghost predicate Emits(prefix: string, d: Desc, p: string, v: Json) {
    exists ks :: EmitsAt(prefix, d, p, v, ks)
  }

  ghost predicate EmitsAt(prefix: string, d: Desc, p: string, v: Json, ks: Keys) {
    LeafAt(d, ks) == Some(v) && PathFrom(prefix, ks) == p
  }

  /** Every leaf of `d` has its path among `paths`. */
  ghost predicate Covers(prefix: string, d: Desc, paths: set<string>) {
    forall ks | LeafAt(d, ks).Some? :: PathFrom(prefix, ks) in paths
  }

  /**
   * `out` is a possible outcome of flattening `d`. When two leaves share a path (keys with
   * dots, empty keys) the visiting order decides which one is kept; otherwise there is only
   * one outcome.
   */
  ghost predicate IsFlattening(d: Desc, out: Flat) {
    && (forall p | p in out :: Emits("", d, p, out[p]))
    && Covers("", d, out.Keys)
  }

  class Flattener {
    var out: Flat

    constructor ()
      ensures out == map[]
    {
      out := map[];
    }

    method Rec(prefix: string, d: Desc)
      modifies this
      ensures old(out).Keys <= out.Keys
      ensures Covers(prefix, d, out.Keys)
      ensures forall p | p in out ::
                Emits(prefix, d, p, out[p]) || (p in old(out) && out[p] == old(out)[p])
      decreases d
    {
      var remaining := d.fields.Keys;
      while remaining != {}
        invariant remaining <= d.fields.Keys
        invariant old(out).Keys <= out.Keys
        invariant forall ks | LeafAt(d, ks).Some? && ks[0] !in remaining ::
                    PathFrom(prefix, ks) in out
        invariant forall p | p in out ::
                    Emits(prefix, d, p, out[p]) || (p in old(out) && out[p] == old(out)[p])
        decreases remaining
      {
        var k :| k in remaining;
        var p := Extend(prefix, k);
        var v := d.fields[k];
        ghost var before := out;
        if v.Object? {
          Rec(p, v);
          EmitsThroughChild(prefix, d, k, out, before);
        } else {
          out := out[p := v];
          assert LeafAt(d, [k]) == Some(v);
          assert EmitsAt(prefix, d, p, v, [k]);
          forall ks | LeafAt(d, ks).Some? && ks[0] == k
            ensures PathFrom(prefix, ks) in out
          {
            assert ks == [k];
          }
        }
        remaining := remaining - {k};
      }
    }
  }

  /** What the child's descent wrote is what the parent's descent writes below that key. */
  lemma EmitsThroughChild(prefix: string, d: Desc, k: string, out: Flat, before: Flat)
    requires k in d.fields && d.fields[k].Object?
    requires Covers(Extend(prefix, k), d.fields[k], out.Keys)
    requires forall p | p in out ::
               Emits(Extend(prefix, k), d.fields[k], p, out[p]) || (p in before && out[p] == before[p])
    ensures forall ks | LeafAt(d, ks).Some? && ks[0] == k :: PathFrom(prefix, ks) in out
    ensures forall p | p in out ::
              Emits(prefix, d, p, out[p]) || (p in before && out[p] == before[p])
  {
    var sub: Desc := d.fields[k];
    var q := Extend(prefix, k);
    forall ks | LeafAt(d, ks).Some? && ks[0] == k
      ensures PathFrom(prefix, ks) in out
    {
      assert |ks| > 1;
      assert LeafAt(sub, ks[1..]).Some?;
      assert PathFrom(q, ks[1..]) in out.Keys;
    }
    forall p | p in out && Emits(q, sub, p, out[p])
      ensures Emits(prefix, d, p, out[p])
    {
      var rest :| EmitsAt(q, sub, p, out[p], rest);
      LeafBelow(d, k, rest);
      assert ([k] + rest)[1..] == rest;
      assert EmitsAt(prefix, d, p, out[p], [k] + rest);
    }
  }

  /** flattenDesc: whatever the visiting order, the outcome is a flattening of `d`. */
  method FlattenDesc(d: Desc) returns (out: Flat)
    ensures IsFlattening(d, out)
  {
    var f := new Flattener();
    f.Rec("", d);
    out := f.out;
  }

  lemma FlatValuesAreLeaves(d: Desc, out: Flat)
    requires IsFlattening(d, out)
    ensures AllLeaves(out)
  {
    forall p | p in out
      ensures IsLeaf(out[p])
    {
      var ks :| EmitsAt("", d, p, out[p], ks);
    }
  }

  ghost predicate AllLeaves(flat: Flat) {
    forall p | p in flat :: IsLeaf(flat[p])
  }
}
