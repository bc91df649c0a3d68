/**
 * JSON values as the describer pipeline sees them after normalisation: a description is an
 * object whose values are objects again or leaves (null, booleans, numbers, strings, arrays).
 * A node is addressed by the sequence of keys that leads to it.
 */
module Json {
  import opened Options

  datatype Json =
    | Null
    | Bool(b: bool)
    | Number(n: real)
    | Text(s: string)
    | Array(items: seq<Json>)
    | Object(fields: map<string, Json>)

  /** A description: a JSON object at the top. */
  type Desc = j: Json | j.Object? witness Object(map[])

  type Keys = seq<string>

  const EMPTY: Desc := Object(map[])

  /** Only objects are descended into; arrays and scalars are leaves. */
  predicate IsLeaf(j: Json) {
    !j.Object?
  }

  /** The node at `ks`, if there is one. */
  function Get(d: Desc, ks: Keys): Option<Json>
    requires ks != []
    decreases |ks|
  {
    if ks[0] !in d.fields then None
    else if |ks| == 1 then Some(d.fields[ks[0]])
    else if d.fields[ks[0]].Object? then Get(d.fields[ks[0]], ks[1..])
    else None
  }

  /** The leaf at `ks`, if the node there is a leaf. */
  function LeafAt(d: Desc, ks: Keys): Option<Json> {
    if ks == [] then None
    else
      match Get(d, ks)
      case Some(j) => if IsLeaf(j) then Some(j) else None
      case None => None
  }

  /** Writes `v` at `ks`, replacing any scalar that stands in the way by an object. */
  function Put(d: Desc, ks: Keys, v: Json): Desc
    requires ks != []
    decreases |ks|
  {
    if |ks| == 1 then Object(d.fields[ks[0] := v])
    else Object(d.fields[ks[0] := Put(Child(d, ks[0]), ks[1..], v)])
  }

  /** The object under `k`, or a fresh one. */
  function Child(d: Desc, k: string): Desc {
    if k in d.fields && d.fields[k].Object? then d.fields[k] else EMPTY
  }

  /** One path runs through the other. */
  predicate Comparable(p: Keys, q: Keys) {
    p <= q || q <= p
  }

  /** No sub-object, at any depth, is empty. */
  ghost predicate Canonical(j: Json)
    decreases j
  {
    j.Object? ==> forall k | k in j.fields :: j.fields[k] != EMPTY && Canonical(j.fields[k])
  }

  /** No key, at any depth, contains a dot. */
  ghost predicate DotFreeKeys(j: Json)
    decreases j
  {
    j.Object? ==> forall k | k in j.fields :: '.' !in k && DotFreeKeys(j.fields[k])
  }

  ghost predicate AllDotFree(ks: Keys) {
    forall i | 0 <= i < |ks| :: '.' !in ks[i]
  }

  // ---- What Put does to the leaves ----

  lemma {:induction false} GetPut(d: Desc, ks: Keys, v: Json, q: Keys)
    requires ks != [] && q != []
    ensures q == ks ==> Get(Put(d, ks, v), q) == Some(v)
    ensures q < ks ==> Get(Put(d, ks, v), q).Some? && Get(Put(d, ks, v), q).value.Object?
    ensures ks < q && IsLeaf(v) ==> Get(Put(d, ks, v), q) == None
    ensures !Comparable(ks, q) ==> Get(Put(d, ks, v), q) == Get(d, q)
    decreases |ks|
  {
    if |ks| > 1 && |q| > 1 && ks[0] == q[0] {
      assert ks == [ks[0]] + ks[1..] && q == [q[0]] + q[1..];
      GetPut(Child(d, ks[0]), ks[1..], v, q[1..]);
      if Child(d, ks[0]) == EMPTY {
        assert Get(EMPTY, q[1..]) == None;
      }
    } else if ks[0] == q[0] {
      assert |ks| == 1 ==> ks == [ks[0]];
      assert |q| == 1 ==> q == [q[0]];
      assert ks[..1] == q[..1];
      assert |ks| == 1 ==> ks <= q;
      assert |q| == 1 ==> q <= ks;
    } else {
      assert !(ks <= q) && !(q <= ks);
    }
  }

  /** Writing a leaf kills exactly the leaves on comparable paths. */
  lemma LeafAtPut(d: Desc, ks: Keys, v: Json, q: Keys)
    requires ks != [] && IsLeaf(v)
    ensures LeafAt(Put(d, ks, v), q) ==
            if q == ks then Some(v) else if Comparable(ks, q) then None else LeafAt(d, q)
  {
    if q != [] {
      GetPut(d, ks, v, q);
      assert Comparable(ks, q) && q != ks ==> q < ks || ks < q;
    }
  }

  lemma {:induction false} PutCanonical(d: Desc, ks: Keys, v: Json)
    requires ks != [] && IsLeaf(v) && Canonical(d)
    ensures Canonical(Put(d, ks, v)) && Put(d, ks, v) != EMPTY
    decreases |ks|
  {
    assert ks[0] in Put(d, ks, v).fields;
    if |ks| > 1 {
      PutCanonical(Child(d, ks[0]), ks[1..], v);
    }
  }

  lemma {:induction false} PutDotFree(d: Desc, ks: Keys, v: Json)
    requires ks != [] && IsLeaf(v) && DotFreeKeys(d) && AllDotFree(ks)
    ensures DotFreeKeys(Put(d, ks, v))
    decreases |ks|
  {
    if |ks| > 1 {
      assert AllDotFree(ks[1..]);
      PutDotFree(Child(d, ks[0]), ks[1..], v);
    }
  }

  // ---- A description without empty sub-objects is its leaves ----

  /** Every non-empty canonical object has a leaf somewhere below it. */
  lemma {:induction false} SomeLeaf(d: Desc) returns (ks: Keys)
    requires Canonical(d) && d != EMPTY
    ensures LeafAt(d, ks).Some?
    decreases d
  {
    var k :| k in d.fields;
    if d.fields[k].Object? {
      var rest := SomeLeaf(d.fields[k]);
      ks := [k] + rest;
      assert ks[1..] == rest;
    } else {
      ks := [k];
    }
  }

  /** Leaves below a child are leaves of the whole. */
  lemma LeafBelow(d: Desc, k: string, ks: Keys)
    requires ks != []
    ensures LeafAt(d, [k] + ks) ==
            if k in d.fields && d.fields[k].Object? then LeafAt(d.fields[k], ks) else None
  {
    assert ([k] + ks)[1..] == ks;
  }

  lemma {:induction false} SameLeavesSameKeys(a: Desc, b: Desc, k: string)
    requires Canonical(a)
    requires forall ks :: LeafAt(a, ks) == LeafAt(b, ks)
    requires k in a.fields
    ensures k in b.fields
    ensures a.fields[k].Object? ==> b.fields[k].Object?
  {
    if a.fields[k].Object? {
      var rest := SomeLeaf(a.fields[k]);
      LeafBelow(a, k, rest);
      LeafBelow(b, k, rest);
    } else {
      assert LeafAt(a, [k]) == Some(a.fields[k]);
    }
  }

  lemma {:induction false} SameLeavesEqual(a: Desc, b: Desc)
    requires Canonical(a) && Canonical(b)
    requires forall ks :: LeafAt(a, ks) == LeafAt(b, ks)
    ensures a == b
    decreases a
  {
    forall k
      ensures k in a.fields <==> k in b.fields
      ensures k in a.fields ==> a.fields[k] == b.fields[k]
    {
      if k in a.fields { SameLeavesSameKeys(a, b, k); }
      if k in b.fields { SameLeavesSameKeys(b, a, k); }
      if k in a.fields {
        if a.fields[k].Object? {
          forall ks
            ensures LeafAt(a.fields[k], ks) == LeafAt(b.fields[k], ks)
          {
            if ks != [] {
              LeafBelow(a, k, ks);
              LeafBelow(b, k, ks);
            }
          }
          SameLeavesEqual(a.fields[k], b.fields[k]);
        } else {
          assert LeafAt(a, [k]) == LeafAt(b, [k]);
        }
      }
    }
  }
}
