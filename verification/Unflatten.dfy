/**
 * Rebuilding a description from dotted paths. The program walks a cursor through nested Go
 * maps, creating the missing ones, and visits the paths in map order, i.e. in any order.
 * `Build` says what the tree is worth after a given order of visits; `Dict` is the linked
 * structure of maps that the cursor walks.
 */
module Unflatten {
  import opened Options
  import opened Json
  import opened Paths
  import opened Flatten

  // ---- Specification ----

  /** The tree after visiting the paths of `order` one by one. */
  function Build(order: seq<string>, flat: Flat): Desc
    requires forall p | p in order :: p in flat
  {
    if order == [] then EMPTY
    else
      var n := |order| - 1;
      Put(Build(order[..n], flat), Split(order[n]), flat[order[n]])
  }

  /** A range loop over the map visits each key exactly once. */
  ghost predicate IsOrder(order: seq<string>, paths: set<string>) {
    && (forall i, j | 0 <= i < j < |order| :: order[i] != order[j])
    && (forall p :: p in order <==> p in paths)
  }

  /** Visit `i` wrote path `q` and no later visit touched a comparable path. */
  ghost predicate LastWriter(order: seq<string>, i: int, q: Keys)
    requires 0 <= i < |order|
  {
    Split(order[i]) == q && forall j | i < j < |order| :: !Comparable(Split(order[j]), q)
  }

  /**
   * The exact outcome for every order, collisions included: a path keeps a leaf iff the visit
   * that wrote it is the last one among the visits to comparable paths. Depth plays no part.
   */
  lemma {:induction false} LeafAtBuild(order: seq<string>, flat: Flat, q: Keys)
    requires forall p | p in order :: p in flat
    requires AllLeaves(flat)
    ensures forall i | 0 <= i < |order| && LastWriter(order, i, q) ::
              LeafAt(Build(order, flat), q) == Some(flat[order[i]])
    ensures (forall i | 0 <= i < |order| :: !LastWriter(order, i, q)) ==>
              LeafAt(Build(order, flat), q) == None
    decreases |order|
  {
    if order != [] {
      var n := |order| - 1;
      var init := order[..n];
      assert order == init + [order[n]];
      LeafAtBuild(init, flat, q);
      LeafAtPut(Build(init, flat), Split(order[n]), flat[order[n]], q);
      if !Comparable(Split(order[n]), q) {
        forall i | 0 <= i < n
          ensures LastWriter(order, i, q) <==> LastWriter(init, i, q)
        {
        }
        assert !LastWriter(order, n, q);
      } else {
        assert forall i | 0 <= i < n :: !LastWriter(order, i, q);
        assert Split(order[n]) == q ==> LastWriter(order, n, q);
      }
    }
  }

  /** No visit creates an empty sub-object or a key with a dot. */
  lemma {:induction false} BuildShape(order: seq<string>, flat: Flat)
    requires forall p | p in order :: p in flat
    requires AllLeaves(flat)
    ensures Canonical(Build(order, flat)) && DotFreeKeys(Build(order, flat))
    decreases |order|
  {
    if order != [] {
      var n := |order| - 1;
      assert order == order[..n] + [order[n]];
      BuildShape(order[..n], flat);
      SplitDotFree(order[n]);
      PutCanonical(Build(order[..n], flat), Split(order[n]), flat[order[n]]);
      PutDotFree(Build(order[..n], flat), Split(order[n]), flat[order[n]]);
    }
  }

  // ---- The linked maps ----

  /** One map entry: a value stored as it came, or a nested map created by the walk. */
  datatype Cell = Value(v: Json) | Sub(d: Dict)

  class Dict {
    var entries: map<string, Cell>
    ghost var model: Desc       // what this map and everything below it denote
    ghost var parent: Dict?     // the one map that may refer to this one ...
    ghost var key: string       // ... and under which key
    ghost var depth: nat

    constructor (ghost parent: Dict?, ghost key: string, ghost depth: nat, fields: map<string, Json>)
      ensures entries == map k | k in fields :: Value(fields[k])
      ensures model == Object(fields) && this.parent == parent && this.key == key && this.depth == depth
    {
      entries := map k | k in fields :: Value(fields[k]);
      model := Object(fields);
      this.parent, this.key, this.depth := parent, key, depth;
    }
  }

  /**
   * Every map of the structure denotes its `model`, except that the map at the cursor is still
   * on its way to denoting `goal`, and the maps above it already count on that.
   */
  ghost predicate Linked(nodes: set<Dict>, cur: Dict?, goal: Desc)
    reads nodes
  {
    && (forall n | n in nodes :: n.model.fields.Keys == n.entries.Keys)
    && (forall n, k | n in nodes && k in n.entries :: LinkedCell(nodes, n, k, cur, goal))
  }

  ghost predicate LinkedCell(nodes: set<Dict>, n: Dict, k: string, cur: Dict?, goal: Desc)
    requires n in nodes && k in n.entries && k in n.model.fields
    reads nodes
  {
    match n.entries[k]
    case Value(w) => n.model.fields[k] == w
    case Sub(c) =>
      && c in nodes && c.parent == n && c.key == k && c.depth == n.depth + 1
      && n.model.fields[k] == if c == cur then goal else c.model
  }

  /** The structure at rest: every map denotes its model. */
  ghost predicate Tree(nodes: set<Dict>, root: Dict)
    reads nodes
  {
    root in nodes && root.parent == null && Linked(nodes, null, EMPTY)
  }

  /** What `n` will denote once the map at the cursor denotes `goal`. */
  ghost function Pending(n: Dict, cur: Dict?, goal: Desc): Desc
    reads n
  {
    if n == cur then goal else n.model
  }

  /** One step of the cursor into an existing map. */
  method Follow(root: Dict, cur: Dict, s: string, ghost goal: Desc, ghost next: Desc, ghost nodes: set<Dict>)
    returns (nxt: Dict)
    requires cur in nodes && root in nodes && root.parent == null && Linked(nodes, cur, goal)
    requires s in cur.entries && cur.entries[s].Sub?
    requires goal.fields == cur.model.fields[s := next]
    modifies cur`model
    ensures nxt in nodes && nxt.model == old(Child(cur.model, s)) && Linked(nodes, nxt, next)
    ensures Pending(root, nxt, next) == old(Pending(root, cur, goal))
  {
    nxt := cur.entries[s].d;
    assert LinkedCell(nodes, cur, s, cur, goal);
    cur.model := goal;
    forall n, k | n in nodes && k in n.entries
      ensures LinkedCell(nodes, n, k, nxt, next)
    {
      assert old(LinkedCell(nodes, n, k, cur, goal));
    }
  }

  /**
   * One step of the cursor where there is no map to follow: a fresh one, still unreferenced,
   * replaces what is there.
   */
  method Attach(root: Dict, cur: Dict, nxt: Dict, s: string, ghost goal: Desc, ghost next: Desc, ghost nodes: set<Dict>)
    requires {cur, nxt, root} <= nodes && root.parent == null && Linked(nodes, cur, goal)
    requires nxt.parent == cur && nxt.key == s && nxt.depth == cur.depth + 1
    requires s in cur.entries ==> cur.entries[s].Value?
    requires goal.fields == cur.model.fields[s := next]
    modifies cur`model, cur`entries
    ensures Linked(nodes, nxt, next)
    ensures Pending(root, nxt, next) == old(Pending(root, cur, goal))
  {
    cur.entries := cur.entries[s := Sub(nxt)];
    cur.model := goal;
    forall n, k | n in nodes && k in n.entries
      ensures LinkedCell(nodes, n, k, nxt, next)
    {
      if n != cur || k != s {
        assert old(LinkedCell(nodes, n, k, cur, goal));
      }
    }
  }

  /** The fresh map; an object that arrived as a value is a map too, so its fields are carried over. */
  method Allocate(cur: Dict, s: string, ghost goal: Desc, ghost nodes: set<Dict>) returns (nxt: Dict)
    requires cur in nodes && Linked(nodes, cur, goal)
    requires s in cur.entries ==> cur.entries[s].Value?
    ensures fresh(nxt) && Linked(nodes + {nxt}, cur, goal)
    ensures nxt.parent == cur && nxt.key == s && nxt.depth == cur.depth + 1
    ensures nxt.model == Child(cur.model, s)
  {
    assert s in cur.entries ==> LinkedCell(nodes, cur, s, cur, goal);
    var fields := if s in cur.entries && cur.entries[s].v.Object? then cur.entries[s].v.fields else map[];
    nxt := new Dict(cur, s, cur.depth + 1, fields);
    forall n, k | n in nodes && k in n.entries
      ensures LinkedCell(nodes + {nxt}, n, k, cur, goal)
    {
      assert LinkedCell(nodes, n, k, cur, goal);
    }
  }

  /** One step of the walk: `nxt, ok := cur[s].(map)`, and a fresh map when not ok. */
  method Step(root: Dict, cur: Dict, s: string, ghost goal: Desc, ghost next: Desc, ghost nodes: set<Dict>)
    returns (nxt: Dict, ghost grown: set<Dict>)
    requires cur in nodes && root in nodes && root.parent == null && Linked(nodes, cur, goal)
    requires goal.fields == cur.model.fields[s := next]
    modifies cur`model, cur`entries
    ensures nxt in grown && nodes <= grown && fresh(grown - nodes)
    ensures nxt.model == old(Child(cur.model, s)) && Linked(grown, nxt, next)
    ensures Pending(root, nxt, next) == old(Pending(root, cur, goal))
  {
    grown := nodes;
    if s in cur.entries && cur.entries[s].Sub? {
      nxt := Follow(root, cur, s, goal, next, nodes);
    } else {
      nxt := Allocate(cur, s, goal, nodes);
      grown := nodes + {nxt};
      Attach(root, cur, nxt, s, goal, next, grown);
    }
  }

  /** The write at the end of the walk. */
  method SetLast(root: Dict, cur: Dict, s: string, v: Json, ghost goal: Desc, ghost nodes: set<Dict>)
    requires cur in nodes && root in nodes && root.parent == null && Linked(nodes, cur, goal)
    requires goal.fields == cur.model.fields[s := v]
    modifies cur`model, cur`entries
    ensures Tree(nodes, root)
    ensures root.model == old(Pending(root, cur, goal))
  {
    cur.model := goal;
    cur.entries := cur.entries[s := Value(v)];
    forall n, k | n in nodes && k in n.entries
      ensures LinkedCell(nodes, n, k, null, EMPTY)
    {
      if n != cur || k != s {
        assert old(LinkedCell(nodes, n, k, cur, goal));
      }
    }
  }

  /** One path: walk the cursor down, creating maps where there are none, and set the last key. */
  method Insert(root: Dict, segs: Keys, v: Json, ghost nodes: set<Dict>) returns (ghost grown: set<Dict>)
    requires segs != [] && Tree(nodes, root)
    modifies nodes
    ensures nodes <= grown && fresh(grown - nodes)
    ensures Tree(grown, root)
    ensures root.model == Put(old(root.model), segs, v)
  {
    grown := nodes;
    var cur := root;
    var i := 0;
    ghost var goal := Put(root.model, segs, v);
    assert segs[0..] == segs;
    StartWalk(nodes, root, goal);
    while i < |segs| - 1
      invariant 0 <= i < |segs|
      invariant nodes <= grown && fresh(grown - nodes)
      invariant cur in grown && root in grown && root.parent == null
      invariant Linked(grown, cur, goal) && goal == Put(cur.model, segs[i..], v)
      invariant Pending(root, cur, goal) == Put(old(root.model), segs, v)
    {
      assert segs[i..][1..] == segs[i + 1..];
      ghost var next := Put(Child(cur.model, segs[i]), segs[i + 1..], v);
      cur, grown := Step(root, cur, segs[i], goal, next, grown);
      goal := next;
      i := i + 1;
    }
    assert segs[i..] == [segs[i]];
    SetLast(root, cur, segs[i], v, goal, grown);
  }

  /** Nothing refers to the root, so the structure at rest is ready for a walk from it. */
  lemma StartWalk(nodes: set<Dict>, root: Dict, goal: Desc)
    requires Tree(nodes, root)
    ensures Linked(nodes, root, goal)
  {
    forall n, k | n in nodes && k in n.entries
      ensures LinkedCell(nodes, n, k, root, goal)
    {
      assert LinkedCell(nodes, n, k, null, EMPTY);
    }
  }

  /** unflattenDesc: the paths are visited in some order, and the tree is what `Build` says. */
  method UnflattenDesc(flat: Flat) returns (root: Dict, ghost nodes: set<Dict>, ghost order: seq<string>)
    ensures fresh(nodes) && Tree(nodes, root)
    ensures IsOrder(order, flat.Keys)
    ensures root.model == Build(order, flat)
  {
    root := new Dict(null, "", 0, map[]);
    nodes := {root};
    order := [];
    var remaining := flat.Keys;
    while remaining != {}
      invariant fresh(nodes) && Tree(nodes, root)
      invariant remaining <= flat.Keys && IsOrder(order, flat.Keys - remaining)
      invariant root.model == Build(order, flat)
      decreases remaining
    {
      var path :| path in remaining;
      nodes := Insert(root, Split(path), flat[path], nodes);
      assert (order + [path])[..|order|] == order;
      order := order + [path];
      remaining := remaining - {path};
    }
  }
}
