/**
 * Dotted paths. `Split` is the program's strings.Split(path, "."); `Join` is its inverse on
 * dot-free keys; `PathFrom` is how the flattener builds a path while it descends.
 */
module Paths {
  import opened Json

  function Split(path: string): (ks: Keys)
    ensures ks != []
  {
    var i := FirstDot(path);
    if i == |path| then [path] else [path[..i]] + Split(path[i + 1..])
  }

  /** The position of the first dot, or the length when there is none. */
  function FirstDot(path: string): (i: nat)
    ensures i <= |path| && '.' !in path[..i]
    ensures i < |path| ==> path[i] == '.'
  {
    if path == [] || path[0] == '.' then 0
    else
      var i := FirstDot(path[1..]);
      assert path[..i + 1] == [path[0]] + path[1..][..i];
      i + 1
  }

  function Join(ks: Keys): string
    requires ks != []
  {
    if |ks| == 1 then ks[0] else ks[0] + "." + Join(ks[1..])
  }

  /** The flattener's step: an empty prefix contributes no dot. */
  function Extend(prefix: string, k: string): string {
    if prefix != "" then prefix + "." + k else k
  }

  function PathFrom(prefix: string, ks: Keys): string
    decreases |ks|
  {
    if ks == [] then prefix else PathFrom(Extend(prefix, ks[0]), ks[1..])
  }

  // ---- Split and Join are inverse ----

  lemma FirstDotUnique(k: string, rest: string)
    requires '.' !in k
    ensures FirstDot(k + "." + rest) == |k|
    ensures FirstDot(k) == |k|
  {
    var s := k + "." + rest;
    assert s[|k|] == '.';
    assert forall j | 0 <= j < |k| :: s[j] == k[j] && k[j] in k;
    assert forall j | 0 <= j < FirstDot(s) :: s[j] in s[..FirstDot(s)];
  }

  lemma {:induction false} SplitDotFree(path: string)
    ensures AllDotFree(Split(path))
    decreases |path|
  {
    var i := FirstDot(path);
    if i < |path| {
      SplitDotFree(path[i + 1..]);
    } else {
      assert path[..i] == path;
    }
  }

  lemma JoinCons(k: string, ks: Keys)
    requires ks != []
    ensures Join([k] + ks) == k + "." + Join(ks)
  {
    assert ([k] + ks)[1..] == ks;
  }

  lemma CutAt(path: string, i: nat)
    requires i < |path| && path[i] == '.'
    ensures path == path[..i] + "." + path[i + 1..]
  {
  }

  lemma {:induction false} JoinSplit(path: string)
    ensures Join(Split(path)) == path
    decreases |path|
  {
    var i := FirstDot(path);
    if i < |path| {
      var rest := path[i + 1..];
      JoinSplit(rest);
      JoinCons(path[..i], Split(rest));
      CutAt(path, i);
    }
  }

  lemma {:induction false} SplitJoin(ks: Keys)
    requires ks != [] && AllDotFree(ks)
    ensures Split(Join(ks)) == ks
    decreases |ks|
  {
    assert '.' !in ks[0];
    if |ks| == 1 {
      FirstDotUnique(ks[0], "");
    } else {
      SplitJoin(ks[1..]);
      var s := ks[0] + "." + Join(ks[1..]);
      FirstDotUnique(ks[0], Join(ks[1..]));
      assert s[..|ks[0]|] == ks[0];
      assert s[|ks[0]| + 1..] == Join(ks[1..]);
    }
  }

  lemma SplitInjective(p: string, q: string)
    requires Split(p) == Split(q)
    ensures p == q
  {
    JoinSplit(p);
    JoinSplit(q);
  }

  lemma {:induction false} JoinConcat(a: Keys, b: Keys)
    requires a != [] && b != []
    ensures Join(a + b) == Join(a) + "." + Join(b)
    decreases |a|
  {
    if |a| > 1 {
      JoinConcat(a[1..], b);
      assert (a + b)[1..] == a[1..] + b;
      assert (a + b)[0] == a[0];
      calc {
        Join(a + b);
        a[0] + "." + Join(a[1..] + b);
        a[0] + "." + (Join(a[1..]) + "." + Join(b));
        (a[0] + "." + Join(a[1..])) + "." + Join(b);
      }
    } else {
      assert (a + b)[1..] == b;
    }
  }

  // ---- The prefix relation, on keys and on strings ----

  /** `p` is a proper ancestor of `q`, as a caller holding the strings sees it. */
  predicate Above(p: string, q: string) {
    p + "." <= q
  }

  /** No path of the set is an ancestor of another. */
  ghost predicate PrefixFree(paths: set<string>) {
    forall p, q | p in paths && q in paths :: !Above(p, q)
  }

  /** No path starts with a dot, i.e. none descends through an empty first key. */
  ghost predicate NoLeadingDot(paths: set<string>) {
    forall p | p in paths :: !("." <= p)
  }

  lemma PrefixIsAbove(p: string, q: string)
    requires Split(p) < Split(q)
    ensures Above(p, q)
  {
    var a, rest := Split(p), Split(q)[|Split(p)|..];
    assert Split(q) == a + rest;
    JoinSplit(p);
    JoinSplit(q);
    JoinConcat(a, rest);
    PrefixOfSum(p, Join(rest), q);
  }

  lemma PrefixOfSum(p: string, rest: string, q: string)
    requires q == p + "." + rest
    ensures p + "." <= q && q[|p| + 1..] == rest
  {
  }

  /** Splitting at a dot splits both sides. */
  lemma SplitSum(p: string, rest: string)
    ensures Split(p + "." + rest) == Split(p) + Split(rest)
  {
    JoinSplit(p);
    JoinSplit(rest);
    SplitDotFree(p);
    SplitDotFree(rest);
    JoinConcat(Split(p), Split(rest));
    assert AllDotFree(Split(p) + Split(rest));
    SplitJoin(Split(p) + Split(rest));
  }

  lemma AboveIsPrefix(p: string, q: string)
    ensures Above(p, q) <==> Split(p) < Split(q)
  {
    if Split(p) < Split(q) { PrefixIsAbove(p, q); }
    if Above(p, q) {
      var rest := q[|p| + 1..];
      assert q == p + "." + rest;
      SplitSum(p, rest);
    }
  }

  lemma ComparableIsAbove(p: string, q: string)
    ensures Comparable(Split(p), Split(q)) <==> p == q || Above(p, q) || Above(q, p)
  {
    AboveIsPrefix(p, q);
    AboveIsPrefix(q, p);
    if Split(p) == Split(q) { SplitInjective(p, q); }
  }

  // ---- The flattener's paths ----

  lemma {:induction false} PathFromJoin(prefix: string, ks: Keys)
    requires ks != []
    ensures prefix != "" ==> PathFrom(prefix, ks) == prefix + "." + Join(ks)
    ensures prefix == "" && ks[0] != "" ==> PathFrom(prefix, ks) == Join(ks)
    ensures |ks| == 1 ==> PathFrom(prefix, ks) == Extend(prefix, ks[0])
    decreases |ks|
  {
    if |ks| > 1 {
      PathFromJoin(Extend(prefix, ks[0]), ks[1..]);
      if prefix != "" {
        calc {
          PathFrom(prefix, ks);
          Extend(prefix, ks[0]) + "." + Join(ks[1..]);
          (prefix + "." + ks[0]) + "." + Join(ks[1..]);
          prefix + "." + (ks[0] + "." + Join(ks[1..]));
        }
      }
    }
  }

  /** With dot-free keys a flattened path never starts with a dot: leading empty keys vanish. */
  lemma {:induction false} FlatPathNoLeadingDot(ks: Keys)
    requires ks != [] && AllDotFree(ks)
    ensures !("." <= PathFrom("", ks))
    decreases |ks|
  {
    if ks[0] != "" {
      PathFromJoin("", ks);
      var p := Join(ks);
      assert p[0] == ks[0][0];
      assert ks[0][0] in ks[0];
    } else if |ks| > 1 {
      assert AllDotFree(ks[1..]);
      FlatPathNoLeadingDot(ks[1..]);
    }
  }

  lemma LeadingDotJoin(ks: Keys)
    requires |ks| > 1 && ks[0] == ""
    ensures "." <= Join(ks)
  {
  }

  /** Without an empty first key above something, the flattener's path is the join. */
  lemma PathIsJoin(ks: Keys)
    requires ks != [] && !("." <= Join(ks))
    ensures PathFrom("", ks) == Join(ks)
  {
    PathFromJoin("", ks);
    if |ks| > 1 && ks[0] == "" { LeadingDotJoin(ks); }
  }
}
