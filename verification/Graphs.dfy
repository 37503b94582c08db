/** Finite directed graphs given by successor lists, and what the depth-first walks of the
    data mapper need from them: reachability, acyclicity, and a measure that shrinks along
    every edge of an acyclic graph. */
module Graphs {

  type Graph<K(==)> = map<K, seq<K>>

  function Successors<K(==)>(g: Graph<K>, k: K): seq<K> {
    if k in g then g[k] else []
  }

  ghost predicate IsWalk<K>(g: Graph<K>, p: seq<K>) {
    |p| > 0 && forall i :: 0 <= i < |p| - 1 ==> p[i + 1] in Successors(g, p[i])
  }

  ghost predicate WalkFromTo<K>(g: Graph<K>, p: seq<K>, a: K, b: K) {
    IsWalk(g, p) && p[0] == a && p[|p| - 1] == b
  }

  ghost predicate Reaches<K(!new)>(g: Graph<K>, a: K, b: K) {
    exists p :: WalkFromTo(g, p, a, b)
  }

  /** No walk of one or more edges comes back to where it started. */
  ghost predicate Acyclic<K(!new)>(g: Graph<K>) {
    forall p :: IsWalk(g, p) && |p| > 1 ==> p[0] != p[|p| - 1]
  }

  ghost function Nodes<K>(g: Graph<K>): set<K> {
    g.Keys + set k, n | k in g && n in g[k] :: n
  }

  /** The nodes a walk from a can visit: the measure of every recursive walk in this project. */
  ghost function ReachSet<K(!new)>(g: Graph<K>, a: K): set<K> {
    set n | n in Nodes(g) && Reaches(g, a, n)
  }

  lemma ReachesSelf<K(!new)>(g: Graph<K>, a: K)
    ensures Reaches(g, a, a)
  {
    assert WalkFromTo(g, [a], a, a);
  }

  lemma ReachesTransitive<K(!new)>(g: Graph<K>, a: K, b: K, c: K)
    requires Reaches(g, a, b) && Reaches(g, b, c)
    ensures Reaches(g, a, c)
  {
    var p :| WalkFromTo(g, p, a, b);
    var q :| WalkFromTo(g, q, b, c);
    var r := p + q[1..];
    forall i | 0 <= i < |r| - 1 ensures r[i + 1] in Successors(g, r[i]) {
      if i < |p| - 1 {
      } else {
        assert r[i] == q[i - |p| + 1] && r[i + 1] == q[i - |p| + 2];
      }
    }
    assert WalkFromTo(g, r, a, c);
  }

  lemma ReachesStep<K(!new)>(g: Graph<K>, a: K, n: K)
    requires n in Successors(g, a)
    ensures Reaches(g, a, n)
  {
    assert WalkFromTo(g, [a, n], a, n);
  }

  /** A node reaches another exactly when it is that node or one of its successors reaches it. */
  lemma ReachesUnfold<K(!new)>(g: Graph<K>, a: K, b: K)
    ensures Reaches(g, a, b) <==> a == b || exists n :: n in Successors(g, a) && Reaches(g, n, b)
  {
    if Reaches(g, a, b) && a != b {
      var p :| WalkFromTo(g, p, a, b);
      assert WalkFromTo(g, p[1..], p[1], b);
    }
    if a == b {
      ReachesSelf(g, a);
    }
    if n :| n in Successors(g, a) && Reaches(g, n, b) {
      ReachesStep(g, a, n);
      ReachesTransitive(g, a, n, b);
    }
  }

  lemma CycleRefutes<K(!new)>(g: Graph<K>, a: K, n: K)
    requires n in Successors(g, a) && Reaches(g, n, a)
    ensures !Acyclic(g)
  {
    var p :| WalkFromTo(g, p, n, a);
    var c := [a] + p;
    forall i | 0 <= i < |c| - 1 ensures c[i + 1] in Successors(g, c[i]) {
      if i > 0 { assert c[i] == p[i - 1] && c[i + 1] == p[i]; }
    }
    assert IsWalk(g, c) && c[0] == c[|c| - 1];
  }

  /** Every edge of an acyclic graph leads to a strictly smaller reach set. */
  lemma ReachSetShrinks<K(!new)>(g: Graph<K>, a: K)
    requires Acyclic(g)
    ensures forall n :: n in Successors(g, a) ==> ReachSet(g, n) < ReachSet(g, a)
  {
    forall n | n in Successors(g, a) ensures ReachSet(g, n) < ReachSet(g, a) {
      ReachesStep(g, a, n);
      forall x | x in ReachSet(g, n) ensures x in ReachSet(g, a) {
        ReachesTransitive(g, a, n, x);
      }
      ReachesSelf(g, a);
      if Reaches(g, n, a) {
        CycleRefutes(g, a, n);
      }
      assert a in ReachSet(g, a) && a !in ReachSet(g, n);
    }
  }

  /** A rank that drops along every edge rules out cycles; nodes that are nobody's successor need
      no rank. */
  lemma RankedIsAcyclic<K(!new)>(g: Graph<K>, rank: K -> int, isTop: K -> bool)
    requires forall a, n :: n in Successors(g, a) ==> !isTop(n) && (isTop(a) || rank(n) < rank(a))
    ensures Acyclic(g)
  {
    forall p | IsWalk(g, p) && |p| > 1 ensures p[0] != p[|p| - 1] {
      RankDrops(g, rank, isTop, p);
    }
  }

  lemma {:induction false} RankDrops<K(!new)>(g: Graph<K>, rank: K -> int, isTop: K -> bool, p: seq<K>)
    requires forall a, n :: n in Successors(g, a) ==> !isTop(n) && (isTop(a) || rank(n) < rank(a))
    requires IsWalk(g, p) && |p| > 1
    ensures !isTop(p[|p| - 1]) && (isTop(p[0]) || rank(p[|p| - 1]) < rank(p[0]))
  {
    assert p[1] in Successors(g, p[0]);
    if |p| > 2 {
      var q := p[1..];
      assert IsWalk(g, q) by {
        forall i | 0 <= i < |q| - 1 ensures q[i + 1] in Successors(g, q[i]) {
          assert p[i + 2] in Successors(g, p[i + 1]);
        }
      }
      RankDrops(g, rank, isTop, q);
    }
  }

  /** Every edge of g is an edge of h, except possibly the edge from s to t. */
  ghost predicate AddsAtMost<K(!new)>(h: Graph<K>, g: Graph<K>, s: K, t: K) {
    forall a, n :: n in Successors(g, a) ==> n in Successors(h, a) || (a == s && n == t)
  }

  ghost predicate Subgraph<K(!new)>(g: Graph<K>, h: Graph<K>) {
    forall a, n :: n in Successors(g, a) ==> n in Successors(h, a)
  }

  lemma SubgraphReaches<K(!new)>(g: Graph<K>, h: Graph<K>, a: K, b: K)
    requires Subgraph(g, h) && Reaches(g, a, b)
    ensures Reaches(h, a, b)
  {
    var p :| WalkFromTo(g, p, a, b);
    forall i | 0 <= i < |p| - 1 ensures p[i + 1] in Successors(h, p[i]) {
    }
    assert WalkFromTo(h, p, a, b);
  }

  lemma SubgraphAcyclic<K(!new)>(g: Graph<K>, h: Graph<K>)
    requires Subgraph(g, h) && Acyclic(h)
    ensures Acyclic(g)
  {
    forall p | IsWalk(g, p) && |p| > 1 ensures p[0] != p[|p| - 1] {
      assert IsWalk(h, p) by {
        forall i | 0 <= i < |p| - 1 ensures p[i + 1] in Successors(h, p[i]) {
        }
      }
    }
  }

  /** A walk of the larger graph from t to s holds, after its last use of the new edge,
      a walk of the smaller graph from t to s. */
  lemma {:induction false} WalkAvoidsNewEdge<K(!new)>(h: Graph<K>, g: Graph<K>, s: K, t: K, p: seq<K>, from: K)
    requires AddsAtMost(h, g, s, t) && WalkFromTo(g, p, from, s)
    ensures Reaches(h, from, s) || Reaches(h, t, s)
    decreases |p|
  {
    if |p| == 1 {
      ReachesSelf(h, s);
    } else {
      var q := p[1..];
      assert WalkFromTo(g, q, p[1], s) by {
        forall i | 0 <= i < |q| - 1 ensures q[i + 1] in Successors(g, q[i]) {
          assert p[i + 2] in Successors(g, p[i + 1]);
        }
      }
      WalkAvoidsNewEdge(h, g, s, t, q, p[1]);
      assert p[1] in Successors(g, from);
      if !Reaches(h, t, s) && p[1] in Successors(h, from) {
        ReachesStep(h, from, p[1]);
        ReachesTransitive(h, from, p[1], s);
      }
    }
  }

  /** A closed walk can be entered after its i-th edge. */
  lemma RotateCycle<K(!new)>(g: Graph<K>, c: seq<K>, i: nat)
    requires IsWalk(g, c) && c[0] == c[|c| - 1] && i < |c| - 1
    ensures Reaches(g, c[i + 1], c[i])
  {
    assert WalkFromTo(g, c[i + 1..], c[i + 1], c[0]);
    assert WalkFromTo(g, c[..i + 1], c[0], c[i]);
    ReachesTransitive(g, c[i + 1], c[0], c[i]);
  }

  /** Adding the edge from s to t to an acyclic graph closes no cycle unless t already reached s. */
  lemma AddEdgeAcyclic<K(!new)>(h: Graph<K>, g: Graph<K>, s: K, t: K)
    requires Acyclic(h) && AddsAtMost(h, g, s, t) && !Reaches(h, t, s)
    ensures Acyclic(g)
  {
    forall c | IsWalk(g, c) && |c| > 1 ensures c[0] != c[|c| - 1] {
      if c[0] == c[|c| - 1] {
        if i :| 0 <= i < |c| - 1 && c[i] == s && c[i + 1] == t {
          RotateCycle(g, c, i);
          var r :| WalkFromTo(g, r, t, s);
          WalkAvoidsNewEdge(h, g, s, t, r, t);
        } else {
          forall i | 0 <= i < |c| - 1 ensures c[i + 1] in Successors(h, c[i]) {
            assert c[i + 1] in Successors(g, c[i]);
          }
          assert IsWalk(h, c);
        }
      }
    }
  }

  /** Every edge of g, turned round, is an edge of h. */
  ghost predicate ReversedIn<K(!new)>(g: Graph<K>, h: Graph<K>) {
    forall a, n :: n in Successors(g, a) ==> a in Successors(h, n)
  }

  lemma {:induction false} ReversedWalk<K(!new)>(g: Graph<K>, h: Graph<K>, p: seq<K>)
    requires ReversedIn(g, h) && IsWalk(g, p)
    ensures Reaches(h, p[|p| - 1], p[0])
    ensures |p| > 1 ==> exists n :: n in Successors(h, p[|p| - 1]) && Reaches(h, n, p[0])
    decreases |p|
  {
    ReachesSelf(h, p[0]);
    if |p| > 1 {
      var q := p[..|p| - 1];
      ReversedWalk(g, h, q);
      assert p[|p| - 1] in Successors(g, q[|q| - 1]);
      ReachesUnfold(h, p[|p| - 1], p[0]);
    }
  }

  lemma ReversedAcyclic<K(!new)>(g: Graph<K>, h: Graph<K>)
    requires ReversedIn(g, h) && Acyclic(h)
    ensures Acyclic(g)
  {
    forall p | IsWalk(g, p) && |p| > 1 ensures p[0] != p[|p| - 1] {
      ReversedWalk(g, h, p);
      if p[0] == p[|p| - 1] {
        var n :| n in Successors(h, p[0]) && Reaches(h, n, p[0]);
        CycleRefutes(h, p[0], n);
      }
    }
  }
}
