/** Directed graphs as sets of edges: walks, reachability, acyclicity. */
module Graphs {
  import opened Common

  type Edges = set<(string, string)>

  predicate IsWalk(edges: Edges, w: seq<string>) {
    && |w| >= 1
    && forall i :: 0 <= i < |w| - 1 ==> (w[i], w[i + 1]) in edges
  }

  predicate IsClosedWalk(edges: Edges, w: seq<string>) {
    |w| >= 2 && w[0] == w[|w| - 1] && IsWalk(edges, w)
  }

  /** A directed cycle: a closed walk that repeats no node except its two ends. */
  predicate IsSimpleCycle(edges: Edges, w: seq<string>) {
    IsClosedWalk(edges, w) && Distinct(w[..|w| - 1])
  }

  ghost predicate Acyclic(edges: Edges) {
    forall w :: !IsClosedWalk(edges, w)
  }

  ghost predicate Reaches(edges: Edges, a: string, b: string) {
    exists w :: IsWalk(edges, w) && w[0] == a && w[|w| - 1] == b
  }

  /** `order` lists every endpoint once, and every edge points forward in it. */
  predicate IsTopologicalOrder(edges: Edges, order: seq<string>) {
    && Distinct(order)
    && forall e :: e in edges ==> exists i, j :: 0 <= i < j < |order| && order[i] == e.0 && order[j] == e.1
  }

  lemma {:induction false} WalkAdvances(edges: Edges, order: seq<string>, w: seq<string>, p: nat)
    requires IsTopologicalOrder(edges, order) && IsWalk(edges, w)
    requires p < |order| && order[p] == w[0]
    ensures exists q :: p <= q < |order| && order[q] == w[|w| - 1] && (|w| > 1 ==> p < q)
  {
    if |w| > 1 {
      assert (w[0], w[1]) in edges;
      var i, j :| 0 <= i < j < |order| && order[i] == w[0] && order[j] == w[1];
      assert i == p;
      assert IsWalk(edges, w[1..]) by {
        forall k | 0 <= k < |w[1..]| - 1 ensures (w[1..][k], w[1..][k + 1]) in edges {
          assert (w[k + 1], w[k + 2]) in edges;
        }
      }
      WalkAdvances(edges, order, w[1..], j);
    }
  }

  /** A graph with a topological order has no directed cycle. */
  lemma TopologicalOrderMeansAcyclic(edges: Edges, order: seq<string>)
    requires IsTopologicalOrder(edges, order)
    ensures Acyclic(edges)
  {
    forall w ensures !IsClosedWalk(edges, w) {
      if IsClosedWalk(edges, w) {
        assert (w[0], w[1]) in edges;
        var p, p' :| 0 <= p < p' < |order| && order[p] == w[0] && order[p'] == w[1];
        WalkAdvances(edges, order, w, p);
      }
    }
  }

  function Inverse(edges: Edges): Edges {
    set e | e in edges :: (e.1, e.0)
  }

  lemma InverseTwice(edges: Edges)
    ensures Inverse(Inverse(edges)) == edges
  {
    forall e | e in edges ensures e in Inverse(Inverse(edges)) {
      assert (e.1, e.0) in Inverse(edges);
    }
  }

  lemma WalkReverses(edges: Edges, w: seq<string>)
    requires IsWalk(edges, w)
    ensures IsWalk(Inverse(edges), Reverse(w))
  {
    var r := Reverse(w);
    forall i | 0 <= i < |r| - 1 ensures (r[i], r[i + 1]) in Inverse(edges) {
      assert (w[|w| - 2 - i], w[|w| - 2 - i + 1]) in edges;
    }
  }

  lemma ReachesReverses(edges: Edges, a: string, b: string)
    requires Reaches(edges, a, b)
    ensures Reaches(Inverse(edges), b, a)
  {
    var w :| IsWalk(edges, w) && w[0] == a && w[|w| - 1] == b;
    WalkReverses(edges, w);
    assert Reverse(w)[0] == b && Reverse(w)[|w| - 1] == a;
  }

  /** Reaching in one direction is being reached in the other. */
  lemma ReachabilityDual(edges: Edges, a: string, b: string)
    ensures Reaches(edges, a, b) <==> Reaches(Inverse(edges), b, a)
  {
    if Reaches(edges, a, b) {
      ReachesReverses(edges, a, b);
    }
    if Reaches(Inverse(edges), b, a) {
      ReachesReverses(Inverse(edges), b, a);
      InverseTwice(edges);
    }
  }

  lemma ReachesSelf(edges: Edges, a: string)
    ensures Reaches(edges, a, a)
  {
    assert IsWalk(edges, [a]);
  }

  lemma ReachesStep(edges: Edges, a: string, b: string, c: string)
    requires Reaches(edges, a, b) && (b, c) in edges
    ensures Reaches(edges, a, c)
  {
    var w :| IsWalk(edges, w) && w[0] == a && w[|w| - 1] == b;
    var w' := w + [c];
    forall i | 0 <= i < |w'| - 1 ensures (w'[i], w'[i + 1]) in edges {
      if i < |w| - 1 {
        assert (w[i], w[i + 1]) in edges;
      }
    }
    assert IsWalk(edges, w') && w'[0] == a && w'[|w'| - 1] == c;
  }

  /** A set that holds `a` and is closed under edges holds all that `a` reaches. */
  lemma ClosedSetHoldsReachable(edges: Edges, closed: set<string>, a: string, b: string)
    requires a in closed && Reaches(edges, a, b)
    requires forall e :: e in edges && e.0 in closed ==> e.1 in closed
    ensures b in closed
  {
    var w :| IsWalk(edges, w) && w[0] == a && w[|w| - 1] == b;
    var k := 0;
    while k < |w| - 1
      invariant 0 <= k < |w| && w[k] in closed
    {
      assert (w[k], w[k + 1]) in edges;
      k := k + 1;
    }
  }
}
