/** What a depth-first visit reads of an FST: the start state, the next states, and which states are final. */
module Graphs {

  datatype Graph = Graph(start: nat, succ: seq<seq<nat>>, final: seq<bool>)

  ghost predicate ValidGraph(g: Graph) {
    && |g.final| == |g.succ| && g.start < |g.succ|
    && forall x, i :: 0 <= x < |g.succ| && 0 <= i < |g.succ[x]| ==> g.succ[x][i] < |g.succ|
  }

  /** p lists the states visited after x, the last of which is y. */
  ghost predicate Walk(g: Graph, x: nat, p: seq<nat>, y: nat)
    requires ValidGraph(g)
    decreases p
  {
    x < |g.succ| && if p == [] then x == y else p[0] in g.succ[x] && Walk(g, p[0], p[1..], y)
  }

  ghost predicate Reach(g: Graph, x: nat, y: nat)
    requires ValidGraph(g)
  {
    exists p :: Walk(g, x, p, y)
  }

  /** x reaches a final state. */
  ghost predicate ReachesFinal(g: Graph, x: nat)
    requires ValidGraph(g)
  {
    exists z :: 0 <= z < |g.succ| && g.final[z] && Reach(g, x, z)
  }

  /** y follows x on a cycle. */
  ghost predicate OnCycle(g: Graph, x: nat, y: nat)
    requires ValidGraph(g)
  {
    x < |g.succ| && y in g.succ[x] && Reach(g, y, x)
  }

  ghost predicate HasCycle(g: Graph)
    requires ValidGraph(g)
  {
    exists x, y :: OnCycle(g, x, y)
  }

  ghost predicate Mutual(g: Graph, x: nat, y: nat)
    requires ValidGraph(g)
  {
    Reach(g, x, y) && Reach(g, y, x)
  }

  lemma ReachSelf(g: Graph, x: nat)
    requires ValidGraph(g) && x < |g.succ|
    ensures Reach(g, x, x)
  {
    assert Walk(g, x, [], x);
  }

  lemma {:induction false} WalkBounds(g: Graph, x: nat, p: seq<nat>, y: nat)
    requires ValidGraph(g) && Walk(g, x, p, y)
    ensures x < |g.succ| && y < |g.succ|
    decreases p
  {
    if p != [] {
      WalkBounds(g, p[0], p[1..], y);
    }
  }

  lemma ReachArc(g: Graph, x: nat, y: nat)
    requires ValidGraph(g) && x < |g.succ| && y in g.succ[x]
    ensures Reach(g, x, y)
  {
    var i :| 0 <= i < |g.succ[x]| && g.succ[x][i] == y;
    assert [y][1..] == [];
    assert Walk(g, x, [y], y);
  }

  lemma {:induction false} WalkConcat(g: Graph, x: nat, p: seq<nat>, y: nat, q: seq<nat>, z: nat)
    requires ValidGraph(g) && Walk(g, x, p, y) && Walk(g, y, q, z)
    ensures Walk(g, x, p + q, z)
    decreases p
  {
    if p == [] {
      assert p + q == q;
    } else {
      WalkConcat(g, p[0], p[1..], y, q, z);
      assert (p + q)[1..] == p[1..] + q;
    }
  }

  lemma ReachTrans(g: Graph, x: nat, y: nat, z: nat)
    requires ValidGraph(g) && Reach(g, x, y) && Reach(g, y, z)
    ensures Reach(g, x, z)
  {
    var p :| Walk(g, x, p, y);
    var q :| Walk(g, y, q, z);
    WalkConcat(g, x, p, y, q, z);
  }

  /** A set of states that no arc leaves. */
  ghost predicate Closed(g: Graph, q: set<nat>)
    requires ValidGraph(g)
  {
    forall x, i :: x in q && x < |g.succ| && 0 <= i < |g.succ[x]| ==> g.succ[x][i] in q
  }

  lemma {:induction false} ClosedWalk(g: Graph, q: set<nat>, x: nat, p: seq<nat>, y: nat)
    requires ValidGraph(g) && Closed(g, q) && x in q && Walk(g, x, p, y)
    ensures y in q
    decreases p
  {
    if p != [] {
      var i :| 0 <= i < |g.succ[x]| && g.succ[x][i] == p[0];
      ClosedWalk(g, q, p[0], p[1..], y);
    }
  }

  lemma ClosedReach(g: Graph, q: set<nat>, x: nat, y: nat)
    requires ValidGraph(g) && Closed(g, q) && x in q && Reach(g, x, y)
    ensures y in q
  {
    var p :| Walk(g, x, p, y);
    ClosedWalk(g, q, x, p, y);
  }

  /** If a rank decreases along every arc, there is no cycle. */
  lemma {:induction false} RankWalk(g: Graph, rank: seq<int>, x: nat, p: seq<nat>, y: nat)
    requires ValidGraph(g) && |rank| == |g.succ| && Walk(g, x, p, y)
    requires forall u, i :: 0 <= u < |g.succ| && 0 <= i < |g.succ[u]| ==> rank[g.succ[u][i]] < rank[u]
    ensures x < |rank| && y < |rank| && rank[y] <= rank[x]
    decreases p
  {
    if p != [] {
      var i :| 0 <= i < |g.succ[x]| && g.succ[x][i] == p[0];
      RankWalk(g, rank, p[0], p[1..], y);
    }
  }

  lemma RankedIsAcyclic(g: Graph, rank: seq<int>)
    requires ValidGraph(g) && |rank| == |g.succ|
    requires forall u, i :: 0 <= u < |g.succ| && 0 <= i < |g.succ[u]| ==> rank[g.succ[u][i]] < rank[u]
    ensures !HasCycle(g)
  {
    forall x: nat, y: nat ensures !OnCycle(g, x, y) {
      if OnCycle(g, x, y) {
        var p :| Walk(g, y, p, x);
        var i :| 0 <= i < |g.succ[x]| && g.succ[x][i] == y;
        RankWalk(g, rank, y, p, x);
        assert false;
      }
    }
  }
}
