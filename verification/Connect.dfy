/** Trimming: removing what is on no accepting path. */
module Connects {
  import opened Semirings
  import opened Fsts
  import opened Graphs
  import opened CcVisitors
  import opened DfsVisits
  import opened VectorFsts
  import opened Sequences

  /** What the visit reads of a transducer with a start state. */
  function GraphOf<W(==)>(k: Semiring<W>, f: Fst<W>): (g: Graph)
    requires 0 <= f.start
    ensures |g.succ| == |f.states| && |g.final| == |f.states| && g.start == f.start
    ensures forall s :: 0 <= s < |f.states| ==>
      g.final[s] == (f.states[s].final != k.Zero) && |g.succ[s]| == |f.states[s].arcs|
    ensures forall s, i :: 0 <= s < |f.states| && 0 <= i < |f.states[s].arcs| ==>
      g.succ[s][i] == f.states[s].arcs[i].nextstate
  {
    Graph(f.start,
          seq(|f.states|, s requires 0 <= s < |f.states| =>
            seq(|f.states[s].arcs|, i requires 0 <= i < |f.states[s].arcs| => f.states[s].arcs[i].nextstate)),
          seq(|f.states|, s requires 0 <= s < |f.states| => f.states[s].final != k.Zero))
  }

  // ---- Paths and walks

  lemma {:induction false} PathIsWalk<W>(k: Semiring<W>, f: Fst<W>, s: nat, p: seq<nat>)
    requires Valid(f) && 0 <= f.start && s < |f.states| && IsPath(f, s, p)
    ensures ValidGraph(GraphOf(k, f)) && Reach(GraphOf(k, f), s, PathEnd(f, s, p))
    decreases |p|
  {
    var g := GraphOf(k, f);
    if p == [] {
      ReachSelf(g, s);
    } else {
      var t := f.states[s].arcs[p[0]].nextstate;
      assert g.succ[s][p[0]] == t;
      PathIsWalk(k, f, t, p[1..]);
      ReachArc(g, s, t);
      ReachTrans(g, s, t, PathEnd(f, s, p));
    }
  }

  lemma {:induction false} WalkIsPath<W>(k: Semiring<W>, f: Fst<W>, s: nat, w: seq<nat>, t: nat) returns (p: seq<nat>)
    requires Valid(f) && 0 <= f.start && ValidGraph(GraphOf(k, f)) && Walk(GraphOf(k, f), s, w, t)
    ensures s < |f.states| && IsPath(f, s, p) && PathEnd(f, s, p) == t
    decreases w
  {
    var g := GraphOf(k, f);
    if w == [] {
      p := [];
    } else {
      var i :| 0 <= i < |g.succ[s]| && g.succ[s][i] == w[0];
      var q := WalkIsPath(k, f, w[0], w[1..], t);
      p := [i] + q;
      Prepend(k, f, s, i, q);
    }
  }

  /** s lies on an accepting path: p leads to it from the start state, q from it to a final state. */
  ghost predicate OnAcceptingPath<W>(k: Semiring<W>, f: Fst<W>, s: nat)
    requires Valid(f) && 0 <= f.start && s < |f.states|
  {
    exists p, q :: IsPath(f, f.start, p) && PathEnd(f, f.start, p) == s && Accepting(k, f, s, q)
  }

  lemma OnPathReaches<W>(k: Semiring<W>, f: Fst<W>, s: nat)
    requires Valid(f) && 0 <= f.start && s < |f.states| && OnAcceptingPath(k, f, s)
    ensures ValidGraph(GraphOf(k, f))
    ensures Reach(GraphOf(k, f), f.start, s) && ReachesFinal(GraphOf(k, f), s)
  {
    var p, q :| IsPath(f, f.start, p) && PathEnd(f, f.start, p) == s && Accepting(k, f, s, q);
    PathIsWalk(k, f, f.start, p);
    PathIsWalk(k, f, s, q);
  }

  lemma ReachesOnPath<W>(k: Semiring<W>, f: Fst<W>, s: nat)
    requires Valid(f) && 0 <= f.start && s < |f.states| && ValidGraph(GraphOf(k, f))
    requires Reach(GraphOf(k, f), f.start, s) && ReachesFinal(GraphOf(k, f), s)
    ensures OnAcceptingPath(k, f, s)
  {
    var g := GraphOf(k, f);
    var p := ReachIsPath(k, f, f.start, s);
    var z :| 0 <= z < |g.succ| && g.final[z] && Reach(g, s, z);
    var q := ReachIsPath(k, f, s, z);
    assert Accepting(k, f, s, q);
  }

  lemma ReachIsPath<W>(k: Semiring<W>, f: Fst<W>, s: nat, t: nat) returns (p: seq<nat>)
    requires Valid(f) && 0 <= f.start && ValidGraph(GraphOf(k, f)) && Reach(GraphOf(k, f), s, t)
    ensures s < |f.states| && IsPath(f, s, p) && PathEnd(f, s, p) == t
  {
    var w :| Walk(GraphOf(k, f), s, w, t);
    p := WalkIsPath(k, f, s, w, t);
  }

  lemma OnAcceptingPathIff<W>(k: Semiring<W>, f: Fst<W>, s: nat)
    requires Valid(f) && 0 <= f.start && s < |f.states|
    ensures ValidGraph(GraphOf(k, f))
    ensures OnAcceptingPath(k, f, s) <==> Reach(GraphOf(k, f), f.start, s) && ReachesFinal(GraphOf(k, f), s)
  {
    GraphIsValid(k, f);
    if OnAcceptingPath(k, f, s) {
      OnPathReaches(k, f, s);
    }
    if Reach(GraphOf(k, f), f.start, s) && ReachesFinal(GraphOf(k, f), s) {
      ReachesOnPath(k, f, s);
    }
  }

  lemma GraphIsValid<W>(k: Semiring<W>, f: Fst<W>)
    requires Valid(f) && 0 <= f.start
    ensures ValidGraph(GraphOf(k, f))
  {
  }

  /** Every state an accepting path passes is on an accepting path. */
  ghost predicate Through<W>(f: Fst<W>, s: nat, p: seq<nat>, keep: seq<bool>)
    requires Valid(f) && |keep| == |f.states| && s < |f.states| && IsPath(f, s, p)
    decreases |p|
  {
    keep[s] && (p == [] || Through(f, f.states[s].arcs[p[0]].nextstate, p[1..], keep))
  }

  /** keep marks exactly the states on accepting paths. */
  ghost predicate Useful<W>(k: Semiring<W>, f: Fst<W>, keep: seq<bool>)
    requires Valid(f) && 0 <= f.start
  {
    |keep| == |f.states| && forall s :: 0 <= s < |keep| ==> (keep[s] <==> OnAcceptingPath(k, f, s))
  }

  lemma {:induction false} AcceptingStaysUseful<W>(k: Semiring<W>, f: Fst<W>, keep: seq<bool>, s: nat, p: seq<nat>)
    requires Valid(f) && 0 <= f.start && Useful(k, f, keep) && s < |f.states| && Accepting(k, f, s, p)
    requires ValidGraph(GraphOf(k, f)) && Reach(GraphOf(k, f), f.start, s)
    ensures Through(f, s, p, keep)
    decreases |p|
  {
    var g := GraphOf(k, f);
    PathIsWalk(k, f, s, p);
    assert ReachesFinal(g, s);
    OnAcceptingPathIff(k, f, s);
    if p != [] {
      var t := f.states[s].arcs[p[0]].nextstate;
      assert g.succ[s][p[0]] == t;
      ReachArc(g, s, t);
      ReachTrans(g, f.start, s, t);
      AcceptingStaysUseful(k, f, keep, t, p[1..]);
    }
  }

  // ---- Paths before and after

  /** The positions of the same arcs after the states that are not kept are gone. */
  ghost function Shift<W>(f: Fst<W>, s: nat, p: seq<nat>, keep: seq<bool>): (r: seq<nat>)
    requires Valid(f) && |keep| == |f.states| && s < |f.states| && IsPath(f, s, p) && Through(f, s, p, keep)
    ensures |r| == |p|
    decreases |p|
  {
    if p == [] then []
    else
      [ArcRank(f.states[s].arcs, keep, p[0])] + Shift(f, f.states[s].arcs[p[0]].nextstate, p[1..], keep)
  }

  lemma {:induction false} RestrictedValid<W>(f: Fst<W>, keep: seq<bool>, f': Fst<W>)
    requires Restricted(f, keep, f')
    ensures Valid(f')
  {
    forall i | 0 <= i < |f'.states| ensures ValidArcs(f'.states[i].arcs, |f'.states|) {
      var s := NewIdOnto(keep, |keep|, i);
      var arcs := f.states[s].arcs;
      forall j | 0 <= j < |f'.states[i].arcs|
        ensures var a := f'.states[i].arcs[j]; a.nextstate < |f'.states| && 0 <= a.ilabel && 0 <= a.olabel
      {
        var a := KeptArcFrom(arcs, keep, |arcs|, j);
        KeptArcAt(arcs, keep, a);
        NewIdMonotone(keep, arcs[a].nextstate, |keep|);
      }
    }
    if f.start != NO_STATE_ID && keep[f.start] {
      NewIdMonotone(keep, f.start, |keep|);
    }
  }

  /** A path through kept states is still there, with the same labels and weight. */
  lemma {:induction false} ShiftKeepsPath<W>(
    k: Semiring<W>, f: Fst<W>, keep: seq<bool>, f': Fst<W>, s: nat, p: seq<nat>
  )
    requires Restricted(f, keep, f') && Valid(f') && s < |f.states| && IsPath(f, s, p) && Through(f, s, p, keep)
    ensures var q := Shift(f, s, p, keep); var s' := NewId(keep, s);
      && s' < |f'.states| && IsPath(f', s', q)
      && (Accepting(k, f', s', q) <==> Accepting(k, f, s, p))
      && ILabels(f', s', q) == ILabels(f, s, p) && OLabels(f', s', q) == OLabels(f, s, p)
      && PathWeight(k, f', s', q) == PathWeight(k, f, s, p)
    decreases |p|
  {
    if p != [] {
      var arc := f.states[s].arcs[p[0]];
      ShiftKeepsPath(k, f, keep, f', arc.nextstate, p[1..]);
      KeptArcAt(f.states[s].arcs, keep, p[0]);
      Prepend(k, f', NewId(keep, s), ArcRank(f.states[s].arcs, keep, p[0]), Shift(f, arc.nextstate, p[1..], keep));
      ConsRest(p);
      Prepend(k, f, s, p[0], p[1..]);
    }
  }

  lemma {:induction false} ShiftInjective<W>(f: Fst<W>, keep: seq<bool>, s: nat, p: seq<nat>, q: seq<nat>)
    requires Valid(f) && |keep| == |f.states| && s < |f.states|
    requires IsPath(f, s, p) && Through(f, s, p, keep) && IsPath(f, s, q) && Through(f, s, q, keep)
    requires Shift(f, s, p, keep) == Shift(f, s, q, keep)
    ensures p == q
    decreases |p|
  {
    if p != [] {
      var arcs := f.states[s].arcs;
      var x, y := Shift(f, s, p, keep), Shift(f, s, q, keep);
      assert x[0] == y[0] && x[1..] == y[1..];
      if p[0] < q[0] {
        ArcRankMonotone(arcs, keep, p[0], q[0]);
      } else if q[0] < p[0] {
        ArcRankMonotone(arcs, keep, q[0], p[0]);
      }
      ShiftInjective(f, keep, arcs[p[0]].nextstate, p[1..], q[1..]);
      ConsRest(p);
      ConsRest(q);
    }
  }

  /** Every path that is left was there before. */
  lemma {:induction false} ShiftOnto<W>(k: Semiring<W>, f: Fst<W>, keep: seq<bool>, f': Fst<W>, s: nat, q: seq<nat>)
    returns (p: seq<nat>)
    requires Restricted(f, keep, f') && Valid(f') && s < |f.states| && keep[s]
    requires NewId(keep, s) < |f'.states| && IsPath(f', NewId(keep, s), q)
    ensures IsPath(f, s, p) && Through(f, s, p, keep) && Shift(f, s, p, keep) == q
    decreases |q|
  {
    if q == [] {
      p := [];
    } else {
      var arcs := f.states[s].arcs;
      var i := KeptArcFrom(arcs, keep, |arcs|, q[0]);
      KeptArcAt(arcs, keep, i);
      var rest := ShiftOnto(k, f, keep, f', arcs[i].nextstate, q[1..]);
      p := [i] + rest;
      Prepend(k, f, s, i, rest);
      DropFirst(i, rest);
      ConsRest(q);
    }
  }

  /** What trimming promises: f' is f without exactly the states that are on no accepting path. */
  ghost predicate Trimmed<W>(k: Semiring<W>, f: Fst<W>, f': Fst<W>) {
    && Valid(f)
    && (f.start == NO_STATE_ID ==> f' == f)
    && (f.start != NO_STATE_ID ==> exists keep :: Useful(k, f, keep) && Restricted(f, keep, f'))
  }

  /** Trimming keeps each accepting path, once, with its labels and weight, and adds none. */
  lemma TrimmedKeepsPaths<W>(k: Semiring<W>, f: Fst<W>, f': Fst<W>, keep: seq<bool>)
    requires Valid(f) && 0 <= f.start && Useful(k, f, keep) && Restricted(f, keep, f')
    ensures Valid(f')
    ensures forall p :: Accepting(k, f, f.start, p) ==>
      && f'.start != NO_STATE_ID && Through(f, f.start, p, keep)
      && var q := Shift(f, f.start, p, keep);
      && Accepting(k, f', f'.start, q) && PathWeight(k, f', f'.start, q) == PathWeight(k, f, f.start, p)
      && ILabels(f', f'.start, q) == ILabels(f, f.start, p) && OLabels(f', f'.start, q) == OLabels(f, f.start, p)
    ensures f'.start != NO_STATE_ID ==> forall q :: Accepting(k, f', f'.start, q) ==>
      exists p :: Accepting(k, f, f.start, p) && Through(f, f.start, p, keep) && Shift(f, f.start, p, keep) == q
    ensures forall p, q | Accepting(k, f, f.start, p) && Accepting(k, f, f.start, q)
      && Through(f, f.start, p, keep) && Through(f, f.start, q, keep)
      && Shift(f, f.start, p, keep) == Shift(f, f.start, q, keep) :: p == q
  {
    RestrictedValid(f, keep, f');
    var g := GraphOf(k, f);
    assert ValidGraph(g);
    ReachSelf(g, f.start);
    forall p | Accepting(k, f, f.start, p)
      ensures f'.start != NO_STATE_ID && Through(f, f.start, p, keep)
      ensures var q := Shift(f, f.start, p, keep);
        && Accepting(k, f', f'.start, q) && PathWeight(k, f', f'.start, q) == PathWeight(k, f, f.start, p)
        && ILabels(f', f'.start, q) == ILabels(f, f.start, p) && OLabels(f', f'.start, q) == OLabels(f, f.start, p)
    {
      AcceptingStaysUseful(k, f, keep, f.start, p);
      ShiftKeepsPath(k, f, keep, f', f.start, p);
    }
    if f'.start != NO_STATE_ID {
      forall q | Accepting(k, f', f'.start, q)
        ensures exists p ::
          Accepting(k, f, f.start, p) && Through(f, f.start, p, keep) && Shift(f, f.start, p, keep) == q
      {
        var p := ShiftOnto(k, f, keep, f', f.start, q);
        ShiftKeepsPath(k, f, keep, f', f.start, p);
      }
    }
    forall p, q | Accepting(k, f, f.start, p) && Accepting(k, f, f.start, q)
      && Through(f, f.start, p, keep) && Through(f, f.start, q, keep)
      && Shift(f, f.start, p, keep) == Shift(f, f.start, q, keep) ensures p == q
    {
      ShiftInjective(f, keep, f.start, p, q);
    }
  }

  /** The states that are not both accessible and coaccessible. */
  method Useless(access: seq<bool>, coaccess: seq<bool>) returns (dstates: seq<nat>)
    requires |access| == |coaccess|
    ensures forall d :: d in dstates <==> 0 <= d < |access| && !(access[d] && coaccess[d])
  {
    dstates := [];
    for s := 0 to |access|
      invariant forall d :: d in dstates <==> 0 <= d < s && !(access[d] && coaccess[d])
    {
      if !access[s] || !coaccess[s] {
        dstates := dstates + [s];
      }
    }
  }

  /** Removes the states that are not both accessible and coaccessible. Without a start state the visit
      returns early and nothing is removed. */
  method Connect<W(==)>(k: Semiring<W>, fst: VectorFst<W>)
    requires Valid(fst.Contents())
    modifies fst
    ensures Trimmed(k, old(fst.Contents()), fst.Contents())
  {
    ghost var f := fst.Contents();
    if fst.start == NO_STATE_ID {
      return;
    }
    var dstates := FindUseless(k, Fst(fst.start, fst.states));
    fst.DeleteStates(dstates);
    ghost var keep := Remaining(|f.states|, dstates);
    assert Useful(k, f, keep);
  }

  /** Visits the transducer and lists the states on no accepting path. */
  method FindUseless<W(==)>(k: Semiring<W>, f: Fst<W>) returns (dstates: seq<nat>)
    requires Valid(f) && 0 <= f.start
    ensures forall s :: s in dstates <==> 0 <= s < |f.states| && !OnAcceptingPath(k, f, s)
  {
    var g := GraphOf(k, f);
    var visitor := new SccVisitor(g);
    ghost var trace := DfsVisit(g, visitor);
    dstates := Useless(visitor.access, visitor.coaccess);
    forall s | 0 <= s < |f.states| ensures s in dstates <==> !OnAcceptingPath(k, f, s) {
      OnAcceptingPathIff(k, f, s);
    }
  }
}
