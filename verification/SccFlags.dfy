/** Accessibility, coaccessibility and cyclicity, kept up to date in the same visit. */
module SccFlags {
  import opened Fsts
  import opened Graphs
  import opened CcVisitors
  import opened SccInvariants
  import opened SccComponents

  // ---- Accessibility: first says that the current tree is that of the start state

  ghost predicate Accessed(g: Graph, c: Visit, first: bool)
    requires Fits(g, c)
  {
    && (forall x :: 0 <= x < |g.succ| && c.v.access[x] ==> Reach(g, g.start, x))
    && (first ==> forall x :: 0 <= x < |g.succ| && c.color[x] != White ==> c.v.access[x])
    && (first && c.frames != [] ==> c.frames[0].state == g.start)
    && (!first ==> c.v.access[g.start])
    && (!first ==> forall x :: 0 <= x < |g.succ| && c.v.access[x] ==> c.v.scc[x] >= 0)
    && (!first ==> forall x, i :: 0 <= x < |g.succ| && c.v.access[x] && 0 <= i < |g.succ[x]| ==>
      c.v.access[g.succ[x][i]])
    && (c.v.notAccessible <==> exists x :: 0 <= x < |g.succ| && c.color[x] != White && !c.v.access[x])
  }

  lemma PushAccessed(g: Graph, c: Visit, d: Visit, t: nat, root: nat)
    requires Fits(g, c) && Fits(g, d) && Accessed(g, c, root == g.start) && Pushed(g, c, d, t, root)
    requires !c.v.access[t] && (if c.frames == [] then t == root else c.color[Top(g, c)] != White)
    ensures Accessed(g, d, root == g.start)
  {
    if root == g.start {
      if c.frames == [] {
        ReachSelf(g, t);
      } else {
        ReachArc(g, Top(g, c), t);
        ReachTrans(g, g.start, Top(g, c), t);
        assert d.frames[0] == c.frames[0];
      }
    } else {
      assert d.color[t] != White && !d.v.access[t];
    }
    if c.v.notAccessible {
      var x :| 0 <= x < |g.succ| && c.color[x] != White && !c.v.access[x];
      assert d.color[x] != White && !d.v.access[x];
    }
  }

  lemma AdvanceAccessed(g: Graph, c: Visit, d: Visit, first: bool)
    requires Fits(g, c) && Fits(g, d) && Accessed(g, c, first) && Advanced(g, c, d)
    ensures Accessed(g, d, first)
  {
  }

  lemma FinishAccessed(g: Graph, c: Visit, d: Visit, first: bool)
    requires Fits(g, c) && Fits(g, d) && Frames(g, c) && Accessed(g, c, first) && Finishes(g, c, d)
    ensures Accessed(g, d, first)
  {
    assert c.color[Top(g, c)] != White;
    if c.v.notAccessible {
      var x :| 0 <= x < |g.succ| && c.color[x] != White && !c.v.access[x];
      assert d.color[x] != White && !d.v.access[x];
    }
  }

  /** When the tree of the start state is done, the accessed states are closed for good. */
  lemma FirstTreeDone(g: Graph, c: Visit)
    requires Fits(g, c) && States(g, c) && Owners(g, c) && ArcInvariant(g, c) && Accessed(g, c, true)
    requires c.frames == [] && c.color[g.start] != White
    ensures Accessed(g, c, false)
  {
    forall x | 0 <= x < |g.succ| && c.color[x] != White ensures c.v.scc[x] >= 0 {
      assert c.v.onstack[x] ==> OwnerOf(g, c, x);
    }
  }

  // ---- Coaccessibility

  /** A flagged state on the stack, owned by x's owner or a later frame. */
  ghost predicate FlagAbove(g: Graph, c: Visit, x: nat, z: nat)
    requires Fits(g, c) && x < |g.succ|
  {
    z < |g.succ| && c.v.onstack[z] && c.v.coaccess[z] && c.own[z] >= c.own[x]
  }

  ghost predicate FlagsExact(g: Graph, c: Visit)
    requires Fits(g, c)
  {
    forall x, i {:trigger Flagged(g, c, x, i)} :: 0 <= x < |g.succ| && 0 <= i < |g.succ[x]| ==> Flagged(g, c, x, i)
  }

  /** If arc i of x has been passed and leads to a numbered coaccessible state, there is a flag for x. */
  ghost predicate Flagged(g: Graph, c: Visit, x: nat, i: nat)
    requires Fits(g, c) && x < |g.succ| && i < |g.succ[x]|
  {
    c.v.onstack[x] && i < c.pos[x] && c.v.scc[g.succ[x][i]] >= 0 && c.v.coaccess[g.succ[x][i]] ==>
      exists z :: FlagAbove(g, c, x, z)
  }

  ghost predicate Coaccessed(g: Graph, c: Visit)
    requires Fits(g, c)
  {
    && (forall x :: 0 <= x < |g.succ| && c.v.coaccess[x] ==> ReachesFinal(g, x))
    && (forall x :: 0 <= x < |g.succ| && c.v.scc[x] >= 0 && !c.v.coaccess[x] ==> !g.final[x])
    && (forall x, i :: 0 <= x < |g.succ| && c.v.scc[x] >= 0 && !c.v.coaccess[x] && 0 <= i < |g.succ[x]| ==>
      !c.v.coaccess[g.succ[x][i]])
    && (forall x :: 0 <= x < |g.succ| && c.color[x] == Black && c.v.onstack[x] && g.final[x] ==> c.v.coaccess[x])
    && (c.v.notCoAccessible <==> exists x :: 0 <= x < |g.succ| && c.v.scc[x] >= 0 && !c.v.coaccess[x])
  }

  lemma PushFlags(g: Graph, c: Visit, d: Visit, t: nat, root: nat)
    requires Fits(g, c) && Fits(g, d) && States(g, c) && FlagsExact(g, c) && Pushed(g, c, d, t, root)
    ensures FlagsExact(g, d)
  {
    forall x, i | 0 <= x < |g.succ| && 0 <= i < |g.succ[x]| ensures Flagged(g, d, x, i) {
      assert Flagged(g, c, x, i);
      if c.v.onstack[x] {
        forall z | FlagAbove(g, c, x, z) ensures FlagAbove(g, d, x, z) {
        }
      }
    }
  }

  lemma PushCoaccessed(g: Graph, c: Visit, d: Visit, t: nat, root: nat)
    requires Fits(g, c) && Fits(g, d) && States(g, c) && Coaccessed(g, c) && Pushed(g, c, d, t, root)
    ensures Coaccessed(g, d)
  {
  }

  lemma AdvanceFlags(g: Graph, c: Visit, d: Visit)
    requires Fits(g, c) && Fits(g, d) && States(g, c) && Frames(g, c) && FlagsExact(g, c) && Advanced(g, c, d)
    ensures FlagsExact(g, d)
  {
    TopFacts(g, c);
    forall x, i | 0 <= x < |g.succ| && 0 <= i < |g.succ[x]| ensures Flagged(g, d, x, i) {
      AdvanceFlag(g, c, d, x, i);
    }
  }

  lemma AdvanceFlag(g: Graph, c: Visit, d: Visit, x: nat, i: nat)
    requires Fits(g, c) && Fits(g, d) && FlagsExact(g, c) && Advanced(g, c, d) && x < |g.succ| && i < |g.succ[x]|
    requires c.pos[Top(g, c)] == Position(g, c) && c.v.onstack[Top(g, c)] && c.v.scc[Top(g, c)] < 0
    ensures Flagged(g, d, x, i)
  {
    assert Flagged(g, c, x, i);
    if d.v.onstack[x] && i < d.pos[x] && d.v.scc[g.succ[x][i]] >= 0 && d.v.coaccess[g.succ[x][i]] {
      if i < c.pos[x] {
        var z :| FlagAbove(g, c, x, z);
        assert FlagAbove(g, d, x, z);
      } else {
        assert FlagAbove(g, d, x, x);
      }
    }
  }

  lemma FinalThroughArc(g: Graph, s: nat, t: nat)
    requires ValidGraph(g) && s < |g.succ| && t in g.succ[s] && ReachesFinal(g, t)
    ensures ReachesFinal(g, s)
  {
    ReachArc(g, s, t);
    FinalThrough(g, s, t);
  }

  lemma FinalThrough(g: Graph, s: nat, t: nat)
    requires ValidGraph(g) && Reach(g, s, t) && ReachesFinal(g, t)
    ensures ReachesFinal(g, s)
  {
    var z :| 0 <= z < |g.succ| && g.final[z] && Reach(g, t, z);
    ReachTrans(g, s, t, z);
  }

  lemma AdvanceCoaccessed(g: Graph, c: Visit, d: Visit)
    requires Fits(g, c) && Fits(g, d) && ArcInvariant(g, c) && Coaccessed(g, c) && Advanced(g, c, d)
    requires c.v.scc[Top(g, c)] < 0 && c.color[Top(g, c)] == Grey
    ensures Coaccessed(g, d)
  {
    var s, t := Top(g, c), g.succ[Top(g, c)][Position(g, c)];
    if c.v.coaccess[t] {
      FinalThroughArc(g, s, t);
    }
    AdvanceVectors(g, c, d);
  }

  lemma AdvanceVectors(g: Graph, c: Visit, d: Visit)
    requires Fits(g, c) && Fits(g, d) && Advanced(g, c, d)
    ensures d.v.scc == c.v.scc && d.v.onstack == c.v.onstack && d.v.notCoAccessible == c.v.notCoAccessible
    ensures d.color == c.color
    ensures forall x :: 0 <= x < |g.succ| ==> (d.v.coaccess[x] <==>
      c.v.coaccess[x] || (x == Top(g, c) && c.v.coaccess[g.succ[Top(g, c)][Position(g, c)]]))
  {
  }

  /** Flags only ever mark states that reach a final state. */
  lemma FinishSound(g: Graph, c: Visit, d: Visit)
    requires Fits(g, c) && Fits(g, d) && Owners(g, c) && Lows(g, c) && FramesReach(g, c) && Finishes(g, c, d)
    requires forall x :: 0 <= x < |g.succ| && c.v.coaccess[x] ==> ReachesFinal(g, x)
    requires Owned(g, c, Top(g, c)) && (IsRoot(g, c) ==> Closed(g, Settled(g, c)))
    requires forall z :: 0 <= z < |g.succ| && Owned(g, c, z) ==> z == Top(g, c) || c.color[z] == Black
    requires forall z :: 0 <= z < |g.succ| && c.v.onstack[z] ==> c.v.scc[z] < 0
    requires |c.frames| > 1 ==> Top(g, c) in g.succ[Parent(g, c)]
    ensures forall x :: 0 <= x < |g.succ| && d.v.coaccess[x] ==> ReachesFinal(g, x)
  {
    var s, p := Top(g, c), Parent(g, c);
    ReachSelf(g, s);
    forall x | 0 <= x < |g.succ| && Marked(g, c, x) ensures ReachesFinal(g, x) {
    }
    if IsRoot(g, c) && SomeMarked(g, c) {
      var m :| 0 <= m < |g.succ| && Owned(g, c, m) && Marked(g, c, m);
      forall x | 0 <= x < |g.succ| && Owned(g, c, x) ensures ReachesFinal(g, x) {
        ThroughTop(g, c, x, m);
        FinalThrough(g, x, m);
      }
    }
    if p != NO_STATE_ID && ReachesFinal(g, s) {
      FinalThroughArc(g, p, s);
    }
  }

  /** A component none of whose states is marked has no way to a final state: not by an arc of its own. */
  lemma UnmarkedArc(g: Graph, c: Visit, x: nat, i: nat)
    requires Fits(g, c) && Owners(g, c) && FlagsExact(g, c) && c.frames != [] && !SomeMarked(g, c)
    requires x < |g.succ| && Owned(g, c, x) && c.pos[x] == |g.succ[x]| && i < |g.succ[x]|
    requires g.succ[x][i] in Settled(g, c)
    ensures !c.v.coaccess[g.succ[x][i]]
  {
    var y := g.succ[x][i];
    if c.v.coaccess[y] {
      if Owned(g, c, y) {
        assert Marked(g, c, y);
      } else {
        assert Flagged(g, c, x, i);
        var z :| FlagAbove(g, c, x, z);
        assert OwnerOf(g, c, z);
        assert Owned(g, c, z) && Marked(g, c, z);
      }
    }
  }

  /** What coaccess becomes for the states that are numbered after the step. */
  lemma FinishNumberedFlags(g: Graph, c: Visit, d: Visit)
    requires Fits(g, c) && Fits(g, d) && States(g, c) && Frames(g, c) && Finishes(g, c, d)
    ensures forall x :: 0 <= x < |g.succ| && d.v.scc[x] >= 0 ==>
      && (c.v.scc[x] >= 0 ==> (d.v.coaccess[x] <==> c.v.coaccess[x]) && !Owned(g, c, x))
      && (c.v.scc[x] < 0 ==> IsRoot(g, c) && Owned(g, c, x) && (d.v.coaccess[x] <==> SomeMarked(g, c)))
  {
    TopFacts(g, c);
    if !SomeMarked(g, c) {
      assert forall x :: 0 <= x < |g.succ| && Owned(g, c, x) ==> !Marked(g, c, x);
    }
  }

  lemma FinishComplete(g: Graph, c: Visit, d: Visit)
    requires Fits(g, c) && Fits(g, d) && States(g, c) && Frames(g, c) && Owners(g, c) && ArcInvariant(g, c)
    requires ArcInvariant(g, d)
    requires LowBounds(g, c) && FlagsExact(g, c) && Coaccessed(g, c) && Finishes(g, c, d)
    ensures forall x :: 0 <= x < |g.succ| && d.v.scc[x] >= 0 && !d.v.coaccess[x] ==> !g.final[x]
    ensures forall x, i :: 0 <= x < |g.succ| && d.v.scc[x] >= 0 && !d.v.coaccess[x] && 0 <= i < |g.succ[x]| ==>
      !d.v.coaccess[g.succ[x][i]]
  {
    TopFacts(g, c);
    FinishNumberedFlags(g, c, d);
    if IsRoot(g, c) {
      ComponentClosed(g, c);
    }
    forall x | 0 <= x < |g.succ| && d.v.scc[x] >= 0 && !d.v.coaccess[x]
      ensures !g.final[x] && forall i :: 0 <= i < |g.succ[x]| ==> !d.v.coaccess[g.succ[x][i]]
    {
      if c.v.scc[x] < 0 {
        assert !Marked(g, c, x);
        forall i | 0 <= i < |g.succ[x]| ensures !d.v.coaccess[g.succ[x][i]] {
          assert x in Settled(g, c) && g.succ[x][i] in Settled(g, c);
          UnmarkedArc(g, c, x, i);
          assert d.v.scc[g.succ[x][i]] >= 0;
        }
      } else {
        forall i | 0 <= i < |g.succ[x]| ensures !d.v.coaccess[g.succ[x][i]] {
          assert c.v.scc[g.succ[x][i]] >= 0 && d.v.scc[g.succ[x][i]] >= 0;
        }
      }
    }
  }

  lemma FinishBit(g: Graph, c: Visit, d: Visit)
    requires Fits(g, c) && Fits(g, d) && States(g, c) && Frames(g, c) && Coaccessed(g, c) && Finishes(g, c, d)
    ensures d.v.notCoAccessible <==> exists x :: 0 <= x < |g.succ| && d.v.scc[x] >= 0 && !d.v.coaccess[x]
  {
    TopFacts(g, c);
    FinishNumberedFlags(g, c, d);
    if c.v.notCoAccessible {
      var x :| 0 <= x < |g.succ| && c.v.scc[x] >= 0 && !c.v.coaccess[x];
      assert d.v.scc[x] >= 0 && !d.v.coaccess[x];
    }
    if IsRoot(g, c) && !SomeMarked(g, c) {
      assert d.v.scc[Top(g, c)] >= 0 && !d.v.coaccess[Top(g, c)];
    }
  }

  lemma FinishFlag(g: Graph, c: Visit, d: Visit, x: nat, z: nat)
    requires Fits(g, c) && Fits(g, d) && Finishes(g, c, d) && x < |g.succ| && d.v.onstack[x] && FlagAbove(g, c, x, z)
    requires c.own[x] <= |c.frames| - 1 && c.own[z] <= |c.frames| - 1
    requires |c.frames| > 1 ==> c.own[Parent(g, c)] == |c.frames| - 2 && c.v.onstack[Parent(g, c)]
    requires IsRoot(g, c) ==> |c.frames| > 1
    ensures exists z' :: FlagAbove(g, d, x, z')
  {
    if IsRoot(g, c) && Owned(g, c, z) {
      assert Marked(g, c, z);
      assert FlagAbove(g, d, x, Parent(g, c));
    } else {
      assert FlagAbove(g, d, x, z);
    }
  }

  lemma FinishFlagged(g: Graph, c: Visit, d: Visit, x: nat, i: nat)
    requires Fits(g, c) && Fits(g, d) && Owners(g, c) && Owners(g, d) && FlagsExact(g, c) && Finishes(g, c, d)
    requires x < |g.succ| && i < |g.succ[x]| && 0 <= c.own[x] <= |c.frames| - 1
    requires var y := g.succ[x][i];
      && (d.v.scc[y] >= 0 && c.v.scc[y] >= 0 ==> d.v.coaccess[y] == c.v.coaccess[y])
      && (d.v.scc[y] >= 0 && c.v.scc[y] < 0 ==> IsRoot(g, c) && (d.v.coaccess[y] ==> SomeMarked(g, c)))
    requires |c.frames| > 1 ==> var p := Parent(g, c);
      c.own[p] == |c.frames| - 2 && c.v.onstack[p] && c.pos[p] < |g.succ[p]| && g.succ[p][c.pos[p]] == Top(g, c)
    requires IsRoot(g, c) && d.v.onstack[x] ==> |c.frames| > 1
    requires c.v.scc[Top(g, c)] < 0
    ensures Flagged(g, d, x, i)
  {
    var y := g.succ[x][i];
    if d.v.onstack[x] && i < d.pos[x] && d.v.scc[y] >= 0 && d.v.coaccess[y] {
      if c.v.scc[y] < 0 {
        assert FlagAbove(g, d, x, Parent(g, c));
      } else {
        assert Flagged(g, c, x, i);
        var z :| FlagAbove(g, c, x, z);
        assert OwnerOf(g, c, z);
        FinishFlag(g, c, d, x, z);
      }
    }
  }

  lemma FinishFlags(g: Graph, c: Visit, d: Visit)
    requires Fits(g, c) && Fits(g, d) && States(g, c) && Frames(g, c) && Links(g, c) && Owners(g, c)
    requires Owners(g, d) && FlagsExact(g, c) && Finishes(g, c, d)
    ensures FlagsExact(g, d)
  {
    TopFacts(g, c);
    FinishNumberedFlags(g, c, d);
    LinkFacts(g, c);
    forall x, i | 0 <= x < |g.succ| && 0 <= i < |g.succ[x]| ensures Flagged(g, d, x, i) {
      if d.v.onstack[x] {
        assert OwnerOf(g, c, x) && OwnerOf(g, d, x);
        FinishFlagged(g, c, d, x, i);
      }
    }
  }

  /** The current arc of the parent leads to the current state. */
  lemma LinkFacts(g: Graph, c: Visit)
    requires Fits(g, c) && Frames(g, c) && Links(g, c)
    ensures |c.frames| > 1 ==> var p := Parent(g, c);
      c.pos[p] < |g.succ[p]| && g.succ[p][c.pos[p]] == Top(g, c) && Top(g, c) in g.succ[p]
  {
    if |c.frames| > 1 {
      var i := |c.frames| - 2;
      var f := c.frames[i];
      var j := i + 1;
      assert c.frames[j].state == Top(g, c) && c.color[f.state] == Grey;
      assert f.pos < |g.succ[f.state]|;
      assert f.pos == c.pos[f.state] && g.succ[f.state][f.pos] == c.frames[|c.frames| - 1].state;
    }
  }

  lemma FinishCoaccessed(g: Graph, c: Visit, d: Visit)
    requires Fits(g, c) && Fits(g, d) && States(g, c) && Frames(g, c) && Links(g, c) && Owners(g, c)
    requires ArcInvariant(g, c) && ArcInvariant(g, d)
    requires Lows(g, c) && FramesReach(g, c) && LowBounds(g, c) && FlagsExact(g, c) && Coaccessed(g, c)
    requires Finishes(g, c, d)
    ensures Coaccessed(g, d)
  {
    TopFacts(g, c);
    LinkFacts(g, c);
    if IsRoot(g, c) {
      ComponentClosed(g, c);
    }
    FinishSound(g, c, d);
    FinishComplete(g, c, d);
    FinishBit(g, c, d);
  }

  // ---- Cyclicity

  /** A cycle goes through the start state. */
  ghost predicate HasInitialCycle(g: Graph)
    requires ValidGraph(g)
  {
    exists x: nat :: Reach(g, g.start, x) && x < |g.succ| && g.start in g.succ[x]
  }

  ghost predicate Cycles(g: Graph, c: Visit)
    requires Fits(g, c)
  {
    && (c.v.cyclic ==> HasCycle(g))
    && (forall x :: 0 <= x < |g.succ| && c.color[x] == Black ==> c.rank[x] < c.nfin)
    && (!c.v.cyclic ==> forall x, i :: 0 <= x < |g.succ| && 0 <= i < c.pos[x] && i < |g.succ[x]| ==>
      c.color[g.succ[x][i]] == Black && (c.color[x] == Black ==> c.rank[g.succ[x][i]] < c.rank[x]))
    && (c.v.initialCyclic ==> HasInitialCycle(g))
    && (!c.v.initialCyclic ==> forall x, i ::
      0 <= x < |g.succ| && c.v.access[x] && 0 <= i < c.pos[x] && i < |g.succ[x]| ==>
      g.succ[x][i] != g.start)
  }

  lemma PushCycles(g: Graph, c: Visit, d: Visit, t: nat, root: nat)
    requires Fits(g, c) && Fits(g, d) && States(g, c) && Cycles(g, c) && Pushed(g, c, d, t, root)
    ensures Cycles(g, d)
  {
  }

  lemma AdvanceCycles(g: Graph, c: Visit, d: Visit)
    requires Fits(g, c) && Fits(g, d) && Cycles(g, c) && Advanced(g, c, d) && c.color[Top(g, c)] == Grey
    requires var s, t := Top(g, c), g.succ[Top(g, c)][Position(g, c)];
      && c.pos[s] == Position(g, c)
      && (c.color[t] == Grey ==> Reach(g, t, s))
      && (c.v.access[s] && t == g.start ==> c.color[t] == Grey)
    ensures Cycles(g, d)
  {
    var s, t := Top(g, c), g.succ[Top(g, c)][Position(g, c)];
    if c.color[t] == Grey {
      assert OnCycle(g, s, t);
    }
  }

  /** What AdvanceCycles needs of the current arc. */
  lemma BackArcFacts(g: Graph, c: Visit, first: bool)
    requires Fits(g, c) && States(g, c) && Frames(g, c) && FramesReach(g, c) && Accessed(g, c, first)
    requires c.frames != [] && Position(g, c) < |g.succ[Top(g, c)]|
    ensures var s, t := Top(g, c), g.succ[Top(g, c)][Position(g, c)];
      && (c.color[t] == Grey ==> Reach(g, t, s))
      && (c.v.access[s] && t == g.start ==> c.color[t] == Grey)
  {
    TopFacts(g, c);
    var s, t := Top(g, c), g.succ[Top(g, c)][Position(g, c)];
    if c.color[t] == Grey {
      assert c.frames[c.own[t]].state == t && FrameReaches(g, c, c.own[t], s);
    }
    if first {
      assert c.color[c.frames[0].state] == Grey;
    } else {
      assert c.v.scc[s] < 0;
    }
  }

  lemma FinishCycles(g: Graph, c: Visit, d: Visit)
    requires Fits(g, c) && Fits(g, d) && Cycles(g, c) && Finishes(g, c, d) && c.color[Top(g, c)] == Grey
    requires |c.frames| > 1 ==> var p := Parent(g, c);
      && c.color[p] == Grey && p != Top(g, c) && c.pos[p] < |g.succ[p]| && g.succ[p][c.pos[p]] == Top(g, c)
      && (c.v.access[p] ==> Top(g, c) != g.start)
    ensures Cycles(g, d)
  {
  }
}
