/** Lowlinks and components: when a state is finished whose lowlink is its own number, what it owns of the
    SCC stack is one strongly connected component. */
module SccComponents {
  import opened Graphs
  import opened CcVisitors
  import opened SccInvariants

  /** The lowlink of x is the number of a state on the stack that x reaches, smaller than its own once x is finished. */
  ghost predicate LowOf(g: Graph, c: Visit, x: nat)
    requires Fits(g, c) && x < |g.succ|
  {
    && 0 <= c.v.lowlink[x] <= c.v.dfnumber[x] && (c.color[x] == Black ==> c.v.lowlink[x] < c.v.dfnumber[x])
    && exists y :: LowWitness(g, c, x, y)
  }

  ghost predicate LowWitness(g: Graph, c: Visit, x: nat, y: nat)
    requires Fits(g, c) && x < |g.succ|
  {
    y < |g.succ| && c.v.onstack[y] && c.v.dfnumber[y] == c.v.lowlink[x] && Reach(g, x, y)
  }

  ghost predicate Lows(g: Graph, c: Visit)
    requires Fits(g, c)
  {
    forall x {:trigger LowOf(g, c, x)} :: 0 <= x < |g.succ| && c.v.onstack[x] ==> LowOf(g, c, x)
  }

  ghost predicate FrameReaches(g: Graph, c: Visit, i: nat, x: nat)
    requires Fits(g, c) && i < |c.frames| && x < |g.succ|
  {
    c.v.onstack[x] && c.v.dfnumber[c.frames[i].state] <= c.v.dfnumber[x] ==> Reach(g, c.frames[i].state, x)
  }

  /** Every frame reaches everything on the SCC stack that was discovered after it. */
  ghost predicate FramesReach(g: Graph, c: Visit)
    requires Fits(g, c)
  {
    forall i, x {:trigger FrameReaches(g, c, i, x)} :: 0 <= i < |c.frames| && 0 <= x < |g.succ| ==>
      FrameReaches(g, c, i, x)
  }

  /** The lowlink of the owner is no larger than what the arcs passed so far reach on the stack. */
  ghost predicate LowBounds(g: Graph, c: Visit)
    requires Fits(g, c)
  {
    forall x, i {:trigger LowBound(g, c, x, g.succ[x][i])} ::
      0 <= x < |g.succ| && c.v.onstack[x] && 0 <= i < c.pos[x] && i < |g.succ[x]| && c.v.onstack[g.succ[x][i]] ==>
      LowBound(g, c, x, g.succ[x][i])
  }

  ghost predicate LowBound(g: Graph, c: Visit, x: nat, y: nat)
    requires Fits(g, c) && x < |g.succ| && y < |g.succ|
  {
    0 <= c.own[x] < |c.frames| ==> c.v.lowlink[c.frames[c.own[x]].state] <= c.v.dfnumber[y]
  }

  /** Numbered states have equal component numbers exactly when each reaches the other. */
  ghost predicate Components(g: Graph, c: Visit)
    requires Fits(g, c)
  {
    forall x, y :: 0 <= x < |g.succ| && 0 <= y < |g.succ| && c.v.scc[x] >= 0 && c.v.scc[y] >= 0 ==>
      (c.v.scc[x] == c.v.scc[y] <==> Mutual(g, x, y))
  }

  /** No component number is left out: each has a member. */
  ghost predicate NumbersUsed(v: Scc) {
    forall m :: 0 <= m < v.nscc ==> m in v.scc
  }

  // ---- Discovering

  lemma PushLows(g: Graph, c: Visit, d: Visit, t: nat, root: nat)
    requires Fits(g, c) && Fits(g, d) && States(g, c) && Lows(g, c) && Pushed(g, c, d, t, root)
    ensures Lows(g, d)
  {
    forall x | 0 <= x < |g.succ| && d.v.onstack[x] ensures LowOf(g, d, x) {
      if x == t {
        ReachSelf(g, t);
        assert LowWitness(g, d, t, t);
      } else {
        assert LowOf(g, c, x);
        var y :| LowWitness(g, c, x, y);
        assert LowWitness(g, d, x, y);
      }
    }
  }

  lemma PushFramesReach(g: Graph, c: Visit, d: Visit, t: nat, root: nat)
    requires Fits(g, c) && Fits(g, d) && States(g, c) && Frames(g, c) && FramesReach(g, c) && Pushed(g, c, d, t, root)
    ensures FramesReach(g, d)
  {
    forall i, x | 0 <= i < |d.frames| && 0 <= x < |g.succ| ensures FrameReaches(g, d, i, x) {
      if i == |c.frames| {
        ReachSelf(g, t);
      } else {
        assert d.frames[i] == c.frames[i] && FrameReaches(g, c, i, x);
        if x == t {
          assert FrameReaches(g, c, i, Top(g, c));
          ReachArc(g, Top(g, c), t);
          ReachTrans(g, c.frames[i].state, Top(g, c), t);
        }
      }
    }
  }

  lemma PushLowBounds(g: Graph, c: Visit, d: Visit, t: nat, root: nat)
    requires Fits(g, c) && Fits(g, d) && States(g, c) && Frames(g, c) && Owners(g, c) && ArcInvariant(g, c)
    requires Owners(g, d) && LowBounds(g, c) && Pushed(g, c, d, t, root)
    ensures LowBounds(g, d)
  {
    forall x, i | 0 <= x < |g.succ| && d.v.onstack[x] && 0 <= i < d.pos[x] && i < |g.succ[x]|
      && d.v.onstack[g.succ[x][i]]
      ensures LowBound(g, d, x, g.succ[x][i])
    {
      assert x != t && g.succ[x][i] != t;
      assert LowBound(g, c, x, g.succ[x][i]) && OwnerOf(g, c, x);
      assert d.frames[c.own[x]] == c.frames[c.own[x]] && c.frames[c.own[x]].state != t;
    }
  }

  // ---- Passing over an arc

  /** What the shape says of the current state. */
  lemma TopFacts(g: Graph, c: Visit)
    requires Fits(g, c) && States(g, c) && Frames(g, c) && c.frames != []
    ensures var s := Top(g, c);
      && c.color[s] == Grey && Owned(g, c, s) && c.pos[s] == Position(g, c) && c.v.dfnumber[s] >= 0
    ensures forall x :: 0 <= x < |g.succ| && Owned(g, c, x) ==> x == Top(g, c) || c.color[x] == Black
    ensures forall x :: 0 <= x < |g.succ| && c.color[x] != White ==> c.v.dfnumber[x] >= 0
    ensures forall x :: 0 <= x < |g.succ| && c.color[x] == Grey ==> c.v.onstack[x]
    ensures |c.frames| > 1 ==> var p := c.frames[|c.frames| - 2].state;
      c.color[p] == Grey && c.v.dfnumber[p] < c.v.dfnumber[Top(g, c)] && c.own[p] == |c.frames| - 2 && p != Top(g, c)
  {
  }

  lemma AdvanceLow(g: Graph, c: Visit, d: Visit, x: nat)
    requires Fits(g, c) && Fits(g, d) && Advanced(g, c, d) && x < |g.succ| && LowOf(g, c, x)
    requires var t := g.succ[Top(g, c)][Position(g, c)]; c.v.dfnumber[t] >= 0 && (c.color[t] == Grey ==> c.v.onstack[t])
    requires c.color[Top(g, c)] == Grey
    ensures LowOf(g, d, x)
  {
    var s, t := Top(g, c), g.succ[Top(g, c)][Position(g, c)];
    var y :| LowWitness(g, c, x, y);
    if d.v.lowlink[x] == c.v.lowlink[x] {
      assert LowWitness(g, d, x, y);
    } else {
      ReachArc(g, s, t);
      assert LowWitness(g, d, x, t);
    }
  }

  lemma AdvanceLows(g: Graph, c: Visit, d: Visit)
    requires Fits(g, c) && Fits(g, d) && States(g, c) && Frames(g, c) && Lows(g, c) && Advanced(g, c, d)
    ensures Lows(g, d)
  {
    TopFacts(g, c);
    forall x | 0 <= x < |g.succ| && d.v.onstack[x] ensures LowOf(g, d, x) {
      AdvanceLow(g, c, d, x);
    }
  }

  lemma AdvanceFramesReach(g: Graph, c: Visit, d: Visit)
    requires Fits(g, c) && Fits(g, d) && FramesReach(g, c) && Advanced(g, c, d)
    ensures FramesReach(g, d)
  {
    forall i, x | 0 <= i < |d.frames| && 0 <= x < |g.succ| ensures FrameReaches(g, d, i, x) {
      assert FrameReaches(g, c, i, x);
    }
  }

  lemma AdvanceLowBound(g: Graph, c: Visit, d: Visit, x: nat, i: nat)
    requires Fits(g, c) && Fits(g, d) && Advanced(g, c, d) && x < |g.succ| && i < |g.succ[x]| && i < d.pos[x]
    requires 0 <= c.own[x] < |c.frames| && c.v.onstack[g.succ[x][i]]
    requires i < c.pos[x] ==> LowBound(g, c, x, g.succ[x][i])
    requires c.own[Top(g, c)] == |c.frames| - 1 && c.pos[Top(g, c)] == Position(g, c) && LowOf(g, c, Top(g, c))
    ensures LowBound(g, d, x, g.succ[x][i])
  {
    assert d.frames[c.own[x]].state == c.frames[c.own[x]].state;
  }

  lemma AdvanceLowBounds(g: Graph, c: Visit, d: Visit)
    requires Fits(g, c) && Fits(g, d) && States(g, c) && Frames(g, c) && Owners(g, c) && Lows(g, c)
    requires Owners(g, d) && LowBounds(g, c) && Advanced(g, c, d)
    ensures LowBounds(g, d)
  {
    TopFacts(g, c);
    forall x, i | 0 <= x < |g.succ| && d.v.onstack[x] && 0 <= i < d.pos[x] && i < |g.succ[x]|
      && d.v.onstack[g.succ[x][i]]
      ensures LowBound(g, d, x, g.succ[x][i])
    {
      assert OwnerOf(g, c, x);
      AdvanceLowBound(g, c, d, x, i);
    }
  }

  // ---- Finishing

  /** The bottom of the DFS stack is always the root of a component. */
  lemma BottomIsRoot(g: Graph, c: Visit)
    requires Fits(g, c) && Owners(g, c) && Lows(g, c) && |c.frames| == 1 && c.v.onstack[Top(g, c)]
    ensures IsRoot(g, c)
  {
    var s := Top(g, c);
    assert LowOf(g, c, s);
    var y :| LowWitness(g, c, s, y);
    assert OwnerOf(g, c, y);
  }

  /** What is owned lies at or after the current state in discovery order, everything else before it. */
  lemma OwnedAfterTop(g: Graph, c: Visit, x: nat)
    requires Fits(g, c) && Owners(g, c) && c.frames != [] && x < |g.succ| && c.v.onstack[x]
    ensures Owned(g, c, x) <==> c.v.dfnumber[Top(g, c)] <= c.v.dfnumber[x]
  {
    assert OwnerOf(g, c, x);
  }

  lemma FinishLow(g: Graph, c: Visit, d: Visit, x: nat)
    requires Fits(g, c) && Fits(g, d) && Owners(g, c) && Finishes(g, c, d) && x < |g.succ|
    requires d.v.onstack[x] && LowOf(g, c, x) && LowOf(g, c, Top(g, c)) && Owned(g, c, Top(g, c))
    requires |c.frames| > 1 ==> var p := Parent(g, c);
      p != Top(g, c) && c.color[p] == Grey && Reach(g, p, Top(g, c)) && c.v.dfnumber[p] < c.v.dfnumber[Top(g, c)]
    ensures LowOf(g, d, x)
  {
    var s, p := Top(g, c), Parent(g, c);
    var z := if x == p && c.v.lowlink[s] < c.v.lowlink[p] then s else x;
    var y :| LowWitness(g, c, z, y);
    if z != x {
      ReachTrans(g, p, s, y);
    }
    OwnedAfterTop(g, c, x);
    OwnedAfterTop(g, c, y);
    assert LowWitness(g, d, x, y);
  }

  lemma FinishLows(g: Graph, c: Visit, d: Visit)
    requires Fits(g, c) && Fits(g, d) && States(g, c) && Frames(g, c) && Owners(g, c) && Lows(g, c) && FramesReach(g, c)
    requires Finishes(g, c, d)
    ensures Lows(g, d)
  {
    TopFacts(g, c);
    assert |c.frames| > 1 ==> FrameReaches(g, c, |c.frames| - 2, Top(g, c));
    forall x | 0 <= x < |g.succ| && d.v.onstack[x] ensures LowOf(g, d, x) {
      FinishLow(g, c, d, x);
    }
  }

  lemma FinishFramesReach(g: Graph, c: Visit, d: Visit)
    requires Fits(g, c) && Fits(g, d) && FramesReach(g, c) && Finishes(g, c, d)
    ensures FramesReach(g, d)
  {
    forall i, x | 0 <= i < |d.frames| && 0 <= x < |g.succ| ensures FrameReaches(g, d, i, x) {
      assert FrameReaches(g, c, i, x);
    }
  }

  lemma FinishLowBound(g: Graph, c: Visit, d: Visit, x: nat, i: nat)
    requires Fits(g, c) && Fits(g, d) && Finishes(g, c, d) && x < |g.succ| && i < |g.succ[x]| && i < d.pos[x]
    requires d.v.onstack[x] && 0 <= c.own[x] < |c.frames| && 0 <= d.own[x] < |d.frames| && d.v.onstack[g.succ[x][i]]
    requires i < c.pos[x] ==> LowBound(g, c, x, g.succ[x][i])
    requires Owned(g, c, Top(g, c)) && c.v.lowlink[Top(g, c)] <= c.v.dfnumber[Top(g, c)]
    requires |c.frames| > 1 ==>
      var p := Parent(g, c); c.own[p] == |c.frames| - 2 && c.pos[p] < |g.succ[p]| && g.succ[p][c.pos[p]] == Top(g, c)
    ensures LowBound(g, d, x, g.succ[x][i])
  {
    assert d.frames[d.own[x]].state == c.frames[d.own[x]].state;
  }

  lemma FinishLowBounds(g: Graph, c: Visit, d: Visit)
    requires Fits(g, c) && Fits(g, d) && States(g, c) && Frames(g, c) && Links(g, c) && Owners(g, c) && Lows(g, c)
    requires Owners(g, d) && LowBounds(g, c) && Finishes(g, c, d)
    ensures LowBounds(g, d)
  {
    TopFacts(g, c);
    assert LowOf(g, c, Top(g, c));
    forall x, i | 0 <= x < |g.succ| && d.v.onstack[x] && 0 <= i < d.pos[x] && i < |g.succ[x]|
      && d.v.onstack[g.succ[x][i]]
      ensures LowBound(g, d, x, g.succ[x][i])
    {
      assert OwnerOf(g, c, x) && OwnerOf(g, d, x);
      FinishLowBound(g, c, d, x, i);
    }
  }

  // ---- The component of a root

  /** The states already numbered, and those the current state owns. */
  ghost function Settled(g: Graph, c: Visit): set<nat>
    requires Fits(g, c)
  {
    set x: nat | x < |g.succ| && (c.v.scc[x] >= 0 || Owned(g, c, x))
  }

  ghost function Numbered(g: Graph, c: Visit): set<nat>
    requires Fits(g, c)
  {
    set x: nat | x < |g.succ| && c.v.scc[x] >= 0
  }

  lemma NumberedClosed(g: Graph, c: Visit)
    requires Fits(g, c) && ArcInvariant(g, c)
    ensures Closed(g, Numbered(g, c))
  {
  }

  /** An arc from an owned state stays in the component or leads to a numbered state. */
  lemma OwnedArc(g: Graph, c: Visit, x: nat, i: nat)
    requires Fits(g, c) && States(g, c) && Owners(g, c) && ArcInvariant(g, c) && LowBounds(g, c) && c.frames != []
    requires IsRoot(g, c)
    requires x < |g.succ| && i < |g.succ[x]| && Owned(g, c, x) && c.pos[x] == |g.succ[x]|
    ensures g.succ[x][i] in Settled(g, c)
  {
    var y := g.succ[x][i];
    if c.v.onstack[y] {
      assert LowBound(g, c, x, y);
      OwnedAfterTop(g, c, y);
    }
  }

  /** No arc leaves the component for the rest of the stack. */
  lemma ComponentClosed(g: Graph, c: Visit)
    requires Fits(g, c) && States(g, c) && Frames(g, c) && Owners(g, c) && ArcInvariant(g, c) && LowBounds(g, c)
    requires c.frames != [] && Position(g, c) == |g.succ[Top(g, c)]| && IsRoot(g, c)
    ensures Closed(g, Settled(g, c))
  {
    TopFacts(g, c);
    forall x, i | x in Settled(g, c) && x < |g.succ| && 0 <= i < |g.succ[x]| ensures g.succ[x][i] in Settled(g, c) {
      if c.v.scc[x] < 0 {
        OwnedArc(g, c, x, i);
      }
    }
  }

  /** Everything owned by a root reaches it. */
  lemma {:induction false} OwnedReachesTop(g: Graph, c: Visit, x: nat)
    requires Fits(g, c) && Lows(g, c) && c.frames != [] && Closed(g, Settled(g, c)) && x < |g.succ| && Owned(g, c, x)
    requires forall z :: 0 <= z < |g.succ| && Owned(g, c, z) ==> z == Top(g, c) || c.color[z] == Black
    requires forall z :: 0 <= z < |g.succ| && c.v.onstack[z] ==> c.v.scc[z] < 0
    ensures Reach(g, x, Top(g, c))
    decreases c.v.dfnumber[x]
  {
    var s := Top(g, c);
    if x == s {
      ReachSelf(g, s);
    } else {
      assert LowOf(g, c, x);
      var y :| LowWitness(g, c, x, y);
      ClosedReach(g, Settled(g, c), x, y);
      OwnedReachesTop(g, c, y);
      ReachTrans(g, x, y, s);
    }
  }

  /** Owned states reach each other, and no numbered state reaches an owned one. */
  lemma OwnedIsComponent(g: Graph, c: Visit, x: nat, y: nat)
    requires Fits(g, c) && Owners(g, c) && Lows(g, c) && FramesReach(g, c) && ArcInvariant(g, c) && c.frames != []
    requires Closed(g, Settled(g, c)) && x < |g.succ| && y < |g.succ|
    requires forall z :: 0 <= z < |g.succ| && Owned(g, c, z) ==> z == Top(g, c) || c.color[z] == Black
    requires forall z :: 0 <= z < |g.succ| && c.v.onstack[z] ==> c.v.scc[z] < 0
    requires Owned(g, c, x) && (Owned(g, c, y) || c.v.scc[y] >= 0)
    ensures Mutual(g, x, y) <==> Owned(g, c, y)
  {
    if Owned(g, c, y) {
      ThroughTop(g, c, x, y);
      ThroughTop(g, c, y, x);
    } else if Reach(g, y, x) {
      NumberedClosed(g, c);
      ClosedReach(g, Numbered(g, c), y, x);
    }
  }

  lemma ThroughTop(g: Graph, c: Visit, x: nat, y: nat)
    requires Fits(g, c) && Owners(g, c) && Lows(g, c) && FramesReach(g, c) && c.frames != []
    requires Closed(g, Settled(g, c)) && x < |g.succ| && y < |g.succ| && Owned(g, c, x) && Owned(g, c, y)
    requires forall z :: 0 <= z < |g.succ| && Owned(g, c, z) ==> z == Top(g, c) || c.color[z] == Black
    requires forall z :: 0 <= z < |g.succ| && c.v.onstack[z] ==> c.v.scc[z] < 0
    ensures Reach(g, x, y)
  {
    OwnedReachesTop(g, c, x);
    OwnedAfterTop(g, c, y);
    assert FrameReaches(g, c, |c.frames| - 1, y);
    ReachTrans(g, x, Top(g, c), y);
  }

  lemma FinishComponents(g: Graph, c: Visit, d: Visit)
    requires Fits(g, c) && Fits(g, d) && States(g, c) && Frames(g, c) && Owners(g, c) && ArcInvariant(g, c)
    requires Lows(g, c) && FramesReach(g, c) && LowBounds(g, c) && Components(g, c) && Finishes(g, c, d)
    ensures Components(g, d)
  {
    if IsRoot(g, c) {
      ComponentClosed(g, c);
      TopFacts(g, c);
      forall x, y | 0 <= x < |g.succ| && 0 <= y < |g.succ| && d.v.scc[x] >= 0 && d.v.scc[y] >= 0
        ensures d.v.scc[x] == d.v.scc[y] <==> Mutual(g, x, y)
      {
        if Owned(g, c, x) {
          OwnedIsComponent(g, c, x, y);
        } else if Owned(g, c, y) {
          OwnedIsComponent(g, c, y, x);
        }
      }
    }
  }

  /** The number given to a component is the next one, and goes to the current state. */
  lemma FinishNumbersUsed(g: Graph, c: Visit, d: Visit)
    requires Fits(g, c) && Fits(g, d) && States(g, c) && Frames(g, c) && NumbersUsed(c.v) && Finishes(g, c, d)
    ensures NumbersUsed(d.v)
  {
    var s := Top(g, c);
    forall m | 0 <= m < d.v.nscc ensures m in d.v.scc {
      if m < c.v.nscc {
        assert m in c.v.scc;
        var x :| 0 <= x < |c.v.scc| && c.v.scc[x] == m;
        assert !c.v.onstack[x];
        assert d.v.scc[x] == m;
      } else {
        assert c.frames[|c.frames| - 1].state == s;
        assert Owned(g, c, s) && d.v.scc[s] == m;
      }
    }
  }

  lemma FinishPassed(g: Graph, c: Visit, d: Visit)
    requires Fits(g, c) && Fits(g, d) && ArcInvariant(g, c) && Finishes(g, c, d) && c.color[Top(g, c)] != White
    requires |c.frames| > 1 ==> var p := Parent(g, c); c.pos[p] < |g.succ[p]| && g.succ[p][c.pos[p]] == Top(g, c)
    ensures forall x, i :: 0 <= x < |g.succ| && 0 <= i < d.pos[x] && i < |g.succ[x]| ==> d.color[g.succ[x][i]] != White
  {
  }

  lemma FinishNumbered(g: Graph, c: Visit, d: Visit)
    requires Fits(g, c) && Fits(g, d) && ArcInvariant(g, c) && Finishes(g, c, d)
    requires (IsRoot(g, c) ==> Closed(g, Settled(g, c)))
    requires forall x :: 0 <= x < |g.succ| ==> c.v.scc[x] < c.v.nscc && (c.v.onstack[x] ==> c.v.scc[x] < 0)
    ensures forall x, i :: 0 <= x < |g.succ| && d.v.scc[x] >= 0 && 0 <= i < |g.succ[x]| ==>
      0 <= d.v.scc[g.succ[x][i]] <= d.v.scc[x]
  {
    forall x, i | 0 <= x < |g.succ| && d.v.scc[x] >= 0 && 0 <= i < |g.succ[x]|
      ensures 0 <= d.v.scc[g.succ[x][i]] <= d.v.scc[x]
    {
      if IsRoot(g, c) {
        assert x in Settled(g, c) && g.succ[x][i] in Settled(g, c);
      }
    }
  }

  lemma FinishArcs(g: Graph, c: Visit, d: Visit)
    requires Fits(g, c) && Fits(g, d) && States(g, c) && Frames(g, c) && Owners(g, c) && ArcInvariant(g, c)
    requires LowBounds(g, c) && Finishes(g, c, d)
    requires |c.frames| > 1 ==> var p := Parent(g, c); c.pos[p] < |g.succ[p]| && g.succ[p][c.pos[p]] == Top(g, c)
    ensures ArcInvariant(g, d)
  {
    if IsRoot(g, c) {
      ComponentClosed(g, c);
    }
    FinishPassed(g, c, d);
    FinishNumbered(g, c, d);
  }
}
