/** What a depth-first visit with the component visitor keeps, step by step. */
module SccInvariants {
  import opened Fsts
  import opened Graphs
  import opened CcVisitors

  datatype Color = White | Grey | Black

  /** A state on the DFS stack and the position of its arc iterator. */
  datatype Frame = Frame(state: nat, pos: nat)

  /** The visit between two steps. For proofs: own gives for a state on the SCC stack the last frame
      discovered no later, pos the number of arcs done, rank the order of finishing. */
  datatype Visit = Visit(color: seq<Color>, frames: seq<Frame>, v: Scc, own: seq<int>, pos: seq<nat>, rank: seq<int>,
    nfin: nat)

  ghost predicate Fits(g: Graph, c: Visit) {
    && ValidGraph(g) && |c.color| == |g.succ| && Sized(c.v, |g.succ|)
    && |c.own| == |g.succ| && |c.pos| == |g.succ| && |c.rank| == |g.succ|
    && forall i :: 0 <= i < |c.frames| ==> c.frames[i].state < |g.succ|
  }

  /** The state being visited. */
  ghost function Top(g: Graph, c: Visit): (s: nat)
    requires Fits(g, c) && c.frames != []
    ensures s < |g.succ|
  {
    c.frames[|c.frames| - 1].state
  }

  ghost function Parent(g: Graph, c: Visit): (p: int)
    requires Fits(g, c)
    ensures NO_STATE_ID <= p < |g.succ|
  {
    if |c.frames| < 2 then NO_STATE_ID else c.frames[|c.frames| - 2].state
  }

  ghost function Position(g: Graph, c: Visit): nat
    requires Fits(g, c) && c.frames != []
  {
    c.frames[|c.frames| - 1].pos
  }

  // ---- The steps, as relations between two moments of the visit

  /** t is discovered, from the current state or as a new root. */
  ghost predicate Pushed(g: Graph, c: Visit, d: Visit, t: nat, root: nat)
    requires Fits(g, c) && Fits(g, d)
  {
    && t < |g.succ| && c.color[t] == White
    && (c.frames != [] ==> Position(g, c) < |g.succ[Top(g, c)]| && g.succ[Top(g, c)][Position(g, c)] == t)
    && d.frames == c.frames + [Frame(t, 0)] && d.color == c.color[t := Grey] && d.own == c.own[t := |c.frames|]
    && d.pos == c.pos && d.rank == c.rank && d.nfin == c.nfin
    && d.v == Discovered(c.v, |g.succ|, g.start, t, root)
  }

  /** The current arc leads to a state that is not white, and is passed over. */
  ghost predicate Advanced(g: Graph, c: Visit, d: Visit)
    requires Fits(g, c) && Fits(g, d)
  {
    && c.frames != [] && Position(g, c) < |g.succ[Top(g, c)]|
    && var s, i, k := Top(g, c), Position(g, c), |c.frames| - 1; var t := g.succ[s][i];
    && c.color[t] != White
    && d.frames == c.frames[k := Frame(s, i + 1)] && d.pos == c.pos[s := i + 1]
    && d.color == c.color && d.own == c.own && d.rank == c.rank && d.nfin == c.nfin
    && d.v == (if c.color[t] == Grey then BackArced(c.v, |g.succ|, g.start, s, t) else CrossArced(c.v, |g.succ|, s, t))
  }

  /** Is x in the part of the SCC stack that belongs to the current state? */
  ghost predicate Owned(g: Graph, c: Visit, x: nat)
    requires Fits(g, c) && x < |g.succ|
  {
    c.v.onstack[x] && c.own[x] == |c.frames| - 1
  }

  /** Is the current state the root of a component? */
  ghost predicate IsRoot(g: Graph, c: Visit)
    requires Fits(g, c) && c.frames != []
  {
    c.v.dfnumber[Top(g, c)] == c.v.lowlink[Top(g, c)]
  }

  /** Coaccessible once the finality of the current state is counted. */
  ghost predicate Marked(g: Graph, c: Visit, x: nat)
    requires Fits(g, c) && c.frames != [] && x < |g.succ|
  {
    c.v.coaccess[x] || (x == Top(g, c) && g.final[x])
  }

  ghost predicate SomeMarked(g: Graph, c: Visit)
    requires Fits(g, c) && c.frames != []
  {
    exists x :: 0 <= x < |g.succ| && Owned(g, c, x) && Marked(g, c, x)
  }

  /** The current state has no arcs left and is finished, and with it the tree arc of its parent. */
  ghost predicate Finishes(g: Graph, c: Visit, d: Visit)
    requires Fits(g, c) && Fits(g, d)
  {
    && c.frames != [] && Position(g, c) == |g.succ[Top(g, c)]|
    && var s, p, k := Top(g, c), Parent(g, c), |c.frames| - 1;
    && |d.frames| == k && (forall i :: 0 <= i < k ==> d.frames[i].state == c.frames[i].state)
    && (forall i :: 0 <= i < k ==> d.frames[i].pos == c.frames[i].pos + (if i == k - 1 then 1 else 0))
    && d.color == c.color[s := Black] && d.rank == c.rank[s := c.nfin] && d.nfin == c.nfin + 1
    && (forall x :: 0 <= x < |g.succ| ==>
      && d.pos[x] == c.pos[x] + (if x == p then 1 else 0)
      && d.own[x] == (if c.own[x] == k then k - 1 else c.own[x])
      && (d.v.onstack[x] <==> c.v.onstack[x] && !(IsRoot(g, c) && Owned(g, c, x)))
      && d.v.scc[x] == (if IsRoot(g, c) && Owned(g, c, x) then c.v.nscc else c.v.scc[x])
      && d.v.lowlink[x] == (if x == p && c.v.lowlink[s] < c.v.lowlink[x] then c.v.lowlink[s] else c.v.lowlink[x])
      && (d.v.coaccess[x] <==>
        || Marked(g, c, x) || (IsRoot(g, c) && SomeMarked(g, c) && Owned(g, c, x))
        || (x == p && (Marked(g, c, s) || (IsRoot(g, c) && SomeMarked(g, c))))))
    && d.v.dfnumber == c.v.dfnumber && d.v.nstates == c.v.nstates && d.v.access == c.v.access
    && d.v.cyclic == c.v.cyclic && d.v.initialCyclic == c.v.initialCyclic && d.v.notAccessible == c.v.notAccessible
    && d.v.nscc == c.v.nscc + (if IsRoot(g, c) then 1 else 0)
    && (d.v.notCoAccessible <==> c.v.notCoAccessible || (IsRoot(g, c) && !SomeMarked(g, c)))
  }

  // ---- The shape of a visit

  ghost predicate States(g: Graph, c: Visit)
    requires Fits(g, c)
  {
    && (forall x :: 0 <= x < |g.succ| ==>
      && (c.color[x] == White <==> c.v.dfnumber[x] == -1)
      && (c.color[x] != White ==> 0 <= c.v.dfnumber[x] < c.v.nstates)
      && (c.color[x] == White ==>
        !c.v.onstack[x] && c.v.scc[x] == -1 && c.pos[x] == 0 && !c.v.access[x] && !c.v.coaccess[x])
      && (c.color[x] != White ==> (c.v.onstack[x] <==> c.v.scc[x] == -1))
      && (c.color[x] == Grey ==> c.v.onstack[x])
      && -1 <= c.v.scc[x] < c.v.nscc
      && c.pos[x] <= |g.succ[x]| && (c.color[x] == Black ==> c.pos[x] == |g.succ[x]|))
    && (forall x, y :: 0 <= x < y < |g.succ| && c.color[x] != White && c.color[y] != White ==>
      c.v.dfnumber[x] != c.v.dfnumber[y])
  }

  ghost predicate Frames(g: Graph, c: Visit)
    requires Fits(g, c)
  {
    && (forall i :: 0 <= i < |c.frames| ==> var f := c.frames[i];
      c.color[f.state] == Grey && c.own[f.state] == i && f.pos == c.pos[f.state])
    && (forall x :: 0 <= x < |g.succ| && c.color[x] == Grey ==>
      0 <= c.own[x] < |c.frames| && c.frames[c.own[x]].state == x)
    && (forall i, j :: 0 <= i < j < |c.frames| ==> c.v.dfnumber[c.frames[i].state] < c.v.dfnumber[c.frames[j].state])
  }

  /** Each frame's current arc leads to the next frame. */
  ghost predicate Links(g: Graph, c: Visit)
    requires Fits(g, c)
  {
    forall i, j :: 0 <= i && j == i + 1 && j < |c.frames| ==> var f := c.frames[i];
      f.pos < |g.succ[f.state]| && g.succ[f.state][f.pos] == c.frames[j].state
  }

  /** x was discovered in the span of its owner: no earlier than it and before the next frame. */
  ghost predicate OwnerOf(g: Graph, c: Visit, x: nat)
    requires Fits(g, c) && x < |g.succ|
  {
    && 0 <= c.own[x] < |c.frames| && c.v.dfnumber[c.frames[c.own[x]].state] <= c.v.dfnumber[x]
    && forall j :: c.own[x] < j < |c.frames| ==> c.v.dfnumber[x] < c.v.dfnumber[c.frames[j].state]
  }

  ghost predicate Owners(g: Graph, c: Visit)
    requires Fits(g, c)
  {
    forall x {:trigger OwnerOf(g, c, x)} :: 0 <= x < |g.succ| && c.v.onstack[x] ==> OwnerOf(g, c, x)
  }

  /** Arcs already passed lead to states that are not white; numbered components only reach smaller numbers. */
  ghost predicate ArcInvariant(g: Graph, c: Visit)
    requires Fits(g, c)
  {
    && (forall x, i :: 0 <= x < |g.succ| && 0 <= i < c.pos[x] && i < |g.succ[x]| ==> c.color[g.succ[x][i]] != White)
    && (forall x, i :: 0 <= x < |g.succ| && c.v.scc[x] >= 0 && 0 <= i < |g.succ[x]| ==>
      0 <= c.v.scc[g.succ[x][i]] <= c.v.scc[x])
  }

  ghost predicate FinalMarked(v: Scc, n: nat, s: nat, final: bool, x: nat)
    requires Sized(v, n) && x < n
  {
    v.coaccess[x] || (x == s && final)
  }

  ghost predicate FinalComponent(v: Scc, n: nat, s: nat, final: bool)
    requires Sized(v, n) && s < n
  {
    exists x :: 0 <= x < n && InComponent(v, n, s, x) && FinalMarked(v, n, s, final, x)
  }

  lemma MarkedComponent(v: Scc, n: nat, s: nat, final: bool)
    requires Sized(v, n) && s < n
    ensures ComponentCoaccess(MarkFinal(v, n, s, final), n, s) <==> FinalComponent(v, n, s, final)
  {
    var m := MarkFinal(v, n, s, final);
    assert forall x :: 0 <= x < n ==>
      (InComponent(m, n, s, x) <==> InComponent(v, n, s, x)) && (m.coaccess[x] <==> FinalMarked(v, n, s, final, x));
  }

  lemma PoppedAt(v: Scc, n: nat, s: nat, x: nat)
    requires Sized(v, n) && s < n && s in v.stack && x < n
    ensures var w, gone := MaybePopped(v, n, s), v.dfnumber[s] == v.lowlink[s] && InComponent(v, n, s, x);
      && (w.onstack[x] <==> v.onstack[x] && !gone) && w.scc[x] == (if gone then v.nscc else v.scc[x])
      && w.lowlink == v.lowlink && (w.coaccess[x] <==> v.coaccess[x] || (gone && ComponentCoaccess(v, n, s)))
  {
  }

  lemma ToParentAt(v: Scc, n: nat, s: nat, p: int, x: nat)
    requires Sized(v, n) && s < n && NO_STATE_ID <= p < n && x < n
    ensures var w := ToParent(v, n, s, p);
      && w.lowlink[x] == (if x == p && v.lowlink[s] < v.lowlink[x] then v.lowlink[s] else v.lowlink[x])
      && (w.coaccess[x] <==> v.coaccess[x] || (x == p && v.coaccess[s]))
      && w.onstack == v.onstack && w.scc == v.scc
  {
  }

  /** What finishing s with parent p makes of the entries of x. */
  lemma FinishedStackAt(v: Scc, n: nat, s: nat, p: int, final: bool, x: nat)
    requires Sized(v, n) && s < n && NO_STATE_ID <= p < n && s in v.stack && x < n
    ensures var w, gone := Finished(v, n, s, p, final), v.dfnumber[s] == v.lowlink[s] && InComponent(v, n, s, x);
      && (w.onstack[x] <==> v.onstack[x] && !gone) && w.scc[x] == (if gone then v.nscc else v.scc[x])
      && w.lowlink[x] == (if x == p && v.lowlink[s] < v.lowlink[x] then v.lowlink[s] else v.lowlink[x])
  {
    var m := MarkFinal(v, n, s, final);
    PoppedAt(m, n, s, x);
    ToParentAt(MaybePopped(m, n, s), n, s, p, x);
  }

  lemma FinishedCoaccessAt(v: Scc, n: nat, s: nat, p: int, final: bool, x: nat)
    requires Sized(v, n) && s < n && NO_STATE_ID <= p < n && s in v.stack && v.onstack[s] && x < n
    ensures var root, co := v.dfnumber[s] == v.lowlink[s], FinalComponent(v, n, s, final);
      Finished(v, n, s, p, final).coaccess[x] <==>
        || FinalMarked(v, n, s, final, x) || (root && co && InComponent(v, n, s, x))
        || (x == p && (FinalMarked(v, n, s, final, s) || (root && co)))
  {
    MarkedComponent(v, n, s, final);
    var m := MarkFinal(v, n, s, final);
    PoppedAt(m, n, s, x);
    PoppedAt(m, n, s, s);
    ToParentAt(MaybePopped(m, n, s), n, s, p, x);
  }

  lemma FinishedCount(v: Scc, n: nat, s: nat, p: int, final: bool)
    requires Sized(v, n) && s < n && NO_STATE_ID <= p < n && s in v.stack
    ensures Finished(v, n, s, p, final).nscc == v.nscc + (if v.dfnumber[s] == v.lowlink[s] then 1 else 0)
  {
  }

  lemma FinishedCounters(v: Scc, n: nat, s: nat, p: int, final: bool)
    requires Sized(v, n) && s < n && NO_STATE_ID <= p < n && s in v.stack
    ensures var w := Finished(v, n, s, p, final);
      && w.dfnumber == v.dfnumber && w.nstates == v.nstates && w.access == v.access
      && w.cyclic == v.cyclic && w.initialCyclic == v.initialCyclic && w.notAccessible == v.notAccessible
  {
  }

  lemma FinishedNotCoaccessible(v: Scc, n: nat, s: nat, p: int, final: bool)
    requires Sized(v, n) && s < n && NO_STATE_ID <= p < n && s in v.stack
    ensures Finished(v, n, s, p, final).notCoAccessible <==>
      v.notCoAccessible || (v.dfnumber[s] == v.lowlink[s] && !FinalComponent(v, n, s, final))
  {
    MarkedComponent(v, n, s, final);
  }

  // ---- Discovering keeps the shape

  lemma PushStates(g: Graph, c: Visit, d: Visit, t: nat, root: nat)
    requires Fits(g, c) && Fits(g, d) && States(g, c) && Pushed(g, c, d, t, root)
    ensures States(g, d)
  {
  }

  lemma PushFrames(g: Graph, c: Visit, d: Visit, t: nat, root: nat)
    requires Fits(g, c) && Fits(g, d) && States(g, c) && Frames(g, c) && Pushed(g, c, d, t, root)
    ensures Frames(g, d)
  {
    assert forall i :: 0 <= i < |c.frames| ==> d.frames[i] == c.frames[i] && c.frames[i].state != t;
    forall i, j | 0 <= i < j < |d.frames|
      ensures d.v.dfnumber[d.frames[i].state] < d.v.dfnumber[d.frames[j].state]
    {
      assert d.frames[i] == c.frames[i];
      if j < |c.frames| {
        assert d.frames[j] == c.frames[j];
      }
    }
  }

  lemma PushLinks(g: Graph, c: Visit, d: Visit, t: nat, root: nat)
    requires Fits(g, c) && Fits(g, d) && Links(g, c) && Pushed(g, c, d, t, root)
    ensures Links(g, d)
  {
  }

  lemma PushOwner(g: Graph, c: Visit, d: Visit, t: nat, root: nat, x: nat)
    requires Fits(g, c) && Fits(g, d) && Pushed(g, c, d, t, root) && x < |g.succ|
    requires forall i :: 0 <= i < |c.frames| ==> c.frames[i].state != t
    requires x != t ==> OwnerOf(g, c, x) && c.v.dfnumber[x] < c.v.nstates
    ensures OwnerOf(g, d, x)
  {
    assert d.frames[|c.frames|].state == t;
  }

  lemma PushOwners(g: Graph, c: Visit, d: Visit, t: nat, root: nat)
    requires Fits(g, c) && Fits(g, d) && States(g, c) && Frames(g, c) && Owners(g, c) && Pushed(g, c, d, t, root)
    ensures Owners(g, d)
  {
    forall x | 0 <= x < |g.succ| && d.v.onstack[x] ensures OwnerOf(g, d, x) {
      assert x != t ==> OwnerOf(g, c, x);
      PushOwner(g, c, d, t, root, x);
    }
  }

  lemma PushArcs(g: Graph, c: Visit, d: Visit, t: nat, root: nat)
    requires Fits(g, c) && Fits(g, d) && States(g, c) && ArcInvariant(g, c) && Pushed(g, c, d, t, root)
    ensures ArcInvariant(g, d)
  {
  }

  // ---- Passing over an arc keeps the shape

  lemma AdvanceStates(g: Graph, c: Visit, d: Visit)
    requires Fits(g, c) && Fits(g, d) && States(g, c) && Frames(g, c) && Advanced(g, c, d)
    ensures States(g, d)
  {
  }

  lemma AdvanceFrames(g: Graph, c: Visit, d: Visit)
    requires Fits(g, c) && Fits(g, d) && Frames(g, c) && Links(g, c) && Advanced(g, c, d)
    ensures Frames(g, d) && Links(g, d)
  {
  }

  lemma SameOwners(g: Graph, c: Visit, d: Visit)
    requires Fits(g, c) && Fits(g, d) && Owners(g, c)
    requires d.own == c.own && d.v.dfnumber == c.v.dfnumber && d.v.onstack == c.v.onstack && |d.frames| == |c.frames|
    requires forall i :: 0 <= i < |c.frames| ==> d.frames[i].state == c.frames[i].state
    ensures Owners(g, d)
  {
    forall x | 0 <= x < |g.succ| && d.v.onstack[x] ensures OwnerOf(g, d, x) {
      assert OwnerOf(g, c, x);
    }
  }

  lemma AdvanceArcs(g: Graph, c: Visit, d: Visit)
    requires Fits(g, c) && Fits(g, d) && Frames(g, c) && ArcInvariant(g, c) && Advanced(g, c, d)
    ensures ArcInvariant(g, d)
  {
  }

  // ---- Finishing keeps the shape

  lemma FinishStates(g: Graph, c: Visit, d: Visit)
    requires Fits(g, c) && Fits(g, d) && States(g, c) && Frames(g, c) && Links(g, c) && Finishes(g, c, d)
    ensures States(g, d)
  {
  }

  lemma FinishFrames(g: Graph, c: Visit, d: Visit)
    requires Fits(g, c) && Fits(g, d) && Frames(g, c) && Links(g, c) && Finishes(g, c, d)
    ensures Frames(g, d) && Links(g, d)
  {
  }

  /** Only the root of a component may leave an empty DFS stack behind. */
  lemma FinishOwners(g: Graph, c: Visit, d: Visit)
    requires Fits(g, c) && Fits(g, d) && Owners(g, c) && Frames(g, c) && Finishes(g, c, d)
    requires |c.frames| == 1 ==> IsRoot(g, c)
    ensures Owners(g, d)
  {
    forall x | 0 <= x < |g.succ| && d.v.onstack[x] ensures OwnerOf(g, d, x) {
      assert OwnerOf(g, c, x);
    }
  }
}
