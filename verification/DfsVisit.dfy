/** Depth-first visitation with an explicit stack. */
module DfsVisits {
  import opened Fsts
  import opened Graphs
  import opened Sequences
  import opened CcVisitors
  import opened SccInvariants
  import opened SccComponents
  import opened SccFlags

  ghost predicate ShapeKept(g: Graph, c: Visit) {
    && Fits(g, c) && StackOrdered(c.v, |g.succ|)
    && States(g, c) && Frames(g, c) && Links(g, c) && Owners(g, c) && ArcInvariant(g, c)
  }

  ghost predicate LowsKept(g: Graph, c: Visit)
    requires Fits(g, c)
  {
    Lows(g, c) && FramesReach(g, c) && LowBounds(g, c) && Components(g, c) && NumbersUsed(c.v)
  }

  ghost predicate FlagsKept(g: Graph, c: Visit, first: bool)
    requires Fits(g, c)
  {
    Accessed(g, c, first) && FlagsExact(g, c) && Coaccessed(g, c) && Cycles(g, c)
  }

  /** Everything the visit keeps. */
  ghost predicate Invariant(g: Graph, c: Visit, first: bool) {
    ShapeKept(g, c) && LowsKept(g, c) && FlagsKept(g, c, first)
  }

  lemma PushShape(g: Graph, c: Visit, d: Visit, t: nat, root: nat)
    requires ShapeKept(g, c) && Fits(g, d) && StackOrdered(d.v, |g.succ|) && Pushed(g, c, d, t, root)
    ensures ShapeKept(g, d)
  {
    PushStates(g, c, d, t, root);
    PushFrames(g, c, d, t, root);
    PushLinks(g, c, d, t, root);
    PushOwners(g, c, d, t, root);
    PushArcs(g, c, d, t, root);
  }

  lemma PushLowsKept(g: Graph, c: Visit, d: Visit, t: nat, root: nat)
    requires ShapeKept(g, c) && ShapeKept(g, d) && LowsKept(g, c) && Pushed(g, c, d, t, root)
    ensures LowsKept(g, d)
  {
    PushLows(g, c, d, t, root);
    PushFramesReach(g, c, d, t, root);
    PushLowBounds(g, c, d, t, root);
    assert d.v.scc == c.v.scc;
  }

  lemma PushFlagsKept(g: Graph, c: Visit, d: Visit, t: nat, root: nat)
    requires ShapeKept(g, c) && FlagsKept(g, c, root == g.start) && Fits(g, d) && Pushed(g, c, d, t, root)
    requires c.frames == [] ==> t == root
    ensures FlagsKept(g, d, root == g.start)
  {
    if c.frames != [] {
      TopFacts(g, c);
    }
    PushAccessed(g, c, d, t, root);
    PushFlags(g, c, d, t, root);
    PushCoaccessed(g, c, d, t, root);
    PushCycles(g, c, d, t, root);
  }

  lemma PushInvariant(g: Graph, c: Visit, d: Visit, t: nat, root: nat)
    requires Invariant(g, c, root == g.start) && Fits(g, d) && StackOrdered(d.v, |g.succ|) && Pushed(g, c, d, t, root)
    requires c.frames == [] ==> t == root
    ensures Invariant(g, d, root == g.start)
  {
    PushShape(g, c, d, t, root);
    PushLowsKept(g, c, d, t, root);
    PushFlagsKept(g, c, d, t, root);
  }

  lemma AdvanceShape(g: Graph, c: Visit, d: Visit)
    requires ShapeKept(g, c) && Fits(g, d) && StackOrdered(d.v, |g.succ|) && Advanced(g, c, d)
    ensures ShapeKept(g, d)
  {
    AdvanceStates(g, c, d);
    AdvanceFrames(g, c, d);
    SameOwners(g, c, d);
    AdvanceArcs(g, c, d);
  }

  lemma AdvanceLowsKept(g: Graph, c: Visit, d: Visit)
    requires ShapeKept(g, c) && ShapeKept(g, d) && LowsKept(g, c) && Advanced(g, c, d)
    ensures LowsKept(g, d)
  {
    AdvanceLows(g, c, d);
    AdvanceFramesReach(g, c, d);
    AdvanceLowBounds(g, c, d);
    AdvanceVectors(g, c, d);
  }

  lemma AdvanceFlagsKept(g: Graph, c: Visit, d: Visit, first: bool)
    requires ShapeKept(g, c) && FramesReach(g, c) && FlagsKept(g, c, first) && Fits(g, d) && Advanced(g, c, d)
    ensures FlagsKept(g, d, first)
  {
    TopFacts(g, c);
    BackArcFacts(g, c, first);
    AdvanceAccessed(g, c, d, first);
    AdvanceFlags(g, c, d);
    AdvanceCoaccessed(g, c, d);
    AdvanceCycles(g, c, d);
  }

  lemma AdvanceInvariant(g: Graph, c: Visit, d: Visit, first: bool)
    requires Invariant(g, c, first) && Fits(g, d) && StackOrdered(d.v, |g.succ|) && Advanced(g, c, d)
    ensures Invariant(g, d, first)
  {
    AdvanceShape(g, c, d);
    AdvanceLowsKept(g, c, d);
    AdvanceFlagsKept(g, c, d, first);
  }

  lemma FinishShape(g: Graph, c: Visit, d: Visit)
    requires ShapeKept(g, c) && Lows(g, c) && LowBounds(g, c) && Fits(g, d) && StackOrdered(d.v, |g.succ|)
    requires Finishes(g, c, d)
    ensures ShapeKept(g, d)
  {
    TopFacts(g, c);
    LinkFacts(g, c);
    if |c.frames| == 1 {
      BottomIsRoot(g, c);
    }
    FinishStates(g, c, d);
    FinishFrames(g, c, d);
    FinishOwners(g, c, d);
    FinishArcs(g, c, d);
  }

  lemma FinishLowsKept(g: Graph, c: Visit, d: Visit)
    requires ShapeKept(g, c) && ShapeKept(g, d) && LowsKept(g, c) && Finishes(g, c, d)
    ensures LowsKept(g, d)
  {
    FinishLows(g, c, d);
    FinishFramesReach(g, c, d);
    FinishLowBounds(g, c, d);
    FinishComponents(g, c, d);
    FinishNumbersUsed(g, c, d);
  }

  lemma FinishFlagsKept(g: Graph, c: Visit, d: Visit, first: bool)
    requires ShapeKept(g, c) && ShapeKept(g, d) && LowsKept(g, c) && FlagsKept(g, c, first) && Finishes(g, c, d)
    ensures FlagsKept(g, d, first)
  {
    FinishAccessed(g, c, d, first);
    FinishFlags(g, c, d);
    FinishCoaccessed(g, c, d);
    FinishCyclesKept(g, c, d, first);
  }

  lemma FinishCyclesKept(g: Graph, c: Visit, d: Visit, first: bool)
    requires ShapeKept(g, c) && Accessed(g, c, first) && Cycles(g, c) && Fits(g, d) && Finishes(g, c, d)
    ensures Cycles(g, d)
  {
    TopFacts(g, c);
    LinkFacts(g, c);
    if |c.frames| > 1 {
      StartIsBottom(g, c, first);
    }
    FinishCycles(g, c, d);
  }

  lemma FinishInvariant(g: Graph, c: Visit, d: Visit, first: bool)
    requires Invariant(g, c, first) && Fits(g, d) && StackOrdered(d.v, |g.succ|) && Finishes(g, c, d)
    ensures Invariant(g, d, first)
  {
    FinishShape(g, c, d);
    FinishLowsKept(g, c, d);
    FinishFlagsKept(g, c, d, first);
  }

  /** The start state never has a parent that is accessed. */
  lemma StartIsBottom(g: Graph, c: Visit, first: bool)
    requires Fits(g, c) && States(g, c) && Frames(g, c) && Accessed(g, c, first) && |c.frames| > 1
    ensures c.v.access[Parent(g, c)] ==> Top(g, c) != g.start
  {
    TopFacts(g, c);
    if first {
      assert c.v.dfnumber[c.frames[0].state] < c.v.dfnumber[c.frames[|c.frames| - 1].state];
    }
  }

  ghost function Begin(g: Graph): Visit
  {
    var n := |g.succ|;
    Visit(seq(n, _ => White), [], Initial(n), seq(n, _ => -1), seq(n, _ => 0), seq(n, _ => 0), 0)
  }

  lemma BeginInvariant(g: Graph)
    requires ValidGraph(g)
    ensures Invariant(g, Begin(g), true)
  {
    var c := Begin(g);
    assert ShapeKept(g, c);
    assert LowsKept(g, c);
    BeginFlags(g);
  }

  lemma BeginFlags(g: Graph)
    requires ValidGraph(g) && ShapeKept(g, Begin(g))
    ensures FlagsKept(g, Begin(g), true)
  {
  }

  /** Between trees nothing is left on the SCC stack: every discovered state is finished and numbered. */
  lemma BetweenTrees(g: Graph, c: Visit)
    requires ShapeKept(g, c) && c.frames == []
    ensures forall x :: 0 <= x < |g.succ| && c.color[x] != White ==> c.color[x] == Black && c.v.scc[x] >= 0
  {
    forall x | 0 <= x < |g.succ| && c.color[x] != White ensures c.color[x] == Black && c.v.scc[x] >= 0 {
      assert c.v.onstack[x] ==> OwnerOf(g, c, x);
    }
  }

  // ---- The result

  /** What the visit has found out when it is over. */
  ghost predicate Result(g: Graph, v: Scc) {
    && ValidGraph(g) && Sized(v, |g.succ|)
    && (forall x :: 0 <= x < |g.succ| ==> 0 <= v.scc[x] < v.nscc) && NumbersUsed(v)
    && (forall x, y :: 0 <= x < |g.succ| && 0 <= y < |g.succ| ==> (v.scc[x] == v.scc[y] <==> Mutual(g, x, y)))
    && (forall x, i :: 0 <= x < |g.succ| && 0 <= i < |g.succ[x]| ==> v.scc[x] <= v.scc[g.succ[x][i]])
    && (forall x :: 0 <= x < |g.succ| ==> (v.access[x] <==> Reach(g, g.start, x)))
    && (forall x :: 0 <= x < |g.succ| ==> (v.coaccess[x] <==> ReachesFinal(g, x)))
    && (v.cyclic <==> HasCycle(g))
    && (v.initialCyclic <==> HasInitialCycle(g))
    && (v.notAccessible <==> exists x :: 0 <= x < |g.succ| && !Reach(g, g.start, x))
    && (v.notCoAccessible <==> exists x :: 0 <= x < |g.succ| && !ReachesFinal(g, x))
  }

  lemma AccessExact(g: Graph, c: Visit)
    requires Fits(g, c) && Accessed(g, c, false)
    ensures forall x :: 0 <= x < |g.succ| ==> (c.v.access[x] <==> Reach(g, g.start, x))
  {
    var q := set x: nat | x < |g.succ| && c.v.access[x];
    forall x | 0 <= x < |g.succ| && Reach(g, g.start, x) ensures c.v.access[x] {
      ClosedReach(g, q, g.start, x);
    }
  }

  lemma CoaccessExact(g: Graph, c: Visit)
    requires Fits(g, c) && Coaccessed(g, c) && forall x :: 0 <= x < |g.succ| ==> c.v.scc[x] >= 0
    ensures forall x :: 0 <= x < |g.succ| ==> (c.v.coaccess[x] <==> ReachesFinal(g, x))
  {
    forall x | 0 <= x < |g.succ| && ReachesFinal(g, x) ensures c.v.coaccess[x] {
      CoaccessComplete(g, c, x);
    }
  }

  lemma CoaccessComplete(g: Graph, c: Visit, x: nat)
    requires Fits(g, c) && Coaccessed(g, c) && forall x :: 0 <= x < |g.succ| ==> c.v.scc[x] >= 0
    requires x < |g.succ| && ReachesFinal(g, x)
    ensures c.v.coaccess[x]
  {
    var q := set x: nat | x < |g.succ| && !c.v.coaccess[x];
    NotCoaccessClosed(g, c, q);
    var z :| 0 <= z < |g.succ| && g.final[z] && Reach(g, x, z);
    if !c.v.coaccess[x] {
      ClosedReach(g, q, x, z);
      assert false;
    }
  }

  lemma NotCoaccessClosed(g: Graph, c: Visit, q: set<nat>)
    requires Fits(g, c) && Coaccessed(g, c) && forall x :: 0 <= x < |g.succ| ==> c.v.scc[x] >= 0
    requires q == set x: nat | x < |g.succ| && !c.v.coaccess[x]
    ensures Closed(g, q)
  {
  }

  lemma CyclesExact(g: Graph, c: Visit)
    requires Fits(g, c) && Cycles(g, c)
    requires forall x :: 0 <= x < |g.succ| ==> c.color[x] == Black && c.pos[x] == |g.succ[x]|
    requires forall x :: 0 <= x < |g.succ| ==> (c.v.access[x] <==> Reach(g, g.start, x))
    ensures (c.v.cyclic <==> HasCycle(g)) && (c.v.initialCyclic <==> HasInitialCycle(g))
  {
    if !c.v.cyclic {
      RankedIsAcyclic(g, c.rank);
    }
    if !c.v.initialCyclic && HasInitialCycle(g) {
      assert false;
    }
  }

  lemma VisitResult(g: Graph, c: Visit)
    requires Invariant(g, c, false) && c.frames == [] && forall x :: 0 <= x < |g.succ| ==> c.color[x] != White
    ensures Result(g, Reversed(c.v))
  {
    BetweenTrees(g, c);
    AccessExact(g, c);
    CoaccessExact(g, c);
    CyclesExact(g, c);
    ComponentsResult(g, c);
  }

  /** Turned around, the numbers are those of the components, in the order of the arcs. */
  lemma ComponentsResult(g: Graph, c: Visit)
    requires Fits(g, c) && States(g, c) && ArcInvariant(g, c) && Components(g, c) && NumbersUsed(c.v)
    requires forall x :: 0 <= x < |g.succ| ==> c.v.scc[x] >= 0
    ensures var v := Reversed(c.v);
      && (forall x :: 0 <= x < |g.succ| ==> 0 <= v.scc[x] < v.nscc) && NumbersUsed(v)
      && (forall x, y :: 0 <= x < |g.succ| && 0 <= y < |g.succ| ==> (v.scc[x] == v.scc[y] <==> Mutual(g, x, y)))
      && (forall x, i :: 0 <= x < |g.succ| && 0 <= i < |g.succ[x]| ==> v.scc[x] <= v.scc[g.succ[x][i]])
  {
    ReversedNumbers(c.v);
  }

  lemma ReversedNumbers(v: Scc)
    requires NumbersUsed(v)
    ensures NumbersUsed(Reversed(v))
  {
    forall m | 0 <= m < v.nscc ensures m in Reversed(v).scc {
      assert v.nscc - 1 - m in v.scc;
      var x :| 0 <= x < |v.scc| && v.scc[x] == v.nscc - 1 - m;
      assert Reversed(v).scc[x] == m;
    }
  }

  // ---- Nesting of the visits of states

  datatype Event = Discovery(s: nat) | Finishing(s: nat)

  /** The states discovered and not finished, if the events nest properly. */
  ghost function OpenStates(trace: seq<Event>): Option<seq<nat>> {
    if trace == [] then Some([])
    else
      var before := OpenStates(trace[..|trace| - 1]);
      match trace[|trace| - 1]
      case Discovery(s) => if before.None? then None else Some(before.value + [s])
      case Finishing(s) =>
        if before.None? || before.value == [] || before.value[|before.value| - 1] != s then None
        else Some(before.value[..|before.value| - 1])
  }

  ghost function StatesOf(frames: seq<Frame>): (r: seq<nat>)
    ensures |r| == |frames| && forall i :: 0 <= i < |r| ==> r[i] == frames[i].state
  {
    seq(|frames|, i requires 0 <= i < |frames| => frames[i].state)
  }

  /** The events so far nest, and each state has been discovered and finished at most once. */
  ghost predicate Nested(g: Graph, trace: seq<Event>, color: seq<Color>, frames: seq<Frame>) {
    && |color| == |g.succ| && OpenStates(trace) == Some(StatesOf(frames)) && Distinct(trace)
    && (forall x :: 0 <= x < |color| ==>
      (Discovery(x) in trace <==> color[x] != White) && (Finishing(x) in trace <==> color[x] == Black))
    && (forall e :: e in trace ==> e.s < |color|)
  }

  lemma DiscoverNests(g: Graph, trace: seq<Event>, color: seq<Color>, frames: seq<Frame>, t: nat)
    requires Nested(g, trace, color, frames) && t < |color| && color[t] == White
    ensures Nested(g, trace + [Discovery(t)], color[t := Grey], frames + [Frame(t, 0)])
  {
    DropLast(trace, Discovery(t));
    assert StatesOf(frames + [Frame(t, 0)]) == StatesOf(frames) + [t];
  }

  lemma FinishNests(g: Graph, trace: seq<Event>, color: seq<Color>, frames: seq<Frame>, s: nat, frames': seq<Frame>)
    requires Nested(g, trace, color, frames) && frames != [] && frames[|frames| - 1].state == s < |color|
    requires color[s] == Grey
    requires |frames'| == |frames| - 1 && forall i :: 0 <= i < |frames'| ==> frames'[i].state == frames[i].state
    ensures Nested(g, trace + [Finishing(s)], color[s := Black], frames')
  {
    DropLast(trace, Finishing(s));
    assert StatesOf(frames') == StatesOf(frames)[..|frames| - 1];
  }

  // ---- The visit

  lemma OwnedIsInComponent(g: Graph, c: Visit)
    requires Fits(g, c) && Owners(g, c) && c.frames != []
    ensures forall x :: 0 <= x < |g.succ| ==>
      && (InComponent(c.v, |g.succ|, Top(g, c), x) <==> Owned(g, c, x))
      && (FinalMarked(c.v, |g.succ|, Top(g, c), g.final[Top(g, c)], x) <==> Marked(g, c, x))
    ensures FinalComponent(c.v, |g.succ|, Top(g, c), g.final[Top(g, c)]) <==> SomeMarked(g, c)
  {
    forall x | 0 <= x < |g.succ| ensures InComponent(c.v, |g.succ|, Top(g, c), x) <==> Owned(g, c, x) {
      if c.v.onstack[x] {
        OwnedAfterTop(g, c, x);
      }
    }
    assert forall x :: 0 <= x < |g.succ| ==>
      (FinalMarked(c.v, |g.succ|, Top(g, c), g.final[Top(g, c)], x) <==> Marked(g, c, x));
  }

  /** Finishing as the visitor computes it is finishing as the invariants describe it. */
  lemma FinishedIsFinishes(g: Graph, c: Visit, d: Visit)
    requires Fits(g, c) && Fits(g, d) && Owners(g, c) && c.frames != [] && Position(g, c) == |g.succ[Top(g, c)]|
    requires var s, p, k := Top(g, c), Parent(g, c), |c.frames| - 1;
      && s in c.v.stack && c.v.onstack[s]
      && |d.frames| == k && (forall i :: 0 <= i < k ==> d.frames[i].state == c.frames[i].state)
      && (forall i :: 0 <= i < k ==> d.frames[i].pos == c.frames[i].pos + (if i == k - 1 then 1 else 0))
      && d.color == c.color[s := Black] && d.rank == c.rank[s := c.nfin] && d.nfin == c.nfin + 1
      && (forall x :: 0 <= x < |g.succ| ==> d.pos[x] == c.pos[x] + (if x == p then 1 else 0))
      && (forall x :: 0 <= x < |g.succ| ==> d.own[x] == (if c.own[x] == k then k - 1 else c.own[x]))
      && d.v == Finished(c.v, |g.succ|, s, p, g.final[s])
    ensures Finishes(g, c, d)
  {
    var n, s, p := |g.succ|, Top(g, c), Parent(g, c);
    OwnedIsInComponent(g, c);
    FinishedCount(c.v, n, s, p, g.final[s]);
    FinishedCounters(c.v, n, s, p, g.final[s]);
    FinishedNotCoaccessible(c.v, n, s, p, g.final[s]);
    forall x | 0 <= x < n
      ensures d.v.onstack[x] <==> c.v.onstack[x] && !(IsRoot(g, c) && Owned(g, c, x))
      ensures d.v.scc[x] == (if IsRoot(g, c) && Owned(g, c, x) then c.v.nscc else c.v.scc[x])
      ensures d.v.lowlink[x] == (if x == p && c.v.lowlink[s] < c.v.lowlink[x] then c.v.lowlink[s] else c.v.lowlink[x])
      ensures d.v.coaccess[x] <==>
        || Marked(g, c, x) || (IsRoot(g, c) && SomeMarked(g, c) && Owned(g, c, x))
        || (x == p && (Marked(g, c, s) || (IsRoot(g, c) && SomeMarked(g, c))))
    {
      FinishedStackAt(c.v, n, s, p, g.final[s], x);
      FinishedCoaccessAt(c.v, n, s, p, g.final[s], x);
    }
  }

  /** The visit after discovering t. */
  lemma PushTo(g: Graph, c: Visit, t: nat, root: nat, first: bool, w: Scc) returns (d: Visit)
    requires first == (root == g.start) && Invariant(g, c, first) && t < |g.succ| && c.color[t] == White
    requires (c.frames == [] ==> t == root)
    requires c.frames != [] ==> Position(g, c) < |g.succ[Top(g, c)]| && g.succ[Top(g, c)][Position(g, c)] == t
    requires w == Discovered(c.v, |g.succ|, g.start, t, root) && StackOrdered(w, |g.succ|)
    ensures Invariant(g, d, first) && d.v == w
    ensures d.color == c.color[t := Grey] && d.frames == c.frames + [Frame(t, 0)]
  {
    d := c.(color := c.color[t := Grey], frames := c.frames + [Frame(t, 0)], v := w, own := c.own[t := |c.frames|]);
    PushInvariant(g, c, d, t, root);
  }

  /** The visitor passes over the current arc. */
  ghost predicate PassedTo(g: Graph, c: Visit, w: Scc)
    requires Fits(g, c) && Sized(w, |g.succ|)
  {
    && c.frames != [] && Position(g, c) < |g.succ[Top(g, c)]|
    && var s, t := Top(g, c), g.succ[Top(g, c)][Position(g, c)];
    && c.color[t] != White && StackOrdered(w, |g.succ|)
    && w == (if c.color[t] == Grey then BackArced(c.v, |g.succ|, g.start, s, t) else CrossArced(c.v, |g.succ|, s, t))
  }

  /** The visit after passing over the current arc. */
  lemma AdvanceTo(g: Graph, c: Visit, first: bool, w: Scc) returns (d: Visit)
    requires Fits(g, c) && Sized(w, |g.succ|) && PassedTo(g, c, w)
    requires Invariant(g, c, first)
    ensures d.color == c.color && d.v == w
    ensures d.frames == c.frames[|c.frames| - 1 := Frame(Top(g, c), Position(g, c) + 1)]
    ensures Invariant(g, d, first)
  {
    var s, i := Top(g, c), Position(g, c);
    d := c.(frames := c.frames[|c.frames| - 1 := Frame(s, i + 1)], v := w, pos := c.pos[s := i + 1]);
    AdvanceInvariant(g, c, d, first);
  }

  /** The current state has no arcs left, and the visitor finishes it. */
  ghost predicate LeftTo(g: Graph, c: Visit, w: Scc, frames: seq<Frame>)
    requires Fits(g, c) && Sized(w, |g.succ|)
  {
    && c.frames != [] && Position(g, c) == |g.succ[Top(g, c)]|
    && Top(g, c) in c.v.stack && StackOrdered(w, |g.succ|)
    && w == Finished(c.v, |g.succ|, Top(g, c), Parent(g, c), g.final[Top(g, c)])
    && |frames| == |c.frames| - 1 && (forall i :: 0 <= i < |frames| ==> frames[i].state == c.frames[i].state)
    && (forall i :: 0 <= i < |frames| ==> frames[i].pos == c.frames[i].pos + (if i == |frames| - 1 then 1 else 0))
  }

  ghost function LeaveVisit(g: Graph, c: Visit, w: Scc, frames: seq<Frame>): Visit
    requires Fits(g, c) && Sized(w, |g.succ|) && LeftTo(g, c, w, frames)
  {
    var s, p, k := Top(g, c), Parent(g, c), |c.frames| - 1;
    Visit(c.color[s := Black], frames, w,
          seq(|g.succ|, x requires 0 <= x < |g.succ| => if c.own[x] == k then k - 1 else c.own[x]),
          if p == NO_STATE_ID then c.pos else c.pos[p := c.pos[p] + 1], c.rank[s := c.nfin], c.nfin + 1)
  }

  lemma LeaveFinishes(g: Graph, c: Visit, w: Scc, frames: seq<Frame>)
    requires Fits(g, c) && Sized(w, |g.succ|) && LeftTo(g, c, w, frames) && Owners(g, c) && c.v.onstack[Top(g, c)]
    ensures Fits(g, LeaveVisit(g, c, w, frames)) && Finishes(g, c, LeaveVisit(g, c, w, frames))
  {
    FinishedIsFinishes(g, c, LeaveVisit(g, c, w, frames));
  }

  /** The visit after finishing the current state. */
  lemma FinishTo(g: Graph, c: Visit, first: bool, w: Scc, frames: seq<Frame>) returns (d: Visit)
    requires Fits(g, c) && Sized(w, |g.succ|) && LeftTo(g, c, w, frames)
    requires Invariant(g, c, first)
    ensures d.color == c.color[Top(g, c) := Black] && d.v == w && d.frames == frames
    ensures Invariant(g, d, first)
  {
    d := LeaveVisit(g, c, w, frames);
    TopFacts(g, c);
    LeaveFinishes(g, c, w, frames);
    FinishInvariant(g, c, d, first);
  }

  /** The states still to be discovered. */
  ghost function Whites(color: seq<Color>): set<int> {
    set x | 0 <= x < |color| && color[x] == White
  }

  lemma FewerWhites(color: seq<Color>, t: nat)
    requires t < |color| && color[t] == White
    ensures Whites(color[t := Grey]) < Whites(color)
  {
    assert t in Whites(color) && t !in Whites(color[t := Grey]);
  }

  lemma SameWhites(color: seq<Color>, s: nat)
    requires s < |color| && color[s] == Grey
    ensures Whites(color[s := Black]) == Whites(color)
  {
  }

  /** The number of arcs the current state has left. */
  ghost function ArcsLeft(g: Graph, frames: seq<Frame>): int {
    if frames == [] || frames[|frames| - 1].state >= |g.succ| then 0
    else |g.succ[frames[|frames| - 1].state]| - frames[|frames| - 1].pos
  }

  /** Discovered states stay discovered, and the visit gets nearer to its end. */
  ghost predicate Progress(g: Graph, color: seq<Color>, frames: seq<Frame>, color': seq<Color>, frames': seq<Frame>) {
    && |color'| == |color| && (forall x :: 0 <= x < |color| && color[x] != White ==> color'[x] != White)
    && (|| Whites(color') < Whites(color)
        || (Whites(color') == Whites(color) &&
            (|frames'| < |frames| || (|frames'| == |frames| && 0 <= ArcsLeft(g, frames') < ArcsLeft(g, frames)))))
  }

  lemma LeaveProgress(g: Graph, color: seq<Color>, frames: seq<Frame>, s: nat, frames': seq<Frame>)
    requires s < |color| && color[s] == Grey && |frames'| < |frames|
    ensures Progress(g, color, frames, color[s := Black], frames')
  {
    SameWhites(color, s);
  }

  lemma EnterProgress(g: Graph, color: seq<Color>, frames: seq<Frame>, t: nat, frames': seq<Frame>)
    requires t < |color| && color[t] == White
    ensures Progress(g, color, frames, color[t := Grey], frames')
  {
    FewerWhites(color, t);
  }

  lemma PassProgress(g: Graph, color: seq<Color>, frames: seq<Frame>, s: nat, i: nat)
    requires frames != [] && frames[|frames| - 1] == Frame(s, i) && s < |g.succ| && i < |g.succ[s]|
    ensures Progress(g, color, frames, color, frames[|frames| - 1 := Frame(s, i + 1)])
    ensures StatesOf(frames[|frames| - 1 := Frame(s, i + 1)]) == StatesOf(frames)
  {
  }

  lemma PassedFrames(g: Graph, c: Visit, d: Visit, frames: seq<Frame>, s: nat, i: nat)
    requires Fits(g, c) && c.frames == frames && frames != [] && frames[|frames| - 1] == Frame(s, i)
    requires d.frames == c.frames[|c.frames| - 1 := Frame(Top(g, c), Position(g, c) + 1)]
    ensures d.frames == frames[|frames| - 1 := Frame(s, i + 1)]
  {
  }

  /** The visitor, the colors and the stack are those of the visit. */
  ghost predicate Ready(visitor: SccVisitor, g: Graph, c: Visit, color: seq<Color>, frames: seq<Frame>)
    reads visitor
  {
    visitor.Valid() && visitor.g == g && c.v == visitor.View() && c.color == color && c.frames == frames
  }

  /** Discovers a white state: marks it, pushes it and tells the visitor. */
  method Enter(
    g: Graph, visitor: SccVisitor, color: seq<Color>, frames: seq<Frame>, t: nat, root: nat, ghost first: bool,
    ghost c: Visit
  )
      returns (color': seq<Color>, frames': seq<Frame>, ghost d: Visit)
    requires Ready(visitor, g, c, color, frames) && Invariant(g, c, first) && first == (root == g.start)
    requires t < |g.succ| && color[t] == White && (frames == [] ==> t == root)
    requires frames != [] ==> Position(g, c) < |g.succ[Top(g, c)]| && g.succ[Top(g, c)][Position(g, c)] == t
    modifies visitor
    ensures Ready(visitor, g, d, color', frames') && Invariant(g, d, first)
    ensures color' == color[t := Grey] && frames' == frames + [Frame(t, 0)]
  {
    color' := color[t := Grey];
    frames' := frames + [Frame(t, 0)];
    visitor.InitState(t, root);
    d := PushTo(g, c, t, root, first, visitor.View());
  }

  /** Passes over the current arc, which leads to a grey or black state. */
  method PassArc(
    g: Graph, visitor: SccVisitor, color: seq<Color>, frames: seq<Frame>, ghost first: bool, ghost c: Visit
  )
      returns (frames': seq<Frame>, ghost d: Visit)
    requires Ready(visitor, g, c, color, frames) && Invariant(g, c, first)
    requires frames != [] && Position(g, c) < |g.succ[Top(g, c)]|
    requires color[g.succ[Top(g, c)][Position(g, c)]] != White
    modifies visitor
    ensures Ready(visitor, g, d, color, frames') && Invariant(g, d, first)
    ensures Progress(g, color, frames, color, frames') && StatesOf(frames') == StatesOf(frames)
  {
    var s, i := frames[|frames| - 1].state, frames[|frames| - 1].pos;
    var t := g.succ[s][i];
    if color[t] == Grey {
      visitor.BackArc(s, t);
    } else {
      visitor.ForwardOrCrossArc(s, t);
    }
    frames' := frames[|frames| - 1 := Frame(s, i + 1)];
    d := AdvanceTo(g, c, first, visitor.View());
    PassedFrames(g, c, d, frames, s, i);
    PassProgress(g, color, frames, s, i);
  }

  /** Pops the stack and moves the iterator of the new top to its next arc. */
  function PopFrame(frames: seq<Frame>): (r: seq<Frame>)
    requires frames != []
    ensures |r| == |frames| - 1 && (forall i :: 0 <= i < |r| ==> r[i].state == frames[i].state)
    ensures forall i :: 0 <= i < |r| ==> r[i].pos == frames[i].pos + (if i == |r| - 1 then 1 else 0)
  {
    var rest := frames[..|frames| - 1];
    if rest == [] then rest
    else rest[|rest| - 1 := Frame(rest[|rest| - 1].state, rest[|rest| - 1].pos + 1)]
  }

  /** Finishes the current state, and with it the tree arc of its parent. */
  method Leave(g: Graph, visitor: SccVisitor, color: seq<Color>, frames: seq<Frame>, ghost first: bool, ghost c: Visit)
      returns (color': seq<Color>, frames': seq<Frame>, ghost d: Visit)
    requires Ready(visitor, g, c, color, frames) && Invariant(g, c, first)
    requires frames != [] && Position(g, c) == |g.succ[Top(g, c)]|
    modifies visitor
    ensures Ready(visitor, g, d, color', frames') && Invariant(g, d, first)
    ensures color' == color[Top(g, c) := Black]
    ensures |frames'| == |frames| - 1 && forall i :: 0 <= i < |frames'| ==> frames'[i].state == frames[i].state
  {
    var s, k := frames[|frames| - 1].state, |frames| - 1;
    CurrentOnStack(g, c, first);
    color' := color[s := Black];
    frames' := PopFrame(frames);
    visitor.FinishState(s, if k == 0 then NO_STATE_ID else frames'[k - 1].state);
    d := FinishTo(g, c, first, visitor.View(), frames');
  }

  lemma CurrentOnStack(g: Graph, c: Visit, first: bool)
    requires Invariant(g, c, first) && c.frames != []
    ensures Top(g, c) in c.v.stack
  {
    TopFacts(g, c);
  }

  /** What the loops need of the current frame. */
  lemma CurrentFrame(g: Graph, c: Visit, first: bool)
    requires Invariant(g, c, first) && c.frames != []
    ensures c.color[Top(g, c)] == Grey && Position(g, c) <= |g.succ[Top(g, c)]|
  {
    TopFacts(g, c);
  }

  /** The visitor, the colors, the stack and the events are those of the visit. */
  ghost predicate Visiting(
    visitor: SccVisitor, g: Graph, c: Visit, color: seq<Color>, frames: seq<Frame>, first: bool, trace: seq<Event>
  )
    reads visitor
  {
    Ready(visitor, g, c, color, frames) && Invariant(g, c, first) && Nested(g, trace, color, frames)
  }

  /** One turn of the inner loop. */
  method Step(g: Graph, visitor: SccVisitor, color: seq<Color>, frames: seq<Frame>, root: nat, ghost first: bool,
              ghost c: Visit, ghost trace: seq<Event>)
      returns (color': seq<Color>, frames': seq<Frame>, ghost d: Visit, ghost trace': seq<Event>)
    requires frames != [] && first == (root == g.start) && Visiting(visitor, g, c, color, frames, first, trace)
    modifies visitor
    ensures Progress(g, color, frames, color', frames')
    ensures Visiting(visitor, g, d, color', frames', first, trace')
  {
    var s, i := frames[|frames| - 1].state, frames[|frames| - 1].pos;
    CurrentFrame(g, c, first);
    if i == |g.succ[s]| {
      color', frames', d := Leave(g, visitor, color, frames, first, c);
      FinishNests(g, trace, color, frames, s, frames');
      LeaveProgress(g, color, frames, s, frames');
      trace' := trace + [Finishing(s)];
      assert color' == color[s := Black];
    } else if color[g.succ[s][i]] == White {
      color', frames', d := Enter(g, visitor, color, frames, g.succ[s][i], root, first, c);
      DiscoverNests(g, trace, color, frames, g.succ[s][i]);
      EnterProgress(g, color, frames, g.succ[s][i], frames');
      trace' := trace + [Discovery(g.succ[s][i])];
    } else {
      color' := color;
      frames', d := PassArc(g, visitor, color, frames, first, c);
      trace' := trace;
    }
  }

  /** Visits everything reachable from a white root. */
  method VisitTree(
    g: Graph, visitor: SccVisitor, color: seq<Color>, root: nat, ghost first: bool, ghost c: Visit,
    ghost trace: seq<Event>
  )
      returns (color': seq<Color>, ghost d: Visit, ghost trace': seq<Event>)
    requires root < |g.succ| && |color| == |g.succ| && color[root] == White && first == (root == g.start)
    requires Visiting(visitor, g, c, color, [], first, trace)
    modifies visitor
    ensures Visiting(visitor, g, d, color', [], first, trace')
    ensures |color'| == |color| && color'[root] != White && Whites(color') < Whites(color)
    ensures forall x :: 0 <= x < |color| && color[x] != White ==> color'[x] != White
  {
    var frames: seq<Frame>;
    color', frames, d := Enter(g, visitor, color, [], root, root, first, c);
    trace' := trace + [Discovery(root)];
    DiscoverNests(g, trace, color, [], root);
    FewerWhites(color, root);
    while frames != []
      invariant Visiting(visitor, g, d, color', frames, first, trace')
      invariant |color'| == |color| && Whites(color') < Whites(color) && color'[root] != White
      invariant forall x :: 0 <= x < |color| && color[x] != White ==> color'[x] != White
      decreases Whites(color'), |frames|, ArcsLeft(g, frames)
    {
      color', frames, d, trace' := Step(g, visitor, color', frames, root, first, d, trace');
    }
  }

  /** Properly nested events in which every state is discovered once and finished once. */
  ghost predicate CompleteTrace(g: Graph, trace: seq<Event>) {
    && OpenStates(trace) == Some([]) && Distinct(trace) && (forall e :: e in trace ==> e.s < |g.succ|)
    && forall x :: 0 <= x < |g.succ| ==> Discovery(x) in trace && Finishing(x) in trace
  }

  lemma AfterTree(g: Graph, c: Visit, first: bool)
    requires Invariant(g, c, first) && c.frames == [] && c.color[g.start] != White
    ensures Invariant(g, c, false)
  {
    if first {
      FirstTreeDone(g, c);
    }
  }

  lemma VisitOver(g: Graph, c: Visit, trace: seq<Event>)
    requires Invariant(g, c, false) && c.frames == [] && Nested(g, trace, c.color, [])
    requires forall x :: 0 <= x < |g.succ| ==> c.color[x] != White
    ensures Result(g, Reversed(c.v)) && CompleteTrace(g, trace)
  {
    VisitResult(g, c);
    TraceComplete(g, c, trace);
  }

  lemma TraceComplete(g: Graph, c: Visit, trace: seq<Event>)
    requires ShapeKept(g, c) && c.frames == [] && Nested(g, trace, c.color, [])
    requires forall x :: 0 <= x < |g.succ| ==> c.color[x] != White
    ensures CompleteTrace(g, trace)
  {
    BetweenTrees(g, c);
    assert StatesOf([]) == [];
  }

  /** The first white state from a position on, or the number of states. */
  method FindRoot(color: seq<Color>, from: nat) returns (root: nat)
    requires from <= |color|
    ensures from <= root <= |color| && (root < |color| ==> color[root] == White)
    ensures forall x :: from <= x < root ==> color[x] != White
  {
    root := from;
    while root < |color| && color[root] != White
      invariant from <= root <= |color| && forall x :: from <= x < root ==> color[x] != White
    {
      root := root + 1;
    }
  }

  /** All states before the root are discovered, once the start state is. */
  ghost predicate RootsBefore(g: Graph, color: seq<Color>, root: nat)
    requires ValidGraph(g)
  {
    && |color| == |g.succ| && root <= |color| && (root < |color| ==> color[root] == White)
    && (root == g.start || (color[g.start] != White && forall x :: 0 <= x < root ==> color[x] != White))
  }

  /** One turn of the outer loop: a tree of the forest, and the next root. */
  method NextTree(
    g: Graph, visitor: SccVisitor, color: seq<Color>, root: nat, ghost first: bool, ghost c: Visit,
    ghost trace: seq<Event>
  )
      returns (color': seq<Color>, root': nat, ghost d: Visit, ghost trace': seq<Event>)
    requires ValidGraph(g) && RootsBefore(g, color, root) && root < |color| && first == (root == g.start)
    requires Visiting(visitor, g, c, color, [], first, trace)
    modifies visitor
    ensures RootsBefore(g, color', root') && root' != g.start && Whites(color') < Whites(color)
    ensures Visiting(visitor, g, d, color', [], false, trace')
  {
    color', d, trace' := VisitTree(g, visitor, color, root, first, c, trace);
    AfterTree(g, d, first);
    root' := FindRoot(color', if root == g.start then 0 else root + 1);
    RootsAdvance(g, color, root, color', root');
  }

  lemma RootsAdvance(g: Graph, color: seq<Color>, root: nat, color': seq<Color>, root': nat)
    requires ValidGraph(g) && RootsBefore(g, color, root) && root < |color| && |color'| == |color|
    requires color'[root] != White && forall x :: 0 <= x < |color| && color[x] != White ==> color'[x] != White
    requires root' <= |color'| && (root' < |color'| ==> color'[root'] == White)
    requires (root == g.start || root < root')
    requires forall x :: (if root == g.start then 0 else root + 1) <= x < root' ==> color'[x] != White
    ensures RootsBefore(g, color', root') && root' != g.start
  {
  }

  lemma BeginNested(g: Graph, color: seq<Color>)
    requires |color| == |g.succ| && forall x :: 0 <= x < |color| ==> color[x] == White
    ensures Nested(g, [], color, [])
  {
    assert StatesOf([]) == [];
  }

  /** Visits all trees: from the start state, then from every state not yet discovered. */
  method VisitForest(g: Graph, visitor: SccVisitor) returns (ghost trace: seq<Event>)
    requires ValidGraph(g) && visitor.Valid() && visitor.g == g && visitor.View() == Initial(|g.succ|)
    modifies visitor
    ensures visitor.Valid() && visitor.g == g && Result(g, Reversed(visitor.View())) && CompleteTrace(g, trace)
  {
    var n := |g.succ|;
    var color := seq(n, _ => White);
    ghost var c := Begin(g);
    trace := [];
    BeginInvariant(g);
    BeginNested(g, color);
    assert Visiting(visitor, g, c, color, [], true, trace);
    var root: nat := g.start;
    ghost var first := true;
    while root < n
      invariant first == (root == g.start) && RootsBefore(g, color, root)
      invariant Visiting(visitor, g, c, color, [], first, trace)
      decreases Whites(color)
    {
      color, root, c, trace := NextTree(g, visitor, color, root, first, c, trace);
      first := false;
    }
    VisitOver(g, c, trace);
  }

  /** The depth-first visit of a graph. */
  method DfsVisit(g: Graph, visitor: SccVisitor) returns (ghost trace: seq<Event>)
    requires ValidGraph(g) && visitor.Valid() && visitor.g == g && visitor.View() == Initial(|g.succ|)
    modifies visitor
    ensures visitor.Valid() && Result(g, visitor.View()) && CompleteTrace(g, trace)
  {
    trace := VisitForest(g, visitor);
    visitor.FinishVisit();
  }
}
