/** What the search for ambiguous transitions must find, and why removing what it marks leaves no ambiguity. */
module Disambiguate {
  import opened Semirings
  import opened Fsts
  import opened Connects
  import opened VectorFsts
  import opened Sequences

  /** A state and an arc position, SUPER_FINAL for the transition out of a final state. */
  type ArcId = (nat, int)

  const SUPER_FINAL := -1

  // ---- Coreachable pairs

  /** Paths p and q have the same labels and lead from the start to s and t. */
  ghost predicate CoreachableBy<W>(f: Fst<W>, p: seq<nat>, q: seq<nat>, s: nat, t: nat)
    requires Valid(f) && 0 <= f.start
  {
    && IsPath(f, f.start, p) && IsPath(f, f.start, q) && ILabels(f, f.start, p) == ILabels(f, f.start, q)
    && PathEnd(f, f.start, p) == s && PathEnd(f, f.start, q) == t
  }

  ghost predicate Coreachable<W>(f: Fst<W>, s: nat, t: nat)
    requires Valid(f) && 0 <= f.start
  {
    exists p, q :: CoreachableBy(f, p, q, s, t)
  }

  lemma CoreachableSwap<W>(f: Fst<W>, s: nat, t: nat)
    requires Valid(f) && 0 <= f.start && Coreachable(f, s, t)
    ensures Coreachable(f, t, s)
  {
    var p, q :| CoreachableBy(f, p, q, s, t);
    assert CoreachableBy(f, q, p, t, s);
  }

  // ---- Split states

  /** Two states with the same head, which should be one. */
  ghost predicate SplitPair(head: seq<int>, pr: (nat, nat)) {
    pr.0 < |head| && pr.1 < |head| && pr.0 != pr.1 && head[pr.0] == head[pr.1]
  }

  /** No two coreachable states have the same head. */
  ghost predicate SplitFree<W>(f: Fst<W>, head: seq<int>)
    requires Valid(f)
  {
    f.start == NO_STATE_ID || forall s, t :: Coreachable(f, s, t) ==> !SplitPair(head, (s, t))
  }

  /** Two paths on which no pair of states is split, but perhaps the last. */
  ghost predicate Unsplit<W>(f: Fst<W>, head: seq<int>, s: nat, t: nat, p: seq<nat>, q: seq<nat>)
    requires Valid(f) && s < |f.states| && t < |f.states| && IsPath(f, s, p) && IsPath(f, t, q) && |p| == |q|
    decreases |p|
  {
    p == []
    || (!SplitPair(head, (s, t))
        && Unsplit(f, head, f.states[s].arcs[p[0]].nextstate, f.states[t].arcs[q[0]].nextstate, p[1..], q[1..]))
  }

  ghost predicate FoundBy<W>(f: Fst<W>, head: seq<int>, p: seq<nat>, q: seq<nat>, s: nat, t: nat)
    requires Valid(f) && 0 <= f.start
  {
    CoreachableBy(f, p, q, s, t) && Unsplit(f, head, f.start, f.start, p, q)
  }

  /** A pair the search gets to: it does not go on from split pairs. */
  ghost predicate Found<W>(f: Fst<W>, head: seq<int>, s: nat, t: nat)
    requires Valid(f) && 0 <= f.start
    ensures Found(f, head, s, t) ==> Coreachable(f, s, t) && s < |f.states| && t < |f.states|
  {
    exists p, q :: FoundBy(f, head, p, q, s, t)
  }

  /** The split pairs the search gets to, smaller state first. */
  ghost function FoundSplits<W>(f: Fst<W>, head: seq<int>): iset<(nat, nat)>
    requires Valid(f)
  {
    iset pr: (nat, nat) | f.start != NO_STATE_ID && pr.0 <= pr.1 && Found(f, head, pr.0, pr.1) && SplitPair(head, pr)
  }

  lemma FoundStart<W>(f: Fst<W>, head: seq<int>)
    requires Valid(f) && 0 <= f.start
    ensures Found(f, head, f.start, f.start)
  {
    assert FoundBy(f, head, [], [], f.start, f.start);
  }

  lemma {:induction false} UnsplitSwap<W>(f: Fst<W>, head: seq<int>, s: nat, t: nat, p: seq<nat>, q: seq<nat>)
    requires Valid(f) && s < |f.states| && t < |f.states| && IsPath(f, s, p) && IsPath(f, t, q) && |p| == |q|
    requires Unsplit(f, head, s, t, p, q)
    ensures Unsplit(f, head, t, s, q, p)
    decreases |p|
  {
    if p != [] {
      UnsplitSwap(f, head, f.states[s].arcs[p[0]].nextstate, f.states[t].arcs[q[0]].nextstate, p[1..], q[1..]);
    }
  }

  lemma FoundSwap<W>(f: Fst<W>, head: seq<int>, s: nat, t: nat)
    requires Valid(f) && 0 <= f.start && Found(f, head, s, t)
    ensures Found(f, head, t, s)
  {
    var p, q :| FoundBy(f, head, p, q, s, t);
    UnsplitSwap(f, head, f.start, f.start, p, q);
    assert FoundBy(f, head, q, p, t, s);
  }

  lemma {:induction false} UnsplitAppend<W>(
    f: Fst<W>, head: seq<int>, s: nat, t: nat, p: seq<nat>, q: seq<nat>, i: nat, j: nat
  )
    requires Valid(f) && s < |f.states| && t < |f.states| && IsPath(f, s, p) && IsPath(f, t, q) && |p| == |q|
    requires Unsplit(f, head, s, t, p, q) && !SplitPair(head, (PathEnd(f, s, p), PathEnd(f, t, q)))
    requires i < |f.states[PathEnd(f, s, p)].arcs| && j < |f.states[PathEnd(f, t, q)].arcs|
    ensures IsPath(f, s, p + [i]) && IsPath(f, t, q + [j]) && Unsplit(f, head, s, t, p + [i], q + [j])
    decreases |p|
  {
    Append(f, s, p, i);
    Append(f, t, q, j);
    if p == [] {
      assert [i][1..] == [] && [j][1..] == [];
    } else {
      var s', t' := f.states[s].arcs[p[0]].nextstate, f.states[t].arcs[q[0]].nextstate;
      UnsplitAppend(f, head, s', t', p[1..], q[1..], i, j);
      assert (p + [i])[1..] == p[1..] + [i] && (q + [j])[1..] == q[1..] + [j];
    }
  }

  lemma FoundStep<W>(f: Fst<W>, head: seq<int>, s: nat, t: nat, i: nat, j: nat)
    requires Valid(f) && 0 <= f.start && Found(f, head, s, t) && !SplitPair(head, (s, t))
    requires i < |f.states[s].arcs| && j < |f.states[t].arcs|
    requires f.states[s].arcs[i].ilabel == f.states[t].arcs[j].ilabel
    ensures Found(f, head, f.states[s].arcs[i].nextstate, f.states[t].arcs[j].nextstate)
  {
    var p, q :| FoundBy(f, head, p, q, s, t);
    Append(f, f.start, p, i);
    Append(f, f.start, q, j);
    UnsplitAppend(f, head, f.start, f.start, p, q, i, j);
    assert FoundBy(f, head, p + [i], q + [j], f.states[s].arcs[i].nextstate, f.states[t].arcs[j].nextstate);
  }

  /** Common steps from pairs of the set lead into it, but from split pairs. */
  ghost predicate ClosedUnsplit<W>(f: Fst<W>, head: seq<int>, R: iset<(nat, nat)>) {
    forall s: nat, t: nat, i: nat, j: nat {:trigger f.states[s].arcs[i], f.states[t].arcs[j]} |
      s < |f.states| && t < |f.states| && (s, t) in R && !SplitPair(head, (s, t))
      && i < |f.states[s].arcs| && j < |f.states[t].arcs| && f.states[s].arcs[i].ilabel == f.states[t].arcs[j].ilabel ::
      (f.states[s].arcs[i].nextstate, f.states[t].arcs[j].nextstate) in R
  }

  lemma {:induction false} UnsplitWithin<W>(
    f: Fst<W>, head: seq<int>, R: iset<(nat, nat)>, s: nat, t: nat, p: seq<nat>, q: seq<nat>
  )
    requires Valid(f) && s < |f.states| && t < |f.states| && ClosedUnsplit(f, head, R) && (s, t) in R
    requires IsPath(f, s, p) && IsPath(f, t, q) && ILabels(f, s, p) == ILabels(f, t, q) && |p| == |q|
    requires Unsplit(f, head, s, t, p, q)
    ensures (PathEnd(f, s, p), PathEnd(f, t, q)) in R
    decreases |p|
  {
    if p != [] {
      SameRest(f, s, t, p, q);
      var s', t' := f.states[s].arcs[p[0]].nextstate, f.states[t].arcs[q[0]].nextstate;
      assert (s', t') in R;
      UnsplitWithin(f, head, R, s', t', p[1..], q[1..]);
    }
  }

  /** The search stays in a set of pairs that is closed in this sense. */
  lemma FoundWithin<W>(f: Fst<W>, head: seq<int>, R: iset<(nat, nat)>, s: nat, t: nat)
    requires Valid(f) && 0 <= f.start && ClosedUnsplit(f, head, R) && (f.start, f.start) in R && Found(f, head, s, t)
    ensures (s, t) in R
  {
    var p, q :| FoundBy(f, head, p, q, s, t);
    UnsplitWithin(f, head, R, f.start, f.start, p, q);
  }

  // ---- Candidates

  /** Transitions that go on alike: same label and destination, or both final. */
  ghost predicate GoAlike<W>(k: Semiring<W>, f: Fst<W>, a: ArcId, b: ArcId) {
    && a.0 < |f.states| && b.0 < |f.states|
    && if a.1 == SUPER_FINAL || b.1 == SUPER_FINAL then
         a.1 == b.1 && f.states[a.0].final != k.Zero && f.states[b.0].final != k.Zero
       else
         && 0 <= a.1 < |f.states[a.0].arcs| && 0 <= b.1 < |f.states[b.0].arcs|
         && f.states[a.0].arcs[a.1].ilabel == f.states[b.0].arcs[b.1].ilabel
         && f.states[a.0].arcs[a.1].nextstate == f.states[b.0].arcs[b.1].nextstate
  }

  /** Transitions of two states that go on alike. */
  ghost predicate Alike<W>(k: Semiring<W>, f: Fst<W>, a: ArcId, b: ArcId) {
    GoAlike(k, f, a, b) && a.0 != b.0
  }

  /** The states of a pair, smaller first. */
  function Ordered(s: nat, t: nat): (nat, nat) {
    if s <= t then (s, t) else (t, s)
  }

  /** The transition whose source has the larger head comes first. */
  function OrderedCandidate(head: seq<int>, a: ArcId, b: ArcId): (ArcId, ArcId)
    requires a.0 < |head| && b.0 < |head|
  {
    if head[a.0] > head[b.0] then (a, b) else (b, a)
  }

  ghost predicate IsCandidate<W>(k: Semiring<W>, f: Fst<W>, head: seq<int>, c: (ArcId, ArcId))
    requires Valid(f) && 0 <= f.start && |head| == |f.states|
  {
    Alike(k, f, c.0, c.1) && Coreachable(f, c.0.0, c.1.0) && head[c.0.0] > head[c.1.0]
  }

  // ---- What the search has to visit

  /** Arc i of s and arc j of t have been looked at. */
  ghost predicate ArcPairDone<W>(
    f: Fst<W>, head: seq<int>, core: set<(nat, nat)>, cands: seq<(ArcId, ArcId)>, s: nat, t: nat, i: nat, j: nat
  )
    requires s < |f.states| && t < |f.states| && |head| == |f.states|
  {
    i < |f.states[s].arcs| && j < |f.states[t].arcs| && f.states[s].arcs[i].ilabel == f.states[t].arcs[j].ilabel ==>
      && Ordered(f.states[s].arcs[i].nextstate, f.states[t].arcs[j].nextstate) in core
      && (s != t && f.states[s].arcs[i].nextstate == f.states[t].arcs[j].nextstate ==>
        OrderedCandidate(head, (s, i), (t, j)) in cands)
  }

  ghost predicate FinalsDone<W>(k: Semiring<W>, f: Fst<W>, head: seq<int>, cands: seq<(ArcId, ArcId)>, s: nat, t: nat)
    requires s < |f.states| && t < |f.states| && |head| == |f.states|
  {
    s != t && f.states[s].final != k.Zero && f.states[t].final != k.Zero ==>
      OrderedCandidate(head, (s, SUPER_FINAL), (t, SUPER_FINAL)) in cands
  }

  ghost predicate PairDone<W>(
    k: Semiring<W>, f: Fst<W>, head: seq<int>, core: set<(nat, nat)>, cands: seq<(ArcId, ArcId)>, s: nat, t: nat
  )
    requires s < |f.states| && t < |f.states| && |head| == |f.states|
  {
    && (forall i, j {:trigger ArcPairDone(f, head, core, cands, s, t, i, j)} ::
      ArcPairDone(f, head, core, cands, s, t, i, j))
    && FinalsDone(k, f, head, cands, s, t)
  }

  /** A pair that is in the set, has its heads apart, and has been worked off. */
  ghost predicate Visited<W>(
    k: Semiring<W>, f: Fst<W>, head: seq<int>, core: set<(nat, nat)>, cands: seq<(ArcId, ArcId)>, s: nat, t: nat
  )
    requires |head| == |f.states|
  {
    && s < |f.states| && t < |f.states| && (s != t ==> head[s] != head[t])
    && (PairDone(k, f, head, core, cands, s, t) || PairDone(k, f, head, core, cands, t, s))
  }

  /** The pairs are closed under common steps, with every candidate on the way recorded. */
  ghost predicate SearchComplete<W>(
    k: Semiring<W>, f: Fst<W>, head: seq<int>, core: set<(nat, nat)>, cands: seq<(ArcId, ArcId)>
  )
    requires Valid(f) && 0 <= f.start && |head| == |f.states|
  {
    && (f.start, f.start) in core
    && forall s: nat, t: nat {:trigger Ordered(s, t) in core} ::
      Ordered(s, t) in core ==> Visited(k, f, head, core, cands, s, t)
  }

  lemma VisitedArcs<W>(
    k: Semiring<W>, f: Fst<W>, head: seq<int>, core: set<(nat, nat)>, cands: seq<(ArcId, ArcId)>, s: nat, t: nat,
    i: nat, j: nat
  )
    requires |head| == |f.states| && Visited(k, f, head, core, cands, s, t)
    requires i < |f.states[s].arcs| && j < |f.states[t].arcs|
    requires f.states[s].arcs[i].ilabel == f.states[t].arcs[j].ilabel
    ensures Ordered(f.states[s].arcs[i].nextstate, f.states[t].arcs[j].nextstate) in core
    ensures s != t && f.states[s].arcs[i].nextstate == f.states[t].arcs[j].nextstate ==>
      OrderedCandidate(head, (s, i), (t, j)) in cands
  {
    assert ArcPairDone(f, head, core, cands, s, t, i, j) || ArcPairDone(f, head, core, cands, t, s, j, i);
  }

  /** Every coreachable pair is found. */
  lemma {:induction false} CoreachableFound<W>(
    k: Semiring<W>, f: Fst<W>, head: seq<int>, core: set<(nat, nat)>, cands: seq<(ArcId, ArcId)>, s: nat, t: nat,
    p: seq<nat>, q: seq<nat>
  )
    requires Valid(f) && 0 <= f.start && |head| == |f.states| && SearchComplete(k, f, head, core, cands)
    requires Ordered(s, t) in core && s < |f.states| && t < |f.states|
    requires IsPath(f, s, p) && IsPath(f, t, q) && ILabels(f, s, p) == ILabels(f, t, q)
    ensures Ordered(PathEnd(f, s, p), PathEnd(f, t, q)) in core
    decreases |p|
  {
    if p != [] {
      SameRest(f, s, t, p, q);
      VisitedArcs(k, f, head, core, cands, s, t, p[0], q[0]);
      CoreachableFound(k, f, head, core, cands, f.states[s].arcs[p[0]].nextstate, f.states[t].arcs[q[0]].nextstate,
        p[1..], q[1..]);
    }
  }

  lemma SameRest<W>(f: Fst<W>, s: nat, t: nat, p: seq<nat>, q: seq<nat>)
    requires Valid(f) && s < |f.states| && t < |f.states| && p != []
    requires IsPath(f, s, p) && IsPath(f, t, q) && ILabels(f, s, p) == ILabels(f, t, q)
    ensures q != [] && f.states[s].arcs[p[0]].ilabel == f.states[t].arcs[q[0]].ilabel
    ensures ILabels(f, f.states[s].arcs[p[0]].nextstate, p[1..]) == ILabels(f, f.states[t].arcs[q[0]].nextstate, q[1..])
  {
    var x, y := ILabels(f, s, p), ILabels(f, t, q);
    assert x[0] == y[0] && x[1..] == y[1..];
  }

  /** Exactly the candidates have been recorded. */
  lemma CandidatesFound<W>(
    k: Semiring<W>, f: Fst<W>, head: seq<int>, core: set<(nat, nat)>, cands: seq<(ArcId, ArcId)>, c: (ArcId, ArcId)
  )
    requires Valid(f) && 0 <= f.start && |head| == |f.states| && SearchComplete(k, f, head, core, cands)
    requires IsCandidate(k, f, head, c)
    ensures c in cands
  {
    var p, q :| CoreachableBy(f, p, q, c.0.0, c.1.0);
    assert Ordered(f.start, f.start) in core;
    CoreachableFound(k, f, head, core, cands, f.start, f.start, p, q);
    assert Visited(k, f, head, core, cands, c.0.0, c.1.0);
    if c.0.1 != SUPER_FINAL {
      VisitedArcs(k, f, head, core, cands, c.0.0, c.1.0, c.0.1, c.1.1);
    }
  }

  // ---- Marking

  /** A transition is marked exactly when some candidate partner with a smaller head is not. */
  ghost predicate Kernel(cands: seq<(ArcId, ArcId)>, amb: set<ArcId>) {
    && (forall c :: c in cands && c.1 !in amb ==> c.0 in amb)
    && (forall a :: a in amb ==> HasPartner(cands, amb, a))
  }

  ghost predicate HasPartner(cands: seq<(ArcId, ArcId)>, amb: set<ArcId>, a: ArcId) {
    exists c :: c in cands && c.0 == a && c.1 !in amb
  }

  ghost function MinHead(head: seq<int>): (m: int)
    ensures forall i :: 0 <= i < |head| ==> m <= head[i]
  {
    if head == [] then 0
    else
      var m := MinHead(head[..|head| - 1]);
      assert forall i :: 0 <= i < |head| - 1 ==> head[..|head| - 1][i] == head[i];
      if m <= head[|head| - 1] then m else head[|head| - 1]
  }

  /** How far the head of the source is above the lowest. */
  ghost function HeadRank(head: seq<int>, a: ArcId): nat {
    if a.0 < |head| then head[a.0] - MinHead(head) else 0
  }

  /** To be marked: some candidate partner, whose head is smaller, is not. */
  ghost predicate InKernel<W>(k: Semiring<W>, f: Fst<W>, head: seq<int>, a: ArcId)
    requires Valid(f) && 0 <= f.start && |head| == |f.states|
    decreases HeadRank(head, a)
  {
    exists b :: IsCandidate(k, f, head, (a, b)) && !InKernel(k, f, head, b)
  }

  ghost function AllArcIds<W>(f: Fst<W>): set<ArcId> {
    set s: nat, i: int | s < |f.states| && SUPER_FINAL <= i < |f.states[s].arcs| :: (s, i)
  }

  /** The transitions to be marked, out of the automaton and the heads alone. */
  ghost function KernelSet<W>(k: Semiring<W>, f: Fst<W>, head: seq<int>): set<ArcId>
    requires Valid(f) && |head| == |f.states|
  {
    if f.start == NO_STATE_ID then {} else set a | a in AllArcIds(f) && InKernel(k, f, head, a)
  }

  /** A transition is marked exactly when a candidate partner of it is not. */
  ghost predicate MarkedExactly<W>(k: Semiring<W>, f: Fst<W>, head: seq<int>, amb: set<ArcId>)
    requires Valid(f) && 0 <= f.start && |head| == |f.states|
  {
    forall a :: a in amb <==> exists b :: IsCandidate(k, f, head, (a, b)) && b !in amb
  }

  /** Candidates have falling heads, so that there is only one such set. */
  lemma {:induction false} OnlyOneKernel<W>(k: Semiring<W>, f: Fst<W>, head: seq<int>, amb: set<ArcId>, a: ArcId)
    requires Valid(f) && 0 <= f.start && |head| == |f.states| && MarkedExactly(k, f, head, amb)
    ensures a in amb <==> InKernel(k, f, head, a)
    decreases HeadRank(head, a)
  {
    forall b | IsCandidate(k, f, head, (a, b)) ensures b in amb <==> InKernel(k, f, head, b) {
      OnlyOneKernel(k, f, head, amb, b);
    }
    if a in amb {
      var b :| IsCandidate(k, f, head, (a, b)) && b !in amb;
      assert IsCandidate(k, f, head, (a, b)) && !InKernel(k, f, head, b);
    }
    if InKernel(k, f, head, a) {
      var b :| IsCandidate(k, f, head, (a, b)) && !InKernel(k, f, head, b);
      assert IsCandidate(k, f, head, (a, b)) && b !in amb;
    }
  }

  lemma KernelIsUnique<W>(k: Semiring<W>, f: Fst<W>, head: seq<int>, amb: set<ArcId>)
    requires Valid(f) && 0 <= f.start && |head| == |f.states| && MarkedExactly(k, f, head, amb)
    ensures amb == KernelSet(k, f, head)
  {
    forall a ensures a in amb <==> a in KernelSet(k, f, head) {
      OnlyOneKernel(k, f, head, amb, a);
      if a in amb {
        var b :| IsCandidate(k, f, head, (a, b)) && b !in amb;
        assert a == (a.0, a.1) && a in AllArcIds(f);
      }
    }
  }

  // ---- What survives

  /** An accepting path from s that uses no marked transition. */
  ghost predicate Survives<W>(k: Semiring<W>, f: Fst<W>, amb: set<ArcId>, s: nat, p: seq<nat>)
    requires Valid(f) && s < |f.states|
    ensures Survives(k, f, amb, s, p) ==> IsPath(f, s, p)
    decreases |p|
  {
    if p == [] then f.states[s].final != k.Zero && (s, SUPER_FINAL) !in amb
    else p[0] < |f.states[s].arcs| && (s, p[0]) !in amb && Survives(k, f, amb, f.states[s].arcs[p[0]].nextstate, p[1..])
  }

  /** Two paths that pass the same states. */
  ghost predicate SameStates<W>(f: Fst<W>, s: nat, p: seq<nat>, q: seq<nat>)
    requires Valid(f) && s < |f.states| && IsPath(f, s, p) && IsPath(f, s, q)
    decreases |p|
  {
    if p == [] then q == []
    else
      && q != [] && f.states[s].arcs[p[0]].nextstate == f.states[s].arcs[q[0]].nextstate
      && SameStates(f, f.states[s].arcs[p[0]].nextstate, p[1..], q[1..])
  }

  /** Surviving paths with the same labels pass the same states. */
  lemma {:induction false} SurvivorsPassSameStates<W>(
    k: Semiring<W>, f: Fst<W>, head: seq<int>, core: set<(nat, nat)>, cands: seq<(ArcId, ArcId)>, amb: set<ArcId>,
    s: nat, t: nat, p: seq<nat>, q: seq<nat>
  )
    requires Valid(f) && 0 <= f.start && |head| == |f.states| && SearchComplete(k, f, head, core, cands)
    requires Kernel(cands, amb)
    requires Ordered(s, t) in core && s < |f.states| && t < |f.states|
    requires Survives(k, f, amb, s, p) && Survives(k, f, amb, t, q) && ILabels(f, s, p) == ILabels(f, t, q)
    ensures s == t && SameStates(f, s, p, q)
    decreases |p|
  {
    assert Visited(k, f, head, core, cands, s, t);
    if p == [] {
      if s != t {
        assert false;
      }
    } else {
      SameRest(f, s, t, p, q);
      VisitedArcs(k, f, head, core, cands, s, t, p[0], q[0]);
      SurvivorsPassSameStates(k, f, head, core, cands, amb, f.states[s].arcs[p[0]].nextstate,
        f.states[t].arcs[q[0]].nextstate, p[1..], q[1..]);
    }
  }

  /** p takes an arc beside which its state has another unmarked one with the same label and destination. */
  ghost predicate PassesMultiArc<W>(f: Fst<W>, amb: set<ArcId>, s: nat, p: seq<nat>)
    requires Valid(f) && s < |f.states| && IsPath(f, s, p)
    decreases |p|
  {
    p != [] && ((exists j :: IsTwin(f, amb, s, p[0], j))
      || PassesMultiArc(f, amb, f.states[s].arcs[p[0]].nextstate, p[1..]))
  }

  ghost predicate IsTwin<W>(f: Fst<W>, amb: set<ArcId>, s: nat, i: nat, j: nat)
    requires s < |f.states|
  {
    && i < |f.states[s].arcs| && j < |f.states[s].arcs| && i != j && (s, j) !in amb
    && f.states[s].arcs[i].ilabel == f.states[s].arcs[j].ilabel
      && f.states[s].arcs[i].nextstate == f.states[s].arcs[j].nextstate
  }

  lemma {:induction false} DistinctPassMultiArc<W>(
    k: Semiring<W>, f: Fst<W>, amb: set<ArcId>, s: nat, p: seq<nat>, q: seq<nat>
  )
    requires Valid(f) && s < |f.states| && Survives(k, f, amb, s, p) && Survives(k, f, amb, s, q)
    requires SameStates(f, s, p, q) && ILabels(f, s, p) == ILabels(f, s, q) && p != q
    ensures PassesMultiArc(f, amb, s, p)
    decreases |p|
  {
    if p != [] {
      SameRest(f, s, s, p, q);
      if p[0] != q[0] {
        assert IsTwin(f, amb, s, p[0], q[0]);
      } else {
        ConsRest(p);
        ConsRest(q);
        DistinctPassMultiArc(k, f, amb, f.states[s].arcs[p[0]].nextstate, p[1..], q[1..]);
      }
    }
  }

  lemma {:induction false} MultiArcDoubles<W>(k: Semiring<W>, f: Fst<W>, amb: set<ArcId>, s: nat, p: seq<nat>)
    returns (q: seq<nat>)
    requires Valid(f) && s < |f.states| && Survives(k, f, amb, s, p) && PassesMultiArc(f, amb, s, p)
    ensures Survives(k, f, amb, s, q) && ILabels(f, s, q) == ILabels(f, s, p) && p != q
    decreases |p|
  {
    ConsRest(p);
    if j :| IsTwin(f, amb, s, p[0], j) {
      q := [j] + p[1..];
      DropFirst(j, p[1..]);
    } else {
      var rest := MultiArcDoubles(k, f, amb, f.states[s].arcs[p[0]].nextstate, p[1..]);
      q := [p[0]] + rest;
      DropFirst(p[0], rest);
    }
  }

  /** No two surviving paths from the start have the same labels. */
  ghost predicate UniqueSurvivors<W>(k: Semiring<W>, f: Fst<W>, amb: set<ArcId>)
    requires Valid(f) && 0 <= f.start
  {
    forall p, q | Survives(k, f, amb, f.start, p) && Survives(k, f, amb, f.start, q)
      && ILabels(f, f.start, p) == ILabels(f, f.start, q) :: p == q
  }

  ghost predicate NoMultiArcPassed<W>(k: Semiring<W>, f: Fst<W>, amb: set<ArcId>)
    requires Valid(f) && 0 <= f.start
  {
    forall p :: Survives(k, f, amb, f.start, p) ==> !PassesMultiArc(f, amb, f.start, p)
  }

  /** Marking leaves one path for each label string exactly when no surviving path passes a multiple arc. */
  lemma UniqueIffNoMultiArc<W>(
    k: Semiring<W>, f: Fst<W>, head: seq<int>, core: set<(nat, nat)>, cands: seq<(ArcId, ArcId)>, amb: set<ArcId>
  )
    requires Valid(f) && 0 <= f.start && |head| == |f.states| && SearchComplete(k, f, head, core, cands)
    requires Kernel(cands, amb)
    ensures UniqueSurvivors(k, f, amb) <==> NoMultiArcPassed(k, f, amb)
  {
    forall p, q | Survives(k, f, amb, f.start, p) && Survives(k, f, amb, f.start, q)
      && ILabels(f, f.start, p) == ILabels(f, f.start, q)
      ensures p == q || PassesMultiArc(f, amb, f.start, p)
    {
      assert Ordered(f.start, f.start) in core;
      SurvivorsPassSameStates(k, f, head, core, cands, amb, f.start, f.start, p, q);
      if p != q {
        DistinctPassMultiArc(k, f, amb, f.start, p, q);
      }
    }
    forall p | Survives(k, f, amb, f.start, p) && PassesMultiArc(f, amb, f.start, p)
      ensures !UniqueSurvivors(k, f, amb)
    {
      var q := MultiArcDoubles(k, f, amb, f.start, p);
    }
  }

  /** No state has two arcs with the same label and destination. */
  ghost predicate NoMultiArcs<W>(f: Fst<W>) {
    forall s, i, j :: 0 <= s < |f.states| && 0 <= i < j < |f.states[s].arcs| ==>
      f.states[s].arcs[i].ilabel != f.states[s].arcs[j].ilabel
        || f.states[s].arcs[i].nextstate != f.states[s].arcs[j].nextstate
  }

  lemma {:induction false} NoMultiArcsPassesNone<W>(f: Fst<W>, amb: set<ArcId>, s: nat, p: seq<nat>)
    requires Valid(f) && NoMultiArcs(f) && s < |f.states| && IsPath(f, s, p)
    ensures !PassesMultiArc(f, amb, s, p)
    decreases |p|
  {
    if p != [] {
      NoMultiArcsPassesNone(f, amb, f.states[s].arcs[p[0]].nextstate, p[1..]);
    }
  }

  // ---- Every string is kept

  /** The string leads to a state with the head of b's state that goes on like a. */
  ghost predicate FollowedBy<W>(k: Semiring<W>, f: Fst<W>, head: seq<int>, a: ArcId, b: ArcId, y: seq<int>,
                                b': ArcId, p: seq<nat>)
    requires Valid(f) && 0 <= f.start && |head| == |f.states| && b.0 < |head|
  {
    GoAlike(k, f, a, b') && b'.0 < |head| && head[b'.0] == head[b.0] && ReadsTo(f, y, p, b'.0)
  }

  ghost predicate Follows<W>(k: Semiring<W>, f: Fst<W>, head: seq<int>, a: ArcId, b: ArcId, y: seq<int>)
    requires Valid(f) && 0 <= f.start && |head| == |f.states| && b.0 < |head|
  {
    exists b', p :: FollowedBy(k, f, head, a, b, y, b', p)
  }

  /** If a is a candidate because of b, every string that leads to the state of a leads to one with the head of b's
      that goes on like a. */
  ghost predicate HeadsFollow<W>(k: Semiring<W>, f: Fst<W>, head: seq<int>)
    requires Valid(f) && 0 <= f.start && |head| == |f.states|
  {
    forall a, b, y, p {:trigger IsCandidate(k, f, head, (a, b)), ReadsTo(f, y, p, a.0)} ::
      IsCandidate(k, f, head, (a, b)) && ReadsTo(f, y, p, a.0) ==> Follows(k, f, head, a, b, y)
  }

  /** Of the transitions that go on like a where a string leads to, one is not marked. */
  lemma {:induction false} UnmarkedPartner<W>(
    k: Semiring<W>, f: Fst<W>, head: seq<int>, a: ArcId, y: seq<int>, p: seq<nat>
  ) returns (b: ArcId, q: seq<nat>)
    requires Valid(f) && 0 <= f.start && |head| == |f.states| && HeadsFollow(k, f, head)
    requires GoAlike(k, f, a, a) && ReadsTo(f, y, p, a.0)
    ensures GoAlike(k, f, a, b) && ReadsTo(f, y, q, b.0) && !InKernel(k, f, head, b)
    decreases HeadRank(head, a)
  {
    if InKernel(k, f, head, a) {
      var c :| IsCandidate(k, f, head, (a, c)) && !InKernel(k, f, head, c);
      assert Follows(k, f, head, a, c, y);
      var b', p' :| FollowedBy(k, f, head, a, c, y, b', p');
      assert GoAlike(k, f, b', b');
      b, q := UnmarkedPartner(k, f, head, b', y, p');
    } else {
      b, q := a, p;
    }
  }

  ghost predicate AllUnmarked<W>(f: Fst<W>, amb: set<ArcId>, s: nat, p: seq<nat>)
    requires Valid(f) && s < |f.states| && IsPath(f, s, p)
    decreases |p|
  {
    p == [] || ((s, p[0]) !in amb && AllUnmarked(f, amb, f.states[s].arcs[p[0]].nextstate, p[1..]))
  }

  lemma {:induction false} AppendUnmarked<W>(f: Fst<W>, amb: set<ArcId>, s: nat, p: seq<nat>, i: nat)
    requires Valid(f) && s < |f.states| && IsPath(f, s, p) && i < |f.states[PathEnd(f, s, p)].arcs|
    requires AllUnmarked(f, amb, s, p) && (PathEnd(f, s, p), i) !in amb
    ensures IsPath(f, s, p + [i]) && AllUnmarked(f, amb, s, p + [i])
    decreases |p|
  {
    Append(f, s, p, i);
    if p == [] {
      assert [i][1..] == [];
    } else {
      AppendUnmarked(f, amb, f.states[s].arcs[p[0]].nextstate, p[1..], i);
      assert (p + [i])[1..] == p[1..] + [i];
    }
  }

  lemma {:induction false} UnmarkedSurvives<W>(k: Semiring<W>, f: Fst<W>, amb: set<ArcId>, s: nat, p: seq<nat>)
    requires Valid(f) && s < |f.states| && IsPath(f, s, p) && AllUnmarked(f, amb, s, p)
    requires f.states[PathEnd(f, s, p)].final != k.Zero && (PathEnd(f, s, p), SUPER_FINAL) !in amb
    ensures Survives(k, f, amb, s, p)
    decreases |p|
  {
    if p != [] {
      UnmarkedSurvives(k, f, amb, f.states[s].arcs[p[0]].nextstate, p[1..]);
    }
  }

  /** Where a string leads to, it leads without marked transitions. */
  lemma {:induction false} UnmarkedPath<W>(
    k: Semiring<W>, f: Fst<W>, head: seq<int>, y: seq<int>, p: seq<nat>, s: nat
  ) returns (q: seq<nat>)
    requires Valid(f) && 0 <= f.start && |head| == |f.states| && HeadsFollow(k, f, head) && ReadsTo(f, y, p, s)
    ensures ReadsTo(f, y, q, s) && AllUnmarked(f, KernelSet(k, f, head), f.start, q)
    decreases |y|
  {
    if y == [] {
      q := [];
    } else {
      var init, l := y[..|y| - 1], y[|y| - 1];
      assert y == init + [l];
      var r := ReadsLast(f, init, l, p, s);
      var a: ArcId := (r, p[|p| - 1]);
      var b, p' := UnmarkedPartner(k, f, head, a, init, p[..|p| - 1]);
      var q' := UnmarkedPath(k, f, head, init, p', b.0);
      ReadsNext(f, init, l, q', b.0, b.1);
      AppendUnmarked(f, KernelSet(k, f, head), f.start, q', b.1);
      q := q' + [b.1];
    }
  }

  /** Each accepted string has an accepting path without marked transitions. */
  lemma StringSurvives<W>(k: Semiring<W>, f: Fst<W>, head: seq<int>, p: seq<nat>) returns (q: seq<nat>)
    requires Valid(f) && 0 <= f.start && |head| == |f.states| && HeadsFollow(k, f, head)
    requires Accepting(k, f, f.start, p)
    ensures Survives(k, f, KernelSet(k, f, head), f.start, q) && ILabels(f, f.start, q) == ILabels(f, f.start, p)
  {
    var s, x := PathEnd(f, f.start, p), ILabels(f, f.start, p);
    var a: ArcId := (s, SUPER_FINAL);
    var b, p' := UnmarkedPartner(k, f, head, a, x, p);
    q := UnmarkedPath(k, f, head, x, p', b.0);
    UnmarkedSurvives(k, f, KernelSet(k, f, head), f.start, q);
  }

  ghost predicate AcceptsString<W>(k: Semiring<W>, f: Fst<W>, x: seq<int>)
    requires Valid(f)
  {
    f.start != NO_STATE_ID && exists p :: Accepting(k, f, f.start, p) && ILabels(f, f.start, p) == x
  }

  ghost predicate SameStrings<W>(k: Semiring<W>, f: Fst<W>, f': Fst<W>)
    requires Valid(f) && Valid(f')
  {
    forall x :: AcceptsString(k, f, x) <==> AcceptsString(k, f', x)
  }

  /** Arcs of one state with one label lead to states with different heads. */
  ghost predicate HeadsApart<W>(f: Fst<W>, head: seq<int>) {
    forall s :: 0 <= s < |f.states| ==> ArcsApart(f.states[s].arcs, head)
  }

  ghost predicate ArcsApart<W>(arcs: seq<Arc<W>>, head: seq<int>) {
    && (forall i :: 0 <= i < |arcs| ==> arcs[i].nextstate < |head|)
    && (forall i, j :: 0 <= i < j < |arcs| && arcs[i].ilabel == arcs[j].ilabel ==>
      head[arcs[i].nextstate] != head[arcs[j].nextstate])
  }

  lemma ApartIsNoMultiArcs<W>(f: Fst<W>, head: seq<int>)
    requires HeadsApart(f, head)
    ensures NoMultiArcs(f)
  {
    forall s, i, j | 0 <= s < |f.states| && 0 <= i < j < |f.states[s].arcs|
      ensures f.states[s].arcs[i].ilabel != f.states[s].arcs[j].ilabel
        || f.states[s].arcs[i].nextstate != f.states[s].arcs[j].nextstate
    {
      assert ArcsApart(f.states[s].arcs, head);
    }
  }

  // ---- After the removal

  /** f' is f with the marked arcs led into a new dead state and the marked final weights gone. */
  ghost predicate Redirected<W>(k: Semiring<W>, f: Fst<W>, amb: set<ArcId>, f': Fst<W>) {
    && Valid(f) && f'.start == f.start && |f'.states| == |f.states| + 1 && f'.states[|f.states|] == State(k.Zero, [])
    && forall s :: 0 <= s < |f.states| ==> StateRedirected(k, f, amb, f', s)
  }

  ghost predicate StateRedirected<W>(k: Semiring<W>, f: Fst<W>, amb: set<ArcId>, f': Fst<W>, s: nat)
    requires s < |f.states| && s < |f'.states|
  {
    && f'.states[s].final == (if (s, SUPER_FINAL) in amb then k.Zero else f.states[s].final)
    && |f'.states[s].arcs| == |f.states[s].arcs|
    && forall i :: 0 <= i < |f.states[s].arcs| ==>
      f'.states[s].arcs[i] ==
        if (s, i) in amb then f.states[s].arcs[i].(nextstate := |f.states|) else f.states[s].arcs[i]
  }

  lemma RedirectedValid<W>(k: Semiring<W>, f: Fst<W>, amb: set<ArcId>, f': Fst<W>)
    requires Redirected(k, f, amb, f')
    ensures Valid(f')
  {
    forall s | 0 <= s < |f'.states| ensures ValidArcs(f'.states[s].arcs, |f'.states|) {
      if s < |f.states| {
        assert StateRedirected(k, f, amb, f', s);
      }
    }
  }

  /** The accepting paths that are left are the surviving ones, labels unchanged. */
  lemma {:induction false} AcceptingIffSurvives<W>(
    k: Semiring<W>, f: Fst<W>, amb: set<ArcId>, f': Fst<W>, s: nat, p: seq<nat>
  )
    requires Redirected(k, f, amb, f') && Valid(f') && s < |f.states|
    ensures Accepting(k, f', s, p) <==> Survives(k, f, amb, s, p)
    ensures Accepting(k, f', s, p) ==>
      ILabels(f', s, p) == ILabels(f, s, p) && PathWeight(k, f', s, p) == PathWeight(k, f, s, p)
    decreases |p|
  {
    assert StateRedirected(k, f, amb, f', s);
    if p != [] && p[0] < |f.states[s].arcs| {
      if (s, p[0]) in amb {
        DeadEnd(k, f, amb, f', p[1..]);
      } else {
        AcceptingIffSurvives(k, f, amb, f', f.states[s].arcs[p[0]].nextstate, p[1..]);
      }
    }
  }

  lemma DeadEnd<W>(k: Semiring<W>, f: Fst<W>, amb: set<ArcId>, f': Fst<W>, p: seq<nat>)
    requires Redirected(k, f, amb, f') && Valid(f')
    ensures !Accepting(k, f', |f.states|, p)
  {
  }

  /** No two distinct accepting paths have the same input labels. */
  ghost predicate Unambiguous<W>(k: Semiring<W>, f: Fst<W>)
    requires Valid(f)
  {
    f.start != NO_STATE_ID ==> forall p, q | Accepting(k, f, f.start, p) && Accepting(k, f, f.start, q)
      && ILabels(f, f.start, p) == ILabels(f, f.start, q) :: p == q
  }

  lemma RedirectedUnambiguous<W>(k: Semiring<W>, f: Fst<W>, amb: set<ArcId>, f': Fst<W>)
    requires Redirected(k, f, amb, f') && Valid(f') && 0 <= f.start
    ensures Unambiguous(k, f') <==> UniqueSurvivors(k, f, amb)
  {
    forall p ensures Accepting(k, f', f'.start, p) <==> Survives(k, f, amb, f.start, p)
      ensures Accepting(k, f', f'.start, p) ==> ILabels(f', f'.start, p) == ILabels(f, f.start, p)
    {
      AcceptingIffSurvives(k, f, amb, f', f.start, p);
    }
    if UniqueSurvivors(k, f, amb) {
      forall p, q | Accepting(k, f', f'.start, p) && Accepting(k, f', f'.start, q)
        && ILabels(f', f'.start, p) == ILabels(f', f'.start, q)
        ensures p == q
      {
        assert Survives(k, f, amb, f.start, p) && Survives(k, f, amb, f.start, q);
      }
    }
    if Unambiguous(k, f') {
      forall p, q | Survives(k, f, amb, f.start, p) && Survives(k, f, amb, f.start, q)
        && ILabels(f, f.start, p) == ILabels(f, f.start, q)
        ensures p == q
      {
        assert Accepting(k, f', f'.start, p) && Accepting(k, f', f'.start, q);
      }
    }
  }

  lemma RedirectedStrings<W>(k: Semiring<W>, f: Fst<W>, head: seq<int>, f': Fst<W>)
    requires Valid(f) && 0 <= f.start && |head| == |f.states| && HeadsFollow(k, f, head)
    requires Redirected(k, f, KernelSet(k, f, head), f') && Valid(f')
    ensures SameStrings(k, f, f')
  {
    var amb := KernelSet(k, f, head);
    forall x ensures AcceptsString(k, f, x) <==> AcceptsString(k, f', x) {
      if p :| Accepting(k, f, f.start, p) && ILabels(f, f.start, p) == x {
        var q := StringSurvives(k, f, head, p);
        AcceptingIffSurvives(k, f, amb, f', f.start, q);
      }
      if p :| Accepting(k, f', f'.start, p) && ILabels(f', f'.start, p) == x {
        AcceptingIffSurvives(k, f, amb, f', f.start, p);
        SurvivorAccepts(k, f, amb, f.start, p);
      }
    }
  }

  lemma {:induction false} SurvivorAccepts<W>(k: Semiring<W>, f: Fst<W>, amb: set<ArcId>, s: nat, p: seq<nat>)
    requires Valid(f) && s < |f.states| && Survives(k, f, amb, s, p)
    ensures Accepting(k, f, s, p)
    decreases |p|
  {
    if p != [] {
      SurvivorAccepts(k, f, amb, f.states[s].arcs[p[0]].nextstate, p[1..]);
    }
  }

  lemma TrimmedStrings<W>(k: Semiring<W>, f: Fst<W>, f': Fst<W>)
    requires Trimmed(k, f, f') && 0 <= f.start
    ensures Valid(f') && SameStrings(k, f, f')
  {
    var keep :| Useful(k, f, keep) && Restricted(f, keep, f');
    TrimmedKeepsPaths(k, f, f', keep);
    forall x ensures AcceptsString(k, f, x) <==> AcceptsString(k, f', x) {
      if p :| Accepting(k, f, f.start, p) && ILabels(f, f.start, p) == x {
        assert Accepting(k, f', f'.start, Shift(f, f.start, p, keep));
      }
      if f'.start != NO_STATE_ID {
        if p :| Accepting(k, f', f'.start, p) && ILabels(f', f'.start, p) == x {
          var q :| Accepting(k, f, f.start, q) && Through(f, f.start, q, keep) && Shift(f, f.start, q, keep) == p;
        }
      }
    }
  }

  /** With nothing marked, surviving is accepting. */
  lemma {:induction false} AllSurvive<W>(k: Semiring<W>, f: Fst<W>, s: nat, p: seq<nat>)
    requires Valid(f) && s < |f.states|
    ensures Survives(k, f, {}, s, p) <==> Accepting(k, f, s, p)
    decreases |p|
  {
    if p != [] && p[0] < |f.states[s].arcs| {
      AllSurvive(k, f, f.states[s].arcs[p[0]].nextstate, p[1..]);
    }
  }

  /** Trimming neither adds nor removes ambiguity. */
  lemma TrimmedUnambiguous<W>(k: Semiring<W>, f: Fst<W>, f': Fst<W>)
    requires Trimmed(k, f, f') && 0 <= f.start
    ensures Valid(f') && (Unambiguous(k, f') <==> Unambiguous(k, f))
  {
    var keep :| Useful(k, f, keep) && Restricted(f, keep, f');
    TrimmedKeepsPaths(k, f, f', keep);
    if Unambiguous(k, f) && f'.start != NO_STATE_ID {
      forall p, q | Accepting(k, f', f'.start, p) && Accepting(k, f', f'.start, q)
        && ILabels(f', f'.start, p) == ILabels(f', f'.start, q)
        ensures p == q
      {
        var p' :| Accepting(k, f, f.start, p') && Through(f, f.start, p', keep) && Shift(f, f.start, p', keep) == p;
        var q' :| Accepting(k, f, f.start, q') && Through(f, f.start, q', keep) && Shift(f, f.start, q', keep) == q;
      }
    }
    if Unambiguous(k, f') {
      forall p, q | Accepting(k, f, f.start, p) && Accepting(k, f, f.start, q)
        && ILabels(f, f.start, p) == ILabels(f, f.start, q)
        ensures p == q
      {
        assert Accepting(k, f', f'.start, Shift(f, f.start, p, keep))
          && Accepting(k, f', f'.start, Shift(f, f.start, q, keep));
      }
    }
  }
}
