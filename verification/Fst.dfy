/** Finite-state transducers as values, and their paths as sequences of arc positions. */
module Fsts {
  import opened Semirings

  const NO_STATE_ID := -1
  const NO_LABEL := -1
  const EPSILON := 0

  datatype Option<+T> = None | Some(value: T)

  datatype Arc<+W> = Arc(ilabel: int, olabel: int, weight: W, nextstate: nat)

  datatype State<+W> = State(final: W, arcs: seq<Arc<W>>)

  /** start is NO_STATE_ID when there is no start state. */
  datatype Fst<+W> = Fst(start: int, states: seq<State<W>>)

  ghost predicate ValidArcs<W>(arcs: seq<Arc<W>>, n: nat) {
    forall i :: 0 <= i < |arcs| ==> arcs[i].nextstate < n && 0 <= arcs[i].ilabel && 0 <= arcs[i].olabel
  }

  /** State ids are dense, arcs stay inside, and labels are non-negative (NO_LABEL is reserved). */
  ghost predicate Valid<W>(f: Fst<W>) {
    && (f.start == NO_STATE_ID || 0 <= f.start < |f.states|)
    && forall s :: 0 <= s < |f.states| ==> ValidArcs(f.states[s].arcs, |f.states|)
  }

  /** No state has two arcs with the same label. */
  ghost predicate Deterministic<W>(f: Fst<W>) {
    forall s, i, j :: 0 <= s < |f.states| && 0 <= i < j < |f.states[s].arcs| ==>
      f.states[s].arcs[i].ilabel != f.states[s].arcs[j].ilabel
  }

  /** p lists arc positions that can be followed one after another from s. */
  ghost predicate IsPath<W>(f: Fst<W>, s: nat, p: seq<nat>)
    requires Valid(f) && s < |f.states|
    decreases |p|
  {
    p == [] || (p[0] < |f.states[s].arcs| && IsPath(f, f.states[s].arcs[p[0]].nextstate, p[1..]))
  }

  ghost function PathEnd<W>(f: Fst<W>, s: nat, p: seq<nat>): (e: nat)
    requires Valid(f) && s < |f.states| && IsPath(f, s, p)
    ensures e < |f.states|
    decreases |p|
  {
    if p == [] then s else PathEnd(f, f.states[s].arcs[p[0]].nextstate, p[1..])
  }

  ghost function ILabels<W>(f: Fst<W>, s: nat, p: seq<nat>): (x: seq<int>)
    requires Valid(f) && s < |f.states| && IsPath(f, s, p)
    ensures |x| == |p|
    decreases |p|
  {
    if p == [] then []
    else var arc := f.states[s].arcs[p[0]]; [arc.ilabel] + ILabels(f, arc.nextstate, p[1..])
  }

  ghost function OLabels<W>(f: Fst<W>, s: nat, p: seq<nat>): (x: seq<int>)
    requires Valid(f) && s < |f.states| && IsPath(f, s, p)
    ensures |x| == |p|
    decreases |p|
  {
    if p == [] then []
    else var arc := f.states[s].arcs[p[0]]; [arc.olabel] + OLabels(f, arc.nextstate, p[1..])
  }

  /** The product of the arc weights along the path and the final weight of its last state. */
  ghost function PathWeight<W>(k: Semiring<W>, f: Fst<W>, s: nat, p: seq<nat>): W
    requires Valid(f) && s < |f.states| && IsPath(f, s, p)
    decreases |p|
  {
    if p == [] then f.states[s].final
    else var arc := f.states[s].arcs[p[0]]; k.Times(arc.weight, PathWeight(k, f, arc.nextstate, p[1..]))
  }

  /** A path from s that ends in a final state. */
  ghost predicate Accepting<W>(k: Semiring<W>, f: Fst<W>, s: nat, p: seq<nat>)
    requires Valid(f) && s < |f.states|
  {
    IsPath(f, s, p) && f.states[PathEnd(f, s, p)].final != k.Zero
  }

  /** The label string with epsilons erased. */
  ghost function Erase(x: seq<int>): seq<int> {
    if x == [] then [] else if x[0] == EPSILON then Erase(x[1..]) else [x[0]] + Erase(x[1..])
  }

  /** Following arc i and then q is the path [i] + q. */
  lemma Prepend<W>(k: Semiring<W>, f: Fst<W>, s: nat, i: nat, q: seq<nat>)
    requires Valid(f) && s < |f.states| && i < |f.states[s].arcs| && IsPath(f, f.states[s].arcs[i].nextstate, q)
    ensures var arc := f.states[s].arcs[i]; var p := [i] + q;
            && IsPath(f, s, p) && PathEnd(f, s, p) == PathEnd(f, arc.nextstate, q)
            && ILabels(f, s, p) == [arc.ilabel] + ILabels(f, arc.nextstate, q)
            && OLabels(f, s, p) == [arc.olabel] + OLabels(f, arc.nextstate, q)
            && PathWeight(k, f, s, p) == k.Times(arc.weight, PathWeight(k, f, arc.nextstate, q))
            && (Accepting(k, f, s, p) <==> Accepting(k, f, arc.nextstate, q))
  {
    assert ([i] + q)[1..] == q;
  }

  /** Following a path and then one more arc. */
  lemma {:induction false} Append<W>(f: Fst<W>, s: nat, p: seq<nat>, i: nat)
    requires Valid(f) && s < |f.states| && IsPath(f, s, p) && i < |f.states[PathEnd(f, s, p)].arcs|
    ensures var arc := f.states[PathEnd(f, s, p)].arcs[i];
            && IsPath(f, s, p + [i]) && PathEnd(f, s, p + [i]) == arc.nextstate
            && ILabels(f, s, p + [i]) == ILabels(f, s, p) + [arc.ilabel]
    decreases |p|
  {
    if p == [] {
      assert [i][1..] == [];
    } else {
      Append(f, f.states[s].arcs[p[0]].nextstate, p[1..], i);
      assert (p + [i])[1..] == p[1..] + [i];
    }
  }

  // ---- Paths that read a string

  /** p reads x from the start and ends in q. */
  ghost predicate ReadsTo<W>(f: Fst<W>, x: seq<int>, p: seq<nat>, q: nat)
    requires Valid(f) && 0 <= f.start
  {
    IsPath(f, f.start, p) && ILabels(f, f.start, p) == x && PathEnd(f, f.start, p) == q
  }

  /** A path is its first arcs and then the last. */
  lemma {:induction false} SplitLast<W>(f: Fst<W>, s: nat, p: seq<nat>)
    requires Valid(f) && s < |f.states| && IsPath(f, s, p) && p != []
    ensures var init, i := p[..|p| - 1], p[|p| - 1];
      && IsPath(f, s, init) && i < |f.states[PathEnd(f, s, init)].arcs|
      && PathEnd(f, s, p) == f.states[PathEnd(f, s, init)].arcs[i].nextstate
      && ILabels(f, s, p) == ILabels(f, s, init) + [f.states[PathEnd(f, s, init)].arcs[i].ilabel]
    decreases |p|
  {
    if |p| > 1 {
      SplitLast(f, f.states[s].arcs[p[0]].nextstate, p[1..]);
      assert p[..|p| - 1][1..] == p[1..][..|p| - 2];
    } else {
      assert p == [p[0]] && p[1..] == [];
    }
  }

  /** Reading one more label. */
  lemma ReadsNext<W>(f: Fst<W>, x: seq<int>, l: int, p: seq<nat>, q: nat, i: nat)
    requires Valid(f) && 0 <= f.start && ReadsTo(f, x, p, q)
    requires i < |f.states[q].arcs| && f.states[q].arcs[i].ilabel == l
    ensures ReadsTo(f, x + [l], p + [i], f.states[q].arcs[i].nextstate)
  {
    Append(f, f.start, p, i);
  }

  lemma ReadsLast<W>(f: Fst<W>, x: seq<int>, l: int, p: seq<nat>, q: nat) returns (r: nat)
    requires Valid(f) && 0 <= f.start && ReadsTo(f, x + [l], p, q)
    ensures p != [] && ReadsTo(f, x, p[..|p| - 1], r) && p[|p| - 1] < |f.states[r].arcs|
    ensures var arc := f.states[r].arcs[p[|p| - 1]]; arc.ilabel == l && arc.nextstate == q
  {
    SplitLast(f, f.start, p);
    r := PathEnd(f, f.start, p[..|p| - 1]);
    var y := ILabels(f, f.start, p[..|p| - 1]);
    assert (x + [l])[..|x|] == x && (y + [f.states[r].arcs[p[|p| - 1]].ilabel])[..|y|] == y;
  }

  lemma EraseCons(l: int, x: seq<int>)
    ensures Erase([l] + x) == if l == EPSILON then Erase(x) else [l] + Erase(x)
  {
    assert ([l] + x)[1..] == x;
  }
}
