/** Equivalence of deterministic acceptors by merging states that must agree. */
module Equivalents {
  import opened Semirings
  import opened Fsts
  import opened UnionFinds
  import opened Sequences

  // The implicit non-final dead state.
  const DEAD := 0

  /** The label string is accepted from s along arcs that are not Zero. */
  ghost predicate AcceptsFrom<W>(k: Semiring<W>, f: Fst<W>, s: nat, x: seq<int>)
    requires Valid(f) && s < |f.states|
    decreases x
  {
    if x == [] then f.states[s].final != k.Zero
    else exists i :: 0 <= i < |f.states[s].arcs| && TakesArc(k, f, s, x, i)
  }

  ghost predicate TakesArc<W>(k: Semiring<W>, f: Fst<W>, s: nat, x: seq<int>, i: nat)
    requires Valid(f) && s < |f.states| && x != [] && i < |f.states[s].arcs|
    decreases x, 0
  {
    var arc := f.states[s].arcs[i];
    arc.weight != k.Zero && arc.ilabel == x[0] && AcceptsFrom(k, f, arc.nextstate, x[1..])
  }

  ghost predicate Accepts<W>(k: Semiring<W>, f: Fst<W>, x: seq<int>)
    requires Valid(f)
  {
    f.start != NO_STATE_ID && AcceptsFrom(k, f, f.start, x)
  }

  // ---- Both acceptors in one numbering

  /** States of the first acceptor become odd, those of the second even, no state becomes DEAD. */
  function MapState(s: int, which: int): (m: nat)
    requires s >= NO_STATE_ID && 1 <= which <= 2
    ensures m == DEAD <==> s == NO_STATE_ID
    ensures s != NO_STATE_ID ==> UnMapState(m) == s && m % 2 == which % 2
  {
    if s == NO_STATE_ID then DEAD else 2 * s + which
  }

  function UnMapState(m: nat): int {
    (m - 1) / 2
  }

  /** m is DEAD or stands for a state of the acceptor. */
  predicate Mapped<W>(f: Fst<W>, which: int, m: nat) {
    m == DEAD || (m % 2 == which % 2 && 0 <= UnMapState(m) < |f.states|)
  }

  predicate IsFinal<W(==)>(k: Semiring<W>, f: Fst<W>, which: int, m: nat)
    requires Mapped(f, which, m)
  {
    m != DEAD && f.states[UnMapState(m)].final != k.Zero
  }

  /** What a numbered state accepts; DEAD accepts nothing. */
  ghost predicate MappedAccepts<W>(k: Semiring<W>, f: Fst<W>, which: int, m: nat, x: seq<int>)
    requires Valid(f) && Mapped(f, which, m)
  {
    m != DEAD && AcceptsFrom(k, f, UnMapState(m), x)
  }

  /** What any number accepts in the acceptor it belongs to. */
  ghost predicate Acc<W>(k: Semiring<W>, f1: Fst<W>, f2: Fst<W>, m: nat, x: seq<int>)
    requires Valid(f1) && Valid(f2)
  {
    (Mapped(f1, 1, m) && MappedAccepts(k, f1, 1, m, x)) || (Mapped(f2, 2, m) && MappedAccepts(k, f2, 2, m, x))
  }

  /** Where a label leads, DEAD if nowhere. */
  ghost function Delta<W>(k: Semiring<W>, f: Fst<W>, which: int, m: nat, l: int): (t: nat)
    requires Valid(f) && Mapped(f, which, m) && 1 <= which <= 2
    ensures Mapped(f, which, t)
  {
    if m == DEAD then DEAD else DeltaArcs(k, f, which, f.states[UnMapState(m)].arcs, l)
  }

  /** The last arc that is not Zero and has the label. */
  ghost function DeltaArcs<W>(k: Semiring<W>, f: Fst<W>, which: int, arcs: seq<Arc<W>>, l: int): (t: nat)
    requires ValidArcs(arcs, |f.states|) && 1 <= which <= 2
    ensures Mapped(f, which, t)
  {
    if arcs == [] then DEAD
    else
      var last := arcs[|arcs| - 1];
      if last.weight != k.Zero && last.ilabel == l then MapState(last.nextstate, which)
      else DeltaArcs(k, f, which, arcs[..|arcs| - 1], l)
  }

  lemma {:induction false} DeltaArcsIs<W>(k: Semiring<W>, f: Fst<W>, which: int, arcs: seq<Arc<W>>, l: int)
    requires ValidArcs(arcs, |f.states|) && 1 <= which <= 2
    requires forall i, j :: 0 <= i < j < |arcs| ==> arcs[i].ilabel != arcs[j].ilabel
    ensures forall i :: 0 <= i < |arcs| && arcs[i].weight != k.Zero && arcs[i].ilabel == l ==>
      DeltaArcs(k, f, which, arcs, l) == MapState(arcs[i].nextstate, which)
    ensures DeltaArcs(k, f, which, arcs, l) != DEAD ==>
      exists i :: 0 <= i < |arcs| && arcs[i].weight != k.Zero && arcs[i].ilabel == l
  {
    if arcs != [] {
      var init := arcs[..|arcs| - 1];
      DeltaArcsIs(k, f, which, init, l);
      if DeltaArcs(k, f, which, arcs, l) != DEAD
        && !(arcs[|arcs| - 1].weight != k.Zero && arcs[|arcs| - 1].ilabel == l) {
        var i :| 0 <= i < |init| && init[i].weight != k.Zero && init[i].ilabel == l;
        assert arcs[i] == init[i];
      }
      forall i | 0 <= i < |arcs| && arcs[i].weight != k.Zero && arcs[i].ilabel == l
        ensures DeltaArcs(k, f, which, arcs, l) == MapState(arcs[i].nextstate, which)
      {
        if i < |arcs| - 1 {
          assert init[i] == arcs[i];
        }
      }
    }
  }

  /** In a deterministic acceptor a string is accepted along the transition function. */
  lemma AcceptsDelta<W>(k: Semiring<W>, f: Fst<W>, which: int, m: nat, x: seq<int>)
    requires Valid(f) && Deterministic(f) && 1 <= which <= 2 && Mapped(f, which, m) && x != []
    ensures MappedAccepts(k, f, which, m, x) <==> MappedAccepts(k, f, which, Delta(k, f, which, m, x[0]), x[1..])
  {
    if m != DEAD {
      var s := UnMapState(m);
      var arcs := f.states[s].arcs;
      DeltaArcsIs(k, f, which, arcs, x[0]);
      if MappedAccepts(k, f, which, m, x) {
        assert AcceptsFrom(k, f, s, x);
        assert exists i :: 0 <= i < |f.states[s].arcs| && TakesArc(k, f, s, x, i);
        var i :| 0 <= i < |f.states[s].arcs| && TakesArc(k, f, s, x, i);
      }
      if Delta(k, f, which, m, x[0]) != DEAD {
        var i :| 0 <= i < |arcs| && arcs[i].weight != k.Zero && arcs[i].ilabel == x[0];
        assert TakesArc(k, f, s, x, i) <==> MappedAccepts(k, f, which, Delta(k, f, which, m, x[0]), x[1..]);
      }
    }
  }

  /** Where a string leads. */
  ghost function Run<W>(k: Semiring<W>, f: Fst<W>, which: int, m: nat, x: seq<int>): (t: nat)
    requires Valid(f) && Mapped(f, which, m) && 1 <= which <= 2
    ensures Mapped(f, which, t)
    decreases x
  {
    if x == [] then m else Run(k, f, which, Delta(k, f, which, m, x[0]), x[1..])
  }

  lemma {:induction false} RunAppend<W>(k: Semiring<W>, f: Fst<W>, which: int, m: nat, x: seq<int>, l: int)
    requires Valid(f) && Mapped(f, which, m) && 1 <= which <= 2
    ensures Run(k, f, which, m, x + [l]) == Delta(k, f, which, Run(k, f, which, m, x), l)
    decreases x
  {
    if x == [] {
      assert [l][1..] == [];
    } else {
      assert (x + [l])[1..] == x[1..] + [l];
      RunAppend(k, f, which, Delta(k, f, which, m, x[0]), x[1..], l);
    }
  }

  lemma {:induction false} RunAccepts<W>(k: Semiring<W>, f: Fst<W>, which: int, m: nat, x: seq<int>)
    requires Valid(f) && Deterministic(f) && Mapped(f, which, m) && 1 <= which <= 2
    ensures MappedAccepts(k, f, which, m, x) <==> IsFinal(k, f, which, Run(k, f, which, m, x))
    decreases x
  {
    if x != [] {
      AcceptsDelta(k, f, which, m, x);
      RunAccepts(k, f, which, Delta(k, f, which, m, x[0]), x[1..]);
    }
  }

  // ---- The algorithm's state

  /** A pair of numbered states, of the first and the second acceptor. */
  ghost predicate MappedPair<W>(f1: Fst<W>, f2: Fst<W>, p: (nat, nat)) {
    Mapped(f1, 1, p.0) && Mapped(f2, 2, p.1)
  }

  ghost function StartPair<W>(f1: Fst<W>, f2: Fst<W>): (p: (nat, nat))
    requires Valid(f1) && Valid(f2)
    ensures MappedPair(f1, f2, p)
  {
    (MapState(f1.start, 1), MapState(f2.start, 2))
  }

  ghost function Deltas<W>(k: Semiring<W>, f1: Fst<W>, f2: Fst<W>, p: (nat, nat), l: int): (d: (nat, nat))
    requires Valid(f1) && Valid(f2) && MappedPair(f1, f2, p)
    ensures MappedPair(f1, f2, d)
  {
    (Delta(k, f1, 1, p.0, l), Delta(k, f2, 2, p.1, l))
  }

  /** The pair is reached from the start states by the string. */
  ghost predicate ReachedBy<W>(k: Semiring<W>, f1: Fst<W>, f2: Fst<W>, p: (nat, nat), x: seq<int>)
    requires Valid(f1) && Valid(f2)
  {
    p == (Run(k, f1, 1, MapState(f1.start, 1), x), Run(k, f2, 2, MapState(f2.start, 2), x))
  }

  ghost predicate ReachedPair<W>(k: Semiring<W>, f1: Fst<W>, f2: Fst<W>, p: (nat, nat))
    requires Valid(f1) && Valid(f2)
    ensures ReachedPair(k, f1, f2, p) ==> MappedPair(f1, f2, p)
  {
    exists x :: ReachedBy(k, f1, f2, p, x)
  }

  ghost predicate FinalsAgree<W>(k: Semiring<W>, f1: Fst<W>, f2: Fst<W>, p: (nat, nat))
    requires MappedPair(f1, f2, p)
  {
    IsFinal(k, f1, 1, p.0) <==> IsFinal(k, f2, 2, p.1)
  }

  /** A pair as the queue and the classes may hold it: reached, and agreeing on finality. */
  ghost predicate GoodPair<W>(k: Semiring<W>, f1: Fst<W>, f2: Fst<W>, p: (nat, nat))
    requires Valid(f1) && Valid(f2)
  {
    ReachedPair(k, f1, f2, p) && FinalsAgree(k, f1, f2, p)
  }

  ghost predicate GoodPairs<W>(k: Semiring<W>, f1: Fst<W>, f2: Fst<W>, q: seq<(nat, nat)>)
    requires Valid(f1) && Valid(f2)
  {
    forall p :: p in q ==> GoodPair(k, f1, f2, p)
  }

  /** Some string leads to states of which just one is final. */
  ghost predicate Distinguished<W>(k: Semiring<W>, f1: Fst<W>, f2: Fst<W>)
    requires Valid(f1) && Valid(f2)
  {
    exists p :: ReachedPair(k, f1, f2, p) && !FinalsAgree(k, f1, f2, p)
  }

  lemma StartIsReached<W>(k: Semiring<W>, f1: Fst<W>, f2: Fst<W>)
    requires Valid(f1) && Valid(f2)
    ensures ReachedPair(k, f1, f2, StartPair(f1, f2))
  {
    assert ReachedBy(k, f1, f2, StartPair(f1, f2), []);
  }

  lemma SuccessorIsReached<W>(k: Semiring<W>, f1: Fst<W>, f2: Fst<W>, p: (nat, nat), l: int)
    requires Valid(f1) && Valid(f2) && ReachedPair(k, f1, f2, p)
    ensures ReachedPair(k, f1, f2, Deltas(k, f1, f2, p, l))
  {
    var x :| ReachedBy(k, f1, f2, p, x);
    RunAppend(k, f1, 1, MapState(f1.start, 1), x, l);
    RunAppend(k, f2, 2, MapState(f2.start, 2), x, l);
    assert ReachedBy(k, f1, f2, Deltas(k, f1, f2, p, l), x + [l]);
  }

  /** In the same class, or waiting in the queue. */
  ghost predicate Handled(f: Forest, q: seq<(nat, nat)>, p: (nat, nat))
    requires ValidForest(f)
  {
    SameClass(f, p.0, p.1) || p in q
  }

  /** The successors of every merged pair are handled. */
  ghost predicate SuccessorsHandled<W>(
    k: Semiring<W>, f1: Fst<W>, f2: Fst<W>, f: Forest, q: seq<(nat, nat)>, merged: seq<(nat, nat)>
  )
    requires Valid(f1) && Valid(f2) && ValidForest(f)
  {
    forall p, l {:trigger Deltas(k, f1, f2, p, l)} :: p in merged && MappedPair(f1, f2, p) ==>
      Handled(f, q, Deltas(k, f1, f2, p, l))
  }

  /** Both numbers accept the string, or neither does. */
  ghost predicate Agree<W>(k: Semiring<W>, f1: Fst<W>, f2: Fst<W>, a: nat, b: nat, x: seq<int>)
    requires Valid(f1) && Valid(f2)
  {
    Acc(k, f1, f2, a, x) <==> Acc(k, f1, f2, b, x)
  }

  /** A string on which the two states of every merged pair agree. */
  ghost predicate AgreeOn<W>(k: Semiring<W>, f1: Fst<W>, f2: Fst<W>, merged: seq<(nat, nat)>, x: seq<int>)
    requires Valid(f1) && Valid(f2)
  {
    forall p :: p in merged ==> Agree(k, f1, f2, p.0, p.1, x)
  }

  ghost predicate ClassesAgree<W>(k: Semiring<W>, f1: Fst<W>, f2: Fst<W>, f: Forest, x: seq<int>)
    requires Valid(f1) && Valid(f2) && ValidForest(f)
  {
    forall a: nat, b: nat {:trigger SameClass(f, a, b)} :: SameClass(f, a, b) ==> Agree(k, f1, f2, a, b, x)
  }

  /** The classes are generated by the merged pairs: what all of these agree on, every class agrees on. */
  ghost predicate Generated<W>(k: Semiring<W>, f1: Fst<W>, f2: Fst<W>, f: Forest, merged: seq<(nat, nat)>)
    requires Valid(f1) && Valid(f2) && ValidForest(f)
  {
    forall x {:trigger AgreeOn(k, f1, f2, merged, x)} :: AgreeOn(k, f1, f2, merged, x) ==> ClassesAgree(k, f1, f2, f, x)
  }

  lemma SameSetsGenerated<W>(k: Semiring<W>, f1: Fst<W>, f2: Fst<W>, f: Forest, f': Forest, merged: seq<(nat, nat)>)
    requires Valid(f1) && Valid(f2) && ValidForest(f) && Generated(k, f1, f2, f, merged) && SameSets(f, f')
    ensures Generated(k, f1, f2, f', merged)
  {
    forall x | AgreeOn(k, f1, f2, merged, x) ensures ClassesAgree(k, f1, f2, f', x) {
      assert ClassesAgree(k, f1, f2, f, x);
      forall a: nat, b: nat | SameClass(f', a, b) ensures Agree(k, f1, f2, a, b, x) {
        assert SameClass(f, a, b);
      }
    }
  }

  lemma MergedClass(f: Forest, f': Forest, p: (nat, nat), a: nat)
    requires ValidForest(f) && Merged(f, f', Rep(f, p.0), Rep(f, p.1))
    ensures Rep(f', a) == (if Rep(f, a) == Rep(f, p.0) || Rep(f, a) == Rep(f, p.1) then Rep(f', p.0) else Rep(f, a))
    ensures Rep(f', p.0) == Rep(f', p.1) && (Rep(f', p.0) == Rep(f, p.0) || Rep(f', p.0) == Rep(f, p.1))
  {
    assert Rep(f', a) == Rep(f', a) && Rep(f', p.0) == Rep(f', p.0) && Rep(f', p.1) == Rep(f', p.1);
  }

  /** Numbers that are in one class after a merge were in one class, or in the two classes of the pair. */
  lemma MergedAgree<W>(
    k: Semiring<W>, f1: Fst<W>, f2: Fst<W>, f: Forest, f': Forest, p: (nat, nat), x: seq<int>, a: nat, b: nat
  )
    requires Valid(f1) && Valid(f2) && ValidForest(f) && Merged(f, f', Rep(f, p.0), Rep(f, p.1))
    requires ClassesAgree(k, f1, f2, f, x) && Agree(k, f1, f2, p.0, p.1, x) && SameClass(f', a, b)
    ensures Agree(k, f1, f2, a, b, x)
  {
    MergedClass(f, f', p, a);
    MergedClass(f, f', p, b);
    assert SameClass(f, a, b)
      || ((SameClass(f, a, p.0) || SameClass(f, a, p.1)) && (SameClass(f, b, p.0) || SameClass(f, b, p.1)));
  }

  /** Merging the classes of a pair keeps them generated. */
  lemma MergeGenerated<W>(
    k: Semiring<W>, f1: Fst<W>, f2: Fst<W>, f: Forest, f': Forest, merged: seq<(nat, nat)>, p: (nat, nat)
  )
    requires Valid(f1) && Valid(f2) && ValidForest(f) && Generated(k, f1, f2, f, merged)
    requires Merged(f, f', Rep(f, p.0), Rep(f, p.1))
    ensures Generated(k, f1, f2, f', merged + [p])
  {
    forall x | AgreeOn(k, f1, f2, merged + [p], x) ensures ClassesAgree(k, f1, f2, f', x) {
      forall r | r in merged ensures Agree(k, f1, f2, r.0, r.1, x) {
        assert r in merged + [p];
      }
      assert p in merged + [p] && AgreeOn(k, f1, f2, merged, x);
      forall a: nat, b: nat | SameClass(f', a, b) ensures Agree(k, f1, f2, a, b, x) {
        MergedAgree(k, f1, f2, f, f', p, x, a, b);
      }
    }
  }

  /** A merge keeps what is in one class in one class. */
  lemma MergeKeepsClass(f: Forest, f': Forest, p: (nat, nat), a: nat, b: nat)
    requires ValidForest(f) && Merged(f, f', Rep(f, p.0), Rep(f, p.1)) && SameClass(f, a, b)
    ensures SameClass(f', a, b)
  {
    MergedClass(f, f', p, a);
    MergedClass(f, f', p, b);
  }

  // ---- What an empty queue and a distinguished pair mean

  lemma AccIs<W>(k: Semiring<W>, f1: Fst<W>, f2: Fst<W>, p: (nat, nat), x: seq<int>)
    requires Valid(f1) && Valid(f2) && MappedPair(f1, f2, p)
    ensures Acc(k, f1, f2, p.0, x) <==> MappedAccepts(k, f1, 1, p.0, x)
    ensures Acc(k, f1, f2, p.1, x) <==> MappedAccepts(k, f2, 2, p.1, x)
  {
  }

  /** With nothing left to process, every string is one on which all merged pairs agree. */
  lemma {:induction false} MergedPairsAgree<W>(
    k: Semiring<W>, f1: Fst<W>, f2: Fst<W>, f: Forest, merged: seq<(nat, nat)>, x: seq<int>
  )
    requires Valid(f1) && Valid(f2) && Deterministic(f1) && Deterministic(f2) && ValidForest(f)
    requires Generated(k, f1, f2, f, merged) && SuccessorsHandled(k, f1, f2, f, [], merged)
    requires GoodPairs(k, f1, f2, merged)
    ensures AgreeOn(k, f1, f2, merged, x)
    decreases x
  {
    if x != [] {
      MergedPairsAgree(k, f1, f2, f, merged, x[1..]);
      assert ClassesAgree(k, f1, f2, f, x[1..]);
    }
    forall p | p in merged ensures Agree(k, f1, f2, p.0, p.1, x) {
      assert GoodPair(k, f1, f2, p);
      AccIs(k, f1, f2, p, x);
      if x != [] {
        var d := Deltas(k, f1, f2, p, x[0]);
        assert Handled(f, [], d);
        assert Agree(k, f1, f2, d.0, d.1, x[1..]);
        AccIs(k, f1, f2, d, x[1..]);
        AcceptsDelta(k, f1, 1, p.0, x);
        AcceptsDelta(k, f2, 2, p.1, x);
      }
    }
  }

  ghost predicate Equivalent<W>(k: Semiring<W>, f1: Fst<W>, f2: Fst<W>)
    requires Valid(f1) && Valid(f2)
  {
    forall x :: Accepts(k, f1, x) <==> Accepts(k, f2, x)
  }

  lemma AllHandledIsEquivalent<W>(k: Semiring<W>, f1: Fst<W>, f2: Fst<W>, f: Forest, merged: seq<(nat, nat)>)
    requires Valid(f1) && Valid(f2) && Deterministic(f1) && Deterministic(f2) && ValidForest(f)
    requires Generated(k, f1, f2, f, merged) && SuccessorsHandled(k, f1, f2, f, [], merged)
    requires GoodPairs(k, f1, f2, merged)
    requires Handled(f, [], StartPair(f1, f2))
    ensures Equivalent(k, f1, f2)
  {
    forall x ensures Accepts(k, f1, x) <==> Accepts(k, f2, x) {
      MergedPairsAgree(k, f1, f2, f, merged, x);
      var p := StartPair(f1, f2);
      assert ClassesAgree(k, f1, f2, f, x) && Agree(k, f1, f2, p.0, p.1, x);
      AccIs(k, f1, f2, p, x);
    }
  }

  lemma DistinguishedIsNotEquivalent<W>(k: Semiring<W>, f1: Fst<W>, f2: Fst<W>)
    requires Valid(f1) && Valid(f2) && Deterministic(f1) && Deterministic(f2) && Distinguished(k, f1, f2)
    ensures !Equivalent(k, f1, f2)
  {
    var p :| ReachedPair(k, f1, f2, p) && !FinalsAgree(k, f1, f2, p);
    var x :| ReachedBy(k, f1, f2, p, x);
    RunAccepts(k, f1, 1, MapState(f1.start, 1), x);
    RunAccepts(k, f2, 2, MapState(f2.start, 2), x);
    assert Accepts(k, f1, x) != Accepts(k, f2, x);
  }

  // ---- The algorithm

  lemma DeltaArcsNext<W>(k: Semiring<W>, f: Fst<W>, which: int, arcs: seq<Arc<W>>, i: nat, l: int)
    requires ValidArcs(arcs, |f.states|) && 1 <= which <= 2 && i < |arcs|
    ensures DeltaArcs(k, f, which, arcs[..i + 1], l) ==
      if arcs[i].weight != k.Zero && arcs[i].ilabel == l then MapState(arcs[i].nextstate, which)
      else DeltaArcs(k, f, which, arcs[..i], l)
  {
    var init := arcs[..i + 1];
    assert init[..|init| - 1] == arcs[..i];
  }

  type ArcPairs = map<int, (nat, nat)>

  /** The pair of a label, two dead states if it has none. */
  function LookUp(pairs: ArcPairs, l: int): (nat, nat) {
    if l in pairs then pairs[l] else (DEAD, DEAD)
  }

  function WithSide(p: (nat, nat), which: int, t: nat): (nat, nat) {
    if which == 1 then (t, p.1) else (p.0, t)
  }

  ghost predicate SideIsDead(pairs: ArcPairs, which: int) {
    forall l {:trigger LookUp(pairs, l)} :: WithSide(LookUp(pairs, l), which, DEAD) == LookUp(pairs, l)
  }

  /** Enters into the table, on its side, where the arcs of one state lead. */
  method CopyArcs<W(==)>(k: Semiring<W>, f: Fst<W>, which: int, m: nat, pairs: ArcPairs) returns (out: ArcPairs)
    requires Valid(f) && 1 <= which <= 2 && Mapped(f, which, m) && SideIsDead(pairs, which)
    ensures forall l {:trigger LookUp(out, l)} ::
      LookUp(out, l) == WithSide(LookUp(pairs, l), which, Delta(k, f, which, m, l))
  {
    out := pairs;
    if m != DEAD {
      var arcs := f.states[UnMapState(m)].arcs;
      assert arcs[..0] == [];
      for i := 0 to |arcs|
        invariant forall l {:trigger LookUp(out, l)} ::
          LookUp(out, l) == WithSide(LookUp(pairs, l), which, DeltaArcs(k, f, which, arcs[..i], l))
      {
        var arc := arcs[i];
        ghost var was := out;
        if arc.weight != k.Zero {
          out := out[arc.ilabel := WithSide(LookUp(out, arc.ilabel), which, MapState(arc.nextstate, which))];
        }
        forall l ensures LookUp(out, l) == WithSide(LookUp(pairs, l), which, DeltaArcs(k, f, which, arcs[..i + 1], l)) {
          assert LookUp(was, l) == WithSide(LookUp(pairs, l), which, DeltaArcs(k, f, which, arcs[..i], l));
          DeltaArcsNext(k, f, which, arcs, i, l);
        }
      }
      assert arcs[..|arcs|] == arcs;
    }
  }

  ghost predicate PairsMapped<W>(f1: Fst<W>, f2: Fst<W>, pairs: ArcPairs) {
    forall l :: l in pairs ==> MappedPair(f1, f2, pairs[l])
  }

  /** Queues the pairs of the table, in any order, until one disagrees on finality. */
  method PushPairs<W(==)>(k: Semiring<W>, f1: Fst<W>, f2: Fst<W>, pairs: ArcPairs, q: seq<(nat, nat)>)
    returns (ret: bool, out: seq<(nat, nat)>)
    requires Valid(f1) && Valid(f2) && PairsMapped(f1, f2, pairs)
    ensures !ret ==> exists l :: l in pairs && !FinalsAgree(k, f1, f2, pairs[l])
    ensures q <= out
    ensures forall p :: p in out ==> p in q || exists l ::
      l in pairs && p == pairs[l] && FinalsAgree(k, f1, f2, pairs[l])
    ensures ret ==> forall l :: l in pairs ==> pairs[l] in out
  {
    ret, out := true, q;
    var labels := pairs.Keys;
    while labels != {} && ret
      invariant labels <= pairs.Keys
      invariant !ret ==> exists l :: l in pairs && !FinalsAgree(k, f1, f2, pairs[l])
      invariant q <= out
      invariant forall p :: p in out ==> p in q || exists l ::
        l in pairs && p == pairs[l] && FinalsAgree(k, f1, f2, pairs[l])
      invariant ret ==> forall l :: l in pairs && l !in labels ==> pairs[l] in out
      decreases labels, ret
    {
      ghost var some := HasElement(labels);
      var l :| l in labels;
      var pair := pairs[l];
      assert MappedPair(f1, f2, pair);
      if IsFinal(k, f1, 1, pair.0) != IsFinal(k, f2, 2, pair.1) {
        ret := false;
      } else {
        assert FinalsAgree(k, f1, f2, pairs[l]);
        out := out + [pair];
      }
      labels := labels - {l};
    }
  }

  /** The representative of a number, after making it a set if it has none. */
  method FindSet(sets: UnionFind, id: nat) returns (repr: nat)
    requires sets.Valid()
    modifies sets
    ensures SameSets(old(sets.F()), sets.F()) && repr == Rep(sets.F(), id) && HasSet(sets.F(), id)
    ensures forall x: nat :: HasSet(old(sets.F()), x) ==> HasSet(sets.F(), x)
  {
    ghost var f := sets.F();
    var r := sets.FindSet(id);
    ghost var g := sets.F();
    assert Rep(g, id) == Rep(f, id);
    if r != FAIL {
      repr := r;
    } else {
      repr := sets.MakeSet(id);
      assert Rep(sets.F(), id) == Rep(g, id);
      forall x: nat ensures Rep(sets.F(), x) == Rep(f, x) {
        assert Rep(sets.F(), x) == Rep(g, x) && Rep(g, x) == Rep(f, x);
      }
    }
  }

  // ---- What each round of the main loop keeps

  ghost predicate RoundProgress<W>(
    k: Semiring<W>, f1: Fst<W>, f2: Fst<W>, f: Forest, q: seq<(nat, nat)>, merged: seq<(nat, nat)>
  )
    requires Valid(f1) && Valid(f2) && ValidForest(f)
  {
    && Generated(k, f1, f2, f, merged) && SuccessorsHandled(k, f1, f2, f, q, merged)
    && GoodPairs(k, f1, f2, merged) && GoodPairs(k, f1, f2, q) && Handled(f, q, StartPair(f1, f2))
  }

  lemma Started<W>(k: Semiring<W>, f1: Fst<W>, f2: Fst<W>, f: Forest)
    requires Valid(f1) && Valid(f2) && ValidForest(f) && FinalsAgree(k, f1, f2, StartPair(f1, f2))
    requires forall x: nat {:trigger Rep(f, x)} :: Rep(f, x) == x
    ensures RoundProgress(k, f1, f2, f, [StartPair(f1, f2)], [])
  {
    StartIsReached(k, f1, f2);
  }

  /** A pair that is in one class already needs no more processing. */
  lemma Skipped<W>(
    k: Semiring<W>, f1: Fst<W>, f2: Fst<W>, f: Forest, f': Forest, q: seq<(nat, nat)>, merged: seq<(nat, nat)>
  )
    requires Valid(f1) && Valid(f2) && ValidForest(f) && RoundProgress(k, f1, f2, f, q, merged) && SameSets(f, f')
    requires q != [] && SameClass(f', q[0].0, q[0].1)
    ensures RoundProgress(k, f1, f2, f', q[1..], merged)
  {
    SameSetsGenerated(k, f1, f2, f, f', merged);
    forall p: (nat, nat) | Handled(f, q, p) ensures Handled(f', q[1..], p) {
      assert Rep(f', p.0) == Rep(f, p.0) && Rep(f', p.1) == Rep(f, p.1);
      assert p in q ==> p == q[0] || p in q[1..];
    }
  }

  /** A merged pair whose successors are queued or dead has been dealt with. */
  lemma MergedPair<W>(
    k: Semiring<W>, f1: Fst<W>, f2: Fst<W>, f: Forest, f': Forest, q: seq<(nat, nat)>, q': seq<(nat, nat)>,
    merged: seq<(nat, nat)>
  )
    requires Valid(f1) && Valid(f2) && ValidForest(f) && RoundProgress(k, f1, f2, f, q, merged)
    requires q != [] && Merged(f, f', Rep(f, q[0].0), Rep(f, q[0].1)) && q <= q' && GoodPairs(k, f1, f2, q')
    requires MappedPair(f1, f2, q[0])
    requires forall l {:trigger Deltas(k, f1, f2, q[0], l)} ::
      Deltas(k, f1, f2, q[0], l) == (DEAD, DEAD) || Deltas(k, f1, f2, q[0], l) in q'
    ensures RoundProgress(k, f1, f2, f', q'[1..], merged + [q[0]])
  {
    MergeGenerated(k, f1, f2, f, f', merged, q[0]);
    MergedClass(f, f', q[0], q[0].0);
    assert SameClass(f', q[0].0, q[0].1);
    assert forall p: (nat, nat) :: p in q' ==> p == q'[0] || p in q'[1..];
    forall p: (nat, nat) | Handled(f, q, p) || p in q' ensures Handled(f', q'[1..], p) {
      if SameClass(f, p.0, p.1) {
        MergeKeepsClass(f, f', q[0], p.0, p.1);
      } else if p in q {
        assert p in q';
      }
    }
    forall p, l | p in merged + [q[0]] && MappedPair(f1, f2, p) ensures Handled(f', q'[1..], Deltas(k, f1, f2, p, l)) {
      if p in merged {
        assert Handled(f, q, Deltas(k, f1, f2, p, l));
      }
    }
  }

  /** The classes of the numbers below n, by their representatives. */
  ghost function Classes(f: Forest, n: nat): set<nat>
    requires ValidForest(f)
  {
    set z: nat | z < n && Rep(f, z) == z
  }

  lemma MergeShrinks(f: Forest, f': Forest, n: nat, a: nat, b: nat)
    requires ValidForest(f) && Merged(f, f', a, b) && a < n && b < n && a != b && Rep(f, a) == a && Rep(f, b) == b
    ensures Classes(f', n) < Classes(f, n)
  {
    assert a in Classes(f, n) && b in Classes(f, n);
    assert a !in Classes(f', n) || b !in Classes(f', n);
  }

  /** Representatives of numbers that stand for states are below a bound. */
  ghost predicate RepsBelow(f: Forest, n: nat)
    requires ValidForest(f)
  {
    forall x: nat {:trigger Rep(f, x)} :: x < n ==> Rep(f, x) < n
  }

  lemma MergeRepsBelow(f: Forest, f': Forest, n: nat, a: nat, b: nat)
    requires ValidForest(f) && Merged(f, f', a, b) && a < n && b < n && RepsBelow(f, n)
    ensures RepsBelow(f', n)
  {
    forall x: nat | x < n ensures Rep(f', x) < n {
      assert Rep(f, x) < n;
    }
  }

  lemma SameSetsClasses(f: Forest, g: Forest, n: nat)
    requires SameSets(f, g) && RepsBelow(f, n)
    ensures Classes(g, n) == Classes(f, n) && RepsBelow(g, n)
  {
    forall x: nat ensures Rep(g, x) == Rep(f, x) {
      assert Rep(g, x) == Rep(f, x);
    }
  }

  lemma SameSetsProgress<W>(
    k: Semiring<W>, f1: Fst<W>, f2: Fst<W>, f: Forest, f': Forest, q: seq<(nat, nat)>, merged: seq<(nat, nat)>
  )
    requires Valid(f1) && Valid(f2) && ValidForest(f) && RoundProgress(k, f1, f2, f, q, merged) && SameSets(f, f')
    ensures RoundProgress(k, f1, f2, f', q, merged)
  {
    SameSetsGenerated(k, f1, f2, f, f', merged);
    forall p: (nat, nat) | Handled(f, q, p) ensures Handled(f', q, p) {
      assert Rep(f', p.0) == Rep(f, p.0) && Rep(f', p.1) == Rep(f, p.1);
    }
  }

  // ---- Main loop

  /** Merges the pair and queues where its two states lead. */
  method Process<W(==)>(
    k: Semiring<W>, f1: Fst<W>, f2: Fst<W>, sets: UnionFind, q: seq<(nat, nat)>, ghost merged: seq<(nat, nat)>,
    rep1: nat, rep2: nat
  )
    returns (ret: bool, out: seq<(nat, nat)>)
    requires Valid(f1) && Valid(f2) && sets.Valid() && q != [] && RoundProgress(k, f1, f2, sets.F(), q, merged)
    requires HasSet(sets.F(), rep1) && HasSet(sets.F(), rep2)
    requires rep1 == Rep(sets.F(), q[0].0) && rep1 == Rep(sets.F(), rep1)
    requires rep2 == Rep(sets.F(), q[0].1) && rep2 == Rep(sets.F(), rep2)
    modifies sets
    ensures sets.Valid() && Merged(old(sets.F()), sets.F(), rep1, rep2) && out != []
    ensures if ret then RoundProgress(k, f1, f2, sets.F(), out[1..], merged + [q[0]]) else Distinguished(k, f1, f2)
  {
    var s1, s2 := q[0].0, q[0].1;
    assert GoodPair(k, f1, f2, q[0]);
    ghost var f := sets.F();
    sets.Union(rep1, rep2);
    var pairs: ArcPairs := map[];
    pairs := CopyArcs(k, f1, 1, s1, pairs);
    pairs := CopyArcs(k, f2, 2, s2, pairs);
    assert forall l {:trigger LookUp(pairs, l)} :: LookUp(pairs, l) == Deltas(k, f1, f2, q[0], l);
    forall l | l in pairs ensures ReachedPair(k, f1, f2, pairs[l]) {
      assert LookUp(pairs, l) == pairs[l];
      SuccessorIsReached(k, f1, f2, q[0], l);
    }
    ret, out := PushPairs(k, f1, f2, pairs, q);
    if ret {
      forall l ensures Deltas(k, f1, f2, q[0], l) == (DEAD, DEAD) || Deltas(k, f1, f2, q[0], l) in out {
        assert LookUp(pairs, l) == Deltas(k, f1, f2, q[0], l);
      }
      MergedPair(k, f1, f2, f, sets.F(), q, out, merged);
    }
  }

  /** The representatives of both states of a pair. */
  method FindPair(sets: UnionFind, p: (nat, nat)) returns (rep1: nat, rep2: nat)
    requires sets.Valid()
    modifies sets
    ensures SameSets(old(sets.F()), sets.F()) && HasSet(sets.F(), rep1) && HasSet(sets.F(), rep2)
    ensures rep1 == Rep(sets.F(), p.0) && rep1 == Rep(sets.F(), rep1)
    ensures rep2 == Rep(sets.F(), p.1) && rep2 == Rep(sets.F(), rep2)
  {
    ghost var f := sets.F();
    rep1 := FindSet(sets, p.0);
    ghost var g := sets.F();
    rep2 := FindSet(sets, p.1);
    SameSetsTwice(f, g, sets.F());
    assert Rep(sets.F(), p.0) == Rep(g, p.0) && Rep(sets.F(), rep1) == Rep(g, rep1);
  }

  /** One round of the main loop; merging shrinks the number of classes, anything else the queue. */
  method Round<W(==)>(
    k: Semiring<W>, f1: Fst<W>, f2: Fst<W>, sets: UnionFind, q: seq<(nat, nat)>, ghost merged: seq<(nat, nat)>,
    ghost n: nat
  )
    returns (ret: bool, out: seq<(nat, nat)>, ghost merged': seq<(nat, nat)>)
    requires Valid(f1) && Valid(f2) && sets.Valid() && q != [] && RoundProgress(k, f1, f2, sets.F(), q, merged)
    requires RepsBelow(sets.F(), n) && n > 2 * |f1.states| && n > 2 * |f2.states|
    modifies sets
    ensures sets.Valid() && RepsBelow(sets.F(), n)
    ensures if ret then RoundProgress(k, f1, f2, sets.F(), out, merged') else Distinguished(k, f1, f2)
    ensures Classes(sets.F(), n) < Classes(old(sets.F()), n)
      || (Classes(sets.F(), n) == Classes(old(sets.F()), n) && |out| < |q|)
  {
    ghost var f := sets.F();
    assert GoodPair(k, f1, f2, q[0]);
    var rep1, rep2 := FindPair(sets, q[0]);
    ghost var g := sets.F();
    SameSetsClasses(f, g, n);
    if rep1 != rep2 {
      SameSetsProgress(k, f1, f2, f, g, q, merged);
      ret, out := Process(k, f1, f2, sets, q, merged, rep1, rep2);
      merged' := merged + [q[0]];
      MergeShrinks(g, sets.F(), n, rep1, rep2);
      MergeRepsBelow(g, sets.F(), n, rep1, rep2);
    } else {
      ret, out, merged' := true, q, merged;
      Skipped(k, f1, f2, f, g, q, merged);
    }
    out := out[1..];
  }

  /** Whether two deterministic acceptors accept the same label strings. */
  method UnweightedEquivalent<W(==)>(k: Semiring<W>, f1: Fst<W>, f2: Fst<W>) returns (ret: bool)
    requires Valid(f1) && Valid(f2) && Deterministic(f1) && Deterministic(f2)
    ensures ret <==> Equivalent(k, f1, f2)
  {
    var s1, s2 := MapState(f1.start, 1), MapState(f2.start, 2);
    var sets := new UnionFind(1000);
    ghost var none := sets.F();
    var r := sets.MakeSet(s1);
    ghost var one := sets.F();
    assert Rep(one, s1) == Rep(none, s1) && Rep(one, s2) == Rep(none, s2);
    r := sets.MakeSet(s2);
    SameSetsTwice(none, one, sets.F());
    ret := IsFinal(k, f1, 1, s1) == IsFinal(k, f2, 2, s2);
    var q := [(s1, s2)];
    ghost var merged, n := [], 2 * |f1.states| + 2 * |f2.states| + 1;
    if ret {
      Started(k, f1, f2, sets.F());
    } else {
      StartIsReached(k, f1, f2);
    }
    while ret && q != []
      invariant sets.Valid() && fresh(sets) && RepsBelow(sets.F(), n)
      invariant if ret then RoundProgress(k, f1, f2, sets.F(), q, merged) else Distinguished(k, f1, f2)
      decreases Classes(sets.F(), n), |q|
    {
      ret, q, merged := Round(k, f1, f2, sets, q, merged, n);
    }
    if ret {
      AllHandledIsEquivalent(k, f1, f2, sets.F(), merged);
    } else {
      DistinguishedIsNotEquivalent(k, f1, f2);
    }
  }
}
