/** Composition: the composed paths of a filter are exactly one for each pair of matching paths. */
module Compose {
  import opened Semirings
  import opened Fsts
  import opened ComposeFilters

  // One side of a composed arc: an arc position, or staying put on the implicit self-loop.
  datatype Side = Stay | Take(arc: nat)

  datatype Move = Move(a: Side, b: Side)

  datatype Tuple = Tuple(s1: nat, s2: nat, fs: int)

  datatype Composition<!W> = Composition(kind: FilterKind, k: Semiring<W>, f1: Fst<W>, f2: Fst<W>)

  ghost predicate ValidComposition<W>(c: Composition<W>) {
    Valid(c.f1) && Valid(c.f2)
  }

  ghost predicate ValidTuple<W>(c: Composition<W>, t: Tuple) {
    t.s1 < |c.f1.states| && t.s2 < |c.f2.states|
  }

  predicate ValidSide<W>(st: State<W>, side: Side) {
    side.Take? ==> side.arc < |st.arcs|
  }

  /** The arc a side stands for; staying put is the implicit loop, without a label to match. */
  function SideArc1<W>(k: Semiring<W>, f: Fst<W>, s: nat, side: Side): Arc<W>
    requires s < |f.states| && ValidSide(f.states[s], side)
  {
    if side.Stay? then Arc(EPSILON, NO_LABEL, k.One, s) else f.states[s].arcs[side.arc]
  }

  function SideArc2<W>(k: Semiring<W>, f: Fst<W>, s: nat, side: Side): Arc<W>
    requires s < |f.states| && ValidSide(f.states[s], side)
  {
    if side.Stay? then Arc(NO_LABEL, EPSILON, k.One, s) else f.states[s].arcs[side.arc]
  }

  /** The two sides agree on what is matched: equal labels, or an epsilon against staying put. */
  ghost predicate Offered<W>(c: Composition<W>, t: Tuple, m: Move)
    requires ValidTuple(c, t)
  {
    && ValidSide(c.f1.states[t.s1], m.a) && ValidSide(c.f2.states[t.s2], m.b)
    && match (m.a, m.b)
       case (Stay, Stay) => false
       case (Take(i), Stay) => c.f1.states[t.s1].arcs[i].olabel == EPSILON
       case (Stay, Take(j)) => c.f2.states[t.s2].arcs[j].ilabel == EPSILON
       case (Take(i), Take(j)) => c.f1.states[t.s1].arcs[i].olabel == c.f2.states[t.s2].arcs[j].ilabel
  }

  /** The filter state after an offered move, NO_STATE when the filter blocks it. */
  ghost function Filtered<W>(c: Composition<W>, t: Tuple, m: Move): int
    requires ValidTuple(c, t) && Offered(c, t, m)
  {
    FilterArc(c.kind, FlagsAt(c.k, c.f1.states[t.s1], c.f2.states[t.s2]), t.fs,
              SideArc1(c.k, c.f1, t.s1, m.a), SideArc2(c.k, c.f2, t.s2, m.b))
  }

  /** The composed arcs: the offered moves the filter lets through. */
  ghost predicate Allowed<W>(c: Composition<W>, t: Tuple, m: Move)
    requires ValidTuple(c, t)
  {
    Offered(c, t, m) && Filtered(c, t, m) != NO_STATE
  }

  ghost function Next<W>(c: Composition<W>, t: Tuple, m: Move): (u: Tuple)
    requires ValidComposition(c) && ValidTuple(c, t) && Allowed(c, t, m)
    ensures ValidTuple(c, u)
  {
    Tuple(SideArc1(c.k, c.f1, t.s1, m.a).nextstate, SideArc2(c.k, c.f2, t.s2, m.b).nextstate, Filtered(c, t, m))
  }

  ghost predicate ComposedPath<W>(c: Composition<W>, t: Tuple, ms: seq<Move>)
    requires ValidComposition(c) && ValidTuple(c, t)
    decreases |ms|
  {
    ms == [] || (Allowed(c, t, ms[0]) && ComposedPath(c, Next(c, t, ms[0]), ms[1..]))
  }

  ghost function ComposedEnd<W>(c: Composition<W>, t: Tuple, ms: seq<Move>): (u: Tuple)
    requires ValidComposition(c) && ValidTuple(c, t) && ComposedPath(c, t, ms)
    ensures ValidTuple(c, u)
    decreases |ms|
  {
    if ms == [] then t else ComposedEnd(c, Next(c, t, ms[0]), ms[1..])
  }

  /** The final weight of a composed state. */
  function ComputeFinal<W(==)>(k: Semiring<W>, final1: W, final2: W): W {
    if final1 == k.Zero then final1
    else if final2 == k.Zero then final2
    else k.Times(final1, final2)
  }

  ghost predicate ComposedAccepting<W>(c: Composition<W>, t: Tuple, ms: seq<Move>)
    requires ValidComposition(c) && ValidTuple(c, t)
  {
    ComposedPath(c, t, ms) &&
    var u := ComposedEnd(c, t, ms);
    c.f1.states[u.s1].final != c.k.Zero && c.f2.states[u.s2].final != c.k.Zero
  }

  ghost function ComposedWeight<W>(c: Composition<W>, t: Tuple, ms: seq<Move>): W
    requires ValidComposition(c) && ValidTuple(c, t) && ComposedPath(c, t, ms)
    decreases |ms|
  {
    if ms == [] then ComputeFinal(c.k, c.f1.states[t.s1].final, c.f2.states[t.s2].final)
    else
      c.k.Times(c.k.Times(SideArc1(c.k, c.f1, t.s1, ms[0].a).weight, SideArc2(c.k, c.f2, t.s2, ms[0].b).weight),
                ComposedWeight(c, Next(c, t, ms[0]), ms[1..]))
  }

  /** The labels of the composed path: FST1's input and FST2's output. */
  ghost function ComposedLabels<W>(c: Composition<W>, t: Tuple, ms: seq<Move>): (r: (seq<int>, seq<int>))
    requires ValidComposition(c) && ValidTuple(c, t) && ComposedPath(c, t, ms)
    decreases |ms|
  {
    if ms == [] then ([], [])
    else
      var rest := ComposedLabels(c, Next(c, t, ms[0]), ms[1..]);
      ([SideArc1(c.k, c.f1, t.s1, ms[0].a).ilabel] + rest.0, [SideArc2(c.k, c.f2, t.s2, ms[0].b).olabel] + rest.1)
  }

  ghost function Positions(side: Side): seq<nat> {
    if side.Stay? then [] else [side.arc]
  }

  ghost function Project1(ms: seq<Move>): seq<nat> {
    if ms == [] then [] else Positions(ms[0].a) + Project1(ms[1..])
  }

  ghost function Project2(ms: seq<Move>): seq<nat> {
    if ms == [] then [] else Positions(ms[0].b) + Project2(ms[1..])
  }

  /** A pair of accepting paths whose matched labels agree once epsilons are erased. */
  ghost predicate Matching<W>(c: Composition<W>, t: Tuple, p1: seq<nat>, p2: seq<nat>)
    requires ValidComposition(c) && ValidTuple(c, t)
  {
    && Accepting(c.k, c.f1, t.s1, p1) && Accepting(c.k, c.f2, t.s2, p2)
    && Erase(OLabels(c.f1, t.s1, p1)) == Erase(ILabels(c.f2, t.s2, p2))
  }

  /** Does the path start with an epsilon on the matched side? */
  ghost predicate EpsilonFirst1<W>(c: Composition<W>, s1: nat, p1: seq<nat>)
    requires s1 < |c.f1.states| && (p1 != [] ==> p1[0] < |c.f1.states[s1].arcs|)
  {
    p1 != [] && c.f1.states[s1].arcs[p1[0]].olabel == EPSILON
  }

  ghost predicate EpsilonFirst2<W>(c: Composition<W>, s2: nat, p2: seq<nat>)
    requires s2 < |c.f2.states| && (p2 != [] ==> p2[0] < |c.f2.states[s2].arcs|)
  {
    p2 != [] && c.f2.states[s2].arcs[p2[0]].ilabel == EPSILON
  }

  /** The filter states that can occur. */
  predicate InRange(kind: FilterKind, fs: int) {
    0 <= fs <= (if kind == MatchFilter then 2 else 1)
  }

  /** Which first epsilons a filter state still lets through. */
  predicate Compatible(kind: FilterKind, fs: int, e1: bool, e2: bool) {
    match kind
    case SequenceFilter => fs == 0 || !e1
    case AltSequenceFilter => fs == 0 || !e2
    case MatchFilter => fs == 0 || (fs == 1 && !e2) || (fs == 2 && !e1)
  }

  /** Which sides advance in the one move the filter allows. */
  function Advance(kind: FilterKind, e1: bool, e2: bool): (r: (bool, bool)) {
    match kind
    case SequenceFilter => if e1 then (true, false) else if e2 then (false, true) else (true, true)
    case AltSequenceFilter => if e2 then (false, true) else if e1 then (true, false) else (true, true)
    case MatchFilter => if e1 && !e2 then (true, false) else if e2 && !e1 then (false, true) else (true, true)
  }

  // What one side does: take the first arc of its path, or stay.
  ghost function Used(p: seq<nat>, go: bool): Side
    requires go ==> p != []
  {
    if go then Take(p[0]) else Stay
  }

  ghost function Rest(p: seq<nat>, go: bool): seq<nat>
    requires go ==> p != []
  {
    if go then p[1..] else p
  }

  ghost function Follow<W>(f: Fst<W>, s: nat, p: seq<nat>, go: bool): (r: nat)
    requires Valid(f) && s < |f.states| && IsPath(f, s, p) && (go ==> p != [])
    ensures r < |f.states| && IsPath(f, r, Rest(p, go))
  {
    if go then f.states[s].arcs[p[0]].nextstate else s
  }

  lemma EraseHeads(x: seq<int>, y: seq<int>)
    requires Erase(x) == Erase(y) && (x != [] || y != [])
    requires (x == [] || x[0] != EPSILON) && (y == [] || y[0] != EPSILON)
    ensures x != [] && y != [] && x[0] == y[0] && Erase(x[1..]) == Erase(y[1..])
  {
    assert x != [] ==> Erase(x) == [x[0]] + Erase(x[1..]);
    assert y != [] ==> Erase(y) == [y[0]] + Erase(y[1..]);
    assert Erase(x)[0] == Erase(y)[0] && Erase(x)[1..] == Erase(y)[1..];
  }

  /** The sides that advance are offered, and what remains still matches. */
  lemma FirstMove<W>(c: Composition<W>, t: Tuple, p1: seq<nat>, p2: seq<nat>, go: (bool, bool))
    requires ValidComposition(c) && ValidTuple(c, t)
    requires IsPath(c.f1, t.s1, p1) && IsPath(c.f2, t.s2, p2) && (p1 != [] || p2 != [])
    requires Erase(OLabels(c.f1, t.s1, p1)) == Erase(ILabels(c.f2, t.s2, p2))
    requires go == Advance(c.kind, EpsilonFirst1(c, t.s1, p1), EpsilonFirst2(c, t.s2, p2))
    ensures (go.0 ==> p1 != []) && (go.1 ==> p2 != [])
    ensures Offered(c, t, Move(Used(p1, go.0), Used(p2, go.1)))
    ensures Erase(OLabels(c.f1, Follow(c.f1, t.s1, p1, go.0), Rest(p1, go.0)))
         == Erase(ILabels(c.f2, Follow(c.f2, t.s2, p2, go.1), Rest(p2, go.1)))
  {
    var x1, x2 := OLabels(c.f1, t.s1, p1), ILabels(c.f2, t.s2, p2);
    if !EpsilonFirst1(c, t.s1, p1) && !EpsilonFirst2(c, t.s2, p2) {
      EraseHeads(x1, x2);
    }
    assert go.0 ==> x1[1..] == OLabels(c.f1, Follow(c.f1, t.s1, p1, true), p1[1..]);
    assert go.1 ==> x2[1..] == ILabels(c.f2, Follow(c.f2, t.s2, p2, true), p2[1..]);
  }

  /** The interleaving of a pair of paths that the filter lets through. */
  ghost function Interleave<W>(c: Composition<W>, s1: nat, s2: nat, p1: seq<nat>, p2: seq<nat>): (ms: seq<Move>)
    requires ValidComposition(c) && s1 < |c.f1.states| && s2 < |c.f2.states|
    requires IsPath(c.f1, s1, p1) && IsPath(c.f2, s2, p2)
    requires Erase(OLabels(c.f1, s1, p1)) == Erase(ILabels(c.f2, s2, p2))
    decreases |p1| + |p2|
  {
    if p1 == [] && p2 == [] then []
    else
      var go := Advance(c.kind, EpsilonFirst1(c, s1, p1), EpsilonFirst2(c, s2, p2));
      FirstMove(c, Tuple(s1, s2, 0), p1, p2, go);
      [Move(Used(p1, go.0), Used(p2, go.1))]
      + Interleave(c, Follow(c.f1, s1, p1, go.0), Follow(c.f2, s2, p2, go.1), Rest(p1, go.0), Rest(p2, go.1))
  }

  /** The filter state still lets the first epsilons of the two paths through. */
  ghost predicate Open<W>(c: Composition<W>, t: Tuple, p1: seq<nat>, p2: seq<nat>)
    requires ValidComposition(c) && ValidTuple(c, t) && IsPath(c.f1, t.s1, p1) && IsPath(c.f2, t.s2, p2)
  {
    InRange(c.kind, t.fs) && Compatible(c.kind, t.fs, EpsilonFirst1(c, t.s1, p1), EpsilonFirst2(c, t.s2, p2))
  }

  /** Pruning loses nothing: the move of the interleaving is let through, and the filter stays open. */
  lemma FirstMoveAllowed<W>(c: Composition<W>, t: Tuple, p1: seq<nat>, p2: seq<nat>, go: (bool, bool))
    requires ValidComposition(c) && ValidTuple(c, t) && (p1 != [] || p2 != [])
    requires Matching(c, t, p1, p2) && Open(c, t, p1, p2)
    requires go == Advance(c.kind, EpsilonFirst1(c, t.s1, p1), EpsilonFirst2(c, t.s2, p2))
    ensures (go.0 ==> p1 != []) && (go.1 ==> p2 != [])
    ensures Allowed(c, t, Move(Used(p1, go.0), Used(p2, go.1)))
    ensures var u := Next(c, t, Move(Used(p1, go.0), Used(p2, go.1)));
            && u.s1 == Follow(c.f1, t.s1, p1, go.0) && u.s2 == Follow(c.f2, t.s2, p2, go.1)
            && Matching(c, u, Rest(p1, go.0), Rest(p2, go.1)) && Open(c, u, Rest(p1, go.0), Rest(p2, go.1))
  {
    FirstMove(c, t, p1, p2, go);
  }

  // ---- Pruning

  ghost predicate HasOEpsilon<W>(st: State<W>) {
    exists i :: 0 <= i < |st.arcs| && st.arcs[i].olabel == EPSILON
  }

  ghost predicate HasIEpsilon<W>(st: State<W>) {
    exists i :: 0 <= i < |st.arcs| && st.arcs[i].ilabel == EPSILON
  }

  /** Without its output epsilons, the state is final or has an arc to go on with. */
  ghost predicate GoesOn1<W>(k: Semiring<W>, st: State<W>) {
    st.final != k.Zero || exists i :: 0 <= i < |st.arcs| && st.arcs[i].olabel != EPSILON
  }

  ghost predicate GoesOn2<W>(k: Semiring<W>, st: State<W>) {
    st.final != k.Zero || exists i :: 0 <= i < |st.arcs| && st.arcs[i].ilabel != EPSILON
  }

  /** A move that makes one side wait, and then forbids that side its epsilons, is let through exactly if the side can
      go on without them; and they are forbidden exactly if there are any. */
  lemma WaitsOnlyToGoOn<W>(c: Composition<W>, t: Tuple, m: Move)
    requires ValidComposition(c) && ValidTuple(c, t) && Offered(c, t, m) && InRange(c.kind, t.fs)
    ensures var st1, st2 := c.f1.states[t.s1], c.f2.states[t.s2];
      && (c.kind == SequenceFilter && m.a.Stay? ==>
        (Allowed(c, t, m) <==> GoesOn1(c.k, st1))
        && (Allowed(c, t, m) ==> Next(c, t, m).fs == if HasOEpsilon(st1) then 1 else 0))
      && (c.kind == AltSequenceFilter && m.b.Stay? ==>
        (Allowed(c, t, m) <==> GoesOn2(c.k, st2))
        && (Allowed(c, t, m) ==> Next(c, t, m).fs == if HasIEpsilon(st2) then 1 else 0))
      && (c.kind == MatchFilter && t.fs == 0 && m.b.Stay? ==>
        (Allowed(c, t, m) <==> !HasIEpsilon(st2) || GoesOn2(c.k, st2))
        && (Allowed(c, t, m) ==> Next(c, t, m).fs == if HasIEpsilon(st2) then 1 else 0))
      && (c.kind == MatchFilter && t.fs == 0 && m.a.Stay? ==>
        (Allowed(c, t, m) <==> !HasOEpsilon(st1) || GoesOn1(c.k, st1))
        && (Allowed(c, t, m) ==> Next(c, t, m).fs == if HasOEpsilon(st1) then 2 else 0))
  {
  }

  /** Taking an allowed move m and then ms is the composed path [m] + ms. */
  lemma PrependMove<W>(c: Composition<W>, t: Tuple, m: Move, ms: seq<Move>)
    requires ValidComposition(c) && ValidTuple(c, t) && Allowed(c, t, m)
    ensures ComposedAccepting(c, t, [m] + ms) <==> ComposedAccepting(c, Next(c, t, m), ms)
    ensures Project1([m] + ms) == Positions(m.a) + Project1(ms)
    ensures Project2([m] + ms) == Positions(m.b) + Project2(ms)
  {
    assert ([m] + ms)[1..] == ms;
  }

  lemma InterleaveStep<W>(c: Composition<W>, t: Tuple, p1: seq<nat>, p2: seq<nat>, go: (bool, bool))
    requires ValidComposition(c) && ValidTuple(c, t) && (p1 != [] || p2 != []) && Matching(c, t, p1, p2)
    requires go == Advance(c.kind, EpsilonFirst1(c, t.s1, p1), EpsilonFirst2(c, t.s2, p2))
    requires (go.0 ==> p1 != []) && (go.1 ==> p2 != [])
    requires Erase(OLabels(c.f1, Follow(c.f1, t.s1, p1, go.0), Rest(p1, go.0)))
          == Erase(ILabels(c.f2, Follow(c.f2, t.s2, p2, go.1), Rest(p2, go.1)))
    ensures Interleave(c, t.s1, t.s2, p1, p2)
         == [Move(Used(p1, go.0), Used(p2, go.1))]
            + Interleave(c, Follow(c.f1, t.s1, p1, go.0), Follow(c.f2, t.s2, p2, go.1), Rest(p1, go.0), Rest(p2, go.1))
  {
  }

  lemma UsedAndRest(p: seq<nat>, go: bool)
    requires go ==> p != []
    ensures Positions(Used(p, go)) + Rest(p, go) == p
  {
  }

  /** Every pair of matching paths is composed along its interleaving. */
  lemma {:induction false} InterleaveComposes<W>(c: Composition<W>, t: Tuple, p1: seq<nat>, p2: seq<nat>)
    requires ValidComposition(c) && ValidTuple(c, t)
    requires Matching(c, t, p1, p2) && Open(c, t, p1, p2)
    ensures var ms := Interleave(c, t.s1, t.s2, p1, p2);
            ComposedAccepting(c, t, ms) && Project1(ms) == p1 && Project2(ms) == p2
    decreases |p1| + |p2|
  {
    if p1 != [] || p2 != [] {
      var go := Advance(c.kind, EpsilonFirst1(c, t.s1, p1), EpsilonFirst2(c, t.s2, p2));
      FirstMoveAllowed(c, t, p1, p2, go);
      var m := Move(Used(p1, go.0), Used(p2, go.1));
      var u := Next(c, t, m);
      InterleaveComposes(c, u, Rest(p1, go.0), Rest(p2, go.1));
      PrependMove(c, t, m, Interleave(c, u.s1, u.s2, Rest(p1, go.0), Rest(p2, go.1)));
      InterleaveStep(c, t, p1, p2, go);
      UsedAndRest(p1, go.0);
      UsedAndRest(p2, go.1);
    }
  }

  /** Undoing an allowed move keeps the pair of paths matching. */
  lemma UndoMove<W>(c: Composition<W>, t: Tuple, m: Move, q1: seq<nat>, q2: seq<nat>)
    requires ValidComposition(c) && ValidTuple(c, t) && Allowed(c, t, m)
    requires Matching(c, Next(c, t, m), q1, q2)
    ensures Matching(c, t, Positions(m.a) + q1, Positions(m.b) + q2)
  {
    var u := Next(c, t, m);
    if m.a.Take? {
      Prepend(c.k, c.f1, t.s1, m.a.arc, q1);
      EraseCons(c.f1.states[t.s1].arcs[m.a.arc].olabel, OLabels(c.f1, u.s1, q1));
    } else {
      assert Positions(m.a) + q1 == q1;
    }
    if m.b.Take? {
      Prepend(c.k, c.f2, t.s2, m.b.arc, q2);
      EraseCons(c.f2.states[t.s2].arcs[m.b.arc].ilabel, ILabels(c.f2, u.s2, q2));
    } else {
      assert Positions(m.b) + q2 == q2;
    }
  }

  /** A move that is let through into an open pair is the first move of the interleaving. */
  lemma OnlyFirstMove<W>(c: Composition<W>, t: Tuple, m: Move, q1: seq<nat>, q2: seq<nat>)
    requires ValidComposition(c) && ValidTuple(c, t) && InRange(c.kind, t.fs) && Allowed(c, t, m)
    requires Matching(c, Next(c, t, m), q1, q2) && Open(c, Next(c, t, m), q1, q2)
    ensures var p1, p2 := Positions(m.a) + q1, Positions(m.b) + q2;
            && Matching(c, t, p1, p2) && Open(c, t, p1, p2)
            && Interleave(c, t.s1, t.s2, p1, p2)
               == [m] + Interleave(c, Next(c, t, m).s1, Next(c, t, m).s2, q1, q2)
  {
    UndoMove(c, t, m, q1, q2);
    var p1, p2 := Positions(m.a) + q1, Positions(m.b) + q2;
    var go := Advance(c.kind, EpsilonFirst1(c, t.s1, p1), EpsilonFirst2(c, t.s2, p2));
    assert go == (m.a.Take?, m.b.Take?) && Open(c, t, p1, p2);
    assert Rest(p1, go.0) == q1 && Rest(p2, go.1) == q2;
  }

  /** Every composed path is the interleaving of the matching pair it projects to. */
  lemma {:induction false} ComposedIsInterleave<W>(c: Composition<W>, t: Tuple, ms: seq<Move>)
    requires ValidComposition(c) && ValidTuple(c, t) && InRange(c.kind, t.fs) && ComposedAccepting(c, t, ms)
    ensures Matching(c, t, Project1(ms), Project2(ms)) && Open(c, t, Project1(ms), Project2(ms))
    ensures ms == Interleave(c, t.s1, t.s2, Project1(ms), Project2(ms))
    decreases |ms|
  {
    if ms != [] {
      assert ms == [ms[0]] + ms[1..];
      var u := Next(c, t, ms[0]);
      PrependMove(c, t, ms[0], ms[1..]);
      ComposedIsInterleave(c, u, ms[1..]);
      OnlyFirstMove(c, t, ms[0], Project1(ms[1..]), Project2(ms[1..]));
    }
  }

  /** The start state of the composition, when both transducers have one. */
  ghost function Start<W>(c: Composition<W>): (t: Tuple)
    requires ValidComposition(c) && c.f1.start != NO_STATE_ID && c.f2.start != NO_STATE_ID
    ensures ValidTuple(c, t)
  {
    Tuple(c.f1.start, c.f2.start, 0)
  }

  /** For each of the three filters: a pair of accepting paths of the two transducers is composed along
      exactly one accepting path if its labels match, and along none if they do not. */
  lemma ExactlyOneComposedPath<W>(c: Composition<W>, p1: seq<nat>, p2: seq<nat>, ms: seq<Move>)
    requires ValidComposition(c) && c.f1.start != NO_STATE_ID && c.f2.start != NO_STATE_ID
    ensures (ComposedAccepting(c, Start(c), ms) && Project1(ms) == p1 && Project2(ms) == p2)
       <==> (Matching(c, Start(c), p1, p2) && ms == Interleave(c, c.f1.start, c.f2.start, p1, p2))
  {
    if ComposedAccepting(c, Start(c), ms) {
      ComposedIsInterleave(c, Start(c), ms);
    }
    if Matching(c, Start(c), p1, p2) {
      InterleaveComposes(c, Start(c), p1, p2);
    }
  }

  lemma MoveWeight<W(!new)>(c: Composition<W>, t: Tuple, m: Move, q1: seq<nat>, q2: seq<nat>)
    requires ValidComposition(c) && ValidTuple(c, t) && CommutativeTimes(c.k) && Allowed(c, t, m)
    requires Matching(c, Next(c, t, m), q1, q2)
    requires Matching(c, t, Positions(m.a) + q1, Positions(m.b) + q2)
    ensures c.k.Times(c.k.Times(SideArc1(c.k, c.f1, t.s1, m.a).weight, SideArc2(c.k, c.f2, t.s2, m.b).weight),
                      c.k.Times(PathWeight(c.k, c.f1, Next(c, t, m).s1, q1),
                        PathWeight(c.k, c.f2, Next(c, t, m).s2, q2)))
         == c.k.Times(PathWeight(c.k, c.f1, t.s1, Positions(m.a) + q1),
           PathWeight(c.k, c.f2, t.s2, Positions(m.b) + q2))
  {
    var u := Next(c, t, m);
    var w1, w2 := PathWeight(c.k, c.f1, u.s1, q1), PathWeight(c.k, c.f2, u.s2, q2);
    TimesMiddle(c.k, SideArc1(c.k, c.f1, t.s1, m.a).weight, SideArc2(c.k, c.f2, t.s2, m.b).weight, w1, w2);
    if m.a.Take? {
      Prepend(c.k, c.f1, t.s1, m.a.arc, q1);
    } else {
      assert Positions(m.a) + q1 == q1;
      TimesOne(c.k, w1);
    }
    if m.b.Take? {
      Prepend(c.k, c.f2, t.s2, m.b.arc, q2);
    } else {
      assert Positions(m.b) + q2 == q2;
      TimesOne(c.k, w2);
    }
  }

  /** In a commutative semiring the composed path weighs the product of the two paths it is made of. */
  lemma {:induction false} ComposedWeightIsProduct<W(!new)>(c: Composition<W>, t: Tuple, ms: seq<Move>)
    requires ValidComposition(c) && ValidTuple(c, t) && InRange(c.kind, t.fs) && CommutativeTimes(c.k)
    requires ComposedAccepting(c, t, ms)
    ensures Matching(c, t, Project1(ms), Project2(ms))
    ensures ComposedWeight(c, t, ms)
         == c.k.Times(PathWeight(c.k, c.f1, t.s1, Project1(ms)), PathWeight(c.k, c.f2, t.s2, Project2(ms)))
    decreases |ms|
  {
    ComposedIsInterleave(c, t, ms);
    if ms != [] {
      var u := Next(c, t, ms[0]);
      ComposedIsInterleave(c, u, ms[1..]);
      ComposedWeightIsProduct(c, u, ms[1..]);
      MoveWeight(c, t, ms[0], Project1(ms[1..]), Project2(ms[1..]));
    }
  }

  /** The composed path reads what FST1's path reads and writes what FST2's path writes. */
  lemma {:induction false} ComposedLabelsAgree<W>(c: Composition<W>, t: Tuple, ms: seq<Move>)
    requires ValidComposition(c) && ValidTuple(c, t) && InRange(c.kind, t.fs) && ComposedAccepting(c, t, ms)
    ensures Matching(c, t, Project1(ms), Project2(ms))
    ensures Erase(ComposedLabels(c, t, ms).0) == Erase(ILabels(c.f1, t.s1, Project1(ms)))
    ensures Erase(ComposedLabels(c, t, ms).1) == Erase(OLabels(c.f2, t.s2, Project2(ms)))
    decreases |ms|
  {
    ComposedIsInterleave(c, t, ms);
    if ms != [] {
      var m, u := ms[0], Next(c, t, ms[0]);
      ComposedIsInterleave(c, u, ms[1..]);
      ComposedLabelsAgree(c, u, ms[1..]);
      var rest := ComposedLabels(c, u, ms[1..]);
      EraseCons(SideArc1(c.k, c.f1, t.s1, m.a).ilabel, rest.0);
      EraseCons(SideArc2(c.k, c.f2, t.s2, m.b).olabel, rest.1);
      if m.a.Take? {
        Prepend(c.k, c.f1, t.s1, m.a.arc, Project1(ms[1..]));
        EraseCons(SideArc1(c.k, c.f1, t.s1, m.a).ilabel, ILabels(c.f1, u.s1, Project1(ms[1..])));
      } else {
        assert Project1(ms) == Project1(ms[1..]);
      }
      if m.b.Take? {
        Prepend(c.k, c.f2, t.s2, m.b.arc, Project2(ms[1..]));
        EraseCons(SideArc2(c.k, c.f2, t.s2, m.b).olabel, OLabels(c.f2, u.s2, Project2(ms[1..])));
      } else {
        assert Project2(ms) == Project2(ms[1..]);
      }
    }
  }
}
