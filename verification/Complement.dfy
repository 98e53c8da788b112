/** The complement of a deterministic acceptor: final and non-final states are exchanged after completion by one
    sink. */
module Complements {
  import opened Semirings
  import opened Fsts
  import opened Equivalents
  import opened Weights

  // Matches every label that no other arc of the state carries.
  const RHO_LABEL := -2

  function RhoArc<W>(k: Semiring<W>): Arc<W> {
    Arc(RHO_LABEL, RHO_LABEL, k.One, 0)
  }

  function ShiftedArc<W>(arc: Arc<W>): Arc<W> {
    arc.(nextstate := arc.nextstate + 1)
  }

  /** The same arc, to the state numbered one higher. */
  ghost predicate IsShifted<W>(input: Arc<W>, arc: Arc<W>) {
    && arc.ilabel == input.ilabel && arc.olabel == input.olabel && arc.weight == input.weight
    && arc.nextstate == input.nextstate + 1
  }

  /** The arcs of output state s: the one to the sink, then those of input state s - 1. */
  function ComplementArcs<W>(k: Semiring<W>, f: Fst<W>, s: nat): (r: seq<Arc<W>>)
    requires s <= |f.states|
  {
    if s == 0 then [RhoArc(k)]
    else
      var arcs := f.states[s - 1].arcs;
      [RhoArc(k)] + seq(|arcs|, i requires 0 <= i < |arcs| => ShiftedArc(arcs[i]))
  }

  class ComplementFst<W(==)> {
    const k: Semiring<W>
    const fst: Fst<W>

    constructor (k: Semiring<W>, fst: Fst<W>)
      ensures this.k == k && this.fst == fst
    {
      this.k, this.fst := k, fst;
    }

    function Start(): int {
      if fst.start != NO_STATE_ID then fst.start + 1 else 0
    }

    function Final(s: nat): W
      requires s <= |fst.states|
    {
      if s == 0 || fst.states[s - 1].final == k.Zero then k.One else k.Zero
    }

    function NumArcs(s: nat): (n: nat)
      requires s <= |fst.states|
      ensures n == |ComplementArcs(k, fst, s)|
    {
      if s == 0 then 1 else |fst.states[s - 1].arcs| + 1
    }
  }

  /** Runs over the sink arc and then, one behind, over the input arcs. */
  class ArcIterator<W(==)> {
    const impl: ComplementFst<W>
    const s: nat
    var pos: nat
    // Position of the iterator over the input arcs.
    var inner: nat

    ghost predicate Valid()
      reads this
    {
      s <= |impl.fst.states| && (s != 0 ==> inner == if pos == 0 then 0 else pos - 1)
    }

    constructor (impl: ComplementFst<W>, s: nat)
      requires s <= |impl.fst.states|
      ensures Valid() && this.impl == impl && this.s == s && pos == 0
    {
      this.impl, this.s, pos, inner := impl, s, 0, 0;
    }

    predicate Done()
      requires Valid()
      reads this
      ensures Done() <==> pos >= impl.NumArcs(s)
    {
      if s != 0 then pos > 0 && inner >= |impl.fst.states[s - 1].arcs| else pos > 0
    }

    function Value(): (arc: Arc<W>)
      requires Valid() && !Done()
      reads this
      ensures pos < |ComplementArcs(impl.k, impl.fst, s)| && arc == ComplementArcs(impl.k, impl.fst, s)[pos]
      ensures pos == 0 ==> arc.ilabel == arc.olabel == RHO_LABEL && arc.weight == impl.k.One && arc.nextstate == 0
      ensures pos > 0 ==>
        s > 0 && pos <= |impl.fst.states[s - 1].arcs| && IsShifted(impl.fst.states[s - 1].arcs[pos - 1], arc)
    {
      if pos == 0 then RhoArc(impl.k) else ShiftedArc(impl.fst.states[s - 1].arcs[inner])
    }

    method Next()
      requires Valid() && !Done()
      modifies this
      ensures Valid() && pos == old(pos) + 1
    {
      if s != 0 && pos > 0 {
        inner := inner + 1;
      }
      pos := pos + 1;
    }

    method Seek(a: nat)
      requires Valid()
      modifies this
      ensures Valid() && pos == a
    {
      if s != 0 {
        inner := if a == 0 then 0 else a - 1;
      }
      pos := a;
    }
  }

  /** The complement of an acceptor is an acceptor, and that of an unweighted one is unweighted. */
  lemma ComplementKeepsKind<W>(c: ComplementFst<W>, s: nat, i: nat)
    requires s <= |c.fst.states| && i < |ComplementArcs(c.k, c.fst, s)|
    ensures var arc := ComplementArcs(c.k, c.fst, s)[i];
      && (IsAcceptor(c.fst) ==> arc.olabel == arc.ilabel)
      && (Unweighted(c.k, c.fst) ==> arc.weight == c.k.One || arc.weight == c.k.Zero)
    ensures c.Final(s) == c.k.One || c.Final(s) == c.k.Zero
  {
    ComplementArcAt(c.k, c.fst, s, i);
  }

  lemma ComplementArcAt<W>(k: Semiring<W>, f: Fst<W>, s: nat, i: nat)
    requires s <= |f.states| && i < |ComplementArcs(k, f, s)|
    ensures i > 0 ==> s > 0 && i <= |f.states[s - 1].arcs|
    ensures ComplementArcs(k, f, s)[i] == if i == 0 then RhoArc(k) else ShiftedArc(f.states[s - 1].arcs[i - 1])
  {
  }

  ghost predicate IsAcceptor<W>(f: Fst<W>) {
    forall s, i :: 0 <= s < |f.states| && 0 <= i < |f.states[s].arcs| ==>
      f.states[s].arcs[i].olabel == f.states[s].arcs[i].ilabel
  }

  /** Only the weights One and Zero. */
  ghost predicate Unweighted<W>(k: Semiring<W>, f: Fst<W>) {
    forall s, i :: 0 <= s < |f.states| && 0 <= i < |f.states[s].arcs| ==>
      f.states[s].arcs[i].weight == k.One || f.states[s].arcs[i].weight == k.Zero
  }

  // ---- What the complement accepts

  /** Arc i is the one to follow for the label: it carries it, or it is the rho arc and no arc does. The rho arc is
      never followed for epsilon or for no label. */
  ghost predicate Matches<W>(arcs: seq<Arc<W>>, l: int, i: nat) {
    && i < |arcs|
    && (arcs[i].ilabel == l
        || (l != EPSILON && l != NO_LABEL && arcs[i].ilabel == RHO_LABEL
            && forall j :: 0 <= j < |arcs| ==> arcs[j].ilabel != l))
  }

  ghost predicate RhoAccepts<W>(c: ComplementFst<W>, s: nat, x: seq<int>)
    requires Valid(c.fst) && s <= |c.fst.states|
    decreases x
  {
    if x == [] then c.Final(s) != c.k.Zero
    else exists i :: 0 <= i < |ComplementArcs(c.k, c.fst, s)| && RhoTakes(c, s, x, i)
  }

  ghost predicate RhoTakes<W>(c: ComplementFst<W>, s: nat, x: seq<int>, i: nat)
    requires Valid(c.fst) && s <= |c.fst.states| && x != [] && i < |ComplementArcs(c.k, c.fst, s)|
    decreases x, 0
  {
    var arc := ComplementArcs(c.k, c.fst, s)[i];
    && Matches(ComplementArcs(c.k, c.fst, s), x[0], i) && arc.weight != c.k.Zero && arc.nextstate <= |c.fst.states|
    && RhoAccepts(c, arc.nextstate, x[1..])
  }

  /** Strings of symbols: epsilon and the negative labels are none. */
  ghost predicate Proper(x: seq<int>) {
    forall i :: 0 <= i < |x| ==> x[i] > 0
  }

  ghost predicate EpsilonFree<W>(f: Fst<W>) {
    forall s, i :: 0 <= s < |f.states| && 0 <= i < |f.states[s].arcs| ==> f.states[s].arcs[i].ilabel > 0
  }

  lemma ProperRest(x: seq<int>)
    requires Proper(x) && x != []
    ensures x[0] > 0 && Proper(x[1..])
  {
  }

  /** The sink accepts everything. */
  lemma {:induction false} SinkAccepts<W>(c: ComplementFst<W>, x: seq<int>)
    requires Valid(c.fst) && Proper(x) && c.k.One != c.k.Zero
    ensures RhoAccepts(c, 0, x)
    decreases x
  {
    if x != [] {
      ProperRest(x);
      SinkAccepts(c, x[1..]);
      assert RhoTakes(c, 0, x, 0);
    }
  }

  /** The string's run takes an arc of weight Zero. */
  ghost predicate CrossesZero<W>(k: Semiring<W>, f: Fst<W>, s: nat, x: seq<int>)
    requires Valid(f) && s < |f.states|
    decreases x
  {
    x != [] && exists i :: 0 <= i < |f.states[s].arcs| && CrossesZeroAt(k, f, s, x, i)
  }

  ghost predicate CrossesZeroAt<W>(k: Semiring<W>, f: Fst<W>, s: nat, x: seq<int>, i: nat)
    requires Valid(f) && s < |f.states| && x != [] && i < |f.states[s].arcs|
    decreases x, 0
  {
    var arc := f.states[s].arcs[i];
    arc.ilabel == x[0] && (arc.weight == k.Zero || CrossesZero(k, f, arc.nextstate, x[1..]))
  }

  /** With the label on arc i, that arc decides whether the input accepts. */
  lemma InputFollows<W>(k: Semiring<W>, f: Fst<W>, s: nat, x: seq<int>, i: nat)
    requires Valid(f) && Deterministic(f) && s < |f.states| && x != []
    requires i < |f.states[s].arcs| && f.states[s].arcs[i].ilabel == x[0]
    ensures var arc := f.states[s].arcs[i]; AcceptsFrom(k, f, s, x) <==>
      arc.weight != k.Zero && AcceptsFrom(k, f, arc.nextstate, x[1..])
  {
    assert forall j :: 0 <= j < |f.states[s].arcs| && f.states[s].arcs[j].ilabel == x[0] ==> j == i;
    assert TakesArc(k, f, s, x, i) <==>
      f.states[s].arcs[i].weight != k.Zero && AcceptsFrom(k, f, f.states[s].arcs[i].nextstate, x[1..]);
  }

  /** And whether the run crosses an arc of weight Zero. */
  lemma ZeroFollows<W>(k: Semiring<W>, f: Fst<W>, s: nat, x: seq<int>, i: nat)
    requires Valid(f) && Deterministic(f) && s < |f.states| && x != []
    requires i < |f.states[s].arcs| && f.states[s].arcs[i].ilabel == x[0]
    ensures var arc := f.states[s].arcs[i]; CrossesZero(k, f, s, x) <==>
      arc.weight == k.Zero || CrossesZero(k, f, arc.nextstate, x[1..])
  {
    assert forall j :: 0 <= j < |f.states[s].arcs| && f.states[s].arcs[j].ilabel == x[0] ==> j == i;
    assert CrossesZeroAt(k, f, s, x, i) <==>
      f.states[s].arcs[i].weight == k.Zero || CrossesZero(k, f, f.states[s].arcs[i].nextstate, x[1..]);
  }

  /** And, one place on, whether the complement accepts. */
  lemma OutputFollows<W>(c: ComplementFst<W>, s: nat, x: seq<int>, i: nat)
    requires Valid(c.fst) && Deterministic(c.fst) && s < |c.fst.states| && x != [] && x[0] > 0
    requires i < |c.fst.states[s].arcs| && c.fst.states[s].arcs[i].ilabel == x[0]
    ensures var arc := c.fst.states[s].arcs[i];
      RhoAccepts(c, s + 1, x) <==> arc.weight != c.k.Zero && RhoAccepts(c, arc.nextstate + 1, x[1..])
  {
    var arcs, out := c.fst.states[s].arcs, ComplementArcs(c.k, c.fst, s + 1);
    assert out[i + 1] == ShiftedArc(arcs[i]);
    forall j | 0 <= j < |out| && Matches(out, x[0], j) ensures j == i + 1 {
      if j > 0 {
        assert out[j] == ShiftedArc(arcs[j - 1]);
      }
    }
    assert RhoTakes(c, s + 1, x, i + 1) <==> arcs[i].weight != c.k.Zero && RhoAccepts(c, arcs[i].nextstate + 1, x[1..]);
  }

  /** Without the label, the input rejects and the complement goes to the sink. */
  lemma FollowRho<W>(c: ComplementFst<W>, s: nat, x: seq<int>)
    requires Valid(c.fst) && s < |c.fst.states| && Proper(x) && x != [] && c.k.One != c.k.Zero
    requires forall i :: 0 <= i < |c.fst.states[s].arcs| ==> c.fst.states[s].arcs[i].ilabel != x[0]
    ensures !AcceptsFrom(c.k, c.fst, s, x) && RhoAccepts(c, s + 1, x) && !CrossesZero(c.k, c.fst, s, x)
  {
    ProperRest(x);
    SinkAccepts(c, x[1..]);
    var out := ComplementArcs(c.k, c.fst, s + 1);
    assert forall j :: 0 < j < |out| ==> out[j] == ShiftedArc(c.fst.states[s].arcs[j - 1]);
    assert RhoTakes(c, s + 1, x, 0);
  }

  /** The complement accepts exactly what the input rejects, but for strings whose run takes a Zero arc: those both
      reject. */
  lemma {:induction false} ComplementFrom<W>(c: ComplementFst<W>, s: nat, x: seq<int>)
    requires Valid(c.fst) && EpsilonFree(c.fst) && Deterministic(c.fst) && s < |c.fst.states|
    requires Proper(x) && c.k.One != c.k.Zero
    ensures RhoAccepts(c, s + 1, x) <==> !AcceptsFrom(c.k, c.fst, s, x) && !CrossesZero(c.k, c.fst, s, x)
    ensures CrossesZero(c.k, c.fst, s, x) ==> !AcceptsFrom(c.k, c.fst, s, x)
    decreases x
  {
    if x != [] {
      ProperRest(x);
      if i :| 0 <= i < |c.fst.states[s].arcs| && c.fst.states[s].arcs[i].ilabel == x[0] {
        InputFollows(c.k, c.fst, s, x, i);
        ZeroFollows(c.k, c.fst, s, x, i);
        OutputFollows(c, s, x, i);
        ComplementFrom(c, c.fst.states[s].arcs[i].nextstate, x[1..]);
      } else {
        FollowRho(c, s, x);
      }
    }
  }

  /** Some arc that can be reached from the start has weight Zero, which still counts as unweighted. */
  ghost predicate ReachesZeroArc<W>(k: Semiring<W>, f: Fst<W>)
    requires Valid(f)
  {
    f.start != NO_STATE_ID && exists p, i :: IsZeroArc(k, f, f.start, p, i)
  }

  ghost predicate IsZeroArc<W>(k: Semiring<W>, f: Fst<W>, s: nat, p: seq<nat>, i: nat)
    requires Valid(f) && s < |f.states|
  {
    && IsPath(f, s, p) && i < |f.states[PathEnd(f, s, p)].arcs|
    && f.states[PathEnd(f, s, p)].arcs[i].weight == k.Zero
  }

  lemma {:induction false} ZeroArcCrossed<W>(k: Semiring<W>, f: Fst<W>, s: nat, p: seq<nat>, i: nat)
    requires Valid(f) && EpsilonFree(f) && s < |f.states| && IsZeroArc(k, f, s, p, i)
    ensures IsPath(f, s, p + [i]) && CrossesZero(k, f, s, ILabels(f, s, p + [i])) && Proper(ILabels(f, s, p + [i]))
    decreases |p|
  {
    Append(f, s, p, i);
    var q := p + [i];
    var x := ILabels(f, s, q);
    var arc := f.states[s].arcs[q[0]];
    if p == [] {
      assert q[1..] == [];
    } else {
      assert q[1..] == p[1..] + [i];
      ZeroArcCrossed(k, f, arc.nextstate, p[1..], i);
    }
    assert x[0] == arc.ilabel && x[1..] == ILabels(f, arc.nextstate, q[1..]);
    assert CrossesZeroAt(k, f, s, x, q[0]);
  }

  lemma {:induction false} CrossedIsZeroArc<W>(k: Semiring<W>, f: Fst<W>, s: nat, x: seq<int>)
    returns (p: seq<nat>, i: nat)
    requires Valid(f) && s < |f.states| && CrossesZero(k, f, s, x)
    ensures IsZeroArc(k, f, s, p, i)
    decreases x
  {
    var j :| 0 <= j < |f.states[s].arcs| && CrossesZeroAt(k, f, s, x, j);
    if f.states[s].arcs[j].weight == k.Zero {
      p, i := [], j;
    } else {
      var q: seq<nat>;
      q, i := CrossedIsZeroArc(k, f, f.states[s].arcs[j].nextstate, x[1..]);
      p := [j] + q;
      Prepend(k, f, s, j, q);
    }
  }

  ghost predicate IsComplement<W>(c: ComplementFst<W>)
    requires Valid(c.fst)
  {
    forall x :: Proper(x) ==> (RhoAccepts(c, c.Start(), x) <==> !Accepts(c.k, c.fst, x))
  }

  /** The complement of a deterministic acceptor without epsilons is right on all strings exactly when no arc of
      weight Zero can be reached. */
  lemma ComplementIffNoZeroArc<W>(c: ComplementFst<W>)
    requires Valid(c.fst) && EpsilonFree(c.fst) && Deterministic(c.fst) && c.k.One != c.k.Zero
    ensures IsComplement(c) <==> !ReachesZeroArc(c.k, c.fst)
  {
    var f := c.fst;
    if ReachesZeroArc(c.k, f) {
      var p, i :| IsZeroArc(c.k, f, f.start, p, i);
      ZeroArcCrossed(c.k, f, f.start, p, i);
      var x := ILabels(f, f.start, p + [i]);
      ComplementFrom(c, f.start, x);
      assert !RhoAccepts(c, c.Start(), x) && !Accepts(c.k, f, x);
    } else {
      forall x | Proper(x) ensures RhoAccepts(c, c.Start(), x) <==> !Accepts(c.k, f, x) {
        if f.start == NO_STATE_ID {
          SinkAccepts(c, x);
        } else {
          ComplementFrom(c, f.start, x);
          if CrossesZero(c.k, f, f.start, x) {
            var p, i := CrossedIsZeroArc(c.k, f, f.start, x);
          }
        }
      }
    }
  }

  /** A single state with a loop of weight Zero: both the acceptor and its complement reject the string of that
      label. */
  lemma ZeroArcExample(c: ComplementFst<Tropical>)
    requires c.k == TROPICAL && c.fst == Fst(0, [State(TROPICAL.One, [Arc(1, 1, TROPICAL.Zero, 0)])])
    ensures Valid(c.fst) && EpsilonFree(c.fst) && Deterministic(c.fst)
    ensures !RhoAccepts(c, c.Start(), [1]) && !Accepts(c.k, c.fst, [1])
  {
    assert c.fst.states[0].arcs[0].weight == c.k.Zero;
    assert CrossesZeroAt(c.k, c.fst, 0, [1], 0);
    ComplementFrom(c, 0, [1]);
  }
}
