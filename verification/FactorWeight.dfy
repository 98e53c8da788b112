/** Weight factoring: arcs and final weights that are too long are cut, the rest is carried along as a residual. */
module FactorWeights {
  import opened Semirings
  import opened Fsts
  import opened Weights
  import opened Sequences

  /** An iterator that yields at most one factor pair: none for a weight that is done, else its two parts. */
  datatype Factor<!W> = Factor(done: W -> bool, split: W -> (W, W), size: W -> nat)

  /** A product with r is Zero only if the other side is. */
  ghost predicate Regular<W(!new)>(k: Semiring<W>, r: W) {
    forall v {:trigger At2(r, v)} :: At2(r, v) ==> (v != k.Zero ==> k.Times(r, v) != k.Zero)
  }

  /** The parts multiply to the whole; the first one is done, the second is shorter. */
  ghost predicate Splits<W(!new)>(k: Semiring<W>, fac: Factor<W>, w: W) {
    !fac.done(w) ==>
      && k.Times(fac.split(w).0, fac.split(w).1) == w && fac.done(fac.split(w).0)
      && fac.size(fac.split(w).1) < fac.size(w) && Regular(k, fac.split(w).1)
  }

  ghost predicate SingleFactor<W(!new)>(k: Semiring<W>, fac: Factor<W>) {
    && MultiplicativeLaws(k) && k.One != k.Zero && fac.done(k.Zero)
    && (forall a {:trigger At1(a)} :: At1(a) ==> k.Times(a, k.Zero) == k.Zero)
    && (forall w {:trigger At1(w)} :: At1(w) ==> Splits(k, fac, w))
  }

  // ---- The factored transducer, state by state

  /** An input state, NO_STATE_ID inside the factored end of a path, and a residual weight. */
  datatype FactorElement<W> = FactorElement(state: int, weight: W)

  /** Which weights are factored, and the labels of the arcs that carry factored final weights. */
  datatype Options = Options(arcs: bool, finals: bool, finalIlabel: int, finalOlabel: int)

  datatype OutArc<W> = OutArc(ilabel: int, olabel: int, weight: W, dest: FactorElement<W>)

  datatype Factoring<!W> = Factoring(k: Semiring<W>, fac: Factor<W>, o: Options, f: Fst<W>)

  ghost predicate ValidFactoring<W(!new)>(c: Factoring<W>) {
    SingleFactor(c.k, c.fac) && Valid(c.f)
  }

  predicate InFst<W>(f: Fst<W>, e: FactorElement<W>) {
    e.state == NO_STATE_ID || 0 <= e.state < |f.states|
  }

  ghost predicate ValidElement<W(!new)>(c: Factoring<W>, e: FactorElement<W>) {
    && InFst(c.f, e)
    && if e.state == NO_STATE_ID then e.weight != c.k.Zero else Regular(c.k, e.weight)
  }

  function InputArcs<W>(f: Fst<W>, e: FactorElement<W>): seq<Arc<W>>
    requires InFst(f, e)
  {
    if e.state == NO_STATE_ID then [] else f.states[e.state].arcs
  }

  /** What becomes of an input arc. */
  function FactoredArc<W(==)>(c: Factoring<W>, r: W, arc: Arc<W>): OutArc<W> {
    var w := c.k.Times(r, arc.weight);
    if !c.o.arcs || c.fac.done(w) then OutArc(arc.ilabel, arc.olabel, w, FactorElement(arc.nextstate, c.k.One))
    else OutArc(arc.ilabel, arc.olabel, c.fac.split(w).0, FactorElement(arc.nextstate, c.fac.split(w).1))
  }

  function FinalWeight<W>(c: Factoring<W>, e: FactorElement<W>): W
    requires InFst(c.f, e)
  {
    if e.state == NO_STATE_ID then e.weight else c.k.Times(e.weight, c.f.states[e.state].final)
  }

  /** The final weight is to be cut. */
  predicate HasTail<W(==)>(c: Factoring<W>, e: FactorElement<W>)
    requires InFst(c.f, e)
  {
    && c.o.finals && (e.state == NO_STATE_ID || c.f.states[e.state].final != c.k.Zero)
    && !c.fac.done(FinalWeight(c, e))
  }

  /** The arc that carries the first part of the final weight. */
  function TailArc<W>(c: Factoring<W>, e: FactorElement<W>): OutArc<W>
    requires InFst(c.f, e)
  {
    var parts := c.fac.split(FinalWeight(c, e));
    OutArc(c.o.finalIlabel, c.o.finalOlabel, parts.0, FactorElement(NO_STATE_ID, parts.1))
  }

  function NumOutArcs<W(==)>(c: Factoring<W>, e: FactorElement<W>): nat
    requires InFst(c.f, e)
  {
    |InputArcs(c.f, e)| + (if HasTail(c, e) then 1 else 0)
  }

  /** Output arc i comes from input arc i; the one behind them from the final weight. */
  function OutArcAt<W(==)>(c: Factoring<W>, e: FactorElement<W>, i: nat): OutArc<W>
    requires InFst(c.f, e) && i < NumOutArcs(c, e)
  {
    if i < |InputArcs(c.f, e)| then FactoredArc(c, e.weight, InputArcs(c.f, e)[i]) else TailArc(c, e)
  }

  function OutFinal<W>(c: Factoring<W>, e: FactorElement<W>): W
    requires InFst(c.f, e)
  {
    if !c.o.finals || c.fac.done(FinalWeight(c, e)) then FinalWeight(c, e) else c.k.Zero
  }

  lemma RegularOne<W(!new)>(k: Semiring<W>)
    requires MultiplicativeLaws(k)
    ensures Regular(k, k.One)
  {
    forall v {:trigger At2(k.One, v)} | v != k.Zero ensures k.Times(k.One, v) != k.Zero {
      TimesOne(k, v);
    }
  }

  /** Elements stay valid along arcs. */
  lemma OutArcValid<W(!new)>(c: Factoring<W>, e: FactorElement<W>, i: nat)
    requires ValidFactoring(c) && ValidElement(c, e) && i < NumOutArcs(c, e)
    ensures ValidElement(c, OutArcAt(c, e, i).dest)
  {
    RegularOne(c.k);
    if i < |InputArcs(c.f, e)| {
      assert At1(c.k.Times(e.weight, InputArcs(c.f, e)[i].weight));
    } else {
      assert At1(FinalWeight(c, e));
      var r := c.fac.split(FinalWeight(c, e)).1;
      assert At2(r, c.k.One);
      TimesOne(c.k, r);
    }
  }

  // ---- Paths of the factored transducer

  ghost predicate IsOutPath<W(!new)>(c: Factoring<W>, e: FactorElement<W>, q: seq<nat>)
    requires ValidFactoring(c) && ValidElement(c, e)
    decreases |q|
  {
    q == [] || (q[0] < NumOutArcs(c, e) && (OutArcValid(c, e, q[0]); IsOutPath(c, OutArcAt(c, e, q[0]).dest, q[1..])))
  }

  ghost predicate OutAccepting<W(!new)>(c: Factoring<W>, e: FactorElement<W>, q: seq<nat>)
    requires ValidFactoring(c) && ValidElement(c, e)
    ensures OutAccepting(c, e, q) ==> IsOutPath(c, e, q)
    decreases |q|
  {
    if q == [] then OutFinal(c, e) != c.k.Zero
    else q[0] < NumOutArcs(c, e) && (OutArcValid(c, e, q[0]); OutAccepting(c, OutArcAt(c, e, q[0]).dest, q[1..]))
  }

  ghost function OutWeight<W(!new)>(c: Factoring<W>, e: FactorElement<W>, q: seq<nat>): W
    requires ValidFactoring(c) && ValidElement(c, e) && IsOutPath(c, e, q)
    decreases |q|
  {
    if q == [] then OutFinal(c, e)
    else
      var arc := OutArcAt(c, e, q[0]);
      OutArcValid(c, e, q[0]);
      c.k.Times(arc.weight, OutWeight(c, arc.dest, q[1..]))
  }

  /** The input and output labels along a path. */
  ghost function OutLabels<W(!new)>(c: Factoring<W>, e: FactorElement<W>, q: seq<nat>): seq<(int, int)>
    requires ValidFactoring(c) && ValidElement(c, e) && IsOutPath(c, e, q)
    decreases |q|
  {
    if q == [] then []
    else
      var arc := OutArcAt(c, e, q[0]);
      OutArcValid(c, e, q[0]);
      [(arc.ilabel, arc.olabel)] + OutLabels(c, arc.dest, q[1..])
  }

  ghost function Labels<W>(f: Fst<W>, s: nat, p: seq<nat>): seq<(int, int)>
    requires Valid(f) && s < |f.states| && IsPath(f, s, p)
    decreases |p|
  {
    if p == [] then []
    else var arc := f.states[s].arcs[p[0]]; [(arc.ilabel, arc.olabel)] + Labels(f, arc.nextstate, p[1..])
  }

  // ---- From input paths to factored ones

  /** The arcs that carry what is left of a final weight; the residual gets shorter, so they end. */
  ghost function Tail<W(!new)>(c: Factoring<W>, e: FactorElement<W>): (q: seq<nat>)
    requires ValidFactoring(c) && ValidElement(c, e)
    ensures |q| <= c.fac.size(FinalWeight(c, e))
    decreases c.fac.size(FinalWeight(c, e))
  {
    if HasTail(c, e) then
      var n := |InputArcs(c.f, e)|;
      OutArcValid(c, e, n);
      assert At1(FinalWeight(c, e));
      [n] + Tail(c, TailArc(c, e).dest)
    else []
  }

  ghost function FactorPath<W(!new)>(c: Factoring<W>, e: FactorElement<W>, p: seq<nat>): (q: seq<nat>)
    requires ValidFactoring(c) && ValidElement(c, e) && e.state != NO_STATE_ID && IsPath(c.f, e.state, p)
    ensures |q| >= |p|
    decreases |p|
  {
    if p == [] then Tail(c, e)
    else
      OutArcValid(c, e, p[0]);
      [p[0]] + FactorPath(c, OutArcAt(c, e, p[0]).dest, p[1..])
  }

  /** Labels of n tail arcs. */
  ghost function TailLabels(o: Options, n: nat): (r: seq<(int, int)>)
    ensures |r| == n && forall i :: 0 <= i < n ==> r[i] == (o.finalIlabel, o.finalOlabel)
  {
    if n == 0 then [] else [(o.finalIlabel, o.finalOlabel)] + TailLabels(o, n - 1)
  }

  /** Following arc i and then q is the path [i] + q. */
  lemma OutPrepend<W(!new)>(c: Factoring<W>, e: FactorElement<W>, i: nat, q: seq<nat>)
    requires ValidFactoring(c) && ValidElement(c, e) && i < NumOutArcs(c, e) && ValidElement(c, OutArcAt(c, e, i).dest)
    requires IsOutPath(c, OutArcAt(c, e, i).dest, q)
    ensures var arc := OutArcAt(c, e, i); var p := [i] + q;
      && IsOutPath(c, e, p) && (OutAccepting(c, e, p) <==> OutAccepting(c, arc.dest, q))
      && OutWeight(c, e, p) == c.k.Times(arc.weight, OutWeight(c, arc.dest, q))
      && OutLabels(c, e, p) == [(arc.ilabel, arc.olabel)] + OutLabels(c, arc.dest, q)
  {
    DropFirst(i, q);
  }

  /** The tail of an element with a non-Zero final weight is accepting and carries all of that weight. */
  lemma {:induction false} TailCarries<W(!new)>(c: Factoring<W>, e: FactorElement<W>)
    requires ValidFactoring(c) && ValidElement(c, e)
    requires e.state != NO_STATE_ID ==> c.f.states[e.state].final != c.k.Zero
    ensures OutAccepting(c, e, Tail(c, e)) && OutWeight(c, e, Tail(c, e)) == FinalWeight(c, e)
    ensures OutLabels(c, e, Tail(c, e)) == TailLabels(c.o, |Tail(c, e)|)
    decreases c.fac.size(FinalWeight(c, e))
  {
    if HasTail(c, e) {
      var n := |InputArcs(c.f, e)|;
      OutArcValid(c, e, n);
      assert At1(FinalWeight(c, e));
      var dest := TailArc(c, e).dest;
      TailCarries(c, dest);
      OutPrepend(c, e, n, Tail(c, dest));
    } else if e.state != NO_STATE_ID {
      assert At2(e.weight, c.f.states[e.state].final);
    }
  }

  /** An accepting path is factored into an accepting one with the same weight. */
  lemma {:induction false} FactorPathCarries<W(!new)>(c: Factoring<W>, e: FactorElement<W>, p: seq<nat>)
    requires ValidFactoring(c) && ValidElement(c, e) && e.state != NO_STATE_ID && Accepting(c.k, c.f, e.state, p)
    ensures var q := FactorPath(c, e, p);
      OutAccepting(c, e, q) && OutWeight(c, e, q) == c.k.Times(e.weight, PathWeight(c.k, c.f, e.state, p))
    decreases |p|
  {
    if p == [] {
      TailCarries(c, e);
    } else {
      OutArcValid(c, e, p[0]);
      var arc, dest := c.f.states[e.state].arcs[p[0]], OutArcAt(c, e, p[0]).dest;
      FactorPathCarries(c, dest, p[1..]);
      OutPrepend(c, e, p[0], FactorPath(c, dest, p[1..]));
      FactoredArcWeight(c, e.weight, arc, PathWeight(c.k, c.f, arc.nextstate, p[1..]));
    }
  }

  /** The factored path q has the labels of p, followed by those of the tail. */
  ghost predicate SameLabels<W(!new)>(c: Factoring<W>, e: FactorElement<W>, p: seq<nat>, q: seq<nat>)
    requires ValidFactoring(c) && ValidElement(c, e) && e.state != NO_STATE_ID && IsPath(c.f, e.state, p)
  {
    && IsOutPath(c, e, q) && |p| <= |q|
    && OutLabels(c, e, q) == Labels(c.f, e.state, p) + TailLabels(c.o, |q| - |p|)
  }

  lemma SameLabelsStep<W(!new)>(c: Factoring<W>, e: FactorElement<W>, p: seq<nat>, rest: seq<nat>)
    requires ValidFactoring(c) && ValidElement(c, e) && e.state != NO_STATE_ID && IsPath(c.f, e.state, p) && p != []
    requires ValidElement(c, OutArcAt(c, e, p[0]).dest) && SameLabels(c, OutArcAt(c, e, p[0]).dest, p[1..], rest)
    ensures SameLabels(c, e, p, [p[0]] + rest)
  {
    var arc := c.f.states[e.state].arcs[p[0]];
    OutPrepend(c, e, p[0], rest);
    LabelsCons((arc.ilabel, arc.olabel), Labels(c.f, arc.nextstate, p[1..]), TailLabels(c.o, |rest| - |p[1..]|));
  }

  lemma {:induction false} FactorPathSameLabels<W(!new)>(c: Factoring<W>, e: FactorElement<W>, p: seq<nat>)
    requires ValidFactoring(c) && ValidElement(c, e) && e.state != NO_STATE_ID && Accepting(c.k, c.f, e.state, p)
    ensures SameLabels(c, e, p, FactorPath(c, e, p))
    decreases |p|
  {
    if p == [] {
      TailCarries(c, e);
      assert Labels(c.f, e.state, p) + TailLabels(c.o, |Tail(c, e)|) == TailLabels(c.o, |Tail(c, e)|);
    } else {
      OutArcValid(c, e, p[0]);
      var dest := OutArcAt(c, e, p[0]).dest;
      FactorPathSameLabels(c, dest, p[1..]);
      SameLabelsStep(c, e, p, FactorPath(c, dest, p[1..]));
    }
  }

  /** The factored path has the same labels, followed by those of the tail. */
  lemma FactorPathLabels<W(!new)>(c: Factoring<W>, e: FactorElement<W>, p: seq<nat>)
    requires ValidFactoring(c) && ValidElement(c, e) && e.state != NO_STATE_ID && Accepting(c.k, c.f, e.state, p)
    ensures var q := FactorPath(c, e, p);
      IsOutPath(c, e, q) && OutLabels(c, e, q) == Labels(c.f, e.state, p) + TailLabels(c.o, |q| - |p|)
  {
    FactorPathSameLabels(c, e, p);
  }

  /** An arc's weight and the residual it leaves make up what came in. */
  lemma FactoredArcWeight<W(!new)>(c: Factoring<W>, r: W, arc: Arc<W>, v: W)
    requires ValidFactoring(c)
    ensures var out := FactoredArc(c, r, arc);
      c.k.Times(out.weight, c.k.Times(out.dest.weight, v)) == c.k.Times(r, c.k.Times(arc.weight, v))
  {
    var w, out := c.k.Times(r, arc.weight), FactoredArc(c, r, arc);
    assert At1(w);
    TimesAssociates(c.k, r, arc.weight, v);
    TimesAssociates(c.k, out.weight, out.dest.weight, v);
    TimesOne(c.k, w);
  }

  lemma LabelsCons<T>(a: T, x: seq<T>, y: seq<T>)
    ensures [a] + (x + y) == ([a] + x) + y
  {
  }

  /** Whether the path goes on is seen at the first arc. */
  lemma FirstStep<W(!new)>(c: Factoring<W>, e: FactorElement<W>, p: seq<nat>)
    requires ValidFactoring(c) && ValidElement(c, e) && e.state != NO_STATE_ID && IsPath(c.f, e.state, p)
    ensures p != [] <==> FactorPath(c, e, p) != [] && FactorPath(c, e, p)[0] < |InputArcs(c.f, e)|
    ensures p != [] ==> FactorPath(c, e, p)[0] == p[0]
  {
  }

  /** Different paths are factored differently. */
  lemma {:induction false} FactorPathInjective<W(!new)>(c: Factoring<W>, e: FactorElement<W>, p: seq<nat>, p': seq<nat>)
    requires ValidFactoring(c) && ValidElement(c, e) && e.state != NO_STATE_ID
    requires IsPath(c.f, e.state, p) && IsPath(c.f, e.state, p') && FactorPath(c, e, p) == FactorPath(c, e, p')
    ensures p == p'
    decreases |p| + |p'|
  {
    FirstStep(c, e, p);
    FirstStep(c, e, p');
    if p != [] {
      OutArcValid(c, e, p[0]);
      DropFirst(p[0], FactorPath(c, OutArcAt(c, e, p[0]).dest, p[1..]));
      DropFirst(p[0], FactorPath(c, OutArcAt(c, e, p[0]).dest, p'[1..]));
      FactorPathInjective(c, OutArcAt(c, e, p[0]).dest, p[1..], p'[1..]);
      ConsRest(p);
      ConsRest(p');
    }
  }

  /** Inside the end of a path there is only one way on. */
  lemma {:induction false} TailUnique<W(!new)>(c: Factoring<W>, e: FactorElement<W>, q: seq<nat>)
    requires ValidFactoring(c) && ValidElement(c, e) && e.state == NO_STATE_ID && OutAccepting(c, e, q)
    ensures q == Tail(c, e)
    decreases |q|
  {
    if q != [] {
      OutArcValid(c, e, q[0]);
      TailUnique(c, OutArcAt(c, e, q[0]).dest, q[1..]);
      ConsRest(q);
    }
  }

  /** Every accepting path of the factored transducer comes from an accepting input path. */
  lemma {:induction false} FactorPathOnto<W(!new)>(c: Factoring<W>, e: FactorElement<W>, q: seq<nat>)
    returns (p: seq<nat>)
    requires ValidFactoring(c) && ValidElement(c, e) && e.state != NO_STATE_ID && OutAccepting(c, e, q)
    ensures Accepting(c.k, c.f, e.state, p) && FactorPath(c, e, p) == q
    decreases |q|
  {
    assert At1(e.weight);
    if q == [] {
      p := [];
    } else {
      OutArcValid(c, e, q[0]);
      var dest := OutArcAt(c, e, q[0]).dest;
      ConsRest(q);
      if q[0] < |InputArcs(c.f, e)| {
        var rest := FactorPathOnto(c, dest, q[1..]);
        p := [q[0]] + rest;
        Prepend(c.k, c.f, e.state, q[0], rest);
        DropFirst(q[0], rest);
      } else {
        TailUnique(c, dest, q[1..]);
        p := [];
      }
    }
  }

  /** The start state of the factored transducer. */
  function StartElement<W>(c: Factoring<W>): FactorElement<W> {
    FactorElement(c.f.start, c.k.One)
  }

  /** Factoring keeps the accepting paths one to one, with their labels up to the tail and their weights. */
  lemma FactoringKeepsPaths<W(!new)>(c: Factoring<W>)
    requires ValidFactoring(c) && c.f.start != NO_STATE_ID
    ensures ValidElement(c, StartElement(c))
    ensures forall p :: Accepting(c.k, c.f, c.f.start, p) ==> (
      var q := FactorPath(c, StartElement(c), p);
      && OutAccepting(c, StartElement(c), q) && OutWeight(c, StartElement(c), q) == PathWeight(c.k, c.f, c.f.start, p)
      && OutLabels(c, StartElement(c), q) == Labels(c.f, c.f.start, p) + TailLabels(c.o, |q| - |p|))
    ensures forall q :: OutAccepting(c, StartElement(c), q) ==>
      exists p :: Accepting(c.k, c.f, c.f.start, p) && FactorPath(c, StartElement(c), p) == q
    ensures forall p, p' | Accepting(c.k, c.f, c.f.start, p) && Accepting(c.k, c.f, c.f.start, p')
      && FactorPath(c, StartElement(c), p) == FactorPath(c, StartElement(c), p') :: p == p'
  {
    RegularOne(c.k);
    var e := StartElement(c);
    forall p | Accepting(c.k, c.f, c.f.start, p)
      ensures var q := FactorPath(c, e, p);
        && OutAccepting(c, e, q) && OutWeight(c, e, q) == PathWeight(c.k, c.f, c.f.start, p)
        && OutLabels(c, e, q) == Labels(c.f, c.f.start, p) + TailLabels(c.o, |q| - |p|)
    {
      FactorPathCarries(c, e, p);
      FactorPathLabels(c, e, p);
      TimesOne(c.k, PathWeight(c.k, c.f, c.f.start, p));
    }
    forall q | OutAccepting(c, e, q) ensures exists p :: Accepting(c.k, c.f, c.f.start, p) && FactorPath(c, e, p) == q {
      var p := FactorPathOnto(c, e, q);
    }
    forall p, p' | Accepting(c.k, c.f, c.f.start, p) && Accepting(c.k, c.f, c.f.start, p')
      && FactorPath(c, e, p) == FactorPath(c, e, p')
      ensures p == p'
    {
      FactorPathInjective(c, e, p, p');
    }
  }

  /** With both kinds of weights factored, no arc and no final weight is left to cut. */
  lemma FullyFactored<W(!new)>(c: Factoring<W>, e: FactorElement<W>)
    requires ValidFactoring(c) && ValidElement(c, e) && c.o.arcs && c.o.finals
    ensures forall i :: 0 <= i < NumOutArcs(c, e) ==> c.fac.done(OutArcAt(c, e, i).weight)
    ensures c.fac.done(OutFinal(c, e))
  {
    forall i | 0 <= i < NumOutArcs(c, e) ensures c.fac.done(OutArcAt(c, e, i).weight) {
      if i < |InputArcs(c.f, e)| {
        assert At1(c.k.Times(e.weight, InputArcs(c.f, e)[i].weight));
      } else {
        assert At1(FinalWeight(c, e));
      }
    }
  }

  // ---- The library's single factors

  /** The first letter and the rest. */
  function StringSplit(w: StringWeight): (StringWeight, StringWeight) {
    if w.StringZero? || w.labels == [] then (w, Letters([])) else (Letters([w.labels[0]]), Letters(w.labels[1..]))
  }

  const STRING_FACTOR := Factor((w: StringWeight) => Size(w) <= 1, StringSplit, Size)

  lemma StringFactorIsSingle()
    ensures SingleFactor(STRINGS, STRING_FACTOR)
  {
    StringsAreLeftSemiring();
    forall w {:trigger At1(w)}
      ensures Splits(STRINGS, STRING_FACTOR, w) && STRINGS.Times(w, STRINGS.Zero) == STRINGS.Zero
    {
      if Size(w) > 1 {
        ConsRest(w.labels);
        assert STRINGS.Times(StringSplit(w).0, StringSplit(w).1) == w;
      }
    }
  }

  /** With both modes on, no string of more than one letter is left on an arc or in a final weight. */
  lemma StringsFullyFactored(c: Factoring<StringWeight>, e: FactorElement<StringWeight>)
    requires c.k == STRINGS && c.fac == STRING_FACTOR && Valid(c.f) && ValidElement(c, e) && c.o.arcs && c.o.finals
    ensures forall i :: 0 <= i < NumOutArcs(c, e) ==> AtMostOneLetter(OutArcAt(c, e, i).weight)
    ensures AtMostOneLetter(OutFinal(c, e))
  {
    StringFactorIsSingle();
    FullyFactored(c, e);
  }

  ghost predicate AtMostOneLetter(w: StringWeight) {
    w.StringZero? || |w.labels| <= 1
  }

  /** What is cut off a string of more letters is the first one. */
  lemma FirstLetterCut(c: Factoring<StringWeight>, e: FactorElement<StringWeight>, i: nat, l: int, rest: seq<int>)
    requires c.k == STRINGS && c.fac == STRING_FACTOR && Valid(c.f) && ValidElement(c, e) && c.o.arcs
    requires i < |InputArcs(c.f, e)| && rest != []
    requires STRINGS.Times(e.weight, InputArcs(c.f, e)[i].weight) == Letters([l] + rest)
    ensures OutArcAt(c, e, i).weight == Letters([l])
    ensures OutArcAt(c, e, i).dest == FactorElement(InputArcs(c.f, e)[i].nextstate, Letters(rest))
  {
    DropFirst(l, rest);
  }

  /** A string with a weight. */
  /** A string with a weight. */
  datatype Gallic<W> = Gallic(value1: StringWeight, value2: W)

  /** The product of the string semiring and k. */
  function GallicSemiring<W>(k: Semiring<W>): Semiring<Gallic<W>> {
    Semiring(Gallic(StringZero, k.Zero), Gallic(Letters([]), k.One),
             (a: Gallic<W>, b: Gallic<W>) => Gallic(StringPlus(a.value1, b.value1), k.Plus(a.value2, b.value2)),
             (a: Gallic<W>, b: Gallic<W>) => Gallic(StringTimes(a.value1, b.value1), k.Times(a.value2, b.value2)))
  }

  /** The first letter with the whole weight, and the rest with weight One. */
  function GallicFactor<W>(k: Semiring<W>): Factor<Gallic<W>> {
    Factor((w: Gallic<W>) => Size(w.value1) <= 1,
           (w: Gallic<W>) => (Gallic(StringSplit(w.value1).0, w.value2), Gallic(StringSplit(w.value1).1, k.One)),
           (w: Gallic<W>) => Size(w.value1))
  }

  lemma GallicMultiplies<W(!new)>(k: Semiring<W>)
    requires MultiplicativeLaws(k)
    ensures MultiplicativeLaws(GallicSemiring(k))
  {
    var g := GallicSemiring(k);
    StringsAreLeftSemiring();
    forall a: Gallic<W> {:trigger At1(a)} ensures g.Times(g.One, a) == a == g.Times(a, g.One) {
      TimesOne(k, a.value2);
      TimesOne(STRINGS, a.value1);
      assert STRINGS.Times(STRINGS.One, a.value1) == a.value1 == STRINGS.Times(a.value1, STRINGS.One);
    }
    forall a: Gallic<W>, b: Gallic<W>, d: Gallic<W> {:trigger At3(a, b, d)}
      ensures g.Times(g.Times(a, b), d) == g.Times(a, g.Times(b, d))
    {
      TimesAssociates(k, a.value2, b.value2, d.value2);
      TimesAssociates(STRINGS, a.value1, b.value1, d.value1);
    }
  }

  lemma GallicFactorIsSingle<W(!new)>(k: Semiring<W>)
    requires MultiplicativeLaws(k) && forall a {:trigger At1(a)} :: At1(a) ==> k.Times(a, k.Zero) == k.Zero
    ensures SingleFactor(GallicSemiring(k), GallicFactor(k))
  {
    var g, fac := GallicSemiring(k), GallicFactor(k);
    GallicMultiplies(k);
    StringFactorIsSingle();
    forall w: Gallic<W> {:trigger At1(w)} ensures Splits(g, fac, w) && g.Times(w, g.Zero) == g.Zero {
      assert At1(w.value2) && At1(w.value1);
      if !fac.done(w) {
        var r := fac.split(w).1;
        TimesOne(k, w.value2);
        assert STRINGS.Times(StringSplit(w.value1).0, StringSplit(w.value1).1) == w.value1;
        forall v: Gallic<W> {:trigger At2(r, v)} | v != g.Zero ensures g.Times(r, v) != g.Zero {
          TimesOne(k, v.value2);
        }
      }
    }
  }

  /** The same for the strings of Gallic weights. */
  lemma GallicFullyFactored<W(!new)>(k: Semiring<W>, c: Factoring<Gallic<W>>, e: FactorElement<Gallic<W>>)
    requires MultiplicativeLaws(k) && forall a {:trigger At1(a)} :: At1(a) ==> k.Times(a, k.Zero) == k.Zero
    requires c.k == GallicSemiring(k) && c.fac == GallicFactor(k) && Valid(c.f) && ValidElement(c, e)
    requires c.o.arcs && c.o.finals
    ensures forall i :: 0 <= i < NumOutArcs(c, e) ==> AtMostOneLetter(OutArcAt(c, e, i).weight.value1)
    ensures AtMostOneLetter(OutFinal(c, e).value1)
  {
    GallicFactorIsSingle(k);
    FullyFactored(c, e);
  }

  // ---- With a mode off

  /** Without factoring of arcs, an element of residual One keeps its input arcs as they are, and their destinations
      have residual One. */
  lemma ArcsUnfactored<W(!new)>(c: Factoring<W>, e: FactorElement<W>, i: nat)
    requires ValidFactoring(c) && ValidElement(c, e) && !c.o.arcs && e.weight == c.k.One
    requires i < |InputArcs(c.f, e)|
    ensures var arc := InputArcs(c.f, e)[i];
      OutArcAt(c, e, i) == OutArc(arc.ilabel, arc.olabel, arc.weight, FactorElement(arc.nextstate, c.k.One))
  {
    TimesOne(c.k, InputArcs(c.f, e)[i].weight);
  }

  /** Without factoring of final weights, no arc is added and no final weight is cut. */
  lemma FinalsUnfactored<W(!new)>(c: Factoring<W>, e: FactorElement<W>)
    requires ValidFactoring(c) && ValidElement(c, e) && !c.o.finals && e.state != NO_STATE_ID
    ensures NumOutArcs(c, e) == |c.f.states[e.state].arcs|
    ensures OutFinal(c, e) == c.k.Times(e.weight, c.f.states[e.state].final)
  {
  }
}
