/** Distances to the final states: what the determinized states accept in all, over every path onwards. */
module DeterminizeDistances {
  import opened Semirings
  import opened Fsts
  import opened Determinize
  import opened DeterminizeFsas
  import opened DeterminizeRuns
  import opened Sequences

  /** The sum over the arcs whose label is listed. */
  ghost function ArcSumIn<W>(k: Semiring<W>, arcs: seq<Arc<W>>, L: seq<int>, V: seq<W>): W
    requires ValidArcs(arcs, |V|)
  {
    if arcs == [] then k.Zero
    else
      var last, rest := arcs[|arcs| - 1], ArcSumIn(k, arcs[..|arcs| - 1], L, V);
      if last.ilabel in L then k.Plus(k.Times(last.weight, V[last.nextstate]), rest) else rest
  }

  /** The sum over all arcs. */
  ghost function ArcSumAll<W>(k: Semiring<W>, arcs: seq<Arc<W>>, V: seq<W>): W
    requires ValidArcs(arcs, |V|)
  {
    if arcs == [] then k.Zero
    else
      var last := arcs[|arcs| - 1];
      k.Plus(k.Times(last.weight, V[last.nextstate]), ArcSumAll(k, arcs[..|arcs| - 1], V))
  }

  /** The arcs of a determinized state with the distances of their destinations. */
  ghost function DetArcSum<W>(k: Semiring<W>, table: seq<Subset<W>>, arcs: seq<Arc<W>>, V: seq<W>): W
    requires forall i :: 0 <= i < |arcs| ==> arcs[i].nextstate < |table| && InSubset(table[arcs[i].nextstate], |V|)
  {
    if arcs == [] then k.Zero
    else
      var last := arcs[|arcs| - 1];
      k.Plus(k.Times(last.weight, Eval(k, table[last.nextstate], V)), DetArcSum(k, table, arcs[..|arcs| - 1], V))
  }

  ghost function LabelStep<W>(k: Semiring<W>, f: Fst<W>, L: seq<int>, V: seq<W>): (U: seq<W>)
    requires Valid(f) && |V| == |f.states|
    ensures |U| == |V|
  {
    seq(|f.states|, q requires 0 <= q < |f.states| => ArcSumIn(k, f.states[q].arcs, L, V))
  }

  lemma {:induction false} ArcSumInSplit<W(!new)>(k: Semiring<W>, arcs: seq<Arc<W>>, L: seq<int>, l: int, V: seq<W>)
    requires AdditiveLaws(k) && ValidArcs(arcs, |V|) && l !in L
    ensures ArcSumIn(k, arcs, L + [l], V) == k.Plus(ArcSum(k, arcs, l, V), ArcSumIn(k, arcs, L, V))
  {
    if arcs == [] {
      PlusZero(k, k.Zero);
    } else {
      var last, init := arcs[|arcs| - 1], arcs[..|arcs| - 1];
      ArcSumInSplit(k, init, L, l, V);
      var a, b, c := k.Times(last.weight, V[last.nextstate]), ArcSum(k, init, l, V), ArcSumIn(k, init, L, V);
      PlusAssociates(k, a, b, c);
      PlusCommutes(k, a, b);
      PlusAssociates(k, b, a, c);
    }
  }

  lemma {:induction false} ArcSumInAll<W(!new)>(k: Semiring<W>, arcs: seq<Arc<W>>, L: seq<int>, V: seq<W>)
    requires ValidArcs(arcs, |V|) && forall i :: 0 <= i < |arcs| ==> arcs[i].ilabel in L
    ensures ArcSumIn(k, arcs, L, V) == ArcSumAll(k, arcs, V)
  {
    if arcs != [] {
      ArcSumInAll(k, arcs[..|arcs| - 1], L, V);
    }
  }

  /** Evaluation is additive in the values. */
  lemma {:induction false} EvalPlus<W(!new)>(k: Semiring<W>, S: Subset<W>, U: seq<W>, V: seq<W>, T: seq<W>)
    requires LeftSemiring(k) && InSubset(S, |U|) && |U| == |V| == |T|
    requires forall i :: 0 <= i < |S| ==> T[S[i].state] == k.Plus(U[S[i].state], V[S[i].state])
    ensures Eval(k, S, T) == k.Plus(Eval(k, S, U), Eval(k, S, V))
  {
    if S == [] {
      PlusZero(k, k.Zero);
    } else {
      var last, init := S[|S| - 1], S[..|S| - 1];
      EvalPlus(k, init, U, V, T);
      DistributeLeft(k, last.weight, U[last.state], V[last.state]);
      PlusMiddle(k, k.Times(last.weight, U[last.state]), k.Times(last.weight, V[last.state]), Eval(k, init, U),
        Eval(k, init, V));
    }
  }

  lemma {:induction false} GatherStep<W(!new)>(k: Semiring<W>, f: Fst<W>, S: Subset<W>, l: int, V: seq<W>, U: seq<W>)
    requires LeftSemiring(k) && Valid(f) && InSubset(S, |f.states|) && |V| == |U| == |f.states|
    requires forall q :: 0 <= q < |U| ==> U[q] == ArcSum(k, f.states[q].arcs, l, V)
    ensures InSubset(Gather(k, f, S, l), |f.states|) && Eval(k, Gather(k, f, S, l), V) == Eval(k, S, U)
  {
    if S != [] {
      var last, init := S[|S| - 1], S[..|S| - 1];
      GatherStep(k, f, init, l, V, U);
      GatherArcsValue(k, last.weight, f.states[last.state].arcs, l, V);
      EvalConcat(k, GatherArcs(k, last.weight, f.states[last.state].arcs, l), Gather(k, f, init, l), V);
    }
  }

  ghost function ArcLabels<W>(arcs: seq<Arc<W>>): (L: seq<int>)
    ensures |L| == |arcs| && forall i :: 0 <= i < |L| ==> L[i] == arcs[i].ilabel
  {
    seq(|arcs|, i requires 0 <= i < |arcs| => arcs[i].ilabel)
  }

  /** The arcs of a determinized state sum up the listed labels of its subset. */
  lemma {:induction false} DetArcSumIsStep<W(!new)>(
    k: Semiring<W>, f: Fst<W>, table: seq<Subset<W>>, S: Subset<W>, arcs: seq<Arc<W>>, V: seq<W>
  )
    requires LeftSemiring(k) && Valid(f) && InSubset(S, |f.states|) && |V| == |f.states|
    requires forall i, j :: 0 <= i < j < |arcs| ==> arcs[i].ilabel < arcs[j].ilabel
    requires forall i :: 0 <= i < |arcs| ==> DetArcOf(k, f, table, S, arcs[i])
    ensures forall i :: 0 <= i < |arcs| ==> arcs[i].nextstate < |table| && InSubset(table[arcs[i].nextstate], |V|)
    ensures DetArcSum(k, table, arcs, V) == Eval(k, S, LabelStep(k, f, ArcLabels(arcs), V))
  {
    if arcs == [] {
      assert ArcLabels(arcs) == [];
      StepNone(k, f, S, V);
    } else {
      var last, init := arcs[|arcs| - 1], arcs[..|arcs| - 1];
      assert DetArcOf(k, f, table, S, last);
      DetArcSumIsStep(k, f, table, S, init, V);
      LabelsAppend(arcs);
      DetArcIsStep(k, f, table, S, ArcLabels(init), last, V);
    }
  }

  lemma LabelsAppend<W>(arcs: seq<Arc<W>>)
    requires arcs != []
    ensures ArcLabels(arcs) == ArcLabels(arcs[..|arcs| - 1]) + [arcs[|arcs| - 1].ilabel]
  {
  }

  lemma StepNone<W(!new)>(k: Semiring<W>, f: Fst<W>, S: Subset<W>, V: seq<W>)
    requires LeftSemiring(k) && Valid(f) && InSubset(S, |f.states|) && |V| == |f.states|
    ensures Eval(k, S, LabelStep(k, f, [], V)) == k.Zero
  {
    forall i | 0 <= i < |S| ensures LabelStep(k, f, [], V)[S[i].state] == k.Zero {
      ArcSumInNone(k, f.states[S[i].state].arcs, V);
    }
    EvalZero(k, S, LabelStep(k, f, [], V));
  }

  lemma DetArcIsStep<W(!new)>(
    k: Semiring<W>, f: Fst<W>, table: seq<Subset<W>>, S: Subset<W>, L: seq<int>, arc: Arc<W>, V: seq<W>
  )
    requires LeftSemiring(k) && Valid(f) && InSubset(S, |f.states|) && |V| == |f.states| && arc.ilabel !in L
    requires DetArcOf(k, f, table, S, arc)
    ensures Eval(k, S, LabelStep(k, f, L + [arc.ilabel], V))
         == k.Plus(k.Times(arc.weight, Eval(k, table[arc.nextstate], V)), Eval(k, S, LabelStep(k, f, L, V)))
  {
    var U := seq(|f.states|, q requires 0 <= q < |f.states| => ArcSum(k, f.states[q].arcs, arc.ilabel, V));
    GatherStep(k, f, S, arc.ilabel, V, U);
    forall i | 0 <= i < |S|
      ensures LabelStep(k, f, L + [arc.ilabel], V)[S[i].state]
        == k.Plus(U[S[i].state], LabelStep(k, f, L, V)[S[i].state])
    {
      ArcSumInSplit(k, f.states[S[i].state].arcs, L, arc.ilabel, V);
    }
    EvalPlus(k, S, U, LabelStep(k, f, L, V), LabelStep(k, f, L + [arc.ilabel], V));
  }

  lemma {:induction false} ArcSumInNone<W(!new)>(k: Semiring<W>, arcs: seq<Arc<W>>, V: seq<W>)
    requires ValidArcs(arcs, |V|)
    ensures ArcSumIn(k, arcs, [], V) == k.Zero
  {
    if arcs != [] {
      ArcSumInNone(k, arcs[..|arcs| - 1], V);
    }
  }

  lemma {:induction false} EvalZero<W(!new)>(k: Semiring<W>, S: Subset<W>, V: seq<W>)
    requires LeftSemiring(k) && InSubset(S, |V|) && forall i :: 0 <= i < |S| ==> V[S[i].state] == k.Zero
    ensures Eval(k, S, V) == k.Zero
  {
    if S != [] {
      EvalZero(k, S[..|S| - 1], V);
      DistributeLeft(k, S[|S| - 1].weight, k.Zero, k.Zero);
      PlusZero(k, k.Zero);
    }
  }

  lemma {:induction false} GatherNonEmpty<W>(k: Semiring<W>, f: Fst<W>, S: Subset<W>, i: nat, j: nat)
    requires Valid(f) && InSubset(S, |f.states|) && i < |S| && j < |f.states[S[i].state].arcs|
    ensures Gather(k, f, S, f.states[S[i].state].arcs[j].ilabel) != []
  {
    var arcs := f.states[S[i].state].arcs;
    if i == |S| - 1 {
      GatherArcsNonEmpty(k, S[i].weight, arcs, j);
    } else {
      GatherNonEmpty(k, f, S[..|S| - 1], i, j);
    }
  }

  lemma {:induction false} GatherArcsNonEmpty<W>(k: Semiring<W>, w: W, arcs: seq<Arc<W>>, j: nat)
    requires j < |arcs|
    ensures GatherArcs(k, w, arcs, arcs[j].ilabel) != []
  {
    if j < |arcs| - 1 {
      GatherArcsNonEmpty(k, w, arcs[..|arcs| - 1], j);
    }
  }

  // ---- Accepting futures

  /** For each state, the sum of the weights of all paths onwards of at most n arcs, final weights included. */
  ghost function Futures<W>(k: Semiring<W>, f: Fst<W>, n: nat): (V: seq<W>)
    requires Valid(f)
    ensures |V| == |f.states|
  {
    if n == 0 then seq(|f.states|, q requires 0 <= q < |f.states| => f.states[q].final)
    else
      var V := Futures(k, f, n - 1);
      seq(|f.states|, q requires 0 <= q < |f.states| =>
        k.Plus(f.states[q].final, ArcSumAll(k, f.states[q].arcs, V)))
  }

  /** All paths from q of at most n arcs, each listed once; the arc lists are scanned from position i. */
  ghost function ShortPaths<W>(f: Fst<W>, q: nat, n: nat, i: nat): (ps: seq<seq<nat>>)
    requires Valid(f) && q < |f.states| && i <= |f.states[q].arcs|
    decreases n, i
  {
    if n == 0 || i == 0 then [[]]
    else
      var next := f.states[q].arcs[i - 1].nextstate;
      PrefixAll(i - 1, ShortPaths(f, next, n - 1, |f.states[next].arcs|)) + ShortPaths(f, q, n, i - 1)
  }

  ghost predicate ShortPath<W>(f: Fst<W>, q: nat, n: nat, p: seq<nat>)
    requires Valid(f) && q < |f.states|
  {
    IsPath(f, q, p) && |p| <= n
  }

  /** The paths that start with arc i are the paths of its destination, prefixed. */
  lemma PrefixedShort<W>(f: Fst<W>, q: nat, n: nat, i: nat, ps: seq<seq<nat>>, p: seq<nat>)
    requires Valid(f) && q < |f.states| && n > 0 && i < |f.states[q].arcs|
    requires forall r :: r in ps <==> ShortPath(f, f.states[q].arcs[i].nextstate, n - 1, r)
    ensures p in PrefixAll(i, ps) <==> ShortPath(f, q, n, p) && p != [] && p[0] == i
  {
    var here := PrefixAll(i, ps);
    if p in here {
      var j :| 0 <= j < |here| && here[j] == p;
      assert ps[j] in ps && p == [i] + ps[j] && p[1..] == ps[j];
    }
    if ShortPath(f, q, n, p) && p != [] && p[0] == i {
      assert ShortPath(f, f.states[q].arcs[i].nextstate, n - 1, p[1..]);
      assert p[1..] in ps;
      var j :| 0 <= j < |ps| && ps[j] == p[1..];
      ConsRest(p);
      assert here[j] == p;
    }
  }

  ghost predicate ListsShort<W>(f: Fst<W>, q: nat, n: nat, i: nat, ps: seq<seq<nat>>)
    requires Valid(f) && q < |f.states|
  {
    Distinct(ps) && forall p :: p in ps <==> ShortPath(f, q, n, p) && (p != [] ==> p[0] < i)
  }

  lemma ListsShortNext<W>(f: Fst<W>, q: nat, n: nat, i: nat, ps: seq<seq<nat>>, below: seq<seq<nat>>)
    requires Valid(f) && q < |f.states| && n > 0 && i < |f.states[q].arcs| && ListsShort(f, q, n, i, below)
    requires var next := f.states[q].arcs[i].nextstate; ListsShort(f, next, n - 1, |f.states[next].arcs|, ps)
    ensures ListsShort(f, q, n, i + 1, PrefixAll(i, ps) + below)
  {
    var next := f.states[q].arcs[i].nextstate;
    forall r ensures r in ps <==> ShortPath(f, next, n - 1, r) {
    }
    forall p ensures p in PrefixAll(i, ps) <==> ShortPath(f, q, n, p) && p != [] && p[0] == i {
      PrefixedShort(f, q, n, i, ps, p);
    }
    PrefixAllDistinct(i, ps);
    ConcatDistinct(PrefixAll(i, ps), below);
  }

  /** The list has exactly the paths of at most n arcs (that start below position i), without repetition. */
  lemma {:induction false} ShortPathsExact<W>(f: Fst<W>, q: nat, n: nat, i: nat)
    requires Valid(f) && q < |f.states| && i <= |f.states[q].arcs|
    ensures ListsShort(f, q, n, i, ShortPaths(f, q, n, i))
    decreases n, i
  {
    if n > 0 && i > 0 {
      var next := f.states[q].arcs[i - 1].nextstate;
      var m := |f.states[next].arcs|;
      ShortPathsExact(f, q, n, i - 1);
      ShortPathsExact(f, next, n - 1, m);
      ListsShortNext(f, q, n, i - 1, ShortPaths(f, next, n - 1, m), ShortPaths(f, q, n, i - 1));
    }
  }

  lemma SumNothing<W(!new)>(k: Semiring<W>, f: Fst<W>, q: nat)
    requires AdditiveLaws(k) && Valid(f) && q < |f.states|
    ensures SumPaths(k, f, q, [[]]) == f.states[q].final
  {
    PlusZero(k, f.states[q].final);
    var none: seq<seq<nat>> := [[]];
    assert none[1..] == [];
  }

  lemma ShortArePaths<W>(f: Fst<W>, q: nat, n: nat, i: nat)
    requires Valid(f) && q < |f.states| && i <= |f.states[q].arcs|
    ensures forall p :: p in ShortPaths(f, q, n, i) ==> IsPath(f, q, p)
  {
    ShortPathsExact(f, q, n, i);
  }

  /** The paths through one more arc add the product of its weight and all that follows. */
  lemma SumShortNext<W(!new)>(k: Semiring<W>, f: Fst<W>, q: nat, n: nat, i: nat)
    requires LeftSemiring(k) && Valid(f) && q < |f.states| && 0 < i <= |f.states[q].arcs| && n > 0
    ensures var arc := f.states[q].arcs[i - 1];
      var ps, below := ShortPaths(f, arc.nextstate, n - 1, |f.states[arc.nextstate].arcs|), ShortPaths(f, q, n, i - 1);
      && (forall p :: p in ShortPaths(f, q, n, i) ==> IsPath(f, q, p))
      && (forall p :: p in below ==> IsPath(f, q, p)) && (forall p :: p in ps ==> IsPath(f, arc.nextstate, p))
      && SumPaths(k, f, q, ShortPaths(f, q, n, i))
      == k.Plus(k.Times(arc.weight, SumPaths(k, f, arc.nextstate, ps)), SumPaths(k, f, q, below))
  {
    var next := f.states[q].arcs[i - 1].nextstate;
    ShortArePaths(f, q, n, i);
    ShortArePaths(f, q, n, i - 1);
    ShortArePaths(f, next, n - 1, |f.states[next].arcs|);
    var ps := ShortPaths(f, next, n - 1, |f.states[next].arcs|);
    SumPrefixed(k, f, q, i - 1, ps);
    SumPathsConcat(k, f, q, PrefixAll(i - 1, ps), ShortPaths(f, q, n, i - 1));
  }

  /** What the arcs below position i and the final weight contribute to a sum over futures. */
  ghost function SumBelow<W>(k: Semiring<W>, f: Fst<W>, q: nat, i: nat, V: seq<W>): W
    requires Valid(f) && q < |f.states| && i <= |f.states[q].arcs| && |V| == |f.states|
  {
    k.Plus(f.states[q].final, ArcSumAll(k, f.states[q].arcs[..i], V))
  }

  lemma SumBelowNext<W(!new)>(k: Semiring<W>, f: Fst<W>, q: nat, i: nat, V: seq<W>)
    requires AdditiveLaws(k) && Valid(f) && q < |f.states| && 0 < i <= |f.states[q].arcs| && |V| == |f.states|
    ensures var arc := f.states[q].arcs[i - 1];
      SumBelow(k, f, q, i, V) == k.Plus(k.Times(arc.weight, V[arc.nextstate]), SumBelow(k, f, q, i - 1, V))
  {
    var arcs, final := f.states[q].arcs, f.states[q].final;
    TakeNext(arcs, i - 1);
    var a, b := k.Times(arcs[i - 1].weight, V[arcs[i - 1].nextstate]), ArcSumAll(k, arcs[..i - 1], V);
    PlusAssociates(k, a, final, b);
    PlusCommutes(k, a, final);
    PlusAssociates(k, final, a, b);
  }

  lemma FuturesNext<W>(k: Semiring<W>, f: Fst<W>, q: nat, n: nat)
    requires Valid(f) && q < |f.states|
    ensures Futures(k, f, n + 1)[q] == SumBelow(k, f, q, |f.states[q].arcs|, Futures(k, f, n))
  {
    TakeAll(f.states[q].arcs);
  }

  ghost function ShortSum<W>(k: Semiring<W>, f: Fst<W>, q: nat, n: nat, i: nat): W
    requires Valid(f) && q < |f.states| && i <= |f.states[q].arcs|
  {
    if n == 0 then f.states[q].final else SumBelow(k, f, q, i, Futures(k, f, n - 1))
  }

  lemma ShortSumAll<W>(k: Semiring<W>, f: Fst<W>, q: nat, n: nat)
    requires Valid(f) && q < |f.states|
    ensures ShortSum(k, f, q, n, |f.states[q].arcs|) == Futures(k, f, n)[q]
  {
    if n > 0 {
      FuturesNext(k, f, q, n - 1);
    }
  }

  lemma ShortSumNone<W(!new)>(k: Semiring<W>, f: Fst<W>, q: nat, n: nat)
    requires AdditiveLaws(k) && Valid(f) && q < |f.states|
    ensures ShortSum(k, f, q, n, 0) == f.states[q].final
  {
    PlusZero(k, f.states[q].final);
  }

  /** The listed paths sum up to the final weight and the arcs below position i with all that follows them. */
  ghost predicate SumsShort<W>(k: Semiring<W>, f: Fst<W>, q: nat, n: nat, i: nat)
    requires Valid(f) && q < |f.states| && i <= |f.states[q].arcs|
  {
    && (forall p :: p in ShortPaths(f, q, n, i) ==> IsPath(f, q, p))
    && SumPaths(k, f, q, ShortPaths(f, q, n, i)) == ShortSum(k, f, q, n, i)
  }

  lemma ShortSumNext<W(!new)>(k: Semiring<W>, f: Fst<W>, q: nat, n: nat, i: nat)
    requires AdditiveLaws(k) && Valid(f) && q < |f.states| && 0 < i <= |f.states[q].arcs| && n > 0
    ensures var arc := f.states[q].arcs[i - 1];
      ShortSum(k, f, q, n, i)
      == k.Plus(k.Times(arc.weight, ShortSum(k, f, arc.nextstate, n - 1, |f.states[arc.nextstate].arcs|)),
                ShortSum(k, f, q, n, i - 1))
  {
    SumBelowNext(k, f, q, i, Futures(k, f, n - 1));
    ShortSumAll(k, f, f.states[q].arcs[i - 1].nextstate, n - 1);
  }

  lemma SumsShortNext<W(!new)>(k: Semiring<W>, f: Fst<W>, q: nat, n: nat, i: nat)
    requires LeftSemiring(k) && Valid(f) && q < |f.states| && 0 < i <= |f.states[q].arcs| && n > 0
    requires SumsShort(k, f, q, n, i - 1)
    requires var next := f.states[q].arcs[i - 1].nextstate; SumsShort(k, f, next, n - 1, |f.states[next].arcs|)
    ensures SumsShort(k, f, q, n, i)
  {
    ShortSumNext(k, f, q, n, i);
    SumShortNext(k, f, q, n, i);
  }

  lemma {:induction false} ShortPathsSum<W(!new)>(k: Semiring<W>, f: Fst<W>, q: nat, n: nat, i: nat)
    requires LeftSemiring(k) && Valid(f) && q < |f.states| && i <= |f.states[q].arcs|
    ensures SumsShort(k, f, q, n, i)
    decreases n, i
  {
    if n == 0 || i == 0 {
      ShortArePaths(f, q, n, i);
      assert ShortPaths(f, q, n, i) == [[]];
      SumNothing(k, f, q);
      ShortSumNone(k, f, q, n);
    } else {
      var next := f.states[q].arcs[i - 1].nextstate;
      ShortPathsSum(k, f, q, n, i - 1);
      ShortPathsSum(k, f, next, n - 1, |f.states[next].arcs|);
      SumsShortNext(k, f, q, n, i);
    }
  }

  /** Futures sums over an exact list of the paths of at most n arcs. */
  lemma FuturesSumPaths<W(!new)>(k: Semiring<W>, f: Fst<W>, q: nat, n: nat)
    requires LeftSemiring(k) && Valid(f) && q < |f.states|
    ensures var paths := ShortPaths(f, q, n, |f.states[q].arcs|);
      && Distinct(paths) && (forall p :: p in paths <==> IsPath(f, q, p) && |p| <= n)
      && SumPaths(k, f, q, paths) == Futures(k, f, n)[q]
  {
    ShortPathsExact(f, q, n, |f.states[q].arcs|);
    ShortPathsSum(k, f, q, n, |f.states[q].arcs|);
    ShortSumAll(k, f, q, n);
    var paths := ShortPaths(f, q, n, |f.states[q].arcs|);
    forall p ensures p in paths <==> IsPath(f, q, p) && |p| <= n {
      assert p in paths <==> ShortPath(f, q, n, p) && (p != [] ==> p[0] < |f.states[q].arcs|);
    }
  }

  // ---- The determinized automaton as an automaton

  lemma {:induction false} GatheredLabel<W>(k: Semiring<W>, f: Fst<W>, S: Subset<W>, l: int)
    requires Valid(f) && InSubset(S, |f.states|) && Gather(k, f, S, l) != []
    ensures l >= 0
  {
    if l < 0 {
      var last := S[|S| - 1];
      GatheredArcLabel(k, last.weight, f.states[last.state].arcs, l, |f.states|);
      GatheredLabel(k, f, S[..|S| - 1], l);
    }
  }

  lemma {:induction false} GatheredArcLabel<W>(k: Semiring<W>, w: W, arcs: seq<Arc<W>>, l: int, n: nat)
    requires ValidArcs(arcs, n) && l < 0
    ensures GatherArcs(k, w, arcs, l) == []
  {
    if arcs != [] {
      GatheredArcLabel(k, w, arcs[..|arcs| - 1], l, n);
    }
  }

  /** The states numbered so far, with the arcs of those expanded so far. */
  ghost function DetFst<W(!new)>(
    k: Semiring<W>, f: Fst<W>, table: seq<Subset<W>>, cache: map<nat, seq<Arc<W>>>
  ): (g: Fst<W>)
    requires Determinized(k, f, table, cache)
    ensures Valid(g) && |g.states| == |table|
  {
    assert forall s :: s in cache ==> ValidArcs(cache[s], |table|) by {
      forall s, i | s in cache && 0 <= i < |cache[s]|
        ensures cache[s][i].nextstate < |table| && cache[s][i].ilabel >= 0 && cache[s][i].olabel >= 0
      {
        assert DetArcOf(k, f, table, table[s], cache[s][i]);
        GatheredLabel(k, f, table[s], cache[s][i].ilabel);
      }
    }
    Fst(NO_STATE_ID, seq(|table|, s requires 0 <= s < |table| =>
      State(DetFinal(k, f, table[s]), if s in cache then cache[s] else [])))
  }

  /** All states within reach of fewer than n arcs are expanded. */
  ghost predicate ExpandedTo<W>(cache: map<nat, seq<Arc<W>>>, s: nat, n: nat)
    decreases n
  {
    n == 0 || (s in cache && forall i :: 0 <= i < |cache[s]| ==> ExpandedTo(cache, cache[s][i].nextstate, n - 1))
  }

  lemma {:induction false} DetArcSumAll<W>(
    k: Semiring<W>, table: seq<Subset<W>>, arcs: seq<Arc<W>>, V: seq<W>, D: seq<W>
  )
    requires ValidArcs(arcs, |table|) && |D| == |table|
    requires forall i :: 0 <= i < |arcs| ==> InSubset(table[arcs[i].nextstate], |V|)
    requires forall i :: 0 <= i < |arcs| ==> Eval(k, table[arcs[i].nextstate], V) == D[arcs[i].nextstate]
    ensures DetArcSum(k, table, arcs, V) == ArcSumAll(k, arcs, D)
  {
    if arcs != [] {
      DetArcSumAll(k, table, arcs[..|arcs| - 1], V, D);
    }
  }

  /** The listed labels of an expanded state cover all arcs of its subset. */
  lemma AllLabelsListed<W(!new)>(
    k: Semiring<W>, f: Fst<W>, table: seq<Subset<W>>, cache: map<nat, seq<Arc<W>>>, s: nat, i: nat, V: seq<W>
  )
    requires Determinized(k, f, table, cache) && s in cache && i < |table[s]| && |V| == |f.states|
    ensures var arcs := f.states[table[s][i].state].arcs;
      ArcSumIn(k, arcs, ArcLabels(cache[s]), V) == ArcSumAll(k, arcs, V)
  {
    var arcs, L := f.states[table[s][i].state].arcs, ArcLabels(cache[s]);
    forall j | 0 <= j < |arcs| ensures arcs[j].ilabel in L {
      GatherNonEmpty(k, f, table[s], i, j);
      var a :| 0 <= a < |cache[s]| && cache[s][a].ilabel == arcs[j].ilabel;
      assert L[a] == arcs[j].ilabel;
    }
    ArcSumInAll(k, arcs, L, V);
  }

  /** T gives each state its final weight and its arcs with what V gives their destinations. */
  ghost predicate OneStep<W>(k: Semiring<W>, f: Fst<W>, V: seq<W>, T: seq<W>) {
    Valid(f) && |V| == |T| == |f.states| &&
    forall q :: 0 <= q < |T| ==> T[q] == k.Plus(f.states[q].final, ArcSumAll(k, f.states[q].arcs, V))
  }

  /** One step of the input is one step of the determinized state. */
  lemma EvalOneStep<W(!new)>(
    k: Semiring<W>, f: Fst<W>, table: seq<Subset<W>>, cache: map<nat, seq<Arc<W>>>, s: nat, V: seq<W>, T: seq<W>
  )
    requires LeftSemiring(k) && Determinized(k, f, table, cache) && s in cache && OneStep(k, f, V, T)
    ensures forall i :: 0 <= i < |cache[s]| ==> cache[s][i].nextstate < |table|
    ensures Eval(k, table[s], T) == k.Plus(DetFinal(k, f, table[s]), DetArcSum(k, table, cache[s], V))
  {
    var S, L := table[s], ArcLabels(cache[s]);
    DetArcSumIsStep(k, f, table, S, cache[s], V);
    forall i | 0 <= i < |S|
      ensures T[S[i].state] == k.Plus(Values(k, f, [])[S[i].state], LabelStep(k, f, L, V)[S[i].state])
    {
      AllLabelsListed(k, f, table, cache, s, i, V);
    }
    EvalPlus(k, S, Values(k, f, []), LabelStep(k, f, L, V), T);
  }

  /** If in_dist solves the distance equations of the input, the values of the subsets solve those of the
      determinized automaton. */
  lemma DetDistances<W(!new)>(
    k: Semiring<W>, f: Fst<W>, table: seq<Subset<W>>, cache: map<nat, seq<Arc<W>>>, s: nat, V: seq<W>, D: seq<W>
  )
    requires LeftSemiring(k) && Determinized(k, f, table, cache) && s in cache && OneStep(k, f, V, V)
    requires |D| == |table| && forall t :: 0 <= t < |table| ==> D[t] == Eval(k, table[t], V)
    ensures ValidArcs(cache[s], |table|)
    ensures D[s] == k.Plus(DetFinal(k, f, table[s]), ArcSumAll(k, cache[s], D))
  {
    EvalOneStep(k, f, table, cache, s, V, V);
    assert DetFst(k, f, table, cache).states[s].arcs == cache[s];
    DetArcSumAll(k, table, cache[s], V, D);
  }

  /** The value of a subset is what the determinized state accepts in all with at most n arcs. */
  ghost predicate SameFuture<W(!new)>(
    k: Semiring<W>, f: Fst<W>, table: seq<Subset<W>>, cache: map<nat, seq<Arc<W>>>, s: nat, n: nat
  )
    requires Determinized(k, f, table, cache)
  {
    s < |table| && Eval(k, table[s], Futures(k, f, n)) == Futures(k, DetFst(k, f, table, cache), n)[s]
  }

  lemma DetFuturesStep<W(!new)>(
    k: Semiring<W>, f: Fst<W>, table: seq<Subset<W>>, cache: map<nat, seq<Arc<W>>>, s: nat, n: nat
  )
    requires LeftSemiring(k) && Determinized(k, f, table, cache) && s in cache && n > 0
    requires forall i :: 0 <= i < |cache[s]| ==> SameFuture(k, f, table, cache, cache[s][i].nextstate, n - 1)
    ensures SameFuture(k, f, table, cache, s, n)
  {
    var g := DetFst(k, f, table, cache);
    EvalOneStep(k, f, table, cache, s, Futures(k, f, n - 1), Futures(k, f, n));
    assert g.states[s].arcs == cache[s];
    DetArcSumAll(k, table, cache[s], Futures(k, f, n - 1), Futures(k, g, n - 1));
  }

  lemma DestNumbered<W(!new)>(
    k: Semiring<W>, f: Fst<W>, table: seq<Subset<W>>, cache: map<nat, seq<Arc<W>>>, s: nat, i: nat
  )
    requires Determinized(k, f, table, cache) && s in cache && i < |cache[s]|
    ensures cache[s][i].nextstate < |table|
  {
    assert DetArcOf(k, f, table, table[s], cache[s][i]);
  }

  lemma DetFuturesNone<W(!new)>(
    k: Semiring<W>, f: Fst<W>, table: seq<Subset<W>>, cache: map<nat, seq<Arc<W>>>, s: nat
  )
    requires Determinized(k, f, table, cache) && s < |table|
    ensures SameFuture(k, f, table, cache, s, 0)
  {
    assert Futures(k, f, 0) == Values(k, f, []);
  }

  lemma {:induction false} DetFuturesAgree<W(!new)>(
    k: Semiring<W>, f: Fst<W>, table: seq<Subset<W>>, cache: map<nat, seq<Arc<W>>>, s: nat, n: nat
  )
    requires LeftSemiring(k) && Determinized(k, f, table, cache) && s < |table| && ExpandedTo(cache, s, n)
    ensures SameFuture(k, f, table, cache, s, n)
    decreases n, 1
  {
    if n == 0 {
      DetFuturesNone(k, f, table, cache, s);
    } else {
      forall i | 0 <= i < |cache[s]| ensures SameFuture(k, f, table, cache, cache[s][i].nextstate, n - 1) {
        DetFuturesArc(k, f, table, cache, s, n, i);
      }
      DetFuturesStep(k, f, table, cache, s, n);
    }
  }

  lemma {:induction false} DetFuturesArc<W(!new)>(
    k: Semiring<W>, f: Fst<W>, table: seq<Subset<W>>, cache: map<nat, seq<Arc<W>>>, s: nat, n: nat, i: nat
  )
    requires LeftSemiring(k) && Determinized(k, f, table, cache) && s < |table| && ExpandedTo(cache, s, n)
    requires n > 0 && i < |cache[s]|
    ensures SameFuture(k, f, table, cache, cache[s][i].nextstate, n - 1)
    decreases n, 0
  {
    DestNumbered(k, f, table, cache, s, i);
    DetFuturesAgree(k, f, table, cache, cache[s][i].nextstate, n - 1);
  }

  /** If the input values are the sums over the futures of at most n arcs, the value of a subset is the sum over
      the futures of at most n arcs of its determinized state. */
  lemma DetFutures<W(!new)>(
    k: Semiring<W>, f: Fst<W>, table: seq<Subset<W>>, cache: map<nat, seq<Arc<W>>>, s: nat, n: nat
  )
    requires LeftSemiring(k) && Determinized(k, f, table, cache) && s < |table| && ExpandedTo(cache, s, n)
    ensures Eval(k, table[s], Futures(k, f, n)) == Futures(k, DetFst(k, f, table, cache), n)[s]
  {
    DetFuturesAgree(k, f, table, cache, s, n);
  }

  /** From N arcs on, longer paths add nothing: V is the sum over all accepting futures. */
  ghost predicate SettledAt<W>(k: Semiring<W>, f: Fst<W>, V: seq<W>, N: nat)
    requires Valid(f)
  {
    forall n: nat :: n >= N ==> Futures(k, f, n) == V
  }

  /** Out of the input distances, the delayed automaton computes its own: if in_dist is the sum over all accepting
      futures of each input state, the distance pushed for a state is the sum over all of its accepting futures,
      as soon as all states it reaches are expanded. */
  lemma OutDistIsSumOfFutures<W(!new)>(d: DeterminizeFsa<W>, s: nat, N: nat)
    requires d.Valid() && CanDeterminize(d.k, d.v, d.fst) && d.inDist.Some? && s < |d.table|
    requires SettledAt(d.k, d.fst, d.InDistances(), N) && forall n: nat :: ExpandedTo(d.cache, s, n)
    ensures Determinized(d.k, d.fst, d.table, d.cache)
    ensures forall n: nat :: n >= N ==> d.outDist[s] == Futures(d.k, DetFst(d.k, d.fst, d.table, d.cache), n)[s]
  {
    StatesAreRight(d);
    forall n: nat | n >= N
      ensures d.outDist[s] == Futures(d.k, DetFst(d.k, d.fst, d.table, d.cache), n)[s]
    {
      DetFutures(d.k, d.fst, d.table, d.cache, s, n);
    }
  }
}
