/** Weighted determinization: subsets of input states with residual weights. */
module Determinize {
  import opened Semirings
  import opened Fsts
  import opened Sequences

  datatype Element<+W> = Element(state: nat, weight: W)

  type Subset<+W> = seq<Element<W>>

  /** The weight and the destination subset of an arc of the determinized automaton. */
  datatype DetArc<+W> = DetArc(weight: W, dest: Subset<W>)

  /** The common divisor of two weights, and left division. */
  datatype Division<!W> = Division(Common: (W, W) -> W, Divide: (W, W) -> W)

  /** d is a left factor of a. */
  ghost predicate Divides<W(!new)>(k: Semiring<W>, d: W, a: W) {
    exists x :: k.Times(d, x) == a
  }

  /** What determinization computes with: a common divisor is a left factor of both arguments, and division by a
      left factor that is not Zero is exact. */
  ghost predicate LeftDivisible<W(!new)>(k: Semiring<W>, v: Division<W>) {
    && LeftSemiring(k) && RightZero(k)
    && (forall a, b {:trigger At2(a, b)} :: At2(a, b) ==>
      (Divides(k, v.Common(a, b), a) && Divides(k, v.Common(a, b), b)))
    && (forall a, d {:trigger At2(a, d)} :: At2(a, d) ==>
      (d != k.Zero && Divides(k, d, a) ==> k.Times(d, v.Divide(a, d)) == a))
  }

  /** Neither sums nor products of non-Zero weights are Zero. */
  ghost predicate NoZeroResults<W(!new)>(k: Semiring<W>) {
    && NoZeroDivisors(k) && k.One != k.Zero
    && (forall a, b {:trigger At2(a, b)} :: At2(a, b) ==> (k.Plus(a, b) == k.Zero ==> a == k.Zero && b == k.Zero))
  }

  /** Weights with which determinization is right for every input whose arcs are not Zero. */
  ghost predicate Divisible<W(!new)>(k: Semiring<W>, v: Division<W>) {
    LeftDivisible(k, v) && RightSums(k) && NoZeroResults(k)
  }

  ghost predicate InSubset<W>(S: Subset<W>, n: nat) {
    forall i :: 0 <= i < |S| ==> S[i].state < n
  }

  ghost predicate NonZero<W>(k: Semiring<W>, S: Subset<W>) {
    forall i :: 0 <= i < |S| ==> S[i].weight != k.Zero
  }

  ghost predicate SomeNonZero<W>(k: Semiring<W>, S: Subset<W>) {
    exists i :: 0 <= i < |S| && S[i].weight != k.Zero
  }

  /** Duplicates can be merged: by distributivity, or because those of one state have one weight. */
  ghost predicate Mergeable<W(!new)>(k: Semiring<W>, S: Subset<W>) {
    RightSums(k) || (Idempotent(k) && DuplicatesEqual(S))
  }

  ghost predicate DuplicatesEqual<W>(S: Subset<W>) {
    forall i, j :: 0 <= i < |S| && 0 <= j < |S| && S[i].state == S[j].state ==> S[i].weight == S[j].weight
  }

  ghost predicate Ascending<W>(S: Subset<W>) {
    forall i, j :: 0 <= i < j < |S| ==> S[i].state < S[j].state
  }

  ghost predicate Sorted<W>(S: Subset<W>) {
    forall i, j :: 0 <= i < j < |S| ==> S[i].state <= S[j].state
  }

  /** The sum of weight times value over the subset, for one value per input state. */
  ghost function Eval<W>(k: Semiring<W>, S: Subset<W>, V: seq<W>): W
    requires InSubset(S, |V|)
  {
    if S == [] then k.Zero
    else k.Plus(k.Times(S[|S| - 1].weight, V[S[|S| - 1].state]), Eval(k, S[..|S| - 1], V))
  }

  lemma {:induction false} EvalConcat<W(!new)>(k: Semiring<W>, S: Subset<W>, T: Subset<W>, V: seq<W>)
    requires AdditiveLaws(k) && InSubset(S, |V|) && InSubset(T, |V|)
    ensures InSubset(S + T, |V|) && Eval(k, S + T, V) == k.Plus(Eval(k, S, V), Eval(k, T, V))
  {
    if T == [] {
      assert S + T == S;
      PlusZero(k, Eval(k, S, V));
    } else {
      var last, init := T[|T| - 1], T[..|T| - 1];
      EvalConcat(k, S, init, V);
      assert (S + T)[..|S + T| - 1] == S + init;
      var a, s, t := k.Times(last.weight, V[last.state]), Eval(k, S, V), Eval(k, init, V);
      PlusAssociates(k, a, s, t);
      PlusCommutes(k, a, s);
      PlusAssociates(k, s, a, t);
    }
  }

  lemma EvalOne<W(!new)>(k: Semiring<W>, e: Element<W>, V: seq<W>)
    requires AdditiveLaws(k) && e.state < |V|
    ensures Eval(k, [e], V) == k.Times(e.weight, V[e.state])
  {
    assert [e][..0] == [];
    PlusZero(k, k.Times(e.weight, V[e.state]));
  }

  /** S and T stand for the same weighted combination of input states, whatever those states are worth. */
  ghost predicate SameValue<W(!new)>(k: Semiring<W>, n: nat, S: Subset<W>, T: Subset<W>) {
    && InSubset(S, n) && InSubset(T, n)
    && forall V: seq<W> | |V| == n :: Eval(k, S, V) == Eval(k, T, V)
  }

  /** Scaling T by d from the left gives S. */
  ghost predicate Scaled<W(!new)>(k: Semiring<W>, n: nat, S: Subset<W>, d: W, T: Subset<W>) {
    && InSubset(S, n) && InSubset(T, n)
    && forall V: seq<W> | |V| == n :: Eval(k, S, V) == k.Times(d, Eval(k, T, V))
  }

  lemma EvalInsert<W(!new)>(k: Semiring<W>, S: Subset<W>, p: nat, e: Element<W>, V: seq<W>)
    requires AdditiveLaws(k) && InSubset(S, |V|) && e.state < |V| && p <= |S|
    ensures InSubset(S[..p] + [e] + S[p..], |V|)
    ensures Eval(k, S[..p] + [e] + S[p..], V) == Eval(k, S + [e], V)
  {
    var a, b, w := Eval(k, S[..p], V), Eval(k, S[p..], V), Eval(k, [e], V);
    EvalConcat(k, S[..p], [e], V);
    EvalConcat(k, S[..p] + [e], S[p..], V);
    EvalConcat(k, S[..p], S[p..], V);
    assert S[..p] + S[p..] == S;
    EvalConcat(k, S, [e], V);
    PlusAssociates(k, a, w, b);
    PlusCommutes(k, w, b);
    PlusAssociates(k, a, b, w);
  }

  lemma SameValueInsert<W(!new)>(k: Semiring<W>, n: nat, S: Subset<W>, S': Subset<W>, p: nat, e: Element<W>)
    requires AdditiveLaws(k) && SameValue(k, n, S, S') && e.state < n && p <= |S|
    ensures SameValue(k, n, S[..p] + [e] + S[p..], S' + [e])
  {
    forall V: seq<W> | |V| == n
      ensures Eval(k, S[..p] + [e] + S[p..], V) == Eval(k, S' + [e], V)
    {
      EvalInsert(k, S, p, e, V);
      EvalConcat(k, S, [e], V);
      EvalConcat(k, S', [e], V);
    }
  }

  // ---- Sorting by state

  /** Puts an element behind all that are not of a later state. */
  function SortInto<W>(r: Subset<W>, e: Element<W>): (r': Subset<W>)
    ensures |r'| == |r| + 1
  {
    if r == [] || r[|r| - 1].state <= e.state then r + [e] else SortInto(r[..|r| - 1], e) + [r[|r| - 1]]
  }

  function SortFold<W>(S: Subset<W>): (r: Subset<W>)
    ensures |r| == |S|
  {
    if S == [] then [] else SortInto(SortFold(S[..|S| - 1]), S[|S| - 1])
  }

  lemma {:induction false} SortIntoAt<W>(r: Subset<W>, e: Element<W>, p: nat)
    requires p <= |r| && (p > 0 ==> r[p - 1].state <= e.state) && forall j :: p <= j < |r| ==> e.state < r[j].state
    ensures SortInto(r, e) == r[..p] + [e] + r[p..]
  {
    if p < |r| {
      var init := r[..|r| - 1];
      SortIntoAt(init, e, p);
      assert r[..p] == init[..p] && r[p..] == init[p..] + [r[|r| - 1]];
    } else {
      assert r[..p] == r && r[p..] == [];
    }
  }

  lemma {:induction false} SortIntoElements<W>(r: Subset<W>, e: Element<W>)
    ensures forall x :: x in SortInto(r, e) <==> x in r || x == e
  {
    if r != [] && r[|r| - 1].state > e.state {
      SortIntoElements(r[..|r| - 1], e);
      assert r == r[..|r| - 1] + [r[|r| - 1]];
    }
  }

  lemma InsertSorted<W>(r: Subset<W>, e: Element<W>, p: nat)
    requires Sorted(r) && p <= |r| && (p > 0 ==> r[p - 1].state <= e.state)
    requires forall j :: p <= j < |r| ==> e.state < r[j].state
    ensures Sorted(r[..p] + [e] + r[p..])
  {
  }

  lemma {:induction false} SortIntoKeeps<W(!new)>(k: Semiring<W>, n: nat, r: Subset<W>, e: Element<W>)
    requires AdditiveLaws(k) && InSubset(r, n) && e.state < n && Sorted(r)
    ensures Sorted(SortInto(r, e)) && SameValue(k, n, SortInto(r, e), r + [e])
  {
    var p: nat := |r|;
    while p > 0 && e.state < r[p - 1].state
      invariant 0 <= p <= |r| && forall j :: p <= j < |r| ==> e.state < r[j].state
    {
      p := p - 1;
    }
    SortIntoAt(r, e, p);
    InsertSorted(r, e, p);
    SameValueInsert(k, n, r, r, p, e);
  }

  /** Sorting keeps the elements and what they are worth. */
  lemma {:induction false} SortKeepsValue<W(!new)>(k: Semiring<W>, n: nat, S: Subset<W>)
    requires AdditiveLaws(k) && InSubset(S, n)
    ensures InSubset(SortFold(S), n) && Sorted(SortFold(S)) && SameValue(k, n, SortFold(S), S)
    ensures forall x :: x in SortFold(S) <==> x in S
  {
    if S != [] {
      var init, last := S[..|S| - 1], S[|S| - 1];
      SortKeepsValue(k, n, init);
      SortIntoKeeps(k, n, SortFold(init), last);
      SortIntoElements(SortFold(init), last);
      SameValueAppend(k, n, SortFold(init), init, last);
      assert init + [last] == S;
    }
  }

  /** Stable sort by state. */
  method SortByState<W>(S: Subset<W>) returns (r: Subset<W>)
    ensures r == SortFold(S)
  {
    r := [];
    for i := 0 to |S|
      invariant r == SortFold(S[..i])
    {
      var p := |r|;
      while p > 0 && S[i].state < r[p - 1].state
        invariant 0 <= p <= |r| && forall j :: p <= j < |r| ==> S[i].state < r[j].state
      {
        p := p - 1;
      }
      SortIntoAt(r, S[i], p);
      TakeNext(S, i);
      r := r[..p] + [S[i]] + r[p..];
    }
    TakeAll(S);
  }

  // ---- Merging duplicates and dividing

  /** One element more: added to the last one if it has the same state, else appended. */
  function MergeNext<W>(k: Semiring<W>, merged: Subset<W>, e: Element<W>): Subset<W> {
    if merged != [] && e.state == merged[|merged| - 1].state then
      merged[..|merged| - 1] + [Element(e.state, k.Plus(merged[|merged| - 1].weight, e.weight))]
    else
      merged + [e]
  }

  function MergeFold<W>(k: Semiring<W>, S: Subset<W>): Subset<W> {
    if S == [] then [] else MergeNext(k, MergeFold(k, S[..|S| - 1]), S[|S| - 1])
  }

  /** The common divisor folded over the weights, merged duplicates included. */
  function DivisorFold<W>(k: Semiring<W>, v: Division<W>, S: Subset<W>): W {
    if S == [] then k.Zero else v.Common(DivisorFold(k, v, S[..|S| - 1]), S[|S| - 1].weight)
  }

  function DividedBy<W>(v: Division<W>, S: Subset<W>, d: W): (T: Subset<W>)
    ensures |T| == |S| && forall i :: 0 <= i < |T| ==> T[i] == Element(S[i].state, v.Divide(S[i].weight, d))
  {
    seq(|S|, i requires 0 <= i < |S| => Element(S[i].state, v.Divide(S[i].weight, d)))
  }

  /** What becomes of the destinations gathered for a label: the arc weight and the destination subset. */
  function NormArcOf<W>(k: Semiring<W>, v: Division<W>, S: Subset<W>): DetArc<W> {
    var sorted := SortFold(S);
    var d := DivisorFold(k, v, sorted);
    DetArc(d, DividedBy(v, MergeFold(k, sorted), d))
  }

  /** Two elements of one state weigh as much as one with the sum of their weights, if Times distributes from the
      right, or if they are equal and sums are idempotent. */
  lemma MergeKeepsValue<W(!new)>(k: Semiring<W>, n: nat, S: Subset<W>, e: Element<W>)
    requires LeftSemiring(k) && InSubset(S, n) && S != [] && e.state == S[|S| - 1].state
    requires RightSums(k) || (Idempotent(k) && e == S[|S| - 1])
    ensures SameValue(k, n, MergeNext(k, S, e), S + [e])
  {
    var last, init := S[|S| - 1], S[..|S| - 1];
    var merged := Element(last.state, k.Plus(last.weight, e.weight));
    forall V: seq<W> | |V| == n
      ensures Eval(k, init + [merged], V) == Eval(k, S + [e], V)
    {
      EvalConcat(k, init, [merged], V);
      EvalConcat(k, init, [last], V);
      assert init + [last] == S;
      EvalConcat(k, S, [e], V);
      EvalOne(k, last, V);
      EvalOne(k, e, V);
      EvalOne(k, merged, V);
      if RightSums(k) {
        assert At3(last.weight, e.weight, V[e.state]);
      } else {
        assert At1(last.weight) && At1(k.Times(last.weight, V[e.state]));
      }
      PlusAssociates(k, Eval(k, init, V), Eval(k, [last], V), Eval(k, [e], V));
    }
  }

  /** Merging two elements of one state keeps the value of every subset. */
  ghost predicate MergesSafely<W(!new)>(k: Semiring<W>) {
    forall n: nat, S: Subset<W>, e: Element<W> {:trigger SameValue(k, n, MergeNext(k, S, e), S + [e])} |
      InSubset(S, n) && S != [] && e.state == S[|S| - 1].state :: SameValue(k, n, MergeNext(k, S, e), S + [e])
  }

  /** In a left semiring, merging duplicates keeps all values exactly when Times distributes from the right. */
  lemma MergesSafelyIff<W(!new)>(k: Semiring<W>)
    requires LeftSemiring(k)
    ensures MergesSafely(k) <==> RightSums(k)
  {
    if RightSums(k) {
      forall n: nat, S: Subset<W>, e: Element<W> | InSubset(S, n) && S != [] && e.state == S[|S| - 1].state
        ensures SameValue(k, n, MergeNext(k, S, e), S + [e])
      {
        MergeKeepsValue(k, n, S, e);
      }
    }
    if MergesSafely(k) {
      forall a, b, c {:trigger At3(a, b, c)} ensures k.Times(k.Plus(a, b), c) == k.Plus(k.Times(a, c), k.Times(b, c)) {
        var S, e, V := [Element(0, a)], Element(0, b), [c];
        assert SameValue(k, 1, MergeNext(k, S, e), S + [e]);
        assert MergeNext(k, S, e) == [Element(0, k.Plus(a, b))];
        EvalOne(k, Element(0, k.Plus(a, b)), V);
        EvalConcat(k, S, [e], V);
        EvalOne(k, S[0], V);
        EvalOne(k, e, V);
      }
    }
  }

  lemma SameValueAppend<W(!new)>(k: Semiring<W>, n: nat, S: Subset<W>, S': Subset<W>, e: Element<W>)
    requires AdditiveLaws(k) && SameValue(k, n, S, S') && e.state < n
    ensures SameValue(k, n, S + [e], S' + [e])
  {
    SameValueInsert(k, n, S, S', |S|, e);
    assert S[..|S|] + [e] + S[|S|..] == S + [e];
  }

  ghost predicate DividesAll<W(!new)>(k: Semiring<W>, d: W, S: Subset<W>) {
    forall i :: 0 <= i < |S| ==> Divides(k, d, S[i].weight)
  }

  lemma DividesTransitive<W(!new)>(k: Semiring<W>, d: W, e: W, a: W)
    requires MultiplicativeLaws(k) && Divides(k, d, e) && Divides(k, e, a)
    ensures Divides(k, d, a)
  {
    var x :| k.Times(d, x) == e;
    var y :| k.Times(e, y) == a;
    TimesAssociates(k, d, x, y);
  }

  lemma DividesSum<W(!new)>(k: Semiring<W>, d: W, a: W, b: W)
    requires LeftDistributes(k) && Divides(k, d, a) && Divides(k, d, b)
    ensures Divides(k, d, k.Plus(a, b))
  {
    var x :| k.Times(d, x) == a;
    var y :| k.Times(d, y) == b;
    DistributeLeft(k, d, x, y);
  }

  lemma CommonDivides<W(!new)>(k: Semiring<W>, v: Division<W>, d: W, w: W, S: Subset<W>)
    requires LeftDivisible(k, v) && DividesAll(k, d, S)
    ensures DividesAll(k, v.Common(d, w), S) && Divides(k, v.Common(d, w), w)
  {
    assert At2(d, w);
    forall i | 0 <= i < |S| ensures Divides(k, v.Common(d, w), S[i].weight) {
      DividesTransitive(k, v.Common(d, w), d, S[i].weight);
    }
  }

  /** A left factor of a non-Zero weight is not Zero. */
  lemma DivisorNonZero<W(!new)>(k: Semiring<W>, d: W, S: Subset<W>)
    requires RightZero(k) && DividesAll(k, d, S) && SomeNonZero(k, S)
    ensures d != k.Zero
  {
    var i :| 0 <= i < |S| && S[i].weight != k.Zero;
    assert Divides(k, d, S[i].weight);
    var x :| k.Times(d, x) == S[i].weight;
    assert At1(x);
  }

  lemma ScaledAppend<W(!new)>(k: Semiring<W>, n: nat, S: Subset<W>, d: W, T: Subset<W>, a: Element<W>, b: Element<W>)
    requires LeftSemiring(k) && Scaled(k, n, S, d, T) && a.state == b.state < n && k.Times(d, b.weight) == a.weight
    ensures Scaled(k, n, S + [a], d, T + [b])
  {
    forall V: seq<W> | |V| == n
      ensures Eval(k, S + [a], V) == k.Times(d, Eval(k, T + [b], V))
    {
      EvalConcat(k, S, [a], V);
      EvalConcat(k, T, [b], V);
      EvalOne(k, a, V);
      EvalOne(k, b, V);
      TimesAssociates(k, d, b.weight, V[b.state]);
      DistributeLeft(k, d, Eval(k, T, V), Eval(k, [b], V));
    }
  }

  /** What merging a sorted prefix keeps: its value, each state once, and a left factor of every weight, of the
      merged ones and of those that went into them. */
  ghost predicate MergedPrefix<W(!new)>(k: Semiring<W>, n: nat, weight: W, merged: Subset<W>, prefix: Subset<W>) {
    && Ascending(merged) && SameValue(k, n, merged, prefix) && DividesAll(k, weight, merged)
      && DividesAll(k, weight, prefix)
    && (merged != [] <==> prefix != [])
    && (prefix != [] ==> merged[|merged| - 1].state == prefix[|prefix| - 1].state)
  }

  /** Without distributivity, each merged element is one of those that went into it. */
  ghost predicate MergedKept<W(!new)>(k: Semiring<W>, merged: Subset<W>, prefix: Subset<W>) {
    RightSums(k) || forall x :: x in merged ==> x in prefix
  }

  lemma MergeStep<W(!new)>(
    k: Semiring<W>, v: Division<W>, n: nat, weight: W, merged: Subset<W>, prefix: Subset<W>, e: Element<W>
  )
    requires LeftDivisible(k, v) && MergedPrefix(k, n, weight, merged, prefix) && e.state < n
    requires Mergeable(k, prefix + [e]) && MergedKept(k, merged, prefix)
    requires prefix != [] ==> prefix[|prefix| - 1].state <= e.state
    ensures MergedPrefix(k, n, v.Common(weight, e.weight), MergeNext(k, merged, e), prefix + [e])
    ensures MergedKept(k, MergeNext(k, merged, e), prefix + [e])
  {
    var d := v.Common(weight, e.weight);
    CommonDivides(k, v, weight, e.weight, merged);
    CommonDivides(k, v, weight, e.weight, prefix);
    SameValueAppend(k, n, merged, prefix, e);
    if merged != [] && e.state == merged[|merged| - 1].state {
      if !RightSums(k) {
        LastIsEqual(merged, prefix, e);
        assert At1(e.weight);
      }
      MergeKeepsValue(k, n, merged, e);
      DividesSum(k, d, merged[|merged| - 1].weight, e.weight);
    }
  }

  lemma LastIsEqual<W>(merged: Subset<W>, prefix: Subset<W>, e: Element<W>)
    requires DuplicatesEqual(prefix + [e]) && merged != [] && merged[|merged| - 1].state == e.state
    requires forall x :: x in merged ==> x in prefix
    ensures merged[|merged| - 1] == e
  {
    var last := merged[|merged| - 1];
    assert last in merged;
    var i :| 0 <= i < |prefix| && prefix[i] == last;
    assert (prefix + [e])[i] == last && (prefix + [e])[|prefix|] == e;
  }

  /** After the scan each state occurs once, the value is unchanged, and the divisor divides every weight. */
  lemma {:induction false} MergeFoldKeeps<W(!new)>(k: Semiring<W>, v: Division<W>, n: nat, S: Subset<W>)
    requires LeftDivisible(k, v) && InSubset(S, n) && Sorted(S) && Mergeable(k, S)
    ensures MergedPrefix(k, n, DivisorFold(k, v, S), MergeFold(k, S), S) && MergedKept(k, MergeFold(k, S), S)
  {
    if S != [] {
      var init, last := S[..|S| - 1], S[|S| - 1];
      assert init + [last] == S;
      MergeFoldKeeps(k, v, n, init);
      MergeStep(k, v, n, DivisorFold(k, v, init), MergeFold(k, init), init, last);
    }
  }

  /** Sums of non-Zero weights stay non-Zero. */
  lemma {:induction false} MergeFoldNonZero<W(!new)>(k: Semiring<W>, S: Subset<W>)
    requires NoZeroResults(k) && NonZero(k, S)
    ensures NonZero(k, MergeFold(k, S))
  {
    if S != [] {
      var init, last := S[..|S| - 1], S[|S| - 1];
      var merged := MergeFold(k, init);
      MergeFoldNonZero(k, init);
      if merged != [] {
        assert At2(merged[|merged| - 1].weight, last.weight);
      }
    }
  }

  /** The divisor times the divided subset is worth the subset. */
  lemma {:induction false} DividedIsScaled<W(!new)>(k: Semiring<W>, v: Division<W>, n: nat, d: W, S: Subset<W>)
    requires LeftDivisible(k, v) && InSubset(S, n) && d != k.Zero && DividesAll(k, d, S)
    ensures Scaled(k, n, S, d, DividedBy(v, S, d)) && (NonZero(k, S) ==> NonZero(k, DividedBy(v, S, d)))
  {
    DistributeLeft(k, d, k.Zero, k.Zero);
    if S != [] {
      var init, last := S[..|S| - 1], S[|S| - 1];
      var r := Element(last.state, v.Divide(last.weight, d));
      DividedIsScaled(k, v, n, d, init);
      assert At2(last.weight, d) && Divides(k, d, last.weight);
      ScaledAppend(k, n, init, d, DividedBy(v, init, d), last, r);
      assert init + [last] == S && DividedBy(v, init, d) + [r] == DividedBy(v, S, d);
    }
  }

  /** The arc weight times the destination subset is worth what was gathered, each state occurs once, and the
      weight is not Zero, provided that duplicates can be merged and something gathered is not Zero. */
  lemma NormArcKeepsValue<W(!new)>(k: Semiring<W>, v: Division<W>, n: nat, S: Subset<W>)
    requires LeftDivisible(k, v) && InSubset(S, n) && Mergeable(k, S) && SomeNonZero(k, S)
    ensures var arc := NormArcOf(k, v, S);
      && Scaled(k, n, S, arc.weight, arc.dest) && arc.weight != k.Zero
      && (NoZeroResults(k) && NonZero(k, S) ==> NonZero(k, arc.dest))
  {
    var sorted := SortFold(S);
    SortKeepsValue(k, n, S);
    SortedMergeable(k, S, sorted);
    MergeFoldKeeps(k, v, n, sorted);
    DivisorNonZero(k, DivisorFold(k, v, sorted), sorted);
    DividedIsScaled(k, v, n, DivisorFold(k, v, sorted), MergeFold(k, sorted));
    if NoZeroResults(k) && NonZero(k, S) {
      forall i | 0 <= i < |sorted| ensures sorted[i].weight != k.Zero {
        assert sorted[i] in sorted;
      }
      MergeFoldNonZero(k, sorted);
    }
  }

  lemma SortedMergeable<W(!new)>(k: Semiring<W>, S: Subset<W>, sorted: Subset<W>)
    requires (forall x :: x in sorted <==> x in S) && Mergeable(k, S) && SomeNonZero(k, S)
    ensures Mergeable(k, sorted) && SomeNonZero(k, sorted)
  {
    var i :| 0 <= i < |S| && S[i].weight != k.Zero;
    assert S[i] in S;
    var j :| 0 <= j < |sorted| && sorted[j] == S[i];
    if !RightSums(k) {
      forall a, b | 0 <= a < |sorted| && 0 <= b < |sorted| && sorted[a].state == sorted[b].state
        ensures sorted[a].weight == sorted[b].weight
      {
        assert sorted[a] in sorted && sorted[b] in sorted;
      }
    }
  }

  lemma MergeNextShape<W>(k: Semiring<W>, n: nat, merged: Subset<W>, e: Element<W>)
    requires InSubset(merged, n) && e.state < n && Ascending(merged)
    requires merged != [] ==> merged[|merged| - 1].state <= e.state
    ensures var next := MergeNext(k, merged, e);
      InSubset(next, n) && Ascending(next) && next != [] && next[|next| - 1].state == e.state
  {
  }

  lemma {:induction false} MergeFoldShape<W>(k: Semiring<W>, n: nat, S: Subset<W>)
    requires InSubset(S, n) && Sorted(S)
    ensures InSubset(MergeFold(k, S), n) && Ascending(MergeFold(k, S))
    ensures MergeFold(k, S) != [] <==> S != []
    ensures S != [] ==> MergeFold(k, S)[|MergeFold(k, S)| - 1].state == S[|S| - 1].state
  {
    if S != [] {
      MergeFoldShape(k, n, S[..|S| - 1]);
      MergeNextShape(k, n, MergeFold(k, S[..|S| - 1]), S[|S| - 1]);
    }
  }

  /** Whatever the weights are, a destination subset has each state once, in order. */
  lemma NormArcShape<W(!new)>(k: Semiring<W>, v: Division<W>, n: nat, S: Subset<W>)
    requires AdditiveLaws(k) && InSubset(S, n)
    ensures var dest := NormArcOf(k, v, S).dest; InSubset(dest, n) && Ascending(dest) && (S != [] ==> dest != [])
  {
    SortKeepsValue(k, n, S);
    MergeFoldShape(k, n, SortFold(S));
  }

  /** Merges the duplicate states of a sorted subset and folds the common divisor over its weights. */
  method MergeDuplicates<W>(k: Semiring<W>, v: Division<W>, sorted: Subset<W>) returns (weight: W, merged: Subset<W>)
    ensures weight == DivisorFold(k, v, sorted) && merged == MergeFold(k, sorted)
  {
    merged := [];
    weight := k.Zero;
    for i := 0 to |sorted|
      invariant weight == DivisorFold(k, v, sorted[..i]) && merged == MergeFold(k, sorted[..i])
    {
      TakeNext(sorted, i);
      weight := v.Common(weight, sorted[i].weight);
      merged := MergeNext(k, merged, sorted[i]);
    }
    TakeAll(sorted);
  }

  /** Divides every weight by the divisor. */
  method DivideAll<W>(v: Division<W>, weight: W, S: Subset<W>) returns (T: Subset<W>)
    ensures T == DividedBy(v, S, weight)
  {
    T := [];
    for i := 0 to |S|
      invariant |T| == i && forall j :: 0 <= j < i ==> T[j] == Element(S[j].state, v.Divide(S[j].weight, weight))
    {
      T := T + [Element(S[i].state, v.Divide(S[i].weight, weight))];
    }
  }

  /** Sorts a subset, merges duplicate states and divides by the folded common divisor. */
  method NormArc<W>(k: Semiring<W>, v: Division<W>, S: Subset<W>) returns (arc: DetArc<W>)
    ensures arc == NormArcOf(k, v, S)
  {
    var sorted := SortByState(S);
    var weight, merged := MergeDuplicates(k, v, sorted);
    var dest := DivideAll(v, weight, merged);
    arc := DetArc(weight, dest);
  }

  // ---- What the input automaton is worth

  /** The sum over the arcs with the label of weight times the value of the destination. */
  ghost function ArcSum<W>(k: Semiring<W>, arcs: seq<Arc<W>>, l: int, V: seq<W>): W
    requires ValidArcs(arcs, |V|)
  {
    if arcs == [] then k.Zero
    else
      var last, rest := arcs[|arcs| - 1], ArcSum(k, arcs[..|arcs| - 1], l, V);
      if last.ilabel == l then k.Plus(k.Times(last.weight, V[last.nextstate]), rest) else rest
  }

  /** What each state accepts the label string x with. */
  ghost function Values<W>(k: Semiring<W>, f: Fst<W>, x: seq<int>): (V: seq<W>)
    requires Valid(f)
    ensures |V| == |f.states|
    decreases x
  {
    if x == [] then seq(|f.states|, q requires 0 <= q < |f.states| => f.states[q].final)
    else
      var V := Values(k, f, x[1..]);
      seq(|f.states|, q requires 0 <= q < |f.states| => ArcSum(k, f.states[q].arcs, x[0], V))
  }

  /** The destinations reached with a label, as they are pushed to the front. */
  ghost function GatherArcs<W>(k: Semiring<W>, w: W, arcs: seq<Arc<W>>, l: int): Subset<W> {
    if arcs == [] then []
    else
      var last, rest := arcs[|arcs| - 1], GatherArcs(k, w, arcs[..|arcs| - 1], l);
      if last.ilabel == l then [Element(last.nextstate, k.Times(w, last.weight))] + rest else rest
  }

  ghost function Gather<W>(k: Semiring<W>, f: Fst<W>, S: Subset<W>, l: int): Subset<W>
    requires Valid(f) && InSubset(S, |f.states|)
  {
    if S == [] then []
    else
      var last := S[|S| - 1];
      GatherArcs(k, last.weight, f.states[last.state].arcs, l) + Gather(k, f, S[..|S| - 1], l)
  }

  /** The gathered destinations are worth what the label is worth from the subset. */
  lemma {:induction false} GatherArcsValue<W(!new)>(k: Semiring<W>, w: W, arcs: seq<Arc<W>>, l: int, V: seq<W>)
    requires LeftSemiring(k) && ValidArcs(arcs, |V|)
    ensures InSubset(GatherArcs(k, w, arcs, l), |V|)
    ensures Eval(k, GatherArcs(k, w, arcs, l), V) == k.Times(w, ArcSum(k, arcs, l, V))
  {
    if arcs == [] {
      DistributeLeft(k, w, k.Zero, k.Zero);
    } else {
      var last, init := arcs[|arcs| - 1], arcs[..|arcs| - 1];
      GatherArcsValue(k, w, init, l, V);
      if last.ilabel == l {
        var e := Element(last.nextstate, k.Times(w, last.weight));
        EvalConcat(k, [e], GatherArcs(k, w, init, l), V);
        EvalOne(k, e, V);
        TimesAssociates(k, w, last.weight, V[last.nextstate]);
        DistributeLeft(k, w, k.Times(last.weight, V[last.nextstate]), ArcSum(k, init, l, V));
      }
    }
  }

  lemma {:induction false} GatherValue<W(!new)>(k: Semiring<W>, f: Fst<W>, S: Subset<W>, l: int, x: seq<int>)
    requires LeftSemiring(k) && Valid(f) && InSubset(S, |f.states|)
    ensures InSubset(Gather(k, f, S, l), |f.states|)
    ensures Eval(k, Gather(k, f, S, l), Values(k, f, x)) == Eval(k, S, Values(k, f, [l] + x))
  {
    var V, U := Values(k, f, x), Values(k, f, [l] + x);
    assert ([l] + x)[1..] == x;
    if S != [] {
      var last, init := S[|S| - 1], S[..|S| - 1];
      var arcs := f.states[last.state].arcs;
      GatherValue(k, f, init, l, x);
      GatherArcsValue(k, last.weight, arcs, l, V);
      assert U[last.state] == ArcSum(k, arcs, l, V);
      EvalConcat(k, GatherArcs(k, last.weight, arcs, l), Gather(k, f, init, l), V);
    }
  }

  // ---- An independent reading of Values: the sum over an exact list of the paths

  /** All paths from q that read x, each listed once; the arc lists are scanned from position i. */
  ghost function PathsFrom<W>(f: Fst<W>, q: nat, x: seq<int>, i: nat): (ps: seq<seq<nat>>)
    requires Valid(f) && q < |f.states| && i <= |f.states[q].arcs|
    decreases x, i
  {
    if x == [] then [[]]
    else if i == 0 then []
    else
      var arc := f.states[q].arcs[i - 1];
      (if arc.ilabel == x[0]
       then PrefixAll(i - 1, PathsFrom(f, arc.nextstate, x[1..], |f.states[arc.nextstate].arcs|))
       else [])
      + PathsFrom(f, q, x, i - 1)
  }

  ghost function PrefixAll(i: nat, ps: seq<seq<nat>>): (r: seq<seq<nat>>)
    ensures |r| == |ps| && forall j :: 0 <= j < |ps| ==> r[j] == [i] + ps[j]
  {
    if ps == [] then [] else [[i] + ps[0]] + PrefixAll(i, ps[1..])
  }

  ghost predicate Reads<W>(f: Fst<W>, q: nat, x: seq<int>, p: seq<nat>)
    requires Valid(f) && q < |f.states|
  {
    IsPath(f, q, p) && ILabels(f, q, p) == x
  }

  /** The paths that start with arc i are the paths of its destination, prefixed. */
  lemma PrefixedReads<W>(f: Fst<W>, q: nat, x: seq<int>, i: nat, ps: seq<seq<nat>>, p: seq<nat>)
    requires Valid(f) && q < |f.states| && x != [] && i < |f.states[q].arcs| && f.states[q].arcs[i].ilabel == x[0]
    requires forall r :: r in ps <==> Reads(f, f.states[q].arcs[i].nextstate, x[1..], r)
    ensures p in PrefixAll(i, ps) <==> Reads(f, q, x, p) && p != [] && p[0] == i
  {
    var arc, here := f.states[q].arcs[i], PrefixAll(i, ps);
    if p in here {
      var j :| 0 <= j < |here| && here[j] == p;
      assert ps[j] in ps && p == [i] + ps[j] && p[1..] == ps[j];
      ConsRest(x);
    }
    if Reads(f, q, x, p) && p != [] && p[0] == i {
      assert ILabels(f, q, p)[1..] == ILabels(f, arc.nextstate, p[1..]);
      assert Reads(f, arc.nextstate, x[1..], p[1..]);
      var j :| 0 <= j < |ps| && ps[j] == p[1..];
      ConsRest(p);
      assert here[j] == p;
    }
  }

  /** No path of q that reads x starts with an arc with another label. */
  lemma OtherLabel<W>(f: Fst<W>, q: nat, x: seq<int>, p: seq<nat>)
    requires Valid(f) && q < |f.states| && Reads(f, q, x, p) && p != []
    ensures x != [] && f.states[q].arcs[p[0]].ilabel == x[0]
  {
    assert ILabels(f, q, p)[0] == f.states[q].arcs[p[0]].ilabel;
  }

  lemma PrefixAllDistinct(i: nat, ps: seq<seq<nat>>)
    requires Distinct(ps)
    ensures Distinct(PrefixAll(i, ps)) && forall p :: p in PrefixAll(i, ps) ==> p != [] && p[0] == i
  {
    var here := PrefixAll(i, ps);
    forall a, b | 0 <= a < b < |here| ensures here[a] != here[b] {
      DropFirst(i, ps[a]);
      DropFirst(i, ps[b]);
    }
  }

  lemma ConcatDistinct<T>(a: seq<T>, b: seq<T>)
    requires Distinct(a) && Distinct(b) && forall x :: x in a ==> x !in b
    ensures Distinct(a + b)
  {
    forall i, j | 0 <= i < j < |a + b| ensures (a + b)[i] != (a + b)[j] {
      assert i < |a| ==> a[i] in a;
      assert j >= |a| ==> b[j - |a|] in b;
    }
  }

  /** The listed paths that start with arc i. */
  ghost function PathsThrough<W>(f: Fst<W>, q: nat, x: seq<int>, i: nat, ps: seq<seq<nat>>): seq<seq<nat>>
    requires q < |f.states| && x != [] && i < |f.states[q].arcs|
  {
    if f.states[q].arcs[i].ilabel == x[0] then PrefixAll(i, ps) else []
  }

  lemma ThroughExact<W>(f: Fst<W>, q: nat, x: seq<int>, i: nat, ps: seq<seq<nat>>)
    requires Valid(f) && q < |f.states| && x != [] && i < |f.states[q].arcs| && Distinct(ps)
    requires forall r :: r in ps <==> Reads(f, f.states[q].arcs[i].nextstate, x[1..], r)
    ensures forall p :: p in PathsThrough(f, q, x, i, ps) <==> Reads(f, q, x, p) && p != [] && p[0] == i
    ensures Distinct(PathsThrough(f, q, x, i, ps))
  {
    PrefixAllDistinct(i, ps);
    forall p ensures p in PathsThrough(f, q, x, i, ps) <==> Reads(f, q, x, p) && p != [] && p[0] == i {
      if f.states[q].arcs[i].ilabel == x[0] {
        PrefixedReads(f, q, x, i, ps, p);
      } else if Reads(f, q, x, p) && p != [] {
        OtherLabel(f, q, x, p);
      }
    }
  }

  /** The list has exactly the paths that read x and start below position i, without repetition. */
  ghost predicate ListsReads<W>(f: Fst<W>, q: nat, x: seq<int>, i: nat, ps: seq<seq<nat>>)
    requires Valid(f) && q < |f.states|
  {
    Distinct(ps) && forall p :: p in ps <==> Reads(f, q, x, p) && (p != [] ==> p[0] < i)
  }

  lemma ListsReadsNext<W>(f: Fst<W>, q: nat, x: seq<int>, i: nat, ps: seq<seq<nat>>, below: seq<seq<nat>>)
    requires Valid(f) && q < |f.states| && x != [] && i < |f.states[q].arcs| && ListsReads(f, q, x, i, below)
    requires var next := f.states[q].arcs[i].nextstate; ListsReads(f, next, x[1..], |f.states[next].arcs|, ps)
    ensures ListsReads(f, q, x, i + 1, PathsThrough(f, q, x, i, ps) + below)
  {
    var next := f.states[q].arcs[i].nextstate;
    forall r ensures r in ps <==> Reads(f, next, x[1..], r) {
      assert r != [] && Reads(f, next, x[1..], r) ==> r[0] < |f.states[next].arcs|;
    }
    ThroughExact(f, q, x, i, ps);
    ConcatDistinct(PathsThrough(f, q, x, i, ps), below);
  }

  lemma {:induction false} PathsAreListed<W>(f: Fst<W>, q: nat, x: seq<int>, i: nat)
    requires Valid(f) && q < |f.states| && i <= |f.states[q].arcs|
    ensures ListsReads(f, q, x, i, PathsFrom(f, q, x, i))
    decreases x, i
  {
    if x != [] && i > 0 {
      var next := f.states[q].arcs[i - 1].nextstate;
      var ps := PathsFrom(f, next, x[1..], |f.states[next].arcs|);
      PathsAreListed(f, q, x, i - 1);
      PathsAreListed(f, next, x[1..], |f.states[next].arcs|);
      ListsReadsNext(f, q, x, i - 1, ps, PathsFrom(f, q, x, i - 1));
      assert PathsFrom(f, q, x, i) == PathsThrough(f, q, x, i - 1, ps) + PathsFrom(f, q, x, i - 1);
    }
  }

  /** The listed paths are exactly those that read x (and start below position i), each once. */
  lemma PathsFromExact<W>(f: Fst<W>, q: nat, x: seq<int>, i: nat)
    requires Valid(f) && q < |f.states| && i <= |f.states[q].arcs|
    ensures forall p :: p in PathsFrom(f, q, x, i) <==> Reads(f, q, x, p) && (p != [] ==> p[0] < i)
    ensures Distinct(PathsFrom(f, q, x, i))
  {
    PathsAreListed(f, q, x, i);
  }

  ghost function SumPaths<W>(k: Semiring<W>, f: Fst<W>, q: nat, ps: seq<seq<nat>>): W
    requires Valid(f) && q < |f.states| && forall p :: p in ps ==> IsPath(f, q, p)
  {
    if ps == [] then k.Zero else k.Plus(PathWeight(k, f, q, ps[0]), SumPaths(k, f, q, ps[1..]))
  }

  lemma {:induction false} SumPathsConcat<W(!new)>(
    k: Semiring<W>, f: Fst<W>, q: nat, ps: seq<seq<nat>>, qs: seq<seq<nat>>
  )
    requires AdditiveLaws(k) && Valid(f) && q < |f.states|
    requires (forall p :: p in ps ==> IsPath(f, q, p)) && (forall p :: p in qs ==> IsPath(f, q, p))
    ensures SumPaths(k, f, q, ps + qs) == k.Plus(SumPaths(k, f, q, ps), SumPaths(k, f, q, qs))
  {
    if ps == [] {
      assert ps + qs == qs;
      PlusZero(k, SumPaths(k, f, q, qs));
    } else {
      assert (ps + qs)[1..] == ps[1..] + qs;
      SumPathsConcat(k, f, q, ps[1..], qs);
      PlusAssociates(k, PathWeight(k, f, q, ps[0]), SumPaths(k, f, q, ps[1..]), SumPaths(k, f, q, qs));
    }
  }

  lemma {:induction false} SumPrefixed<W(!new)>(k: Semiring<W>, f: Fst<W>, q: nat, i: nat, ps: seq<seq<nat>>)
    requires LeftSemiring(k) && Valid(f) && q < |f.states| && i < |f.states[q].arcs|
    requires forall p :: p in ps ==> IsPath(f, f.states[q].arcs[i].nextstate, p)
    ensures forall p :: p in PrefixAll(i, ps) ==> IsPath(f, q, p)
    ensures SumPaths(k, f, q, PrefixAll(i, ps))
         == k.Times(f.states[q].arcs[i].weight, SumPaths(k, f, f.states[q].arcs[i].nextstate, ps))
  {
    var arc := f.states[q].arcs[i];
    if ps == [] {
      DistributeLeft(k, arc.weight, k.Zero, k.Zero);
    } else {
      SumPrefixed(k, f, q, i, ps[1..]);
      Prepend(k, f, q, i, ps[0]);
      DistributeLeft(k, arc.weight, PathWeight(k, f, arc.nextstate, ps[0]), SumPaths(k, f, arc.nextstate, ps[1..]));
    }
  }

  lemma ListedArePaths<W>(f: Fst<W>, q: nat, x: seq<int>, i: nat)
    requires Valid(f) && q < |f.states| && i <= |f.states[q].arcs|
    ensures forall p :: p in PathsFrom(f, q, x, i) ==> IsPath(f, q, p)
  {
    PathsFromExact(f, q, x, i);
  }

  /** Values is the sum of the weights of all paths that read the string. */
  lemma {:induction false} ValuesSumPaths<W(!new)>(k: Semiring<W>, f: Fst<W>, q: nat, x: seq<int>, i: nat)
    requires LeftSemiring(k) && Valid(f) && q < |f.states| && i <= |f.states[q].arcs|
    ensures forall p :: p in PathsFrom(f, q, x, i) ==> IsPath(f, q, p)
    ensures x != [] ==>
      SumPaths(k, f, q, PathsFrom(f, q, x, i)) == ArcSum(k, f.states[q].arcs[..i], x[0], Values(k, f, x[1..]))
    ensures i == |f.states[q].arcs| ==> SumPaths(k, f, q, PathsFrom(f, q, x, i)) == Values(k, f, x)[q]
    decreases x, i
  {
    ListedArePaths(f, q, x, i);
    if x == [] {
      PlusZero(k, f.states[q].final);
      var none: seq<seq<nat>> := [[]];
      assert none[1..] == [];
    } else {
      var arcs := f.states[q].arcs;
      TakeAll(arcs);
      if i > 0 {
        var arc := arcs[i - 1];
        var n := |f.states[arc.nextstate].arcs|;
        TakeNext(arcs, i - 1);
        ValuesSumPaths(k, f, q, x, i - 1);
        ValuesSumPaths(k, f, arc.nextstate, x[1..], n);
        SumNextArc(k, f, q, x, i);
      }
    }
  }

  /** The paths through one more arc add the product of its weight and what follows. */
  lemma SumNextArc<W(!new)>(k: Semiring<W>, f: Fst<W>, q: nat, x: seq<int>, i: nat)
    requires LeftSemiring(k) && Valid(f) && q < |f.states| && 0 < i <= |f.states[q].arcs| && x != []
    ensures var arc := f.states[q].arcs[i - 1];
      var ps, below := PathsFrom(f, arc.nextstate, x[1..], |f.states[arc.nextstate].arcs|), PathsFrom(f, q, x, i - 1);
      && (forall p :: p in PathsFrom(f, q, x, i) ==> IsPath(f, q, p)) && (forall p :: p in below ==> IsPath(f, q, p))
      && (forall p :: p in ps ==> IsPath(f, arc.nextstate, p))
      && SumPaths(k, f, q, PathsFrom(f, q, x, i)) ==
        if arc.ilabel == x[0] then k.Plus(k.Times(arc.weight, SumPaths(k, f, arc.nextstate, ps)),
          SumPaths(k, f, q, below))
        else SumPaths(k, f, q, below)
  {
    var arc := f.states[q].arcs[i - 1];
    var n := |f.states[arc.nextstate].arcs|;
    ListedArePaths(f, q, x, i);
    ListedArePaths(f, q, x, i - 1);
    ListedArePaths(f, arc.nextstate, x[1..], n);
    var ps := PathsFrom(f, arc.nextstate, x[1..], n);
    if arc.ilabel == x[0] {
      SumPrefixed(k, f, q, i - 1, ps);
      SumPathsConcat(k, f, q, PrefixAll(i - 1, ps), PathsFrom(f, q, x, i - 1));
    } else {
      assert PathsFrom(f, q, x, i) == PathsFrom(f, q, x, i - 1);
    }
  }
}
