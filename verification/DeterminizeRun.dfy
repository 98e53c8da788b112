/** Where the strings of the input lead: the subsets they reach, and which weights those hold. */
module DeterminizeRuns {
  import opened Semirings
  import opened Fsts
  import opened Determinize
  import opened DeterminizeFsas
  import opened Sequences

  // ---- Paths that read a string

  /** The product of the weights of the arcs. */
  ghost function ArcsWeight<W>(k: Semiring<W>, f: Fst<W>, s: nat, p: seq<nat>): W
    requires Valid(f) && s < |f.states| && IsPath(f, s, p)
    decreases |p|
  {
    if p == [] then k.One
    else var arc := f.states[s].arcs[p[0]]; k.Times(arc.weight, ArcsWeight(k, f, arc.nextstate, p[1..]))
  }

  ghost predicate ArcsNonZero<W>(k: Semiring<W>, f: Fst<W>, s: nat, p: seq<nat>)
    requires Valid(f) && s < |f.states| && IsPath(f, s, p)
    decreases |p|
  {
    p == []
    || (f.states[s].arcs[p[0]].weight != k.Zero && ArcsNonZero(k, f, f.states[s].arcs[p[0]].nextstate, p[1..]))
  }

  lemma {:induction false} AppendWeight<W(!new)>(k: Semiring<W>, f: Fst<W>, s: nat, p: seq<nat>, i: nat)
    requires MultiplicativeLaws(k) && Valid(f) && s < |f.states| && IsPath(f, s, p)
    requires i < |f.states[PathEnd(f, s, p)].arcs|
    ensures IsPath(f, s, p + [i])
    ensures var w := f.states[PathEnd(f, s, p)].arcs[i].weight;
      && ArcsWeight(k, f, s, p + [i]) == k.Times(ArcsWeight(k, f, s, p), w)
      && (ArcsNonZero(k, f, s, p + [i]) <==> ArcsNonZero(k, f, s, p) && w != k.Zero)
    decreases |p|
  {
    Append(f, s, p, i);
    if p == [] {
      assert [i][1..] == [];
      var w := f.states[s].arcs[i].weight;
      TimesOne(k, w);
    } else {
      var arc := f.states[s].arcs[p[0]];
      AppendWeight(k, f, arc.nextstate, p[1..], i);
      assert (p + [i])[1..] == p[1..] + [i];
      var rest := ArcsWeight(k, f, arc.nextstate, p[1..]);
      TimesAssociates(k, arc.weight, rest, f.states[PathEnd(f, s, p)].arcs[i].weight);
    }
  }

  // ---- What is gathered

  ghost predicate ArcGathered<W>(k: Semiring<W>, w: W, arcs: seq<Arc<W>>, l: int, j: nat, e: Element<W>) {
    j < |arcs| && arcs[j].ilabel == l && e == Element(arcs[j].nextstate, k.Times(w, arcs[j].weight))
  }

  lemma {:induction false} GatherArcsElements<W>(k: Semiring<W>, w: W, arcs: seq<Arc<W>>, l: int, e: Element<W>)
    ensures e in GatherArcs(k, w, arcs, l) <==> exists j :: ArcGathered(k, w, arcs, l, j, e)
  {
    if arcs != [] {
      var init := arcs[..|arcs| - 1];
      GatherArcsElements(k, w, init, l, e);
      if j: nat :| ArcGathered(k, w, init, l, j, e) {
        assert ArcGathered(k, w, arcs, l, j, e);
      }
      if j: nat :| ArcGathered(k, w, arcs, l, j, e) {
        assert j < |init| ==> ArcGathered(k, w, init, l, j, e);
      }
      if arcs[|arcs| - 1].ilabel == l && e == Element(arcs[|arcs| - 1].nextstate, k.Times(w, arcs[|arcs| - 1].weight)) {
        assert ArcGathered(k, w, arcs, l, |arcs| - 1, e);
      }
    }
  }

  /** Element i of the subset and arc j of its state give the element. */
  ghost predicate GatheredFrom<W>(k: Semiring<W>, f: Fst<W>, S: Subset<W>, l: int, i: nat, j: nat, e: Element<W>) {
    i < |S| && S[i].state < |f.states| && ArcGathered(k, S[i].weight, f.states[S[i].state].arcs, l, j, e)
  }

  lemma {:induction false} GatherElements<W>(k: Semiring<W>, f: Fst<W>, S: Subset<W>, l: int, e: Element<W>)
    requires Valid(f) && InSubset(S, |f.states|)
    ensures e in Gather(k, f, S, l) <==> exists i, j :: GatheredFrom(k, f, S, l, i, j, e)
  {
    if S != [] {
      var last, init := S[|S| - 1], S[..|S| - 1];
      GatherElements(k, f, init, l, e);
      GatherArcsElements(k, last.weight, f.states[last.state].arcs, l, e);
      if i: nat, j: nat :| GatheredFrom(k, f, init, l, i, j, e) {
        assert GatheredFrom(k, f, S, l, i, j, e);
      }
      if i: nat, j: nat :| GatheredFrom(k, f, S, l, i, j, e) {
        assert i < |init| ==> GatheredFrom(k, f, init, l, i, j, e);
      }
      if j: nat :| ArcGathered(k, last.weight, f.states[last.state].arcs, l, j, e) {
        assert GatheredFrom(k, f, S, l, |S| - 1, j, e);
      }
    }
  }

  // ---- The states of a subset

  ghost predicate HasState<W>(S: Subset<W>, q: nat) {
    exists e :: e in S && e.state == q
  }

  lemma {:induction false} MergeFoldStates<W>(k: Semiring<W>, S: Subset<W>, q: nat)
    ensures HasState(MergeFold(k, S), q) <==> HasState(S, q)
  {
    if S != [] {
      var init, last := S[..|S| - 1], S[|S| - 1];
      MergeFoldStates(k, init, q);
      MergeNextStates(k, MergeFold(k, init), last, q);
      assert S == init + [last];
      assert HasState(S, q) <==> HasState(init, q) || last.state == q by {
        assert last in S;
      }
    }
  }

  lemma MergeNextStates<W>(k: Semiring<W>, merged: Subset<W>, e: Element<W>, q: nat)
    ensures HasState(MergeNext(k, merged, e), q) <==> HasState(merged, q) || e.state == q
  {
    var next := MergeNext(k, merged, e);
    assert next[|next| - 1] in next && next[|next| - 1].state == e.state;
    if merged != [] {
      var init, last := merged[..|merged| - 1], merged[|merged| - 1];
      assert merged == init + [last];
      assert next == (if e.state == last.state then init + [next[|next| - 1]] else merged + [e]);
      if d :| d in merged && d.state == q {
        assert d in init || d == last;
        assert d in init ==> d in next;
        assert last in merged;
      }
    }
  }

  lemma DividedStates<W>(v: Division<W>, S: Subset<W>, d: W, q: nat)
    ensures HasState(DividedBy(v, S, d), q) <==> HasState(S, q)
  {
    var T := DividedBy(v, S, d);
    if e :| e in T && e.state == q {
      var i :| 0 <= i < |T| && T[i] == e;
      assert S[i] in S;
    }
    if e :| e in S && e.state == q {
      var i :| 0 <= i < |S| && S[i] == e;
      assert T[i] in T;
    }
  }

  /** A destination subset has the states of the list it is made from. */
  lemma NormArcStates<W(!new)>(k: Semiring<W>, v: Division<W>, n: nat, S: Subset<W>, q: nat)
    requires AdditiveLaws(k) && InSubset(S, n)
    ensures HasState(NormArcOf(k, v, S).dest, q) <==> HasState(S, q)
  {
    SortKeepsValue(k, n, S);
    MergeFoldStates(k, SortFold(S), q);
    DividedStates(v, MergeFold(k, SortFold(S)), DivisorFold(k, v, SortFold(S)), q);
  }

  /** The subset that a string leads to has exactly the states that paths reading the string end in. */
  lemma {:induction false} AlongStates<W(!new)>(k: Semiring<W>, v: Division<W>, f: Fst<W>, x: seq<int>, q: nat)
    requires AdditiveLaws(k) && Valid(f) && f.start != NO_STATE_ID
    ensures HasState(Along(k, v, f, x), q) <==> exists p :: ReadsTo(f, x, p, q)
    decreases |x|, 0
  {
    if x == [] {
      if q == f.start {
        assert Along(k, v, f, x)[0].state == q;
        assert ReadsTo(f, [], [], q);
      }
    } else {
      var init, l := x[..|x| - 1], x[|x| - 1];
      assert x == init + [l];
      NormArcStates(k, v, |f.states|, GatheredAt(k, v, f, init, l), q);
      GatheredStates(k, v, f, init, l, q);
    }
  }

  lemma {:induction false} GatheredStates<W(!new)>(
    k: Semiring<W>, v: Division<W>, f: Fst<W>, x: seq<int>, l: int, q: nat
  )
    requires AdditiveLaws(k) && Valid(f) && f.start != NO_STATE_ID
    ensures HasState(GatheredAt(k, v, f, x, l), q) <==> exists p :: ReadsTo(f, x + [l], p, q)
    decreases |x|, 1
  {
    var S := Along(k, v, f, x);
    if e :| e in GatheredAt(k, v, f, x, l) && e.state == q {
      GatherElements(k, f, S, l, e);
      var i: nat, j: nat :| GatheredFrom(k, f, S, l, i, j, e);
      assert S[i] in S;
      AlongStates(k, v, f, x, S[i].state);
      var p :| ReadsTo(f, x, p, S[i].state);
      ReadsNext(f, x, l, p, S[i].state, j);
    }
    if p :| ReadsTo(f, x + [l], p, q) {
      var r := ReadsLast(f, x, l, p, q);
      AlongStates(k, v, f, x, r);
      var e :| e in S && e.state == r;
      var i :| 0 <= i < |S| && S[i] == e;
      var j := p[|p| - 1];
      var next := Element(q, k.Times(e.weight, f.states[r].arcs[j].weight));
      assert GatheredFrom(k, f, S, l, i, j, next);
      GatherElements(k, f, S, l, next);
    }
  }

  // ---- Lists of Zeros

  /** All elements of the state have weight Zero. */
  ghost predicate ZeroAt<W>(k: Semiring<W>, S: Subset<W>, q: nat) {
    forall e :: e in S && e.state == q ==> e.weight == k.Zero
  }

  lemma ZeroAtAppend<W>(k: Semiring<W>, S: Subset<W>, last: Element<W>, q: nat)
    ensures ZeroAt(k, S + [last], q) <==> ZeroAt(k, S, q) && (last.state == q ==> last.weight == k.Zero)
  {
    assert forall e :: e in S ==> e in S + [last];
    assert last in S + [last];
  }

  lemma MergeNextZero<W(!new)>(k: Semiring<W>, init: Subset<W>, merged: Subset<W>, last: Element<W>)
    requires AdditiveLaws(k) && NoZeroResults(k) && Ascending(merged) && (merged == [] <==> init == [])
    requires forall i :: 0 <= i < |merged| ==> (merged[i].weight == k.Zero <==> ZeroAt(k, init, merged[i].state))
    requires forall i :: 0 <= i < |init| ==> init[i].state <= merged[|merged| - 1].state <= last.state
    ensures var next := MergeNext(k, merged, last);
      forall i :: 0 <= i < |next| ==> (next[i].weight == k.Zero <==> ZeroAt(k, init + [last], next[i].state))
  {
    var next := MergeNext(k, merged, last);
    forall i | 0 <= i < |next| ensures next[i].weight == k.Zero <==> ZeroAt(k, init + [last], next[i].state) {
      ZeroAtAppend(k, init, last, next[i].state);
      if i == |next| - 1 && merged != [] && last.state == merged[|merged| - 1].state {
        assert At2(merged[i].weight, last.weight);
        PlusZero(k, k.Zero);
      } else if i < |next| - 1 && init != [] {
        assert init[0].state <= last.state;
      }
    }
  }

  /** A merged weight is Zero exactly when all weights that went into it are. */
  lemma {:induction false} MergeFoldZero<W(!new)>(k: Semiring<W>, n: nat, S: Subset<W>)
    requires AdditiveLaws(k) && NoZeroResults(k) && Sorted(S) && InSubset(S, n)
    ensures var merged := MergeFold(k, S);
      forall i :: 0 <= i < |merged| ==> (merged[i].weight == k.Zero <==> ZeroAt(k, S, merged[i].state))
  {
    if S != [] {
      var init, last := S[..|S| - 1], S[|S| - 1];
      MergeFoldZero(k, n, init);
      MergeFoldShape(k, n, init);
      MergeNextZero(k, init, MergeFold(k, init), last);
      assert init + [last] == S;
    }
  }

  /** The folded divisor is a left factor of every weight, whether the subset can be merged or not. */
  lemma {:induction false} MergeFoldDivides<W(!new)>(k: Semiring<W>, v: Division<W>, S: Subset<W>)
    requires LeftDivisible(k, v)
    ensures DividesAll(k, DivisorFold(k, v, S), S) && DividesAll(k, DivisorFold(k, v, S), MergeFold(k, S))
  {
    if S != [] {
      var init, last := S[..|S| - 1], S[|S| - 1];
      var d, merged := DivisorFold(k, v, init), MergeFold(k, init);
      MergeFoldDivides(k, v, init);
      CommonDivides(k, v, d, last.weight, init);
      CommonDivides(k, v, d, last.weight, merged);
      if merged != [] {
        DividesSum(k, v.Common(d, last.weight), merged[|merged| - 1].weight, last.weight);
      }
    }
  }

  lemma DividedZero<W(!new)>(k: Semiring<W>, v: Division<W>, a: W, d: W)
    requires LeftDivisible(k, v) && NoZeroResults(k) && d != k.Zero && Divides(k, d, a)
    ensures k.Times(d, v.Divide(a, d)) == a && (v.Divide(a, d) == k.Zero <==> a == k.Zero)
  {
    assert At2(a, d) && At2(d, v.Divide(a, d));
    DistributeLeft(k, d, k.Zero, k.Zero);
  }

  lemma SameElementsZero<W>(k: Semiring<W>, S: Subset<W>, T: Subset<W>, q: nat)
    requires forall e :: e in S <==> e in T
    ensures ZeroAt(k, S, q) <==> ZeroAt(k, T, q)
  {
  }

  /** If some gathered weight is not Zero, neither is the arc weight, and a residual is Zero exactly when all weights
      gathered for its state are. */
  lemma NormArcZero<W(!new)>(k: Semiring<W>, v: Division<W>, n: nat, S: Subset<W>)
    requires LeftDivisible(k, v) && NoZeroResults(k) && InSubset(S, n) && SomeNonZero(k, S)
    ensures var arc := NormArcOf(k, v, S);
      arc.weight != k.Zero && forall e :: e in arc.dest ==> (e.weight == k.Zero <==> ZeroAt(k, S, e.state))
  {
    var sorted := SortFold(S);
    var d := DivisorFold(k, v, sorted);
    SortKeepsValue(k, n, S);
    SomeNonZeroSorted(k, S, sorted);
    MergeFoldDivides(k, v, sorted);
    DivisorNonZero(k, d, sorted);
    forall e | e in NormArcOf(k, v, S).dest ensures e.weight == k.Zero <==> ZeroAt(k, S, e.state) {
      MergedAndDividedZero(k, v, n, sorted, d, e);
      SameElementsZero(k, S, sorted, e.state);
    }
  }

  lemma MergedAndDividedZero<W(!new)>(
    k: Semiring<W>, v: Division<W>, n: nat, sorted: Subset<W>, d: W, e: Element<W>
  )
    requires LeftDivisible(k, v) && NoZeroResults(k) && InSubset(sorted, n) && Sorted(sorted)
    requires d != k.Zero && DividesAll(k, d, MergeFold(k, sorted)) && e in DividedBy(v, MergeFold(k, sorted), d)
    ensures e.weight == k.Zero <==> ZeroAt(k, sorted, e.state)
  {
    var merged := MergeFold(k, sorted);
    var i :| 0 <= i < |merged| && DividedBy(v, merged, d)[i] == e;
    MergeFoldZero(k, n, sorted);
    DividedAtZero(k, v, merged, d, i);
  }

  lemma DividedAtZero<W(!new)>(k: Semiring<W>, v: Division<W>, S: Subset<W>, d: W, i: nat)
    requires LeftDivisible(k, v) && NoZeroResults(k) && d != k.Zero && DividesAll(k, d, S) && i < |S|
    ensures DividedBy(v, S, d)[i].state == S[i].state
    ensures DividedBy(v, S, d)[i].weight == k.Zero <==> S[i].weight == k.Zero
  {
    DividedZero(k, v, S[i].weight, d);
  }

  lemma SomeNonZeroSorted<W>(k: Semiring<W>, S: Subset<W>, sorted: Subset<W>)
    requires SomeNonZero(k, S) && forall e :: e in S ==> e in sorted
    ensures SomeNonZero(k, sorted)
  {
    var i :| 0 <= i < |S| && S[i].weight != k.Zero;
    assert S[i] in S;
    var j :| 0 <= j < |sorted| && sorted[j] == S[i];
  }

  /** A list that can be divided: empty, or with a weight that is not Zero. */
  ghost predicate ListOk<W>(k: Semiring<W>, S: Subset<W>) {
    S == [] || SomeNonZero(k, S)
  }

  ghost predicate ListOkAt<W(!new)>(k: Semiring<W>, v: Division<W>, f: Fst<W>, x: seq<int>, l: int)
    requires AdditiveLaws(k) && Valid(f) && f.start != NO_STATE_ID
  {
    ListOk(k, GatheredAt(k, v, f, x, l))
  }

  /** Every list gathered on the way along the string can be divided. */
  ghost predicate Defined<W(!new)>(k: Semiring<W>, v: Division<W>, f: Fst<W>, x: seq<int>)
    requires AdditiveLaws(k) && Valid(f) && f.start != NO_STATE_ID
  {
    forall n :: 0 <= n < |x| ==> ListOkAt(k, v, f, x[..n], x[n])
  }

  lemma DefinedInit<W(!new)>(k: Semiring<W>, v: Division<W>, f: Fst<W>, x: seq<int>)
    requires AdditiveLaws(k) && Valid(f) && f.start != NO_STATE_ID && x != [] && Defined(k, v, f, x)
    ensures Defined(k, v, f, x[..|x| - 1]) && ListOkAt(k, v, f, x[..|x| - 1], x[|x| - 1])
  {
    var init := x[..|x| - 1];
    forall n | 0 <= n < |init| ensures ListOkAt(k, v, f, init[..n], init[n]) {
      assert init[..n] == x[..n] && init[n] == x[n];
    }
  }

  /** p reads x to q without an arc of weight Zero. */
  ghost predicate ReadsNonZero<W>(k: Semiring<W>, f: Fst<W>, x: seq<int>, p: seq<nat>, q: nat)
    requires Valid(f) && 0 <= f.start
  {
    ReadsTo(f, x, p, q) && ArcsNonZero(k, f, f.start, p)
  }

  /** A residual is not Zero exactly when the string is read to its state without an arc of weight Zero. */
  lemma {:induction false} AlongZero<W(!new)>(k: Semiring<W>, v: Division<W>, f: Fst<W>, x: seq<int>, e: Element<W>)
    requires LeftDivisible(k, v) && NoZeroResults(k) && Valid(f) && f.start != NO_STATE_ID && Defined(k, v, f, x)
    requires e in Along(k, v, f, x)
    ensures e.weight != k.Zero <==> exists p :: ReadsNonZero(k, f, x, p, e.state)
    decreases |x|, 0
  {
    if x == [] {
      assert ReadsNonZero(k, f, x, [], e.state);
    } else {
      var init, l := x[..|x| - 1], x[|x| - 1];
      assert x == init + [l];
      DefinedInit(k, v, f, x);
      var S := GatheredAt(k, v, f, init, l);
      if S == [] {
        assert false;
      }
      NormArcZero(k, v, |f.states|, S);
      GatheredZero(k, v, f, init, l, e.state);
    }
  }

  /** The same for the gathered weights of a state. */
  lemma {:induction false} GatheredZero<W(!new)>(
    k: Semiring<W>, v: Division<W>, f: Fst<W>, x: seq<int>, l: int, q: nat
  )
    requires LeftDivisible(k, v) && NoZeroResults(k) && Valid(f) && f.start != NO_STATE_ID && Defined(k, v, f, x)
    ensures !ZeroAt(k, GatheredAt(k, v, f, x, l), q) <==> exists p :: ReadsNonZero(k, f, x + [l], p, q)
    decreases |x|, 1
  {
    var S := Along(k, v, f, x);
    if e :| e in GatheredAt(k, v, f, x, l) && e.state == q && e.weight != k.Zero {
      GatherElements(k, f, S, l, e);
      var i: nat, j: nat :| GatheredFrom(k, f, S, l, i, j, e);
      assert S[i] in S;
      AlongZero(k, v, f, x, S[i]);
      GatheredIsRead(k, v, f, x, l, S, e, i, j);
    }
    if p :| ReadsNonZero(k, f, x + [l], p, q) {
      var r := ReadsLast(f, x, l, p, q);
      LastIsNonZero(k, f, x, l, p, q, r);
      AlongStates(k, v, f, x, r);
      var e :| e in S && e.state == r;
      AlongZero(k, v, f, x, e);
      ReadIsGathered(k, v, f, x, l, S, p, q, r, e);
    }
  }

  lemma GatheredIsRead<W(!new)>(
    k: Semiring<W>, v: Division<W>, f: Fst<W>, x: seq<int>, l: int, S: Subset<W>, e: Element<W>, i: nat, j: nat
  )
    requires LeftDivisible(k, v) && Valid(f) && 0 <= f.start && GatheredFrom(k, f, S, l, i, j, e) && e.weight != k.Zero
    requires S[i].weight != k.Zero ==> exists p :: ReadsNonZero(k, f, x, p, S[i].state)
    ensures exists p :: ReadsNonZero(k, f, x + [l], p, e.state)
  {
    var w := f.states[S[i].state].arcs[j].weight;
    DistributeLeft(k, S[i].weight, k.Zero, k.Zero);
    assert At1(w);
    var p :| ReadsNonZero(k, f, x, p, S[i].state);
    ReadsNext(f, x, l, p, S[i].state, j);
    AppendWeight(k, f, f.start, p, j);
    assert ReadsNonZero(k, f, x + [l], p + [j], e.state);
  }

  lemma LastIsNonZero<W(!new)>(k: Semiring<W>, f: Fst<W>, x: seq<int>, l: int, p: seq<nat>, q: nat, r: nat)
    requires MultiplicativeLaws(k) && Valid(f) && 0 <= f.start && ReadsNonZero(k, f, x + [l], p, q)
    requires p != [] && ReadsTo(f, x, p[..|p| - 1], r) && p[|p| - 1] < |f.states[r].arcs|
    ensures ReadsNonZero(k, f, x, p[..|p| - 1], r) && f.states[r].arcs[p[|p| - 1]].weight != k.Zero
  {
    var init, j := p[..|p| - 1], p[|p| - 1];
    assert p == init + [j];
    AppendWeight(k, f, f.start, init, j);
  }

  lemma ReadIsGathered<W(!new)>(
    k: Semiring<W>, v: Division<W>, f: Fst<W>, x: seq<int>, l: int, S: Subset<W>, p: seq<nat>, q: nat, r: nat,
    e: Element<W>
  )
    requires AdditiveLaws(k) && NoZeroResults(k) && Valid(f) && f.start != NO_STATE_ID && S == Along(k, v, f, x)
    requires r < |f.states| && p != [] && p[|p| - 1] < |f.states[r].arcs| && e in S && e.state == r
    requires e.weight != k.Zero
    requires var arc := f.states[r].arcs[p[|p| - 1]]; arc.ilabel == l && arc.nextstate == q && arc.weight != k.Zero
    ensures !ZeroAt(k, GatheredAt(k, v, f, x, l), q)
  {
    var j := p[|p| - 1];
    var i :| 0 <= i < |S| && S[i] == e;
    var next := Element(q, k.Times(e.weight, f.states[r].arcs[j].weight));
    assert GatheredFrom(k, f, S, l, i, j, next);
    GatherElements(k, f, S, l, next);
    assert At2(e.weight, f.states[r].arcs[j].weight);
  }

  ghost predicate IsRead<W>(f: Fst<W>, x: seq<int>)
    requires Valid(f) && 0 <= f.start
  {
    exists p, q :: ReadsTo(f, x, p, q)
  }

  ghost predicate IsReadNonZero<W>(k: Semiring<W>, f: Fst<W>, x: seq<int>)
    requires Valid(f) && 0 <= f.start
  {
    exists p, q :: ReadsNonZero(k, f, x, p, q)
  }

  /** Every string that is read at all is read without an arc of weight Zero. */
  ghost predicate ZeroFree<W>(k: Semiring<W>, f: Fst<W>)
    requires Valid(f)
  {
    f.start != NO_STATE_ID ==> forall x :: IsRead(f, x) ==> IsReadNonZero(k, f, x)
  }

  /** A list gathered can be divided exactly when its string is not read, or read without an arc of weight Zero. */
  lemma ListOkIff<W(!new)>(k: Semiring<W>, v: Division<W>, f: Fst<W>, x: seq<int>, l: int)
    requires LeftDivisible(k, v) && NoZeroResults(k) && Valid(f) && f.start != NO_STATE_ID && Defined(k, v, f, x)
    ensures ListOkAt(k, v, f, x, l) <==> (IsRead(f, x + [l]) ==> IsReadNonZero(k, f, x + [l]))
  {
    var S := GatheredAt(k, v, f, x, l);
    if S == [] {
      if p, q: nat :| ReadsTo(f, x + [l], p, q) {
        GatheredStates(k, v, f, x, l, q);
        assert false;
      }
    } else {
      assert S[0] in S;
      GatheredStates(k, v, f, x, l, S[0].state);
      if SomeNonZero(k, S) {
        var i :| 0 <= i < |S| && S[i].weight != k.Zero;
        assert S[i] in S;
        GatheredZero(k, v, f, x, l, S[i].state);
      }
      if p, q: nat :| ReadsNonZero(k, f, x + [l], p, q) {
        GatheredZero(k, v, f, x, l, q);
        var e :| e in S && e.state == q && e.weight != k.Zero;
        var i :| 0 <= i < |S| && S[i] == e;
      }
    }
  }

  lemma {:induction false} ZeroFreeDefined<W(!new)>(k: Semiring<W>, v: Division<W>, f: Fst<W>, x: seq<int>)
    requires LeftDivisible(k, v) && NoZeroResults(k) && Valid(f) && f.start != NO_STATE_ID && ZeroFree(k, f)
    ensures Defined(k, v, f, x)
    decreases |x|
  {
    forall n | 0 <= n < |x| ensures ListOkAt(k, v, f, x[..n], x[n]) {
      ZeroFreeDefined(k, v, f, x[..n]);
      ListOkIff(k, v, f, x[..n], x[n]);
    }
  }

  /** No list of Zeros is ever divided, whichever string is followed, exactly when every string that is read at all is
      read without an arc of weight Zero. */
  lemma NoZeroListsIff<W(!new)>(k: Semiring<W>, v: Division<W>, f: Fst<W>)
    requires LeftDivisible(k, v) && NoZeroResults(k) && Valid(f) && f.start != NO_STATE_ID
    ensures ZeroFree(k, f) <==> forall x, l :: ListOkAt(k, v, f, x, l)
  {
    if ZeroFree(k, f) {
      forall x, l ensures ListOkAt(k, v, f, x, l) {
        ZeroFreeDefined(k, v, f, x);
        ListOkIff(k, v, f, x, l);
      }
    }
    if forall x, l :: ListOkAt(k, v, f, x, l) {
      forall x | IsRead(f, x) ensures IsReadNonZero(k, f, x) {
        ReadNonZeroToo(k, v, f, x);
      }
    }
  }

  lemma ReadNonZeroToo<W(!new)>(k: Semiring<W>, v: Division<W>, f: Fst<W>, x: seq<int>)
    requires LeftDivisible(k, v) && NoZeroResults(k) && Valid(f) && f.start != NO_STATE_ID && IsRead(f, x)
    requires forall y, l :: ListOkAt(k, v, f, y, l)
    ensures IsReadNonZero(k, f, x)
  {
    if x == [] {
      assert ReadsNonZero(k, f, x, [], f.start);
    } else {
      var init, l := x[..|x| - 1], x[|x| - 1];
      assert x == init + [l];
      assert Defined(k, v, f, init);
      assert ListOkAt(k, v, f, init, l);
      ListOkIff(k, v, f, init, l);
    }
  }

  ghost predicate NonZeroArcs<W>(k: Semiring<W>, f: Fst<W>) {
    forall q, i :: 0 <= q < |f.states| && 0 <= i < |f.states[q].arcs| ==> f.states[q].arcs[i].weight != k.Zero
  }

  lemma {:induction false} NonZeroPath<W>(k: Semiring<W>, f: Fst<W>, s: nat, p: seq<nat>)
    requires Valid(f) && NonZeroArcs(k, f) && s < |f.states| && IsPath(f, s, p)
    ensures ArcsNonZero(k, f, s, p)
    decreases |p|
  {
    if p != [] {
      NonZeroPath(k, f, f.states[s].arcs[p[0]].nextstate, p[1..]);
    }
  }

  /** In particular without any arc of weight Zero. */
  lemma NonZeroArcsZeroFree<W>(k: Semiring<W>, f: Fst<W>)
    requires Valid(f) && NonZeroArcs(k, f)
    ensures ZeroFree(k, f)
  {
    if f.start != NO_STATE_ID {
      forall x | IsRead(f, x) ensures IsReadNonZero(k, f, x) {
        var p, q: nat :| ReadsTo(f, x, p, q);
        NonZeroPath(k, f, f.start, p);
        assert ReadsNonZero(k, f, x, p, q);
      }
    }
  }

  lemma GatheredIsAt<W(!new)>(k: Semiring<W>, v: Division<W>, f: Fst<W>, x: seq<int>, l: int)
    requires AdditiveLaws(k) && Valid(f) && f.start != NO_STATE_ID
    ensures GatheredAt(k, v, f, x, l) == Gather(k, f, Along(k, v, f, x), l)
  {
  }

  lemma ReachedWellGathered<W(!new)>(k: Semiring<W>, v: Division<W>, f: Fst<W>, S: Subset<W>)
    requires Divisible(k, v) && Valid(f) && ZeroFree(k, f) && InSubset(S, |f.states|) && IsReached(k, v, f, S)
    ensures WellGathered(k, f, S)
  {
    var x :| S == Along(k, v, f, x);
    NoZeroListsIff(k, v, f);
    forall l ensures ListOk(k, Gather(k, f, S, l)) {
      GatheredIsAt(k, v, f, x, l);
      assert ListOkAt(k, v, f, x, l);
    }
  }

  /** Whatever calls were made: over weights with both distributive laws, and input in which every string that is read
      is read without an arc of weight Zero, the states expanded so far are those of a determinized automaton, to which
      the theorems on paths and distances apply. */
  lemma ExpandedStatesAreRight<W(!new)>(d: DeterminizeFsa<W>)
    requires d.Valid() && Divisible(d.k, d.v) && ZeroFree(d.k, d.fst)
    ensures Determinized(d.k, d.fst, d.table, d.cache)
  {
    forall s | s in d.cache ensures WellGathered(d.k, d.fst, d.table[s]) {
      ReachedWellGathered(d.k, d.v, d.fst, d.table[s]);
    }
    ExpandedIsDeterminized(d.k, d.v, d.fst, d.table, d.cache);
  }

  // ---- Functional input

  /** Factors that are not Zero can be cancelled on the left. */
  ghost predicate LeftCancellative<W(!new)>(k: Semiring<W>) {
    forall d, a, b {:trigger At3(d, a, b)} :: At3(d, a, b) ==>
      (d != k.Zero && k.Times(d, a) == k.Times(d, b) ==> a == b)
  }

  ghost predicate RightCancellative<W(!new)>(k: Semiring<W>) {
    forall a, b, d {:trigger At3(a, b, d)} :: At3(a, b, d) ==>
      (d != k.Zero && k.Times(a, d) == k.Times(b, d) ==> a == b)
  }

  /** Paths from the start that read one string into one state have one weight. */
  ghost predicate StateFunctional<W(!new)>(k: Semiring<W>, f: Fst<W>)
    requires Valid(f)
  {
    f.start != NO_STATE_ID ==> forall x, p, p', q {:trigger ReadsTo(f, x, p, q), ReadsTo(f, x, p', q)} ::
      ReadsTo(f, x, p, q) && ReadsTo(f, x, p', q) ==> ArcsWeight(k, f, f.start, p) == ArcsWeight(k, f, f.start, p')
  }

  lemma {:induction false} MergedFromList<W(!new)>(k: Semiring<W>, S: Subset<W>)
    requires Idempotent(k) && DuplicatesEqual(S)
    ensures forall e :: e in MergeFold(k, S) ==> e in S
  {
    if S != [] {
      var init, last := S[..|S| - 1], S[|S| - 1];
      var merged := MergeFold(k, init);
      assert init + [last] == S;
      MergedFromList(k, init);
      if merged != [] && merged[|merged| - 1].state == last.state {
        LastIsEqual(merged, init, last);
        assert At1(last.weight);
      }
    }
  }

  /** The product of the weights of the arcs along the string. */
  ghost function AlongWeight<W(!new)>(k: Semiring<W>, v: Division<W>, f: Fst<W>, x: seq<int>): W
    requires AdditiveLaws(k) && Valid(f) && f.start != NO_STATE_ID
    decreases |x|
  {
    if x == [] then k.One
    else
      k.Times(AlongWeight(k, v, f, x[..|x| - 1]), NormArcOf(k, v, GatheredAt(k, v, f, x[..|x| - 1], x[|x| - 1])).weight)
  }

  /** w is what some path reading x to q weighs, after division by d. */
  ghost predicate WeighsTo<W>(k: Semiring<W>, f: Fst<W>, x: seq<int>, d: W, e: Element<W>)
    requires Valid(f) && 0 <= f.start
  {
    exists p :: ReadsTo(f, x, p, e.state) && k.Times(d, e.weight) == ArcsWeight(k, f, f.start, p)
  }

  /** Under a common factor that is not Zero, elements that are weights of paths have equal duplicates. */
  lemma WeighsToEqual<W(!new)>(k: Semiring<W>, f: Fst<W>, x: seq<int>, d: W, S: Subset<W>)
    requires LeftCancellative(k) && Valid(f) && f.start != NO_STATE_ID && StateFunctional(k, f) && d != k.Zero
    requires forall e :: e in S ==> WeighsTo(k, f, x, d, e)
    ensures DuplicatesEqual(S)
  {
    forall i, j | 0 <= i < |S| && 0 <= j < |S| && S[i].state == S[j].state ensures S[i].weight == S[j].weight {
      assert S[i] in S && S[j] in S;
      var p :| ReadsTo(f, x, p, S[i].state) && k.Times(d, S[i].weight) == ArcsWeight(k, f, f.start, p);
      var p' :| ReadsTo(f, x, p', S[j].state) && k.Times(d, S[j].weight) == ArcsWeight(k, f, f.start, p');
      assert At3(d, S[i].weight, S[j].weight);
    }
  }

  /** What a functional input needs of its weights. */
  ghost predicate Cancellable<W(!new)>(k: Semiring<W>, v: Division<W>) {
    LeftDivisible(k, v) && NoZeroResults(k) && Idempotent(k) && LeftCancellative(k)
  }

  /** Along a string, the arc weights times a residual are the weight of a path that reads it to the state. */
  ghost predicate ResidualsWeigh<W(!new)>(k: Semiring<W>, v: Division<W>, f: Fst<W>, x: seq<int>)
    requires AdditiveLaws(k) && Valid(f) && f.start != NO_STATE_ID
  {
    && (Along(k, v, f, x) != [] ==> AlongWeight(k, v, f, x) != k.Zero)
    && forall e :: e in Along(k, v, f, x) ==> WeighsTo(k, f, x, AlongWeight(k, v, f, x), e)
  }

  lemma GatheredWeigh<W(!new)>(k: Semiring<W>, v: Division<W>, f: Fst<W>, x: seq<int>, l: int, e: Element<W>)
    requires LeftSemiring(k) && Valid(f) && f.start != NO_STATE_ID && ResidualsWeigh(k, v, f, x)
    requires e in GatheredAt(k, v, f, x, l)
    ensures WeighsTo(k, f, x + [l], AlongWeight(k, v, f, x), e) && AlongWeight(k, v, f, x) != k.Zero
  {
    var S, d := Along(k, v, f, x), AlongWeight(k, v, f, x);
    GatherElements(k, f, S, l, e);
    var i: nat, j: nat :| GatheredFrom(k, f, S, l, i, j, e);
    assert S[i] in S;
    var p :| ReadsTo(f, x, p, S[i].state) && k.Times(d, S[i].weight) == ArcsWeight(k, f, f.start, p);
    ReadsNext(f, x, l, p, S[i].state, j);
    AppendWeight(k, f, f.start, p, j);
    TimesAssociates(k, d, S[i].weight, f.states[S[i].state].arcs[j].weight);
    assert ReadsTo(f, x + [l], p + [j], e.state);
  }

  /** Each residual of the arc formed for a list with equal duplicates, times the arc weight, is a gathered weight. */
  lemma NormArcFromList<W(!new)>(k: Semiring<W>, v: Division<W>, n: nat, S: Subset<W>, e: Element<W>)
    requires Cancellable(k, v) && InSubset(S, n) && SomeNonZero(k, S) && DuplicatesEqual(S)
    requires e in NormArcOf(k, v, S).dest
    ensures var d := NormArcOf(k, v, S).weight; d != k.Zero && Element(e.state, k.Times(d, e.weight)) in S
  {
    var sorted := SortFold(S);
    var d, merged := DivisorFold(k, v, sorted), MergeFold(k, sorted);
    SortKeepsValue(k, n, S);
    SomeNonZeroSorted(k, S, sorted);
    MergeFoldDivides(k, v, sorted);
    DivisorNonZero(k, d, sorted);
    SortedDuplicates(S, sorted);
    MergedFromList(k, sorted);
    var i :| 0 <= i < |merged| && DividedBy(v, merged, d)[i] == e;
    DividedZero(k, v, merged[i].weight, d);
    assert merged[i] in merged && merged[i] == Element(e.state, k.Times(d, e.weight));
  }

  lemma SortedDuplicates<W>(S: Subset<W>, sorted: Subset<W>)
    requires DuplicatesEqual(S) && forall e :: e in sorted ==> e in S
    ensures DuplicatesEqual(sorted)
  {
    forall i, j | 0 <= i < |sorted| && 0 <= j < |sorted| && sorted[i].state == sorted[j].state
      ensures sorted[i].weight == sorted[j].weight
    {
      assert sorted[i] in sorted && sorted[j] in sorted;
    }
  }

  lemma {:induction false} AlongWeighs<W(!new)>(k: Semiring<W>, v: Division<W>, f: Fst<W>, x: seq<int>)
    requires Cancellable(k, v) && Valid(f) && f.start != NO_STATE_ID && ZeroFree(k, f) && StateFunctional(k, f)
    ensures ResidualsWeigh(k, v, f, x)
    decreases |x|
  {
    if x == [] {
      TimesOne(k, k.One);
      assert ReadsTo(f, [], [], f.start) && ArcsWeight(k, f, f.start, []) == k.One;
    } else {
      var init, l := x[..|x| - 1], x[|x| - 1];
      assert x == init + [l];
      AlongWeighs(k, v, f, init);
      var S := GatheredAt(k, v, f, init, l);
      if S != [] {
        GatheredDuplicates(k, v, f, init, l);
        forall e | e in Along(k, v, f, x) ensures WeighsTo(k, f, x, AlongWeight(k, v, f, x), e) {
          NextWeighs(k, v, f, init, l, e);
        }
        NextNonZero(k, v, f, init, l);
      }
    }
  }

  lemma GatheredDuplicates<W(!new)>(k: Semiring<W>, v: Division<W>, f: Fst<W>, x: seq<int>, l: int)
    requires Cancellable(k, v) && Valid(f) && f.start != NO_STATE_ID && ZeroFree(k, f) && StateFunctional(k, f)
    requires ResidualsWeigh(k, v, f, x)
    ensures DuplicatesEqual(GatheredAt(k, v, f, x, l)) && ListOkAt(k, v, f, x, l)
  {
    NoZeroListsIff(k, v, f);
    var S := GatheredAt(k, v, f, x, l);
    if S != [] {
      forall e | e in S ensures WeighsTo(k, f, x + [l], AlongWeight(k, v, f, x), e) {
        GatheredWeigh(k, v, f, x, l, e);
      }
      GatheredWeigh(k, v, f, x, l, S[0]);
      WeighsToEqual(k, f, x + [l], AlongWeight(k, v, f, x), S);
    }
  }

  lemma NextWeighs<W(!new)>(k: Semiring<W>, v: Division<W>, f: Fst<W>, x: seq<int>, l: int, e: Element<W>)
    requires Cancellable(k, v) && Valid(f) && f.start != NO_STATE_ID && ResidualsWeigh(k, v, f, x)
    requires var S := GatheredAt(k, v, f, x, l);
      SomeNonZero(k, S) && DuplicatesEqual(S) && e in NormArcOf(k, v, S).dest
    ensures var d := NormArcOf(k, v, GatheredAt(k, v, f, x, l)).weight;
      WeighsTo(k, f, x + [l], k.Times(AlongWeight(k, v, f, x), d), e)
  {
    var S, D := GatheredAt(k, v, f, x, l), AlongWeight(k, v, f, x);
    var d := NormArcOf(k, v, S).weight;
    NormArcFromList(k, v, |f.states|, S, e);
    var g := Element(e.state, k.Times(d, e.weight));
    GatheredWeigh(k, v, f, x, l, g);
    TimesAssociates(k, D, d, e.weight);
    var p :| ReadsTo(f, x + [l], p, g.state) && k.Times(D, g.weight) == ArcsWeight(k, f, f.start, p);
  }

  lemma NextNonZero<W(!new)>(k: Semiring<W>, v: Division<W>, f: Fst<W>, x: seq<int>, l: int)
    requires Cancellable(k, v) && Valid(f) && f.start != NO_STATE_ID && ResidualsWeigh(k, v, f, x)
    requires SomeNonZero(k, GatheredAt(k, v, f, x, l))
    ensures k.Times(AlongWeight(k, v, f, x), NormArcOf(k, v, GatheredAt(k, v, f, x, l)).weight) != k.Zero
  {
    var S := GatheredAt(k, v, f, x, l);
    GatheredWeigh(k, v, f, x, l, S[0]);
    NormArcZero(k, v, |f.states|, S);
    assert At2(AlongWeight(k, v, f, x), NormArcOf(k, v, S).weight);
  }

  lemma FunctionalWellGathered<W(!new)>(k: Semiring<W>, v: Division<W>, f: Fst<W>, S: Subset<W>)
    requires Cancellable(k, v) && Valid(f) && ZeroFree(k, f) && StateFunctional(k, f)
    requires InSubset(S, |f.states|) && IsReached(k, v, f, S)
    ensures WellGathered(k, f, S)
  {
    var x :| S == Along(k, v, f, x);
    AlongWeighs(k, v, f, x);
    forall l ensures ListOk(k, Gather(k, f, S, l)) && DuplicatesEqual(Gather(k, f, S, l)) {
      GatheredIsAt(k, v, f, x, l);
      GatheredDuplicates(k, v, f, x, l);
    }
  }

  /** Without distributivity from the right: for input whose paths with one string into one state have one weight, the
      states expanded so far are still those of a determinized automaton. */
  lemma FunctionalStatesAreRight<W(!new)>(d: DeterminizeFsa<W>)
    requires d.Valid() && Cancellable(d.k, d.v) && ZeroFree(d.k, d.fst) && StateFunctional(d.k, d.fst)
    ensures Determinized(d.k, d.fst, d.table, d.cache)
  {
    forall s | s in d.cache ensures WellGathered(d.k, d.fst, d.table[s]) {
      FunctionalWellGathered(d.k, d.v, d.fst, d.table[s]);
    }
    ExpandedIsDeterminized(d.k, d.v, d.fst, d.table, d.cache);
  }

  /** What input and weights need for determinization to keep the weights of all strings: each string that is read is
      read without an arc of weight Zero, and the weights have both distributive laws, or they can be cancelled and
      paths with one string into one state have one weight. */
  ghost predicate CanDeterminize<W(!new)>(k: Semiring<W>, v: Division<W>, f: Fst<W>)
    requires Valid(f)
  {
    ZeroFree(k, f) && (Divisible(k, v) || (Cancellable(k, v) && StateFunctional(k, f)))
  }

  lemma StatesAreRight<W(!new)>(d: DeterminizeFsa<W>)
    requires d.Valid() && CanDeterminize(d.k, d.v, d.fst)
    ensures LeftSemiring(d.k) && Determinized(d.k, d.fst, d.table, d.cache)
  {
    if Divisible(d.k, d.v) {
      ExpandedStatesAreRight(d);
    } else {
      FunctionalStatesAreRight(d);
    }
  }

  // ---- Functional acceptors

  /** Accepting paths with one string have one weight. */
  ghost predicate Functional<W>(k: Semiring<W>, f: Fst<W>)
    requires Valid(f)
  {
    f.start != NO_STATE_ID ==> forall p, p' | Accepting(k, f, f.start, p) && Accepting(k, f, f.start, p')
      && ILabels(f, f.start, p) == ILabels(f, f.start, p') ::
      PathWeight(k, f, f.start, p) == PathWeight(k, f, f.start, p')
  }

  /** From every state a path goes on whose weight is not Zero, as in a trimmed transducer without arcs of weight
      Zero. */
  ghost predicate Completed<W>(k: Semiring<W>, f: Fst<W>)
    requires Valid(f)
  {
    forall q :: 0 <= q < |f.states| ==> GoesOn(k, f, q)
  }

  ghost predicate GoesOn<W>(k: Semiring<W>, f: Fst<W>, q: nat)
    requires Valid(f) && q < |f.states|
  {
    exists c :: IsPath(f, q, c) && PathWeight(k, f, q, c) != k.Zero
  }

  lemma {:induction false} ConcatPath<W(!new)>(k: Semiring<W>, f: Fst<W>, s: nat, p: seq<nat>, c: seq<nat>)
    requires MultiplicativeLaws(k) && Valid(f) && s < |f.states| && IsPath(f, s, p) && IsPath(f, PathEnd(f, s, p), c)
    ensures IsPath(f, s, p + c) && PathEnd(f, s, p + c) == PathEnd(f, PathEnd(f, s, p), c)
    ensures ILabels(f, s, p + c) == ILabels(f, s, p) + ILabels(f, PathEnd(f, s, p), c)
    ensures PathWeight(k, f, s, p + c) == k.Times(ArcsWeight(k, f, s, p), PathWeight(k, f, PathEnd(f, s, p), c))
    decreases |p|
  {
    var w := PathWeight(k, f, PathEnd(f, s, p), c);
    if p == [] {
      assert p + c == c;
      TimesOne(k, w);
    } else {
      var arc := f.states[s].arcs[p[0]];
      ConcatPath(k, f, arc.nextstate, p[1..], c);
      assert (p + c)[1..] == p[1..] + c;
      TimesAssociates(k, arc.weight, ArcsWeight(k, f, arc.nextstate, p[1..]), w);
    }
  }

  /** A path whose weight is not Zero is accepting. */
  lemma {:induction false} NonZeroIsAccepting<W(!new)>(k: Semiring<W>, f: Fst<W>, s: nat, p: seq<nat>)
    requires LeftDistributes(k) && Valid(f) && s < |f.states| && IsPath(f, s, p) && PathWeight(k, f, s, p) != k.Zero
    ensures Accepting(k, f, s, p)
    decreases |p|
  {
    if p != [] {
      DistributeLeft(k, f.states[s].arcs[p[0]].weight, k.Zero, k.Zero);
      NonZeroIsAccepting(k, f, f.states[s].arcs[p[0]].nextstate, p[1..]);
    }
  }

  /** By cancelling a common ending, one weight for each accepted string is one weight for each string and state. */
  lemma FunctionalByState<W(!new)>(k: Semiring<W>, f: Fst<W>)
    requires LeftSemiring(k) && RightCancellative(k) && Valid(f) && Functional(k, f) && Completed(k, f)
    ensures StateFunctional(k, f)
  {
    if f.start != NO_STATE_ID {
      forall x, p, p', q: nat | ReadsTo(f, x, p, q) && ReadsTo(f, x, p', q)
        ensures ArcsWeight(k, f, f.start, p) == ArcsWeight(k, f, f.start, p')
      {
        SameByEnding(k, f, x, p, p', q);
      }
    }
  }

  lemma SameByEnding<W(!new)>(k: Semiring<W>, f: Fst<W>, x: seq<int>, p: seq<nat>, p': seq<nat>, q: nat)
    requires LeftSemiring(k) && RightCancellative(k) && Valid(f) && Functional(k, f) && Completed(k, f)
    requires 0 <= f.start && ReadsTo(f, x, p, q) && ReadsTo(f, x, p', q)
    ensures ArcsWeight(k, f, f.start, p) == ArcsWeight(k, f, f.start, p')
  {
    assert GoesOn(k, f, q);
    var c :| IsPath(f, q, c) && PathWeight(k, f, q, c) != k.Zero;
    NonZeroIsAccepting(k, f, q, c);
    ConcatPath(k, f, f.start, p, c);
    ConcatPath(k, f, f.start, p', c);
    assert Accepting(k, f, f.start, p + c) && Accepting(k, f, f.start, p' + c);
    assert At3(ArcsWeight(k, f, f.start, p), ArcsWeight(k, f, f.start, p'), PathWeight(k, f, q, c));
  }
}
