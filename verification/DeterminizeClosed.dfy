/** What is divided out is the greatest: deterministic input is determinized to itself, which comes to an end. */
module DeterminizeClosed {
  import opened Semirings
  import opened Fsts
  import opened Determinize
  import opened DeterminizeFsas
  import opened DeterminizeRuns
  import opened Sequences

  /** The divisor of a single weight is the weight itself, and leaves One. */
  ghost predicate Normalizes<W(!new)>(k: Semiring<W>, v: Division<W>) {
    forall w {:trigger At1(w)} :: At1(w) ==> (w != k.Zero ==> v.Common(k.Zero, w) == w && v.Divide(w, w) == k.One)
  }

  lemma SingleNormArc<W(!new)>(k: Semiring<W>, v: Division<W>, q: nat, w: W)
    requires Normalizes(k, v) && w != k.Zero
    ensures NormArcOf(k, v, [Element(q, w)]) == DetArc(w, [Element(q, k.One)])
  {
    assert At1(w);
    var S := [Element(q, w)];
    assert S[..0] == [];
    assert SortFold(S) == S;
    assert MergeFold(k, S) == S;
    assert DivisorFold(k, v, S) == w;
  }

  lemma {:induction false} NoArcGathered<W>(k: Semiring<W>, w: W, arcs: seq<Arc<W>>, l: int)
    requires forall i :: 0 <= i < |arcs| ==> arcs[i].ilabel != l
    ensures GatherArcs(k, w, arcs, l) == []
  {
    if arcs != [] {
      NoArcGathered(k, w, arcs[..|arcs| - 1], l);
    }
  }

  /** Of arcs with different labels, at most one is gathered. */
  lemma {:induction false} OneArcGathered<W>(k: Semiring<W>, w: W, arcs: seq<Arc<W>>, i: nat)
    requires i < |arcs| && forall a, b :: 0 <= a < b < |arcs| ==> arcs[a].ilabel != arcs[b].ilabel
    ensures GatherArcs(k, w, arcs, arcs[i].ilabel) == [Element(arcs[i].nextstate, k.Times(w, arcs[i].weight))]
  {
    var init := arcs[..|arcs| - 1];
    if i < |init| {
      OneArcGathered(k, w, init, i);
    } else {
      NoArcGathered(k, w, init, arcs[i].ilabel);
    }
  }

  /** One state with residual One gathers the arc with the label, if there is one. */
  lemma SingleGather<W(!new)>(k: Semiring<W>, f: Fst<W>, q: nat, l: int)
    requires MultiplicativeLaws(k) && Valid(f) && Deterministic(f) && q < |f.states|
    ensures var S := Gather(k, f, [Element(q, k.One)], l); var arcs := f.states[q].arcs;
      if S == [] then forall i :: 0 <= i < |arcs| ==> arcs[i].ilabel != l
      else exists i :: 0 <= i < |arcs| && arcs[i].ilabel == l && S == [Element(arcs[i].nextstate, arcs[i].weight)]
  {
    var one, arcs := [Element(q, k.One)], f.states[q].arcs;
    assert one[..0] == [];
    assert Gather(k, f, one, l) == GatherArcs(k, k.One, arcs, l);
    if i :| 0 <= i < |arcs| && arcs[i].ilabel == l {
      OneArcGathered(k, k.One, arcs, i);
      TimesOne(k, arcs[i].weight);
    } else {
      NoArcGathered(k, k.One, arcs, l);
    }
  }

  ghost predicate IsSingle<W>(k: Semiring<W>, S: Subset<W>, n: nat) {
    |S| == 1 && S[0].state < n && S[0].weight == k.One
  }

  /** In deterministic input a string leads to one state with residual One, or nowhere. */
  lemma {:induction false} DeterministicAlong<W(!new)>(k: Semiring<W>, v: Division<W>, f: Fst<W>, x: seq<int>)
    requires LeftSemiring(k) && Normalizes(k, v) && Valid(f) && Deterministic(f) && NonZeroArcs(k, f)
    requires f.start != NO_STATE_ID
    ensures Along(k, v, f, x) == [] || IsSingle(k, Along(k, v, f, x), |f.states|)
    decreases |x|
  {
    if x != [] {
      var init, l := x[..|x| - 1], x[|x| - 1];
      DeterministicAlong(k, v, f, init);
      var S := Along(k, v, f, init);
      GatheredIsAt(k, v, f, init, l);
      if S != [] && GatheredAt(k, v, f, init, l) != [] {
        assert S == [Element(S[0].state, k.One)];
        SingleGather(k, f, S[0].state, l);
        var g := GatheredAt(k, v, f, init, l);
        SingleNormArc(k, v, g[0].state, g[0].weight);
      }
    }
  }

  ghost function SingleStates<W>(k: Semiring<W>, table: seq<Subset<W>>, n: nat): (qs: seq<nat>)
    requires forall s :: 0 <= s < |table| ==> IsSingle(k, table[s], n)
    ensures |qs| == |table| && forall s :: 0 <= s < |table| ==> qs[s] < n && table[s] == [Element(qs[s], k.One)]
  {
    if table == [] then []
    else
      assert IsSingle(k, table[|table| - 1], n);
      assert table[|table| - 1] == [Element(table[|table| - 1][0].state, k.One)];
      SingleStates(k, table[..|table| - 1], n) + [table[|table| - 1][0].state]
  }

  lemma SinglesBounded<W>(k: Semiring<W>, table: seq<Subset<W>>, n: nat)
    requires forall s :: 0 <= s < |table| ==> IsSingle(k, table[s], n)
    requires Distinct(table)
    ensures |table| <= n
  {
    DistinctBounded(SingleStates(k, table, n), n);
  }

  /** What deterministic input is determinized with. */
  ghost predicate ForDeterministic<W(!new)>(d: DeterminizeFsa<W>)
    reads d
  {
    d.Valid() && Normalizes(d.k, d.v) && Deterministic(d.fst) && NonZeroArcs(d.k, d.fst)
  }

  /** Every numbered subset is one input state with residual One, so there are at most as many as input states. */
  lemma SinglesOnly<W(!new)>(d: DeterminizeFsa<W>)
    requires ForDeterministic(d)
    ensures forall s :: 0 <= s < |d.table| ==> IsSingle(d.k, d.table[s], |d.fst.states|)
    ensures |d.table| <= |d.fst.states|
  {
    forall s | 0 <= s < |d.table| ensures IsSingle(d.k, d.table[s], |d.fst.states|) {
      assert IsReached(d.k, d.v, d.fst, d.table[s]);
      var x :| d.table[s] == Along(d.k, d.v, d.fst, x);
      DeterministicAlong(d.k, d.v, d.fst, x);
    }
    forall a, b | 0 <= a < b < |d.table| ensures d.table[a] != d.table[b] {
      assert d.ids[d.table[a]] == a && d.ids[d.table[b]] == b;
    }
    SinglesBounded(d.k, d.table, |d.fst.states|);
  }

  /** The arc of a numbered state is the input arc: label, weight and destination. */
  ghost predicate SameArc<W>(k: Semiring<W>, table: seq<Subset<W>>, input: Arc<W>, arc: Arc<W>) {
    && arc.ilabel == arc.olabel == input.ilabel && arc.weight == input.weight
    && arc.nextstate < |table| && table[arc.nextstate] == [Element(input.nextstate, k.One)]
  }

  /** An expanded state has the arcs of its input state. */
  lemma SameArcs<W(!new)>(d: DeterminizeFsa<W>, s: nat, i: nat) returns (j: nat)
    requires ForDeterministic(d) && s in d.cache && i < |d.cache[s]|
    ensures IsSingle(d.k, d.table[s], |d.fst.states|)
    ensures var arcs := d.fst.states[d.table[s][0].state].arcs;
      j < |arcs| && SameArc(d.k, d.table, arcs[j], d.cache[s][i])
  {
    SinglesOnly(d);
    var a, q := d.cache[s][i], d.table[s][0].state;
    assert ArcsFor(d.k, d.v, d.fst, d.table, d.table[s], d.cache[s], LeavingLabels(d.k, d.fst, d.table[s]));
    assert NormalArc(d.k, d.v, d.fst, d.table, d.table[s], a) && a.ilabel in LeavingLabels(d.k, d.fst, d.table[s]);
    assert d.table[s] == [Element(q, d.k.One)];
    SingleGather(d.k, d.fst, q, a.ilabel);
    var arcs := d.fst.states[q].arcs;
    j :| 0 <= j < |arcs| && arcs[j].ilabel == a.ilabel
      && Gather(d.k, d.fst, d.table[s], a.ilabel) == [Element(arcs[j].nextstate, arcs[j].weight)];
    SingleNormArc(d.k, d.v, arcs[j].nextstate, arcs[j].weight);
  }

  ghost predicate ExpandedBelow(keys: set<nat>, n: nat) {
    forall s :: 0 <= s < n ==> s in keys
  }

  lemma OneMoreExpanded(keys: set<nat>, s: nat)
    requires ExpandedBelow(keys, s)
    ensures ExpandedBelow(keys + {s}, s + 1)
  {
  }

  method ExpandNext<W(==, !new)>(d: DeterminizeFsa<W>, s: nat)
    requires ForDeterministic(d) && s < |d.table|
    modifies d
    ensures ForDeterministic(d) && old(d.table) <= d.table && |d.table| <= |d.fst.states|
    ensures d.cache.Keys == old(d.cache).Keys + {s}
  {
    d.Expand(s);
    SinglesOnly(d);
  }

  /** Expands everything that is numbered on the way, which comes to an end. */
  method ExpandAll<W(==, !new)>(d: DeterminizeFsa<W>)
    requires ForDeterministic(d)
    modifies d
    ensures ForDeterministic(d) && |d.table| <= |d.fst.states| && old(d.table) <= d.table
    ensures ExpandedBelow(d.cache.Keys, |d.table|)
  {
    SinglesOnly(d);
    var s := 0;
    while s < |d.table|
      invariant ForDeterministic(d) && old(d.table) <= d.table
      invariant s <= |d.table| <= |d.fst.states| && ExpandedBelow(d.cache.Keys, s)
      decreases |d.fst.states| - |d.table|, |d.table| - s
    {
      ghost var before := d.cache.Keys;
      ExpandNext(d, s);
      OneMoreExpanded(before, s);
      s := s + 1;
    }
  }

  /** Determinizes deterministic input as a whole. */
  method DeterminizeAll<W(==, !new)>(k: Semiring<W>, v: Division<W>, fst: Fst<W>)
    returns (d: DeterminizeFsa<W>, start: int)
    requires Valid(fst) && LeftDivisible(k, v) && Normalizes(k, v) && Deterministic(fst) && NonZeroArcs(k, fst)
    ensures ForDeterministic(d) && d.k == k && d.v == v && d.fst == fst && |d.table| <= |fst.states|
    ensures start == NO_STATE_ID <==> fst.start == NO_STATE_ID
    ensures start != NO_STATE_ID ==> 0 <= start < |d.table| && d.table[start] == [Element(fst.start, k.One)]
    ensures ExpandedBelow(d.cache.Keys, |d.table|)
  {
    d := new DeterminizeFsa(k, v, fst, None);
    start := d.ComputeStart();
    ExpandAll(d);
  }
}
