/** The delayed determinized automaton, and what its paths and distances are worth. */
module DeterminizeFsas {
  import opened Semirings
  import opened Fsts
  import opened Determinize
  import opened Sequences

  /** The weight of the arc times its destination subset is worth the destinations gathered for the label. */
  ghost predicate DetArcOf<W(!new)>(k: Semiring<W>, f: Fst<W>, table: seq<Subset<W>>, S: Subset<W>, arc: Arc<W>)
    requires Valid(f) && InSubset(S, |f.states|)
  {
    && arc.olabel == arc.ilabel && arc.weight != k.Zero && arc.nextstate < |table|
    && Scaled(k, |f.states|, Gather(k, f, S, arc.ilabel), arc.weight, table[arc.nextstate])
  }

  /** The arcs a determinized state has to have: exactly one for each label that leaves its subset. */
  ghost predicate Expansion<W(!new)>(k: Semiring<W>, f: Fst<W>, table: seq<Subset<W>>, S: Subset<W>, arcs: seq<Arc<W>>)
    requires Valid(f) && InSubset(S, |f.states|)
  {
    && (forall i, j :: 0 <= i < j < |arcs| ==> arcs[i].ilabel < arcs[j].ilabel)
    && (forall l :: Gather(k, f, S, l) != [] <==> exists i :: 0 <= i < |arcs| && arcs[i].ilabel == l)
    && (forall i :: 0 <= i < |arcs| ==> DetArcOf(k, f, table, S, arcs[i]))
  }

  /** A table of subsets and the arcs of the states expanded so far. */
  ghost predicate Determinized<W(!new)>(
    k: Semiring<W>, f: Fst<W>, table: seq<Subset<W>>, cache: map<nat, seq<Arc<W>>>
  ) {
    && Valid(f)
    && (forall s :: 0 <= s < |table| ==> InSubset(table[s], |f.states|))
    && (forall s :: s in cache ==> s < |table| && Expansion(k, f, table, table[s], cache[s]))
  }

  // ---- Paths of the determinized automaton

  ghost predicate IsDetPath<W(!new)>(
    k: Semiring<W>, f: Fst<W>, table: seq<Subset<W>>, cache: map<nat, seq<Arc<W>>>, s: nat, p: seq<nat>
  )
    requires Determinized(k, f, table, cache) && s < |table|
    decreases |p|
  {
    p == [] || (s in cache && p[0] < |cache[s]| && IsDetPath(k, f, table, cache, cache[s][p[0]].nextstate, p[1..]))
  }

  ghost function DetLabels<W(!new)>(
    k: Semiring<W>, f: Fst<W>, table: seq<Subset<W>>, cache: map<nat, seq<Arc<W>>>, s: nat, p: seq<nat>
  ): (x: seq<int>)
    requires Determinized(k, f, table, cache) && s < |table| && IsDetPath(k, f, table, cache, s, p)
    ensures |x| == |p|
    decreases |p|
  {
    if p == [] then []
    else [cache[s][p[0]].ilabel] + DetLabels(k, f, table, cache, cache[s][p[0]].nextstate, p[1..])
  }

  /** The final weight of a determinized state. */
  ghost function DetFinal<W>(k: Semiring<W>, f: Fst<W>, S: Subset<W>): W
    requires Valid(f) && InSubset(S, |f.states|)
  {
    Eval(k, S, Values(k, f, []))
  }

  ghost function DetPathWeight<W(!new)>(
    k: Semiring<W>, f: Fst<W>, table: seq<Subset<W>>, cache: map<nat, seq<Arc<W>>>, s: nat, p: seq<nat>
  ): W
    requires Determinized(k, f, table, cache) && s < |table| && IsDetPath(k, f, table, cache, s, p)
    decreases |p|
  {
    if p == [] then DetFinal(k, f, table[s])
    else k.Times(cache[s][p[0]].weight, DetPathWeight(k, f, table, cache, cache[s][p[0]].nextstate, p[1..]))
  }

  /** Deterministic: a label string is read along at most one path. */
  lemma {:induction false} DetPathUnique<W(!new)>(
    k: Semiring<W>, f: Fst<W>, table: seq<Subset<W>>, cache: map<nat, seq<Arc<W>>>, s: nat, p: seq<nat>, q: seq<nat>
  )
    requires Determinized(k, f, table, cache) && s < |table|
    requires IsDetPath(k, f, table, cache, s, p) && IsDetPath(k, f, table, cache, s, q)
    requires DetLabels(k, f, table, cache, s, p) == DetLabels(k, f, table, cache, s, q)
    ensures p == q
    decreases |p|
  {
    if p != [] {
      var x, y := DetLabels(k, f, table, cache, s, p), DetLabels(k, f, table, cache, s, q);
      assert x[0] == y[0] && x[1..] == y[1..];
      assert p[0] == q[0];
      DetPathUnique(k, f, table, cache, cache[s][p[0]].nextstate, p[1..], q[1..]);
      assert p == [p[0]] + p[1..] && q == [q[0]] + q[1..];
    }
  }

  /** Weight preservation: the path that reads x weighs the residual-weighted sum of all input paths that read x. */
  lemma {:induction false} DetPathWeightIsSum<W(!new)>(
    k: Semiring<W>, f: Fst<W>, table: seq<Subset<W>>, cache: map<nat, seq<Arc<W>>>, s: nat, p: seq<nat>
  )
    requires LeftSemiring(k) && Determinized(k, f, table, cache) && s < |table| && IsDetPath(k, f, table, cache, s, p)
    ensures DetPathWeight(k, f, table, cache, s, p)
      == Eval(k, table[s], Values(k, f, DetLabels(k, f, table, cache, s, p)))
    decreases |p|
  {
    if p != [] {
      var arc := cache[s][p[0]];
      DetPathWeightIsSum(k, f, table, cache, arc.nextstate, p[1..]);
      var rest := DetLabels(k, f, table, cache, arc.nextstate, p[1..]);
      GatherValue(k, f, table[s], arc.ilabel, rest);
      assert DetArcOf(k, f, table, table[s], arc);
    }
  }

  /** If the run on x stops at an expanded state without an arc for the next label, no input path reads x
      (its sum is Zero). */
  lemma {:induction false} NoDetPathIsZero<W(!new)>(
    k: Semiring<W>, f: Fst<W>, table: seq<Subset<W>>, cache: map<nat, seq<Arc<W>>>, s: nat, p: seq<nat>, l: int,
    y: seq<int>
  )
    requires LeftSemiring(k) && Determinized(k, f, table, cache) && s < |table| && IsDetPath(k, f, table, cache, s, p)
    requires var e := DetEnd(k, f, table, cache, s, p); e in cache && forall i :: 0 <= i < |cache[e]| ==>
      cache[e][i].ilabel != l
    ensures Eval(k, table[s], Values(k, f, DetLabels(k, f, table, cache, s, p) + [l] + y)) == k.Zero
    decreases |p|
  {
    if p == [] {
      GatherValue(k, f, table[s], l, y);
      assert [] + [l] + y == [l] + y;
      assert Gather(k, f, table[s], l) == [];
    } else {
      var arc := cache[s][p[0]];
      NoDetPathIsZero(k, f, table, cache, arc.nextstate, p[1..], l, y);
      var rest := DetLabels(k, f, table, cache, arc.nextstate, p[1..]) + [l] + y;
      GatherValue(k, f, table[s], arc.ilabel, rest);
      ConsConcat(arc.ilabel, DetLabels(k, f, table, cache, arc.nextstate, p[1..]), l, y);
      assert DetArcOf(k, f, table, table[s], arc);
      DistributeLeft(k, arc.weight, k.Zero, k.Zero);
    }
  }

  ghost function DetEnd<W(!new)>(
    k: Semiring<W>, f: Fst<W>, table: seq<Subset<W>>, cache: map<nat, seq<Arc<W>>>, s: nat, p: seq<nat>
  ): (e: nat)
    requires Determinized(k, f, table, cache) && s < |table| && IsDetPath(k, f, table, cache, s, p)
    ensures e < |table|
    decreases |p|
  {
    if p == [] then s else DetEnd(k, f, table, cache, cache[s][p[0]].nextstate, p[1..])
  }

  /** From the start state: the path reading x, if any, weighs exactly the sum of the weights of all the
      input paths that read x, each counted once. */
  lemma DeterminizePreservesWeight<W(!new)>(
    k: Semiring<W>, f: Fst<W>, table: seq<Subset<W>>, cache: map<nat, seq<Arc<W>>>, s: nat, p: seq<nat>
  )
    requires LeftSemiring(k) && Determinized(k, f, table, cache) && s < |table| && IsDetPath(k, f, table, cache, s, p)
    requires f.start != NO_STATE_ID && table[s] == [Element(f.start, k.One)]
    ensures var paths := PathsFrom(f, f.start, DetLabels(k, f, table, cache, s, p), |f.states[f.start].arcs|);
            && (forall r :: r in paths ==> IsPath(f, f.start, r))
            && DetPathWeight(k, f, table, cache, s, p) == SumPaths(k, f, f.start, paths)
  {
    var x := DetLabels(k, f, table, cache, s, p);
    DetPathWeightIsSum(k, f, table, cache, s, p);
    EvalOne(k, Element(f.start, k.One), Values(k, f, x));
    TimesOne(k, Values(k, f, x)[f.start]);
    ValuesSumPaths(k, f, f.start, x, |f.states[f.start].arcs|);
  }

  // ---- The delayed automaton

  lemma {:induction false} GatherInSubset<W>(k: Semiring<W>, f: Fst<W>, S: Subset<W>, l: int)
    requires Valid(f) && InSubset(S, |f.states|)
    ensures InSubset(Gather(k, f, S, l), |f.states|)
  {
    if S != [] {
      GatherInSubset(k, f, S[..|S| - 1], l);
      GatherArcsInSubset(k, S[|S| - 1].weight, f.states[S[|S| - 1].state].arcs, l, |f.states|);
    }
  }

  lemma {:induction false} GatherArcsInSubset<W>(k: Semiring<W>, w: W, arcs: seq<Arc<W>>, l: int, n: nat)
    requires ValidArcs(arcs, n)
    ensures InSubset(GatherArcs(k, w, arcs, l), n)
  {
    if arcs != [] {
      GatherArcsInSubset(k, w, arcs[..|arcs| - 1], l, n);
    }
  }

  /** An arc as the code forms it: the label's destinations, sorted, merged and divided, are the subset of its
      destination, and the divisor is its weight. */
  ghost predicate NormalArc<W>(
    k: Semiring<W>, v: Division<W>, f: Fst<W>, table: seq<Subset<W>>, S: Subset<W>, arc: Arc<W>
  )
    requires Valid(f) && InSubset(S, |f.states|)
  {
    && arc.olabel == arc.ilabel && arc.nextstate < |table|
    && DetArc(arc.weight, table[arc.nextstate]) == NormArcOf(k, v, Gather(k, f, S, arc.ilabel))
  }

  /** The arcs are in label order, one for each label in the set. */
  ghost predicate ArcsFor<W>(
    k: Semiring<W>, v: Division<W>, f: Fst<W>, table: seq<Subset<W>>, S: Subset<W>, arcs: seq<Arc<W>>, L: iset<int>
  )
    requires Valid(f) && InSubset(S, |f.states|)
  {
    && (forall i, j :: 0 <= i < j < |arcs| ==> arcs[i].ilabel < arcs[j].ilabel)
    && (forall l :: l in L <==> exists i :: 0 <= i < |arcs| && arcs[i].ilabel == l)
    && (forall i :: 0 <= i < |arcs| ==> NormalArc(k, v, f, table, S, arcs[i]))
  }

  /** The labels that leave a subset. */
  ghost function LeavingLabels<W>(k: Semiring<W>, f: Fst<W>, S: Subset<W>): iset<int>
    requires Valid(f) && InSubset(S, |f.states|)
  {
    iset l | Gather(k, f, S, l) != []
  }

  /** What the delayed automaton computes, for any weights: each cached state has one arc for each label that
      leaves its subset, formed by NormArcOf. */
  ghost predicate Expanded<W>(
    k: Semiring<W>, v: Division<W>, f: Fst<W>, table: seq<Subset<W>>, cache: map<nat, seq<Arc<W>>>
  ) {
    && Valid(f)
    && (forall s :: 0 <= s < |table| ==> InSubset(table[s], |f.states|))
    && (forall s :: s in cache ==>
         s < |table| && ArcsFor(k, v, f, table, table[s], cache[s], LeavingLabels(k, f, table[s])))
  }

  /** Every list gathered from S can be merged, and has a weight that is not Zero. */
  ghost predicate WellGathered<W(!new)>(k: Semiring<W>, f: Fst<W>, S: Subset<W>)
    requires Valid(f) && InSubset(S, |f.states|)
  {
    forall l {:trigger Gather(k, f, S, l)} ::
      Gather(k, f, S, l) == [] || (Mergeable(k, Gather(k, f, S, l)) && SomeNonZero(k, Gather(k, f, S, l)))
  }

  /** If the lists gathered from the expanded states are well formed, every arc keeps the value of its list. */
  lemma ExpandedIsDeterminized<W(!new)>(
    k: Semiring<W>, v: Division<W>, f: Fst<W>, table: seq<Subset<W>>, cache: map<nat, seq<Arc<W>>>
  )
    requires LeftDivisible(k, v) && Expanded(k, v, f, table, cache)
    requires forall s :: s in cache ==> WellGathered(k, f, table[s])
    ensures Determinized(k, f, table, cache)
  {
    forall s | s in cache ensures Expansion(k, f, table, table[s], cache[s]) {
      var S := table[s];
      forall l ensures Gather(k, f, S, l) != [] <==> exists i :: 0 <= i < |cache[s]| && cache[s][i].ilabel == l {
        assert Gather(k, f, S, l) != [] <==> l in LeavingLabels(k, f, S);
      }
      forall i | 0 <= i < |cache[s]| ensures DetArcOf(k, f, table, S, cache[s][i]) {
        var arc := cache[s][i];
        assert NormalArc(k, v, f, table, S, arc) && arc.ilabel in LeavingLabels(k, f, S);
        GatherInSubset(k, f, S, arc.ilabel);
        NormArcKeepsValue(k, v, |f.states|, Gather(k, f, S, arc.ilabel));
      }
    }
  }

  lemma AppendArc<W>(k: Semiring<W>, v: Division<W>, f: Fst<W>, table: seq<Subset<W>>, more: seq<Subset<W>>,
                     S: Subset<W>, arcs: seq<Arc<W>>, L: iset<int>, arc: Arc<W>)
    requires Valid(f) && InSubset(S, |f.states|) && table <= more
    requires ArcsFor(k, v, f, table, S, arcs, L) && NormalArc(k, v, f, more, S, arc)
    requires forall l :: l in L ==> l < arc.ilabel
    ensures ArcsFor(k, v, f, more, S, arcs + [arc], L + iset{arc.ilabel})
  {
    var arcs' := arcs + [arc];
    assert arcs'[|arcs|].ilabel == arc.ilabel;
    forall i | 0 <= i < |arcs|
      ensures arcs'[i] == arcs[i] && arcs[i].ilabel in L && NormalArc(k, v, f, more, S, arcs[i])
    {
      assert NormalArc(k, v, f, table, S, arcs[i]);
    }
    forall l | l in L ensures exists i :: 0 <= i < |arcs'| && arcs'[i].ilabel == l {
      var i :| 0 <= i < |arcs| && arcs[i].ilabel == l;
      assert arcs'[i].ilabel == l;
    }
  }

  lemma {:induction false} HasMinimum(L: set<int>)
    requires L != {}
    ensures exists l :: l in L && forall m :: m in L ==> l <= m
    decreases L
  {
    var l := HasElement(L);
    if L != {l} {
      HasMinimum(L - {l});
      var m :| m in L - {l} && forall j :: j in L - {l} ==> m <= j;
      var r := if l <= m then l else m;
      forall j | j in L ensures r <= j {
        assert j != l ==> j in L - {l};
      }
      assert r in L;
    } else {
      assert l in L && forall m :: m in L ==> l <= m;
    }
  }

  /** The map holds exactly the labels with destinations, each with its list. */
  ghost predicate GatheredMap<W>(
    k: Semiring<W>, f: Fst<W>, w: W, arcs: seq<Arc<W>>, S: Subset<W>, g: map<int, Subset<W>>
  )
    requires Valid(f) && InSubset(S, |f.states|)
  {
    forall l :: && (l in g <==> GatherArcs(k, w, arcs, l) + Gather(k, f, S, l) != [])
                && (l in g ==> g[l] == GatherArcs(k, w, arcs, l) + Gather(k, f, S, l))
  }

  /** Pushing one more arc to the front of its label's list. */
  lemma GatheredPush<W>(
    k: Semiring<W>, f: Fst<W>, w: W, arcs: seq<Arc<W>>, arc: Arc<W>, S: Subset<W>, g: map<int, Subset<W>>
  )
    requires Valid(f) && InSubset(S, |f.states|) && GatheredMap(k, f, w, arcs, S, g)
    ensures var dest := [Element(arc.nextstate, k.Times(w, arc.weight))];
      var before := if arc.ilabel in g then g[arc.ilabel] else [];
      GatheredMap(k, f, w, arcs + [arc], S, g[arc.ilabel := dest + before])
  {
    assert (arcs + [arc])[..|arcs|] == arcs;
    var dest := [Element(arc.nextstate, k.Times(w, arc.weight))];
    forall l
      ensures GatherArcs(k, w, arcs + [arc], l) + Gather(k, f, S, l)
           == (if arc.ilabel == l then dest else []) + (GatherArcs(k, w, arcs, l) + Gather(k, f, S, l))
    {
    }
  }

  /** When all arcs of an element are pushed, the element is part of the subset gathered from. */
  lemma GatheredElement<W>(k: Semiring<W>, f: Fst<W>, S: Subset<W>, e: Element<W>, w: W, g: map<int, Subset<W>>)
    requires Valid(f) && InSubset(S, |f.states|) && e.state < |f.states|
    requires GatheredMap(k, f, e.weight, f.states[e.state].arcs, S, g)
    ensures GatheredMap(k, f, w, [], S + [e], g)
  {
    assert (S + [e])[..|S|] == S;
    forall l
      ensures GatherArcs(k, w, [], l) + Gather(k, f, S + [e], l)
           == GatherArcs(k, e.weight, f.states[e.state].arcs, l) + Gather(k, f, S, l)
    {
    }
  }

  /** Numbering one more subset leaves the expanded states as they are. */
  lemma GrowTable<W>(
    k: Semiring<W>, v: Division<W>, f: Fst<W>, table: seq<Subset<W>>, cache: map<nat, seq<Arc<W>>>, S: Subset<W>
  )
    requires Expanded(k, v, f, table, cache) && InSubset(S, |f.states|)
    ensures Expanded(k, v, f, table + [S], cache)
  {
    forall s, i | s in cache && 0 <= i < |cache[s]| ensures NormalArc(k, v, f, table + [S], table[s], cache[s][i]) {
      assert NormalArc(k, v, f, table, table[s], cache[s][i]);
    }
  }

  ghost predicate Before(done: iset<int>, todo: set<int>) {
    forall l, m :: l in done && m in todo ==> l < m
  }

  /** The labels are split into those done and those to do, which come later. */
  ghost predicate LabelsLeft(labels: set<int>, done: iset<int>, todo: set<int>) {
    (forall l :: l in labels <==> l in done || l in todo) && Before(done, todo)
  }

  lemma LabelDone(labels: set<int>, done: iset<int>, todo: set<int>, l: int)
    requires LabelsLeft(labels, done, todo) && l in todo && Before(done + iset{l}, todo - {l})
    ensures LabelsLeft(labels, done + iset{l}, todo - {l})
  {
  }

  /** Takes the least label off the labels still to do. */
  lemma TakeMinimum(done: iset<int>, todo: set<int>) returns (l: int)
    requires todo != {} && Before(done, todo)
    ensures l in todo && (forall m :: m in todo ==> l <= m) && Before(done, {l})
    ensures Before(done + iset{l}, todo - {l})
  {
    HasMinimum(todo);
    l :| l in todo && forall m :: m in todo ==> l <= m;
  }

  /** The subset that a string leads to from the start, formed label by label as the code forms it; it is empty when no
      path reads the string. */
  ghost function Along<W(!new)>(k: Semiring<W>, v: Division<W>, f: Fst<W>, x: seq<int>): (S: Subset<W>)
    requires AdditiveLaws(k) && Valid(f) && f.start != NO_STATE_ID
    ensures InSubset(S, |f.states|) && Ascending(S)
    decreases |x|, 0
  {
    if x == [] then [Element(f.start, k.One)]
    else
      var gathered := GatheredAt(k, v, f, x[..|x| - 1], x[|x| - 1]);
      NormArcShape(k, v, |f.states|, gathered);
      NormArcOf(k, v, gathered).dest
  }

  /** The list gathered for a label from the subset that a string leads to. */
  ghost function GatheredAt<W(!new)>(k: Semiring<W>, v: Division<W>, f: Fst<W>, x: seq<int>, l: int): (S: Subset<W>)
    requires AdditiveLaws(k) && Valid(f) && f.start != NO_STATE_ID
    ensures InSubset(S, |f.states|)
    decreases |x|, 1
  {
    GatherInSubset(k, f, Along(k, v, f, x), l);
    Gather(k, f, Along(k, v, f, x), l)
  }

  /** Some string leads to the subset, which is not empty. */
  ghost predicate IsReached<W(!new)>(k: Semiring<W>, v: Division<W>, f: Fst<W>, S: Subset<W>)
    requires AdditiveLaws(k) && Valid(f)
  {
    f.start != NO_STATE_ID && S != [] && exists x :: S == Along(k, v, f, x)
  }

  /** Expanding a subset that is reached numbers only subsets that are reached. */
  lemma ReachedNext<W(!new)>(k: Semiring<W>, v: Division<W>, f: Fst<W>, S: Subset<W>, l: int)
    requires AdditiveLaws(k) && Valid(f) && IsReached(k, v, f, S) && InSubset(S, |f.states|)
    requires Gather(k, f, S, l) != []
    ensures IsReached(k, v, f, NormArcOf(k, v, Gather(k, f, S, l)).dest)
  {
    var x :| S == Along(k, v, f, x);
    DropLast(x, l);
    assert Along(k, v, f, x + [l]) == NormArcOf(k, v, Gather(k, f, S, l)).dest;
    GatherInSubset(k, f, S, l);
    NormArcShape(k, v, |f.states|, Gather(k, f, S, l));
  }

  class DeterminizeFsa<W(==, !new)> {
    const k: Semiring<W>
    const v: Division<W>
    const fst: Fst<W>
    const inDist: Option<seq<W>>
    var table: seq<Subset<W>>
    var ids: map<Subset<W>, nat>
    var cache: map<nat, seq<Arc<W>>>
    var outDist: seq<W>

    /** The table numbers subsets injectively, each of which some string leads to, the cached arcs expand their states,
        and with input distances every numbered state has its distance pushed. */
    ghost predicate Valid()
      reads this
    {
      && Fsts.Valid(fst) && LeftDivisible(k, v)
      && Expanded(k, v, fst, table, cache)
      && (forall s :: 0 <= s < |table| ==> IsReached(k, v, fst, table[s]))
      && (forall s :: 0 <= s < |table| ==> table[s] in ids && ids[table[s]] == s)
      && (forall S :: S in ids ==> ids[S] < |table| && table[ids[S]] == S)
      && (inDist.Some? ==>
        && |outDist| == |table|
        && forall s :: 0 <= s < |table| ==> outDist[s] == Eval(k, table[s], InDistances()))
    }

    /** The input distances; a state beyond the end of the list has distance Zero. */
    function InDistances(): (V: seq<W>)
      requires inDist.Some?
      ensures |V| == |fst.states|
    {
      seq(|fst.states|, q requires 0 <= q < |fst.states| => if q < |inDist.value| then inDist.value[q] else k.Zero)
    }

    constructor (k: Semiring<W>, v: Division<W>, fst: Fst<W>, inDist: Option<seq<W>>)
      requires Fsts.Valid(fst) && LeftDivisible(k, v)
      ensures Valid() && this.k == k && this.v == v && this.fst == fst && this.inDist == inDist
      ensures table == [] && cache == map[]
    {
      this.k, this.v, this.fst, this.inDist := k, v, fst, inDist;
      table, ids, cache, outDist := [], map[], map[], [];
    }

    /** The weighted sum over a subset, as the loops of ComputeFinal and ComputeDistance form it. */
    method SumOver(S: Subset<W>, V: seq<W>) returns (w: W)
      requires AdditiveLaws(k) && InSubset(S, |V|)
      ensures w == Eval(k, S, V)
    {
      w := k.Zero;
      for i := 0 to |S|
        invariant w == Eval(k, S[..i], V)
      {
        PlusCommutes(k, w, k.Times(S[i].weight, V[S[i].state]));
        TakeNext(S, i);
        w := k.Plus(w, k.Times(S[i].weight, V[S[i].state]));
      }
      TakeAll(S);
    }

    method FindState(S: Subset<W>) returns (s: nat)
      requires Valid() && IsReached(k, v, fst, S)
      modifies this
      ensures Valid() && old(table) <= table && cache == old(cache) && s < |table| && table[s] == S
    {
      if S in ids {
        s := ids[S];
      } else {
        s := |table|;
        GrowTable(k, v, fst, table, cache, S);
        table, ids := table + [S], ids[S := s];
        if inDist.Some? {
          var d := SumOver(S, InDistances());
          outDist := outDist + [d];
        }
      }
    }

    method ComputeStart() returns (s: int)
      requires Valid()
      modifies this
      ensures Valid() && old(table) <= table && cache == old(cache)
      ensures s == NO_STATE_ID <==> fst.start == NO_STATE_ID
      ensures s != NO_STATE_ID ==> 0 <= s < |table| && table[s] == [Element(fst.start, k.One)]
    {
      if fst.start == NO_STATE_ID {
        return NO_STATE_ID;
      }
      assert Along(k, v, fst, []) == [Element(fst.start, k.One)];
      s := FindState([Element(fst.start, k.One)]);
    }

    method ComputeFinal(s: nat) returns (w: W)
      requires Valid() && s < |table|
      ensures w == DetFinal(k, fst, table[s])
    {
      var finals := seq(|fst.states|, q requires 0 <= q < |fst.states| => fst.states[q].final);
      w := SumOver(table[s], finals);
      assert finals == Values(k, fst, []);
    }

    /** Lists the destinations of each label that leaves the subset of a state. */
    method GatherLabels(s: nat) returns (g: map<int, Subset<W>>)
      requires Valid() && s < |table|
      ensures GatheredMap(k, fst, k.One, [], table[s], g)
    {
      var S := table[s];
      g := map[];
      for i := 0 to |S|
        invariant GatheredMap(k, fst, k.One, [], S[..i], g)
      {
        var arcs := fst.states[S[i].state].arcs;
        for j := 0 to |arcs|
          invariant GatheredMap(k, fst, S[i].weight, arcs[..j], S[..i], g)
        {
          var l := arcs[j].ilabel;
          var dest := Element(arcs[j].nextstate, k.Times(S[i].weight, arcs[j].weight));
          GatheredPush(k, fst, S[i].weight, arcs[..j], arcs[j], S[..i], g);
          TakeNext(arcs, j);
          g := g[l := [dest] + (if l in g then g[l] else [])];
        }
        TakeAll(arcs);
        GatheredElement(k, fst, S[..i], S[i], k.One, g);
        TakeNext(S, i);
      }
      TakeAll(S);
    }

    /** The proto-arcs of a state, one for each label that leaves its subset. */
    method GetLabelMap(s: nat) returns (labelMap: map<int, DetArc<W>>)
      requires Valid() && s < |table|
      ensures forall l :: l in labelMap <==> Gather(k, fst, table[s], l) != []
      ensures forall l :: l in labelMap ==> labelMap[l] == NormArcOf(k, v, Gather(k, fst, table[s], l))
    {
      var S := table[s];
      var gathered := GatherLabels(s);
      assert forall l :: GatherArcs(k, k.One, [], l) + Gather(k, fst, S, l) == Gather(k, fst, S, l);
      labelMap := map[];
      var todo := gathered.Keys;
      while todo != {}
        invariant todo <= gathered.Keys && labelMap.Keys == gathered.Keys - todo
        invariant forall l :: l in labelMap ==> labelMap[l] == NormArcOf(k, v, Gather(k, fst, S, l))
        decreases todo
      {
        ghost var some := HasElement(todo);
        var l :| l in todo;
        var arc := NormArc(k, v, gathered[l]);
        labelMap := labelMap[l := arc];
        todo := todo - {l};
      }
    }

    /** Appends the arc of a label, numbering its destination subset. */
    method AddArc(s: nat, arcs: seq<Arc<W>>, ghost L: iset<int>, l: int, proto: DetArc<W>) returns (more: seq<Arc<W>>)
      requires Valid() && s < |table| && ArcsFor(k, v, fst, table, table[s], arcs, L)
      requires Gather(k, fst, table[s], l) != [] && proto == NormArcOf(k, v, Gather(k, fst, table[s], l))
      requires Before(L, {l})
      modifies this
      ensures Valid() && old(table) <= table && cache == old(cache)
      ensures ArcsFor(k, v, fst, table, table[s], more, L + iset{l})
    {
      ReachedNext(k, v, fst, table[s], l);
      var next := FindState(proto.dest);
      AppendArc(k, v, fst, old(table), table, table[s], arcs, L, Arc(l, l, proto.weight, next));
      more := arcs + [Arc(l, l, proto.weight, next)];
    }

    /** Marks the arcs of a state as cached. */
    method SetArcs(s: nat, arcs: seq<Arc<W>>)
      requires Valid() && s < |table| && ArcsFor(k, v, fst, table, table[s], arcs, LeavingLabels(k, fst, table[s]))
      modifies this`cache
      ensures Valid() && cache == old(cache)[s := arcs]
    {
      cache := cache[s := arcs];
    }

    /** The map has the proto-arcs of the labels that leave the subset of a state. */
    ghost predicate LabelMapOf(s: nat, labelMap: map<int, DetArc<W>>)
      requires Valid() && s < |table|
      reads this
    {
      && (forall l :: l in labelMap <==> Gather(k, fst, table[s], l) != [])
      && (forall l :: l in labelMap ==> labelMap[l] == NormArcOf(k, v, Gather(k, fst, table[s], l)))
    }

    /** Adds the arc of the least label still to do. */
    method AddLeast(s: nat, labelMap: map<int, DetArc<W>>, arcs: seq<Arc<W>>, ghost done: iset<int>, todo: set<int>)
      returns (more: seq<Arc<W>>, ghost done': iset<int>, todo': set<int>)
      requires Valid() && s < |table| && LabelMapOf(s, labelMap) && todo != {}
      requires LabelsLeft(labelMap.Keys, done, todo) && ArcsFor(k, v, fst, table, table[s], arcs, done)
      modifies this
      ensures Valid() && old(table) <= table && cache == old(cache)
      ensures LabelsLeft(labelMap.Keys, done', todo') && ArcsFor(k, v, fst, table, table[s], more, done')
      ensures todo' < todo && LabelMapOf(s, labelMap)
    {
      ghost var least := TakeMinimum(done, todo);
      var l :| l in todo && forall m :: m in todo ==> l <= m;
      assert l == least && l in labelMap;
      more := AddArc(s, arcs, done, l, labelMap[l]);
      LabelDone(labelMap.Keys, done, todo, l);
      todo', done' := todo - {l}, done + iset{l};
    }

    lemma AllLabelsDone(s: nat, labelMap: map<int, DetArc<W>>, done: iset<int>)
      requires Valid() && s < |table| && LabelMapOf(s, labelMap) && LabelsLeft(labelMap.Keys, done, {})
      ensures done == LeavingLabels(k, fst, table[s])
    {
      forall l ensures l in done <==> l in LeavingLabels(k, fst, table[s]) {
        assert l in labelMap.Keys <==> l in done;
      }
    }

    /** Adds the arcs of all labels, the least label first. */
    method AddArcs(s: nat, labelMap: map<int, DetArc<W>>) returns (arcs: seq<Arc<W>>)
      requires Valid() && s < |table| && LabelMapOf(s, labelMap)
      modifies this
      ensures Valid() && old(table) <= table && cache == old(cache)
      ensures ArcsFor(k, v, fst, table, table[s], arcs, LeavingLabels(k, fst, table[s]))
    {
      arcs := [];
      var todo := labelMap.Keys;
      ghost var done: iset<int> := iset{};
      while todo != {}
        invariant Valid() && old(table) <= table && cache == old(cache) && s < |table|
        invariant LabelMapOf(s, labelMap)
        invariant LabelsLeft(labelMap.Keys, done, todo) && ArcsFor(k, v, fst, table, table[s], arcs, done)
        decreases todo
      {
        arcs, done, todo := AddLeast(s, labelMap, arcs, done, todo);
      }
      AllLabelsDone(s, labelMap, done);
    }

    /** Expanding a state caches exactly the arcs its subset calls for, in label order. */
    method Expand(s: nat)
      requires Valid() && s < |table|
      modifies this
      ensures Valid() && old(table) <= table && cache.Keys == old(cache).Keys + {s}
      ensures ArcsFor(k, v, fst, table, table[s], cache[s], LeavingLabels(k, fst, table[s]))
      ensures forall t :: t in old(cache) && t != s ==> cache[t] == old(cache)[t]
    {
      var labelMap := GetLabelMap(s);
      var arcs := AddArcs(s, labelMap);
      SetArcs(s, arcs);
    }
  }
}
