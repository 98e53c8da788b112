/** A transducer as the predisambiguation may leave it, on which merging split states leaves others split. */
module SplitExamples {
  import opened Semirings
  import opened Fsts
  import opened UnionFinds
  import opened VectorFsts
  import opened Disambiguate
  import opened Disambiguators

  /** States 3 and 4 are split, and so are 7, 8, 9 and 10, of which only 7 and 9, and 8 and 10, are found to be. */
  function SplitFst<W>(k: Semiring<W>): (f: Fst<W>)
    ensures Valid(f) && |f.states| == 11
  {
    Fst(0, [
      State(k.Zero, [Arc(1, 1, k.One, 1), Arc(1, 1, k.One, 2), Arc(2, 2, k.One, 3), Arc(2, 2, k.One, 5),
                     Arc(3, 3, k.One, 4), Arc(3, 3, k.One, 6)]),
      State(k.Zero, [Arc(1, 1, k.One, 3)]),
      State(k.Zero, [Arc(1, 1, k.One, 4)]),
      State(k.Zero, [Arc(1, 1, k.One, 7)]),
      State(k.Zero, [Arc(1, 1, k.One, 8)]),
      State(k.Zero, [Arc(1, 1, k.One, 9)]),
      State(k.Zero, [Arc(1, 1, k.One, 10)]),
      State(k.One, []), State(k.One, []), State(k.One, []), State(k.One, [])])
  }

  const SPLIT_HEADS: seq<int> := [0, 1, 2, 3, 3, 5, 6, 7, 7, 7, 7]

  lemma SplitFstApart<W>(k: Semiring<W>)
    ensures HeadsApart(SplitFst(k), SPLIT_HEADS)
  {
    forall s | 0 <= s < 11 ensures ArcsApart(SplitFst(k).states[s].arcs, SPLIT_HEADS) {
      if s != 0 {
        assert |SplitFst(k).states[s].arcs| <= 1;
      }
    }
  }

  /** The pairs that the search gets to. */
  predicate Together(s: nat, t: nat) {
    || (s == 0 && t == 0)
    || (s in {1, 2} && t in {1, 2})
    || (s in {3, 4} && t in {3, 4})
    || (s in {3, 5} && t in {3, 5})
    || (s in {4, 6} && t in {4, 6})
    || (s in {7, 9} && t in {7, 9})
    || (s in {8, 10} && t in {8, 10})
  }

  ghost function TogetherPairs(): iset<(nat, nat)> {
    iset pr: (nat, nat) | Together(pr.0, pr.1)
  }

  lemma TogetherClosed<W>(k: Semiring<W>)
    ensures ClosedUnsplit(SplitFst(k), SPLIT_HEADS, TogetherPairs())
  {
    var f := SplitFst(k);
    forall s: nat, t: nat, i: nat, j: nat |
      s < |f.states| && t < |f.states| && (s, t) in TogetherPairs() && !SplitPair(SPLIT_HEADS, (s, t))
      && i < |f.states[s].arcs| && j < |f.states[t].arcs| && f.states[s].arcs[i].ilabel == f.states[t].arcs[j].ilabel
      ensures (f.states[s].arcs[i].nextstate, f.states[t].arcs[j].nextstate) in TogetherPairs()
    {
      assert Together(s, t);
      assert (s in {3, 4} && t in {3, 4}) ==> s == t;
      if s != 0 {
        assert t != 0 && i == 0 && j == 0;
      }
    }
  }

  /** Two arcs from the start, one after the other. */
  lemma TwoSteps<W>(f: Fst<W>, i: nat, j: nat)
    requires Valid(f) && f.start == 0 && i < |f.states[0].arcs|
    requires j < |f.states[f.states[0].arcs[i].nextstate].arcs|
    ensures var a := f.states[0].arcs[i]; var b := f.states[a.nextstate].arcs[j];
      IsPath(f, 0, [i, j]) && ILabels(f, 0, [i, j]) == [a.ilabel, b.ilabel] && PathEnd(f, 0, [i, j]) == b.nextstate
  {
    var a := f.states[0].arcs[i];
    assert [i, j][1..] == [j] && [j][1..] == [];
    assert PathEnd(f, a.nextstate, [j]) == f.states[a.nextstate].arcs[j].nextstate;
  }

  /** Two states that two arcs each lead to, with the same labels. */
  lemma CoreachableInTwo<W>(f: Fst<W>, i: nat, j: nat)
    requires Valid(f) && f.start == 0 && i < |f.states[0].arcs| && j < |f.states[0].arcs|
    requires f.states[0].arcs[i].ilabel == f.states[0].arcs[j].ilabel
    requires var s, t := f.states[0].arcs[i].nextstate, f.states[0].arcs[j].nextstate;
      f.states[s].arcs != [] && f.states[t].arcs != [] && f.states[s].arcs[0].ilabel == f.states[t].arcs[0].ilabel
    ensures var s, t := f.states[0].arcs[i].nextstate, f.states[0].arcs[j].nextstate;
      CoreachableBy(f, [i, 0], [j, 0], f.states[s].arcs[0].nextstate, f.states[t].arcs[0].nextstate)
  {
    TwoSteps(f, i, 0);
    TwoSteps(f, j, 0);
  }

  lemma SplitsOfExample<W>(k: Semiring<W>)
    ensures var R := FoundSplits(SplitFst(k), SPLIT_HEADS);
      (3, 4) in R && (7, 9) in R && (8, 10) in R && !SplitFree(SplitFst(k), SPLIT_HEADS)
  {
    var f := SplitFst(k);
    FoundInTwo(k, 0, 1);
    FoundInTwo(k, 2, 3);
    FoundInTwo(k, 4, 5);
    assert SplitPair(SPLIT_HEADS, (3, 4)) && Coreachable(f, 3, 4);
  }

  lemma FoundInTwo<W>(k: Semiring<W>, i: nat, j: nat)
    requires (i, j) in {(0, 1), (2, 3), (4, 5)}
    ensures var f := SplitFst(k);
      var s, t := f.states[0].arcs[i].nextstate, f.states[0].arcs[j].nextstate;
      Found(f, SPLIT_HEADS, f.states[s].arcs[0].nextstate, f.states[t].arcs[0].nextstate)
  {
    var f := SplitFst(k);
    var s, t := f.states[0].arcs[i].nextstate, f.states[0].arcs[j].nextstate;
    CoreachableInTwo(f, i, j);
    assert [i, 0][1..] == [0] && [j, 0][1..] == [0] && [0][1..] == [];
    assert !SplitPair(SPLIT_HEADS, (0, 0)) && !SplitPair(SPLIT_HEADS, (s, t));
    assert Unsplit(f, SPLIT_HEADS, s, t, [0], [0]);
    assert FoundBy(f, SPLIT_HEADS, [i, 0], [j, 0], f.states[s].arcs[0].nextstate, f.states[t].arcs[0].nextstate);
  }

  /** 7 and 8 stay in different classes: no split pair found has one of 7 and 9 without the other. */
  lemma ClassesApart<W>(k: Semiring<W>, sets: Forest)
    requires MergesHeads(SPLIT_HEADS, sets) && Joins(sets, FoundSplits(SplitFst(k), SPLIT_HEADS))
    ensures Rep(sets, 7) != Rep(sets, 8)
  {
    var f, P := SplitFst(k), iset{7, 9};
    var R := FoundSplits(f, SPLIT_HEADS);
    forall p: (nat, nat) | p in R ensures p.0 in P <==> p.1 in P {
      TogetherClosed(k);
      FoundWithin(f, SPLIT_HEADS, TogetherPairs(), p.0, p.1);
      assert Together(p.0, p.1);
    }
    assert KeepsTogether(R, P);
    assert UnionOfClasses(sets, P);
    assert SameClass(sets, 7, 8) ==> (7 in P <==> 8 in P);
  }

  lemma ArcLed<W>(k: Semiring<W>, sets: Forest, f: Fst<W>, st: nat, i: nat)
    requires ValidForest(sets) && SplitsMerged(SplitFst(k), sets, f) && st < 11 && i < |SplitFst(k).states[st].arcs|
    ensures |f.states| == 11 && |f.states[st].arcs| == |SplitFst(k).states[st].arcs|
    ensures var arc := SplitFst(k).states[st].arcs[i];
      f.states[st].arcs[i] == arc.(nextstate := Rep(sets, arc.nextstate))
  {
    assert StateMerged(SplitFst(k).states[st], sets, f.states[st]);
  }

  /** If arc i of the start leads to s and arc j to t, with one label, then the successors of s and t are split. */
  lemma SplitBehind<W>(k: Semiring<W>, f: Fst<W>, i: nat, j: nat, s: nat, t: nat, a: nat, b: nat)
    requires Valid(f) && f.start == 0 && |f.states| == 11 && i < |f.states[0].arcs| && j < |f.states[0].arcs|
    requires f.states[0].arcs[i].ilabel == f.states[0].arcs[j].ilabel
    requires f.states[0].arcs[i].nextstate == s && f.states[0].arcs[j].nextstate == t
    requires f.states[s].arcs != [] && f.states[s].arcs[0] == Arc(1, 1, k.One, a)
    requires f.states[t].arcs != [] && f.states[t].arcs[0] == Arc(1, 1, k.One, b)
    requires SplitPair(SPLIT_HEADS, (a, b))
    ensures !SplitFree(f, SPLIT_HEADS)
  {
    CoreachableInTwo(f, i, j);
    assert Coreachable(f, a, b);
  }

  lemma SplitBehind6<W>(k: Semiring<W>, sets: Forest, f: Fst<W>)
    requires MergesHeads(SPLIT_HEADS, sets) && SplitsMerged(SplitFst(k), sets, f) && Valid(f)
    requires Rep(sets, 4) == 3 && Rep(sets, 3) == 3 && Rep(sets, 6) == 6 && Rep(sets, 10) == Rep(sets, 8)
    requires SplitPair(SPLIT_HEADS, (Rep(sets, 7), Rep(sets, 8)))
    ensures !SplitFree(f, SPLIT_HEADS)
  {
    ArcLed(k, sets, f, 0, 4);
    ArcLed(k, sets, f, 0, 5);
    ArcLed(k, sets, f, 3, 0);
    ArcLed(k, sets, f, 6, 0);
    SplitBehind(k, f, 4, 5, 3, 6, Rep(sets, 7), Rep(sets, 8));
  }

  lemma SplitBehind5<W>(k: Semiring<W>, sets: Forest, f: Fst<W>)
    requires MergesHeads(SPLIT_HEADS, sets) && SplitsMerged(SplitFst(k), sets, f) && Valid(f)
    requires Rep(sets, 3) == 4 && Rep(sets, 4) == 4 && Rep(sets, 5) == 5 && Rep(sets, 9) == Rep(sets, 7)
    requires SplitPair(SPLIT_HEADS, (Rep(sets, 7), Rep(sets, 8)))
    ensures !SplitFree(f, SPLIT_HEADS)
  {
    ArcLed(k, sets, f, 0, 3);
    ArcLed(k, sets, f, 0, 2);
    ArcLed(k, sets, f, 5, 0);
    ArcLed(k, sets, f, 4, 0);
    SplitBehind(k, f, 3, 2, 5, 4, Rep(sets, 7), Rep(sets, 8));
  }

  /** Whichever of 3 and 4 stands for both, its successor and that of 6 or of 5 have the same head, are reached with
      the same labels, and have not been merged. */
  lemma SplitIsLeft<W>(k: Semiring<W>, f: Fst<W>)
    requires MergedInto(SplitFst(k), SPLIT_HEADS, f) && Valid(f)
    ensures !SplitFree(f, SPLIT_HEADS)
  {
    var R := FoundSplits(SplitFst(k), SPLIT_HEADS);
    var sets :| MergesHeads(SPLIT_HEADS, sets) && Joins(sets, R) && SplitsMerged(SplitFst(k), sets, f);
    SplitsOfExample(k);
    ClassesApart(k, sets);
    RepsOfExample(sets, R);
    if Rep(sets, 3) == 3 {
      SplitBehind6(k, sets, f);
    } else {
      SplitBehind5(k, sets, f);
    }
  }

  lemma RepsOfExample(sets: Forest, R: iset<(nat, nat)>)
    requires MergesHeads(SPLIT_HEADS, sets) && Joins(sets, R) && (3, 4) in R && (7, 9) in R && (8, 10) in R
    ensures Rep(sets, 3) == Rep(sets, 4) && 3 <= Rep(sets, 3) <= 4 && Rep(sets, 5) == 5 && Rep(sets, 6) == 6
    ensures Rep(sets, 7) == Rep(sets, 9) && Rep(sets, 8) == Rep(sets, 10)
    ensures 7 <= Rep(sets, 7) <= 10 && 7 <= Rep(sets, 8) <= 10
  {
    var p, q, r := (3, 4), (7, 9), (8, 10);
    assert SameClass(sets, p.0, p.1) && SameClass(sets, q.0, q.1) && SameClass(sets, r.0, r.1);
    assert forall s :: 3 <= s <= 8 ==> Rep(sets, s) < 11 && SPLIT_HEADS[Rep(sets, s)] == SPLIT_HEADS[s];
  }

  /** On this transducer, whose arcs with one label lead to different heads, an error is reported. */
  method MergingLeavesSplit<W(==, !new)>(k: Semiring<W>) returns (error: bool)
    ensures HeadsApart(SplitFst(k), SPLIT_HEADS) && error
  {
    var ofst := new VectorFst(SplitFst(k));
    var d := new Disambiguator(SPLIT_HEADS);
    ghost var f, marked := d.Disambiguate(k, ofst);
    SplitFstApart(k);
    SplitsOfExample(k);
    SplitIsLeft(k, f);
    error := d.error;
  }
}
