/** The search for ambiguous transitions, their marking and their removal. */
module Disambiguators {
  import opened Semirings
  import opened Fsts
  import opened ComposeFilters
  import opened Compose
  import opened ComposeFsts
  import opened Connects
  import opened VectorFsts
  import opened UnionFinds
  import opened Disambiguate
  import opened Sequences

  // ---- The arc labels of the predisambiguation

  ghost predicate SortedArcs<W>(arcs: seq<Arc<W>>) {
    forall i, j :: 0 <= i < j < |arcs| ==>
      arcs[i].ilabel < arcs[j].ilabel || (arcs[i].ilabel == arcs[j].ilabel && arcs[i].nextstate <= arcs[j].nextstate)
  }

  /** The labels and destinations of sorted arcs, each pair once. */
  method InitLabelMap<W>(arcs: seq<Arc<W>>) returns (pairs: seq<(int, nat)>)
    requires SortedArcs(arcs) && forall i :: 0 <= i < |arcs| ==> 0 <= arcs[i].ilabel
    ensures Distinct(pairs)
    ensures forall p :: p in pairs <==> exists i :: 0 <= i < |arcs| && p == (arcs[i].ilabel, arcs[i].nextstate)
  {
    pairs := [];
    var lbl, nextstate := NO_LABEL, NO_STATE_ID;
    for n := 0 to |arcs|
      invariant Distinct(pairs)
      invariant forall p :: p in pairs <==> exists i :: 0 <= i < n && p == (arcs[i].ilabel, arcs[i].nextstate)
      invariant if n == 0 then lbl == NO_LABEL else lbl == arcs[n - 1].ilabel && nextstate == arcs[n - 1].nextstate
    {
      var arc := arcs[n];
      if arc.ilabel == lbl && arc.nextstate == nextstate {
        continue;
      }
      assert (arc.ilabel, arc.nextstate) !in pairs by {
        if i :| 0 <= i < n && (arc.ilabel, arc.nextstate) == (arcs[i].ilabel, arcs[i].nextstate) {
          assert false;
        }
      }
      pairs := pairs + [(arc.ilabel, arc.nextstate)];
      lbl, nextstate := arc.ilabel, arc.nextstate;
    }
  }

  /** Each arc comes from an entry of its own: the entry's label, into a state whose head is the entry's. */
  ghost predicate ArcsFromEntries<W>(arcs: seq<Arc<W>>, head: seq<int>, pairs: seq<(int, nat)>, entry: seq<nat>) {
    && |entry| == |arcs| && Distinct(entry)
    && forall i :: 0 <= i < |arcs| ==>
      && entry[i] < |pairs| && arcs[i].nextstate < |head|
      && (arcs[i].ilabel, head[arcs[i].nextstate]) == (pairs[entry[i]].0, pairs[entry[i]].1 as int)
  }

  /** As the entries are pairwise different, arcs with one label lead to states with different heads. */
  lemma EntriesMakeHeadsApart<W>(arcs: seq<Arc<W>>, head: seq<int>, pairs: seq<(int, nat)>, entry: seq<nat>)
    requires Distinct(pairs) && ArcsFromEntries(arcs, head, pairs, entry)
    ensures ArcsApart(arcs, head)
  {
    forall i, j | 0 <= i < j < |arcs| && arcs[i].ilabel == arcs[j].ilabel
      ensures head[arcs[i].nextstate] != head[arcs[j].nextstate]
    {
      assert entry[i] != entry[j];
      assert pairs[entry[i]] != pairs[entry[j]];
    }
  }

  /** The arcs the predisambiguation gives a state: one for each entry of the label map of its head, with the weight
      computed for the entry, and into a state whose head is the entry's. */
  method ArcsOfHead<W>(arcs: seq<Arc<W>>, head: seq<int>, weight: (int, nat) -> W, dest: (int, nat) -> nat)
    returns (out: seq<Arc<W>>)
    requires SortedArcs(arcs) && forall i :: 0 <= i < |arcs| ==> 0 <= arcs[i].ilabel
    requires forall i :: 0 <= i < |arcs| ==>
      var d := dest(arcs[i].ilabel, arcs[i].nextstate); d < |head| && head[d] == arcs[i].nextstate
    ensures ArcsApart(out, head)
    ensures forall a :: a in out <==> exists i :: 0 <= i < |arcs| && a == EntryArc(arcs[i], weight, dest)
  {
    var pairs := InitLabelMap(arcs);
    ghost var entry: seq<nat> := [];
    out := [];
    for n := 0 to |pairs|
      invariant |entry| == |out| == n
      invariant forall i :: 0 <= i < n ==> entry[i] == i && out[i] == PairArc(pairs[i], weight, dest)
    {
      out, entry := out + [PairArc(pairs[n], weight, dest)], entry + [n];
    }
    forall i | 0 <= i < |out| ensures out[i].nextstate < |head| && head[out[i].nextstate] == pairs[i].1 {
      assert pairs[i] in pairs;
    }
    EntriesMakeHeadsApart(out, head, pairs, entry);
    forall a ensures a in out <==> exists i :: 0 <= i < |arcs| && a == EntryArc(arcs[i], weight, dest) {
      if a in out {
        var n :| 0 <= n < |out| && out[n] == a;
        assert pairs[n] in pairs;
      }
      if i :| 0 <= i < |arcs| && a == EntryArc(arcs[i], weight, dest) {
        assert (arcs[i].ilabel, arcs[i].nextstate) in pairs;
        var n :| 0 <= n < |pairs| && pairs[n] == (arcs[i].ilabel, arcs[i].nextstate);
        assert out[n] == a;
      }
    }
  }

  function PairArc<W>(pair: (int, nat), weight: (int, nat) -> W, dest: (int, nat) -> nat): Arc<W> {
    Arc(pair.0, pair.0, weight(pair.0, pair.1), dest(pair.0, pair.1))
  }

  function EntryArc<W>(arc: Arc<W>, weight: (int, nat) -> W, dest: (int, nat) -> nat): Arc<W> {
    PairArc((arc.ilabel, arc.nextstate), weight, dest)
  }

  // ---- The candidates, in order

  /** The order of the candidates' keys: head of the source, source, position. */
  predicate Less(head: seq<int>, a: ArcId, b: ArcId)
    requires a.0 < |head| && b.0 < |head|
  {
    if head[a.0] != head[b.0] then head[a.0] < head[b.0]
    else if a.0 != b.0 then a.0 < b.0
    else a.1 < b.1
  }

  ghost predicate SourcesInRange(head: seq<int>, cands: seq<(ArcId, ArcId)>) {
    forall c :: c in cands ==> c.0.0 < |head| && c.1.0 < |head|
  }

  ghost predicate KeySorted(head: seq<int>, cands: seq<(ArcId, ArcId)>)
    requires SourcesInRange(head, cands)
  {
    forall i, j :: 0 <= i < j < |cands| ==> !Less(head, cands[j].0, cands[i].0)
  }

  lemma InsertKeepsSorted(head: seq<int>, cands: seq<(ArcId, ArcId)>, n: nat, c: (ArcId, ArcId))
    requires SourcesInRange(head, cands) && KeySorted(head, cands) && c.0.0 < |head| && c.1.0 < |head| && n <= |cands|
    requires forall j :: n <= j < |cands| ==> Less(head, c.0, cands[j].0)
    requires n > 0 ==> !Less(head, c.0, cands[n - 1].0)
    ensures SourcesInRange(head, InsertAt(cands, n, c)) && KeySorted(head, InsertAt(cands, n, c))
  {
    var cands' := InsertAt(cands, n, c);
    assert SourcesInRange(head, cands') by {
      InsertedElements(cands, n, c);
    }
    forall i, j | 0 <= i < j < |cands'| ensures !Less(head, cands'[j].0, cands'[i].0) {
      if i < n && j == n {
        LessTransitive(head, c.0, cands[i].0, cands[n - 1].0);
      }
    }
  }

  lemma InsertedInOrder(head: seq<int>, cands: seq<(ArcId, ArcId)>, n: nat, c: (ArcId, ArcId))
    requires SourcesInRange(head, cands) && KeySorted(head, cands) && c.0.0 < |head| && c.1.0 < |head| && n <= |cands|
    requires forall j :: n <= j < |cands| ==> Less(head, c.0, cands[j].0)
    requires n > 0 ==> !Less(head, c.0, cands[n - 1].0)
    ensures SourcesInRange(head, InsertAt(cands, n, c)) && KeySorted(head, InsertAt(cands, n, c))
    ensures forall d :: d in InsertAt(cands, n, c) <==> d in cands || d == c
    ensures multiset(InsertAt(cands, n, c)) == multiset(cands) + multiset{c}
  {
    InsertKeepsSorted(head, cands, n, c);
    InsertedElements(cands, n, c);
  }

  lemma LessTransitive(head: seq<int>, a: ArcId, b: ArcId, c: ArcId)
    requires a.0 < |head| && b.0 < |head| && c.0 < |head|
    ensures Less(head, a, b) && !Less(head, c, b) ==> Less(head, a, c)
  {
  }

  // ---- What the search keeps

  ghost predicate PairSound<W>(f: Fst<W>, head: seq<int>, merging: bool, pr: (nat, nat))
    requires Valid(f) && 0 <= f.start && |head| == |f.states|
  {
    && pr.0 <= pr.1 < |f.states| && Found(f, head, pr.0, pr.1)
    && (SplitPair(head, pr) ==> merging)
  }

  ghost predicate SearchSound<W>(k: Semiring<W>, f: Fst<W>, head: seq<int>, core: set<(nat, nat)>,
                                 queue: seq<(nat, nat)>, cands: seq<(ArcId, ArcId)>, merging: bool)
    requires Valid(f) && 0 <= f.start && |head| == |f.states|
  {
    && (forall pr :: pr in core ==> PairSound(f, head, merging, pr))
    && (merging ==> exists pr :: pr in core && SplitPair(head, pr))
    && (forall pr :: pr in queue ==> pr in core && !SplitPair(head, pr))
    && (forall c :: c in cands ==> IsCandidate(k, f, head, c))
    && SourcesInRange(head, cands) && KeySorted(head, cands)
  }

  /** The split pairs among those found. */
  ghost function SplitsIn(head: seq<int>, core: set<(nat, nat)>): iset<(nat, nat)> {
    iset pr | pr in core && SplitPair(head, pr)
  }

  lemma SplitsInAdd(head: seq<int>, core: set<(nat, nat)>, pr: (nat, nat))
    ensures SplitsIn(head, core + {pr})
      == if SplitPair(head, pr) then SplitsIn(head, core) + iset{pr} else SplitsIn(head, core)
  {
  }

  lemma SearchSoundAdd<W>(
    k: Semiring<W>, f: Fst<W>, head: seq<int>, core: set<(nat, nat)>, queue: seq<(nat, nat)>,
    cands: seq<(ArcId, ArcId)>, merging: bool, pr: (nat, nat)
  )
    requires Valid(f) && 0 <= f.start && |head| == |f.states| && SearchSound(k, f, head, core, queue, cands, merging)
    requires pr.0 <= pr.1 < |f.states| && Found(f, head, pr.0, pr.1)
    ensures SearchSound(k, f, head, core + {pr}, if SplitPair(head, pr) then queue else queue + [pr], cands,
                        merging || SplitPair(head, pr))
  {
    forall p | p in core + {pr} ensures PairSound(f, head, merging || SplitPair(head, pr), p) {
      assert p in core ==> PairSound(f, head, merging, p);
    }
    assert pr in core + {pr};
    if merging {
      var p :| p in core && SplitPair(head, p);
      assert p in core + {pr};
    }
  }

  /** The sets have grown; new pairs are queued unless they are to be merged. */
  ghost predicate Grown(head: seq<int>, core: set<(nat, nat)>, queue: seq<(nat, nat)>, cands: seq<(ArcId, ArcId)>,
                        core': set<(nat, nat)>, queue': seq<(nat, nat)>, cands': seq<(ArcId, ArcId)>) {
    && core <= core' && queue <= queue' && (forall c :: c in cands ==> c in cands')
    && (forall pr :: pr in core' && pr !in core ==> pr in queue' || SplitPair(head, pr))
    && (core' == core ==> queue' == queue)
  }

  lemma GrownAdd(
    head: seq<int>, core: set<(nat, nat)>, queue: seq<(nat, nat)>, cands: seq<(ArcId, ArcId)>, pr: (nat, nat)
  )
    requires pr !in core
    ensures Grown(head, core, queue, cands, core + {pr}, if SplitPair(head, pr) then queue else queue + [pr], cands)
  {
    assert pr in core + {pr};
  }

  lemma GrownPairDone<W>(
    k: Semiring<W>, f: Fst<W>, head: seq<int>, core: set<(nat, nat)>, queue: seq<(nat, nat)>,
    cands: seq<(ArcId, ArcId)>, core': set<(nat, nat)>, queue': seq<(nat, nat)>, cands': seq<(ArcId, ArcId)>, s: nat,
    t: nat
  )
    requires s < |f.states| && t < |f.states| && |head| == |f.states|
    requires Grown(head, core, queue, cands, core', queue', cands') && PairDone(k, f, head, core, cands, s, t)
    ensures PairDone(k, f, head, core', cands', s, t)
  {
    forall i, j ensures ArcPairDone(f, head, core', cands', s, t, i, j) {
      assert ArcPairDone(f, head, core, cands, s, t, i, j);
    }
  }

  /** Every pair found is waiting, to be merged, or done with. */
  ghost predicate Accounted<W>(
    k: Semiring<W>, f: Fst<W>, head: seq<int>, core: set<(nat, nat)>, queue: seq<(nat, nat)>, cands: seq<(ArcId, ArcId)>
  )
    requires |head| == |f.states|
  {
    forall pr :: pr in core ==> PairAccounted(k, f, head, core, queue, cands, pr)
  }

  ghost predicate PairAccounted<W>(
    k: Semiring<W>, f: Fst<W>, head: seq<int>, core: set<(nat, nat)>, queue: seq<(nat, nat)>,
    cands: seq<(ArcId, ArcId)>, pr: (nat, nat)
  )
    requires |head| == |f.states|
  {
    && pr.0 < |f.states| && pr.1 < |f.states|
    && (pr in queue || SplitPair(head, pr) || PairDone(k, f, head, core, cands, pr.0, pr.1))
  }

  /** Working off the front pair keeps every pair accounted for. */
  lemma AccountedStep<W>(
    k: Semiring<W>, f: Fst<W>, head: seq<int>, core: set<(nat, nat)>, queue: seq<(nat, nat)>,
    cands: seq<(ArcId, ArcId)>, core': set<(nat, nat)>, queue': seq<(nat, nat)>, cands': seq<(ArcId, ArcId)>
  )
    requires |head| == |f.states| && queue != [] && Accounted(k, f, head, core, queue, cands)
    requires Grown(head, core, queue[1..], cands, core', queue', cands')
    requires forall pr :: pr in core' ==> pr.0 < |f.states| && pr.1 < |f.states|
    requires queue[0] in core && PairDone(k, f, head, core', cands', queue[0].0, queue[0].1)
    ensures Accounted(k, f, head, core', queue', cands')
  {
    forall pr | pr in core' ensures PairAccounted(k, f, head, core', queue', cands', pr) {
      if pr in core {
        assert PairAccounted(k, f, head, core, queue, cands, pr);
        if PairDone(k, f, head, core, cands, pr.0, pr.1) {
          GrownPairDone(k, f, head, core, queue[1..], cands, core', queue', cands', pr.0, pr.1);
        } else if pr in queue {
          assert pr == queue[0] || pr in queue[1..];
        }
      }
    }
  }

  lemma AccountedComplete<W>(
    k: Semiring<W>, f: Fst<W>, head: seq<int>, core: set<(nat, nat)>, cands: seq<(ArcId, ArcId)>
  )
    requires Valid(f) && 0 <= f.start && |head| == |f.states| && (f.start, f.start) in core
    requires SearchSound(k, f, head, core, [], cands, false) && Accounted(k, f, head, core, [], cands)
    ensures SearchComplete(k, f, head, core, cands)
  {
    forall s: nat, t: nat | Ordered(s, t) in core ensures Visited(k, f, head, core, cands, s, t) {
      assert PairAccounted(k, f, head, core, [], cands, Ordered(s, t));
      assert PairSound(f, head, false, Ordered(s, t));
    }
  }

  /** A search in which every pair is accounted for gets along any paths that are not split before their end. */
  lemma {:induction false} FoundInCore<W>(
    k: Semiring<W>, f: Fst<W>, head: seq<int>, core: set<(nat, nat)>, cands: seq<(ArcId, ArcId)>,
    s: nat, t: nat, p: seq<nat>, q: seq<nat>
  )
    requires Valid(f) && |head| == |f.states| && Accounted(k, f, head, core, [], cands)
    requires Ordered(s, t) in core && s < |f.states| && t < |f.states|
    requires IsPath(f, s, p) && IsPath(f, t, q) && ILabels(f, s, p) == ILabels(f, t, q) && |p| == |q|
    requires Unsplit(f, head, s, t, p, q)
    ensures Ordered(PathEnd(f, s, p), PathEnd(f, t, q)) in core
    decreases |p|
  {
    if p != [] {
      SameRest(f, s, t, p, q);
      assert PairAccounted(k, f, head, core, [], cands, Ordered(s, t));
      assert Visited(k, f, head, core, cands, s, t);
      VisitedArcs(k, f, head, core, cands, s, t, p[0], q[0]);
      FoundInCore(k, f, head, core, cands,
                  f.states[s].arcs[p[0]].nextstate, f.states[t].arcs[q[0]].nextstate, p[1..], q[1..]);
    }
  }

  /** At the end of a search the split pairs are exactly those to be found, and there are none exactly when no
      coreachable states have the same head. */
  lemma SplitsFound<W>(
    k: Semiring<W>, f: Fst<W>, head: seq<int>, core: set<(nat, nat)>, cands: seq<(ArcId, ArcId)>, merging: bool
  )
    requires Valid(f) && 0 <= f.start && |head| == |f.states| && (f.start, f.start) in core
    requires SearchSound(k, f, head, core, [], cands, merging) && Accounted(k, f, head, core, [], cands)
    ensures SplitsIn(head, core) == FoundSplits(f, head)
    ensures merging <==> !SplitFree(f, head)
  {
    forall pr ensures pr in SplitsIn(head, core) <==> pr in FoundSplits(f, head) {
      if pr in core {
        assert PairSound(f, head, merging, pr);
      }
      if pr in FoundSplits(f, head) {
        var p, q :| FoundBy(f, head, p, q, pr.0, pr.1);
        assert Ordered(f.start, f.start) in core;
        FoundInCore(k, f, head, core, cands, f.start, f.start, p, q);
      }
    }
    if merging {
      var pr :| pr in core && SplitPair(head, pr);
      assert PairSound(f, head, merging, pr);
      assert Coreachable(f, pr.0, pr.1) && SplitPair(head, (pr.0, pr.1));
    } else {
      AccountedComplete(k, f, head, core, cands);
      forall s, t | Coreachable(f, s, t) ensures !SplitPair(head, (s, t)) {
        var p, q :| CoreachableBy(f, p, q, s, t);
        assert Ordered(f.start, f.start) in core;
        CoreachableFound(k, f, head, core, cands, f.start, f.start, p, q);
        assert Visited(k, f, head, core, cands, s, t);
      }
    }
  }

  ghost predicate RowDone<W>(
    f: Fst<W>, head: seq<int>, core: set<(nat, nat)>, cands: seq<(ArcId, ArcId)>, s: nat, t: nat, i: nat
  )
    requires s < |f.states| && t < |f.states| && |head| == |f.states|
  {
    forall j {:trigger ArcPairDone(f, head, core, cands, s, t, i, j)} :: ArcPairDone(f, head, core, cands, s, t, i, j)
  }

  ghost predicate RowsDone<W>(
    f: Fst<W>, head: seq<int>, core: set<(nat, nat)>, cands: seq<(ArcId, ArcId)>, s: nat, t: nat, n: nat
  )
    requires s < |f.states| && t < |f.states| && |head| == |f.states|
  {
    forall i {:trigger RowDone(f, head, core, cands, s, t, i)} :: 0 <= i < n ==> RowDone(f, head, core, cands, s, t, i)
  }

  ghost predicate SidesDone<W>(
    f: Fst<W>, head: seq<int>, core: set<(nat, nat)>, cands: seq<(ArcId, ArcId)>, s: nat, t: nat, i: nat,
    sides: seq<Side>
  )
    requires s < |f.states| && t < |f.states| && |head| == |f.states|
  {
    forall side :: side in sides && side != Stay ==> ArcPairDone(f, head, core, cands, s, t, i, side.arc)
  }

  lemma GrownSides<W>(
    f: Fst<W>, head: seq<int>, core: set<(nat, nat)>, queue: seq<(nat, nat)>, cands: seq<(ArcId, ArcId)>,
    core': set<(nat, nat)>, queue': seq<(nat, nat)>, cands': seq<(ArcId, ArcId)>, s: nat, t: nat, i: nat,
    sides: seq<Side>
  )
    requires s < |f.states| && t < |f.states| && |head| == |f.states|
    requires Grown(head, core, queue, cands, core', queue', cands') && SidesDone(f, head, core, cands, s, t, i, sides)
    ensures SidesDone(f, head, core', cands', s, t, i, sides)
  {
  }

  lemma GrownRows<W>(
    f: Fst<W>, head: seq<int>, core: set<(nat, nat)>, queue: seq<(nat, nat)>, cands: seq<(ArcId, ArcId)>,
    core': set<(nat, nat)>, queue': seq<(nat, nat)>, cands': seq<(ArcId, ArcId)>, s: nat, t: nat, n: nat
  )
    requires s < |f.states| && t < |f.states| && |head| == |f.states|
    requires Grown(head, core, queue, cands, core', queue', cands') && RowsDone(f, head, core, cands, s, t, n)
    ensures RowsDone(f, head, core', cands', s, t, n)
  {
    forall i | 0 <= i < n ensures RowDone(f, head, core', cands', s, t, i) {
      assert RowDone(f, head, core, cands, s, t, i);
      forall j ensures ArcPairDone(f, head, core', cands', s, t, i, j) {
        assert ArcPairDone(f, head, core, cands, s, t, i, j);
      }
    }
  }

  lemma SidesAreRow<W>(
    f: Fst<W>, head: seq<int>, core: set<(nat, nat)>, cands: seq<(ArcId, ArcId)>, s: nat, t: nat, i: nat,
    sides: seq<Side>
  )
    requires s < |f.states| && t < |f.states| && |head| == |f.states| && i < |f.states[s].arcs|
    requires forall side :: side in sides <==> Answers(f.states[t], f.states[s].arcs[i].ilabel, true, side)
    requires Valid(f) && SidesDone(f, head, core, cands, s, t, i, sides)
    ensures RowDone(f, head, core, cands, s, t, i)
  {
    forall j: nat ensures ArcPairDone(f, head, core, cands, s, t, i, j) {
      if j < |f.states[t].arcs| && f.states[s].arcs[i].ilabel == f.states[t].arcs[j].ilabel {
        assert Take(j) in sides;
      }
    }
  }

  lemma RowsArePair<W>(
    k: Semiring<W>, f: Fst<W>, head: seq<int>, core: set<(nat, nat)>, cands: seq<(ArcId, ArcId)>, s: nat, t: nat
  )
    requires s < |f.states| && t < |f.states| && |head| == |f.states|
    requires RowsDone(f, head, core, cands, s, t, |f.states[s].arcs|) && FinalsDone(k, f, head, cands, s, t)
    ensures PairDone(k, f, head, core, cands, s, t)
  {
    forall i: nat, j: nat ensures ArcPairDone(f, head, core, cands, s, t, i, j) {
      if i < |f.states[s].arcs| {
        assert RowDone(f, head, core, cands, s, t, i);
      }
    }
  }

  // ---- Merging

  /** Every state has a class, of states with the same head. */
  ghost predicate MergesHeads(head: seq<int>, sets: Forest) {
    ValidForest(sets) && forall a: nat {:trigger Rep(sets, a)} :: a < |head| ==>
      HasSet(sets, a) && Rep(sets, a) < |head| && head[Rep(sets, a)] == head[a]
  }

  lemma UnionMergesHeads(head: seq<int>, sets: Forest, sets': Forest, a: nat, b: nat)
    requires MergesHeads(head, sets) && a < |head| && b < |head| && head[a] == head[b]
    requires Merged(sets, sets', Rep(sets, a), Rep(sets, b))
    ensures MergesHeads(head, sets')
  {
    forall x: nat | x < |head| ensures HasSet(sets', x) && Rep(sets', x) < |head| && head[Rep(sets', x)] == head[x] {
      assert Rep(sets, x) < |head| && Rep(sets, a) < |head| && Rep(sets, b) < |head|;
    }
  }

  /** f' is f with every arc led to the representative of its destination. */
  ghost predicate SplitsMerged<W>(f: Fst<W>, sets: Forest, f': Fst<W>)
    requires ValidForest(sets)
  {
    && f'.start == f.start && |f'.states| == |f.states|
    && forall s :: 0 <= s < |f.states| ==> StateMerged(f.states[s], sets, f'.states[s])
  }

  ghost predicate StateMerged<W>(st: State<W>, sets: Forest, st': State<W>)
    requires ValidForest(sets)
  {
    st'.final == st.final && ArcsMerged(st.arcs, sets, st'.arcs, |st.arcs|)
  }

  /** The first i arcs are led to representatives, the others are as before. */
  ghost predicate ArcsMerged<W>(arcs: seq<Arc<W>>, sets: Forest, arcs': seq<Arc<W>>, i: nat)
    requires ValidForest(sets)
  {
    && |arcs'| == |arcs|
    && forall j :: 0 <= j < |arcs| ==>
      arcs'[j] == if j < i then arcs[j].(nextstate := Rep(sets, arcs[j].nextstate)) else arcs[j]
  }

  /** f' is f with the split pairs found merged, and with them only those states that this joins. */
  ghost predicate MergedInto<W>(f: Fst<W>, head: seq<int>, f': Fst<W>)
    requires Valid(f)
  {
    exists sets :: MergesHeads(head, sets) && Joins(sets, FoundSplits(f, head)) && SplitsMerged(f, sets, f')
  }

  /** Merging keeps heads, so arcs that lead to different heads still do. */
  lemma MergedHeadsApart<W>(f: Fst<W>, head: seq<int>, f': Fst<W>)
    requires Valid(f) && |head| == |f.states| && HeadsApart(f, head) && MergedInto(f, head, f')
    ensures HeadsApart(f', head)
  {
    var sets :| MergesHeads(head, sets) && Joins(sets, FoundSplits(f, head)) && SplitsMerged(f, sets, f');
    forall s | 0 <= s < |f'.states| ensures ArcsApart(f'.states[s].arcs, head) {
      var arcs, arcs' := f.states[s].arcs, f'.states[s].arcs;
      assert StateMerged(f.states[s], sets, f'.states[s]) && ArcsApart(arcs, head);
      forall i | 0 <= i < |arcs'|
        ensures arcs'[i].nextstate < |head| && head[arcs'[i].nextstate] == head[arcs[i].nextstate]
        ensures arcs'[i].ilabel == arcs[i].ilabel
      {
        assert Rep(sets, arcs[i].nextstate) < |head|;
      }
    }
  }

  lemma ApartStaysApart<W>(f: Fst<W>, head: seq<int>, f': Fst<W>)
    requires Valid(f) && |head| == |f.states| && HeadsApart(f, head) && (f' == f || MergedInto(f, head, f'))
    ensures NoMultiArcs(f')
  {
    if f' != f {
      MergedHeadsApart(f, head, f');
    }
    ApartIsNoMultiArcs(f', head);
  }

  lemma SameSetsMerged<W>(st: State<W>, sets: Forest, sets': Forest, st': State<W>)
    requires SameSets(sets, sets') && StateMerged(st, sets', st')
    ensures StateMerged(st, sets, st')
  {
    forall j | 0 <= j < |st.arcs| ensures st'.arcs[j] == st.arcs[j].(nextstate := Rep(sets, st.arcs[j].nextstate)) {
      assert Rep(sets', st.arcs[j].nextstate) == Rep(sets, st.arcs[j].nextstate);
    }
  }

  lemma SameSetsMergesHeads(head: seq<int>, sets: Forest, sets': Forest)
    requires SameSets(sets, sets') && MergesHeads(head, sets) && forall x: nat :: HasSet(sets, x) ==> HasSet(sets', x)
    ensures MergesHeads(head, sets')
  {
    forall x: nat | x < |head| ensures HasSet(sets', x) && Rep(sets', x) < |head| && head[Rep(sets', x)] == head[x] {
      assert Rep(sets', x) == Rep(sets, x);
    }
  }

  lemma MergedValid<W>(head: seq<int>, f: Fst<W>, sets: Forest, f': Fst<W>)
    requires Valid(f) && |head| == |f.states| && MergesHeads(head, sets) && SplitsMerged(f, sets, f')
    ensures Valid(f')
  {
    forall s | 0 <= s < |f'.states| ensures ValidArcs(f'.states[s].arcs, |f'.states|) {
      assert StateMerged(f.states[s], sets, f'.states[s]);
      forall i | 0 <= i < |f'.states[s].arcs|
        ensures var a := f'.states[s].arcs[i]; a.nextstate < |f'.states| && 0 <= a.ilabel && 0 <= a.olabel
      {
        assert Rep(sets, f.states[s].arcs[i].nextstate) < |head|;
      }
    }
  }

  /** The classes of the union-find object are joined by the pairs; without pairs there is no object. */
  ghost predicate MergeValid(head: seq<int>, R: iset<(nat, nat)>, merge: UnionFind?)
    reads merge
  {
    if merge == null then R == iset{} else MergesHeads(head, merge.F()) && Joins(merge.F(), R)
  }

  class Disambiguator {
    // Head state of each state.
    var head: seq<int>
    var coreachable: set<(nat, nat)>
    var queue: seq<(nat, nat)>
    var candidates: seq<(ArcId, ArcId)>
    var ambiguous: set<ArcId>
    // States to merge; null as long as there are none.
    var merge: UnionFind?
    var error: bool

    constructor (heads: seq<int>)
      ensures head == heads && coreachable == {} && queue == [] && candidates == [] && ambiguous == {} && merge == null
      ensures !error
    {
      head, coreachable, queue, candidates, ambiguous, merge, error := heads, {}, [], [], {}, null, false;
    }

    ghost predicate Sound<W>(k: Semiring<W>, f: Fst<W>)
      reads this, merge
    {
      && Valid(f) && 0 <= f.start && |head| == |f.states|
      && SearchSound(k, f, head, coreachable, queue, candidates, merge != null)
      && MergeValid(head, SplitsIn(head, coreachable), merge)
    }

    twostate predicate GrownSince()
      reads this
    {
      && head == old(head) && ambiguous == old(ambiguous) && error == old(error)
      && Grown(head, old(coreachable), old(queue), old(candidates), coreachable, queue, candidates)
    }

    /** The object to merge states with is made when it is first needed. */
    twostate predicate SameOrNewMerge()
      reads this
    {
      merge == old(merge) || (old(merge) == null && merge != null && fresh(merge))
    }

    /** Records a pair of transitions under the one whose source has the larger head, behind those not after it. */
    method InsertCandidate(s1: nat, s2: nat, a1: ArcId, a2: ArcId)
      requires s1 == a1.0 < |head| && s2 == a2.0 < |head| && SourcesInRange(head, candidates)
      requires KeySorted(head, candidates)
      modifies `candidates
      ensures SourcesInRange(head, candidates) && KeySorted(head, candidates)
      ensures forall c :: c in candidates <==> c in old(candidates) || c == OrderedCandidate(head, a1, a2)
      ensures multiset(candidates) == multiset(old(candidates)) + multiset{OrderedCandidate(head, a1, a2)}
    {
      var c := if head[s1] > head[s2] then (a1, a2) else (a2, a1);
      var i := UpperBound(head, candidates, c.0);
      InsertedInOrder(head, candidates, i, c);
      candidates := InsertAt(candidates, i, c);
    }

    /** The place behind all keys that are not after this one. */
    static method UpperBound(head: seq<int>, cands: seq<(ArcId, ArcId)>, key: ArcId) returns (i: nat)
      requires key.0 < |head| && SourcesInRange(head, cands)
      ensures i <= |cands| && forall j :: i <= j < |cands| ==> Less(head, key, cands[j].0)
      ensures i > 0 ==> !Less(head, key, cands[i - 1].0)
    {
      i := |cands|;
      while i > 0 && Less(head, key, cands[i - 1].0)
        invariant 0 <= i <= |cands|
        invariant forall j :: i <= j < |cands| ==> Less(head, key, cands[j].0)
      {
        i := i - 1;
      }
    }

    /** Marks two states with the same head for merging. */
    method MergeStates(s: nat, t: nat, ghost R: iset<(nat, nat)>)
      requires s < |head| && t < |head| && head[s] == head[t] && MergeValid(head, R, merge)
      modifies `merge, merge
      ensures SameOrNewMerge() && merge != null && MergeValid(head, R + iset{(s, t)}, merge)
    {
      if merge == null {
        merge := new UnionFind(|head|);
        merge.MakeAllSet(|head|);
        JoinsNone(merge.F());
      }
      ghost var sets := merge.F();
      assert Rep(sets, s) < |head| && Rep(sets, t) < |head|;
      merge.Union(s, t);
      MergedJoins(sets, merge.F(), R, s, t);
      UnionMergesHeads(head, sets, merge.F(), s, t);
    }

    /** Records two transitions that go on alike. */
    method RecordAlike<W>(k: Semiring<W>, f: Fst<W>, a1: ArcId, a2: ArcId)
      requires Sound(k, f) && Alike(k, f, a1, a2) && Coreachable(f, a1.0, a2.0) && head[a1.0] != head[a2.0]
      modifies `candidates
      ensures Sound(k, f) && GrownSince() && OrderedCandidate(head, a1, a2) in candidates
    {
      CandidateSound(k, f, head, a1, a2);
      InsertCandidate(a1.0, a2.0, a1, a2);
    }

    /** Enters a pair that is not known, of states to be merged. */
    method EnterSplit<W>(k: Semiring<W>, f: Fst<W>, spr: (nat, nat))
      requires Sound(k, f) && spr.0 <= spr.1 < |f.states| && Found(f, head, spr.0, spr.1)
      requires spr !in coreachable && SplitPair(head, spr)
      modifies `coreachable, `merge, merge
      ensures Sound(k, f) && GrownSince() && SameOrNewMerge() && spr in coreachable
    {
      SplitsInAdd(head, coreachable, spr);
      SearchSoundAdd(k, f, head, coreachable, queue, candidates, merge != null, spr);
      MergeStates(spr.0, spr.1, SplitsIn(head, coreachable));
      GrownAdd(head, coreachable, queue, candidates, spr);
      coreachable := coreachable + {spr};
    }

    /** Enters a pair that is not known, to be worked off. */
    method EnterPair<W>(k: Semiring<W>, f: Fst<W>, spr: (nat, nat))
      requires Sound(k, f) && spr.0 <= spr.1 < |f.states| && Found(f, head, spr.0, spr.1)
      requires spr !in coreachable && !SplitPair(head, spr)
      modifies `coreachable, `queue
      ensures Sound(k, f) && GrownSince() && spr in coreachable
    {
      SplitsInAdd(head, coreachable, spr);
      SearchSoundAdd(k, f, head, coreachable, queue, candidates, merge != null, spr);
      GrownAdd(head, coreachable, queue, candidates, spr);
      coreachable := coreachable + {spr};
      queue := queue + [spr];
    }

    /** Enters a pair, to be worked off or merged, unless it is known. */
    method Discover<W>(k: Semiring<W>, f: Fst<W>, spr: (nat, nat))
      requires Sound(k, f) && spr.0 <= spr.1 < |f.states| && Found(f, head, spr.0, spr.1)
      modifies this, merge
      ensures Sound(k, f) && GrownSince() && SameOrNewMerge() && candidates == old(candidates) && spr in coreachable
    {
      if spr !in coreachable {
        if spr.0 != spr.1 && head[spr.0] == head[spr.1] {
          EnterSplit(k, f, spr);
        } else {
          EnterPair(k, f, spr);
        }
      }
    }

    /** Follows two arcs with the same label. */
    method VisitArcs<W>(k: Semiring<W>, f: Fst<W>, s1: nat, s2: nat, i: nat, j: nat)
      requires Sound(k, f) && s1 < |f.states| && s2 < |f.states| && Found(f, head, s1, s2) && !SplitPair(head, (s1, s2))
      requires i < |f.states[s1].arcs| && j < |f.states[s2].arcs|
      requires f.states[s1].arcs[i].ilabel == f.states[s2].arcs[j].ilabel
      modifies this, merge
      ensures Sound(k, f) && GrownSince() && SameOrNewMerge()
      ensures ArcPairDone(f, head, coreachable, candidates, s1, s2, i, j)
    {
      var arc1, arc2 := f.states[s1].arcs[i], f.states[s2].arcs[j];
      if s1 != s2 && arc1.nextstate == arc2.nextstate {
        RecordAlike(k, f, (s1, i), (s2, j));
      }
      FoundStep(f, head, s1, s2, i, j);
      FoundSwap(f, head, arc1.nextstate, arc2.nextstate);
      Discover(k, f, Ordered(arc1.nextstate, arc2.nextstate));
    }

    /** Follows arc i of s1 with every arc of s2 that the matcher answers, but not with the implicit loop. */
    method VisitMatches<W>(k: Semiring<W>, f: Fst<W>, s1: nat, s2: nat, i: nat)
      requires Sound(k, f) && s1 < |f.states| && s2 < |f.states| && Found(f, head, s1, s2) && !SplitPair(head, (s1, s2))
      requires i < |f.states[s1].arcs|
      modifies this, merge
      ensures Sound(k, f) && GrownSince() && SameOrNewMerge()
      ensures RowDone(f, head, coreachable, candidates, s1, s2, i)
    {
      var sides := Find(f.states[s2], f.states[s1].arcs[i].ilabel, true);
      for n := 0 to |sides|
        invariant Sound(k, f) && GrownSince() && SameOrNewMerge()
        invariant SidesDone(f, head, coreachable, candidates, s1, s2, i, sides[..n])
      {
        TakeNext(sides, n);
        assert sides[n] in sides;
        if sides[n] == Stay {
          continue;
        }
        ghost var core1, queue1, cands1 := coreachable, queue, candidates;
        VisitArcs(k, f, s1, s2, i, sides[n].arc);
        GrownSides(f, head, core1, queue1, cands1, coreachable, queue, candidates, s1, s2, i, sides[..n]);
      }
      TakeAll(sides);
      SidesAreRow(f, head, coreachable, candidates, s1, s2, i, sides);
    }

    /** Visits all pairs of transitions of two coreachable states; twice when the second state has more arcs. */
    method FindAmbiguousPairs<W(==)>(k: Semiring<W>, f: Fst<W>, s1: nat, s2: nat)
      requires Sound(k, f) && s1 < |f.states| && s2 < |f.states| && Found(f, head, s1, s2) && !SplitPair(head, (s1, s2))
      modifies this, merge
      ensures Sound(k, f) && GrownSince() && SameOrNewMerge()
      ensures PairDone(k, f, head, coreachable, candidates, s1, s2)
      decreases |f.states[s2].arcs| > |f.states[s1].arcs|
    {
      if |f.states[s2].arcs| > |f.states[s1].arcs| {
        FoundSwap(f, head, s1, s2);
        FindAmbiguousPairs(k, f, s2, s1);
      }
      VisitPair(k, f, s1, s2);
    }

    method VisitPair<W(==)>(k: Semiring<W>, f: Fst<W>, s1: nat, s2: nat)
      requires Sound(k, f) && s1 < |f.states| && s2 < |f.states|
      requires Found(f, head, s1, s2) && !SplitPair(head, (s1, s2))
      modifies this, merge
      ensures Sound(k, f) && GrownSince() && SameOrNewMerge()
      ensures PairDone(k, f, head, coreachable, candidates, s1, s2)
    {
      VisitAllArcs(k, f, s1, s2);
      ghost var core2, queue2, cands2 := coreachable, queue, candidates;
      VisitFinals(k, f, s1, s2);
      GrownRows(f, head, core2, queue2, cands2, coreachable, queue, candidates, s1, s2, |f.states[s1].arcs|);
      RowsArePair(k, f, head, coreachable, candidates, s1, s2);
    }

    method VisitFinals<W(==)>(k: Semiring<W>, f: Fst<W>, s1: nat, s2: nat)
      requires Sound(k, f) && s1 < |f.states| && s2 < |f.states| && Found(f, head, s1, s2) && !SplitPair(head, (s1, s2))
      modifies `candidates
      ensures Sound(k, f) && GrownSince() && FinalsDone(k, f, head, candidates, s1, s2)
    {
      if s1 != s2 && f.states[s1].final != k.Zero && f.states[s2].final != k.Zero {
        RecordAlike(k, f, (s1, SUPER_FINAL), (s2, SUPER_FINAL));
      }
    }

    method VisitAllArcs<W>(k: Semiring<W>, f: Fst<W>, s1: nat, s2: nat)
      requires Sound(k, f) && s1 < |f.states| && s2 < |f.states| && Found(f, head, s1, s2) && !SplitPair(head, (s1, s2))
      modifies this, merge
      ensures Sound(k, f) && GrownSince() && SameOrNewMerge()
      ensures RowsDone(f, head, coreachable, candidates, s1, s2, |f.states[s1].arcs|)
    {
      for i := 0 to |f.states[s1].arcs|
        invariant Sound(k, f) && GrownSince() && SameOrNewMerge()
        invariant RowsDone(f, head, coreachable, candidates, s1, s2, i)
      {
        ghost var core1, queue1, cands1 := coreachable, queue, candidates;
        VisitMatches(k, f, s1, s2, i);
        GrownRows(f, head, core1, queue1, cands1, coreachable, queue, candidates, s1, s2, i);
      }
    }

    /** Takes a pair from the queue and visits its transitions. */
    method WorkOff<W(==)>(k: Semiring<W>, f: Fst<W>)
      requires Sound(k, f) && Accounted(k, f, head, coreachable, queue, candidates) && queue != []
      modifies this, merge
      ensures Sound(k, f) && Accounted(k, f, head, coreachable, queue, candidates) && SameOrNewMerge()
      ensures head == old(head) && ambiguous == old(ambiguous) && error == old(error) && old(coreachable) <= coreachable
      ensures AllPairs(|f.states|) - coreachable < AllPairs(|f.states|) - old(coreachable)
        || (coreachable == old(coreachable) && |queue| < |old(queue)|)
    {
      ghost var core1, queue1, cands1 := coreachable, queue, candidates;
      var s1, s2 := queue[0].0, queue[0].1;
      assert queue[0] in queue && PairSound(f, head, merge != null, queue[0]);
      assert !SplitPair(head, queue[0]);
      queue := queue[1..];
      FindAmbiguousPairs(k, f, s1, s2);
      PairsInRange(f, head, merge != null, coreachable);
      AccountedStep(k, f, head, core1, queue1, cands1, coreachable, queue, candidates);
      if coreachable != core1 {
        Shrinks(AllPairs(|f.states|), core1, coreachable);
      }
    }

    /** Explores all coreachable pairs of states from the start pair. */
    method FindAmbiguities<W(==)>(k: Semiring<W>, f: Fst<W>)
      requires Valid(f) && |head| == |f.states| && coreachable == {} && queue == [] && merge == null
      modifies this
      ensures head == old(head) && ambiguous == old(ambiguous) && error == old(error)
      ensures (merge == null || fresh(merge)) && SearchResult(k, f)
      ensures MergeValid(head, FoundSplits(f, head), merge) && (merge != null <==> !SplitFree(f, head))
    {
      candidates := [];
      if f.start == NO_STATE_ID {
        return;
      }
      coreachable := {(f.start, f.start)};
      queue := [(f.start, f.start)];
      FoundStart(f, head);
      assert SplitsIn(head, coreachable) == iset{};
      while queue != []
        invariant Sound(k, f) && Accounted(k, f, head, coreachable, queue, candidates)
        invariant (f.start, f.start) in coreachable
        invariant head == old(head) && ambiguous == old(ambiguous) && error == old(error)
        invariant merge == null || fresh(merge)
        decreases AllPairs(|f.states|) - coreachable, |queue|
      {
        WorkOff(k, f);
      }
      SplitsFound(k, f, head, coreachable, candidates, merge != null);
      if merge == null {
        AccountedComplete(k, f, head, coreachable, candidates);
      }
    }

    /** Marks the first transition of each candidate pair whose second one is not marked. */
    method MarkAmbiguities()
      requires SourcesInRange(head, candidates) && KeySorted(head, candidates) && ambiguous == {}
      requires forall c :: c in candidates ==> head[c.0.0] > head[c.1.0]
      modifies `ambiguous, `coreachable, `candidates
      ensures Kernel(old(candidates), ambiguous) && coreachable == {} && candidates == []
    {
      var cands := candidates;
      forall i | 0 <= i < |cands| ensures NeverAhead(cands, i) {
        NotLookedUp(head, cands, i);
      }
      ambiguous := Mark(cands);
      coreachable := {};
      candidates := [];
    }

    static method Mark(cands: seq<(ArcId, ArcId)>) returns (amb: set<ArcId>)
      requires forall i :: 0 <= i < |cands| ==> NeverAhead(cands, i)
      ensures Kernel(cands, amb)
    {
      amb := {};
      for i := 0 to |cands|
        invariant Kernel(cands[..i], amb)
      {
        var a, b := cands[i].0, cands[i].1;
        ghost var was := amb;
        if b !in amb {
          amb := amb + {a};
        }
        KernelStep(cands, i, was, amb);
      }
      TakeAll(cands);
    }

    /** Leads the arcs of a state to the representatives of their destinations. */
    method MergeArcs<W>(sets: UnionFind, fst: VectorFst<W>, s: nat)
      requires sets.Valid() && MergesHeads(head, sets.F()) && s < |fst.states| == |head|
      requires ValidArcs(fst.states[s].arcs, |head|)
      modifies sets, fst
      ensures SameSets(old(sets.F()), sets.F()) && MergesHeads(head, sets.F())
      ensures fst.start == old(fst.start) && |fst.states| == |old(fst.states)|
      ensures forall t :: 0 <= t < |fst.states| && t != s ==> fst.states[t] == old(fst.states)[t]
      ensures StateMerged(old(fst.states)[s], old(sets.F()), fst.states[s])
    {
      ghost var arcs, forest := fst.states[s].arcs, sets.F();
      for i := 0 to |fst.states[s].arcs|
        invariant sets.Valid() && SameSets(forest, sets.F()) && MergesHeads(head, sets.F())
        invariant |fst.states| == |old(fst.states)| && fst.start == old(fst.start)
        invariant forall t :: 0 <= t < |fst.states| && t != s ==> fst.states[t] == old(fst.states)[t]
        invariant fst.states[s].final == old(fst.states)[s].final && ArcsMerged(arcs, forest, fst.states[s].arcs, i)
      {
        var arc := fst.states[s].arcs[i];
        assert arc == arcs[i] && Rep(sets.F(), arc.nextstate) == Rep(forest, arc.nextstate);
        ghost var was := sets.F();
        var nextstate := sets.FindSet(arc.nextstate);
        SameSetsTwice(forest, was, sets.F());
        SameSetsMergesHeads(head, was, sets.F());
        if nextstate != arc.nextstate {
          fst.SetArc(s, i, arc.(nextstate := nextstate));
        }
      }
    }

    /** Leads all arcs to the representatives of their destinations. */
    method MergeAllArcs<W>(sets: UnionFind, fst: VectorFst<W>)
      requires sets.Valid() && Valid(fst.Contents()) && |head| == |fst.states| && MergesHeads(head, sets.F())
      modifies sets, fst
      ensures SplitsMerged(old(fst.Contents()), old(sets.F()), fst.Contents()) && Valid(fst.Contents())
    {
      ghost var forest := sets.F();
      for s := 0 to |fst.states|
        invariant sets.Valid() && SameSets(forest, sets.F()) && MergesHeads(head, sets.F())
        invariant fst.start == old(fst.start) && |fst.states| == |old(fst.states)|
        invariant forall t :: s <= t < |fst.states| ==> fst.states[t] == old(fst.states)[t]
        invariant forall t :: 0 <= t < s ==> StateMerged(old(fst.states)[t], forest, fst.states[t])
      {
        ghost var was := sets.F();
        assert fst.states[s] == old(fst.Contents()).states[s];
        MergeArcs(sets, fst, s);
        SameSetsMerged(old(fst.states)[s], forest, was, fst.states[s]);
        SameSetsTwice(forest, was, sets.F());
      }
      MergedValid(head, old(fst.Contents()), forest, fst.Contents());
    }

    /** Merges the states found to be split, if any, and repeats the search on the result. */
    method RemoveSplits<W(==)>(k: Semiring<W>, fst: VectorFst<W>)
      requires SearchResult(k, fst.Contents())
      requires MergeValid(head, FoundSplits(fst.Contents(), head), merge)
      modifies this, merge, fst
      ensures head == old(head) && ambiguous == old(ambiguous)
      ensures old(merge) == null ==> unchanged(this) && unchanged(fst)
      ensures old(merge) != null ==> MergedInto(old(fst.Contents()), head, fst.Contents())
      ensures old(merge) != null ==> SearchResult(k, fst.Contents()) && error == (old(error) || merge != null)
      ensures old(merge) != null ==> (merge != null <==> !SplitFree(fst.Contents(), head))
    {
      if merge == null {
        return;
      }
      MergeAllArcs(merge, fst);
      assert MergedInto(old(fst.Contents()), head, fst.Contents());
      SearchAgain(k, Fst(fst.start, fst.states));
    }

    method SearchAgain<W(==)>(k: Semiring<W>, f: Fst<W>)
      requires Valid(f) && |head| == |f.states| && queue == []
      modifies this
      ensures head == old(head) && ambiguous == old(ambiguous) && (merge == null || fresh(merge))
      ensures SearchResult(k, f) && error == (old(error) || merge != null) && (merge != null <==> !SplitFree(f, head))
    {
      coreachable, candidates, merge := {}, [], null;
      FindAmbiguities(k, f);
      if merge != null {
        error := true;
      }
    }

    /** Leads the marked arcs into a new dead state, takes away the marked final weights, and trims. */
    method RemoveAmbiguities<W(==)>(k: Semiring<W>, fst: VectorFst<W>) returns (ghost removed: Fst<W>)
      requires Valid(fst.Contents()) && forall a :: a in ambiguous ==> IsArcId(fst.Contents(), a)
      modifies this, fst
      ensures head == old(head) && ambiguous == {} && error == old(error)
      ensures Removed(k, old(fst.Contents()), old(ambiguous), removed, fst.Contents())
    {
      ghost var f := fst.Contents();
      removed := f;
      if ambiguous == {} {
        return;
      }
      var dead := fst.AddState(k.Zero);
      var rest := ambiguous;
      while rest != {}
        invariant rest <= ambiguous && ambiguous == old(ambiguous) && error == old(error) && head == old(head)
        invariant Redirected(k, f, ambiguous - rest, fst.Contents())
      {
        ghost var some := HasElement(rest);
        var amb :| amb in rest;
        ghost var was := fst.Contents();
        assert IsArcId(f, amb) && StateRedirected(k, f, ambiguous - rest, was, amb.0);
        if amb.1 >= 0 {
          fst.SetArc(amb.0, amb.1, fst.states[amb.0].arcs[amb.1].(nextstate := dead));
        } else {
          fst.SetFinal(amb.0, k.Zero);
        }
        RedirectOne(k, f, ambiguous - rest, was, amb, fst.Contents());
        assert ambiguous - (rest - {amb}) == ambiguous - rest + {amb};
        rest := rest - {amb};
      }
      assert ambiguous - rest == ambiguous;
      removed := fst.Contents();
      RedirectedValid(k, f, ambiguous, removed);
      Connect(k, fst);
      ambiguous := {};
    }

    /** The steps after the predisambiguation. Without split states nothing is merged; else f is the transducer
        with them merged, and an error is reported exactly when that has left some. If not, the result has the
        accepting paths of f that take no transition of the kernel, and there is one of them for each label string:
        always if arcs with one label lead to different heads, as the predisambiguation leaves them, and in general
        exactly when none passes a multiple arc. It accepts the strings of f, if the state of every candidate's partner
        has a like wherever the candidate's is reached, which is so for a transducer that has been predisambiguated. */
    method Disambiguate<W(==, !new)>(k: Semiring<W>, ofst: VectorFst<W>)
      returns (ghost f: Fst<W>, ghost marked: set<ArcId>)
      requires Valid(ofst.Contents()) && |head| == |ofst.states|
      requires coreachable == {} && queue == [] && ambiguous == {} && merge == null && !error
      modifies this, ofst
      ensures head == old(head) && Valid(ofst.Contents()) && Valid(f)
      ensures f.start == old(ofst.start) && |f.states| == |old(ofst.states)|
      ensures if SplitFree(old(ofst.Contents()), head) then f == old(ofst.Contents())
              else MergedInto(old(ofst.Contents()), head, f)
      ensures error <==> !SplitFree(f, head)
      ensures KeepsSurvivors(k, f, marked, ofst.Contents()) && (!error ==> marked == KernelSet(k, f, head))
      ensures !error && f.start != NO_STATE_ID ==>
        (Unambiguous(k, ofst.Contents()) <==> NoMultiArcPassed(k, f, KernelSet(k, f, head)))
      ensures !error && NoMultiArcs(f) ==> Unambiguous(k, ofst.Contents())
      ensures !error && HeadsApart(old(ofst.Contents()), head) ==> Unambiguous(k, ofst.Contents())
      ensures !error && f.start != NO_STATE_ID && HeadsFollow(k, f, head) ==> SameStrings(k, f, ofst.Contents())
    {
      FindAndMerge(k, ofst);
      f := ofst.Contents();
      ghost var core, cands := coreachable, candidates;
      MarkAmbiguities();
      marked := ambiguous;
      MarkedArcIds(k, f, head, cands, marked);
      ghost var removed := RemoveAmbiguities(k, ofst);
      RemovedIsValid(k, f, marked, removed, ofst.Contents());
      if f.start != NO_STATE_ID && !error {
        KernelOfCandidates(k, f, head, core, cands, marked);
        KernelIsUnique(k, f, head, marked);
        RemovedUnambiguous(k, f, head, core, cands, marked, removed, ofst.Contents());
        RemovedStrings(k, f, head, removed, ofst.Contents());
      }
    }

    method FindAndMerge<W(==)>(k: Semiring<W>, ofst: VectorFst<W>)
      requires Valid(ofst.Contents()) && |head| == |ofst.states|
      requires coreachable == {} && queue == [] && ambiguous == {} && merge == null && !error
      modifies this, ofst
      ensures head == old(head) && ambiguous == {} && SearchResult(k, ofst.Contents())
      ensures ofst.start == old(ofst.start) && |ofst.states| == |old(ofst.states)|
      ensures CandidatesSound(k, ofst.Contents(), head, candidates)
      ensures if SplitFree(old(ofst.Contents()), head) then ofst.Contents() == old(ofst.Contents())
              else MergedInto(old(ofst.Contents()), head, ofst.Contents())
      ensures error == (merge != null) == !SplitFree(ofst.Contents(), head)
      ensures HeadsApart(old(ofst.Contents()), head) ==> NoMultiArcs(ofst.Contents())
    {
      FindAmbiguities(k, Fst(ofst.start, ofst.states));
      RemoveSplits(k, ofst);
      if HeadsApart(old(ofst.Contents()), head) {
        ApartStaysApart(old(ofst.Contents()), head, ofst.Contents());
      }
    }

    /** What a search leaves behind. */
    ghost predicate SearchResult<W>(k: Semiring<W>, f: Fst<W>)
      reads this, merge
    {
      && Valid(f) && |head| == |f.states| && queue == []
      && (f.start == NO_STATE_ID ==> merge == null && candidates == [])
      && (f.start != NO_STATE_ID ==>
        Sound(k, f) && (merge == null ==> SearchComplete(k, f, head, coreachable, candidates)))
    }
  }

  ghost predicate IsArcId<W>(f: Fst<W>, a: ArcId) {
    a.0 < |f.states| && (a.1 == SUPER_FINAL || 0 <= a.1 < |f.states[a.0].arcs|)
  }

  /** Without a start state there are no candidates. */
  ghost predicate CandidatesSound<W>(k: Semiring<W>, f: Fst<W>, head: seq<int>, cands: seq<(ArcId, ArcId)>) {
    && |head| == |f.states| && Valid(f)
    && if f.start == NO_STATE_ID then cands == []
       else SourcesInRange(head, cands) && KeySorted(head, cands) && forall c :: c in cands ==>
         IsCandidate(k, f, head, c)
  }

  lemma MarkedArcIds<W>(k: Semiring<W>, f: Fst<W>, head: seq<int>, cands: seq<(ArcId, ArcId)>, amb: set<ArcId>)
    requires CandidatesSound(k, f, head, cands) && Kernel(cands, amb)
    ensures forall a :: a in amb ==> IsArcId(f, a)
    ensures f.start == NO_STATE_ID ==> amb == {}
  {
    forall a | a in amb ensures IsArcId(f, a) && f.start != NO_STATE_ID {
      assert HasPartner(cands, amb, a);
    }
  }

  lemma KernelOfCandidates<W>(
    k: Semiring<W>, f: Fst<W>, head: seq<int>, core: set<(nat, nat)>, cands: seq<(ArcId, ArcId)>, amb: set<ArcId>
  )
    requires Valid(f) && 0 <= f.start && |head| == |f.states| && SearchComplete(k, f, head, core, cands)
    requires Kernel(cands, amb)
    requires forall c :: c in cands ==> IsCandidate(k, f, head, c)
    ensures MarkedExactly(k, f, head, amb)
  {
    forall a ensures a in amb <==> exists b :: IsCandidate(k, f, head, (a, b)) && b !in amb {
      if a in amb {
        assert HasPartner(cands, amb, a);
        var c :| c in cands && c.0 == a && c.1 !in amb;
        assert IsCandidate(k, f, head, (a, c.1));
      }
      if b :| IsCandidate(k, f, head, (a, b)) && b !in amb {
        CandidatesFound(k, f, head, core, cands, (a, b));
      }
    }
  }

  ghost predicate Removed<W>(k: Semiring<W>, f: Fst<W>, amb: set<ArcId>, removed: Fst<W>, f': Fst<W>) {
    if amb == {} then f' == f else Redirected(k, f, amb, removed) && Trimmed(k, removed, f')
  }

  /** f' has the accepting paths of f that use no marked transition. */
  ghost predicate KeepsSurvivors<W(!new)>(k: Semiring<W>, f: Fst<W>, amb: set<ArcId>, f': Fst<W>) {
    exists removed :: Removed(k, f, amb, removed, f')
  }

  lemma RemovedIsValid<W>(k: Semiring<W>, f: Fst<W>, amb: set<ArcId>, removed: Fst<W>, f': Fst<W>)
    requires Valid(f) && Removed(k, f, amb, removed, f') && (f.start == NO_STATE_ID ==> amb == {})
    ensures Valid(f')
  {
    if amb != {} {
      TrimmedUnambiguous(k, removed, f');
    }
  }

  /** The chain from the search to the result. */
  lemma RemovedUnambiguous<W>(
    k: Semiring<W>, f: Fst<W>, head: seq<int>, core: set<(nat, nat)>, cands: seq<(ArcId, ArcId)>, amb: set<ArcId>,
    removed: Fst<W>, f': Fst<W>
  )
    requires Valid(f) && 0 <= f.start && |head| == |f.states| && SearchComplete(k, f, head, core, cands)
    requires Kernel(cands, amb)
    requires Removed(k, f, amb, removed, f') && Valid(f')
    ensures Unambiguous(k, f') <==> NoMultiArcPassed(k, f, amb)
    ensures NoMultiArcs(f) ==> Unambiguous(k, f')
  {
    UniqueIffNoMultiArc(k, f, head, core, cands, amb);
    if amb == {} {
      NothingRemoved(k, f);
    } else {
      RedirectedValid(k, f, amb, removed);
      RedirectedUnambiguous(k, f, amb, removed);
      TrimmedUnambiguous(k, removed, f');
    }
    if NoMultiArcs(f) {
      forall p | Survives(k, f, amb, f.start, p) ensures !PassesMultiArc(f, amb, f.start, p) {
        NoMultiArcsPassesNone(f, amb, f.start, p);
      }
    }
  }

  /** No string is lost, if what makes a transition a candidate is there for every string that leads to it. */
  lemma RemovedStrings<W>(k: Semiring<W>, f: Fst<W>, head: seq<int>, removed: Fst<W>, f': Fst<W>)
    requires Valid(f) && 0 <= f.start && |head| == |f.states|
    requires Removed(k, f, KernelSet(k, f, head), removed, f') && Valid(f')
    ensures HeadsFollow(k, f, head) ==> SameStrings(k, f, f')
  {
    if HeadsFollow(k, f, head) && KernelSet(k, f, head) != {} {
      RedirectedValid(k, f, KernelSet(k, f, head), removed);
      RedirectedStrings(k, f, head, removed);
      TrimmedStrings(k, removed, f');
      forall x ensures AcceptsString(k, f, x) <==> AcceptsString(k, f', x) {
        assert AcceptsString(k, f, x) <==> AcceptsString(k, removed, x);
        assert AcceptsString(k, removed, x) <==> AcceptsString(k, f', x);
      }
    }
  }

  lemma NothingRemoved<W>(k: Semiring<W>, f: Fst<W>)
    requires Valid(f) && 0 <= f.start
    ensures Unambiguous(k, f) <==> UniqueSurvivors(k, f, {})
  {
    forall p ensures Accepting(k, f, f.start, p) <==> Survives(k, f, {}, f.start, p) {
      AllSurvive(k, f, f.start, p);
    }
  }

  lemma RedirectOne<W>(k: Semiring<W>, f: Fst<W>, amb: set<ArcId>, g: Fst<W>, a: ArcId, g': Fst<W>)
    requires Redirected(k, f, amb, g) && IsArcId(f, a) && g'.start == g.start && |g'.states| == |g.states|
    requires StateRedirected(k, f, amb, g, a.0)
    requires forall s :: 0 <= s < |g.states| && s != a.0 ==> g'.states[s] == g.states[s]
    requires a.1 == SUPER_FINAL ==> g'.states[a.0] == State(k.Zero, g.states[a.0].arcs)
    requires a.1 != SUPER_FINAL ==>
      g'.states[a.0] == State(g.states[a.0].final,
        g.states[a.0].arcs[a.1 := g.states[a.0].arcs[a.1].(nextstate := |f.states|)])
    ensures Redirected(k, f, amb + {a}, g')
  {
    forall s | 0 <= s < |f.states| ensures StateRedirected(k, f, amb + {a}, g', s) {
      assert StateRedirected(k, f, amb, g, s);
    }
  }

  lemma Shrinks(all: set<(nat, nat)>, core: set<(nat, nat)>, core': set<(nat, nat)>)
    requires core <= core' <= all && core' != core
    ensures all - core' < all - core
  {
    var p :| p in core' && p !in core;
    assert p in all - core && p !in all - core';
  }

  function AllPairs(n: nat): (r: set<(nat, nat)>)
    ensures forall p: (nat, nat) :: p in r <==> p.0 < n && p.1 < n
  {
    set s: nat, t: nat | s < n && t < n :: (s, t)
  }

  lemma PairsInRange<W>(f: Fst<W>, head: seq<int>, merging: bool, core: set<(nat, nat)>)
    requires Valid(f) && 0 <= f.start && |head| == |f.states|
    requires forall pr :: pr in core ==> PairSound(f, head, merging, pr)
    ensures core <= AllPairs(|f.states|)
  {
    forall pr | pr in core ensures pr in AllPairs(|f.states|) {
      assert PairSound(f, head, merging, pr);
    }
  }

  /** Key i is no earlier candidate's partner, nor its own. */
  ghost predicate NeverAhead(cands: seq<(ArcId, ArcId)>, i: nat)
    requires i < |cands|
  {
    forall m :: 0 <= m <= i ==> cands[m].1 != cands[i].0
  }

  /** The keys come by growing head, so what is marked now was not looked up before. */
  lemma NotLookedUp(head: seq<int>, cands: seq<(ArcId, ArcId)>, i: nat)
    requires SourcesInRange(head, cands) && KeySorted(head, cands) && i < |cands|
    requires forall c :: c in cands ==> head[c.0.0] > head[c.1.0]
    ensures NeverAhead(cands, i)
  {
    forall m | 0 <= m <= i ensures cands[m].1 != cands[i].0 {
      assert cands[m] in cands && cands[i] in cands && (m < i ==> !Less(head, cands[i].0, cands[m].0));
    }
  }

  lemma KernelStep(cands: seq<(ArcId, ArcId)>, i: nat, amb: set<ArcId>, amb': set<ArcId>)
    requires i < |cands| && NeverAhead(cands, i)
    requires Kernel(cands[..i], amb) && amb' == if cands[i].1 !in amb then amb + {cands[i].0} else amb
    ensures Kernel(cands[..i + 1], amb')
  {
    TakeNext(cands, i);
    var prefix, prefix' := cands[..i], cands[..i + 1];
    forall a | a in amb' ensures HasPartner(prefix', amb', a) {
      if a in amb {
        assert HasPartner(prefix, amb, a);
        var c :| c in prefix && c.0 == a && c.1 !in amb;
        assert c in prefix' && c.1 !in amb';
      } else {
        assert cands[i] in prefix' && cands[i].1 !in amb';
      }
    }
  }

  lemma CandidateSound<W>(k: Semiring<W>, f: Fst<W>, head: seq<int>, a: ArcId, b: ArcId)
    requires Valid(f) && 0 <= f.start && |head| == |f.states| && Alike(k, f, a, b) && Coreachable(f, a.0, b.0)
    requires head[a.0] != head[b.0]
    ensures IsCandidate(k, f, head, OrderedCandidate(head, a, b))
  {
    CoreachableSwap(f, a.0, b.0);
  }
}
