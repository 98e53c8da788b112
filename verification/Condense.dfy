/** Condensation: one state for each strongly connected component. */
module Condenses {
  import opened Semirings
  import opened Fsts
  import opened Graphs
  import opened CcVisitors
  import opened DfsVisits
  import opened VectorFsts
  import opened Connects
  import opened Sequences

  // ---- What condensation builds

  ghost predicate NumberedStates(scc: seq<int>) {
    forall s :: 0 <= s < |scc| ==> 0 <= scc[s]
  }

  ghost predicate Numbers(scc: seq<int>, m: int) {
    forall s :: 0 <= s < |scc| ==> 0 <= scc[s] < m
  }

  /** The arcs that leave component c, led to the components of their destinations. */
  function LeavingArcs<W>(arcs: seq<Arc<W>>, scc: seq<int>, c: int): (r: seq<Arc<W>>)
    requires ValidArcs(arcs, |scc|) && NumberedStates(scc)
  {
    if arcs == [] then []
    else
      var last := arcs[|arcs| - 1];
      LeavingArcs(arcs[..|arcs| - 1], scc, c)
      + (if scc[last.nextstate] != c then [last.(nextstate := scc[last.nextstate])] else [])
  }

  /** The arcs of component c, from its members among the first n states in order. */
  function CondensedArcs<W>(f: Fst<W>, scc: seq<int>, c: int, n: nat): seq<Arc<W>>
    requires Valid(f) && |scc| == |f.states| && NumberedStates(scc) && n <= |scc|
  {
    if n == 0 then []
    else CondensedArcs(f, scc, c, n - 1) + (if scc[n - 1] == c then LeavingArcs(f.states[n - 1].arcs, scc, c) else [])
  }

  /** The sum of the final weights of the members of component c among the first n states. */
  function CondensedFinal<W(==)>(k: Semiring<W>, f: Fst<W>, scc: seq<int>, c: int, n: nat): W
    requires |scc| == |f.states| && n <= |scc|
  {
    if n == 0 then k.Zero
    else if scc[n - 1] == c
      && f.states[n - 1].final != k.Zero then k.Plus(CondensedFinal(k, f, scc, c, n - 1), f.states[n - 1].final)
    else CondensedFinal(k, f, scc, c, n - 1)
  }

  ghost predicate Condensed<W>(k: Semiring<W>, f: Fst<W>, scc: seq<int>, f': Fst<W>) {
    && Valid(f) && 0 <= f.start && |scc| == |f.states| && NumberedStates(scc) && Numbers(scc, |f'.states|)
    && f'.start == scc[f.start]
    && forall c :: 0 <= c < |f'.states| ==>
      f'.states[c] == State(CondensedFinal(k, f, scc, c, |scc|), CondensedArcs(f, scc, c, |scc|))
  }

  // ---- Which arcs there are

  lemma {:induction false} LeavingFrom<W>(arcs: seq<Arc<W>>, scc: seq<int>, c: int, j: nat) returns (i: nat)
    requires ValidArcs(arcs, |scc|) && NumberedStates(scc) && j < |LeavingArcs(arcs, scc, c)|
    ensures i < |arcs| && scc[arcs[i].nextstate] != c
    ensures LeavingArcs(arcs, scc, c)[j] == arcs[i].(nextstate := scc[arcs[i].nextstate])
  {
    var init := arcs[..|arcs| - 1];
    if j < |LeavingArcs(init, scc, c)| {
      i := LeavingFrom(init, scc, c, j);
    } else {
      i := |arcs| - 1;
    }
  }

  lemma {:induction false} LeavingAt<W>(arcs: seq<Arc<W>>, scc: seq<int>, c: int, i: nat) returns (j: nat)
    requires ValidArcs(arcs, |scc|) && NumberedStates(scc) && i < |arcs| && scc[arcs[i].nextstate] != c
    ensures j < |LeavingArcs(arcs, scc, c)|
    ensures LeavingArcs(arcs, scc, c)[j] == arcs[i].(nextstate := scc[arcs[i].nextstate])
  {
    var init := arcs[..|arcs| - 1];
    if i < |init| {
      j := LeavingAt(init, scc, c, i);
    } else {
      j := |LeavingArcs(init, scc, c)|;
    }
  }

  /** Every condensed arc comes from an arc between two components. */
  lemma {:induction false} CondensedFrom<W>(f: Fst<W>, scc: seq<int>, c: int, n: nat, j: nat) returns (s: nat, i: nat)
    requires Valid(f) && |scc| == |f.states| && NumberedStates(scc) && n <= |scc| && j < |CondensedArcs(f, scc, c, n)|
    ensures s < n && scc[s] == c && i < |f.states[s].arcs| && scc[f.states[s].arcs[i].nextstate] != c
    ensures CondensedArcs(f, scc, c, n)[j] == f.states[s].arcs[i].(nextstate := scc[f.states[s].arcs[i].nextstate])
  {
    var before := CondensedArcs(f, scc, c, n - 1);
    if j < |before| {
      s, i := CondensedFrom(f, scc, c, n - 1, j);
    } else {
      s := n - 1;
      i := LeavingFrom(f.states[s].arcs, scc, c, j - |before|);
    }
  }

  /** Every arc between two components is kept. */
  lemma {:induction false} CondensedAt<W>(f: Fst<W>, scc: seq<int>, n: nat, s: nat, i: nat) returns (j: nat)
    requires Valid(f) && |scc| == |f.states| && NumberedStates(scc) && s < n <= |scc|
    requires i < |f.states[s].arcs| && scc[f.states[s].arcs[i].nextstate] != scc[s]
    ensures j < |CondensedArcs(f, scc, scc[s], n)|
    ensures CondensedArcs(f, scc, scc[s], n)[j] == f.states[s].arcs[i].(nextstate := scc[f.states[s].arcs[i].nextstate])
  {
    if s < n - 1 {
      j := CondensedAt(f, scc, n - 1, s, i);
    } else {
      var a := LeavingAt(f.states[s].arcs, scc, scc[s], i);
      j := |CondensedArcs(f, scc, scc[s], n - 1)| + a;
    }
  }

  // ---- Each member and each arc counts once

  ghost predicate StatesListed(ms: seq<nat>, n: nat) {
    forall i :: 0 <= i < |ms| ==> ms[i] < n
  }

  /** The sum of the final weights of the listed states. */
  ghost function SumFinals<W>(k: Semiring<W>, f: Fst<W>, ms: seq<nat>): W
    requires StatesListed(ms, |f.states|)
  {
    if ms == [] then k.Zero
    else k.Plus(SumFinals(k, f, ms[..|ms| - 1]), f.states[ms[|ms| - 1]].final)
  }

  function Without(ms: seq<nat>, p: nat): seq<nat>
    requires p < |ms|
  {
    ms[..p] + ms[p + 1..]
  }

  /** A listed state can be taken out of the sum, wherever it is listed. */
  lemma {:induction false} SumRemove<W(!new)>(k: Semiring<W>, f: Fst<W>, ms: seq<nat>, p: nat)
    requires AdditiveLaws(k) && p < |ms| && StatesListed(ms, |f.states|)
    ensures StatesListed(Without(ms, p), |f.states|)
    ensures SumFinals(k, f, ms) == k.Plus(SumFinals(k, f, Without(ms, p)), f.states[ms[p]].final)
  {
    var init, last := ms[..|ms| - 1], ms[|ms| - 1];
    if p == |init| {
      assert Without(ms, p) == init;
    } else {
      SumRemove(k, f, init, p);
      var w := Without(ms, p);
      assert w == Without(init, p) + [last];
      assert w[..|w| - 1] == Without(init, p) && w[|w| - 1] == last;
      var a, x, y := SumFinals(k, f, Without(init, p)), f.states[ms[p]].final, f.states[last].final;
      PlusAssociates(k, a, x, y);
      PlusCommutes(k, x, y);
      PlusAssociates(k, a, y, x);
    }
  }

  /** The members of component c among the first n states, each once, in any order. */
  ghost predicate Members(scc: seq<int>, c: int, n: nat, ms: seq<nat>)
    requires n <= |scc|
  {
    && Distinct(ms) && (forall i :: 0 <= i < |ms| ==> ms[i] < n && scc[ms[i]] == c)
    && forall s: nat :: s < n && scc[s] == c ==> s in ms
  }

  lemma MembersWithout(scc: seq<int>, c: int, n: nat, ms: seq<nat>, p: nat)
    requires n < |scc| && Members(scc, c, n + 1, ms) && p < |ms| && ms[p] == n
    ensures Members(scc, c, n, Without(ms, p))
  {
    forall s: nat | s < n && scc[s] == c ensures s in Without(ms, p) {
      assert s in ms;
      var i :| 0 <= i < |ms| && ms[i] == s;
      assert Without(ms, p)[if i < p then i else i - 1] == s;
    }
  }

  lemma {:induction false} FinalIsSum<W(!new)>(k: Semiring<W>, f: Fst<W>, scc: seq<int>, c: int, n: nat, ms: seq<nat>)
    requires AdditiveLaws(k) && |scc| == |f.states| && n <= |scc| && Members(scc, c, n, ms)
    ensures CondensedFinal(k, f, scc, c, n) == SumFinals(k, f, ms)
  {
    if n > 0 && scc[n - 1] == c {
      assert n - 1 in ms;
      var p :| 0 <= p < |ms| && ms[p] == n - 1;
      MembersWithout(scc, c, n - 1, ms, p);
      SumRemove(k, f, ms, p);
      FinalIsSum(k, f, scc, c, n - 1, Without(ms, p));
      PlusZero(k, SumFinals(k, f, Without(ms, p)));
    } else if n > 0 {
      FinalIsSum(k, f, scc, c, n - 1, ms);
    }
  }

  /** The final weight of a condensed state is the sum of the final weights of the members of its component, each
      counted once, in whatever order they are listed. */
  lemma CondensedFinalIsSum<W(!new)>(k: Semiring<W>, f: Fst<W>, scc: seq<int>, f': Fst<W>, c: nat, ms: seq<nat>)
    requires AdditiveLaws(k) && Condensed(k, f, scc, f') && c < |f'.states| && Members(scc, c, |scc|, ms)
    ensures f'.states[c].final == SumFinals(k, f, ms)
  {
    FinalIsSum(k, f, scc, c, |scc|, ms);
  }

  /** Arc i of state s leaves component c. */
  ghost predicate Leaves<W>(f: Fst<W>, scc: seq<int>, c: int, s: nat, i: nat)
    requires Valid(f) && |scc| == |f.states|
  {
    s < |f.states| && scc[s] == c && i < |f.states[s].arcs| && scc[f.states[s].arcs[i].nextstate] != c
  }

  /** The arcs of a list come from the positions of another, one by one, led to the components. */
  ghost predicate LedFrom<W>(f: Fst<W>, scc: seq<int>, c: int, arcs: seq<Arc<W>>, origin: seq<(nat, nat)>)
    requires Valid(f) && |scc| == |f.states| && NumberedStates(scc)
  {
    && |origin| == |arcs| && Distinct(origin)
    && forall j :: 0 <= j < |arcs| ==>
      && Leaves(f, scc, c, origin[j].0, origin[j].1)
      && var arc := f.states[origin[j].0].arcs[origin[j].1]; arcs[j] == arc.(nextstate := scc[arc.nextstate])
  }

  lemma {:induction false} LeavingOrigins<W>(f: Fst<W>, scc: seq<int>, c: int, s: nat, n: nat)
    returns (origin: seq<(nat, nat)>)
    requires Valid(f) && |scc| == |f.states| && NumberedStates(scc) && s < |scc| && scc[s] == c
    requires n <= |f.states[s].arcs|
    ensures LedFrom(f, scc, c, LeavingArcs(f.states[s].arcs[..n], scc, c), origin)
    ensures forall o :: o in origin <==> o.0 == s && o.1 < n && Leaves(f, scc, c, s, o.1)
  {
    origin := [];
    if n > 0 {
      var before := LeavingOrigins(f, scc, c, s, n - 1);
      TakeNext(f.states[s].arcs, n - 1);
      origin := before + if Leaves(f, scc, c, s, n - 1) then [(s, n - 1)] else [];
      forall a, b | 0 <= a < b < |origin| ensures origin[a] != origin[b] {
        assert origin[a] in before;
      }
      forall o ensures o in origin <==> o.0 == s && o.1 < n && Leaves(f, scc, c, s, o.1) {
        assert o in origin <==> o in before || (Leaves(f, scc, c, s, n - 1) && o == (s, n - 1));
      }
    }
  }

  lemma LedConcat<W>(
    f: Fst<W>, scc: seq<int>, c: int, arcs: seq<Arc<W>>, origin: seq<(nat, nat)>, arcs': seq<Arc<W>>,
    origin': seq<(nat, nat)>
  )
    requires Valid(f) && |scc| == |f.states| && NumberedStates(scc)
    requires LedFrom(f, scc, c, arcs, origin) && LedFrom(f, scc, c, arcs', origin')
    requires forall o :: o in origin ==> o !in origin'
    ensures LedFrom(f, scc, c, arcs + arcs', origin + origin')
  {
    forall a, b | 0 <= a < b < |origin + origin'| ensures (origin + origin')[a] != (origin + origin')[b] {
      assert a < |origin| ==> origin[a] in origin;
      assert b >= |origin| ==> origin'[b - |origin|] in origin';
    }
  }

  /** The arcs of a condensed state are exactly the arcs that leave its component, each once. */
  lemma {:induction false} CondensedOrigins<W>(f: Fst<W>, scc: seq<int>, c: int, n: nat)
    returns (origin: seq<(nat, nat)>)
    requires Valid(f) && |scc| == |f.states| && NumberedStates(scc) && n <= |scc|
    ensures LedFrom(f, scc, c, CondensedArcs(f, scc, c, n), origin)
    ensures forall o :: o in origin <==> o.0 < n && Leaves(f, scc, c, o.0, o.1)
  {
    origin := [];
    if n > 0 {
      var before := CondensedOrigins(f, scc, c, n - 1);
      origin := before;
      if scc[n - 1] == c {
        var more := LeavingOrigins(f, scc, c, n - 1, |f.states[n - 1].arcs|);
        TakeAll(f.states[n - 1].arcs);
        origin := before + more;
        LedConcat(f, scc, c, CondensedArcs(f, scc, c, n - 1), before,
                  LeavingArcs(f.states[n - 1].arcs, scc, c), more);
        assert forall o :: o in origin <==> o in before || o in more;
      }
    }
  }

  lemma CondensedArcsOnce<W>(k: Semiring<W>, f: Fst<W>, scc: seq<int>, f': Fst<W>, c: nat)
    returns (origin: seq<(nat, nat)>)
    requires Condensed(k, f, scc, f') && c < |f'.states|
    ensures LedFrom(f, scc, c, f'.states[c].arcs, origin)
    ensures forall o: (nat, nat) :: o in origin <==> Leaves(f, scc, c, o.0, o.1)
  {
    origin := CondensedOrigins(f, scc, c, |scc|);
  }

  lemma CondensedValid<W>(k: Semiring<W>, f: Fst<W>, scc: seq<int>, f': Fst<W>)
    requires Condensed(k, f, scc, f')
    ensures Valid(f') && 0 <= f'.start
  {
    forall c | 0 <= c < |f'.states| ensures ValidArcs(f'.states[c].arcs, |f'.states|) {
      forall j | 0 <= j < |f'.states[c].arcs|
        ensures var a := f'.states[c].arcs[j]; a.nextstate < |f'.states| && 0 <= a.ilabel && 0 <= a.olabel
      {
        var s, i := CondensedFrom(f, scc, c, |scc|, j);
      }
    }
  }

  // ---- Reachability

  /** What the visit promises of the components: mutual reachability, numbered along the arcs. */
  ghost predicate ComponentsGiven(g: Graph, scc: seq<int>)
    requires ValidGraph(g)
  {
    && |scc| == |g.succ|
    && (forall x, y :: 0 <= x < |g.succ| && 0 <= y < |g.succ| ==> (scc[x] == scc[y] <==> Mutual(g, x, y)))
    && (forall x, i :: 0 <= x < |g.succ| && 0 <= i < |g.succ[x]| ==> scc[x] <= scc[g.succ[x][i]])
  }

  /** The condensed transducer has no cycle. */
  lemma CondensedIsAcyclic<W>(k: Semiring<W>, f: Fst<W>, scc: seq<int>, f': Fst<W>)
    requires Condensed(k, f, scc, f') && ValidGraph(GraphOf(k, f)) && ComponentsGiven(GraphOf(k, f), scc)
    ensures Valid(f') && 0 <= f'.start && ValidGraph(GraphOf(k, f')) && !HasCycle(GraphOf(k, f'))
  {
    CondensedValid(k, f, scc, f');
    GraphIsValid(k, f');
    var g, g' := GraphOf(k, f), GraphOf(k, f');
    var rank := seq(|f'.states|, c => -c);
    forall u, j | 0 <= u < |g'.succ| && 0 <= j < |g'.succ[u]| ensures rank[g'.succ[u][j]] < rank[u] {
      var s, i := CondensedFrom(f, scc, u, |scc|, j);
      assert g.succ[s][i] == f.states[s].arcs[i].nextstate;
    }
    RankedIsAcyclic(g', rank);
  }

  /** A walk of the input is one of the condensed transducer between the components. */
  lemma {:induction false} WalkCondenses<W>(
    k: Semiring<W>, f: Fst<W>, scc: seq<int>, f': Fst<W>, x: nat, p: seq<nat>, y: nat
  )
    requires Condensed(k, f, scc, f') && ValidGraph(GraphOf(k, f)) && Valid(f') && 0 <= f'.start
    requires ValidGraph(GraphOf(k, f'))
    requires Walk(GraphOf(k, f), x, p, y)
    ensures x < |scc| && y < |scc| && Reach(GraphOf(k, f'), scc[x], scc[y])
    decreases p
  {
    var g, g' := GraphOf(k, f), GraphOf(k, f');
    WalkBounds(g, x, p, y);
    if p == [] {
      ReachSelf(g', scc[x]);
    } else {
      WalkCondenses(k, f, scc, f', p[0], p[1..], y);
      var i :| 0 <= i < |g.succ[x]| && g.succ[x][i] == p[0];
      if scc[p[0]] != scc[x] {
        var j := CondensedAt(f, scc, |scc|, x, i);
        assert g'.succ[scc[x]][j] == scc[p[0]];
        ReachArc(g', scc[x], scc[p[0]]);
        ReachTrans(g', scc[x], scc[p[0]], scc[y]);
      }
    }
  }

  /** And back: between components that reach each other, all members do. */
  lemma {:induction false} WalkExpands<W>(
    k: Semiring<W>, f: Fst<W>, scc: seq<int>, f': Fst<W>, x: nat, p: seq<nat>, y: nat
  )
    requires Condensed(k, f, scc, f') && ValidGraph(GraphOf(k, f)) && Valid(f') && 0 <= f'.start
    requires ValidGraph(GraphOf(k, f'))
    requires ComponentsGiven(GraphOf(k, f), scc) && x < |scc| && y < |scc| && Walk(GraphOf(k, f'), scc[x], p, scc[y])
    ensures Reach(GraphOf(k, f), x, y)
    decreases p
  {
    var g, g' := GraphOf(k, f), GraphOf(k, f');
    if p == [] {
      assert Mutual(g, x, y);
    } else {
      var j :| 0 <= j < |g'.succ[scc[x]]| && g'.succ[scc[x]][j] == p[0];
      var s, i := CondensedFrom(f, scc, scc[x], |scc|, j);
      var t := f.states[s].arcs[i].nextstate;
      assert g.succ[s][i] == t && Mutual(g, x, s);
      WalkExpands(k, f, scc, f', t, p[1..], y);
      ReachArc(g, s, t);
      ReachTrans(g, x, s, t);
      ReachTrans(g, x, t, y);
    }
  }

  /** Condensation keeps reachability. */
  lemma CondensedReach<W>(k: Semiring<W>, f: Fst<W>, scc: seq<int>, f': Fst<W>, x: nat, y: nat)
    requires Condensed(k, f, scc, f') && ValidGraph(GraphOf(k, f)) && ComponentsGiven(GraphOf(k, f), scc) && x < |scc|
    requires y < |scc|
    ensures Valid(f') && 0 <= f'.start && ValidGraph(GraphOf(k, f'))
    ensures Reach(GraphOf(k, f), x, y) <==> Reach(GraphOf(k, f'), scc[x], scc[y])
  {
    CondensedIsAcyclic(k, f, scc, f');
    if Reach(GraphOf(k, f), x, y) {
      var p :| Walk(GraphOf(k, f), x, p, y);
      WalkCondenses(k, f, scc, f', x, p, y);
    }
    if Reach(GraphOf(k, f'), scc[x], scc[y]) {
      var p :| Walk(GraphOf(k, f'), scc[x], p, scc[y]);
      WalkExpands(k, f, scc, f', x, p, y);
    }
  }

  // ---- The algorithm

  method MaxElement(scc: seq<int>) returns (m: int)
    requires scc != [] && forall s :: 0 <= s < |scc| ==> scc[s] >= 0
    ensures m in scc && Numbers(scc, m + 1)
  {
    m := scc[0];
    for s := 1 to |scc|
      invariant m in scc && forall t :: 0 <= t < s ==> scc[t] <= m
    {
      if scc[s] > m {
        m := scc[s];
      }
    }
  }

  /** The first n states have been entered. */
  ghost predicate Entered<W>(k: Semiring<W>, f: Fst<W>, scc: seq<int>, states: seq<State<W>>, n: nat)
    requires Valid(f) && |scc| == |f.states| && NumberedStates(scc) && n <= |scc|
  {
    forall c :: 0 <= c < |states| ==> states[c] == State(CondensedFinal(k, f, scc, c, n), CondensedArcs(f, scc, c, n))
  }

  /** Adds the final weight and the arcs of state s to its component. */
  method EnterState<W(==)>(k: Semiring<W>, f: Fst<W>, ofst: VectorFst<W>, scc: seq<int>, s: nat)
    requires Valid(f) && |scc| == |f.states| && NumberedStates(scc) && Numbers(scc, |ofst.states|) && s < |scc|
    requires Entered(k, f, scc, ofst.states, s)
    modifies ofst
    ensures ofst.start == old(ofst.start) && |ofst.states| == |old(ofst.states)|
    ensures Entered(k, f, scc, ofst.states, s + 1)
  {
    var c, arcs := scc[s], f.states[s].arcs;
    var weight := f.states[s].final;
    if weight != k.Zero {
      ofst.SetFinal(c, k.Plus(ofst.states[c].final, weight));
    }
    ghost var before := ofst.states;
    for i := 0 to |arcs|
      invariant ofst.start == old(ofst.start) && |ofst.states| == |before|
      invariant forall d :: 0 <= d < |before| && d != c ==> ofst.states[d] == before[d]
      invariant ofst.states[c] == State(before[c].final, before[c].arcs + LeavingArcs(arcs[..i], scc, c))
    {
      var nextc := scc[arcs[i].nextstate];
      TakeNext(arcs, i);
      if nextc != c {
        ofst.AddArc(c, arcs[i].(nextstate := nextc));
      }
    }
    TakeAll(arcs);
  }

  /** Condenses a transducer with a start state; without one the visit finds no state. */
  method Condense<W(==)>(k: Semiring<W>, ifst: Fst<W>, ofst: VectorFst<W>) returns (scc: seq<int>)
    requires Valid(ifst)
    modifies ofst
    ensures ifst.start == NO_STATE_ID ==> scc == [] && ofst.Contents() == Fst(NO_STATE_ID, [])
    ensures ifst.start != NO_STATE_ID ==>
      ValidGraph(GraphOf(k, ifst)) && ComponentsGiven(GraphOf(k, ifst), scc) && Condensed(k, ifst, scc, ofst.Contents())
    ensures forall c :: 0 <= c < |ofst.states| ==> c in scc
  {
    ofst.DeleteAllStates();
    if ifst.start == NO_STATE_ID {
      return [];
    }
    scc := FindComponents(k, ifst);
    Build(k, ifst, ofst, scc);
  }

  method Build<W(==)>(k: Semiring<W>, ifst: Fst<W>, ofst: VectorFst<W>, scc: seq<int>)
    requires Valid(ifst) && 0 <= ifst.start && |scc| == |ifst.states| && NumberedStates(scc)
    requires ofst.Contents() == Fst(NO_STATE_ID, [])
    modifies ofst
    ensures Condensed(k, ifst, scc, ofst.Contents()) && |ofst.states| - 1 in scc
  {
    var max := MaxElement(scc);
    AddStates(k, ifst, ofst, scc, max + 1);
    for s := 0 to |scc|
      invariant |ofst.states| == max + 1 && Entered(k, ifst, scc, ofst.states, s)
      invariant ofst.start == if ifst.start < s then scc[ifst.start] else NO_STATE_ID
    {
      if s == ifst.start {
        ofst.SetStart(scc[s]);
      }
      EnterState(k, ifst, ofst, scc, s);
    }
  }

  method FindComponents<W(==)>(k: Semiring<W>, ifst: Fst<W>) returns (scc: seq<int>)
    requires Valid(ifst) && 0 <= ifst.start
    ensures ValidGraph(GraphOf(k, ifst)) && ComponentsGiven(GraphOf(k, ifst), scc) && NumberedStates(scc)
    ensures forall m: int, c :: m in scc && 0 <= c <= m ==> c in scc
  {
    var g := GraphOf(k, ifst);
    GraphIsValid(k, ifst);
    var visitor := new SccVisitor(g);
    ghost var trace := DfsVisit(g, visitor);
    scc := visitor.scc;
  }

  method AddStates<W(==)>(k: Semiring<W>, ifst: Fst<W>, ofst: VectorFst<W>, scc: seq<int>, n: nat)
    requires Valid(ifst) && |scc| == |ifst.states| && NumberedStates(scc) && ofst.Contents() == Fst(NO_STATE_ID, [])
    modifies ofst
    ensures |ofst.states| == n && ofst.start == NO_STATE_ID && Entered(k, ifst, scc, ofst.states, 0)
  {
    for c := 0 to n
      invariant |ofst.states| == c && ofst.start == NO_STATE_ID && Entered(k, ifst, scc, ofst.states, 0)
    {
      var s := ofst.AddState(k.Zero);
    }
  }
}
