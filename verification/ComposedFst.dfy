/** The composed transducer, once all states that are numbered have been expanded, and its paths. */
module ComposedFsts {
  import opened Semirings
  import opened Fsts
  import opened ComposeFilters
  import opened Compose
  import opened ComposeFsts
  import opened Sequences

  /** A state with one arc for each allowed move of its tuple, in the order of ms. */
  ghost predicate StateAssembled<W>(c: Composition<W>, table: seq<Tuple>, t: Tuple, ms: seq<Move>, st: State<W>)
    requires ValidComposition(c)
  {
    && ValidTuple(c, t) && Distinct(ms) && (forall m :: m in ms <==> Allowed(c, t, m))
    && ArcsOf(c, t, ms, st.arcs, table)
    && st.final == ComputeFinal(c.k, c.f1.states[t.s1].final, c.f2.states[t.s2].final)
  }

  /** The transducer whose states are the tuples of the table, with all arcs. */
  ghost predicate Assembled<W>(c: Composition<W>, table: seq<Tuple>, moves: seq<seq<Move>>, g: Fst<W>) {
    && ValidComposition(c) && |g.states| == |table| == |moves|
    && (forall s :: 0 <= s < |table| ==> StateAssembled(c, table, table[s], moves[s], g.states[s]))
    && if c.f1.start == NO_STATE_ID || c.f2.start == NO_STATE_ID then g.start == NO_STATE_ID
       else 0 <= g.start < |table| && table[g.start] == Start(c)
  }

  lemma AssembledValid<W>(c: Composition<W>, table: seq<Tuple>, moves: seq<seq<Move>>, g: Fst<W>)
    requires Assembled(c, table, moves, g)
    ensures Valid(g)
  {
    forall s | 0 <= s < |g.states| ensures ValidArcs(g.states[s].arcs, |g.states|) {
      assert StateAssembled(c, table, table[s], moves[s], g.states[s]);
      forall i | 0 <= i < |g.states[s].arcs|
        ensures var a := g.states[s].arcs[i]; a.nextstate < |g.states| && 0 <= a.ilabel && 0 <= a.olabel
      {
        assert ArcOf(c, table[s], moves[s][i], g.states[s].arcs[i], table);
      }
    }
  }

  // ---- Assembling

  ghost function AllTuples<W>(c: Composition<W>): (r: set<Tuple>)
    ensures forall t :: ValidTuple(c, t) && InRange(c.kind, t.fs) ==> t in r
  {
    var r := set s1: nat, s2: nat, fs: int | s1 < |c.f1.states| && s2 < |c.f2.states| && 0 <= fs <= 2 ::
      Tuple(s1, s2, fs);
    assert forall t: Tuple :: t == Tuple(t.s1, t.s2, t.fs);
    r
  }

  ghost function Listed(table: seq<Tuple>): set<Tuple> {
    set t | t in table
  }

  /** There are only finitely many tuples, so numbering new ones comes to an end. */
  lemma FewerLeft<W>(c: Composition<W>, table: seq<Tuple>, more: seq<Tuple>)
    requires table <= more && |table| < |more| && Distinct(more)
    requires forall i :: 0 <= i < |more| ==> ValidTuple(c, more[i]) && InRange(c.kind, more[i].fs)
    ensures AllTuples(c) - Listed(more) < AllTuples(c) - Listed(table)
  {
    var t := more[|table|];
    assert t in more && t in AllTuples(c);
    assert t !in table;
    assert forall u :: u in table ==> u in more;
    assert t in AllTuples(c) - Listed(table) && t !in AllTuples(c) - Listed(more);
  }

  lemma StateGrows<W>(c: Composition<W>, table: seq<Tuple>, more: seq<Tuple>, t: Tuple, ms: seq<Move>, st: State<W>)
    requires ValidComposition(c) && StateAssembled(c, table, t, ms, st) && table <= more
    ensures StateAssembled(c, more, t, ms, st)
  {
    ArcsOfGrow(c, t, ms, st.arcs, table, more);
  }

  ghost predicate Prefix<W>(c: Composition<W>, table: seq<Tuple>, moves: seq<seq<Move>>, states: seq<State<W>>)
    requires ValidComposition(c)
  {
    |moves| == |states| <= |table| &&
    forall s :: 0 <= s < |states| ==> StateAssembled(c, table, table[s], moves[s], states[s])
  }

  lemma PrefixGrows<W>(
    c: Composition<W>, table: seq<Tuple>, more: seq<Tuple>, moves: seq<seq<Move>>, states: seq<State<W>>
  )
    requires ValidComposition(c) && Prefix(c, table, moves, states) && table <= more
    ensures Prefix(c, more, moves, states)
  {
    forall s | 0 <= s < |states| ensures StateAssembled(c, more, more[s], moves[s], states[s]) {
      assert StateAssembled(c, table, table[s], moves[s], states[s]);
      StateGrows(c, table, more, table[s], moves[s], states[s]);
    }
  }

  /** Expands the next state. */
  method Row<W(==)>(fst: ComposeFst<W>, s: nat, matchInput: bool) returns (ghost ms: seq<Move>, st: State<W>)
    requires fst.Valid() && s < |fst.table|
    modifies fst, fst.filter
    ensures fst.Valid() && old(fst.table) <= fst.table
    ensures StateAssembled(fst.c, fst.table, fst.table[s], ms, st)
    ensures fst.table == old(fst.table)
      || AllTuples(fst.c) - Listed(fst.table) < AllTuples(fst.c) - Listed(old(fst.table))
  {
    var t := fst.table[s];
    ghost var before := fst.table;
    var moves, arcs := fst.Expand(s, matchInput);
    ms := moves;
    st := State(ComputeFinal(fst.c.k, fst.c.f1.states[t.s1].final, fst.c.f2.states[t.s2].final), arcs);
    if |before| < |fst.table| {
      FewerLeft(fst.c, before, fst.table);
    }
  }

  lemma PrefixAppend<W>(
    c: Composition<W>, table: seq<Tuple>, more: seq<Tuple>, moves: seq<seq<Move>>, states: seq<State<W>>, ms: seq<Move>,
    st: State<W>
  )
    requires ValidComposition(c) && Prefix(c, table, moves, states) && table <= more && |states| < |table|
    requires StateAssembled(c, more, more[|states|], ms, st)
    ensures Prefix(c, more, moves + [ms], states + [st])
  {
    PrefixGrows(c, table, more, moves, states);
  }

  /** Expands the next state and adds it to the others. */
  method NextRow<W(==)>(fst: ComposeFst<W>, ghost moves: seq<seq<Move>>, states: seq<State<W>>, matchInput: bool)
    returns (ghost moves': seq<seq<Move>>, states': seq<State<W>>)
    requires fst.Valid() && Prefix(fst.c, fst.table, moves, states) && |states| < |fst.table|
    modifies fst, fst.filter
    ensures fst.Valid() && old(fst.table) <= fst.table && |states'| == |states| + 1
    ensures Prefix(fst.c, fst.table, moves', states')
    ensures fst.table == old(fst.table)
      || AllTuples(fst.c) - Listed(fst.table) < AllTuples(fst.c) - Listed(old(fst.table))
  {
    ghost var before, ms := fst.table, [];
    var st;
    ms, st := Row(fst, |states|, matchInput);
    PrefixAppend(fst.c, before, fst.table, moves, states, ms, st);
    moves', states' := moves + [ms], states + [st];
  }

  /** Expands all states, those numbered on the way included, with any choice of the side to match on. */
  method ExpandAll<W(==)>(fst: ComposeFst<W>, matchInput: nat -> bool)
    returns (ghost moves: seq<seq<Move>>, states: seq<State<W>>)
    requires fst.Valid()
    modifies fst, fst.filter
    ensures fst.Valid() && old(fst.table) <= fst.table
    ensures |states| == |fst.table| && Prefix(fst.c, fst.table, moves, states)
  {
    moves, states := [], [];
    while |states| < |fst.table|
      invariant fst.Valid() && old(fst.table) <= fst.table && Prefix(fst.c, fst.table, moves, states)
      decreases AllTuples(fst.c) - Listed(fst.table), |fst.table| - |states|
    {
      moves, states := NextRow(fst, moves, states, matchInput(|states|));
    }
  }

  /** The composed transducer. */
  method ComposeAll<W(==)>(c: Composition<W>, matchInput: nat -> bool)
    returns (g: Fst<W>, ghost table: seq<Tuple>, ghost moves: seq<seq<Move>>)
    requires ValidComposition(c)
    ensures Assembled(c, table, moves, g)
  {
    var fst := new ComposeFst(c);
    var start := fst.ComputeStart();
    ghost var ms;
    var states;
    ms, states := ExpandAll(fst, matchInput);
    g, table, moves := Fst(start, states), fst.table, ms;
  }

  // ---- Its paths

  /** The moves that the arcs of a path stand for. */
  ghost function MovesOf<W>(moves: seq<seq<Move>>, g: Fst<W>, s: nat, p: seq<nat>): (ms: seq<Move>)
    requires Valid(g) && |moves| == |g.states| && s < |g.states| && IsPath(g, s, p)
    requires forall r :: 0 <= r < |moves| ==> |moves[r]| == |g.states[r].arcs|
    ensures |ms| == |p|
    decreases |p|
  {
    if p == [] then []
    else [moves[s][p[0]]] + MovesOf(moves, g, g.states[s].arcs[p[0]].nextstate, p[1..])
  }

  lemma AssembledMoves<W>(c: Composition<W>, table: seq<Tuple>, moves: seq<seq<Move>>, g: Fst<W>)
    requires Assembled(c, table, moves, g)
    ensures Valid(g) && forall r :: 0 <= r < |moves| ==> |moves[r]| == |g.states[r].arcs|
  {
    AssembledValid(c, table, moves, g);
    forall r | 0 <= r < |moves| ensures |moves[r]| == |g.states[r].arcs| {
      assert StateAssembled(c, table, table[r], moves[r], g.states[r]);
    }
  }

  /** A path of the transducer and the moves it stands for: they end in one tuple, weigh the same and have the same
      labels. */
  ghost predicate SamePath<W>(
    c: Composition<W>, table: seq<Tuple>, g: Fst<W>, s: nat, p: seq<nat>, ms: seq<Move>
  )
    requires ValidComposition(c) && Valid(g) && |table| == |g.states| && s < |table| && IsPath(g, s, p)
  {
    && ValidTuple(c, table[s]) && ComposedPath(c, table[s], ms)
    && table[PathEnd(g, s, p)] == ComposedEnd(c, table[s], ms)
    && PathWeight(c.k, g, s, p) == ComposedWeight(c, table[s], ms)
    && (ILabels(g, s, p), OLabels(g, s, p)) == ComposedLabels(c, table[s], ms)
  }

  lemma SamePathStep<W>(
    c: Composition<W>, table: seq<Tuple>, moves: seq<seq<Move>>, g: Fst<W>, s: nat, p: seq<nat>, rest: seq<Move>
  )
    requires Assembled(c, table, moves, g) && Valid(g) && s < |table| && IsPath(g, s, p) && p != []
    requires p[0] < |moves[s]| && SamePath(c, table, g, g.states[s].arcs[p[0]].nextstate, p[1..], rest)
    ensures SamePath(c, table, g, s, p, [moves[s][p[0]]] + rest)
  {
    var m, arc := moves[s][p[0]], g.states[s].arcs[p[0]];
    assert StateAssembled(c, table, table[s], moves[s], g.states[s]);
    assert ArcOf(c, table[s], m, arc, table);
    assert ([m] + rest)[1..] == rest;
  }

  lemma {:induction false} PathIsComposed<W>(
    c: Composition<W>, table: seq<Tuple>, moves: seq<seq<Move>>, g: Fst<W>, s: nat, p: seq<nat>
  )
    requires Assembled(c, table, moves, g) && Valid(g) && s < |table| && IsPath(g, s, p)
    requires forall r :: 0 <= r < |moves| ==> |moves[r]| == |g.states[r].arcs|
    ensures SamePath(c, table, g, s, p, MovesOf(moves, g, s, p))
    decreases |p|
  {
    if p == [] {
      assert StateAssembled(c, table, table[s], moves[s], g.states[s]);
    } else {
      var next := g.states[s].arcs[p[0]].nextstate;
      PathIsComposed(c, table, moves, g, next, p[1..]);
      SamePathStep(c, table, moves, g, s, p, MovesOf(moves, g, next, p[1..]));
    }
  }

  /** Each composed path is the moves of a path. */
  lemma {:induction false} ComposedIsPath<W>(
    c: Composition<W>, table: seq<Tuple>, moves: seq<seq<Move>>, g: Fst<W>, s: nat, ms: seq<Move>
  ) returns (p: seq<nat>)
    requires Assembled(c, table, moves, g) && Valid(g) && s < |table| && ValidTuple(c, table[s])
    requires forall r :: 0 <= r < |moves| ==> |moves[r]| == |g.states[r].arcs|
    requires ComposedPath(c, table[s], ms)
    ensures IsPath(g, s, p) && MovesOf(moves, g, s, p) == ms
    decreases |ms|
  {
    if ms == [] {
      p := [];
    } else {
      assert StateAssembled(c, table, table[s], moves[s], g.states[s]);
      assert ms[0] in moves[s];
      var i :| 0 <= i < |moves[s]| && moves[s][i] == ms[0];
      assert ArcOf(c, table[s], ms[0], g.states[s].arcs[i], table);
      var q := ComposedIsPath(c, table, moves, g, g.states[s].arcs[i].nextstate, ms[1..]);
      p := [i] + q;
      DropFirst(i, q);
      ConsRest(ms);
    }
  }

  /** Different paths stand for different moves. */
  lemma {:induction false} MovesInjective<W>(
    c: Composition<W>, table: seq<Tuple>, moves: seq<seq<Move>>, g: Fst<W>, s: nat, p: seq<nat>, q: seq<nat>
  )
    requires Assembled(c, table, moves, g) && Valid(g) && s < |table| && IsPath(g, s, p) && IsPath(g, s, q)
    requires forall r :: 0 <= r < |moves| ==> |moves[r]| == |g.states[r].arcs|
    requires MovesOf(moves, g, s, p) == MovesOf(moves, g, s, q)
    ensures p == q
    decreases |p|
  {
    if p != [] {
      assert StateAssembled(c, table, table[s], moves[s], g.states[s]);
      var x, y := MovesOf(moves, g, s, p), MovesOf(moves, g, s, q);
      assert x[0] == y[0] && x[1..] == y[1..];
      assert p[0] == q[0];
      MovesInjective(c, table, moves, g, g.states[s].arcs[p[0]].nextstate, p[1..], q[1..]);
      ConsRest(p);
      ConsRest(q);
    }
  }

  lemma AcceptingIsComposed<W(!new)>(
    c: Composition<W>, table: seq<Tuple>, moves: seq<seq<Move>>, g: Fst<W>, s: nat, p: seq<nat>
  )
    requires Assembled(c, table, moves, g) && Valid(g) && s < |table| && IsPath(g, s, p) && NoZeroDivisors(c.k)
    requires forall r :: 0 <= r < |moves| ==> |moves[r]| == |g.states[r].arcs|
    ensures ValidTuple(c, table[s])
    ensures Accepting(c.k, g, s, p) <==> ComposedAccepting(c, table[s], MovesOf(moves, g, s, p))
  {
    PathIsComposed(c, table, moves, g, s, p);
    var e := PathEnd(g, s, p);
    assert StateAssembled(c, table, table[e], moves[e], g.states[e]);
    assert At2(c.f1.states[table[e].s1].final, c.f2.states[table[e].s2].final);
  }

  /** p is an accepting path of the composed transducer, made of p1 and p2. */
  ghost predicate Composes<W>(
    c: Composition<W>, moves: seq<seq<Move>>, g: Fst<W>, p: seq<nat>, p1: seq<nat>, p2: seq<nat>
  )
    requires Valid(g) && 0 <= g.start && |moves| == |g.states|
    requires forall r :: 0 <= r < |moves| ==> |moves[r]| == |g.states[r].arcs|
  {
    && Accepting(c.k, g, g.start, p)
    && Project1(MovesOf(moves, g, g.start, p)) == p1 && Project2(MovesOf(moves, g, g.start, p)) == p2
  }

  /** In the composed transducer, a pair of accepting paths of the two inputs is composed along exactly one accepting
      path if its labels match, and along none if they do not. */
  lemma ExactlyOnePath<W(!new)>(
    c: Composition<W>, table: seq<Tuple>, moves: seq<seq<Move>>, g: Fst<W>, p1: seq<nat>, p2: seq<nat>
  )
    requires Assembled(c, table, moves, g) && NoZeroDivisors(c.k)
    requires c.f1.start != NO_STATE_ID && c.f2.start != NO_STATE_ID
    ensures Valid(g) && forall r :: 0 <= r < |moves| ==> |moves[r]| == |g.states[r].arcs|
    ensures Matching(c, Start(c), p1, p2) <==> exists p :: Composes(c, moves, g, p, p1, p2)
    ensures forall p, q :: Composes(c, moves, g, p, p1, p2) && Composes(c, moves, g, q, p1, p2) ==> p == q
  {
    AssembledMoves(c, table, moves, g);
    forall p, q | Composes(c, moves, g, p, p1, p2) && Composes(c, moves, g, q, p1, p2) ensures p == q {
      ComposesIsInterleave(c, table, moves, g, p, p1, p2);
      ComposesIsInterleave(c, table, moves, g, q, p1, p2);
      MovesInjective(c, table, moves, g, g.start, p, q);
    }
    if p :| Composes(c, moves, g, p, p1, p2) {
      ComposesIsInterleave(c, table, moves, g, p, p1, p2);
    }
    if Matching(c, Start(c), p1, p2) {
      var ms := Interleave(c, c.f1.start, c.f2.start, p1, p2);
      ExactlyOneComposedPath(c, p1, p2, ms);
      var p := ComposedIsPath(c, table, moves, g, g.start, ms);
      AcceptingIsComposed(c, table, moves, g, g.start, p);
      assert Composes(c, moves, g, p, p1, p2);
    }
  }

  lemma ComposesIsInterleave<W(!new)>(
    c: Composition<W>, table: seq<Tuple>, moves: seq<seq<Move>>, g: Fst<W>, p: seq<nat>, p1: seq<nat>, p2: seq<nat>
  )
    requires Assembled(c, table, moves, g) && NoZeroDivisors(c.k) && Valid(g) && 0 <= g.start
    requires forall r :: 0 <= r < |moves| ==> |moves[r]| == |g.states[r].arcs|
    requires c.f1.start != NO_STATE_ID && c.f2.start != NO_STATE_ID && Composes(c, moves, g, p, p1, p2)
    ensures Matching(c, Start(c), p1, p2)
    ensures MovesOf(moves, g, g.start, p) == Interleave(c, c.f1.start, c.f2.start, p1, p2)
  {
    AcceptingIsComposed(c, table, moves, g, g.start, p);
    ExactlyOneComposedPath(c, p1, p2, MovesOf(moves, g, g.start, p));
  }

  /** That path weighs the product of the weights of the two, reads what the first reads and writes what the second
      writes. */
  lemma ComposesWeighsProduct<W(!new)>(
    c: Composition<W>, table: seq<Tuple>, moves: seq<seq<Move>>, g: Fst<W>, p: seq<nat>, p1: seq<nat>, p2: seq<nat>
  )
    requires Assembled(c, table, moves, g) && NoZeroDivisors(c.k) && CommutativeTimes(c.k) && Valid(g) && 0 <= g.start
    requires forall r :: 0 <= r < |moves| ==> |moves[r]| == |g.states[r].arcs|
    requires c.f1.start != NO_STATE_ID && c.f2.start != NO_STATE_ID && Composes(c, moves, g, p, p1, p2)
    ensures IsPath(c.f1, c.f1.start, p1) && IsPath(c.f2, c.f2.start, p2)
    ensures PathWeight(c.k, g, g.start, p)
         == c.k.Times(PathWeight(c.k, c.f1, c.f1.start, p1), PathWeight(c.k, c.f2, c.f2.start, p2))
    ensures Erase(ILabels(g, g.start, p)) == Erase(ILabels(c.f1, c.f1.start, p1))
    ensures Erase(OLabels(g, g.start, p)) == Erase(OLabels(c.f2, c.f2.start, p2))
  {
    var ms := MovesOf(moves, g, g.start, p);
    AcceptingIsComposed(c, table, moves, g, g.start, p);
    PathIsComposed(c, table, moves, g, g.start, p);
    ComposedWeightIsProduct(c, Start(c), ms);
    ComposedLabelsAgree(c, Start(c), ms);
  }
}
