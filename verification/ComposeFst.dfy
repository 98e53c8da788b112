/** Delayed composition: states are numbered on demand and expanded by matching arcs. */
module ComposeFsts {
  import opened Semirings
  import opened Fsts
  import opened ComposeFilters
  import opened Compose
  import opened Sequences

  /** The label of an arc on the side a matcher works on. */
  function MatchLabel<W>(arc: Arc<W>, input: bool): int {
    if input then arc.ilabel else arc.olabel
  }

  /** Does a matcher at these arcs answer the label with this side? Label 0 also finds the implicit loop,
      NO_LABEL finds the explicit epsilons only. */
  ghost predicate Answers<W>(st: State<W>, symbol: int, input: bool, side: Side) {
    match side
    case Stay => symbol == EPSILON
    case Take(i) =>
      i < |st.arcs| && MatchLabel(st.arcs[i], input) == (if symbol == NO_LABEL then EPSILON else symbol)
  }

  /** What a matcher enumerates for a label: the implicit loop first, then the arcs in order. */
  method Find<W>(st: State<W>, symbol: int, input: bool) returns (sides: seq<Side>)
    ensures forall side :: side in sides <==> Answers(st, symbol, input, side)
    ensures Distinct(sides)
  {
    sides := if symbol == EPSILON then [Stay] else [];
    var matchLabel := if symbol == NO_LABEL then EPSILON else symbol;
    for i := 0 to |st.arcs|
      invariant forall side :: side in sides <==> Answers(st, symbol, input, side) && (side.Take? ==> side.arc < i)
      invariant Distinct(sides)
    {
      if MatchLabel(st.arcs[i], input) == matchLabel {
        sides := sides + [Take(i)];
      }
    }
  }

  /** a is the side that is matched on, b the side whose arcs are iterated. */
  function Pair(matchInput: bool, a: Side, b: Side): Move {
    if matchInput then Move(b, a) else Move(a, b)
  }

  function Iterated(matchInput: bool, m: Move): Side {
    if matchInput then m.a else m.b
  }

  /** The composed arc of an allowed move, with its destination numbered by the table. */
  ghost predicate ArcOf<W>(c: Composition<W>, t: Tuple, m: Move, arc: Arc<W>, table: seq<Tuple>)
    requires ValidComposition(c) && ValidTuple(c, t)
  {
    && Allowed(c, t, m)
    && arc.ilabel == SideArc1(c.k, c.f1, t.s1, m.a).ilabel && arc.olabel == SideArc2(c.k, c.f2, t.s2, m.b).olabel
    && arc.weight == c.k.Times(SideArc1(c.k, c.f1, t.s1, m.a).weight, SideArc2(c.k, c.f2, t.s2, m.b).weight)
    && arc.nextstate < |table| && table[arc.nextstate] == Next(c, t, m)
  }

  ghost predicate ArcsOf<W>(c: Composition<W>, t: Tuple, ms: seq<Move>, arcs: seq<Arc<W>>, table: seq<Tuple>)
    requires ValidComposition(c) && ValidTuple(c, t)
  {
    |arcs| == |ms| && forall i :: 0 <= i < |ms| ==> ArcOf(c, t, ms[i], arcs[i], table)
  }

  lemma ArcsOfGrow<W>(
    c: Composition<W>, t: Tuple, ms: seq<Move>, arcs: seq<Arc<W>>, table: seq<Tuple>, more: seq<Tuple>
  )
    requires ValidComposition(c) && ValidTuple(c, t) && ArcsOf(c, t, ms, arcs, table) && table <= more
    ensures ArcsOf(c, t, ms, arcs, more)
  {
  }

  /** The moves a composed state allows with a given iterated side are those its label finds. */
  lemma OfferedIsAnswered<W>(c: Composition<W>, t: Tuple, matchInput: bool, a: Side, b: Side)
    requires ValidComposition(c) && ValidTuple(c, t)
    requires if matchInput then ValidSide(c.f1.states[t.s1], b) else ValidSide(c.f2.states[t.s2], b)
    ensures Offered(c, t, Pair(matchInput, a, b)) <==>
            if matchInput
            then Answers(c.f2.states[t.s2], SideArc1(c.k, c.f1, t.s1, b).olabel, true, a)
            else Answers(c.f1.states[t.s1], SideArc2(c.k, c.f2, t.s2, b).ilabel, false, a)
  {
  }

  /** The allowed moves whose iterated side is Stay or an arc before j. */
  ghost predicate MovesBefore<W>(c: Composition<W>, t: Tuple, matchInput: bool, ms: seq<Move>, j: nat)
    requires ValidComposition(c) && ValidTuple(c, t)
  {
    forall m :: m in ms <==> Allowed(c, t, m) && (Iterated(matchInput, m).Take? ==> Iterated(matchInput, m).arc < j)
  }

  ghost predicate MovesWith<W>(c: Composition<W>, t: Tuple, matchInput: bool, ms: seq<Move>, b: Side)
    requires ValidComposition(c) && ValidTuple(c, t)
  {
    forall m :: m in ms <==> Iterated(matchInput, m) == b && Allowed(c, t, m)
  }

  lemma AppendMoves<W>(c: Composition<W>, t: Tuple, matchInput: bool, ms: seq<Move>, more: seq<Move>, j: nat)
    requires ValidComposition(c) && ValidTuple(c, t) && Distinct(ms) && Distinct(more)
    requires MovesBefore(c, t, matchInput, ms, j) && MovesWith(c, t, matchInput, more, Take(j))
    ensures Distinct(ms + more) && MovesBefore(c, t, matchInput, ms + more, j + 1)
  {
    forall i, k | 0 <= i < k < |ms + more| ensures (ms + more)[i] != (ms + more)[k] {
      assert i < |ms| ==> ms[i] in ms;
      assert k >= |ms| ==> more[k - |ms|] in more;
    }
    forall m
      ensures m in ms + more <==>
        Allowed(c, t, m) && (Iterated(matchInput, m).Take? ==> Iterated(matchInput, m).arc < j + 1)
    {
      assert m in ms + more <==> m in ms || m in more;
    }
  }

  lemma AppendArcs<W>(
    c: Composition<W>, t: Tuple, ms: seq<Move>, arcs: seq<Arc<W>>, more: seq<Move>, moreArcs: seq<Arc<W>>,
    table: seq<Tuple>
  )
    requires ValidComposition(c) && ValidTuple(c, t) && ArcsOf(c, t, ms, arcs, table)
    requires ArcsOf(c, t, more, moreArcs, table)
    ensures ArcsOf(c, t, ms + more, arcs + moreArcs, table)
  {
  }

  class ComposeFst<W(==)> {
    const c: Composition<W>
    const filter: ComposeFilter<W>
    var table: seq<Tuple>      // state id to tuple
    var ids: map<Tuple, nat>   // tuple to state id

    ghost predicate Valid()
      reads this, filter
    {
      && ValidComposition(c)
      && filter.Valid() && filter.kind == c.kind && filter.k == c.k && filter.fst1 == c.f1 && filter.fst2 == c.f2
      && (forall i :: 0 <= i < |table| ==> ValidTuple(c, table[i]) && InRange(c.kind, table[i].fs))
      && (forall i :: 0 <= i < |table| ==> table[i] in ids && ids[table[i]] == i)
      && (forall t :: t in ids ==> ids[t] < |table| && table[ids[t]] == t)
    }

    constructor (c: Composition<W>)
      requires ValidComposition(c)
      ensures Valid() && fresh(filter) && this.c == c && table == []
    {
      this.c := c;
      filter := new ComposeFilter(c.kind, c.k, c.f1, c.f2);
      table, ids := [], map[];
    }

    /** Equal tuples get equal numbers, new tuples get new numbers. */
    method FindState(t: Tuple) returns (s: nat)
      requires Valid() && ValidTuple(c, t) && InRange(c.kind, t.fs)
      modifies this
      ensures Valid() && old(table) <= table && s < |table| && table[s] == t
      ensures t in old(table) ==> table == old(table)
    {
      if t in ids {
        s := ids[t];
      } else {
        s := |table|;
        table, ids := table + [t], ids[t := s];
      }
    }

    method ComputeStart() returns (s: int)
      requires Valid()
      modifies this
      ensures Valid() && old(table) <= table
      ensures s == NO_STATE_ID <==> c.f1.start == NO_STATE_ID || c.f2.start == NO_STATE_ID
      ensures s != NO_STATE_ID ==> 0 <= s < |table| && table[s] == Start(c)
    {
      if c.f1.start == NO_STATE_ID || c.f2.start == NO_STATE_ID {
        return NO_STATE_ID;
      }
      s := FindState(Tuple(c.f1.start, c.f2.start, ComposeFilter<W>.Start()));
    }

    /** Adds the composed arc of an offered move if the filter lets it through. */
    method AddArc(t: Tuple, m: Move, ms: seq<Move>, arcs: seq<Arc<W>>) returns (ms': seq<Move>, arcs': seq<Arc<W>>)
      requires Valid() && ValidTuple(c, t) && InRange(c.kind, t.fs)
      requires filter.s1 == t.s1 && filter.s2 == t.s2 && filter.fs == t.fs
      requires Offered(c, t, m) && ArcsOf(c, t, ms, arcs, table)
      modifies this
      ensures Valid() && old(table) <= table && ArcsOf(c, t, ms', arcs', table)
      ensures ms' == if Allowed(c, t, m) then ms + [m] else ms
    {
      ms', arcs' := ms, arcs;
      var arc1, arc2 := SideArc1(c.k, c.f1, t.s1, m.a), SideArc2(c.k, c.f2, t.s2, m.b);
      var fs := filter.FilterArcs(arc1, arc2);
      if fs != NO_STATE {
        ghost var before := table;
        var next := FindState(Tuple(arc1.nextstate, arc2.nextstate, fs));
        ArcsOfGrow(c, t, ms, arcs, before, table);
        ms' := ms + [m];
        arcs' := arcs + [Arc(arc1.ilabel, arc2.olabel, c.k.Times(arc1.weight, arc2.weight), next)];
      }
    }

    /** Adds the composed arcs for one iterated side; they are exactly the allowed moves with that side. */
    method MatchArc(t: Tuple, b: Side, matchInput: bool) returns (ms: seq<Move>, arcs: seq<Arc<W>>)
      requires Valid() && ValidTuple(c, t) && InRange(c.kind, t.fs)
      requires filter.s1 == t.s1 && filter.s2 == t.s2 && filter.fs == t.fs
      requires if matchInput then ValidSide(c.f1.states[t.s1], b) else ValidSide(c.f2.states[t.s2], b)
      modifies this
      ensures Valid() && old(table) <= table
      ensures MovesWith(c, t, matchInput, ms, b)
      ensures Distinct(ms) && ArcsOf(c, t, ms, arcs, table)
    {
      var arcb := if matchInput then SideArc1(c.k, c.f1, t.s1, b) else SideArc2(c.k, c.f2, t.s2, b);
      var sides := Find(if matchInput then c.f2.states[t.s2] else c.f1.states[t.s1],
                        if matchInput then arcb.olabel else arcb.ilabel, matchInput);
      forall a ensures Offered(c, t, Pair(matchInput, a, b)) <==> a in sides {
        OfferedIsAnswered(c, t, matchInput, a, b);
      }
      ms, arcs := [], [];
      for i := 0 to |sides|
        invariant Valid() && old(table) <= table
        invariant filter.s1 == t.s1 && filter.s2 == t.s2 && filter.fs == t.fs
        invariant forall a :: Pair(matchInput, a, b) in ms <==> a in sides[..i] && Allowed(c, t, Pair(matchInput, a, b))
        invariant forall m :: m in ms ==> Iterated(matchInput, m) == b
        invariant Distinct(ms) && ArcsOf(c, t, ms, arcs, table)
      {
        var m := Pair(matchInput, sides[i], b);
        assert sides[i] in sides && Offered(c, t, m);
        assert sides[i] !in sides[..i];
        assert sides[..i + 1] == sides[..i] + [sides[i]];
        ms, arcs := AddArc(t, m, ms, arcs);
      }
      assert sides[..|sides|] == sides;
      forall m ensures m in ms <==> Iterated(matchInput, m) == b && Allowed(c, t, m) {
        var a := if matchInput then m.b else m.a;
        assert Iterated(matchInput, m) == b ==> m == Pair(matchInput, a, b);
      }
    }

    /** Expanding a state yields one arc for each allowed move of its tuple, whichever side is matched on. */
    method Expand(s: nat, matchInput: bool) returns (ms: seq<Move>, arcs: seq<Arc<W>>)
      requires Valid() && s < |table|
      modifies this, filter
      ensures Valid() && old(table) <= table
      ensures forall m :: m in ms <==> Allowed(c, table[s], m)
      ensures Distinct(ms) && ArcsOf(c, table[s], ms, arcs, table)
    {
      var t := table[s];
      filter.SetState(t.s1, t.s2, t.fs);
      ms, arcs := MatchArc(t, Stay, matchInput);
      var fstb := if matchInput then c.f1.states[t.s1].arcs else c.f2.states[t.s2].arcs;
      for j := 0 to |fstb|
        invariant Valid() && old(table) <= table
        invariant filter.s1 == t.s1 && filter.s2 == t.s2 && filter.fs == t.fs
        invariant MovesBefore(c, t, matchInput, ms, j)
        invariant Distinct(ms) && ArcsOf(c, t, ms, arcs, table)
      {
        ghost var before := table;
        var more, moreArcs := MatchArc(t, Take(j), matchInput);
        ArcsOfGrow(c, t, ms, arcs, before, table);
        AppendMoves(c, t, matchInput, ms, more, j);
        AppendArcs(c, t, ms, arcs, more, moreArcs, table);
        ms, arcs := ms + more, arcs + moreArcs;
      }
    }
  }
}
