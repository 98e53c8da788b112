/** Sequences of operations on an edited transducer and its copies, beside the same ones on plain transducers. */
module EditReplays {
  import opened Fsts
  import opened EditFsts

  /** An operation on the i-th transducer; a copy is added to the list. */
  datatype Op<+W> =
    | SetStart(i: nat, start: int)
    | SetFinal(i: nat, state: nat, weight: W)
    | AddState(i: nat)
    | AddArc(i: nat, state: nat, arc: Arc<W>)
    | DeleteArcs(i: nat, state: nat, n: nat)
    | Copy(i: nat)

  /** States exist, and NO_STATE_ID is set only over a wrapped transducer without a start. */
  ghost predicate OpAllowed<W>(wrapped: Fst<W>, views: seq<Fst<W>>, op: Op<W>) {
    && op.i < |views|
    && match op
       case SetStart(_, start) => start >= 0 || (start == NO_STATE_ID && wrapped.start == NO_STATE_ID)
       case SetFinal(_, state, _) => state < |views[op.i].states|
       case AddArc(_, state, _) => state < |views[op.i].states|
       case DeleteArcs(_, state, _) => state < |views[op.i].states|
       case _ => true
  }

  /** What the operation does to plain transducers, none of which shares anything. */
  ghost function Apply<W>(wrapped: Fst<W>, zero: W, views: seq<Fst<W>>, op: Op<W>): seq<Fst<W>>
    requires OpAllowed(wrapped, views, op)
  {
    var f := views[op.i];
    match op
    case SetStart(i, start) => views[i := f.(start := start)]
    case SetFinal(i, state, weight) => views[i := WithFinal(f, state, weight)]
    case AddState(i) => views[i := WithState(f, zero)]
    case AddArc(i, state, arc) => views[i := WithArcs(f, state, f.states[state].arcs + [arc])]
    case DeleteArcs(i, state, n) => views[i := WithArcs(f, state, DropEnd(f.states[state].arcs, n))]
    case Copy(_) => views + [f]
  }

  /** The plain transducers after a sequence of operations, if all are allowed. */
  ghost function Plain<W>(wrapped: Fst<W>, zero: W, ops: seq<Op<W>>): Option<seq<Fst<W>>> {
    if ops == [] then Some([wrapped])
    else
      var before := Plain(wrapped, zero, ops[..|ops| - 1]);
      if before.Some? && OpAllowed(wrapped, before.value, ops[|ops| - 1])
      then Some(Apply(wrapped, zero, before.value, ops[|ops| - 1])) else None
  }

  twostate predicate SameImpl<W>(b: EditFstImpl<W>)
    reads b
  {
    unchanged(b)
  }

  twostate predicate SameData<W>(d: EditFstData<W>)
    reads d
  {
    unchanged(d)
  }

  /** Edited transducers over a common one, and the plain ones they are to show. */
  datatype Family<W> = Family(impls: seq<EditFstImpl<W>>, wrapped: Fst<W>, zero: W, views: seq<Fst<W>>) {

    /** One of the edited transducers shows f, and shares its edits only within the family and with some others. */
    ghost predicate Member(impl: EditFstImpl<W>, f: Fst<W>, others: set<EditFstImpl<W>>)
      reads impl, impl.data, impl.data.owners
    {
      && impl.Valid() && impl.wrapped == wrapped && impl.data.zero == zero && impl.View() == f
      && forall b :: b in impl.data.owners ==> b in impls || b in others
    }

    /** The edited transducers show the plain ones. */
    ghost predicate Shows()
      reads *
    {
      && |impls| == |views|
      && (forall i, j :: 0 <= i < j < |impls| ==> impls[i] != impls[j])
      && (forall i :: 0 <= i < |impls| ==> Member(impls[i], views[i], {}))
    }

    ghost function With(impl: EditFstImpl<W>, f: Fst<W>): Family<W> {
      Family(impls + [impl], wrapped, zero, views + [f])
    }

    lemma ShowsWith(impl: EditFstImpl<W>, f: Fst<W>)
      requires |impls| == |views| && impl !in impls && With(impl, f).Member(impl, f, {})
      requires forall i, j :: 0 <= i < j < |impls| ==> impls[i] != impls[j]
      requires forall j :: 0 <= j < |impls| ==> With(impl, f).Member(impls[j], views[j], {})
      ensures With(impl, f).Shows()
    {
    }

    /** If an operation leaves its transducer alone with its edits and those it shared them with as they were, the
        others show what they did. */
    twostate lemma OthersShow(i: nat)
      requires old(Shows()) && i < |impls|
      requires impls[i].Valid() && Member(impls[i], impls[i].View(), {}) && impls[i].data.owners == {impls[i]}
      requires old(impls[i].data).owners <= old(impls[i].data.owners)
      requires forall b :: b in old(impls[i].data.owners) && b != impls[i] ==> b.Valid() && b.View() == old(b.View())
      requires forall j :: 0 <= j < |impls| && j != i ==> SameImpl(impls[j])
      requires forall j :: 0 <= j < |impls| && old(impls[j].data) != old(impls[i].data) ==>
        SameData(old(impls[j].data))
      ensures this.(views := views[i := impls[i].View()]).Shows()
    {
      forall j | 0 <= j < |impls| && j != i ensures Member(impls[j], views[j], {}) {
        var b := impls[j];
        assert old(Member(b, views[j], {}));
        assert old(Member(impls[i], views[i], {}));
        if old(b.data) == old(impls[i].data) {
          assert b in old(impls[i].data.owners);
        } else {
          forall d | d in b.data.owners ensures d in impls && d != impls[i] && SameImpl(d) {
          }
        }
      }
    }

    /** If copying one of them only adds owners to its edits, each of them shows what it did, and shares its edits
        with no others but the new owners. */
    twostate lemma CopyKeeps(i: nat)
      requires old(Shows()) && i < |impls|
      requires forall j :: 0 <= j < |impls| ==> SameImpl(impls[j])
      requires forall b :: b in old(impls[i].data.owners) ==> b.Valid() && b.View() == old(b.View())
      requires forall j :: 0 <= j < |impls| && old(impls[j].data) != old(impls[i].data) ==>
        SameData(old(impls[j].data))
      ensures forall j :: 0 <= j < |impls| ==>
        Member(impls[j], views[j], impls[i].data.owners - old(impls[i].data.owners))
    {
      forall j | 0 <= j < |impls|
        ensures Member(impls[j], views[j], impls[i].data.owners - old(impls[i].data.owners))
      {
        var b := impls[j];
        assert old(Member(b, views[j], {}));
        assert old(Member(impls[i], views[i], {}));
        if b.data == impls[i].data {
          assert b in old(impls[i].data.owners);
        } else {
          forall d | d in b.data.owners ensures d in impls && SameImpl(d) {
          }
        }
      }
    }
  }

  /** Carries out an operation that changes a transducer. */
  method ChangeImpl<W>(impl: EditFstImpl<W>, op: Op<W>, ghost views: seq<Fst<W>>)
    requires impl.Valid() && OpAllowed(impl.wrapped, views, op) && impl.View() == views[op.i] && !op.Copy?
    modifies impl, impl.data
    ensures impl.Valid() && impl.wrapped == old(impl.wrapped) && impl.data.zero == old(impl.data.zero)
    ensures Apply(impl.wrapped, impl.data.zero, views, op) == views[op.i := impl.View()]
    ensures impl.data == old(impl.data) || fresh(impl.data)
    ensures impl.data.owners == {impl} && old(impl.data).owners <= old(impl.data.owners)
    ensures forall b :: b in old(impl.data.owners) && b != impl ==> b.Valid() && b.View() == old(b.View())
  {
    match op {
      case SetStart(_, start) => impl.SetStart(start);
      case SetFinal(_, state, weight) => impl.SetFinal(state, weight);
      case AddState(_) => var s := impl.AddState();
      case AddArc(_, state, arc) => impl.AddArc(state, arc);
      case DeleteArcs(_, state, n) => impl.DeleteArcs(state, n);
    }
  }

  /** Adds a copy of the i-th transducer. */
  method AddCopy<W>(impls: seq<EditFstImpl<W>>, i: nat, ghost c: Family<W>) returns (copy: EditFstImpl<W>)
    requires c.Shows() && c.impls == impls && i < |impls|
    modifies impls[i].data
    ensures c.With(copy, c.views[i]).Shows()
    ensures fresh(copy) && copy.data == impls[i].data
  {
    assert c.Member(impls[i], c.views[i], {});
    copy := new EditFstImpl.Copy(impls[i]);
    c.CopyKeeps(i);
    ghost var c' := c.With(copy, c.views[i]);
    assert c'.impls[|impls|] == copy;
    forall j | 0 <= j < |impls| ensures c'.Member(impls[j], c.views[j], {}) {
      assert c.Member(impls[j], c.views[j], {copy});
    }
    c.ShowsWith(copy, c.views[i]);
  }

  /** Carries out an operation that changes one of them. */
  method ChangeOne<W>(impls: seq<EditFstImpl<W>>, op: Op<W>, ghost c: Family<W>)
    requires c.Shows() && c.impls == impls && OpAllowed(c.wrapped, c.views, op) && !op.Copy?
    modifies impls[op.i], impls[op.i].data
    ensures c.(views := Apply(c.wrapped, c.zero, c.views, op)).Shows()
    ensures forall j :: 0 <= j < |impls| ==> impls[j].data == old(impls[j].data) || fresh(impls[j].data)
  {
    assert c.Member(impls[op.i], c.views[op.i], {});
    ChangeImpl(impls[op.i], op, c.views);
    c.OthersShow(op.i);
  }

  /** The edited transducer to begin with. */
  method First<W>(wrapped: Fst<W>, zero: W) returns (impls: seq<EditFstImpl<W>>)
    ensures Family(impls, wrapped, zero, [wrapped]).Shows()
    ensures forall j :: 0 <= j < |impls| ==> fresh(impls[j]) && fresh(impls[j].data)
  {
    var impl := new EditFstImpl(wrapped, zero);
    impls := [impl];
    assert Family(impls, wrapped, zero, [wrapped]).Member(impl, wrapped, {});
  }

  /** After any sequence of operations, each of the edited transducers, whatever it shares, shows what the sequence
      makes of a plain one. */
  method Replay<W>(wrapped: Fst<W>, zero: W, ops: seq<Op<W>>) returns (impls: seq<EditFstImpl<W>>)
    requires Plain(wrapped, zero, ops).Some?
    ensures Family(impls, wrapped, zero, Plain(wrapped, zero, ops).value).Shows()
    ensures forall j :: 0 <= j < |impls| ==> fresh(impls[j]) && fresh(impls[j].data)
    decreases |ops|
  {
    if ops == [] {
      impls := First(wrapped, zero);
    } else {
      var n := |ops| - 1;
      impls := Replay(wrapped, zero, ops[..n]);
      ghost var c := Family(impls, wrapped, zero, Plain(wrapped, zero, ops[..n]).value);
      if ops[n].Copy? {
        var copy := AddCopy(impls, ops[n].i, c);
        impls := impls + [copy];
      } else {
        ChangeOne(impls, ops[n], c);
      }
    }
  }
}
