/** Edits over a wrapped transducer: only changed states are copied, and copies share their edits until one changes. */
module EditFsts {
  import opened Semirings
  import opened Fsts
  import opened Sequences

  // ---- The operations on a plain mutable transducer

  function WithFinal<W>(f: Fst<W>, s: nat, weight: W): Fst<W>
    requires s < |f.states|
  {
    f.(states := f.states[s := State(weight, f.states[s].arcs)])
  }

  function WithArcs<W>(f: Fst<W>, s: nat, arcs: seq<Arc<W>>): Fst<W>
    requires s < |f.states|
  {
    f.(states := f.states[s := State(f.states[s].final, arcs)])
  }

  function WithState<W>(f: Fst<W>, zero: W): Fst<W> {
    f.(states := f.states + [State(zero, [])])
  }

  /** Without its last n elements, empty if there are fewer. */
  function DropEnd<T>(s: seq<T>, n: nat): seq<T> {
    if n >= |s| then [] else s[..|s| - n]
  }

  /** The first n elements, all if there are fewer: what the documentation says is kept. */
  function FirstOnes<T>(s: seq<T>, n: nat): seq<T> {
    if n >= |s| then s else s[..n]
  }

  /** Deleting the last n keeps the first n only if there is nothing, or exactly twice as much as is deleted. */
  lemma DropEndKeepsFirstIff<T>(s: seq<T>, n: nat)
    ensures DropEnd(s, n) == FirstOnes(s, n) <==> |s| == 0 || |s| == 2 * n
  {
    assert |DropEnd(s, n)| == if n >= |s| then 0 else |s| - n;
  }

  lemma DropEndExample()
    ensures DropEnd([7, 8, 9], 1) == [7, 8] && FirstOnes([7, 8, 9], 1) == [7]
  {
  }

  // ---- The edits

  /** Copied and new states are found in the edits, each in its own; the two maps have no key in common. */
  ghost predicate ValidEdits<W>(wrapped: Fst<W>, edits: Fst<W>, ids: map<nat, nat>, finals: map<nat, W>, n: nat) {
    && ids.Keys !! finals.Keys
    && (forall s :: s in finals ==> s < |wrapped.states|)
    && (forall s :: s in ids ==> s < |wrapped.states| + n && ids[s] < |edits.states|)
    && (forall s, t :: s in ids && t in ids && s != t ==> ids[s] != ids[t])
    && (forall s :: |wrapped.states| <= s < |wrapped.states| + n ==> s in ids)
  }

  function FinalIn<W>(wrapped: Fst<W>, edits: Fst<W>, ids: map<nat, nat>, finals: map<nat, W>, n: nat, s: nat): W
    requires ValidEdits(wrapped, edits, ids, finals, n) && s < |wrapped.states| + n
  {
    if s !in finals then if s !in ids then wrapped.states[s].final else edits.states[ids[s]].final
    else finals[s]
  }

  function ArcsIn<W>(
    wrapped: Fst<W>, edits: Fst<W>, ids: map<nat, nat>, finals: map<nat, W>, n: nat, s: nat
  ): seq<Arc<W>>
    requires ValidEdits(wrapped, edits, ids, finals, n) && s < |wrapped.states| + n
  {
    if s !in ids then wrapped.states[s].arcs else edits.states[ids[s]].arcs
  }

  /** The transducer that the edits make of the wrapped one. */
  ghost function Overlay<W>(
    wrapped: Fst<W>, edits: Fst<W>, ids: map<nat, nat>, finals: map<nat, W>, n: nat
  ): (f: Fst<W>)
    requires ValidEdits(wrapped, edits, ids, finals, n)
    ensures |f.states| == |wrapped.states| + n
  {
    Fst(if edits.start == NO_STATE_ID then wrapped.start else edits.start,
        seq(|wrapped.states| + n, s requires 0 <= s < |wrapped.states| + n =>
          State(FinalIn(wrapped, edits, ids, finals, n, s), ArcsIn(wrapped, edits, ids, finals, n, s))))
  }

  class EditFstData<W> {
    const zero: W
    // New states and copies of changed ones.
    var edits: Fst<W>
    var externalToInternalIds: map<nat, nat>
    // Final weights of states of which nothing else has changed.
    var editedFinalWeights: map<nat, W>
    var numNewStates: nat
    var useCount: nat
    ghost var owners: set<EditFstImpl<W>>

    ghost predicate ValidFor(wrapped: Fst<W>)
      reads `edits, `externalToInternalIds, `editedFinalWeights, `numNewStates
    {
      ValidEdits(wrapped, edits, externalToInternalIds, editedFinalWeights, numNewStates)
    }

    /** The transducer as its users see it. */
    ghost function View(wrapped: Fst<W>): (f: Fst<W>)
      requires ValidFor(wrapped)
      reads `edits, `externalToInternalIds, `editedFinalWeights, `numNewStates
      ensures |f.states| == |wrapped.states| + numNewStates
    {
      Overlay(wrapped, edits, externalToInternalIds, editedFinalWeights, numNewStates)
    }

    constructor (zero: W)
      ensures this.zero == zero && fresh(this) && useCount == 0 && owners == {}
      ensures forall wrapped :: ValidFor(wrapped) && View(wrapped) == wrapped
    {
      this.zero := zero;
      edits, externalToInternalIds, editedFinalWeights, numNewStates := Fst(NO_STATE_ID, []), map[], map[], 0;
      useCount, owners := 0, {};
      new;
      forall wrapped ensures View(wrapped) == wrapped {
        assert View(wrapped).states == wrapped.states;
      }
    }

    /** An unshared copy. */
    constructor Copy(other: EditFstData<W>)
      ensures fresh(this) && useCount == 0 && owners == {} && zero == other.zero
      ensures edits == other.edits && externalToInternalIds == other.externalToInternalIds
      ensures editedFinalWeights == other.editedFinalWeights && numNewStates == other.numNewStates
    {
      zero := other.zero;
      edits, externalToInternalIds, editedFinalWeights, numNewStates :=
        other.edits, other.externalToInternalIds, other.editedFinalWeights, other.numNewStates;
      useCount, owners := 0, {};
    }

    function Start(wrapped: Fst<W>): (s: int)
      requires ValidFor(wrapped)
      reads `edits, `externalToInternalIds, `editedFinalWeights, `numNewStates
      ensures s == View(wrapped).start
    {
      if edits.start == NO_STATE_ID then wrapped.start else edits.start
    }

    function Final(s: nat, wrapped: Fst<W>): (weight: W)
      requires ValidFor(wrapped) && s < |View(wrapped).states|
      reads `edits, `externalToInternalIds, `editedFinalWeights, `numNewStates
      ensures weight == View(wrapped).states[s].final
    {
      FinalIn(wrapped, edits, externalToInternalIds, editedFinalWeights, numNewStates, s)
    }

    /** What the arc iterators run over. */
    function Arcs(s: nat, wrapped: Fst<W>): (arcs: seq<Arc<W>>)
      requires ValidFor(wrapped) && s < |View(wrapped).states|
      reads `edits, `externalToInternalIds, `editedFinalWeights, `numNewStates
      ensures arcs == View(wrapped).states[s].arcs
    {
      ArcsIn(wrapped, edits, externalToInternalIds, editedFinalWeights, numNewStates, s)
    }

    /** Without a start of its own the wrapped one shows through, so NO_STATE_ID can be set only if there is none. */
    method SetStart(s: int, wrapped: Fst<W>)
      requires ValidFor(wrapped)
      modifies `edits
      ensures ValidFor(wrapped)
      ensures View(wrapped) == old(View(wrapped)).(start := s) <==> s != NO_STATE_ID || wrapped.start == NO_STATE_ID
    {
      edits := edits.(start := s);
      assert View(wrapped).states == old(View(wrapped)).states;
    }

    /** The internal id of a state, which is copied first if it has not been changed yet. */
    method GetEditableInternalId(s: nat, wrapped: Fst<W>) returns (id: nat)
      requires ValidFor(wrapped) && s < |View(wrapped).states|
      modifies `edits, `externalToInternalIds, `editedFinalWeights
      ensures ValidFor(wrapped) && s in externalToInternalIds && externalToInternalIds[s] == id
      ensures View(wrapped) == old(View(wrapped))
      ensures s in old(externalToInternalIds) ==> unchanged(this)
    {
      if s in externalToInternalIds {
        return externalToInternalIds[s];
      }
      id := |edits.states|;
      var arcs: seq<Arc<W>> := [];
      for i := 0 to |wrapped.states[s].arcs|
        invariant unchanged(this) && arcs == wrapped.states[s].arcs[..i]
      {
        TakeNext(wrapped.states[s].arcs, i);
        arcs := arcs + [wrapped.states[s].arcs[i]];
      }
      TakeAll(wrapped.states[s].arcs);
      edits := edits.(states := edits.states + [State(Final(s, wrapped), arcs)]);
      externalToInternalIds := externalToInternalIds[s := id];
      editedFinalWeights := editedFinalWeights - {s};
      assert View(wrapped).states == old(View(wrapped)).states;
    }

    /** Changes a state that is in the edits. */
    method Put(s: nat, st: State<W>, wrapped: Fst<W>)
      requires ValidFor(wrapped) && s in externalToInternalIds
      modifies `edits
      ensures ValidFor(wrapped) && View(wrapped) == old(View(wrapped)).(states := old(View(wrapped)).states[s := st])
    {
      edits := edits.(states := edits.states[externalToInternalIds[s] := st]);
      assert View(wrapped).states == old(View(wrapped)).states[s := st];
    }

    /** Sets the final weight without copying the state; returns the old one. */
    method SetFinal(s: nat, weight: W, wrapped: Fst<W>) returns (oldWeight: W)
      requires ValidFor(wrapped) && s < |View(wrapped).states|
      modifies `edits, `externalToInternalIds, `editedFinalWeights
      ensures ValidFor(wrapped) && View(wrapped) == WithFinal(old(View(wrapped)), s, weight)
      ensures oldWeight == old(View(wrapped)).states[s].final && externalToInternalIds == old(externalToInternalIds)
    {
      oldWeight := Final(s, wrapped);
      if s !in externalToInternalIds {
        editedFinalWeights := editedFinalWeights[s := weight];
        assert View(wrapped).states == WithFinal(old(View(wrapped)), s, weight).states;
      } else {
        var id := GetEditableInternalId(s, wrapped);
        Put(s, State(weight, edits.states[id].arcs), wrapped);
      }
    }

    method AddState(currNumStates: nat) returns (s: nat)
      modifies `edits, `externalToInternalIds, `numNewStates
      ensures s == currNumStates && externalToInternalIds == old(externalToInternalIds)[s := |old(edits).states|]
      ensures edits == WithState(old(edits), zero) && numNewStates == old(numNewStates) + 1
    {
      s := currNumStates;
      externalToInternalIds := externalToInternalIds[s := |edits.states|];
      edits := WithState(edits, zero);
      numNewStates := numNewStates + 1;
    }

    /** What one added state does to the view. */
    twostate lemma StateAdded(wrapped: Fst<W>)
      requires old(ValidFor(wrapped)) && editedFinalWeights == old(editedFinalWeights)
      requires externalToInternalIds ==
        old(externalToInternalIds)[|wrapped.states| + old(numNewStates) := |old(edits).states|]
      requires edits == WithState(old(edits), zero) && numNewStates == old(numNewStates) + 1
      ensures ValidFor(wrapped) && View(wrapped) == WithState(old(View(wrapped)), zero)
    {
      assert View(wrapped).states == WithState(old(View(wrapped)), zero).states;
    }

    /** Adding n states at once reuses one external id, so it works only for at most one. */
    method AddStates(currNumStates: nat, n: nat, ghost wrapped: Fst<W>)
      requires ValidFor(wrapped) && currNumStates == |View(wrapped).states|
      modifies `edits, `externalToInternalIds, `numNewStates
      ensures ValidFor(wrapped) <==> n <= 1
      ensures n == 0 ==> View(wrapped) == old(View(wrapped))
      ensures n == 1 ==> View(wrapped) == WithState(old(View(wrapped)), zero)
    {
      var curr := currNumStates;
      for i := 0 to n
        invariant curr == currNumStates && numNewStates == old(numNewStates) + i
        invariant i == 0 ==> unchanged(this)
        invariant i == 1 ==> edits == WithState(old(edits), zero)
        invariant i == 1 ==> externalToInternalIds == old(externalToInternalIds)[curr := |old(edits).states|]
        invariant externalToInternalIds.Keys == old(externalToInternalIds).Keys + (if i == 0 then {} else {curr})
      {
        curr := AddState(curr);
      }
      if n == 1 {
        StateAdded(wrapped);
      } else if n >= 2 {
        assert curr + 1 !in externalToInternalIds;
      }
    }

    /** Adds an arc; returns the last one before it. */
    method AddArc(s: nat, arc: Arc<W>, wrapped: Fst<W>) returns (prev: Option<Arc<W>>)
      requires ValidFor(wrapped) && s < |View(wrapped).states|
      modifies `edits, `externalToInternalIds, `editedFinalWeights
      ensures ValidFor(wrapped)
      ensures var arcs := old(View(wrapped)).states[s].arcs;
        && View(wrapped) == WithArcs(old(View(wrapped)), s, arcs + [arc])
        && prev == if arcs == [] then None else Some(arcs[|arcs| - 1])
    {
      ghost var before := View(wrapped).states[s];
      var id := GetEditableInternalId(s, wrapped);
      assert before == View(wrapped).states[s] == edits.states[id];
      var arcs := edits.states[id].arcs;
      prev := if |arcs| > 0 then Some(arcs[|arcs| - 1]) else None;
      Put(s, State(edits.states[id].final, arcs + [arc]), wrapped);
    }

    /** Deletes the last n arcs of a state, all of them if there are fewer. */
    method DeleteArcs(s: nat, n: nat, wrapped: Fst<W>)
      requires ValidFor(wrapped) && s < |View(wrapped).states|
      modifies `edits, `externalToInternalIds, `editedFinalWeights
      ensures ValidFor(wrapped)
      ensures View(wrapped) == WithArcs(old(View(wrapped)), s, DropEnd(old(View(wrapped)).states[s].arcs, n))
    {
      ghost var before := View(wrapped).states[s];
      var id := GetEditableInternalId(s, wrapped);
      assert before == View(wrapped).states[s] == edits.states[id];
      Put(s, State(edits.states[id].final, DropEnd(edits.states[id].arcs, n)), wrapped);
    }
  }

  /** The last owner is the only one. */
  lemma OnlyOwner<T>(owners: set<T>, a: T)
    requires a in owners && |owners| <= 1
    ensures owners == {a}
  {
    forall b | b in owners ensures b == a {
      if b != a {
        var two := {a, b};
        assert two <= owners && |two| == 2;
        SubsetSize(two, owners);
        assert false;
      }
    }
  }

  lemma {:induction false} SubsetSize<T>(a: set<T>, b: set<T>)
    requires a <= b
    ensures |a| <= |b|
  {
    if a != {} {
      var x :| x in a;
      SubsetSize(a - {x}, b - {x});
    }
  }

  class EditFstImpl<W> {
    var wrapped: Fst<W>
    var data: EditFstData<W>

    /** The copies that share the edits are the ones counted. */
    ghost predicate Valid()
      reads this, data, data.owners
    {
      && data.ValidFor(wrapped) && this in data.owners && |data.owners| == data.useCount
      && forall b :: b in data.owners ==> b.data == data && data.ValidFor(b.wrapped)
    }

    ghost function View(): Fst<W>
      reads this, data
      requires data.ValidFor(wrapped)
    {
      data.View(wrapped)
    }

    constructor (f: Fst<W>, zero: W)
      ensures Valid() && wrapped == f && View() == f && fresh(data) && data.owners == {this} && data.zero == zero
    {
      wrapped := f;
      data := new EditFstData(zero);
      new;
      data.useCount, data.owners := 1, {this};
    }

    /** A copy shares the edits. */
    constructor Copy(impl: EditFstImpl<W>)
      requires impl.Valid()
      modifies impl.data
      ensures Valid() && data == impl.data == old(impl.data) && wrapped == impl.wrapped
      ensures View() == old(impl.View()) && data.owners == old(impl.data.owners) + {this}
      ensures forall b :: b in old(impl.data.owners) ==> b.Valid() && b.View() == old(b.View())
    {
      wrapped := impl.wrapped;
      data := impl.data;
      new;
      data.useCount, data.owners := data.useCount + 1, data.owners + {this};
    }

    /** Takes a copy of the edits before they change, if they are shared. */
    method MutateCheck()
      requires Valid()
      modifies this, data
      ensures Valid() && data.owners == {this} && wrapped == old(wrapped) && View() == old(View())
      ensures data.zero == old(data.zero)
      ensures fresh(data) || (data == old(data) && old(data.owners) == {this})
      ensures old(data).owners <= old(data.owners)
      ensures forall b :: b in old(data.owners) && b != this ==> b.Valid() && b.View() == old(b.View())
    {
      if data.useCount > 1 {
        Unshare();
      } else {
        OnlyOwner(data.owners, this);
      }
    }

    method Unshare()
      requires Valid()
      modifies this, data
      ensures Valid() && data.owners == {this} && wrapped == old(wrapped) && View() == old(View())
      ensures data.zero == old(data.zero)
      ensures fresh(data) && old(data).owners <= old(data.owners)
      ensures forall b :: b in old(data.owners) && b != this ==> b.Valid() && b.View() == old(b.View())
    {
      ghost var d, rest := data, data.owners - {this};
      var copy := new EditFstData.Copy(data);
      data.owners, data.useCount := data.owners - {this}, data.useCount - 1;
      copy.owners, copy.useCount := {this}, 1;
      data := copy;
      assert d.owners == rest && d.useCount == |rest|;
      forall b | b in rest ensures b.Valid() && b.View() == old(b.View()) {
        assert b.data == d && d.ValidFor(b.wrapped);
      }
    }

    /** Sets the start state, any but NO_STATE_ID. */
    method SetStart(s: int)
      requires Valid() && s >= NO_STATE_ID
      modifies this, data
      ensures Valid() && wrapped == old(wrapped) && (data == old(data) || fresh(data)) && data.zero == old(data.zero)
      ensures data.owners == {this} && old(data).owners <= old(data.owners)
      ensures View() == old(View()).(start := s) <==> s != NO_STATE_ID || wrapped.start == NO_STATE_ID
      ensures forall b :: b in old(data.owners) && b != this ==> b.Valid() && b.View() == old(b.View())
    {
      MutateCheck();
      data.SetStart(s, wrapped);
    }

    /** Sets a final weight. */
    method SetFinal(s: nat, weight: W)
      requires Valid() && s < |View().states|
      modifies this, data
      ensures Valid() && wrapped == old(wrapped) && (data == old(data) || fresh(data)) && data.zero == old(data.zero)
      ensures data.owners == {this} && old(data).owners <= old(data.owners)
      ensures View() == WithFinal(old(View()), s, weight)
      ensures forall b :: b in old(data.owners) && b != this ==> b.Valid() && b.View() == old(b.View())
    {
      MutateCheck();
      var oldWeight := data.SetFinal(s, weight, wrapped);
    }

    /** Adds a state. */
    method AddState() returns (s: nat)
      requires Valid()
      modifies this, data
      ensures Valid() && wrapped == old(wrapped) && (data == old(data) || fresh(data)) && data.zero == old(data.zero)
      ensures data.owners == {this} && old(data).owners <= old(data.owners)
      ensures s == |old(View()).states| && View() == WithState(old(View()), data.zero)
      ensures forall b :: b in old(data.owners) && b != this ==> b.Valid() && b.View() == old(b.View())
    {
      MutateCheck();
      label before:
      s := data.AddState(|wrapped.states| + data.numNewStates);
      data.StateAdded@before(wrapped);
    }

    /** Adds an arc. */
    method AddArc(s: nat, arc: Arc<W>)
      requires Valid() && s < |View().states|
      modifies this, data
      ensures Valid() && wrapped == old(wrapped) && (data == old(data) || fresh(data)) && data.zero == old(data.zero)
      ensures data.owners == {this} && old(data).owners <= old(data.owners)
      ensures View() == WithArcs(old(View()), s, old(View()).states[s].arcs + [arc])
      ensures forall b :: b in old(data.owners) && b != this ==> b.Valid() && b.View() == old(b.View())
    {
      MutateCheck();
      var prev := data.AddArc(s, arc, wrapped);
    }

    /** Deletes the last n arcs of a state. */
    method DeleteArcs(s: nat, n: nat)
      requires Valid() && s < |View().states|
      modifies this, data
      ensures Valid() && wrapped == old(wrapped) && (data == old(data) || fresh(data)) && data.zero == old(data.zero)
      ensures data.owners == {this} && old(data).owners <= old(data.owners)
      ensures View() == WithArcs(old(View()), s, DropEnd(old(View()).states[s].arcs, n))
      ensures forall b :: b in old(data.owners) && b != this ==> b.Valid() && b.View() == old(b.View())
    {
      MutateCheck();
      data.DeleteArcs(s, n, wrapped);
    }
  }
}
