/** The epsilon filters of composition: small state machines over the moves of the two transducers. */
module ComposeFilters {
  import opened Semirings
  import opened Fsts

  datatype FilterKind = SequenceFilter | AltSequenceFilter | MatchFilter

  // FilterState::NoState(): the move is blocked.
  const NO_STATE := -1

  /** alleps: only epsilons leave the (non-final) state; noeps: no epsilon leaves the state. */
  datatype Flags = Flags(alleps1: bool, noeps1: bool, alleps2: bool, noeps2: bool)

  function NumOutputEpsilons<W>(arcs: seq<Arc<W>>): (n: nat)
    ensures n <= |arcs|
    ensures n == 0 <==> forall i :: 0 <= i < |arcs| ==> arcs[i].olabel != EPSILON
    ensures n == |arcs| <==> forall i :: 0 <= i < |arcs| ==> arcs[i].olabel == EPSILON
  {
    if arcs == [] then 0
    else
      assert forall i :: 0 < i < |arcs| ==> arcs[i] == arcs[1..][i - 1];
      (if arcs[0].olabel == EPSILON then 1 else 0) + NumOutputEpsilons(arcs[1..])
  }

  function NumInputEpsilons<W>(arcs: seq<Arc<W>>): (n: nat)
    ensures n <= |arcs|
    ensures n == 0 <==> forall i :: 0 <= i < |arcs| ==> arcs[i].ilabel != EPSILON
    ensures n == |arcs| <==> forall i :: 0 <= i < |arcs| ==> arcs[i].ilabel == EPSILON
  {
    if arcs == [] then 0
    else
      assert forall i :: 0 < i < |arcs| ==> arcs[i] == arcs[1..][i - 1];
      (if arcs[0].ilabel == EPSILON then 1 else 0) + NumInputEpsilons(arcs[1..])
  }

  /** Epsilons of FST1 are read before epsilons of FST2. */
  function SequenceFilterArc<W>(flags: Flags, fs: int, arc1: Arc<W>, arc2: Arc<W>): int {
    if arc1.olabel == NO_LABEL then
      if flags.alleps1 then NO_STATE else if flags.noeps1 then 0 else 1
    else if arc2.ilabel == NO_LABEL then
      if fs != 0 then NO_STATE else 0
    else
      if arc1.olabel == EPSILON then NO_STATE else 0
  }

  /** Epsilons of FST2 are read before epsilons of FST1. */
  function AltSequenceFilterArc<W>(flags: Flags, fs: int, arc1: Arc<W>, arc2: Arc<W>): int {
    if arc2.ilabel == NO_LABEL then
      if flags.alleps2 then NO_STATE else if flags.noeps2 then 0 else 1
    else if arc1.olabel == NO_LABEL then
      if fs == 1 then NO_STATE else 0
    else
      if arc1.olabel == EPSILON then NO_STATE else 0
  }

  /** Epsilons of FST1 are matched with epsilons of FST2 whenever possible. */
  function MatchFilterArc<W>(flags: Flags, fs: int, arc1: Arc<W>, arc2: Arc<W>): int {
    if arc2.ilabel == NO_LABEL then
      if fs == 0 then
        if flags.noeps2 then 0 else if flags.alleps2 then NO_STATE else 1
      else if fs == 1 then 1 else NO_STATE
    else if arc1.olabel == NO_LABEL then
      if fs == 0 then
        if flags.noeps1 then 0 else if flags.alleps1 then NO_STATE else 2
      else if fs == 2 then 2 else NO_STATE
    else if arc1.olabel == EPSILON then
      if fs == 0 then 0 else NO_STATE
    else 0
  }

  function FilterArc<W>(kind: FilterKind, flags: Flags, fs: int, arc1: Arc<W>, arc2: Arc<W>): int {
    match kind
    case SequenceFilter => SequenceFilterArc(flags, fs, arc1, arc2)
    case AltSequenceFilter => AltSequenceFilterArc(flags, fs, arc1, arc2)
    case MatchFilter => MatchFilterArc(flags, fs, arc1, arc2)
  }

  /** What alleps and noeps are to mean at a pair of states, said without counting. */
  ghost function FlagsAt<W>(k: Semiring<W>, st1: State<W>, st2: State<W>): Flags {
    Flags((forall i :: 0 <= i < |st1.arcs| ==> st1.arcs[i].olabel == EPSILON) && st1.final == k.Zero,
          forall i :: 0 <= i < |st1.arcs| ==> st1.arcs[i].olabel != EPSILON,
          (forall i :: 0 <= i < |st2.arcs| ==> st2.arcs[i].ilabel == EPSILON) && st2.final == k.Zero,
          forall i :: 0 <= i < |st2.arcs| ==> st2.arcs[i].ilabel != EPSILON)
  }

  /** A filter object: the state it was last set to, with the flags of that state. */
  class ComposeFilter<W(==)> {
    const kind: FilterKind
    const k: Semiring<W>
    const fst1: Fst<W>
    const fst2: Fst<W>
    var s1: int
    var s2: int
    var fs: int
    var flags: Flags

    /** The flags a filter of this kind reads are those of the states it was set to. */
    ghost predicate Valid()
      reads this
    {
      s1 == NO_STATE_ID || (
        && 0 <= s1 < |fst1.states| && 0 <= s2 < |fst2.states|
        && var at := FlagsAt(k, fst1.states[s1], fst2.states[s2]);
        && (kind != AltSequenceFilter ==> flags.alleps1 == at.alleps1 && flags.noeps1 == at.noeps1)
        && (kind != SequenceFilter ==> flags.alleps2 == at.alleps2 && flags.noeps2 == at.noeps2))
    }

    constructor (kind: FilterKind, k: Semiring<W>, fst1: Fst<W>, fst2: Fst<W>)
      ensures Valid() && this.kind == kind && this.k == k && this.fst1 == fst1 && this.fst2 == fst2
    {
      this.kind, this.k, this.fst1, this.fst2 := kind, k, fst1, fst2;
      s1, s2, fs := NO_STATE_ID, NO_STATE_ID, NO_STATE_ID;
      flags := Flags(false, false, false, false);
    }

    static function Start(): int { 0 }

    method SetState(s1: nat, s2: nat, fs: int)
      requires Valid() && s1 < |fst1.states| && s2 < |fst2.states|
      modifies this
      ensures Valid() && this.s1 == s1 && this.s2 == s2 && this.fs == fs
    {
      if this.s1 == s1 && this.s2 == s2 && this.fs == fs {
        return;
      }
      this.s1, this.s2, this.fs := s1, s2, fs;
      if kind != AltSequenceFilter {
        var na1 := |fst1.states[s1].arcs|;
        var ne1 := NumOutputEpsilons(fst1.states[s1].arcs);
        var fin1 := fst1.states[s1].final != k.Zero;
        flags := flags.(alleps1 := na1 == ne1 && !fin1, noeps1 := ne1 == 0);
      }
      if kind != SequenceFilter {
        var na2 := |fst2.states[s2].arcs|;
        var ne2 := NumInputEpsilons(fst2.states[s2].arcs);
        var fin2 := fst2.states[s2].final != k.Zero;
        flags := flags.(alleps2 := na2 == ne2 && !fin2, noeps2 := ne2 == 0);
      }
    }

    /** The answer depends on the current states and filter state only, never on what was set before. */
    method FilterArcs(arc1: Arc<W>, arc2: Arc<W>) returns (next: int)
      requires Valid() && s1 != NO_STATE_ID
      ensures next == FilterArc(kind, FlagsAt(k, fst1.states[s1], fst2.states[s2]), fs, arc1, arc2)
    {
      next := FilterArc(kind, flags, fs, arc1, arc2);
    }
  }
}
