/** A mutable transducer, with the deletion of states. */
module VectorFsts {
  import opened Semirings
  import opened Fsts
  import opened Sequences

  /** The number of kept states before s, which becomes the new number of s. */
  function NewId(keep: seq<bool>, s: nat): (r: nat)
    requires s <= |keep|
    ensures r <= s
  {
    if s == 0 then 0 else NewId(keep, s - 1) + (if keep[s - 1] then 1 else 0)
  }

  lemma {:induction false} NewIdMonotone(keep: seq<bool>, s: nat, t: nat)
    requires s <= t <= |keep|
    ensures NewId(keep, s) <= NewId(keep, t)
    ensures s < t && keep[s] ==> NewId(keep, s) < NewId(keep, t)
  {
    if s < t {
      NewIdMonotone(keep, s, t - 1);
    }
  }

  /** Every number below the count of kept states belongs to exactly one kept state. */
  lemma {:induction false} NewIdOnto(keep: seq<bool>, n: nat, i: nat) returns (s: nat)
    requires n <= |keep| && i < NewId(keep, n)
    ensures s < n && keep[s] && NewId(keep, s) == i
  {
    if i == NewId(keep, n - 1) {
      s := n - 1;
    } else {
      s := NewIdOnto(keep, n - 1, i);
    }
  }

  /** The arcs to kept states, renumbered. */
  function KeptArcs<W>(arcs: seq<Arc<W>>, keep: seq<bool>): (r: seq<Arc<W>>)
    requires ValidArcs(arcs, |keep|)
    ensures |r| == ArcRank(arcs, keep, |arcs|)
  {
    if arcs == [] then []
    else
      var last := arcs[|arcs| - 1];
      ArcRankPrefix(arcs, keep, |arcs| - 1);
      KeptArcs(arcs[..|arcs| - 1], keep)
      + (if keep[last.nextstate] then [last.(nextstate := NewId(keep, last.nextstate))] else [])
  }

  /** The number of arcs to kept states before position i, which becomes the new position of arc i. */
  ghost function ArcRank<W>(arcs: seq<Arc<W>>, keep: seq<bool>, i: nat): (r: nat)
    requires ValidArcs(arcs, |keep|) && i <= |arcs|
    ensures r <= i
  {
    if i == 0 then 0 else ArcRank(arcs, keep, i - 1) + (if keep[arcs[i - 1].nextstate] then 1 else 0)
  }

  lemma {:induction false} ArcRankPrefix<W>(arcs: seq<Arc<W>>, keep: seq<bool>, i: nat)
    requires ValidArcs(arcs, |keep|) && i < |arcs|
    ensures ArcRank(arcs[..|arcs| - 1], keep, i) == ArcRank(arcs, keep, i)
  {
    if i > 0 {
      ArcRankPrefix(arcs, keep, i - 1);
    }
  }

  lemma {:induction false} ArcRankMonotone<W>(arcs: seq<Arc<W>>, keep: seq<bool>, i: nat, j: nat)
    requires ValidArcs(arcs, |keep|) && i <= j <= |arcs|
    ensures ArcRank(arcs, keep, i) <= ArcRank(arcs, keep, j)
    ensures i < j && keep[arcs[i].nextstate] ==> ArcRank(arcs, keep, i) < ArcRank(arcs, keep, j)
  {
    if i < j {
      ArcRankMonotone(arcs, keep, i, j - 1);
    }
  }

  /** Where a kept arc ends up. */
  lemma {:induction false} KeptArcAt<W>(arcs: seq<Arc<W>>, keep: seq<bool>, i: nat)
    requires ValidArcs(arcs, |keep|) && i < |arcs| && keep[arcs[i].nextstate]
    ensures ArcRank(arcs, keep, i) < |KeptArcs(arcs, keep)|
    ensures KeptArcs(arcs, keep)[ArcRank(arcs, keep, i)] == arcs[i].(nextstate := NewId(keep, arcs[i].nextstate))
  {
    ArcRankPrefix(arcs, keep, |arcs| - 1);
    if i < |arcs| - 1 {
      ArcRankPrefix(arcs, keep, i);
      KeptArcAt(arcs[..|arcs| - 1], keep, i);
    }
  }

  /** Every remaining arc comes from a kept one. */
  lemma {:induction false} KeptArcFrom<W>(arcs: seq<Arc<W>>, keep: seq<bool>, n: nat, j: nat) returns (i: nat)
    requires ValidArcs(arcs, |keep|) && n <= |arcs| && j < ArcRank(arcs, keep, n)
    ensures i < n && keep[arcs[i].nextstate] && ArcRank(arcs, keep, i) == j
  {
    if j == ArcRank(arcs, keep, n - 1) {
      i := n - 1;
    } else {
      i := KeptArcFrom(arcs, keep, n - 1, j);
    }
  }

  /** f' is f without the states that are not kept. */
  ghost predicate Restricted<W>(f: Fst<W>, keep: seq<bool>, f': Fst<W>) {
    && Valid(f) && |keep| == |f.states|
    && |f'.states| == NewId(keep, |keep|)
    && f'.start == (if f.start != NO_STATE_ID && keep[f.start] then NewId(keep, f.start) else NO_STATE_ID)
    && forall s :: 0 <= s < |keep| && keep[s] ==>
      && NewId(keep, s) < |f'.states|
      && f'.states[NewId(keep, s)] == State(f.states[s].final, KeptArcs(f.states[s].arcs, keep))
  }

  /** Which of n states remain when some are deleted. */
  ghost function Remaining(n: nat, dstates: seq<nat>): (keep: seq<bool>)
    ensures |keep| == n && forall s :: 0 <= s < n ==> keep[s] == (s !in dstates)
  {
    seq(n, s requires 0 <= s < n => s !in dstates)
  }

  ghost predicate NumbersOf(keep: seq<bool>, newid: seq<int>) {
    |newid| == |keep| && forall t :: 0 <= t < |keep| ==> newid[t] == (if keep[t] then NewId(keep, t) else NO_STATE_ID)
  }

  /** A kept state's number is its own. */
  lemma OnlyOne(keep: seq<bool>, t: nat)
    requires t < |keep| && keep[t]
    ensures forall s :: 0 <= s < |keep| && keep[s] && NewId(keep, s) == NewId(keep, t) ==> s == t
  {
    forall s | 0 <= s < |keep| && keep[s] && s != t ensures NewId(keep, s) != NewId(keep, t) {
      NewIdMonotone(keep, if s < t then s else t, if s < t then t else s);
    }
  }

  lemma {:induction false} NewIdOfAll(keep: seq<bool>, s: nat)
    requires s <= |keep| && forall t :: 0 <= t < |keep| ==> keep[t]
    ensures NewId(keep, s) == s
  {
    if s > 0 {
      NewIdOfAll(keep, s - 1);
    }
  }

  lemma {:induction false} KeptArcsOfAll<W>(arcs: seq<Arc<W>>, keep: seq<bool>)
    requires ValidArcs(arcs, |keep|) && forall t :: 0 <= t < |keep| ==> keep[t]
    ensures KeptArcs(arcs, keep) == arcs
  {
    if arcs != [] {
      KeptArcsOfAll(arcs[..|arcs| - 1], keep);
      NewIdOfAll(keep, arcs[|arcs| - 1].nextstate);
    }
  }

  /** Deleting nothing changes nothing. */
  lemma RestrictedToAll<W>(f: Fst<W>)
    requires Valid(f)
    ensures Restricted(f, Remaining(|f.states|, []), f)
  {
    var keep := Remaining(|f.states|, []);
    NewIdOfAll(keep, |keep|);
    forall s | 0 <= s < |keep|
      ensures NewId(keep, s) == s && f.states[s] == State(f.states[s].final, KeptArcs(f.states[s].arcs, keep))
    {
      NewIdOfAll(keep, s);
      KeptArcsOfAll(f.states[s].arcs, keep);
    }
  }

  class VectorFst<W> {
    var start: int
    var states: seq<State<W>>

    ghost function Contents(): Fst<W>
      reads this
    {
      Fst(start, states)
    }

    constructor (f: Fst<W>)
      ensures Contents() == f
    {
      start, states := f.start, f.states;
    }

    method AddState(zero: W) returns (s: nat)
      modifies this
      ensures s == |old(states)| && start == old(start) && states == old(states) + [State(zero, [])]
    {
      s := |states|;
      states := states + [State(zero, [])];
    }

    method SetFinal(s: nat, weight: W)
      requires s < |states|
      modifies this
      ensures start == old(start) && states == old(states)[s := State(weight, old(states)[s].arcs)]
    {
      states := states[s := State(weight, states[s].arcs)];
    }

    method SetStart(s: int)
      modifies this
      ensures start == s && states == old(states)
    {
      start := s;
    }

    method AddArc(s: nat, arc: Arc<W>)
      requires s < |states|
      modifies this
      ensures start == old(start)
      ensures states == old(states)[s := State(old(states)[s].final, old(states)[s].arcs + [arc])]
    {
      states := states[s := State(states[s].final, states[s].arcs + [arc])];
    }

    method DeleteAllStates()
      modifies this
      ensures Contents() == Fst(NO_STATE_ID, [])
    {
      start, states := NO_STATE_ID, [];
    }

    method SetArc(s: nat, pos: nat, arc: Arc<W>)
      requires s < |states| && pos < |states[s].arcs|
      modifies this
      ensures start == old(start)
      ensures states == old(states)[s := State(old(states)[s].final, old(states)[s].arcs[pos := arc])]
    {
      states := states[s := State(states[s].final, states[s].arcs[pos := arc])];
    }

    /** Deletes states with the arcs into them and renumbers the rest in order. */
    method DeleteStates(dstates: seq<nat>)
      requires Valid(Contents()) && forall d :: d in dstates ==> d < |states|
      modifies this
      ensures Restricted(old(Contents()), Remaining(|old(states)|, dstates), Contents())
    {
      if dstates == [] {
        RestrictedToAll(Contents());
        return;
      }
      ghost var keep := Remaining(|states|, dstates);
      var newid, kept := NewIds(dstates);
      states := kept;
      RenumberArcs(old(Contents()), newid, keep);
      if start != NO_STATE_ID {
        start := newid[start];
      }
      forall s | 0 <= s < |keep| && keep[s] ensures NewId(keep, s) < |states| {
        NewIdMonotone(keep, s, |keep|);
      }
    }

    /** The new numbers, NO_STATE_ID for the states to go, and the states that stay. */
    method NewIds(dstates: seq<nat>) returns (newid: seq<int>, kept: seq<State<W>>)
      requires forall d :: d in dstates ==> d < |states|
      ensures var keep := Remaining(|states|, dstates);
        && NumbersOf(keep, newid) && |kept| == NewId(keep, |keep|)
        && forall t :: 0 <= t < |keep| && keep[t] ==> NewId(keep, t) < |kept| && kept[NewId(keep, t)] == states[t]
    {
      ghost var keep := Remaining(|states|, dstates);
      newid := seq(|states|, _ => 0);
      for i := 0 to |dstates|
        invariant |newid| == |states|
        invariant forall s :: 0 <= s < |states| ==> newid[s] == (if s in dstates[..i] then NO_STATE_ID else 0)
      {
        assert dstates[i] in dstates;
        TakeNext(dstates, i);
        newid := newid[dstates[i] := NO_STATE_ID];
      }
      TakeAll(dstates);
      kept := [];
      for s := 0 to |states|
        invariant |newid| == |states| && |kept| == NewId(keep, s)
        invariant forall t :: 0 <= t < s ==> newid[t] == (if keep[t] then NewId(keep, t) else NO_STATE_ID)
        invariant forall t :: s <= t < |states| ==> newid[t] == (if keep[t] then 0 else NO_STATE_ID)
        invariant forall t :: 0 <= t < s && keep[t] ==> NewId(keep, t) < |kept| && kept[NewId(keep, t)] == states[t]
      {
        if newid[s] != NO_STATE_ID {
          newid := newid[s := |kept|];
          kept := kept + [states[s]];
        }
      }
    }

    /** Drops the arcs to deleted states and renumbers the others. */
    method RenumberArcs(ghost f: Fst<W>, newid: seq<int>, ghost keep: seq<bool>)
      requires Valid(f) && |keep| == |f.states| && NumbersOf(keep, newid) && |states| == NewId(keep, |keep|)
      requires forall t :: 0 <= t < |keep| && keep[t] ==>
        NewId(keep, t) < |states| && states[NewId(keep, t)] == f.states[t]
      modifies `states
      ensures |states| == |old(states)|
      ensures forall t :: 0 <= t < |keep| && keep[t] ==>
        states[NewId(keep, t)] == State(f.states[t].final, KeptArcs(f.states[t].arcs, keep))
    {
      for i := 0 to |states|
        invariant |states| == |old(states)|
        invariant forall j :: i <= j < |states| ==> states[j] == old(states)[j]
        invariant forall t :: 0 <= t < |keep| && keep[t] && NewId(keep, t) < i ==>
          states[NewId(keep, t)] == State(f.states[t].final, KeptArcs(f.states[t].arcs, keep))
      {
        ghost var t := NewIdOnto(keep, |keep|, i);
        OnlyOne(keep, t);
        var arcs := KeepArcs(states[i].arcs, newid, keep);
        states := states[i := State(states[i].final, arcs)];
      }
    }

    /** Moves the arcs to kept states to the front, renumbered. */
    static method KeepArcs(arcs: seq<Arc<W>>, newid: seq<int>, ghost keep: seq<bool>) returns (r: seq<Arc<W>>)
      requires ValidArcs(arcs, |keep|)
      requires NumbersOf(keep, newid)
      ensures r == KeptArcs(arcs, keep)
    {
      r := [];
      for i := 0 to |arcs|
        invariant r == KeptArcs(arcs[..i], keep)
      {
        TakeNext(arcs, i);
        var t := newid[arcs[i].nextstate];
        if t != NO_STATE_ID {
          r := r + [arcs[i].(nextstate := t)];
        }
      }
      TakeAll(arcs);
    }
  }

}
