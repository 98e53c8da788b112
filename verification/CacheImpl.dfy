/** Which states of a delayed transducer are known and expanded, and the enumeration of its states. */
module CacheImpls {
  import opened Fsts

  /** The destinations of each state's arcs, whenever it is expanded. */
  type Successors = nat -> seq<nat>

  ghost predicate KnownBelow(succ: Successors, u: nat, n: nat) {
    forall i :: 0 <= i < |succ(u)| ==> succ(u)[i] < n
  }

  /** The first n ids contain the start and everything arcs lead to. */
  ghost predicate ClosedBelow(succ: Successors, start: int, n: nat) {
    start < n && forall u: nat :: u < n ==> KnownBelow(succ, u, n)
  }

  /** t can be reached from s in steps of the delayed transducer. */
  ghost predicate ReachedIn(succ: Successors, s: nat, p: seq<nat>, t: nat)
    decreases |p|
  {
    if p == [] then s == t else p[0] in succ(s) && ReachedIn(succ, p[0], p[1..], t)
  }

  lemma {:induction false} ClosedReaches(succ: Successors, start: int, n: nat, s: nat, p: seq<nat>, t: nat)
    requires ClosedBelow(succ, start, n) && s < n && ReachedIn(succ, s, p, t)
    ensures t < n
    decreases |p|
  {
    if p != [] {
      assert KnownBelow(succ, s, n);
      ClosedReaches(succ, start, n, p[0], p[1..], t);
    }
  }

  /** The bookkeeping with collection on: expanded states are remembered here, whatever the store has evicted. */
  class CacheBaseImpl {
    const succ: Successors
    const fstStart: int
    var hasStart: bool
    var cacheStart: int
    var nknownStates: nat
    var expandedStates: seq<bool>
    var minUnexpandedStateId: nat
    var maxExpandedStateId: int

    /** All states below the least unexpanded one, and all states marked, have had their successors made known. */
    ghost predicate Valid()
      reads this
    {
      && fstStart >= NO_STATE_ID && maxExpandedStateId >= -1
      && minUnexpandedStateId <= maxExpandedStateId + 1 && maxExpandedStateId < |expandedStates|
      && (hasStart ==> cacheStart == fstStart < nknownStates)
      && (forall u: nat :: u < minUnexpandedStateId ==> expandedStates[u])
      && (forall u: nat :: u < |expandedStates| && expandedStates[u] ==> KnownBelow(succ, u, nknownStates))
    }

    constructor (succ: Successors, fstStart: int)
      requires fstStart >= NO_STATE_ID
      ensures Valid() && this.succ == succ && this.fstStart == fstStart && nknownStates == 0
    {
      this.succ, this.fstStart := succ, fstStart;
      hasStart, cacheStart, nknownStates, expandedStates := false, NO_STATE_ID, 0, [];
      minUnexpandedStateId, maxExpandedStateId := 0, -1;
    }

    method SetStart(s: int)
      requires Valid() && s == fstStart
      modifies `cacheStart, `hasStart, `nknownStates
      ensures Valid() && hasStart && nknownStates == (if s >= old(nknownStates) then s + 1 else old(nknownStates))
    {
      cacheStart := s;
      hasStart := true;
      UpdateNumKnownStates(s);
    }

    method UpdateNumKnownStates(s: int)
      requires s >= NO_STATE_ID
      modifies `nknownStates
      ensures nknownStates == if s >= old(nknownStates) then s + 1 else old(nknownStates)
    {
      if s >= nknownStates {
        nknownStates := s + 1;
      }
    }

    /** The index is always in range. */
    predicate ExpandedState(s: nat)
      requires Valid() && s <= maxExpandedStateId
      reads this
    {
      expandedStates[s]
    }

    method MinUnexpandedState() returns (u: nat)
      requires Valid()
      modifies `minUnexpandedStateId
      ensures Valid() && u == minUnexpandedStateId >= old(minUnexpandedStateId)
      ensures u <= maxExpandedStateId ==> !expandedStates[u]
    {
      while minUnexpandedStateId <= maxExpandedStateId && ExpandedState(minUnexpandedStateId)
        invariant Valid() && minUnexpandedStateId >= old(minUnexpandedStateId)
        decreases maxExpandedStateId - minUnexpandedStateId
      {
        minUnexpandedStateId := minUnexpandedStateId + 1;
      }
      u := minUnexpandedStateId;
    }

    method SetExpandedState(s: nat)
      requires Valid() && KnownBelow(succ, s, nknownStates)
      modifies `maxExpandedStateId, `minUnexpandedStateId, `expandedStates
      ensures Valid() && old(minUnexpandedStateId) <= minUnexpandedStateId
      ensures s == old(minUnexpandedStateId) ==> minUnexpandedStateId == s + 1
    {
      if s > maxExpandedStateId {
        maxExpandedStateId := s;
      }
      if s < minUnexpandedStateId {
        return;
      }
      if s == minUnexpandedStateId {
        minUnexpandedStateId := minUnexpandedStateId + 1;
      }
      if |expandedStates| <= s {
        expandedStates := expandedStates + seq(s + 1 - |expandedStates|, _ => false);
      }
      expandedStates := expandedStates[s := true];
    }

    /** Expanding a state, for the first time or after it was evicted, makes its successors known. */
    method SetArcs(s: nat)
      requires Valid()
      modifies `nknownStates, `maxExpandedStateId, `minUnexpandedStateId, `expandedStates
      ensures Valid() && old(nknownStates) <= nknownStates && old(minUnexpandedStateId) <= minUnexpandedStateId
      ensures KnownBelow(succ, s, nknownStates)
      ensures forall n: nat :: old(nknownStates) <= n && KnownBelow(succ, s, n) ==> nknownStates <= n
    {
      Know(s);
      SetExpandedState(s);
    }

    /** Takes note of the successors of a state, and of no more. */
    method Know(s: nat)
      requires Valid()
      modifies `nknownStates
      ensures Valid() && old(nknownStates) <= nknownStates && KnownBelow(succ, s, nknownStates)
      ensures forall n: nat :: old(nknownStates) <= n && KnownBelow(succ, s, n) ==> nknownStates <= n
    {
      var nextstates := succ(s);
      for a := 0 to |nextstates|
        invariant Valid() && old(nknownStates) <= nknownStates
        invariant forall i :: 0 <= i < a ==> nextstates[i] < nknownStates
        invariant nknownStates > old(nknownStates) ==> exists i :: 0 <= i < a && nknownStates == nextstates[i] + 1
      {
        UpdateNumKnownStates(nextstates[a]);
      }
    }
  }

  /** Enumerates the ids, expanding states when it runs out of known ones. */
  class CacheStateIterator {
    const impl: CacheBaseImpl
    var s: nat

    constructor (impl: CacheBaseImpl)
      requires impl.Valid()
      modifies impl
      ensures this.impl == impl && s == 0 && impl.Valid() && impl.hasStart
      ensures impl.nknownStates == old(impl.nknownStates) || impl.nknownStates == impl.fstStart + 1
    {
      this.impl := impl;
      s := 0;
      new;
      if !impl.hasStart {
        impl.SetStart(impl.fstStart);
      }
    }

    /** True only when the ids yielded contain the start and are closed under arcs. Expansion may go through the
        cache, which notes it, or not. */
    method Done(cached: seq<bool>) returns (done: bool)
      requires impl.Valid() && impl.hasStart && s <= impl.nknownStates
      modifies impl
      ensures impl.Valid() && impl.hasStart && old(impl.nknownStates) <= impl.nknownStates
      ensures done ==> ClosedBelow(impl.succ, impl.fstStart, s)
      ensures !done ==> s < impl.nknownStates
      ensures forall n: nat {:trigger ClosedBelow(impl.succ, impl.fstStart, n)} ::
        old(impl.nknownStates) <= n && ClosedBelow(impl.succ, impl.fstStart, n) ==> impl.nknownStates <= n
    {
      if s < impl.nknownStates {
        return false;
      }
      var round := 0;
      var u := impl.MinUnexpandedState();
      while u < impl.nknownStates
        invariant impl.Valid() && impl.hasStart && u == impl.minUnexpandedStateId
        invariant impl.nknownStates == old(impl.nknownStates) == s
        decreases s - u
      {
        if round < |cached| && cached[round] {
          impl.SetArcs(u);
        } else {
          impl.Know(u);
        }
        impl.SetExpandedState(u);
        forall n: nat | old(impl.nknownStates) <= n && ClosedBelow(impl.succ, impl.fstStart, n)
          ensures impl.nknownStates <= n
        {
          assert KnownBelow(impl.succ, u, n);
        }
        if s < impl.nknownStates {
          return false;
        }
        round := round + 1;
        u := impl.MinUnexpandedState();
      }
      forall v: nat | v < s ensures KnownBelow(impl.succ, v, s) {
        assert impl.expandedStates[v];
      }
      done := true;
    }

    method Next()
      requires s < impl.nknownStates
      modifies this
      ensures s == old(s) + 1
    {
      s := s + 1;
    }
  }

  /** All ids an iterator yields, after whatever has been expanded or evicted before, and whichever of its own
      expansions go through the cache: every reachable state is among them. */
  method Enumerate(impl: CacheBaseImpl, cached: seq<seq<bool>>, ghost bound: nat) returns (ids: seq<nat>)
    requires impl.Valid() && ClosedBelow(impl.succ, impl.fstStart, bound) && impl.nknownStates <= bound
    modifies impl
    ensures |ids| <= bound && forall i :: 0 <= i < |ids| ==> ids[i] == i
    ensures impl.fstStart != NO_STATE_ID ==> forall t: nat, p :: ReachedIn(impl.succ, impl.fstStart, p, t) ==> t in ids
  {
    var siter := new CacheStateIterator(impl);
    ids := [];
    var done := siter.Done(if cached == [] then [] else cached[0]);
    while !done
      invariant impl.Valid() && impl.hasStart && siter.impl == impl && fresh(siter)
      invariant |ids| == siter.s <= impl.nknownStates <= bound && forall i :: 0 <= i < |ids| ==> ids[i] == i
      invariant if done then ClosedBelow(impl.succ, impl.fstStart, siter.s) else siter.s < impl.nknownStates
      decreases bound - siter.s, !done
    {
      ids := ids + [siter.s];
      siter.Next();
      done := siter.Done(if |ids| < |cached| then cached[|ids|] else []);
    }
    if impl.fstStart != NO_STATE_ID {
      forall t: nat, p | ReachedIn(impl.succ, impl.fstStart, p, t) ensures t in ids {
        ClosedReaches(impl.succ, impl.fstStart, |ids|, impl.fstStart, p, t);
        assert ids[t] == t;
      }
    }
  }
}
