/** The stacked store of cached states: a vector, reuse of the first state, and garbage collection. */
module CacheStores {
  import opened Fsts
  import opened Sequences

  /** A cached state with what is cached of it, whether it is counted, its use since the last collection, and its
      references. */
  datatype CacheState<+W> =
    CacheState(final: W, arcs: seq<Arc<W>>, hasFinal: bool, hasArcs: bool, init: bool, recent: bool, refCount: nat)

  function NewState<W>(zero: W): CacheState<W> {
    CacheState(zero, [], false, false, false, false, 0)
  }

  /** Equal but for the two bookkeeping flags of the stores. */
  predicate SameContents<W(==)>(a: CacheState<W>, b: CacheState<W>) {
    a == b.(init := a.init, recent := a.recent)
  }

  /** What may happen to a state behind the back of its users: nothing, or eviction when nobody holds a reference. */
  ghost predicate KeptOrEvicted<W>(a: Option<CacheState<W>>, b: Option<CacheState<W>>) {
    if b.Some? then a.Some? && SameContents(a.value, b.value)
    else a.Some? ==> a.value.refCount == 0
  }

  // ---- Accounting

  const STATE_SIZE := 64
  const ARC_SIZE := 16

  function SizeOf<W>(st: CacheState<W>): nat {
    STATE_SIZE + |st.arcs| * ARC_SIZE
  }

  /** What a slot counts for. */
  ghost function Counted<W>(st: Option<CacheState<W>>): nat {
    if st.Some? && st.value.init then SizeOf(st.value) else 0
  }

  ghost function Total<W>(v: seq<Option<CacheState<W>>>): nat {
    if v == [] then 0 else Total(v[..|v| - 1]) + Counted(v[|v| - 1])
  }

  lemma {:induction false} TotalUpdate<W>(v: seq<Option<CacheState<W>>>, i: nat, st: Option<CacheState<W>>)
    requires i < |v|
    ensures Total(v[i := st]) == Total(v) - Counted(v[i]) + Counted(st)
  {
    var init := v[..|v| - 1];
    if i == |v| - 1 {
      assert v[i := st][..|v| - 1] == init;
    } else {
      assert v[i := st][..|v| - 1] == init[i := st];
      TotalUpdate(init, i, st);
    }
  }

  lemma TotalAppend<W>(v: seq<Option<CacheState<W>>>, st: Option<CacheState<W>>)
    ensures Total(v + [st]) == Total(v) + Counted(st)
  {
    assert (v + [st])[..|v|] == v;
  }

  lemma {:induction false} TotalBounds<W>(v: seq<Option<CacheState<W>>>, i: nat, j: nat)
    requires i < |v| && j < |v| && i != j
    ensures Counted(v[i]) + Counted(v[j]) <= Total(v)
  {
    TotalUpdate(v, i, None);
    TotalUpdate(v[i := None], j, None);
  }

  lemma {:induction false} TotalNone<W>(v: seq<Option<CacheState<W>>>)
    requires forall i :: 0 <= i < |v| && v[i].Some? ==> !v[i].value.init
    ensures Total(v) == 0
  {
    if v != [] {
      TotalNone(v[..|v| - 1]);
    }
  }

  // ---- The underlying store

  class VectorCacheStore<W> {
    const zero: W
    // Keep the list of stored slots?
    const gc: bool
    var stateVec: seq<Option<CacheState<W>>>
    var stateList: seq<nat>
    var iter: nat

    function GetState(s: nat): Option<CacheState<W>>
      reads this
    {
      if s < |stateVec| then stateVec[s] else None
    }

    ghost predicate Valid()
      reads this
    {
      && Distinct(stateList) && iter <= |stateList|
      && (gc ==> forall s: nat {:trigger s in stateList} {:trigger GetState(s)} ::
        s in stateList <==> GetState(s).Some?)
    }

    constructor (zero: W, gc: bool)
      ensures Valid() && this.zero == zero && this.gc == gc && stateVec == []
    {
      this.zero, this.gc := zero, gc;
      stateVec, stateList, iter := [], [], 0;
    }

    /** Makes the state if it is not stored. */
    method GetMutableState(s: nat)
      requires Valid()
      modifies this
      ensures Valid() && iter == old(iter)
      ensures GetState(s) == (if old(GetState(s)).Some? then old(GetState(s)) else Some(NewState(zero)))
      ensures forall t: nat :: t != s ==> GetState(t) == old(GetState(t))
      ensures Total(stateVec) == old(Total(stateVec))
      ensures old(GetState(s)).Some? ==> stateVec == old(stateVec) && stateList == old(stateList)
    {
      while |stateVec| <= s
        invariant Valid() && iter == old(iter) && stateList == old(stateList)
        invariant forall t: nat :: GetState(t) == old(GetState(t))
        invariant Total(stateVec) == old(Total(stateVec))
        invariant old(GetState(s)).Some? ==> stateVec == old(stateVec)
      {
        ghost var v := stateVec;
        TotalAppend(stateVec, None);
        stateVec := stateVec + [None];
        assert forall t: nat :: GetState(t) == (if t < |v| then v[t] else None);
      }
      if stateVec[s] == None {
        TotalUpdate(stateVec, s, Some(NewState(zero)));
        stateVec := stateVec[s := Some(NewState(zero))];
        if gc {
          stateList := stateList + [s];
        }
      }
    }

    /** What a user does to the state it has been given. */
    method SetState(s: nat, st: CacheState<W>)
      requires Valid() && GetState(s).Some?
      modifies `stateVec
      ensures Valid() && GetState(s) == Some(st)
      ensures forall t: nat :: t != s ==> GetState(t) == old(GetState(t))
      ensures Total(stateVec) == old(Total(stateVec)) - Counted(old(GetState(s))) + Counted(Some(st))
    {
      TotalUpdate(stateVec, s, Some(st));
      ghost var v := stateVec;
      stateVec := stateVec[s := Some(st)];
      assert forall t: nat :: GetState(t).Some? <==> (t < |v| && v[t].Some?);
    }

    predicate Done()
      reads this
    {
      iter >= |stateList|
    }

    /** Has the iteration still to come to this slot? */
    ghost predicate Ahead(s: nat)
      requires Valid()
      reads this
    {
      s in stateList[iter..]
    }

    method Reset()
      requires Valid()
      modifies `iter
      ensures Valid() && iter == 0 && (gc ==> forall s: nat :: GetState(s).Some? ==> Ahead(s))
    {
      iter := 0;
    }

    method Next()
      requires Valid() && !Done()
      modifies `iter
      ensures Valid() && iter == old(iter) + 1
      ensures forall s: nat :: s != old(stateList[iter]) ==> (Ahead(s) <==> old(Ahead(s)))
    {
      assert stateList[iter..] == [stateList[iter]] + stateList[iter + 1..];
      iter := iter + 1;
    }

    /** Deletes the current state and goes on to the next. */
    method Delete()
      requires Valid() && gc && !Done()
      modifies this
      ensures Valid() && iter == old(iter) && |stateList| == |old(stateList)| - 1
      ensures forall t: nat :: GetState(t) == if t == old(stateList[iter]) then None else old(GetState(t))
      ensures Total(stateVec) == old(Total(stateVec)) - Counted(old(GetState(stateList[iter])))
      ensures forall s: nat :: s != old(stateList[iter]) ==> (Ahead(s) <==> old(Ahead(s)))
    {
      var s := stateList[iter];
      assert s in stateList && GetState(s).Some?;
      TotalUpdate(stateVec, s, None);
      RemoveAt(stateList, iter);
      ghost var v := stateVec;
      stateVec := stateVec[s := None];
      assert stateList[iter..] == [stateList[iter]] + stateList[iter + 1..];
      stateList := stateList[..iter] + stateList[iter + 1..];
      assert stateList[iter..] == old(stateList)[iter + 1..];
      assert forall t: nat :: GetState(t) == if t == s then None else if t < |v| then v[t] else None;
    }
  }

  lemma RemoveAt(list: seq<nat>, i: nat)
    requires i < |list| && Distinct(list)
    ensures var r := list[..i] + list[i + 1..];
      Distinct(r) && forall s :: s in r <==> s in list && s != list[i]
  {
    var r := list[..i] + list[i + 1..];
    forall s | s in list && s != list[i] ensures s in r {
      var j :| 0 <= j < |list| && list[j] == s;
      assert r[if j < i then j else j - 1] == s;
    }
  }

  // ---- Reuse of the first state

  class FirstCacheStore<W> {
    const store: VectorCacheStore<W>
    // Does the first cached state still serve every request?
    var cacheGc: bool
    // The state in slot 0; the others are shifted by one.
    var firstId: int

    function Slot(s: nat): nat
      reads this
    {
      if s == firstId then 0 else s + 1
    }

    function GetState(s: nat): Option<CacheState<W>>
      reads this, store
    {
      store.GetState(Slot(s))
    }

    ghost predicate Valid()
      reads this, store
    {
      && store.Valid() && firstId >= NO_STATE_ID
      && (firstId != NO_STATE_ID <==> store.GetState(0).Some?)
      && (firstId != NO_STATE_ID ==> store.GetState(firstId + 1).None?)
      && (cacheGc ==> forall p: nat :: p > 0 ==> store.GetState(p).None?)
      && (cacheGc && firstId != NO_STATE_ID ==> store.GetState(0).value.init)
    }

    constructor (zero: W, gc: bool, gcLimit: nat)
      ensures Valid() && fresh(store) && store.gc == gc && store.zero == zero && cacheGc == (gcLimit == 0)
      ensures store.stateVec == []
    {
      store := new VectorCacheStore(zero, gc);
      cacheGc, firstId := gcLimit == 0, NO_STATE_ID;
    }

    /** The slot of the state that may be used as s from now on. */
    method GetMutableState(s: nat) returns (p: nat)
      requires Valid()
      modifies this, store
      ensures Valid() && p == Slot(s) && store.iter == old(store.iter) && GetState(s).Some?
      ensures old(GetState(s)).Some? ==>
        unchanged(this) && store.stateVec == old(store.stateVec) && store.stateList == old(store.stateList)
      ensures old(GetState(s)).None? ==> SameContents(GetState(s).value, NewState(store.zero))
      ensures forall t: nat :: t != s ==> KeptOrEvicted(old(GetState(t)), GetState(t))
      ensures cacheGc ==> old(cacheGc) && GetState(s).value.init
      ensures old(cacheGc) ==>
        (cacheGc <==> old(firstId) in {NO_STATE_ID, s as int} || old(store.GetState(0)).value.refCount == 0)
      ensures !cacheGc && old(cacheGc) ==> NoneCounted()
      ensures !old(cacheGc) ==> !cacheGc && Total(store.stateVec) == old(Total(store.stateVec))
      ensures !old(cacheGc) ==> forall t: nat :: t != s ==> GetState(t) == old(GetState(t))
      ensures !old(cacheGc) && old(GetState(s)).None? ==> GetState(s).value == NewState(store.zero)
    {
      if firstId == s {
        return 0;
      }
      if cacheGc {
        var reused := ReuseFirst(s);
        if reused {
          return 0;
        }
      }
      store.GetMutableState(s + 1);
      p := s + 1;
    }

    lemma NoTotal()
      requires Valid() && NoneCounted()
      ensures Total(store.stateVec) == 0
    {
      forall q | 0 <= q < |store.stateVec| && store.stateVec[q].Some? ensures !store.stateVec[q].value.init {
        var t: nat := if q == 0 then firstId else q - 1;
        assert store.GetState(q) == store.stateVec[q] && Slot(t) == q && GetState(t) == store.stateVec[q];
      }
      TotalNone(store.stateVec);
    }

    ghost predicate NoneCounted()
      reads this, store
    {
      forall t: nat :: GetState(t).Some? ==> !GetState(t).value.init
    }

    /** Gives the first state to s when nobody holds a reference to it; otherwise ends this reuse for good. */
    method ReuseFirst(s: nat) returns (reused: bool)
      requires Valid() && cacheGc && firstId != s
      modifies this, store
      ensures Valid() && store.iter == old(store.iter) && reused == cacheGc
      ensures reused <==> old(firstId) == NO_STATE_ID || old(store.GetState(0)).value.refCount == 0
      ensures reused ==> firstId == s && GetState(s) == Some(NewState(store.zero).(init := true))
      ensures reused ==> forall t: nat :: t != s ==> KeptOrEvicted(old(GetState(t)), GetState(t))
      ensures !reused ==> firstId == old(firstId) && NoneCounted()
      ensures !reused ==> forall t: nat :: SameIfAny(old(GetState(t)), GetState(t))
    {
      if firstId == NO_STATE_ID {
        firstId := s;
        store.GetMutableState(0);
        store.SetState(0, store.stateVec[0].value.(init := true));
        reused := true;
      } else if store.stateVec[0].value.refCount == 0 {
        firstId := s;
        store.SetState(0, NewState(store.zero).(init := true));
        reused := true;
      } else {
        store.SetState(0, store.stateVec[0].value.(init := false));
        cacheGc := false;
        reused := false;
      }
    }

    /** What a user does to the state in its slot; whether it is counted is for the stores to say. */
    method SetState(s: nat, st: CacheState<W>)
      requires Valid() && GetState(s).Some? && (cacheGc ==> st.init)
      modifies store
      ensures Valid() && GetState(s) == Some(st) && store.iter == old(store.iter)
      ensures store.stateList == old(store.stateList)
      ensures forall t: nat :: t != s ==> GetState(t) == old(GetState(t))
      ensures Total(store.stateVec) == old(Total(store.stateVec)) - Counted(old(GetState(s))) + Counted(Some(st))
    {
      store.SetState(Slot(s), st);
    }

    /** The id of the state the iteration is at. */
    function Value(): nat
      requires Valid() && store.gc && !store.Done()
      reads this, store
    {
      var q := store.stateList[store.iter];
      assert q in store.stateList;
      if q == 0 then firstId else q - 1
    }

    ghost predicate Ahead(s: nat)
      requires Valid()
      reads this, store
    {
      store.Ahead(Slot(s))
    }

    /** Deletes the current state and goes on to the next. */
    method Delete()
      requires Valid() && store.gc && !store.Done()
      modifies this, store
      ensures Valid() && forall t: nat :: t != old(Value()) && GetState(t).Some? ==> (Ahead(t) <==> old(Ahead(t)))
      ensures Valid() && cacheGc == old(cacheGc) && store.iter == old(store.iter)
      ensures |store.stateList| == |old(store.stateList)| - 1
      ensures old(GetState(Value())).Some?
      ensures forall t: nat :: GetState(t) == if t == old(Value()) then None else old(GetState(t))
      ensures Total(store.stateVec) == old(Total(store.stateVec)) - Counted(old(GetState(Value())))
    {
      ghost var q := store.stateList[store.iter];
      assert q in store.stateList && store.GetState(q).Some? && q == Slot(Value());
      if Value() == firstId {
        firstId := NO_STATE_ID;
      }
      store.Delete();
    }
  }

  ghost predicate SameIfAny<W>(a: Option<CacheState<W>>, b: Option<CacheState<W>>) {
    a.Some? == b.Some? && (a.Some? ==> SameContents(a.value, b.value))
  }

  // ---- Garbage collection

  const MIN_CACHE_LIMIT := 8096

  ghost function Doubled(m: nat, n: nat): nat {
    if n == 0 then m else 2 * Doubled(m, n - 1)
  }

  /** n is the least number of doublings after which the target is no longer exceeded. */
  ghost predicate LeastDoubling(target: nat, size: nat, n: nat) {
    size <= Doubled(target, n) && (n > 0 ==> size > Doubled(target, n - 1))
  }

  /** The share of the limit a collection aims at: two thirds, to a thousandth, rounded down. */
  function CacheTarget(limit: nat): (target: nat)
    ensures target <= limit && (limit >= 2 ==> target > 0)
    ensures 1000 * target <= 666 * limit < 1000 * target + 1000
  {
    limit * 666 / 1000
  }

  ghost function Pins(pins: map<nat, nat>, s: nat): nat {
    if s in pins then pins[s] else 0
  }

  /** A state holds only arcs and a final weight written for it, and is stored, with the right count, as long as it is
      referred to. */
  ghost predicate Tracked<W>(
    st: Option<CacheState<W>>, s: nat, written: set<(nat, Arc<W>)>, finals: set<(nat, W)>, pins: map<nat, nat>
  ) {
    && (st.Some? ==> st.value.refCount == Pins(pins, s))
    && (st.Some? ==> forall i :: 0 <= i < |st.value.arcs| ==> (s, st.value.arcs[i]) in written)
    && (st.Some? && st.value.hasFinal ==> (s, st.value.final) in finals)
    && (Pins(pins, s) > 0 ==> st.Some?)
  }

  lemma TrackedKept<W>(a: Option<CacheState<W>>, b: Option<CacheState<W>>, s: nat, written: set<(nat, Arc<W>)>,
                       finals: set<(nat, W)>, pins: map<nat, nat>)
    requires Tracked(a, s, written, finals, pins)
    requires KeptOrEvicted(a, b)
      || (a.None? && b.Some? && b.value.arcs == [] && !b.value.hasFinal && b.value.refCount == 0)
    ensures Tracked(b, s, written, finals, pins)
  {
  }

  lemma TrackedGrown<W>(a: Option<CacheState<W>>, arcs: seq<Arc<W>>, s: nat, written: set<(nat, Arc<W>)>,
                        written': set<(nat, Arc<W>)>, finals: set<(nat, W)>, pins: map<nat, nat>)
    requires a.Some? && Tracked(a, s, written, finals, pins)
    requires written' == written + (set i | 0 <= i < |arcs| :: (s, arcs[i]))
    ensures Tracked(Some(a.value.(arcs := a.value.arcs + arcs)), s, written', finals, pins)
  {
    forall i | 0 <= i < |a.value.arcs + arcs| ensures (s, (a.value.arcs + arcs)[i]) in written' {
      if i < |a.value.arcs| {
        assert (s, a.value.arcs[i]) in written;
      } else {
        assert (s, arcs[i - |a.value.arcs|]) in written';
      }
    }
  }

  class GCCacheStore<W> {
    const store: FirstCacheStore<W>
    const gcRequest: bool
    var cacheLimit: nat
    var cacheGc: bool
    var cacheSize: nat
    // All arcs and final weights ever written, with the id they were written for, and the references held to each
    // state.
    ghost var written: set<(nat, Arc<W>)>
    ghost var finals: set<(nat, W)>
    ghost var pins: map<nat, nat>

    function GetState(s: nat): Option<CacheState<W>>
      reads this, store, store.store
    {
      store.GetState(s)
    }

    ghost predicate StoreShape()
      reads this, store, store.store
    {
      store.Valid() && store.store.gc == gcRequest && cacheLimit >= MIN_CACHE_LIMIT
        && (cacheGc ==> gcRequest && !store.cacheGc)
    }

    /** The cache size is the size of all counted states; without collection none is counted, but for a first state
        in reuse. */
    ghost predicate SizeAccounted()
      reads this, store, store.store
    {
      if cacheGc then cacheSize == Total(store.store.stateVec)
      else cacheSize == 0 && (store.cacheGc || store.NoneCounted())
    }

    ghost predicate Valid()
      reads this, store, store.store
    {
      StoreShape() && SizeAccounted() && cacheSize <= cacheLimit
        && (forall s: nat :: Tracked(GetState(s), s, written, finals, pins))
    }

    constructor (zero: W, gc: bool, gcLimit: nat)
      ensures Valid() && fresh(store) && fresh(store.store) && store.store.zero == zero
      ensures written == {} && finals == {} && pins == map[]
      ensures forall s: nat :: GetState(s).None?
    {
      store := new FirstCacheStore(zero, gc, gcLimit);
      gcRequest, cacheLimit := gc, if gcLimit > MIN_CACHE_LIMIT then gcLimit else MIN_CACHE_LIMIT;
      cacheGc, cacheSize, written, finals, pins := false, 0, {}, {}, map[];
    }

    /** What a sweep may do to a state: evict it if there is need, nobody refers to it and, if asked to spare those,
        it was not used lately. */
    ghost predicate Spared(a: Option<CacheState<W>>, b: Option<CacheState<W>>, need: bool, freeRecent: bool) {
      KeptOrEvicted(a, b) && (a.Some? && b.None? ==> need && (freeRecent || !a.value.recent))
    }

    /** What a sweep that misses its target has left: a state somebody refers to, or one spared for its recent use. */
    ghost predicate MayStay(was: Option<CacheState<W>>, now: Option<CacheState<W>>, freeRecent: bool) {
      now.Some? ==> now.value.refCount > 0 || (!freeRecent && was.Some? && was.value.recent)
    }

    /** Visits all states once; if that is not enough, all states left but the current one are referred to, or have
        been spared because they were used recently. */
    method Sweep(current: nat, freeRecent: bool, target: nat)
      requires StoreShape() && cacheGc && SizeAccounted() && GetState(current).Some? && GetState(current).value.init
      modifies `cacheSize, store, store.store
      ensures StoreShape() && SizeAccounted() && cacheSize <= old(cacheSize)
      ensures GetState(current).Some? && GetState(current).value.init
      ensures forall t: nat :: Spared(old(GetState(t)), GetState(t), old(cacheSize) > target, freeRecent)
      ensures cacheSize > target ==>
        forall t: nat :: t != current ==> MayStay(old(GetState(t)), GetState(t), freeRecent)
    {
      store.store.Reset();
      while !store.store.Done()
        invariant StoreShape() && SizeAccounted() && cacheSize <= old(cacheSize)
        invariant GetState(current).Some? && GetState(current).value.init
        invariant forall t: nat :: Spared(old(GetState(t)), GetState(t), old(cacheSize) > target, freeRecent)
        invariant forall t: nat :: store.Ahead(t) && GetState(t).Some? ==> GetState(t) == old(GetState(t))
        invariant cacheSize > target ==>
          forall t: nat :: t != current ==> store.Ahead(t) || MayStay(old(GetState(t)), GetState(t), freeRecent)
        decreases |store.store.stateList| - store.store.iter
      {
        ghost var s := VisitNext(current, freeRecent, target);
      }
    }

    method VisitNext(current: nat, freeRecent: bool, target: nat) returns (ghost s: nat)
      requires StoreShape() && cacheGc && SizeAccounted() && GetState(current).Some? && GetState(current).value.init
      requires !store.store.Done()
      modifies `cacheSize, store, store.store
      ensures StoreShape() && SizeAccounted() && cacheSize <= old(cacheSize)
      ensures GetState(current).Some? && GetState(current).value.init && old(GetState(s)).Some? && old(store.Ahead(s))
      ensures Spared(old(GetState(s)), GetState(s), old(cacheSize) > target, freeRecent)
      ensures cacheSize > target && s != current ==> MayStay(old(GetState(s)), GetState(s), freeRecent)
      ensures forall t: nat :: t != s ==> GetState(t) == old(GetState(t))
      ensures !store.Ahead(s)
      ensures forall t: nat :: t != s && GetState(t).Some? ==> (store.Ahead(t) <==> old(store.Ahead(t)))
      ensures |store.store.stateList| - store.store.iter < |old(store.store.stateList)| - old(store.store.iter)
    {
      var c, p := FindCurrent();
      s := c;
      Visit(c, p, current, freeRecent, target);
    }

    /** Deletes the state if nobody refers to it, it is not the current one, and more than the target is cached. */
    method Visit(s: nat, p: nat, current: nat, freeRecent: bool, target: nat)
      requires StoreShape() && cacheGc && SizeAccounted() && GetState(current).Some? && GetState(current).value.init
      requires !store.store.Done() && s == store.Value() && p == store.Slot(s) && GetState(s).Some?
      modifies `cacheSize, store, store.store
      ensures StoreShape() && SizeAccounted() && cacheSize <= old(cacheSize)
      ensures GetState(current).Some? && GetState(current).value.init
      ensures Spared(old(GetState(s)), GetState(s), old(cacheSize) > target, freeRecent)
      ensures cacheSize > target && s != current ==> MayStay(old(GetState(s)), GetState(s), freeRecent)
      ensures forall t: nat :: t != s ==> GetState(t) == old(GetState(t))
      ensures !store.Ahead(s)
      ensures forall t: nat :: t != s && GetState(t).Some? ==> (store.Ahead(t) <==> old(store.Ahead(t)))
      ensures GetState(s).None? <==>
        && old(cacheSize) > target && old(GetState(s)).value.refCount == 0 && s != current
        && (freeRecent || !old(GetState(s)).value.recent)
      ensures |store.store.stateList| - store.store.iter < |old(store.store.stateList)| - old(store.store.iter)
    {
      var state := store.GetState(s).value;
      if cacheSize > target && state.refCount == 0 && (freeRecent || !state.recent) && p != store.Slot(current) {
        Evict(s, current);
      } else {
        Keep(s);
      }
    }

    /** The state the iteration is at; asking for it changes nothing. */
    method FindCurrent() returns (s: nat, p: nat)
      requires StoreShape() && cacheGc && !store.store.Done()
      modifies store, store.store
      ensures StoreShape() && Total(store.store.stateVec) == old(Total(store.store.stateVec)) && !store.store.Done()
      ensures s == store.Value() && p == store.Slot(s) && GetState(s).Some?
      ensures store.store.iter == old(store.store.iter) && store.store.stateList == old(store.store.stateList)
      ensures forall t: nat :: GetState(t) == old(GetState(t)) && (store.Ahead(t) <==> old(store.Ahead(t)))
      ensures store.firstId == old(store.firstId)
    {
      s := store.Value();
      ghost var q := store.store.stateList[store.store.iter];
      assert q in store.store.stateList && store.store.GetState(q).Some? && q == store.Slot(s);
      p := store.GetMutableState(s);
    }

    /** Deletes the state the iteration is at. */
    method Evict(s: nat, ghost current: nat)
      requires StoreShape() && cacheGc && SizeAccounted() && GetState(current).Some? && GetState(current).value.init
      requires !store.store.Done() && s == store.Value() && store.Slot(s) != store.Slot(current)
      requires GetState(s).Some? && GetState(s).value.refCount == 0
      modifies `cacheSize, store, store.store
      ensures StoreShape() && SizeAccounted() && cacheSize <= old(cacheSize)
      ensures forall t: nat :: GetState(t) == if t == s then None else old(GetState(t))
      ensures forall t: nat :: t != s && GetState(t).Some? ==> (store.Ahead(t) <==> old(store.Ahead(t)))
      ensures store.store.iter == old(store.store.iter) && |store.store.stateList| == |old(store.store.stateList)| - 1
    {
      var state := store.GetState(s).value;
      if state.init {
        OtherIsLarger(s, current);
        var size := SizeOf(state);
        if size < cacheSize {
          cacheSize := cacheSize - size;
        }
      }
      store.Delete();
    }

    /** Clears the mark of recent use and goes on. */
    method Keep(s: nat)
      requires StoreShape() && cacheGc && SizeAccounted() && GetState(s).Some? && !store.store.Done()
      requires s == store.Value()
      modifies store.store
      ensures StoreShape() && forall t: nat :: t != s ==> (store.Ahead(t) <==> old(store.Ahead(t)))
      ensures !store.Ahead(s) && SizeAccounted() && store.store.iter == old(store.store.iter) + 1
      ensures |store.store.stateList| == |old(store.store.stateList)|
      ensures GetState(s) == Some(old(GetState(s)).value.(recent := false))
      ensures forall t: nat :: t != s ==> GetState(t) == old(GetState(t))
    {
      store.SetState(s, store.GetState(s).value.(recent := false));
      store.store.Next();
    }

    /** A counted state is smaller than the whole as long as the current one is counted too. */
    lemma OtherIsLarger(s: nat, current: nat)
      requires store.Slot(s) != store.Slot(current) && GetState(s).Some? && GetState(current).Some?
      requires GetState(current).value.init
      ensures Counted(GetState(s)) < Total(store.store.stateVec)
    {
      TotalBounds(store.store.stateVec, store.Slot(s), store.Slot(current));
    }

    /** All states that were used recently are still there. */
    twostate predicate NoRecentGone()
      reads this, store, store.store
    {
      forall t: nat :: old(GetState(t)).Some? && old(GetState(t)).value.recent ==> GetState(t).Some?
    }

    /** No state but the current one is left that was not used recently and that nobody refers to. */
    twostate predicate OthersGone(current: nat)
      reads this, store, store.store
    {
      forall t: nat :: t != current && Freeable(old(GetState(t))) ==> GetState(t).None?
    }

    ghost predicate Freeable(st: Option<CacheState<W>>) {
      st.Some? && !st.value.recent && st.value.refCount == 0
    }

    /** Collects until the target is met; failing that, recently used states too; failing that, widens the limit. */
    method GC(current: nat, freeRecent: bool)
      requires StoreShape() && cacheGc && SizeAccounted() && GetState(current).Some? && GetState(current).value.init
      modifies this, store, store.store
      ensures StoreShape() && cacheGc && SizeAccounted() && cacheSize <= cacheLimit && old(cacheLimit) <= cacheLimit
      ensures GetState(current).Some? && GetState(current).value.init
      ensures (forall t: nat :: KeptOrEvicted(old(GetState(t)), GetState(t)))
      ensures cacheLimit > old(cacheLimit) ==>
        forall t: nat :: t != current && GetState(t).Some? ==> GetState(t).value.refCount > 0
      ensures old(cacheSize) <= CacheTarget(old(cacheLimit)) ==>
        forall t: nat :: GetState(t).Some? <==> old(GetState(t)).Some?
      ensures written == old(written) && finals == old(finals) && pins == old(pins)
      ensures !freeRecent ==> NoRecentGone() || OthersGone(current)
      decreases !freeRecent
    {
      var target := CacheTarget(cacheLimit);
      Sweep(current, freeRecent, target);
      if !freeRecent && cacheSize > target {
        GC(current, true);
      } else {
        Widen(target);
      }
    }

    method Widen(cacheTarget: nat)
      requires 0 < cacheTarget <= cacheLimit
      modifies `cacheLimit
      ensures old(cacheLimit) <= cacheLimit && cacheSize <= cacheLimit
      ensures cacheSize <= cacheTarget ==> cacheLimit == old(cacheLimit)
      ensures exists n :: LeastDoubling(cacheTarget, cacheSize, n) && cacheLimit == Doubled(old(cacheLimit), n)
    {
      var target := cacheTarget;
      ghost var n: nat := 0;
      while cacheSize > target
        invariant 0 < target <= cacheLimit && old(cacheLimit) <= cacheLimit
        invariant cacheSize <= cacheTarget ==> cacheLimit == old(cacheLimit)
        invariant cacheLimit == Doubled(old(cacheLimit), n) && target == Doubled(cacheTarget, n)
        invariant n > 0 ==> cacheSize > Doubled(cacheTarget, n - 1)
      {
        cacheLimit := cacheLimit * 2;
        target := target * 2;
        n := n + 1;
      }
      assert LeastDoubling(cacheTarget, cacheSize, n);
    }

    /** The state for s, made if it is not stored; counted once, when it is first seen here. */
    method GetMutableState(s: nat)
      requires Valid()
      modifies this, store, store.store
      ensures Valid() && GetState(s).Some? && old(cacheLimit) <= cacheLimit && (gcRequest ==> GetState(s).value.init)
      ensures SameContents(GetState(s).value,
        if old(GetState(s)).Some? then old(GetState(s)).value else NewState(store.store.zero))
      ensures forall t: nat :: t != s ==> KeptOrEvicted(old(GetState(t)), GetState(t))
      ensures written == old(written) && finals == old(finals) && pins == old(pins)
    {
      ObtainAndCollect(s);
      forall t: nat ensures Tracked(GetState(t), t, written, finals, pins) {
        TrackedKept(old(GetState(t)), GetState(t), t, written, finals, pins);
      }
    }

    method ObtainAndCollect(s: nat)
      requires Valid()
      modifies this, store, store.store
      ensures StoreShape() && SizeAccounted() && cacheSize <= cacheLimit && GetState(s).Some?
      ensures old(cacheLimit) <= cacheLimit && (gcRequest ==> GetState(s).value.init)
      ensures SameContents(GetState(s).value,
        if old(GetState(s)).Some? then old(GetState(s)).value else NewState(store.store.zero))
      ensures forall t: nat :: t != s ==> KeptOrEvicted(old(GetState(t)), GetState(t))
      ensures written == old(written) && finals == old(finals) && pins == old(pins)
    {
      Obtain(s);
      if cacheSize > cacheLimit {
        ghost var st := GetState(s);
        GC(s, false);
        assert KeptOrEvicted(st, GetState(s));
      }
    }

    /** The same, without a collection. */
    method Obtain(s: nat)
      requires Valid()
      modifies `cacheSize, `cacheGc, store, store.store
      ensures StoreShape() && SizeAccounted() && GetState(s).Some?
      ensures (cacheSize > cacheLimit ==> cacheGc && GetState(s).value.init)
      ensures gcRequest ==> GetState(s).value.init
      ensures SameContents(GetState(s).value,
        if old(GetState(s)).Some? then old(GetState(s)).value else NewState(store.store.zero))
      ensures forall t: nat :: t != s ==> KeptOrEvicted(old(GetState(t)), GetState(t))
    {
      var p := store.GetMutableState(s);
      if gcRequest && !store.GetState(s).value.init {
        Count(s);
      }
    }

    /** Adds arcs to a state and counts them. */
    method Grow(s: nat, more: seq<Arc<W>>)
      requires StoreShape() && SizeAccounted() && cacheSize <= cacheLimit && GetState(s).Some?
      modifies `cacheSize, store.store
      ensures GetState(s) == Some(old(GetState(s)).value.(arcs := old(GetState(s)).value.arcs + more))
      ensures StoreShape() && SizeAccounted() && (cacheSize > cacheLimit ==> cacheGc && GetState(s).value.init)
      ensures forall t: nat :: t != s ==> GetState(t) == old(GetState(t))
    {
      var st := store.GetState(s).value;
      store.SetState(s, st.(arcs := st.arcs + more));
      if cacheGc && st.init {
        cacheSize := cacheSize + |more| * ARC_SIZE;
      }
    }

    /** Adds one arc. */
    method AddArc(s: nat, arc: Arc<W>)
      requires Valid() && GetState(s).Some?
      modifies this, store, store.store
      ensures Valid() && GetState(s).Some? && old(cacheLimit) <= cacheLimit
      ensures SameContents(GetState(s).value, old(GetState(s)).value.(arcs := old(GetState(s)).value.arcs + [arc]))
      ensures forall t: nat :: t != s ==> KeptOrEvicted(old(GetState(t)), GetState(t))
      ensures written == old(written) + {(s, arc)} && finals == old(finals) && pins == old(pins)
    {
      assert (set i | 0 <= i < |[arc]| :: (s, [arc][i])) == {(s, arc)} by {
        assert [arc][0] == arc;
      }
      AddAll(s, [arc]);
    }

    /** Stores all arcs of a state that has none, and marks them as cached. */
    method SetArcs(s: nat, arcs: seq<Arc<W>>)
      requires Valid() && GetState(s).Some? && GetState(s).value.arcs == []
      modifies this, store, store.store
      ensures Valid() && GetState(s).Some? && old(cacheLimit) <= cacheLimit
      ensures SameContents(GetState(s).value, old(GetState(s)).value.(arcs := arcs, hasArcs := true))
      ensures GetState(s).value.recent
      ensures forall t: nat :: t != s ==> KeptOrEvicted(old(GetState(t)), GetState(t))
      ensures written == old(written) + (set i | 0 <= i < |arcs| :: (s, arcs[i])) && finals == old(finals)
      ensures pins == old(pins)
    {
      AddAll(s, arcs);
      var st := store.GetState(s).value;
      assert Tracked(GetState(s), s, written, finals, pins);
      Change(s, st.(hasArcs := true, recent := true));
      assert finals == old(finals);
    }

    method AddAll(s: nat, arcs: seq<Arc<W>>)
      requires Valid() && GetState(s).Some?
      modifies this, store, store.store
      ensures Valid() && GetState(s).Some? && old(cacheLimit) <= cacheLimit
      ensures SameContents(GetState(s).value, old(GetState(s)).value.(arcs := old(GetState(s)).value.arcs + arcs))
      ensures forall t: nat :: t != s ==> KeptOrEvicted(old(GetState(t)), GetState(t))
      ensures written == old(written) + (set i | 0 <= i < |arcs| :: (s, arcs[i])) && finals == old(finals)
      ensures pins == old(pins)
    {
      GrowAndCollect(s, arcs);
      written := written + (set i | 0 <= i < |arcs| :: (s, arcs[i]));
      forall t: nat ensures Tracked(GetState(t), t, written, finals, pins) {
        if t == s {
          var grown := Some(old(GetState(s)).value.(arcs := old(GetState(s)).value.arcs + arcs));
          TrackedGrown(old(GetState(s)), arcs, s, old(written), written, finals, pins);
          TrackedKept(grown, GetState(s), s, written, finals, pins);
        } else {
          TrackedKept(old(GetState(t)), GetState(t), t, written, finals, pins);
        }
      }
    }

    method GrowAndCollect(s: nat, arcs: seq<Arc<W>>)
      requires StoreShape() && SizeAccounted() && cacheSize <= cacheLimit && GetState(s).Some?
      modifies this, store, store.store
      ensures StoreShape() && SizeAccounted() && cacheSize <= cacheLimit && GetState(s).Some?
      ensures old(cacheLimit) <= cacheLimit
      ensures SameContents(GetState(s).value, old(GetState(s)).value.(arcs := old(GetState(s)).value.arcs + arcs))
      ensures forall t: nat :: t != s ==> KeptOrEvicted(old(GetState(t)), GetState(t))
      ensures written == old(written) && finals == old(finals) && pins == old(pins)
    {
      Grow(s, arcs);
      ghost var grown := GetState(s);
      if cacheSize > cacheLimit {
        GC(s, false);
        assert KeptOrEvicted(grown, GetState(s));
      }
    }

    /** Changes of a state that leave its arcs alone. */
    method Change(s: nat, st: CacheState<W>)
      requires Valid() && GetState(s).Some?
      requires st.init == GetState(s).value.init && st.arcs == GetState(s).value.arcs
      requires st.refCount == GetState(s).value.refCount
      modifies store.store, `finals
      ensures Valid() && GetState(s) == Some(st)
      ensures finals == old(finals) + if st.hasFinal then {(s, st.final)} else {}
      ensures forall t: nat :: t != s ==> GetState(t) == old(GetState(t))
    {
      store.SetState(s, st);
      finals := finals + if st.hasFinal then {(s, st.final)} else {};
      forall t: nat ensures Tracked(GetState(t), t, written, finals, pins) {
        assert Tracked(old(GetState(t)), t, written, old(finals), pins);
      }
    }

    method SetFinal(s: nat, weight: W)
      requires Valid() && GetState(s).Some?
      modifies store.store, `finals
      ensures Valid() && GetState(s).Some? && finals == old(finals) + {(s, weight)}
      ensures SameContents(GetState(s).value, old(GetState(s)).value.(final := weight, hasFinal := true))
      ensures GetState(s).value.recent
      ensures forall t: nat :: t != s ==> GetState(t) == old(GetState(t))
    {
      Change(s, store.GetState(s).value.(final := weight, hasFinal := true, recent := true));
    }

    /** An arc iterator takes a reference. */
    method IncrRefCount(s: nat)
      requires Valid() && GetState(s).Some?
      modifies `pins, store.store
      ensures Valid() && GetState(s) == Some(old(GetState(s)).value.(refCount := old(GetState(s)).value.refCount + 1))
      ensures forall t: nat :: t != s ==> GetState(t) == old(GetState(t))
      ensures pins == old(pins)[s := Pins(old(pins), s) + 1]
    {
      CountReference(s, store.GetState(s).value.refCount + 1);
    }

    /** And gives it back. */
    method DecrRefCount(s: nat)
      requires Valid() && Pins(pins, s) > 0
      modifies `pins, store.store
      ensures Valid() && old(GetState(s)).Some? && Pins(old(pins), s) > 0
      ensures GetState(s).Some? && GetState(s).value.refCount == Pins(old(pins), s) - 1
      ensures SameContents(GetState(s).value.(refCount := 0), old(GetState(s)).value.(refCount := 0))
      ensures forall t: nat :: t != s ==> GetState(t) == old(GetState(t))
      ensures pins == old(pins)[s := Pins(old(pins), s) - 1]
    {
      assert Tracked(GetState(s), s, written, finals, pins);
      CountReference(s, store.GetState(s).value.refCount - 1);
    }

    method CountReference(s: nat, n: nat)
      requires Valid() && GetState(s).Some?
      modifies `pins, store.store
      ensures Valid() && GetState(s) == Some(old(GetState(s)).value.(refCount := n)) && pins == old(pins)[s := n]
      ensures forall t: nat :: t != s ==> GetState(t) == old(GetState(t))
    {
      store.SetState(s, store.GetState(s).value.(refCount := n));
      pins := pins[s := n];
      forall t: nat ensures Tracked(GetState(t), t, written, finals, pins) {
        assert Tracked(old(GetState(t)), t, written, finals, old(pins));
      }
    }

    /** Deletes the arcs of a state; their size is given back. */
    method DeleteArcs(s: nat)
      requires Valid() && GetState(s).Some?
      modifies `cacheSize, store.store
      ensures Valid() && GetState(s) == Some(old(GetState(s)).value.(arcs := [])) && cacheSize <= old(cacheSize)
      ensures forall t: nat :: t != s ==> GetState(t) == old(GetState(t))
    {
      var st := store.GetState(s).value;
      if cacheGc && st.init {
        CountedInTotal(s);
        cacheSize := cacheSize - |st.arcs| * ARC_SIZE;
      }
      store.SetState(s, st.(arcs := []));
      forall t: nat ensures Tracked(GetState(t), t, written, finals, pins) {
        assert Tracked(old(GetState(t)), t, written, finals, pins);
      }
    }

    lemma CountedInTotal(s: nat)
      requires GetState(s).Some?
      ensures Counted(GetState(s)) <= Total(store.store.stateVec)
    {
      TotalUpdate(store.store.stateVec, store.Slot(s), None);
    }

    /** Starts counting a state, and with the first one collection. */
    method Count(s: nat)
      requires StoreShape() && gcRequest && GetState(s).Some? && !GetState(s).value.init && !store.cacheGc
      requires if cacheGc then SizeAccounted() else cacheSize == 0 && store.NoneCounted()
      modifies `cacheSize, `cacheGc, store.store
      ensures StoreShape() && cacheGc && SizeAccounted() && GetState(s) == Some(old(GetState(s)).value.(init := true))
      ensures forall t: nat :: t != s ==> GetState(t) == old(GetState(t))
    {
      if !cacheGc {
        store.NoTotal();
      }
      var st := store.GetState(s).value;
      store.SetState(s, st.(init := true));
      cacheSize := cacheSize + SizeOf(st);
      cacheGc := true;
    }
  }

  // ---- Any sequence of operations

  /** What the users of a store do with a state. */
  datatype StoreOp<+W> =
    | Look(s: nat)
    | PutArc(s: nat, arc: Arc<W>)
    | PutArcs(s: nat, arcs: seq<Arc<W>>)
    | PutFinal(s: nat, weight: W)
    | ClearArcs(s: nat)
    | Hold(s: nat)
    | Release(s: nat)

  /** The references taken and not yet given back. */
  ghost function PinsBy<W>(ops: seq<StoreOp<W>>): map<nat, nat> {
    if ops == [] then map[]
    else
      var before := PinsBy(ops[..|ops| - 1]);
      match ops[|ops| - 1]
      case Hold(s) => before[s := Pins(before, s) + 1]
      case Release(s) => before[s := if Pins(before, s) > 0 then Pins(before, s) - 1 else 0]
      case _ => before
  }

  /** References are given back only while they are held. */
  ghost predicate Balanced<W>(ops: seq<StoreOp<W>>) {
    ops == [] || (Balanced(ops[..|ops| - 1])
                  && (ops[|ops| - 1].Release? ==> Pins(PinsBy(ops[..|ops| - 1]), ops[|ops| - 1].s) > 0))
  }

  lemma {:induction false} BalancedPrefix<W>(ops: seq<StoreOp<W>>, n: nat)
    requires Balanced(ops) && n <= |ops|
    ensures Balanced(ops[..n])
  {
    if n == |ops| {
      TakeAll(ops);
    } else {
      BalancedPrefix(ops[..|ops| - 1], n);
      assert ops[..|ops| - 1][..n] == ops[..n];
    }
  }

  /** What an operation makes of the contents of its state. */
  ghost function Replayed<W>(st: CacheState<W>, op: StoreOp<W>): CacheState<W> {
    match op
    case Look(_) => st
    case PutArc(_, arc) => st.(arcs := st.arcs + [arc])
    case PutArcs(_, arcs) => st.(arcs := arcs, hasArcs := true)
    case PutFinal(_, weight) => st.(final := weight, hasFinal := true)
    case ClearArcs(_) => st.(arcs := [])
    case Hold(_) => st.(refCount := st.refCount + 1)
    case Release(_) => st.(refCount := if st.refCount > 0 then st.refCount - 1 else 0)
  }

  /** What the operations from number m on make of a new state for the id. */
  ghost function Since<W>(zero: W, ops: seq<StoreOp<W>>, m: nat, s: nat): CacheState<W>
    requires m <= |ops|
  {
    if |ops| == m then NewState(zero)
    else
      var before := Since(zero, ops[..|ops| - 1], m, s);
      if ops[|ops| - 1].s == s then Replayed(before, ops[|ops| - 1]) else before
  }

  /** References to the state have been held ever since operation number h. */
  ghost predicate HeldSince<W>(ops: seq<StoreOp<W>>, h: nat, s: nat) {
    h <= |ops| && forall n :: h <= n <= |ops| ==> Pins(PinsBy(ops[..n]), s) > 0
  }

  /** A stored state has exactly the contents that the operations since it was last made have given it, and it has not
      been made anew while it was held. */
  ghost predicate Exact<W>(
    st: Option<CacheState<W>>, s: nat, zero: W, ops: seq<StoreOp<W>>, made: map<nat, nat>
  ) {
    st.Some? ==>
      && s in made && made[s] <= |ops| && SameContents(st.value, Since(zero, ops, made[s], s))
      && forall h :: HeldSince(ops, h, s) ==> made[s] <= h
  }

  /** The store after some operations, with the number of the operation that last made each state. */
  ghost predicate After<W>(c: GCCacheStore<W>, zero: W, ops: seq<StoreOp<W>>, made: map<nat, nat>)
    reads c, c.store, c.store.store
  {
    && c.Valid() && c.store.store.zero == zero && c.pins == PinsBy(ops)
    && forall s: nat :: Exact(c.GetState(s), s, zero, ops, made)
  }

  lemma HeldBefore<W>(ops: seq<StoreOp<W>>, op: StoreOp<W>, h: nat, s: nat)
    requires HeldSince(ops + [op], h, s) && h <= |ops|
    ensures HeldSince(ops, h, s) && Pins(PinsBy(ops), s) > 0
  {
    assert (ops + [op])[..|ops|] == ops;
    forall n | h <= n <= |ops| ensures Pins(PinsBy(ops[..n]), s) > 0 {
      assert (ops + [op])[..n] == ops[..n];
    }
  }

  /** A state that an operation on another id keeps stays exact. */
  lemma ExactKept<W>(
    a: Option<CacheState<W>>, b: Option<CacheState<W>>, s: nat, zero: W, ops: seq<StoreOp<W>>, op: StoreOp<W>,
    made: map<nat, nat>, made': map<nat, nat>
  )
    requires Exact(a, s, zero, ops, made) && KeptOrEvicted(a, b) && op.s != s
    requires s in made ==> s in made' && made'[s] == made[s]
    ensures Exact(b, s, zero, ops + [op], made')
  {
    if b.Some? {
      assert (ops + [op])[..|ops|] == ops;
      forall h: nat | HeldSince(ops + [op], h, s) ensures made'[s] <= h {
        if h <= |ops| {
          HeldBefore(ops, op, h, s);
        }
      }
    }
  }

  /** When the state of an operation was made. */
  ghost function MadeAt<W>(a: Option<CacheState<W>>, made: map<nat, nat>, s: nat, n: nat): map<nat, nat> {
    if a.Some? then made else made[s := n]
  }

  /** The state of the operation becomes what the operation makes of it, or of a new one. */
  lemma ExactNext<W>(
    a: Option<CacheState<W>>, b: Option<CacheState<W>>, zero: W, ops: seq<StoreOp<W>>, op: StoreOp<W>,
    made: map<nat, nat>
  )
    requires Exact(a, op.s, zero, ops, made) && (Pins(PinsBy(ops), op.s) > 0 ==> a.Some?) && b.Some?
    requires SameContents(b.value, Replayed(if a.Some? then a.value else NewState(zero), op))
    ensures Exact(b, op.s, zero, ops + [op], MadeAt(a, made, op.s, |ops|))
  {
    var made' := MadeAt(a, made, op.s, |ops|);
    assert (ops + [op])[..|ops|] == ops;
    forall h: nat | HeldSince(ops + [op], h, op.s) ensures made'[op.s] <= h {
      if h <= |ops| {
        HeldBefore(ops, op, h, op.s);
      }
    }
  }

  /** Carries out a write. */
  method Write<W>(c: GCCacheStore<W>, op: StoreOp<W>)
    requires c.Valid() && !op.Hold? && !op.Release?
    modifies c, c.store, c.store.store
    ensures c.Valid() && c.pins == old(c.pins) && c.GetState(op.s).Some?
    ensures var was := old(c.GetState(op.s));
      SameContents(c.GetState(op.s).value,
                   Replayed(if was.Some? then was.value else NewState(c.store.store.zero), op))
    ensures forall t: nat :: t != op.s ==> KeptOrEvicted(old(c.GetState(t)), c.GetState(t))
  {
    c.GetMutableState(op.s);
    match op {
      case PutArc(s, arc) => c.AddArc(s, arc);
      case PutArcs(s, arcs) =>
        c.DeleteArcs(s);
        c.SetArcs(s, arcs);
      case PutFinal(s, weight) => c.SetFinal(s, weight);
      case ClearArcs(s) => c.DeleteArcs(s);
      case Look(_) =>
    }
  }

  /** Carries out an operation. */
  method Carry<W>(c: GCCacheStore<W>, op: StoreOp<W>, ghost ops: seq<StoreOp<W>>)
    requires c.Valid() && c.pins == PinsBy(ops) && (op.Release? ==> Pins(PinsBy(ops), op.s) > 0)
    modifies c, c.store, c.store.store
    ensures c.Valid() && c.pins == PinsBy(ops + [op]) && c.GetState(op.s).Some?
    ensures var was := old(c.GetState(op.s));
      SameContents(c.GetState(op.s).value,
                   Replayed(if was.Some? then was.value else NewState(c.store.store.zero), op))
    ensures forall t: nat :: t != op.s ==> KeptOrEvicted(old(c.GetState(t)), c.GetState(t))
  {
    assert (ops + [op])[..|ops|] == ops;
    if op.Hold? {
      c.GetMutableState(op.s);
      c.IncrRefCount(op.s);
    } else if op.Release? {
      assert Tracked(c.GetState(op.s), op.s, c.written, c.finals, c.pins);
      c.DecrRefCount(op.s);
    } else {
      Write(c, op);
    }
  }

  method StoreStep<W>(c: GCCacheStore<W>, op: StoreOp<W>, ghost zero: W, ghost ops: seq<StoreOp<W>>,
                      ghost made: map<nat, nat>)
    returns (ghost made': map<nat, nat>)
    requires After(c, zero, ops, made) && (op.Release? ==> Pins(PinsBy(ops), op.s) > 0)
    modifies c, c.store, c.store.store
    ensures After(c, zero, ops + [op], made')
  {
    assert Tracked(c.GetState(op.s), op.s, c.written, c.finals, c.pins);
    assert Exact(c.GetState(op.s), op.s, zero, ops, made);
    made' := MadeAt(c.GetState(op.s), made, op.s, |ops|);
    Carry(c, op, ops);
    ExactNext(old(c.GetState(op.s)), c.GetState(op.s), zero, ops, op, made);
    forall t: nat | t != op.s ensures Exact(c.GetState(t), t, zero, ops + [op], made') {
      ExactKept(old(c.GetState(t)), c.GetState(t), t, zero, ops, op, made, made');
    }
  }

  /** Whatever is done, and whenever the store collects: a state that is stored has exactly what was written to its id
      since it was last made, one that is held is stored and has not been made anew, and the size is the total and
      within the limit. */
  method RunAll<W>(zero: W, gc: bool, gcLimit: nat, ops: seq<StoreOp<W>>)
    returns (c: GCCacheStore<W>, ghost made: map<nat, nat>)
    requires Balanced(ops)
    ensures After(c, zero, ops, made)
  {
    c := new GCCacheStore(zero, gc, gcLimit);
    made := map[];
    for n := 0 to |ops|
      invariant fresh(c) && fresh(c.store) && fresh(c.store.store) && After(c, zero, ops[..n], made)
    {
      BalancedPrefix(ops, n + 1);
      TakeNext(ops, n);
      made := StoreStep(c, ops[n], zero, ops[..n], made);
    }
    TakeAll(ops);
  }

  /** So a state that is held since some operation has at least all that was written to it from there on. */
  lemma HeldKeepsAll<W>(c: GCCacheStore<W>, zero: W, ops: seq<StoreOp<W>>, made: map<nat, nat>, h: nat, s: nat)
    requires After(c, zero, ops, made) && HeldSince(ops, h, s)
    ensures c.GetState(s).Some? && made[s] <= h
    ensures SameContents(c.GetState(s).value, Since(zero, ops, made[s], s))
  {
    assert Tracked(c.GetState(s), s, c.written, c.finals, c.pins);
    assert ops[..|ops|] == ops;
    assert Exact(c.GetState(s), s, zero, ops, made);
  }
}
