/** Accumulated arc weights: prefix sums stored ahead or on demand against adding arc by arc. A log weight stands for
    its mass, a non-negative real: adding weights adds masses, Zero has none, and the order is reversed. */
module Accumulators {
  import opened Fsts
  import opened Sequences

  ghost predicate HasMasses(arcs: seq<Arc<real>>) {
    forall i :: 0 <= i < |arcs| ==> arcs[i].weight >= 0.0
  }

  ghost predicate AllMasses(f: Fst<real>) {
    forall s :: 0 <= s < |f.states| ==> HasMasses(f.states[s].arcs)
  }

  /** The sum over the positions from begin to end, which is what accumulating means. */
  ghost function Mass(arcs: seq<Arc<real>>, begin: nat, end: nat): real
    requires begin <= end <= |arcs|
    decreases end
  {
    if begin == end then 0.0 else Mass(arcs, begin, end - 1) + arcs[end - 1].weight
  }

  lemma {:induction false} MassSplit(arcs: seq<Arc<real>>, begin: nat, mid: nat, end: nat)
    requires begin <= mid <= end <= |arcs|
    ensures Mass(arcs, begin, end) == Mass(arcs, begin, mid) + Mass(arcs, mid, end)
    decreases end
  {
    if mid < end {
      MassSplit(arcs, begin, mid, end - 1);
    }
  }

  lemma {:induction false} MassMonotone(arcs: seq<Arc<real>>, i: nat, j: nat)
    requires i <= j <= |arcs| && HasMasses(arcs)
    ensures Mass(arcs, 0, i) <= Mass(arcs, 0, j)
    decreases j
  {
    if i < j {
      MassMonotone(arcs, i, j - 1);
    }
  }

  /** LogPlus in terms of masses. */
  function LogPlus(w: real, v: real): real {
    if w == 0.0 then v else w + v
  }

  /** LogMinus, for a larger and a smaller mass. */
  function LogMinus(f1: real, f2: real): real {
    if f2 == 0.0 then f1 else f1 - f2
  }

  /** Adds the arcs from begin to end one by one. */
  method AddArcs(w: real, arcs: seq<Arc<real>>, begin: nat, end: nat) returns (sum: real)
    requires begin <= end <= |arcs|
    ensures sum == w + Mass(arcs, begin, end)
  {
    sum := w;
    for pos := begin to end
      invariant sum == w + Mass(arcs, begin, pos)
    {
      sum := LogPlus(sum, arcs[pos].weight);
    }
  }

  // ---- Prefix sums of every arcPeriod arcs

  lemma CeilFloor(begin: nat, end: nat, period: nat)
    requires period > 0 && begin <= end
    ensures var b := if begin > 0 then (begin - 1) / period + 1 else 0; var e := end / period;
      && begin <= b * period && e * period <= end && (b <= e ==> b * period <= e * period)
      && (b > e ==> b * period > end)
  {
    var b, e := if begin > 0 then (begin - 1) / period + 1 else 0, end / period;
    assert end == e * period + end % period;
    if begin > 0 {
      assert begin - 1 == (begin - 1) / period * period + (begin - 1) % period;
      assert b * period == (begin - 1) / period * period + period;
    }
    if b <= e {
      Scale(b, e, period);
    } else {
      Scale(e + 1, b, period);
      assert (e + 1) * period == e * period + period;
    }
  }

  lemma Scale(a: nat, b: nat, period: nat)
    requires a <= b
    ensures a * period <= b * period
  {
  }

  /** From pos on, the sums over the first 0, period, 2 * period, ... arcs. */
  ghost predicate StoredAt(weights: seq<real>, pos: nat, arcs: seq<Arc<real>>, period: nat, n: nat)
    requires period > 0
  {
    && pos + n / period < |weights| && n <= |arcs|
    && forall j: nat :: j <= n / period ==> j * period <= n && weights[pos + j] == Mass(arcs, 0, j * period)
  }

  lemma StoreNext(weights: seq<real>, pos: nat, arcs: seq<Arc<real>>, period: nat, n: nat)
    requires period > 0 && n < |arcs| && StoredAt(weights, pos, arcs, period, n) && |weights| == pos + n / period + 1
    ensures var weights' := if (n + 1) % period == 0 then weights + [Mass(arcs, 0, n + 1)] else weights;
      StoredAt(weights', pos, arcs, period, n + 1) && |weights'| == pos + (n + 1) / period + 1
  {
    DivNext(n, period);
    var weights' := if (n + 1) % period == 0 then weights + [Mass(arcs, 0, n + 1)] else weights;
    forall j: nat | j <= (n + 1) / period
      ensures j * period <= n + 1 && weights'[pos + j] == Mass(arcs, 0, j * period)
    {
      if j <= n / period {
        assert j * period <= n && weights[pos + j] == Mass(arcs, 0, j * period);
      }
    }
  }

  lemma DivNext(n: nat, period: nat)
    requires period > 0
    ensures (n + 1) / period == n / period + (if (n + 1) % period == 0 then 1 else 0)
    ensures (n + 1) % period == 0 ==> (n + 1) / period * period == n + 1
  {
    var q, r := n / period, n % period;
    assert n == q * period + r;
    if r + 1 < period {
      DivUnique(n + 1, period, q, r + 1);
    } else {
      assert (q + 1) * period == q * period + period;
      DivUnique(n + 1, period, q + 1, 0);
    }
  }

  lemma DivUnique(n: nat, period: nat, q: nat, r: nat)
    requires period > 0 && n == q * period + r && r < period
    ensures n / period == q && n % period == r
  {
    var q', r' := n / period, n % period;
    assert n == q' * period + r';
    assert (q' + 1) * period == q' * period + period && (q + 1) * period == q * period + period;
    if q' < q {
      Scale(q' + 1, q, period);
    } else if q < q' {
      Scale(q + 1, q', period);
    }
  }

  class FastLogAccumulator {
    const arcLimit: nat
    const arcPeriod: nat
    var weights: seq<real>
    var weightPositions: seq<int>
    // Where the weights of the current state begin, if any are stored.
    var stateWeights: Option<nat>
    var error: bool

    constructor (arcLimit: nat, arcPeriod: nat)
      requires arcPeriod > 0
      ensures this.arcLimit == arcLimit && this.arcPeriod == arcPeriod && weights == [] && weightPositions == []
      ensures stateWeights == None && !error
    {
      this.arcLimit, this.arcPeriod := arcLimit, arcPeriod;
      weights, weightPositions, stateWeights, error := [], [], None, false;
    }

    /** Every position points at the prefix sums of its state. */
    ghost predicate ValidFor(f: Fst<real>)
      reads this
    {
      arcPeriod > 0 && PositionsFor(f, weights, weightPositions, |f.states|)
    }

    ghost predicate PositionsFor(f: Fst<real>, weights: seq<real>, weightPositions: seq<int>, n: nat)
      requires arcPeriod > 0
    {
      && |weightPositions| <= n <= |f.states|
      && forall s :: 0 <= s < |weightPositions| && weightPositions[s] >= 0 ==>
        StoredAt(weights, weightPositions[s], f.states[s].arcs, arcPeriod, |f.states[s].arcs|)
    }

    /** The current state is s. */
    ghost predicate AtState(f: Fst<real>, s: nat)
      reads this
      requires arcPeriod > 0 && s < |f.states|
    {
      stateWeights.Some? ==> StoredAt(weights, stateWeights.value, f.states[s].arcs, arcPeriod, |f.states[s].arcs|)
    }

    method SetState(f: Fst<real>, s: nat)
      requires ValidFor(f) && s < |f.states|
      modifies `stateWeights
      ensures AtState(f, s)
      ensures stateWeights.Some? <==> s < |weightPositions| && weightPositions[s] >= 0
    {
      stateWeights := None;
      if s < |weightPositions| && weightPositions[s] >= 0 {
        stateWeights := Some(weightPositions[s]);
      }
    }

    /** Adds the arcs from begin to end to w, in the middle by two stored sums. */
    method Sum(w: real, ghost f: Fst<real>, ghost s: nat, arcs: seq<Arc<real>>, begin: nat, end: nat)
      returns (r: Option<real>)
      requires s < |f.states| && arcs == f.states[s].arcs && HasMasses(arcs) && arcPeriod > 0 && AtState(f, s)
      requires begin <= end <= |arcs|
      ensures r == if error then None else Some(w + Mass(arcs, begin, end))
    {
      if error {
        return None;
      }
      var sum := w;
      var indexBegin, indexEnd := 0, 0;
      var storedBegin, storedEnd := end, end;
      CeilFloor(begin, end, arcPeriod);
      if stateWeights.Some? {
        indexBegin := if begin > 0 then (begin - 1) / arcPeriod + 1 else 0;
        indexEnd := end / arcPeriod;
        storedBegin := indexBegin * arcPeriod;
        storedEnd := indexEnd * arcPeriod;
      }
      var posEnd := if storedBegin < end then storedBegin else end;
      if begin < storedBegin {
        sum := AddArcs(sum, arcs, begin, posEnd);
      }
      if storedBegin < storedEnd {
        StoredIndex(weights, stateWeights.value, arcs, arcPeriod, indexBegin, indexEnd, end);
        MassMonotone(arcs, storedBegin, storedEnd);
        MassSplit(arcs, 0, storedBegin, storedEnd);
        var f1, f2 := weights[stateWeights.value + indexEnd], weights[stateWeights.value + indexBegin];
        if f1 > f2 {
          sum := LogPlus(sum, LogMinus(f1, f2));
        }
      }
      var posStart := if storedBegin > storedEnd then storedBegin else storedEnd;
      if storedEnd < end && posStart < end {
        sum := AddArcs(sum, arcs, posStart, end);
      }
      if storedBegin <= storedEnd {
        MassSplit(arcs, begin, storedBegin, storedEnd);
        MassSplit(arcs, begin, storedEnd, end);
      }
      r := Some(sum);
    }

    /** Stores prefix sums for every state with enough arcs; fails if the period is longer than that or sums are
        there. */
    method Init(f: Fst<real>)
      requires arcPeriod > 0 && AllMasses(f)
      modifies this
      ensures old(weightPositions) != [] || arcLimit < arcPeriod ==>
        error && weights == old(weights) && weightPositions == old(weightPositions)
      ensures !(old(weightPositions) != [] || arcLimit < arcPeriod) ==> error == old(error) && ValidFor(f)
      ensures !(old(weightPositions) != [] || arcLimit < arcPeriod) ==> forall s :: 0 <= s < |f.states| ==>
        (|f.states[s].arcs| >= arcLimit <==> s < |weightPositions| && weightPositions[s] >= 0)
    {
      if |weightPositions| != 0 || arcLimit < arcPeriod {
        error := true;
        return;
      }
      var sums: seq<real> := [];
      var positions: seq<int> := [];
      for s := 0 to |f.states|
        invariant PositionsFor(f, sums, positions, s) && weights == old(weights)
        invariant weightPositions == old(weightPositions)
        invariant error == old(error)
        invariant forall t :: 0 <= t < s ==> (|f.states[t].arcs| >= arcLimit <==> t < |positions| && positions[t] >= 0)
      {
        var arcs := f.states[s].arcs;
        if |arcs| >= arcLimit {
          ghost var before := sums;
          positions := positions + seq(s - |positions|, _ => -1) + [|sums|];
          sums := AppendSums(sums, arcs);
          KeepStored(f, before, positions, sums, s);
        }
      }
      weights, weightPositions := sums, positions;
    }

    /** Appends 0 and the sum after each full period. */
    method AppendSums(stored: seq<real>, arcs: seq<Arc<real>>) returns (sums: seq<real>)
      requires arcPeriod > 0
      ensures stored <= sums && StoredAt(sums, |stored|, arcs, arcPeriod, |arcs|)
    {
      var sum := 0.0;
      sums := stored + [sum];
      for narcs := 0 to |arcs|
        invariant sum == Mass(arcs, 0, narcs) && stored <= sums
        invariant StoredAt(sums, |stored|, arcs, arcPeriod, narcs) && |sums| == |stored| + narcs / arcPeriod + 1
      {
        StoreNext(sums, |stored|, arcs, arcPeriod, narcs);
        sum := LogPlus(sum, arcs[narcs].weight);
        if (narcs + 1) % arcPeriod == 0 {
          sums := sums + [sum];
        }
      }
    }

    lemma KeepStored(f: Fst<real>, before: seq<real>, positions: seq<int>, sums: seq<real>, s: nat)
      requires arcPeriod > 0 && before <= sums && s < |f.states| && |positions| == s + 1
      requires forall t :: 0 <= t < s && positions[t] >= 0 ==>
        StoredAt(before, positions[t], f.states[t].arcs, arcPeriod, |f.states[t].arcs|)
      requires positions[s] == |before| && StoredAt(sums, |before|, f.states[s].arcs, arcPeriod, |f.states[s].arcs|)
      ensures PositionsFor(f, sums, positions, s + 1)
    {
      forall t | 0 <= t < |positions| && positions[t] >= 0
        ensures StoredAt(sums, positions[t], f.states[t].arcs, arcPeriod, |f.states[t].arcs|)
      {
        if t < s {
          assert StoredAt(before, positions[t], f.states[t].arcs, arcPeriod, |f.states[t].arcs|);
        }
      }
    }
  }

  lemma StoredIndex(weights: seq<real>, pos: nat, arcs: seq<Arc<real>>, period: nat, b: nat, e: nat, end: nat)
    requires period > 0 && StoredAt(weights, pos, arcs, period, |arcs|) && b <= e == end / period && end <= |arcs|
    ensures pos + e < |weights| && e * period <= |arcs| && b * period <= |arcs|
    ensures weights[pos + b] == Mass(arcs, 0, b * period) && weights[pos + e] == Mass(arcs, 0, e * period)
  {
    DivMonotone(end, |arcs|, period);
  }

  lemma {:induction false} DivMonotone(a: nat, b: nat, period: nat)
    requires period > 0 && a <= b
    ensures a / period <= b / period
    decreases b
  {
    if a < b {
      DivMonotone(a, b - 1, period);
      DivNext(b - 1, period);
    }
  }

  // ---- Prefix sums on demand

  /** The sums over the first 0, 1, 2, ... arcs. */
  ghost predicate Prefixes(weights: seq<real>, arcs: seq<Arc<real>>) {
    0 < |weights| <= |arcs| + 1 && forall j :: 0 <= j < |weights| ==> weights[j] == Mass(arcs, 0, j)
  }

  /** n is the first position from pos on up to which the arcs make up the mass m, the end if there is none. */
  ghost predicate IsLowerBound(arcs: seq<Arc<real>>, pos: nat, m: real, n: nat) {
    && pos <= n <= |arcs| && (n < |arcs| ==> Mass(arcs, 0, n + 1) >= m)
    && forall i :: pos < i <= n ==> Mass(arcs, 0, i) < m
  }

  datatype CacheEntry = CacheEntry(weights: seq<real>, recent: bool)

  const SIZE_OF_DOUBLE := 8

  class CacheLogAccumulator {
    const arcLimit: nat
    const cacheGc: bool
    const cacheLimit: nat
    var fst: Option<Fst<real>>
    var cache: map<nat, CacheEntry>
    var cacheSize: int
    // The current state, and whether its sums are cached.
    var s: int
    var weights: bool
    var error: bool

    ghost predicate Valid()
      reads this
    {
      && (fst.Some? ==> AllMasses(fst.value))
      && (forall t :: t in cache ==>
        fst.Some? && t < |fst.value.states| && Prefixes(cache[t].weights, fst.value.states[t].arcs))
      && (weights ==> s >= 0 && s in cache)
    }

    constructor (arcLimit: nat, gc: bool, gcLimit: nat)
      ensures Valid() && fst == None && cache == map[] && s == NO_STATE_ID && !weights && !error
    {
      this.arcLimit, cacheGc, cacheLimit := arcLimit, gc, gcLimit;
      fst, cache, cacheSize, s, weights, error := None, map[], 0, NO_STATE_ID, false, false;
    }

    method Init(f: Fst<real>)
      requires Valid() && AllMasses(f)
      modifies this
      ensures Valid() && if old(fst).Some? then error && fst == old(fst) else fst == Some(f) && error == old(error)
    {
      if fst.Some? {
        error := true;
        return;
      }
      fst := Some(f);
    }

    /** The bytes reserved for all sums of a state. */
    function Capacity(t: nat): nat
      requires fst.Some? && t < |fst.value.states|
      reads this
    {
      (|fst.value.states[t].arcs| + 1) * SIZE_OF_DOUBLE
    }

    /** Drops cached sums, those not used lately first, until a third of the limit is free. */
    method GC(freeRecent: bool)
      requires Valid() && !weights
      modifies `cache, `cacheSize
      ensures cache.Keys <= old(cache).Keys && forall t :: t in cache ==> cache[t].weights == old(cache)[t].weights
      decreases !freeRecent
    {
      var cacheTarget := 2 * cacheLimit / 3 + 1;
      var todo := cache.Keys;
      while todo != {} && cacheSize > cacheTarget
        invariant Valid() && todo <= cache.Keys <= old(cache).Keys
        invariant forall t :: t in cache ==> cache[t].weights == old(cache)[t].weights
        decreases todo
      {
        ghost var some := HasElement(todo);
        var t :| t in todo;
        todo := todo - {t};
        if freeRecent || !cache[t].recent {
          cacheSize := cacheSize - Capacity(t);
          cache := cache - {t};
        } else {
          cache := cache[t := cache[t].(recent := false)];
        }
      }
      if !freeRecent && cacheSize > cacheTarget {
        ghost var swept := cache;
        GC(true);
        assert forall t :: t in cache ==> t in swept;
      }
    }

    /** Makes t the current state; starts caching its sums if it has enough arcs. */
    method SetState(t: nat)
      requires Valid() && (fst.Some? ==> t < |fst.value.states|)
      modifies this
      ensures Valid() && s == t && fst == old(fst) && (old(s) == t ==> unchanged(this))
      ensures old(s) != t ==> error == (old(error) || (!(cacheGc && cacheLimit == 0) && fst.None?))
      ensures old(s) != t ==> (weights <==>
        && !(cacheGc && cacheLimit == 0) && !error && (t in old(cache) || |fst.value.states[t].arcs| >= arcLimit))
      ensures forall u :: u in cache && u in old(cache) ==> cache[u].weights == old(cache)[u].weights
      ensures forall u :: u in cache && u !in old(cache) ==> u == t && cache[u].weights == [0.0]
    {
      if s == t {
        return;
      }
      s, weights := t, false;
      if (cacheGc && cacheLimit == 0) || error {
        return;
      }
      if fst.None? {
        error := true;
        return;
      }
      if t in cache {
        cache := cache[t := cache[t].(recent := true)];
        weights := true;
      } else if |fst.value.states[t].arcs| >= arcLimit {
        if cacheGc && cacheSize >= cacheLimit {
          GC(false);
        }
        if cacheGc {
          cacheSize := cacheSize + Capacity(t);
        }
        cache := cache[t := CacheEntry([0.0], true)];
        weights := true;
      }
    }

    /** Extends the cached sums to the first end arcs. */
    method Extend(end: nat, arcs: seq<Arc<real>>)
      requires Valid() && weights && arcs == fst.value.states[s].arcs && end <= |arcs|
      modifies `cache
      ensures Valid() && |cache[s].weights| > end && old(cache[s].weights) <= cache[s].weights
    {
      while |cache[s].weights| <= end
        invariant Valid() && old(cache[s].weights) <= cache[s].weights
        decreases end - |cache[s].weights|
      {
        var entry := cache[s];
        var n := |entry.weights|;
        cache := cache[s := entry.(weights := entry.weights + [LogPlus(entry.weights[n - 1], arcs[n - 1].weight)])];
      }
    }

    /** Adds the arcs from begin to end to w, by two cached sums if there are any. */
    method Sum(w: real, arcs: seq<Arc<real>>, begin: nat, end: nat) returns (sum: real)
      requires Valid() && fst.Some? && 0 <= s < |fst.value.states| && arcs == fst.value.states[s].arcs
      requires begin <= end <= |arcs|
      modifies `cache
      ensures Valid() && sum == w + Mass(arcs, begin, end)
    {
      if !weights {
        sum := AddArcs(w, arcs, begin, end);
      } else {
        Extend(end, arcs);
        var f1, f2 := cache[s].weights[end], cache[s].weights[begin];
        MassSplit(arcs, 0, begin, end);
        MassMonotone(arcs, begin, end);
        sum := if f1 > f2 then LogPlus(w, LogMinus(f1, f2)) else w;
      }
    }

    /** The first position from pos on whose accumulated mass is at least m; both ways find the same. */
    method LowerBound(m: real, arcs: seq<Arc<real>>, pos: nat) returns (n: nat)
      requires Valid() && fst.Some? && 0 <= s < |fst.value.states| && arcs == fst.value.states[s].arcs && pos <= |arcs|
      modifies `cache
      ensures Valid() && IsLowerBound(arcs, pos, m, n)
    {
      if weights {
        Extend(|arcs|, arcs);
        var i := BinarySearch(cache[s].weights, arcs, pos + 1, m);
        n := i - 1;
      } else {
        n := 0;
        var x := 0.0;
        while n < |arcs|
          invariant n <= |arcs| && x == Mass(arcs, 0, n)
          invariant forall i :: pos < i <= n ==> Mass(arcs, 0, i) < m
        {
          x := LogPlus(x, arcs[n].weight);
          if n >= pos && x >= m {
            break;
          }
          n := n + 1;
        }
      }
    }
  }

  /** The first index from first on whose sum is not below m; the sums are sorted. */
  method BinarySearch(weights: seq<real>, ghost arcs: seq<Arc<real>>, first: nat, m: real) returns (i: nat)
    requires Prefixes(weights, arcs) && HasMasses(arcs) && first <= |weights|
    ensures first <= i <= |weights| && (i < |weights| ==> weights[i] >= m)
    ensures forall j :: first <= j < i ==> weights[j] < m
  {
    i := first;
    var count := |weights| - first;
    while count > 0
      invariant first <= i && 0 <= count && i + count <= |weights|
      invariant forall j :: first <= j < i ==> weights[j] < m
      invariant i + count < |weights| ==> weights[i + count] >= m
    {
      var step := count / 2;
      if weights[i + step] < m {
        forall j | first <= j <= i + step ensures weights[j] < m {
          MassMonotone(arcs, j, i + step);
        }
        i := i + step + 1;
        count := count - (step + 1);
      } else {
        count := step;
      }
    }
  }
}
