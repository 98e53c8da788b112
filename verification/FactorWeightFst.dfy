/** Delayed weight factoring: elements are numbered on demand and expanded arc by arc. */
module FactorWeightFsts {
  import opened Semirings
  import opened Fsts
  import opened Sequences
  import opened FactorWeights

  /** An output arc as the cache holds it: its destination is a number in the table of elements. */
  ghost predicate SameOutArc<W>(out: OutArc<W>, arc: Arc<W>, elements: seq<FactorElement<W>>) {
    && arc.ilabel == out.ilabel && arc.olabel == out.olabel && arc.weight == out.weight
    && arc.nextstate < |elements| && elements[arc.nextstate] == out.dest
  }

  /** The first n output arcs of an element. */
  ghost predicate ArcsNumbered<W>(
    c: Factoring<W>, e: FactorElement<W>, arcs: seq<Arc<W>>, elements: seq<FactorElement<W>>, n: nat
  )
    requires InFst(c.f, e) && n <= NumOutArcs(c, e)
  {
    |arcs| == n && forall i :: 0 <= i < n ==> SameOutArc(OutArcAt(c, e, i), arcs[i], elements)
  }

  lemma ArcsGrow<W>(
    c: Factoring<W>, e: FactorElement<W>, arcs: seq<Arc<W>>, elements: seq<FactorElement<W>>, n: nat,
    elements': seq<FactorElement<W>>
  )
    requires InFst(c.f, e) && n <= NumOutArcs(c, e) && ArcsNumbered(c, e, arcs, elements, n) && elements <= elements'
    ensures ArcsNumbered(c, e, arcs, elements', n)
  {
    forall i | 0 <= i < n ensures SameOutArc(OutArcAt(c, e, i), arcs[i], elements') {
      assert SameOutArc(OutArcAt(c, e, i), arcs[i], elements);
    }
  }

  // ---- The tables

  /** Is the number of this element kept in the table of unfactored states? */
  predicate IsUnfactored<W(==)>(c: Factoring<W>, e: FactorElement<W>) {
    !c.o.arcs && e.weight == c.k.One && e.state != NO_STATE_ID
  }

  ghost predicate HasNumber<W>(
    c: Factoring<W>, elementMap: map<FactorElement<W>, nat>, unfactored: seq<int>, e: FactorElement<W>, s: nat
  ) {
    if IsUnfactored(c, e) then 0 <= e.state < |unfactored| && unfactored[e.state] == s
    else e in elementMap && elementMap[e] == s
  }

  /** The two tables are the inverse of the list of elements. */
  ghost predicate TableValid<W(!new)>(
    c: Factoring<W>, elements: seq<FactorElement<W>>, elementMap: map<FactorElement<W>, nat>, unfactored: seq<int>
  )
    requires ValidFactoring(c)
  {
    && (forall s :: 0 <= s < |elements| ==>
      ValidElement(c, elements[s]) && HasNumber(c, elementMap, unfactored, elements[s], s))
    && (forall e :: e in elementMap ==> elementMap[e] < |elements| && elements[elementMap[e]] == e)
    && (forall t :: 0 <= t < |unfactored| && unfactored[t] != NO_STATE_ID ==>
      0 <= unfactored[t] < |elements| && elements[unfactored[t]] == FactorElement(t, c.k.One))
  }

  /** Two states with the same element are the same state. */
  lemma ElementsDistinct<W(!new)>(
    c: Factoring<W>, elements: seq<FactorElement<W>>, elementMap: map<FactorElement<W>, nat>, unfactored: seq<int>
  )
    requires ValidFactoring(c) && TableValid(c, elements, elementMap, unfactored)
    ensures Distinct(elements)
  {
    forall s, t | 0 <= s < t < |elements| ensures elements[s] != elements[t] {
      assert HasNumber(c, elementMap, unfactored, elements[s], s)
        && HasNumber(c, elementMap, unfactored, elements[t], t);
    }
  }

  lemma AddUnfactored<W(!new)>(
    c: Factoring<W>, elements: seq<FactorElement<W>>, elementMap: map<FactorElement<W>, nat>, unfactored: seq<int>,
    e: FactorElement<W>
  )
    requires ValidFactoring(c) && TableValid(c, elements, elementMap, unfactored) && ValidElement(c, e)
    requires IsUnfactored(c, e) && e.state < |unfactored| && unfactored[e.state] == NO_STATE_ID
    ensures TableValid(c, elements + [e], elementMap, unfactored[e.state := |elements|])
  {
    var unfactored' := unfactored[e.state := |elements|];
    forall s | 0 <= s < |elements| + 1 ensures HasNumber(c, elementMap, unfactored', (elements + [e])[s], s) {
      if s < |elements| {
        assert HasNumber(c, elementMap, unfactored, elements[s], s);
      }
    }
  }

  lemma AddMapped<W(!new)>(
    c: Factoring<W>, elements: seq<FactorElement<W>>, elementMap: map<FactorElement<W>, nat>, unfactored: seq<int>,
    e: FactorElement<W>
  )
    requires ValidFactoring(c) && TableValid(c, elements, elementMap, unfactored) && ValidElement(c, e)
    requires !IsUnfactored(c, e) && e !in elementMap
    ensures TableValid(c, elements + [e], elementMap[e := |elements|], unfactored)
  {
    var elementMap' := elementMap[e := |elements|];
    forall s | 0 <= s < |elements| + 1 ensures HasNumber(c, elementMap', unfactored, (elements + [e])[s], s) {
      if s < |elements| {
        assert HasNumber(c, elementMap, unfactored, elements[s], s);
      }
    }
  }

  lemma PadUnfactored<W(!new)>(
    c: Factoring<W>, elements: seq<FactorElement<W>>, elementMap: map<FactorElement<W>, nat>, unfactored: seq<int>
  )
    requires ValidFactoring(c) && TableValid(c, elements, elementMap, unfactored)
    ensures TableValid(c, elements, elementMap, unfactored + [NO_STATE_ID])
  {
    forall s | 0 <= s < |elements| ensures HasNumber(c, elementMap, unfactored + [NO_STATE_ID], elements[s], s) {
      assert HasNumber(c, elementMap, unfactored, elements[s], s);
    }
  }

  // ---- The cache

  ghost predicate CacheValid<W(!new)>(
    c: Factoring<W>, elements: seq<FactorElement<W>>, start: Option<nat>, finals: map<nat, W>,
    arcs: map<nat, seq<Arc<W>>>
  )
  {
    && (forall s :: 0 <= s < |elements| ==> InFst(c.f, elements[s]))
    && (start.Some? ==> start.value < |elements| && elements[start.value] == StartElement(c))
    && (forall s :: s in finals ==> s < |elements| && finals[s] == OutFinal(c, elements[s]))
    && (forall s :: s in arcs ==>
      s < |elements| && ArcsNumbered(c, elements[s], arcs[s], elements, NumOutArcs(c, elements[s])))
  }

  lemma CacheGrows<W(!new)>(
    c: Factoring<W>, elements: seq<FactorElement<W>>, start: Option<nat>, finals: map<nat, W>,
    arcs: map<nat, seq<Arc<W>>>, e: FactorElement<W>
  )
    requires CacheValid(c, elements, start, finals, arcs) && InFst(c.f, e)
    ensures CacheValid(c, elements + [e], start, finals, arcs)
  {
    forall s | s in arcs
      ensures s < |elements| && ArcsNumbered(c, elements[s], arcs[s], elements + [e], NumOutArcs(c, elements[s]))
    {
      ArcsGrow(c, elements[s], arcs[s], elements, NumOutArcs(c, elements[s]), elements + [e]);
    }
  }

  lemma CacheArcs<W(!new)>(
    c: Factoring<W>, elements: seq<FactorElement<W>>, start: Option<nat>, finals: map<nat, W>,
    arcs: map<nat, seq<Arc<W>>>, s: nat, row: seq<Arc<W>>
  )
    requires CacheValid(c, elements, start, finals, arcs) && s < |elements|
    requires ArcsNumbered(c, elements[s], row, elements, NumOutArcs(c, elements[s]))
    ensures CacheValid(c, elements, start, finals, arcs[s := row])
  {
  }

  class FactorWeightFst<W(==,!new)> {
    const c: Factoring<W>
    // From state to element, and back: unfactored states have a table of their own.
    var elements: seq<FactorElement<W>>
    var elementMap: map<FactorElement<W>, nat>
    var unfactored: seq<int>
    var start: Option<nat>
    var finals: map<nat, W>
    var arcs: map<nat, seq<Arc<W>>>

    ghost predicate Valid()
      reads this
    {
      ValidFactoring(c) && TableValid(c, elements, elementMap, unfactored)
        && CacheValid(c, elements, start, finals, arcs)
    }

    constructor (c: Factoring<W>)
      requires ValidFactoring(c)
      ensures Valid() && this.c == c && elements == [] && arcs == map[]
    {
      this.c := c;
      elements, elementMap, unfactored, start, finals, arcs := [], map[], [], None, map[], map[];
    }

    /** The number of an element, a new one if it has none; known elements keep theirs. */
    method FindState(e: FactorElement<W>) returns (s: nat)
      requires Valid() && ValidElement(c, e)
      modifies `elements, `elementMap, `unfactored
      ensures Valid() && s < |elements| && elements[s] == e
      ensures elements == old(elements) || (e !in old(elements) && elements == old(elements) + [e])
    {
      CacheGrows(c, elements, start, finals, arcs, e);
      if IsUnfactored(c, e) {
        s := FindUnfactored(e);
      } else {
        if e !in elementMap {
          AddMapped(c, elements, elementMap, unfactored, e);
          assert forall t :: 0 <= t < |elements| ==> HasNumber(c, elementMap, unfactored, elements[t], t);
          elementMap := elementMap[e := |elements|];
          elements := elements + [e];
        }
        s := elementMap[e];
      }
    }

    method FindUnfactored(e: FactorElement<W>) returns (s: nat)
      requires ValidFactoring(c) && TableValid(c, elements, elementMap, unfactored) && ValidElement(c, e)
      requires IsUnfactored(c, e)
      modifies `elements, `unfactored
      ensures TableValid(c, elements, elementMap, unfactored) && s < |elements| && elements[s] == e
      ensures elements == old(elements) || (e !in old(elements) && elements == old(elements) + [e])
    {
      while |unfactored| <= e.state
        invariant TableValid(c, elements, elementMap, unfactored) && elements == old(elements)
      {
        PadUnfactored(c, elements, elementMap, unfactored);
        unfactored := unfactored + [NO_STATE_ID];
      }
      if unfactored[e.state] == NO_STATE_ID {
        assert forall t :: 0 <= t < |elements| ==> HasNumber(c, elementMap, unfactored, elements[t], t);
        AddUnfactored(c, elements, elementMap, unfactored, e);
        unfactored := unfactored[e.state := |elements|];
        elements := elements + [e];
      }
      s := unfactored[e.state];
    }

    method Start() returns (s: int)
      requires Valid()
      modifies `elements, `elementMap, `unfactored, `start
      ensures Valid() && old(elements) <= elements
      ensures if c.f.start == NO_STATE_ID then s == NO_STATE_ID
              else 0 <= s < |elements| && elements[s] == StartElement(c)
    {
      if c.f.start == NO_STATE_ID {
        return NO_STATE_ID;
      }
      if start.None? {
        RegularOne(c.k);
        var n := FindState(StartElement(c));
        start := Some(n);
      }
      s := start.value;
    }

    method Final(s: nat) returns (w: W)
      requires Valid() && s < |elements|
      modifies `finals
      ensures Valid() && w == OutFinal(c, elements[s])
    {
      if s !in finals {
        var element := elements[s];
        var weight := if element.state == NO_STATE_ID then element.weight
                      else c.k.Times(element.weight, c.f.states[element.state].final);
        if !c.o.finals || c.fac.done(weight) {
          finals := finals[s := weight];
        } else {
          finals := finals[s := c.k.Zero];
        }
      }
      w := finals[s];
    }

    /** Computes the arcs of a state, numbering their destinations. */
    method Expand(s: nat)
      requires Valid() && s < |elements|
      modifies `elements, `elementMap, `unfactored, `arcs
      ensures Valid() && old(elements) <= elements && arcs.Keys == old(arcs).Keys + {s}
      ensures forall t :: t in old(arcs) && t != s ==> arcs[t] == old(arcs)[t]
      ensures ArcsNumbered(c, elements[s], arcs[s], elements, NumOutArcs(c, elements[s]))
    {
      var element := elements[s];
      var input := if element.state != NO_STATE_ID then c.f.states[element.state].arcs else [];
      var row: seq<Arc<W>> := [];
      for i := 0 to |input|
        invariant Valid() && old(elements) <= elements && arcs == old(arcs) && elements[s] == element
        invariant ArcsNumbered(c, element, row, elements, i)
      {
        row := FactorArc(element, input[i], i, row);
      }
      row := FactorFinal(element, row);
      CacheArcs(c, elements, start, finals, arcs, s, row);
      arcs := arcs[s := row];
    }

    method FactorArc(element: FactorElement<W>, arc: Arc<W>, ghost i: nat, row: seq<Arc<W>>) returns (row': seq<Arc<W>>)
      requires Valid() && ValidElement(c, element) && i < |InputArcs(c.f, element)| && arc == InputArcs(c.f, element)[i]
      requires ArcsNumbered(c, element, row, elements, i)
      modifies `elements, `elementMap, `unfactored
      ensures Valid() && old(elements) <= elements && ArcsNumbered(c, element, row', elements, i + 1)
    {
      var weight := c.k.Times(element.weight, arc.weight);
      OutArcValid(c, element, i);
      if !c.o.arcs || c.fac.done(weight) {
        var dest := FindState(FactorElement(arc.nextstate, c.k.One));
        row' := row + [Arc(arc.ilabel, arc.olabel, weight, dest)];
      } else {
        var pair := c.fac.split(weight);
        var dest := FindState(FactorElement(arc.nextstate, pair.1));
        row' := row + [Arc(arc.ilabel, arc.olabel, pair.0, dest)];
      }
      ArcsGrow(c, element, row, old(elements), i, elements);
      assert SameOutArc(OutArcAt(c, element, i), row'[i], elements);
    }

    method FactorFinal(element: FactorElement<W>, row: seq<Arc<W>>) returns (row': seq<Arc<W>>)
      requires Valid() && ValidElement(c, element) && ArcsNumbered(c, element, row, elements, |InputArcs(c.f, element)|)
      modifies `elements, `elementMap, `unfactored
      ensures Valid() && old(elements) <= elements && ArcsNumbered(c, element, row', elements, NumOutArcs(c, element))
    {
      row' := row;
      if c.o.finals && (element.state == NO_STATE_ID || c.f.states[element.state].final != c.k.Zero) {
        var weight := if element.state == NO_STATE_ID then element.weight
                      else c.k.Times(element.weight, c.f.states[element.state].final);
        if !c.fac.done(weight) {
          OutArcValid(c, element, |InputArcs(c.f, element)|);
          var pair := c.fac.split(weight);
          var dest := FindState(FactorElement(NO_STATE_ID, pair.1));
          row' := row + [Arc(c.o.finalIlabel, c.o.finalOlabel, pair.0, dest)];
          ArcsGrow(c, element, row, old(elements), |InputArcs(c.f, element)|, elements);
        }
      }
    }
  }
}
