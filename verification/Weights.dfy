/** Two weight types of the library: tropical weights and left string weights. */
module Weights {
  import opened Semirings
  import opened Fsts
  import opened Determinize
  import opened DeterminizeFsas
  import opened DeterminizeRuns
  import opened DeterminizeClosed
  import opened Sequences

  datatype Tropical = Infinity | Finite(value: int)

  function TropicalPlus(a: Tropical, b: Tropical): Tropical {
    if a.Infinity? then b else if b.Infinity? || a.value < b.value then a else b
  }

  function TropicalTimes(a: Tropical, b: Tropical): Tropical {
    if a.Infinity? || b.Infinity? then Infinity else Finite(a.value + b.value)
  }

  function TropicalDivide(a: Tropical, b: Tropical): Tropical {
    if a.Infinity? || b.Infinity? then Infinity else Finite(a.value - b.value)
  }

  const TROPICAL := Semiring(Infinity, Finite(0), TropicalPlus, TropicalTimes)

  // DefaultCommonDivisor: the semiring sum.
  const TROPICAL_DIVISION := Division(TropicalPlus, TropicalDivide)

  /** Tropical weights meet everything determinization and composition ask of their weights. */
  lemma TropicalIsDivisible()
    ensures Divisible(TROPICAL, TROPICAL_DIVISION) && CommutativeTimes(TROPICAL)
  {
    forall a, d {:trigger At2(a, d)} | d != Infinity
      ensures Divides(TROPICAL, d, a) && TropicalTimes(d, TropicalDivide(a, d)) == a
    {
      assert TROPICAL.Times(d, TropicalDivide(a, d)) == a;
    }
    forall a, b {:trigger At2(a, b)}
      ensures Divides(TROPICAL, TropicalPlus(a, b), a) && Divides(TROPICAL, TropicalPlus(a, b), b)
    {
      var d := TropicalPlus(a, b);
      if d == Infinity {
        assert TROPICAL.Times(d, Infinity) == Infinity;
      } else {
        assert TROPICAL.Times(d, TropicalDivide(a, d)) == a;
        assert TROPICAL.Times(d, TropicalDivide(b, d)) == b;
      }
    }
  }

  /** The divisor of a list is Zero, so that dividing by it has no result, only if every weight in it is Zero. */
  lemma {:induction false} TropicalDivisorIsZeroIff(S: Subset<Tropical>)
    ensures DivisorFold(TROPICAL, TROPICAL_DIVISION, S) == TROPICAL.Zero <==> !SomeNonZero(TROPICAL, S)
  {
    if S != [] {
      var init, last := S[..|S| - 1], S[|S| - 1];
      TropicalDivisorIsZeroIff(init);
      if SomeNonZero(TROPICAL, init) {
        var i :| 0 <= i < |init| && init[i].weight != Infinity;
        assert S[i].weight != Infinity;
      }
    }
  }

  /** Divisors are the least weights, so one residual of every arc is One. */
  lemma TropicalNormalizes()
    ensures Normalizes(TROPICAL, TROPICAL_DIVISION)
  {
  }

  ghost predicate AtLeast(a: Tropical, b: Tropical) {
    b.Infinity? || (a.Finite? && a.value <= b.value)
  }

  /** The sum of two weights is the lesser. */
  lemma TropicalPlusIsLeast(a: Tropical, b: Tropical)
    ensures TropicalPlus(a, b) == a || TropicalPlus(a, b) == b
    ensures AtLeast(TropicalPlus(a, b), a) && AtLeast(TropicalPlus(a, b), b)
  {
  }

  /** The sum over paths is the least weight among them. */
  lemma {:induction false} TropicalSumIsLeast(f: Fst<Tropical>, q: nat, ps: seq<seq<nat>>)
    requires Fsts.Valid(f) && q < |f.states| && forall p :: p in ps ==> IsPath(f, q, p)
    ensures forall p :: p in ps ==> AtLeast(SumPaths(TROPICAL, f, q, ps), PathWeight(TROPICAL, f, q, p))
    ensures ps != [] ==> exists p :: p in ps && SumPaths(TROPICAL, f, q, ps) == PathWeight(TROPICAL, f, q, p)
  {
    if ps != [] {
      TropicalSumIsLeast(f, q, ps[1..]);
      TropicalPlusIsLeast(PathWeight(TROPICAL, f, q, ps[0]), SumPaths(TROPICAL, f, q, ps[1..]));
      assert ps[0] in ps;
      if |ps| == 1 {
        assert ps[1..] == [];
      }
      forall p | p in ps ensures AtLeast(SumPaths(TROPICAL, f, q, ps), PathWeight(TROPICAL, f, q, p)) {
        assert p == ps[0] || p in ps[1..];
      }
    }
  }

  ghost predicate HasWeight(S: Subset<Tropical>, w: Tropical) {
    exists i :: 0 <= i < |S| && S[i].weight == w
  }

  ghost predicate NoLess(S: Subset<Tropical>, w: Tropical) {
    forall i :: 0 <= i < |S| ==> AtLeast(w, S[i].weight)
  }

  /** The divisor is the least of the merged weights. */
  lemma {:induction false} DivisorIsLeast(S: Subset<Tropical>)
    requires S != []
    ensures HasWeight(MergeFold(TROPICAL, S), DivisorFold(TROPICAL, TROPICAL_DIVISION, S))
    ensures NoLess(MergeFold(TROPICAL, S), DivisorFold(TROPICAL, TROPICAL_DIVISION, S))
  {
    var init, last := S[..|S| - 1], S[|S| - 1];
    var d, merged := DivisorFold(TROPICAL, TROPICAL_DIVISION, init), MergeFold(TROPICAL, init);
    if init != [] {
      DivisorIsLeast(init);
      LeastAppended(merged, d, last);
    } else {
      assert MergeFold(TROPICAL, S)[0].weight == last.weight;
    }
  }

  lemma LeastAppended(merged: Subset<Tropical>, d: Tropical, last: Element<Tropical>)
    requires HasWeight(merged, d) && NoLess(merged, d)
    ensures HasWeight(MergeNext(TROPICAL, merged, last), TropicalPlus(d, last.weight))
    ensures NoLess(MergeNext(TROPICAL, merged, last), TropicalPlus(d, last.weight))
  {
    var next := MergeNext(TROPICAL, merged, last);
    var i :| 0 <= i < |merged| && merged[i].weight == d;
    if TropicalPlus(d, last.weight) == d {
      assert next[i].weight == d;
    } else {
      assert next[|next| - 1].weight == last.weight;
    }
  }

  /** If some gathered weight is not Zero, some residual of the destination is One: nothing more can be divided out. */
  lemma TropicalResidualIsOne(n: nat, S: Subset<Tropical>)
    requires InSubset(S, n) && SomeNonZero(TROPICAL, S)
    ensures HasWeight(NormArcOf(TROPICAL, TROPICAL_DIVISION, S).dest, TROPICAL.One)
  {
    TropicalIsDivisible();
    var sorted := SortFold(S);
    SortKeepsValue(TROPICAL, n, S);
    SomeNonZeroSorted(TROPICAL, S, sorted);
    TropicalDivisorIsZeroIff(sorted);
    DivisorIsLeast(sorted);
    var d, merged := DivisorFold(TROPICAL, TROPICAL_DIVISION, sorted), MergeFold(TROPICAL, sorted);
    var i :| 0 <= i < |merged| && merged[i].weight == d;
    assert DividedBy(TROPICAL_DIVISION, merged, d)[i].weight == TropicalDivide(d, d);
  }

  // ---- Left string weights: the sum is the longest common prefix, the product is concatenation

  datatype StringWeight = StringZero | Letters(labels: seq<int>)

  function CommonPrefix(a: seq<int>, b: seq<int>): (p: seq<int>)
    ensures p <= a && p <= b
  {
    if a == [] || b == [] || a[0] != b[0] then [] else [a[0]] + CommonPrefix(a[1..], b[1..])
  }

  function StringPlus(a: StringWeight, b: StringWeight): StringWeight {
    if a.StringZero? then b else if b.StringZero? then a else Letters(CommonPrefix(a.labels, b.labels))
  }

  function StringTimes(a: StringWeight, b: StringWeight): StringWeight {
    if a.StringZero? || b.StringZero? then StringZero else Letters(a.labels + b.labels)
  }

  /** The number of letters; Zero is stored as one special letter. */
  function Size(a: StringWeight): nat {
    if a.StringZero? then 1 else |a.labels|
  }

  const STRINGS := Semiring(StringZero, Letters([]), StringPlus, StringTimes)

  ghost predicate PrefixOf(q: seq<int>, a: seq<int>) {
    q <= a
  }

  lemma {:induction false} CommonPrefixLongest(a: seq<int>, b: seq<int>, q: seq<int>)
    ensures PrefixOf(q, a) && PrefixOf(q, b) <==> PrefixOf(q, CommonPrefix(a, b))
  {
    if q != [] && a != [] && b != [] && a[0] == b[0] {
      CommonPrefixLongest(a[1..], b[1..], q[1..]);
      PrefixCons(q, a);
      PrefixCons(q, b);
      PrefixCons(q, CommonPrefix(a, b));
    }
  }

  lemma PrefixCons(q: seq<int>, a: seq<int>)
    requires q != [] && a != []
    ensures PrefixOf(q, a) <==> q[0] == a[0] && PrefixOf(q[1..], a[1..])
  {
    assert q == [q[0]] + q[1..] && a == [a[0]] + a[1..];
  }

  /** A string is determined by its prefixes. */
  lemma SamePrefixes(a: seq<int>, b: seq<int>)
    requires forall q :: PrefixOf(q, a) <==> PrefixOf(q, b)
    ensures a == b
  {
    assert PrefixOf(a, a) && PrefixOf(b, b);
  }

  lemma CommonPrefixLaws(a: seq<int>, b: seq<int>, c: seq<int>)
    ensures CommonPrefix(a, b) == CommonPrefix(b, a)
    ensures CommonPrefix(CommonPrefix(a, b), c) == CommonPrefix(a, CommonPrefix(b, c))
  {
    forall q
      ensures PrefixOf(q, CommonPrefix(a, b)) <==> PrefixOf(q, CommonPrefix(b, a))
      ensures PrefixOf(q, CommonPrefix(CommonPrefix(a, b), c)) <==> PrefixOf(q, CommonPrefix(a, CommonPrefix(b, c)))
    {
      CommonPrefixLongest(a, b, q);
      CommonPrefixLongest(b, a, q);
      CommonPrefixLongest(b, c, q);
      CommonPrefixLongest(CommonPrefix(a, b), c, q);
      CommonPrefixLongest(a, CommonPrefix(b, c), q);
    }
    SamePrefixes(CommonPrefix(a, b), CommonPrefix(b, a));
    SamePrefixes(CommonPrefix(CommonPrefix(a, b), c), CommonPrefix(a, CommonPrefix(b, c)));
  }

  lemma {:induction false} CommonPrefixConcat(a: seq<int>, b: seq<int>, c: seq<int>)
    ensures CommonPrefix(a + b, a + c) == a + CommonPrefix(b, c)
  {
    if a == [] {
      assert a + b == b;
      assert a + c == c;
    } else {
      var rest := a[1..];
      CommonPrefixConcat(rest, b, c);
      ConsRest(a);
      CommonPrefixCons(a[0], rest + b, rest + c);
      ConcatCons(a[0], rest, b);
      ConcatCons(a[0], rest, c);
      ConcatCons(a[0], rest, CommonPrefix(b, c));
    }
  }

  lemma CommonPrefixCons(l: int, b: seq<int>, c: seq<int>)
    ensures CommonPrefix([l] + b, [l] + c) == [l] + CommonPrefix(b, c)
  {
    DropFirst(l, b);
    DropFirst(l, c);
  }

  lemma ConcatCons(l: int, a: seq<int>, b: seq<int>)
    ensures ([l] + a) + b == [l] + (a + b)
  {
  }

  lemma StringPlusLaws(a: StringWeight, b: StringWeight, c: StringWeight)
    ensures StringPlus(StringPlus(a, b), c) == StringPlus(a, StringPlus(b, c)) && StringPlus(a, b) == StringPlus(b, a)
  {
    if a.Letters? && b.Letters? {
      CommonPrefixLaws(a.labels, b.labels, if c.Letters? then c.labels else []);
    }
  }

  lemma StringTimesLaws(a: StringWeight, b: StringWeight, c: StringWeight)
    ensures StringTimes(StringTimes(a, b), c) == StringTimes(a, StringTimes(b, c))
    ensures StringTimes(Letters([]), a) == a == StringTimes(a, Letters([]))
  {
    if a.Letters? {
      assert [] + a.labels == a.labels && a.labels + [] == a.labels;
      if b.Letters? && c.Letters? {
        assert a.labels + b.labels + c.labels == a.labels + (b.labels + c.labels);
      }
    }
  }

  lemma StringDistributes(a: StringWeight, b: StringWeight, c: StringWeight)
    ensures StringTimes(a, StringPlus(b, c)) == StringPlus(StringTimes(a, b), StringTimes(a, c))
  {
    if a.Letters? && b.Letters? && c.Letters? {
      CommonPrefixConcat(a.labels, b.labels, c.labels);
    }
  }

  lemma StringsAreLeftSemiring()
    ensures LeftSemiring(STRINGS)
  {
    forall a, b, c {:trigger At3(a, b, c)}
      ensures STRINGS.Plus(STRINGS.Plus(a, b), c) == STRINGS.Plus(a, STRINGS.Plus(b, c))
      ensures STRINGS.Times(STRINGS.Times(a, b), c) == STRINGS.Times(a, STRINGS.Times(b, c))
      ensures STRINGS.Times(a, STRINGS.Plus(b, c)) == STRINGS.Plus(STRINGS.Times(a, b), STRINGS.Times(a, c))
    {
      StringPlusLaws(a, b, c);
      StringTimesLaws(a, b, c);
      StringDistributes(a, b, c);
    }
    forall a, b {:trigger At2(a, b)} ensures STRINGS.Plus(a, b) == STRINGS.Plus(b, a) {
      StringPlusLaws(a, b, a);
    }
    forall a {:trigger At1(a)} ensures STRINGS.Times(STRINGS.One, a) == a == STRINGS.Times(a, STRINGS.One) {
      StringTimesLaws(a, a, a);
    }
  }

  /** LabelCommonDivisor: a single common first letter, or nothing. */
  function LabelCommonDivisor(a: StringWeight, b: StringWeight): StringWeight {
    if Size(a) == 0 || Size(b) == 0 then Letters([])
    else if a.StringZero? then (if b.StringZero? then b else Letters([b.labels[0]]))
    else if b.StringZero? then Letters([a.labels[0]])
    else if a.labels[0] == b.labels[0] then Letters([a.labels[0]])
    else Letters([])
  }

  /** It divides both arguments from the left, and has at most one letter. */
  lemma LabelCommonDivisorDivides(a: StringWeight, b: StringWeight)
    ensures Divides(STRINGS, LabelCommonDivisor(a, b), a) && Divides(STRINGS, LabelCommonDivisor(a, b), b)
    ensures Size(LabelCommonDivisor(a, b)) <= 1
  {
    var d := LabelCommonDivisor(a, b);
    forall w | w == a || w == b ensures Divides(STRINGS, d, w) {
      if w.StringZero? {
        assert STRINGS.Times(d, StringZero) == w;
      } else if d == Letters([]) {
        assert [] + w.labels == w.labels;
        assert STRINGS.Times(d, w) == w;
      } else {
        assert [w.labels[0]] + w.labels[1..] == w.labels;
        assert STRINGS.Times(d, Letters(w.labels[1..])) == w;
      }
    }
  }

  /** It is the greatest such divisor: a common left factor of at most one letter is a left factor of it. */
  lemma LabelCommonDivisorGreatest(a: StringWeight, b: StringWeight, d: StringWeight)
    requires d.Letters? && |d.labels| <= 1 && Divides(STRINGS, d, a) && Divides(STRINGS, d, b)
    ensures Divides(STRINGS, d, LabelCommonDivisor(a, b))
  {
    var c := LabelCommonDivisor(a, b);
    var x :| STRINGS.Times(d, x) == a;
    var y :| STRINGS.Times(d, y) == b;
    if d.labels == [] {
      StringTimesLaws(d, c, c);
      assert STRINGS.Times(d, c) == c;
    } else {
      assert x.Letters? ==> a.labels[0] == d.labels[0];
      assert y.Letters? ==> b.labels[0] == d.labels[0];
      if c.StringZero? {
        assert STRINGS.Times(d, StringZero) == c;
      } else {
        assert d.labels + [] == [d.labels[0]];
        assert STRINGS.Times(d, Letters([])) == c;
      }
    }
  }

  function StringDivide(a: StringWeight, d: StringWeight): StringWeight {
    if a.StringZero? || d.StringZero? then StringZero
    else if |d.labels| <= |a.labels| then Letters(a.labels[|d.labels|..]) else Letters([])
  }

  // What determinization divides strings by.
  const STRING_DIVISION := Division(LabelCommonDivisor, StringDivide)

  lemma StringDivideExact(a: StringWeight, d: StringWeight)
    requires d != StringZero && Divides(STRINGS, d, a)
    ensures StringTimes(d, StringDivide(a, d)) == a
  {
    var x :| STRINGS.Times(d, x) == a;
    if x.Letters? {
      assert (d.labels + x.labels)[|d.labels|..] == x.labels;
    }
  }

  lemma StringsAreLeftDivisible()
    ensures LeftDivisible(STRINGS, STRING_DIVISION) && Idempotent(STRINGS)
  {
    StringsAreLeftSemiring();
    forall a, b {:trigger At2(a, b)}
      ensures Divides(STRINGS, LabelCommonDivisor(a, b), a) && Divides(STRINGS, LabelCommonDivisor(a, b), b)
      ensures b != StringZero && Divides(STRINGS, b, a) ==> StringTimes(b, StringDivide(a, b)) == a
    {
      LabelCommonDivisorDivides(a, b);
      if b != StringZero && Divides(STRINGS, b, a) {
        StringDivideExact(a, b);
      }
    }
    forall a {:trigger At1(a)} ensures STRINGS.Plus(a, a) == a {
      if a.Letters? {
        CommonPrefixSame(a.labels);
      }
    }
  }

  lemma {:induction false} CommonPrefixSame(a: seq<int>)
    ensures CommonPrefix(a, a) == a
  {
    if a != [] {
      CommonPrefixSame(a[1..]);
    }
  }

  lemma {:induction false} StringDivisorIsSmall(S: Subset<StringWeight>)
    ensures Size(DivisorFold(STRINGS, STRING_DIVISION, S)) <= 1
  {
    if S != [] {
      StringDivisorIsSmall(S[..|S| - 1]);
      LabelCommonDivisorDivides(DivisorFold(STRINGS, STRING_DIVISION, S[..|S| - 1]), S[|S| - 1].weight);
    }
  }

  /** Strings do not distribute from the right, but where duplicates of a state have equal strings, as in a
      functional transducer, an arc keeps the value of its list, and has at most one letter. */
  lemma StringArcKeepsValue(n: nat, S: Subset<StringWeight>)
    requires InSubset(S, n) && DuplicatesEqual(S) && SomeNonZero(STRINGS, S)
    ensures var arc := NormArcOf(STRINGS, STRING_DIVISION, S);
      Scaled(STRINGS, n, S, arc.weight, arc.dest) && arc.weight != StringZero && Size(arc.weight) <= 1
  {
    StringsAreLeftDivisible();
    NormArcKeepsValue(STRINGS, STRING_DIVISION, n, S);
    StringDivisorIsSmall(SortFold(S));
  }

  lemma StringsCancel()
    ensures Cancellable(STRINGS, STRING_DIVISION) && RightCancellative(STRINGS)
  {
    StringsAreLeftDivisible();
    forall a, b, d {:trigger At3(a, b, d)} | a != StringZero && StringTimes(a, b) == StringTimes(a, d) ensures b == d {
      if b.Letters? && d.Letters? {
        assert (a.labels + b.labels)[|a.labels|..] == b.labels && (a.labels + d.labels)[|a.labels|..] == d.labels;
      }
    }
    forall a, b, d {:trigger At3(a, b, d)} | d != StringZero && StringTimes(a, d) == StringTimes(b, d) ensures a == b {
      if a.Letters? && b.Letters? {
        assert |a.labels| == |b.labels|;
        assert (a.labels + d.labels)[..|a.labels|] == a.labels && (b.labels + d.labels)[..|b.labels|] == b.labels;
      }
    }
  }

  /** Left strings: for trimmed input whose accepting paths with one label string have one output string, whatever calls
      were made, the states expanded so far are those of a determinized automaton, so that weights are preserved. */
  lemma FunctionalIsDeterminized(d: DeterminizeFsa<StringWeight>)
    requires d.Valid() && d.k == STRINGS && d.v == STRING_DIVISION
    requires Functional(STRINGS, d.fst) && Completed(STRINGS, d.fst) && ZeroFree(STRINGS, d.fst)
    ensures LeftSemiring(STRINGS) && Determinized(STRINGS, d.fst, d.table, d.cache)
  {
    StringsCancel();
    FunctionalByState(STRINGS, d.fst);
    FunctionalStatesAreRight(d);
  }

  /** One arc of weight Zero. */
  function ZeroArcFst<W>(k: Semiring<W>): (f: Fst<W>)
    ensures Fsts.Valid(f)
  {
    Fst(0, [State(k.Zero, [Arc(1, 1, k.Zero, 1)]), State(k.One, [])])
  }

  /** Its label is read through that arc only, and the list gathered for it has the divisor Zero. */
  lemma ZeroListExample()
    ensures LeftSemiring(TROPICAL) && !ZeroFree(TROPICAL, ZeroArcFst(TROPICAL))
    ensures var S := GatheredAt(TROPICAL, TROPICAL_DIVISION, ZeroArcFst(TROPICAL), [], 1);
      S == [Element(1, TROPICAL.Zero)] && DivisorFold(TROPICAL, TROPICAL_DIVISION, SortFold(S)) == TROPICAL.Zero
  {
    TropicalIsDivisible();
    var f := ZeroArcFst(TROPICAL);
    var start, arcs := [Element(0, TROPICAL.One)], f.states[0].arcs;
    assert start[..0] == [] && arcs[..0] == [];
    assert GatherArcs(TROPICAL, TROPICAL.One, arcs, 1) == [Element(1, TROPICAL.Zero)];
    assert Gather(TROPICAL, f, start, 1) == [Element(1, TROPICAL.Zero)];
    var S := GatheredAt(TROPICAL, TROPICAL_DIVISION, f, [], 1);
    assert S[..0] == [];
    assert SortFold(S) == S;
    assert !ListOkAt(TROPICAL, TROPICAL_DIVISION, f, [], 1);
    NoZeroListsIff(TROPICAL, TROPICAL_DIVISION, f);
  }

  // ---- Which weights determinization keeps

  /** Two arcs with one label into one final state. */
  function Fork<W>(k: Semiring<W>, a: W, b: W, final: W): (f: Fst<W>)
    ensures Fsts.Valid(f)
  {
    Fst(0, [State(k.Zero, [Arc(1, 1, a, 1), Arc(1, 1, b, 1)]), State(final, [])])
  }

  /** What the input gives the string of that label: the sum over its paths. */
  ghost function ForkSum<W>(k: Semiring<W>, a: W, b: W, final: W): W {
    var f := Fork(k, a, b, final);
    ListedArePaths(f, 0, [1], 2);
    SumPaths(k, f, 0, PathsFrom(f, 0, [1], 2))
  }

  lemma ForkSumIs<W(!new)>(k: Semiring<W>, a: W, b: W, c: W)
    requires LeftSemiring(k)
    ensures ForkSum(k, a, b, c) == k.Plus(k.Times(a, c), k.Times(b, c))
  {
    var f := Fork(k, a, b, c);
    var V, arcs := Values(k, f, []), f.states[0].arcs;
    ValuesSumPaths(k, f, 0, [1], 2);
    assert [1][1..] == [];
    assert arcs[..1] == [Arc(1, 1, a, 1)] && arcs[..1][..0] == [] && arcs[..2] == arcs;
    assert ArcSum(k, arcs[..1], 1, V) == k.Plus(k.Times(a, c), k.Zero);
    assert ArcSum(k, arcs, 1, V) == k.Plus(k.Times(b, c), ArcSum(k, arcs[..1], 1, V));
    PlusZero(k, k.Times(a, c));
    PlusCommutes(k, k.Times(a, c), k.Times(b, c));
  }

  /** What is gathered from the start subset for the label. */
  lemma ForkGather<W(!new)>(k: Semiring<W>, a: W, b: W, c: W, l: int)
    requires MultiplicativeLaws(k)
    ensures Gather(k, Fork(k, a, b, c), [Element(0, k.One)], l) == if l == 1 then [Element(1, b), Element(1, a)] else []
  {
    var f, S := Fork(k, a, b, c), [Element(0, k.One)];
    var arcs := f.states[0].arcs;
    TimesOne(k, a);
    TimesOne(k, b);
    assert S[..0] == [] && arcs[..1] == [Arc(1, 1, a, 1)] && arcs[..1][..0] == [];
    assert GatherArcs(k, k.One, arcs[..1], l) == if l == 1 then [Element(1, a)] else [];
    assert GatherArcs(k, k.One, arcs, l) == if l == 1 then [Element(1, b), Element(1, a)] else [];
    assert Gather(k, f, S[..0], l) == [];
  }

  lemma ForkNormArc<W(!new)>(k: Semiring<W>, v: Division<W>, a: W, b: W)
    ensures var d := v.Common(v.Common(k.Zero, b), a);
      NormArcOf(k, v, [Element(1, b), Element(1, a)]) == DetArc(d, [Element(1, v.Divide(k.Plus(b, a), d))])
  {
    var S: Subset<W> := [Element(1, b), Element(1, a)];
    assert S[..1] == [Element(1, b)] && S[..1][..0] == [];
    assert SortFold(S[..1]) == [Element(1, b)];
    assert SortFold(S) == S;
    assert MergeFold(k, S[..1]) == [Element(1, b)];
    assert MergeFold(k, S) == [Element(1, k.Plus(b, a))];
    assert DivisorFold(k, v, S[..1]) == v.Common(k.Zero, b);
  }

  /** What the determinized automaton gives the string: the arc of its start state and the final weight behind. */
  ghost function ForkDeterminized<W(!new)>(k: Semiring<W>, v: Division<W>, a: W, b: W, c: W): W
    requires LeftSemiring(k)
  {
    var f := Fork(k, a, b, c);
    ForkGather(k, a, b, c, 1);
    var S := Gather(k, f, [Element(0, k.One)], 1);
    NormArcShape(k, v, 2, S);
    var arc := NormArcOf(k, v, S);
    k.Times(arc.weight, DetFinal(k, f, arc.dest))
  }

  lemma ForkDeterminizedIs<W(!new)>(k: Semiring<W>, v: Division<W>, a: W, b: W, c: W)
    requires LeftDivisible(k, v) && (a != k.Zero || b != k.Zero)
    ensures ForkDeterminized(k, v, a, b, c) == k.Times(k.Plus(a, b), c)
  {
    var f := Fork(k, a, b, c);
    var S, d := [Element(1, b), Element(1, a)], v.Common(v.Common(k.Zero, b), a);
    ForkGather(k, a, b, c, 1);
    ForkNormArc(k, v, a, b);
    CommonDivides(k, v, k.Zero, b, []);
    CommonDivides(k, v, v.Common(k.Zero, b), a, [Element(1, b)]);
    assert Divides(k, d, [Element(1, b)][0].weight);
    assert S[0].weight == b && S[1].weight == a;
    DivisorNonZero(k, d, S);
    DividesSum(k, d, b, a);
    var x := v.Divide(k.Plus(b, a), d);
    assert At2(k.Plus(b, a), d);
    EvalOne(k, Element(1, x), Values(k, f, []));
    TimesAssociates(k, d, x, c);
    PlusCommutes(k, a, b);
  }

  /** Weights that can be divided are determinized rightly only if Times distributes over Plus from the right, which
      is what the library calls a right semiring and does not ask for: exactly then the determinized fork of any two
      weights, not both Zero, gives the string the sum over its paths. That it is enough for every input is
      DeterminizePreservesWeight. */
  lemma ForksKeptIffRightSums<W(!new)>(k: Semiring<W>, v: Division<W>)
    requires LeftDivisible(k, v)
    ensures RightSums(k) <==>
      (forall a, b, c :: a != k.Zero || b != k.Zero ==> ForkDeterminized(k, v, a, b, c) == ForkSum(k, a, b, c))
  {
    forall a, b, c {:trigger At3(a, b, c)}
      ensures ForkSum(k, a, b, c) == k.Plus(k.Times(a, c), k.Times(b, c))
      ensures a != k.Zero || b != k.Zero ==> ForkDeterminized(k, v, a, b, c) == k.Times(k.Plus(a, b), c)
      ensures k.Times(k.Plus(k.Zero, k.Zero), c) == k.Plus(k.Times(k.Zero, c), k.Times(k.Zero, c))
    {
      ForkSumIs(k, a, b, c);
      if a != k.Zero || b != k.Zero {
        ForkDeterminizedIs(k, v, a, b, c);
      }
      assert At1(c);
      PlusZero(k, k.Zero);
    }
    if RightSums(k) {
      forall a, b, c | a != k.Zero || b != k.Zero ensures ForkDeterminized(k, v, a, b, c) == ForkSum(k, a, b, c) {
        assert At3(a, b, c);
      }
    }
    if forall a, b, c :: a != k.Zero || b != k.Zero ==> ForkDeterminized(k, v, a, b, c) == ForkSum(k, a, b, c) {
      forall a, b, c {:trigger At3(a, b, c)} ensures k.Times(k.Plus(a, b), c) == k.Plus(k.Times(a, c), k.Times(b, c)) {
        assert At3(a, b, c);
      }
    }
  }

  /** Determinizes the fork and follows the string. */
  method DeterminizeFork<W(==, !new)>(k: Semiring<W>, v: Division<W>, a: W, b: W, c: W) returns (w: W)
    requires LeftDivisible(k, v)
    ensures w == ForkDeterminized(k, v, a, b, c)
  {
    var d := new DeterminizeFsa(k, v, Fork(k, a, b, c), None);
    var s := d.ComputeStart();
    d.Expand(s);
    assert 1 in LeavingLabels(k, d.fst, d.table[s]) by {
      ForkGather(k, a, b, c, 1);
    }
    assert d.cache[s][0].ilabel == 1 by {
      var i :| 0 <= i < |d.cache[s]| && d.cache[s][i].ilabel == 1;
      ForkGather(k, a, b, c, d.cache[s][0].ilabel);
      assert d.cache[s][0].ilabel in LeavingLabels(k, d.fst, d.table[s]);
    }
    assert NormalArc(k, v, d.fst, d.table, d.table[s], d.cache[s][0]);
    var final := d.ComputeFinal(d.cache[s][0].nextstate);
    w := k.Times(d.cache[s][0].weight, final);
  }

  lemma PrefixesOfExample()
    ensures StringPlus(Letters([1]), Letters([1, 2])) == Letters([1])
    ensures StringTimes(Letters([1]), Letters([2, 3])) == Letters([1, 2, 3])
    ensures StringPlus(StringTimes(Letters([1]), Letters([2, 3])), StringTimes(Letters([1, 2]), Letters([2, 3])))
         == Letters([1, 2])
  {
    CommonPrefixConcat([1], [], [2]);
    assert [1] + [] == [1] && [1] + [2] == [1, 2];
    CommonPrefixConcat([1, 2], [3], [2, 3]);
    assert [1] + [2, 3] == [1, 2] + [3] == [1, 2, 3];
  }

  /** Left string weights, which the library accepts: with the strings "1" and "1 2" on the arcs and the final string
      "2 3", the determinized automaton gives the label "1 2 3", and the input gives it "1 2". */
  lemma LeftSemiringIsNotEnough()
    ensures LeftDivisible(STRINGS, STRING_DIVISION) && !RightSums(STRINGS)
    ensures var a, b, c := Letters([1]), Letters([1, 2]), Letters([2, 3]);
      && ForkDeterminized(STRINGS, STRING_DIVISION, a, b, c) == Letters([1, 2, 3])
      && ForkSum(STRINGS, a, b, c) == Letters([1, 2])
  {
    StringsAreLeftDivisible();
    var a, b, c := Letters([1]), Letters([1, 2]), Letters([2, 3]);
    ForkDeterminizedIs(STRINGS, STRING_DIVISION, a, b, c);
    ForkSumIs(STRINGS, a, b, c);
    PrefixesOfExample();
    ForksKeptIffRightSums(STRINGS, STRING_DIVISION);
  }
}
