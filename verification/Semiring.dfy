/** Weights: a semiring is a value, so every result about weights holds for all of them. */
module Semirings {

  datatype Semiring<!W> = Semiring(Zero: W, One: W, Plus: (W, W) -> W, Times: (W, W) -> W)

  // Each law is instantiated only where a lemma below names its arguments.
  ghost predicate At1<W>(a: W) { true }
  ghost predicate At2<W>(a: W, b: W) { true }
  ghost predicate At3<W>(a: W, b: W, c: W) { true }

  /** (W, Plus, Zero) is a commutative monoid. */
  ghost predicate AdditiveLaws<W(!new)>(k: Semiring<W>) {
    && (forall a {:trigger At1(a)} :: At1(a) ==> k.Plus(k.Zero, a) == a)
    && (forall a, b {:trigger At2(a, b)} :: At2(a, b) ==> k.Plus(a, b) == k.Plus(b, a))
    && (forall a, b, c {:trigger At3(a, b, c)} :: At3(a, b, c) ==> k.Plus(k.Plus(a, b), c) == k.Plus(a, k.Plus(b, c)))
  }

  /** (W, Times, One) is a monoid. */
  ghost predicate MultiplicativeLaws<W(!new)>(k: Semiring<W>) {
    && (forall a {:trigger At1(a)} :: At1(a) ==> (k.Times(k.One, a) == a && k.Times(a, k.One) == a))
    && (forall a, b, c {:trigger At3(a, b, c)} :: At3(a, b, c) ==>
      k.Times(k.Times(a, b), c) == k.Times(a, k.Times(b, c)))
  }

  /** What the library calls a left semiring: Times distributes over Plus from the left. */
  ghost predicate LeftDistributes<W(!new)>(k: Semiring<W>) {
    && (forall a {:trigger At1(a)} :: At1(a) ==> k.Times(a, k.Zero) == k.Zero)
    && (forall a, b, c {:trigger At3(a, b, c)} :: At3(a, b, c) ==>
      k.Times(a, k.Plus(b, c)) == k.Plus(k.Times(a, b), k.Times(a, c)))
  }

  ghost predicate RightZero<W(!new)>(k: Semiring<W>) {
    forall a {:trigger At1(a)} :: At1(a) ==> k.Times(k.Zero, a) == k.Zero
  }

  /** Times distributes over Plus from the right. */
  ghost predicate RightSums<W(!new)>(k: Semiring<W>) {
    forall a, b, c {:trigger At3(a, b, c)} :: At3(a, b, c) ==>
      k.Times(k.Plus(a, b), c) == k.Plus(k.Times(a, c), k.Times(b, c))
  }

  /** Adding a weight to itself changes nothing. */
  ghost predicate Idempotent<W(!new)>(k: Semiring<W>) {
    forall a {:trigger At1(a)} :: At1(a) ==> k.Plus(a, a) == a
  }

  ghost predicate LeftSemiring<W(!new)>(k: Semiring<W>) {
    AdditiveLaws(k) && MultiplicativeLaws(k) && LeftDistributes(k)
  }

  /** Times is commutative, as composition needs. */
  ghost predicate CommutativeTimes<W(!new)>(k: Semiring<W>) {
    && MultiplicativeLaws(k)
    && (forall a, b {:trigger At2(a, b)} :: At2(a, b) ==> k.Times(a, b) == k.Times(b, a))
  }

  /** No product of non-Zero weights is Zero. */
  ghost predicate NoZeroDivisors<W(!new)>(k: Semiring<W>) {
    forall a, b {:trigger At2(a, b)} :: At2(a, b) ==> (k.Times(a, b) == k.Zero ==> a == k.Zero || b == k.Zero)
  }

  lemma PlusZero<W(!new)>(k: Semiring<W>, a: W)
    requires AdditiveLaws(k)
    ensures k.Plus(k.Zero, a) == a && k.Plus(a, k.Zero) == a
  {
    assert At1(a);
    assert At2(a, k.Zero);
  }

  lemma PlusCommutes<W(!new)>(k: Semiring<W>, a: W, b: W)
    requires AdditiveLaws(k)
    ensures k.Plus(a, b) == k.Plus(b, a)
  {
    assert At2(a, b);
  }

  lemma PlusAssociates<W(!new)>(k: Semiring<W>, a: W, b: W, c: W)
    requires AdditiveLaws(k)
    ensures k.Plus(k.Plus(a, b), c) == k.Plus(a, k.Plus(b, c))
  {
    assert At3(a, b, c);
  }

  lemma PlusMiddle<W(!new)>(k: Semiring<W>, a: W, b: W, c: W, d: W)
    requires AdditiveLaws(k)
    ensures k.Plus(k.Plus(a, b), k.Plus(c, d)) == k.Plus(k.Plus(a, c), k.Plus(b, d))
  {
    assert At3(a, b, k.Plus(c, d)) && At3(b, c, d) && At2(b, c) && At3(c, b, d) && At3(a, c, k.Plus(b, d));
  }

  lemma TimesOne<W(!new)>(k: Semiring<W>, a: W)
    requires MultiplicativeLaws(k)
    ensures k.Times(k.One, a) == a && k.Times(a, k.One) == a
  {
    assert At1(a);
  }

  lemma TimesAssociates<W(!new)>(k: Semiring<W>, a: W, b: W, c: W)
    requires MultiplicativeLaws(k)
    ensures k.Times(k.Times(a, b), c) == k.Times(a, k.Times(b, c))
  {
    assert At3(a, b, c);
  }

  lemma TimesMiddle<W(!new)>(k: Semiring<W>, a: W, b: W, c: W, d: W)
    requires CommutativeTimes(k)
    ensures k.Times(k.Times(a, b), k.Times(c, d)) == k.Times(k.Times(a, c), k.Times(b, d))
  {
    assert At3(a, b, k.Times(c, d)) && At3(b, c, d) && At2(b, c) && At3(c, b, d) && At3(a, c, k.Times(b, d));
  }

  lemma DistributeLeft<W(!new)>(k: Semiring<W>, a: W, b: W, c: W)
    requires LeftDistributes(k)
    ensures k.Times(a, k.Zero) == k.Zero
    ensures k.Times(a, k.Plus(b, c)) == k.Plus(k.Times(a, b), k.Times(a, c))
  {
    assert At1(a) && At3(a, b, c);
  }
}
