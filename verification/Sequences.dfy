/** Facts about sequences and sets that proofs name instead of rediscovering. */
module Sequences {

  lemma TakeNext<T>(s: seq<T>, i: nat)
    requires i < |s|
    ensures s[..i + 1] == s[..i] + [s[i]] && s[..i + 1][..i] == s[..i]
  {
  }

  lemma TakeAll<T>(s: seq<T>)
    ensures s[..|s|] == s
  {
  }

  lemma ConsConcat<T>(a: T, s: seq<T>, b: T, t: seq<T>)
    ensures [a] + (s + [b] + t) == [a] + s + [b] + t
  {
  }

  lemma DropFirst<T>(a: T, s: seq<T>)
    ensures ([a] + s)[1..] == s
  {
  }

  lemma ConsRest<T>(s: seq<T>)
    requires s != []
    ensures [s[0]] + s[1..] == s
  {
  }

  lemma DropLast<T>(s: seq<T>, b: T)
    ensures (s + [b])[..|s|] == s
  {
  }

  function InsertAt<T>(s: seq<T>, n: nat, a: T): (r: seq<T>)
    requires n <= |s|
    ensures |r| == |s| + 1
    ensures forall j :: 0 <= j <= |s| ==> r[j] == if j < n then s[j] else if j == n then a else s[j - 1]
  {
    s[..n] + [a] + s[n..]
  }

  lemma InsertedElements<T>(s: seq<T>, n: nat, a: T)
    requires n <= |s|
    ensures forall b :: b in InsertAt(s, n, a) <==> b in s || b == a
    ensures multiset(InsertAt(s, n, a)) == multiset(s) + multiset{a}
  {
    assert s == s[..n] + s[n..];
    assert forall b :: b in s <==> b in s[..n] || b in s[n..];
  }

  ghost predicate Distinct<T>(s: seq<T>) {
    forall i, j :: 0 <= i < j < |s| ==> s[i] != s[j]
  }

  lemma HasElement<T>(s: set<T>) returns (x: T)
    requires s != {}
    ensures x in s
  {
    x :| x in s;
  }

  /** There are at most n different numbers below n. */
  lemma {:induction false} DistinctBounded(s: seq<nat>, n: nat)
    requires Distinct(s) && forall i :: 0 <= i < |s| ==> s[i] < n
    ensures |s| <= n
    decreases n
  {
    if s != [] {
      assert s[0] < n;
      if i :| 0 <= i < |s| && s[i] == n - 1 {
        DistinctBounded(s[..i] + s[i + 1..], n - 1);
      } else {
        DistinctBounded(s, n - 1);
      }
    }
  }
}
