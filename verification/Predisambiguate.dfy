/** What the predisambiguation makes, a determinization by common futures, and what disambiguation makes of that.
    Labels are compared as they are, so the input is to have no epsilons. */
module Predisambiguates {
  import opened Semirings
  import opened Fsts
  import opened VectorFsts
  import opened Disambiguate
  import opened Disambiguators

  // ---- Common futures

  ghost predicate AcceptsOn<W>(k: Semiring<W>, g: Fst<W>, s: nat, w: seq<int>)
    requires Valid(g)
  {
    s < |g.states| && exists p :: Accepting(k, g, s, p) && ILabels(g, s, p) == w
  }

  /** Some string is accepted from both states. */
  ghost predicate CommonFuture<W>(k: Semiring<W>, g: Fst<W>, r: nat, q: nat)
    requires Valid(g)
  {
    exists w :: AcceptsOn(k, g, r, w) && AcceptsOn(k, g, q, w)
  }

  /** Some arc of r has the label and leads to d. */
  ghost predicate HasArc<W>(g: Fst<W>, r: nat, l: int, d: nat) {
    exists i :: ArcLeads(g, r, i, l, d)
  }

  ghost predicate ArcLeads<W>(g: Fst<W>, r: nat, i: nat, l: int, d: nat) {
    && r < |g.states| && i < |g.states[r].arcs|
    && g.states[r].arcs[i].ilabel == l && g.states[r].arcs[i].nextstate == d
  }

  lemma AcceptsAlong<W>(k: Semiring<W>, g: Fst<W>, r: nat, l: int, d: nat, w: seq<int>)
    requires Valid(g) && HasArc(g, r, l, d) && AcceptsOn(k, g, d, w)
    ensures AcceptsOn(k, g, r, [l] + w)
  {
    var i: nat :| ArcLeads(g, r, i, l, d);
    var p :| Accepting(k, g, d, p) && ILabels(g, d, p) == w;
    Prepend(k, g, r, i, p);
  }

  /** The relation goes back along arcs with one label. */
  lemma FutureBack<W>(k: Semiring<W>, g: Fst<W>, r: nat, q: nat, l: int, r': nat, d: nat)
    requires Valid(g) && HasArc(g, r, l, r') && HasArc(g, q, l, d) && CommonFuture(k, g, r', d)
    ensures CommonFuture(k, g, r, q)
  {
    var w :| AcceptsOn(k, g, r', w) && AcceptsOn(k, g, d, w);
    AcceptsAlong(k, g, r, l, r', w);
    AcceptsAlong(k, g, q, l, d, w);
  }

  // ---- The predisambiguated transducer

  /** The states that arcs with the label lead to from S and that have a common future with d. */
  ghost predicate FilteredTo<W>(k: Semiring<W>, g: Fst<W>, S: set<nat>, l: int, d: nat, T: set<nat>)
    requires Valid(g)
  {
    forall r :: r in T <==> (exists r0 :: r0 in S && HasArc(g, r0, l, r)) && CommonFuture(k, g, r, d)
  }

  /** A state stands for a head and a set of states of g. Its arcs come from the arcs of its head, one for each label
      and destination, whose state is the head of the arc's destination; the set there holds the states that the label
      leads to and that have a common future with the head. */
  ghost predicate Predisambiguated<W>(k: Semiring<W>, g: Fst<W>, f: Fst<W>, head: seq<int>, sets: seq<set<nat>>) {
    && Valid(g) && Valid(f) && |head| == |sets| == |f.states| && HeadsApart(f, head)
    && (forall s :: 0 <= s < |head| ==> 0 <= head[s] < |g.states|)
    && (forall q :: 0 <= q < |g.states| ==> CommonFuture(k, g, q, q))
    && 0 <= g.start && 0 <= f.start && head[f.start] == g.start && sets[f.start] == {g.start}
    && (forall s :: 0 <= s < |f.states| ==> (f.states[s].final != k.Zero <==> g.states[head[s]].final != k.Zero))
    && (forall s: nat, l, t: nat {:trigger HasArc(f, s, l, t)} ::
         HasArc(f, s, l, t) ==> ArcMade(k, g, head, sets, s, l, t))
    && (forall s: nat, l, d: nat {:trigger HasArcTo(f, head, s, l, d)} ::
         s < |head| && HasArc(g, head[s], l, d) ==> HasArcTo(f, head, s, l, d))
    && (forall s, t :: 0 <= s < |head| && 0 <= t < |head| && head[s] == head[t] && sets[s] == sets[t] ==> s == t)
  }

  /** What an arc with the label from s to t is made of. */
  ghost predicate ArcMade<W>(
    k: Semiring<W>, g: Fst<W>, head: seq<int>, sets: seq<set<nat>>, s: nat, l: int, t: nat
  )
    requires Valid(g) && |head| == |sets| && forall r :: 0 <= r < |head| ==> 0 <= head[r] < |g.states|
  {
    && s < |head| && t < |head| && HasArc(g, head[s], l, head[t])
    && FilteredTo(k, g, sets[s], l, head[t], sets[t])
  }

  /** Some arc of s has the label and leads to a state with the head. */
  ghost predicate HasArcTo<W>(f: Fst<W>, head: seq<int>, s: nat, l: int, d: nat) {
    exists t: nat :: t < |head| && head[t] == d && HasArc(f, s, l, t)
  }

  // ---- What a string leads to

  ghost predicate Reached<W>(g: Fst<W>, y: seq<int>, r: nat)
    requires Valid(g) && 0 <= g.start
  {
    exists p :: ReadsTo(g, y, p, r)
  }

  lemma ReachedNext<W>(g: Fst<W>, y: seq<int>, l: int, r: nat, d: nat)
    requires Valid(g) && 0 <= g.start && Reached(g, y, r) && HasArc(g, r, l, d)
    ensures Reached(g, y + [l], d)
  {
    var p :| ReadsTo(g, y, p, r);
    var i: nat :| ArcLeads(g, r, i, l, d);
    ReadsNext(g, y, l, p, r, i);
  }

  lemma ReachedLast<W>(g: Fst<W>, y: seq<int>, l: int, d: nat) returns (r: nat)
    requires Valid(g) && 0 <= g.start && Reached(g, y + [l], d)
    ensures Reached(g, y, r) && HasArc(g, r, l, d)
  {
    var p :| ReadsTo(g, y + [l], p, d);
    r := ReadsLast(g, y, l, p, d);
    assert ArcLeads(g, r, p[|p| - 1], l, d);
  }

  /** The set of a state that a string leads to: the states the string leads to with a common future with the head. */
  ghost predicate SetIs<W>(k: Semiring<W>, g: Fst<W>, y: seq<int>, q: nat, S: set<nat>)
    requires Valid(g) && 0 <= g.start
  {
    Reached(g, y, q) && forall r :: r in S <==> Reached(g, y, r) && CommonFuture(k, g, r, q)
  }

  lemma SetIsNext<W>(k: Semiring<W>, g: Fst<W>, y: seq<int>, l: int, q: nat, S: set<nat>, d: nat, T: set<nat>)
    requires Valid(g) && 0 <= g.start && SetIs(k, g, y, q, S) && HasArc(g, q, l, d) && FilteredTo(k, g, S, l, d, T)
    ensures SetIs(k, g, y + [l], d, T)
  {
    ReachedNext(g, y, l, q, d);
    forall r ensures r in T <==> Reached(g, y + [l], r) && CommonFuture(k, g, r, d) {
      if r in T {
        var r0 :| r0 in S && HasArc(g, r0, l, r);
        ReachedNext(g, y, l, r0, r);
      }
      if Reached(g, y + [l], r) && CommonFuture(k, g, r, d) {
        var r0 := ReachedLast(g, y, l, r);
        FutureBack(k, g, r0, q, l, r, d);
        assert r0 in S;
      }
    }
  }

  lemma {:induction false} SetsAre<W>(
    k: Semiring<W>, g: Fst<W>, f: Fst<W>, head: seq<int>, sets: seq<set<nat>>, y: seq<int>, s: nat
  )
    requires Predisambiguated(k, g, f, head, sets) && Reached(f, y, s)
    ensures s < |head| && SetIs(k, g, y, head[s], sets[s])
    decreases |y|
  {
    if y == [] {
      assert ReadsTo(g, [], [], g.start);
    } else {
      var init, l := y[..|y| - 1], y[|y| - 1];
      assert y == init + [l];
      var r := ReachedLast(f, init, l, s);
      SetsAre(k, g, f, head, sets, init, r);
      assert ArcMade(k, g, head, sets, r, l, s);
      SetIsNext(k, g, init, l, head[r], sets[r], head[s], sets[s]);
    }
  }

  /** A string leads to at most one state with a head. */
  lemma SameState<W>(
    k: Semiring<W>, g: Fst<W>, f: Fst<W>, head: seq<int>, sets: seq<set<nat>>, y: seq<int>, s: nat, t: nat
  )
    requires Predisambiguated(k, g, f, head, sets) && Reached(f, y, s) && Reached(f, y, t)
    requires s < |head| && t < |head| && head[s] == head[t]
    ensures s == t
  {
    SetsAre(k, g, f, head, sets, y, s);
    SetsAre(k, g, f, head, sets, y, t);
    assert sets[s] == sets[t];
  }

  /** Every state of g that a string leads to is the head of one that it leads to. */
  lemma {:induction false} HeadReached<W>(
    k: Semiring<W>, g: Fst<W>, f: Fst<W>, head: seq<int>, sets: seq<set<nat>>, y: seq<int>, q: nat
  ) returns (s: nat)
    requires Predisambiguated(k, g, f, head, sets) && Reached(g, y, q)
    ensures Reached(f, y, s) && s < |head| && head[s] == q
    decreases |y|
  {
    if y == [] {
      s := f.start;
      assert ReadsTo(f, [], [], s);
    } else {
      var init, l := y[..|y| - 1], y[|y| - 1];
      assert y == init + [l];
      var r := ReachedLast(g, init, l, q);
      var t := HeadReached(k, g, f, head, sets, init, r);
      assert HasArcTo(f, head, t, l, q);
      s :| s < |head| && head[s] == q && HasArc(f, t, l, s);
      ReachedNext(f, init, l, t, s);
    }
  }

  // ---- What disambiguation needs

  /** No state is split. */
  lemma PreparedIsSplitFree<W>(k: Semiring<W>, g: Fst<W>, f: Fst<W>, head: seq<int>, sets: seq<set<nat>>)
    requires Predisambiguated(k, g, f, head, sets)
    ensures SplitFree(f, head)
  {
    forall s, t | Coreachable(f, s, t) ensures !SplitPair(head, (s, t)) {
      var p, q :| CoreachableBy(f, p, q, s, t);
      var y := ILabels(f, f.start, p);
      assert ReadsTo(f, y, p, s) && ReadsTo(f, y, q, t);
      if SplitPair(head, (s, t)) {
        SameState(k, g, f, head, sets, y, s, t);
      }
    }
  }

  /** The heads of a candidate have a common future. */
  lemma CandidateFuture<W>(
    k: Semiring<W>, g: Fst<W>, f: Fst<W>, head: seq<int>, sets: seq<set<nat>>, a: ArcId, b: ArcId
  )
    requires Predisambiguated(k, g, f, head, sets) && Alike(k, f, a, b)
    ensures CommonFuture(k, g, head[b.0], head[a.0])
  {
    if a.1 == SUPER_FINAL {
      assert Accepting(k, g, head[a.0], []) && Accepting(k, g, head[b.0], []);
      assert ILabels(g, head[a.0], []) == [] == ILabels(g, head[b.0], []);
      assert AcceptsOn(k, g, head[a.0], []) && AcceptsOn(k, g, head[b.0], []);
    } else {
      var x := f.states[a.0].arcs[a.1];
      assert ArcLeads(f, a.0, a.1, x.ilabel, x.nextstate) && ArcLeads(f, b.0, b.1, x.ilabel, x.nextstate);
      assert HasArc(f, a.0, x.ilabel, x.nextstate) && HasArc(f, b.0, x.ilabel, x.nextstate);
      assert ArcMade(k, g, head, sets, a.0, x.ilabel, x.nextstate);
      assert ArcMade(k, g, head, sets, b.0, x.ilabel, x.nextstate);
      FutureBack(k, g, head[b.0], head[a.0], x.ilabel, head[x.nextstate], head[x.nextstate]);
    }
  }

  /** Wherever a string leads to the state of a candidate, it leads to a state with the head of the partner's. */
  lemma PartnerReached<W>(
    k: Semiring<W>, g: Fst<W>, f: Fst<W>, head: seq<int>, sets: seq<set<nat>>, a: ArcId, b: ArcId, y: seq<int>
  ) returns (t: nat)
    requires Predisambiguated(k, g, f, head, sets) && IsCandidate(k, f, head, (a, b)) && Reached(f, y, a.0)
    ensures Reached(f, y, t) && t < |head| && head[t] == head[b.0]
  {
    var p, q :| CoreachableBy(f, p, q, a.0, b.0);
    var z := ILabels(f, f.start, p);
    assert ReadsTo(f, z, p, a.0) && ReadsTo(f, z, q, b.0);
    SetsAre(k, g, f, head, sets, z, a.0);
    SetsAre(k, g, f, head, sets, z, b.0);
    CandidateFuture(k, g, f, head, sets, a, b);
    SetsAre(k, g, f, head, sets, y, a.0);
    t := HeadReached(k, g, f, head, sets, y, head[b.0]);
  }

  /** And that state goes on like the candidate. */
  lemma PartnerFollows<W>(
    k: Semiring<W>, g: Fst<W>, f: Fst<W>, head: seq<int>, sets: seq<set<nat>>, a: ArcId, b: ArcId, y: seq<int>
  )
    requires Predisambiguated(k, g, f, head, sets) && IsCandidate(k, f, head, (a, b)) && Reached(f, y, a.0)
    ensures Follows(k, f, head, a, b, y)
  {
    var t := PartnerReached(k, g, f, head, sets, a, b, y);
    var p' :| ReadsTo(f, y, p', t);
    if a.1 == SUPER_FINAL {
      assert FollowedBy(k, f, head, a, b, y, (t, SUPER_FINAL), p');
    } else {
      var x := f.states[a.0].arcs[a.1];
      var l, d := x.ilabel, x.nextstate;
      assert ArcLeads(f, a.0, a.1, l, d) && ArcLeads(f, b.0, b.1, l, d);
      PartnerArc(k, g, f, head, sets, y, a.0, b.0, l, d, t);
      var i: nat :| ArcLeads(f, t, i, l, d);
      assert FollowedBy(k, f, head, a, b, y, (t, i), p');
    }
  }

  /** If b has an arc to d, so has every state with the head of b that is reached like another state with such an
      arc. */
  lemma PartnerArc<W>(
    k: Semiring<W>, g: Fst<W>, f: Fst<W>, head: seq<int>, sets: seq<set<nat>>, y: seq<int>, s: nat, b: nat, l: int,
    d: nat, t: nat
  )
    requires Predisambiguated(k, g, f, head, sets) && Reached(f, y, s) && Reached(f, y, t)
    requires HasArc(f, s, l, d) && HasArc(f, b, l, d) && b < |head| && t < |head| && head[t] == head[b]
    ensures HasArc(f, t, l, d)
  {
    assert ArcMade(k, g, head, sets, b, l, d);
    assert HasArcTo(f, head, t, l, head[d]);
    var u: nat :| u < |head| && head[u] == head[d] && HasArc(f, t, l, u);
    ReachedNext(f, y, l, t, u);
    ReachedNext(f, y, l, s, d);
    SameState(k, g, f, head, sets, y + [l], u, d);
  }

  lemma PreparedHeadsFollow<W>(k: Semiring<W>, g: Fst<W>, f: Fst<W>, head: seq<int>, sets: seq<set<nat>>)
    requires Predisambiguated(k, g, f, head, sets)
    ensures HeadsFollow(k, f, head)
  {
    forall a, b, y, p | IsCandidate(k, f, head, (a, b)) && ReadsTo(f, y, p, a.0) ensures Follows(k, f, head, a, b, y) {
      PartnerFollows(k, g, f, head, sets, a, b, y);
    }
  }

  /** The predisambiguation accepts what its input accepts. */
  lemma PreparedStrings<W>(k: Semiring<W>, g: Fst<W>, f: Fst<W>, head: seq<int>, sets: seq<set<nat>>)
    requires Predisambiguated(k, g, f, head, sets)
    ensures SameStrings(k, g, f)
  {
    forall x ensures AcceptsString(k, g, x) <==> AcceptsString(k, f, x) {
      if AcceptsString(k, g, x) {
        InputAccepts(k, g, f, head, sets, x);
      }
      if AcceptsString(k, f, x) {
        PreparedAccepts(k, g, f, head, sets, x);
      }
    }
  }

  lemma InputAccepts<W>(
    k: Semiring<W>, g: Fst<W>, f: Fst<W>, head: seq<int>, sets: seq<set<nat>>, x: seq<int>
  )
    requires Predisambiguated(k, g, f, head, sets) && AcceptsString(k, g, x)
    ensures AcceptsString(k, f, x)
  {
    var p :| Accepting(k, g, g.start, p) && ILabels(g, g.start, p) == x;
    var e := PathEnd(g, g.start, p);
    assert ReadsTo(g, x, p, e);
    var s := HeadReached(k, g, f, head, sets, x, e);
    var q :| ReadsTo(f, x, q, s);
    assert Accepting(k, f, f.start, q);
  }

  lemma PreparedAccepts<W>(
    k: Semiring<W>, g: Fst<W>, f: Fst<W>, head: seq<int>, sets: seq<set<nat>>, x: seq<int>
  )
    requires Predisambiguated(k, g, f, head, sets) && AcceptsString(k, f, x)
    ensures AcceptsString(k, g, x)
  {
    var p :| Accepting(k, f, f.start, p) && ILabels(f, f.start, p) == x;
    var e := PathEnd(f, f.start, p);
    assert ReadsTo(f, x, p, e);
    SetsAre(k, g, f, head, sets, x, e);
    var q :| ReadsTo(g, x, q, head[e]);
    assert Accepting(k, g, g.start, q);
  }

  /** Disambiguation of a predisambiguated transducer reports no error, and its result accepts exactly the strings of
      the original input, each along one path. */
  method DisambiguatePrepared<W(==, !new)>(
    k: Semiring<W>, ghost g: Fst<W>, ofst: VectorFst<W>, head: seq<int>, ghost sets: seq<set<nat>>
  ) returns (error: bool)
    requires Predisambiguated(k, g, ofst.Contents(), head, sets)
    modifies ofst
    ensures !error && Valid(ofst.Contents()) && Unambiguous(k, ofst.Contents()) && SameStrings(k, g, ofst.Contents())
  {
    ghost var prepared := ofst.Contents();
    PreparedIsSplitFree(k, g, prepared, head, sets);
    PreparedHeadsFollow(k, g, prepared, head, sets);
    PreparedStrings(k, g, prepared, head, sets);
    var d := new Disambiguator(head);
    ghost var f, marked := d.Disambiguate(k, ofst);
    error := d.error;
    forall x ensures AcceptsString(k, g, x) <==> AcceptsString(k, ofst.Contents(), x) {
      assert AcceptsString(k, g, x) <==> AcceptsString(k, prepared, x);
      assert AcceptsString(k, prepared, x) <==> AcceptsString(k, ofst.Contents(), x);
    }
  }
}
