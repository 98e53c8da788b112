/** The visitor that finds strongly connected components, accessible and coaccessible states in one
    depth-first visit. */
module CcVisitors {
  import opened Fsts
  import opened Graphs

  /** The visitor's vectors and counters. The property bits come in complementary pairs; one of each is kept. */
  datatype Scc = Scc(
    dfnumber: seq<int>,     // discovery times, -1 before discovery
    lowlink: seq<int>,
    onstack: seq<bool>,
    stack: seq<nat>,        // the SCC stack
    scc: seq<int>,          // component numbers, -1 before they are known
    access: seq<bool>,
    coaccess: seq<bool>,
    nstates: nat,
    nscc: nat,
    cyclic: bool,
    initialCyclic: bool,
    notAccessible: bool,
    notCoAccessible: bool)

  ghost predicate Sized(v: Scc, n: nat) {
    && |v.dfnumber| == n && |v.lowlink| == n && |v.onstack| == n && |v.scc| == n
    && |v.access| == n && |v.coaccess| == n
  }

  /** The SCC stack holds the states marked as being on it, in order of discovery. */
  ghost predicate StackOrdered(v: Scc, n: nat)
    requires Sized(v, n)
  {
    && (forall i :: 0 <= i < |v.stack| ==> v.stack[i] < n && v.onstack[v.stack[i]])
    && (forall i, j :: 0 <= i < j < |v.stack| ==> v.dfnumber[v.stack[i]] < v.dfnumber[v.stack[j]])
    && (forall x :: 0 <= x < n && v.onstack[x] ==> x in v.stack)
  }

  function Initial(n: nat): (v: Scc)
  {
    Scc(seq(n, _ => -1), seq(n, _ => -1), seq(n, _ => false), [], seq(n, _ => -1), seq(n, _ => false),
        seq(n, _ => false), 0, 0, false, false, false, false)
  }

  function Discovered(v: Scc, n: nat, start: nat, s: nat, root: nat): (r: Scc)
    requires Sized(v, n) && s < n
  {
    v.(stack := v.stack + [s],
       dfnumber := v.dfnumber[s := v.nstates],
       lowlink := v.lowlink[s := v.nstates],
       onstack := v.onstack[s := true],
       access := v.access[s := root == start],
       notAccessible := v.notAccessible || root != start,
       nstates := v.nstates + 1)
  }

  function BackArced(v: Scc, n: nat, start: nat, s: nat, t: nat): (r: Scc)
    requires Sized(v, n) && s < n && t < n
  {
    v.(lowlink := if v.dfnumber[t] < v.lowlink[s] then v.lowlink[s := v.dfnumber[t]] else v.lowlink,
       coaccess := if v.coaccess[t] then v.coaccess[s := true] else v.coaccess,
       cyclic := true,
       initialCyclic := v.initialCyclic || t == start)
  }

  function CrossArced(v: Scc, n: nat, s: nat, t: nat): (r: Scc)
    requires Sized(v, n) && s < n && t < n
  {
    v.(lowlink := if v.dfnumber[t] < v.dfnumber[s] && v.onstack[t] && v.dfnumber[t] < v.lowlink[s]
                  then v.lowlink[s := v.dfnumber[t]] else v.lowlink,
       coaccess := if v.coaccess[t] then v.coaccess[s := true] else v.coaccess)
  }

  /** The states of the component rooted at s: those on the stack discovered no earlier than s. */
  predicate InComponent(v: Scc, n: nat, s: nat, x: nat)
    requires Sized(v, n) && s < n && x < n
  {
    v.onstack[x] && v.dfnumber[x] >= v.dfnumber[s]
  }

  ghost predicate ComponentCoaccess(v: Scc, n: nat, s: nat)
    requires Sized(v, n) && s < n
  {
    exists x :: 0 <= x < n && InComponent(v, n, s, x) && v.coaccess[x]
  }

  ghost function StackBelow(v: Scc, n: nat, s: nat): seq<nat>
    requires Sized(v, n) && s < n && s in v.stack
  {
    var i :| 0 <= i < |v.stack| && v.stack[i] == s;
    v.stack[..i]
  }

  /** Popping the component rooted at s: it gets the next number, and is coaccessible as a whole or not. */
  ghost function Popped(v: Scc, n: nat, s: nat): (r: Scc)
    requires Sized(v, n) && s < n && s in v.stack
    ensures Sized(r, n)
  {
    var co := ComponentCoaccess(v, n, s);
    v.(scc := seq(n, x requires 0 <= x < n => if InComponent(v, n, s, x) then v.nscc else v.scc[x]),
       coaccess := seq(n, x requires 0 <= x < n => v.coaccess[x] || (co && InComponent(v, n, s, x))),
       onstack := seq(n, x requires 0 <= x < n => v.onstack[x] && !InComponent(v, n, s, x)),
       stack := StackBelow(v, n, s),
       notCoAccessible := v.notCoAccessible || !co,
       nscc := v.nscc + 1)
  }

  function MarkFinal(v: Scc, n: nat, s: nat, final: bool): (r: Scc)
    requires Sized(v, n) && s < n
    ensures Sized(r, n)
  {
    if final then v.(coaccess := v.coaccess[s := true]) else v
  }

  /** Passing coaccessibility and the lowlink on to the parent of the finished state. */
  function ToParent(v: Scc, n: nat, s: nat, p: int): (r: Scc)
    requires Sized(v, n) && s < n && p < n && p >= NO_STATE_ID
    ensures Sized(r, n)
  {
    if p == NO_STATE_ID then v
    else v.(coaccess := if v.coaccess[s] then v.coaccess[p := true] else v.coaccess,
            lowlink := if v.lowlink[s] < v.lowlink[p] then v.lowlink[p := v.lowlink[s]] else v.lowlink)
  }

  /** A root of a component takes its component off the stack. */
  ghost function MaybePopped(v: Scc, n: nat, s: nat): (r: Scc)
    requires Sized(v, n) && s < n && s in v.stack
    ensures Sized(r, n)
  {
    if v.dfnumber[s] == v.lowlink[s] then Popped(v, n, s) else v
  }

  ghost function Finished(v: Scc, n: nat, s: nat, p: int, final: bool): (r: Scc)
    requires Sized(v, n) && s < n && p < n && p >= NO_STATE_ID && s in v.stack
    ensures Sized(r, n)
  {
    ToParent(MaybePopped(MarkFinal(v, n, s, final), n, s), n, s, p)
  }

  /** Component numbers are turned around at the end, so that arcs lead to larger numbers. */
  function Reversed(v: Scc): (r: Scc)
    ensures |r.scc| == |v.scc| && forall x :: 0 <= x < |r.scc| ==> r.scc[x] == v.nscc - 1 - v.scc[x]
  {
    v.(scc := seq(|v.scc|, x requires 0 <= x < |v.scc| => v.nscc - 1 - v.scc[x]))
  }

  // ---- The stack from a position upward

  /** Is x on the stack at position m or above? */
  ghost predicate Above(v: Scc, n: nat, m: nat, x: nat)
    requires Sized(v, n) && StackOrdered(v, n) && x < n
  {
    m < |v.stack| && InComponent(v, n, v.stack[m], x)
  }

  lemma AboveSplits(v: Scc, n: nat, m: nat, x: nat)
    requires Sized(v, n) && StackOrdered(v, n) && x < n && 0 < m <= |v.stack|
    ensures Above(v, n, m - 1, x) <==> x == v.stack[m - 1] || Above(v, n, m, x)
    ensures !Above(v, n, m, v.stack[m - 1])
  {
    if v.onstack[x] {
      var i :| 0 <= i < |v.stack| && v.stack[i] == x;
      assert i < m - 1 ==> v.dfnumber[x] < v.dfnumber[v.stack[m - 1]];
      assert i >= m ==> v.dfnumber[v.stack[m]] <= v.dfnumber[x];
    }
  }

  /** Popped states have left the stack and got the component's number; the others are untouched. */
  ghost predicate PoppedDownTo(u: Scc, v: Scc, n: nat, m: nat, co: bool)
    requires Sized(u, n) && StackOrdered(u, n) && Sized(v, n)
  {
    forall x :: 0 <= x < n ==>
      if Above(u, n, m, x) then v.scc[x] == u.nscc && v.coaccess[x] == (u.coaccess[x] || co) && !v.onstack[x]
      else v.scc[x] == u.scc[x] && v.coaccess[x] == u.coaccess[x] && v.onstack[x] == u.onstack[x]
  }

  lemma PopOne(u: Scc, v: Scc, w: Scc, n: nat, m: nat, co: bool)
    requires Sized(u, n) && StackOrdered(u, n) && Sized(v, n) && Sized(w, n) && 0 < m <= |u.stack|
    requires PoppedDownTo(u, v, n, m, co)
    requires var t := u.stack[m - 1];
      && w.scc == v.scc[t := u.nscc] && w.coaccess == (if co then v.coaccess[t := true] else v.coaccess)
      && w.onstack == v.onstack[t := false]
    ensures PoppedDownTo(u, w, n, m - 1, co)
  {
    forall x | 0 <= x < n ensures Above(u, n, m - 1, x) <==> x == u.stack[m - 1] || Above(u, n, m, x) {
      AboveSplits(u, n, m, x);
    }
    AboveSplits(u, n, m, u.stack[m - 1]);
  }

  lemma StackPosition(v: Scc, n: nat, s: nat) returns (k: nat)
    requires Sized(v, n) && StackOrdered(v, n) && s < n && s in v.stack
    ensures k < |v.stack| && v.stack[k] == s && StackBelow(v, n, s) == v.stack[..k]
    ensures forall i :: 0 <= i < |v.stack| && v.stack[i] == s ==> i == k
  {
    k :| 0 <= k < |v.stack| && v.stack[k] == s;
  }

  /** A component popped state by state is popped as a whole. */
  lemma PoppedAll(u: Scc, v: Scc, n: nat, s: nat, k: nat)
    requires Sized(u, n) && StackOrdered(u, n) && s < n && s in u.stack && k < |u.stack| && u.stack[k] == s
    requires Sized(v, n)
    requires PoppedDownTo(u, v, n, k, ComponentCoaccess(u, n, s)) && v.stack == u.stack[..k]
    ensures v.scc == Popped(u, n, s).scc && v.coaccess == Popped(u, n, s).coaccess
    ensures v.onstack == Popped(u, n, s).onstack && v.stack == Popped(u, n, s).stack
  {
    var k' := StackPosition(u, n, s);
    assert forall x :: 0 <= x < n ==> (Above(u, n, k, x) <==> InComponent(u, n, s, x));
  }

  lemma PopKeepsOrder(v: Scc, n: nat, s: nat)
    requires Sized(v, n) && StackOrdered(v, n) && s < n && s in v.stack
    ensures StackOrdered(Popped(v, n, s), n)
  {
    var k := StackPosition(v, n, s);
    var w := Popped(v, n, s);
    forall i | 0 <= i < |w.stack| ensures w.onstack[w.stack[i]] {
      assert v.dfnumber[v.stack[i]] < v.dfnumber[s];
    }
    forall x | 0 <= x < n && w.onstack[x] ensures x in w.stack {
      var i :| 0 <= i < |v.stack| && v.stack[i] == x;
      assert i < k;
      assert w.stack[i] == x;
    }
  }

  lemma StackPush(u: Scc, v: Scc, n: nat, s: nat)
    requires Sized(u, n) && StackOrdered(u, n) && s < n && !u.onstack[s]
    requires Sized(v, n) && v.stack == u.stack + [s] && v.onstack == u.onstack[s := true]
    requires v.dfnumber == u.dfnumber[s := u.nstates] && forall x :: 0 <= x < n ==> u.dfnumber[x] < u.nstates
    ensures StackOrdered(v, n)
  {
    forall x | 0 <= x < n && v.onstack[x] ensures x in v.stack {
      if x != s {
        assert x in u.stack;
      } else {
        assert v.stack[|u.stack|] == s;
      }
    }
  }

  class SccVisitor {
    const g: Graph
    const n: nat
    var dfnumber: seq<int>
    var lowlink: seq<int>
    var onstack: seq<bool>
    var sccStack: seq<nat>
    var scc: seq<int>
    var access: seq<bool>
    var coaccess: seq<bool>
    var nstates: nat
    var nscc: nat
    var cyclic: bool
    var initialCyclic: bool
    var notAccessible: bool
    var notCoAccessible: bool

    ghost function View(): Scc
      reads this
    {
      Scc(dfnumber, lowlink, onstack, sccStack, scc, access, coaccess, nstates, nscc,
          cyclic, initialCyclic, notAccessible, notCoAccessible)
    }

    ghost predicate Valid()
      reads this
    {
      ValidGraph(g) && n == |g.succ| && Sized(View(), n) && StackOrdered(View(), n)
    }

    constructor (g: Graph)
      requires ValidGraph(g)
      ensures Valid() && this.g == g && View() == Initial(|g.succ|)
    {
      this.g, n := g, |g.succ|;
      dfnumber, lowlink := seq(|g.succ|, _ => -1), seq(|g.succ|, _ => -1);
      onstack, sccStack := seq(|g.succ|, _ => false), [];
      scc, access, coaccess := seq(|g.succ|, _ => -1), seq(|g.succ|, _ => false), seq(|g.succ|, _ => false);
      nstates, nscc := 0, 0;
      cyclic, initialCyclic, notAccessible, notCoAccessible := false, false, false, false;
    }

    method InitState(s: nat, root: nat)
      requires Valid() && s < n && !onstack[s] && forall x :: 0 <= x < n ==> dfnumber[x] < nstates
      modifies this
      ensures Valid() && View() == Discovered(old(View()), n, g.start, s, root)
    {
      sccStack := sccStack + [s];
      dfnumber := dfnumber[s := nstates];
      lowlink := lowlink[s := nstates];
      onstack := onstack[s := true];
      if root == g.start {
        access := access[s := true];
      } else {
        access := access[s := false];
        notAccessible := true;
      }
      nstates := nstates + 1;
      StackPush(old(View()), View(), n, s);
    }

    method BackArc(s: nat, t: nat)
      requires Valid() && s < n && t < n
      modifies this
      ensures Valid() && View() == BackArced(old(View()), n, g.start, s, t)
    {
      if dfnumber[t] < lowlink[s] {
        lowlink := lowlink[s := dfnumber[t]];
      }
      if coaccess[t] {
        coaccess := coaccess[s := true];
      }
      cyclic := true;
      if t == g.start {
        initialCyclic := true;
      }
    }

    method ForwardOrCrossArc(s: nat, t: nat)
      requires Valid() && s < n && t < n
      modifies this
      ensures Valid() && View() == CrossArced(old(View()), n, s, t)
    {
      if dfnumber[t] < dfnumber[s] && onstack[t] && dfnumber[t] < lowlink[s] {
        lowlink := lowlink[s := dfnumber[t]];
      }
      if coaccess[t] {
        coaccess := coaccess[s := true];
      }
    }

    /** Scans the component on the stack for a coaccessible state, from the top down to s. */
    method ScanComponent(s: nat) returns (co: bool)
      requires Valid() && s < n && s in sccStack
      ensures co <==> ComponentCoaccess(View(), n, s)
    {
      co := false;
      ghost var k := StackPosition(View(), n, s);
      var i := |sccStack|;
      var more := true;
      while more
        invariant k <= i <= |sccStack| && (more <==> i > k)
        invariant co <==> exists x :: 0 <= x < n && Above(View(), n, i, x) && coaccess[x]
        decreases i, more
      {
        forall x | 0 <= x < n
          ensures Above(View(), n, i - 1, x) <==> x == sccStack[i - 1] || Above(View(), n, i, x)
        {
          AboveSplits(View(), n, i, x);
        }
        i := i - 1;
        var t := sccStack[i];
        if coaccess[t] {
          co := true;
        }
        more := s != t;
      }
      assert forall x :: 0 <= x < n ==> (Above(View(), n, k, x) <==> InComponent(View(), n, s, x));
    }

    /** Pops one state of the component. */
    method PopState(ghost u: Scc, co: bool) returns (t: nat)
      requires Sized(u, n) && StackOrdered(u, n) && Sized(View(), n) && nscc == u.nscc
      requires 0 < |sccStack| <= |u.stack| && sccStack == u.stack[..|sccStack|]
      requires PoppedDownTo(u, View(), n, |sccStack|, co)
      modifies `scc, `coaccess, `onstack, `sccStack
      ensures Sized(View(), n) && |sccStack| == old(|sccStack|) - 1 && t == u.stack[|sccStack|]
      ensures sccStack == u.stack[..|sccStack|]
      ensures PoppedDownTo(u, View(), n, |sccStack|, co)
    {
      t := sccStack[|sccStack| - 1];
      scc := scc[t := nscc];
      if co {
        coaccess := coaccess[t := true];
      }
      onstack := onstack[t := false];
      sccStack := sccStack[..|sccStack| - 1];
      PopOne(u, old(View()), View(), n, old(|sccStack|), co);
    }

    /** Pops the stack down to and including s, numbering the states. */
    method PopStates(s: nat, co: bool)
      requires Valid() && s < n && s in sccStack && (co <==> ComponentCoaccess(View(), n, s))
      modifies `scc, `coaccess, `onstack, `sccStack
      ensures var r := Popped(old(View()), n, s);
        scc == r.scc && coaccess == r.coaccess && onstack == r.onstack && sccStack == r.stack
    {
      ghost var u := View();
      ghost var k := StackPosition(u, n, s);
      var more := true;
      while more
        invariant k <= |sccStack| <= |u.stack| && sccStack == u.stack[..|sccStack|] && (more <==> |sccStack| > k)
        invariant Sized(View(), n) && PoppedDownTo(u, View(), n, |sccStack|, co)
        decreases |sccStack|, more
      {
        var t := PopState(u, co);
        more := s != t;
      }
      PoppedAll(u, View(), n, s, k);
    }

    /** Pops the component of s from the stack. */
    method PopComponent(s: nat, co: bool)
      requires Valid() && s < n && s in sccStack && (co <==> ComponentCoaccess(View(), n, s))
      modifies `scc, `coaccess, `onstack, `sccStack, `notCoAccessible, `nscc
      ensures Valid() && View() == Popped(old(View()), n, s)
    {
      PopStates(s, co);
      if !co {
        notCoAccessible := true;
      }
      nscc := nscc + 1;
      PopKeepsOrder(old(View()), n, s);
    }

    /** Tells the parent of a finished state about its coaccessibility and lowlink. */
    method PassToParent(s: nat, p: nat)
      requires Valid() && s < n && p < n
      modifies `coaccess, `lowlink
      ensures Valid() && View() == ToParent(old(View()), n, s, p)
    {
      if coaccess[s] {
        coaccess := coaccess[p := true];
      }
      if lowlink[s] < lowlink[p] {
        lowlink := lowlink[p := lowlink[s]];
      }
    }

    method FinishState(s: nat, p: int)
      requires Valid() && s < n && NO_STATE_ID <= p < n && s in sccStack
      modifies this
      ensures Valid() && View() == Finished(old(View()), n, s, p, g.final[s])
    {
      if g.final[s] {
        coaccess := coaccess[s := true];
      }
      ghost var m := View();
      assert m == MarkFinal(old(View()), n, s, g.final[s]) && StackOrdered(m, n);
      if dfnumber[s] == lowlink[s] {
        var co := ScanComponent(s);
        PopComponent(s, co);
      }
      if p != NO_STATE_ID {
        PassToParent(s, p);
      }
    }

    method FinishVisit()
      requires Valid()
      modifies this
      ensures Valid() && View() == Reversed(old(View()))
    {
      var numbers, last := scc, nscc - 1;
      scc := seq(|numbers|, x requires 0 <= x < |numbers| => last - numbers[x]);
    }
  }
}
