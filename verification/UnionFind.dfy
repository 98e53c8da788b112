/** Disjoint sets as a forest with union by rank and path compression. */
module UnionFinds {

  // The value for "no set yet".
  const FAIL := -1

  datatype Forest = Forest(parent: seq<int>, rank: seq<nat>)

  ghost function MaxRank(rank: seq<nat>): (m: nat)
    ensures forall i :: 0 <= i < |rank| ==> rank[i] <= m
  {
    if rank == [] then 0
    else
      var m := MaxRank(rank[..|rank| - 1]);
      assert forall i :: 0 <= i < |rank| - 1 ==> rank[..|rank| - 1][i] == rank[i];
      if rank[|rank| - 1] <= m then m else rank[|rank| - 1]
  }

  predicate HasSet(f: Forest, x: nat) {
    x < |f.parent| && f.parent[x] != FAIL
  }

  /** Parents have sets, and ranks grow towards the roots. */
  ghost predicate ValidForest(f: Forest) {
    && |f.rank| == |f.parent|
    && forall x :: 0 <= x < |f.parent| && f.parent[x] != FAIL ==>
      && 0 <= f.parent[x] < |f.parent| && f.parent[f.parent[x]] != FAIL
      && (f.parent[x] != x ==> f.rank[x] < f.rank[f.parent[x]])
  }

  ghost function Root(f: Forest, x: nat): (r: nat)
    requires ValidForest(f) && HasSet(f, x)
    ensures HasSet(f, r) && f.parent[r] == r && (r != x ==> f.rank[x] < f.rank[r])
    decreases MaxRank(f.rank) - f.rank[x]
  {
    if f.parent[x] == x then x else Root(f, f.parent[x])
  }

  /** The representative of any number; one without a set yet stands for itself. */
  ghost function Rep(f: Forest, x: nat): (r: nat)
    requires ValidForest(f)
    ensures HasSet(f, x) ==> HasSet(f, r) && f.parent[r] == r
  {
    if HasSet(f, x) then Root(f, x) else x
  }

  ghost predicate SameClass(f: Forest, a: nat, b: nat)
    requires ValidForest(f)
  {
    Rep(f, a) == Rep(f, b)
  }

  /** Two forests that stand for the same partition with the same representatives. */
  ghost predicate SameSets(f: Forest, f': Forest) {
    ValidForest(f) && ValidForest(f') && forall x: nat {:trigger Rep(f', x)} :: Rep(f', x) == Rep(f, x)
  }

  lemma SameSetsTwice(f: Forest, g: Forest, h: Forest)
    requires SameSets(f, g) && SameSets(g, h)
    ensures SameSets(f, h)
  {
    forall x: nat ensures Rep(h, x) == Rep(f, x) {
      assert Rep(h, x) == Rep(g, x) && Rep(g, x) == Rep(f, x);
    }
  }

  /** Hanging a state directly under its root changes no root. */
  lemma {:induction false} CompressRoot(f: Forest, f': Forest, x: nat, y: nat)
    requires ValidForest(f) && HasSet(f, x) && HasSet(f, y)
    requires f' == f.(parent := f.parent[x := Root(f, x)]) && ValidForest(f')
    ensures HasSet(f', y) && Root(f', y) == Root(f, y)
    decreases MaxRank(f.rank) - f.rank[y]
  {
    if y == x {
      assert f'.parent[Root(f, x)] == Root(f, x);
    } else if f.parent[y] != y {
      CompressRoot(f, f', x, f.parent[y]);
    }
  }

  lemma Compress(f: Forest, x: nat)
    requires ValidForest(f) && HasSet(f, x)
    ensures SameSets(f, f.(parent := f.parent[x := Root(f, x)]))
  {
    var f' := f.(parent := f.parent[x := Root(f, x)]);
    forall y: nat ensures Rep(f', y) == Rep(f, y) {
      if HasSet(f, y) {
        CompressRoot(f, f', x, y);
      }
    }
  }

  /** f' is f with root b hung under root a. */
  ghost predicate Hung(f: Forest, f': Forest, a: nat, b: nat)
    requires ValidForest(f)
  {
    && HasSet(f, a) && HasSet(f, b) && f.parent[a] == a && f.parent[b] == b && a != b
    && ValidForest(f') && f'.parent == f.parent[b := a]
    && forall x :: 0 <= x < |f.rank| && x != a ==> f'.rank[x] == f.rank[x]
  }

  lemma {:induction false} HungRoot(f: Forest, f': Forest, a: nat, b: nat, y: nat)
    requires ValidForest(f) && Hung(f, f', a, b) && HasSet(f, y)
    ensures HasSet(f', y) && Root(f', y) == (if Root(f, y) == b then a else Root(f, y))
    decreases MaxRank(f.rank) - f.rank[y]
  {
    if y == b {
      assert f'.parent[b] == a && f'.parent[a] == a;
    } else if f.parent[y] != y {
      HungRoot(f, f', a, b, f.parent[y]);
    }
  }

  /** The classes of a and b are one, represented by one of the two; all others are as before. */
  ghost predicate Merged(f: Forest, f': Forest, a: nat, b: nat) {
    && ValidForest(f) && ValidForest(f') && (forall x: nat :: HasSet(f, x) ==> HasSet(f', x))
    && ((forall x: nat {:trigger Rep(f', x)} :: Rep(f', x) == (if Rep(f, x) == b then a else Rep(f, x)))
        || (forall x: nat {:trigger Rep(f', x)} :: Rep(f', x) == (if Rep(f, x) == a then b else Rep(f, x))))
  }

  /** P takes both numbers of each pair, or neither. */
  ghost predicate KeepsTogether(R: iset<(nat, nat)>, P: iset<nat>) {
    forall p :: p in R ==> (p.0 in P <==> p.1 in P)
  }

  ghost predicate UnionOfClasses(f: Forest, P: iset<nat>)
    requires ValidForest(f)
  {
    forall x: nat, y: nat :: SameClass(f, x, y) ==> (x in P <==> y in P)
  }

  /** The classes are the finest in which the numbers of each pair are together: what keeps all pairs together is
      made up of whole classes. */
  ghost predicate Joins(f: Forest, R: iset<(nat, nat)>)
    requires ValidForest(f)
  {
    && (forall p :: p in R ==> SameClass(f, p.0, p.1))
    && (forall P :: KeepsTogether(R, P) ==> UnionOfClasses(f, P))
  }

  lemma JoinsNone(f: Forest)
    requires ValidForest(f) && forall x: nat :: Rep(f, x) == x
    ensures Joins(f, iset{})
  {
  }

  /** Merging the classes of a and b joins the pair. */
  lemma MergedJoins(f: Forest, f': Forest, R: iset<(nat, nat)>, a: nat, b: nat)
    requires ValidForest(f) && Joins(f, R) && Merged(f, f', Rep(f, a), Rep(f, b))
    ensures Joins(f', R + iset{(a, b)})
  {
    forall p | p in R + iset{(a, b)} ensures SameClass(f', p.0, p.1) {
      assert p in R ==> SameClass(f, p.0, p.1);
      assert Rep(f', p.0) == Rep(f', p.1);
    }
    forall P | KeepsTogether(R + iset{(a, b)}, P) ensures UnionOfClasses(f', P) {
      assert (a, b) in R + iset{(a, b)};
      assert forall p :: p in R ==> p in R + iset{(a, b)};
      assert KeepsTogether(R, P);
      forall x: nat, y: nat | SameClass(f', x, y) ensures x in P <==> y in P {
        assert Rep(f', x) == Rep(f', y);
        assert SameClass(f, x, y) ==> (x in P <==> y in P);
        assert SameClass(f, x, a) ==> (x in P <==> a in P);
        assert SameClass(f, x, b) ==> (x in P <==> b in P);
        assert SameClass(f, y, a) ==> (y in P <==> a in P);
        assert SameClass(f, y, b) ==> (y in P <==> b in P);
      }
    }
  }

  lemma Hang(f: Forest, f': Forest, a: nat, b: nat)
    requires ValidForest(f) && Hung(f, f', a, b)
    ensures forall x: nat {:trigger Rep(f', x)} :: Rep(f', x) == (if Rep(f, x) == b then a else Rep(f, x))
  {
    forall x: nat ensures Rep(f', x) == (if Rep(f, x) == b then a else Rep(f, x)) {
      if HasSet(f, x) {
        HungRoot(f, f', a, b, x);
      }
    }
  }

  class UnionFind {
    var parent: seq<int>
    var rank: seq<nat>

    ghost function F(): Forest
      reads this
    {
      Forest(parent, rank)
    }

    ghost predicate Valid()
      reads this
    {
      ValidForest(F())
    }

    constructor (max: nat)
      ensures Valid() && forall x: nat :: !HasSet(F(), x)
    {
      parent := seq(max, _ => FAIL);
      rank := seq(max, _ => 0);
    }

    /** The representative, or FAIL; compressing the path changes no set. */
    method FindSet(item: nat) returns (r: int)
      requires Valid()
      modifies this
      ensures SameSets(old(F()), F()) && (forall x: nat :: HasSet(F(), x) <==> HasSet(old(F()), x))
      ensures r == if HasSet(old(F()), item) then Rep(old(F()), item) else FAIL
    {
      if item >= |parent| || parent[item] == FAIL {
        return FAIL;
      }
      ghost var f := F();
      var root: nat := item;
      while root != parent[root]
        invariant F() == f && HasSet(f, root) && Root(f, root) == Root(f, item)
        decreases MaxRank(f.rank) - f.rank[root]
      {
        root := parent[root];
      }
      var i: nat := item;
      while i != parent[i]
        invariant SameSets(f, F()) && (forall x: nat :: HasSet(F(), x) <==> HasSet(f, x))
        invariant HasSet(F(), i) && Root(F(), i) == root && rank == f.rank
        decreases MaxRank(f.rank) - f.rank[i]
      {
        var next := parent[i];
        ghost var g := F();
        Compress(g, i);
        assert Rep(g, next) == root;
        parent := parent[i := root];
        assert Rep(F(), next) == Rep(g, next);
        i := next;
      }
      r := root;
    }

    /** Makes room for a number. */
    method Reserve(item: nat)
      requires Valid()
      modifies this
      ensures Valid() && item < |parent| && |old(parent)| <= |parent|
      ensures parent[..|old(parent)|] == old(parent) && rank[..|old(parent)|] == old(rank)
      ensures forall z :: |old(parent)| <= z < |parent| ==> parent[z] == FAIL
    {
      if item >= |parent| {
        var nitem := if item > 0 then 2 * item else 2;
        parent := parent + seq(nitem - |parent|, _ => FAIL);
        rank := rank + seq(nitem - |rank|, _ => 0);
      }
    }

    /** A singleton set for a number that has none. */
    method MakeSet(item: nat) returns (r: nat)
      requires Valid() && (HasSet(F(), item) ==> parent[item] == item)
      modifies this
      ensures r == item && SameSets(old(F()), F())
      ensures forall x: nat :: HasSet(F(), x) <==> HasSet(old(F()), x) || x == item
    {
      ghost var f := F();
      Reserve(item);
      ghost var g := F();
      assert forall z :: 0 <= z < |f.parent| ==> g.parent[z] == f.parent[z] && g.rank[z] == f.rank[z];
      parent := parent[item := item];
      r := item;
      MadeSet(f, g, F(), item);
    }

    /** A singleton set for every number below max. */
    method MakeAllSet(max: nat)
      modifies this
      ensures Valid() && (forall x: nat :: HasSet(F(), x) <==> x < max)
      ensures forall x: nat {:trigger Rep(F(), x)} :: Rep(F(), x) == x
    {
      parent := seq(max, i => i);
      rank := seq(max, _ => 0);
    }

    /** Unites the sets of two numbers that have one. */
    method Union(x: nat, y: nat)
      requires Valid() && HasSet(F(), x) && HasSet(F(), y)
      modifies this
      ensures Merged(old(F()), F(), Rep(old(F()), x), Rep(old(F()), y))
    {
      ghost var f := F();
      var a := FindSet(x);
      ghost var f1 := F();
      assert HasSet(f1, y) && Rep(f1, y) == Rep(f, y) && Rep(f1, x) == Rep(f, x);
      var b := FindSet(y);
      ghost var f2 := F();
      assert Rep(f2, y) == Rep(f1, y) && Rep(f2, x) == Rep(f1, x);
      Link(a, b);
      forall z: nat ensures Rep(f2, z) == Rep(f, z) {
        assert Rep(f2, z) == Rep(f1, z) && Rep(f1, z) == Rep(f, z);
      }
    }

    /** Links two roots, the one of smaller rank under the other. */
    method Link(x: nat, y: nat)
      requires Valid() && HasSet(F(), x) && HasSet(F(), y) && parent[x] == x && parent[y] == y
      modifies this
      ensures Merged(old(F()), F(), x, y)
    {
      if x == y {
        return;
      }
      ghost var f := F();
      if rank[x] > rank[y] {
        parent := parent[y := x];
        Hang(f, F(), x, y);
      } else {
        parent := parent[x := y];
        if rank[x] == rank[y] {
          rank := rank[y := rank[y] + 1];
        }
        Hang(f, F(), y, x);
      }
    }
  }

  lemma {:induction false} GrownRoot(f: Forest, f': Forest, item: nat, x: nat)
    requires ValidForest(f) && ValidForest(f') && |f'.parent| >= |f.parent| && HasSet(f', item)
    requires f'.parent[item] == item
    requires HasSet(f, item) ==> f.parent[item] == item
    requires forall z :: 0 <= z < |f.parent| && z != item ==> f'.parent[z] == f.parent[z] && f'.rank[z] == f.rank[z]
    requires HasSet(f, x) && x != item
    ensures HasSet(f', x) && Root(f', x) == Root(f, x)
    decreases MaxRank(f.rank) - f.rank[x]
  {
    if f.parent[x] != x && f.parent[x] != item {
      GrownRoot(f, f', item, f.parent[x]);
    }
  }

  lemma GrownRep(f: Forest, f': Forest, item: nat, x: nat)
    requires ValidForest(f) && ValidForest(f') && |f'.parent| >= |f.parent| && HasSet(f', item)
    requires f'.parent[item] == item
    requires HasSet(f, item) ==> f.parent[item] == item
    requires forall z :: 0 <= z < |f.parent| && z != item ==> f'.parent[z] == f.parent[z] && f'.rank[z] == f.rank[z]
    requires HasSet(f', x) ==> HasSet(f, x) || x == item
    ensures Rep(f', x) == Rep(f, x)
  {
    if HasSet(f, x) && x != item {
      GrownRoot(f, f', item, x);
    }
  }

  lemma MadeSet(f: Forest, g: Forest, f': Forest, item: nat)
    requires ValidForest(f) && ValidForest(g) && |g.parent| >= |f.parent| && item < |g.parent|
    requires forall z :: 0 <= z < |f.parent| ==> g.parent[z] == f.parent[z] && g.rank[z] == f.rank[z]
    requires forall z :: |f.parent| <= z < |g.parent| ==> g.parent[z] == FAIL
    requires f' == g.(parent := g.parent[item := item]) && (HasSet(f, item) ==> f.parent[item] == item)
    ensures SameSets(f, f') && forall x: nat :: HasSet(f', x) <==> HasSet(f, x) || x == item
  {
    assert ValidForest(f');
    forall x: nat ensures Rep(f', x) == Rep(f, x) {
      GrownRep(f, f', item, x);
    }
  }
}
