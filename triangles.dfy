/** Counting the linked pairs among a node's neighbours: the numerator of the clustering
    coefficient, once over a list in the order `combinations` visits its pairs and once over the
    neighbour set itself, where it no longer depends on the order the set was listed in. */
module Triangles {
  import opened Counting
  import opened AdjacencySets
  import opened Distances

  /** How many v of `vs` are neighbours of u: the pairs (u, v) that `combinations` yields with u
      first, counted as the list grows. */
  function Links(adj: AdjacencyMap, u: int, vs: seq<int>): (r: nat)
    ensures r <= |vs|
  {
    if vs == [] then 0
    else Links(adj, u, vs[..|vs| - 1]) + (if vs[|vs| - 1] in Lookup(adj, u) then 1 else 0)
  }

  /** How many pairs ns[i], ns[j] with i < j are linked, ns[j] being a neighbour of ns[i]: the
      pairs of `combinations(ns, 2)` that close a triangle. There are no more than C(|ns|, 2). */
  function Pairs(adj: AdjacencyMap, ns: seq<int>): (r: nat)
    ensures r <= Choose2(|ns|)
  {
    if |ns| <= 1 then 0 else Links(adj, ns[0], ns[1..]) + Pairs(adj, ns[1..])
  }

  /** Appending v to the list adds one link exactly when v is a neighbour of u. */
  lemma LinksSnoc(adj: AdjacencyMap, u: int, vs: seq<int>, v: int)
    ensures Links(adj, u, vs + [v]) == Links(adj, u, vs) + (if v in Lookup(adj, u) then 1 else 0)
  {
    assert (vs + [v])[..|vs|] == vs;
  }

  /** A slice one longer ends with the next element. (Its own lemma only to keep the solver's
      work in CountClosedPairs small.) */
  lemma SliceSnoc(ns: seq<int>, a: nat, b: nat)
    requires a <= b < |ns|
    ensures ns[a..b + 1] == ns[a..b] + [ns[b]]
  {
  }

  /** The pairs of a suffix starting at i: those with ns[i] first, then those of the shorter suffix. */
  lemma PairsSuffix(adj: AdjacencyMap, ns: seq<int>, i: nat)
    requires i < |ns|
    ensures Pairs(adj, ns[i..]) == Links(adj, ns[i], ns[i + 1..|ns|]) + Pairs(adj, ns[i + 1..])
  {
    assert ns[i..][1..] == ns[i + 1..] == ns[i + 1..|ns|];
  }

  /** No element of `ns` occurs twice. */
  ghost predicate Distinct(ns: seq<int>)
  {
    forall i, j :: 0 <= i < j < |ns| ==> ns[i] != ns[j]
  }

  /** The elements of `ns`. */
  ghost function Elements(ns: seq<int>): set<int>
  {
    set x | x in ns
  }

  /** The neighbours of u that belong to `r`. */
  ghost function NeighboursIn(adj: AdjacencyMap, u: int, r: set<int>): set<int>
  {
    set y | y in r && y in Lookup(adj, u)
  }

  /** The linked pairs of a set of nodes, each written once with the smaller node first. */
  ghost function LinkedAmong(adj: AdjacencyMap, s: set<int>): set<(int, int)>
  {
    set x, y | x in s && y in s && x < y && y in Lookup(adj, x) :: (x, y)
  }

  /** The pair of x and y with the smaller first. */
  function Ordered(x: int, y: int): (int, int)
  {
    if x < y then (x, y) else (y, x)
  }

  /** The linked pairs of a set that contain x0, one for each neighbour of x0 in the rest. */
  ghost function Touching(adj: AdjacencyMap, x0: int, r: set<int>): set<(int, int)>
  {
    set y | y in NeighboursIn(adj, x0, r) :: Ordered(x0, y)
  }

  /** Dropping the last element of a list without repetitions leaves one, which lacks that element. */
  lemma DistinctInit(vs: seq<int>)
    requires Distinct(vs) && vs != []
    ensures Distinct(vs[..|vs| - 1]) && vs[|vs| - 1] !in Elements(vs[..|vs| - 1])
    ensures Elements(vs) == Elements(vs[..|vs| - 1]) + {vs[|vs| - 1]}
  {
    var init, last := vs[..|vs| - 1], vs[|vs| - 1];
    forall i, j | 0 <= i < j < |init|
      ensures init[i] != init[j]
    {
      assert init[i] == vs[i] && init[j] == vs[j];
    }
    forall i | 0 <= i < |init|
      ensures init[i] != last
    {
      assert init[i] == vs[i];
    }
    assert vs == init + [last];
  }

  /** Dropping the first element of a list without repetitions leaves one, which lacks that element. */
  lemma DistinctTail(ns: seq<int>)
    requires Distinct(ns) && ns != []
    ensures Distinct(ns[1..]) && ns[0] !in Elements(ns[1..])
    ensures Elements(ns) == {ns[0]} + Elements(ns[1..])
  {
    var rest := ns[1..];
    forall i, j | 0 <= i < j < |rest|
      ensures rest[i] != rest[j]
    {
      assert rest[i] == ns[i + 1] && rest[j] == ns[j + 1];
    }
    forall j | 0 <= j < |rest|
      ensures rest[j] != ns[0]
    {
      assert rest[j] == ns[j + 1];
    }
    assert ns == [ns[0]] + rest;
  }

  /** Appending a new element to a list without repetitions keeps it so. */
  lemma DistinctSnoc(ns: seq<int>, x: int)
    requires Distinct(ns) && x !in Elements(ns)
    ensures Distinct(ns + [x]) && Elements(ns + [x]) == Elements(ns) + {x}
  {
    var ns' := ns + [x];
    forall i, j | 0 <= i < j < |ns'|
      ensures ns'[i] != ns'[j]
    {
      assert ns'[i] == ns[i];
      if j == |ns| {
        assert ns[i] in Elements(ns);
      } else {
        assert ns'[j] == ns[j];
      }
    }
  }

  /** Over a list without repetitions, the links from u count u's neighbours among its elements. */
  lemma {:induction false} LinksAsSet(adj: AdjacencyMap, u: int, vs: seq<int>)
    requires Distinct(vs)
    ensures Links(adj, u, vs) == |NeighboursIn(adj, u, Elements(vs))|
  {
    if vs != [] {
      var init, last := vs[..|vs| - 1], vs[|vs| - 1];
      DistinctInit(vs);
      LinksAsSet(adj, u, init);
      if last in Lookup(adj, u) {
        assert NeighboursIn(adj, u, Elements(vs)) == NeighboursIn(adj, u, Elements(init)) + {last};
      } else {
        assert NeighboursIn(adj, u, Elements(vs)) == NeighboursIn(adj, u, Elements(init));
      }
    }
  }

  /** Writing the pairs of x0 with the distinct nodes of `ys` loses none of them. */
  lemma {:induction false} OrderedImage(x0: int, ys: set<int>)
    requires x0 !in ys
    ensures |set y | y in ys :: Ordered(x0, y)| == |ys|
    decreases ys
  {
    if ys != {} {
      Inhabited(ys);
      var y :| y in ys;
      var rest := ys - {y};
      OrderedImage(x0, rest);
      var image := set z | z in rest :: Ordered(x0, z);
      assert (set z | z in ys :: Ordered(x0, z)) == image + {Ordered(x0, y)};
      forall z | z in rest
        ensures Ordered(x0, z) != Ordered(x0, y)
      {
      }
    }
  }

  /** Adding a node x0 to a set adds exactly its pairs with its neighbours in the set. */
  lemma LinkedAmongAdd(adj: AdjacencyMap, x0: int, r: set<int>)
    requires Symmetric(adj) && x0 !in r
    ensures LinkedAmong(adj, {x0} + r) == LinkedAmong(adj, r) + Touching(adj, x0, r)
    ensures LinkedAmong(adj, r) !! Touching(adj, x0, r)
    ensures |Touching(adj, x0, r)| == |NeighboursIn(adj, x0, r)|
  {
    var s := {x0} + r;
    forall p | p in LinkedAmong(adj, s)
      ensures p in LinkedAmong(adj, r) + Touching(adj, x0, r)
    {
      var (x, y) := p;
      assert Linked(adj, x, y);
      if x == x0 {
        assert y in NeighboursIn(adj, x0, r);
      } else if y == x0 {
        assert x in NeighboursIn(adj, x0, r);
      }
    }
    forall p | p in Touching(adj, x0, r)
      ensures p in LinkedAmong(adj, s)
    {
      var y :| y in NeighboursIn(adj, x0, r) && p == Ordered(x0, y);
      assert Linked(adj, x0, y);
    }
    OrderedImage(x0, NeighboursIn(adj, x0, r));
  }

  /** For a symmetric graph and a list without repetitions, the pairs counted over the list are
      the linked pairs of its elements: the count does not depend on the order of the list. */
  lemma {:induction false} PairsAsSet(adj: AdjacencyMap, ns: seq<int>)
    requires Symmetric(adj) && Distinct(ns)
    ensures Pairs(adj, ns) == |LinkedAmong(adj, Elements(ns))|
  {
    if |ns| <= 1 {
      assert forall x, y :: x in Elements(ns) && y in Elements(ns) ==> x == y;
    } else {
      var x0, rest := ns[0], ns[1..];
      DistinctTail(ns);
      PairsAsSet(adj, rest);
      LinksAsSet(adj, x0, rest);
      LinkedAmongAdd(adj, x0, Elements(rest));
    }
  }

  /** A listing of a set: its elements, each once, in an arbitrary order. */
  ghost function Listing(s: set<int>): (r: seq<int>)
    ensures Distinct(r) && Elements(r) == s && |r| == |s|
  {
    if s == {} then []
    else
      Inhabited(s);
      var x :| x in s;
      var rest := Listing(s - {x});
      assert x !in rest;
      [x] + rest
  }

  /** A set of k nodes has at most C(k, 2) linked pairs. */
  lemma LinkedAmongBound(adj: AdjacencyMap, s: set<int>)
    requires Symmetric(adj)
    ensures |LinkedAmong(adj, s)| <= Choose2(|s|)
  {
    PairsAsSet(adj, Listing(s));
  }
}
