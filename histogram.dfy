/** The degree histogram: how many nodes have each degree, and its items in ascending order of
    degree, as `dict(sorted(degree_count.items()))` lists them. */
module Histograms {
  import opened AdjacencySets

  /** The degree of a node: the size of its neighbour set. */
  function Degree(adj: AdjacencyMap, node: int): nat
  {
    |Lookup(adj, node)|
  }

  /** How many of the nodes 0 .. n - 1 have degree k. */
  function DegreeCount(adj: AdjacencyMap, n: nat, k: nat): (r: nat)
    ensures r <= n
  {
    if n == 0 then 0 else DegreeCount(adj, n - 1, k) + (if Degree(adj, n - 1) == k then 1 else 0)
  }

  /** Some node below n has degree k exactly when the count for k is positive. */
  lemma {:induction false} DegreeCountPositive(adj: AdjacencyMap, n: nat, k: nat)
    ensures DegreeCount(adj, n, k) > 0 <==> exists node :: 0 <= node < n && Degree(adj, node) == k
  {
    if n > 0 {
      DegreeCountPositive(adj, n - 1, k);
      if DegreeCount(adj, n, k) > 0 && Degree(adj, n - 1) != k {
        var node :| 0 <= node < n - 1 && Degree(adj, node) == k;
      }
    }
  }

  /** The items of a histogram, as (key, count) pairs. */
  type Items = seq<(nat, nat)>

  /** Keys strictly ascending from front to back. */
  ghost predicate Ascending(items: Items)
  {
    forall i, j :: 0 <= i < j < |items| ==> items[i].0 < items[j].0
  }

  /** The keys of the items. */
  ghost function KeysOf(items: Items): set<nat>
  {
    set p | p in items :: p.0
  }

  /** A non-empty set of keys has a least one. */
  lemma {:induction false} LeastExists(s: set<nat>)
    requires s != {}
    ensures exists k :: k in s && forall j :: j in s ==> k <= j
    decreases s
  {
    var k0 :| k0 in s;
    var rest := s - {k0};
    var k := k0;
    if rest != {} {
      LeastExists(rest);
      var k1 :| k1 in rest && forall j :: j in rest ==> k1 <= j;
      k := if k0 < k1 then k0 else k1;
    }
    forall j | j in s
      ensures k <= j
    {
      if j != k0 {
        assert j in rest;
      }
    }
    assert k in s;
  }

  /** The least key of a non-empty set. */
  function Least(s: set<nat>): (k: nat)
    requires s != {}
    ensures k in s && forall j :: j in s ==> k <= j
  {
    LeastExists(s);
    var k :| k in s && forall j :: j in s ==> k <= j;
    k
  }

  /** `sorted(m.items())`: the entries of m, each once, in strictly ascending order of key. */
  function SortedItems(m: map<nat, nat>): (r: Items)
    ensures |r| == |m|
    ensures forall i, j :: 0 <= i < j < |r| ==> r[i].0 < r[j].0
    ensures forall k, c :: (k, c) in r <==> k in m && m[k] == c
    decreases m.Keys
  {
    if m == map[] then []
    else
      var k := Least(m.Keys);
      var rest := m - {k};
      assert rest.Keys == m.Keys - {k};
      SortedCons(k, m[k], SortedItems(rest), rest);
      [(k, m[k])] + SortedItems(rest)
  }

  /** Putting an entry in front of the sorted items of the entries with larger keys keeps them
      sorted and adds exactly that entry. */
  lemma SortedCons(k: nat, c: nat, tail: Items, rest: map<nat, nat>)
    requires forall j :: j in rest ==> k < j
    requires forall i, j :: 0 <= i < j < |tail| ==> tail[i].0 < tail[j].0
    requires forall k', c' :: (k', c') in tail <==> k' in rest && rest[k'] == c'
    ensures forall i, j :: 0 <= i < j < |[(k, c)] + tail| ==> ([(k, c)] + tail)[i].0 < ([(k, c)] + tail)[j].0
  {
    forall i | 0 <= i < |tail|
      ensures k < tail[i].0
    {
      assert (tail[i].0, tail[i].1) in tail;
    }
  }

  /** The sum of the counts. */
  function Total(items: Items): nat
  {
    if items == [] then 0 else items[0].1 + Total(items[1..])
  }

  /** How many items carry the key x. */
  function Hits(items: Items, x: nat): nat
  {
    if items == [] then 0 else (if items[0].0 == x then 1 else 0) + Hits(items[1..], x)
  }

  /** The counts of the nodes below n, summed over the keys of the items. */
  function CountSum(adj: AdjacencyMap, n: nat, items: Items): nat
  {
    if items == [] then 0 else DegreeCount(adj, n, items[0].0) + CountSum(adj, n, items[1..])
  }

  /** Items whose counts are the histogram's sum to the histogram's sum over their keys. */
  lemma {:induction false} TotalIsCountSum(adj: AdjacencyMap, n: nat, items: Items)
    requires forall i :: 0 <= i < |items| ==> items[i].1 == DegreeCount(adj, n, items[i].0)
    ensures Total(items) == CountSum(adj, n, items)
  {
    if items != [] {
      TotalIsCountSum(adj, n, items[1..]);
    }
  }

  /** Counting one more node adds one for each item carrying its degree. */
  lemma {:induction false} CountSumStep(adj: AdjacencyMap, n: nat, items: Items)
    requires n > 0
    ensures CountSum(adj, n, items) == CountSum(adj, n - 1, items) + Hits(items, Degree(adj, n - 1))
  {
    if items != [] {
      CountSumStep(adj, n, items[1..]);
    }
  }

  /** A key that no item carries has no hits. */
  lemma {:induction false} HitsAbsent(items: Items, x: nat)
    requires forall i :: 0 <= i < |items| ==> items[i].0 != x
    ensures Hits(items, x) == 0
  {
    if items != [] {
      HitsAbsent(items[1..], x);
    }
  }

  /** In strictly ascending items, a key that occurs occurs once. */
  lemma {:induction false} HitsOnce(items: Items, x: nat)
    requires Ascending(items) && x in KeysOf(items)
    ensures Hits(items, x) == 1
  {
    var rest := items[1..];
    if items[0].0 == x {
      HitsAbsent(rest, x);
    } else {
      assert x in KeysOf(rest) by {
        var p :| p in items && p.0 == x;
        var i :| 0 <= i < |items| && items[i] == p;
        assert rest[i - 1] == p;
      }
      HitsOnce(rest, x);
    }
  }

  /** Strictly ascending items that carry the degree of every node below n count n nodes in all. */
  lemma {:induction false} CountSumAll(adj: AdjacencyMap, n: nat, items: Items)
    requires Ascending(items)
    requires forall node :: 0 <= node < n ==> Degree(adj, node) in KeysOf(items)
    ensures CountSum(adj, n, items) == n
  {
    if n == 0 {
      CountSumEmpty(adj, items);
    } else {
      CountSumAll(adj, n - 1, items);
      CountSumStep(adj, n, items);
      HitsOnce(items, Degree(adj, n - 1));
    }
  }

  /** No node is counted below 0. */
  lemma {:induction false} CountSumEmpty(adj: AdjacencyMap, items: Items)
    ensures CountSum(adj, 0, items) == 0
  {
    if items != [] {
      CountSumEmpty(adj, items[1..]);
    }
  }

  /** A histogram of the nodes below n, listed in ascending order of key with a positive count
      for exactly the degrees that occur, counts each node once: its counts sum to n. */
  lemma HistogramTotal(adj: AdjacencyMap, n: nat, items: Items)
    requires Ascending(items)
    requires forall k: nat, c: nat :: (k, c) in items <==> c == DegreeCount(adj, n, k) && c > 0
    ensures Total(items) == n
  {
    forall i | 0 <= i < |items|
      ensures items[i].1 == DegreeCount(adj, n, items[i].0)
    {
      assert (items[i].0, items[i].1) in items;
    }
    TotalIsCountSum(adj, n, items);
    forall node | 0 <= node < n
      ensures Degree(adj, node) in KeysOf(items)
    {
      var k := Degree(adj, node);
      DegreeCountPositive(adj, n, k);
      assert (k, DegreeCount(adj, n, k)) in items;
    }
    CountSumAll(adj, n, items);
  }
}
