/** The edge list that the Barabási–Albert generator builds, as pure functions of the
    attachment degree d and of the positions drawn at every growth step. */
module BarabasiAlbert {
  import opened AdjacencySets
  import opened Counting

  datatype Option<+T> = None | Some(value: T)

  /** The edges (u, lo), (u, lo + 1), ..., (u, hi - 1). */
  function Row(u: int, lo: int, hi: int): seq<Edge>
    requires lo <= hi
  {
    seq(hi - lo, j requires 0 <= j < hi - lo => (u, lo + j))
  }

  lemma RowSnoc(u: int, lo: int, hi: int)
    requires lo <= hi
    ensures Row(u, lo, hi + 1) == Row(u, lo, hi) + [(u, hi)]
  {
  }

  /** The rows u = 0 .. rows - 1 of the complete graph on the nodes 0..d. */
  function SeedRows(rows: nat, d: nat): seq<Edge>
    requires rows <= d + 1
  {
    if rows == 0 then [] else SeedRows(rows - 1, d) + Row(rows - 1, rows, d + 1)
  }

  /** The complete graph on the nodes 0..d, row by row. */
  function SeedEdges(d: nat): seq<Edge>
  {
    SeedRows(d + 1, d)
  }

  /** Lexicographic order on edges. */
  predicate LexLess(a: Edge, b: Edge)
  {
    a.0 < b.0 || (a.0 == b.0 && a.1 < b.1)
  }

  /** The first `rows` rows hold C(d + 1, 2) - C(d + 1 - rows, 2) edges. */
  lemma {:induction false} SeedRowsLength(rows: nat, d: nat)
    requires rows <= d + 1
    ensures |SeedRows(rows, d)| + Choose2(d + 1 - rows) == Choose2(d + 1)
  {
    if rows > 0 {
      SeedRowsLength(rows - 1, d);
      assert Choose2(d + 1 - (rows - 1)) == Choose2(d + 1 - rows) + (d + 1 - rows);
    }
  }

  /** Every edge of the first `rows` rows is a pair u < v of nodes in 0..d with u < rows. */
  lemma {:induction false} SeedRowsBounds(rows: nat, d: nat)
    requires rows <= d + 1
    ensures forall i :: 0 <= i < |SeedRows(rows, d)| ==>
              0 <= SeedRows(rows, d)[i].0 < SeedRows(rows, d)[i].1 <= d && SeedRows(rows, d)[i].0 < rows
  {
    if rows > 0 {
      SeedRowsBounds(rows - 1, d);
      var prev, row := SeedRows(rows - 1, d), Row(rows - 1, rows, d + 1);
      var s := SeedRows(rows, d);
      forall i | 0 <= i < |s|
        ensures 0 <= s[i].0 < s[i].1 <= d && s[i].0 < rows
      {
        if i < |prev| {
          assert s[i] == prev[i];
        } else {
          assert s[i] == row[i - |prev|];
        }
      }
    }
  }

  /** The first `rows` rows hold every pair u < v of nodes in 0..d with u < rows. */
  lemma {:induction false} SeedRowsComplete(rows: nat, d: nat)
    requires rows <= d + 1
    ensures forall u, v :: 0 <= u < v <= d && u < rows ==> (u, v) in SeedRows(rows, d)
  {
    if rows > 0 {
      SeedRowsComplete(rows - 1, d);
      var prev, row := SeedRows(rows - 1, d), Row(rows - 1, rows, d + 1);
      var s := SeedRows(rows, d);
      forall u, v | 0 <= u < v <= d && u < rows
        ensures (u, v) in s
      {
        if u < rows - 1 {
          assert (u, v) in prev;
        } else {
          assert row[v - rows] == (u, v);
          assert s[|prev| + v - rows] == (u, v);
        }
      }
    }
  }

  /** The first `rows` rows are in strictly ascending lexicographic order. */
  lemma {:induction false} SeedRowsSorted(rows: nat, d: nat)
    requires rows <= d + 1
    ensures forall i, j :: 0 <= i < j < |SeedRows(rows, d)| ==> LexLess(SeedRows(rows, d)[i], SeedRows(rows, d)[j])
  {
    if rows > 0 {
      SeedRowsSorted(rows - 1, d);
      SeedRowsBounds(rows - 1, d);
      var prev, row := SeedRows(rows - 1, d), Row(rows - 1, rows, d + 1);
      var s := SeedRows(rows, d);
      forall i, j | 0 <= i < j < |s|
        ensures LexLess(s[i], s[j])
      {
        if j < |prev| {
          assert s[i] == prev[i] && s[j] == prev[j];
        } else {
          assert s[j] == row[j - |prev|];
          if i >= |prev| {
            assert s[i] == row[i - |prev|];
          } else {
            assert s[i] == prev[i];
          }
        }
      }
    }
  }

  /** The seed is exactly the C(d + 1, 2) pairs (u, v) with 0 <= u < v <= d, in lexicographic order. */
  lemma SeedEdgesShape(d: nat)
    ensures |SeedEdges(d)| == Choose2(d + 1) == (d + 1) * d / 2
    ensures forall i :: 0 <= i < |SeedEdges(d)| ==> 0 <= SeedEdges(d)[i].0 < SeedEdges(d)[i].1 <= d
    ensures forall u, v :: 0 <= u < v <= d ==> (u, v) in SeedEdges(d)
    ensures forall i, j :: 0 <= i < j < |SeedEdges(d)| ==> LexLess(SeedEdges(d)[i], SeedEdges(d)[j])
  {
    SeedRowsLength(d + 1, d);
    SeedRowsBounds(d + 1, d);
    SeedRowsComplete(d + 1, d);
    SeedRowsSorted(d + 1, d);
    Choose2ClosedForm(d + 1);
  }

  /** Inserting x into a dictionary whose keys, in insertion order, are `keys`: the keys already
      there keep their places, x becomes a key, and nothing else does. */
  function AddKey(keys: seq<int>, x: int): (r: seq<int>)
    ensures keys <= r && x in r
    ensures forall y :: y in r <==> y in keys || y == x
    ensures |r| <= |keys| + 1
  {
    if x in keys then keys else keys + [x]
  }

  /** The order in which the nodes of `es` first get a dictionary entry, when each edge (u, v)
      inserts u and then v: at most two new keys per edge, the first edge's u first of all. */
  function KeyOrder(es: seq<Edge>): (r: seq<int>)
    ensures |r| <= 2 * |es|
    ensures es != [] ==> r != [] && r[0] == es[0].0
  {
    if es == [] then []
    else
      var last := es[|es| - 1];
      AddKey(AddKey(KeyOrder(es[..|es| - 1]), last.0), last.1)
  }

  /** Later edges never reorder the keys: the insertion order after a prefix of the edges is a
      prefix of the insertion order after all of them. */
  lemma {:induction false} KeyOrderPrefix(es: seq<Edge>, i: nat)
    requires i <= |es|
    ensures KeyOrder(es[..i]) <= KeyOrder(es)
    decreases |es| - i
  {
    if i < |es| {
      var init := es[..|es| - 1];
      assert es[..i] == init[..i];
      KeyOrderPrefix(init, i);
    } else {
      assert es[..i] == es;
    }
  }

  /** Appending an edge (u, v) inserts the key u and then the key v. */
  lemma KeyOrderSnoc(es: seq<Edge>, u: int, v: int)
    ensures KeyOrder(es + [(u, v)]) == AddKey(AddKey(KeyOrder(es), u), v)
  {
    assert (es + [(u, v)])[..|es|] == es;
  }

  /** No key repeats, and the keys are exactly the nodes with a dictionary entry. */
  lemma {:induction false} KeyOrderFacts(es: seq<Edge>)
    ensures forall i, j :: 0 <= i < j < |KeyOrder(es)| ==> KeyOrder(es)[i] != KeyOrder(es)[j]
    ensures forall x :: x in KeyOrder(es) <==> x in Adjacency(es)
  {
    if es != [] {
      KeyOrderFacts(es[..|es| - 1]);
    }
  }

  /** k copies of x. */
  function Repeat(x: int, k: nat): (r: seq<int>)
    ensures |r| == k && forall y :: y in r ==> y == x
  {
    if k == 0 then [] else [x] + Repeat(x, k - 1)
  }

  /** `nodes_with_repetition`: every key, in key order, once per neighbour it has. Only keys with
      at least one neighbour occur in it. */
  function Pool(adj: AdjacencyMap, keys: seq<int>): (r: seq<int>)
    ensures forall x :: x in r ==> x in keys && Lookup(adj, x) != {}
  {
    if keys == [] then [] else Repeat(keys[0], |Lookup(adj, keys[0])|) + Pool(adj, keys[1..])
  }

  /** The copies of a key come after those of every key inserted before it: appending a key to
      the order appends its copies to the pool. */
  lemma {:induction false} PoolSnoc(adj: AdjacencyMap, keys: seq<int>, x: int)
    ensures Pool(adj, keys + [x]) == Pool(adj, keys) + Repeat(x, |Lookup(adj, x)|)
  {
    if keys == [] {
      assert Pool(adj, [x]) == Repeat(x, |Lookup(adj, x)|) + Pool(adj, []);
    } else {
      assert (keys + [x])[1..] == keys[1..] + [x];
      PoolSnoc(adj, keys[1..], x);
    }
  }

  lemma {:induction false} RepeatCount(x: int, k: nat)
    ensures forall y :: multiset(Repeat(x, k))[y] == if y == x then k else 0
  {
    if k > 0 {
      RepeatCount(x, k - 1);
    }
  }

  /** With distinct keys, each key occurs in the pool once per neighbour, and nothing else occurs. */
  lemma {:induction false} PoolMultiplicity(adj: AdjacencyMap, keys: seq<int>)
    requires forall i, j :: 0 <= i < j < |keys| ==> keys[i] != keys[j]
    ensures forall x :: multiset(Pool(adj, keys))[x] == if x in keys then |Lookup(adj, x)| else 0
  {
    if keys != [] {
      PoolMultiplicity(adj, keys[1..]);
      RepeatCount(keys[0], |Lookup(adj, keys[0])|);
      forall x
        ensures multiset(Pool(adj, keys))[x] == if x in keys then |Lookup(adj, x)| else 0
      {
        assert keys == [keys[0]] + keys[1..];
        if x == keys[0] {
          assert x !in keys[1..];
        }
      }
    }
  }

  /** The pool the generator samples from once the edges `es` have been added. */
  function PoolOf(es: seq<Edge>): seq<int>
  {
    Pool(Adjacency(es), KeyOrder(es))
  }

  /** A node with a dictionary entry has at least one neighbour. */
  lemma KeyHasNeighbour(es: seq<Edge>, x: int)
    requires x in Adjacency(es)
    ensures Lookup(Adjacency(es), x) != {}
  {
    AdjacencyKeys(es);
    AdjacencyExact(es);
    var i :| 0 <= i < |es| && (es[i].0 == x || es[i].1 == x);
    if es[i].0 == x {
      assert Incident(es, x, es[i].1);
    } else {
      assert Incident(es, x, es[i].0);
    }
  }

  /** Every node with an entry occurs exactly `len(neighbors)` times in the sampling pool; a node
      without one, in particular the node about to be added, does not occur at all. */
  lemma PoolOfMultiplicity(es: seq<Edge>)
    ensures forall x :: multiset(PoolOf(es))[x] == |Lookup(Adjacency(es), x)|
    ensures forall x :: x in PoolOf(es) <==> x in Adjacency(es)
  {
    var adj := Adjacency(es);
    KeyOrderFacts(es);
    PoolMultiplicity(adj, KeyOrder(es));
    forall x
      ensures multiset(PoolOf(es))[x] == |Lookup(adj, x)|
      ensures x in PoolOf(es) <==> x in adj
    {
      if x in adj {
        KeyHasNeighbour(es, x);
      }
    }
  }

  /** `random.sample` returns k entries at k distinct positions below `size`. */
  predicate IsSample(draw: seq<nat>, size: nat, k: nat)
  {
    && |draw| == k
    && (forall j :: 0 <= j < |draw| ==> draw[j] < size)
    && (forall i, j :: 0 <= i < j < |draw| ==> draw[i] != draw[j])
  }

  /** The pool entries at the drawn positions, in draw order. */
  function Sample(pool: seq<int>, draw: seq<nat>): (r: seq<int>)
    requires forall j :: 0 <= j < |draw| ==> draw[j] < |pool|
    ensures |r| == |draw|
    ensures forall j :: 0 <= j < |r| ==> r[j] in pool
  {
    seq(|draw|, j requires 0 <= j < |draw| => pool[draw[j]])
  }

  /** One edge from the new node to each target, in target order. */
  function StepEdges(t: int, targets: seq<int>): seq<Edge>
  {
    seq(|targets|, j requires 0 <= j < |targets| => (t, targets[j]))
  }

  lemma StepSnoc(t: int, targets: seq<int>, j: nat)
    requires j < |targets|
    ensures StepEdges(t, targets[..j + 1]) == StepEdges(t, targets[..j]) + [(t, targets[j])]
  {
  }

  /** The edges after the growth steps for nodes t, t + 1, ..., t + |draws| - 1, starting
      from `es`; None when a draw is not a valid sample of its pool. */
  function Grown(es: seq<Edge>, t: int, d: nat, draws: seq<seq<nat>>): Option<seq<Edge>>
    decreases |draws|
  {
    if draws == [] then Some(es)
    else
      var pool := PoolOf(es);
      if IsSample(draws[0], |pool|, d) then
        Grown(es + StepEdges(t, Sample(pool, draws[0])), t + 1, d, draws[1..])
      else None
  }

  /** Unfolds one growth step: a defined result drew a valid sample first. */
  lemma GrownStep(es: seq<Edge>, t: int, d: nat, draws: seq<seq<nat>>)
    requires draws != [] && Grown(es, t, d, draws).Some?
    ensures IsSample(draws[0], |PoolOf(es)|, d)
    ensures Grown(es, t, d, draws) == Grown(es + StepEdges(t, Sample(PoolOf(es), draws[0])), t + 1, d, draws[1..])
  {
  }

  /** The number of growth steps: one per node d + 1 .. n - 1. */
  function GrowthSteps(n: nat, d: nat): nat
  {
    if n > d + 1 then n - d - 1 else 0
  }

  /** Each growth step appends exactly d edges. */
  lemma {:induction false} GrownLength(es: seq<Edge>, t: int, d: nat, draws: seq<seq<nat>>)
    requires Grown(es, t, d, draws).Some?
    ensures |Grown(es, t, d, draws).value| == |es| + |draws| * d
    decreases |draws|
  {
    if draws != [] {
      GrownStep(es, t, d, draws);
      var next := es + StepEdges(t, Sample(PoolOf(es), draws[0]));
      GrownLength(next, t + 1, d, draws[1..]);
      LengthArith(|es|, d, |draws|);
    }
  }

  /** Growth only appends: the edges it started from stay in place as a prefix. */
  lemma {:induction false} GrownPrefix(es: seq<Edge>, t: int, d: nat, draws: seq<seq<nat>>)
    requires Grown(es, t, d, draws).Some?
    ensures |Grown(es, t, d, draws).value| >= |es|
    ensures Grown(es, t, d, draws).value[..|es|] == es
    decreases |draws|
  {
    if draws != [] {
      GrownStep(es, t, d, draws);
      var next := es + StepEdges(t, Sample(PoolOf(es), draws[0]));
      GrownPrefix(next, t + 1, d, draws[1..]);
      var r := Grown(es, t, d, draws).value;
      assert r[..|es|] == r[..|next|][..|es|];
    }
  }

  /** Arithmetic step kept apart so that the solver does not meet it inside a larger proof. */
  lemma LengthArith(e: nat, d: nat, k: nat)
    requires k > 0
    ensures e + d + (k - 1) * d == e + k * d
  {
  }

  /** Every edge of `es` joins two nodes in [0, t). */
  ghost predicate NodesBelow(es: seq<Edge>, t: int)
  {
    forall i :: 0 <= i < |es| ==> 0 <= es[i].0 < t && 0 <= es[i].1 < t
  }

  /** The pool only holds nodes that already have edges, so all of them lie below t. */
  lemma PoolBelow(es: seq<Edge>, t: int)
    requires NodesBelow(es, t)
    ensures forall x :: x in PoolOf(es) ==> 0 <= x < t
  {
    PoolOfMultiplicity(es);
    AdjacencyKeys(es);
    forall x | x in PoolOf(es)
      ensures 0 <= x < t
    {
      var i :| 0 <= i < |es| && (es[i].0 == x || es[i].1 == x);
    }
  }

  /** One growth step from nodes below t: the new edges go from t to smaller nodes. */
  lemma StepBelow(es: seq<Edge>, t: int, targets: seq<int>)
    requires NodesBelow(es, t)
    requires forall j :: 0 <= j < |targets| ==> targets[j] in PoolOf(es)
    ensures NodesBelow(es + StepEdges(t, targets), t + 1)
    ensures forall j :: 0 <= j < |targets| ==> 0 <= targets[j] < t
  {
    PoolBelow(es, t);
  }

  /** Every growth edge goes from the node being added to a node added before it (so it is never a
      self-loop), and every node stays below the next node id. */
  lemma {:induction false} GrownTargets(es: seq<Edge>, t: int, d: nat, draws: seq<seq<nat>>)
    requires Grown(es, t, d, draws).Some?
    requires NodesBelow(es, t)
    ensures NodesBelow(Grown(es, t, d, draws).value, t + |draws|)
    ensures forall i :: |es| <= i < |Grown(es, t, d, draws).value| ==>
              t <= Grown(es, t, d, draws).value[i].0 && Grown(es, t, d, draws).value[i].1 < Grown(es, t, d, draws).value[i].0
    decreases |draws|
  {
    GrownLength(es, t, d, draws);
    GrownPrefix(es, t, d, draws);
    if draws != [] {
      GrownStep(es, t, d, draws);
      var targets := Sample(PoolOf(es), draws[0]);
      var next := es + StepEdges(t, targets);
      StepBelow(es, t, targets);
      GrownTargets(next, t + 1, d, draws[1..]);
      GrownPrefix(next, t + 1, d, draws[1..]);
      var r := Grown(es, t, d, draws).value;
      forall i | |es| <= i < |r|
        ensures t <= r[i].0 && r[i].1 < r[i].0
      {
        if i < |next| {
          assert r[i] == r[..|next|][i];
          assert next[i] == StepEdges(t, targets)[i - |es|];
        }
      }
    }
  }

  /** The generator's edge list for n nodes and attachment degree d under the given draws. */
  function GeneratedEdges(n: nat, d: nat, draws: seq<seq<nat>>): Option<seq<Edge>>
  {
    Grown(SeedEdges(d), d + 1, d, draws)
  }

  /** Edge count and shape of a generated edge list: C(d + 1, 2) seed edges in lexicographic order,
      then d edges per node d + 1 .. n - 1, each to a smaller node; for n >= d + 1 every node id is
      in [0, n). */
  lemma GeneratedShape(n: nat, d: nat, draws: seq<seq<nat>>)
    requires |draws| == GrowthSteps(n, d)
    requires GeneratedEdges(n, d, draws).Some?
    ensures |GeneratedEdges(n, d, draws).value| == Choose2(d + 1) + GrowthSteps(n, d) * d
    ensures GeneratedEdges(n, d, draws).value[..Choose2(d + 1)] == SeedEdges(d)
    ensures forall i :: Choose2(d + 1) <= i < |GeneratedEdges(n, d, draws).value| ==>
              d + 1 <= GeneratedEdges(n, d, draws).value[i].0 < n &&
              0 <= GeneratedEdges(n, d, draws).value[i].1 < GeneratedEdges(n, d, draws).value[i].0
    ensures n >= d + 1 ==> NodesBelow(GeneratedEdges(n, d, draws).value, n)
  {
    var seed := SeedEdges(d);
    SeedEdgesShape(d);
    assert NodesBelow(seed, d + 1);
    GrownLength(seed, d + 1, d, draws);
    GrownPrefix(seed, d + 1, d, draws);
    GrownTargets(seed, d + 1, d, draws);
    var r := GeneratedEdges(n, d, draws).value;
    assert NodesBelow(r, d + 1 + |draws|);
    if n <= d + 1 {
      assert |draws| == 0 && |r| == |seed|;
    } else {
      assert d + 1 + |draws| == n;
    }
  }
}
