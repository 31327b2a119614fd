/** Shortest-path distances in the graph given by adjacency sets, the vocabulary in which the
    breadth-first search of the diameter heuristic is specified. */
module Distances {
  import opened AdjacencySets

  /** Every neighbour of a node of `b`. */
  ghost function Frontier(adj: AdjacencyMap, b: set<int>): set<int>
  {
    set u, v | u in b && v in Lookup(adj, u) :: v
  }

  /** The nodes reachable from s in at most k steps. */
  ghost function Ball(adj: AdjacencyMap, s: int, k: nat): set<int>
  {
    if k == 0 then {s}
    else Ball(adj, s, k - 1) + Frontier(adj, Ball(adj, s, k - 1))
  }

  /** The shortest path from s to v has exactly d edges. */
  ghost predicate IsDist(adj: AdjacencyMap, s: int, v: int, d: nat)
  {
    v in Ball(adj, s, d) && (d == 0 || v !in Ball(adj, s, d - 1))
  }

  /** One step from a node within k steps lands within k + 1 steps. */
  lemma StepOut(adj: AdjacencyMap, s: int, k: nat, u: int, v: int)
    requires u in Ball(adj, s, k) && v in Lookup(adj, u)
    ensures v in Ball(adj, s, k + 1)
  {
    assert v in Frontier(adj, Ball(adj, s, k));
  }

  /** Balls grow with their radius. */
  lemma {:induction false} BallMono(adj: AdjacencyMap, s: int, i: nat, j: nat)
    requires i <= j
    ensures Ball(adj, s, i) <= Ball(adj, s, j)
    decreases j
  {
    if i < j {
      BallMono(adj, s, i, j - 1);
    }
  }

  /** A node within k steps has a shortest distance, and it is at most k. */
  lemma {:induction false} DistOf(adj: AdjacencyMap, s: int, v: int, k: nat) returns (d: nat)
    requires v in Ball(adj, s, k)
    ensures d <= k && IsDist(adj, s, v, d)
  {
    if k == 0 || v !in Ball(adj, s, k - 1) {
      d := k;
    } else {
      d := DistOf(adj, s, v, k - 1);
    }
  }

  /** The shortest distance is unique. */
  lemma DistUnique(adj: AdjacencyMap, s: int, v: int, a: nat, b: nat)
    requires IsDist(adj, s, v, a) && IsDist(adj, s, v, b)
    ensures a == b
  {
    if a < b {
      BallMono(adj, s, a, b - 1);
    } else if b < a {
      BallMono(adj, s, b, a - 1);
    }
  }

  /** A node within k steps lies no farther than k from s. */
  lemma DistAtMost(adj: AdjacencyMap, s: int, v: int, k: nat, d: nat)
    requires v in Ball(adj, s, k) && IsDist(adj, s, v, d)
    ensures d <= k
  {
    var e := DistOf(adj, s, v, k);
    DistUnique(adj, s, v, d, e);
  }

  /** Going at most a steps to m and then at most b steps from m stays within a + b steps. */
  lemma {:induction false} BallTrans(adj: AdjacencyMap, s: int, m: int, v: int, a: nat, b: nat)
    requires m in Ball(adj, s, a) && v in Ball(adj, m, b)
    ensures v in Ball(adj, s, a + b)
    decreases b
  {
    if b > 0 {
      if v in Ball(adj, m, b - 1) {
        BallTrans(adj, s, m, v, a, b - 1);
        BallMono(adj, s, a + b - 1, a + b);
      } else {
        var u :| u in Ball(adj, m, b - 1) && v in Lookup(adj, u);
        BallTrans(adj, s, m, u, a, b - 1);
        StepOut(adj, s, a + b - 1, u, v);
      }
    }
  }

  /** v is a neighbour of u. */
  ghost predicate Linked(adj: AdjacencyMap, u: int, v: int)
  {
    v in Lookup(adj, u)
  }

  /** Every neighbour relation is symmetric. (Stated over `Linked`, so that it is used only where a
      proof names the link it reverses.) */
  ghost predicate Symmetric(adj: AdjacencyMap)
  {
    forall u, v :: Linked(adj, u, v) ==> Linked(adj, v, u)
  }

  /** In a symmetric graph, v is within k steps of u iff u is within k steps of v. */
  lemma {:induction false} BallSymmetric(adj: AdjacencyMap, u: int, v: int, k: nat)
    requires Symmetric(adj)
    requires v in Ball(adj, u, k)
    ensures u in Ball(adj, v, k)
    decreases k
  {
    if k == 0 {
      assert v == u;
    } else if v in Ball(adj, u, k - 1) {
      BallSymmetric(adj, u, v, k - 1);
      BallGrows(adj, v, u, k);
    } else {
      var x := LastStep(adj, u, v, k);
      BallSymmetric(adj, u, x, k - 1);
      StepFirst(adj, v, x, u, k - 1);
    }
  }

  /** A node within k - 1 steps is within k steps. (Its own lemma only to keep the solver's work
      in BallSymmetric small.) */
  lemma BallGrows(adj: AdjacencyMap, s: int, x: int, k: nat)
    requires k > 0 && x in Ball(adj, s, k - 1)
    ensures x in Ball(adj, s, k)
  {
  }

  /** A node first reached in k steps is a neighbour of a node reached in k - 1. */
  lemma LastStep(adj: AdjacencyMap, s: int, v: int, k: nat) returns (x: int)
    requires k > 0 && v in Ball(adj, s, k) && v !in Ball(adj, s, k - 1)
    ensures x in Ball(adj, s, k - 1) && v in Lookup(adj, x)
  {
    x :| x in Ball(adj, s, k - 1) && v in Lookup(adj, x);
  }

  /** In a symmetric graph, a step from v to its neighbour x followed by at most k steps from x
      stays within k + 1 steps of v. */
  lemma StepFirst(adj: AdjacencyMap, v: int, x: int, u: int, k: nat)
    requires Symmetric(adj) && v in Lookup(adj, x) && u in Ball(adj, x, k)
    ensures u in Ball(adj, v, k + 1)
  {
    assert Linked(adj, x, v);
    StepOut(adj, v, 0, v, x);
    BallTrans(adj, v, x, u, 1, k);
  }

  /** In a symmetric graph the shortest distance from u to v is the one from v to u. */
  lemma DistSymmetric(adj: AdjacencyMap, u: int, v: int, d: nat)
    requires Symmetric(adj)
    requires IsDist(adj, u, v, d)
    ensures IsDist(adj, v, u, d)
  {
    BallSymmetric(adj, u, v, d);
    if d > 0 && u in Ball(adj, v, d - 1) {
      BallSymmetric(adj, v, u, d - 1);
    }
  }

  /** A set that holds s and every neighbour of its members holds every ball around s. */
  lemma {:induction false} ClosedHoldsBall(adj: AdjacencyMap, s: int, c: set<int>, k: nat)
    requires s in c
    requires forall u, v :: u in c && v in Lookup(adj, u) ==> v in c
    ensures Ball(adj, s, k) <= c
  {
    if k > 0 {
      ClosedHoldsBall(adj, s, c, k - 1);
    }
  }

  /** If no node is farther than e from s, every ball around s lies within radius e. */
  lemma BallWithinEccentricity(adj: AdjacencyMap, s: int, e: nat, v: int, k: nat)
    requires forall w, d: nat :: IsDist(adj, s, w, d) ==> d <= e
    requires v in Ball(adj, s, k)
    ensures v in Ball(adj, s, e)
  {
    var d := DistOf(adj, s, v, k);
    BallMono(adj, s, d, e);
  }
}
