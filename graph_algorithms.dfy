/** The three analyses of a graph: the double-sweep diameter estimate, the global clustering
    coefficient and the degree histogram. None of them changes the graph. */
module GraphAlgorithms {
  import opened AdjacencySets
  import opened Distances
  import opened Graphs
  import opened Counting
  import opened Triangles
  import opened Histograms

  /** A breadth-first work queue: (node, distance from the start) pairs, front first. */
  type Queue = seq<(int, nat)>

  /** Distances in the queue never decrease from front to back, and span at most two values. */
  ghost predicate Layered(queue: Queue)
  {
    forall i, j :: 0 <= i <= j < |queue| ==> queue[i].1 <= queue[j].1 <= queue[i].1 + 1
  }

  /** Every queued node is reachable within its queued distance. */
  ghost predicate Reached(adj: AdjacencyMap, start: int, queue: Queue)
  {
    forall k :: 0 <= k < |queue| ==> queue[k].0 in Ball(adj, start, queue[k].1)
  }

  /** Every recorded distance is the shortest one. (Instantiated only where a proof asks about a
      recorded distance, which keeps it from feeding on the neighbour facts.) */
  ghost predicate Exact(adj: AdjacencyMap, start: int, dist: map<int, nat>)
  {
    forall v {:trigger IsDist(adj, start, v, dist[v])} :: v in dist ==> IsDist(adj, start, v, dist[v])
  }

  /** Each neighbour of a visited node is visited or waits in the queue one step further out. */
  ghost predicate FrontierQueued(adj: AdjacencyMap, dist: map<int, nat>, queue: Queue)
  {
    forall u, w :: u in dist && w in Lookup(adj, u) ==> w in dist || (w, dist[u] + 1) in queue
  }

  /** Exact distances of the nodes within L steps are at most L. */
  lemma ExactWithin(adj: AdjacencyMap, start: int, dist: map<int, nat>, L: nat)
    requires Exact(adj, start, dist)
    requires Ball(adj, start, L) <= dist.Keys
    ensures forall u :: u in Ball(adj, start, L) ==> u in dist && dist[u] <= L
  {
    forall u | u in Ball(adj, start, L)
      ensures u in dist && dist[u] <= L
    {
      DistAtMost(adj, start, u, L, dist[u]);
    }
  }

  /** When every node within L - 1 steps is visited, at no more than L - 1, and nothing waits
      in the queue at a distance of L or less, then every node within L steps is visited. */
  lemma BallCovered(adj: AdjacencyMap, start: int, dist: map<int, nat>, queue: Queue, L: nat)
    requires start in dist && FrontierQueued(adj, dist, queue)
    requires forall k :: 0 <= k < |queue| ==> queue[k].1 > L
    requires L > 0 ==> forall u :: u in Ball(adj, start, L - 1) ==> u in dist && dist[u] <= L - 1
    ensures Ball(adj, start, L) <= dist.Keys
  {
    if L > 0 {
      forall w | w in Ball(adj, start, L)
        ensures w in dist
      {
        var inner := Ball(adj, start, L - 1);
        if w !in inner {
          assert w in Frontier(adj, inner);
          var u :| u in inner && w in Lookup(adj, u);
          forall k | 0 <= k < |queue|
            ensures queue[k] != (w, dist[u] + 1)
          {
          }
        }
      }
    }
  }

  /** The node at the front, not yet visited, is at exactly its queued distance: it is reachable
      within that distance, and everything nearer is visited already. */
  lemma FrontIsExact(adj: AdjacencyMap, start: int, dist: map<int, nat>, queue: Queue)
    requires queue != [] && Reached(adj, start, queue) && queue[0].0 !in dist
    requires queue[0].1 > 0 ==> Ball(adj, start, queue[0].1 - 1) <= dist.Keys
    ensures IsDist(adj, start, queue[0].0, queue[0].1)
  {
  }

  /** Dropping the front entry, once its node is visited, keeps every visited node's neighbours
      visited or queued. */
  lemma PopFrontier(adj: AdjacencyMap, dist: map<int, nat>, queue: Queue, dist': map<int, nat>)
    requires FrontierQueued(adj, dist, queue) && queue != []
    requires dist.Keys <= dist'.Keys && queue[0].0 in dist'
    ensures forall u, w :: u in dist && w in Lookup(adj, u) ==> w in dist' || (w, dist[u] + 1) in queue[1..]
  {
    forall u, w | u in dist && w in Lookup(adj, u) && w !in dist'
      ensures (w, dist[u] + 1) in queue[1..]
    {
      var k :| 0 <= k < |queue| && queue[k] == (w, dist[u] + 1);
      assert k > 0 && queue[1..][k - 1] == queue[k];
    }
  }

  /** After a step that popped an entry at distance L, the nodes nearer than the new front are
      all visited. */
  lemma FrontAdvance(adj: AdjacencyMap, start: int, dist: map<int, nat>, queue: Queue, L: nat)
    requires start in dist && Exact(adj, start, dist) && FrontierQueued(adj, dist, queue)
    requires Layered(queue) && forall k :: 0 <= k < |queue| ==> L <= queue[k].1 <= L + 1
    requires L > 0 ==> Ball(adj, start, L - 1) <= dist.Keys
    ensures queue != [] && queue[0].1 > 0 ==> Ball(adj, start, queue[0].1 - 1) <= dist.Keys
  {
    if queue != [] && queue[0].1 == L + 1 {
      if L > 0 {
        ExactWithin(adj, start, dist, L - 1);
      }
      BallCovered(adj, start, dist, queue, L);
    }
  }

  /** Once the queue is empty, the visited nodes are exactly those reachable from the start, so the
      largest recorded distance is the start's eccentricity. */
  lemma SearchComplete(adj: AdjacencyMap, start: int, dist: map<int, nat>, farthest: int, maxDistance: nat)
    requires start in dist && Exact(adj, start, dist) && FrontierQueued(adj, dist, [])
    requires forall v :: v in dist ==> dist[v] <= maxDistance
    requires farthest in dist && dist[farthest] == maxDistance
    ensures IsDist(adj, start, farthest, maxDistance)
    ensures forall v, d: nat :: IsDist(adj, start, v, d) ==> d <= maxDistance
  {
    forall v, d: nat | IsDist(adj, start, v, d)
      ensures d <= maxDistance
    {
      ClosedHoldsBall(adj, start, dist.Keys, d);
      DistUnique(adj, start, v, d, dist[v]);
    }
  }

  /** Popping the front at distance L leaves a layered queue whose distances lie in [L, L + 1]. */
  lemma PopLayered(adj: AdjacencyMap, start: int, queue: Queue)
    requires queue != [] && Layered(queue) && Reached(adj, start, queue)
    ensures Layered(queue[1..]) && Reached(adj, start, queue[1..])
    ensures forall k :: 0 <= k < |queue[1..]| ==> queue[0].1 <= queue[1..][k].1 <= queue[0].1 + 1
  {
    forall k | 0 <= k < |queue[1..]|
      ensures queue[0].1 <= queue[1..][k].1 <= queue[0].1 + 1
    {
      assert queue[1..][k] == queue[k + 1];
    }
  }

  /** Appending neighbours of a node reached within L steps, at distance L + 1, to a layered queue
      whose distances lie in [L, L + 1] keeps it so. */
  lemma PushLayered(adj: AdjacencyMap, start: int, node: int, L: nat, queue: Queue, queue': Queue)
    requires Layered(queue) && Reached(adj, start, queue)
    requires forall k :: 0 <= k < |queue| ==> L <= queue[k].1 <= L + 1
    requires node in Ball(adj, start, L)
    requires |queue'| >= |queue| && queue'[..|queue|] == queue
    requires forall k :: |queue| <= k < |queue'| ==> queue'[k].0 in Lookup(adj, node) && queue'[k].1 == L + 1
    ensures Layered(queue') && Reached(adj, start, queue')
    ensures forall k :: 0 <= k < |queue'| ==> L <= queue'[k].1 <= L + 1
  {
    forall k | 0 <= k < |queue'|
      ensures queue'[k].0 in Ball(adj, start, queue'[k].1) && L <= queue'[k].1 <= L + 1
    {
      if k < |queue| {
        assert queue'[k] == queue[k];
      } else {
        StepOut(adj, start, L, node, queue'[k].0);
      }
    }
    forall i, j | 0 <= i <= j < |queue'|
      ensures queue'[i].1 <= queue'[j].1 <= queue'[i].1 + 1
    {
      if j < |queue| {
        assert queue'[i] == queue[i] && queue'[j] == queue[j];
      }
    }
  }

  /** After visiting `node` at distance L and enqueueing its unvisited neighbours, every visited
      node's neighbours are visited or queued one step further out. */
  lemma VisitFrontier(adj: AdjacencyMap, dist0: map<int, nat>, node: int, L: nat, queue: Queue, queue': Queue)
    requires forall u, w :: u in dist0 && w in Lookup(adj, u) ==> w in dist0[node := L] || (w, dist0[u] + 1) in queue
    requires |queue'| >= |queue| && queue'[..|queue|] == queue
    requires forall w :: w in Lookup(adj, node) && w !in dist0 && w != node ==> (w, L + 1) in queue'
    ensures FrontierQueued(adj, dist0[node := L], queue')
  {
    var dist := dist0[node := L];
    forall u, w | u in dist && w in Lookup(adj, u) && w !in dist
      ensures (w, dist[u] + 1) in queue'
    {
      if u != node {
        var k :| 0 <= k < |queue| && queue[k] == (w, dist0[u] + 1);
        assert queue'[k] == queue[k];
      }
    }
  }

  /** The inner loop of `bfs_longest_path`: appends (w, distance + 1) for every neighbour w of
      `node` that is not visited, each once, in the order the neighbour set is iterated. */
  method EnqueueNeighbors(g: Graph, node: int, distance: nat, visited: set<int>, queue: Queue) returns (queue': Queue)
    requires g.Valid()
    ensures |queue'| >= |queue| && queue'[..|queue|] == queue
    ensures forall k :: |queue| <= k < |queue'| ==>
              queue'[k].0 in Lookup(g.adjacency, node) && queue'[k].0 !in visited && queue'[k].1 == distance + 1
    ensures forall i, j :: |queue| <= i < j < |queue'| ==> queue'[i].0 != queue'[j].0
    ensures forall w :: w in Lookup(g.adjacency, node) && w !in visited ==> (w, distance + 1) in queue'
  {
    var neighbors := g.Neighbors(node);
    var rest := neighbors;
    queue' := queue;
    while rest != {}
      invariant rest <= neighbors
      invariant |queue'| >= |queue| && queue'[..|queue|] == queue
      invariant forall k :: |queue| <= k < |queue'| ==>
                  queue'[k].0 in neighbors && queue'[k].0 !in rest && queue'[k].0 !in visited && queue'[k].1 == distance + 1
      invariant forall i, j :: |queue| <= i < j < |queue'| ==> queue'[i].0 != queue'[j].0
      invariant forall w :: w in neighbors && w !in rest && w !in visited ==> (w, distance + 1) in queue'
      decreases rest
    {
      Inhabited(rest);
      var neighbor :| neighbor in rest;
      rest := rest - {neighbor};
      if neighbor !in visited {
        queue' := queue' + [(neighbor, distance + 1)];
      }
    }
  }

  /** What holds between the steps of the search from `start`: `dist` maps each visited node to
      its shortest distance, the queue is layered, every queued node is reachable within its
      distance, every neighbour of a visited node is visited or queued, and everything nearer
      than the front is visited. All nodes stay within `universe`. */
  ghost predicate SearchState(adj: AdjacencyMap, start: int, universe: set<int>, dist: map<int, nat>, queue: Queue)
  {
    && dist.Keys <= universe
    && (forall k :: 0 <= k < |queue| ==> queue[k].0 in universe)
    && (start in dist || (dist == map[] && queue == [(start, 0)]))
    && Layered(queue) && Reached(adj, start, queue)
    && Exact(adj, start, dist) && FrontierQueued(adj, dist, queue)
    && (queue != [] && queue[0].1 > 0 ==> Ball(adj, start, queue[0].1 - 1) <= dist.Keys)
  }

  /** Popping an entry whose node is already visited. */
  lemma SkipStep(adj: AdjacencyMap, start: int, universe: set<int>, dist: map<int, nat>, queue: Queue)
    requires SearchState(adj, start, universe, dist, queue)
    requires queue != [] && queue[0].0 in dist
    ensures SearchState(adj, start, universe, dist, queue[1..])
  {
    PopLayered(adj, start, queue);
    PopFrontier(adj, dist, queue, dist);
    PopWithin(universe, queue);
    FrontAdvance(adj, start, dist, queue[1..], queue[0].1);
  }

  /** Dropping the front entry keeps every queued node within the universe. */
  lemma PopWithin(universe: set<int>, queue: Queue)
    requires queue != [] && forall k :: 0 <= k < |queue| ==> queue[k].0 in universe
    ensures forall k :: 0 <= k < |queue[1..]| ==> queue[1..][k].0 in universe
  {
    forall k | 0 <= k < |queue[1..]|
      ensures queue[1..][k].0 in universe
    {
      assert queue[1..][k] == queue[k + 1];
    }
  }

  /** Popping an entry (node, L) whose node is new: the node is recorded at L, which is its
      shortest distance, and its unvisited neighbours are appended at L + 1. */
  lemma VisitStep(adj: AdjacencyMap, start: int, universe: set<int>, dist: map<int, nat>, queue: Queue,
                  node: int, L: nat, queue': Queue)
    requires SearchState(adj, start, universe, dist, queue)
    requires queue != [] && queue[0] == (node, L) && node !in dist
    requires Lookup(adj, node) <= universe
    requires |queue'| >= |queue[1..]| && queue'[..|queue[1..]|] == queue[1..]
    requires forall k :: |queue[1..]| <= k < |queue'| ==> queue'[k].0 in Lookup(adj, node) && queue'[k].1 == L + 1
    requires forall w :: w in Lookup(adj, node) && w !in dist && w != node ==> (w, L + 1) in queue'
    ensures IsDist(adj, start, node, L)
    ensures SearchState(adj, start, universe, dist[node := L], queue')
  {
    var dist' := dist[node := L];
    assert IsDist(adj, start, node, L) && Exact(adj, start, dist') by {
      FrontIsExact(adj, start, dist, queue);
    }
    assert FrontierQueued(adj, dist', queue') by {
      PopFrontier(adj, dist, queue, dist');
      VisitFrontier(adj, dist, node, L, queue[1..], queue');
    }
    assert Layered(queue') && Reached(adj, start, queue') && forall k :: 0 <= k < |queue'| ==> L <= queue'[k].1 <= L + 1 by {
      PopLayered(adj, start, queue);
      PushLayered(adj, start, node, L, queue[1..], queue');
    }
    assert forall k :: 0 <= k < |queue'| ==> queue'[k].0 in universe by {
      forall k | 0 <= k < |queue'|
        ensures queue'[k].0 in universe
      {
        if k < |queue[1..]| {
          assert queue'[k] == queue[1..][k] == queue[k + 1];
        }
      }
    }
    FrontAdvance(adj, start, dist', queue', L);
  }

  /** Visiting a node of the universe not visited before leaves fewer nodes to visit. */
  lemma VisitShrinks(universe: set<int>, visited: set<int>, x: int)
    requires x in universe && x !in visited
    ensures |universe - (visited + {x})| < |universe - visited|
  {
    assert universe - (visited + {x}) == (universe - visited) - {x};
  }

  /** The running maximum of the search: no recorded distance exceeds `maxDistance`, which is the
      recorded distance of `farthest`; before the first visit they are the start and 0, and the
      maximum stays 0 only while `farthest` is the start. */
  ghost predicate RunningMax(dist: map<int, nat>, start: int, farthest: int, maxDistance: nat)
  {
    && (forall v :: v in dist ==> dist[v] <= maxDistance)
    && (dist == map[] ==> farthest == start && maxDistance == 0)
    && (dist != map[] ==> farthest in dist && dist[farthest] == maxDistance)
    && (maxDistance == 0 ==> farthest == start)
  }

  /** Recording a new node at distance d updates the maximum only when d exceeds it. */
  lemma RecordVisit(dist: map<int, nat>, start: int, farthest: int, maxDistance: nat, node: int, d: nat,
                    farthest': int, maxDistance': nat)
    requires RunningMax(dist, start, farthest, maxDistance) && node !in dist
    requires start in dist || (dist == map[] && node == start && d == 0)
    requires (farthest', maxDistance') == if d > maxDistance then (node, d) else (farthest, maxDistance)
    ensures RunningMax(dist[node := d], start, farthest', maxDistance')
  {
  }

  /** Everything the search loop keeps: every neighbour lies in `universe`, the search state
      holds, `visited` is the set of recorded nodes and the running maximum is kept. */
  ghost predicate Searching(adj: AdjacencyMap, start: int, universe: set<int>, visited: set<int>,
                            dist: map<int, nat>, queue: Queue, farthest: int, maxDistance: nat)
  {
    && (forall u, v :: v in Lookup(adj, u) ==> v in universe)
    && SearchState(adj, start, universe, dist, queue) && visited == dist.Keys
    && RunningMax(dist, start, farthest, maxDistance)
  }

  /** The search begins with only the start queued, at distance 0. */
  lemma SearchBegins(adj: AdjacencyMap, start: int, universe: set<int>)
    requires start in universe && forall u, v :: v in Lookup(adj, u) ==> v in universe
    ensures Searching(adj, start, universe, {}, map[], [(start, 0)], start, 0)
  {
  }

  /** Popping an entry whose node is new: recording it, enqueueing its unvisited neighbours and
      updating the maximum keeps the loop's state and leaves fewer nodes to visit. */
  lemma VisitNext(adj: AdjacencyMap, start: int, universe: set<int>, visited: set<int>, dist: map<int, nat>,
                  queue: Queue, farthest: int, maxDistance: nat, node: int, L: nat, next: Queue,
                  farthest': int, maxDistance': nat)
    requires Searching(adj, start, universe, visited, dist, queue, farthest, maxDistance)
    requires queue != [] && queue[0] == (node, L) && node !in visited
    requires |next| >= |queue[1..]| && next[..|queue[1..]|] == queue[1..]
    requires forall k :: |queue[1..]| <= k < |next| ==>
               next[k].0 in Lookup(adj, node) && next[k].0 !in visited + {node} && next[k].1 == L + 1
    requires forall w :: w in Lookup(adj, node) && w !in visited + {node} ==> (w, L + 1) in next
    requires (farthest', maxDistance') == if L > maxDistance then (node, L) else (farthest, maxDistance)
    ensures Searching(adj, start, universe, visited + {node}, dist[node := L], next, farthest', maxDistance')
    ensures |universe - (visited + {node})| < |universe - visited|
  {
    assert Lookup(adj, node) <= universe by {
      forall v | v in Lookup(adj, node)
        ensures v in universe
      {
      }
    }
    assert SearchState(adj, start, universe, dist[node := L], next) by {
      VisitStep(adj, start, universe, dist, queue, node, L, next);
    }
    assert RunningMax(dist[node := L], start, farthest', maxDistance') by {
      RecordVisit(dist, start, farthest, maxDistance, node, L, farthest', maxDistance');
    }
    assert node in universe;
    VisitShrinks(universe, visited, node);
  }

  /** Popping an entry whose node is visited already changes nothing else. */
  lemma SkipNext(adj: AdjacencyMap, start: int, universe: set<int>, visited: set<int>, dist: map<int, nat>,
                 queue: Queue, farthest: int, maxDistance: nat)
    requires Searching(adj, start, universe, visited, dist, queue, farthest, maxDistance)
    requires queue != [] && queue[0].0 in visited
    ensures Searching(adj, start, universe, visited, dist, queue[1..], farthest, maxDistance)
  {
    SkipStep(adj, start, universe, dist, queue);
  }

  /** Once the queue is empty, the running maximum is the start's eccentricity. */
  lemma SearchEnds(adj: AdjacencyMap, start: int, universe: set<int>, visited: set<int>, dist: map<int, nat>,
                   farthest: int, maxDistance: nat)
    requires Searching(adj, start, universe, visited, dist, [], farthest, maxDistance)
    ensures IsDist(adj, start, farthest, maxDistance)
    ensures forall v, d: nat :: IsDist(adj, start, v, d) ==> d <= maxDistance
    ensures maxDistance == 0 ==> farthest == start
  {
    SearchComplete(adj, start, dist, farthest, maxDistance);
  }

  /** `bfs_longest_path`: breadth-first search from `start` over a work queue of (node, distance)
      pairs, returning a node at the largest distance reached and that distance. The neighbours of a
      node are enqueued in an arbitrary order, as a set is iterated. */
  method BfsLongestPath(g: Graph, start: int) returns (farthest: int, maxDistance: nat)
    requires g.Valid()
    ensures IsDist(g.adjacency, start, farthest, maxDistance)
    ensures forall v, d: nat :: IsDist(g.adjacency, start, v, d) ==> d <= maxDistance
    ensures maxDistance == 0 ==> farthest == start
  {
    ghost var adj := g.adjacency;
    ghost var universe := {start} + adj.Keys;
    assert forall u, v :: v in Lookup(adj, u) ==> v in universe by {
      AdjacencyKeys(g.edges);
    }
    var visited: set<int> := {};
    var queue: Queue := [(start, 0)];
    farthest, maxDistance := start, 0;
    ghost var dist: map<int, nat> := map[];
    SearchBegins(adj, start, universe);
    while queue != []
      invariant Searching(adj, start, universe, visited, dist, queue, farthest, maxDistance)
      decreases |universe - visited|, |queue|
    {
      var (node, distance) := queue[0];
      if node !in visited {
        ghost var (farthest0, max0) := (farthest, maxDistance);
        if distance > maxDistance {
          farthest, maxDistance := node, distance;
        }
        var next := EnqueueNeighbors(g, node, distance, visited + {node}, queue[1..]);
        VisitNext(adj, start, universe, visited, dist, queue, farthest0, max0, node, distance, next,
                  farthest, maxDistance);
        queue := next;
        visited := visited + {node};
        dist := dist[node := distance];
      } else {
        SkipNext(adj, start, universe, visited, dist, queue, farthest, maxDistance);
        queue := queue[1..];
      }
    }
    SearchEnds(adj, start, universe, visited, dist, farthest, maxDistance);
  }

  /** No node is farther than e from s. */
  ghost predicate WithinReach(adj: AdjacencyMap, s: int, e: nat)
  {
    forall v, d: nat :: IsDist(adj, s, v, d) ==> d <= e
  }

  /** In a symmetric graph, two nodes of s's component lie at most 2 * e0 apart when no node is
      farther than e0 from s: the way through s is that long at most. */
  lemma ThroughCentre(adj: AdjacencyMap, s: int, e0: nat, u: int, v: int, du: nat, d: nat)
    requires Symmetric(adj) && WithinReach(adj, s, e0)
    requires IsDist(adj, s, u, du) && IsDist(adj, u, v, d)
    ensures d <= 2 * e0
  {
    assert v in Ball(adj, s, e0) by {
      BallTrans(adj, s, u, v, du, d);
      BallWithinEccentricity(adj, s, e0, v, du + d);
    }
    assert s in Ball(adj, u, e0) by {
      BallSymmetric(adj, s, u, du);
      BallMono(adj, u, du, e0);
    }
    BallTrans(adj, u, s, v, e0, e0);
    DistAtMost(adj, u, v, 2 * e0, d);
  }

  /** The double sweep: if a lies at s's eccentricity e0, and the second search finds a's
      eccentricity `diameter`, then e0 <= diameter <= 2 * e0, and no two nodes of s's component are
      farther apart than 2 * e0. */
  lemma DoubleSweep(adj: AdjacencyMap, s: int, a: int, e0: nat, b: int, diameter: nat)
    requires Symmetric(adj)
    requires IsDist(adj, s, a, e0) && WithinReach(adj, s, e0)
    requires IsDist(adj, a, b, diameter) && WithinReach(adj, a, diameter)
    ensures e0 <= diameter <= 2 * e0
    ensures forall u, v, du: nat, d: nat :: IsDist(adj, s, u, du) && IsDist(adj, u, v, d) ==> d <= 2 * e0
  {
    DistSymmetric(adj, s, a, e0);
    ThroughCentre(adj, s, e0, a, b, e0, diameter);
    forall u, v, du: nat, d: nat | IsDist(adj, s, u, du) && IsDist(adj, u, v, d)
      ensures d <= 2 * e0
    {
      ThroughCentre(adj, s, e0, u, v, du, d);
    }
  }

  /** `get_diameter`: 0 for a graph without nodes; otherwise a search from node 0 finds a farthest
      node a, and a second search from a returns a's eccentricity. The result is a true distance in
      the graph, at least node 0's eccentricity, and at least half of any distance between two
      nodes of node 0's component. */
  method GetDiameter(g: Graph) returns (diameter: nat, ghost a: int, ghost e0: nat)
    requires g.Valid()
    ensures g.NumNodes() == 0 ==> diameter == 0
    ensures g.NumNodes() > 0 ==> IsDist(g.adjacency, 0, a, e0) && WithinReach(g.adjacency, 0, e0)
    ensures g.NumNodes() > 0 ==> WithinReach(g.adjacency, a, diameter) && exists b :: IsDist(g.adjacency, a, b, diameter)
    ensures g.NumNodes() > 0 ==> e0 <= diameter <= 2 * e0
    ensures g.NumNodes() > 0 ==> forall u, v, du: nat, d: nat ::
              IsDist(g.adjacency, 0, u, du) && IsDist(g.adjacency, u, v, d) ==> d <= 2 * diameter
  {
    var firstNode := 0;
    if g.NumNodes() == 0 {
      return 0, firstNode, 0;
    }
    var farthestNode, maxDistance := BfsLongestPath(g, firstNode);
    var farthest2;
    farthest2, diameter := BfsLongestPath(g, farthestNode);
    a, e0 := farthestNode, maxDistance;
    assert Symmetric(g.adjacency) by {
      AdjacencySymmetric(g.edges);
    }
    DoubleSweep(g.adjacency, firstNode, a, e0, farthest2, diameter);
  }

  /** The triangles through the nodes 0 .. n - 1: for each, the linked pairs among its neighbours. */
  ghost function TrianglesBelow(adj: AdjacencyMap, n: nat): nat
  {
    if n == 0 then 0 else TrianglesBelow(adj, n - 1) + |LinkedAmong(adj, Lookup(adj, n - 1))|
  }

  /** The paths of two edges centred at the nodes 0 .. n - 1: C(k, 2) for a node of degree k. */
  function TwoPathsBelow(adj: AdjacencyMap, n: nat): nat
  {
    if n == 0 then 0 else TwoPathsBelow(adj, n - 1) + Choose2(|Lookup(adj, n - 1)|)
  }

  /** Every triangle through a node closes one of the two-edge paths centred there. */
  lemma {:induction false} TrianglesWithinTwoPaths(adj: AdjacencyMap, n: nat)
    requires Symmetric(adj)
    ensures TrianglesBelow(adj, n) <= TwoPathsBelow(adj, n)
  {
    if n > 0 {
      TrianglesWithinTwoPaths(adj, n - 1);
      LinkedAmongBound(adj, Lookup(adj, n - 1));
    }
  }

  /** The global clustering coefficient over the nodes 0 .. n - 1: closed two-edge paths over all
      two-edge paths, and 0 when there are none. */
  ghost function Coefficient(adj: AdjacencyMap, n: nat): real
  {
    if TwoPathsBelow(adj, n) == 0 then 0.0 else TrianglesBelow(adj, n) as real / TwoPathsBelow(adj, n) as real
  }

  /** The coefficient is a fraction between 0 and 1, and it is 0 exactly when no triangle closes. */
  lemma CoefficientBounds(adj: AdjacencyMap, n: nat)
    requires Symmetric(adj)
    ensures 0.0 <= Coefficient(adj, n) <= 1.0
    ensures Coefficient(adj, n) == 0.0 <==> TrianglesBelow(adj, n) == 0
  {
    TrianglesWithinTwoPaths(adj, n);
    if TwoPathsBelow(adj, n) > 0 {
      FractionBounds(TrianglesBelow(adj, n) as real, TwoPathsBelow(adj, n) as real);
    }
  }

  /** A quotient of a part by a positive whole lies in [0, 1] and is 0 only for an empty part.
      (Its own lemma only to keep the real arithmetic out of CoefficientBounds.) */
  lemma FractionBounds(t: real, p: real)
    requires 0.0 <= t <= p && p > 0.0
    ensures 0.0 <= t / p <= 1.0
    ensures t / p == 0.0 <==> t == 0.0
  {
  }

  /** `list(s)`: the elements of a set, each once, in the order the set is iterated. */
  method ListOf(s: set<int>) returns (ns: seq<int>)
    ensures Distinct(ns) && Elements(ns) == s && |ns| == |s|
  {
    ns := [];
    var rest := s;
    while rest != {}
      invariant rest <= s && Distinct(ns) && Elements(ns) == s - rest && |ns| + |rest| == |s|
      decreases rest
    {
      Inhabited(rest);
      var x :| x in rest;
      DistinctSnoc(ns, x);
      ns := ns + [x];
      rest := rest - {x};
    }
  }

  /** The inner loop of `get_clustering_coefficient`: over `combinations(ns, 2)`, counts the pairs
      (u, v) where v is a neighbour of u. */
  method CountClosedPairs(g: Graph, ns: seq<int>) returns (count: nat)
    requires g.Valid()
    ensures count == Pairs(g.adjacency, ns)
  {
    count := 0;
    assert ns[0..] == ns;
    for i := 0 to |ns|
      invariant count + Pairs(g.adjacency, ns[i..]) == Pairs(g.adjacency, ns)
    {
      var u := ns[i];
      ghost var before := count;
      for j := i + 1 to |ns|
        invariant count == before + Links(g.adjacency, u, ns[i + 1..j])
      {
        var v := ns[j];
        if v in g.Neighbors(u) {
          count := count + 1;
        }
        SliceSnoc(ns, i + 1, j);
        LinksSnoc(g.adjacency, u, ns[i + 1..j], v);
      }
      PairsSuffix(g.adjacency, ns, i);
    }
  }

  /** `get_clustering_coefficient`: sums C(k, 2) over the nodes 0 .. numNodes - 1 of degree k, and
      the linked pairs among each node's neighbours; the quotient lies in [0, 1], and is 0 exactly
      when no triangle closes. */
  method GetClusteringCoefficient(g: Graph) returns (c: real)
    requires g.Valid()
    ensures c == Coefficient(g.adjacency, g.numNodes)
    ensures 0.0 <= c <= 1.0
    ensures c == 0.0 <==> TrianglesBelow(g.adjacency, g.numNodes) == 0
  {
    assert Symmetric(g.adjacency) by {
      AdjacencySymmetric(g.edges);
    }
    var triangles, twoPaths := 0, 0;
    for node := 0 to g.NumNodes()
      invariant triangles == TrianglesBelow(g.adjacency, node)
      invariant twoPaths == TwoPathsBelow(g.adjacency, node)
    {
      var neighbors := ListOf(g.Neighbors(node));
      var numNeighbors := |neighbors|;
      Choose2ClosedForm(numNeighbors);
      twoPaths := twoPaths + numNeighbors * (numNeighbors - 1) / 2;
      var closed := CountClosedPairs(g, neighbors);
      PairsAsSet(g.adjacency, neighbors);
      triangles := triangles + closed;
    }
    CoefficientBounds(g.adjacency, g.numNodes);
    if twoPaths == 0 {
      return 0.0;
    }
    c := triangles as real / twoPaths as real;
  }

  /** `get_degree_distribution`: counts the nodes 0 .. numNodes - 1 by degree, then lists the counts
      in ascending order of degree. Every degree that occurs is listed once with its count, no other
      degree is listed, and the counts add up to the number of nodes. */
  method GetDegreeDistribution(g: Graph) returns (distribution: Items)
    requires g.Valid()
    ensures Ascending(distribution)
    ensures forall k: nat, c: nat :: (k, c) in distribution <==> c == DegreeCount(g.adjacency, g.numNodes, k) && c > 0
    ensures Total(distribution) == g.numNodes
    ensures g.numNodes == 0 ==> distribution == []
  {
    var degreeCount: map<nat, nat> := map[];
    for node := 0 to g.NumNodes()
      invariant forall k :: k in degreeCount <==> DegreeCount(g.adjacency, node, k) > 0
      invariant forall k :: k in degreeCount ==> degreeCount[k] == DegreeCount(g.adjacency, node, k)
    {
      var degree := |g.Neighbors(node)|;
      if degree !in degreeCount {
        degreeCount := degreeCount[degree := 0];
      }
      degreeCount := degreeCount[degree := degreeCount[degree] + 1];
    }
    distribution := SortedItems(degreeCount);
    HistogramTotal(g.adjacency, g.numNodes, distribution);
  }
}
