/** An undirected graph over node ids, built from an edge list, and the Barabási–Albert
    generator that grows one. */
module Graphs {
  import opened AdjacencySets
  import opened Counting
  import opened BarabasiAlbert

  class Graph {
    const numNodes: nat
    const edges: seq<Edge>
    var adjacency: AdjacencyMap

    /** The neighbour sets are the ones the edge list determines. */
    ghost predicate Valid()
      reads this
    {
      adjacency == Adjacency(edges)
    }

    /** Keeps the node count and the edge list as given and inserts both directions of every edge. */
    constructor (n: nat, es: seq<Edge>)
      ensures Valid()
      ensures numNodes == n && edges == es
      ensures NumNodes() == n && NumEdges() == |es|
    {
      numNodes := n;
      edges := es;
      adjacency := map[];
      new;
      for i := 0 to |es|
        invariant adjacency == Adjacency(es[..i])
      {
        var (u, v) := es[i];
        assert es[..i + 1] == es[..i] + [(u, v)];
        AdjacencySnoc(es[..i], u, v);
        adjacency := Add(adjacency, u, v);
        adjacency := Add(adjacency, v, u);
      }
      assert es[..|es|] == es;
    }

    /** The node count fixed at construction. It is not derived from the edges: nodes that no
        edge touches count, and edge endpoints need not lie below it. */
    function NumNodes(): (r: nat)
      ensures r == numNodes
    {
      numNodes
    }

    /** The length of the edge list, duplicates included: 0 exactly when no node has an entry in
        the neighbour dictionary. */
    function NumEdges(): (r: nat)
      reads this
      ensures r == |edges|
      ensures Valid() ==> (r == 0 <==> adjacency == map[])
    {
      AdjacencyKeys(edges);
      if |edges| > 0 then
        assert Endpoint(edges, edges[0].0);
        |edges|
      else
        |edges|
    }

    /** The neighbour set of a node: exactly the nodes some edge joins it to, and the empty set
        for a node that no edge touches. */
    function Neighbors(node: int): (r: set<int>)
      reads this
      requires Valid()
      ensures forall v :: v in r <==> Incident(edges, node, v)
      ensures r == {} <==> forall i :: 0 <= i < |edges| ==> edges[i].0 != node && edges[i].1 != node
    {
      AdjacencyExact(edges);
      NoEdgeNoNeighbour(edges, node);
      Lookup(adjacency, node)
    }

    /** The generator: the complete graph on 0..d, then, for every node d + 1 .. n - 1, one edge to
        the pool entry at each position of that step's draw. The draws stand for what
        `random.sample` returns: d distinct positions below the pool's length. */
    static method GenerateBarabasiAlbert(n: nat, d: nat, draws: seq<seq<nat>>) returns (g: Graph)
      requires |draws| == GrowthSteps(n, d)
      requires GeneratedEdges(n, d, draws).Some?
      ensures g.Valid() && g.numNodes == n
      ensures GeneratedEdges(n, d, draws) == Some(g.edges)
      ensures |g.edges| == Choose2(d + 1) + GrowthSteps(n, d) * d
      ensures g.edges[..Choose2(d + 1)] == SeedEdges(d)
      ensures forall i :: Choose2(d + 1) <= i < |g.edges| ==>
                d + 1 <= g.edges[i].0 < n && 0 <= g.edges[i].1 < g.edges[i].0
    {
      var edges, adjacency, keys := CompleteSeed(d);
      edges, adjacency, keys := Grow(edges, adjacency, keys, d + 1, d, draws);
      GeneratedShape(n, d, draws);
      g := new Graph(n, edges);
    }
  }

  /** The seed: the complete graph on 0..d, each pair u < v inserted once, rows in ascending u,
      together with the generator's dictionary and the order in which its keys first appeared. */
  method CompleteSeed(d: nat) returns (edges: seq<Edge>, adjacency: AdjacencyMap, keys: seq<int>)
    ensures edges == SeedEdges(d)
    ensures adjacency == Adjacency(edges) && keys == KeyOrder(edges)
  {
    edges, adjacency, keys := [], map[], [];
    for u := 0 to d + 1
      invariant edges == SeedRows(u, d)
      invariant adjacency == Adjacency(edges) && keys == KeyOrder(edges)
    {
      edges, adjacency, keys := AttachRow(edges, adjacency, keys, u, d);
    }
  }

  /** One row of the seed: the edges (u, u + 1), ..., (u, d), inserted in that order. */
  method AttachRow(edges: seq<Edge>, adjacency: AdjacencyMap, keys: seq<int>, u: int, d: int)
    returns (edges': seq<Edge>, adjacency': AdjacencyMap, keys': seq<int>)
    requires u < d + 1
    requires adjacency == Adjacency(edges) && keys == KeyOrder(edges)
    ensures edges' == edges + Row(u, u + 1, d + 1)
    ensures adjacency' == Adjacency(edges') && keys' == KeyOrder(edges')
  {
    edges', adjacency', keys' := edges, adjacency, keys;
    for v := u + 1 to d + 1
      invariant edges' == edges + Row(u, u + 1, v)
      invariant adjacency' == Adjacency(edges') && keys' == KeyOrder(edges')
    {
      ghost var before := edges';
      edges' := edges' + [(u, v)];
      adjacency' := Add(adjacency', u, v);
      keys' := AddKey(keys', u);
      adjacency' := Add(adjacency', v, u);
      keys' := AddKey(keys', v);
      AdjacencySnoc(before, u, v);
      KeyOrderSnoc(before, u, v);
      RowSnoc(u, u + 1, v);
      SnocAssoc(edges, Row(u, u + 1, v), (u, v));
    }
  }

  /** The growth loop: attaches the nodes t, t + 1, ..., one draw each. */
  method Grow(edges: seq<Edge>, adjacency: AdjacencyMap, keys: seq<int>, t: int, d: nat, draws: seq<seq<nat>>)
    returns (edges': seq<Edge>, adjacency': AdjacencyMap, keys': seq<int>)
    requires adjacency == Adjacency(edges) && keys == KeyOrder(edges)
    requires Grown(edges, t, d, draws).Some?
    ensures Grown(edges, t, d, draws) == Some(edges')
    ensures adjacency' == Adjacency(edges') && keys' == KeyOrder(edges')
  {
    edges', adjacency', keys' := edges, adjacency, keys;
    var newNode := t;
    assert draws[0..] == draws;
    for i := 0 to |draws|
      invariant newNode == t + i
      invariant Grown(edges', newNode, d, draws[i..]) == Grown(edges, t, d, draws)
      invariant adjacency' == Adjacency(edges') && keys' == KeyOrder(edges')
    {
      GrownStep(edges', newNode, d, draws[i..]);
      assert draws[i..][0] == draws[i] && draws[i..][1..] == draws[i + 1..];
      edges', adjacency', keys' := AttachNode(edges', adjacency', keys', newNode, d, draws[i]);
      newNode := newNode + 1;
    }
    assert draws[|draws|..] == [];
  }

  /** One growth step: builds the pool of every key repeated by its degree, in key order, and joins
      `newNode` to the pool entry at each drawn position. */
  method AttachNode(edges: seq<Edge>, adjacency: AdjacencyMap, keys: seq<int>, newNode: int, d: nat, draw: seq<nat>)
    returns (edges': seq<Edge>, adjacency': AdjacencyMap, keys': seq<int>)
    requires adjacency == Adjacency(edges) && keys == KeyOrder(edges)
    requires IsSample(draw, |PoolOf(edges)|, d)
    ensures edges' == edges + StepEdges(newNode, Sample(PoolOf(edges), draw))
    ensures adjacency' == Adjacency(edges') && keys' == KeyOrder(edges')
  {
    var nodesWithRepetition := Pool(adjacency, keys);
    var targetNodes := Sample(nodesWithRepetition, draw);
    edges', adjacency', keys' := edges, adjacency, keys;
    for j := 0 to |targetNodes|
      invariant edges' == edges + StepEdges(newNode, targetNodes[..j])
      invariant adjacency' == Adjacency(edges') && keys' == KeyOrder(edges')
    {
      ghost var before := edges';
      var target := targetNodes[j];
      edges' := edges' + [(newNode, target)];
      adjacency' := Add(adjacency', newNode, target);
      keys' := AddKey(keys', newNode);
      adjacency' := Add(adjacency', target, newNode);
      keys' := AddKey(keys', target);
      AdjacencySnoc(before, newNode, target);
      KeyOrderSnoc(before, newNode, target);
      StepSnoc(newNode, targetNodes, j);
      SnocAssoc(edges, StepEdges(newNode, targetNodes[..j]), (newNode, target));
    }
    assert targetNodes[..|targetNodes|] == targetNodes;
  }

  /** Appending to a concatenation appends to its second part. (Its own lemma only to keep the
      solver's work in AttachRow and AttachNode small.) */
  lemma SnocAssoc<T>(a: seq<T>, b: seq<T>, x: T)
    ensures (a + b) + [x] == a + (b + [x])
  {
  }

  /** A node that no edge touches has no neighbours, and one that an edge touches has some. */
  lemma NoEdgeNoNeighbour(es: seq<Edge>, node: int)
    ensures Lookup(Adjacency(es), node) == {} <==> forall i :: 0 <= i < |es| ==> es[i].0 != node && es[i].1 != node
  {
    AdjacencyExact(es);
    if exists i :: 0 <= i < |es| && (es[i].0 == node || es[i].1 == node) {
      var i :| 0 <= i < |es| && (es[i].0 == node || es[i].1 == node);
      if es[i].0 == node {
        assert Incident(es, node, es[i].1);
      } else {
        assert Incident(es, node, es[i].0);
      }
    }
    if v :| v in Lookup(Adjacency(es), node) {
      var i :| 0 <= i < |es| && (es[i] == (node, v) || es[i] == (v, node));
    }
  }
}
