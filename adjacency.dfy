/** Adjacency sets built from an edge list: the dictionary of neighbour sets
    that a graph fills by inserting both directions of every edge. */
module AdjacencySets {

  /** An edge as supplied: a pair of node ids, in the order given. */
  type Edge = (int, int)

  /** A dictionary from node id to its neighbour set; a node that was never
      inserted reads as the empty set (see Lookup). */
  type AdjacencyMap = map<int, set<int>>

  /** `adjacency_list[u]` on a dictionary whose missing entries default to the empty set. */
  function Lookup(adj: AdjacencyMap, u: int): set<int>
  {
    if u in adj then adj[u] else {}
  }

  /** `adjacency_list[u].add(v)`: u's set gains v, every other entry is unchanged. */
  function Add(adj: AdjacencyMap, u: int, v: int): (r: AdjacencyMap)
    ensures r.Keys == adj.Keys + {u}
    ensures Lookup(r, u) == Lookup(adj, u) + {v}
    ensures forall w :: w != u ==> Lookup(r, w) == Lookup(adj, w)
  {
    adj[u := Lookup(adj, u) + {v}]
  }

  /** The neighbour sets after inserting both directions of each edge of `es`, in order. */
  function Adjacency(es: seq<Edge>): AdjacencyMap
  {
    if es == [] then map[]
    else
      var last := es[|es| - 1];
      Add(Add(Adjacency(es[..|es| - 1]), last.0, last.1), last.1, last.0)
  }

  /** Appending an edge inserts its two directions into the sets built so far. */
  lemma AdjacencySnoc(es: seq<Edge>, u: int, v: int)
    ensures Adjacency(es + [(u, v)]) == Add(Add(Adjacency(es), u, v), v, u)
  {
    assert (es + [(u, v)])[..|es|] == es;
  }

  /** Some edge of `es` joins u and v, in either orientation. */
  ghost predicate Incident(es: seq<Edge>, u: int, v: int)
  {
    exists i :: 0 <= i < |es| && (es[i] == (u, v) || es[i] == (v, u))
  }

  /** An edge of `es` joins u and v iff one of its earlier edges does or its last edge does. */
  lemma IncidentLast(es: seq<Edge>, u: int, v: int)
    requires es != []
    ensures Incident(es, u, v) <==>
              Incident(es[..|es| - 1], u, v) || es[|es| - 1] == (u, v) || es[|es| - 1] == (v, u)
  {
    var init := es[..|es| - 1];
    if Incident(init, u, v) {
      var i :| 0 <= i < |init| && (init[i] == (u, v) || init[i] == (v, u));
      assert es[i] == init[i];
    }
    if Incident(es, u, v) {
      var i :| 0 <= i < |es| && (es[i] == (u, v) || es[i] == (v, u));
      if i < |es| - 1 {
        assert init[i] == es[i];
      }
    }
  }

  /** v is a neighbour of u exactly when some edge joins them; nothing else is a neighbour. */
  lemma {:induction false} AdjacencyExact(es: seq<Edge>)
    ensures forall u, v :: v in Lookup(Adjacency(es), u) <==> Incident(es, u, v)
  {
    if es != [] {
      AdjacencyExact(es[..|es| - 1]);
      forall u, v
        ensures v in Lookup(Adjacency(es), u) <==> Incident(es, u, v)
      {
        IncidentLast(es, u, v);
      }
    }
  }

  /** Adjacency is symmetric: v is a neighbour of u iff u is a neighbour of v. */
  lemma {:induction false} AdjacencySymmetric(es: seq<Edge>)
    ensures forall u, v :: v in Lookup(Adjacency(es), u) <==> u in Lookup(Adjacency(es), v)
  {
    AdjacencyExact(es);
    forall u, v
      ensures Incident(es, u, v) <==> Incident(es, v, u)
    {
      if Incident(es, u, v) {
        var i :| 0 <= i < |es| && (es[i] == (u, v) || es[i] == (v, u));
      }
      if Incident(es, v, u) {
        var i :| 0 <= i < |es| && (es[i] == (v, u) || es[i] == (u, v));
      }
    }
  }

  /** u is an endpoint of some edge of `es`. */
  ghost predicate Endpoint(es: seq<Edge>, u: int)
  {
    exists i :: 0 <= i < |es| && (es[i].0 == u || es[i].1 == u)
  }

  /** u is an endpoint of `es` iff it is one of its earlier edges or of its last edge. */
  lemma EndpointLast(es: seq<Edge>, u: int)
    requires es != []
    ensures Endpoint(es, u) <==> Endpoint(es[..|es| - 1], u) || es[|es| - 1].0 == u || es[|es| - 1].1 == u
  {
    var init := es[..|es| - 1];
    if Endpoint(init, u) {
      var i :| 0 <= i < |init| && (init[i].0 == u || init[i].1 == u);
      assert es[i] == init[i];
    }
    if Endpoint(es, u) {
      var i :| 0 <= i < |es| && (es[i].0 == u || es[i].1 == u);
      if i < |es| - 1 {
        assert init[i] == es[i];
      }
    }
  }

  /** A node has an entry in the dictionary exactly when it is an endpoint of some edge,
      and every neighbour of any node has an entry of its own. */
  lemma {:induction false} AdjacencyKeys(es: seq<Edge>)
    ensures forall u :: u in Adjacency(es) <==> Endpoint(es, u)
    ensures forall u, v :: v in Lookup(Adjacency(es), u) ==> v in Adjacency(es)
  {
    if es != [] {
      AdjacencyKeys(es[..|es| - 1]);
      forall u
        ensures u in Adjacency(es) <==> Endpoint(es, u)
      {
        EndpointLast(es, u);
      }
    }
    AdjacencySymmetric(es);
  }
}
