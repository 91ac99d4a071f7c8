/**
 * The property graph the newer kernels read (its library is not part of this
 * model): the vertices in their fixed enumeration order, each vertex's
 * outgoing edges as an ordered list of destinations, and the incoming edges
 * derived from the same edge lists.
 */
module PropertyGraphs {
  import opened Graphs

  datatype PropertyGraph = PropertyGraph(vertices: seq<int>, outgoing: Adjacency)

  /** The vertex list enumerates the vertex set and every edge ends at a vertex. */
  ghost predicate Valid(g: PropertyGraph) {
    IsEnumeration(g.vertices, g.outgoing.Keys) && Closed(g.outgoing)
  }

  /** The sources of v's incoming edges, one entry per edge. */
  function Incoming(g: PropertyGraph, v: int): seq<int>
    requires Valid(g)
  {
    InSources(g.outgoing, g.vertices, v)
  }

  /**
   * The other endpoint of every edge at v: the destinations of its outgoing
   * edges, then the sources of its incoming edges (a self-loop shows up in
   * both).
   */
  function Neighbours(g: PropertyGraph): Adjacency
    requires Valid(g)
  {
    map v | v in g.outgoing :: g.outgoing[v] + Incoming(g, v)
  }

  /** w is a neighbour of v exactly when there is an edge between them in either direction. */
  lemma NeighboursMember(g: PropertyGraph, v: int, w: int)
    requires Valid(g) && v in g.outgoing
    ensures w in Neighbours(g)[v] <==> w in g.outgoing[v] || (w in g.outgoing && v in g.outgoing[w])
  {
    InSourcesMember(g.outgoing, g.vertices, v, w);
  }

  /** Ignoring direction makes every edge two-way. */
  lemma NeighboursSymmetric(g: PropertyGraph)
    requires Valid(g)
    ensures Neighbours(g).Keys == g.outgoing.Keys
    ensures Closed(Neighbours(g)) && Symmetric(Neighbours(g))
  {
    var n := Neighbours(g);
    forall v, i | v in n && 0 <= i < |n[v]|
      ensures n[v][i] in n && v in n[n[v][i]]
    {
      var w := n[v][i];
      assert w in n[v];
      NeighboursMember(g, v, w);
      if w in g.outgoing[v] {
        var j :| 0 <= j < |g.outgoing[v]| && g.outgoing[v][j] == w;
      }
      NeighboursMember(g, w, v);
    }
  }
}
