/**
 * LocalClusteringCoefficientJob over a property graph: the neighbourhood
 * N(v) is the set of sources of v's incoming edges and destinations of its
 * outgoing edges, and tri counts every outgoing edge of every member of
 * N(v) that ends in N(v), parallel edges as often as they occur.
 */
module PropertyGraphClustering {
  import opened Graphs
  import opened PropertyGraphs
  import opened Clustering

  /** The other endpoints of v's edges in either direction, duplicates collapsed. */
  function NeighbourSet(g: PropertyGraph, v: int): set<int>
    requires Valid(g) && v in g.outgoing
  {
    Elements(Incoming(g, v)) + Elements(g.outgoing[v])
  }

  /** w is in v's neighbourhood exactly when there is an edge between them in either direction; all are vertices. */
  lemma NeighbourSetMember(g: PropertyGraph, v: int, w: int)
    requires Valid(g) && v in g.outgoing
    ensures w in NeighbourSet(g, v) <==> w in g.outgoing[v] || (w in g.outgoing && v in g.outgoing[w])
    ensures w in NeighbourSet(g, v) ==> w in g.outgoing
  {
    InSourcesMember(g.outgoing, g.vertices, v, w);
    if w in g.outgoing[v] {
      var i :| 0 <= i < |g.outgoing[v]| && g.outgoing[v][i] == w;
    }
  }

  /**
   * The neighbourhood loops of `run`: the source of every incoming edge,
   * then the destination of every outgoing edge, added to a hash set.
   */
  method CollectNeighbours(g: PropertyGraph, v: int) returns (vNeighbours: set<int>)
    requires Valid(g) && v in g.outgoing
    ensures vNeighbours == NeighbourSet(g, v)
  {
    var incoming := Incoming(g, v);
    var outgoing := g.outgoing[v];
    vNeighbours := {};
    for i := 0 to |incoming|
      invariant vNeighbours == Elements(incoming[..i])
    {
      assert incoming[..i + 1] == incoming[..i] + [incoming[i]];
      vNeighbours := vNeighbours + {incoming[i]};
    }
    assert incoming[..|incoming|] == incoming;
    for i := 0 to |outgoing|
      invariant vNeighbours == Elements(incoming) + Elements(outgoing[..i])
    {
      assert outgoing[..i + 1] == outgoing[..i] + [outgoing[i]];
      vNeighbours := vNeighbours + {outgoing[i]};
    }
    assert outgoing[..|outgoing|] == outgoing;
  }

  /** The edges u -> w, as (u, position in u's list), with both u and w in `nbhd`. */
  ghost function EdgeSlots(outgoing: Adjacency, nbhd: set<int>): set<(int, int)> {
    set u, k | u in nbhd && u in outgoing && 0 <= k < |outgoing[u]| && outgoing[u][k] in nbhd :: (u, k)
  }

  /** The positions below n of a list whose entries lie in `nbhd`. */
  function SlotsBelow(list: seq<int>, nbhd: set<int>, n: int): set<int> {
    set k | 0 <= k < n && k < |list| && list[k] in nbhd
  }

  /** The row of u in the edge count: the positions in u's list that end in `nbhd`. */
  function SlotRow(outgoing: Adjacency, nbhd: set<int>): int -> set<int> {
    (u: int) => if u in outgoing then SlotsBelow(outgoing[u], nbhd, |outgoing[u]|) else {}
  }

  /** One more position adds one exactly when its entry is in `nbhd`. */
  lemma SlotsStep(list: seq<int>, nbhd: set<int>, k: int)
    requires 0 <= k < |list|
    ensures |SlotsBelow(list, nbhd, k + 1)| == |SlotsBelow(list, nbhd, k)| + if list[k] in nbhd then 1 else 0
  {
    if list[k] in nbhd {
      assert SlotsBelow(list, nbhd, k + 1) == SlotsBelow(list, nbhd, k) + {k};
    } else {
      assert SlotsBelow(list, nbhd, k + 1) == SlotsBelow(list, nbhd, k);
    }
  }

  /** Counted row by row over an enumeration of the neighbourhood, the edge slots add up to the row sizes. */
  lemma EdgeSlotsRows(outgoing: Adjacency, nbhd: set<int>, us: seq<int>)
    requires IsEnumeration(us, nbhd)
    ensures |EdgeSlots(outgoing, nbhd)| == RowSum(us, SlotRow(outgoing, nbhd))
  {
    var f := SlotRow(outgoing, nbhd);
    forall p | p in EdgeSlots(outgoing, nbhd) ensures p in Rows(us, f) {
      assert p.0 in us;
    }
    assert EdgeSlots(outgoing, nbhd) == Rows(us, f);
    RowsCard(us, f);
  }

  /** After the inner loop for the i-th member, the count has grown by the size of its row. */
  lemma SlotRowStep(outgoing: Adjacency, nbhd: set<int>, us: seq<int>, i: int)
    requires 0 <= i < |us| && us[i] in outgoing
    ensures RowSum(us[..i + 1], SlotRow(outgoing, nbhd))
         == RowSum(us[..i], SlotRow(outgoing, nbhd)) + |SlotsBelow(outgoing[us[i]], nbhd, |outgoing[us[i]]|)|
  {
    assert us[..i + 1][..i] == us[..i];
  }

  /**
   * The triangle loop of `run` for one vertex: for every member u of the
   * neighbourhood and every outgoing edge of u, one count when the edge ends
   * in the neighbourhood.
   */
  method CountEdgesWithin(outgoing: Adjacency, nbhd: set<int>) returns (tri: int)
    requires nbhd <= outgoing.Keys
    ensures tri == |EdgeSlots(outgoing, nbhd)|
  {
    var vNeighbours := Enumerate(nbhd);
    tri := 0;
    for i := 0 to |vNeighbours|
      invariant tri == RowSum(vNeighbours[..i], SlotRow(outgoing, nbhd))
    {
      var u := vNeighbours[i];
      var edges := outgoing[u];
      ghost var base := tri;
      for k := 0 to |edges|
        invariant tri == base + |SlotsBelow(edges, nbhd, k)|
      {
        SlotsStep(edges, nbhd, k);
        if edges[k] in nbhd {
          tri := tri + 1;
        }
      }
      SlotRowStep(outgoing, nbhd, vNeighbours, i);
    }
    assert vNeighbours[..|vNeighbours|] == vNeighbours;
    EdgeSlotsRows(outgoing, nbhd, vNeighbours);
  }

  /** No list holds the same destination twice. */
  ghost predicate NoParallelEdges(outgoing: Adjacency) {
    forall u, a, b :: u in outgoing && 0 <= a < b < |outgoing[u]| ==> outgoing[u][a] != outgoing[u][b]
  }

  /** No list holds its own vertex. */
  ghost predicate NoSelfEdges(outgoing: Adjacency) {
    forall u :: u in outgoing ==> u !in outgoing[u]
  }

  /** In a list of distinct entries, the positions ending in `nbhd` are as many as the entries in `nbhd`. */
  lemma {:induction false} DistinctSlots(list: seq<int>, nbhd: set<int>, k: int)
    requires 0 <= k <= |list| && forall a, b :: 0 <= a < b < |list| ==> list[a] != list[b]
    ensures |SlotsBelow(list, nbhd, k)| == |Elements(list[..k]) * nbhd|
  {
    if k > 0 {
      DistinctSlots(list, nbhd, k - 1);
      SlotsStep(list, nbhd, k - 1);
      PrefixCount(list, k - 1, nbhd);
    }
  }

  /**
   * Without self-loops and parallel edges every member u of the
   * neighbourhood has at most deg - 1 edges into it, so at most
   * deg * (deg - 1) are counted.
   */
  lemma EdgeSlotsBound(outgoing: Adjacency, nbhd: set<int>)
    requires nbhd <= outgoing.Keys && NoSelfEdges(outgoing) && NoParallelEdges(outgoing)
    ensures 0 <= |EdgeSlots(outgoing, nbhd)| <= |nbhd| * (|nbhd| - 1)
  {
    EnumerationExists(nbhd);
    var us :| IsEnumeration(us, nbhd);
    var f := SlotRow(outgoing, nbhd);
    EdgeSlotsRows(outgoing, nbhd, us);
    EnumerationSize(us, nbhd);
    if nbhd != {} {
      forall i | 0 <= i < |us| ensures |f(us[i])| <= |nbhd| - 1 {
        var u := us[i];
        var list := outgoing[u];
        DistinctSlots(list, nbhd, |list|);
        assert list[..|list|] == list;
        SubsetCard(Elements(list) * nbhd, nbhd - {u});
      }
      RowSumBound(us, f, |nbhd| - 1);
    }
  }

  /** Without self-loops and parallel edges every coefficient lies in [0, 1]. */
  lemma EdgeCoefficientBounds(outgoing: Adjacency, nbhd: set<int>)
    requires nbhd <= outgoing.Keys && NoSelfEdges(outgoing) && NoParallelEdges(outgoing)
    ensures 0.0 <= Coefficient(|EdgeSlots(outgoing, nbhd)|, |nbhd|) <= 1.0
  {
    EdgeSlotsBound(outgoing, nbhd);
    CoefficientRange(|EdgeSlots(outgoing, nbhd)|, |nbhd|);
  }

  class LocalClusteringCoefficientJob {
    const graph: PropertyGraph

    constructor (graph: PropertyGraph)
      ensures this.graph == graph
    {
      this.graph := graph;
    }

    /** One coefficient per vertex, from its neighbourhood and the edges counted inside it. */
    method Run() returns (lcc: map<int, real>)
      requires Valid(graph)
      ensures lcc.Keys == graph.outgoing.Keys
      ensures forall v :: v in lcc ==>
        lcc[v] == Coefficient(|EdgeSlots(graph.outgoing, NeighbourSet(graph, v))|, |NeighbourSet(graph, v)|)
    {
      var vertices := graph.vertices;
      lcc := map[];
      for i := 0 to |vertices|
        invariant lcc.Keys <= graph.outgoing.Keys
        invariant forall v :: v in lcc ==>
          lcc[v] == Coefficient(|EdgeSlots(graph.outgoing, NeighbourSet(graph, v))|, |NeighbourSet(graph, v)|)
        invariant forall j :: 0 <= j < i ==> vertices[j] in lcc
      {
        var v := vertices[i];
        var vNeighbours := CollectNeighbours(graph, v);
        forall w | w in vNeighbours ensures w in graph.outgoing {
          NeighbourSetMember(graph, v, w);
        }
        var tri := CountEdgesWithin(graph.outgoing, vNeighbours);
        var degree := |vNeighbours|;
        lcc := lcc[v := Coefficient(tri, degree)];
      }
      forall v | v in graph.outgoing ensures v in lcc {
        assert v in vertices;
        var j :| 0 <= j < |vertices| && vertices[j] == v;
      }
    }
  }
}
