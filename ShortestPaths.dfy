/**
 * SingleSourceShortestPathJob: Dijkstra's algorithm with a `pending` set
 * kept in insertion order, a `visited` set, a linear scan for the pending
 * vertex of least distance and the relaxation rule "not yet pending, or the
 * new distance is smaller". Distances are exact non-negative reals, with
 * +infinity for vertices never reached.
 */
module ShortestPaths {
  import opened Wrappers
  import opened Graphs

  /** An outgoing edge: its destination and its weight (the edge's first property). */
  datatype Edge = Edge(destination: int, weight: real)

  type WeightedGraph = map<int, seq<Edge>>

  /** A distance as the job stores it: a number, or +infinity. */
  datatype Distance = Finite(value: real) | Infinity

  /** Java's `<` on doubles restricted to numbers and +infinity. */
  predicate Below(a: Distance, b: Distance) {
    match a
    case Infinity => false
    case Finite(x) => b.Infinity? || x < b.value
  }

  /** Every edge ends at a vertex and has a non-negative weight. */
  ghost predicate WellFormed(g: WeightedGraph) {
    forall u, i :: u in g && 0 <= i < |g[u]| ==> g[u][i].destination in g && g[u][i].weight >= 0.0
  }

  /** Some walk of exactly k edges leads from s to v and its weights add up to c. */
  ghost predicate Walk(g: WeightedGraph, s: int, v: int, c: real, k: nat)
    decreases k
  {
    if k == 0 then v == s && c == 0.0
    else exists u, i :: u in g && 0 <= i < |g[u]| && g[u][i].destination == v && Walk(g, s, u, c - g[u][i].weight, k - 1)
  }

  /** Some walk leads from s to v. */
  ghost predicate Reaches(g: WeightedGraph, s: int, v: int) {
    exists c: real, k: nat :: Walk(g, s, v, c, k)
  }

  /** Some walk from s to v costs d. */
  ghost predicate Attained(g: WeightedGraph, s: int, v: int, d: real) {
    exists k: nat :: Walk(g, s, v, d, k)
  }

  /** No walk from s to v costs less than d. */
  ghost predicate NoShorter(g: WeightedGraph, s: int, v: int, d: real) {
    forall c: real, k: nat :: Walk(g, s, v, c, k) ==> d <= c
  }

  /** d is the least cost of a walk from s to v. */
  ghost predicate IsShortest(g: WeightedGraph, s: int, v: int, d: real) {
    Attained(g, s, v, d) && NoShorter(g, s, v, d)
  }

  /** One distance per vertex: the least walk cost when s reaches v, and +infinity otherwise. */
  ghost predicate IsShortestPaths(g: WeightedGraph, s: int, distances: map<int, Distance>) {
    && distances.Keys == g.Keys
    && (forall v :: v in g && Reaches(g, s, v) ==> distances[v].Finite? && IsShortest(g, s, v, distances[v].value))
    && (forall v :: v in g && !Reaches(g, s, v) ==> distances[v] == Infinity)
  }

  /** Extending a walk by one edge at its end. */
  lemma WalkStep(g: WeightedGraph, s: int, u: int, i: int, c: real, k: nat)
    requires u in g && 0 <= i < |g[u]| && Walk(g, s, u, c, k)
    ensures Walk(g, s, g[u][i].destination, c + g[u][i].weight, k + 1)
  {
    assert c + g[u][i].weight - g[u][i].weight == c;
  }

  /** With non-negative weights no walk has a negative cost. */
  lemma {:induction false} WalkNonNegative(g: WeightedGraph, s: int, v: int, c: real, k: nat)
    requires WellFormed(g) && Walk(g, s, v, c, k)
    ensures c >= 0.0
    decreases k
  {
    if k > 0 {
      var u, i :| u in g && 0 <= i < |g[u]| && g[u][i].destination == v && Walk(g, s, u, c - g[u][i].weight, k - 1);
      WalkNonNegative(g, s, u, c - g[u][i].weight, k - 1);
    }
  }

  /** `pending.add(x)` on an insertion-ordered set: appended unless already present. */
  function Add(pending: seq<int>, x: int): (r: seq<int>)
    ensures forall y :: y in r <==> y in pending || y == x
  {
    if x in pending then pending else pending + [x]
  }

  /** `pending.remove(x)`: every occurrence of x dropped, the order of the rest kept. */
  function Without(pending: seq<int>, x: int): (r: seq<int>)
    ensures forall y :: y in r <==> y in pending && y != x
  {
    if pending == [] then []
    else if pending[0] == x then Without(pending[1..], x)
    else [pending[0]] + Without(pending[1..], x)
  }

  /**
   * The edge i of a visited vertex u has been relaxed: it ends at a visited
   * vertex, or at a pending one whose distance is at most u's distance plus
   * the edge's weight.
   */
  ghost predicate Relaxed(g: WeightedGraph, visited: set<int>, pending: seq<int>, dist: map<int, Distance>, u: int, i: int) {
    u in g && 0 <= i < |g[u]| &&
    var w := g[u][i].destination;
    w in visited ||
      (w in pending && w in dist && u in dist && dist[w].Finite? && dist[u].Finite?
       && dist[w].value <= dist[u].value + g[u][i].weight)
  }

  /** The finite distances are exactly those of the visited and the pending vertices. */
  ghost predicate Tracked(g: WeightedGraph, visited: set<int>, pending: seq<int>, dist: map<int, Distance>) {
    && dist.Keys == g.Keys && visited <= g.Keys
    && (forall v :: v in pending ==> v in g && v !in visited)
    && (forall j :: 0 <= j < |pending| ==> pending[j] in g)
    && (forall v :: v in g ==> (dist[v].Finite? <==> v in visited || v in pending))
  }

  /** Every finite distance is non-negative and the cost of some walk from s. */
  ghost predicate Costed(g: WeightedGraph, s: int, dist: map<int, Distance>) {
    forall v :: v in dist && dist[v].Finite? ==> dist[v].value >= 0.0 && Attained(g, s, v, dist[v].value)
  }

  /** No walk from s reaches a visited vertex more cheaply than its distance. */
  ghost predicate Settled(g: WeightedGraph, s: int, visited: set<int>, dist: map<int, Distance>) {
    forall v :: v in visited ==> v in dist && dist[v].Finite? && NoShorter(g, s, v, dist[v].value)
  }

  /** Until it is visited, the source is pending at distance 0. */
  ghost predicate SourceFirst(s: int, visited: set<int>, pending: seq<int>, dist: map<int, Distance>) {
    s !in visited ==> s in pending && s in dist && dist[s] == Finite(0.0)
  }

  /** Every edge of a visited vertex outside `skip` is relaxed. */
  ghost predicate AllRelaxed(g: WeightedGraph, visited: set<int>, pending: seq<int>, dist: map<int, Distance>, skip: set<int>) {
    forall u, i :: u in visited && u !in skip && u in g && 0 <= i < |g[u]| ==> Relaxed(g, visited, pending, dist, u, i)
  }

  /**
   * The state of the search: the finite distances are those of the visited
   * and pending vertices, each is the cost of some walk, a visited vertex's
   * distance is no more than any walk's, the source is pending until it is
   * visited, and every edge of a visited vertex outside `skip` is relaxed.
   */
  ghost predicate Invariant(g: WeightedGraph, s: int, visited: set<int>, pending: seq<int>,
                            dist: map<int, Distance>, skip: set<int>) {
    && s in g && Tracked(g, visited, pending, dist) && Costed(g, s, dist) && Settled(g, s, visited, dist)
    && SourceFirst(s, visited, pending, dist) && AllRelaxed(g, visited, pending, dist, skip)
  }

  /**
   * A walk into a vertex that is not visited leaves the visited set through
   * a pending vertex whose distance is at most the walk's cost.
   */
  lemma {:induction false} PendingBelow(g: WeightedGraph, s: int, visited: set<int>, pending: seq<int>,
                                        dist: map<int, Distance>, v: int, c: real, k: nat)
    requires WellFormed(g) && Invariant(g, s, visited, pending, dist, {})
    requires v !in visited && Walk(g, s, v, c, k)
    ensures exists j :: 0 <= j < |pending| && dist[pending[j]].Finite? && dist[pending[j]].value <= c
    decreases k
  {
    if k == 0 {
      var j :| 0 <= j < |pending| && pending[j] == s;
    } else {
      var u, i :| u in g && 0 <= i < |g[u]| && g[u][i].destination == v && Walk(g, s, u, c - g[u][i].weight, k - 1);
      if u in visited {
        assert Relaxed(g, visited, pending, dist, u, i);
        var j :| 0 <= j < |pending| && pending[j] == v;
      } else {
        PendingBelow(g, s, visited, pending, dist, u, c - g[u][i].weight, k - 1);
      }
    }
  }

  /**
   * The pending scan: the first pending vertex of strictly least distance,
   * or -1 with +infinity when every pending distance is +infinity.
   */
  method FindMin(pending: seq<int>, distances: map<int, Distance>) returns (minVertex: int, minDistance: Distance, ghost index: int)
    requires forall j :: 0 <= j < |pending| ==> pending[j] in distances
    ensures minDistance.Infinity? ==> minVertex == -1 && forall j :: 0 <= j < |pending| ==> distances[pending[j]].Infinity?
    ensures minDistance.Finite? ==> 0 <= index < |pending| && pending[index] == minVertex && distances[minVertex] == minDistance
    ensures minDistance.Finite? ==> forall j :: 0 <= j < index ==> Below(minDistance, distances[pending[j]])
    ensures forall j :: 0 <= j < |pending| ==> !Below(distances[pending[j]], minDistance)
  {
    minVertex := -1;
    minDistance := Infinity;
    index := -1;
    for i := 0 to |pending|
      invariant minDistance.Infinity? ==> minVertex == -1 && forall j :: 0 <= j < i ==> distances[pending[j]].Infinity?
      invariant minDistance.Finite? ==> 0 <= index < i && pending[index] == minVertex && distances[minVertex] == minDistance
      invariant minDistance.Finite? ==> forall j :: 0 <= j < index ==> Below(minDistance, distances[pending[j]])
      invariant forall j :: 0 <= j < i ==> !Below(distances[pending[j]], minDistance)
    {
      var v := pending[i];
      if Below(distances[v], minDistance) {
        minVertex := v;
        minDistance := distances[v];
        index := i;
      }
    }
  }

  /** No walk reaches the pending vertex of least distance more cheaply than its distance. */
  lemma LeastIsShortest(g: WeightedGraph, s: int, visited: set<int>, pending: seq<int>, dist: map<int, Distance>, m: int)
    requires WellFormed(g) && Invariant(g, s, visited, pending, dist, {})
    requires m in pending && dist[m].Finite?
    requires forall j :: 0 <= j < |pending| ==> !Below(dist[pending[j]], dist[m])
    ensures NoShorter(g, s, m, dist[m].value)
  {
    forall c: real, k: nat | Walk(g, s, m, c, k) ensures dist[m].value <= c {
      PendingBelow(g, s, visited, pending, dist, m, c, k);
      var j :| 0 <= j < |pending| && dist[pending[j]].Finite? && dist[pending[j]].value <= c;
      assert !Below(dist[pending[j]], dist[m]);
    }
  }

  /**
   * Moving the pending vertex m of least distance to the visited set keeps
   * the search state (with m's own edges still to relax): no walk reaches m
   * more cheaply.
   */
  lemma Extract(g: WeightedGraph, s: int, visited: set<int>, pending: seq<int>, dist: map<int, Distance>, m: int)
    requires WellFormed(g) && Invariant(g, s, visited, pending, dist, {})
    requires m in pending && dist[m].Finite?
    requires forall j :: 0 <= j < |pending| ==> !Below(dist[pending[j]], dist[m])
    ensures Invariant(g, s, visited + {m}, Without(pending, m), dist, {m})
  {
    LeastIsShortest(g, s, visited, pending, dist, m);
    var visited' := visited + {m};
    var pending' := Without(pending, m);
    forall u, i | u in visited' && u !in {m} && u in g && 0 <= i < |g[u]|
      ensures Relaxed(g, visited', pending', dist, u, i)
    {
      assert Relaxed(g, visited, pending, dist, u, i);
    }
  }

  /** Going from dist to dist', no finite distance becomes larger or infinite. */
  ghost predicate NoIncrease(dist: map<int, Distance>, dist': map<int, Distance>) {
    forall v :: v in dist && dist[v].Finite? ==> v in dist' && dist'[v].Finite? && dist'[v].value <= dist[v].value
  }

  /**
   * An edge stays relaxed when the pending set only grows, no distance
   * grows, and the distance of its origin is unchanged.
   */
  lemma RelaxedKept(g: WeightedGraph, visited: set<int>, pending: seq<int>, dist: map<int, Distance>,
                    pending': seq<int>, dist': map<int, Distance>, u: int, j: int)
    requires Relaxed(g, visited, pending, dist, u, j)
    requires forall v :: v in pending ==> v in pending'
    requires u in dist && u in dist' && dist'[u] == dist[u]
    requires NoIncrease(dist, dist')
    ensures Relaxed(g, visited, pending', dist', u, j)
  {
  }

  /**
   * Lowering the distance of an unvisited vertex w to the cost d of a walk
   * and making w pending keeps the search state.
   */
  lemma Lower(g: WeightedGraph, s: int, visited: set<int>, pending: seq<int>, dist: map<int, Distance>,
              skip: set<int>, w: int, d: real)
    requires Invariant(g, s, visited, pending, dist, skip)
    requires w in g && w !in visited && d >= 0.0 && Attained(g, s, w, d)
    requires w in pending ==> dist[w].Finite? && d <= dist[w].value
    ensures Invariant(g, s, visited, Add(pending, w), dist[w := Finite(d)], skip)
  {
    var dist' := dist[w := Finite(d)];
    var pending' := Add(pending, w);
    LowerTracked(g, visited, pending, dist, w, d);
    assert Costed(g, s, dist');
    assert Settled(g, s, visited, dist') by {
      forall v | v in visited ensures dist'[v] == dist[v] { }
    }
    forall v | v in dist && dist[v].Finite? ensures v in dist' && dist'[v].Finite? && dist'[v].value <= dist[v].value { }
    forall u, j | u in visited && u !in skip && u in g && 0 <= j < |g[u]|
      ensures Relaxed(g, visited, pending', dist', u, j)
    {
      RelaxedKept(g, visited, pending, dist, pending', dist', u, j);
    }
  }

  lemma LowerTracked(g: WeightedGraph, visited: set<int>, pending: seq<int>, dist: map<int, Distance>, w: int, d: real)
    requires Tracked(g, visited, pending, dist) && w in g && w !in visited
    ensures Tracked(g, visited, Add(pending, w), dist[w := Finite(d)])
  {
    var pending' := Add(pending, w);
    forall j | 0 <= j < |pending'| ensures pending'[j] in g {
      if j >= |pending| {
        assert pending'[j] == w;
      }
    }
  }

  /**
   * The neighbour loop of `run` for the vertex m just visited: every edge
   * towards an unvisited vertex that is not pending, or is pending at a
   * greater distance, sets that vertex's distance to m's plus the weight and
   * adds it to the pending set. Afterwards every edge of m is relaxed.
   */
  method RelaxNeighbours(g: WeightedGraph, s: int, visited: set<int>, pending: seq<int>,
                         distances: map<int, Distance>, m: int)
    returns (pending': seq<int>, distances': map<int, Distance>)
    requires WellFormed(g) && Invariant(g, s, visited, pending, distances, {m})
    requires m in visited && distances[m].Finite?
    ensures Invariant(g, s, visited, pending', distances', {})
    ensures distances'[m] == distances[m]
    ensures forall v :: v in pending ==> v in pending'
    ensures forall v :: v in g && v in visited ==> distances'[v] == distances[v]
    ensures NoIncrease(distances, distances')
  {
    var neighbours := g[m];
    var minDistance := distances[m];
    pending' := pending;
    distances' := distances;
    for i := 0 to |neighbours|
      invariant Invariant(g, s, visited, pending', distances', {m})
      invariant distances'[m] == minDistance
      invariant forall v :: v in pending ==> v in pending'
      invariant forall v :: v in g && v in visited ==> distances'[v] == distances[v]
      invariant NoIncrease(distances, distances')
      invariant forall j :: 0 <= j < i ==> Relaxed(g, visited, pending', distances', m, j)
    {
      var neighbour := neighbours[i].destination;
      if neighbour !in visited {
        var newDist := Finite(minDistance.value + neighbours[i].weight);
        if neighbour !in pending' || Below(newDist, distances'[neighbour]) {
          var pending1, distances1 := Add(pending', neighbour), distances'[neighbour := newDist];
          RelaxOne(g, s, visited, distances, m, i, pending', distances', neighbour, newDist.value, pending1, distances1);
          pending', distances' := pending1, distances1;
        } else {
          assert distances'[neighbour].Finite?;
        }
      }
      assert Relaxed(g, visited, pending', distances', m, i);
    }
  }

  /**
   * One relaxation in the neighbour loop: lowering the i-th neighbour w of m
   * to m's distance plus the edge weight and making it pending keeps the
   * search state, raises no distance and keeps the edges of m scanned so far
   * relaxed, the i-th one included.
   */
  lemma RelaxOne(g: WeightedGraph, s: int, visited: set<int>, distances0: map<int, Distance>, m: int, i: int,
                 pending: seq<int>, dist: map<int, Distance>, w: int, d: real,
                 pending': seq<int>, dist': map<int, Distance>)
    requires WellFormed(g) && Invariant(g, s, visited, pending, dist, {m})
    requires m in visited && 0 <= i < |g[m]| && dist[m].Finite? && NoIncrease(distances0, dist)
    requires forall j :: 0 <= j < i ==> Relaxed(g, visited, pending, dist, m, j)
    requires w == g[m][i].destination && d == dist[m].value + g[m][i].weight
    requires w !in visited && (w !in pending || Below(Finite(d), dist[w]))
    requires pending' == Add(pending, w) && dist' == dist[w := Finite(d)]
    ensures Invariant(g, s, visited, pending', dist', {m})
    ensures NoIncrease(distances0, dist')
    ensures forall j :: 0 <= j <= i ==> Relaxed(g, visited, pending', dist', m, j)
  {
    var k: nat :| Walk(g, s, m, dist[m].value, k);
    WalkStep(g, s, m, i, dist[m].value, k);
    Lower(g, s, visited, pending, dist, {m}, w, d);
    assert NoIncrease(dist, dist') by {
      forall v | v in dist && dist[v].Finite?
        ensures v in dist' && dist'[v].Finite? && dist'[v].value <= dist[v].value
      {
        if v == w {
          assert v in pending;
        }
      }
    }
    forall j | 0 <= j < i ensures Relaxed(g, visited, pending', dist', m, j) {
      RelaxedKept(g, visited, pending, dist, pending', dist', m, j);
    }
    assert Relaxed(g, visited, pending', dist', m, i);
  }

  /** With nothing pending, the visited vertices carry their shortest distances and no walk reaches the rest. */
  lemma Finished(g: WeightedGraph, s: int, visited: set<int>, distances: map<int, Distance>)
    requires WellFormed(g) && Invariant(g, s, visited, [], distances, {})
    ensures IsShortestPaths(g, s, distances)
  {
    forall v | v in g && v !in visited ensures !Reaches(g, s, v) {
      forall c: real, k: nat | Walk(g, s, v, c, k) ensures false {
        PendingBelow(g, s, visited, [], distances, v, c, k);
      }
    }
  }

  class SingleSourceShortestPathJob {
    const graph: WeightedGraph
    const sourceVertex: int

    constructor (graph: WeightedGraph, sourceVertex: int)
      ensures this.graph == graph && this.sourceVertex == sourceVertex
    {
      this.graph := graph;
      this.sourceVertex := sourceVertex;
    }

    /**
     * The distance map: the least walk cost from the source for every vertex
     * it reaches and +infinity for the rest, after at most one round per
     * vertex. A source that is not a vertex fails.
     */
    method Run() returns (r: Result<map<int, Distance>, GraphError>, ghost rounds: nat)
      requires WellFormed(graph)
      ensures r.Failure? <==> sourceVertex !in graph
      ensures r.Failure? ==> r.error == UnknownVertex(sourceVertex)
      ensures r.Success? ==> IsShortestPaths(graph, sourceVertex, r.value) && r.value[sourceVertex] == Finite(0.0)
      ensures rounds <= |graph|
    {
      var g := graph;
      var s := sourceVertex;
      if s !in g {
        return Failure(UnknownVertex(s)), 0;
      }
      var distances := map v | v in g :: Infinity;
      distances := distances[s := Finite(0.0)];
      var visited: set<int> := {};
      var pending := [s];
      rounds := 0;
      assert Walk(g, s, s, 0.0, 0);
      while pending != []
        invariant Invariant(g, s, visited, pending, distances, {})
        invariant rounds == |visited|
        decreases |g.Keys| - |visited|
      {
        var minVertex, minDistance, index := FindMin(pending, distances);
        var first := pending[0];
        assert first in pending && first in g;
        assert distances[first].Finite?;
        assert !Below(distances[pending[0]], minDistance);
        assert pending[index] in pending;
        Extract(g, s, visited, pending, distances, minVertex);
        pending := Without(pending, minVertex);
        visited := visited + {minVertex};
        SubsetCard(visited, g.Keys);
        pending, distances := RelaxNeighbours(g, s, visited, pending, distances, minVertex);
        rounds := rounds + 1;
      }
      SubsetCard(visited, g.Keys);
      Finished(g, s, visited, distances);
      r := Success(distances);
    }
  }

  /**
   * In a shortest-path result every edge u -> w out of a reached vertex
   * satisfies the triangle inequality: dist(w) <= dist(u) + weight.
   */
  lemma TriangleInequality(g: WeightedGraph, s: int, distances: map<int, Distance>, u: int, i: int)
    requires WellFormed(g) && IsShortestPaths(g, s, distances) && u in g && 0 <= i < |g[u]|
    requires distances[u].Finite?
    ensures var w := g[u][i].destination;
      distances[w].Finite? && distances[w].value <= distances[u].value + g[u][i].weight
  {
    var w := g[u][i].destination;
    var k: nat :| Walk(g, s, u, distances[u].value, k);
    WalkStep(g, s, u, i, distances[u].value, k);
  }

  /** The source is at distance 0 from itself. */
  lemma SourceDistance(g: WeightedGraph, s: int, distances: map<int, Distance>)
    requires WellFormed(g) && IsShortestPaths(g, s, distances) && s in g
    ensures distances[s] == Finite(0.0)
  {
    assert Walk(g, s, s, 0.0, 0);
    forall c: real, k: nat | Walk(g, s, s, c, k) ensures 0.0 <= c {
      WalkNonNegative(g, s, s, c, k);
    }
  }
}
