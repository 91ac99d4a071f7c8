/**
 * BreadthFirstSearchJob: hop distances from a source vertex, found with a
 * FIFO queue in which a vertex is marked visited when it is enqueued.
 */
module BreadthFirstSearch {
  import opened Wrappers
  import opened Graphs
  import GraphParsing

  /** Java's Long.MAX_VALUE, the distance left on a vertex the search never reaches. */
  const MaxDistance: int := 0x7fff_ffff_ffff_ffff

  /** d is the length of a shortest walk from s to v. */
  ghost predicate IsHopDistance(g: Adjacency, s: int, v: int, d: int) {
    d >= 0 && ReachIn(g, s, v, d) && forall k: nat :: ReachIn(g, s, v, k) ==> d <= k
  }

  /** One distance per vertex: the hop distance when v is reachable from s, Long.MAX_VALUE otherwise. */
  ghost predicate IsBfsResult(g: Adjacency, s: int, distances: map<int, int>) {
    && distances.Keys == g.Keys
    && (forall v :: v in g && Reachable(g, s, v) ==> IsHopDistance(g, s, v, distances[v]))
    && (forall v :: v in g && !Reachable(g, s, v) ==> distances[v] == MaxDistance)
  }

  class BreadthFirstSearchJob {
    const graphData: Adjacency
    const sourceVertex: int

    /** An undirected graph is searched through its convertToUndirected form. */
    constructor (graphData: Adjacency, directed: bool, sourceVertex: int)
      requires Closed(graphData)
      ensures this.sourceVertex == sourceVertex && Closed(this.graphData)
      ensures directed ==> this.graphData == graphData
      ensures !directed ==> exists order ::
        IsEnumeration(order, graphData.Keys) && this.graphData == GraphParsing.UndirectedOf(graphData, order)
    {
      if directed {
        this.graphData := graphData;
      } else {
        var converted;
        ghost var order;
        converted, order := GraphParsing.ConvertToUndirected(graphData);
        this.graphData := converted;
      }
      this.sourceVertex := sourceVertex;
    }

    /**
     * The distance map: 0 for the source, the hop distance for every vertex
     * reachable from it and Long.MAX_VALUE for the rest; at most one dequeue
     * per vertex. A source that is not a vertex fails.
     */
    method Run() returns (r: Result<map<int, int>, GraphError>, ghost dequeues: nat)
      requires Closed(graphData)
      ensures r.Failure? <==> sourceVertex !in graphData
      ensures r.Failure? ==> r.error == UnknownVertex(sourceVertex)
      ensures r.Success? ==> IsBfsResult(graphData, sourceVertex, r.value) && r.value[sourceVertex] == 0
      ensures dequeues <= |graphData|
    {
      var g := graphData;
      var s := sourceVertex;
      if s !in g {
        return Failure(UnknownVertex(s)), 0;
      }
      var distances := map v | v in g :: MaxDistance;
      distances := distances[s := 0];
      var visited := {s};
      var queue := [s];
      dequeues := 0;
      ghost var level := 0;
      assert ReachIn(g, s, s, 0);
      while queue != []
        invariant Settled(g, s, visited, distances)
        invariant Queued(queue, visited, distances, level)
        invariant Expanded(g, visited, queue, {})
        invariant dequeues + |queue| == |visited| <= |g|
        decreases |g| - dequeues
      {
        var u := queue[0];
        var du := distances[u];
        Dequeue(g, queue, visited, distances, level);
        queue := queue[1..];
        level := du;
        dequeues := dequeues + 1;
        visited, queue, distances := ScanNeighbours(g, s, u, visited, queue, distances);
        SubsetCard(visited, g.Keys);
      }
      forall v | v in g && v !in visited
        ensures !Reachable(g, s, v)
      {
        forall k: nat | ReachIn(g, s, v, k) ensures false {
          UnvisitedBound(g, s, visited, [], {}, distances, k, v, k);
        }
      }
      r := Success(distances);
    }
  }

  /**
   * The inner loop of the search: every unvisited neighbour of the dequeued
   * vertex u gets distance du + 1 and joins the back of the queue.
   */
  method ScanNeighbours(g: Adjacency, s: int, u: int, visited0: set<int>, queue0: seq<int>, distances0: map<int, int>)
    returns (visited: set<int>, queue: seq<int>, distances: map<int, int>)
    requires Closed(g) && Settled(g, s, visited0, distances0) && u in visited0 && u !in queue0
    requires Queued(queue0, visited0, distances0, distances0[u]) && Expanded(g, visited0, queue0, {u})
    ensures Settled(g, s, visited, distances) && distances[u] == distances0[u]
    ensures Queued(queue, visited, distances, distances0[u]) && Expanded(g, visited, queue, {})
    ensures |queue| - |queue0| == |visited| - |visited0|
    ensures Extended(visited0, queue0, distances0, visited, queue, distances, distances0[u] + 1)
  {
    visited, queue, distances := visited0, queue0, distances0;
    assert queue[..|queue0|] == queue0;
    var du := distances[u];
    var neighbours := g[u];
    for i := 0 to |neighbours|
      invariant Scanning(g, s, u, du, visited0, queue0, distances0, visited, queue, distances, i)
    {
      var w := neighbours[i];
      if w !in visited {
        var visited1, queue1, distances1 := visited + {w}, queue + [w], distances[w := du + 1];
        ScanStep(g, s, u, du, visited0, queue0, distances0, visited, queue, distances, i, visited1, queue1, distances1);
        visited, queue, distances := visited1, queue1, distances1;
      } else {
        ScanStep(g, s, u, du, visited0, queue0, distances0, visited, queue, distances, i, visited, queue, distances);
      }
    }
    FinishExpansion(g, visited, queue, u);
  }

  /**
   * What one scan does to the search state: the visited set only grows, the
   * queue keeps queue0 as its front, the vertices visited before keep their
   * distances, and each newly visited vertex has distance d and was appended
   * after queue0.
   */
  ghost predicate Extended(visited0: set<int>, queue0: seq<int>, distances0: map<int, int>,
                           visited: set<int>, queue: seq<int>, distances: map<int, int>, d: int) {
    && visited0 <= visited
    && |queue0| <= |queue| && queue[..|queue0|] == queue0
    && (forall v :: v in visited0 ==> v in distances0 && v in distances && distances[v] == distances0[v])
    && (forall v :: v in visited && v !in visited0 ==> v in distances && distances[v] == d && v in queue[|queue0|..])
    && (forall j :: |queue0| <= j < |queue| ==> queue[j] !in visited0)
  }

  /**
   * The state of the scan of u after its first i neighbours: the search
   * state is kept with u exempt from expansion, those neighbours are
   * visited, and the scan has only extended the state it started from.
   */
  ghost predicate Scanning(g: Adjacency, s: int, u: int, du: int,
                           visited0: set<int>, queue0: seq<int>, distances0: map<int, int>,
                           visited: set<int>, queue: seq<int>, distances: map<int, int>, i: int) {
    && u in g && 0 <= i <= |g[u]|
    && Settled(g, s, visited, distances) && Queued(queue, visited, distances, du)
    && Expanded(g, visited, queue, {u}) && u in visited && u !in queue && distances[u] == du
    && (forall j :: 0 <= j < i ==> g[u][j] in visited)
    && |queue| - |queue0| == |visited| - |visited0|
    && Extended(visited0, queue0, distances0, visited, queue, distances, du + 1)
  }

  /**
   * Scanning neighbour i of u: an unvisited one is marked visited at
   * distance du + 1 and enqueued, a visited one changes nothing; either way
   * the scan advances past it.
   */
  lemma ScanStep(g: Adjacency, s: int, u: int, du: int,
                 visited0: set<int>, queue0: seq<int>, distances0: map<int, int>,
                 visited: set<int>, queue: seq<int>, distances: map<int, int>, i: int,
                 visited': set<int>, queue': seq<int>, distances': map<int, int>)
    requires Closed(g) && Scanning(g, s, u, du, visited0, queue0, distances0, visited, queue, distances, i)
    requires i < |g[u]|
    requires g[u][i] !in visited ==>
      visited' == visited + {g[u][i]} && queue' == queue + [g[u][i]] && distances' == distances[g[u][i] := du + 1]
    requires g[u][i] in visited ==> visited' == visited && queue' == queue && distances' == distances
    ensures Scanning(g, s, u, du, visited0, queue0, distances0, visited', queue', distances', i + 1)
  {
    var w := g[u][i];
    if w !in visited {
      Discover(g, s, visited, queue, distances, u, du, w);
      ExtendStep(visited0, queue0, distances0, visited, queue, distances, du + 1, w);
      assert |visited'| == |visited| + 1;
    }
  }

  /** Visiting and enqueueing one more vertex w at distance d extends the scan. */
  lemma ExtendStep(visited0: set<int>, queue0: seq<int>, distances0: map<int, int>,
                   visited: set<int>, queue: seq<int>, distances: map<int, int>, d: int, w: int)
    requires Extended(visited0, queue0, distances0, visited, queue, distances, d) && w !in visited
    ensures Extended(visited0, queue0, distances0, visited + {w}, queue + [w], distances[w := d], d)
  {
    var q := queue + [w];
    assert q[..|queue0|] == queue[..|queue0|];
    assert q[|queue0|..] == queue[|queue0|..] + [w];
    forall j | |queue0| <= j < |q| ensures q[j] !in visited0 {
      if j < |queue| {
        assert q[j] == queue[j];
      }
    }
  }

  /**
   * The visited vertices carry their hop distances (an upper bound that is
   * attained and a lower bound on every walk) and all others Long.MAX_VALUE.
   */
  ghost predicate Settled(g: Adjacency, s: int, visited: set<int>, distances: map<int, int>) {
    && s in visited && visited <= g.Keys && distances.Keys == g.Keys && distances[s] == 0
    && (forall v :: v in g && v !in visited ==> distances[v] == MaxDistance)
    && (forall v :: v in visited ==> distances[v] >= 0 && ReachIn(g, s, v, distances[v]))
    && (forall v, k: nat :: v in visited && ReachIn(g, s, v, k) ==> distances[v] <= k)
  }

  /** The queue holds distinct visited vertices in order of distance, within one level of `lo`. */
  ghost predicate Queued(queue: seq<int>, visited: set<int>, distances: map<int, int>, lo: int) {
    && (forall i :: 0 <= i < |queue| ==> queue[i] in visited && queue[i] in distances)
    && (forall i, j :: 0 <= i < j < |queue| ==> queue[i] != queue[j])
    && (forall i, j :: 0 <= i <= j < |queue| ==> distances[queue[i]] <= distances[queue[j]])
    && (forall i :: 0 <= i < |queue| ==> lo <= distances[queue[i]] <= lo + 1)
  }

  /** Every visited vertex outside the queue and `skip` has all its neighbours visited. */
  ghost predicate Expanded(g: Adjacency, visited: set<int>, queue: seq<int>, skip: set<int>) {
    forall v, i :: v in visited && v !in queue && v !in skip && v in g && 0 <= i < |g[v]| ==> g[v][i] in visited
  }

  /** Taking the head u off the queue leaves the rest within one level of u's distance. */
  lemma Dequeue(g: Adjacency, queue: seq<int>, visited: set<int>, distances: map<int, int>, lo: int)
    requires queue != [] && Queued(queue, visited, distances, lo) && Expanded(g, visited, queue, {})
    ensures Queued(queue[1..], visited, distances, distances[queue[0]])
    ensures Expanded(g, visited, queue[1..], {queue[0]})
    ensures queue[0] !in queue[1..]
  {
    var q := queue[1..];
    forall i | 0 <= i < |q| ensures distances[queue[0]] <= distances[q[i]] <= distances[queue[0]] + 1 {
      assert q[i] == queue[i + 1];
    }
  }

  /**
   * Marking an unvisited neighbour w of u visited at distance du + 1 and
   * enqueueing it keeps the search state: no walk reaches w in fewer steps.
   */
  lemma Discover(g: Adjacency, s: int, visited: set<int>, queue: seq<int>, distances: map<int, int>,
                  u: int, du: int, w: int)
    requires Closed(g) && Settled(g, s, visited, distances)
    requires u in visited && u !in queue && distances[u] == du && w in g[u] && w !in visited
    requires Queued(queue, visited, distances, du) && Expanded(g, visited, queue, {u})
    ensures Settled(g, s, visited + {w}, distances[w := du + 1])
    ensures Queued(queue + [w], visited + {w}, distances[w := du + 1], du)
    ensures Expanded(g, visited + {w}, queue + [w], {u})
    ensures u !in queue + [w]
  {
    var i :| 0 <= i < |g[u]| && g[u][i] == w;
    forall k: nat | ReachIn(g, s, w, k) ensures du + 1 <= k {
      UnvisitedBound(g, s, visited, queue, {u}, distances, du, w, k);
    }
    ReachStep(g, s, u, w, du);
    var q := queue + [w];
    forall j | 0 <= j < |queue| ensures q[j] == queue[j] { }
  }

  /** Once every neighbour of u is visited, u needs no exemption. */
  lemma FinishExpansion(g: Adjacency, visited: set<int>, queue: seq<int>, u: int)
    requires u in g && Expanded(g, visited, queue, {u})
    requires forall j :: 0 <= j < |g[u]| ==> g[u][j] in visited
    ensures Expanded(g, visited, queue, {})
  {
  }

  /**
   * A walk into a vertex w that is not yet visited leaves the visited set
   * through a vertex of the queue or of `skip`, so it is longer than the
   * distance h below which none of those lies.
   */
  lemma {:induction false} UnvisitedBound(g: Adjacency, s: int, visited: set<int>, queue: seq<int>, skip: set<int>,
                                          distances: map<int, int>, h: int, w: int, k: nat)
    requires Settled(g, s, visited, distances) && Expanded(g, visited, queue, skip)
    requires forall v :: v in visited && (v in queue || v in skip) ==> distances[v] >= h
    requires w !in visited && ReachIn(g, s, w, k)
    ensures k >= h + 1
    decreases k
  {
    if k > 0 {
      var y :| y in g && ReachIn(g, s, y, k - 1) && w in g[y];
      if y in visited {
        var i :| 0 <= i < |g[y]| && g[y][i] == w;
        assert y in queue || y in skip;
      } else {
        UnvisitedBound(g, s, visited, queue, skip, distances, h, y, k - 1);
      }
    }
  }

  /** Hop distances are unique. */
  lemma HopDistanceUnique(g: Adjacency, s: int, v: int, d1: int, d2: int)
    requires IsHopDistance(g, s, v, d1) && IsHopDistance(g, s, v, d2)
    ensures d1 == d2
  {
  }

  /**
   * Every finite distance other than the source's is one more than the
   * distance of a predecessor that reaches it.
   */
  lemma HopDistancePredecessor(g: Adjacency, s: int, v: int, d: int)
    requires IsHopDistance(g, s, v, d) && d > 0
    ensures exists u :: u in g && v in g[u] && IsHopDistance(g, s, u, d - 1)
  {
    var u :| u in g && ReachIn(g, s, u, d - 1) && v in g[u];
    forall k: nat | ReachIn(g, s, u, k) ensures d - 1 <= k {
      ReachStep(g, s, u, v, k);
    }
  }

  /** Along an edge u -> v the hop distance grows by at most one. */
  lemma HopDistanceEdge(g: Adjacency, s: int, u: int, v: int, du: int, dv: int)
    requires u in g && v in g[u]
    requires IsHopDistance(g, s, u, du) && IsHopDistance(g, s, v, dv)
    ensures dv <= du + 1
  {
    ReachStep(g, s, u, v, du);
  }
}
