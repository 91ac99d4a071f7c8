/**
 * WeaklyConnectedComponentsJob and ConnectedComponentsJob: component ids
 * handed out by a breadth-first flood fill from every vertex that has no id
 * yet, in the order in which the vertices are enumerated.
 */
module Components {
  import opened Graphs
  import opened PropertyGraphs
  import GraphParsing

  /**
   * Component ids 0, 1, ... are handed out in the order in which `order`
   * first meets each component: rootIndex[c] is the position of the vertex
   * that opened component c.
   */
  ghost predicate FirstSeenIds(order: seq<int>, comp: map<int, int>, rootIndex: seq<int>) {
    && (forall c :: 0 <= c < |rootIndex| ==>
          0 <= rootIndex[c] < |order| && order[rootIndex[c]] in comp && comp[order[rootIndex[c]]] == c)
    && (forall c, d :: 0 <= c < d < |rootIndex| ==> rootIndex[c] < rootIndex[d])
    && (forall v :: v in comp ==> 0 <= comp[v] < |rootIndex|)
    && (forall j :: 0 <= j < |order| && order[j] in comp ==> rootIndex[comp[order[j]]] <= j)
  }

  /** The ids given so far: first-seen numbering, and every vertex reached from the opener of its component. */
  ghost predicate Ids(g: Adjacency, order: seq<int>, comp: map<int, int>, rootIndex: seq<int>) {
    && comp.Keys <= g.Keys
    && FirstSeenIds(order, comp, rootIndex)
    && (forall v :: v in comp ==> Reachable(g, order[rootIndex[comp[v]]], v))
  }

  /** Every vertex with an id, outside the queue and `skip`, has all its neighbours in its own component. */
  ghost predicate Finished(g: Adjacency, comp: map<int, int>, queue: seq<int>, skip: set<int>) {
    forall v, x :: v in comp && v !in queue && v !in skip && v in g && x in g[v] ==> x in comp && comp[x] == comp[v]
  }

  /** Every queued vertex belongs to component c. */
  ghost predicate Frontier(comp: map<int, int>, queue: seq<int>, c: int) {
    forall j :: 0 <= j < |queue| ==> queue[j] in comp && comp[queue[j]] == c
  }

  /**
   * The flood fill both jobs run: visit the vertices in `order`, open a new
   * component at each one without an id and give its id to everything a FIFO
   * queue reaches from it. On a symmetric adjacency two vertices share an id
   * exactly when one reaches the other.
   */
  method FloodFill(g: Adjacency, order: seq<int>) returns (comp: map<int, int>, ghost rootIndex: seq<int>)
    requires Closed(g) && Symmetric(g) && IsEnumeration(order, g.Keys)
    ensures comp.Keys == g.Keys
    ensures FirstSeenIds(order, comp, rootIndex)
    ensures forall x, y :: x in comp && y in comp ==> (comp[x] == comp[y] <==> Reachable(g, x, y))
  {
    comp := map[];
    var numComponents := 0;
    rootIndex := [];
    for i := 0 to |order|
      invariant Ids(g, order, comp, rootIndex) && numComponents == |rootIndex|
      invariant forall j :: 0 <= j < i ==> order[j] in comp
      invariant forall c :: 0 <= c < |rootIndex| ==> rootIndex[c] < i
      invariant Finished(g, comp, [], {})
    {
      var v := order[i];
      if v !in comp {
        var componentId := numComponents;
        numComponents := numComponents + 1;
        Open(g, order, comp, rootIndex, i);
        comp := comp[v := componentId];
        rootIndex := rootIndex + [i];
        comp := FillComponent(g, order, rootIndex, i, componentId, comp);
      }
    }
    AllFilled(g, order, comp, rootIndex);
  }

  /** After the last vertex of the enumeration every vertex has an id, and ids are shared exactly by connected vertices. */
  lemma AllFilled(g: Adjacency, order: seq<int>, comp: map<int, int>, rootIndex: seq<int>)
    requires Symmetric(g) && IsEnumeration(order, g.Keys) && Ids(g, order, comp, rootIndex)
    requires forall j :: 0 <= j < |order| ==> order[j] in comp
    requires Finished(g, comp, [], {})
    ensures comp.Keys == g.Keys
    ensures forall x, y :: x in comp && y in comp ==> (comp[x] == comp[y] <==> Reachable(g, x, y))
  {
    forall v | v in g ensures v in comp {
      assert v in order;
      var j :| 0 <= j < |order| && order[j] == v;
    }
    forall x, y | x in comp && y in comp
      ensures comp[x] == comp[y] <==> Reachable(g, x, y)
    {
      SameIdConnected(g, order, comp, rootIndex, x, y);
    }
  }

  /**
   * The breadth-first search from the vertex at position i, which has just
   * opened component componentId, the last one: every vertex it reaches gets
   * that id.
   */
  method FillComponent(g: Adjacency, order: seq<int>, ghost rootIndex: seq<int>, i: int, componentId: int,
                       comp0: map<int, int>)
    returns (comp: map<int, int>)
    requires Closed(g) && Symmetric(g) && Ids(g, order, comp0, rootIndex)
    requires 0 <= componentId == |rootIndex| - 1 && 0 <= i < |order| && rootIndex[componentId] == i
    requires forall j :: 0 <= j < i ==> order[j] in comp0
    requires forall c :: 0 <= c < |rootIndex| ==> rootIndex[c] <= i
    requires Finished(g, comp0, [order[i]], {})
    ensures Ids(g, order, comp, rootIndex) && Finished(g, comp, [], {})
    ensures comp0.Keys <= comp.Keys && forall v :: v in comp0 ==> comp[v] == comp0[v]
  {
    comp := comp0;
    var queue := [order[i]];
    SubsetCard(comp.Keys, g.Keys);
    while queue != []
      invariant Ids(g, order, comp, rootIndex) && comp0.Keys <= comp.Keys
      invariant forall v :: v in comp0 ==> comp[v] == comp0[v]
      invariant Frontier(comp, queue, componentId) && Finished(g, comp, queue, {})
      invariant |comp| <= |g|
      decreases |g| - |comp|, |queue|
    {
      var u := queue[0];
      Dequeue(g, comp, queue);
      queue := queue[1..];
      ghost var before := comp;
      comp, queue := LabelNeighbours(g, order, rootIndex, u, componentId, comp, queue);
      SubsetCard(before.Keys, comp.Keys);
      SubsetCard(comp.Keys, g.Keys);
    }
  }

  /** Opening component |rootIndex| at position i keeps the first-seen numbering. */
  lemma Open(g: Adjacency, order: seq<int>, comp: map<int, int>, rootIndex: seq<int>, i: int)
    requires Ids(g, order, comp, rootIndex) && IsEnumeration(order, g.Keys)
    requires 0 <= i < |order| && order[i] !in comp
    requires forall j :: 0 <= j < i ==> order[j] in comp
    requires forall c :: 0 <= c < |rootIndex| ==> rootIndex[c] < i
    requires Finished(g, comp, [], {})
    ensures var comp' := comp[order[i] := |rootIndex|];
      Ids(g, order, comp', rootIndex + [i]) && Finished(g, comp', [order[i]], {})
  {
    var v := order[i];
    var comp' := comp[v := |rootIndex|];
    var rootIndex' := rootIndex + [i];
    assert ReachIn(g, v, v, 0);
    forall w | w in comp' ensures Reachable(g, order[rootIndex'[comp'[w]]], w) {
      if w != v {
        assert rootIndex'[comp'[w]] == rootIndex[comp[w]];
      }
    }
    forall j | 0 <= j < |order| && order[j] in comp' ensures rootIndex'[comp'[order[j]]] <= j {
      if order[j] == v {
        assert j == i;
      }
    }
  }

  /** Taking the head u off the queue leaves u as the only exempt vertex. */
  lemma Dequeue(g: Adjacency, comp: map<int, int>, queue: seq<int>)
    requires queue != [] && Finished(g, comp, queue, {})
    ensures Finished(g, comp, queue[1..], {queue[0]})
  {
    assert queue == [queue[0]] + queue[1..];
  }

  /**
   * The scan of one dequeued vertex u of component c: each neighbour without
   * an id joins c and the back of the queue; the neighbours that already have
   * an id are in c too, because the adjacency is symmetric.
   */
  method LabelNeighbours(g: Adjacency, ghost order: seq<int>, ghost rootIndex: seq<int>, u: int, c: int,
                         comp0: map<int, int>, queue0: seq<int>)
    returns (comp: map<int, int>, queue: seq<int>)
    requires Closed(g) && Symmetric(g) && Ids(g, order, comp0, rootIndex) && 0 <= c == |rootIndex| - 1
    requires forall j :: 0 <= j < rootIndex[c] ==> order[j] in comp0
    requires u in comp0 && comp0[u] == c
    requires Frontier(comp0, queue0, c) && Finished(g, comp0, queue0, {u})
    ensures Ids(g, order, comp, rootIndex) && Frontier(comp, queue, c) && Finished(g, comp, queue, {})
    ensures Appended(comp0, queue0, comp, queue, c)
  {
    comp, queue := comp0, queue0;
    LabelStart(g, order, rootIndex, u, c, comp0, queue0);
    var neighbours := g[u];
    for i := 0 to |neighbours|
      invariant Labelling(g, order, rootIndex, u, c, comp0, queue0, comp, queue, i)
    {
      var w := neighbours[i];
      if w !in comp {
        var comp1, queue1 := comp[w := c], queue + [w];
        LabelStep(g, order, rootIndex, u, c, comp0, queue0, comp, queue, i, comp1, queue1);
        comp, queue := comp1, queue1;
      } else {
        LabelStep(g, order, rootIndex, u, c, comp0, queue0, comp, queue, i, comp, queue);
      }
    }
    LabelEnd(g, order, rootIndex, u, c, comp0, queue0, comp, queue);
  }

  /**
   * What one scan does to the fill: the ids already given are kept, the
   * queue keeps queue0 as its front, and what follows queue0 is exactly the
   * vertices that got an id, each the id c.
   */
  ghost predicate Appended(comp0: map<int, int>, queue0: seq<int>, comp: map<int, int>, queue: seq<int>, c: int) {
    && comp0.Keys <= comp.Keys && (forall v :: v in comp0 ==> comp[v] == comp0[v])
    && |queue0| <= |queue| && queue[..|queue0|] == queue0
    && (forall v :: v in queue[|queue0|..] <==> v in comp && v !in comp0)
    && (forall v :: v in comp && v !in comp0 ==> comp[v] == c)
    && |queue| - |queue0| == |comp| - |comp0|
  }

  /** Giving one more vertex w the id c and appending it to the queue extends the scan. */
  lemma AppendStep(comp0: map<int, int>, queue0: seq<int>, comp: map<int, int>, queue: seq<int>, c: int, w: int)
    requires Appended(comp0, queue0, comp, queue, c) && w !in comp
    ensures Appended(comp0, queue0, comp[w := c], queue + [w], c)
  {
    var q := queue + [w];
    assert q[..|queue0|] == queue[..|queue0|];
    assert q[|queue0|..] == queue[|queue0|..] + [w];
  }

  /**
   * The state of the scan of u after its first i neighbours: the fill's
   * invariants hold with u exempt, those neighbours have the id c, and the
   * scan has only appended to the state it started from.
   */
  ghost predicate Labelling(g: Adjacency, order: seq<int>, rootIndex: seq<int>, u: int, c: int,
                            comp0: map<int, int>, queue0: seq<int>, comp: map<int, int>, queue: seq<int>, i: int) {
    && u in g && 0 <= i <= |g[u]| && u in comp && comp[u] == c
    && Ids(g, order, comp, rootIndex) && Frontier(comp, queue, c) && Finished(g, comp, queue, {u})
    && (forall j :: 0 <= j < i ==> g[u][j] in comp && comp[g[u][j]] == c)
    && Appended(comp0, queue0, comp, queue, c)
  }

  /** Before the scan of u nothing has changed. */
  lemma LabelStart(g: Adjacency, order: seq<int>, rootIndex: seq<int>, u: int, c: int,
                   comp0: map<int, int>, queue0: seq<int>)
    requires Closed(g) && Ids(g, order, comp0, rootIndex) && u in comp0 && comp0[u] == c
    requires Frontier(comp0, queue0, c) && Finished(g, comp0, queue0, {u})
    ensures Labelling(g, order, rootIndex, u, c, comp0, queue0, comp0, queue0, 0)
  {
    assert queue0[..|queue0|] == queue0;
  }

  /** Once every neighbour of u has the id c, u needs no exemption. */
  lemma LabelEnd(g: Adjacency, order: seq<int>, rootIndex: seq<int>, u: int, c: int,
                 comp0: map<int, int>, queue0: seq<int>, comp: map<int, int>, queue: seq<int>)
    requires u in g && Labelling(g, order, rootIndex, u, c, comp0, queue0, comp, queue, |g[u]|)
    ensures Ids(g, order, comp, rootIndex) && Frontier(comp, queue, c) && Finished(g, comp, queue, {})
    ensures Appended(comp0, queue0, comp, queue, c)
  {
    forall x | x in g[u] ensures x in comp && comp[x] == c {
      var j :| 0 <= j < |g[u]| && g[u][j] == x;
    }
  }

  /**
   * Scanning neighbour i of u: one without an id gets c and is queued, one
   * with an id changes nothing; either way the scan advances past it.
   */
  lemma LabelStep(g: Adjacency, order: seq<int>, rootIndex: seq<int>, u: int, c: int,
                  comp0: map<int, int>, queue0: seq<int>, comp: map<int, int>, queue: seq<int>, i: int,
                  comp': map<int, int>, queue': seq<int>)
    requires Closed(g) && Symmetric(g) && 0 <= c == |rootIndex| - 1
    requires Labelling(g, order, rootIndex, u, c, comp0, queue0, comp, queue, i) && i < |g[u]|
    requires forall j :: 0 <= j < rootIndex[c] ==> order[j] in comp0
    requires g[u][i] !in comp ==> comp' == comp[g[u][i] := c] && queue' == queue + [g[u][i]]
    requires g[u][i] in comp ==> comp' == comp && queue' == queue
    ensures Labelling(g, order, rootIndex, u, c, comp0, queue0, comp', queue', i + 1)
  {
    var w := g[u][i];
    if w !in comp {
      Label(g, order, comp, rootIndex, queue, u, c, w);
      AppendStep(comp0, queue0, comp, queue, c, w);
    } else {
      SameComponent(g, comp, queue, u, c, w);
    }
  }

  /** Giving a neighbour w of u (component c) the id c keeps every invariant, with w queued. */
  lemma Label(g: Adjacency, order: seq<int>, comp: map<int, int>, rootIndex: seq<int>, queue: seq<int>,
              u: int, c: int, w: int)
    requires Closed(g) && Ids(g, order, comp, rootIndex) && 0 <= c == |rootIndex| - 1
    requires forall j :: 0 <= j < rootIndex[c] ==> order[j] in comp
    requires u in comp && comp[u] == c && u in g && w in g[u] && w !in comp
    requires Frontier(comp, queue, c) && Finished(g, comp, queue, {u})
    ensures Ids(g, order, comp[w := c], rootIndex)
    ensures Frontier(comp[w := c], queue + [w], c) && Finished(g, comp[w := c], queue + [w], {u})
  {
    var comp' := comp[w := c];
    var i :| 0 <= i < |g[u]| && g[u][i] == w;
    var root := order[rootIndex[c]];
    var k: nat :| ReachIn(g, root, u, k);
    ReachStep(g, root, u, w, k);
    assert forall v :: v in comp' ==> 0 <= comp'[v] < |rootIndex|;
    forall j | 0 <= j < |order| && order[j] in comp' ensures rootIndex[comp'[order[j]]] <= j {
      if order[j] == w {
        assert !(j < rootIndex[c]);
      }
    }
    var q := queue + [w];
    forall j | 0 <= j < |queue| ensures q[j] == queue[j] { }
  }

  /** A neighbour of u that already has an id shares u's component. */
  lemma SameComponent(g: Adjacency, comp: map<int, int>, queue: seq<int>, u: int, c: int, w: int)
    requires Symmetric(g) && u in g && w in g[u] && u in comp && comp[u] == c && w in comp
    requires Frontier(comp, queue, c) && Finished(g, comp, queue, {u})
    ensures comp[w] == c
  {
    var i :| 0 <= i < |g[u]| && g[u][i] == w;
    assert u in g[w];
  }

  /** Sharing an id means connected, and connected means sharing an id. */
  lemma SameIdConnected(g: Adjacency, order: seq<int>, comp: map<int, int>, rootIndex: seq<int>, x: int, y: int)
    requires Symmetric(g) && Ids(g, order, comp, rootIndex) && Finished(g, comp, [], {})
    requires x in comp && y in comp
    ensures comp[x] == comp[y] <==> Reachable(g, x, y)
  {
    if comp[x] == comp[y] {
      ReachableSymTrans(g, x, order[rootIndex[comp[x]]], y);
    }
    if Reachable(g, x, y) {
      var k: nat :| ReachIn(g, x, y, k);
      IdFollowsWalk(g, comp, x, y, k);
    }
  }

  /** Once every component is finished, a walk never leaves the component it starts in. */
  lemma {:induction false} IdFollowsWalk(g: Adjacency, comp: map<int, int>, x: int, y: int, k: nat)
    requires Finished(g, comp, [], {}) && comp.Keys <= g.Keys && x in comp && ReachIn(g, x, y, k)
    ensures y in comp && comp[y] == comp[x]
    decreases k
  {
    if k > 0 {
      var z :| z in g && ReachIn(g, x, z, k - 1) && y in g[z];
      IdFollowsWalk(g, comp, x, z, k - 1);
    }
  }

  class WeaklyConnectedComponentsJob {
    const graph: PropertyGraph

    constructor (graph: PropertyGraph)
      ensures this.graph == graph
    {
      this.graph := graph;
    }

    /**
     * Every vertex's component id, following both outgoing and incoming
     * edges: two vertices share an id exactly when a walk that ignores edge
     * direction joins them, and ids are numbered in the order in which the
     * vertex list first meets each component.
     */
    method Run() returns (vertex2component: map<int, int>, ghost rootIndex: seq<int>)
      requires Valid(graph)
      ensures vertex2component.Keys == graph.outgoing.Keys
      ensures FirstSeenIds(graph.vertices, vertex2component, rootIndex)
      ensures forall x, y :: x in vertex2component && y in vertex2component ==>
        (vertex2component[x] == vertex2component[y] <==> Reachable(Neighbours(graph), x, y))
    {
      NeighboursSymmetric(graph);
      vertex2component, rootIndex := FloodFill(Neighbours(graph), graph.vertices);
    }
  }

  class ConnectedComponentsJob {
    const graphData: Adjacency

    /** A directed graph is searched through its convertToUndirected form. */
    constructor (graphData: Adjacency, directed: bool)
      requires Closed(graphData) && (!directed ==> Symmetric(graphData))
      ensures Closed(this.graphData) && Symmetric(this.graphData)
      ensures !directed ==> this.graphData == graphData
      ensures directed ==> exists order ::
        IsEnumeration(order, graphData.Keys) && this.graphData == GraphParsing.UndirectedOf(graphData, order)
    {
      if directed {
        var converted;
        ghost var order;
        converted, order := GraphParsing.ConvertToUndirected(graphData);
        this.graphData := converted;
      } else {
        this.graphData := graphData;
      }
    }

    /**
     * Every vertex's component id: two vertices share an id exactly when they
     * are connected, and ids are numbered in the order in which the key set's
     * iteration order (returned as `order`) first meets each component.
     */
    method Run() returns (vertex2component: map<int, int>, ghost order: seq<int>, ghost rootIndex: seq<int>)
      requires Closed(graphData) && Symmetric(graphData)
      ensures IsEnumeration(order, graphData.Keys)
      ensures vertex2component.Keys == graphData.Keys
      ensures FirstSeenIds(order, vertex2component, rootIndex)
      ensures forall x, y :: x in vertex2component && y in vertex2component ==>
        (vertex2component[x] == vertex2component[y] <==> Reachable(graphData, x, y))
    {
      var keys := Enumerate(graphData.Keys);
      order := keys;
      vertex2component, rootIndex := FloodFill(graphData, keys);
    }
  }
}
