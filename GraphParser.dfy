/**
 * GraphParser: builds the adjacency map from the vertex and edge records of
 * a graph (each record already split into ids), remembers the result for
 * later calls, and derives the undirected form of an adjacency map.
 */
module GraphParsing {
  import opened Wrappers
  import opened Graphs

  /** A line of the vertex file: empty, or one vertex id. */
  datatype VertexLine = EmptyVertexLine | VertexId(id: int)

  /** A line of the edge file: empty, or a source id and a destination id. */
  datatype EdgeLine = EmptyEdgeLine | EdgeRecord(source: int, destination: int)

  /**
   * The map after `lines` have been read into `m`: each id of a non-empty
   * line is put with an empty list, and the other keys keep their lists.
   */
  function PutVertices(m: Adjacency, lines: seq<VertexLine>): (r: Adjacency)
    ensures forall v :: v in r <==> v in m || IsVertexOf(lines, v)
    ensures forall v :: IsVertexOf(lines, v) ==> r[v] == []
    ensures forall v :: v in m && !IsVertexOf(lines, v) ==> r[v] == m[v]
  {
    if lines == [] then m
    else
      var m' := PutVertices(m, lines[..|lines| - 1]);
      VertexOfLast(lines);
      match lines[|lines| - 1]
      case EmptyVertexLine => m'
      case VertexId(id) => m'[id := []]
  }

  /** An id is on a line of `lines` exactly when it is on a line before the last one or on the last one. */
  lemma VertexOfLast(lines: seq<VertexLine>)
    requires lines != []
    ensures forall v :: IsVertexOf(lines, v) <==>
      IsVertexOf(lines[..|lines| - 1], v) || lines[|lines| - 1] == VertexId(v)
  {
    var n := |lines| - 1;
    forall v | IsVertexOf(lines[..n], v) ensures IsVertexOf(lines, v) {
      var i :| 0 <= i < n && lines[..n][i] == VertexId(v);
      assert lines[i] == VertexId(v);
    }
    forall v | IsVertexOf(lines, v) && lines[n] != VertexId(v) ensures IsVertexOf(lines[..n], v) {
      var i :| 0 <= i < |lines| && lines[i] == VertexId(v);
      assert lines[..n][i] == VertexId(v);
    }
  }

  /**
   * One edge record applied to `m`: the destination is appended to the
   * source's list and, when the graph is undirected, the source to the
   * destination's list. A lookup of an id that is not a key fails (Java's
   * `get` returns null), leaving what was already appended; the second
   * component names the id that was missing.
   */
  function AddEdge(m: Adjacency, source: int, destination: int, directed: bool): (r: (Adjacency, Option<int>))
    ensures r.0.Keys == m.Keys
    ensures r.1.None? <==> source in m && (directed || destination in m)
    ensures r.1.Some? ==> r.1.value !in m && (r.1.value == source || r.1.value == destination)
    ensures r.1.None? ==> forall v :: v in m ==>
      r.0[v] == m[v] + (if v == source then [destination] else []) + (if !directed && v == destination then [source] else [])
  {
    if source !in m then (m, Some(source))
    else
      var m1 := m[source := m[source] + [destination]];
      if directed then (m1, None)
      else if destination !in m1 then (m1, Some(destination))
      else (m1[destination := m1[destination] + [source]], None)
  }

  /** The edge records applied in order, stopping at the first one that fails. */
  function AddEdges(m: Adjacency, lines: seq<EdgeLine>, directed: bool): (r: (Adjacency, Option<int>))
    ensures r.0.Keys == m.Keys
    ensures r.1.Some? ==> r.1.value !in m
  {
    if lines == [] then (m, None)
    else
      var (m', missing) := AddEdges(m, lines[..|lines| - 1], directed);
      if missing.Some? then (m', missing)
      else
        match lines[|lines| - 1]
        case EmptyEdgeLine => (m', None)
        case EdgeRecord(s, d) => AddEdge(m', s, d, directed)
  }

  /** The ids the records put in the vertex set. */
  ghost predicate IsVertexOf(lines: seq<VertexLine>, v: int) {
    exists i :: 0 <= i < |lines| && lines[i] == VertexId(v)
  }

  /** Every id a record looks up is a vertex: the source always, the destination too when undirected. */
  ghost predicate KnownEndpoints(keys: set<int>, lines: seq<EdgeLine>, directed: bool) {
    forall i :: 0 <= i < |lines| && lines[i].EdgeRecord? ==>
      lines[i].source in keys && (directed || lines[i].destination in keys)
  }

  /** What the records append to v's list, in record order. */
  function Incident(lines: seq<EdgeLine>, v: int, directed: bool): seq<int>
  {
    if lines == [] then []
    else
      var rest := Incident(lines[..|lines| - 1], v, directed);
      match lines[|lines| - 1]
      case EmptyEdgeLine => rest
      case EdgeRecord(s, d) =>
        rest + (if s == v then [d] else []) + (if !directed && d == v then [s] else [])
  }

  class GraphParser {
    const vertexLines: seq<VertexLine>
    const edgeLines: seq<EdgeLine>
    const graphIsDirected: bool
    /** The memoised adjacency map; None until the first call to Parse. */
    var graphData: Option<Adjacency>

    constructor (vertexLines: seq<VertexLine>, edgeLines: seq<EdgeLine>, graphIsDirected: bool)
      ensures this.vertexLines == vertexLines && this.edgeLines == edgeLines
      ensures this.graphIsDirected == graphIsDirected && graphData == None
    {
      this.vertexLines := vertexLines;
      this.edgeLines := edgeLines;
      this.graphIsDirected := graphIsDirected;
      graphData := None;
    }

    /**
     * The adjacency map of the graph. A second call returns the map of the
     * first without reading the records again, also when the first call
     * failed half-way: the partly filled map stays memoised.
     */
    method Parse() returns (r: Result<Adjacency, GraphError>)
      modifies this
      ensures old(graphData).Some? ==> graphData == old(graphData) && r == Success(graphData.value)
      ensures old(graphData).None? ==>
        var (m, missing) := AddEdges(PutVertices(map[], vertexLines), edgeLines, graphIsDirected);
        && graphData == Some(m)
        && r == if missing.None? then Success(m) else Failure(UnknownVertex(missing.value))
    {
      if graphData.Some? {
        return Success(graphData.value);
      }
      graphData := Some(map[]);
      ParseVertices();
      var missing := ParseEdges();
      if missing.Some? {
        return Failure(UnknownVertex(missing.value));
      }
      r := Success(graphData.value);
    }

    /** Puts every id of a non-empty vertex line into the map with an empty list. */
    method ParseVertices()
      requires graphData.Some?
      modifies this
      ensures graphData == Some(PutVertices(old(graphData).value, vertexLines))
    {
      var i := 0;
      while i < |vertexLines|
        invariant 0 <= i <= |vertexLines|
        invariant graphData == Some(PutVertices(old(graphData).value, vertexLines[..i]))
      {
        assert vertexLines[..i + 1][..i] == vertexLines[..i];
        match vertexLines[i] {
          case EmptyVertexLine =>
          case VertexId(id) =>
            graphData := Some(graphData.value[id := []]);
        }
        i := i + 1;
      }
      assert vertexLines[..i] == vertexLines;
    }

    /** Appends every edge record to the lists; stops at the first id that is not a vertex and names it. */
    method ParseEdges() returns (missing: Option<int>)
      requires graphData.Some?
      modifies this
      ensures graphData.Some?
      ensures (graphData.value, missing) == AddEdges(old(graphData).value, edgeLines, graphIsDirected)
    {
      ghost var start := graphData.value;
      var i := 0;
      while i < |edgeLines|
        invariant 0 <= i <= |edgeLines| && graphData.Some?
        invariant AddEdges(start, edgeLines[..i], graphIsDirected) == (graphData.value, None)
      {
        assert edgeLines[..i + 1][..i] == edgeLines[..i];
        match edgeLines[i] {
          case EmptyEdgeLine =>
          case EdgeRecord(source, destination) =>
            var m := graphData.value;
            if source !in m {
              AddEdgesStopped(start, edgeLines, graphIsDirected, i + 1);
              return Some(source);
            }
            m := m[source := m[source] + [destination]];
            graphData := Some(m);
            if !graphIsDirected {
              if destination !in m {
                AddEdgesStopped(start, edgeLines, graphIsDirected, i + 1);
                return Some(destination);
              }
              graphData := Some(m[destination := m[destination] + [source]]);
            }
        }
        i := i + 1;
      }
      assert edgeLines[..i] == edgeLines;
      missing := None;
    }
  }

  /** Once a record has failed, the later records are not applied. */
  lemma {:induction false} AddEdgesStopped(m: Adjacency, lines: seq<EdgeLine>, directed: bool, i: nat)
    requires i <= |lines| && AddEdges(m, lines[..i], directed).1.Some?
    ensures AddEdges(m, lines, directed) == AddEdges(m, lines[..i], directed)
    decreases |lines| - i
  {
    if i < |lines| {
      assert lines[..i + 1][..i] == lines[..i];
      AddEdgesStopped(m, lines, directed, i + 1);
    } else {
      assert lines[..i] == lines;
    }
  }

  /**
   * parseEdges succeeds exactly when every looked-up id is a vertex; then
   * each list is the original one followed by what the records append to it,
   * in record order.
   */
  lemma {:induction false} AddEdgesResult(m: Adjacency, lines: seq<EdgeLine>, directed: bool)
    ensures AddEdges(m, lines, directed).0.Keys == m.Keys
    ensures AddEdges(m, lines, directed).1.None? <==> KnownEndpoints(m.Keys, lines, directed)
    ensures AddEdges(m, lines, directed).1.None? ==>
      forall v :: v in m ==> AddEdges(m, lines, directed).0[v] == m[v] + Incident(lines, v, directed)
  {
    if lines != [] {
      var n := |lines| - 1;
      var prefix := lines[..n];
      AddEdgesResult(m, prefix, directed);
      assert forall i :: 0 <= i < n ==> prefix[i] == lines[i];
      if KnownEndpoints(m.Keys, lines, directed) {
        assert KnownEndpoints(m.Keys, prefix, directed);
      }
      var (m', missing) := AddEdges(m, prefix, directed);
      if missing.None? {
        match lines[n]
        case EmptyEdgeLine =>
        case EdgeRecord(s, d) =>
          if s in m && (directed || d in m) {
            forall v | v in m
              ensures AddEdges(m, lines, directed).0[v] == m[v] + Incident(lines, v, directed)
            {
              AddEdgeIncident(m, m', prefix, lines, s, d, directed, v);
            }
          } else {
            assert !KnownEndpoints(m.Keys, lines, directed);
          }
      }
    }
  }

  /** The record s -> d with known endpoints appends to v's list exactly what Incident adds for it. */
  lemma AddEdgeIncident(m: Adjacency, m': Adjacency, prefix: seq<EdgeLine>, lines: seq<EdgeLine>,
                        s: int, d: int, directed: bool, v: int)
    requires lines == prefix + [EdgeRecord(s, d)] && m'.Keys == m.Keys && s in m && (directed || d in m) && v in m
    requires AddEdges(m, prefix, directed) == (m', None) && m'[v] == m[v] + Incident(prefix, v, directed)
    ensures AddEdges(m, lines, directed).0[v] == m[v] + Incident(lines, v, directed)
  {
    assert lines[..|lines| - 1] == prefix;
    assert AddEdges(m, lines, directed) == AddEdge(m', s, d, directed);
    var a := if s == v then [d] else [];
    var b := if !directed && d == v then [s] else [];
    assert Incident(lines, v, directed) == Incident(prefix, v, directed) + a + b;
    assert AddEdge(m', s, d, directed).0[v] == m'[v] + a + b;
    AppendAssoc(m[v], Incident(prefix, v, directed), a, b);
  }

  lemma AppendAssoc(x: seq<int>, y: seq<int>, a: seq<int>, b: seq<int>)
    ensures (x + y) + a + b == x + (y + a + b)
  {
  }

  /** How often `lines` append v to u's list. */
  lemma {:induction false} IncidentCount(lines: seq<EdgeLine>, u: int, v: int)
    ensures multiset(Incident(lines, u, false))[v] == multiset(Incident(lines, v, false))[u]
  {
    if lines != [] {
      var p := lines[..|lines| - 1];
      IncidentCount(p, u, v);
      match lines[|lines| - 1] {
        case EmptyEdgeLine =>
        case EdgeRecord(s, d) =>
          assert lines == p + [EdgeRecord(s, d)];
          IncidentRecord(p, lines, s, d, u, v);
          IncidentRecord(p, lines, s, d, v, u);
      }
    }
  }

  /** The last record s -> d of an undirected graph adds one v to u's list for each of its two ends that match. */
  lemma IncidentRecord(p: seq<EdgeLine>, lines: seq<EdgeLine>, s: int, d: int, u: int, v: int)
    requires lines == p + [EdgeRecord(s, d)]
    ensures multiset(Incident(lines, u, false))[v]
      == multiset(Incident(p, u, false))[v] + (if s == u && d == v then 1 else 0) + (if d == u && s == v then 1 else 0)
  {
    assert lines[..|lines| - 1] == p;
    var a := if s == u then [d] else [];
    var b := if d == u then [s] else [];
    assert Incident(lines, u, false) == Incident(p, u, false) + a + b;
    assert multiset(Incident(lines, u, false)) == multiset(Incident(p, u, false)) + multiset(a) + multiset(b);
  }

  /** For an undirected graph the parsed lists are mirrored: every edge u -> v has an edge v -> u. */
  lemma UndirectedParseSymmetric(vertexLines: seq<VertexLine>, edgeLines: seq<EdgeLine>)
    requires AddEdges(PutVertices(map[], vertexLines), edgeLines, false).1.None?
    ensures Symmetric(AddEdges(PutVertices(map[], vertexLines), edgeLines, false).0)
    ensures Closed(AddEdges(PutVertices(map[], vertexLines), edgeLines, false).0)
  {
    var m := PutVertices(map[], vertexLines);
    var g := AddEdges(m, edgeLines, false).0;
    AddEdgesResult(m, edgeLines, false);
    forall u, i | u in g && 0 <= i < |g[u]|
      ensures g[u][i] in g && u in g[g[u][i]]
    {
      var v := g[u][i];
      assert v in multiset(Incident(edgeLines, u, false));
      IncidentCount(edgeLines, u, v);
      IncidentInKeys(m.Keys, edgeLines, u, v);
      assert u in multiset(Incident(edgeLines, v, false));
    }
  }

  /** With known endpoints, whatever the records append is a vertex. */
  lemma {:induction false} IncidentInKeys(keys: set<int>, lines: seq<EdgeLine>, u: int, v: int)
    requires KnownEndpoints(keys, lines, false) && v in Incident(lines, u, false)
    ensures v in keys
  {
    var n := |lines| - 1;
    assert KnownEndpoints(keys, lines[..n], false) by {
      assert forall i :: 0 <= i < n ==> lines[..n][i] == lines[i];
    }
    if v in Incident(lines[..n], u, false) {
      IncidentInKeys(keys, lines[..n], u, v);
    }
  }

  // ----- convertToUndirected -----

  /** Every edge s -> d of `ds` in order: d is appended to s's list, then s to d's list. */
  function MirrorEdges(acc: Adjacency, s: int, ds: seq<int>): (r: Adjacency)
    requires s in acc && forall i :: 0 <= i < |ds| ==> ds[i] in acc
    ensures r.Keys == acc.Keys
  {
    if ds == [] then acc
    else
      var m := MirrorEdges(acc, s, ds[..|ds| - 1]);
      var d := ds[|ds| - 1];
      var m1 := m[s := m[s] + [d]];
      m1[d := m1[d] + [s]]
  }

  /** The edges of the vertices of `order`, in that order, mirrored into `acc`. */
  function MirrorAll(g: Adjacency, order: seq<int>, acc: Adjacency): (r: Adjacency)
    requires Closed(g) && acc.Keys == g.Keys
    requires forall i :: 0 <= i < |order| ==> order[i] in g
    ensures r.Keys == acc.Keys
  {
    if order == [] then acc
    else
      var s := order[|order| - 1];
      MirrorEdges(MirrorAll(g, order[..|order| - 1], acc), s, g[s])
  }

  /** Every vertex with an empty list. */
  function EmptyLists(g: Adjacency): Adjacency
  {
    map v | v in g :: []
  }

  /** A map that puts an empty list at each key of g, and nothing else, is EmptyLists(g). */
  lemma EmptyListsOf(g: Adjacency, keys: seq<int>, m: Adjacency)
    requires IsEnumeration(keys, g.Keys)
    requires forall v :: v in m <==> v in keys[..|keys|]
    requires forall v :: v in m ==> m[v] == []
    ensures m == EmptyLists(g)
  {
    var empty := EmptyLists(g);
    assert keys[..|keys|] == keys;
    forall v ensures v in m <==> v in empty
      ensures v in empty ==> m[v] == empty[v]
    {
      assert v in keys[..|keys|] <==> v in keys;
    }
  }

  /** The map convertToUndirected builds when the key set is iterated in `order`. */
  function UndirectedOf(g: Adjacency, order: seq<int>): Adjacency
    requires Closed(g) && forall i :: 0 <= i < |order| ==> order[i] in g
  {
    MirrorAll(g, order, EmptyLists(g))
  }

  /**
   * Builds a new map with the same keys in which every edge s -> d appears
   * as d in s's list and as s in d's list; the input is left as it is.
   */
  method ConvertToUndirected(graphData: Adjacency) returns (newGraphData: Adjacency, ghost order: seq<int>)
    requires Closed(graphData)
    ensures IsEnumeration(order, graphData.Keys)
    ensures newGraphData == UndirectedOf(graphData, order)
    ensures newGraphData.Keys == graphData.Keys && Closed(newGraphData) && Symmetric(newGraphData)
    ensures forall x, y :: x in graphData && y in graphData ==>
      (y in newGraphData[x] <==> y in graphData[x] || x in graphData[y])
  {
    var keys := Enumerate(graphData.Keys);
    order := keys;
    newGraphData := map[];
    for j := 0 to |keys|
      invariant forall v :: v in newGraphData <==> v in keys[..j]
      invariant forall v :: v in newGraphData ==> newGraphData[v] == []
    {
      newGraphData := newGraphData[keys[j] := []];
    }
    ghost var empty := EmptyLists(graphData);
    EmptyListsOf(graphData, keys, newGraphData);
    for j := 0 to |keys|
      invariant newGraphData == MirrorAll(graphData, keys[..j], empty)
    {
      assert keys[..j + 1][..j] == keys[..j];
      var source := keys[j];
      newGraphData := MirrorInto(newGraphData, source, graphData[source]);
    }
    assert keys[..|keys|] == keys;
    UndirectedOfMeaning(graphData, order);
  }

  /** The inner loop of convertToUndirected: each edge source -> d appended to both lists in turn. */
  method MirrorInto(m: Adjacency, source: int, destinations: seq<int>) returns (r: Adjacency)
    requires source in m && forall i :: 0 <= i < |destinations| ==> destinations[i] in m
    ensures r == MirrorEdges(m, source, destinations)
  {
    r := m;
    for i := 0 to |destinations|
      invariant r == MirrorEdges(m, source, destinations[..i])
    {
      assert destinations[..i + 1][..i] == destinations[..i];
      var destination := destinations[i];
      r := r[source := r[source] + [destination]];
      r := r[destination := r[destination] + [source]];
    }
    assert destinations[..|destinations|] == destinations;
  }

  lemma {:induction false} MirrorEdgesCount(acc: Adjacency, s: int, ds: seq<int>, x: int, y: int)
    requires s in acc && x in acc && forall i :: 0 <= i < |ds| ==> ds[i] in acc
    ensures multiset(MirrorEdges(acc, s, ds)[x])[y]
      == multiset(acc[x])[y] + (if x == s then multiset(ds)[y] else 0) + (if y == s then multiset(ds)[x] else 0)
  {
    if ds != [] {
      var n := |ds| - 1;
      MirrorEdgesCount(acc, s, ds[..n], x, y);
      assert ds == ds[..n] + [ds[n]];
      assert multiset(ds) == multiset(ds[..n]) + multiset{ds[n]};
      MirrorOneCount(MirrorEdges(acc, s, ds[..n]), s, ds[n], x, y);
    }
  }

  /** Mirroring the single edge s -> d adds one y to x's list for each of the two appends that match. */
  lemma MirrorOneCount(m: Adjacency, s: int, d: int, x: int, y: int)
    requires s in m && d in m && x in m
    ensures var m1 := m[s := m[s] + [d]];
      multiset(m1[d := m1[d] + [s]][x])[y]
        == multiset(m[x])[y] + (if x == s && y == d then 1 else 0) + (if x == d && y == s then 1 else 0)
  {
    var m1 := m[s := m[s] + [d]];
    assert multiset(m1[s]) == multiset(m[s]) + multiset{d};
    assert multiset(m1[d] + [s]) == multiset(m1[d]) + multiset{s};
  }

  lemma {:induction false} MirrorAllCount(g: Adjacency, order: seq<int>, acc: Adjacency, x: int, y: int)
    requires Closed(g) && acc.Keys == g.Keys && x in g
    requires forall i :: 0 <= i < |order| ==> order[i] in g
    requires forall i, j :: 0 <= i < j < |order| ==> order[i] != order[j]
    ensures multiset(MirrorAll(g, order, acc)[x])[y]
      == multiset(acc[x])[y] + (if x in order then multiset(g[x])[y] else 0)
                             + (if y in order then multiset(g[y])[x] else 0)
  {
    if order != [] {
      var n := |order| - 1;
      var s := order[n];
      MirrorAllCount(g, order[..n], acc, x, y);
      MirrorEdgesCount(MirrorAll(g, order[..n], acc), s, g[s], x, y);
      assert order == order[..n] + [s];
      assert s !in order[..n];
    }
  }

  /**
   * convertToUndirected: same key set, and the new list of x holds x's own
   * destinations plus one x-source per edge entering x, so its length is
   * out-degree plus in-degree, counted with multiplicity.
   */
  lemma UndirectedOfLists(g: Adjacency, order: seq<int>, x: int)
    requires Closed(g) && IsEnumeration(order, g.Keys) && x in g
    ensures UndirectedOf(g, order).Keys == g.Keys
    ensures multiset(UndirectedOf(g, order)[x]) == multiset(g[x]) + multiset(InSources(g, order, x))
    ensures |UndirectedOf(g, order)[x]| == |g[x]| + |InSources(g, order, x)|
  {
    var r := UndirectedOf(g, order);
    forall y ensures multiset(r[x])[y] == (multiset(g[x]) + multiset(InSources(g, order, x)))[y] {
      MirrorAllCount(g, order, EmptyLists(g), x, y);
      InSourcesCount(g, order, x, y);
    }
    assert multiset(r[x]) == multiset(g[x]) + multiset(InSources(g, order, x));
    assert |multiset(r[x])| == |r[x]|;
  }

  /** y is in x's new list exactly when g has an edge x -> y or an edge y -> x. */
  lemma UndirectedOfMember(g: Adjacency, order: seq<int>, x: int, y: int)
    requires Closed(g) && IsEnumeration(order, g.Keys) && x in g && y in g
    ensures y in UndirectedOf(g, order)[x] <==> y in g[x] || x in g[y]
  {
    MirrorAllCount(g, order, EmptyLists(g), x, y);
  }

  /** The converted map is closed and symmetric. */
  lemma UndirectedOfSymmetric(g: Adjacency, order: seq<int>)
    requires Closed(g) && IsEnumeration(order, g.Keys)
    ensures Closed(UndirectedOf(g, order)) && Symmetric(UndirectedOf(g, order))
  {
    var r := UndirectedOf(g, order);
    forall x, i | x in r && 0 <= i < |r[x]|
      ensures r[x][i] in r && x in r[r[x][i]]
    {
      var y := r[x][i];
      MirrorAllCount(g, order, EmptyLists(g), x, y);
      assert y in multiset(r[x]);
      if y in g {
        UndirectedOfMember(g, order, y, x);
        UndirectedOfMember(g, order, x, y);
      } else {
        assert false;
      }
    }
  }

  /**
   * The converted map has the same vertices, is closed and symmetric, and
   * joins x and y exactly when the input has an edge between them in either
   * direction.
   */
  lemma UndirectedOfMeaning(g: Adjacency, order: seq<int>)
    requires Closed(g) && IsEnumeration(order, g.Keys)
    ensures UndirectedOf(g, order).Keys == g.Keys
    ensures Closed(UndirectedOf(g, order)) && Symmetric(UndirectedOf(g, order))
    ensures forall x, y :: x in g && y in g ==> (y in UndirectedOf(g, order)[x] <==> y in g[x] || x in g[y])
  {
    UndirectedOfSymmetric(g, order);
    forall x, y | x in g && y in g
      ensures y in UndirectedOf(g, order)[x] <==> y in g[x] || x in g[y]
    {
      UndirectedOfMember(g, order, x, y);
    }
  }

  /** The total number of list entries of the vertices in `order`. */
  function Size(m: Adjacency, order: seq<int>): nat
    requires forall i :: 0 <= i < |order| ==> order[i] in m
  {
    if order == [] then 0 else Size(m, order[..|order| - 1]) + |m[order[|order| - 1]]|
  }

  lemma {:induction false} SizeAppend(m: Adjacency, order: seq<int>, x: int, y: int)
    requires x in m && forall i :: 0 <= i < |order| ==> order[i] in m
    requires forall i, j :: 0 <= i < j < |order| ==> order[i] != order[j]
    ensures Size(m[x := m[x] + [y]], order) == Size(m, order) + if x in order then 1 else 0
  {
    if order != [] {
      var n := |order| - 1;
      SizeAppend(m, order[..n], x, y);
      assert order == order[..n] + [order[n]];
    }
  }

  lemma {:induction false} MirrorEdgesSize(acc: Adjacency, s: int, ds: seq<int>, order: seq<int>)
    requires s in acc && forall i :: 0 <= i < |ds| ==> ds[i] in acc
    requires IsEnumeration(order, acc.Keys)
    ensures Size(MirrorEdges(acc, s, ds), order) == Size(acc, order) + 2 * |ds|
  {
    if ds != [] {
      var n := |ds| - 1;
      var d := ds[n];
      MirrorEdgesSize(acc, s, ds[..n], order);
      var m := MirrorEdges(acc, s, ds[..n]);
      SizeAppend(m, order, s, d);
      SizeAppend(m[s := m[s] + [d]], order, d, s);
    }
  }

  lemma {:induction false} MirrorAllSize(g: Adjacency, o: seq<int>, acc: Adjacency, order: seq<int>)
    requires Closed(g) && acc.Keys == g.Keys && IsEnumeration(order, g.Keys)
    requires forall i :: 0 <= i < |o| ==> o[i] in g
    ensures Size(MirrorAll(g, o, acc), order) == Size(acc, order) + 2 * Size(g, o)
  {
    if o != [] {
      var n := |o| - 1;
      MirrorAllSize(g, o[..n], acc, order);
      MirrorEdgesSize(MirrorAll(g, o[..n], acc), o[n], g[o[n]], order);
    }
  }

  lemma {:induction false} EmptySize(g: Adjacency, order: seq<int>)
    requires forall i :: 0 <= i < |order| ==> order[i] in g
    ensures Size(EmptyLists(g), order) == 0
  {
    if order != [] {
      EmptySize(g, order[..|order| - 1]);
    }
  }

  /** convertToUndirected doubles the total number of list entries. */
  lemma UndirectedOfSize(g: Adjacency, order: seq<int>)
    requires Closed(g) && IsEnumeration(order, g.Keys)
    ensures Size(UndirectedOf(g, order), order) == 2 * Size(g, order)
  {
    MirrorAllSize(g, order, EmptyLists(g), order);
    EmptySize(g, order);
  }
}
