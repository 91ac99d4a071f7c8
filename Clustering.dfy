/**
 * LocalClusteringCoefficientJob over adjacency maps (the `lcc` and `stats`
 * variants, which are the same code): neighbour lists become neighbour sets,
 * and each vertex v gets tri / (deg * (deg - 1)), where deg is the size of
 * its neighbourhood N(v) and tri the number of ordered pairs (u, w) of
 * members of N(v) with an edge u -> w; 0 when deg is below 2.
 */
module Clustering {
  import opened Graphs
  import GraphParsing

  type NeighbourSets = map<int, set<int>>

  /** The entries of a list, duplicates collapsed (a hash set built from the list). */
  function Elements(s: seq<int>): set<int> {
    set x | x in s
  }

  /** Every neighbour list replaced by the set of its entries. */
  function Deduplicated(g: Adjacency): (r: NeighbourSets)
    ensures r.Keys == g.Keys
  {
    map v | v in g :: Elements(g[v])
  }

  /** The neighbour set of v holds exactly the entries of v's list. */
  lemma DeduplicatedMember(g: Adjacency, v: int, w: int)
    requires v in g
    ensures v in Deduplicated(g) && (w in Deduplicated(g)[v] <==> w in g[v])
  {
  }

  /** Deduplicating a closed adjacency gives neighbour sets of vertices. */
  lemma DeduplicatedClosed(g: Adjacency)
    requires Closed(g)
    ensures forall v :: v in g ==> Deduplicated(g)[v] <= g.Keys
  {
    forall v, w | v in g && w in Deduplicated(g)[v] ensures w in g {
      var i :| 0 <= i < |g[v]| && g[v][i] == w;
    }
  }

  /** removeDuplicateNeighbours: one neighbour set per key, built key by key. */
  method RemoveDuplicateNeighbours(graphData: Adjacency) returns (uniqueNeighbours: NeighbourSets)
    ensures uniqueNeighbours == Deduplicated(graphData)
  {
    var keys := Enumerate(graphData.Keys);
    uniqueNeighbours := map[];
    for i := 0 to |keys|
      invariant uniqueNeighbours.Keys <= graphData.Keys
      invariant forall v :: v in uniqueNeighbours ==> uniqueNeighbours[v] == Elements(graphData[v])
      invariant forall j :: 0 <= j < i ==> keys[j] in uniqueNeighbours
    {
      var v := keys[i];
      uniqueNeighbours := uniqueNeighbours[v := Elements(graphData[v])];
    }
    forall v | v in graphData ensures v in uniqueNeighbours && uniqueNeighbours[v] == Deduplicated(graphData)[v] {
      assert v in keys;
      var j :| 0 <= j < |keys| && keys[j] == v;
    }
  }

  /** The ordered pairs (u, w) of members of `nbhd` with an edge u -> w. */
  ghost function TrianglePairs(outgoing: NeighbourSets, nbhd: set<int>): set<(int, int)> {
    set u, w | u in nbhd && w in nbhd && u in outgoing && w in outgoing[u] :: (u, w)
  }

  /** No vertex lists itself as a neighbour. */
  ghost predicate NoSelfLoops(outgoing: NeighbourSets) {
    forall u :: u in outgoing ==> u !in outgoing[u]
  }

  /**
   * The coefficient of one vertex: tri / (deg * (deg - 1)) as an exact
   * quotient when deg is at least 2, and 0 otherwise.
   */
  function Coefficient(tri: int, degree: int): (r: real)
    ensures degree < 2 ==> r == 0.0
    ensures degree >= 2 ==> r * (degree * (degree - 1)) as real == tri as real
  {
    if degree >= 2 then tri as real / (degree * (degree - 1)) as real else 0.0
  }

  /** A count between 0 and deg * (deg - 1) gives a coefficient in [0, 1], and the top count gives 1. */
  lemma CoefficientRange(tri: int, degree: int)
    requires 0 <= tri <= degree * (degree - 1)
    ensures 0.0 <= Coefficient(tri, degree) <= 1.0
    ensures degree >= 2 && tri == degree * (degree - 1) ==> Coefficient(tri, degree) == 1.0
  {
    if degree >= 2 {
      var d := (degree * (degree - 1)) as real;
      assert d > 0.0;
      assert tri as real <= d;
    }
  }

  // ----- counting pairs row by row -----

  /** The pairs (u, x) with u listed in `us` and x in f(u). */
  ghost function Rows(us: seq<int>, f: int -> set<int>): set<(int, int)> {
    set u, x | u in us && x in f(u) :: (u, x)
  }

  /** The sizes of the rows f(u) of the vertices listed in `us`, added up. */
  function RowSum(us: seq<int>, f: int -> set<int>): nat {
    if us == [] then 0 else RowSum(us[..|us| - 1], f) + |f(us[|us| - 1])|
  }

  /** u paired with every element of s. */
  ghost function Row(u: int, s: set<int>): set<(int, int)> {
    set x | x in s :: (u, x)
  }

  /** One row, u paired with every element of s, is as large as s. */
  lemma {:induction false} RowCard(u: int, s: set<int>)
    ensures |Row(u, s)| == |s|
    decreases |s|
  {
    if s != {} {
      HasElement(s);
      var y :| y in s;
      RowCard(u, s - {y});
      assert Row(u, s) == Row(u, s - {y}) + {(u, y)};
    }
  }

  /** Rows of distinct vertices are disjoint, so the pair count is the sum of the row sizes. */
  lemma {:induction false} RowsCard(us: seq<int>, f: int -> set<int>)
    requires forall i, j :: 0 <= i < j < |us| ==> us[i] != us[j]
    ensures |Rows(us, f)| == RowSum(us, f)
  {
    if us != [] {
      var n := |us| - 1;
      var u := us[n];
      var prefix := us[..n];
      assert forall i, j :: 0 <= i < j < |prefix| ==> prefix[i] != prefix[j];
      RowsCard(prefix, f);
      RowCard(u, f(u));
      RowsSplit(us, f);
      DisjointUnionCard(Rows(us, f), Rows(prefix, f), Row(u, f(u)));
      assert RowSum(us, f) == RowSum(prefix, f) + |f(u)|;
    }
  }

  lemma DisjointUnionCard(c: set<(int, int)>, a: set<(int, int)>, b: set<(int, int)>)
    requires c == a + b && a * b == {}
    ensures |c| == |a| + |b|
  {
  }

  /** The pairs of the last vertex are new: the pair set splits into the earlier rows and the last one, disjointly. */
  lemma RowsSplit(us: seq<int>, f: int -> set<int>)
    requires us != [] && forall i, j :: 0 <= i < j < |us| ==> us[i] != us[j]
    ensures var n := |us| - 1;
      Rows(us, f) == Rows(us[..n], f) + Row(us[n], f(us[n])) && Rows(us[..n], f) * Row(us[n], f(us[n])) == {}
  {
    var n := |us| - 1;
    var u := us[n];
    assert us == us[..n] + [u];
    assert u !in us[..n];
  }

  /** Rows of at most b elements add up to at most |us| * b, and to exactly that when all have b. */
  lemma {:induction false} RowSumBound(us: seq<int>, f: int -> set<int>, b: nat)
    requires forall i :: 0 <= i < |us| ==> |f(us[i])| <= b
    ensures RowSum(us, f) <= |us| * b
    ensures (forall i :: 0 <= i < |us| ==> |f(us[i])| == b) ==> RowSum(us, f) == |us| * b
  {
    if us != [] {
      RowSumBound(us[..|us| - 1], f, b);
    }
  }

  /** Every finite set of vertices has an enumeration. */
  lemma {:induction false} EnumerationExists(s: set<int>)
    ensures exists order :: IsEnumeration(order, s)
    decreases |s|
  {
    if s == {} {
      assert IsEnumeration([], s);
    } else {
      HasElement(s);
      var y :| y in s;
      EnumerationExists(s - {y});
      var order :| IsEnumeration(order, s - {y});
      var order' := order + [y];
      forall v | v in s ensures v in order' {
        if v != y {
          assert v in order;
        }
      }
      assert IsEnumeration(order', s);
    }
  }

  /** The row of u in the triangle count: the members of `nbhd` that u has an edge to. */
  function TriangleRow(outgoing: NeighbourSets, nbhd: set<int>): int -> set<int> {
    (u: int) => if u in outgoing then nbhd * outgoing[u] else {}
  }

  /** Counted row by row over an enumeration of the neighbourhood, the triangle pairs add up to the row sizes. */
  lemma TrianglePairsRows(outgoing: NeighbourSets, nbhd: set<int>, us: seq<int>)
    requires IsEnumeration(us, nbhd)
    ensures |TrianglePairs(outgoing, nbhd)| == RowSum(us, TriangleRow(outgoing, nbhd))
  {
    var f := TriangleRow(outgoing, nbhd);
    forall p | p in TrianglePairs(outgoing, nbhd) ensures p in Rows(us, f) {
      assert p.0 in us;
    }
    assert TrianglePairs(outgoing, nbhd) == Rows(us, f);
    RowsCard(us, f);
  }

  /**
   * The triangle loop of `run` for one vertex: for every member u of the
   * neighbourhood, and for every member w of it again (the same set, in the
   * same order), one count when u has an edge to w.
   */
  method CountTriangles(outgoing: NeighbourSets, nbhd: set<int>) returns (tri: int)
    requires nbhd <= outgoing.Keys
    ensures tri == |TrianglePairs(outgoing, nbhd)|
  {
    var f := TriangleRow(outgoing, nbhd);
    var vNeighbours := Enumerate(nbhd);
    tri := 0;
    for i := 0 to |vNeighbours|
      invariant tri == RowSum(vNeighbours[..i], f)
    {
      var u := vNeighbours[i];
      var count := CountWithin(vNeighbours, outgoing[u]);
      tri := tri + count;
      TriangleRowStep(outgoing, nbhd, vNeighbours, i);
    }
    assert vNeighbours[..|vNeighbours|] == vNeighbours;
    TrianglePairsRows(outgoing, nbhd, vNeighbours);
  }

  /** The inner loop of the triangle count: how many of the distinct `vNeighbours` are in `uNeighbours`. */
  method CountWithin(vNeighbours: seq<int>, uNeighbours: set<int>) returns (count: int)
    requires forall a, b :: 0 <= a < b < |vNeighbours| ==> vNeighbours[a] != vNeighbours[b]
    ensures count == |Elements(vNeighbours[..|vNeighbours|]) * uNeighbours|
  {
    count := 0;
    for j := 0 to |vNeighbours|
      invariant count == |Elements(vNeighbours[..j]) * uNeighbours|
    {
      PrefixCount(vNeighbours, j, uNeighbours);
      if vNeighbours[j] in uNeighbours {
        count := count + 1;
      }
    }
  }

  /** After the inner loop for the i-th member, the count has grown by the size of its row. */
  lemma TriangleRowStep(outgoing: NeighbourSets, nbhd: set<int>, us: seq<int>, i: int)
    requires IsEnumeration(us, nbhd) && nbhd <= outgoing.Keys && 0 <= i < |us|
    ensures RowSum(us[..i + 1], TriangleRow(outgoing, nbhd))
         == RowSum(us[..i], TriangleRow(outgoing, nbhd)) + |Elements(us[..|us|]) * outgoing[us[i]]|
  {
    EnumerationElements(us, nbhd);
    assert us[..i + 1][..i] == us[..i];
  }

  /**
   * Without self-loops every triangle pair has two distinct members, so
   * there are at most deg * (deg - 1) of them; when every ordered pair of
   * distinct members is an edge there are exactly that many.
   */
  lemma TriangleBound(outgoing: NeighbourSets, nbhd: set<int>)
    requires nbhd <= outgoing.Keys && NoSelfLoops(outgoing)
    ensures 0 <= |TrianglePairs(outgoing, nbhd)| <= |nbhd| * (|nbhd| - 1)
    ensures (forall u, w :: u in nbhd && w in nbhd && u != w ==> w in outgoing[u]) ==>
      |TrianglePairs(outgoing, nbhd)| == |nbhd| * (|nbhd| - 1)
  {
    EnumerationExists(nbhd);
    var us :| IsEnumeration(us, nbhd);
    TrianglePairsRows(outgoing, nbhd, us);
    EnumerationSize(us, nbhd);
    if nbhd != {} {
      RowsBelowDegree(outgoing, nbhd, us);
    }
  }

  /** Each row has at most deg - 1 members, and exactly that many when the neighbourhood is complete. */
  lemma RowsBelowDegree(outgoing: NeighbourSets, nbhd: set<int>, us: seq<int>)
    requires nbhd <= outgoing.Keys && NoSelfLoops(outgoing) && IsEnumeration(us, nbhd) && nbhd != {}
    ensures RowSum(us, TriangleRow(outgoing, nbhd)) <= |us| * (|nbhd| - 1)
    ensures (forall u, w :: u in nbhd && w in nbhd && u != w ==> w in outgoing[u]) ==>
      RowSum(us, TriangleRow(outgoing, nbhd)) == |us| * (|nbhd| - 1)
  {
    var f := TriangleRow(outgoing, nbhd);
    forall i | 0 <= i < |us| ensures |f(us[i])| <= |nbhd| - 1 {
      var u := us[i];
      SubsetCard(f(u), nbhd - {u});
    }
    RowSumBound(us, f, |nbhd| - 1);
    if forall u, w :: u in nbhd && w in nbhd && u != w ==> w in outgoing[u] {
      forall i | 0 <= i < |us| ensures |f(us[i])| == |nbhd| - 1 {
        var u := us[i];
        assert f(u) == nbhd - {u};
      }
    }
  }

  /** An enumeration is as long as the set it lists. */
  lemma EnumerationSize(order: seq<int>, s: set<int>)
    requires IsEnumeration(order, s)
    ensures |order| == |s|
  {
    DistinctCard(order, |order|);
    EnumerationElements(order, s);
  }

  /** A prefix of a list of distinct entries has as many elements as entries. */
  lemma {:induction false} DistinctCard(s: seq<int>, j: int)
    requires 0 <= j <= |s| && forall a, b :: 0 <= a < b < |s| ==> s[a] != s[b]
    ensures |Elements(s[..j])| == j
  {
    if j > 0 {
      DistinctCard(s, j - 1);
      assert s[..j] == s[..j - 1] + [s[j - 1]];
      assert Elements(s[..j]) == Elements(s[..j - 1]) + {s[j - 1]};
      assert s[j - 1] !in s[..j - 1];
    }
  }

  /** One more entry of a list of distinct entries adds one to the count of entries in u exactly when it is in u. */
  lemma PrefixCount(s: seq<int>, j: int, u: set<int>)
    requires 0 <= j < |s| && forall a, b :: 0 <= a < b < |s| ==> s[a] != s[b]
    ensures |Elements(s[..j + 1]) * u| == |Elements(s[..j]) * u| + if s[j] in u then 1 else 0
  {
    assert s[..j + 1] == s[..j] + [s[j]];
    assert Elements(s[..j + 1]) == Elements(s[..j]) + {s[j]};
    assert s[j] !in Elements(s[..j]);
    if s[j] in u {
      assert Elements(s[..j + 1]) * u == Elements(s[..j]) * u + {s[j]};
    } else {
      assert Elements(s[..j + 1]) * u == Elements(s[..j]) * u;
    }
  }

  /** The entries of an enumeration are the set it enumerates. */
  lemma EnumerationElements(order: seq<int>, s: set<int>)
    requires IsEnumeration(order, s)
    ensures Elements(order[..|order|]) == s
  {
    assert order[..|order|] == order;
    forall x | x in s ensures x in Elements(order) {
      assert x in order;
    }
  }

  class LocalClusteringCoefficientJob {
    const outgoingEdgeData: NeighbourSets
    const neighbourhoodData: NeighbourSets

    /** Both maps have the same keys, and every neighbourhood is a set of vertices. */
    ghost predicate Valid() {
      && neighbourhoodData.Keys == outgoingEdgeData.Keys
      && forall v :: v in neighbourhoodData ==> neighbourhoodData[v] <= outgoingEdgeData.Keys
    }

    /**
     * The outgoing sets deduplicate the adjacency; the neighbourhoods are the
     * same sets for an undirected graph and the deduplicated convertToUndirected
     * form for a directed one.
     */
    constructor (graphData: Adjacency, directed: bool)
      requires Closed(graphData)
      ensures Valid() && outgoingEdgeData == Deduplicated(graphData)
      ensures !directed ==> neighbourhoodData == outgoingEdgeData
      ensures directed ==> exists order ::
        IsEnumeration(order, graphData.Keys) && neighbourhoodData == Deduplicated(GraphParsing.UndirectedOf(graphData, order))
    {
      var outgoing := RemoveDuplicateNeighbours(graphData);
      DeduplicatedClosed(graphData);
      var neighbourhood := outgoing;
      if directed {
        var converted;
        ghost var order;
        converted, order := GraphParsing.ConvertToUndirected(graphData);
        HasKeys(graphData, order);
        DeduplicatedClosed(converted);
        neighbourhood := RemoveDuplicateNeighbours(converted);
      }
      outgoingEdgeData := outgoing;
      neighbourhoodData := neighbourhood;
    }

    /** One coefficient per vertex, computed from its neighbourhood's triangle pairs. */
    method Run() returns (lcc: map<int, real>)
      requires Valid()
      ensures lcc.Keys == outgoingEdgeData.Keys
      ensures forall v :: v in lcc ==>
        lcc[v] == Coefficient(|TrianglePairs(outgoingEdgeData, neighbourhoodData[v])|, |neighbourhoodData[v]|)
    {
      var keys := Enumerate(outgoingEdgeData.Keys);
      lcc := map[];
      for i := 0 to |keys|
        invariant lcc.Keys <= outgoingEdgeData.Keys
        invariant forall v :: v in lcc ==>
          lcc[v] == Coefficient(|TrianglePairs(outgoingEdgeData, neighbourhoodData[v])|, |neighbourhoodData[v]|)
        invariant forall j :: 0 <= j < i ==> keys[j] in lcc
      {
        var v := keys[i];
        var vNeighbours := neighbourhoodData[v];
        var tri := CountTriangles(outgoingEdgeData, vNeighbours);
        var degree := |vNeighbours|;
        lcc := lcc[v := Coefficient(tri, degree)];
      }
      forall v | v in outgoingEdgeData ensures v in lcc {
        assert v in keys;
        var j :| 0 <= j < |keys| && keys[j] == v;
      }
    }
  }

  /** convertToUndirected keeps the key set. */
  lemma HasKeys(g: Adjacency, order: seq<int>)
    requires Closed(g) && IsEnumeration(order, g.Keys)
    ensures GraphParsing.UndirectedOf(g, order).Keys == g.Keys
  {
    if g != map[] {
      HasElement(g.Keys);
      var x :| x in g;
      GraphParsing.UndirectedOfLists(g, order, x);
    }
  }

  /**
   * Without self-loops every coefficient lies in [0, 1], and it is 1 for a
   * vertex of degree at least 2 whose neighbours all have edges to each other.
   */
  lemma CoefficientBounds(outgoing: NeighbourSets, nbhd: set<int>)
    requires nbhd <= outgoing.Keys && NoSelfLoops(outgoing)
    ensures 0.0 <= Coefficient(|TrianglePairs(outgoing, nbhd)|, |nbhd|) <= 1.0
    ensures |nbhd| >= 2 && (forall u, w :: u in nbhd && w in nbhd && u != w ==> w in outgoing[u]) ==>
      Coefficient(|TrianglePairs(outgoing, nbhd)|, |nbhd|) == 1.0
  {
    TriangleBound(outgoing, nbhd);
    CoefficientRange(|TrianglePairs(outgoing, nbhd)|, |nbhd|);
  }
}
