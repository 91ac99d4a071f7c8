/**
 * The in-memory graph every kernel works on: a map from vertex id (a Java
 * `long`) to the ordered list of the destinations of the vertex's outgoing
 * edges, duplicates kept (fastutil's `Long2ObjectMap<LongList>`), together
 * with walks, reachability and the enumeration order of hash-based
 * collections.
 */
module Graphs {

  type Adjacency = map<int, seq<int>>

  /** The failure a kernel reports when it is handed an id that is not a vertex. */
  datatype GraphError = UnknownVertex(id: int)

  /** Every destination of every list is itself a vertex. */
  ghost predicate Closed(g: Adjacency) {
    forall v, i :: v in g && 0 <= i < |g[v]| ==> g[v][i] in g
  }

  /** Every edge u -> w is matched by an edge w -> u. */
  ghost predicate Symmetric(g: Adjacency) {
    forall u, i :: u in g && 0 <= i < |g[u]| ==> g[u][i] in g && u in g[g[u][i]]
  }

  /**
   * `order` lists every element of `s` exactly once: the fixed but
   * unspecified order in which a hash set, or a hash map's key set, is
   * iterated.
   */
  ghost predicate IsEnumeration(order: seq<int>, s: set<int>) {
    && (forall i, j :: 0 <= i < j < |order| ==> order[i] != order[j])
    && (forall i :: 0 <= i < |order| ==> order[i] in s)
    && (forall v {:trigger v in order} :: v in s ==> v in order)
  }

  /** A non-empty set has an element to pick. */
  lemma HasElement(s: set<int>)
    requires s != {}
    ensures exists x :: x in s
  {
    if forall x :: x !in s {
      assert false;
    }
  }

  /** A subset is no larger than its superset. */
  lemma SubsetCard(a: set<int>, b: set<int>)
    requires a <= b
    ensures |a| <= |b|
  {
    assert b == a + (b - a);
  }

  /** The iteration order of a hash-based key set, chosen arbitrarily. */
  method Enumerate(s: set<int>) returns (order: seq<int>)
    ensures IsEnumeration(order, s)
  {
    order := [];
    var rest := s;
    while rest != {}
      invariant rest <= s
      invariant forall i :: 0 <= i < |order| ==> order[i] in s && order[i] !in rest
      invariant forall i, j :: 0 <= i < j < |order| ==> order[i] != order[j]
      invariant forall v :: v in s ==> v in rest || v in order
      decreases |rest|
    {
      HasElement(rest);
      var v :| v in rest;
      order := order + [v];
      rest := rest - {v};
    }
  }

  /** Some walk of exactly k edges leads from s to v. */
  ghost predicate ReachIn(g: Adjacency, s: int, v: int, k: nat)
    decreases k
  {
    if k == 0 then v == s
    else exists u :: u in g && ReachIn(g, s, u, k - 1) && v in g[u]
  }

  /** Some walk leads from s to v. */
  ghost predicate Reachable(g: Adjacency, s: int, v: int) {
    exists k: nat :: ReachIn(g, s, v, k)
  }

  /** Extending a walk by one edge at its end. */
  lemma ReachStep(g: Adjacency, s: int, u: int, v: int, k: nat)
    requires ReachIn(g, s, u, k) && u in g && v in g[u]
    ensures ReachIn(g, s, v, k + 1)
  {
  }

  /** Extending a walk by one edge at its start. */
  lemma {:induction false} ReachFirst(g: Adjacency, s: int, u: int, v: int, k: nat)
    requires s in g && u in g[s] && ReachIn(g, u, v, k)
    ensures ReachIn(g, s, v, k + 1)
    decreases k
  {
    if k == 0 {
      assert ReachIn(g, s, s, 0);
    } else {
      var w :| w in g && ReachIn(g, u, w, k - 1) && v in g[w];
      ReachFirst(g, s, u, w, k - 1);
    }
  }

  /** Walks compose: a walk of j edges followed by one of k edges is one of j + k edges. */
  lemma {:induction false} ReachTrans(g: Adjacency, a: int, b: int, c: int, j: nat, k: nat)
    requires ReachIn(g, a, b, j) && ReachIn(g, b, c, k)
    ensures ReachIn(g, a, c, j + k)
    decreases k
  {
    if k > 0 {
      var w :| w in g && ReachIn(g, b, w, k - 1) && c in g[w];
      ReachTrans(g, a, b, w, j, k - 1);
    }
  }

  /** In a symmetric adjacency every walk can be walked backwards. */
  lemma {:induction false} ReachSym(g: Adjacency, a: int, b: int, k: nat)
    requires Symmetric(g) && ReachIn(g, a, b, k)
    ensures ReachIn(g, b, a, k)
    decreases k
  {
    if k > 0 {
      var u :| u in g && ReachIn(g, a, u, k - 1) && b in g[u];
      var i :| 0 <= i < |g[u]| && g[u][i] == b;
      ReachSym(g, a, u, k - 1);
      ReachFirst(g, b, u, a, k - 1);
    }
  }

  /** Connectivity in a symmetric adjacency is symmetric and transitive. */
  lemma ReachableSymTrans(g: Adjacency, a: int, b: int, c: int)
    requires Symmetric(g) && Reachable(g, b, a) && Reachable(g, b, c)
    ensures Reachable(g, a, c)
  {
    var j: nat :| ReachIn(g, b, a, j);
    var k: nat :| ReachIn(g, b, c, k);
    ReachSym(g, b, a, j);
    ReachTrans(g, a, b, c, j, k);
  }

  /** u repeated c times. */
  function Repeat(u: int, c: nat): (r: seq<int>)
    ensures |r| == c
  {
    if c == 0 then [] else Repeat(u, c - 1) + [u]
  }

  lemma {:induction false} RepeatCount(u: int, c: nat, x: int)
    ensures multiset(Repeat(u, c))[x] == if x == u then c else 0
  {
    if c > 0 {
      RepeatCount(u, c - 1, x);
    }
  }

  /**
   * The sources of the edges that enter v, visiting the vertices in `order`:
   * u appears once per occurrence of v in u's list.
   */
  function InSources(g: Adjacency, order: seq<int>, v: int): seq<int>
    requires forall i :: 0 <= i < |order| ==> order[i] in g
  {
    if order == [] then []
    else
      var u := order[|order| - 1];
      InSources(g, order[..|order| - 1], v) + Repeat(u, multiset(g[u])[v])
  }

  /** Each vertex u of `order` occurs in the in-list of v as often as v occurs in u's list. */
  lemma {:induction false} InSourcesCount(g: Adjacency, order: seq<int>, v: int, u: int)
    requires forall i :: 0 <= i < |order| ==> order[i] in g
    requires forall i, j :: 0 <= i < j < |order| ==> order[i] != order[j]
    ensures multiset(InSources(g, order, v))[u] == if u in order then multiset(g[u])[v] else 0
  {
    if order != [] {
      var n := |order| - 1;
      var w := order[n];
      InSourcesCount(g, order[..n], v, u);
      RepeatCount(w, multiset(g[w])[v], u);
      assert order == order[..n] + [w];
      assert u in order <==> u in order[..n] || u == w;
      if u == w {
        assert u !in order[..n];
      }
    }
  }

  /** u is among the in-sources of v exactly when u is in `order` and has an edge to v. */
  lemma InSourcesMember(g: Adjacency, order: seq<int>, v: int, u: int)
    requires forall i :: 0 <= i < |order| ==> order[i] in g
    requires forall i, j :: 0 <= i < j < |order| ==> order[i] != order[j]
    ensures u in InSources(g, order, v) <==> u in order && v in g[u]
  {
    InSourcesCount(g, order, v, u);
  }
}
