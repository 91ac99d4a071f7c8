/**
 * CommunityDetectionLPJob and CommunityDetectionJob: synchronous label
 * propagation. Every vertex starts with its own id as label; in each round
 * every vertex takes the label that is most frequent among its neighbours in
 * the previous round, ties going to the smallest label; the rounds stop after
 * the first one that changes nothing, or after the iteration limit.
 */
module LabelPropagation {
  import opened Graphs
  import opened PropertyGraphs
  import GraphParsing

  /** The previous-round labels of the entries of a neighbour list, one per entry. */
  function NeighbourLabels(ns: seq<int>, labels: map<int, int>): (r: seq<int>)
    requires forall i :: 0 <= i < |ns| ==> ns[i] in labels
    ensures |r| == |ns| && forall i :: 0 <= i < |ns| ==> r[i] == labels[ns[i]]
  {
    if ns == [] then [] else NeighbourLabels(ns[..|ns| - 1], labels) + [labels[ns[|ns| - 1]]]
  }

  /** The frequency histogram of a multiset of labels: each label that occurs, with its count. */
  function Histogram(m: multiset<int>): map<int, int> {
    map l | l in m :: m[l]
  }

  /** The count of a label, 0 when absent (the histogram's default return value). */
  function Count(histogram: map<int, int>, x: int): int {
    if x in histogram then histogram[x] else 0
  }

  /**
   * `x` is the label the fold chooses: 0 for an empty histogram, otherwise
   * a label of maximal count, the smallest one among equal counts.
   */
  ghost predicate IsBest(histogram: map<int, int>, x: int) {
    && (histogram == map[] ==> x == 0)
    && (histogram != map[] ==>
          && x in histogram
          && forall l :: l in histogram ==>
               histogram[l] < histogram[x] || (histogram[l] == histogram[x] && x <= l))
  }

  /** At most one label is the best. */
  lemma BestUnique(histogram: map<int, int>, a: int, b: int)
    requires IsBest(histogram, a) && IsBest(histogram, b)
    ensures a == b
  {
    if histogram != map[] {
      assert histogram[a] <= histogram[b] && histogram[b] <= histogram[a];
    }
  }

  /**
   * A reference definition of the choice: a fold over a list of candidate
   * labels that keeps the one of larger count in m, or of equal count and
   * smaller value.
   */
  function Choose(m: multiset<int>, candidates: seq<int>): int {
    if candidates == [] then 0
    else
      var b := Choose(m, candidates[..|candidates| - 1]);
      var c := candidates[|candidates| - 1];
      if |candidates| == 1 || m[c] > m[b] || (m[c] == m[b] && c < b) then c else b
  }

  /** The fold keeps one of the candidates, and no candidate beats it. */
  lemma {:induction false} ChooseDominates(m: multiset<int>, candidates: seq<int>)
    requires candidates != []
    ensures Choose(m, candidates) in candidates
    ensures forall c :: c in candidates ==>
      m[c] < m[Choose(m, candidates)] || (m[c] == m[Choose(m, candidates)] && Choose(m, candidates) <= c)
  {
    var n := |candidates| - 1;
    if n > 0 {
      ChooseDominates(m, candidates[..n]);
      assert candidates == candidates[..n] + [candidates[n]];
    }
  }

  /** Folding over the labels themselves picks the best label of their histogram. */
  lemma ChooseIsBest(s: seq<int>)
    ensures IsBest(Histogram(multiset(s)), Choose(multiset(s), s))
  {
    var h := Histogram(multiset(s));
    if s != [] {
      ChooseDominates(multiset(s), s);
      assert s[0] in h;
    }
  }

  /** The labels every vertex starts with: its own id. */
  function InitialLabels(nbrs: Adjacency): map<int, int> {
    map v | v in nbrs :: v
  }

  /**
   * Closed, stated through list membership rather than list positions: every
   * vertex listed as a neighbour is itself a vertex. (Keeping the positions
   * out of it stops the solver from walking the whole graph whenever one
   * neighbour label is looked up.)
   */
  ghost predicate Linked(nbrs: Adjacency) {
    forall v, w {:trigger w in nbrs[v]} :: v in nbrs && w in nbrs[v] ==> w in nbrs
  }

  lemma ClosedLinked(nbrs: Adjacency)
    requires Closed(nbrs)
    ensures Linked(nbrs)
  {
    forall v, w | v in nbrs && w in nbrs[v] ensures w in nbrs {
      var i :| 0 <= i < |nbrs[v]| && nbrs[v][i] == w;
    }
  }

  /** Every neighbour of a vertex carries a label. */
  lemma NeighboursLabelled(nbrs: Adjacency, labels: map<int, int>, v: int)
    requires Linked(nbrs) && labels.Keys == nbrs.Keys && v in nbrs
    ensures forall i :: 0 <= i < |nbrs[v]| ==> nbrs[v][i] in labels
  {
    forall i | 0 <= i < |nbrs[v]| ensures nbrs[v][i] in labels {
      NeighbourLabelled(nbrs, labels, v, i);
    }
  }

  lemma NeighbourLabelled(nbrs: Adjacency, labels: map<int, int>, v: int, i: int)
    requires Linked(nbrs) && labels.Keys == nbrs.Keys && v in nbrs && 0 <= i < |nbrs[v]|
    ensures nbrs[v][i] in labels
  {
    var w := nbrs[v][i];
    assert w in nbrs[v];
  }

  /** The label vertex v takes in a round, given the previous round's labels. */
  ghost function NewLabel(nbrs: Adjacency, labels: map<int, int>, v: int): int
    requires Linked(nbrs) && labels.Keys == nbrs.Keys && v in nbrs
  {
    NeighboursLabelled(nbrs, labels, v);
    var s := NeighbourLabels(nbrs[v], labels);
    Choose(multiset(s), s)
  }

  /**
   * One synchronous round: every vertex's new label is chosen from its
   * neighbours' previous labels only, so the order in which the vertices are
   * visited does not matter.
   */
  ghost function Round(nbrs: Adjacency, labels: map<int, int>): (r: map<int, int>)
    requires Linked(nbrs) && labels.Keys == nbrs.Keys
    ensures r.Keys == nbrs.Keys
  {
    map v | v in nbrs :: NewLabel(nbrs, labels, v)
  }

  /** A round would change nothing: every vertex already carries its new label. */
  ghost predicate Stable(nbrs: Adjacency, labels: map<int, int>)
    requires Linked(nbrs) && labels.Keys == nbrs.Keys
  {
    forall v {:trigger NewLabel(nbrs, labels, v)} :: v in nbrs ==> NewLabel(nbrs, labels, v) == labels[v]
  }

  /** `step` maps every labelling of `keys` to another labelling of `keys`. */
  ghost predicate Keeps(step: map<int, int> --> map<int, int>, keys: set<int>) {
    forall l: map<int, int> :: l.Keys == keys ==> step.requires(l) && step(l).Keys == keys
  }

  /** k applications of a step that keeps the key set. */
  ghost function Repeated(step: map<int, int> --> map<int, int>, keys: set<int>, labels: map<int, int>, k: nat)
    : (r: map<int, int>)
    requires Keeps(step, keys) && labels.Keys == keys
    ensures r.Keys == keys
  {
    if k == 0 then labels else Repeated(step, keys, step(labels), k - 1)
  }

  /** Step k + 1 is one more step after step k. */
  lemma {:induction false} RepeatedLast(step: map<int, int> --> map<int, int>, keys: set<int>, labels: map<int, int>, k: nat)
    requires Keeps(step, keys) && labels.Keys == keys
    ensures Repeated(step, keys, labels, k + 1) == step(Repeated(step, keys, labels, k))
  {
    if k > 0 {
      RepeatedLast(step, keys, step(labels), k - 1);
    }
  }

  /** A fixed point of the step is a fixed point of any number of steps. */
  lemma {:induction false} RepeatedFixed(step: map<int, int> --> map<int, int>, keys: set<int>, labels: map<int, int>, k: nat)
    requires Keeps(step, keys) && labels.Keys == keys && step(labels) == labels
    ensures Repeated(step, keys, labels, k) == labels
  {
    if k > 0 {
      RepeatedFixed(step, keys, labels, k - 1);
    }
  }

  /** A property every step preserves holds after any number of steps. */
  lemma {:induction false} RepeatedPreserves(step: map<int, int> --> map<int, int>, keys: set<int>,
                                             p: map<int, int> -> bool, labels: map<int, int>, k: nat)
    requires Keeps(step, keys) && labels.Keys == keys && p(labels)
    requires forall l: map<int, int> :: l.Keys == keys && p(l) ==> p(step(l))
    ensures p(Repeated(step, keys, labels, k))
  {
    if k > 0 {
      RepeatedPreserves(step, keys, p, step(labels), k - 1);
    }
  }

  /** The round, as a step on labellings of the vertex set. */
  ghost function RoundStep(nbrs: Adjacency): (step: map<int, int> --> map<int, int>)
    requires Linked(nbrs)
    ensures Keeps(step, nbrs.Keys)
  {
    (l: map<int, int>) requires Linked(nbrs) && l.Keys == nbrs.Keys => Round(nbrs, l)
  }

  /** The labels after k rounds. */
  ghost function Iterate(nbrs: Adjacency, labels: map<int, int>, k: nat): (r: map<int, int>)
    requires Linked(nbrs) && labels.Keys == nbrs.Keys
    ensures r.Keys == nbrs.Keys
  {
    Repeated(RoundStep(nbrs), nbrs.Keys, labels, k)
  }

  /** Round k + 1 is one more round after round k. */
  lemma IterateLast(nbrs: Adjacency, labels: map<int, int>, k: nat)
    requires Linked(nbrs) && labels.Keys == nbrs.Keys
    ensures Iterate(nbrs, labels, k + 1) == Round(nbrs, Iterate(nbrs, labels, k))
  {
    RepeatedLast(RoundStep(nbrs), nbrs.Keys, labels, k);
  }

  /** A stable labelling is exactly one that its next round leaves unchanged. */
  lemma StableRound(nbrs: Adjacency, labels: map<int, int>)
    requires Linked(nbrs) && labels.Keys == nbrs.Keys
    ensures Stable(nbrs, labels) <==> Round(nbrs, labels) == labels
  {
    if !Stable(nbrs, labels) {
      var v :| v in nbrs && NewLabel(nbrs, labels, v) != labels[v];
      assert Round(nbrs, labels)[v] != labels[v];
    } else {
      forall v | v in nbrs ensures Round(nbrs, labels)[v] == labels[v] {
        assert NewLabel(nbrs, labels, v) == labels[v];
      }
    }
  }

  /** Once a round changes nothing, every further round changes nothing either. */
  lemma FixedPointStable(nbrs: Adjacency, labels: map<int, int>, k: nat)
    requires Linked(nbrs) && labels.Keys == nbrs.Keys && Stable(nbrs, labels)
    ensures Iterate(nbrs, labels, k) == labels
  {
    StableRound(nbrs, labels);
    RepeatedFixed(RoundStep(nbrs), nbrs.Keys, labels, k);
  }

  /** The new label has maximal count among the neighbours' labels, and is the smallest such; 0 without neighbours. */
  lemma NewLabelIsBest(nbrs: Adjacency, labels: map<int, int>, v: int)
    requires Linked(nbrs) && labels.Keys == nbrs.Keys && v in nbrs
    ensures forall i :: 0 <= i < |nbrs[v]| ==> nbrs[v][i] in labels
    ensures IsBest(Histogram(multiset(NeighbourLabels(nbrs[v], labels))), NewLabel(nbrs, labels, v))
  {
    NeighboursLabelled(nbrs, labels, v);
    ChooseIsBest(NeighbourLabels(nbrs[v], labels));
  }

  /**
   * The histogram pass for one vertex: cleared, then one increment per
   * neighbour-list entry, so it counts the neighbours' labels with multiplicity.
   */
  method CountLabels(ns: seq<int>, labels: map<int, int>) returns (histogram: map<int, int>)
    requires forall i :: 0 <= i < |ns| ==> ns[i] in labels
    ensures histogram == Histogram(multiset(NeighbourLabels(ns, labels)))
  {
    histogram := map[];
    ghost var seen: seq<int> := [];
    for i := 0 to |ns|
      invariant |seen| == i && forall j :: 0 <= j < i ==> seen[j] == labels[ns[j]]
      invariant histogram == Histogram(multiset(seen))
    {
      var x := labels[ns[i]];
      HistogramAdd(multiset(seen), x);
      seen := seen + [x];
      histogram := histogram[x := Count(histogram, x) + 1];
    }
    assert seen == NeighbourLabels(ns, labels);
  }

  /** Counting one more occurrence of x increments its entry, creating it at 1. */
  lemma HistogramAdd(m: multiset<int>, x: int)
    ensures Histogram(m + multiset{x}) == Histogram(m)[x := Count(Histogram(m), x) + 1]
  {
  }

  /**
   * The best-label fold: scan the histogram's keys in its (arbitrary)
   * iteration order, starting from label 0 with count 0, and take a label
   * whose count is larger, or equal with a smaller label. Whatever the order,
   * the result is the one best label.
   */
  method SelectLabel(histogram: map<int, int>) returns (bestLabel: int)
    requires forall l :: l in histogram ==> histogram[l] > 0
    ensures IsBest(histogram, bestLabel)
  {
    var keys := Enumerate(histogram.Keys);
    bestLabel := 0;
    var bestCount := 0;
    for i := 0 to |keys|
      invariant i == 0 ==> bestLabel == 0 && bestCount == 0
      invariant i > 0 ==> bestLabel in histogram && bestCount == histogram[bestLabel]
      invariant forall j :: 0 <= j < i ==>
        histogram[keys[j]] < bestCount || (histogram[keys[j]] == bestCount && bestLabel <= keys[j])
    {
      var x := keys[i];
      var count := histogram[x];
      if count > bestCount || (count == bestCount && x < bestLabel) {
        bestLabel := x;
        bestCount := count;
      }
    }
    if histogram != map[] {
      HasElement(histogram.Keys);
      var x :| x in histogram;
      assert x in keys;
      forall l | l in histogram
        ensures histogram[l] < histogram[bestLabel] || (histogram[l] == histogram[bestLabel] && bestLabel <= l)
      {
        assert l in keys;
      }
    }
  }

  /**
   * The run shared by both jobs: labels start at the vertex ids; each round
   * fills `newLabels` from `labels`, records whether any label changed, and
   * swaps the two maps; the loop stops after the first unchanged round or
   * after maxIterations rounds. The result is the labels after `rounds`
   * rounds, every round before the last changed something, and a run that
   * stopped early ended on a stable labelling.
   */
  method Propagate(nbrs: Adjacency, order: seq<int>, maxIterations: int) returns (labels: map<int, int>, ghost rounds: nat)
    requires Linked(nbrs) && IsEnumeration(order, nbrs.Keys)
    ensures labels == Iterate(nbrs, InitialLabels(nbrs), rounds)
    ensures rounds <= if maxIterations > 0 then maxIterations else 0
    ensures rounds < maxIterations ==> Stable(nbrs, labels)
    ensures rounds > 0 ==> Changing(nbrs, InitialLabels(nbrs), rounds - 1)
    ensures VertexLabels(nbrs, labels)
  {
    ghost var init := InitialLabels(nbrs);
    labels := map[];
    var newLabels := map[];
    for i := 0 to |order|
      invariant labels.Keys <= nbrs.Keys
      invariant forall j :: 0 <= j < i ==> order[j] in labels && labels[order[j]] == order[j]
    {
      labels := labels[order[i] := order[i]];
    }
    forall v | v in nbrs ensures v in labels && labels[v] == init[v] {
      assert v in order;
      var j :| 0 <= j < |order| && order[j] == v;
    }
    assert labels == init;
    rounds := 0;
    var it := 0;
    while it < maxIterations
      invariant labels.Keys == nbrs.Keys && newLabels.Keys <= nbrs.Keys
      invariant labels == Iterate(nbrs, init, rounds) && rounds == it
      invariant it <= if maxIterations > 0 then maxIterations else 0
      invariant Changing(nbrs, init, rounds)
      decreases maxIterations - it
    {
      var change;
      newLabels, change := ComputeRound(nbrs, order, labels, newLabels);
      Advance(nbrs, init, rounds, labels, newLabels, change);
      labels, newLabels := newLabels, labels;
      rounds := rounds + 1;
      if !change {
        break;
      }
      it := it + 1;
    }
    IterateVertexLabels(nbrs, init, rounds);
  }

  /** Every one of the first n rounds changed some label. */
  ghost predicate Changing(nbrs: Adjacency, init: map<int, int>, n: nat)
    requires Linked(nbrs) && init.Keys == nbrs.Keys
  {
    forall r: nat :: r < n ==> !Stable(nbrs, Iterate(nbrs, init, r))
  }

  /**
   * One more round of the run: its result is the next iterate; if it changed
   * something the history of changing rounds grows by one, and otherwise the
   * labelling it produced (the same one) is stable.
   */
  lemma Advance(nbrs: Adjacency, init: map<int, int>, rounds: nat, labels: map<int, int>, next: map<int, int>, change: bool)
    requires Linked(nbrs) && init.Keys == nbrs.Keys && labels == Iterate(nbrs, init, rounds)
    requires next == Round(nbrs, labels) && (change <==> !Stable(nbrs, labels))
    requires Changing(nbrs, init, rounds)
    ensures next == Iterate(nbrs, init, rounds + 1) && next.Keys == nbrs.Keys
    ensures change ==> Changing(nbrs, init, rounds + 1)
    ensures !change ==> Stable(nbrs, next)
  {
    IterateLast(nbrs, init, rounds);
    if !change {
      StableRound(nbrs, labels);
    }
  }

  /**
   * One round of the run: for every vertex in turn, count its neighbours'
   * labels, choose the best one, store it in `newLabels` and note whether it
   * differs from the vertex's current label.
   */
  method ComputeRound(nbrs: Adjacency, order: seq<int>, labels: map<int, int>, newLabels0: map<int, int>)
    returns (newLabels: map<int, int>, change: bool)
    requires Linked(nbrs) && IsEnumeration(order, nbrs.Keys) && labels.Keys == nbrs.Keys && newLabels0.Keys <= nbrs.Keys
    ensures newLabels == Round(nbrs, labels)
    ensures change <==> !Stable(nbrs, labels)
  {
    newLabels := newLabels0;
    change := false;
    for i := 0 to |order|
      invariant newLabels.Keys <= nbrs.Keys
      invariant Filled(nbrs, order, labels, newLabels, i)
      invariant change <==> ChangedBefore(nbrs, order, labels, i)
    {
      var v := order[i];
      var bestLabel := VertexLabel(nbrs, labels, v);
      FillStep(nbrs, order, labels, newLabels, i, bestLabel);
      newLabels := newLabels[v := bestLabel];
      change := change || labels[v] != bestLabel;
    }
    NextLabels(nbrs, order, labels, newLabels);
    if !change {
      Unchanged(nbrs, order, labels);
    }
  }

  /** The first i vertices of the enumeration carry their new labels. */
  ghost predicate Filled(nbrs: Adjacency, order: seq<int>, labels: map<int, int>, newLabels: map<int, int>, i: int)
    requires Linked(nbrs) && IsEnumeration(order, nbrs.Keys) && labels.Keys == nbrs.Keys
  {
    forall j :: 0 <= j < i && j < |order| ==> order[j] in newLabels && newLabels[order[j]] == NewLabel(nbrs, labels, order[j])
  }

  /** One of the first i vertices of the enumeration gets a label different from its current one. */
  ghost predicate ChangedBefore(nbrs: Adjacency, order: seq<int>, labels: map<int, int>, i: int)
    requires Linked(nbrs) && IsEnumeration(order, nbrs.Keys) && labels.Keys == nbrs.Keys
  {
    exists j :: 0 <= j < i && j < |order| && labels[order[j]] != NewLabel(nbrs, labels, order[j])
  }

  /** Storing the i-th vertex's new label extends both the filled prefix and the record of changes by one. */
  lemma FillStep(nbrs: Adjacency, order: seq<int>, labels: map<int, int>, newLabels: map<int, int>, i: int, bestLabel: int)
    requires Linked(nbrs) && IsEnumeration(order, nbrs.Keys) && labels.Keys == nbrs.Keys
    requires 0 <= i < |order| && Filled(nbrs, order, labels, newLabels, i)
    requires bestLabel == NewLabel(nbrs, labels, order[i])
    ensures Filled(nbrs, order, labels, newLabels[order[i] := bestLabel], i + 1)
    ensures ChangedBefore(nbrs, order, labels, i + 1) <==> ChangedBefore(nbrs, order, labels, i) || labels[order[i]] != bestLabel
  {
    var v := order[i];
    forall j | 0 <= j < i + 1
      ensures order[j] in newLabels[v := bestLabel] && newLabels[v := bestLabel][order[j]] == NewLabel(nbrs, labels, order[j])
    {
      if j < i {
        assert order[j] != v;
      }
    }
  }

  /** A round that changes no vertex of the enumeration leaves the labelling stable. */
  lemma Unchanged(nbrs: Adjacency, order: seq<int>, labels: map<int, int>)
    requires Linked(nbrs) && IsEnumeration(order, nbrs.Keys) && labels.Keys == nbrs.Keys
    requires !ChangedBefore(nbrs, order, labels, |order|)
    ensures Stable(nbrs, labels)
  {
    forall v | v in nbrs ensures NewLabel(nbrs, labels, v) == labels[v] {
      assert v in order;
      var j :| 0 <= j < |order| && order[j] == v;
    }
  }

  /** The per-vertex step of a round: the histogram pass, then the best-label fold. */
  method VertexLabel(nbrs: Adjacency, labels: map<int, int>, v: int) returns (bestLabel: int)
    requires Linked(nbrs) && labels.Keys == nbrs.Keys && v in nbrs
    ensures bestLabel == NewLabel(nbrs, labels, v)
  {
    NeighboursLabelled(nbrs, labels, v);
    var histogram := CountLabels(nbrs[v], labels);
    bestLabel := SelectLabel(histogram);
    NewLabelIsBest(nbrs, labels, v);
    BestUnique(histogram, bestLabel, NewLabel(nbrs, labels, v));
  }

  /** A map that gives every vertex of the enumeration its new label, and has no other keys, is the round. */
  lemma NextLabels(nbrs: Adjacency, order: seq<int>, labels: map<int, int>, newLabels: map<int, int>)
    requires Linked(nbrs) && IsEnumeration(order, nbrs.Keys) && labels.Keys == nbrs.Keys && newLabels.Keys <= nbrs.Keys
    requires Filled(nbrs, order, labels, newLabels, |order|)
    ensures newLabels == Round(nbrs, labels)
  {
    forall v | v in nbrs ensures v in newLabels && newLabels[v] == NewLabel(nbrs, labels, v) {
      assert v in order;
      var j :| 0 <= j < |order| && order[j] == v;
    }
  }

  /** Every label is the id of a vertex, or 0. */
  ghost predicate VertexLabels(nbrs: Adjacency, labels: map<int, int>) {
    forall v :: v in labels ==> labels[v] in nbrs || labels[v] == 0
  }

  /**
   * A round only hands out labels the neighbours already carry, or 0 to a
   * vertex without neighbours.
   */
  lemma RoundVertexLabels(nbrs: Adjacency, labels: map<int, int>)
    requires Linked(nbrs) && labels.Keys == nbrs.Keys
    requires VertexLabels(nbrs, labels)
    ensures VertexLabels(nbrs, Round(nbrs, labels))
  {
    var r := Round(nbrs, labels);
    forall v | v in r ensures r[v] in nbrs || r[v] == 0 {
      NeighboursLabelled(nbrs, labels, v);
      var s := NeighbourLabels(nbrs[v], labels);
      assert r[v] == Choose(multiset(s), s);
      if s != [] {
        ChooseDominates(multiset(s), s);
        var i :| 0 <= i < |s| && s[i] == Choose(multiset(s), s);
      }
    }
  }

  /** Every label the propagation ever hands out is the id of a vertex, or 0. */
  lemma IterateVertexLabels(nbrs: Adjacency, labels: map<int, int>, k: nat)
    requires Linked(nbrs) && labels.Keys == nbrs.Keys && VertexLabels(nbrs, labels)
    ensures VertexLabels(nbrs, Iterate(nbrs, labels, k))
  {
    var p := (l: map<int, int>) => VertexLabels(nbrs, l);
    forall l: map<int, int> | l.Keys == nbrs.Keys && p(l) ensures p(RoundStep(nbrs)(l)) {
      RoundVertexLabels(nbrs, l);
    }
    RepeatedPreserves(RoundStep(nbrs), nbrs.Keys, p, labels, k);
  }

  class CommunityDetectionLPJob {
    const graph: PropertyGraph
    const maxIterations: int

    constructor (graph: PropertyGraph, maxIterations: int)
      ensures this.graph == graph && this.maxIterations == maxIterations
    {
      this.graph := graph;
      this.maxIterations := maxIterations;
    }

    /**
     * Label propagation over outgoing and incoming edges together, visiting
     * the vertices in the vertex list's order: the labels after `rounds`
     * rounds, stopping at the first unchanged round.
     */
    method Run() returns (labels: map<int, int>, ghost rounds: nat)
      requires Valid(graph)
      ensures labels.Keys == graph.outgoing.Keys && Linked(Neighbours(graph))
      ensures labels == Iterate(Neighbours(graph), InitialLabels(Neighbours(graph)), rounds)
      ensures rounds <= if maxIterations > 0 then maxIterations else 0
      ensures rounds < maxIterations ==> Stable(Neighbours(graph), labels)
      ensures rounds > 0 ==> Changing(Neighbours(graph), InitialLabels(Neighbours(graph)), rounds - 1)
      ensures VertexLabels(Neighbours(graph), labels)
    {
      NeighboursSymmetric(graph);
      ClosedLinked(Neighbours(graph));
      labels, rounds := Propagate(Neighbours(graph), graph.vertices, maxIterations);
    }
  }

  class CommunityDetectionJob {
    const graphData: Adjacency
    const maxIterations: int

    /** The adjacency is always searched through its convertToUndirected form. */
    constructor (graphData: Adjacency, maxIterations: int)
      requires Closed(graphData)
      ensures this.maxIterations == maxIterations && Closed(this.graphData)
      ensures exists order ::
        IsEnumeration(order, graphData.Keys) && this.graphData == GraphParsing.UndirectedOf(graphData, order)
    {
      var converted;
      ghost var order;
      converted, order := GraphParsing.ConvertToUndirected(graphData);
      this.graphData := converted;
      this.maxIterations := maxIterations;
    }

    /**
     * Label propagation over the undirected adjacency lists, with
     * multiplicity, visiting the vertices in the key set's iteration order.
     */
    method Run() returns (labels: map<int, int>, ghost rounds: nat)
      requires Closed(graphData)
      ensures labels.Keys == graphData.Keys && Linked(graphData)
      ensures labels == Iterate(graphData, InitialLabels(graphData), rounds)
      ensures rounds <= if maxIterations > 0 then maxIterations else 0
      ensures rounds < maxIterations ==> Stable(graphData, labels)
      ensures rounds > 0 ==> Changing(graphData, InitialLabels(graphData), rounds - 1)
      ensures VertexLabels(graphData, labels)
    {
      var order := Enumerate(graphData.Keys);
      ClosedLinked(graphData);
      labels, rounds := Propagate(graphData, order, maxIterations);
    }
  }
}
