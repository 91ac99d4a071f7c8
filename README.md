# Graphalytics reference kernels in Dafny

This project models the sequential reference kernels of the Graphalytics
reference platform and proves what each one computes. The kernels are:

- The adjacency builder `GraphParser`. It parses vertex and edge records into
  a map from vertex id to neighbour list. It mirrors every edge of an
  undirected graph, and `convertToUndirected` adds the mirror of every edge.
- Breadth-first search (BFS) hop distances, with `Long.MAX_VALUE` for
  unreachable vertices.
- Weakly connected components, in two variants: one over a `PropertyGraph`
  and one over the adjacency map.
- Label-propagation community detection, in two variants: CDLP over a
  `PropertyGraph` and CD over the undirected adjacency.
- The local clustering coefficient, in three variants: `lcc`, `stats` and
  the `PropertyGraph` one.
- Dijkstra single-source shortest paths (SSSP).

Each Java class becomes a Dafny `class` with the same fields, and each method
becomes a Dafny method with the same loops. Every method is proved against
ghost definitions of what the kernel should produce:

- BFS: shortest hop counts (`IsBfsResult`).
- Components: "same id exactly when connected", with ids numbered in the
  order in which the enumeration first meets each component (`FirstSeenIds`).
- Label propagation: repeated synchronous rounds of "most frequent neighbour
  label, smallest on ties" (`Round`, `Iterate`, `IsBest`).
- Clustering coefficient: `tri / (deg * (deg - 1))` over the ordered
  triangle pairs of a neighbourhood (`TrianglePairs`, `EdgeSlots`).
- SSSP: the least walk cost (`IsShortestPaths`).

Each file models one part:

| file | models |
|---|---|
| `Wrappers.dfy` | `Option` and `Result`. |
| `Graphs.dfy` | The adjacency map `map<int, seq<int>>`, the `UnknownVertex` error, walks of exactly k edges, and hash-order enumerations. |
| `GraphParser.dfy` | `GraphParser`: `parse`, `parseVertices`, `parseEdges` and `convertToUndirected`. |
| `PropertyGraphs.dfy` | A `PropertyGraph`: a vertex list and outgoing lists. Incoming edges and the direction-free neighbour lists are derived from them. |
| `BreadthFirstSearch.dfy` | `BreadthFirstSearchJob`. |
| `Components.dfy` | `WeaklyConnectedComponentsJob` and `ConnectedComponentsJob`, both on one flood fill. |
| `LabelPropagation.dfy` | `CommunityDetectionLPJob` and `CommunityDetectionJob`, both on one round loop. |
| `Clustering.dfy` | The `lcc` and `stats` `LocalClusteringCoefficientJob`s, whose code is identical. |
| `PropertyGraphClustering.dfy` | The `PropertyGraph` `LocalClusteringCoefficientJob`. |
| `ShortestPaths.dfy` | `SingleSourceShortestPathJob`. |

Hash-map and hash-set iteration order is an arbitrary fixed enumeration:

- `Graphs.Enumerate` picks one with `:|`.
- A result that depends on the order is stated for the enumeration the run used. That enumeration is returned as a ghost out-parameter, or quantified in the constructor's contract. Examples are the list order that `convertToUndirected` produces and the component ids.
- A result that does not depend on the order is proved independent of it. Examples are the label choice (`BestUnique`, `ChooseIsBest`) and the triangle counts.

## Model

| member | source | states |
|---|---|---|
| GraphParsing.GraphParser.constructor | src/main/java/nl/tudelft/graphalytics/reference/GraphParser.java:40-45 | The parser keeps the vertex records, the edge records and the directedness, and starts with no graph built. |
| GraphParsing.GraphParser.Parse | src/main/java/nl/tudelft/graphalytics/reference/GraphParser.java:55-64 | A second call returns the memoised map unchanged. A first call builds the map from the vertex records and then the edge records, and stores it. It fails with the first unknown id an edge record looks up. |
| GraphParsing.GraphParser.ParseVertices | src/main/java/nl/tudelft/graphalytics/reference/GraphParser.java:66-76 | The record loop puts an empty list for every non-empty vertex line, in record order. |
| GraphParsing.GraphParser.ParseEdges | src/main/java/nl/tudelft/graphalytics/reference/GraphParser.java:78-96 | The record loop appends each edge's destination to its source's list, and for an undirected graph also the source to the destination's list. It stops at the first unknown id. |
| GraphParsing.PutVertices | src/main/java/nl/tudelft/graphalytics/reference/GraphParser.java:69-73 | The keys are the old keys plus the ids of the non-empty vertex lines. Each such id has an empty list, and every other key keeps its list. |
| GraphParsing.AddEdge | src/main/java/nl/tudelft/graphalytics/reference/GraphParser.java:84-91 | One edge record keeps the key set. It fails exactly when the source is not a vertex, or the graph is undirected and the destination is not a vertex, and then names a missing endpoint. On success, the destination is appended to the source's list and, undirected, the source to the destination's list; no other list changes. |
| GraphParsing.AddEdges | src/main/java/nl/tudelft/graphalytics/reference/GraphParser.java:78-96 | Applying the edge records keeps the key set, and a reported id is never a vertex. |
| GraphParsing.AddEdgesResult | src/main/java/nl/tudelft/graphalytics/reference/GraphParser.java:81-91 | Edge parsing succeeds if and only if every looked-up id is a vertex. Then each list is the original followed by the record-order destinations (and, undirected, sources) incident to it. |
| GraphParsing.AddEdgesStopped | src/main/java/nl/tudelft/graphalytics/reference/GraphParser.java:86 | Once a lookup has failed, later records change nothing: the null lookup aborts the parse. |
| GraphParsing.IncidentCount | src/main/java/nl/tudelft/graphalytics/reference/GraphParser.java:89-91 | Undirected: v is appended to u's list exactly as often as u to v's. |
| GraphParsing.IncidentInKeys | src/main/java/nl/tudelft/graphalytics/reference/GraphParser.java:86-91 | Undirected parse: when every looked-up id (source and destination) is known, everything appended to a list is a vertex. |
| GraphParsing.UndirectedParseSymmetric | src/main/java/nl/tudelft/graphalytics/reference/GraphParser.java:60-62 | A successful undirected parse gives a closed, symmetric adjacency. |
| GraphParsing.MirrorAll | src/main/java/nl/tudelft/graphalytics/reference/GraphParser.java:101-110 | Mirroring edges into the new map never changes its key set. |
| GraphParsing.MirrorEdges | src/main/java/nl/tudelft/graphalytics/reference/GraphParser.java:106-109 | Mirroring one source's edges never changes the key set. |
| GraphParsing.ConvertToUndirected | src/main/java/nl/tudelft/graphalytics/reference/GraphParser.java:98-113 | Builds a new map, leaving the input as it is, equal to mirroring every edge in key-enumeration order into empty lists over the same keys. The result has the same keys, is closed and symmetric, and y is in x's new list if and only if x -> y or y -> x is an edge. |
| GraphParsing.MirrorInto | src/main/java/nl/tudelft/graphalytics/reference/GraphParser.java:106-109 | The inner loop appends d to s's list and then s to d's list, for every destination d of s in list order. |
| GraphParsing.MirrorOneCount | src/main/java/nl/tudelft/graphalytics/reference/GraphParser.java:107-108 | One mirrored edge s -> d adds exactly one d to s's list and one s to d's list. |
| GraphParsing.MirrorEdgesCount | src/main/java/nl/tudelft/graphalytics/reference/GraphParser.java:106-109 | Counted with multiplicity, the lists after one source's edges hold the old entries, plus the destinations in s's list, plus s once per edge into the vertex. |
| GraphParsing.MirrorAllCount | src/main/java/nl/tudelft/graphalytics/reference/GraphParser.java:105-110 | Over all sources: y occurs in x's new list (number of x -> y edges) + (number of y -> x edges) times. |
| GraphParsing.UndirectedOfLists | src/main/java/nl/tudelft/graphalytics/reference/GraphParser.java:99-112 | Same key set. As a multiset, x's new list is its own destinations plus one source per incoming edge, so its length is out-degree + in-degree. |
| GraphParsing.UndirectedOfMember | src/main/java/nl/tudelft/graphalytics/reference/GraphParser.java:105-110 | y is in x's new list if and only if x -> y or y -> x is an edge. |
| GraphParsing.UndirectedOfSymmetric | src/main/java/nl/tudelft/graphalytics/reference/GraphParser.java:98-113 | The converted map is closed and symmetric. |
| GraphParsing.UndirectedOfMeaning | src/main/java/nl/tudelft/graphalytics/reference/GraphParser.java:98-113 | The converted map has the input's keys, is closed and symmetric, and joins x and y exactly when the input has an edge between them in either direction. |
| GraphParsing.MirrorEdgesSize | src/main/java/nl/tudelft/graphalytics/reference/GraphParser.java:106-109 | Mirroring k edges adds 2k list entries. |
| GraphParsing.MirrorAllSize | src/main/java/nl/tudelft/graphalytics/reference/GraphParser.java:105-110 | Mirroring the edges of a run of sources adds twice their number of edges. |
| GraphParsing.UndirectedOfSize | src/main/java/nl/tudelft/graphalytics/reference/GraphParser.java:105-110 | The total number of list entries doubles. |
| Graphs.Enumerate | src/main/java/nl/tudelft/graphalytics/reference/GraphParser.java:101 | Iterating a key set visits every key exactly once. |
| PropertyGraphs.NeighboursMember | src/main/java/nl/tudelft/graphalytics/reference/algorithms/wcc/WeaklyConnectedComponentsJob.java:68-75 | A vertex's direction-free neighbours are the other endpoints of its outgoing edges followed by those of its incoming edges. |
| PropertyGraphs.NeighboursSymmetric | src/main/java/nl/tudelft/graphalytics/reference/algorithms/wcc/WeaklyConnectedComponentsJob.java:68-75 | Following both directions gives a closed, symmetric adjacency over the same vertices. |
| BreadthFirstSearch.BreadthFirstSearchJob.constructor | src/main/java/nl/tudelft/graphalytics/reference/algorithms/bfs/BreadthFirstSearchJob.java:39-42 | A directed graph is kept as it is. An undirected one is replaced by its convertToUndirected form. |
| BreadthFirstSearch.BreadthFirstSearchJob.Run | src/main/java/nl/tudelft/graphalytics/reference/algorithms/bfs/BreadthFirstSearchJob.java:44-83 | The source gets 0. Every vertex reachable from it gets its shortest hop count, every other vertex Long.MAX_VALUE, and there is one entry per vertex. There are at most \|V\| dequeues. A source that is not a vertex fails. |
| BreadthFirstSearch.ScanNeighbours | src/main/java/nl/tudelft/graphalytics/reference/algorithms/bfs/BreadthFirstSearchJob.java:68-77 | The neighbour loop keeps the search state and expands u fully. The visited set only grows. The old queue stays at the front. Vertices visited before keep their distances. Each newly visited vertex gets the dequeued distance + 1 and is appended once after the old queue. |
| BreadthFirstSearch.ScanStep | src/main/java/nl/tudelft/graphalytics/reference/algorithms/bfs/BreadthFirstSearchJob.java:70-76 | Handling neighbour i moves the scan state from i to i + 1. An unvisited neighbour is visited at du + 1 and appended; a visited one changes nothing. |
| BreadthFirstSearch.Dequeue | src/main/java/nl/tudelft/graphalytics/reference/algorithms/bfs/BreadthFirstSearchJob.java:64-65 | The FIFO queue is sorted by distance and spans at most two levels, so the dequeued vertex is one of least distance. |
| BreadthFirstSearch.Discover | src/main/java/nl/tudelft/graphalytics/reference/algorithms/bfs/BreadthFirstSearchJob.java:72-76 | An unvisited neighbour's distance du + 1 is a shortest hop count, and enqueueing it keeps the queue sorted. |
| BreadthFirstSearch.UnvisitedBound | src/main/java/nl/tudelft/graphalytics/reference/algorithms/bfs/BreadthFirstSearchJob.java:63-78 | A walk to an unvisited vertex passes through the queue, so it is longer than every queued distance. |
| BreadthFirstSearch.HopDistanceUnique | src/main/java/nl/tudelft/graphalytics/reference/algorithms/bfs/BreadthFirstSearchJob.java:75 | The hop distance of a vertex is unique. |
| BreadthFirstSearch.HopDistancePredecessor | src/main/java/nl/tudelft/graphalytics/reference/algorithms/bfs/BreadthFirstSearchJob.java:75 | A positive hop distance d comes from a predecessor at hop distance d - 1. |
| BreadthFirstSearch.HopDistanceEdge | src/main/java/nl/tudelft/graphalytics/reference/algorithms/bfs/BreadthFirstSearchJob.java:75 | Along an edge u -> v, the hop distance grows by at most one. |
| Components.FloodFill | src/main/java/nl/tudelft/graphalytics/reference/algorithms/conn/ConnectedComponentsJob.java:31-59 | Every vertex gets exactly one id. Ids are 0, 1, 2, … in first-seen order. Two vertices share an id if and only if they are connected. |
| Components.AllFilled | src/main/java/nl/tudelft/graphalytics/reference/algorithms/conn/ConnectedComponentsJob.java:34-59 | After every vertex has been met, each vertex has an id, and equal ids mean connected. |
| Components.FillComponent | src/main/java/nl/tudelft/graphalytics/reference/algorithms/conn/ConnectedComponentsJob.java:45-57 | Draining the queue labels the whole component of the opener. Every vertex that already had an id keeps it. |
| Components.Open | src/main/java/nl/tudelft/graphalytics/reference/algorithms/conn/ConnectedComponentsJob.java:36-42 | Opening a new component at the first vertex without an id keeps the first-seen numbering. |
| Components.Dequeue | src/main/java/nl/tudelft/graphalytics/reference/algorithms/conn/ConnectedComponentsJob.java:49 | Taking the head off the queue exempts only it from "all neighbours labelled". |
| Components.LabelNeighbours | src/main/java/nl/tudelft/graphalytics/reference/algorithms/conn/ConnectedComponentsJob.java:51-56 | The neighbour loop gives the current id to every unlabelled neighbour and changes no existing id. The queue becomes the old queue followed by exactly the newly labelled vertices, each once. |
| Components.LabelStep | src/main/java/nl/tudelft/graphalytics/reference/algorithms/conn/ConnectedComponentsJob.java:51-55 | Handling neighbour i moves the scan state from i to i + 1. An unlabelled neighbour gets the id and is appended; a labelled one changes nothing. |
| Components.AppendStep | src/main/java/nl/tudelft/graphalytics/reference/algorithms/conn/ConnectedComponentsJob.java:52-54 | Labelling and enqueueing one more vertex keeps "old queue followed by exactly the new vertices". |
| Components.Label | src/main/java/nl/tudelft/graphalytics/reference/algorithms/conn/ConnectedComponentsJob.java:52-54 | Labelling an unlabelled neighbour at the moment it is enqueued keeps the invariants. |
| Components.SameComponent | src/main/java/nl/tudelft/graphalytics/reference/algorithms/conn/ConnectedComponentsJob.java:51-56 | A labelled neighbour of a vertex being expanded already carries that vertex's id. |
| Components.SameIdConnected | src/main/java/nl/tudelft/graphalytics/reference/algorithms/conn/ConnectedComponentsJob.java:45-57 | Both directions: equal ids if and only if connected. |
| Components.IdFollowsWalk | src/main/java/nl/tudelft/graphalytics/reference/algorithms/conn/ConnectedComponentsJob.java:51-55 | After the fill, every vertex a walk reaches carries the id of the walk's start. |
| Components.WeaklyConnectedComponentsJob.constructor | src/main/java/nl/tudelft/graphalytics/reference/algorithms/wcc/WeaklyConnectedComponentsJob.java:39-41 | The job keeps the graph. |
| Components.WeaklyConnectedComponentsJob.Run | src/main/java/nl/tudelft/graphalytics/reference/algorithms/wcc/WeaklyConnectedComponentsJob.java:43-90 | There is one id per vertex, numbered 0, 1, 2, … in vertex-list first-seen order, so the ids are exactly 0 .. numComponents - 1. Two vertices share an id if and only if a walk that ignores edge direction joins them. |
| Components.ConnectedComponentsJob.constructor | src/main/java/nl/tudelft/graphalytics/reference/algorithms/conn/ConnectedComponentsJob.java:24-26 | A directed graph is replaced by its convertToUndirected form. An undirected one is kept as it is. |
| Components.ConnectedComponentsJob.Run | src/main/java/nl/tudelft/graphalytics/reference/algorithms/conn/ConnectedComponentsJob.java:28-64 | One id per key, numbered in key-enumeration first-seen order. Equal ids if and only if connected. |
| LabelPropagation.NeighbourLabels | src/main/java/nl/tudelft/graphalytics/reference/algorithms/cd/CommunityDetectionJob.java:76-77 | One previous-round label per list entry, in list order. |
| LabelPropagation.CountLabels | src/main/java/nl/tudelft/graphalytics/reference/algorithms/cd/CommunityDetectionJob.java:73-79 | The cleared histogram ends up counting each label with multiplicity. |
| LabelPropagation.HistogramAdd | src/main/java/nl/tudelft/graphalytics/reference/algorithms/cd/CommunityDetectionJob.java:78 | Adding one label raises its count (default 0) by one and leaves the other counts alone. |
| LabelPropagation.SelectLabel | src/main/java/nl/tudelft/graphalytics/reference/algorithms/cd/CommunityDetectionJob.java:81-93 | Whatever the iteration order, the fold returns a label of maximal count, the smallest one on ties, and 0 for an empty histogram. |
| LabelPropagation.ChooseDominates | src/main/java/nl/tudelft/graphalytics/reference/algorithms/cd/CommunityDetectionJob.java:86-93 | The fold's label is one of the candidates, and no candidate has a higher count or an equal count with a smaller label. |
| LabelPropagation.ChooseIsBest | src/main/java/nl/tudelft/graphalytics/reference/algorithms/cd/CommunityDetectionJob.java:81-93 | Folding over the neighbour labels gives the best label of their histogram. |
| LabelPropagation.BestUnique | src/main/java/nl/tudelft/graphalytics/reference/algorithms/cd/CommunityDetectionJob.java:84-93 | The (max count, min label) choice is unique, so it does not depend on hash order. |
| LabelPropagation.NewLabelIsBest | src/main/java/nl/tudelft/graphalytics/reference/algorithms/cd/CommunityDetectionJob.java:73-93 | A vertex's new label is the best label of its neighbours' previous-round labels. |
| LabelPropagation.VertexLabel | src/main/java/nl/tudelft/graphalytics/reference/algorithms/cd/CommunityDetectionJob.java:73-93 | Histogram plus fold computes exactly that new label. |
| LabelPropagation.Round | src/main/java/nl/tudelft/graphalytics/reference/algorithms/cd/CommunityDetectionJob.java:72-98 | A round gives every vertex exactly one new label. |
| LabelPropagation.ComputeRound | src/main/java/nl/tudelft/graphalytics/reference/algorithms/cd/CommunityDetectionJob.java:70-98 | The vertex loop writes into `newLabels` exactly the round computed from the `labels` snapshot. `change` is set if and only if some label differs, that is, if and only if the labels are not a fixed point. |
| LabelPropagation.FillStep | src/main/java/nl/tudelft/graphalytics/reference/algorithms/cd/CommunityDetectionJob.java:96-97 | One vertex's put and change update extend the filled prefix by one vertex. |
| LabelPropagation.Unchanged | src/main/java/nl/tudelft/graphalytics/reference/algorithms/cd/CommunityDetectionJob.java:97 | If no vertex changed, the labels are stable. |
| LabelPropagation.NextLabels | src/main/java/nl/tudelft/graphalytics/reference/algorithms/cd/CommunityDetectionJob.java:96 | Once every vertex has been put, the new map is the round. |
| LabelPropagation.Iterate | src/main/java/nl/tudelft/graphalytics/reference/algorithms/cd/CommunityDetectionJob.java:67-107 | k rounds keep one label per vertex. |
| LabelPropagation.IterateLast | src/main/java/nl/tudelft/graphalytics/reference/algorithms/cd/CommunityDetectionJob.java:100-102 | Swapping the buffers after round k + 1 gives the round applied to the labels after round k. |
| LabelPropagation.RepeatedFixed | src/main/java/nl/tudelft/graphalytics/reference/algorithms/cd/CommunityDetectionJob.java:104-106 | Repeating a step from one of its fixed points changes nothing. |
| LabelPropagation.RepeatedPreserves | src/main/java/nl/tudelft/graphalytics/reference/algorithms/cd/CommunityDetectionJob.java:67-107 | A property that every step preserves holds after any number of steps. |
| LabelPropagation.StableRound | src/main/java/nl/tudelft/graphalytics/reference/algorithms/cd/CommunityDetectionJob.java:97 | No label changes if and only if the round is a fixed point. |
| LabelPropagation.FixedPointStable | src/main/java/nl/tudelft/graphalytics/reference/algorithms/cd/CommunityDetectionJob.java:104-106 | Breaking early loses nothing: from stable labels every further round returns the same labels. |
| LabelPropagation.Advance | src/main/java/nl/tudelft/graphalytics/reference/algorithms/cd/CommunityDetectionJob.java:100-106 | After the swap the labels are round k + 1. The loop continues only when something changed and breaks when the labels are stable. |
| LabelPropagation.Propagate | src/main/java/nl/tudelft/graphalytics/reference/algorithms/cd/CommunityDetectionJob.java:62-111 | The labels start as the vertex ids and are returned after `rounds` rounds. `rounds` is at most max(maxIterations, 0), so maxIterations ≤ 0 returns the ids. The run stops early only at a fixed point, and every round before the last changed something. |
| LabelPropagation.RoundVertexLabels | src/main/java/nl/tudelft/graphalytics/reference/algorithms/cd/CommunityDetectionJob.java:81-96 | A round only hands out labels that are vertex ids, or 0 to a vertex without neighbours. |
| LabelPropagation.IterateVertexLabels | src/main/java/nl/tudelft/graphalytics/reference/algorithms/cd/CommunityDetectionJob.java:62-107 | Every label ever returned is a vertex id or 0. |
| LabelPropagation.CommunityDetectionLPJob.constructor | src/main/java/science/atlarge/graphalytics/reference/algorithms/cdlp/CommunityDetectionLPJob.java:39-42 | The job keeps the graph and the iteration limit. |
| LabelPropagation.CommunityDetectionLPJob.Run | src/main/java/science/atlarge/graphalytics/reference/algorithms/cdlp/CommunityDetectionLPJob.java:44-115 | Label propagation over outgoing then incoming edges, with multiplicity: one label per vertex, equal to `rounds` rounds from the ids. It stops within maxIterations, or early at a fixed point. |
| LabelPropagation.CommunityDetectionJob.constructor | src/main/java/nl/tudelft/graphalytics/reference/algorithms/cd/CommunityDetectionJob.java:43-46 | The adjacency is replaced by its convertToUndirected form. |
| LabelPropagation.CommunityDetectionJob.Run | src/main/java/nl/tudelft/graphalytics/reference/algorithms/cd/CommunityDetectionJob.java:48-112 | The same over the undirected lists: one label per key, within maxIterations, early exit only at a fixed point. |
| Clustering.Deduplicated | src/main/java/nl/tudelft/graphalytics/reference/algorithms/lcc/LocalClusteringCoefficientJob.java:72-80 | Deduplication keeps the key set. |
| Clustering.DeduplicatedMember | src/main/java/nl/tudelft/graphalytics/reference/algorithms/lcc/LocalClusteringCoefficientJob.java:75-77 | w is in v's set if and only if w is in v's list. |
| Clustering.DeduplicatedClosed | src/main/java/nl/tudelft/graphalytics/reference/algorithms/lcc/LocalClusteringCoefficientJob.java:72-80 | The sets of a closed adjacency hold only vertices. |
| Clustering.RemoveDuplicateNeighbours | src/main/java/nl/tudelft/graphalytics/reference/algorithms/lcc/LocalClusteringCoefficientJob.java:72-80 | The loop builds, without touching its input, the map from each key to the set of its list's entries. The `stats` variant's identical code is at stats/LocalClusteringCoefficientJob.java lines 57-65. |
| Clustering.Coefficient | src/main/java/nl/tudelft/graphalytics/reference/algorithms/lcc/LocalClusteringCoefficientJob.java:62 | Degree below 2 gives 0. Otherwise the coefficient times deg(deg-1) is the count, so it is the exact quotient. |
| Clustering.CoefficientRange | src/main/java/nl/tudelft/graphalytics/reference/algorithms/lcc/LocalClusteringCoefficientJob.java:61-63 | A count in [0, deg(deg-1)] gives a coefficient in [0, 1], and the top count gives 1. |
| Clustering.TrianglePairsRows | src/main/java/nl/tudelft/graphalytics/reference/algorithms/lcc/LocalClusteringCoefficientJob.java:51-59 | Counting u by u over the neighbourhood in any enumeration gives the number of ordered pairs (u, w) in N(v)×N(v) with w ∈ Out(u). |
| Clustering.TriangleRowStep | src/main/java/nl/tudelft/graphalytics/reference/algorithms/lcc/LocalClusteringCoefficientJob.java:51-58 | One more u adds \|N(v) ∩ Out(u)\| to the count. |
| Clustering.CountWithin | src/main/java/nl/tudelft/graphalytics/reference/algorithms/lcc/LocalClusteringCoefficientJob.java:54-58 | The inner loop counts the neighbours of v that are in Out(u). |
| Clustering.CountTriangles | src/main/java/nl/tudelft/graphalytics/reference/algorithms/lcc/LocalClusteringCoefficientJob.java:48-59 | `tri` is the number of ordered pairs (u, w) in N(v)×N(v) with w ∈ Out(u). The `stats` variant's identical code is at stats/LocalClusteringCoefficientJob.java lines 33-44. |
| Clustering.TriangleBound | src/main/java/nl/tudelft/graphalytics/reference/algorithms/lcc/LocalClusteringCoefficientJob.java:51-61 | Without self-loops, tri ≤ deg(deg-1), with equality when every ordered pair of distinct neighbours is an edge. |
| Clustering.CoefficientBounds | src/main/java/nl/tudelft/graphalytics/reference/algorithms/lcc/LocalClusteringCoefficientJob.java:51-63 | Without self-loops, the coefficient lies in [0, 1], and it is 1 for a complete neighbourhood of degree ≥ 2. |
| Clustering.LocalClusteringCoefficientJob.constructor | src/main/java/nl/tudelft/graphalytics/reference/algorithms/lcc/LocalClusteringCoefficientJob.java:35-40 | The outgoing sets deduplicate the input. The neighbourhoods are those sets when undirected, and the deduplicated convertToUndirected form when directed. The `stats` variant's identical code is at stats/LocalClusteringCoefficientJob.java lines 20-25. |
| Clustering.LocalClusteringCoefficientJob.Run | src/main/java/nl/tudelft/graphalytics/reference/algorithms/lcc/LocalClusteringCoefficientJob.java:42-70 | One entry per vertex: tri / (deg(deg-1)) with tri the triangle-pair count and deg = \|N(v)\|, or exactly 0 when deg < 2. The `stats` variant's identical code is at stats/LocalClusteringCoefficientJob.java lines 27-55. |
| PropertyGraphClustering.NeighbourSetMember | src/main/java/science/atlarge/graphalytics/reference/algorithms/lcc/LocalClusteringCoefficientJob.java:49-57 | N(v) is the set of in-edge sources and out-edge destinations, and holds only vertices. |
| PropertyGraphClustering.CollectNeighbours | src/main/java/science/atlarge/graphalytics/reference/algorithms/lcc/LocalClusteringCoefficientJob.java:49-57 | The two add loops build exactly N(v). |
| PropertyGraphClustering.EdgeSlotsRows | src/main/java/science/atlarge/graphalytics/reference/algorithms/lcc/LocalClusteringCoefficientJob.java:59-65 | Counting u by u in any enumeration of N(v) gives the number of outgoing-edge positions of N(v) that end in N(v). |
| PropertyGraphClustering.SlotRowStep | src/main/java/science/atlarge/graphalytics/reference/algorithms/lcc/LocalClusteringCoefficientJob.java:60-64 | One more u adds the number of u's edges, parallel ones included, that end in N(v). |
| PropertyGraphClustering.CountEdgesWithin | src/main/java/science/atlarge/graphalytics/reference/algorithms/lcc/LocalClusteringCoefficientJob.java:59-65 | `tri` counts every outgoing edge of every u ∈ N(v) whose destination is in N(v), each parallel edge separately. |
| PropertyGraphClustering.DistinctSlots | src/main/java/science/atlarge/graphalytics/reference/algorithms/lcc/LocalClusteringCoefficientJob.java:60-64 | Without parallel edges, the edge positions ending in N(v) are as many as the distinct destinations in N(v). |
| PropertyGraphClustering.EdgeSlotsBound | src/main/java/science/atlarge/graphalytics/reference/algorithms/lcc/LocalClusteringCoefficientJob.java:59-67 | Without self-loops and parallel edges, tri ≤ deg(deg-1). |
| PropertyGraphClustering.EdgeCoefficientBounds | src/main/java/science/atlarge/graphalytics/reference/algorithms/lcc/LocalClusteringCoefficientJob.java:59-69 | Under the same conditions, the coefficient lies in [0, 1]. |
| PropertyGraphClustering.LocalClusteringCoefficientJob.constructor | src/main/java/science/atlarge/graphalytics/reference/algorithms/lcc/LocalClusteringCoefficientJob.java:38-40 | The job keeps the graph. |
| PropertyGraphClustering.LocalClusteringCoefficientJob.Run | src/main/java/science/atlarge/graphalytics/reference/algorithms/lcc/LocalClusteringCoefficientJob.java:42-76 | One entry per vertex: the edge count within N(v) divided by deg(deg-1) with deg = \|N(v)\|, or 0 when deg < 2. |
| ShortestPaths.WalkNonNegative | src/main/java/nl/tudelft/graphalytics/reference/algorithms/sssp/SingleSourceShortestPathJob.java:90-91 | With non-negative weights, every walk costs at least 0. |
| ShortestPaths.Add | src/main/java/nl/tudelft/graphalytics/reference/algorithms/sssp/SingleSourceShortestPathJob.java:95 | Adding to the pending set adds exactly that vertex. |
| ShortestPaths.Without | src/main/java/nl/tudelft/graphalytics/reference/algorithms/sssp/SingleSourceShortestPathJob.java:80 | Removing from the pending set removes exactly that vertex. |
| ShortestPaths.FindMin | src/main/java/nl/tudelft/graphalytics/reference/algorithms/sssp/SingleSourceShortestPathJob.java:68-77 | The scan returns the first pending vertex of least distance: no pending distance is smaller, and every earlier one is strictly larger. It returns -1 with +∞ when all pending distances are infinite. |
| ShortestPaths.PendingBelow | src/main/java/nl/tudelft/graphalytics/reference/algorithms/sssp/SingleSourceShortestPathJob.java:67-99 | A walk to an unvisited vertex leaves the visited set through a pending vertex whose distance is at most the walk's cost. |
| ShortestPaths.LeastIsShortest | src/main/java/nl/tudelft/graphalytics/reference/algorithms/sssp/SingleSourceShortestPathJob.java:68-81 | The pending vertex of least distance has a shortest-path distance. |
| ShortestPaths.Extract | src/main/java/nl/tudelft/graphalytics/reference/algorithms/sssp/SingleSourceShortestPathJob.java:80-81 | Moving it from pending to visited keeps the invariant, with only its own edges left to relax. |
| ShortestPaths.Lower | src/main/java/nl/tudelft/graphalytics/reference/algorithms/sssp/SingleSourceShortestPathJob.java:94-97 | Setting an unvisited neighbour to an attained cost that is not larger than its current distance, and adding it to pending, keeps the invariant. |
| ShortestPaths.RelaxedKept | src/main/java/nl/tudelft/graphalytics/reference/algorithms/sssp/SingleSourceShortestPathJob.java:94-97 | Distances only decrease and pending only grows, so a relaxed edge stays relaxed. |
| ShortestPaths.RelaxNeighbours | src/main/java/nl/tudelft/graphalytics/reference/algorithms/sssp/SingleSourceShortestPathJob.java:84-99 | The neighbour loop relaxes every edge of the new visited vertex. It never touches a visited vertex's distance, never removes a pending vertex and never increases a finite distance. |
| ShortestPaths.RelaxOne | src/main/java/nl/tudelft/graphalytics/reference/algorithms/sssp/SingleSourceShortestPathJob.java:89-97 | Lowering an unvisited neighbour's distance to the new path length keeps the invariant and every earlier relaxation, and increases no finite distance. |
| ShortestPaths.Finished | src/main/java/nl/tudelft/graphalytics/reference/algorithms/sssp/SingleSourceShortestPathJob.java:67 | With pending empty, the distances are the shortest-path costs, and unreachable vertices keep +∞. |
| ShortestPaths.SingleSourceShortestPathJob.constructor | src/main/java/nl/tudelft/graphalytics/reference/algorithms/sssp/SingleSourceShortestPathJob.java:43-46 | The job keeps the graph and the source. |
| ShortestPaths.SingleSourceShortestPathJob.Run | src/main/java/nl/tudelft/graphalytics/reference/algorithms/sssp/SingleSourceShortestPathJob.java:48-105 | With non-negative weights: one distance per vertex, the source 0, each reachable vertex its least walk cost, and each unreachable one +∞. There are at most \|V\| rounds. A source that is not a vertex fails. |
| ShortestPaths.TriangleInequality | src/main/java/nl/tudelft/graphalytics/reference/algorithms/sssp/SingleSourceShortestPathJob.java:90-97 | For every edge u -> w with finite dist(u), dist(w) ≤ dist(u) + weight. |
| ShortestPaths.SourceDistance | src/main/java/nl/tudelft/graphalytics/reference/algorithms/sssp/SingleSourceShortestPathJob.java:63 | In any shortest-path result the source's distance is 0. |

## Left out

- The rest of the repository is not part of this model: the platform and dispatch classes, output writing, log parsing, PageRank (`double` numerics) and everything under `src/test`. Logging calls are dropped.
- File reading and `Long.parseLong` are not modelled. The parser takes vertex and edge records that are already tokenised. An empty line is a record of its own kind, and it is skipped. An `IOException` cannot occur.
- Ids are `int`. Java's `long` wrap-around and `int` overflow of counters (`tri`, histogram counts, `numComponents`) are not modelled; every count is exact.
- Java `double` arithmetic is not modelled. SSSP weights and distances are exact reals, and `Double.POSITIVE_INFINITY` is the `Infinity` variant. The clustering coefficient is an exact real quotient.
- Hash iteration order is an arbitrary fixed enumeration, not the real hash-table order.
- The `PropertyGraph` library is not part of this model. A property graph is a vertex list plus outgoing lists whose entries are vertices, and incoming edges are derived from them.
- The `GraphParser` that SSSP calls (`getVertices`, `getNeighbors`, `getEdgeProperty`) is not part of this model. SSSP runs on a weighted adjacency map whose edges carry their weight.
- SSSP's `LongLinkedOpenHashSet` for `pending` is a sequence in insertion order. `Add` appends only when the vertex is absent, and `Without` removes it. `visited` is a set.
- ShortestPaths.SingleSourceShortestPathJob.Run: requires that every edge ends at a vertex and has a non-negative weight. Dijkstra's minimum extraction is only correct under this condition, and the Java code does not check it. A source that is not a vertex is reported as `Failure(UnknownVertex)`. The Java code instead stores distance 0 for the source and then looks up its unseen neighbour list.
- BreadthFirstSearch.BreadthFirstSearchJob.Run: a source that is not a vertex is reported as `Failure(UnknownVertex)`. In Java, `graphData.get` returns null for it and the neighbour loop throws.
- The kernels over an adjacency map require it to be closed: every neighbour is itself a key. Java would throw on a missing key or read a default value. A successful undirected parse guarantees this (`UndirectedParseSymmetric`, `IncidentInKeys`).
- A successful directed parse can leave destinations that are not vertices: GraphParser.java line 86 appends the destination without looking it up. The kernels require `Closed`, so such input is outside the model of every kernel.
- Components.ConnectedComponentsJob.constructor: an undirected input must also be symmetric. A successful undirected parse guarantees this (`UndirectedParseSymmetric`), and the Java code relies on it without checking.
- GraphParsing.GraphParser.Parse: an edge record with an unknown source (or, when undirected, an unknown destination) ends the parse with `Failure(UnknownVertex)`. In Java it throws a `NullPointerException`. In both, the partly built map stays memoised. A later call to the memoised `parse` returns that map as a success. The model returns `Success` of it too.
- Clustering.TriangleBound and PropertyGraphClustering.EdgeSlotsBound: the bound deg(deg-1) is proved under the absence of self-loops, and for the property-graph count also of parallel edges. Without these conditions the Java code can report coefficients above 1. The model computes the same values in that case.
- A `PropertyGraph` vertex's neighbourhood order and the iteration order of the `HashSet` of `Vertex` objects are modelled as order-independent sets, because the results do not depend on them.
