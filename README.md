# Delaunay-triangulation shape score

A model of the scoring core of `2022-06-19/delaunay-triangulation_distribution.py`,
a script that tunes the parameters of a graph layout by scoring how well the
layout preserves the graph's structure. The score of a layout is computed in
three steps:

- `delaunay_triangulation(G, coordinates)` triangulates the node positions and
  builds a new networkx graph S holding every node of G plus the three sides of
  every triangle, each with weight `EDGE_WEIGHT` (30);
- `jaccard_similarity_sum(G, S)` takes, for every node of G, the Jaccard index
  |N_G(v) ∩ N_S(v)| / |N_G(v) ∪ N_S(v)| of its neighbour sets in the two graphs
  and returns their mean;
- `shape_based(G, coordinates)` chains the two.

`get_average_degree(G)` sums the node degrees of G and divides by the number of
nodes.

The project has six modules:

- `NxGraphs` (`nxgraph.dfy`): the part of networkx's undirected `Graph` the
  script uses. `Graph` is a value snapshot (node list in insertion order,
  adjacency dictionary, per-edge attribute dictionary shared by both
  directions). `WithNode`, `WithNodes`, `WithEdge` and `WithEdges` state what
  `add_node`, `add_nodes_from`, `add_edge` and `add_weighted_edges_from` do to
  it. The class `NxGraph` is the mutable object, and its methods are proved
  against those functions.
- `Triangulation` (`triangulation.dfy`): `delaunay_triangulation`, with the
  triangles (scipy's `Delaunay(...).simplices`) as an input.
- `JaccardScore` (`jaccard.dfy`): `jaccard_similarity_sum`.
- `AverageDegree` (`degree.dfy`): `get_average_degree` and the handshake
  identity.
- `ShapeScore` (`shape.dfy`): `shape_based`.
- `SetFacts` (`setfacts.dfy`): cardinality facts about finite sets.

Python's float division is modelled as exact division on `real`. The code
divides by zero in two places: `jaccard_similarity_sum` when a node of G has no
neighbour in either graph, and both `jaccard_similarity_sum` and
`get_average_degree` when G has no nodes. In each case it raises
`ZeroDivisionError`. The model turns these into preconditions: `Scorable` and
`ShapeScorable` for the first, `|g.nodes| > 0` for the second. Scoring a
doubly isolated node as 1.0 would be a natural fix. The code does not do that,
so this model does not either.

## Model

| member | source | states |
|---|---|---|
| NxGraphs.WithNode | 2022-06-19/delaunay-triangulation_distribution.py:106 | adding a node makes exactly that node new; the rows of existing nodes are unchanged |
| NxGraphs.WithNodes | 2022-06-19/delaunay-triangulation_distribution.py:106 | `add_nodes_from(ns)` is `add_node` for each element in order; afterwards the nodes are exactly the old ones and those of `ns` |
| NxGraphs.WithNodesFacts | 2022-06-19/delaunay-triangulation_distribution.py:105-106 | adding a list of nodes keeps the graph a graph, adds exactly the listed nodes with no neighbours, and leaves existing rows unchanged |
| NxGraphs.WithNodesAppends | 2022-06-19/delaunay-triangulation_distribution.py:106 | distinct new nodes are appended to the node order in the order given |
| NxGraphs.WithNodesKnown | 2022-06-19/delaunay-triangulation_distribution.py:106 | adding nodes the graph already has changes nothing |
| NxGraphs.WithEdge | 2022-06-19/delaunay-triangulation_distribution.py:114 | `add_edge(u, v, weight=w)`: adds u and v if new, then stores one dictionary, the old data of {u, v} (or none) with "weight" = w, under both directions; afterwards the nodes are exactly the old ones, u and v |
| NxGraphs.WithEdges | 2022-06-19/delaunay-triangulation_distribution.py:114 | `add_weighted_edges_from(es)` is `add_edge` for each (u, v, w) in order; afterwards the nodes are exactly the old ones and every end of a listed edge |
| NxGraphs.WithEdgeFacts | 2022-06-19/delaunay-triangulation_distribution.py:114 | one added edge keeps the graph a graph (symmetric, shared data), adds only its ends as nodes, and makes exactly its two ends newly adjacent |
| NxGraphs.WithEdgeData | 2022-06-19/delaunay-triangulation_distribution.py:114 | an added edge's data dictionary is the old one (or an empty one) with "weight" set; other edges keep their data |
| NxGraphs.WithEdgesFacts | 2022-06-19/delaunay-triangulation_distribution.py:114 | after a list of edges, the nodes are the old ones plus every edge end, and x, y are adjacent exactly when they were before or some listed edge joins them |
| NxGraphs.WithEdgesData | 2022-06-19/delaunay-triangulation_distribution.py:114 | when every listed edge has weight w, each joined pair's data is its old data with "weight" = w; other pairs keep theirs |
| NxGraphs.WithEdgesKeepNodes | 2022-06-19/delaunay-triangulation_distribution.py:114 | edges between existing nodes add no node and keep the node order |
| NxGraphs.NxGraph.constructor | 2022-06-19/delaunay-triangulation_distribution.py:105 | `nx.Graph()` is a valid graph with no nodes |
| NxGraphs.NxGraph.AddNode | 2022-06-19/delaunay-triangulation_distribution.py:106 | the graph stays valid and its new state is `WithNode` of the old state |
| NxGraphs.NxGraph.AddNodesFrom | 2022-06-19/delaunay-triangulation_distribution.py:106 | the graph stays valid and its new state is `WithNodes` of the old state |
| NxGraphs.NxGraph.AddEdge | 2022-06-19/delaunay-triangulation_distribution.py:114 | the graph stays valid and its new state is `WithEdge` of the old state |
| NxGraphs.NxGraph.AddWeightedEdgesFrom | 2022-06-19/delaunay-triangulation_distribution.py:114 | the graph stays valid and its new state is `WithEdges` of the old state |
| Triangulation.TriangleEdges | 2022-06-19/delaunay-triangulation_distribution.py:108-112 | `weighted_edges` has three entries per triangle, all weighted `EDGE_WEIGHT` |
| Triangulation.TriangleEdgesJoin | 2022-06-19/delaunay-triangulation_distribution.py:108-112 | an entry of `weighted_edges` joins x and y exactly when some triangle has both as corners; x is an end of an entry exactly when it is a corner |
| Triangulation.Triangulate | 2022-06-19/delaunay-triangulation_distribution.py:105-114 | S is an undirected graph (symmetric, shared data); its nodes are every node of G and every corner; x and y are adjacent exactly when some triangle has both as corners; every edge's data is exactly {"weight": 30} |
| Triangulation.TriangulateKeepsNodes | 2022-06-19/delaunay-triangulation_distribution.py:105-114 | when every corner is a node of G, S has exactly G's nodes, in G's order |
| Triangulation.TriangulatePositions | 2022-06-19/delaunay-triangulation_distribution.py:101-114 | when G's nodes are 0..n-1 in order and corners are positions below n, S has exactly G's nodes |
| Triangulation.TriangulateBySides | 2022-06-19/delaunay-triangulation_distribution.py:108-114 | S's adjacency depends only on which pairs share a triangle, so shared sides add nothing; when every corner of both lists is a node of G, S itself (node order included) depends only on that |
| Triangulation.RepeatedSimplex | 2022-06-19/delaunay-triangulation_distribution.py:109-114 | listing a triangle a second time leaves S's adjacency unchanged for any corners, and S itself unchanged when every corner is a node of G |
| Triangulation.SimplexOrder | 2022-06-19/delaunay-triangulation_distribution.py:109-114 | any permutation of the list of triangles (same multiset) leaves S's adjacency unchanged, and S itself unchanged when every corner is a node of G |
| Triangulation.CornersKeepNodes | 2022-06-19/delaunay-triangulation_distribution.py:105-114 | when every corner is a node of G, adding the triangle sides adds no node: S's node list is the one `add_nodes_from(G.nodes)` made |
| Triangulation.CornerHasSide | 2022-06-19/delaunay-triangulation_distribution.py:109-112 | a node is a corner of some triangle exactly when it shares a triangle with some node |
| Triangulation.NoSelfLoops | 2022-06-19/delaunay-triangulation_distribution.py:109-114 | triangles with three different corners give S no self-loop |
| Triangulation.HasNeighborIffCorner | 2022-06-19/delaunay-triangulation_distribution.py:105-114 | a node has a neighbour in S exactly when it is a corner of some triangle |
| Triangulation.CollectEdges | 2022-06-19/delaunay-triangulation_distribution.py:108-112 | the loop builds exactly `TriangleEdges` of the triangles, whose entries join x and y exactly when some triangle has both as corners |
| Triangulation.DelaunayTriangulation | 2022-06-19/delaunay-triangulation_distribution.py:100-116 | returns a fresh valid graph equal to `Triangulate` of G's nodes and the triangles |
| JaccardScore.JaccardIndex | 2022-06-19/delaunay-triangulation_distribution.py:122-124 | a node's term is in [0, 1]; it is 1 exactly when the neighbour sets are equal and 0 exactly when they are disjoint |
| JaccardScore.NodeScore | 2022-06-19/delaunay-triangulation_distribution.py:122-124 | the term added for one node: the Jaccard index of its neighbour sets in G and S, in [0, 1], 1 exactly when they are equal and 0 exactly when they are disjoint |
| JaccardScore.ScoreSum | 2022-06-19/delaunay-triangulation_distribution.py:120-124 | the running total after k nodes lies in [0, k] |
| JaccardScore.MeanScore | 2022-06-19/delaunay-triangulation_distribution.py:119-126 | the returned mean lies in [0, 1] |
| JaccardScore.SumIsFull | 2022-06-19/delaunay-triangulation_distribution.py:120-124 | the total reaches k exactly when each of the k nodes has the same neighbours in G and S |
| JaccardScore.SumIsZero | 2022-06-19/delaunay-triangulation_distribution.py:120-124 | the total is 0 exactly when each node's neighbour sets in G and S are disjoint |
| JaccardScore.MeanIsOne | 2022-06-19/delaunay-triangulation_distribution.py:119-126 | the score is 1 exactly when every node of G has identical neighbour sets in G and S |
| JaccardScore.MeanIsZero | 2022-06-19/delaunay-triangulation_distribution.py:119-126 | the score is 0 exactly when no node of G shares a neighbour between G and S |
| JaccardScore.SelfScoresOne | 2022-06-19/delaunay-triangulation_distribution.py:119-126 | G compared with itself scores 1 when no node is isolated |
| JaccardScore.EdgelessScoresZero | 2022-06-19/delaunay-triangulation_distribution.py:119-126 | an S whose nodes have no neighbours scores 0 against a G without isolated nodes |
| JaccardScore.JaccardSimilaritySum | 2022-06-19/delaunay-triangulation_distribution.py:119-126 | returns the mean of the per-node Jaccard indices, in [0, 1]; 1 exactly when every node's neighbour sets agree and 0 exactly when they are disjoint everywhere |
| AverageDegree.Degree | 2022-06-19/delaunay-triangulation_distribution.py:39 | `G.degree[n]`: the number of neighbours other than n, plus 2 when n is its own neighbour (networkx counts a self-loop twice); 0 exactly when n has no neighbour |
| AverageDegree.DegreeSum | 2022-06-19/delaunay-triangulation_distribution.py:37-39 | the accumulator `s` after the listed nodes; 0 exactly when every listed node has no neighbour |
| AverageDegree.DegreeSumCounts | 2022-06-19/delaunay-triangulation_distribution.py:37-39 | over distinct nodes, the degree total counts each (node, neighbour) pair once and each self-loop once more |
| AverageDegree.Handshake | 2022-06-19/delaunay-triangulation_distribution.py:37-39 | the sum of the degrees of G's nodes is twice the number of edges |
| AverageDegree.GetAverageDegree | 2022-06-19/delaunay-triangulation_distribution.py:36-40 | returns the degree sum over the node count, which equals 2·|E| / |V| |
| ShapeScore.ScorableAgainstTriangulation | 2022-06-19/delaunay-triangulation_distribution.py:130-132 | for a non-empty G, every node of G having a G-neighbour or being a corner is exactly the condition under which no term of the score divides by zero |
| ShapeScore.Score | 2022-06-19/delaunay-triangulation_distribution.py:129-134 | the shape score lies in [0, 1] |
| ShapeScore.ScoreIsOne | 2022-06-19/delaunay-triangulation_distribution.py:129-134 | the score is 1 exactly when, for every node u of G, v is a G-neighbour of u iff some triangle has u and v as corners |
| ShapeScore.ScoreIsZero | 2022-06-19/delaunay-triangulation_distribution.py:129-134 | the score is 0 exactly when no edge of G is a side of any triangle |
| ShapeScore.ShapeBased | 2022-06-19/delaunay-triangulation_distribution.py:129-134 | returns the shape score, in [0, 1]; it is 1 and 0 under exactly the conditions of `ScoreIsOne` and `ScoreIsZero` |

## Left out

- The Delaunay triangulation itself (lines 101-103: the point array and scipy's `Delaunay`). This is a foreign computational-geometry call. Its `simplices` are an input of `DelaunayTriangulation` and `ShapeBased`, and no geometric property of them (such as the empty-circumcircle condition) is modelled.
- `calc_distance` (lines 92-97): floating-point arithmetic that the core does not call.
- `get_shortest_paths` (lines 21-25): a networkx Dijkstra call that the core does not use.
- `get_coordinates` (lines 28-33): reads node positions from Cytoscape over the network. The coordinates only feed the triangulation, which is an input here.
- `get_props` (lines 43-73): builds Optuna layout parameters. It is configuration, not scoring logic.
- `show_delounay_triangulation` (lines 76-89): plotting and printing.
- `objective_wrapper` (lines 137-153) and `main` (lines 156-179): Optuna, Cytoscape and file I/O around the core. The graph loaded from `generated_graph.json` is a parameter of the model.
- The module-level `shape_based_values` dictionary (line 18) and the tuning constants (lines 10-12, 16): global state and settings of the tuning loop.
- Float rounding: Python's float division is modelled by exact `real` division, so the model does not capture rounding error in the sum or the mean.
- Node identifiers are natural numbers. networkx accepts any hashable value, and the script depends on node i being the point at position i of the coordinates (`TriangulatePositions` states what follows when that holds).
- G is taken to be an undirected `nx.Graph` (no parallel edges; self-loops allowed). `nx.node_link_graph` (line 162) builds a `DiGraph`, `MultiGraph` or `MultiDiGraph` when the JSON's `directed`/`multigraph` flags ask for one (a missing `multigraph` key means a multigraph), and then `G.degree` and `G.neighbors` count differently; the model, `AverageDegree.Handshake` and `AverageDegree.GetAverageDegree` included, does not describe those graph kinds.
- Node attribute dictionaries of networkx are not modelled, because the core never reads them. Edge attribute dictionaries are modelled as maps from string to integer, the only kind of attribute the core writes.
- JaccardScore.JaccardSimilaritySum: requires every node of G to be a node of S and to have a neighbour in G or S. G must also be non-empty. The code raises `NetworkXError` or `ZeroDivisionError` otherwise, and those error paths are not modelled.
- ShapeScore.ShapeBased: requires a non-empty G in which every node has a G-neighbour or is a corner of some triangle (`ShapeScorable`); the code raises `ZeroDivisionError` otherwise, and that error path is not modelled. `ShapeScore.Score` has the same precondition.
- AverageDegree.GetAverageDegree: requires a non-empty G. The code raises `ZeroDivisionError` on an empty graph, and that error path is not modelled.
