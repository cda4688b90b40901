/**
 * `shape_based(G, coordinates)`: the Jaccard score of G against the graph
 * triangulated from the layout. The triangles stand for scipy's Delaunay
 * triangulation of the coordinates, which is an input here.
 */
module ShapeScore {
  import opened NxGraphs
  import opened Triangulation
  import opened JaccardScore

  /**
   * What `shape_based` needs to return a value rather than divide by zero: G
   * is a graph with at least one node, and every node of G has a neighbour in
   * G or is a corner of some triangle.
   */
  ghost predicate ShapeScorable(g: Graph, ss: seq<Simplex>) {
    && IsGraph(g)
    && |g.nodes| > 0
    && forall v :: v in g.nodes ==> Neighbors(g, v) != {} || Occurs(ss, v)
  }

  /**
   * For a non-empty graph G, `ShapeScorable` is exactly the condition under
   * which every Jaccard term against the triangulated graph is defined: no
   * stronger than what the code needs to avoid dividing by zero.
   */
  lemma ScorableAgainstTriangulation(g: Graph, ss: seq<Simplex>)
    requires IsGraph(g) && |g.nodes| > 0
    ensures ShapeScorable(g, ss) <==> Scorable(g, Triangulate(g.nodes, ss), g.nodes)
  {
    var s := Triangulate(g.nodes, ss);
    forall v | v in g.nodes
      ensures v in g.adj && v in s.adj
      ensures Neighbors(g, v) + Neighbors(s, v) != {} <==> Neighbors(g, v) != {} || Occurs(ss, v)
    {
      HasNeighborIffCorner(s, g.nodes, ss, v);
    }
  }

  /** The value `shape_based(G, coordinates)` returns, given the triangles of the layout. */
  function Score(g: Graph, ss: seq<Simplex>): (r: real)
    requires ShapeScorable(g, ss)
    ensures 0.0 <= r <= 1.0
  {
    ScorableAgainstTriangulation(g, ss);
    MeanScore(g, Triangulate(g.nodes, ss))
  }

  /** Equal neighbour sets at every node of G, spelled out pair by pair for a triangulated graph. */
  lemma SameNeighborsIffAdjacent(g: Graph, s: Graph, ss: seq<Simplex>)
    requires IsGraph(g) && TriangulationOf(s, g.nodes, ss)
    ensures (forall u :: u in g.nodes ==> Neighbors(g, u) == Neighbors(s, u)) <==>
            (forall u, v :: u in g.nodes ==> (v in g.adj[u] <==> Adjacent(ss, u, v)))
  {
    if forall u, v :: u in g.nodes ==> (v in g.adj[u] <==> Adjacent(ss, u, v)) {
      forall u | u in g.nodes ensures Neighbors(g, u) == Neighbors(s, u) {
        assert forall v :: v in Neighbors(g, u) <==> v in Neighbors(s, u);
      }
    }
  }

  /** Disjoint neighbour sets at every node of G, spelled out pair by pair for a triangulated graph. */
  lemma DisjointNeighborsIffApart(g: Graph, s: Graph, ss: seq<Simplex>)
    requires IsGraph(g) && TriangulationOf(s, g.nodes, ss)
    ensures (forall u :: u in g.nodes ==> Neighbors(g, u) * Neighbors(s, u) == {}) <==>
            (forall u, v :: u in g.nodes && v in g.adj[u] ==> !Adjacent(ss, u, v))
  {
    if forall u, v :: u in g.nodes && v in g.adj[u] ==> !Adjacent(ss, u, v) {
      forall u | u in g.nodes ensures Neighbors(g, u) * Neighbors(s, u) == {} {
        assert forall v :: v in Neighbors(g, u) ==> v !in Neighbors(s, u);
      }
    }
    if forall u :: u in g.nodes ==> Neighbors(g, u) * Neighbors(s, u) == {} {
      forall u, v | u in g.nodes && v in g.adj[u] ensures !Adjacent(ss, u, v) {
        assert v in Neighbors(g, u);
        assert v !in Neighbors(g, u) * Neighbors(s, u);
      }
    }
  }

  /**
   * The layout scores exactly 1 when, and only when, the triangles reproduce
   * G's adjacency at every node: v is a neighbour of u in G exactly when some
   * triangle has both u and v as corners.
   */
  lemma ScoreIsOne(g: Graph, ss: seq<Simplex>)
    requires ShapeScorable(g, ss)
    ensures Score(g, ss) == 1.0 <==> forall u, v :: u in g.nodes ==> (v in g.adj[u] <==> Adjacent(ss, u, v))
  {
    ScorableAgainstTriangulation(g, ss);
    MeanIsOne(g, Triangulate(g.nodes, ss));
    SameNeighborsIffAdjacent(g, Triangulate(g.nodes, ss), ss);
  }

  /** The layout scores exactly 0 when, and only when, no edge of G is a side of any triangle. */
  lemma ScoreIsZero(g: Graph, ss: seq<Simplex>)
    requires ShapeScorable(g, ss)
    ensures Score(g, ss) == 0.0 <==> forall u, v :: u in g.nodes && v in g.adj[u] ==> !Adjacent(ss, u, v)
  {
    ScorableAgainstTriangulation(g, ss);
    MeanIsZero(g, Triangulate(g.nodes, ss));
    DisjointNeighborsIffApart(g, Triangulate(g.nodes, ss), ss);
  }

  /**
   * `shape_based(G, coordinates)`: builds the triangulated graph S and returns
   * `jaccard_similarity_sum(G, S)`.
   */
  method ShapeBased(g: NxGraph, simplices: seq<Simplex>) returns (r: real)
    requires g.Valid()
    requires ShapeScorable(g.Value(), simplices)
    ensures r == Score(g.Value(), simplices)
    ensures 0.0 <= r <= 1.0
    ensures r == 1.0 <==> forall u, v :: u in g.nodes ==> (v in g.adj[u] <==> Adjacent(simplices, u, v))
    ensures r == 0.0 <==> forall u, v :: u in g.nodes && v in g.adj[u] ==> !Adjacent(simplices, u, v)
  {
    var s := DelaunayTriangulation(g, simplices);
    ScorableAgainstTriangulation(g.Value(), simplices);
    r := JaccardSimilaritySum(g, s);
    ScoreIsOne(g.Value(), simplices);
    ScoreIsZero(g.Value(), simplices);
  }
}
