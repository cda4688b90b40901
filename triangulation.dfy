/**
 * The graph `delaunay_triangulation` builds from the triangles of a Delaunay
 * triangulation: a fresh networkx Graph holding every node of G, to which the
 * three sides of every triangle are added with the fixed weight EDGE_WEIGHT.
 * The triangles themselves (scipy's `Delaunay(...).simplices`) are an input.
 */
module Triangulation {
  import opened NxGraphs

  /** The weight given to every edge of the triangulated graph. */
  const EDGE_WEIGHT: int := 30

  /** One row of `simplices`: the positions of a triangle's three corners. */
  type Simplex = (nat, nat, nat)

  /** x is a corner of t. */
  predicate Corner(t: Simplex, x: nat) {
    t.0 == x || t.1 == x || t.2 == x
  }

  /** The corners of t at two different positions are x and y. */
  predicate Joins(t: Simplex, x: nat, y: nat) {
    SamePair(t.0, t.1, x, y) || SamePair(t.0, t.2, x, y) || SamePair(t.1, t.2, x, y)
  }

  /** Some triangle has x and y as corners at two different positions. */
  predicate Adjacent(ss: seq<Simplex>, x: nat, y: nat) {
    exists i :: 0 <= i < |ss| && Joins(ss[i], x, y)
  }

  /** Every corner of every triangle is one of `nodes`. */
  predicate CornersIn(ss: seq<Simplex>, nodes: seq<nat>) {
    forall i :: 0 <= i < |ss| ==> ss[i].0 in nodes && ss[i].1 in nodes && ss[i].2 in nodes
  }

  /** x is a corner of some triangle. */
  predicate Occurs(ss: seq<Simplex>, x: nat) {
    exists i :: 0 <= i < |ss| && Corner(ss[i], x)
  }

  /** The three edges appended for one triangle n: (n[0], n[1]), (n[0], n[2]), (n[1], n[2]). */
  function SimplexEdges(t: Simplex): seq<WeightedEdge> {
    [(t.0, t.1, EDGE_WEIGHT), (t.0, t.2, EDGE_WEIGHT), (t.1, t.2, EDGE_WEIGHT)]
  }

  /** The list `weighted_edges` once every triangle has been visited. */
  function TriangleEdges(ss: seq<Simplex>): (r: seq<WeightedEdge>)
    ensures |r| == 3 * |ss|
    ensures forall i :: 0 <= i < |r| ==> r[i].2 == EDGE_WEIGHT
    decreases |ss|
  {
    if ss == [] then [] else TriangleEdges(ss[..|ss| - 1]) + SimplexEdges(ss[|ss| - 1])
  }

  /** An edge of `weighted_edges` joins x and y exactly when some triangle has both as corners. */
  lemma {:induction false} TriangleEdgesJoin(ss: seq<Simplex>)
    ensures forall x, y :: LinkedBy(TriangleEdges(ss), x, y) <==> Adjacent(ss, x, y)
    ensures forall x :: EndOf(TriangleEdges(ss), x) <==> Occurs(ss, x)
    decreases |ss|
  {
    if ss != [] {
      var p, t := ss[..|ss| - 1], ss[|ss| - 1];
      assert ss == p + [t];
      TriangleEdgesJoin(p);
      LinkedByAppend(TriangleEdges(p), SimplexEdges(t));
      forall x, y
        ensures Adjacent(ss, x, y) <==> Adjacent(p, x, y) || Joins(t, x, y)
        ensures LinkedBy(SimplexEdges(t), x, y) <==> Joins(t, x, y)
      {
        AdjacentSnoc(p, t, x, y);
        SidesJoin(t, x, y);
      }
      forall x
        ensures Occurs(ss, x) <==> Occurs(p, x) || Corner(t, x)
        ensures EndOf(SimplexEdges(t), x) <==> Corner(t, x)
      {
        OccursSnoc(p, t, x);
        SidesEnd(t, x);
      }
    }
  }

  /** After one more triangle t, x and y share a triangle when they did before or t joins them. */
  lemma AdjacentSnoc(p: seq<Simplex>, t: Simplex, x: nat, y: nat)
    ensures Adjacent(p + [t], x, y) <==> Adjacent(p, x, y) || Joins(t, x, y)
  {
    var ss := p + [t];
    if Adjacent(p, x, y) {
      var i :| 0 <= i < |p| && Joins(p[i], x, y);
      assert ss[i] == p[i];
    }
    assert ss[|p|] == t;
    if Adjacent(ss, x, y) {
      var i :| 0 <= i < |ss| && Joins(ss[i], x, y);
      if i < |p| { assert ss[i] == p[i]; }
    }
  }

  /** After one more triangle t, x is a corner when it was before or is a corner of t. */
  lemma OccursSnoc(p: seq<Simplex>, t: Simplex, x: nat)
    ensures Occurs(p + [t], x) <==> Occurs(p, x) || Corner(t, x)
  {
    var ss := p + [t];
    if Occurs(p, x) {
      var i :| 0 <= i < |p| && Corner(p[i], x);
      assert ss[i] == p[i];
    }
    assert ss[|p|] == t;
    if Occurs(ss, x) {
      var i :| 0 <= i < |ss| && Corner(ss[i], x);
      if i < |p| { assert ss[i] == p[i]; }
    }
  }

  /** The three sides of t join exactly the pairs of its corners at different positions. */
  lemma SidesJoin(t: Simplex, x: nat, y: nat)
    ensures LinkedBy(SimplexEdges(t), x, y) <==> Joins(t, x, y)
  {
    var es := SimplexEdges(t);
    if SamePair(t.0, t.1, x, y) { assert Links(es[0], x, y); }
    else if SamePair(t.0, t.2, x, y) { assert Links(es[1], x, y); }
    else if SamePair(t.1, t.2, x, y) { assert Links(es[2], x, y); }
  }

  /** The ends of t's three sides are its corners. */
  lemma SidesEnd(t: Simplex, x: nat)
    ensures EndOf(SimplexEdges(t), x) <==> Corner(t, x)
  {
    var es := SimplexEdges(t);
    if t.0 == x { assert es[0].0 == x; }
    else if t.1 == x { assert es[0].1 == x; }
    else if t.2 == x { assert es[1].1 == x; }
  }

  /**
   * r is a graph whose nodes are those of `gNodes` and every corner, in which
   * x and y are adjacent exactly when some triangle has both as corners, every
   * edge carrying exactly {"weight": EDGE_WEIGHT}.
   */
  ghost predicate TriangulationOf(r: Graph, gNodes: seq<nat>, ss: seq<Simplex>) {
    && IsGraph(r)
    && (forall x :: x in r.adj <==> x in gNodes || Occurs(ss, x))
    && (forall x, y :: x in r.adj ==> (y in r.adj[x] <==> Adjacent(ss, x, y)))
    && (forall x, y :: x in r.adj && y in r.adj[x] ==> r.adj[x][y] == map["weight" := EDGE_WEIGHT])
  }

  /**
   * The graph `delaunay_triangulation(G, ...)` returns, given G's nodes (in
   * G's order) and the triangles: a graph whose nodes are G's and every corner,
   * in which x and y are adjacent exactly when some triangle has both as
   * corners, every edge carrying exactly {"weight": EDGE_WEIGHT}.
   */
  function Triangulate(gNodes: seq<nat>, ss: seq<Simplex>): (r: Graph)
    ensures TriangulationOf(r, gNodes, ss)
  {
    BuildShape(gNodes, ss);
    BuildData(gNodes, ss);
    WithEdges(WithNodes(Empty, gNodes), TriangleEdges(ss))
  }

  /** The nodes and the adjacency of the triangulated graph. */
  lemma BuildShape(gNodes: seq<nat>, ss: seq<Simplex>)
    ensures var r := WithEdges(WithNodes(Empty, gNodes), TriangleEdges(ss));
      && IsGraph(r)
      && (forall x :: x in r.adj <==> x in gNodes || Occurs(ss, x))
      && (forall x, y :: x in r.adj ==> (y in r.adj[x] <==> Adjacent(ss, x, y)))
  {
    var base := WithNodes(Empty, gNodes);
    WithNodesFacts(Empty, gNodes);
    WithEdgesFacts(base, TriangleEdges(ss));
    TriangleEdgesJoin(ss);
  }

  /** Every edge of the triangulated graph carries exactly {"weight": EDGE_WEIGHT}. */
  lemma BuildData(gNodes: seq<nat>, ss: seq<Simplex>)
    ensures var r := WithEdges(WithNodes(Empty, gNodes), TriangleEdges(ss));
      forall x, y :: x in r.adj && y in r.adj[x] ==> r.adj[x][y] == map["weight" := EDGE_WEIGHT]
  {
    var base := WithNodes(Empty, gNodes);
    var es := TriangleEdges(ss);
    var r := WithEdges(base, es);
    WithNodesFacts(Empty, gNodes);
    WithEdgesData(base, es, EDGE_WEIGHT);
    forall x, y | x in r.adj && y in r.adj[x] ensures r.adj[x][y] == map["weight" := EDGE_WEIGHT] {
      assert Data(r, x, y) == r.adj[x][y];
      assert Data(base, x, y) == map[];
      if !LinkedBy(es, x, y) {
        WithEdgesFacts(base, es);
        assert false;
      }
    }
  }

  /** When every corner is a node of G, every end of `weighted_edges` is already in the graph. */
  lemma EndsAreNodes(gNodes: seq<nat>, ss: seq<Simplex>)
    requires CornersIn(ss, gNodes)
    ensures forall i :: 0 <= i < |TriangleEdges(ss)| ==>
              TriangleEdges(ss)[i].0 in WithNodes(Empty, gNodes).adj && TriangleEdges(ss)[i].1 in WithNodes(Empty, gNodes).adj
  {
    var es := TriangleEdges(ss);
    var base := WithNodes(Empty, gNodes);
    TriangleEdgesJoin(ss);
    forall x | EndOf(es, x) ensures x in base.adj {
      assert Occurs(ss, x);
      var j :| 0 <= j < |ss| && Corner(ss[j], x);
    }
    forall i | 0 <= i < |es| ensures es[i].0 in base.adj && es[i].1 in base.adj {
      assert EndOf(es, es[i].0) && EndOf(es, es[i].1);
    }
  }

  /** When every corner is a node of G, the triangulated graph has the nodes of G's graph, in G's order. */
  lemma CornersKeepNodes(gNodes: seq<nat>, ss: seq<Simplex>)
    requires CornersIn(ss, gNodes)
    ensures Triangulate(gNodes, ss).nodes == WithNodes(Empty, gNodes).nodes
  {
    WithNodesFacts(Empty, gNodes);
    EndsAreNodes(gNodes, ss);
    WithEdgesKeepNodes(WithNodes(Empty, gNodes), TriangleEdges(ss));
  }

  /**
   * When every corner is a node of G, the triangulated graph has exactly G's
   * nodes, in G's order: no extra node is added.
   */
  lemma TriangulateKeepsNodes(gNodes: seq<nat>, ss: seq<Simplex>)
    requires Distinct(gNodes)
    requires CornersIn(ss, gNodes)
    ensures Triangulate(gNodes, ss).nodes == gNodes
  {
    WithNodesFacts(Empty, gNodes);
    WithNodesAppends(Empty, gNodes);
    CornersKeepNodes(gNodes, ss);
  }

  /**
   * The positional reading the script relies on: when G's nodes are 0, 1, ..., n-1
   * in that order and every corner is a position below n, the triangulated
   * graph has exactly G's nodes.
   */
  lemma TriangulatePositions(gNodes: seq<nat>, ss: seq<Simplex>)
    requires forall i :: 0 <= i < |gNodes| ==> gNodes[i] == i
    requires forall i :: 0 <= i < |ss| ==> ss[i].0 < |gNodes| && ss[i].1 < |gNodes| && ss[i].2 < |gNodes|
    ensures Triangulate(gNodes, ss).nodes == gNodes
  {
    forall i | 0 <= i < |ss| ensures ss[i].0 in gNodes && ss[i].1 in gNodes && ss[i].2 in gNodes {
      assert gNodes[ss[i].0] == ss[i].0 && gNodes[ss[i].1] == ss[i].1 && gNodes[ss[i].2] == ss[i].2;
    }
    TriangulateKeepsNodes(gNodes, ss);
  }

  /** A corner always shares a triangle with some node: the other corners of its triangle. */
  lemma CornerHasSide(ss: seq<Simplex>, x: nat)
    ensures Occurs(ss, x) <==> exists y :: Adjacent(ss, x, y)
  {
    if Occurs(ss, x) {
      var i :| 0 <= i < |ss| && Corner(ss[i], x);
      var t := ss[i];
      var y := if t.0 == x then t.1 else t.0;
      assert Joins(t, x, y);
      assert Adjacent(ss, x, y);
    }
    if exists y :: Adjacent(ss, x, y) {
      var y :| Adjacent(ss, x, y);
      var i :| 0 <= i < |ss| && Joins(ss[i], x, y);
      assert Corner(ss[i], x);
    }
  }

  /**
   * The triangulated graph's adjacency depends only on which pairs of nodes
   * share a triangle: not on how many triangles share a side, on repeated
   * triangles, or on their order. When every corner is a node of G, so does
   * the whole graph, node order included.
   */
  lemma TriangulateBySides(gNodes: seq<nat>, ss1: seq<Simplex>, ss2: seq<Simplex>)
    requires forall x, y :: Adjacent(ss1, x, y) <==> Adjacent(ss2, x, y)
    ensures Triangulate(gNodes, ss1).adj == Triangulate(gNodes, ss2).adj
    ensures CornersIn(ss1, gNodes) && CornersIn(ss2, gNodes) ==> Triangulate(gNodes, ss1) == Triangulate(gNodes, ss2)
  {
    var r1, r2 := Triangulate(gNodes, ss1), Triangulate(gNodes, ss2);
    forall x ensures Occurs(ss1, x) <==> Occurs(ss2, x) {
      CornerHasSide(ss1, x);
      CornerHasSide(ss2, x);
    }
    SameAdjacency(r1, r2, gNodes, ss1, ss2);
    if CornersIn(ss1, gNodes) && CornersIn(ss2, gNodes) {
      CornersKeepNodes(gNodes, ss1);
      CornersKeepNodes(gNodes, ss2);
    }
  }

  /** Two triangulated graphs over the same corners with the same adjacency have the same adjacency dictionary. */
  lemma SameAdjacency(r1: Graph, r2: Graph, gNodes: seq<nat>, ss1: seq<Simplex>, ss2: seq<Simplex>)
    requires TriangulationOf(r1, gNodes, ss1) && TriangulationOf(r2, gNodes, ss2)
    requires forall x :: Occurs(ss1, x) <==> Occurs(ss2, x)
    requires forall x, y :: Adjacent(ss1, x, y) <==> Adjacent(ss2, x, y)
    ensures r1.adj == r2.adj
  {
    assert r1.adj.Keys == r2.adj.Keys;
    forall x | x in r1.adj ensures r1.adj[x] == r2.adj[x] {
      assert forall y :: y in r1.adj[x] <==> y in r2.adj[x] by {
        assert forall y :: y in r1.adj[x] <==> Adjacent(ss1, x, y);
        assert forall y :: y in r2.adj[x] <==> Adjacent(ss2, x, y);
      }
      SameRow(r1, r2, x);
    }
  }

  /** A node with the same neighbours in two triangulated graphs has the same row in both. */
  lemma SameRow(r1: Graph, r2: Graph, x: nat)
    requires x in r1.adj && x in r2.adj
    requires forall y :: y in r1.adj[x] <==> y in r2.adj[x]
    requires forall y :: y in r1.adj[x] ==> r1.adj[x][y] == map["weight" := EDGE_WEIGHT]
    requires forall y :: y in r2.adj[x] ==> r2.adj[x][y] == map["weight" := EDGE_WEIGHT]
    ensures r1.adj[x] == r2.adj[x]
  {
    assert r1.adj[x].Keys == r2.adj[x].Keys;
  }

  /**
   * Listing a triangle a second time does not change the triangulated graph's
   * adjacency, nor, when every corner is a node of G, the graph itself.
   */
  lemma RepeatedSimplex(gNodes: seq<nat>, ss: seq<Simplex>, k: nat)
    requires k < |ss|
    ensures Triangulate(gNodes, ss + [ss[k]]).adj == Triangulate(gNodes, ss).adj
    ensures CornersIn(ss, gNodes) ==> Triangulate(gNodes, ss + [ss[k]]) == Triangulate(gNodes, ss)
  {
    var ss2 := ss + [ss[k]];
    forall x, y ensures Adjacent(ss2, x, y) <==> Adjacent(ss, x, y) {
      if Adjacent(ss, x, y) {
        var i :| 0 <= i < |ss| && Joins(ss[i], x, y);
        assert ss2[i] == ss[i];
      }
      if Adjacent(ss2, x, y) {
        var i :| 0 <= i < |ss2| && Joins(ss2[i], x, y);
        if i < |ss| { assert ss2[i] == ss[i]; } else { assert ss2[i] == ss[k]; }
      }
    }
    if CornersIn(ss, gNodes) {
      forall i | 0 <= i < |ss2| ensures ss2[i].0 in gNodes && ss2[i].1 in gNodes && ss2[i].2 in gNodes {
        if i < |ss| { assert ss2[i] == ss[i]; } else { assert ss2[i] == ss[k]; }
      }
    }
    TriangulateBySides(gNodes, ss2, ss);
  }

  /**
   * Listing the same triangles in any order (a permutation of the list) does
   * not change the triangulated graph's adjacency, nor, when every corner is a
   * node of G, the graph itself.
   */
  lemma SimplexOrder(gNodes: seq<nat>, ss1: seq<Simplex>, ss2: seq<Simplex>)
    requires multiset(ss1) == multiset(ss2)
    ensures Triangulate(gNodes, ss1).adj == Triangulate(gNodes, ss2).adj
    ensures CornersIn(ss1, gNodes) ==> Triangulate(gNodes, ss1) == Triangulate(gNodes, ss2)
  {
    forall x, y ensures Adjacent(ss1, x, y) <==> Adjacent(ss2, x, y) {
      if Adjacent(ss1, x, y) {
        var i :| 0 <= i < |ss1| && Joins(ss1[i], x, y);
        SameElements(ss1, ss2, i);
        var j :| 0 <= j < |ss2| && ss2[j] == ss1[i];
        assert Joins(ss2[j], x, y);
      }
      if Adjacent(ss2, x, y) {
        var i :| 0 <= i < |ss2| && Joins(ss2[i], x, y);
        SameElements(ss2, ss1, i);
        var j :| 0 <= j < |ss1| && ss1[j] == ss2[i];
        assert Joins(ss1[j], x, y);
      }
    }
    if CornersIn(ss1, gNodes) {
      forall i | 0 <= i < |ss2| ensures ss2[i].0 in gNodes && ss2[i].1 in gNodes && ss2[i].2 in gNodes {
        SameElements(ss2, ss1, i);
        var j :| 0 <= j < |ss1| && ss1[j] == ss2[i];
      }
    }
    TriangulateBySides(gNodes, ss1, ss2);
  }

  /** An element of a list occurs, at some position, in any permutation of it. */
  lemma SameElements(a: seq<Simplex>, b: seq<Simplex>, i: nat)
    requires multiset(a) == multiset(b) && i < |a|
    ensures exists j :: 0 <= j < |b| && b[j] == a[i]
  {
    assert a[i] in multiset(a);
    assert a[i] in b;
  }

  /** When every triangle has three different corners, no node is its own neighbour. */
  lemma NoSelfLoops(gNodes: seq<nat>, ss: seq<Simplex>)
    requires forall i :: 0 <= i < |ss| ==> ss[i].0 != ss[i].1 && ss[i].0 != ss[i].2 && ss[i].1 != ss[i].2
    ensures forall x :: x in Triangulate(gNodes, ss).adj ==> x !in Triangulate(gNodes, ss).adj[x]
  {
    forall x ensures !Adjacent(ss, x, x) {
      assert forall i :: 0 <= i < |ss| ==> !Joins(ss[i], x, x);
    }
  }

  /** A node has a neighbour in the triangulated graph exactly when it is a corner of some triangle. */
  lemma HasNeighborIffCorner(r: Graph, gNodes: seq<nat>, ss: seq<Simplex>, x: nat)
    requires TriangulationOf(r, gNodes, ss) && x in r.adj
    ensures Neighbors(r, x) != {} <==> Occurs(ss, x)
  {
    if Occurs(ss, x) {
      var i :| 0 <= i < |ss| && Corner(ss[i], x);
      var t := ss[i];
      var y := if t.0 == x then t.1 else t.0;
      assert Joins(t, x, y);
      assert y in Neighbors(r, x);
    }
    if Neighbors(r, x) != {} {
      var y :| y in Neighbors(r, x);
      assert Adjacent(ss, x, y);
      var i :| 0 <= i < |ss| && Joins(ss[i], x, y);
      assert Corner(ss[i], x);
    }
  }

  /** The loop over `delaunay.simplices` that fills `weighted_edges`, three sides per triangle. */
  method CollectEdges(simplices: seq<Simplex>) returns (weightedEdges: seq<WeightedEdge>)
    ensures weightedEdges == TriangleEdges(simplices)
    ensures forall x, y :: LinkedBy(weightedEdges, x, y) <==> Adjacent(simplices, x, y)
  {
    weightedEdges := [];
    for i := 0 to |simplices|
      invariant weightedEdges == TriangleEdges(simplices[..i])
    {
      var n := simplices[i];
      weightedEdges := weightedEdges + [(n.0, n.1, EDGE_WEIGHT)];
      weightedEdges := weightedEdges + [(n.0, n.2, EDGE_WEIGHT)];
      weightedEdges := weightedEdges + [(n.1, n.2, EDGE_WEIGHT)];
      assert simplices[..i + 1][..i] == simplices[..i];
    }
    assert simplices[..|simplices|] == simplices;
    TriangleEdgesJoin(simplices);
  }

  /**
   * `delaunay_triangulation(G, coordinates)` once the triangles are known: a
   * new graph gets G's nodes, the three sides of every triangle are collected
   * in `weighted_edges`, and they are then added all at once.
   */
  method DelaunayTriangulation(g: NxGraph, simplices: seq<Simplex>) returns (s: NxGraph)
    ensures fresh(s) && s.Valid()
    ensures s.Value() == Triangulate(g.nodes, simplices)
  {
    s := new NxGraph();
    s.AddNodesFrom(g.nodes);
    var weightedEdges := CollectEdges(simplices);
    s.AddWeightedEdgesFrom(weightedEdges);
  }
}
