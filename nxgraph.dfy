/**
 * The part of networkx's undirected `Graph` that the scoring script relies on:
 * the node dictionary (whose key order is the order in which `G.nodes` is
 * iterated), the adjacency dictionary, and the attribute dictionary of each
 * edge, which the two directions of an edge share.
 *
 * `Graph` is a snapshot of such a graph as a value; the functions `WithNode`,
 * `WithNodes`, `WithEdge` and `WithEdges` say what `add_nodes_from` and
 * `add_weighted_edges_from` do to it; the class `NxGraph` is the mutable
 * object itself, whose methods are proved against those functions.
 */
module NxGraphs {

  /** The attribute dictionary of one edge, such as {"weight": 30}. */
  type EdgeData = map<string, int>

  /** An edge as `add_weighted_edges_from` takes it: (u, v, weight). */
  type WeightedEdge = (nat, nat, int)

  /** Nodes in insertion order and, per node, its neighbours with the data of the joining edge. */
  datatype Graph = Graph(nodes: seq<nat>, adj: map<nat, map<nat, EdgeData>>)

  /** The graph `nx.Graph()` makes. */
  const Empty: Graph := Graph([], map[])

  predicate Distinct(s: seq<nat>) {
    forall i, j :: 0 <= i < j < |s| ==> s[i] != s[j]
  }

  /**
   * What networkx keeps true of every undirected Graph: each node listed once,
   * the node list and the adjacency dictionary have the same keys, and an edge
   * seen from either end is the same edge with the same data.
   */
  ghost predicate IsGraph(g: Graph) {
    && Distinct(g.nodes)
    && (forall n :: n in g.adj <==> n in g.nodes)
    && (forall u, v :: u in g.adj && v in g.adj[u] ==>
          v in g.adj && u in g.adj[v] && g.adj[v][u] == g.adj[u][v])
  }

  /** `G.neighbors(v)`, as a set. */
  function Neighbors(g: Graph, v: nat): set<nat>
    requires v in g.adj
  {
    g.adj[v].Keys
  }

  /** The data of edge {u, v}, or the empty dictionary if there is no such edge. */
  function Data(g: Graph, u: nat, v: nat): EdgeData {
    if u in g.adj && v in g.adj[u] then g.adj[u][v] else map[]
  }

  /** {a, b} is {x, y}. */
  predicate SamePair(a: nat, b: nat, x: nat, y: nat) {
    (a == x && b == y) || (a == y && b == x)
  }

  /** Edge `e` joins x and y (in either direction). */
  predicate Links(e: WeightedEdge, x: nat, y: nat) {
    SamePair(e.0, e.1, x, y)
  }

  /** Some edge of `es` joins x and y. */
  predicate LinkedBy(es: seq<WeightedEdge>, x: nat, y: nat) {
    exists i :: 0 <= i < |es| && Links(es[i], x, y)
  }

  /** x is an end of some edge of `es`. */
  predicate EndOf(es: seq<WeightedEdge>, x: nat) {
    exists i :: 0 <= i < |es| && (es[i].0 == x || es[i].1 == x)
  }

  /** `add_node(n)`: a node that is new is appended with no neighbours; a known node changes nothing. */
  function WithNode(g: Graph, n: nat): (r: Graph)
    ensures forall x :: x in r.adj <==> x in g.adj || x == n
    ensures forall x :: x in g.adj ==> r.adj[x] == g.adj[x]
  {
    if n in g.adj then g else Graph(g.nodes + [n], g.adj[n := map[]])
  }

  /** `add_nodes_from(ns)`: `add_node` for each element of `ns`, in order. */
  function WithNodes(g: Graph, ns: seq<nat>): (r: Graph)
    ensures forall x :: x in r.adj <==> x in g.adj || x in ns
    decreases |ns|
  {
    if ns == [] then g
    else
      var p := ns[..|ns| - 1];
      assert ns == p + [ns[|ns| - 1]];
      WithNode(WithNodes(g, p), ns[|ns| - 1])
  }

  /**
   * `add_edge(u, v, weight=w)`: adds u and then v as nodes if they are new, then
   * updates the (possibly fresh) data dictionary of {u, v} with "weight": w and
   * stores that one dictionary under both directions.
   */
  function WithEdge(g: Graph, e: WeightedEdge): (r: Graph)
    ensures forall x :: x in r.adj <==> x in g.adj || x == e.0 || x == e.1
  {
    var g1 := WithNode(WithNode(g, e.0), e.1);
    var (u, v) := (e.0, e.1);
    var d := Data(g1, u, v)["weight" := e.2];
    var rowU: map<nat, EdgeData> := g1.adj[u][v := d];
    var adj1 := g1.adj[u := rowU];
    var rowV: map<nat, EdgeData> := adj1[v][u := d];
    Graph(g1.nodes, adj1[v := rowV])
  }

  /** `add_weighted_edges_from(es)`: `add_edge` for each element of `es`, in order. */
  function WithEdges(g: Graph, es: seq<WeightedEdge>): (r: Graph)
    ensures forall x :: x in r.adj <==> x in g.adj || EndOf(es, x)
    decreases |es|
  {
    if es == [] then g
    else
      var p, e := es[..|es| - 1], es[|es| - 1];
      assert es == p + [e];
      EndOfSnoc(p, e);
      WithEdge(WithEdges(g, p), e)
  }

  /** The ends of `es + [e]` are those of `es` and the two ends of e. */
  lemma EndOfSnoc(es: seq<WeightedEdge>, e: WeightedEdge)
    ensures forall x :: EndOf(es + [e], x) <==> EndOf(es, x) || x == e.0 || x == e.1
  {
    forall x ensures EndOf(es + [e], x) <==> EndOf(es, x) || x == e.0 || x == e.1 {
      LinkedBySnoc(es, e, x, x);
    }
  }

  lemma WithNodeFacts(g: Graph, n: nat)
    requires IsGraph(g)
    ensures IsGraph(WithNode(g, n))
    ensures n in g.adj ==> WithNode(g, n) == g
    ensures n !in g.adj ==> WithNode(g, n).nodes == g.nodes + [n] && WithNode(g, n).adj[n] == map[]
  {
  }

  /**
   * Adding nodes keeps a graph a graph, adds exactly the listed nodes, gives
   * the new ones no neighbours and touches no existing adjacency.
   */
  lemma {:induction false} WithNodesFacts(g: Graph, ns: seq<nat>)
    requires IsGraph(g)
    ensures IsGraph(WithNodes(g, ns))
    ensures forall x :: x in WithNodes(g, ns).adj <==> x in g.adj || x in ns
    ensures forall x :: x in WithNodes(g, ns).adj ==>
              WithNodes(g, ns).adj[x] == if x in g.adj then g.adj[x] else map[]
    decreases |ns|
  {
    if ns != [] {
      var p, n := ns[..|ns| - 1], ns[|ns| - 1];
      assert ns == p + [n];
      WithNodesFacts(g, p);
      WithNodeFacts(WithNodes(g, p), n);
    }
  }

  /** Dropping the last element of a sequence without repeats leaves one without repeats that lacks that element. */
  lemma DistinctInit(ns: seq<nat>)
    requires Distinct(ns) && ns != []
    ensures Distinct(ns[..|ns| - 1]) && ns[|ns| - 1] !in ns[..|ns| - 1]
  {
  }

  /** New, distinct nodes are appended in the order given. */
  lemma {:induction false} WithNodesAppends(g: Graph, ns: seq<nat>)
    requires Distinct(ns)
    requires forall x :: x in ns ==> x !in g.adj
    ensures WithNodes(g, ns).nodes == g.nodes + ns
    decreases |ns|
  {
    if ns != [] {
      var p, n := ns[..|ns| - 1], ns[|ns| - 1];
      assert ns == p + [n];
      DistinctInit(ns);
      assert forall x :: x in p ==> x in ns;
      WithNodesAppends(g, p);
      WithNodesSnoc(g, p, n);
      assert (g.nodes + p) + [n] == g.nodes + ns;
    }
  }

  /** A node that is neither in g nor among `p` is appended by `add_node` after `p`. */
  lemma WithNodesSnoc(g: Graph, p: seq<nat>, n: nat)
    requires n !in g.adj && n !in p
    ensures WithNodes(g, p + [n]).nodes == WithNodes(g, p).nodes + [n]
  {
    assert (p + [n])[..|p|] == p;
    assert n !in WithNodes(g, p).adj;
  }

  /** Adding nodes the graph already has changes nothing. */
  lemma {:induction false} WithNodesKnown(g: Graph, ns: seq<nat>)
    requires forall x :: x in ns ==> x in g.adj
    ensures WithNodes(g, ns) == g
    decreases |ns|
  {
    if ns != [] {
      var p := ns[..|ns| - 1];
      assert forall x :: x in p ==> x in ns;
      WithNodesKnown(g, p);
    }
  }

  /** The row of node x once edge e with data d is stored under both directions. */
  function RowAfter(row: map<nat, EdgeData>, x: nat, e: WeightedEdge, d: EdgeData): map<nat, EdgeData> {
    if x == e.0 && x == e.1 then row[x := d]
    else if x == e.0 then row[e.1 := d]
    else if x == e.1 then row[e.0 := d]
    else row
  }

  /** Adding an edge adds its ends as nodes, and leaves rows of other nodes untouched. */
  lemma WithEdgeRows(g: Graph, e: WeightedEdge)
    ensures forall x :: x in WithEdge(g, e).adj <==> x in g.adj || x == e.0 || x == e.1
    ensures forall x :: x in WithEdge(g, e).adj ==> x in WithNode(WithNode(g, e.0), e.1).adj
    ensures forall x :: x in WithEdge(g, e).adj ==>
              WithEdge(g, e).adj[x] ==
                RowAfter(WithNode(WithNode(g, e.0), e.1).adj[x], x, e, Data(g, e.0, e.1)["weight" := e.2])
    ensures e.0 in g.adj && e.1 in g.adj ==> WithEdge(g, e).nodes == g.nodes
  {
    var g1 := WithNode(WithNode(g, e.0), e.1);
    var (u, v) := (e.0, e.1);
    assert Data(g1, u, v) == Data(g, u, v);
    var d := Data(g, u, v)["weight" := e.2];
    var rowU: map<nat, EdgeData> := g1.adj[u][v := d];
    var adj1 := g1.adj[u := rowU];
    var rowV: map<nat, EdgeData> := adj1[v][u := d];
    var r := WithEdge(g, e);
    assert r == Graph(g1.nodes, adj1[v := rowV]);
    forall x | x in r.adj ensures r.adj[x] == RowAfter(g1.adj[x], x, e, d) {
      if x == v {
        assert r.adj[x] == rowV;
      } else if x == u {
        assert r.adj[x] == rowU;
      } else {
        assert r.adj[x] == g1.adj[x];
      }
    }
  }

  /** The row `RowAfter` gives x holds the old neighbours and the ends e joins to x, the latter with data d. */
  lemma RowAfterFacts(row: map<nat, EdgeData>, x: nat, e: WeightedEdge, d: EdgeData)
    ensures forall y :: y in RowAfter(row, x, e, d) <==> y in row || Links(e, x, y)
    ensures forall y :: y in RowAfter(row, x, e, d) && !Links(e, x, y) ==> RowAfter(row, x, e, d)[y] == row[y]
    ensures forall y :: Links(e, x, y) ==> RowAfter(row, x, e, d)[y] == d
  {
  }

  /** Adding one edge joins exactly its two ends, and sets "weight" in the data of that edge alone. */
  lemma WithEdgeAdjacency(g: Graph, e: WeightedEdge)
    ensures forall x, y :: x in WithEdge(g, e).adj ==>
              (y in WithEdge(g, e).adj[x] <==> (x in g.adj && y in g.adj[x]) || Links(e, x, y))
    ensures forall x, y :: x in WithEdge(g, e).adj && y in WithEdge(g, e).adj[x] ==>
              WithEdge(g, e).adj[x][y] == if Links(e, x, y) then Data(g, e.0, e.1)["weight" := e.2] else Data(g, x, y)
  {
    var r := WithEdge(g, e);
    var g1 := WithNode(WithNode(g, e.0), e.1);
    var d := Data(g, e.0, e.1)["weight" := e.2];
    WithEdgeRows(g, e);
    forall x | x in r.adj
      ensures forall y :: y in r.adj[x] <==> (x in g.adj && y in g.adj[x]) || Links(e, x, y)
      ensures forall y :: y in r.adj[x] ==> r.adj[x][y] == if Links(e, x, y) then d else Data(g, x, y)
    {
      var row := if x in g.adj then g.adj[x] else map[];
      assert g1.adj[x] == row;
      assert r.adj[x] == RowAfter(row, x, e, d);
      RowAfterFacts(row, x, e, d);
      assert forall y :: y in row ==> Data(g, x, y) == row[y];
    }
  }

  /** The data an added edge gets is the same seen from either end. */
  lemma WithEdgeSymmetric(g: Graph, e: WeightedEdge)
    requires IsGraph(g)
    ensures forall x, y :: x in WithEdge(g, e).adj && y in WithEdge(g, e).adj[x] ==>
              y in WithEdge(g, e).adj && x in WithEdge(g, e).adj[y] && WithEdge(g, e).adj[y][x] == WithEdge(g, e).adj[x][y]
  {
    var r := WithEdge(g, e);
    WithEdgeRows(g, e);
    WithEdgeAdjacency(g, e);
    forall x, y | x in r.adj && y in r.adj[x]
      ensures y in r.adj && x in r.adj[y] && r.adj[y][x] == r.adj[x][y]
    {
      if Links(e, x, y) {
        assert Links(e, y, x);
        assert y == e.0 || y == e.1;
      } else {
        assert x in g.adj && y in g.adj[x];
        assert y in g.adj && x in g.adj[y];
        assert !Links(e, y, x);
        assert Data(g, x, y) == Data(g, y, x);
      }
    }
  }

  /**
   * Adding one edge keeps a graph a graph, adds its two ends as nodes, joins
   * exactly them, and sets "weight" in the data of that edge alone.
   */
  lemma WithEdgeFacts(g: Graph, e: WeightedEdge)
    requires IsGraph(g)
    ensures IsGraph(WithEdge(g, e))
    ensures forall x :: x in WithEdge(g, e).adj <==> x in g.adj || x == e.0 || x == e.1
    ensures forall x, y :: x in WithEdge(g, e).adj ==>
              (y in WithEdge(g, e).adj[x] <==> (x in g.adj && y in g.adj[x]) || Links(e, x, y))
    ensures e.0 in g.adj && e.1 in g.adj ==> WithEdge(g, e).nodes == g.nodes
  {
    var r := WithEdge(g, e);
    var g1 := WithNode(WithNode(g, e.0), e.1);
    WithNodeFacts(g, e.0);
    WithNodeFacts(WithNode(g, e.0), e.1);
    WithEdgeRows(g, e);
    WithEdgeAdjacency(g, e);
    WithEdgeSymmetric(g, e);
    assert r.nodes == g1.nodes;
    assert Distinct(r.nodes);
    assert forall n :: n in r.adj <==> n in r.nodes;
  }

  /** Adding edge e sets "weight" in the data of e alone. */
  lemma WithEdgeData(g: Graph, e: WeightedEdge)
    requires IsGraph(g)
    ensures forall x, y :: Data(WithEdge(g, e), x, y) ==
              if Links(e, x, y) then Data(g, x, y)["weight" := e.2] else Data(g, x, y)
  {
    var r := WithEdge(g, e);
    WithEdgeAdjacency(g, e);
    assert Data(g, e.0, e.1) == Data(g, e.1, e.0);
    forall x, y
      ensures Data(r, x, y) == if Links(e, x, y) then Data(g, x, y)["weight" := e.2] else Data(g, x, y)
    {
      PairData(g, r, e, x, y);
    }
  }

  /** `WithEdgeData` for one pair x, y, from the facts about the new rows that concern it. */
  lemma PairData(g: Graph, r: Graph, e: WeightedEdge, x: nat, y: nat)
    requires Data(g, e.0, e.1) == Data(g, e.1, e.0)
    requires x in r.adj <==> x in g.adj || x == e.0 || x == e.1
    requires x in r.adj ==> (y in r.adj[x] <==> (x in g.adj && y in g.adj[x]) || Links(e, x, y))
    requires x in r.adj && y in r.adj[x] ==>
               r.adj[x][y] == if Links(e, x, y) then Data(g, e.0, e.1)["weight" := e.2] else Data(g, x, y)
    ensures Data(r, x, y) == if Links(e, x, y) then Data(g, x, y)["weight" := e.2] else Data(g, x, y)
  {
    if Links(e, x, y) {
      assert Data(g, x, y) == Data(g, e.0, e.1);
    }
  }

  /** From `es + [e]`, the edges joining x and y are those of `es` and possibly `e`. */
  lemma LinkedBySnoc(es: seq<WeightedEdge>, e: WeightedEdge, x: nat, y: nat)
    ensures LinkedBy(es + [e], x, y) <==> LinkedBy(es, x, y) || Links(e, x, y)
    ensures EndOf(es + [e], x) <==> EndOf(es, x) || x == e.0 || x == e.1
  {
    var t := es + [e];
    if LinkedBy(es, x, y) {
      var i :| 0 <= i < |es| && Links(es[i], x, y);
      assert t[i] == es[i];
    }
    if Links(e, x, y) {
      assert t[|es|] == e;
    }
    if LinkedBy(t, x, y) {
      var i :| 0 <= i < |t| && Links(t[i], x, y);
      if i < |es| { assert t[i] == es[i]; }
    }
    if EndOf(es, x) {
      var i :| 0 <= i < |es| && (es[i].0 == x || es[i].1 == x);
      assert t[i] == es[i];
    }
    if x == e.0 || x == e.1 {
      assert t[|es|] == e;
    }
    if EndOf(t, x) {
      var i :| 0 <= i < |t| && (t[i].0 == x || t[i].1 == x);
      if i < |es| { assert t[i] == es[i]; }
    }
  }

  /** The edges of `a + b` joining x and y are those of a and those of b. */
  lemma LinkedByAppend(a: seq<WeightedEdge>, b: seq<WeightedEdge>)
    ensures forall x, y :: LinkedBy(a + b, x, y) <==> LinkedBy(a, x, y) || LinkedBy(b, x, y)
    ensures forall x :: EndOf(a + b, x) <==> EndOf(a, x) || EndOf(b, x)
  {
    var t := a + b;
    forall x, y
      ensures LinkedBy(t, x, y) <==> LinkedBy(a, x, y) || LinkedBy(b, x, y)
    {
      if LinkedBy(a, x, y) {
        var i :| 0 <= i < |a| && Links(a[i], x, y);
        assert t[i] == a[i];
      }
      if LinkedBy(b, x, y) {
        var i :| 0 <= i < |b| && Links(b[i], x, y);
        assert t[|a| + i] == b[i];
      }
      if LinkedBy(t, x, y) {
        var i :| 0 <= i < |t| && Links(t[i], x, y);
        if i < |a| { assert t[i] == a[i]; } else { assert t[i] == b[i - |a|]; }
      }
    }
    forall x
      ensures EndOf(t, x) <==> EndOf(a, x) || EndOf(b, x)
    {
      if EndOf(a, x) {
        var i :| 0 <= i < |a| && (a[i].0 == x || a[i].1 == x);
        assert t[i] == a[i];
      }
      if EndOf(b, x) {
        var i :| 0 <= i < |b| && (b[i].0 == x || b[i].1 == x);
        assert t[|a| + i] == b[i];
      }
      if EndOf(t, x) {
        var i :| 0 <= i < |t| && (t[i].0 == x || t[i].1 == x);
        if i < |a| { assert t[i] == a[i]; } else { assert t[i] == b[i - |a|]; }
      }
    }
  }

  /**
   * Adding a list of edges keeps a graph a graph; its nodes become the old
   * ones and every end of a listed edge; x and y are then adjacent exactly when
   * they were before or some listed edge joins them.
   */
  lemma {:induction false} WithEdgesFacts(g: Graph, es: seq<WeightedEdge>)
    requires IsGraph(g)
    ensures IsGraph(WithEdges(g, es))
    ensures forall x :: x in WithEdges(g, es).adj <==> x in g.adj || EndOf(es, x)
    ensures forall x, y :: x in WithEdges(g, es).adj ==>
              (y in WithEdges(g, es).adj[x] <==> (x in g.adj && y in g.adj[x]) || LinkedBy(es, x, y))
    decreases |es|
  {
    if es != [] {
      var p, e := es[..|es| - 1], es[|es| - 1];
      assert es == p + [e];
      var h := WithEdges(g, p);
      var r := WithEdges(g, es);
      assert r == WithEdge(h, e);
      WithEdgesFacts(g, p);
      WithEdgeFacts(h, e);
      forall x ensures x in r.adj <==> x in g.adj || EndOf(es, x) {
        LinkedBySnoc(p, e, x, x);
      }
      forall x, y | x in r.adj
        ensures y in r.adj[x] <==> (x in g.adj && y in g.adj[x]) || LinkedBy(es, x, y)
      {
        LinkedBySnoc(p, e, x, y);
        assert y in r.adj[x] <==> (x in h.adj && y in h.adj[x]) || Links(e, x, y);
      }
    }
  }

  /**
   * When every listed edge has weight w, the data of each edge they join is its
   * old data (none, for a new edge) with "weight" set to w; other edges keep theirs.
   */
  lemma {:induction false} WithEdgesData(g: Graph, es: seq<WeightedEdge>, w: int)
    requires IsGraph(g)
    requires forall i :: 0 <= i < |es| ==> es[i].2 == w
    ensures forall x, y :: Data(WithEdges(g, es), x, y) ==
              if LinkedBy(es, x, y) then Data(g, x, y)["weight" := w] else Data(g, x, y)
    decreases |es|
  {
    if es != [] {
      var p, e := es[..|es| - 1], es[|es| - 1];
      assert es == p + [e];
      var h := WithEdges(g, p);
      var r := WithEdges(g, es);
      assert r == WithEdge(h, e);
      WithEdgesData(g, p, w);
      WithEdgesGraph(g, p);
      WithEdgeData(h, e);
      forall x, y
        ensures Data(r, x, y) == if LinkedBy(es, x, y) then Data(g, x, y)["weight" := w] else Data(g, x, y)
      {
        LinkedBySnoc(p, e, x, y);
        ReweightTwice(Data(g, x, y), Data(h, x, y), Data(r, x, y), LinkedBy(p, x, y), Links(e, x, y), w);
      }
    }
  }

  /** Setting "weight" to w once or twice gives the same dictionary. */
  lemma ReweightTwice(d0: EdgeData, d1: EdgeData, d2: EdgeData, first: bool, second: bool, w: int)
    requires d1 == if first then d0["weight" := w] else d0
    requires d2 == if second then d1["weight" := w] else d1
    ensures d2 == if first || second then d0["weight" := w] else d0
  {
    if first && second {
      assert d0["weight" := w]["weight" := w] == d0["weight" := w];
    }
  }

  /** Adding a list of edges keeps a graph a graph. */
  lemma WithEdgesGraph(g: Graph, es: seq<WeightedEdge>)
    requires IsGraph(g)
    ensures IsGraph(WithEdges(g, es))
  {
    WithEdgesFacts(g, es);
  }

  /** Edges between nodes the graph already has add no nodes and keep the node order. */
  lemma {:induction false} WithEdgesKeepNodes(g: Graph, es: seq<WeightedEdge>)
    requires IsGraph(g)
    requires forall i :: 0 <= i < |es| ==> es[i].0 in g.adj && es[i].1 in g.adj
    ensures WithEdges(g, es).nodes == g.nodes
    decreases |es|
  {
    if es != [] {
      var p, e := es[..|es| - 1], es[|es| - 1];
      assert es == p + [e];
      WithEdgesKeepNodes(g, p);
      WithEdgesFacts(g, p);
      WithEdgeFacts(WithEdges(g, p), e);
    }
  }

  /** A networkx `Graph` object, which `add_nodes_from` and `add_weighted_edges_from` update in place. */
  class NxGraph {
    var nodes: seq<nat>
    var adj: map<nat, map<nat, EdgeData>>

    /** The graph's current state as a value. */
    function Value(): Graph
      reads this
    {
      Graph(nodes, adj)
    }

    ghost predicate Valid()
      reads this
    {
      IsGraph(Value())
    }

    /** `nx.Graph()`: a graph with no nodes. */
    constructor ()
      ensures Valid() && Value() == Empty
    {
      nodes, adj := [], map[];
    }

    /** `add_node(n)`: a new node is appended with no neighbours; a known node changes nothing. */
    method AddNode(n: nat)
      requires Valid()
      modifies this
      ensures Valid() && Value() == WithNode(old(Value()), n)
    {
      WithNodeFacts(Value(), n);
      if n !in adj {
        nodes := nodes + [n];
        adj := adj[n := map[]];
      }
    }

    /** `add_nodes_from(ns)`: each node of `ns` not yet in the graph is added with no neighbours. */
    method AddNodesFrom(ns: seq<nat>)
      requires Valid()
      modifies this
      ensures Valid() && Value() == WithNodes(old(Value()), ns)
    {
      var i := 0;
      while i < |ns|
        invariant 0 <= i <= |ns|
        invariant Valid() && Value() == WithNodes(old(Value()), ns[..i])
      {
        ghost var before := Value();
        AddNode(ns[i]);
        assert ns[..i + 1][..i] == ns[..i];
        assert WithNodes(old(Value()), ns[..i + 1]) == WithNode(before, ns[i]);
        i := i + 1;
      }
      assert ns[..|ns|] == ns;
    }

    /**
     * `add_edge(u, v, weight=w)`: adds u and v if they are new and sets
     * "weight" to w in the data shared by both directions of {u, v}.
     */
    method AddEdge(e: WeightedEdge)
      requires Valid()
      modifies this
      ensures Valid() && Value() == WithEdge(old(Value()), e)
    {
      WithEdgeFacts(Value(), e);
      ghost var before := Value();
      var u, v, w := e.0, e.1, e.2;
      AddNode(u);
      AddNode(v);
      var d := (if v in adj[u] then adj[u][v] else map[])["weight" := w];
      var rowU: map<nat, EdgeData> := adj[u][v := d];
      adj := adj[u := rowU];
      var rowV: map<nat, EdgeData> := adj[v][u := d];
      adj := adj[v := rowV];
      assert Value() == WithEdge(before, e);
    }

    /** `add_weighted_edges_from(es)`: `add_edge` for each (u, v, w) of `es`, in order. */
    method AddWeightedEdgesFrom(es: seq<WeightedEdge>)
      requires Valid()
      modifies this
      ensures Valid() && Value() == WithEdges(old(Value()), es)
    {
      var i := 0;
      while i < |es|
        invariant 0 <= i <= |es|
        invariant Valid() && Value() == WithEdges(old(Value()), es[..i])
      {
        ghost var before := Value();
        AddEdge(es[i]);
        assert es[..i + 1][..i] == es[..i];
        assert WithEdges(old(Value()), es[..i + 1]) == WithEdge(before, es[i]);
        i := i + 1;
      }
      assert es[..|es|] == es;
    }
  }
}
