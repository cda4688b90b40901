/**
 * `get_average_degree(G)`: the degrees of G's nodes added up in a loop and
 * divided by the number of nodes, which for an undirected graph is twice the
 * number of edges over the number of nodes.
 */
module AverageDegree {
  import opened NxGraphs
  import SetFacts

  /** `G.degree[v]`: the number of v's neighbours, a self-loop counting twice. */
  function Degree(g: Graph, v: nat): (r: nat)
    requires v in g.adj
    ensures r == |Neighbors(g, v) - {v}| + if v in Neighbors(g, v) then 2 else 0
    ensures r == 0 <==> Neighbors(g, v) == {}
  {
    LoopSplit(Neighbors(g, v), v);
    |Neighbors(g, v)| + if v in g.adj[v] then 1 else 0
  }

  /** A neighbour set is its members other than v, plus v itself when v is its own neighbour. */
  lemma LoopSplit(n: set<nat>, v: nat)
    ensures |n| == |n - {v}| + if v in n then 1 else 0
  {
    if v in n {
      assert n == (n - {v}) + {v};
    } else {
      assert n == n - {v};
    }
  }

  /** The running total `s` after the nodes `vs`. */
  function DegreeSum(g: Graph, vs: seq<nat>): (r: nat)
    requires forall v :: v in vs ==> v in g.adj
    ensures r == 0 <==> forall v :: v in vs ==> Neighbors(g, v) == {}
    decreases |vs|
  {
    if vs == [] then 0
    else
      var p := vs[..|vs| - 1];
      assert forall v :: v in p ==> v in vs;
      DegreeSum(g, p) + Degree(g, vs[|vs| - 1])
  }

  /** The edges of g, each undirected edge once, as (smaller end, larger end); a self-loop as (v, v). */
  function Edges(g: Graph): set<(nat, nat)> {
    set u, v | u in g.adj && v in g.adj[u] && u <= v :: (u, v)
  }

  /** Ordered pairs (u, v) with u among `vs` and v a neighbour of u. */
  function Darts(g: Graph, vs: seq<nat>): set<(nat, nat)> {
    set u, v | u in vs && u in g.adj && v in g.adj[u] :: (u, v)
  }

  /** The nodes among `vs` that are their own neighbour. */
  function Loops(g: Graph, vs: seq<nat>): set<nat> {
    set v | v in vs && v in g.adj && v in g.adj[v]
  }

  /** Neighbour pairs going from a smaller node to a larger one. */
  function Up(g: Graph): set<(nat, nat)> {
    set u, v | u in g.adj && v in g.adj[u] && u < v :: (u, v)
  }

  /** Neighbour pairs going from a larger node to a smaller one. */
  function Down(g: Graph): set<(nat, nat)> {
    set u, v | u in g.adj && v in g.adj[u] && u > v :: (u, v)
  }

  /** Self-loops, as pairs. */
  function Diag(g: Graph): set<(nat, nat)> {
    set v | v in g.adj && v in g.adj[v] :: (v, v)
  }

  function Swap(ps: set<(nat, nat)>): set<(nat, nat)> {
    set p | p in ps :: (p.1, p.0)
  }

  /** The pairs (x, v) for v in s. */
  function Row(x: nat, s: set<nat>): set<(nat, nat)> {
    set v | v in s :: (x, v)
  }

  /** The pairs (v, v) for v in s. */
  function Twins(s: set<nat>): set<(nat, nat)> {
    set v | v in s :: (v, v)
  }

  lemma RowSize(x: nat, s: set<nat>)
    ensures |Row(x, s)| == |s|
  {
    if s != {} {
      var y :| y in s;
      RowSize(x, s - {y});
      assert Row(x, s) == Row(x, s - {y}) + {(x, y)};
    }
  }

  lemma TwinsSize(s: set<nat>)
    ensures |Twins(s)| == |s|
  {
    if s != {} {
      var y :| y in s;
      TwinsSize(s - {y});
      assert Twins(s) == Twins(s - {y}) + {(y, y)};
    }
  }

  lemma SwapSize(ps: set<(nat, nat)>)
    ensures |Swap(ps)| == |ps|
  {
    if ps != {} {
      var q :| q in ps;
      SwapSize(ps - {q});
      assert Swap(ps) == Swap(ps - {q}) + {(q.1, q.0)};
      assert (q.1, q.0) !in Swap(ps - {q});
    }
  }

  /** Over distinct nodes, the degree sum counts each neighbour pair once and each self-loop once more. */
  lemma {:induction false} DegreeSumCounts(g: Graph, vs: seq<nat>)
    requires Distinct(vs)
    requires forall v :: v in vs ==> v in g.adj
    ensures DegreeSum(g, vs) == |Darts(g, vs)| + |Loops(g, vs)|
    decreases |vs|
  {
    if vs == [] {
      assert Darts(g, vs) == {};
      assert Loops(g, vs) == {};
    } else {
      var p, x := vs[..|vs| - 1], vs[|vs| - 1];
      assert vs == p + [x];
      assert forall v :: v in p ==> v in vs;
      assert Distinct(p);
      DegreeSumCounts(g, p);
      DartsSnoc(g, p, x);
      LoopsSnoc(g, p, x);
    }
  }

  lemma DartsSnoc(g: Graph, p: seq<nat>, x: nat)
    requires x in g.adj && x !in p
    ensures |Darts(g, p + [x])| == |Darts(g, p)| + |Neighbors(g, x)|
  {
    var row := Row(x, g.adj[x].Keys);
    RowSize(x, g.adj[x].Keys);
    assert Darts(g, p + [x]) == Darts(g, p) + row;
    assert Darts(g, p) * row == {};
  }

  lemma LoopsSnoc(g: Graph, p: seq<nat>, x: nat)
    requires x in g.adj && x !in p
    ensures |Loops(g, p + [x])| == |Loops(g, p)| + if x in g.adj[x] then 1 else 0
  {
    var self := if x in g.adj[x] then {x} else {};
    assert Loops(g, p + [x]) == Loops(g, p) + self;
    assert Loops(g, p) * self == {};
  }

  /** Every neighbour pair goes up, goes down or is a self-loop. */
  lemma DartsSplit(g: Graph)
    requires IsGraph(g)
    ensures Darts(g, g.nodes) == Up(g) + Down(g) + Diag(g)
    ensures Up(g) * Down(g) == {} && (Up(g) + Down(g)) * Diag(g) == {}
  {
    forall q | q in Darts(g, g.nodes) ensures q in Up(g) + Down(g) + Diag(g) {
      var u, v := q.0, q.1;
      if u < v { assert q in Up(g); } else if u > v { assert q in Down(g); } else { assert q in Diag(g); }
    }
  }

  /** By symmetry, the pairs going down are the pairs going up, reversed. */
  lemma DownIsSwap(g: Graph)
    requires IsGraph(g)
    ensures Down(g) == Swap(Up(g))
  {
    forall q | q in Down(g) ensures q in Swap(Up(g)) {
      assert (q.1, q.0) in Up(g);
    }
    forall q | q in Swap(Up(g)) ensures q in Down(g) {
      var r :| r in Up(g) && q == (r.1, r.0);
    }
  }

  /** An edge either joins two different nodes, smaller end first, or is a self-loop. */
  lemma EdgesSplit(g: Graph)
    ensures Edges(g) == Up(g) + Diag(g) && Up(g) * Diag(g) == {}
  {
    forall q | q in Edges(g) ensures q in Up(g) + Diag(g) {
      if q.0 < q.1 { assert q in Up(g); } else { assert q in Diag(g); }
    }
  }

  /** There are as many self-loop pairs as nodes that are their own neighbour. */
  lemma DiagSize(g: Graph)
    requires IsGraph(g)
    ensures |Diag(g)| == |Loops(g, g.nodes)|
  {
    TwinsSize(Loops(g, g.nodes));
    assert Diag(g) == Twins(Loops(g, g.nodes));
  }

  /**
   * The handshake identity: in an undirected graph the degrees add up to twice
   * the number of edges (a self-loop adds two to its node's degree).
   */
  lemma Handshake(g: Graph)
    requires IsGraph(g)
    ensures DegreeSum(g, g.nodes) == 2 * |Edges(g)|
  {
    DegreeSumCounts(g, g.nodes);
    DartsSplit(g);
    DownIsSwap(g);
    SwapSize(Up(g));
    EdgesSplit(g);
    DiagSize(g);
  }

  /**
   * `get_average_degree(G)`: adds up `G.degree[n]` over G's nodes and divides
   * by their number, which is twice the edge count over the node count.
   */
  method GetAverageDegree(g: NxGraph) returns (r: real)
    requires g.Valid() && |g.nodes| > 0
    ensures r == DegreeSum(g.Value(), g.nodes) as real / |g.nodes| as real
    ensures r == (2 * |Edges(g.Value())|) as real / |g.nodes| as real
  {
    var s := 0;
    for i := 0 to |g.nodes|
      invariant s == DegreeSum(g.Value(), g.nodes[..i])
    {
      var n := g.nodes[i];
      assert g.nodes[..i + 1][..i] == g.nodes[..i];
      s := s + |g.adj[n].Keys| + if n in g.adj[n] then 1 else 0;
    }
    assert g.nodes[..|g.nodes|] == g.nodes;
    r := s as real / |g.nodes| as real;
    Handshake(g.Value());
  }
}
