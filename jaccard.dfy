/**
 * `jaccard_similarity_sum(G, S)`: for every node of G, the Jaccard index of
 * its neighbour sets in G and in S, averaged over G's nodes. Python's float
 * division is modelled by exact division on `real`.
 */
module JaccardScore {
  import opened NxGraphs
  import SetFacts

  /**
   * |a ∩ b| / |a ∪ b| for two neighbour sets, not both empty: a number in
   * [0, 1] that is 1 exactly when the sets are equal and 0 exactly when they
   * are disjoint.
   */
  function JaccardIndex(a: set<nat>, b: set<nat>): (r: real)
    requires a + b != {}
    ensures 0.0 <= r <= 1.0
    ensures r == 1.0 <==> a == b
    ensures r == 0.0 <==> a * b == {}
  {
    SetFacts.MeetAndJoin(a, b);
    Ratio(|a * b|, |a + b|);
    |a * b| as real / |a + b| as real
  }

  /** m / n for 0 <= m <= n and n > 0 lies in [0, 1], is 1 exactly when m == n and 0 exactly when m == 0. */
  lemma Ratio(m: nat, n: nat)
    requires 0 < n && m <= n
    ensures 0.0 <= m as real / n as real <= 1.0
    ensures m as real / n as real == 1.0 <==> m == n
    ensures m as real / n as real == 0.0 <==> m == 0
  {
    var q := m as real / n as real;
    assert q * n as real == m as real;
  }

  /**
   * Every node of `vs` is a node of both graphs and has a neighbour in at
   * least one of them, so that its Jaccard index is defined.
   */
  ghost predicate Scorable(g: Graph, s: Graph, vs: seq<nat>) {
    forall v :: v in vs ==> v in g.adj && v in s.adj && Neighbors(g, v) + Neighbors(s, v) != {}
  }

  /** The Jaccard index of node v's neighbourhoods in G and in S. */
  function NodeScore(g: Graph, s: Graph, v: nat): (r: real)
    requires v in g.adj && v in s.adj && Neighbors(g, v) + Neighbors(s, v) != {}
    ensures 0.0 <= r <= 1.0
    ensures r == 1.0 <==> Neighbors(g, v) == Neighbors(s, v)
    ensures r == 0.0 <==> Neighbors(g, v) * Neighbors(s, v) == {}
  {
    JaccardIndex(Neighbors(g, v), Neighbors(s, v))
  }

  /** The running total `s` after the nodes `vs`: a sum of per-node indices, each in [0, 1]. */
  function ScoreSum(g: Graph, s: Graph, vs: seq<nat>): (r: real)
    requires Scorable(g, s, vs)
    ensures 0.0 <= r <= |vs| as real
    decreases |vs|
  {
    if vs == [] then 0.0
    else
      var p := vs[..|vs| - 1];
      assert forall v :: v in p ==> v in vs;
      ScoreSum(g, s, p) + NodeScore(g, s, vs[|vs| - 1])
  }

  /** The value `jaccard_similarity_sum(G, S)` returns: the per-node sum divided by the number of G's nodes. */
  function MeanScore(g: Graph, s: Graph): (r: real)
    requires |g.nodes| > 0 && Scorable(g, s, g.nodes)
    ensures 0.0 <= r <= 1.0
  {
    ScoreSum(g, s, g.nodes) / |g.nodes| as real
  }

  /** The sum reaches its maximum, one per node, exactly when every node has the same neighbours in both graphs. */
  lemma {:induction false} SumIsFull(g: Graph, s: Graph, vs: seq<nat>)
    requires Scorable(g, s, vs)
    ensures ScoreSum(g, s, vs) == |vs| as real <==> forall v :: v in vs ==> Neighbors(g, v) == Neighbors(s, v)
    decreases |vs|
  {
    if vs != [] {
      var p, x := vs[..|vs| - 1], vs[|vs| - 1];
      assert vs == p + [x];
      assert forall v :: v in p ==> v in vs;
      SumIsFull(g, s, p);
      assert ScoreSum(g, s, vs) == ScoreSum(g, s, p) + NodeScore(g, s, x);
    }
  }

  /** The sum is 0 exactly when every node's neighbour sets in the two graphs are disjoint. */
  lemma {:induction false} SumIsZero(g: Graph, s: Graph, vs: seq<nat>)
    requires Scorable(g, s, vs)
    ensures ScoreSum(g, s, vs) == 0.0 <==> forall v :: v in vs ==> Neighbors(g, v) * Neighbors(s, v) == {}
    decreases |vs|
  {
    if vs != [] {
      var p, x := vs[..|vs| - 1], vs[|vs| - 1];
      assert vs == p + [x];
      assert forall v :: v in p ==> v in vs;
      SumIsZero(g, s, p);
      assert ScoreSum(g, s, vs) == ScoreSum(g, s, p) + NodeScore(g, s, x);
    }
  }

  /** The score is exactly 1 when, and only when, every node of G has the same neighbours in G and in S. */
  lemma MeanIsOne(g: Graph, s: Graph)
    requires |g.nodes| > 0 && Scorable(g, s, g.nodes)
    ensures MeanScore(g, s) == 1.0 <==> forall v :: v in g.nodes ==> Neighbors(g, v) == Neighbors(s, v)
  {
    SumIsFull(g, s, g.nodes);
    Quotient(ScoreSum(g, s, g.nodes), |g.nodes| as real);
  }

  /** The score is exactly 0 when, and only when, no node shares a neighbour between G and S. */
  lemma MeanIsZero(g: Graph, s: Graph)
    requires |g.nodes| > 0 && Scorable(g, s, g.nodes)
    ensures MeanScore(g, s) == 0.0 <==> forall v :: v in g.nodes ==> Neighbors(g, v) * Neighbors(s, v) == {}
  {
    SumIsZero(g, s, g.nodes);
    Quotient(ScoreSum(g, s, g.nodes), |g.nodes| as real);
  }

  /** A total divided by a positive count is 0 exactly when the total is, and 1 exactly when it equals the count. */
  lemma Quotient(t: real, n: real)
    requires n > 0.0
    ensures t / n == 0.0 <==> t == 0.0
    ensures t / n == 1.0 <==> t == n
  {
    assert (t / n) * n == t;
  }

  /** A graph compared with itself scores 1, when none of its nodes is isolated. */
  lemma SelfScoresOne(g: Graph)
    requires |g.nodes| > 0
    requires forall v :: v in g.nodes ==> v in g.adj && Neighbors(g, v) != {}
    ensures Scorable(g, g, g.nodes) && MeanScore(g, g) == 1.0
  {
    MeanIsOne(g, g);
  }

  /** A candidate without edges scores 0 against a graph whose every node has a neighbour. */
  lemma EdgelessScoresZero(g: Graph, s: Graph)
    requires |g.nodes| > 0
    requires forall v :: v in g.nodes ==> v in g.adj && v in s.adj && Neighbors(g, v) != {} && Neighbors(s, v) == {}
    ensures Scorable(g, s, g.nodes) && MeanScore(g, s) == 0.0
  {
    MeanIsZero(g, s);
  }

  /**
   * `jaccard_similarity_sum(G, S)`: adds up, node by node in G's order,
   * |N_G(v) ∩ N_S(v)| / |N_G(v) ∪ N_S(v)| and divides by the number of G's nodes.
   */
  method JaccardSimilaritySum(g: NxGraph, s: NxGraph) returns (r: real)
    requires |g.nodes| > 0
    requires Scorable(g.Value(), s.Value(), g.nodes)
    ensures r == MeanScore(g.Value(), s.Value())
    ensures 0.0 <= r <= 1.0
    ensures r == 1.0 <==> forall v :: v in g.nodes ==> Neighbors(g.Value(), v) == Neighbors(s.Value(), v)
    ensures r == 0.0 <==> forall v :: v in g.nodes ==> Neighbors(g.Value(), v) * Neighbors(s.Value(), v) == {}
  {
    var sum := 0.0;
    for i := 0 to |g.nodes|
      invariant sum == ScoreSum(g.Value(), s.Value(), g.nodes[..i])
    {
      var node := g.nodes[i];
      var gN := g.adj[node].Keys;
      var sN := s.adj[node].Keys;
      assert g.nodes[..i + 1][..i] == g.nodes[..i];
      sum := sum + |gN * sN| as real / |gN + sN| as real;
    }
    assert g.nodes[..|g.nodes|] == g.nodes;
    r := sum / |g.nodes| as real;
    MeanIsOne(g.Value(), s.Value());
    MeanIsZero(g.Value(), s.Value());
  }
}
