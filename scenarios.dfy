/**
 * The repository's four-node test graph, a triangle 1-2-3 with node 4
 * hanging off node 3, and what the model's operations give on it.
 */
module Scenarios {
  import opened Adjacency
  import opened Traversal
  import opened Metrics
  import opened Sampler
  import opened Recommender
  import opened Analysis

  function TestGraph(): Graph
  {
    map[1 := {2, 3}, 2 := {1, 3}, 3 := {1, 2, 4}, 4 := {3}]
  }

  /** The hop counts from node 1. */
  function DistancesFromOne(): map<Node, nat>
  {
    map[1 := 0, 2 := 1, 3 := 1, 4 := 2]
  }

  /** The test graph is undirected. */
  lemma TestGraphSymmetric()
    ensures Symmetric(TestGraph()) && Closed(TestGraph()) && NoEmptyEntries(TestGraph())
  {
    var g := TestGraph();
    forall u, v | v in Neighbors(g, u)
      ensures u in Neighbors(g, v)
    {
      assert u in g;
    }
    SymmetricIsClosed(g);
  }

  /** Node 1 reaches nodes 2 and 3 in one hop and node 4 in two. */
  lemma TestDistances()
    ensures IsDistanceMap(TestGraph(), 1, DistancesFromOne())
  {
    var g := TestGraph();
    assert Within(g, 1, 1) == {1, 2, 3} by {
      forall w
        ensures w in Step(g, {1}) <==> w in {2, 3}
      {
        StepMember(g, {1}, w);
      }
    }
    assert Within(g, 1, 2) == {1, 2, 3, 4} by {
      forall w
        ensures w in Step(g, {1, 2, 3}) <==> w in {1, 2, 3, 4}
      {
        StepMember(g, {1, 2, 3}, w);
        if w == 4 {
          assert 4 in Neighbors(g, 3);
        } else if w in {1, 2, 3} {
          assert w in Neighbors(g, if w == 1 then 2 else 1);
        }
      }
    }
    var d := DistancesFromOne();
    forall u, w | u in d.Keys && w in Neighbors(g, u)
      ensures w in d.Keys
    {
    }
  }

  /** The degree centrality of node 1 is 2 and that of node 3 is 3. */
  method TestCentrality() returns (centrality: map<Node, nat>)
    ensures 1 in centrality && centrality[1] == 2
    ensures 3 in centrality && centrality[3] == 3
  {
    centrality := DegreeCentrality(TestGraph());
    assert |{2, 3}| == 2;
    assert |{1, 2, 4}| == 3;
  }

  /**
   * From node 1 the four reachable nodes lie 0 + 1 + 1 + 2 = 4 hops away in
   * total, so the average degree of separation is 1, within [1, 2].
   */
  method TestSeparation() returns (total: nat, count: nat)
    ensures total == 4 && count == 4
    ensures count <= total <= 2 * count
  {
    var g := TestGraph();
    total, count := ComputeAvgDegreesOfSeparation(g, 1);
    ghost var d :| IsDistanceMap(g, 1, d) && count == |d| && total == SumValues(d);
    TestDistances();
    DistanceMapUnique(g, 1, d, DistancesFromOne());
    SeparationFromOne();
  }

  lemma SeparationFromOne()
    ensures |DistancesFromOne()| == 4 && SumValues(DistancesFromOne()) == 4
  {
    var m0: map<Node, nat> := map[];
    var m1 := m0[4 := 2];
    var m2 := m1[3 := 1];
    var m3 := m2[2 := 1];
    SumValuesAdd(m0, 4, 2);
    SumValuesAdd(m1, 3, 1);
    SumValuesAdd(m2, 2, 1);
    SumValuesAdd(m3, 1, 0);
    assert m3[1 := 0] == DistancesFromOne();
    assert m3[1 := 0].Keys == {1, 2, 3, 4};
  }

  /** Sampling two keys gives two keys of the graph and a subgraph on at most two nodes. */
  method TestSample() returns (sg: Graph, sampled: set<Node>)
    ensures |sampled| == 2 && sampled <= TestGraph().Keys
    ensures |sg| <= 2
  {
    var g := TestGraph();
    var draw := [3, 1, 4, 2];
    assert g.Keys == {1, 2, 3, 4};
    assert forall x :: x in g.Keys ==> x in draw;
    sg, sampled := SampleGraph(g, 2, draw);
    InducedKeys(g, sampled);
    SubsetCard(sg.Keys, sampled);
  }

  /**
   * Node 4 shares neighbour 3 with nodes 1 and 2 and nothing with node 3; the
   * tie between 1 and 2 keeps the visiting order.
   */
  lemma TestSuggestions()
    ensures MostSharedNeighbors(TestGraph(), 4, [1, 2, 3, 4]) == [(1, 1), (2, 1)]
  {
    TestCandidates();
    var cands: seq<Entry> := [(1, 1), (2, 1)];
    assert SortedDesc(cands);
    SortSorted(cands);
  }

  /** Node 4's only neighbour, 3, is a neighbour of nodes 1 and 2 but not of node 3. */
  lemma TestSharedCounts()
    ensures SharedCount(TestGraph(), 4, 1) == 1 && SharedCount(TestGraph(), 4, 2) == 1
    ensures SharedCount(TestGraph(), 4, 3) == 0
  {
    var g := TestGraph();
    assert Neighbors(g, 4) * Neighbors(g, 1) == {3};
    assert Neighbors(g, 4) * Neighbors(g, 2) == {3};
    assert Neighbors(g, 4) * Neighbors(g, 3) == {};
  }

  /** The filter keeps nodes 1 and 2, each sharing one neighbour with node 4. */
  lemma TestCandidates()
    ensures SharedCounts(TestGraph(), 4, [1, 2, 3, 4]) == [(1, 1), (2, 1)]
  {
    var g := TestGraph();
    TestSharedCounts();
    var order := [1, 2, 3, 4];
    assert SharedCounts(g, 4, order[3..]) == [];
    assert order[2..][1..] == order[3..];
    assert SharedCounts(g, 4, order[2..]) == [];
    assert order[1..][1..] == order[2..];
    assert SharedCounts(g, 4, order[1..]) == [(2, 1)];
  }

  /**
   * Node 1's neighbours 2 and 3 are linked: the clustering count as written
   * is 2 out of 4 (one half), the corrected one 2 out of 2 (one).
   */
  method TestClustering() returns (asWritten: (nat, nat), corrected: (nat, nat))
    ensures asWritten == (2, 4) && corrected == (2, 2)
  {
    var g := TestGraph();
    var coefficients := ClusteringCoefficient(g);
    var correctedCoefficients := ClusteringCoefficientCorrected(g);
    assert 1 in g;
    asWritten, corrected := coefficients[1], correctedCoefficients[1];
    NodeOneTriangles();
  }

  /** Node 1's neighbours form one linked pair, counted in both orders. */
  lemma NodeOneTriangles()
    ensures TestGraph()[1] == {2, 3} && |TestGraph()[1]| == 2
    ensures Triangles(TestGraph(), TestGraph()[1]) == 2
  {
    var g := TestGraph();
    var nbrs := g[1];
    assert nbrs == {2, 3};
    assert Linked(g, 2, 3) && Linked(g, 3, 2);
    PairTriangles(g, 2, 3);
  }

  /** Two distinct linked nodes give two ordered pairs. */
  lemma PairTriangles(g: Graph, a: Node, b: Node)
    requires a != b && Linked(g, a, b) && Linked(g, b, a)
    ensures |{a, b}| == 2 && Triangles(g, {a, b}) == 2
  {
    assert IsClique(g, {a, b});
    CliqueTriangles(g, {a, b});
  }

  /**
   * Node 4 lies two hops from node 1, and every node lies within two hops of
   * every other through node 3, so the diameter is exactly 2.
   */
  method TestDiameter() returns (diameter: nat)
    ensures diameter == 2
  {
    var g := TestGraph();
    TestGraphSymmetric();
    diameter := GraphDiameter(g);
    TestDistances();
    assert DistancesFromOne()[4] == 2;
    ghost var s, d, v :| s in g && IsDistanceMap(g, s, d) && v in d && d[v] == diameter;
    HopsAtMostTwo(s, d, v);
  }

  /** No hop count in the test graph exceeds 2. */
  lemma HopsAtMostTwo(s: Node, d: map<Node, nat>, v: Node)
    requires s in TestGraph() && IsDistanceMap(TestGraph(), s, d) && v in d
    ensures d[v] <= 2
  {
    var g := TestGraph();
    TestGraphSymmetric();
    WithinClosed(g, s, g.Keys, d[v]);
    WithinTwo(s, v);
    ShortestAtMost(g, s, v, d[v], 2);
  }

  /** Node 3 is linked to every other node, so any two nodes are at most two hops apart. */
  lemma WithinTwo(s: Node, v: Node)
    requires s in TestGraph() && v in TestGraph()
    ensures v in Within(TestGraph(), s, 2)
  {
    var g := TestGraph();
    if s == 3 {
      WithinMono(g, s, 0, 1);
    } else {
      assert 3 in Neighbors(g, s);
      WithinNext(g, s, 0, s, 3);
    }
    if v == 3 {
      WithinMono(g, s, 1, 2);
    } else {
      assert v in Neighbors(g, 3);
      WithinNext(g, s, 1, 3, v);
    }
  }
}
