/**
 * Whole-graph statistics: the degree of every node, and the summary
 * (node count, edge count, average degree, average degree of separation).
 * The two averages are quotients; each is returned as its numerator and
 * denominator.
 */
module Metrics {
  import opened Adjacency
  import opened Traversal

  /** The degree centrality of every key: the number of its neighbours. */
  method DegreeCentrality(g: Graph) returns (centrality: map<Node, nat>)
    ensures centrality.Keys == g.Keys
    ensures forall v :: v in g ==> centrality[v] == |g[v]|
  {
    centrality := map[];
    var rest := g.Keys;
    while rest != {}
      invariant rest <= g.Keys
      invariant centrality.Keys == g.Keys - rest
      invariant forall v :: v in centrality ==> centrality[v] == |g[v]|
      decreases rest
    {
      var node :| node in rest;
      centrality := centrality[node := |g[node]|];
      rest := rest - {node};
    }
  }

  /** In a closed graph no node is more central than the graph has nodes. */
  lemma CentralityBound(g: Graph, v: Node)
    requires Closed(g) && v in g
    ensures |g[v]| <= |g|
  {
    SubsetCard(g[v], g.Keys);
  }

  /** The edge count the summary reports: the sum of all neighbour-set sizes. */
  method CountArcs(g: Graph) returns (numEdges: nat)
    ensures numEdges == SumValues(Degrees(g))
  {
    numEdges := 0;
    var rest := g.Keys;
    ghost var counted: map<Node, nat> := map[];
    while rest != {}
      invariant counted.Keys + rest == g.Keys && counted.Keys !! rest
      invariant forall v :: v in counted ==> counted[v] == |g[v]|
      invariant numEdges == SumValues(counted)
      decreases rest
    {
      var node :| node in rest;
      SumValuesAdd(counted, node, |g[node]|);
      numEdges := numEdges + |g[node]|;
      counted := counted[node := |g[node]|];
      rest := rest - {node};
    }
    assert counted == Degrees(g);
  }

  /**
   * The summary of a non-empty graph. The average degree is
   * numEdges / numNodes; the average degree of separation is
   * sepTotal / sepCount, measured from one key of the graph.
   */
  method AnalyzeGraph(g: Graph) returns (numNodes: nat, numEdges: nat, sepTotal: nat, sepCount: nat)
    requires g.Keys != {}
    ensures numNodes == |g| && numNodes >= 1
    ensures numEdges == SumValues(Degrees(g))
    ensures Closed(g) ==> numEdges <= numNodes * numNodes
    ensures sepCount >= 1 && sepTotal + 1 >= sepCount
    ensures exists start, d :: start in g && IsDistanceMap(g, start, d)
                               && sepCount == |d| && sepTotal == SumValues(d)
  {
    numNodes := |g|;
    numEdges := CountArcs(g);
    if Closed(g) {
      DegreeSumBound(g);
    }
    var start :| start in g;
    sepTotal, sepCount := ComputeAvgDegreesOfSeparation(g, start);
    ghost var d :| IsDistanceMap(g, start, d) && sepCount == |d| && sepTotal == SumValues(d);
    SeparationTotal(g, start, d);
  }
}
