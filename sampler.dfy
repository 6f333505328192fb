/**
 * Random sampling of a graph: draw a set of keys, then keep the subgraph
 * those keys induce. The random draw is a parameter, `draw`, an
 * enumeration of the keys in the order the generator picked them.
 */
module Sampler {
  import opened Adjacency

  function Min(a: nat, b: nat): (r: nat)
    ensures r <= a && r <= b && (r == a || r == b)
  {
    if a <= b then a else b
  }

  /** The keys `choose_multiple` returns: the first min(k, |draw|) ones drawn. */
  function ChooseMultiple(draw: seq<Node>, k: nat): (r: set<Node>)
    ensures forall x :: x in r <==> x in draw[..Min(k, |draw|)]
  {
    set i | 0 <= i < Min(k, |draw|) :: draw[i]
  }

  /** The sample holds exactly min(k, number of keys) distinct keys of the graph. */
  lemma ChooseMultipleSize(draw: seq<Node>, keys: set<Node>, k: nat)
    requires Enumerates(draw, keys)
    ensures ChooseMultiple(draw, k) <= keys
    ensures |ChooseMultiple(draw, k)| == Min(k, |keys|)
    ensures k >= |keys| ==> ChooseMultiple(draw, k) == keys
  {
    DistinctCard(draw);
    assert (set i | 0 <= i < |draw| :: draw[i]) == keys by {
      forall x | x in keys
        ensures exists i :: 0 <= i < |draw| && draw[i] == x
      {
        assert x in draw;
      }
    }
    var n := Min(k, |draw|);
    var prefix := draw[..n];
    DistinctCard(prefix);
    assert (set i | 0 <= i < |prefix| :: prefix[i]) == ChooseMultiple(draw, k);
  }

  /** The part of the neighbourhoods of the keys in `dom` that lies in `sample`, dropping emptied entries. */
  function InducedOn(g: Graph, dom: set<Node>, sample: set<Node>): Graph
  {
    map n | n in dom && n in g && g[n] * sample != {} :: g[n] * sample
  }

  lemma InducedOnStep(g: Graph, dom: set<Node>, sample: set<Node>, node: Node)
    ensures InducedOn(g, dom + {node}, sample)
      == if node in g && g[node] * sample != {}
         then InducedOn(g, dom, sample)[node := g[node] * sample]
         else InducedOn(g, dom, sample)
  {
  }

  /** The subgraph a sample induces. */
  function InducedSubgraph(g: Graph, sample: set<Node>): (r: Graph)
    ensures forall u :: u in r <==> u in sample && u in g && g[u] * sample != {}
    ensures forall u :: u in r ==> r[u] == g[u] * sample
  {
    InducedOn(g, sample, sample)
  }

  /** An edge survives sampling exactly when both of its ends were sampled. */
  lemma InducedEdges(g: Graph, sample: set<Node>, u: Node, v: Node)
    ensures v in Neighbors(InducedSubgraph(g, sample), u)
        <==> u in sample && v in sample && v in Neighbors(g, u)
  {
  }

  /** The keys of the subgraph are sampled nodes, and none of them has an empty neighbour set. */
  lemma InducedKeys(g: Graph, sample: set<Node>)
    ensures InducedSubgraph(g, sample).Keys <= sample * g.Keys
    ensures NoEmptyEntries(InducedSubgraph(g, sample))
  {
  }

  /** Sampling keeps an undirected graph undirected. */
  lemma InducedSymmetric(g: Graph, sample: set<Node>)
    requires Symmetric(g)
    ensures Symmetric(InducedSubgraph(g, sample))
  {
    var sg := InducedSubgraph(g, sample);
    forall u, v | v in Neighbors(sg, u)
      ensures u in Neighbors(sg, v)
    {
      InducedEdges(g, sample, u, v);
      assert u in Neighbors(g, v);
      InducedEdges(g, sample, v, u);
    }
  }

  /** No node has more neighbours in the sample than in the graph. */
  lemma InducedDegree(g: Graph, sample: set<Node>, u: Node)
    ensures Neighbors(InducedSubgraph(g, sample), u) <= Neighbors(g, u)
    ensures |Neighbors(InducedSubgraph(g, sample), u)| <= |Neighbors(g, u)|
  {
    SubsetCard(Neighbors(InducedSubgraph(g, sample), u), Neighbors(g, u));
  }

  /** Sampling every key of a closed graph without empty entries gives the graph back. */
  lemma InducedAll(g: Graph)
    requires Closed(g) && NoEmptyEntries(g)
    ensures InducedSubgraph(g, g.Keys) == g
  {
    forall n | n in g
      ensures g[n] * g.Keys == g[n]
    {
    }
  }

  /** Builds the subgraph a sample induces, one sampled node at a time (in whatever order the set yields them). */
  method BuildInduced(g: Graph, sampled: set<Node>) returns (sg: Graph)
    ensures sg == InducedSubgraph(g, sampled)
  {
    sg := map[];
    var rest := sampled;
    ghost var done: set<Node> := {};
    while rest != {}
      invariant done + rest == sampled
      invariant sg == InducedOn(g, done, sampled)
      decreases rest
    {
      var node :| node in rest;
      InducedOnStep(g, done, sampled, node);
      if node in g {
        var filtered := g[node] * sampled;
        if filtered != {} {
          sg := sg[node := filtered];
        }
      }
      done := done + {node};
      rest := rest - {node};
    }
    assert done == sampled;
  }

  /** Draws the sample and returns it together with the subgraph it induces. */
  method SampleGraph(g: Graph, sampleSize: nat, draw: seq<Node>) returns (sg: Graph, sampled: set<Node>)
    requires Enumerates(draw, g.Keys)
    ensures sampled == ChooseMultiple(draw, sampleSize)
    ensures sampled <= g.Keys && |sampled| == Min(sampleSize, |g|)
    ensures sg == InducedSubgraph(g, sampled)
  {
    ChooseMultipleSize(draw, g.Keys, sampleSize);
    sampled := set i | 0 <= i < Min(sampleSize, |draw|) :: draw[i];
    sg := BuildInduced(g, sampled);
  }
}
