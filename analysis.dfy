/**
 * The extra analyses: per-node clustering coefficients and the graph
 * diameter. A coefficient is returned as its two integer counts
 * (triangles, possible); the pair (0, 0) stands for the coefficient 0.
 */
module Analysis {
  import opened Wrappers
  import opened Adjacency
  import opened Traversal

  /** Whether b is recorded as a neighbour of a (never, when a is not a key). */
  predicate Linked(g: Graph, a: Node, b: Node)
  {
    a in g && b in g[a]
  }

  /** The members of nbrs other than a that a is linked to, collected one member at a time. */
  ghost function Row(g: Graph, nbrs: set<Node>, a: Node): set<Node>
    decreases |nbrs|
  {
    if nbrs == {} then {}
    else
      var b := Pick(nbrs);
      (if b != a && Linked(g, a, b) then {b} else {}) + Row(g, nbrs - {b}, a)
  }

  /** Some member of a non-empty set. */
  ghost function Pick(s: set<Node>): (b: Node)
    requires s != {}
    ensures b in s
  {
    var b :| b in s; b
  }

  lemma {:induction false} RowMember(g: Graph, nbrs: set<Node>, a: Node, b: Node)
    ensures b in Row(g, nbrs, a) <==> b in nbrs && b != a && Linked(g, a, b)
    decreases |nbrs|
  {
    if nbrs != {} {
      var c := Pick(nbrs);
      RowMember(g, nbrs - {c}, a, b);
      assert b in nbrs <==> b == c || b in nbrs - {c};
    }
  }

  /** A row is the part of nbrs in a's neighbour set, a itself excluded. */
  lemma RowClosedForm(g: Graph, nbrs: set<Node>, a: Node)
    ensures Row(g, nbrs, a) == nbrs * Neighbors(g, a) - {a}
  {
    forall b
      ensures b in Row(g, nbrs, a) <==> b in nbrs * Neighbors(g, a) - {a}
    {
      RowMember(g, nbrs, a, b);
    }
  }

  /** The size of every member's row. */
  ghost function RowSizes(g: Graph, nbrs: set<Node>, within: set<Node>): map<Node, nat>
  {
    map a | a in nbrs :: |Row(g, within, a)|
  }

  /** For each member of nbrs, how many other members it is linked to. */
  ghost function LinkCounts(g: Graph, nbrs: set<Node>): map<Node, nat>
  {
    map a | a in nbrs :: |nbrs * Neighbors(g, a) - {a}|
  }

  /**
   * The ordered pairs of distinct linked members of nbrs: the triangles
   * through a node with these neighbours, summed member by member.
   */
  ghost function Triangles(g: Graph, nbrs: set<Node>): nat
  {
    SumValues(RowSizes(g, nbrs, nbrs))
  }

  /** The triangle count is the sum, over the members, of the other members each is linked to. */
  lemma TrianglesClosedForm(g: Graph, nbrs: set<Node>)
    ensures Triangles(g, nbrs) == SumValues(LinkCounts(g, nbrs))
  {
    var sizes, counts := RowSizes(g, nbrs, nbrs), LinkCounts(g, nbrs);
    assert sizes.Keys == nbrs == counts.Keys;
    forall a | a in sizes
      ensures sizes[a] == counts[a]
    {
      RowClosedForm(g, nbrs, a);
    }
    SumValuesSame(sizes, counts);
  }

  /** Every two distinct members of nbrs are linked. */
  ghost predicate IsClique(g: Graph, nbrs: set<Node>)
  {
    forall a, b :: a in nbrs && b in nbrs && a != b ==> Linked(g, a, b)
  }

  lemma RowBound(g: Graph, nbrs: set<Node>, a: Node)
    requires a in nbrs
    ensures |Row(g, nbrs, a)| <= |nbrs| - 1
  {
    RowClosedForm(g, nbrs, a);
    SubsetCard(Row(g, nbrs, a), nbrs - {a});
  }

  /** There are at most |N| * (|N| - 1) ordered pairs of distinct members of N. */
  lemma TrianglesBound(g: Graph, nbrs: set<Node>)
    ensures Triangles(g, nbrs) <= |nbrs| * (|nbrs| - 1)
  {
    if nbrs != {} {
      var sizes := RowSizes(g, nbrs, nbrs);
      var top := |nbrs| - 1;
      forall a | a in sizes
        ensures sizes[a] <= top
      {
        RowBound(g, nbrs, a);
      }
      assert sizes.Keys == nbrs;
      SumValuesBound(sizes, top);
    }
  }

  /** In a clique every member's row holds all the other members. */
  lemma CliqueRows(g: Graph, nbrs: set<Node>, a: Node)
    requires IsClique(g, nbrs) && a in nbrs
    ensures |Row(g, nbrs, a)| == |nbrs| - 1
  {
    RowClosedForm(g, nbrs, a);
    forall b | b in nbrs - {a}
      ensures b in Neighbors(g, a)
    {
      assert Linked(g, a, b);
    }
    assert Row(g, nbrs, a) == nbrs - {a};
  }

  lemma CliqueTriangles(g: Graph, nbrs: set<Node>)
    requires IsClique(g, nbrs)
    ensures Triangles(g, nbrs) == |nbrs| * (|nbrs| - 1)
  {
    if nbrs != {} {
      var sizes := RowSizes(g, nbrs, nbrs);
      var top := |nbrs| - 1;
      forall a | a in sizes
        ensures sizes[a] == top
      {
        CliqueRows(g, nbrs, a);
      }
      assert sizes.Keys == nbrs;
      SumValuesConst(sizes, top);
    }
  }

  /** A full triangle count forces every row to be full, hence a clique. */
  lemma TrianglesClique(g: Graph, nbrs: set<Node>)
    requires Triangles(g, nbrs) == |nbrs| * (|nbrs| - 1)
    ensures IsClique(g, nbrs)
  {
    if nbrs != {} {
      var sizes := RowSizes(g, nbrs, nbrs);
      var top := |nbrs| - 1;
      assert sizes.Keys == nbrs;
      assert |sizes| == |nbrs|;
      forall a | a in sizes
        ensures sizes[a] <= top
      {
        RowBound(g, nbrs, a);
      }
      SumValuesAtBound(sizes, top);
      forall a, b | a in nbrs && b in nbrs && a != b
        ensures Linked(g, a, b)
      {
        FullRowLinked(g, nbrs, a, b);
      }
    }
  }

  /** A member whose row has every other member in it is linked to each of them. */
  lemma FullRowLinked(g: Graph, nbrs: set<Node>, a: Node, b: Node)
    requires a in nbrs && b in nbrs && a != b
    requires |Row(g, nbrs, a)| == |nbrs| - 1
    ensures Linked(g, a, b)
  {
    RowClosedForm(g, nbrs, a);
    assert |Row(g, nbrs, a)| == |nbrs - {a}|;
    SubsetSameCard(Row(g, nbrs, a), nbrs - {a});
    assert b in Row(g, nbrs, a);
  }

  /** The triangle count reaches |N| * (|N| - 1) exactly when the neighbourhood is a clique. */
  lemma TrianglesFull(g: Graph, nbrs: set<Node>)
    ensures Triangles(g, nbrs) == |nbrs| * (|nbrs| - 1) <==> IsClique(g, nbrs)
  {
    if IsClique(g, nbrs) {
      CliqueTriangles(g, nbrs);
    }
    if Triangles(g, nbrs) == |nbrs| * (|nbrs| - 1) {
      TrianglesClique(g, nbrs);
    }
  }

  lemma RowGrow(g: Graph, seen: set<Node>, other: Node, a: Node)
    requires other !in seen
    ensures |Row(g, seen + {other}, a)|
      == |Row(g, seen, a)| + if a != other && Linked(g, a, other) then 1 else 0
  {
    RowMember(g, seen, a, other);
    var extra := if a != other && Linked(g, a, other) then {other} else {};
    forall b
      ensures b in Row(g, seen + {other}, a) <==> b in Row(g, seen, a) + extra
    {
      RowMember(g, seen + {other}, a, b);
      RowMember(g, seen, a, b);
    }
    assert Row(g, seen + {other}, a) == Row(g, seen, a) + extra;
  }

  /**
   * The inner loop of the count, as written: pairs `neighbor` with every
   * member of nbrs, itself included, counting linked distinct pairs as
   * triangles and every pair as possible.
   */
  method ScanRow(g: Graph, nbrs: set<Node>, neighbor: Node, triangles0: nat, possible0: nat)
    returns (triangles: nat, possible: nat)
    ensures triangles == triangles0 + |Row(g, nbrs, neighbor)|
    ensures possible == possible0 + |nbrs|
  {
    triangles, possible := triangles0, possible0;
    var others := nbrs;
    ghost var seen: set<Node> := {};
    while others != {}
      invariant seen + others == nbrs && seen !! others
      invariant triangles == triangles0 + |Row(g, seen, neighbor)|
      invariant possible == possible0 + |seen|
      decreases others
    {
      var other :| other in others;
      RowGrow(g, seen, other, neighbor);
      if neighbor != other && neighbor in g && other in g[neighbor] {
        triangles := triangles + 1;
      }
      possible := possible + 1;
      seen, others := seen + {other}, others - {other};
    }
  }

  /** The inner loop of the corrected count: a neighbour paired with itself is skipped. */
  method ScanRowCorrected(g: Graph, nbrs: set<Node>, neighbor: Node, triangles0: nat, possible0: nat)
    returns (triangles: nat, possible: nat)
    requires neighbor in nbrs
    ensures triangles == triangles0 + |Row(g, nbrs, neighbor)|
    ensures possible + 1 == possible0 + |nbrs|
  {
    triangles, possible := triangles0, possible0;
    var others := nbrs;
    ghost var seen: set<Node> := {};
    while others != {}
      invariant seen + others == nbrs && seen !! others
      invariant triangles == triangles0 + |Row(g, seen, neighbor)|
      invariant possible + (if neighbor in seen then 1 else 0) == possible0 + |seen|
      decreases others
    {
      var other :| other in others;
      RowGrow(g, seen, other, neighbor);
      if neighbor != other {
        if neighbor in g && other in g[neighbor] {
          triangles := triangles + 1;
        }
        possible := possible + 1;
      }
      seen, others := seen + {other}, others - {other};
    }
  }

  /** Taking member k out of the part still to count takes its row out of the sum. */
  lemma RowSizesRemove(g: Graph, rest: set<Node>, within: set<Node>, k: Node)
    requires k in rest
    ensures SumValues(RowSizes(g, rest, within)) == SumValues(RowSizes(g, rest - {k}, within)) + |Row(g, within, k)|
  {
    SumValuesExtend(RowSizes(g, rest - {k}, within), RowSizes(g, rest, within), k);
  }

  /** The pairs counted for the members of rest when each member is paired with `width` others. */
  ghost function Widths(rest: set<Node>, width: nat): map<Node, nat>
  {
    map a | a in rest :: width
  }

  lemma WidthsRemove(rest: set<Node>, width: nat, k: Node)
    requires k in rest
    ensures SumValues(Widths(rest, width)) == SumValues(Widths(rest - {k}, width)) + width
  {
    SumValuesExtend(Widths(rest - {k}, width), Widths(rest, width), k);
  }

  /** Nothing is left to count once every member is scanned. */
  lemma NothingLeft(g: Graph, within: set<Node>, width: nat)
    ensures SumValues(RowSizes(g, {}, within)) == 0 && SumValues(Widths({}, width)) == 0
  {
    assert RowSizes(g, {}, within) == map[];
    assert Widths({}, width) == map[];
  }

  /** Pairing each of n members with n partners counts n * n pairs. */
  lemma WidthsTotal(nbrs: set<Node>)
    ensures SumValues(Widths(nbrs, |nbrs|)) == |nbrs| * |nbrs|
  {
    assert Widths(nbrs, |nbrs|).Keys == nbrs;
    SumValuesConst(Widths(nbrs, |nbrs|), |nbrs|);
  }

  /** Pairing each member with the others only counts |N| * (|N| - 1) pairs. */
  lemma OthersTotal(nbrs: set<Node>, possible: nat)
    requires possible + |nbrs| == SumValues(Widths(nbrs, |nbrs|))
    ensures possible == |nbrs| * (|nbrs| - 1)
  {
    WidthsTotal(nbrs);
    if nbrs != {} {
      MulSucc(|nbrs| - 1, |nbrs|);
    }
  }

  /**
   * Counts the triangles and the possible triangles through a node with
   * neighbours nbrs; what is still to count is the rows and pairings of the
   * neighbours in rest.
   */
  method NodeClustering(g: Graph, nbrs: set<Node>) returns (triangles: nat, possible: nat)
    ensures triangles == Triangles(g, nbrs)
    ensures possible == |nbrs| * |nbrs|
  {
    triangles, possible := 0, 0;
    var rest := nbrs;
    while rest != {}
      invariant triangles + SumValues(RowSizes(g, rest, nbrs)) == Triangles(g, nbrs)
      invariant possible + SumValues(Widths(rest, |nbrs|)) == SumValues(Widths(nbrs, |nbrs|))
      decreases rest
    {
      var neighbor :| neighbor in rest;
      triangles, possible := ScanRow(g, nbrs, neighbor, triangles, possible);
      RowSizesRemove(g, rest, nbrs, neighbor);
      WidthsRemove(rest, |nbrs|, neighbor);
      rest := rest - {neighbor};
    }
    NothingLeft(g, nbrs, |nbrs|);
    WidthsTotal(nbrs);
  }

  /** The corrected count: a neighbour paired with itself is not a possible triangle. */
  method NodeClusteringCorrected(g: Graph, nbrs: set<Node>) returns (triangles: nat, possible: nat)
    ensures triangles == Triangles(g, nbrs)
    ensures possible == |nbrs| * (|nbrs| - 1)
  {
    triangles, possible := 0, 0;
    var rest := nbrs;
    while rest != {}
      invariant rest <= nbrs
      invariant triangles + SumValues(RowSizes(g, rest, nbrs)) == Triangles(g, nbrs)
      invariant possible + SumValues(Widths(rest, |nbrs|)) + |nbrs| == SumValues(Widths(nbrs, |nbrs|)) + |rest|
      decreases rest
    {
      var neighbor :| neighbor in rest;
      triangles, possible := ScanRowCorrected(g, nbrs, neighbor, triangles, possible);
      RowSizesRemove(g, rest, nbrs, neighbor);
      WidthsRemove(rest, |nbrs|, neighbor);
      rest := rest - {neighbor};
    }
    NothingLeft(g, nbrs, |nbrs|);
    OthersTotal(nbrs, possible);
  }

  /** No possible pair means no neighbour, hence no triangle. */
  lemma NoPairs(g: Graph, nbrs: set<Node>, possible: nat)
    requires possible == |nbrs| * |nbrs| && possible == 0
    ensures Triangles(g, nbrs) == 0
  {
    TrianglesBound(g, nbrs);
  }

  /** No pair of distinct neighbours means no triangle. */
  lemma NoDistinctPairs(g: Graph, nbrs: set<Node>, possible: nat)
    requires possible == |nbrs| * (|nbrs| - 1) && possible == 0
    ensures Triangles(g, nbrs) == 0
  {
    TrianglesBound(g, nbrs);
  }

  /**
   * One node's coefficient as written, as (triangles, possible); the pair
   * (0, 0) when there is no possible pair.
   */
  method NodeCoefficient(g: Graph, nbrs: set<Node>) returns (c: (nat, nat))
    ensures c == (Triangles(g, nbrs), |nbrs| * |nbrs|)
  {
    var triangles, possible := NodeClustering(g, nbrs);
    if possible > 0 {
      c := (triangles, possible);
    } else {
      NoPairs(g, nbrs, possible);
      c := (0, 0);
    }
  }

  /** The number of ordered pairs of distinct members of an n-element set, n·(n−1). */
  function DistinctPairs(n: nat): nat
  {
    if n == 0 then 0 else n * (n - 1)
  }

  /** One node's coefficient with the corrected possible count. */
  method NodeCoefficientCorrected(g: Graph, nbrs: set<Node>) returns (c: (nat, nat))
    ensures c == (Triangles(g, nbrs), DistinctPairs(|nbrs|))
  {
    var triangles, possible := NodeClusteringCorrected(g, nbrs);
    if possible > 0 {
      c := (triangles, possible);
    } else {
      NoDistinctPairs(g, nbrs, possible);
      c := (0, 0);
    }
  }

  /**
   * The clustering coefficient of every key, as (triangles, possible). The
   * possible count includes each neighbour paired with itself.
   */
  method ClusteringCoefficient(g: Graph) returns (coefficients: map<Node, (nat, nat)>)
    ensures coefficients.Keys == g.Keys
    ensures forall v :: v in g ==> coefficients[v] == (Triangles(g, g[v]), |g[v]| * |g[v]|)
  {
    coefficients := map[];
    var rest := g.Keys;
    while rest != {}
      invariant rest <= g.Keys && coefficients.Keys == g.Keys - rest
      invariant forall v :: v in coefficients ==> coefficients[v] == (Triangles(g, g[v]), |g[v]| * |g[v]|)
      decreases rest
    {
      var node :| node in rest;
      var c := NodeCoefficient(g, g[node]);
      coefficients := coefficients[node := c];
      rest := rest - {node};
    }
  }

  /** The clustering coefficient of every key with the corrected possible count. */
  method ClusteringCoefficientCorrected(g: Graph) returns (coefficients: map<Node, (nat, nat)>)
    ensures coefficients.Keys == g.Keys
    ensures forall v :: v in g ==> coefficients[v] == (Triangles(g, g[v]), DistinctPairs(|g[v]|))
  {
    coefficients := map[];
    var rest := g.Keys;
    while rest != {}
      invariant rest <= g.Keys && coefficients.Keys == g.Keys - rest
      invariant forall v :: v in coefficients ==> coefficients[v] == (Triangles(g, g[v]), DistinctPairs(|g[v]|))
      decreases rest
    {
      var node :| node in rest;
      var c := NodeCoefficientCorrected(g, g[node]);
      coefficients := coefficients[node := c];
      rest := rest - {node};
    }
  }

  /**
   * As written, no node with a neighbour ever reaches coefficient 1: the
   * triangles fall short of the possible count by at least |N|, even when the
   * neighbours form a clique.
   */
  lemma AsWrittenBelowOne(g: Graph, nbrs: set<Node>)
    ensures Triangles(g, nbrs) + |nbrs| <= |nbrs| * |nbrs|
    ensures IsClique(g, nbrs) ==> Triangles(g, nbrs) + |nbrs| == |nbrs| * |nbrs|
  {
    TrianglesBound(g, nbrs);
    TrianglesFull(g, nbrs);
    if nbrs != {} {
      MulSucc(|nbrs| - 1, |nbrs|);
    }
  }

  /**
   * With the corrected count the coefficient is at most 1, exactly 1 for a
   * clique neighbourhood, and 0 for a node with fewer than two neighbours.
   */
  lemma CorrectedAtMostOne(g: Graph, nbrs: set<Node>)
    ensures Triangles(g, nbrs) <= |nbrs| * (|nbrs| - 1)
    ensures |nbrs| >= 2 ==> (Triangles(g, nbrs) == |nbrs| * (|nbrs| - 1) <==> IsClique(g, nbrs))
    ensures |nbrs| < 2 ==> Triangles(g, nbrs) == 0 && |nbrs| * (|nbrs| - 1) == 0
  {
    TrianglesBound(g, nbrs);
    TrianglesFull(g, nbrs);
  }

  /** The largest value of m, or None when m is empty. */
  method MaxValue(m: map<Node, nat>) returns (r: Option<nat>)
    ensures r.None? <==> m.Keys == {}
    ensures r.Some? ==> (exists k :: k in m && m[k] == r.value) && forall k :: k in m ==> m[k] <= r.value
  {
    r := None;
    var rest := m.Keys;
    while rest != {}
      invariant rest <= m.Keys
      invariant r.None? <==> rest == m.Keys
      invariant r.Some? ==> (exists k :: k in m && m[k] == r.value)
      invariant r.Some? ==> forall k :: k in m && k !in rest ==> m[k] <= r.value
      decreases rest
    {
      var k :| k in rest;
      if r.None? || r.value < m[k] {
        r := Some(m[k]);
      }
      rest := rest - {k};
    }
  }

  /** No shortest path from a node of `starts` is longer than `bound`. */
  ghost predicate BoundsFrom(g: Graph, starts: set<Node>, bound: nat)
  {
    forall s, d, v :: s in starts && IsDistanceMap(g, s, d) && v in d ==> d[v] <= bound
  }

  /** One more search whose hop counts stay within the new bound extends the bound to its start. */
  lemma BoundsFromAdd(g: Graph, starts: set<Node>, bound: nat, start: Node, distances: map<Node, nat>, bound': nat)
    requires BoundsFrom(g, starts, bound) && bound <= bound'
    requires IsDistanceMap(g, start, distances)
    requires forall v :: v in distances ==> distances[v] <= bound'
    ensures BoundsFrom(g, starts + {start}, bound')
  {
    forall s, d, v | s in starts + {start} && IsDistanceMap(g, s, d) && v in d
      ensures d[v] <= bound'
    {
      if s == start {
        DistanceMapUnique(g, start, d, distances);
      }
    }
  }

  /**
   * The largest hop count of any shortest path in the graph: one
   * breadth-first search per key. Every neighbour met must be a key: the
   * source looks each dequeued node up and fails when it is missing.
   */
  method GraphDiameter(g: Graph) returns (diameter: nat)
    requires Closed(g)
    ensures forall s, d, v :: s in g && IsDistanceMap(g, s, d) && v in d ==> d[v] <= diameter
    ensures g.Keys == {} ==> diameter == 0
    ensures g.Keys != {} ==> exists s, d, v :: s in g && IsDistanceMap(g, s, d) && v in d && d[v] == diameter
  {
    diameter := 0;
    var rest := g.Keys;
    ghost var done: set<Node> := {};
    // A longest path found so far: its start, that start's hop counts, its end.
    ghost var ws: Node, wd: map<Node, nat>, wv: Node := 0, map[], 0;
    while rest != {}
      invariant done + rest == g.Keys && done !! rest
      invariant BoundsFrom(g, done, diameter)
      invariant done == {} ==> diameter == 0
      invariant done != {} ==> ws in g && IsDistanceMap(g, ws, wd) && wv in wd && wd[wv] == diameter
      decreases rest
    {
      var start :| start in rest;
      var distances := DistancesFrom(g, start);
      DistanceMapSource(g, start, distances);
      var farthest := MaxValue(distances);
      var max := farthest.value;
      ghost var previous := diameter;
      if diameter < max {
        diameter := max;
      }
      if done == {} || previous < max {
        ws, wd := start, distances;
        wv :| wv in distances && distances[wv] == max;
      }
      BoundsFromAdd(g, done, previous, start, distances, diameter);
      done, rest := done + {start}, rest - {start};
    }
    assert done == g.Keys;
  }
}
