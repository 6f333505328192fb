/**
 * The adjacency store: an undirected graph held as a map from a node id to
 * the set of its neighbours. A node with no recorded neighbour may be absent.
 */
module Adjacency {
  type Node = nat
  type Graph = map<Node, set<Node>>

  /** The neighbour set of v; a node that is not a key has no neighbours. */
  function Neighbors(g: Graph, v: Node): set<Node>
  {
    if v in g then g[v] else {}
  }

  /** Every stored edge is stored in both directions. */
  ghost predicate Symmetric(g: Graph)
  {
    forall u, v :: v in Neighbors(g, u) ==> u in Neighbors(g, v)
  }

  /** Every neighbour of a key is itself a key. */
  ghost predicate Closed(g: Graph)
  {
    forall u, v :: u in g && v in g[u] ==> v in g
  }

  /** No key is stored with an empty neighbour set. */
  ghost predicate NoEmptyEntries(g: Graph)
  {
    forall u :: u in g ==> g[u] != {}
  }

  lemma SymmetricIsClosed(g: Graph)
    requires Symmetric(g)
    ensures Closed(g)
  {
    forall u, v | u in g && v in g[u]
      ensures v in g
    {
      assert v in Neighbors(g, u);
      assert u in Neighbors(g, v);
    }
  }

  /** No node occurs twice in `order`. */
  predicate Distinct(order: seq<Node>)
  {
    forall i, j :: 0 <= i < j < |order| ==> order[i] != order[j]
  }

  /** `order` lists every element of `s` exactly once (an iteration order of `s`). */
  ghost predicate Enumerates(order: seq<Node>, s: set<Node>)
  {
    && Distinct(order)
    && (forall i :: 0 <= i < |order| ==> order[i] in s)
    && (forall x :: x in s ==> x in order)
  }

  /** The elements of a sequence without repetitions are as many as its length. */
  lemma {:induction false} DistinctCard(order: seq<Node>)
    requires Distinct(order)
    ensures |set i | 0 <= i < |order| :: order[i]| == |order|
  {
    if order != [] {
      var last := |order| - 1;
      DistinctCard(order[..last]);
      var front := set i | 0 <= i < last :: order[..last][i];
      assert (set i | 0 <= i < |order| :: order[i]) == front + {order[last]};
      assert order[last] !in front;
    }
  }

  /** The part of m whose keys lie in s. */
  function Restrict(m: map<Node, nat>, s: set<Node>): map<Node, nat>
  {
    map v | v in s && v in m :: m[v]
  }

  /** Taking one more key into a restriction adds its value to the sum. */
  lemma RestrictAdd(m: map<Node, nat>, s: set<Node>, k: Node)
    requires k in m && k !in s
    ensures SumValues(Restrict(m, s + {k})) == SumValues(Restrict(m, s)) + m[k]
  {
    var r := Restrict(m, s + {k});
    SumValuesRemove(r, k);
    assert r - {k} == Restrict(m, s);
  }

  /** The sum of the values of a map, in no particular key order. */
  ghost function SumValues(m: map<Node, nat>): nat
    decreases |m|
  {
    if m.Keys == {} then 0
    else
      var k :| k in m;
      m[k] + SumValues(m - {k})
  }

  /** The sum does not depend on which key is taken out first. */
  /** Maps that agree on every key have the same sum. */
  lemma SumValuesSame(m: map<Node, nat>, m': map<Node, nat>)
    requires m.Keys == m'.Keys
    requires forall k :: k in m ==> m[k] == m'[k]
    ensures SumValues(m) == SumValues(m')
  {
    assert m == m';
  }

  lemma {:induction false} SumValuesRemove(m: map<Node, nat>, k: Node)
    requires k in m
    ensures SumValues(m) == m[k] + SumValues(m - {k})
    decreases |m|
  {
    var j :| j in m && SumValues(m) == m[j] + SumValues(m - {j});
    if j != k {
      SumValuesRemove(m - {j}, k);
      SumValuesRemove(m - {k}, j);
      assert m - {j} - {k} == m - {k} - {j};
    }
  }

  /** Adding a fresh key adds its value to the sum. */
  lemma SumValuesAdd(m: map<Node, nat>, k: Node, v: nat)
    requires k !in m
    ensures SumValues(m[k := v]) == SumValues(m) + v
  {
    SumValuesRemove(m[k := v], k);
    assert m[k := v] - {k} == m;
  }

  /** A map that agrees with m and has one more key k sums to m's sum plus k's value. */
  lemma SumValuesExtend(m: map<Node, nat>, m': map<Node, nat>, k: Node)
    requires k !in m && m'.Keys == m.Keys + {k}
    requires forall a :: a in m ==> m'[a] == m[a]
    ensures SumValues(m') == SumValues(m) + m'[k]
  {
    assert m' == m[k := m'[k]];
    SumValuesAdd(m, k, m'[k]);
  }

  lemma MulSucc(n: nat, b: nat)
    ensures (n + 1) * b == n * b + b
  {
  }

  /** A sum of |m| values that are each at most b is at most |m| * b. */
  lemma {:induction false} SumValuesBound(m: map<Node, nat>, b: nat)
    requires forall k :: k in m ==> m[k] <= b
    ensures SumValues(m) <= |m| * b
    decreases |m|
  {
    if m.Keys != {} {
      var k :| k in m;
      SumValuesRemove(m, k);
      SumValuesBound(m - {k}, b);
      MulSucc(|m - {k}|, b);
    }
  }

  /** A sum of |m| values that all equal b is |m| * b. */
  lemma {:induction false} SumValuesConst(m: map<Node, nat>, b: nat)
    requires forall k :: k in m ==> m[k] == b
    ensures SumValues(m) == |m| * b
    decreases |m|
  {
    if m.Keys != {} {
      var k :| k in m;
      SumValuesRemove(m, k);
      SumValuesConst(m - {k}, b);
      MulSucc(|m - {k}|, b);
    }
  }

  /** When values bounded by b add up to |m| * b, every value is b. */
  lemma SumValuesAtBound(m: map<Node, nat>, b: nat)
    requires forall k :: k in m ==> m[k] <= b
    requires SumValues(m) == |m| * b
    ensures forall k :: k in m ==> m[k] == b
  {
    forall k | k in m
      ensures m[k] == b
    {
      SumValuesRemove(m, k);
      SumValuesBound(m - {k}, b);
      var n := |m - {k}|;
      var rest := SumValues(m - {k});
      assert n + 1 == |m|;
      MulSucc(n, b);
      assert m[k] + rest == n * b + b && rest <= n * b;
    }
  }

  /** A sum of |m| values that are each at least 1 is at least |m|. */
  lemma {:induction false} SumValuesPositive(m: map<Node, nat>)
    requires forall k :: k in m ==> m[k] >= 1
    ensures SumValues(m) >= |m|
    decreases |m|
  {
    if m.Keys != {} {
      var k :| k in m;
      SumValuesRemove(m, k);
      SumValuesPositive(m - {k});
    }
  }

  /** The degree of every key: the size of its neighbour set. */
  function Degrees(g: Graph): map<Node, nat>
  {
    map v | v in g :: |g[v]|
  }

  /** In a closed graph the sum of degrees is at most the square of the node count. */
  lemma DegreeSumBound(g: Graph)
    requires Closed(g)
    ensures SumValues(Degrees(g)) <= |g| * |g|
  {
    var d := Degrees(g);
    forall v | v in d
      ensures d[v] <= |g|
    {
      assert g[v] <= g.Keys;
      SubsetCard(g[v], g.Keys);
    }
    assert |d| == |g| by { assert d.Keys == g.Keys; }
    SumValuesBound(d, |g|);
  }

  lemma {:induction false} SubsetCard(a: set<Node>, b: set<Node>)
    requires a <= b
    ensures |a| <= |b|
  {
    if a != {} {
      var x :| x in a;
      SubsetCard(a - {x}, b - {x});
    }
  }

  /** A subset as large as its superset is the superset. */
  lemma SubsetSameCard(a: set<Node>, b: set<Node>)
    requires a <= b && |a| == |b|
    ensures a == b
  {
    assert b == a + (b - a);
    assert |b - a| == 0;
  }
}
