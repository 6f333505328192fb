/**
 * Follow suggestions: the profiles that share the most neighbours with a
 * selected one. Candidates are visited in the map's iteration order (a
 * parameter), filtered, sorted by shared count, highest first, with a
 * stable sort, and cut to the first five.
 */
module Recommender {
  import opened Adjacency

  type Entry = (Node, nat)

  /** How many neighbours a and b have in common; a node that is not a key has none. */
  function SharedCount(g: Graph, a: Node, b: Node): (r: nat)
    ensures r <= |Neighbors(g, a)| && r <= |Neighbors(g, b)|
  {
    SubsetCard(Neighbors(g, a) * Neighbors(g, b), Neighbors(g, a));
    SubsetCard(Neighbors(g, a) * Neighbors(g, b), Neighbors(g, b));
    |Neighbors(g, a) * Neighbors(g, b)|
  }

  /** Shared counts never exceed either node's degree. */
  lemma SharedCountBound(g: Graph, a: Node, b: Node)
    ensures SharedCount(g, a, b) <= |Neighbors(g, a)| && SharedCount(g, a, b) <= |Neighbors(g, b)|
    ensures SharedCount(g, a, b) == SharedCount(g, b, a)
  {
    assert Neighbors(g, a) * Neighbors(g, b) == Neighbors(g, b) * Neighbors(g, a);
  }

  /** No node appears in two entries. */
  predicate DistinctNodes(s: seq<Entry>)
  {
    forall i, j :: 0 <= i < j < |s| ==> s[i].0 != s[j].0
  }

  /**
   * The filter step: every node of `order` other than `selected` that shares
   * at least one neighbour with it, paired with that count, in visiting order.
   */
  function SharedCounts(g: Graph, selected: Node, order: seq<Node>): (r: seq<Entry>)
    ensures |r| <= |order|
    ensures forall i :: 0 <= i < |r| ==>
      r[i].0 in order && r[i].0 != selected && r[i].1 == SharedCount(g, selected, r[i].0) && r[i].1 > 0
    ensures forall v :: v in order && v != selected && SharedCount(g, selected, v) > 0 ==>
      (v, SharedCount(g, selected, v)) in r
  {
    if order == [] then []
    else
      var rest := SharedCounts(g, selected, order[1..]);
      var v := order[0];
      var n := SharedCount(g, selected, v);
      if v != selected && n > 0 then [(v, n)] + rest else rest
  }

  /** Over an order that repeats no node, no node gets two entries. */
  lemma {:induction false} SharedCountsDistinct(g: Graph, selected: Node, order: seq<Node>)
    requires Distinct(order)
    ensures DistinctNodes(SharedCounts(g, selected, order))
  {
    if order != [] {
      SharedCountsDistinct(g, selected, order[1..]);
      var rest := SharedCounts(g, selected, order[1..]);
      forall i | 0 <= i < |rest|
        ensures rest[i].0 != order[0]
      {
        assert rest[i].0 in order[1..];
      }
    }
  }

  /** Counts never increase from one entry to a later one. */
  predicate SortedDesc(s: seq<Entry>)
  {
    forall i, j :: 0 <= i < j < |s| ==> s[i].1 >= s[j].1
  }

  /** Inserts x ahead of the first entry whose count is not above its own. */
  function InsertByCount(x: Entry, s: seq<Entry>): (r: seq<Entry>)
    requires SortedDesc(s)
    ensures |r| == |s| + 1 && (r[0] == x || (s != [] && r[0] == s[0]))
    ensures SortedDesc(r)
    ensures multiset(r) == multiset(s) + multiset{x}
  {
    if s == [] || s[0].1 <= x.1 then [x] + s
    else
      var tail := InsertByCount(x, s[1..]);
      assert s == [s[0]] + s[1..];
      assert forall j :: 0 <= j < |tail| ==> tail[j].1 <= tail[0].1;
      [s[0]] + tail
  }

  /** The stable sort by count, highest first (insertion sort from the back). */
  function SortByCountDesc(s: seq<Entry>): (r: seq<Entry>)
    ensures |r| == |s|
    ensures SortedDesc(r)
    ensures multiset(r) == multiset(s)
  {
    if s == [] then []
    else
      assert s == [s[0]] + s[1..];
      InsertByCount(s[0], SortByCountDesc(s[1..]))
  }

  /**
   * The sort is stable: entries already in order, ties included, are left
   * where they are.
   */
  lemma {:induction false} SortSorted(s: seq<Entry>)
    requires SortedDesc(s)
    ensures SortByCountDesc(s) == s
  {
    if s != [] {
      assert SortedDesc(s[1..]);
      SortSorted(s[1..]);
    }
  }

  /** The sort keeps exactly the entries it is given. */
  lemma SortMembers(s: seq<Entry>, y: Entry)
    ensures y in SortByCountDesc(s) <==> y in s
  {
    assert y in SortByCountDesc(s) <==> y in multiset(SortByCountDesc(s));
  }

  lemma {:induction false} InsertDistinct(x: Entry, s: seq<Entry>)
    requires SortedDesc(s) && DistinctNodes(s)
    requires forall i :: 0 <= i < |s| ==> s[i].0 != x.0
    ensures DistinctNodes(InsertByCount(x, s))
  {
    if s != [] && s[0].1 > x.1 {
      InsertDistinct(x, s[1..]);
      var tail := InsertByCount(x, s[1..]);
      forall j | 0 <= j < |tail|
        ensures tail[j].0 != s[0].0
      {
        assert tail[j] in multiset(tail);
        if tail[j] != x {
          assert tail[j] in s[1..];
        }
      }
    }
  }

  /** Sorting entries with distinct nodes keeps the nodes distinct. */
  lemma {:induction false} SortDistinct(s: seq<Entry>)
    requires DistinctNodes(s)
    ensures DistinctNodes(SortByCountDesc(s))
  {
    if s != [] {
      SortDistinct(s[1..]);
      var sorted := SortByCountDesc(s[1..]);
      forall i | 0 <= i < |sorted|
        ensures sorted[i].0 != s[0].0
      {
        SortMembers(s[1..], sorted[i]);
      }
      InsertDistinct(s[0], sorted);
    }
  }

  /** The first min(n, |s|) entries. */
  function Truncate(s: seq<Entry>, n: nat): (r: seq<Entry>)
    ensures |r| <= n && |r| <= |s|
    ensures |s| > n ==> |r| == n
    ensures forall i :: 0 <= i < |r| ==> r[i] == s[i]
    ensures |s| <= n ==> r == s
  {
    if |s| <= n then s else s[..n]
  }

  /** How many suggestions are kept. */
  const TopCount: nat := 5

  /**
   * Up to five (node, shared count) suggestions for `selected`, most shared
   * first; `order` is the order in which the map yields its keys.
   */
  function MostSharedNeighbors(g: Graph, selected: Node, order: seq<Node>): (r: seq<Entry>)
    ensures |r| <= TopCount
    ensures SortedDesc(r)
    ensures forall i :: 0 <= i < |r| ==>
      r[i].0 in order && r[i].0 != selected && r[i].1 == SharedCount(g, selected, r[i].0) && r[i].1 > 0
  {
    var cands := SharedCounts(g, selected, order);
    var sorted := SortByCountDesc(cands);
    assert forall i :: 0 <= i < |sorted| ==> sorted[i] in cands by {
      forall i | 0 <= i < |sorted|
        ensures sorted[i] in cands
      {
        SortMembers(cands, sorted[i]);
      }
    }
    Truncate(sorted, TopCount)
  }

  /**
   * The suggestions are the best ones: any eligible node left out shares no
   * more neighbours than the fifth suggestion, and it was left out only
   * because five were already kept.
   */
  lemma TopFive(g: Graph, selected: Node, order: seq<Node>, v: Node)
    requires v in order && v != selected && SharedCount(g, selected, v) > 0
    requires forall i :: 0 <= i < |MostSharedNeighbors(g, selected, order)| ==>
      MostSharedNeighbors(g, selected, order)[i].0 != v
    ensures |MostSharedNeighbors(g, selected, order)| == TopCount
    ensures SharedCount(g, selected, v) <= MostSharedNeighbors(g, selected, order)[TopCount - 1].1
  {
    var cands := SharedCounts(g, selected, order);
    var sorted := SortByCountDesc(cands);
    var r := MostSharedNeighbors(g, selected, order);
    var e := (v, SharedCount(g, selected, v));
    SortMembers(cands, e);
    var k :| 0 <= k < |sorted| && sorted[k] == e;
    assert k >= |r|;
    assert sorted[TopCount - 1].1 >= sorted[k].1;
  }

  /** Every eligible node is suggested when there are at most five of them. */
  lemma FewCandidates(g: Graph, selected: Node, order: seq<Node>, v: Node)
    requires v in order && v != selected && SharedCount(g, selected, v) > 0
    requires |SharedCounts(g, selected, order)| <= TopCount
    ensures (v, SharedCount(g, selected, v)) in MostSharedNeighbors(g, selected, order)
  {
    SortMembers(SharedCounts(g, selected, order), (v, SharedCount(g, selected, v)));
  }

  /** Over an iteration order of the keys no node is suggested twice. */
  lemma SuggestionsDistinct(g: Graph, selected: Node, order: seq<Node>)
    requires Distinct(order)
    ensures DistinctNodes(MostSharedNeighbors(g, selected, order))
  {
    var sorted := SortByCountDesc(SharedCounts(g, selected, order));
    SharedCountsDistinct(g, selected, order);
    SortDistinct(SharedCounts(g, selected, order));
    var r := MostSharedNeighbors(g, selected, order);
    forall i, j | 0 <= i < j < |r|
      ensures r[i].0 != r[j].0
    {
      assert r[i] == sorted[i] && r[j] == sorted[j];
    }
  }

  lemma {:induction false} SharedCountsEmpty(g: Graph, selected: Node, order: seq<Node>)
    requires Neighbors(g, selected) == {}
    ensures SharedCounts(g, selected, order) == []
  {
    if order != [] {
      SharedCountsEmpty(g, selected, order[1..]);
      assert SharedCount(g, selected, order[0]) == 0;
    }
  }

  /** A node without neighbours (or not in the graph) gets no suggestion. */
  lemma NoNeighborsNoSuggestions(g: Graph, selected: Node, order: seq<Node>)
    requires Neighbors(g, selected) == {}
    ensures MostSharedNeighbors(g, selected, order) == []
  {
    SharedCountsEmpty(g, selected, order);
  }
}
