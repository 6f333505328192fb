/**
 * The traversal engine: breadth-first search from a source node.
 *
 * Hop counts are specified without reference to any algorithm: Within(g, s, k)
 * is the set of nodes at most k edges away from s, and a distance map gives
 * every node reachable from s (and nothing else) its least such k. Both
 * breadth-first loops of the source are proved against that specification
 * through one shared loop invariant, BfsScan, and its step lemmas.
 */
module Traversal {
  import opened Adjacency

  /** The nodes one edge away from some node of s: the union of their neighbour sets. */
  ghost function Step(g: Graph, s: set<Node>): set<Node>
    decreases |s|
  {
    if s == {} then {}
    else
      var u :| u in s;
      Neighbors(g, u) + Step(g, s - {u})
  }

  lemma {:induction false} StepMember(g: Graph, s: set<Node>, w: Node)
    ensures w in Step(g, s) <==> exists u :: u in s && w in Neighbors(g, u)
    decreases |s|
  {
    if s != {} {
      var u :| u in s && Step(g, s) == Neighbors(g, u) + Step(g, s - {u});
      StepMember(g, s - {u}, w);
    }
  }

  /** The nodes at most k edges away from source. */
  ghost function Within(g: Graph, source: Node, k: nat): set<Node>
  {
    if k == 0 then {source} else Within(g, source, k - 1) + Step(g, Within(g, source, k - 1))
  }

  /** d is the number of edges on a shortest path from source to v. */
  ghost predicate IsShortest(g: Graph, source: Node, v: Node, d: nat)
  {
    v in Within(g, source, d) && (d > 0 ==> v !in Within(g, source, d - 1))
  }

  /** No edge leaves s. */
  ghost predicate ClosedUnder(g: Graph, s: set<Node>)
  {
    forall u, w :: u in s && w in Neighbors(g, u) ==> w in s
  }

  /**
   * d maps exactly the nodes reachable from source to their hop counts:
   * it holds source, no edge leaves its key set, and each value is shortest.
   */
  ghost predicate IsDistanceMap(g: Graph, source: Node, d: map<Node, nat>)
  {
    && source in d
    && ClosedUnder(g, d.Keys)
    && forall v :: v in d ==> IsShortest(g, source, v, d[v])
  }

  lemma {:induction false} WithinMono(g: Graph, source: Node, i: nat, j: nat)
    requires i <= j
    ensures Within(g, source, i) <= Within(g, source, j)
    decreases j
  {
    if i < j {
      WithinMono(g, source, i, j - 1);
    }
  }

  /** One more edge from a node within k hops reaches a node within k + 1 hops. */
  lemma WithinNext(g: Graph, source: Node, k: nat, u: Node, w: Node)
    requires u in Within(g, source, k) && w in Neighbors(g, u)
    ensures w in Within(g, source, k + 1)
  {
    StepMember(g, Within(g, source, k), w);
  }

  /** A node first found within k + 1 hops is a neighbour of a node within k hops. */
  lemma WithinFrom(g: Graph, source: Node, k: nat, w: Node)
    requires w in Within(g, source, k + 1) && w !in Within(g, source, k)
    ensures exists u :: u in Within(g, source, k) && w in Neighbors(g, u)
  {
    StepMember(g, Within(g, source, k), w);
  }

  /** A shortest hop count is at most any bound within which the node lies. */
  lemma ShortestAtMost(g: Graph, source: Node, v: Node, d: nat, k: nat)
    requires IsShortest(g, source, v, d)
    requires v in Within(g, source, k)
    ensures d <= k
  {
    if d > k {
      WithinMono(g, source, k, d - 1);
    }
  }

  /** Every set that holds the source and that no edge leaves holds all nodes reachable from it. */
  lemma {:induction false} WithinClosed(g: Graph, source: Node, c: set<Node>, k: nat)
    requires source in c && ClosedUnder(g, c)
    ensures Within(g, source, k) <= c
  {
    if k > 0 {
      WithinClosed(g, source, c, k - 1);
      forall w | w in Step(g, Within(g, source, k - 1))
        ensures w in c
      {
        StepMember(g, Within(g, source, k - 1), w);
      }
    }
  }

  /** There is at most one distance map from a source. */
  lemma DistanceMapUnique(g: Graph, source: Node, d1: map<Node, nat>, d2: map<Node, nat>)
    requires IsDistanceMap(g, source, d1) && IsDistanceMap(g, source, d2)
    ensures d1 == d2
  {
    forall v | v in d1
      ensures v in d2 && d2[v] == d1[v]
    {
      WithinClosed(g, source, d2.Keys, d1[v]);
      ShortestAtMost(g, source, v, d2[v], d1[v]);
      ShortestAtMost(g, source, v, d1[v], d2[v]);
    }
    forall v | v in d2
      ensures v in d1
    {
      WithinClosed(g, source, d1.Keys, d2[v]);
    }
  }

  /** The source is at distance 0. */
  lemma DistanceMapSource(g: Graph, source: Node, d: map<Node, nat>)
    requires IsDistanceMap(g, source, d)
    ensures d[source] == 0
  {
    ShortestAtMost(g, source, source, d[source], 0);
  }

  /** Every other node is one edge beyond a node whose distance is one less. */
  lemma DistanceMapParent(g: Graph, source: Node, d: map<Node, nat>, v: Node)
    requires IsDistanceMap(g, source, d)
    requires v in d && d[v] > 0
    ensures exists u :: u in d && v in Neighbors(g, u) && d[u] + 1 == d[v]
  {
    WithinFrom(g, source, d[v] - 1, v);
    var u :| u in Within(g, source, d[v] - 1) && v in Neighbors(g, u);
    WithinClosed(g, source, d.Keys, d[v] - 1);
    ParentDistance(g, source, d, v, u);
  }

  lemma ParentDistance(g: Graph, source: Node, d: map<Node, nat>, v: Node, u: Node)
    requires IsDistanceMap(g, source, d)
    requires v in d && d[v] > 0 && u in d
    requires u in Within(g, source, d[v] - 1) && v in Neighbors(g, u)
    ensures d[u] + 1 == d[v]
  {
    ShortestAtMost(g, source, u, d[u], d[v] - 1);
    assert IsShortest(g, source, u, d[u]);
    WithinNext(g, source, d[u], u, v);
    ShortestAtMost(g, source, v, d[v], d[u] + 1);
  }

  /** Crossing an edge adds at most one hop. */
  lemma DistanceMapEdge(g: Graph, source: Node, d: map<Node, nat>, u: Node, w: Node)
    requires IsDistanceMap(g, source, d)
    requires u in d && w in Neighbors(g, u)
    ensures w in d && d[w] <= d[u] + 1
  {
    WithinNext(g, source, d[u], u, w);
    ShortestAtMost(g, source, w, d[w], d[u] + 1);
  }

  /** From a node that is not a key only the node itself is reachable, at distance 0. */
  lemma DistanceMapAbsentSource(g: Graph, source: Node, d: map<Node, nat>)
    requires IsDistanceMap(g, source, d)
    requires source !in g
    ensures d == map[source := 0]
  {
    assert ClosedUnder(g, {source});
    forall v | v in d
      ensures v == source
    {
      WithinClosed(g, source, {source}, d[v]);
    }
    DistanceMapSource(g, source, d);
  }

  /** The nodes a traversal from source can ever touch. */
  ghost function Universe(g: Graph, source: Node): set<Node>
  {
    {source} + Step(g, g.Keys)
  }

  /** Every visited node carries its shortest hop count; only nodes of the universe are visited. */
  ghost predicate Distances(g: Graph, source: Node, dist: map<Node, nat>)
  {
    && source in dist
    && dist.Keys <= Universe(g, source)
    && forall v :: v in dist ==> IsShortest(g, source, v, dist[v])
  }

  /**
   * The queue holds, once each, exactly the visited nodes that are not
   * finished, by non-decreasing hop count, each at level or level + 1.
   */
  ghost predicate QueueOrder(dist: map<Node, nat>, done: set<Node>, queue: seq<Node>, level: nat)
  {
    && done <= dist.Keys
    && (forall i :: 0 <= i < |queue| ==> queue[i] in dist && queue[i] !in done)
    && Distinct(queue)
    && (forall v :: v in dist ==> v in done || v in queue)
    && (forall i, j :: 0 <= i <= j < |queue| ==> dist[queue[i]] <= dist[queue[j]])
    && (forall i :: 0 <= i < |queue| ==> level <= dist[queue[i]] <= level + 1)
  }

  /**
   * Finished nodes lie at most level hops away and have all their neighbours
   * visited, except the neighbours of cur that are still pending.
   */
  ghost predicate Finished(g: Graph, dist: map<Node, nat>, done: set<Node>, level: nat,
                           cur: Node, pending: set<Node>)
  {
    && done <= dist.Keys
    && (forall v :: v in done ==> dist[v] <= level)
    && (forall v :: v in done && v != cur ==> Neighbors(g, v) <= dist.Keys)
    && (cur in done ==> Neighbors(g, cur) - pending <= dist.Keys)
  }

  /**
   * The state of a breadth-first search from source: dist holds the visited
   * nodes with their hop counts, done the nodes taken off the queue, queue
   * the nodes still waiting, and every node within level hops is visited.
   */
  ghost predicate BfsScan(g: Graph, source: Node, dist: map<Node, nat>, done: set<Node>,
                          queue: seq<Node>, level: nat, cur: Node, pending: set<Node>)
  {
    && Distances(g, source, dist)
    && QueueOrder(dist, done, queue, level)
    && Finished(g, dist, done, level, cur, pending)
    && Within(g, source, level) <= dist.Keys
  }

  /** The search starts with the source visited, queued, at distance 0. */
  lemma BfsInit(g: Graph, source: Node)
    ensures BfsScan(g, source, map[source := 0], {}, [source], 0, source, {})
  {
  }

  /**
   * Taking the head c off the queue: c was not finished before, the level
   * becomes c's hop count, and all of c's neighbours are pending.
   */
  lemma BfsPop(g: Graph, source: Node, dist: map<Node, nat>, done: set<Node>,
               queue: seq<Node>, level: nat, cur: Node)
    requires BfsScan(g, source, dist, done, queue, level, cur, {})
    requires queue != []
    ensures queue[0] !in done && queue[0] in Universe(g, source)
    ensures |Universe(g, source) - (done + {queue[0]})| < |Universe(g, source) - done|
    ensures BfsScan(g, source, dist, done + {queue[0]}, queue[1..], dist[queue[0]],
                    queue[0], Neighbors(g, queue[0]))
  {
    PopQueue(dist, done, queue, level);
    assert Universe(g, source) - (done + {queue[0]}) == (Universe(g, source) - done) - {queue[0]};
    PopFinished(g, dist, done, level, cur, queue[0]);
    PopFrontier(g, source, dist, done, queue, level, cur);
  }

  lemma PopQueue(dist: map<Node, nat>, done: set<Node>, queue: seq<Node>, level: nat)
    requires QueueOrder(dist, done, queue, level) && queue != []
    ensures queue[0] in dist && queue[0] !in done && level <= dist[queue[0]] <= level + 1
    ensures QueueOrder(dist, done + {queue[0]}, queue[1..], dist[queue[0]])
  {
    var c := queue[0];
    forall v | v in dist
      ensures v in done + {c} || v in queue[1..]
    {
      if v !in done {
        var i :| 0 <= i < |queue| && queue[i] == v;
        if i > 0 {
          assert queue[1..][i - 1] == v;
        }
      }
    }
    forall i | 0 <= i < |queue[1..]|
      ensures dist[queue[0]] <= dist[queue[1..][i]] <= dist[queue[0]] + 1
    {
      assert queue[1..][i] == queue[i + 1];
    }
  }

  lemma PopFinished(g: Graph, dist: map<Node, nat>, done: set<Node>, level: nat, cur: Node, c: Node)
    requires Finished(g, dist, done, level, cur, {})
    requires c in dist && c !in done && level <= dist[c]
    ensures Finished(g, dist, done + {c}, dist[c], c, Neighbors(g, c))
  {
  }

  lemma PopFrontier(g: Graph, source: Node, dist: map<Node, nat>, done: set<Node>,
                    queue: seq<Node>, level: nat, cur: Node)
    requires BfsScan(g, source, dist, done, queue, level, cur, {})
    requires queue != []
    ensures Within(g, source, dist[queue[0]]) <= dist.Keys
  {
    var next := dist[queue[0]];
    assert level <= next <= level + 1;
    if next == level + 1 {
      var keys := dist.Keys;
      forall u | u in Within(g, source, level)
        ensures Neighbors(g, u) <= keys
      {
        FinishedWithin(g, source, dist, done, queue, level, cur, u);
      }
      WithinGrow(g, source, level, keys);
    }
  }

  /** If the nodes within k hops and all their neighbours lie in s, so do the nodes within k + 1 hops. */
  lemma WithinGrow(g: Graph, source: Node, k: nat, s: set<Node>)
    requires Within(g, source, k) <= s
    requires forall u :: u in Within(g, source, k) ==> Neighbors(g, u) <= s
    ensures Within(g, source, k + 1) <= s
  {
    forall w | w in Within(g, source, k + 1)
      ensures w in s
    {
      if w !in Within(g, source, k) {
        WithinFrom(g, source, k, w);
      }
    }
  }

  /** When the head is one level further on, every node within level hops is finished. */
  lemma FinishedWithin(g: Graph, source: Node, dist: map<Node, nat>, done: set<Node>,
                       queue: seq<Node>, level: nat, cur: Node, u: Node)
    requires BfsScan(g, source, dist, done, queue, level, cur, {})
    requires queue != [] && dist[queue[0]] == level + 1
    requires u in Within(g, source, level)
    ensures u in done && Neighbors(g, u) <= dist.Keys
  {
    assert u in dist;
    ShortestAtMost(g, source, u, dist[u], level);
    forall i | 0 <= i < |queue|
      ensures queue[i] != u
    {
      assert dist[queue[0]] <= dist[queue[i]];
    }
  }

  /** Looking at a pending neighbour w that is already visited changes nothing else. */
  lemma BfsSkip(g: Graph, source: Node, dist: map<Node, nat>, done: set<Node>,
                queue: seq<Node>, level: nat, cur: Node, pending: set<Node>, w: Node)
    requires BfsScan(g, source, dist, done, queue, level, cur, pending)
    requires w in dist
    ensures BfsScan(g, source, dist, done, queue, level, cur, pending - {w})
  {
  }

  /**
   * Looking at a pending neighbour w of cur that is not yet visited: w is
   * marked visited at one hop beyond cur and queued at the back.
   */
  lemma BfsDiscover(g: Graph, source: Node, dist: map<Node, nat>, done: set<Node>,
                    queue: seq<Node>, level: nat, cur: Node, pending: set<Node>, w: Node)
    requires BfsScan(g, source, dist, done, queue, level, cur, pending)
    requires cur in dist && dist[cur] == level
    requires w in Neighbors(g, cur) && w !in dist
    ensures BfsScan(g, source, dist[w := level + 1], done, queue + [w], level, cur, pending - {w})
  {
    DiscoverDistances(g, source, dist, level, cur, w);
    DiscoverQueue(dist, done, queue, level, w);
    DiscoverFinished(g, dist, done, level, cur, pending, w);
    assert Within(g, source, level) <= dist[w := level + 1].Keys;
  }

  lemma DiscoverFinished(g: Graph, dist: map<Node, nat>, done: set<Node>, level: nat,
                         cur: Node, pending: set<Node>, w: Node)
    requires Finished(g, dist, done, level, cur, pending) && w !in dist
    ensures Finished(g, dist[w := level + 1], done, level, cur, pending - {w})
  {
    var dist' := dist[w := level + 1];
    forall v | v in done
      ensures dist'[v] == dist[v]
    {
      assert v != w;
    }
  }

  lemma DiscoverDistances(g: Graph, source: Node, dist: map<Node, nat>, level: nat, cur: Node, w: Node)
    requires Distances(g, source, dist) && Within(g, source, level) <= dist.Keys
    requires cur in dist && dist[cur] == level
    requires w in Neighbors(g, cur) && w !in dist
    ensures Distances(g, source, dist[w := level + 1])
  {
    var dist' := dist[w := level + 1];
    assert IsShortest(g, source, cur, level);
    WithinNext(g, source, level, cur, w);
    StepMember(g, g.Keys, w);
    forall v | v in dist'
      ensures IsShortest(g, source, v, dist'[v])
    {
      if v != w {
        assert dist'[v] == dist[v];
      }
    }
  }

  lemma DiscoverQueue(dist: map<Node, nat>, done: set<Node>, queue: seq<Node>, level: nat, w: Node)
    requires QueueOrder(dist, done, queue, level) && w !in dist
    ensures QueueOrder(dist[w := level + 1], done, queue + [w], level)
  {
    var dist' := dist[w := level + 1];
    var queue' := queue + [w];
    forall i | 0 <= i < |queue'|
      ensures queue'[i] in dist' && queue'[i] !in done
      ensures level <= dist'[queue'[i]] <= level + 1
    {
      if i < |queue| {
        assert queue'[i] == queue[i];
      }
    }
    forall i, j | 0 <= i <= j < |queue'|
      ensures dist'[queue'[i]] <= dist'[queue'[j]]
    {
      if j < |queue| {
        assert queue'[i] == queue[i] && queue'[j] == queue[j];
      } else if i < |queue| {
        assert queue'[i] == queue[i];
      }
    }
    forall i, j | 0 <= i < j < |queue'|
      ensures queue'[i] != queue'[j]
    {
      if j < |queue| {
        assert queue'[i] == queue[i] && queue'[j] == queue[j];
      } else {
        assert queue'[i] == queue[i];
      }
    }
    forall v | v in dist'
      ensures v in done || v in queue'
    {
      if v != w && v !in done {
        var i :| 0 <= i < |queue| && queue[i] == v;
        assert queue'[i] == v;
      }
    }
  }

  /** An empty queue: every visited node is finished and the visited nodes form the distance map. */
  lemma BfsFinish(g: Graph, source: Node, dist: map<Node, nat>, done: set<Node>, level: nat, cur: Node)
    requires BfsScan(g, source, dist, done, [], level, cur, {})
    ensures done == dist.Keys
    ensures IsDistanceMap(g, source, dist)
  {
  }

  /**
   * Appending a newly visited node w at hop count d keeps the queue's pairs
   * in step with the hop counts, and the finished nodes' total.
   */
  lemma QueueAppend(dist: map<Node, nat>, done: set<Node>, queue: seq<(Node, nat)>, nodes: seq<Node>, w: Node, d: nat)
    requires w !in dist && done <= dist.Keys
    requires InStep(queue, nodes, dist)
    ensures Restrict(dist[w := d], done) == Restrict(dist, done)
    ensures InStep(queue + [(w, d)], nodes + [w], dist[w := d])
  {
    var q, n := queue + [(w, d)], nodes + [w];
    forall i | 0 <= i < |q|
      ensures n[i] in dist[w := d] && q[i] == (n[i], dist[w := d][n[i]])
    {
      if i < |queue| {
        assert n[i] == nodes[i] && q[i] == queue[i];
      }
    }
  }

  /**
   * The total hop count of a search is at least the number of nodes reached
   * besides the source, and it is zero exactly when the source reaches nothing.
   */
  lemma SeparationTotal(g: Graph, source: Node, d: map<Node, nat>)
    requires IsDistanceMap(g, source, d)
    ensures SumValues(d) + 1 >= |d|
    ensures SumValues(d) == 0 <==> d == map[source := 0]
  {
    DistanceMapSource(g, source, d);
    SumValuesRemove(d, source);
    var rest := d - {source};
    assert Within(g, source, 0) == {source};
    forall v | v in rest
      ensures rest[v] >= 1
    {
      assert v != source && v in Within(g, source, d[v]);
    }
    SumValuesPositive(rest);
    if SumValues(d) == 0 {
      assert rest.Keys == {};
      assert d == map[source := 0];
    }
  }

  /**
   * Breadth-first search from start that adds up the hop counts of every node
   * it reaches; the average degree of separation is the quotient
   * totalDistance / reachable, returned here as its two integer parts.
   */
  method ComputeAvgDegreesOfSeparation(g: Graph, start: Node) returns (totalDistance: nat, reachable: nat)
    ensures reachable >= 1
    ensures exists d :: IsDistanceMap(g, start, d) && reachable == |d| && totalDistance == SumValues(d)
    ensures start !in g ==> totalDistance == 0 && reachable == 1
  {
    var visited: set<Node> := {start};
    var queue: seq<(Node, nat)> := [(start, 0)];
    totalDistance, reachable := 0, 0;
    // The ghost state of the search: hop counts, finished nodes, the queue's nodes.
    ghost var dist: map<Node, nat> := map[start := 0];
    ghost var done: set<Node> := {};
    ghost var nodes: seq<Node> := [start];
    ghost var level: nat, cur: Node := 0, start;
    BfsInit(g, start);
    while queue != []
      invariant BfsScan(g, start, dist, done, nodes, level, cur, {})
      invariant visited == dist.Keys
      invariant InStep(queue, nodes, dist)
      invariant reachable == |done| && totalDistance == SumValues(Restrict(dist, done))
      decreases |Universe(g, start) - done|
    {
      var current, distance := queue[0].0, queue[0].1;
      InStepPop(queue, nodes, dist);
      queue := queue[1..];
      BfsPop(g, start, dist, done, nodes, level, cur);
      RestrictAdd(dist, done, current);
      totalDistance := totalDistance + distance;
      reachable := reachable + 1;
      done, nodes, level, cur := done + {current}, nodes[1..], distance, current;
      if current in g {
        visited, queue, dist, nodes := EnqueueNeighbors(g, start, current, distance, visited, queue, dist, done, nodes);
      }
    }
    SeparationResult(g, start, dist, done, level, cur);
    assert IsDistanceMap(g, start, dist) && reachable == |dist| && totalDistance == SumValues(dist);
  }

  /** When the search of ComputeAvgDegreesOfSeparation stops, the finished nodes carry a distance map. */
  lemma SeparationResult(g: Graph, start: Node, dist: map<Node, nat>, done: set<Node>, level: nat, cur: Node)
    requires BfsScan(g, start, dist, done, [], level, cur, {})
    ensures IsDistanceMap(g, start, dist) && Restrict(dist, done) == dist && |done| == |dist|
    ensures start !in g ==> SumValues(dist) == 0 && |dist| == 1
  {
    BfsFinish(g, start, dist, done, level, cur);
    assert Restrict(dist, done) == dist;
    if start !in g {
      DistanceMapAbsentSource(g, start, dist);
      SumValuesRemove(dist, start);
    }
  }

  lemma InStepPop(queue: seq<(Node, nat)>, nodes: seq<Node>, dist: map<Node, nat>)
    requires InStep(queue, nodes, dist) && queue != []
    ensures nodes != [] && queue[0] == (nodes[0], dist[nodes[0]])
    ensures InStep(queue[1..], nodes[1..], dist)
  {
  }

  /** The queue of (node, hop count) pairs lists the nodes of `nodes` with their hop counts. */
  ghost predicate InStep(queue: seq<(Node, nat)>, nodes: seq<Node>, dist: map<Node, nat>)
  {
    |nodes| == |queue| && forall i :: 0 <= i < |queue| ==> nodes[i] in dist && queue[i] == (nodes[i], dist[nodes[i]])
  }

  /**
   * The inner loop of the search above: every neighbour of current not yet
   * visited is marked visited and queued one hop beyond current.
   */
  method EnqueueNeighbors(g: Graph, start: Node, current: Node, distance: nat,
                          visited0: set<Node>, queue0: seq<(Node, nat)>,
                          ghost dist0: map<Node, nat>, ghost done: set<Node>, ghost nodes0: seq<Node>)
    returns (visited: set<Node>, queue: seq<(Node, nat)>, ghost dist: map<Node, nat>, ghost nodes: seq<Node>)
    requires current in g && current in done
    requires BfsScan(g, start, dist0, done, nodes0, distance, current, g[current])
    requires current in dist0 && dist0[current] == distance
    requires visited0 == dist0.Keys && InStep(queue0, nodes0, dist0)
    ensures BfsScan(g, start, dist, done, nodes, distance, current, {})
    ensures visited == dist.Keys && InStep(queue, nodes, dist)
    ensures Restrict(dist, done) == Restrict(dist0, done)
  {
    visited, queue, dist, nodes := visited0, queue0, dist0, nodes0;
    var rest := g[current];
    while rest != {}
      invariant BfsScan(g, start, dist, done, nodes, distance, current, rest)
      invariant current in dist && dist[current] == distance && rest <= g[current]
      invariant visited == dist.Keys && InStep(queue, nodes, dist)
      invariant Restrict(dist, done) == Restrict(dist0, done)
      decreases |rest|
    {
      var neighbor :| neighbor in rest;
      ghost var pending := rest;
      rest := rest - {neighbor};
      if neighbor !in visited {
        BfsDiscover(g, start, dist, done, nodes, distance, current, pending, neighbor);
        QueueAppend(dist, done, queue, nodes, neighbor, distance + 1);
        visited := visited + {neighbor};
        queue := queue + [(neighbor, distance + 1)];
        dist := dist[neighbor := distance + 1];
        nodes := nodes + [neighbor];
      } else {
        BfsSkip(g, start, dist, done, nodes, distance, current, pending, neighbor);
      }
    }
  }

  /**
   * Breadth-first search from start recording every reached node's hop count.
   * Every neighbour met must itself be a key: the source looks each dequeued
   * node up and fails when it is missing.
   */
  method DistancesFrom(g: Graph, start: Node) returns (distances: map<Node, nat>)
    requires Closed(g) && start in g
    ensures IsDistanceMap(g, start, distances)
    ensures distances.Keys <= g.Keys
  {
    var visited: set<Node> := {start};
    var queue: seq<Node> := [start];
    distances := map[start := 0];
    ghost var done: set<Node> := {};
    ghost var level: nat, cur: Node := 0, start;
    BfsInit(g, start);
    while queue != []
      invariant BfsScan(g, start, distances, done, queue, level, cur, {})
      invariant visited == distances.Keys && visited <= g.Keys
      decreases |Universe(g, start) - done|
    {
      var current := queue[0];
      BfsPop(g, start, distances, done, queue, level, cur);
      queue := queue[1..];
      var currentDistance := distances[current];
      done, level, cur := done + {current}, currentDistance, current;
      visited, queue, distances := VisitNeighbors(g, start, current, visited, queue, distances, done);
    }
    BfsFinish(g, start, distances, done, level, cur);
  }

  /**
   * The inner loop of the search above: every neighbour of current not yet
   * visited is marked visited, queued, and given a hop count one above
   * current's.
   */
  method VisitNeighbors(g: Graph, start: Node, current: Node, visited0: set<Node>, queue0: seq<Node>,
                        distances0: map<Node, nat>, ghost done: set<Node>)
    returns (visited: set<Node>, queue: seq<Node>, distances: map<Node, nat>)
    requires Closed(g) && current in g && current in distances0
    requires BfsScan(g, start, distances0, done, queue0, distances0[current], current, g[current])
    requires visited0 == distances0.Keys && visited0 <= g.Keys
    ensures BfsScan(g, start, distances, done, queue, distances0[current], current, {})
    ensures visited == distances.Keys && visited <= g.Keys
  {
    visited, queue, distances := visited0, queue0, distances0;
    var currentDistance := distances0[current];
    var rest := g[current];
    while rest != {}
      invariant BfsScan(g, start, distances, done, queue, currentDistance, current, rest)
      invariant visited == distances.Keys && visited <= g.Keys
      invariant current in distances && distances[current] == currentDistance && rest <= g[current]
      decreases |rest|
    {
      var neighbor :| neighbor in rest;
      ghost var pending := rest;
      rest := rest - {neighbor};
      if neighbor !in visited {
        BfsDiscover(g, start, distances, done, queue, currentDistance, current, pending, neighbor);
        visited := visited + {neighbor};
        queue := queue + [neighbor];
        distances := distances[neighbor := currentDistance + 1];
      } else {
        BfsSkip(g, start, distances, done, queue, currentDistance, current, pending, neighbor);
      }
    }
  }
}
