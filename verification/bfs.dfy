/** Breadth-first search over the Bacon-game graph from one start node: the
    predecessor map and the byte-valued distance map it fills in, and the
    queries answered from them (is a node reachable, a shortest path to it,
    and its distance halved, as the number of actor-to-actor steps). */
module Bfs {
  import opened Wrappers
  import opened Graphs

  /** Java's byte. */
  newtype Byte = b: int | -128 <= b < 128

  const ByteMax: Byte := 127

  /** The narrowing conversion (byte) n: n modulo 256, read in the range of
      a byte. */
  function ToByte(n: int): (b: Byte)
    ensures (b as int - n) % 256 == 0
    ensures -128 <= n < 128 ==> b as int == n
  {
    ((n + 128) % 256 - 128) as Byte
  }

  /** Narrowing commutes with adding one, so a byte counter that is bumped
      holds the narrowed count. */
  lemma ToByteStep(n: int)
    ensures ToByte(ToByte(n) as int + 1) == ToByte(n + 1)
  {
    var q, m := (n + 128) / 256, (n + 128) % 256;
    assert ToByte(n) as int == m - 128;
    if m == 255 {
      assert n + 129 == 256 * (q + 1);
    } else {
      assert n + 129 == 256 * q + (m + 1);
    }
  }

  /** Java's int division by two, which truncates toward zero: the remainder
      is at most one in size and takes the sign of the dividend. */
  function Half(n: int): (h: int)
    ensures -1 <= n - 2 * h <= 1
    ensures n >= 0 ==> 0 <= n - 2 * h
    ensures n <= 0 ==> n - 2 * h <= 0
  {
    if n >= 0 then n / 2 else -((-n) / 2)
  }

  // ---------------------------------------------------------------------
  // Walks and reachability.
  // ---------------------------------------------------------------------

  /** p is a walk: a non-empty sequence whose consecutive entries are
      neighbours. */
  ghost predicate IsWalk(adj: Adjacency, p: seq<string>)
  {
    |p| > 0 && forall i :: 0 <= i < |p| - 1 ==> p[i] in adj && p[i + 1] in adj[p[i]]
  }

  ghost predicate Reachable(adj: Adjacency, s: string, t: string)
  {
    exists p :: IsWalk(adj, p) && p[0] == s && p[|p| - 1] == t
  }

  /** No walk from start reaches a node the distance map lacks, or reaches a
      node in fewer steps than its recorded distance. */
  ghost predicate NoShorterWalk(adj: Adjacency, start: string, dist: map<string, nat>)
  {
    forall p :: IsWalk(adj, p) && p[0] == start ==> p[|p| - 1] in dist && dist[p[|p| - 1]] <= |p| - 1
  }

  /** The predecessor map is a tree rooted at start: every other visited
      node has a visited predecessor, one step nearer, that lists it as a
      neighbour. */
  ghost predicate PredecessorTree(adj: Adjacency, start: string, previous: map<string, string>, dist: map<string, nat>)
  {
    && start in dist && dist[start] == 0 && start !in previous
    && (forall v :: v in dist ==> v in adj)
    && (forall v :: v in dist && v != start ==> v in previous)
    && (forall v :: v in previous ==>
          v in dist && previous[v] in dist && previous[v] in adj
          && v in adj[previous[v]] && dist[v] == dist[previous[v]] + 1)
  }

  /** The byte-valued distance map holds the narrowed distances. */
  ghost predicate Stores(distanceMap: map<string, Byte>, dist: map<string, nat>)
  {
    (forall v :: v in distanceMap <==> v in dist) && forall v :: v in dist ==> distanceMap[v] == ToByte(dist[v])
  }

  /** u has been expanded: all its neighbours are visited, at most one step
      further than u. */
  ghost predicate Explored(adj: Adjacency, dist: map<string, nat>, u: string)
  {
    u in adj && u in dist && forall x :: x in adj[u] ==> x in dist && dist[x] <= dist[u] + 1
  }

  /** The queue holds distinct visited nodes in order of distance. */
  ghost predicate Ordered(dist: map<string, nat>, queue: seq<string>)
  {
    && (forall i :: 0 <= i < |queue| ==> queue[i] in dist)
    && (forall i, j :: 0 <= i < j < |queue| ==> queue[i] != queue[j] && dist[queue[i]] <= dist[queue[j]])
  }

  /** The breadth-first frontier: ordered, and no visited node lies more
      than one step beyond its head. */
  ghost predicate Frontier(dist: map<string, nat>, queue: seq<string>)
  {
    Ordered(dist, queue) && (|queue| > 0 ==> forall v :: v in dist ==> dist[v] <= dist[queue[0]] + 1)
  }

  /** Polling the head of a frontier leaves an ordered queue whose entries
      are at least as far as the polled node, and nothing visited beyond one
      step past it. */
  lemma FrontierTail(dist: map<string, nat>, current: string, queue: seq<string>)
    requires Frontier(dist, [current] + queue)
    ensures current in dist && Layered(dist, current, dist[current], queue)
  {
    var polled := [current] + queue;
    forall i | 0 <= i < |queue|
      ensures queue[i] == polled[i + 1]
    {
    }
    assert polled[0] == current;
  }

  /** Polling the head of the frontier starts the inner loop in its
      invariant. */
  lemma PolledIsExpanding(adj: Adjacency, start: string, current: string, queue: seq<string>,
                          previous: map<string, string>, distances: map<string, Byte>, dist: map<string, nat>)
    requires PredecessorTree(adj, start, previous, dist) && Stores(distances, dist)
    requires current in dist && Frontier(dist, [current] + queue)
    requires forall u :: u in dist && u !in [current] + queue ==> Explored(adj, dist, u)
    ensures Expanding(adj, start, current, dist[current], queue, previous, distances, dist)
  {
    FrontierTail(dist, current, queue);
    forall u | u in dist && u !in queue && u != current
      ensures Explored(adj, dist, u)
    {
      assert u !in [current] + queue;
    }
  }

  /** Taking one element out of a set makes it one smaller. */
  lemma RemoveOne(s: set<string>, x: string)
    requires x in s
    ensures |s - {x}| < |s|
  {
  }

  /** Once every visited node is explored, no walk from start escapes the
      visited nodes or beats their distances. */
  lemma {:induction false} ExploredBoundsWalk(adj: Adjacency, start: string, dist: map<string, nat>, p: seq<string>)
    requires start in dist && dist[start] == 0
    requires forall u :: u in dist ==> Explored(adj, dist, u)
    requires IsWalk(adj, p) && p[0] == start
    ensures p[|p| - 1] in dist && dist[p[|p| - 1]] <= |p| - 1
  {
    if |p| > 1 {
      var q := p[..|p| - 1];
      assert IsWalk(adj, q) by {
        forall i | 0 <= i < |q| - 1
          ensures q[i] in adj && q[i + 1] in adj[q[i]]
        {
          assert q[i] == p[i] && q[i + 1] == p[i + 1];
        }
      }
      ExploredBoundsWalk(adj, start, dist, q);
      assert Explored(adj, dist, p[|p| - 2]);
      assert p[|p| - 1] in adj[p[|p| - 2]];
    }
  }

  lemma ExploredBoundsWalks(adj: Adjacency, start: string, dist: map<string, nat>)
    requires start in dist && dist[start] == 0
    requires forall u :: u in dist ==> Explored(adj, dist, u)
    ensures NoShorterWalk(adj, start, dist)
  {
    forall p | IsWalk(adj, p) && p[0] == start
      ensures p[|p| - 1] in dist && dist[p[|p| - 1]] <= |p| - 1
    {
      ExploredBoundsWalk(adj, start, dist, p);
    }
  }

  /** Following predecessors back from a visited node gives a walk from
      start of exactly its distance. */
  lemma {:induction false} ReachedIsReachable(adj: Adjacency, start: string, previous: map<string, string>, dist: map<string, nat>, v: string)
    requires PredecessorTree(adj, start, previous, dist) && v in dist
    decreases dist[v]
    ensures exists p :: IsWalk(adj, p) && p[0] == start && p[|p| - 1] == v && |p| == dist[v] + 1
  {
    if v == start {
      assert IsWalk(adj, [start]);
    } else {
      var u := previous[v];
      ReachedIsReachable(adj, start, previous, dist, u);
      var p :| IsWalk(adj, p) && p[0] == start && p[|p| - 1] == u && |p| == dist[u] + 1;
      var p' := p + [v];
      assert IsWalk(adj, p') by {
        forall i | 0 <= i < |p'| - 1
          ensures p'[i] in adj && p'[i + 1] in adj[p'[i]]
        {
          if i < |p| - 1 {
            assert p'[i] == p[i] && p'[i + 1] == p[i + 1];
          }
        }
      }
    }
  }

  /** With a predecessor tree and no shorter walks, the visited nodes are
      exactly the nodes reachable from start, and each recorded distance is
      the length of a shortest walk. */
  lemma ReachableIffVisited(adj: Adjacency, start: string, previous: map<string, string>, dist: map<string, nat>, v: string)
    requires PredecessorTree(adj, start, previous, dist) && NoShorterWalk(adj, start, dist)
    ensures Reachable(adj, start, v) <==> v in dist
    ensures v in dist ==> exists p :: IsWalk(adj, p) && p[0] == start && p[|p| - 1] == v && |p| == dist[v] + 1
  {
    if v in dist {
      ReachedIsReachable(adj, start, previous, dist, v);
    }
  }

  /** The reverse of a sequence; Collections.reverse on the path list. */
  function Reversed(s: seq<string>): (r: seq<string>)
    ensures |r| == |s|
    ensures forall i :: 0 <= i < |s| ==> r[i] == s[|s| - 1 - i]
  {
    if s == [] then [] else Reversed(s[1..]) + [s[0]]
  }

  /** The inner loop of the search over the neighbours of the polled node,
      in the hash set's unspecified order: each neighbour without a distance
      is queued and recorded with the polled node as predecessor and one more
      than its distance. Afterwards every neighbour has a distance, the
      frontier is kept and the polled node is explored. */
  method ExploreNeighbours(ghost adj: Adjacency, ghost start: string, current: string, neighbours: set<string>,
                           queue: seq<string>, previous: map<string, string>, distances: map<string, Byte>,
                           ghost dist: map<string, nat>)
    returns (queue': seq<string>, previous': map<string, string>, distances': map<string, Byte>,
             ghost dist': map<string, nat>)
    requires Closed(adj) && current in adj && neighbours == adj[current]
    requires PredecessorTree(adj, start, previous, dist) && Stores(distances, dist)
    requires current in dist && Frontier(dist, [current] + queue)
    requires forall u :: u in dist && u !in [current] + queue ==> Explored(adj, dist, u)
    ensures PredecessorTree(adj, start, previous', dist') && Stores(distances', dist')
    ensures forall v :: v in dist' <==> v in dist || v in neighbours
    ensures forall v :: v in dist ==> dist'[v] == dist[v]
    ensures forall v :: v in dist' && v !in dist ==> dist'[v] == dist[current] + 1 && previous'[v] == current
    ensures Frontier(dist', queue')
    ensures forall u :: u in dist' && u !in queue' ==> Explored(adj, dist', u)
    ensures |dist'| - |queue'| == |dist| - |queue|
    ensures |queue| <= |queue'| && queue'[..|queue|] == queue
    ensures forall v :: v in queue'[|queue|..] <==> v in dist' && v !in dist
    ensures forall i, j :: |queue| <= i < j < |queue'| ==> queue'[i] != queue'[j]
  {
    ghost var c := dist[current];
    PolledIsExpanding(adj, start, current, queue, previous, distances, dist);
    queue', previous', distances', dist' := queue, previous, distances, dist;
    var rest := neighbours;
    while rest != {}
      invariant Expanding(adj, start, current, c, queue', previous', distances', dist')
      invariant Grown(dist, current, c, neighbours, rest, previous', dist')
      invariant |dist'| - |queue'| == |dist| - |queue|
      invariant Appended(queue, dist, queue', dist')
      decreases |rest|
    {
      var adjNode :| adjNode in rest;
      if adjNode !in distances' {
        VisitKeepsExpanding(adj, start, current, c, queue', previous', distances', dist', adjNode);
        VisitKeepsGrown(dist, current, c, neighbours, rest, previous', dist', adjNode);
        AppendKeeps(queue, dist, queue', dist', adjNode, c + 1);
        queue' := queue' + [adjNode];
        previous' := previous'[adjNode := current];
        distances' := distances'[adjNode := ToByte(distances'[current] as int + 1)];
        dist' := dist'[adjNode := c + 1];
      } else {
        SkipKeepsGrown(dist, current, c, neighbours, rest, previous', dist', adjNode);
      }
      RemoveOne(rest, adjNode);
      rest := rest - {adjNode};
    }
    ExpandedAll(adj, start, current, c, neighbours, queue', previous', distances', dist');
  }

  /** The inner loop only appends to the queue it was given: the old queue
      stays its prefix, and the appended part lists each newly visited node
      exactly once. */
  ghost predicate Appended(queue: seq<string>, dist: map<string, nat>, queue': seq<string>, dist': map<string, nat>)
  {
    && |queue| <= |queue'| && queue'[..|queue|] == queue
    && (forall v :: v in queue'[|queue|..] <==> v in dist' && v !in dist)
    && (forall i, j :: |queue| <= i < j < |queue'| ==> queue'[i] != queue'[j])
  }

  /** Queueing a node that has just been visited for the first time keeps
      the queue an append of the old one. */
  lemma AppendKeeps(queue: seq<string>, dist: map<string, nat>, queue': seq<string>, dist': map<string, nat>,
                    x: string, d: nat)
    requires Appended(queue, dist, queue', dist') && x !in dist'
    requires forall v :: v in dist ==> v in dist'
    ensures Appended(queue, dist, queue' + [x], dist'[x := d])
  {
    var q := queue' + [x];
    assert q[..|queue|] == queue' [..|queue|];
    assert q[|queue|..] == queue'[|queue|..] + [x];
  }

  /** What the inner loop has added so far: the neighbours already taken out
      of rest are visited, the old distances are kept, and every new node is
      a neighbour of current at distance c + 1 with current as predecessor. */
  ghost predicate Grown(dist: map<string, nat>, current: string, c: nat, neighbours: set<string>, rest: set<string>,
                        previous': map<string, string>, dist': map<string, nat>)
  {
    && rest <= neighbours
    && (forall v :: v in dist' ==> v in dist || v in neighbours)
    && (forall v :: v in neighbours && v !in rest ==> v in dist')
    && (forall v :: v in dist ==> v in dist' && dist'[v] == dist[v])
    && (forall v :: v in dist' && v !in dist ==> v in previous' && dist'[v] == c + 1 && previous'[v] == current)
  }

  lemma VisitKeepsGrown(dist: map<string, nat>, current: string, c: nat, neighbours: set<string>, rest: set<string>,
                        previous': map<string, string>, dist': map<string, nat>, x: string)
    requires Grown(dist, current, c, neighbours, rest, previous', dist') && x in rest && x !in dist'
    ensures Grown(dist, current, c, neighbours, rest - {x}, previous'[x := current], dist'[x := c + 1])
  {
  }

  lemma SkipKeepsGrown(dist: map<string, nat>, current: string, c: nat, neighbours: set<string>, rest: set<string>,
                       previous': map<string, string>, dist': map<string, nat>, x: string)
    requires Grown(dist, current, c, neighbours, rest, previous', dist') && x in dist'
    ensures Grown(dist, current, c, neighbours, rest - {x}, previous', dist')
  {
  }

  /** Once every neighbour of current has been taken out, the queue is a
      frontier again and current is explored with the nodes expanded before
      it. */
  lemma ExpandedAll(adj: Adjacency, start: string, current: string, c: nat, neighbours: set<string>,
                    queue: seq<string>, previous: map<string, string>, distances: map<string, Byte>,
                    dist: map<string, nat>)
    requires current in adj && neighbours == adj[current]
    requires Expanding(adj, start, current, c, queue, previous, distances, dist)
    requires forall v :: v in neighbours ==> v in dist
    ensures Frontier(dist, queue)
    ensures forall u :: u in dist && u !in queue ==> Explored(adj, dist, u)
  {
    assert Explored(adj, dist, current);
  }

  /** The state of the inner loop while the neighbours of current, at
      distance c, are being visited: a predecessor tree stored in the byte
      map, current taken off an ordered queue whose distances lie between c
      and c + 1, no visited node beyond c + 1, and every visited node that
      is neither queued nor current explored. */
  ghost predicate Expanding(adj: Adjacency, start: string, current: string, c: nat, queue: seq<string>,
                            previous: map<string, string>, distances: map<string, Byte>, dist: map<string, nat>)
  {
    && PredecessorTree(adj, start, previous, dist) && Stores(distances, dist)
    && Layered(dist, current, c, queue)
    && DoneExplored(adj, dist, current, queue)
  }

  /** current, at distance c, is off the ordered queue, the queue holds
      distances c and c + 1 only, and nothing visited lies beyond c + 1. */
  ghost predicate Layered(dist: map<string, nat>, current: string, c: nat, queue: seq<string>)
  {
    && current in dist && dist[current] == c && current !in queue
    && Ordered(dist, queue)
    && (forall i :: 0 <= i < |queue| ==> c <= dist[queue[i]])
    && (forall v :: v in dist ==> dist[v] <= c + 1)
  }

  /** Every visited node that is neither queued nor current is explored. */
  ghost predicate DoneExplored(adj: Adjacency, dist: map<string, nat>, current: string, queue: seq<string>)
  {
    forall u :: u in dist && u !in queue && u != current ==> Explored(adj, dist, u)
  }

  /** Visiting a new neighbour x of current keeps the inner-loop state. */
  lemma VisitKeepsExpanding(adj: Adjacency, start: string, current: string, c: nat, queue: seq<string>,
                            previous: map<string, string>, distances: map<string, Byte>, dist: map<string, nat>,
                            x: string)
    requires Closed(adj) && current in adj && x in adj[current] && x !in distances
    requires Expanding(adj, start, current, c, queue, previous, distances, dist)
    ensures x in adj && x != current
    ensures Expanding(adj, start, current, c, queue + [x], previous[x := current],
                      distances[x := ToByte(distances[current] as int + 1)], dist[x := c + 1])
  {
    TreeGrows(adj, start, previous, dist, current, c, x);
    StoresGrows(distances, dist, current, c, x);
    LayeredGrows(dist, current, c, queue, x);
    DoneExploredGrows(adj, dist, current, queue, x, c + 1);
  }

  lemma StoresGrows(distances: map<string, Byte>, dist: map<string, nat>, current: string, c: nat, x: string)
    requires Stores(distances, dist) && current in dist && dist[current] == c
    ensures Stores(distances[x := ToByte(distances[current] as int + 1)], dist[x := c + 1])
  {
    ToByteStep(c);
  }

  lemma TreeGrows(adj: Adjacency, start: string, previous: map<string, string>, dist: map<string, nat>,
                  current: string, c: nat, x: string)
    requires PredecessorTree(adj, start, previous, dist)
    requires current in dist && dist[current] == c
    requires x in adj && current in adj && x in adj[current] && x !in dist
    ensures PredecessorTree(adj, start, previous[x := current], dist[x := c + 1])
  {
  }

  lemma LayeredGrows(dist: map<string, nat>, current: string, c: nat, queue: seq<string>, x: string)
    requires Layered(dist, current, c, queue) && x !in dist
    ensures Layered(dist[x := c + 1], current, c, queue + [x])
  {
    var q := queue + [x];
    forall i | 0 <= i < |queue|
      ensures q[i] == queue[i]
    {
    }
  }

  lemma DoneExploredGrows(adj: Adjacency, dist: map<string, nat>, current: string, queue: seq<string>,
                          x: string, d: nat)
    requires DoneExplored(adj, dist, current, queue) && x !in dist
    ensures DoneExplored(adj, dist[x := d], current, queue + [x])
  {
    forall u | u in dist[x := d] && u !in queue + [x] && u != current
      ensures Explored(adj, dist[x := d], u)
    {
      ExploredGrows(adj, dist, u, x, d);
    }
  }

  lemma ExploredGrows(adj: Adjacency, dist: map<string, nat>, u: string, x: string, d: nat)
    requires Explored(adj, dist, u) && x !in dist
    ensures Explored(adj, dist[x := d], u)
  {
  }

  /** The visited nodes are nodes of the graph, so there are no more of
      them than nodes. */
  lemma VisitedBounded(adj: Adjacency, dist: map<string, nat>)
    requires forall v :: v in dist ==> v in adj
    ensures |dist| <= |adj|
  {
    assert dist.Keys <= adj.Keys;
    SubsetSize(dist.Keys, adj.Keys);
  }

  lemma {:induction false} SubsetSize(a: set<string>, b: set<string>)
    requires a <= b
    ensures |a| <= |b|
    decreases |b|
  {
    if a != {} {
      var x :| x in a;
      SubsetSize(a - {x}, b - {x});
    }
  }

  /** back lists the predecessor chain from target down to start: each
      entry's predecessor follows it and the entries are one step nearer to
      start each time. */
  ghost predicate Chain(start: string, previous: map<string, string>, dist: map<string, nat>,
                        target: string, back: seq<string>)
  {
    && target in dist && |back| == dist[target] + 1
    && back[0] == target && back[|back| - 1] == start
    && forall i :: 0 <= i < |back| - 1 ==> back[i] in previous && back[i + 1] == previous[back[i]]
  }

  /** What previousMap.get answers: the predecessor, or null (None). */
  function Predecessor(previous: map<string, string>, v: string): (r: Option<string>)
    ensures r.Some? <==> v in previous
    ensures r.Some? ==> r.value == previous[v]
  {
    if v in previous then Some(previous[v]) else None
  }

  /** The loop of pathTo: from target, follow the predecessors while the
      node has a distance, collecting the nodes. */
  method PredecessorChain(previous: map<string, string>, distances: map<string, Byte>, target: string,
                          ghost adj: Adjacency, ghost start: string, ghost dist: map<string, nat>)
    returns (back: seq<string>)
    requires PredecessorTree(adj, start, previous, dist) && Stores(distances, dist)
    ensures target !in dist ==> back == []
    ensures target in dist ==> Chain(start, previous, dist, target, back)
  {
    back := [];
    var current: Option<string> := Some(target);
    while current.Some? && current.value in distances
      invariant back == [] ==> current == Some(target)
      invariant back != [] ==> PartialChain(previous, dist, target, back)
      invariant back != [] ==> current == Predecessor(previous, back[|back| - 1])
      decreases if current.Some? && current.value in dist then dist[current.value] + 1 else 0
    {
      ChainGrows(adj, start, previous, dist, target, back, current.value);
      back := back + [current.value];
      current := Predecessor(previous, current.value);
    }
    if back != [] {
      ChainComplete(adj, start, previous, dist, target, back);
    }
  }

  /** back is a prefix of the predecessor chain from target: each entry is
      one step nearer to start and is followed by its predecessor. */
  ghost predicate PartialChain(previous: map<string, string>, dist: map<string, nat>, target: string, back: seq<string>)
  {
    && |back| > 0 && back[0] == target && target in dist
    && (forall i :: 0 <= i < |back| ==> back[i] in dist && dist[back[i]] + i == dist[target])
    && (forall i :: 0 <= i < |back| - 1 ==> back[i] in previous && back[i + 1] == previous[back[i]])
  }

  /** Appending the next node of the chain keeps it a chain prefix. */
  lemma ChainGrows(adj: Adjacency, start: string, previous: map<string, string>, dist: map<string, nat>,
                   target: string, back: seq<string>, v: string)
    requires PredecessorTree(adj, start, previous, dist) && v in dist
    requires back == [] ==> v == target
    requires back != [] ==> PartialChain(previous, dist, target, back) && Predecessor(previous, back[|back| - 1]) == Some(v)
    ensures PartialChain(previous, dist, target, back + [v])
    ensures v in previous ==> previous[v] in dist && dist[previous[v]] < dist[v]
  {
    var b := back + [v];
    forall i | 0 <= i < |back|
      ensures b[i] == back[i]
    {
    }
  }

  /** A chain prefix whose last node has no predecessor has reached start
      and is the whole chain. */
  lemma ChainComplete(adj: Adjacency, start: string, previous: map<string, string>, dist: map<string, nat>,
                      target: string, back: seq<string>)
    requires PredecessorTree(adj, start, previous, dist) && PartialChain(previous, dist, target, back)
    requires back[|back| - 1] !in previous
    ensures Chain(start, previous, dist, target, back)
  {
  }

  /** The reversed predecessor chain is a walk from start to target. */
  lemma ReversedChainIsWalk(adj: Adjacency, start: string, previous: map<string, string>, dist: map<string, nat>,
                            target: string, back: seq<string>)
    requires PredecessorTree(adj, start, previous, dist) && Chain(start, previous, dist, target, back)
    ensures var path := Reversed(back);
      IsWalk(adj, path) && path[0] == start && path[|path| - 1] == target
  {
    var path := Reversed(back);
    forall i | 0 <= i < |path| - 1
      ensures path[i] in adj && path[i + 1] in adj[path[i]]
    {
      var k := |back| - 2 - i;
      assert path[i] == back[k + 1] && path[i + 1] == back[k];
    }
  }

  /** What a completed search leaves: a predecessor tree of shortest
      distances, stored in the byte map, covering every node reachable from
      start. */
  ghost predicate Searched(adj: Adjacency, start: string, previous: map<string, string>,
                           distances: map<string, Byte>, dist: map<string, nat>)
  {
    Closed(adj) && PredecessorTree(adj, start, previous, dist)
    && Stores(distances, dist) && NoShorterWalk(adj, start, dist)
  }

  /** The search loop of the constructor: start gets distance 0; each node
      polled from the queue has its unvisited neighbours recorded with the
      node as their predecessor and one more than its distance, and queued.
      The maps it leaves hold shortest distances to exactly the reachable
      nodes. */
  method BreadthFirst(graph: Graph, start: string)
    returns (previous: map<string, string>, distances: map<string, Byte>, ghost dist: map<string, nat>)
    requires start in graph.adj && Closed(graph.adj)
    ensures Searched(graph.adj, start, previous, distances, dist)
    ensures start in distances && distances[start] == 0 && start !in previous
    ensures forall v :: v in distances ==> v in graph.adj
    ensures forall v :: v in previous ==>
      v in distances && previous[v] in distances && previous[v] in graph.adj && v in graph.adj[previous[v]]
  {
    ghost var g := graph.adj;
    var queue := [start];
    previous := map[];
    distances := map[start := 0];
    dist := map[start := 0];
    while queue != []
      invariant PredecessorTree(g, start, previous, dist) && Stores(distances, dist)
      invariant Frontier(dist, queue)
      invariant forall u :: u in dist && u !in queue ==> Explored(g, dist, u)
      invariant |dist| <= |g|
      decreases |g| - |dist| + |queue|
    {
      ghost var polled := queue;
      var current := queue[0];
      queue := queue[1..];
      assert polled == [current] + queue;
      var edges := graph.GetEdges(current);
      queue, previous, distances, dist :=
        ExploreNeighbours(g, start, current, edges.value, queue, previous, distances, dist);
      VisitedBounded(g, dist);
    }
    ExploredBoundsWalks(g, start, dist);
  }

  /** The outcome of the handler's constructor. */
  datatype Construction = Built(handler: BfsHandler) | IllegalArgument | NullDereference

  class BfsHandler {
    var previousMap: map<string, string>
    var distanceMap: map<string, Byte>
    /** The adjacency of the graph searched, the start node, and the exact
        distances of which distanceMap holds the narrowed values. */
    ghost var adj: Adjacency
    ghost var start: string
    ghost var dist: map<string, nat>

    /** What the search leaves behind: a predecessor tree of shortest
        distances that covers every node reachable from start. */
    ghost predicate Valid()
      reads this
    {
      Searched(adj, start, previousMap, distanceMap, dist)
    }

    /** The constructor once its guard has accepted the start node: the
        search, whose maps become the handler's. */
    constructor (graph: Graph, start: string)
      requires start in graph.adj && Closed(graph.adj)
      ensures Valid() && adj == graph.adj && this.start == start
    {
      var previous, distances;
      ghost var visited;
      previous, distances, visited := BreadthFirst(graph, start);
      previousMap, distanceMap := previous, distances;
      adj, this.start, dist := graph.adj, start, visited;
    }

    /** hasPathTo: whether target got a distance, which is whether it is
        reachable from start. */
    function HasPathTo(target: string): (r: bool)
      reads this
      requires Valid()
      ensures r <==> Reachable(adj, start, target)
    {
      ReachableIffVisited(adj, start, previousMap, dist, target);
      target in distanceMap
    }

    /** pathTo: the predecessor chain from target back to start, reversed.
        It is a shortest walk from start to target, and empty when target is
        unreachable. */
    method PathTo(target: string) returns (path: seq<string>)
      requires Valid()
      ensures !Reachable(adj, start, target) ==> path == []
      ensures Reachable(adj, start, target) ==>
        IsWalk(adj, path) && path[0] == start && path[|path| - 1] == target
        && target in dist && |path| == dist[target] + 1
      ensures forall p :: IsWalk(adj, p) && p[0] == start && p[|p| - 1] == target ==> |path| <= |p|
    {
      ReachableIffVisited(adj, start, previousMap, dist, target);
      var back := PredecessorChain(previousMap, distanceMap, target, adj, start, dist);
      path := Reversed(back);
      if back != [] {
        ReversedChainIsWalk(adj, start, previousMap, dist, target, back);
      }
    }

    /** distanceTo: the byte distance halved with Java's truncating division,
        then narrowed to a byte; Byte.MAX_VALUE (127) for an unreachable
        target. While the distance fits in a byte this is the number of
        actor-to-actor steps of a shortest walk. */
    function DistanceTo(target: string): (r: Byte)
      reads this
      requires Valid()
      ensures !Reachable(adj, start, target) ==> r == ByteMax
      ensures Reachable(adj, start, target) ==> target in dist && r == ToByte(Half(ToByte(dist[target]) as int))
      ensures Reachable(adj, start, target) && dist[target] < 128 ==> r as int == dist[target] / 2
    {
      ToByte(if HasPathTo(target) then Half(distanceMap[target] as int) else ByteMax as int)
    }
  }

  /** The constructor as written: its guard rejects a start node that IS in
      the graph, and for one that is not, the first poll looks up the edges
      of that absent node and dereferences null. No input gets past both. */
  method CreateAsWritten(graph: Graph?, start: string) returns (r: Construction)
    ensures graph == null ==> r == IllegalArgument
    ensures graph != null && start in graph.adj ==> r == IllegalArgument
    ensures graph != null && start !in graph.adj ==> r == NullDereference
    ensures !r.Built?
  {
    if graph == null || graph.GetEdges(start).Some? {
      return IllegalArgument;
    }
    var queue := [start];
    var current := queue[0];
    var edges := graph.GetEdges(current);
    assert edges.None?;
    return NullDereference;
  }

  /** The constructor with the guard evidently intended: a null graph or a
      start node that is not in it is rejected, any other start is searched
      from. */
  method Create(graph: Graph?, start: string) returns (r: Construction)
    requires graph != null ==> graph.Valid()
    ensures r.Built? <==> graph != null && start in graph.adj
    ensures !r.Built? ==> r == IllegalArgument
    ensures r.Built? ==>
      fresh(r.handler) && r.handler.Valid() && r.handler.adj == graph.adj && r.handler.start == start
  {
    if graph == null || graph.GetEdges(start).None? {
      return IllegalArgument;
    }
    SymmetricIsClosed(graph.adj);
    var handler := new BfsHandler(graph, start);
    return Built(handler);
  }
}
