/** The undirected graph of the Bacon game: an adjacency map from node
    names to neighbour sets, grown with add and connect, and loaded from the
    lines of a text file in which "<a>" lines name actors and the other lines
    name what the current actor is connected to. */
module Graphs {
  import opened Wrappers

  type Adjacency = map<string, set<string>>

  /** The neighbours recorded for n; none when n is not a node. */
  function Neighbours(adj: Adjacency, n: string): set<string>
  {
    if n in adj then adj[n] else {}
  }

  /** The map after add(n): n gets an empty neighbour set unless it is
      already a node. */
  function AddNode(adj: Adjacency, n: string): (r: Adjacency)
    ensures forall k :: k in r <==> k in adj || k == n
    ensures n in adj ==> r == adj
    ensures n !in adj ==> r[n] == {}
    ensures forall k :: k in adj ==> r[k] == adj[k]
  {
    if n in adj then adj else adj[n := {}]
  }

  /** The map after connect(s, t): both ends are nodes, each end's set
      gains the other end, and no other neighbour set changes. */
  function Link(adj: Adjacency, s: string, t: string): (r: Adjacency)
    ensures forall n :: n in r <==> n in adj || n == s || n == t
    ensures forall x :: x in r[s] <==> x in Neighbours(adj, s) || x == t
    ensures forall x :: x in r[t] <==> x in Neighbours(adj, t) || x == s
    ensures forall n :: n in adj && n != s && n != t ==> r[n] == adj[n]
  {
    var withEnds := AddNode(AddNode(adj, s), t);
    var fromSource := withEnds[s := withEnds[s] + {t}];
    fromSource[t := fromSource[t] + {s}]
  }

  /** Every edge is listed at both of its ends. */
  ghost predicate Symmetric(adj: Adjacency)
  {
    forall u, v :: u in adj && v in adj[u] ==> v in adj && u in adj[v]
  }

  /** Every neighbour is itself a node, so looking up its edges never
      answers null. */
  ghost predicate Closed(adj: Adjacency)
  {
    forall u, v :: u in adj && v in adj[u] ==> v in adj
  }

  lemma SymmetricIsClosed(adj: Adjacency)
    requires Symmetric(adj)
    ensures Closed(adj)
  {
  }

  /** Adding a node twice is adding it once. */
  lemma AddIsIdempotent(adj: Adjacency, n: string)
    ensures AddNode(AddNode(adj, n), n) == AddNode(adj, n)
  {
  }

  lemma AddKeepsSymmetric(adj: Adjacency, n: string)
    requires Symmetric(adj)
    ensures Symmetric(AddNode(adj, n))
  {
  }

  /** Connecting keeps every edge listed at both ends. */
  lemma LinkKeepsSymmetric(adj: Adjacency, s: string, t: string)
    requires Symmetric(adj)
    ensures Symmetric(Link(adj, s, t))
  {
    var r := Link(adj, s, t);
    forall u, v | u in r && v in r[u] ensures v in r && u in r[v] {
      if v !in Neighbours(adj, u) {
        assert v == s || v == t;
      } else {
        assert u in adj;
      }
    }
  }

  class Graph {
    var adj: Adjacency

    /** The graph invariant that add and connect keep. */
    ghost predicate Valid()
      reads this
    {
      Symmetric(adj)
    }

    constructor ()
      ensures adj == map[] && Valid()
    {
      adj := map[];
    }

    /** add: putIfAbsent with a new empty set. */
    method Add(newNode: string)
      modifies this
      ensures adj == AddNode(old(adj), newNode)
      ensures old(Valid()) ==> Valid()
    {
      if newNode !in adj {
        adj := adj[newNode := {}];
      }
    }

    /** connect: adds the missing ends, then records the edge in both
        neighbour sets. */
    method Connect(source: string, target: string)
      modifies this
      ensures adj == Link(old(adj), source, target)
      ensures old(Valid()) ==> Valid()
    {
      ghost var before := adj;
      if source !in adj {
        Add(source);
      }
      if target !in adj {
        Add(target);
      }
      adj := adj[source := adj[source] + {target}];
      adj := adj[target := adj[target] + {source}];
      if Symmetric(before) {
        LinkKeepsSymmetric(before, source, target);
      }
    }

    /** getEdges: the neighbour set of a node, null (None) for a name that is
        not a node. */
    function GetEdges(source: string): (r: Option<set<string>>)
      reads this
      ensures r.Some? <==> source in adj
      ensures r.Some? ==> r.value == adj[source]
    {
      if source in adj then Some(adj[source]) else None
    }
  }

  // ---------------------------------------------------------------------
  // Loading from lines.
  // ---------------------------------------------------------------------

  const ActorTag := "<a>"

  /** An actor line starts with "<a>". */
  predicate IsActorLine(line: string)
  {
    |line| >= 3 && line[..3] == ActorTag
  }

  /** The name a line carries: the line without its first three characters. */
  function LineName(line: string): (name: string)
    requires |line| >= 3
    ensures |name| == |line| - 3
    ensures forall k :: 0 <= k < |name| ==> name[k] == line[k + 3]
  {
    line[3..]
  }

  /** The actor that line j is connected to: the line's own name for an
      actor line, otherwise the actor of the nearest actor line above it,
      and "" when there is none. */
  function ActorAt(lines: seq<string>, j: nat): string
    requires j < |lines|
  {
    if IsActorLine(lines[j]) then LineName(lines[j])
    else if j == 0 then ""
    else ActorAt(lines, j - 1)
  }

  /** The actor in force for line j is named by the last actor line at or
      above it, and is "" when no line up to j is an actor line. */
  lemma {:induction false} ActorAtIsLastActorLine(lines: seq<string>, j: nat)
    requires j < |lines|
    ensures (forall i :: 0 <= i <= j ==> !IsActorLine(lines[i])) ==> ActorAt(lines, j) == ""
    ensures (exists i :: 0 <= i <= j && IsActorLine(lines[i])) ==>
      exists i :: 0 <= i <= j && IsActorLine(lines[i]) && ActorAt(lines, j) == LineName(lines[i])
        && forall k :: i < k <= j ==> !IsActorLine(lines[k])
  {
    if IsActorLine(lines[j]) {
      assert ActorAt(lines, j) == LineName(lines[j]);
    } else if j > 0 {
      ActorAtIsLastActorLine(lines, j - 1);
      if exists i :: 0 <= i <= j && IsActorLine(lines[i]) {
        var i :| 0 <= i <= j - 1 && IsActorLine(lines[i]) && ActorAt(lines, j - 1) == LineName(lines[i])
          && forall k :: i < k <= j - 1 ==> !IsActorLine(lines[k]);
        assert forall k :: i < k <= j ==> !IsActorLine(lines[k]);
      }
    }
  }

  /** The current actor once the loading loop has read the first n lines. */
  function ActorAfter(lines: seq<string>, n: nat): string
    requires n <= |lines|
  {
    if n == 0 then "" else ActorAt(lines, n - 1)
  }

  /** The adjacency map after the loading loop has read the first n lines:
      each line's name is connected to the actor in force for that line. A
      line shorter than three characters makes the load fail (None). */
  function LoadLines(lines: seq<string>, n: nat): (r: Option<Adjacency>)
    requires n <= |lines|
    decreases n
  {
    if n == 0 then Some(map[])
    else
      match LoadLines(lines, n - 1)
      case None => None
      case Some(adj) =>
        if |lines[n - 1]| < 3 then None
        else Some(Link(adj, ActorAt(lines, n - 1), LineName(lines[n - 1])))
  }

  /** Loading the first n lines fails exactly when one of them is shorter
      than three characters. */
  lemma {:induction false} LoadFailsOnShortLine(lines: seq<string>, n: nat)
    requires n <= |lines|
    ensures LoadLines(lines, n).None? <==> exists j :: 0 <= j < n && |lines[j]| < 3
  {
    if n > 0 {
      LoadFailsOnShortLine(lines, n - 1);
      if exists j :: 0 <= j < n && |lines[j]| < 3 {
        var j :| 0 <= j < n && |lines[j]| < 3;
        if j < n - 1 {
          assert LoadLines(lines, n - 1).None?;
        }
      }
    }
  }

  /** Loading keeps the adjacency symmetric. */
  lemma {:induction false} LoadKeepsSymmetric(lines: seq<string>, n: nat)
    requires n <= |lines|
    ensures LoadLines(lines, n).Some? ==> Symmetric(LoadLines(lines, n).value)
  {
    if n > 0 && LoadLines(lines, n).Some? {
      LoadKeepsSymmetric(lines, n - 1);
      LinkKeepsSymmetric(LoadLines(lines, n - 1).value, ActorAt(lines, n - 1), LineName(lines[n - 1]));
    }
  }

  /** Loading only adds: every node of an earlier state stays, with at least
      its neighbours. */
  lemma {:induction false} LoadGrows(lines: seq<string>, m: nat, n: nat)
    requires m <= n <= |lines| && LoadLines(lines, n).Some?
    decreases n - m
    ensures LoadLines(lines, m).Some?
    ensures var before := LoadLines(lines, m).value;
      var after := LoadLines(lines, n).value;
      forall k :: k in before ==> k in after && before[k] <= after[k]
  {
    if m < n {
      LoadGrows(lines, m + 1, n);
      assert LoadLines(lines, m + 1).Some?;
    }
  }

  /** a and n are nodes that list each other. */
  ghost predicate Joined(adj: Adjacency, a: string, n: string)
  {
    a in adj && n in adj && n in adj[a] && a in adj[n]
  }

  /** In a successfully loaded graph every line's name and the actor in force
      for that line are neighbours of each other. */
  lemma LoadConnectsLines(lines: seq<string>, n: nat, j: nat)
    requires j < n <= |lines| && LoadLines(lines, n).Some?
    ensures |lines[j]| >= 3
    ensures Joined(LoadLines(lines, n).value, ActorAt(lines, j), LineName(lines[j]))
  {
    LoadGrows(lines, j + 1, n);
    assert LoadLines(lines, j).Some?;
    assert Joined(LoadLines(lines, j + 1).value, ActorAt(lines, j), LineName(lines[j]));
  }

  /** Every actor line gives its actor a self-loop. */
  lemma ActorLinesAreSelfLoops(lines: seq<string>, j: nat)
    requires j < |lines| && IsActorLine(lines[j])
    requires LoadLines(lines, |lines|).Some?
    ensures var r := LoadLines(lines, |lines|).value;
      var n := LineName(lines[j]);
      n in r && n in r[n]
  {
    LoadConnectsLines(lines, |lines|, j);
  }

  /** One pass of the loading loop over a line long enough for substring(3):
      an actor line makes its name the current actor, and the name is
      connected to the current actor. */
  method ReadLine(graph: Graph, lines: seq<string>, i: nat, currentActor: string) returns (actor: string)
    requires i < |lines| && |lines[i]| >= 3
    requires LoadLines(lines, i) == Some(graph.adj) && currentActor == ActorAfter(lines, i)
    modifies graph
    ensures LoadLines(lines, i + 1) == Some(graph.adj) && actor == ActorAfter(lines, i + 1)
  {
    actor := currentActor;
    var name := LineName(lines[i]);
    if IsActorLine(lines[i]) {
      actor := name;
    }
    graph.Connect(actor, name);
  }

  /** The graph constructor over the lines of the file: None when a line is
      too short for substring(3), otherwise a fresh graph holding the loaded
      adjacency, which is symmetric. */
  method FromLines(lines: seq<string>) returns (r: Option<Graph>)
    ensures r.None? <==> exists j :: 0 <= j < |lines| && |lines[j]| < 3
    ensures r.Some? ==> fresh(r.value) && LoadLines(lines, |lines|) == Some(r.value.adj)
    ensures r.Some? ==> r.value.Valid()
  {
    var graph := new Graph();
    var currentActor := "";
    var i := 0;
    while i < |lines|
      invariant 0 <= i <= |lines|
      invariant fresh(graph)
      invariant LoadLines(lines, i) == Some(graph.adj) && currentActor == ActorAfter(lines, i)
    {
      if |lines[i]| < 3 {
        return None;
      }
      currentActor := ReadLine(graph, lines, i, currentActor);
      i := i + 1;
    }
    LoadFailsOnShortLine(lines, |lines|);
    LoadKeepsSymmetric(lines, |lines|);
    return Some(graph);
  }
}
