/** The adjacency-list graph shared by the analyser scripts, with its
    `addEdge` and its recursive depth-first `topologicalSort`. */
module Graphs {

  type Node = string

  /** The value held in `Graph.graph`: a dictionary from a node to the set
      of its successors. Python leaves the iteration order of both open;
      here the keys are kept in insertion order (`keys`) and each successor
      set in insertion order too, so every run of the sort is determined. */
  datatype Adjacency = Adjacency(keys: seq<Node>, succ: map<Node, seq<Node>>)

  /** The graph before any edge is added (an empty `defaultdict(set)`). */
  const Empty: Adjacency := Adjacency([], map[])

  /** The sentinel that `defaultdict(lambda: -1)` answers for an unvisited node. */
  const Unvisited: int := -1

  /** No element of `s` occurs twice. */
  predicate NoDup(s: seq<Node>) {
    s == [] || (s[0] !in s[1..] && NoDup(s[1..]))
  }

  lemma {:induction false} NoDupAppend(s: seq<Node>, x: Node)
    requires NoDup(s) && x !in s
    ensures NoDup(s + [x])
  {
    if s != [] {
      assert (s + [x])[1..] == s[1..] + [x];
      NoDupAppend(s[1..], x);
    }
  }

  lemma {:induction false} NoDupIndices(s: seq<Node>, i: nat, j: nat)
    requires NoDup(s) && i < j < |s|
    ensures s[i] != s[j]
  {
    if i == 0 {
      assert s[j] == s[1..][j - 1];
    } else {
      NoDupIndices(s[1..], i - 1, j - 1);
    }
  }

  /** Keys listed once each and exactly the dictionary's keys; every successor
      list is a set (no repetition). */
  ghost predicate WellFormed(a: Adjacency) {
    && NoDup(a.keys)
    && (forall u :: u in a.succ <==> u in a.keys)
    && (forall u :: u in a.succ ==> NoDup(a.succ[u]))
  }

  predicate HasEdge(a: Adjacency, u: Node, v: Node) {
    u in a.succ && v in a.succ[u]
  }

  /** Every node the graph mentions: its keys and every successor of a key. */
  function NodeSet(a: Adjacency): set<Node> {
    a.succ.Keys + set u, v | u in a.succ && v in a.succ[u] :: v
  }

  lemma SuccInNodeSet(a: Adjacency, u: Node, v: Node)
    requires HasEdge(a, u, v)
    ensures v in NodeSet(a)
  {
    assert v in set u', v' | u' in a.succ && v' in a.succ[u'] :: v';
  }

  lemma NodeSetCases(a: Adjacency, x: Node)
    requires x in NodeSet(a)
    ensures x in a.succ || exists u :: HasEdge(a, u, x)
  {
    if x !in a.succ {
      var u, v :| u in a.succ && v in a.succ[u] && v == x;
      assert HasEdge(a, u, x);
    }
  }

  /** `self.graph[u].add(v)`: the value of the graph after `addEdge(u, v)`. */
  function Added(a: Adjacency, u: Node, v: Node): (r: Adjacency)
    ensures HasEdge(r, u, v)
    ensures forall x, y :: HasEdge(r, x, y) <==> HasEdge(a, x, y) || (x == u && y == v)
    ensures forall x :: x != u ==> (x in r.succ <==> x in a.succ)
    ensures forall x :: x != u && x in a.succ ==> r.succ[x] == a.succ[x]
  {
    if u in a.succ then
      if v in a.succ[u] then a else Adjacency(a.keys, a.succ[u := a.succ[u] + [v]])
    else
      Adjacency(a.keys + [u], a.succ[u := [v]])
  }

  /** `addEdge` keeps the keys and every successor list free of repetition. */
  lemma AddedWellFormed(a: Adjacency, u: Node, v: Node)
    requires WellFormed(a)
    ensures WellFormed(Added(a, u, v))
  {
    if u in a.succ {
      if v !in a.succ[u] {
        NoDupAppend(a.succ[u], v);
      }
    } else {
      NoDupAppend(a.keys, u);
    }
  }

  /** Adding an edge that is already there changes nothing, so repeating
      `addEdge(u, v)` is a no-op. */
  lemma AddedIdempotent(a: Adjacency, u: Node, v: Node)
    ensures Added(Added(a, u, v), u, v) == Added(a, u, v)
  {
  }

  /** The edge relation of an adjacency, as a set of pairs. */
  ghost function Edges(a: Adjacency): set<(Node, Node)> {
    set u, v | u in a.succ && v in a.succ[u] :: (u, v)
  }

  lemma {:induction false} AddedEdges(a: Adjacency, u: Node, v: Node)
    ensures Edges(Added(a, u, v)) == Edges(a) + {(u, v)}
  {
    var r := Added(a, u, v);
    forall e | e in Edges(r) ensures e in Edges(a) + {(u, v)} {
      assert HasEdge(r, e.0, e.1);
    }
    forall e | e in Edges(a) + {(u, v)} ensures e in Edges(r) {
      assert HasEdge(r, e.0, e.1);
    }
  }

  // ---------------------------------------------------------------------
  // Paths, reachability, positions in the result stack

  ghost predicate IsPath(a: Adjacency, p: seq<Node>) {
    |p| >= 1 && forall i :: 0 <= i < |p| - 1 ==> HasEdge(a, p[i], p[i + 1])
  }

  /** There is a path (possibly of length zero) from `x` to `y`. */
  ghost predicate Reaches(a: Adjacency, x: Node, y: Node) {
    exists p :: IsPath(a, p) && p[0] == x && p[|p| - 1] == y
  }

  /** No path of at least one edge returns to its start (so no self-loop). */
  ghost predicate Acyclic(a: Adjacency) {
    forall p :: IsPath(a, p) && |p| >= 2 ==> p[0] != p[|p| - 1]
  }

  function IndexOf(s: seq<Node>, x: Node): (i: nat)
    requires x in s
    ensures i < |s| && s[i] == x && x !in s[..i]
  {
    if s[0] == x then 0 else 1 + IndexOf(s[1..], x)
  }

  /** `x` stands before `y` in `s`. */
  predicate Before(s: seq<Node>, x: Node, y: Node) {
    x in s && y in s && IndexOf(s, x) < IndexOf(s, y)
  }

  lemma PrependKeepsOrder(v: Node, s: seq<Node>, x: Node, y: Node)
    requires Before(s, x, y) && x != v && y != v
    ensures Before([v] + s, x, y)
  {
    assert ([v] + s)[1..] == s;
  }

  lemma PrependFirst(v: Node, s: seq<Node>, y: Node)
    requires y in s && y != v
    ensures Before([v] + s, v, y)
  {
    assert ([v] + s)[1..] == s;
  }

  /** Every node on a path reaches the path's last node. */
  lemma OnPathReachesEnd(a: Adjacency, p: seq<Node>, y: Node)
    requires IsPath(a, p) && y in p
    ensures Reaches(a, y, p[|p| - 1])
  {
    var k := IndexOf(p, y);
    var q := p[k..];
    forall i | 0 <= i < |q| - 1 ensures HasEdge(a, q[i], q[i + 1]) {
      assert q[i] == p[k + i] && q[i + 1] == p[k + i + 1];
    }
    assert q[0] == y && q[|q| - 1] == p[|p| - 1];
  }

  lemma ExtendPath(a: Adjacency, p: seq<Node>, y: Node)
    requires IsPath(a, p) && HasEdge(a, p[|p| - 1], y)
    ensures IsPath(a, p + [y])
  {
    var q := p + [y];
    forall i | 0 <= i < |q| - 1 ensures HasEdge(a, q[i], q[i + 1]) {
      if i < |p| - 1 {
        assert q[i] == p[i] && q[i + 1] == p[i + 1];
      }
    }
  }

  // ---------------------------------------------------------------------
  // The state of a depth-first run

  /** `visited[x]` as the source reads it: the level, or the sentinel. */
  function Level(visited: map<Node, int>, x: Node): int {
    if x in visited then visited[x] else Unvisited
  }

  /** Some predecessor of `x` is marked one level above it. */
  ghost predicate HasParent(a: Adjacency, visited: map<Node, int>, x: Node)
    requires x in visited
  {
    exists y :: y in visited && HasEdge(a, y, x) && visited[y] + 1 == visited[x]
  }

  /** Every level other than 1 was handed down from a predecessor one level
      above it. */
  ghost predicate LevelsJustified(a: Adjacency, visited: map<Node, int>) {
    forall x {:trigger HasParent(a, visited, x)} :: x in visited && visited[x] != 1 ==> HasParent(a, visited, x)
  }

  /** The invariant of a depth-first run: `stack` holds the finished nodes,
      `path` the nodes whose calls are still open, `visited` marks exactly
      these; and every successor of a finished node is marked and either
      stands after it in `stack` or reaches it back. */
  ghost predicate DfsState(a: Adjacency, visited: map<Node, int>, stack: seq<Node>, path: seq<Node>) {
    && NoDup(stack)
    && (forall x :: x in visited <==> x in stack || x in path)
    && (forall x :: x in stack ==> x !in path)
    && visited.Keys <= NodeSet(a)
    && (forall x :: x in visited ==> visited[x] >= 1)
    && LevelsJustified(a, visited)
    && (forall x, y {:trigger HasEdge(a, x, y), x in stack} :: x in stack && HasEdge(a, x, y) ==>
          y in visited && (Before(stack, x, y) || Reaches(a, y, x)))
  }

  /** The state after `visited[v] = level` at the entry of a call on `v`. */
  lemma Mark(a: Adjacency, visited: map<Node, int>, stack: seq<Node>, path: seq<Node>, v: Node, level: int)
    requires DfsState(a, visited, stack, path)
    requires v in NodeSet(a) && v !in visited && IsPath(a, path + [v]) && level >= 1
    requires path == [] ==> level == 1
    requires path != [] ==> Level(visited, path[|path| - 1]) + 1 == level
    ensures DfsState(a, visited[v := level], stack, path + [v])
  {
    var vis := visited[v := level];
    forall x | x in vis && vis[x] != 1
      ensures HasParent(a, vis, x)
    {
      if x == v {
        var p := path + [v];
        assert HasEdge(a, p[|p| - 2], p[|p| - 1]);
        assert path[|path| - 1] in vis && vis[path[|path| - 1]] + 1 == vis[x];
      } else {
        assert HasParent(a, visited, x);
        var y :| y in visited && HasEdge(a, y, x) && visited[y] + 1 == visited[x];
        assert y in vis && vis[y] == visited[y];
      }
    }
  }

  /** A marked successor met while the calls on `open` are running has either
      finished already or is one of those calls, and then reaches the last. */
  lemma MarkedIsFinishedOrOpen(a: Adjacency, visited: map<Node, int>, stack: seq<Node>, open: seq<Node>, y: Node)
    requires DfsState(a, visited, stack, open) && IsPath(a, open) && y in visited
    ensures y in stack || Reaches(a, y, open[|open| - 1])
  {
    if y !in stack {
      OnPathReachesEnd(a, open, y);
    }
  }

  /** Growth at the front composes. */
  lemma FrontGrowth(s0: seq<Node>, s1: seq<Node>, s2: seq<Node>)
    requires |s0| <= |s1| && s1[|s1| - |s0|..] == s0
    requires |s1| <= |s2| && s2[|s2| - |s1|..] == s1
    ensures |s0| <= |s2| && s2[|s2| - |s0|..] == s0
    ensures forall x :: x in s1 ==> x in s2
  {
    assert s2[|s2| - |s0|..] == s2[|s2| - |s1|..][|s1| - |s0|..];
    forall x | x in s1 ensures x in s2 {
      var k := IndexOf(s1, x);
      assert s2[|s2| - |s1| + k] == x;
    }
  }

  /** The successors handled so far stay handled while the run goes on. */
  lemma HandledGrow(a: Adjacency, succ: seq<Node>, i: nat, v: Node,
                    vis: map<Node, int>, st: seq<Node>, vis': map<Node, int>, st': seq<Node>)
    requires i < |succ|
    requires forall k :: 0 <= k < i ==> succ[k] in vis && (succ[k] in st || Reaches(a, succ[k], v))
    requires vis.Keys <= vis'.Keys && forall x :: x in st ==> x in st'
    requires succ[i] in vis' && (succ[i] in st' || Reaches(a, succ[i], v))
    ensures forall k :: 0 <= k < i + 1 ==> succ[k] in vis' && (succ[k] in st' || Reaches(a, succ[k], v))
  {
  }

  /** The state after `stack.insert(0, v)` at the exit of a call on `v`. */
  lemma Finish(a: Adjacency, visited: map<Node, int>, stack: seq<Node>, path: seq<Node>, v: Node)
    requires DfsState(a, visited, stack, path + [v])
    requires v !in path
    requires forall y :: HasEdge(a, v, y) ==> y in visited && (y in stack || Reaches(a, y, v))
    ensures DfsState(a, visited, [v] + stack, path)
  {
    var s := [v] + stack;
    assert v !in stack;
    forall x, y | x in s && HasEdge(a, x, y)
      ensures y in visited && (Before(s, x, y) || Reaches(a, y, x))
    {
      if x == v {
        if y in stack && y != v { PrependFirst(v, stack, y); }
        else if y == v {
          assert IsPath(a, [v]);
        }
      } else if Before(stack, x, y) {
        PrependKeepsOrder(v, stack, x, y);
      }
    }
  }

  /** Once the outer loop has started a run from every key, every node of the
      graph is marked. */
  lemma AllMarked(a: Adjacency, visited: map<Node, int>, stack: seq<Node>)
    requires DfsState(a, visited, stack, [])
    requires forall u :: u in a.succ ==> u in visited
    ensures visited.Keys == NodeSet(a)
  {
    forall x | x in NodeSet(a) ensures x in visited {
      NodeSetCases(a, x);
      if x !in a.succ {
        var u :| HasEdge(a, u, x);
        assert u in stack;
      }
    }
  }

  /** For an acyclic graph, the ordering the sort proves for every graph
      (predecessor first, or the edge closes a cycle) is a topological order. */
  lemma {:induction false} OrderIsTopologicalWhenAcyclic(a: Adjacency, stack: seq<Node>)
    requires Acyclic(a)
    requires forall u, v :: HasEdge(a, u, v) ==> Before(stack, u, v) || Reaches(a, v, u)
    ensures forall u, v :: HasEdge(a, u, v) ==> Before(stack, u, v)
  {
    forall u, v | HasEdge(a, u, v) ensures Before(stack, u, v) {
      if !Before(stack, u, v) {
        var p :| IsPath(a, p) && p[0] == v && p[|p| - 1] == u;
        ExtendPath(a, p, v);
        assert false;
      }
    }
  }

  /** The graph object of the analyser scripts. */
  class Graph {
    var graph: Adjacency

    ghost predicate Valid()
      reads this
    {
      WellFormed(graph)
    }

    constructor ()
      ensures Valid() && graph == Empty
    {
      graph := Empty;
    }

    /** `addEdge(u, v)`: `self.graph[u].add(v)`. */
    method AddEdge(u: Node, v: Node)
      requires Valid()
      modifies this
      ensures Valid()
      ensures graph == Added(old(graph), u, v)
    {
      AddedWellFormed(graph, u, v);
      if u in graph.succ {
        if v !in graph.succ[u] {
          graph := Adjacency(graph.keys, graph.succ[u := graph.succ[u] + [v]]);
        }
      } else {
        graph := Adjacency(graph.keys + [u], graph.succ[u := [v]]);
      }
    }

    /** `topologicalSortUtil(v, visited, stack, level)`: mark `v` at `level`,
        run on every successor still at the sentinel one level deeper, then
        put `v` at the front of `stack`. `visited` and `stack` are passed in
        and handed back, as the source shares them by reference; the ghost
        `path` holds the calls still open above this one. */
    method TopologicalSortUtil(v: Node, visited: map<Node, int>, stack: seq<Node>, level: int, ghost path: seq<Node>)
      returns (visited': map<Node, int>, stack': seq<Node>)
      requires DfsState(graph, visited, stack, path)
      requires v in NodeSet(graph) && Level(visited, v) < 0 && IsPath(graph, path + [v])
      requires level >= 1
      requires path == [] ==> level == 1
      requires path != [] ==> Level(visited, path[|path| - 1]) + 1 == level
      ensures DfsState(graph, visited', stack', path)
      ensures visited.Keys <= visited'.Keys
      ensures forall x :: x in visited ==> visited'[x] == visited[x]
      ensures v in visited' && visited'[v] == level
      ensures |stack| < |stack'| && stack'[0] == v && stack'[|stack'| - |stack|..] == stack
      ensures forall x :: x in stack ==> x in stack'
      decreases NodeSet(graph) - visited.Keys, 1
    {
      ghost var open := path + [v];
      Mark(graph, visited, stack, path, v, level);
      var vis := visited[v := level];
      var st := stack;
      if v in graph.succ {
        vis, st := VisitSuccessors(v, vis, st, level, open);
      }
      Finish(graph, vis, st, path, v);
      visited' := vis;
      stack' := [v] + st;
      FrontGrowth(stack, st, stack');
    }

    /** The loop of `topologicalSortUtil` over the successors of `v`, which
        is marked at `level` and is the last of the open calls `open`. */
    method VisitSuccessors(v: Node, visited: map<Node, int>, stack: seq<Node>, level: int, ghost open: seq<Node>)
      returns (vis: map<Node, int>, st: seq<Node>)
      requires DfsState(graph, visited, stack, open)
      requires IsPath(graph, open) && open[|open| - 1] == v && v in graph.succ
      requires v in visited && visited[v] == level
      ensures DfsState(graph, vis, st, open)
      ensures visited.Keys <= vis.Keys
      ensures forall x :: x in visited ==> vis[x] == visited[x]
      ensures |stack| <= |st| && st[|st| - |stack|..] == stack
      ensures forall y :: HasEdge(graph, v, y) ==> y in vis && (y in st || Reaches(graph, y, v))
      decreases NodeSet(graph) - visited.Keys, 2
    {
      vis, st := visited, stack;
      var succ := graph.succ[v];
      var i := 0;
      while i < |succ|
        invariant 0 <= i <= |succ|
        invariant DfsState(graph, vis, st, open)
        invariant visited.Keys <= vis.Keys
        invariant forall x :: x in visited ==> vis[x] == visited[x]
        invariant |stack| <= |st| && st[|st| - |stack|..] == stack
        invariant forall k :: 0 <= k < i ==> succ[k] in vis && (succ[k] in st || Reaches(graph, succ[k], v))
      {
        var y := succ[i];
        if Level(vis, y) < 0 {
          SuccInNodeSet(graph, v, y);
          ExtendPath(graph, open, y);
          var vis', st' := TopologicalSortUtil(y, vis, st, level + 1, open);
          FrontGrowth(stack, st, st');
          HandledGrow(graph, succ, i, v, vis, st, vis', st');
          vis, st := vis', st';
        } else {
          MarkedIsFinishedOrOpen(graph, vis, st, open, y);
          HandledGrow(graph, succ, i, v, vis, st, vis, st);
        }
        i := i + 1;
      }
    }

    /** `topologicalSort()`: start a run from every key still at the
        sentinel, in key order, at level 1. The result lists every node of
        the graph once; every edge u -> v has u before v unless v reaches u
        back (the edge closes a cycle); every level is at least 1 and was
        either given to a start node or handed down along an edge. */
    method TopologicalSort() returns (stack: seq<Node>, visited: map<Node, int>)
      requires Valid()
      ensures NoDup(stack)
      ensures forall x :: x in stack <==> x in NodeSet(graph)
      ensures visited.Keys == NodeSet(graph)
      ensures forall x :: x in visited ==> visited[x] >= 1
      ensures LevelsJustified(graph, visited)
      ensures graph.keys != [] ==> visited[graph.keys[0]] == 1
      ensures forall u, v :: HasEdge(graph, u, v) ==> Before(stack, u, v) || Reaches(graph, v, u)
    {
      visited := map[];
      stack := [];
      for k := 0 to |graph.keys|
        invariant DfsState(graph, visited, stack, [])
        invariant forall j :: 0 <= j < k ==> graph.keys[j] in visited
        invariant k == 0 ==> visited == map[]
        invariant graph.keys != [] && k > 0 ==> visited[graph.keys[0]] == 1
      {
        var i := graph.keys[k];
        if Level(visited, i) < 0 && i in graph.succ {
          assert IsPath(graph, [] + [i]);
          visited, stack := TopologicalSortUtil(i, visited, stack, 1, []);
        }
      }
      AllMarked(graph, visited, stack);
    }
  }
}
