/** Iterative depth-first traversal with an explicit stack: pop a node, skip it
    if already visited, otherwise record it and push its successors in reverse
    so that the first-listed successor is popped next. */
module DfsStack {
  import opened Sequences

  /** Adjacency mapping from a node to its ordered successor list. */
  type Graph = map<int, seq<int>>

  /** Outcome of a traversal: the visiting order, or the first node that had
      to be expanded but is not a key of the graph. */
  datatype Traversal = Visited(order: seq<int>) | NotFound(key: int)

  /** `p` follows edges: each node but the last is a key and the next node is
      among its successors. */
  ghost predicate IsPath(graph: Graph, p: seq<int>) {
    && |p| >= 1
    && forall i :: 0 <= i < |p| - 1 ==> p[i] in graph && p[i + 1] in graph[p[i]]
  }

  /** `v` can be reached from `s` along zero or more edges. */
  ghost predicate Reachable(graph: Graph, s: int, v: int) {
    exists p :: IsPath(graph, p) && p[0] == s && p[|p| - 1] == v
  }

  /** Every successor of every node is itself a key. */
  ghost predicate Closed(graph: Graph) {
    forall u :: u in graph ==> forall w :: w in graph[u] ==> w in graph
  }

  /** `stack.extend(reversed(succs))`: the stack grows by `succs` reversed, so
      popping yields `succs` in their listed order. */
  function PushReversed(stack: seq<int>, succs: seq<int>): (r: seq<int>)
    ensures |r| == |stack| + |succs| && r[..|stack|] == stack
    ensures forall i :: 0 <= i < |succs| ==> r[|r| - 1 - i] == succs[i]
    ensures forall v :: v in r <==> v in stack || v in succs
  {
    if |succs| == 0 then stack
    else
      var r := PushReversed(stack, succs[1..]) + [succs[0]];
      assert forall v :: v in succs <==> v == succs[0] || v in succs[1..];
      r
  }

  /** The loop of `dfs` as a recursive function. It terminates on every
      graph, cyclic or not: each step either expands a key not visited before
      or shrinks the stack. Nodes are only ever appended to `visited`, and the
      run fails only on a node that is not a key. */
  function DfsRun(graph: Graph, visited: seq<int>, stack: seq<int>): (r: Traversal)
    ensures r.Visited? ==> |visited| <= |r.order| && r.order[..|visited|] == visited
    ensures r.NotFound? ==> r.key !in graph
    decreases |graph.Keys - Elems(visited)|, |stack|
  {
    if |stack| == 0 then Visited(visited)
    else
      var node := stack[|stack| - 1];
      var rest := stack[..|stack| - 1];
      if node in visited then DfsRun(graph, visited, rest)
      else if node !in graph then NotFound(node)
      else
        assert graph.Keys - Elems(visited + [node]) == (graph.Keys - Elems(visited)) - {node};
        DfsRun(graph, visited + [node], PushReversed(rest, graph[node]))
  }

  lemma ReachableFromSelf(graph: Graph, s: int)
    ensures Reachable(graph, s, s)
  {
    assert IsPath(graph, [s]);
  }

  /** Reachability extends along an edge. */
  lemma ReachableStep(graph: Graph, s: int, u: int, w: int)
    requires Reachable(graph, s, u) && u in graph && w in graph[u]
    ensures Reachable(graph, s, w)
  {
    var p :| IsPath(graph, p) && p[0] == s && p[|p| - 1] == u;
    var q := p + [w];
    assert forall i :: 0 <= i < |p| ==> q[i] == p[i];
    assert IsPath(graph, q);
  }

  /** A set of keys that holds `s` and all successors of its members holds
      every node reachable from `s`. */
  lemma ClosedHoldsReachable(graph: Graph, s: int, S: seq<int>, v: int)
    requires s in S
    requires forall u :: u in S ==> u in graph && forall w :: w in graph[u] ==> w in S
    requires Reachable(graph, s, v)
    ensures v in S
  {
    var p :| IsPath(graph, p) && p[0] == s && p[|p| - 1] == v;
    var i := 0;
    while i < |p| - 1
      invariant 0 <= i < |p| && p[i] in S
    {
      var u, w := p[i], p[i + 1];
      assert u in S && w in graph[u];
      i := i + 1;
    }
  }

  /** The state of the loop of `dfs`: `visited` holds distinct keys
      and starts at `start`; every node seen so far is reachable from `start`;
      and every successor of a visited node, as well as `start` itself, is
      visited or still on the stack. */
  ghost predicate DfsState(graph: Graph, start: int, visited: seq<int>, stack: seq<int>) {
    && Distinct(visited)
    && (|visited| == 0 ==> stack == [start])
    && (|visited| > 0 ==> visited[0] == start)
    && (forall v :: v in visited ==> Reachable(graph, start, v))
    && (forall v :: v in stack ==> Reachable(graph, start, v))
    && (start in visited || start in stack)
    && (forall u :: u in visited ==> u in graph && forall w :: w in graph[u] ==> w in visited || w in stack)
  }

  lemma DfsInit(graph: Graph, start: int)
    ensures DfsState(graph, start, [], [start])
  {
    ReachableFromSelf(graph, start);
  }

  /** Popping an already visited node keeps the state. */
  lemma DfsSkip(graph: Graph, start: int, visited: seq<int>, stack: seq<int>)
    requires DfsState(graph, start, visited, stack)
    requires |stack| > 0 && stack[|stack| - 1] in visited
    ensures DfsState(graph, start, visited, stack[..|stack| - 1])
  {
    var rest := stack[..|stack| - 1];
    assert stack == rest + [stack[|stack| - 1]];
    assert |visited| > 0;
  }

  /** Popping an unvisited key, recording it and pushing its successors keeps
      the state. */
  lemma DfsExpand(graph: Graph, start: int, visited: seq<int>, stack: seq<int>)
    requires DfsState(graph, start, visited, stack)
    requires |stack| > 0 && stack[|stack| - 1] !in visited && stack[|stack| - 1] in graph
    ensures var node := stack[|stack| - 1];
            DfsState(graph, start, visited + [node], PushReversed(stack[..|stack| - 1], graph[node]))
  {
    var node := stack[|stack| - 1];
    var rest := stack[..|stack| - 1];
    assert stack == rest + [node];
    var visited' := visited + [node];
    var stack' := PushReversed(rest, graph[node]);
    forall w | w in graph[node]
      ensures Reachable(graph, start, w)
    {
      ReachableStep(graph, start, node, w);
    }
    assert visited'[0] == start;
  }

  /** When the stack runs dry, the visited nodes are exactly the reachable ones. */
  lemma DfsFinish(graph: Graph, start: int, visited: seq<int>)
    requires DfsState(graph, start, visited, [])
    ensures |visited| > 0
    ensures forall v :: v in visited <==> Reachable(graph, start, v)
  {
    forall v | Reachable(graph, start, v)
      ensures v in visited
    {
      ClosedHoldsReachable(graph, start, visited, v);
    }
  }

  /** `dfs` itself. The first node that must be expanded but is not a key
      yields `NotFound`; this happens exactly when some node reachable from
      `start` is not a key. Otherwise the result starts at `start`, has no
      repeats, and holds exactly the nodes reachable from `start`. */
  method Dfs(graph: Graph, start: int) returns (r: Traversal)
    ensures r == DfsRun(graph, [], [start])
    ensures r.Visited? ==> |r.order| > 0 && r.order[0] == start && Distinct(r.order)
    ensures r.Visited? ==> forall v :: v in r.order <==> Reachable(graph, start, v)
    ensures r.NotFound? ==> r.key !in graph && Reachable(graph, start, r.key)
    ensures r.Visited? <==> forall v :: Reachable(graph, start, v) ==> v in graph
    ensures Closed(graph) && start in graph ==> r.Visited?
  {
    var visited: seq<int> := [];
    var stack := [start];
    DfsInit(graph, start);
    while |stack| > 0
      invariant DfsState(graph, start, visited, stack)
      invariant DfsRun(graph, visited, stack) == DfsRun(graph, [], [start])
      decreases |graph.Keys - Elems(visited)|, |stack|
    {
      var node := stack[|stack| - 1];
      if node in visited {
        DfsSkip(graph, start, visited, stack);
        stack := stack[..|stack| - 1];
      } else {
        if node !in graph {
          assert stack[|stack| - 1] in stack;
          assert !(Closed(graph) && start in graph) by {
            if Closed(graph) && start in graph {
              ClosedReachableAreKeys(graph, start, node);
              assert false;
            }
          }
          return NotFound(node);
        }
        DfsExpand(graph, start, visited, stack);
        assert graph.Keys - Elems(visited + [node]) == (graph.Keys - Elems(visited)) - {node};
        visited := visited + [node];
        stack := PushReversed(stack[..|stack| - 1], graph[node]);
      }
    }
    DfsFinish(graph, start, visited);
    if Closed(graph) && start in graph {
      forall v | Reachable(graph, start, v)
        ensures v in graph
      {
        ClosedReachableAreKeys(graph, start, v);
      }
    }
    return Visited(visited);
  }

  /** From any loop state, the rest of the run either fails on a reachable
      node that is not a key, or visits each reachable node exactly once,
      starting at `start`, and nothing else. */
  lemma {:induction false} DfsRunFromState(graph: Graph, start: int, visited: seq<int>, stack: seq<int>)
    requires DfsState(graph, start, visited, stack)
    ensures var r := DfsRun(graph, visited, stack);
            && (r.Visited? ==> |r.order| > 0 && r.order[0] == start && Distinct(r.order))
            && (r.Visited? ==> forall v :: v in r.order <==> Reachable(graph, start, v))
            && (r.Visited? ==> forall v :: v in r.order ==> v in graph)
            && (r.NotFound? ==> r.key !in graph && Reachable(graph, start, r.key))
    decreases |graph.Keys - Elems(visited)|, |stack|
  {
    if |stack| == 0 {
      DfsFinish(graph, start, visited);
    } else {
      var node := stack[|stack| - 1];
      var rest := stack[..|stack| - 1];
      if node in visited {
        DfsSkip(graph, start, visited, stack);
        DfsRunFromState(graph, start, visited, rest);
      } else if node !in graph {
        assert stack[|stack| - 1] in stack;
      } else {
        DfsExpand(graph, start, visited, stack);
        assert graph.Keys - Elems(visited + [node]) == (graph.Keys - Elems(visited)) - {node};
        DfsRunFromState(graph, start, visited + [node], PushReversed(rest, graph[node]));
      }
    }
  }

  /** The reference run from `start` fails exactly when some node reachable
      from `start` is not a key, and never for a start key of a closed graph.
      Otherwise it visits each reachable node exactly once, starting at `start`. */
  lemma DfsRunCorrect(graph: Graph, start: int)
    ensures var r := DfsRun(graph, [], [start]);
            && (r.Visited? ==> |r.order| > 0 && r.order[0] == start && Distinct(r.order))
            && (r.Visited? ==> forall v :: v in r.order <==> Reachable(graph, start, v))
            && (r.NotFound? ==> r.key !in graph && Reachable(graph, start, r.key))
            && (r.Visited? <==> forall v :: Reachable(graph, start, v) ==> v in graph)
            && (Closed(graph) && start in graph ==> r.Visited?)
  {
    DfsInit(graph, start);
    DfsRunFromState(graph, start, [], [start]);
    if Closed(graph) && start in graph {
      forall v | Reachable(graph, start, v)
        ensures v in graph
      {
        ClosedReachableAreKeys(graph, start, v);
      }
    }
  }

  /** In a closed graph every node reachable from a key is a key. */
  lemma ClosedReachableAreKeys(graph: Graph, start: int, v: int)
    requires Closed(graph) && start in graph && Reachable(graph, start, v)
    ensures v in graph
  {
    var p :| IsPath(graph, p) && p[0] == start && p[|p| - 1] == v;
    var i := 0;
    while i < |p| - 1
      invariant 0 <= i < |p| && p[i] in graph
    {
      var u, w := p[i], p[i + 1];
      assert w in graph[u];
      i := i + 1;
    }
  }
}
