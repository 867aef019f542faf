/** Kahn's topological sort over a graph whose nodes are the dense identifiers
    `0 .. N-1`: count in-degrees, seed a FIFO queue with the sources in ascending
    order, repeatedly emit the front node and release its successors, and
    report a cycle when fewer than `N` nodes were emitted. */
module TopologicalSort {
  import opened Sequences

  /** `g[u]` lists the targets of the edges leaving node `u`, in order and
      possibly with repeats; the nodes are exactly `0 .. |g|-1`. */
  type Graph = seq<seq<nat>>

  /** Outcome of a sort: an order of all nodes, the cycle signal, or the
      rejection of a graph that names a successor outside `0 .. |g|-1`. */
  datatype SortResult = Order(order: seq<nat>) | CycleDetected | InvalidGraph

  /** Every successor names a node of the graph. */
  predicate WellFormed(g: Graph) {
    forall u, i :: 0 <= u < |g| && 0 <= i < |g[u]| ==> g[u][i] < |g|
  }

  /** There is an edge `u -> v`. */
  ghost predicate Edge(g: Graph, u: nat, v: nat) {
    u < |g| && v in g[u]
  }

  /** A closed walk `c[0] -> c[1] -> ... -> c[|c|-1] == c[0]` of at least one edge. */
  ghost predicate IsCycle(g: Graph, c: seq<nat>) {
    && |c| >= 2
    && c[0] == c[|c| - 1]
    && forall i :: 0 <= i < |c| - 1 ==> Edge(g, c[i], c[i + 1])
  }

  ghost predicate HasCycle(g: Graph) {
    exists c :: IsCycle(g, c)
  }

  /** Every node of `s` is preceded in `s` by all of its predecessors. */
  ghost predicate PredecessorsFirst(g: Graph, s: seq<nat>) {
    forall i, u :: 0 <= i < |s| && Edge(g, u, s[i]) ==> u in s[..i]
  }

  /** `o` lists every node exactly once and puts the source of each edge
      before its target. */
  ghost predicate IsTopologicalOrder(g: Graph, o: seq<nat>) {
    && |o| == |g|
    && Distinct(o)
    && AllBelow(o, |g|)
    && (forall v: nat :: v < |g| ==> v in o)
    && (forall i, j :: 0 <= i < |o| && 0 <= j < |o| && Edge(g, o[i], o[j]) ==> i < j)
  }

  /** Number of edges into `v` whose source is below `n` and not in `done`,
      counting a repeated target once per occurrence. */
  function PendingEdges(g: Graph, done: seq<nat>, v: nat, n: nat): nat
    requires n <= |g|
  {
    if n == 0 then 0
    else PendingEdges(g, done, v, n - 1) + (if n - 1 in done then 0 else Occ(g[n - 1], v))
  }

  /** Number of occurrences of `v` across all successor lists. */
  function InDegree(g: Graph, v: nat): nat {
    PendingEdges(g, [], v, |g|)
  }

  /** The count table built by the counting pass of `topological_sort`. Its
      entries are never negative, but it is typed like the working counts that
      the main loop decrements, as Python's list of ints is. */
  function InDegreeTable(g: Graph): seq<int> {
    seq(|g|, v requires 0 <= v < |g| => InDegree(g, v))
  }

  /** The nodes below `n` whose count in `indeg` is zero, in ascending order. */
  function ZeroInDegreeNodes(indeg: seq<int>, n: nat): (q: seq<nat>)
    requires n <= |indeg|
    ensures StrictlyAscending(q) && AllBelow(q, n)
    ensures forall v: nat :: v in q <==> v < n && indeg[v] == 0
  {
    if n == 0 then []
    else ZeroInDegreeNodes(indeg, n - 1) + (if indeg[n - 1] == 0 then [n - 1] else [])
  }

  /** The edges out of a dequeued node, `succ`, are removed one at a time:
      each target's count drops by one, and a target whose count reaches zero
      joins the back of the queue. */
  function ReleaseSuccessors(succ: seq<nat>, indeg: seq<int>, queue: seq<nat>): (r: (seq<int>, seq<nat>))
    requires AllBelow(succ, |indeg|)
    ensures |r.0| == |indeg|
    ensures AllBelow(queue, |indeg|) ==> AllBelow(r.1, |indeg|)
  {
    if |succ| == 0 then (indeg, queue)
    else
      var v := succ[0];
      var d := indeg[v] - 1;
      ReleaseSuccessors(succ[1..], indeg[v := d], if d == 0 then queue + [v] else queue)
  }

  /** Releasing `succ` lowers each count by the number of edges into that node
      and only appends to the queue, and only targets of those edges. */
  lemma {:induction false} ReleaseEffect(succ: seq<nat>, indeg: seq<int>, queue: seq<nat>)
    requires AllBelow(succ, |indeg|)
    ensures var r := ReleaseSuccessors(succ, indeg, queue);
            && (forall v :: 0 <= v < |indeg| ==> r.0[v] == indeg[v] - Occ(succ, v))
            && |queue| <= |r.1| && r.1[..|queue|] == queue
            && (forall i :: |queue| <= i < |r.1| ==> r.1[i] in succ)
  {
    if |succ| > 0 {
      var v := succ[0];
      var d := indeg[v] - 1;
      var q := if d == 0 then queue + [v] else queue;
      ReleaseEffect(succ[1..], indeg[v := d], q);
      assert succ == [v] + succ[1..];
      assert forall w :: Occ(succ, w) == Occ([v], w) + Occ(succ[1..], w);
    }
  }

  /** The main loop run for at most `fuel` iterations: dequeue the front node,
      emit it, release its successors. Each iteration appends exactly one node
      to `result` and never rewrites it. */
  function DrainQueue(g: Graph, indeg: seq<int>, queue: seq<nat>, result: seq<nat>, fuel: nat): (r: seq<nat>)
    requires WellFormed(g) && |indeg| == |g| && AllBelow(queue, |g|)
    ensures |result| <= |r| <= |result| + fuel && r[..|result|] == result
    decreases fuel
  {
    if |queue| == 0 || fuel == 0 then result
    else
      var cur := queue[0];
      var next := ReleaseSuccessors(g[cur], indeg, queue[1..]);
      DrainQueue(g, next.0, next.1, result + [cur], fuel - 1)
  }

  /** The whole algorithm as one expression; the loop never needs more than
      `|g|` iterations, since each emits a distinct node. An out-of-range
      successor is rejected; otherwise the cycle signal comes exactly for a
      graph with a cycle, and an order lists every node once, respecting
      every edge. */
  function KahnSort(g: Graph): (r: SortResult)
    ensures r.InvalidGraph? <==> !WellFormed(g)
    ensures r.Order? ==> IsTopologicalOrder(g, r.order)
    ensures WellFormed(g) ==> (r.CycleDetected? <==> HasCycle(g))
  {
    if !WellFormed(g) then InvalidGraph
    else
      var indeg := InDegreeTable(g);
      var queue := ZeroInDegreeNodes(indeg, |g|);
      var order := DrainQueue(g, indeg, queue, [], |g|);
      KahnStart(g);
      DrainCorrect(g, indeg, queue, [], |g|);
      if |order| != |g| then CycleDetected
      else
        TopologicalOrderMeansAcyclic(g, order);
        Order(order)
  }

  /** The state of the main loop. `result` holds the dequeued nodes and `queue`
      the ready ones; `rest` holds the not yet released edges out of the node
      dequeued last. A node's count is the number of its incoming edges still
      to be released, and it is zero exactly for the nodes already enqueued. */
  ghost predicate KahnState(g: Graph, result: seq<nat>, queue: seq<nat>, indeg: seq<int>, rest: seq<nat>) {
    && WellFormed(g)
    && |indeg| == |g|
    && AllBelow(result, |g|)
    && AllBelow(queue, |g|)
    && AllBelow(rest, |g|)
    && Distinct(result + queue)
    && (forall v: nat :: v < |g| ==> indeg[v] == PendingEdges(g, result, v, |g|) + Occ(rest, v))
    && (forall v: nat :: v < |g| ==> (v in result + queue <==> indeg[v] == 0))
    && PredecessorsFirst(g, result + queue)
  }

  lemma {:induction false} PendingAfterDequeue(g: Graph, done: seq<nat>, c: nat, v: nat, n: nat)
    requires n <= |g| && c !in done
    ensures PendingEdges(g, done + [c], v, n) + (if c < n then Occ(g[c], v) else 0)
            == PendingEdges(g, done, v, n)
  {
    if n > 0 {
      PendingAfterDequeue(g, done, c, v, n - 1);
      assert (n - 1 in done + [c]) <==> (n - 1 in done || n - 1 == c);
    }
  }

  /** With no pending edge into `v`, every predecessor of `v` is done. */
  lemma {:induction false} NoPendingEdge(g: Graph, done: seq<nat>, v: nat, n: nat, u: nat)
    requires n <= |g| && PendingEdges(g, done, v, n) == 0
    requires u < n && Edge(g, u, v)
    ensures u in done
  {
    if u < n - 1 {
      NoPendingEdge(g, done, v, n - 1, u);
    } else {
      assert v in multiset(g[u]);
    }
  }

  /** A pending edge into `v` has a source that is not done. */
  lemma {:induction false} PendingEdgeSource(g: Graph, done: seq<nat>, v: nat, n: nat) returns (u: nat)
    requires n <= |g| && PendingEdges(g, done, v, n) > 0
    ensures u < n && u !in done && Edge(g, u, v)
  {
    if PendingEdges(g, done, v, n - 1) > 0 {
      u := PendingEdgeSource(g, done, v, n - 1);
    } else {
      u := n - 1;
      assert v in multiset(g[u]);
    }
  }

  /** After the in-degree pass and the seeding, the loop state holds. */
  lemma KahnStart(g: Graph)
    requires WellFormed(g)
    ensures KahnState(g, [], ZeroInDegreeNodes(InDegreeTable(g), |g|), InDegreeTable(g), [])
  {
    var indeg := InDegreeTable(g);
    var queue := ZeroInDegreeNodes(indeg, |g|);
    assert [] + queue == queue;
    forall i, u: nat | 0 <= i < |queue| && u < |g|
      ensures !Edge(g, u, queue[i])
    {
      if Edge(g, u, queue[i]) {
        assert indeg[queue[i]] == InDegree(g, queue[i]) == 0;
        NoPendingEdge(g, [], queue[i], |g|, u);
        assert false;
      }
    }
  }

  /** Dequeuing the front node keeps the state, with its edges now pending release. */
  lemma KahnDequeue(g: Graph, result: seq<nat>, queue: seq<nat>, indeg: seq<int>)
    requires KahnState(g, result, queue, indeg, []) && |queue| > 0
    ensures KahnState(g, result + [queue[0]], queue[1..], indeg, g[queue[0]])
  {
    var c := queue[0];
    assert result + [c] + queue[1..] == result + queue;
    DistinctSplit(result, queue);
    assert c !in result;
    forall v: nat | v < |g|
      ensures indeg[v] == PendingEdges(g, result + [c], v, |g|) + Occ(g[c], v)
    {
      PendingAfterDequeue(g, result, c, v, |g|);
    }
  }

  /** Releasing one edge `rest[0]` keeps the state; the target joins the queue
      exactly when its count drops to zero. */
  lemma KahnRelease(g: Graph, result: seq<nat>, queue: seq<nat>, indeg: seq<int>, rest: seq<nat>)
    requires KahnState(g, result, queue, indeg, rest) && |rest| > 0
    ensures var v := rest[0];
            var d := indeg[v] - 1;
            KahnState(g, result, if d == 0 then queue + [v] else queue, indeg[v := d], rest[1..])
  {
    var v := rest[0];
    var d := indeg[v] - 1;
    var indeg' := indeg[v := d];
    var queue' := if d == 0 then queue + [v] else queue;
    assert rest == [v] + rest[1..];
    assert Occ(rest, v) == Occ(rest[1..], v) + 1;
    assert v !in result + queue;
    forall w: nat | w < |g|
      ensures indeg'[w] == PendingEdges(g, result, w, |g|) + Occ(rest[1..], w)
    {
      assert multiset(rest) == multiset{v} + multiset(rest[1..]);
    }
    if d == 0 {
      var s := result + queue;
      var s' := result + queue';
      assert s' == s + [v];
      forall i, u | 0 <= i < |s'| && Edge(g, u, s'[i])
        ensures u in s'[..i]
      {
        if i < |s| {
          assert s'[..i] == s[..i];
        } else {
          NoPendingEdge(g, result, v, |g|, u);
          assert s'[..i] == s;
        }
      }
    }
  }

  /** Releasing all of `rest` keeps the state. */
  lemma {:induction false} ReleaseKeepsState(g: Graph, result: seq<nat>, queue: seq<nat>, indeg: seq<int>, rest: seq<nat>)
    requires KahnState(g, result, queue, indeg, rest)
    ensures var r := ReleaseSuccessors(rest, indeg, queue);
            KahnState(g, result, r.1, r.0, [])
    decreases |rest|
  {
    if |rest| > 0 {
      var v := rest[0];
      var d := indeg[v] - 1;
      KahnRelease(g, result, queue, indeg, rest);
      ReleaseKeepsState(g, result, if d == 0 then queue + [v] else queue, indeg[v := d], rest[1..]);
    }
  }

  /** When the queue runs dry after all `N` nodes were emitted, they form a
      topological order. */
  lemma FinishedIsTopological(g: Graph, result: seq<nat>, indeg: seq<int>)
    requires KahnState(g, result, [], indeg, []) && |result| == |g|
    ensures IsTopologicalOrder(g, result)
  {
    assert result + [] == result;
    FullCoversAll(result, |g|);
    forall i, j | 0 <= i < |result| && 0 <= j < |result| && Edge(g, result[i], result[j])
      ensures i < j
    {
      assert result[i] in result[..j];
      var k :| 0 <= k < j && result[..j][k] == result[i];
      assert result[k] == result[i];
    }
  }

  /** A walk of `len` nodes, none of them done, ending at `v`, built backwards
      by following pending edges. */
  lemma {:induction false} BackwardWalk(g: Graph, done: seq<nat>, indeg: seq<int>, v: nat, len: nat)
    returns (w: seq<nat>)
    requires KahnState(g, done, [], indeg, [])
    requires v < |g| && v !in done && len >= 1
    ensures |w| == len && w[len - 1] == v
    ensures AllBelow(w, |g|)
    ensures forall i :: 0 <= i < |w| ==> w[i] !in done
    ensures forall i :: 0 <= i < |w| - 1 ==> Edge(g, w[i], w[i + 1])
  {
    if len == 1 {
      w := [v];
    } else {
      var tail := BackwardWalk(g, done, indeg, v, len - 1);
      var head := tail[0];
      assert done + [] == done;
      assert indeg[head] != 0;
      assert PendingEdges(g, done, head, |g|) > 0;
      var u := PendingEdgeSource(g, done, head, |g|);
      w := [u] + tail;
      assert forall i :: 1 <= i < |w| ==> w[i] == tail[i - 1];
    }
  }

  /** When the queue runs dry with fewer than `N` nodes emitted, every leftover
      node still has a leftover predecessor, so following predecessors
      `N + 1` times must revisit a node: the graph has a cycle. */
  lemma StuckMeansCycle(g: Graph, result: seq<nat>, indeg: seq<int>)
    requires KahnState(g, result, [], indeg, []) && |result| < |g|
    ensures HasCycle(g)
  {
    assert result + [] == result;
    var v := ShortMissesSome(result, |g|);
    var w := BackwardWalk(g, result, indeg, v, |g| + 1);
    var i, j := Pigeonhole(w, |g|);
    var c := w[i..j + 1];
    forall k | 0 <= k < |c| - 1
      ensures Edge(g, c[k], c[k + 1])
    {
      assert c[k] == w[i + k] && c[k + 1] == w[i + k + 1];
    }
    assert IsCycle(g, c);
  }

  /** When the queue runs dry, the emitted nodes are a topological order if
      there are `N` of them and witness a cycle otherwise. */
  lemma KahnFinish(g: Graph, result: seq<nat>, indeg: seq<int>)
    requires KahnState(g, result, [], indeg, [])
    ensures |result| <= |g| && Distinct(result)
    ensures |result| == |g| ==> IsTopologicalOrder(g, result)
    ensures |result| < |g| ==> HasCycle(g)
  {
    assert result + [] == result;
    DistinctBelowBound(result, |g|);
    if |result| == |g| {
      FinishedIsTopological(g, result, indeg);
    } else {
      StuckMeansCycle(g, result, indeg);
    }
  }

  /** From any loop state, with enough fuel for the nodes not yet emitted, the
      rest of the run emits at most `N` distinct nodes: a topological order
      when it emits all of them, and a witness of a cycle otherwise. */
  lemma {:induction false} DrainCorrect(g: Graph, indeg: seq<int>, queue: seq<nat>, result: seq<nat>, fuel: nat)
    requires KahnState(g, result, queue, indeg, [])
    requires |g| - |result| <= fuel
    ensures var r := DrainQueue(g, indeg, queue, result, fuel);
            && |r| <= |g| && Distinct(r)
            && (|r| == |g| ==> IsTopologicalOrder(g, r))
            && (|r| < |g| ==> HasCycle(g))
    decreases fuel
  {
    if |queue| == 0 {
      KahnFinish(g, result, indeg);
    } else {
      assert AllBelow(result + queue, |g|);
      DistinctBelowBound(result + queue, |g|);
      var cur := queue[0];
      DrainStep(g, indeg, queue, result, fuel);
      KahnDequeue(g, result, queue, indeg);
      ReleaseKeepsState(g, result + [cur], queue[1..], indeg, g[cur]);
      var next := ReleaseSuccessors(g[cur], indeg, queue[1..]);
      DrainCorrect(g, next.0, next.1, result + [cur], fuel - 1);
    }
  }

  /** Position of `x` in `s`. */
  ghost function IndexOf(s: seq<nat>, x: nat): (k: nat)
    requires x in s
    ensures k < |s| && s[k] == x
  {
    if s[0] == x then 0 else 1 + IndexOf(s[1..], x)
  }

  /** Along a walk, positions in a topological order strictly increase. */
  lemma {:induction false} WalkMovesForward(g: Graph, o: seq<nat>, c: seq<nat>)
    requires WellFormed(g) && IsTopologicalOrder(g, o)
    requires |c| >= 2 && forall i :: 0 <= i < |c| - 1 ==> Edge(g, c[i], c[i + 1])
    ensures c[0] in o && c[|c| - 1] in o
    ensures IndexOf(o, c[0]) < IndexOf(o, c[|c| - 1])
  {
    var n := |c|;
    assert Edge(g, c[n - 2], c[n - 1]);
    assert c[n - 1] < |g|;
    if n > 2 {
      WalkMovesForward(g, o, c[..n - 1]);
    }
    var a, b := IndexOf(o, c[n - 2]), IndexOf(o, c[n - 1]);
    assert Edge(g, o[a], o[b]);
  }

  /** A graph with a topological order has no cycle: along a cycle the
      positions would strictly increase and yet come back to the start. */
  lemma TopologicalOrderMeansAcyclic(g: Graph, o: seq<nat>)
    requires WellFormed(g) && IsTopologicalOrder(g, o)
    ensures !HasCycle(g)
  {
    if c :| IsCycle(g, c) {
      WalkMovesForward(g, o, c);
      assert false;
    }
  }

  /** The counting pass of `topological_sort`: count the occurrences of every node across all successor
      lists, failing on a successor outside `0 .. |g|-1`. */
  method CountInDegrees(g: Graph) returns (ok: bool, indeg: seq<int>)
    ensures ok <==> WellFormed(g)
    ensures ok ==> |indeg| == |g| && forall v: nat :: v < |g| ==> indeg[v] == InDegree(g, v)
    ensures ok ==> indeg == InDegreeTable(g)
  {
    var n := |g|;
    indeg := seq(n, _ => 0);
    var node := 0;
    while node < n
      invariant 0 <= node <= n && |indeg| == n
      invariant forall u, i :: 0 <= u < node && 0 <= i < |g[u]| ==> g[u][i] < n
      invariant forall v: nat :: v < n ==> indeg[v] == PendingEdges(g, [], v, node)
    {
      var succ := g[node];
      var k := 0;
      while k < |succ|
        invariant 0 <= k <= |succ| && |indeg| == n
        invariant forall i :: 0 <= i < k ==> succ[i] < n
        invariant forall v: nat :: v < n ==> indeg[v] == PendingEdges(g, [], v, node) + Occ(succ[..k], v)
      {
        var nb := succ[k];
        if nb >= n {
          return false, indeg;
        }
        indeg := indeg[nb := indeg[nb] + 1];
        assert succ[..k + 1] == succ[..k] + [nb];
        k := k + 1;
      }
      assert succ[..k] == succ;
      node := node + 1;
    }
    return true, indeg;
  }

  /** The seeding of the queue in `topological_sort`: the nodes of count zero, in ascending order. */
  method SeedQueue(indeg: seq<int>) returns (queue: seq<nat>)
    ensures StrictlyAscending(queue)
    ensures forall v: nat :: v in queue <==> v < |indeg| && indeg[v] == 0
    ensures queue == ZeroInDegreeNodes(indeg, |indeg|)
  {
    queue := [];
    var node := 0;
    while node < |indeg|
      invariant node <= |indeg|
      invariant queue == ZeroInDegreeNodes(indeg, node)
    {
      if indeg[node] == 0 {
        queue := queue + [node];
      }
      node := node + 1;
    }
  }

  /** The inner loop of `topological_sort`: release the edges out of the node just dequeued. */
  method ReleaseEdges(g: Graph, result: seq<nat>, queue0: seq<nat>, indeg0: seq<int>, succ: seq<nat>)
    returns (indeg: seq<int>, queue: seq<nat>)
    requires KahnState(g, result, queue0, indeg0, succ)
    ensures KahnState(g, result, queue, indeg, [])
    ensures (indeg, queue) == ReleaseSuccessors(succ, indeg0, queue0)
  {
    indeg, queue := indeg0, queue0;
    ghost var target := ReleaseSuccessors(succ, indeg0, queue0);
    var k := 0;
    while k < |succ|
      invariant 0 <= k <= |succ| && |indeg| == |indeg0|
      invariant ReleaseSuccessors(succ[k..], indeg, queue) == target
    {
      var v := succ[k];
      assert succ[k..][1..] == succ[k + 1..];
      indeg := indeg[v := indeg[v] - 1];
      if indeg[v] == 0 {
        queue := queue + [v];
      }
      k := k + 1;
    }
    assert succ[k..] == [];
    ReleaseKeepsState(g, result, queue0, indeg0, succ);
  }

  /** One iteration of the main loop of `topological_sort`: dequeue the front node, emit it, and release its edges. */
  method EmitFront(g: Graph, result0: seq<nat>, queue0: seq<nat>, indeg0: seq<int>)
    returns (result: seq<nat>, queue: seq<nat>, indeg: seq<int>)
    requires KahnState(g, result0, queue0, indeg0, []) && |queue0| > 0
    ensures KahnState(g, result, queue, indeg, [])
    ensures result == result0 + [queue0[0]] && |result + queue| <= |g|
    ensures forall v :: 0 <= v < |indeg| ==> indeg[v] >= 0
    ensures (indeg, queue) == ReleaseSuccessors(g[queue0[0]], indeg0, queue0[1..])
  {
    var cur := queue0[0];
    KahnDequeue(g, result0, queue0, indeg0);
    result := result0 + [cur];
    indeg, queue := ReleaseEdges(g, result, queue0[1..], indeg0, g[cur]);
    DistinctBelowBound(result + queue, |g|);
  }

  /** The one-step unfolding of the reference run `DrainQueue` on a
      non-empty queue with fuel left. */
  lemma DrainStep(g: Graph, indeg: seq<int>, queue: seq<nat>, result: seq<nat>, fuel: nat)
    requires WellFormed(g) && |indeg| == |g| && AllBelow(queue, |g|)
    requires |queue| > 0 && fuel > 0
    ensures var next := ReleaseSuccessors(g[queue[0]], indeg, queue[1..]);
            DrainQueue(g, indeg, queue, result, fuel) == DrainQueue(g, next.0, next.1, result + [queue[0]], fuel - 1)
  {
  }

  /** The FIFO main loop of `topological_sort`. */
  method ProcessQueue(g: Graph, indeg0: seq<int>, queue0: seq<nat>) returns (result: seq<nat>)
    requires KahnState(g, [], queue0, indeg0, [])
    ensures result == DrainQueue(g, indeg0, queue0, [], |g|)
    ensures |result| <= |g| && Distinct(result)
    ensures |result| == |g| ==> IsTopologicalOrder(g, result)
    ensures |result| < |g| ==> HasCycle(g)
  {
    var indeg, queue := indeg0, queue0;
    result := [];
    assert [] + queue0 == queue0;
    DistinctBelowBound(queue0, |g|);
    ghost var target := DrainQueue(g, indeg0, queue0, [], |g|);
    while |queue| > 0
      invariant KahnState(g, result, queue, indeg, [])
      invariant |result + queue| <= |g|
      invariant DrainQueue(g, indeg, queue, result, |g| - |result|) == target
      decreases |g| - |result|
    {
      DrainStep(g, indeg, queue, result, |g| - |result|);
      result, queue, indeg := EmitFront(g, result, queue, indeg);
    }
    KahnFinish(g, result, indeg);
  }

  /** `topological_sort` itself. An out-of-range successor is rejected; otherwise
      the result is a cycle signal exactly when the graph has a cycle, and an
      order of every node respecting every edge otherwise. */
  method Sort(g: Graph) returns (r: SortResult)
    ensures r.InvalidGraph? <==> !WellFormed(g)
    ensures r.Order? ==> IsTopologicalOrder(g, r.order)
    ensures WellFormed(g) ==> (r.CycleDetected? <==> HasCycle(g))
    ensures r == KahnSort(g)
  {
    var ok, indeg := CountInDegrees(g);
    if !ok {
      return InvalidGraph;
    }
    var queue := SeedQueue(indeg);
    KahnStart(g);
    var result := ProcessQueue(g, indeg, queue);
    if |result| != |g| {
      return CycleDetected;
    }
    TopologicalOrderMeansAcyclic(g, result);
    return Order(result);
  }
}
