/** The demonstration runs at the bottom of both scripts, and the small cases
    their descriptions promise, replayed step by step on the reference runs. */
module Examples {
  import Sequences
  import TopologicalSort
  import DfsStack

  /** The script's graph, `{1: [2, 3], 2: [4, 5], 3: [], 4: [], 5: []}`. */
  function DemoTree(): DfsStack.Graph {
    map[1 := [2, 3], 2 := [4, 5], 3 := [], 4 := [], 5 := []]
  }

  /** Popping an unvisited key records it and pushes its successors. */
  lemma PopExpand(graph: DfsStack.Graph, visited: seq<int>, rest: seq<int>, node: int)
    requires node !in visited && node in graph
    ensures DfsStack.DfsRun(graph, visited, rest + [node])
            == DfsStack.DfsRun(graph, visited + [node], DfsStack.PushReversed(rest, graph[node]))
  {
    assert (rest + [node])[..|rest|] == rest;
  }

  /** Popping a node visited before only shrinks the stack. */
  lemma PopSkip(graph: DfsStack.Graph, visited: seq<int>, rest: seq<int>, node: int)
    requires node in visited
    ensures DfsStack.DfsRun(graph, visited, rest + [node]) == DfsStack.DfsRun(graph, visited, rest)
  {
    assert (rest + [node])[..|rest|] == rest;
  }

  /** Popping an unvisited node that is not a key ends the run. */
  lemma PopMissing(graph: DfsStack.Graph, visited: seq<int>, rest: seq<int>, node: int)
    requires node !in visited && node !in graph
    ensures DfsStack.DfsRun(graph, visited, rest + [node]) == DfsStack.NotFound(node)
  {
  }

  lemma PushNone(stack: seq<int>)
    ensures DfsStack.PushReversed(stack, []) == stack
  {
  }

  lemma PushOne(stack: seq<int>, a: int)
    ensures DfsStack.PushReversed(stack, [a]) == stack + [a]
  {
  }

  lemma PushTwo(stack: seq<int>, a: int, b: int)
    ensures DfsStack.PushReversed(stack, [a, b]) == stack + [b, a]
  {
    var r := DfsStack.PushReversed(stack, [a, b]);
    assert [a, b][0] == a && [a, b][1] == b;
    assert r[|stack|] == b && r[|stack| + 1] == a;
    assert r == stack + [b, a];
  }

  /** From node 1 the traversal goes deep into 2's subtree first: [1, 2, 4, 5, 3]. */
  lemma DfsDemoOrder()
    ensures DfsStack.DfsRun(DemoTree(), [], [1]) == DfsStack.Visited([1, 2, 4, 5, 3])
  {
    DemoPopOne();
    DemoPopTwo();
    DemoPopLeaves();
  }

  /** Pop 1 and push its successors reversed: 3, then 2 on top. */
  lemma DemoPopOne()
    ensures DfsStack.DfsRun(DemoTree(), [], [1]) == DfsStack.DfsRun(DemoTree(), [1], [3, 2])
  {
    var g := DemoTree();
    PopExpand(g, [], [], 1);
    PushTwo([], 2, 3);
    assert [] + [1] == [1] && g[1] == [2, 3] && [] + [3, 2] == [3, 2];
  }

  /** Pop 2 and push 5, then 4 on top. */
  lemma DemoPopTwo()
    ensures DfsStack.DfsRun(DemoTree(), [1], [3, 2]) == DfsStack.DfsRun(DemoTree(), [1, 2], [3, 5, 4])
  {
    var g := DemoTree();
    PopExpand(g, [1], [3], 2);
    PushTwo([3], 4, 5);
    assert [3] + [2] == [3, 2] && [1] + [2] == [1, 2] && g[2] == [4, 5] && [3] + [5, 4] == [3, 5, 4];
  }

  /** Pop the leaves 4, 5 and 3 in turn. */
  lemma DemoPopLeaves()
    ensures DfsStack.DfsRun(DemoTree(), [1, 2], [3, 5, 4]) == DfsStack.Visited([1, 2, 4, 5, 3])
  {
    DemoPopFour();
    DemoPopFive();
    DemoPopThree();
  }

  lemma DemoPopFour()
    ensures DfsStack.DfsRun(DemoTree(), [1, 2], [3, 5, 4]) == DfsStack.DfsRun(DemoTree(), [1, 2, 4], [3, 5])
  {
    var g := DemoTree();
    PopExpand(g, [1, 2], [3, 5], 4);
    PushNone([3, 5]);
    assert [3, 5] + [4] == [3, 5, 4] && [1, 2] + [4] == [1, 2, 4] && g[4] == [];
  }

  lemma DemoPopFive()
    ensures DfsStack.DfsRun(DemoTree(), [1, 2, 4], [3, 5]) == DfsStack.DfsRun(DemoTree(), [1, 2, 4, 5], [3])
  {
    var g := DemoTree();
    PopExpand(g, [1, 2, 4], [3], 5);
    PushNone([3]);
    assert [3] + [5] == [3, 5] && [1, 2, 4] + [5] == [1, 2, 4, 5] && g[5] == [];
  }

  lemma DemoPopThree()
    ensures DfsStack.DfsRun(DemoTree(), [1, 2, 4, 5], [3]) == DfsStack.Visited([1, 2, 4, 5, 3])
  {
    var g := DemoTree();
    PopExpand(g, [1, 2, 4, 5], [], 3);
    PushNone([]);
    assert [] + [3] == [3] && [1, 2, 4, 5] + [3] == [1, 2, 4, 5, 3] && g[3] == [];
  }

  /** A lone node yields just itself. */
  lemma DfsSingleNode()
    ensures DfsStack.DfsRun(map[1 := []], [], [1]) == DfsStack.Visited([1])
  {
    var g: DfsStack.Graph := map[1 := []];
    PopExpand(g, [], [], 1);
    PushNone([]);
    assert [] + [1] == [1] && g[1] == [];
  }

  /** Two nodes pointing at each other, `{1: [2], 2: [1]}`. */
  function TwoCycle(): DfsStack.Graph {
    map[1 := [2], 2 := [1]]
  }

  /** A two-node cycle terminates: the revisit of 1 is popped and skipped. */
  lemma DfsTwoCycle()
    ensures DfsStack.DfsRun(TwoCycle(), [], [1]) == DfsStack.Visited([1, 2])
  {
    CyclePopOne();
    CyclePopTwo();
    PopSkip(TwoCycle(), [1, 2], [], 1);
  }

  lemma CyclePopOne()
    ensures DfsStack.DfsRun(TwoCycle(), [], [1]) == DfsStack.DfsRun(TwoCycle(), [1], [2])
  {
    var g := TwoCycle();
    assert 1 in g && 1 !in [];
    PopExpand(g, [], [], 1);
    PushOne([], 2);
    assert [] + [1] == [1] && g[1] == [2] && [] + [2] == [2];
  }

  lemma CyclePopTwo()
    ensures DfsStack.DfsRun(TwoCycle(), [1], [2]) == DfsStack.DfsRun(TwoCycle(), [1, 2], [1])
  {
    var g := TwoCycle();
    assert 2 in g && 2 !in [1];
    PopExpand(g, [1], [], 2);
    PushOne([], 1);
    assert [1] + [2] == [1, 2] && g[2] == [1] && [] + [1] == [1] && [] + [2] == [2];
  }

  /** `{1: [2], 2: [1, 3], 3: []}`: node 2 lists the visited node 1 first. */
  function BackEdge(): DfsStack.Graph {
    map[1 := [2], 2 := [1, 3], 3 := []]
  }

  /** The first-listed successor is popped next, but it is skipped when it
      was visited already: after 2, node 1 is popped and skipped, and 3 is
      visited. */
  lemma DfsBackEdgeSkipped()
    ensures DfsStack.DfsRun(BackEdge(), [], [1]) == DfsStack.Visited([1, 2, 3])
  {
    BackEdgePopOne();
    BackEdgePopTwo();
    BackEdgePopRest();
  }

  lemma BackEdgePopOne()
    ensures DfsStack.DfsRun(BackEdge(), [], [1]) == DfsStack.DfsRun(BackEdge(), [1], [2])
  {
    var g := BackEdge();
    assert 1 in g && 1 !in [];
    PopExpand(g, [], [], 1);
    PushOne([], 2);
    assert [] + [1] == [1] && g[1] == [2] && [] + [2] == [2];
  }

  lemma BackEdgePopTwo()
    ensures DfsStack.DfsRun(BackEdge(), [1], [2]) == DfsStack.DfsRun(BackEdge(), [1, 2], [3, 1])
  {
    var g := BackEdge();
    assert 2 in g && 2 !in [1];
    PopExpand(g, [1], [], 2);
    PushTwo([], 1, 3);
    assert [] + [2] == [2] && [1] + [2] == [1, 2] && g[2] == [1, 3] && [] + [3, 1] == [3, 1];
  }

  lemma BackEdgePopRest()
    ensures DfsStack.DfsRun(BackEdge(), [1, 2], [3, 1]) == DfsStack.Visited([1, 2, 3])
  {
    var g := BackEdge();
    assert 1 in [1, 2] && [3] + [1] == [3, 1];
    PopSkip(g, [1, 2], [3], 1);
    assert 3 in g && 3 !in [1, 2];
    PopExpand(g, [1, 2], [], 3);
    PushNone([]);
    assert [] + [3] == [3] && [1, 2] + [3] == [1, 2, 3] && g[3] == [];
  }

  /** A successor that is not a key is reported when it is popped. */
  lemma DfsDanglingSuccessor()
    ensures DfsStack.DfsRun(map[1 := [7]], [], [1]) == DfsStack.NotFound(7)
  {
    var g: DfsStack.Graph := map[1 := [7]];
    PopExpand(g, [], [], 1);
    PushOne([], 7);
    assert [] + [1] == [1] && g[1] == [7] && [] + [7] == [7];
    PopMissing(g, [1], [], 7);
  }

  /** The script's graph, `{0: [1, 2], 1: [3, 4], 2: [4], 3: [5], 4: [5], 5: []}`. */
  function DemoDag(): TopologicalSort.Graph {
    [[1, 2], [3, 4], [4], [5], [5], []]
  }

  /** The demonstration graph sorts to [0, 1, 2, 3, 4, 5]. */
  lemma KahnDemoOrder()
    ensures TopologicalSort.KahnSort(DemoDag()) == TopologicalSort.Order([0, 1, 2, 3, 4, 5])
  {
    var g := DemoDag();
    assert TopologicalSort.WellFormed(g);
    DemoInDegrees();
    DemoSeed();
    DemoDrain();
  }

  /** Only node 0 starts with no incoming edges. */
  lemma DemoSeed()
    ensures TopologicalSort.ZeroInDegreeNodes([0, 1, 1, 1, 2, 2], 6) == [0]
  {
    var indeg := [0, 1, 1, 1, 2, 2];
    assert TopologicalSort.ZeroInDegreeNodes(indeg, 1) == [0];
    assert TopologicalSort.ZeroInDegreeNodes(indeg, 3) == [0];
    assert TopologicalSort.ZeroInDegreeNodes(indeg, 5) == [0];
  }

  /** Node 0 is the only source; 4 and 5 have two incoming edges each. */
  lemma DemoInDegrees()
    ensures TopologicalSort.InDegreeTable(DemoDag()) == [0, 1, 1, 1, 2, 2]
  {
    var t := TopologicalSort.InDegreeTable(DemoDag());
    var want := [0, 1, 1, 1, 2, 2];
    forall v | 0 <= v < 6
      ensures t[v] == want[v]
    {
      DemoPending(v, want[v]);
    }
  }

  /** The number of edges of the demonstration graph into `v`, list by list. */
  lemma DemoPending(v: nat, d: nat)
    requires v < 6
    requires d == [0, 1, 1, 1, 2, 2][v]
    ensures TopologicalSort.PendingEdges(DemoDag(), [], v, 6) == d
  {
    var g := DemoDag();
    assert g[0] == [1, 2] && g[1] == [3, 4] && g[2] == [4] && g[3] == [5] && g[4] == [5] && g[5] == [];
    OccPair(1, 2, v);
    OccPair(3, 4, v);
    OccOne(4, v);
    OccOne(5, v);
    assert TopologicalSort.PendingEdges(g, [], v, 2) == (if v == 1 || v == 2 then 1 else 0) + (if v == 3 || v == 4 then 1 else 0);
    assert TopologicalSort.PendingEdges(g, [], v, 4)
        == TopologicalSort.PendingEdges(g, [], v, 2) + (if v == 4 then 1 else 0) + (if v == 5 then 1 else 0);
    assert TopologicalSort.PendingEdges(g, [], v, 6)
        == TopologicalSort.PendingEdges(g, [], v, 4) + (if v == 5 then 1 else 0) + Sequences.Occ(g[5], v);
  }

  lemma OccOne(a: nat, v: nat)
    ensures Sequences.Occ([a], v) == if a == v then 1 else 0
  {
  }

  lemma OccPair(a: nat, b: nat, v: nat)
    requires a != b
    ensures Sequences.Occ([a, b], v) == if v == a || v == b then 1 else 0
  {
    assert multiset([a, b]) == multiset{a} + multiset{b};
  }

  /** The queue holds [0], then [1, 2], [2, 3], [3, 4], [4], [5]. */
  lemma DemoDrain()
    ensures TopologicalSort.DrainQueue(DemoDag(), [0, 1, 1, 1, 2, 2], [0], [], 6) == [0, 1, 2, 3, 4, 5]
  {
    DemoEmitZero();
    DemoEmitOne();
    DemoEmitTwo();
    DemoEmitThree();
    DemoEmitFour();
    DemoEmitFive();
  }

  lemma DemoEmitZero()
    ensures TopologicalSort.DrainQueue(DemoDag(), [0, 1, 1, 1, 2, 2], [0], [], 6)
         == TopologicalSort.DrainQueue(DemoDag(), [0, 0, 0, 1, 2, 2], [1, 2], [0], 5)
  {
    var g := DemoDag();
    assert TopologicalSort.WellFormed(g);
    TopologicalSort.DrainStep(g, [0, 1, 1, 1, 2, 2], [0], [], 6);
    DemoReleaseFromZero();
    assert g[0] == [1, 2] && [0][1..] == [] && [] + [0] == [0];
  }

  lemma DemoEmitOne()
    ensures TopologicalSort.DrainQueue(DemoDag(), [0, 0, 0, 1, 2, 2], [1, 2], [0], 5)
         == TopologicalSort.DrainQueue(DemoDag(), [0, 0, 0, 0, 1, 2], [2, 3], [0, 1], 4)
  {
    var g := DemoDag();
    assert TopologicalSort.WellFormed(g);
    TopologicalSort.DrainStep(g, [0, 0, 0, 1, 2, 2], [1, 2], [0], 5);
    DemoReleaseFromOne();
    assert g[1] == [3, 4] && [1, 2][1..] == [2] && [0] + [1] == [0, 1];
  }

  lemma DemoEmitTwo()
    ensures TopologicalSort.DrainQueue(DemoDag(), [0, 0, 0, 0, 1, 2], [2, 3], [0, 1], 4)
         == TopologicalSort.DrainQueue(DemoDag(), [0, 0, 0, 0, 0, 2], [3, 4], [0, 1, 2], 3)
  {
    var g := DemoDag();
    assert TopologicalSort.WellFormed(g);
    TopologicalSort.DrainStep(g, [0, 0, 0, 0, 1, 2], [2, 3], [0, 1], 4);
    DemoReleaseFromTwo();
    assert g[2] == [4] && [2, 3][1..] == [3] && [0, 1] + [2] == [0, 1, 2];
  }

  lemma DemoEmitThree()
    ensures TopologicalSort.DrainQueue(DemoDag(), [0, 0, 0, 0, 0, 2], [3, 4], [0, 1, 2], 3)
         == TopologicalSort.DrainQueue(DemoDag(), [0, 0, 0, 0, 0, 1], [4], [0, 1, 2, 3], 2)
  {
    var g := DemoDag();
    assert TopologicalSort.WellFormed(g);
    TopologicalSort.DrainStep(g, [0, 0, 0, 0, 0, 2], [3, 4], [0, 1, 2], 3);
    DemoReleaseFromThree();
    assert g[3] == [5] && [3, 4][1..] == [4] && [0, 1, 2] + [3] == [0, 1, 2, 3];
  }

  lemma DemoEmitFour()
    ensures TopologicalSort.DrainQueue(DemoDag(), [0, 0, 0, 0, 0, 1], [4], [0, 1, 2, 3], 2)
         == TopologicalSort.DrainQueue(DemoDag(), [0, 0, 0, 0, 0, 0], [5], [0, 1, 2, 3, 4], 1)
  {
    var g := DemoDag();
    assert TopologicalSort.WellFormed(g);
    TopologicalSort.DrainStep(g, [0, 0, 0, 0, 0, 1], [4], [0, 1, 2, 3], 2);
    DemoReleaseFromFour();
    assert g[4] == [5] && [4][1..] == [] && [0, 1, 2, 3] + [4] == [0, 1, 2, 3, 4];
  }

  lemma DemoEmitFive()
    ensures TopologicalSort.DrainQueue(DemoDag(), [0, 0, 0, 0, 0, 0], [5], [0, 1, 2, 3, 4], 1) == [0, 1, 2, 3, 4, 5]
  {
    var g := DemoDag();
    assert TopologicalSort.WellFormed(g);
    TopologicalSort.DrainStep(g, [0, 0, 0, 0, 0, 0], [5], [0, 1, 2, 3, 4], 1);
    assert g[5] == [] && [5][1..] == [] && [0, 1, 2, 3, 4] + [5] == [0, 1, 2, 3, 4, 5];
  }

  lemma DemoReleaseFromZero()
    ensures TopologicalSort.ReleaseSuccessors([1, 2], [0, 1, 1, 1, 2, 2], []) == ([0, 0, 0, 1, 2, 2], [1, 2])
  {
    assert [0, 1, 1, 1, 2, 2][1 := 0] == [0, 0, 1, 1, 2, 2];
    assert [0, 0, 1, 1, 2, 2][2 := 0] == [0, 0, 0, 1, 2, 2];
    assert [1, 2][1..] == [2] && [2][1..] == [] && [] + [1] == [1] && [1] + [2] == [1, 2];
  }

  lemma DemoReleaseFromOne()
    ensures TopologicalSort.ReleaseSuccessors([3, 4], [0, 0, 0, 1, 2, 2], [2]) == ([0, 0, 0, 0, 1, 2], [2, 3])
  {
    assert [0, 0, 0, 1, 2, 2][3 := 0] == [0, 0, 0, 0, 2, 2];
    assert [0, 0, 0, 0, 2, 2][4 := 1] == [0, 0, 0, 0, 1, 2];
    assert [3, 4][1..] == [4] && [4][1..] == [] && [2] + [3] == [2, 3];
  }

  lemma DemoReleaseFromTwo()
    ensures TopologicalSort.ReleaseSuccessors([4], [0, 0, 0, 0, 1, 2], [3]) == ([0, 0, 0, 0, 0, 2], [3, 4])
  {
    assert [0, 0, 0, 0, 1, 2][4 := 0] == [0, 0, 0, 0, 0, 2];
    assert [4][1..] == [] && [3] + [4] == [3, 4];
  }

  lemma DemoReleaseFromThree()
    ensures TopologicalSort.ReleaseSuccessors([5], [0, 0, 0, 0, 0, 2], [4]) == ([0, 0, 0, 0, 0, 1], [4])
  {
    assert [0, 0, 0, 0, 0, 2][5 := 1] == [0, 0, 0, 0, 0, 1];
    assert [5][1..] == [];
  }

  lemma DemoReleaseFromFour()
    ensures TopologicalSort.ReleaseSuccessors([5], [0, 0, 0, 0, 0, 1], []) == ([0, 0, 0, 0, 0, 0], [5])
  {
    assert [0, 0, 0, 0, 0, 1][5 := 0] == [0, 0, 0, 0, 0, 0];
    assert [5][1..] == [] && [] + [5] == [5];
  }

  /** Two nodes pointing at each other: neither is ever ready, so the cycle is reported. */
  lemma KahnTwoCycle()
    ensures TopologicalSort.KahnSort([[1], [0]]) == TopologicalSort.CycleDetected
  {
    assert TopologicalSort.WellFormed([[1], [0]]);
    var g: TopologicalSort.Graph := [[1], [0]];
    assert TopologicalSort.PendingEdges(g, [], 0, 2) == 1;
    assert TopologicalSort.PendingEdges(g, [], 1, 2) == 1;
    assert TopologicalSort.InDegreeTable([[1], [0]]) == [1, 1];
    assert TopologicalSort.ZeroInDegreeNodes([1, 1], 2) == [];
  }

  /** A successor outside the node range is rejected. */
  lemma KahnOutOfRange()
    ensures TopologicalSort.KahnSort([[3]]) == TopologicalSort.InvalidGraph
  {
    assert [[3]][0][0] == 3;
  }
}
