# Kahn's topological sort and stack-based depth-first traversal

This project models two graph routines and proves what they compute.

- `topological_sort` (`reference/topologicalsort.py`) is Kahn's algorithm.
  - It counts every node's incoming edges.
  - It seeds a FIFO queue with the nodes of count zero, in ascending order.
  - It then repeatedly takes the front node, appends it to the result and removes its outgoing edges. A target whose count reaches zero joins the back of the queue.
  - If fewer than all nodes were emitted, it reports a cycle instead of an order.
- `dfs` (`Algorithm_with_DataStructure/dfs_stack.py`) is a depth-first traversal with an explicit stack.
  - It pops a node and skips it if it was already visited.
  - Otherwise it records the node and pushes the node's successors in reverse, so the first-listed successor is popped next. It is visited only if it was not visited before.

The Dafny modules are:

- `Sequences`: shared facts about duplicate-free sequences of node identifiers, including occurrence counts and the pigeonhole arguments.
- `TopologicalSort`: the sort.
  - A graph is a sequence of successor lists over the nodes `0 .. N-1`.
  - `KahnSort` is the algorithm as a recursive reference function that gives the exact output order.
  - `Sort` and its helper methods follow the source's loops and are proved equal to `KahnSort`.
  - `Sort` is also proved correct against independent definitions:
    - it rejects a successor outside `0 .. N-1`;
    - it reports `CycleDetected` exactly when the graph has a cycle;
    - otherwise it returns an order that lists every node once and puts the source of each edge before its target.
- `DfsStack`: the traversal.
  - A graph is a map from a node to its ordered successor list.
  - `DfsRun` is the reference run.
  - `Dfs` follows the source's loop and is proved equal to `DfsRun`. It is also proved correct against reachability:
    - the visited list starts at the start node and has no repeats;
    - it holds exactly the nodes reachable from the start;
    - a missing key is reported exactly when some reachable node is not a key of the map.
- `Examples`: the demonstration graphs at the bottom of both scripts, the documented example output, and a few small cases, all stated and proved about the reference runs.

## Model

| member | source | states |
|---|---|---|
| `TopologicalSort.Sort` | reference/topologicalsort.py:101-137 | Rejects exactly the graphs with a successor outside `0 .. N-1`. Reports a cycle exactly when the graph has one. Any returned order lists every node once and puts each edge's source before its target. The result equals the reference run `KahnSort`. |
| `TopologicalSort.KahnSort` | reference/topologicalsort.py:101-137 | The reference run of the whole sort. It rejects exactly the graphs with a successor outside `0 .. N-1`, signals a cycle exactly when the graph has one, and any order it returns lists every node once and puts each edge's source before its target. |
| `TopologicalSort.DrainQueue` | reference/topologicalsort.py:119-130 | The reference main loop. It only appends to the result, one node per iteration, so the nodes already emitted stay a prefix and at most one node is added per unit of fuel. |
| `TopologicalSort.DrainCorrect` | reference/topologicalsort.py:119-137 | From any loop state with enough fuel for the nodes not yet emitted, the reference loop emits at most N distinct nodes. Emitting all of them gives a topological order, and emitting fewer means the graph has a cycle. |
| `TopologicalSort.ReleaseSuccessors` | reference/topologicalsort.py:125-130 | The reference release of one node's edges. The count table keeps its size, and the queue still lists only nodes. |
| `TopologicalSort.CountInDegrees` | reference/topologicalsort.py:103-107 | Succeeds exactly when every successor is a node. Each entry is then the number of occurrences of that node across all successor lists, so a repeated edge counts twice. |
| `TopologicalSort.SeedQueue` | reference/topologicalsort.py:113-116 | The initial queue is strictly ascending and holds exactly the nodes whose count is zero. |
| `TopologicalSort.ZeroInDegreeNodes` | reference/topologicalsort.py:113-116 | The reference seeding is strictly ascending, lists only nodes, and holds a node exactly when its count is zero. |
| `TopologicalSort.ProcessQueue` | reference/topologicalsort.py:119-130 | The main loop emits at most N distinct nodes and agrees with the reference drain. All N emitted means a topological order. Fewer emitted means the graph has a cycle. |
| `TopologicalSort.EmitFront` | reference/topologicalsort.py:121-130 | One iteration appends the front node to the result and keeps the loop invariant: each count equals the number of its incoming edges whose source is not yet emitted, so no count goes negative. The emitted and queued nodes stay within N. |
| `TopologicalSort.ReleaseEdges` | reference/topologicalsort.py:125-130 | Releasing the dequeued node's edges keeps the loop invariant and agrees with the reference release step. |
| `TopologicalSort.ReleaseEffect` | reference/topologicalsort.py:125-130 | Releasing a successor list lowers each node's count by its number of occurrences in the list. It only appends to the queue, and only targets of those edges. |
| `TopologicalSort.KahnStart` | reference/topologicalsort.py:103-116 | After counting and seeding, the loop invariant holds. |
| `TopologicalSort.KahnDequeue` | reference/topologicalsort.py:121-122 | Dequeuing the front node into the result keeps the invariant, with that node's edges now pending release. |
| `TopologicalSort.KahnRelease` | reference/topologicalsort.py:126-130 | Releasing one edge keeps the invariant. The target joins the queue exactly when its count reaches zero, and all of its predecessors are then already in the result. |
| `TopologicalSort.ReleaseKeepsState` | reference/topologicalsort.py:125-130 | Releasing a whole successor list keeps the loop invariant. |
| `TopologicalSort.FinishedIsTopological` | reference/topologicalsort.py:133-137 | An empty queue with all N nodes emitted means the result is a topological order. |
| `TopologicalSort.StuckMeansCycle` | reference/topologicalsort.py:133-134 | An empty queue with fewer than N nodes emitted means the graph has a cycle. |
| `TopologicalSort.KahnFinish` | reference/topologicalsort.py:132-137 | When the queue is empty, the result has no repeats and at most N nodes. It is a topological order when complete and witnesses a cycle otherwise. |
| `TopologicalSort.TopologicalOrderMeansAcyclic` | reference/topologicalsort.py:133-137 | A graph that has a topological order has no cycle, so `Order` and `CycleDetected` are never both possible. |
| `TopologicalSort.WalkMovesForward` | reference/topologicalsort.py:133-137 | Along any walk, positions in a topological order strictly increase. |
| `TopologicalSort.BackwardWalk` | reference/topologicalsort.py:119-134 | When the loop stops early, every node left over still has a predecessor left over, so a walk of any length can be built backwards through nodes never emitted. |
| `TopologicalSort.PendingAfterDequeue` | reference/topologicalsort.py:121-126 | Marking a node as done removes exactly its own edges from every node's pending count. |
| `TopologicalSort.NoPendingEdge` | reference/topologicalsort.py:129-130 | A node with no pending incoming edge has all of its predecessors done. |
| `TopologicalSort.PendingEdgeSource` | reference/topologicalsort.py:133-134 | A pending incoming edge has a source that is not yet done: a node left over with a positive count has a predecessor left over. |
| `DfsStack.Dfs` | Algorithm_with_DataStructure/dfs_stack.py:29-38 | The result agrees with the reference run `DfsRun`. A visiting order starts at the start node, has no repeats, and holds exactly the nodes reachable from it. A missing key is reported exactly when some reachable node is not a key, and never for a start key of a closed graph. |
| `DfsStack.DfsRun` | Algorithm_with_DataStructure/dfs_stack.py:33-38 | The reference run of the loop. It terminates on every graph, cyclic or not. The nodes visited so far stay a prefix of the final order, and a failure names a node that is not a key. |
| `DfsStack.DfsRunFromState` | Algorithm_with_DataStructure/dfs_stack.py:33-38 | From any state satisfying the traversal invariant, the rest of the run either fails on a reachable node that is not a key, or returns keys only: exactly the reachable nodes, once each, starting at the start node. |
| `DfsStack.DfsRunCorrect` | Algorithm_with_DataStructure/dfs_stack.py:29-38 | The reference run from the start node fails exactly when some reachable node is not a key, and never for a start key of a closed graph. Otherwise it visits exactly the reachable nodes, once each, starting at the start node. |
| `DfsStack.PushReversed` | Algorithm_with_DataStructure/dfs_stack.py:37 | The old stack stays at the bottom and the successors sit above it in reverse, so they are popped in their listed order. Nothing else is added. |
| `DfsStack.DfsInit` | Algorithm_with_DataStructure/dfs_stack.py:30-31 | The traversal invariant holds for an empty visited list and a stack holding only the start node. |
| `DfsStack.DfsSkip` | Algorithm_with_DataStructure/dfs_stack.py:34-35 | Popping an already visited node keeps the invariant. |
| `DfsStack.DfsExpand` | Algorithm_with_DataStructure/dfs_stack.py:34-37 | Recording an unvisited key and pushing its successors keeps the invariant: visited nodes are distinct and reachable, and their successors are visited or on the stack. |
| `DfsStack.DfsFinish` | Algorithm_with_DataStructure/dfs_stack.py:33-38 | When the stack is empty, the visited nodes are exactly those reachable from the start. |
| `DfsStack.ReachableStep` | Algorithm_with_DataStructure/dfs_stack.py:36-37 | A successor of a reachable key is reachable. |
| `DfsStack.ClosedHoldsReachable` | Algorithm_with_DataStructure/dfs_stack.py:33-38 | A list of keys that contains the start and every successor of its members contains every reachable node. |
| `DfsStack.ClosedReachableAreKeys` | Algorithm_with_DataStructure/dfs_stack.py:37 | In a graph where every successor is a key, every node reachable from a key is a key, so the lookup of line 37 never fails. |
| `Examples.DfsDemoOrder` | Algorithm_with_DataStructure/dfs_stack.py:41-52 | The documented example `{1: [2, 3], 2: [4, 5], 3: [], 4: [], 5: []}` from node 1 yields `[1, 2, 4, 5, 3]`. |
| `Examples.DfsTwoCycle` | Algorithm_with_DataStructure/dfs_stack.py:33-37 | On `{1: [2], 2: [1]}` the revisit of node 1 is skipped and the traversal ends with `[1, 2]`. |
| `Examples.DfsSingleNode` | Algorithm_with_DataStructure/dfs_stack.py:29-38 | A lone node with no successors yields `[1]`. |
| `Examples.DfsBackEdgeSkipped` | Algorithm_with_DataStructure/dfs_stack.py:34-37 | On `{1: [2], 2: [1, 3], 3: []}` from node 1 the result is `[1, 2, 3]`. After 2 is expanded, its first successor 1 is popped next but skipped, and 3 is visited. |
| `Examples.DfsDanglingSuccessor` | Algorithm_with_DataStructure/dfs_stack.py:37 | A successor that is not a key fails when it is popped and expanded. |
| `Examples.KahnDemoOrder` | reference/topologicalsort.py:139-148 | The script's graph `{0: [1, 2], 1: [3, 4], 2: [4], 3: [5], 4: [5], 5: []}` sorts to `[0, 1, 2, 3, 4, 5]`. |
| `Examples.DemoSeed` | reference/topologicalsort.py:113-116 | With counts `[0, 1, 1, 1, 2, 2]`, the initial queue is `[0]`. |
| `Examples.DemoInDegrees` | reference/topologicalsort.py:103-107 | The script's graph has counts `[0, 1, 1, 1, 2, 2]`. |
| `Examples.DemoDrain` | reference/topologicalsort.py:119-130 | From queue `[0]`, the loop emits `0, 1, 2, 3, 4, 5` in that order. |
| `Examples.KahnTwoCycle` | reference/topologicalsort.py:133-134 | Two nodes pointing at each other are never ready, so a cycle is reported. |
| `Examples.KahnOutOfRange` | reference/topologicalsort.py:107 | A successor outside the node range is rejected. |

## Left out

- Printing and the demonstration calls at module level (`print(result)`, `print("위상 정렬 결과:", ...)`) are left out. The examples state the values they print.
- Python's failures are modelled as result values.
  - The `IndexError` at `in_degree[neighbor] += 1` for a successor `>= N` becomes `InvalidGraph`.
  - The `KeyError` at `graph[node]` in the traversal becomes `NotFound(node)`.
  - The cycle message string becomes `CycleDetected`.
- Negative successors in the sort are not modelled, because node identifiers are `nat`. In Python, a successor below `-N` raises `IndexError` at `in_degree[neighbor] += 1`. A successor from `-N` to `-1` silently shares the count of node `N` plus that successor, and the outcome then depends on which of the two edges is released last:
  - `{0: [-1, 1], 1: []}` counts `[0, 2]`. Emitting 0 lowers the shared count to zero through 1, so node 1 joins the queue and the function returns `[0, 1]`.
  - `{0: [1, -1], 1: []}` reaches zero through -1 instead. So -1 joins the queue, and `graph[current_node]` then raises `KeyError`.
- The sort's graph is a sequence indexed by node, so its keys are always exactly `0 .. N-1`. That input cannot be expressed here. In Python, a dict with other keys may still have only non-negative keys and successors. Then some node in `0 .. N-1` is not a key. The function either fails with `KeyError` when that node is dequeued, fails with `IndexError`, or never emits that node and returns the cycle message, even for a graph without a cycle. For example, `{0: [1], 5: [1]}` counts `[0, 2]` and seeds the queue with `[0]`. Emitting 0 lowers node 1's count only to 1, so the function returns the cycle message. With a negative key it can also return a list: `{0: [-1], -1: []}` counts `[0, 1]`, emits 0, releases -1 through the shared count of node 1, and returns `[0, -1]`.
- The traversal's node identifiers are `int`. The Python function accepts any hashable keys, and the algorithm does not depend on their type.
- `collections.deque` is modelled as a sequence whose front is index 0. Only `popleft` and `append` are used.
- Neither routine changes its graph, and Dafny's graph values are immutable. So "the graph is unchanged" holds by construction and is not stated.
- The reference main loop `DrainQueue` carries an iteration budget of `N`, which the Python `while queue:` loop does not have. `DrainCorrect` and `ProcessQueue` prove the budget is never the reason it stops, since each iteration emits a new node.
- Running time, O(V + E), is not modelled.
- The step-by-step trace in the header comment of `reference/topologicalsort.py` lists in-degrees and a result (`[0, 1, 3, 4, 5]`) that disagree with what the code computes. The model follows the code: `Examples.DemoInDegrees` and `Examples.KahnDemoOrder` state the computed values.
