# Dijkstra with leftist trees and Fibonacci heaps — a verified model

The repository computes single-source shortest distances in a weighted undirected graph. It
has two priority queues of its own:

- a **leftist tree**: a meldable min-heap of `(vertex, key)` nodes. Insertion, delete-min and
  delete are all written in terms of `meld`. The heap also keeps the null-path-length
  (`npl`) field that gives the tree its name.
- a **Fibonacci heap**: circular doubly linked root and child lists, `insert`, `extractMin`
  with consolidation by degree, and `decreaseKey` with cuts and cascading cuts.

Two sets of drivers use these queues:

- The static drivers of `Dijkstra`:
  - a lazy leftist-tree Dijkstra that queues a vertex again on every improvement and skips
    stale entries;
  - an eager Fibonacci-heap Dijkstra that queues every vertex up front and lowers keys in
    place;
  - a depth-first connectivity test.
- The `DijkstraAlgorithm` object: an adjacency-list graph grown with `addEdge`, plus the
  same two engines. Its leftist engine queues every vertex up front and never skips an
  entry.

This project models the core in Dafny:

- `graph.dfy`: graphs, walks, their costs, and what a correct distance table is. The
  distances must be a lower bound over all walks from the source, every finite entry must be
  the cost of some walk, and INF must stand for "no walk".
- `leftist_tree.dfy`: the leftist tree. A tree is an algebraic value; the heap object is a
  class whose one field `root` is reassigned.
- `rings.dfy`, `fibonacci_nodes.dfy`, `fibonacci_model.dfy`, `fibonacci_shapes.dfy` and
  `fibonacci_facts.dfy`: the Fibonacci heap's pointer structure.
  - Every Java `Node` is an index into an arena that holds one sequence per `Node` field.
    A null reference is `NIL`.
  - Each pointer operation is a function from the state before to the state after. The
    ghost root list, child lists, live set and rank state the heap invariant, and lemmas
    show that each operation keeps it.
- `fibonacci_heap.dfy`: the class `FibonacciHeap`. Its methods perform the same pointer
  writes as the Java code, in the same order.
- `dijkstra.dfy`: the static drivers and the depth-first search.
- `dijkstra_algorithm.dfy`: the `DijkstraAlgorithm` class.
- `java_int.dfy`: Java's 32-bit `int` addition, used to show the overflow in the findings
  below.

Every driver is proved to return the shortest-distance table. The proof uses non-negative
weights and exact integer arithmetic.

## Model

| member | source | states |
|---|---|---|
| Graph.PathConcat | Dijkstra.java:150-157 | two walks that meet at a vertex join into one walk from the first start to the last end |
| Graph.ClosedSetHoldsPath | Dijkstra.java:150-157 | a set of vertices that contains the start and is closed under edges contains the end of every walk from that start |
| Graph.RelaxedIsLowerBound | Dijkstra.java:204-219 | once every vertex with a finite distance has all its edges relaxed and the source is at 0, no walk from the source is cheaper than the table's entry for its end |
| Graph.Shortest | Dijkstra.java:190-222 | a relaxed table whose finite entries are walk costs is the shortest-distance table, with INF only for vertices no walk reaches below INF |
| Leftist.Singleton | LeftistTree.java:7-13 | a new node has no children, holds exactly its one entry, and is a leftist tree whose npl 0 is its true null path length |
| Leftist.Meld | LeftistTree.java:42-70 | melding with an empty tree returns the other tree; otherwise the root with the smaller key (the first tree's on a tie) becomes the root |
| Leftist.MeldNpl | LeftistTree.java:57-67 | the melded root's npl is unchanged when its left child was empty; otherwise it is one more than the npl of the child left on the right |
| Leftist.MeldShape | LeftistTree.java:57-67 | the three cases of meld's child placement: with an empty left child the melded subtree goes left and the right stays empty; when the left child's npl is below the melded subtree's, the melded subtree goes left and the old left child moves right; otherwise the old left child stays and the melded subtree goes right |
| Leftist.MeldElems | LeftistTree.java:42-70 | meld keeps every entry of both trees and adds none: the result's entries are the multiset union |
| Leftist.MeldCount | LeftistTree.java:42-70 | the number of nodes carrying a vertex after meld is the sum over both trees |
| Leftist.MeldOrdered | LeftistTree.java:42-70 | melding two heap-ordered trees gives a heap-ordered tree |
| Leftist.MeldLeftist | LeftistTree.java:56-67 | melding two trees with the leftist shape, judged by their stored npl fields, keeps that shape |
| Leftist.MeldNplExactStep | LeftistTree.java:57-67 | one level of meld sets the root's npl to its true null path length, in each of the three placement cases, once the recursive meld has exact npl fields |
| Leftist.MeldNplExact | LeftistTree.java:57-67 | when every stored npl of both trees is the true null path length (one more than the smaller npl of the children, -1 for an empty tree), so is every stored npl of the melded tree |
| Leftist.RootIsMin | LeftistTree.java:28-34 | in a heap-ordered tree the root's key is at most every key in the tree |
| Leftist.DeleteFromElems | LeftistTree.java:84-93 | delete never adds an entry and keeps every entry of other vertices; a tree without the vertex comes back unchanged, and one with it loses at least one of its nodes |
| Leftist.DeleteFromUnique | LeftistTree.java:84-93 | a vertex held by at most one node is absent after delete |
| Leftist.DeleteFromOrdered | LeftistTree.java:84-93 | delete keeps heap order |
| Leftist.RootKeyBound | LeftistTree.java:84-93 | after delete the root's key is no smaller than the old root's |
| Leftist.DeleteMayBreakLeftist | LeftistTree.java:88-91 | there is a heap-ordered leftist tree whose delete result is no longer leftist, because delete rewires children without re-checking npl |
| Leftist.LeftistTree.constructor | LeftistTree.java:19-21 | a new heap is empty |
| Leftist.LeftistTree.Insert | LeftistTree.java:24-26 | the contents gain exactly the inserted tree's entries, heap order is kept, and so are the leftist shape and exact npl fields |
| Leftist.LeftistTree.DeleteMin | LeftistTree.java:29-34 | on an empty heap it returns null and changes nothing; otherwise it returns a node whose key is at most every key, and the contents lose exactly that entry; a leftist heap with exact npl fields keeps them |
| Leftist.LeftistTree.IsEmpty | LeftistTree.java:37-39 | true exactly when the heap holds no entry |
| Leftist.LeftistTree.Delete | LeftistTree.java:79-81 | only entries of the given vertex leave the heap, heap order is kept, and a heap without the vertex is unchanged |
| Leftist.LeftistTree.DecreaseKey | LeftistTree.java:73-76 | other vertices' entries keep their multiplicity; a vertex held at most once is then held exactly once, at the new key |
| FibonacciModel.MergeRoot | FibonacciHeap.java:52-65 | splicing a node next to `min` keeps every field except the ring links and `min`, and the result is a well-formed arena |
| FibonacciModel.RemoveRoot | FibonacciHeap.java:68-78 | unlinking a root rewrites only the two neighbours' links and possibly `min`, and keeps the arena well formed |
| FibonacciModel.RemoveChild | FibonacciHeap.java:81-92 | unlinking a child rewrites only links and the parent's `child`; `min` and the root list are unchanged |
| FibonacciModel.MergeChild | FibonacciHeap.java:95-105 | the returned head is the node itself when the child list was empty (which then leaves the arena as it was), and otherwise the old head; no field but the ring links changes |
| FibonacciModel.Adopt | FibonacciHeap.java:223-230 | making one root a child of another gives it that parent and clears its mark, raises the new parent's degree by one, and keeps keys, data, size, live nodes and the root list |
| FibonacciModel.LinkSpec | FibonacciHeap.java:223-230 | link keeps keys, data, size and the set of live nodes, raises only the new parent's degree, and changes only the linked node's parent (to the new parent) and mark (to unmarked) |
| FibonacciModel.CutSpec | FibonacciHeap.java:151-157 | cut keeps keys, data, size and live nodes, and leaves a non-null `min` |
| FibonacciModel.CutMarks | FibonacciHeap.java:151-157 | cut leaves the node without a parent and unmarked and changes no other parent or mark, so ranks still grow towards the roots; the node becomes `min` exactly when its key is strictly below min's |
| FibonacciModel.Cascade | FibonacciHeap.java:160-170 | cascadingCut keeps keys, data, size, live nodes and ranks |
| FibonacciModel.CascadeCases | FibonacciHeap.java:160-170 | a node without a parent leaves the heap as it was; an unmarked node with a parent is marked and nothing else changes; a marked node with a parent ends without a parent and unmarked, and its old parent ends a root or marked; in every case the node ends a root or marked |
| FibonacciModel.CascadeFrame | FibonacciHeap.java:160-170 | cascadingCut changes the parent and mark of no node of lower rank than where it starts, so none below it |
| FibonacciModel.PromoteStep | FibonacciHeap.java:112-115 | moving one child of the minimum to the root list keeps keys, degrees, size, live nodes and marks, and clears only that child's parent |
| FibonacciModel.Log2Floor | FibonacciHeap.java:188 | for a positive size, the exponent of the largest power of two not above the size: `2^r <= size < 2^(r+1)` |
| FibonacciFacts.InsertInv | FibonacciHeap.java:37-49 | a new node in the root list keeps the heap invariant, the node becomes live and the size grows by one |
| FibonacciFacts.MinIsMinimum | FibonacciHeap.java:108-127 | in a valid heap `min` is null exactly when the heap is empty, and otherwise it is a live node whose key is at most every live key |
| FibonacciFacts.PromoteCore | FibonacciHeap.java:111-116 | each moved child keeps the partial invariant that holds while extractMin promotes children |
| FibonacciFacts.DetachCore | FibonacciHeap.java:117-124 | once the minimum's children are roots, removing the minimum leaves a forest of the remaining live nodes |
| FibonacciFacts.LinkCore | FibonacciHeap.java:223-230 | linking the larger-keyed root under the smaller keeps the forest shape and heap order |
| FibonacciFacts.CutForest | FibonacciHeap.java:151-157 | cutting a child whose key fell below its parent's restores heap order and keeps the forest shape |
| FibonacciFacts.ConsolidateEnd | FibonacciHeap.java:211-219 | after the table is filled, the rebuilt `min` is the least root and no two roots share a degree |
| FibonacciFacts.Lowered | FibonacciHeap.java:135-139 | lowering one node's key breaks heap order at most between that node and its parent, and not even there when the parent's key is still no larger |
| Fibonacci.FibonacciHeap.constructor | FibonacciHeap.java:31-34 | a new heap is empty and valid |
| Fibonacci.FibonacciHeap.Insert | FibonacciHeap.java:37-49 | the heap stays valid, gains exactly the new node with its key and data, and returns that node; the node sits on the root list with no parent, degree 0 and no mark, and becomes `min` exactly when the heap was empty or its key is below the old minimum key |
| FibonacciModel.Grow | FibonacciHeap.java:16-25 | a fresh node carries the given key and data and is an unmarked one-node ring with no parent or child and degree 0; the heap's roots, live nodes and size are untouched |
| Fibonacci.FibonacciHeap.NewNode | FibonacciHeap.java:38 | returns the next arena index and adds the node as `Grow` describes |
| Fibonacci.FibonacciHeap.AddRoot | FibonacciHeap.java:39-46 | the new node becomes `min` on an empty heap, and otherwise is spliced into the root list |
| Fibonacci.FibonacciHeap.MergeWithRootList | FibonacciHeap.java:52-65 | performs exactly the pointer writes of a root-list splice |
| Fibonacci.FibonacciHeap.RemoveFromRootList | FibonacciHeap.java:68-78 | performs exactly the pointer writes of a root-list unlink |
| Fibonacci.FibonacciHeap.RemoveFromChildList | FibonacciHeap.java:81-92 | performs exactly the pointer writes of a child-list unlink |
| Fibonacci.FibonacciHeap.MergeWithChildList | FibonacciHeap.java:95-105 | performs the child-list splice and returns the list's head |
| Fibonacci.FibonacciHeap.ExtractMin | FibonacciHeap.java:108-127 | returns null exactly on an empty heap; otherwise returns a live node whose key is at most every live key, removes only it, keeps all keys and data, and the heap stays valid |
| Fibonacci.FibonacciHeap.RemoveMin | FibonacciHeap.java:110-125 | the minimum leaves the heap, everything else stays live, and the heap stays valid |
| Fibonacci.FibonacciHeap.PromoteChildren | FibonacciHeap.java:111-116 | every child of the minimum ends on the root list with no parent, `min` is still the node being extracted, and no node is lost |
| Fibonacci.FibonacciHeap.PromoteChild | FibonacciHeap.java:113-114 | performs exactly one `PromoteStep`: the child joins the root list with no parent, and every root stays a root |
| Fibonacci.FibonacciHeap.DropRoot | FibonacciHeap.java:117-124 | unlinking the minimum and consolidating leaves a valid heap of the other nodes |
| Fibonacci.FibonacciHeap.DecreaseKey | FibonacciHeap.java:130-147 | a key above the current one is refused and nothing changes; otherwise only that key changes, to the new value, and the heap stays valid; the node becomes `min` exactly when the new key is below the old minimum key; when the new key is below the parent's, the node ends on the root list with no parent and unmarked, and otherwise no parent, mark or root changes |
| Fibonacci.FibonacciHeap.Lower | FibonacciHeap.java:135-146 | the accepted key is written, the node is cut to the root list exactly when it is now below its parent's key, and `min` moves to it exactly when the key is below min's |
| Fibonacci.FibonacciHeap.LowerCut | FibonacciHeap.java:135-146 | when the new key is below the parent's, the node ends on the root list with no parent and unmarked, and the forest invariant holds again |
| Fibonacci.FibonacciHeap.LowerStay | FibonacciHeap.java:135-146 | when there is no parent or the parent's key is no larger, no parent, mark or root changes and only `min` may move |
| Fibonacci.FibonacciHeap.WriteKey | FibonacciHeap.java:135 | writing a smaller key leaves everything but that key as it was, and breaks heap order at most between the node and its parent |
| Fibonacci.FibonacciHeap.SetKey | FibonacciHeap.java:135 | only the node's key changes |
| Fibonacci.FibonacciHeap.CutUp | FibonacciHeap.java:139-142 | cut followed by cascading cut leaves the node on the root list with no parent and unmarked, makes it `min` exactly when its key is below min's, and restores the forest invariant without changing keys, data or live nodes |
| Fibonacci.FibonacciHeap.NewMin | FibonacciHeap.java:144-146 | `min` becomes the node exactly when its key is strictly below min's, and is then again the least root |
| Fibonacci.FibonacciHeap.Cut | FibonacciHeap.java:151-157 | performs exactly the pointer writes of a cut |
| Fibonacci.FibonacciHeap.CascadingCut | FibonacciHeap.java:160-170 | performs exactly `Cascade` (an unmarked node with a parent is marked; a marked one is cut and the cascade climbs), keeps the forest invariant and `min`, and leaves a marked node that had a parent on the root list |
| Fibonacci.FibonacciHeap.Iterate | FibonacciHeap.java:173-184 | walking `right` from a ring's head lists the ring's nodes in order, and an empty list for null |
| Fibonacci.FibonacciHeap.Consolidate | FibonacciHeap.java:187-220 | afterwards no two roots share a degree, `min` is the least root, and keys, data and live nodes are unchanged |
| Fibonacci.FibonacciHeap.PlaceAll | FibonacciHeap.java:194-209 | every root of the snapshot is placed in the degree table |
| Fibonacci.FibonacciHeap.PlaceRoot | FibonacciHeap.java:195-208 | one root is linked with the equal-degree roots of the table until its degree slot is free |
| Fibonacci.FibonacciHeap.FinishTable | FibonacciHeap.java:211-219 | rebuilds `min` from the table, giving a forest with distinct root degrees |
| Fibonacci.FibonacciHeap.RebuildMin | FibonacciHeap.java:212-219 | `min` is null exactly when the table is empty, and otherwise is a table entry whose key is at most every entry's |
| Fibonacci.FibonacciHeap.Link | FibonacciHeap.java:223-230 | performs exactly the pointer writes of link |
| Fibonacci.FibonacciHeap.IsEmpty | FibonacciHeap.java:232-234 | true exactly when the heap has no live node |
| Dijkstra.Dfs | Dijkstra.java:150-157 | marks the start vertex, keeps earlier marks, marks only vertices reachable from the start, and leaves every newly marked vertex with all its neighbours marked |
| Dijkstra.IsConnected | Dijkstra.java:141-148 | true exactly when every vertex is reachable from vertex 0 |
| Dijkstra.Start | Dijkstra.java:161-164 | the initial table (0 at the source, INF elsewhere) has a walk for each finite entry |
| Dijkstra.Improve | Dijkstra.java:209-217 | lowering a neighbour's distance through an edge keeps every finite entry the cost of a recorded walk |
| Dijkstra.Begin | Dijkstra.java:204-206 | taking the unsettled vertex of least distance settles it |
| Dijkstra.Better | Dijkstra.java:209-217 | an improving edge leads to an unsettled vertex, and taking it keeps the scan invariant |
| Dijkstra.Keep | Dijkstra.java:209-217 | a non-improving edge keeps the scan invariant |
| Dijkstra.Finish | Dijkstra.java:209-218 | after all of a vertex's edges are scanned, that vertex is relaxed |
| Dijkstra.DijkstraFibonacciHeap | Dijkstra.java:190-222 | returns a table with 0 at the source that is the shortest-distance table |
| Dijkstra.InsertAll | Dijkstra.java:199-202 | every vertex is queued with its starting distance, and node `i` holds vertex `i` |
| Dijkstra.InsertVertex | Dijkstra.java:200-202 | one more vertex is queued with its distance |
| Dijkstra.ExtractAll | Dijkstra.java:204-219 | once the heap is drained every vertex is relaxed, and finite entries remain walk costs |
| Dijkstra.FibonacciScan | Dijkstra.java:209-218 | relaxing all edges of the extracted vertex keeps the heap's keys equal to the table and settles that vertex |
| Dijkstra.FibonacciRelax | Dijkstra.java:210-217 | one edge relaxation with decreaseKey keeps the heap's keys equal to the table and keeps every finite entry a walk cost |
| Dijkstra.Seed | Dijkstra.java:166-167 | the queue holding only the source at 0 covers every unsettled vertex with a finite distance |
| Dijkstra.Pop | Dijkstra.java:170-173 | a popped entry's key is never below its vertex's distance; a stale entry belongs to a settled vertex, and a current one settles its vertex |
| Dijkstra.Improved | Dijkstra.java:179-182 | an improvement that queues a fresh entry keeps the queue covering every unsettled vertex |
| Dijkstra.Push | Dijkstra.java:181 | inserting a fresh node adds exactly its entry and keeps heap order |
| Dijkstra.PopMin | Dijkstra.java:170 | popping a non-empty tree removes exactly one of its entries, one whose key is at most every other |
| Dijkstra.DijkstraLeftistTree | Dijkstra.java:160-187 | returns a table with 0 at the source that is the shortest-distance table |
| Dijkstra.LeftistDrain | Dijkstra.java:169-184 | once the tree is empty every vertex is relaxed, and finite entries remain walk costs |
| Dijkstra.LeftistPop | Dijkstra.java:170-183 | one pop either discards a stale entry or settles a vertex and scans its edges, keeping the queue invariant |
| Dijkstra.LeftistScan | Dijkstra.java:175-183 | scanning the popped vertex's edges relaxes it and keeps the queue covering every improved vertex |
| Dijkstra.LeftistRelax | Dijkstra.java:176-182 | one edge relaxation, with a push on improvement, keeps the scan and queue invariants |
| Algorithm.EntriesHold | DijkstraAlgorithm.java:67-72 | the queued entries are exactly one `(i, d[i])` per vertex |
| Algorithm.SeedAll | DijkstraAlgorithm.java:67-72 | queueing every vertex at its starting distance covers every unsettled vertex |
| Algorithm.QueueAll | DijkstraAlgorithm.java:67-72 | after the loop the tree holds exactly one entry per vertex at its distance |
| Algorithm.DijkstraAlgorithm.constructor | DijkstraAlgorithm.java:7-13 | `n` vertices, each with an empty adjacency list |
| Algorithm.DijkstraAlgorithm.Size | DijkstraAlgorithm.java:16-18 | the number of vertices, which is the number of adjacency lists |
| Algorithm.DijkstraAlgorithm.AddEdge | DijkstraAlgorithm.java:26-29 | `u` lists `v` and `v` lists `u` at the weight, a self-loop is listed twice, no other list changes, and the graph stays undirected |
| Algorithm.Connect | DijkstraAlgorithm.java:26-29 | adding an edge in both directions keeps every pair of vertices listing each other equally often at each weight |
| Algorithm.Appended | DijkstraAlgorithm.java:27-28 | after addEdge each list's multiset gains exactly the new edges aimed at it |
| Algorithm.Mirror | DijkstraAlgorithm.java:27-28 | addEdge keeps, for any two vertices, the count of mutual listings equal |
| Algorithm.DijkstraAlgorithm.DijkstraFibonacci | DijkstraAlgorithm.java:32-58 | returns one distance per vertex, 0 at the source, forming the shortest-distance table |
| Algorithm.DijkstraAlgorithm.DijkstraLeftist | DijkstraAlgorithm.java:61-89 | returns one distance per vertex, 0 at the source, forming the shortest-distance table |
| JavaInt.AddInt | Dijkstra.java:211 | Java's `int` sum: in range, congruent to the exact sum modulo 2^32, and equal to it when no overflow occurs |
| JavaInt.RelaxAsWritten | Dijkstra.java:211-215 | the relaxation as written changes at most the neighbour, and never raises it |
| JavaInt.UnreachableWraps | Dijkstra.java:209-217 | with source 0 and an edge 1–2 of weight 5, relaxing from vertex 1 (still at INF) sets vertex 2 to -2147483644. That value is not the cost of any walk, whereas exact addition would change nothing |

## Left out

- Reading the graph from the console, the random graph generator, timing, and `main`'s
  printing, including the "INF" output for unreachable vertices: input/output and clocks.
- `getGraph()`: an accessor; the model's `graph` field is public.
- The `Edge` and `Pair` record classes: they become the `Edge` datatype.
- Amortised running times: the model states what each operation computes, not its cost.
  This includes the Fibonacci heap's degree bound and the leftist tree's logarithmic right
  spine.
- Fibonacci.FibonacciHeap.Consolidate: does not model `Math.log` in floating point; the
  table size uses the exact floor of log2(size), plus 10. The model does not prove that
  degrees stay below that size. Where Java would throw IndexOutOfBoundsException on a degree
  beyond the table, the model's table grows with null slots until it has a slot for that degree.
- Fibonacci.FibonacciHeap.DecreaseKey: the IllegalArgumentException for a larger key is
  modelled as the result `false` with the heap unchanged.
- Fibonacci.FibonacciHeap.DecreaseKey: requires a node still in the heap. A decreaseKey on a
  node that was already extracted is not modelled; in Java it can reach the NullPointerException
  on a null `min` at FibonacciHeap.java:144, the path described under "## Findings".
- Leftist.LeftistTree.DecreaseKey: follows the code, which does not check that the new key is
  below the old one. It promises the new entry's uniqueness only when the vertex was held at
  most once.
- Leftist.LeftistTree.Insert: requires the inserted tree to be heap-ordered. Every caller
  inserts a freshly constructed single node, which always is.
- Leftist.LeftistTree: the class invariant is heap order only. Delete can break the leftist
  shape (see `Leftist.DeleteMayBreakLeftist`), so the shape is carried as a conditional
  promise rather than as an invariant.
- Node identity in the leftist tree: trees are values. The Java nodes that `meld` rewires in
  place are owned by one tree at a time, and the drivers read only `vertex` and `key` from a
  popped node.
- Algorithm.DijkstraAlgorithm.AddEdge: requires both endpoints in range. Java throws on a bad
  endpoint, after it has already updated `u`'s list when only `v` is bad.
- Algorithm.DijkstraAlgorithm.constructor: requires `n >= 0`; Java's `ArrayList(n)` throws on
  a negative `n`.
- Dijkstra.IsConnected: requires a non-empty graph. Java throws on an empty one, because
  `dfs` marks vertex 0.
- Negative edge weights: the drivers are proved only for graphs whose weights are
  non-negative (`WellFormed`); Dijkstra's method is not correct without that.
- 32-bit overflow: the drivers are modelled with exact integer addition. The wrap of
  `INF + weight` is shown in the findings. Overflow of finite sums above Integer.MAX_VALUE
  is not modelled.
- The `nodes` map of `dijkstraLeftist`, built at DijkstraAlgorithm.java:66-70 with its
  constructor arguments swapped: it is never read.
- A popped node's links in the leftist driver: `deleteMin` returns the old root object with
  its children still attached; the drivers never follow those links.

## Findings

| source | as written | input that shows it | evidently intended | confidence | as-written member | corrected member |
|---|---|---|---|---|---|---|
| Dijkstra.java:209-217 | `dist[u] + edge.cost` is computed in `int` even when the extracted vertex `u` is unreachable and still at INF (Integer.MAX_VALUE), so the sum wraps to a large negative number and is stored as the neighbour's distance | vertices 0, 1, 2; one edge 1–2 of weight 5; source 0. Vertex 1 is extracted at INF and vertex 2 gets -2147483644. Relaxing the edge back from vertex 2 then lowers the already extracted vertex 1 while the heap is empty, and `decreaseKey` throws NullPointerException on the null `min` (FibonacciHeap.java:144); with vertex 2 extracted first the same happens the other way round | an unreachable vertex relaxes nothing; every finite distance is the cost of a walk from the source | not executed | JavaInt.UnreachableWraps | Dijkstra.FibonacciRelax |
| DijkstraAlgorithm.java:48-55 | `minDist.get(u) + weight` wraps in the same way for an unreachable extracted vertex | the same graph built with `addEdge(1, 2, 5)` on 3 vertices, source 0; as above, the wrapped distance is stored and the relaxation back then ends in NullPointerException at FibonacciHeap.java:144 | as above | not executed | JavaInt.UnreachableWraps | Algorithm.DijkstraAlgorithm.DijkstraFibonacci |
| DijkstraAlgorithm.java:79-86 | every vertex is queued at INF, and a popped INF entry relaxes its edges with a wrapping sum | the same graph, run with `dijkstraLeftist(0)` | as above | not executed | JavaInt.UnreachableWraps | Dijkstra.LeftistRelax |
