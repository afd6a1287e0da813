# Verified model of a data-structures course project (MP1 and MP2)

This project models the core of a two-part Java course project on algorithms
and data structures, and proves properties of that model in Dafny.

- **MP1**
  - A dynamic min-priority queue kept as a ternary heap whose elements carry a
    handle (the slot they occupy).
  - A doubly linked deque with fail-fast ascending and descending iterators.
  - A balanced-brackets checker that uses the deque as a stack.
- **MP2**
  - An undirected graph stored as an adjacency matrix indexed in node
    insertion order.
  - A directed graph stored as a map from each node to its outgoing edges.
  - Prim's algorithm over the ternary heap.
  - Kosaraju's strongly-connected-components finder.

Modules (one per source file, plus two shared ones):

| module | file | models |
|---|---|---|
| `Common` | Common.dfy | Java exception kinds, `Result`/`Option`/`Outcome`, small sequence and set facts |
| `PriorityQueue` | PriorityQueue.dfy | MP1/TernaryHeapMinPriorityQueue.java |
| `Deque` | Deque.dfy | MP1/ASDL2021Deque.java |
| `Brackets` | Brackets.dfy | MP1/BalancedParenthesesChecker.java |
| `Graphs` | Graphs.dfy | the graph value both graph classes expose: nodes, edges, directedness; adjacency, transpose, reachability |
| `MatrixGraph` | MatrixGraph.dfy | MP2/AdjacencyMatrixUndirectedGraph.java |
| `ListGraph` | ListGraph.dfy | MP2/MapAdjacentListDirectedGraph.java |
| `Prim` | Prim.dfy | MP2/PrimMSP.java |
| `Scc` | Scc.dfy | MP2/StronglyConnectedComponentsFinder.java |

Conventions:

- A Java parameter that the source checks for `null` is an `Option`. `None`
  is `null`.
- A thrown exception is the `Err`/`Fail` value of a `Result`/`Outcome`,
  carrying the exception kind.
- Graph nodes are labels and edges are values `Edge(node1, node2, directed,
  weight)`, so label equality stands for the Java `equals`.
- Each graph class keeps its Java fields (index map and matrix, or adjacency
  map) and exposes an abstract `View()` of type `Graphs.Graph`.
- Prim and the SCC finder work on that graph value.
- Classes whose Java fields change in place are Dafny classes with `modifies`
  clauses: the heap, the deque and its nodes, the iterators, the checker and
  the two graphs.
- Loops of the source are `while` loops with their invariants.

## Model

| member | source | states |
|---|---|---|
| PriorityQueue.ChildrenOfParent | MP1/TernaryHeapMinPriorityQueue.java:169-201 | a non-root slot c has parent i exactly when c is one of the three children 3i+1, 3i+2, 3i+3 of i |
| PriorityQueue.ParentBefore | MP1/TernaryHeapMinPriorityQueue.java:169-171 | the parent of a non-root slot comes strictly before it |
| PriorityQueue.RootIsMinimum | MP1/TernaryHeapMinPriorityQueue.java:82-95 | in a heap-ordered list every element's priority is at least the root's |
| PriorityQueue.SizeIsCount | MP1/TernaryHeapMinPriorityQueue.java:42-44 | when handles and slots agree, the list length is the number of queued elements |
| PriorityQueue.Swapped | MP1/TernaryHeapMinPriorityQueue.java:237-247 | exchanging two slots swaps exactly those two entries, and every other slot is unchanged |
| PriorityQueue.LiftStep | MP1/TernaryHeapMinPriorityQueue.java:73-78 | exchanging a slot with a larger parent moves the only heap-order defect one level up |
| PriorityQueue.SinkStep | MP1/TernaryHeapMinPriorityQueue.java:208-235 | exchanging a slot with its least child moves the only heap-order defect one level down |
| PriorityQueue.SinkDone | MP1/TernaryHeapMinPriorityQueue.java:208-235 | a slot no greater than any of its children closes the last defect, so the whole list is in heap order |
| PriorityQueue.TernaryHeapMinPriorityQueue.constructor | MP1/TernaryHeapMinPriorityQueue.java:33-35 | an empty queue |
| PriorityQueue.TernaryHeapMinPriorityQueue.Size | MP1/TernaryHeapMinPriorityQueue.java:42-44 | the list length, which equals the number of queued elements |
| PriorityQueue.TernaryHeapMinPriorityQueue.Swap | MP1/TernaryHeapMinPriorityQueue.java:237-247 | the two slots are exchanged, the two moved elements' handles point at their new slots, priorities are unchanged, and every handle still names its element's slot |
| PriorityQueue.TernaryHeapMinPriorityQueue.SiftUp | MP1/TernaryHeapMinPriorityQueue.java:73-78 | climbing from a slot whose only defect is with its parent restores heap order and the handle invariant, keeping the priorities and the length |
| PriorityQueue.TernaryHeapMinPriorityQueue.Insert | MP1/TernaryHeapMinPriorityQueue.java:57-80 | null fails with NullPointerException and changes nothing; otherwise the element joins with its priority, the size grows by one, the element's handle names its slot, and heap order and the handle invariant hold |
| PriorityQueue.TernaryHeapMinPriorityQueue.Minimum | MP1/TernaryHeapMinPriorityQueue.java:91-95 | NoSuchElementException on an empty queue; otherwise the root, whose priority is least among all queued elements, with nothing changed |
| PriorityQueue.TernaryHeapMinPriorityQueue.MinHeapify | MP1/TernaryHeapMinPriorityQueue.java:208-235 | from a slot whose only defect is with its children, heap order is restored with the same priorities and length; it terminates because the slot index grows |
| PriorityQueue.TernaryHeapMinPriorityQueue.ExtractMinimum | MP1/TernaryHeapMinPriorityQueue.java:105-117 | NoSuchElementException on an empty queue, with nothing changed; otherwise it returns the old root, of least priority, and the queue is the old one without it, one shorter, still heap-ordered |
| PriorityQueue.TernaryHeapMinPriorityQueue.DecreasePriority | MP1/TernaryHeapMinPriorityQueue.java:139-154 | null or an element not queued gives NoSuchElementException; a strictly larger priority gives IllegalArgumentException; both leave the queue unchanged. Otherwise the priority is replaced, the length is kept, the handle names the slot and heap order holds |
| PriorityQueue.TernaryHeapMinPriorityQueue.Clear | MP1/TernaryHeapMinPriorityQueue.java:160-162 | the queue is empty |
| PriorityQueue.InsertLoopAsWritten | MP1/TernaryHeapMinPriorityQueue.java:73-78 | the sift-up loop as written, with its test fixed before the loop; it keeps the length |
| PriorityQueue.InsertAsWritten | MP1/TernaryHeapMinPriorityQueue.java:62-78 | insert as written grows the list by one |
| PriorityQueue.InsertAsWrittenBreaksOrder | MP1/TernaryHeapMinPriorityQueue.java:73-78 | inserting 4 into the heap 1, 5, 6, 7 as written yields a list out of heap order |
| PriorityQueue.DecreaseAsWritten | MP1/TernaryHeapMinPriorityQueue.java:146-153 | decreasePriority as written makes at most one exchange and keeps the length |
| PriorityQueue.DecreaseAsWrittenBreaksOrder | MP1/TernaryHeapMinPriorityQueue.java:146-153 | lowering slot 4 of the heap 1, 5, 6, 7, 8 to 0 as written yields a list out of heap order |
| Deque.Node.constructor | MP1/ASDL2021Deque.java:455-459 | a node holding the element and the two given links |
| Deque.ASDL2021Deque.constructor | MP1/ASDL2021Deque.java:62-67 | an empty deque with modification count 0 |
| Deque.ASDL2021Deque.IsEmpty | MP1/ASDL2021Deque.java:70-75 | true exactly when the contents are empty |
| Deque.ASDL2021Deque.Size | MP1/ASDL2021Deque.java:439-441 | the number of elements, that is the number of linked nodes |
| Deque.ASDL2021Deque.ToArray | MP1/ASDL2021Deque.java:78-85 | the elements from first to last |
| Deque.ASDL2021Deque.Clear | MP1/ASDL2021Deque.java:133-138 | the deque is empty and the modification count grows by one |
| Deque.ASDL2021Deque.AddFirst | MP1/ASDL2021Deque.java:141-158 | null fails with NullPointerException and changes nothing; otherwise the contents become [e] + old contents and the modification count grows by one |
| Deque.ASDL2021Deque.AddLast | MP1/ASDL2021Deque.java:161-176 | null fails with NullPointerException and changes nothing; otherwise the contents become old contents + [e] and the modification count grows by one |
| Deque.ASDL2021Deque.OfferFirst | MP1/ASDL2021Deque.java:179-182 | like addFirst, returning true |
| Deque.ASDL2021Deque.OfferLast | MP1/ASDL2021Deque.java:185-188 | like addLast, returning true |
| Deque.ASDL2021Deque.RemoveFirst | MP1/ASDL2021Deque.java:191-209 | NoSuchElementException on an empty deque, with nothing changed; otherwise it returns s[0], leaves s[1..] and counts one modification |
| Deque.ASDL2021Deque.RemoveLast | MP1/ASDL2021Deque.java:212-235 | NoSuchElementException on an empty deque, with nothing changed; otherwise it returns the last element, leaves the rest in order and counts one modification |
| Deque.ASDL2021Deque.PollFirst | MP1/ASDL2021Deque.java:238-255 | like removeFirst, but null on an empty deque |
| Deque.ASDL2021Deque.PollLast | MP1/ASDL2021Deque.java:258-281 | like removeLast, but null on an empty deque |
| Deque.ASDL2021Deque.GetFirst | MP1/ASDL2021Deque.java:284-288 | the first element, or NoSuchElementException when empty |
| Deque.ASDL2021Deque.GetLast | MP1/ASDL2021Deque.java:291-295 | the last element, or NoSuchElementException when empty |
| Deque.ASDL2021Deque.PeekFirst | MP1/ASDL2021Deque.java:298-303 | the first element, or null when empty |
| Deque.ASDL2021Deque.PeekLast | MP1/ASDL2021Deque.java:306-311 | the last element, or null when empty |
| Deque.ASDL2021Deque.Add | MP1/ASDL2021Deque.java:326-329 | appends at the back (NullPointerException on null) and returns true |
| Deque.ASDL2021Deque.Offer | MP1/ASDL2021Deque.java:332-334 | appends at the back (NullPointerException on null) and returns true |
| Deque.ASDL2021Deque.Remove | MP1/ASDL2021Deque.java:337-339 | removes and returns the front, or NoSuchElementException when empty |
| Deque.ASDL2021Deque.Poll | MP1/ASDL2021Deque.java:342-344 | removes and returns the front, or null when empty |
| Deque.ASDL2021Deque.Element | MP1/ASDL2021Deque.java:347-349 | the front, or NoSuchElementException when empty |
| Deque.ASDL2021Deque.Peek | MP1/ASDL2021Deque.java:352-354 | the front, or null when empty |
| Deque.ASDL2021Deque.Push | MP1/ASDL2021Deque.java:357-359 | inserts at the front (NullPointerException on null) |
| Deque.ASDL2021Deque.Pop | MP1/ASDL2021Deque.java:362-364 | removes and returns the front, or NoSuchElementException when empty |
| Deque.ASDL2021Deque.Contains | MP1/ASDL2021Deque.java:424-436 | NullPointerException on null; otherwise true exactly when some element equals the argument |
| Deque.Itr.constructor | MP1/ASDL2021Deque.java:481-484 | an iterator before the first element, remembering the deque's modification count |
| Deque.Itr.HasNext | MP1/ASDL2021Deque.java:486-499 | while the deque is unmodified, true exactly when elements remain |
| Deque.Itr.Next | MP1/ASDL2021Deque.java:501-514 | ConcurrentModificationException after a modification; NoSuchElementException past the end; otherwise the next element from first to last |
| Deque.DescItr.constructor | MP1/ASDL2021Deque.java:536-539 | an iterator after the last element, remembering the deque's modification count |
| Deque.DescItr.HasNext | MP1/ASDL2021Deque.java:541-554 | while the deque is unmodified, true exactly when elements remain |
| Deque.DescItr.Next | MP1/ASDL2021Deque.java:556-569 | ConcurrentModificationException after a modification; NoSuchElementException past the start; otherwise the next element from last to first |
| Brackets.Bracketed | MP1/BalancedParenthesesChecker.java:35-43 | the word with its blanks dropped has no blanks, and after validation only brackets |
| Brackets.ScanAppend | MP1/BalancedParenthesesChecker.java:67-117 | the matching loop over a concatenation continues from where the first part left the stack |
| Brackets.ScanIgnoresBlanks | MP1/BalancedParenthesesChecker.java:67-117 | blanks do not change the outcome of the matching loop |
| Brackets.ScanCloser | MP1/BalancedParenthesesChecker.java:88-115 | a closer whose opener is on top pops it |
| Brackets.ScanMatched | MP1/BalancedParenthesesChecker.java:67-117 | an opener, a part that returns to it, its closer and a balanced rest return the stack to where it started |
| Brackets.DyckScan | MP1/BalancedParenthesesChecker.java:35-43 | every well-nested word leaves the stack as it found it |
| Brackets.ScanFirstReturn | MP1/BalancedParenthesesChecker.java:67-117 | a scan that empties a stack must close the bottom opener at some position, splitting the word in two |
| Brackets.ScanDyck | MP1/BalancedParenthesesChecker.java:35-43 | a bracket word that the loop accepts with an empty stack is well nested |
| Brackets.ScanAcceptsDyck | MP1/BalancedParenthesesChecker.java:35-43 | after validation, the loop ends with an empty stack exactly when the bracket subsequence is well nested |
| Brackets.BalancedParenthesesChecker.constructor | MP1/BalancedParenthesesChecker.java:31-33 | a checker with a fresh, valid deque |
| Brackets.BalancedParenthesesChecker.Check | MP1/BalancedParenthesesChecker.java:50-122 | any character other than brackets, space, tab or newline gives IllegalArgumentException; otherwise the result is true exactly when the brackets are well nested, independent of earlier calls |
| Graphs.AdjacentWithin | MP2/AdjacencyMatrixUndirectedGraph.java:181-198 | in a well-formed graph, incident edges are edges and adjacent nodes are nodes |
| Graphs.Transpose | MP2/StronglyConnectedComponentsFinder.java:80-91 | the transpose has the same nodes and is directed |
| Graphs.TransposeEdges | MP2/StronglyConnectedComponentsFinder.java:80-91 | there is an edge a to b exactly when the transpose has an edge b to a |
| Graphs.TransposeReverses | MP2/StronglyConnectedComponentsFinder.java:80-91 | v is adjacent to u exactly when u is adjacent to v in the transpose |
| Graphs.UndirectedSymmetric | MP2/AdjacencyMatrixUndirectedGraph.java:181-198 | in an undirected graph adjacency is symmetric |
| Graphs.ReachableStep | MP2/StronglyConnectedComponentsFinder.java:67-78 | a walk through an adjacent node extends to one from u |
| Graphs.ReachableMonotonic | MP2/StronglyConnectedComponentsFinder.java:93-106 | reachability within a set of nodes is kept when the set grows |
| Graphs.ReachableSelf | MP2/StronglyConnectedComponentsFinder.java:93-106 | a node of the set reaches itself |
| Graphs.ClosedHoldsReachable | MP2/StronglyConnectedComponentsFinder.java:93-106 | a set closed under adjacency inside the allowed nodes holds every node reachable from its members |
| Graphs.ReachableTransposed | MP2/StronglyConnectedComponentsFinder.java:80-91 | a walk in the transpose is a reversed walk in the graph |
| Graphs.ReachableToTransposed | MP2/StronglyConnectedComponentsFinder.java:80-91 | a walk in a directed graph, reversed, is a walk in its transpose |
| Graphs.ReachableEnds | MP2/StronglyConnectedComponentsFinder.java:93-106 | both ends of a walk through a set of nodes lie in the set |
| Graphs.ReachableTrans | MP2/StronglyConnectedComponentsFinder.java:67-78 | reachability through a set of nodes is transitive |
| Graphs.ReachableInComponent | MP2/StronglyConnectedComponentsFinder.java:93-106 | a walk between strongly connected nodes can be kept inside any set holding every node strongly connected to them |
| MatrixGraph.PadRows | MP2/AdjacencyMatrixUndirectedGraph.java:111-124 | every row is padded with empty cells to the new side length, keeping the old cells |
| MatrixGraph.GrownCells | MP2/AdjacencyMatrixUndirectedGraph.java:111-124 | growing the matrix keeps exactly the same stored edges |
| MatrixGraph.GrowCoherent | MP2/AdjacencyMatrixUndirectedGraph.java:111-124 | the new node's index is the old node count, and index map, matrix and insertion order stay coherent |
| MatrixGraph.StoreEdge | MP2/AdjacencyMatrixUndirectedGraph.java:233-249 | the edge is stored at [i][j] and [j][i], and no other cell changes |
| MatrixGraph.StoreCoherent | MP2/AdjacencyMatrixUndirectedGraph.java:233-249 | storing an edge between its endpoints' indices keeps the matrix coherent and symmetric |
| MatrixGraph.StoredCells | MP2/AdjacencyMatrixUndirectedGraph.java:233-249 | storing into two empty cells adds exactly that edge to the stored edges |
| MatrixGraph.Touching | MP2/AdjacencyMatrixUndirectedGraph.java:268-287 | the edges with the node as either endpoint |
| MatrixGraph.OtherEnds | MP2/AdjacencyMatrixUndirectedGraph.java:181-198 | the opposite endpoints of the given edges |
| MatrixGraph.AdjacencyMatrixUndirectedGraph.EdgeCell | MP2/AdjacencyMatrixUndirectedGraph.java:207-219 | every stored edge sits in a cell between its own endpoints |
| MatrixGraph.AdjacencyMatrixUndirectedGraph.ViewWellFormed | MP2/AdjacencyMatrixUndirectedGraph.java:13-30 | the stored graph is well formed and undirected |
| MatrixGraph.AdjacencyMatrixUndirectedGraph.FreeCell | MP2/AdjacencyMatrixUndirectedGraph.java:226-234 | an absent edge leaves both of its cells empty |
| MatrixGraph.AdjacencyMatrixUndirectedGraph.NodeCountIsSide | MP2/AdjacencyMatrixUndirectedGraph.java:69-71 | the node count is the matrix side |
| MatrixGraph.AdjacencyMatrixUndirectedGraph.constructor | MP2/AdjacencyMatrixUndirectedGraph.java:63-66 | an empty undirected graph |
| MatrixGraph.AdjacencyMatrixUndirectedGraph.NodeCount | MP2/AdjacencyMatrixUndirectedGraph.java:69-71 | the number of nodes, equal to the matrix side |
| MatrixGraph.AdjacencyMatrixUndirectedGraph.EdgeCount | MP2/AdjacencyMatrixUndirectedGraph.java:74-85 | the number of distinct stored edges |
| MatrixGraph.AdjacencyMatrixUndirectedGraph.Clear | MP2/AdjacencyMatrixUndirectedGraph.java:88-91 | no nodes and no edges |
| MatrixGraph.AdjacencyMatrixUndirectedGraph.IsDirected | MP2/AdjacencyMatrixUndirectedGraph.java:94-97 | always false |
| MatrixGraph.AdjacencyMatrixUndirectedGraph.AddNode | MP2/AdjacencyMatrixUndirectedGraph.java:105-127 | NullPointerException on null; false and no change for a known node; otherwise true, the node's index is the old count, the matrix grows by one row and column of empty cells, and the edges are unchanged |
| MatrixGraph.AdjacencyMatrixUndirectedGraph.ContainsNode | MP2/AdjacencyMatrixUndirectedGraph.java:136-143 | NullPointerException on null; otherwise node membership |
| MatrixGraph.AdjacencyMatrixUndirectedGraph.GetNodeOf | MP2/AdjacencyMatrixUndirectedGraph.java:146-154 | NullPointerException on null; the node with that label, or null when there is none |
| MatrixGraph.AdjacencyMatrixUndirectedGraph.GetNodeIndexOf | MP2/AdjacencyMatrixUndirectedGraph.java:157-167 | NullPointerException on null; IllegalArgumentException for an unknown label; otherwise the node's index, below the node count |
| MatrixGraph.AdjacencyMatrixUndirectedGraph.GetNodeAtIndex | MP2/AdjacencyMatrixUndirectedGraph.java:170-178 | IndexOutOfBoundsException outside [0, nodeCount); otherwise the node inserted at that index |
| MatrixGraph.AdjacencyMatrixUndirectedGraph.IndexRoundTrip | MP2/AdjacencyMatrixUndirectedGraph.java:146-178 | for a known label, getNodeAtIndex(getNodeIndexOf(l)) is getNodeOf(l) |
| MatrixGraph.AdjacencyMatrixUndirectedGraph.GetEdges | MP2/AdjacencyMatrixUndirectedGraph.java:207-219 | the set of edges in non-empty cells |
| MatrixGraph.AdjacencyMatrixUndirectedGraph.ContainsEdge | MP2/AdjacencyMatrixUndirectedGraph.java:259-265 | NullPointerException on null; IllegalArgumentException if an endpoint is unknown; otherwise whether an equal edge is stored |
| MatrixGraph.AdjacencyMatrixUndirectedGraph.AddEdge | MP2/AdjacencyMatrixUndirectedGraph.java:222-250 | NullPointerException on null; IllegalArgumentException for an unknown endpoint or a directed edge; false for an edge already present; otherwise true, the edge is stored in both symmetric cells and nothing else changes |
| MatrixGraph.AdjacencyMatrixUndirectedGraph.GetEdgesOf | MP2/AdjacencyMatrixUndirectedGraph.java:268-287 | NullPointerException on null; IllegalArgumentException for an unknown node; otherwise the edges incident to it |
| MatrixGraph.AdjacencyMatrixUndirectedGraph.GetAdjacentNodesOf | MP2/AdjacencyMatrixUndirectedGraph.java:181-198 | NullPointerException on null; IllegalArgumentException for an unknown node; otherwise the opposite endpoints of its incident edges |
| MatrixGraph.AdjacencyMatrixUndirectedGraph.RemoveNode | MP2/AdjacencyMatrixUndirectedGraph.java:130-133 | always UnsupportedOperationException |
| MatrixGraph.AdjacencyMatrixUndirectedGraph.RemoveEdge | MP2/AdjacencyMatrixUndirectedGraph.java:253-256 | always UnsupportedOperationException |
| MatrixGraph.AdjacencyMatrixUndirectedGraph.GetPredecessorNodesOf | MP2/AdjacencyMatrixUndirectedGraph.java:201-204 | always UnsupportedOperationException |
| MatrixGraph.AdjacencyMatrixUndirectedGraph.GetIngoingEdgesOf | MP2/AdjacencyMatrixUndirectedGraph.java:290-293 | always UnsupportedOperationException |
| ListGraph.UnionAdd | MP2/MapAdjacentListDirectedGraph.java:72-80 | adding one node's list to the union adds exactly its edges, disjoint from those already counted, so the edge count is the sum of the list sizes |
| ListGraph.Targets | MP2/MapAdjacentListDirectedGraph.java:158-170 | the targets of the given edges |
| ListGraph.Sources | MP2/MapAdjacentListDirectedGraph.java:173-187 | the sources of the given edges |
| ListGraph.Entering | MP2/MapAdjacentListDirectedGraph.java:244-260 | the given edges whose target is the node |
| ListGraph.MapAdjacentListDirectedGraph.ViewWellFormed | MP2/MapAdjacentListDirectedGraph.java:200-217 | the stored graph is well formed and directed |
| ListGraph.MapAdjacentListDirectedGraph.ListIsIncident | MP2/MapAdjacentListDirectedGraph.java:235-241 | a node's list holds exactly the edges leaving it |
| ListGraph.MapAdjacentListDirectedGraph.constructor | MP2/MapAdjacentListDirectedGraph.java:61-64 | an empty directed graph |
| ListGraph.MapAdjacentListDirectedGraph.NodeCount | MP2/MapAdjacentListDirectedGraph.java:67-69 | the number of nodes |
| ListGraph.MapAdjacentListDirectedGraph.EdgeCount | MP2/MapAdjacentListDirectedGraph.java:72-80 | the number of edges, summed over the lists |
| ListGraph.MapAdjacentListDirectedGraph.Clear | MP2/MapAdjacentListDirectedGraph.java:83-85 | no nodes and no edges |
| ListGraph.MapAdjacentListDirectedGraph.IsDirected | MP2/MapAdjacentListDirectedGraph.java:88-91 | always true |
| ListGraph.MapAdjacentListDirectedGraph.AddNode | MP2/MapAdjacentListDirectedGraph.java:99-110 | NullPointerException on null; false and no change for a known node; otherwise true and the node maps to an empty edge set |
| ListGraph.MapAdjacentListDirectedGraph.RemoveNode | MP2/MapAdjacentListDirectedGraph.java:113-119 | NullPointerException on null, otherwise UnsupportedOperationException |
| ListGraph.MapAdjacentListDirectedGraph.ContainsNode | MP2/MapAdjacentListDirectedGraph.java:122-129 | NullPointerException on null; otherwise node membership |
| ListGraph.MapAdjacentListDirectedGraph.GetNodeOf | MP2/MapAdjacentListDirectedGraph.java:132-140 | NullPointerException on null; the node with that label, or null when there is none |
| ListGraph.MapAdjacentListDirectedGraph.GetNodeIndexOf | MP2/MapAdjacentListDirectedGraph.java:143-149 | NullPointerException on null, otherwise UnsupportedOperationException |
| ListGraph.MapAdjacentListDirectedGraph.GetNodeAtIndex | MP2/MapAdjacentListDirectedGraph.java:152-155 | always UnsupportedOperationException |
| ListGraph.MapAdjacentListDirectedGraph.GetAdjacentNodesOf | MP2/MapAdjacentListDirectedGraph.java:158-170 | NullPointerException on null; IllegalArgumentException for an unknown node; otherwise the targets of its outgoing edges |
| ListGraph.MapAdjacentListDirectedGraph.GetPredecessorNodesOf | MP2/MapAdjacentListDirectedGraph.java:173-187 | NullPointerException on null; IllegalArgumentException for an unknown node; otherwise the sources of the edges entering it |
| ListGraph.MapAdjacentListDirectedGraph.GetEdges | MP2/MapAdjacentListDirectedGraph.java:190-197 | the union of all lists |
| ListGraph.MapAdjacentListDirectedGraph.ContainsEdge | MP2/MapAdjacentListDirectedGraph.java:226-232 | NullPointerException on null; IllegalArgumentException if an endpoint is unknown; otherwise whether the source's list holds an equal edge |
| ListGraph.MapAdjacentListDirectedGraph.AddEdge | MP2/MapAdjacentListDirectedGraph.java:200-217 | NullPointerException on null; IllegalArgumentException for an unknown endpoint or an undirected edge; false for an edge already present; otherwise true and the edge joins its source's list only |
| ListGraph.MapAdjacentListDirectedGraph.RemoveEdge | MP2/MapAdjacentListDirectedGraph.java:220-223 | always UnsupportedOperationException |
| ListGraph.MapAdjacentListDirectedGraph.GetEdgesOf | MP2/MapAdjacentListDirectedGraph.java:235-241 | NullPointerException on null; IllegalArgumentException for an unknown node; otherwise its outgoing edges |
| ListGraph.MapAdjacentListDirectedGraph.GetIngoingEdgesOf | MP2/MapAdjacentListDirectedGraph.java:244-260 | NullPointerException on null; IllegalArgumentException for an unknown node; otherwise the edges whose target it is |
| Prim.CheckWeights | MP2/PrimMSP.java:64-68 | passes exactly when every edge has a weight and none is negative |
| Prim.Start | MP2/PrimMSP.java:69-82 | after initialisation (source 0, others infinite, no predecessors, all white, all queued) the main-loop invariant holds |
| Prim.RankExtend | MP2/PrimMSP.java:84-86 | extracting a node gives it the next rank, and ranks stay distinct and dense |
| Prim.LinkExtend | MP2/PrimMSP.java:84-86 | ranking a new node keeps every predecessor ranked before its node |
| Prim.ExtractKeep | MP2/PrimMSP.java:84-86 | extracting a minimum keeps the node fields; the source, of priority 0, is extracted first |
| Prim.ExtractRank | MP2/PrimMSP.java:84-86 | extracting a node ranks it and removes it from the queue |
| Prim.ExtractStep | MP2/PrimMSP.java:84-87 | extracting the least queued node starts the neighbour visit with its invariant |
| Prim.QueuedReached | MP2/PrimMSP.java:84-86 | once the source is out of the queue, a queued node that the source reaches along edges lighter than INF means some queued node has a finite priority |
| Prim.ExtractSpan | MP2/PrimMSP.java:84-86 | extracting a least node keeps the bound that every extracted node's weighted edge bounds the priority of the queued node it leads to; the extracted node has a finite priority if the source reaches it along edges lighter than INF |
| Prim.NeighbourQueued | MP2/PrimMSP.java:88-110 | in an undirected graph without self-loops, a non-black neighbour of the extracted node is another node and is still queued, so decreasePriority cannot fail |
| Prim.VisitReady | MP2/PrimMSP.java:84-90 | after an extraction the queue follows the priorities and holds no black node, the extracted node has left it, and in an undirected loopless graph every non-black neighbour is queued |
| Prim.LowerStep | MP2/PrimMSP.java:106-110 | one more edge keeps the priority of v the least of its old value and the weights of the edges reaching v so far, with u as predecessor exactly when the priority fell |
| Prim.RelaxingStep | MP2/PrimMSP.java:96-112 | one more edge step keeps the relaxation record for v: only v changes, in the queue as in the fields, and only when it is queued |
| Prim.TouchStep | MP2/PrimMSP.java:88-117 | visiting one more neighbour v keeps the record of the visit: a queued non-black v is relaxed along the edges of u, a black one is skipped, and u turns black exactly when v is not black |
| Prim.TouchedFields | MP2/PrimMSP.java:88-117 | after the neighbour loop the fields, ranks and source conditions still hold, and u is black unless every neighbour was |
| Prim.TouchedLinks | MP2/PrimMSP.java:106-110 | after the neighbour loop every predecessor was extracted earlier and is joined to its node by an edge whose weight is the node's priority |
| Prim.TouchedLower | MP2/PrimMSP.java:106-110 | the neighbour loop only lowers queued priorities |
| Prim.TouchedSpan | MP2/PrimMSP.java:88-117 | after the neighbour loop the weighted edges of every extracted node, u included, bound the priorities of the queued nodes they lead to |
| Prim.TouchedVisiting | MP2/PrimMSP.java:84-118 | after the neighbour loop the main-loop invariant holds again |
| Prim.VisitDone | MP2/PrimMSP.java:88-118 | once every neighbour is visited and u is black or all of them are, the main-loop invariant holds |
| Prim.VisitSpanDone | MP2/PrimMSP.java:88-118 | once every neighbour is visited the bounds hold for u too |
| Prim.Root | MP2/PrimMSP.java:39-41 | following the predecessors from a node ends at a node without a predecessor |
| Prim.FinalDescending | MP2/PrimMSP.java:84-118 | with the queue empty every predecessor is a node ranked before its node |
| Prim.PredecessorReached | MP2/PrimMSP.java:106-110 | in an undirected graph the predecessor of a node the source reaches along edges lighter than INF is reached too |
| Prim.RootIsSource | MP2/PrimMSP.java:39-41 | in an undirected graph following the predecessors from any node the source reaches along edges lighter than INF ends at the source |
| Prim.SpanEnd | MP2/PrimMSP.java:36-41 | the invariant with the queue empty gives the spanning fields: every reached node has a finite priority and, but for the source, a predecessor; in an undirected graph the predecessors form a tree rooted at the source |
| Prim.RelaxEdge | MP2/PrimMSP.java:106-110 | for v an endpoint of e with a weight below its priority, u becomes its predecessor and the queue and the field lower its priority to that weight; otherwise nothing changes; NoSuchElementException exactly when that lowering is asked for a node out of the queue |
| Prim.Relax | MP2/PrimMSP.java:96-112 | the priority of v falls to the least of its own and the weights of the edges of u reaching it, with u as predecessor exactly when it fell; only v changes; NoSuchElementException exactly when v is out of the queue and some edge of u would lower it |
| Prim.VisitNeighbour | MP2/PrimMSP.java:90-116 | a black neighbour changes nothing; otherwise the edges of u are relaxed for it as Relax states and u turns black; NoSuchElementException exactly when the neighbour is not black, not queued and some edge of u would lower it |
| Prim.VisitNeighbours | MP2/PrimMSP.java:88-117 | every queued neighbour of u is relaxed along the edges of u, nothing else changes, the queue follows the priorities, and u turns black exactly when some neighbour is not black; a failure names a neighbour neither black nor queued that an edge of u would lower |
| Prim.ExtractNext | MP2/PrimMSP.java:86 | the extracted node has least priority among the queued ones, it leaves the queue and takes the next rank, and the neighbour visit starts with its invariant |
| Prim.Grow | MP2/PrimMSP.java:84-118 | the main loop fails only with NoSuchElementException and never on undirected loopless graphs; on success the queue is empty and the fields are spanning: every node the source reaches along edges lighter than INF has a finite priority and, but for the source, a predecessor extracted earlier and joined to it by an edge of its priority; in an undirected graph the predecessors lead back to the source |
| Prim.Reset | MP2/PrimMSP.java:70-76 | every node gets infinite priority and no predecessor |
| Prim.Load | MP2/PrimMSP.java:79-82 | every node is queued exactly once with its priority and coloured white |
| Prim.Prepare | MP2/PrimMSP.java:69-82 | after initialisation and loading, the main-loop invariant holds |
| Prim.Span | MP2/PrimMSP.java:69-118 | the set-up and the main loop together, with the outcome and spanning fields Grow states |
| Prim.PrimMSP.constructor | MP2/PrimMSP.java:32-34 | an empty queue |
| Prim.PrimMSP.ComputeMSP | MP2/PrimMSP.java:56-119 | NullPointerException for a null graph or source; IllegalArgumentException for a source not in the graph, or a directed graph with a missing or negative weight; otherwise it fails only with NoSuchElementException, and never on undirected loopless graphs; on success the queue is empty, the source has priority 0 and no predecessor, every predecessor was extracted before its node and is joined to it by an edge whose weight is the node's priority, every node the source reaches along edges lighter than INF has a finite priority and, but for the source, a predecessor, and in an undirected graph following the predecessors from such a node ends at the source |
| Prim.PrimMSP.ComputeMSPAsDocumented | MP2/PrimMSP.java:36-53 | the checks as documented: IllegalArgumentException for any directed graph and for any graph with a missing or negative weight, the rest as ComputeMSP |
| Prim.DirectedAccepted | MP2/PrimMSP.java:64-68 | a directed graph with one edge of weight 1.0 passes the check as written but is not an input the documentation admits |
| Scc.WhitesRepainted | MP2/StronglyConnectedComponentsFinder.java:67-78 | repainting a set non-white removes exactly it from the white nodes |
| Scc.GreysRepainted | MP2/StronglyConnectedComponentsFinder.java:93-106 | painting white nodes grey adds exactly them to the grey nodes |
| Scc.RepaintTwice | MP2/StronglyConnectedComponentsFinder.java:67-78 | two successive repaintings of disjoint white sets are one repainting of their union |
| Scc.ClosedKept | MP2/StronglyConnectedComponentsFinder.java:67-78 | repainting white nodes keeps a set's successors non-white |
| Scc.SearchStart | MP2/StronglyConnectedComponentsFinder.java:67-70 | colouring u starts the search invariant |
| Scc.SearchShrinks | MP2/StronglyConnectedComponentsFinder.java:67-70 | once u is coloured the white nodes are strictly fewer, so the recursion terminates |
| Scc.SearchSkip | MP2/StronglyConnectedComponentsFinder.java:72-77 | skipping a non-white successor keeps the search invariant |
| Scc.SearchChild | MP2/StronglyConnectedComponentsFinder.java:72-77 | the nodes reached by a recursive visit of a white successor are reachable from u and join the visited set |
| Scc.SearchDone | MP2/StronglyConnectedComponentsFinder.java:67-78 | after all successors, the visited set is exactly the nodes reachable from u through white nodes |
| Scc.OrderedGrow | MP2/StronglyConnectedComponentsFinder.java:72-75 | stacking a finished child search in finishing order keeps the order below u, provided earlier nodes reach the child's nodes only through u |
| Scc.LaterAppend | MP2/StronglyConnectedComponentsFinder.java:76-77 | appending to the stack keeps a strongly connected node above a position |
| Scc.LaterShift | MP2/StronglyConnectedComponentsFinder.java:76-77 | stacking nodes underneath moves a strongly connected node above a position up by their number |
| Scc.OrderedAppend | MP2/StronglyConnectedComponentsFinder.java:112-115 | stacking a search in finishing order after nodes that reach none of its nodes keeps the whole stack in finishing order |
| Scc.OrderedClose | MP2/StronglyConnectedComponentsFinder.java:76-77 | pushing u, which reaches every node its search pushed, makes the pushed nodes finishing-ordered |
| Scc.Escape | MP2/StronglyConnectedComponentsFinder.java:72-75 | a walk from a finished node to a white node passes through a painted node that is not finished |
| Scc.NoEscape | MP2/StronglyConnectedComponentsFinder.java:112-115 | when every painted node is finished, no finished node reaches a white node |
| Scc.PendingChild | MP2/StronglyConnectedComponentsFinder.java:72-74 | a recursive call on a white successor n is made with every unfinished painted node reaching n |
| Scc.CrossReach | MP2/StronglyConnectedComponentsFinder.java:72-75 | nodes pushed before a recursive call reach the nodes it pushes only through u |
| Scc.OrderChild | MP2/StronglyConnectedComponentsFinder.java:72-75 | a recursive call keeps the nodes pushed so far in order below u |
| Scc.OrderFinish | MP2/StronglyConnectedComponentsFinder.java:76-77 | pushing u keeps the stack finished and completes its search's finishing order |
| Scc.FillStart | MP2/StronglyConnectedComponentsFinder.java:67-69 | colouring u black starts the fillOrder loop invariant with nothing pushed |
| Scc.FillSkip | MP2/StronglyConnectedComponentsFinder.java:72-73 | skipping a non-white successor keeps the fillOrder loop invariant |
| Scc.FillChild | MP2/StronglyConnectedComponentsFinder.java:72-74 | a recursive call on a white successor appends its nodes and keeps the fillOrder loop invariant |
| Scc.FillEnd | MP2/StronglyConnectedComponentsFinder.java:76-77 | after the loop, pushing u pushes exactly the nodes u reaches through white nodes, u last, in finishing order when called in the expected state |
| Scc.FillOrder | MP2/StronglyConnectedComponentsFinder.java:67-78 | it pushes on top of the stack, without repetition and with u last, exactly the nodes reachable from u through white nodes, colours exactly those black and leaves their successors non-white; called with the stacked nodes finished and the searches under way leading to u, it pushes them in finishing order (a node reaching a node pushed above it has its component represented at least that high) |
| Scc.CompGrows | MP2/StronglyConnectedComponentsFinder.java:93-106 | the component grows by each recursive visit's nodes |
| Scc.DFSVisit | MP2/StronglyConnectedComponentsFinder.java:93-106 | the component ends up holding exactly its old nodes and the nodes reachable from u through white nodes, and they alone turn grey |
| Scc.PartitionAdd | MP2/StronglyConnectedComponentsFinder.java:51-64 | adding a non-empty set disjoint from a partitioned set extends the partition |
| Scc.ComponentExact | MP2/StronglyConnectedComponentsFinder.java:28-31 | a strongly connected component holds exactly the nodes strongly connected to any one of its members |
| Scc.Whiten | MP2/StronglyConnectedComponentsFinder.java:51-52 | every node is white |
| Scc.FinishAppend | MP2/StronglyConnectedComponentsFinder.java:112-115 | a search from a white node started when every painted node is finished keeps the stack in finishing order |
| Scc.InitDFS | MP2/StronglyConnectedComponentsFinder.java:108-116 | every node is on the stack exactly once, none is left white, and the stack is in finishing order |
| Scc.GetTranspose | MP2/StronglyConnectedComponentsFinder.java:80-91 | a new directed graph with the same nodes and every edge reversed |
| Scc.AddNodes | MP2/StronglyConnectedComponentsFinder.java:82-84 | the new graph gets exactly the given nodes |
| Scc.AddReversedEdges | MP2/StronglyConnectedComponentsFinder.java:85-89 | the new graph gets exactly the reversed edges |
| Scc.NotYetReversed | MP2/StronglyConnectedComponentsFinder.java:85-89 | an edge not yet reversed has no reverse in the graph under construction, so adding it succeeds |
| Scc.ReversedAdd | MP2/StronglyConnectedComponentsFinder.java:85-89 | reversing one more edge adds exactly its reverse |
| Scc.CollectStart | MP2/StronglyConnectedComponentsFinder.java:51-53 | with all nodes white and stacked, the collecting invariant holds with no components |
| Scc.GreyUniform | MP2/StronglyConnectedComponentsFinder.java:53-62 | a node strongly connected to a node already coloured is grey: its component has been collected |
| Scc.TopComponent | MP2/StronglyConnectedComponentsFinder.java:53-58 | a white node reaching the white top of the stack is strongly connected to it, by the finishing order |
| Scc.VisitIsComponent | MP2/StronglyConnectedComponentsFinder.java:58-61 | the nodes the transpose search collects from the white top of the stack are exactly its strongly connected component |
| Scc.PopPainted | MP2/StronglyConnectedComponentsFinder.java:53-55 | popping a painted top keeps every popped node painted |
| Scc.PoppedRepainted | MP2/StronglyConnectedComponentsFinder.java:58-60 | painting white nodes grey keeps the popped nodes painted |
| Scc.ComponentsAdd | MP2/StronglyConnectedComponentsFinder.java:61 | adding the component of a node keeps every collected set a strongly connected component |
| Scc.PartitionGrey | MP2/StronglyConnectedComponentsFinder.java:58-61 | painting a non-empty set of white nodes grey adds it to the split of the grey nodes |
| Scc.PaintedGrey | MP2/StronglyConnectedComponentsFinder.java:58-60 | painting white nodes grey keeps every node white or grey |
| Scc.CollectSkip | MP2/StronglyConnectedComponentsFinder.java:53-56 | popping a non-white node keeps the collecting invariant |
| Scc.CollectVisit | MP2/StronglyConnectedComponentsFinder.java:53-62 | popping a white node and collecting its transpose search adds its strongly connected component and keeps the collecting invariant |
| Scc.CollectEnd | MP2/StronglyConnectedComponentsFinder.java:53-64 | with the stack empty the collected sets partition the nodes and each holds exactly the nodes strongly connected to any of its members |
| Scc.FindStronglyConnectedComponents | MP2/StronglyConnectedComponentsFinder.java:37-65 | NullPointerException for null; IllegalArgumentException for an undirected graph; otherwise the result partitions the nodes, and a node y belongs to the part of x exactly when x and y reach each other: every part is strongly connected and maximal |

## Left out

- ElMamunCaravanSolver (MP2): its dynamic-programming table is never filled and `getOptimalParenthesization` returns null, so there is no intended behaviour to model.
- ASDL2021Deque `remove(Object)` and `containsAll`: both are broken as written and contradict their own contracts; they are not modelled.
- ASDL2021Deque `addAll`, `toArray(T[])`, `removeAll`, `retainAll`, `removeFirstOccurrence` and `removeLastOccurrence`: the last five only throw, and `addAll` only repeats `addLast`.
- `iterator()` and `descendingIterator()` are the `Itr` and `DescItr` constructors; `getFirstNode`/`getLastNode` are read as the `first`/`last` fields.
- Object identity and hashing: `equals`/`hashCode` of graph nodes, edges and queue elements are not part of this model. Nodes are labels, edges are values, and queue elements are values of an equality type. So `getNodeOf` returns the label itself.
- The abstract `Graph`, `GraphNode`, `GraphEdge` and `PriorityQueueElement` types are not part of this model; their fields (priority, handle, previous, colour) are maps keyed by element.
- Hash iteration order: sets and maps are iterated in an arbitrary order. The Dafny loops pick any remaining element, so every order is covered, but the order of the source's `HashSet`/`HashMap` is not modelled.
- `double` priorities and weights are `real`, and `Double.MAX_VALUE` is the constant `Prim.INF`. No floating-point rounding is modelled.
- Exceptions are results, not non-local control flow.
- PriorityQueue.TernaryHeapMinPriorityQueue.Insert: requires that the element is not already queued. The source does not check this, and a second insertion would give one object two slots.
- PriorityQueue.TernaryHeapMinPriorityQueue.ExtractMinimum: the source removes the old root by `heap.remove(min)`, which looks it up by `equals`. With distinct elements this finds the last slot, and that is what the model removes.
- PriorityQueue.TernaryHeapMinPriorityQueue.Insert and DecreasePriority follow the documented contract (a full climb to the element's place). What the code as written does is in `InsertAsWritten` and `DecreaseAsWritten`; see Findings.
- PriorityQueue.TernaryHeapMinPriorityQueue.DecreasePriority: the documentation asks to reject a priority that is not strictly smaller. The code rejects only a strictly larger one, and the model follows the code: an equal priority is accepted.
- Prim.PrimMSP.ComputeMSP: requires an empty queue. The source reuses its one queue field without clearing it, so a run after a failed run would start with stale elements.
- A missing weight: `GraphEdge` is not part of this model, so what `getWeight()` yields for an edge without a weight is not known. The model takes the comparison on line 107 of MP2/PrimMSP.java to be false for such an edge, as it is for NaN, so the edge never lowers a priority.
- Prim.PrimMSP.ComputeMSP: does not prove that the predecessor tree has minimum total weight. It proves that every node the source reaches along edges lighter than INF gets a finite priority and, but for the source, a predecessor extracted earlier and joined to it by an edge of the node's priority. The tree rooted at the source is proved for undirected graphs only, since in a directed graph a predecessor need not itself be reached.
- Prim.PrimMSP.ComputeMSP: the per-node fields are returned as the maps `priority`, `previous` and `color` rather than written into the graph's node objects.
- Prim.PrimMSP.ComputeMSP: the code accepts directed graphs whose weights are present and non-negative, although the documentation says to reject directed graphs (see Findings). On such graphs, and on graphs with self-loops, `decreasePriority` can raise NoSuchElementException; the model returns that failure, and proves it impossible only for undirected loopless graphs.
- Prim.PrimMSP.ComputeMSP: the code colours the extracted node black inside the neighbour loop, after the first non-black neighbour, not when it is extracted. The model does the same.
- Prim.PrimMSP.ComputeMSP: runs on the corrected `DecreasePriority`, which climbs all the way (see Findings). With the one-exchange `decreasePriority` as written, the heap can lose its order, so `extractMinimum` can return a node that is not of least priority. Then the extraction order, and with it the priorities and predecessors, can differ from the model's, and the facts that rest on extracting a least node (the source is extracted first, every reached node gets a finite priority) are not shown for the code as written.
- Prim.VisitNeighbours: states its failure in one direction: a failure names a neighbour that is neither black nor queued and that an edge of u would lower. The converse holds for neighbours other than u itself and is not stated.
- Prim.Grow: the extraction of a least node is stated per step, by Prim.ExtractNext; Grow states the final fields.
- Scc.FillOrder: the finishing order is promised only for calls made as initDFS and fillOrder itself make them: the stacked nodes are finished and the searches under way lead to u. For any other call only the reachability and colouring facts are stated.
- Scc.FindStronglyConnectedComponents: a null graph gives NullPointerException. The source tests `isDirected()` first, and that call on null also throws NullPointerException.
- Scc.FindStronglyConnectedComponents: colours are a map keyed by node, not fields of the graph's node objects. The transpose's `getNodeOf` therefore returns the same label.

## Findings

| source | as written | input that shows it | evidently intended | confidence | as-written member | corrected member |
|---|---|---|---|---|---|---|
| MP1/TernaryHeapMinPriorityQueue.java:73-78 | the sift-up loop compares the priorities of `parent` and `child`, two objects fetched once before the loop, so the test never changes while the element climbs | insert priority 4 into the heap 1, 5, 6, 7: the element climbs past the root 1, giving 4, 1, 6, 7, 5, out of heap order | climb while the current parent's priority is greater | not executed | PriorityQueue.InsertAsWrittenBreaksOrder | PriorityQueue.TernaryHeapMinPriorityQueue.Insert |
| MP1/TernaryHeapMinPriorityQueue.java:146-153 | the loop fetches the parent once; after the first exchange it compares that parent with itself, so at most one exchange happens | lower the priority 8 in slot 4 of the heap 1, 5, 6, 7, 8 to 0: one exchange gives 1, 0, 6, 7, 5, whose root 1 is above 0 | climb while the current parent's priority is greater | not executed | PriorityQueue.DecreaseAsWrittenBreaksOrder | PriorityQueue.TernaryHeapMinPriorityQueue.DecreasePriority |
| MP2/PrimMSP.java:64-68 | the weights are checked only inside `if (g.isDirected())`, and no check refuses a directed graph | the directed graph with nodes 0 and 1 and the one edge 0 to 1 of weight 1.0 passes the checks, and the algorithm runs on it | refuse every directed graph and check the weights of every graph, as lines 50-53 document | not executed | Prim.DirectedAccepted | Prim.PrimMSP.ComputeMSPAsDocumented |
