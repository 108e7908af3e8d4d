# Binary min-heap and graph queries, modelled in Dafny

This project models two small C teaching units and proves what they compute.

**Min-heap (`heap.dfy`, module `MinHeap`).** A heap of `int`s lives in the
prefix `values[0..used)` of an array of capacity `size`. The children of
index `i` are `2i+1` and `2i+2`. This layout gives the shape invariant (a
complete tree filled left to right) for free. The order invariant is
`IsMinHeap`: no node is smaller than its parent. The model has the index
macros, the in-place `swap`, `bubbleUp` and `bubbleDown` on arrays, and the
`Heap` record as a class whose `insertHeap` and `extractMin` update `size`,
`used` and `values` in place. `Valid()` is the record's invariant. Besides
the order it asks for a positive capacity. With capacity 0, doubling would
leave the capacity at 0 and the write at `values[used]` would fall outside
the array. The source has no function that creates a heap.

**Graphs (`graph.dfy`, module `Graphs`).** There are V vertices, `0..V-1`.
The adjacency matrix (`GrafoM`) is a V×V `seq<seq<int>>`: a non-zero entry
`[o][d]` is an edge `o -> d`. The adjacency lists (`GrafoL`) are one
`seq<Edge>` per origin. Each list walk (`x = x->prox`) is a loop that drops
the head of the sequence. The counting and degree functions are loop methods.
Each is proved against a recursive specification function, and lemmas tie
that function to an independent definition: the cardinality of the set of
edges or list cells. The DFS (`haCaminhoAux`) is a recursive method that
marks vertices in an `int` array `vis` in place. `haCaminho` answers exactly
reachability along list edges.

Conventions: C's `int` results that are truth values (`haAresta*`,
`haCaminho*`) are `bool`. The heap's status codes stay `int`. V is not fixed
at 100: it is the number of rows of the matrix, or the number of lists.

## Model

| member | source | states |
|---|---|---|
| `MinHeap.Parent` | Heaps/heaps.c:49 | PARENT with C's truncating division: every non-root index has a strictly smaller parent, and PARENT(0) is 0 |
| `MinHeap.Left` | Heaps/heaps.c:52 | the parent of LEFT(i) is i, and LEFT(i) > i |
| `MinHeap.Right` | Heaps/heaps.c:53 | the parent of RIGHT(i) is i, and RIGHT(i) is LEFT(i) + 1 |
| `MinHeap.ChildOfParent` | Heaps/heaps.c:49-53 | every non-root index is the left or the right child of its parent |
| `MinHeap.HeapOrderBothWays` | Heaps/heaps.c:11-13 | "no node below its parent" holds iff "every node at most each of its children" |
| `MinHeap.AllInRootSubtree` | Heaps/heaps.c:11-16 | every array index is a node of the tree rooted at index 0 |
| `MinHeap.NodeBelowDescendants` | Heaps/heaps.c:11-13 | in a min-heap each node is at most every one of its descendants |
| `MinHeap.RootIsMinimum` | Heaps/heaps.c:41-42 | the root of a non-empty min-heap is at most every element |
| `MinHeap.LastToRoot` | Heaps/heaps.c:115-117 | moving the last element to the root and shrinking by one removes exactly the old root from the multiset |
| `MinHeap.Swap` | Heaps/heaps.c:68-73 | v[a] and v[b] are exchanged, every other cell is unchanged, and the multiset is the same |
| `MinHeap.BubbleUp` | Heaps/heaps.c:76-82 | if h[0..i) is a min-heap, afterwards h[0..i] is a min-heap with the same elements and cells after i are untouched |
| `MinHeap.SwapDown` | Heaps/heaps.c:100-104 | swapping a node with its smaller, strictly smaller child moves the only disorder down to that child |
| `MinHeap.SettledAt` | Heaps/heaps.c:105-109 | once the moving node is at most its children, the whole prefix is a min-heap |
| `MinHeap.BubbleDown` | Heaps/heaps.c:97-110 | if h[0..N) is a min-heap except at the root, afterwards it is a min-heap with the same elements (lone left child included) and cells from N on are untouched |
| `MinHeap.Heap.Grow` | Heaps/heaps.c:86-89 | a full heap gets a fresh array of twice the capacity holding the same elements |
| `MinHeap.Heap.Insert` | Heaps/heaps.c:85-94 | returns 1; used grows by 1; the elements gain x; the order holds; size doubles exactly when the heap was full, and otherwise the array is the same one |
| `MinHeap.Heap.ExtractMin` | Heaps/heaps.c:113-122 | empty heap: returns 0 and changes nothing, *x included; otherwise returns 1, x is the old root and the minimum, used drops by 1, the elements lose x, the order holds |
| `Graphs.RowDegreeBound` | Grafos/teoricas.c:99-101 | a row has at most as many non-zero entries as columns |
| `Graphs.RowDegreeIsCardinality` | Grafos/teoricas.c:99-101 | the row count is the number of columns d with a non-zero entry |
| `Graphs.MatrixCountIsCardinality` | Grafos/teoricas.c:55-62 | the row-by-row count is the number of pairs (o, d) with g[o][d] != 0 |
| `Graphs.MatrixCountBound` | Grafos/teoricas.c:58-59 | a V×V matrix has at most V*V edges |
| `Graphs.ListsCountIsCardinality` | Grafos/teoricas.c:65-72 | the summed list lengths are the number of list cells |
| `Graphs.PositionsCardinality` | Grafos/teoricas.c:70 | a list of length n has n cells |
| `Graphs.ListBelowTotal` | Grafos/teoricas.c:82-92 | no list is longer than all lists together |
| `Graphs.CountEdgesM` | Grafos/teoricas.c:55-62 | returns the number of pairs (o, d) with g[o][d] != 0, which lies in 0..V*V |
| `Graphs.CountEdgesL` | Grafos/teoricas.c:65-72 | returns the sum of the list lengths, which is the number of list cells |
| `Graphs.OutDegreeL` | Grafos/teoricas.c:82-92 | returns the length of some list (0 when V is 0), at least every list's length and at most the edge count |
| `Graphs.OutDegreeM` | Grafos/teoricas.c:95-105 | returns the non-zero count of some row (0 when V is 0), at least every row's count and at most V |
| `Graphs.HasEdgeM` | Grafos/teoricas.c:111-114 | true iff (o, d) is one of the edges that contaArestasM counts |
| `Graphs.HasEdgeL` | Grafos/teoricas.c:117-122 | true iff some edge in the list of o has destination d |
| `Graphs.ReachableSelf` | Grafos/teoricas.c:135 | every vertex reaches itself |
| `Graphs.ReachableStep` | Grafos/teoricas.c:136-140 | an edge o -> w followed by a path from w to d gives a path from o to d |
| `Graphs.ClosedHoldsPath` | Grafos/teoricas.c:146-152 | a marked set closed under successors contains every vertex on a path that starts in it |
| `Graphs.HasPathAux` | Grafos/teoricas.c:131-143 | sets vis[o] to 1; changes other marks only from 0 to 1; o == d gives true at once with nothing else marked; true implies d is reachable; false implies no vertex it marked is d and all their successors are marked |
| `Graphs.HasPath` | Grafos/teoricas.c:146-152 | true exactly when d is reachable from o, so true when d is o |

## Left out

- The failure of `realloc` in `insertHeap` is not modelled. Growth allocates a fresh array of double size and copies the elements.
- C integer overflow is not modelled: not `2 * size` in `insertHeap`, not the edge and degree counters. Dafny integers are unbounded.
- Heap creation is not modelled: the source has no such function. `Valid()` asks for a positive capacity (see above).
- `Elem *x` in `extractMin` is given as an input `x0` (the caller's `*x` on entry) and an output `x`.
- The linked-list memory management of `struct aresta` is not modelled. Each list is a sequence of `Edge(dest, weight)` values. Edge weights are carried but no function reads them.
- The fixed `#define V 100` is not modelled. V is the size of the given graph. The matrix must be square, and every list destination must be a vertex. Otherwise the C code reads outside `vis`.
- The complexity remarks are not modelled: they describe no behaviour.
- The AVL tree and hash table exercises of the same repository are not part of this model.
