# ShortestPaths, Heap and AList in Dafny

This project models the core of a Java single-source shortest-paths program. That core is three classes:

- **AList** is a growable array. It doubles its capacity when an append or a resize needs room. Reads and writes outside `0 <= i < size` throw.
- **Heap** is a binary min-heap of (value, priority) entries kept in an AList. It has add, peek, poll and changePriority, and the helpers swap, bubbleUp, bubbleDown and smallerChild.
- **ShortestPaths** is the Dijkstra-style `compute(origin)`. It fills a map from node to `PathData(distance, previous)` using a frontier heap, a frontier map and a settled map. The queries `shortestPathLength`, `shortestPath` and `traversal` read those records.

Every class that the source updates in place is a Dafny `class` whose fields follow the source's, with these differences:

- The Heap's `map` field is named `positions`.
- ShortestPaths has no `settled` field: that heap is written but never read.
- ShortestPaths has three ghost fields that exist only for the proofs: `graph` (the graph of the last compute), `rank` (the order in which compute settled the nodes) and `source` (the origin of the last compute, None before the first).

The files are:

- `lists.dfy`: `Lists.AList`, over an `array<Option<T>>`.
- `heap.dfy`: `Heaps.Heap`, over an `AList<Entry<V>>` and a `map`.
- `shortest_paths.dfy`: `Paths.ShortestPaths`.

Each method is proved against value-level definitions that are stated separately:

- `heap_order.dfy` holds the heap order over `seq<Entry<V>>`.
- `path_spec.dfy` holds the record invariants, the scan of one node's neighbours, and the traced path with its weight.
- `outcomes.dfy` holds Java's `null` (`Option`) and its exceptions (an `Error` carried in a `Result` or an `Outcome`).

Main results:

- Every heap operation keeps the heap order and changes the multiset of entries exactly as the operation says. `peek` and `poll` return the entry of minimum priority.
- `compute` terminates on every graph. Afterwards every recorded node is settled.
  - The origin's record is `PathData(0, null)`.
  - Every other record points back through an edge to a recorded node that was settled earlier. Its distance is that node's distance plus the edge's weight.
- After `compute(origin)`, a node has a record exactly when some path of the graph leads to it from the origin. The loop keeps an invariant for this: every settled node's neighbours all have records.
- `shortestPath(d)` returns null exactly when d has no record, so after a compute exactly when no path leads from the origin to d. Otherwise it returns a walk of the graph that ends at d, and that walk starts at the origin when every edge weight is positive. `shortestPathLength(d)` is infinite in the same cases; otherwise it is the total weight of that walk.

What the source does, and what the model follows:

- **The relaxation test is dead.** The test at `ShortestPaths.java:62` compares a node's distance plus an edge weight with that same distance. With non-negative weights it never holds, so records are never relaxed. `Paths.ShortestPaths.ScanNeighbor` has that branch, and the verifier proves it unreachable.
- **`frontierh` only ever holds the origin.** `compute` puts only the origin into it (`ShortestPaths.java:47`), and polling removes it. From then on, any neighbour that is not yet settled counts as undiscovered:
  - Its record is overwritten with the distance through the node being scanned.
  - It gets another frontier entry.
  - A settled node can be polled again, through an older entry. Its `settledh` entry is then written again.
  - Because of this, the distances are not always the shortest. Take the edges O->A (1), O->B (2), A->C (5) and B->C (10). Node C ends with distance 12 through B, not 6 through A. The model proves what the code does guarantee (the records form a consistent back-linked tree of walks) and does not claim optimality.
- **`traversal` stops at the first node of distance 0.** With zero-weight edges, that node need not be the origin. `PathSpec.TraceShape` states exactly this.
- **`smallerChild` picks the right child on a tie.** With two children, it takes the left one only when its priority is strictly smaller; `compareTo(...) == -1` at `Heap.java:186` is a strict less-than for the priorities used here. `bubbleUp(0)` compares the root with itself, because `(0-1)/2` truncates to 0, and stops.
- **`contains` always returns `true`.**
- **The Heap's `map` is never written.** No method of the source writes it. So `changePriority` finds `v` only if the map already has it. When `map.get(v)` is null, it throws IllegalArgumentException. When the index is out of range, `c.get` throws IndexOutOfBoundsException. Both paths are modelled, with the heap left unchanged.
- **Class invariant 2 of Heap** says a parent's priority is "smaller". The code allows equal priorities, so the invariant proved is "no greater" (`HeapOrder.IsHeap`). The code is followed here.
- **The doc comment of `growIfNeeded`** says the new capacity is the smallest doubling that "exceeds" the new size. The code stops at the first doubling that holds it (`newSize <= a.length`). The model follows the code: `Lists.GrownIsLeast` proves the capacity is the smallest doubling that is `>=` the new size.

## Model

| member | source | states |
|---|---|---|
| Lists.AList.Size | app/src/main/java/graph/AList.java:16-18 | the size is the length of the list's contents |
| Lists.AList.GetCap | app/src/main/java/graph/AList.java:20-22 | the capacity is the backing array's length and never below the size |
| Lists.AList.constructor | app/src/main/java/graph/AList.java:24-28 | a fresh empty list of capacity 8, every slot null |
| Lists.AList.WithCapacity | app/src/main/java/graph/AList.java:30-34 | a fresh empty list of the given capacity, every slot null |
| Lists.Grown | app/src/main/java/graph/AList.java:36-53 | the capacity growIfNeeded ends with holds the new size and is no smaller than the old capacity |
| Lists.GrownIsDoubling | app/src/main/java/graph/AList.java:36-53 | the grown capacity is the old one doubled k times, and k-1 doublings would not have held the new size |
| Lists.GrownIsLeast | app/src/main/java/graph/AList.java:36-53 | no doubling of the old capacity that holds the new size is smaller than the grown capacity |
| Lists.AList.GrowIfNeeded | app/src/main/java/graph/AList.java:36-53 | size and contents are unchanged; the capacity becomes the least sufficient doubling; the array is kept when the size already fits, and otherwise is fresh with null spare slots |
| Lists.AList.Resize | app/src/main/java/graph/AList.java:55-61 | the size becomes newSize after growing; the contents are the old array's first newSize slots when no growth was needed, and the old contents padded with nulls otherwise |
| Lists.AList.Get | app/src/main/java/graph/AList.java:63-70 | element i when 0 <= i < size, IndexOutOfBounds otherwise |
| Lists.AList.Put | app/src/main/java/graph/AList.java:72-79 | only slot i changes, to value, when 0 <= i < size; otherwise IndexOutOfBounds and nothing changes |
| Lists.AList.Append | app/src/main/java/graph/AList.java:81-89 | the contents gain value at the end; the array is kept while it has room, and is replaced by a fresh one of twice the capacity when it is full |
| Lists.AList.Pop | app/src/main/java/graph/AList.java:91-102 | returns the last element, shrinks the size by one and nulls that slot, keeping the array; NoSuchElement on an empty list |
| HeapOrder.Parent | app/src/main/java/graph/Heap.java:19-21 | (k-1)/2 truncated is the parent of k > 0, of which k is the left or right child; it is 0 at the root |
| HeapOrder.RootIsMinimum | app/src/main/java/graph/Heap.java:28-30 | in a heap, the root's priority is no greater than any entry's |
| HeapOrder.SwappedPermutes | app/src/main/java/graph/Heap.java:83-91 | exchanging two entries keeps the multiset and the length |
| HeapOrder.UpStep | app/src/main/java/graph/Heap.java:93-102 | a swap with a parent of larger priority moves the single possible violation up to the parent |
| HeapOrder.UpDone | app/src/main/java/graph/Heap.java:93-102 | where bubbleUp stops, the heap order holds everywhere |
| HeapOrder.DownStep | app/src/main/java/graph/Heap.java:131-146 | a swap with the smallest child, when that child's priority is smaller, moves the single possible violation down to that child |
| HeapOrder.DownDone | app/src/main/java/graph/Heap.java:131-146 | where bubbleDown stops (no child, or no smaller child), the heap order holds everywhere |
| HeapOrder.AppendedExceptUp | app/src/main/java/graph/Heap.java:70-72 | an entry appended to a heap can only violate the order with its parent |
| HeapOrder.AfterPollExceptDown | app/src/main/java/graph/Heap.java:124-127 | moving the last entry to the root and dropping the last slot removes exactly the root from the multiset, and leaves at most one violation, at the root |
| HeapOrder.LoweredExceptUp | app/src/main/java/graph/Heap.java:164-166 | lowering the priority in slot i can only violate the order above slot i |
| HeapOrder.RaisedExceptDown | app/src/main/java/graph/Heap.java:164-171 | raising the priority in slot i, or keeping it the same, can only violate the order below slot i |
| Heaps.Heap.constructor | app/src/main/java/graph/Heap.java:43-47 | an empty heap over a fresh AList of capacity 10, with an empty map |
| Heaps.Heap.Size | app/src/main/java/graph/Heap.java:77-81 | the number of entries |
| Heaps.Heap.At | app/src/main/java/graph/Heap.java:15-21 | c.get(k) returns the tree's entry k |
| Heaps.Heap.Swap | app/src/main/java/graph/Heap.java:83-91 | the entries at h and k are exchanged, and nothing else changes |
| Heaps.Heap.BubbleUp | app/src/main/java/graph/Heap.java:93-102 | from a heap with one possible violation at k, the result is a heap with the same multiset of entries |
| Heaps.Heap.Add | app/src/main/java/graph/Heap.java:65-75 | the result is a heap whose entries are the old ones plus Entry(v, p); the map is unchanged |
| Heaps.Heap.AppendEntry | app/src/main/java/graph/Heap.java:71 | c.append adds the entry at the end of the tree |
| Heaps.Heap.Peek | app/src/main/java/graph/Heap.java:104-114 | returns the root's value, whose priority is the minimum of all entries; NoSuchElement when empty; nothing changes |
| Heaps.Heap.Poll | app/src/main/java/graph/Heap.java:116-129 | returns the root's value (one of minimum priority); the result is a heap whose multiset has exactly that entry removed; NoSuchElement and no change when empty |
| Heaps.Heap.TakeRoot | app/src/main/java/graph/Heap.java:124-126 | returns the root's value and leaves the last entry at the root, with the last slot gone |
| Heaps.Heap.BubbleDown | app/src/main/java/graph/Heap.java:131-146 | from a heap with one possible violation at k, the result is a heap with the same multiset of entries |
| Heaps.Heap.Contains | app/src/main/java/graph/Heap.java:148-152 | true for every value |
| Heaps.Heap.ChangePriority | app/src/main/java/graph/Heap.java:154-172 | IllegalArgument when the map has no entry for v; IndexOutOfBounds when that entry is not an index of the heap; both leave the entries unchanged. Otherwise the result is a heap in which the entry in that slot is replaced by Entry(v, p) |
| Heaps.Heap.SmallerChild | app/src/main/java/graph/Heap.java:174-193 | returns a child of k whose priority is the smallest among k's children; it returns the right child exactly when the right child exists and the left child's priority is not strictly smaller |
| PathSpec.CoveringNodes | app/src/main/java/graph/ShortestPaths.java:57-60 | a finite set holds the origin and every node that an edge leads to: all the nodes compute can record |
| PathSpec.ScanStart | app/src/main/java/graph/ShortestPaths.java:46-48 | the state after seeding the origin satisfies the loop invariant |
| PathSpec.RecordedCovered | app/src/main/java/graph/ShortestPaths.java:57-60 | every recorded node is the origin or the end of an edge |
| PathSpec.RecordedSettled | app/src/main/java/graph/ShortestPaths.java:54-55 | settling a recorded node at its recorded distance keeps the record invariant, with the node ranked after every node settled before it |
| PathSpec.SettleRanks | app/src/main/java/graph/ShortestPaths.java:54-55 | settle ranks stay below the number of settled nodes |
| PathSpec.SettledBackLinks | app/src/main/java/graph/ShortestPaths.java:54-55 | back links stay back links when another node is settled |
| PathSpec.RecordedAdded | app/src/main/java/graph/ShortestPaths.java:58-59 | giving an unsettled neighbour the record (distance of f + weight, f) keeps the record invariant |
| PathSpec.ScanPolled | app/src/main/java/graph/ShortestPaths.java:51-55 | taking an entry out of the frontier and settling its node keeps the loop invariant, and empties frontierh |
| PathSpec.ScanAdded | app/src/main/java/graph/ShortestPaths.java:58-60 | recording an unsettled neighbour and adding it to the frontier keeps the loop invariant |
| PathSpec.ScanDiscovered | app/src/main/java/graph/ShortestPaths.java:58-60 | as ScanAdded, and the frontier has as many entries of settled nodes as before |
| PathSpec.ScanRecordsNone | app/src/main/java/graph/ShortestPaths.java:57 | scanning no neighbour changes no record |
| PathSpec.ScanRecordsStep | app/src/main/java/graph/ShortestPaths.java:57-64 | scanning one more neighbour w keeps the records when w is settled, and gives w the record (distance of f + weight, f) otherwise |
| PathSpec.ScanRecordsAll | app/src/main/java/graph/ShortestPaths.java:57-65 | once no neighbour is left, the scan has covered all of them |
| PathSpec.ScanRecordsShape | app/src/main/java/graph/ShortestPaths.java:57-65 | the scan removes no record, gives every unsettled neighbour the record (distance of f + weight, f), and leaves every other record as it was |
| PathSpec.ScanDone | app/src/main/java/graph/ShortestPaths.java:49-66 | with an empty frontier, every recorded node is settled, settledh holds the recorded distances, the origin's record is PathData(0, null), and every other record is a back link to a node settled earlier; when every settled node's neighbours have records, the records are rooted at the origin and closed under neighbours |
| PathSpec.ScanCloses | app/src/main/java/graph/ShortestPaths.java:54-65 | after settling f and scanning all of its neighbours, every settled node, f included, has a record for each of its neighbours |
| PathSpec.ReachedRecorded | app/src/main/java/graph/ShortestPaths.java:49-66 | when the origin is recorded and every recorded node's neighbours are recorded, every node reachable from the origin is recorded |
| PathSpec.RecordedReached | app/src/main/java/graph/ShortestPaths.java:57-60 | every recorded node is reachable from the origin, by following the predecessors back to it |
| PathSpec.RecordedIffReachable | app/src/main/java/graph/ShortestPaths.java:69-98 | after a compute, a node has a record exactly when it is reachable from the origin |
| PathSpec.OnlyOriginAtZero | app/src/main/java/graph/ShortestPaths.java:58-59 | with positive edge weights, every record except the origin's has a positive distance |
| PathSpec.TraceFromOrigin | app/src/main/java/graph/ShortestPaths.java:83-108 | with positive edge weights, every traced path starts at the origin |
| PathSpec.RecordedIsRanked | app/src/main/java/graph/ShortestPaths.java:49-66 | once every recorded node is settled, every record is a back link or has distance 0 |
| PathSpec.SettleProgress | app/src/main/java/graph/ShortestPaths.java:49-55 | settling a node that was not settled leaves fewer unsettled nodes |
| PathSpec.CountInPermutes | app/src/main/java/graph/ShortestPaths.java:51-52 | the number of entries of a node set depends only on the multiset of entries |
| PathSpec.PolledCount | app/src/main/java/graph/ShortestPaths.java:51-52 | polling the first entry removes one entry from the count it belongs to |
| PathSpec.AddedCount | app/src/main/java/graph/ShortestPaths.java:60 | adding an entry of an unsettled node keeps the count of entries of settled nodes |
| PathSpec.ScanTaken | app/src/main/java/graph/ShortestPaths.java:51-55 | polling the first entry, emptying frontierh and settling its node keeps the loop invariant; that node is one compute can record |
| PathSpec.TakenProgress | app/src/main/java/graph/ShortestPaths.java:49-55 | polling and settling either settles one more node or removes an entry of a node already settled: the loop's measure decreases |
| PathSpec.TraceShape | app/src/main/java/graph/ShortestPaths.java:100-108 | the traced path ends at d; its first node is the only one of distance 0; each later node's predecessor is the node before it; a node of distance 0 traces as itself alone |
| PathSpec.TraceIsWalk | app/src/main/java/graph/ShortestPaths.java:100-108 | the traced path follows edges of the graph |
| PathSpec.TraceWeight | app/src/main/java/graph/ShortestPaths.java:69-81 | d's recorded distance is the total weight of its traced path |
| Paths.ShortestPaths.constructor | app/src/main/java/graph/ShortestPaths.java:24-31 | no records and no origin yet: queries see an empty map |
| Paths.ShortestPaths.Compute | app/src/main/java/graph/ShortestPaths.java:33-67 | terminates with an empty frontier; every recorded node is settled at its recorded distance; the origin's record is PathData(0, null); every other record points through an edge to a node settled earlier, with that node's distance plus the edge's weight; every recorded node's neighbours are recorded; the recorded nodes are exactly those reachable from the origin |
| Paths.ShortestPaths.Start | app/src/main/java/graph/ShortestPaths.java:39-48 | fresh records, a fresh frontier holding just (origin, 0), frontierh = {origin: 0}, and the loop invariant holds |
| Paths.ShortestPaths.Seed | app/src/main/java/graph/ShortestPaths.java:46-48 | the origin is added to the empty frontier with priority 0, put in frontierh, and recorded as PathData(0, null) |
| Paths.ShortestPaths.SettleAll | app/src/main/java/graph/ShortestPaths.java:49-66 | the loop ends, on every graph, with an empty frontier and the loop invariant, and with every settled node's neighbours recorded |
| Paths.ShortestPaths.SettleNext | app/src/main/java/graph/ShortestPaths.java:50-65 | the polled node was the minimum-priority entry; it is settled at its distance; the records become those of scanning its neighbours; every settled node's neighbours stay recorded; the loop's measure decreases |
| Paths.ShortestPaths.ScanSettled | app/src/main/java/graph/ShortestPaths.java:57-65 | the scan of all the neighbours of the node just settled: the records become ScanRecords, and every settled node's neighbours are recorded |
| Paths.ShortestPaths.TakeFirst | app/src/main/java/graph/ShortestPaths.java:50-55 | peek and poll take out an entry of minimum priority; its node leaves frontierh and is settled at its recorded distance; the measure decreases |
| Paths.ShortestPaths.ScanNeighbors | app/src/main/java/graph/ShortestPaths.java:57-65 | the records become the scan of all the neighbours of f: each unsettled neighbour gets (distance of f + weight, f), the rest are unchanged; the count of entries of settled nodes is unchanged |
| Paths.ShortestPaths.ScanNeighbor | app/src/main/java/graph/ShortestPaths.java:58-64 | one neighbour: it is discovered if neither in frontierh nor settled, and otherwise the records stay, since the relaxation test never holds |
| Paths.ShortestPaths.Discover | app/src/main/java/graph/ShortestPaths.java:58-60 | w's record becomes (distance of f + weight, f), and a frontier entry with that distance is added |
| Paths.ShortestPaths.ShortestPathLength | app/src/main/java/graph/ShortestPaths.java:69-81 | infinity exactly when the node has no record, which after a compute is exactly when no path leads to it from the origin; otherwise its recorded distance, which is >= 0 and is the total weight of the walk shortestPath returns |
| Paths.ShortestPaths.ShortestPath | app/src/main/java/graph/ShortestPaths.java:83-98 | null exactly when the node has no record, which after a compute is exactly when no path leads to it from the origin; then answer is unchanged. Otherwise it returns the traced path, which answer then holds: a walk of the graph ending at the destination, with the recorded distance as its weight, starting at the origin when every edge weight is positive |
| Paths.ShortestPaths.Traversal | app/src/main/java/graph/ShortestPaths.java:99-108 | puts the traced path of travel in front of answer and returns it |

## Left out

- Graph parsing (`parseGraph`), `main` and printing are file and console I/O. They are not part of this model. `Graph` and `Node` are not part of this model either: a graph is a map from each node to its map from neighbour to edge weight, and a node the map lacks has no neighbours.
- The `settled` heap of `compute` (`ShortestPaths.java:43,54`) is written but never read, so it is left out.
- `createArray` is the Java workaround for generic arrays; here it is a Dafny array allocation. `Entry.toString` is printing.
- `HashTable` is not part of this model. The Heap's `map` field is the Dafny `map` field `positions`.
- Edge weights and distances: Java doubles are modelled as non-negative integers (`nat` weights, `int` distances). Floating point is not modelled. Heap priorities are `int`, and their `compareTo` is integer comparison.
- Java's `int` overflow is not modelled, for AList sizes and capacities (for example `a.length * 2`) or for heap indices.
- Queries before any `compute` see empty records and so return infinity or null; Java would throw NullPointerException on its null `paths` map. The constructor models Java's null fields as empty values.
- The order in which compute visits a node's neighbours (HashMap key order) is left open: any order is allowed, and the results are stated for all of them.
- Paths.ShortestPaths.Compute: does not state that the distances are shortest. For some graphs the source does not compute shortest distances; an example is given above.
- Lists.AList.WithCapacity: takes a `nat`; the NegativeArraySizeException Java throws for a negative capacity is not modelled.
- Lists.AList.Resize: takes a `nat`; the negative size Java would store for a negative argument is not modelled.
- Lists.AList.GrowIfNeeded: requires capacity > 0 unless the new size already fits, because from capacity 0 the Java recursion never ends.
- Lists.AList.Append: requires capacity > 0 for the same reason. Every AList the Heap uses has capacity at least 10.
- Heaps.Heap.ChangePriority: requires the heap to be valid but not class invariants 3-5, since no method of the source keeps them. It states the new multiset of entries, not that the replaced entry held v.
- Paths.ShortestPaths.ShortestPath: states that the path starts at the origin only when every edge weight is positive. With a zero-weight edge, traversal stops at the first node of distance 0 on the way back, and that node need not be the origin.
- Heaps.Heap.Add: does not throw IllegalArgumentException for a value already in the heap. The source does not check for one, and duplicates are allowed.
