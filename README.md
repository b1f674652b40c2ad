# Incremental minimum spanning tree with Prim's algorithm (prim2.c)

This project models the core of `prim2.c` in Dafny. The program keeps an
undirected weighted graph in an adjacency matrix and reads a stream of lines:

- `i`, `c` and `d` lines insert an edge, change its weight or delete it;
- each `f` line asks for the weight of a minimum spanning tree of the current
  graph, or "Disconnected".

The answer is computed by Prim's algorithm over an indexed binary min-heap
with decrease-key.

The modules follow the program's structure:

- `GraphModel` (`graph_model.dfy`) is the graph as a value. It holds the
  matrix, the vertex count and the edge count. It defines `insertEdge`,
  `changeWeight` and `deleteEdge` as functions and proves what each one does
  to the cells, the edge set and the count.
- `GraphStore` (`graph_store.dfy`) is the graph as the program keeps it: a
  class over an `array2`. Its mutators update the cells in place, and each is
  proved to produce exactly the `GraphModel` result.
- `MinHeap` (`heap.dfy`) is the indexed heap: the `vertex` array of names in
  heap order, the `pos` array back from names to slots, and the `sort_key` of
  each vertex. It has `swap_vertex`/`swap_int`, `heapifyDown` (recursive),
  `heapifyUp` (a loop), `changeKey`, `extractMin` and `initHeap`. The swap
  keeps `pos` the inverse of `vertex`. `heapifyDown`, `heapifyUp`,
  `changeKey`, `extractMin` and `initHeap` also leave the active prefix
  heap-ordered. `extractMin` returns a minimum and parks it in the slot just
  past the shrunken heap.
- `Trees` (`trees.dfy`) holds paths, connectivity from vertex 0, closed cuts,
  trees given by parent links, and their weights.
- `Optimality` (`optimality.dfy`) proves that the tree Prim's greedy choices
  build weighs no more than any spanning tree of the graph. The proof is the
  exchange argument.
- `PrimInvariant` (`prim_invariant.dfy`) describes one run of `prim` as a
  value: heap arrays, keys, `inMST`, parents. It states the loop invariant and
  proves that extraction and relaxation each preserve it, and what it gives
  when the heap is empty.
- `PrimEngine` (`prim.dfy`) is `prim` itself: a class holding the vertex
  records and the heap, the loop split into its steps, the final
  parent check, and `findMST`'s mapping of -1 to "Disconnected".
- `Driver` (`driver.dfy`) is the instruction loop of `main`. Kept
  instructions are buffered and applied only when an `f` line arrives. This
  is proved to show `findMST` the same graphs as applying every instruction
  on arrival.

Vertex ids are 1-based in instructions and 0-based inside, as in the source.
A missing parent (`NULL`) is `-1`, and `INT_MAX` is 2147483647. The program's
main result is `PrimEngine.Prim`:

- it returns -1 exactly when the graph has no edge, or some vertex cannot be
  reached from vertex 0 over edges lighter than `INT_MAX`;
- otherwise it returns the weight of a spanning tree whose parent links are
  present edges lighter than `INT_MAX`;
- that tree weighs no more than any spanning tree of the graph;
- the ghost result `order` lists the vertices in the order they left the
  heap. Every vertex appears exactly once, so the loop runs `num_nodes`
  times;
- in a connected graph, each vertex's parent is extracted before it, and the
  result is the sum, in that order, of the parent-edge weights the loop adds
  to `total_weight`;
- the graph is not changed, because `Prim` has no `modifies` clause.

A one-vertex graph is trivially connected, but it has no edge. `prim`
returns -1 whenever the edge count is 0 (prim2.c:121-123), so `findMST`
reports such a graph as "Disconnected". `Prim` and `FindMST` state this
behaviour.

## Model

| member | source | states |
|---|---|---|
| GraphModel.Empty | prim2.c:232-241 | the new graph has the given vertex count, no edges, only zero cells, and satisfies the graph invariant |
| GraphModel.InsertEdgeSpec | prim2.c:174-180 | on an absent edge, both directions get the weight and the edge count grows by one; a present edge leaves the graph unchanged (first insertion wins); no other cell changes; symmetry and the count invariant hold |
| GraphModel.ChangeWeightSpec | prim2.c:182-187 | on a present edge, both directions get the new weight; an absent edge leaves the graph unchanged; the edge set and count never change; no other cell changes |
| GraphModel.DeleteEdgeSpec | prim2.c:189-195 | afterwards both directions are 0; a present edge lowers the count by one; an absent edge leaves the graph unchanged; no other cell changes |
| GraphModel.EdgeSetAdd | prim2.c:174-180 | writing a positive weight into an empty symmetric pair adds exactly that unordered edge to the edge set |
| GraphModel.EdgeSetRemove | prim2.c:189-195 | zeroing a present symmetric pair removes exactly that unordered edge from the edge set |
| GraphModel.EdgeSetKeep | prim2.c:182-187 | rewriting a present pair with another positive weight keeps the edge set |
| GraphModel.MirroredCells | prim2.c:176-177 | the mirrored write sets cells (i,j) and (j,i), leaves every other cell alone, and keeps the matrix symmetric |
| GraphModel.MutatorsUndirected | prim2.c:174-195 | all three mutators give the same graph whichever endpoint is named first |
| GraphModel.InsertThenDelete | prim2.c:174-195 | deleting an edge just inserted into an empty pair restores the graph |
| GraphModel.DeleteThenInsert | prim2.c:174-195 | re-inserting a deleted edge with its old weight restores the graph |
| GraphModel.ChangeWeightBack | prim2.c:182-187 | changing a weight and then changing it back restores the graph |
| GraphStore.Graph.constructor | prim2.c:232-241 | the matrix is allocated zero-filled: the abstract graph is `Empty(num_nodes)` |
| GraphStore.Graph.AbsCells | prim2.c:18-22 | the abstract matrix is square and agrees cell by cell with the array |
| GraphStore.Graph.SetPair | prim2.c:176-177 | the in-place mirrored write equals the functional mirrored write on the matrix |
| GraphStore.Graph.InsertEdge | prim2.c:174-180 | the in-place mutation equals `GraphModel.InsertEdge` on the previous graph and keeps the invariant |
| GraphStore.Graph.ChangeWeight | prim2.c:182-187 | the in-place mutation equals `GraphModel.ChangeWeight` on the previous graph and keeps the invariant |
| GraphStore.Graph.DeleteEdge | prim2.c:189-195 | the in-place mutation equals `GraphModel.DeleteEdge` on the previous graph and keeps the invariant |
| GraphStore.MatrixEquality | prim2.c:18-22 | two square matrices that agree on every cell are equal |
| MinHeap.Swap | prim2.c:44-54 | exchanges two entries and leaves every other entry alone |
| MinHeap.SwapKeepsInverse | prim2.c:69-70 | swapping two slots and then the positions of the two names now in them keeps `pos` the inverse of `vertex` |
| MinHeap.SiftDownStep | prim2.c:56-72 | swapping a slot with its smaller child repairs heap order everywhere except below that child |
| MinHeap.SiftDownDone | prim2.c:61-68 | when neither child is smaller, the heap is fully ordered |
| MinHeap.SiftUpStep | prim2.c:77-81 | swapping a slot with a larger parent moves the only possible violation up to the parent |
| MinHeap.SiftUpDone | prim2.c:77 | when the loop stops (root reached, or the parent not larger), the heap is fully ordered |
| MinHeap.RootIsMinimum | prim2.c:101 | in a heap-ordered prefix, slot 0 holds a key no larger than the key in any active slot |
| MinHeap.RootIsMinimumAll | prim2.c:101 | the vertex at slot 0 has a key no larger than any vertex still in the heap |
| MinHeap.LowerKeyOrderedAbove | prim2.c:85-91 | lowering the key of one active vertex breaks heap order at most between it and its ancestors, which `heapifyUp` repairs |
| MinHeap.ExtractOrderedBelow | prim2.c:101-108 | after the root gets `INT_MAX` and trades places with the last active slot, the shrunken heap is ordered except at slot 0 |
| MinHeap.SwapKeepsSuffix | prim2.c:76-83 | a swap inside the active prefix leaves the slots past it unchanged |
| MinHeap.SuffixKeepsStatus | prim2.c:76-83 | when only the active slots were permuted, every vertex stays in or out of the heap, and extracted vertices keep their slots |
| MinHeap.SuffixKeepsPositions | prim2.c:76-83 | when the slots past the heap are unchanged, so are the positions of the vertices in them |
| MinHeap.ExtractStatus | prim2.c:104-108 | after extraction, the vertices out of the heap are the extracted one plus those already out |
| MinHeap.IndexedHeap.constructor | prim2.c:113-117 | `initHeap` plus the seeding of lines 129-139: every vertex is in its own slot, the root has key 0, every other vertex has `INT_MAX`, and the heap is valid |
| MinHeap.IndexedHeap.SwapSlots | prim2.c:44-54 | the slots are swapped, the positions of the two names are swapped, and `pos` stays the inverse |
| MinHeap.IndexedHeap.HeapifyDown | prim2.c:56-74 | from a heap broken only at `index`, ends heap-ordered with the same keys and the slots past the heap untouched |
| MinHeap.IndexedHeap.HeapifyUp | prim2.c:76-83 | from a heap broken only above `index`, ends heap-ordered with the same keys and the slots past the heap untouched |
| MinHeap.IndexedHeap.ChangeKey | prim2.c:85-92 | the vertex's key becomes the new, lower key; the heap is valid again; no vertex enters or leaves the heap |
| MinHeap.IndexedHeap.DetachRoot | prim2.c:101-107 | the root's key becomes `INT_MAX`; it trades places with the last active slot; the size drops by one; the extracted key was a minimum |
| MinHeap.IndexedHeap.ExtractMin | prim2.c:96-111 | None on an empty heap; otherwise returns a vertex of minimum key, now keyed `INT_MAX` and parked at slot `size`, with the heap valid and one smaller and every other vertex's status kept |
| Trees.PathStaysInside | prim2.c:163-168 | a walk that starts inside a set no usable edge leaves stays inside it |
| Trees.ClosedSetDisconnects | prim2.c:163-168 | a set that holds vertex 0, misses some vertex and has no usable edge leaving it means the graph is not connected |
| Trees.SumUpdate | prim2.c:150 | replacing one entry changes the sum by the difference |
| Trees.AppendSum | prim2.c:150 | appending adds to the sum |
| Trees.SumNonNegative | prim2.c:150 | a sum of non-negative entries is non-negative |
| Trees.ParentEdgeWeights | prim2.c:150 | the per-vertex weight list of a parent tree has one entry per vertex |
| Trees.ParentChainReaches | prim2.c:163-168 | a vertex whose parent chain reaches the root over usable edges is reachable from vertex 0 |
| Trees.ParentTreeConnects | prim2.c:163-170 | parent links over usable edges that all reach the root make the graph connected |
| Trees.RankedParentsReachRoot | prim2.c:146-161 | parents that always rank higher (were extracted earlier) lead every vertex to the root |
| Optimality.GreedyTreeIsMinimum | prim2.c:146-161 | a tree built by Prim's greedy rule (each vertex joined by a lightest edge into the part extracted before it) weighs no more than any spanning tree of a symmetric graph |
| Optimality.ExchangeAll | prim2.c:146-161 | any spanning edge list can be exchanged, vertex by vertex in extraction order, into the greedy tree without gaining weight |
| Optimality.Exchange | prim2.c:146-161 | one exchange step: the edge list still spans and matches the greedy tree on one more vertex, and its weight does not grow |
| Optimality.Crossing | prim2.c:152-159 | the walk from the next vertex to the root leaves the extracted part along some edge of the list, at a known slot |
| Optimality.Swapped | prim2.c:155 | the exchanged list puts the vertex's parent edge in its own slot and moves the displaced edge into the crossing slot |
| Optimality.SwapAgrees | prim2.c:155-157 | the exchanged list is still made of graph edges and agrees with the greedy tree one vertex further |
| Optimality.SwapWeight | prim2.c:154 | the greedy edge is no heavier than the crossing edge it replaces, so the total does not grow |
| Optimality.SwapSpans | prim2.c:146-161 | the exchanged list still connects every vertex to the root |
| Optimality.ExchangeWeights | prim2.c:150 | the weight list after the exchange sums to the old sum minus the crossing edge plus the greedy edge |
| Optimality.ListWeights | prim2.c:150 | one weight per vertex, and 0 for the root |
| Optimality.AttachedStep | prim2.c:146-161 | a vertex linked to a vertex that reaches the root reaches it too |
| Optimality.RootFirst | prim2.c:139-147 | the root is extracted before every other vertex of a greedy tree |
| Optimality.ChainAttached | prim2.c:146-161 | in a list that agrees with the greedy tree on the extracted part, each extracted vertex reaches the root through it |
| Optimality.FirstExit | prim2.c:146-161 | a walk from an unextracted vertex to the root has a first step into the extracted part |
| Optimality.KeptLink | prim2.c:146-161 | a link outside the two exchanged slots survives the exchange |
| Optimality.PrefixAttached | prim2.c:146-161 | the vertices of the walk before the crossing still reach the root after the exchange |
| Optimality.SuffixAttached | prim2.c:146-161 | the vertices of the walk after the crossing still reach the root after the exchange |
| Optimality.TreeAttached | prim2.c:146-161 | a parent tree read as an edge list connects every vertex to the root |
| PrimInvariant.SeedInvariant | prim2.c:125-144 | the seeded records satisfy the loop invariant, with total 0, no cut and an empty extraction order |
| PrimInvariant.ZeroSum | prim2.c:144 | a list of zeros sums to 0 |
| PrimInvariant.ExtractedIsMinimum | prim2.c:147-148 | the extracted vertex has the least key in the heap; after the first round it is never the root |
| PrimInvariant.ExtractKeepsRecords | prim2.c:147-150 | extraction keeps the records' invariants: tree membership, heap keys, root and parent edges |
| PrimInvariant.ExtractKeepsCut | prim2.c:147-150 | after extraction, every heap vertex's key bounds the usable edges into it from the tree, and the greedy property is kept |
| PrimInvariant.ExtractKeepsWitness | prim2.c:147-150 | when the first non-root vertex leaves the heap without a parent, the set of vertices already out holds the root, misses it, and no usable edge leaves it; this witnesses disconnection |
| PrimInvariant.ExtractKeepsLedger | prim2.c:150 | the per-vertex contributions and the running total stay in step when the key is added |
| PrimInvariant.RelaxKeepsRecords | prim2.c:152-159 | one relaxation keeps the records' invariants |
| PrimInvariant.RelaxKeepsCut | prim2.c:152-159 | after relaxing vertex v, keys bound the usable edges from u up to v, and the greedy property is kept |
| PrimInvariant.RelaxKeepsWitness | prim2.c:152-159 | relaxation keeps the disconnection witness valid |
| PrimInvariant.RelaxKeepsLedger | prim2.c:152-159 | relaxation leaves the weight ledger alone |
| PrimInvariant.SuffixSlots | prim2.c:152-159 | the slots of extracted vertices do not move during relaxation |
| PrimInvariant.RelaxedNothing | prim2.c:152 | before the inner loop, no vertex has been relaxed |
| PrimInvariant.RelaxedOneMore | prim2.c:152-160 | relaxing vertex v extends "relaxed against u up to v" by one; each improving edge sets parent, key and sort key, and everything else is unchanged |
| PrimInvariant.SettleKeeps | prim2.c:147-150 | extraction plus the `total_weight` update preserve the whole invariant |
| PrimInvariant.RelaxKeeps | prim2.c:152-159 | one relaxation preserves the whole invariant |
| PrimInvariant.RoundKeepsOrder | prim2.c:146-161 | each round appends exactly the extracted vertex to the extraction order |
| PrimInvariant.FinishedOrder | prim2.c:146-161 | when the heap is empty, the order lists every vertex exactly once, so the loop ran `num_nodes` times |
| PrimInvariant.RoundExtracts | prim2.c:146-160 | an extraction followed by the relaxations against u is a round in which u had a least key among the heap vertices; afterwards u sits just past the heap with its key unchanged |
| PrimInvariant.ExtractedWeights | prim2.c:150 | one amount per extracted vertex: the weight of the edge to its parent |
| PrimInvariant.ParentsFirst | prim2.c:146-161 | once the heap is empty and every non-root vertex has a parent, each parent left the heap before its child |
| PrimInvariant.TrailWeights | prim2.c:144-150 | the amounts added to `total_weight`, in order of extraction, are the parent-edge weights of the extracted vertices |
| PrimInvariant.FinishedGrowth | prim2.c:144-170 | with every non-root vertex parented, the tree grew parent-first in extraction order, and `total_weight` is the sum of its parent-edge weights in that order |
| PrimInvariant.FinishedTree | prim2.c:163-170 | with no cut found, the parents form a spanning tree over usable edges and the graph is connected |
| PrimInvariant.FinishedLedger | prim2.c:144-170 | with no cut found, each vertex contributed exactly its parent-edge weight |
| PrimInvariant.FinishedGreedy | prim2.c:146-161 | with no cut found, the parents form a greedy tree in extraction order |
| PrimInvariant.FinishedMinimum | prim2.c:146-170 | on a symmetric graph with no cut found, the parent tree is a minimum spanning tree |
| PrimInvariant.FinishedCut | prim2.c:163-168 | a recorded cut means the graph is disconnected and some non-root vertex has no parent |
| PrimInvariant.LedgerTotal | prim2.c:144-170 | `total_weight` equals the tree's weight and is non-negative |
| PrimInvariant.ConcludesTree | prim2.c:163-170 | with no cut: every vertex has a parent, the graph is connected, the tree is minimum over usable edges, and `total_weight` is its weight |
| PrimInvariant.Concludes | prim2.c:163-170 | at the end of the loop, every non-root vertex has a parent exactly when the graph is connected; a connected graph yields a minimum tree whose weight is `total_weight` |
| PrimEngine.PrimRun.constructor | prim2.c:125-144 | the run is seeded: every vertex is in the heap; the root has key 0 and is in the tree; every other vertex has `INT_MAX` and no parent; the matrix is the graph's |
| PrimEngine.PrimRun.NewRecords | prim2.c:128-141 | fresh records: key `INT_MAX`, not in the tree, no parent; then the root gets key 0 and `inMST` |
| PrimEngine.PrimRun.ExtractRoot | prim2.c:147-149 | one extraction step of the run: a minimum-key heap vertex leaves the heap and is marked in the tree |
| PrimEngine.PrimRun.Settle | prim2.c:147-150 | the extraction step keeps the loop invariant, with the key added to the total |
| PrimEngine.PrimRun.RelaxOne | prim2.c:154-159 | the line-154 test, and when it holds, v gets parent u and the edge weight as key and sort key; otherwise nothing changes; the heap stays valid |
| PrimEngine.PrimRun.Relax | prim2.c:154-159 | the line-154 test and its update form one relaxation step, which keeps the invariant |
| PrimEngine.PrimRun.RelaxNeighbours | prim2.c:152-160 | every vertex is relaxed against u in index order, and the invariant holds afterwards |
| PrimEngine.PrimRun.Round | prim2.c:146-161 | one round extracts a vertex u of least key; u ends just past the shrunken heap; its key `w` is the amount added to `total_weight`; the order becomes `order + [u]`; the invariant is kept |
| PrimEngine.PrimRun.Loop | prim2.c:146-161 | the loop ends with the heap empty and the invariant intact; `order` is the actual extraction order, read off the parked slots, and lists every vertex exactly once; `total` is the sum of the extracted keys in that order |
| PrimEngine.PrimRun.AllHaveParents | prim2.c:164-168 | the scan is true exactly when every non-root vertex has a parent |
| PrimEngine.PrimRun.Finish | prim2.c:163-170 | -1 exactly when the graph is disconnected; otherwise the result is the weight of a minimum spanning tree over usable edges, grown parent-first in the extraction order, summed in that order |
| PrimEngine.PrimRun.Execute | prim2.c:146-170 | -1 exactly when disconnected, else a minimum spanning tree's weight; the extraction order lists each vertex once; when connected, each parent precedes its child in it and the result sums the parent-edge weights in that order |
| PrimEngine.Prim | prim2.c:120-171 | -1 exactly when the graph has no edges or is disconnected; otherwise the weight of a minimum spanning tree over usable edges; the extraction order lists each vertex once; when connected, each parent precedes its child in it and the result sums the parent-edge weights in that order; the graph is not changed |
| PrimEngine.FindMST | prim2.c:197-209 | "Disconnected" exactly when the graph has no edges or is disconnected; otherwise the minimum spanning tree weight |
| PrimEngine.EdgesNeedTwoVertices | prim2.c:121-126 | a graph with a counted edge has at least two vertices, so the run past line 123 has a root |
| Driver.Apply | prim2.c:252-263 | a kept instruction yields a valid graph on the same vertices; letters other than i, c and d change nothing |
| Driver.ApplyAll | prim2.c:250-263 | applying the pending instructions in order yields a valid graph on the same vertices |
| Driver.Snapshots | prim2.c:247-286 | with batching, one graph per `f` line, each valid on the same vertices |
| Driver.Eager | prim2.c:247-286 | with each instruction applied on arrival, one graph per `f` line |
| Driver.BatchingIsEager | prim2.c:249-266 | batching the instructions until the next `f` shows `findMST` the same graphs as applying each on arrival |
| Driver.TrailingInstructionsIgnored | prim2.c:266-286 | instructions after the last `f` never reach any graph `findMST` sees |
| Driver.ReportsDeterministic | prim2.c:197-209 | two permitted reports for the same graph are equal, so computing twice on an unchanged graph gives the same output |
| Driver.Dispatch | prim2.c:252-263 | the letter selects the mutator; the graph becomes `Apply` of the instruction |
| Driver.ApplyPending | prim2.c:250-263 | the buffer from `start_index` is applied in order |
| Driver.ApplyAllSnoc | prim2.c:250-263 | applying one more instruction extends the in-order application by that instruction |
| Driver.SuffixApplicable | prim2.c:247-286 | a suffix of well-formed commands is well formed |
| Driver.AllReportSnoc | prim2.c:265 | adding one report for one more graph keeps the report list matched to the graph list |
| Driver.AllReportIndex | prim2.c:265 | each listed output is a permitted report for its graph |
| Driver.Flush | prim2.c:249-266 | on `f`, the buffered instructions are applied and the output is the permitted report for the resulting graph |
| Driver.FlushInto | prim2.c:249-266 | the flush appends that graph and its report to the lists |
| Driver.ProgressFind | prim2.c:249-266 | an `f` line advances the loop state: the buffer is flushed into a new snapshot |
| Driver.ProgressKeep | prim2.c:268-285 | any other line advances the loop state by buffering its instruction |
| Driver.ProgressDone | prim2.c:247-286 | at the end of input, the snapshots taken are exactly the batched snapshots of the whole command list |
| Driver.RunConcludes | prim2.c:247-286 | one output per `f`, each permitted for its snapshot |
| Driver.Step | prim2.c:247-286 | one line of input: flush and report on `f`, otherwise append to the buffer |
| Driver.Run | prim2.c:243-286 | one output per `f` line, in order, each the permitted `findMST` report for the graph with every earlier instruction applied |

## Left out

- Reading `mst.in`, writing `mst.out2`, `printf` (including `changeKey`'s trace line), the `fscanf` error message and the clock: the driver takes the parsed lines as a sequence of commands and returns the outputs as a sequence.
- `malloc` and its failure: arrays are allocated by `new`; nothing is freed, as in the source.
- GraphStore.Graph.InsertEdge: requires 1-based ids in range, distinct ids and a weight in `1..INT_MAX`. The C code checks none of these; out-of-range ids index outside the matrix, which the model does not represent. The same requirement applies to `ChangeWeight`, `DeleteEdge` (ids only) and `Driver.Run`.
- Driver.Run: an `i` or `c` line whose weight is 0 or negative, and a self-loop, are outside `CommandsApplicable`, because the edge count and symmetry invariant cannot describe them.
- PrimEngine.Prim: does not model 32-bit wrap-around of `total_weight`; the sum is an unbounded integer.
- PrimEngine.Prim: edges of weight exactly `INT_MAX` never pass the strict test of line 154. Connectivity in its contract is therefore over edges lighter than `INT_MAX`, while minimality compares against every spanning tree of present edges.
- PrimEngine.PrimRun.RelaxOne: lines 156-158 write `sort_key` and call `heapifyUp` directly; the model calls `ChangeKey`, which performs the same assignment and the same sift without the trace line.
- MinHeap.IndexedHeap.HeapifyUp: modelled only for an index inside the active heap, the only way `prim` calls it.
- The vertex record's `name` field and `Vertex*` parent pointers are modelled as vertex indices, with -1 for `NULL`.
- `instr_list` is bounded by `MAX_INSTRUCTIONS` (10000), and `list_index` never resets, so a longer input overflows the C array. The model's buffer is an unbounded sequence.
- A line whose letter is not `f`, `d`, `i` or `c` is buffered and then ignored at the next flush, as in the source. Its numbers are not validated.
