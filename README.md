# Mixed matrix graph and arcs filter

This project is a Dafny model of two parts of a Go graph library.

The first part is `MixedMatrix`, a store for a mixed graph. Such a graph can hold undirected edges and directed arcs, at most one connection per pair of vertices. The store has:
- a fixed capacity of `size` vertices;
- a table `VertexIds` that maps external vertex ids to dense internal indices, handed out in order of first appearance;
- a flat array with one slot per unordered pair of internal indices. It is the upper triangle of the adjacency matrix, packed row by row;
- an edge counter and an arc counter.

Each slot holds one of four states: none, undirected, directed, and directed-reversed. An arc is stored as directed when its tail id is smaller than its head id. Otherwise it is stored as directed-reversed. Every edge and arc operation maps its two ids to a slot through `getConnectionId`, which can create missing vertices.

The second part is `DirectedGraphArcsFilter`, a view over a directed-graph reader. It hides a list of excluded arcs from four answers of that reader: the accessor and predecessor lists, the arc test, and the connection listing.

The modules are:
- `GraphTypes` (graph_types.dfy): the slot states, connections and error values. Go panics become `Result`/`Outcome` values.
- `SlotIndex` (slot_index.dfy): the packed address formula and its inverse `PairOfSlot`. Together they prove that the formula is a bijection from the pairs `lo < hi < size` onto the slots `[0, size*(size-1)/2)`.
- `ConnectionIndex` (connection_index.dfy): `getConnectionId` as a function on the vertex table, and what it guarantees.
- `MixedMatrixGraph` (mixed_matrix.dfy): the store as a class.
  - It has a `const nodes: array` and `vertexIds`/`edgesCnt`/`arcsCnt` fields.
  - Its invariant `Valid()` ties each counter to the number of slots in its state. It also says that an occupied slot belongs to two existing vertices.
  - Each mutator is proved to compute a value-level specification (`AddSpec`, `RemoveSpec`). The properties of the store are lemmas about those specifications.
- `Filters` (filters.dfy): the filter.
  - The wrapped reader is a record of given functions.
  - The in-place accessor and predecessor filtering is a method over an `array`. It is proved against `RemoveEach`, a removal of first occurrences, and `RemoveEach` is characterised by multiset counts and order preservation.

Three behaviours of the code shape the model:
- **Arc direction.** Which way an arc points is decided by comparing the external ids with `<` (src/graph/MixedMatrix.go:216, :241, :280, :348). The slot itself is chosen by ordering the internal indices (src/graph/MixedMatrix.go:442-448).
- **Iterator pairing.** The iterators visit each pair once, the one with the smaller external id first (src/graph/MixedMatrix.go:78, :298, :318, :363).
- **Vertex creation on removal.** `RemoveEdge` and `RemoveArc` look the slot up with creation allowed (src/graph/MixedMatrix.go:154, :239). So a failed removal naming unknown ids still adds those vertices, and `RemoveSpecKeepsInv` states this.

## Model

| member | source | states |
|---|---|---|
| SlotIndex.SlotFormula | src/graph/MixedMatrix.go:448 | row 0 starts at address 0; `SlotFormulaInRow`, `SlotFormulaInRange` and `SlotFormulaInjective` state its layout |
| SlotIndex.SlotFormulaInRange | src/graph/MixedMatrix.go:442-449 | for `0 <= lo < hi < size` the address lies in `[0, size*(size-1)/2)` |
| SlotIndex.SlotFormulaInjective | src/graph/MixedMatrix.go:448 | distinct pairs get distinct slots |
| SlotIndex.PairOfSlot | src/graph/MixedMatrix.go:448 | every slot of the array is the address of some pair `lo < hi < size`, so the formula is onto |
| SlotIndex.SlotFormulaRoundTrip | src/graph/MixedMatrix.go:448 | decoding the address of a pair gives back the pair |
| SlotIndex.CanonicalSlotDecodes | src/graph/MixedMatrix.go:442-449 | the ordered address of two distinct indices does not depend on their order, is in range and decodes to the ordered pair |
| SlotIndex.RowStartIsSlotCount | src/graph/MixedMatrix.go:25 | the triangle's rows together fill an array of length `size*(size-1)/2` exactly |
| SlotIndex.RowStartClosedForm | src/graph/MixedMatrix.go:448 | the row-by-row start of row `lo` equals the closed form the formula uses |
| ConnectionIndex.DenseIndexExtend | src/graph/MixedMatrix.go:52 | giving an unknown id the next index keeps the table one to one within `0 .. len-1` |
| ConnectionIndex.AdmitKeepsIndex | src/graph/MixedMatrix.go:432-435 | admitting an id keeps the table dense, keeps old entries, and gives a new id the index `len(VertexIds)` |
| ConnectionIndex.AllocateKeepsIndex | src/graph/MixedMatrix.go:432-440 | admitting both ids keeps the table dense and grows it by the number of unknown ids |
| ConnectionIndex.AllocateNumbersInOrder | src/graph/MixedMatrix.go:432-440 | the first argument is numbered before the second; old entries are unchanged |
| ConnectionIndex.ConnectionIdKeepsIndex | src/graph/MixedMatrix.go:391-450 | fails exactly on equal ids, on unknown ids without creation, or on too few free places; on success the table stays dense and within capacity, and the slot is in range and decodes to the two indices |
| ConnectionIndex.ConnectionId | src/graph/MixedMatrix.go:401-449 | fails exactly on equal ids, on an unknown id without creation, or on fewer free places than missing ids; on success both ids are in the new table and no old id is lost |
| ConnectionIndex.ConnectionIdAsWritten | src/graph/MixedMatrix.go:401-449 | as written, with creation and distinct ids it fails exactly when an id is missing and no place is free, so two missing ids need only one free place |
| ConnectionIndex.ConnectionIdSlot | src/graph/MixedMatrix.go:442-449 | a successful lookup's slot is in the array and belongs to two vertices of the new table; a slot of two old vertices leaves the table unchanged |
| ConnectionIndex.ConnectionIdSymmetric | src/graph/MixedMatrix.go:442-445 | `(a, b)` and `(b, a)` succeed alike and give the same slot |
| ConnectionIndex.ConnectionIdAsWrittenOverflows | src/graph/MixedMatrix.go:419-428 | as written, with one free place and two new ids, the table grows to `size + 1` and the slot equals the array length; the corrected lookup fails with `NoSpace(2)` |
| GraphTypes.ArcType | src/graph/MixedMatrix.go:216-220 | an arc is stored as directed or reversed, directed exactly when the tail's external id is the smaller |
| MixedMatrixGraph.RelativeAsWritten | src/graph/MixedMatrix.go:346-351 | as written, a reversed slot is answered reversed whatever the orientation asked, and directed is answered only for a forward slot asked with `tail <= head` |
| MixedMatrixGraph.RelativeAsWrittenOneSided | src/graph/MixedMatrix.go:347-351 | as written, the arc 2 -> 1 gets the same type when asked as (2, 1) and as (1, 2) |
| MixedMatrixGraph.RelativeIsCallerOriented | src/graph/MixedMatrix.go:336-352 | the corrected type query answers directed exactly for the true direction, reversed exactly for the opposite one, and passes edges and empty slots through |
| MixedMatrixGraph.SlotStatesPartition | src/graph/MixedMatrix.go:354-356 | the four state counts add up to the number of slots |
| MixedMatrixGraph.WriteCounts | src/graph/MixedMatrix.go:136-137 | writing one slot moves one count from the old state to the new state |
| MixedMatrixGraph.StoreInvWrite | src/graph/MixedMatrix.go:136-137 | writing one slot of an existing pair, with each counter adjusted for the old and new state, keeps the invariant |
| MixedMatrixGraph.EmptyStoreInv | src/graph/MixedMatrix.go:25-27 | all slots empty, an empty table and zero counters satisfy the invariant |
| MixedMatrixGraph.AddSpecKeepsInv | src/graph/MixedMatrix.go:128-137 | adding keeps the invariant; the added kind's counter grows by one exactly on success; a failed addition changes neither the table nor the slots |
| MixedMatrixGraph.RemoveSpecKeepsInv | src/graph/MixedMatrix.go:154-163 | removing keeps the invariant; the counter shrinks by one exactly on success; a failure changes no slot; a removal naming unknown ids fails yet creates them |
| MixedMatrixGraph.AddThenRemove | src/graph/MixedMatrix.go:239-255 | a removal right after a successful addition, in the same orientation, succeeds and restores every slot |
| MixedMatrixGraph.AddThenAdd | src/graph/MixedMatrix.go:208-214 | after a successful addition, adding on the same pair in either orientation fails with the stored type and changes nothing |
| MixedMatrixGraph.MixedMatrix.constructor | src/graph/MixedMatrix.go:20-29 | an empty store: `size*(size-1)/2` slots, all empty, no vertex, zero counters |
| MixedMatrixGraph.MixedMatrix.NewMixedMatrix | src/graph/MixedMatrix.go:20-29 | fails exactly on a non-positive size; otherwise `Order() == 0`, every slot empty and both counters zero |
| MixedMatrixGraph.MixedMatrix.Order | src/graph/MixedMatrix.go:59-61 | the vertex count never exceeds the capacity |
| MixedMatrixGraph.MixedMatrix.CheckNode | src/graph/MixedMatrix.go:109-112 | a known vertex has an internal index below `Order()` |
| MixedMatrixGraph.MixedMatrix.VertexesIter | src/graph/MixedMatrix.go:95-104 | the vertices reported are exactly the known ones, `Order()` of them |
| MixedMatrixGraph.MixedMatrix.RemoveNode | src/graph/MixedMatrix.go:67-69 | vertex removal always fails |
| MixedMatrixGraph.MixedMatrix.Lookup | src/graph/MixedMatrix.go:409-418 | reading a slot without creating vertices succeeds exactly for two distinct known ids |
| MixedMatrixGraph.MixedMatrix.EdgesCnt | src/graph/MixedMatrix.go:170-172 | the edge count is the number of undirected slots |
| MixedMatrixGraph.MixedMatrix.ArcsCnt | src/graph/MixedMatrix.go:262-264 | the arc count is the number of directed and reversed slots |
| MixedMatrixGraph.MixedMatrix.ConnectionsCnt | src/graph/MixedMatrix.go:354-356 | the connection count is the number of occupied slots |
| MixedMatrixGraph.MixedMatrix.CheckEdge | src/graph/MixedMatrix.go:177-192 | equal ids answer false; otherwise it succeeds exactly for two known ids |
| MixedMatrixGraph.MixedMatrix.CheckArc | src/graph/MixedMatrix.go:269-287 | with no equal-id guard, equal ids fail with `EqualNodes`; otherwise it succeeds exactly for two known ids |
| MixedMatrixGraph.MixedMatrix.CheckEdgeType | src/graph/MixedMatrix.go:336-352 | succeeds exactly for two distinct known ids (its answer is pinned by `CheckEdgeTypeAgrees`) |
| MixedMatrixGraph.MixedMatrix.AddNode | src/graph/MixedMatrix.go:35-53 | fails on a known id and on a full table, changing nothing; otherwise maps the id to `len(VertexIds)`; keeps the invariant |
| MixedMatrixGraph.MixedMatrix.GetConnectionId | src/graph/MixedMatrix.go:391-450 | computes `ConnectionId` on the table: the same error, or the same slot and new table |
| MixedMatrixGraph.MixedMatrix.AddEdge | src/graph/MixedMatrix.go:118-138 | the result, table and slots are `AddSpec`'s; the edge count grows by one exactly on success; afterwards `CheckEdge(node1, node2)` is true |
| MixedMatrixGraph.MixedMatrix.RemoveEdge | src/graph/MixedMatrix.go:144-164 | the result, table and slots are `RemoveSpec`'s; the edge count shrinks by one exactly on success; afterwards `CheckEdge` is false |
| MixedMatrixGraph.MixedMatrix.AddArc | src/graph/MixedMatrix.go:198-223 | stores `ArcType(tail, head)` as `AddSpec` says; the arc count grows by one exactly on success; afterwards `CheckArc(tail, head)` is true |
| MixedMatrixGraph.MixedMatrix.RemoveArc | src/graph/MixedMatrix.go:229-256 | clears the slot only if it holds `ArcType(tail, head)`, as `RemoveSpec` says; the arc count shrinks by one exactly on success |
| MixedMatrixGraph.MixedMatrix.LookupPair | src/graph/MixedMatrix.go:442-445 | both orientations of a pair read the pair's one slot |
| MixedMatrixGraph.CheckEdgeSymmetric | src/graph/MixedMatrix.go:177-192 | `CheckEdge(a, b)` and `CheckEdge(b, a)` agree |
| MixedMatrixGraph.CheckArcExclusive | src/graph/MixedMatrix.go:269-287 | an arc from tail to head excludes the arc back and an edge |
| MixedMatrixGraph.CheckEdgeTypeAgrees | src/graph/MixedMatrix.go:336-352 | the type query says directed iff `CheckArc(tail, head)`, reversed iff `CheckArc(head, tail)`, undirected iff `CheckEdge` |
| MixedMatrixGraph.MixedMatrix.ConnectionsIter | src/graph/MixedMatrix.go:73-91 | each reported pair has the smaller id first and both ids known; `ConnectionsIterComplete` states that it holds exactly the connected pairs |
| MixedMatrixGraph.MixedMatrix.EdgesIter | src/graph/MixedMatrix.go:293-310 | every reported edge is also a reported connection; `EdgesIterComplete` states that it holds exactly the edges |
| MixedMatrixGraph.MixedMatrix.ArcsIter | src/graph/MixedMatrix.go:313-334 | every reported arc joins two distinct known ids and its reverse is not a reported edge; `ArcsIterComplete` states that it holds exactly the arcs |
| MixedMatrixGraph.MixedMatrix.TypedConnectionsIter | src/graph/MixedMatrix.go:358-389 | every reported kind is undirected or directed, never none or reversed, and both ends are known; `TypedConnectionsIterComplete` states the full contents |
| MixedMatrixGraph.ConnectionsIterComplete | src/graph/MixedMatrix.go:73-91 | the listing holds exactly the connected pairs, smaller id first |
| MixedMatrixGraph.EdgesIterComplete | src/graph/MixedMatrix.go:293-310 | the edge listing holds exactly the edges, smaller id first |
| MixedMatrixGraph.ArcsIterComplete | src/graph/MixedMatrix.go:313-334 | the arc listing holds exactly the pairs `CheckArc` accepts, reversed slots swapped back |
| MixedMatrixGraph.TypedConnectionsIterComplete | src/graph/MixedMatrix.go:358-389 | the typed listing holds each edge smaller id first and each arc in its true direction tagged directed |
| MixedMatrixGraph.EdgeRoundTrip | src/graph/MixedMatrix.go:144-164 | adding and then removing an edge restores every slot and the edge count |
| MixedMatrixGraph.ArcRoundTrip | src/graph/MixedMatrix.go:229-256 | adding and then removing an arc restores every slot and the arc count |
| MixedMatrixGraph.EdgeThenArc | src/graph/MixedMatrix.go:208-214 | once a pair holds an edge, the reverse arc is refused with the stored type; `AddThenAdd` covers either orientation |
| MixedMatrixGraph.ScenarioSlot | src/graph/MixedMatrix.go:448 | with vertices 1..4 at indices 0..3, the pair (3, 1) lives in slot 1 |
| MixedMatrixGraph.FourVertexStore | src/graph/MixedMatrix.go:35-53 | adding 1, 2, 3, 4 to an empty store of capacity 4 numbers them 0..3 |
| MixedMatrixGraph.ReversedArcScenario | src/graph/MixedMatrix.go:216-220 | the arc 3 -> 1 is stored reversed yet reported from 3 to 1 by `CheckArc`, the type query and the arc listing; the connection count is 1 |
| Filters.RemoveFirstAt | src/graph/filters.go:42-51 | with `k` the first position of `x` (or the end), dropping the first `x` cuts out the element at `k` |
| Filters.RemoveFirstCount | src/graph/filters.go:48-51 | dropping the first `x` removes one `x` if present and nothing else |
| Filters.RemoveFirstOrder | src/graph/filters.go:48-51 | the rest keeps its order; the length drops by one iff `x` is present; an absent `x` changes nothing |
| Filters.RemoveEachCount | src/graph/filters.go:39-54 | removing each excluded end in turn is multiset difference |
| Filters.RemoveEachOrder | src/graph/filters.go:39-54 | what stays keeps its relative order |
| Filters.RemoveEachLength | src/graph/filters.go:38-54 | the length drops by at most the number of ends, and by exactly that number when every end is present |
| Filters.EndsCount | src/graph/filters.go:39-40 | an end `x` is removed as often as the arc joining it to `node` is excluded |
| Filters.KeptSpec | src/graph/filters.go:95-108 | the kept connections are exactly the wrapped ones not excluded, in their order |
| Filters.FindFirst | src/graph/filters.go:42-47 | the position found holds `x` and no earlier cell does; `len` means `x` is absent |
| Filters.DropFirst | src/graph/filters.go:42-51 | the first `len` cells become the list without the first `x`; the length shrinks by one iff `x` was there; the cells from `len` on and the last cell are not written |
| Filters.CopyDown | src/graph/filters.go:49 | the overlapping copy leaves the cells before `k` and shifts the rest one place left; the cells from `len - 1` on keep their old values |
| Filters.FilterStep | src/graph/filters.go:39-51 | one excluded arc keyed on `node` drops the first remaining occurrence of its other end, so the kept prefix is `RemoveEach` of the ends seen so far |
| Filters.ArcsFilter.FilterInPlace | src/graph/filters.go:36-55 | the array's first `len` cells hold `RemoveEach` of the wrapped list and the ends keyed on `node`; the last cell is never written |
| Filters.ArcsFilter.GetAccessors | src/graph/filters.go:36-55 | the first `len` cells of the wrapped accessor list become `Accessors(node)`; the slice's last cell keeps its value |
| Filters.ArcsFilter.GetPredecessors | src/graph/filters.go:58-77 | the first `len` cells of the wrapped predecessor list become `Predecessors(node)`; the slice's last cell keeps its value |
| Filters.AccessorSliceScenario | src/graph/filters.go:36-55 | accessors `[5, 7]` with the arc `(1, 5)` excluded: the answer has length 1 and the wrapped slice is left as `[7, 7]` |
| Filters.ArcsFilter.CheckArc | src/graph/filters.go:82-93 | true iff the wrapped reader has the arc and it is not excluded |
| Filters.ArcsFilter.ConnectionsIter | src/graph/filters.go:95-108 | the listing is `Kept(wrapped, arcs)` |
| Filters.ArcsFilter.ConnectionsIterAsWritten | src/graph/filters.go:98-104 | as written, the listing is always empty |
| Filters.NewArcsFilter | src/graph/filters.go:16-22 | the filter holds the reader and the given arc list unchanged |
| Filters.NewArcFilter | src/graph/filters.go:25-33 | the filter holds exactly one arc, `(tail, head)` |
| Filters.AccessorsSpec | src/graph/filters.go:36-55 | each `x` occurs as often as in the wrapped list less the exclusions of `(node, x)`, never below zero, in the wrapped order |
| Filters.PredecessorsSpec | src/graph/filters.go:58-77 | each `x` occurs as often as in the wrapped predecessors less the exclusions of `(x, node)`, in order |
| Filters.ConnectionsIterSpec | src/graph/filters.go:5-6 | no excluded arc is listed, every other wrapped connection is, in order |
| Filters.EmptyFilterIsTransparent | src/graph/filters.go:5-6 | with no excluded arc, every answer is the wrapped reader's |
| Filters.ArcsFilter.PredecessorsAsWritten | src/graph/filters.go:58-77 | the as-written filter starts from the accessor list: with no exclusions it returns the wrapped accessors, and it is never longer than them; `PredecessorsAsWrittenReadsAccessors` shows the difference from `Predecessors` |
| Filters.PredecessorsAsWrittenReadsAccessors | src/graph/filters.go:59 | a reader where 2 has predecessor 1 and no accessors: as written the answer is empty, corrected it is `[1]` |
| Filters.ConnectionsIterAsWrittenLoses | src/graph/filters.go:98-104 | a wrapped connection that is not excluded is missing from the as-written listing and present in the corrected one |

## Left out

- Goroutines and channels: each iterator is a set (store) or a sequence (filter) computed at once. Go map iteration order is unspecified, so the store's listings are sets.
- Error wrapping with `erx` and the `defer`/`recover` re-panics: failures are `Error` values. The context fields attached to them are not modelled.
- The Go `int` width: ids, indices and the slot arithmetic are unbounded. The overflow of `size*(size-1)/2` for huge capacities is not modelled.
- `GetSources`, `GetSinks` and the "dangling" bookkeeping of the wrapped reader: the filter leaves them untouched, and they are not part of this model.
- The wrapped reader: it is a record of given functions and a given connection sequence. Its own implementation is not part of this model.
- ConnectionIndex.DenseIndex: states that indices are in `0 .. len-1` and one to one. That every index is used follows from the count and is not stated separately.
- MixedMatrixGraph.MixedMatrix.CheckEdgeType: its own ensures only says when it succeeds. The answer is stated by `CheckEdgeTypeAgrees` and `RelativeIsCallerOriented`.
- MixedMatrixGraph.MixedMatrix.ConnectionsIter, EdgesIter, ArcsIter, TypedConnectionsIter: their own ensures bound what is listed. That the listings are complete is stated by the four `...IterComplete` lemmas.
- MixedMatrixGraph.EdgeThenArc: states the refusal and the counters only. That no slot changes is stated by `AddThenAdd`.
- Filters.ArcsFilter.FilterInPlace: besides the first `len` cells only the last cell is specified. The other stale cells after `len` are not.
- Filters.DropFirst, Filters.CopyDown, Filters.ArcsFilter.GetAccessors, Filters.ArcsFilter.GetPredecessors: the array stands for the slice the wrapped reader returned. In the original that slice may share storage with the reader's own data, so later reader calls can see the edit. The reader's lists are values here, and that aliasing is not modelled.

## Findings

| source | as written | input that shows it | evidently intended | confidence | as-written member | corrected member |
|---|---|---|---|---|---|---|
| src/graph/MixedMatrix.go:419-428 | the two-place test runs only when both ids exist, which the enclosing branch rules out, so one free place is enough to create two vertices | capacity `size`, `size - 1` vertices, an edge between two new ids: the table reaches `size + 1` entries and the slot equals the array length | refuse unless there is one free place per missing id | high, not executed | ConnectionIndex.ConnectionIdAsWrittenOverflows | ConnectionIndex.ConnectionIdKeepsIndex |
| src/graph/MixedMatrix.go:348 | only a forward slot asked in reverse is rewritten; a reversed slot is returned unchanged in both orientations | the arc 2 -> 1: asking (2, 1) and (1, 2) both give "reversed" | answer in the caller's orientation | medium, not executed | MixedMatrixGraph.RelativeAsWrittenOneSided | MixedMatrixGraph.RelativeIsCallerOriented |
| src/graph/filters.go:59 | the predecessor filter starts from the wrapped accessor list | a reader where 2 has predecessor 1 and no accessors, no arc excluded: the answer is empty | filter the wrapped predecessor list | high, not executed | Filters.PredecessorsAsWrittenReadsAccessors | Filters.PredecessorsSpec |
| src/graph/filters.go:98-104 | the loop never sends a connection, so the listing is always empty | any wrapped connection that is not excluded | send each wrapped connection that is not excluded | high, not executed | Filters.ConnectionsIterAsWrittenLoses | Filters.ConnectionsIterSpec |
