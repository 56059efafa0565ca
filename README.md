# Data-structure exercises, modelled in Dafny

This project models the core of a set of Java data-structure exercises and
proves properties of the model:

- **Trains and wagons** (`wagon.dfy`, `train.dfy`). Wagons are linked both
  ways into chains. A train holds the first wagon of its chain. The model
  covers the link surgery of `Wagon`, and the counting, searching, checking,
  attaching, inserting, totalling and reversing of `Train`.
- **A partially sorted list** (`ordered_list.dfy`). `OrderedArrayList` keeps a
  sorted front of `nSorted` items. It has a linear search, an iterative and a
  recursive binary search, and `merge`.
- **In-place sorting** (`sorter.dfy`). `SorterImpl` has an insertion sort,
  quicksort with a Hoare-style partition, and the parts of `topsHeapSort` that
  are implemented.
- **Archer scoring** (`archer.dfy`). A 10 x 3 score table, its total and
  misses, the ranking comparator, and the id counter.
- **Station measurements** (`station.dfy`). Header parsing, and a date-keyed
  map with filtered, duplicate-free insertion.
- **Purchase lines** (`purchase.dfy`). Parsing `barcode, count` against a
  product list, and count updates.
- **A directed graph** (`graph.dfy`). `DirectedGraph` is a vertex and edge
  store with depth-first, breadth-first and Dijkstra-style searches.
- **Supporting modules.**
  - `wrappers.dfy`: `Option`.
  - `java_int.dfy`: Java's 32-bit `int` wrap-around.
  - `text.dfy`: the parts of `String.split`, `String.trim`,
    `Integer.parseInt` and `Long.toString` that the parsers use.

Modelling choices:

- **Objects that are updated in place are classes.** Examples: the yard of
  wagon links, a train, the ordered list, a graph, a station, an archer, a
  purchase.
- **Pure computations are functions,** and their properties are lemmas.
- **In-place sorting works on an `array`.** A comparator is modelled as the
  comparison of an integer key.
- **Wagons are identified by an int id.** Their links are the maps
  `next`/`prev` of a `Yard` object. A ghost map `line` gives, for each wagon,
  the chain from that wagon to the end of its sequence.
- **Java `int` overflow is written out** wherever the source adds up `int`s.
  The totals of seats, weights and scores wrap around.
- **Exceptions that the source can raise become outcomes:**
  - `thrown` results;
  - `IndexOutOfBounds`;
  - `ClassCast`;
  - `CountNotANumber`;
  - `NullPointerThrown`.

## Model

| member | source | states |
|---|---|---|
| Wagons.Yard.constructor | Assignment1/src/main/java/models/Wagon.java:17-19 | new wagons are unlinked; each one is a chain of one wagon; the link invariant holds |
| Wagons.Yard.LastWagonAttached | Assignment1/src/main/java/models/Wagon.java:40-46 | the result is the last wagon of the chain from `w`; it has no next wagon |
| Wagons.Yard.TailLength | Assignment1/src/main/java/models/Wagon.java:52-60 | the result is the number of wagons behind `w` in its chain |
| Wagons.Yard.AttachTail | Assignment1/src/main/java/models/Wagon.java:70-81 | it throws exactly when `a` has a next wagon or `t` has a previous one, and then nothing changes; otherwise `next[a] = t` and `prev[t] = a`, and every chain through `a` goes on with `t`'s chain; the two-way link invariant is kept |
| Wagons.Yard.DetachTail | Assignment1/src/main/java/models/Wagon.java:88-96 | it returns the former next wagon, or none; that link is removed in both directions and nothing else changes; chains through `a` now end at `a` |
| Wagons.Yard.DetachFront | Assignment1/src/main/java/models/Wagon.java:105-112 | it returns the former previous wagon, or none; that link is removed in both directions and nothing else changes; the chains are cut in front of `w` |
| Wagons.Yard.ReAttachTo | Assignment1/src/main/java/models/Wagon.java:122-130 | `w` is cut from its front and `front` from its tail; afterwards `next[front] = w` and `prev[w] = front`; the full new link maps are given |
| Wagons.Yard.Unlink | Assignment1/src/main/java/models/Wagon.java:123-128 | the detaching half of `reAttachTo`: afterwards `front` has no next wagon and `w` no previous one; the full link maps are given |
| Wagons.Yard.RemoveFromSequence | Assignment1/src/main/java/models/Wagon.java:136-147 | `w` ends up with no neighbours; if it had both, its former previous wagon is linked to its former next one; the full link maps are given in both cases |
| Wagons.Yard.Bypass | Assignment1/src/main/java/models/Wagon.java:139-142 | a wagon with two neighbours is taken out, and its neighbours are linked to each other |
| Wagons.AttachLines | Assignment1/src/main/java/models/Wagon.java:13-15 | attaching a chain behind the end of another chain keeps the chain invariant |
| Wagons.DetachLines | Assignment1/src/main/java/models/Wagon.java:13-15 | cutting a chain keeps the chain invariant |
| Wagons.DetachUndoesAttach | Assignment1/src/main/java/models/Wagon.java:70-96 | detaching the tail right after attaching it gives back the links and the chains |
| Wagons.HeadsMeet | Assignment1/src/main/java/models/Wagon.java:13-15 | two chain heads whose chains share a wagon are the same wagon |
| Trains.Train.constructor | Assignment1/src/main/java/models/Train.java:14-18 | a new train has no wagons and keeps its engine, origin and destination |
| Trains.Train.NumberOfWagons | Assignment1/src/main/java/models/Train.java:36-42 | the result is the length of the train's wagon sequence |
| Trains.Train.LastWagonAttached | Assignment1/src/main/java/models/Train.java:47-53 | null exactly for an empty train; otherwise the rear wagon, which has no next wagon |
| Trains.Train.FindWagonAtPosition | Assignment1/src/main/java/models/Train.java:95-106 | a wagon exactly when `1 <= position <= count`; it is the wagon at that position |
| Trains.Train.FindWagonById | Assignment1/src/main/java/models/Train.java:115-124 | the wagon with that id when the train has it, otherwise null |
| Trains.Train.CanAttach | Assignment1/src/main/java/models/Train.java:134-144 | true exactly when all three conditions hold: same class as the first wagon (or an empty train), no previous wagon, and enough engine capacity |
| Trains.Train.AttachToRear | Assignment1/src/main/java/models/Train.java:154-171 | it succeeds exactly when `canAttach` holds, and otherwise changes nothing; on success the new sequence is the old one followed by the wagon's whole chain; the first wagon still has no previous wagon |
| Trains.Train.InsertAtFront | Assignment1/src/main/java/models/Train.java:182-196 | it succeeds exactly when the wagon is not in the train and `canAttach` holds, and otherwise changes nothing; on success the wagon's chain comes first, followed by the old sequence |
| Trains.Train.CapacityTotal | Assignment1/src/main/java/models/Train.java:59-86 | 0 for an empty train or a train of the other class; a ClassCastException when a wagon of the other class follows; otherwise the `int`-wrapped sum over the sequence |
| Trains.Train.TotalNumberOfSeats | Assignment1/src/main/java/models/Train.java:59-68 | the wrapped seat sum of an all-passenger train; 0 when the first wagon is a freight wagon; ClassCast for a mixed train |
| Trains.Train.TotalMaxWeight | Assignment1/src/main/java/models/Train.java:77-86 | the wrapped weight sum of an all-freight train; 0 when the first wagon is a passenger wagon; ClassCast for a mixed train |
| Trains.Train.Reverse | Assignment1/src/main/java/models/Train.java:351-382 | the new sequence is the old one reversed; a train with at most one wagon is unchanged |
| Trains.Train.MoveRearWagon | Assignment1/src/main/java/models/Train.java:368-381 | one round of the reverse loop takes the reversal from `i` to `i + 1` moved wagons |
| Trains.Train.DetachRear | Assignment1/src/main/java/models/Train.java:370-372 | it detaches the rear wagon of the part not yet reversed; that part loses its last wagon and the reversed part is kept |
| Trains.Train.AppendWagon | Assignment1/src/main/java/models/Train.java:379 | a lone wagon is attached behind the rear of the train; the train's chain grows by that wagon; chains not through the rear are kept |
| Trains.Train.MoveOneWagonRefused | Assignment1/src/main/java/models/Train.java:250-267 | it refuses exactly when the id is not in this train, or when the other train is non-empty and of the other class |
| Trains.Train.SplitAtPositionRefused | Assignment1/src/main/java/models/Train.java:312-330 | it refuses exactly when the position is outside `1..count`, or is 1 in a train of more than one wagon |
| Trains.ReversedTwice | Assignment1/src/main/java/models/Train.java:351-382 | reversing twice gives the sequence back |
| Trains.ReversedAt | Assignment1/src/main/java/models/Train.java:351-382 | position `k` of the reversal holds the wagon `k` places from the rear |
| Trains.CapacitySumReversed | Assignment1/src/main/java/models/Train.java:59-86 | reversing a train keeps its total seats and weight |
| Trains.CapacitySumAppend | Assignment1/src/main/java/models/Train.java:154-171 | the total of a train with a sequence attached is the sum of both totals |
| Trains.RoundCut | Assignment1/src/main/java/models/Train.java:370-372 | in round `i` the rear wagon's previous wagon is the one before it; cutting there shortens the unreversed part by one and keeps the reversed part |
| OrderedLists.OrderedArrayList.constructor | Assignment2/src/main/java/models/OrderedArrayList.java:23-27 | the list is empty, `nSorted` is 0 and the ordering is kept |
| OrderedLists.OrderedArrayList.Clear | Assignment2/src/main/java/models/OrderedArrayList.java:34-37 | the list is empty and `nSorted` is 0 |
| OrderedLists.OrderedArrayList.Sort | Assignment2/src/main/java/models/OrderedArrayList.java:40-44 | the whole list is a sorted permutation of the old one; `ordening` becomes `c` and `nSorted` becomes the size |
| OrderedLists.OrderedArrayList.SortIfNeeded | Assignment2/src/main/java/models/OrderedArrayList.java:69-73 | nothing happens when `nSorted >= size`; otherwise the list is sorted by its own ordering |
| OrderedLists.OrderedArrayList.Add | Assignment2/src/main/java/models/OrderedArrayList.java:47-50 | IndexOutOfBounds is thrown exactly when `index` is outside `0..size`, and then nothing changes; otherwise the item is inserted at `index`; `nSorted` drops below `index` exactly when `0 <= index < nSorted`; the sorted front stays sorted |
| OrderedLists.OrderedArrayList.Append | Assignment2/src/main/java/models/OrderedArrayList.java:13-17 | appending keeps `nSorted` and the sorted front |
| OrderedLists.OrderedArrayList.RemoveAt | Assignment2/src/main/java/models/OrderedArrayList.java:53-57 | `nSorted` drops by one exactly when `index < nSorted` and `nSorted != 0`, also when the index is then refused; IndexOutOfBounds (`None`) exactly when `index` is outside `0..size-1`, with the items unchanged; otherwise it returns the removed item and the list shrinks by it; the front stays sorted |
| OrderedLists.OrderedArrayList.LinearSearch | Assignment2/src/main/java/models/OrderedArrayList.java:93-100 | the first index in `[left, right)` that compares 0; -1 when there is none; IndexOutOfBounds for a negative `left` |
| OrderedLists.OrderedArrayList.IndexOfByIterativeBinarySearch | Assignment2/src/main/java/models/OrderedArrayList.java:112-134 | a returned index compares 0; -1 only when no item compares 0; IndexOutOfBounds exactly when the loop reads index `nSorted == size` or `nSorted` is negative |
| OrderedLists.OrderedArrayList.RecursiveBinarySearch | Assignment2/src/main/java/models/OrderedArrayList.java:155-172 | a result is -1 or an index in `[left, right]` that compares 0; -1 on a sorted range means no match there |
| OrderedLists.OrderedArrayList.IndexOfByRecursiveBinarySearch | Assignment2/src/main/java/models/OrderedArrayList.java:146-153 | a returned index compares 0; -1 only when no item compares 0 |
| OrderedLists.OrderedArrayList.Merge | Assignment2/src/main/java/models/OrderedArrayList.java:187-200 | null: false, no change; no match: the item is appended and the result is true; match: that item is replaced by `merger(match, item)` and the result is false |
| OrderedLists.SortedCountAfterAdd | Assignment2/src/main/java/models/OrderedArrayList.java:47-48 | the count after an insertion is below the insertion index when the index lies in the sorted front |
| OrderedLists.AddAtFrontGivesMinusOne | Assignment2/src/main/java/models/OrderedArrayList.java:48 | inserting at index 0 of a list with a sorted front sets `nSorted` to -1 |
| OrderedLists.SortedCountAfterAddFixed | Assignment2/src/main/java/models/OrderedArrayList.java:47-48 | the corrected count keeps the items before the index |
| OrderedLists.AddFixedKeepsSortedFront | Assignment2/src/main/java/models/OrderedArrayList.java:13-17 | with the corrected count, an insertion keeps a valid count and a sorted front |
| Sorting.InsSortSorts | Assignment3/src/main/java/nl/hva/ict/ads/SorterImpl.java:16-36 | the insertion-sort specification is sorted and a permutation |
| Sorting.InsSortStable | Assignment3/src/main/java/nl/hva/ict/ads/SorterImpl.java:27 | insertion sort is stable: items with equal keys keep their order |
| Sorting.InsertAfterGreater | Assignment3/src/main/java/nl/hva/ict/ads/SorterImpl.java:27-33 | shifting only strictly greater items places the item after equal ones |
| Sorting.ShiftGreater | Assignment3/src/main/java/nl/hva/ict/ads/SorterImpl.java:27-31 | the inner loop moves the greater items one place up and stops after an item that is not greater |
| Sorting.InsertItem | Assignment3/src/main/java/nl/hva/ict/ads/SorterImpl.java:22-33 | one outer round inserts item `i` into the sorted front |
| Sorting.SelInsSort | Assignment3/src/main/java/nl/hva/ict/ads/SorterImpl.java:16-36 | the array becomes the stable insertion sort of its old contents: sorted and a permutation |
| Sorting.Swap | Assignment3/src/main/java/nl/hva/ict/ads/SorterImpl.java:99 | two positions are exchanged and nothing else changes |
| Sorting.Partition | Assignment3/src/main/java/nl/hva/ict/ads/SorterImpl.java:75-109 | `begin <= p <= end`; the pivot lands at `p`, smaller-or-equal items before it and greater-or-equal items after; a permutation; nothing outside the range changes |
| Sorting.QuickSortPart | Assignment3/src/main/java/nl/hva/ict/ads/SorterImpl.java:61-72 | `a[from..to]` is sorted; a permutation; nothing outside the range changes |
| Sorting.QuickSort | Assignment3/src/main/java/nl/hva/ict/ads/SorterImpl.java:46-50 | the whole array is sorted and a permutation |
| Sorting.TopsHeapSort | Assignment3/src/main/java/nl/hva/ict/ads/SorterImpl.java:123-170 | unchanged for `numTops <= 0`; fully sorted for `numTops > size`; otherwise a permutation whose root is at most every item of the tail |
| Sorting.SortedAroundPivot | Assignment3/src/main/java/nl/hva/ict/ads/SorterImpl.java:66-71 | two sorted sides around a pivot make a sorted range |
| Archers.IdCounter.constructor | Assignment3/src/main/java/nl/hva/ict/ads/Archer.java:7 | the first id handed out is 135788 |
| Archers.Archer.constructor | Assignment3/src/main/java/nl/hva/ict/ads/Archer.java:23-34 | the archer gets the counter's id and the counter goes up by one (wrapping like `int`); the score table is 10 x 3 zeros |
| Archers.Archer.RegisterScoreForRound | Assignment3/src/main/java/nl/hva/ict/ads/Archer.java:42-47 | row `round - 1` holds the points and every other entry is unchanged; it throws exactly for a round outside 1..10 (nothing written) or fewer than three points (the points there are written first) |
| Archers.Archer.TotalScore | Assignment3/src/main/java/nl/hva/ict/ads/Archer.java:54-63 | the `int`-wrapped sum of all table entries |
| Archers.Archer.CalculateMisses | Assignment3/src/main/java/nl/hva/ict/ads/Archer.java:105-116 | the number of zero entries |
| Archers.Archer.CompareTo | Assignment3/src/main/java/nl/hva/ict/ads/Archer.java:73-97 | it is the comparison of (total, misses, id); negative exactly when this archer ranks first; nonzero for different ids |
| Archers.CompareStandings | Assignment3/src/main/java/nl/hva/ict/ads/Archer.java:73-97 | the result is -1, 0 or 1; negative exactly for a higher total, or an equal total with fewer misses, or both equal and a lower id; 0 exactly for equal standings |
| Archers.CompareAntisymmetric | Assignment3/src/main/java/nl/hva/ict/ads/Archer.java:73-97 | `cmp(a, b) == -cmp(b, a)` |
| Archers.CompareTransitive | Assignment3/src/main/java/nl/hva/ict/ads/Archer.java:73-97 | the ranking is transitive |
| Archers.NewArcherScores | Assignment3/src/main/java/nl/hva/ict/ads/Archer.java:33 | a new archer has total 0 and 30 misses |
| Archers.ZeroTable | Assignment3/src/main/java/nl/hva/ict/ads/Archer.java:33 | an all-zero table sums to 0 and has one miss per entry |
| Stations.ParseHeader | Assignment4/src/main/java/models/Station.java:41-49 | fewer than two comma fields is rejected; otherwise accepted exactly when the trimmed first field is an `int`, which becomes the station number |
| Stations.ParseWrittenHeader | Assignment4/src/main/java/models/Station.java:41-49 | a header written as `stn,name` is read back |
| Stations.EmptyNameRejected | Assignment4/src/main/java/models/Station.java:42-43 | a line ending in its only comma is rejected, because the split drops the empty name |
| Stations.Station.constructor | Assignment4/src/main/java/models/Station.java:14-19 | it keeps number and name; no measurements |
| Stations.Station.FromLine | Assignment4/src/main/java/models/Station.java:41-49 | null exactly when the header does not parse; otherwise a new station with no measurements |
| Stations.Station.AddMeasurements | Assignment4/src/main/java/models/Station.java:59-69 | the new map is the filtered, first-wins insertion of the batch; the result is the growth in size, which is at least 0; the invariant is kept |
| Stations.AddAllKeeps | Assignment4/src/main/java/models/Station.java:61-67 | stored entries are never overwritten |
| Stations.AddAllNew | Assignment4/src/main/java/models/Station.java:61-67 | a new date comes from this station's first measurement of it in the batch |
| Stations.AddAllCovers | Assignment4/src/main/java/models/Station.java:61-67 | every measurement of this station in the batch has its date stored |
| Stations.AddAllKeyed | Assignment4/src/main/java/models/Station.java:66 | entries stay keyed by their own date and stay of this station |
| Stations.Station.FirstDayOfMeasurement | Assignment4/src/main/java/models/Station.java:94-104 | empty exactly when there are no measurements; otherwise a stored date |
| Stations.FirstDayIsLeastKey | Assignment4/src/main/java/models/Station.java:94-104 | the first day is the least stored date |
| Stations.Least | Assignment4/src/main/java/models/Station.java:99-101 | the least element of a non-empty set |
| Purchases.LastMatch | Assignment2/src/main/java/models/Purchase.java:38-44 | the last product whose barcode text equals the field; -1 when none does |
| Purchases.ParseLine | Assignment2/src/main/java/models/Purchase.java:25-53 | not two `", "` fields: rejected; a count that is not an `int`: NumberFormatException, and this happens exactly then; unknown barcode: rejected; otherwise the last matching product and the count |
| Purchases.ParseWrittenLine | Assignment2/src/main/java/models/Purchase.java:25-53 | a line written from a listed product and a count is parsed back to the last product with that barcode and that count |
| Purchases.Purchase.constructor | Assignment2/src/main/java/models/Purchase.java:12-15 | it keeps the product and the count |
| Purchases.Purchase.FromLine | Assignment2/src/main/java/models/Purchase.java:25-53 | it throws exactly on a bad count; otherwise it returns a new purchase exactly when the line parses |
| Purchases.Purchase.AddCount | Assignment2/src/main/java/models/Purchase.java:60-62 | the count grows by `delta`, wrapping like `int` |
| Purchases.Purchase.SetCount | Assignment2/src/main/java/models/Purchase.java:72-74 | the count is replaced |
| Purchases.Purchase.Barcode | Assignment2/src/main/java/models/Purchase.java:64-66 | the barcode is the purchased product's barcode |
| Graphs.DirectedGraph.constructor | Assignment5/src/main/java/graphs/DirectedGraph.java:9-10 | no vertices and no edges |
| Graphs.DirectedGraph.GetVertexById | Assignment5/src/main/java/graphs/DirectedGraph.java:36-38 | a vertex exactly for a stored id; it carries that id |
| Graphs.DirectedGraph.GetNeighbours | Assignment5/src/main/java/graphs/DirectedGraph.java:48-60 | null exactly for null or an unknown vertex; otherwise exactly the targets of its edges, each listed once |
| Graphs.DirectedGraph.AddOrGetVertex | Assignment5/src/main/java/graphs/DirectedGraph.java:93-99 | a new id is stored and its vertex returned; for a known id the stored vertex is returned and nothing changes |
| Graphs.DirectedGraph.AddEdge | Assignment5/src/main/java/graphs/DirectedGraph.java:111-125 | it succeeds exactly when both ends are non-null, distinct, and not yet joined; on failure nothing changes; on success `getEdge` yields the edge, both ends are stored, the edge set gains exactly this pair and the count grows by one |
| Graphs.DirectedGraph.AddEdgeById | Assignment5/src/main/java/graphs/DirectedGraph.java:137-139 | an unknown id is refused with no change; otherwise as `addEdge` on the stored vertices |
| Graphs.DirectedGraph.AddConnection | Assignment5/src/main/java/graphs/DirectedGraph.java:150-152 | true exactly when both directions were added; if the first fails nothing changes; a first edge added stays when the second fails |
| Graphs.DirectedGraph.GetEdge | Assignment5/src/main/java/graphs/DirectedGraph.java:175-181 | an edge exactly when both vertices are given and joined from `from` to `to`; it is the stored edge |
| Graphs.DirectedGraph.GetEdgeById | Assignment5/src/main/java/graphs/DirectedGraph.java:183-185 | an edge exactly when both ids are stored and their vertices are joined |
| Graphs.DirectedGraph.NumVertices | Assignment5/src/main/java/graphs/DirectedGraph.java:190-192 | the number of stored ids |
| Graphs.DirectedGraph.NumEdges | Assignment5/src/main/java/graphs/DirectedGraph.java:199-201 | the number of ordered pairs joined by an edge |
| Graphs.DirectedGraph.RemoveUnconnectedVertices | Assignment5/src/main/java/graphs/DirectedGraph.java:206-209 | the edge pairs and every edge's payload are unchanged; exactly the empty inner maps are dropped; every remaining vertex has an outgoing edge; every vertex with an outgoing edge stays |
| Graphs.DirectedGraph.DfsRecursive | Assignment5/src/main/java/graphs/DirectedGraph.java:285-306 | a found path is a walk from `current` to the target along edges, through vertices not visited before, all now visited; no path means the target is not reachable from the newly visited vertices |
| Graphs.DirectedGraph.DepthFirstSearch | Assignment5/src/main/java/graphs/DirectedGraph.java:266-283 | null exactly for an unknown id; `[start]` with visited `{start}` when start is the target; a found path is a repetition-free edge walk from start to target, all visited; a path without vertices means the target is unreachable |
| Graphs.DirectedGraph.ExpandVertex | Assignment5/src/main/java/graphs/DirectedGraph.java:343-358 | the queued vertices are successors of `current` not reached before, each queued once; the queue and the enqueue history grow by exactly them; each is recorded as reached, and reachable from the start; all neighbours are reached when the target is not among them |
| Graphs.DirectedGraph.GrowTree | Assignment5/src/main/java/graphs/DirectedGraph.java:354-356 | recording a new successor as reached from `current` keeps the search tree: parents have smaller depth, every reached vertex is reachable from the start, each reached vertex is enqueued once |
| Graphs.QueueAfterRound | Assignment5/src/main/java/graphs/DirectedGraph.java:340-360 | after a poll and the offers of one round, the queue still has no repeats and is the tail of the enqueue history |
| Graphs.DirectedGraph.TraceBack | Assignment5/src/main/java/graphs/DirectedGraph.java:346-352 | the walk up `visitedFrom` ends, leaving `[start, current, target]` |
| Graphs.DirectedGraph.BfsRound | Assignment5/src/main/java/graphs/DirectedGraph.java:342-359 | one round keeps the frontier invariant (search tree; queue without repeats and the tail of the enqueue history; finished vertices closed under edges) and shrinks the search, or reaches the target along an edge, and then the target is reachable from the start |
| Graphs.DirectedGraph.BfsFrom | Assignment5/src/main/java/graphs/DirectedGraph.java:335-361 | null exactly means the target is unreachable: a result is `[start, c, target]` for some `c` with an edge to the target, and then the target is reachable from the start |
| Graphs.DirectedGraph.BreadthFirstSearch | Assignment5/src/main/java/graphs/DirectedGraph.java:319-362 | null for an unknown id, and otherwise only when the target is unreachable; `[start]` when start is the target; otherwise `[start, c, target]` with both ends visited; a returned path means the target is reachable |
| Graphs.Relax | Assignment5/src/main/java/graphs/DirectedGraph.java:439-444 | a node's `weightSumTo` never grows; it takes the candidate exactly when the candidate is smaller, recording where it came from |
| Graphs.Reach | Assignment5/src/main/java/graphs/DirectedGraph.java:423-444 | a new node is created or an existing one relaxed; other nodes are unchanged |
| Graphs.SelectNext | Assignment5/src/main/java/graphs/DirectedGraph.java:476-491 | none exactly when every node is marked; otherwise an unmarked node |
| Graphs.DirectedGraph.RelaxNeighbours | Assignment5/src/main/java/graphs/DirectedGraph.java:422-444 | the Dijkstra state invariant is kept and no `weightSumTo` grows; the stale current node is refreshed only when there are neighbours |
| Graphs.DirectedGraph.RelaxTarget | Assignment5/src/main/java/graphs/DirectedGraph.java:446-460 | it crashes exactly when a known back-neighbour has no edge to the target; otherwise the state is kept |
| Graphs.DirectedGraph.WalkBack | Assignment5/src/main/java/graphs/DirectedGraph.java:461-470 | a completed walk is an edge path from start to the target |
| Graphs.DirectedGraph.FinishAtTarget | Assignment5/src/main/java/graphs/DirectedGraph.java:445-472 | the reported total is the target node's `weightSumTo`; the path is an edge path from start to target weighing at most that; visited is the set of known nodes |
| Graphs.DirectedGraph.DijkstraShortestPath | Assignment5/src/main/java/graphs/DirectedGraph.java:394-494 | null for an unknown id, and otherwise only when the target is unreachable; `[start]` with weight 0 when start is the target; a result is an edge path from start to target weighing at most its reported total |
| Graphs.PutEdgeEffect | Assignment5/src/main/java/graphs/DirectedGraph.java:117-123 | storing an edge adds exactly that pair and leaves every other edge as it was |
| Graphs.DirectedGraph.ClosedBlocks | Assignment5/src/main/java/graphs/DirectedGraph.java:285-306 | no edge walk leaves a set closed under edges |
| JavaInt.Wrap32 | Assignment3/src/main/java/nl/hva/ict/ads/Archer.java:59 | the wrapped value differs from the exact one by a multiple of 2^32, and equals it when it fits |
| JavaInt.WrapAdd | Assignment3/src/main/java/nl/hva/ict/ads/Archer.java:56-61 | wrapping after every addition equals wrapping the exact sum once |
| Text.Split | Assignment2/src/main/java/models/Purchase.java:28 | without the delimiter the result is the whole string; no field holds the delimiter |
| Text.SplitTwo | Assignment2/src/main/java/models/Purchase.java:28 | two fields written around the delimiter split back into those two fields |
| Text.SplitJoin | Assignment4/src/main/java/models/Station.java:42 | the fields joined again give the line up to trailing delimiters: the line is the join followed by the delimiter repeated some number of times |
| Text.Trim | Assignment4/src/main/java/models/Station.java:45 | a slice of the input that neither starts nor ends with a blank or control character |
| Text.TrimUntouched | Assignment4/src/main/java/models/Station.java:45 | a string without such ends is its own trim |
| Text.ParseInt | Assignment2/src/main/java/models/Purchase.java:36 | a value only for an optionally signed run of digits |
| Text.ParseIntToString | Assignment2/src/main/java/models/Purchase.java:36-41 | parsing a printed `int` gives it back |
| Text.ParseIntDigits | Assignment4/src/main/java/models/Station.java:45 | unsigned digits parse exactly when their value fits an `int` |

## Left out

- File I/O, console output and formatting are not modelled: `PurchaseTracker`, `SupermarketStatisticsMain`, every `toString`, `Train.getAllWagons`, and the `PerformanceTest` timing code.
- Floating-point work is not modelled: the temperature and precipitation statistics of `Station`, purchase revenue, and `Product.fromLine`. Dijkstra's `double` weights are natural numbers here; "not reached yet" is the absence of a node.
- `Product`, `Locomotive`, `PassengerWagon` and `FreightWagon` only carry data. They are a product record, an engine capacity (`maxWagons`) and a wagon `Kind`.
- `DirectedGraph.getEdges` is not modelled: it dereferences a missing inner map for a vertex without outgoing edges.
- `getVertices` and the id-based overloads `getNeighbours(String)` and `addConnection(String, …)` are not modelled separately. They compose `getVertexById` with the modelled operations.
- Vertices are compared by value, and `HashMap`/`HashSet` iteration order is left open. `GetNeighbours` returns its targets in an order the model does not fix, so every search property holds for every order.
- BreadthFirstSearch: "a vertex is enqueued at most once" is about its local queue, so the method's own contract cannot state it. ExpandVertex states it per round: each queued vertex is new and queued once, and the queue and the enqueue history grow by the same vertices. The `Frontier` invariant of the loop in BfsFrom states it for the whole search: the queue has no repeats and is the tail of a repetition-free enqueue history.
- Graphs.DirectedGraph.DijkstraShortestPath takes a `fuel` bound on its rounds and on the walk back. The source can loop forever when the current vertex has no neighbours. Running out of fuel is the `OutOfFuel` outcome, so the model does not claim termination.
- Graphs.DirectedGraph.DijkstraShortestPath does not promise a minimal path: the source returns the first time it sees the target.
- Graphs.DirectedGraph.RelaxTarget: applying the weight mapper to a null edge is the `NullPointerThrown` outcome. The model does not say what a user-supplied mapper would do with null.
- Removing unconnected vertices can drop a vertex that still receives edges. A later search that asks for its neighbours gets null, and the model gives the `NullPointerThrown` outcome for that.
- Graphs.DirectedGraph.AddEdge: a null edge payload is not modelled; edges are plain values. The source stores a null edge (DirectedGraph.java:116-121). `getEdge` then returns null for that pair (175-181), so a later `addEdge` on the same pair passes the "already joined" test at line 111 and overwrites the edge, and Dijkstra hands null to the weight mapper.
- `OrderedArrayList.remove(Object)` is not modelled: it decrements `nSorted` even when the item is absent.
- `OrderedArrayList.indexOf` and `indexOfByBinarySearch` are not modelled separately: they only map a null item to -1 around the modelled searches.
- OrderedLists.OrderedArrayList.Merge requires the merger to keep the key of the matched item. Otherwise the sorted front could break, and the source does not guard against that.
- The no-argument `OrderedArrayList()` constructor (OrderedArrayList.java:19-21) is not modelled. It leaves the comparator null: `sort` then uses the natural order of the items, and the searches throw a NullPointerException. The model orders items by a key, which is always present.
- Text.ParseInt accepts only the ASCII digits '0'..'9'. `Integer.parseInt` takes any character that `Character.digit` reads as a decimal digit, including other Unicode decimal digits such as U+0661. On a line with such digits, Purchases.ParseLine gives `CountNotANumber` and Stations.ParseHeader gives `None`, where the source parses the number. The set of Unicode decimal digits depends on the Java version.
- Integer overflow of `(min + max) / 2` in the binary searches is not modelled: list sizes stay far below 2^30.
- The heap phase of `topsHeapSort`, `heapSwim`, `heapSink` and `Wagon.reverseSequence` are not modelled beyond what the source does: they are unimplemented. `TopsHeapSort` models the loops as they stand, with their empty bodies.
- `Train.insertAtPosition` is not modelled: its capacity check is off by one and it calls `attachTail` on an occupied tail.
- The success branches of `moveOneWagon` and `splitAtPosition` are not modelled, only their refusal checks. The source returns true even when re-attachment fails, and it detaches before checking the other train.
- `Train.setFirstWagon`, `hasWagons`, `isPassengerTrain`, `isFreightTrain` and the getters are not modelled separately.
- Wagons.Yard.AttachTail, Wagons.Yard.ReAttachTo and Trains.Train.AttachToRear exclude by precondition the attachments that would close a ring. An example is attaching a train's own first wagon behind its last one. The source would build a cyclic chain there.
- Wagons.Yard.AttachTail throws in the model whenever the source throws. When only the first condition holds, the source throws a NullPointerException while building its exception message, not the IllegalStateException. Either way, nothing changes.
- Wagon ids are keys of a map, so two wagons never share an id. The source assumes the same.
- The wagon count and the engine capacity are unbounded integers. The source's `int` counters cannot overflow for trains that fit in memory.
- Trains.Train.Reverse states the new sequence of the train. It does not state that wagons outside the train keep their links.

## Findings

| source | as written | input that shows it | evidently intended | confidence | as-written member | corrected member |
|---|---|---|---|---|---|---|
| Assignment2/src/main/java/models/OrderedArrayList.java:48 | `add(index, item)` with `index < nSorted` sets `nSorted = index - 1` | `add(0, x)` on a list with `nSorted >= 1` leaves `nSorted == -1`; then `indexOfByIterativeBinarySearch` and `merge` index position -1 | `nSorted = index`: the items before the insertion point stay sorted | not executed | OrderedLists.AddAtFrontGivesMinusOne | OrderedLists.AddFixedKeepsSortedFront |
