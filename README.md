# Union-find and Kruskal's minimum spanning tree over a dense weighted graph

This project models two C++ classes that together compute a minimum spanning
tree with Kruskal's algorithm, and proves properties of the model in Dafny.

- `Data_structures::Disjoint_sets` (Disjoint_sets.h) is a union-find structure.
  It stores a `parent` array and a `tree_height` (rank) array, plus a running
  `max_height` and a `num_disjoint_sets` counter. `find` compresses paths.
  `set_union` is union by rank: on equal heights the first argument's root
  survives and grows by one. `clear` turns everything back into singletons.
- `Weighted_graph` (Weighted_graph.h) is a dense adjacency matrix with a fixed
  capacity `max_vert`. It keeps a `degrees` array and two counters,
  `edges_total` and `verticies_total`.
  - Mutators: `insert_edge`, `erase_edge`, `clear_edges`.
  - Queries: `degree`, `edge_count`, `check_edge`.
  - `minimum_spanning_tree` scans the upper triangle into a local array,
    insertion-sorts it by weight, and feeds it through a fresh `Disjoint_sets`.
    It stops once a single set remains.

## Files

- `sets.dfy` (module `Sets`): the set `{0, …, n-1}` and two cardinality lemmas.
- `exceptions.dfy` (module `Exceptions`): `Result<T>`. Its `IllegalArgument`
  case stands for the C++ `illegal_argument` exception.
- `disjoint_sets.dfy` (module `DataStructures`) has two parts.
  - A value model of the union-find: `Snapshot`, `Forest`, `Root`, `Compress`
    (what `find` does), `Link`/`Union` (what `set_union` does), `Cleared`, and
    the invariant `Invariant`. It includes lemmas about each of these.
  - Class `DisjointSets`: the C++ fields as two arrays and three integers. Each
    method is proved against the value model through the ghost function
    `State()`.
- `kruskal.dfy` (module `Kruskal`): the specification of `minimum_spanning_tree`.
  - `UpperEdges` is the row-major scan.
  - `SortByWeight` is the insertion sort as a function.
  - `Step`/`Consume` describe the Kruskal loop; `SpanningTree` is its result.
  - Lemmas cover membership, order, permutation, sortedness, counting and
    merging.
- `weighted_graph.dfy` (module `WeightedGraphs`): class `WeightedGraph`. It uses
  an `array2<Weight>` matrix, with `Absent` in place of the `INF` sentinel.
  - The mutators are stated as functions of the old grid: `Inserted`,
    `Erased`, `EmptyGrid`.
  - `minimum_spanning_tree` is three imperative pieces:
    - the nested scan loop (`CollectEdges`/`ScanRow`);
    - the in-place insertion sort (`InsertionSort`/`InsertKey`);
    - the Kruskal loop over a `DisjointSets` object (`Consumption`/`Turn`/`Examine`).

  Each piece is proved equal to the corresponding specification function.

In these places the code behaves in ways a reader might not expect, and the
model follows the code:
- `erase_edge` clears only `matrix[i][j]`, so the matrix can become
  asymmetric (`EraseLeavesMirror`). Erasing the lower-triangle copy leaves the
  edge in the MST input (`EraseBelowKeepsEdges`).
- `erase_edge` changes neither `degrees` nor `edges_total`. It only decrements
  `verticies_total`, which can therefore become negative.
- `degree(x)` range-checks `x` against `verticies_total`, not against
  `max_vert`.
- `clear_edges` leaves `edges_total` and `verticies_total` unchanged.
- The sort loop and the Kruskal loop run to `verticies_total`, not to the
  number of edges collected. `MinimumSpanningTree` runs both loops over the
  first `max(0, verticies_total)` collected edges, as the code does. It
  requires `verticies_total` to be at most the number collected, because the
  code reads uninitialised entries otherwise. When the two are equal, that
  prefix is the whole collected list.

## Model

| member | source | states |
|---|---|---|
| DataStructures.InitialInvariant | Disjoint_sets.h:53-64 | the state the constructor builds (every element its own parent, all heights 0, max height 0, count = size) is a forest with count equal to the number of roots |
| DataStructures.Root | Disjoint_sets.h:123-132 | the element find reaches is a root, its height is at least that of x, and it is x exactly when parent[x] == x |
| DataStructures.Compress | Disjoint_sets.h:123-132 | find's path compression keeps heights, max height and count; it points x at its root, points every other element either at its old parent or at its root, and leaves every element's root unchanged |
| DataStructures.CompressKeepsInvariant | Disjoint_sets.h:123-132 | path compression keeps the forest invariant and the set of roots |
| DataStructures.FindOrderIrrelevant | Disjoint_sets.h:123-132 | finding a and then b gives each the root it had before, and the other order leaves every element with the same root |
| DataStructures.CompressIdempotent | Disjoint_sets.h:123-132 | a second find of the same element changes nothing and returns the same root |
| DataStructures.LinkKeepsInvariant | Disjoint_sets.h:202-219 | grafting one root onto another keeps the invariant and removes exactly the lower root (the second on a tie) from the root set, with the count one lower |
| DataStructures.LinkMovesRoot | Disjoint_sets.h:204-219 | after grafting, every element of either tree reaches the surviving root and every other element keeps its root |
| DataStructures.UnionSameSet | Disjoint_sets.h:195-200 | set_union of two elements of one set keeps the invariant, the count, the heights, max height, the root set and every element's root |
| DataStructures.UnionKeepsInvariant | Disjoint_sets.h:202-219 | set_union of two different sets keeps the invariant and lowers the count by exactly one |
| DataStructures.UnionDifferentSets | Disjoint_sets.h:202-219 | set_union of two different sets lowers the count by one, sends both trees to one surviving root, leaves all other roots alone, and afterwards find(m) == find(n) |
| DataStructures.UnionByRank | Disjoint_sets.h:205-219 | the taller root survives with heights unchanged; on equal heights the first argument's root survives, its height grows by exactly one and max_height becomes the maximum of the old value and the new height |
| DataStructures.ClearGivesInitial | Disjoint_sets.h:228-241 | clear, including its early return when the count already equals the size, yields the freshly constructed state |
| DataStructures.SingletonIsAlone | Disjoint_sets.h:142-146 | parent[x] == x with height 0 holds exactly when no other element shares x's set |
| DataStructures.Companion | Disjoint_sets.h:142-146 | an element that is not a singleton has another element in its set |
| DataStructures.LoneRoot | Disjoint_sets.h:142-146 | a root of height 0 is the root of no other element |
| DataStructures.CountIsNumberOfSets | Disjoint_sets.h:164-166 | num_disjoint_sets equals the number of distinct representatives and lies between 1 and the size |
| DataStructures.DisjointSets.constructor | Disjoint_sets.h:53-64 | the size is max(1, n) and the state is all singletons with heights 0, max height 0 and count = size |
| DataStructures.DisjointSets.Copy | Disjoint_sets.h:71-82 | the copy has fresh arrays and the same size and state as the original |
| DataStructures.DisjointSets.Assign | Disjoint_sets.h:84-104 | assignment from another object gives fresh arrays holding its state; self-assignment changes nothing |
| DataStructures.DisjointSets.CopyArrays | Disjoint_sets.h:98-101 | the element-wise copy loop produces two fresh, distinct arrays equal to the source arrays |
| DataStructures.DisjointSets.Find | Disjoint_sets.h:123-132 | find returns the root of x and leaves the state compressed along x's path |
| DataStructures.DisjointSets.IsSingleton | Disjoint_sets.h:142-146 | is_singleton(x) holds exactly when x is the only element of its set |
| DataStructures.DisjointSets.Height | Disjoint_sets.h:154-156 | height() bounds every tree height and is 0 or the height of some element |
| DataStructures.DisjointSets.DisjointSetCount | Disjoint_sets.h:164-166 | disjoint_sets() is the number of distinct representatives, between 1 and the size |
| DataStructures.DisjointSets.SetUnion | Disjoint_sets.h:190-220 | set_union leaves the state Union(old state, m, n) and keeps the invariant |
| DataStructures.DisjointSets.LinkRoots | Disjoint_sets.h:202-219 | the grafting step leaves the state Link(old state, a, b) |
| DataStructures.DisjointSets.Clear | Disjoint_sets.h:228-241 | clear leaves the initial all-singleton state of the same size |
| Kruskal.RowEdgesMembers | Weighted_graph.h:202-213 | the scan of row i up to column j collects exactly the present non-zero entries (i, k) with i < k < j |
| Kruskal.RowsEdgesMembers | Weighted_graph.h:201-214 | for every edge e, the scan of rows 0 .. i-1 collects e exactly when it is one of the present non-zero upper-triangle entries in those rows |
| Kruskal.UpperEdgesMembers | Weighted_graph.h:200-215 | the collected list holds exactly the present, non-zero entries above the diagonal |
| Kruskal.UpperEdgesOrdered | Weighted_graph.h:200-215 | the collected list is in row-major order, without repeats |
| Kruskal.RoomForRow | Weighted_graph.h:200-213 | the max_vert * max_vert array always has room for the next row of the scan |
| Kruskal.InsertIsPermutation | Weighted_graph.h:220-227 | one insertion adds exactly the key to the multiset of entries |
| Kruskal.InsertKeepsSorted | Weighted_graph.h:220-227 | inserting into a weight-ordered list keeps it weight-ordered |
| Kruskal.InsertAt | Weighted_graph.h:222-227 | the key lands just after the last entry that is not heavier, so equal weights keep their order |
| Kruskal.ShiftedInsert | Weighted_graph.h:222-227 | shifting the heavier suffix one place right and writing the key into the gap gives the insertion of the key |
| Kruskal.SortAppend | Weighted_graph.h:217-228 | sorting c + 1 entries is inserting entry c into the sorted first c |
| Kruskal.SortedPrefixGrows | Weighted_graph.h:218-228 | each turn of the outer sort loop extends the sorted prefix by one entry of the input |
| Kruskal.SortIsSortedPermutation | Weighted_graph.h:217-228 | the sorted list is a permutation of the input, ascending by weight |
| Kruskal.SortSortedIsIdentity | Weighted_graph.h:217-228 | the sort leaves a weight-ordered list unchanged |
| Kruskal.StepKeepsInvariant | Weighted_graph.h:233-237 | examining an edge keeps the union-find invariant and lowers the set count by one exactly when the endpoints were in different sets |
| Kruskal.StepJoins | Weighted_graph.h:233-237 | after an edge is examined its endpoints share a root, which is one of their two old roots |
| Kruskal.StepMovesRoot | Weighted_graph.h:233-237 | examining an edge moves exactly the elements of the endpoints' two sets to the new common root |
| Kruskal.StepMerges | Weighted_graph.h:233-237 | examining an edge merges the endpoints' two sets and leaves every other set alone |
| Kruskal.StepOnlyMerges | Weighted_graph.h:233-237 | every element ends in the set its old root ends in, so no set is ever split |
| Kruskal.Advance | Weighted_graph.h:231-245 | one turn of the loop: the total grows by the edge's weight exactly when the edge joins two sets; the run stops when one set remains and otherwise goes on from the new state |
| Kruskal.AddTaken | Weighted_graph.h:233-237 | the edge's weight is added to the total exactly when its endpoints lie in different sets |
| Kruskal.WeightOfAppend | Weighted_graph.h:237 | the total weight of two edge lists put together is the sum of their totals |
| Kruskal.ConsumeKeepsInvariant | Weighted_graph.h:229-246 | the loop keeps the invariant, and the number of sets falls by exactly the number of edges taken |
| Kruskal.ConsumeStops | Weighted_graph.h:238-245 | the loop visits every edge or stops with one set, and visits at least one edge when there is one |
| Kruskal.NothingAfterOneSet | Weighted_graph.h:240-242 | once a visit leaves one set the loop breaks: when the run over a prefix ends with one set, the run over the whole list is that same run and no later edge is examined |
| Kruskal.TreeFromExamined | Weighted_graph.h:229-246 | every taken edge is among the edges visited |
| Kruskal.ConsumeMerges | Weighted_graph.h:229-246 | the loop only merges sets: elements that began in one set end in one set |
| Kruskal.ExaminedEdgesJoined | Weighted_graph.h:229-246 | the endpoints of every visited edge end in one set |
| Kruskal.TreeSize | Weighted_graph.h:229-246 | starting from n singletons, the tree has n minus the final set count edges, so at most n - 1 |
| Kruskal.NoEdges | Weighted_graph.h:229-246 | with no edges the result is (0, 0) |
| Kruskal.LoneEdgeScenario | Weighted_graph.h:229-246 | one edge on four vertices is taken, visited once, and leaves three sets |
| Kruskal.ConsumeFinalJoin | Weighted_graph.h:238-245 | an edge that joins the last two sets ends the loop after that single visit |
| Kruskal.EarlyStopScenario | Weighted_graph.h:238-245 | on two vertices the loop stops after the first edge and never looks at the second (an edge list the loop accepts, though the scan would not produce it) |
| Kruskal.TriangleScenario | Weighted_graph.h:229-246 | on the sorted triangle (0,1,1), (1,2,2), (0,2,3), the loop takes the first two edges, returns total 3 and 2 visits, and never examines the third |
| Kruskal.TriangleScan | Weighted_graph.h:201-215 | on the triangle's adjacency matrix (weights 1 on 0-1, 2 on 1-2, 3 on 0-2) the scan lists (0,1,1), (0,2,3), (1,2,2) in row-major order |
| Kruskal.TriangleFromScan | Weighted_graph.h:201-246 | on that matrix the sort turns the scan's list into (0,1,1), (1,2,2), (0,2,3), and the whole computation returns total 3 and 2 visits |
| Kruskal.SortTwo | Weighted_graph.h:217-228 | two edges already in weight order stay in order |
| Kruskal.SortThree | Weighted_graph.h:217-228 | a heavier middle edge moves behind a lighter last edge |
| Kruskal.SortMovesHeavySecond | Weighted_graph.h:217-228 | a heavy second edge moves past two lighter edges |
| WeightedGraphs.EmptyGridHasNoEdges | Weighted_graph.h:104-109 | a freshly built or cleared matrix contributes no edge to the spanning tree |
| WeightedGraphs.InsertedIsCollected | Weighted_graph.h:147-148 | after insert_edge(i, j, d) the scan collects the edge between i and j with weight d, in whichever orientation lies above the diagonal |
| WeightedGraphs.InsertedKeepsOthers | Weighted_graph.h:147-148 | insert_edge changes no collected edge between any other pair |
| WeightedGraphs.EraseLeavesMirror | Weighted_graph.h:162-166 | after insert_edge(i, j, d) then erase_edge(i, j), entry (i, j) is absent but entry (j, i) still holds d |
| WeightedGraphs.EraseBelowKeepsEdges | Weighted_graph.h:162-166 | erasing an entry below the diagonal leaves the collected edge list unchanged |
| WeightedGraphs.SortedEdgesWithin | Weighted_graph.h:229-233 | every endpoint of a collected edge is a valid element of the Disjoint_sets(max_vert) |
| WeightedGraphs.WeightedGraph.constructor | Weighted_graph.h:88-114 | a new graph has capacity n, no edges off the diagonal, 0 on the diagonal, all degrees 0 and both counters 0 |
| WeightedGraphs.WeightedGraph.NewMatrix | Weighted_graph.h:99-109 | the fill loops leave INF off the diagonal and 0 on it |
| WeightedGraphs.WeightedGraph.Create | Weighted_graph.h:88-114 | construction fails exactly when n is negative; otherwise it gives a new graph of capacity n (the default 10 of the declaration at line 69 when none is given) with fresh arrays, an empty matrix (zero diagonal), all degrees 0 and both counters 0 |
| WeightedGraphs.WeightedGraph.Degree | Weighted_graph.h:123-127 | degree(x) fails exactly when x < 0 or x > verticies_total, and otherwise returns degrees[x] |
| WeightedGraphs.WeightedGraph.EdgeCount | Weighted_graph.h:129-131 | edge_count() returns edges_total, which is never negative |
| WeightedGraphs.WeightedGraph.CheckEdge | Weighted_graph.h:171-177 | check_edge fails exactly on an index outside [0, max_vert), and otherwise reports whether entry (i, j) is present |
| WeightedGraphs.WeightedGraph.InsertEdge | Weighted_graph.h:133-157 | error exactly on a bad index or a negative weight; false with no change exactly for a self-loop or zero weight; otherwise true, both mirror entries set to d, and degrees and both counters grow by one only when entry (i, j) was absent |
| WeightedGraphs.WeightedGraph.Connect | Weighted_graph.h:138-154 | the accepted branch of insert_edge: both entries set to d, with the counters updated by the net change |
| WeightedGraphs.WeightedGraph.Place | Weighted_graph.h:147-148 | the two writes set entries (i, j) and (j, i) to d, and every entry stays absent, zero on the diagonal or positive off it |
| WeightedGraphs.WeightedGraph.Count | Weighted_graph.h:140-152 | the bookkeeping adds delta to edges_total, verticies_total, degrees[i] and degrees[j], and to nothing else |
| WeightedGraphs.WeightedGraph.EraseEdge | Weighted_graph.h:159-169 | error exactly on a bad index; the result tells whether entry (i, j) was present; if it was, only that entry is cleared and only verticies_total falls by one |
| WeightedGraphs.WeightedGraph.ClearEdges | Weighted_graph.h:179-193 | every degree becomes 0 and the matrix becomes the empty one, while edges_total and verticies_total keep their values |
| WeightedGraphs.WeightedGraph.CollectEdges | Weighted_graph.h:200-215 | the nested scan writes exactly the collected upper-triangle edge list into the first a entries of the array |
| WeightedGraphs.WeightedGraph.ScanRow | Weighted_graph.h:202-213 | the inner scan loop appends exactly row i's edges, so after rows 0 .. i-1 the array holds the edges of rows 0 .. i |
| WeightedGraphs.WeightedGraph.InsertKey | Weighted_graph.h:221-227 | the inner sort loop turns the first c + 1 entries into the insertion of entry c into the first c, and leaves the rest of the array alone |
| WeightedGraphs.WeightedGraph.InsertionSort | Weighted_graph.h:217-228 | the in-place sort leaves the first k entries as SortByWeight of their old contents, a weight-ordered permutation, and leaves the rest alone |
| WeightedGraphs.WeightedGraph.Examine | Weighted_graph.h:233-237 | two finds, then set_union when the roots differ: it reports whether the roots differed and leaves the state Step(old state, e) |
| WeightedGraphs.WeightedGraph.Turn | Weighted_graph.h:231-245 | one turn of the Kruskal loop keeps the running total equal to the weight of the edges taken, and either stops the run with one set or keeps it on track |
| WeightedGraphs.WeightedGraph.Consumption | Weighted_graph.h:229-246 | the Kruskal loop over a fresh Disjoint_sets returns exactly (total weight of the taken edges, number of edges visited) of the specified run |
| WeightedGraphs.WeightedGraph.MinimumSpanningTree | Weighted_graph.h:195-247 | minimum_spanning_tree returns the specified Kruskal run over the first max(0, verticies_total) collected edges, sorted by weight, on max(1, max_vert) elements |

## Left out

- `operator<<` for `Disjoint_sets` and for `Weighted_graph`: diagnostic output only; the graph's version is an empty stub.
- speed.cpp: a benchmarking driver with random input, timing and console output.
- Destructors and `new`/`delete`: Dafny arrays are garbage-collected. The `Weighted_graph` copy operations are declared but never implemented in the source.
- Exception.h is not part of this model. `illegal_argument` becomes the `IllegalArgument` result.
- The `assert`s in `Disjoint_sets` become preconditions.
- Weights are `real`, and the `INF` sentinel is the `Absent` case of `Weight`. Rounding of the `double` running total is not modelled.
- WeightedGraphs.WeightedGraph.InsertEdge: takes a finite `real` weight, so the `double` inputs INF and NaN are not modelled. Inserting `INF` passes both guards, stores the sentinel (so the edge stays absent) and still increments `edges_total`, both degrees and `verticies_total`. A NaN weight fails both comparisons, so it is not rejected as illegal and the call returns false with nothing changed.
- Integer widths: counters, degrees and indices are unbounded integers, so 32-bit wrap-around is not modelled. The source's counters can drift without bound: inserting, erasing and re-inserting the same edge raises `edges_total` and both degrees each time while only one edge is present, and erasing both copies of an edge after each insert lowers `verticies_total` each time. With enough such calls these `int` fields would overflow in the source, which the model does not show. The array size `max_vert*max_vert` in the MST also overflows `int` once `max_vert` exceeds 46340; the model allocates `maxVert * maxVert` entries exactly.
- The order of the two `find` calls in the loop condition: C++ leaves the operands of `!=` unsequenced. `Examine` compresses `v1` first. Either order gives the same roots (`FindOrderIrrelevant`); since whether an edge is taken depends only on those roots, the same edges are taken and the result pair is the same, but the compressed `parent` arrays can differ.
- `Find`'s `const` qualifier: the source writes through the `parent` pointer anyway, so `Find` is a method that modifies `parent`.
- WeightedGraphs.WeightedGraph.MinimumSpanningTree: requires `verticies_total` to be at most the number of collected edges. Beyond that, the source reads uninitialised array entries, which is undefined behaviour. This is reachable: insert edge (0, 1) and then clear the edges. `verticies_total` stays 1 but no edge is collected, so the Kruskal loop reads `array[0]` uninitialised (the sort loop starts at 1 and does not run).
- WeightedGraphs.WeightedGraph.Degree: requires `x < max_vert` whenever `x` passes the source's range check against `verticies_total`. Beyond that, the source reads past the end of `degrees`, which is undefined behaviour.
- Kruskal.SpanningTree: the model states what the loop computes and proves that it only merges sets, joins the endpoints of every visited edge, and takes at most n - 1 edges. It does not prove that the tree has minimum weight, or that the result is independent of how ties are broken.
- A four-vertex path scenario of the Kruskal loop is not included. Each further concrete `Consume` unfolding is expensive to verify; the one-edge, two-vertex and triangle scenarios above cover the stopping rule.
