# SAW graph engine, modelled in Dafny

SAW computes a safe initial region for a control system whose controller can miss
deadlines. The state box is cut into `d^xcnt` grid cells. A one-step graph records
where each cell can go in one control period, once for a met deadline and once for a
missed one. A k-step graph then allows at most `m` misses in `k` periods. The safe
initial region is the largest set of cells that never leaves itself along k-step
edges.

This project models the discrete engine of `graph/graph.cpp`. That covers:

- building the grids and encoding a cell's id in mixed radix;
- enumerating the cells a region overlaps;
- assembling the one-step table from a reachability oracle;
- the bounded-miss dynamic programme `buildKStepGraph` over two swapped buffers;
- the worklist search `findLargestClosedSubgraph`.

The source's global state becomes the parameters and results of each phase.

Files:

- `lists.dfy`: facts about id lists (ascending, bounded, distinct).
- `grid_index.dfy`: cells as digit sequences, `buildGrids`, `getIntersectGridsId`.
- `one_step_graph.dfy`: the one-step table, and `buildOneStepGraph` with the reachability computation as an oracle.
- `k_step_graph.dfy`: the DP.
  - Its value-level specification: `Step`, `Rounds`, `KStep`.
  - What the table means: `SafeFor` and `Reaches`, which describe runs of the one-step graph.
  - The array-based methods, which mirror the source loop by loop.
- `closed_subgraph.dfy`: the breadth-first search over reverse edges, with closure and maximality.
- `analysis.dfy`: the phase order of `main`, and what the whole computation guarantees.

Modelling choices:

- A bitset of `n` bits is a `set<nat>` of cell ids:
  - `reset` is `{}`;
  - `set(i)` adds `i`;
  - `|=` is union;
  - `any()` is `!= {}`;
  - `count()` is the cardinality;
  - `test(i)` is membership.
- A cell is the sequence of its block numbers, one per dimension, most significant first. The `double` interval bounds of each block are not modelled.
- The float overlap test `width() < eps` becomes a function parameter `ov(dim, block)`. It answers whether the region meets that block of that dimension.
- The DP buffers are two `array2<set<nat>>`, swapped by reference each round as the source swaps pointers.
  - `visit` and `safe` are `array<bool>`.
  - The queue is a sequence.
  - `revKStepGraph` is a sequence of lists grown by appending.

The DP does not clear the entry with `miss == m` before a round. Line 212 clears only
`miss < m`, so that entry keeps what the recycled buffer held: nothing in the first
round, then `{id}` from the initialisation, then results of older rounds. The model
keeps this behaviour (`Step` receives the recycled buffer).

Three lemmas pin down its effect:

- `KStepGraph.RoundsAgreeWithClean` proves it never changes which entries are empty. So `Xs` is the intended set.
- The same lemma proves it can only add cells to an entry. That means extra k-step edges.
- `KStepGraph.StaleEdge` gives a two-cell input with `m = 0` where cell 0 gains a spurious edge to itself. `KStepGraph.StaleEdgeWithMiss` gives one with `m = 1`, `k = 3`, where the `{0}` left by the initialisation at `miss == 1` surfaces at miss 0.

Extra edges can only shrink the computed region (`Analysis.ClosedUnderClean`). The
region the program returns is therefore always invariant (`Analysis.Analyse`). It is
maximal with respect to the edges the program computes, not necessarily with respect to
the intended ones.

## Model

| member | source | states |
|---|---|---|
| GridIndex.EncodeBelow | graph/graph.cpp:120 | the mixed-radix id `curId * d + i` of any cell with xcnt digits below d is below d^xcnt |
| GridIndex.DecodeEncode | graph/graph.cpp:90-106 | decoding the id of a cell gives back the cell's block numbers |
| GridIndex.EncodeDecode | graph/graph.cpp:108-122 | every id below d^xcnt is the id of the cell its base-d digits name |
| GridIndex.EncodeCons | graph/graph.cpp:120 | the leading digit of a cell weighs d to the number of remaining digits |
| GridIndex.SubtreeShape | graph/graph.cpp:94-105 | the depth-first enumeration below a prefix has d^rest cells, and cell j extends the prefix with the digits of j |
| GridIndex.FanShape | graph/graph.cpp:99-105 | the first i branches of the enumeration hold i * d^(rest-1) cells, cell j being the one whose suffix digits encode j |
| GridIndex.BuildGridsFrom | graph/graph.cpp:90-106 | the recursion leaves curInt as it found it and appends the enumeration of the remaining dimensions |
| GridIndex.BuildGrids | graph/graph.cpp:90-106 | buildGrids yields d^xcnt cells, and cell id has the block numbers of id in base d, most significant first |
| GridIndex.GetIntersectGridsId | graph/graph.cpp:108-122 | getIntersectGridsId appends the pruned enumeration of the overlapped cells to gridsId |
| GridIndex.IntersectingIsKept | graph/graph.cpp:108-122 | pruning a branch when its block is not overlapped keeps exactly the ids of the cells whose remaining blocks are all overlapped, in enumeration order |
| GridIndex.BranchIsKept | graph/graph.cpp:114-121 | one iteration of the block loop appends exactly the kept ids of the cells below that block: all of them when the block overlaps, none otherwise |
| GridIndex.BranchPruned | graph/graph.cpp:117-119 | a block the region does not overlap contributes no cell: the `continue` prunes nothing that would have been kept |
| GridIndex.HitsSpec | graph/graph.cpp:108-122 | listing the ids below h that pass a test, in order, gives a strictly ascending list below h holding exactly those ids |
| GridIndex.KeptIsHits | graph/graph.cpp:108-122 | filtering a cell list whose j-th cell contributes exactly "j, if it passes the test" gives the ascending list of the passing positions |
| GridIndex.KeptCell | graph/graph.cpp:94-122 | cell number id of the enumeration is kept iff all of its base-d digits are overlapped, and then contributes id |
| GridIndex.EnumerationHits | graph/graph.cpp:94-122 | filtering the whole enumeration of buildGrids keeps, in ascending order, the ids whose digits are all overlapped |
| GridIndex.IntersectingIds | graph/graph.cpp:108-122 | from (0, 0) the appended ids are strictly ascending, below d^xcnt, and are exactly the ids whose every block is overlapped |
| OneStepGraph.BuildOneStepGraph | graph/graph.cpp:124-181 | every slot is the ascending list of overlapped cells if the reachable set is inside the box and empty otherwise; all ids are cell ids; edgeCnt is the number of entries |
| OneStepGraph.BuildSlots | graph/graph.cpp:131-179 | the meet loop of one cell fills each mode's slot with the overlapped ids when the reachable set is inside the box and leaves it empty otherwise, and counts the ids it stored |
| OneStepGraph.EdgeCountPrefix | graph/graph.cpp:175-176 | the running edge count depends only on the rows already built |
| KStepGraph.UnionAtMembers | graph/graph.cpp:222-227 | the or-loop over a successor list yields exactly the union of their previous entries |
| KStepGraph.SomeEmptyIff | graph/graph.cpp:224-226 | the `!any()` test marks the entry unsafe exactly when some listed successor's previous entry is empty |
| KStepGraph.UnsafeIsPoisoned | graph/graph.cpp:217-241 | an entry lands in unsafeSet iff its met list is empty or has a successor with an empty entry, or (miss < m) the same for the missed list at miss + 1 |
| KStepGraph.StepEntry | graph/graph.cpp:210-246 | after a round a poisoned entry is empty; any other entry is non-empty and holds exactly the union over missed successors at miss + 1 (miss < m) and met successors at miss, plus the recycled entry when miss == m |
| KStepGraph.EmptyModeEmpties | graph/graph.cpp:219-234 | an empty met list empties the whole row; an empty missed list empties every entry with miss < m |
| KStepGraph.EntryBounded | graph/graph.cpp:222-240 | a new entry holds only cell ids when the previous table and the recycled entry do |
| KStepGraph.RoundsBounded | graph/graph.cpp:186-247 | both buffers hold only ids below n after any number of rounds |
| KStepGraph.StepCovers | graph/graph.cpp:212-246 | a round preserves "same empty entries, and contains" between the buffer as written and the clean recurrence |
| KStepGraph.RoundsAgreeWithClean | graph/graph.cpp:212-214 | leaving the entry miss == m uncleared never changes which entries are empty and only adds cells |
| KStepGraph.StaleEdge | graph/graph.cpp:212-214 | for two cells both stepping to cell 1, m = 0 and k = 2, the final entry of cell 0 is {0, 1} while the clean recurrence gives {1} |
| KStepGraph.MissLoopStep | graph/graph.cpp:210-246 | one round over the two-cell graph whose cell 0 may miss into itself: each entry is empty when a successor entry it reads is empty, else the union of those entries (and of the recycled one at miss == m) |
| KStepGraph.StaleEdgeWithMiss | graph/graph.cpp:212-214 | with m = 1 and k = 3 on that graph, the final entry of cell 0 at miss 0 is {0, 1} while the clean recurrence gives {1}: the stale entry also adds edges when misses are allowed |
| KStepGraph.PoisonedIsUnsafe | graph/graph.cpp:217-245 | poisoning of an entry is the one-period unfolding of "every bounded-miss run is safe" |
| KStepGraph.StepMeaning | graph/graph.cpp:210-246 | one clean round turns safety and reachability for r - 1 periods into safety and reachability for r periods |
| KStepGraph.CleanMeaning | graph/graph.cpp:208-247 | the clean entry (id, miss) after r rounds is non-empty iff every run of r periods from id with at most m - miss further misses is safe, and then holds exactly the cells those runs end in |
| KStepGraph.KStepMeaning | graph/graph.cpp:250-256 | the final entry of id at miss 0 is non-empty iff every run of k periods with at most m misses is safe, and it holds every cell those runs end in |
| KStepGraph.OrInto | graph/graph.cpp:219-227 | or-ing one successor list into one entry adds their union and records the entry as unsafe when the list is empty or a successor's entry is empty; nothing else changes |
| KStepGraph.ClearRow | graph/graph.cpp:212-214 | the entries miss < m of the row are cleared, the entry miss == m and other rows are kept |
| KStepGraph.OrMissed | graph/graph.cpp:218-228 | each entry miss < m becomes the union of the missed successors' entries at miss + 1, and unsafeSet the poisoned ones |
| KStepGraph.OrMet | graph/graph.cpp:231-241 | each entry gains the union of the met successors' entries at miss, and unsafeSet gains the entries they poison |
| KStepGraph.ResetUnsafe | graph/graph.cpp:243-245 | exactly the entries listed in unsafeSet are reset |
| KStepGraph.ProcessRow | graph/graph.cpp:211-245 | row id becomes the round's new row computed from prev and its old content; no other row changes and prev is not written |
| KStepGraph.Transition | graph/graph.cpp:210-246 | a round turns the recycled buffer S into Step(S, prev) |
| KStepGraph.Initialise | graph/graph.cpp:200-205 | every entry (id, miss) with miss <= m becomes {id} |
| KStepGraph.Transitions | graph/graph.cpp:208-247 | after k rounds (none when k <= 0) the buffer `now` points to holds the k-step table |
| KStepGraph.StartsMembers | graph/graph.cpp:254-257 | the start set holds exactly the cells whose final entry at miss 0 is non-empty |
| KStepGraph.ReachedMembers | graph/graph.cpp:259 | `reach` holds exactly the cells in some final entry at miss 0 |
| KStepGraph.TotalUpdate | graph/graph.cpp:262 | replacing reverse list j by any list v changes the total length of the first h lists by the length difference when j < h and leaves it unchanged otherwise, so a push adds one |
| KStepGraph.BelowNext | graph/graph.cpp:260-261 | scanning one more candidate id adds one cell exactly when the entry contains it |
| KStepGraph.AddReverse | graph/graph.cpp:260-264 | id is appended, in ascending order, to rev[j] for exactly the j its entry contains; lists stay ascending; their total length grows by the entry's size |
| KStepGraph.ReadRow | graph/graph.cpp:250-266 | reading off one more cell extends Xs, the reverse lists, the start and reach counts and the edge count by exactly that cell's entry |
| KStepGraph.Finalise | graph/graph.cpp:250-267 | Xs holds the cells whose entry at miss 0 is non-empty; rev[j] is the ascending list of the cells whose entry contains j; start, end and edge are the sizes of Xs, of the reached set and the number of edges, which is also the total length of rev |
| KStepGraph.BuildKStepGraph | graph/graph.cpp:183-271 | the results of buildKStepGraph stated on the k-step table; Xs is exactly the set of cells from which every k-period run with at most m misses is safe |
| ClosedSubgraph.Expand | graph/graph.cpp:290-294 | every predecessor of the popped cell ends up visited; exactly the ones not visited before are enqueued, each once |
| ClosedSubgraph.Seed | graph/graph.cpp:280-285 | the cells outside Xs are visited and enqueued in ascending order, each once |
| ClosedSubgraph.AvoidedExpand | graph/graph.cpp:290-294 | marking the predecessors of a visited cell never marks a cell of a closed set, since a closed set holding a predecessor would hold the visited cell too |
| ClosedSubgraph.SearchStep | graph/graph.cpp:287-294 | popping the head, clearing its safe bit and enqueueing its unvisited predecessors keeps the search invariant, with every cell enqueued at most once |
| ClosedSubgraph.VisitHead | graph/graph.cpp:287-294 | one iteration clears the safe bit of the head and nothing else, marks exactly its predecessors visited, and appends to the queue and to the enqueued record the same cells: exactly its previously unvisited predecessors; it keeps the search invariant and makes progress (fewer unvisited cells, or as many and a shorter queue) |
| ClosedSubgraph.Search | graph/graph.cpp:286-295 | at the end safe is the complement of visit, all predecessors of visited cells are visited, no closed set has a visited cell, and every cell was enqueued at most once |
| ClosedSubgraph.Collect | graph/graph.cpp:296-300 | safeInitialGrids is the ascending list of the ids whose safe bit is set |
| ClosedSubgraph.FindLargestClosedSubgraph | graph/graph.cpp:273-302 | safeInitialGrids is ascending, lies in Xs, is closed under k-step edges and contains every closed subset of Xs; the enqueued cells are exactly the others, each once |
| Analysis.ClosedIffClosedUnder | graph/graph.cpp:254-264 | closure over the reverse lists is closure over the k-step entries |
| Analysis.ClosedUnderClean | graph/graph.cpp:212-214 | a set closed under the edges as written is closed under the intended edges |
| Analysis.ClosedIsInvariant | graph/graph.cpp:273-302 | a set closed under the intended edges is safe for k periods, and every run from it ends in it |
| Analysis.Analyse | graph/graph.cpp:304-311 | from every cell of the result every k-period run with at most m misses is safe and ends in the result, and the result contains every set closed under the computed k-step edges |

## Left out

- parseModel (file input) and buildFlowstar (configuring the Flow* library) are not modelled. They only produce the parameters xcnt, d, m, k and the dynamics.
- The body of buildOneStepGraph that builds Taylor models and computes flowpipes is replaced by an oracle. `inside(cell, meet)` is the box-containment outcome and `overlapsOf(cell, meet)` is the overlap test for the reachable set. Both are floating-point interval computations in a foreign library.
- The `eps` comparisons and the `double` block bounds are not modelled. Only their boolean outcomes enter, through the oracle parameters.
- Progress and result output (`printf`, `fflush`) are left out. So is the commented-out OpenMP parallelism.
- Integers are unbounded. The source's `int` counters (`edgeCnt`, `start`, `end`, `edge`, `curId * d + i`) could overflow for very large grids; the model does not capture that.
- `m` is a natural number. For `m == -1` the source resizes every row to length 0 (graph.cpp:194), its miss loops run zero times, and line 255 then reads entry 0 of an empty vector, which is undefined behaviour; for `m <= -2` the negative size passed to `resize` converts to a huge unsigned size. The model does not cover these inputs.
- `xcnt` and `d` are natural numbers. The source reads them as `int`: with `xcnt < 0` and `d > 0` buildGrids recurses without end, because `curDim` never equals `xcnt` (graph.cpp:94); a negative `d` behaves like `d == 0`, since the block loops at lines 99 and 114 do not run. The model does not cover negative values.
- The order in which `unsafeSet`, a `std::set`, is traversed when resetting entries is not kept. Resetting is order-independent.
- KStepGraph.KStepMeaning: states only that the final entry contains the ends of the runs. Equality holds only for the clean recurrence (CleanMeaning), because the uncleared entry at miss == m can add cells.
- ClosedSubgraph.FindLargestClosedSubgraph: does not state that the loop visits cells in FIFO order. Only the resulting sets are specified.
