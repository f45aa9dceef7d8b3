# Vertex elimination orders: radix sort, FILL, LEX M and LEX P in Dafny

This project models the header-only C++ library that computes elimination
orders of undirected graphs, after Rose, Tarjan and Lueker. It covers four
components:

- **Radix sort** (`src/radix_sort.h`): a base-16 least-significant-digit
  radix sort. It orders an array of vertices in place by an unsigned key map,
  using 16 buckets.
- **FILL** (`src/fill.h`): the fill-in of an ordered graph, computed as Rose,
  Tarjan and Lueker's FILL does. Each eliminated vertex passes its later
  neighbours on to its earliest later neighbour. There are three variants:
  - `fill` adds the fill-in edges to the graph;
  - `fill_in` returns them as canonical pairs;
  - `is_perfect_elimination_order` stops at the first missing edge.
- **LEX M** (`src/lex_m.h`): label-based ordering. Each round:
  - it numbers the chosen vertex and bumps the labels of its unnumbered
    neighbours;
  - then it radix-sorts the unnumbered vertices and compacts their labels to
    even ranks.
- **LEX P** (`src/lex_p.h`): lexicographic breadth-first search by partition
  refinement, over a doubly linked list of label classes.

Graphs are maps from vertices (`nat`, as boost `vecS` descriptors are
indices) to neighbour sets, and an order is a sequence of vertices.

Each component takes the form of its source:

- The imperative code becomes methods with loops and invariants. The radix
  sort works on arrays. `fill` mutates a `Graph` object. LEX P's label list is
  a class, an arena of `Label` records with `prev`/`next` indices.
- Every method is proved against a functional specification:
  - `FillSpec.Run` is FILL step by step: eliminating `v` joins only its
    earliest later neighbour to the others, and the remaining edges of the
    elimination game appear when that neighbour is eliminated in turn;
  - `RadixSort.Pass` is one bucket pass;
  - `LexM.Rank` is the relabelling;
  - `LexP.Refine` is the relinked class list.
- The promised properties are proved as lemmas about those specifications.

Where the source iterates an unordered container (the first vertex of LEX M,
the members of a class, neighbours, the entries of `fix`), the model picks
with `:|`. The proofs therefore hold for every iteration order.

Modules: `Graphs` (shared vocabulary), `RadixSort`, `FillSpec`, `Fill`,
`FillExample`, `LexM` and `LexP`.

Where the doc comment of `lex_m` (`src/lex_m.h:13-20`, which promises "a
minimal elimination order") and its code disagree, the model follows the
code:

- The label-propagation loop (`src/lex_m.h:57`) starts at `max_label` and
  runs while `l < max_label`, so its body never executes. Labels then travel
  only to direct neighbours, not along paths of unnumbered vertices.
  `LexM.ScanReachBuckets` is verified for every start and bound. `LexM.LexM`
  calls it with start equal to bound, as the code does.
- Without that propagation the order need not be minimal, so minimality is
  not claimed for `LexM.LexM`.

A separate observation on the code itself: `prev_label` is seeded with the
vertex id `to_relabel.front()`, not with that vertex's label
(`src/lex_m.h:83`). Its effect is proved: the ranks shift by one exactly when
the two differ.

## Model

| member | source | states |
|---|---|---|
| RadixSort.RadixSort | src/radix_sort.h:26-54 | afterwards the array is in ascending key order and is a permutation of the input; the number of passes is the number of hex digits of the largest key, at most `key_bits/4`; if every key is 0 the array is unchanged |
| RadixSort.MaxKey | src/radix_sort.h:36-40 | the scan returns the largest key of the range, 0 for an empty range |
| RadixSort.RadixPasses | src/radix_sort.h:42-53 | the pass loop keeps the array a permutation and sorted on the low `shift` bits; it stops at the key width or at the first `shift` where `max >> shift` is 0; when no pass runs the array is unchanged |
| RadixSort.RadixStep | src/radix_sort.h:42-53 | one pass at a shift below the key width turns "sorted on the low `shift` bits" into "sorted on the low `shift+4` bits", keeps the multiset, and leaves all 16 buckets empty |
| RadixSort.RadixPass | src/radix_sort.h:43-52 | the array becomes the 16 digit buckets concatenated in digit order, each in scan order, and the buckets are emptied |
| RadixSort.Distribute | src/radix_sort.h:43-46 | bucket `d` receives exactly the elements whose current digit is `d`, in scan order |
| RadixSort.CopyBucket | src/radix_sort.h:49 | one bucket lands at offset `off`, and the part before `off` is unchanged |
| RadixSort.CopyBack | src/radix_sort.h:48-52 | the array becomes the concatenation of the buckets, and every bucket is cleared |
| RadixSort.Shr | src/radix_sort.h:42 | `max >> shift` is zero exactly when `max < 2^shift` |
| RadixSort.Digit | src/radix_sort.h:45 | `(key >> shift) & 0xf` is a bucket index below 16 |
| RadixSort.KeyMax | src/radix_sort.h:39-40 | a bound on every key that is attained, 0 on an empty range |
| RadixSort.PassPermutes | src/radix_sort.h:43-52 | every element goes to exactly one bucket and is copied back once: a pass is a permutation |
| RadixSort.PassSorts | src/radix_sort.h:42-53 | a pass is stable, so a range sorted modulo `2^shift` is sorted modulo `2^(shift+4)` afterwards |
| RadixSort.BucketSorted | src/radix_sort.h:43-46 | a bucket keeps the scan order, so it stays sorted on the low bits |
| RadixSort.ConcatSorted | src/radix_sort.h:48-52 | the buckets copied back in digit order are sorted on one more digit |
| RadixSort.LowOrder | src/radix_sort.h:45 | comparing the new digit first and the lower bits second orders the keys by their low `shift+4` bits |
| RadixSort.Decompose | src/radix_sort.h:45 | a key's low `shift+4` bits are its digit at `shift` followed by its low `shift` bits |
| RadixSort.SortedOnAllBits | src/radix_sort.h:23-24 | once all keys are below `2^shift`, being sorted on the low `shift` bits is being sorted by key |
| RadixSort.SortedAfterPasses | src/radix_sort.h:42-53 | when the pass loop ends the range is sorted by key, and the passes made equal the hex digits of the largest key |
| RadixSort.HexDigitsBetween | src/radix_sort.h:42 | a key in `[16^(n-1), 16^n)` has exactly `n` hex digits |
| RadixSort.NextDigitFits | src/radix_sort.h:37-42 | with a whole number of bytes per key, a shift below the key width leaves room for a full digit |
| RadixSort.Pow2Of64 | src/radix_sort.h:37 | the bound for 64-bit keys, `2^64`, is `0x1_0000_0000_0000_0000` |
| RadixSort.Keyed | src/radix_sort.h:39 | every element of the range has a key, so `map[*it]` never inserts a default entry |
| RadixSort.Bucket | src/radix_sort.h:43-46 | `buckets[d]` after the distribution loop: the elements whose digit `(key >> shift) & 0xf` is `d`, in scan order |
| RadixSort.Pass | src/radix_sort.h:43-52 | the range after one pass at `shift`: the 16 buckets laid out in digit order |
| Graphs.Wrap | src/lex_m.h:92 | reduction modulo `2^64`: below `2^64`, the identity on values already below it, and decreasing otherwise |
| Graphs.NumberNext | src/lex_p.h:73-92 | numbering an unnumbered vertex at `index` keeps the numbering state: positions above `index - 1` hold exactly the numbered vertices |
| Graphs.NumberedAll | src/lex_m.h:36-45 | once no vertex is unnumbered, the order lists every vertex exactly once |
| Graphs.Graph.constructor | src/fill.h:19 | the mutable graph holds the given simple undirected graph |
| Graphs.Graph.AddEdge | src/fill.h:56 | `add_edge(min, w)` adds the undirected edge in both adjacency sets and keeps the graph simple |
| Graphs.Graph.Valid | src/fill.h:13-14 | the caller-owned graph `fill` extends is simple and undirected: symmetric adjacency, no self-loops |
| Fill.Fill | src/fill.h:18-60 | the `@post`: the graph becomes the original plus exactly the fill-in edges, `order` is a perfect elimination order of the result, and the result lies within every graph that contains the original and has `order` as a perfect elimination order, so it is the least chordal completion along `order` |
| Fill.FillIn | src/fill.h:74-123 | the returned edges are the fill-in; every pair is canonical (first < second), joins two vertices of `g` and is not an edge of `g`; adding them makes `order` perfect; and every pair is an edge of each graph that contains `g` and has `order` as a perfect elimination order, so no returned edge is superfluous |
| Fill.IsPerfectEliminationOrder | src/fill.h:136-177 | true iff the fill-in is empty, iff every vertex's later neighbours form a clique |
| Fill.IndexOrder | src/fill.h:31-32 | `index_of` maps exactly the vertices of `order` to their positions |
| Fill.InitialSuccessors | src/fill.h:34-39 | initially `succ[v]` is exactly the set of neighbours of `v` that come later in `order` |
| Fill.EarliestSuccessor | src/fill.h:43-49 | `min_index` is the smallest position in `succ[v]`, and stays `n_vertices` when `succ[v]` is empty |
| Fill.ScanFindsEarliest | src/fill.h:43-51 | `min_index < n` iff `succ[v]` is non-empty, and then `order[min_index]` is `v`'s earliest successor |
| Fill.AddFillEdges | src/fill.h:53-57 | adds `min`-`w` for each successor `w` of `v` other than `min` that is not yet a successor of `min`, extending `succ[min]` by the same vertices |
| Fill.FillAt | src/fill.h:41-58 | one iteration of `fill` performs FILL's step on the graph and the successor map |
| Fill.FillLoop | src/fill.h:41-59 | the loop over all vertices but the last leaves the filled graph of the FILL run |
| Fill.RecordFillEdges | src/fill.h:110-118 | records each added pair in canonical order and extends `succ[min]` as `fill` does |
| Fill.FillInAt | src/fill.h:98-119 | one iteration of `fill_in` records exactly the edges the elimination step adds |
| Fill.FillInLoop | src/fill.h:98-122 | the loop returns the whole fill-in |
| Fill.HasMissing | src/fill.h:170-173 | the early exit fires iff some successor of `v` other than `min` is missing from `succ[min]` |
| Fill.CheckAt | src/fill.h:158-174 | if the iteration finds a missing successor (where the source returns false) FILL's step records an edge at this vertex; otherwise the step records nothing and the successor maps still agree |
| Fill.CheckLoop | src/fill.h:158-176 | the loop returns true iff the fill-in is empty |
| Fill.StepMatches | src/fill.h:53-57 | the vertices the code adds to `succ[min]` are the step's fresh vertices, and the successor maps agree afterwards |
| Fill.AddedInFill | src/fill.h:110-118 | the edges recorded after any number of steps are part of the final fill-in |
| Fill.AddedGrows | src/fill.h:98-120 | the recorded fill-in only grows from step to step |
| Fill.StepRecords | src/fill.h:170-173 | a step with a missing successor records at least one edge, which is why the early exit may answer false |
| Fill.StepRecordsNothing | src/fill.h:158-174 | a step without a missing successor records nothing and leaves the successors as they were |
| FillSpec.IndexMap | src/fill.h:30-31 | `index_of` after its loop: each vertex of `order` mapped to its position, a later occurrence overwriting an earlier one |
| FillSpec.PosOf | src/fill.h:35 | `index_of[v]` through `operator[]`: the stored position, 0 for a vertex never stored |
| FillSpec.SuccOf | src/fill.h:53-54 | `succ[v]` through `operator[]`: the stored set, empty for a vertex never stored |
| FillSpec.InitSucc | src/fill.h:33-38 | the successor sets after the double loop: each vertex's neighbours with a larger index |
| FillSpec.Init | src/fill.h:26-38 | the state before the main loop: those successor sets, the original graph, and no recorded edge |
| FillSpec.Fresh | src/fill.h:53-54 | the successors `w` of `v` other than `min` that `succ[min]` lacks, the ones the insertion loop visits; none when `succ[v]` is empty |
| FillSpec.Star | src/fill.h:113-116 | the recorded pairs `min`-`w`, smaller vertex first |
| FillSpec.AddStar | src/fill.h:56 | `add_edge(min, w)` for each such `w`, entered in both adjacency sets |
| FillSpec.Step | src/fill.h:41-58 | one iteration at `v`: `min` is the earliest successor, `succ[min]` gains the fresh successors, the graph gains and the fill-in records the edges `min`-`w`; when `succ[v]` is empty the state is unchanged, the model's choice for the undefined `order[n_vertices]` read |
| FillSpec.Run | src/fill.h:41-59 | the state once the main loop has processed `order[..k]`: the steps applied from the initial state in order |
| FillSpec.FillEdges | src/fill.h:98-122 | what `fill_in` returns: the pairs recorded over all vertices but the last |
| FillSpec.Filled | src/fill.h:41-59 | the graph as `fill` leaves it |
| FillSpec.Earliest | src/fill.h:43-51 | `order[min_index]`: a successor whose position is not larger than any other successor's |
| FillSpec.IndexMapSound | src/fill.h:31-32 | a vertex has an index iff it occurs in `order`, and `order[index_of[v]] == v` |
| FillSpec.RunInv | src/fill.h:41-58 | throughout the FILL run, `succ[x]` is exactly `x`'s later neighbours in the current graph, which stays simple and only grows |
| FillSpec.RunAdded | src/fill.h:53-57 | throughout the FILL run the graph is the original plus the recorded edges, each canonical and new, so no self-loop and no existing edge is added |
| FillSpec.StepInv | src/fill.h:43-58 | one step keeps the successor invariant, because every added successor of `min` lies after `min` |
| FillSpec.StepAdded | src/fill.h:53-57 | one step keeps the graph equal to the original plus the recorded edges, each canonical and absent from the original |
| FillSpec.StepCloses | src/fill.h:43-58 | after eliminating `v`, its later neighbours other than `min` are later neighbours of `min` |
| FillSpec.ClosedStays | src/fill.h:41-59 | later steps never undo that closure for an already eliminated vertex |
| FillSpec.CliqueAt | src/fill.h:15-16 | when every vertex's later neighbours are closed under its earliest one, each vertex's later neighbours form a clique |
| FillSpec.MinClosedPerfect | src/fill.h:15-16 | closure at every vertex makes the order a perfect elimination order |
| FillSpec.FillMakesPerfect | src/fill.h:15-16 | the first half of the `@post` of `fill`: the filled graph is simple, has the same vertices, and has `order` as a perfect elimination order |
| FillSpec.FillLeast | src/fill.h:15-16 | the second half of that `@post`: the filled graph lies within every graph that contains the original and has `order` as a perfect elimination order, so every fill-in edge is forced |
| FillSpec.StepWithin | src/fill.h:53-57 | a step adds only edges of any such graph `H` that the current graph lies within, since `min` and each added `w` are later neighbours of `v` in `H`, which form a clique |
| FillSpec.RunWithin | src/fill.h:41-59 | every prefix of the run stays within every such graph |
| FillSpec.RunStepWithin | src/fill.h:41-58 | one more iteration of the loop stays within such a graph |
| FillSpec.RunNext | src/fill.h:41 | one more iteration of the loop over `order` is one more step |
| FillSpec.RunStepCloses | src/fill.h:53-57 | right after `order[k]` is eliminated, its later neighbours other than `min` are later neighbours of `min` |
| FillSpec.RunKeepsClosed | src/fill.h:41-59 | an iteration at a later vertex keeps that closure at an already eliminated vertex |
| FillSpec.FillAgrees | src/fill.h:53-57 | `fill` adds exactly the edges `fill_in` returns: the filled graph is the original plus the fill-in, whose pairs are canonical non-edges |
| FillSpec.NoFillOnPerfect | src/fill.h:170-176 | on a perfect elimination order no step records an edge or changes the graph |
| FillSpec.PerfectIffNoFill | src/fill.h:170-176 | the fill-in is empty iff the order is a perfect elimination order |
| FillSpec.CompleteNoFill | test/unit/test_fill.cc:82-119 | on a complete graph every order is perfect and has empty fill-in |
| FillExample.KnownReady | test/unit/test_fill.cc:53-54 | the known test graph is simple and its order lists each vertex once |
| FillExample.KnownNotPerfect | test/unit/test_fill.cc:56-58 | the known order is not perfect (0 and 3, both later neighbours of 4, are not adjacent), so its fill-in is not empty |
| FillExample.KnownFirstStep | src/fill.h:98-119 | eliminating 4 records 0-3 and makes 0 a successor of 3 |
| FillExample.EliminateFour | src/fill.h:103-118 | from any state with the initial successors of 4, 3 and 2, eliminating 4 records exactly 0-3 and adds 0 to the successors of 3 |
| FillExample.EliminateThree | src/fill.h:103-118 | from any state with the successors left by the first step, eliminating 3 adds exactly 1-2 to the recorded fill-in |
| FillExample.KnownSecondStep | src/fill.h:98-119 | after two steps the recorded fill-in is {0-3, 1-2} |
| FillExample.KnownFillIn | test/unit/test_fill.cc:60-67 | the fill-in of the known order is exactly {0-3, 1-2}, as the test's comment says |
| FillExample.FillInIs | test/unit/test_fill.cc:62-66 | the same over arguments equal to the known graph, order and completed graph |
| FillExample.KnownCompletion | test/unit/test_fill.cc:69-71 | the known graph with 0-3 and 1-2 added contains the known graph and has the known order as a perfect elimination order |
| FillExample.CompletionAdds | test/unit/test_fill.cc:62 | the only canonical pairs that graph adds to the known graph are 0-3 and 1-2 |
| FillExample.FillInForced | test/unit/test_fill.cc:62-66 | every fill-in edge of the known order is 0-3 or 1-2 |
| FillExample.FillWithin | src/fill.h:15-16 | the fill-in lies within the new canonical pairs of any graph that contains the original and has `order` as a perfect elimination order |
| FillExample.KnownFilledPerfect | test/unit/test_fill.cc:69-71 | after `fill`, the known order is a perfect elimination order |
| LexM.LexM | src/lex_m.h:22-99 | the result lists every vertex exactly once: each round erases the current vertex from `unordered` and stores it at `index`, counting down, until `unordered` is empty |
| LexM.Round | src/lex_m.h:42-95 | the round ends the loop iff no vertex is left unnumbered; otherwise the next vertex is unnumbered and has the largest new label; new labels are even and order the unnumbered vertices as the bumped labels did |
| LexM.SeedReach | src/lex_m.h:47-55 | `reached` is the set of unnumbered neighbours of the current vertex; their labels grow by exactly 1 and all other labels stay; `reach[l]` holds the reached vertices whose label was `l` |
| LexM.SeedAt | src/lex_m.h:50-54 | handling one neighbour keeps that description for the neighbours handled so far |
| LexM.SeedDone | src/lex_m.h:50-55 | after all neighbours, `reached` and the labels are as described for `SeedReach` |
| LexM.ScanReachBuckets | src/lex_m.h:57-75 | the propagation loop changes nothing when it starts at or above its bound, which is how `lex_m` calls it, and in general only relabels vertices it newly reaches among the unnumbered ones |
| LexM.DrainBucket | src/lex_m.h:58-73 | draining bucket `l` empties it and only relabels vertices newly reached among the unnumbered ones |
| LexM.MaxLabel | src/lex_m.h:42 | `2 * (n_unique_labels - 1)` in `size_t` arithmetic: `2^64 - 2` when the count is 0, and otherwise twice the count minus 2 |
| LexM.WithDefaults | src/lex_m.h:80-81 | `label[v]` through `operator[]`: every vertex of the set gets a label, 0 if it had none |
| LexM.SetToArray | src/lex_m.h:80 | `to_relabel` holds each unnumbered vertex exactly once |
| LexM.SortedVertices | src/lex_m.h:80-81 | `to_relabel` is the unnumbered vertices sorted in ascending label order |
| LexM.Relabel | src/lex_m.h:83-93 | each vertex of the sorted array gets twice its rank, where the rank counts label changes from the seed `prev_label`; other labels are unchanged, and `n_unique_labels` is the last rank |
| LexM.RelabelAt | src/lex_m.h:86-92 | one relabelling step extends that description by one position |
| LexM.RelabelSorted | src/lex_m.h:83-95 | after relabelling, every unnumbered label is even and at most `2*|unordered|`; new labels order the vertices exactly as the old ones did; the last vertex has the largest label, twice `n_unique_labels`; the labels leave no gaps |
| LexM.RelabelFacts | src/lex_m.h:83-95 | the properties of `RelabelSorted`, derived from the rank description |
| LexM.Reorder | src/lex_m.h:80-95 | sorting and relabelling preserve the label order in both directions, produce even labels, and pick a vertex of maximum label, twice `n_unique_labels`, as the next `cur_vertex`; the new labels are dense: one is at most 2 and every label above 2 is exactly 2 more than another |
| LexM.RelabelDense | src/lex_m.h:86-93 | the last relabelled vertex gets twice `n_unique_labels`, the first at most 2, and every new label above 2 is 2 more than another new label |
| LexM.RankHits | src/lex_m.h:86-93 | every rank between the first one and the one at position `i` occurs at or before `i` |
| LexM.RankOrder | src/lex_m.h:86-93 | in a sorted key sequence, a smaller key gets a smaller rank and equal keys get equal ranks, in both directions |
| LexM.RankMonotone | src/lex_m.h:86-93 | ranks never decrease and grow by at most one per position, so new labels (twice the ranks) leave no gap wider than 2 |
| LexM.RankEqual | src/lex_m.h:87-90 | equal old labels get equal ranks |
| LexM.RankGrows | src/lex_m.h:87-90 | a strictly larger old label gets a strictly larger rank |
| LexM.RankSeed | src/lex_m.h:83 | seeding `prev_label` with the vertex id gives the ranks of a seed equal to the first label, plus one exactly when the id differs from that label |
| LexM.RankCounts | src/lex_m.h:86-93 | seeded with the first label, the rank at `i` is the number of distinct labels up to `i` minus one |
| LexM.UniqueCount | src/lex_m.h:83-93 | `n_unique_labels` ends at `k - 1` or `k` for `k` distinct labels, depending on the seed |
| LexM.KeysOf | src/lex_m.h:80-81 | the labels of `to_relabel`, position by position |
| LexM.SetPositions | src/lex_m.h:80 | an array holding each vertex of a set once has a position map |
| LexM.LabelOf | src/lex_m.h:53 | `label[v]` through `operator[]`: 0 for a vertex never labelled |
| LexM.Bumped | src/lex_m.h:50-55 | a vertex's label after seeding: one more, in `size_t` arithmetic, for an unnumbered neighbour of `cur_vertex`, unchanged otherwise |
| LexM.Prev | src/lex_m.h:83-90 | the value of `prev_label` at position `i` of the sorted range: the seed at 0, the previous label afterwards |
| LexM.Rank | src/lex_m.h:84-92 | the value of `n_unique_labels` after position `i`: the number of label changes counted from the seed |
| LexP.LexP | src/lex_p.h:28-147 | the result lists every vertex exactly once: each round removes one vertex from `unordered` and stores it at `order[index]`, counting down from n - 1 |
| LexP.LabelList.constructor | src/lex_p.h:59-70 | one class, the empty label, holds every vertex, and it alone forms the list |
| LexP.LabelList.Linked | src/lex_p.h:37-44 | `prev` and `next` form the doubly linked list `chain` from `head` to `nullptr`, each class at one position |
| LexP.LabelList.Partitioned | src/lex_p.h:37-51 | every vertex is in exactly one class's `vertex_map`, the one its `label` field names |
| LexP.LabelList.Valid | src/lex_p.h:37-51 | the state between rounds: linked, partitioned, and every class created so far is in the list |
| LexP.Insert | src/lex_p.h:123-130 | the list with a new class placed immediately before the first occurrence of a class |
| LexP.Refine | src/lex_p.h:121-131 | the list after linking every entry of `fix`: each `fix[c]` immediately before `c` |
| LexP.LabelList.ScanClass | src/lex_p.h:79-87 | the scan of a `vertex_map` finds an unnumbered member if there is one, and reports none otherwise |
| LexP.LabelList.Select | src/lex_p.h:74-91 | the chosen vertex is unnumbered, and no class before its class in the list holds an unnumbered vertex, so `assert(cur_vertex)` holds |
| LexP.LabelList.Split | src/lex_p.h:94-119 | afterwards every vertex is still in exactly one class, named by its `label`; only unnumbered neighbours of `cur` move; all movers from one old class land in the same new class; each key of `fix` is an old class; new classes are non-empty |
| LexP.SplitStep | src/lex_p.h:99-117 | moving one neighbour, creating the new class on first use, keeps the split state |
| LexP.LabelList.Refinement | src/lex_p.h:94-133 | a round's refinement keeps every class linked and every vertex in one class; the list becomes `Refine(old list, fix)`, where `fix` maps old classes to new ones; the old classes keep their relative order and each new class sits immediately before the class it was split from; moved vertices land in `fix[old class]` and all others keep their class |
| LexP.LabelList.LinkNew | src/lex_p.h:121-131 | linking the entries of `fix` in any order yields the list `Refine(old list, fix)`, with `prev`/`next` consistent and every class linked |
| LexP.LabelList.LinkOne | src/lex_p.h:122-131 | linking one entry of `fix` inserts its new class before its old class and advances the bookkeeping |
| LexP.LabelList.LinkBefore | src/lex_p.h:123-130 | the four link updates insert the new class immediately before the old one and keep the links consistent |
| LexP.InsertLinks | src/lex_p.h:123-130 | the rewritten `prev`, `next` and `head` are exactly the links of the list with the new class inserted; `head` is updated when the old class was first |
| LexP.InsertNext | src/lex_p.h:123-128 | the rewritten `next` links and `head` follow the list with the new class inserted |
| LexP.InsertPrev | src/lex_p.h:129-130 | the rewritten `prev` links follow the list with the new class inserted, and the head has no `prev` |
| LexP.InsertIndexed | src/lex_p.h:123-130 | after the insertion every linked class still has one position in the list |
| LexP.LinksGrow | src/lex_p.h:109 | a new `Label` starts with null `prev` and `next` and leaves the linked list as it was |
| LexP.EmptyClassPartition | src/lex_p.h:109-110 | creating an empty class keeps every vertex in exactly one class |
| LexP.MovePartition | src/lex_p.h:115-117 | erasing a vertex from its class and inserting it in another, while updating its `label`, keeps the partition |
| LexP.InsertRefine | src/lex_p.h:122-131 | linking one more entry of `fix` gives the list refined by the larger map, so the final list does not depend on the iteration order of `fix` |
| LexP.RefineKeepsOrder | src/lex_p.h:121-131 | relinking keeps the old classes in their old relative order |
| LexP.RefinePlacesBefore | src/lex_p.h:121-131 | relinking places each new class immediately before the class it was split from |
| LexP.RefineNothing | src/lex_p.h:133 | with `fix` empty, as after `fix.clear()`, the list is unchanged |
| LexP.RelinkStep | src/lex_p.h:122-131 | because `fix` maps distinct old classes to distinct new ones, a new class is linked at most once |
| LexP.RelinkDone | src/lex_p.h:122-131 | after the walk over `fix`, every new class has been linked |
| LexP.PositionsOnce | src/lex_p.h:37-44 | a class occurs at most once in the list |
| LexP.InsertAt | src/lex_p.h:123-130 | inserting before the one occurrence of a class inserts at its position |
| LexP.InsertPast | src/lex_p.h:123-130 | insertion before a class skips a prefix that does not hold that class |
| LexP.RefineIgnores | src/lex_p.h:122 | an entry of `fix` for a class not in the list has no effect on the relinked list |
| LexP.OlderAppend | src/lex_p.h:121-131 | selecting the old classes distributes over concatenation of lists |

## Left out

- Generic C++ parameters are replaced by concrete types, and boost graph concepts by an adjacency map. Vertices are `nat`, keys are `nat` bounded by `2^keyBits`, and vertex sets are Dafny sets.
- Parallel edges: the model's neighbour sets describe simple graphs, which is what the `@pre` clauses of every algorithm demand.
- RadixSort.RadixSort: requires every element to have a key, because `operator[]` on a missing key would insert 0 into the key map. It also requires `keyBits` to be a multiple of 8, which `sizeof * CHAR_BIT` always is.
- Fill.Fill, Fill.FillInAt, Fill.CheckAt: when a processed vertex has no successor, the source reads `order[n_vertices]` out of bounds (`src/fill.h:51`, `:108`, `:168`), which is undefined behaviour. The model takes `min_index < n` as the guard and performs no step otherwise; the insertion loop over the empty set would do nothing anyway. On the connected graphs the `@pre` demands this case should not arise, since elimination keeps the remaining graph connected, but that is a remark: the model does not prove it.
- Fill.Fill, Fill.FillIn, Fill.IsPerfectEliminationOrder: require `order` to list each vertex once and to be non-empty. `order.end() - 1` on an empty order is undefined behaviour.
- LexM.LexM: requires at least one vertex, because `*unordered.begin()` on an empty set is undefined behaviour. It also requires `2n < 2^64` so that doubled ranks fit in a `size_t` label; the source does not check this bound.
- LexM.LexM: the inclusion-minimality claimed in the doc comment of `lex_m` is not proved. As written the propagation loop never runs, so the code does not support that claim.
- LexP.LexP: `new`/`delete` of `Label` and `LabeledVertex` records are replaced by an arena of class records. The `label` field of each vertex is a map from vertex to class, and `unordered` is a set of vertex ids. The final deallocation loop (`src/lex_p.h:136-144`) is not modelled.
- LexP.LexP: `fix.clear()` is modelled as a fresh `fix` for each round.
- LexP.LexP, LexM.LexM: perfection of the orders on chordal graphs is not proved. `lex_p` promises it (`@return a perfect elimination order`, `src/lex_p.h:19-27`), and the tests check for empty fill-in (`test/unit/test_lex_m.cc:96-123`, `test/unit/test_lex_p.cc:17-26`). It is the theorem of Rose, Tarjan and Lueker that lexicographic search orders a chordal graph perfectly. Its proof argues about chordless paths and the lexicographic order of labels over the whole run. The invariants proved here (the shape of the class list, the partition, the label order within a round) say nothing about chordality, so they cannot carry that argument.
- `src/random_graph.h`, the benchmarks under `test/bench/` and `src/utils.h` are not modelled. They hold randomised test inputs, timing and memory harnesses, and type aliases.
