# Hungarian algorithm (Kuhn-Munkres) for maximum-weight assignment

This project models the `Hungarian<int>` solver class of `hungarian.cpp`.
The class takes an `xsize x ysize` integer weight matrix and pads it with
zero-weight cells to a square `size x size` matrix. In perfect mode the
weights are copied as they are. Otherwise negative weights are clamped to
zero and marked as non-edges. The solver then searches for a perfect
matching of the padded matrix with the greatest total weight.

It keeps a label for every vertex on both sides. Each left vertex is
matched in turn by a breadth-first search for an augmenting path over
tight edges, where an edge is tight when its labels sum to its weight. When
a pass finds no path, the labels of the visited vertices are shifted by the
smallest recorded slack and the search is repeated. At the end, the pairs
that lie in the original rectangle and are genuine edges are reported.

The model is imperative, as the source is. `HungarianMethod.Hungarian` is a
class with the source's vectors as arrays. Each method lists the arrays it
may change. The constructor, `InitLabels`, `StartTree`, `ShiftLabels`,
`Relabel`, `MatchEdge`, `Enqueue` and `RecordSlack` state the full new
contents of what they change. The flip (`FlipPath`, `Augment`, `ReachFree`)
states the new matching as the old one flipped along the unique path back
from the free right vertex. The pass-level methods (`GrowTree`, `ScanRow`,
`ScanEdge`, `FindAugPathBFS`) state the same of the matching when a path is
found (predicate `Augmented`), and otherwise invariants of the tree rather
than the contents of every array. The constructor's
`perfect` flag defaults to `true`, as in the source. `Slack` is the slack
of an edge as computed at line 180. The breadth-first search of
`findAugPathBFS` is split into one method per block of the source:

- one pass (`GrowTree`);
- the scan of a row (`ScanRow`, `ScanEdge`);
- the path flip (`ReachFree`, `Augment`, `FlipPath`);
- the minimum slack (`MinDelta`, as the source computes it; `MinBorderDelta`
  is its corrected form, see "## Findings");
- the label shift (`ShiftLabels`).

The proof that a successful run is optimal is the usual duality argument in
module `Duality`. Under feasible labels every permutation weighs at most the
sum of all labels. A perfect matching that uses only tight edges weighs
exactly that sum. Module `Bounds` gives the source's
`numeric_limits<T>::max()` sentinel an explicit `Infinite` value. Module
`Weights` holds the padding and the initial labels. The constructor
establishes `Padded`: every cell outside the input rectangle and every
non-edge weighs 0. The weights never change afterwards, so this holds for
every later call.

The queue of a pass is a sequence `queue` with a head index. It keeps the
dequeued entries, so the proof can refer to discovery order through the
ghost position index `rank`. The ghost state of a pass is:

- `rank`: the position of every enqueued left vertex in `queue`;
- `Tree`: every visited right vertex hangs by a tight edge from a dequeued
  left vertex;
- `Chain`: every visited left vertex other than the root is matched to a
  visited right vertex that hangs from an earlier left vertex.

`Chain` is what makes the walk back along `prev` in `Augment` terminate at
the root.

## Model

| member | source | states |
|---|---|---|
| Bounds.Min | hungarian.cpp:213-216 | the minimum of two slack bounds is one of them and no larger than either, with `Infinite` above every finite value |
| Weights.RowMax | hungarian.cpp:67-71 | the initial label of a left vertex is at least zero and at least every weight on its row, and it is zero or one of those weights |
| Duality.DistinctBounded | hungarian.cpp:166-211 | pigeonhole: pairwise distinct vertices below `n` number at most `n`, which bounds the search queue |
| Duality.SumRemove | hungarian.cpp:61-90 | removing one entry from a list of labels lowers its sum by exactly that entry |
| Duality.PermutationStep | hungarian.cpp:61-90 | dropping the last pick of a permutation and the label it picks leaves a permutation of the remaining labels that picks the same values |
| Duality.SumAtPermutation | hungarian.cpp:61-90 | summing the right labels in the order a permutation picks them gives the sum of all right labels |
| Duality.WeightAtMostLabels | hungarian.cpp:61-90 | under feasible labels an assignment weighs at most the labels at its endpoints |
| Duality.WeightOfTightEdges | hungarian.cpp:61-90 | an assignment that uses only tight edges weighs exactly the labels at its endpoints |
| Duality.TightPermutationIsOptimal | hungarian.cpp:61-90 | a perfect matching on tight edges under feasible labels weighs the sum of all labels, and no permutation weighs more |
| HungarianMethod.Hungarian.constructor | hungarian.cpp:29-59 | padding: outside the input rectangle every weight is 0 and no cell is a non-edge; perfect mode (the default) copies the input; otherwise the weight is the input clamped at 0 and a cell is a non-edge exactly when the input is negative; every padding cell and every non-edge weighs 0; all vertices start unmatched and unvisited, labels 0, `prev` 0, slacks infinite |
| HungarianMethod.Hungarian.FindMaxWeightMatch | hungarian.cpp:61-90 | labels stay feasible and the matching consistent and tight; if some left vertex stays unmatched the result is empty; otherwise the matching is a permutation whose weight equals the label sum and is at least that of every permutation of the padded matrix, the result is exactly its pairs inside the rectangle that are not non-edges, and those pairs weigh as much as the whole padded matching |
| HungarianMethod.Hungarian.MatchAll | hungarian.cpp:73-80 | searching from each left vertex in turn keeps the labels feasible and the matching consistent and tight, and it reports success exactly when every left vertex ends matched |
| HungarianMethod.SolveTwice | hungarian.cpp:61-90 | each call starts over from fresh labels and an empty matching, so two calls that both succeed report pairs of the same total weight; a call that fails reports nothing; every reported pair lies inside the input rectangle |
| HungarianMethod.Hungarian.PerfectIsOptimal | hungarian.cpp:73-89 | once every left vertex is matched under feasible labels along tight edges, the matching is a permutation whose weight is the label sum, and no permutation of the padded matrix weighs more |
| HungarianMethod.Hungarian.InitLabels | hungarian.cpp:63-71 | every vertex becomes unmatched, each left label is the largest weight on its row (at least 0), each right label is 0, and these labels are feasible |
| HungarianMethod.Hungarian.Extract | hungarian.cpp:83-89 | the result lists, in strictly ascending left index, every pair `(i, xMatch[i])` with `i < xsize`, `0 <= xMatch[i] < ysize` and no non-edge, and nothing else; no right vertex appears twice; under a perfect matching the listed pairs weigh as much as the whole padded matching |
| HungarianMethod.Hungarian.ExtractedDistinct | hungarian.cpp:83-89 | under a consistent matching, reported pairs with distinct left vertices have distinct right vertices |
| HungarianMethod.Hungarian.ExtractedWeight | hungarian.cpp:83-89 | under a perfect matching on padded weights, the pairs kept by the filter weigh exactly the whole matching, because every dropped pair is padding or a non-edge and weighs 0 |
| HungarianMethod.PickedSpec | hungarian.cpp:83-89 | the filtered pairs are exactly the pairs `(i, p[i])` below `n` whose right vertex is inside the rectangle and not a non-edge, in strictly ascending left vertex |
| HungarianMethod.PickedWeight | hungarian.cpp:83-89 | when every dropped row's chosen cell weighs 0, the filtered pairs weigh as much as the first `n` rows of the assignment |
| HungarianMethod.ZeroRowsAddNothing | hungarian.cpp:83-89 | rows whose chosen cell weighs 0, such as the padding rows past `xsize`, add nothing to the weight of an assignment |
| HungarianMethod.Hungarian.FindAugPathBFS | hungarian.cpp:156-229 | feasibility, consistency and tightness are preserved; on success `x` becomes matched, every other left vertex keeps its matched or unmatched status, and the new matching is the old one flipped along the path from a free right vertex back to `x`; on failure the matching is unchanged |
| HungarianMethod.Hungarian.GrowTree | hungarian.cpp:161-211 | one pass either flips an augmenting path (the new matching is the old one flipped along the path from the reached free right vertex back to the root, which becomes matched, and no other vertex's status changes), or leaves the matching unchanged with a complete alternating tree whose unvisited right vertices record the least slack from the whole tree |
| HungarianMethod.Hungarian.StartTree | hungarian.cpp:161-169 | afterwards only the root is a visited left vertex, no right vertex is visited, every `prev` is -1, every slack is infinite, and the queue holds only the root |
| HungarianMethod.Hungarian.QueueBounded | hungarian.cpp:171-204 | the queue never holds a left vertex twice, so it never grows past `size` |
| HungarianMethod.Hungarian.ScanRow | hungarian.cpp:172-210 | dequeuing a left vertex and scanning its row either augments, flipping the matching along the path from the reached free right vertex back to the root, or keeps the matching, only appends to the queue, keeps the tree, and extends every unvisited right vertex's recorded slack to the least slack from the vertices dequeued so far |
| HungarianMethod.Hungarian.ScanEdge | hungarian.cpp:177-209 | one edge step to `j` either augments, flipping the matching along the path from `j` back to the root, or keeps the matching, only appends to the queue, and keeps the tree and the slack records up to the next right vertex |
| HungarianMethod.Hungarian.ScanDone | hungarian.cpp:175-210 | once every right vertex of the row is scanned, the pass state holds with one more left vertex dequeued |
| HungarianMethod.Hungarian.ReachFree | hungarian.cpp:183-198 | reaching a free right vertex `j` by a tight edge marks `j` visited with parent `curx`, changing no other mark, and then flips the unique path back from `j` to the root: the new matching is the old one flipped along it, consistent and tight, with the root matched and every other left vertex's status kept |
| HungarianMethod.Hungarian.Enqueue | hungarian.cpp:183-204 | reaching a matched right vertex `j` by a tight edge marks `j` visited with parent `curx` and marks its partner, which was not yet visited, as visited and appends it to the queue; no other mark changes, and the tree and slack records are kept |
| HungarianMethod.Hungarian.RecordSlack | hungarian.cpp:206-209 | a non-tight edge to `j` replaces `j`'s recorded slack by the smaller of it and the edge's slack and changes no other record; the records stay the least slack from the scanned vertices, and positive |
| HungarianMethod.Hungarian.MinSlackIsLeast | hungarian.cpp:206-209 | the least slack over a list of left vertices bounds each of their slacks from below and is one of them, and it is infinite exactly for the empty list |
| HungarianMethod.Hungarian.Augment | hungarian.cpp:186-198 | the new matching is the old one flipped along the path that `prev` and the old matching lead through from `j` back to the root; it is consistent and tight, the root is matched, every other left vertex keeps its status, and every changed entry follows `prev` |
| HungarianMethod.Hungarian.FlipPath | hungarian.cpp:189-196 | the flip loop, walking back along `prev` from a visited free right vertex, stops exactly when it passes the root, keeps every matched edge tight, leaves the match arrays inverse to each other with the root matched, and changes them exactly along the walked path |
| HungarianMethod.Hungarian.MatchEdge | hungarian.cpp:191-195 | `yMatch[y]` becomes `x`, `xMatch[x]` becomes `y`, nothing else in the matching changes, and the former partner of `x` is returned |
| HungarianMethod.FlipStep | hungarian.cpp:189-196 | one iteration of the flip moves strictly down the discovery order (the rank of the parent falls), so the walk terminates, and it keeps the walk invariant for the next right vertex |
| HungarianMethod.WalkStep | hungarian.cpp:191-195 | matching `prev[y]` to `y` repairs the single hole in the inverse property at `y` and moves the hole to the right vertex that `prev[y]` used to be matched to, and to none once the root is reached |
| HungarianMethod.ChainedUnique | hungarian.cpp:189-196 | the path the flip walks is determined by its start, `prev` and the matching, so "flipped along the path" names exactly one new matching |
| HungarianMethod.Hungarian.MinDelta | hungarian.cpp:213-216 | `delta` is no larger than any recorded slack, visited or not, and is one of them, or infinite |
| HungarianMethod.Hungarian.MinBorderDelta | hungarian.cpp:213-216 | the corrected shift: `delta` is no larger than the recorded slack of any unvisited right vertex and is one of them, or infinite |
| HungarianMethod.Hungarian.BorderDeltaIsLeast | hungarian.cpp:213-226 | after a pass that found no path, the corrected shift bounds the slack of every edge from a visited left vertex to an unvisited right vertex, equals the slack of one of them, and is infinite exactly when every right vertex is visited |
| HungarianMethod.Hungarian.StaleDeltaExample | hungarian.cpp:213-216 | for the state reached on `[[0,0,2],[0,3,2],[0,3,1]]` after the second pass from left vertex 2, a genuine end of a pass, the least of all records is 1 while every edge leaving the tree has slack 2, which the corrected shift returns |
| HungarianMethod.Hungarian.PassBoundExample | hungarian.cpp:156-159 | on `[[1,5,0],[2,5,4],[0,5,2]]`, in the state where the search from left vertex 2 has spent its passes, an augmenting path over tight edges exists and flipping it gives a permutation whose weight is the label sum |
| HungarianMethod.Hungarian.Relabel | hungarian.cpp:223-226 | visited left labels drop by `d`, visited right labels rise by `d`, other labels stay; shifting by at most the least slack across the tree's border keeps the labels feasible and every matched edge tight |
| HungarianMethod.Hungarian.ShiftLabels | hungarian.cpp:223-226 | visited left labels drop by `d` and visited right labels rise by `d`, so each slack changes by `d` for each visited endpoint on the right and by `-d` for each on the left |

## Left out

- FindAugPathBFS: the model does not promise that the search succeeds, because the source as written can fail on inputs that have a perfect matching (see "## Findings"). Its contract states what holds either way.
- FindMaxWeightMatch: for that reason the model states what a successful run guarantees, and that a failed run returns the empty sequence. It does not state that a run succeeds.
- FindMaxWeightMatch: repeated calls are proved (`SolveTwice`) to reach the same total weight only when both calls succeed. The model does not pin down the pairs found, which among several optimal matchings depend on the order of the search.
- SolveTwice: neither the same pairs nor the same outcome is proved for the second call, only equal weight when both calls succeed. The source is deterministic and resets its state at each call, so it does return the same result twice, but stating that needs a functional definition of the whole search, which this model does not give.
- FindAugPathBFS: the model's search is the source's as written: it shifts by `MinDelta` and keeps the pass bound `t < size`. The corrected shift `MinBorderDelta` is modelled and proved on its own (see "## Findings"); a corrected search is not. Proving that `size + 1` passes suffice needs a completeness argument for the search, that each failed pass adds a vertex to the next tree, which this model does not make.
- FindAugPathBFS: the `delta == 0` exit (lines 217-219) is kept as written. Under feasible labels every recorded slack is positive, so it is never taken.
- Integer width: `T` is modelled as an unbounded `int`. Overflow of labels and slacks is not modelled. The `numeric_limits<T>::max()` sentinel becomes `Bounds.Infinite`, so a real slack equal to that maximum is not confused with "no slack".
- Only `T = int` is modelled; floating-point weights are left out.
- constructor: the input must have at least one row, and all rows must be as long as the first. The source reads `_w[0]` and indexes every row up to `_ysize` without checking.
- Extract: the comparison `xMatch[i] < _ysize` at line 85 mixes `int` and `size_t`, so -1 never passes it. The model writes that out as `0 <= xMatch[i] < ysize`.
- `dfs` and `findAugPathDFS` are not part of this model; the solver calls only the breadth-first search.
- `main` is not part of this model: it builds random input, times a run with the clock and prints.
- The weight matrix and the non-edge mask never change after construction, so they are immutable sequences rather than mutable vectors.

## Findings

| source | as written | input that shows it | evidently intended | confidence | as-written member | corrected member |
|---|---|---|---|---|---|---|
| hungarian.cpp:213-216 | `delta` is the least of all recorded slacks, including those of right vertices visited after their record was made | perfect mode, `[[0,0,2],[0,3,2],[0,3,1]]`: the second pass from left vertex 2 shifts by the stale 1 of right vertex 2, while every edge leaving the tree has slack 2, so no new edge becomes tight and the search gives up | the least slack over the unvisited right vertices only | not executed | HungarianMethod.Hungarian.StaleDeltaExample | HungarianMethod.Hungarian.BorderDeltaIsLeast |
| hungarian.cpp:158 | at most `size` passes per search | perfect mode, `[[1,5,0],[2,5,4],[0,5,2]]`: from left vertex 2 the passes shift by 1, 2 and 1, and the augmenting path 2-1, 1-0, 0-0 only appears on a fourth pass | `size + 1` passes, enough for the tree to take in every left vertex | not executed | HungarianMethod.Hungarian.PassBoundExample | none: the corrected bound needs a completeness proof of the search, listed under "## Left out" |
