# Connected-component labelling, modelled and verified in Dafny

This project models the connected-component labelling of `src/tpConnectedComponents.cpp`,
which covers four routines:

- **`parcoursCC`** fills one 4-connected component using an explicit stack.
- **`ccLabel`** scans the image row by row and starts a fill, with the next label, at each
  present pixel that is still unlabelled.
- **`ccAreaFilter`** labels the image and counts the pixels of each label in a map. It then
  copies the pixels whose component has at least `size` pixels into a zero image.
- **`ccLabel2pass`** works in two passes:
  - the first pass gives provisional labels and records merges in an equivalence table;
  - the second pass chases each label to its root and renumbers the roots 1, 2, ... in the
    order it first meets them;
  - a final copy moves the grid into the result.

A pixel is *present* when its value is non-zero. Two present pixels are *connected* when a
walk of present pixels joins them. The walk moves left, up, down or right; diagonal contact
does not connect. The model works with:

- images as `array2<real>`;
- label grids as `array2<int>`;
- the stack as a `seq<Cell>`;
- the `std::map`s (`compSizes`, `labelEquivalences`, `newLabels`) as Dafny `map`s that the
  methods reassign.

Connectivity itself is stated on ghost paths (`Connectivity`).

Both labellers are proved to produce the **canonical labelling** (`LabellingSpec.Canonical`):

- background pixels get 0;
- the present pixels labelled j+1 are exactly those connected to the j-th seed;
- each seed is the first pixel of its component in row-major order;
- the seeds come in row-major order.

This determines the label grid completely (`CanonicalUnique`). As written, the two-pass
labeller therefore numbers components exactly as the flood-fill labeller does, not merely
with the same partition: its second pass meets the roots in the order of the components'
first pixels. `Agreement.LabelsAgree` states this.

Termination of the root-chasing loops of `ccLabel2pass` is shown with a ghost rank on the
equivalence table (`Forest`). Each entry climbs strictly in rank. Linking root `a` below root
`b` raises `b` above `a`. Termination of `parcoursCC` is shown with a lexicographic measure:

- first, the number of fillable pixels not yet written;
- then, the number of stack entries whose pixel was already written. A pixel can be pushed
  twice, because the push-time test comes before the pop-time write.

## Model

| member | source | states |
|---|---|---|
| LabellingSpec.Present | src/tpConnectedComponents.cpp:28-29 | a pixel is present exactly when it lies in the grid and its value is non-zero (exact test, no tolerance) |
| LabellingSpec.CanonicalPartition | src/tpConnectedComponents.cpp:42-49 | in a canonical labelling a pixel is 0 iff its value is 0, and two present pixels share a label iff a 4-connected walk of present pixels joins them |
| LabellingSpec.CanonicalDense | src/tpConnectedComponents.cpp:38-46 | canonical labels lie in 0..K; every label 1..K is used; the first pixel with label k+1 is the k-th seed; seeds are strictly increasing in row-major order |
| LabellingSpec.CanonicalLabelCells | src/tpConnectedComponents.cpp:44-46 | the pixels carrying label j+1 are exactly the 4-connected component of the j-th seed |
| LabellingSpec.CanonicalCountsComponents | src/tpConnectedComponents.cpp:38-46 | the number of labels K equals the number of 4-connected components of the present pixels |
| LabellingSpec.CanonicalUnique | src/tpConnectedComponents.cpp:36-52 | two canonical labellings of the same image are equal pixel for pixel and have the same seeds |
| LabellingSpec.SeedsAreLeaders | src/tpConnectedComponents.cpp:42-46 | the seeds of a canonical labelling are exactly the leaders: present pixels that no pixel of their component precedes in row-major order |
| LabellingSpec.SortedUnique | src/tpConnectedComponents.cpp:42-46 | two row-major increasing seed sequences with the same elements are equal |
| LabellingSpec.CanonicalCopy | src/tpConnectedComponents.cpp:169-174 | a cell-by-cell copy of a canonical labelling is canonical |
| FloodFillLabelling.NeighboursAreAdjacent | src/tpConnectedComponents.cpp:40 | the four offsets of `voisins`, read as (x, y), reach exactly the 4-adjacent cells: left, up, down, right |
| FloodFillLabelling.Pushable | src/tpConnectedComponents.cpp:28-29 | the push-time test: the cell is in the grid, its value is non-zero and its label is still 0 |
| FloodFillLabelling.Unlabelled | src/tpConnectedComponents.cpp:28-29 | the set of cells passing the push test is exactly the present pixels whose label is still 0 |
| FloodFillLabelling.StaleFresh | src/tpConnectedComponents.cpp:26-31 | pushing only unwritten pixels leaves the count of stale stack entries unchanged |
| FloodFillLabelling.PopStep | src/tpConnectedComponents.cpp:21-31 | one pop, write and push keeps the exploration invariant (everything written or stacked is reachable; every fillable neighbour of a written pixel is written or stacked) and decreases the termination measure |
| FloodFillLabelling.PushNeighbours | src/tpConnectedComponents.cpp:26-31 | the old stack is kept as a prefix; at most 4 entries are pushed; the pushed cells are exactly the in-grid, present, still-0 neighbours of `r` |
| FloodFillLabelling.Visit | src/tpConnectedComponents.cpp:21-31 | one loop iteration: the top of the stack is popped and written; the rest of the stack is kept as a prefix, followed by at most 4 pushed cells that are exactly the in-grid, present, still-0 neighbours of the popped cell; the exploration and painting invariants are kept (written cells hold the label, the rest their old value) and the measure decreases |
| FloodFillLabelling.FloodFill | src/tpConnectedComponents.cpp:17-34 | on termination, a cell holds `label` iff a walk from `start` through present pixels that were 0 reaches it; every other cell keeps its old value |
| FloodFillLabelling.Explored | src/tpConnectedComponents.cpp:21-33 | when the stack is empty, the written cells are exactly those reachable from `start` |
| FloodFillLabelling.LabelOwner | src/tpConnectedComponents.cpp:42-49 | during the scan, a labelled cell is connected to the seed of its label |
| FloodFillLabelling.FreshComponent | src/tpConnectedComponents.cpp:44-46 | at a present unlabelled pixel, the fill region reaches exactly its component; no pixel of the component precedes it; no earlier seed reaches the component |
| FloodFillLabelling.ScanPixel | src/tpConnectedComponents.cpp:44-47 | one scan step keeps the scan invariant and adds the pixel as a seed iff it starts a new component |
| FloodFillLabelling.NewComponent | src/tpConnectedComponents.cpp:44-47 | filling a new component with the next label makes the pixel the next seed and keeps the scan invariant one pixel further |
| FloodFillLabelling.NextRow | src/tpConnectedComponents.cpp:42-43 | the scan state at the end of a row is the state at the start of the next row |
| FloodFillLabelling.ScanComplete | src/tpConnectedComponents.cpp:42-51 | after the last row the scan state is a canonical labelling |
| FloodFillLabelling.ScanRow | src/tpConnectedComponents.cpp:43-48 | one row of the scan moves the scan invariant to the next row |
| FloodFillLabelling.Label | src/tpConnectedComponents.cpp:36-52 | `ccLabel` returns a newly allocated grid of the image's shape that is 0 exactly on background pixels, gives two present pixels the same label iff they are connected, and is the canonical labelling |
| AreaFilter.CountOf | src/tpConnectedComponents.cpp:72 | the count `compSizes[label]` reads: the stored count, or 0 for a label without an entry |
| AreaFilter.CountedStep | src/tpConnectedComponents.cpp:70-73 | passing a pixel adds one to the count of its own label only |
| AreaFilter.CountRow | src/tpConnectedComponents.cpp:67-76 | after a row, the count of every positive label is the number of pixels with that label scanned so far |
| AreaFilter.CountSizes | src/tpConnectedComponents.cpp:64-78 | `compSizes` maps every positive label to its number of pixels (0 if unused) |
| AreaFilter.CopyRow | src/tpConnectedComponents.cpp:82-88 | after a row, exactly the scanned pixels with a positive label of count ≥ `size` hold the image value, the rest 0 |
| AreaFilter.CopyKept | src/tpConnectedComponents.cpp:79-90 | the copying pass over a zero image leaves exactly the kept pixels with their image value |
| AreaFilter.Keep | src/tpConnectedComponents.cpp:84 | the copy test: a positive label whose count is at least `size` |
| AreaFilter.KeepIff | src/tpConnectedComponents.cpp:84 | with a canonical labelling, the keep test holds iff the pixel is present and its component has at least `size` pixels |
| AreaFilter.CopyComplete | src/tpConnectedComponents.cpp:79-91 | after both passes the output is the filtered image |
| AreaFilter.Filter | src/tpConnectedComponents.cpp:57-92 | the output is newly allocated and has the image's shape; a pixel keeps its value iff it is present and its component has at least `size` pixels; every other pixel is 0 |
| AreaFilter.KeptComponent | src/tpConnectedComponents.cpp:57-92 | a pixel left by the filter has the same component in the output as in the input, of at least `size` pixels |
| AreaFilter.FilterSizeOne | src/tpConnectedComponents.cpp:57-92 | with `size` 1 the filter returns the image unchanged |
| AreaFilter.FilterCompose | src/tpConnectedComponents.cpp:57-92 | filtering by s1 and then by s2 equals filtering by max(s1, s2) |
| AreaFilter.FilterIdempotent | src/tpConnectedComponents.cpp:57-92 | filtering the output again with the same `size` changes nothing |
| Forest.Root | src/tpConnectedComponents.cpp:155-157 | chasing the table ends at a label that has no entry |
| Forest.FollowRank | src/tpConnectedComponents.cpp:129-135 | the rank never decreases along a chase |
| Forest.Acyclic | src/tpConnectedComponents.cpp:137-139 | the equivalence table has no cycle: a chase of one or more steps never returns to its start |
| Forest.RootWithin | src/tpConnectedComponents.cpp:129-135 | the root of a label in 1..n is in 1..n when the table is |
| Forest.Link | src/tpConnectedComponents.cpp:138 | the table with root `a` recorded as equivalent to root `b` |
| Forest.LinkRanked | src/tpConnectedComponents.cpp:137-139 | linking one root below a different root keeps the table a ranked forest within 1..n |
| Forest.LinkRoot | src/tpConnectedComponents.cpp:137-139 | after the link, labels rooted at `a` are rooted at `b`; every other label keeps its root |
| Forest.MergedJoins | src/tpConnectedComponents.cpp:126-139 | after a merge the two labels share a root, and labels that shared a root still do |
| Forest.CoarsensTrans | src/tpConnectedComponents.cpp:123-141 | two successive merges only join classes |
| Forest.JoinedRootsNext | src/tpConnectedComponents.cpp:123-124 | one more neighbouring label adds exactly its old root to the set of joined roots |
| Forest.JoinedIntoStep | src/tpConnectedComponents.cpp:123-141 | merging the next neighbouring label into `m` (nothing when it equals `m`) extends the join by exactly that label's class; every other label keeps its root |
| Forest.JoinedIntoCoarsens | src/tpConnectedComponents.cpp:123-141 | after the join every neighbouring label shares `m`'s root and no labels are separated |
| Forest.Resolve | src/tpConnectedComponents.cpp:129-131 | the chase loop terminates at the root of `k` |
| Forest.Union | src/tpConnectedComponents.cpp:126-139 | chase both labels and link distinct roots: the table stays a ranked forest within 1..n; `a`'s class joins `b`'s root, and nothing else moves |
| TwoPassLabelling.MinOf | src/tpConnectedComponents.cpp:122 | the result is in the list and no larger than any element |
| TwoPassLabelling.Grid | src/tpConnectedComponents.cpp:105 | the map holds the grid's contents cell by cell |
| TwoPassLabelling.Store | src/tpConnectedComponents.cpp:120 | a write to one cell updates the mirrored grid at that cell only |
| TwoPassLabelling.FreshLabelSound | src/tpConnectedComponents.cpp:118-120 | a fresh label is its own root; the table stays within 1..n+1 and sound |
| TwoPassLabelling.UnionSound | src/tpConnectedComponents.cpp:126-139 | merging labels whose first pixels are connected keeps every root class connected |
| TwoPassLabelling.MergeLabels | src/tpConnectedComponents.cpp:123-141 | the table stays a ranked, sound forest within 1..n; the classes of `m` and of every neighbouring label become one class whose root is one of their old roots; every other label keeps its old root |
| TwoPassLabelling.NbLabels | src/tpConnectedComponents.cpp:111-116 | the list pass 1 builds: the label of the left neighbour, then that of the upper one, each only when in the grid and non-zero |
| TwoPassLabelling.NeighbourLabels | src/tpConnectedComponents.cpp:111-116 | the list is exactly the left label then the upper label, each when in the grid and non-zero; at most two non-zero entries; the list holds the non-zero labels of the in-grid left and upper neighbours, and every labelled earlier neighbour is in it |
| TwoPassLabelling.NeighboursJoined | src/tpConnectedComponents.cpp:113-122 | the pixel is connected to the first pixel of the least neighbouring label, and through it to all of them |
| TwoPassLabelling.JoinReady | src/tpConnectedComponents.cpp:118-123 | the neighbouring labels are in 1..n and their first pixels are connected to that of their least label |
| TwoPassLabelling.ScannedStep | src/tpConnectedComponents.cpp:108-110 | after a pixel, exactly the present pixels scanned so far are labelled, with labels in 0..n |
| TwoPassLabelling.CompleteFresh | src/tpConnectedComponents.cpp:118-120 | a pixel without labelled neighbours can take a fresh label without breaking completeness (adjacent labelled pixels share a root) |
| TwoPassLabelling.CompleteJoin | src/tpConnectedComponents.cpp:122-141 | a pixel labelled `m` whose labelled neighbours share `m`'s root keeps the table complete |
| TwoPassLabelling.JoinedStep | src/tpConnectedComponents.cpp:120-122 | every labelled pixel stays connected to the first pixel of its label |
| TwoPassLabelling.JoinedFresh | src/tpConnectedComponents.cpp:119-120 | a new label extends the first pixels without disturbing older labels |
| TwoPassLabelling.SkipStep | src/tpConnectedComponents.cpp:110 | an absent pixel leaves the first-pass state unchanged |
| TwoPassLabelling.FreshStep | src/tpConnectedComponents.cpp:118-120 | a fresh label keeps the first-pass state, now covering one more pixel |
| TwoPassLabelling.JoinStep | src/tpConnectedComponents.cpp:121-141 | labelling with the least neighbouring label after the merges keeps the first-pass state |
| TwoPassLabelling.PassOneLabel | src/tpConnectedComponents.cpp:118-122 | the label pass 1 gives a present pixel: `labelCounter`+1 when no neighbour label was found, else their least |
| TwoPassLabelling.FirstPassPixel | src/tpConnectedComponents.cpp:110-143 | a background pixel changes nothing; a present one gets `labelCounter`+1 (the counter then grows by one, the table is unchanged) when its left and upper neighbours are unlabelled, else the least of their labels, with the classes of those labels joined and every other root kept; no other cell changes; the pass-1 invariant (ranked forest, labels within 1..labelCounter, exactly the scanned present pixels labelled, sound and complete roots) is kept |
| TwoPassLabelling.FreshPixel | src/tpConnectedComponents.cpp:118-120 | the fresh branch writes `labelCounter`+1 at the pixel only and keeps the pass-1 invariant with the pixel as the label's first pixel |
| TwoPassLabelling.JoinPixel | src/tpConnectedComponents.cpp:121-141 | the join branch writes the least neighbouring label at the pixel only, joins exactly the classes of the neighbouring labels, and keeps the pass-1 invariant |
| TwoPassLabelling.CoarsensRefl | src/tpConnectedComponents.cpp:110 | leaving the table alone joins no classes |
| TwoPassLabelling.NextRowState | src/tpConnectedComponents.cpp:108-109 | the pass-1 state at the end of a row is the state at the start of the next |
| TwoPassLabelling.FirstPassRow | src/tpConnectedComponents.cpp:109-144 | one row of pass 1 moves its invariant to the next row; cells of other rows keep their labels; every present pixel of the row holds the least neighbouring label, or a fresh label above the old counter of which it is the first pixel; every new label was given fresh in the row; the table only joins classes |
| TwoPassLabelling.NbLabelsFrame | src/tpConnectedComponents.cpp:113-116 | writing a cell does not change the neighbour list of any cell other than its right and lower neighbours |
| TwoPassLabelling.RowStep | src/tpConnectedComponents.cpp:110-122 | one pixel extends the pass-1 rule over its row by one column |
| TwoPassLabelling.RowJoinedStep | src/tpConnectedComponents.cpp:118-122 | after a present pixel, every present pixel of the row so far holds its least neighbouring label or a fresh label of which it is the first pixel |
| TwoPassLabelling.RowFreshStep | src/tpConnectedComponents.cpp:118-120 | after a present pixel, every label given in the row so far belongs to a pixel without labelled neighbours |
| TwoPassLabelling.RowProgressStep | src/tpConnectedComponents.cpp:109-144 | one pixel extends the row's progress: other rows kept, old first pixels kept, the rule holds one column further, classes only joined |
| TwoPassLabelling.RowOthers | src/tpConnectedComponents.cpp:120-122 | a write at (y, x) and a possible new first pixel leave the other rows and the older first pixels alone |
| TwoPassLabelling.FirstPassInit | src/tpConnectedComponents.cpp:104-106 | the zero grid, empty table and zero counter satisfy the pass-1 invariant |
| TwoPassLabelling.FirstPass | src/tpConnectedComponents.cpp:104-145 | after pass 1, exactly the present pixels are labelled, and two present pixels have labels with a common root iff they are connected |
| TwoPassLabelling.FirstPassPartition | src/tpConnectedComponents.cpp:108-145 | same root ⟺ connected, for all present pixels, from soundness and completeness |
| TwoPassLabelling.SameRootConnected | src/tpConnectedComponents.cpp:108-145 | labels with a common root belong to connected pixels |
| TwoPassLabelling.ConnectedSameRoot | src/tpConnectedComponents.cpp:108-145 | connected pixels have labels with a common root |
| TwoPassLabelling.SecondPassInit | src/tpConnectedComponents.cpp:148-149 | the empty `newLabels` and `newLabel` = 1 satisfy the pass-2 invariant |
| TwoPassLabelling.SecondSkip | src/tpConnectedComponents.cpp:152 | an unlabelled pixel leaves the pass-2 state unchanged |
| TwoPassLabelling.SecondSeen | src/tpConnectedComponents.cpp:164 | a pixel whose root was met before takes that root's number |
| TwoPassLabelling.SecondNew | src/tpConnectedComponents.cpp:159-164 | a root met for the first time gets the next number, and the pixel becomes its seed |
| TwoPassLabelling.NumberingNew | src/tpConnectedComponents.cpp:159-162 | numbering a new root next keeps `newLabels` a bijection from the roots met onto 1..K |
| TwoPassLabelling.SeedsNew | src/tpConnectedComponents.cpp:159-162 | the first pixel of a new root precedes every other pixel of that root |
| TwoPassLabelling.SecondNextRow | src/tpConnectedComponents.cpp:150-151 | the pass-2 state at the end of a row is the state at the start of the next |
| TwoPassLabelling.SecondPassPixel | src/tpConnectedComponents.cpp:152-165 | one pixel of pass 2 keeps its invariant: scanned pixels hold their root's number, the others their provisional label |
| TwoPassLabelling.SecondPassRow | src/tpConnectedComponents.cpp:151-166 | one row of pass 2 moves its invariant to the next row |
| TwoPassLabelling.SecondPassNumbers | src/tpConnectedComponents.cpp:150-167 | after pass 2, absent pixels are 0 and present pixels hold the 1-based position of their root in meeting order |
| TwoPassLabelling.SecondPassLabel | src/tpConnectedComponents.cpp:159-164 | a pixel holds j+1 iff its root is that of the j-th seed, which holds iff it is connected to that seed |
| TwoPassLabelling.SecondPassLabels | src/tpConnectedComponents.cpp:148-167 | after pass 2 the grid is canonical: 0 off the present pixels, 1..K on them, label j+1 iff connected to the j-th seed, seeds leading and increasing |
| TwoPassLabelling.TwoPassCanonical | src/tpConnectedComponents.cpp:150-167 | the grid facts after pass 2 make the label array a canonical labelling of the image |
| TwoPassLabelling.SecondPass | src/tpConnectedComponents.cpp:147-167 | pass 2 turns the pass-1 grid into a canonical labelling of the present pixels |
| TwoPassLabelling.CopyOut | src/tpConnectedComponents.cpp:169-174 | the result is newly allocated, has the grid's shape and holds the same value in every cell |
| TwoPassLabelling.LabelTwoPass | src/tpConnectedComponents.cpp:100-177 | `ccLabel2pass` returns a newly allocated grid of the image's shape that is 0 exactly on background pixels, gives two present pixels the same label iff they are connected, and is the canonical labelling |
| Agreement.LabelsAgree | src/tpConnectedComponents.cpp:36-52 | `ccLabel` and `ccLabel2pass` return grids of the same shape that are equal pixel for pixel |

## Left out

- OpenCV `Mat` and `Point` plumbing:
  - images are `array2<real>`; label grids and the result `Mat` are `array2<int>`;
  - `Point(x, y)` is read as (column, row).
- The element type of `ccAreaFilter`'s output is fixed to `real`. The source allocates it with the input's type (`image.type()`) and writes it with `at<float>`.
- Pixel values are `real`s. Only the exact test against 0 and the copy of the value are modelled; no floating-point arithmetic is involved.
- `int` overflow of the label counters and of the `compSizes` counts is not modelled: integers are unbounded. `label` and `newLabel` count components. `labelCounter` counts provisional labels, one per present pixel whose left and upper neighbours are unlabelled, which can far exceed the number of components. An image needing more than 2^31 - 1 of any of these is outside the model.
- FloodFill: requires `lbl != 0`. With label 0 a written pixel still passes the push test. As soon as the fill reaches two adjacent present pixels labelled 0, they push each other forever and `parcoursCC` does not terminate; an isolated start pixel ends after one pop. `ccLabel` only ever passes labels ≥ 1.
- FloodFill: the `voisins` parameter of `parcoursCC` is fixed to the four offsets `ccLabel` passes (`Neighbours`: left, up, down, right). Other neighbourhoods are not modelled.
- Filter: requires `size > 0`, the `assert` of `ccAreaFilter`. With `size <= 0` the `assert` aborts the program when assertions are compiled in. When they are compiled out (`NDEBUG`), the source computes the same result as with `size` 1.
- `compSizes[label]` inserts a 0 entry for a label it has not counted; the model reads such a label's count as 0 without inserting it. The map's contents are never observed otherwise.
- The stack and the neighbour lists are sequences: `std::stack` and `std::vector` storage and allocation are not modelled.
- The ghost rank of the equivalence table has no counterpart in the source. It only witnesses that the table is a forest.
- The other files of the repository (`src/tpConnectedComponents.h`, `src/tpHistogram.cpp`, `src/tpConvolution.cpp`, `src/tpGeometry.cpp`, `src/tpMorphology.cpp`) are not part of this model: they are declarations or floating-point image operations.
