# Advent of Code 2025 utilities and solvers, modelled in Dafny

This project models the computational core of an Advent of Code 2025 Rust
crate and proves what that core promises. The crate has two parts: a library
of small utilities and eleven daily solvers. Every model starts from data
that has already been parsed.

- **Library:**
  - `src/graph.rs`: Floyd–Warshall all-pairs shortest paths, and the bitmask
    dynamic program behind `shortest_hamiltonian_path`.
  - `src/lib.rs`: interval splitting and union, matrix transposition and
    rotation, Manhattan distance.
  - `src/direction.rs`: the `Direction` algebra.
  - `src/line_segment.rs`: axis-aligned segment intersection.
  - `src/grid.rs`: the cell accumulator of the `Grid` parsers.
  - `src/maps.rs`: `BiMap` and `IdMap`.
  - `src/allocations.rs`: the composition enumerator.
  - `src/nibble.rs`: the nibble splitter and the run filter.
  - `src/digits.rs`: the digit iterator.
- **Solvers:** the kernels of `src/bin/01.rs` to `src/bin/11.rs`:
  - a modular dial;
  - repeated digit blocks;
  - greedy battery selection;
  - paper-roll erosion;
  - interval merging;
  - column arithmetic;
  - beam splitting;
  - circuit joining;
  - rectilinear polygons;
  - indicator lights;
  - path counting in a device graph.

Each source file becomes one module: `Graph` with `FloydWarshall` and
`Hamiltonian`, then `Lib`, `Direction`, `LineSegment`, `Grid`, `Maps`,
`Allocations`, `Nibble`, `Digits`, and `Day01` to `Day11`. `Wrappers`
supplies `Option`, and `Seqs` the sequence helpers they share
(repetition-freeness, the set of items, the place of an item).

**How the source is modelled:**
- Rust structs and enums become datatypes.
- Vectors become sequences.
- Hash sets and maps become mathematical sets and maps.
- Methods that mutate their receiver become functions from the old state to
  the new one.
- Where the source loops imperatively, a method with loop invariants is
  proved equal to the functional definition (`FloydWarshall.FloydWarshall`,
  `Lib.RotateMut`, `Allocations.IncrementInPlace`, `Day10.PushLoop`).
- A panic in the source (`from_char` on an unknown character, `take_one` on
  zero or several cells, `Edge::new` on a diagonal, an out-of-range slice)
  becomes a precondition.
- Integer results use Rust's semantics where they differ from Dafny's:
  truncating `/` and `%` on `isize` in `Day01`, and saturating addition at
  `usize::MAX` in `Graph`.

**Each operation is paired with an independent statement of what it
computes:**
- a reference definition: paths for path counts, unit-by-unit turning for
  the dial, connected components for circuits;
- or an inverse: the round trips of `digits`, `nibbles`, `to_char` and
  `IdMap`;
- or an invariant the operation keeps.

A lemma connects the two for all inputs.

## Model

| member | source | states |
|---|---|---|
| Digits.Next | src/digits.rs:26-34 | `next` yields nothing exactly when the number is exhausted; otherwise a digit below the base, and the number equals the remaining part times the base plus that digit |
| Digits.DigitsOfZero | src/digits.rs:26-28 | zero yields no digits at all |
| Digits.DigitsRoundTrip | src/digits.rs:26-42 | every digit `digits(n, base)` yields is below the base, the most significant is non-zero, and reading them back gives `n` |
| Digits.FromDigitsRoundTrip | src/digits.rs:26-42 | conversely every canonical digit sequence is what `digits` yields for the number it denotes |
| Digits.FromDigitsPositive | src/digits.rs:26-34 | a canonical non-empty digit sequence denotes a positive number, so the iterator's stop condition is reached exactly at the end |
| Nibble.NibblesNext | src/nibble.rs:24-36 | `next` stops exactly when the index passes the last byte, otherwise yields a value below 16 and advances the index by one |
| Nibble.DrainShape | src/nibble.rs:24-36 | draining from any index yields the remaining nibbles, high nibble for even and low for odd indices |
| Nibble.NibblesLayout | src/nibble.rs:7-36 | `nibbles` yields two values below 16 per byte: the byte's high nibble, then its low nibble |
| Nibble.NibblesRoundTrip | src/nibble.rs:7-36 | gluing each yielded pair back into one byte restores the input bytes |
| Nibble.RunLength | src/nibble.rs:61-66 | the inner loop counts the maximal run of equal items at the front: at least one, all equal to the first, and the next item differs |
| Nibble.RunsDecompose | src/nibble.rs:57-72 | the runs the iterator walks cover the input exactly, each non-empty, adjacent runs of different values |
| Nibble.RepeatedIsRunFilter | src/nibble.rs:57-72 | `repeated(n)` yields the value of each maximal run of length at least `n`, in order, and nothing else |
| Nibble.RepeatedNoLonger | src/nibble.rs:57-72 | it never yields more items than it consumes |
| Nibble.RepeatedOneIsDedup | src/nibble.rs:57-72 | `repeated(1)` equals the reference that drops every item equal to its predecessor |
| Nibble.RepeatedOneHasNoAdjacentDuplicates | src/nibble.rs:57-72 | no two adjacent items of `repeated(1)` are equal |
| Direction.PosAdd | src/direction.rs:21-23 | `pos_add` translates the first position by the second: the result minus `p1` is `p2`, component-wise |
| Direction.FromChar | src/direction.rs:42-50 | each of the four directions is decoded from exactly its three characters (`^`/`N`/`U` and so on); every other character panics, a precondition here |
| Direction.CharRoundTrips | src/direction.rs:42-77 | `to_char`, `to_char_udlr` and `to_char_nswe` each produce a character `from_char` accepts and maps back to the same direction |
| Direction.ToCharInjective | src/direction.rs:52-77 | each of the three encodings is injective |
| Direction.ForwardNFrom | src/direction.rs:83-90 | north and south move only `y`, west and east only `x`, by exactly `n` |
| Direction.TurnAlgebra | src/direction.rs:92-108 | left and right turns undo each other, four of either are the identity, and no turn is a fixed point |
| Direction.InvertAlgebra | src/direction.rs:110-117 | `invert` is an involution without fixed points and equals two turns either way |
| Direction.ForwardThenBack | src/direction.rs:79-117 | stepping `n` forward then `n` along the inverse returns to the start; moving `n` forward is moving `-n` along the inverse |
| Direction.AddSubCancel | src/direction.rs:120-134 | `d + &(d - &p) == p` and `d - &(d + &p) == p` |
| Direction.Row | src/direction.rs:18 | one row of the grid: the positions `(x, y)` for `0 <= x < m`, in order |
| Direction.PosInGridLayout | src/direction.rs:15-19 | `pos_in_grid(m, n)` yields `m * n` positions in row-major order: `(x, y)` sits at index `y * m + x` |
| Direction.PosInGridMembers | src/direction.rs:15-19 | a position is yielded exactly when `0 <= x < m` and `0 <= y < n` |
| LineSegment.RangeInclusive | src/line_segment.rs:78 | `k1..=k2` holds `k2 - k1 + 1` consecutive values from `k1`, and none when `k1 > k2` |
| LineSegment.Overlap | src/line_segment.rs:69-79 | `overlap` yields exactly the values that lie between both pairs of ends, whatever order each pair is given in |
| LineSegment.Intersect | src/line_segment.rs:25-30 | `intersect` is `None` exactly when there are no intersections and otherwise the only one; more than one panics, a precondition here |
| LineSegment.IntersectionsAreCommonPoints | src/line_segment.rs:32-79 | for axis-aligned segments, `intersections` yields exactly the points that lie on both segments |
| LineSegment.IntersectionsOrdered | src/line_segment.rs:32-79 | it yields each point once, consecutive points one step apart along the shared line, and at most one point for a vertical and a horizontal segment |
| LineSegment.IntersectionsSymmetric | src/line_segment.rs:32-66 | the intersections of `a` with `b` are those of `b` with `a`, in the same order |
| LineSegment.IntersectionsIgnoreEndpointOrder | src/line_segment.rs:32-79 | swapping a segment's two ends does not change the intersections |
| LineSegment.LenCountsPoints | src/line_segment.rs:20-23 | an axis-aligned segment holds `len() + 1` points, its Manhattan length plus one |
| LineSegment.OrthogonalPoint | src/line_segment.rs:40-51 | a vertical and a horizontal segment meet in the single point `(v.x, h.y)` when each spans the other's line, and nowhere otherwise |
| Lib.ManhattanDistance | src/lib.rs:163-175 | the distance is the sum of the absolute coordinate differences, whichever point is larger |
| Lib.ManhattanIsMetric | src/lib.rs:163-175 | the distance is symmetric, non-negative, zero exactly on equal points, and obeys the triangle inequality |
| Lib.NameToDigitExact | src/lib.rs:38-52 | exactly the ten English digit names are recognised, each as its own value; every other string gives `None` |
| Lib.RangeSplit1 | src/lib.rs:81-112 | `range_split1` cuts `x` into one to three pieces that chain from `x.0` to `x.1`, each inside `y` or disjoint from it, all proper when the inputs are |
| Lib.ChainTiles | src/lib.rs:81-112 | a chain of proper pieces from `a` to `b` covers exactly `[a, b)` and has total length `b - a` |
| Lib.RangeSplit1Tiles | src/lib.rs:81-112 | splitting a proper range covers the same points with the same total length |
| Lib.RangeSplit1Within | src/lib.rs:81-112 | every piece lies inside the range it came from |
| Lib.SplitAllShape | src/lib.rs:74 | splitting every range by one `y` keeps them proper and the total length, and aligns every piece with `y` |
| Lib.SplitAllCovers | src/lib.rs:74 | splitting every range by one `y` covers the same points |
| Lib.SplitAllKeepsAlignment | src/lib.rs:74 | a piece aligned with an earlier `y` stays aligned when cut further |
| Lib.RangeSplitTiles | src/lib.rs:68-77 | `range_split` covers the same points with the same total length, and every piece is inside or disjoint from every `y` |
| Lib.KeepsAlignment | src/lib.rs:68-77 | further splits keep every piece aligned with the `y`s already applied |
| Lib.RangeOverlap1Meaning | src/lib.rs:114-118 | `range_overlap1` is symmetric and, for proper half-open ranges, holds exactly when some point lies in both |
| Lib.SortByStart | src/lib.rs:124 | the sort keeps the multiset of ranges and orders them by start |
| Lib.InsertByStart | src/lib.rs:124 | one insertion step of the sort adds exactly the inserted range to the multiset |
| Lib.InsertByStartSorted | src/lib.rs:124 | inserting into a start-sorted list keeps it sorted |
| Lib.Extend | src/lib.rs:131-134 | the inner loop only moves forward, never lowers the end, stops at a range that starts more than one past the end, and absorbs at least one range when the next one touches |
| Lib.ExtendCovers | src/lib.rs:128-135 | one merged group `(s, e)` covers exactly the points its absorbed ranges cover |
| Lib.InvertedRangeStalls | src/lib.rs:128-135 | on a group's first range that starts more than one past its end the inner loop absorbs nothing and the index does not advance, so the iterator repeats that range forever |
| Lib.AdvancesGroups | src/lib.rs:128-135 | when no range is inverted, no group starts with an inverted range, so the iterator ends |
| Lib.AdvancesRangeUnion | src/lib.rs:120-140 | input without inverted ranges always lets `range_union` end |
| Lib.AbsorbedInvertedRange | src/lib.rs:128-135 | an inverted range absorbed into a wider one does no harm: `[(0, 10), (5, 2)]` merges to `[(0, 10)]` and the iterator ends |
| Lib.EqualStartsEnd | src/lib.rs:124-135 | the stable sort keeps `(5, 10)` before `(5, 2)`, so `(5, 2)` is absorbed and the iterator ends |
| Lib.EqualStartsStall | src/lib.rs:124-135 | the stable sort keeps `(5, 2)` before `(5, 10)`, so `(5, 2)` starts a group and the iterator never ends |
| Lib.UnionFromCorrect | src/lib.rs:126-139 | whenever the iterator from index `i` ends, it covers what the remaining sorted ranges cover, its ranges are separated by a gap, and it yields no more ranges than remain |
| Lib.RangeUnionCorrect | src/lib.rs:120-140 | whenever `range_union` ends, it covers exactly the points of its inclusive input ranges, yields ranges separated by at least one uncovered integer, and never more ranges than it was given |
| Lib.TransposeShape | src/lib.rs:143-149 | the dimensions swap and entry `(row, col)` moves to `(col, row)` |
| Lib.TransposeInvolution | src/lib.rs:143-149 | transposing a rectangular matrix with at least one column twice restores it |
| Lib.Lines | src/lib.rs:153 | no line `str::lines` yields holds a newline |
| Lib.FirstNewline | src/lib.rs:153 | the scan for the end of a line stops at the first newline, or at the end of the text |
| Lib.LinesOfJoin | src/lib.rs:153-159 | splitting lines that were joined with newlines gives them back, when none holds a newline and the last is non-empty |
| Lib.TransposeText | src/lib.rs:151-160 | the lines of `transpose_text(s)` are the transpose of the lines of `s` |
| Lib.Rotated | src/lib.rs:177-203 | the quarter turn of a square matrix is again square and of the same size |
| Lib.RotatedIsReversedTranspose | src/lib.rs:177-189 | a quarter turn is the transpose with each row read backwards |
| Lib.RotatedFourTimes | src/lib.rs:177-189 | four quarter turns are the identity |
| Lib.Rotate | src/lib.rs:177-189 | `rotate` puts row `i` of the input into column `n-1-i` of a square result filled with `data[0][0]` where a row is short |
| Lib.RotateOfSquare | src/lib.rs:177-189 | on a square matrix `rotate` is exactly the quarter turn |
| Lib.StepCells | src/lib.rs:194-201 | step `(i, j)` of `rotate_mut` touches exactly four cells: those of ring `i` in slot `j` |
| Lib.SlotBound | src/lib.rs:194-195 | every cell of a turned ring is moved by a step inside the loop bounds |
| Lib.CentreFixed | src/lib.rs:194 | only the centre of an odd-sized matrix is left out of every ring |
| Lib.RotateStep | src/lib.rs:196-200 | one four-way swap moves each of its four cells a quarter turn and leaves the others alone |
| Lib.StepAdvances | src/lib.rs:195-201 | after a step the cells turned so far include that step's four cells |
| Lib.RotateMut | src/lib.rs:191-203 | the in-place rotation yields exactly the quarter turn of a square matrix |
| Grid.Update | src/grid.rs:46-48 | `update` adds `pos` to the set of `c`, creating it when missing, and changes no other character's set nor the bounds |
| Grid.UpdateBounds | src/grid.rs:50-57 | each coordinate of the bounds becomes the larger of the old bound and the position's coordinate; the cells are untouched |
| Grid.UpdateBoundsIdempotent | src/grid.rs:50-57 | covering the same position twice changes nothing the second time |
| Grid.TakeAll | src/grid.rs:59-61 | `take_all` returns the positions of `c` (empty when missing) and removes `c`, leaving the other characters and the bounds |
| Grid.TakeAllTwice | src/grid.rs:59-61 | a second `take_all` of the same character finds nothing and changes nothing |
| Grid.TakeOne | src/grid.rs:63-77 | `take_one` returns the only position of `c` and removes `c`; a missing character or one with several positions panics, a precondition here |
| Grid.SeenAtStep | src/grid.rs:94-101 | scanning one more cell adds its position to the set of its character, if it holds one |
| Grid.SeenAtNextRow | src/grid.rs:94-101 | the end of a row is the start of the next |
| Grid.SeenAtAll | src/grid.rs:94-102 | the full scan sees every cell of the input |
| Grid.Accumulate | src/grid.rs:92-104 | `grid` records a position under `c` exactly when that cell holds `c`, and its bounds are the largest column and row index scanned |
| Grid.Kept | src/grid.rs:107-119 | `grid_of` ignores the first character of `chars`: a cell is kept exactly when its index is positive, as the character at that index |
| Grid.GridOf | src/grid.rs:107-123 | `grid_of` records a position under `c` exactly when its cell's index is positive and names `c`, and its bounds cover every cell |
| Maps.EmptyBiMap | src/maps.rs:13-18 | a new `BiMap` has length zero and is empty |
| Maps.ContainsKey | src/maps.rs:25-27 | `contains_key` holds exactly when `get` finds a value |
| Maps.ContainsValue | src/maps.rs:29-31 | `contains_value` holds exactly when `iget` finds a key |
| Maps.IsEmpty | src/maps.rs:49-51 | `is_empty` holds exactly when `len` is zero |
| Maps.Insert | src/maps.rs:20-23 | `insert` returns the key's previous value, binds the key to the value in both directions, changes no other key or value, and grows `len` by one exactly when the key is new |
| Maps.InsertFreshConsistent | src/maps.rs:20-23 | inserting a pair whose key and value are both new keeps the two directions inverse to each other |
| Maps.InsertLeavesStaleInverse | src/maps.rs:20-23 | re-binding a key leaves its old value pointing back at it, so the two directions no longer agree |
| Maps.EmptyIdMap | src/maps.rs:64-66 | a new `IdMap` is consistent and has no ids |
| Maps.Ids | src/maps.rs:82-84 | `ids` is the range `0..len` |
| Maps.Id | src/maps.rs:68-76 | `id` returns a known key's id without change; a new key gets the next id `len`; either way `key` maps the id back to the key and no other id moves |
| Maps.IdOfKey | src/maps.rs:68-84 | every id in `ids` names a key, and asking that key's id gives it back without change |
| Maps.IdsInjective | src/maps.rs:68-76 | two keys with the same id are the same key |
| Allocations.New | src/allocations.rs:28-37 | `new` puts the whole total in the first of `n` slots, zeros elsewhere, and is not done |
| Allocations.Loop | src/allocations.rs:44-55 | the carrying loop of `increment` keeps the number of slots and the sum of the allocation |
| Allocations.Increment | src/allocations.rs:39-56 | `increment` keeps the slot count and the sum, and changes nothing once done |
| Allocations.IncrementInPlace | src/allocations.rs:39-56 | the in-place loop with its early return computes the same state as the functional `increment` |
| Allocations.Next | src/allocations.rs:65-72 | `next` yields the current allocation exactly while not done, then advances; once done it yields nothing and stays put |
| Allocations.DoneStaysDone | src/allocations.rs:65-68 | a finished iterator yields nothing for ever |
| Allocations.AllocsMembers | src/allocations.rs:4-12 | the reference list holds exactly the allocations of `total` to `n` slots |
| Allocations.AllocsDistinct | src/allocations.rs:4-12 | the reference list holds no allocation twice |
| Allocations.LoopExtends | src/allocations.rs:44-55 | an extra last slot is carried untouched while the loop works on the earlier ones, and is reached only when they are exhausted |
| Allocations.LoopOverLast | src/allocations.rs:44-55 | from everything in the last slot, the sweep gathers everything back into the first slot and finishes |
| Allocations.GroupBoundary | src/allocations.rs:44-55 | from the last allocation with `last` in the final slot, one increment moves to the first allocation with `last + 1` there, or finishes when `last` is the total |
| Allocations.AllocsLinked | src/allocations.rs:39-56 | the reference list starts with everything in the first slot, ends with everything in the last, and each entry increments to the next |
| Allocations.CollectLinked | src/allocations.rs:65-72 | an iterator standing at the head of an increment-linked list yields exactly that list |
| Allocations.EnumeratesAll | src/allocations.rs:75-80 | `allocations(n, total)` yields every allocation of `total` to `n` slots exactly once, from `[total, 0, ..]` to `[.., 0, total]` |
| Graph.SatAdd | src/graph.rs:93 | `saturating_add` is the exact sum below `usize::MAX` and `usize::MAX` from there on |
| Graph.SatAddLaws | src/graph.rs:93 | saturating addition is commutative and associative on weights, has 0 as identity, and never decreases its first argument |
| Graph.Dist | src/graph.rs:76-87 | the initial table: 0 on the diagonal, the edge weight where an edge exists, `usize::MAX` elsewhere |
| Graph.WalkCostSnoc | src/graph.rs:76-87 | extending a walk by one node adds the weight of that step |
| Graph.WalkCostGlue | src/graph.rs:76-87 | gluing two walks that meet adds their costs |
| FloydWarshall.D | src/graph.rs:89-99 | every entry after any number of rounds is at most `usize::MAX` |
| FloydWarshall.DStep | src/graph.rs:92-96 | round `k` replaces an entry by the saturated sum through `k` exactly when that is strictly smaller |
| FloydWarshall.DShrinks | src/graph.rs:93-96 | relaxation only ever lowers entries, so every entry stays at most its initial value, and the diagonal stays 0 |
| FloydWarshall.RoundKeepsPivot | src/graph.rs:90-98 | round `k` leaves row `k` and column `k` unchanged, which is why updating the table in place is sound |
| FloydWarshall.Init | src/graph.rs:76-87 | the initialisation loop fills the table with the initial distances |
| FloydWarshall.RelaxCell | src/graph.rs:93-96 | relaxing one cell advances exactly that cell to the next round |
| FloydWarshall.RelaxRow | src/graph.rs:92-97 | one pass of the `j` loop advances row `i` to the next round and leaves the other rows |
| FloydWarshall.FloydWarshall | src/graph.rs:65-102 | the in-place triple loop computes the table after all `n` rounds |
| FloydWarshall.TriangleBelow | src/graph.rs:89-99 | a round preserves the triangle inequality through every earlier pivot |
| FloydWarshall.TrianglePivot | src/graph.rs:93-96 | after round `p` no path through `p` is shorter than the entry |
| FloydWarshall.Triangle | src/graph.rs:89-99 | after `k` rounds, `d[i][j] <= sat_add(d[i][m], d[m][j])` for every `m < k` |
| FloydWarshall.TriangleFinal | src/graph.rs:89-101 | the final table satisfies the triangle inequality through every node |
| FloydWarshall.Witness | src/graph.rs:89-99 | every finite entry after `k` rounds is the cost of a walk from `i` to `j` through nodes below `k` |
| FloydWarshall.WitnessPivot | src/graph.rs:93-96 | an improvement through the pivot is the cost of the glued walk through it |
| FloydWarshall.FinalIsLowerBound | src/graph.rs:65-102 | no walk from `i` to `j` costs less than the final entry |
| FloydWarshall.ShortestWalks | src/graph.rs:65-102 | each returned entry is the cost of a cheapest walk, and is `usize::MAX` exactly when every walk costs at least that |
| FloydWarshall.FinalBelowInitial | src/graph.rs:76-99 | every final entry is at most its initial value and the diagonal is 0 |
| Hamiltonian.Nodes | src/graph.rs:201 | the full mask holds exactly the `n` nodes |
| Hamiltonian.Dp | src/graph.rs:147-199 | every recorded state `(mask, v)` has `start` and `v` in the mask and a cost below `usize::MAX` |
| Hamiltonian.Scan | src/graph.rs:169-190 | the inner loop finds the smallest finite candidate cost over the predecessors, skipping absent entries and missing edges, and on ties keeps the first `u` |
| Hamiltonian.DpParent | src/graph.rs:177-197 | every entry other than the seed records a parent in the mask, joined by an edge, whose entry plus the edge gives the cost; no earlier node is as cheap |
| Hamiltonian.DpSeed | src/graph.rs:150 | the seed `({start}, start)` costs 0 and has no parent |
| Hamiltonian.DpNeverReturns | src/graph.rs:160-167 | no state other than the seed ends back at `start` |
| Hamiltonian.Walk | src/graph.rs:228-247 | the reconstruction, once reversed, ends at the node it started from |
| Hamiltonian.DpSound | src/graph.rs:147-199 | each entry is the cost of the simple path from `start` through exactly its mask that the parents spell out |
| Hamiltonian.DpOptimal | src/graph.rs:147-199 | no simple path through a mask ending at `v` costs less than the entry for `(mask, v)`, and a finite one makes the entry present |
| Hamiltonian.FinalScan | src/graph.rs:201-222 | the final loop's minimum never exceeds the initial bound; when something beats the bound, the reported end node's total is exactly that minimum, otherwise the previous node is kept |
| Hamiltonian.FinalScanBelow | src/graph.rs:201-222 | no end node's total (closing edge included when the tour must return) is below the final loop's minimum |
| Hamiltonian.ShortestHamiltonianPath | src/graph.rs:104-134 | no nodes give `None`; one node gives `([start], 0)` exactly when it is `start`; a `start` that is not a node gives `None`; any answer has a finite cost |
| Hamiltonian.HamiltonianIsFullPath | src/graph.rs:201-226 | a visit of every node once is a simple path through the full mask |
| Hamiltonian.FullPathIsHamiltonian | src/graph.rs:201-226 | a simple path through the full mask visits every node exactly once |
| Hamiltonian.FinishSound | src/graph.rs:205-222 | a finite total for an end node is the cost of the reconstructed route, which visits every node once, with an edge back to `start` when required |
| Hamiltonian.FinishOptimal | src/graph.rs:205-222 | every visit of all nodes is matched or beaten by the total of its end node |
| Hamiltonian.StepsAreEdges | src/graph.rs:136-145 | every step of a finite-cost walk between different nodes is an edge of the graph |
| Hamiltonian.RouteFacts | src/graph.rs:228-254 | the reported route has `n` nodes (plus `start` again when closing), visits each once, and its cost is the total |
| Hamiltonian.FinalScanOptimal | src/graph.rs:201-222 | the final minimum is at most the cost of every visit of all nodes |
| Hamiltonian.ShortestHamiltonianPathNone | src/graph.rs:224-226 | with two or more nodes the answer is `None` exactly when every candidate costs at least `usize::MAX` |
| Hamiltonian.ShortestHamiltonianPathSome | src/graph.rs:104-255 | otherwise the path starts at `start`, visits every node once (then returns to `start` when required) along edges of the graph, costs what is reported, and no candidate is cheaper |
| Day01.NewDial | src/bin/01.rs:36-41 | a new dial rests at 50, inside 0..99, with no clicks counted |
| Day01.Rem | src/bin/01.rs:62-66 | Rust's `%` on `isize`: dividend = truncated quotient times divisor plus remainder, the remainder strictly inside (-divisor, divisor) and equal to the mathematical remainder for non-negative dividends |
| Day01.Normalise | src/bin/01.rs:50-53 | adding 100 while negative and then taking `%` leaves the position in 0..99, congruent to the raw value modulo 100 |
| Day01.Rotate1 | src/bin/01.rs:43-58 | `rotate1` moves the dial to the old position plus the signed amount modulo 100 and counts one click exactly when it stops on 0 |
| Day01.Rotate2Position | src/bin/01.rs:60-77 | for a non-negative amount, `rotate2` leaves the dial where `rotate1` would |
| Day01.UnitClicksRight | src/bin/01.rs:60-77 | turning right by k one click at a time passes 0 once for every multiple of 100 in (v, v + k] |
| Day01.UnitClicksLeft | src/bin/01.rs:60-77 | turning left by k one click at a time passes 0 once for every multiple of 100 in [v - k, v) |
| Day01.Rotate2CountsZeroes | src/bin/01.rs:60-77 | from a dial in range, the clicks `rotate2` adds (whole turns plus the partial-turn test) are exactly the times the dial points at 0 when turned one click at a time |
| Day01.RunOne | src/bin/01.rs:8-14 | running the rotations keeps an in-range dial in range and never lowers the count |
| Day01.PartOneCountsStops | src/bin/01.rs:8-14 | `part_one` counts the rotations that stop at 0, and ends at the start position plus the net rotation modulo 100 |
| Day01.PartTwoCountsPasses | src/bin/01.rs:16-22 | `part_two` counts every single click that lands on 0, over all rotations, and ends where `part_one` ends |
| Day01.PartTwoAtLeastPartOne | src/bin/01.rs:8-22 | with positive amounts, every stop on 0 is also a click on 0, so part two is never below part one |
| Day02.SplitsIsRepetition | src/bin/02.rs:37-39 | the `all` over neighbouring blocks holds exactly when the digits are one block written out `repeats` times |
| Day02.AnyRepeatsIff | src/bin/02.rs:36-40 | the `any` over repeat counts holds exactly when some count in the range splits the digits into equal blocks |
| Day02.IsValidMeaning | src/bin/02.rs:34-41 | `_is_valid(n, k)` holds exactly when n's decimal digits are one block repeated r times for some 2 <= r <= k |
| Day02.SingleDigitsInvalid | src/bin/02.rs:34-41 | numbers below 10 (zero included) are never invalid IDs |
| Day02.ValidReversed | src/bin/02.rs:35 | reading the digits least-significant first, as `digits` yields them, gives the same verdict as reading them in print order |
| Day02.ValidMonotone | src/bin/02.rs:34-41 | raising the repeat bound never rejects a number that was accepted |
| Day02.Only2ImpliesAny | src/bin/02.rs:26-32 | every number `is_valid_only2` accepts, `is_valid_any` accepts |
| Day02.PartOneAtMostPartTwo | src/bin/02.rs:8-24 | over the same ranges, part one's sum never exceeds part two's |
| Day02.SumValidSplit | src/bin/02.rs:12 | the filtered sum over `a..=b` splits at any point inside the range |
| Day03.MaxAt | src/bin/03.rs:27-30 | the window maximum is found at a position inside the window |
| Day03.MaxAtIsMax | src/bin/03.rs:27-30 | no digit of the window exceeds it |
| Day03.FirstIndex | src/bin/03.rs:31 | `position` finds an index holding the digit, at or before any known occurrence |
| Day03.FirstIndexIsFirst | src/bin/03.rs:31 | no earlier index of the remaining bank holds that digit |
| Day03.Picks | src/bin/03.rs:25-35 | the greedy choice picks exactly `turn_on` strictly increasing positions of the bank |
| Day03.JoltageFromPicks | src/bin/03.rs:25-35 | the fold `num * 10 + d` computes the decimal value of the picked digits, in bank order |
| Day03.JoltageIsSubsequence | src/bin/03.rs:25-35 | `joltage` is the value of `turn_on` digits of the bank taken in order |
| Day03.PicksAreLargest | src/bin/03.rs:25-35 | no other choice of the same number of positions, in order, forms a larger number than the greedy one |
| Day03.JoltageIsLargest | src/bin/03.rs:25-35 | `joltage` is the largest number formed by `turn_on` digits of the bank kept in order, and it has at most `turn_on` digits |
| Day03.ValueBound | src/bin/03.rs:33 | a sequence of decimal digits read as a number stays below 10 to the power of its length |
| Day03.TotalJoltageAppend | src/bin/03.rs:16-23 | the total over two lists of banks is the sum of their totals |
| Day04.DeltasAreAdjacent | src/bin/04.rs:46-51 | the eight offsets `DELTA x DELTA` minus (0, 0) reach exactly the king-move neighbours of a position |
| Day04.CountUpToIsCard | src/bin/04.rs:45-54 | the `flat_map`/`filter`/`count` over the offsets counts exactly the rolls among the neighbours scanned so far |
| Day04.NeighbourCountIsAdjacentRolls | src/bin/04.rs:45-54 | `is_roll_liftable` compares with 4 the number of rolls adjacent to the position |
| Day04.LiftableStays | src/bin/04.rs:45-54 | removing rolls never makes a liftable roll unliftable |
| Day04.Liftable | src/bin/04.rs:57-59 | `liftable` yields exactly the rolls with fewer than four adjacent rolls |
| Day04.LiftableAroundMembers | src/bin/04.rs:61-71 | `liftable_around` yields exactly the adjacent positions that hold a liftable roll |
| Day04.Enqueue | src/bin/04.rs:22-26 | `seen.insert` lets each position into the queue at most once: the queue stays duplicate-free inside `seen`, and gains exactly the new unseen positions |
| Day04.PartTwo | src/bin/04.rs:15-29 | the loop ends with the largest subset of the rolls in which no roll is liftable: every such subset lies inside it; `seen.len()` is the number of rolls removed, so it is determined by the input, and at least the count part one reports |
| Day04.SubsetCard | src/bin/04.rs:28 | a subset is never larger than its superset, which bounds part one by part two |
| Day05.MergeStep | src/bin/05.rs:26-30 | one fold step either extends the last merged range or pushes a new one, never leaving the list empty |
| Day05.MergeStepCovers | src/bin/05.rs:26-30 | after one step an ID is covered exactly when it was covered before or lies in the new range |
| Day05.MergeFoldCorrect | src/bin/05.rs:25-31 | folding start-sorted ranges keeps the merged list separated and covers exactly the IDs of the merged list and the folded ranges |
| Day05.MergeRangesCorrect | src/bin/05.rs:23-32 | `merge_ranges` returns start-sorted, pairwise separated ranges, no more than it was given, covering exactly the IDs the input covers |
| Day05.SortedSame | src/bin/05.rs:24 | sorting by start changes no range and no covered ID |
| Day05.AllIds | src/bin/05.rs:13 | the set of IDs that some inclusive range contains |
| Day05.IdsCount | src/bin/05.rs:20 | an inclusive range `s..=e` holds `e - s + 1` IDs |
| Day05.SizeSumCounts | src/bin/05.rs:20 | over separated ranges the summed sizes count every covered ID exactly once |
| Day05.PartTwoCountsIds | src/bin/05.rs:18-21 | `part_two` is the number of distinct IDs the input ranges cover, overlaps and adjacency included |
| Day05.PartOne | src/bin/05.rs:8-16 | part one counts at most every ingredient |
| Day05.PartOneOnMerged | src/bin/05.rs:8-32 | counting fresh ingredients against the merged ranges gives the same answer as against the raw ranges |
| Day06.MaxLen | src/bin/06.rs:56 | the width is the length of some longest line, and 0 when there are no lines |
| Day06.Resize | src/bin/06.rs:61 | `resize(width, ' ')` keeps the line's characters that fit and fills the rest with spaces, to exactly `width` |
| Day06.PadLines | src/bin/06.rs:54-65 | `pad_lines` keeps one row per line, all as wide as the longest line |
| Day06.PadLinesKeepsLines | src/bin/06.rs:54-65 | every padded row starts with its line and continues with spaces only; some row is its line unchanged |
| Day06.DigitChars | src/bin/06.rs:68 | the filter keeps only ASCII digits, and keeps none exactly when the string has none |
| Day06.ParseNumber | src/bin/06.rs:67-74 | `parse_number` is `None` exactly when the column has no digit |
| Day06.ParseNumberShow | src/bin/06.rs:67-74 | reading back a number's decimal digits gives the number |
| Day06.ParseNumberIgnoresOthers | src/bin/06.rs:67-74 | spaces and operators above or below a number's digits do not change the number read |
| Day06.FindOperator | src/bin/06.rs:76-78 | `find_operator` is `None` exactly when the column has no `+` or `*`; otherwise it is the first of them |
| Day06.BlankColumnIsEmpty | src/bin/06.rs:37-39 | a column of whitespace holds neither a number nor an operator, so skipping it changes nothing |
| Day06.ApplyOp | src/bin/06.rs:87-93 | `apply_op` of no numbers is the operator's neutral element (0 for `+`, 1 otherwise) and of one number is that number |
| Day06.ApplyOpAppend | src/bin/06.rs:87-93 | `apply_op` over a concatenation combines the two parts' results with the operator |
| Day06.ApplyOpPermutation | src/bin/06.rs:87-93 | the order of a problem's numbers does not change its result |
| Day06.SolveTruncates | src/bin/06.rs:80-85 | `zip` stops at the shorter input, so only the first `min(ops, problems)` pairs count |
| Day06.SolveAppend | src/bin/06.rs:80-85 | one more (operator, problem) pair adds its `apply_op` to the total |
| Day06.Column | src/bin/06.rs:36 | a column reads row `r`'s character at `col` for every row, top to bottom |
| Day06.ScanColumn | src/bin/06.rs:36-48 | one column adds as many operators as new problems, so the one open problem stays open |
| Day06.ScanColumnExtends | src/bin/06.rs:36-48 | one column appends its operator, if any, to the operators; its number, if any, joins the last problem; an operator then opens a new empty problem |
| Day06.ScanColumnCollects | src/bin/06.rs:36-48 | one column leaves every closed problem unchanged, appends its number, if any, to the open problem, opens exactly one new empty problem when it holds an operator, and adds its number and nothing else to all numbers |
| Day06.ExtendedAppend | src/bin/06.rs:42 | a column's number reaches only the last problem, whatever closed problems precede it |
| Day06.FlattenExtended | src/bin/06.rs:42-47 | a column adds its number, and nothing else, to the numbers of all problems |
| Day06.ScanCollects | src/bin/06.rs:32-51 | the scan keeps every operator in visiting order, and the problems hold every number in visiting order |
| Day06.OpenProblemEmpty | src/bin/06.rs:33-47 | the open problem is empty at the start and right after an operator column |
| Day06.ScanGroups | src/bin/06.rs:32-51 | after an operator column the scan starts afresh: the operators concatenate, and the later columns' problems follow the earlier closed ones |
| Day06.ScanNoOperator | src/bin/06.rs:32-51 | columns without an operator leave one open problem holding all their numbers in visiting order |
| Day06.ScanCloses | src/bin/06.rs:41-47 | operator-free columns and then an operator column give that one operator, one problem of all their numbers, and an empty open problem |
| Day06.ScanOneProblem | src/bin/06.rs:32-51 | each problem is exactly the numbers of the columns after the previous operator column, up to and including its own operator column |
| Day06.RightToLeft | src/bin/06.rs:35 | the columns are visited from the last to the first |
| Day06.ParseColumns | src/bin/06.rs:28-52 | `parse_columns` returns one problem more than it finds operators |
| Day06.PartTwoDropsOpenProblem | src/bin/06.rs:14-17 | the problem still open when the scan ends has no operator, and `zip` drops it from the sum |
| Day06.ColumnOf | src/bin/06.rs:10 | problem `i` of part one is entry `i` of every row, top to bottom |
| Day06.ColumnOfPermutation | src/bin/06.rs:10 | rearranging the rows rearranges each problem's numbers the same way |
| Day06.SolvePermuted | src/bin/06.rs:80-85 | `solve` depends on each problem's numbers only as a multiset |
| Day06.PartOneRowOrder | src/bin/06.rs:8-12 | part one does not depend on the order of the number rows |
| Day07.Hits | src/bin/07.rs:44-45 | the beams of a row that are counted as splits are exactly those standing on a splitter |
| Day07.NextIsSteps | src/bin/07.rs:41-51 | the next row's beams are exactly the columns one legal step from a beam: a split beam moves one column left and right, any other beam goes straight down |
| Day07.BeamsArePaths | src/bin/07.rs:37-52 | a column holds a beam `k` rows below the start exactly when some beam path from the start reaches it in `k` steps |
| Day07.BeamCountsReached | src/bin/07.rs:37-54 | `splits` counts each splitter reached from a given row down exactly once, however many beams merge onto it |
| Day07.BeamCountsReachedSplitters | src/bin/07.rs:37-54 | part one is the number of splitters, between the start row and the last row, that some beam path reaches |
| Day07.Timelines | src/bin/07.rs:60-75 | the uncached recursion yields at least one timeline from any cell |
| Day07.TimelinesBound | src/bin/07.rs:60-75 | each row at most doubles the timelines, so from a cell there are at most 2 to the power of the rows left |
| Day07.MemoTimelines | src/bin/07.rs:60-75 | `_timelines` with its cache returns the uncached recursion's value, keeps every cached value correct and only adds entries, the queried cell among them |
| Day07.PartTwo | src/bin/07.rs:13-15 | `timelines` from an empty cache is the uncached count of timelines from the start, at least one |
| Day08.DistanceSq | src/bin/08.rs:114-116 | the squared distance is non-negative and zero exactly for equal boxes |
| Day08.DistanceSqSymmetric | src/bin/08.rs:114-116 | it does not depend on the order of the two boxes |
| Day08.LtTransitive | src/bin/08.rs:55-60 | the lexicographic order of the `BTreeSet` keys (distance, then coordinates) is transitive |
| Day08.LtTotal | src/bin/08.rs:55-60 | and total on keys of the same length, so the set has one iteration order |
| Day08.SortUnique | src/bin/08.rs:55-62 | inserting into the `BTreeSet` yields its elements strictly ascending, each element once, nothing else |
| Day08.CombosMembers | src/bin/08.rs:56-58 | `combinations(2)` yields exactly the pairs of boxes at positions a < b, in list order |
| Day08.SortedKeys | src/bin/08.rs:54-62 | the distance set holds, strictly ascending, exactly the keys of the box pairs |
| Day08.OrderedByDistance | src/bin/08.rs:54-67 | `take(count)` keeps `count` pairs, or all of them when there are fewer |
| Day08.OrderedByDistanceSpec | src/bin/08.rs:54-67 | `ordered_by_distance` returns at most `count` distinct box pairs with non-decreasing distance, and any pair left out is no closer than every pair returned, which happens only when `count` pairs were returned |
| Day08.Combine | src/bin/08.rs:69-94 | `combine` keeps the boxes, assigns both boxes a circuit and gives them the same one, opens a new circuit id only when neither had one, relabels the second circuit into the first when both had different ones, and otherwise leaves every existing assignment alone |
| Day08.CombineInv | src/bin/08.rs:69-94 | one `combine` keeps the invariant: the assigned boxes are the endpoints of the joined pairs, and two share a circuit id exactly when joined pairs connect them |
| Day08.CircuitsAreComponents | src/bin/08.rs:69-94 | after combining any list of pairs, the boxes with a circuit are those named in a pair, and two boxes share a circuit exactly when a chain of joined pairs connects them |
| Day08.MinOf | src/bin/08.rs:101 | the least element of a non-empty set of circuit ids |
| Day08.Ascending | src/bin/08.rs:101-102 | sorting the circuit ids and chunking them visits every id once, in ascending order |
| Day08.GroupKeys | src/bin/08.rs:98-105 | the groups are exactly the (size, id) pairs of the circuits present |
| Day08.CircuitsBySizeSpec | src/bin/08.rs:96-107 | `circuits_by_size` lists the size of every circuit once, largest first, ties broken by the larger id first |
| Day08.CircuitsBySizeDescending | src/bin/08.rs:96-107 | the sizes it yields never increase |
| Day08.Take | src/bin/08.rs:62-65 | `take(n)` keeps the first `min(n, len)` items unchanged |
| Day08.TopSizesAreLargest | src/bin/08.rs:96-107 | the first `n` sizes are the largest `n` circuits: every circuit left out is no larger than each one taken |
| Day08.PartOneSpec | src/bin/08.rs:15-21 | part one, after joining the `count` closest pairs, is the product of the three largest circuit sizes: no circuit left out of the three is larger than one taken |
| Day08.AreAllCombinedMeaning | src/bin/08.rs:109-111 | for distinct boxes, `are_all_combined` holds exactly when every box has been assigned some circuit |
| Day08.OneCircuitMeaning | src/bin/08.rs:109-111 | the intended test, one circuit holding every box, holds exactly when the joined pairs connect all the boxes |
| Day08.ScanNone | src/bin/08.rs:25-31 | the loop returns `None` exactly when its stop test fails after every pair |
| Day08.PartTwoSpec | src/bin/08.rs:23-32 | as written, part two stops at the first pair after which every box is named in some joined pair, and answers the product of that pair's x coordinates; `None` when that never happens |
| Day08.PartTwoCorrectedSpec | src/bin/08.rs:23-32 | corrected, part two stops at the first pair after which the joined pairs connect all the boxes into one circuit, and answers the product of that pair's x coordinates |
| Day08.FourBoxesPartTwo | src/bin/08.rs:109-111 | for boxes at x = 0, 1, 10, 11, part two as written answers 110 though the circuits {0, 1} and {10, 11} are still apart; corrected it answers 10 |
| Day09.NewEdge | src/bin/09.rs:84-100 | `Edge::new` builds a vertical edge exactly when the two tiles share a column, otherwise a horizontal one on their shared row, with its bounds ordered and equal to the two tiles' coordinates; diagonal pairs panic, a precondition here |
| Day09.NewEdgeContains | src/bin/09.rs:84-107 | a tile lies on `Edge::new(a, b)` exactly when it lies on the straight segment from `a` to `b`, and the edge does not depend on the order of `a` and `b` |
| Day09.CrossesRayMeaning | src/bin/09.rs:109-114 | a vertical edge crosses the rightward ray from a tile exactly when some tile of the edge lies on that ray, right of the tile, other than the edge's upper end |
| Day09.Loop | src/bin/09.rs:35-38 | chaining the first vertex after the list closes the loop |
| Day09.EdgesJoinTiles | src/bin/09.rs:35-40 | edge `i` joins tile `i` to the next tile round the loop, the last edge returning to the first tile |
| Day09.Parse | src/bin/09.rs:30-43 | the polygon keeps its vertices and has one edge per vertex |
| Day09.Crossings | src/bin/09.rs:64-70 | the crossing count never exceeds the number of edges |
| Day09.CrossingsAppend | src/bin/09.rs:64-70 | the vertical-edge crossings of a concatenation of edge lists add up |
| Day09.TilesAreContained | src/bin/09.rs:60-74 | every red tile of a closed loop is contained in the polygon, being on one of its edges |
| Day09.NewRectArea | src/bin/09.rs:126-134 | `Rect::new` orders the two tiles' coordinates and contains both tiles; it does not depend on their order, and its area is the tile count (dx + 1)(dy + 1), at least 1 |
| Day09.CutByMeaning | src/bin/09.rs:151-172 | as written, an edge cuts a rectangle when it runs strictly inside it and the half-open range of the edge, which stops one short of the edge's far end, holds one of the rectangle's borders |
| Day09.PossibleRectsMembers | src/bin/09.rs:45-47 | `possible_rectangles` are exactly the rectangles spanned by two red tiles at positions a < b |
| Day09.Filter | src/bin/09.rs:49-54 | the filter keeps exactly the rectangles it accepts, and no more rectangles than it was given |
| Day09.MaxOf | src/bin/09.rs:13-14 | `max()` is `None` exactly for no items; otherwise it is one of them and no item exceeds it |
| Day09.LargestArea | src/bin/09.rs:13-14 | the largest area is `None` exactly for no rectangles, and otherwise the area of one of them and at least every other's |
| Day09.PartOneSpec | src/bin/09.rs:10-15 | on a closed loop of tiles (anything else panics while parsing), part one is `None` exactly for a single tile, and otherwise the largest area spanned by two of them |
| Day09.PartTwoAtMostPartOne | src/bin/09.rs:17-22 | part two, as written, is the area of a possible rectangle that passes both filters and never exceeds part one |
| Day09.InsideHasCornersIn | src/bin/09.rs:136-145 | a rectangle whose every tile lies in the polygon passes `are_corners_in` |
| Day09.BoxContains | src/bin/09.rs:64-74 | for a plain rectangle polygon, `contains` holds exactly for the tiles inside it, border included |
| Day09.PartTwoCorrectedSpec | src/bin/09.rs:17-22 | corrected, part two is `None` exactly when no rectangle of two red tiles lies wholly in the polygon, and otherwise the largest area of one that does |
| Day09.NotchOutside | src/bin/09.rs:60-74 | in the notched square, tile (5, 8) lies in the notch, outside the polygon |
| Day09.NotchSquareValid | src/bin/09.rs:159-172 | yet the whole 11 x 11 square passes both filters as written: the notch's vertical edges end on the top border, which the half-open ranges miss |
| Day09.NotchPartTwo | src/bin/09.rs:17-22 | so part two as written answers 121 for the notched square though the rectangle holds a tile outside the polygon; corrected it answers less than 121 |
| Day10.New | src/bin/10.rs:63-69 | a new machine has every light off, one light per diagram entry, and keeps its schema |
| Day10.NewCanStart | src/bin/10.rs:63-73 | a new machine can start exactly when the diagram asks for every light off |
| Day10.Occurrences | src/bin/10.rs:78 | how often a light index occurs in a button's wiring |
| Day10.FlipParity | src/bin/10.rs:77-80 | the toggling loop leaves a light flipped exactly when its index occurs an odd number of times in the wiring |
| Day10.PushSpec | src/bin/10.rs:75-85 | `push` flips each light whose index the button's wiring lists an odd number of times and leaves every other light alone; an unknown button or wired index panics, a precondition here |
| Day10.PushLoop | src/bin/10.rs:75-85 | the imperative toggling loop computes the same machine as the functional `push` |
| Day10.PushTwice | src/bin/10.rs:75-85 | pushing the same button twice restores the machine |
| Day10.PushCommutes | src/bin/10.rs:75-85 | two pushes give the same machine in either order |
| Day10.PushKeepsWellWired | src/bin/10.rs:75-85 | pushing keeps the schema, so every button stays pushable |
| Day10.PushAll | src/bin/10.rs:87-99 | pushing a sequence of buttons keeps the schema and the number of lights |
| Day10.PushCancels | src/bin/10.rs:75-85 | pushing a button first and then a sequence that contains it equals pushing the sequence with that one occurrence taken out |
| Day10.ReduceDistinct | src/bin/10.rs:87-99 | cancelling pairs of equal pushes leaves a duplicate-free sequence, no longer than the original, of buttons from it |
| Day10.PushAllReduce | src/bin/10.rs:87-99 | the cancelled sequence leaves the lights exactly as the original sequence does |
| Day10.DistinctBelow | src/bin/10.rs:91 | a duplicate-free sequence of buttons below `n` has at most `n` entries |
| Day10.FewPushesSuffice | src/bin/10.rs:87-99 | whenever some sequence of pushes starts the machine, a sequence of distinct buttons does, no longer than it and than the number of buttons, which bounds the search of `fewest_presses_to_start` |
| Day11.PosOf | src/bin/11.rs:47-51 | `topological_pos` maps each device of the order back to its index |
| Day11.OutsForward | src/bin/11.rs:39-45 | in a topological order every output of a device comes after it |
| Day11.PathCounted | src/bin/11.rs:68-89 | a device from which some path leads to `end` has a positive path count |
| Day11.CountedPath | src/bin/11.rs:68-89 | conversely a positive count comes with an actual path of outputs to `end` |
| Day11.PathsPositiveIffReachable | src/bin/11.rs:68-89 | the reference path count is positive exactly when `end` is reachable |
| Day11.PathsBeyond | src/bin/11.rs:70 | no path reaches `end` from a device after it in the order, which is why the fold may stop at `end` |
| Day11.Step | src/bin/11.rs:73-85 | one fold step adds at most the current device to the cache |
| Day11.Cache | src/bin/11.rs:70-85 | the cache always holds `end` and only positive counts, since zero counts are never inserted |
| Day11.CountPaths | src/bin/11.rs:68-89 | from `end` to itself there is exactly one path |
| Day11.SumsAgree | src/bin/11.rs:74-80 | summing cached counts over a device's outputs, missing entries as zero, gives the sum of their path counts |
| Day11.CacheAt | src/bin/11.rs:70-85 | after folding the order back to any index, the cache entry of each device from there to `end` is its number of paths to `end`, and absent devices count zero |
| Day11.CountPathsCounts | src/bin/11.rs:68-89 | `count_paths` returns the number of paths from `start` to `end` along device outputs |
| Day11.CountPathsZero | src/bin/11.rs:68-89 | it returns 0 exactly when `end` is not reachable from `start` |
| Day11.PartOne | src/bin/11.rs:11-13 | part one is the number of paths from `you` to `out` |
| Day11.Insert | src/bin/11.rs:63 | the stable insertion adds exactly one item and keeps the rest |
| Day11.InsertSorted | src/bin/11.rs:63 | and keeps the items sorted by their position key, with unknown devices first |
| Day11.TopologicallyOrdered | src/bin/11.rs:60-66 | `topologically_ordered` returns a rearrangement of its input sorted by topological position, unknown devices first |
| Day11.OrderedPair | src/bin/11.rs:60-66 | two devices come back in their order's sequence, ties kept as given |
| Day11.WaypointsOrdered | src/bin/11.rs:17 | `fft` and `dac` come back as the first and the second waypoint reached |
| Day11.PartTwo | src/bin/11.rs:15-24 | part two is the number of paths from `svr` to the first waypoint, times those between the waypoints, times those from the second waypoint to `out` |

## Left out
- `write_graph` (src/graph.rs) writes files and runs Graphviz; it is I/O.
- `polynomial_interpolate` (src/lib.rs) works in floating point and calls a linear-algebra library.
- src/md5.rs and src/template/ hash with an external crate, spawn `cargo` and read example files: foreign code and I/O.
- The `parser!` front ends are left out; every model starts from the parsed data. These are all `parse` functions and the `grid`/`grid_of` combinator wrappers.
- The petgraph `Graph` type and the `num` traits are replaced by an n-by-n matrix of optional `nat` weights with an explicit `INF`.
- FloydWarshall.FloydWarshall: weights are naturals. Negative weights and negative cycles, which the source leaves unchecked, are not modelled.
- `fewest_presses_to_start` (breadth-first search from the pathfinding crate) and `fewest_presses_to_configure` (the z3 optimiser) in src/bin/10.rs are foreign solvers. The model proves only that distinct-button sequences suffice (`Day10.FewPushesSuffice`).
- The topological order of src/bin/11.rs is built by the `topological_sort` crate. The model takes the order as an input that satisfies `Day11.Valid`.
- Day11.Devices: each device's outputs are a `HashSet` in the source and a sequence here. Sets parsed from input never repeat a name, so the counts agree on such input.
- HashMap and HashSet iteration order is not modelled. Every result that depends on it is stated as a set or sorted first, as the source sorts it.
- Machine-word overflow of `usize` and `isize` is not modelled; integers are unbounded. This covers `last.1 + 1` in `merge_ranges`, products of path counts and digit sums. The exceptions are the saturating weights of src/graph.rs and `usize::MAX` used as a bound.
- Lib.RangeUnionCorrect: requires `GroupsAdvance`: every range that starts a group of the sorted input starts at most one past its end. Inverted ranges that are absorbed into a group are allowed (`Lib.AbsorbedInvertedRange`). On the excluded input the source iterator never ends (`Lib.InvertedRangeStalls`), so there is no finite result to describe.
- Lib.UnionFromCorrect: same requirement and reason as `Lib.RangeUnionCorrect`, from index `i` on.
- Lib.RotateMut: requires a square matrix. With rows longer than the number of rows the source rotates the leading square block in place and leaves the extra columns as they were; that case is not modelled.
- Lib.Lines: `str::lines` also strips a `\r` before each `\n`. The model splits on `\n` only.
- Day01.Rotate2CountsZeroes: stated for non-negative amounts only, as the parser reads them. For a negative amount `rotate2` counts by different rules.
- Day01.PartTwoAtLeastPartOne: assumes positive amounts. A zero amount on 0 is a stop that part one counts and part two does not.
- Day06.MaxLen: measures a line's width in characters, while the source's `l.len()` counts UTF-8 bytes. On lines with non-ASCII characters the source pads every row wider, with blank columns that the scan skips, so the answer is the same.
- Day06.PadLines: pads to the widest line in characters, not in bytes, for the reason given under `Day06.MaxLen`.
- Day06.PadLinesKeepsLines: "some row is its line unchanged" holds for character widths. With byte widths and non-ASCII input every row may gain padding.
- Day08.PartTwoSpec: assumes distinct boxes. With a repeated box the circuit map has fewer keys than the list has boxes.
- Digits.Next: `base >= 1` is required, because the source's `%` panics on 0. Termination of `digits` is proved for `base >= 2` only, since `base = 1` never reaches 0.
- The test harnesses read example files; that is I/O.

## Findings
| source | as written | input that shows it | evidently intended | confidence | as-written member | corrected member |
|---|---|---|---|---|---|---|
| src/bin/08.rs:109-111 | `are_all_combined` compares the number of boxes with a circuit id against the number of boxes. It holds as soon as every box joins some circuit, even when several circuits remain. | boxes A(0,0,0), B(1,0,0), C(10,0,0), D(11,0,0): after joining A–B and C–D every box has an id, so part two stops at pair C–D and answers 10·11 = 110 while {A,B} and {C,D} are still apart | stop when all boxes form one circuit, at pair B–C, answering 1·10 = 10 | not executed | Day08.PartTwo (Day08.PartTwoSpec, Day08.FourBoxesPartTwo) | Day08.PartTwoCorrected (Day08.PartTwoCorrectedSpec) |
| src/bin/09.rs:159-172 | `is_cut_by_any` tests the rectangle's borders against the half-open ranges `x1..x2` and `y1..y2`, so an edge that ends exactly on the rectangle's top or right border does not cut it | the notched square (0,0),(10,0),(10,10),(6,10),(6,5),(4,5),(4,10),(0,10): the 11×11 square passes both filters and part two answers 121, though tile (5,8) is in the notch, outside the polygon | accept only rectangles whose every tile is inside the polygon; the answer is then below 121 | not executed | Day09.PartTwo (Day09.NotchPartTwo) | Day09.PartTwoCorrected (Day09.PartTwoCorrectedSpec) |
