# sparse_grid in Dafny

A model of the core of `sparse_grid`, a regular sparse grid with no boundary
points. The grid works over a box domain of dimension `dim`, up to level
`level`. Each point is keyed by its interleaved multi-index
`[l_1, p_1, …, l_d, p_d]`: every level is `l ≥ 1`, every position is odd in
`[1, 2^l − 1]`, and the levels add up to at most `level + dim − 1`. The model
covers seven parts of the package:

- the generation of that index set (`generate_points_rec`, `generate_points`);
- the placement of each point in the domain (`GridPoint.point_position`);
- the in-place transform of nodal values into hierarchical surpluses (`nodal_2_hier_1d`, `nodal_2_hier`);
- the evaluation of the interpolant, a traversal of the hierarchical subspaces that accumulates into a field (`eval_funct`, `loop_hier_spaces`, `loop_hier_spaces_rec`, `eval_action`);
- `cross`, the ordered pairwise concatenation of two index lists;
- the one-dimensional hat function `eval_basis_1d`;
- interpolation at the grid points: after `nodal_2_hier`, `eval_funct` at a point's position returns that point's `fv`, as the tests check.

Floats are exact `real`s.

Files, one Dafny module each:

| file | module | models |
|---|---|---|
| `wrappers.dfy` | `Wrappers` | `Option`, for the source's `None` defaults |
| `utils.dfy` | `Utils` | `sparse_grid/utils.py`: `cross`, `eval_basis_1d`, powers of two |
| `point.dfy` | `Point` | `sparse_grid/point.py`: `GridPoint`, `point_position` |
| `multi_index.dfy` | `MultiIndex` | well-formed and admissible multi-indices, the splice at offset `2·d` |
| `generation.dfy` | `Generation` | `generate_points_rec` and its set-level specification |
| `hierarchy.dfy` | `Hierarchy` | the parent walk, the splice, the four-case rule, and the map-level hierarchization with its inverse |
| `evaluation.dfy` | `Evaluation` | the active basis table, the traversal order, the interpolant as a sum |
| `exactness.dfy` | `Exactness` | the proof that the hierarchized grid interpolates its nodal values at the grid points |
| `grid.dfy` | `Grid` | class `SparseGrid`: the fields `g_p` (`gp`), `indices`, `domain`, `value`, `eval_per_dim` (`evalPerDim`) and `h_space` (`hSpace`), and its methods |

Three operations work in place and are proved against pure specifications:

- `generate_points` fills the map `gp` in a loop.
- `nodal_2_hier` updates `hv` entry by entry. Its sequential updates are proved equal, pass by pass, to the simultaneous map update `HierarchizeDim`. That update is proved invertible by `DehierarchizeDim`.
- `eval_funct` accumulates into `value` while pushing and popping levels on `hSpace`. The result is proved to be `Interpolant`, the sum over the level vectors in traversal order. Those vectors are proved to be exactly the admissible level vectors, each visited once.

The loops of the source keep their shape. Each loop body that calls further loops becomes a method of its own:

- `PlacePoints` is the loop of `generate_points`.
- `CopyNodalValues`, `HierarchizeDimension`, `HierarchizeLevel` and `HierarchizePosition` are the four loops of `nodal_2_hier`.
- `Descend` and `Act` are the bodies of the two loops of `loop_hier_spaces_rec`.
- `StartAt` is the body of the loop of `loop_hier_spaces`; `LoopHierSpacesStep` adds the account of what is left to add.
- `FillRow` is the body of the outer loop of `eval_funct`.

`generate_points_rec` is written with two branches:

- at `cur == level` it is `FirstBlock`;
- otherwise it is `FirstBlock ++` the recursive call.

`FirstBlock` is `basis_cur` in one dimension, and `cross(basis_cur, …)` with the remaining dimensions otherwise. Together these are the four branches of the source.

## Model

| member | source | states |
|---|---|---|
| Utils.PrependAll | sparse_grid/utils.py:21-22 | one pass of the inner loop has one entry per entry of `b` |
| Utils.PrependAllAt | sparse_grid/utils.py:21-22 | entry `k` of that pass is `x ++ b[k]` |
| Utils.Cross | sparse_grid/utils.py:6-23 | `cross` itself, the outer loop over `a` and the inner over `b`; its length is counted by the loops' repeated addition, and `CrossLength`, `CrossAt` and `CrossMember` state its contents |
| Utils.CrossLength | sparse_grid/utils.py:19-23 | `cross(a, b)` has `|a|·|b|` entries |
| Utils.CrossAt | sparse_grid/utils.py:20-22 | entry `i·|b| + k` of `cross(a, b)` is `a[i] ++ b[k]` (outer loop over `a`, inner over `b`) |
| Utils.CrossAtOffset | sparse_grid/utils.py:20-22 | the same, with the offset counted by repeated addition as the loops advance |
| Utils.CrossElement | sparse_grid/utils.py:20-22 | every entry of `cross(a, b)` is some `a[i] ++ b[k]` with `i`, `k` in range |
| Utils.CrossMember | sparse_grid/utils.py:20-22 | `x` is in `cross(a, b)` iff `x == a[i] ++ b[k]` for some `i`, `k` (both directions) |
| Utils.CrossHas | sparse_grid/utils.py:20-22 | every element of `cross(a, b)` is some `a[i] ++ b[k]` |
| Utils.CrossGets | sparse_grid/utils.py:20-22 | every `a[i] ++ b[k]` is an element of `cross(a, b)` |
| Utils.CrossAppend | sparse_grid/utils.py:20-23 | `cross(a1 ++ a2, b) == cross(a1, b) ++ cross(a2, b)` |
| Utils.CrossEmpty | sparse_grid/utils.py:19-23 | `cross` with an empty argument is empty |
| Utils.CrossLengths | sparse_grid/utils.py:22 | with uniform lengths `la` and `lb`, every entry of `cross(a, b)` has length `la + lb` |
| Utils.EvalBasis1D | sparse_grid/utils.py:45-48 | the hat `1 − |t·2^l − p|` never exceeds 1 |
| Utils.HatOfDistance | sparse_grid/utils.py:45-46 | the hat is `1 − |t − p/2^l|·2^l`, a function of the distance from its centre |
| Utils.HatIsOneIff | sparse_grid/utils.py:45-46 | the hat is 1 iff `t` is the centre `p/2^l` (both directions) |
| Utils.HatNonNegativeIff | sparse_grid/utils.py:45-46 | the hat is ≥ 0 iff `t` lies in `[(p − 1)/2^l, (p + 1)/2^l]` (both directions) |
| Utils.HatLinear | sparse_grid/utils.py:45-46 | at distance `δ` from the centre the hat is `1 − |δ|·2^l`, so it is symmetric about its centre |
| Utils.HatUnitInterval | sparse_grid/utils.py:45-48 | with the interval `(0, 1)` the hat equals the one without an interval |
| Utils.HatInterval | sparse_grid/utils.py:47-48 | with an interval, the hat is the unit hat of the normalised coordinate |
| Point.Coordinate | sparse_grid/point.py:47-55 | one coordinate, `p/2^l` without a domain and `(hi − lo)·p/2^l + lo` with one; `CoordinateAffine`, `CoordinateNormalized`, `CoordinateInside` and `CoordinateMonotone` state what it means |
| Point.PositionsUpTo | sparse_grid/point.py:44-56 | the loop's first `n` coordinates: coordinate `i` is `p_i/2^{l_i}` without a domain, `(hi_i − lo_i)·p_i/2^{l_i} + lo_i` with one |
| Point.PointPosition | sparse_grid/point.py:44-56 | `len(index) // 2` coordinates, each as above |
| Point.NewGridPoint | sparse_grid/point.py:13-23 | a new point has `hv = fv = 0`; `pos` is empty without an index and `point_position(index, domain)` with one |
| Point.CoordinateUnitInterval | sparse_grid/point.py:45-55 | with the interval `(0, 1)` a coordinate equals the one without a domain |
| Point.PositionUnitDomain | sparse_grid/point.py:45-55 | with the domain `(0, 1)^n` the whole position equals the one without a domain |
| Point.CoordinateNormalized | sparse_grid/point.py:50-55 | a coordinate normalised back to `[0, 1]` is the hat centre `p/2^l` |
| Point.CoordinateAffine | sparse_grid/point.py:50-55 | a coordinate is `lo + (hi − lo)·p/2^l` |
| Point.CentreInside | sparse_grid/point.py:47 | for `1 ≤ p ≤ 2^l − 1` the centre lies strictly inside `(0, 1)` |
| Point.CoordinateEnds | sparse_grid/point.py:50-55 | positions `0` and `2^l` map to `lo` and `hi` |
| Point.CoordinateInside | sparse_grid/point.py:50-55 | for `lo < hi` and `1 ≤ p ≤ 2^l − 1` the coordinate lies strictly inside `(lo, hi)` |
| Point.CoordinateMonotone | sparse_grid/point.py:50-55 | at a fixed level the coordinate increases strictly with the position |
| MultiIndex.WellFormedLength | sparse_grid/grid.py:132-133 | an index of `dim` valid pairs has length `2·dim` |
| MultiIndex.WellFormedAt | sparse_grid/grid.py:132-133 | well-formedness holds iff the first pair is valid and the rest is well formed (both directions) |
| MultiIndex.LevelSumAtLeastDim | sparse_grid/grid.py:132-133 | the levels of a well-formed index add up to at least `dim` |
| MultiIndex.Insert | sparse_grid/grid.py:171-175 | `node[0:2d] ++ pair ++ node[2d:]` is `|pair|` longer than the node |
| MultiIndex.Remove | sparse_grid/grid.py:171-172 | the index without dimension `d` is two shorter |
| MultiIndex.RemoveInsert | sparse_grid/grid.py:171-175 | removing the inserted pair gives back the node |
| MultiIndex.InsertRemove | sparse_grid/grid.py:171-175 | inserting the removed pair gives back the index |
| MultiIndex.InsertAt | sparse_grid/grid.py:173 | the inserted pair is the level and position of dimension `d` |
| MultiIndex.ReplaceIsInsert | sparse_grid/grid.py:173-175 | replacing dimension `d` in place is removing it and inserting the new pair |
| MultiIndex.InsertWellFormed | sparse_grid/grid.py:173 | an index with a pair inserted is well formed iff the node is and the pair is valid (both directions) |
| MultiIndex.InsertLevelSum | sparse_grid/grid.py:173 | the inserted level adds to the level sum |
| MultiIndex.AppendPair | sparse_grid/grid.py:140-145 | appending a valid pair adds a dimension and its level |
| MultiIndex.InsertAdmissible | sparse_grid/grid.py:139-146 | an index with level `l` inserted is admissible iff the node is admissible for `dim - 1` dimensions under the budget `level − l + 1` (both directions) |
| Generation.LevelPositions | sparse_grid/grid.py:129-133 | `basis_cur` has `2^(l−1)` pairs |
| Generation.LevelPositionsMember | sparse_grid/grid.py:129-133 | `basis_cur` holds exactly the valid pairs `[l, p]` of level `l` (both directions) |
| Generation.GeneratePointsRec | sparse_grid/grid.py:119-146 | `generate_points_rec` with its four branches; `GenerateMember` states that it yields exactly the admissible indices, `GenerateDistinct` that it yields none twice, and the `GenerateCount` lemmas how many |
| Generation.FirstBlock | sparse_grid/grid.py:129-145 | the block of level `cur`: `basis_cur` in one dimension, `cross(basis_cur, …)` otherwise; `FirstBlockMember` and `FirstBlockDistinct` state its contents |
| Generation.GenerateMember | sparse_grid/grid.py:129-146 | `generate_points_rec(dim, level, cur)` holds exactly the admissible indices whose first level is ≥ `cur` (both directions) |
| Generation.FirstBlockMember | sparse_grid/grid.py:134-145 | the block built at level `cur` holds exactly the admissible indices whose first level is `cur` |
| Generation.LevelMember | sparse_grid/grid.py:134-138 | in one dimension, `basis_cur` holds exactly the admissible indices that start at level `cur` |
| Generation.HeadMember | sparse_grid/grid.py:139-145 | `cross(basis_cur, generate_points_rec(dim − 1, level − cur + 1))` holds exactly the admissible indices that start at level `cur` |
| Generation.HeadMemberSound | sparse_grid/grid.py:139-145 | an entry of `cross(basis_cur, …)` starts at level `cur` and is admissible |
| Generation.HeadMemberComplete | sparse_grid/grid.py:139-145 | an admissible index that starts at level `cur` is an entry of `cross(basis_cur, …)` |
| Generation.CrossLevelSplit | sparse_grid/grid.py:140-145 | an entry of `cross(basis_cur, b)` is a valid level-`cur` pair followed by an entry of `b` |
| Generation.HeadJoin | sparse_grid/grid.py:140-145 | a valid level-`cur` pair followed by an entry of `b` is in `cross(basis_cur, b)` |
| Generation.HeadRest | sparse_grid/grid.py:142 | the rest of an admissible index that starts at level `cur` fits the budget `level − cur + 1` |
| Generation.HeadSound | sparse_grid/grid.py:142 | a valid level-`cur` pair followed by an index under that budget is admissible |
| Generation.CrossDistinct | sparse_grid/utils.py:20-22 | `cross` of repeat-free lists, the first of uniform length, has no repeats |
| Generation.GenerateDistinct | sparse_grid/grid.py:129-146 | `generate_points_rec` generates no index twice |
| Generation.FirstBlockDistinct | sparse_grid/grid.py:134-145 | the block built at one level has no repeats |
| Generation.JoinDistinct | sparse_grid/grid.py:144-146 | the block of level `cur` followed by the later levels has no repeats |
| Generation.GenerateCount1 | sparse_grid/grid.py:134-138 | in one dimension, levels `cur..level` hold `2^level − 2^(cur−1)` indices |
| Generation.GenerateCountOneDim | sparse_grid/grid.py:134-138 | one dimension of level `n` has `2^n − 1` indices |
| Generation.HeadCount | sparse_grid/grid.py:139-145 | in two dimensions, the block of level `cur` has `2^level − 2^(cur−1)` indices |
| Generation.GenerateCount2 | sparse_grid/grid.py:139-146 | in two dimensions, levels `cur..level` hold `(level − cur)·2^level + 2^(cur−1)` indices |
| Generation.GenerateCountExamples | tests/test_sparse_grid_no_bound.py:31 | 17 indices for `(dim, level) = (2, 3)` and 31 for `(3, 3)` (also line 77) |
| Hierarchy.LeftParent | sparse_grid/grid.py:164-169 | the left parent `[i − 1, j // 2]` walked down to an odd position or level 0: a pair on a level below `i`; `LeftParentSpec` states which point it is |
| Hierarchy.RightParent | sparse_grid/grid.py:165-169 | the right parent `[i − 1, j // 2 + 1]` walked down the same way: a pair on a level below `i`; `RightParentSpec` states which point it is |
| Hierarchy.Reduce | sparse_grid/grid.py:166-169 | the walk returns a pair whose level stays within `[0, l]` |
| Hierarchy.WalkToAncestor | sparse_grid/grid.py:166-169 | the `while` loop halving `[l, p]` while the position is even and the level positive computes `Reduce` |
| Hierarchy.ReduceSpec | sparse_grid/grid.py:166-169 | the walk keeps the point (`p'·2^(l−l') == p`) and stops at level 0 or at an odd position |
| Hierarchy.ParentScale | sparse_grid/grid.py:164-169 | `[i − 1, q]` walked down names the point `2q/2^i`, on a level below `i` |
| Hierarchy.LeftParentSpec | sparse_grid/grid.py:164-169 | the left parent of `[i, j]` is the point `(j − 1)/2^i` on a lower level; it is on the boundary (level 0) iff `j == 1`, and otherwise a valid pair |
| Hierarchy.RightParentSpec | sparse_grid/grid.py:165-169 | the right parent is the point `(j + 1)/2^i` on a lower level; it is on the boundary iff `j == 2^i − 1`, and otherwise a valid pair |
| Hierarchy.PySlice | sparse_grid/grid.py:171-172 | Python's clamped slice `node[lo:hi]`: never longer than the list, and the plain slice when the bounds are in range |
| Hierarchy.SpliceBranches | sparse_grid/grid.py:170-183 | the three branches that splice a pair into the node, each adding the pair's length; `SpliceAt` states where the pair lands |
| Hierarchy.SpliceAt | sparse_grid/grid.py:170-183 | all three branches put the pair at offset `min(2d, |node|)`, which is `Insert` when dimension `d` exists |
| Hierarchy.Surplus | sparse_grid/grid.py:185-193 | the four cases subtract half of every parent that is not on the boundary |
| Hierarchy.HierarchizeValue | sparse_grid/grid.py:185-193 | the new `hv` of one point under the four-case rule; `Surplus` and `HierarchizeValueAgree` state what it depends on |
| Hierarchy.HierarchizeDim | sparse_grid/grid.py:206-208 | the pass over one dimension keeps the key set |
| Hierarchy.HierarchizeUpTo | sparse_grid/grid.py:201-208 | the passes over dimensions `0..n−1` keep the key set |
| Hierarchy.HierarchizeValueAgree | sparse_grid/grid.py:185-193 | the new value depends only on the point's own value and those of its parents off the boundary |
| Hierarchy.ParentLevels | sparse_grid/grid.py:164-169 | both parents have a lower level in dimension `d`, and a level of at least 0 |
| Hierarchy.NodalAt | sparse_grid/grid.py:185-193 | the inverse of the rule at one point: its surplus plus half of each parent's nodal value off the boundary; `NodalAtHierarchize` states that it undoes `HierarchizeValue` |
| Hierarchy.DehierarchizeDim | sparse_grid/grid.py:185-193 | the inverse update keeps the key set |
| Hierarchy.DehierarchizeDownFrom | sparse_grid/grid.py:201-208 | the inverse passes, last dimension first, keep the key set |
| Hierarchy.NodalAtHierarchize | sparse_grid/grid.py:185-193 | on a parent-closed key set, dehierarchizing a hierarchized point gives back its nodal value |
| Hierarchy.DehierarchizeHierarchize | sparse_grid/grid.py:185-193 | `DehierarchizeDim(HierarchizeDim(m, d), d) == m` on a parent-closed key set |
| Hierarchy.HierarchizeDehierarchize | sparse_grid/grid.py:185-193 | `HierarchizeDim(DehierarchizeDim(h, d), d) == h` on a parent-closed key set |
| Hierarchy.RecoverNodal | sparse_grid/grid.py:201-208 | over all dimensions the nodal values are recovered from the hierarchical ones |
| Hierarchy.RecoverHierarchical | sparse_grid/grid.py:201-208 | every map of hierarchical values is the hierarchization of the nodal values it dehierarchizes to |
| Hierarchy.RecoverStep | sparse_grid/grid.py:201-208 | one more dimension of that round trip |
| Hierarchy.ParentKeyIsInsert | sparse_grid/grid.py:170-183 | replacing dimension `d` of the spliced index by a parent is splicing that parent into the node |
| Hierarchy.AdmissibleParentClosed | sparse_grid/grid.py:185-193 | the admissible set is parent-closed in every dimension, so every key the rule looks up exists |
| Hierarchy.AdmissibleParent | sparse_grid/grid.py:185-193 | each parent off the boundary of an admissible index is admissible |
| Evaluation.ActivePosition | sparse_grid/grid.py:66-74 | the position `ceil(pos·2^(j−1))·2 − 1` of `eval_funct`, with `−1` replaced by `1`; `ActivePositionValid` and `ActivePositionUnique` state that it is the one odd position of level `j` whose hat is positive at `pos` |
| Evaluation.Ceil | sparse_grid/grid.py:69 | `math.ceil`: the least integer not below its argument |
| Evaluation.ActivePositionValid | sparse_grid/grid.py:66-79 | for a normalised `t` in `[0, 1]`, the chosen position is odd in `[1, 2^j − 1]` and its hat at `t` is ≥ 0 |
| Evaluation.ActivePositionUnique | sparse_grid/grid.py:66-79 | every other odd position of level `j` has a hat ≤ 0 at `t`, so the chosen one is the only one whose hat is positive there |
| Evaluation.LevelVectors | sparse_grid/grid.py:84-109 | the level vectors the traversal of `loop_hier_spaces_rec` visits, in its order; `LevelVectorsMember` and `LevelVectorsDistinct` state which vectors, each once |
| Evaluation.LevelVectorsMember | sparse_grid/grid.py:84-109 | the traversal visits exactly the vectors of `n` levels, all ≥ 1, with first level ≥ `i` and sum ≤ `budget + n − 1` (both directions) |
| Evaluation.LevelVectorsStep | sparse_grid/grid.py:101-109 | the membership test at iteration `i` follows from the one at iteration `i + 1` |
| Evaluation.SingleMember | sparse_grid/grid.py:106-109 | with one dimension left, iteration `i` visits the vector `[i]` alone |
| Evaluation.BlockMember | sparse_grid/grid.py:101-104 | the block of iteration `i` holds exactly the vectors that start with `i` and continue under the budget `budget − (i − 1)` |
| Evaluation.LevelVectorsDistinct | sparse_grid/grid.py:84-109 | the traversal visits no level vector twice |
| Evaluation.LevelVectorsBounded | sparse_grid/grid.py:84-109 | every level of a visited vector is between 1 and the budget |
| Evaluation.ActiveAt | sparse_grid/grid.py:66-79 | one entry of `eval_per_dim`: the pair `[j, ActivePosition]` and its hat at `x_i`; `ActiveTableValid` states that the pair is valid and the weight non-negative |
| Evaluation.ActiveRow | sparse_grid/grid.py:65-79 | one row of `eval_per_dim` has `level` entries |
| Evaluation.ActiveTable | sparse_grid/grid.py:62-79 | `eval_per_dim` has `dim` rows of `level` entries each |
| Evaluation.ActiveRowStep | sparse_grid/grid.py:65-79 | a row grows by the active basis function of the next level |
| Evaluation.ActiveTableStep | sparse_grid/grid.py:63-64 | the table grows by the row of the next dimension |
| Evaluation.ActiveTableValid | sparse_grid/grid.py:66-79 | for a point in the domain, every entry of the table is a valid pair of its level, and its weight is ≥ 0 |
| Evaluation.KeyUpTo | sparse_grid/grid.py:39-43 | the `basis` `eval_action` concatenates from the first `n` entries `h_space` picks; `PickedKeyWellFormed` states it is a well-formed index with the level sum of `h_space` |
| Evaluation.WeightUpTo | sparse_grid/grid.py:40-42 | the product of the first `n` weights `h_space` picks; `WeightNextPick` states one more pick multiplies in its weight |
| Evaluation.Term | sparse_grid/grid.py:44 | the amount `eval_action` adds for one subspace; `TermIs` states it is the `hv` of the looked-up point times the product of the hats |
| Evaluation.TermIs | sparse_grid/grid.py:39-44 | the contribution of a subspace is the value at its active point times the product of its hats |
| Evaluation.Interpolant | sparse_grid/grid.py:46-109 | the value `eval_funct` returns: the sum of `Term` over the level vectors in traversal order; `EvalFunct` states the method returns it, and `InterpolatesAtGridPoints` that it gives back `fv` at every grid point |
| Evaluation.SumOverAppend | sparse_grid/grid.py:44 | the accumulated sum over two runs of subspaces is the sum of the two |
| Evaluation.SumOverPrepend | sparse_grid/grid.py:102-103 | pushing `i` on `h_space` and summing is summing over `Prepend(i, …)` |
| Evaluation.PickedKeyWellFormed | sparse_grid/grid.py:39-43 | the `basis` `eval_action` concatenates is well formed, and its level sum is the sum of `h_space` |
| Evaluation.ActiveTablePicks | sparse_grid/grid.py:39-43 | a level vector with every level in `1..level` picks valid pairs from the table |
| Evaluation.ActiveKeyAdmissible | sparse_grid/grid.py:39-44 | for a point in the domain, every `basis` `eval_action` looks up along the traversal is admissible |
| Evaluation.CoveredPrepend | sparse_grid/grid.py:102-103 | lookups covered for `Prepend(i, vs)` are covered after pushing `i` |
| Evaluation.TraversalStepLast | sparse_grid/grid.py:106-109 | iteration `i` of the last loop adds the subspace `prefix ++ [i]`, then the later iterations add the rest |
| Evaluation.TraversalStepInner | sparse_grid/grid.py:101-104 | iteration `i` of the recursive loop adds the subspaces under `prefix ++ [i]`, then the later iterations add the rest |
| Evaluation.SumFirst | sparse_grid/grid.py:86-88 | iteration `i` of `loop_hier_spaces` adds the subspaces under `[i]`, then the later iterations add the rest |
| Evaluation.CoveredBlock | sparse_grid/grid.py:86-88 | the subspaces under `[i]` are level vectors of the whole traversal, so their lookups succeed |
| Evaluation.TableCovered | sparse_grid/grid.py:37-44 | for a point in the domain of a grid holding every admissible index, every lookup of the traversal succeeds |
| Exactness.LineExact | sparse_grid/grid.py:185-193 | in one dimension, the active hats of levels `1..l` at the centre of `[l, p]`, weighted by the hierarchical values, add up to the nodal value `NodalAt` |
| Exactness.RowSum | sparse_grid/grid.py:39-44 | the terms of a row of subspaces that differ only in the level of one dimension add up to the weight of the rest times the one-dimensional hat sum |
| Exactness.RowNodal | sparse_grid/grid.py:39-44 | at a grid point, that row sums to the term of the shorter vector with the dimension dehierarchized |
| Exactness.CrossRows | sparse_grid/grid.py:84-109 | over a list of vectors in the box of `k`, summing out one more dimension is dehierarchizing that dimension |
| Exactness.BoxChain | sparse_grid/grid.py:84-109 | the hierarchical values summed over the box of `k` give the value at `k` once every dimension is dehierarchized |
| Exactness.BoxMember | sparse_grid/grid.py:84-109 | the box holds exactly the vectors of `m` levels, each between 1 and `k`'s own (both directions) |
| Exactness.BoxKeyAdmissible | sparse_grid/grid.py:39-44 | every key the box looks up is admissible, so present in the grid |
| Exactness.OffBoxZero | sparse_grid/grid.py:39-44 | a level vector above `k`'s own levels in some dimension adds nothing at `k`'s position |
| Exactness.SumSubset | sparse_grid/grid.py:84-109 | a sum over distinct vectors equals the sum over a subset outside of which every term is zero |
| Exactness.InterpolantIsBoxSum | sparse_grid/grid.py:46-109 | at a grid point the interpolant is the sum over the box of its levels |
| Exactness.InterpolatesAtGridPoints | tests/test_sparse_grid_no_bound.py:49-53 | the interpolant of the hierarchized values, evaluated at a grid point's position in the domain, is that point's `fv` (also lines 95-99) |
| Grid.SparseGrid.InterpolatesAtPoints | tests/test_sparse_grid_no_bound.py:95-99 | after `nodal_2_hier`, the interpolant evaluated at `PointPosition(k, Some(domain))` gives `g_p[k].fv` for every point `k` of the grid; that position is the `g_p[k].pos` that `GeneratePoints` stores, which `Valid()` itself does not record |
| Grid.KeepNodes | sparse_grid/grid.py:187-192 | changing one point's `hv` keeps positions, nodal values and keys |
| Grid.AdmissibleAt | sparse_grid/grid.py:202-208 | an admissible index, split at dimension `d`, is a valid pair `[i, j]` with `i ≤ level` inserted into a node that the pass over level `i` walks through |
| Grid.Generated | sparse_grid/grid.py:203-205 | every node the pass walks through is admissible for `dim - 1` dimensions |
| Grid.ParentKeys | sparse_grid/grid.py:185-193 | for `dim ≥ 2`, the index and both parents off the boundary are grid points, so every lookup of the rule succeeds |
| Grid.ParentsValid | sparse_grid/grid.py:164-169 | both parents are on lower levels, and are valid pairs off the boundary |
| Grid.PassStep | sparse_grid/grid.py:206-208 | one call of `nodal_2_hier_1d` moves one point from its old value to its value under the simultaneous update |
| Grid.PassEnd | sparse_grid/grid.py:201-208 | after the loops over levels, positions and nodes, every value is the simultaneous update `HierarchizeDim` |
| Grid.IndicesAdmissible | sparse_grid/grid.py:113 | the generated indices are exactly the admissible ones, each of length `2·dim` |
| Grid.SparseGrid.constructor | sparse_grid/grid.py:25-31 | a new grid has no points and no indices, and the domain `((0.0, 1.0),) * dim`, `dim` copies of the unit interval; its `value`, `evalPerDim` and `hSpace` start as `0`, `[]` and `[]`, an initialisation of the model's own, since `__init__` never sets them |
| Grid.SparseGrid.GeneratePoints | sparse_grid/grid.py:111-117 | `indices` becomes the generated list, which is exactly the admissible set; each index gets a fresh point placed in the domain; other keys are untouched |
| Grid.SparseGrid.PlacePoints | sparse_grid/grid.py:114-117 | the loop puts a fresh `GridPoint(index, domain)` under every index and leaves other keys alone |
| Grid.SparseGrid.Nodal2Hier1D | sparse_grid/grid.py:148-193 | only `g_p[index].hv` changes, to its hierarchized value from the values before the call |
| Grid.SparseGrid.HierarchizeDimension | sparse_grid/grid.py:201-208 | one pass over dimension `d` turns the values into `HierarchizeDim` of the values before it, and keeps the points |
| Grid.SparseGrid.HierarchizeLevel | sparse_grid/grid.py:202-208 | level `i` of the pass processes every point of that level |
| Grid.SparseGrid.HierarchizePosition | sparse_grid/grid.py:206-208 | position `j` of level `i` processes every node, in order |
| Grid.SparseGrid.CopyNodalValues | sparse_grid/grid.py:197-200 | every point's `hv` becomes its `fv`, and nothing else changes |
| Grid.SparseGrid.Nodal2Hier | sparse_grid/grid.py:195-208 | the hierarchical values are `HierarchizeUpTo` of the nodal values, from which dehierarchizing recovers the nodal values; positions, nodal values and keys are kept |
| Grid.SparseGrid.EvalAction | sparse_grid/grid.py:37-44 | `value` grows by `hv` of the looked-up point times the product of the active hats of `h_space` |
| Grid.SparseGrid.LoopHierSpacesRec | sparse_grid/grid.py:90-109 | `value` grows by the sum over every continuation of `h_space` the recursion visits; `h_space` is restored |
| Grid.SparseGrid.Descend | sparse_grid/grid.py:101-104 | push `i`, traverse the remaining dimensions, pop |
| Grid.SparseGrid.Act | sparse_grid/grid.py:106-109 | push `i`, run `eval_action`, pop |
| Grid.SparseGrid.LoopHierSpaces | sparse_grid/grid.py:84-88 | `value` grows by the sum over all level vectors of the grid; `h_space` ends as `[level]` |
| Grid.SparseGrid.LoopHierSpacesStep | sparse_grid/grid.py:86-88 | after iteration `i`, what is left to add is the sum over the level vectors that start above `i` |
| Grid.SparseGrid.StartAt | sparse_grid/grid.py:87-88 | `h_space` becomes `[i]`, and `value` grows by the sum over the vectors that start with `i` |
| Grid.SparseGrid.EvalFunct | sparse_grid/grid.py:46-82 | `eval_per_dim` becomes the active table at `x`; the result is the interpolant of the hierarchical values at `x` |
| Grid.SparseGrid.FillRow | sparse_grid/grid.py:63-79 | the inner loop appends the row of dimension `i` to the table |

## Left out

- Printing is not modelled: `print_grid`, `print_point` and the test harness's output are console I/O.
- The `self.action` callback is not modelled. The traversal always runs `eval_action`, the only action the package installs.
- `sparse_grid/__init__.py` is not part of this model. It only looks up the package version.
- Floating point is modelled as exact `real` arithmetic, with no rounding. The tests' exact float comparisons become plain equalities.
- `dim = 1` in `nodal_2_hier` and `eval_funct` is excluded by `requires dim >= 2`.
  - `nodal_2_hier` would call `generate_points_rec(0, …)`, which never reaches a base case.
  - `loop_hier_spaces_rec(0, b)` would count level `i` once for each of the `level − i + 1` calls that reach it.
  - Generation handles `dim = 1` and is modelled for it.
- Generation.GeneratePointsRec: it requires `dim >= 1` and `1 <= cur <= level`, and Grid.SparseGrid.GeneratePoints requires `dim >= 1` and `level >= 1`. On the other inputs the source recurses without end and fails with `RecursionError`. With `level = 0` (or `cur > level`) the test `cur_level == level` at grid.py:134 and 139 never holds, so grid.py:136-137 calls itself with `cur_level + 1` forever. With `dim = 0` the branch at grid.py:140-145 calls itself with `dim - 1` forever. `__init__` (grid.py:25-27) accepts both `level = 0` and `dim = 0`.
- Grid.SparseGrid.EvalFunct: it requires a point inside the domain and a grid that holds every admissible index. The source checks neither, and outside those conditions it would fail on a missing key or read a hat outside its support.
- Grid.SparseGrid.Nodal2Hier1D: it requires the keys it looks up to be present, and `2 * d <= |node|`. The source would raise `KeyError` on a missing key, and `IndexError` at grid.py:185 when the spliced index is too short for dimension `d`. `ParentKeys` shows the keys are present and `nodal_2_hier` always passes a node of `dim - 1` pairs with `d < dim`.
- Utils.EvalBasis1D: it requires `hi != lo` for an interval. The source would raise `ZeroDivisionError` at utils.py:47 for an empty interval.
- Point.PointPosition: it requires at least `len(index) // 2` intervals in a domain. The source would raise `IndexError` in the loop of point.py:50-55 for a shorter domain.
- Exactness.InterpolatesAtGridPoints: it requires `lo < hi` in every dimension of the domain, as the tests' domains have; with `lo > hi` the positions still lie between the ends, but the model does not prove exactness there.
- Grid.SparseGrid.InterpolatesAtPoints: it requires `lo < hi` in every dimension of `domain`, as `Exactness.InterpolatesAtGridPoints` does, for the same reason; it also states the interpolant at `PointPosition(k, Some(domain))` rather than at the stored `g_p[k].pos`, because `Valid()` does not record the positions (`GeneratePoints` sets them to exactly that value).
- `GridPoint` is modelled as a value, not a shared object. Writing to a point's `fv` or `hv` replaces the point under its key in `gp`. Each point is created once per key and is never shared, so no aliasing is lost.
- Grid.SparseGrid.Valid: it states the key sets but not the order of `indices`. The order is stated by `GeneratePoints` as `indices == GeneratePointsRec(dim, level, 1)`.
- `copy.deepcopy` in `eval_action` is not modelled separately. Sequences are values here, so the copy is implicit.
- The loop bodies of `nodal_2_hier`, `loop_hier_spaces`, `loop_hier_spaces_rec` and `eval_funct` are separate methods (listed above). Their order of effects is the source's.
