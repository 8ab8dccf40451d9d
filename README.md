# Segment trees for prioritized experience replay

This project is a verified Dafny model of the `SumTree` and `MinTree` segment trees of coax. Prioritized experience replay uses them to keep priorities, sample transitions in proportion to them, and track the smallest priority.

A tree stores `capacity` leaves. They are padded with the operator's identity up to `size`, the smallest power of two not below `capacity`. The nodes sit in heap layout in an array of length `2 * size`:
- the root is at 1;
- the children of node `k` are at `2k` and `2k + 1`;
- leaf `i` is at `size + i`.

Every internal node holds the operator applied to its two children.

The model has one generic engine, the class `SegmentTree.SegmentTree`. It is parameterised by an operator and its identity, and requires them to form a monoid. Its methods are:
- the constructor;
- `Array`, the leaf view;
- `RootValue`;
- `Update`, which writes one leaf and walks up to the root;
- `SetItems`, the indexed write `tree[idx] = values`;
- `SetAll`, which replaces all leaves and rebuilds bottom-up;
- `PartialReduce`, the two-cursor range query;
- `PartialReduceBatch`, the same query over arrays of ranges.

Each method is proved against a plain specification:
- the leaf view after a write is `Assign(old leaves, idx, values)`;
- the root is `Fold(op, identity, leaves)`;
- a range query equals `ReduceRange`, the fold of `leaves[a..b]` after resolving negative positions from the end, with an omitted stop meaning `capacity`. Positions outside [-capacity, capacity] and empty or inverted ranges give the error `InconsistentRange(start, stop)`. For (1, 1) its message is "inconsistent ranges detected from (start, stop) = (1, 1)".

`SumTree` instantiates the engine with `+` and 0. It adds the inverse CDF in its vectorized form: all samples descend together, one tree level per round. Each sample compares its remaining target `t` with the left child `L`. If `t < L` it goes left; otherwise it goes right with `t - L`. The proof tracks each sample's window of leaf slots. For `u < 1` and a positive total it shows that the result is a leaf `i` with `prefix(i) <= u * total < prefix(i + 1)`; when the weights are non-negative that leaf is unique. For `u = 1` over non-negative weights it shows that the result is `size - 1`. A tree whose total is zero is rejected with `InvalidState`.

`MinTree` instantiates the engine with `min` over integers extended with `Inf`. The model proves that its root and its range queries give the least leaf, and that this leaf is attained.

`Scenarios` replays the concrete situations of the test suite: depths 5 and 4, a fresh all-zero tree, full and indexed writes, the empty-range error, the six parametrized ranges, the batched sums and minima, and the 25-row inverse-CDF table and its scalar rows. Each expected value is the postcondition of a method that builds the tree and calls the model's operations.

Files:
- `wrappers.dfy`: `Option` and `Result`;
- `monoid.dfy`: monoid laws and `Fold`;
- `segment_tree.dfy`: the engine and the reference functions;
- `sum_tree.dfy`;
- `min_tree.dfy`;
- `scenarios.dfy`.

The implementation module `coax/experience_replay/_segment_tree.py` is not part of this model's sources. The model follows the behaviour its test file `coax/experience_replay/_segment_tree_test.py` asserts, and the standard array-backed design of the structure where the tests are silent. The following choices are the model's own:
- An indexed write validates every index and the lengths before writing anything, so a rejected call changes nothing.
- A duplicated index is last-write-wins.
- Negative write indices are rejected.

## Model

| member | source | states |
|---|---|---|
| SegmentTree.Levels | coax/experience_replay/_segment_tree_test.py:49-58 | depth is the number of levels of the padded tree: 2^(depth-1) is the smallest power of two holding `capacity` leaves, so capacity 14 gives 5 and 8 gives 4 |
| SegmentTree.SegmentTree.constructor | coax/experience_replay/_segment_tree_test.py:37-39 | a new tree satisfies the heap invariant, has the given capacity and depth, and every leaf is the identity |
| SegmentTree.SegmentTree.RootIsFold | coax/experience_replay/_segment_tree_test.py:52-82 | under the heap invariant with identity padding, the root equals the fold of the leaf view |
| SegmentTree.SegmentTree.NodeIsFold | coax/experience_replay/_segment_tree_test.py:98-108 | every node holds the fold of the 2^h leaf slots below it |
| SegmentTree.SegmentTree.PairFold | coax/experience_replay/_segment_tree_test.py:104-108 | folding the slots [2a, 2b) gives the fold of their parents [a, b), the step that lets the range query climb a level |
| SegmentTree.SegmentTree.RootValue | coax/experience_replay/_segment_tree_test.py:49-58 | root_value is the reduction of all leaves |
| SegmentTree.SegmentTree.Array | coax/experience_replay/_segment_tree_test.py:49-58 | the array view has length capacity and is exactly the leaves |
| SegmentTree.SegmentTree.Update | coax/experience_replay/_segment_tree_test.py:85-89 | writing one leaf changes exactly that leaf of the view and keeps the heap invariant, by repairing every ancestor up to the root |
| SegmentTree.SegmentTree.SetItems | coax/experience_replay/_segment_tree_test.py:85-89 | an indexed write fails iff the lengths differ or an index is outside [0, capacity), leaving the tree unchanged; otherwise the leaves become the sequential last-write-wins assignment and the invariant holds |
| SegmentTree.SegmentTree.SetAll | coax/experience_replay/_segment_tree_test.py:61-82 | a full write of exactly capacity values makes the leaves those values and rebuilds every internal node; any other length is a LengthMismatch that changes nothing |
| SegmentTree.SegmentTree.Climb | coax/experience_replay/_segment_tree_test.py:104-108 | one climb of both cursors keeps the reduction they stand for, and the cursors stay ordered |
| SegmentTree.SegmentTree.ReduceSlots | coax/experience_replay/_segment_tree_test.py:104-108 | the two-cursor walk over slots [lo, up) returns the fold of those slots |
| SegmentTree.SegmentTree.LeafSlice | coax/experience_replay/_segment_tree_test.py:104-108 | leaves a..b occupy slots size+a..size+b |
| SegmentTree.SegmentTree.PartialReduce | coax/experience_replay/_segment_tree_test.py:92-108 | partial_reduce(start, stop) equals the naive slice fold with negative positions from the end and an omitted stop meaning capacity, and rejects an empty or inverted range with InconsistentRange(start, stop) |
| SegmentTree.SegmentTree.PartialReduceBatch | coax/experience_replay/_segment_tree_test.py:111-122 | arrays of ranges succeed iff every pair is valid, and then give the scalar reduction elementwise; an error is the error of one of the pairs; unequal array lengths are a LengthMismatch |
| SegmentTree.ReduceRangeSplit | coax/experience_replay/_segment_tree_test.py:104-108 | the naive reference composes: the fold over [i, k) is op of the folds over [i, j) and [j, k) |
| SegmentTree.ReduceAll | coax/experience_replay/_segment_tree_test.py:98-101 | partial_reduce() with no stop covers every leaf, so it equals the fold that root_value holds |
| SegmentTree.EmptyRangeRejected | coax/experience_replay/_segment_tree_test.py:92-95 | partial_reduce(i, i) is an error naming (i, i), for every i |
| SegmentTree.AssignAt | coax/experience_replay/_segment_tree_test.py:85-89 | after an indexed write, each leaf holds the value of the last write to it, or its old value if nothing wrote it |
| SegmentTree.AssignOutside | coax/experience_replay/_segment_tree_test.py:85-89 | an indexed write leaves every unnamed leaf unchanged |
| SegmentTree.AssignIdempotent | coax/experience_replay/_segment_tree_test.py:85-89 | repeating the same indexed write leaves the leaves as writing once |
| SumTree.AddIsMonoid | coax/experience_replay/_segment_tree_test.py:37-39 | + with 0 satisfies the monoid laws the engine requires |
| SumTree.FoldIsSum | coax/experience_replay/_segment_tree_test.py:61-82 | the reduction of a sum tree is the ordinary sum |
| SumTree.NewSumTree | coax/experience_replay/_segment_tree_test.py:37-52 | SumTree(capacity) fails iff capacity < 1, and otherwise has depth Levels(capacity) and all-zero leaves |
| SumTree.RootIsSum | coax/experience_replay/_segment_tree_test.py:61-82 | root_value of a sum tree is the sum of its leaves |
| SumTree.SumUpdate | coax/experience_replay/_segment_tree_test.py:85-89 | overwriting one weight moves the total by the difference |
| SumTree.AssignOnZerosSum | coax/experience_replay/_segment_tree_test.py:85-89 | distinct indexed writes on zero leaves give a total equal to the sum of the written values |
| SumTree.BracketsUnique | coax/experience_replay/_segment_tree_test.py:125-164 | over non-negative weights at most one leaf's prefix-sum interval holds a target, so the inverse CDF's answer is determined |
| SumTree.TargetBounds | coax/experience_replay/_segment_tree_test.py:159 | a uniform in [0, 1) scales to a target in [0, total), and 1 scales to the total |
| SumTree.DescentStart | coax/experience_replay/_segment_tree_test.py:125-164 | every sample starts at the root with its whole target remaining |
| SumTree.DescendStep | coax/experience_replay/_segment_tree_test.py:125-164 | going left when t < L, else right with t - L, keeps the target equal to the weight left of the sample's window plus what remains |
| SumTree.DescentDone | coax/experience_replay/_segment_tree_test.py:125-164 | at a leaf, a target below the total lies in that leaf's prefix-sum interval, and the total itself over non-negative weights ends in the last slot |
| SumTree.DescendLevel | coax/experience_replay/_segment_tree_test.py:125-164 | one vectorized round moves every sample one level down and keeps each sample's descent state |
| SumTree.LeafIndices | coax/experience_replay/_segment_tree_test.py:161 | the leaf each finished sample reached is returned as a logical index with the bracketing guarantee |
| SumTree.InverseCdfBatch | coax/experience_replay/_segment_tree_test.py:125-164 | inverse_cdf over an array of uniforms fails iff the total is zero; otherwise each u < 1 maps to the leaf i with prefix(i) <= u*total < prefix(i+1), and u = 1 over non-negative weights maps to the last slot |
| SumTree.InverseCdf | coax/experience_replay/_segment_tree_test.py:125-164 | the scalar inverse_cdf has the same guarantees as one element of the batch |
| MinTree.MinIsMonoid | coax/experience_replay/_segment_tree_test.py:42-46 | min with +infinity satisfies the monoid laws the engine requires |
| MinTree.FoldMinIsMinimum | coax/experience_replay/_segment_tree_test.py:55-58 | the min-reduction is below every element, is one of them when there is one, and is +infinity exactly when every element is |
| MinTree.NewMinTree | coax/experience_replay/_segment_tree_test.py:42-46 | MinTree(capacity) fails iff capacity < 1, and otherwise starts with every leaf at +infinity |
| MinTree.RootIsMinimum | coax/experience_replay/_segment_tree_test.py:55-58 | root_value of a min tree is a leaf and is at most every leaf |
| MinTree.RangeIsMinimum | coax/experience_replay/_segment_tree_test.py:119-122 | a successful min range query is an element of the slice and is at most each of them |
| Scenarios.SumTreeBasic | coax/experience_replay/_segment_tree_test.py:49-52 | SumTree(capacity=14) has 14 leaves, depth 5, leaf sum 0 and root 0 |
| Scenarios.MinTreeBasic | coax/experience_replay/_segment_tree_test.py:55-58 | MinTree(capacity=8) over [13,7,11,17,19,5,3,23] has 8 leaves, depth 4 and root 3 |
| Scenarios.SetValuesFull | coax/experience_replay/_segment_tree_test.py:61-82 | writing arange(1, 15) gives root 105 |
| Scenarios.SumIota | coax/experience_replay/_segment_tree_test.py:106 | twice the sum of arange(lo, lo + n) is n(2lo + n - 1) |
| Scenarios.IotaRangeSum | coax/experience_replay/_segment_tree_test.py:106-108 | the slice sums of an arange in closed form |
| Scenarios.IndexedWriteSum | coax/experience_replay/_segment_tree_test.py:85-89 | writing [7,13,11,17,5] at [2,6,5,12,13] on zero leaves sums to 53 |
| Scenarios.SetValuesWithIdx | coax/experience_replay/_segment_tree_test.py:85-89 | after that indexed write, root_value is 53 |
| Scenarios.PartialReduceEmptyRange | coax/experience_replay/_segment_tree_test.py:92-95 | partial_reduce(1, 1) fails with InconsistentRange(1, 1) and the message "inconsistent ranges detected from (start, stop) = (1, 1)" |
| Scenarios.PartialReduceAll | coax/experience_replay/_segment_tree_test.py:98-101 | partial_reduce() over arange(1, 15) equals root_value, 105 |
| Scenarios.IotaRanges | coax/experience_replay/_segment_tree_test.py:104-108 | the naive sums of the six ranges: 101, 113, 525, 1491, 303, 770 |
| Scenarios.PartialReduceRanges | coax/experience_replay/_segment_tree_test.py:104-108 | partial_reduce gives those six sums |
| Scenarios.IotaBatch | coax/experience_replay/_segment_tree_test.py:111-116 | the naive sums of the batched ranges, with stop -1 meaning 13 |
| Scenarios.PartialReduceArraySum | coax/experience_replay/_segment_tree_test.py:111-116 | the batched query gives [100, 550, 1188, 510, 1378] |
| Scenarios.WeightMinima | coax/experience_replay/_segment_tree_test.py:119-122 | the naive minima of [1,8), [6,7) and [0,5) are 3, 3 and 7 |
| Scenarios.PartialReduceArrayMin | coax/experience_replay/_segment_tree_test.py:119-122 | the batched min query gives [3, 3, 7] |
| Scenarios.WeightPrefixes | coax/experience_replay/_segment_tree_test.py:127-158 | the cumulative weights of [13,7,11,17,19,5,3,23] are 0,13,20,31,48,67,72,75,98 |
| Scenarios.BracketOf | coax/experience_replay/_segment_tree_test.py:130-158 | a bracketed target over those weights determines its leaf by the cumulative boundaries |
| Scenarios.TableRows | coax/experience_replay/_segment_tree_test.py:130-164 | leaves that bracket rows 0-23 and put row 24 on leaf 7 are exactly the idx column |
| Scenarios.NormalisedRange | coax/experience_replay/_segment_tree_test.py:159 | the normalised uniforms lie in [0, 1], are below 1 except the last, and scale back to the table's integers |
| Scenarios.FirstRow | coax/experience_replay/_segment_tree_test.py:128-133 | target 0 over the table's weights is bracketed only by leaf 0 |
| Scenarios.TenthRow | coax/experience_replay/_segment_tree_test.py:128-143 | target 40 over the table's weights is bracketed only by leaf 3 |
| Scenarios.InverseCdfFirstRow | coax/experience_replay/_segment_tree_test.py:125-164 | the scalar inverse_cdf of row 0 of the table (uniform 0) gives leaf 0 |
| Scenarios.InverseCdfTenthRow | coax/experience_replay/_segment_tree_test.py:125-164 | the scalar inverse_cdf of row 10 of the table (uniform 40/98) gives leaf 3 |
| Scenarios.InverseCdfLastRow | coax/experience_replay/_segment_tree_test.py:125-164 | the scalar inverse_cdf of row -1 of the table (uniform 1) gives leaf 7 |
| Scenarios.InverseCdfTable | coax/experience_replay/_segment_tree_test.py:125-164 | inverse_cdf over the whole normalised table returns the idx column |

## Left out

- Sampling (`sample(n)` and `random_seed`) and the statistical check of its distribution (coax/experience_replay/_segment_tree_test.py:167-178) are left out: they depend on a random generator and empirical frequencies. The model keeps the deterministic part, `InverseCdfBatch` over caller-supplied uniforms.
- The entropy rescaling utility `coax/utils/_mellow.py` is a floating-point numeric helper with no discrete behaviour, and is not part of this model.
- The leaves are unbounded integers and the inverse-CDF arguments exact reals. The model has no floating-point rounding and no tolerance comparisons.
- ReduceRange: a position outside [-capacity, capacity] is an `InconsistentRange` error, whereas a Python slice clamps it (`values[0:20]` is every leaf). The tests use only in-range positions and only a negative stop, so rejecting out-of-range positions and resolving a negative start are the model's own choices.
- The several Python spellings of a full write (`[:]`, `[None]`, `[...]`, `.array =`) are one operation, `SetAll`.
- Broadcasting of a scalar against an array is not modelled. `PartialReduceBatch` takes two arrays of equal length, and scalar calls use `PartialReduce`.
- The implementation file `_segment_tree.py` is not part of this model's sources. Where the tests do not pin behaviour down, the model validates before writing, rebuilds bottom-up after a full write, and descends level by level.
- SumTree.InverseCdfBatch: requires every uniform to lie in [0, 1], because the tests only use uniforms in that interval and nothing is said about others. For u < 1 it promises the bracketing leaf. For u = 1 it promises only the last slot of the padded level, `size - 1`, and only over non-negative weights. That slot is a padding position when capacity is not a power of two.
- SumTree.InverseCdf: the same restriction, as one element of the batch.
- The speed of the vectorized descent (O(depth) array-wide steps) is a performance property. It is not stated; the model only keeps the level-by-level structure.
