# SAS subset selection: a verified model

This project models the subset-selection core of SAS (`sas-pip/sas/subset_dataset.py`) in Dafny:

- **Coverage objective.** `SubsetSelectionObjective` holds one latent class's mutable similarity matrix and a threshold. `inc(sset, i)` is the marginal gain of element `i`: the sum of the entries of row `i` that reach the threshold, minus the sum of column `i` over the rows already selected. `add(i)` commits `i` by zeroing row `i` in place.
  - `coverage.dfy` has the matrix-value meaning.
  - `objective.dfy` has the class over an `array2<real>`.
- **Blocked pairwise similarity.** `pairwise_distance` cuts both encoding sequences into Python-slice blocks `[i*b, (i+1)*b)` for `i = 0 .. n // b`. It computes one sub-matrix per pair of blocks and assembles them as `np.block` does (`pairwise.dfy`). The similarity function is uninterpreted.
- **Per-class selection.** `SASSubsetDataset.__init__` works in two loops:
  1. For each latent class, it builds the objective on a copy of the class's matrix, ranks the class with the greedy oracle, and maps local positions to global indices.
  2. For each class in key order, it appends the first `int(subset_fraction * l)` entries of that ranking.

  `selection.dfy` gives the meaning of the result. `subset_dataset.dfy` has the two loops, the distance builder loop, and the dataset view.
- **Dataset view.** `BaseSubsetDataset` / `CustomSubsetDataset` / `SASSubsetDataset` are one class, `SubsetDataset<T>`, with one named constructor per concrete dataset. `__len__` is the length of the index list. `__getitem__(k)` returns the original item at `subset_indices[k]`.

Modelling choices:
- **The greedy oracle.** `lazy_greedy(F, range(n), n)` is a function parameter `Ranker`, taken as a function of the objective's matrix and threshold when it is called. It ranks rows of that matrix. Its internals are not modelled, but its `add` calls are: after ranking, it commits every ranked element on `F`, which zeroes those rows of the private copy.
- **The fraction.** `subset_fraction` is the non-negative rational `num / den`, so `int(f * l)` is `(num * l) / den`.
- **Dictionaries.** A Python dictionary is a sequence of `(key, value)` pairs in insertion order, with distinct keys.
- **Block arithmetic.** The block bounds `i*block_size` and the block count `n // block_size + 1` are written with `Mul` (repeated addition) and `Quot` (repeated subtraction). `Pairwise.MulIsProduct` and `Pairwise.QuotIsDiv` prove these equal to `*` and `//`.
- **Errors.** Where the source would raise (a missing key, a ranking position outside the member list or the matrix, a division by zero in the fraction or the block count), the model has a `requires`, because the source does not handle these errors.
- **What the code does not check:**
  - The code checks neither for an empty partition nor for the fraction's range. An empty partition gives an empty index list, and a fraction above 1 keeps every ranked entry, because of the slice clamp.
  - The truncation length comes from the length of the returned ranking. `SubsetDatasets.SelectionLength` proves it is `int(f * n_c)` when the oracle ranks the whole class.
  - The list has no duplicates when the member lists are duplicate-free and disjoint and the rankings are duplicate-free (`SubsetDatasets.SelectionDistinct`).

## Model

| member | source | states |
|---|---|---|
| Coverage.Significant | sas-pip/sas/subset_dataset.py:145 | the entries of a row that pass the `>= threshold` mask: no more entries than the row, each one is in the row and reaches the threshold, and every such entry of the row is kept |
| Coverage.Masked | sas-pip/sas/subset_dataset.py:145 | `row * (row >= threshold)`: same length as the row; each entry is the row entry when it reaches the threshold and 0 otherwise |
| Coverage.Column | sas-pip/sas/subset_dataset.py:145 | `distance[np.ix_(sset, [i])]`: one entry per listed row, in order and with repeats, entry `k` being `D[sset[k]][i]` |
| Coverage.Gain | sas-pip/sas/subset_dataset.py:144-145 | the reference marginal gain: with an empty `sset` it is the significant row sum; when the subtracted column entries are non-negative it never exceeds that sum |
| Coverage.MaskedSum | sas-pip/sas/subset_dataset.py:145 | summing the row multiplied by its 0/1 mask equals summing its significant entries |
| Coverage.ZeroRow | sas-pip/sas/subset_dataset.py:147-148 | after committing `i`, row `i` is all zeros, its shape is kept, and every other row is unchanged |
| Coverage.ZeroRowIdempotent | sas-pip/sas/subset_dataset.py:147-148 | committing the same element twice leaves the matrix as committing it once does |
| Coverage.ZeroRowCommutes | sas-pip/sas/subset_dataset.py:147-148 | two commits give the same matrix in either order |
| Coverage.CommitAll | sas-pip/sas/subset_dataset.py:147-148 | after committing every element of `sset`, each committed row is zero, each other row is unchanged, and the shape is kept |
| Coverage.CommitAllSnoc | sas-pip/sas/subset_dataset.py:147-148 | committing one more element after `sset` zeroes one more row of the already committed matrix |
| Coverage.GainAfterCommits | sas-pip/sas/subset_dataset.py:144-148 | once all of `sset` is committed, its column sum for `i` is 0 and the gain of `i` is its original significant row sum, or 0 if `i` itself was committed |
| Objective.CopyMatrix | sas-pip/sas/subset_dataset.py:209 | `.copy()` returns a fresh array with the same contents |
| Objective.SubsetSelectionObjective.constructor | sas-pip/sas/subset_dataset.py:134-142 | the objective keeps a reference to the given matrix (no copy) and the threshold |
| Objective.SubsetSelectionObjective.Inc | sas-pip/sas/subset_dataset.py:144-145 | `inc` reads the matrix and changes nothing; it equals the significant row sum of `i` minus the column sum of `i` over `sset`; with an empty `sset` it is the significant row sum |
| Objective.SubsetSelectionObjective.Add | sas-pip/sas/subset_dataset.py:147-148 | `add` modifies only the matrix; the new contents are the old ones with row `i` zeroed and every other row unchanged |
| Objective.AddTwice | sas-pip/sas/subset_dataset.py:147-148 | calling `add(i)` twice leaves the array as one call does |
| Pairwise.MulIsProduct | sas-pip/sas/subset_dataset.py:260 | the repeated-addition form of `i*block_size` used for the block bounds is the product |
| Pairwise.QuotIsDiv | sas-pip/sas/subset_dataset.py:258 | the repeated-subtraction form of `n // block_size` used for the block count is floor division, and what it leaves over is `n % block_size` |
| Common.Slice | sas-pip/sas/subset_dataset.py:260-262 | Python slicing `s[lo:hi]`: its length is the number of indices of `s` in `[lo, hi)`, its entry `k` is `s[lo + k]`, and a slice from 0 is a prefix |
| Pairwise.Block | sas-pip/sas/subset_dataset.py:260-262 | the slice `Z[i*b:(i+1)*b]` holds at most `b` encodings |
| Pairwise.BlockCount | sas-pip/sas/subset_dataset.py:258-261 | `n // b + 1` is the least count of `b`-blocks that reaches past `n`: `(count-1)*b <= n < count*b` |
| Pairwise.BlockStartIsProduct | sas-pip/sas/subset_dataset.py:258-260 | each of the `n // b + 1` blocks starts at `i*b`; in particular block 0 starts at 0 |
| Pairwise.BlockStep | sas-pip/sas/subset_dataset.py:258-262 | block `i` lies within `0..n` and ends where block `i+1` starts; the last block ends at `n` |
| Pairwise.BlocksOrdered | sas-pip/sas/subset_dataset.py:258-262 | for `i < j`, block `i` ends no later than block `j` starts, so the blocks are disjoint and in order |
| Pairwise.BlockFull | sas-pip/sas/subset_dataset.py:258-262 | only the last block can be short: every other block holds exactly `b` indices |
| Pairwise.LastBlock | sas-pip/sas/subset_dataset.py:258-262 | the last block ends at `n` and holds `n % b` indices, so it is empty exactly when `b` divides `n` |
| Pairwise.BlockOf | sas-pip/sas/subset_dataset.py:258-262 | every index `r < n` lies in block `r // b`, which is one of the blocks, so the blocks cover `0..n-1` |
| Pairwise.BlockSlice | sas-pip/sas/subset_dataset.py:260-262 | the clamped slice `Z[i*b:(i+1)*b]` is exactly block `i`'s index range |
| Pairwise.SimilarityBlock | sas-pip/sas/subset_dataset.py:265 | one similarity sub-matrix has one row per vector of the row block |
| Pairwise.HConcat | sas-pip/sas/subset_dataset.py:269 | joining a row of equal-height blocks keeps their height |
| Pairwise.BlockRowAt | sas-pip/sas/subset_dataset.py:261-267 | block `j` of a block row is the similarity of the row block with the columns of block `j` |
| Pairwise.BlockRow | sas-pip/sas/subset_dataset.py:261-267 | the inner loop yields `n2 // b + 1` sub-matrices, each as tall as the row block |
| Pairwise.Grid | sas-pip/sas/subset_dataset.py:258-268 | the outer loop yields `n1 // b + 1` rows of blocks, each of which `np.block` can join |
| Pairwise.NpBlock | sas-pip/sas/subset_dataset.py:269 | `np.block`: the result has as many rows as the block rows together, and stacking one more block row extends what was stacked before |
| Pairwise.SideBySide | sas-pip/sas/subset_dataset.py:269 | joining the sub-matrices for two column ranges side by side gives the sub-matrix for the concatenated range |
| Pairwise.Stacked | sas-pip/sas/subset_dataset.py:269 | stacking the sub-matrices for two row ranges gives the sub-matrix for the concatenated range |
| Pairwise.RowPrefix | sas-pip/sas/subset_dataset.py:261-269 | the first `k` column blocks, joined, give the similarities against the first `BlockEnd(k-1)` columns |
| Pairwise.RowIsDirect | sas-pip/sas/subset_dataset.py:261-269 | a whole row of blocks, joined, is the similarity of its row block with all of `Z2` |
| Pairwise.GridPrefix | sas-pip/sas/subset_dataset.py:258-269 | the first `k` rows of blocks, assembled, give the similarities of the first `BlockStart(k)` rows |
| Pairwise.BlockedIsDirect | sas-pip/sas/subset_dataset.py:256-271 | the assembled blocked matrix equals the direct, unblocked similarity matrix |
| Pairwise.BlockSizeIrrelevant | sas-pip/sas/subset_dataset.py:256-271 | any two positive block sizes assemble the same matrix |
| Pairwise.PairwiseDistance | sas-pip/sas/subset_dataset.py:256-271 | the two nested block loops plus `np.block` return an `n1 × n2` matrix whose entry `(r, c)` is `sim(z1[r], z2[c])` |
| Selection.ScaledFloor | sas-pip/sas/subset_dataset.py:216 | `int(f * x)` for `f = num/den >= 0` is the floor `r` with `r*den <= num*x < (r+1)*den`; for `f <= 1` it is at most `x` |
| Selection.ToGlobal | sas-pip/sas/subset_dataset.py:211 | the global list has the ranking's length, and its entry `j` is `members[ranking[j]]` |
| Selection.ToGlobalDistinct | sas-pip/sas/subset_dataset.py:211 | a duplicate-free ranking over a duplicate-free member list maps to a duplicate-free list of members |
| Selection.Contribution | sas-pip/sas/subset_dataset.py:215-216 | a class contributes a prefix of its ranking of length `min(int(f * l), l)` (the slice clamp), which is `int(f * l)` when `f <= 1` |
| Selection.SubsetIndices | sas-pip/sas/subset_dataset.py:213-216 | every selected index was ranked by some class |
| Selection.SubsetIndicesLength | sas-pip/sas/subset_dataset.py:213-216 | for `f <= 1` the final list has `Σ_c int(f * l_c)` entries |
| Selection.SubsetIndicesPrefix | sas-pip/sas/subset_dataset.py:213-216 | the list built from the first `k` classes is a prefix of the final list |
| Selection.SubsetIndicesAt | sas-pip/sas/subset_dataset.py:213-216 | entry `j` of class `q`'s contribution sits at position `Offset(q) + j` of the final list |
| Selection.ScaledFloorMonotone | sas-pip/sas/subset_dataset.py:216 | a smaller fraction never keeps more entries of a ranking |
| Selection.ContributionNested | sas-pip/sas/subset_dataset.py:215-216 | nesting: for `f1 <= f2`, each class's contribution at `f1` is a prefix of its contribution at `f2` |
| Selection.SubsetIndicesNested | sas-pip/sas/subset_dataset.py:213-216 | nesting: for `f1 <= f2`, the final list at `f1` is contained, as a multiset, in the final list at `f2` |
| Selection.SubsetIndicesDistinct | sas-pip/sas/subset_dataset.py:213-216 | duplicate-free rankings that no two classes share give a duplicate-free final list |
| Selection.QuotaAtMostWhole | sas-pip/sas/subset_dataset.py:213-216 | the sum of the per-class floors is at most `int(f * Σ_c l_c)` |
| Selection.ScaledFloorGrows | sas-pip/sas/subset_dataset.py:36 | a larger count never gets a smaller `int(len * f)` |
| SubsetDatasets.RankClass | sas-pip/sas/subset_dataset.py:209-211 | one class: the objective is built on a fresh copy of the class's matrix, the oracle ranks it and commits its picks on that copy, and the result is `partition[c][ranking[j]]` for each `j`; the method has no frame on the caller's array, so it leaves it unchanged, which holds only because the commits hit the copy |
| SubsetDatasets.RankClasses | sas-pip/sas/subset_dataset.py:207-211 | the first loop returns, in key order, each class paired with the global form of the oracle's ranking of that class's matrix, and modifies none of the caller's arrays |
| SubsetDatasets.Commits | sas-pip/sas/subset_dataset.py:147-148 | the `add` calls the oracle makes on `F`, in ranking order, leave its matrix equal to the original with every ranked row zeroed; then `inc` of any unranked element is its original significant row sum |
| SubsetDatasets.ClassRankings | sas-pip/sas/subset_dataset.py:207-211 | `class_wise_idx` after the first loop: one entry per class in key order, each with the class key and a list as long as the oracle ranking, entry `j` being `partition[c][ranking[j]]` |
| SubsetDatasets.ClassRankingsPrefix | sas-pip/sas/subset_dataset.py:207-211 | ranking the first `k` classes gives the first `k` entries of `class_wise_idx` |
| SubsetDatasets.QuotaFromMatrices | sas-pip/sas/subset_dataset.py:210-216 | when the oracle ranks a whole class, the quota computed from ranking lengths equals the one computed from matrix sizes |
| SubsetDatasets.SelectionLength | sas-pip/sas/subset_dataset.py:207-216 | with full rankings and `f <= 1`, the selection keeps exactly `Σ_c int(f * n_c)` indices, where `n_c` is the size of class `c`'s matrix |
| SubsetDatasets.SelectionDistinct | sas-pip/sas/subset_dataset.py:207-216 | disjoint, duplicate-free member lists and duplicate-free rankings give a duplicate-free selection |
| SubsetDatasets.SelectionAt | sas-pip/sas/subset_dataset.py:211-216 | entry `Offset(q) + j` of the selection is the member that the oracle ranked `j`-th in class `q` |
| SubsetDatasets.ApproximateAugmentationDistance | sas-pip/sas/subset_dataset.py:225-231 | builds one matrix per class key: the similarity of the class's gathered encodings with themselves, at the default block size |
| SubsetDatasets.Gather | sas-pip/sas/subset_dataset.py:228 | `Z[self.partition[latent_class]]`: one encoding per member, entry `k` being `Z[members[k]]` |
| SubsetDatasets.ComputedDistancesRankable | sas-pip/sas/subset_dataset.py:227-230 | computed matrices have one row per member, so an oracle that ranks rows of its matrix always fits the member list |
| SubsetDatasets.SubsetDataset.InitBase | sas-pip/sas/subset_dataset.py:33-37 | the base initialiser stores the dataset and fraction, sets `len_dataset`, sets `subset_size = int(len * f)`, and starts with no indices |
| SubsetDatasets.SubsetDataset.Custom | sas-pip/sas/subset_dataset.py:120-127 | a custom subset keeps the caller's indices, and sets `subset_size = len(indices)` (equal to `__len__`) and fraction `len(indices) / len(dataset)` |
| SubsetDatasets.SubsetDataset.SAS | sas-pip/sas/subset_dataset.py:207-216 | the selected list is each class's first `int(f * l)` global indices, concatenated in key order; the caller's distance arrays are unchanged, although the oracle's commits zero rows of each class's private copy |
| SubsetDatasets.SubsetDataset.SelectFrom | sas-pip/sas/subset_dataset.py:213-216 | the second loop modifies only the index list; it leaves it equal to the per-class prefixes of the rankings, concatenated in key order |
| SubsetDatasets.SubsetDataset.Len | sas-pip/sas/subset_dataset.py:45-47 | `__len__` is the length of the index list, not the nominal `subset_size` |
| SubsetDatasets.SubsetDataset.GetItem | sas-pip/sas/subset_dataset.py:49-56 | item `k` of the view is the original item at `subset_indices[k]` |
| SubsetDatasets.SubsetDataset.SelectedItem | sas-pip/sas/subset_dataset.py:49-56 | in a selected view, item `Offset(q) + j` is the original item at the member the oracle ranked `j`-th in class `q` |
| SubsetDatasets.SubsetDataset.SelectedAtMostSubsetSize | sas-pip/sas/subset_dataset.py:213-216 | when the class rankings (as built by the first loop, or any others) together hold at most `len_dataset` entries, the selected view is no longer than the nominal `subset_size` |

## Left out

- `lazy_greedy`: its body is not part of this model. It is an oracle parameter, a function of the matrix and threshold it is handed. Its `add` calls are modelled (`SubsetDatasets.Commits`) as one commit per ranked element, in ranking order, after the ranking is fixed; how it interleaves them with the gains it reads is not.
- `encode_trainset`, `encode_augmented_trainset`, the proxy model and the device moves: these are neural-network inference and device I/O. `ApproximateAugmentationDistance` takes the encodings as a parameter.
- Cosine similarity and floating-point rounding: `sim` is uninterpreted and entries are mathematical reals. So `Pairwise.BlockedIsDirect` states exact equality, where the source has equality up to floating-point associativity.
- `subset_fraction` as a float: it is a rational `num/den`. Float products such as `0.29 * 100 = 28.999…` truncate one lower in the source than the exact product does here.
- Negative fractions and negative Python indices: the model's indices and fraction are natural numbers.
- `RandomSubsetDataset`: it uses `random.sample`, which is randomness.
- `save_to_file`: pickling to a file is I/O.
- `initialization_complete`, `verbose` and the `tqdm` progress bars: printing only.
- `num_runs`, `num_downstream_classes` and `device`: stored, but unused by the selection.
- The instance field `pairwise_distance_block_size`: it is not passed to `pairwise_distance` at line 229, so the default 1024 applies there as well as in the model.
- `SubsetDatasets.SubsetDataset.SAS`: receives its distance arrays precomputed. The `augmentation_distance is None` branch (lines 204-205) would first call `ApproximateAugmentationDistance`, which is modelled on its own; the constructor does not chain the two.
- `SubsetDatasets.SubsetDataset.Custom`: holds the dataset and the index list by value (`seq` fields), where the source keeps references to the caller's objects (lines 33 and 127). Changes the caller makes to either after construction are not seen, so the model does not capture `__len__` and `__getitem__` following an index list the caller later extends, nor `subset_size` going stale when it does.
- `SubsetDatasets.SubsetDataset.Custom`: requires a non-empty dataset, where the source raises a division-by-zero error for an empty one.
- `Pairwise.PairwiseDistance`: requires a positive block size, where the source raises a division-by-zero error at `n // 0`.
- `Objective.SubsetSelectionObjective.Inc`: requires `i` and the entries of `sset` to be row indices of the matrix, where the source raises an index error otherwise.
- `Objective.SubsetSelectionObjective.constructor`: takes the threshold as a required argument, without the source's default of 0; the only construction, at line 209, passes the threshold explicitly.
- Partitions whose class has no distance matrix, or whose ranking names a position outside the member list: the model requires these away, where the source raises a key or index error.
