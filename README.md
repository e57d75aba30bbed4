# Direct MPS construction for Gaussian boson sampling: the discrete core

`Direct_MPS_cupy.py` builds the matrix product state of a Gaussian boson
sampler one site at a time. Around its floating-point linear algebra sits
exact integer and index bookkeeping, and this model covers that part:

- **Index layouts.**
  - `get_target` turns a table of photon counts per mode into fixed-width rows of 1-based mode indices.
  - `push_to_end` right-aligns those rows.
  - `cartesian` pairs the rows of two tables.
  - `sympmat` builds the symplectic form, and `xpxp_to_xxpp` builds the interleaved-to-block reordering.
  - The site loops assemble targets from a left row and a right row after `j` leading zeros.
- **The hafnian.**
  - `hafnian` dispatches on the order of the matrix.
  - `recursive_hafnian` packs the strict lower triangle.
  - `solve` is the doubly recursive perfect-matching algorithm over truncated polynomials.
- **Batch partitioning.**
  - `Sigma_select` splits the batch into superblocks of at most 65535 blocks of 16 items.
  - `A_elem` splits the batch into memory-sized chunks and divides each hafnian by its denominator.
- **Basis enumeration in `get_cumsum_kron`.**
  - Each mode step takes a Kronecker product with the mode's photon distribution and filters by `err_tol`.
  - It then keeps the `max_dim` largest states, and finally the `chi` largest in descending order.
- **Site claims.** Each MPS worker, under the file lock, claims the lowest site whose flag is 0 and sets it to 1. It quits when no flag is 0.

One module per piece, one file per module:

| file | module | contents |
|---|---|---|
| common.dfy | Common | `Option`, `Result`, the error kinds the source raises, `Zeros`, `Min` |
| symplectic.dfy | Symplectic | `sympmat`, `xpxp_to_xxpp` |
| enumerator.dfy | Enumerator | `get_target`, `push_to_end`, `cartesian` |
| basis.dfy | Basis | the mode loop and the final selection of `get_cumsum_kron` |
| recursive.dfy | Recursive | `recursive_hafnian`, `solve` |
| hafnian.dfy | Hafnian | perfect matchings, the hafnian as their weight sum, `hafnian` |
| batching.dfy | Batching | the launch loop of `Sigma_select`, the chunk loop of `A_elem` |
| builder.dfy | Builder | the target assembly of the first-site and interior-site loops |
| scheduler.dfy | Scheduler | the `active_MPS_sites` flag array and its claims |

Modelling choices:

- **Errors.** A Python exception becomes a `Failure` value that names the error kind.
  - `ValueError` becomes `NotEvenDimensional`, `NotSquare` or `OddOrder`, and the `max()` of an empty row-sum array becomes `EmptyTable`.
  - An `IndexError` becomes `IndexOutOfRange`, and `d[0]` of an empty eigenvalue array becomes `NoModes`.
  - A kernel launch whose grid has a zero dimension, which CUDA rejects, becomes `EmptyGrid`.
  - A floor division by zero becomes `DivisionByZero`.
  - `range` with step 0 becomes `ZeroStep`.
  - A numpy broadcast error becomes `BroadcastMismatch`.
- **Hafnian entries.** Entries are `int`, a commutative ring, so "the hafnian is the sum over perfect matchings" is exact.
- **Probabilities** are `real`.
- **The batch axis** of every array is elementwise, so one matrix or one row is modelled at a time.
- **Methods and loops.**
  - Loops that fill arrays become methods with loops, proved against functions that say what the array holds.
    - `get_target` accumulates per mode.
    - `push_to_end` scans right to left.
    - `solve` copies the minor, adds the edge and adds the contractions.
    - `Sigma_select` loops over superblocks.
    - `A_elem` loops over chunks.
    - `get_cumsum_kron` loops over modes.
    - A claim scans the flags.
  - The flag file is a class holding an `array<int>`, and a claim writes it in place.
- **Abstract functions.**
  - The CUDA kernel `sigma_select` is a function from a target row to an abstract value.
  - The hafnian of a selected matrix is a function from that value to a `real`.
  - What index 0 means to the kernel is not interpreted.

## Model

| member | source | states |
|---|---|---|
| `Symplectic.Sympmat` | Direct_MPS_cupy.py:61-65 | entry (i, j) of the 2N×2N block matrix [[0, I], [-I, 0]] is 1 exactly when j = i + N, -1 exactly when i = j + N, else 0 |
| `Symplectic.SympmatSquare` | Direct_MPS_cupy.py:61-65 | the symplectic form squares to minus the identity |
| `Symplectic.SympmatAntisymmetric` | Direct_MPS_cupy.py:61-65 | the symplectic form is antisymmetric: its transpose is its negation |
| `Symplectic.XxppIndexIsFlattenedTranspose` | Direct_MPS_cupy.py:76 | arange(2n).reshape(-1, 2).T.flatten() puts 2(p mod n) + p div n at position p |
| `Symplectic.XxppIndexIsPermutation` | Direct_MPS_cupy.py:76 | the index vector is a bijection of [0, 2n): an explicit inverse undoes it from both sides |
| `Symplectic.XpxpToXxppVector` | Direct_MPS_cupy.py:67-82 | a vector fails with "not even-dimensional" exactly when its length is odd; otherwise it keeps its length and every input entry lands at its xxpp position |
| `Symplectic.XpxpToXxppMatrix` | Direct_MPS_cupy.py:67-82 | a matrix fails exactly when its row count is odd (not even-dimensional, checked first) or it is not square; otherwise every input entry (a, b) lands at the xxpp positions of a and b |
| `Symplectic.InterleavedToBlock` | Direct_MPS_cupy.py:61-82 | reordering the interleaved form from xpxp to xxpp yields exactly sympmat(n) |
| `Symplectic.ReorderedEntry` | Direct_MPS_cupy.py:81 | entry (p, q) of the reordered interleaved form S[:, ind][ind] is its entry (ind[p], ind[q]) |
| `Enumerator.SlotsSorted` | Direct_MPS_cupy.py:337-346 | a target row's mode indices are 1-based, at most the number of modes, and non-decreasing along the row |
| `Enumerator.SlotsOfMode` | Direct_MPS_cupy.py:337-346 | value i+1 sits in slot c exactly when c lies in [sum of counts before mode i, that sum plus num[i]), so it fills exactly num[i] consecutive slots |
| `Enumerator.SlotsLength` | Direct_MPS_cupy.py:337-346 | a row's mode indices occupy as many slots as the row's photon total |
| `Enumerator.MaxTotal` | Direct_MPS_cupy.py:330 | n_select is the largest row total: no row exceeds it and some row attains it |
| `Enumerator.PartialTargetStep` | Direct_MPS_cupy.py:338-346 | one pass of the mode loop adds mode i+1 on [idx_begin, idx_end) and advances idx_begin to idx_end |
| `Enumerator.AccumulateMode` | Direct_MPS_cupy.py:338-346 | one mode pass over the whole table keeps every row equal to its partial target after one more mode |
| `Enumerator.AccumulateModes` | Direct_MPS_cupy.py:332-347 | after all modes each row holds its mode indices followed by zeros up to n_select |
| `Enumerator.GetTarget` | Direct_MPS_cupy.py:329-347 | an empty table fails (max of no totals); otherwise there is one row per table row, of width equal to the largest total, holding the row's mode indices and then zeros |
| `Enumerator.TargetRowLayout` | Direct_MPS_cupy.py:329-347 | in a target row, a slot is 0 exactly when it is at or beyond the row's total; before it, the slot holds i+1 exactly for the slots of mode i |
| `Enumerator.PushToEnd` | Direct_MPS_cupy.py:51-59 | every output row is the scan's row; a row whose nonzeros form a prefix comes out right-aligned: its nonzeros in order in the last columns, zeros before |
| `Enumerator.PushState` | Direct_MPS_cupy.py:53-58 | after scanning i columns from the right, idx counts exactly the nonzeros among them, and new_array keeps the row's width |
| `Enumerator.PushRow` | Direct_MPS_cupy.py:51-59 | push_to_end on one row, the scan run over the whole row, keeps the row's width |
| `Enumerator.PushRowAgreesOnPrefixRows` | Direct_MPS_cupy.py:51-59 | on rows whose nonzeros form a prefix, push_to_end's scan equals right-alignment |
| `Enumerator.PushRowOnPrefixRow` | Direct_MPS_cupy.py:55-58 | a row of nonzeros p followed by zeros comes out of the scan as those zeros followed by p |
| `Enumerator.RightAlignKeepsNonzeros` | Direct_MPS_cupy.py:51-59 | right-alignment keeps the nonzeros and their order, and is idempotent |
| `Enumerator.PushRowLosesNonzeros` | Direct_MPS_cupy.py:55-58 | outside prefix rows the scan overwrites slots: [0, 5] becomes [0, 0], and applying it twice to [5, 0] differs from applying it once |
| `Enumerator.JoinRepeatTile` | Direct_MPS_cupy.py:254-258 | concatenating np.repeat of the first table with np.tile of the second pairs every first row with every second row, first-major |
| `Enumerator.CartesianIsPairRows` | Direct_MPS_cupy.py:246-260 | cartesian, with 1-D inputs reshaped to columns, is the row-pair comprehension |
| `Enumerator.PairRowsAt` | Direct_MPS_cupy.py:246-260 | row i·len2 + j of the product is row i of the first table followed by row j of the second |
| `Enumerator.Cartesian` | Direct_MPS_cupy.py:246-260 | cartesian (reshape 1-D inputs to columns, np.repeat the first, np.tile the second, join the columns) equals the row-pair comprehension |
| `Basis.KronStepAt` | Direct_MPS_cupy.py:287-294 | the entry at a·cutoff + b is old state a's probability times dist[b], with occupation row a extended by b (k // cutoff, k % cutoff) |
| `Basis.KronStepPaired` | Direct_MPS_cupy.py:287-294 | after a Kronecker step every state again has one occupation in [0, cutoff) per mode, and its probability is the product of its modes' probabilities |
| `Basis.KronStep` | Direct_MPS_cupy.py:287-294 | np.kron of res with the mode's distribution, with num extended alongside, has one state per pair of an old state and an occupation of the new mode |
| `Basis.Above` | Direct_MPS_cupy.py:290-296 | the err_tol filter keeps exactly the states above err_tol, each as often as in the input, and nothing else |
| `Basis.SortDesc` | Direct_MPS_cupy.py:299-301 | descending order of the states: a non-increasing permutation of the input |
| `Basis.TopDescendingKeepsLargest` | Direct_MPS_cupy.py:299-312 | the selection is non-increasing, the kept and dropped states together are the input as a multiset, and every kept probability is at least every dropped one |
| `Basis.TopDescending` | Direct_MPS_cupy.py:299-312 | argsort, keep the last min(len, cap) (all of them for a -0 slice), reverse: the number of states kept is that count |
| `Basis.PruneStepInvariant` | Direct_MPS_cupy.py:285-301 | one mode step keeps every state paired with its occupation row, and leaves the states non-increasing, all above err_tol, and at most max_dim of them |
| `Basis.PruneStepEntry` | Direct_MPS_cupy.py:287-301 | each state surviving a mode step is paired and above err_tol |
| `Basis.PruneStep` | Direct_MPS_cupy.py:286-301 | one mode step (Kronecker product, err_tol filter, max_dim largest in descending order) yields at most len(res)·cutoff states, and at most max_dim of them |
| `Basis.Pruned` | Direct_MPS_cupy.py:276-304 | res and num after the first i modes: the first mode's distribution alone, and after any later step at most max_dim states |
| `Basis.PruneModes` | Direct_MPS_cupy.py:276-304 | the mode loop computes the pruned state sequence, every state paired, and after at least one step all above err_tol and at most max_dim of them |
| `Basis.FinalSelection` | Direct_MPS_cupy.py:308-312 | the final selection of chi states is non-increasing, keeps the pairing, has at most chi states, and keeps the loop's bounds |
| `Basis.GetCumsumKron` | Direct_MPS_cupy.py:265-318 | no modes fails (d[0]); otherwise the result is the chi largest of the pruned states in descending order, each paired, at most chi of them (chi > 0), and after a mode step all above err_tol and at most max_dim |
| `Recursive.TriClosedForm` | Direct_MPS_cupy.py:165 | the count of strict-lower-triangle cells in rows before j is j(j-1)/2, the offset the packing uses |
| `Recursive.PackInjective` | Direct_MPS_cupy.py:164-169 | two lower-triangle cells packed to the same index are the same cell |
| `Recursive.Unpack` | Direct_MPS_cupy.py:164-169 | every packed index t decodes to a cell k < j with j(j-1)/2 + k = t |
| `Recursive.PackingIsBijection` | Direct_MPS_cupy.py:164-169 | z has n(2n-1) entries, and packing (j, k) ↦ j(j-1)/2 + k over 0 ≤ k < j < 2n is a bijection onto its index range |
| `Recursive.PackLower` | Direct_MPS_cupy.py:164-169 | the packing loops fill z with A[j][k] at j(j-1)/2 + k, as constant polynomials |
| `Recursive.PackRow` | Direct_MPS_cupy.py:165-168 | one pass over k fills row j of the packing and nothing else |
| `Recursive.RecursiveHafnian` | Direct_MPS_cupy.py:155-172 | a non-square matrix fails with "must be square", a square odd one with "must be even", and otherwise the result is solve(z, 2n, 1, g, n) with g = 1 |
| `Recursive.RecursiveValue` | Direct_MPS_cupy.py:164-172 | solve on the packed lower triangle with w = 1 and g = 1; the empty matrix gives 1 |
| `Recursive.Solve` | Direct_MPS_cupy.py:175-199 | solve returns w·g[n] at s = 0, and otherwise the sum of its two calls at s-2: on the minor with -w, and on the contraction with the extended g |
| `Recursive.SolveValue` | Direct_MPS_cupy.py:175-199 | the value solve(b, s, w, g, n) returns, by its two recursive calls on the minor and the contraction; it is 0 whenever w is 0 |
| `Recursive.SolveDeleted` | Direct_MPS_cupy.py:180-186 | h is solve on the minor with weight -w |
| `Recursive.SolveContracted` | Direct_MPS_cupy.py:187-199 | the second call is solve on the contraction with e = g + g·b[0] shifted |
| `Recursive.CopyMinor` | Direct_MPS_cupy.py:180-185 | the copy loop fills c with the cells of rows and columns 2..s-1 in packed order |
| `Recursive.CopyMinorRow` | Direct_MPS_cupy.py:182-185 | one pass over k copies row j of the minor, the cells before it unchanged |
| `Recursive.MinorCell` | Direct_MPS_cupy.py:182-185 | cell (j, k) of the minor is cell (j+2, k+2) of b, at (j+1)(j+2)/2 + k + 2 |
| `Recursive.MinorIsPolyList` | Direct_MPS_cupy.py:180-198 | the minor and the contraction are again lists of polynomials of degree n |
| `Recursive.AddEdge` | Direct_MPS_cupy.py:187-190 | e is g plus the truncated product of g with the edge polynomial b[0], shifted by one degree |
| `Recursive.AddContractions` | Direct_MPS_cupy.py:191-198 | the contraction loops turn the minor into the contraction |
| `Recursive.ContractRow` | Direct_MPS_cupy.py:192-198 | one pass over k contracts row j, the rest unchanged |
| `Recursive.ContractCellValue` | Direct_MPS_cupy.py:194-198 | the u, v loops add both cross products of a cell to the copied minor cell |
| `Recursive.ContractIndex` | Direct_MPS_cupy.py:194-198 | a contraction cell is the minor cell plus the cross terms through vertices 0 and 1 |
| `Recursive.AddCross` | Direct_MPS_cupy.py:195-198 | the u, v loops add p1·q1 + p2·q2, shifted and truncated at degree n |
| `Recursive.SolveValueNegate` | Direct_MPS_cupy.py:175-199 | solve is linear in w: negating w negates the result |
| `Hafnian.MatchingsArePerfect` | Direct_MPS_cupy.py:129-152 | every matching enumerated is a perfect matching of the vertex list |
| `Hafnian.WithoutMultiset` | Direct_MPS_cupy.py:129-152 | pairing the first vertex with vertex k leaves exactly the other vertices |
| `Hafnian.OddHasNoMatchings` | Direct_MPS_cupy.py:137-138 | an odd vertex list has no perfect matching |
| `Hafnian.HafOfOddOrder` | Direct_MPS_cupy.py:137-138 | the hafnian of an odd-order matrix is 0 |
| `Hafnian.HafOfOrderZero` | Direct_MPS_cupy.py:134-135 | the hafnian of the empty matrix is 1 |
| `Hafnian.HafOfOrderTwo` | Direct_MPS_cupy.py:141-142 | the hafnian of order 2 is A[0][1] |
| `Hafnian.HafOfOrderFour` | Direct_MPS_cupy.py:149-150 | the hafnian of order 4 is A01·A23 + A02·A13 + A03·A12, its three perfect matchings |
| `Hafnian.RecursiveOrderTwo` | Direct_MPS_cupy.py:155-199 | the recursive algorithm returns A[1][0] on an order-2 matrix |
| `Hafnian.RecursiveOrderFour` | Direct_MPS_cupy.py:155-199 | the recursive algorithm returns A10·A32 + A20·A31 + A30·A21 on an order-4 matrix |
| `Hafnian.RecursiveIsHaf` | Direct_MPS_cupy.py:129-199 | on symmetric matrices of order 2 and 4 the recursive algorithm agrees with the perfect-matching sum |
| `Hafnian.Hafnian` | Direct_MPS_cupy.py:129-152 | the empty matrix gives 1 and any odd order gives 0 (so the order-3 formula is never reached); orders 2 and 4 give the matching sum or an index error on too few columns; order 0 with columns and even orders from 6 go to recursive_hafnian |
| `Batching.CeilDiv` | Direct_MPS_cupy.py:37 | ceil(a/b) is the least q with q·b ≥ a |
| `Batching.RangesTile` | Direct_MPS_cupy.py:38-42 | the batch ranges start at 0, each range but the last ends at the smaller of n_batch and the next range's begin, the last ends at n_batch, they are disjoint and in order, each spans at most 65535·16 items, and the last is empty exactly when ceil(n_batch/16) is a multiple of 65535 |
| `Batching.NextBegin` | Direct_MPS_cupy.py:39-42 | a range that is not the last ends at the smaller of n_batch and the next range's begin |
| `Batching.LastRange` | Direct_MPS_cupy.py:38-42 | the last range ends at n_batch and is empty exactly when the block count is a multiple of 65535 |
| `Batching.BeginBatch` | Direct_MPS_cupy.py:39-41 | begin_batch of superblock id is id·65535·16, a multiple of the superblock span from which id is recovered |
| `Batching.EndBatch` | Direct_MPS_cupy.py:40-42 | end_batch of superblock id never exceeds n_batch and is the smaller of n_batch and the next superblock's begin_batch, for every id |
| `Batching.SuperblockSize` | Direct_MPS_cupy.py:38-40 | every superblock of the loop holds 65535 blocks except the last, which holds the remainder: none exactly when the block count is a multiple of 65535 |
| `Batching.SuperblockNonEmpty` | Direct_MPS_cupy.py:39-42 | a superblock holds items exactly when its first block is below the block count |
| `Batching.EmptyFinalLaunch` | Direct_MPS_cupy.py:37-48 | for n_batch = 1048560 (65535 blocks) the loop runs two superblocks and the second has an empty range, where one superblock covers the batch |
| `Batching.GuardedRangesTile` | Direct_MPS_cupy.py:37-48 | with ceil(blocks/65535) superblocks every superblock holds items and together they reach n_batch |
| `Batching.Launch` | Direct_MPS_cupy.py:44-47 | one launch yields one selected value per row of its target slice |
| `Batching.LaunchInto` | Direct_MPS_cupy.py:44-47 | a launch over a non-empty range writes the kernel's value into every slot of its range and leaves every other slot unchanged |
| `Batching.SigmaSelect` | Direct_MPS_cupy.py:29-49 | as written: the launch loop fails with an empty grid exactly when n_select is 0 or the block count ceil(n_batch/16) is a multiple of 65535 (its last superblock then has no blocks); otherwise Sigma2 holds the kernel's value for every target row |
| `Batching.SigmaSelectGuarded` | Direct_MPS_cupy.py:29-49 | corrected: launching only the ceil(blocks/65535) superblocks that hold items, Sigma2 holds the kernel's value for every target row, for every batch size |
| `Batching.ChunkSize` | Direct_MPS_cupy.py:353 | n_batch_max is the largest number of n_select² · 8-byte matrices within the budget |
| `Batching.AElem` | Direct_MPS_cupy.py:349-369 | no columns is a division by zero, a budget below one matrix is a range step of 0; otherwise there is one value per target row, its hafnian divided by its denominator, in order (chunks go through the corrected launch loop) |
| `Builder.InteriorTarget` | Direct_MPS_cupy.py:527-539 | the assembly fails with a broadcast error exactly when size > 0 and the right table has no columns; otherwise it is the guarded assembly |
| `Builder.InteriorTargetGuarded` | Direct_MPS_cupy.py:527-539 | the vacuum entry exactly when size and j are 0; otherwise a target of j + size columns (j zeros, then the left block placed and the shifted right block added at the end) |
| `Builder.InteriorLayout` | Direct_MPS_cupy.py:527-539 | for a left row of total a and a pushed right row of total b, size a+b, the target is vacuum when size and j are 0, and otherwise j zeros, the left mode indices, then the right ones shifted by the left mode count |
| `Builder.BlocksMeet` | Direct_MPS_cupy.py:530-538 | the left block fills the first a slots and the shifted right block the last b slots |
| `Builder.InteriorSlotsOrdered` | Direct_MPS_cupy.py:527-539 | after the j zeros, no slot is 0, values are non-decreasing, and a slot is a left mode exactly when it is among the first a, so left values stay below right values |
| `Builder.InteriorEmptyRightFails` | Direct_MPS_cupy.py:532-538 | left [1], right of width 0, size 1 gives a broadcast error where the evident intent is the target [1] |
| `Builder.FirstSiteLayout` | Direct_MPS_cupy.py:459 | for a row of total size it is j zeros followed by the row's mode indices |
| `Builder.FirstSiteTarget` | Direct_MPS_cupy.py:459 | j zeros followed by left_target[:, :size]: j + min(size, width) columns |
| `Builder.FirstSiteAmplitudes` | Direct_MPS_cupy.py:455-461 | as written: it fails with a division by zero exactly when j = 0 and size = 0, and otherwise yields each target's hafnian over its denominator |
| `Builder.FirstSiteAmplitudesGuarded` | Direct_MPS_cupy.py:455-461 | corrected: never a division by zero; the vacuum case gives 1 for every row, as the other site loops do |
| `Scheduler.FirstZero` | Direct_MPS_cupy.py:415-419 | uncomputed_sites[0] is absent exactly when every flag is set; otherwise it is an in-range site whose flag is 0, with every earlier flag set |
| `Scheduler.AfterClaim` | Direct_MPS_cupy.py:419-420 | a claim sets the claimed site's flag to 1 and leaves every other flag as it was; with no site left the flags are unchanged |
| `Scheduler.FirstZeroIsLowest` | Direct_MPS_cupy.py:415-419 | the lowest zero flag is the site claimed |
| `Scheduler.UncomputedSites` | Direct_MPS_cupy.py:415 | np.where(active_sites == 0) lists exactly the in-range sites whose flag is 0 |
| `Scheduler.UncomputedAscending` | Direct_MPS_cupy.py:415 | the uncomputed sites are strictly ascending, so none appears twice |
| `Scheduler.NoneUncomputed` | Direct_MPS_cupy.py:416-418 | with every flag set no site is uncomputed |
| `Scheduler.ClaimTakesHead` | Direct_MPS_cupy.py:415-420 | a claim takes the first uncomputed site and leaves exactly the others uncomputed |
| `Scheduler.ClaimProgress` | Direct_MPS_cupy.py:413-421 | a claim either moves one site from uncomputed to claimed, or finds none and every flag is set |
| `Scheduler.FreshBoardUncomputed` | Direct_MPS_cupy.py:403 | on a fresh flag array of M zeros the uncomputed sites are 0, 1, ..., M-1 |
| `Scheduler.SiteBoard.constructor` | Direct_MPS_cupy.py:403-404 | a fresh flag array of M zeros |
| `Scheduler.SiteBoard.Claim` | Direct_MPS_cupy.py:413-421 | one locked claim returns the lowest site with flag 0 and sets only its flag to 1; with none left it changes nothing |
| `Scheduler.SiteBoard.Drain` | Direct_MPS_cupy.py:410-421 | claims until one finds nothing: the sites claimed are exactly the uncomputed ones, each once, in ascending order, and then every flag is set |
| `Scheduler.RunFreshBoard` | Direct_MPS_cupy.py:400-421 | claims on a fresh board of M sites take 0, 1, ..., M-1 once each and then stop |

## Left out

- `williamson`, `blochmessiah`, `get_Sigma`, `get_U2_sq_U1` and `thermal_photons` are floating-point decompositions (sqrtm, schur, svd, eigenvalues, hyperbolic functions). `get_cumsum_kron` takes the per-mode photon distributions as input, and the site loops take the denominators.
- The CUDA kernel `sigma_select` is not part of this model. It is an abstract function of the target row, and the hafnian of what it selects is an abstract function to `real`.
- Normalisation and scatter of `Gamma` and `Lambda` are left out, together with the `err_tol` skip tests on `Lambda`. This covers the division by `Z` and `Lambda` and the selection of rows by their total (`np.where(left_sum == size)`). The target of one selected row is modelled.
- The last-site loop (:465-493) is left out beyond the vacuum guard its target construction shares with the interior loop.
- MPI rank, broadcast and barrier, `FileLock`, `np.load`/`np.save`, argparse, tqdm and timing are left out. A claim under the lock is one atomic method call, and the workers' claims are one sequence of such calls.
- Dtype widths (complex64, int8, int32) and the float rounding of `ceil` and of `max_memory_in_gb * 10**9` are left out. Integers are unbounded and the budget is a natural number of bytes.
- `Basis.GetCumsumKron`: `np.argsort` is not stable, so which of several equally probable states survive the cut at `max_dim` or `chi`, and in what order, is unspecified. `SortDesc` is one chosen determinisation of that tie-breaking, and the result is stated for it; the properties of `Basis.TopDescendingKeepsLargest` (descending, a sub-multiset, nothing dropped more probable than anything kept) hold of every tie-breaking.
- `sampling.py` consists of GPU contractions, matrix exponentials, random thresholds and MPI transfers. It is not part of this model.
- With a single mode, `get_cumsum_kron` returns a 1-D `num`. It is modelled as rows of length 1.
- `Hafnian.RecursiveIsHaf`: the recursive algorithm is proved equal to the perfect-matching sum only at orders 2 and 4, and only on symmetric matrices, which is the input it reads. For orders from 6, `Hafnian.Hafnian` promises the recursive value, whose structure `Recursive.Solve` states.
- The order-3 formula (:144-147) is unreachable, because the odd-order test (:137-138) returns first. It has no member.
- `Enumerator.PushToEnd`: right-alignment is promised only for rows whose nonzeros form a prefix, which is the form `get_target` produces. On other rows the scan is modelled as written, and `Enumerator.PushRowLosesNonzeros` shows that it is not idempotent there.
- `Batching.AElem` and `Builder.FirstSiteAmplitudes` require nonzero denominators. Those are square roots of factorial products and are never 0.
- The 4×4 threads that fill one selected matrix inside a block belong to the kernel and are not modelled; only the grid's shape is.
- `Batching.AElem`: its chunks go through the corrected launch loop `Batching.SigmaSelectGuarded`. With the loop as written, a chunk whose block count is a multiple of 65535 fails with an empty grid (see Findings); `AElem` does not promise that failure.
- `solve` never mutates `b` or `g`. This holds by construction, because they are immutable sequence values.

## Findings

| source | as written | input that shows it | evidently intended | confidence | as-written member | corrected member |
|---|---|---|---|---|---|---|
| Direct_MPS_cupy.py:455-461 with :353 | The first-site loop hands `A_elem` the target for j = 0 and size = 0, which has no columns. `n_batch_max` then divides by `n_select ** 2 * 8 = 0`. | j = 0, size = 0, and a left table with a vacuum row | Write the vacuum entry directly, as the last-site (:483-485) and interior (:527-529) loops do. | not executed | `Builder.FirstSiteAmplitudes` | `Builder.FirstSiteAmplitudesGuarded` |
| Direct_MPS_cupy.py:38-48 | `Sigma_select` runs `blockspergrid[2] // 65535 + 1` superblocks. When the block count ceil(n_batch/16) is a multiple of 65535, the last superblock has `end_block - begin_block == 0` blocks, and the kernel is launched with a zero grid dimension, which CUDA rejects. | n_batch = 1048560 (65535 blocks of 16): the second superblock has no blocks and an empty batch range | Run ceil(blocks/65535) superblocks, so every launch holds items. | not executed | `Batching.SigmaSelect` (shown by `Batching.EmptyFinalLaunch`) | `Batching.SigmaSelectGuarded` (proved with `Batching.GuardedRangesTile`) |
| Direct_MPS_cupy.py:532-538 | When the right target table has width 0 (every right row has total 0) and size > 0, `right_target_chosen` has no columns. `target[:, -0:]` then selects all `size` columns, so the addition fails to broadcast. | left row [1], right table of width 0, size 1 | Add the right block only when it has columns, which gives the target [1]. | not executed | `Builder.InteriorTarget` (shown by `Builder.InteriorEmptyRightFails`) | `Builder.InteriorTargetGuarded` (proved in `Builder.InteriorLayout`) |
