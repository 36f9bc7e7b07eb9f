# Subspace Outlier Detection (pyod `SOD`) in Dafny

This project models the Subspace Outlier Detection detector of pyod
(`pyod/models/sod.py`) and proves properties of it. The model has three modules:

- `Snn` (`snn.dfy`) is the shared-nearest-neighbour reference-set builder `_snn_imp`.
  - Row i of the k-nearest-neighbour index matrix is read as a set.
  - The similarity of points i and j is the number of neighbours their rows share.
  - Point i's own slot is overwritten with the uint32 maximum.
  - The indices are ordered by decreasing value, and the `ref_set` entries after the first are kept.
  - `SnnImp` fills a two-dimensional array row by row through a scratch array, as the source does.
  - The stable-sort question is left open. The source uses numpy's default unstable sort, so the order among equal similarities is not fixed. Reference rows are therefore specified relationally by `IsReferenceRow`: r distinct points, none of them i, in non-increasing similarity, and none left out more similar than one kept. The selection method `TopIndices` (repeated arg-max, lowest index first on ties) is proved to meet that relation.
  - `ReferenceProfileUnique` shows that the similarity values of a reference row are the same for every valid choice.
- `Subspace` (`subspace.dfy`) is the scorer `_sod`.
  - For each point it computes the column means of its reference rows and the total variance `var_total`.
  - It computes the threshold `var_expect = alpha * var_total / d` and the per-dimension population variances `var_actual`.
  - It builds the indicator of dimensions with `var_actual[j] < var_expect` (strict), and its sum `rel_dim`.
  - The score is the mean squared deviation from the means over the relevant dimensions. When `rel_dim` is 0 the entry stays at its initial 0.
  - `Sod` is the loop over a zero-initialised score array. It is proved equal to the specification function `Scores`.
  - The lemmas cover:
    - the meaning of `rel_dim`;
    - that `rel_dim < d` for alpha ≤ 1;
    - that the relevant set grows monotonically in alpha;
    - when the score is 0;
    - the degenerate reference sets.
- `Detector` (`detector.dfy`) is the `SOD` class.
  - `__init__` becomes the argument checks (`CheckConfig`, with one error per check, in the source's order), a constructor and a factory `Create` that returns `Ok` or `Err`.
  - `decision_function` runs `SnnImp` and then `Sod`.
  - `fit` stores the training scores in `decisionScores`, and the configuration fields are unchanged.

The k-nearest-neighbour index matrix, which the source obtains from scikit-learn's
`NearestNeighbors` in `_snn`, is a parameter `ind` of `DecisionFunction` and `Fit`.

One case deserves a note. One might expect a reference set of identical points to make
every dimension relevant, since every variance is 0.

- In the code, `var_total` is 0 for such a set, so `var_expect` is 0.
- No variance is strictly below 0, so `rel_dim` is 0 and the score stays 0 (`IdenticalReferenceScoresZero`).

## Model

| member | source | states |
|---|---|---|
| Snn.Similarity | code/pyod-master/pyod/models/sod.py:34-36 | the shared-neighbour count of i and j is at most the number of neighbours of either point |
| Snn.ArgMaxUnused | code/pyod-master/pyod/models/sod.py:38 | returns an unused index whose value is the largest among unused indices, and every earlier unused index has a strictly smaller value (ties go to the lowest index) |
| Snn.TopIndices | code/pyod-master/pyod/models/sod.py:38 | the first m indices of the array in decreasing value order: distinct, in range, values non-increasing, and no index left out has a larger value than one taken; among equal values the lower index comes first, and no index left out ties with a higher-indexed one taken |
| Snn.SelfRanksFirst | code/pyod-master/pyod/models/sod.py:37-38 | an index whose value is strictly above all others (the uint32 maximum in the self slot) is first in every descending order |
| Snn.TopPrefixTail | code/pyod-master/pyod/models/sod.py:37-38 | dropping the first index (the point itself) of a descending order of r + 1 similarities leaves a valid reference row of r points |
| Snn.ReferenceRow | code/pyod-master/pyod/models/sod.py:33-38 | one row of `_snn_imp`: r distinct points, none equal to i, in non-increasing similarity to i, and no other point outside the row more similar than one inside |
| Snn.StoreRow | code/pyod-master/pyod/models/sod.py:38 | writing a row of the result matrix sets exactly that row and leaves every other row unchanged |
| Snn.SnnImp | code/pyod-master/pyod/models/sod.py:17-40 | returns an n-by-r matrix whose every row i is a valid reference row of point i (distinct points, never i, the r most similar in non-increasing order), given r < n and k below the uint32 maximum |
| Snn.ReferenceProfileUnique | code/pyod-master/pyod/models/sod.py:35-38 | any two valid reference rows of the same point have equal similarities position by position, so the unfixed tie order changes only which of the equally similar points are taken |
| Subspace.Gather | code/pyod-master/pyod/models/sod.py:188 | one row per reference index, each a row of X |
| Subspace.Means | code/pyod-master/pyod/models/sod.py:189 | the column means have one entry per dimension |
| Subspace.MeansCentre | code/pyod-master/pyod/models/sod.py:189 | the deviations of a column from its mean add up to zero |
| Subspace.VarTotal | code/pyod-master/pyod/models/sod.py:191 | the total variance is never negative |
| Subspace.VarActual | code/pyod-master/pyod/models/sod.py:193 | one population variance per dimension, each never negative |
| Subspace.VarExpectBounds | code/pyod-master/pyod/models/sod.py:192 | for alpha in [0, 1] the threshold lies between 0 and the mean variance var_total / d |
| Subspace.VarExpectMono | code/pyod-master/pyod/models/sod.py:192 | for a non-negative var_total the threshold does not decrease when alpha grows |
| Subspace.RelevanceMask | code/pyod-master/pyod/models/sod.py:194 | one 0/1 entry per dimension, 1 exactly when that dimension's variance is strictly below the threshold |
| Subspace.Relevance | code/pyod-master/pyod/models/sod.py:189-194 | the relevance indicator of a reference set has one 0/1 entry per dimension |
| Subspace.Count | code/pyod-master/pyod/models/sod.py:195 | rel_dim, the sum of the indicator, is at most its length |
| Subspace.CountZeroIff | code/pyod-master/pyod/models/sod.py:195-196 | rel_dim is 0 exactly when no entry of the indicator is 1 |
| Subspace.DotNonNeg | code/pyod-master/pyod/models/sod.py:198 | the indicator-weighted sum (`np.dot`) of non-negative squared deviations is never negative |
| Subspace.DotZeroIff | code/pyod-master/pyod/models/sod.py:198 | the indicator-weighted sum of non-negative entries is 0 exactly when every selected entry is 0 |
| Subspace.VarTotalIsSumOfVariances | code/pyod-master/pyod/models/sod.py:191-193 | the total variance equals the sum of the per-dimension variances |
| Subspace.RelDimIsCardinality | code/pyod-master/pyod/models/sod.py:194-195 | rel_dim, the sum of the indicator, is the number of dimensions whose variance is strictly below the threshold |
| Subspace.NoThresholdNoRelevance | code/pyod-master/pyod/models/sod.py:192-195 | a threshold at or below 0 makes no dimension relevant, since variances are never negative |
| Subspace.NoQualifyingDimensionScoresZero | code/pyod-master/pyod/models/sod.py:194-197 | when no variance is strictly below the threshold, rel_dim is 0 and the score stays 0 |
| Subspace.NotEveryDimensionRelevant | code/pyod-master/pyod/models/sod.py:191-195 | for alpha ≤ 1 at least one dimension is not relevant: rel_dim < d |
| Subspace.AlphaMonotone | code/pyod-master/pyod/models/sod.py:191-194 | raising alpha never turns a relevant dimension irrelevant, so rel_dim never shrinks |
| Subspace.WeightedDeviationZeroIff | code/pyod-master/pyod/models/sod.py:197-198 | the indicator-weighted sum of squared deviations is 0 exactly when the observation equals the means on every selected dimension |
| Subspace.SquaredScore | code/pyod-master/pyod/models/sod.py:187-198 | the squared score of one point is never negative |
| Subspace.ScoreZeroIff | code/pyod-master/pyod/models/sod.py:194-198 | when rel_dim > 0 the score is 0 exactly when the observation equals the reference means on every relevant dimension (both directions) |
| Subspace.IdenticalReferenceScoresZero | code/pyod-master/pyod/models/sod.py:189-198 | a reference set of identical rows has those rows as its means and zero total variance, so rel_dim is 0 and the score is 0 for any observation |
| Subspace.IdenticalPointsScoreZero | code/pyod-master/pyod/models/sod.py:185-198 | when all points are identical, every score is 0 |
| Subspace.Scores | code/pyod-master/pyod/models/sod.py:185-198 | one score per point, each never negative |
| Subspace.PointScore | code/pyod-master/pyod/models/sod.py:186-198 | one loop iteration of `_sod`: rel_dim is the number of dimensions whose variance is strictly below the threshold, and below d when alpha ≤ 1; the score is the point's squared score, never negative, 0 when rel_dim is 0, and otherwise 0 exactly when the observation equals the reference means on every relevant dimension |
| Subspace.Sod | code/pyod-master/pyod/models/sod.py:175-200 | the loop over a zero-initialised array, writing only when rel_dim ≠ 0, yields exactly the per-point scores of `Scores` |
| Detector.CheckConfig | code/pyod-master/pyod/models/sod.py:93-108 | succeeds exactly when 1 ≤ n_neighbors, 1 ≤ ref_set < n_neighbors and 0 < alpha < 1, and then keeps the arguments; otherwise it reports the first failing check (n_neighbors, then ref_set, then alpha), each error when and only when its check is reached and fails |
| Detector.OversizedRefSetRejected | code/pyod-master/pyod/models/sod.py:99-101 | a ref_set at least as large as n_neighbors is always rejected |
| Detector.SOD.constructor | code/pyod-master/pyod/models/sod.py:110-113 | stores the checked configuration, with no decision scores yet |
| Detector.SOD.Create | code/pyod-master/pyod/models/sod.py:90-113 | a detector is created exactly when the configuration is valid, with the given fields and no scores; otherwise the error of the first failing check |
| Detector.SOD.DecisionFunction | code/pyod-master/pyod/models/sod.py:140-173 | one score per point, each never negative, equal to the subspace scores against some valid choice of shared-nearest-neighbour reference sets for the given neighbour matrix |
| Detector.SOD.Fit | code/pyod-master/pyod/models/sod.py:115-138 | stores one never-negative score per training point, computed as in DecisionFunction, and leaves the configuration unchanged |

## Left out

- Subspace.SquaredScore: the model stores the squared score, the value under `np.sqrt` at sod.py:197. The square root is strictly monotone, so the ranking of points and the cases where the score is 0 are the same. The same applies to Subspace.PointScore, Subspace.Scores, Subspace.Sod, Detector.SOD.DecisionFunction and Detector.SOD.Fit.
- Floating point: arithmetic is over exact reals, and IEEE rounding is not modelled. For example, in floating point the mean of identical values need not be exact, so the zero-variance results hold for the exact model only.
- The k-nearest-neighbour search (`NearestNeighbors` in `_snn`, sod.py:169-172) belongs to scikit-learn and is not part of this model.
  - The index matrix is the parameter `ind`. It needs one row of `n_neighbors` entries per point.
  - `n_neighbors < n` is a precondition, which is what the search itself demands.
- The internals of `check_parameter` are not part of this model, so its bound inclusivity is not visible. `CheckConfig` uses the documented ranges: 1 ≤ n_neighbors, 1 ≤ ref_set < n_neighbors, 0 < alpha < 1.
- The `isinstance` checks of `__init__` (sod.py:93-108) are covered by Dafny's static types (`int`, `real`).
- `contamination`, `check_array`, `_set_n_classes` and `_process_decision_scores` (sod.py:90-92, 133-136) belong to the base class. They handle thresholding and labels, which this model leaves out.
- `numba` parallelism (`prange`, sod.py:16, 32, 35) is modelled as sequential loops. The iterations write disjoint entries.
- uint32 values are modelled as `nat`.
  - The sentinel is the uint32 maximum, and `k < UInt32Max` is a precondition, so the sentinel exceeds every similarity.
  - Wrap-around cannot occur, because similarities are at most k.
- Detector.SOD.DecisionFunction: the scores are stated to be those of some valid choice of reference sets. The source's unstable sort fixes one choice that is not visible, so the model does not say which.
- The division in `var_total` is by the number of reference rows (`Subspace.VarTotal`). In the source it is by `ref_set` (sod.py:191), and both are equal because every reference row has `ref_set` entries.
- `Subspace.Sod` takes the reference index matrix as its sequence of rows. `Detector.SOD.DecisionFunction` converts the `array2` returned by `SnnImp` with `Snn.Rows`.
