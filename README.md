# SOBER priors, dataset pool and weight stabiliser in Dafny

This project models the parts of SOBER (a batch Bayesian optimisation and
quadrature library) that hold exact logic, in two source files:

- `SOBER/_prior.py`:
  - the dataset-backed prior `DatasetPrior` and its base `Featurise`. This is a
    finite pool of binary feature rows with labels, keyed by `'0'`/`'1'`
    strings, sampled and queried without replacement, and renumbered
    `0..n_available-1` after every removal;
  - the uniform box prior, with its strict-interior support;
  - the evenly spaced categorical prior;
  - the two mixed priors, which place a continuous block and a discrete block
    side by side in an order set by `continous_first`.
- `SOBER/_weights.py`: `WeightsStabiliser`, covering cleansing of importance
  weights, the degeneracy check, and index resampling from weights or from
  their reciprocals.

Modules:

- `Wrappers`: `Option` and `Result`.
- `Indexing`: position sequences, gathers, boolean masks and `masked_select`.
- `Featurise`: row keys, their decoding, and pandas' `Index.get_loc` on the key
  index (`Lookup`).
- `DatasetPool`: the class `DatasetPrior`. Its fields are the key index, the
  labels, `available_index` and `n_available`. Its methods update them as the
  source does. Ghost fields record which original row each position holds and
  which rows were handed out, so "a removed row never comes back" is a
  preserved invariant.
- `Priors`: `Uniform`, `Categorical`, the block `Layout` and the two mixed
  priors, as values. Random draws are parameters.
- `Weights`: the `Weight` datatype, which is `Finite(real)`, `PosInf`, `NegInf`
  or `NaN`, and the `Stabiliser`. `Cleanse` is an in-place method on an array,
  specified by the pure `Cleansed`. The multinomial draw and the random
  permutation are parameters.

Behaviour of the code that the model keeps:

- Cleansing is not idempotent. It thresholds before it normalises, so
  `CleanseNotIdempotent` exhibits a vector that a second cleansing changes.
- `torch.multinomial` is called with its default `replacement=False`, so the
  multinomial branch returns distinct positions (`DrawFits`), not positions with
  repeats.
- A uniform draw of exactly 0 maps onto the lower face of the box. There the
  density is 0 (`UniformSampleOnFace`), so samples are not always in the
  support.
- `Index.get_loc` raises on a key that is not in the index, so `query` of such a
  row fails (`KeyNotFound`) instead of reporting it as misspecified.

## Model

| member | source | states |
|---|---|---|
| `Featurise.Trunc` | SOBER/_prior.py:451 | `int(x)` on a float truncates toward zero: the result lies within 1 of `x`, on the side of 0 |
| `Featurise.IntToString` | SOBER/_prior.py:451 | `str(n)` is never empty. It is one character exactly when `0 <= n < 10`, and that character is the digit of `n` |
| `Featurise.FeatureToString` | SOBER/_prior.py:451-453 | a row's key has at least one character per coordinate |
| `Featurise.KeyWidth` | SOBER/_prior.py:451-453 | a key has exactly one character per coordinate if and only if every coordinate truncates to a single decimal digit |
| `Featurise.EncodeDecode` | SOBER/_prior.py:441-477 | decoding the key of a single-digit row succeeds and gives the row's truncated coordinates |
| `Featurise.BinaryRoundTrip` | SOBER/_prior.py:441-477 | `string2feature(feature2string(v)) == v` for every 0/1 row |
| `Featurise.DecodeEncode` | SOBER/_prior.py:441-477 | the other direction: a digit string is the key of the row it decodes to |
| `Featurise.KeyCollision` | SOBER/_prior.py:451-453 | rows that are not single digits can collide: `[10]` and `[1, 0]` have the same key |
| `Featurise.StringToFeature` | SOBER/_prior.py:467-477 | `string2feature` succeeds exactly on digit strings. It gives one value per character, and those values re-encode to the string |
| `Featurise.FeaturiseKeys` | SOBER/_prior.py:479-489 | `featurise` succeeds exactly when the keys are a non-empty batch of digit strings of one width. It gives one row per key, each of that width and re-encoding to its key |
| `Featurise.KeyRow` | SOBER/_prior.py:477-502 | the `.float()` row decoded from a digit key has one entry per character and re-encodes to the key |
| `Featurise.BinaryKeyRow` | SOBER/_prior.py:441-477 | the key of a 0/1 row is a digit string and decodes to that same row |
| `Featurise.DigitValues` | SOBER/_prior.py:477 | `int(c)` per character of a digit string: one value in `0..9` per character, and it writes back to that character |
| `Featurise.Stringise` | SOBER/_prior.py:465 | one key per row, aligned with the rows |
| `Featurise.UniformDecodable` | SOBER/_prior.py:489 | a selection of digit keys of one width can be stacked exactly when it is not empty |
| `Featurise.UniformSelect` | SOBER/_prior.py:568-570 | masking keys of one width keeps them digit keys of one width |
| `Featurise.BatchRoundTrip` | SOBER/_prior.py:455-489 | decoding and stacking the keys of a non-empty batch of 0/1 rows of one width gives the batch back |
| `Featurise.Positions` | SOBER/_prior.py:515 | the positions of a key in the index, increasing, are exactly the rows holding that key |
| `Featurise.Lookup` | SOBER/_prior.py:515 | `get_loc` reports the key missing exactly when no row holds it, and a single position only when that row holds the key |
| `Featurise.LookupMeaning` | SOBER/_prior.py:515 | `get_loc` finds nothing exactly when no row has the key, a single position holding the key exactly when one row has it, and several rows otherwise |
| `Featurise.Locations` | SOBER/_prior.py:515 | one lookup per query row, in order |
| `Featurise.MatchesSound` | SOBER/_prior.py:517-524 | when every key is present, each returned index is in range, names the row holding the key when there is one such row, and is 0 for a shared key |
| `Featurise.SharedRowsMeaning` | SOBER/_prior.py:518-523 | the rows reported as misspecified are, in increasing order, exactly the query rows whose key is shared |
| `Featurise.FirstAbsent` | SOBER/_prior.py:515 | finds the first query row whose key is missing, and `None` exactly when every key is present |
| `DatasetPool.TracksAfterReset` | SOBER/_prior.py:552-555 | keeping increasing positions and consuming the rest preserves the pool bookkeeping: the surviving rows are distinct, none of them is consumed, and with the consumed rows they cover the dataset |
| `DatasetPool.MatchRows` | SOBER/_prior.py:504-524 | a failure is a `KeyNotFound` naming a query row whose key is not in the index. A success gives one index per query row, and every query key is in the index |
| `DatasetPool.MatchRowsMeaning` | SOBER/_prior.py:504-524 | `find_matching_row` fails exactly when some query key is missing, and names the first such key. Otherwise it returns one in-range index per query row, the row of the key when that row is unique, and 0 for exactly the reported shared-key rows |
| `DatasetPool.UniqueMatchRemoved` | SOBER/_prior.py:593-595 | after removing the matched positions, no key that matched a single row is left in the index |
| `DatasetPool.SampledRowsFresh` | SOBER/_prior.py:610-613 | distinct pool positions hold distinct original rows, none of them handed out before |
| `DatasetPool.DatasetPrior.constructor` | SOBER/_prior.py:538-543 | the index holds the key of every row, the labels are the first `len(features)` targets, every row is available, and nothing is consumed. A table of 0/1 rows is recorded as such, and one of a single width gives uniformly wide digit keys |
| `DatasetPool.DatasetPrior.BinaryRowsDecode` | SOBER/_prior.py:438-439 | in a pool built from 0/1 rows, every available key decodes to the original row that position holds |
| `DatasetPool.DatasetPrior.ResetIndices` | SOBER/_prior.py:545-555 | keys and labels are restricted to the given positions, in order. `n_available == len(ai)` and `available_index == [0..n_available-1]`. The parallel lengths and the bookkeeping invariant hold again |
| `DatasetPool.DatasetPrior.SetSubtract` | SOBER/_prior.py:557-570 | the elements of `A` in their order minus those at the positions listed in `B`. The result has `len(A)` elements less one per distinct position in `B`, so repeats in `B` do no harm |
| `DatasetPool.DatasetPrior.RemoveSampledIndex` | SOBER/_prior.py:572-580 | keys, labels and rows become the masked survivors in order, the pool shrinks by the number of distinct removed positions, and exactly the removed rows join the consumed set. Uniformly wide digit keys stay so |
| `DatasetPool.DatasetPrior.IndexToFeature` | SOBER/_prior.py:491-502 | decoding succeeds exactly when the selected keys can be stacked. Each returned row is the `.float()` decoding of the key at its index (`KeyRow`), and encodes back to that key |
| `DatasetPool.DatasetPrior.FindMatchingRow` | SOBER/_prior.py:504-524 | the loop over the lookups computes `MatchRows` of the index and the stringised query |
| `DatasetPool.DatasetPrior.CollectMatches` | SOBER/_prior.py:517-524 | the loop keeps each single position, writes 0 for a shared key, and reports exactly the shared-key rows, in order |
| `DatasetPool.DatasetPrior.Query` | SOBER/_prior.py:582-596 | fails, leaving the pool unchanged, exactly when the query is empty or a key is missing. Otherwise returns the labels at the matched indices, read before removal. The survivors are the masked rows in order, the pool shrinks by the number of distinct matched indices, and a key that matched a single row is gone. Uniformly wide digit keys stay so |
| `DatasetPool.DatasetPrior.Sample` | SOBER/_prior.py:598-614 | takes the first `k = min(n, n_available)` entries of a permutation (Python slice semantics for negative `n`). It returns the decoded keys of those rows (`DecodedAt`) and their labels, read before removal. For a 0/1 table the features are the original dataset rows held there (`OriginalAt`). Keys, labels and rows become the masked survivors and the pool shrinks by exactly `k`. The rows taken are distinct, were not consumed before, and are exactly the ones added to the consumed set. Failure leaves the pool unchanged and happens exactly when the keys cannot be stacked. For uniformly wide keys that is exactly when `k = 0`, and the keys stay uniformly wide |
| `DatasetPool.DatasetPrior.SampleAt` | SOBER/_prior.py:610-613 | the same for distinct positions `idx` already drawn: decoded keys and labels at `idx` read before removal, the masked survivors after, and the rows at `idx` moved to the consumed set |
| `DatasetPool.DatasetPrior.SampleFeature` | SOBER/_prior.py:616-628 | the features of the first `n` permuted rows: the decoded keys (`KeyRow`), re-encoding to those keys, and the original rows for a 0/1 table. The method modifies nothing |
| `DatasetPool.DatasetPrior.AvailableCandidates` | SOBER/_prior.py:630-637 | the features of every available row in pool order: the decoded keys (`KeyRow`), re-encoding to those keys, and the original rows for a 0/1 table. The method modifies nothing |
| `Priors.ReciprocalProd` | SOBER/_prior.py:52 | `(1/(maxs - mins)).prod()` is positive for a box with sides of positive length |
| `Priors.Uniform.InvVolume` | SOBER/_prior.py:52 | the constant density of a valid box is positive |
| `Priors.Uniform.Density` | SOBER/_prior.py:52-57 | the density of one row is non-negative, and positive exactly on the open box |
| `Priors.Uniform.Pdf` | SOBER/_prior.py:42-57 | one density per row, aligned with the batch |
| `Priors.Uniform.MapDraw` | SOBER/_prior.py:40 | the affine map of one draw keeps the width of the box |
| `Priors.Uniform.Sample` | SOBER/_prior.py:24-40 | one mapped row per draw |
| `Priors.UniformSupport` | SOBER/_prior.py:52-57 | the density is positive exactly on the open box, where it is the reciprocal volume. Elsewhere it is 0 |
| `Priors.UniformBoundary` | SOBER/_prior.py:53-56 | a point on a face of the box has density 0 |
| `Priors.UniformSampleInBox` | SOBER/_prior.py:35-40 | every draw in `[0, 1)` lands in `[mins, maxs)`. A draw strictly above 0 in every coordinate lands where the density is the reciprocal volume |
| `Priors.UniformSampleOnFace` | SOBER/_prior.py:35-40 | a draw of exactly 0 lands on the lower face and gets density 0 |
| `Priors.Uniform.LogDensityAsWritten` | SOBER/_prior.py:69-74 | as written, `logpdf` is never `-inf`: it is the logarithm of a positive number. Inside the box it is the logarithm of `pdf` |
| `Priors.Uniform.LogDensityOf` | SOBER/_prior.py:59-74 | with `-inf` outside the box, the log-density is the logarithm of `pdf` everywhere, and `-inf` exactly where `pdf` is 0 |
| `Priors.UniformLogDensityAsWrittenOutside` | SOBER/_prior.py:69-74 | as written, `logpdf` outside the box is `log 1 = 0`, i.e. a density of 1 where `pdf` is 0 |
| `Priors.UniformLogDensityAsWrittenInside` | SOBER/_prior.py:69-74 | inside the box the written `logpdf` agrees with the corrected one and with `pdf` |
| `Priors.UnitSquare` | SOBER/_prior.py:42-74 | on the unit square the density is 0 at the corner and 1 at the centre, and the written `logpdf` at the corner is `log 1` |
| `Priors.Categorical.Candidates` | SOBER/_prior.py:140 | `linspace(min, max, n_discrete)`: one level per index |
| `Priors.Categorical.Levels` | SOBER/_prior.py:153 | one level per drawn index of a row |
| `Priors.Categorical.SampleBoth` | SOBER/_prior.py:155-167 | `sample_both` returns the levels at the drawn indices, and the indices themselves unchanged |
| `Priors.CategoricalLevels` | SOBER/_prior.py:140 | the levels run from `min` to `max` inclusive, strictly increasing when `min < max` |
| `Priors.CategoricalIndexRecoverable` | SOBER/_prior.py:140 | when `min < max`, two levels are equal if and only if their indices are, so a sampled value determines its index |
| `Priors.CategoricalSampleOnGrid` | SOBER/_prior.py:142-153 | each sampled value is the candidate at its drawn index and lies in `[min, max]` |
| `Priors.Categorical.Density` | SOBER/_prior.py:169-179 | the mass of any row lies in `(0, 1]` |
| `Priors.CategoricalDensity` | SOBER/_prior.py:169-179 | the mass of a row of `d` columns is `(1/n_discrete)^d`, lies in `(0, 1]`, and times the `n_discrete^d` grid points gives 1 |
| `Priors.Layout.Join` | SOBER/_prior.py:386-389 | `hstack` of the two blocks in the configured order has the sum of their widths |
| `Priors.Layout.JoinRows` | SOBER/_prior.py:384-389 | the batch `hstack` joins row by row |
| `Priors.SplitJoin` | SOBER/_prior.py:366-372 | for either order, `separate_samples` of a joined row gives back both blocks |
| `Priors.JoinSplit` | SOBER/_prior.py:269-275 | for either order, joining the two parts of any split restores the row |
| `Priors.Layout.Split` | SOBER/_prior.py:355-372 | the two blocks together have the row's width, and a row of the joint width splits into blocks of the configured widths |
| `Priors.BlockUniform` | SOBER/_prior.py:350-352 | the uniform block spans the continuous width, and is a valid box when `min < max` |
| `Priors.MixedCategorical.Cont` | SOBER/_prior.py:350-352 | the continuous part of the mixed categorical prior is a valid box of the continuous width |
| `Priors.MixedCategorical.Disc` | SOBER/_prior.py:353 | the discrete part is a valid categorical prior of the discrete width |
| `Priors.MixedCategorical.Sample` | SOBER/_prior.py:374-389 | one row per draw, each of the joint width |
| `Priors.MixedCategorical.SampleBoth` | SOBER/_prior.py:391-413 | both outputs have one row per draw |
| `Priors.MixedCategoricalSampleSplits` | SOBER/_prior.py:374-389 | `separate_samples` finds each row's mapped uniform draw and its categorical levels where `sample` put them |
| `Priors.MixedCategoricalSampleBoth` | SOBER/_prior.py:402-413 | both outputs of `sample_both` use the same order and the same continuous block. The second carries the indices, and the first carries the candidates they name |
| `Priors.MixedCategorical.Density` | SOBER/_prior.py:415-428 | the joint density is non-negative, and 0 exactly when the continuous block lies outside the open box |
| `Priors.MixedBinary.Sample` | SOBER/_prior.py:277-292 | one row per draw, each of the joint width |
| `Priors.MixedBinary.Density` | SOBER/_prior.py:294-307 | `pdf` rejects a binary block with an entry outside `{0, 1}`. Otherwise it is non-negative, and 0 exactly when the continuous block lies outside the open box |
| `Priors.MixedBinary.LogDensityAsWritten` | SOBER/_prior.py:309-322 | as written, `logpdf` rejects the same rows as `pdf`, is never `-inf`, and inside the box is the logarithm of `pdf` |
| `Priors.MixedBinaryLogDensityAsWrittenOutside` | SOBER/_prior.py:319-322 | outside the box the written `logpdf` stands for the density `0.5^n_binary` where `pdf` gives 0 |
| `Priors.MixedBinarySampleSplits` | SOBER/_prior.py:258-292 | for either order, `separate_samples` recovers the mapped uniform draw and the bits of every sampled row |
| `Weights.Reciprocals` | SOBER/_weights.py:90 | `1 / weights` entry by entry: 0 becomes `+inf`, an infinity becomes 0, and NaN stays NaN |
| `Weights.PositiveIndicesMeaning` | SOBER/_weights.py:73 | `arange(len(w))[w > 0]` is increasing and in range, and holds exactly the positions of positive weight |
| `Weights.NonPositiveOfMeaning` | SOBER/_weights.py:74 | the top-up candidates are the entries of the permutation whose weight is not positive, and they are distinct |
| `Weights.Stabiliser.Stage` | SOBER/_weights.py:31-33 | after the three masked passes every entry is finite |
| `Weights.Stabiliser.Staged` | SOBER/_weights.py:31-33 | the passes act entry by entry |
| `Weights.Stabiliser.Cleansed` | SOBER/_weights.py:34-37 | the cleansed vector has the input's length |
| `Weights.Stabiliser.Cleanse` | SOBER/_weights.py:21-38 | the returned array holds `Cleansed` of the input. With a nonzero sum it is the input array itself, normalised in place. With a zero sum it is a fresh array, and the input is left as the passes made it |
| `Weights.Stabiliser.MaskedPasses` | SOBER/_weights.py:31-33 | the three in-place masked assignments leave every entry staged |
| `Weights.Stabiliser.SumOf` | SOBER/_weights.py:34 | `weights.sum()` over the array is the left-to-right total |
| `Weights.Stabiliser.DivideBy` | SOBER/_weights.py:35 | `weights /= sum` divides every entry in place |
| `Weights.Stabiliser.DeweightedResampling` | SOBER/_weights.py:79-93 | resampling from the cleansed reciprocals of the weights, built in a fresh array and cleansed in place |
| `Weights.StageValue` | SOBER/_weights.py:31-33 | with `eps >= 0` no staged entry is negative. An entry below `eps` becomes 0, any other becomes at least `eps`, and a finite entry at or above `eps` is kept |
| `Weights.StageMono` | SOBER/_weights.py:31-33 | on finite values the passes keep the order of the weights |
| `Weights.StagedNonNegative` | SOBER/_weights.py:31-34 | the staged entries are non-negative and each is at most their sum |
| `Weights.CleansedSumsToOne` | SOBER/_weights.py:34-37 | a cleansed non-empty vector sums to 1 in both branches |
| `Weights.CleansedRange` | SOBER/_weights.py:34-37 | every cleansed entry lies in `[0, 1]`, so the result is a valid multinomial input |
| `Weights.CleansedZero` | SOBER/_weights.py:31-35 | with a nonzero staged sum, an entry cleanses to 0 exactly when it was below `eps` or `-inf`. `+inf` and NaN keep a positive share |
| `Weights.CleansedFallback` | SOBER/_weights.py:34-37 | the uniform fallback is taken only when every weight was below `eps` or `-inf` |
| `Weights.UniformFixedPoint` | SOBER/_weights.py:21-38 | the uniform vector is cleansed to itself when `1/n >= eps` |
| `Weights.CleanseNotIdempotent` | SOBER/_weights.py:31-35 | with the default `eps`, `[1, eps]` cleanses to a vector with a positive second entry, which a second cleansing zeroes |
| `Weights.Stabiliser.CheckWeights` | SOBER/_weights.py:40-55 | passing `check_weights` needs at least `thresh` entries and at least one nonzero weight |
| `Weights.CheckAfterCleanse` | SOBER/_weights.py:50-55 | after cleansing, `check_weights` holds exactly when there are at least `thresh` distinct values |
| `Weights.UniformFailsCheck` | SOBER/_weights.py:52-53 | the uniform vector fails the check for any `thresh >= 2` |
| `Weights.FallbackFailsCheck` | SOBER/_weights.py:36-37 | whatever the cleansing fallback returns fails the check for any `thresh >= 2` |
| `Weights.ResamplingAsWrittenRepeats` | SOBER/_weights.py:73-75 | as written, weights `[1, 0, 0]` with `n_nys = 2` and permutation `[0, 1, 2]` resample to `[0, 0]`. The corrected top-up gives `[0, 1]` |
| `Weights.SplitCount` | SOBER/_weights.py:73-74 | the positive positions and the non-positive entries of a permutation together number `len(weights)` |
| `Weights.Stabiliser.WeightedResamplingAsWritten` | SOBER/_weights.py:57-77 | as written, resampling fails exactly when the multinomial branch rejects its input. The fallback returns every positive position first, then `min(n_nys - n_positive, len(weights))` more |
| `Weights.WeightedResamplingAsWrittenMeaning` | SOBER/_weights.py:57-77 | as written, every returned position is in range. The fallback covers every positive position. The multinomial branch returns `n_nys` distinct positions of positive weight |
| `Weights.Stabiliser.WeightedResampling` | SOBER/_weights.py:57-77 | resampling fails exactly when the multinomial branch rejects its input. The fallback returns every positive position first and at most `n_nys` positions in all |
| `Weights.WeightedResamplingMeaning` | SOBER/_weights.py:57-77 | resampling fails exactly when the multinomial branch rejects its input. Otherwise it returns `min(n_nys, len(weights))` distinct in-range positions: every positive position in the fallback, and only positive positions in the multinomial branch |
| `Weights.FallbackMeaning` | SOBER/_weights.py:73-75 | the fallback's positive positions plus the top-up are `min(n_nys, n)` distinct in-range positions, covering every positive one |
| `Weights.FallbackDistinct` | SOBER/_weights.py:75 | positive positions followed by distinct non-positive ones repeat nothing |
| `Weights.CleansedHasPositive` | SOBER/_weights.py:91 | a cleansed non-empty vector has at least one positive entry |
| `Weights.DeweightedSucceeds` | SOBER/_weights.py:90-92 | deweighted resampling of a non-empty vector succeeds exactly when at least one sample is asked for |
| `Weights.ZeroWeightSelectable` | SOBER/_weights.py:90-91 | a zero weight has reciprocal `+inf`, which is cleansed to a positive share, so its position can be drawn |
| `Weights.DeweightReversesOrder` | SOBER/_weights.py:90-91 | of two positive finite weights, the smaller gets at least the share of the larger after deweighting |

## Left out

- Random generation is not modelled. This covers the scrambled Sobol sequence,
  `torch.rand`, the categorical and Bernoulli samplers, `torch.randperm` and
  `torch.multinomial`. Each draw is a parameter whose shape is a precondition.
  The multinomial draw is constrained only by what the call promises
  (`DrawFits`).
- The `qmc` flag of `Uniform.sample` only chooses the random source, so the
  model takes the draws directly.
- `Gaussian` and `BinaryPrior` on their own are left out. They wrap the normal
  and Bernoulli distributions of the distributions library. Inside
  `MixedBinaryPrior`, the Bernoulli mass of a 0/1 block is modelled as `0.5` per
  bit, and a value outside `{0, 1}` is modelled as rejected.
- Floating point is not modelled. Densities, sums and quotients are exact reals:
  no rounding, overflow, underflow or signed zero. `1 / 0` is taken as `+inf`.
  The float `log`/`exp` of densities are represented by `LogDensity`.
- Floating NaN inside `unique` (in `check_weights`) is not modelled: weights are
  reals there, as after cleansing.
- `print` in `find_matching_row` and `warnings.warn` in `weighted_resampling` are
  side effects. The printed rows are returned as `Matched.misspecified`, and the
  warning is not modelled.
- The pandas `DataFrame` and `Index` are a sequence of keys, and
  `Index.get_loc` is a lookup with three outcomes. A boolean-mask result and a
  slice result are both "shared".
- Python `int()` on Unicode digits other than `0`-`9` is not modelled. Such a
  key is treated as undecodable.
- Priors.Uniform.Valid: the box must have sides of positive length. The source
  accepts any box. A side of length 0 makes `1/(maxs - mins)` infinite, and
  every row then has a coordinate at or beyond a bound, so `pdf` is
  `inf * 0 = NaN`. With `mins > maxs` on a side, every row again fails the mask.
  `pdf` is then 0, or `-0.0` for an odd number of reversed sides, and `logpdf`
  takes the log of a possibly negative product. None of this is modelled.
- Priors.Categorical.Valid: requires `n_discrete >= 1`. With 0 categories,
  `weights.unique()[0]` raises an index error in `set_prior`.
- Priors.Uniform.Pdf and the other row functions require rows of the prior's
  width. Another width is a broadcasting error in the source.
- DatasetPool.DatasetPrior.constructor: requires at least `len(features)`
  targets. Fewer make `true_targets[arange(len(features))]` raise an index
  error.
- DatasetPool.DatasetPrior.ResetIndices: requires increasing positions. Both
  callers pass such positions: `__init__` (SOBER/_prior.py:542) passes
  `arange(len(features))`, and `remove_sampled_index` (SOBER/_prior.py:580)
  passes a `masked_select` of `arange`. The source accepts any index tensor.
- Weights.Stabiliser.DeweightedResampling: resamples with the corrected
  `WeightedResampling`, not the written one (see Findings).
- Weights.Stabiliser.CheckWeights: takes the weights as reals, so infinities
  and NaN in an uncleansed tensor are not covered.
- The `DatasetPrior.type` and the other `type` strings are labels with no
  behaviour.
- `experiments/` holds configuration glue and is not part of this model.

## Findings

| source | as written | input that shows it | evidently intended | confidence | as-written member | corrected member |
|---|---|---|---|---|---|---|
| SOBER/_prior.py:69-74 | `logpdf` multiplies the log density by the 0/1 support mask, so outside the box it returns `0 = log 1` | any row outside the box, e.g. the corner `[0, 0]` of the unit square | `-inf`, the logarithm of the density 0 that `pdf` gives there | not executed | `Priors.UniformLogDensityAsWrittenOutside` | `Priors.Uniform.LogDensityOf` |
| SOBER/_weights.py:73-75 | the fallback tops up with the first entries of a permutation of all positions, which may repeat positive positions already taken | weights `[1, 0, 0]`, `n_nys = 2`, permutation `[0, 1, 2]` gives `[0, 0]` | `n_nys` distinct positions: the top-up drawn from the positions of non-positive weight | not executed | `Weights.ResamplingAsWrittenRepeats` | `Weights.Stabiliser.WeightedResampling` |
