# Water thresholding of hydra-floods, modelled in Dafny

This project models the threshold-selection logic of `hydrafloods/thresholding.py`.
That file picks a per-scene threshold that separates water from land in a
satellite raster (radar backscatter or a spectral index), then classifies each
pixel against it. It has three paths:

- **grid (bmax) path**:
  1. the footprint's bounding box is snapped to a lattice of `gridSize` cells;
  2. the cells that the footprint contains are scored by a bimodality measure `bmax`;
  3. cells above `bmaxThresh` survive, and are capped at about `maxBoxes` by random keys;
  4. the histogram of the sampled cells goes through Otsu's method;
  5. the image is classified with `lt` (or `gt` when `invert` is set).
- **edge path**: the histogram is taken over a buffer around detected edges, then goes through Otsu and the same classification.
- **bootstrap path**:
  1. a date with no imagery is an error;
  2. without intersecting reference polygons the threshold is `upper_threshold`;
  3. otherwise three polygon ids are drawn with replacement, Otsu runs over their histogram, and the result is capped at `upper_threshold`.

The model works over exact `real` values with `nat` counts. Engine reductions, the
footprint-containment test, the random keys and the random draws are parameters.

| file | module | contents |
|---|---|---|
| `common.dfy` | `Common` | `Option`, `Result`, the error kinds, total division, square, minimum |
| `otsu.dfy` | `OtsuSplit` | the histogram, the per-split class statistics, `Otsu`, and its properties |
| `grid.dfy` | `Grid` | snapping, the inclusive `ee.List.sequence`, rows and cells, and the tiling properties |
| `bmax.dfy` | `Bmax` | the cell statistics, the engine's truthiness fallback, the score as written and as intended |
| `sampling.dfy` | `Sampling` | scoring, the cut-off filter, the random-key cap |
| `classify.dfy` | `Classification` | the water map, threshold application, the grid and edge paths |
| `bootstrap.dfy` | `Bootstrap` | the bootstrap decision logic as a function and as a method with the draw loop |

A few choices are not obvious from the source:

- **Ties in Otsu.** `means.sort(bss).get([-1])` is modelled as the *last* maximising split. This assumes a stable sort.
- **Division by zero.** `Quotient` returns 0 for a zero divisor, as the engine's divide does. For the class means (`aMean`, `bMean`) the quotient is then multiplied by the same count, so the 0 does not reach the between-class sum. For the global mean and for the random-key ratio (`RandomThreshold`, with no survivors) the 0 is the code's own value.
- **Integer grid units.** Coordinates are integers in a unit in which `gridSize` is whole. Remainders use Dafny's Euclidean `%`.
- **`OrDefault`.** `ee.Algorithms.If(x, x, d)` replaces both a null and a numeric zero, which is the engine's truthiness.
- **Cell score as a parameter.** The grid path (`ScoreCells`, `Select`, `BmaxOtsu`) takes the cell score as a function. `Bmax.CalcBmaxAsWritten` is the code's `calcBmax`; `Bmax.CalcBmax` is the corrected score of the finding below. Every grid-path property holds for either score.

Behaviours of the code worth noting, which the model keeps:

- **One populated bucket.** The code does not fail on a histogram with a single populated bucket. Every split then scores 0 and the last bucket mean is returned (`SinglePopulatedBucket`).
- **Symmetric two-bucket histogram.** `[(0,c),(10,c)]` is not a tie. Only the first split separates anything, so the threshold is 0 (`SymmetricTwoBuckets`).
- **Bounds already on the lattice.** They gain one extra row and one extra column, because east and north move up by a whole step (`AlignedBoxGrows`). The unfiltered count is therefore `(north-south)/g × (east-west)/g` of the *snapped* box.
- **No `min(1, …)` on the acceptance ratio.** The code does not clamp the ratio, but the keys lie in [0, 1), so a ratio at or above 1 already keeps every survivor (`KeepAllWhenFew`).

## Model

| member | source | states |
|---|---|---|
| OtsuSplit.Otsu | hydrafloods/thresholding.py:242-264 | fails exactly when the histogram is ill-shaped or has zero total (with the matching error); otherwise returns a bucket mean, namely `means[k-1]` for a split k whose between-class sum is maximal and strictly larger than every later split's |
| OtsuSplit.LastArgMax | hydrafloods/thresholding.py:262-263 | the index returned holds the maximum and every later element is strictly smaller (last maximum, as a stable `sort(bss).get([-1])`) |
| OtsuSplit.GlobalMean | hydrafloods/thresholding.py:246-248 | for a non-empty histogram, `sums / total`: the count-weighted mean of the bucket means |
| OtsuSplit.ACount | hydrafloods/thresholding.py:253-254 | the lower-class count of split k plus the count of the buckets from k on is the total |
| OtsuSplit.AMean | hydrafloods/thresholding.py:255-256 | the lower-class mean: count times mean is the class's weighted sum, also for an empty class; for a populated class it is sum / count |
| OtsuSplit.BCount | hydrafloods/thresholding.py:257 | the upper-class count computed as total − aCount is the count of the buckets from k on, so never negative |
| OtsuSplit.BMean | hydrafloods/thresholding.py:258 | the upper-class mean computed by subtraction from the grand sum is, for a populated class, the mean of the buckets from k on |
| OtsuSplit.Bss | hydrafloods/thresholding.py:252-260 | the between-class sum of squares of every split is non-negative |
| OtsuSplit.BssList | hydrafloods/thresholding.py:249-262 | one score per split 1..size, element i being the score of split i+1, all non-negative |
| OtsuSplit.SplitDecomposition | hydrafloods/thresholding.py:246-260 | for every split: aCount + bCount = total, the upper class is the suffix, aCount·aMean = prefix sum, bMean is the suffix mean, and aCount·aMean + bCount·bMean = sums |
| OtsuSplit.FullSplit | hydrafloods/thresholding.py:251-260 | at k = size the lower class is everything: aCount = total, aMean = global mean, bCount = 0, and the split scores 0 (a defined value) |
| OtsuSplit.EmptyClassScoresZero | hydrafloods/thresholding.py:254-260 | a split with an empty class scores 0 |
| OtsuSplit.ZeroTotalScoresZero | hydrafloods/thresholding.py:246-263 | a histogram with buckets but zero total scores 0 at every split, and the last argmax is the last bucket, whose mean the code returns |
| OtsuSplit.BetweenClassIdentity | hydrafloods/thresholding.py:259-260 | the algebraic identity a(ma−μ)² + b(mb−μ)² = ab(ma−mb)²/(a+b) when μ is the weighted mean |
| OtsuSplit.OtsuIdentity | hydrafloods/thresholding.py:251-260 | the between-class sum of a split with two non-empty classes equals ab(ma−mb)²/(a+b) of its class counts and means |
| OtsuSplit.TwoClustersBss | hydrafloods/thresholding.py:251-260 | with only buckets p < q populated, a split scores the two-cluster separation if it lies between them and 0 otherwise |
| OtsuSplit.TwoClusters | hydrafloods/thresholding.py:242-264 | with only buckets p < q populated at distinct means, the threshold is the mean of bucket q−1 |
| OtsuSplit.SinglePopulatedBucket | hydrafloods/thresholding.py:242-264 | a single populated bucket makes every split score 0, and the last bucket mean is returned without error |
| OtsuSplit.SymmetricTwoBuckets | hydrafloods/thresholding.py:242-264 | `[(0,c),(10,c)]` gives threshold 0 |
| OtsuSplit.TieGoesToLaterSplit | hydrafloods/thresholding.py:262-263 | `[(0,c),(5,0),(10,c)]` has tied splits 1 and 2; the later wins and the threshold is 5 |
| OtsuSplit.TieFavoursLargerMean | hydrafloods/thresholding.py:262-263 | with ascending bucket means, the threshold is at least the mean of any maximal split |
| Grid.SnapDown | hydrafloods/thresholding.py:80-81 | the snapped value is a multiple of g, at most the input, and within one step of it |
| Grid.SnapUp | hydrafloods/thresholding.py:82-83 | the snapped value is a multiple of g strictly above the input, at most one step up, and exactly one step up for an aligned input |
| Grid.Snap | hydrafloods/thresholding.py:76-83 | all four edges of the snapped box are on the lattice; west/south do not increase, east/north strictly increase |
| Grid.AlignedBoxGrows | hydrafloods/thresholding.py:80-83 | an aligned box keeps west/south and gains one step on east/north |
| Grid.InSequence | hydrafloods/thresholding.py:26 | the inclusive sequence holds exactly the lattice points from start to end |
| Grid.SequenceElement | hydrafloods/thresholding.py:26 | element k of the inclusive sequence is start + k·step |
| Grid.SequenceLength | hydrafloods/thresholding.py:26 | between aligned end points the sequence has (end−start)/step + 1 elements |
| Grid.Row | hydrafloods/thresholding.py:20-26 | a row holds exactly the g×g cells at its columns that the footprint contains |
| Grid.Rows | hydrafloods/thresholding.py:19-27 | the flattened rows hold exactly the cells at a (row, column) pair that the footprint contains |
| Grid.CandidateCells | hydrafloods/thresholding.py:19-27 | every enumerated cell is a g×g cell that the footprint contains (its lattice position is `CandidateMembership`) |
| Grid.CandidateMembership | hydrafloods/thresholding.py:19-27 | a cell is a candidate iff it is a lattice g×g cell inside the snapped box and the footprint contains it |
| Grid.CandidatesDisjoint | hydrafloods/thresholding.py:19-27 | overlapping candidate cells are the same cell |
| Grid.CandidatesTile | hydrafloods/thresholding.py:19-27 | before filtering, each point of the snapped box lies in exactly one candidate, the cell at its snapped corner |
| Grid.CandidateCount | hydrafloods/thresholding.py:85-87 | before filtering there are (north−south)/g × (east−west)/g cells of the snapped box |
| Grid.CandidatesInside | hydrafloods/thresholding.py:19-27 | every candidate lies in the snapped box and is contained in the footprint |
| Bmax.OrDefault | hydrafloods/thresholding.py:39 | a present non-zero value is kept; a missing or zero value becomes the default, so a non-zero default gives a non-zero result |
| Bmax.WhenMissing | hydrafloods/thresholding.py:39 | a present value, zero included, is kept; only a missing one becomes the default |
| Bmax.AsWrittenStats | hydrafloods/thresholding.py:39-66 | after the source's fallbacks the variance divisor is never 0 |
| Bmax.IntendedStats | hydrafloods/thresholding.py:39-66 | after the corrected fallbacks the variance divisor is never 0 |
| Bmax.Score | hydrafloods/thresholding.py:58-67 | sigmab/sigmat is ≥ 0 when p1 ∈ [0,1] and sigmat > 0, and is 0 for a one-class split (p1 = 0 or 1) or equal class means |
| Bmax.CalcBmaxAsWritten | hydrafloods/thresholding.py:30-68 | the source's score is defined and ≥ 0 for well-formed statistics, and 0 for a cell wholly below the initial threshold (p1 = 1, so sigmab = 0) |
| Bmax.CalcBmax | hydrafloods/thresholding.py:30-68 | the corrected score is defined and ≥ 0 for well-formed statistics, and 0 for a cell wholly on one side of the initial threshold (p1 = 0 or 1) |
| Bmax.AsWrittenScoresOneClassCell | hydrafloods/thresholding.py:39-67 | a cell with p1 = 0, no lower mean, upper mean −5 and variance 0 scores 1.98 as written and 0 when corrected |
| Bmax.AgreeWithoutZeros | hydrafloods/thresholding.py:39-66 | unless p1 or m1 is exactly 0, the corrected score equals the source's |
| Bmax.NoDataScore | hydrafloods/thresholding.py:39-67 | a cell with no reductions scores 0.99·0.01·(−25−0)²/2 in both versions |
| Sampling.ScoreCells | hydrafloods/thresholding.py:89 | one scored cell per candidate, in order, each carrying the given score of its own statistics |
| Sampling.Survivors | hydrafloods/thresholding.py:89 | a scored cell survives iff its bmax exceeds the cut-off |
| Sampling.RandomThreshold | hydrafloods/thresholding.py:91-92 | the ratio is non-negative and ratio·nBoxes = maxBoxes when there are candidates |
| Sampling.KeepByKey | hydrafloods/thresholding.py:93 | a cell is kept iff it is a survivor whose key is below the limit; with every key below the limit all survivors are kept |
| Sampling.Select | hydrafloods/thresholding.py:89-93 | a cell is sampled iff it is a candidate carrying its own score, that score exceeds the cut-off, and its key is below maxBoxes/nBoxes; the sample is no larger than the grid |
| Sampling.SelectedAboveThreshold | hydrafloods/thresholding.py:89-93 | every sampled cell is a survivor and exceeds the cut-off |
| Sampling.CapAtLeastOne | hydrafloods/thresholding.py:91-92 | with 0 < nBoxes ≤ maxBoxes the ratio is at least 1 |
| Sampling.KeepAllWhenFew | hydrafloods/thresholding.py:89-93 | with keys in [0,1) and no more survivors than maxBoxes, the sample is every survivor |
| Sampling.SampleFromGrid | hydrafloods/thresholding.py:19-27 | a sampled grid cell is a lattice cell of the snapped box, contained in the footprint, carrying its own score above the cut-off |
| Sampling.OneClassCellSurvives | hydrafloods/thresholding.py:39-89 | the one-class cell of the finding survives the 0.75 cut-off with score 1.98 under the source's score, and is dropped under the corrected one |
| Classification.Classify | hydrafloods/thresholding.py:102-106 | the map has one 0/1 value per pixel, 1 exactly where the pixel is above (`invert`) or below the threshold, and carries the scene's timestamp |
| Classification.InvertComplements | hydrafloods/thresholding.py:102 | away from the threshold, the inverted map is the complement of the plain one |
| Classification.ThresholdPixelIsLand | hydrafloods/thresholding.py:155 | a pixel equal to the threshold is land in both directions |
| Classification.ApplyThreshold | hydrafloods/thresholding.py:100-106 | fails exactly when Otsu does, with Otsu's error; otherwise the map is the classification at Otsu's threshold, one of the histogram's bucket means |
| Classification.EdgeOtsu | hydrafloods/thresholding.py:134-159 | fails exactly when the edge histogram is unusable; otherwise classifies at Otsu's threshold of that histogram, one of its bucket means |
| Classification.BmaxOtsu | hydrafloods/thresholding.py:17-106 | fails exactly when the histogram of the sampled cells is unusable |
| Classification.BmaxOtsuResult | hydrafloods/thresholding.py:85-106 | on success the map classifies at Otsu's threshold of the sample's histogram, one of its bucket means; every sampled cell is a contained lattice cell of the snapped box scoring above the cut-off |
| Classification.EmptySampleFails | hydrafloods/thresholding.py:89-100 | a grid path whose sample is empty ends in the empty-histogram error |
| Classification.SeparatedPopulations | hydrafloods/thresholding.py:100-106 | two populations with a bucket strictly between them: the lower one is water, the upper land |
| Classification.AdjacentPopulations | hydrafloods/thresholding.py:100-106 | two populations in adjacent buckets: the threshold is the lower value and no pixel is water |
| Classification.HalvesExample | hydrafloods/thresholding.py:100-106 | a scene half −20 and half −5, with a three-bucket histogram: threshold −12.5, and exactly the −20 half is water |
| Bootstrap.ChosenSet | hydrafloods/thresholding.py:199-209 | the chosen ids are exactly the ids at the three drawn indices: one to three distinct ids, all from the id list |
| Bootstrap.BootstrapThreshold | hydrafloods/thresholding.py:190-234 | the NoImagery error occurs iff there are no scenes; without polygons the result is upper_threshold; every result is ≤ upper_threshold and is either upper_threshold or a bucket mean of the chosen polygons' histogram; with scenes and polygons it fails exactly when Otsu fails on that histogram |
| Bootstrap.BootstrapWater | hydrafloods/thresholding.py:236-240 | fails exactly when the threshold does; otherwise the composite classified with `lt` at that threshold, so no pixel at or above upper_threshold is water |
| Bootstrap.BootstrapOtsu | hydrafloods/thresholding.py:173-240 | the step-by-step procedure (guard, draw loop, lookup, Otsu, cap, `lt` classification) computes exactly `BootstrapWater` |
| Bootstrap.CappedOtsu | hydrafloods/thresholding.py:230-232 | with polygons, an Otsu threshold t gives min(t, upper_threshold) and an Otsu failure is the result's failure |
| Bootstrap.RepeatedDraws | hydrafloods/thresholding.py:200-209 | draws may repeat: indices [0, 0, 0] choose the single id `ids[0]` |

## Left out

- OtsuSplit.Otsu refuses a histogram with buckets but zero total (`EmptyHistogram`). Under the engine's zero-returning divide the code does not fail there: every split scores 0 and it returns the last bucket mean (`ZeroTotalScoresZero`). The reducer does not produce such a histogram, and a threshold from no pixels is meaningless.
- Engine reductions are left out because they are remote computations. This covers the `reduceRegion` mean, variance and histogram with `bestEffort` and `tileScale`, and the bands `p1`, `m1`, `m2` and `sigmat` they produce. These values are inputs: `CellStats`, and a `Histogram` or a function returning one.
- The edge-detection chain is left out because it is remote image processing. This covers Canny, `connectedPixelCount`, `focal_max` and `focal_median`, the mosaics, `clip`/`buffer`, and `filterDate`/`filterBounds`. The edge path contributes only the histogram given to `EdgeOtsu`; the bootstrap path contributes the number of scenes, the polygon ids, the smoothed composite and the histogram over the chosen polygons.
- Random number generation is left out. `randomColumn(seed)` becomes a key function from cell to key; `random.randint` becomes the given `draws`, assumed to lie in range.
- Floating-point behaviour is left out, including accumulation in `ee.List.sequence` with a fractional step and the engine's truncating `mod` on negative coordinates. Coordinates are integers in grid units and `%` is Euclidean.
- Grid.CandidatesTile treats points on cell boundaries as half-open. It does not model the engine's containment tolerance (`maxError=1`).
- Classification.EmptySampleFails assumes that the histogram of an empty sample has zero total. The reducer itself is not modelled.
- `collection.map`, `copyProperties` and the band names are left out. Only the timestamp property is kept.
- The clip of the bootstrap water map to the land mask is left out because it is an external geometry.
- `bootstrapOtsu`'s `reverse` argument is unused by the code, so the bootstrap path always classifies with `lt`.
- Crash paths of the source are not modelled; the model follows the evidently intended logic instead:
  - `qualityBand` is undefined at lines 113 and 166;
  - `smoothed` is undefined on the no-polygon path (line 236);
  - `img` is never bound in `bootstrapOtsu`, so lines 239-240 fail on every path and the function as written never returns; the model returns the map with the composite's timestamp;
  - `otsu_function` is undefined (line 232), and `otsu` is taken to be meant.
- `hydrafloods/preprocess.py` is not part of this model. It is reading, reprojection and writing of raster files.

## Findings

| source | as written | input that shows it | evidently intended | confidence | as-written member | corrected member |
|---|---|---|---|---|---|---|
| hydrafloods/thresholding.py:39 | `ee.Algorithms.If(p1, p1, 0.99)` replaces a fraction of exactly 0 (a cell with no pixel below the initial threshold), because the engine reads 0 as false. The same happens to an `m1` of exactly 0 at line 56. | p1 = 0, m1 missing, m2 = −5, variance 0: the score is 0.99·0.01·400/2 = 1.98, above the default cut-off 0.75, so a one-class cell is sampled as bimodal | defaults stand in only for missing reductions, so a one-class cell scores 0 | medium, not executed | Bmax.AsWrittenScoresOneClassCell (on Bmax.CalcBmaxAsWritten), Sampling.OneClassCellSurvives | Bmax.CalcBmax (its one-class ensures) |
