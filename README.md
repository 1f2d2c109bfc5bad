# Grid checks of mbes-grid-checks, modelled in Dafny

This project models `ausseabed/mbesgc/lib/gridcheck.py`, the grid checks that judge a gridded multibeam bathymetry survey tile by tile.

Each check is started once per tile. It is then run on that tile's masked depth, density and uncertainty windows and ended. The per-tile checks are merged into one, and that one reports its outputs: an execution record, messages, a data payload and a verdict of pass, warning or fail.

- `wrappers.dfy` (module `Wrappers`): the `Option` type, used for values the source leaves as `None`.
- `gridcheck.dfy` (module `GridCheck`): what the `GridCheck` base class gives every check.
  - The execution record: start time, end time, status and error.
  - Its `check_started` and `check_ended` transitions, as the pure functions `Started` and `Ended`.
  - The `get_param` lookup.
  - The verdict, message, tile, input-file, polygon and output types.
- `histogram.dfy` (module `Histogram`): the sounding-density histogram, a map from a node's sounding count to the number of nodes with that count.
  - Tabulating a tile: the dictionary-filling loop, fed with the pairs np.unique is documented to return.
  - The key-wise merge.
  - The key-ordered listing that `collections.OrderedDict(sorted(...))` produces.
  - Totals and threshold splits.
- `density.dfy` (module `Density`): `DensityCheck`.
  - The specification of its outputs (`DensityOutputs`) and the lemmas about its verdict.
  - The bad-cell mask.
  - The class `DensityCheck`, whose methods update its execution record, histogram and footprint in place.
- `tvu.dfy` (module `Tvu`): the `TvuCheck` stub, as a class.

Modelling choices:

- Timestamps are strings passed in by the caller; the clock is not modelled.
- Parameter values and thresholds are `real`.
- Density values are `int`, histogram counts are positive `int`, and a masked cell is `None`.
- The percentage test uses exact real arithmetic.
- Messages are a datatype carrying the numbers the source formats into its strings.
- The GDAL/OGR footprint computation is a function parameter. It takes the input file details, the tile and the bad-cell mask, and returns the coordinate entries that `run` appends to the footprint MultiPolygon.

Where the code does something other than its own comments and docstrings suggest, the model follows the code:

- `check_started` takes care to set `start_time` only once, on the first tile (the comment at gridcheck.py:62-63). But `merge_results` overwrites it with the other check's value (gridcheck.py:278, 397), so a merged check reports the start time of the check merged in last.
- The `get_param` docstring (gridcheck.py:78-80) promises `None` when no parameter is found. The code returns `None` only for an empty parameter list (gridcheck.py:82-83). For a non-empty list without a match it raises, because `next` has no default (gridcheck.py:85-89). So the `param is None` branch (gridcheck.py:90-91) never runs.
- `TvuCheck` is a stub (gridcheck.py:396-427): its `run` does nothing and its report always fails.
- `run` replaces the histogram (gridcheck.py:196) but extends the footprint (gridcheck.py:264-266). So one instance run on two tiles keeps only the last tile's counts but both tiles' footprints. The model does the same (`Density.DensityCheck.Run`).
- The histogram merge is commutative and associative. The footprint is a list, so its order follows the merge order.

## Model

| member | source | states |
|---|---|---|
| GridCheck.Started | ausseabed/mbesgc/lib/gridcheck.py:56-65 | the status becomes running; an existing start time is kept, a missing one becomes the current time; end time and error are untouched |
| GridCheck.Ended | ausseabed/mbesgc/lib/gridcheck.py:67-75 | the end time is always the new one; running becomes completed; any other status is kept |
| GridCheck.StartedOnTiles | ausseabed/mbesgc/lib/gridcheck.py:56-65 | started once per tile: after at least one tile the check is running, with its existing start time or else the first tile's; end time and error untouched |
| GridCheck.StartedIdempotent | ausseabed/mbesgc/lib/gridcheck.py:61-65 | starting a second time, at any time, changes nothing |
| GridCheck.StartedOnTilesKeeps | ausseabed/mbesgc/lib/gridcheck.py:61-65 | once started, being started again on any number of further tiles keeps the record unchanged |
| GridCheck.RunLifecycle | ausseabed/mbesgc/lib/gridcheck.py:44-75 | a fresh check started on one or more tiles and then ended is completed, with the first tile's start time, the end time and no error |
| GridCheck.EndedWithoutStart | ausseabed/mbesgc/lib/gridcheck.py:67-75 | ending a check that was never started leaves it a draft, with only its end time set |
| GridCheck.RestartAfterEnd | ausseabed/mbesgc/lib/gridcheck.py:56-75 | starting a completed check again sets it running and keeps its first start time |
| GridCheck.FirstMatch | ausseabed/mbesgc/lib/gridcheck.py:85-89 | the index found holds the name and no earlier parameter does; no index means no parameter has the name |
| GridCheck.GetParam | ausseabed/mbesgc/lib/gridcheck.py:77-93 | no parameters gives None; a non-empty list without the name fails; otherwise the value of the first parameter with that name |
| GridCheck.ParamValue | ausseabed/mbesgc/lib/gridcheck.py:90-93 | the stored attribute is the value found, or None when there were no parameters |
| GridCheck.GetParamFindsUnique | ausseabed/mbesgc/lib/gridcheck.py:77-93 | in a list with distinct names, looking up a parameter's name finds its value |
| Density.DefaultThresholds | ausseabed/mbesgc/lib/gridcheck.py:153-157 | the advertised defaults are found by name: 5, 5 and 95 |
| Histogram.Min | ausseabed/mbesgc/lib/gridcheck.py:320 | the smallest key is a key and no key is smaller |
| Histogram.Chart | ausseabed/mbesgc/lib/gridcheck.py:313-314 | the ordered listing has one entry per key |
| Histogram.ChartSortedAndExact | ausseabed/mbesgc/lib/gridcheck.py:313-314 | the ordered listing has strictly ascending keys; every entry is a key with its count unchanged; every key appears |
| Histogram.ChartCons | ausseabed/mbesgc/lib/gridcheck.py:313-314 | the listing is the smallest key with its count, then the listing of the rest |
| Histogram.SumCounts | ausseabed/mbesgc/lib/gridcheck.py:328 | the sum of the counts is at least the number of entries, as every count is positive |
| Histogram.Total | ausseabed/mbesgc/lib/gridcheck.py:328 | the number of nodes a histogram accounts for is at least its number of keys |
| Histogram.TotalAtLeastSize | ausseabed/mbesgc/lib/gridcheck.py:328-336 | the total is at least the number of keys, and positive exactly when the histogram is non-empty, so the division in the percentage is defined |
| Histogram.TotalRemove | ausseabed/mbesgc/lib/gridcheck.py:328 | the total is any key's count plus the total of the remaining keys |
| Histogram.Merge | ausseabed/mbesgc/lib/gridcheck.py:280-284 | the merged keys are the union, each count the sum of both sides' counts with a missing key counting 0 |
| Histogram.MergeOneKey | ausseabed/mbesgc/lib/gridcheck.py:281-284 | incrementing a present key or inserting an absent one merges one more key of the other histogram |
| Histogram.MergeTotal | ausseabed/mbesgc/lib/gridcheck.py:280-284 | merging adds the totals: no node is lost or counted twice |
| Histogram.MergeCommutes | ausseabed/mbesgc/lib/gridcheck.py:280-284 | merging is commutative |
| Histogram.MergeAssociates | ausseabed/mbesgc/lib/gridcheck.py:280-284 | merging is associative |
| Histogram.MergeEmpty | ausseabed/mbesgc/lib/gridcheck.py:280-284 | the empty histogram is a unit of merging |
| Histogram.Below | ausseabed/mbesgc/lib/gridcheck.py:330-333 | exactly the keys below the threshold, with their counts |
| Histogram.Above | ausseabed/mbesgc/lib/gridcheck.py:330-333 | exactly the keys at or above the threshold, with their counts |
| Histogram.SplitTotal | ausseabed/mbesgc/lib/gridcheck.py:328-333 | the totals below and at-or-above a threshold add up to the total |
| Histogram.BelowMonotone | ausseabed/mbesgc/lib/gridcheck.py:329-333 | the number of nodes under a threshold is between 0 and the total, and grows with the threshold |
| Histogram.ChartBelowPrefix | ausseabed/mbesgc/lib/gridcheck.py:329-333 | when the loop stops at the first key at or above the threshold, the entries it summed are the listing of the keys below it, and their sum is the total below it |
| Histogram.HistogramOf | ausseabed/mbesgc/lib/gridcheck.py:186-196 | the keys are exactly the distinct unmasked values; each count is that value's number of occurrences |
| Histogram.PresentMeans | ausseabed/mbesgc/lib/gridcheck.py:186-190 | a value is a key exactly when some unmasked cell holds it |
| Histogram.HistogramOfConcat | ausseabed/mbesgc/lib/gridcheck.py:186-196 | the histogram of two pieces of a grid together is the merge of their histograms |
| Histogram.HistogramOfSameCells | ausseabed/mbesgc/lib/gridcheck.py:186-196 | tiles holding the same cells in any arrangement have the same histogram |
| Histogram.HistogramTotal | ausseabed/mbesgc/lib/gridcheck.py:186-196 | the counts of a tile's histogram sum to its number of unmasked cells |
| Histogram.TiledHistogram | ausseabed/mbesgc/lib/gridcheck.py:186-196 | merging the per-tile histograms gives the histogram of all the tiles' cells, in any arrangement |
| Histogram.UniqueCounts | ausseabed/mbesgc/lib/gridcheck.py:186 | one pair per distinct unmasked value plus one for the masked cells when there are any; no value is listed twice; unmasked values come in ascending order, with the masked group last; each pair is a value occurring in the tile with its number of occurrences |
| Histogram.MaskedEntry | ausseabed/mbesgc/lib/gridcheck.py:186 | at most one pair, present exactly when the tile has masked cells, carrying their number |
| Histogram.Record | ausseabed/mbesgc/lib/gridcheck.py:188-194 | a masked pair leaves the dictionary unchanged; an unmasked one stores its count under its value and changes no other key |
| Histogram.Tabulate | ausseabed/mbesgc/lib/gridcheck.py:187-194 | the loop keeps every key already present, stores every unmasked value it meets, and the last pair processed has its own count |
| Histogram.Tagged | ausseabed/mbesgc/lib/gridcheck.py:186 | the np.unique pairs for the unmasked values are the listing's entries, in order |
| Histogram.TabulateMasked | ausseabed/mbesgc/lib/gridcheck.py:189-190 | masked pairs leave the dictionary unchanged |
| Histogram.TabulateAppend | ausseabed/mbesgc/lib/gridcheck.py:188-194 | processing two runs of pairs is processing one and then the other |
| Histogram.TabulateChart | ausseabed/mbesgc/lib/gridcheck.py:188-194 | processing a histogram's ordered pairs writes all its keys with their counts over the dictionary |
| Histogram.UniqueCountsTabulate | ausseabed/mbesgc/lib/gridcheck.py:186-196 | the loop, fed with np.unique's values and counts, builds exactly the tile's histogram |
| Density.CountUnique | ausseabed/mbesgc/lib/gridcheck.py:186-196 | the loop over np.unique's pairs returns the tile's histogram |
| Density.BadCellsMask | ausseabed/mbesgc/lib/gridcheck.py:198-200 | the mask has the grid's shape, is true exactly at unmasked nodes below `min_spn`, and false at every masked node |
| Density.FlattenMask | ausseabed/mbesgc/lib/gridcheck.py:198-200 | flattening the mask is masking the flattened grid |
| Density.BadCellsCount | ausseabed/mbesgc/lib/gridcheck.py:186-200 | the mask marks as many cells as the histogram counts below `min_spn` |
| Density.MaskMatchesHistogram | ausseabed/mbesgc/lib/gridcheck.py:186-200 | a tile's mask marks exactly the nodes its histogram counts below `min_spn` |
| Density.IsBad | ausseabed/mbesgc/lib/gridcheck.py:198-200 | a masked node is never bad |
| Density.PercentageOver | ausseabed/mbesgc/lib/gridcheck.py:335-336 | for a count under the threshold between 0 and the total, the percentage of nodes reaching it lies between 0 and 100; no node under it gives 100 |
| Density.Report | ausseabed/mbesgc/lib/gridcheck.py:316-344 | one message per failed test and nothing else: the lowest-count message, first, exactly when the lowest count is below `min_spn`; the percentage message exactly when the percentage is below `min_spn_p` |
| Density.Messages | ausseabed/mbesgc/lib/gridcheck.py:313-344 | the lowest-count message names the smallest sounding count and its number of nodes; the percentage message carries the share of nodes reaching `min_spn_ap`, below `min_spn_p` |
| Density.DensityOutputs | ausseabed/mbesgc/lib/gridcheck.py:290-358 | the reported record is the check's; never warning; fail exactly when there is a message; data exactly when the histogram is non-empty, and then the ordered chart with the footprint |
| Density.Fails | ausseabed/mbesgc/lib/gridcheck.py:299-344 | the verdict stated without the chart or the division; a histogram that does not fail is non-empty and has no node below `min_spn` |
| Density.PercentageCrossMultiplied | ausseabed/mbesgc/lib/gridcheck.py:335-338 | the percentage is below `min_spn_p` exactly when 100 times the nodes at or above `min_spn_ap` is below `min_spn_p` times the total |
| Density.LowestBelow | ausseabed/mbesgc/lib/gridcheck.py:320-321 | the first listed key is below `min_spn` exactly when some key is |
| Density.ReportNonEmpty | ausseabed/mbesgc/lib/gridcheck.py:316-344 | there is a message exactly when the lowest-count test or the percentage test fails |
| Density.MessagesWhenFails | ausseabed/mbesgc/lib/gridcheck.py:316-344 | a non-empty histogram has messages exactly when some node is below `min_spn` or too few nodes reach `min_spn_ap` |
| Density.DensityVerdict | ausseabed/mbesgc/lib/gridcheck.py:299-358 | an empty histogram fails with the single no-counts message and no data; otherwise fail exactly when some node is below `min_spn` or too few reach `min_spn_ap`, else pass; never warning; fail exactly when there are messages; the data is the ordered chart and the footprint |
| Density.FewerThanPercentMonotone | ausseabed/mbesgc/lib/gridcheck.py:335-338 | fewer qualifying nodes against a higher required percentage still falls short |
| Density.SomeBelowMonotone | ausseabed/mbesgc/lib/gridcheck.py:320-326 | a node below a minimum is below any higher minimum |
| Density.ShortfallMonotone | ausseabed/mbesgc/lib/gridcheck.py:328-344 | too few nodes reaching `min_spn_ap` stay too few for a higher count and a higher required percentage |
| Density.FailsMonotone | ausseabed/mbesgc/lib/gridcheck.py:320-344 | raising any threshold keeps a failing histogram failing |
| Density.VerdictMonotone | ausseabed/mbesgc/lib/gridcheck.py:320-347 | raising `min_spn`, `min_spn_ap` or `min_spn_p` can only turn a pass into a fail |
| Density.TiledVerdict | ausseabed/mbesgc/lib/gridcheck.py:186-347 | the verdict from the merged per-tile histograms is the verdict for all the cells at once |
| Density.CountUnder | ausseabed/mbesgc/lib/gridcheck.py:329-333 | the loop with its early break sums exactly the counts of the keys below `min_spn_ap` |
| Density.MergeCounts | ausseabed/mbesgc/lib/gridcheck.py:280-284 | the loop that increments present keys and inserts new ones returns the key-wise merge of the two histograms |
| Density.DensityCheck.constructor | ausseabed/mbesgc/lib/gridcheck.py:159-172 | stores the parameters and the three looked-up thresholds; a fresh record, no histogram, an empty footprint; requires that no lookup raises |
| Density.DensityCheck.CheckStarted | ausseabed/mbesgc/lib/gridcheck.py:56-65 | the record becomes Started of the old record; nothing else changes |
| Density.DensityCheck.CheckEnded | ausseabed/mbesgc/lib/gridcheck.py:67-75 | the record becomes Ended of the old record; nothing else changes |
| Density.DensityCheck.Run | ausseabed/mbesgc/lib/gridcheck.py:174-266 | the histogram is replaced by the tile's own; the coordinate entries computed from the tile's bad-cell mask are appended to the footprint; the record is untouched |
| Density.DensityCheck.MergeResults | ausseabed/mbesgc/lib/gridcheck.py:274-288 | the start time becomes the other's; the histogram becomes the key-wise merge, or stays absent when this check never ran and the other histogram is empty; the other's footprint is appended; nothing else changes |
| Density.DensityCheck.GetOutputs | ausseabed/mbesgc/lib/gridcheck.py:290-370 | the outputs are DensityOutputs of the record, histogram, footprint and thresholds, and the check is not modified |
| Tvu.DefaultErrors | ausseabed/mbesgc/lib/gridcheck.py:384-387 | the advertised defaults are found by name: 1.0 and 1.0 |
| Tvu.TvuOutputs | ausseabed/mbesgc/lib/gridcheck.py:410-427 | always fail, with the single not-implemented message and no data |
| Tvu.TvuCheck.constructor | ausseabed/mbesgc/lib/gridcheck.py:389-394 | stores the parameters and the two looked-up values; a fresh record; requires that no lookup raises |
| Tvu.TvuCheck.CheckStarted | ausseabed/mbesgc/lib/gridcheck.py:56-65 | the record becomes Started of the old record |
| Tvu.TvuCheck.CheckEnded | ausseabed/mbesgc/lib/gridcheck.py:67-75 | the record becomes Ended of the old record |
| Tvu.TvuCheck.Run | ausseabed/mbesgc/lib/gridcheck.py:399-408 | running on a tile changes nothing |
| Tvu.TvuCheck.MergeResults | ausseabed/mbesgc/lib/gridcheck.py:396-397 | only the start time changes, to the other's |
| Tvu.TvuCheck.GetOutputs | ausseabed/mbesgc/lib/gridcheck.py:410-427 | always fail, with the not-implemented message, no data and the current record |

## Left out

- The GDAL/OGR footprint work is not modelled: the in-memory raster, polygonising the mask, the EPSG:4326 transformation and the GeoJSON conversion (gridcheck.py:203-268). `DensityCheck.Run` takes it as a function parameter that maps the file details, the tile and the mask to the coordinate entries appended.
- The affine geotransform arithmetic (gridcheck.py:203-207, 223) is floating point done by a library.
- `datetime.now().strftime` is not modelled. The caller passes the timestamp in.
- The float32-to-`int` truncation of density values (gridcheck.py:194) is not modelled. Densities are integers, so no two values collide on one key.
- Floating-point rounding in the percentage (gridcheck.py:335-336) is not modelled. The percentage is an exact real.
- Message strings are not modelled. Each message is a datatype value carrying the numbers the source formats; float formatting is not modelled.
- The chart's `str(key)` conversion (gridcheck.py:349-351) is not modelled. Chart keys stay integers.
- QajsonOutputs and QajsonExecution serialisation are not modelled. The `files`, `count` and `percentage` fields, always `None`, are omitted.
- `GridCheckResult` (gridcheck.py:27-36) is not used by the checks in this file.
- The hard-coded debug file path and the commented-out shapefile and tile-boundary code (gridcheck.py:215-222, 232-235, 270-272) are not modelled.
- The abstract `run`, `merge_results` and `get_outputs` of the base class (gridcheck.py:95-139) only raise `NotImplementedError`. Each check is its own class, sharing the `Execution` record, `Started`, `Ended` and `GetParam` from module `GridCheck`.
- `progress_callback` is never called and is omitted. `DensityCheck.Run` ignores the depth and uncertainty windows, as the source does.
- Parameter values are numbers. Non-numeric `QajsonParam` values are not modelled.
- `error_message` is never set by this file, so it stays `None` throughout.
- The full TVU algorithm and its test file are not modelled. The test imports `TvuCheck` from `ausseabed.mbesgc.lib.mbesgridcheck`, which is not part of this model, and `gridcheck.py` holds only the stub.
- Density.DensityCheck.Run: requires that `min_spn` was found. When it is `None`, the source first stores the tile's histogram and then raises at the comparison. That partial update is not modelled.
- Density.DensityCheck.GetOutputs: requires the check to hold a histogram. On a check that never ran, `get_outputs` raises `AttributeError` at `len(self.density_histogram)` (gridcheck.py:299); the precondition excludes that case. For a non-empty histogram it also requires all three thresholds to have been found, because the source raises when comparing against `None`.
- Density.DensityCheck.MergeResults: requires the other check to hold a histogram, and this one to hold a histogram unless the other's is empty. Otherwise the source raises `AttributeError`: at gridcheck.py:280 when the other check never ran, and at gridcheck.py:281 when this one never ran, after `start_time` was already overwritten. That partial update is not modelled. The source walks the other histogram in insertion order; the model takes its keys in an arbitrary order, which gives the same result.
- Histogram.UniqueCounts: np.unique is not computed. It is taken to return what its documentation promises: the sorted distinct unmasked values with their counts, then one group for the masked cells. `UniqueCountsTabulate` and `Density.CountUnique` therefore prove the loop's skip-and-store step, not np.unique's counting.
- The footprint's coordinate entries are left to the `polygonize` parameter. The source extends the MultiPolygon's `coordinates` with each polygonised feature's Polygon coordinates (gridcheck.py:263-266). Those are lists of rings, so a failing region with a hole is added as separate ring entries rather than one polygon; the model does not reproduce that nesting.
