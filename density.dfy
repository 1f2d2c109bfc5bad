/**
 * DensityCheck: every node (grid cell) must have at least a minimum number of
 * soundings, and a required percentage of all nodes must have at least a
 * second minimum. Each tile contributes a histogram of sounding counts and the
 * footprint of its failing nodes; tiles are merged and the verdict is drawn
 * from the merged histogram.
 */
module Density {
  import opened Wrappers
  import opened GridCheck
  import opened Histogram

  const Id := "5e2afd8a-2ced-4de8-80f5-111c459a7175"
  const Name := "Density Check"
  const Version := "1"

  /** Parameter names; the third keeps the spelling the check looks up. */
  const MinSpnName := "Minimum Soundings per node"
  const MinSpnApName := "Minimum Soundings per node at percentage"
  const MinSpnPName := "Minumum Soundings per node percentage"

  /** The parameters the check advertises, with their default values. */
  const DefaultParams := [Param(MinSpnName, 5.0), Param(MinSpnApName, 5.0), Param(MinSpnPName, 95.0)]

  /** The advertised defaults are found by name: 5 soundings, 5 soundings at 95 percent. */
  lemma DefaultThresholds()
    ensures GetParam(DefaultParams, MinSpnName) == Found(5.0)
    ensures GetParam(DefaultParams, MinSpnApName) == Found(5.0)
    ensures GetParam(DefaultParams, MinSpnPName) == Found(95.0)
  {
    assert DefaultParams[1].name != DefaultParams[0].name;
    assert DefaultParams[2].name != DefaultParams[0].name;
    assert DefaultParams[2].name != DefaultParams[1].name;
    GetParamFindsUnique(DefaultParams, 0);
    GetParamFindsUnique(DefaultParams, 1);
    GetParamFindsUnique(DefaultParams, 2);
  }

  /**
   * `min_spn`: no node may have fewer soundings; `min_spn_ap`: the sounding
   * count the percentage test counts against; `min_spn_p`: the percentage
   * of nodes that must reach it.
   */
  datatype Thresholds = Thresholds(minSpn: real, minSpnAp: real, minSpnP: real)

  /** The report's data: the histogram chart in key order and the failing-node footprint. */
  datatype DensityData = DensityData(chart: seq<(int, Pos)>, footprint: seq<Polygon>)

  /** Percentage of nodes at or above the threshold, given how many are under it. */
  function PercentageOver(under: int, total: int): (r: real)
    requires total > 0
    ensures 0 <= under <= total ==> 0.0 <= r <= 100.0
    ensures under == 0 ==> r == 100.0
  {
    var fraction := under as real / total as real;
    assert 0 <= under <= total ==> 0.0 <= fraction <= 1.0 by {
      if 0 <= under <= total {
        DivisionBounds(under as real, total as real);
      }
    }
    (1.0 - fraction) * 100.0
  }

  /** A part of a positive whole, divided by the whole, lies between 0 and 1. */
  lemma DivisionBounds(part: real, whole: real)
    requires 0.0 <= part <= whole && whole > 0.0
    ensures 0.0 <= part / whole <= 1.0
  {
    var q := part / whole;
    assert q * whole == part;
    if q < 0.0 {
      assert false;
    }
    if q > 1.0 {
      assert false;
    }
  }

  /**
   * The messages for the smallest sounding count with its occurrences, the
   * number of nodes under `min_spn_ap` and the number of nodes: one when the
   * smallest count is below `min_spn`, then one when too small a percentage
   * of nodes reaches `min_spn_ap`.
   */
  function Report(lowest: (int, Pos), under: int, total: int, t: Thresholds): (r: seq<Message>)
    requires total > 0
    ensures |r| == (if (lowest.0 as real) < t.minSpn then 1 else 0)
                 + (if PercentageOver(under, total) < t.minSpnP then 1 else 0)
    ensures (lowest.0 as real) < t.minSpn ==> r[0] == MinimumSoundingCount(lowest.0, lowest.1)
    ensures MinimumSoundingCount(lowest.0, lowest.1) in r <==> (lowest.0 as real) < t.minSpn
    ensures PercentageUnderThreshold(PercentageOver(under, total), t.minSpnAp, t.minSpnP) in r
        <==> PercentageOver(under, total) < t.minSpnP
    ensures forall m :: m in r ==>
              (m == MinimumSoundingCount(lowest.0, lowest.1)
               || m == PercentageUnderThreshold(PercentageOver(under, total), t.minSpnAp, t.minSpnP))
  {
    var pct := PercentageOver(under, total);
    (if (lowest.0 as real) < t.minSpn then [MinimumSoundingCount(lowest.0, lowest.1)] else [])
      + (if pct < t.minSpnP then [PercentageUnderThreshold(pct, t.minSpnAp, t.minSpnP)] else [])
  }

  /**
   * The messages for a non-empty histogram: the lowest-count message names
   * the smallest sounding count with its number of nodes, and the percentage
   * message the share of nodes reaching `min_spn_ap`, below `min_spn_p`.
   */
  function Messages(h: Histogram, t: Thresholds): (r: seq<Message>)
    requires |h| > 0
    ensures |r| <= 2
    ensures forall m :: m in r ==> m.MinimumSoundingCount? || m.PercentageUnderThreshold?
    ensures forall m :: m in r && m.MinimumSoundingCount? ==>
              m.lowest in h && m.occurrences == h[m.lowest] && (forall k :: k in h ==> m.lowest <= k)
    ensures forall m :: m in r && m.PercentageUnderThreshold? ==>
              m.percentage == PercentageOver(Total(Below(h, t.minSpnAp)), Total(h)) && m.percentage < t.minSpnP
  {
    TotalAtLeastSize(h);
    ChartCons(h);
    Report(Chart(h)[0], Total(Below(h, t.minSpnAp)), Total(h), t)
  }

  /**
   * The outputs `get_outputs` reports for a merged histogram: fail with a
   * single message when it is empty; otherwise its messages, fail exactly
   * when there is one, and the chart and footprint as data.
   */
  function DensityOutputs(e: Execution, h: Histogram, footprint: seq<Polygon>, t: Thresholds): (r: Outputs<DensityData>)
    ensures r.execution == e
    ensures r.checkState != Warning
    ensures r.checkState == Fail <==> r.messages != []
    ensures r.data.None? <==> |h| == 0
    ensures r.data.Some? ==> r.data.value == DensityData(Chart(h), footprint)
  {
    if |h| == 0 then Outputs(e, [NoCountsExtracted], None, Fail)
    else
      var messages := Messages(h, t);
      Outputs(e, messages, Some(DensityData(Chart(h), footprint)), if messages == [] then Pass else Fail)
  }

  /**
   * When the check fails, stated without the chart or division: no counts at
   * all, some node below `min_spn`, or fewer than `min_spn_p` percent of the
   * nodes at or above `min_spn_ap`.
   */
  predicate Fails(h: Histogram, t: Thresholds): (b: bool)
    ensures !b ==> |h| > 0 && forall k :: k in h ==> t.minSpn <= k as real
  {
    || |h| == 0
    || SomeBelow(h, t.minSpn)
    || FewerThanPercent(Total(h) - Total(Below(h, t.minSpnAp)), Total(h), t.minSpnP)
  }

  /** `count` is less than `p` percent of `total`, without dividing. */
  predicate FewerThanPercent(count: int, total: int, p: real)
  {
    (count as real) * 100.0 < p * (total as real)
  }

  /** Some node has fewer soundings than `bound`. */
  predicate SomeBelow(h: Histogram, bound: real)
  {
    exists k :: k in h && (k as real) < bound
  }

  /** The percentage test, cross-multiplied by the (positive) total. */
  lemma PercentageCrossMultiplied(under: int, total: int, p: real)
    requires total > 0
    ensures PercentageOver(under, total) < p <==> FewerThanPercent(total - under, total, p)
  {
    var u, n := under as real, total as real;
    var q := u / n;
    assert q * n == u;
    assert PercentageOver(under, total) * n == (n - u) * 100.0 by {
      calc {
        PercentageOver(under, total) * n;
        (1.0 - q) * 100.0 * n;
        (n - q * n) * 100.0;
      }
    }
    ScaleLess(PercentageOver(under, total), p, n);
  }

  /** Multiplying by a positive number keeps a strict order, both ways. */
  lemma ScaleLess(x: real, y: real, n: real)
    requires n > 0.0
    ensures x < y <==> x * n < y * n
  {
    if x < y {
      assert (y - x) * n > 0.0;
    } else {
      assert (x - y) * n >= 0.0;
    }
  }

  /** The first chart entry holds the smallest key, so it is below a bound exactly when some key is. */
  lemma LowestBelow(h: Histogram, bound: real)
    requires |h| > 0
    ensures (Chart(h)[0].0 as real) < bound <==> SomeBelow(h, bound)
  {
    ChartCons(h);
    var m := Min(h.Keys);
    assert Chart(h)[0].0 == m;
    if SomeBelow(h, bound) {
      var k :| k in h && (k as real) < bound;
      assert m <= k;
    }
  }

  /** There is a message exactly when one of the two tests fails. */
  lemma ReportNonEmpty(lowest: (int, Pos), under: int, total: int, t: Thresholds)
    requires total > 0
    ensures Report(lowest, under, total, t) != []
        <==> (lowest.0 as real) < t.minSpn || FewerThanPercent(total - under, total, t.minSpnP)
  {
    PercentageCrossMultiplied(under, total, t.minSpnP);
  }

  /** A non-empty histogram has messages exactly when it fails. */
  lemma MessagesWhenFails(h: Histogram, t: Thresholds)
    requires |h| > 0
    ensures Messages(h, t) != [] <==> Fails(h, t)
  {
    TotalAtLeastSize(h);
    LowestBelow(h, t.minSpn);
    ReportNonEmpty(Chart(h)[0], Total(Below(h, t.minSpnAp)), Total(h), t);
  }

  /**
   * The verdict of `get_outputs`: never a warning; fail exactly when there is
   * a message and exactly when Fails holds; pass otherwise. An empty histogram
   * fails with the single no-counts message and no data.
   */
  lemma DensityVerdict(e: Execution, h: Histogram, footprint: seq<Polygon>, t: Thresholds)
    ensures DensityOutputs(e, h, footprint, t).checkState == (if Fails(h, t) then Fail else Pass)
    ensures DensityOutputs(e, h, footprint, t).checkState == Fail <==> DensityOutputs(e, h, footprint, t).messages != []
    ensures |h| == 0 ==> DensityOutputs(e, h, footprint, t) == Outputs(e, [NoCountsExtracted], None, Fail)
    ensures |h| > 0 ==> DensityOutputs(e, h, footprint, t).data == Some(DensityData(Chart(h), footprint))
  {
    if |h| > 0 {
      MessagesWhenFails(h, t);
    }
  }

  /** Fewer nodes against a higher percentage is still short of it. */
  lemma FewerThanPercentMonotone(c1: int, c2: int, total: int, p1: real, p2: real)
    requires c2 <= c1 && p1 <= p2 && total >= 0
    requires FewerThanPercent(c1, total, p1)
    ensures FewerThanPercent(c2, total, p2)
  {
    var n := total as real;
    assert p1 * n <= p2 * n by {
      assert (p2 - p1) * n >= 0.0;
    }
  }

  /** Raising any of the thresholds keeps a failing histogram failing. */
  lemma FailsMonotone(h: Histogram, t: Thresholds, s: Thresholds)
    requires t.minSpn <= s.minSpn && t.minSpnAp <= s.minSpnAp && t.minSpnP <= s.minSpnP
    requires Fails(h, t)
    ensures Fails(h, s)
  {
    if |h| == 0 {
    } else if SomeBelow(h, t.minSpn) {
      SomeBelowMonotone(h, t.minSpn, s.minSpn);
      assert SomeBelow(h, s.minSpn);
    } else {
      ShortfallMonotone(h, t.minSpnAp, s.minSpnAp, t.minSpnP, s.minSpnP);
      assert FewerThanPercent(Total(h) - Total(Below(h, s.minSpnAp)), Total(h), s.minSpnP);
    }
  }

  /** A node below a minimum is below any higher minimum. */
  lemma SomeBelowMonotone(h: Histogram, lo: real, hi: real)
    requires lo <= hi && SomeBelow(h, lo)
    ensures SomeBelow(h, hi)
  {
    var k :| k in h && (k as real) < lo;
    assert k in h && (k as real) < hi;
  }

  /** Too few nodes reaching a count stay too few for a higher count and a higher percentage. */
  lemma ShortfallMonotone(h: Histogram, ap1: real, ap2: real, p1: real, p2: real)
    requires ap1 <= ap2 && p1 <= p2
    requires FewerThanPercent(Total(h) - Total(Below(h, ap1)), Total(h), p1)
    ensures FewerThanPercent(Total(h) - Total(Below(h, ap2)), Total(h), p2)
  {
    BelowMonotone(h, ap1, ap2);
    FewerThanPercentMonotone(Total(h) - Total(Below(h, ap1)), Total(h) - Total(Below(h, ap2)), Total(h), p1, p2);
  }

  /**
   * Raising any of the three thresholds can only turn a pass into a fail:
   * a check that fails keeps failing.
   */
  lemma VerdictMonotone(e: Execution, h: Histogram, footprint: seq<Polygon>, t: Thresholds, s: Thresholds)
    requires t.minSpn <= s.minSpn && t.minSpnAp <= s.minSpnAp && t.minSpnP <= s.minSpnP
    requires DensityOutputs(e, h, footprint, t).checkState == Fail
    ensures DensityOutputs(e, h, footprint, s).checkState == Fail
  {
    DensityVerdict(e, h, footprint, t);
    DensityVerdict(e, h, footprint, s);
    FailsMonotone(h, t, s);
  }

  /** The verdict drawn from tiles merged one by one is the verdict for all their cells at once. */
  lemma TiledVerdict(e: Execution, tiles: seq<seq<Cell>>, whole: seq<Cell>, footprint: seq<Polygon>, t: Thresholds)
    requires multiset(whole) == multiset(Concat(tiles))
    ensures DensityOutputs(e, MergeAll(seq(|tiles|, i requires 0 <= i < |tiles| => HistogramOf(tiles[i]))), footprint, t)
         == DensityOutputs(e, HistogramOf(whole), footprint, t)
  {
    TiledHistogram(tiles, whole);
  }

  /** A node is bad when it holds a value below the minimum; a masked node never is. */
  predicate IsBad(c: Cell, minSpn: real): (b: bool)
    ensures c.None? ==> !b
  {
    c.Some? && (c.value as real) < minSpn
  }

  /**
   * The bad-cell mask `density < min_spn` with masked cells filled with
   * False: the same shape as the grid, true exactly at the unmasked nodes
   * below the minimum.
   */
  function BadCellsMask(grid: seq<seq<Cell>>, minSpn: real): (mask: seq<seq<bool>>)
    ensures |mask| == |grid|
    ensures forall i :: 0 <= i < |grid| ==> |mask[i]| == |grid[i]|
    ensures forall i, j :: 0 <= i < |grid| && 0 <= j < |grid[i]| ==>
              (mask[i][j] <==> grid[i][j].Some? && (grid[i][j].value as real) < minSpn)
    ensures forall i, j :: 0 <= i < |grid| && 0 <= j < |grid[i]| && grid[i][j].None? ==> !mask[i][j]
  {
    seq(|grid|, i requires 0 <= i < |grid| =>
      seq(|grid[i]|, j requires 0 <= j < |grid[i]| => IsBad(grid[i][j], minSpn)))
  }

  /** The cells of a grid row after row, as np.unique flattens it. */
  function Flatten<T>(rows: seq<seq<T>>): seq<T>
  {
    if rows == [] then [] else Flatten(rows[..|rows| - 1]) + rows[|rows| - 1]
  }

  /** The flattened mask, computed cell by cell. */
  function BadCells(cells: seq<Cell>, minSpn: real): (bs: seq<bool>)
    ensures |bs| == |cells|
  {
    seq(|cells|, i requires 0 <= i < |cells| => IsBad(cells[i], minSpn))
  }

  /** Number of true entries. */
  function CountTrue(bs: seq<bool>): nat
  {
    if bs == [] then 0 else CountTrue(bs[..|bs| - 1]) + (if bs[|bs| - 1] then 1 else 0)
  }

  /** Flattening the mask is masking the flattened grid. */
  lemma {:induction false} FlattenMask(grid: seq<seq<Cell>>, minSpn: real)
    ensures Flatten(BadCellsMask(grid, minSpn)) == BadCells(Flatten(grid), minSpn)
  {
    if grid != [] {
      var init := grid[..|grid| - 1];
      FlattenMask(init, minSpn);
      assert BadCellsMask(grid, minSpn)[..|grid| - 1] == BadCellsMask(init, minSpn);
      var a, b := Flatten(init), grid[|grid| - 1];
      assert BadCells(a + b, minSpn) == BadCells(a, minSpn) + BadCellsMask(grid, minSpn)[|grid| - 1];
    }
  }

  /** The bad cells of one cell: its value's count below the minimum, or nothing. */
  lemma SingleBadCell(c: Cell, minSpn: real)
    ensures Total(Below(HistogramOf([c]), minSpn)) == if IsBad(c, minSpn) then 1 else 0
  {
    SingletonTotal(c);
    if IsBad(c, minSpn) {
      assert Below(HistogramOf([c]), minSpn) == HistogramOf([c]);
    } else {
      assert Below(HistogramOf([c]), minSpn) == map[] by {
        forall k | k in HistogramOf([c])
          ensures !((k as real) < minSpn)
        {
          PresentMeans([c], k);
        }
      }
      TotalAtLeastSize(map[]);
    }
  }

  /**
   * The mask marks exactly as many nodes as the tile's histogram counts
   * below `min_spn`: the footprint covers the nodes the verdict's first test
   * is about.
   */
  lemma {:induction false} BadCellsCount(cells: seq<Cell>, minSpn: real)
    ensures CountTrue(BadCells(cells, minSpn)) == Total(Below(HistogramOf(cells), minSpn))
    decreases |cells|
  {
    if cells == [] {
      assert HistogramOf(cells).Keys == {};
      assert Below(HistogramOf(cells), minSpn) == map[];
      TotalAtLeastSize(map[]);
    } else {
      var init, last := cells[..|cells| - 1], cells[|cells| - 1];
      assert cells == init + [last];
      BadCellsCount(init, minSpn);
      assert BadCells(cells, minSpn)[..|cells| - 1] == BadCells(init, minSpn);
      BelowAppend(init, last, minSpn);
    }
  }

  /** One more cell adds one node below the minimum exactly when it is bad. */
  lemma BelowAppend(init: seq<Cell>, c: Cell, minSpn: real)
    ensures Total(Below(HistogramOf(init + [c]), minSpn))
         == Total(Below(HistogramOf(init), minSpn)) + (if IsBad(c, minSpn) then 1 else 0)
  {
    HistogramOfConcat(init, [c]);
    BelowMerge(HistogramOf(init), HistogramOf([c]), minSpn);
    MergeTotal(Below(HistogramOf(init), minSpn), Below(HistogramOf([c]), minSpn));
    SingleBadCell(c, minSpn);
  }

  /** The mask of a whole tile marks exactly the nodes its histogram counts below `min_spn`. */
  lemma MaskMatchesHistogram(grid: seq<seq<Cell>>, minSpn: real)
    ensures CountTrue(Flatten(BadCellsMask(grid, minSpn))) == Total(Below(HistogramOf(Flatten(grid)), minSpn))
  {
    FlattenMask(grid, minSpn);
    BadCellsCount(Flatten(grid), minSpn);
  }

  /**
   * The histogram part of `run`: take np.unique's values and counts and
   * record each unmasked value's count in a fresh dictionary.
   */
  method CountUnique(cells: seq<Cell>) returns (hist: Histogram)
    ensures hist == HistogramOf(cells)
  {
    var unique := UniqueCounts(cells);
    hist := map[];
    var i := 0;
    while i < |unique|
      invariant 0 <= i <= |unique|
      invariant Tabulate(hist, unique[i..]) == Tabulate(map[], unique)
    {
      assert unique[i..][1..] == unique[i + 1..];
      var (val, count) := unique[i];
      if val.Some? {
        hist := hist[val.value := count];
      }
      i := i + 1;
    }
    UniqueCountsTabulate(cells);
  }

  /**
   * The loop of `get_outputs` that counts the nodes under `min_spn_ap`:
   * walking the sorted counts and stopping at the first sounding count at or
   * above it sums exactly the counts of the keys below it.
   */
  method CountUnder(ghost h: Histogram, counts: seq<(int, Pos)>, minSpnAp: real) returns (under: int)
    requires counts == Chart(h)
    ensures under == Total(Below(h, minSpnAp))
  {
    under := 0;
    var i := 0;
    while i < |counts|
      invariant 0 <= i <= |counts|
      invariant under == SumCounts(counts[..i])
      invariant forall j :: 0 <= j < i ==> (counts[j].0 as real) < minSpnAp
    {
      if (counts[i].0 as real) >= minSpnAp {
        break;
      }
      SumCountsAppend(counts[..i], [counts[i]]);
      assert counts[..i + 1] == counts[..i] + [counts[i]];
      under := under + counts[i].1;
      i := i + 1;
    }
    ChartBelowPrefix(h, minSpnAp, i);
  }

  /**
   * The loop of `merge_results`: each count of `last` is added to the
   * count already held for its key, or inserted when the key is new.
   */
  method MergeCounts(hist: Histogram, last: Histogram) returns (merged: Histogram)
    ensures merged == Merge(hist, last)
  {
    merged := hist;
    var pending := last.Keys;
    ghost var done: set<int> := {};
    assert Restrict(last, done) == map[];
    MergeEmpty(hist);
    while pending != {}
      invariant pending !! done && pending + done == last.Keys
      invariant merged == Merge(hist, Restrict(last, done))
      decreases pending
    {
      HasMember(pending);
      var k :| k in pending;
      MergeOneKey(hist, last, done, k, merged);
      merged := if k in merged then merged[k := merged[k] + last[k]] else merged[k := last[k]];
      pending := pending - {k};
      done := done + {k};
    }
    assert Restrict(last, done) == last;
  }

  class DensityCheck {
    const inputParams: seq<Param>
    const minSpn: Option<real>
    const minSpnP: Option<real>
    const minSpnAp: Option<real>
    var execution: Execution
    /** None until `run` has been called for a tile. */
    var densityHistogram: Option<Histogram>
    /** The coordinates of the failing-node MultiPolygon. */
    var tilesGeojson: seq<Polygon>

    /** Looks up the three thresholds; a non-empty list lacking one of them raises. */
    constructor (params: seq<Param>)
      requires GetParam(params, MinSpnName) != NoMatch
      requires GetParam(params, MinSpnPName) != NoMatch
      requires GetParam(params, MinSpnApName) != NoMatch
      ensures inputParams == params && execution == NotStarted
      ensures minSpn == ParamValue(GetParam(params, MinSpnName))
      ensures minSpnP == ParamValue(GetParam(params, MinSpnPName))
      ensures minSpnAp == ParamValue(GetParam(params, MinSpnApName))
      ensures densityHistogram == None && tilesGeojson == []
    {
      inputParams := params;
      minSpn := ParamValue(GetParam(params, MinSpnName));
      minSpnP := ParamValue(GetParam(params, MinSpnPName));
      minSpnAp := ParamValue(GetParam(params, MinSpnApName));
      execution := NotStarted;
      densityHistogram := None;
      tilesGeojson := [];
    }

    method CheckStarted(now: Timestamp)
      modifies this`execution
      ensures execution == Started(old(execution), now)
    {
      execution := Started(execution, now);
    }

    method CheckEnded(now: Timestamp)
      modifies this`execution
      ensures execution == Ended(old(execution), now)
    {
      execution := Ended(execution, now);
    }

    /**
     * `run` on one tile: the histogram is replaced by the tile's own, and
     * the coordinate entries of the tile's bad cells are appended to the footprint.
     * `polygonize` stands for rasterising the mask, polygonising it,
     * reprojecting the result to EPSG:4326 and taking its GeoJSON coordinates.
     */
    method Run(ifd: InputFileDetails, tile: Tile, depth: seq<seq<Option<real>>>,
               density: seq<seq<Cell>>, uncertainty: seq<seq<Option<real>>>,
               polygonize: (InputFileDetails, Tile, seq<seq<bool>>) -> seq<Polygon>)
      requires minSpn.Some?
      modifies this`densityHistogram, this`tilesGeojson
      ensures densityHistogram == Some(HistogramOf(Flatten(density)))
      ensures tilesGeojson == old(tilesGeojson) + polygonize(ifd, tile, BadCellsMask(density, minSpn.value))
    {
      var hist := CountUnique(Flatten(density));
      densityHistogram := Some(hist);
      var mask := BadCellsMask(density, minSpn.value);
      tilesGeojson := tilesGeojson + polygonize(ifd, tile, mask);
    }

    /**
     * `merge_results`: take the other check's start time, add its counts
     * into this histogram key by key, and append its footprint.
     */
    method MergeResults(other: DensityCheck)
      requires other.densityHistogram.Some?
      requires densityHistogram.Some? || other.densityHistogram.value == map[]
      modifies this`execution, this`densityHistogram, this`tilesGeojson
      ensures execution == old(execution).(startTime := old(other.execution.startTime))
      ensures densityHistogram == if old(densityHistogram) == None then None
                                  else Some(Merge(old(densityHistogram.value), old(other.densityHistogram.value)))
      ensures tilesGeojson == old(tilesGeojson) + old(other.tilesGeojson)
    {
      execution := execution.(startTime := other.execution.startTime);
      if densityHistogram.Some? {
        var merged := MergeCounts(densityHistogram.value, other.densityHistogram.value);
        densityHistogram := Some(merged);
      }
      tilesGeojson := tilesGeojson + other.tilesGeojson;
    }

    /**
     * `get_outputs`: the report for the merged histogram, computing the
     * number of nodes under `min_spn_ap` by walking the sorted counts until
     * the first one at or above it.
     */
    method GetOutputs() returns (out: Outputs<DensityData>)
      requires densityHistogram.Some?
      requires |densityHistogram.value| > 0 ==> minSpn.Some? && minSpnAp.Some? && minSpnP.Some?
      ensures |densityHistogram.value| == 0 ==> out == Outputs(execution, [NoCountsExtracted], None, Fail)
      ensures |densityHistogram.value| > 0 ==>
                out == DensityOutputs(execution, densityHistogram.value, tilesGeojson,
                                      Thresholds(minSpn.value, minSpnAp.value, minSpnP.value))
    {
      var h := densityHistogram.value;
      if |h| == 0 {
        return Outputs(execution, [NoCountsExtracted], None, Fail);
      }
      var counts := Chart(h);
      var messages: seq<Message> := [];
      var failed := false;
      var (lowest, occurrences) := counts[0];
      if (lowest as real) < minSpn.value {
        messages := messages + [MinimumSoundingCount(lowest, occurrences)];
        failed := true;
      }
      TotalAtLeastSize(h);
      var total := SumCounts(counts);
      var under := CountUnder(h, counts, minSpnAp.value);
      var percentage := PercentageOver(under, total);
      if percentage < minSpnP.value {
        messages := messages + [PercentageUnderThreshold(percentage, minSpnAp.value, minSpnP.value)];
        failed := true;
      }
      out := Outputs(execution, messages, Some(DensityData(counts, tilesGeojson)), if failed then Fail else Pass);
    }
  }
}
