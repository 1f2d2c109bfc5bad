/**
 * The sounding-density histogram that DensityCheck accumulates: a map from a
 * node's sounding count to the number of nodes that have that count, together
 * with the operations the check performs on it (tabulating the unique values of
 * a tile, summing two histograms key by key, listing it in key order, summing
 * its counts) and the laws that make tile-by-tile accumulation exact.
 */
module Histogram {
  import opened Wrappers

  /** An occurrence count; np.unique only reports values that occur, so never zero. */
  type Pos = n: int | n > 0 witness 1

  /** Sounding count -> number of nodes with that sounding count. */
  type Histogram = map<int, Pos>

  /** A masked grid cell, flattened: None is a no-data cell. */
  type Cell = Option<int>

  /** A non-empty set of keys has a member. */
  lemma HasMember(s: set<int>)
    requires s != {}
    ensures exists x :: x in s
  {
    if forall x :: x !in s {
      assert false;
    }
  }

  lemma {:induction false} MinExists(s: set<int>)
    requires s != {}
    ensures exists m :: m in s && forall x :: x in s ==> m <= x
    decreases s
  {
    HasMember(s);
    var x :| x in s;
    if s == {x} {
      assert x in s && forall y :: y in s ==> x <= y;
    } else {
      HasMember(s - {x});
      MinExists(s - {x});
      var m :| m in s - {x} && forall y :: y in s - {x} ==> m <= y;
      var least := if x < m then x else m;
      forall y | y in s
        ensures least <= y
      {
        if y != x {
          assert y in s - {x};
        }
      }
      assert least in s && forall y :: y in s ==> least <= y;
    }
  }

  /** The smallest element of a non-empty set of keys. */
  function Min(s: set<int>): (m: int)
    requires s != {}
    ensures m in s && forall x :: x in s ==> m <= x
  {
    MinExists(s);
    var m :| m in s && forall x :: x in s ==> m <= x; m
  }

  /** Any member below or equal to all others is the minimum. */
  lemma MinIs(s: set<int>, m: int)
    requires m in s && forall x :: x in s ==> m <= x
    ensures Min(s) == m
  {
  }

  /**
   * The histogram listed in ascending key order with its counts, as
   * `collections.OrderedDict(sorted(h.items()))` iterates it: the smallest
   * key first, then the listing of the rest.
   */
  function Chart(h: Histogram): (c: seq<(int, Pos)>)
    ensures |c| == |h|
    decreases |h|
  {
    if |h| == 0 then []
    else
      var m := Min(h.Keys);
      assert (h - {m}).Keys == h.Keys - {m};
      [(m, h[m])] + Chart(h - {m})
  }

  /** The chart starts with the smallest key and continues with the chart of the rest. */
  lemma ChartCons(h: Histogram)
    requires |h| > 0
    ensures h.Keys != {}
    ensures (h - {Min(h.Keys)}).Keys == h.Keys - {Min(h.Keys)}
    ensures Chart(h) == [(Min(h.Keys), h[Min(h.Keys)])] + Chart(h - {Min(h.Keys)})
  {
    assert (h - {Min(h.Keys)}).Keys == h.Keys - {Min(h.Keys)};
  }

  /** Every chart entry is a key of the histogram with its count unchanged. */
  lemma {:induction false} ChartEntries(h: Histogram)
    ensures forall i :: 0 <= i < |Chart(h)| ==> Chart(h)[i].0 in h && Chart(h)[i].1 == h[Chart(h)[i].0]
    decreases |h|
  {
    if |h| != 0 {
      ChartCons(h);
      var m := Min(h.Keys);
      var rest := h - {m};
      ChartEntries(rest);
      var c, c' := Chart(h), Chart(rest);
      forall i | 0 < i < |c|
        ensures c[i].0 in h && c[i].1 == h[c[i].0]
      {
        assert c[i] == c'[i - 1];
      }
    }
  }

  /** The chart's keys are strictly ascending. */
  lemma {:induction false} ChartSorted(h: Histogram)
    ensures forall i, j :: 0 <= i < j < |Chart(h)| ==> Chart(h)[i].0 < Chart(h)[j].0
    decreases |h|
  {
    if |h| != 0 {
      ChartCons(h);
      var m := Min(h.Keys);
      var rest := h - {m};
      ChartSorted(rest);
      ChartEntries(rest);
      var c, c' := Chart(h), Chart(rest);
      forall i, j | 0 <= i < j < |c|
        ensures c[i].0 < c[j].0
      {
        assert c[j] == c'[j - 1];
        if i > 0 {
          assert c[i] == c'[i - 1];
        } else {
          assert c'[j - 1].0 in rest;
        }
      }
    }
  }

  /** Every key of the histogram appears in the chart. */
  lemma {:induction false} ChartComplete(h: Histogram, k: int)
    requires k in h
    ensures exists i :: 0 <= i < |Chart(h)| && Chart(h)[i].0 == k
    decreases |h|
  {
    ChartCons(h);
    var m := Min(h.Keys);
    var rest := h - {m};
    var c := Chart(h);
    if k == m {
      assert c[0].0 == k;
    } else {
      assert k in rest;
      ChartComplete(rest, k);
      var i :| 0 <= i < |Chart(rest)| && Chart(rest)[i].0 == k;
      assert c[i + 1].0 == k;
    }
  }

  /**
   * The chart lists every key of the histogram exactly once, in strictly
   * ascending order, each with its count unchanged.
   */
  lemma ChartSortedAndExact(h: Histogram)
    ensures forall i, j :: 0 <= i < j < |Chart(h)| ==> Chart(h)[i].0 < Chart(h)[j].0
    ensures forall i :: 0 <= i < |Chart(h)| ==> Chart(h)[i].0 in h && Chart(h)[i].1 == h[Chart(h)[i].0]
    ensures forall k :: k in h ==> exists i :: 0 <= i < |Chart(h)| && Chart(h)[i].0 == k
  {
    ChartSorted(h);
    ChartEntries(h);
    forall k | k in h
      ensures exists i :: 0 <= i < |Chart(h)| && Chart(h)[i].0 == k
    {
      ChartComplete(h, k);
    }
  }

  /** Sum of the counts of a chart (`sum(counts.values())`). */
  function SumCounts(ps: seq<(int, Pos)>): (r: int)
    ensures r >= |ps|
  {
    if ps == [] then 0 else ps[0].1 + SumCounts(ps[1..])
  }

  lemma {:induction false} SumCountsAppend(a: seq<(int, Pos)>, b: seq<(int, Pos)>)
    ensures SumCounts(a + b) == SumCounts(a) + SumCounts(b)
  {
    if a == [] {
      assert a + b == b;
    } else {
      assert (a + b)[1..] == a[1..] + b;
      SumCountsAppend(a[1..], b);
    }
  }

  /** Total number of nodes the histogram accounts for: every key stands for at least one. */
  function Total(h: Histogram): (t: int)
    ensures t >= |h|
  {
    SumCounts(Chart(h))
  }

  /** A histogram's total is at least its number of keys, so it is positive exactly when non-empty. */
  lemma TotalAtLeastSize(h: Histogram)
    ensures Total(h) >= |h|
    ensures Total(h) > 0 <==> |h| > 0
  {
  }

  /** The total is the smallest key's count plus the total of the rest. */
  lemma TotalUnfold(h: Histogram)
    requires |h| > 0
    ensures h.Keys != {}
    ensures Total(h) == h[Min(h.Keys)] + Total(h - {Min(h.Keys)})
  {
    var m := Min(h.Keys);
    assert (h - {m}).Keys == h.Keys - {m};
    assert Chart(h) == [(m, h[m])] + Chart(h - {m});
    assert Chart(h)[1..] == Chart(h - {m});
  }

  /** Count of `k`, zero when the key is absent. */
  function Get(h: Histogram, k: int): nat
  {
    if k in h then h[k] else 0
  }

  /** Removing one key takes exactly its count off the total, whatever its place in key order. */
  lemma {:induction false} TotalRemove(h: Histogram, k: int)
    requires k in h
    ensures Total(h) == h[k] + Total(h - {k})
    decreases |h|
  {
    TotalUnfold(h);
    var m := Min(h.Keys);
    if k != m {
      var rest := h - {m};
      assert rest.Keys == h.Keys - {m};
      TotalRemove(rest, k);
      var h' := h - {k};
      assert h'.Keys == h.Keys - {k};
      MinIs(h'.Keys, m);
      TotalUnfold(h');
      assert h' - {m} == rest - {k};
    }
  }

  lemma TotalRemoveAny(h: Histogram, k: int)
    ensures Total(h) == Get(h, k) + Total(h - {k})
  {
    if k in h {
      TotalRemove(h, k);
    } else {
      assert h - {k} == h;
    }
  }

  /**
   * The histogram merge of merge_results: the key set is the union and each
   * count is the sum of both sides' counts, a missing key counting 0.
   */
  function Merge(a: Histogram, b: Histogram): (m: Histogram)
    ensures m.Keys == a.Keys + b.Keys
    ensures forall k :: k in m ==> m[k] == Get(a, k) + Get(b, k)
  {
    map k | k in a.Keys + b.Keys :: Get(a, k) + Get(b, k)
  }

  /** Merging in one more key of `b` changes the merge only at that key, by that key's count. */
  lemma MergeStep(a: Histogram, b: Histogram, k: int)
    requires k in b
    ensures Get(Merge(a, b), k) == Get(a, k) + b[k]
    ensures Get(Merge(a, b - {k}), k) == Get(a, k)
    ensures Merge(a, b) - {k} == Merge(a, b - {k}) - {k}
  {
    var m, m' := Merge(a, b), Merge(a, b - {k});
    assert (m - {k}).Keys == (m' - {k}).Keys;
  }

  /** Merging adds the totals: no sounding count is lost or duplicated. */
  lemma {:induction false} MergeTotal(a: Histogram, b: Histogram)
    ensures Total(Merge(a, b)) == Total(a) + Total(b)
    decreases |b|
  {
    if |b| == 0 {
      assert Merge(a, b) == a;
      TotalAtLeastSize(b);
    } else {
      TotalUnfold(b);
      var k := Min(b.Keys);
      var b' := b - {k};
      MergeTotal(a, b');
      MergeStep(a, b, k);
      TotalRemoveAny(Merge(a, b), k);
      TotalRemoveAny(Merge(a, b'), k);
    }
  }

  lemma MergeCommutes(a: Histogram, b: Histogram)
    ensures Merge(a, b) == Merge(b, a)
  {
  }

  lemma MergeAssociates(a: Histogram, b: Histogram, c: Histogram)
    ensures Merge(Merge(a, b), c) == Merge(a, Merge(b, c))
  {
  }

  lemma MergeEmpty(h: Histogram)
    ensures Merge(h, map[]) == h && Merge(map[], h) == h
  {
  }

  /** Keys strictly below a (possibly fractional) threshold, with their counts. */
  function Below(h: Histogram, bound: real): (r: Histogram)
    ensures forall k :: k in r <==> k in h && (k as real) < bound
    ensures forall k :: k in r ==> r[k] == h[k]
  {
    map k | k in h && (k as real) < bound :: h[k]
  }

  /** Keys at or above a threshold, with their counts. */
  function Above(h: Histogram, bound: real): (r: Histogram)
    ensures forall k :: k in r <==> k in h && !((k as real) < bound)
    ensures forall k :: k in r ==> r[k] == h[k]
  {
    map k | k in h && !((k as real) < bound) :: h[k]
  }

  /** Filtering at a threshold commutes with merging. */
  lemma BelowMerge(a: Histogram, b: Histogram, bound: real)
    ensures Below(Merge(a, b), bound) == Merge(Below(a, bound), Below(b, bound))
  {
  }

  /** The part of `h` on the keys in `keys`. */
  function Restrict(h: Histogram, keys: set<int>): (r: Histogram)
    ensures r.Keys == h.Keys * keys
    ensures forall k :: k in r ==> r[k] == h[k]
  {
    map k | k in h && k in keys :: h[k]
  }

  /**
   * One iteration of the merge loop: adding key `k` of `b` into what has
   * been merged so far (incrementing an existing count, or inserting a new
   * key) is the merge with one more key of `b`.
   */
  lemma MergeOneKey(a: Histogram, b: Histogram, done: set<int>, k: int, m: Histogram)
    requires k in b && k !in done
    requires m == Merge(a, Restrict(b, done))
    ensures (if k in m then m[k := m[k] + b[k]] else m[k := b[k]]) == Merge(a, Restrict(b, done + {k}))
  {
    var m' := Merge(a, Restrict(b, done + {k}));
    var r := if k in m then m[k := m[k] + b[k]] else m[k := b[k]];
    assert Get(m, k) == Get(a, k);
    assert r.Keys == m'.Keys;
    forall j | j in r
      ensures r[j] == m'[j]
    {
      if j != k {
        assert Get(Restrict(b, done), j) == Get(Restrict(b, done + {k}), j);
      }
    }
  }

  /** Splitting at a threshold partitions the total. */
  lemma SplitTotal(h: Histogram, bound: real)
    ensures Total(h) == Total(Below(h, bound)) + Total(Above(h, bound))
  {
    assert Merge(Below(h, bound), Above(h, bound)) == h;
    MergeTotal(Below(h, bound), Above(h, bound));
  }

  /** Below a lower threshold within the part below a higher one is below the lower one. */
  lemma BelowBelow(h: Histogram, lo: real, hi: real)
    requires lo <= hi
    ensures Below(Below(h, hi), lo) == Below(h, lo)
  {
  }

  /** The count of nodes under a threshold never exceeds the total, and grows with the threshold. */
  lemma BelowMonotone(h: Histogram, lo: real, hi: real)
    requires lo <= hi
    ensures 0 <= Total(Below(h, lo)) <= Total(Below(h, hi)) <= Total(h)
  {
    var bh := Below(h, hi);
    BelowBelow(h, lo, hi);
    SplitTotal(bh, lo);
    SplitTotal(h, hi);
    TotalAtLeastSize(Above(bh, lo));
    TotalAtLeastSize(Above(h, hi));
    TotalAtLeastSize(Below(h, lo));
  }

  /**
   * When the first `i` entries of the chart are exactly those below `bound`
   * (the loop in get_outputs stops at the first count at or above it), the
   * chart of the keys below `bound` is that prefix, and so is their total.
   */
  lemma {:induction false} ChartBelowPrefix(h: Histogram, bound: real, i: nat)
    requires i <= |h|
    requires forall j :: 0 <= j < i ==> (Chart(h)[j].0 as real) < bound
    requires i < |h| ==> !((Chart(h)[i].0 as real) < bound)
    ensures Chart(Below(h, bound)) == Chart(h)[..i]
    ensures Total(Below(h, bound)) == SumCounts(Chart(h)[..i])
    decreases |h|
  {
    if |h| == 0 {
      assert Below(h, bound) == map[];
    } else if i == 0 {
      NoneBelow(h, bound);
    } else {
      var m := Min(h.Keys);
      ChartTail(h, bound, i);
      ChartBelowPrefix(h - {m}, bound, i - 1);
      BelowCons(h, bound);
    }
  }

  /** When the first chart entry is not below the bound, no key is. */
  lemma NoneBelow(h: Histogram, bound: real)
    requires |h| > 0 && !((Chart(h)[0].0 as real) < bound)
    ensures Below(h, bound) == map[]
  {
    ChartCons(h);
    assert Below(h, bound).Keys == {};
  }

  /**
   * Past the smallest key, the chart of the rest carries the loop's
   * stopping condition one position earlier.
   */
  lemma ChartTail(h: Histogram, bound: real, i: nat)
    requires 0 < i <= |h|
    requires forall j :: 0 <= j < i ==> (Chart(h)[j].0 as real) < bound
    requires i < |h| ==> !((Chart(h)[i].0 as real) < bound)
    ensures h.Keys != {} && (Min(h.Keys) as real) < bound
    ensures i - 1 <= |h - {Min(h.Keys)}|
    ensures forall j :: 0 <= j < i - 1 ==> (Chart(h - {Min(h.Keys)})[j].0 as real) < bound
    ensures i - 1 < |h - {Min(h.Keys)}| ==> !((Chart(h - {Min(h.Keys)})[i - 1].0 as real) < bound)
    ensures Chart(h)[..i] == [(Min(h.Keys), h[Min(h.Keys)])] + Chart(h - {Min(h.Keys)})[..i - 1]
  {
    ChartCons(h);
    var m := Min(h.Keys);
    var c, c' := Chart(h), Chart(h - {m});
    assert c[0].0 == m;
    forall j | 0 <= j < i - 1
      ensures (c'[j].0 as real) < bound
    {
      assert c'[j] == c[j + 1];
    }
    if i - 1 < |c'| {
      assert c'[i - 1] == c[i];
    }
    assert c[..i] == [(m, h[m])] + c'[..i - 1];
  }

  /** When the smallest key is below the bound, it heads the chart of the keys below. */
  lemma BelowCons(h: Histogram, bound: real)
    requires |h| > 0 && (Min(h.Keys) as real) < bound
    ensures |Below(h, bound)| > 0
    ensures Chart(Below(h, bound)) == [(Min(h.Keys), h[Min(h.Keys)])] + Chart(Below(h - {Min(h.Keys)}, bound))
  {
    var m := Min(h.Keys);
    var b := Below(h, bound);
    assert m in b;
    MinIs(b.Keys, m);
    ChartCons(b);
    assert b - {m} == Below(h - {m}, bound);
  }

  /** Distinct unmasked values of a flattened tile. */
  function Present(cells: seq<Cell>): set<int>
  {
    set c | c in cells && c.Some? :: c.value
  }

  lemma PresentMeans(cells: seq<Cell>, k: int)
    ensures k in Present(cells) <==> Some(k) in cells
  {
    if Some(k) in cells {
      var c := Some(k);
      assert c in cells && c.Some? && c.value == k;
    }
  }

  /**
   * The histogram a tile contributes: each distinct unmasked value mapped to
   * its number of occurrences. It depends only on the multiset of cells.
   */
  function HistogramOf(cells: seq<Cell>): (h: Histogram)
    ensures h.Keys == Present(cells)
    ensures forall k :: k in h ==> h[k] == multiset(cells)[Some(k)]
  {
    assert forall k :: k in Present(cells) ==> multiset(cells)[Some(k)] > 0 by {
      forall k | k in Present(cells)
        ensures multiset(cells)[Some(k)] > 0
      {
        PresentMeans(cells, k);
      }
    }
    map k | k in Present(cells) :: multiset(cells)[Some(k)]
  }

  /** Tabulating two pieces separately and merging gives the histogram of the whole. */
  lemma HistogramOfConcat(a: seq<Cell>, b: seq<Cell>)
    ensures HistogramOf(a + b) == Merge(HistogramOf(a), HistogramOf(b))
  {
    var ha, hb, hab := HistogramOf(a), HistogramOf(b), HistogramOf(a + b);
    forall k
      ensures k in hab <==> k in ha || k in hb
      ensures k in hab ==> hab[k] == Get(ha, k) + Get(hb, k)
    {
      HistogramOfConcatKey(a, b, k);
    }
  }

  /** One key of the histogram of two pieces together. */
  lemma HistogramOfConcatKey(a: seq<Cell>, b: seq<Cell>, k: int)
    ensures k in HistogramOf(a + b) <==> k in HistogramOf(a) || k in HistogramOf(b)
    ensures k in HistogramOf(a + b) ==> HistogramOf(a + b)[k] == Get(HistogramOf(a), k) + Get(HistogramOf(b), k)
  {
    assert multiset(a + b) == multiset(a) + multiset(b);
    PresentMeans(a + b, k);
    PresentMeans(a, k);
    PresentMeans(b, k);
    assert Some(k) in a + b <==> Some(k) in a || Some(k) in b;
  }

  /** Number of unmasked cells. */
  function PresentCount(cells: seq<Cell>): nat
  {
    if cells == [] then 0
    else PresentCount(cells[..|cells| - 1]) + (if cells[|cells| - 1].Some? then 1 else 0)
  }

  lemma SingletonTotal(c: Cell)
    ensures Total(HistogramOf([c])) == if c.Some? then 1 else 0
  {
    var h := HistogramOf([c]);
    if c.Some? {
      PresentMeans([c], c.value);
      assert h.Keys == {c.value};
      TotalRemove(h, c.value);
      assert h - {c.value} == map[];
      TotalAtLeastSize(map[]);
    } else {
      assert h.Keys == {} by {
        forall k ensures k !in h { PresentMeans([c], k); }
      }
      TotalAtLeastSize(h);
    }
  }

  /** The histogram of a tile accounts for every unmasked cell exactly once. */
  lemma {:induction false} HistogramTotal(cells: seq<Cell>)
    ensures Total(HistogramOf(cells)) == PresentCount(cells)
    decreases |cells|
  {
    if cells == [] {
      assert HistogramOf(cells).Keys == {};
      TotalAtLeastSize(HistogramOf(cells));
    } else {
      var init, last := cells[..|cells| - 1], cells[|cells| - 1];
      assert cells == init + [last];
      HistogramOfConcat(init, [last]);
      MergeTotal(HistogramOf(init), HistogramOf([last]));
      HistogramTotal(init);
      SingletonTotal(last);
    }
  }

  /** Folding per-tile histograms with Merge, the way the runner folds per-tile checks. */
  function MergeAll(hs: seq<Histogram>): Histogram
  {
    if hs == [] then map[] else Merge(MergeAll(hs[..|hs| - 1]), hs[|hs| - 1])
  }

  function Concat(tiles: seq<seq<Cell>>): seq<Cell>
  {
    if tiles == [] then [] else Concat(tiles[..|tiles| - 1]) + tiles[|tiles| - 1]
  }

  /**
   * Tiling is exact: folding the per-tile histograms gives the histogram of
   * all the tiles' cells taken together, and hence of any grid holding the
   * same cells in any arrangement.
   */
  lemma {:induction false} TiledHistogram(tiles: seq<seq<Cell>>, whole: seq<Cell>)
    requires multiset(whole) == multiset(Concat(tiles))
    ensures MergeAll(seq(|tiles|, i requires 0 <= i < |tiles| => HistogramOf(tiles[i]))) == HistogramOf(whole)
    decreases |tiles|
  {
    var hs := seq(|tiles|, i requires 0 <= i < |tiles| => HistogramOf(tiles[i]));
    HistogramOfSameCells(whole, Concat(tiles));
    if tiles == [] {
      assert HistogramOf([]).Keys == {};
    } else {
      var init := tiles[..|tiles| - 1];
      TiledHistogram(init, Concat(init));
      assert hs[..|hs| - 1] == seq(|init|, i requires 0 <= i < |init| => HistogramOf(init[i]));
      HistogramOfConcat(Concat(init), tiles[|tiles| - 1]);
    }
  }

  /** The histogram depends only on which cells there are, not on their arrangement. */
  lemma HistogramOfSameCells(a: seq<Cell>, b: seq<Cell>)
    requires multiset(a) == multiset(b)
    ensures HistogramOf(a) == HistogramOf(b)
  {
    forall k
      ensures k in HistogramOf(a) <==> k in HistogramOf(b)
    {
      PresentMeans(a, k);
      PresentMeans(b, k);
      assert Some(k) in a <==> Some(k) in multiset(a);
      assert Some(k) in b <==> Some(k) in multiset(b);
    }
  }

  /** Chart entries tagged as unmasked values, as np.unique reports them. */
  function Tagged(c: seq<(int, Pos)>): (u: seq<(Cell, Pos)>)
    ensures |u| == |c|
    ensures forall i :: 0 <= i < |c| ==> u[i] == (Some(c[i].0), c[i].1)
  {
    if c == [] then [] else [(Some(c[0].0), c[0].1)] + Tagged(c[1..])
  }

  /**
   * The pairs of np.unique(density, return_counts=True) over a tile: the
   * distinct unmasked values in ascending order with their counts, then one
   * masked entry when the tile has masked cells.
   */
  function UniqueCounts(cells: seq<Cell>): (u: seq<(Cell, Pos)>)
    ensures |u| == |Present(cells)| + (if None in cells then 1 else 0)
    ensures forall i :: 0 <= i < |u| ==> u[i].0 in cells && u[i].1 == multiset(cells)[u[i].0]
    ensures forall i, j :: 0 <= i < j < |u| ==> u[i].0 != u[j].0
    ensures forall i, j :: 0 <= i < j < |u| && u[j].0.Some? ==> u[i].0.Some? && u[i].0.value < u[j].0.value
  {
    var u := Tagged(Chart(HistogramOf(cells))) + MaskedEntry(cells);
    UniquePairs(cells, u);
    u
  }

  /** The chart's pairs are unmasked values of the tile, ascending, each with its number of occurrences. */
  lemma TaggedChartPairs(cells: seq<Cell>)
    ensures |Tagged(Chart(HistogramOf(cells)))| == |Present(cells)|
    ensures forall i :: 0 <= i < |Tagged(Chart(HistogramOf(cells)))| ==>
              var p := Tagged(Chart(HistogramOf(cells)))[i];
              p.0.Some? && p.0 in cells && p.1 == multiset(cells)[p.0]
    ensures forall i, j :: 0 <= i < j < |Tagged(Chart(HistogramOf(cells)))| ==>
              Tagged(Chart(HistogramOf(cells)))[i].0.value < Tagged(Chart(HistogramOf(cells)))[j].0.value
  {
    var h := HistogramOf(cells);
    var c, t := Chart(h), Tagged(Chart(h));
    ChartEntries(h);
    ChartSorted(h);
    assert |h| == |Present(cells)|;
    forall i | 0 <= i < |t|
      ensures t[i].0.Some? && t[i].0 in cells && t[i].1 == multiset(cells)[t[i].0]
    {
      assert t[i] == (Some(c[i].0), c[i].1);
      assert multiset(cells)[Some(c[i].0)] > 0;
    }
    forall i, j | 0 <= i < j < |t|
      ensures t[i].0.value < t[j].0.value
    {
      assert t[i].0.value == c[i].0 && t[j].0.value == c[j].0;
    }
  }

  /** The chart's pairs followed by the masked entry are distinct, ascending, and counted exactly. */
  lemma UniquePairs(cells: seq<Cell>, u: seq<(Cell, Pos)>)
    requires u == Tagged(Chart(HistogramOf(cells))) + MaskedEntry(cells)
    ensures |u| == |Present(cells)| + (if None in cells then 1 else 0)
    ensures forall i :: 0 <= i < |u| ==> u[i].0 in cells && u[i].1 == multiset(cells)[u[i].0]
    ensures forall i, j :: 0 <= i < j < |u| ==> u[i].0 != u[j].0
    ensures forall i, j :: 0 <= i < j < |u| && u[j].0.Some? ==> u[i].0.Some? && u[i].0.value < u[j].0.value
  {
    var t, m := Tagged(Chart(HistogramOf(cells))), MaskedEntry(cells);
    TaggedChartPairs(cells);
    forall i | 0 <= i < |u|
      ensures u[i].0 in cells && u[i].1 == multiset(cells)[u[i].0]
    {
      if i < |t| {
        assert u[i] == t[i];
      } else {
        assert u[i] == m[i - |t|];
      }
    }
    forall i, j | 0 <= i < j < |u|
      ensures u[i].0 != u[j].0
      ensures u[j].0.Some? ==> u[i].0.Some? && u[i].0.value < u[j].0.value
    {
      assert i < |t|;
      assert u[i] == t[i];
      if j < |t| {
        assert u[j] == t[j];
      } else {
        assert u[j] == m[j - |t|];
      }
    }
  }

  /** The entry np.unique reports for the masked cells, when there are any. */
  function MaskedEntry(cells: seq<Cell>): (u: seq<(Cell, Pos)>)
    ensures |u| <= 1
    ensures forall i :: 0 <= i < |u| ==> u[i].0.None?
    ensures u != [] <==> None in cells
    ensures forall i :: 0 <= i < |u| ==> u[i].1 == multiset(cells)[None]
  {
    if None in cells then [(None, multiset(cells)[None])] else []
  }

  /** One iteration of the loop in run: skip a masked value, otherwise `hist[val] = count`. */
  function Record(hist: Histogram, p: (Cell, Pos)): (r: Histogram)
    ensures p.0.None? ==> r == hist
    ensures p.0.Some? ==> r.Keys == hist.Keys + {p.0.value} && r[p.0.value] == p.1
    ensures forall k :: k in hist && Some(k) != p.0 ==> r[k] == hist[k]
  {
    if p.0.None? then hist else hist[p.0.value := p.1]
  }

  /** The dictionary the loop in run leaves after processing `pairs` in order, starting from `hist`. */
  function Tabulate(hist: Histogram, pairs: seq<(Cell, Pos)>): (r: Histogram)
    ensures hist.Keys <= r.Keys
    ensures forall i :: 0 <= i < |pairs| && pairs[i].0.Some? ==> pairs[i].0.value in r
    ensures pairs != [] && pairs[|pairs| - 1].0.Some? ==> r[pairs[|pairs| - 1].0.value] == pairs[|pairs| - 1].1
    decreases pairs
  {
    if pairs == [] then hist else Tabulate(Record(hist, pairs[0]), pairs[1..])
  }

  /** Masked entries leave the dictionary unchanged. */
  lemma {:induction false} TabulateMasked(hist: Histogram, b: seq<(Cell, Pos)>)
    requires forall i :: 0 <= i < |b| ==> b[i].0.None?
    ensures Tabulate(hist, b) == hist
  {
    if b != [] {
      TabulateMasked(hist, b[1..]);
    }
  }

  /** Processing `a + b` is processing `a`, then `b`. */
  lemma {:induction false} TabulateAppend(hist: Histogram, a: seq<(Cell, Pos)>, b: seq<(Cell, Pos)>)
    ensures Tabulate(hist, a + b) == Tabulate(Tabulate(hist, a), b)
    decreases a
  {
    if a == [] {
      assert a + b == b;
    } else {
      assert (a + b)[1..] == a[1..] + b;
      TabulateAppend(Record(hist, a[0]), a[1..], b);
    }
  }

  /** Processing a histogram's chart writes every one of its keys with its count over `hist`. */
  lemma {:induction false} TabulateChart(hist: Histogram, h: Histogram)
    ensures Tabulate(hist, Tagged(Chart(h))) == hist + h
    decreases |h|
  {
    if |h| == 0 {
      assert h == map[];
    } else {
      var m := Min(h.Keys);
      TabulateChartStep(hist, h);
      assert (h - {m}).Keys == h.Keys - {m};
      TabulateChart(hist[m := h[m]], h - {m});
      WriteThenRest(hist, h, m);
    }
  }

  lemma WriteThenRest(hist: Histogram, h: Histogram, m: int)
    requires m in h
    ensures hist[m := h[m]] + (h - {m}) == hist + h
  {
  }

  /** Processing the chart's first entry writes the smallest key. */
  lemma TabulateChartStep(hist: Histogram, h: Histogram)
    requires |h| > 0
    ensures h.Keys != {}
    ensures Tabulate(hist, Tagged(Chart(h)))
         == Tabulate(hist[Min(h.Keys) := h[Min(h.Keys)]], Tagged(Chart(h - {Min(h.Keys)})))
  {
    ChartCons(h);
    var m := Min(h.Keys);
    var t := Tagged(Chart(h));
    assert t[0] == (Some(m), h[m]);
    assert t[1..] == Tagged(Chart(h - {m}));
  }

  /** The loop in run, fed with np.unique's pairs, builds exactly the tile's histogram. */
  lemma UniqueCountsTabulate(cells: seq<Cell>)
    ensures Tabulate(map[], UniqueCounts(cells)) == HistogramOf(cells)
  {
    var h := HistogramOf(cells);
    TabulateAppend(map[], Tagged(Chart(h)), MaskedEntry(cells));
    TabulateChart(map[], h);
    assert map[] + h == h;
    TabulateMasked(h, MaskedEntry(cells));
  }
}
