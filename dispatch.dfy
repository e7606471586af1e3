/**
 * Band dispatch and write-back (`update_grid`): the rows are cut into one
 * band per worker, every band is swept from the same snapshot, and the
 * results are written back into the current grid in band order.
 */
module Dispatch {
  import opened Grids
  import opened Stencil

  /**
   * `prev_grid.size // cpu_count()`: the band height is the number of CELLS,
   * not of rows, divided by the number of workers.
   */
  function Steps(rows: nat, cols: nat, p: nat): nat
    requires p >= 1
  {
    Quot(Times(rows, cols), p)
  }

  /** The band height is the cell count divided by the number of workers, rounded down. */
  lemma StepsIsQuotient(rows: nat, cols: nat, p: nat)
    requires p >= 1
    ensures Steps(rows, cols, p) == (rows * cols) / p
  {
    TimesIsProduct(rows, cols);
    QuotIsDiv(rows * cols, p);
  }

  /** `g[lo:lo+len(block), :] = block`: rows from `lo` on replaced by `block`. */
  function Overwrite(g: Grid, lo: nat, block: Grid): (h: Grid)
    requires lo + |block| <= |g|
    ensures |h| == |g|
    ensures forall r {:trigger h[r]} :: 0 <= r < |g| ==> h[r] == if lo <= r < lo + |block| then block[r - lo] else g[r]
    decreases |block|
  {
    if |block| == 0 then g else Overwrite(g[lo := block[0]], lo + 1, block[1..])
  }

  /** Result j has exactly the rows of band j (bands m rows tall over n rows) and `cols` columns. */
  predicate FitsBands(results: seq<Grid>, m: nat, n: nat, cols: nat) {
    forall j {:trigger results[j]} :: 0 <= j < |results| ==> IsRect(results[j], BandHi(j, m, n) - BandLo(j, m, n), cols)
  }

  /** The list of results `update_grid` collects: band i of `prev` swept, for every i < p. */
  function Bands(prev: Grid, cols: nat, m: nat, p: nat): (results: seq<Grid>)
    requires IsRect(prev, |prev|, cols)
    ensures |results| == p && FitsBands(results, m, |prev|, cols)
    ensures forall j :: 0 <= j < p ==> results[j] == Band(prev, cols, j, m)
  {
    seq(p, (j: nat) => Band(prev, cols, j, m))
  }

  /** `cur` after results 0 .. k-1 have been written back in order, result j onto the rows of band j. */
  function WriteBack(cur: Grid, results: seq<Grid>, cols: nat, m: nat, k: nat): (g: Grid)
    requires IsRect(cur, |cur|, cols) && FitsBands(results, m, |cur|, cols) && k <= |results|
    ensures IsRect(g, |cur|, cols)
  {
    if k == 0 then cur
    else Overwrite(WriteBack(cur, results, cols, m, k - 1), BandLo(k - 1, m, |cur|), results[k - 1])
  }

  /** The grid `update_grid(prev, cur, pool)` leaves in `cur` with p workers. */
  function Refresh(prev: Grid, cur: Grid, cols: nat, p: nat): (g: Grid)
    requires p >= 1
    requires IsRect(prev, |prev|, cols) && IsRect(cur, |prev|, cols)
    ensures IsRect(g, |prev|, cols)
  {
    var m := Steps(|prev|, cols, p);
    WriteBack(cur, Bands(prev, cols, m, p), cols, m, p)
  }

  /** Row r lies in band j when bands are m rows tall and the grid has n rows. */
  predicate InBandRows(r: nat, j: nat, m: nat, n: nat) {
    BandLo(j, m, n) <= r < BandHi(j, m, n)
  }

  /** Distinct bands share no row. */
  lemma BandsDisjoint(r: nat, m: nat, n: nat, i: nat, j: nat)
    requires i < j
    ensures !(InBandRows(r, i, m, n) && InBandRows(r, j, m, n))
  {
    TimesMono(i + 1, j, m);
  }

  /** After results 0 .. k-1 are written back, a row of band j < k holds result j's row. */
  lemma {:induction false} WriteBackIn(cur: Grid, results: seq<Grid>, cols: nat, m: nat, k: nat, j: nat, r: nat)
    requires IsRect(cur, |cur|, cols) && FitsBands(results, m, |cur|, cols) && k <= |results|
    requires j < k && InBandRows(r, j, m, |cur|)
    ensures WriteBack(cur, results, cols, m, k)[r] == results[j][r - BandLo(j, m, |cur|)]
  {
    var g, lo := WriteBack(cur, results, cols, m, k - 1), BandLo(k - 1, m, |cur|);
    if j < k - 1 {
      WriteBackIn(cur, results, cols, m, k - 1, j, r);
      BandsDisjoint(r, m, |cur|, j, k - 1);
    }
  }

  /** After results 0 .. k-1 are written back, a row in none of their bands keeps cur's contents. */
  lemma {:induction false} WriteBackOut(cur: Grid, results: seq<Grid>, cols: nat, m: nat, k: nat, r: nat)
    requires IsRect(cur, |cur|, cols) && FitsBands(results, m, |cur|, cols) && k <= |results|
    requires r < |cur|
    requires forall j :: 0 <= j < k ==> !InBandRows(r, j, m, |cur|)
    ensures WriteBack(cur, results, cols, m, k)[r] == cur[r]
  {
    if k > 0 {
      WriteBackOut(cur, results, cols, m, k - 1, r);
      assert !InBandRows(r, k - 1, m, |cur|);
    }
  }

  /** Band i's result lands on rows [i*steps, min((i+1)*steps, N)) of the refreshed grid. */
  lemma RefreshBandRows(prev: Grid, cur: Grid, cols: nat, p: nat, i: nat, r: nat)
    requires p >= 1 && IsRect(prev, |prev|, cols) && IsRect(cur, |prev|, cols)
    requires i < p && InBandRows(r, i, Steps(|prev|, cols, p), |prev|)
    ensures Refresh(prev, cur, cols, p)[r] ==
      Band(prev, cols, i, Steps(|prev|, cols, p))[r - BandLo(i, Steps(|prev|, cols, p), |prev|)]
  {
    WriteBackIn(cur, Bands(prev, cols, Steps(|prev|, cols, p), p), cols, Steps(|prev|, cols, p), p, i, r);
  }

  /** A row of no band keeps cur's contents. */
  lemma RefreshUncoveredRow(prev: Grid, cur: Grid, cols: nat, p: nat, r: nat)
    requires p >= 1 && IsRect(prev, |prev|, cols) && IsRect(cur, |prev|, cols)
    requires r < |prev|
    requires forall i :: 0 <= i < p ==> !InBandRows(r, i, Steps(|prev|, cols, p), |prev|)
    ensures Refresh(prev, cur, cols, p)[r] == cur[r]
  {
    WriteBackOut(cur, Bands(prev, cols, Steps(|prev|, cols, p), p), cols, Steps(|prev|, cols, p), p, r);
  }

  /** With fewer cells than workers the band height is 0 and cur is left alone. */
  lemma RefreshNoSteps(prev: Grid, cur: Grid, cols: nat, p: nat)
    requires p >= 1 && IsRect(prev, |prev|, cols) && IsRect(cur, |prev|, cols)
    requires Steps(|prev|, cols, p) == 0
    ensures Refresh(prev, cur, cols, p) == cur
  {
    forall r | 0 <= r < |prev| ensures Refresh(prev, cur, cols, p)[r] == cur[r] {
      WriteBackOut(cur, Bands(prev, cols, 0, p), cols, 0, p, r);
    }
  }

  /**
   * With at least as many columns as workers (a square grid with N >= P), band
   * 0 spans every row: the refresh is one sweep of the whole snapshot, and the
   * outer edge of the result is the snapshot's.
   */
  lemma WideGridSingleBand(prev: Grid, cur: Grid, cols: nat, p: nat)
    requires p >= 1 && IsRect(prev, |prev|, cols) && IsRect(cur, |prev|, cols)
    requires cols >= p
    ensures Steps(|prev|, cols, p) >= |prev|
    ensures Refresh(prev, cur, cols, p) == Relax(prev, cols)
    ensures forall r, c :: 0 <= r < |prev| && 0 <= c < cols && !Interior(|prev|, cols, r, c) ==>
      Refresh(prev, cur, cols, p)[r][c] == prev[r][c]
  {
    var m := Steps(|prev|, cols, p);
    WideSteps(|prev|, cols, p);
    SingleBand(prev, cur, cols, m, p);
  }

  /** With at least as many columns as workers the band height reaches the row count. */
  lemma WideSteps(n: nat, cols: nat, p: nat)
    requires p >= 1 && cols >= p
    ensures Steps(n, cols, p) >= n
  {
    assert n * cols >= n * p by { MulMono(p, cols, n); }
    DivLower(n * cols, p, n);
    StepsIsQuotient(n, cols, p);
  }

  /** With bands at least as tall as the grid, the write-back leaves exactly result 0. */
  lemma WriteBackWhole(cur: Grid, results: seq<Grid>, cols: nat, m: nat, k: nat)
    requires IsRect(cur, |cur|, cols) && FitsBands(results, m, |cur|, cols) && 1 <= k <= |results|
    requires m >= |cur|
    ensures WriteBack(cur, results, cols, m, k) == results[0]
  {
    var n := |cur|;
    assert BandLo(0, m, n) == 0 && BandHi(0, m, n) == n;
    forall r | 0 <= r < n ensures WriteBack(cur, results, cols, m, k)[r] == results[0][r] {
      assert InBandRows(r, 0, m, n);
      WriteBackIn(cur, results, cols, m, k, 0, r);
    }
  }

  /** Bands at least as tall as the grid: band 0 is the whole grid and the write-back is one sweep. */
  lemma SingleBand(prev: Grid, cur: Grid, cols: nat, m: nat, p: nat)
    requires p >= 1 && IsRect(prev, |prev|, cols) && IsRect(cur, |prev|, cols)
    requires m >= |prev|
    ensures WriteBack(cur, Bands(prev, cols, m, p), cols, m, p) == Relax(prev, cols)
  {
    WriteBackWhole(cur, Bands(prev, cols, m, p), cols, m, p);
    assert RowSlice(prev, Times(0, m), Times(0, m) + m) == prev;
  }

  /** The band of row r is its quotient by the band height. */
  lemma QuotientBand(r: nat, m: nat, n: nat)
    requires m > 0 && r < n
    ensures r / m <= r && InBandRows(r, r / m, m, n)
  {
    assert (r / m) * m <= r < (r / m) * m + m;
    MulMono(1, m, r / m);
    TimesIsProduct(r / m, m);
  }

  /** On a square grid with at least as many cells as workers every row lies in some band. */
  lemma SquareGridCovered(n: nat, p: nat, r: nat)
    requires p >= 1 && n * n >= p && r < n
    ensures exists i :: 0 <= i < p && InBandRows(r, i, Steps(n, n, p), n)
  {
    var m := Steps(n, n, p);
    StepsIsQuotient(n, n, p);
    assert m >= 1 by { DivLower(n * n, p, 1); }
    if n >= p {
      assert n * n >= n * p by { MulMono(p, n, n); }
      DivLower(n * n, p, n);
      assert InBandRows(r, 0, m, n);
    } else {
      QuotientBand(r, m, n);
    }
  }

  /** Band i is the sweep of rows [BandLo, BandHi) of the grid. */
  lemma BandIsSweep(prev: Grid, cols: nat, i: nat, m: nat)
    requires IsRect(prev, |prev|, cols)
    ensures Band(prev, cols, i, m) == Relax(prev[BandLo(i, m, |prev|)..BandHi(i, m, |prev|)], cols)
  {
    assert RowSlice(prev, Times(i, m), Times(i, m) + m) == prev[BandLo(i, m, |prev|)..BandHi(i, m, |prev|)];
  }

  /** A cell on a band's first or last row, or on the first or last column, is the snapshot's cell. */
  lemma BandEdgeCell(prev: Grid, cols: nat, i: nat, m: nat, r: nat, c: nat)
    requires IsRect(prev, |prev|, cols) && c < cols && InBandRows(r, i, m, |prev|)
    requires r == BandLo(i, m, |prev|) || r == BandHi(i, m, |prev|) - 1 || c == 0 || c == cols - 1
    ensures Band(prev, cols, i, m)[r - BandLo(i, m, |prev|)][c] == prev[r][c]
  {
    BandIsSweep(prev, cols, i, m);
    var lo, hi := BandLo(i, m, |prev|), BandHi(i, m, |prev|);
    assert !Interior(hi - lo, cols, r - lo, c);
  }

  /** A band of at most two rows, or of at most two columns, is its slice unchanged. */
  lemma ThinBandRow(prev: Grid, cols: nat, i: nat, m: nat, r: nat)
    requires IsRect(prev, |prev|, cols) && (m <= 2 || cols <= 2) && InBandRows(r, i, m, |prev|)
    ensures Band(prev, cols, i, m)[r - BandLo(i, m, |prev|)] == prev[r]
  {
    BandIsSweep(prev, cols, i, m);
  }

  /**
   * The first and last row of every band, and the first and last column of
   * every row in a band, are copied from the snapshot unchanged: this is what
   * freezes the rows at band seams.
   */
  lemma RefreshKeepsBandEdges(prev: Grid, cur: Grid, cols: nat, p: nat, i: nat, r: nat, c: nat)
    requires p >= 1 && IsRect(prev, |prev|, cols) && IsRect(cur, |prev|, cols)
    requires i < p && c < cols && InBandRows(r, i, Steps(|prev|, cols, p), |prev|)
    requires r == BandLo(i, Steps(|prev|, cols, p), |prev|) || r == BandHi(i, Steps(|prev|, cols, p), |prev|) - 1
          || c == 0 || c == cols - 1
    ensures Refresh(prev, cur, cols, p)[r][c] == prev[r][c]
  {
    RefreshBandRows(prev, cur, cols, p, i, r);
    BandEdgeCell(prev, cols, i, Steps(|prev|, cols, p), r, c);
  }

  /** Bands of at most two rows, or grids of at most two columns, copy every banded row from the snapshot. */
  lemma ThinBandsCopy(prev: Grid, cur: Grid, cols: nat, p: nat, i: nat, r: nat)
    requires p >= 1 && IsRect(prev, |prev|, cols) && IsRect(cur, |prev|, cols)
    requires Steps(|prev|, cols, p) <= 2 || cols <= 2
    requires i < p && InBandRows(r, i, Steps(|prev|, cols, p), |prev|)
    ensures Refresh(prev, cur, cols, p)[r] == prev[r]
  {
    RefreshBandRows(prev, cur, cols, p, i, r);
    ThinBandRow(prev, cols, i, Steps(|prev|, cols, p), r);
  }

  /** Any run of rows of a harmonic grid is harmonic, so a sweep gives it back. */
  lemma HarmonicSlice(prev: Grid, cols: nat, lo: nat, hi: nat)
    requires IsRect(prev, |prev|, cols) && Harmonic(prev, cols)
    requires lo <= hi <= |prev|
    ensures Relax(prev[lo..hi], cols) == prev[lo..hi]
  {
    var s := prev[lo..hi];
    forall x, y | 0 <= x < |s| && 0 <= y < cols && Interior(|s|, cols, x, y)
      ensures s[x][y] == Mean4(s, cols, x, y)
    {
      assert Interior(|prev|, cols, lo + x, y);
      assert prev[lo + x][y] == Mean4(prev, cols, lo + x, y);
      assert s[x - 1] == prev[lo + x - 1] && s[x] == prev[lo + x] && s[x + 1] == prev[lo + x + 1];
    }
    RelaxFixedPoint(s, cols);
  }

  /** Each row of a band swept from a harmonic snapshot is the snapshot's own row. */
  lemma HarmonicBand(prev: Grid, cols: nat, m: nat, i: nat)
    requires IsRect(prev, |prev|, cols) && Harmonic(prev, cols)
    ensures Band(prev, cols, i, m) == prev[BandLo(i, m, |prev|)..BandHi(i, m, |prev|)]
  {
    BandIsSweep(prev, cols, i, m);
    HarmonicSlice(prev, cols, BandLo(i, m, |prev|), BandHi(i, m, |prev|));
  }

  /** A band whose sweep returns its own slice leaves its rows as the snapshot's. */
  lemma UnchangedBandRow(prev: Grid, cur: Grid, cols: nat, p: nat, i: nat, r: nat)
    requires p >= 1 && IsRect(prev, |prev|, cols) && IsRect(cur, |prev|, cols)
    requires i < p && InBandRows(r, i, Steps(|prev|, cols, p), |prev|)
    requires Band(prev, cols, i, Steps(|prev|, cols, p))
          == prev[BandLo(i, Steps(|prev|, cols, p), |prev|)..BandHi(i, Steps(|prev|, cols, p), |prev|)]
    ensures Refresh(prev, cur, cols, p)[r] == prev[r]
  {
    var m := Steps(|prev|, cols, p);
    var lo, hi := BandLo(i, m, |prev|), BandHi(i, m, |prev|);
    RefreshBandRows(prev, cur, cols, p, i, r);
    assert prev[lo..hi][r - lo] == prev[r];
  }

  /** At a harmonic snapshot the refresh changes no banded row. */
  lemma RefreshHarmonic(prev: Grid, cur: Grid, cols: nat, p: nat, i: nat, r: nat)
    requires p >= 1 && IsRect(prev, |prev|, cols) && IsRect(cur, |prev|, cols)
    requires Harmonic(prev, cols)
    requires i < p && InBandRows(r, i, Steps(|prev|, cols, p), |prev|)
    ensures Refresh(prev, cur, cols, p)[r] == prev[r]
  {
    HarmonicBand(prev, cols, Steps(|prev|, cols, p), i);
    UnchangedBandRow(prev, cur, cols, p, i, r);
  }

  /** Refreshing a copy of a harmonic grid gives the grid back. */
  lemma RefreshHarmonicCopy(g: Grid, cols: nat, p: nat)
    requires p >= 1 && IsRect(g, |g|, cols)
    requires Harmonic(g, cols)
    ensures Refresh(g, g, cols, p) == g
  {
    forall r | 0 <= r < |g| ensures Refresh(g, g, cols, p)[r] == g[r] {
      if i :| 0 <= i < p && InBandRows(r, i, Steps(|g|, cols, p), |g|) {
        RefreshHarmonic(g, g, cols, p, i, r);
      } else {
        RefreshUncoveredRow(g, g, cols, p, r);
      }
    }
  }

  /** `cur[lo:lo+block.shape[0], :] = block`: copy `block` into the rows of `cur` from `lo` on. */
  method WriteRows(cur: array2<real>, lo: nat, block: array2<real>)
    requires cur != block
    requires lo + block.Length0 <= cur.Length0 && block.Length1 == cur.Length1
    modifies cur
    ensures Rows(cur) == Overwrite(old(Rows(cur)), lo, Rows(block))
  {
    ghost var before := Rows(cur);
    for r := 0 to block.Length0
      invariant forall x, y :: 0 <= x < cur.Length0 && 0 <= y < cur.Length1 ==>
        cur[x, y] == if lo <= x < lo + r then block[x - lo, y] else before[x][y]
    {
      for c := 0 to cur.Length1
        invariant forall x, y :: 0 <= x < cur.Length0 && 0 <= y < cur.Length1 ==>
          cur[x, y] == if lo <= x < lo + r || (x == lo + r && y < c) then block[x - lo, y] else before[x][y]
      {
        cur[lo + r, c] := block[r, c];
      }
    }
    RowsFromCells(cur, Overwrite(before, lo, Rows(block)));
  }

  /**
   * The dispatch of `update_grid`: band i of `prev`, swept, for every i < p.
   * The bands are computed before any result is written back.
   */
  method SweepBands(prev: array2<real>, p: nat, steps: nat) returns (results: seq<array2<real>>)
    ensures |results| == p
    ensures forall k :: 0 <= k < p ==> fresh(results[k])
    ensures forall k :: 0 <= k < p ==> Rows(results[k]) == Bands(Rows(prev), prev.Length1, steps, p)[k]
    ensures forall k {:trigger results[k]} :: 0 <= k < p ==>
      results[k].Length0 == BandHi(k, steps, prev.Length0) - BandLo(k, steps, prev.Length0) && results[k].Length1 == prev.Length1
  {
    ghost var bands := Bands(Rows(prev), prev.Length1, steps, p);
    results := [];
    for i := 0 to p
      invariant |results| == i
      invariant forall k :: 0 <= k < i ==> fresh(results[k]) && Rows(results[k]) == bands[k]
      invariant forall k {:trigger results[k]} :: 0 <= k < i ==>
        results[k].Length0 == BandHi(k, steps, prev.Length0) - BandLo(k, steps, prev.Length0) && results[k].Length1 == prev.Length1
    {
      var band := UpdateMiniGrid(prev, i, steps);
      results := results + [band];
    }
  }

  /** One pass of the write-back loop: result i onto the rows of band i. */
  method WriteBand(cur: array2<real>, results: seq<array2<real>>, steps: nat, i: nat, ghost bands: seq<Grid>, ghost start: Grid)
    requires i < |results| == |bands|
    requires IsRect(start, cur.Length0, cur.Length1) && FitsBands(bands, steps, cur.Length0, cur.Length1)
    requires results[i] != cur && Rows(results[i]) == bands[i]
    requires results[i].Length0 == BandHi(i, steps, cur.Length0) - BandLo(i, steps, cur.Length0)
    requires results[i].Length1 == cur.Length1
    requires Rows(cur) == WriteBack(start, bands, cur.Length1, steps, i)
    modifies cur
    ensures Rows(cur) == WriteBack(start, bands, cur.Length1, steps, i + 1)
  {
    ghost var before := Rows(cur);
    var lo := BandLo(i, steps, cur.Length0);
    WriteRows(cur, lo, results[i]);
    assert Rows(results[i]) == bands[i];
    assert Rows(cur) == Overwrite(before, lo, bands[i]);
  }

  /** The write-back loop of `update_grid`: result i onto the rows of band i, in order. */
  method WriteBands(cur: array2<real>, results: seq<array2<real>>, steps: nat, ghost bands: seq<Grid>)
    requires |results| == |bands|
    requires FitsBands(bands, steps, cur.Length0, cur.Length1)
    requires forall k :: 0 <= k < |results| ==> results[k] != cur
    requires forall k :: 0 <= k < |results| ==> Rows(results[k]) == bands[k]
    requires forall k {:trigger results[k]} :: 0 <= k < |results| ==>
      results[k].Length0 == BandHi(k, steps, cur.Length0) - BandLo(k, steps, cur.Length0) && results[k].Length1 == cur.Length1
    modifies cur
    ensures Rows(cur) == WriteBack(old(Rows(cur)), bands, cur.Length1, steps, |bands|)
  {
    ghost var start := Rows(cur);
    for i := 0 to |results|
      invariant Rows(cur) == WriteBack(start, bands, cur.Length1, steps, i)
    {
      assert results[i] != cur;
      assert Rows(results[i]) == bands[i];
      WriteBand(cur, results, steps, i, bands, start);
    }
  }

  /**
   * `update_grid(prev_grid, current_grid, pool)` with p workers: every band is
   * swept from `prev` first, then the results are written into `cur` in band
   * order. `prev` is only read (and is unchanged unless it is `cur` itself).
   */
  method UpdateGrid(prev: array2<real>, cur: array2<real>, p: nat)
    requires p >= 1
    requires cur.Length0 == prev.Length0 && cur.Length1 == prev.Length1
    modifies cur
    ensures Rows(cur) == Refresh(old(Rows(prev)), old(Rows(cur)), prev.Length1, p)
    ensures prev != cur ==> Rows(prev) == old(Rows(prev))
  {
    var steps := (prev.Length0 * prev.Length1) / p;
    StepsIsQuotient(prev.Length0, prev.Length1, p);
    var results := SweepBands(prev, p, steps);
    WriteBands(cur, results, steps, Bands(Rows(prev), prev.Length1, steps, p));
  }
}
