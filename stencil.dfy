/**
 * The per-band Jacobi kernel (`update_mini_grid`): one relaxation sweep over
 * the cells strictly inside a band of rows, reading only the unmodified band.
 */
module Stencil {
  import opened Grids

  /** First row of band i when bands are m rows tall, clamped to n rows. */
  function BandLo(i: nat, m: nat, n: nat): (lo: nat)
    ensures lo <= n
  {
    Min(Times(i, m), n)
  }

  /** One past the last row of band i, clamped to n rows. */
  function BandHi(i: nat, m: nat, n: nat): (hi: nat)
    ensures BandLo(i, m, n) <= hi <= n
  {
    Min(Times(i, m) + m, n)
  }

  /** numpy's row slice `g[lo:hi, :]` for non-negative bounds (both clamped). */
  function RowSlice(g: Grid, lo: nat, hi: nat): (s: Grid)
    requires lo <= hi
    ensures |s| == Min(hi, |g|) - Min(lo, |g|)
    ensures forall k :: 0 <= k < |s| ==> s[k] == g[Min(lo, |g|) + k]
  {
    g[Min(lo, |g|)..Min(hi, |g|)]
  }

  /** Cell (r, c) is strictly inside a rows×cols grid: not on its first or last row or column. */
  predicate Interior(rows: nat, cols: nat, r: nat, c: nat) {
    0 < r < rows - 1 && 0 < c < cols - 1
  }

  /** The Jacobi stencil at (r, c): a quarter of the sum of the four axis neighbours. */
  function Mean4(s: Grid, cols: nat, r: nat, c: nat): real
    requires IsRect(s, |s|, cols)
    requires Interior(|s|, cols, r, c)
  {
    0.25 * (s[r - 1][c] + s[r + 1][c] + s[r][c - 1] + s[r][c + 1])
  }

  /**
   * One Jacobi sweep of `s`: every interior cell becomes the mean of its four
   * neighbours in `s` itself, never in the partly updated result.
   */
  function Relax(s: Grid, cols: nat): (t: Grid)
    requires IsRect(s, |s|, cols)
    ensures IsRect(t, |s|, cols)
    ensures forall r, c :: 0 <= r < |s| && 0 <= c < cols && !Interior(|s|, cols, r, c) ==> t[r][c] == s[r][c]
    ensures |s| <= 2 || cols <= 2 ==> t == s
  {
    var t := seq(|s|, (r: nat) requires r < |s| =>
      seq(cols, (c: nat) requires c < cols =>
        if Interior(|s|, cols, r, c) then Mean4(s, cols, r, c) else s[r][c]));
    assert |s| <= 2 || cols <= 2 ==> forall r :: 0 <= r < |s| ==> t[r] == s[r];
    t
  }

  /** Every interior cell of the sweep is the stencil mean of the input. */
  lemma RelaxInterior(s: Grid, cols: nat, r: nat, c: nat)
    requires IsRect(s, |s|, cols)
    requires Interior(|s|, cols, r, c)
    ensures Relax(s, cols)[r][c] == Mean4(s, cols, r, c)
  {
  }

  /** Every interior cell already equals the mean of its four neighbours. */
  predicate Harmonic(s: Grid, cols: nat)
    requires IsRect(s, |s|, cols)
  {
    forall r, c {:trigger Mean4(s, cols, r, c)} :: 0 <= r < |s| && 0 <= c < cols && Interior(|s|, cols, r, c) ==>
      s[r][c] == Mean4(s, cols, r, c)
  }

  /** A sweep leaves a grid unchanged exactly when the grid is harmonic. */
  lemma RelaxFixedPoint(s: Grid, cols: nat)
    requires IsRect(s, |s|, cols)
    ensures Relax(s, cols) == s <==> Harmonic(s, cols)
  {
    var t := Relax(s, cols);
    if Harmonic(s, cols) {
      forall r | 0 <= r < |s| ensures t[r] == s[r] {
        forall c | 0 <= c < cols ensures t[r][c] == s[r][c] {
          if Interior(|s|, cols, r, c) { RelaxInterior(s, cols, r, c); }
        }
      }
    }
    if t == s {
      forall r, c | 0 <= r < |s| && 0 <= c < cols && Interior(|s|, cols, r, c)
        ensures s[r][c] == Mean4(s, cols, r, c)
      {
        RelaxInterior(s, cols, r, c);
      }
    }
  }

  /**
   * The result of `update_mini_grid(prev, i, m)` on a grid of `cols` columns:
   * the sweep of rows [i*m, (i+1)*m) of `prev`, clamped.
   */
  function Band(prev: Grid, cols: nat, i: nat, m: nat): (b: Grid)
    requires IsRect(prev, |prev|, cols)
    ensures IsRect(b, BandHi(i, m, |prev|) - BandLo(i, m, |prev|), cols)
  {
    Relax(RowSlice(prev, Times(i, m), Times(i, m) + m), cols)
  }

  /**
   * Cell (x, y) of the sweep of the `rows`-row band of `prev` that starts at
   * row `lo`, read from the array the band is cut from.
   */
  ghost function SweptCell(prev: array2<real>, lo: nat, rows: nat, x: nat, y: nat): real
    reads prev
    requires lo + rows <= prev.Length0 && x < rows && y < prev.Length1
  {
    if Interior(rows, prev.Length1, x, y)
    then 0.25 * (prev[lo + x - 1, y] + prev[lo + x + 1, y] + prev[lo + x, y - 1] + prev[lo + x, y + 1])
    else prev[lo + x, y]
  }

  /** The cells of `Band` in terms of the array the band is cut from. */
  lemma BandCells(prev: array2<real>, i: nat, m: nat)
    ensures var lo, b := BandLo(i, m, prev.Length0), Band(Rows(prev), prev.Length1, i, m);
      forall x, y :: 0 <= x < |b| && 0 <= y < prev.Length1 ==> b[x][y] == SweptCell(prev, lo, |b|, x, y)
  {
  }

  /** `g[lo:hi, :].copy()`: a fresh array holding rows [lo, hi) of `g`. */
  method CopyRows(g: array2<real>, lo: nat, hi: nat) returns (copy: array2<real>)
    requires lo <= hi <= g.Length0
    ensures fresh(copy)
    ensures copy.Length0 == hi - lo && copy.Length1 == g.Length1
    ensures forall x, y :: 0 <= x < hi - lo && 0 <= y < g.Length1 ==> copy[x, y] == g[lo + x, y]
  {
    copy := new real[hi - lo, g.Length1];
    for r := 0 to hi - lo
      invariant forall x, y :: 0 <= x < r && 0 <= y < g.Length1 ==> copy[x, y] == g[lo + x, y]
    {
      for c := 0 to g.Length1
        invariant forall x, y :: 0 <= x < hi - lo && 0 <= y < g.Length1 && (x < r || (x == r && y < c)) ==>
          copy[x, y] == g[lo + x, y]
      {
        copy[r, c] := g[lo + r, c];
      }
    }
  }

  /** The inner loop of `update_mini_grid`: sweep the interior cells of row r of `next`. */
  method SweepRow(next: array2<real>, prev: array2<real>, lo: nat, r: nat)
    requires next != prev
    requires lo + next.Length0 <= prev.Length0 && next.Length1 == prev.Length1
    requires 0 < r && r + 1 < next.Length0
    requires forall y :: 0 <= y < next.Length1 ==> next[r, y] == prev[lo + r, y]
    modifies next
    ensures forall x, y :: 0 <= x < next.Length0 && 0 <= y < next.Length1 ==>
      next[x, y] == if x == r then SweptCell(prev, lo, next.Length0, x, y) else old(next[x, y])
  {
    var c := 1;
    while c + 1 < next.Length1
      invariant 1 <= c
      invariant forall x, y :: 0 <= x < next.Length0 && 0 <= y < next.Length1 ==>
        next[x, y] == if x == r && y < c then SweptCell(prev, lo, next.Length0, x, y) else old(next[x, y])
    {
      next[r, c] := 0.25 * (prev[lo + r - 1, c] + prev[lo + r + 1, c] + prev[lo + r, c - 1] + prev[lo + r, c + 1]);
      c := c + 1;
    }
  }

  /**
   * `update_mini_grid(prev_grid, i, mini_grid_size)`: copy rows
   * [i*m, (i+1)*m) of `prev` (clamped), then set each cell strictly inside the
   * copy to the stencil mean read from the uncopied rows. `prev` is unchanged.
   */
  method UpdateMiniGrid(prev: array2<real>, i: nat, m: nat) returns (next: array2<real>)
    ensures fresh(next)
    ensures next.Length0 == BandHi(i, m, prev.Length0) - BandLo(i, m, prev.Length0) && next.Length1 == prev.Length1
    ensures Rows(next) == Band(Rows(prev), prev.Length1, i, m)
  {
    var start := i * m;
    TimesIsProduct(i, m);
    var lo, hi := Min(start, prev.Length0), Min(start + m, prev.Length0);
    var rows := hi - lo;
    next := CopyRows(prev, lo, hi);
    var r := 1;
    while r + 1 < rows
      invariant 1 <= r
      invariant forall x, y :: 0 <= x < rows && 0 <= y < prev.Length1 ==>
        next[x, y] == if x < r then SweptCell(prev, lo, rows, x, y) else prev[lo + x, y]
    {
      SweepRow(next, prev, lo, r);
      r := r + 1;
    }
    BandCells(prev, i, m);
    RowsFromCells(next, Band(Rows(prev), prev.Length1, i, m));
  }
}
