/**
 * Whole-tick consequences of the definitions: the fixed point of the
 * relaxation, and the 3×3 'walls' grid, which shows the band-edge freezing.
 */
module Scenarios {
  import opened Wrappers
  import opened Grids
  import opened Init
  import opened Stencil
  import opened Dispatch
  import opened Convergence

  /** Refreshing a copy of a harmonic grid measures no change at all. */
  lemma HarmonicTickNoChange(g: Grid, cols: nat, p: nat)
    requires p >= 1 && IsRect(g, |g|, cols) && |g| > 0 && cols > 0
    requires Harmonic(g, cols)
    ensures MaxAbsDelta(Refresh(g, g, cols, p), g, cols) == Some(0.0)
  {
    RefreshHarmonicCopy(g, cols, p);
    DeltaZeroIffEqual(g, g, cols);
  }

  /**
   * On an N×N grid with at least as many cells as workers, a harmonic
   * previous grid is refreshed to itself whatever the current buffer holds,
   * so every tick of the loop measures no change.
   */
  lemma HarmonicTickSquare(prev: Grid, cur: Grid, n: nat, p: nat)
    requires p >= 1 && n > 0 && n * n >= p
    requires IsRect(prev, n, n) && IsRect(cur, n, n)
    requires Harmonic(prev, n)
    ensures Refresh(prev, cur, n, p) == prev
    ensures MaxAbsDelta(Refresh(prev, cur, n, p), prev, n) == Some(0.0)
  {
    forall r | 0 <= r < n ensures Refresh(prev, cur, n, p)[r] == prev[r] {
      SquareGridCovered(n, p, r);
      var i :| 0 <= i < p && InBandRows(r, i, Steps(n, n, p), n);
      RefreshHarmonic(prev, cur, n, p, i, r);
    }
    DeltaZeroIffEqual(prev, prev, n);
  }

  /** The 3×3 'walls' grid at temperature 50: the walls are 50, the cell in the middle 0. */
  function Walls3(): (g: Grid)
    ensures IsRect(g, 3, 3)
  {
    InitialGrid(50.0, 3, "walls").value
  }

  /**
   * With at most three workers one band spans the 3×3 'walls' grid: the middle
   * cell becomes the mean of the four walls, 50, and the tick measures 50.
   */
  lemma WallsThreeFewWorkers(p: nat)
    requires 1 <= p <= 3
    ensures Refresh(Walls3(), Walls3(), 3, p)[1][1] == 50.0
    ensures MaxAbsDelta(Refresh(Walls3(), Walls3(), 3, p), Walls3(), 3) == Some(50.0)
  {
    var g := Walls3();
    WideGridSingleBand(g, g, 3, p);
    RelaxInterior(g, 3, 1, 1);
    var h := Refresh(g, g, 3, p);
    assert forall r, c :: 0 <= r < 3 && 0 <= c < 3 && (r, c) != (1, 1) ==> h[r][c] == g[r][c];
    assert Abs(h[1][1] - g[1][1]) == 50.0;
  }

  /**
   * With four or more workers every band of the 3×3 'walls' grid has at most
   * two rows, so nothing is updated: the middle cell stays 0 although its
   * four neighbours are 50, the tick measures no change, and the result
   * differs from one sweep of the whole grid.
   */
  lemma WallsThreeManyWorkers(p: nat)
    requires p >= 4
    ensures Refresh(Walls3(), Walls3(), 3, p) == Walls3()
    ensures MaxAbsDelta(Refresh(Walls3(), Walls3(), 3, p), Walls3(), 3) == Some(0.0)
    ensures Walls3()[1][1] != Mean4(Walls3(), 3, 1, 1)
    ensures Refresh(Walls3(), Walls3(), 3, p) != Relax(Walls3(), 3)
  {
    var g := Walls3();
    RelaxInterior(g, 3, 1, 1);
    assert Steps(3, 3, p) <= 2 by { StepsIsQuotient(3, 3, p); DivUpper(9, p, 2); }
    forall r | 0 <= r < 3 ensures Refresh(g, g, 3, p)[r] == g[r] {
      if i :| 0 <= i < p && InBandRows(r, i, Steps(3, 3, p), 3) {
        ThinBandsCopy(g, g, 3, p, i, r);
      } else {
        RefreshUncoveredRow(g, g, 3, p, r);
      }
    }
    DeltaZeroIffEqual(g, g, 3);
  }
}
