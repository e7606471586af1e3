/**
 * The convergence measure `np.max(np.abs(current_grid - prev_grid))`: the
 * largest absolute per-cell difference of two grids of one shape.
 */
module Convergence {
  import opened Wrappers
  import opened Grids

  /** The largest |a[j] - b[j]| over two nonempty rows of one length. */
  function RowMaxAbs(a: seq<real>, b: seq<real>): (d: real)
    requires |a| == |b| && |a| > 0
    ensures forall j :: 0 <= j < |a| ==> Abs(a[j] - b[j]) <= d
    ensures exists j :: 0 <= j < |a| && Abs(a[j] - b[j]) == d
  {
    if |a| == 1 then Abs(a[0] - b[0])
    else
      var rest := RowMaxAbs(a[1..], b[1..]);
      assert forall j :: 1 <= j < |a| ==> a[1..][j - 1] == a[j] && b[1..][j - 1] == b[j];
      if Abs(a[0] - b[0]) >= rest then Abs(a[0] - b[0]) else rest
  }

  /** The largest |a[r][c] - b[r][c]| over two nonempty grids of one shape. */
  function GridMaxAbs(a: Grid, b: Grid, cols: nat): (d: real)
    requires IsRect(a, |a|, cols) && IsRect(b, |a|, cols)
    requires |a| > 0 && cols > 0
    ensures forall r, c :: 0 <= r < |a| && 0 <= c < cols ==> Abs(a[r][c] - b[r][c]) <= d
    ensures exists r, c :: 0 <= r < |a| && 0 <= c < cols && Abs(a[r][c] - b[r][c]) == d
  {
    var here := RowMaxAbs(a[0], b[0]);
    if |a| == 1 then here
    else
      var rest := GridMaxAbs(a[1..], b[1..], cols);
      assert forall r :: 1 <= r < |a| ==> a[1..][r - 1] == a[r] && b[1..][r - 1] == b[r];
      if here >= rest then here else rest
  }

  /**
   * `np.max(np.abs(a - b))`: None for a grid with no cells, where numpy
   * raises, otherwise the largest absolute cell difference, which is attained.
   */
  function MaxAbsDelta(a: Grid, b: Grid, cols: nat): (d: Option<real>)
    requires IsRect(a, |a|, cols) && IsRect(b, |a|, cols)
    ensures d.None? <==> |a| == 0 || cols == 0
    ensures d.Some? ==> 0.0 <= d.value
    ensures d.Some? ==> forall r, c :: 0 <= r < |a| && 0 <= c < cols ==> Abs(a[r][c] - b[r][c]) <= d.value
    ensures d.Some? ==> exists r, c :: 0 <= r < |a| && 0 <= c < cols && Abs(a[r][c] - b[r][c]) == d.value
  {
    if |a| == 0 || cols == 0 then None else Some(GridMaxAbs(a, b, cols))
  }

  /** The measured change is zero exactly when the two grids are equal. */
  lemma DeltaZeroIffEqual(a: Grid, b: Grid, cols: nat)
    requires IsRect(a, |a|, cols) && IsRect(b, |a|, cols)
    requires |a| > 0 && cols > 0
    ensures MaxAbsDelta(a, b, cols) == Some(0.0) <==> a == b
  {
    var d := MaxAbsDelta(a, b, cols);
    if d == Some(0.0) {
      forall r | 0 <= r < |a| ensures a[r] == b[r] {
        forall c | 0 <= c < cols ensures a[r][c] == b[r][c] {
          assert Abs(a[r][c] - b[r][c]) <= 0.0;
        }
      }
    }
    if a == b {
      var r, c :| 0 <= r < |a| && 0 <= c < cols && Abs(a[r][c] - b[r][c]) == d.value;
    }
  }
}
