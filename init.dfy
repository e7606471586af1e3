/**
 * Grid initialisation (`initialize_grid`): a size×size grid of zeros in which
 * named regions are overwritten with fixed temperatures.
 */
module Init {
  import opened Wrappers
  import opened Grids

  /** Cell (r, c) lies on the outer edge of a size×size grid. */
  predicate OnEdge(size: nat, r: nat, c: nat) {
    r == 0 || r == size - 1 || c == 0 || c == size - 1
  }

  /**
   * The temperature the pattern named `initType` gives cell (r, c) of a
   * size×size grid. An unrecognised name leaves every cell at zero.
   */
  function PatternCell(startTemp: real, size: nat, initType: string, r: nat, c: nat): real {
    var h := size / 2;
    if initType == "constant" then
      if c == 0 then startTemp else 0.0
    else if initType == "quarters" then
      if r < h && c < h then startTemp
      else if r >= h && c >= h then startTemp / 2.0
      else if r < h then startTemp / 4.0
      else 0.0
    else if initType == "walls" then
      if OnEdge(size, r, c) then startTemp else 0.0
    else
      0.0
  }

  /** `np.zeros((size, size))` raises a ValueError for a negative size. */
  predicate RaisesValueError(size: int) {
    size < 0
  }

  /**
   * The patterns that index column 0 of the grid (`grid[:, 0]`, which both
   * write first); numpy raises an IndexError for these on a 0×0 grid.
   */
  predicate RaisesIndexError(size: int, initType: string) {
    size == 0 && (initType == "constant" || initType == "walls")
  }

  /**
   * The grid `initialize_grid` returns, or None where it raises. The 'random'
   * pattern is not part of this model.
   */
  function InitialGrid(startTemp: real, size: int, initType: string): (g: Option<Grid>)
    requires initType != "random"
    ensures g.None? <==> RaisesValueError(size) || RaisesIndexError(size, initType)
    ensures g.Some? ==> size >= 0 && IsRect(g.value, size, size)
  {
    if RaisesValueError(size) || RaisesIndexError(size, initType) then None
    else Some(seq(size, (r: nat) => seq(size, (c: nat) => PatternCell(startTemp, size, initType, r, c))))
  }

  /** Column 0 holds `startTemp` and every other cell is 0. */
  lemma ConstantPattern(startTemp: real, size: nat, r: nat, c: nat)
    requires r < size && c < size
    ensures InitialGrid(startTemp, size, "constant").Some?
    ensures c == 0 ==> InitialGrid(startTemp, size, "constant").value[r][c] == startTemp
    ensures c != 0 ==> InitialGrid(startTemp, size, "constant").value[r][c] == 0.0
  {
  }

  /** A nonzero `startTemp` marks exactly the four walls; all other cells are 0. */
  lemma WallsPattern(startTemp: real, size: nat, r: nat, c: nat)
    requires r < size && c < size
    ensures InitialGrid(startTemp, size, "walls").Some?
    ensures startTemp != 0.0 ==>
      (InitialGrid(startTemp, size, "walls").value[r][c] == startTemp <==> OnEdge(size, r, c))
    ensures !OnEdge(size, r, c) ==> InitialGrid(startTemp, size, "walls").value[r][c] == 0.0
  {
  }

  /** The four quadrants about h = size / 2 hold T, T/4, T/2 and 0. */
  lemma QuartersPattern(startTemp: real, size: nat, r: nat, c: nat)
    requires r < size && c < size
    ensures InitialGrid(startTemp, size, "quarters").Some?
    ensures var v, h := InitialGrid(startTemp, size, "quarters").value[r][c], size / 2;
      (r < h && c < h ==> v == startTemp) &&
      (r < h && c >= h ==> v == startTemp / 4.0) &&
      (r >= h && c >= h ==> v == startTemp / 2.0) &&
      (r >= h && c < h ==> v == 0.0)
  {
  }

  /** A name no branch recognises raises nothing and yields the all-zero grid. */
  lemma UnrecognisedPattern(startTemp: real, size: nat, initType: string, r: nat, c: nat)
    requires initType !in {"constant", "random", "quarters", "walls"}
    requires r < size && c < size
    ensures InitialGrid(startTemp, size, initType).Some?
    ensures InitialGrid(startTemp, size, initType).value[r][c] == 0.0
  {
  }

  /** `g[r0:r1, c0:c1] = v`: the block is set to v, every other cell is kept. */
  method FillBlock(g: array2<real>, r0: nat, r1: nat, c0: nat, c1: nat, v: real)
    requires r0 <= r1 <= g.Length0 && c0 <= c1 <= g.Length1
    modifies g
    ensures forall r, c :: 0 <= r < g.Length0 && 0 <= c < g.Length1 ==>
      g[r, c] == if r0 <= r < r1 && c0 <= c < c1 then v else old(g[r, c])
  {
    for r := r0 to r1
      invariant forall x, y :: 0 <= x < g.Length0 && 0 <= y < g.Length1 ==>
        g[x, y] == if r0 <= x < r && c0 <= y < c1 then v else old(g[x, y])
    {
      for c := c0 to c1
        invariant forall x, y :: 0 <= x < g.Length0 && 0 <= y < g.Length1 ==>
          g[x, y] == if (r0 <= x < r || (x == r && y < c)) && c0 <= y < c1 then v else old(g[x, y])
      {
        g[r, c] := v;
      }
    }
  }

  /**
   * `initialize_grid(start_temp, size, init_type)`: zeros, then the named
   * regions overwritten in the order the source writes them.
   */
  method InitializeGrid(startTemp: real, size: int, initType: string) returns (grid: Option<array2<real>>)
    requires initType != "random"
    ensures grid.None? <==> RaisesValueError(size) || RaisesIndexError(size, initType)
    ensures grid.Some? ==> fresh(grid.value) && Rows(grid.value) == InitialGrid(startTemp, size, initType).value
  {
    if size < 0 {
      return None;
    }
    var g := new real[size, size]((_, _) => 0.0);
    if initType == "constant" {
      if size == 0 { return None; }
      FillBlock(g, 0, size, 0, 1, startTemp);
    } else if initType == "quarters" {
      var h := size / 2;
      FillBlock(g, 0, h, 0, h, startTemp);
      FillBlock(g, h, size, h, size, startTemp / 2.0);
      FillBlock(g, 0, h, h, size, startTemp / 4.0);
    } else if initType == "walls" {
      if size == 0 { return None; }
      FillBlock(g, 0, size, 0, 1, startTemp);
      FillBlock(g, 0, 1, 0, size, startTemp);
      FillBlock(g, size - 1, size, 0, size, startTemp);
      FillBlock(g, 0, size, size - 1, size, startTemp);
    }
    RowsFromCells(g, InitialGrid(startTemp, size, initType).value);
    grid := Some(g);
  }
}
