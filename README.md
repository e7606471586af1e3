# Heat diffusion by banded Jacobi relaxation — a Dafny model

heatDiff.py simulates heat spreading over a square grid of temperatures.
It does this by Jacobi relaxation. One tick of the simulation works like this:

- the rows of the previous grid are cut into one band per worker (`cpu_count()` of them);
- each band is copied;
- every cell strictly inside the copy is replaced by the mean of its four neighbours, read from the uncopied band;
- the bands are written back into the current grid in order;
- the largest absolute cell change is measured;
- the two buffers swap roles.

This project models that core in Dafny and proves what each step computes:

- `Init`: `initialize_grid`. The 'constant', 'quarters' and 'walls' patterns, and the fall-through for any other name.
- `Stencil`: `update_mini_grid`. The row slice, its copy, and the sweep over the slice's interior.
- `Dispatch`: `update_grid`. The band height, the bands, and the in-order write-back into the current grid.
- `Convergence`: the `np.max(np.abs(current_grid - prev_grid))` measure.
- `Simulation`: the two buffers and one pass of the main loop (update, measure, swap), plus the loop condition.
- `Scenarios`: whole-tick consequences. A harmonic grid is a fixed point. The 3×3 'walls' grid shows the band-edge freezing.

Grids in the heap are `array2<real>`. What a grid holds at a given moment is a `Grid`, a `seq<seq<real>>` (see `Grids.Rows`). The imperative methods are proved equal to pure specification functions on `Grid`s, and the lemmas are about those functions. The worker count `cpu_count()` is a parameter `p >= 1`. The pool's parallel tasks become a sequential loop. All bands are computed before any result is written back, as in the source's list of `apply_async` results. Each band reads only its own rows, so the results would be the same even if the write-back were interleaved.

## Behaviour of the code that the model reproduces

Neither of these is corrected in the model.

- **Band height from the cell count.** `update_grid` sets `steps = prev_grid.size // cpu_count()`, which is (rows × columns) / p, not rows / p (heatDiff.py:38).
  - On a square N×N grid with N >= p, band 0 covers every row and the other bands are empty (`Dispatch.WideGridSingleBand`).
  - With fewer cells than workers, `steps` is 0 and nothing is updated (`Dispatch.RefreshNoSteps`).
  - On a square grid with at least p cells, every row is in exactly one band (`Dispatch.SquareGridCovered`, `Dispatch.BandsDisjoint`).
- **Band edges are frozen.** The kernel updates only cells strictly inside its own slice, and it reads no rows outside the band (heatDiff.py:30-31). So the first and last row of every band are copied unchanged (`Dispatch.RefreshKeepsBandEdges`). Take the 3×3 'walls' grid at 50 with four or more workers: every band has at most two rows, so the centre cell stays 0 and the tick measures no change. One sweep of the whole grid would make the centre 50 (`Scenarios.WallsThreeManyWorkers`, compare `Scenarios.WallsThreeFewWorkers`).

In these cases the model follows the code exactly:

- An unrecognised pattern name raises no error. It yields the all-zero grid (heatDiff.py:22-23).
- Each band reads only its own rows; no row of context above or below it is read (heatDiff.py:27).
- `steps` is the cell count, not the row count, divided by the worker count (heatDiff.py:38).
- `initialize_grid` raises in three cases, and the model returns `None` for each:
  - a negative size, where `np.zeros((size, size))` raises ValueError (heatDiff.py:7);
  - pattern 'constant' on a 0×0 grid, where `grid[:, 0]` raises IndexError (heatDiff.py:9);
  - pattern 'walls' on a 0×0 grid, where `grid[:, 0]` raises IndexError (heatDiff.py:18).
- `np.max` raises on an array with no cells. `Convergence.MaxAbsDelta` returns `None` for that case.

## Model

| member | source | states |
|---|---|---|
| Init.PatternCell | heatDiff.py:7-21 | The temperature each pattern gives one cell. No contract of its own; the pattern lemmas below state what it yields. |
| Init.InitialGrid | heatDiff.py:6-23 | The grid is size×size. It is absent exactly when numpy raises: ValueError for a negative size, IndexError for a 0×0 grid with 'constant' or 'walls'. |
| Init.ConstantPattern | heatDiff.py:7-9 | 'constant': column 0 holds start_temp and every other cell is 0. |
| Init.QuartersPattern | heatDiff.py:12-15 | 'quarters', with h = size div 2: top-left quadrant start_temp, top-right start_temp/4, bottom-right start_temp/2, bottom-left 0. |
| Init.WallsPattern | heatDiff.py:17-21 | 'walls': for a nonzero start_temp, a cell equals start_temp exactly when it is on row 0, row size-1, column 0 or column size-1. Every other cell is 0. |
| Init.UnrecognisedPattern | heatDiff.py:22-23 | Any name other than the four handled ones raises nothing and yields the all-zero grid. |
| Init.FillBlock | heatDiff.py:13-15 | A slice assignment sets exactly the block to the value and keeps every other cell. |
| Init.InitializeGrid | heatDiff.py:6-23 | Start from zeros, then apply the source's overlapping region writes in its order. The result is a fresh array equal to InitialGrid. It fails exactly where InitialGrid is absent, a negative size included. |
| Grids.TimesIsProduct | heatDiff.py:27 | The repeated-addition product Times(a, b) is a·b, as in `i*steps`. |
| Grids.TimesMono | heatDiff.py:27 | A later band never starts before an earlier one: Times is monotone in its left factor. |
| Grids.QuotIsDiv | heatDiff.py:38 | The repeated-subtraction quotient Quot(a, p) is Python's `a // p` on naturals. |
| Dispatch.StepsIsQuotient | heatDiff.py:38 | steps is (rows·cols) div p, the cell count over the worker count. |
| Stencil.BandLo | heatDiff.py:27 | The clamped start of band i, min(i·m, N), is at most N. |
| Stencil.BandHi | heatDiff.py:27 | The clamped end of band i lies between its clamped start and N. |
| Stencil.RowSlice | heatDiff.py:27 | The slice has min(hi,N) - min(lo,N) rows. Row k of the slice is row min(lo,N)+k of the grid. |
| Stencil.Relax | heatDiff.py:28-34 | The sweep keeps the slice's shape and keeps every first/last-row and first/last-column cell. A slice of at most 2 rows or at most 2 columns comes back identical. |
| Stencil.Mean4 | heatDiff.py:33-34 | The four-neighbour mean `0.25 * (up + down + left + right)`. No contract of its own; RelaxInterior states where it is used. |
| Stencil.RelaxInterior | heatDiff.py:33-34 | Each interior cell of the sweep is 0.25 × the sum of its four neighbours in the unmodified slice. This makes the sweep Jacobi, not Gauss-Seidel. |
| Stencil.RelaxFixedPoint | heatDiff.py:30-34 | A sweep leaves a slice unchanged if and only if every interior cell already equals its neighbour mean. |
| Stencil.Band | heatDiff.py:26-35 | Band i of height m has min((i+1)m,N) - min(im,N) rows and the grid's width. |
| Stencil.BandCells | heatDiff.py:27-34 | Each cell of band i, written in terms of the array it is cut from: the stencil mean inside the band, the copied cell on the band's edges. |
| Stencil.CopyRows | heatDiff.py:27-28 | `mini_grid.copy()`: a fresh array holding exactly rows [lo, hi) of the grid. |
| Stencil.SweepRow | heatDiff.py:31-34 | The inner loop sets each interior cell of row r to its stencil mean from the snapshot, and changes no other cell. |
| Stencil.UpdateMiniGrid | heatDiff.py:26-35 | Returns a fresh array with the band's shape, equal to Band of the snapshot. The snapshot is not modified. |
| Dispatch.Steps | heatDiff.py:38 | `prev_grid.size // cpu_count()`. No contract of its own; StepsIsQuotient states its value. |
| Dispatch.Overwrite | heatDiff.py:41 | Writing a block back replaces exactly rows [lo, lo+len) and keeps the others. |
| Dispatch.Bands | heatDiff.py:39 | The collected results: exactly p of them, result j is band j of the snapshot, with band j's shape. |
| Dispatch.WriteBack | heatDiff.py:40-41 | The in-order write-back of results 0..k-1 keeps the grid's shape. |
| Dispatch.Refresh | heatDiff.py:37-41 | The grid `update_grid` leaves in the current buffer: all bands swept from the snapshot, then written back in order. It keeps the grid's shape; its rows are given by RefreshBandRows and RefreshUncoveredRow. |
| Dispatch.BandsDisjoint | heatDiff.py:39-41 | No row lies in two different bands. |
| Dispatch.WriteBackIn | heatDiff.py:40-41 | After results 0..k-1 are written, a row of band j < k holds result j's row. Later results do not disturb it. |
| Dispatch.WriteBackOut | heatDiff.py:40-41 | After results 0..k-1 are written, a row in none of their bands keeps the current grid's contents. |
| Dispatch.RefreshBandRows | heatDiff.py:37-41 | For each i < p, rows [i·steps, min((i+1)·steps, N)) of the refreshed grid hold band i's result, with steps = N·cols div p. |
| Dispatch.RefreshUncoveredRow | heatDiff.py:37-41 | A row that no band covers keeps the current grid's contents. |
| Dispatch.RefreshNoSteps | heatDiff.py:38-41 | When steps = 0, the current grid is left untouched. |
| Dispatch.WideGridSingleBand | heatDiff.py:38-41 | With cols >= p (a square grid with N >= P), steps >= N. The refresh then equals one sweep of the whole snapshot, and the result's outer edge equals the snapshot's. |
| Dispatch.WideSteps | heatDiff.py:38 | With at least as many columns as workers, steps is at least the row count. |
| Dispatch.WriteBackWhole | heatDiff.py:40-41 | With bands at least N rows tall, writing back results 0..k-1 leaves exactly result 0. |
| Dispatch.SingleBand | heatDiff.py:39-41 | With bands at least N rows tall, the write-back is one sweep of the whole snapshot. |
| Dispatch.QuotientBand | heatDiff.py:39-41 | With steps > 0, row r lies in band r div steps, and r div steps <= r. |
| Dispatch.SquareGridCovered | heatDiff.py:38-41 | On an N×N grid with N·N >= p, every row lies in some band i < p. |
| Dispatch.BandIsSweep | heatDiff.py:26-35 | Band i is the sweep of rows [BandLo, BandHi) of the snapshot. |
| Dispatch.BandEdgeCell | heatDiff.py:29-31 | Within a band, a cell on its first or last row or on the first or last column is the snapshot's cell. |
| Dispatch.ThinBandRow | heatDiff.py:29-31 | In a band of at most 2 rows, or a grid of at most 2 columns, every row is the snapshot's row. |
| Dispatch.RefreshKeepsBandEdges | heatDiff.py:30-31 | Every band's first and last rows, and the first and last columns of every banded row, are copied from the snapshot. These are the frozen seams. |
| Dispatch.ThinBandsCopy | heatDiff.py:29-31 | With steps <= 2 or cols <= 2, every banded row of the result is the snapshot's row. |
| Dispatch.HarmonicSlice | heatDiff.py:28-34 | Any run of rows of a harmonic grid comes back unchanged from a sweep. |
| Dispatch.HarmonicBand | heatDiff.py:26-35 | A band cut from a harmonic snapshot comes back identical to its slice. |
| Dispatch.UnchangedBandRow | heatDiff.py:37-41 | When a band's sweep returns its own slice, its rows of the refreshed grid are the snapshot's rows. |
| Dispatch.RefreshHarmonic | heatDiff.py:37-41 | At a harmonic snapshot every banded row of the refreshed grid is the snapshot's row. |
| Dispatch.RefreshHarmonicCopy | heatDiff.py:37-41 | Refreshing a copy of a harmonic grid gives the grid back. |
| Dispatch.WriteRows | heatDiff.py:41 | `current_grid[lo:hi, :] = block` leaves the current grid equal to Overwrite of its old contents. |
| Dispatch.SweepBands | heatDiff.py:39 | For each i < p, a fresh band i equal to Band of the snapshot, with the band's shape. |
| Dispatch.WriteBand | heatDiff.py:40-41 | One pass of the write-back loop advances the current grid from WriteBack over i results to WriteBack over i+1. |
| Dispatch.WriteBands | heatDiff.py:40-41 | The write-back loop leaves the current grid equal to WriteBack of its old contents over all results. |
| Dispatch.UpdateGrid | heatDiff.py:37-41 | Leaves the current grid equal to Refresh(old prev, old cur, cols, p). The previous grid is unchanged when it is a different buffer. |
| Convergence.RowMaxAbs | heatDiff.py:94 | The result bounds every \|a[j]-b[j]\| of two rows and is attained by one of them. |
| Convergence.GridMaxAbs | heatDiff.py:94 | The result bounds every cell's \|a-b\| and is attained by some cell. |
| Convergence.MaxAbsDelta | heatDiff.py:94 | Absent exactly for a grid with no cells. Otherwise it is >= 0, bounds every cell's absolute difference, and is attained. |
| Convergence.DeltaZeroIffEqual | heatDiff.py:94 | The measured change is 0 if and only if the two grids are equal. |
| Simulation.Run.constructor | heatDiff.py:67-73 | The previous buffer is the initial grid. The current buffer is a fresh copy of it. The threshold is 0 and max_temp_change is start_temp. |
| Simulation.Run.Running | heatDiff.py:89 | The loop condition `max_temp_change >= threshold`. No contract of its own; Tick states when it holds. |
| Simulation.Run.Tick | heatDiff.py:89-95 | The new previous buffer is the refreshed grid and the new current buffer is the old previous grid (swapped, not reallocated). The change is MaxAbsDelta of the two. With threshold 0 the loop condition stays true. |
| Scenarios.HarmonicTickNoChange | heatDiff.py:89-95 | One tick on a harmonic grid whose buffers are equal measures a change of exactly 0. This is the case that matters when there are fewer cells than workers: steps is 0 and the refresh changes nothing (RefreshNoSteps). |
| Scenarios.HarmonicTickSquare | heatDiff.py:89-95 | On an N×N grid with N·N >= p, a harmonic previous grid is refreshed to itself whatever the current buffer holds, so every tick measures exactly 0. |
| Scenarios.Walls3 | heatDiff.py:17-21 | The 3×3 'walls' grid at 50 has shape 3×3. |
| Scenarios.WallsThreeFewWorkers | heatDiff.py:37-41 | With 1 to 3 workers, the 3×3 'walls' grid's centre becomes 50, the mean of the walls, and the tick measures 50. |
| Scenarios.WallsThreeManyWorkers | heatDiff.py:37-41 | With 4 or more workers, the grid is unchanged and the tick measures 0. The centre is not its neighbour mean, so the result differs from one sweep of the whole grid. |

## Left out

- Init.InitialGrid: requires the name not to be 'random'. That branch (heatDiff.py:10-11) draws from `np.random.randint` and replaces the grid with an integer array. Later float assignments into such an array truncate, and that is not modelled.
- Init.InitializeGrid: requires the name not to be 'random', for the same reason.
- The default `init_type='constant'` of `initialize_grid` (heatDiff.py:6): the pattern is always passed explicitly, as at the only call (heatDiff.py:67).
- Interactive prompts and the menu's fallback to 'constant' (heatDiff.py:44-65): console I/O.
- Plotting, `waitforbuttonpress`, `pause` and the `on_close`/`quit` handler (heatDiff.py:75-93): user interface.
- `np.savetxt` of the final grid (heatDiff.py:101): file output.
- The multiprocessing pool (heatDiff.py:3, 39, 70, 97-98). `cpu_count()` is the parameter `p`, and the tasks run as a sequential loop. Results are joined in order, so the outcome is the same.
- Temperatures are `real`, so `0.25 * sum`, `start_temp / 2` and `start_temp / 4` are exact. IEEE rounding is not modelled.
- Init.PatternCell: `int(size/2)` is taken as exact integer division. Float rounding for sizes beyond 2^53 is not modelled.
- Dispatch.UpdateGrid: requires both buffers to have one shape. If they differ, numpy's broadcasting error is not modelled (the program always passes a copy).
- Convergence.MaxAbsDelta: requires both grids to have one shape. Broadcasting of different shapes is not modelled.
- Simulation.Run.Tick: only one pass of the `while` loop is modelled (heatDiff.py:89-95), with its condition as `Running`. The loop is not run to termination. With threshold 0 and a change that is never negative, the condition never becomes false.
