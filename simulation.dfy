/**
 * The driver of the relaxation (the main block of heatDiff.py, without its
 * prompts and plotting): two buffers, one tick of update, measure and swap,
 * and the loop condition `max_temp_change >= threshold`.
 */
module Simulation {
  import opened Wrappers
  import opened Grids
  import opened Stencil
  import opened Dispatch
  import opened Convergence

  /** The two buffers of the run and the loop's bookkeeping. */
  class Run {
    var prev: array2<real>
    var cur: array2<real>
    var maxTempChange: real
    const workers: nat
    const threshold: real

    /** Two distinct buffers of one shape, and at least one worker. */
    ghost predicate Valid()
      reads this
    {
      workers >= 1 && prev != cur && prev.Length0 == cur.Length0 && prev.Length1 == cur.Length1
    }

    /**
     * `prev_grid = initialize_grid(...)`, `current_grid = prev_grid.copy()`,
     * `threshold = 0`, `max_temp_change = start_temp`, with `p` standing for
     * `cpu_count()`.
     */
    constructor (initial: array2<real>, startTemp: real, p: nat)
      requires p >= 1
      ensures Valid()
      ensures prev == initial && fresh(cur) && Rows(cur) == Rows(initial)
      ensures workers == p && threshold == 0.0 && maxTempChange == startTemp
    {
      var copy := CopyRows(initial, 0, initial.Length0);
      RowsFromCells(copy, Rows(initial));
      prev, cur := initial, copy;
      maxTempChange := startTemp;
      workers, threshold := p, 0.0;
    }

    /** The condition of the main loop, `max_temp_change >= threshold`. */
    predicate Running()
      reads this
    {
      maxTempChange >= threshold
    }

    /**
     * One pass of the main loop: `update_grid(prev_grid, current_grid, pool)`,
     * `max_temp_change = np.max(np.abs(current_grid - prev_grid))`, then the
     * two buffers swap roles. `delta` is None where numpy raises on a grid
     * with no cells: `max_temp_change` is then left as it was, but unlike the
     * program, which stops at the raise, the model still swaps the buffers.
     */
    method Tick() returns (delta: Option<real>)
      requires Valid()
      modifies this, cur
      ensures Valid() && prev == old(cur) && cur == old(prev)
      ensures Rows(prev) == Refresh(old(Rows(prev)), old(Rows(cur)), prev.Length1, workers)
      ensures Rows(cur) == old(Rows(prev))
      ensures delta == MaxAbsDelta(Rows(prev), Rows(cur), prev.Length1)
      ensures maxTempChange == if delta.Some? then delta.value else old(maxTempChange)
      ensures delta.Some? && threshold == 0.0 ==> Running()
    {
      UpdateGrid(prev, cur, workers);
      delta := MaxAbsDelta(Rows(cur), Rows(prev), prev.Length1);
      if delta.Some? {
        maxTempChange := delta.value;
      }
      prev, cur := cur, prev;
    }
  }
}
