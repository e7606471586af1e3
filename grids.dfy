/**
 * Temperature grids. The source keeps each grid in a two-dimensional numpy
 * array of floats; here a grid in the heap is an `array2<real>` and its
 * contents at one moment are a `Grid`, a sequence of rows.
 */
module Grids {

  /** The contents of a grid: a sequence of rows of temperatures. */
  type Grid = seq<seq<real>>

  /** `g` has exactly `rows` rows of `cols` cells each. */
  predicate IsRect(g: Grid, rows: nat, cols: nat) {
    |g| == rows && forall r :: 0 <= r < |g| ==> |g[r]| == cols
  }

  function Min(a: int, b: int): int {
    if a <= b then a else b
  }

  function Abs(x: real): real {
    if x < 0.0 then -x else x
  }

  /**
   * a·b by repeated addition (`TimesIsProduct`). Band offsets and the cell
   * count are written with it so that proofs about them stay linear.
   */
  function Times(a: nat, b: nat): nat {
    if a == 0 then 0 else Times(a - 1, b) + b
  }

  lemma {:induction false} TimesIsProduct(a: nat, b: nat)
    ensures Times(a, b) == a * b
  {
    if a > 0 {
      TimesIsProduct(a - 1, b);
    }
  }

  /** A larger left factor gives a larger product. */
  lemma {:induction false} TimesMono(a: nat, a': nat, b: nat)
    requires a <= a'
    ensures Times(a, b) <= Times(a', b)
  {
    if a < a' {
      TimesMono(a, a' - 1, b);
    }
  }

  /** a div p by repeated subtraction (`QuotIsDiv`): Python's `//` on naturals. */
  function Quot(a: nat, p: nat): nat
    requires p >= 1
    decreases a
  {
    if a < p then 0 else 1 + Quot(a - p, p)
  }

  lemma {:induction false} QuotIsDiv(a: nat, p: nat)
    requires p >= 1
    ensures Quot(a, p) == a / p
    decreases a
  {
    if a >= p {
      QuotIsDiv(a - p, p);
      var q, r := (a - p) / p, (a - p) % p;
      assert a == (q + 1) * p + r;
      DivUnique(a, p, q + 1, r);
    }
  }

  /** The quotient is determined by any decomposition with remainder below p. */
  lemma DivUnique(a: nat, p: nat, q: nat, r: nat)
    requires p >= 1 && r < p && a == q * p + r
    ensures a / p == q
  {
    var d := a / p;
    if d > q {
      MulMono(q + 1, d, p);
    }
    if d < q {
      MulMono(d + 1, q, p);
    }
  }

  lemma MulMono(a: nat, b: nat, m: nat)
    requires a <= b
    ensures a * m <= b * m
  {
  }

  /** A quotient is at least n when the dividend is at least n·p. */
  lemma DivLower(a: nat, p: nat, n: nat)
    requires p >= 1 && a >= n * p
    ensures a / p >= n
  {
    if a / p < n {
      assert (a / p + 1) * p <= n * p by { MulMono(a / p + 1, n, p); }
    }
  }

  /** A quotient is at most n when the dividend is below (n+1)·p. */
  lemma DivUpper(a: nat, p: nat, n: nat)
    requires p >= 1 && a < (n + 1) * p
    ensures a / p <= n
  {
    if a / p > n {
      assert (n + 1) * p <= (a / p) * p by { MulMono(n + 1, a / p, p); }
    }
  }

  /** The contents of `a`, row by row. */
  function Rows(a: array2<real>): (g: Grid)
    reads a
    ensures IsRect(g, a.Length0, a.Length1)
    ensures forall r, c :: 0 <= r < a.Length0 && 0 <= c < a.Length1 ==> g[r][c] == a[r, c]
  {
    seq(a.Length0, r requires 0 <= r < a.Length0 reads a =>
      seq(a.Length1, c requires 0 <= c < a.Length1 reads a => a[r, c]))
  }

  /** Two arrays hold the same grid when they agree cell by cell. */
  lemma RowsFromCells(a: array2<real>, g: Grid)
    requires IsRect(g, a.Length0, a.Length1)
    requires forall r, c :: 0 <= r < a.Length0 && 0 <= c < a.Length1 ==> a[r, c] == g[r][c]
    ensures Rows(a) == g
  {
    var h := Rows(a);
    forall r | 0 <= r < |g|
      ensures h[r] == g[r]
    {
      assert |h[r]| == |g[r]|;
      forall c | 0 <= c < |g[r]| ensures h[r][c] == g[r][c] {
        assert h[r][c] == a[r, c];
      }
    }
  }
}
