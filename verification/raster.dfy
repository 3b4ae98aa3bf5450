/**
 A raster is a row-major grid of cells, `g[row][col]`. Floating-point rasters
 that may hold NaN are modelled as grids of `Option<real>`, with `None`
 standing for NaN ("undefined").
 */
module Raster {

  /** The value of a cell that may be undefined; `None` is NaN. */
  datatype Option<+T> = None | Some(value: T)

  type Grid<T> = seq<seq<T>>

  /** A floating-point raster in which any cell may be NaN. */
  type Field = Grid<Option<real>>

  /** `g` has `rows` rows of `cols` cells each. */
  predicate Shaped<T>(g: Grid<T>, rows: nat, cols: nat)
  {
    |g| == rows && forall r :: 0 <= r < |g| ==> |g[r]| == cols
  }

  /** `a` and `b` have the same number of rows and the same row lengths. */
  predicate SameShape<A, B>(a: Grid<A>, b: Grid<B>)
  {
    |a| == |b| && forall r :: 0 <= r < |a| ==> |a[r]| == |b[r]|
  }

  /** `(r, c)` indexes a cell of `g`. */
  predicate InGrid<T>(g: Grid<T>, r: int, c: int)
  {
    0 <= r < |g| && 0 <= c < |g[r]|
  }

  /** numpy's `np.any` on a boolean raster. */
  predicate Any(g: Grid<bool>)
  {
    exists r, c | 0 <= r < |g| && 0 <= c < |g[r]| :: g[r][c]
  }

  /** Some cell of `v` holds a number. */
  predicate AnyDefined(v: Field)
  {
    exists r, c | 0 <= r < |v| && 0 <= c < |v[r]| :: v[r][c].Some?
  }

  /** Some cell of `v` is NaN: `np.any(np.isnan(v))`. */
  predicate AnyUndefined(v: Field)
  {
    exists r, c | 0 <= r < |v| && 0 <= c < |v[r]| :: v[r][c].None?
  }

  /** A NaN-free raster seen as a raster that may hold NaN. */
  function Lift(g: Grid<real>): (v: Field)
    ensures SameShape(v, g)
  {
    seq(|g|, r requires 0 <= r < |g| => LiftRow(g[r]))
  }

  function LiftRow(xs: seq<real>): (row: seq<Option<real>>)
    ensures |row| == |xs|
  {
    seq(|xs|, c requires 0 <= c < |xs| => Some(xs[c]))
  }
}
