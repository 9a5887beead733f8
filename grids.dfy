/** Rectangular grids: the numpy arrays of the image pipeline, as sequences of rows. */
module Grids {

  /** A 2-D array indexed `g[row][column]`. */
  type Grid<T> = seq<seq<T>>

  /** `g` has numpy shape `(rows, cols)`. */
  predicate Shaped<T>(g: Grid<T>, rows: nat, cols: nat)
  {
    |g| == rows && forall i | 0 <= i < |g| :: |g[i]| == cols
  }

  /** `x` and `y` have the same number of rows and each pair of rows the same length. */
  predicate SameShape<A, B>(x: Grid<A>, y: Grid<B>)
  {
    |x| == |y| && forall i | 0 <= i < |x| :: |x[i]| == |y[i]|
  }
}
