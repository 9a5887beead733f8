/**
 * Image sizes as the pipeline tracks them. PIL reports `(width, height)`;
 * numpy reports `shape == (rows, cols, ...)` with rows = height.
 */
module Sizes {

  /** A PIL image's `size`. */
  datatype Size = Size(width: nat, height: nat)

  /** The first two entries of a numpy array's `shape`. */
  datatype Shape = Shape(rows: nat, cols: nat)

  /** The shape of `np.asarray` of an image of the given size: height rows of width cells. */
  function ArrayShape(s: Size): (r: Shape)
    ensures SizeOfArray(r) == s
  {
    Shape(s.height, s.width)
  }

  /** The size of `Image.fromarray` of an array of the given shape. */
  function SizeOfArray(sh: Shape): (r: Size)
  {
    Size(sh.cols, sh.rows)
  }

  /** `image.resize(size)`: the result has the requested size. */
  function Resized(from: Size, to: Size): Size
  {
    to
  }

  /** `t` is a size `img.thumbnail((bound, bound))` may produce from `orig`: an image
      that already fits is left alone; otherwise the result is at least one pixel
      each way and no larger than the original or the bound in either direction.
      The exact aspect-ratio rounding is not modelled. Either way a thumbnail is
      no larger than the original or the bound in either direction. */
  predicate IsThumbnail(orig: Size, bound: nat, t: Size): (b: bool)
    ensures b ==> t.width <= orig.width && t.height <= orig.height
    ensures b ==> t.width <= bound && t.height <= bound
  {
    if orig.width <= bound && orig.height <= bound then t == orig
    else
      && 1 <= t.width <= orig.width && t.width <= bound
      && 1 <= t.height <= orig.height && t.height <= bound
  }

}
