/**
 * The trimap builder inside `alpha_matting_cutout`: threshold the greyscale
 * mask, erode both likely regions, then fill a grid with 128 and overwrite the
 * eroded foreground with 255 and the eroded background with 0, in that order.
 */
module Trimap {
  import opened Grids
  import opened Erosion

  const Background: int := 0
  const Unknown: int := 128
  const Foreground: int := 255

  /** `mask > threshold`, element by element. */
  function Above(mask: Grid<int>, threshold: int): (r: Grid<bool>)
    ensures SameShape(r, mask)
  {
    seq(|mask|, i requires 0 <= i < |mask| =>
      seq(|mask[i]|, j requires 0 <= j < |mask[i]| => mask[i][j] > threshold))
  }

  /** `mask < threshold`, element by element. */
  function Below(mask: Grid<int>, threshold: int): (r: Grid<bool>)
    ensures SameShape(r, mask)
  {
    seq(|mask|, i requires 0 <= i < |mask| =>
      seq(|mask[i]|, j requires 0 <= j < |mask[i]| => mask[i][j] < threshold))
  }

  /** `np.full(like.shape, v)`. */
  function FullLike<T>(like: Grid<T>, v: int): (r: Grid<int>)
    ensures SameShape(r, like)
  {
    seq(|like|, i requires 0 <= i < |like| => seq(|like[i]|, j => v))
  }

  /** The masked assignment `g[where] = v`, as a value. */
  function Assign(g: Grid<int>, where: Grid<bool>, v: int): (r: Grid<int>)
    requires SameShape(where, g)
    ensures SameShape(r, g)
  {
    seq(|g|, i requires 0 <= i < |g| =>
      seq(|g[i]|, j requires 0 <= j < |g[i]| => if where[i][j] then v else g[i][j]))
  }

  /** `is_foreground` after erosion (border value 0). */
  function ErodedForeground(mask: Grid<int>, fgThreshold: int, erodeSize: int): (r: Grid<bool>)
    ensures SameShape(r, mask)
  {
    Eroded(Above(mask, fgThreshold), StructureFor(erodeSize), false)
  }

  /** `is_background` after erosion (border value 1). */
  function ErodedBackground(mask: Grid<int>, bgThreshold: int, erodeSize: int): (r: Grid<bool>)
    ensures SameShape(r, mask)
  {
    Eroded(Below(mask, bgThreshold), StructureFor(erodeSize), true)
  }

  /** The trimap the builder produces: every cell is one of the three classes,
      and the trimap has the mask's shape. */
  function TrimapOf(mask: Grid<int>, fgThreshold: int, bgThreshold: int, erodeSize: int): (t: Grid<int>)
    ensures SameShape(t, mask)
    ensures forall i, j | 0 <= i < |t| && 0 <= j < |t[i]| ::
      t[i][j] == Background || t[i][j] == Unknown || t[i][j] == Foreground
  {
    var filled := Assign(FullLike(mask, Unknown), ErodedForeground(mask, fgThreshold, erodeSize), Foreground);
    Assign(filled, ErodedBackground(mask, bgThreshold, erodeSize), Background)
  }

  /** Each cell's class: 0 exactly on the eroded background; otherwise 255 exactly
      on the eroded foreground; otherwise 128. Background wins where both hold. */
  lemma TrimapClasses(mask: Grid<int>, fgThreshold: int, bgThreshold: int, erodeSize: int)
    ensures forall i, j | 0 <= i < |mask| && 0 <= j < |mask[i]| ::
      var t := TrimapOf(mask, fgThreshold, bgThreshold, erodeSize)[i][j];
      var fg := ErodedForeground(mask, fgThreshold, erodeSize)[i][j];
      var bg := ErodedBackground(mask, bgThreshold, erodeSize)[i][j];
      (t == Background <==> bg) && (t == Foreground <==> fg && !bg) && (t == Unknown <==> !fg && !bg)
  {
  }

  /** Thresholds are strict: a pixel equal to the foreground threshold is not
      likely foreground, one equal to the background threshold is not likely
      background, and with `bgThreshold <= fgThreshold` no pixel is both. */
  lemma ThresholdsStrict(mask: Grid<int>, fgThreshold: int, bgThreshold: int)
    ensures forall i, j | 0 <= i < |mask| && 0 <= j < |mask[i]| ::
      (mask[i][j] == fgThreshold ==> !Above(mask, fgThreshold)[i][j]) &&
      (mask[i][j] == bgThreshold ==> !Below(mask, bgThreshold)[i][j]) &&
      (bgThreshold <= fgThreshold ==> !(Above(mask, fgThreshold)[i][j] && Below(mask, bgThreshold)[i][j]))
  {
  }

  /** A cell ends up 255 only where the mask is above the foreground threshold,
      and 0 only where it is below the background threshold. */
  lemma TrimapSound(mask: Grid<int>, fgThreshold: int, bgThreshold: int, erodeSize: int)
    ensures forall i, j | 0 <= i < |mask| && 0 <= j < |mask[i]| ::
      (TrimapOf(mask, fgThreshold, bgThreshold, erodeSize)[i][j] == Foreground ==> mask[i][j] > fgThreshold) &&
      (TrimapOf(mask, fgThreshold, bgThreshold, erodeSize)[i][j] == Background ==> mask[i][j] < bgThreshold)
  {
    var s := StructureFor(erodeSize);
    ErodedSubset(Above(mask, fgThreshold), s, false);
    ErodedSubset(Below(mask, bgThreshold), s, true);
  }

  /** With `bgThreshold <= fgThreshold` the eroded regions are disjoint, so the
      order of the two assignments does not matter: a cell is 255 exactly on the
      eroded foreground and 0 exactly on the eroded background. */
  lemma TrimapOrdered(mask: Grid<int>, fgThreshold: int, bgThreshold: int, erodeSize: int)
    requires bgThreshold <= fgThreshold
    ensures forall i, j | 0 <= i < |mask| && 0 <= j < |mask[i]| ::
      !(ErodedForeground(mask, fgThreshold, erodeSize)[i][j] && ErodedBackground(mask, bgThreshold, erodeSize)[i][j])
    ensures forall i, j | 0 <= i < |mask| && 0 <= j < |mask[i]| ::
      (TrimapOf(mask, fgThreshold, bgThreshold, erodeSize)[i][j] == Foreground <==> ErodedForeground(mask, fgThreshold, erodeSize)[i][j]) &&
      (TrimapOf(mask, fgThreshold, bgThreshold, erodeSize)[i][j] == Background <==> ErodedBackground(mask, bgThreshold, erodeSize)[i][j])
  {
    var s := StructureFor(erodeSize);
    ErodedSubset(Above(mask, fgThreshold), s, false);
    ErodedSubset(Below(mask, bgThreshold), s, true);
  }

  /** With ordered thresholds, a larger erosion size never adds definite cells:
      every cell that is 255 (or 0) under `erodeSize'` is 255 (or 0) under
      `erodeSize`, for square sizes and for the cross against squares of side 3 or more. */
  lemma TrimapErodeMonotone(mask: Grid<int>, fgThreshold: int, bgThreshold: int, erodeSize: int, erodeSize': int)
    requires bgThreshold <= fgThreshold
    requires (1 <= erodeSize <= erodeSize') || (erodeSize <= 0 && erodeSize' >= 3)
    ensures forall i, j | 0 <= i < |mask| && 0 <= j < |mask[i]| ::
      (TrimapOf(mask, fgThreshold, bgThreshold, erodeSize')[i][j] == Foreground ==>
         TrimapOf(mask, fgThreshold, bgThreshold, erodeSize)[i][j] == Foreground) &&
      (TrimapOf(mask, fgThreshold, bgThreshold, erodeSize')[i][j] == Background ==>
         TrimapOf(mask, fgThreshold, bgThreshold, erodeSize)[i][j] == Background)
  {
    TrimapOrdered(mask, fgThreshold, bgThreshold, erodeSize);
    TrimapOrdered(mask, fgThreshold, bgThreshold, erodeSize');
    ErodeSizeMonotone(Above(mask, fgThreshold), erodeSize, erodeSize', false);
    ErodeSizeMonotone(Below(mask, bgThreshold), erodeSize, erodeSize', true);
  }

  /** Size 0 is not "no erosion": it selects the 3x3 cross, which clears a
      foreground cell on a 1x2 all-white mask that size 1 (the identity) keeps.
      So going from size 0 to size 1 adds a definite-foreground cell. */
  lemma ZeroSizeErodesMoreThanOne()
    ensures TrimapOf([[255, 255]], 240, 10, 0)[0][0] == Unknown
    ensures TrimapOf([[255, 255]], 240, 10, 1)[0][0] == Foreground
  {
    var mask := [[255, 255]];
    FalseBorderClearsCorner(Above(mask, 240), Cross);
    UnitSquareIsIdentity(Above(mask, 240), false);
    UnitSquareIsIdentity(Below(mask, 10), true);
    TrimapClasses(mask, 240, 10, 0);
    TrimapClasses(mask, 240, 10, 1);
  }

  /** `trimap[where] = v` on the array in place. */
  method AssignWhere(trimap: array2<int>, where: Grid<bool>, v: int)
    requires Shaped(where, trimap.Length0, trimap.Length1)
    modifies trimap
    ensures forall i, j | 0 <= i < trimap.Length0 && 0 <= j < trimap.Length1 ::
      trimap[i, j] == if where[i][j] then v else old(trimap[i, j])
  {
    var i := 0;
    while i < trimap.Length0
      invariant 0 <= i <= trimap.Length0
      invariant forall r, c | 0 <= r < i && 0 <= c < trimap.Length1 ::
        trimap[r, c] == if where[r][c] then v else old(trimap[r, c])
      invariant forall r, c | i <= r < trimap.Length0 && 0 <= c < trimap.Length1 ::
        trimap[r, c] == old(trimap[r, c])
    {
      var j := 0;
      while j < trimap.Length1
        invariant 0 <= j <= trimap.Length1
        invariant forall r, c | 0 <= r < i && 0 <= c < trimap.Length1 ::
          trimap[r, c] == if where[r][c] then v else old(trimap[r, c])
        invariant forall c | 0 <= c < j ::
          trimap[i, c] == if where[i][c] then v else old(trimap[i, c])
        invariant forall r, c | i <= r < trimap.Length0 && 0 <= c < trimap.Length1 && (r > i || c >= j) ::
          trimap[r, c] == old(trimap[r, c])
      {
        if where[i][j] {
          trimap[i, j] := v;
        }
        j := j + 1;
      }
      i := i + 1;
    }
  }

  /** The trimap built in place from a mask of shape (rows, cols): a fresh array
      filled with 128, then the eroded foreground set to 255, then the eroded
      background set to 0. */
  method BuildTrimap(mask: Grid<int>, rows: nat, cols: nat, fgThreshold: int, bgThreshold: int, erodeSize: int)
    returns (trimap: array2<int>)
    requires Shaped(mask, rows, cols)
    ensures fresh(trimap)
    ensures trimap.Length0 == rows && trimap.Length1 == cols
    ensures forall i, j | 0 <= i < rows && 0 <= j < cols ::
      trimap[i, j] == TrimapOf(mask, fgThreshold, bgThreshold, erodeSize)[i][j]
  {
    var isForeground := Above(mask, fgThreshold);
    var isBackground := Below(mask, bgThreshold);
    var structure := StructureFor(erodeSize);
    isForeground := Eroded(isForeground, structure, false);
    isBackground := Eroded(isBackground, structure, true);

    trimap := new int[rows, cols]((i, j) => Unknown);
    AssignWhere(trimap, isForeground, Foreground);
    AssignWhere(trimap, isBackground, Background);
  }
}
