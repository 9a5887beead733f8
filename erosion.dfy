/**
 * Binary erosion of a boolean grid by a structuring element, with the meaning
 * `scipy.ndimage.binary_erosion` gives it for one iteration and origin 0:
 * element (a, b) of an n-by-n structure sits at offset (a - n/2, b - n/2)
 * from the cell being computed, and a neighbour outside the grid reads as the
 * border value.
 */
module Erosion {
  import opened Grids

  /** The structures the trimap builder hands to erosion: `structure=None`
      (scipy's default 3x3 cross) or `np.ones((k, k))`. */
  datatype Structure = Cross | Square(side: nat)

  /** The side of the structure's grid. */
  function Side(s: Structure): nat
  {
    match s
    case Cross => 3
    case Square(k) => k
  }

  /** Whether element (a, b) of the structure's grid is set. */
  predicate Element(s: Structure, a: int, b: int)
  {
    0 <= a < Side(s) && 0 <= b < Side(s) &&
    match s
    case Cross => a == 1 || b == 1
    case Square(_) => true
  }

  /** The structure selected by `erode_structure_size`: a positive size gives an
      all-ones square, anything else leaves `structure=None`. Either way the
      structure holds its own origin, so erosion can only shrink a region. */
  function StructureFor(erodeStructureSize: int): (s: Structure)
    ensures Element(s, Side(s) / 2, Side(s) / 2)
    ensures erodeStructureSize > 0 ==> Side(s) == erodeStructureSize
    ensures erodeStructureSize > 0 ==>
      forall a, b | 0 <= a < Side(s) && 0 <= b < Side(s) :: Element(s, a, b)
    ensures erodeStructureSize <= 0 ==> !Element(s, 0, 0) && Element(s, 0, 1) && Element(s, 1, 1)
  {
    if erodeStructureSize > 0 then Square(erodeStructureSize) else Cross
  }

  /** Cell (i, j) of `g`, or the border value when (i, j) lies outside it. */
  function At(g: Grid<bool>, i: int, j: int, border: bool): bool
  {
    if 0 <= i < |g| && 0 <= j < |g[i]| then g[i][j] else border
  }

  /** Every set element of the structure, centred on (i, j), lands on a true cell. */
  predicate Fits(g: Grid<bool>, s: Structure, border: bool, i: int, j: int)
  {
    forall a, b | 0 <= a < Side(s) && 0 <= b < Side(s) && Element(s, a, b) ::
      At(g, i + a - Side(s) / 2, j + b - Side(s) / 2, border)
  }

  /** One iteration of binary erosion of `g` by `s`. */
  function Eroded(g: Grid<bool>, s: Structure, border: bool): (r: Grid<bool>)
    ensures SameShape(r, g)
  {
    seq(|g|, i requires 0 <= i < |g| =>
      seq(|g[i]|, j => Fits(g, s, border, i, j)))
  }

  /** Erosion only shrinks: a structure that holds its origin keeps a cell only
      where the input already has it. */
  lemma ErodedSubset(g: Grid<bool>, s: Structure, border: bool)
    requires Element(s, Side(s) / 2, Side(s) / 2)
    ensures forall i, j | 0 <= i < |g| && 0 <= j < |g[i]| :: Eroded(g, s, border)[i][j] ==> g[i][j]
  {
    var c := Side(s) / 2;
    forall i, j | 0 <= i < |g| && 0 <= j < |g[i]| && Eroded(g, s, border)[i][j]
      ensures g[i][j]
    {
      assert Fits(g, s, border, i, j);
      assert Element(s, c, c);
      assert At(g, i + c - c, j + c - c, border);
    }
  }

  /** A 1x1 structure is the identity: `erode_structure_size = 1` performs no erosion. */
  lemma UnitSquareIsIdentity(g: Grid<bool>, border: bool)
    ensures Eroded(g, Square(1), border) == g
  {
    var r := Eroded(g, Square(1), border);
    forall i | 0 <= i < |g| ensures r[i] == g[i] {
      forall j | 0 <= j < |g[i]| ensures r[i][j] == g[i][j] {
        assert Element(Square(1), 0, 0);
        assert forall a, b | Element(Square(1), a, b) :: a == 0 && b == 0;
      }
    }
  }

  /** With border value true (the background erosion), the grid's edge never
      clears a cell: a grid that is true everywhere stays true everywhere. */
  lemma ErodeAllTrueWithTrueBorder(g: Grid<bool>, s: Structure)
    requires forall i, j | 0 <= i < |g| && 0 <= j < |g[i]| :: g[i][j]
    ensures forall i, j | 0 <= i < |g| && 0 <= j < |g[i]| :: Eroded(g, s, true)[i][j]
  {
  }

  /** With border value true, erosion clears a cell only because of a false cell
      inside the grid that the structure reaches: the edge alone never clears it. */
  lemma TrueBorderClearsOnlyInside(g: Grid<bool>, s: Structure, i: int, j: int)
    requires 0 <= i < |g| && 0 <= j < |g[i]| && !Eroded(g, s, true)[i][j]
    ensures exists a, b | Element(s, a, b) ::
      var r, c := i + a - Side(s) / 2, j + b - Side(s) / 2;
      0 <= r < |g| && 0 <= c < |g[r]| && !g[r][c]
  {
    assert !Fits(g, s, true, i, j);
    var a, b :| 0 <= a < Side(s) && 0 <= b < Side(s) && Element(s, a, b) &&
      !At(g, i + a - Side(s) / 2, j + b - Side(s) / 2, true);
  }

  /** The foreground's border value 0 erodes at least as much as the background's
      border value 1: whatever survives with border 0 survives with border 1. */
  lemma FalseBorderErodesMore(g: Grid<bool>, s: Structure)
    ensures forall i, j | 0 <= i < |g| && 0 <= j < |g[i]| ::
      Eroded(g, s, false)[i][j] ==> Eroded(g, s, true)[i][j]
  {
    forall i, j | 0 <= i < |g| && 0 <= j < |g[i]| && Eroded(g, s, false)[i][j]
      ensures Eroded(g, s, true)[i][j]
    {
      assert Fits(g, s, false, i, j);
    }
  }

  /** With border value false (the foreground erosion), any structure reaching one
      row above its origin clears the top-left cell even of an all-true grid. */
  lemma FalseBorderClearsCorner(g: Grid<bool>, s: Structure)
    requires |g| > 0 && |g[0]| > 0
    requires s == Cross || Side(s) >= 2
    ensures !Eroded(g, s, false)[0][0]
  {
    var c := Side(s) / 2;
    assert Element(s, c - 1, c);
    assert !At(g, 0 + (c - 1) - c, 0 + c - c, false);
  }

  /** `big` contains every offset of `small`: element (a, b) of `small` has the
      same offset from the origin as some element of `big`. */
  ghost predicate Covers(big: Structure, small: Structure)
  {
    forall a, b | Element(small, a, b) ::
      Element(big, a - Side(small) / 2 + Side(big) / 2, b - Side(small) / 2 + Side(big) / 2)
  }

  /** At one cell: fitting a covering structure implies fitting the covered one. */
  lemma FitsAntitone(g: Grid<bool>, big: Structure, small: Structure, border: bool, i: int, j: int)
    requires Covers(big, small) && Fits(g, big, border, i, j)
    ensures Fits(g, small, border, i, j)
  {
    var cs, cb := Side(small) / 2, Side(big) / 2;
    forall a, b | 0 <= a < Side(small) && 0 <= b < Side(small) && Element(small, a, b)
      ensures At(g, i + a - cs, j + b - cs, border)
    {
      var a', b' := a - cs + cb, b - cs + cb;
      assert Element(big, a', b');
      assert At(g, i + a' - cb, j + b' - cb, border);
    }
  }

  /** Eroding with a structure that covers another keeps no more cells. */
  lemma ErodeAntitone(g: Grid<bool>, big: Structure, small: Structure, border: bool)
    requires Covers(big, small)
    ensures forall i, j | 0 <= i < |g| && 0 <= j < |g[i]| ::
      Eroded(g, big, border)[i][j] ==> Eroded(g, small, border)[i][j]
  {
    forall i, j | 0 <= i < |g| && 0 <= j < |g[i]| && Eroded(g, big, border)[i][j]
      ensures Eroded(g, small, border)[i][j]
    {
      FitsAntitone(g, big, small, border, i, j);
    }
  }

  /** Squares grow with their side: every offset of a k-square is an offset of a
      k'-square when 1 <= k <= k'. */
  lemma SquaresNested(k: nat, k': nat)
    requires 1 <= k <= k'
    ensures Covers(Square(k'), Square(k))
  {
    forall a, b | Element(Square(k), a, b)
      ensures Element(Square(k'), a - k / 2 + k' / 2, b - k / 2 + k' / 2)
    {
      assert k / 2 <= k' / 2 && k - k / 2 <= k' - k' / 2;
    }
  }

  /** A square of side at least 3 covers the default cross. */
  lemma CrossInSquare(k: nat)
    requires k >= 3
    ensures Covers(Square(k), Cross)
  {
    forall a, b | Element(Cross, a, b)
      ensures Element(Square(k), a - 1 + k / 2, b - 1 + k / 2)
    {
      assert 1 <= k / 2 && k / 2 + 1 < k;
    }
  }

  /** Growing `erode_structure_size` never adds cells to an eroded region, as long
      as both sizes select squares, or the smaller selects the cross and the
      larger is at least 3. */
  lemma ErodeSizeMonotone(g: Grid<bool>, k: int, k': int, border: bool)
    requires (1 <= k <= k') || (k <= 0 && k' >= 3)
    ensures forall i, j | 0 <= i < |g| && 0 <= j < |g[i]| ::
      Eroded(g, StructureFor(k'), border)[i][j] ==> Eroded(g, StructureFor(k), border)[i][j]
  {
    if k >= 1 {
      SquaresNested(k, k');
    } else {
      CrossInSquare(k');
    }
    ErodeAntitone(g, StructureFor(k'), StructureFor(k), border);
  }
}
