/**
 * The single-image entry point `remove` and its two cutout strategies, as far
 * as sizes and the trimap go: the pixel arithmetic of resampling, compositing
 * and the matting solvers is not modelled.
 */
module Cutout {
  import opened Grids
  import opened Sizes
  import opened Trimap
  import opened Registry

  /** The tunables of the alpha-matting path. */
  datatype MattingParams = MattingParams(
    foregroundThreshold: int,
    backgroundThreshold: int,
    erodeStructureSize: int,
    baseSize: int)

  /** The defaults of `remove`. */
  const DefaultModelName: string := "u2net_human_seg"
  const DefaultParams: MattingParams := MattingParams(240, 10, 10, 1000)

  /** `Image.composite(image1, image2, mask)` accepts three images of one size and
      yields an image of that size. */
  function Composite(image1: Size, image2: Size, mask: Size): Size
    requires image1 == image2 == mask
  {
    image1
  }

  /** `naive_cutout`: the mask is resized to the image and used as its alpha
      over a transparent canvas of the image's size, so the cutout keeps the
      image's size whatever the mask's size. */
  function NaiveCutout(img: Size, mask: Size): (cutout: Size)
    ensures cutout == img
  {
    var empty := img;
    Composite(img, empty, Resized(mask, img))
  }

  /** `alpha_matting_cutout`. `thumb` is the size `img.thumbnail` produced and
      `workingMask` the pixels of the mask resized to it (the resampler's output).
      The trimap is built at the working size, which is within the bound, and the
      cutout comes back at the original size whatever the bound. */
  method AlphaMattingCutout(img: Size, thumb: Size, workingMask: Grid<int>, p: MattingParams)
    returns (trimap: array2<int>, cutout: Size)
    requires p.baseSize >= 1 && IsThumbnail(img, p.baseSize, thumb)
    requires Shaped(workingMask, thumb.height, thumb.width)
    ensures cutout == img
    ensures fresh(trimap)
    ensures trimap.Length0 == thumb.height && trimap.Length1 == thumb.width
    ensures trimap.Length0 <= p.baseSize && trimap.Length1 <= p.baseSize
    ensures trimap.Length0 <= img.height && trimap.Length1 <= img.width
    ensures forall i, j | 0 <= i < trimap.Length0 && 0 <= j < trimap.Length1 ::
      trimap[i, j] == TrimapOf(workingMask, p.foregroundThreshold, p.backgroundThreshold, p.erodeStructureSize)[i][j]
  {
    var size := img;
    var maskShape := ArrayShape(thumb);
    trimap := BuildTrimap(workingMask, maskShape.rows, maskShape.cols,
                          p.foregroundThreshold, p.backgroundThreshold, p.erodeStructureSize);
    // The solvers return an RGBA stack at the working resolution.
    var stacked := Shape(trimap.Length0, trimap.Length1);
    var working := SizeOfArray(stacked);
    assert working == thumb;
    cutout := Resized(working, size);
  }

  /** The names bound at the top level of bg.py: its imports and its own definitions. */
  const ModuleNames: set<string> := {
    "functools", "io", "np", "Image", "estimate_alpha_cf", "estimate_foreground_ml",
    "stack_images", "sparse", "detect",
    "alpha_matting_cutout", "naive_cutout", "get_model", "remove", "remove_many"}

  /** How a call ends: with a cutout of some size, or with a NameError for an unbound name. */
  datatype Outcome = Finished(cutout: Size) | NameError(name: string)

  /** `alpha_matting_cutout` as the module is written: the erosion at line 39 looks
      `binary_erosion` up among the module's names before any trimap exists. */
  function AlphaMattingCutoutAsWritten(img: Size, thumb: Size, p: MattingParams): Outcome
    requires p.baseSize >= 1
  {
    if "binary_erosion" in ModuleNames then Finished(img) else NameError("binary_erosion")
  }

  /** As written, every call of the matting path fails: `binary_erosion` is never
      imported, so no input reaches the trimap. */
  lemma AsWrittenMattingAlwaysRaises(img: Size, thumb: Size, p: MattingParams)
    requires p.baseSize >= 1
    ensures AlphaMattingCutoutAsWritten(img, thumb, p) == NameError("binary_erosion")
  {
    assert "binary_erosion" !in ModuleNames;
  }

  /** With the default thresholds (background 10 below foreground 240) the two
      eroded regions never meet, so a trimap cell is 255 exactly on the eroded
      foreground and 0 exactly on the eroded background. */
  lemma DefaultsSeparateClasses(mask: Grid<int>)
    ensures SelectModel(DefaultModelName) == U2netHumanSeg
    ensures forall i, j | 0 <= i < |mask| && 0 <= j < |mask[i]| ::
      var p := DefaultParams;
      var t := TrimapOf(mask, p.foregroundThreshold, p.backgroundThreshold, p.erodeStructureSize)[i][j];
      (t == Foreground <==> ErodedForeground(mask, p.foregroundThreshold, p.erodeStructureSize)[i][j]) &&
      (t == Background <==> ErodedBackground(mask, p.backgroundThreshold, p.erodeStructureSize)[i][j])
  {
    TrimapOrdered(mask, DefaultParams.foregroundThreshold, DefaultParams.backgroundThreshold,
                  DefaultParams.erodeStructureSize);
  }

  /** `remove`: fetch the model for `modelName` (the loader's result being
      `loaded`), take the predicted mask of size `predicted`, and cut out with the
      chosen strategy. The cutout has the input image's size on both paths. */
  method Remove(registry: ModelRegistry, modelName: string, loaded: nat, img: Size, predicted: Size,
                alphaMatting: bool, p: MattingParams, thumb: Size, workingMask: Grid<int>)
    returns (model: Handle, cutout: Size)
    requires registry.Valid()
    requires alphaMatting ==>
      p.baseSize >= 1 && IsThumbnail(img, p.baseSize, thumb) && Shaped(workingMask, thumb.height, thumb.width)
    modifies registry
    ensures registry.Valid()
    ensures (model, registry.cache) == Lookup(old(registry.cache), modelName, loaded)
    ensures registry.loads ==
      if modelName in old(registry.cache) then old(registry.loads) else old(registry.loads) + [modelName]
    ensures model.model == SelectModel(modelName)
    ensures cutout == img
  {
    model := registry.GetModel(modelName, loaded);
    if alphaMatting {
      var trimap;
      trimap, cutout := AlphaMattingCutout(img, thumb, workingMask, p);
    } else {
      cutout := NaiveCutout(img, predicted);
    }
  }
}
