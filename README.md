# rembg background removal: trimap, model registry and mask bookkeeping

This project models the core of `src/rembg/bg.py`, the background-removal
pipeline of rembg, in Dafny:

- **Trimap builder** (inside `alpha_matting_cutout`). A greyscale mask is
  thresholded strictly into "likely foreground" (`mask > foreground_threshold`)
  and "likely background" (`mask < background_threshold`). Both grids are
  binary-eroded. The structure is an all-ones `k`-by-`k` square when
  `erode_structure_size = k > 0`, and scipy's default 3x3 cross otherwise.
  The foreground erosion reads out-of-range cells as 0; the background erosion
  reads them as 1. A grid of 128s then gets 255 on the eroded foreground and
  0 on the eroded background, in that order. Erosion follows
  `scipy.ndimage.binary_erosion`: one iteration, element `(a, b)` of an
  `n`-by-`n` structure sits at offset `(a - n/2, b - n/2)`. The fill is an
  `array2` written in place by loops, proved equal to a reference function
  `TrimapOf`.
- **Model registry** (`get_model`). A name selects one of three models, with
  a silent fallback to `u2net`. An unbounded memo cache is keyed by the name.
  It is a class holding a `map`, plus a pure model of a run of calls.
- **Size bookkeeping** of `alpha_matting_cutout`, `naive_cutout` and the
  dispatch in `remove`. The trimap is built at the thumbnail size, and the
  cutout comes back at the original size.
- **Batch mask bookkeeping** (`remove_many`). One envelope is emitted per
  (image, mask) pair, in order. Each has its image's height and width.

Images and masks outside the trimap are modelled by their sizes only.
`detect.load_model` and `detect.predict` are parameters: the loader's result
is `instance`/`loaded`, and the predictor's masks are `masks`/`predicted`.
The resampler's output at the working size is `workingMask`, and the
thumbnail size is `thumb`.

Three points where the code's behaviour differs from what its names suggest:

- An `erode_structure_size` of 0 does not disable erosion. It passes
  `structure=None`, which erodes with the 3x3 cross. Size 1 is the identity
  (`Erosion.UnitSquareIsIdentity`). So a larger size can yield more definite
  cells: going from 0 to 1 does, as `Trimap.ZeroSizeErodesMoreThanOne`
  exhibits. Monotonicity does hold between square sizes, and from the cross
  to squares of side 3 or more (`Trimap.TrimapErodeMonotone`).
- Background is assigned last, so background wins where both eroded regions
  hold (`Trimap.TrimapClasses`). With `background_threshold <=
  foreground_threshold` the regions never meet (`Trimap.TrimapOrdered`).
- The cache is keyed by the name string, not by the selected model. So
  `"unknown_name"` and `"u2net"` each load the u2net weights once
  (`Registry.FallbackScenario`).

## Model

| member | source | states |
|---|---|---|
| `Erosion.StructureFor` | src/rembg/bg.py:35-37 | a positive size gives an all-ones square of that side, any other size the cross; either way the structure holds its own origin |
| `Erosion.Eroded` | src/rembg/bg.py:39-40 | one iteration of `binary_erosion` with out-of-range cells reading as the border value; the result has the input's shape |
| `Erosion.ErodedSubset` | src/rembg/bg.py:39-40 | erosion by a structure holding its origin only shrinks: an eroded cell is set only where the input is set |
| `Erosion.UnitSquareIsIdentity` | src/rembg/bg.py:36-40 | `erode_structure_size = 1` leaves the grid unchanged |
| `Erosion.ErodeAllTrueWithTrueBorder` | src/rembg/bg.py:40 | with border value 1 the edge never clears a cell: an all-true grid stays all true |
| `Erosion.TrueBorderClearsOnlyInside` | src/rembg/bg.py:40 | for any grid, with border value 1 a cleared cell has a false cell inside the grid under the structure: the edge alone never clears it |
| `Erosion.FalseBorderErodesMore` | src/rembg/bg.py:39-40 | for any grid, every cell kept by the border-0 erosion is kept by the border-1 erosion |
| `Erosion.FalseBorderClearsCorner` | src/rembg/bg.py:39 | with border value 0 the cross, or any square of side 2 or more, clears the corner cell even of an all-true grid |
| `Erosion.ErodeAntitone` | src/rembg/bg.py:39-40 | eroding with a structure that covers another keeps a subset of the cells |
| `Erosion.ErodeSizeMonotone` | src/rembg/bg.py:35-40 | a larger square size (or a square of side 3 or more against the cross) keeps a subset of the cells |
| `Trimap.Above` | src/rembg/bg.py:31 | `mask > foreground_threshold` element by element, of the mask's shape |
| `Trimap.Below` | src/rembg/bg.py:32 | `mask < background_threshold` element by element, of the mask's shape |
| `Trimap.ErodedForeground` | src/rembg/bg.py:39 | the likely-foreground grid eroded with border value 0, of the mask's shape |
| `Trimap.ErodedBackground` | src/rembg/bg.py:40 | the likely-background grid eroded with border value 1, of the mask's shape |
| `Trimap.TrimapOf` | src/rembg/bg.py:46-48 | the trimap has the mask's shape and every cell is 0, 128 or 255 |
| `Trimap.TrimapClasses` | src/rembg/bg.py:46-48 | a cell is 0 iff eroded background; 255 iff eroded foreground and not eroded background; 128 iff neither |
| `Trimap.ThresholdsStrict` | src/rembg/bg.py:31-32 | a pixel equal to a threshold is not in that threshold's set; with background threshold at most foreground threshold no pixel is in both |
| `Trimap.TrimapSound` | src/rembg/bg.py:31-48 | a 255 cell has mask above the foreground threshold; a 0 cell has mask below the background threshold |
| `Trimap.TrimapOrdered` | src/rembg/bg.py:31-48 | with ordered thresholds the eroded regions are disjoint, so 255 iff eroded foreground and 0 iff eroded background |
| `Trimap.TrimapErodeMonotone` | src/rembg/bg.py:35-48 | with ordered thresholds, going from size k to size k' never adds a 255 or 0 cell, for 1 <= k <= k' or for k <= 0 and k' >= 3 (from 0 to 1 or 2 it can) |
| `Trimap.ZeroSizeErodesMoreThanOne` | src/rembg/bg.py:35-48 | on a 1x2 white mask, size 0 leaves a cell unknown that size 1 makes foreground |
| `Trimap.AssignWhere` | src/rembg/bg.py:47-48 | the masked assignment sets exactly the selected cells to the value and leaves the others |
| `Trimap.BuildTrimap` | src/rembg/bg.py:30-48 | the freshly allocated array built in place has the mask's shape and equals `TrimapOf` cell for cell |
| `Registry.SelectModel` | src/rembg/bg.py:75-81 | "u2netp" and "u2net_human_seg" select their own model; every other name selects u2net |
| `Registry.Lookup` | src/rembg/bg.py:74-81 | a hit returns the cached handle with the cache unchanged; a miss caches the loader's handle for the selected model |
| `Registry.Serve` | src/rembg/bg.py:74-81 | a run of `get_model` calls in order against the cache: one handle per call, and no more loader runs than calls |
| `Registry.ServeMemoises` | src/rembg/bg.py:74-81 | over any run of calls, each handle holds the selected model and is the one the final cache holds for its name; cached entries never change; the cache gains exactly the requested names |
| `Registry.SameNameSameHandle` | src/rembg/bg.py:74 | two calls with the same name return the identical handle; a cached name returns its cached handle |
| `Registry.LoaderRunsOncePerName` | src/rembg/bg.py:74 | the loader runs at most once per distinct name, exactly for the requested names not yet cached |
| `Registry.FallbackScenario` | src/rembg/bg.py:74-81 | an unknown name and "u2net" get u2net handles from separate loads; a repeated "u2net" gets the identical handle |
| `Registry.ModelRegistry.constructor` | src/rembg/bg.py:74 | the cache starts empty with no loads |
| `Registry.ModelRegistry.GetModel` | src/rembg/bg.py:74-81 | returns the selected model, agrees with `Lookup`, and records a load only on a miss, keeping loads distinct per name |
| `Sizes.IsThumbnail` | src/rembg/bg.py:24 | the sizes `thumbnail((bound, bound))` may produce: unchanged when the image fits, otherwise at least 1 pixel; in every case no larger than the original or the bound in either direction |
| `Cutout.NaiveCutout` | src/rembg/bg.py:64-72 | the naive cutout has the image's size whatever the mask's size |
| `Cutout.AlphaMattingCutout` | src/rembg/bg.py:22-62 | the trimap is built from the working-size mask with the working size, within the bound and the original, in a freshly allocated array; the cutout has the original size |
| `Cutout.AsWrittenMattingAlwaysRaises` | src/rembg/bg.py:39-40 | as written every call of the matting path with a positive `base_size` raises NameError for `binary_erosion` |
| `Cutout.DefaultsSeparateClasses` | src/rembg/bg.py:85-90 | the default model name selects u2net_human_seg, and with the default thresholds 255 iff eroded foreground and 0 iff eroded background |
| `Cutout.Remove` | src/rembg/bg.py:83-111 | the model comes from the registry for the name, a load is recorded only on a miss, and the cutout has the input image's size on both paths |
| `Batch.EmitMasks` | src/rembg/bg.py:132-142 | one envelope per (image, mask) pair in input order, as many as the shorter list; envelope k has image k's shape and mask k's content |
| `Batch.RemoveMany` | src/rembg/bg.py:114-142 | fetches the model through the registry once (a load is recorded only on a miss), then emits the envelopes of `EmitMasks` |

## Findings

| source | as written | input that shows it | evidently intended | confidence | as-written member | corrected member |
|---|---|---|---|---|---|---|
| src/rembg/bg.py:39-40 | `binary_erosion` is called but never imported (lines 1-11), so the call raises NameError | any `remove(..., alpha_matting=True)` with a positive `alpha_matting_base_size` (a non-positive one fails in `thumbnail` at line 24 first) | `scipy.ndimage.binary_erosion`, one iteration, with the given structure and border value | high for the NumPy of the source's era; with NumPy 1.24 or later, `np.int` at line 37 raises AttributeError first whenever the size is positive (the default is 10), and the NameError remains for sizes of 0 or less; not executed | `Cutout.AlphaMattingCutoutAsWritten` (with `Cutout.AsWrittenMattingAlwaysRaises`) | `Cutout.AlphaMattingCutout` (with `Erosion.Eroded` and the `Trimap` lemmas) |

## Left out

- LANCZOS resampling and the rounding of `thumbnail` (bg.py:24-25, 60, 71, 134): foreign floating-point kernels. Only sizes are modelled. A thumbnail is any size allowed by `Sizes.IsThumbnail`.
- Sizes.IsThumbnail: does not fix the aspect-ratio rounding, only that the result is unchanged when it fits and otherwise at least 1 and at most the original and the bound in each direction.
- Cutout.AlphaMattingCutout: requires a positive `base_size`. A bound of 0 makes PIL's `thumbnail` divide by zero, and a negative bound has no meaningful working size.
- The in-place mutation of the caller's image by `img.thumbnail` (bg.py:24) is not modelled; the model passes sizes by value.
- The per-pixel blend of `Image.composite` in `naive_cutout` (bg.py:64-72) is a PIL call. Only the cutout's size is modelled, so the all-255 and all-0 mask scenarios are not stated.
- `estimate_alpha_cf`, `estimate_foreground_ml` and `stack_images` (bg.py:54-56) are floating-point solvers. Only the working size of their output is tracked.
- The normalisation to [0, 1] and the clip to [0, 255] (bg.py:51-52, 58): float arithmetic.
- Image decoding, PNG encoding, `np.load`, `np.savez_compressed` and buffer `seek` (bg.py:93, 108-111, 122-125, 139-140): I/O and codecs. An envelope is modelled by its shape and the prediction it holds.
- `detect.load_model` and `detect.predict` (bg.py:77-81, 94, 130): neural-network inference. They become parameters, and mask pixels are an opaque prediction id outside the trimap.
- The laziness of the `remove_many` generator: the model returns the whole sequence of envelopes at once. The order and count are the same.
- Cutout.Remove: assumes `Image.fromarray(img, mode="RGB")` at line 66 accepts the PIL image that `remove` passes at line 106 and keeps its size. `naive_cutout` is written for a numpy array, and whether Pillow accepts a PIL image there is not part of this model.
- Registry.LoaderRunsOncePerName, Registry.ModelRegistry.GetModel, Registry.Serve: the loader always succeeds. When `detect.load_model` raises, `lru_cache` stores nothing and the next call with that name runs the loader again. So "at most once per distinct name" is promised here only for successful loads, and failed loads are not modelled.
- Concurrent use of the registry cache: the source is single-threaded.
- `src/rembg/test.py`: a video driver script with no logic of its own.
