/**
 * `remove_many`: decompress every input array, predict all masks in one
 * batched call, then for each (image, mask) pair in order resize the mask to
 * the image's resolution and emit it compressed.
 */
module Batch {
  import opened Sizes
  import opened Registry

  /** A predicted mask as a PIL image: its size, and which prediction its pixels
      come from (the pixel values themselves are not modelled). */
  datatype MaskImage = MaskImage(size: Size, prediction: nat)

  /** A compressed uint8 mask array in transit: its shape and the prediction it holds. */
  datatype Envelope = Envelope(shape: Shape, prediction: nat)

  /** `np.savez_compressed` of `np.array(mask)`: an array of the mask's height by width. */
  function Compress(m: MaskImage): Envelope
  {
    Envelope(ArrayShape(m.size), m.prediction)
  }

  function Min(x: nat, y: nat): nat { if x <= y then x else y }

  /** The generator loop over `zip(decompressed_images, masks)`: one envelope per
      pair, in input order, stopping at the shorter list. Each mask is resized to
      `(shape[1], shape[0])`, i.e. width = columns and height = rows, so each
      envelope has exactly its image's shape. */
  method EmitMasks(images: seq<Shape>, masks: seq<MaskImage>) returns (out: seq<Envelope>)
    ensures |out| == Min(|images|, |masks|)
    ensures forall k | 0 <= k < |out| :: out[k].shape == images[k] && out[k].prediction == masks[k].prediction
  {
    out := [];
    var k := 0;
    while k < |images| && k < |masks|
      invariant k <= |images| && k <= |masks|
      invariant |out| == k
      invariant forall m | 0 <= m < k :: out[m].shape == images[m] && out[m].prediction == masks[m].prediction
    {
      var image, predicted := images[k], masks[k];
      // `resize((shape[1], shape[0]))`: the content is resampled from the same prediction.
      var mask := predicted.(size := Resized(predicted.size, Size(image.cols, image.rows)));
      out := out + [Compress(mask)];
      k := k + 1;
    }
  }

  /** `remove_many`: fetch the model once, take the batched prediction `masks`
      for the decompressed `images`, and emit the envelopes. */
  method RemoveMany(registry: ModelRegistry, modelName: string, loaded: nat, images: seq<Shape>, masks: seq<MaskImage>)
    returns (model: Handle, out: seq<Envelope>)
    requires registry.Valid()
    modifies registry
    ensures registry.Valid()
    ensures (model, registry.cache) == Lookup(old(registry.cache), modelName, loaded)
    ensures registry.loads ==
      if modelName in old(registry.cache) then old(registry.loads) else old(registry.loads) + [modelName]
    ensures model.model == SelectModel(modelName)
    ensures |out| == Min(|images|, |masks|)
    ensures forall k | 0 <= k < |out| :: out[k].shape == images[k] && out[k].prediction == masks[k].prediction
  {
    model := registry.GetModel(modelName, loaded);
    out := EmitMasks(images, masks);
  }
}
