/**
 * `compress_image_data`: open the image, normalise its colour model, shrink it
 * to fit `maxDim` and re-encode it as JPEG at `quality`.
 *
 * The pixel work belongs to the imaging library and is an oracle here:
 * `open` stands for decoding plus colour normalisation (flattening alpha onto
 * white, expanding palettes, converting to RGB), which keeps the image size,
 * and yields that size or None when the bytes are not a readable image;
 * `encode` stands for the resampling to the given size plus the JPEG encoder,
 * and yields the encoded bytes or None when encoding raises.
 */
module Recoder {
  import opened Base
  import opened Downscale

  datatype Codec = Codec(open: Bytes -> Option<Dims>, encode: (Bytes, Dims, int) -> Option<Bytes>)

  /** `(output.getvalue(), img.size)`: the encoded bytes and the final image size. */
  datatype Recoded = Recoded(data: Bytes, size: Dims)

  /** Failures of any step are caught and reported as None (`return None, None`). */
  function CompressImageData(codec: Codec, image: Bytes, quality: int, maxDim: nat): (r: Option<Recoded>)
    ensures r.Some? <==>
              && codec.open(image).Some?
              && FitWithin(codec.open(image).value, maxDim).Some?
              && codec.encode(image, FitWithin(codec.open(image).value, maxDim).value, quality).Some?
    ensures r.Some? ==> r.value.size == FitWithin(codec.open(image).value, maxDim).value
    ensures r.Some? && Within(codec.open(image).value, maxDim) ==> r.value.size == codec.open(image).value
    ensures r.Some? ==> Within(r.value.size, maxDim) || r.value.size == codec.open(image).value
    ensures r.Some? ==> r.value.size.width <= codec.open(image).value.width
    ensures r.Some? ==> r.value.size.height <= codec.open(image).value.height
    ensures r.Some? && !Within(codec.open(image).value, maxDim) ==>
              r.value.size.width > 0 && r.value.size.height > 0
    ensures r.Some? ==> codec.encode(image, r.value.size, quality) == Some(r.value.data)
  {
    match codec.open(image)
    case None => None
    case Some(original) =>
      match FitWithin(original, maxDim)
      case None => None
      case Some(size) =>
        match codec.encode(image, size, quality)
        case None => None
        case Some(data) => Some(Recoded(data, size))
  }
}
