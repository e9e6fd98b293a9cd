/**
 * The batch script's `compress_pdf`: a first pass (quality 65, bound 1200),
 * a rewrite of the saved file, and a second, more aggressive pass (quality 45,
 * bound 900) from the original input when the first result reduced the size
 * by less than half the target and at least one image was substituted.
 * There is no fallback to the original: the reported size may exceed it.
 */
module MainScript {
  import opened Base
  import opened PdfModel
  import opened ImageScan
  import opened Policies

  /** An exact rational `num / den`; the script's float ratios are taken to be these. */
  datatype Ratio = Ratio(num: int, den: Pos)

  predicate Less(a: Ratio, b: Ratio) {
    a.num * b.den < b.num * a.den
  }

  /** `(original - compressed) / original`, and 0 when the original is empty (no division then). */
  function Reduction(originalSize: nat, compressedSize: nat): (r: Ratio)
    ensures originalSize > 0 && compressedSize <= originalSize ==> 0 <= r.num <= r.den
    ensures compressedSize >= originalSize ==> r.num <= 0
    ensures originalSize > 0 && compressedSize < originalSize ==> r.num > 0
    ensures originalSize == 0 ==> r.num == 0
  {
    if originalSize > 0 then Ratio(originalSize - compressedSize, originalSize) else Ratio(0, 1)
  }

  /** `target * 0.5` */
  function Half(t: Ratio): Ratio {
    Ratio(t.num, 2 * t.den)
  }

  /** The retry test: `reduction < target_reduction * 0.5 and images_compressed > 0`. */
  predicate ShouldRetry(originalSize: nat, compressedSize: nat, imagesCompressed: nat, target: Ratio) {
    Less(Reduction(originalSize, compressedSize), Half(target)) && imagesCompressed > 0
  }

  /** The retry test in integer terms, for a non-empty and for an empty original. */
  lemma RetryCondition(originalSize: nat, compressedSize: nat, imagesCompressed: nat, target: Ratio)
    ensures originalSize > 0 ==>
              (ShouldRetry(originalSize, compressedSize, imagesCompressed, target)
               <==> imagesCompressed > 0 && 2 * target.den * (originalSize - compressedSize) < target.num * originalSize)
    ensures originalSize == 0 ==>
              (ShouldRetry(originalSize, compressedSize, imagesCompressed, target) <==> imagesCompressed > 0 && target.num > 0)
  {
    var o: int, c: int, n: int, d: int := originalSize, compressedSize, target.num, target.den;
    assert (o - c) * (2 * d) == 2 * d * (o - c);
    assert n * (if o > 0 then o else 1) == (if o > 0 then n * o else n);
  }

  /**
   * With the default target of 1/4 the second pass runs exactly when some
   * image was substituted and the result is above 7/8 of the original.
   */
  lemma DefaultTargetRetry(originalSize: nat, compressedSize: nat, imagesCompressed: nat)
    requires originalSize > 0
    ensures ShouldRetry(originalSize, compressedSize, imagesCompressed, Ratio(1, 4))
            <==> imagesCompressed > 0 && 8 * compressedSize > 7 * originalSize
  {
    RetryCondition(originalSize, compressedSize, imagesCompressed, Ratio(1, 4));
  }

  /** Without a substituted image there is no second pass, whatever the sizes. */
  lemma NoImagesNoRetry(originalSize: nat, compressedSize: nat, target: Ratio)
    ensures !ShouldRetry(originalSize, compressedSize, 0, target)
  {
  }

  /** A first result that did not shrink the file triggers the second pass whenever the target is positive. */
  lemma GrowthRetries(originalSize: nat, compressedSize: nat, imagesCompressed: nat, target: Ratio)
    requires compressedSize >= originalSize && target.num > 0 && imagesCompressed > 0
    ensures ShouldRetry(originalSize, compressedSize, imagesCompressed, target)
  {
    RetryCondition(originalSize, compressedSize, imagesCompressed, target);
    if originalSize > 0 {
      assert 2 * target.den * (originalSize - compressedSize) <= 0;
      assert target.num * originalSize > 0;
    }
  }

  /**
   * `compress_images_with_pikepdf`: the pass over a freshly opened copy of the
   * input; returns the document it saves and the number of substitutions.
   */
  method CompressImagesWithPikepdf(input: PdfDoc, env: Env, quality: int, maxDim: nat)
    returns (saved: PdfDoc, imagesCompressed: nat)
    requires WellFormed(input)
    ensures saved == ProcessedDoc(BatchPolicy(quality, maxDim), env, input)
    ensures imagesCompressed == ReplacedCount(BatchPolicy(quality, maxDim), env, input)
    ensures saved.pages == input.pages && saved.xobjects.Keys == input.xobjects.Keys
  {
    var pdf := new Document(input);
    imagesCompressed := pdf.CompressImages(BatchPolicy(quality, maxDim), env);
    saved := pdf.Snapshot();
  }

  /**
   * `compress_pdf`. `finish` gives the size of the output file for a document
   * the pass saved: the save, the rewrite by the second PDF library and the
   * final linearized save are outside the model.
   */
  method CompressPdf(originalSize: nat, input: PdfDoc, env: Env, finish: PdfDoc -> nat, target: Ratio)
    returns (original: nat, compressedSize: nat, retried: bool)
    requires WellFormed(input)
    ensures original == originalSize
    ensures var first := ProcessedDoc(BatchPolicy(65, 1200), env, input);
            var images := ReplacedCount(BatchPolicy(65, 1200), env, input);
            && retried == ShouldRetry(originalSize, finish(first), images, target)
            && compressedSize == if retried then finish(ProcessedDoc(BatchPolicy(45, 900), env, input)) else finish(first)
  {
    original := originalSize;
    var first, imagesCompressed := CompressImagesWithPikepdf(input, env, 65, 1200);
    compressedSize := finish(first);
    var reduction := if originalSize > 0 then Ratio(originalSize - compressedSize, originalSize) else Ratio(0, 1);
    retried := Less(reduction, Half(target)) && imagesCompressed > 0;
    if retried {
      var aggressive, _ := CompressImagesWithPikepdf(input, env, 45, 900);
      compressedSize := finish(aggressive);
    }
  }
}
