/**
 * The command-line tool's `compress_pdf`: one in-process pass over the
 * document with the 0.75 bar, a save to a temporary file, and the saved file
 * kept only when it is strictly smaller than the input.
 */
module Demo {
  import opened Base
  import opened PdfModel
  import opened ImageScan
  import opened Selection
  import opened Policies

  /**
   * `input` is the document as the container library opens it (an open that
   * raises is not caught here, so it is not modelled); `save` gives the size of
   * the temporary file the library writes for a document.
   */
  method CompressPdf(originalSize: nat, input: PdfDoc, env: Env, save: PdfDoc -> nat, quality: int, maxDim: nat)
    returns (r: Outcome)
    requires WellFormed(input)
    ensures r == SelectSingle(originalSize, save(ProcessedDoc(DemoPolicy(quality, maxDim), env, input)))
    ensures r.originalSize == originalSize && r.compressedSize <= originalSize
  {
    var pdf := new Document(input);
    var imagesProcessed := pdf.CompressImages(DemoPolicy(quality, maxDim), env);
    var compressedSize := save(pdf.Snapshot());
    if compressedSize < originalSize {
      r := Outcome(originalSize, compressedSize, Some(Pikepdf));
    } else {
      r := Outcome(originalSize, originalSize, None);
    }
  }
}
