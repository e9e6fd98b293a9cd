/**
 * The web service's compression: the in-process pass as one of three
 * strategies, and `compress_pdf`, which keeps the smallest successful result
 * when it beats the input.
 */
module Fapi {
  import opened Base
  import opened PdfModel
  import opened ImageScan
  import opened Selection
  import opened Policies

  /**
   * What `compress_with_pikepdf` produces: None when opening or saving raises
   * (the function returns False), otherwise the size of the saved file.
   */
  function PikepdfResult(parsed: Option<PdfDoc>, env: Env, save: PdfDoc -> Option<nat>, quality: int, maxDim: nat)
    : (r: Option<nat>)
    requires parsed.Some? ==> WellFormed(parsed.value)
    ensures parsed.None? ==> r.None?
  {
    match parsed
    case None => None
    case Some(d) => save(ProcessedDoc(ServicePolicy(quality, maxDim), env, d))
  }

  /**
   * `compress_with_pikepdf`: `parsed` is the result of opening the input (None
   * when it raises), `save` the size of the written file (None when saving raises).
   */
  method CompressWithPikepdf(parsed: Option<PdfDoc>, env: Env, save: PdfDoc -> Option<nat>, quality: int, maxDim: nat)
    returns (size: Option<nat>)
    requires parsed.Some? ==> WellFormed(parsed.value)
    ensures size == PikepdfResult(parsed, env, save, quality, maxDim)
    ensures parsed.None? ==> size.None?
  {
    if parsed.None? {
      return None;
    }
    var pdf := new Document(parsed.value);
    var imagesProcessed := pdf.CompressImages(ServicePolicy(quality, maxDim), env);
    size := save(pdf.Snapshot());
  }

  /**
   * `compress_pdf`: `ebook` and `screen` are the sizes of the two Ghostscript
   * outputs (None when the subprocess reports failure); the in-process pass
   * runs with quality 45 and bound 700.
   */
  method CompressPdf(originalSize: nat, ebook: Option<nat>, screen: Option<nat>,
                     parsed: Option<PdfDoc>, env: Env, save: PdfDoc -> Option<nat>)
    returns (r: Outcome)
    requires parsed.Some? ==> WellFormed(parsed.value)
    ensures r == SelectBest(originalSize, SuccessfulInOrder(ebook, screen, PikepdfResult(parsed, env, save, 45, 700)))
    ensures r.originalSize == originalSize && r.compressedSize <= originalSize
  {
    var results: seq<Candidate> := [];
    if ebook.Some? {
      results := results + [Candidate(GhostscriptEbook, ebook.value)];
    }
    ghost var afterEbook := results;
    if screen.Some? {
      results := results + [Candidate(GhostscriptScreen, screen.value)];
    }
    ghost var afterScreen := results;
    var pikepdf := CompressWithPikepdf(parsed, env, save, 45, 700);
    if pikepdf.Some? {
      results := results + [Candidate(Pikepdf, pikepdf.value)];
    }
    assert afterEbook == (if ebook.Some? then [Candidate(GhostscriptEbook, ebook.value)] else []);
    assert afterScreen == afterEbook + (if screen.Some? then [Candidate(GhostscriptScreen, screen.value)] else []);
    assert results == afterScreen + (if pikepdf.Some? then [Candidate(Pikepdf, pikepdf.value)] else []);
    if results == [] {
      return Outcome(originalSize, originalSize, None);
    }
    var sorted := SortBySize(results);
    var best := sorted[0];
    if best.size < originalSize {
      r := Outcome(originalSize, best.size, Some(best.strategy));
    } else {
      r := Outcome(originalSize, originalSize, None);
    }
  }
}
