# pdf-compress, modelled in Dafny

`pdf-compress` shrinks PDF files by recompressing their embedded images. This
project models the decision logic around the image library (PIL) and the PDF
library (pikepdf), as it appears in four scripts:

- **The scan-and-substitute pass.** It walks `pdf.pages -> /Resources -> /XObject`.
  Each entry goes through an ordered filter: it must be a stream, of subtype
  /Image, with readable `/Width`/`/Height` that are not too small. A missing
  dimension counts as 0. An eligible entry is recoded to JPEG and replaced in
  place when the new payload is strictly smaller than `raw_size * threshold`.
  A counter records the substitutions. The three variants differ only in their
  constants, which are captured by `Policy`:
  - demo.py: either side below 50 skips the entry; the threshold is 0.75.
  - fapi.py and dummy.py: either side below 50 skips the entry; the threshold is 0.9.
  - main.py: the entry is skipped only when both sides are below 100; the threshold is 0.9.
- **The size arithmetic of `compress_image_data`** (the downscale).
- **Result selection.**
  - fapi.py and dummy.py run up to three strategies, sort the successful ones
    stably by size, and keep the first one when it beats the original.
  - demo.py has a single candidate.
- **main.py's adaptive retry.** A second, more aggressive pass runs when the
  first one reduced the size by less than half the target and substituted at
  least one image.
- **`get_non_overwriting_path`.** It picks the first free `stem_k.suffix`, for k >= 1.

## How the model is built

- **Modules.**
  - `PdfModel`: the object graph.
  - `Downscale`, `Recoder`: `compress_image_data`.
  - `ImageScan`: the pass, a `Document` class with its loops.
  - `ScanProperties`: what the pass guarantees.
  - `Selection`, `Policies`: shared pieces.
  - `Demo`, `Fapi`, `MainScript`: one each for demo.py, fapi.py/dummy.py and main.py's `compress_pdf`.
  - `OutputNaming`: the file naming.
- **The document.** A document is a page list plus a table of /XObject
  dictionaries keyed by identity. A page refers to its dictionary by id, which
  lets several pages share one dictionary, as indirect objects do in a PDF.
- **The pass.** `Document.CompressImages` and `SubstituteImages` are the two
  nested loops of the source. `SubstituteImages` reassigns one entry per name,
  visiting the names of a key snapshot in any order. Both are proved equal to
  the functions `ProcessedDoc`/`ProcessXObjects` and `ReplacedCount`/`ReplacedNames`.
- **Libraries as oracles.** The libraries are values of function type.
  - `Codec.open`: PIL decoding plus colour normalisation. It yields the image
    size, or None when the bytes are not an image.
  - `Codec.encode`: resampling plus the JPEG encoder. It yields the bytes, or
    None when encoding fails.
  - `Env.decode`: pikepdf's `read_bytes()`.
- **Sizes of saved files are parameters.**
  - demo.py: `save`, the size of the temporary file.
  - fapi.py: `save` as an `Option`, because a save that raises makes
    `compress_with_pikepdf` return False.
  - main.py: `finish`, the size after the fitz rewrite and the final linearized save.
- **Ghostscript.** Its two runs are their optional output sizes (None: the run failed).
- **The directory.** The directory that `get_non_overwriting_path` consults is
  the finite set of names it holds.
- **Exact arithmetic.** Thresholds and ratios are exact rationals.
  - `len * den < raw * num` stands for `len < raw * 0.9`.
  - The downscale is floor division of the exact product.
  - Python uses floats. The difference matters only at exact boundaries. The
    comments in `ImageScan` and `Downscale` say where.

dummy.py's `compress_with_pikepdf` and `compress_pdf` are the same code as
fapi.py's, so `Fapi` models both. The rows below cite fapi.py, and the
corresponding dummy.py lines are 116-187 and 190-235.

## Model

| member | source | states |
|---|---|---|
| PdfModel.Get | pdf-compress/demo.py:339 | `xobj.get(key)` finds a value exactly when the key is present with a non-null value (a null value counts as absent, as in a PDF dictionary), and it is the stored value |
| Downscale.FitWithin | pdf-compress/demo.py:296-300 | an image within the bound keeps its size; one over the bound fails when a side is 0 (the division by zero raises) or when a scaled side truncates to 0 (`resize` rejects it), and otherwise fits the bound with both sides positive, no side grows, and one side reaches the bound exactly |
| Downscale.Within | pdf-compress/demo.py:297 | no contract; neither side exceeds the bound, the negation of `width > max_dimension or height > max_dimension` |
| Downscale.FlatImageFails | pdf-compress/demo.py:298-300 | a 5000 by 3 image with bound 700 would be resized to 700 by 0, so it cannot be recoded |
| Downscale.Scaled | pdf-compress/fapi.py:116-120 | scaling an oversized image by `min(M/w, M/h)` with truncation gives a size within the bound, never larger on either side, and equal to the bound on the longer side (on the width when the sides are equal) |
| Downscale.ScaleSide | pdf-compress/main.py:39 | `int(side * M/den)` is at most M when the side is at most den, exactly M for the side that is den, and never above the side when M <= den |
| Downscale.LongerSideDenominator | pdf-compress/main.py:38 | the ratio `min(M/w, M/h)` divides by the longer side (or by either when the bound is 0), and never by zero |
| Recoder.CompressImageData | pdf-compress/demo.py:280-307 | a result exists if and only if the bytes open as an image, the downscale succeeds and the encoder succeeds at that size; its size is exactly the downscale's result (the opened size when that fits the bound), no larger on either side, with both sides positive when downscaled, and its bytes are the encoder's output for that size and quality |
| PdfModel.XObjectRef | pdf-compress/demo.py:325-331 | no contract; the /XObject dictionary a page names, absent when the page has no /Resources or they have no /XObject |
| ImageScan.Truncate | pdf-compress/demo.py:342-343 | `int()` of a Decimal truncates toward zero: the result is within 1 of the real, on the same side of zero, and not farther from zero |
| ImageScan.Dimension | pdf-compress/demo.py:342-343 | `int(xobj.get(key, 0))`: a missing key or a null value reads as 0, an integer as itself, a real truncated toward zero, a boolean as 0 or 1, and it fails exactly on a name, string, array or dictionary |
| ImageScan.TooSmall | pdf-compress/main.py:79 | no contract; the size test, `width < min or height < min` for the either-side rule and `width < min and height < min` for the both-sides rule |
| ImageScan.IsImageStream | pdf-compress/demo.py:336-340 | no contract; the entry is a stream whose /Subtype is /Image |
| ImageScan.Eligible | pdf-compress/demo.py:336-346 | no contract; the ordered filter: an image stream with readable dimensions that the policy's size test does not call too small |
| ImageScan.IsDct | pdf-compress/demo.py:351-352 | no contract; the stream's /Filter is /DCTDecode |
| ImageScan.RecoderInput | pdf-compress/demo.py:351-355 | no contract; the raw bytes of a DCTDecode stream and the decoded bytes (or a failure) of any other |
| ImageScan.Recode | pdf-compress/demo.py:357-359 | no contract; `compress_image_data` on the recoder input with the policy's quality and bound, failing when the input fails |
| ImageScan.BelowThreshold | pdf-compress/demo.py:363 | no contract; `len < raw_size * num/den` in exact integers, strictly |
| ImageScan.JpegDict | pdf-compress/demo.py:365-372 | no contract; the replacement's dictionary, whose entries `JpegDictEntries` lists |
| ImageScan.ProcessEntry | pdf-compress/demo.py:334-381 | the loop body for one entry: a replacement happens only for an eligible entry, and it is a DCTDecode stream with a non-empty payload (its exact condition and shape are `SubstitutionIff` and `ReplacementShape`) |
| ImageScan.Processed | pdf-compress/demo.py:374 | no contract; the entry after the loop body: the replacement if there is one, the entry itself otherwise |
| ImageScan.ProcessXObjects | pdf-compress/demo.py:333-381 | the inner loop keeps the set of names of the /XObject dictionary |
| ImageScan.ReplacedNames | pdf-compress/demo.py:374-375 | the replaced names are names of the dictionary |
| ImageScan.StepPage | pdf-compress/demo.py:324-333 | one page's step keeps every dictionary's name set and never lowers the counter |
| ImageScan.RunPass | pdf-compress/demo.py:324-381 | the pass over the pages keeps the table of dictionaries and each dictionary's names |
| ImageScan.LastPage | pdf-compress/demo.py:324 | pages are taken in order: the pass over n+1 pages is the pass over the first n followed by the step for the last |
| ImageScan.ReplacedCount | pdf-compress/main.py:56-123 | no contract; the counter at the end of the pass (`CountAtMostVisited` bounds it, `DistinctRefsProcessedOnce` sums it) |
| ImageScan.ProcessedDoc | pdf-compress/demo.py:321-388 | the processed document keeps its page list and its dictionary identities, and its references still resolve |
| ImageScan.SubstituteImages | pdf-compress/demo.py:333-375 | the loop over a snapshot of the names, in any order, ends with every entry processed once from its original value, and counts exactly the replaced names |
| ImageScan.Document.constructor | pdf-compress/demo.py:321 | the opened document holds the input's pages and dictionaries |
| ImageScan.Document.CompressImages | pdf-compress/demo.py:321-381 | the page loop leaves the document equal to `ProcessedDoc` of the old document and returns `ReplacedCount`; the page list is unchanged |
| ScanProperties.NonImageUntouched | pdf-compress/demo.py:336-340 | a non-stream entry, or a stream whose /Subtype is not /Image, is never replaced |
| ScanProperties.SmallImageUntouched | pdf-compress/fapi.py:154-158 | an image that the size rule calls too small is never replaced, whatever the other parameters and collaborators |
| ScanProperties.MissingDimensionIsZero | pdf-compress/main.py:76-80 | a missing /Width or /Height reads as 0; under the either-side rule that alone skips the image, under the both-sides rule two missing dimensions do |
| ScanProperties.UnreadableDimensionSkipped | pdf-compress/dummy.py:140-141 | a /Width or /Height that is a name, string, array or dictionary makes `int(...)` raise, and the entry is skipped |
| ScanProperties.NullDimensionIsZero | pdf-compress/main.py:76-80 | a null /Width reads as the default 0: with height 200 the image stays eligible under the both-sides rule (minimum up to 200) and is skipped under the either-side rule |
| ScanProperties.RealDimensionTruncated | pdf-compress/fapi.py:154-155 | a real /Width is truncated, not rejected: 612.5 by 792 reads as 612 and passes any minimum up to 612 |
| ScanProperties.SubstitutionIff | pdf-compress/demo.py:363 | an eligible entry is replaced if and only if the recoder returns non-empty data with `len * den < raw_size * num` |
| ScanProperties.SuccessfulRecodeReplaces | pdf-compress/demo.py:351-375 | an eligible image whose decoding, opening, downscale and encoding all succeed, with non-empty data below the threshold, is replaced by the JPEG stream of that data at the downscaled size |
| ScanProperties.NoSubstitutionAtBoundary | pdf-compress/fapi.py:173 | a payload exactly at `raw_size * threshold` is not substituted (the comparison is strict) |
| ScanProperties.FailedRecodeSkipped | pdf-compress/fapi.py:160-187 | when `read_bytes()` raises on a non-DCT stream, or the recoder fails, the entry is left as it was |
| ScanProperties.ReplacementShape | pdf-compress/demo.py:363-375 | a replacement is the stream built from the recoded bytes, non-empty and below the threshold, with a dictionary for the recoded size (which fits the bound or is the decoded size); it is shorter than the old raw payload whenever the threshold is at most 1 |
| ScanProperties.JpegDictEntries | pdf-compress/demo.py:365-372 | the replacement dictionary has exactly /Type /XObject, /Subtype /Image, the recoded /Width and /Height, /ColorSpace /DeviceRGB, /BitsPerComponent 8 and /Filter /DCTDecode |
| ScanProperties.DctIgnoresDecoder | pdf-compress/demo.py:351-353 | a DCTDecode stream reaches the recoder as its raw bytes, so its outcome does not depend on `read_bytes()` |
| ScanProperties.OtherFiltersUseDecodedBytes | pdf-compress/main.py:83-89 | any other stream reaches the recoder as its decoded bytes; two such streams with the same decoding and raw length get the same outcome |
| ScanProperties.NoReplacedNamesIdentity | pdf-compress/demo.py:374 | when no name is replaced, the dictionary comes out identical |
| ScanProperties.NoImagesNoReplacedNames | pdf-compress/dummy.py:133-138 | a dictionary without image streams has no replaced names and is left as it was |
| ScanProperties.EntriesIndependent | pdf-compress/fapi.py:186-190 | each entry is decided on its own: changing one entry, even to one whose handling fails, does not change the outcome under any other name, and a failing entry stays as it is |
| ScanProperties.UnreferencedUnchanged | pdf-compress/demo.py:324-331 | a dictionary named by no page (all pages lack /Resources or /XObject or name another one) is unchanged by the pass |
| ScanProperties.DistinctRefsProcessedOnce | pdf-compress/main.py:58-106 | when no two pages share a dictionary, each named dictionary is processed exactly once from its original contents, and the counter is the sum of the names replaced in each page's dictionary |
| ScanProperties.SharedDictionaryProcessedTwice | pdf-compress/demo.py:324-333 | a dictionary shared by two consecutive pages is processed once per page: the second visit starts from the first visit's replacements, and both visits add to the counter |
| ScanProperties.CountAtMostVisited | pdf-compress/main.py:106 | the counter never exceeds the number of entries visited across the pages |
| ScanProperties.ZeroCountNoChange | pdf-compress/main.py:105-106 | a pass whose counter stays 0 leaves every dictionary as it was |
| ScanProperties.NoImagesNoChange | pdf-compress/demo.py:324-381 | a document without image streams comes out of the pass unchanged, with a zero counter |
| ScanProperties.EntriesOriginalOrJpeg | pdf-compress/dummy.py:160-170 | after the pass, every original name is still present, and its entry is the original or a JPEG replacement with a non-empty payload |
| ScanProperties.StepPageVisits | pdf-compress/demo.py:331-333 | a page with an /XObject dictionary has that dictionary processed by its step |
| ScanProperties.StepPageSkips | pdf-compress/demo.py:325-329 | a page's step leaves every dictionary the page does not name as it was |
| Selection.Insert | pdf-compress/fapi.py:232 | inserting into a sorted list gives a sorted list one longer, headed by the new item when it is at most the old head |
| Selection.InsertPermutes | pdf-compress/fapi.py:232 | insertion adds the item and loses nothing |
| Selection.SortBySize | pdf-compress/fapi.py:232 | `results.sort(key=size)` gives a list sorted by size of the same length |
| Selection.SortPermutes | pdf-compress/dummy.py:224 | the sort is a permutation of the candidates |
| Selection.FirstMinIndex | pdf-compress/fapi.py:233 | the position found has the minimum size, and every earlier position is strictly larger |
| Selection.FirstMinUnique | pdf-compress/fapi.py:233 | there is only one first position of minimum size |
| Selection.SortedHeadIsFirstMin | pdf-compress/dummy.py:224-225 | the head of the stable sort is the earliest candidate of minimum size |
| Selection.SelectBest | pdf-compress/fapi.py:228-240 | no candidates gives (original, original); a strategy is chosen if and only if some candidate is strictly smaller than the original, and it is the earliest minimum; otherwise the original is kept; the reported size is never above the original |
| Selection.SuccessfulInOrder | pdf-compress/fapi.py:213-226 | the candidate list holds exactly the strategies that succeeded, with their sizes, in the order ebook, screen, pikepdf, and at most three of them |
| Selection.TieGoesToEarlier | pdf-compress/dummy.py:224-229 | when the ebook and screen outputs tie as the smallest, the ebook output wins |
| Selection.SelectSingle | pdf-compress/demo.py:390-397 | the temporary file is kept if and only if it is strictly smaller; otherwise the original is reported; the reported size never exceeds the original |
| Selection.SingleIsBestOfOne | pdf-compress/demo.py:392-397 | the single-candidate choice is the best-of-N choice over the one candidate |
| Policies.DemoPolicy | pdf-compress/demo.py:345 | no contract; the constants of demo.py: minimum 50, either-side rule, threshold 75/100 |
| Policies.ServicePolicy | pdf-compress/fapi.py:157 | no contract; the constants of fapi.py and dummy.py: minimum 50, either-side rule, threshold 9/10 |
| Policies.BatchPolicy | pdf-compress/main.py:79 | no contract; the constants of main.py: minimum 100, both-sides rule, threshold 9/10 |
| Policies.DemoReplacesOnlyWhatServiceReplaces | pdf-compress/demo.py:363 | with the same quality and bound, every entry demo.py replaces (below 0.75) is replaced by fapi.py (below 0.9) with the same stream |
| Policies.EitherRuleSkipsMore | pdf-compress/main.py:79 | the both-sides rule skips only what the either-side rule skips, and the two differ exactly when one side is small and the other is not |
| Policies.WideBannerEligibleOnlyInBatch | pdf-compress/main.py:79-80 | a 150 by 20 image is skipped by the web service's filter but eligible in main.py's |
| Demo.CompressPdf | pdf-compress/demo.py:312-401 | the result is the single-candidate choice between the original size and the size of the saved, processed document; the reported size is never above the original |
| Fapi.PikepdfResult | pdf-compress/fapi.py:130-201 | the outcome of `compress_with_pikepdf` as a value: a failed open is a failure; otherwise the saved size of the processed document |
| Fapi.CompressWithPikepdf | pdf-compress/fapi.py:130-201 | the pass reports failure when the document cannot be opened, and otherwise the size from saving the processed document (failure when saving raises) |
| Fapi.CompressPdf | pdf-compress/fapi.py:204-243 | the result is the best-of-N choice over the successful strategies in the order ebook, screen, pikepdf (quality 45, bound 700); the reported size is never above the original |
| MainScript.Reduction | pdf-compress/main.py:167 | the reduction lies between 0 and 1 when the output is no larger, is positive when it is smaller, and is at most 0 when it is no smaller, and is 0 for an empty original |
| MainScript.Less | pdf-compress/main.py:169 | no contract; `a < b` on exact ratios, by cross-multiplying with the positive denominators |
| MainScript.Half | pdf-compress/main.py:169 | no contract; `target_reduction * 0.5`, the target's denominator doubled |
| MainScript.ShouldRetry | pdf-compress/main.py:169 | no contract; reduction below half the target and at least one image substituted (`RetryCondition` restates it in integers) |
| MainScript.RetryCondition | pdf-compress/main.py:167-169 | the retry test in integers: for a non-empty original, `2 * den * (original - compressed) < num * original` with an image substituted; for an empty one, a positive target with an image substituted |
| MainScript.DefaultTargetRetry | pdf-compress/main.py:141-169 | with the default target 0.25, the second pass runs exactly when an image was substituted and the result is above 7/8 of the original |
| MainScript.NoImagesNoRetry | pdf-compress/main.py:169 | without a substituted image there is no second pass |
| MainScript.GrowthRetries | pdf-compress/main.py:166-169 | a first result no smaller than the original triggers the second pass whenever the target is positive and an image was substituted |
| MainScript.CompressImagesWithPikepdf | pdf-compress/main.py:53-123 | returns the processed document under the both-sides/100/0.9 rules and the number of substitutions |
| MainScript.CompressPdf | pdf-compress/main.py:141-194 | the first pass uses quality 65 and bound 1200; the second pass (45, 900, again from the input) runs exactly when the retry test holds; the reported size is that of whichever pass ended last, with no cap at the original |
| OutputNaming.DigitChar | pdf-compress/demo.py:434 | a decimal digit's character has that digit's value |
| OutputNaming.NatToString | pdf-compress/demo.py:434 | `f"{counter}"` is a non-empty string of digits without a leading zero |
| OutputNaming.ParseNatToString | pdf-compress/demo.py:434 | reading the numeral back gives the counter |
| OutputNaming.NatToStringInjective | pdf-compress/demo.py:434 | different counters have different numerals |
| OutputNaming.LastDot | pdf-compress/demo.py:429 | the position found holds a dot and no later position does, or there is no dot |
| OutputNaming.Suffix | pdf-compress/demo.py:429 | the suffix is empty, or a dot followed by at least one character and no further dot |
| OutputNaming.Stem | pdf-compress/dummy.py:251 | the stem is empty only for an empty name |
| OutputNaming.StemSuffix | pdf-compress/dummy.py:251-252 | the name is its stem followed by its suffix, and the suffix is empty exactly when the name has none |
| OutputNaming.HasSuffix | pdf-compress/demo.py:429 | no contract; pathlib's rule: the last dot is neither the first nor the last character |
| OutputNaming.Numbered | pdf-compress/demo.py:434 | `f"{stem}_{counter}{suffix}"` is one underscore and the numeral longer than the name, so it never equals the name |
| OutputNaming.NumberedInjective | pdf-compress/dummy.py:257 | different counters give different candidate names |
| OutputNaming.NonOverwritingPath | pdf-compress/demo.py:420-437 | the result never exists; it is the name itself when that is free, and otherwise `stem_k.suffix` for the least k >= 1 whose name is free |

## Left out

- PIL's decoding, alpha flattening, palette conversion, LANCZOS resampling and JPEG encoding (`compress_image_data` apart from its size arithmetic). They are a foreign library, so they are oracles (`Codec`).
- pikepdf's parsing, `read_raw_bytes`/`read_bytes` internals and serialization, and the fitz rewrite in main.py. They are foreign libraries, so each saved size is a parameter.
- The Ghostscript runs (fapi.py:35-97, dummy.py:21-83). They are external processes, so only their optional output size is modelled.
- The FastAPI routes, upload handling and static files of fapi.py. They are network plumbing.
- The filesystem: temporary files, `copy2`, `rmtree`, `getsize`, `setup_folders`, and the printing of `process_all_pdfs`/`compress_single_pdf`. Sizes are inputs, and a directory is a set of names.
- `format_size` and the printed percentages. These are float formatting.
- The commented-out first copy of demo.py (lines 1-233). It is not live code.
- Exceptions that demo.py and main.py do not catch. These are an open that raises, demo.py's `pdf.save` (demo.py:383-388), and main.py's saves, fitz rewrite and reopen (main.py:114-120, 150-160, 171-186). The model requires a parsed document and treats `save` and `finish` as total, so it does not capture the exception these scripts would then propagate.
- An exception while reading a page's `/Resources` or `/XObject`. That code is outside the per-entry `try`. The model treats pages as well formed: `WellFormed` requires every /XObject reference to resolve.
- The order of `xobjects.keys()`. `SubstituteImages` visits names in an arbitrary order, and its result is proved to be the same for every order.
- `Downscale.FitWithin`: does not model Python's floating-point ratio, because the model uses exact rationals. `int(w * (M / w))` can come out one below the exact value, so the bound proved here holds for the exact computation only.
- `ImageScan.ProcessEntry`: does not model the threshold's float product. `len * den < raw * num` is exact, while `raw * 0.9` is rounded, so the two can differ at the exact boundary.
- `MainScript.CompressPdf`: does not model the float reduction and `target * 0.5`, because they are compared as exact rationals. The method also reports whether the retry ran (`retried`), which the source does not return.
- `MainScript.CompressPdf`: makes no non-growth claim, because the source has no fallback to the original and the reported size may exceed it (`GrowthRetries` shows that growth triggers the retry).
- `Selection.SortBySize`: stability is stated only through its head (`SortedHeadIsFirstMin`), which is the only element `compress_pdf` reads. The order of the other elements follows from the sort, but no lemma states it.
- `OutputNaming.NonOverwritingPath`: the parent directory is not modelled, since all names are taken within it. `Suffix` and `Stem` follow `pathlib`'s rule that a suffix starts at the last dot, which is neither the first nor the last character.
