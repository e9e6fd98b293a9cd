/**
 * The scan-and-substitute pass shared by `compress_pdf` (demo.py),
 * `compress_with_pikepdf` (fapi.py, dummy.py) and `compress_images_with_pikepdf`
 * (main.py): walk `pdf.pages -> /Resources -> /XObject`, filter each entry,
 * recode eligible images, and replace an entry in place when the recoded
 * payload is small enough. The variants differ only in the constants
 * gathered in `Policy`.
 */
module ImageScan {
  import opened Base
  import opened PdfModel
  import opened Downscale
  import opened Recoder

  /** How the minimum size applies: skip when either side is small (`or`), or only when both are (`and`). */
  datatype SizeRule = SkipIfEitherSmall | SkipIfBothSmall

  /**
   * Substitute only when `len(new) < raw_size * num/den`, written here as exact
   * integer arithmetic `len * den < raw_size * num`. Python multiplies by a float
   * (0.75, 0.9); 0.75 is exact in binary but 0.9 is not, so at the exact boundary
   * the float product can round either way and the two comparisons can differ.
   */
  datatype Threshold = Threshold(num: nat, den: Pos)

  datatype Policy = Policy(minDim: int, rule: SizeRule, threshold: Threshold, quality: int, maxDim: nat)

  /**
   * The foreign collaborators: `decode` is the container library's `read_bytes()`
   * (the filter-decoded payload, or None when decoding raises); `codec` the imaging library.
   */
  datatype Env = Env(decode: (StreamDict, Bytes) -> Option<Bytes>, codec: Codec)

  /** `int(r)` for a Decimal: truncation toward zero. */
  function Truncate(r: real): (t: int)
    ensures t as real <= r < t as real + 1.0 || t as real - 1.0 < r <= t as real
    ensures 0.0 <= r ==> 0 <= t && t as real <= r < t as real + 1.0
    ensures r <= 0.0 ==> t <= 0 && t as real - 1.0 < r <= t as real
  {
    if r >= 0.0 then r.Floor else -((-r).Floor)
  }

  /**
   * `int(xobj.get(key, 0))`: a missing or null key reads as 0, an integer as
   * itself, a real truncated toward zero, a boolean as 0 or 1; `int()` of a
   * name, string, array or dictionary raises (None).
   */
  function Dimension(d: StreamDict, key: string): (r: Option<int>)
    ensures key !in d || d[key].NullV? ==> r == Some(0)
    ensures r.None? <==> key in d && (d[key].NameV? || d[key].OtherV?)
    ensures key in d && d[key].IntV? ==> r == Some(d[key].i)
    ensures key in d && d[key].RealV? ==> r == Some(Truncate(d[key].r))
    ensures key in d && d[key].BoolV? ==> r == Some(if d[key].b then 1 else 0)
  {
    match Get(d, key)
    case None => Some(0)
    case Some(IntV(i)) => Some(i)
    case Some(RealV(x)) => Some(Truncate(x))
    case Some(BoolV(b)) => Some(if b then 1 else 0)
    case Some(_) => None
  }

  predicate TooSmall(rule: SizeRule, minDim: int, width: int, height: int) {
    match rule
    case SkipIfEitherSmall => width < minDim || height < minDim
    case SkipIfBothSmall => width < minDim && height < minDim
  }

  predicate IsImageStream(obj: Obj) {
    obj.Stream? && Get(obj.dict, "/Subtype") == Some(NameV("/Image"))
  }

  /** The ordered filter: a stream, of subtype Image, with readable dimensions that are not too small. */
  predicate Eligible(p: Policy, obj: Obj) {
    && IsImageStream(obj)
    && Dimension(obj.dict, "/Width").Some?
    && Dimension(obj.dict, "/Height").Some?
    && !TooSmall(p.rule, p.minDim, Dimension(obj.dict, "/Width").value, Dimension(obj.dict, "/Height").value)
  }

  predicate IsDct(d: StreamDict) {
    Get(d, "/Filter") == Some(NameV("/DCTDecode"))
  }

  /** The bytes handed to the recoder: raw bytes of a DCTDecode stream, decoded bytes otherwise. */
  function RecoderInput(env: Env, obj: Obj): Option<Bytes>
    requires obj.Stream?
  {
    if IsDct(obj.dict) then Some(obj.raw) else env.decode(obj.dict, obj.raw)
  }

  /** What `compress_image_data` makes of the entry's bytes, with the policy's quality and bound. */
  function Recode(p: Policy, env: Env, obj: Obj): Option<Recoded>
    requires obj.Stream?
  {
    match RecoderInput(env, obj)
    case None => None
    case Some(image) => CompressImageData(env.codec, image, p.quality, p.maxDim)
  }

  /** `len(compressed) < raw_size * threshold`, strictly. */
  predicate BelowThreshold(t: Threshold, size: nat, rawSize: nat) {
    size * t.den < rawSize * t.num
  }

  /** The stream dictionary of a replacement: a DeviceRGB, 8-bit, DCTDecode image of the recoded size. */
  function JpegDict(size: Dims): StreamDict {
    map[
      "/Type" := NameV("/XObject"),
      "/Subtype" := NameV("/Image"),
      "/Width" := IntV(size.width),
      "/Height" := IntV(size.height),
      "/ColorSpace" := NameV("/DeviceRGB"),
      "/BitsPerComponent" := IntV(8),
      "/Filter" := NameV("/DCTDecode")
    ]
  }

  /**
   * The decision for one entry: Some(new stream) when it is replaced, None when
   * it is skipped. Every `continue` and every caught exception of the loop body
   * is a None here. `if compressed_data` is false for empty bytes, hence `data != []`.
   */
  function ProcessEntry(p: Policy, env: Env, obj: Obj): (r: Option<Obj>)
    ensures r.Some? ==> Eligible(p, obj)
    ensures r.Some? ==> r.value.Stream? && r.value.raw != [] && IsDct(r.value.dict)
  {
    if !Eligible(p, obj) then None
    else
      match Recode(p, env, obj)
      case None => None
      case Some(rec) =>
        if rec.data != [] && BelowThreshold(p.threshold, |rec.data|, |obj.raw|)
        then Some(Stream(JpegDict(rec.size), rec.data))
        else None
  }

  /** The entry after the loop body ran on it. */
  function Processed(p: Policy, env: Env, obj: Obj): Obj {
    match ProcessEntry(p, env, obj)
    case Some(o) => o
    case None => obj
  }

  /** One /XObject dictionary after the inner loop: same names, each entry processed once. */
  function ProcessXObjects(p: Policy, env: Env, xo: XObjects): (r: XObjects)
    ensures r.Keys == xo.Keys
  {
    map n | n in xo :: Processed(p, env, xo[n])
  }

  /** The names whose entries the inner loop replaces. */
  function ReplacedNames(p: Policy, env: Env, xo: XObjects): (r: set<string>)
    ensures r <= xo.Keys
  {
    set n | n in xo && ProcessEntry(p, env, xo[n]).Some?
  }

  /** The table of /XObject dictionaries and the substitution counter while the pass runs. */
  datatype PassState = PassState(table: map<DictId, XObjects>, count: nat)

  /** The outer loop body for one page: a page without /Resources or /XObject is skipped. */
  function StepPage(p: Policy, env: Env, page: Page, s: PassState): (r: PassState)
    requires XObjectRef(page).Some? ==> XObjectRef(page).value in s.table
    ensures r.table.Keys == s.table.Keys
    ensures forall id :: id in s.table ==> r.table[id].Keys == s.table[id].Keys
    ensures r.count >= s.count
  {
    match XObjectRef(page)
    case None => s
    case Some(id) =>
      PassState(s.table[id := ProcessXObjects(p, env, s.table[id])],
                s.count + |ReplacedNames(p, env, s.table[id])|)
  }

  /** The whole pass over `pages`, in page order, starting from `table` and a zero counter. */
  function RunPass(p: Policy, env: Env, pages: seq<Page>, table: map<DictId, XObjects>): (r: PassState)
    requires RefsResolve(pages, table)
    ensures r.table.Keys == table.Keys
    ensures forall id :: id in table ==> r.table[id].Keys == table[id].Keys
    decreases |pages|
  {
    if pages == [] then PassState(table, 0)
    else
      var s := RunPass(p, env, pages[..|pages| - 1], table);
      StepPage(p, env, pages[|pages| - 1], s)
  }

  /** The pass over a non-empty page list is the pass over all but the last page, then the last page. */
  lemma LastPage(p: Policy, env: Env, pages: seq<Page>, table: map<DictId, XObjects>)
    requires RefsResolve(pages, table) && pages != []
    ensures RefsResolve(pages[..|pages| - 1], table)
    ensures RunPass(p, env, pages, table)
              == StepPage(p, env, pages[|pages| - 1], RunPass(p, env, pages[..|pages| - 1], table))
  {
  }

  /** The document after the pass. */
  function ProcessedDoc(p: Policy, env: Env, d: PdfDoc): (r: PdfDoc)
    requires WellFormed(d)
    ensures WellFormed(r) && r.pages == d.pages && r.xobjects.Keys == d.xobjects.Keys
  {
    PdfDoc(d.pages, RunPass(p, env, d.pages, d.xobjects).table)
  }

  /** The number of substitutions the pass makes on `d`. */
  function ReplacedCount(p: Policy, env: Env, d: PdfDoc): nat
    requires WellFormed(d)
  {
    RunPass(p, env, d.pages, d.xobjects).count
  }

  /** The dictionary while the inner loop runs: the names in `todo` are not yet visited. */
  function PartlyProcessed(p: Policy, env: Env, xo: XObjects, todo: set<string>): (r: XObjects)
    ensures r.Keys == xo.Keys
  {
    map n | n in xo :: if n in todo then xo[n] else Processed(p, env, xo[n])
  }

  /** The names replaced so far: visited, and replaced when visited. */
  function ReplacedOutside(p: Policy, env: Env, xo: XObjects, todo: set<string>): set<string> {
    set n | n in xo && n !in todo && ProcessEntry(p, env, xo[n]).Some?
  }

  /** Visiting one more name updates at most the entry under that name. */
  lemma VisitOne(p: Policy, env: Env, xo: XObjects, todo: set<string>, name: string)
    requires name in todo && todo <= xo.Keys
    ensures var e := ProcessEntry(p, env, xo[name]);
            PartlyProcessed(p, env, xo, todo - {name})
              == if e.Some? then PartlyProcessed(p, env, xo, todo)[name := e.value] else PartlyProcessed(p, env, xo, todo)
  {
  }

  /** Visiting one more name adds it to the replaced names exactly when it is replaced. */
  lemma VisitOneCount(p: Policy, env: Env, xo: XObjects, todo: set<string>, name: string)
    requires name in todo && todo <= xo.Keys
    ensures var e := ProcessEntry(p, env, xo[name]);
            && name !in ReplacedOutside(p, env, xo, todo)
            && ReplacedOutside(p, env, xo, todo - {name})
                 == if e.Some? then ReplacedOutside(p, env, xo, todo) + {name} else ReplacedOutside(p, env, xo, todo)
  {
  }

  /** Before the inner loop nothing is processed; after it, everything is. */
  lemma LoopEnds(p: Policy, env: Env, xo: XObjects)
    ensures PartlyProcessed(p, env, xo, xo.Keys) == xo && ReplacedOutside(p, env, xo, xo.Keys) == {}
    ensures PartlyProcessed(p, env, xo, {}) == ProcessXObjects(p, env, xo)
    ensures ReplacedOutside(p, env, xo, {}) == ReplacedNames(p, env, xo)
  {
  }

  /**
   * The inner loop `for name in list(xobjects.keys())`: the key set is taken
   * before the loop, each name is visited once in some order, and only the
   * entry under the current name is reassigned.
   */
  method SubstituteImages(p: Policy, env: Env, xobjects: XObjects) returns (updated: XObjects, replaced: nat)
    ensures updated == ProcessXObjects(p, env, xobjects)
    ensures replaced == |ReplacedNames(p, env, xobjects)|
  {
    updated, replaced := xobjects, 0;
    var todo := xobjects.Keys;
    LoopEnds(p, env, xobjects);
    while todo != {}
      invariant todo <= xobjects.Keys
      invariant updated == PartlyProcessed(p, env, xobjects, todo)
      invariant replaced == |ReplacedOutside(p, env, xobjects, todo)|
      decreases |todo|
    {
      var name :| name in todo;
      VisitOne(p, env, xobjects, todo, name);
      VisitOneCount(p, env, xobjects, todo, name);
      var entry := ProcessEntry(p, env, updated[name]);
      if entry.Some? {
        updated := updated[name := entry.value];
        replaced := replaced + 1;
      }
      todo := todo - {name};
    }
  }

  /** A PDF document opened for the pass: its page list and its /XObject dictionaries by identity. */
  class Document {
    var pages: seq<Page>
    var xobjects: map<DictId, XObjects>

    ghost predicate Valid()
      reads this
    {
      RefsResolve(pages, xobjects)
    }

    function Snapshot(): PdfDoc
      reads this
    {
      PdfDoc(pages, xobjects)
    }

    /** `pikepdf.open`: the document as parsed. */
    constructor (d: PdfDoc)
      requires WellFormed(d)
      ensures Valid() && Snapshot() == d
    {
      pages, xobjects := d.pages, d.xobjects;
    }

    /**
     * The pass: for each page in order, the inner loop over its /XObject
     * dictionary (if any), counting substitutions. The page list is not
     * changed; only the dictionaries are.
     */
    method CompressImages(p: Policy, env: Env) returns (count: nat)
      requires Valid()
      modifies this
      ensures Valid()
      ensures Snapshot() == ProcessedDoc(p, env, old(Snapshot()))
      ensures count == ReplacedCount(p, env, old(Snapshot()))
    {
      count := 0;
      var i := 0;
      while i < |pages|
        invariant 0 <= i <= |pages|
        invariant pages == old(pages)
        invariant xobjects.Keys == old(xobjects).Keys
        invariant RefsResolve(pages[..i], old(xobjects))
        invariant RunPass(p, env, pages[..i], old(xobjects)) == PassState(xobjects, count)
        decreases |pages| - i
      {
        assert pages[..i + 1][..i] == pages[..i];
        LastPage(p, env, pages[..i + 1], old(xobjects));
        var ref := XObjectRef(pages[i]);
        if ref.Some? {
          var updated, replaced := SubstituteImages(p, env, xobjects[ref.value]);
          xobjects := xobjects[ref.value := updated];
          count := count + replaced;
        }
        i := i + 1;
      }
      assert pages[..|pages|] == pages;
    }
  }
}
