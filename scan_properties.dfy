/**
 * What the scan-and-substitute pass guarantees: which entries it leaves alone,
 * when it substitutes, what a replacement looks like, and how the whole pass
 * over the pages treats the /XObject dictionaries and the counter.
 */
module ScanProperties {
  import opened Base
  import opened PdfModel
  import opened Downscale
  import opened Recoder
  import opened ImageScan

  // ---------------------------------------------------------------------------
  // One entry

  /** A non-stream entry, or a stream whose /Subtype is not /Image, is left untouched. */
  lemma NonImageUntouched(p: Policy, env: Env, obj: Obj)
    requires !obj.Stream? || Get(obj.dict, "/Subtype") != Some(NameV("/Image"))
    ensures ProcessEntry(p, env, obj).None?
    ensures Processed(p, env, obj) == obj
  {
  }

  /**
   * An image below the minimum size is never substituted, whatever the
   * quality, bound, threshold or collaborators.
   */
  lemma SmallImageUntouched(p: Policy, env: Env, obj: Obj, width: int, height: int)
    requires obj.Stream?
    requires Dimension(obj.dict, "/Width") == Some(width) && Dimension(obj.dict, "/Height") == Some(height)
    requires TooSmall(p.rule, p.minDim, width, height)
    ensures ProcessEntry(p, env, obj).None?
  {
  }

  /**
   * A missing /Width or /Height reads as 0; under the `or` rule with a positive
   * minimum that alone skips the image, under the `and` rule the other side decides.
   */
  lemma MissingDimensionIsZero(p: Policy, env: Env, obj: Obj)
    requires obj.Stream? && ("/Width" !in obj.dict || "/Height" !in obj.dict)
    ensures "/Width" !in obj.dict ==> Dimension(obj.dict, "/Width") == Some(0)
    ensures "/Height" !in obj.dict ==> Dimension(obj.dict, "/Height") == Some(0)
    ensures p.rule == SkipIfEitherSmall && p.minDim > 0 ==> ProcessEntry(p, env, obj).None?
    ensures (p.rule == SkipIfBothSmall && p.minDim > 0 && "/Width" !in obj.dict && "/Height" !in obj.dict)
            ==> ProcessEntry(p, env, obj).None?
  {
  }

  /**
   * A /Width or /Height that is a name, string, array or dictionary makes
   * `int(...)` raise: the entry is skipped.
   */
  lemma UnreadableDimensionSkipped(p: Policy, env: Env, obj: Obj, key: string)
    requires obj.Stream? && (key == "/Width" || key == "/Height")
    requires key in obj.dict && (obj.dict[key].NameV? || obj.dict[key].OtherV?)
    ensures ProcessEntry(p, env, obj).None?
  {
  }

  /**
   * A null /Width reads as the default 0, like a missing one: under the
   * both-sides rule an image of null width and height 200 stays eligible.
   */
  lemma NullDimensionIsZero(p: Policy, obj: Obj)
    requires IsImageStream(obj)
    requires "/Width" in obj.dict && obj.dict["/Width"] == NullV && Get(obj.dict, "/Height") == Some(IntV(200))
    ensures Dimension(obj.dict, "/Width") == Some(0)
    ensures p.rule == SkipIfBothSmall && p.minDim <= 200 ==> Eligible(p, obj)
    ensures p.rule == SkipIfEitherSmall && p.minDim > 0 ==> !Eligible(p, obj)
  {
  }

  /**
   * A real /Width is truncated, not rejected: an image of width 612.5 and
   * height 792 reads as 612 by 792 and passes any minimum of at most 612.
   */
  lemma RealDimensionTruncated(p: Policy, obj: Obj)
    requires IsImageStream(obj)
    requires Get(obj.dict, "/Width") == Some(RealV(612.5)) && Get(obj.dict, "/Height") == Some(IntV(792))
    ensures Dimension(obj.dict, "/Width") == Some(612)
    ensures p.minDim <= 612 ==> Eligible(p, obj)
  {
    assert (612.5).Floor == 612;
  }

  /**
   * For an entry past the filter, substitution happens exactly when the recoder
   * returns non-empty data strictly below the threshold.
   */
  lemma SubstitutionIff(p: Policy, env: Env, obj: Obj)
    requires Eligible(p, obj)
    ensures ProcessEntry(p, env, obj).Some? <==>
              && Recode(p, env, obj).Some?
              && Recode(p, env, obj).value.data != []
              && |Recode(p, env, obj).value.data| * p.threshold.den < |obj.raw| * p.threshold.num
  {
  }

  /**
   * An eligible image whose library calls all succeed, and whose new payload is
   * non-empty and below the threshold, is replaced by the JPEG stream of that
   * payload at the downscaled size.
   */
  lemma SuccessfulRecodeReplaces(p: Policy, env: Env, obj: Obj, image: Bytes, decoded: Dims, size: Dims, data: Bytes)
    requires Eligible(p, obj) && RecoderInput(env, obj) == Some(image)
    requires env.codec.open(image) == Some(decoded) && FitWithin(decoded, p.maxDim) == Some(size)
    requires env.codec.encode(image, size, p.quality) == Some(data)
    requires data != [] && |data| * p.threshold.den < |obj.raw| * p.threshold.num
    ensures ProcessEntry(p, env, obj) == Some(Stream(JpegDict(size), data))
  {
  }

  /** Exactly at the threshold (`len == raw_size * threshold`) nothing is substituted. */
  lemma NoSubstitutionAtBoundary(p: Policy, env: Env, obj: Obj)
    requires obj.Stream? && Recode(p, env, obj).Some?
    requires |Recode(p, env, obj).value.data| * p.threshold.den == |obj.raw| * p.threshold.num
    ensures ProcessEntry(p, env, obj).None?
  {
  }

  /** When the recoder fails (None), or `read_bytes()` raises on a non-DCT stream, nothing changes. */
  lemma FailedRecodeSkipped(p: Policy, env: Env, obj: Obj)
    requires obj.Stream?
    requires Recode(p, env, obj).None? || (!IsDct(obj.dict) && env.decode(obj.dict, obj.raw).None?)
    ensures ProcessEntry(p, env, obj).None?
  {
  }

  /**
   * A replacement is the JPEG image stream built from the recoded bytes and
   * the recoded size, which fits the bound or is the decoded image's own size;
   * its payload is below the threshold, hence shorter than the original raw
   * payload whenever the threshold is at most 1.
   */
  lemma ReplacementShape(p: Policy, env: Env, obj: Obj)
    requires ProcessEntry(p, env, obj).Some?
    ensures Eligible(p, obj) && Recode(p, env, obj).Some?
    ensures var rec := Recode(p, env, obj).value;
            && ProcessEntry(p, env, obj).value == Stream(JpegDict(rec.size), rec.data)
            && rec.data != []
            && (Within(rec.size, p.maxDim) || rec.size == env.codec.open(RecoderInput(env, obj).value).value)
            && |rec.data| * p.threshold.den < |obj.raw| * p.threshold.num
    ensures p.threshold.num <= p.threshold.den ==> |ProcessEntry(p, env, obj).value.raw| < |obj.raw|
  {
    var r := ProcessEntry(p, env, obj).value;
    if p.threshold.num <= p.threshold.den {
      MulWeak(|obj.raw|, p.threshold.num, p.threshold.den);
      MulCancel(|r.raw|, |obj.raw|, p.threshold.den);
    }
  }

  /**
   * The dictionary of a replacement: an 8-bit DeviceRGB image XObject of the
   * given size, DCTDecode-filtered, and nothing else.
   */
  lemma JpegDictEntries(size: Dims)
    ensures var d := JpegDict(size);
            && d.Keys == {"/Type", "/Subtype", "/Width", "/Height", "/ColorSpace", "/BitsPerComponent", "/Filter"}
            && d["/Type"] == NameV("/XObject") && d["/Subtype"] == NameV("/Image")
            && d["/Width"] == IntV(size.width) && d["/Height"] == IntV(size.height)
            && d["/ColorSpace"] == NameV("/DeviceRGB") && d["/BitsPerComponent"] == IntV(8)
            && d["/Filter"] == NameV("/DCTDecode")
  {
  }

  /** A DCTDecode stream reaches the recoder as its raw bytes: the decoder is never consulted. */
  lemma DctIgnoresDecoder(p: Policy, codec: Codec, decode1: (StreamDict, Bytes) -> Option<Bytes>,
                          decode2: (StreamDict, Bytes) -> Option<Bytes>, obj: Obj)
    requires obj.Stream? && IsDct(obj.dict)
    ensures RecoderInput(Env(decode1, codec), obj) == Some(obj.raw)
    ensures ProcessEntry(p, Env(decode1, codec), obj) == ProcessEntry(p, Env(decode2, codec), obj)
  {
  }

  /**
   * Any other stream reaches the recoder as its decoded bytes: its raw bytes
   * matter only through their decoding and their length (the threshold).
   */
  lemma OtherFiltersUseDecodedBytes(p: Policy, env: Env, d: StreamDict, raw1: Bytes, raw2: Bytes)
    requires !IsDct(d)
    requires |raw1| == |raw2| && env.decode(d, raw1) == env.decode(d, raw2)
    ensures RecoderInput(env, Stream(d, raw1)) == env.decode(d, raw1)
    ensures ProcessEntry(p, env, Stream(d, raw1)) == ProcessEntry(p, env, Stream(d, raw2))
  {
  }

  // ---------------------------------------------------------------------------
  // One /XObject dictionary

  /** With no replaced name, the inner loop leaves the dictionary as it was. */
  lemma NoReplacedNamesIdentity(p: Policy, env: Env, xo: XObjects)
    requires ReplacedNames(p, env, xo) == {}
    ensures ProcessXObjects(p, env, xo) == xo
  {
    forall n | n in xo ensures ProcessXObjects(p, env, xo)[n] == xo[n] {
      assert n !in ReplacedNames(p, env, xo);
    }
  }

  /** A dictionary without image streams has nothing replaced. */
  lemma NoImagesNoReplacedNames(p: Policy, env: Env, xo: XObjects)
    requires forall n :: n in xo ==> !IsImageStream(xo[n])
    ensures ReplacedNames(p, env, xo) == {}
    ensures ProcessXObjects(p, env, xo) == xo
  {
    NoReplacedNamesIdentity(p, env, xo);
  }

  /**
   * Each entry is decided on its own: what happens under one name, a failure
   * included, does not affect the outcome under any other name.
   */
  lemma EntriesIndependent(p: Policy, env: Env, xo: XObjects, name: string, o: Obj)
    ensures forall m :: m in xo && m != name ==>
              ProcessXObjects(p, env, xo[name := o])[m] == ProcessXObjects(p, env, xo)[m]
    ensures ProcessEntry(p, env, o).None? ==> ProcessXObjects(p, env, xo[name := o])[name] == o
  {
  }

  // ---------------------------------------------------------------------------
  // The whole pass

  /** A dictionary that no page names is left as it was. */
  lemma {:induction false} UnreferencedUnchanged(p: Policy, env: Env, pages: seq<Page>,
                                                 table: map<DictId, XObjects>, id: DictId)
    requires RefsResolve(pages, table) && id in table
    requires forall i :: 0 <= i < |pages| ==> XObjectRef(pages[i]) != Some(id)
    ensures RunPass(p, env, pages, table).table[id] == table[id]
  {
    if pages != [] {
      var init := pages[..|pages| - 1];
      assert forall i :: 0 <= i < |init| ==> init[i] == pages[i];
      UnreferencedUnchanged(p, env, init, table, id);
    }
  }

  /** No two pages name the same /XObject dictionary. */
  predicate DistinctRefs(pages: seq<Page>) {
    forall i, j :: 0 <= i < j < |pages| && XObjectRef(pages[i]).Some? ==> XObjectRef(pages[i]) != XObjectRef(pages[j])
  }

  /** The substitutions each page's dictionary would see in the original table, summed. */
  function SumReplacedInOriginal(p: Policy, env: Env, pages: seq<Page>, table: map<DictId, XObjects>): nat
    requires RefsResolve(pages, table)
    decreases |pages|
  {
    if pages == [] then 0
    else
      SumReplacedInOriginal(p, env, pages[..|pages| - 1], table)
      + match XObjectRef(pages[|pages| - 1])
        case None => 0
        case Some(id) => |ReplacedNames(p, env, table[id])|
  }

  /**
   * Without shared dictionaries, the pass processes every named dictionary
   * exactly once from its original contents, and the counter is the number of
   * names replaced across the document.
   */
  lemma DistinctRefsProcessedOnce(p: Policy, env: Env, pages: seq<Page>, table: map<DictId, XObjects>)
    requires RefsResolve(pages, table) && DistinctRefs(pages)
    ensures forall i :: 0 <= i < |pages| && XObjectRef(pages[i]).Some? ==>
              RunPass(p, env, pages, table).table[XObjectRef(pages[i]).value]
                == ProcessXObjects(p, env, table[XObjectRef(pages[i]).value])
    ensures RunPass(p, env, pages, table).count == SumReplacedInOriginal(p, env, pages, table)
  {
    forall i | 0 <= i < |pages| && XObjectRef(pages[i]).Some?
      ensures RunPass(p, env, pages, table).table[XObjectRef(pages[i]).value]
                == ProcessXObjects(p, env, table[XObjectRef(pages[i]).value])
    {
      DistinctRefsTableAt(p, env, pages, table, i);
    }
    DistinctRefsCount(p, env, pages, table);
  }

  /** The last page's dictionary is named by no earlier page. */
  lemma DistinctRefsLast(pages: seq<Page>, table: map<DictId, XObjects>)
    requires RefsResolve(pages, table) && DistinctRefs(pages) && pages != []
    ensures var init := pages[..|pages| - 1];
            && RefsResolve(init, table) && DistinctRefs(init)
            && (XObjectRef(pages[|pages| - 1]).Some? ==>
                  forall i :: 0 <= i < |init| ==> XObjectRef(init[i]) != XObjectRef(pages[|pages| - 1]))
  {
    var init := pages[..|pages| - 1];
    assert forall i :: 0 <= i < |init| ==> init[i] == pages[i];
  }

  lemma {:induction false} DistinctRefsTableAt(p: Policy, env: Env, pages: seq<Page>, table: map<DictId, XObjects>, i: nat)
    requires RefsResolve(pages, table) && DistinctRefs(pages)
    requires i < |pages| && XObjectRef(pages[i]).Some?
    ensures RunPass(p, env, pages, table).table[XObjectRef(pages[i]).value]
              == ProcessXObjects(p, env, table[XObjectRef(pages[i]).value])
  {
    var n := |pages| - 1;
    var init := pages[..n];
    var id := XObjectRef(pages[i]).value;
    DistinctRefsLast(pages, table);
    var s := RunPass(p, env, init, table);
    assert RunPass(p, env, pages, table) == StepPage(p, env, pages[n], s) by {
      LastPage(p, env, pages, table);
    }
    if i == n {
      assert s.table[id] == table[id] by {
        UnreferencedUnchanged(p, env, init, table, id);
      }
      StepPageVisits(p, env, pages[n], s);
    } else {
      assert s.table[id] == ProcessXObjects(p, env, table[id]) by {
        assert pages[i] == init[i];
        DistinctRefsTableAt(p, env, init, table, i);
      }
      assert XObjectRef(pages[n]) != Some(id) by {
        assert pages[i] == init[i];
      }
      StepPageSkips(p, env, pages[n], s, id);
    }
  }

  /** The step for a page processes the dictionary the page names. */
  lemma StepPageVisits(p: Policy, env: Env, page: Page, s: PassState)
    requires XObjectRef(page).Some? && XObjectRef(page).value in s.table
    ensures StepPage(p, env, page, s).table[XObjectRef(page).value] == ProcessXObjects(p, env, s.table[XObjectRef(page).value])
  {
  }

  /** The step for a page leaves every dictionary the page does not name as it was. */
  lemma StepPageSkips(p: Policy, env: Env, page: Page, s: PassState, id: DictId)
    requires XObjectRef(page).Some? ==> XObjectRef(page).value in s.table
    requires id in s.table && XObjectRef(page) != Some(id)
    ensures StepPage(p, env, page, s).table[id] == s.table[id]
  {
  }

  lemma {:induction false} DistinctRefsCount(p: Policy, env: Env, pages: seq<Page>, table: map<DictId, XObjects>)
    requires RefsResolve(pages, table) && DistinctRefs(pages)
    ensures RunPass(p, env, pages, table).count == SumReplacedInOriginal(p, env, pages, table)
  {
    if pages != [] {
      var n := |pages| - 1;
      var init := pages[..n];
      DistinctRefsLast(pages, table);
      DistinctRefsCount(p, env, init, table);
      LastPage(p, env, pages, table);
      if XObjectRef(pages[n]).Some? {
        UnreferencedUnchanged(p, env, init, table, XObjectRef(pages[n]).value);
      }
    }
  }

  /**
   * A dictionary shared by two consecutive pages is processed once per page:
   * the second visit sees the first visit's replacements and may recode them again.
   */
  lemma SharedDictionaryProcessedTwice(p: Policy, env: Env, first: Page, second: Page, table: map<DictId, XObjects>)
    requires XObjectRef(first).Some? && XObjectRef(first).value in table
    requires XObjectRef(second) == XObjectRef(first)
    ensures var id := XObjectRef(first).value;
            var once := ProcessXObjects(p, env, table[id]);
            RunPass(p, env, [first, second], table)
              == PassState(table[id := ProcessXObjects(p, env, once)],
                           |ReplacedNames(p, env, table[id])| + |ReplacedNames(p, env, once)|)
  {
    var id := XObjectRef(first).value;
    var once := ProcessXObjects(p, env, table[id]);
    var twice := ProcessXObjects(p, env, once);
    var s1 := PassState(table[id := once], |ReplacedNames(p, env, table[id])|);
    SecondPage(p, env, first, second, table);
    StepUpdatesOne(p, env, second, s1);
    assert s1.table[id] == once;
    UpdateTwice(table, id, once, twice);
  }

  /** Storing a key's own value changes nothing. */
  lemma UpdateSame<K, V>(m: map<K, V>, k: K)
    requires k in m
    ensures m[k := m[k]] == m
  {
  }

  /** A second update of the same key overrides the first. */
  lemma UpdateTwice<K, V>(m: map<K, V>, k: K, a: V, b: V)
    ensures m[k := a][k := b] == m[k := b]
  {
  }

  /** The second visit starts from the state the first visit left. */
  lemma SecondPage(p: Policy, env: Env, first: Page, second: Page, table: map<DictId, XObjects>)
    requires XObjectRef(first).Some? && XObjectRef(first).value in table
    requires XObjectRef(second) == XObjectRef(first)
    ensures var id := XObjectRef(first).value;
            RunPass(p, env, [first, second], table)
              == StepPage(p, env, second, PassState(table[id := ProcessXObjects(p, env, table[id])],
                                                    |ReplacedNames(p, env, table[id])|))
  {
    var id := XObjectRef(first).value;
    var s1 := PassState(table[id := ProcessXObjects(p, env, table[id])], |ReplacedNames(p, env, table[id])|);
    assert RunPass(p, env, [first], table) == s1 by {
      SinglePage(p, env, first, table);
    }
    assert RunPass(p, env, [first, second], table) == StepPage(p, env, second, RunPass(p, env, [first], table)) by {
      assert [first, second][..1] == [first];
      LastPage(p, env, [first, second], table);
    }
  }

  /** A page naming a dictionary replaces that dictionary by its processed form and adds its count. */
  lemma StepUpdatesOne(p: Policy, env: Env, page: Page, s: PassState)
    requires XObjectRef(page).Some? && XObjectRef(page).value in s.table
    ensures var id := XObjectRef(page).value;
            StepPage(p, env, page, s)
              == PassState(s.table[id := ProcessXObjects(p, env, s.table[id])],
                           s.count + |ReplacedNames(p, env, s.table[id])|)
  {
  }

  /** The pass over one page with a dictionary processes that dictionary once. */
  lemma SinglePage(p: Policy, env: Env, page: Page, table: map<DictId, XObjects>)
    requires XObjectRef(page).Some? && XObjectRef(page).value in table
    ensures var id := XObjectRef(page).value;
            RunPass(p, env, [page], table)
              == PassState(table[id := ProcessXObjects(p, env, table[id])], |ReplacedNames(p, env, table[id])|)
  {
    assert [page][..0] == [];
    LastPage(p, env, [page], table);
  }

  /** The number of entries the pass visits: the size of each page's dictionary, page by page. */
  function VisitedEntries(pages: seq<Page>, table: map<DictId, XObjects>): nat
    requires RefsResolve(pages, table)
    decreases |pages|
  {
    if pages == [] then 0
    else
      VisitedEntries(pages[..|pages| - 1], table)
      + match XObjectRef(pages[|pages| - 1])
        case None => 0
        case Some(id) => |table[id]|
  }

  /** The counter never exceeds the number of entries visited. */
  lemma {:induction false} CountAtMostVisited(p: Policy, env: Env, pages: seq<Page>, table: map<DictId, XObjects>)
    requires RefsResolve(pages, table)
    ensures RunPass(p, env, pages, table).count <= VisitedEntries(pages, table)
  {
    if pages != [] {
      var n := |pages| - 1;
      var init := pages[..n];
      CountAtMostVisited(p, env, init, table);
      var s := RunPass(p, env, init, table);
      match XObjectRef(pages[n])
      case None =>
      case Some(id) =>
        var names := ReplacedNames(p, env, s.table[id]);
        assert names <= s.table[id].Keys == table[id].Keys;
        SubsetCardinality(names, table[id].Keys);
        assert |table[id].Keys| == |table[id]|;
    }
  }

  /** A pass that counts no substitution leaves every dictionary as it was. */
  lemma {:induction false} ZeroCountNoChange(p: Policy, env: Env, pages: seq<Page>, table: map<DictId, XObjects>)
    requires RefsResolve(pages, table)
    requires RunPass(p, env, pages, table).count == 0
    ensures RunPass(p, env, pages, table).table == table
  {
    if pages != [] {
      var n := |pages| - 1;
      var init := pages[..n];
      var s := RunPass(p, env, init, table);
      assert s.count == 0;
      ZeroCountNoChange(p, env, init, table);
      match XObjectRef(pages[n])
      case None =>
      case Some(id) =>
        assert |ReplacedNames(p, env, s.table[id])| == 0;
        NoReplacedNamesIdentity(p, env, s.table[id]);
        UpdateSame(s.table, id);
    }
  }

  /** A document with no image streams comes out of the pass unchanged, with a zero counter. */
  lemma {:induction false} NoImagesNoChange(p: Policy, env: Env, pages: seq<Page>, table: map<DictId, XObjects>)
    requires RefsResolve(pages, table)
    requires forall id, n :: id in table && n in table[id] ==> !IsImageStream(table[id][n])
    ensures RunPass(p, env, pages, table) == PassState(table, 0)
  {
    if pages != [] {
      var n := |pages| - 1;
      var init := pages[..n];
      NoImagesNoChange(p, env, init, table);
      match XObjectRef(pages[n])
      case None =>
      case Some(id) =>
        NoImagesNoReplacedNames(p, env, table[id]);
        UpdateSame(table, id);
    }
  }

  /** A stream the pass installed: a DCTDecode image dictionary over a non-empty payload. */
  ghost predicate IsJpegReplacement(o: Obj) {
    o.Stream? && o.raw != [] && exists size: Dims :: o.dict == JpegDict(size)
  }

  /** Every entry after the pass is its original, or a JPEG replacement under the same name. */
  lemma {:induction false} EntriesOriginalOrJpeg(p: Policy, env: Env, pages: seq<Page>, table: map<DictId, XObjects>)
    requires RefsResolve(pages, table)
    ensures forall id, n :: id in table && n in table[id] ==>
              n in RunPass(p, env, pages, table).table[id]
              && (RunPass(p, env, pages, table).table[id][n] == table[id][n]
                  || IsJpegReplacement(RunPass(p, env, pages, table).table[id][n]))
  {
    if pages != [] {
      var last := |pages| - 1;
      var init := pages[..last];
      EntriesOriginalOrJpeg(p, env, init, table);
      var s := RunPass(p, env, init, table);
      match XObjectRef(pages[last])
      case None =>
      case Some(id) =>
        forall n | n in s.table[id] && ProcessEntry(p, env, s.table[id][n]).Some?
          ensures IsJpegReplacement(ProcessEntry(p, env, s.table[id][n]).value)
        {
          var obj := s.table[id][n];
          var rec := Recode(p, env, obj).value;
          assert ProcessEntry(p, env, obj).value.dict == JpegDict(rec.size);
        }
    }
  }
}
