/**
 * The part of a PDF object graph that the image pass reads and writes:
 * pages, their /Resources dictionary and its /XObject dictionary.
 * Keys are PDF names written with their leading slash, as pikepdf spells them.
 */
module PdfModel {
  import opened Base

  /** A direct value stored in a stream dictionary. */
  datatype Value =
    | NameV(name: string)   // a PDF name such as /Image
    | IntV(i: int)          // a PDF integer
    | RealV(r: real)        // a PDF real, which pikepdf hands out as a Decimal
    | BoolV(b: bool)        // a PDF boolean, which pikepdf hands out as a bool
    | NullV                 // the PDF null object
    | OtherV                // anything else: arrays, strings, dictionaries

  type StreamDict = map<string, Value>

  /** An entry of an /XObject dictionary. */
  datatype Obj =
    | Stream(dict: StreamDict, raw: Bytes)   // raw = the stored, still filter-encoded bytes
    | NotStream(value: Value)

  /** An /XObject dictionary: resource name to entry. */
  type XObjects = map<string, Obj>

  /**
   * The identity of an /XObject dictionary. Several pages may share one
   * dictionary (an indirect object), so dictionaries live in a table keyed
   * by identity and a page refers to its dictionary by id.
   */
  type DictId = nat

  /** A page's /Resources dictionary: its /XObject sub-dictionary, if present, and the rest. */
  datatype Resources = Resources(xobject: Option<DictId>, others: map<string, Value>)

  datatype Page = Page(resources: Option<Resources>)

  /** The /XObject dictionary a page names, if it has /Resources and they have /XObject. */
  function XObjectRef(page: Page): Option<DictId> {
    if page.resources.None? then None else page.resources.value.xobject
  }

  /** A document as a value: its page list and its table of /XObject dictionaries. */
  datatype PdfDoc = PdfDoc(pages: seq<Page>, xobjects: map<DictId, XObjects>)

  /** Every /XObject reference of every page resolves in the table. */
  predicate RefsResolve(pages: seq<Page>, table: map<DictId, XObjects>) {
    forall i :: 0 <= i < |pages| ==> XObjectRef(pages[i]).Some? ==> XObjectRef(pages[i]).value in table
  }

  predicate WellFormed(d: PdfDoc) {
    RefsResolve(d.pages, d.xobjects)
  }

  /**
   * `d.get(key)` in pikepdf: the value, or nothing when the key is absent. A key
   * whose value is null counts as absent, as in a PDF dictionary.
   */
  function Get(d: StreamDict, key: string): (r: Option<Value>)
    ensures r.Some? <==> key in d && !d[key].NullV?
    ensures r.Some? ==> r.value == d[key]
  {
    if key in d && !d[key].NullV? then Some(d[key]) else None
  }
}
