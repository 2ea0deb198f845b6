/** The part of a PDF object graph that the image-recompression pass reads
    and writes: a tagged object model, pages with optional resource
    dictionaries, and the test that classifies an object as a raster image. */
module PdfObjects {

  datatype Option<T> = None | Some(value: T)

  /** A direct PDF object. Indirect references are resolved by the library
      before the pass sees them, so they do not appear here. Name values and
      dictionary keys keep their leading slash, as in `Name("/Image")`. */
  datatype PdfObj =
    | Null
    | Boolean(truth: bool)
    | Integer(n: int)
    | Real(r: real)
    | Name(name: string)
    | Str(bytes: seq<bv8>)
    | Array(items: seq<PdfObj>)
    | Dict(entries: map<string, PdfObj>)
    | Stream(dict: map<string, PdfObj>, data: seq<bv8>)

  /** A page, seen through its `/Resources` entry (absent or a dictionary).
      Each page owns its resource dictionary: sharing between pages is not
      modelled. */
  datatype Page = Page(resources: Option<map<string, PdfObj>>)

  /** The dictionary that a `Dict` is or that a `Stream` carries. */
  function DictOf(obj: PdfObj): (d: Option<map<string, PdfObj>>)
    ensures d.Some? <==> obj.Dict? || obj.Stream?
  {
    match obj
    case Dict(entries) => Some(entries)
    case Stream(dict, _) => Some(dict)
    case _ => None
  }

  /** The subtype test of app.py:27: a `/Subtype` key whose value is the
      name `/Image`. An object without a dictionary either answers "no" to the
      key test or raises inside the `try`; both skip the entry. */
  predicate IsImage(obj: PdfObj)
    ensures obj.Dict? ==> (IsImage(obj) <==> "/Subtype" in obj.entries && obj.entries["/Subtype"] == Name("/Image"))
    ensures obj.Stream? ==> (IsImage(obj) <==> "/Subtype" in obj.dict && obj.dict["/Subtype"] == Name("/Image"))
    ensures !obj.Dict? && !obj.Stream? ==> !IsImage(obj)
  {
    var d := DictOf(obj);
    d.Some? && "/Subtype" in d.value && d.value["/Subtype"] == Name("/Image")
  }

  /** The `/XObject` map of a page, when the page is walked at all
      (app.py:21-24): `None` for a page without resources, with an empty
      resource dictionary, or without an `/XObject` key. As in the PDF
      library, a key whose value is `Null` counts as absent. */
  function XObjectsOf(p: Page): (x: Option<PdfObj>)
    ensures x.Some? ==> p.resources.Some? && "/XObject" in p.resources.value
                        && x.value == p.resources.value["/XObject"] && x.value != Null
    ensures x.None? ==> p.resources.None? || "/XObject" !in p.resources.value
                        || p.resources.value["/XObject"] == Null
  {
    match p.resources
    case None => None
    case Some(res) =>
      if |res| == 0 || "/XObject" !in res || res["/XObject"] == Null then None
      else Some(res["/XObject"])
  }

  /** The names under a page's `/XObject` dictionary; empty when there is none. */
  function XObjectNames(p: Page): set<string>
  {
    match XObjectsOf(p)
    case Some(Dict(m)) => m.Keys
    case _ => {}
  }
}
