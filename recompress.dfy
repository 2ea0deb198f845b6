/** The image-recompression pass (app.py:18-59): walk every page's
    `/XObject` dictionary, recompress each raster image into a JPEG stream and
    write it back under the same name, count the replacements, and skip any
    entry whose processing raises. */
module Recompress {
  import opened PdfObjects
  import opened ImagePolicy

  /** An opaque stand-in for decoded pixel data; pixel values are not modelled. */
  type Pixels = seq<bv8>

  /** A decoded image: its colour mode (`L`, `RGB`, `P`, `RGBA`, `CMYK`, ...),
      its size and its pixels. */
  datatype Raster = Raster(mode: string, width: nat, height: nat, pixels: Pixels)

  /** The imaging-library calls the pass makes. Each may raise, which is a
      `None` here. A converted image keeps its size and takes the requested
      mode; a resized one keeps its mode and takes the requested size, so
      those two calls only supply the new pixels. */
  datatype Codec = Codec(
    decode: PdfObj -> Option<Raster>,              // image stream to decoded image (app.py:29-30)
    convert: (Raster, string) -> Option<Pixels>,   // change of colour mode (app.py:32, 35)
    resize: (Raster, nat, nat) -> Option<Pixels>,  // resampling to a new size (app.py:39)
    encode: (Raster, int) -> Option<seq<bv8>>)     // JPEG encoding at a quality (app.py:41)

  /** The caller's settings for one pass. */
  datatype Policy = Policy(maxSide: int, quality: int, grayscale: bool)

  /** Why an entry was left as it was. */
  datatype SkipReason =
    | NotAnImage
    | DecodeFailed
    | ConvertFailed
    | DivisionByZero
    | ResizeFailed
    | EncodeFailed

  /** A stage of the per-entry pipeline either yields an image or gives up. */
  datatype Stage = Ok(raster: Raster) | Fail(reason: SkipReason)

  /** The outcome of the `try` block for one entry (app.py:26-58). */
  datatype EntryOutcome = Replaced(stream: PdfObj) | Skipped(reason: SkipReason)

  /** The exact set of keys of a replacement stream's dictionary (app.py:47-53). */
  const ReplacementKeys: set<string> :=
    {"/Filter", "/Type", "/Subtype", "/Width", "/Height", "/ColorSpace", "/BitsPerComponent"}

  /** A stream shaped as the pass builds its replacements: a JPEG image
      XObject with 8 bits per component and a device colour space. */
  predicate IsReplacementStream(obj: PdfObj)
  {
    && obj.Stream?
    && obj.dict.Keys == ReplacementKeys
    && obj.dict["/Filter"] == Name("/DCTDecode")
    && obj.dict["/Type"] == Name("/XObject")
    && obj.dict["/Subtype"] == Name("/Image")
    && obj.dict["/Width"].Integer?
    && obj.dict["/Height"].Integer?
    && obj.dict["/ColorSpace"] in {Name("/DeviceGray"), Name("/DeviceRGB")}
    && obj.dict["/BitsPerComponent"] == Integer(8)
  }

  /** The replacement stream for an encoded image (app.py:43-54). */
  function ImageStream(jpeg: seq<bv8>, r: Raster): (s: PdfObj)
    ensures IsReplacementStream(s) && IsImage(s)
    ensures s.data == jpeg
    ensures s.dict["/Width"] == Integer(r.width) && s.dict["/Height"] == Integer(r.height)
    ensures s.dict["/ColorSpace"] == Name("/DeviceGray") <==> r.mode == Gray
  {
    Stream(map[
      "/Filter" := Name("/DCTDecode"),
      "/Type" := Name("/XObject"),
      "/Subtype" := Name("/Image"),
      "/Width" := Integer(r.width),
      "/Height" := Integer(r.height),
      "/ColorSpace" := ColorSpaceFor(r.mode),
      "/BitsPerComponent" := Integer(8)], jpeg)
  }

  /** Colour-mode normalisation (app.py:31-35). Only a converter call can fail. */
  function Normalize(r: Raster, grayscale: bool, codec: Codec): (st: Stage)
    ensures st.Ok? ==> st.raster.mode == TargetMode(r.mode, grayscale)
                       && st.raster.width == r.width && st.raster.height == r.height
    ensures st.Fail? ==> st.reason == ConvertFailed && NeedsConvert(r.mode, grayscale)
  {
    if grayscale then Converted(r, Gray, codec)
    else if r.mode == Rgb || r.mode == Gray then Ok(r)
    else Converted(r, Rgb, codec)
  }

  function Converted(r: Raster, mode: string, codec: Codec): Stage
  {
    match codec.convert(r, mode)
    case None => Fail(ConvertFailed)
    case Some(pixels) => Ok(Raster(mode, r.width, r.height, pixels))
  }

  /** Downscaling (app.py:36-39): no resize call when the image fits, a
      resize to the size rule's dimensions otherwise. */
  function Resample(r: Raster, maxSide: int, codec: Codec): (st: Stage)
    ensures st.Ok? ==> st.raster.mode == r.mode
    ensures st.Ok? && ScaleRule(r.width, r.height, maxSide).Keep? ==> st.raster == r
    ensures st.Ok? ==> ScaleRule(r.width, r.height, maxSide).Keep?
                       || ScaleRule(r.width, r.height, maxSide)
                          == Shrink(st.raster.width, st.raster.height)
    ensures st.Fail? ==> !ScaleRule(r.width, r.height, maxSide).Keep?
  {
    match ScaleRule(r.width, r.height, maxSide)
    case Keep => Ok(r)
    case ZeroSide => Fail(DivisionByZero)
    case Shrink(w, h) =>
      match codec.resize(r, w, h)
      case None => Fail(ResizeFailed)
      case Some(pixels) => Ok(Raster(r.mode, w, h, pixels))
  }

  /** The body of the `try` block for one `/XObject` entry (app.py:26-56):
      non-images are skipped, and any stage that raises skips the entry. */
  function ProcessEntry(obj: PdfObj, policy: Policy, codec: Codec): (out: EntryOutcome)
    ensures !IsImage(obj) ==> out == Skipped(NotAnImage)
    ensures out.Replaced? ==> IsImage(obj) && IsReplacementStream(out.stream)
  {
    if !IsImage(obj) then Skipped(NotAnImage)
    else
      match codec.decode(obj)
      case None => Skipped(DecodeFailed)
      case Some(decoded) =>
        match Normalize(decoded, policy.grayscale, codec)
        case Fail(why) => Skipped(why)
        case Ok(normal) =>
          match Resample(normal, policy.maxSide, codec)
          case Fail(why) => Skipped(why)
          case Ok(sized) =>
            match codec.encode(sized, policy.quality)
            case None => Skipped(EncodeFailed)
            case Some(jpeg) => Replaced(ImageStream(jpeg, sized))
  }

  /** What an entry holds after the pass: its replacement, or itself. */
  function After(obj: PdfObj, policy: Policy, codec: Codec): PdfObj
  {
    match ProcessEntry(obj, policy, codec)
    case Replaced(s) => s
    case Skipped(_) => obj
  }

  /** The names whose entries the pass replaces. */
  function ReplacedNames(m: map<string, PdfObj>, policy: Policy, codec: Codec): (names: set<string>)
    ensures names <= m.Keys
    ensures forall k :: k in names ==> IsImage(m[k])
  {
    set k | k in m && ProcessEntry(m[k], policy, codec).Replaced?
  }

  /** One `/XObject` dictionary after the pass: the same names, each holding
      its replacement if it has one and its old value otherwise. */
  function RecompressMap(m: map<string, PdfObj>, policy: Policy, codec: Codec): (r: map<string, PdfObj>)
    ensures r.Keys == m.Keys
    ensures forall k :: k in m && k !in ReplacedNames(m, policy, codec) ==> r[k] == m[k]
    ensures forall k :: k in ReplacedNames(m, policy, codec) ==> IsReplacementStream(r[k])
    ensures forall k :: k in ReplacedNames(m, policy, codec) ==> r[k] == ProcessEntry(m[k], policy, codec).stream
  {
    map k | k in m :: After(m[k], policy, codec)
  }

  /** The result of walking one page: the page after the walk and the number
      of entries replaced on it, or the error raised by `items()` on an
      `/XObject` value that is not a dictionary, outside the `try`. */
  datatype PageStep = Walked(page: Page, replaced: nat) | Raises

  /** One iteration of the page loop (app.py:20-58). */
  function RecompressPage(p: Page, policy: Policy, codec: Codec): (st: PageStep)
    ensures XObjectsOf(p).None? ==> st == Walked(p, 0)
    ensures st.Raises? <==> XObjectsOf(p).Some? && !XObjectsOf(p).value.Dict?
    ensures XObjectsOf(p).Some? && XObjectsOf(p).value.Dict? ==>
      var m := XObjectsOf(p).value.entries;
      st == Walked(WithXObjects(p, RecompressMap(m, policy, codec)), |ReplacedNames(m, policy, codec)|)
  {
    match XObjectsOf(p)
    case None => Walked(p, 0)
    case Some(xobjs) =>
      match xobjs
      case Dict(m) =>
        Walked(WithXObjects(p, RecompressMap(m, policy, codec)), |ReplacedNames(m, policy, codec)|)
      case _ => Raises
  }

  /** The page with its `/XObject` dictionary replaced by `m`. */
  function WithXObjects(p: Page, m: map<string, PdfObj>): (q: Page)
    requires p.resources.Some?
    ensures q.resources.Some? && q.resources.value.Keys == p.resources.value.Keys + {"/XObject"}
    ensures q.resources.value["/XObject"] == Dict(m)
    ensures forall k :: k in p.resources.value && k != "/XObject" ==>
      q.resources.value[k] == p.resources.value[k]
  {
    Page(Some(p.resources.value["/XObject" := Dict(m)]))
  }

  /** How the pass ends: with the count it returns, or with the error raised
      while walking the page at this index. */
  datatype PassOutcome = Completed(changed: nat) | Raised(page: nat)

  /** The pages after the pass, and how it ended. */
  datatype Pass = Pass(pages: seq<Page>, outcome: PassOutcome)

  /** A pass over `pre` followed by the pass `rest` over the remaining pages. */
  function Prefixed(pre: seq<Page>, changed: nat, rest: Pass): Pass
  {
    Pass(pre + rest.pages,
         match rest.outcome
         case Completed(c) => Completed(changed + c)
         case Raised(i) => Raised(|pre| + i))
  }

  /** The whole pass over the page list (app.py:18-59). An error on a page
      stops the pass there and leaves that page and the later ones as they
      were. */
  function RecompressPages(pages: seq<Page>, policy: Policy, codec: Codec): (r: Pass)
    ensures |r.pages| == |pages|
    ensures r.outcome.Raised? ==> r.outcome.page < |pages|
    decreases |pages|
  {
    if pages == [] then Pass([], Completed(0))
    else
      match RecompressPage(pages[0], policy, codec)
      case Raises => Pass(pages, Raised(0))
      case Walked(p, n) => Prefixed([p], n, RecompressPages(pages[1..], policy, codec))
  }

  /** The document the pass mutates in place: its page list, each page with
      its own resource dictionary. */
  class Document {
    var pages: seq<Page>

    constructor (pages: seq<Page>)
      ensures this.pages == pages
    {
      this.pages := pages;
    }

    /** `_recompress_images` (app.py:18-59): visits every page, walks a
        snapshot of each `/XObject` dictionary, writes each replacement under
        its name in place and counts it. The pages end as `RecompressPages`
        says, and the returned outcome is its outcome. */
    method RecompressImages(maxSide: int, quality: int, grayscale: bool, codec: Codec)
      returns (outcome: PassOutcome)
      modifies this
      ensures Pass(pages, outcome) == RecompressPages(old(pages), Policy(maxSide, quality, grayscale), codec)
    {
      var policy := Policy(maxSide, quality, grayscale);
      ghost var original := pages;
      ghost var done: seq<Page> := [];
      ghost var counts: seq<nat> := [];
      var changed: nat := 0;
      var i := 0;
      while i < |pages|
        invariant 0 <= i <= |pages| == |original| && |done| == |counts| == i
        invariant forall j :: 0 <= j < i ==> pages[j] == done[j]
        invariant forall j :: i <= j < |pages| ==> pages[j] == original[j]
        invariant forall j :: 0 <= j < i ==>
          RecompressPage(original[j], policy, codec) == Walked(done[j], counts[j])
        invariant changed == Sum(counts)
      {
        var step, after := WalkPage(pages[i], policy, codec, changed);
        if step.Raises? {
          RaisedAt(original, i, done, counts, policy, codec);
          assert pages == done + original[i..];
          return Raised(i);
        }
        pages := pages[i := step.page];
        changed := after;
        SumAppend(counts, step.replaced);
        done, counts := done + [step.page], counts + [step.replaced];
        i := i + 1;
      }
      CompletedPass(original, done, counts, policy, codec);
      assert pages == done;
      outcome := Completed(changed);
    }
  }

  /** One iteration of the page loop (app.py:21-58): a page without an
      `/XObject` entry is passed over, `items()` on a value that is not a
      dictionary raises, and otherwise the dictionary is walked and the page
      takes the walked dictionary. */
  method WalkPage(page: Page, policy: Policy, codec: Codec, changed: nat)
    returns (step: PageStep, changedAfter: nat)
    ensures step == RecompressPage(page, policy, codec)
    ensures step.Walked? ==> changedAfter == changed + step.replaced
  {
    changedAfter := changed;
    if page.resources.None? || |page.resources.value| == 0 || "/XObject" !in page.resources.value
       || page.resources.value["/XObject"] == Null
    {
      step := Walked(page, 0);
      return;
    }
    var xobjs := page.resources.value["/XObject"];
    if !xobjs.Dict? {
      step := Raises;
      return;
    }
    var entries;
    entries, changedAfter := WalkXObjects(xobjs.entries, policy, codec, changed);
    step := Walked(WithXObjects(page, entries), changedAfter - changed);
  }

  function Sum(s: seq<nat>): nat
  {
    if s == [] then 0 else s[0] + Sum(s[1..])
  }

  lemma {:induction false} SumAppend(s: seq<nat>, n: nat)
    ensures Sum(s + [n]) == Sum(s) + n
  {
    if s != [] {
      assert (s + [n])[1..] == s[1..] + [n];
      SumAppend(s[1..], n);
    }
  }

  /** Every page walked without error: the pass completes with the walked
      pages and the sum of their counts. */
  lemma {:induction false} CompletedPass(pages: seq<Page>, done: seq<Page>, counts: seq<nat>,
                                         policy: Policy, codec: Codec)
    requires |done| == |counts| == |pages|
    requires forall j :: 0 <= j < |pages| ==>
      RecompressPage(pages[j], policy, codec) == Walked(done[j], counts[j])
    ensures RecompressPages(pages, policy, codec) == Pass(done, Completed(Sum(counts)))
  {
    if pages != [] {
      CompletedPass(pages[1..], done[1..], counts[1..], policy, codec);
      assert done == [done[0]] + done[1..];
    }
  }

  /** The pages before `i` walked without error and page `i` raises: the pass
      stops there, with the later pages untouched. */
  lemma {:induction false} RaisedAt(pages: seq<Page>, i: nat, done: seq<Page>, counts: seq<nat>,
                                    policy: Policy, codec: Codec)
    requires i < |pages| && |done| == |counts| == i
    requires forall j :: 0 <= j < i ==>
      RecompressPage(pages[j], policy, codec) == Walked(done[j], counts[j])
    requires RecompressPage(pages[i], policy, codec) == Raises
    ensures RecompressPages(pages, policy, codec) == Pass(done + pages[i..], Raised(i))
  {
    if i == 0 {
      assert done + pages[i..] == pages;
    } else {
      assert RecompressPage(pages[0], policy, codec) == Walked(done[0], counts[0]);
      var rest := RecompressPages(pages[1..], policy, codec);
      RaisedAt(pages[1..], i - 1, done[1..], counts[1..], policy, codec);
      assert pages[1..][i - 1..] == pages[i..];
      assert RecompressPages(pages, policy, codec) == Prefixed([done[0]], counts[0], rest);
      assert [done[0]] + (done[1..] + pages[i..]) == done + pages[i..];
    }
  }

  /** The inner loop of app.py:25-58 over a snapshot of one `/XObject`
      dictionary: each entry is processed once, its replacement is written
      under its name, and the counter grows by one for it. */
  method WalkXObjects(snapshot: map<string, PdfObj>, policy: Policy, codec: Codec, changed: nat)
    returns (entries: map<string, PdfObj>, changedAfter: nat)
    ensures entries == RecompressMap(snapshot, policy, codec)
    ensures changedAfter == changed + |ReplacedNames(snapshot, policy, codec)|
  {
    var todo := snapshot.Keys;
    entries := snapshot;
    changedAfter := changed;
    ghost var replaced := ReplacedNames(snapshot, policy, codec);
    ghost var counted: set<string> := {};
    while todo != {}
      invariant todo <= snapshot.Keys && entries.Keys == snapshot.Keys
      invariant forall k :: k in snapshot ==>
        entries[k] == if k in todo then snapshot[k] else After(snapshot[k], policy, codec)
      invariant counted <= replaced
      invariant forall k :: k in replaced ==> (k in counted <==> k !in todo)
      invariant changedAfter == changed + |counted|
      decreases todo
    {
      var name :| name in todo;
      var outcome := ProcessEntry(snapshot[name], policy, codec);
      if outcome.Replaced? {
        entries := entries[name := outcome.stream];
        changedAfter := changedAfter + 1;
        counted := counted + {name};
      }
      todo := todo - {name};
    }
    WalkComplete(snapshot, entries, counted, policy, codec);
  }

  /** Writing a page's own `/XObject` dictionary back leaves the page as it was. */
  lemma WithOwnXObjects(p: Page, m: map<string, PdfObj>)
    requires XObjectsOf(p) == Some(Dict(m))
    ensures WithXObjects(p, m) == p
  {
    assert p.resources.value["/XObject" := Dict(m)] == p.resources.value;
  }

  /** Once every name has been processed, the dictionary holds what
      `RecompressMap` gives and exactly the replaced names were counted. */
  lemma WalkComplete(m: map<string, PdfObj>, entries: map<string, PdfObj>, counted: set<string>,
                     policy: Policy, codec: Codec)
    requires entries.Keys == m.Keys
    requires forall k :: k in m ==> entries[k] == After(m[k], policy, codec)
    requires counted <= ReplacedNames(m, policy, codec)
    requires forall k :: k in ReplacedNames(m, policy, codec) ==> k in counted
    ensures entries == RecompressMap(m, policy, codec)
    ensures counted == ReplacedNames(m, policy, codec)
  {
  }

}
