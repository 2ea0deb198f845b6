/** What the recompression pass guarantees, stated over the functions that
    specify it: what a replacement stream says about the decoded image, which
    entries and pages are left alone, what the returned count counts, and
    that a document the pass completed on can be passed over again. */
module RecompressProperties {
  import opened PdfObjects
  import opened ImagePolicy
  import opened Recompress

  // ----- One entry -----

  /** A replacement describes the decoded image as the two rules transform
      it: colour space from the normalised mode, size from the size rule. */
  lemma ReplacementDescribesImage(obj: PdfObj, policy: Policy, codec: Codec)
    requires ProcessEntry(obj, policy, codec).Replaced?
    ensures IsImage(obj) && codec.decode(obj).Some?
    ensures var d := codec.decode(obj).value;
            var s := ProcessEntry(obj, policy, codec).stream;
            var mode := TargetMode(d.mode, policy.grayscale);
      && IsReplacementStream(s) && IsImage(s)
      && s.dict["/ColorSpace"] == ColorSpaceFor(mode)
      && (s.dict["/ColorSpace"] == Name("/DeviceGray") <==> mode == Gray)
      && (policy.grayscale ==> s.dict["/ColorSpace"] == Name("/DeviceGray"))
      && (ScaleRule(d.width, d.height, policy.maxSide) == Keep ==>
            s.dict["/Width"] == Integer(d.width) && s.dict["/Height"] == Integer(d.height))
      && (ScaleRule(d.width, d.height, policy.maxSide).Shrink? ==>
            var sc := ScaleRule(d.width, d.height, policy.maxSide);
            s.dict["/Width"] == Integer(sc.width) && s.dict["/Height"] == Integer(sc.height))
  {
    var d := codec.decode(obj).value;
    var normal := Normalize(d, policy.grayscale, codec).raster;
    var sized := Resample(normal, policy.maxSide, codec).raster;
    assert ProcessEntry(obj, policy, codec).stream == ImageStream(codec.encode(sized, policy.quality).value, sized);
    assert sized.mode == TargetMode(d.mode, policy.grayscale);
  }

  /** The size written into a replacement: the decoded size when it fits;
      otherwise each side between 1 and its decoded length (an empty side
      becomes 1), the longer one exactly `max_side` when that is positive,
      and 1 by 1 when `max_side` is not positive. */
  lemma WrittenSize(obj: PdfObj, policy: Policy, codec: Codec)
    requires ProcessEntry(obj, policy, codec).Replaced?
    ensures codec.decode(obj).Some?
    ensures var d := codec.decode(obj).value;
            var s := ProcessEntry(obj, policy, codec).stream;
            var w, h := s.dict["/Width"].n, s.dict["/Height"].n;
      && s.dict["/Width"].Integer? && s.dict["/Height"].Integer?
      && (LongSide(d.width, d.height) <= policy.maxSide ==> w == d.width && h == d.height)
      && (LongSide(d.width, d.height) > policy.maxSide ==>
            && 1 <= w <= (if d.width == 0 then 1 else d.width)
            && 1 <= h <= (if d.height == 0 then 1 else d.height)
            && (policy.maxSide >= 1 ==> (if w < h then h else w) == policy.maxSide)
            && (policy.maxSide <= 0 ==> w == 1 && h == 1))
  {
    ReplacementDescribesImage(obj, policy, codec);
    var d := codec.decode(obj).value;
    ScaleRuleBounds(d.width, d.height, policy.maxSide);
    if LongSide(d.width, d.height) > policy.maxSide {
      // An empty image with a negative bound divides by zero and is never replaced.
      assert !ScaleRule(d.width, d.height, policy.maxSide).ZeroSide?;
    }
  }

  /** A replacement is itself an image, so a later pass considers it again. */
  lemma ReplacementIsImageAgain(obj: PdfObj, policy: Policy, codec: Codec)
    requires ProcessEntry(obj, policy, codec).Replaced?
    ensures IsImage(ProcessEntry(obj, policy, codec).stream)
    ensures ProcessEntry(ProcessEntry(obj, policy, codec).stream, policy, codec) != Skipped(NotAnImage)
  {
  }

  /** Some library call the pass makes on this image raises, or the size
      rule divides by zero (app.py:29-41): decoding; the mode conversion, when
      one is due; the resize, when one is due; the JPEG encoding. Stated
      over the library calls and the two rules directly. */
  predicate CallFails(obj: PdfObj, policy: Policy, codec: Codec)
  {
    match codec.decode(obj)
    case None => true
    case Some(d) =>
      var mode := TargetMode(d.mode, policy.grayscale);
      var convert := NeedsConvert(d.mode, policy.grayscale);
      if convert && codec.convert(d, mode).None? then true
      else
        var n := if convert then Raster(mode, d.width, d.height, codec.convert(d, mode).value) else d;
        match ScaleRule(n.width, n.height, policy.maxSide)
        case ZeroSide => true
        case Keep => codec.encode(n, policy.quality).None?
        case Shrink(w, h) =>
          codec.resize(n, w, h).None?
          || codec.encode(Raster(n.mode, w, h, codec.resize(n, w, h).value), policy.quality).None?
  }

  /** An image is replaced exactly when none of the library calls made on it
      raises, and then by the stream built from the encoded, resized,
      normalised image (app.py:26-58). */
  lemma ReplacedExactlyWhenCallsSucceed(obj: PdfObj, policy: Policy, codec: Codec)
    requires IsImage(obj)
    ensures ProcessEntry(obj, policy, codec).Replaced? <==> !CallFails(obj, policy, codec)
    ensures !CallFails(obj, policy, codec) ==>
      var n := Normalize(codec.decode(obj).value, policy.grayscale, codec).raster;
      var sized := Resample(n, policy.maxSide, codec).raster;
      ProcessEntry(obj, policy, codec)
        == Replaced(ImageStream(codec.encode(sized, policy.quality).value, sized))
  {
    match codec.decode(obj)
    case None =>
    case Some(d) =>
      var mode := TargetMode(d.mode, policy.grayscale);
      var st := Normalize(d, policy.grayscale, codec);
      if NeedsConvert(d.mode, policy.grayscale) {
        assert st == Converted(d, mode, codec);
      } else {
        assert st == Ok(d);
      }
  }

  // ----- One /XObject dictionary -----

  /** The names holding images. */
  function ImageNames(m: map<string, PdfObj>): (names: set<string>)
    ensures names <= m.Keys
  {
    set k | k in m && IsImage(m[k])
  }

  /** The images on which some library call raises. */
  function FailedNames(m: map<string, PdfObj>, policy: Policy, codec: Codec): (names: set<string>)
    ensures names <= ImageNames(m)
  {
    set k | k in m && IsImage(m[k]) && CallFails(m[k], policy, codec)
  }

  /** Each image is either replaced or left as it was because its processing
      raised: a failing image costs exactly its own replacement. */
  lemma FailuresAreIsolated(m: map<string, PdfObj>, policy: Policy, codec: Codec)
    ensures ReplacedNames(m, policy, codec) !! FailedNames(m, policy, codec)
    ensures ReplacedNames(m, policy, codec) + FailedNames(m, policy, codec) == ImageNames(m)
    ensures |ReplacedNames(m, policy, codec)| + |FailedNames(m, policy, codec)| == |ImageNames(m)|
    ensures forall k :: k in FailedNames(m, policy, codec) ==> RecompressMap(m, policy, codec)[k] == m[k]
  {
    var r, f := ReplacedNames(m, policy, codec), FailedNames(m, policy, codec);
    forall k | k in ImageNames(m)
      ensures k in r <==> k !in f
    {
      ReplacedExactlyWhenCallsSucceed(m[k], policy, codec);
    }
    assert r + f == ImageNames(m);
    assert r !! f;
    DisjointUnionSize(r, f);
  }

  /** One image whose library calls fail among images that all succeed: every
      other image is replaced, so one fewer than the images is counted, and
      the failing one keeps its old value. */
  lemma OneFailingImage(m: map<string, PdfObj>, bad: string, policy: Policy, codec: Codec)
    requires bad in m && IsImage(m[bad]) && CallFails(m[bad], policy, codec)
    requires forall k :: k in m && k != bad && IsImage(m[k]) ==> !CallFails(m[k], policy, codec)
    ensures |ReplacedNames(m, policy, codec)| == |ImageNames(m)| - 1
    ensures ReplacedNames(m, policy, codec) == ImageNames(m) - {bad}
    ensures RecompressMap(m, policy, codec)[bad] == m[bad]
  {
    FailuresAreIsolated(m, policy, codec);
    assert FailedNames(m, policy, codec) == {bad};
  }

  /** A dictionary without images comes out of the pass unchanged, with no
      replacement counted. */
  lemma NoImagesNoChange(m: map<string, PdfObj>, policy: Policy, codec: Codec)
    requires ImageNames(m) == {}
    ensures RecompressMap(m, policy, codec) == m
    ensures |ReplacedNames(m, policy, codec)| == 0
  {
    forall k | k in m ensures !IsImage(m[k]) {
      assert k !in ImageNames(m);
    }
    assert ReplacedNames(m, policy, codec) == {};
  }

  // ----- One page -----

  /** The number of `/XObject` entries a page's walk visits. */
  function EntryCount(p: Page): nat
  {
    |XObjectNames(p)|
  }

  /** The number of those entries that are images. */
  function ImageCount(p: Page): nat
  {
    var x := XObjectsOf(p);
    if x.Some? && x.value.Dict? then |ImageNames(x.value.entries)| else 0
  }

  /** Walking a page keeps its resource names and its `/XObject` names, and
      keeps a walked `/XObject` dictionary a dictionary. */
  lemma PageWalkKeepsStructure(p: Page, policy: Policy, codec: Codec)
    requires RecompressPage(p, policy, codec).Walked?
    ensures var q := RecompressPage(p, policy, codec).page;
      && (p.resources.Some? <==> q.resources.Some?)
      && (p.resources.Some? ==> q.resources.value.Keys == p.resources.value.Keys)
      && XObjectNames(q) == XObjectNames(p)
      && (XObjectsOf(q).Some? <==> XObjectsOf(p).Some?)
      && (XObjectsOf(q).Some? ==> XObjectsOf(q).value.Dict?)
      && (p.resources.Some? ==> forall k :: k in p.resources.value && k != "/XObject" ==>
            q.resources.value[k] == p.resources.value[k])
  {
    if XObjectsOf(p).Some? {
      var m := XObjectsOf(p).value.entries;
      var q := WithXObjects(p, RecompressMap(m, policy, codec));
      assert RecompressPage(p, policy, codec).page == q;
      assert |q.resources.value| != 0 && "/XObject" in q.resources.value;
      assert XObjectsOf(q) == Some(Dict(RecompressMap(m, policy, codec)));
    }
  }

  /** Walking a page whose `/XObject` value is a dictionary leaves under each
      name the replacement built from that entry, or the old value when none
      was built; every other resource keeps its value; the count is the
      number of replacements (app.py:25-58). */
  lemma PageHoldsReplacements(p: Page, m: map<string, PdfObj>, policy: Policy, codec: Codec)
    requires XObjectsOf(p) == Some(Dict(m))
    ensures var st := RecompressPage(p, policy, codec);
      && st.Walked?
      && st.replaced == |ReplacedNames(m, policy, codec)|
      && XObjectsOf(st.page).Some? && XObjectsOf(st.page).value.Dict?
      && XObjectsOf(st.page).value.entries.Keys == m.Keys
      && (forall k :: k in m ==>
            XObjectsOf(st.page).value.entries[k]
              == if ProcessEntry(m[k], policy, codec).Replaced? then ProcessEntry(m[k], policy, codec).stream
                 else m[k])
      && st.page.resources.value.Keys == p.resources.value.Keys
      && (forall k :: k in p.resources.value && k != "/XObject" ==>
            st.page.resources.value[k] == p.resources.value[k])
  {
    var r := RecompressMap(m, policy, codec);
    var q := WithXObjects(p, r);
    assert RecompressPage(p, policy, codec) == Walked(q, |ReplacedNames(m, policy, codec)|);
    assert |q.resources.value| != 0 && "/XObject" in q.resources.value;
    assert XObjectsOf(q) == Some(Dict(r));
    forall k | k in m
      ensures r[k] == if ProcessEntry(m[k], policy, codec).Replaced? then ProcessEntry(m[k], policy, codec).stream
                      else m[k]
    {
      if ProcessEntry(m[k], policy, codec).Replaced? {
        assert k in ReplacedNames(m, policy, codec);
      }
    }
  }

  /** Walking a page replaces at most its images, and leaves a page without
      images exactly as it was. */
  lemma PageWalkCount(p: Page, policy: Policy, codec: Codec)
    requires RecompressPage(p, policy, codec).Walked?
    ensures RecompressPage(p, policy, codec).replaced <= ImageCount(p) <= EntryCount(p)
    ensures ImageCount(p) == 0 ==> RecompressPage(p, policy, codec).page == p
  {
    if XObjectsOf(p).Some? {
      var m := XObjectsOf(p).value.entries;
      SubsetSize(ReplacedNames(m, policy, codec), ImageNames(m));
      SubsetSize(ImageNames(m), m.Keys);
      if ImageCount(p) == 0 {
        NoImagesNoChange(m, policy, codec);
        WithOwnXObjects(p, m);
      }
    }
  }

  // ----- The whole pass -----

  function TotalEntries(pages: seq<Page>): nat
  {
    if pages == [] then 0 else EntryCount(pages[0]) + TotalEntries(pages[1..])
  }

  function TotalImages(pages: seq<Page>): nat
  {
    if pages == [] then 0 else ImageCount(pages[0]) + TotalImages(pages[1..])
  }

  /** Page by page: before the page that raises (or everywhere, when the
      pass completes) each page is as its own walk leaves it; from the
      raising page on, every page is as it was. */
  lemma {:induction false} PassIsPagewise(pages: seq<Page>, j: nat, policy: Policy, codec: Codec)
    requires j < |pages|
    ensures var r := RecompressPages(pages, policy, codec);
      && (r.outcome.Completed? || j < r.outcome.page ==>
            RecompressPage(pages[j], policy, codec).Walked?
            && r.pages[j] == RecompressPage(pages[j], policy, codec).page)
      && (r.outcome.Raised? && r.outcome.page <= j ==> r.pages[j] == pages[j])
      && (r.outcome.Raised? && r.outcome.page == j ==> RecompressPage(pages[j], policy, codec).Raises?)
  {
    match RecompressPage(pages[0], policy, codec)
    case Raises =>
    case Walked(p, n) =>
      if j > 0 {
        PassIsPagewise(pages[1..], j - 1, policy, codec);
      }
  }

  /** Pages without resources or without an `/XObject` dictionary are left
      untouched, whatever happens elsewhere. */
  lemma PagesWithoutXObjectsUntouched(pages: seq<Page>, j: nat, policy: Policy, codec: Codec)
    requires j < |pages| && XObjectsOf(pages[j]).None?
    ensures RecompressPages(pages, policy, codec).pages[j] == pages[j]
  {
    PassIsPagewise(pages, j, policy, codec);
  }

  /** The pass keeps every page's resource names and `/XObject` names, and
      the value of every resource other than `/XObject`: only `/XObject`
      entries are replaced, never keys added or removed. */
  lemma PassKeepsNames(pages: seq<Page>, j: nat, policy: Policy, codec: Codec)
    requires j < |pages|
    ensures var q := RecompressPages(pages, policy, codec).pages[j];
      && XObjectNames(q) == XObjectNames(pages[j])
      && (q.resources.Some? <==> pages[j].resources.Some?)
      && (q.resources.Some? ==> q.resources.value.Keys == pages[j].resources.value.Keys)
      && (q.resources.Some? ==> forall k :: k in q.resources.value && k != "/XObject" ==>
            q.resources.value[k] == pages[j].resources.value[k])
  {
    PassIsPagewise(pages, j, policy, codec);
    var r := RecompressPages(pages, policy, codec);
    if r.outcome.Completed? || j < r.outcome.page {
      PageWalkKeepsStructure(pages[j], policy, codec);
    }
  }

  /** After a pass that completed, or that raised on a later page, each
      walked page holds under every `/XObject` name the replacement built
      from that entry, or its old value when none was built. */
  lemma PassWritesReplacements(pages: seq<Page>, j: nat, m: map<string, PdfObj>,
                               policy: Policy, codec: Codec)
    requires j < |pages| && XObjectsOf(pages[j]) == Some(Dict(m))
    requires var r := RecompressPages(pages, policy, codec);
      r.outcome.Completed? || j < r.outcome.page
    ensures var q := RecompressPages(pages, policy, codec).pages[j];
      && XObjectsOf(q).Some? && XObjectsOf(q).value.Dict?
      && XObjectsOf(q).value.entries.Keys == m.Keys
      && forall k :: k in m ==>
           XObjectsOf(q).value.entries[k]
             == if ProcessEntry(m[k], policy, codec).Replaced? then ProcessEntry(m[k], policy, codec).stream
                else m[k]
  {
    PassIsPagewise(pages, j, policy, codec);
    PageHoldsReplacements(pages[j], m, policy, codec);
  }

  /** A completed pass returns a count of replacements that is at most the
      number of images, itself at most the number of `/XObject` entries; a
      document without images yields 0 and is left unchanged. */
  lemma {:induction false} CountBounded(pages: seq<Page>, policy: Policy, codec: Codec)
    requires RecompressPages(pages, policy, codec).outcome.Completed?
    ensures var r := RecompressPages(pages, policy, codec);
      && r.outcome.changed <= TotalImages(pages) <= TotalEntries(pages)
      && (TotalImages(pages) == 0 ==> r.outcome.changed == 0 && r.pages == pages)
  {
    if pages != [] {
      PageWalkCount(pages[0], policy, codec);
      CountBounded(pages[1..], policy, codec);
      var p := RecompressPage(pages[0], policy, codec).page;
      if TotalImages(pages) == 0 {
        assert [p] + RecompressPages(pages[1..], policy, codec).pages == [pages[0]] + pages[1..];
      }
    }
  }

  /** The returned count is the number of entries replaced, summed page by page. */
  lemma {:induction false} CountIsReplacements(pages: seq<Page>, policy: Policy, codec: Codec)
    requires RecompressPages(pages, policy, codec).outcome.Completed?
    ensures RecompressPages(pages, policy, codec).outcome.changed == TotalReplaced(pages, policy, codec)
  {
    if pages != [] {
      CountIsReplacements(pages[1..], policy, codec);
    }
  }

  /** Entries replaced by the walk of each page, summed. */
  function TotalReplaced(pages: seq<Page>, policy: Policy, codec: Codec): nat
  {
    if pages == [] then 0
    else
      (var x := XObjectsOf(pages[0]);
       if x.Some? && x.value.Dict? then |ReplacedNames(x.value.entries, policy, codec)| else 0)
      + TotalReplaced(pages[1..], policy, codec)
  }

  /** Images whose library calls fail, summed over the pages' `/XObject`
      dictionaries. */
  function TotalFailed(pages: seq<Page>, policy: Policy, codec: Codec): (n: nat)
    ensures n <= TotalImages(pages)
  {
    if pages == [] then 0
    else
      (var x := XObjectsOf(pages[0]);
       if x.Some? && x.value.Dict? then
         SubsetSize(FailedNames(x.value.entries, policy, codec), ImageNames(x.value.entries));
         |FailedNames(x.value.entries, policy, codec)|
       else 0)
      + TotalFailed(pages[1..], policy, codec)
  }

  /** Across the whole document, a completed pass counts every image except
      those on which a library call fails: one image failing costs only its
      own replacement. */
  lemma {:induction false} PassFailuresAreIsolated(pages: seq<Page>, policy: Policy, codec: Codec)
    requires RecompressPages(pages, policy, codec).outcome.Completed?
    ensures RecompressPages(pages, policy, codec).outcome.changed + TotalFailed(pages, policy, codec)
            == TotalImages(pages)
  {
    if pages != [] {
      PassFailuresAreIsolated(pages[1..], policy, codec);
      var x := XObjectsOf(pages[0]);
      if x.Some? && x.value.Dict? {
        FailuresAreIsolated(x.value.entries, policy, codec);
      }
    }
  }

  /** One corrupted image among otherwise valid ones: the pass returns one
      less than the number of images. */
  lemma PassOneFailingImage(pages: seq<Page>, policy: Policy, codec: Codec)
    requires RecompressPages(pages, policy, codec).outcome.Completed?
    requires TotalFailed(pages, policy, codec) == 1
    ensures RecompressPages(pages, policy, codec).outcome.changed == TotalImages(pages) - 1
  {
    PassFailuresAreIsolated(pages, policy, codec);
  }

  /** Running the pass again on a document it completed on also completes:
      every `/XObject` value it walked is still a dictionary. */
  lemma {:induction false} SecondPassCompletes(pages: seq<Page>, policy: Policy, codec: Codec,
                                               policy2: Policy, codec2: Codec)
    requires RecompressPages(pages, policy, codec).outcome.Completed?
    ensures RecompressPages(RecompressPages(pages, policy, codec).pages, policy2, codec2).outcome.Completed?
  {
    if pages != [] {
      var q := RecompressPage(pages[0], policy, codec).page;
      var after := RecompressPages(pages, policy, codec).pages;
      PageWalkKeepsStructure(pages[0], policy, codec);
      SecondPassCompletes(pages[1..], policy, codec, policy2, codec2);
      assert after[0] == q && after[1..] == RecompressPages(pages[1..], policy, codec).pages;
    }
  }

  // ----- Set sizes -----

  lemma DisjointUnionSize<T>(a: set<T>, b: set<T>)
    requires a !! b
    ensures |a + b| == |a| + |b|
  {
  }

  lemma {:induction false} SubsetSize<T>(a: set<T>, b: set<T>)
    requires a <= b
    ensures |a| <= |b|
  {
    assert b == a + (b - a);
    DisjointUnionSize(a, b - a);
  }
}
