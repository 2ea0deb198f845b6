# PDF image recompression pass, modelled in Dafny

This project models `_recompress_images`, the core of a small PDF compressor. The pass walks every
page of a document. For each page whose resource dictionary has an `/XObject` dictionary, it walks a
snapshot of that dictionary's entries. It keeps only entries whose `/Subtype` is `/Image`. For each
image it does five things:

- decodes the image;
- normalises its colour mode (grayscale flag: `L`; otherwise `L` and `RGB` are kept and every other
  mode becomes `RGB`);
- downscales it, never upscales, when its longer side exceeds `max_side`: to a longer side of
  `max_side` when that is positive (in exact arithmetic; see "## Left out"), and to 1 by 1 when it
  is 0 or negative;
- re-encodes it as JPEG;
- writes a new image stream (`/DCTDecode`, `/DeviceGray` or `/DeviceRGB`, 8 bits per component)
  under the same name.

It counts every replacement. Any exception while an entry is processed skips that entry and leaves it
as it was.

Files and modules:

- `pdf_objects.dfy` (`PdfObjects`): a tagged PDF object datatype (`Null`, `Boolean`, `Integer`,
  `Real`, `Name`, `Str`, `Array`, `Dict`, `Stream`), pages seen through an optional `/Resources`
  dictionary, the subtype test, and the page's `/XObject` lookup.
- `image_policy.dfy` (`ImagePolicy`): the colour rule and the size rule as pure functions, with lemmas.
  Sizes use exact integer arithmetic.
- `recompress.dfy` (`Recompress`): the imaging library as a `Codec` of function values that may fail.
  `ProcessEntry` models the `try` block for one entry. `RecompressMap`, `RecompressPage` and
  `RecompressPages` are the specification functions. The class `Document` holds the page list. Its
  method `RecompressImages` has the page loop. `WalkPage` has one iteration of it, and `WalkXObjects`
  has the entry loop with the counter. All three are proved equal to the specification functions.
- `recompress_properties.dfy` (`RecompressProperties`): lemmas about the whole pass.

In these details the model follows the code:

- Sizes are truncated with `int(...)`, not rounded.
- `max_side` may be any integer. When it is 0 or negative, a shrunk image becomes 1 by 1. An empty
  image with a negative `max_side` divides by zero, which skips that entry. (A `max_side` below about
  -1.8e308 also skips the entry in the source: the division at app.py:37 or the product
  `w * scale` at app.py:39 overflows, and `int()` raises; see "## Left out".)
- `xobjs.items()` is called outside the `try`. So an `/XObject` value on which it raises (an
  integer, a name, an array, ...) raises out of the whole pass (`Raised(page)`), not just out of one
  entry. The pages already walked stay rewritten, and that page and the later ones are left
  untouched.
- An `/XObject` key whose value is the null object counts as absent, as the PDF library treats
  such keys, so the page is not walked.

## Model

| member | source | states |
|---|---|---|
| PdfObjects.XObjectsOf | app.py:21-24 | a page is walked only when it has a resource dictionary holding `/XObject` with a non-null value, and then the walk reads that value; a page without resources, without that key or with a null value there is not walked |
| PdfObjects.IsImage | app.py:27 | only an object carrying a dictionary whose `/Subtype` is `/Image` is classified as an image |
| ImagePolicy.TargetMode | app.py:31-35 | the normalised mode is always `L` or `RGB`; grayscale gives `L`; a mode needing no conversion is kept |
| ImagePolicy.ColorSpaceFor | app.py:43 | the declared colour space is one of `/DeviceGray`, `/DeviceRGB` |
| ImagePolicy.ColourRule | app.py:31-43 | grayscale gives `L` and `/DeviceGray`; otherwise `L`/`RGB` are kept and every other mode becomes `RGB`; `/DeviceGray` exactly when the final mode is `L`, `/DeviceRGB` exactly when it is `RGB` |
| ImagePolicy.TargetModeIdempotent | app.py:31-35 | normalising a normalised mode changes nothing, and outside grayscale mode it needs no converter call |
| ImagePolicy.LongSide | app.py:37 | `max(w, h)` is at least both sides and equal to one of them |
| ImagePolicy.ScaledSide | app.py:39 | a scaled side is at least 1, at most the exact scaled length when that is 1 or more, and exactly 1 otherwise |
| ImagePolicy.ScaleRule | app.py:36-39 | the image is kept exactly when its longer side fits; division by zero exactly for an empty image with negative `max_side`; a shrunk size is at least 1 by 1 |
| ImagePolicy.ScaledSideNeverGrows | app.py:37-39 | downscaling never makes a side longer (an empty side becomes 1) |
| ImagePolicy.ScaledSideAtMostMaxSide | app.py:37-39 | a scaled side is at most `max_side`, and the longer side becomes exactly `max_side` |
| ImagePolicy.ScaledSideWithinOnePixel | app.py:39 | a positive scaled side is within one pixel of `side * max_side / max(w, h)` |
| ImagePolicy.NonPositiveScale | app.py:37-39 | with `max_side <= 0` every scaled side clamps to 1 |
| ImagePolicy.ScaleRuleBounds | app.py:36-39 | fitting images keep their size; shrunk sides lie between 1 and the old side, the longer one equals a positive `max_side`, and both are 1 when `max_side <= 0` |
| ImagePolicy.ScaleRuleKeepsAspect | app.py:37-39 | both new sides are within one pixel of their exactly scaled lengths, so the aspect ratio is kept up to rounding |
| Recompress.ImageStream | app.py:43-54 | the replacement has exactly the keys Filter, Type, Subtype, Width, Height, ColorSpace, BitsPerComponent with `/DCTDecode`, `/XObject`, `/Image`, the image size, `/DeviceGray` exactly for mode `L`, and 8; it carries the JPEG bytes and is itself an image |
| Recompress.Normalize | app.py:31-35 | a normalised image has the target mode and its old size; only a conversion that is actually called can fail |
| Recompress.Resample | app.py:36-39 | no resize when the image fits; otherwise the size rule's size, same mode; a failure happens only when a resize was due |
| Recompress.ProcessEntry | app.py:26-58 | a non-image is skipped; a replacement happens only for an image and is a well-formed JPEG image stream (that an image whose calls all succeed is replaced, and by which stream, is `ReplacedExactlyWhenCallsSucceed`) |
| Recompress.ReplacedNames | app.py:55-56 | the replaced names are names of the dictionary holding images |
| Recompress.RecompressMap | app.py:25-58 | the dictionary keeps exactly its names; unreplaced entries keep their values; a replaced name holds exactly the replacement stream built from its own entry |
| Recompress.RecompressPage | app.py:20-58 | a page without an `/XObject` value is left alone with count 0; the page raises exactly when that value is not a dictionary; when it is a dictionary, the page takes the walked dictionary and the count is the number of replaced names |
| Recompress.WithXObjects | app.py:55 | writing back the `/XObject` dictionary adds no resource name other than `/XObject`, stores the new dictionary there and keeps the value of every other resource |
| Recompress.RecompressPages | app.py:18-59 | the pass keeps the number of pages, and a raise names one of them |
| Recompress.Document.RecompressImages | app.py:18-59 | the page list and returned outcome are exactly those of `RecompressPages` on the old page list |
| Recompress.WalkPage | app.py:21-58 | one iteration of the page loop yields exactly `RecompressPage` of the page and, when the page is walked, adds its count to the counter |
| Recompress.WalkXObjects | app.py:25-58 | the entry loop over a snapshot yields `RecompressMap` of it and adds the number of replaced names to the counter |
| Recompress.CompletedPass | app.py:20-59 | when every page walks without error, the pass returns the walked pages and the sum of their counts |
| Recompress.RaisedAt | app.py:20-25 | when page `i` is the first to raise, the pass stops there with the earlier pages walked and the rest untouched |
| RecompressProperties.ReplacementDescribesImage | app.py:29-54 | a replacement's colour space comes from the normalised decoded mode (grayscale always `/DeviceGray`) and its size from the size rule on the decoded size |
| RecompressProperties.WrittenSize | app.py:36-51 | written Width/Height equal the decoded size when it fits; otherwise each is between 1 and the decoded side, the larger is `max_side` when positive, and both are 1 when `max_side <= 0` |
| RecompressProperties.ReplacementIsImageAgain | app.py:27-49 | a replacement stream is classified as an image on a later pass |
| RecompressProperties.ReplacedExactlyWhenCallsSucceed | app.py:26-58 | an image is replaced exactly when decoding, the due conversion, the due resize and the encoding all succeed (and the size rule does not divide by zero), and then by the stream built from the encoded, resized, normalised image |
| RecompressProperties.ImageNames | app.py:27 | the image names are names of the dictionary |
| RecompressProperties.FailedNames | app.py:29-41 | the images on which a library call fails (or the size rule divides by zero) are among the images |
| RecompressProperties.FailuresAreIsolated | app.py:26-58 | an image is replaced exactly when none of its library calls fails; replaced plus failed count equals the image count; a failed entry keeps its old value |
| RecompressProperties.OneFailingImage | app.py:26-58 | with one image whose calls fail among images whose calls all succeed, every other image is replaced, the count is one less than the images, and the failing entry keeps its value |
| RecompressProperties.NoImagesNoChange | app.py:27-28 | a dictionary without images comes out unchanged with zero replacements |
| RecompressProperties.PageWalkKeepsStructure | app.py:25-55 | walking a page keeps its resource names, its `/XObject` names and the value of every resource other than `/XObject`, and the `/XObject` value stays a dictionary |
| RecompressProperties.PageHoldsReplacements | app.py:25-58 | after walking a page with an `/XObject` dictionary, each name holds the replacement built from its own entry or its old value when none was built, the names and every other resource are kept, and the count is the number of replacements |
| RecompressProperties.PageWalkCount | app.py:25-56 | a page's count is at most its images, which are at most its entries; a page without images is unchanged |
| RecompressProperties.PassIsPagewise | app.py:20-59 | each page before the raising one, or every page when the pass completes, ends as its own walk leaves it; from the raising page on, pages are untouched |
| RecompressProperties.PagesWithoutXObjectsUntouched | app.py:21-23 | pages without resources or without `/XObject` are left exactly as they were |
| RecompressProperties.PassKeepsNames | app.py:25-55 | every page keeps its resource names, its `/XObject` names and the value of every resource other than `/XObject` |
| RecompressProperties.PassWritesReplacements | app.py:18-58 | after a pass that completed or raised on a later page, each walked page holds under every `/XObject` name the replacement built from that entry, or its old value |
| RecompressProperties.TotalFailed | app.py:57-58 | the images whose library calls fail, summed over walked pages, number at most the images |
| RecompressProperties.PassFailuresAreIsolated | app.py:18-59 | a completed pass counts exactly the images whose library calls all succeed: the count plus the failing images equals the images |
| RecompressProperties.PassOneFailingImage | app.py:18-59 | with exactly one failing image in the whole document, a completed pass returns one less than the number of images |
| RecompressProperties.CountBounded | app.py:19-59 | the returned count is at most the number of images, which is at most the number of `/XObject` entries; with no images it is 0 and the pages are unchanged |
| RecompressProperties.CountIsReplacements | app.py:55-59 | the returned count equals the number of entries replaced, summed over pages |
| RecompressProperties.SecondPassCompletes | app.py:18-59 | a second pass over a document the pass completed on also completes |

## Left out

- The web layer (`home`, `compress`, `download`, form parsing, file names, upload directory,
  `send_file`) is request and file I/O. So are `_mb` and the saved-percentage display, which is
  floating-point rounding for display.
- `compress_file`: opening the document and saving it with linearisation, object streams and stream
  compression are done by the PDF library's serialiser. The model starts from the page list and ends
  with the page list and the count.
- Decoding, mode conversion, LANCZOS resampling and JPEG encoding (with `optimize` and `progressive`)
  are the `Codec` function values. Any of them may fail. Pixel values are an opaque byte sequence.
  The model assumes a conversion gives the requested mode at the same size, and a resize gives the
  requested size in the same mode. JPEG size as a function of quality is not modelled. The quality is
  passed through unchanged.
- ImagePolicy.ScaledSide: the source computes `int(w * scale)` in double-precision floats, and the
  model uses exact floor division. The float product can land one pixel below the exact result. For
  a longer side of 2^54 or more the float ratio can also round to 1.0, so the source would skip the
  resize there.
- ImagePolicy.ScaleRule: for the same reason, it states the exact-arithmetic rule, not the
  float-rounded one. In particular it does not model the overflow of the float arithmetic. When `max_side`
  is below about -1.8e308, the division at app.py:37 or the product `w * scale` at app.py:39
  overflows, `int()` raises `OverflowError`, and the source skips the entry without counting it. The
  model shrinks that image to 1 by 1 and replaces it.
- Pages and their dictionaries are values. The model does not capture object identity or sharing
  between pages, where a shared image would be processed and counted once per page.
- Indirect references are resolved before the pass sees them, so they do not appear. The model
  reads `/Resources` only from the page itself, as `page.get` does, and always as a dictionary.
- Recompress.WalkXObjects: entries are taken in an arbitrary order, not the dictionary's insertion
  order. Each entry's result depends only on its own value, so the final dictionary and the count
  are the same.
- Recompress.Document.RecompressImages: replacements are collected in the snapshot's copy and stored
  into the page once, after the entry loop. Nothing in that loop can raise out of it, so the stored
  state is the one the in-place writes leave.
- Recompress.RecompressPage: a `Stream` as the `/XObject` value raises in the model. The PDF
  library's `items()` on a stream goes through the stream's own dictionary, so the source would walk
  that dictionary and write the replacements into it. Every other value that is neither null nor a
  dictionary raises in both.
- The `Codec` is any set of functions. In particular `decode` is not forced to fail on an object
  without stream data (a `Dict` whose `/Subtype` is `/Image`), which the source can never decode. So
  the model allows more successful decodes than the source. Every lemma holds for every codec.
- The `/Length` entry that the serialiser maintains is left out. So are failures of the stream
  constructor and of the dictionary store.
