/** The two pure rules of the pass: which colour mode an image is brought to
    (and the colour space then declared for it), and which size it is
    brought to. Sizes use exact integer arithmetic. */
module ImagePolicy {
  import opened PdfObjects

  /** The two colour modes the encoder accepts. */
  const Gray: string := "L"
  const Rgb: string := "RGB"

  /** Whether the pass calls the converter on an image of this mode
      (app.py:31-35): always in grayscale mode, otherwise only for a mode
      other than `L` and `RGB`. */
  predicate NeedsConvert(mode: string, grayscale: bool)
  {
    grayscale || (mode != Rgb && mode != Gray)
  }

  /** The mode an image has once normalised (app.py:31-35). */
  function TargetMode(mode: string, grayscale: bool): (r: string)
    ensures r == Gray || r == Rgb
    ensures grayscale ==> r == Gray
    ensures !NeedsConvert(mode, grayscale) ==> r == mode
  {
    if grayscale then Gray
    else if mode == Gray || mode == Rgb then mode
    else Rgb
  }

  /** The colour space declared for an encoded image of this mode (app.py:43). */
  function ColorSpaceFor(mode: string): (cs: PdfObj)
    ensures cs == Name("/DeviceGray") || cs == Name("/DeviceRGB")
  {
    if mode == Gray then Name("/DeviceGray") else Name("/DeviceRGB")
  }

  /** The colour rule as a whole: grayscale gives `L`; otherwise `L` and
      `RGB` are kept and every other mode becomes `RGB`; the declared colour
      space is `/DeviceGray` exactly when the final mode is `L`. */
  lemma ColourRule(mode: string, grayscale: bool)
    ensures grayscale ==> TargetMode(mode, grayscale) == Gray
    ensures !grayscale && (mode == Gray || mode == Rgb) ==> TargetMode(mode, grayscale) == mode
    ensures !grayscale && mode != Gray && mode != Rgb ==> TargetMode(mode, grayscale) == Rgb
    ensures ColorSpaceFor(TargetMode(mode, grayscale)) == Name("/DeviceGray")
            <==> TargetMode(mode, grayscale) == Gray
    ensures ColorSpaceFor(TargetMode(mode, grayscale)) == Name("/DeviceRGB")
            <==> TargetMode(mode, grayscale) == Rgb
    ensures grayscale ==> ColorSpaceFor(TargetMode(mode, grayscale)) == Name("/DeviceGray")
  {
  }

  /** A normalised mode is a fixed point: normalising again with the same
      flag changes nothing, and outside grayscale mode no converter call is
      made for it. */
  lemma TargetModeIdempotent(mode: string, grayscale: bool)
    ensures TargetMode(TargetMode(mode, grayscale), grayscale) == TargetMode(mode, grayscale)
    ensures !NeedsConvert(TargetMode(mode, grayscale), false)
  {
  }

  /** `max(w, h)` of app.py:37. */
  function LongSide(w: nat, h: nat): (m: nat)
    ensures w <= m && h <= m && (m == w || m == h)
  {
    if w < h then h else w
  }

  /** What the size rule does with a `w` by `h` image. */
  datatype Scale =
    | Keep                               // no resize call
    | Shrink(width: nat, height: nat)    // resize to exactly this size
    | ZeroSide                           // `max_side / max(w, h)` divides by zero

  /** One side after downscaling: `max(1, int(side * max_side / longest))`
      (app.py:39), in exact arithmetic. For a negative product the floor and
      the truncation differ, but both are at most 0 and clamp to 1. */
  function ScaledSide(side: nat, longest: nat, maxSide: int): (r: nat)
    requires longest > 0
    ensures r >= 1
    ensures side * maxSide >= longest ==> r * longest <= side * maxSide
    ensures side * maxSide < longest ==> r == 1
  {
    var q := side * maxSide / longest;
    if q < 1 then 1 else q
  }

  /** The downscale-only size rule (app.py:36-39). An image whose longer side
      fits is kept; otherwise both sides are scaled by `max_side / max(w, h)`.
      An empty image with a negative `max_side` reaches the division by zero. */
  function ScaleRule(w: nat, h: nat, maxSide: int): (s: Scale)
    ensures s.Keep? <==> LongSide(w, h) <= maxSide
    ensures s.ZeroSide? <==> maxSide < 0 && w == 0 && h == 0
    ensures s.Shrink? ==> s.width >= 1 && s.height >= 1
  {
    var m := LongSide(w, h);
    if m <= maxSide then Keep
    else if m == 0 then ZeroSide
    else Shrink(ScaledSide(w, m, maxSide), ScaledSide(h, m, maxSide))
  }

  /** A side scaled by a factor below one never grows, except that an empty
      side is clamped up to one pixel. */
  lemma ScaledSideNeverGrows(side: nat, longest: nat, maxSide: int)
    requires 0 < longest && side <= longest && maxSide < longest
    ensures ScaledSide(side, longest, maxSide) <= if side == 0 then 1 else side
  {
    if side * maxSide >= longest {
      assert side * maxSide <= longest * side by {
        MulLeftMonotone(side, maxSide, longest);
      }
      DivBelow(side * maxSide, longest, side);
    }
  }

  /** The longer side is scaled to exactly `max_side`, and the shorter one to
      at most `max_side`. */
  lemma ScaledSideAtMostMaxSide(side: nat, longest: nat, maxSide: int)
    requires 0 < side <= longest && 1 <= maxSide < longest
    ensures ScaledSide(side, longest, maxSide) <= maxSide
    ensures side == longest ==> ScaledSide(side, longest, maxSide) == maxSide
  {
    MulLeftMonotone(maxSide, side, longest);
    assert side * maxSide <= longest * maxSide;
    DivBelow(side * maxSide, longest, maxSide);
    if side == longest {
      assert side * maxSide / longest == maxSide by {
        DivExact(maxSide, longest);
      }
    }
  }

  /** A positive side is within one pixel of its exact scaled length
      `side * max_side / longest`. */
  lemma ScaledSideWithinOnePixel(side: nat, longest: nat, maxSide: int)
    requires 0 < side && 0 < longest && 1 <= maxSide
    ensures var r := ScaledSide(side, longest, maxSide);
      (r - 1) * longest < side * maxSide < (r + 1) * longest
  {
    var r := ScaledSide(side, longest, maxSide);
    var q := side * maxSide / longest;
    assert q * longest <= side * maxSide < q * longest + longest;
    if q < 1 {
      assert r == 1;
      assert 0 < side * maxSide;
    } else {
      assert r == q;
    }
  }

  /** The size rule as the pass applies it: a fitting image keeps its size;
      a shrunk one keeps each side between 1 and its old length (an empty
      side becomes 1), its longer side becomes exactly `max_side` when that
      is positive, and both sides become 1 when `max_side` is not positive. */
  lemma ScaleRuleBounds(w: nat, h: nat, maxSide: int)
    ensures LongSide(w, h) <= maxSide ==> ScaleRule(w, h, maxSide) == Keep
    ensures ScaleRule(w, h, maxSide).Shrink? ==>
      var s := ScaleRule(w, h, maxSide);
      && 1 <= s.width <= (if w == 0 then 1 else w)
      && 1 <= s.height <= (if h == 0 then 1 else h)
      && (maxSide >= 1 ==> LongSide(s.width, s.height) == maxSide)
      && (maxSide <= 0 ==> s.width == 1 && s.height == 1)
  {
    var m := LongSide(w, h);
    if m > maxSide && m > 0 {
      ScaledSideNeverGrows(w, m, maxSide);
      ScaledSideNeverGrows(h, m, maxSide);
      if maxSide >= 1 {
        if w == m {
          ScaledSideAtMostMaxSide(w, m, maxSide);
          if h > 0 { ScaledSideAtMostMaxSide(h, m, maxSide); }
        } else {
          ScaledSideAtMostMaxSide(h, m, maxSide);
          if w > 0 { ScaledSideAtMostMaxSide(w, m, maxSide); }
        }
      } else {
        NonPositiveScale(w, m, maxSide);
        NonPositiveScale(h, m, maxSide);
      }
    }
  }

  /** With a non-positive `max_side` every scaled side clamps to one pixel. */
  lemma NonPositiveScale(side: nat, longest: nat, maxSide: int)
    requires longest > 0 && maxSide <= 0
    ensures ScaledSide(side, longest, maxSide) == 1
  {
    assert side * maxSide <= 0 by { MulSignLemma(side, maxSide); }
  }

  /** Both sides of a shrunk image are within one pixel of their exact
      scaled lengths, so the aspect ratio is kept up to rounding. */
  lemma ScaleRuleKeepsAspect(w: nat, h: nat, maxSide: int)
    requires 0 < w && 0 < h && 1 <= maxSide < LongSide(w, h)
    ensures var s := ScaleRule(w, h, maxSide); var m := LongSide(w, h);
      && (s.width - 1) * m < w * maxSide < (s.width + 1) * m
      && (s.height - 1) * m < h * maxSide < (s.height + 1) * m
  {
    ScaledSideWithinOnePixel(w, LongSide(w, h), maxSide);
    ScaledSideWithinOnePixel(h, LongSide(w, h), maxSide);
  }

  // Small arithmetic facts used above.

  lemma MulLeftMonotone(a: nat, b: int, c: int)
    requires b <= c
    ensures a * b <= a * c
  {
  }

  lemma MulSignLemma(a: nat, b: int)
    requires b <= 0
    ensures a * b <= 0
  {
  }

  lemma DivBelow(x: int, d: int, bound: int)
    requires d > 0 && x <= d * bound
    ensures x / d <= bound
  {
  }

  lemma DivExact(a: int, d: int)
    requires d > 0
    ensures d * a / d == a
  {
    var q, r := d * a / d, d * a % d;
    assert d * (a - q) == r;
    if a - q >= 1 {
      MulLeftMonotone(d, 1, a - q);
    } else if a - q <= -1 {
      MulLeftMonotone(d, a - q, -1);
    }
  }
}
