/**
 * Placement of one signature field on a page: the arithmetic of the body of the
 * `for (const f of fields)` loop of the `/sign-pdf` handler.
 *
 * All quantities are mathematical reals; IEEE-754 rounding is not modelled.
 */
module Geometry {

  /** A field of the request: a 1-based page number and a rectangle given as
      fractions of that page, measured from the page's top-left corner. */
  datatype Field = Field(page: int, leftPct: real, topPct: real, widthPct: real, heightPct: real)

  /** A rectangle in PDF points, origin at the bottom-left corner of the page. */
  datatype Rect = Rect(x: real, y: real, width: real, height: real)

  /** A width and a height in PDF points. */
  datatype Size = Size(width: real, height: real)

  /** `b` lies within `outer` (edges may touch). */
  predicate Inside(b: Rect, outer: Rect)
  {
    && outer.x <= b.x && b.x + b.width <= outer.x + outer.width
    && outer.y <= b.y && b.y + b.height <= outer.y + outer.height
  }

  /** The field's box in points on a page of `pdfW` by `pdfH` points, its y flipped
      to the bottom-left origin. Its top edge sits `topPct` of the page below the
      page's top edge, and its right edge `leftPct + widthPct` of the page from the left. */
  function FieldBox(f: Field, pdfW: real, pdfH: real): (b: Rect)
    ensures b.y + b.height == pdfH * (1.0 - f.topPct)
    ensures b.x + b.width == (f.leftPct + f.widthPct) * pdfW
    ensures b.width == f.widthPct * pdfW && b.height == f.heightPct * pdfH
  {
    Rect(f.leftPct * pdfW, pdfH * (1.0 - (f.topPct + f.heightPct)), f.widthPct * pdfW, f.heightPct * pdfH)
  }

  /** A field whose fractions lie in [0,1] and do not run past the right or the
      bottom edge has its box inside the page. */
  lemma FieldBoxWithinPage(f: Field, pdfW: real, pdfH: real)
    requires pdfW >= 0.0 && pdfH >= 0.0
    requires 0.0 <= f.leftPct && 0.0 <= f.widthPct && f.leftPct + f.widthPct <= 1.0
    requires 0.0 <= f.topPct && 0.0 <= f.heightPct && f.topPct + f.heightPct <= 1.0
    ensures Inside(FieldBox(f, pdfW, pdfH), Rect(0.0, 0.0, pdfW, pdfH))
  {
    var b := FieldBox(f, pdfW, pdfH);
    assert 0.0 <= f.leftPct * pdfW by { MulNonNegative(f.leftPct, pdfW); }
    assert (f.leftPct + f.widthPct) * pdfW <= pdfW by { MulAtMostOne(f.leftPct + f.widthPct, pdfW); }
    assert 0.0 <= pdfH * (1.0 - (f.topPct + f.heightPct)) by { MulNonNegative(pdfH, 1.0 - (f.topPct + f.heightPct)); }
    assert pdfH * (1.0 - f.topPct) <= pdfH by { MulAtMostOne(1.0 - f.topPct, pdfH); }
  }

  lemma MulNonNegative(a: real, b: real)
    requires 0.0 <= a && 0.0 <= b
    ensures 0.0 <= a * b
  {}

  lemma MulAtMostOne(a: real, b: real)
    requires a <= 1.0 && 0.0 <= b
    ensures a * b <= b
  {
    assert b - a * b == (1.0 - a) * b;
    MulNonNegative(1.0 - a, b);
  }

  /** The test `imgRatio > boxRatio` with `boxRatio = w / h` as JavaScript evaluates
      it, for a finite positive `ratio`: for `h == 0` the quotient is +Infinity,
      -Infinity or NaN, and only -Infinity (w < 0) lets the test succeed. */
  predicate Wider(ratio: real, w: real, h: real)
  {
    if h > 0.0 then ratio * h > w
    else if h < 0.0 then ratio * h < w
    else w < 0.0
  }

  /** For a box of non-zero height, Wider is exactly the comparison of the two ratios. */
  lemma WiderIsRatioComparison(ratio: real, w: real, h: real)
    requires h != 0.0
    ensures Wider(ratio, w, h) <==> ratio > w / h
  {
    assert w == (w / h) * h;
    if h > 0.0 {
      assert ratio * h - w == (ratio - w / h) * h;
      SignOfProduct(ratio - w / h, h);
    } else {
      assert w - ratio * h == (ratio - w / h) * (-h);
      SignOfProduct(ratio - w / h, -h);
    }
  }

  lemma SignOfProduct(a: real, b: real)
    requires b > 0.0
    ensures a > 0.0 <==> a * b > 0.0
  {
    if a > 0.0 {
      assert a * b > 0.0;
    } else {
      assert (-a) * b >= 0.0 by { MulNonNegative(-a, b); }
    }
  }

  /** The size at which an image of aspect ratio `ratio` (width / height) is drawn
      into a box of `w` by `h` points: constrained by the width when the image is
      relatively wider than the box, by the height otherwise. */
  function Fit(w: real, h: real, ratio: real): (s: Size)
    requires ratio > 0.0
    ensures s.width == s.height * ratio
    ensures Wider(ratio, w, h) ==> s.width == w
    ensures !Wider(ratio, w, h) ==> s.height == h
  {
    if Wider(ratio, w, h) then Size(w, w / ratio) else Size(h * ratio, h)
  }

  /** In a box of positive size the fitted image is never larger than the box. */
  lemma FitContained(w: real, h: real, ratio: real)
    requires w > 0.0 && h > 0.0 && ratio > 0.0
    ensures 0.0 < Fit(w, h, ratio).width <= w
    ensures 0.0 < Fit(w, h, ratio).height <= h
  {
    var s := Fit(w, h, ratio);
    if Wider(ratio, w, h) {
      assert s.height * ratio == w;
      assert s.height * ratio <= h * ratio;
      assert s.height <= h by { Cancel(s.height, h, ratio); }
      assert s.height > 0.0 by { SignOfProduct(s.height, ratio); }
    } else {
      assert s.width == h * ratio;
      assert s.width > 0.0 by { SignOfProduct(h, ratio); }
    }
  }

  lemma Cancel(a: real, b: real, c: real)
    requires c > 0.0 && a * c <= b * c
    ensures a <= b
  {
    assert (b - a) * c == b * c - a * c;
    if a > b {
      SignOfProduct(a - b, c);
    }
  }

  /** The fit is the largest undistorted size that the box holds: every size of the
      same aspect ratio that stays within the box is no wider than the fit. */
  lemma FitIsLargest(w: real, h: real, ratio: real, t: Size)
    requires w > 0.0 && h > 0.0 && ratio > 0.0
    requires t.width == t.height * ratio && t.width <= w && t.height <= h
    ensures t.width <= Fit(w, h, ratio).width
    ensures t.height <= Fit(w, h, ratio).height
  {
    var s := Fit(w, h, ratio);
    if Wider(ratio, w, h) {
      assert t.height * ratio <= s.height * ratio;
      Cancel(t.height, s.height, ratio);
    } else {
      assert t.height * ratio <= h * ratio by {
        assert (h - t.height) * ratio == h * ratio - t.height * ratio;
        MulNonNegative(h - t.height, ratio);
      }
    }
  }

  /** The rectangle of size `s` centred in `box`. */
  function Centre(box: Rect, s: Size): (r: Rect)
    ensures r.width == s.width && r.height == s.height
    ensures r.x - box.x == (box.x + box.width) - (r.x + r.width)
    ensures r.y - box.y == (box.y + box.height) - (r.y + r.height)
  {
    Rect(box.x + (box.width - s.width) / 2.0, box.y + (box.height - s.height) / 2.0, s.width, s.height)
  }

  /** Where the handler draws the image for field `f` on a page of `pdfW` by `pdfH`
      points, for an image of aspect ratio `ratio`. */
  function Place(f: Field, pdfW: real, pdfH: real, ratio: real): (r: Rect)
    requires ratio > 0.0
    ensures r.width == r.height * ratio
  {
    var box := FieldBox(f, pdfW, pdfH);
    Centre(box, Fit(box.width, box.height, ratio))
  }

  /** For a field of positive size the drawn image is undistorted, lies inside the
      field's box, touches both sides of the box along the constraining dimension,
      and leaves equal margins on each axis. */
  lemma PlaceInField(f: Field, pdfW: real, pdfH: real, ratio: real)
    requires ratio > 0.0
    requires f.widthPct * pdfW > 0.0 && f.heightPct * pdfH > 0.0
    ensures var box := FieldBox(f, pdfW, pdfH);
            var r := Place(f, pdfW, pdfH, ratio);
            && Inside(r, box)
            && r.width == r.height * ratio
            && (Wider(ratio, box.width, box.height) ==> r.x == box.x && r.width == box.width)
            && (!Wider(ratio, box.width, box.height) ==> r.y == box.y && r.height == box.height)
            && r.x - box.x == (box.x + box.width) - (r.x + r.width)
            && r.y - box.y == (box.y + box.height) - (r.y + r.height)
  {
    var box := FieldBox(f, pdfW, pdfH);
    FitContained(box.width, box.height, ratio);
  }

  /** With a well-formed field on a page of non-negative size, the drawn image
      stays on the page. */
  lemma PlaceOnPage(f: Field, pdfW: real, pdfH: real, ratio: real)
    requires ratio > 0.0 && pdfW > 0.0 && pdfH > 0.0
    requires 0.0 <= f.leftPct && 0.0 < f.widthPct && f.leftPct + f.widthPct <= 1.0
    requires 0.0 <= f.topPct && 0.0 < f.heightPct && f.topPct + f.heightPct <= 1.0
    ensures Inside(Place(f, pdfW, pdfH, ratio), Rect(0.0, 0.0, pdfW, pdfH))
  {
    MulPositive(f.widthPct, pdfW);
    MulPositive(f.heightPct, pdfH);
    PlaceInField(f, pdfW, pdfH, ratio);
    FieldBoxWithinPage(f, pdfW, pdfH);
  }

  lemma MulPositive(a: real, b: real)
    requires 0.0 < a && 0.0 < b
    ensures 0.0 < a * b
  {
    SignOfProduct(a, b);
  }

  /** The US Letter example: a 3:1 image in a field of 30% by 10% of the page is
      constrained by the width and centred vertically. */
  lemma LetterExample()
    ensures Place(Field(1, 0.1, 0.8, 0.3, 0.1), 612.0, 792.0, 3.0) == Rect(61.2, 88.2, 183.6, 61.2)
  {
    assert Wider(3.0, 183.6, 79.2);
  }
}
