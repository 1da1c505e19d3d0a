/** The glyph-fit sizer of PDFDocument: a unit-step search from size 17 for
    the font size at which a text's rendered width crosses the width of its
    OCR bounding box. Widths are reals here, not 32-bit floats. */
module FontSize {
  import opened Types

  /** The size the search starts from. */
  const InitialSize: int := 17

  /** Height of the Courier font bounding box (FontBBox -23 -250 715 805 in
      the Adobe Courier font metrics), in thousandths of the font size. */
  const CourierBBoxHeight: real := 1055.0

  /** Rendered width, at `size`, of a text whose advance width is
      `stringWidth` thousandths of the font size. */
  function Width(stringWidth: real, size: int): real {
    stringWidth / 1000.0 * size as real
  }

  /** Height of a line of text at `size`, from the Courier bounding box
      whatever font draws the text. */
  function TextHeight(size: int): real {
    CourierBBoxHeight / 1000.0 * size as real
  }

  /** The two searches of calculateFontSize end: either the width grows with
      the size, or the start size already fits exactly and neither runs. With
      a zero or negative advance width and any other target they never end. */
  predicate Sizable(stringWidth: real, bbWidth: real) {
    stringWidth > 0.0 || Width(stringWidth, InitialSize) == bbWidth
  }

  lemma WidthVersusQuotient(stringWidth: real, bbWidth: real, size: int)
    requires stringWidth > 0.0
    ensures Width(stringWidth, size) <= bbWidth <==> size as real <= 1000.0 * bbWidth / stringWidth
    ensures Width(stringWidth, size) >= bbWidth <==> size as real >= 1000.0 * bbWidth / stringWidth
  {
    var c, s, q := stringWidth / 1000.0, size as real, 1000.0 * bbWidth / stringWidth;
    assert c * q == bbWidth;
    assert Width(stringWidth, size) == c * s;
    assert c * s - bbWidth == c * (s - q);
    if s <= q {
      assert c * (s - q) <= 0.0;
    } else {
      assert c * (s - q) > 0.0;
    }
    if s >= q {
      assert c * (s - q) >= 0.0;
    } else {
      assert c * (s - q) < 0.0;
    }
  }

  /** The size calculateFontSize settles on, in closed form: just under the
      target when 17 is too wide, just over it when 17 is too narrow. */
  function FitSize(stringWidth: real, bbWidth: real): (size: int)
    requires Sizable(stringWidth, bbWidth)
    ensures Width(stringWidth, InitialSize) == bbWidth ==> size == InitialSize
    ensures Width(stringWidth, InitialSize) > bbWidth ==>
              size < InitialSize && Width(stringWidth, size) <= bbWidth < Width(stringWidth, size + 1)
    ensures Width(stringWidth, InitialSize) < bbWidth ==>
              size > InitialSize && Width(stringWidth, size - 1) < bbWidth <= Width(stringWidth, size)
  {
    var w := Width(stringWidth, InitialSize);
    if w == bbWidth then InitialSize
    else
      var q := 1000.0 * bbWidth / stringWidth;
      WidthVersusQuotient(stringWidth, bbWidth, InitialSize);
      if w > bbWidth then
        var size := q.Floor;
        WidthVersusQuotient(stringWidth, bbWidth, size);
        WidthVersusQuotient(stringWidth, bbWidth, size + 1);
        size
      else
        var size := -((-q).Floor);
        WidthVersusQuotient(stringWidth, bbWidth, size);
        WidthVersusQuotient(stringWidth, bbWidth, size - 1);
        size
  }

  /** A wider target never gives a smaller font. */
  lemma FitSizeMonotone(stringWidth: real, bbWidth1: real, bbWidth2: real)
    requires Sizable(stringWidth, bbWidth1) && Sizable(stringWidth, bbWidth2)
    requires bbWidth1 <= bbWidth2
    ensures FitSize(stringWidth, bbWidth1) <= FitSize(stringWidth, bbWidth2)
  {
    var w := Width(stringWidth, InitialSize);
    if stringWidth > 0.0 && w != bbWidth1 && w != bbWidth2 {
      var q1, q2 := 1000.0 * bbWidth1 / stringWidth, 1000.0 * bbWidth2 / stringWidth;
      assert q2 - q1 == 1000.0 * (bbWidth2 - bbWidth1) / stringWidth;
      assert q1 <= q2;
    }
  }

  /** What calculateFontSize returns: the size, the height of the line at
      that size, and the rendered width at that size. */
  datatype FontInfo = FontInfo(fontSize: int, textHeight: real, textWidth: real)

  /** calculateFontSize: shrinks the size from 17 while the text is wider
      than `bbWidth`, or grows it while the text is narrower. */
  method CalculateFontSize<F>(stringWidth: (F, Text) -> real, font: F, text: Text, bbWidth: real) returns (fi: FontInfo)
    requires Sizable(stringWidth(font, text), bbWidth)
    ensures fi.fontSize == FitSize(stringWidth(font, text), bbWidth)
    ensures fi.textWidth == Width(stringWidth(font, text), fi.fontSize)
    ensures fi.textHeight == TextHeight(fi.fontSize)
    ensures Width(stringWidth(font, text), InitialSize) == bbWidth ==> fi.fontSize == InitialSize
    ensures Width(stringWidth(font, text), InitialSize) > bbWidth ==>
              && fi.fontSize < InitialSize && fi.textWidth <= bbWidth
              && forall k :: fi.fontSize < k <= InitialSize ==> Width(stringWidth(font, text), k) > bbWidth
    ensures Width(stringWidth(font, text), InitialSize) < bbWidth ==>
              && fi.fontSize > InitialSize && fi.textWidth >= bbWidth
              && forall k :: InitialSize <= k < fi.fontSize ==> Width(stringWidth(font, text), k) < bbWidth
  {
    ghost var sw := stringWidth(font, text);
    ghost var target := FitSize(sw, bbWidth);
    var fontSize := InitialSize;
    var textWidth := stringWidth(font, text) / 1000.0 * fontSize as real;
    if textWidth > bbWidth {
      while textWidth > bbWidth
        invariant target <= fontSize <= InitialSize
        invariant textWidth == Width(sw, fontSize)
        invariant forall k :: fontSize < k <= InitialSize ==> Width(sw, k) > bbWidth
        decreases fontSize - target
      {
        fontSize := fontSize - 1;
        textWidth := stringWidth(font, text) / 1000.0 * fontSize as real;
      }
      WidthVersusQuotient(sw, bbWidth, fontSize);
      WidthVersusQuotient(sw, bbWidth, target + 1);
    } else if textWidth < bbWidth {
      while textWidth < bbWidth
        invariant InitialSize <= fontSize <= target
        invariant textWidth == Width(sw, fontSize)
        invariant forall k :: InitialSize <= k < fontSize ==> Width(sw, k) < bbWidth
        decreases target - fontSize
      {
        fontSize := fontSize + 1;
        textWidth := stringWidth(font, text) / 1000.0 * fontSize as real;
      }
      WidthVersusQuotient(sw, bbWidth, fontSize);
      WidthVersusQuotient(sw, bbWidth, target - 1);
    }
    fi := FontInfo(fontSize, CourierBBoxHeight / 1000.0 * fontSize as real, textWidth);
  }
}
