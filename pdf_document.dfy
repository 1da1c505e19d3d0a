/** The overlay compositor of PDFDocument: every page of the output is the
    page image with one invisible text draw per (line, run) pair on top. */
module Compositor {
  import opened Types
  import opened FontFallback
  import opened FontSize

  /** How the page image is embedded: JPEG or lossless. */
  datatype ImageType = JPEG | LOSSLESS

  /** A rendered page image; only its size in pixels matters here. */
  datatype Image = Image(width: nat, height: nat)

  /** One invisible text draw: the font and size set, the offset the text
      starts at (origin at the bottom left of the page), and the text shown. */
  datatype Draw<F> = Draw(font: F, fontSize: int, x: real, y: real, text: Text)

  /** A page of the output document: its media box, the image drawn at the
      origin as background, and the text draws over it, in the order issued. */
  datatype Page<F> = Page(width: real, height: real, background: Image, imageType: ImageType, draws: seq<Draw<F>>)

  /** The draws issued so far and the error that stopped them, if one did. */
  datatype Content<F> = Content(draws: seq<Draw<F>>, failure: Option<Error>)

  /** An OCR line in page units: the left edge of its box, the height of the
      box's top edge above the bottom of the page, and the box width. */
  datatype Placed = Placed(x: real, yTop: real, boxWidth: real, text: Text)

  /** The conversion addPage applies to a line's fractional box on a page of
      `pageWidth` by `pageHeight`: the top is measured from the top of the
      page, the offsets from the bottom. */
  function Place(line: TextLine, pageWidth: real, pageHeight: real): Placed {
    Placed(line.left * pageWidth, pageHeight - pageHeight * line.top, line.width * pageWidth, line.text)
  }

  function PlaceAll(lines: seq<TextLine>, pageWidth: real, pageHeight: real): (ps: seq<Placed>)
    ensures |ps| == |lines|
    ensures forall i :: 0 <= i < |lines| ==> ps[i] == Place(lines[i], pageWidth, pageHeight)
  {
    seq(|lines|, i requires 0 <= i < |lines| => Place(lines[i], pageWidth, pageHeight))
  }

  /** The first code point of `text` that `font` cannot encode. The
      getStringWidth call that opens calculateFontSize encodes the whole
      line text with the run's font, with the same encode operation fontify
      probes fonts with, and fails on such a code point before any sizing,
      beginText or showText happens. */
  function FirstUnencodable<F>(canEncode: (F, CodePoint) -> bool, font: F, text: Text): (r: Option<CodePoint>)
    ensures r.None? <==> forall i :: 0 <= i < |text| ==> canEncode(font, text[i])
    ensures r.Some? ==> exists i :: 0 <= i < |text| && text[i] == r.value && !canEncode(font, text[i])
                                    && forall j :: 0 <= j < i ==> canEncode(font, text[j])
  {
    if text == [] then None
    else if !canEncode(font, text[0]) then Some(text[0])
    else
      var r := FirstUnencodable(canEncode, font, text[1..]);
      assert forall i :: 0 <= i < |text| - 1 ==> text[1..][i] == text[i + 1];
      assert r.Some? ==> exists i :: 0 < i < |text| && text[i] == r.value && !canEncode(font, text[i])
                                     && forall j :: 0 <= j < i ==> canEncode(font, text[j]);
      r
  }

  /** The size search calculateFontSize does for a run of a line ends: the
      search on the whole line text against the box width. It is only asked
      of runs whose font can encode the line text, since for any other run
      getStringWidth fails before the search starts. */
  ghost predicate RunsSizable<F>(chain: FontChain<F>, runs: seq<TextWithFont<F>>, p: Placed) {
    forall j :: 0 <= j < |runs| && FirstUnencodable(chain.canEncode, runs[j].font, p.text).None? ==>
      Sizable(chain.stringWidth(runs[j].font, p.text), p.boxWidth)
  }

  ghost predicate LineSizable<F>(chain: FontChain<F>, p: Placed) {
    var runs := Runs(chain.fonts, chain.canEncode, p.text);
    runs.Ok? ==> RunsSizable(chain, runs.value, p)
  }

  ghost predicate LinesSizable<F>(chain: FontChain<F>, ps: seq<Placed>) {
    forall i :: 0 <= i < |ps| ==> LineSizable(chain, ps[i])
  }

  /** A draw of the whole line text in `font` at `size`, at the left edge of
      the box and one text height below its top. */
  function DrawAt<F>(font: F, size: int, p: Placed): Draw<F> {
    Draw(font, size, p.x, p.yTop - TextHeight(size), p.text)
  }

  /** The draw addPage issues for one run of a line: the run's font, sized
      on the whole line text against the box width. */
  function RunDraw<F>(chain: FontChain<F>, run: TextWithFont<F>, p: Placed): Draw<F>
    requires Sizable(chain.stringWidth(run.font, p.text), p.boxWidth)
  {
    DrawAt(run.font, FitSize(chain.stringWidth(run.font, p.text), p.boxWidth), p)
  }

  /** The draws for the runs of one line, stopping at the first run whose
      font cannot show the whole line text. */
  function RunsContent<F>(chain: FontChain<F>, runs: seq<TextWithFont<F>>, p: Placed): Content<F>
    requires RunsSizable(chain, runs, p)
    decreases |runs|
  {
    if runs == [] then Content([], None)
    else
      var before := RunsContent(chain, runs[..|runs| - 1], p);
      var run := runs[|runs| - 1];
      if before.failure.Some? then before
      else match FirstUnencodable(chain.canEncode, run.font, p.text)
        case Some(cp) => Content(before.draws, Some(NoGlyph(cp)))
        case None => Content(before.draws + [RunDraw(chain, run, p)], None)
  }

  /** The draws for one line: nothing and an error when fontify fails. */
  function LineContent<F(==)>(chain: FontChain<F>, p: Placed): Content<F>
    requires LineSizable(chain, p)
  {
    match Runs(chain.fonts, chain.canEncode, p.text)
    case Err(e) => Content([], Some(e))
    case Ok(runs) => RunsContent(chain, runs, p)
  }

  /** The draws for the lines of a page, line after line, stopping at the
      first error. */
  function PageContent<F(==)>(chain: FontChain<F>, ps: seq<Placed>): Content<F>
    requires LinesSizable(chain, ps)
    decreases |ps|
  {
    if ps == [] then Content([], None)
    else
      var before := PageContent(chain, ps[..|ps| - 1]);
      if before.failure.Some? then before
      else
        var last := LineContent(chain, ps[|ps| - 1]);
        Content(before.draws + last.draws, last.failure)
  }

  /** The page addPage appends for `image` and `lines`. */
  function PageFor<F(==)>(chain: FontChain<F>, image: Image, imageType: ImageType, lines: seq<TextLine>): Page<F>
    requires LinesSizable(chain, PlaceAll(lines, image.width as real, image.height as real))
  {
    var w, h := image.width as real, image.height as real;
    Page(w, h, image, imageType, PageContent(chain, PlaceAll(lines, w, h)).draws)
  }

  /* ----- unfolding and persistence facts used by addPage's loops ----- */

  lemma PageContentStep<F>(chain: FontChain<F>, ps: seq<Placed>, i: nat)
    requires i < |ps| && LinesSizable(chain, ps)
    ensures LinesSizable(chain, ps[..i]) && LinesSizable(chain, ps[..i + 1])
    ensures var before := PageContent(chain, ps[..i]);
            PageContent(chain, ps[..i + 1])
            == if before.failure.Some? then before
               else var last := LineContent(chain, ps[i]);
                    Content(before.draws + last.draws, last.failure)
  {
    assert ps[..i + 1][..i] == ps[..i];
    assert ps[..i + 1][i] == ps[i];
  }

  lemma {:induction false} PageFailurePersists<F>(chain: FontChain<F>, ps: seq<Placed>, i: nat)
    requires i <= |ps| && LinesSizable(chain, ps)
    requires LinesSizable(chain, ps[..i])
    requires PageContent(chain, ps[..i]).failure.Some?
    ensures PageContent(chain, ps) == PageContent(chain, ps[..i])
    decreases |ps| - i
  {
    if i < |ps| {
      PageContentStep(chain, ps, i);
      PageFailurePersists(chain, ps, i + 1);
    } else {
      assert ps[..i] == ps;
    }
  }

  lemma RunsContentStep<F>(chain: FontChain<F>, runs: seq<TextWithFont<F>>, j: nat, p: Placed)
    requires j < |runs| && RunsSizable(chain, runs, p)
    ensures var before := RunsContent(chain, runs[..j], p);
            RunsContent(chain, runs[..j + 1], p)
            == if before.failure.Some? then before
               else match FirstUnencodable(chain.canEncode, runs[j].font, p.text)
                 case Some(cp) => Content(before.draws, Some(NoGlyph(cp)))
                 case None => Content(before.draws + [RunDraw(chain, runs[j], p)], None)
  {
    assert runs[..j + 1][..j] == runs[..j];
    assert runs[..j + 1][j] == runs[j];
  }

  lemma {:induction false} RunsFailurePersists<F>(chain: FontChain<F>, runs: seq<TextWithFont<F>>, j: nat, p: Placed)
    requires j <= |runs| && RunsSizable(chain, runs, p)
    requires RunsContent(chain, runs[..j], p).failure.Some?
    ensures RunsContent(chain, runs, p) == RunsContent(chain, runs[..j], p)
    decreases |runs| - j
  {
    if j < |runs| {
      RunsContentStep(chain, runs, j, p);
      RunsFailurePersists(chain, runs, j + 1, p);
    } else {
      assert runs[..j] == runs;
    }
  }

  /** One step of addPage's inner loop: the draw built from calculateFontSize's
      result for a run whose font shows the line text extends the line content. */
  lemma RunsContentGrows<F>(chain: FontChain<F>, runs: seq<TextWithFont<F>>, j: nat, p: Placed, fi: FontInfo, done: seq<Draw<F>>)
    requires j < |runs| && RunsSizable(chain, runs, p)
    requires RunsContent(chain, runs[..j], p) == Content(done, None)
    requires FirstUnencodable(chain.canEncode, runs[j].font, p.text).None?
    requires fi.fontSize == FitSize(chain.stringWidth(runs[j].font, p.text), p.boxWidth)
    requires fi.textHeight == TextHeight(fi.fontSize)
    ensures RunsContent(chain, runs[..j + 1], p)
            == Content(done + [Draw(runs[j].font, fi.fontSize, p.x, p.yTop - fi.textHeight, p.text)], None)
  {
    RunsContentStep(chain, runs, j, p);
    assert RunDraw(chain, runs[j], p) == DrawAt(runs[j].font, fi.fontSize, p);
  }

  /** A run whose font misses a glyph of the line text ends the line. */
  lemma RunsContentStops<F>(chain: FontChain<F>, runs: seq<TextWithFont<F>>, j: nat, p: Placed)
    requires j < |runs| && RunsSizable(chain, runs, p)
    requires RunsContent(chain, runs[..j], p).failure.None?
    requires FirstUnencodable(chain.canEncode, runs[j].font, p.text).Some?
    ensures RunsContent(chain, runs, p)
            == Content(RunsContent(chain, runs[..j], p).draws,
                       Some(NoGlyph(FirstUnencodable(chain.canEncode, runs[j].font, p.text).value)))
  {
    RunsContentStep(chain, runs, j, p);
    RunsFailurePersists(chain, runs, j + 1, p);
  }

  /** A line that fails ends the page with the draws issued so far. */
  lemma PageLineFails<F>(chain: FontChain<F>, ps: seq<Placed>, i: nat)
    requires i < |ps| && LinesSizable(chain, ps)
    requires LinesSizable(chain, ps[..i])
    requires PageContent(chain, ps[..i]).failure.None?
    requires LineContent(chain, ps[i]).failure.Some?
    ensures PageContent(chain, ps)
            == Content(PageContent(chain, ps[..i]).draws + LineContent(chain, ps[i]).draws, LineContent(chain, ps[i]).failure)
  {
    PageContentStep(chain, ps, i);
    PageFailurePersists(chain, ps, i + 1);
  }

  /* ----- what the page content is ----- */

  /** The runs of a line that shows without error give one draw each, in run
      order, each the run's draw; and they show without error exactly when
      every run's font can encode the whole line text. */
  lemma {:induction false} RunsContentDraws<F>(chain: FontChain<F>, runs: seq<TextWithFont<F>>, p: Placed)
    requires RunsSizable(chain, runs, p)
    ensures RunsContent(chain, runs, p).failure.None? <==>
              forall j, i :: 0 <= j < |runs| && 0 <= i < |p.text| ==> chain.canEncode(runs[j].font, p.text[i])
    ensures RunsContent(chain, runs, p).failure.None? ==>
              && |RunsContent(chain, runs, p).draws| == |runs|
              && forall j :: 0 <= j < |runs| ==> RunsContent(chain, runs, p).draws[j] == RunDraw(chain, runs[j], p)
    decreases |runs|
  {
    if runs != [] {
      var n := |runs| - 1;
      var init := runs[..n];
      RunsContentDraws(chain, init, p);
      assert forall j :: 0 <= j < n ==> init[j] == runs[j];
      var before := RunsContent(chain, init, p);
      if before.failure.Some? {
        var j, i :| 0 <= j < n && 0 <= i < |p.text| && !chain.canEncode(init[j].font, p.text[i]);
        assert !chain.canEncode(runs[j].font, p.text[i]);
      } else if FirstUnencodable(chain.canEncode, runs[n].font, p.text).Some? {
        var i :| 0 <= i < |p.text| && !chain.canEncode(runs[n].font, p.text[i]);
      }
    }
  }

  lemma {:induction false} RunsContentFailureIsNoGlyph<F>(chain: FontChain<F>, runs: seq<TextWithFont<F>>, p: Placed)
    requires RunsSizable(chain, runs, p)
    ensures RunsContent(chain, runs, p).failure.Some? ==> RunsContent(chain, runs, p).failure.value.NoGlyph?
    decreases |runs|
  {
    if runs != [] {
      RunsContentFailureIsNoGlyph(chain, runs[..|runs| - 1], p);
    }
  }

  lemma ConcatHas<F>(runs: seq<TextWithFont<F>>, k: nat, j: nat)
    requires k < |runs| && j < |runs[k].text|
    ensures runs[k].text[j] in Concat(runs)
    decreases |runs|
  {
    var n := |runs| - 1;
    assert Concat(runs) == Concat(runs[..n]) + runs[n].text;
    if k < n {
      assert runs[..n][k] == runs[k];
      ConcatHas(runs[..n], k, j);
    }
  }

  /** The fonts of two different runs can each encode some code point of
      the text that the other cannot. So no single font of a line with two
      or more runs encodes the whole line text, getStringWidth fails on it, and
      addPage stops with NoGlyph at that line. */
  lemma MixedLineFails<F>(chain: FontChain<F>, p: Placed)
    requires LineSizable(chain, p)
    requires Runs(chain.fonts, chain.canEncode, p.text).Ok?
    requires |Runs(chain.fonts, chain.canEncode, p.text).value| >= 2
    ensures LineContent(chain, p).failure.Some?
    ensures LineContent(chain, p).failure.value.NoGlyph?
  {
    var fonts, canEncode := chain.fonts, chain.canEncode;
    var runs := Runs(fonts, canEncode, p.text).value;
    RunsIsSplit(fonts, canEncode, p.text);
    var cp0, cp1 := runs[0].text[0], runs[1].text[0];
    assert PicksFont(fonts, canEncode, cp0, runs[0].font);
    assert PicksFont(fonts, canEncode, cp1, runs[1].font);
    ConcatHas(runs, 0, 0);
    ConcatHas(runs, 1, 0);
    var i0, i1 := FirstFit(fonts, canEncode, cp0).value, FirstFit(fonts, canEncode, cp1).value;
    var x0 :| 0 <= x0 < |p.text| && p.text[x0] == cp0;
    var x1 :| 0 <= x1 < |p.text| && p.text[x1] == cp1;
    if i0 < i1 {
      assert !canEncode(runs[0].font, p.text[x1]);
    } else {
      assert i1 < i0;
      assert !canEncode(runs[1].font, p.text[x0]);
    }
    RunsContentDraws(chain, runs, p);
    RunsContentFailureIsNoGlyph(chain, runs, p);
  }

  /** A line that the first font of the chain can encode throughout gives
      exactly one draw, in that font. */
  lemma SingleFontLine<F>(chain: FontChain<F>, p: Placed)
    requires chain.fonts != [] && p.text != []
    requires forall i :: 0 <= i < |p.text| ==> chain.canEncode(chain.fonts[0], p.text[i])
    requires Sizable(chain.stringWidth(chain.fonts[0], p.text), p.boxWidth)
    ensures LineSizable(chain, p)
    ensures LineContent(chain, p) == Content([RunDraw(chain, TextWithFont(p.text, chain.fonts[0]), p)], None)
  {
    SingleRun(chain.fonts, chain.canEncode, p.text);
    var runs := [TextWithFont(p.text, chain.fonts[0])];
    RunsContentStep(chain, runs, 0, p);
    assert runs[..1] == runs && runs[..0] == [];
  }

  lemma EmptyLineDrawsNothing<F>(chain: FontChain<F>, p: Placed)
    requires p.text == []
    ensures LineSizable(chain, p)
    ensures LineContent(chain, p) == Content([], None)
  {
  }

  function CountNonEmpty(ps: seq<Placed>): nat {
    if ps == [] then 0
    else CountNonEmpty(ps[..|ps| - 1]) + (if ps[|ps| - 1].text == [] then 0 else 1)
  }

  /** A line that is drawn without error has one draw if it has text and
      none otherwise: a line of two runs or more fails. */
  lemma LineDrawCount<F>(chain: FontChain<F>, p: Placed)
    requires LineSizable(chain, p)
    requires LineContent(chain, p).failure.None?
    ensures |LineContent(chain, p).draws| == if p.text == [] then 0 else 1
  {
    var runs := Runs(chain.fonts, chain.canEncode, p.text);
    assert runs.Ok?;
    if |runs.value| >= 2 {
      MixedLineFails(chain, p);
    }
    RunsContentDraws(chain, runs.value, p);
    if p.text == [] {
      assert runs.value == [];
    } else {
      RunsIsSplit(chain.fonts, chain.canEncode, p.text);
      assert runs.value != [];
    }
  }

  /** A page that is drawn without error has one draw per line with text. */
  lemma {:induction false} PageDrawCount<F>(chain: FontChain<F>, ps: seq<Placed>)
    requires LinesSizable(chain, ps)
    requires PageContent(chain, ps).failure.None?
    ensures |PageContent(chain, ps).draws| == CountNonEmpty(ps)
    decreases |ps|
  {
    if ps != [] {
      var n := |ps| - 1;
      assert LinesSizable(chain, ps[..n]);
      PageDrawCount(chain, ps[..n]);
      LineDrawCount(chain, ps[n]);
    }
  }

  /** `d` is a draw addPage issues for the line `p`: it shows the whole line
      text at the left edge of the box, one text height below its top, in a
      font of the chain, at the size fitted to the box width. */
  ghost predicate DrawnFor<F>(chain: FontChain<F>, d: Draw<F>, p: Placed) {
    && d.text == p.text
    && d.font in chain.fonts
    && d.x == p.x
    && d.y == p.yTop - TextHeight(d.fontSize)
    && Sizable(chain.stringWidth(d.font, p.text), p.boxWidth)
    && d.fontSize == FitSize(chain.stringWidth(d.font, p.text), p.boxWidth)
  }

  ghost predicate AllDrawnFor<F>(chain: FontChain<F>, draws: seq<Draw<F>>, p: Placed) {
    forall k :: 0 <= k < |draws| ==> DrawnFor(chain, draws[k], p)
  }

  lemma {:induction false} RunsContentDrawnFor<F>(chain: FontChain<F>, runs: seq<TextWithFont<F>>, p: Placed)
    requires RunsSizable(chain, runs, p)
    requires forall j :: 0 <= j < |runs| ==> runs[j].font in chain.fonts
    ensures AllDrawnFor(chain, RunsContent(chain, runs, p).draws, p)
    decreases |runs|
  {
    if runs != [] {
      var n := |runs| - 1;
      var init, run := runs[..n], runs[n];
      assert forall j :: 0 <= j < n ==> init[j] == runs[j];
      RunsContentDrawnFor(chain, init, p);
      var before := RunsContent(chain, init, p);
      if before.failure.None? && FirstUnencodable(chain.canEncode, run.font, p.text).None? {
        var d := RunDraw(chain, run, p);
        assert DrawnFor(chain, d, p);
        var c := RunsContent(chain, runs, p);
        assert c.draws == before.draws + [d];
        forall k | 0 <= k < |c.draws| ensures DrawnFor(chain, c.draws[k], p) {
          if k < |before.draws| {
            assert c.draws[k] == before.draws[k];
          }
        }
      }
    }
  }

  lemma RunFontsInChain<F>(chain: FontChain<F>, text: Text)
    requires Runs(chain.fonts, chain.canEncode, text).Ok?
    ensures forall j :: 0 <= j < |Runs(chain.fonts, chain.canEncode, text).value| ==>
              Runs(chain.fonts, chain.canEncode, text).value[j].font in chain.fonts
  {
    RunsIsSplit(chain.fonts, chain.canEncode, text);
    var runs := Runs(chain.fonts, chain.canEncode, text).value;
    forall j | 0 <= j < |runs| ensures runs[j].font in chain.fonts {
      assert PicksFont(chain.fonts, chain.canEncode, runs[j].text[0], runs[j].font);
    }
  }

  /** Every draw issued for a line is placed and sized from that line. */
  lemma LineDrawsPlaced<F>(chain: FontChain<F>, p: Placed)
    requires LineSizable(chain, p)
    ensures AllDrawnFor(chain, LineContent(chain, p).draws, p)
  {
    var runs := Runs(chain.fonts, chain.canEncode, p.text);
    if runs.Ok? {
      RunFontsInChain(chain, p.text);
      RunsContentDrawnFor(chain, runs.value, p);
      assert LineContent(chain, p) == RunsContent(chain, runs.value, p);
    }
  }

  /** `d` is a draw issued for one of the lines `ps`. */
  ghost predicate OnPage<F>(chain: FontChain<F>, d: Draw<F>, ps: seq<Placed>) {
    exists i :: 0 <= i < |ps| && DrawnFor(chain, d, ps[i])
  }

  lemma PlacedAppend<F>(chain: FontChain<F>, before: seq<Draw<F>>, extra: seq<Draw<F>>, ps: seq<Placed>)
    requires ps != []
    requires forall k :: 0 <= k < |before| ==> OnPage(chain, before[k], ps[..|ps| - 1])
    requires AllDrawnFor(chain, extra, ps[|ps| - 1])
    ensures forall k :: 0 <= k < |before + extra| ==> OnPage(chain, (before + extra)[k], ps)
  {
    var n := |ps| - 1;
    forall k | 0 <= k < |before + extra|
      ensures OnPage(chain, (before + extra)[k], ps)
    {
      if k < |before| {
        assert OnPage(chain, before[k], ps[..n]);
        var i :| 0 <= i < n && DrawnFor(chain, before[k], ps[..n][i]);
        assert (before + extra)[k] == before[k] && ps[..n][i] == ps[i];
      } else {
        assert (before + extra)[k] == extra[k - |before|];
        assert DrawnFor(chain, (before + extra)[k], ps[n]);
      }
    }
  }

  /** Every draw on a page, including those issued before an error, belongs
      to one of the page's lines and is placed and sized from that line. */
  lemma {:induction false} DrawsArePlaced<F>(chain: FontChain<F>, ps: seq<Placed>)
    requires LinesSizable(chain, ps)
    ensures forall k :: 0 <= k < |PageContent(chain, ps).draws| ==> OnPage(chain, PageContent(chain, ps).draws[k], ps)
    decreases |ps|
  {
    if ps != [] {
      var n := |ps| - 1;
      assert LinesSizable(chain, ps[..n]);
      DrawsArePlaced(chain, ps[..n]);
      var before := PageContent(chain, ps[..n]);
      if before.failure.None? {
        LineDrawsPlaced(chain, ps[n]);
        PlacedAppend(chain, before.draws, LineContent(chain, ps[n]).draws, ps);
      }
    }
  }

  /** The page addPage builds for an invoice scan of 1000 by 1400 pixels
      with one line, 10% from the left, 5% from the top and 30% of the page
      wide, in text the first font of the chain encodes throughout: the page
      has the image's size and one draw, in that font, at x 100 and one text
      height below 1330, sized to a box 300 wide. */
  lemma InvoicePage<F>(chain: FontChain<F>, text: Text)
    requires chain.fonts != [] && text != []
    requires forall i :: 0 <= i < |text| ==> chain.canEncode(chain.fonts[0], text[i])
    requires Sizable(chain.stringWidth(chain.fonts[0], text), 300.0)
    ensures LinesSizable(chain, PlaceAll([TextLine(0.1, 0.05, 0.3, 0.04, text)], 1000.0, 1400.0))
    ensures var page := PageFor(chain, Image(1000, 1400), JPEG, [TextLine(0.1, 0.05, 0.3, 0.04, text)]);
            && page.width == 1000.0 && page.height == 1400.0
            && |page.draws| == 1
            && page.draws[0].font == chain.fonts[0] && page.draws[0].text == text
            && page.draws[0].x == 100.0
            && page.draws[0].y == 1330.0 - TextHeight(page.draws[0].fontSize)
            && page.draws[0].fontSize == FitSize(chain.stringWidth(chain.fonts[0], text), 300.0)
  {
    var ps := PlaceAll([TextLine(0.1, 0.05, 0.3, 0.04, text)], 1000.0, 1400.0);
    var p := Placed(100.0, 1330.0, 300.0, text);
    assert ps == [p];
    SingleFontLine(chain, p);
    PageContentStep(chain, ps, 0);
    assert ps[..1] == ps && ps[..0] == [];
  }

  /** The output document: the font chain it was created with and the pages
      appended so far. Pages are only ever appended. */
  class PdfDocument<F(==)> {
    const chain: FontChain<F>
    var pages: seq<Page<F>>

    /** The font loading of the constructor is not modelled: the chain is given. */
    constructor (chain: FontChain<F>)
      ensures this.chain.fonts == chain.fonts && pages == []
      ensures this.chain.canEncode == chain.canEncode && this.chain.stringWidth == chain.stringWidth
    {
      this.chain := chain;
      pages := [];
    }

    /** The inner loop of addPage: one draw per run of the line `p`, each
        after sizing the run's font on the whole line text, stopping at the
        first run whose font has no glyph for some code point of the line
        text. Every draw lands on the last page, the one just appended. */
    method DrawRuns(earlier: seq<Page<F>>, image: Image, imageType: ImageType, p: Placed,
                    runs: seq<TextWithFont<F>>, draws0: seq<Draw<F>>) returns (draws: seq<Draw<F>>, failure: Option<Error>)
      requires RunsSizable(chain, runs, p)
      requires pages == earlier + [Page(image.width as real, image.height as real, image, imageType, draws0)]
      modifies this
      ensures pages == earlier + [Page(image.width as real, image.height as real, image, imageType, draws)]
      ensures draws == draws0 + RunsContent(chain, runs, p).draws
      ensures failure == RunsContent(chain, runs, p).failure
    {
      var width := image.width as real;
      var height := image.height as real;
      draws := draws0;
      var j := 0;
      while j < |runs|
        invariant 0 <= j <= |runs|
        invariant pages == earlier + [Page(width, height, image, imageType, draws)]
        invariant |draws0| <= |draws| && draws[..|draws0|] == draws0
        invariant RunsContent(chain, runs[..j], p) == Content(draws[|draws0|..], None)
      {
        var run := runs[j];
        var missing := FirstUnencodable(chain.canEncode, run.font, p.text);
        if missing.Some? {
          RunsContentStops(chain, runs, j, p);
          assert draws0 + draws[|draws0|..] == draws;
          return draws, Some(NoGlyph(missing.value));
        }
        var fontInfo := CalculateFontSize(chain.stringWidth, run.font, p.text, p.boxWidth);
        RunsContentGrows(chain, runs, j, p, fontInfo, draws[|draws0|..]);
        var d := Draw(run.font, fontInfo.fontSize, p.x, p.yTop - fontInfo.textHeight, p.text);
        assert (draws + [d])[|draws0|..] == draws[|draws0|..] + [d];
        draws := draws + [d];
        pages := earlier + [Page(width, height, image, imageType, draws)];
        j := j + 1;
      }
      assert runs[..j] == runs;
      assert draws0 + draws[|draws0|..] == draws;
      failure := None;
    }

    /** addPage: appends one page the size of the image, draws the image,
        then for every line and every run of it issues one invisible draw.
        The page is appended before any text is drawn, so on an error it
        stays, holding the draws issued before the error. */
    method AddPage(image: Image, imageType: ImageType, lines: seq<TextLine>) returns (failure: Option<Error>)
      requires LinesSizable(chain, PlaceAll(lines, image.width as real, image.height as real))
      modifies this
      ensures pages == old(pages) + [PageFor(chain, image, imageType, lines)]
      ensures failure == PageContent(chain, PlaceAll(lines, image.width as real, image.height as real)).failure
    {
      var width := image.width as real;
      var height := image.height as real;
      ghost var ps := PlaceAll(lines, width, height);
      var draws: seq<Draw<F>> := [];
      var earlier := pages;
      pages := earlier + [Page(width, height, image, imageType, draws)];
      var i := 0;
      while i < |lines|
        invariant 0 <= i <= |lines|
        invariant pages == earlier + [Page(width, height, image, imageType, draws)]
        invariant LinesSizable(chain, ps[..i])
        invariant PageContent(chain, ps[..i]) == Content(draws, None)
      {
        var cline := lines[i];
        var p := Place(cline, width, height);
        assert p == ps[i] && LineSizable(chain, p);
        var fontified := Fontify(chain.fonts, chain.canEncode, cline.text);
        if fontified.Err? {
          assert LineContent(chain, p) == Content([], Some(fontified.error));
          PageLineFails(chain, ps, i);
          assert draws + [] == draws;
          return Some(fontified.error);
        }
        var runs := fontified.value;
        assert LineContent(chain, p) == RunsContent(chain, runs, p);
        var lineFailure;
        draws, lineFailure := DrawRuns(earlier, image, imageType, p, runs, draws);
        if lineFailure.Some? {
          PageLineFails(chain, ps, i);
          return lineFailure;
        }
        PageContentStep(chain, ps, i);
        i := i + 1;
      }
      assert ps[..i] == ps;
      return None;
    }
  }
}
