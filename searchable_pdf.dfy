/** The conversion of SearchablePDFFromLocalFile: wait for the text
    detection job, collect its lines page by page, then build the output
    document with one page per page of the input, each page its rendered
    image under the lines of the matching OCR page. */
module SearchablePdf {
  import opened Types
  import opened FontFallback
  import opened Compositor
  import opened Textract

  /** Every page the loop can reach has lines the compositor can size. */
  ghost predicate PagesSizable<F>(chain: FontChain<F>, images: seq<Image>, linesInPages: seq<seq<TextLine>>) {
    forall i :: 0 <= i < |images| && i < |linesInPages| ==>
      LinesSizable(chain, PlaceAll(linesInPages[i], images[i].width as real, images[i].height as real))
  }

  /** The draws of page `i` end without an error. */
  ghost predicate PageDraws<F>(chain: FontChain<F>, images: seq<Image>, linesInPages: seq<seq<TextLine>>, i: nat)
    requires i < |images| && i < |linesInPages| && PagesSizable(chain, images, linesInPages)
  {
    PageContent(chain, PlaceAll(linesInPages[i], images[i].width as real, images[i].height as real)).failure.None?
  }

  /** The pages of the output document and the error that ended the loop. */
  datatype Outcome<F> = Outcome(pages: seq<Page<F>>, failure: Option<Error>)

  /** One round of the page loop: the page addPage appends and its error. */
  datatype Round<F> = Round(page: Page<F>, failure: Option<Error>)

  function RoundFor<F(==)>(chain: FontChain<F>, image: Image, lines: seq<TextLine>): Round<F>
    requires LinesSizable(chain, PlaceAll(lines, image.width as real, image.height as real))
  {
    Round(PageFor(chain, image, JPEG, lines),
          PageContent(chain, PlaceAll(lines, image.width as real, image.height as real)).failure)
  }

  /** The round of every page that has both an image and an OCR page. */
  function Rounds<F(==)>(chain: FontChain<F>, images: seq<Image>, linesInPages: seq<seq<TextLine>>): (rounds: seq<Round<F>>)
    requires PagesSizable(chain, images, linesInPages)
    ensures |rounds| <= |images| && |rounds| <= |linesInPages|
    ensures |rounds| == |images| || |rounds| == |linesInPages|
  {
    var n := if |images| <= |linesInPages| then |images| else |linesInPages|;
    seq(n, i requires 0 <= i < n => RoundFor(chain, images[i], linesInPages[i]))
  }

  /** Round `i` is the one addPage makes of image `i` and OCR page `i`. */
  lemma RoundAt<F>(chain: FontChain<F>, images: seq<Image>, linesInPages: seq<seq<TextLine>>, i: nat)
    requires PagesSizable(chain, images, linesInPages) && i < |Rounds(chain, images, linesInPages)|
    ensures i < |images| && i < |linesInPages|
    ensures Rounds(chain, images, linesInPages)[i].page == PageFor(chain, images[i], JPEG, linesInPages[i])
    ensures Rounds(chain, images, linesInPages)[i].failure
            == PageContent(chain, PlaceAll(linesInPages[i], images[i].width as real, images[i].height as real)).failure
  {
  }

  /** The document after the first `n` rounds: the loop stops at the first
      round that fails, or at the first page with no round because the OCR
      result has no page for it. */
  function Loop<F>(rounds: seq<Round<F>>, n: nat): Outcome<F> {
    if n == 0 then Outcome([], None)
    else
      var before := Loop(rounds, n - 1);
      if before.failure.Some? then before
      else if n - 1 >= |rounds| then Outcome(before.pages, Some(PageMissing(n - 1)))
      else Outcome(before.pages + [rounds[n - 1].page], rounds[n - 1].failure)
  }

  /** The page loop of addTextToPDF over all pages of the input: page `i`
      gets image `i` and the lines of OCR page `i`. */
  function Compose<F(==)>(chain: FontChain<F>, images: seq<Image>, linesInPages: seq<seq<TextLine>>): Outcome<F>
    requires PagesSizable(chain, images, linesInPages)
  {
    Loop(Rounds(chain, images, linesInPages), |images|)
  }

  /** Once a round has failed, later rounds are never run. */
  lemma {:induction false} LoopFailurePersists<F>(rounds: seq<Round<F>>, n: nat, m: nat)
    requires n <= m && Loop(rounds, n).failure.Some?
    ensures Loop(rounds, m) == Loop(rounds, n)
    decreases m
  {
    if m > n {
      LoopFailurePersists(rounds, n, m - 1);
    }
  }

  /** The loop gets through `n` rounds exactly when each exists and ends
      without error; the document then holds their pages, in order. */
  lemma {:induction false} LoopSucceeds<F>(rounds: seq<Round<F>>, n: nat)
    ensures Loop(rounds, n).failure.None? <==>
              n <= |rounds| && forall i :: 0 <= i < n ==> rounds[i].failure.None?
    ensures Loop(rounds, n).failure.None? ==>
              |Loop(rounds, n).pages| == n && forall i :: 0 <= i < n ==> Loop(rounds, n).pages[i] == rounds[i].page
  {
    if n > 0 {
      LoopSucceeds(rounds, n - 1);
    }
  }

  /** When no round fails with PageMissing, a PageMissing error names the
      first page without a round, and the document holds every round's page. */
  lemma {:induction false} LoopMissing<F>(rounds: seq<Round<F>>, n: nat)
    requires forall i :: 0 <= i < |rounds| ==> !(rounds[i].failure.Some? && rounds[i].failure.value.PageMissing?)
    ensures var o := Loop(rounds, n);
            o.failure.Some? && o.failure.value.PageMissing? ==>
              o.failure.value.index == |rounds| < n && |o.pages| == |rounds|
  {
    if n > 0 {
      LoopMissing(rounds, n - 1);
      LoopSucceeds(rounds, n - 1);
    }
  }

  /** The conversion completes exactly when the OCR result has a page for
      every input page and every page draws without error; page `i` is then
      the page addPage builds from image `i` and OCR page `i`. */
  lemma ComposeSucceeds<F>(chain: FontChain<F>, images: seq<Image>, linesInPages: seq<seq<TextLine>>)
    requires PagesSizable(chain, images, linesInPages)
    ensures Compose(chain, images, linesInPages).failure.None? <==>
              |images| <= |linesInPages| && forall i :: 0 <= i < |images| ==> PageDraws(chain, images, linesInPages, i)
    ensures Compose(chain, images, linesInPages).failure.None? ==>
              var pages := Compose(chain, images, linesInPages).pages;
              |pages| == |images| && forall i :: 0 <= i < |images| ==> pages[i] == PageFor(chain, images[i], JPEG, linesInPages[i])
  {
    var rounds := Rounds(chain, images, linesInPages);
    LoopSucceeds(rounds, |images|);
    forall i | 0 <= i < |rounds|
      ensures rounds[i].failure.None? <==> PageDraws(chain, images, linesInPages, i)
      ensures rounds[i].page == PageFor(chain, images[i], JPEG, linesInPages[i])
    {
      RoundAt(chain, images, linesInPages, i);
    }
  }

  /** The errors a page's draws can end with: fontify's or the glyph check's. */
  lemma PageFailureKinds<F>(chain: FontChain<F>, ps: seq<Placed>)
    requires LinesSizable(chain, ps)
    ensures PageContent(chain, ps).failure.Some? ==> !PageContent(chain, ps).failure.value.PageMissing?
    decreases |ps|
  {
    if ps != [] {
      PageFailureKinds(chain, ps[..|ps| - 1]);
      var p := ps[|ps| - 1];
      RunsFailure(chain.fonts, chain.canEncode, p.text);
      var r := Runs(chain.fonts, chain.canEncode, p.text);
      if r.Ok? {
        RunsContentFailureIsNoGlyph(chain, r.value, p);
      }
    }
  }

  /** A PageMissing error names the first input page past the OCR result,
      and the document then holds one page per OCR page. */
  lemma MissingPageIsFirstUncovered<F>(chain: FontChain<F>, images: seq<Image>, linesInPages: seq<seq<TextLine>>)
    requires PagesSizable(chain, images, linesInPages)
    ensures var o := Compose(chain, images, linesInPages);
            o.failure.Some? && o.failure.value.PageMissing? ==>
              o.failure.value.index == |linesInPages| < |images| && |o.pages| == |linesInPages|
  {
    var rounds := Rounds(chain, images, linesInPages);
    forall i | 0 <= i < |rounds| ensures !(rounds[i].failure.Some? && rounds[i].failure.value.PageMissing?) {
      RoundAt(chain, images, linesInPages, i);
      PageFailureKinds(chain, PlaceAll(linesInPages[i], images[i].width as real, images[i].height as real));
    }
    LoopMissing(rounds, |images|);
  }

  /** The state of the page loop after `n` rounds without error:
      `pages` is `start` followed by the pages of those rounds. */
  ghost predicate Composed<F>(start: seq<Page<F>>, pages: seq<Page<F>>, rounds: seq<Round<F>>, n: nat) {
    Loop(rounds, n).failure.None? && pages == start + Loop(rounds, n).pages
  }

  /** The state of the page loop once it has ended with `failure`. */
  ghost predicate Ended<F>(start: seq<Page<F>>, pages: seq<Page<F>>, rounds: seq<Round<F>>, n: nat, failure: Option<Error>) {
    pages == start + Loop(rounds, n).pages && failure == Loop(rounds, n).failure
  }

  /** A round that adds its page either lets the loop go on or ends it. */
  lemma RoundStep<F>(start: seq<Page<F>>, before: seq<Page<F>>, after: seq<Page<F>>, rounds: seq<Round<F>>,
                     n: nat, m: nat, failure: Option<Error>)
    requires Composed(start, before, rounds, n) && n < |rounds| && n < m
    requires after == before + [rounds[n].page] && failure == rounds[n].failure
    ensures failure.None? ==> Composed(start, after, rounds, n + 1)
    ensures failure.Some? ==> Ended(start, after, rounds, m, failure)
  {
    assert Loop(rounds, n + 1) == Outcome(Loop(rounds, n).pages + [rounds[n].page], rounds[n].failure);
    if failure.Some? {
      LoopFailurePersists(rounds, n + 1, m);
    }
  }

  /** A page with no OCR page ends the loop. */
  lemma MissingStep<F>(start: seq<Page<F>>, pages: seq<Page<F>>, rounds: seq<Round<F>>, n: nat, m: nat)
    requires Composed(start, pages, rounds, n) && |rounds| <= n < m
    ensures Ended(start, pages, rounds, m, Some(PageMissing(n)))
  {
    assert Loop(rounds, n + 1) == Outcome(Loop(rounds, n).pages, Some(PageMissing(n)));
    LoopFailurePersists(rounds, n + 1, m);
  }

  /** One pass of the page loop that finds the OCR lines of its page: the
      page is added with addPage, and the loop either goes on or ends. */
  method AddRound<F(==)>(doc: PdfDocument<F>, images: seq<Image>, linesInPages: seq<seq<TextLine>>, page: nat,
                         ghost start: seq<Page<F>>) returns (failure: Option<Error>)
    requires PagesSizable(doc.chain, images, linesInPages)
    requires page < |images| && page < |linesInPages|
    requires Composed(start, doc.pages, Rounds(doc.chain, images, linesInPages), page)
    modifies doc
    ensures failure.None? ==> Composed(start, doc.pages, Rounds(doc.chain, images, linesInPages), page + 1)
    ensures failure.Some? ==> Ended(start, doc.pages, Rounds(doc.chain, images, linesInPages), |images|, failure)
  {
    RoundAt(doc.chain, images, linesInPages, page);
    ghost var before := doc.pages;
    failure := doc.AddPage(images[page], JPEG, linesInPages[page]);
    RoundStep(start, before, doc.pages, Rounds(doc.chain, images, linesInPages), page, |images|, failure);
  }

  /** The page loop of addTextToPDF, adding page after page to `doc`; an
      error ends it, as the exception the source throws ends the conversion.
      Reading the OCR page of an index past the OCR result is such an error. */
  method ComposePages<F(==)>(doc: PdfDocument<F>, images: seq<Image>, linesInPages: seq<seq<TextLine>>)
    returns (failure: Option<Error>)
    requires PagesSizable(doc.chain, images, linesInPages)
    modifies doc
    ensures doc.pages == old(doc.pages) + Compose(doc.chain, images, linesInPages).pages
    ensures failure == Compose(doc.chain, images, linesInPages).failure
  {
    ghost var rounds := Rounds(doc.chain, images, linesInPages);
    ghost var start := doc.pages;
    failure := None;
    var page := 0;
    while page < |images| && failure.None?
      invariant page <= |images|
      invariant failure.None? ==> Composed(start, doc.pages, rounds, page)
      invariant failure.Some? ==> Ended(start, doc.pages, rounds, |images|, failure)
      decreases |images| - page, if failure.None? then 1 else 0
    {
      if page >= |linesInPages| {
        MissingStep(start, doc.pages, rounds, page, |images|);
        failure := Some(PageMissing(page));
      } else {
        failure := AddRound(doc, images, linesInPages, page, start);
        page := page + 1;
      }
    }
  }

  /** The text of the document as the OCR job reports it: the pages built
      from every batch up to the one without a next token. */
  function OcrPages(responses: seq<Response>): seq<seq<TextLine>>
    requires HasLastBatch(responses)
  {
    PagesOf(BlocksOf(responses, FirstLastBatch(responses) + 1))
  }

  /** addTextToPDF, with executeTextractJob's wait before it: poll until the
      job leaves IN_PROGRESS, fetch and aggregate the OCR lines, then compose
      a new document from the rendered pages of the input. `images` are the
      renderings of the input pages; `statuses` and `responses` are the
      service's answers to the polls and to the fetches, in call order. The
      final job status is not looked at: a failed job is read like a finished
      one. */
  method AddTextToPdf<F(==)>(chain: FontChain<F>, jobId: string, statuses: seq<string>, responses: seq<Response>,
                             images: seq<Image>)
    returns (doc: PdfDocument<F>, failure: Option<Error>, polls: seq<Request>, requests: seq<Request>)
    requires JobEnds(statuses) && HasLastBatch(responses)
    requires PagesSizable(chain, images, OcrPages(responses))
    ensures fresh(doc)
    ensures doc.chain.fonts == chain.fonts && doc.chain.canEncode == chain.canEncode
    ensures doc.chain.stringWidth == chain.stringWidth
    ensures |polls| == LeadingInProgress(statuses) + 1
    ensures |requests| == FirstLastBatch(responses) + 1
    ensures doc.pages == Compose(chain, images, OcrPages(responses)).pages
    ensures failure == Compose(chain, images, OcrPages(responses)).failure
  {
    polls := WaitForJobCompletion(jobId, statuses);
    var linesInPages;
    linesInPages, requests := ExtractText(jobId, responses);
    doc := new PdfDocument(chain);
    assert doc.chain == chain;
    failure := ComposePages(doc, images, linesInPages);
  }
}
