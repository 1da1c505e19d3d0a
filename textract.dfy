/** The OCR result aggregation of SearchablePDFFromLocalFile: the text
    detection service answers in batches of blocks; a PAGE block opens a new
    page, a LINE block adds a line to the page opened last, and pages and
    the open page persist from one batch to the next. The service itself is
    replaced by the sequence of its answers, in call order. */
module Textract {
  import opened Types

  const PageType: string := "PAGE"
  const LineType: string := "LINE"
  const InProgress: string := "IN_PROGRESS"

  /** maxResults of the paginated fetches and of the status polls. */
  const BatchSize: nat := 1000
  const PollSize: nat := 1

  /** A block's bounding box, in fractions of the page size. */
  datatype BoundingBox = BoundingBox(left: real, top: real, width: real, height: real)

  datatype Block = Block(blockType: string, box: BoundingBox, text: Text)

  /** One answer of the text detection service: a batch of blocks and the
      token of the next batch, if there is one. */
  datatype Response = Response(blocks: seq<Block>, nextToken: Option<string>)

  /** A GetDocumentTextDetection request. */
  datatype Request = Request(jobId: string, maxResults: nat, nextToken: Option<string>)

  /** The line record built from a LINE block: its box and its text. */
  function LineOf(b: Block): TextLine {
    TextLine(b.box.left, b.box.top, b.box.width, b.box.height, b.text)
  }

  /** extractText's reaction to one block. A LINE block read before any
      PAGE block goes to a list that is never returned. */
  function Step(pages: seq<seq<TextLine>>, b: Block): seq<seq<TextLine>> {
    if b.blockType == PageType then pages + [[]]
    else if b.blockType == LineType && pages != [] then pages[..|pages| - 1] + [pages[|pages| - 1] + [LineOf(b)]]
    else pages
  }

  /** The pages after reading the first `n` of `blocks`, starting from `pages`. */
  function Fold(pages: seq<seq<TextLine>>, blocks: seq<Block>, n: nat): seq<seq<TextLine>>
    requires n <= |blocks|
  {
    if n == 0 then pages else Step(Fold(pages, blocks, n - 1), blocks[n - 1])
  }

  /** The pages extractText builds from a stream of blocks. */
  function PagesOf(blocks: seq<Block>): seq<seq<TextLine>> {
    Fold([], blocks, |blocks|)
  }

  /** The blocks of the first `n` responses, batch after batch. */
  function BlocksOf(responses: seq<Response>, n: nat): seq<Block>
    requires n <= |responses|
  {
    if n == 0 then [] else BlocksOf(responses, n - 1) + responses[n - 1].blocks
  }

  lemma {:induction false} FoldPrefix(pages: seq<seq<TextLine>>, s: seq<Block>, t: seq<Block>, n: nat)
    requires n <= |s|
    ensures Fold(pages, s + t, n) == Fold(pages, s, n)
  {
    if n > 0 {
      FoldPrefix(pages, s, t, n - 1);
      assert (s + t)[n - 1] == s[n - 1];
    }
  }

  lemma {:induction false} FoldSuffix(pages: seq<seq<TextLine>>, s: seq<Block>, t: seq<Block>, m: nat)
    requires m <= |t|
    ensures Fold(pages, s + t, |s| + m) == Fold(Fold(pages, s, |s|), t, m)
  {
    if m == 0 {
      FoldPrefix(pages, s, t, |s|);
    } else {
      FoldSuffix(pages, s, t, m - 1);
      assert (s + t)[|s| + m - 1] == t[m - 1];
    }
  }

  /** Reading two streams one after the other is reading their concatenation. */
  lemma FoldAppend(pages: seq<seq<TextLine>>, s: seq<Block>, t: seq<Block>)
    ensures Fold(pages, s + t, |s + t|) == Fold(Fold(pages, s, |s|), t, |t|)
  {
    FoldSuffix(pages, s, t, |t|);
  }

  /** One more batch of blocks continues the pages built so far. */
  lemma NextBatch(responses: seq<Response>, r: nat)
    requires r < |responses|
    ensures PagesOf(BlocksOf(responses, r + 1))
            == Fold(PagesOf(BlocksOf(responses, r)), responses[r].blocks, |responses[r].blocks|)
  {
    FoldAppend([], BlocksOf(responses, r), responses[r].blocks);
  }

  /** One more block, read after `blocks`. */
  lemma PagesOfSnoc(blocks: seq<Block>, b: Block)
    ensures PagesOf(blocks + [b]) == Step(PagesOf(blocks), b)
  {
    FoldPrefix([], blocks, [b], |blocks|);
  }

  // An independent description of the result, read from the front: each
  // PAGE block starts a page holding the LINE blocks up to the next PAGE.

  /** The lines of the LINE blocks before the first PAGE block. */
  function LeadingLines(blocks: seq<Block>): seq<TextLine> {
    if blocks == [] || blocks[0].blockType == PageType then []
    else if blocks[0].blockType == LineType then [LineOf(blocks[0])] + LeadingLines(blocks[1..])
    else LeadingLines(blocks[1..])
  }

  /** One page per PAGE block, with the lines that follow it. */
  function RefPages(blocks: seq<Block>): seq<seq<TextLine>> {
    if blocks == [] then []
    else if blocks[0].blockType == PageType then [LeadingLines(blocks[1..])] + RefPages(blocks[1..])
    else RefPages(blocks[1..])
  }

  /** The number of PAGE blocks. */
  function CountPages(blocks: seq<Block>): nat {
    if blocks == [] then 0
    else (if blocks[0].blockType == PageType then 1 else 0) + CountPages(blocks[1..])
  }

  lemma {:induction false} RefPagesCount(blocks: seq<Block>)
    ensures |RefPages(blocks)| == CountPages(blocks)
  {
    if blocks != [] {
      RefPagesCount(blocks[1..]);
    }
  }

  lemma {:induction false} LeadingLinesSnoc(blocks: seq<Block>, b: Block)
    ensures CountPages(blocks) > 0 ==> LeadingLines(blocks + [b]) == LeadingLines(blocks)
    ensures CountPages(blocks) == 0 && b.blockType == LineType ==>
              LeadingLines(blocks + [b]) == LeadingLines(blocks) + [LineOf(b)]
    ensures CountPages(blocks) == 0 && b.blockType != LineType ==> LeadingLines(blocks + [b]) == LeadingLines(blocks)
  {
    if blocks == [] {
      assert [b][1..] == [];
    } else {
      assert (blocks + [b])[1..] == blocks[1..] + [b];
      LeadingLinesSnoc(blocks[1..], b);
    }
  }

  /** The step of RefPagesSnoc for a stream that starts with a PAGE block:
      the page it opens absorbs `b` only when no later PAGE block exists. */
  lemma RefPagesSnocPage(first: seq<TextLine>, rest: seq<seq<TextLine>>, longer: seq<TextLine>, b: Block)
    requires b.blockType == LineType ==> (rest == [] ==> longer == first + [LineOf(b)])
    requires b.blockType == LineType ==> (rest != [] ==> longer == first)
    requires b.blockType != LineType ==> longer == first
    ensures [longer] + Step(rest, b) == Step([first] + rest, b)
  {
    if b.blockType == PageType {
      assert [first] + (rest + [[]]) == ([first] + rest) + [[]];
    } else if b.blockType == LineType && rest != [] {
      var all := [first] + rest;
      assert all[..|all| - 1] == [first] + rest[..|rest| - 1];
      assert all[|all| - 1] == rest[|rest| - 1];
    }
  }

  lemma {:induction false} RefPagesSnoc(blocks: seq<Block>, b: Block)
    ensures RefPages(blocks + [b]) == Step(RefPages(blocks), b)
  {
    if blocks == [] {
      assert [b][1..] == [];
    } else {
      var rest := blocks[1..];
      assert (blocks + [b])[1..] == rest + [b];
      RefPagesSnoc(rest, b);
      if blocks[0].blockType == PageType {
        LeadingLinesSnoc(rest, b);
        RefPagesCount(rest);
        RefPagesSnocPage(LeadingLines(rest), RefPages(rest), LeadingLines(rest + [b]), b);
      }
    }
  }

  /** The pages extractText builds are the pages of the front-to-back
      description: one per PAGE block, holding the lines up to the next one. */
  lemma {:induction false} PagesOfIsRefPages(blocks: seq<Block>)
    ensures PagesOf(blocks) == RefPages(blocks)
    decreases |blocks|
  {
    if blocks != [] {
      var init, last := blocks[..|blocks| - 1], blocks[|blocks| - 1];
      assert blocks == init + [last];
      PagesOfIsRefPages(init);
      PagesOfSnoc(init, last);
      RefPagesSnoc(init, last);
    }
  }

  /** There are as many pages as PAGE blocks. */
  lemma PageCount(blocks: seq<Block>)
    ensures |PagesOf(blocks)| == CountPages(blocks)
  {
    PagesOfIsRefPages(blocks);
    RefPagesCount(blocks);
  }

  /** LINE blocks read before the first PAGE block are lost. */
  lemma {:induction false} OrphansDropped(orphans: seq<Block>, blocks: seq<Block>)
    requires CountPages(orphans) == 0
    ensures PagesOf(orphans + blocks) == PagesOf(blocks)
    decreases |orphans|
  {
    if orphans == [] {
      assert orphans + blocks == blocks;
    } else {
      assert (orphans + blocks)[1..] == orphans[1..] + blocks;
      OrphansDropped(orphans[1..], blocks);
      PagesOfIsRefPages(orphans + blocks);
      PagesOfIsRefPages(orphans[1..] + blocks);
    }
  }

  /** A block that is neither PAGE nor LINE changes nothing, wherever it is. */
  lemma OthersIgnored(before: seq<Block>, b: Block, after: seq<Block>)
    requires b.blockType != PageType && b.blockType != LineType
    ensures PagesOf(before + [b] + after) == PagesOf(before + after)
  {
    PagesOfSnoc(before, b);
    FoldAppend([], before + [b], after);
    FoldAppend([], before, after);
  }

  /** A LINE block read while a page is open extends that page and only it. */
  lemma LineExtendsLastPage(blocks: seq<Block>, b: Block)
    requires b.blockType == LineType && PagesOf(blocks) != []
    ensures |PagesOf(blocks + [b])| == |PagesOf(blocks)|
    ensures forall p :: 0 <= p < |PagesOf(blocks)| - 1 ==> PagesOf(blocks + [b])[p] == PagesOf(blocks)[p]
    ensures PagesOf(blocks + [b])[|PagesOf(blocks)| - 1] == PagesOf(blocks)[|PagesOf(blocks)| - 1] + [LineOf(b)]
  {
    PagesOfSnoc(blocks, b);
  }

  lemma StepLine(pages: seq<seq<TextLine>>, last: seq<TextLine>, b: Block)
    requires b.blockType == LineType
    ensures Step(pages + [last], b) == pages + [last + [LineOf(b)]]
  {
    assert (pages + [last])[..|pages|] == pages;
  }

  /** The pages of a PAGE, LINE, LINE stream. */
  lemma OnePageOf(p: Block, a: Block, b: Block)
    requires p.blockType == PageType
    requires a.blockType == LineType && b.blockType == LineType
    ensures PagesOf([p, a, b]) == [[LineOf(a), LineOf(b)]]
  {
    var s1, s2 := [p], [p, a];
    var la, lb := LineOf(a), LineOf(b);
    assert PagesOf([]) == [];
    PagesOfSnoc([], p);
    assert [] + [p] == s1;
    assert PagesOf(s1) == [] + [[]];
    PagesOfSnoc(s1, a);
    StepLine([], [], a);
    assert s1 + [a] == s2 && [] + [la] == [la];
    assert PagesOf(s2) == [] + [[la]];
    PagesOfSnoc(s2, b);
    StepLine([], [la], b);
    assert s2 + [b] == [p, a, b] && [la] + [lb] == [la, lb];
  }

  /** The pages of a PAGE, LINE, LINE, PAGE, LINE stream. */
  lemma TwoPagesOf(p: Block, a: Block, b: Block, c: Block)
    requires p.blockType == PageType
    requires a.blockType == LineType && b.blockType == LineType && c.blockType == LineType
    ensures PagesOf([p, a, b, p, c]) == [[LineOf(a), LineOf(b)], [LineOf(c)]]
  {
    var s3, s4 := [p, a, b], [p, a, b, p];
    var la, lb, lc := LineOf(a), LineOf(b), LineOf(c);
    OnePageOf(p, a, b);
    PagesOfSnoc(s3, p);
    assert s3 + [p] == s4;
    assert PagesOf(s4) == [[la, lb]] + [[]];
    PagesOfSnoc(s4, c);
    StepLine([[la, lb]], [], c);
    assert s4 + [c] == [p, a, b, p, c] && [] + [lc] == [lc];
  }

  /** A page whose lines are split over two batches gets all of them, in order. */
  lemma PageContinuesAcrossBatches(p: Block, a: Block, b: Block, c: Block, token: string)
    requires p.blockType == PageType
    requires a.blockType == LineType && b.blockType == LineType && c.blockType == LineType
    ensures PagesOf(BlocksOf([Response([p, a], Some(token)), Response([b, p, c], None)], 2))
            == [[LineOf(a), LineOf(b)], [LineOf(c)]]
  {
    var responses := [Response([p, a], Some(token)), Response([b, p, c], None)];
    assert BlocksOf(responses, 1) == [p, a];
    assert BlocksOf(responses, 2) == [p, a, b, p, c];
    TwoPagesOf(p, a, b, c);
  }

  /** The answers contain a last batch: one without a next token. */
  ghost predicate HasLastBatch(responses: seq<Response>) {
    exists i :: 0 <= i < |responses| && responses[i].nextToken.None?
  }

  /** The fetches so far: each asks for the job's blocks with the token of
      the answer before it, and every answer but the last had a token. */
  ghost predicate Chained(jobId: string, responses: seq<Response>, requests: seq<Request>) {
    && |requests| <= |responses|
    && (forall i :: 0 <= i < |requests| ==>
          requests[i] == Request(jobId, BatchSize, if i == 0 then None else responses[i - 1].nextToken))
    && (forall i :: 0 <= i < |requests| - 1 ==> responses[i].nextToken.Some?)
  }

  /** The token the next fetch sends. */
  function TokenAfter(responses: seq<Response>, n: nat): Option<string>
    requires n <= |responses|
  {
    if n == 0 then None else responses[n - 1].nextToken
  }

  /** Another fetch keeps the chain, and as long as the last answer had a
      token there is an answer left for the next fetch. */
  lemma ChainedStep(jobId: string, responses: seq<Response>, requests: seq<Request>)
    requires HasLastBatch(responses) && Chained(jobId, responses, requests)
    requires requests == [] || responses[|requests| - 1].nextToken.Some?
    ensures |requests| < |responses|
    ensures Chained(jobId, responses, requests + [Request(jobId, BatchSize, TokenAfter(responses, |requests|))])
  {
    var k :| 0 <= k < |responses| && responses[k].nextToken.None?;
    assert k >= |requests|;
  }

  /** The chain, once an answer without a token closes it. */
  lemma ChainedDone(jobId: string, responses: seq<Response>, requests: seq<Request>)
    requires HasLastBatch(responses) && Chained(jobId, responses, requests)
    requires requests != [] && responses[|requests| - 1].nextToken.None?
    ensures |requests| == FirstLastBatch(responses) + 1
  {
  }

  /** The inner loop of extractText over one batch. `page` is the list lines
      go to; once a PAGE block has been read it is the same list as the last
      of `pages`, so a line added to it is added to that page too. */
  method ReadBatch(pages0: seq<seq<TextLine>>, page0: seq<TextLine>, blocks: seq<Block>)
    returns (pages: seq<seq<TextLine>>, page: seq<TextLine>)
    requires pages0 != [] ==> page0 == pages0[|pages0| - 1]
    ensures pages == Fold(pages0, blocks, |blocks|)
    ensures pages != [] ==> page == pages[|pages| - 1]
  {
    pages, page := pages0, page0;
    var j := 0;
    while j < |blocks|
      invariant 0 <= j <= |blocks|
      invariant pages == Fold(pages0, blocks, j)
      invariant pages != [] ==> page == pages[|pages| - 1]
    {
      var block := blocks[j];
      if block.blockType == PageType {
        page := [];
        pages := pages + [page];
      } else if block.blockType == LineType {
        page := page + [LineOf(block)];
        if pages != [] {
          pages := pages[..|pages| - 1] + [page];
        }
      }
      j := j + 1;
    }
  }

  /** extractText: fetches batch after batch, each with the token of the
      previous answer, until an answer has no token, and builds the pages
      from the blocks as they come; lines before the first PAGE block go to
      a list that is never returned. */
  method ExtractText(jobId: string, responses: seq<Response>) returns (pages: seq<seq<TextLine>>, requests: seq<Request>)
    requires HasLastBatch(responses)
    ensures 0 < |requests| <= |responses|
    ensures forall i :: 0 <= i < |requests| ==> requests[i].jobId == jobId && requests[i].maxResults == BatchSize
    ensures requests[0].nextToken.None?
    ensures forall i :: 0 < i < |requests| ==> requests[i].nextToken == responses[i - 1].nextToken
    ensures forall i :: 0 <= i < |requests| - 1 ==> responses[i].nextToken.Some?
    ensures responses[|requests| - 1].nextToken.None?
    ensures |requests| == FirstLastBatch(responses) + 1
    ensures pages == PagesOf(BlocksOf(responses, |requests|))
  {
    pages := [];
    var page: seq<TextLine> := [];
    var paginationToken: Option<string> := None;
    requests := [];
    var more := true;
    while more
      invariant Chained(jobId, responses, requests)
      invariant more <==> requests == [] || responses[|requests| - 1].nextToken.Some?
      invariant paginationToken == TokenAfter(responses, |requests|)
      invariant pages == PagesOf(BlocksOf(responses, |requests|))
      invariant pages != [] ==> page == pages[|pages| - 1]
      decreases |responses| - |requests|
    {
      ChainedStep(jobId, responses, requests);
      var r := |requests|;
      requests := requests + [Request(jobId, BatchSize, paginationToken)];
      var response := responses[r];
      NextBatch(responses, r);
      pages, page := ReadBatch(pages, page, response.blocks);
      paginationToken := response.nextToken;
      more := paginationToken.Some?;
    }
    ChainedDone(jobId, responses, requests);
  }

  /** The poll ends: some status is not IN_PROGRESS. */
  ghost predicate JobEnds(statuses: seq<string>) {
    exists i :: 0 <= i < |statuses| && statuses[i] != InProgress
  }

  /** waitForJobCompletion: asks for the job status, one block at a time,
      until it is no longer IN_PROGRESS. The status values it does not wait
      on (SUCCEEDED, FAILED, ...) are not told apart. */
  method WaitForJobCompletion(jobId: string, statuses: seq<string>) returns (polls: seq<Request>)
    requires JobEnds(statuses)
    ensures 0 < |polls| <= |statuses|
    ensures forall i :: 0 <= i < |polls| ==> polls[i] == Request(jobId, PollSize, None)
    ensures forall i :: 0 <= i < |polls| - 1 ==> statuses[i] == InProgress
    ensures statuses[|polls| - 1] != InProgress
    ensures |polls| == LeadingInProgress(statuses) + 1
  {
    polls := [];
    var more := true;
    while more
      invariant |polls| <= |statuses|
      invariant more <==> polls == [] || statuses[|polls| - 1] == InProgress
      invariant more ==> |polls| < |statuses|
      invariant forall i :: 0 <= i < |polls| ==> polls[i] == Request(jobId, PollSize, None)
      invariant forall i :: 0 <= i < |polls| - 1 ==> statuses[i] == InProgress
      decreases |statuses| - |polls|
    {
      var status := statuses[|polls|];
      polls := polls + [Request(jobId, PollSize, None)];
      more := status == InProgress;
    }
  }

  /** The number of IN_PROGRESS statuses before the first other one. */
  function LeadingInProgress(statuses: seq<string>): (k: nat)
    ensures k <= |statuses|
    ensures forall i :: 0 <= i < k ==> statuses[i] == InProgress
    ensures k < |statuses| ==> statuses[k] != InProgress
  {
    if statuses == [] || statuses[0] != InProgress then 0
    else 1 + LeadingInProgress(statuses[1..])
  }

  /** The position of the first answer without a next token. */
  function FirstLastBatch(responses: seq<Response>): (k: nat)
    requires HasLastBatch(responses)
    ensures k < |responses| && responses[k].nextToken.None?
    ensures forall i :: 0 <= i < k ==> responses[i].nextToken.Some?
  {
    if responses[0].nextToken.None? then 0
    else
      assert HasLastBatch(responses[1..]) by {
        var i :| 0 <= i < |responses| && responses[i].nextToken.None?;
        assert i > 0 && responses[1..][i - 1] == responses[i];
      }
      var k := FirstLastBatch(responses[1..]);
      assert forall i :: 0 < i <= k ==> responses[i] == responses[1..][i - 1];
      k + 1
  }
}
