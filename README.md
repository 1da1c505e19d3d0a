# searchable-pdf, modelled in Dafny

searchable-pdf turns a scanned PDF into a searchable one. It sends the file
to a text detection service (Amazon Textract), waits for the job to finish,
and collects the detected lines page by page. It then builds a new document:
each page is the rendered image of the input page, with every OCR line drawn
over it as invisible text. Each line is drawn in a font picked from an ordered
fallback chain and sized to the width of its box.

The model has six modules, one per file:

- `Types` (types.dfy): the shared values. Text is a sequence of code points.
  `TextLine` is an OCR line. `Error` lists the ways a conversion can stop.
  `FontChain` is the fallback chain with the two font queries the code uses:
  "can this font encode this code point" and "string width".
- `FontSize` (font_size.dfy): `calculateFontSize`. It is a unit-step search
  from size 17, written as an imperative method. It is proved against a
  closed-form size `FitSize`.
- `FontFallback` (font_fallback.dfy): `fontify`, which splits a line into
  runs, each with the first font of the chain that can encode its code points.
  It is written as an imperative method with nested loops. It is proved equal
  to a function `Runs`. `Runs` is characterised as the unique split with four
  properties: the runs cover the text, none is empty, neighbouring runs use
  different fonts, and every code point gets its first fit.
- `Compositor` (pdf_document.dfy): the `PDFDocument` class. Its constructor
  and `addPage` are methods on a `PdfDocument` class whose `pages` field they
  update. The drawing `addPage` does is described by the functions
  `PageContent` and `PageFor`.
- `Textract` (textract.dfy): `extractText`, the paginated fetch and the
  block-to-page aggregation, and `waitForJobCompletion`, the status poll.
  The service is replaced by the sequence of its answers, in call order. A
  PAGE block opens a page. A LINE block adds a line to the page opened last.
  The open page persists from one batch to the next.
- `SearchablePdf` (searchable_pdf.dfy): the page loop of `addTextToPDF` and
  the whole conversion. Poll, fetch, then add one page per input page.

Errors the Java code throws are modelled as values that end the operation:
- `CannotEncode` covers fontify's IOException when no font encodes a code
  point.
- `NoGlyph` covers `getStringWidth` failing when the run's font cannot encode
  the whole line text. It is the first call of `calculateFontSize`, so the
  size search, `beginText` and `showText` are never reached for that run.
- `PageMissing` covers `linesInPages.get(page)` running past the OCR result.

Each run's draw shows the whole line text (`showText(cline.text)`,
PDFDocument.java:74), not the run's own text. Each run's size is likewise
computed on the whole line text (PDFDocument.java:70). One consequence is proved in `Compositor.MixedLineFails`: a line
whose text needs two or more fonts always stops `addPage` with `NoGlyph`.

## Model

| member | source | states |
|---|---|---|
| FontSize.FitSize | src/main/java/com/amazon/textract/pdf/PDFDocument.java:128-142 | The size the search settles on. It is 17 when the text at 17 matches the box width. When 17 is too wide, it is the largest size whose width fits the box, and one size up does not fit. When 17 is too narrow, it is the smallest size that covers the box, and one size down falls short. |
| FontSize.FitSizeMonotone | src/main/java/com/amazon/textract/pdf/PDFDocument.java:128-142 | A wider box never gives a smaller font size. |
| FontSize.CalculateFontSize | src/main/java/com/amazon/textract/pdf/PDFDocument.java:128-150 | Returns the size `FitSize` gives, the rendered width at that size, and the Courier bounding-box height at that size. Every size the search passed through was too wide (shrinking) or too narrow (growing). |
| FontFallback.FirstFit | src/main/java/com/amazon/textract/pdf/PDFDocument.java:102-117 | The font chosen for a code point encodes it, and no earlier font of the chain does. There is no font only when no font of the chain encodes it. |
| FontFallback.RunsIsSplit | src/main/java/com/amazon/textract/pdf/PDFDocument.java:91-125 | A successful fontify result concatenates back to the text. No run is empty. Neighbouring runs have different fonts. Every code point's run font is that code point's first fit. |
| FontFallback.RunSplitIsUnique | src/main/java/com/amazon/textract/pdf/PDFDocument.java:91-125 | Any split of the text with the four properties above is exactly fontify's result, so those properties define it. |
| FontFallback.RunsFailure | src/main/java/com/amazon/textract/pdf/PDFDocument.java:97-120 | fontify succeeds if and only if every code point has a font that encodes it. On failure the error names the first code point that has none. |
| FontFallback.RunsErrorPersists | src/main/java/com/amazon/textract/pdf/PDFDocument.java:118-120 | Once a prefix of the text fails, the result for the whole text is that same error. |
| FontFallback.SingleRun | src/main/java/com/amazon/textract/pdf/PDFDocument.java:93-123 | A non-empty text that the first font encodes throughout gives a single run holding the whole text in that font. |
| FontFallback.Fontify | src/main/java/com/amazon/textract/pdf/PDFDocument.java:91-125 | The nested-loop fontify returns exactly `Runs`: the runs above, or `CannotEncode` for the first code point no font encodes. |
| Compositor.FirstUnencodable | src/main/java/com/amazon/textract/pdf/PDFDocument.java:128-130 | There is no unencodable code point if and only if the font encodes every code point of the text. Otherwise the result is the first code point the font cannot encode. |
| Compositor.InvoicePage | src/main/java/com/amazon/textract/pdf/PDFDocument.java:41-76 | Worked example: a 1000 by 1400 image with one line 10% from the left, 5% from the top and 30% wide, in text the first font encodes, gives a 1000 by 1400 page with one draw. The draw is in that font, at x 100 and one text height below y 1330, at the size fitted to a box 300 wide. |
| Compositor.RunsContentDraws | src/main/java/com/amazon/textract/pdf/PDFDocument.java:69-76 | A line's runs draw without error if and only if every run's font encodes the whole line text. Then there is exactly one draw per run, in run order, each sized and placed from the line. |
| Compositor.RunsContentFailureIsNoGlyph | src/main/java/com/amazon/textract/pdf/PDFDocument.java:70 | The only error the draws of a line can end with is `NoGlyph`. |
| Compositor.MixedLineFails | src/main/java/com/amazon/textract/pdf/PDFDocument.java:67-76 | A line that fontify splits into two or more runs always makes addPage fail with `NoGlyph`. |
| Compositor.SingleFontLine | src/main/java/com/amazon/textract/pdf/PDFDocument.java:67-76 | A non-empty line that the first font encodes throughout gives exactly one draw and no error. |
| Compositor.EmptyLineDrawsNothing | src/main/java/com/amazon/textract/pdf/PDFDocument.java:93-124 | A line with empty text gives no draw and no error. |
| Compositor.LineDrawCount | src/main/java/com/amazon/textract/pdf/PDFDocument.java:66-78 | A line that draws without error gives one draw if its text is non-empty and none otherwise. |
| Compositor.PageDrawCount | src/main/java/com/amazon/textract/pdf/PDFDocument.java:66-78 | A page that draws without error has exactly one draw per line with non-empty text. |
| Compositor.PageFailurePersists | src/main/java/com/amazon/textract/pdf/PDFDocument.java:66-78 | After a line fails, the page gets no further draws and keeps that error. |
| Compositor.LineDrawsPlaced | src/main/java/com/amazon/textract/pdf/PDFDocument.java:69-75 | Every draw for a line holds the whole line text. Its font is in the chain. It starts at the box's left edge, one text height below the box top, at the size fitted to the box width. |
| Compositor.DrawsArePlaced | src/main/java/com/amazon/textract/pdf/PDFDocument.java:66-78 | Every draw on a page, including those issued before an error, belongs to one of the page's lines and is placed and sized from that line. |
| Compositor.PdfDocument.constructor | src/main/java/com/amazon/textract/pdf/PDFDocument.java:32-39 | A new document holds the given font chain and has no pages. |
| Compositor.PdfDocument.DrawRuns | src/main/java/com/amazon/textract/pdf/PDFDocument.java:69-76 | The run loop adds the draws for one line's runs to the page just appended. It stops at the first run whose font cannot encode the line text, and reports that error. The size search runs only after the font is known to encode the text. |
| Compositor.PdfDocument.AddPage | src/main/java/com/amazon/textract/pdf/PDFDocument.java:41-81 | Appends exactly one page: the image size as media box, the image, and the draws described by `PageContent`. The page stays even when drawing stops on an error, and the error returned is that page's error. |
| Textract.PagesOfIsRefPages | src/main/java/com/fersoft/pdf/SearchablePDFFromLocalFile.java:92-104 | The pages built from a block stream are exactly one page per PAGE block, each holding the LINE blocks that follow it up to the next PAGE block, in order. |
| Textract.PageCount | src/main/java/com/fersoft/pdf/SearchablePDFFromLocalFile.java:93-95 | There are as many pages as PAGE blocks. |
| Textract.OrphansDropped | src/main/java/com/fersoft/pdf/SearchablePDFFromLocalFile.java:80-102 | LINE blocks read before any PAGE block do not appear in the result. |
| Textract.OthersIgnored | src/main/java/com/fersoft/pdf/SearchablePDFFromLocalFile.java:92-104 | A block that is neither PAGE nor LINE changes nothing, wherever it occurs. |
| Textract.LineExtendsLastPage | src/main/java/com/fersoft/pdf/SearchablePDFFromLocalFile.java:96-102 | A LINE block read while a page is open adds its line to the end of the last page. Every other page is left unchanged. |
| Textract.FoldAppend | src/main/java/com/fersoft/pdf/SearchablePDFFromLocalFile.java:83-106 | Reading two block streams one after the other gives the same pages as reading their concatenation, so batch boundaries do not matter. |
| Textract.PageContinuesAcrossBatches | src/main/java/com/fersoft/pdf/SearchablePDFFromLocalFile.java:83-106 | Worked example: a page opened in one batch collects the lines of the next batch up to the next PAGE block. |
| Textract.ReadBatch | src/main/java/com/fersoft/pdf/SearchablePDFFromLocalFile.java:92-104 | The block loop over one batch continues the pages built so far. The open page stays the last page once one exists. |
| Textract.ExtractText | src/main/java/com/fersoft/pdf/SearchablePDFFromLocalFile.java:79-108 | The first fetch sends no token, and each later fetch sends the previous answer's token. Every fetch asks for 1000 results. Fetching stops at the first answer without a token: the number of fetches is its position plus one. The pages are those built from all blocks fetched, in order. |
| Textract.WaitForJobCompletion | src/main/java/com/fersoft/pdf/SearchablePDFFromLocalFile.java:126-138 | Polls with one result and no token. It stops at the first status that is not IN_PROGRESS, so the poll count is the number of leading IN_PROGRESS statuses plus one. |
| SearchablePdf.LoopFailurePersists | src/main/java/com/fersoft/pdf/SearchablePDFFromLocalFile.java:63-67 | After a page fails, no later page is added and the error stays. |
| SearchablePdf.LoopSucceeds | src/main/java/com/fersoft/pdf/SearchablePDFFromLocalFile.java:63-67 | The loop gets through n pages without error if and only if each has an OCR page and draws without error. The document then holds their pages, in order. |
| SearchablePdf.ComposeSucceeds | src/main/java/com/fersoft/pdf/SearchablePDFFromLocalFile.java:63-67 | The conversion completes if and only if the OCR result has a page for every input page and every page draws without error. Page i is then the page addPage builds from image i and OCR page i. |
| SearchablePdf.PageFailureKinds | src/main/java/com/amazon/textract/pdf/PDFDocument.java:66-78 | addPage itself never fails with `PageMissing`, only with a fontify or glyph error. |
| SearchablePdf.MissingPageIsFirstUncovered | src/main/java/com/fersoft/pdf/SearchablePDFFromLocalFile.java:63-65 | A `PageMissing` error names the first input page past the end of the OCR result. The document then holds exactly one page per OCR page. |
| SearchablePdf.ComposePages | src/main/java/com/fersoft/pdf/SearchablePDFFromLocalFile.java:63-67 | The page loop appends to the document exactly the pages `Compose` describes, and returns the error it describes. |
| SearchablePdf.AddTextToPdf | src/main/java/com/fersoft/pdf/SearchablePDFFromLocalFile.java:54-72 | The whole conversion: poll until the job leaves IN_PROGRESS, fetch all batches, then build a fresh document with the given chain and the pages `Compose` describes from the OCR pages. The outcome does not depend on the final job status. |

## Left out

- Uploading the input to S3, deleting it afterwards, and saving the output file (`run`, `uploadFileToS3`, `deleteFileFromS3`, `savePdfToFile`): file and network I/O. The model ends at the document's pages.
- Starting the text detection job (`executeTextractJob`): a network call. The job id is a parameter. The wait that follows it is modelled.
- The ten-second sleep between polls, and the logging: a clock and output. Neither affects the result.
- Rendering the input pages at 300 DPI: image processing. Rendered pages are parameters, and the model keeps only their size.
- PDFBox itself: JPEG or lossless image encoding, content-stream bytes, invisible rendering mode (NEITHER), and closing the stream and the document. A page records its media box, image, image type and the draws issued on it. The stream left unclosed when an exception escapes is not modelled.
- Loading the two Noto fonts in the constructor: file I/O. The font chain is given.
- Fonts are abstract. `canEncode` stands for `encode` not throwing, and `stringWidth` for `getStringWidth`.
- Float and int arithmetic: widths and positions are reals, not IEEE 32-bit floats. The font size is an unbounded integer, not a 32-bit int.
- UTF-16: text is a sequence of code points. `codePointAt`/`charCount` stepping, surrogates and substring indices are not modelled.
- A null job status ends the poll like any status other than IN_PROGRESS. The model has no null, so statuses are plain strings.
- SearchablePDF.java, the command-line entry point, is not part of this model.
- Compositor.PdfDocument.DrawRuns: requires a terminating size search for every run whose font encodes the line text, including such a run after the first failing run, which the source never reaches. Without the condition the size search of a run that is reached does not terminate.
- Compositor.PdfDocument.AddPage: requires the same of every line, including lines after the first line that fails, which the source never reaches.
- FontSize.CalculateFontSize: requires that the search terminates. The width must grow with the size, or the start size must fit exactly. Otherwise the source loops forever.
- SearchablePdf.ComposePages: requires every page the loop can reach to be sizable, for the same reason as AddPage.
- SearchablePdf.AddTextToPdf: requires the same of the OCR pages, and that the service eventually answers the poll and the fetches.
- Textract.ExtractText: requires that the answers include one without a next token. If the service never stops sending tokens, the source fetches forever.
- Textract.WaitForJobCompletion: requires some status other than IN_PROGRESS. If the job never leaves that state, the source polls forever.
- The aliasing between `page` and the last element of `pages` in `extractText` is modelled by updating both together. The orphan list, filled before the first PAGE block, is kept but never returned.
- The run loop of addPage, the block loop of extractText and the body of the page loop of addTextToPDF are separate methods (`DrawRuns`, `ReadBatch`, `AddRound`). In the source they are inline code.
