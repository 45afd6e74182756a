# PDF tools in the browser: a verified model of the page logic

The application is a browser page that merges, splits, compresses, watermarks,
reorders, numbers and exports PDFs. It hands the PDF work to pdf-lib and
pdf.js. What the page decides on its own is modelled here:

- **The page-range parser.** `parsePageRange` turns text such as `"1-3,5,9-10"`
  into 0-based page indices. `parseInt(…, 10)` follows ECMA-262
  section 19.2.5 (an optional sign, then the longest run of leading digits).
  `trim` and `split` follow their ECMAScript definitions.
  Model: `page_range.dfy` (module `PageRange`), built on `js_builtins.dfy`
  (module `JsBuiltins`).
- **The text export.** `escapeHtml`, and the plain, markdown and HTML
  documents `pdfToTextFormatted` builds from the page texts.
  Model: `text_export.dfy` (module `TextExport`).
- **Page deletion.** `deletePages` sorts the caller's index array in place,
  largest first, then removes one page per index. Also the page labels
  `start + idx` drawn by `addPageNumbers`.
  Model: `page_edits.dfy` (module `PageEdits`).
- **The page's own state and guards** (`app.dfy`, module `App`):
  - the upload filter of `handleFiles`;
  - `capitalize` and the status line;
  - the file name and MIME type of the text export;
  - the `parseInt(…) || default` number fields;
  - the checks and `switch` of `handleRun`;
  - `ensurePdfAvailable`.

  The module-level `uploadedFiles` and `currentAction` are the fields of the
  class `App.Session`. Its methods reassign them as the handlers do.

A document is a sequence of pages. pdf-lib's `removePage(i)` is deletion at
index i. It is refused (`None`) when i is not a page, which is where pdf-lib
throws. Text extraction is abstract: a document is given as the list of text
items of each page.

What the parser does, stated exactly:

- Repeats are kept and the segments' order is kept (`ExampleOrderKept`,
  `PageIndicesConcat`).
- Page numbering reads its start with `parseInt` (`App.NumberOr`) and does
  not parse a range.
- A segment with a dash is split on every dash, and only the first two pieces
  are read (`ExtraDashesIgnored`).
- A negative page such as `"-5"` is skipped because its empty left side reads
  as NaN (`ExampleNegative`). The final `>= 0` filter is not what removes it.

## Model

| member | source | states |
|---|---|---|
| PageRange.ParsePageRange | js/app.js:326-347 | the accumulator loop returns exactly the specification `PageIndices(range)` |
| PageRange.PushSegment | js/app.js:330-344 | one segment appends exactly its own pages to the accumulator; the inner `for` pushes the run start-1 … end-1 |
| PageRange.Run | js/app.js:335-337 | `for (i = start; i <= end; i++) push(i - 1)` yields end-start+1 consecutive values from start-1, and nothing when start > end |
| PageRange.NonNegative | js/app.js:346 | the filter keeps only values >= 0, never adds one, and keeps every non-negative value as often as it occurs |
| PageRange.PageIndices | js/app.js:326-347 | every index the parser returns is >= 0 |
| PageRange.PageIndicesConcat | js/app.js:328-346 | the result for `a,b` is the result for `a` followed by the result for `b`: segments in textual order, nothing sorted or deduplicated |
| PageRange.OneSegment | js/app.js:328-346 | a text without commas is one segment, filtered |
| PageRange.BlankSegment | js/app.js:331 | a blank segment contributes nothing |
| PageRange.NumeralSegment | js/app.js:339-342 | the segment `"n"` contributes n-1 |
| PageRange.SinglePage | js/app.js:339-342 | `"n"` gives `[n-1]` for n >= 1, and `"0"` gives nothing after the filter |
| PageRange.RangeSegment | js/app.js:332-337 | the segment `"a-b"` contributes the run a-1 … b-1 |
| PageRange.RunNonNegative | js/app.js:335-337 | a run that starts at page 1 or later loses nothing to the filter |
| PageRange.RangePages | js/app.js:332-337 | for 1 <= a: `"a-b"` gives b-a+1 consecutive ascending indices from a-1 when a <= b, and nothing when a > b |
| PageRange.ExtraDashesIgnored | js/app.js:333 | `"x-y-z"` behaves as `"x-y"`: only the first two dash pieces count |
| PageRange.UnreadableEnd | js/app.js:333-334 | a range whose end reads as NaN contributes nothing, whatever its start |
| PageRange.DashSides | js/app.js:333 | `part.split('-')` destructured into `[start, end]`: the first two pieces, which exist because it is used only on a segment holding a dash; its meaning is stated by `DashSidesOfPair`, `DashSidesOfTriple` and `DashSidesFree` |
| PageRange.DashSidesFree | js/app.js:333 | neither dash piece of a segment contains a dash |
| PageRange.UnsignedPiece | js/app.js:333 | a piece without a dash never reads as a negative number |
| PageRange.SegmentAtLeastMinusOne | js/app.js:330-344 | before the filter, no segment emits a value below -1 |
| PageRange.EmittedAtLeastMinusOne | js/app.js:328-345 | before the filter, the whole accumulator holds no value below -1 |
| PageRange.FilterOnlyDropsPageZero | js/app.js:346 | the filter removes exactly the -1 entries (page 0) and nothing else |
| PageRange.NonNegativeLength | js/app.js:346 | on values >= -1 the filter shortens the list by the number of -1s |
| PageRange.ExampleRanges | js/app.js:326-347 | `"1-3,5,9-10"` gives `[0,1,2,4,8,9]` |
| PageRange.ExampleOrderKept | js/app.js:328-346 | `"3,1,2"` gives `[2,0,1]`: the order is kept |
| PageRange.ExampleSingletonRange | js/app.js:333-337 | `"2-2"` gives `[1]` |
| PageRange.ExampleReversedRange | js/app.js:335 | `"5-3"` gives nothing |
| PageRange.ExampleBlanks | js/app.js:331-341 | `" 3 , , 5-6"` gives `[2,4,5]` |
| PageRange.ExampleNonNumeric | js/app.js:339-346 | `"abc,2"` gives `[1]`; `"0"` and `""` give nothing |
| PageRange.SegmentPages | js/app.js:330-344 | one segment's pages before the filter: blank gives nothing, a dashed segment the run of its first two pieces when both read as numbers, otherwise the one number it reads; its meaning is stated by `BlankSegment`, `NumeralSegment`, `RangeSegment`, `UnreadableStart`, `UnreadableEnd` and `SegmentAtLeastMinusOne` |
| PageRange.PushRun | js/app.js:335-337 | the inner `for` loop appends exactly the run start-1 … end-1 to the accumulator |
| PageRange.UnreadableStart | js/app.js:333-334 | a range whose start reads as NaN contributes nothing, whatever its end |
| PageRange.ExampleNegative | js/app.js:333-334 | `"-5"` gives nothing: its empty start reads as NaN |
| PageRange.ExampleUnreadableEnd | js/app.js:333-334 | `"1-"` and `"1-x"` give nothing |
| PageRange.SelectPages | js/app.js:200-210 | split's field is refused with "Enter page numbers" exactly when it trims to empty, and with "No valid pages" exactly when the trimmed text names no page; otherwise the pages are exactly `PageIndices` of the trimmed text, non-empty and all >= 0 |
| JsBuiltins.Trim | js/app.js:331 | `trim` drops leading and trailing whitespace; its meaning is stated by `TrimSpec` and `TrimIdempotent` |
| JsBuiltins.ParseInt | js/app.js:333-339 | `parseInt(…, 10)`: optional sign, then the longest run of leading digits, NaN (`None`) when there is none; `ParseIntOfIntToString` states that it reads back decimal texts |
| JsBuiltins.TrimSpec | js/app.js:331 | `trim` gives `""` exactly for all-whitespace text; otherwise its ends are not whitespace |
| JsBuiltins.TrimIdempotent | js/app.js:200 | trimming twice is trimming once |
| JsBuiltins.Join | js/pdf-operations.js:33-51 | `Array.prototype.join`: the pieces with the separator between each two; its meaning is stated by `JoinSplit` and `JoinConcat` |
| JsBuiltins.IntToString | js/pdf-operations.js:112 | the decimal text of an integer, as the template literal `${start + idx}` writes it; its meaning is stated by `ParseIntOfIntToString` and `IntToStringInjective` |
| JsBuiltins.Split | js/app.js:328 | `split` yields one more piece than there are separators |
| JsBuiltins.JoinSplit | js/app.js:328 | joining the pieces of `split` with the separator gives the text back |
| JsBuiltins.SplitPiecesFree | js/app.js:333 | no piece of `split` contains the separator |
| JsBuiltins.ReplaceAll | js/pdf-operations.js:141-145 | a global replace leaves no occurrence of the character, unless the replacement holds it, and changes nothing when the character is absent |
| JsBuiltins.ParseIntOfIntToString | js/pdf-operations.js:112 | `parseInt` reads back the decimal text of any integer when what follows it does not start with a digit |
| JsBuiltins.IntToStringInjective | js/pdf-operations.js:112 | different integers have different decimal texts |
| TextExport.EscapeHtml | js/pdf-operations.js:139-146 | the chain of five global `replace` calls, `&` first; its meaning is stated by `EscapeHtmlPerCharacter`, `EscapeHtmlNoMarkup`, `EscapeHtmlLength` and `EscapeHtmlInjective` |
| TextExport.EscapeHtmlChar | js/pdf-operations.js:141-145 | the five replacements turn a single character into its entity, or leave it alone |
| TextExport.EscapeHtmlConcat | js/pdf-operations.js:139-146 | escaping distributes over concatenation |
| TextExport.EscapeHtmlPerCharacter | js/pdf-operations.js:139-146 | the replace chain equals the per-character map `&`→`&amp;`, `<`→`&lt;`, `>`→`&gt;`, `"`→`&quot;`, `'`→`&#039;`: entities made by the first step are not escaped again |
| TextExport.EscapeHtmlNoMarkup | js/pdf-operations.js:140-145 | escaped text has no raw `<`, `>`, `"` or `'` |
| TextExport.EscapeHtmlLength | js/pdf-operations.js:140-145 | output length = input length + 4·`&` + 3·`<` + 3·`>` + 5·`"` + 5·`'` |
| TextExport.UnescapeEscapeHtml | js/pdf-operations.js:139-146 | decoding the five entities recovers the input |
| TextExport.EscapeHtmlInjective | js/pdf-operations.js:139-146 | different texts escape differently |
| TextExport.PageTexts | js/pdf-operations.js:29-35 | one page text per page |
| TextExport.PageText | js/pdf-operations.js:33-34 | a page's text items joined by spaces, then trimmed; `PageTextTrimmed` states its ends |
| TextExport.PageTextTrimmed | js/pdf-operations.js:33-34 | a page text is empty or has no whitespace at either end |
| TextExport.Render | js/pdf-operations.js:37-51 | the `markdown`, `html` and default branches; `PdfToTextFormatted` is proved equal to it |
| TextExport.PlainExport | js/pdf-operations.js:51 | the page texts joined by blank lines; `PlainAppend` states how each page extends it |
| TextExport.MarkdownExport | js/pdf-operations.js:37-41 | `## Page n` blocks joined by blank lines; `MarkdownAppend` and `MarkdownBlocksAppend` state how each page extends it |
| TextExport.HtmlExport | js/pdf-operations.js:43-48 | the document wrapper around one block `<h2>Page k</h2><p>…</p>` per page, holding the escaped page text, the blocks joined by newlines; `HtmlAppend` and `HtmlTagCount` state its shape |
| TextExport.PdfToTextFormatted | js/pdf-operations.js:26-52 | the page loop and format switch return the chosen rendering of the trimmed page texts |
| TextExport.PlainAppend | js/pdf-operations.js:51 | one page exports as itself; another page adds a blank line and its text |
| TextExport.MarkdownBlocksAppend | js/pdf-operations.js:38-39 | a new page's markdown block goes last and is numbered by its position |
| TextExport.MarkdownAppend | js/pdf-operations.js:37-41 | one page exports as `## Page 1`, a blank line and its text; each further page adds a blank line and its block |
| TextExport.HtmlBlocksAppend | js/pdf-operations.js:44-45 | a new page's HTML block goes last and is numbered by its position |
| TextExport.HtmlAppend | js/pdf-operations.js:44-46 | the HTML body gains a newline and the new page's block |
| TextExport.EscapedHasNoMarkup | js/pdf-operations.js:45 | an escaped page text opens no tag |
| TextExport.HtmlBlockTags | js/pdf-operations.js:45 | each page block opens exactly four tags |
| TextExport.HtmlBodyTags | js/pdf-operations.js:44-46 | the body opens exactly four tags per page |
| TextExport.PrefixAndSuffixTags | js/pdf-operations.js:47 | the document wrapper opens eight tags before the body and two after it |
| TextExport.HtmlTagCount | js/pdf-operations.js:43-48 | the HTML export opens exactly 10 + 4·pages tags, whatever the page texts hold |
| PageEdits.SortDescending | js/pdf-operations.js:229 | the caller's array ends up sorted largest first and is a permutation of what it was |
| PageEdits.InsertDescending | js/pdf-operations.js:229 | one insertion step extends the sorted prefix by one element, leaves the elements after it in place and keeps the array a permutation |
| PageEdits.DescendingOrderUnique | js/pdf-operations.js:229 | two descending arrangements of the same indices are equal, so the sort's outcome does not depend on the algorithm |
| PageEdits.RemoveAt | js/pdf-operations.js:232 | `removePage` removes exactly one page |
| PageEdits.RemoveInOrder | js/pdf-operations.js:231-233 | the `forEach` loop equals the specification `RemovePagesInOrder` and stops at the first refused index |
| PageEdits.DeletePages | js/pdf-operations.js:223-241 | leaves the array sorted largest first and a permutation; with distinct in-range indices, the result is exactly the pages not named, in their order |
| PageEdits.RemovePagesInOrder | js/pdf-operations.js:231-233 | removing the indices one after another, stopping at the first refused one: a success has one page fewer per index, and more indices than pages always fail |
| PageEdits.RemoveAtSurvivors | js/pdf-operations.js:228-232 | after page i goes, the lower indices still name the pages they named before |
| PageEdits.DescendingRemovalDeletesExactly | js/pdf-operations.js:228-233 | strictly descending in-range indices delete exactly the pages they originally name, and the rest keep their order |
| PageEdits.SortedDistinctDeletes | js/pdf-operations.js:228-233 | sorted largest first and free of repeats, the indices delete exactly the pages they name |
| PageEdits.PermutationKeeps | js/pdf-operations.js:229 | sorting keeps the indices distinct, in range, and the same set |
| PageEdits.AscendingOrderMisdeletes | js/pdf-operations.js:228 | removing `[0,1]` in ascending order deletes pages 0 and 2; this is why the code sorts |
| PageEdits.RepeatedIndexOverdeletes | js/pdf-operations.js:229-233 | a repeated index removes two different pages |
| PageEdits.OutOfRangeFails | js/pdf-operations.js:232-239 | an index past the last page makes the deletion fail |
| PageEdits.PageLabels | js/pdf-operations.js:110-112 | one label per page |
| PageEdits.PageLabelReadsBack | js/pdf-operations.js:112 | page idx's label reads back as start+idx |
| PageEdits.PageLabelsDistinct | js/pdf-operations.js:110-112 | no two pages carry the same label |
| App.AcceptFiles | js/app.js:96-98 | exactly the files typed `application/pdf` or `image/…` are kept, and nothing else |
| App.AcceptFilesConcat | js/app.js:96-98 | filtering keeps the upload order |
| App.AcceptFilesKeepsAll | js/app.js:96-98 | an upload is kept whole exactly when every file in it is acceptable |
| App.AllAcceptedKept | js/app.js:96-98 | an upload of acceptable files is kept as is |
| App.AcceptFilesIdempotent | js/app.js:96-98 | filtering twice is filtering once |
| App.ExampleUpload | js/app.js:96-98 | a PDF, a text file and a PNG keep the PDF and the PNG, in that order |
| App.Capitalize | js/app.js:406-408 | same length, first letter not lower-case and the same letter, rest unchanged |
| App.CapitalizeIdempotent | js/app.js:406-408 | capitalizing twice is capitalizing once |
| App.ExampleStatus | js/app.js:57 | picking `pdfText` shows `Selected: PdfText. Configure options then run.` |
| App.ExportFormat | js/app.js:259 | an empty format selection means `text`; any other is kept |
| App.ExportFileName | js/app.js:262-264 | `export.html` for html, `export.md` for markdown, `export.txt` otherwise; `ExportLabelsMatchContent` and `DefaultExportIsPlain` tie it to the content |
| App.ExportMime | js/app.js:265 | `text/html` for html, `text/plain` otherwise; `ExportLabelsMatchContent` states that only the HTML document is served as text/html |
| App.ExportDownload | js/app.js:258-266 | the downloaded content is the rendering for the chosen format |
| App.ExportLabelsMatchContent | js/app.js:262-265 | `export.html` is served as text/html and holds the HTML document, and nothing else is text/html; `export.md` holds the markdown; `export.txt` holds the plain text |
| App.DefaultExportIsPlain | js/app.js:259-265 | no format selected downloads the plain pages as `export.txt`, text/plain |
| App.NumberOr | js/app.js:225 | a field read with `parseInt` keeps a non-zero number, and NaN or 0 falls back to the default (JavaScript's `or` on falsy values) |
| App.StartNumberNeverZero | js/app.js:311 | the page-number start is never 0; `"0"` and `""` start at 1 |
| App.ToolOf | js/app.js:124-160 | a key that selects a case selects the tool with that label |
| App.ToolKeysRoundTrip | js/app.js:124-160 | every tool's label selects that tool, so no two cases share a label |
| App.RunGuard | js/app.js:116-160 | no files is refused for every tool; one file is refused for merge only; otherwise the tool whose label is the key runs, and an unknown key does nothing |
| App.RunGuardMonotone | js/app.js:117-130 | more files never stop a tool that would run |
| App.OneFileRunsAllButMerge | js/app.js:125-130 | with one file, every tool but merge runs |
| App.EnsurePdfAvailable | js/app.js:349-362 | no upload is one error; the check passes exactly when some upload is typed `application/pdf` |
| App.ImageBeforePdfReachesPdfTool | js/app.js:258-261 | an image uploaded before a PDF passes the check and is the file handed to the PDF tool |
| App.FirstUploadAsWritten | js/app.js:258-261 | the file a PDF tool opens: some file exactly when the check passes, and then the first upload, whatever its type |
| App.FirstPdf | js/app.js:355 | the chosen file is a PDF of the upload, and there is none exactly when no upload is a PDF |
| App.FirstPdfMatchesGuard | js/app.js:349-361 | a PDF is chosen exactly when the check passes, and it is the earliest PDF uploaded |
| App.Session.constructor | js/app.js:3-4 | on load nothing is uploaded and merge is selected |
| App.Session.HandleFiles | js/app.js:95-109 | the accepted files replace the upload even when none is accepted, and success is reported exactly when some file was acceptable |
| App.Session.Reset | js/app.js:66-70 | the upload is cleared and the tool stays selected |
| App.Session.SelectAction | js/app.js:53-59 | the key becomes the current action, the upload is unchanged and still passes the filter, and the status line names the key capitalized |
| App.Session.Run | js/app.js:116-160 | `handleRun` decides as `RunGuard` on the upload count and the current key; a dispatched tool's label is the current key |
| App.Session.PdfToolInput | js/app.js:257-261 | the `some` loop of the check, then `uploadedFiles[0]`: the tool gets a file exactly when some upload is a PDF, and that file is the first upload, as `FirstUploadAsWritten` says; since every upload passed the filter, it is a PDF or an image |

## Left out

- The DOM, the event wiring, the drop zone, `setActiveAction`, `updateFileList`, the status colours, `alert` and `scrollIntoView`. These are UI.
- Downloads through `Blob`, `URL.createObjectURL` and anchor clicks. These are I/O.
- Every call into pdf-lib and pdf.js: loading, copying pages, saving, fonts, drawing, rendering, text extraction and form flattening. These are libraries outside the repository. A page's text items stand in for `getTextContent`.
- The merge, split, compress, watermark, images, reorder and flatten operations themselves. They are single calls into pdf-lib.
- `async`/`await` sequencing and the `try`/`catch` status messages. They carry no logic beyond dispatch.
- Floating-point layout: label and watermark positions, the megabyte size in the file list, and the rendering scale.
- The filter `performImagesToPdf` applies (`image/` types only) and the compress level beyond its `|| 3` default.
- js/pdf-viewer.js, which only writes a DOM text node.
- App.Capitalize: ASCII letters only. JavaScript's `toUpperCase` maps the whole Unicode range and can change a string's length.
- PageRange.PageIndices: numbers are unbounded integers. JavaScript's double precision, which loses exactness beyond 2^53, is not modelled.
- Strings are sequences of characters. UTF-16 surrogate pairs are not distinguished.
- JsBuiltins.ReplaceAll: models `replace` with a one-character global pattern and a literal replacement. `$` patterns in the replacement never arise here.
- PageEdits.SortDescending: an insertion sort stands for the engine's `Array.prototype.sort`. `PageEdits.DescendingOrderUnique` shows the outcome is the same for any correct sort.
- TextExport.UnescapeEscapeHtml: the decoder is a left-to-right scanner. It is not a chain of `replace` calls; it exists only as the inverse that witnesses injectivity.
- The split, compress and watermark tools open `uploadedFiles[0]` without calling `ensurePdfAvailable`. Only their fields are modelled (`PageRange.SelectPages`, `App.NumberOr`), not the file they open.

## Findings

| source | as written | input that shows it | evidently intended | confidence | as-written member | corrected member |
|---|---|---|---|---|---|---|
| js/app.js:349-361 | `ensurePdfAvailable` passes when any upload is a PDF, but the PDF tools then open `uploadedFiles[0]`, which may be an image | uploading `scan.png` (image/png), then `doc.pdf` (application/pdf), and running PDF → Text | the tool opens a PDF of the upload, the one the check found | medium, not executed | App.ImageBeforePdfReachesPdfTool | App.FirstPdfMatchesGuard |
