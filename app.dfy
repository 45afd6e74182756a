/**
 * The application state and guards of js/app.js: which uploaded files are
 * kept, the status label of a tool, the export target of PDF → Text, and
 * the checks `handleRun` makes before it dispatches a tool.
 *
 * The page-range parser used by the split and reorder tools is in
 * page_range.dfy; the export formats are in text_export.dfy.
 */
module App {
  import opened JsBuiltins
  import TextExport

  // ---------------------------------------------------------------------
  // Uploads
  // ---------------------------------------------------------------------

  /** What the app reads of a browser `File`: its name and MIME type. */
  datatype UploadFile = UploadFile(name: string, mimeType: string)

  const PdfType: string := "application/pdf"
  const ImagePrefix: string := "image/"

  predicate IsPdf(f: UploadFile) {
    f.mimeType == PdfType
  }

  /** The test in `handleFiles`: a PDF, or any `image/…` type. */
  predicate IsAccepted(f: UploadFile) {
    IsPdf(f) || StartsWith(f.mimeType, ImagePrefix)
  }

  /** `Array.from(files).filter(…)`: the accepted files, in upload order. */
  function AcceptFiles(files: seq<UploadFile>): (r: seq<UploadFile>)
    ensures |r| <= |files|
    ensures forall f :: f in r <==> f in files && IsAccepted(f)
  {
    if files == [] then []
    else (if IsAccepted(files[0]) then [files[0]] else []) + AcceptFiles(files[1..])
  }

  /** Filtering works piecewise: the kept files of a + b are those of a, then those of b. */
  lemma {:induction false} AcceptFilesConcat(a: seq<UploadFile>, b: seq<UploadFile>)
    ensures AcceptFiles(a + b) == AcceptFiles(a) + AcceptFiles(b)
  {
    if a == [] {
      assert a + b == b;
    } else {
      assert (a + b)[0] == a[0];
      assert (a + b)[1..] == a[1..] + b;
      AcceptFilesConcat(a[1..], b);
    }
  }

  /** A selection is kept unchanged exactly when every file in it is acceptable. */
  lemma AcceptFilesKeepsAll(files: seq<UploadFile>)
    ensures AcceptFiles(files) == files <==> forall k :: 0 <= k < |files| ==> IsAccepted(files[k])
  {
    if forall k :: 0 <= k < |files| ==> IsAccepted(files[k]) {
      AllAcceptedKept(files);
    } else {
      var k :| 0 <= k < |files| && !IsAccepted(files[k]);
      assert files[k] in files;
    }
  }

  lemma {:induction false} AllAcceptedKept(files: seq<UploadFile>)
    requires forall k :: 0 <= k < |files| ==> IsAccepted(files[k])
    ensures AcceptFiles(files) == files
  {
    if files != [] {
      assert IsAccepted(files[0]);
      assert forall k :: 0 <= k < |files[1..]| ==> files[1..][k] == files[k + 1];
      AllAcceptedKept(files[1..]);
      assert files == [files[0]] + files[1..];
    }
  }

  /** Filtering twice keeps what filtering once kept. */
  lemma AcceptFilesIdempotent(files: seq<UploadFile>)
    ensures AcceptFiles(AcceptFiles(files)) == AcceptFiles(files)
  {
    var r := AcceptFiles(files);
    assert forall k :: 0 <= k < |r| ==> r[k] in r;
    AcceptFilesKeepsAll(r);
  }

  /** A selection that mixes in other types keeps only its PDFs and images, in order. */
  lemma ExampleUpload()
    ensures AcceptFiles([UploadFile("a.pdf", "application/pdf"), UploadFile("notes.txt", "text/plain"),
                         UploadFile("b.png", "image/png")])
         == [UploadFile("a.pdf", "application/pdf"), UploadFile("b.png", "image/png")]
  {
    var a, t, b := UploadFile("a.pdf", "application/pdf"), UploadFile("notes.txt", "text/plain"),
                   UploadFile("b.png", "image/png");
    assert "image/png"[..6] == ImagePrefix;
    assert !StartsWith("text/plain", ImagePrefix) by {
      assert "text/plain"[..6][0] == 't' && ImagePrefix[0] == 'i';
    }
    assert [a, t, b][1..] == [t, b] && [t, b][1..] == [b] && [b][1..] == [];
  }

  // ---------------------------------------------------------------------
  // Tool names
  // ---------------------------------------------------------------------

  function UpperAscii(c: char): char {
    if 'a' <= c <= 'z' then (c as int - 32) as char else c
  }

  function LowerAscii(c: char): char {
    if 'A' <= c <= 'Z' then (c as int + 32) as char else c
  }

  /** `capitalize(word)`: the first character upper-cased, the rest untouched (ASCII letters). */
  function Capitalize(word: string): (r: string)
    ensures |r| == |word|
    ensures word != [] ==> r[1..] == word[1..]
    ensures word != [] ==> !('a' <= r[0] <= 'z') && LowerAscii(r[0]) == LowerAscii(word[0])
  {
    if word == [] then [] else [UpperAscii(word[0])] + word[1..]
  }

  /** Capitalizing a capitalized word changes nothing. */
  lemma CapitalizeIdempotent(word: string)
    ensures Capitalize(Capitalize(word)) == Capitalize(word)
  {
  }

  /** The status line shown when a tool is picked. */
  function SelectedStatus(key: string): string {
    "Selected: " + Capitalize(key) + ". Configure options then run."
  }

  lemma ExampleStatus()
    ensures SelectedStatus("pdfText") == "Selected: PdfText. Configure options then run."
  {
    CapitalizePdfText();
  }

  lemma CapitalizePdfText()
    ensures Capitalize("pdfText") == "PdfText"
  {
    assert UpperAscii('p') == 'P';
    assert "pdfText"[1..] == "dfText";
  }

  // ---------------------------------------------------------------------
  // PDF → Text: what is downloaded
  // ---------------------------------------------------------------------

  /** The format field, `value || 'text'`: an empty selection means plain text. */
  function ExportFormat(selected: string): (r: string)
    ensures selected == "" ==> r == "text"
    ensures selected != "" ==> r == selected
  {
    if selected == "" then "text" else selected
  }

  datatype Download = Download(fileName: string, mime: string, content: string)

  /** The file name and MIME type chosen for a format. */
  function ExportFileName(format: string): string {
    if format == "html" then "export.html"
    else if format == "markdown" then "export.md"
    else "export.txt"
  }

  function ExportMime(format: string): string {
    if format == "html" then "text/html" else "text/plain"
  }

  /** The download `performPdfToText` makes from the page texts and the selected format. */
  function ExportDownload(pages: seq<string>, selected: string): (d: Download)
    ensures d.content == TextExport.Render(pages, ExportFormat(selected))
  {
    var format := ExportFormat(selected);
    Download(ExportFileName(format), ExportMime(format), TextExport.Render(pages, format))
  }

  /**
   * The download is labelled for what is in it: an `.html` file is served
   * as text/html and holds the HTML document, an `.md` file holds the
   * markdown, a `.txt` file the plain pages, and every other type is
   * text/plain.
   */
  lemma ExportLabelsMatchContent(pages: seq<string>, selected: string)
    ensures ExportDownload(pages, selected).fileName == "export.html"
        <==> ExportDownload(pages, selected).mime == "text/html"
    ensures ExportDownload(pages, selected).fileName == "export.html"
        ==> ExportDownload(pages, selected).content == TextExport.HtmlExport(pages)
    ensures ExportDownload(pages, selected).fileName == "export.md"
        ==> ExportDownload(pages, selected).content == TextExport.MarkdownExport(pages)
    ensures ExportDownload(pages, selected).fileName == "export.txt"
        ==> ExportDownload(pages, selected).content == TextExport.PlainExport(pages)
    ensures ExportDownload(pages, selected).fileName in {"export.html", "export.md", "export.txt"}
  {
  }

  /** Leaving the format empty downloads the plain pages as export.txt. */
  lemma DefaultExportIsPlain(pages: seq<string>)
    ensures ExportDownload(pages, "") == Download("export.txt", "text/plain", TextExport.PlainExport(pages))
  {
  }

  // ---------------------------------------------------------------------
  // Number fields
  // ---------------------------------------------------------------------

  /**
   * `parseInt(text, 10) || fallback`: NaN and 0 are both falsy, so either
   * gives the fallback; any other number is kept.
   */
  function NumberOr(text: string, fallback: int): (r: int)
    ensures ParseInt(text).Some? && ParseInt(text).value != 0 ==> r == ParseInt(text).value
    ensures ParseInt(text).None? || ParseInt(text).value == 0 ==> r == fallback
  {
    match ParseInt(text)
    case Some(n) => if n == 0 then fallback else n
    case None => fallback
  }

  /** The first page label is never 0: a start field of "0" or junk numbers from 1. */
  lemma StartNumberNeverZero(text: string)
    ensures NumberOr(text, 1) != 0
    ensures NumberOr("0", 1) == 1 && NumberOr("", 1) == 1
  {
    ParseIntOfNatString(0);
    assert NatToString(0) == "0";
  }

  // ---------------------------------------------------------------------
  // Running a tool
  // ---------------------------------------------------------------------

  datatype Tool = Merge | Split | Compress | Watermark | PdfText | PdfImages | ImagesPdf
                | Reorder | PageNumbers | Flatten

  /** The `case` label under which `handleRun` dispatches each tool. */
  function ToolKey(t: Tool): string {
    match t
    case Merge => "merge"
    case Split => "split"
    case Compress => "compress"
    case Watermark => "watermark"
    case PdfText => "pdfText"
    case PdfImages => "pdfImages"
    case ImagesPdf => "imagesPdf"
    case Reorder => "reorder"
    case PageNumbers => "pageNumbers"
    case Flatten => "flatten"
  }

  /** The `switch (currentAction)`: which case, if any, a key selects. */
  function ToolOf(key: string): (r: Option<Tool>)
    ensures r.Some? ==> ToolKey(r.value) == key
  {
    if key == "merge" then Some(Merge)
    else if key == "split" then Some(Split)
    else if key == "compress" then Some(Compress)
    else if key == "watermark" then Some(Watermark)
    else if key == "pdfText" then Some(PdfText)
    else if key == "pdfImages" then Some(PdfImages)
    else if key == "imagesPdf" then Some(ImagesPdf)
    else if key == "reorder" then Some(Reorder)
    else if key == "pageNumbers" then Some(PageNumbers)
    else if key == "flatten" then Some(Flatten)
    else None
  }

  /** Every tool is reached by its own key, so no two tools share a case. */
  lemma ToolKeysRoundTrip(t: Tool)
    ensures ToolOf(ToolKey(t)) == Some(t)
  {
  }

  datatype RunOutcome = NoFiles | TooFewToMerge | Dispatched(tool: Tool) | NoCase

  /**
   * What `handleRun` does with the number of uploaded files and the current
   * action key, each case in both directions: no files is refused whatever
   * the tool; one file is refused for merge only; otherwise the tool named
   * by the key runs, and a key that names no tool does nothing.
   */
  function RunGuard(fileCount: nat, key: string): (r: RunOutcome)
    ensures r == NoFiles <==> fileCount == 0
    ensures r == TooFewToMerge <==> fileCount == 1 && key == "merge"
    ensures r == NoCase <==> fileCount > 0 && ToolOf(key).None?
    ensures r.Dispatched? <==> fileCount > 0 && ToolOf(key).Some? && (key == "merge" ==> fileCount >= 2)
    ensures r.Dispatched? ==> ToolKey(r.tool) == key
  {
    if fileCount == 0 then NoFiles
    else match ToolOf(key)
      case None => NoCase
      case Some(t) => if t == Merge && fileCount < 2 then TooFewToMerge else Dispatched(t)
  }

  /** Adding files never stops a tool that would run. */
  lemma RunGuardMonotone(n: nat, m: nat, key: string)
    requires n <= m && RunGuard(n, key).Dispatched?
    ensures RunGuard(m, key) == RunGuard(n, key)
  {
  }

  /** Merge is the only tool that needs more than one file. */
  lemma OneFileRunsAllButMerge(t: Tool)
    ensures RunGuard(1, ToolKey(t)) == (if t == Merge then TooFewToMerge else Dispatched(t))
  {
    ToolKeysRoundTrip(t);
  }

  // ---------------------------------------------------------------------
  // Which file a single-PDF tool works on
  // ---------------------------------------------------------------------

  datatype PdfCheck = NoUpload | NoPdf | PdfAvailable

  /** `ensurePdfAvailable`: some upload, and at least one of them a PDF. */
  function EnsurePdfAvailable(files: seq<UploadFile>): (r: PdfCheck)
    ensures r == NoUpload <==> files == []
    ensures r == PdfAvailable <==> exists k :: 0 <= k < |files| && IsPdf(files[k])
  {
    if files == [] then NoUpload
    else if exists k :: 0 <= k < |files| && IsPdf(files[k]) then PdfAvailable
    else NoPdf
  }

  /**
   * As written, the PDF tools pass `uploadedFiles[0]` on once the guard
   * passes, even when that first upload is an image.
   */
  function FirstUploadAsWritten(files: seq<UploadFile>): (r: Option<UploadFile>)
    ensures r.Some? <==> EnsurePdfAvailable(files) == PdfAvailable
    ensures r.Some? ==> r.value == files[0]
  {
    if EnsurePdfAvailable(files) == PdfAvailable then Some(files[0]) else None
  }

  /** An image uploaded before a PDF passes the guard and reaches the PDF tool. */
  lemma ImageBeforePdfReachesPdfTool()
    ensures var files := [UploadFile("scan.png", "image/png"), UploadFile("doc.pdf", "application/pdf")];
      EnsurePdfAvailable(files) == PdfAvailable &&
      FirstUploadAsWritten(files) == Some(files[0]) && !IsPdf(files[0])
  {
    var files := [UploadFile("scan.png", "image/png"), UploadFile("doc.pdf", "application/pdf")];
    assert IsPdf(files[1]);
  }

  /** The file a single-PDF tool is meant to open: the first uploaded PDF. */
  function FirstPdf(files: seq<UploadFile>): (r: Option<UploadFile>)
    ensures r.Some? ==> IsPdf(r.value) && r.value in files
    ensures r.None? <==> forall k :: 0 <= k < |files| ==> !IsPdf(files[k])
  {
    if files == [] then None
    else if IsPdf(files[0]) then Some(files[0])
    else FirstPdf(files[1..])
  }

  /**
   * The corrected choice opens a PDF exactly when the guard passes, and
   * it is the earliest PDF of the upload.
   */
  lemma {:induction false} FirstPdfMatchesGuard(files: seq<UploadFile>)
    ensures FirstPdf(files).Some? <==> EnsurePdfAvailable(files) == PdfAvailable
    ensures FirstPdf(files).Some? ==>
      exists k :: 0 <= k < |files| && files[k] == FirstPdf(files).value &&
        forall j :: 0 <= j < k ==> !IsPdf(files[j])
  {
    if files != [] && !IsPdf(files[0]) {
      FirstPdfMatchesGuard(files[1..]);
      if FirstPdf(files).Some? {
        var k :| 0 <= k < |files[1..]| && files[1..][k] == FirstPdf(files[1..]).value &&
          forall j :: 0 <= j < k ==> !IsPdf(files[1..][j]);
        assert files[k + 1] == FirstPdf(files).value;
        forall j | 0 <= j < k + 1 ensures !IsPdf(files[j]) {
          if j > 0 {
            assert files[j] == files[1..][j - 1];
          }
        }
      }
    } else if files != [] {
      assert files[0] == FirstPdf(files).value;
    }
  }

  // ---------------------------------------------------------------------
  // The page's state
  // ---------------------------------------------------------------------

  /** The module-level `uploadedFiles` and `currentAction` of the page. */
  class Session {
    var uploadedFiles: seq<UploadFile>
    var currentAction: string

    /** On load: nothing uploaded, merge selected. */
    constructor()
      ensures uploadedFiles == [] && currentAction == "merge"
      ensures Valid()
    {
      uploadedFiles := [];
      currentAction := "merge";
    }

    /** Every upload passed the filter. */
    predicate Valid()
      reads this
    {
      forall k :: 0 <= k < |uploadedFiles| ==> IsAccepted(uploadedFiles[k])
    }

    /**
     * `handleFiles`: the accepted files replace the previous upload, even
     * when none is accepted; `ok` is false exactly in that error case.
     */
    method HandleFiles(files: seq<UploadFile>) returns (ok: bool)
      modifies this
      ensures uploadedFiles == AcceptFiles(files) && currentAction == old(currentAction)
      ensures ok <==> exists f :: f in files && IsAccepted(f)
      ensures Valid()
    {
      uploadedFiles := AcceptFiles(files);
      ok := |uploadedFiles| != 0;
      if ok {
        assert uploadedFiles[0] in uploadedFiles;
      }
      assert forall k :: 0 <= k < |uploadedFiles| ==> uploadedFiles[k] in uploadedFiles;
    }

    /** The reset button: clears the upload, keeps the selected tool. */
    method Reset()
      modifies this
      ensures uploadedFiles == [] && currentAction == old(currentAction)
      ensures Valid()
    {
      uploadedFiles := [];
    }

    /** A tool button or feature card: selects the key and returns the status line. */
    method SelectAction(key: string) returns (status: string)
      modifies this
      ensures currentAction == key && uploadedFiles == old(uploadedFiles)
      ensures status == SelectedStatus(key)
      ensures old(Valid()) ==> Valid()
    {
      currentAction := key;
      status := SelectedStatus(key);
    }

    /** `handleRun`'s guards and `switch`, without the tool's own work. */
    method Run() returns (r: RunOutcome)
      ensures r == RunGuard(|uploadedFiles|, currentAction)
      ensures r.Dispatched? ==> uploadedFiles != [] && ToolKey(r.tool) == currentAction
    {
      if |uploadedFiles| == 0 {
        return NoFiles;
      }
      var tool := ToolOf(currentAction);
      if tool.None? {
        return NoCase;
      }
      if tool.value == Merge && |uploadedFiles| < 2 {
        return TooFewToMerge;
      }
      return Dispatched(tool.value);
    }

    /**
     * The file PDF → Text, PDF → Images, reorder, page numbers and flatten
     * open: `ensurePdfAvailable`'s `some` over the upload, then, when a PDF
     * was found anywhere, the first upload, whatever its type.
     */
    method PdfToolInput() returns (f: Option<UploadFile>)
      requires Valid()
      ensures f == FirstUploadAsWritten(uploadedFiles)
      ensures f.Some? ==> IsAccepted(f.value)
      ensures f.Some? <==> uploadedFiles != [] && exists k :: 0 <= k < |uploadedFiles| && IsPdf(uploadedFiles[k])
    {
      if |uploadedFiles| == 0 {
        return None;
      }
      var hasPdf := false;
      var k := 0;
      while k < |uploadedFiles| && !hasPdf
        invariant 0 <= k <= |uploadedFiles|
        invariant hasPdf <==> exists j :: 0 <= j < k && IsPdf(uploadedFiles[j])
      {
        hasPdf := IsPdf(uploadedFiles[k]);
        k := k + 1;
      }
      if !hasPdf {
        return None;
      }
      return Some(uploadedFiles[0]);
    }
  }
}
