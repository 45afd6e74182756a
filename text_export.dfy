/**
 * Text export of js/pdf-operations.js: `escapeHtml` and the three output
 * formats `pdfToTextFormatted` assembles from the per-page strings.
 *
 * Text extraction itself (pdf.js `getTextContent`) is not modelled: a
 * document is the list of text items of each page.
 */
module TextExport {
  import opened JsBuiltins

  // ---------------------------------------------------------------------
  // escapeHtml
  // ---------------------------------------------------------------------

  /** escapeHtml as written: five global replacements, `&` first. */
  function EscapeHtml(s: string): string
  {
    var amp := ReplaceAll(s, '&', "&amp;");
    var lt := ReplaceAll(amp, '<', "&lt;");
    var gt := ReplaceAll(lt, '>', "&gt;");
    var quot := ReplaceAll(gt, '"', "&quot;");
    ReplaceAll(quot, '\'', "&#039;")
  }

  /** The text that stands for one character in escaped output. */
  function Entity(c: char): string
  {
    if c == '&' then "&amp;"
    else if c == '<' then "&lt;"
    else if c == '>' then "&gt;"
    else if c == '"' then "&quot;"
    else if c == '\'' then "&#039;"
    else [c]
  }

  /** Reference escaping: every character replaced by its entity, independently. */
  function EscapeChars(s: string): string
  {
    if s == [] then [] else Entity(s[0]) + EscapeChars(s[1..])
  }

  /** The characters that never appear raw in escaped text. */
  predicate IsMarkup(c: char) {
    c == '<' || c == '>' || c == '"' || c == '\''
  }

  lemma ReplaceSingle(c: char, x: char, rep: string)
    ensures ReplaceAll([c], x, rep) == if c == x then rep else [c]
  {
    assert [c][1..] == [];
  }

  /** escapeHtml of a single character is that character's entity. */
  lemma EscapeHtmlChar(c: char)
    ensures EscapeHtml([c]) == Entity(c)
  {
    if c == '&' {
      EscapeAmpersand();
    } else if c == '<' {
      EscapeLess();
    } else if c == '>' {
      EscapeGreater();
    } else if c == '"' {
      EscapeQuote();
    } else if c == '\'' {
      EscapeApostrophe();
    } else {
      EscapeOther(c);
    }
  }

  /** escapeHtml unfolded into its five intermediate strings. */
  lemma EscapeHtmlSteps(s: string, s1: string, s2: string, s3: string, s4: string, s5: string)
    requires s1 == ReplaceAll(s, '&', "&amp;") && s2 == ReplaceAll(s1, '<', "&lt;")
    requires s3 == ReplaceAll(s2, '>', "&gt;") && s4 == ReplaceAll(s3, '"', "&quot;")
    requires s5 == ReplaceAll(s4, '\'', "&#039;")
    ensures EscapeHtml(s) == s5
  {
  }

  /** The replacements after a character's own leave its entity alone. */
  lemma LaterStepsKeep(e: string)
    requires '<' !in e && '>' !in e && '"' !in e && '\'' !in e
    ensures ReplaceAll(e, '<', "&lt;") == e && ReplaceAll(e, '>', "&gt;") == e
    ensures ReplaceAll(e, '"', "&quot;") == e && ReplaceAll(e, '\'', "&#039;") == e
  {
  }

  lemma EscapeAmpersand()
    ensures EscapeHtml("&") == "&amp;"
  {
    ReplaceSingle('&', '&', "&amp;");
    LaterStepsKeep("&amp;");
    EscapeHtmlSteps("&", "&amp;", "&amp;", "&amp;", "&amp;", "&amp;");
  }

  lemma EscapeLess()
    ensures EscapeHtml("<") == "&lt;"
  {
    ReplaceSingle('<', '&', "&amp;");
    ReplaceSingle('<', '<', "&lt;");
    LaterStepsKeep("&lt;");
    EscapeHtmlSteps("<", "<", "&lt;", "&lt;", "&lt;", "&lt;");
  }

  lemma EscapeGreater()
    ensures EscapeHtml(">") == "&gt;"
  {
    ReplaceSingle('>', '&', "&amp;");
    ReplaceSingle('>', '<', "&lt;");
    ReplaceSingle('>', '>', "&gt;");
    LaterStepsKeep("&gt;");
    EscapeHtmlSteps(">", ">", ">", "&gt;", "&gt;", "&gt;");
  }

  lemma EscapeQuote()
    ensures EscapeHtml("\"") == "&quot;"
  {
    ReplaceSingle('"', '&', "&amp;");
    ReplaceSingle('"', '<', "&lt;");
    ReplaceSingle('"', '>', "&gt;");
    ReplaceSingle('"', '"', "&quot;");
    LaterStepsKeep("&quot;");
    EscapeHtmlSteps("\"", "\"", "\"", "\"", "&quot;", "&quot;");
  }

  lemma EscapeApostrophe()
    ensures EscapeHtml("'") == "&#039;"
  {
    ReplaceSingle('\'', '&', "&amp;");
    ReplaceSingle('\'', '<', "&lt;");
    ReplaceSingle('\'', '>', "&gt;");
    ReplaceSingle('\'', '"', "&quot;");
    ReplaceSingle('\'', '\'', "&#039;");
    EscapeHtmlSteps("'", "'", "'", "'", "'", "&#039;");
  }

  lemma EscapeOther(c: char)
    requires c != '&' && !IsMarkup(c)
    ensures EscapeHtml([c]) == [c]
  {
    ReplaceSingle(c, '&', "&amp;");
    ReplaceSingle(c, '<', "&lt;");
    ReplaceSingle(c, '>', "&gt;");
    ReplaceSingle(c, '"', "&quot;");
    ReplaceSingle(c, '\'', "&#039;");
  }

  /** escapeHtml works on the two halves of a string independently. */
  lemma EscapeHtmlConcat(a: string, b: string)
    ensures EscapeHtml(a + b) == EscapeHtml(a) + EscapeHtml(b)
  {
    ReplaceAllConcat(a, b, '&', "&amp;");
    var a1, b1 := ReplaceAll(a, '&', "&amp;"), ReplaceAll(b, '&', "&amp;");
    ReplaceAllConcat(a1, b1, '<', "&lt;");
    var a2, b2 := ReplaceAll(a1, '<', "&lt;"), ReplaceAll(b1, '<', "&lt;");
    ReplaceAllConcat(a2, b2, '>', "&gt;");
    var a3, b3 := ReplaceAll(a2, '>', "&gt;"), ReplaceAll(b2, '>', "&gt;");
    ReplaceAllConcat(a3, b3, '"', "&quot;");
    var a4, b4 := ReplaceAll(a3, '"', "&quot;"), ReplaceAll(b3, '"', "&quot;");
    ReplaceAllConcat(a4, b4, '\'', "&#039;");
  }

  /**
   * The chain of replacements equals the per-character map: because `&` is
   * replaced first, the `&` of an entity introduced later is never escaped
   * again.
   */
  lemma {:induction false} EscapeHtmlPerCharacter(s: string)
    ensures EscapeHtml(s) == EscapeChars(s)
  {
    if s != [] {
      assert s == [s[0]] + s[1..];
      EscapeHtmlConcat([s[0]], s[1..]);
      EscapeHtmlChar(s[0]);
      EscapeHtmlPerCharacter(s[1..]);
    }
  }

  /** No entity holds a raw `<`, `>`, `"` or `'`; other characters stand for themselves. */
  lemma EntityNoMarkup(c: char)
    ensures forall i :: 0 <= i < |Entity(c)| ==> !IsMarkup(Entity(c)[i])
  {
  }

  lemma {:induction false} EscapeCharsNoMarkup(s: string)
    ensures forall i :: 0 <= i < |EscapeChars(s)| ==> !IsMarkup(EscapeChars(s)[i])
  {
    if s != [] {
      var e, rest := Entity(s[0]), EscapeChars(s[1..]);
      EntityNoMarkup(s[0]);
      EscapeCharsNoMarkup(s[1..]);
      assert EscapeChars(s) == e + rest;
      forall i | 0 <= i < |e + rest| ensures !IsMarkup((e + rest)[i]) {
        if i >= |e| {
          assert (e + rest)[i] == rest[i - |e|];
        }
      }
    }
  }

  /** escapeHtml output holds no raw `<`, `>`, `"` or `'`. */
  lemma EscapeHtmlNoMarkup(s: string)
    ensures forall i :: 0 <= i < |EscapeHtml(s)| ==> !IsMarkup(EscapeHtml(s)[i])
  {
    EscapeHtmlPerCharacter(s);
    EscapeCharsNoMarkup(s);
  }

  /** Each `&`, `<`, `>` grows by 4, 3, 3 characters and each `"`, `'` by 5. */
  lemma {:induction false} EscapeCharsLength(s: string)
    ensures |EscapeChars(s)| == |s| + 4 * Occurrences(s, '&') + 3 * Occurrences(s, '<')
      + 3 * Occurrences(s, '>') + 5 * Occurrences(s, '"') + 5 * Occurrences(s, '\'')
  {
    if s != [] {
      EscapeCharsLength(s[1..]);
    }
  }

  /** The length of escapeHtml output, counted from the characters it escapes. */
  lemma EscapeHtmlLength(s: string)
    ensures |EscapeHtml(s)| == |s| + 4 * Occurrences(s, '&') + 3 * Occurrences(s, '<')
      + 3 * Occurrences(s, '>') + 5 * Occurrences(s, '"') + 5 * Occurrences(s, '\'')
  {
    EscapeHtmlPerCharacter(s);
    EscapeCharsLength(s);
  }

  /** A decoder for the five entities; any other character is copied. */
  function Unescape(t: string): string
    decreases |t|
  {
    if t == [] then []
    else if StartsWith(t, "&amp;") then ['&'] + Unescape(t[5..])
    else if StartsWith(t, "&lt;") then ['<'] + Unescape(t[4..])
    else if StartsWith(t, "&gt;") then ['>'] + Unescape(t[4..])
    else if StartsWith(t, "&quot;") then ['"'] + Unescape(t[6..])
    else if StartsWith(t, "&#039;") then ['\''] + Unescape(t[6..])
    else [t[0]] + Unescape(t[1..])
  }

  lemma UnescapeEntity(c: char, rest: string)
    ensures Unescape(Entity(c) + rest) == [c] + Unescape(rest)
  {
    var t := Entity(c) + rest;
    if c == '&' {
      Decodes(t, "&amp;", rest);
    } else if c == '<' {
      Decodes(t, "&lt;", rest);
      NotPrefix(t, "&amp;", 1);
    } else if c == '>' {
      Decodes(t, "&gt;", rest);
      NotPrefix(t, "&amp;", 1);
      NotPrefix(t, "&lt;", 1);
    } else if c == '"' {
      Decodes(t, "&quot;", rest);
      NotPrefix(t, "&amp;", 1);
      NotPrefix(t, "&lt;", 1);
      NotPrefix(t, "&gt;", 1);
    } else if c == '\'' {
      Decodes(t, "&#039;", rest);
      NotPrefix(t, "&amp;", 1);
      NotPrefix(t, "&lt;", 1);
      NotPrefix(t, "&gt;", 1);
      NotPrefix(t, "&quot;", 1);
    } else {
      UnescapePlain(c, rest);
    }
  }

  lemma Decodes(t: string, e: string, rest: string)
    requires t == e + rest
    ensures StartsWith(t, e) && t[|e|..] == rest
  {
    assert t[..|e|] == e;
  }

  lemma NotPrefix(t: string, e: string, i: nat)
    requires i < |e| && i < |t| && t[i] != e[i]
    ensures !StartsWith(t, e)
  {
  }

  /** A character that is not `&` decodes to itself. */
  lemma UnescapePlain(c: char, rest: string)
    requires c != '&'
    ensures Unescape([c] + rest) == [c] + Unescape(rest)
  {
    var t := [c] + rest;
    NotPrefix(t, "&amp;", 0);
    NotPrefix(t, "&lt;", 0);
    NotPrefix(t, "&gt;", 0);
    NotPrefix(t, "&quot;", 0);
    NotPrefix(t, "&#039;", 0);
    assert t[1..] == rest;
  }

  lemma {:induction false} UnescapeEscapeChars(s: string)
    ensures Unescape(EscapeChars(s)) == s
  {
    if s != [] {
      UnescapeEntity(s[0], EscapeChars(s[1..]));
      UnescapeEscapeChars(s[1..]);
      assert s == [s[0]] + s[1..];
    }
  }

  /** Decoding the entities recovers the text escapeHtml was given. */
  lemma UnescapeEscapeHtml(s: string)
    ensures Unescape(EscapeHtml(s)) == s
  {
    EscapeHtmlPerCharacter(s);
    UnescapeEscapeChars(s);
  }

  /** escapeHtml is injective: different page texts give different markup. */
  lemma EscapeHtmlInjective(a: string, b: string)
    requires EscapeHtml(a) == EscapeHtml(b)
    ensures a == b
  {
    UnescapeEscapeHtml(a);
    UnescapeEscapeHtml(b);
  }

  // ---------------------------------------------------------------------
  // The three export formats
  // ---------------------------------------------------------------------

  /** The pieces of text in a list, concatenated. */
  function Flatten(pieces: seq<string>): string
  {
    if pieces == [] then "" else pieces[0] + Flatten(pieces[1..])
  }

  /** The fixed head of the HTML export, tag by tag. */
  const HtmlPrefixTags: seq<string> := ["<!doctype html>", "<html>", "<head>", "<meta charset=\"utf-8\">",
    "<title>PDF Export", "</title>", "</head>", "<body>"]

  const HtmlSuffixTags: seq<string> := ["</body>", "</html>"]

  const HtmlPrefix: string := Flatten(HtmlPrefixTags)

  const HtmlSuffix: string := Flatten(HtmlSuffixTags)

  /** A page's text: its items joined by spaces, trimmed. */
  function PageText(items: seq<string>): string
  {
    Trim(Join(items, " "))
  }

  /** The page texts of a document, in page order. */
  function PageTexts(doc: seq<seq<string>>): (r: seq<string>)
    ensures |r| == |doc|
  {
    seq(|doc|, k requires 0 <= k < |doc| => PageText(doc[k]))
  }

  /** Markdown block of page k (counting from 1). */
  function MarkdownBlock(k: nat, p: string): string
  {
    "## Page " + NatToString(k) + "\n\n" + p
  }

  /** HTML block of page k (counting from 1), its text escaped. */
  function HtmlBlock(k: nat, p: string): string
  {
    "<h2>Page " + NatToString(k) + "</h2><p>" + EscapeHtml(p) + "</p>"
  }

  function MarkdownBlocks(pages: seq<string>): (r: seq<string>)
    ensures |r| == |pages|
  {
    seq(|pages|, k requires 0 <= k < |pages| => MarkdownBlock(k + 1, pages[k]))
  }

  function HtmlBlocks(pages: seq<string>): (r: seq<string>)
    ensures |r| == |pages|
  {
    seq(|pages|, k requires 0 <= k < |pages| => HtmlBlock(k + 1, pages[k]))
  }

  function PlainExport(pages: seq<string>): string
  {
    Join(pages, "\n\n")
  }

  function MarkdownExport(pages: seq<string>): string
  {
    Join(MarkdownBlocks(pages), "\n\n")
  }

  function HtmlExport(pages: seq<string>): string
  {
    HtmlPrefix + Join(HtmlBlocks(pages), "\n") + HtmlSuffix
  }

  /** The export for a format name; any name but "markdown" and "html" gives plain text. */
  function Render(pages: seq<string>, format: string): string
  {
    if format == "markdown" then MarkdownExport(pages)
    else if format == "html" then HtmlExport(pages)
    else PlainExport(pages)
  }

  /** The extraction loop: one trimmed text per page, in page order, then the chosen format. */
  method PdfToTextFormatted(doc: seq<seq<string>>, format: string) returns (content: string)
    ensures content == Render(PageTexts(doc), format)
  {
    var pages: seq<string> := [];
    var i := 1;
    while i <= |doc|
      invariant 1 <= i <= |doc| + 1
      invariant |pages| == i - 1
      invariant forall k :: 0 <= k < i - 1 ==> pages[k] == PageText(doc[k])
    {
      var strings := Join(doc[i - 1], " ");
      pages := pages + [Trim(strings)];
      i := i + 1;
    }
    assert pages == PageTexts(doc);
    content := Render(pages, format);
  }

  /** Every page text has no whitespace at either end. */
  lemma PageTextTrimmed(items: seq<string>)
    ensures PageText(items) == "" || (!IsWhiteSpace(PageText(items)[0])
      && !IsWhiteSpace(PageText(items)[|PageText(items)| - 1]))
  {
    TrimSpec(Join(items, " "));
  }

  lemma JoinSingle(p: string, sep: string)
    ensures Join([p], sep) == p
  {
  }

  /** Appending a page appends one block after a separator (plain text). */
  lemma PlainAppend(pages: seq<string>, p: string)
    ensures PlainExport([p]) == p
    ensures pages != [] ==> PlainExport(pages + [p]) == PlainExport(pages) + "\n\n" + p
  {
    JoinSingle(p, "\n\n");
    if pages != [] {
      JoinConcat(pages, [p], "\n\n");
    }
  }

  lemma MarkdownBlocksAppend(pages: seq<string>, p: string)
    ensures MarkdownBlocks(pages + [p]) == MarkdownBlocks(pages) + [MarkdownBlock(|pages| + 1, p)]
  {
    var l, r := MarkdownBlocks(pages + [p]), MarkdownBlocks(pages) + [MarkdownBlock(|pages| + 1, p)];
    forall k | 0 <= k < |l| ensures l[k] == r[k] {
      if k < |pages| {
        assert (pages + [p])[k] == pages[k];
      }
    }
  }

  lemma HtmlBlocksAppend(pages: seq<string>, p: string)
    ensures HtmlBlocks(pages + [p]) == HtmlBlocks(pages) + [HtmlBlock(|pages| + 1, p)]
  {
    var l, r := HtmlBlocks(pages + [p]), HtmlBlocks(pages) + [HtmlBlock(|pages| + 1, p)];
    forall k | 0 <= k < |l| ensures l[k] == r[k] {
      if k < |pages| {
        assert (pages + [p])[k] == pages[k];
      }
    }
  }

  /** Markdown: page k+1's block is appended after a blank line, numbered by its position. */
  lemma MarkdownAppend(pages: seq<string>, p: string)
    ensures MarkdownExport([p]) == "## Page 1\n\n" + p
    ensures pages != [] ==>
      MarkdownExport(pages + [p]) == MarkdownExport(pages) + "\n\n" + MarkdownBlock(|pages| + 1, p)
  {
    MarkdownBlocksAppend([], p);
    assert [] + [p] == [p];
    JoinSingle(MarkdownBlock(1, p), "\n\n");
    assert NatToString(1) == "1";
    if pages != [] {
      MarkdownBlocksAppend(pages, p);
      JoinConcat(MarkdownBlocks(pages), [MarkdownBlock(|pages| + 1, p)], "\n\n");
    }
  }

  /** HTML: a page's block sits between the earlier blocks and the suffix, after a newline. */
  lemma HtmlAppend(pages: seq<string>, p: string)
    ensures pages != [] ==>
      Join(HtmlBlocks(pages + [p]), "\n") == Join(HtmlBlocks(pages), "\n") + "\n" + HtmlBlock(|pages| + 1, p)
  {
    if pages != [] {
      HtmlBlocksAppend(pages, p);
      JoinConcat(HtmlBlocks(pages), [HtmlBlock(|pages| + 1, p)], "\n");
    }
  }

  lemma DigitsHaveNoMarkup(s: string)
    requires AllDigits(s)
    ensures Occurrences(s, '<') == 0
  {
    forall i | 0 <= i < |s| ensures s[i] != '<' {
      assert IsDigit(s[i]);
    }
    OccurrencesPositive(s, '<');
  }

  lemma EscapedHasNoMarkup(p: string)
    ensures Occurrences(EscapeHtml(p), '<') == 0
  {
    var e := EscapeHtml(p);
    EscapeHtmlNoMarkup(p);
    forall i | 0 <= i < |e| ensures e[i] != '<' {
      assert !IsMarkup(e[i]);
    }
    OccurrencesPositive(e, '<');
  }

  /** Each HTML block opens exactly four tags: `<h2>`, `</h2>`, `<p>`, `</p>`. */
  lemma HtmlBlockTags(k: nat, p: string)
    ensures Occurrences(HtmlBlock(k, p), '<') == 4
  {
    var n, e := NatToString(k), EscapeHtml(p);
    DigitsHaveNoMarkup(n);
    EscapedHasNoMarkup(p);
    OccurrencesConcat("<h2>Page ", n, '<');
    OccurrencesConcat("<h2>Page " + n, "</h2><p>", '<');
    OccurrencesConcat("<h2>Page " + n + "</h2><p>", e, '<');
    OccurrencesConcat("<h2>Page " + n + "</h2><p>" + e, "</p>", '<');
    HeadingOpenTag();
    HeadingCloseTags();
    ParagraphCloseTag();
  }

  /** The fixed text of a block: `<h2>Page `, then `</h2><p>`, then `</p>`. */
  lemma HeadingOpenTag()
    ensures Occurrences("<h2>Page ", '<') == 1
  {
    assert "<h2>Page "[1..] == "h2>Page ";
  }

  lemma HeadingCloseTags()
    ensures Occurrences("</h2><p>", '<') == 2
  {
    assert "</h2><p>"[1..] == "/h2><p>";
    assert "/h2><p>"[4..] == "<p>";
  }

  lemma ParagraphCloseTag()
    ensures Occurrences("</p>", '<') == 1
  {
  }

  lemma {:induction false} HtmlBodyTags(pages: seq<string>)
    ensures Occurrences(Join(HtmlBlocks(pages), "\n"), '<') == 4 * |pages|
    decreases |pages|
  {
    if pages != [] {
      var init, last := pages[..|pages| - 1], pages[|pages| - 1];
      assert pages == init + [last];
      HtmlBlockTags(|init| + 1, last);
      if init == [] {
        assert HtmlBlocks(pages) == [HtmlBlock(1, last)];
      } else {
        HtmlAppend(init, last);
        HtmlBodyTags(init);
        var body := Join(HtmlBlocks(init), "\n");
        OccurrencesConcat(body, "\n", '<');
        OccurrencesConcat(body + "\n", HtmlBlock(|init| + 1, last), '<');
      }
    }
  }

  /**
   * The HTML export opens 10 tags of its own plus exactly 4 per page: the
   * page texts cannot add a tag, whatever they hold.
   */
  lemma HtmlTagCount(pages: seq<string>)
    ensures Occurrences(HtmlExport(pages), '<') == 10 + 4 * |pages|
  {
    var body := Join(HtmlBlocks(pages), "\n");
    HtmlBodyTags(pages);
    OccurrencesConcat(HtmlPrefix, body, '<');
    OccurrencesConcat(HtmlPrefix + body, HtmlSuffix, '<');
    PrefixAndSuffixTags();
  }

  /** Text that opens exactly one tag, at its start. */
  predicate OpensOneTag(t: string) {
    t != [] && t[0] == '<' && '<' !in t[1..]
  }

  lemma OneTag(t: string)
    requires OpensOneTag(t)
    ensures Occurrences(t, '<') == 1
  {
    OccurrencesPositive(t[1..], '<');
  }

  lemma {:induction false} TagsCount(pieces: seq<string>)
    requires forall i :: 0 <= i < |pieces| ==> OpensOneTag(pieces[i])
    ensures Occurrences(Flatten(pieces), '<') == |pieces|
  {
    if pieces != [] {
      OneTag(pieces[0]);
      TagsCount(pieces[1..]);
      OccurrencesConcat(pieces[0], Flatten(pieces[1..]), '<');
    }
  }

  lemma PrefixAndSuffixTags()
    ensures Occurrences(HtmlPrefix, '<') == 8 && Occurrences(HtmlSuffix, '<') == 2
  {
    PrefixTagsOpenOne();
    SuffixTagsOpenOne();
    TagsCount(HtmlPrefixTags);
    TagsCount(HtmlSuffixTags);
  }

  lemma PrefixTagsOpenOne()
    ensures forall i :: 0 <= i < |HtmlPrefixTags| ==> OpensOneTag(HtmlPrefixTags[i])
  {
    DoctypeTagsOpenOne();
    MetaTagsOpenOne();
    TitleTagsOpenOne();
  }

  lemma DoctypeTagsOpenOne()
    ensures OpensOneTag(HtmlPrefixTags[0]) && OpensOneTag(HtmlPrefixTags[1])
  {
    assert OpensOneTag(HtmlPrefixTags[0]);
  }

  lemma MetaTagsOpenOne()
    ensures OpensOneTag(HtmlPrefixTags[2]) && OpensOneTag(HtmlPrefixTags[3])
  {
    assert OpensOneTag(HtmlPrefixTags[3]);
  }

  lemma TitleTagsOpenOne()
    ensures forall i :: 4 <= i < 8 ==> OpensOneTag(HtmlPrefixTags[i])
  {
    assert OpensOneTag(HtmlPrefixTags[4]);
    assert OpensOneTag(HtmlPrefixTags[5]);
    assert OpensOneTag(HtmlPrefixTags[6]);
    assert OpensOneTag(HtmlPrefixTags[7]);
  }

  lemma SuffixTagsOpenOne()
    ensures forall i :: 0 <= i < |HtmlSuffixTags| ==> OpensOneTag(HtmlSuffixTags[i])
  {
    assert OpensOneTag(HtmlSuffixTags[0]);
    assert OpensOneTag(HtmlSuffixTags[1]);
  }
}
