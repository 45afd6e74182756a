/**
 * The page-range parser of js/app.js (`parsePageRange`): user text such as
 * "1-3,5,9-10" becomes the 0-based page indices it names, in the order they
 * are written, repeats kept, malformed segments skipped.
 *
 * `ParsePageRange` is the parser as the source writes it (an accumulator
 * filled segment by segment, an inner counting loop, a final filter);
 * `PageIndices` is the same parse as a function of the text, and the lemmas
 * state what it promises.
 */
module PageRange {
  import opened JsBuiltins

  /** The values `i - 1` for i from `start` up to `end`, ascending; nothing when start > end. */
  function Run(start: int, end: int): (r: seq<int>)
    ensures |r| == if start <= end then end - start + 1 else 0
    ensures forall k :: 0 <= k < |r| ==> r[k] == start - 1 + k
    decreases end - start
  {
    if start > end then [] else Run(start, end - 1) + [end - 1]
  }

  /**
   * What one comma-separated segment contributes before the final filter.
   * A segment with a dash is split on every dash and only its first two
   * pieces are read; either piece reading as NaN skips the segment.
   */
  function SegmentPages(part: string): (r: seq<int>)
  {
    if Trim(part) == "" then []
    else if '-' in part then
      var start := ParseInt(Trim(DashSides(part).0));
      var end := ParseInt(Trim(DashSides(part).1));
      if start.None? || end.None? then []
      else
        Run(start.value, end.value)
    else
      var page := ParseInt(Trim(part));
      if page.None? then []
      else
        [page.value - 1]
  }

  /** The first two pieces of `part.split('-')`; a segment with a dash has at least two. */
  function DashSides(part: string): (string, string)
    requires '-' in part
  {
    var pieces := Split(part, '-');
    OccurrencesPositive(part, '-');
    (pieces[0], pieces[1])
  }

  /** The values every segment contributes, concatenated in textual order. */
  function Emitted(parts: seq<string>): (r: seq<int>)
  {
    if parts == [] then [] else SegmentPages(parts[0]) + Emitted(parts[1..])
  }

  /** `filter(p => p >= 0)`. */
  function NonNegative(s: seq<int>): (r: seq<int>)
    ensures forall k :: 0 <= k < |r| ==> r[k] >= 0
    ensures |r| <= |s|
    ensures forall x :: x >= 0 ==> multiset(r)[x] == multiset(s)[x]
  {
    if s == [] then []
    else
      assert s == [s[0]] + s[1..];
      (if s[0] >= 0 then [s[0]] else []) + NonNegative(s[1..])
  }

  /** The page indices a page-range text names. */
  function PageIndices(range: string): (r: seq<int>)
    ensures forall k :: 0 <= k < |r| ==> r[k] >= 0
  {
    NonNegative(Emitted(Split(range, ',')))
  }

  /** The parser as written: a `pages` accumulator filled segment by segment, then the filter. */
  method ParsePageRange(range: string) returns (pages: seq<int>)
    ensures pages == PageIndices(range)
  {
    var emitted: seq<int> := [];
    var parts := Split(range, ',');
    var k := 0;
    while k < |parts|
      invariant 0 <= k <= |parts|
      invariant emitted == Emitted(parts[..k])
    {
      emitted := PushSegment(emitted, parts[k]);
      EmittedAppend(parts[..k], parts[k]);
      TakeOneMore(parts, k);
      k := k + 1;
    }
    assert parts[..k] == parts;
    pages := NonNegative(emitted);
  }

  /** The body of the per-segment callback: push what one segment names. */
  method PushSegment(pages: seq<int>, part: string) returns (pages': seq<int>)
    ensures pages' == pages + SegmentPages(part)
  {
    pages' := pages;
    if Trim(part) == "" {
      SegmentBlank(part);
      AppendEmpty(pages);
      return;
    }
    if '-' in part {
      var pieces := Split(part, '-');
      OccurrencesPositive(part, '-');
      var start := ParseInt(Trim(pieces[0]));
      var end := ParseInt(Trim(pieces[1]));
      if start.None? || end.None? {
        SegmentBadRange(part);
        AppendEmpty(pages);
        return;
      }
      pages' := PushRun(pages, start.value, end.value);
      SegmentRange(part, start.value, end.value);
    } else {
      var page := ParseInt(Trim(part));
      if page.None? {
        SegmentBadSingle(part);
        AppendEmpty(pages);
      } else {
        pages' := pages' + [page.value - 1];
        SegmentSingle(part, page.value);
      }
    }
  }

  /** The `for` loop of a range segment: push i - 1 for i from start to end. */
  method PushRun(pages: seq<int>, start: int, end: int) returns (pages': seq<int>)
    ensures pages' == pages + Run(start, end)
  {
    pages' := pages;
    var i := start;
    while i <= end
      invariant start <= i
      invariant start <= end ==> i <= end + 1
      invariant start > end ==> i == start
      invariant pages' == pages + Run(start, i - 1)
      decreases end - i
    {
      pages' := pages' + [i - 1];
      i := i + 1;
    }
    assert Run(start, i - 1) == Run(start, end);
  }

  // ---------------------------------------------------------------------
  // One segment, case by case
  // ---------------------------------------------------------------------

  lemma SegmentBlank(part: string)
    requires Trim(part) == ""
    ensures SegmentPages(part) == []
  {
  }

  lemma SegmentBadRange(part: string)
    requires Trim(part) != "" && '-' in part
    requires ParseInt(Trim(DashSides(part).0)).None? || ParseInt(Trim(DashSides(part).1)).None?
    ensures SegmentPages(part) == []
  {
  }

  lemma SegmentRange(part: string, a: int, b: int)
    requires Trim(part) != "" && '-' in part
    requires ParseInt(Trim(DashSides(part).0)) == Some(a)
    requires ParseInt(Trim(DashSides(part).1)) == Some(b)
    ensures SegmentPages(part) == Run(a, b)
  {
  }

  lemma SegmentBadSingle(part: string)
    requires Trim(part) != "" && '-' !in part
    requires ParseInt(Trim(part)).None?
    ensures SegmentPages(part) == []
  {
  }

  lemma SegmentSingle(part: string, v: int)
    requires Trim(part) != "" && '-' !in part
    requires ParseInt(Trim(part)) == Some(v)
    ensures SegmentPages(part) == [v - 1]
  {
  }

  // ---------------------------------------------------------------------
  // Structure of Emitted and NonNegative
  // ---------------------------------------------------------------------

  lemma {:induction false} EmittedConcat(a: seq<string>, b: seq<string>)
    ensures Emitted(a + b) == Emitted(a) + Emitted(b)
  {
    if a == [] {
      assert a + b == b;
    } else {
      assert (a + b)[0] == a[0];
      assert (a + b)[1..] == a[1..] + b;
      EmittedConcat(a[1..], b);
    }
  }

  lemma EmittedAppend(a: seq<string>, part: string)
    ensures Emitted(a + [part]) == Emitted(a) + SegmentPages(part)
  {
    EmittedConcat(a, [part]);
    EmittedSingle(part);
  }

  lemma EmittedSingle(part: string)
    ensures Emitted([part]) == SegmentPages(part)
  {
    assert Emitted([part]) == SegmentPages(part) + Emitted([]);
    AppendEmpty(SegmentPages(part));
  }

  lemma TakeOneMore<T>(s: seq<T>, k: int)
    requires 0 <= k < |s|
    ensures s[..k + 1] == s[..k] + [s[k]]
  {
  }

  lemma AppendEmpty<T>(s: seq<T>)
    ensures s + [] == s
  {
  }

  lemma {:induction false} NonNegativeConcat(a: seq<int>, b: seq<int>)
    ensures NonNegative(a + b) == NonNegative(a) + NonNegative(b)
  {
    if a == [] {
      assert a + b == b;
    } else {
      assert (a + b)[0] == a[0];
      assert (a + b)[1..] == a[1..] + b;
      NonNegativeConcat(a[1..], b);
    }
  }

  lemma {:induction false} NonNegativeKeeps(s: seq<int>)
    requires forall k :: 0 <= k < |s| ==> s[k] >= 0
    ensures NonNegative(s) == s
  {
    if s != [] {
      NonNegativeKeeps(s[1..]);
    }
  }

  // ---------------------------------------------------------------------
  // What the parser promises
  // ---------------------------------------------------------------------

  /**
   * The result is the concatenation of each segment's pages in textual
   * order: nothing is sorted or merged.
   */
  lemma PageIndicesConcat(a: string, b: string)
    ensures PageIndices(a + "," + b) == PageIndices(a) + PageIndices(b)
  {
    assert a + "," + b == a + [','] + b;
    SplitConcat(a, b, ',');
    EmittedConcat(Split(a, ','), Split(b, ','));
    NonNegativeConcat(Emitted(Split(a, ',')), Emitted(Split(b, ',')));
  }

  /** A text without commas is one segment. */
  lemma OneSegment(s: string)
    requires ',' !in s
    ensures PageIndices(s) == NonNegative(SegmentPages(s))
  {
    SplitWithoutSeparator(s, ',');
    EmittedSingle(s);
  }

  /** A blank segment contributes nothing. */
  lemma BlankSegment(s: string)
    requires AllWhiteSpace(s)
    ensures SegmentPages(s) == []
  {
    TrimSpec(s);
    SegmentBlank(s);
  }

  lemma NoDash(s: string)
    requires AllDigits(s)
    ensures '-' !in s && ',' !in s
  {
    forall i | 0 <= i < |s| ensures s[i] != '-' && s[i] != ',' {
      assert IsDigit(s[i]);
    }
  }

  lemma NonNegativeSingle(x: int)
    ensures NonNegative([x]) == if x >= 0 then [x] else []
  {
    assert [x][1..] == [];
    AppendEmpty(if x >= 0 then [x] else []);
  }

  /** A segment holding the numeral n names n - 1 before the filter. */
  lemma NumeralSegment(n: nat)
    ensures SegmentPages(NatToString(n)) == [n - 1]
  {
    var s := NatToString(n);
    NoDash(s);
    TrimOfNatToString(n);
    ParseIntOfNatString(n);
    TrimNonBlank(s, 0);
    SegmentSingle(s, n);
  }

  /** A single page number n names page n - 1; page 0 names nothing. */
  lemma SinglePage(n: nat)
    ensures PageIndices(NatToString(n)) == if n >= 1 then [n - 1] else []
  {
    NoDash(NatToString(n));
    OneSegment(NatToString(n));
    NumeralSegment(n);
    NonNegativeSingle(n - 1);
  }

  /** The sides of "x-y" when neither side has a dash. */
  lemma DashSidesOfPair(x: string, y: string)
    requires '-' !in x && '-' !in y
    ensures '-' in x + ['-'] + y
    ensures DashSides(x + ['-'] + y) == (x, y)
  {
    assert (x + ['-'] + y)[|x|] == '-';
    SplitConcat(x, y, '-');
    SplitWithoutSeparator(x, '-');
    SplitWithoutSeparator(y, '-');
  }

  /** The sides of "x-y-z" when x and y have no dash: z is never read. */
  lemma DashSidesOfTriple(x: string, y: string, z: string)
    requires '-' !in x && '-' !in y
    ensures '-' in x + ['-'] + (y + ['-'] + z)
    ensures DashSides(x + ['-'] + (y + ['-'] + z)) == (x, y)
  {
    assert (x + ['-'] + (y + ['-'] + z))[|x|] == '-';
    SplitConcat(x, y + ['-'] + z, '-');
    SplitConcat(y, z, '-');
    SplitWithoutSeparator(x, '-');
    SplitWithoutSeparator(y, '-');
  }

  /** A segment whose dash-separated pieces are page numbers a and b. */
  lemma RangeSegment(a: nat, b: nat)
    ensures SegmentPages(NatToString(a) + "-" + NatToString(b)) == Run(a, b)
  {
    var sa, sb := NatToString(a), NatToString(b);
    var part := sa + "-" + sb;
    assert part == sa + ['-'] + sb;
    NoDash(sa);
    NoDash(sb);
    DashSidesOfPair(sa, sb);
    TrimNonBlank(part, |sa|);
    TrimOfNatToString(a);
    TrimOfNatToString(b);
    ParseIntOfNatString(a);
    ParseIntOfNatString(b);
    SegmentRange(part, a, b);
  }

  lemma RunNonNegative(a: int, b: int)
    requires a >= 1
    ensures NonNegative(Run(a, b)) == Run(a, b)
  {
    NonNegativeKeeps(Run(a, b));
  }

  /**
   * "a-b" with 1 <= a <= b names the consecutive pages a-1 .. b-1, that is
   * b - a + 1 of them; a reversed range names nothing.
   */
  lemma RangePages(a: nat, b: nat)
    requires a >= 1
    ensures PageIndices(NatToString(a) + "-" + NatToString(b)) == Run(a, b)
    ensures a <= b ==> |Run(a, b)| == b - a + 1
    ensures a <= b ==> forall k :: 0 <= k < b - a + 1 ==> Run(a, b)[k] == a - 1 + k
    ensures a > b ==> Run(a, b) == []
  {
    var s := NatToString(a) + "-" + NatToString(b);
    NoDash(NatToString(a));
    NoDash(NatToString(b));
    assert ',' !in s by {
      assert s == NatToString(a) + ['-'] + NatToString(b);
    }
    OneSegment(s);
    RangeSegment(a, b);
    RunNonNegative(a, b);
  }

  /** Pieces after the second in a segment with several dashes are ignored. */
  lemma ExtraDashesIgnored(x: string, y: string, z: string)
    requires '-' !in x && '-' !in y
    ensures SegmentPages(x + "-" + y + "-" + z) == SegmentPages(x + "-" + y)
  {
    var long, short := x + "-" + y + "-" + z, x + "-" + y;
    assert long == x + ['-'] + (y + ['-'] + z);
    assert short == x + ['-'] + y;
    DashSidesOfTriple(x, y, z);
    DashSidesOfPair(x, y);
    TrimNonBlank(long, |x|);
    TrimNonBlank(short, |x|);
  }

  /** Neither side of a dashed segment holds a dash. */
  lemma DashSidesFree(part: string)
    requires '-' in part
    ensures '-' !in DashSides(part).0 && '-' !in DashSides(part).1
  {
    OccurrencesPositive(part, '-');
    SplitPiecesFree(part, '-');
  }

  /** A piece without a minus sign never reads as a negative number. */
  lemma UnsignedPiece(piece: string)
    requires '-' !in piece
    ensures ParseInt(Trim(piece)).Some? ==> ParseInt(Trim(piece)).value >= 0
  {
    TrimKeepsOut(piece, '-');
    ParseIntWithoutMinus(Trim(piece));
  }

  /** A segment contributes nothing below -1: -1 comes only from page 0. */
  lemma SegmentAtLeastMinusOne(part: string)
    ensures forall k :: 0 <= k < |SegmentPages(part)| ==> SegmentPages(part)[k] >= -1
  {
    if Trim(part) != "" {
      if '-' in part {
        DashSidesFree(part);
        UnsignedPiece(DashSides(part).0);
      } else {
        UnsignedPiece(part);
      }
    }
  }

  lemma {:induction false} EmittedAtLeastMinusOne(parts: seq<string>)
    ensures forall k :: 0 <= k < |Emitted(parts)| ==> Emitted(parts)[k] >= -1
  {
    if parts != [] {
      var a, b := SegmentPages(parts[0]), Emitted(parts[1..]);
      SegmentAtLeastMinusOne(parts[0]);
      EmittedAtLeastMinusOne(parts[1..]);
      AtLeastMinusOneConcat(a, b);
    }
  }

  lemma AtLeastMinusOneConcat(a: seq<int>, b: seq<int>)
    requires forall k :: 0 <= k < |a| ==> a[k] >= -1
    requires forall k :: 0 <= k < |b| ==> b[k] >= -1
    ensures forall k :: 0 <= k < |a + b| ==> (a + b)[k] >= -1
  {
    forall k | 0 <= k < |a + b| ensures (a + b)[k] >= -1 {
      if k >= |a| {
        assert (a + b)[k] == b[k - |a|];
      }
    }
  }

  /** Before the filter only -1 (from page 0) can be negative: the filter removes exactly those. */
  lemma FilterOnlyDropsPageZero(range: string)
    ensures forall k :: 0 <= k < |Emitted(Split(range, ','))| ==> Emitted(Split(range, ','))[k] >= -1
    ensures |PageIndices(range)| == |Emitted(Split(range, ','))| - multiset(Emitted(Split(range, ',')))[-1]
  {
    EmittedAtLeastMinusOne(Split(range, ','));
    NonNegativeLength(Emitted(Split(range, ',')));
  }

  lemma {:induction false} NonNegativeLength(s: seq<int>)
    requires forall k :: 0 <= k < |s| ==> s[k] >= -1
    ensures |NonNegative(s)| == |s| - multiset(s)[-1]
  {
    if s != [] {
      assert s == [s[0]] + s[1..];
      NonNegativeLength(s[1..]);
    }
  }

  // ---------------------------------------------------------------------
  // Examples
  // ---------------------------------------------------------------------

  /** Three segments in a row: their pages, in order. */
  lemma PageIndicesThree(x: string, a: string, b: string, c: string)
    requires x == a + "," + (b + "," + c)
    ensures PageIndices(x) == PageIndices(a) + (PageIndices(b) + PageIndices(c))
  {
    PageIndicesConcat(a, b + "," + c);
    PageIndicesConcat(b, c);
  }

  lemma NumeralRange(s: string, a: nat, b: nat)
    requires a >= 1 && s == NatToString(a) + "-" + NatToString(b)
    ensures PageIndices(s) == Run(a, b)
  {
    RangePages(a, b);
  }

  lemma NumeralPage(s: string, n: nat)
    requires s == NatToString(n)
    ensures PageIndices(s) == if n >= 1 then [n - 1] else []
  {
    SinglePage(n);
  }

  /** "1-3,5,9-10" names pages 0, 1, 2, 4, 8 and 9. */
  lemma ExampleRanges()
    ensures PageIndices("1-3,5,9-10") == [0, 1, 2, 4, 8, 9]
  {
    ExampleRangesSplit();
    RangeOneToThree();
    PageFive();
    RangeNineToTen();
    ExampleRangesJoin(PageIndices("1-3,5,9-10"), PageIndices("1-3"), PageIndices("5"), PageIndices("9-10"));
  }

  lemma RangeOneToThree()
    ensures PageIndices("1-3") == Run(1, 3)
  {
    NumeralRange("1-3", 1, 3);
  }

  lemma RangeNineToTen()
    ensures PageIndices("9-10") == Run(9, 10)
  {
    NumeralRange("9-10", 9, 10);
  }

  lemma PageFive()
    ensures PageIndices("5") == [4]
  {
    NumeralPage("5", 5);
  }

  lemma ExampleRangesSplit()
    ensures PageIndices("1-3,5,9-10") == PageIndices("1-3") + (PageIndices("5") + PageIndices("9-10"))
  {
    assert "1-3,5,9-10" == "1-3" + "," + ("5" + "," + "9-10");
    PageIndicesThree("1-3,5,9-10", "1-3", "5", "9-10");
  }

  lemma ExampleRangesJoin(x: seq<int>, a: seq<int>, b: seq<int>, c: seq<int>)
    requires x == a + (b + c) && a == Run(1, 3) && b == [4] && c == Run(9, 10)
    ensures x == [0, 1, 2, 4, 8, 9]
  {
  }

  /** "3,1,2" names pages 2, 0, 1: the order written is kept. */
  lemma ExampleOrderKept()
    ensures PageIndices("3,1,2") == [2, 0, 1]
  {
    ExampleOrderKeptSplit();
    PageThree();
    PageOne();
    PageTwo();
    ExampleOrderKeptJoin(PageIndices("3,1,2"), PageIndices("3"), PageIndices("1"), PageIndices("2"));
  }

  lemma PageThree()
    ensures PageIndices("3") == [2]
  {
    NumeralPage("3", 3);
  }

  lemma PageOne()
    ensures PageIndices("1") == [0]
  {
    NumeralPage("1", 1);
  }

  lemma ExampleOrderKeptSplit()
    ensures PageIndices("3,1,2") == PageIndices("3") + (PageIndices("1") + PageIndices("2"))
  {
    assert "3" + "," + ("1" + "," + "2") == "3,1,2";
    PageIndicesThree("3,1,2", "3", "1", "2");
  }

  lemma ExampleOrderKeptJoin(x: seq<int>, a: seq<int>, b: seq<int>, c: seq<int>)
    requires x == a + (b + c) && a == [2] && b == [0] && c == [1]
    ensures x == [2, 0, 1]
  {
  }

  /** "2-2" names the one page 1. */
  lemma ExampleSingletonRange()
    ensures PageIndices("2-2") == [1]
  {
    assert "2-2" == NatToString(2) + "-" + NatToString(2);
    NumeralRange("2-2", 2, 2);
  }

  /** A reversed range such as "5-3" names nothing. */
  lemma ExampleReversedRange()
    ensures PageIndices("5-3") == []
  {
    assert "5-3" == NatToString(5) + "-" + NatToString(3);
    NumeralRange("5-3", 5, 3);
  }

  /** Whitespace around numbers and blank segments are ignored: " 3 , , 5-6" names 2, 4, 5. */
  lemma ExampleBlanks()
    ensures PageIndices(" 3 , , 5-6") == [2, 4, 5]
  {
    ExampleBlanksSplit();
    PaddedThree();
    BlankOnly();
    PaddedFiveToSix();
    ExampleBlanksJoin(PageIndices(" 3 , , 5-6"), PageIndices(" 3 "), PageIndices(" "), PageIndices(" 5-6"));
  }

  lemma ExampleBlanksSplit()
    ensures PageIndices(" 3 , , 5-6") == PageIndices(" 3 ") + (PageIndices(" ") + PageIndices(" 5-6"))
  {
    assert " 3 , , 5-6" == " 3 " + "," + (" " + "," + " 5-6");
    PageIndicesThree(" 3 , , 5-6", " 3 ", " ", " 5-6");
  }

  lemma ExampleBlanksJoin(x: seq<int>, a: seq<int>, b: seq<int>, c: seq<int>)
    requires x == a + (b + c) && a == [2] && b == [] && c == Run(5, 6)
    ensures x == [2, 4, 5]
  {
  }

  lemma PaddedThree()
    ensures PageIndices(" 3 ") == [2]
  {
    OneSegment(" 3 ");
    PaddedThreeSegment();
    NonNegativeSingle(2);
  }

  lemma PaddedThreeSegment()
    ensures SegmentPages(" 3 ") == [2]
  {
    TrimPadded(" ", "3", " ");
    assert " " + "3" + " " == " 3 ";
    NumeralString("3", 3);
    SegmentSingle(" 3 ", 3);
  }

  lemma BlankOnly()
    ensures PageIndices(" ") == []
  {
    OneSegment(" ");
    BlankSegment(" ");
  }

  lemma PaddedFiveToSix()
    ensures PageIndices(" 5-6") == Run(5, 6)
  {
    OneSegment(" 5-6");
    PaddedFiveToSixSegment();
    RunNonNegative(5, 6);
  }

  lemma PaddedFiveToSixSegment()
    ensures SegmentPages(" 5-6") == Run(5, 6)
  {
    PaddedFiveToSixSides();
    TrimNonBlank(" 5-6", 1);
    PaddedFive();
    NumeralString("6", 6);
    SegmentRange(" 5-6", 5, 6);
  }

  lemma PaddedFiveToSixSides()
    ensures '-' in " 5-6" && DashSides(" 5-6") == (" 5", "6")
  {
    assert " 5-6" == " 5" + ['-'] + "6";
    DashSidesOfPair(" 5", "6");
  }

  lemma PaddedFive()
    ensures ParseInt(Trim(" 5")) == Some(5)
  {
    TrimPadded(" ", "5", "");
    assert " " + "5" + "" == " 5";
    NumeralString("5", 5);
  }

  /** A numeral trims to itself and reads as its value. */
  lemma NumeralString(s: string, n: nat)
    requires s == NatToString(n)
    ensures Trim(s) == s && ParseInt(s) == Some(n)
  {
    TrimOfNatToString(n);
    ParseIntOfNatString(n);
  }

  /** A range whose end does not read as a number is skipped, whatever its start. */
  lemma UnreadableEnd(x: string, y: string)
    requires '-' !in x && '-' !in y
    requires ParseInt(Trim(y)).None?
    ensures SegmentPages(x + ['-'] + y) == []
  {
    DashSidesOfPair(x, y);
    var part := x + ['-'] + y;
    if Trim(part) != "" {
      SegmentBadRange(part);
    }
  }

  /** "1-" and "1-x" name nothing: the missing or non-numeric end is NaN. */
  lemma ExampleUnreadableEnd()
    ensures PageIndices("1-") == [] && PageIndices("1-x") == []
  {
    MissingEnd();
    NonNumericEnd();
  }

  lemma MissingEnd()
    ensures PageIndices("1-") == []
  {
    assert "1-" == "1" + ['-'] + "";
    UnreadableEnd("1", "");
    OneSegment("1-");
  }

  lemma NonNumericEnd()
    ensures PageIndices("1-x") == []
  {
    assert "1-x" == "1" + ['-'] + "x";
    TrimPadded("", "x", "");
    assert "" + "x" + "" == "x";
    UnreadableEnd("1", "x");
    OneSegment("1-x");
  }

  /** "-5" names nothing: its empty left side reads as NaN, before the filter is reached. */
  lemma ExampleNegative()
    ensures SegmentPages("-5") == []
    ensures PageIndices("-5") == []
  {
    assert "-5" == "" + ['-'] + "5";
    assert ParseInt(Trim("")) == None;
    UnreadableStart("", "5");
    OneSegment("-5");
  }

  /** A range whose start does not read as a number is skipped, whatever its end. */
  lemma UnreadableStart(x: string, y: string)
    requires '-' !in x && '-' !in y
    requires ParseInt(Trim(x)).None?
    ensures SegmentPages(x + ['-'] + y) == []
  {
    DashSidesOfPair(x, y);
    var part := x + ['-'] + y;
    if Trim(part) != "" {
      SegmentBadRange(part);
    }
  }

  /** A segment that is not a number is skipped; page 0 and empty text name nothing. */
  lemma ExampleNonNumeric()
    ensures PageIndices("abc,2") == [1]
    ensures PageIndices("0") == []
    ensures PageIndices("") == []
  {
    NonNumericSplit();
    NotANumber();
    PageTwo();
    PageZero();
    EmptyText();
  }

  lemma NonNumericSplit()
    ensures PageIndices("abc,2") == PageIndices("abc") + PageIndices("2")
  {
    assert "abc" + "," + "2" == "abc,2";
    PageIndicesConcat("abc", "2");
  }

  lemma PageTwo()
    ensures PageIndices("2") == [1]
  {
    NumeralPage("2", 2);
  }

  lemma PageZero()
    ensures PageIndices("0") == []
  {
    NumeralPage("0", 0);
  }

  lemma EmptyText()
    ensures PageIndices("") == []
  {
    OneSegment("");
    BlankSegment("");
  }

  lemma NotANumber()
    ensures PageIndices("abc") == []
  {
    OneSegment("abc");
    NotANumberSegment();
  }

  lemma NotANumberSegment()
    ensures SegmentPages("abc") == []
  {
    TrimPadded("", "abc", "");
    assert "" + "abc" + "" == "abc";
    assert ParseInt("abc") == None;
    SegmentBadSingle("abc");
  }

  // ---------------------------------------------------------------------
  // The callers' guard (split and reorder)
  // ---------------------------------------------------------------------

  datatype SelectionError = EmptyInput | NoValidPages

  datatype Selection = Selected(pages: seq<int>) | Rejected(error: SelectionError)

  /**
   * What split and reorder do with the text field: blank text is one error,
   * a text naming no page another; otherwise its pages are used.
   */
  function SelectPages(text: string): (r: Selection)
    ensures r == Rejected(EmptyInput) <==> Trim(text) == ""
    ensures r == Rejected(NoValidPages) <==> Trim(text) != "" && PageIndices(Trim(text)) == []
    ensures r.Selected? <==> Trim(text) != "" && PageIndices(Trim(text)) != []
    ensures r.Selected? ==> r.pages == PageIndices(Trim(text))
    ensures r.Selected? ==> r.pages != [] && forall k :: 0 <= k < |r.pages| ==> r.pages[k] >= 0
  {
    var trimmed := Trim(text);
    if trimmed == "" then Rejected(EmptyInput)
    else
      var pages := PageIndices(trimmed);
      if pages == [] then Rejected(NoValidPages) else Selected(pages)
  }
}
