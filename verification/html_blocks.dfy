/**
 * The line classification both Markdown converters apply to the HTML that
 * markdown2 produces, split on '\n'. Each scanner strips a line, decides by
 * fixed prefixes and suffixes what it starts, and for code blocks,
 * blockquotes and lists scans forward to the closing line. This module
 * models that shared part as a parse into an ordered sequence of blocks; the
 * PDF and DOCX renderers differ only in what they emit for each block.
 */
module HtmlBlocks {
  import opened Text

  const CodeOpener := "<pre><code>"
  const CodeCloser := "</code></pre>"
  const QuoteOpener := "<blockquote>"
  const QuoteCloser := "</blockquote>"
  const ItemOpener := "<li>"

  /** A heading level the scanners recognise: `<h1>` to `<h3>`. */
  type Level = k: nat | 1 <= k <= 3 witness 1

  /** What a stripped line starts, in the order the scanners test it. */
  datatype LineKind =
    | Blank
    | HeadingLine(level: Level)
    | CodeOpen
    | QuoteOpen
    | ListOpen
    | ParaLine
    | Other

  predicate IsHeading(line: string, level: Level) {
    var d := Digit(level);
    StartsWith(line, "<h" + [d] + ">") && EndsWith(line, "</h" + [d] + ">")
  }

  function Kind(line: string): LineKind {
    if line == "" then Blank
    else if IsHeading(line, 1) then HeadingLine(1)
    else if IsHeading(line, 2) then HeadingLine(2)
    else if IsHeading(line, 3) then HeadingLine(3)
    else if StartsWith(line, CodeOpener) then CodeOpen
    else if StartsWith(line, QuoteOpener) then QuoteOpen
    else if StartsWith(line, "<ul>") || StartsWith(line, "<ol>") then ListOpen
    else if StartsWith(line, "<p>") && EndsWith(line, "</p>") then ParaLine
    else Other
  }

  /**
   * The first test that holds decides: a line is blank only when empty, a
   * recognised kind starts (and for headings and paragraphs ends) with its
   * markers, and an unrecognised line starts with none of the openers.
   */
  lemma KindMarkers(line: string)
    ensures Kind(line) == Blank <==> line == ""
    ensures Kind(line).HeadingLine? ==> IsHeading(line, Kind(line).level)
    ensures Kind(line) == CodeOpen ==> StartsWith(line, CodeOpener)
    ensures Kind(line) == QuoteOpen ==> StartsWith(line, QuoteOpener)
    ensures Kind(line) == ListOpen ==> StartsWith(line, "<ul>") || StartsWith(line, "<ol>")
    ensures Kind(line) == ParaLine ==> StartsWith(line, "<p>") && EndsWith(line, "</p>")
    ensures Kind(line) == Other ==> && !StartsWith(line, CodeOpener) && !StartsWith(line, QuoteOpener)
                                    && !StartsWith(line, "<ul>") && !StartsWith(line, "<ol>")
                                    && !(StartsWith(line, "<p>") && EndsWith(line, "</p>"))
  {
  }

  /** The line that ends a multi-line construct. */
  datatype Closer = CodeEnd | QuoteEnd | ListEnd

  predicate Closes(c: Closer, line: string) {
    match c
    case CodeEnd => EndsWith(Strip(line), CodeCloser)
    case QuoteEnd => EndsWith(Strip(line), QuoteCloser)
    case ListEnd => Strip(line) == "</ul>" || Strip(line) == "</ol>"
  }

  /** `k` is where the forward scan from `from` stops: the first closing line, or the end of the input. */
  predicate IsFirstCloser(lines: seq<string>, from: nat, k: nat, c: Closer) {
    && from <= k <= |lines|
    && (k < |lines| ==> Closes(c, lines[k]))
    && (forall j :: from <= j < k ==> !Closes(c, lines[j]))
  }

  /** The inner `while i < len(lines) and not <closing line>: i += 1` loop. */
  function FindCloser(lines: seq<string>, from: nat, c: Closer): (k: nat)
    requires from <= |lines|
    ensures IsFirstCloser(lines, from, k, c)
    decreases |lines| - from
  {
    if from == |lines| || Closes(c, lines[from]) then from else FindCloser(lines, from + 1, c)
  }

  /** The stopping point of the forward scan is determined by the lines alone. */
  lemma FirstCloserUnique(lines: seq<string>, from: nat, k: nat, c: Closer)
    requires IsFirstCloser(lines, from, k, c)
    ensures FindCloser(lines, from, c) == k
  {
  }

  /** Where scanning resumes after a construct closed at `k` (or left open to the end). */
  function After(lines: seq<string>, k: nat): nat
    requires k <= |lines|
  {
    if k < |lines| then k + 1 else |lines|
  }

  /**
   * The lines of a multi-line code block or blockquote opened at `i` and closed
   * at `k`: the first line stripped and without its opener, the lines in
   * between as they are, and the closing line, if there is one, without its closer.
   */
  function Gather(lines: seq<string>, i: nat, k: nat, opener: string, closer: string): (g: seq<string>)
    requires i < k <= |lines|
    ensures |g| == (if k < |lines| then k - i + 1 else k - i)
  {
    [RemoveAll(Strip(lines[i]), opener)] + lines[i + 1..k] + (if k < |lines| then [RemoveAll(lines[k], closer)] else [])
  }

  /** The stripped `<li>` lines among `ls`, in order. */
  function ItemLines(ls: seq<string>): (items: seq<string>)
    ensures |items| <= |ls|
    ensures forall k :: 0 <= k < |items| ==> StartsWith(items[k], ItemOpener)
  {
    if |ls| == 0 then []
    else (if StartsWith(Strip(ls[0]), ItemOpener) then [Strip(ls[0])] else []) + ItemLines(ls[1..])
  }

  /** Picking the `<li>` lines of two stretches of lines one after the other is picking them from the whole. */
  lemma {:induction false} ItemLinesAppend(a: seq<string>, b: seq<string>)
    ensures ItemLines(a + b) == ItemLines(a) + ItemLines(b)
    decreases |a|
  {
    if |a| == 0 {
      assert a + b == b;
    } else {
      assert (a + b)[0] == a[0] && (a + b)[1..] == a[1..] + b;
      ItemLinesAppend(a[1..], b);
    }
  }

  /** One unit of the shared block model, in source order. */
  datatype Block =
    | BlankLine
    | Heading(level: Level, line: string)   // the stripped `<hN>...</hN>` line
    | Code(content: string)                 // raw text, markers removed, not tag-cleaned
    | Quote(content: string)                // text with markers removed, before tag cleaning
    | Items(items: seq<string>)             // the stripped `<li>` lines of one list
    | Para(line: string)                    // a stripped `<p>...</p>` line
    | Loose(line: string)                   // any other non-blank stripped line

  /** A kind of line that is a block on its own, without scanning forward. */
  predicate SingleLine(kind: LineKind) {
    !kind.CodeOpen? && !kind.QuoteOpen? && !kind.ListOpen?
  }

  /** The block a single stripped line forms on its own. */
  function LineBlock(line: string): (b: Block)
    requires SingleLine(Kind(line))
  {
    match Kind(line)
    case Blank => BlankLine
    case HeadingLine(level) => Heading(level, line)
    case ParaLine => Para(line)
    case Other => Loose(line)
  }

  /** The block starting at line `i`, and the index of the first line after it. */
  function Step(lines: seq<string>, i: nat): (r: (Block, nat))
    requires i < |lines|
    ensures i < r.1 <= |lines|
    ensures SingleLine(Kind(Strip(lines[i]))) ==> r == (LineBlock(Strip(lines[i])), i + 1)
  {
    var line := Strip(lines[i]);
    match Kind(line)
    case Blank | HeadingLine(_) | ParaLine | Other => (LineBlock(line), i + 1)
    case CodeOpen =>
      if EndsWith(line, CodeCloser) then (Code(RemoveAll(RemoveAll(line, CodeOpener), CodeCloser)), i + 1)
      else
        var k := FindCloser(lines, i + 1, CodeEnd);
        (Code(Join(Gather(lines, i, k, CodeOpener, CodeCloser), "\n")), After(lines, k))
    case QuoteOpen =>
      if EndsWith(line, QuoteCloser) then (Quote(RemoveAll(RemoveAll(line, QuoteOpener), QuoteCloser)), i + 1)
      else
        var k := FindCloser(lines, i + 1, QuoteEnd);
        (Quote(Join(Gather(lines, i, k, QuoteOpener, QuoteCloser), " ")), After(lines, k))
    case ListOpen =>
      var k := FindCloser(lines, i + 1, ListEnd);
      (Items(ItemLines(lines[i + 1..k])), After(lines, k))
  }

  /** The blocks of `lines[i..]`, in order. */
  function Parse(lines: seq<string>, i: nat): (bs: seq<Block>)
    ensures |bs| > 0 <==> i < |lines|
    ensures i <= |lines| ==> |bs| <= |lines| - i
    decreases |lines| - i
  {
    if i >= |lines| then []
    else
      var (b, next) := Step(lines, i);
      [b] + Parse(lines, next)
  }

  lemma ParseStep(lines: seq<string>, i: nat)
    requires i < |lines|
    ensures Parse(lines, i) == [Step(lines, i).0] + Parse(lines, Step(lines, i).1)
  {
  }

  // ---------------------------------------------------------------------------
  // The multi-line constructs, stated through their closing line
  // ---------------------------------------------------------------------------

  /**
   * A code block opened at `i` and not closed on the same line is one block
   * whose text is its lines joined by '\n', markers removed, up to and
   * including the first line that ends with `</code></pre>`; if no line does,
   * the block runs to the end of the input.
   */
  lemma StepCodeBlock(lines: seq<string>, i: nat, k: nat)
    requires i < |lines| && Kind(Strip(lines[i])) == CodeOpen && !EndsWith(Strip(lines[i]), CodeCloser)
    requires IsFirstCloser(lines, i + 1, k, CodeEnd)
    ensures Step(lines, i) == (Code(Join([RemoveAll(Strip(lines[i]), CodeOpener)] + lines[i + 1..k]
                                    + (if k < |lines| then [RemoveAll(lines[k], CodeCloser)] else []), "\n")),
                               if k < |lines| then k + 1 else |lines|)
  {
    FirstCloserUnique(lines, i + 1, k, CodeEnd);
  }

  /** A code block that is never closed takes every remaining line. */
  lemma StepCodeUnterminated(lines: seq<string>, i: nat)
    requires i < |lines| && Kind(Strip(lines[i])) == CodeOpen && !EndsWith(Strip(lines[i]), CodeCloser)
    requires forall j :: i < j < |lines| ==> !EndsWith(Strip(lines[j]), CodeCloser)
    ensures Step(lines, i) == (Code(Join([RemoveAll(Strip(lines[i]), CodeOpener)] + lines[i + 1..], "\n")), |lines|)
  {
    StepCodeBlock(lines, i, |lines|);
    assert [RemoveAll(Strip(lines[i]), CodeOpener)] + lines[i + 1..|lines|] + []
        == [RemoveAll(Strip(lines[i]), CodeOpener)] + lines[i + 1..];
  }

  /** A blockquote opened at `i` and not closed on the same line joins its lines with ' ', like a code block. */
  lemma StepQuoteBlock(lines: seq<string>, i: nat, k: nat)
    requires i < |lines| && Kind(Strip(lines[i])) == QuoteOpen && !EndsWith(Strip(lines[i]), QuoteCloser)
    requires IsFirstCloser(lines, i + 1, k, QuoteEnd)
    ensures Step(lines, i) == (Quote(Join([RemoveAll(Strip(lines[i]), QuoteOpener)] + lines[i + 1..k]
                                     + (if k < |lines| then [RemoveAll(lines[k], QuoteCloser)] else []), " ")),
                               if k < |lines| then k + 1 else |lines|)
  {
    FirstCloserUnique(lines, i + 1, k, QuoteEnd);
  }

  /**
   * A list opened at `i` is one block holding, in order, the stripped `<li>`
   * lines before the first `</ul>` or `</ol>` line; the opening line's own
   * text and every other line in between are skipped, and the closing line is consumed.
   */
  lemma StepList(lines: seq<string>, i: nat, k: nat)
    requires i < |lines| && Kind(Strip(lines[i])) == ListOpen
    requires IsFirstCloser(lines, i + 1, k, ListEnd)
    ensures Step(lines, i) == (Items(ItemLines(lines[i + 1..k])), if k < |lines| then k + 1 else |lines|)
  {
    FirstCloserUnique(lines, i + 1, k, ListEnd);
  }

  /** A list whose lines before the closing line are all `<li>` lines yields one item per line. */
  lemma {:induction false} ItemLinesAllItems(ls: seq<string>)
    requires forall j :: 0 <= j < |ls| ==> StartsWith(Strip(ls[j]), ItemOpener)
    ensures |ItemLines(ls)| == |ls|
    ensures forall j :: 0 <= j < |ls| ==> ItemLines(ls)[j] == Strip(ls[j])
    decreases |ls|
  {
    if |ls| > 0 {
      ItemLinesAllItems(ls[1..]);
    }
  }

  /** Lines that are whitespace only parse to nothing but blank blocks, one per line. */
  lemma {:induction false} ParseBlankLines(lines: seq<string>, i: nat)
    requires forall j :: i <= j < |lines| ==> AllSpace(lines[j])
    ensures |Parse(lines, i)| == if i < |lines| then |lines| - i else 0
    ensures forall k :: 0 <= k < |Parse(lines, i)| ==> Parse(lines, i)[k] == BlankLine
    decreases |lines| - i
  {
    if i < |lines| {
      StripEmptyIffAllSpace(lines[i]);
      ParseBlankLines(lines, i + 1);
    }
  }
}
