/**
 * The Markdown-to-PDF converter's content logic (api/markdown_to_pdf_reportlab.py):
 * its own tag cleaning and the line scanner that turns markdown2's HTML lines
 * into a ReportLab story. Unlike the Word converter it buffers consecutive
 * lines it does not recognise and joins them, with a space, into one paragraph.
 */
module MarkdownToPdf {
  import opened Text
  import opened Tags
  import opened HtmlBlocks
  import opened Flowables

  // ---------------------------------------------------------------------------
  // _clean_html_tags
  // ---------------------------------------------------------------------------

  /** The block-level erasures, in source order. */
  const PdfBasicRules: seq<Rule> := [
    OpenTag("p"), CloseTag("p"),
    OpenTag("li"), CloseTag("li"),
    OpenTag("ul"), CloseTag("ul"),
    OpenTag("ol"), CloseTag("ol"),
    HeadingOpen, HeadingClose,
    OpenTag("blockquote"), CloseTag("blockquote")
  ]

  lemma PdfBasicRulesListed()
    ensures |PdfBasicRules| == 12
    ensures PdfBasicRules[0] == OpenTag("p") && PdfBasicRules[1] == CloseTag("p")
    ensures PdfBasicRules[2] == OpenTag("li") && PdfBasicRules[3] == CloseTag("li")
    ensures PdfBasicRules[4..] == [OpenTag("ul"), CloseTag("ul"), OpenTag("ol"), CloseTag("ol"),
                                   HeadingOpen, HeadingClose, OpenTag("blockquote"), CloseTag("blockquote")]
    ensures PdfBasicRules[4..][4..] == [HeadingOpen, HeadingClose, OpenTag("blockquote"), CloseTag("blockquote")]
    ensures PdfBasicRules[4..][4..][4..] == []
  {
  }

  lemma PdfBasicRulesWellFormed()
    ensures forall k :: 0 <= k < |PdfBasicRules| ==> WellFormed(PdfBasicRules[k])
  {
    OpenTagWellFormed("p");
    CloseTagWellFormed("p");
    OpenTagWellFormed("li");
    CloseTagWellFormed("li");
    OpenTagWellFormed("ul");
    CloseTagWellFormed("ul");
    OpenTagWellFormed("ol");
    CloseTagWellFormed("ol");
    HeadingRulesWellFormed();
    OpenTagWellFormed("blockquote");
    CloseTagWellFormed("blockquote");
  }

  const CourierOpen := "<font name=\"Courier\" size=\"9\">"
  const CourierClose := "</font>"

  /** The three rewrites into ReportLab's inline markup: bold, italic, Courier 9 pt. */
  function ToReportLabMarkup(s: string): string {
    var bold := Rewrite(s, "<strong>", "</strong>", "<b>", "</b>");
    var italic := Rewrite(bold, "<em>", "</em>", "<i>", "</i>");
    Rewrite(italic, "<code>", "</code>", CourierOpen, CourierClose)
  }

  /**
   * `_clean_html_tags` of the PDF converter: block tags erased, inline tags
   * rewritten into ReportLab markup, then every remaining tag removed and the
   * text stripped. The final removal also takes out the markup just produced,
   * so the result carries no tag at all.
   */
  function CleanHtmlTags(text: string): (r: string)
    ensures TagFree(r) && IsStripped(r)
    ensures '<' !in text ==> r == Strip(text)
  {
    CleaningFacts(text);
    Strip(StripTags(ToReportLabMarkup(EraseAll(text, PdfBasicRules))))
  }

  lemma CleaningFacts(text: string)
    ensures TagFree(Strip(StripTags(ToReportLabMarkup(EraseAll(text, PdfBasicRules)))))
    ensures '<' !in text ==> StripTags(ToReportLabMarkup(EraseAll(text, PdfBasicRules))) == text
  {
    if '<' !in text {
      NoOpenerIsTagFree(text);
      MarkupStepsFixTagFree(text);
    }
    StripKeepsTagFree(StripTags(ToReportLabMarkup(EraseAll(text, PdfBasicRules))));
  }

  /** On tag-free text every step before the final strip changes nothing. */
  lemma MarkupStepsFixTagFree(text: string)
    requires TagFree(text)
    ensures StripTags(ToReportLabMarkup(EraseAll(text, PdfBasicRules))) == text
  {
    PdfBasicRulesWellFormed();
    EraseAllFixesTagFree(text, PdfBasicRules);
    MarkupFixesTagFree(text);
  }

  /** On tag-free text the rewrites and the final tag removal change nothing. */
  lemma MarkupFixesTagFree(text: string)
    requires TagFree(text)
    ensures StripTags(ToReportLabMarkup(text)) == text
  {
    RewriteFixesTagFree(text, "<strong>", "</strong>", "<b>", "</b>");
    RewriteFixesTagFree(text, "<em>", "</em>", "<i>", "</i>");
    RewriteFixesTagFree(text, "<code>", "</code>", CourierOpen, CourierClose);
    StripTagsFixesTagFree(text);
  }

  /** A paragraph `<p>t</p>` of plain text cleans to the stripped text. */
  lemma CleanParagraphText(t: string)
    requires '<' !in t
    ensures CleanHtmlTags(OpeningTag("p") + t + ClosingTag("p")) == Strip(t)
  {
    PdfBasicRulesWellFormed();
    EraseAllWrapped("p", t, PdfBasicRules);
    NoOpenerIsTagFree(t);
    MarkupFixesTagFree(t);
  }

  /** A list item `<li>t</li>` of plain text cleans to the stripped text. */
  lemma CleanListItemText(t: string)
    requires '<' !in t
    ensures CleanHtmlTags(OpeningTag("li") + t + ClosingTag("li")) == Strip(t)
  {
    var w := OpeningTag("li") + t + ClosingTag("li");
    PdfBasicRulesListed();
    OtherTagsKeep("li", "p", t);
    EraseAllSkipsTwo(w, PdfBasicRules);
    PdfListItemRulesErase(t);
    NoOpenerIsTagFree(t);
    MarkupFixesTagFree(t);
  }

  /** From the third rule on, the list item pair comes first and erases `<li>t</li>`. */
  lemma PdfListItemRulesErase(t: string)
    requires '<' !in t
    ensures EraseAll(OpeningTag("li") + t + ClosingTag("li"), PdfBasicRules[2..]) == t
  {
    var tail := PdfBasicRules[2..];
    PdfBasicRulesWellFormed();
    assert forall k :: 0 <= k < |tail| ==> WellFormed(tail[k]);
    assert tail[0] == OpenTag("li") && tail[1] == CloseTag("li");
    EraseAllWrapped("li", t, tail);
  }

  /**
   * Bold text `<strong>t</strong>` on one line is rewritten to `<b>t</b>`, and
   * the final tag removal then takes that markup out again: the cleaned result
   * is the stripped text, with its bold formatting lost.
   */
  lemma CleanStrongText(t: string)
    requires '<' !in t && '\n' !in t
    ensures CleanHtmlTags(OpeningTag("strong") + t + ClosingTag("strong")) == Strip(t)
  {
    StrongKeptByBlockRules(t);
    StrongBecomesBold(t);
    BoldTagsAreTags();
    StripTagsWrapped("<b>", t, "</b>");
  }

  lemma BoldTagsAreTags()
    ensures IsTag("<b>") && IsTag("</b>")
  {
  }

  /** None of the block erasures matches `<strong>` or `</strong>`. */
  lemma StrongKeptByBlockRules(t: string)
    requires '<' !in t
    ensures EraseAll(OpeningTag("strong") + t + ClosingTag("strong"), PdfBasicRules) == OpeningTag("strong") + t + ClosingTag("strong")
  {
    var w := OpeningTag("strong") + t + ClosingTag("strong");
    PdfBasicRulesListed();
    OtherTagsKeep("strong", "p", t);
    OtherTagsKeep("strong", "li", t);
    EraseAllSkipsFour(w, PdfBasicRules);
    StrongKeptByMiddleRules(t);
  }

  lemma StrongKeptByMiddleRules(t: string)
    requires '<' !in t
    ensures EraseAll(OpeningTag("strong") + t + ClosingTag("strong"), PdfBasicRules[4..]) == OpeningTag("strong") + t + ClosingTag("strong")
  {
    var w := OpeningTag("strong") + t + ClosingTag("strong");
    PdfBasicRulesListed();
    OtherTagsKeep("strong", "ul", t);
    OtherTagsKeep("strong", "ol", t);
    EraseAllSkipsFour(w, PdfBasicRules[4..]);
    HeadingRulesKeep("strong", t);
    OtherTagsKeep("strong", "blockquote", t);
    EraseAllSkipsFour(w, PdfBasicRules[4..][4..]);
  }

  /** The three rewrites turn `<strong>t</strong>` into `<b>t</b>`. */
  lemma StrongBecomesBold(t: string)
    requires '<' !in t && '\n' !in t
    ensures ToReportLabMarkup(OpeningTag("strong") + t + ClosingTag("strong")) == "<b>" + t + "</b>"
  {
    assert OpeningTag("strong") == "<strong>" && ClosingTag("strong") == "</strong>";
    RewriteWrapped("strong", t, "<b>", "</b>");
    RewriteKeepsWrapped("<b>", t, "</b>", "<em>", "</em>", "<i>", "</i>");
    RewriteKeepsWrapped("<b>", t, "</b>", "<code>", "</code>", CourierOpen, CourierClose);
  }

  /** Cleaning cleaned text changes nothing. */
  lemma CleanHtmlTagsIdempotent(text: string)
    ensures CleanHtmlTags(CleanHtmlTags(text)) == CleanHtmlTags(text)
  {
    var c := CleanHtmlTags(text);
    MarkupStepsFixTagFree(c);
    StripFixesStripped(c);
  }

  /** Tag-free text contains no complete tag, so in particular none of ReportLab's. */
  lemma TagFreeHasNoTag(s: string, tag: string)
    requires TagFree(s)
    requires |tag| >= 3 && tag[0] == '<' && tag[1] != '>' && tag[|tag| - 1] == '>'
    ensures !HasInfix(s, tag)
    decreases |s|
  {
    if StartsWith(s, tag) {
      assert s[0] == tag[0] && s[1] == tag[1] && s[|tag| - 1] == tag[|tag| - 1];
      assert TagSpan(s, 0, |tag| - 1);
    }
    if |s| > 0 {
      SliceTagFree(s, 1, |s|);
      assert s[1..|s|] == s[1..];
      TagFreeHasNoTag(s[1..], tag);
    }
  }

  /**
   * The cleaned text holds none of the markup the rewrites produce: the
   * bold, italic and Courier conversions never reach the story.
   */
  lemma CleanedTextHasNoMarkup(text: string)
    ensures var r := CleanHtmlTags(text);
            !HasInfix(r, "<b>") && !HasInfix(r, "</b>") && !HasInfix(r, "<i>") && !HasInfix(r, "</i>")
            && !HasInfix(r, CourierOpen) && !HasInfix(r, CourierClose)
  {
    TagFreeHasNoMarkup(CleanHtmlTags(text));
  }

  lemma TagFreeHasNoMarkup(r: string)
    requires TagFree(r)
    ensures !HasInfix(r, "<b>") && !HasInfix(r, "</b>") && !HasInfix(r, "<i>") && !HasInfix(r, "</i>")
    ensures !HasInfix(r, CourierOpen) && !HasInfix(r, CourierClose)
  {
    TagFreeHasNoTag(r, "<b>");
    TagFreeHasNoTag(r, "</b>");
    TagFreeHasNoTag(r, "<i>");
    TagFreeHasNoTag(r, "</i>");
    TagFreeHasNoTag(r, CourierOpen);
    TagFreeHasNoTag(r, CourierClose);
  }

  // ---------------------------------------------------------------------------
  // The story
  // ---------------------------------------------------------------------------

  const TitleStyle := "CustomTitle"
  const Heading2Style := "CustomHeading2"
  const Heading3Style := "CustomHeading3"
  const NormalStyle := "CustomNormal"
  const CodeStyle := "CustomCode"
  const QuoteStyle := "CustomQuote"

  const Bullet := "• "

  function HeadingStyle(level: Level): string {
    if level == 1 then TitleStyle else if level == 2 then Heading2Style else Heading3Style
  }

  /** The space after a heading: 12, 8 and 6 points for levels 1, 2 and 3. */
  function HeadingSpace(level: Level): nat {
    if level == 1 then 12 else if level == 2 then 8 else 6
  }

  /** The buffered lines, if any, as one 'CustomNormal' paragraph joined with spaces. */
  function Flush(pending: seq<string>): (story: seq<Flowable>)
    ensures |story| == (if |pending| == 0 then 0 else 1)
  {
    if |pending| == 0 then [] else [Paragraph(Join(pending, " "), NormalStyle)]
  }

  /** A non-empty buffer is flushed as one normal paragraph of its texts joined with spaces. */
  lemma FlushedParagraph(pending: seq<string>)
    requires |pending| > 0
    ensures |Flush(pending)| == 1 && Flush(pending)[0].Paragraph? && Flush(pending)[0].style == NormalStyle
    ensures Flush(pending)[0].text == Join(pending, " ")
    ensures |pending| == 1 ==> Flush(pending)[0].text == pending[0]
  {
  }

  /** One 'CustomNormal' paragraph per list item: a bullet, then the item's cleaned text. */
  function BulletParagraphs(items: seq<string>): (story: seq<Flowable>)
    ensures |story| == |items|
    ensures forall k :: 0 <= k < |items| ==> story[k] == Paragraph(Bullet + CleanHtmlTags(items[k]), NormalStyle)
  {
    if |items| == 0 then [] else [Paragraph(Bullet + CleanHtmlTags(items[0]), NormalStyle)] + BulletParagraphs(items[1..])
  }

  /** What a recognised block adds to the story after the buffer is flushed. */
  function Emit(b: Block): seq<Flowable> {
    match b
    case BlankLine => []
    case Heading(level, line) => [Paragraph(CleanHtmlTags(line), HeadingStyle(level)), Spacer(HeadingSpace(level))]
    case Code(content) => [Preformatted(content, CodeStyle), Spacer(12)]
    case Quote(content) => [Paragraph(CleanHtmlTags(content), QuoteStyle), Spacer(12)]
    case Items(items) => BulletParagraphs(items) + [Spacer(8)]
    case Para(line) => [Paragraph(CleanHtmlTags(line), NormalStyle), Spacer(6)]
    case Loose(_) => []
  }

  /**
   * What one block hands the scanner: a loose line's cleaned text, to be
   * buffered, or the flowables a recognised block emits.
   */
  datatype Contribution = Buffered(text: string) | Emitted(story: seq<Flowable>)

  function Contribute(b: Block): (c: Contribution)
    ensures c.Buffered? <==> b.Loose?
  {
    if b.Loose? then Buffered(CleanHtmlTags(b.line)) else Emitted(Emit(b))
  }

  /**
   * One contribution's effect on the story and the buffer: buffered text is
   * appended to the buffer and adds nothing yet; emitted flowables follow the
   * flushed buffer, which is then empty.
   */
  function Feed(c: Contribution, pending: seq<string>): (r: (seq<Flowable>, seq<string>))
    ensures c.Buffered? ==> r.0 == [] && r.1 == pending + [c.text]
    ensures c.Emitted? ==> r.0 == Flush(pending) + c.story && r.1 == []
  {
    match c
    case Buffered(t) => ([], pending + [t])
    case Emitted(fs) => (Flush(pending) + fs, [])
  }

  /**
   * The `while i < len(lines)` loop of `_parse_markdown_to_elements` from line
   * `i` on, with `pending` the cleaned lines in `current_paragraph`. A blank
   * line or a recognised line flushes the buffer; any other line is cleaned and
   * buffered (even when its cleaned text is empty); the end of input flushes it.
   */
  function Scan(lines: seq<string>, i: nat, pending: seq<string>): seq<Flowable>
    decreases |lines| - i
  {
    if i >= |lines| then Flush(pending)
    else
      var (b, next) := Step(lines, i);
      var (out, buffered) := Feed(Contribute(b), pending);
      out + Scan(lines, next, buffered)
  }

  lemma ScanStep(lines: seq<string>, i: nat, pending: seq<string>)
    requires i < |lines|
    ensures var c := Contribute(Step(lines, i).0);
            Scan(lines, i, pending) == Feed(c, pending).0 + Scan(lines, Step(lines, i).1, Feed(c, pending).1)
  {
  }

  /** A recognised block flushes the buffer, then adds its flowables, and scanning resumes with an empty buffer. */
  lemma ScanEmits(lines: seq<string>, i: nat, pending: seq<string>)
    requires i < |lines| && !Step(lines, i).0.Loose?
    ensures Scan(lines, i, pending) == Flush(pending) + Emit(Step(lines, i).0) + Scan(lines, Step(lines, i).1, [])
  {
    ScanStep(lines, i, pending);
  }

  /** The scanner on a line that forms a block on its own. */
  lemma ScanLine(lines: seq<string>, i: nat, pending: seq<string>)
    requires i < |lines| && SingleLine(Kind(Strip(lines[i])))
    ensures var c := Contribute(LineBlock(Strip(lines[i])));
            Scan(lines, i, pending) == Feed(c, pending).0 + Scan(lines, i + 1, Feed(c, pending).1)
  {
    ScanStep(lines, i, pending);
  }

  /** `_parse_markdown_to_elements` applied to markdown2's HTML output. */
  function ParseMarkdownToElements(html: string): seq<Flowable> {
    Scan(SplitLines(html), 0, [])
  }

  // ---------------------------------------------------------------------------
  // A reference without a buffer: maximal runs of loose lines become one paragraph
  // ---------------------------------------------------------------------------

  /** The contributions of a block sequence, in order. */
  function Contributions(bs: seq<Block>): (cs: seq<Contribution>)
    ensures |cs| == |bs|
    ensures forall k :: 0 <= k < |bs| ==> cs[k] == Contribute(bs[k])
  {
    if |bs| == 0 then [] else [Contribute(bs[0])] + Contributions(bs[1..])
  }

  /** How many contributions at the front of `cs` are buffered text. */
  function BufferedRun(cs: seq<Contribution>): (n: nat)
    ensures n <= |cs|
    ensures forall k :: 0 <= k < n ==> cs[k].Buffered?
    ensures n < |cs| ==> cs[n].Emitted?
  {
    if |cs| == 0 || cs[0].Emitted? then 0 else 1 + BufferedRun(cs[1..])
  }

  /** The texts of a run of buffered contributions. */
  function Texts(cs: seq<Contribution>): (ts: seq<string>)
    requires forall k :: 0 <= k < |cs| ==> cs[k].Buffered?
    ensures |ts| == |cs|
    ensures forall k :: 0 <= k < |cs| ==> ts[k] == cs[k].text
  {
    if |cs| == 0 then [] else [cs[0].text] + Texts(cs[1..])
  }

  /**
   * The story stated without a buffer: each maximal run of buffered texts is
   * one paragraph of those texts joined with spaces, and every emitted piece
   * follows in order.
   */
  function Render(cs: seq<Contribution>): seq<Flowable>
    decreases |cs|
  {
    if |cs| == 0 then []
    else if cs[0].Emitted? then cs[0].story + Render(cs[1..])
    else
      var n := BufferedRun(cs);
      Flush(Texts(cs[..n])) + Render(cs[n..])
  }

  /** A contribution sequence renders as its leading buffered run followed by the rest. */
  lemma RenderSplitsRun(cs: seq<Contribution>)
    ensures Render(cs) == Flush(Texts(cs[..BufferedRun(cs)])) + Render(cs[BufferedRun(cs)..])
  {
    if BufferedRun(cs) == 0 {
      assert cs[..0] == [] && cs[0..] == cs;
    }
  }

  /** The scanner over contributions instead of lines. */
  function ScanContributions(cs: seq<Contribution>, pending: seq<string>): seq<Flowable>
    decreases |cs|
  {
    if |cs| == 0 then Flush(pending)
    else
      var (out, buffered) := Feed(cs[0], pending);
      out + ScanContributions(cs[1..], buffered)
  }

  /** Scanning lines is scanning the contributions of the blocks they parse to. */
  lemma {:induction false} ScanIsScanContributions(lines: seq<string>, i: nat, pending: seq<string>)
    ensures Scan(lines, i, pending) == ScanContributions(Contributions(Parse(lines, i)), pending)
    decreases |lines| - i
  {
    if i < |lines| {
      var (b, next) := Step(lines, i);
      ScanStep(lines, i, pending);
      ParseStep(lines, i);
      var cs := Contributions(Parse(lines, i));
      assert cs[0] == Contribute(b);
      assert cs[1..] == Contributions(Parse(lines, next));
      ScanIsScanContributions(lines, next, Feed(Contribute(b), pending).1);
    }
  }

  /**
   * The scanner with text already buffered: the buffer and the buffered run
   * that follows it form one paragraph, and the rest renders piece by piece.
   */
  lemma {:induction false} ScanWithPending(cs: seq<Contribution>, pending: seq<string>)
    ensures ScanContributions(cs, pending) == Flush(pending + Texts(cs[..BufferedRun(cs)])) + Render(cs[BufferedRun(cs)..])
    decreases |cs|
  {
    if |cs| == 0 {
      assert pending + [] == pending;
    } else if cs[0].Buffered? {
      ScanWithPending(cs[1..], pending + [cs[0].text]);
      ScanBufferedHead(cs, pending);
    } else {
      ScanWithPending(cs[1..], []);
      ScanEmittedHead(cs, pending);
    }
  }

  /** The inductive step of `ScanWithPending` when the first contribution is buffered. */
  lemma ScanBufferedHead(cs: seq<Contribution>, pending: seq<string>)
    requires |cs| > 0 && cs[0].Buffered?
    requires var rest := cs[1..];
             ScanContributions(rest, pending + [cs[0].text])
             == Flush(pending + [cs[0].text] + Texts(rest[..BufferedRun(rest)])) + Render(rest[BufferedRun(rest)..])
    ensures ScanContributions(cs, pending) == Flush(pending + Texts(cs[..BufferedRun(cs)])) + Render(cs[BufferedRun(cs)..])
  {
    var rest := cs[1..];
    BufferedRunCons(cs);
    AppendAssoc(pending, [cs[0].text], Texts(rest[..BufferedRun(rest)]));
  }

  /** A buffered contribution in front lengthens the buffered run by one. */
  lemma BufferedRunCons(cs: seq<Contribution>)
    requires |cs| > 0 && cs[0].Buffered?
    ensures var rest := cs[1..];
            && BufferedRun(cs) == 1 + BufferedRun(rest)
            && Texts(cs[..BufferedRun(cs)]) == [cs[0].text] + Texts(rest[..BufferedRun(rest)])
            && cs[BufferedRun(cs)..] == rest[BufferedRun(rest)..]
  {
    var rest := cs[1..];
    var m := BufferedRun(rest);
    TextsCons(cs, m);
    assert cs[1 + m..] == rest[m..];
  }

  lemma TextsCons(cs: seq<Contribution>, m: nat)
    requires m < |cs| && forall k :: 0 <= k <= m ==> cs[k].Buffered?
    ensures Texts(cs[..1 + m]) == [cs[0].text] + Texts(cs[1..][..m])
  {
    assert cs[..1 + m][1..] == cs[1..][..m];
  }

  /** The inductive step of `ScanWithPending` when the first contribution is emitted. */
  lemma ScanEmittedHead(cs: seq<Contribution>, pending: seq<string>)
    requires |cs| > 0 && cs[0].Emitted?
    requires var rest := cs[1..];
             ScanContributions(rest, []) == Flush([] + Texts(rest[..BufferedRun(rest)])) + Render(rest[BufferedRun(rest)..])
    ensures ScanContributions(cs, pending) == Flush(pending + Texts(cs[..BufferedRun(cs)])) + Render(cs[BufferedRun(cs)..])
  {
    var rest := cs[1..];
    RenderSplitsRun(rest);
    assert [] + Texts(rest[..BufferedRun(rest)]) == Texts(rest[..BufferedRun(rest)]);
    assert BufferedRun(cs) == 0;
    assert cs[..0] == [] && cs[0..] == cs;
    assert pending + [] == pending;
  }

  lemma AppendAssoc<T>(a: seq<T>, b: seq<T>, c: seq<T>)
    ensures a + b + c == a + (b + c)
  {
  }

  /** The scanner's story is the buffer-free reference applied to the parsed lines. */
  lemma ScanMatchesRender(lines: seq<string>)
    ensures Scan(lines, 0, []) == Render(Contributions(Parse(lines, 0)))
  {
    var cs := Contributions(Parse(lines, 0));
    ScanIsScanContributions(lines, 0, []);
    ScanWithPending(cs, []);
    RenderSplitsRun(cs);
    assert [] + Texts(cs[..BufferedRun(cs)]) == Texts(cs[..BufferedRun(cs)]);
  }

  // ---------------------------------------------------------------------------
  // What the scanner promises, line by line
  // ---------------------------------------------------------------------------

  /** A blank line flushes the buffer and adds nothing else. */
  lemma BlankLineFlushes(lines: seq<string>, i: nat, pending: seq<string>)
    requires i < |lines| && AllSpace(lines[i])
    ensures Scan(lines, i, pending) == Flush(pending) + Scan(lines, i + 1, [])
  {
    StripEmptyIffAllSpace(lines[i]);
    RecognisedLine(lines, i, pending, BlankLine);
  }

  /**
   * A heading line flushes the buffer, then adds the cleaned heading in its
   * level's style and a spacer of 12, 8 or 6 points.
   */
  lemma HeadingLine(lines: seq<string>, i: nat, pending: seq<string>)
    requires i < |lines| && Kind(Strip(lines[i])).HeadingLine?
    ensures Scan(lines, i, pending)
         == Flush(pending)
          + [Paragraph(CleanHtmlTags(Strip(lines[i])), HeadingStyle(Kind(Strip(lines[i])).level)),
             Spacer(HeadingSpace(Kind(Strip(lines[i])).level))]
          + Scan(lines, i + 1, [])
  {
    var line := Strip(lines[i]);
    var level := Kind(line).level;
    RecognisedLine(lines, i, pending, Heading(level, line));
    assert Emit(Heading(level, line)) == [Paragraph(CleanHtmlTags(line), HeadingStyle(level)), Spacer(HeadingSpace(level))];
  }

  /** A line that forms a recognised block on its own flushes the buffer, then adds what the block emits. */
  lemma RecognisedLine(lines: seq<string>, i: nat, pending: seq<string>, b: Block)
    requires i < |lines| && SingleLine(Kind(Strip(lines[i])))
    requires LineBlock(Strip(lines[i])) == b && !b.Loose?
    ensures Scan(lines, i, pending) == Flush(pending) + Emit(b) + Scan(lines, i + 1, [])
  {
    ScanLine(lines, i, pending);
  }

  /** A `<p>...</p>` line flushes the buffer, then adds its cleaned text and a 6-point spacer. */
  lemma ParagraphLine(lines: seq<string>, i: nat, pending: seq<string>)
    requires i < |lines| && Kind(Strip(lines[i])) == ParaLine
    ensures Scan(lines, i, pending)
         == Flush(pending) + [Paragraph(CleanHtmlTags(Strip(lines[i])), NormalStyle), Spacer(6)] + Scan(lines, i + 1, [])
  {
    var line := Strip(lines[i]);
    ParaLineEmits(line);
    RecognisedLine(lines, i, pending, Para(line));
  }

  lemma ParaLineEmits(line: string)
    requires Kind(line) == ParaLine
    ensures SingleLine(Kind(line)) && LineBlock(line) == Para(line)
    ensures Emit(Para(line)) == [Paragraph(CleanHtmlTags(line), NormalStyle), Spacer(6)]
  {
  }

  /** Any other line is cleaned and buffered; nothing is added to the story yet. */
  lemma OtherLineBuffers(lines: seq<string>, i: nat, pending: seq<string>)
    requires i < |lines| && Kind(Strip(lines[i])) == Other
    ensures Scan(lines, i, pending) == Scan(lines, i + 1, pending + [CleanHtmlTags(Strip(lines[i]))])
  {
    ScanLine(lines, i, pending);
    assert LineBlock(Strip(lines[i])) == Loose(Strip(lines[i]));
  }

  /**
   * A code block opened at `i` and closed at `k` (or never closed) flushes the
   * buffer, then adds its lines joined by '\n' as one preformatted flowable and
   * a 12-point spacer.
   */
  lemma CodeBlock(lines: seq<string>, i: nat, k: nat, pending: seq<string>)
    requires i < |lines| && Kind(Strip(lines[i])) == CodeOpen && !EndsWith(Strip(lines[i]), CodeCloser)
    requires IsFirstCloser(lines, i + 1, k, CodeEnd)
    ensures Scan(lines, i, pending)
         == Flush(pending) + [Preformatted(Join(Gather(lines, i, k, CodeOpener, CodeCloser), "\n"), CodeStyle), Spacer(12)]
          + Scan(lines, After(lines, k), [])
  {
    StepCodeBlock(lines, i, k);
    ScanStep(lines, i, pending);
  }

  /**
   * A blockquote opened at `i` and closed at `k` (or never closed) flushes the
   * buffer, then adds its lines joined by ' ' and cleaned, and a 12-point spacer.
   */
  lemma QuoteBlock(lines: seq<string>, i: nat, k: nat, pending: seq<string>)
    requires i < |lines| && Kind(Strip(lines[i])) == QuoteOpen && !EndsWith(Strip(lines[i]), QuoteCloser)
    requires IsFirstCloser(lines, i + 1, k, QuoteEnd)
    ensures Scan(lines, i, pending)
         == Flush(pending) + [Paragraph(CleanHtmlTags(Join(Gather(lines, i, k, QuoteOpener, QuoteCloser), " ")), QuoteStyle), Spacer(12)]
          + Scan(lines, After(lines, k), [])
  {
    StepQuoteBlock(lines, i, k);
    ScanEmits(lines, i, pending);
  }

  /**
   * A list flushes the buffer, then adds one bulleted paragraph per `<li>`
   * line before its closing line, in order, and an 8-point spacer.
   */
  lemma ListBlock(lines: seq<string>, i: nat, k: nat, pending: seq<string>)
    requires i < |lines| && Kind(Strip(lines[i])) == ListOpen
    requires IsFirstCloser(lines, i + 1, k, ListEnd)
    ensures Scan(lines, i, pending)
         == Flush(pending) + BulletParagraphs(ItemLines(lines[i + 1..k])) + [Spacer(8)] + Scan(lines, After(lines, k), [])
  {
    StepList(lines, i, k);
    ScanEmits(lines, i, pending);
    ItemsStory(Flush(pending), ItemLines(lines[i + 1..k]), Scan(lines, After(lines, k), []));
  }

  /** A list block's flowables, regrouped as its bullet paragraphs followed by the spacer. */
  lemma ItemsStory(before: seq<Flowable>, items: seq<string>, after: seq<Flowable>)
    ensures before + Emit(Items(items)) + after == before + BulletParagraphs(items) + [Spacer(8)] + after
  {
    AppendAssoc(before, BulletParagraphs(items), [Spacer(8)]);
  }

  /** Whitespace-only input gives an empty story. */
  lemma {:induction false} BlankInputIsEmpty(lines: seq<string>, i: nat)
    requires forall j :: i <= j < |lines| ==> AllSpace(lines[j])
    ensures Scan(lines, i, []) == []
    decreases |lines| - i
  {
    if i < |lines| {
      BlankLineFlushes(lines, i, []);
      BlankInputIsEmpty(lines, i + 1);
    }
  }

  /**
   * A stretch of unrecognised lines from `i` up to the next recognised line
   * (or the end) adds nothing to the story by itself: the cleaned texts of its
   * lines are appended to the buffer, in order.
   */
  lemma {:induction false} LooseLinesJoin(lines: seq<string>, i: nat, j: nat, pending: seq<string>)
    requires i <= j <= |lines|
    requires forall m :: i <= m < j ==> Kind(Strip(lines[m])) == Other
    requires j < |lines| ==> Kind(Strip(lines[j])) != Other
    ensures Scan(lines, i, pending) == Scan(lines, j, pending + CleanedTexts(lines, i, j))
    decreases j - i
  {
    if i == j {
      assert pending + [] == pending;
    } else {
      OtherLineBuffers(lines, i, pending);
      LooseLinesJoin(lines, i + 1, j, pending + [CleanHtmlTags(Strip(lines[i]))]);
      AppendAssoc(pending, [CleanHtmlTags(Strip(lines[i]))], CleanedTexts(lines, i + 1, j));
    }
  }

  /** The cleaned, stripped texts of `lines[i..j]`. */
  function CleanedTexts(lines: seq<string>, i: nat, j: nat): (ts: seq<string>)
    requires i <= j <= |lines|
    ensures |ts| == j - i
    decreases j - i
  {
    if i == j then [] else [CleanHtmlTags(Strip(lines[i]))] + CleanedTexts(lines, i + 1, j)
  }

  /** At the end of the input the buffer is flushed as the story's last paragraph. */
  lemma EndFlushes(lines: seq<string>, pending: seq<string>)
    ensures Scan(lines, |lines|, pending) == Flush(pending)
  {
  }

  /** Every line of `lines` from `i` on is unrecognised. */
  predicate LooseFrom(lines: seq<string>, i: nat) {
    forall m :: i <= m < |lines| ==> Kind(Strip(lines[m])) == Other
  }

  lemma LooseTail(lines: seq<string>, i: nat, pending: seq<string>)
    requires i <= |lines|
    requires LooseFrom(lines, i)
    ensures Scan(lines, i, pending) == Flush(pending + CleanedTexts(lines, i, |lines|))
  {
    LooseLinesJoin(lines, i, |lines|, pending);
    EndFlushes(lines, pending + CleanedTexts(lines, i, |lines|));
  }

  /** A non-empty document of unrecognised lines only becomes exactly one paragraph of their cleaned texts joined with spaces. */
  lemma OnlyLooseLines(lines: seq<string>)
    requires |lines| > 0
    requires LooseFrom(lines, 0)
    ensures Scan(lines, 0, []) == [Paragraph(Join(CleanedTexts(lines, 0, |lines|), " "), NormalStyle)]
  {
    var texts := CleanedTexts(lines, 0, |lines|);
    LooseTail(lines, 0, []);
    assert [] + texts == texts;
  }
}
