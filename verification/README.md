# markdown-to-pdf-api — a Dafny model of the conversion core

The service turns Markdown into Word and PDF documents, Word documents into
PDF, and JSON record lists into Excel sheets. This project models the content
logic behind those conversions as pure Dafny functions and proves what they
guarantee:

- `MarkdownToDocx` (`markdown_to_docx.dfy`): the Markdown→Word converter. It
  cleans tags, splits one line into bold / italic / code runs, and scans the
  HTML lines that markdown2 produces into styled Word paragraphs. A Word
  paragraph is abstracted to a style name, its runs and whether it has a left
  border.
- `MarkdownToPdf` (`markdown_to_pdf.dfy`): the ReportLab Markdown→PDF
  converter. It builds a story of flowables, buffers loose lines into one
  'CustomNormal' paragraph, and rewrites tags into ReportLab markup before it
  strips every tag. The buffering scanner is proved equal to a buffer-free
  reference rendering.
- `HtmlBlocks` (`html_blocks.dfy`): the line classification and the block
  scanner that both Markdown converters share: headings, `<pre><code>`
  blocks, `<blockquote>` blocks, `<li>` runs, `<p>` lines and loose lines.
- `Tags` and `Text` (`tags.dfy`, `text.dfy`): the regular expressions and
  string methods the converters use, written as deterministic functions.
  These are tag stripping, lazy tag erasure, `<b>(.*?)</b>`-style pair
  rewriting, Python's `strip`, `split('\n')`, `replace` and `join`.
- `DocxToPdf` (`docx_to_pdf.dfy`): the Word→PDF converter. It covers the
  special-character escaping, the extraction of paragraphs and tables into
  titled / heading / normal items, the PDF story, and the empty-content
  failure.
- `JsonToExcel` (`json_excel.dfy`): JSON record validation, the 31-character
  sheet title, the header / alternate-fill row plan and the column widths.
- `Flowables` and `Wrappers`: the ReportLab flowable datatype, plus `Option`
  and `Result`.

External effects become parameters:
- The outcome of adding a paragraph border is the boolean `borderOk`.
- ReportLab's `doc.build` outcome is `buildOk`.
- openpyxl formatting is `formatOk`; the data frame, the workbook, the row
  appends and the save are one outcome, `libraryOk`.
- A Word file that is missing or cannot be opened is `None`.

## Model

| member | source | states |
|---|---|---|
| Text.SplitLines | api/markdown_to_docx.py:141 | the HTML is split at newlines; no piece holds a newline, and joining the pieces with newlines gives the text back |
| Text.Strip | api/markdown_to_docx.py:337 | `str.strip()`: the result has no whitespace at either end and is no longer than the input; `StripSurrounded` shows it is exactly the input less its surrounding whitespace, and `StripEmptyIffAllSpace` that it is empty exactly for whitespace-only text |
| Text.StripSurrounded | api/markdown_to_docx.py:337 | stripped text with whitespace runs on either side comes back whole, so `strip()` removes the surrounding whitespace and nothing else |
| Text.StripEmptyIffAllSpace | api/markdown_to_docx.py:337 | stripping gives the empty string exactly when the text is whitespace only |
| Tags.StripTags | api/markdown_to_docx.py:336 | removing every `<…>` span leaves no complete tag and only characters of the input; the first character survives when it is not `<` |
| Tags.StripTagsKeeps | api/markdown_to_docx.py:336 | a character other than `<` is kept, in front of what the rest strips to |
| Tags.StripTagsDropsTag | api/markdown_to_docx.py:336 | a complete tag at the front is removed and nothing after it is touched |
| Tags.StripTagsKeepsPlain | api/markdown_to_docx.py:336 | a stretch without `<` is kept whole, in front of what the rest strips to |
| Tags.StripTagsWrapped | api/markdown_to_docx.py:336 | text without `<` between two complete tags loses both tags and is kept exactly |
| Tags.RewriteWrapped | api/markdown_to_pdf_reportlab.py:290 | `<strong>t</strong>`-style text, with `t` on one line and free of `<`, is rewritten to the new opener, `t` and the new closer |
| Tags.RewriteKeepsWrapped | api/markdown_to_pdf_reportlab.py:290-292 | tags that cannot begin the opener, around text without `<`, are left exactly as they are |
| Tags.StripTagsIdempotent | api/markdown_to_docx.py:336 | stripping tags a second time changes nothing |
| Tags.EraseAll | api/markdown_to_docx.py:315-322 | the `re.sub` erasures applied one after the other, first rule first; it has no contract of its own, and `EraseAllFixesTagFree` and `EraseAllWrapped` characterise it |
| Tags.EraseAllWrapped | api/markdown_to_docx.py:315-316 | when the first two rules are `<name.*?>` and `</name>`, `<name>t</name>` with `t` free of `<` loses both tags and keeps `t` |
| Tags.EraseAllFixesTagFree | api/markdown_to_docx.py:315-322 | the lazy `<x.*?>` erasures leave text without tags unchanged |
| Tags.Rewrite | api/markdown_to_pdf_reportlab.py:290-292 | `re.sub(open + '(.*?)' + close, newOpen + r'\1' + newClose, s)`; it has no contract of its own, and `RewriteFixesTagFree`, `RewriteWrapped` and `RewriteKeepsWrapped` characterise it |
| Tags.RewriteFixesTagFree | api/markdown_to_pdf_reportlab.py:290-292 | a `<a>(.*?)</a>` → `<b>\1</b>` rewrite leaves text without tags unchanged |
| HtmlBlocks.Kind | api/markdown_to_docx.py:147-226 | the line tests in the scanner's order, first match wins; it has no contract of its own, and `KindMarkers` states what each kind means |
| HtmlBlocks.KindMarkers | api/markdown_to_docx.py:147-226 | a line is blank exactly when it is empty; a heading, code, quote, list or paragraph line carries that kind's markers; an unrecognised line starts with none of the openers and is not a `<p>…</p>` line |
| HtmlBlocks.Step | api/markdown_to_docx.py:143-228 | one pass of the scanning loop consumes at least one line and stays within the input, and a line that forms a block on its own consumes just that line; `StepCodeBlock`, `StepQuoteBlock` and `StepList` give the multi-line blocks |
| HtmlBlocks.Parse | api/markdown_to_docx.py:143-228 | there are blocks exactly when lines remain, and never more blocks than lines; `ParseStep` gives the first block followed by the blocks after it |
| HtmlBlocks.FindCloser | api/markdown_to_docx.py:176-178 | the forward scan stops at the first closing line after the opener, or at the end of the input when there is none |
| HtmlBlocks.StepCodeBlock | api/markdown_to_docx.py:165-183 | a multi-line code block gathers the opener line without `<pre><code>`, the lines in between, and the closer line without `</code></pre>`, then resumes after the closer |
| HtmlBlocks.StepCodeUnterminated | api/markdown_to_docx.py:172-183 | an unterminated code block swallows the rest of the input |
| HtmlBlocks.StepQuoteBlock | api/markdown_to_docx.py:186-203 | a multi-line quote gathers its lines up to the `</blockquote>` line, joined by spaces, and resumes after it |
| HtmlBlocks.StepList | api/markdown_to_docx.py:206-213 | a list collects the `<li>` lines up to the first `</ul>` or `</ol>` line, and scanning resumes after that line |
| HtmlBlocks.ItemLinesAllItems | api/markdown_to_docx.py:209-213 | when every line of a stretch is an `<li>` line, the list loop keeps all of them, stripped and in order |
| HtmlBlocks.ParseBlankLines | api/markdown_to_docx.py:147-149 | input made only of blank lines scans into blank-line blocks, one per line |
| MarkdownToDocx.CleanHtmlTags | api/markdown_to_docx.py:325-337 | the result holds no complete tag and is stripped; on text without `<` it is just the stripped text |
| MarkdownToDocx.CleanWrappedText | api/markdown_to_docx.py:325-337 | text without `<` between two complete tags cleans to that text stripped: the tags go, the text stays |
| MarkdownToDocx.CleanHtmlTagsIdempotent | api/markdown_to_docx.py:325-337 | cleaning cleaned text changes nothing |
| MarkdownToDocx.CleanBasicTags | api/markdown_to_docx.py:310-323 | the result is stripped; text without tags is only stripped |
| MarkdownToDocx.BasicCleaningFixesTagFree | api/markdown_to_docx.py:315-322 | the `<p>`, `<li>`, heading and `<blockquote>` erasures leave text without tags unchanged |
| MarkdownToDocx.BasicCleaningErasesParagraph | api/markdown_to_docx.py:315-323 | `<p>t</p>` with `t` free of `<` becomes `t` stripped: both tags are erased and the text is kept |
| MarkdownToDocx.BasicCleaningErasesListItem | api/markdown_to_docx.py:317-323 | `<li>t</li>` with `t` free of `<` becomes `t` stripped |
| MarkdownToDocx.BasicCleaningKeepsFormatting | api/markdown_to_docx.py:310-323 | an inline pair such as `<strong>t</strong>`, `<em>t</em>`, `<i>t</i>` or `<code>t</code>` around text without `<` survives basic cleaning whole, so the formatting patterns can still find it |
| MarkdownToDocx.BasicCleaningKeepsBold | api/markdown_to_docx.py:310-323 | `<b>t</b>` survives basic cleaning whole as well, although `<blockquote.*?>` begins with the same letter |
| Tags.FindOnLine | api/markdown_to_docx.py:266-270 | the closer a lazy `(.*?)` group settles on: the result is an occurrence of the pattern with no newline and no earlier occurrence before it; no result means no occurrence starts before the end of the line |
| MarkdownToDocx.FindAll | api/markdown_to_docx.py:279-280 | every reported match really is the pattern's opener, its content and its closer, at or after the search position; matches do not overlap; each match is lazy (no newline and no earlier closer inside it); every position from the search position on where the pattern could match lies inside a reported match; text without tags has none |
| MarkdownToDocx.SortByStart | api/markdown_to_docx.py:283 | the matches come out sorted by start and are a permutation of the input |
| MarkdownToDocx.InlineMatches | api/markdown_to_docx.py:276-283 | the bold, italic and code matches, each genuine, sorted by start, and exactly (as a multiset) the matches of the five patterns |
| MarkdownToDocx.Assemble | api/markdown_to_docx.py:285-306 | every run carries at most one flag; plain runs are non-empty and hold no tag; the formatted runs are exactly one per match, in order |
| MarkdownToDocx.AssembleJoins | api/markdown_to_docx.py:285-306 | when the stretches before, between and after the matches hold no `<`, the runs' texts laid end to end read as the text with each match replaced by its group: every plain stretch is kept whole, and nothing else is added |
| MarkdownToDocx.SplitFormattedText | api/markdown_to_docx.py:254-308 | the line after basic cleaning, split into runs: one formatted run per inline match in order of start, and non-empty tag-free plain runs around them; when the stretches outside the matches hold no `<`, the runs read as the cleaned line with each match replaced by its group |
| MarkdownToDocx.SplitCleanText | api/markdown_to_docx.py:254-308 | text without tags becomes a single plain run of its stripped self, or no run when it is blank |
| MarkdownToDocx.Runs | api/markdown_to_docx.py:230-252 | every run carries at most one of bold, italic and code; text without markup gives one plain run of itself, or none when it is empty |
| MarkdownToDocx.AddBorder | api/markdown_to_docx.py:109-125 | the border is set exactly when adding it succeeds; a failure is swallowed and leaves style and content unchanged |
| MarkdownToDocx.BulletParagraphs | api/markdown_to_docx.py:209-213 | one 'List Bullet' paragraph per item, holding that item's cleaned text |
| MarkdownToDocx.ParseMarkdownToDocument | api/markdown_to_docx.py:127-228 | the Word paragraphs for markdown2's HTML; it has no contract of its own, and `ScanStep` (first block, then the rest) with the per-block lemmas below characterise it |
| MarkdownToDocx.RenderBlock | api/markdown_to_docx.py:147-226 | the paragraphs of one block; it has no contract of its own, and `HeadingsMapOneToOne`, `CodeBlockParagraph`, `QuoteParagraph`, `ListParagraphs`, `ParagraphLine`, `OtherLine` and `BlankLinesProduceNothing` state them kind by kind |
| MarkdownToDocx.ScanStep | api/markdown_to_docx.py:143-228 | the document is the rendering of the first block followed by the document of the rest of the lines |
| MarkdownToDocx.BlankLinesProduceNothing | api/markdown_to_docx.py:147-149 | input of blank lines produces no paragraph |
| MarkdownToDocx.HeadingsMapOneToOne | api/markdown_to_docx.py:147-162 | input of headings and blank lines gives one paragraph per heading, in order, with the title / heading 2 / heading 3 style and the cleaned text |
| MarkdownToDocx.CodeBlockParagraph | api/markdown_to_docx.py:165-183 | a code block becomes one 'Custom Code' paragraph whose text is the gathered lines joined by newlines, untouched by cleaning |
| MarkdownToDocx.QuoteParagraph | api/markdown_to_docx.py:186-203 | a quote becomes one 'Custom Quote' paragraph with the cleaned joined text and a left border exactly when adding it succeeds |
| MarkdownToDocx.ListParagraphs | api/markdown_to_docx.py:206-213 | a list becomes one bullet paragraph per `<li>` line before its closing line, then scanning continues after the closing line |
| MarkdownToDocx.ParagraphLine | api/markdown_to_docx.py:216-219 | a `<p>` line becomes one 'Custom Normal' paragraph whose runs are formatted from the already cleaned line |
| MarkdownToDocx.ParagraphLineRuns | api/markdown_to_docx.py:216-219 | because the line is cleaned before it is formatted, that paragraph's runs are those of plain text: its bold, italic and code markup is lost |
| MarkdownToDocx.OtherLine | api/markdown_to_docx.py:222-226 | any other non-blank line adds nothing when cleaning leaves it empty, and otherwise a 'Custom Normal' paragraph formatted from the original line |
| MarkdownToPdf.ToReportLabMarkup | api/markdown_to_pdf_reportlab.py:290-292 | the three rewrites in order; it has no contract of its own, and `StrongBecomesBold` and `MarkupFixesTagFree` characterise it |
| MarkdownToPdf.CleanHtmlTags | api/markdown_to_pdf_reportlab.py:265-297 | the result holds no complete tag and is stripped; text without `<` is only stripped |
| MarkdownToPdf.CleanParagraphText | api/markdown_to_pdf_reportlab.py:276-297 | `<p>t</p>` with `t` free of `<` cleans to `t` stripped |
| MarkdownToPdf.CleanListItemText | api/markdown_to_pdf_reportlab.py:278-297 | `<li>t</li>` with `t` free of `<` cleans to `t` stripped |
| MarkdownToPdf.StrongBecomesBold | api/markdown_to_pdf_reportlab.py:290-292 | the three rewrites turn `<strong>t</strong>` on one line into `<b>t</b>` |
| MarkdownToPdf.CleanStrongText | api/markdown_to_pdf_reportlab.py:276-297 | `<strong>t</strong>` on one line cleans to `t` stripped: the bold markup it is rewritten to is removed again by the final tag removal |
| MarkdownToPdf.MarkupFixesTagFree | api/markdown_to_pdf_reportlab.py:290-295 | on text without tags, the rewrites followed by the final tag removal give the text back |
| MarkdownToPdf.CleanHtmlTagsIdempotent | api/markdown_to_pdf_reportlab.py:265-297 | cleaning cleaned text changes nothing |
| MarkdownToPdf.CleanedTextHasNoMarkup | api/markdown_to_pdf_reportlab.py:289-297 | none of the `<b>`, `<i>` or Courier `<font>` markup that the rewrites produce survives in the cleaned text |
| MarkdownToPdf.BulletParagraphs | api/markdown_to_pdf_reportlab.py:234-241 | one 'CustomNormal' paragraph per item: the bullet followed by the item's cleaned text |
| MarkdownToPdf.ParseMarkdownToElements | api/markdown_to_pdf_reportlab.py:116-263 | the story for markdown2's HTML; it has no contract of its own, and `ScanMatchesRender` equates it with the buffer-free `Render` of the parsed blocks |
| MarkdownToPdf.Scan | api/markdown_to_pdf_reportlab.py:141-261 | the buffering loop; it has no contract of its own, and `ScanWithPending`, `ScanMatchesRender` and the per-line lemmas below characterise it |
| MarkdownToPdf.Emit | api/markdown_to_pdf_reportlab.py:152-251 | what a recognised block adds after the flush; it has no contract of its own, and `HeadingLine`, `CodeBlock`, `QuoteBlock`, `ListBlock` and `ParagraphLine` state it kind by kind |
| MarkdownToPdf.Render | api/markdown_to_pdf_reportlab.py:141-261 | the buffer-free reference: each maximal run of buffered texts is one joined paragraph and emitted pieces follow in order; it has no contract of its own, and `ScanMatchesRender` proves the scanner equal to it |
| MarkdownToPdf.Flush | api/markdown_to_pdf_reportlab.py:145-147 | flushing the buffer adds a single paragraph, or nothing when the buffer is empty |
| MarkdownToPdf.FlushedParagraph | api/markdown_to_pdf_reportlab.py:145-147 | a non-empty buffer becomes one 'CustomNormal' paragraph whose text is the buffered texts joined by spaces; a single buffered line is kept as it is |
| MarkdownToPdf.Contribute | api/markdown_to_pdf_reportlab.py:254-255 | only loose lines are buffered; every recognised block emits flowables |
| MarkdownToPdf.ScanWithPending | api/markdown_to_pdf_reportlab.py:141-261 | scanning with lines already buffered equals flushing the buffer together with the next run of loose lines, then rendering the rest |
| MarkdownToPdf.ScanMatchesRender | api/markdown_to_pdf_reportlab.py:141-261 | the buffering scanner's story equals the buffer-free rendering: each maximal run of loose lines becomes one joined paragraph, and each recognised block's flowables follow in order |
| MarkdownToPdf.BlankLineFlushes | api/markdown_to_pdf_reportlab.py:144-149 | a blank line flushes the buffer and adds nothing else |
| MarkdownToPdf.HeadingLine | api/markdown_to_pdf_reportlab.py:152-174 | a heading flushes the buffer and adds its cleaned paragraph in the level's style, then a spacer of 12, 8 or 6 points |
| MarkdownToPdf.CodeBlock | api/markdown_to_pdf_reportlab.py:177-200 | a code block flushes the buffer and adds one preformatted flowable of the gathered lines joined by newlines, then a 12-point spacer |
| MarkdownToPdf.QuoteBlock | api/markdown_to_pdf_reportlab.py:203-223 | a quote flushes the buffer and adds its cleaned 'CustomQuote' paragraph, then a 12-point spacer |
| MarkdownToPdf.ListBlock | api/markdown_to_pdf_reportlab.py:226-242 | a list flushes the buffer and adds its bullet paragraphs, then an 8-point spacer |
| MarkdownToPdf.ParagraphLine | api/markdown_to_pdf_reportlab.py:245-251 | a `<p>` line flushes the buffer and adds its cleaned paragraph, then a 6-point spacer |
| MarkdownToPdf.OtherLineBuffers | api/markdown_to_pdf_reportlab.py:254-255 | any other line adds its cleaned text to the buffer and emits nothing |
| MarkdownToPdf.LooseLinesJoin | api/markdown_to_pdf_reportlab.py:254-261 | a run of unrecognised lines adds nothing to the story by itself: their cleaned texts are appended to the buffer in order |
| MarkdownToPdf.OnlyLooseLines | api/markdown_to_pdf_reportlab.py:254-261 | a non-empty document of unrecognised lines only becomes exactly one paragraph of their cleaned texts joined by spaces |
| MarkdownToPdf.BlankInputIsEmpty | api/markdown_to_pdf_reportlab.py:141-149 | a document of blank lines has an empty story |
| MarkdownToPdf.EndFlushes | api/markdown_to_pdf_reportlab.py:259-261 | at the end of input the buffer is flushed |
| DocxToPdf.HtmlEscape | api/docx_to_pdf.py:68-69 | `html.escape(text, quote=True)`: the result is never shorter than the input, and `UnescapeHtmlEscape` shows nothing is lost |
| DocxToPdf.EscapeSpecialChars | api/docx_to_pdf.py:58-79 | `_escape_special_chars`; it has no contract of its own, and `EscapeSpecialCharsIsPerChar`, `EscapedIsSafe`, `EscapedAmpersandsAreEntities`, `EscapePlainText` and `EscapeRoundTrip` characterise it |
| DocxToPdf.UnescapeHtmlEscape | api/docx_to_pdf.py:68-69 | `html.escape` with quotes is undone by reading the five entities back: the escaping loses nothing |
| DocxToPdf.EscapeSpecialCharsIsPerChar | api/docx_to_pdf.py:58-79 | escaping, then the replacement table, is the same as escaping each character on its own; the empty text stays empty |
| DocxToPdf.EscapedIsSafe | api/docx_to_pdf.py:68-77 | the escaped text holds no `<`, no `>` and none of the replaced characters |
| DocxToPdf.EscapedAmpersandsAreEntities | api/docx_to_pdf.py:68-77 | every `&` in the escaped text starts one of the entities that escaping introduces |
| DocxToPdf.EscapePlainText | api/docx_to_pdf.py:58-79 | text of plain characters passes through unchanged |
| DocxToPdf.EscapeRoundTrip | api/docx_to_pdf.py:58-79 | reading the entities back from the escaped text gives the original, for text without the replaced typographic characters |
| DocxToPdf.CurlyApostrophesMerge | api/docx_to_pdf.py:72-73 | both curly apostrophes become the same straight one, which is why the round trip needs that exclusion |
| DocxToPdf.ParagraphItem | api/docx_to_pdf.py:108-116 | a paragraph keeps its text; it is a title exactly when its lower-cased style name holds 'title', a heading exactly when it holds 'heading' but not 'title', and normal text otherwise |
| DocxToPdf.ParagraphItems | api/docx_to_pdf.py:103-116 | at most one item per paragraph, none of them a table and none whitespace-only; `ParagraphItemsAppend`, `ParagraphItemsOneToOne` and `BlankParagraphsVanish` characterise it |
| DocxToPdf.ParagraphItemsAppend | api/docx_to_pdf.py:103-116 | extracting paragraphs distributes over concatenation |
| DocxToPdf.ParagraphItemsOneToOne | api/docx_to_pdf.py:103-116 | when no paragraph is blank, there is exactly one item per paragraph, in order |
| DocxToPdf.BlankParagraphsVanish | api/docx_to_pdf.py:103-105 | blank paragraphs contribute no item |
| DocxToPdf.EmptyTablesVanish | api/docx_to_pdf.py:119-129 | tables without rows contribute no item |
| DocxToPdf.TableItemsOneToOne | api/docx_to_pdf.py:119-129 | when every table has rows, there is one table item per table, in order, with every cell stripped |
| DocxToPdf.ParagraphsBeforeTables | api/docx_to_pdf.py:103-129 | the items hold every paragraph item first and then every table item |
| DocxToPdf.ExtractText | api/docx_to_pdf.py:81-135 | `extract_text_from_docx`: there is no result exactly when the document is missing or unreadable, and every extracted item is one the PDF step draws; `EmptyDocumentGivesPlaceholder` and `ParagraphsBeforeTables` give the rest |
| DocxToPdf.EmptyDocumentGivesPlaceholder | api/docx_to_pdf.py:99-101 | a document with no paragraphs and no tables yields the single placeholder line as normal text |
| DocxToPdf.Story | api/docx_to_pdf.py:137-194 | the story handed to `doc.build`, item by item; it has no contract of its own, and `ItemStory`, `StoryShape`, `StoryRecoversItems` and `StoryEscaped` characterise it |
| DocxToPdf.ItemStory | api/docx_to_pdf.py:144-186 | a drawable item adds its flowable and then a spacer of the item's height; titles, headings and normal text become paragraphs in the 'CustomTitle', 'CustomHeading' and 'CustomNormal' styles; a table becomes a table of the same shape; a table without rows adds nothing |
| DocxToPdf.ItemStoryRecoversContent | api/docx_to_pdf.py:144-186 | reading the entities back from a paragraph or table cell gives the item's original text, unless that text held one of the replaced typographic characters |
| DocxToPdf.ExtractedItemsDrawable | api/docx_to_pdf.py:119-129 | every extracted item is one the PDF step draws |
| DocxToPdf.StoryShape | api/docx_to_pdf.py:144-186 | the story has two flowables per item, and every second one is the spacer that follows the item; the flowable for an item is a paragraph exactly when the item is not a table |
| DocxToPdf.StoryRecoversItems | api/docx_to_pdf.py:144-186 | the paragraph for each non-table item reads back to that item's text, so the story loses no text apart from the replaced characters |
| DocxToPdf.StoryEscaped | api/docx_to_pdf.py:144-186 | no paragraph and no table cell in the story holds a raw `<` or `>` |
| DocxToPdf.Convert | api/docx_to_pdf.py:196-224 | conversion fails for extraction exactly when the document is missing or yields no items; otherwise it succeeds with the story of the items exactly when the build succeeds, and fails with a build error when it does not |
| DocxToPdf.BlankDocumentFails | api/docx_to_pdf.py:207-210 | a non-empty document whose paragraphs are all blank and whose tables have no rows fails for extraction |
| DocxToPdf.EmptyDocumentConverts | api/docx_to_pdf.py:196-224 | an entirely empty document converts, when the build succeeds, to the placeholder paragraph and a 6-point spacer |
| JsonToExcel.ValidateJsonData | api/json_to_excel.py:175-212 | data is accepted exactly when it is a non-empty list of objects whose key sets all stay within the divergence bound of the first; acceptance carries the success message |
| JsonToExcel.ShapeErrors | api/json_to_excel.py:187-192 | non-lists and the empty list are rejected with their own messages |
| JsonToExcel.FirstNonRecordReported | api/json_to_excel.py:195-197 | the first element that is not an object is reported by its index |
| JsonToExcel.FirstDivergentReported | api/json_to_excel.py:200-207 | when all elements are objects, the first one whose keys diverge is reported by its index |
| JsonToExcel.SameKeysValid | api/json_to_excel.py:200-209 | objects that all share one key set are accepted |
| JsonToExcel.DisjointKeysDiverge | api/json_to_excel.py:201-207 | a record sharing no key with a non-empty first record diverges |
| JsonToExcel.KeysAfterEmptyFirstDiverge | api/json_to_excel.py:201-207 | after an empty first record, any record with keys diverges |
| JsonToExcel.SmallDifferenceTolerated | api/json_to_excel.py:204-207 | a record that adds or drops at most half of the first record's keys is tolerated |
| JsonToExcel.SheetTitle | api/json_to_excel.py:149 | `sheet_name[:31]`: the title is a prefix of the name, of the name's length when that is at most 31 and of length 31 otherwise |
| JsonToExcel.SheetTitleProperties | api/json_to_excel.py:149 | a name of at most 31 characters is kept whole, and truncating a title again changes nothing |
| JsonToExcel.RowPlan | api/json_to_excel.py:86-101 | row 1 is the header; data row k gets the alternate fill exactly when its sheet row number is even |
| JsonToExcel.FilledRowCount | api/json_to_excel.py:93-101 | of n data rows, (n+1)/2 get the alternate fill |
| JsonToExcel.FillAlternates | api/json_to_excel.py:93-101 | consecutive data rows alternate between filled and unfilled |
| JsonToExcel.AdjustedWidth | api/json_to_excel.py:116 | a column's width lies between 10 and 50 and is the longest cell plus two when that is in range |
| JsonToExcel.MaxLength | api/json_to_excel.py:105-111 | the running maximum of the cell lengths: no cell is longer, and it is the length of some cell unless it is 0 |
| JsonToExcel.ColumnWidth | api/json_to_excel.py:104-117 | the loop computes the adjusted width of the longest cell text in the column |
| JsonToExcel.ColumnWidths | api/json_to_excel.py:104-117 | one width per column, each the adjusted width of that column's longest cell |
| JsonToExcel.JsonToExcelFile | api/json_to_excel.py:136-173 | a sheet is produced exactly when the data is a non-empty list, the truncated title is one the workbook library accepts (non-empty, none of `[ ] : * ? / \`) and every other library step succeeds; an empty sheet name therefore produces none; the sheet has the truncated title and one data row per record; formatting is present exactly when requested and successful, with the row plan and each column's adjusted width |
| JsonToExcel.JsonStringToExcel | api/json_to_excel.py:214-241 | text that is not JSON gives no sheet; a sheet is produced exactly when the data passes validation, the truncated title is accepted and the library steps succeed; it then has the truncated title, one data row per record, and formatting exactly when requested and successful |

## Left out

- markdown2 itself: the Markdown converters take markdown2's HTML output as their input.
- Flask, `app.py` and `index.py`: the HTTP layer, file upload and download are outside the conversion logic.
- python-docx, ReportLab and openpyxl internals: fonts, colours, margins, table styles and cell alignment are not modelled. Paragraphs keep only their style names; the table style is one fixed choice.
- Files, temporary files and directories: a Word file that is missing or unreadable becomes `None`. The save outcome and the build outcome are boolean parameters.
- The UTF-8 encode/decode with `errors='ignore'` in extraction is the identity on Dafny strings and is left out.
- Logging and the `print` diagnostics.
- `convert_docx_content_to_pdf`: it only wraps a temporary file around the modelled conversion.
- `json.loads`: `JsonStringToExcel` takes its outcome, the parsed value or `None` for text that is not JSON; the parser itself is not modelled.
- pandas: the DataFrame is represented by its record count and the cell texts of each column. Column order, NaN and `str()` of non-string cells are not modelled.
- JSON numbers are integers; floating point is not modelled.
- The regular expressions are written as deterministic matchers for the patterns the source uses, applied to single lines. They are not a general regular-expression engine.
- `_escape_special_chars` on non-string input (`str(text)` of numbers and similar) is left out; the model takes strings.
- The exception branches of validation and extraction that only guard library failures are left out, except where their outcome is a parameter.
- ParagraphItem: style names are lower-cased for ASCII letters only, not with Python's full Unicode `lower()`.
- AddBorder: one `borderOk` outcome holds for every quote of a document, so a border failing for some quotes and not others is not modelled.
- JsonToExcelFile: formatting is all or nothing (`formatOk`); formatting applied to some rows before an exception is not modelled.
- JsonToExcelFile: the failures of the data frame, the workbook, the row appends and the save are one parameter (`libraryOk`), because that library code is not part of this model; the workbook library's renaming of a title that clashes with an existing sheet name and its warning for long titles are not modelled.
- AssembleJoins and SplitFormattedText: the text of the runs is stated only when the stretches outside the matches hold no `<`; where a stray tag sits between matches, its removal is covered only by the plain runs being tag-free.
- CleanWrappedText, BasicCleaningErasesParagraph, BasicCleaningErasesListItem, BasicCleaningKeepsFormatting, BasicCleaningKeepsBold, CleanParagraphText, CleanListItemText and CleanStrongText: what is kept is stated for one pair of tags around text without `<`, not for arbitrary nesting.
- JsonStringToExcel: it carries the conversion's single `libraryOk` and all-or-nothing `formatOk`, as on the JsonToExcelFile lines above.
