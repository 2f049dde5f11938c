/**
 * The Markdown-to-Word converter's content logic (api/markdown_to_docx.py):
 * tag cleaning, splitting one line into bold / italic / code runs, and the
 * line scanner that turns markdown2's HTML lines into styled Word paragraphs.
 * Word itself is abstracted to a paragraph = style name + runs + left border.
 */
module MarkdownToDocx {
  import opened Text
  import opened Tags
  import opened HtmlBlocks

  // ---------------------------------------------------------------------------
  // Tag cleaning
  // ---------------------------------------------------------------------------

  /** `_clean_html_tags`: every complete tag removed, then the text stripped. */
  function CleanHtmlTags(text: string): (r: string)
    ensures TagFree(r) && IsStripped(r)
    ensures '<' !in text ==> r == Strip(text)
  {
    StripTagsThenStrip(text);
    Strip(StripTags(text))
  }

  lemma StripTagsThenStrip(text: string)
    ensures TagFree(Strip(StripTags(text)))
    ensures '<' !in text ==> StripTags(text) == text
  {
    if '<' !in text {
      NoOpenerIsTagFree(text);
      StripTagsFixesTagFree(text);
    }
    StripKeepsTagFree(StripTags(text));
  }

  /** Cleaned text is a fixed point of cleaning: applying it twice is applying it once. */
  lemma CleanHtmlTagsIdempotent(text: string)
    ensures CleanHtmlTags(CleanHtmlTags(text)) == CleanHtmlTags(text)
  {
    var c := CleanHtmlTags(text);
    StripTagsFixesTagFree(c);
    StripFixesStripped(c);
  }

  /** The erasures of `_clean_basic_tags`, in source order. */
  const BasicRules: seq<Rule> := [
    OpenTag("p"), CloseTag("p"),
    OpenTag("li"), CloseTag("li"),
    HeadingOpen, HeadingClose,
    OpenTag("blockquote"), CloseTag("blockquote")
  ]

  lemma BasicRulesListed()
    ensures |BasicRules| == 8
    ensures BasicRules[0] == OpenTag("p") && BasicRules[1] == CloseTag("p")
    ensures BasicRules[2] == OpenTag("li") && BasicRules[3] == CloseTag("li")
    ensures BasicRules[4] == HeadingOpen && BasicRules[5] == HeadingClose
    ensures BasicRules[6] == OpenTag("blockquote") && BasicRules[7] == CloseTag("blockquote")
    ensures BasicRules[4..] == [HeadingOpen, HeadingClose, OpenTag("blockquote"), CloseTag("blockquote")]
    ensures BasicRules[4..][4..] == []
  {
  }

  lemma BasicRulesWellFormed()
    ensures forall k :: 0 <= k < |BasicRules| ==> WellFormed(BasicRules[k])
  {
    OpenTagWellFormed("p");
    CloseTagWellFormed("p");
    OpenTagWellFormed("li");
    CloseTagWellFormed("li");
    HeadingRulesWellFormed();
    OpenTagWellFormed("blockquote");
    CloseTagWellFormed("blockquote");
  }

  /** `_clean_basic_tags`: block-level tags removed, inline tags kept, then stripped. */
  function CleanBasicTags(text: string): (r: string)
    ensures IsStripped(r)
    ensures TagFree(text) ==> r == Strip(text)
  {
    BasicCleaningFixesTagFree(text);
    Strip(EraseAll(text, BasicRules))
  }

  lemma BasicCleaningFixesTagFree(text: string)
    ensures TagFree(text) ==> EraseAll(text, BasicRules) == text
  {
    if TagFree(text) {
      BasicRulesWellFormed();
      EraseAllFixesTagFree(text, BasicRules);
    }
  }

  /** Text without `<` between two complete tags is cleaned to the stripped text: both tags go, the text stays. */
  lemma CleanWrappedText(open: string, t: string, close: string)
    requires IsTag(open) && IsTag(close) && '<' !in t
    ensures CleanHtmlTags(open + t + close) == Strip(t)
  {
    StripTagsWrapped(open, t, close);
  }

  /** Basic cleaning erases the tags of a `<p>` line around text without `<`. */
  lemma BasicCleaningErasesParagraph(t: string)
    requires '<' !in t
    ensures CleanBasicTags(OpeningTag("p") + t + ClosingTag("p")) == Strip(t)
  {
    BasicRulesWellFormed();
    EraseAllWrapped("p", t, BasicRules);
  }

  /** Basic cleaning erases the tags of an `<li>` line around text without `<`. */
  lemma BasicCleaningErasesListItem(t: string)
    requires '<' !in t
    ensures CleanBasicTags(OpeningTag("li") + t + ClosingTag("li")) == Strip(t)
  {
    var w := OpeningTag("li") + t + ClosingTag("li");
    BasicRulesListed();
    OtherTagsKeep("li", "p", t);
    EraseAllSkipsTwo(w, BasicRules);
    ListItemRulesErase(t);
  }

  /** From the third rule on, the list item pair comes first and erases `<li>t</li>`. */
  lemma ListItemRulesErase(t: string)
    requires '<' !in t
    ensures EraseAll(OpeningTag("li") + t + ClosingTag("li"), BasicRules[2..]) == t
  {
    var tail := BasicRules[2..];
    BasicRulesWellFormed();
    assert forall k :: 0 <= k < |tail| ==> WellFormed(tail[k]);
    assert tail[0] == OpenTag("li") && tail[1] == CloseTag("li");
    EraseAllWrapped("li", t, tail);
  }

  /**
   * An inline formatting pair, such as `<strong>t</strong>`, `<em>t</em>`,
   * `<i>t</i>` or `<code>t</code>`, survives basic cleaning whole: none of the
   * block erasures matches either of its tags.
   */
  lemma BasicCleaningKeepsFormatting(name: string, t: string)
    requires |name| > 0 && name[0] !in {'p', 'l', 'h', 'b', '/'} && '<' !in name && '<' !in t
    ensures CleanBasicTags(OpeningTag(name) + t + ClosingTag(name)) == OpeningTag(name) + t + ClosingTag(name)
  {
    var w := OpeningTag(name) + t + ClosingTag(name);
    OtherTagsKeep(name, "p", t);
    OtherTagsKeep(name, "li", t);
    HeadingRulesKeep(name, t);
    OtherTagsKeep(name, "blockquote", t);
    BasicRulesKeep(w);
    WrappedIsStripped(name, t);
  }

  /** `<b>t</b>` survives basic cleaning whole too, although `<blockquote.*?>` shares its first letter. */
  lemma BasicCleaningKeepsBold(t: string)
    requires '<' !in t
    ensures CleanBasicTags(OpeningTag("b") + t + ClosingTag("b")) == OpeningTag("b") + t + ClosingTag("b")
  {
    var w := OpeningTag("b") + t + ClosingTag("b");
    OtherTagsKeep("b", "p", t);
    OtherTagsKeep("b", "li", t);
    HeadingRulesKeep("b", t);
    BoldKeptByBlockquote(t);
    BasicRulesKeep(w);
    WrappedIsStripped("b", t);
  }

  /** `<blockquote.*?>` and `</blockquote>` differ from `<b>` and `</b>` at their third and fourth characters. */
  lemma BoldKeptByBlockquote(t: string)
    requires '<' !in t
    ensures Erase(OpeningTag("b") + t + ClosingTag("b"), OpenTag("blockquote")) == OpeningTag("b") + t + ClosingTag("b")
    ensures Erase(OpeningTag("b") + t + ClosingTag("b"), CloseTag("blockquote")) == OpeningTag("b") + t + ClosingTag("b")
  {
    OpenTagWellFormed("blockquote");
    CloseTagWellFormed("blockquote");
    BlockquoteHeads();
    MismatchKeepsWrapped("b", t, OpenTag("blockquote"), 2, 1);
    MismatchKeepsWrapped("b", t, CloseTag("blockquote"), 1, 3);
  }

  lemma BlockquoteHeads()
    ensures |OpenTag("blockquote").head| > 2 && OpenTag("blockquote").head[2] == {'l'}
    ensures |CloseTag("blockquote").head| > 3 && CloseTag("blockquote").head[3] == {'l'}
  {
  }

  lemma BasicRulesKeep(w: string)
    requires Erase(w, OpenTag("p")) == w && Erase(w, CloseTag("p")) == w
    requires Erase(w, OpenTag("li")) == w && Erase(w, CloseTag("li")) == w
    requires Erase(w, HeadingOpen) == w && Erase(w, HeadingClose) == w
    requires Erase(w, OpenTag("blockquote")) == w && Erase(w, CloseTag("blockquote")) == w
    ensures EraseAll(w, BasicRules) == w
  {
    BasicRulesListed();
    EraseAllSkipsFour(w, BasicRules);
    EraseAllSkipsFour(w, BasicRules[4..]);
  }

  lemma WrappedIsStripped(name: string, t: string)
    ensures Strip(OpeningTag(name) + t + ClosingTag(name)) == OpeningTag(name) + t + ClosingTag(name)
  {
    var w := OpeningTag(name) + t + ClosingTag(name);
    assert w[0] == '<' && w[|w| - 1] == '>';
    StripFixesStripped(w);
  }

  // ---------------------------------------------------------------------------
  // Inline spans: _split_formatted_text
  // ---------------------------------------------------------------------------

  datatype Format = Bold | Italic | Mono

  /** One of the lazy patterns `<strong>(.*?)</strong>`, ..., and the format its group gets. */
  datatype InlinePattern = InlinePattern(open: string, close: string, format: Format)

  /** The patterns in source order. */
  const InlinePatterns: seq<InlinePattern> := [
    InlinePattern("<strong>", "</strong>", Bold),
    InlinePattern("<b>", "</b>", Bold),
    InlinePattern("<em>", "</em>", Italic),
    InlinePattern("<i>", "</i>", Italic),
    InlinePattern("<code>", "</code>", Mono)
  ]

  lemma InlinePatternsWellFormed()
    ensures forall k :: 0 <= k < |InlinePatterns| ==> PairWellFormed(InlinePatterns[k].open, InlinePatterns[k].close)
    ensures forall k :: 0 <= k < |InlinePatterns| ==> |InlinePatterns[k].open| > 0
  {
  }

  /** A match found by `re.finditer`: its span `[start, end)`, its group and the format of its pattern. */
  datatype Match = Match(start: nat, end: nat, content: string, format: Format)

  /** `m` is a genuine match of `p` in `text`: opener, group, closer, laid end to end. */
  predicate IsMatchOf(text: string, m: Match, p: InlinePattern) {
    && m.start + |p.open| + |m.content| + |p.close| == m.end <= |text|
    && text[m.start..m.start + |p.open|] == p.open
    && m.content == text[m.start + |p.open|..m.end - |p.close|]
    && text[m.end - |p.close|..m.end] == p.close
    && m.format == p.format
  }

  /** Every one of `ms` is a genuine match of `p` starting at `from` or later. */
  predicate GenuineFrom(text: string, ms: seq<Match>, p: InlinePattern, from: nat) {
    forall k :: 0 <= k < |ms| ==> IsMatchOf(text, ms[k], p) && from <= ms[k].start
  }

  /** Each of `ms` ends before the next one starts. */
  predicate NonOverlapping(ms: seq<Match>) {
    forall k :: 0 <= k < |ms| - 1 ==> ms[k].end <= ms[k + 1].start
  }

  /**
   * `m` matched lazily: no newline and no start of the closer lies between
   * the opener and the closer, so the closer is the first one on the line.
   */
  predicate Lazy(text: string, m: Match, p: InlinePattern) {
    forall k :: m.start + |p.open| <= k < m.end - |p.close| && k < |text| ==>
      text[k] != '\n' && !OccursAt(text, p.close, k)
  }

  /** Every one of `ms` matched lazily. */
  predicate AllLazy(text: string, ms: seq<Match>, p: InlinePattern) {
    forall i :: 0 <= i < |ms| ==> Lazy(text, ms[i], p)
  }

  /** Position `k` lies inside one of the spans of `ms`. */
  predicate Covered(ms: seq<Match>, k: nat) {
    exists i :: 0 <= i < |ms| && ms[i].start <= k < ms[i].end
  }

  /** Every position from `from` on where `p` could match lies inside a reported match. */
  predicate Complete(text: string, ms: seq<Match>, p: InlinePattern, from: nat) {
    forall k :: from <= k < |text| && PairAt(text, k, p.open, p.close).Some? ==> Covered(ms, k)
  }

  /** `re.finditer(p, text)` from position `from`: leftmost matches, each search resuming at the previous end. */
  function FindAll(text: string, from: nat, p: InlinePattern): (ms: seq<Match>)
    requires from <= |text| && |p.open| > 0
    ensures GenuineFrom(text, ms, p, from)
    ensures NonOverlapping(ms)
    ensures AllLazy(text, ms, p)
    ensures Complete(text, ms, p, from)
    ensures TagFree(text) && PairWellFormed(p.open, p.close) ==> ms == []
    decreases |text| - from
  {
    if from == |text| then []
    else match PairAt(text, from, p.open, p.close)
      case Some(j) =>
        PairMatchIsTag(text, from, p);
        var m := Match(from, j + |p.close|, text[from + |p.open|..j], p.format);
        PairMatchIsMatch(text, from, p, j, m);
        var rest := FindAll(text, j + |p.close|, p);
        MatchesCons(text, from, p, m, rest);
        LazyCons(text, from, p, j, m, rest);
        CompleteCons(text, from, p, m, rest);
        [m] + rest
      case None =>
        var rest := FindAll(text, from + 1, p);
        CompleteSkip(text, from, p, rest);
        rest
  }

  /** A lazily matched head in front of lazily matched matches. */
  lemma LazyCons(text: string, from: nat, p: InlinePattern, j: nat, m: Match, rest: seq<Match>)
    requires PairAt(text, from, p.open, p.close).Some? && PairAt(text, from, p.open, p.close).value == j
    requires m.start == from && m.end == j + |p.close|
    requires AllLazy(text, rest, p)
    ensures AllLazy(text, [m] + rest, p)
  {
    assert Lazy(text, m, p);
    assert forall k :: 0 < k < |[m] + rest| ==> ([m] + rest)[k] == rest[k - 1];
  }

  /** A head match covering `[from, m.end)` in front of matches complete from `m.end`. */
  lemma CompleteCons(text: string, from: nat, p: InlinePattern, m: Match, rest: seq<Match>)
    requires m.start == from <= m.end
    requires Complete(text, rest, p, m.end)
    ensures Complete(text, [m] + rest, p, from)
  {
    var ms := [m] + rest;
    forall k | from <= k < |text| && PairAt(text, k, p.open, p.close).Some?
      ensures Covered(ms, k)
    {
      if k < m.end {
        assert ms[0].start <= k < ms[0].end;
      } else {
        var i :| 0 <= i < |rest| && rest[i].start <= k < rest[i].end;
        assert ms[i + 1] == rest[i];
      }
    }
  }

  /** Where no match starts at `from`, matches complete from `from + 1` are complete from `from`. */
  lemma CompleteSkip(text: string, from: nat, p: InlinePattern, rest: seq<Match>)
    requires PairAt(text, from, p.open, p.close).None?
    requires Complete(text, rest, p, from + 1)
    ensures Complete(text, rest, p, from)
  {
  }

  lemma PairMatchIsMatch(text: string, from: nat, p: InlinePattern, j: nat, m: Match)
    requires PairAt(text, from, p.open, p.close).Some? && PairAt(text, from, p.open, p.close).value == j
    requires j <= |text| && from + |p.open| <= j
    requires m == Match(from, j + |p.close|, text[from + |p.open|..j], p.format)
    ensures IsMatchOf(text, m, p)
  {
  }

  /** A match in front of later, non-overlapping matches keeps them all genuine and in order. */
  lemma MatchesCons(text: string, from: nat, p: InlinePattern, m: Match, rest: seq<Match>)
    requires IsMatchOf(text, m, p) && from <= m.start
    requires GenuineFrom(text, rest, p, m.end) && NonOverlapping(rest)
    ensures GenuineFrom(text, [m] + rest, p, from) && NonOverlapping([m] + rest)
  {
    assert forall k :: 0 < k < |[m] + rest| ==> ([m] + rest)[k] == rest[k - 1];
  }

  lemma PairMatchIsTag(text: string, from: nat, p: InlinePattern)
    requires PairAt(text, from, p.open, p.close).Some?
    ensures PairWellFormed(p.open, p.close) ==> !TagFree(text)
  {
    if PairWellFormed(p.open, p.close) {
      PairIsTag(text, from, p.open, p.close);
    }
  }

  /** `m` is a genuine match of one of the patterns `ps`. */
  predicate MatchOfSome(text: string, m: Match, ps: seq<InlinePattern>) {
    exists j :: 0 <= j < |ps| && IsMatchOf(text, m, ps[j])
  }

  /** The matches of every pattern, pattern by pattern, as `matches.append` collects them. */
  function AllMatches(text: string, ps: seq<InlinePattern>): (ms: seq<Match>)
    requires forall k :: 0 <= k < |ps| ==> |ps[k].open| > 0
    ensures forall m :: m in ms ==> MatchOfSome(text, m, ps)
    ensures TagFree(text) && (forall k :: 0 <= k < |ps| ==> PairWellFormed(ps[k].open, ps[k].close)) ==> ms == []
    decreases |ps|
  {
    if |ps| == 0 then []
    else
      var here := FindAll(text, 0, ps[0]);
      var rest := AllMatches(text, ps[1..]);
      assert forall m :: m in rest ==> MatchOfSome(text, m, ps) by {
        forall m | m in rest ensures MatchOfSome(text, m, ps) {
          var k :| 0 <= k < |ps[1..]| && IsMatchOf(text, m, ps[1..][k]);
          assert IsMatchOf(text, m, ps[k + 1]);
        }
      }
      here + rest
  }

  predicate SortedByStart(ms: seq<Match>) {
    forall a, b :: 0 <= a < b < |ms| ==> ms[a].start <= ms[b].start
  }

  function Insert(m: Match, ms: seq<Match>): (r: seq<Match>)
    requires SortedByStart(ms)
    ensures SortedByStart(r)
    ensures multiset(r) == multiset(ms) + multiset{m}
    ensures forall x :: x in r ==> x in ms || x == m
    decreases |ms|
  {
    if |ms| == 0 || m.start <= ms[0].start then [m] + ms
    else
      var rest := Insert(m, ms[1..]);
      InsertBehind(m, ms, rest);
      [ms[0]] + rest
  }

  /** Keeping the head in front of the insertion into the tail keeps the order and the contents. */
  lemma InsertBehind(m: Match, ms: seq<Match>, rest: seq<Match>)
    requires |ms| > 0 && SortedByStart(ms) && ms[0].start < m.start
    requires SortedByStart(rest) && multiset(rest) == multiset(ms[1..]) + multiset{m}
    requires forall x :: x in rest ==> x in ms[1..] || x == m
    ensures SortedByStart([ms[0]] + rest)
    ensures multiset([ms[0]] + rest) == multiset(ms) + multiset{m}
    ensures forall x :: x in [ms[0]] + rest ==> x in ms || x == m
  {
    assert ms == [ms[0]] + ms[1..];
    assert forall x :: x in rest ==> ms[0].start <= x.start;
    ConsSorted(ms[0], rest);
  }

  lemma ConsSorted(m: Match, ms: seq<Match>)
    requires SortedByStart(ms)
    requires forall x :: x in ms ==> m.start <= x.start
    ensures SortedByStart([m] + ms)
  {
    forall a, b | 0 <= a < b < |[m] + ms| ensures ([m] + ms)[a].start <= ([m] + ms)[b].start {
      if a > 0 {
        assert ([m] + ms)[a] == ms[a - 1];
      }
      assert ([m] + ms)[b] == ms[b - 1];
    }
  }

  /** `matches.sort()`: the same matches, by increasing start. */
  function SortByStart(ms: seq<Match>): (r: seq<Match>)
    ensures SortedByStart(r)
    ensures multiset(r) == multiset(ms)
    decreases |ms|
  {
    if |ms| == 0 then []
    else
      assert ms == [ms[0]] + ms[1..];
      Insert(ms[0], SortByStart(ms[1..]))
  }

  /** Every inline match of a line, in the order `_split_formatted_text` visits them. */
  function InlineMatches(text: string): (ms: seq<Match>)
    ensures SortedByStart(ms)
    ensures forall k :: 0 <= k < |ms| ==> MatchOfSome(text, ms[k], InlinePatterns)
    ensures multiset(ms) == multiset(AllMatches(text, InlinePatterns))
    ensures forall k :: 0 <= k < |ms| ==> ms[k].start <= ms[k].end <= |text|
  {
    InlinePatternsWellFormed();
    SortedMatches(text, InlinePatterns)
  }

  function SortedMatches(text: string, ps: seq<InlinePattern>): (ms: seq<Match>)
    requires forall k :: 0 <= k < |ps| ==> |ps[k].open| > 0
    ensures SortedByStart(ms)
    ensures forall k :: 0 <= k < |ms| ==> MatchOfSome(text, ms[k], ps)
    ensures multiset(ms) == multiset(AllMatches(text, ps))
    ensures forall k :: 0 <= k < |ms| ==> ms[k].start <= ms[k].end <= |text|
  {
    var found := AllMatches(text, ps);
    var ms := SortByStart(found);
    ReorderedMatches(text, ps, found, ms);
    ms
  }

  /** Reordering genuine matches keeps them genuine, and so within the text. */
  lemma ReorderedMatches(text: string, ps: seq<InlinePattern>, found: seq<Match>, ms: seq<Match>)
    requires forall m :: m in found ==> MatchOfSome(text, m, ps)
    requires multiset(ms) == multiset(found)
    ensures forall k :: 0 <= k < |ms| ==> MatchOfSome(text, ms[k], ps)
    ensures forall k :: 0 <= k < |ms| ==> ms[k].start <= ms[k].end <= |text|
  {
    SameMembers(found, ms);
    forall k | 0 <= k < |ms| ensures MatchOfSome(text, ms[k], ps) {
      assert ms[k] in found;
    }
    forall k | 0 <= k < |ms| ensures ms[k].start <= ms[k].end <= |text| {
      var j :| 0 <= j < |ps| && IsMatchOf(text, ms[k], ps[j]);
    }
  }

  lemma SameMembers(a: seq<Match>, b: seq<Match>)
    requires multiset(a) == multiset(b)
    ensures forall m :: m in b ==> m in a
  {
    forall m | m in b ensures m in a {
      assert m in multiset(b);
    }
  }

  /**
   * A Word run. `code` runs are set in 'Courier New' 9 pt; `bold` and `italic`
   * set the run's own flags; a run with none of them inherits the paragraph style.
   */
  datatype Run = Run(text: string, bold: bool, italic: bool, code: bool)

  predicate IsPlain(r: Run) {
    !r.bold && !r.italic && !r.code
  }

  predicate AtMostOneFlag(r: Run) {
    (if r.bold then 1 else 0) + (if r.italic then 1 else 0) + (if r.code then 1 else 0) <= 1
  }

  /** The part a match contributes: its group, flagged by its pattern's format. */
  function FormattedRun(m: Match): (r: Run)
    ensures !IsPlain(r) && AtMostOneFlag(r)
  {
    Run(m.content, m.format == Bold, m.format == Italic, m.format == Mono)
  }

  function FormattedRuns(ms: seq<Match>): (rs: seq<Run>)
    ensures |rs| == |ms|
    ensures forall k :: 0 <= k < |ms| ==> rs[k] == FormattedRun(ms[k])
  {
    if |ms| == 0 then [] else [FormattedRun(ms[0])] + FormattedRuns(ms[1..])
  }

  /** The formatted runs among `rs`, in order. */
  function Formatted(rs: seq<Run>): seq<Run> {
    if |rs| == 0 then [] else (if IsPlain(rs[0]) then [] else [rs[0]]) + Formatted(rs[1..])
  }

  lemma {:induction false} FormattedAppend(a: seq<Run>, b: seq<Run>)
    ensures Formatted(a + b) == Formatted(a) + Formatted(b)
    decreases |a|
  {
    if |a| == 0 {
      assert a + b == b;
    } else {
      assert (a + b)[0] == a[0] && (a + b)[1..] == a[1..] + b;
      FormattedAppend(a[1..], b);
    }
  }

  /** The plain part for a stretch of text between matches: its tags removed, dropped when nothing is left. */
  function PlainRuns(s: string): (rs: seq<Run>)
    ensures |rs| <= 1
    ensures forall k :: 0 <= k < |rs| ==> IsPlain(rs[k]) && rs[k].text != "" && TagFree(rs[k].text)
  {
    var t := StripTags(s);
    if t == "" then [] else [Run(t, false, false, false)]
  }

  /** The `for start, end, content, format_type in matches` loop and the trailing text after it. */
  function Assemble(text: string, ms: seq<Match>, cur: nat): (rs: seq<Run>)
    requires cur <= |text|
    requires forall k :: 0 <= k < |ms| ==> ms[k].start <= ms[k].end <= |text|
    ensures forall k :: 0 <= k < |rs| ==> AtMostOneFlag(rs[k])
    ensures forall k :: 0 <= k < |rs| && IsPlain(rs[k]) ==> rs[k].text != "" && TagFree(rs[k].text)
    ensures Formatted(rs) == FormattedRuns(ms)
    decreases |ms|
  {
    if |ms| == 0 then
      var rs := if cur < |text| then PlainRuns(text[cur..]) else [];
      PlainRunsUnformatted(rs);
      rs
    else
      var m := ms[0];
      var before := if m.start > cur then PlainRuns(text[cur..m.start]) else [];
      var rest := Assemble(text, ms[1..], m.end);
      AssembleStep(ms, before, rest);
      before + [FormattedRun(m)] + rest
  }

  /** At most one plain run contributes no formatted run. */
  lemma PlainRunsUnformatted(rs: seq<Run>)
    requires |rs| <= 1 && forall k :: 0 <= k < |rs| ==> IsPlain(rs[k])
    ensures Formatted(rs) == []
  {
    if |rs| == 1 {
      assert rs[1..] == [];
    }
  }

  /** One step of the loop: the plain text before a match, the match's run, then the runs of the rest. */
  lemma AssembleStep(ms: seq<Match>, before: seq<Run>, rest: seq<Run>)
    requires |ms| > 0 && |before| <= 1
    requires forall k :: 0 <= k < |before| ==> IsPlain(before[k]) && before[k].text != "" && TagFree(before[k].text)
    requires forall k :: 0 <= k < |rest| ==> AtMostOneFlag(rest[k])
    requires forall k :: 0 <= k < |rest| && IsPlain(rest[k]) ==> rest[k].text != "" && TagFree(rest[k].text)
    requires Formatted(rest) == FormattedRuns(ms[1..])
    ensures var rs := before + [FormattedRun(ms[0])] + rest;
            && (forall k :: 0 <= k < |rs| ==> AtMostOneFlag(rs[k]))
            && (forall k :: 0 <= k < |rs| && IsPlain(rs[k]) ==> rs[k].text != "" && TagFree(rs[k].text))
            && Formatted(rs) == FormattedRuns(ms)
  {
    AssembleStepFormatted(ms, before, rest);
    AssembleStepRuns(before, FormattedRun(ms[0]), rest);
  }

  lemma AssembleStepFormatted(ms: seq<Match>, before: seq<Run>, rest: seq<Run>)
    requires |ms| > 0 && |before| <= 1
    requires forall k :: 0 <= k < |before| ==> IsPlain(before[k])
    requires Formatted(rest) == FormattedRuns(ms[1..])
    ensures Formatted(before + [FormattedRun(ms[0])] + rest) == FormattedRuns(ms)
  {
    var r := FormattedRun(ms[0]);
    PlainRunsUnformatted(before);
    FormattedSingle(r);
    FormattedAppend(before, [r]);
    assert Formatted(before + [r]) == [r];
    FormattedAppend(before + [r], rest);
  }

  lemma FormattedSingle(r: Run)
    requires !IsPlain(r)
    ensures Formatted([r]) == [r]
  {
    assert [r][1..] == [];
  }

  lemma AssembleStepRuns(before: seq<Run>, r: Run, rest: seq<Run>)
    requires AtMostOneFlag(r)
    requires forall k :: 0 <= k < |before| ==> IsPlain(before[k]) && before[k].text != "" && TagFree(before[k].text)
    requires forall k :: 0 <= k < |rest| ==> AtMostOneFlag(rest[k])
    requires forall k :: 0 <= k < |rest| && IsPlain(rest[k]) ==> rest[k].text != "" && TagFree(rest[k].text)
    requires IsPlain(r) ==> r.text != "" && TagFree(r.text)
    ensures var rs := before + [r] + rest;
            && (forall k :: 0 <= k < |rs| ==> AtMostOneFlag(rs[k]))
            && (forall k :: 0 <= k < |rs| && IsPlain(rs[k]) ==> rs[k].text != "" && TagFree(rs[k].text))
  {
    var rs := before + [r] + rest;
    forall k | 0 <= k < |rs|
      ensures AtMostOneFlag(rs[k])
      ensures IsPlain(rs[k]) ==> rs[k].text != "" && TagFree(rs[k].text)
    {
      if k < |before| {
        assert rs[k] == before[k];
      } else if k > |before| {
        assert rs[k] == rest[k - |before| - 1];
      }
    }
  }

  /**
   * `_split_formatted_text`. Every run carries at most one of bold / italic /
   * code; every plain run is non-empty and tag-free; and the formatted runs are
   * exactly the groups of the inline matches, one each, by increasing start.
   */
  function SplitFormattedText(text: string): (rs: seq<Run>)
    ensures forall k :: 0 <= k < |rs| ==> AtMostOneFlag(rs[k])
    ensures forall k :: 0 <= k < |rs| && IsPlain(rs[k]) ==> rs[k].text != "" && TagFree(rs[k].text)
    ensures Formatted(rs) == FormattedRuns(InlineMatches(CleanBasicTags(text)))
    ensures var t := CleanBasicTags(text);
            PlainGaps(t, InlineMatches(t), 0) ==> RunText(rs) == Substituted(t, InlineMatches(t), 0)
  {
    var t := CleanBasicTags(text);
    var ms := InlineMatches(t);
    AssembleJoinsFromStart(t, ms);
    Assemble(t, ms, 0)
  }

  /** The runs' texts, laid end to end: what the paragraph reads as. */
  function RunText(rs: seq<Run>): string {
    if |rs| == 0 then "" else rs[0].text + RunText(rs[1..])
  }

  lemma {:induction false} RunTextAppend(a: seq<Run>, b: seq<Run>)
    ensures RunText(a + b) == RunText(a) + RunText(b)
    decreases |a|
  {
    if |a| == 0 {
      assert a + b == b;
    } else {
      assert (a + b)[0] == a[0] && (a + b)[1..] == a[1..] + b;
      RunTextAppend(a[1..], b);
    }
  }

  /**
   * From `cur` on, the matches follow one another without overlapping and
   * every stretch of `text` outside them is free of `<`.
   */
  predicate PlainGaps(text: string, ms: seq<Match>, cur: nat)
    decreases |ms|
  {
    && cur <= |text|
    && if |ms| == 0 then '<' !in text[cur..]
       else
         && cur <= ms[0].start <= ms[0].end <= |text|
         && '<' !in text[cur..ms[0].start]
         && PlainGaps(text, ms[1..], ms[0].end)
  }

  /** `text` from `cur` on with every match replaced by its group. */
  function Substituted(text: string, ms: seq<Match>, cur: nat): string
    requires PlainGaps(text, ms, cur)
    decreases |ms|
  {
    if |ms| == 0 then text[cur..]
    else text[cur..ms[0].start] + ms[0].content + Substituted(text, ms[1..], ms[0].end)
  }

  /** A stretch without `<` becomes one plain run holding it, or none when it is empty. */
  lemma PlainRunsKeepText(s: string)
    requires '<' !in s
    ensures RunText(PlainRuns(s)) == s
  {
    NoOpenerIsTagFree(s);
    StripTagsFixesTagFree(s);
  }

  /**
   * With plain stretches between the matches, the runs read as the text with
   * each match replaced by its group: the stretches are kept whole and the
   * tags of each match give way to its content.
   */
  lemma {:induction false} AssembleJoins(text: string, ms: seq<Match>, cur: nat)
    requires PlainGaps(text, ms, cur)
    requires forall k :: 0 <= k < |ms| ==> ms[k].start <= ms[k].end <= |text|
    ensures RunText(Assemble(text, ms, cur)) == Substituted(text, ms, cur)
    decreases |ms|
  {
    if |ms| == 0 {
      PlainRunsKeepText(text[cur..]);
    } else {
      var m := ms[0];
      var before := if m.start > cur then PlainRuns(text[cur..m.start]) else [];
      var rest := Assemble(text, ms[1..], m.end);
      PlainRunsKeepText(text[cur..m.start]);
      assert RunText(before) == text[cur..m.start];
      AssembleJoins(text, ms[1..], m.end);
      RunTextAppend(before, [FormattedRun(m)]);
      RunTextAppend(before + [FormattedRun(m)], rest);
      assert RunText([FormattedRun(m)]) == m.content;
    }
  }

  lemma AssembleJoinsFromStart(text: string, ms: seq<Match>)
    requires forall k :: 0 <= k < |ms| ==> ms[k].start <= ms[k].end <= |text|
    ensures PlainGaps(text, ms, 0) ==> RunText(Assemble(text, ms, 0)) == Substituted(text, ms, 0)
  {
    if PlainGaps(text, ms, 0) {
      AssembleJoins(text, ms, 0);
    }
  }

  /**
   * Splitting text that is already clean (tag-free and stripped) finds no
   * match, so it yields the text itself as one plain run, or nothing when the
   * text is empty.
   */
  lemma SplitCleanText(text: string)
    requires TagFree(text) && IsStripped(text)
    ensures SplitFormattedText(text) == if text == "" then [] else [Run(text, false, false, false)]
  {
    BasicCleaningFixesCleanText(text);
    NoInlineMatchInTagFree(text);
    AssembleWithoutMatches(text);
  }

  lemma BasicCleaningFixesCleanText(text: string)
    requires TagFree(text) && IsStripped(text)
    ensures CleanBasicTags(text) == text
  {
    StripFixesStripped(text);
  }

  lemma NoInlineMatchInTagFree(text: string)
    requires TagFree(text)
    ensures InlineMatches(text) == []
  {
    InlinePatternsWellFormed();
    assert AllMatches(text, InlinePatterns) == [];
    var ms := InlineMatches(text);
    assert |multiset(ms)| == 0;
  }

  lemma AssembleWithoutMatches(text: string)
    requires TagFree(text)
    ensures Assemble(text, [], 0) == if text == "" then [] else [Run(text, false, false, false)]
  {
    StripTagsFixesTagFree(text);
    if text != "" {
      assert text[0..] == text;
    }
  }

  // ---------------------------------------------------------------------------
  // Paragraphs
  // ---------------------------------------------------------------------------

  const TitleStyle := "Custom Title"
  const Heading2Style := "Custom Heading 2"
  const Heading3Style := "Custom Heading 3"
  const NormalStyle := "Custom Normal"
  const CodeStyle := "Custom Code"
  const QuoteStyle := "Custom Quote"
  const BulletStyle := "List Bullet"

  /**
   * What fills a paragraph: text added as it is (`add_paragraph(text, style)`),
   * or text handed to `_apply_text_formatting`, which splits it into runs.
   */
  datatype Content = PlainText(text: string) | MarkedUp(original: string)

  /** A Word paragraph: its style name, its content, and whether it carries the left quote border. */
  datatype Paragraph = Paragraph(style: string, content: Content, leftBorder: bool)

  /**
   * The runs a paragraph ends up with. Plain text is one run holding the text,
   * none for empty text; `_apply_text_formatting` clears the paragraph and adds
   * the parts of `_split_formatted_text`, one run each.
   */
  function Runs(c: Content): (rs: seq<Run>)
    ensures forall k :: 0 <= k < |rs| ==> AtMostOneFlag(rs[k])
    ensures c.PlainText? ==> forall k :: 0 <= k < |rs| ==> IsPlain(rs[k]) && rs[k].text == c.text
    ensures c.PlainText? ==> |rs| == (if c.text == "" then 0 else 1)
  {
    match c
    case PlainText(t) => if t == "" then [] else [Run(t, false, false, false)]
    case MarkedUp(o) => SplitFormattedText(o)
  }

  function PlainParagraph(style: string, text: string): Paragraph {
    Paragraph(style, PlainText(text), false)
  }

  function FormattedParagraph(style: string, original: string): Paragraph {
    Paragraph(style, MarkedUp(original), false)
  }

  /**
   * `_add_border_to_paragraph`: a best-effort edit whose failure is swallowed.
   * `ok` says whether the XML edit went through; either way the paragraph
   * keeps its style and content.
   */
  function AddBorder(p: Paragraph, ok: bool): (q: Paragraph)
    ensures q.style == p.style && q.content == p.content
    ensures q.leftBorder == (p.leftBorder || ok)
  {
    if ok then p.(leftBorder := true) else p
  }

  function HeadingStyle(level: Level): string {
    if level == 1 then TitleStyle else if level == 2 then Heading2Style else Heading3Style
  }

  /** One 'List Bullet' paragraph per list item, holding the item's cleaned text. */
  function BulletParagraphs(items: seq<string>): (ps: seq<Paragraph>)
    ensures |ps| == |items|
    ensures forall k :: 0 <= k < |items| ==> ps[k] == PlainParagraph(BulletStyle, CleanHtmlTags(items[k]))
  {
    if |items| == 0 then [] else [PlainParagraph(BulletStyle, CleanHtmlTags(items[0]))] + BulletParagraphs(items[1..])
  }

  /** The paragraphs Word receives for one block. */
  function RenderBlock(b: Block, borderOk: bool): seq<Paragraph> {
    match b
    case BlankLine => []
    case Heading(level, line) => [PlainParagraph(HeadingStyle(level), CleanHtmlTags(line))]
    case Code(content) => [PlainParagraph(CodeStyle, content)]
    case Quote(content) => [AddBorder(PlainParagraph(QuoteStyle, CleanHtmlTags(content)), borderOk)]
    case Items(items) => BulletParagraphs(items)
    case Para(line) => [FormattedParagraph(NormalStyle, CleanHtmlTags(line))]
    case Loose(line) => if CleanHtmlTags(line) != "" then [FormattedParagraph(NormalStyle, line)] else []
  }

  function RenderBlocks(bs: seq<Block>, borderOk: bool): seq<Paragraph>
    decreases |bs|
  {
    if |bs| == 0 then [] else RenderBlock(bs[0], borderOk) + RenderBlocks(bs[1..], borderOk)
  }

  /** The `while i < len(lines)` loop of `_parse_markdown_to_document`, from line `i` on. */
  function ScanFrom(lines: seq<string>, i: nat, borderOk: bool): seq<Paragraph> {
    RenderBlocks(Parse(lines, i), borderOk)
  }

  /** `_parse_markdown_to_document` applied to markdown2's HTML output. */
  function ParseMarkdownToDocument(html: string, borderOk: bool): seq<Paragraph> {
    ScanFrom(SplitLines(html), 0, borderOk)
  }

  /** Scanning emits the block at `i` first and then carries on after it. */
  lemma ScanStep(lines: seq<string>, i: nat, borderOk: bool)
    requires i < |lines|
    ensures ScanFrom(lines, i, borderOk) == RenderBlock(Step(lines, i).0, borderOk) + ScanFrom(lines, Step(lines, i).1, borderOk)
  {
    var bs := Parse(lines, i);
    assert bs[0] == Step(lines, i).0 && bs[1..] == Parse(lines, Step(lines, i).1);
  }

  // ---------------------------------------------------------------------------
  // What the scanner promises
  // ---------------------------------------------------------------------------

  /** Blank lines produce nothing: a document of whitespace-only lines has no paragraph. */
  lemma {:induction false} BlankLinesProduceNothing(lines: seq<string>, i: nat, borderOk: bool)
    requires forall j :: i <= j < |lines| ==> AllSpace(lines[j])
    ensures ScanFrom(lines, i, borderOk) == []
    decreases |lines| - i
  {
    if i < |lines| {
      StripEmptyIffAllSpace(lines[i]);
      ScanStep(lines, i, borderOk);
      BlankLinesProduceNothing(lines, i + 1, borderOk);
    }
  }

  /** The stripped non-blank lines of `lines[i..]`, in order. */
  function NonBlank(lines: seq<string>, i: nat): seq<string>
    decreases |lines| - i
  {
    if i >= |lines| then []
    else (if Strip(lines[i]) == "" then [] else [Strip(lines[i])]) + NonBlank(lines, i + 1)
  }

  /** A line that forms a block on its own emits that block's paragraphs and scanning goes on at the next line. */
  lemma ScanLine(lines: seq<string>, i: nat, borderOk: bool)
    requires i < |lines| && SingleLine(Kind(Strip(lines[i])))
    ensures ScanFrom(lines, i, borderOk) == RenderBlock(LineBlock(Strip(lines[i])), borderOk) + ScanFrom(lines, i + 1, borderOk)
  {
    ScanStep(lines, i, borderOk);
  }

  /** The paragraph a heading line becomes: its level's style, its cleaned text. */
  function HeadingParagraph(line: string): Paragraph
    requires Kind(line).HeadingLine?
  {
    PlainParagraph(HeadingStyle(Kind(line).level), CleanHtmlTags(line))
  }

  /** `p` is the paragraph of heading line `line`. */
  predicate IsHeadingParagraphOf(p: Paragraph, line: string) {
    Kind(line).HeadingLine? && p == HeadingParagraph(line)
  }

  /**
   * In a stretch of heading lines and blank lines, heading lines map one to
   * one, in order, to 'Custom Title' / 'Custom Heading 2' / 'Custom Heading 3'
   * paragraphs of their cleaned text, and blank lines produce nothing.
   */
  lemma {:induction false} HeadingsMapOneToOne(lines: seq<string>, i: nat, borderOk: bool)
    requires forall j :: i <= j < |lines| ==> Kind(Strip(lines[j])).Blank? || Kind(Strip(lines[j])).HeadingLine?
    ensures |ScanFrom(lines, i, borderOk)| == |NonBlank(lines, i)|
    ensures forall k :: 0 <= k < |NonBlank(lines, i)| ==>
              IsHeadingParagraphOf(ScanFrom(lines, i, borderOk)[k], NonBlank(lines, i)[k])
    decreases |lines| - i
  {
    if i < |lines| {
      var line := Strip(lines[i]);
      ScanLine(lines, i, borderOk);
      RenderHeadingOrBlank(line, borderOk);
      HeadingsMapOneToOne(lines, i + 1, borderOk);
      var rest := ScanFrom(lines, i + 1, borderOk);
      var hs := NonBlank(lines, i + 1);
      if line == "" {
        assert NonBlank(lines, i) == hs;
        assert ScanFrom(lines, i, borderOk) == rest;
      } else {
        assert NonBlank(lines, i) == [line] + hs;
        ConsPointwise(IsHeadingParagraphOf, HeadingParagraph(line), rest, line, hs);
      }
    }
  }

  lemma RenderHeadingOrBlank(line: string, borderOk: bool)
    requires Kind(line).Blank? || Kind(line).HeadingLine?
    ensures line == "" ==> RenderBlock(LineBlock(line), borderOk) == []
    ensures line != "" ==> Kind(line).HeadingLine? && RenderBlock(LineBlock(line), borderOk) == [HeadingParagraph(line)]
  {
  }

  /** Two sequences related element by element stay so when each grows by a related pair at the front. */
  lemma ConsPointwise<A, B>(rel: (A, B) -> bool, p: A, ps: seq<A>, h: B, hs: seq<B>)
    requires rel(p, h) && |ps| == |hs|
    requires forall k :: 0 <= k < |hs| ==> rel(ps[k], hs[k])
    ensures forall k :: 0 <= k < |[h] + hs| ==> rel(([p] + ps)[k], ([h] + hs)[k])
  {
    forall k | 0 <= k < |[h] + hs| ensures rel(([p] + ps)[k], ([h] + hs)[k]) {
      if k > 0 {
        assert ([p] + ps)[k] == ps[k - 1] && ([h] + hs)[k] == hs[k - 1];
      }
    }
  }

  /**
   * A multi-line code block becomes one 'Custom Code' paragraph: its lines
   * joined by '\n', markers removed, up to the first line ending with
   * `</code></pre>`, or to the end of the input when no line does.
   */
  lemma CodeBlockParagraph(lines: seq<string>, i: nat, k: nat, borderOk: bool)
    requires i < |lines| && Kind(Strip(lines[i])) == CodeOpen && !EndsWith(Strip(lines[i]), CodeCloser)
    requires IsFirstCloser(lines, i + 1, k, CodeEnd)
    ensures ScanFrom(lines, i, borderOk)
         == [PlainParagraph(CodeStyle, Join(Gather(lines, i, k, CodeOpener, CodeCloser), "\n"))]
          + ScanFrom(lines, After(lines, k), borderOk)
  {
    StepCodeBlock(lines, i, k);
    ScanStep(lines, i, borderOk);
  }

  /**
   * A multi-line blockquote becomes one 'Custom Quote' paragraph of its lines
   * joined by ' ' and then tag-cleaned; the paragraph is emitted whether or
   * not the border could be added, and carries the border exactly when it could.
   */
  lemma QuoteParagraph(lines: seq<string>, i: nat, k: nat, borderOk: bool)
    requires i < |lines| && Kind(Strip(lines[i])) == QuoteOpen && !EndsWith(Strip(lines[i]), QuoteCloser)
    requires IsFirstCloser(lines, i + 1, k, QuoteEnd)
    ensures ScanFrom(lines, i, borderOk)
         == [PlainParagraph(QuoteStyle, CleanHtmlTags(Join(Gather(lines, i, k, QuoteOpener, QuoteCloser), " "))).(leftBorder := borderOk)]
          + ScanFrom(lines, After(lines, k), borderOk)
  {
    StepQuoteBlock(lines, i, k);
    ScanStep(lines, i, borderOk);
  }

  /**
   * A list yields exactly one 'List Bullet' paragraph for each line starting
   * with `<li>` between its opening line and the first `</ul>` / `</ol>` line,
   * in order, holding that line's cleaned text; scanning then resumes after
   * the closing line.
   */
  lemma ListParagraphs(lines: seq<string>, i: nat, k: nat, borderOk: bool)
    requires i < |lines| && Kind(Strip(lines[i])) == ListOpen
    requires IsFirstCloser(lines, i + 1, k, ListEnd)
    ensures |ItemLines(lines[i + 1..k])| <= |ScanFrom(lines, i, borderOk)|
    ensures forall j :: 0 <= j < |ItemLines(lines[i + 1..k])| ==>
              ScanFrom(lines, i, borderOk)[j] == PlainParagraph(BulletStyle, CleanHtmlTags(ItemLines(lines[i + 1..k])[j]))
    ensures ScanFrom(lines, i, borderOk)[|ItemLines(lines[i + 1..k])|..] == ScanFrom(lines, After(lines, k), borderOk)
  {
    StepList(lines, i, k);
    ScanStep(lines, i, borderOk);
    var items := ItemLines(lines[i + 1..k]);
    RenderItems(items, borderOk);
    var ps := RenderBlock(Items(items), borderOk);
    var rest := ScanFrom(lines, After(lines, k), borderOk);
    assert ScanFrom(lines, i, borderOk) == ps + rest;
    assert (ps + rest)[|items|..] == rest;
  }

  lemma RenderItems(items: seq<string>, borderOk: bool)
    ensures |RenderBlock(Items(items), borderOk)| == |items|
    ensures forall j :: 0 <= j < |items| ==> RenderBlock(Items(items), borderOk)[j] == PlainParagraph(BulletStyle, CleanHtmlTags(items[j]))
  {
  }

  /**
   * A `<p>...</p>` line gives one 'Custom Normal' paragraph holding the line's
   * cleaned text, handed to the run splitter.
   */
  lemma ParagraphLine(lines: seq<string>, i: nat, borderOk: bool)
    requires i < |lines| && Kind(Strip(lines[i])) == ParaLine
    ensures ScanFrom(lines, i, borderOk)
         == [FormattedParagraph(NormalStyle, CleanHtmlTags(Strip(lines[i])))] + ScanFrom(lines, i + 1, borderOk)
  {
    ScanLine(lines, i, borderOk);
    assert LineBlock(Strip(lines[i])) == Para(Strip(lines[i]));
  }

  /**
   * The splitter only ever sees tag-free text on a `<p>` line, so such a
   * paragraph has at most one run: its cleaned text, plain.
   */
  lemma ParagraphLineRuns(line: string)
    ensures Runs(MarkedUp(CleanHtmlTags(line))) == Runs(PlainText(CleanHtmlTags(line)))
  {
    SplitCleanText(CleanHtmlTags(line));
  }

  /**
   * Any other line whose cleaned text is non-empty gives one 'Custom Normal'
   * paragraph whose runs are the split of the original line; one whose cleaned
   * text is empty gives nothing.
   */
  lemma OtherLine(lines: seq<string>, i: nat, borderOk: bool)
    requires i < |lines| && Kind(Strip(lines[i])) == Other
    ensures CleanHtmlTags(Strip(lines[i])) == "" ==> ScanFrom(lines, i, borderOk) == ScanFrom(lines, i + 1, borderOk)
    ensures CleanHtmlTags(Strip(lines[i])) != "" ==>
              (ScanFrom(lines, i, borderOk) == [FormattedParagraph(NormalStyle, Strip(lines[i]))] + ScanFrom(lines, i + 1, borderOk))
  {
    ScanLine(lines, i, borderOk);
    assert LineBlock(Strip(lines[i])) == Loose(Strip(lines[i]));
  }
}
