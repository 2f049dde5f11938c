/**
 * The DOCX-to-PDF converter (api/docx_to_pdf.py): what it extracts from a
 * Word document, how it escapes text for ReportLab, the story it builds from
 * the extracted items, and when the conversion as a whole fails.
 */
module DocxToPdf {
  import opened Wrappers
  import opened Text
  import opened Flowables

  // ---------------------------------------------------------------------------
  // _escape_special_chars
  // ---------------------------------------------------------------------------

  /** `html.escape` with its default `quote=True`, one character at a time. */
  function HtmlEscapeChar(c: char): string {
    if c == '&' then "&amp;"
    else if c == '<' then "&lt;"
    else if c == '>' then "&gt;"
    else if c == '"' then "&quot;"
    else if c == '\'' then "&#x27;"
    else [c]
  }

  function HtmlEscape(s: string): (r: string)
    ensures |r| >= |s|
    decreases |s|
  {
    if |s| == 0 then "" else HtmlEscapeChar(s[0]) + HtmlEscape(s[1..])
  }

  /** The five entities `html.escape` produces, read back; every other character stands for itself. */
  function Unescape(s: string): string
    decreases |s|
  {
    if |s| == 0 then ""
    else if StartsWith(s, "&amp;") then "&" + Unescape(s[5..])
    else if StartsWith(s, "&lt;") then "<" + Unescape(s[4..])
    else if StartsWith(s, "&gt;") then ">" + Unescape(s[4..])
    else if StartsWith(s, "&quot;") then "\"" + Unescape(s[6..])
    else if StartsWith(s, "&#x27;") then "'" + Unescape(s[6..])
    else [s[0]] + Unescape(s[1..])
  }

  lemma UnescapeChar(c: char, rest: string)
    ensures Unescape(HtmlEscapeChar(c) + rest) == [c] + Unescape(rest)
  {
    if c == '&' {
      UnescapeEntity("&amp;", 0, rest);
    } else if c == '<' {
      UnescapeEntity("&lt;", 1, rest);
    } else if c == '>' {
      UnescapeEntity("&gt;", 2, rest);
    } else if c == '"' {
      UnescapeEntity("&quot;", 3, rest);
    } else if c == '\'' {
      UnescapeEntity("&#x27;", 4, rest);
    } else {
      var e := [c] + rest;
      assert e[0] == c && e[1..] == rest;
      CharDiffers(e, "&", 0);
      PrefixOfPrefix(e, "&", "&amp;");
      PrefixOfPrefix(e, "&", "&lt;");
      PrefixOfPrefix(e, "&", "&gt;");
      PrefixOfPrefix(e, "&", "&quot;");
      PrefixOfPrefix(e, "&", "&#x27;");
    }
  }

  /** The `k`-th entity, in the order `Unescape` tries them, and the character it stands for. */
  function Entity(k: nat): (string, char)
    requires k < 5
  {
    [("&amp;", '&'), ("&lt;", '<'), ("&gt;", '>'), ("&quot;", '"'), ("&#x27;", '\'')][k]
  }

  lemma UnescapeEntity(ent: string, k: nat, rest: string)
    requires k < 5 && ent == Entity(k).0
    ensures Unescape(ent + rest) == [Entity(k).1] + Unescape(rest)
  {
    var e := ent + rest;
    assert e[..|ent|] == ent && e[|ent|..] == rest;
    assert e[1] == ent[1];
    if k >= 1 { CharDiffers(e, "&amp;", 1); }
    if k >= 2 { CharDiffers(e, "&lt;", 1); }
    if k >= 3 { CharDiffers(e, "&gt;", 1); }
    if k >= 4 { CharDiffers(e, "&quot;", 1); }
  }

  /** Text that does not start with `p` does not start with any extension `q` of it. */
  lemma PrefixOfPrefix(e: string, p: string, q: string)
    requires StartsWith(q, p) && !StartsWith(e, p)
    ensures !StartsWith(e, q)
  {
    if |q| <= |e| {
      assert e[..|p|] == e[..|q|][..|p|];
    }
  }

  /** Text that differs from `p` at some position does not start with `p`. */
  lemma CharDiffers(e: string, p: string, j: nat)
    requires j < |p| && j < |e| && e[j] != p[j]
    ensures !StartsWith(e, p)
  {
    if |p| <= |e| {
      assert e[..|p|][j] == e[j];
    }
  }

  /** Escaping loses nothing: reading the entities back gives the text that was escaped. */
  lemma {:induction false} UnescapeHtmlEscape(s: string)
    ensures Unescape(HtmlEscape(s)) == s
    decreases |s|
  {
    if |s| > 0 {
      UnescapeChar(s[0], HtmlEscape(s[1..]));
      UnescapeHtmlEscape(s[1..]);
      assert [s[0]] + s[1..] == s;
    }
  }

  /**
   * The replacements applied after escaping, in source order: the Windows-1252
   * quote and dash code points (U+0091 to U+0097 as Python sees them) become
   * ASCII.
   */
  const Replacements: seq<(char, string)> := [
    ('\U{91}', "'"), ('\U{92}', "'"), ('\U{93}', "\""), ('\U{94}', "\""), ('\U{96}', "-"), ('\U{97}', "--")
  ]

  predicate IsReplaced(c: char) {
    c == '\U{91}' || c == '\U{92}' || c == '\U{93}' || c == '\U{94}' || c == '\U{96}' || c == '\U{97}'
  }

  /** The `escaped.replace(...)` calls from the `k`-th on. */
  function ReplaceFrom(s: string, k: nat): string
    decreases |Replacements| - k
  {
    if k >= |Replacements| then s else ReplaceFrom(ReplaceChar(s, Replacements[k].0, Replacements[k].1), k + 1)
  }

  /**
   * `_escape_special_chars`: empty text gives the empty string; otherwise the
   * text is HTML-escaped and the six replacements are applied in order.
   */
  function EscapeSpecialChars(text: string): string {
    if |text| == 0 then "" else ReplaceFrom(HtmlEscape(text), 0)
  }

  /** What escaping makes of a single character: its replacement if it has one, else its HTML escape. */
  function EscapeChar(c: char): (r: string)
    ensures |r| >= 1
  {
    if c == '\U{91}' || c == '\U{92}' then "'"
    else if c == '\U{93}' || c == '\U{94}' then "\""
    else if c == '\U{96}' then "-"
    else if c == '\U{97}' then "--"
    else HtmlEscapeChar(c)
  }

  /** The character-by-character reference for escaping. */
  function EscapeEach(s: string): (r: string)
    ensures |r| >= |s|
    decreases |s|
  {
    if |s| == 0 then "" else EscapeChar(s[0]) + EscapeEach(s[1..])
  }

  lemma {:induction false} ReplaceFromAppend(a: string, b: string, k: nat)
    ensures ReplaceFrom(a + b, k) == ReplaceFrom(a, k) + ReplaceFrom(b, k)
    decreases |Replacements| - k
  {
    if k < |Replacements| {
      var (c, t) := Replacements[k];
      ReplaceCharAppend(a, b, c, t);
      ReplaceFromAppend(ReplaceChar(a, c, t), ReplaceChar(b, c, t), k + 1);
    }
  }

  /** The replacements leave text alone once none of the characters still to be replaced occurs in it. */
  lemma {:induction false} ReplaceFromUntouched(s: string, k: nat)
    requires forall j :: k <= j < |Replacements| ==> Replacements[j].0 !in s
    ensures ReplaceFrom(s, k) == s
    decreases |Replacements| - k
  {
    if k < |Replacements| {
      ReplaceFromUntouched(s, k + 1);
    }
  }

  lemma ReplaceFromChar(c: char)
    ensures ReplaceFrom(HtmlEscapeChar(c), 0) == EscapeChar(c)
  {
    if IsReplaced(c) {
      assert HtmlEscapeChar(c) == [c];
      var k := if c == '\U{91}' then 0 else if c == '\U{92}' then 1 else if c == '\U{93}' then 2
               else if c == '\U{94}' then 3 else if c == '\U{96}' then 4 else 5;
      ReplaceFromReplaced(c, k);
    } else {
      ReplaceFromUntouched(HtmlEscapeChar(c), 0);
    }
  }

  lemma ReplaceFromReplaced(c: char, k: nat)
    requires k < |Replacements| && Replacements[k].0 == c
    ensures ReplaceFrom([c], 0) == Replacements[k].1
  {
    var t := Replacements[k].1;
    ReplacementsDisjoint();
    assert forall m :: 0 <= m < k ==> Replacements[m].0 !in [c];
    ReplaceFromPrefix([c], 0, k);
    assert ReplaceChar([c], c, t) == t + ReplaceChar([], c, t);
    assert ReplaceChar([c], c, t) == t;
    ReplaceFromUntouched(t, k + 1);
  }

  /** The replaced characters are distinct, and none of them occurs in a replacement text. */
  lemma ReplacementsDisjoint()
    ensures forall m, j :: 0 <= m < j < |Replacements| ==> Replacements[m].0 != Replacements[j].0
    ensures forall m, j :: 0 <= m < |Replacements| && 0 <= j < |Replacements| ==> Replacements[m].0 !in Replacements[j].1
  {
  }

  /** Before the `k`-th replacement a lone replaced character `c` (with `Replacements[k].0 == c`) is untouched. */
  lemma {:induction false} ReplaceFromPrefix(s: string, j: nat, k: nat)
    requires j <= k < |Replacements|
    requires forall m :: j <= m < k ==> Replacements[m].0 !in s
    ensures ReplaceFrom(s, j) == ReplaceFrom(ReplaceChar(s, Replacements[k].0, Replacements[k].1), k + 1)
    decreases k - j
  {
    if j < k {
      ReplaceFromPrefix(s, j + 1, k);
    }
  }

  /** Escaping works character by character: each character becomes its `EscapeChar`. */
  lemma {:induction false} EscapeSpecialCharsIsPerChar(text: string)
    ensures EscapeSpecialChars(text) == EscapeEach(text)
    decreases |text|
  {
    if |text| > 0 {
      var rest := text[1..];
      ReplaceFromAppend(HtmlEscapeChar(text[0]), HtmlEscape(rest), 0);
      ReplaceFromChar(text[0]);
      EscapeSpecialCharsIsPerChar(rest);
    }
  }

  lemma EscapeCharSafe(c: char)
    ensures var e := EscapeChar(c);
            '<' !in e && '>' !in e && (forall x :: x in e ==> !IsReplaced(x))
  {
  }

  /**
   * Escaped text holds no '<' or '>' (so ReportLab reads no markup in it) and
   * none of the six replaced characters.
   */
  lemma {:induction false} EscapedIsSafe(text: string)
    ensures var r := EscapeSpecialChars(text);
            '<' !in r && '>' !in r && (forall x :: x in r ==> !IsReplaced(x))
  {
    EscapeSpecialCharsIsPerChar(text);
    EscapeEachSafe(text);
  }

  lemma {:induction false} EscapeEachSafe(s: string)
    ensures var r := EscapeEach(s);
            '<' !in r && '>' !in r && (forall x :: x in r ==> !IsReplaced(x))
    decreases |s|
  {
    if |s| > 0 {
      EscapeCharSafe(s[0]);
      EscapeEachSafe(s[1..]);
    }
  }

  /** A character escaping leaves alone. */
  predicate IsPlainChar(c: char) {
    c != '&' && c != '<' && c != '>' && c != '"' && c != '\'' && !IsReplaced(c)
  }

  /** Text without any of the eleven special characters comes through unchanged. */
  lemma {:induction false} EscapePlainText(text: string)
    requires forall k :: 0 <= k < |text| ==> IsPlainChar(text[k])
    ensures EscapeSpecialChars(text) == text
  {
    EscapeSpecialCharsIsPerChar(text);
    EscapeEachPlain(text);
  }

  lemma {:induction false} EscapeEachPlain(s: string)
    requires forall k :: 0 <= k < |s| ==> IsPlainChar(s[k])
    ensures EscapeEach(s) == s
    decreases |s|
  {
    if |s| > 0 {
      EscapeEachPlain(s[1..]);
      assert [s[0]] + s[1..] == s;
    }
  }

  /** No character of `s` is one of the six the replacements rewrite. */
  predicate NoReplaced(s: string) {
    forall i :: 0 <= i < |s| ==> !IsReplaced(s[i])
  }

  /** Without the six rewritten characters, escaping character by character is `html.escape`. */
  lemma {:induction false} EscapeEachIsHtmlEscape(s: string)
    requires NoReplaced(s)
    ensures EscapeEach(s) == HtmlEscape(s)
    decreases |s|
  {
    if |s| > 0 {
      assert !IsReplaced(s[0]);
      assert NoReplaced(s[1..]) by {
        forall i | 0 <= i < |s[1..]| ensures !IsReplaced(s[1..][i]) {
          assert s[1..][i] == s[i + 1];
        }
      }
      EscapeEachIsHtmlEscape(s[1..]);
    }
  }

  /**
   * Text without the six rewritten characters is recovered from its escape by
   * reading the entities back; those six cannot be, since two of them become
   * the same apostrophe and two the same double quote.
   */
  lemma EscapeRoundTrip(t: string)
    requires NoReplaced(t)
    ensures Unescape(EscapeSpecialChars(t)) == t
  {
    EscapeSpecialCharsIsPerChar(t);
    EscapeEachIsHtmlEscape(t);
    UnescapeHtmlEscape(t);
  }

  /** The left and right curly apostrophes escape alike, so escaping is not invertible on them. */
  lemma CurlyApostrophesMerge()
    ensures EscapeSpecialChars("\U{91}") == EscapeSpecialChars("\U{92}") == "'"
  {
    EscapeSpecialCharsIsPerChar("\U{91}");
    EscapeSpecialCharsIsPerChar("\U{92}");
  }

  /** One of the five entities `html.escape` produces starts at index `i` of `s`. */
  predicate EntityAt(s: string, i: nat)
    requires i < |s|
  {
    var t := s[i..];
    StartsWith(t, "&amp;") || StartsWith(t, "&lt;") || StartsWith(t, "&gt;") || StartsWith(t, "&quot;") || StartsWith(t, "&#x27;")
  }

  /** Every '&' in `s` begins an entity. */
  predicate AmpersandsAreEntities(s: string) {
    forall i :: 0 <= i < |s| && s[i] == '&' ==> EntityAt(s, i)
  }

  lemma AmpersandsAppend(a: string, b: string)
    requires AmpersandsAreEntities(a) && AmpersandsAreEntities(b)
    ensures AmpersandsAreEntities(a + b)
  {
    var s := a + b;
    forall i | 0 <= i < |s| && s[i] == '&'
      ensures EntityAt(s, i)
    {
      if i < |a| {
        assert s[i] == a[i] && EntityAt(a, i);
        assert s[i..] == a[i..] + b;
        PrefixExtends(a[i..], b);
      } else {
        assert s[i..] == b[i - |a|..];
        assert s[i] == b[i - |a|] && EntityAt(b, i - |a|);
      }
    }
  }

  /** A prefix of `x` stays a prefix of `x + y`. */
  lemma PrefixExtends(x: string, y: string)
    ensures forall p :: StartsWith(x, p) ==> StartsWith(x + y, p)
  {
    forall p | StartsWith(x, p)
      ensures StartsWith(x + y, p)
    {
      assert (x + y)[..|p|] == x[..|p|];
    }
  }

  lemma EscapeCharAmpersands(c: char)
    ensures AmpersandsAreEntities(EscapeChar(c))
  {
    if c == '&' {
      assert EscapeChar(c) == Entity(0).0;
      EntityAmpersands(0);
    } else if c == '<' {
      assert EscapeChar(c) == Entity(1).0;
      EntityAmpersands(1);
    } else if c == '>' {
      assert EscapeChar(c) == Entity(2).0;
      EntityAmpersands(2);
    } else if c == '"' {
      assert EscapeChar(c) == Entity(3).0;
      EntityAmpersands(3);
    } else if c == '\'' {
      assert EscapeChar(c) == Entity(4).0;
      EntityAmpersands(4);
    } else {
      NoAmpersandNoEntity(EscapeChar(c));
    }
  }

  lemma NoAmpersandNoEntity(s: string)
    requires '&' !in s
    ensures AmpersandsAreEntities(s)
  {
  }

  lemma EntityAmpersands(k: nat)
    requires k < 5
    ensures AmpersandsAreEntities(Entity(k).0)
  {
    var e := Entity(k).0;
    assert e[0..] == e;
    assert forall i :: 1 <= i < |e| ==> e[i] != '&';
  }

  lemma {:induction false} EscapeEachAmpersands(s: string)
    ensures AmpersandsAreEntities(EscapeEach(s))
    decreases |s|
  {
    if |s| > 0 {
      EscapeCharAmpersands(s[0]);
      EscapeEachAmpersands(s[1..]);
      AmpersandsAppend(EscapeChar(s[0]), EscapeEach(s[1..]));
    }
  }

  /**
   * Every '&' in escaped text begins one of the five entities: the
   * replacements after `html.escape` introduce no '&' of their own.
   */
  lemma EscapedAmpersandsAreEntities(text: string)
    ensures AmpersandsAreEntities(EscapeSpecialChars(text))
  {
    EscapeSpecialCharsIsPerChar(text);
    EscapeEachAmpersands(text);
  }

  // ---------------------------------------------------------------------------
  // extract_text_from_docx
  // ---------------------------------------------------------------------------

  /** A Word paragraph as python-docx reports it: its style's name and its text. */
  datatype DocParagraph = DocParagraph(styleName: string, text: string)

  /** A table is its rows, a row its cells' texts. */
  type DocTable = seq<seq<string>>

  /** An opened Word document: its body paragraphs and its tables, each in document order. */
  datatype Docx = Docx(paragraphs: seq<DocParagraph>, tables: seq<DocTable>)

  /** One extracted `(content_type, data)` pair. */
  datatype Item =
    | TitleItem(text: string)
    | HeadingItem(text: string)
    | NormalItem(text: string)
    | TableItem(rows: seq<seq<string>>)

  const Placeholder := "Documento convertido de DOCX"

  /**
   * The item a non-blank paragraph becomes, by its lower-cased style name:
   * 'title' anywhere in it makes a title, else 'heading' a heading, else normal text.
   */
  function ParagraphItem(p: DocParagraph): (it: Item)
    ensures !it.TableItem? && it.text == p.text
    ensures it.TitleItem? <==> HasInfix(Lower(p.styleName), "title")
    ensures it.HeadingItem? <==> !HasInfix(Lower(p.styleName), "title") && HasInfix(Lower(p.styleName), "heading")
  {
    var style := Lower(p.styleName);
    if HasInfix(style, "title") then TitleItem(p.text)
    else if HasInfix(style, "heading") then HeadingItem(p.text)
    else NormalItem(p.text)
  }

  /** The items of the paragraphs whose text is not whitespace only, in order. */
  function ParagraphItems(ps: seq<DocParagraph>): (items: seq<Item>)
    ensures |items| <= |ps|
    ensures forall k :: 0 <= k < |items| ==> !items[k].TableItem? && !AllSpace(items[k].text)
    decreases |ps|
  {
    if |ps| == 0 then []
    else (if AllSpace(ps[0].text) then [] else [ParagraphItem(ps[0])]) + ParagraphItems(ps[1..])
  }

  /** The rows of a table with every cell stripped. */
  function StripCells(t: DocTable): (rows: seq<seq<string>>)
    ensures |rows| == |t|
    ensures forall r :: 0 <= r < |t| ==> |rows[r]| == |t[r]|
    ensures forall r, c :: 0 <= r < |t| && 0 <= c < |t[r]| ==> rows[r][c] == Strip(t[r][c])
  {
    seq(|t|, r requires 0 <= r < |t| => seq(|t[r]|, c requires 0 <= c < |t[r]| => Strip(t[r][c])))
  }

  /** The items of the tables that have at least one row, in order. */
  function TableItems(ts: seq<DocTable>): (items: seq<Item>)
    ensures |items| <= |ts|
    ensures forall k :: 0 <= k < |items| ==> items[k].TableItem? && |items[k].rows| > 0
    decreases |ts|
  {
    if |ts| == 0 then []
    else (if |ts[0]| == 0 then [] else [TableItem(StripCells(ts[0]))]) + TableItems(ts[1..])
  }

  /**
   * `extract_text_from_docx`. `None` stands for a document that does not exist
   * or cannot be opened, which the source reports as `None`. A document with
   * neither paragraphs nor tables yields the placeholder line; otherwise the
   * paragraph items come first, then the table items.
   */
  function ExtractText(doc: Option<Docx>): (r: Option<seq<Item>>)
    ensures r.None? <==> doc.None?
    ensures r.Some? ==> forall k :: 0 <= k < |r.value| ==> Drawable(r.value[k])
  {
    match doc
    case None => None
    case Some(d) =>
      if |d.paragraphs| == 0 && |d.tables| == 0 then Some([NormalItem(Placeholder)])
      else Some(ParagraphItems(d.paragraphs) + TableItems(d.tables))
  }

  /** Extracting from two stretches of paragraphs one after the other is extracting from the whole. */
  lemma {:induction false} ParagraphItemsAppend(a: seq<DocParagraph>, b: seq<DocParagraph>)
    ensures ParagraphItems(a + b) == ParagraphItems(a) + ParagraphItems(b)
    decreases |a|
  {
    if |a| == 0 {
      assert a + b == b;
    } else {
      assert (a + b)[0] == a[0] && (a + b)[1..] == a[1..] + b;
      ParagraphItemsAppend(a[1..], b);
    }
  }

  /** When no paragraph is blank, the items correspond one to one, in order, to the paragraphs. */
  lemma {:induction false} ParagraphItemsOneToOne(ps: seq<DocParagraph>)
    requires forall k :: 0 <= k < |ps| ==> !AllSpace(ps[k].text)
    ensures |ParagraphItems(ps)| == |ps|
    ensures forall k :: 0 <= k < |ps| ==> ParagraphItems(ps)[k] == ParagraphItem(ps[k])
    decreases |ps|
  {
    if |ps| > 0 {
      ParagraphItemsOneToOne(ps[1..]);
    }
  }

  /** Blank paragraphs contribute nothing. */
  lemma {:induction false} BlankParagraphsVanish(ps: seq<DocParagraph>)
    requires forall k :: 0 <= k < |ps| ==> AllSpace(ps[k].text)
    ensures ParagraphItems(ps) == []
    decreases |ps|
  {
    if |ps| > 0 {
      BlankParagraphsVanish(ps[1..]);
    }
  }

  /** Tables without rows contribute nothing. */
  lemma {:induction false} EmptyTablesVanish(ts: seq<DocTable>)
    requires forall k :: 0 <= k < |ts| ==> |ts[k]| == 0
    ensures TableItems(ts) == []
    decreases |ts|
  {
    if |ts| > 0 {
      EmptyTablesVanish(ts[1..]);
    }
  }

  /** When every table has a row, the items correspond one to one, in order, to the tables, cells stripped. */
  lemma {:induction false} TableItemsOneToOne(ts: seq<DocTable>)
    requires forall k :: 0 <= k < |ts| ==> |ts[k]| > 0
    ensures |TableItems(ts)| == |ts|
    ensures forall k :: 0 <= k < |ts| ==> TableItems(ts)[k] == TableItem(StripCells(ts[k]))
    decreases |ts|
  {
    if |ts| > 0 {
      TableItemsOneToOne(ts[1..]);
    }
  }

  /**
   * In what a document extracts to, no table item comes before a paragraph
   * item: all paragraphs first, then all tables, whatever their order in the document.
   */
  lemma ParagraphsBeforeTables(d: Docx, i: nat, j: nat)
    requires |d.paragraphs| + |d.tables| > 0
    requires i < j < |ExtractText(Some(d)).value|
    requires ExtractText(Some(d)).value[i].TableItem?
    ensures ExtractText(Some(d)).value[j].TableItem?
  {
    var ps, ts := ParagraphItems(d.paragraphs), TableItems(d.tables);
    var items := ExtractText(Some(d)).value;
    assert items == ps + ts;
    assert items[j] == ts[j - |ps|];
  }

  /** A document with no content at all is reported as the placeholder line. */
  lemma EmptyDocumentGivesPlaceholder()
    ensures ExtractText(Some(Docx([], []))) == Some([NormalItem(Placeholder)])
  {
  }

  // ---------------------------------------------------------------------------
  // create_pdf_from_content
  // ---------------------------------------------------------------------------

  const TitleStyle := "CustomTitle"
  const HeadingStyle := "CustomHeading"
  const NormalStyle := "CustomNormal"

  function EscapeRows(rows: seq<seq<string>>): (safe: seq<seq<string>>)
    ensures |safe| == |rows|
    ensures forall r :: 0 <= r < |rows| ==> |safe[r]| == |rows[r]|
    ensures forall r, c :: 0 <= r < |rows| && 0 <= c < |rows[r]| ==> safe[r][c] == EscapeSpecialChars(rows[r][c])
  {
    seq(|rows|, r requires 0 <= r < |rows| => seq(|rows[r]|, c requires 0 <= c < |rows[r]| => EscapeSpecialChars(rows[r][c])))
  }

  /**
   * The flowables one item adds: its escaped text in its style followed by a
   * spacer of 12 points for a title and 6 otherwise; a table with rows becomes
   * a table of escaped cells and a 12-point spacer, one without rows nothing.
   */
  function ItemStory(it: Item): (story: seq<Flowable>)
    ensures |story| == if Drawable(it) then 2 else 0
    ensures Drawable(it) ==> story[1] == Spacer(SpaceAfter(it))
    ensures !it.TableItem? ==> story[0].Paragraph?
    ensures it.TitleItem? ==> story[0].style == TitleStyle
    ensures it.HeadingItem? ==> story[0].style == HeadingStyle
    ensures it.NormalItem? ==> story[0].style == NormalStyle
    ensures it.TableItem? && Drawable(it) ==>
              && story[0].Table? && |story[0].rows| == |it.rows|
              && forall r :: 0 <= r < |it.rows| ==> |story[0].rows[r]| == |it.rows[r]|
  {
    match it
    case TitleItem(t) => [Paragraph(EscapeSpecialChars(t), TitleStyle), Spacer(12)]
    case HeadingItem(t) => [Paragraph(EscapeSpecialChars(t), HeadingStyle), Spacer(6)]
    case NormalItem(t) => [Paragraph(EscapeSpecialChars(t), NormalStyle), Spacer(6)]
    case TableItem(rows) => if |rows| > 0 then [Table(EscapeRows(rows)), Spacer(12)] else []
  }

  /**
   * What an item draws carries its content: reading the entities back from the
   * paragraph's text, or from each table cell, gives the item's text, or the
   * cell, whenever none of the six rewritten characters occurs in it.
   */
  lemma ItemStoryRecoversContent(it: Item)
    ensures !it.TableItem? && NoReplaced(it.text) ==> Unescape(ItemStory(it)[0].text) == it.text
    ensures it.TableItem? && Drawable(it) ==>
              forall r, c :: 0 <= r < |it.rows| && 0 <= c < |it.rows[r]| && NoReplaced(it.rows[r][c]) ==>
                Unescape(ItemStory(it)[0].rows[r][c]) == it.rows[r][c]
  {
    match it
    case TableItem(rows) =>
      if |rows| > 0 {
        forall r, c | 0 <= r < |rows| && 0 <= c < |rows[r]| && NoReplaced(rows[r][c])
          ensures Unescape(ItemStory(it)[0].rows[r][c]) == rows[r][c]
        {
          EscapeRoundTrip(rows[r][c]);
        }
      }
    case _ =>
      if NoReplaced(it.text) {
        EscapeRoundTrip(it.text);
      }
  }

  /** The story `create_pdf_from_content` hands to `doc.build`, item by item. */
  function Story(items: seq<Item>): seq<Flowable> {
    ConcatMap(items, ItemStory)
  }

  /** `f` applied to each element of `xs`, the results concatenated in order. */
  function ConcatMap<A, B>(xs: seq<A>, f: A -> seq<B>): seq<B>
    decreases |xs|
  {
    if |xs| == 0 then [] else f(xs[0]) + ConcatMap(xs[1..], f)
  }

  /** When every element contributes two entries, entry `2k` and `2k + 1` come from element `k`. */
  lemma {:induction false} ConcatMapPairs<A, B>(xs: seq<A>, f: A -> seq<B>)
    requires forall k :: 0 <= k < |xs| ==> |f(xs[k])| == 2
    ensures |ConcatMap(xs, f)| == 2 * |xs|
    ensures forall k :: 0 <= k < |xs| ==> ConcatMap(xs, f)[2 * k] == f(xs[k])[0]
    ensures forall k :: 0 <= k < |xs| ==> ConcatMap(xs, f)[2 * k + 1] == f(xs[k])[1]
    decreases |xs|
  {
    if |xs| > 0 {
      ConcatMapPairs(xs[1..], f);
      var head, tail := f(xs[0]), ConcatMap(xs[1..], f);
      forall k | 0 < k < |xs|
        ensures ConcatMap(xs, f)[2 * k] == f(xs[k])[0]
        ensures ConcatMap(xs, f)[2 * k + 1] == f(xs[k])[1]
      {
        var j := k - 1;
        assert xs[k] == xs[1..][j];
        assert (head + tail)[2 * j + 2] == tail[2 * j];
        assert (head + tail)[2 * j + 3] == tail[2 * j + 1];
      }
    }
  }

  /** A property every element's entries have holds of every entry of the concatenation. */
  lemma {:induction false} ConcatMapAll<A, B>(xs: seq<A>, f: A -> seq<B>, P: B -> bool)
    requires forall k, j :: 0 <= k < |xs| && 0 <= j < |f(xs[k])| ==> P(f(xs[k])[j])
    ensures forall i :: 0 <= i < |ConcatMap(xs, f)| ==> P(ConcatMap(xs, f)[i])
    decreases |xs|
  {
    if |xs| > 0 {
      ConcatMapAll(xs[1..], f, P);
      var head, tail := f(xs[0]), ConcatMap(xs[1..], f);
      forall i | |head| <= i < |head + tail|
        ensures P((head + tail)[i])
      {
        assert (head + tail)[i] == tail[i - |head|];
      }
    }
  }

  /** An item that is not a table without rows. */
  predicate Drawable(it: Item) {
    !it.TableItem? || |it.rows| > 0
  }

  /** The spacer height that follows an item's flowable. */
  function SpaceAfter(it: Item): nat {
    if it.TitleItem? || it.TableItem? then 12 else 6
  }

  /** Every item extraction yields is drawable. */
  lemma ExtractedItemsDrawable(doc: Option<Docx>)
    requires ExtractText(doc).Some?
    ensures forall k :: 0 <= k < |ExtractText(doc).value| ==> Drawable(ExtractText(doc).value[k])
  {
    var items := ExtractText(doc).value;
    if doc.value.paragraphs != [] || doc.value.tables != [] {
      var ps, ts := ParagraphItems(doc.value.paragraphs), TableItems(doc.value.tables);
      assert items == ps + ts;
      forall k | 0 <= k < |items|
        ensures Drawable(items[k])
      {
        if k >= |ps| {
          assert items[k] == ts[k - |ps|];
        }
      }
    }
  }

  /**
   * For drawable items the story has two flowables per item, in order: the
   * item's escaped content, then a spacer of its height.
   */
  lemma StoryShape(items: seq<Item>)
    requires forall k :: 0 <= k < |items| ==> Drawable(items[k])
    ensures |Story(items)| == 2 * |items|
    ensures forall k :: 0 <= k < |items| ==> Story(items)[2 * k] == ItemStory(items[k])[0]
    ensures forall k :: 0 <= k < |items| ==> Story(items)[2 * k + 1] == Spacer(SpaceAfter(items[k]))
    ensures forall k :: 0 <= k < |items| ==> (Story(items)[2 * k].Paragraph? <==> !items[k].TableItem?)
  {
    ConcatMapPairs(items, ItemStory);
  }

  /**
   * Every paragraph item can be read back from the story: the entry drawn for
   * it is a paragraph whose text, entities read back, is the item's text,
   * unless one of the six rewritten characters occurs in it.
   */
  lemma StoryRecoversItems(items: seq<Item>)
    requires forall k :: 0 <= k < |items| ==> Drawable(items[k])
    ensures |Story(items)| == 2 * |items|
    ensures forall k :: 0 <= k < |items| && !items[k].TableItem? && NoReplaced(items[k].text) ==>
              Story(items)[2 * k].Paragraph? && Unescape(Story(items)[2 * k].text) == items[k].text
  {
    StoryShape(items);
    forall k | 0 <= k < |items| && !items[k].TableItem? && NoReplaced(items[k].text)
      ensures Unescape(Story(items)[2 * k].text) == items[k].text
    {
      ItemStoryRecoversContent(items[k]);
    }
  }

  /** No paragraph or table cell in the story holds a raw '<' or '>'. */
  predicate Escaped(f: Flowable) {
    && (f.Paragraph? ==> '<' !in f.text && '>' !in f.text)
    && (f.Table? ==> forall r, c :: 0 <= r < |f.rows| && 0 <= c < |f.rows[r]| ==> '<' !in f.rows[r][c] && '>' !in f.rows[r][c])
  }

  lemma ItemStoryEscaped(it: Item)
    ensures forall k :: 0 <= k < |ItemStory(it)| ==> Escaped(ItemStory(it)[k])
  {
    match it
    case TitleItem(t) => EscapedIsSafe(t);
    case HeadingItem(t) => EscapedIsSafe(t);
    case NormalItem(t) => EscapedIsSafe(t);
    case TableItem(rows) =>
      forall r, c | 0 <= r < |rows| && 0 <= c < |rows[r]|
        ensures '<' !in EscapeRows(rows)[r][c] && '>' !in EscapeRows(rows)[r][c]
      {
        EscapedIsSafe(rows[r][c]);
      }
  }

  /** Every text that reaches ReportLab, in paragraphs and in table cells, has been escaped of its markup. */
  lemma StoryEscaped(items: seq<Item>)
    ensures forall k :: 0 <= k < |Story(items)| ==> Escaped(Story(items)[k])
  {
    forall k | 0 <= k < |items| {
      ItemStoryEscaped(items[k]);
    }
    ConcatMapAll(items, ItemStory, Escaped);
  }

  // ---------------------------------------------------------------------------
  // convert_docx_to_pdf
  // ---------------------------------------------------------------------------

  datatype ConvertError = ExtractionFailed | BuildFailed

  /**
   * `convert_docx_to_pdf`: it fails when nothing could be extracted (no
   * document, or an empty item list) and when building the PDF fails, which
   * `buildOk` stands for; otherwise its result is the story that was built.
   */
  function Convert(doc: Option<Docx>, buildOk: bool): (r: Result<seq<Flowable>, ConvertError>)
    ensures r.Failure? && r.error == ExtractionFailed <==> ExtractText(doc).None? || ExtractText(doc).value == []
    ensures r.Success? ==> buildOk && r.value == Story(ExtractText(doc).value)
    ensures ExtractText(doc).Some? && ExtractText(doc).value != [] && buildOk ==> r == Success(Story(ExtractText(doc).value))
    ensures ExtractText(doc).Some? && ExtractText(doc).value != [] && !buildOk ==> r == Failure(BuildFailed)
  {
    match ExtractText(doc)
    case None => Failure(ExtractionFailed)
    case Some(items) =>
      if items == [] then Failure(ExtractionFailed)
      else if !buildOk then Failure(BuildFailed)
      else Success(Story(items))
  }

  /**
   * A document that has paragraphs or tables, but only blank paragraphs and
   * tables without rows, extracts to nothing and so fails to convert, unlike
   * an entirely empty document, which gets the placeholder.
   */
  lemma BlankDocumentFails(d: Docx, buildOk: bool)
    requires |d.paragraphs| + |d.tables| > 0
    requires forall k :: 0 <= k < |d.paragraphs| ==> AllSpace(d.paragraphs[k].text)
    requires forall k :: 0 <= k < |d.tables| ==> |d.tables[k]| == 0
    ensures Convert(Some(d), buildOk) == Failure(ExtractionFailed)
  {
    BlankParagraphsVanish(d.paragraphs);
    EmptyTablesVanish(d.tables);
  }

  /** An entirely empty document converts to the placeholder paragraph and its spacer. */
  lemma EmptyDocumentConverts()
    ensures Convert(Some(Docx([], [])), true)
         == Success([Paragraph(Placeholder, NormalStyle), Spacer(6)])
  {
    EmptyDocumentGivesPlaceholder();
    PlaceholderIsPlain();
    PlainNormalStory(Placeholder);
  }

  /** A lone normal item whose text escaping leaves alone is drawn as that text and a 6-point spacer. */
  lemma PlainNormalStory(t: string)
    requires EscapeSpecialChars(t) == t
    ensures Story([NormalItem(t)]) == [Paragraph(t, NormalStyle), Spacer(6)]
  {
    var x := NormalItem(t);
    assert ItemStory(x) == [Paragraph(t, NormalStyle), Spacer(6)];
    assert [x][1..] == [];
    assert ConcatMap([x], ItemStory) == ItemStory(x) + ConcatMap([x][1..], ItemStory);
  }

  lemma PlaceholderIsPlain()
    ensures EscapeSpecialChars(Placeholder) == Placeholder
  {
    forall k | 0 <= k < |Placeholder|
      ensures IsPlainChar(Placeholder[k])
    {
      assert Placeholder[k] in "Documento convertido de DOCX";
    }
    EscapePlainText(Placeholder);
  }
}
