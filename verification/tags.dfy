/**
 * The regular-expression passes the converters run over one HTML line, written
 * as deterministic left-to-right scanners with Python's `re` semantics:
 *
 *  - `re.sub(r'<[^>]+>', '', s)`: a match starts at a `<` whose next character
 *    is not `>` and runs to the first `>` after it (newlines included);
 *  - `re.sub(r'<p.*?>', '', s)` and its siblings: a fixed head followed by the
 *    shortest run of non-newline characters up to a `>`;
 *  - `re.sub(r'</p>', '', s)`: a fixed literal;
 *  - `re.sub(r'<strong>(.*?)</strong>', r'<b>\1</b>', s)` and `re.finditer` of
 *    such a pattern: an opener, then the first closer after it on the same line.
 *
 * In every pass a match is removed (or rewritten) and the scan resumes after
 * it; where no match starts, one character is kept and the scan moves on.
 */
module Tags {
  import opened Wrappers
  import opened Text

  // ---------------------------------------------------------------------------
  // Complete tags
  // ---------------------------------------------------------------------------

  /** `s[i..j+1]` is a match of `<[^>]+>` whenever `s[i]` is `<`, `s[i+1]` is not `>` and `s[j]` is `>`. */
  predicate TagSpan(s: string, i: int, j: int) {
    0 <= i && i + 1 < j < |s| && s[i] == '<' && s[i + 1] != '>' && s[j] == '>'
  }

  /** No substring of `s` matches `<[^>]+>`: no complete tag is left in it. */
  ghost predicate TagFree(s: string) {
    forall i, j :: !TagSpan(s, i, j)
  }

  /** Text without `<` holds no tag. */
  lemma NoOpenerIsTagFree(s: string)
    requires '<' !in s
    ensures TagFree(s)
  {
  }

  /** Any slice of tag-free text is tag-free. */
  lemma SliceTagFree(s: string, a: nat, b: nat)
    requires TagFree(s) && a <= b <= |s|
    ensures TagFree(s[a..b])
  {
    forall i, j ensures !TagSpan(s[a..b], i, j) {
      SpanInSlice(s, a, b, i, j);
    }
  }

  /** A tag inside a slice is a tag of the whole text, shifted by the slice's start. */
  lemma SpanInSlice(s: string, a: nat, b: nat, i: int, j: int)
    requires a <= b <= |s|
    ensures TagSpan(s[a..b], i, j) ==> TagSpan(s, a + i, a + j)
  {
  }

  /** Stripping tag-free text keeps it tag-free: the stripped text is a slice of it. */
  lemma {:induction false} StripKeepsTagFree(s: string)
    requires TagFree(s)
    ensures TagFree(Strip(s))
    decreases |s|
  {
    if |s| > 0 && IsSpace(s[0]) {
      SliceTagFree(s, 1, |s|);
      assert s[1..|s|] == s[1..];
      StripKeepsTagFree(s[1..]);
    } else if |s| > 0 && IsSpace(s[|s| - 1]) {
      SliceTagFree(s, 0, |s| - 1);
      assert s[0..|s| - 1] == s[..|s| - 1];
      StripKeepsTagFree(s[..|s| - 1]);
    }
  }

  /** Putting one character in front of tag-free text keeps it tag-free unless that character opens a tag. */
  lemma ConsTagFree(c: char, t: string)
    requires TagFree(t)
    requires c == '<' ==> |t| == 0 || t[0] == '>' || '>' !in t
    ensures TagFree([c] + t)
  {
    var s := [c] + t;
    forall i, j | 0 <= i && i + 1 < j < |s| ensures !TagSpan(s, i, j) {
      if i == 0 {
        if c == '<' && |t| > 0 && t[0] != '>' {
          assert s[j] == t[j - 1];
        }
      } else {
        assert s[i] == t[i - 1] && s[i + 1] == t[i] && s[j] == t[j - 1];
        assert !TagSpan(t, i - 1, j - 1);
      }
    }
  }

  /** The first index at or after `from` holding `c`. */
  function IndexOf(s: string, c: char, from: nat): (r: Option<nat>)
    ensures r.Some? ==> from <= r.value < |s| && s[r.value] == c
    ensures r.Some? ==> forall k :: from <= k < r.value ==> s[k] != c
    ensures r.None? ==> forall k :: from <= k < |s| ==> s[k] != c
    decreases |s| - from
  {
    if from >= |s| then None
    else if s[from] == c then Some(from)
    else IndexOf(s, c, from + 1)
  }

  /** The length of the `<[^>]+>` match at the very start of `s`, if one starts there. */
  function TagLength(s: string): (r: Option<nat>)
    ensures r.Some? ==> 3 <= r.value <= |s| && TagSpan(s, 0, r.value - 1)
    ensures r.None? ==> forall j :: !TagSpan(s, 0, j)
  {
    if |s| >= 2 && s[0] == '<' && s[1] != '>' then
      match IndexOf(s, '>', 2)
      case Some(j) => Some(j + 1)
      case None => None
    else None
  }

  /**
   * `re.sub(r'<[^>]+>', '', s)`. The result holds no complete tag, and it is
   * made of characters of `s` only.
   */
  function StripTags(s: string): (r: string)
    ensures TagFree(r)
    ensures forall c :: c in r ==> c in s
    ensures |r| <= |s|
    ensures |s| > 0 && s[0] != '<' ==> |r| > 0 && r[0] == s[0]
    decreases |s|
  {
    if |s| == 0 then ""
    else match TagLength(s)
      case Some(n) => StripTags(s[n..])
      case None =>
        var rest := StripTags(s[1..]);
        KeptCharTagFree(s, rest);
        [s[0]] + rest
  }

  /** When no tag starts at the front of `s`, keeping its first character in front of a tag-free rest opens no tag. */
  lemma KeptCharTagFree(s: string, rest: string)
    requires |s| > 0 && TagLength(s).None?
    requires TagFree(rest)
    requires forall c :: c in rest ==> c in s[1..]
    requires |s| > 1 && s[1] != '<' ==> |rest| > 0 && rest[0] == s[1]
    ensures TagFree([s[0]] + rest)
  {
    if s[0] == '<' && |s| > 1 && s[1] != '>' {
      assert '>' !in s[1..] by {
        forall k | 1 <= k < |s| && s[k] == '>' ensures false {
          assert TagSpan(s, 0, k);
        }
      }
    }
    ConsTagFree(s[0], rest);
  }

  /** Tag-free text passes through `StripTags` unchanged; with `StripTags`'s own contract this makes it idempotent. */
  lemma {:induction false} StripTagsFixesTagFree(s: string)
    requires TagFree(s)
    ensures StripTags(s) == s
    decreases |s|
  {
    if |s| > 0 {
      assert TagLength(s).None?;
      SliceTagFree(s, 1, |s|);
      assert s[1..|s|] == s[1..];
      StripTagsFixesTagFree(s[1..]);
      assert s == [s[0]] + s[1..];
    }
  }

  lemma StripTagsIdempotent(s: string)
    ensures StripTags(StripTags(s)) == StripTags(s)
  {
    StripTagsFixesTagFree(StripTags(s));
  }

  /** `t` is one whole match of `<[^>]+>`: a `<`, then no `>` until the `>` that ends it. */
  predicate IsTag(t: string) {
    |t| >= 3 && t[0] == '<' && t[|t| - 1] == '>' && forall k :: 1 <= k < |t| - 1 ==> t[k] != '>'
  }

  /** A character other than `<` is kept, in front of what the rest strips to. */
  lemma StripTagsKeeps(c: char, s: string)
    requires c != '<'
    ensures StripTags([c] + s) == [c] + StripTags(s)
  {
    assert ([c] + s)[1..] == s;
  }

  /** A complete tag at the front is removed, and nothing after it. */
  lemma StripTagsDropsTag(t: string, s: string)
    requires IsTag(t)
    ensures StripTags(t + s) == StripTags(s)
  {
    var u := t + s;
    assert u[1] == t[1] != '>';
    assert u[|t| - 1] == '>';
    assert forall k :: 2 <= k < |t| - 1 ==> u[k] == t[k] != '>';
    assert TagLength(u) == Some(|t|);
    assert u[|t|..] == s;
  }

  /** Text without `<` is kept whole, in front of what the rest strips to. */
  lemma {:induction false} StripTagsKeepsPlain(t: string, s: string)
    requires '<' !in t
    ensures StripTags(t + s) == t + StripTags(s)
    decreases |t|
  {
    if |t| == 0 {
      assert t + s == s;
    } else {
      assert t + s == [t[0]] + (t[1..] + s);
      StripTagsKeeps(t[0], t[1..] + s);
      StripTagsKeepsPlain(t[1..], s);
      assert t == [t[0]] + t[1..];
    }
  }

  /** Text without `<` between two complete tags loses both tags and keeps itself. */
  lemma StripTagsWrapped(open: string, t: string, close: string)
    requires IsTag(open) && IsTag(close) && '<' !in t
    ensures StripTags(open + t + close) == t
  {
    assert open + t + close == open + (t + close);
    StripTagsDropsTag(open, t + close);
    StripTagsKeepsPlain(t, close);
    assert close + "" == close;
    StripTagsDropsTag(close, "");
    assert t + "" == t;
  }

  // ---------------------------------------------------------------------------
  // Head-and-lazy-close erasures: `<p.*?>`, `</p>`, `<h[1-6].*?>`, ...
  // ---------------------------------------------------------------------------

  /**
   * A pattern made of a fixed head, one character class per position, and,
   * when `lazy` holds, the `.*?>` tail: the shortest run of non-newline
   * characters up to and including a `>`.
   */
  datatype Rule = Rule(head: seq<set<char>>, lazy: bool)

  /** The character classes spelling a literal string. */
  function Lit(s: string): (h: seq<set<char>>)
    ensures |h| == |s|
    ensures forall k :: 0 <= k < |s| ==> h[k] == {s[k]}
  {
    seq(|s|, k requires 0 <= k < |s| => {s[k]})
  }

  predicate HeadAt(s: string, head: seq<set<char>>) {
    |head| <= |s| && forall k :: 0 <= k < |head| ==> s[k] in head[k]
  }

  /** The first `c` at or after `from`, provided no newline comes before it (Python's `.` stops at newlines). */
  function LineIndexOf(s: string, c: char, from: nat): (r: Option<nat>)
    ensures r.Some? ==> from <= r.value < |s| && s[r.value] == c
    ensures r.Some? ==> forall k :: from <= k < r.value ==> s[k] != c && s[k] != '\n'
    decreases |s| - from
  {
    if from >= |s| then None
    else if s[from] == c then Some(from)
    else if s[from] == '\n' then None
    else LineIndexOf(s, c, from + 1)
  }

  /** The length of the rule's match at the start of `s`, if one starts there. */
  function MatchLength(s: string, rule: Rule): (r: Option<nat>)
    ensures r.Some? ==> 1 <= r.value <= |s| && HeadAt(s, rule.head)
    ensures r.Some? && !rule.lazy ==> r.value == |rule.head|
    ensures r.Some? && rule.lazy ==> |rule.head| < r.value && s[r.value - 1] == '>'
  {
    if 0 < |rule.head| && HeadAt(s, rule.head) then
      if rule.lazy then
        match LineIndexOf(s, '>', |rule.head|)
        case Some(j) => Some(j + 1)
        case None => None
      else Some(|rule.head|)
    else None
  }

  /** `re.sub(rule, '', s)`: every leftmost non-overlapping match is removed. */
  function Erase(s: string, rule: Rule): (r: string)
    ensures |r| <= |s|
    decreases |s|
  {
    if |s| == 0 then ""
    else match MatchLength(s, rule)
      case Some(n) => Erase(s[n..], rule)
      case None => [s[0]] + Erase(s[1..], rule)
  }

  /** The erasures applied one after the other, first rule first. */
  function EraseAll(s: string, rules: seq<Rule>): string
    decreases |rules|
  {
    if |rules| == 0 then s else EraseAll(Erase(s, rules[0]), rules[1..])
  }

  /**
   * A rule every match of which is itself a complete tag: it opens with `<`,
   * its second character is never `>`, and it ends with `>`.
   */
  predicate WellFormed(rule: Rule) {
    && |rule.head| >= 2
    && rule.head[0] == {'<'}
    && '>' !in rule.head[1]
    && (rule.lazy || (|rule.head| >= 3 && rule.head[|rule.head| - 1] == {'>'}))
  }

  lemma MatchIsTag(s: string, rule: Rule)
    requires WellFormed(rule) && MatchLength(s, rule).Some?
    ensures TagSpan(s, 0, MatchLength(s, rule).value - 1)
  {
    var n := MatchLength(s, rule).value;
    assert s[0] in rule.head[0] && s[1] in rule.head[1];
    if !rule.lazy {
      assert s[n - 1] in rule.head[n - 1];
    }
  }

  /** A well-formed erasure finds nothing to remove in tag-free text. */
  lemma {:induction false} EraseFixesTagFree(s: string, rule: Rule)
    requires WellFormed(rule) && TagFree(s)
    ensures Erase(s, rule) == s
    decreases |s|
  {
    if |s| > 0 {
      if MatchLength(s, rule).Some? {
        MatchIsTag(s, rule);
        assert false;
      }
      SliceTagFree(s, 1, |s|);
      assert s[1..|s|] == s[1..];
      EraseFixesTagFree(s[1..], rule);
      assert s == [s[0]] + s[1..];
    }
  }

  lemma {:induction false} EraseAllFixesTagFree(s: string, rules: seq<Rule>)
    requires forall k :: 0 <= k < |rules| ==> WellFormed(rules[k])
    requires TagFree(s)
    ensures EraseAll(s, rules) == s
    decreases |rules|
  {
    if |rules| > 0 {
      EraseFixesTagFree(s, rules[0]);
      EraseAllFixesTagFree(s, rules[1..]);
    }
  }

  /** Text without `<` holds no match of a well-formed rule, so erasing keeps it whole. */
  lemma {:induction false} EraseKeepsPlain(t: string, s: string, rule: Rule)
    requires WellFormed(rule) && '<' !in t
    ensures Erase(t + s, rule) == t + Erase(s, rule)
    decreases |t|
  {
    if |t| == 0 {
      assert t + s == s;
    } else {
      var u := t + s;
      assert u[0] == t[0] && u[0] !in rule.head[0];
      assert MatchLength(u, rule).None?;
      assert u[1..] == t[1..] + s;
      EraseKeepsPlain(t[1..], s, rule);
      assert t == [t[0]] + t[1..];
    }
  }

  /** A rule that matches exactly the tag at the front of `tag + s` removes it and goes on with `s`. */
  lemma EraseDropsFront(tag: string, s: string, rule: Rule)
    requires MatchLength(tag + s, rule) == Some(|tag|)
    ensures Erase(tag + s, rule) == Erase(s, rule)
  {
    assert (tag + s)[|tag|..] == s;
  }

  /** A rule that does not match at a front tag whose only `<` is its first character keeps the tag. */
  lemma EraseKeepsFront(tag: string, s: string, rule: Rule)
    requires WellFormed(rule) && |tag| > 0 && '<' !in tag[1..]
    requires MatchLength(tag + s, rule).None?
    ensures Erase(tag + s, rule) == tag + Erase(s, rule)
  {
    HeadTail(tag, s);
    EraseUnmatched(tag + s, rule);
    EraseKeepsPlain(tag[1..], s, rule);
    HeadTail(tag, Erase(s, rule));
  }

  lemma HeadTail(a: string, b: string)
    requires |a| > 0
    ensures (a + b)[0] == a[0] && (a + b)[1..] == a[1..] + b
    ensures [a[0]] + (a[1..] + b) == a + b
  {
  }

  /** Where the rule does not match at the front, the first character is kept. */
  lemma EraseUnmatched(u: string, rule: Rule)
    requires |u| > 0 && MatchLength(u, rule).None?
    ensures Erase(u, rule) == [u[0]] + Erase(u[1..], rule)
  {
  }

  /** A lone tag whose only `<` is its first character is erased whole or kept whole. */
  lemma EraseLoneTag(tag: string, rule: Rule)
    requires WellFormed(rule) && |tag| > 0 && '<' !in tag[1..]
    requires MatchLength(tag, rule).None? || MatchLength(tag, rule) == Some(|tag|)
    ensures Erase(tag, rule) == if MatchLength(tag, rule).Some? then "" else tag
  {
    assert tag + "" == tag;
    if MatchLength(tag, rule).Some? {
      EraseDropsFront(tag, "", rule);
    } else {
      EraseKeepsFront(tag, "", rule);
    }
  }

  /** A rule whose head disagrees with `u` at some position does not match at the front of `u`. */
  lemma HeadMismatch(u: string, rule: Rule, k: nat)
    requires k < |rule.head| && (k >= |u| || u[k] !in rule.head[k])
    ensures MatchLength(u, rule).None?
  {
  }

  /** `<name>`, as markdown2 writes an opening tag without attributes. */
  function OpeningTag(name: string): string {
    "<" + name + ">"
  }

  /** `</name>`. */
  function ClosingTag(name: string): string {
    "</" + name + ">"
  }

  /** `<name.*?>` matches exactly the attribute-free tag `<name>` at the front. */
  lemma OpenTagMatches(name: string, x: string)
    requires '>' !in name
    ensures MatchLength(OpeningTag(name) + x, OpenTag(name)) == Some(|OpeningTag(name)|)
  {
    var u := ("<" + name + ">") + x;
    assert forall k :: 0 <= k < |name| + 1 ==> u[k] == ("<" + name)[k];
    assert HeadAt(u, OpenTag(name).head);
    assert u[|name| + 1] == '>';
  }

  /** `</name>` matches itself at the front. */
  lemma CloseTagMatches(name: string, x: string)
    ensures MatchLength(ClosingTag(name) + x, CloseTag(name)) == Some(|ClosingTag(name)|)
  {
    var u := ("</" + name + ">") + x;
    assert forall k :: 0 <= k < |name| + 3 ==> u[k] == ("</" + name + ">")[k];
    assert HeadAt(u, CloseTag(name).head);
  }

  /** A rule that matches at neither tag leaves `open + t + close` unchanged. */
  lemma WrappedKept(open: string, t: string, close: string, rule: Rule)
    requires WellFormed(rule) && '<' !in t
    requires |open| > 0 && '<' !in open[1..] && |close| > 0 && '<' !in close[1..]
    requires MatchLength(open + t + close, rule).None? && MatchLength(close, rule).None?
    ensures Erase(open + t + close, rule) == open + t + close
  {
    var rest := t + close;
    assert open + t + close == open + rest;
    EraseKeepsFront(open, rest, rule);
    EraseKeepsPlain(t, close, rule);
    EraseLoneTag(close, rule);
  }

  /** `<name.*?>`, then `</name>`, erase the two tags around text without `<` and keep the text. */
  lemma WrappedErased(name: string, t: string)
    requires |name| > 0 && name[0] != '/' && '<' !in name && '>' !in name && '<' !in t
    ensures Erase(Erase(OpeningTag(name) + t + ClosingTag(name), OpenTag(name)), CloseTag(name)) == t
  {
    OpeningTagErased(name, t);
    ClosingTagErased(name, t);
  }

  lemma OpeningTagErased(name: string, t: string)
    requires |name| > 0 && name[0] != '/' && '<' !in name && '>' !in name && '<' !in t
    ensures Erase(OpeningTag(name) + t + ClosingTag(name), OpenTag(name)) == t + ClosingTag(name)
  {
    var open, rest := OpeningTag(name), t + ClosingTag(name);
    OpenTagWellFormed(name);
    assert open + t + ClosingTag(name) == open + rest;
    OpenTagMatches(name, rest);
    EraseDropsFront(open, rest, OpenTag(name));
    EraseKeepsPlain(t, ClosingTag(name), OpenTag(name));
    ClosingTagKeptByOpenTag(name);
  }

  lemma ClosingTagKeptByOpenTag(name: string)
    requires |name| > 0 && name[0] != '/' && '<' !in name && '>' !in name
    ensures Erase(ClosingTag(name), OpenTag(name)) == ClosingTag(name)
  {
    var close := ClosingTag(name);
    OpenTagWellFormed(name);
    assert close[1] == '/' && OpenTag(name).head[1] == {name[0]};
    HeadMismatch(close, OpenTag(name), 1);
    assert close[1..] == "/" + name + ">";
    EraseLoneTag(close, OpenTag(name));
  }

  lemma ClosingTagErased(name: string, t: string)
    requires '<' !in name && '<' !in t
    ensures Erase(t + ClosingTag(name), CloseTag(name)) == t
  {
    CloseTagWellFormed(name);
    EraseKeepsPlain(t, ClosingTag(name), CloseTag(name));
    LoneClosingTagErased(name);
    assert t + "" == t;
  }

  lemma LoneClosingTagErased(name: string)
    requires '<' !in name
    ensures Erase(ClosingTag(name), CloseTag(name)) == ""
  {
    var close := ClosingTag(name);
    CloseTagWellFormed(name);
    assert close + "" == close;
    CloseTagMatches(name, "");
    assert close[1..] == "/" + name + ">";
    EraseLoneTag(close, CloseTag(name));
  }

  /** A rule whose head disagrees with `<name>` and with `</name>` somewhere leaves `<name>t</name>` unchanged. */
  lemma MismatchKeepsWrapped(name: string, t: string, rule: Rule, a: nat, b: nat)
    requires '<' !in name && '<' !in t && WellFormed(rule)
    requires a < |rule.head| && a < |OpeningTag(name)| && OpeningTag(name)[a] !in rule.head[a]
    requires b < |rule.head| && b < |ClosingTag(name)| && ClosingTag(name)[b] !in rule.head[b]
    ensures Erase(OpeningTag(name) + t + ClosingTag(name), rule) == OpeningTag(name) + t + ClosingTag(name)
  {
    var open, close := OpeningTag(name), ClosingTag(name);
    var w := open + t + close;
    assert w[a] == open[a];
    assert open[1..] == name + ">" && close[1..] == "/" + name + ">";
    HeadMismatch(w, rule, a);
    HeadMismatch(close, rule, b);
    WrappedKept(open, t, close, rule);
  }

  /** The erasures of another tag name, one with a different first letter, leave `<name>t</name>` unchanged. */
  lemma OtherTagsKeep(name: string, other: string, t: string)
    requires |name| > 0 && name[0] != '/' && '<' !in name && '<' !in t
    requires |other| > 0 && other[0] != '/' && other[0] != '>' && other[0] != name[0]
    ensures Erase(OpeningTag(name) + t + ClosingTag(name), OpenTag(other)) == OpeningTag(name) + t + ClosingTag(name)
    ensures Erase(OpeningTag(name) + t + ClosingTag(name), CloseTag(other)) == OpeningTag(name) + t + ClosingTag(name)
  {
    OpenTagWellFormed(other);
    CloseTagWellFormed(other);
    assert OpeningTag(name)[1] == name[0] && ClosingTag(name)[1] == '/' && ClosingTag(name)[2] == name[0];
    assert OpenTag(other).head[1] == {other[0]};
    assert CloseTag(other).head[1] == {'/'} && CloseTag(other).head[2] == {other[0]};
    MismatchKeepsWrapped(name, t, OpenTag(other), 1, 1);
    MismatchKeepsWrapped(name, t, CloseTag(other), 1, 2);
  }

  /** The heading erasures leave `<name>t</name>` unchanged when the name does not start with `h`. */
  lemma HeadingRulesKeep(name: string, t: string)
    requires |name| > 0 && name[0] != '/' && name[0] != 'h' && '<' !in name && '<' !in t
    ensures Erase(OpeningTag(name) + t + ClosingTag(name), HeadingOpen) == OpeningTag(name) + t + ClosingTag(name)
    ensures Erase(OpeningTag(name) + t + ClosingTag(name), HeadingClose) == OpeningTag(name) + t + ClosingTag(name)
  {
    HeadingRulesWellFormed();
    assert OpeningTag(name)[1] == name[0] && ClosingTag(name)[1] == '/' && ClosingTag(name)[2] == name[0];
    assert HeadingOpen.head[1] == {'h'};
    assert HeadingClose.head[1] == {'/'} && HeadingClose.head[2] == {'h'};
    MismatchKeepsWrapped(name, t, HeadingOpen, 1, 1);
    MismatchKeepsWrapped(name, t, HeadingClose, 1, 2);
  }

  /**
   * A list of erasures whose first two rules are `<name.*?>` and `</name>`
   * turns `<name>t</name>` into `t`.
   */
  lemma EraseAllWrapped(name: string, t: string, rules: seq<Rule>)
    requires |name| > 0 && name[0] != '/' && '<' !in name && '>' !in name && '<' !in t
    requires 1 < |rules| && rules[0] == OpenTag(name) && rules[1] == CloseTag(name)
    requires forall k :: 0 <= k < |rules| ==> WellFormed(rules[k])
    ensures EraseAll(OpeningTag(name) + t + ClosingTag(name), rules) == t
  {
    var w := OpeningTag(name) + t + ClosingTag(name);
    assert rules[1..][0] == CloseTag(name);
    assert EraseAll(w, rules) == EraseAll(Erase(Erase(w, OpenTag(name)), CloseTag(name)), rules[1..][1..]);
    WrappedErased(name, t);
    NoOpenerIsTagFree(t);
    EraseAllFixesTagFree(t, rules[1..][1..]);
  }

  /** Two leading rules that leave `s` unchanged can be skipped. */
  lemma EraseAllSkipsTwo(s: string, rules: seq<Rule>)
    requires |rules| > 1 && Erase(s, rules[0]) == s && Erase(s, rules[1]) == s
    ensures EraseAll(s, rules) == EraseAll(s, rules[2..])
  {
    EraseAllKeepsHead(s, rules);
    EraseAllKeepsHead(s, rules[1..]);
    assert rules[1..][1..] == rules[2..];
  }

  /** Four leading rules that leave `s` unchanged can be skipped. */
  lemma EraseAllSkipsFour(s: string, rules: seq<Rule>)
    requires |rules| >= 4
    requires Erase(s, rules[0]) == s && Erase(s, rules[1]) == s
    requires Erase(s, rules[2]) == s && Erase(s, rules[3]) == s
    ensures EraseAll(s, rules) == EraseAll(s, rules[4..])
  {
    var r := rules;
    for i := 0 to 4
      invariant r == rules[i..]
      invariant EraseAll(s, rules) == EraseAll(s, r)
    {
      EraseAllKeepsHead(s, r);
      r := r[1..];
    }
  }

  /** A first rule that leaves `s` unchanged can be skipped. */
  lemma EraseAllKeepsHead(s: string, rules: seq<Rule>)
    requires |rules| > 0 && Erase(s, rules[0]) == s
    ensures EraseAll(s, rules) == EraseAll(s, rules[1..])
  {
  }

  /** `<name.*?>`: an opening tag of the given name with any attributes. */
  function OpenTag(name: string): Rule {
    Rule(Lit("<" + name), true)
  }

  /** `</name>`. */
  function CloseTag(name: string): Rule {
    Rule(Lit("</" + name + ">"), false)
  }

  const HeadingDigits: set<char> := {'1', '2', '3', '4', '5', '6'}

  /** `<h[1-6].*?>`. */
  const HeadingOpen: Rule := Rule(Lit("<h") + [HeadingDigits], true)

  /** `</h[1-6]>`. */
  const HeadingClose: Rule := Rule(Lit("</h") + [HeadingDigits] + Lit(">"), false)

  lemma OpenTagWellFormed(name: string)
    requires |name| > 0 && name[0] != '>'
    ensures WellFormed(OpenTag(name))
  {
    assert ("<" + name)[1] == name[0];
  }

  lemma CloseTagWellFormed(name: string)
    ensures WellFormed(CloseTag(name))
  {
    var t := "</" + name + ">";
    assert t[0] == '<' && t[1] == '/' && t[|t| - 1] == '>';
  }

  lemma HeadingRulesWellFormed()
    ensures WellFormed(HeadingOpen) && WellFormed(HeadingClose)
  {
    assert HeadingOpen.head[0] == {'<'} && HeadingOpen.head[1] == {'h'};
    assert HeadingClose.head[0] == {'<'} && HeadingClose.head[1] == {'/'};
    assert HeadingClose.head[|HeadingClose.head| - 1] == {'>'};
  }

  // ---------------------------------------------------------------------------
  // Lazy pairs: `<strong>(.*?)</strong>` and friends
  // ---------------------------------------------------------------------------

  /** `pat` occurs in `s` starting at position `k`. */
  predicate OccursAt(s: string, pat: string, k: nat) {
    k + |pat| <= |s| && s[k..k + |pat|] == pat
  }

  /** No newline lies in `s[from..to]`. */
  predicate OnOneLine(s: string, from: nat, to: nat) {
    forall m :: from <= m < to && m < |s| ==> s[m] != '\n'
  }

  /**
   * The first occurrence of `pat` at or after `from` that no newline precedes;
   * `None` when there is none before the end of the line.
   */
  function FindOnLine(s: string, pat: string, from: nat): (r: Option<nat>)
    ensures r.Some? ==> from <= r.value && OccursAt(s, pat, r.value)
    ensures r.Some? ==> forall k :: from <= k < r.value ==> s[k] != '\n' && !OccursAt(s, pat, k)
    ensures r.None? ==> forall k :: from <= k <= |s| && OnOneLine(s, from, k) ==> !OccursAt(s, pat, k)
    decreases |s| - from
  {
    if from > |s| then None
    else if from + |pat| <= |s| && s[from..from + |pat|] == pat then Some(from)
    else if from == |s| || s[from] == '\n' then None
    else FindOnLine(s, pat, from + 1)
  }

  /**
   * Where `open(.*?)close` matched at position `i` has its closer: `s[i..]`
   * starts with `open` and the result is the start of the first `close` after it.
   */
  function PairAt(s: string, i: nat, open: string, close: string): (r: Option<nat>)
    ensures r.Some? ==> i + |open| <= r.value && r.value + |close| <= |s|
    ensures r.Some? ==> s[i..i + |open|] == open && s[r.value..r.value + |close|] == close
    ensures r.Some? ==> forall k :: i + |open| <= k < r.value ==> s[k] != '\n' && !OccursAt(s, close, k)
  {
    if i + |open| <= |s| && s[i..i + |open|] == open then FindOnLine(s, close, i + |open|) else None
  }

  /** An opener and closer whose every match is a complete tag, such as `<b>` ... `</b>`. */
  predicate PairWellFormed(open: string, close: string) {
    |open| >= 2 && open[0] == '<' && open[1] != '>' && |close| >= 1 && close[|close| - 1] == '>'
  }

  lemma PairIsTag(s: string, i: nat, open: string, close: string)
    requires PairWellFormed(open, close) && PairAt(s, i, open, close).Some?
    ensures TagSpan(s, i, PairAt(s, i, open, close).value + |close| - 1)
  {
    var j := PairAt(s, i, open, close).value;
    assert s[i] == s[i..i + |open|][0] && s[i + 1] == s[i..i + |open|][1];
    assert s[j + |close| - 1] == s[j..j + |close|][|close| - 1];
  }

  /** `re.sub(open + '(.*?)' + close, newOpen + r'\1' + newClose, s)`. */
  function Rewrite(s: string, open: string, close: string, newOpen: string, newClose: string): (r: string)
    requires |open| > 0
    decreases |s|
  {
    if |s| == 0 then ""
    else match PairAt(s, 0, open, close)
      case Some(j) => newOpen + s[|open|..j] + newClose + Rewrite(s[j + |close|..], open, close, newOpen, newClose)
      case None => [s[0]] + Rewrite(s[1..], open, close, newOpen, newClose)
  }

  /** A well-formed pair finds nothing to rewrite in tag-free text. */
  lemma {:induction false} RewriteFixesTagFree(s: string, open: string, close: string, newOpen: string, newClose: string)
    requires PairWellFormed(open, close) && TagFree(s)
    ensures Rewrite(s, open, close, newOpen, newClose) == s
    decreases |s|
  {
    if |s| > 0 {
      if PairAt(s, 0, open, close).Some? {
        PairIsTag(s, 0, open, close);
        assert false;
      }
      SliceTagFree(s, 1, |s|);
      assert s[1..|s|] == s[1..];
      RewriteFixesTagFree(s[1..], open, close, newOpen, newClose);
      assert s == [s[0]] + s[1..];
    }
  }

  /** The lazy closer search runs over plain text on one line and settles on the first closer. */
  lemma {:induction false} FindOnLineAcrossPlain(s: string, pat: string, from: nat, stop: nat)
    requires from <= stop && |pat| > 0 && pat[0] == '<' && OccursAt(s, pat, stop)
    requires forall k :: from <= k < stop ==> s[k] != '<' && s[k] != '\n'
    ensures FindOnLine(s, pat, from) == Some(stop)
    decreases |s| - from
  {
    if from < stop {
      if from + |pat| <= |s| {
        assert s[from..from + |pat|][0] == s[from];
      }
      FindOnLineAcrossPlain(s, pat, from + 1, stop);
    }
  }

  /** `Rewrite` moves past a character where no pair opens. */
  lemma RewriteUnmatched(u: string, open: string, close: string, newOpen: string, newClose: string)
    requires |open| > 0 && |u| > 0 && PairAt(u, 0, open, close).None?
    ensures Rewrite(u, open, close, newOpen, newClose) == [u[0]] + Rewrite(u[1..], open, close, newOpen, newClose)
  {
  }

  /** Text without `<` is kept as it is in front of the rewritten rest. */
  lemma {:induction false} RewriteKeepsPlain(t: string, s: string, open: string, close: string, newOpen: string, newClose: string)
    requires |open| > 0 && open[0] == '<' && '<' !in t
    ensures Rewrite(t + s, open, close, newOpen, newClose) == t + Rewrite(s, open, close, newOpen, newClose)
    decreases |t|
  {
    if |t| == 0 {
      assert t + s == s;
    } else {
      var u := t + s;
      HeadTail(t, s);
      if |open| <= |u| {
        assert u[0..|open|][0] == u[0];
      }
      RewriteUnmatched(u, open, close, newOpen, newClose);
      RewriteKeepsPlain(t[1..], s, open, close, newOpen, newClose);
      HeadTail(t, Rewrite(s, open, close, newOpen, newClose));
    }
  }

  /** A tag whose second character differs from the opener's is kept whole in front of the rewritten rest. */
  lemma RewriteKeepsFront(tag: string, s: string, open: string, close: string, newOpen: string, newClose: string)
    requires |open| >= 2 && open[0] == '<'
    requires |tag| >= 2 && tag[1] != open[1] && '<' !in tag[1..]
    ensures Rewrite(tag + s, open, close, newOpen, newClose) == tag + Rewrite(s, open, close, newOpen, newClose)
  {
    var u := tag + s;
    HeadTail(tag, s);
    if |open| <= |u| {
      assert u[0..|open|][1] == u[1] == tag[1];
    }
    RewriteUnmatched(u, open, close, newOpen, newClose);
    RewriteKeepsPlain(tag[1..], s, open, close, newOpen, newClose);
    HeadTail(tag, Rewrite(s, open, close, newOpen, newClose));
  }

  /** `<name>t</name>`, with `t` plain text on one line, is rewritten to `newOpen + t + newClose`. */
  lemma RewriteWrapped(name: string, t: string, newOpen: string, newClose: string)
    requires '<' !in t && '\n' !in t
    ensures Rewrite(OpeningTag(name) + t + ClosingTag(name), OpeningTag(name), ClosingTag(name), newOpen, newClose)
            == newOpen + t + newClose
  {
    var open, close := OpeningTag(name), ClosingTag(name);
    var w := open + t + close;
    var j := |open| + |t|;
    WrappedPairAt(open, t, close);
    assert w[|open|..j] == t;
    assert w[j + |close|..] == [];
    assert newOpen + t + newClose + "" == newOpen + t + newClose;
  }

  /** In `open + t + close`, with `t` on one line and free of `<`, the opener's closer is the final `close`. */
  lemma WrappedPairAt(open: string, t: string, close: string)
    requires |open| > 0 && |close| > 0 && close[0] == '<'
    requires '<' !in t && '\n' !in t
    ensures PairAt(open + t + close, 0, open, close) == Some(|open| + |t|)
  {
    var w := open + t + close;
    var j := |open| + |t|;
    assert w[0..|open|] == open;
    assert w[j..j + |close|] == close;
    forall k | |open| <= k < j
      ensures w[k] != '<' && w[k] != '\n'
    {
      assert w[k] == t[k - |open|];
    }
    FindOnLineAcrossPlain(w, close, |open|, j);
  }

  /** Tags that cannot start the opener, around text without `<`, leave nothing to rewrite. */
  lemma RewriteKeepsWrapped(a: string, t: string, b: string, open: string, close: string, newOpen: string, newClose: string)
    requires |open| >= 2 && open[0] == '<' && '<' !in t
    requires |a| >= 2 && a[1] != open[1] && '<' !in a[1..]
    requires |b| >= 2 && b[1] != open[1] && '<' !in b[1..]
    ensures Rewrite(a + t + b, open, close, newOpen, newClose) == a + t + b
  {
    assert a + t + b == a + (t + (b + ""));
    RewriteKeepsFront(b, "", open, close, newOpen, newClose);
    RewriteKeepsPlain(t, b + "", open, close, newOpen, newClose);
    RewriteKeepsFront(a, t + (b + ""), open, close, newOpen, newClose);
  }
}
