/**
 * `html_to_markdown` of `src/converters/markdown_utils.py`: entities are
 * decoded first, then an ordered table of `re.sub` rules turns formatting
 * tags into markdown, remaining tags are dropped, blank-line runs collapse
 * and the result is stripped.
 *
 * Every rule is a left-to-right `re.sub` whose match is decided by hand:
 * `<tag>(.*?)</tag>` with DOTALL ends at the first closing tag after the
 * opener; `\s+` and `[^>]*` are greedy and what follows them cannot be
 * matched by a shorter choice, so each match is unique. Tags are
 * case-sensitive, as in the source.
 */
module HtmlMarkdown {

  import opened Wrappers
  import opened Strings

  // ---------------------------------------------------------------------------
  // Entities

  /** The entities the model decodes, with their characters. */
  const Entities: seq<(string, char)> := [
    ("&amp;", '&'), ("&lt;", '<'), ("&gt;", '>'), ("&quot;", '"'),
    ("&#39;", '\''), ("&apos;", '\''), ("&nbsp;", '\U{A0}')
  ]

  /** The first entity of `Entities[k..]` that `s` starts with. */
  function EntityPrefix(s: string, k: nat): (r: Option<(char, nat)>)
    requires k <= |Entities|
    ensures r.Some? ==> 0 < r.value.1 <= |s| && s[0] == '&'
    decreases |Entities| - k
  {
    if k == |Entities| then None
    else if StartsWith(s, Entities[k].0) then Some((Entities[k].1, |Entities[k].0|))
    else EntityPrefix(s, k + 1)
  }

  /** `html.unescape`, restricted to `Entities`: one left-to-right pass. */
  function Unescape(s: string): (r: string)
    ensures |r| <= |s|
    decreases |s|
  {
    if s == [] then []
    else match EntityPrefix(s, 0)
      case Some((c, n)) => [c] + Unescape(s[n..])
      case None => [s[0]] + Unescape(s[1..])
  }

  /** The encoding `Unescape` inverts: `&`, `<`, `>` and `"` as entities. */
  function Encode(s: string): (r: string)
    ensures |r| >= |s|
  {
    if s == [] then []
    else
      (match s[0]
       case '&' => "&amp;"
       case '<' => "&lt;"
       case '>' => "&gt;"
       case '"' => "&quot;"
       case _ => [s[0]])
      + Encode(s[1..])
  }

  /** Text without `&` has nothing to decode. */
  lemma {:induction false} UnescapePlain(s: string)
    requires !ContainsChar(s, '&')
    ensures Unescape(s) == s
    decreases |s|
  {
    if s != [] {
      assert s[0] != '&';
      assert !ContainsChar(s[1..], '&') by {
        forall i | 0 <= i < |s[1..]| ensures s[1..][i] != '&' {
          assert s[1..][i] == s[i + 1];
        }
      }
      UnescapePlain(s[1..]);
      assert s == [s[0]] + s[1..];
    }
  }

  /** The first four entities differ at their second character. */
  lemma EntityOf(k: nat, rest: string)
    requires k < 4
    ensures EntityPrefix(Entities[k].0 + rest, 0) == Some((Entities[k].1, |Entities[k].0|))
    ensures (Entities[k].0 + rest)[|Entities[k].0|..] == rest
  {
    var e := Entities[k].0;
    var s := e + rest;
    assert s[..|e|] == e;
    assert s[1] == e[1];
    forall j | 0 <= j < k
      ensures !StartsWith(s, Entities[j].0)
    {
      assert Entities[j].0[1] != e[1];
    }
    if k > 0 { assert EntityPrefix(s, 1) == EntityPrefix(s, k) || k == 1; }
  }

  /** Decoding undoes encoding: entities are decoded once, never twice. */
  lemma {:induction false} UnescapeEncode(s: string)
    ensures Unescape(Encode(s)) == s
    decreases |s|
  {
    if s != [] {
      var rest := Encode(s[1..]);
      UnescapeEncode(s[1..]);
      match s[0]
      case '&' => EntityOf(0, rest);
      case '<' => EntityOf(1, rest);
      case '>' => EntityOf(2, rest);
      case '"' => EntityOf(3, rest);
      case _ =>
        assert Encode(s) == [s[0]] + rest;
        assert ([s[0]] + rest)[1..] == rest;
      assert s == [s[0]] + s[1..];
    }
  }

  // ---------------------------------------------------------------------------
  // Substitution rules

  /**
   * The opening part of a pair rule: `<name>`, a span with a quoted style
   * and any further attributes, or a span with exactly that style.
   */
  datatype Opener = Tag(name: string) | StyledSpan(style: string, quote: char) | BareSpan(style: string, quote: char)

  datatype Sub =
    | Pair(open: Opener, close: string, before: string, after: string)
    | Link
    | AnchorLink
    | Citation
    | Break
    | StripTag
    | BlankLines

  /** A match: its replacement and the offset just after it. */
  datatype Hit = Hit(repl: string, end: nat)

  /** The character every match of the rule starts with. */
  function Lead(sub: Sub): char
  {
    if sub.BlankLines? then '\n' else if sub.Citation? then 'F' else '<'
  }

  /** The offset just after the opener at `i`, if one is there. */
  function OpenerEnd(t: string, i: nat, o: Opener): (r: Option<nat>)
    requires i <= |t|
    ensures r.Some? ==> i < r.value <= |t| && t[i] == '<'
  {
    match o
    case Tag(name) =>
      var lit := "<" + name + ">";
      if OccursAt(t, lit, i) then
        assert t[i..i + |lit|][0] == t[i];
        Some(i + |lit|)
      else None
    case StyledSpan(style, q) =>
      if !OccursAt(t, "<span", i) then None
      else
        assert t[i..i + 5][0] == t[i];
        var j := SkipSpaces(t, i + 5);
        var attr := "style=" + [q] + style + [q];
        if j == i + 5 || !OccursAt(t, attr, j) then None
        else
          var g := FirstIn(t, {'>'}, j + |attr|);
          if g == |t| then None else Some(g + 1)
    case BareSpan(style, q) =>
      if !OccursAt(t, "<span", i) then None
      else
        assert t[i..i + 5][0] == t[i];
        var j := SkipSpaces(t, i + 5);
        var attr := "style=" + [q] + style + [q] + ">";
        if j == i + 5 || !OccursAt(t, attr, j) then None else Some(j + |attr|)
  }

  /** `open(.*?)close` at `i`, replaced by `before + body + after`. */
  function PairAt(t: string, i: nat, o: Opener, close: string, before: string, after: string): (r: Option<Hit>)
    requires i <= |t|
    requires close != []
    ensures r.Some? ==> i < r.value.end <= |t| && t[i] == '<'
  {
    match OpenerEnd(t, i, o)
    case None => None
    case Some(b) =>
      match FindFrom(t, close, b)
      case None => None
      case Some(c) => Some(Hit(before + t[b..c] + after, c + |close|))
  }

  /** `<a\s+href=["']([^"']+)["'][^>]*>(.*?)</a>` at `i`, replaced by `[text](href)`. */
  function LinkAt(t: string, i: nat): (r: Option<Hit>)
    requires i <= |t|
    ensures r.Some? ==> i < r.value.end <= |t| && t[i] == '<'
  {
    if !OccursAt(t, "<a", i) then None
    else
      assert t[i..i + 2][0] == t[i];
      var j := SkipSpaces(t, i + 2);
      if j == i + 2 || !OccursAt(t, "href=", j) || j + 5 == |t| || t[j + 5] !in {'"', '\''} then None
      else
        var q := j + 5;
        var h := FirstIn(t, {'"', '\''}, q + 1);
        if h == |t| || h == q + 1 then None
        else
          var g := FirstIn(t, {'>'}, h + 1);
          if g == |t| then None
          else
            match FindFrom(t, "</a>", g + 1)
            case None => None
            case Some(c) => Some(Hit("[" + t[g + 1..c] + "](" + t[q + 1..h] + ")", c + 4))
  }

  /** `<a href="(.*?)">(.*?)</a>` at `i`, replaced by `[text](href)`. */
  function AnchorAt(t: string, i: nat): (r: Option<Hit>)
    requires i <= |t|
    ensures r.Some? ==> i < r.value.end <= |t| && t[i] == '<'
  {
    var open := "<a href=\"";
    if !OccursAt(t, open, i) then None
    else
      assert t[i..i + |open|][0] == t[i];
      match FindFrom(t, "\">", i + |open|)
      case None => None
      case Some(h) =>
        match FindFrom(t, "</a>", h + 2)
        case None => None
        case Some(c) => Some(Hit("[" + t[h + 2..c] + "](" + t[i + |open|..h] + ")", c + 4))
  }

  /** `From &lt;(.*?)&gt;` at `i`, the body on one line, replaced by `*Source: body*`. */
  function CitationAt(t: string, i: nat): (r: Option<Hit>)
    requires i <= |t|
    ensures r.Some? ==> i < r.value.end <= |t| && t[i] == 'F'
  {
    var open := "From &lt;";
    if !OccursAt(t, open, i) then None
    else
      assert t[i..i + |open|][0] == t[i];
      match FindFrom(t, "&gt;", i + |open|)
      case None => None
      case Some(g) =>
        if '\n' in t[i + |open|..g] then None
        else Some(Hit("*Source: " + t[i + |open|..g] + "*", g + 4))
  }

  /** A line break at `i` (`<br`, optional whitespace, an optional slash, `>`), replaced by a newline. */
  function BreakAt(t: string, i: nat): (r: Option<Hit>)
    requires i <= |t|
    ensures r.Some? ==> i < r.value.end <= |t| && t[i] == '<'
  {
    if !OccursAt(t, "<br", i) then None
    else
      assert t[i..i + 3][0] == t[i];
      var j := SkipSpaces(t, i + 3);
      var k := if j < |t| && t[j] == '/' then j + 1 else j;
      if k < |t| && t[k] == '>' then Some(Hit("\n", k + 1)) else None
  }

  /** `<[^>]+>` at `i`, removed. */
  function StripTagAt(t: string, i: nat): (r: Option<Hit>)
    requires i < |t|
    ensures r.Some? ==> i < r.value.end <= |t| && t[i] == '<'
  {
    if t[i] != '<' then None
    else
      var g := FirstIn(t, {'>'}, i + 1);
      if g == |t| || g == i + 1 then None else Some(Hit([], g + 1))
  }

  /** The last newline in `t[a..b]`, if any. */
  function LastNewline(t: string, a: nat, b: nat): (r: Option<nat>)
    requires a <= b <= |t|
    ensures r.Some? ==> a <= r.value < b && t[r.value] == '\n'
    ensures r.Some? ==> forall k :: r.value < k < b ==> t[k] != '\n'
    ensures r.None? ==> forall k :: a <= k < b ==> t[k] != '\n'
    decreases b - a
  {
    if a == b then None
    else if t[b - 1] == '\n' then Some(b - 1)
    else LastNewline(t, a, b - 1)
  }

  /**
   * `\n\s*\n` at `i`, replaced by two newlines: the greedy `\s*` runs to the
   * end of the whitespace and gives back characters up to its last newline.
   */
  function BlankLinesAt(t: string, i: nat): (r: Option<Hit>)
    requires i < |t|
    ensures r.Some? ==> i < r.value.end <= |t| && t[i] == '\n'
  {
    if t[i] != '\n' then None
    else
      match LastNewline(t, i + 1, SkipSpaces(t, i + 1))
      case None => None
      case Some(l) => Some(Hit("\n\n", l + 1))
  }

  /** The rule's match at `i`, if any. */
  function SubAt(sub: Sub, t: string, i: nat): (r: Option<Hit>)
    requires i < |t|
    ensures r.Some? ==> i < r.value.end <= |t| && t[i] == Lead(sub)
  {
    match sub
    case Pair(o, close, before, after) => if close == [] then None else PairAt(t, i, o, close, before, after)
    case Link => LinkAt(t, i)
    case AnchorLink => AnchorAt(t, i)
    case Citation => CitationAt(t, i)
    case Break => BreakAt(t, i)
    case StripTag => StripTagAt(t, i)
    case BlankLines => BlankLinesAt(t, i)
  }

  /** The rule's match at every offset of `t`. */
  function Table(sub: Sub, t: string): (tab: seq<Option<Hit>>)
    ensures Valid(tab, t) && Leads(tab, t, Lead(sub))
    ensures forall i :: 0 <= i < |t| ==> tab[i] == SubAt(sub, t, i)
  {
    seq(|t|, i requires 0 <= i < |t| => SubAt(sub, t, i))
  }

  /** Every match in `tab` lies in `t` and is not empty. */
  predicate Valid(tab: seq<Option<Hit>>, t: string)
  {
    |tab| == |t| && forall i :: 0 <= i < |tab| && tab[i].Some? ==> i < tab[i].value.end <= |t|
  }

  /** Every match in `tab` starts with `c`. */
  predicate Leads(tab: seq<Option<Hit>>, t: string, c: char)
    requires |tab| == |t|
  {
    forall i :: 0 <= i < |tab| && tab[i].Some? ==> t[i] == c
  }

  /** Where `re.sub` resumes after offset `i`. */
  function Next(tab: seq<Option<Hit>>, t: string, i: nat): (j: nat)
    requires Valid(tab, t) && i < |t|
    ensures i < j <= |t|
  {
    match tab[i]
    case Some(h) => h.end
    case None => i + 1
  }

  /** What `re.sub` writes for offset `i`. */
  function Emit(tab: seq<Option<Hit>>, t: string, i: nat): string
    requires Valid(tab, t) && i < |t|
  {
    match tab[i]
    case Some(h) => h.repl
    case None => [t[i]]
  }

  /** `re.sub` over `t[i..]`, left to right, with the matches `tab`. */
  function Run(tab: seq<Option<Hit>>, t: string, i: nat): string
    requires Valid(tab, t) && i <= |t|
    decreases |t| - i
  {
    if i == |t| then [] else Emit(tab, t, i) + Run(tab, t, Next(tab, t, i))
  }

  /** `re.sub` of one rule over `t`. */
  function Apply(sub: Sub, t: string): string
  {
    Run(Table(sub, t), t, 0)
  }

  /** The rules of `html_to_markdown`, in the order the source applies them. */
  function Rules(highlight: string): seq<Sub>
  {
    [ Pair(Tag("strong"), "</strong>", "**", "**"),
      Pair(Tag("b"), "</b>", "**", "**"),
      Pair(StyledSpan("font-weight:bold", '\''), "</span>", "**", "**"),
      Pair(StyledSpan("font-weight:bold", '"'), "</span>", "**", "**"),
      Pair(Tag("em"), "</em>", "*", "*"),
      Pair(Tag("i"), "</i>", "*", "*"),
      Pair(StyledSpan("font-style:italic", '\''), "</span>", "*", "*"),
      Pair(StyledSpan("font-style:italic", '"'), "</span>", "*", "*"),
      Pair(Tag("u"), "</u>", "**", "**"),
      Pair(StyledSpan("text-decoration:underline", '\''), "</span>", "**", "**"),
      Pair(StyledSpan("text-decoration:underline", '"'), "</span>", "**", "**"),
      Pair(Tag("s"), "</s>", "~~", "~~"),
      Pair(Tag("strike"), "</strike>", "~~", "~~"),
      Pair(Tag("del"), "</del>", "~~", "~~"),
      Pair(StyledSpan("text-decoration:line-through", '\''), "</span>", "~~", "~~"),
      Pair(StyledSpan("text-decoration:line-through", '"'), "</span>", "~~", "~~"),
      Pair(Tag("code"), "</code>", "`", "`"),
      Pair(Tag("tt"), "</tt>", "`", "`"),
      Pair(Tag("sup"), "</sup>", "^[", "]"),
      Pair(Tag("sub"), "</sub>", "~[", "]"),
      Pair(StyledSpan(HighlightStyle, '\''), "</span>", highlight, highlight),
      Pair(StyledSpan(HighlightStyle, '"'), "</span>", highlight, highlight),
      Link,
      Break,
      StripTag,
      BlankLines ]
  }

  const HighlightStyle: string := "background:yellow;mso-highlight:yellow"

  /** The rules applied one after the other. */
  function ApplyAll(subs: seq<Sub>, t: string): string
    decreases |subs|
  {
    if subs == [] then t else ApplyAll(subs[1..], Apply(subs[0], t))
  }

  function HtmlToMarkdown(html: string, highlight: string): (r: string)
    ensures IsStripped(r)
  {
    Strip(ApplyAll(Rules(highlight), Unescape(html)))
  }

  // ---------------------------------------------------------------------------
  // What a rule does to text

  /** A stretch without the lead character is copied unchanged. */
  lemma {:induction false} RunSkip(tab: seq<Option<Hit>>, t: string, c: char, i: nat, j: nat)
    requires Valid(tab, t) && Leads(tab, t, c)
    requires i <= j <= |t|
    requires forall k :: i <= k < j ==> t[k] != c
    ensures Run(tab, t, i) == t[i..j] + Run(tab, t, j)
    decreases j - i
  {
    if i < j {
      RunSkip(tab, t, c, i + 1, j);
      assert tab[i].None?;
      ConcatAssoc([t[i]], t[i + 1..j], Run(tab, t, j));
      assert t[i..j] == [t[i]] + t[i + 1..j];
    }
  }

  /** Text without the rule's lead character comes back unchanged. */
  lemma ApplyIdentity(sub: Sub, t: string)
    requires !ContainsChar(t, Lead(sub))
    ensures Apply(sub, t) == t
  {
    RunSkip(Table(sub, t), t, Lead(sub), 0, |t|);
  }

  lemma {:induction false} ApplyAllIdentity(subs: seq<Sub>, t: string)
    requires forall k :: 0 <= k < |subs| ==> !ContainsChar(t, Lead(subs[k]))
    ensures ApplyAll(subs, t) == t
    decreases |subs|
  {
    if subs != [] {
      ApplyIdentity(subs[0], t);
      ApplyAllIdentity(subs[1..], t);
    }
  }

  /** The close tag is found right after a body without `<`. */
  lemma CloseAfterBody(t: string, close: string, b: nat, c: nat)
    requires b <= c && OccursAt(t, close, c) && close != [] && close[0] == '<'
    requires forall k :: b <= k < c ==> t[k] != '<'
    ensures FindFrom(t, close, b) == Some(c)
  {
    forall k | b <= k < c
      ensures !OccursAt(t, close, k)
    {
      if k + |close| <= |t| {
        assert t[k..k + |close|][0] == t[k];
      }
    }
    FindFromIs(t, close, b, c);
  }

  /** A text that starts with `<name>` has the opener there. */
  lemma TagOpens(name: string, rest: string)
    ensures OpenerEnd("<" + name + ">" + rest, 0, Tag(name)) == Some(|name| + 2)
  {
    var open := "<" + name + ">";
    var t := open + rest;
    assert t[0..|open|] == open;
  }

  /** An opener, a body without `<`, and a close tag starting with `<` form one match. */
  lemma PairHit(open: string, x: string, close: string, o: Opener, before: string, after: string)
    requires OpenerEnd(open + x + close, 0, o) == Some(|open|)
    requires close != [] && close[0] == '<' && !ContainsChar(x, '<')
    ensures PairAt(open + x + close, 0, o, close, before, after) == Some(Hit(before + x + after, |open + x + close|))
  {
    BodyThenClose(open, x, close);
    PairAtIs(open + x + close, o, close, before, after, |open|, |open| + |x|);
  }

  /** A body without `<` holds no close tag starting with `<`: the first one is right after it. */
  lemma BodyThenClose(open: string, x: string, close: string)
    requires close != [] && close[0] == '<' && !ContainsChar(x, '<')
    ensures var t := open + x + close; t[|open|..|open| + |x|] == x
    ensures FindFrom(open + x + close, close, |open|) == Some(|open| + |x|)
  {
    var t := open + x + close;
    var b := |open|;
    var c := b + |x|;
    assert t[b..c] == x;
    assert t[c..] == close;
    forall k | b <= k < c
      ensures t[k] != '<'
    {
      assert t[k] == x[k - b];
    }
    CloseAfterBody(t, close, b, c);
  }

  /** The pair rule at the start, given where its opener ends and where its close tag starts. */
  lemma PairAtIs(t: string, o: Opener, close: string, before: string, after: string, b: nat, c: nat)
    requires close != [] && b <= c && c + |close| <= |t|
    requires OpenerEnd(t, 0, o) == Some(b) && FindFrom(t, close, b) == Some(c)
    ensures PairAt(t, 0, o, close, before, after) == Some(Hit(before + t[b..c] + after, c + |close|))
  {
  }

  /** A table whose first entry matches the whole text rewrites it to that entry's replacement. */
  lemma RunWhole(tab: seq<Option<Hit>>, t: string, repl: string)
    requires Valid(tab, t) && t != [] && tab[0] == Some(Hit(repl, |t|))
    ensures Run(tab, t, 0) == repl
  {
    assert Run(tab, t, |t|) == [];
  }

  /** A pair rule on `<name>x</name>`, with no `<` inside `x`, wraps `x`. */
  lemma TagPairWraps(name: string, before: string, after: string, x: string)
    requires !ContainsChar(x, '<')
    ensures var open := "<" + name + ">"; var close := "</" + name + ">";
      Apply(Pair(Tag(name), close, before, after), open + x + close) == before + x + after
  {
    var open := "<" + name + ">";
    var close := "</" + name + ">";
    var t := open + x + close;
    TagOpens(name, x + close);
    ConcatAssoc(open, x, close);
    PairHit(open, x, close, Tag(name), before, after);
    RunWhole(Table(Pair(Tag(name), close, before, after), t), t, before + x + after);
  }

  /** `<sup>x</sup>` becomes `^[x]`. */
  lemma SupWraps(x: string)
    requires !ContainsChar(x, '<')
    ensures Apply(Rules("==")[18], "<sup>" + x + "</sup>") == "^[" + x + "]"
  {
    assert "<" + "sup" + ">" == "<sup>";
    assert "</" + "sup" + ">" == "</sup>";
    assert Rules("==")[18] == Pair(Tag("sup"), "</sup>", "^[", "]");
    TagPairWraps("sup", "^[", "]", x);
  }

  /** `<sub>x</sub>` becomes `~[x]`. */
  lemma SubWraps(x: string)
    requires !ContainsChar(x, '<')
    ensures Apply(Rules("==")[19], "<sub>" + x + "</sub>") == "~[" + x + "]"
  {
    assert "<" + "sub" + ">" == "<sub>";
    assert "</" + "sub" + ">" == "</sub>";
    assert Rules("==")[19] == Pair(Tag("sub"), "</sub>", "~[", "]");
    TagPairWraps("sub", "~[", "]", x);
  }

  /** A pair rule on a styled span whose body has no `<` wraps the body. */
  lemma SpanPairWraps(style: string, q: char, before: string, after: string, x: string)
    requires q == '\'' || q == '"'
    requires !ContainsChar(style, '>') && !ContainsChar(x, '<')
    ensures var open := "<span style=" + [q] + style + [q] + ">";
      Apply(Pair(StyledSpan(style, q), "</span>", before, after), open + x + "</span>") == before + x + after
  {
    var open := "<span style=" + [q] + style + [q] + ">";
    var t := open + x + "</span>";
    SpanOpens(style, q, x + "</span>");
    ConcatAssoc(open, x, "</span>");
    PairHit(open, x, "</span>", StyledSpan(style, q), before, after);
    RunWhole(Table(Pair(StyledSpan(style, q), "</span>", before, after), t), t, before + x + after);
  }

  /** A highlight span becomes the caller's token on both sides of its body. */
  lemma HighlightWraps(highlight: string, x: string)
    requires !ContainsChar(x, '<')
    ensures Apply(Rules(highlight)[20], "<span style=" + ['\''] + HighlightStyle + ['\''] + ">" + x + "</span>")
            == highlight + x + highlight
  {
    assert Rules(highlight)[20] == Pair(StyledSpan(HighlightStyle, '\''), "</span>", highlight, highlight);
    assert !ContainsChar(HighlightStyle, '>') by {
      forall k | 0 <= k < |HighlightStyle| ensures HighlightStyle[k] != '>' { }
    }
    SpanPairWraps(HighlightStyle, '\'', highlight, highlight, x);
  }

  /** A text that starts with `<span style='style'>` has that opener there. */
  lemma SpanOpens(style: string, q: char, rest: string)
    requires q == '\'' || q == '"'
    requires !ContainsChar(style, '>')
    ensures OpenerEnd("<span style=" + [q] + style + [q] + ">" + rest, 0, StyledSpan(style, q))
            == Some(|style| + 15)
  {
    var attr := "style=" + [q] + style + [q];
    var open := "<span " + attr + ">";
    var t := open + rest;
    assert "<span style=" + [q] + style + [q] + ">" == open;
    assert t[..5] == "<span";
    assert t[5] == ' ';
    assert t[6] == 's';
    assert SkipSpaces(t, 5) == 6;
    assert t[6..6 + |attr|] == attr;
    assert t[|open| - 1] == '>';
    FirstInIs(t, {'>'}, 6 + |attr|, |open| - 1);
  }

  /** A text that starts with `<span style='style'>` has the bare opener there, ending right after its `>`. */
  lemma BareSpanOpens(style: string, q: char, rest: string)
    ensures OpenerEnd("<span style=" + [q] + style + [q] + ">" + rest, 0, BareSpan(style, q))
            == Some(|style| + 15)
  {
    var attr := "style=" + [q] + style + [q] + ">";
    var open := "<span " + attr;
    var t := open + rest;
    assert "<span style=" + [q] + style + [q] + ">" == open;
    assert t[..5] == "<span";
    assert t[5] == ' ';
    assert t[6] == 's';
    assert SkipSpaces(t, 5) == 6;
    assert t[6..6 + |attr|] == attr;
  }

  /** `<br>` at `i` is a line break: one newline replaces four characters. */
  lemma BreakHit(t: string, i: nat)
    requires OccursAt(t, "<br>", i)
    ensures BreakAt(t, i) == Some(Hit("\n", i + 4))
  {
    assert t[i..i + 4][..3] == "<br";
    assert t[i..i + 3] == "<br";
    assert t[i + 3] == t[i..i + 4][3];
    assert !IsSpace(t[i + 3]);
  }

  /** `<br/>` at `i` is a line break: one newline replaces five characters. */
  lemma BreakSlashHit(t: string, i: nat)
    requires OccursAt(t, "<br/>", i)
    ensures BreakAt(t, i) == Some(Hit("\n", i + 5))
  {
    assert t[i..i + 5][..3] == "<br";
    assert t[i..i + 3] == "<br";
    assert t[i + 3] == t[i..i + 5][3];
    assert t[i + 4] == t[i..i + 5][4];
    assert !IsSpace(t[i + 3]);
  }

  /** `<br>` and `<br/>` each become a single newline. */
  lemma BreakBecomesNewline()
    ensures Apply(Break, "<br>") == "\n"
    ensures Apply(Break, "<br/>") == "\n"
  {
    BreakHit("<br>", 0);
    RunWhole(Table(Break, "<br>"), "<br>", "\n");
    BreakSlashHit("<br/>", 0);
    RunWhole(Table(Break, "<br/>"), "<br/>", "\n");
  }

  /** Where the table holds no match, the text is copied. */
  lemma {:induction false} RunNone(tab: seq<Option<Hit>>, t: string, i: nat)
    requires Valid(tab, t) && i <= |t|
    requires forall k :: i <= k < |t| ==> tab[k].None?
    ensures Run(tab, t, i) == t[i..]
    decreases |t| - i
  {
    if i < |t| {
      RunNone(tab, t, i + 1);
      assert t[i..] == [t[i]] + t[i + 1..];
    }
  }

  /** A tag rule whose name never follows a `<` of the text leaves the text as it is. */
  lemma TagMisses(name: string, close: string, before: string, after: string, t: string)
    requires name != []
    requires forall k :: 0 <= k < |t| && t[k] == '<' ==> k + 1 < |t| && t[k + 1] != name[0]
    ensures Apply(Pair(Tag(name), close, before, after), t) == t
  {
    var sub := Pair(Tag(name), close, before, after);
    var lit := "<" + name + ">";
    forall k | 0 <= k < |t|
      ensures !OccursAt(t, lit, k)
    {
      if k + |lit| <= |t| {
        assert t[k..k + |lit|][0] == t[k];
        assert t[k..k + |lit|][1] == t[k + 1];
      }
    }
    RunNone(Table(sub, t), t, 0);
  }

  /** The text `**x**` holds no `<` and no newline when `x` holds none. */
  lemma BoldPlain(x: string)
    requires !ContainsChar(x, '<') && !ContainsChar(x, '\n')
    ensures var w := "**" + x + "**";
      !ContainsChar(w, '<') && !ContainsChar(w, '\n') && IsStripped(w)
  {
    var w := "**" + x + "**";
    forall k | 2 <= k < 2 + |x| ensures w[k] == x[k - 2] { }
  }

  /** Text with neither `<` nor a newline passes every rule but the citation rule unchanged. */
  lemma PlainIdentity(subs: seq<Sub>, t: string)
    requires !ContainsChar(t, '<') && !ContainsChar(t, '\n')
    requires forall k :: 0 <= k < |subs| ==> !subs[k].Citation?
    ensures ApplyAll(subs, t) == t
  {
    ApplyAllIdentity(subs, t);
  }

  /** Plain text passes the shared table's rules after the first two unchanged. */
  lemma RulesTailPlain(highlight: string, t: string)
    requires !ContainsChar(t, '<') && !ContainsChar(t, '\n')
    ensures ApplyAll(Rules(highlight)[2..], t) == t
  {
    var subs := Rules(highlight)[2..];
    assert forall k :: 0 <= k < |subs| ==> !subs[k].Citation?;
    PlainIdentity(subs, t);
  }

  /** The first two rules of the table. */
  lemma RulesHead(highlight: string)
    ensures Rules(highlight)[0] == Pair(Tag("strong"), "</strong>", "**", "**")
    ensures Rules(highlight)[1] == Pair(Tag("b"), "</b>", "**", "**")
  {
  }

  /** Applying a list of rules: the first two, then the rest. */
  lemma ApplyAllTwo(subs: seq<Sub>, t: string)
    requires |subs| >= 2
    ensures ApplyAll(subs, t) == ApplyAll(subs[2..], Apply(subs[1], Apply(subs[0], t)))
  {
    assert subs[1..][1..] == subs[2..];
  }

  /** The `<strong>` rule does not touch `<b>x</b>`. */
  lemma StrongMissesBold(x: string)
    requires !ContainsChar(x, '<')
    ensures Apply(Pair(Tag("strong"), "</strong>", "**", "**"), "<b>" + x + "</b>") == "<b>" + x + "</b>"
  {
    var u := "<b>" + x + "</b>";
    assert forall j :: 3 <= j < 3 + |x| ==> u[j] == x[j - 3];
    assert forall k :: 0 <= k < |u| && u[k] == '<' ==> k + 1 < |u| && u[k + 1] != 's';
    TagMisses("strong", "</strong>", "**", "**", u);
  }

  /** The `<b>` rule turns `<b>x</b>` into `**x**`. */
  lemma BoldWraps(x: string)
    requires !ContainsChar(x, '<')
    ensures Apply(Pair(Tag("b"), "</b>", "**", "**"), "<b>" + x + "</b>") == "**" + x + "**"
  {
    assert "<" + "b" + ">" == "<b>" && "</" + "b" + ">" == "</b>";
    TagPairWraps("b", "**", "**", x);
  }

  /**
   * Entities are decoded before the tag rules run: an entity-encoded bold tag
   * renders as bold markdown.
   */
  lemma EntityEncodedBold(x: string, highlight: string)
    requires !ContainsChar(x, '<') && !ContainsChar(x, '\n')
    ensures HtmlToMarkdown(Encode("<b>" + x + "</b>"), highlight) == "**" + x + "**"
  {
    var u := "<b>" + x + "</b>";
    var w := "**" + x + "**";
    var subs := Rules(highlight);
    UnescapeEncode(u);
    ApplyAllTwo(subs, u);
    RulesHead(highlight);
    StrongMissesBold(x);
    BoldWraps(x);
    BoldPlain(x);
    RulesTailPlain(highlight, w);
    StripStripped(w);
  }

  // ---------------------------------------------------------------------------
  // Whitespace cleanup

  /** Newlines at `a` and `b` with only whitespace between them. */
  ghost predicate BlankBetween(r: string, a: int, b: int)
  {
    0 <= a < b < |r| && r[a] == '\n' && r[b] == '\n' && IsBlank(r[a + 1..b])
  }

  /** Newlines separated only by whitespace are adjacent: no blank line survives. */
  ghost predicate Collapsed(r: string)
  {
    forall a, b :: BlankBetween(r, a, b) ==> b == a + 1
  }

  /** The leading whitespace of `s` holds a newline. */
  ghost predicate LeadingNewline(s: string)
  {
    exists k :: 0 <= k < |s| && s[k] == '\n' && IsBlank(s[..k])
  }

  /** The trailing whitespace of `s` holds a newline. */
  ghost predicate TrailingNewline(s: string)
  {
    exists k :: 0 <= k < |s| && s[k] == '\n' && IsBlank(s[k + 1..])
  }

  /** A blank line inside the left part is one of its own. */
  lemma BlankBetweenLeft(x: string, y: string, a: int, b: int)
    requires BlankBetween(x + y, a, b) && b < |x|
    ensures BlankBetween(x, a, b)
  {
    assert (x + y)[a + 1..b] == x[a + 1..b];
  }

  /** A blank line inside the right part is one of its own. */
  lemma BlankBetweenRight(x: string, y: string, a: int, b: int)
    requires BlankBetween(x + y, a, b) && |x| <= a
    ensures BlankBetween(y, a - |x|, b - |x|)
  {
    assert (x + y)[a + 1..b] == y[a - |x| + 1..b - |x|];
  }

  /** A blank line across the seam needs a trailing newline on the left and a leading one on the right. */
  lemma BlankBetweenSeam(x: string, y: string, a: int, b: int)
    requires BlankBetween(x + y, a, b) && a < |x| <= b
    ensures TrailingNewline(x) && LeadingNewline(y)
  {
    var r := x + y;
    assert r[a + 1..b] == x[a + 1..] + y[..b - |x|];
    BlankConcat(x[a + 1..], y[..b - |x|]);
    assert x[a] == '\n' && y[b - |x|] == '\n';
  }

  /** Joining two collapsed texts keeps them collapsed unless a blank line forms at the seam. */
  lemma CollapsedConcat(x: string, y: string)
    requires Collapsed(x) && Collapsed(y)
    requires !(TrailingNewline(x) && LeadingNewline(y))
    ensures Collapsed(x + y)
  {
    forall a, b | BlankBetween(x + y, a, b)
      ensures b == a + 1
    {
      if b < |x| {
        BlankBetweenLeft(x, y, a, b);
      } else if |x| <= a {
        BlankBetweenRight(x, y, a, b);
      } else {
        BlankBetweenSeam(x, y, a, b);
      }
    }
  }

  lemma CollapsedSingle(c: char)
    ensures Collapsed([c])
  {
  }

  lemma CollapsedPair()
    ensures Collapsed("\n\n")
  {
  }

  /** Whitespace without a newline up to a non-space (or the end) means no leading newline. */
  lemma NoLeadingNewlineAt(s: string, e: nat)
    requires e <= |s| && (e == |s| || !IsSpace(s[e]))
    requires forall k :: 0 <= k < e ==> s[k] != '\n'
    ensures !LeadingNewline(s)
  {
    forall k | 0 <= k < |s| && s[k] == '\n'
      ensures !IsBlank(s[..k])
    {
      assert IsSpace(s[k]);
      assert e < k;
      assert s[..k][e] == s[e];
    }
  }

  /** After whitespace without a newline that ends the text or meets a non-space, there is no leading newline. */
  lemma NoLeadingNewline(t: string, j: nat, e: nat)
    requires j <= e <= |t| && (e == |t| || !IsSpace(t[e]))
    requires forall k :: j <= k < e ==> t[k] != '\n'
    ensures !LeadingNewline(t[j..])
  {
    forall k | 0 <= k < e - j
      ensures t[j..][k] != '\n'
    {
      assert t[j..][k] == t[j + k];
    }
    NoLeadingNewlineAt(t[j..], e - j);
  }

  /** A leading space that is not a newline does not change whether a newline leads. */
  /** Skipping one space that is not a newline keeps whether a newline leads. */
  lemma LeadingNewlineSkip(t: string, i: nat)
    requires i < |t| && IsSpace(t[i]) && t[i] != '\n'
    ensures LeadingNewline(t[i..]) <==> LeadingNewline(t[i + 1..])
  {
    assert t[i..] == [t[i]] + t[i + 1..];
    LeadingNewlineCons(t[i], t[i + 1..]);
  }

  lemma LeadingNewlineCons(c: char, s: string)
    requires IsSpace(c) && c != '\n'
    ensures LeadingNewline([c] + s) <==> LeadingNewline(s)
  {
    var r := [c] + s;
    forall k | 0 < k < |r|
      ensures r[k] == s[k - 1]
      ensures r[..k] == [c] + s[..k - 1]
    {
    }
    forall k | 0 <= k < |s|
      ensures IsBlank(r[..k + 1]) <==> IsBlank(s[..k])
    {
      assert r[..k + 1] == [c] + s[..k];
      BlankConcat([c], s[..k]);
    }
    if LeadingNewline(r) {
      var k :| 0 <= k < |r| && r[k] == '\n' && IsBlank(r[..k]);
      assert s[k - 1] == '\n';
    }
    if LeadingNewline(s) {
      var k :| 0 <= k < |s| && s[k] == '\n' && IsBlank(s[..k]);
      assert r[k + 1] == '\n';
    }
  }

  /** The cleanup keeps whether the remaining text starts with a newline in its leading whitespace. */
  lemma {:induction false} RunLeadingNewline(t: string, i: nat)
    requires i <= |t|
    ensures LeadingNewline(Run(Table(BlankLines, t), t, i)) <==> LeadingNewline(t[i..])
    decreases |t| - i
  {
    var tab := Table(BlankLines, t);
    if i < |t| {
      var rest := Run(tab, t, Next(tab, t, i));
      var r := Run(tab, t, i);
      assert r == Emit(tab, t, i) + rest;
      if t[i] == '\n' {
        assert r[0] == '\n' && t[i..][0] == '\n';
        assert IsBlank(r[..0]) && IsBlank(t[i..][..0]);
      } else if !IsSpace(t[i]) {
        assert tab[i].None?;
        assert r[0] == t[i] && t[i..][0] == t[i];
        NoLeadingNewlineAt(r, 0);
        NoLeadingNewlineAt(t[i..], 0);
      } else {
        assert tab[i].None?;
        RunLeadingNewline(t, i + 1);
        LeadingNewlineCons(t[i], rest);
        LeadingNewlineSkip(t, i);
      }
    }
  }

  /** A text ending in one character other than a newline has no trailing newline. */
  lemma NoTrailingNewline(c: char)
    requires c != '\n'
    ensures !TrailingNewline([c])
  {
  }

  /** The blank-line rule leaves no blank line behind. */
  lemma {:induction false} RunCollapsed(t: string, i: nat)
    requires i <= |t|
    ensures Collapsed(Run(Table(BlankLines, t), t, i))
    decreases |t| - i
  {
    var tab := Table(BlankLines, t);
    if i < |t| {
      var j := Next(tab, t, i);
      RunCollapsed(t, j);
      RunLeadingNewline(t, j);
      var rest := Run(tab, t, j);
      if tab[i].Some? {
        HitCollapsed(t, i, rest);
      } else {
        MissCollapsed(t, i, rest);
      }
    }
  }

  /** A blank-line match writes two newlines, and what follows it starts with no newline. */
  lemma HitCollapsed(t: string, i: nat, rest: string)
    requires i < |t| && Table(BlankLines, t)[i].Some?
    requires Collapsed(rest)
    requires LeadingNewline(rest) <==> LeadingNewline(t[Next(Table(BlankLines, t), t, i)..])
    ensures Collapsed(Emit(Table(BlankLines, t), t, i) + rest)
  {
    var tab := Table(BlankLines, t);
    var e := SkipSpaces(t, i + 1);
    var l := LastNewline(t, i + 1, e).value;
    assert Next(tab, t, i) == l + 1 && Emit(tab, t, i) == "\n\n";
    NoLeadingNewline(t, l + 1, e);
    CollapsedPair();
    CollapsedConcat("\n\n", rest);
  }

  /** Outside a match one character is copied; a newline there has no blank line after it. */
  lemma MissCollapsed(t: string, i: nat, rest: string)
    requires i < |t| && Table(BlankLines, t)[i].None?
    requires Collapsed(rest)
    requires LeadingNewline(rest) <==> LeadingNewline(t[i + 1..])
    ensures Collapsed(Emit(Table(BlankLines, t), t, i) + rest)
  {
    CollapsedSingle(t[i]);
    if t[i] == '\n' {
      var e := SkipSpaces(t, i + 1);
      assert LastNewline(t, i + 1, e).None?;
      NoLeadingNewline(t, i + 1, e);
    } else {
      NoTrailingNewline(t[i]);
    }
    CollapsedConcat([t[i]], rest);
  }

  /** A slice of a collapsed text is collapsed. */
  lemma CollapsedSlice(s: string, r: string, a: int)
    requires Collapsed(s) && SliceAt(s, r, a)
    ensures Collapsed(r)
  {
    forall x, y | BlankBetween(r, x, y)
      ensures y == x + 1
    {
      forall m | a + x + 1 <= m < a + y
        ensures IsSpace(s[m])
      {
        assert s[m] == r[m - a] == r[x + 1..y][m - a - x - 1];
      }
      assert s[a + x] == r[x] && s[a + y] == r[y];
      assert BlankBetween(s, a + x, a + y);
    }
  }

  /** The rules after the first `k` of them. */
  lemma ApplyAllSnoc(subs: seq<Sub>, t: string)
    requires subs != []
    ensures ApplyAll(subs, t) == Apply(subs[|subs| - 1], ApplyAll(subs[..|subs| - 1], t))
    decreases |subs|
  {
    if |subs| > 1 {
      ApplyAllSnoc(subs[1..], Apply(subs[0], t));
      assert subs[1..][..|subs| - 2] == subs[..|subs| - 1][1..];
    }
  }

  /**
   * The result of `html_to_markdown` has no leading or trailing whitespace,
   * and every run of newlines and whitespace holding two or more newlines is
   * exactly two adjacent newlines.
   */
  lemma HtmlToMarkdownClean(html: string, highlight: string)
    ensures IsStripped(HtmlToMarkdown(html, highlight))
    ensures Collapsed(HtmlToMarkdown(html, highlight))
  {
    var subs := Rules(highlight);
    var u := ApplyAll(subs[..|subs| - 1], Unescape(html));
    ApplyAllSnoc(subs, Unescape(html));
    RunCollapsed(u, 0);
    var c := ApplyAll(subs, Unescape(html));
    var a := StripAt(c);
    CollapsedSlice(c, Strip(c), a);
  }
}
