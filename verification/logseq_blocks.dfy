/**
 * The line-level pieces of `LogseqConverter`'s block rendering
 * (`src/converters/logseq_converter.py`): a block line with its indent and
 * heading marks, the block-reference insertion, task lines of a list, the
 * html fallback, the image link found in a rendered line, and the flattening
 * of a table into one line per row.
 */
module LogseqBlocks {

  import opened Wrappers
  import opened Strings
  import HtmlMarkdown
  import LogseqEscape
  import BracketEscape
  import LogseqNaming
  import opened TableGrid

  /**
   * `_html_to_logseq_markdown`: the shared html conversion with `^^`
   * highlights, then the bracket escape, then the Logseq syntax escape. The
   * highlighted-date linking in between is not part of this model.
   */
  function LogseqMarkdown(html: string): string
  {
    LogseqEscape.EscapeLogseqSyntax(
      BracketEscape.EscapeLiteralBracketsWithLinks(HtmlMarkdown.HtmlToMarkdown(html, "^^")))
  }

  // ---------------------------------------------------------------------
  // Block lines
  // ---------------------------------------------------------------------

  /** A rendered block: nesting depth, number of heading marks (0 for none), text. */
  datatype Block = Block(indent: nat, heading: nat, text: string)

  /** The heading marks `_convert_text` writes for an item's outline level. */
  function HeadingMarks(level: nat): (h: nat)
    ensures h <= 6
    ensures h == 0 <==> level == 0
    ensures 0 < level <= 5 ==> h == level + 1
  {
    if level == 0 then 0 else if level + 1 < 6 then level + 1 else 6
  }

  /** `"  " * indent + "- "`, then `"#" * heading + " "` when there is a heading. */
  function RenderBlock(b: Block): string
  {
    Indent(b.indent) + "- " + (if b.heading > 0 then Repeat("#", b.heading) + " " else "") + b.text
  }

  /** The length of the run of `c` starting at `i`. */
  function RunOf(s: string, c: char, i: nat): (n: nat)
    requires i <= |s|
    ensures i + n <= |s|
    ensures forall k :: i <= k < i + n ==> s[k] == c
    ensures i + n == |s| || s[i + n] != c
    decreases |s| - i
  {
    if i == |s| || s[i] != c then 0 else 1 + RunOf(s, c, i + 1)
  }

  /**
   * Reads a block line back: an even run of spaces, the bullet, then heading
   * marks when at most six of them are followed by a space.
   */
  function ParseBlock(line: string): (r: Option<Block>)
  {
    var k := RunOf(line, ' ', 0);
    if k % 2 != 0 || !OccursAt(line, "- ", k) then None
    else Some(ParseMarks(k / 2, line[k + 2..]))
  }

  /** The block after its bullet: heading marks count when one to six of them are followed by a space. */
  function ParseMarks(indent: nat, rest: string): Block
  {
    var h := RunOf(rest, '#', 0);
    if 0 < h <= 6 && h < |rest| && rest[h] == ' ' then Block(indent, h, rest[h + 1..])
    else Block(indent, 0, rest)
  }

  lemma {:induction false} RunOfIs(s: string, c: char, i: nat, n: nat)
    requires i + n <= |s|
    requires forall k :: i <= k < i + n ==> s[k] == c
    requires i + n == |s| || s[i + n] != c
    ensures RunOf(s, c, i) == n
    decreases n
  {
    if n > 0 {
      RunOfIs(s, c, i + 1, n - 1);
    }
  }

  /** The text after the marks, for a block whose marks are known. */
  lemma ParseHeaded(pre: string, h: nat, t: string)
    requires 0 < h <= 6
    requires t == [] || t[0] != '#'
    ensures var rest := Repeat("#", h) + " " + t;
      RunOf(rest, '#', 0) == h && h < |rest| && rest[h] == ' ' && rest[h + 1..] == t
  {
    var rest := Repeat("#", h) + " " + t;
    RepeatChar('#', h);
    RunOfIs(rest, '#', 0, h);
  }

  /** Parsing a rendered block gives the block back (text must not open with `#`). */
  lemma BlockRoundTrip(b: Block)
    requires b.heading <= 6
    requires b.text == [] || b.text[0] != '#'
    ensures ParseBlock(RenderBlock(b)) == Some(b)
  {
    var rest := (if b.heading > 0 then Repeat("#", b.heading) + " " else "") + b.text;
    BulletParse(b, rest);
    MarksParse(b, rest);
  }

  /** The space run of a block line is its indent, and the bullet follows it. */
  lemma BulletParse(b: Block, rest: string)
    requires rest == (if b.heading > 0 then Repeat("#", b.heading) + " " else "") + b.text
    ensures ParseBlock(RenderBlock(b)) == Some(ParseMarks(b.indent, rest))
  {
    var marks := if b.heading > 0 then Repeat("#", b.heading) + " " else "";
    ConcatAssoc(Indent(b.indent) + "- ", marks, b.text);
    BulletLine(b.indent, rest);
  }

  /** A line of indent, bullet and body parses to the body's block at that indent. */
  lemma BulletLine(indent: nat, body: string)
    ensures ParseBlock(Indent(indent) + "- " + body) == Some(ParseMarks(indent, body))
  {
    var line := Indent(indent) + "- " + body;
    var n := 2 * indent;
    BulletBody(indent, body);
    assert forall k :: 0 <= k < n ==> line[k] == Indent(indent)[k];
    RunOfIs(line, ' ', 0, n);
    assert line[n..n + 2] == "- ";
    assert n / 2 == indent;
  }

  /** The heading marks after the bullet are read back as the block's heading. */
  lemma MarksParse(b: Block, rest: string)
    requires b.heading <= 6
    requires b.text == [] || b.text[0] != '#'
    requires rest == (if b.heading > 0 then Repeat("#", b.heading) + " " else "") + b.text
    ensures ParseMarks(b.indent, rest) == b
  {
    if b.heading > 0 {
      ParseHeaded(Indent(b.indent), b.heading, b.text);
    } else {
      RunOfIs(rest, '#', 0, 0);
    }
  }

  /** The heading marks and their space, as written in front of a heading's text. */
  function MarksPrefix(level: nat): string
  {
    if HeadingMarks(level) > 0 then Repeat("#", HeadingMarks(level)) + " " else ""
  }

  /** The block line of a converted text at an outline level; it reads back as that block. */
  function TextLine(t: string, level: nat, indent: nat): (line: string)
    ensures (t == [] || t[0] != '#') ==> ParseBlock(line) == Some(Block(indent, HeadingMarks(level), t))
  {
    var b := Block(indent, HeadingMarks(level), t);
    assert (t == [] || t[0] != '#') ==> ParseBlock(RenderBlock(b)) == Some(b) by {
      if t == [] || t[0] != '#' {
        BlockRoundTrip(b);
      }
    }
    RenderBlock(b)
  }

  /**
   * `_convert_text`: nothing for a blank text, else one block line whose
   * heading marks follow the level.
   */
  function ConvertText(text: string, level: nat, indent: nat): (r: seq<string>)
    ensures IsBlank(text) <==> r == []
    ensures r != [] ==> r == [TextLine(LogseqMarkdown(text), level, indent)]
  {
    if IsBlank(text) then [] else [TextLine(LogseqMarkdown(text), level, indent)]
  }

  // ---------------------------------------------------------------------
  // Block references
  // ---------------------------------------------------------------------

  /** `line.replace("- ", "- " + ref + " ", 1)`. */
  function WithRef(line: string, ref: string): (r: string)
    ensures !Contains(line, "- ") ==> r == line
  {
    match FindFrom(line, "- ", 0)
    case Some(i) => line[..i] + "- " + ref + " " + line[i + 2..]
    case None => line
  }

  /** On a block line, the reference lands right after the bullet. */
  lemma WithRefAfterBullet(indent: nat, body: string, ref: string)
    ensures WithRef(Indent(indent) + "- " + body, ref) == Indent(indent) + "- " + ref + " " + body
  {
    var ind := Indent(indent);
    var line := ind + "- " + body;
    assert OccursAt(line, "- ", |ind|);
    forall k | 0 <= k < |ind|
      ensures !OccursAt(line, "- ", k)
    {
      assert line[k] == ' ';
    }
    FindFromIs(line, "- ", 0, |ind|);
    assert line[..|ind|] == ind;
    assert line[|ind| + 2..] == body;
  }

  /** A text line with a reference: the reference, then the heading marks, then the text. */
  lemma TextLineRef(t: string, level: nat, indent: nat, ref: string)
    ensures WithRef(TextLine(t, level, indent), ref) == Indent(indent) + "- " + ref + " " + MarksPrefix(level) + t
  {
    var body := MarksPrefix(level) + t;
    assert TextLine(t, level, indent) == Indent(indent) + "- " + body;
    WithRefAfterBullet(indent, body, ref);
    ConcatAssoc(Indent(indent) + "- " + ref + " ", MarksPrefix(level), t);
  }

  /** A text item's line with a reference reads back as a block whose text opens with the reference. */
  lemma RefLineParses(indent: nat, t: string, ref: string)
    requires ref != [] && ref[0] != '#'
    ensures ParseBlock(WithRef(RenderBlock(Block(indent, 0, t)), ref)) == Some(Block(indent, 0, ref + " " + t))
  {
    var p := Indent(indent) + "- ";
    var body := ref + " " + t;
    WithRefAfterBullet(indent, t, ref);
    assert RenderBlock(Block(indent, 0, t)) == p + t;
    assert RenderBlock(Block(indent, 0, body)) == p + body;
    ConcatAssoc(p, ref + " ", t);
    ConcatAssoc(p, ref, " ");
    BlockRoundTrip(Block(indent, 0, body));
  }

  // ---------------------------------------------------------------------
  // Lists and html fallback
  // ---------------------------------------------------------------------

  /** One converted list entry: a Logseq task line for a task, else the text itself. */
  function ListLine(t: string, indent: nat): (r: string)
    ensures !LogseqNaming.IsTaskItem(t) ==> r == Indent(indent) + "- " + t
    ensures LogseqNaming.IsTaskItem(t) ==>
      var p := LogseqNaming.ParseTaskItem(t);
      r == Indent(indent) + "- " + LogseqNaming.StateWord(p.0) + " " + p.1
  {
    if LogseqNaming.IsTaskItem(t) then
      var p := LogseqNaming.ParseTaskItem(t);
      Indent(indent) + "- " + LogseqNaming.StateWord(p.0) + " " + p.1
    else Indent(indent) + "- " + t
  }

  /**
   * A task line is read back as the same task: the state and the residual
   * text survive a second parse of the written line.
   */
  lemma TaskLineStable(t: string, indent: nat)
    requires LogseqNaming.IsTaskItem(t)
    requires var x := LogseqNaming.ParseTaskItem(t).1; x != [] && !IsSpace(x[0]) && '\n' !in x
    ensures var line := ListLine(t, indent);
      LogseqNaming.IsTaskItem(line[2 * indent + 2..]) &&
      LogseqNaming.ParseTaskItem(line[2 * indent + 2..]) == LogseqNaming.ParseTaskItem(t)
  {
    var p := LogseqNaming.ParseTaskItem(t);
    var body := LogseqNaming.StateWord(p.0) + " " + p.1;
    LogseqNaming.TaskRoundTrip(p.0, p.1);
    var line := ListLine(t, indent);
    assert line == Indent(indent) + "- " + LogseqNaming.StateWord(p.0) + " " + p.1;
    TaskAfterBullet(indent, LogseqNaming.StateWord(p.0), p.1);
  }

  /** What follows the indent and bullet of a task line is its keyword, a space and its text. */
  lemma TaskAfterBullet(indent: nat, w: string, x: string)
    ensures (Indent(indent) + "- " + w + " " + x)[2 * indent + 2..] == w + " " + x
  {
    var line := Indent(indent) + "- " + w + " " + x;
    assert line == (Indent(indent) + "- ") + (w + " " + x);
  }

  /** `_convert_list`: one line per entry, in order, each from the entry's converted text. */
  function ConvertList(entries: seq<string>, indent: nat): (r: seq<string>)
    ensures |r| == |entries|
    ensures forall k :: 0 <= k < |entries| ==> r[k] == ListLine(LogseqMarkdown(entries[k]), indent)
  {
    if entries == [] then [] else [ListLine(LogseqMarkdown(entries[0]), indent)] + ConvertList(entries[1..], indent)
  }

  /** The placeholder written for html that converts to nothing. */
  const UnknownHtml := "<!--Unknown HTML content-->"

  /** `_convert_html_content`: the converted html, or a placeholder when it is blank. */
  function ConvertHtmlContent(html: string, indent: nat): (r: seq<string>)
    ensures |r| == 1
    ensures 2 * indent + 2 < |r[0]| && r[0][..2 * indent + 2] == Indent(indent) + "- "
    ensures !IsBlank(r[0][2 * indent + 2..])
    ensures r[0][2 * indent + 2..] == LogseqMarkdown(html) <==> !IsBlank(LogseqMarkdown(html))
    ensures !IsBlank(LogseqMarkdown(html)) ==> r[0] == Indent(indent) + "- " + LogseqMarkdown(html)
    ensures IsBlank(LogseqMarkdown(html)) ==> r[0] == Indent(indent) + "- " + UnknownHtml
  {
    var t := LogseqMarkdown(html);
    var body := if !IsBlank(t) then t else UnknownHtml;
    assert !IsBlank(body) by {
      if IsBlank(t) {
        assert !IsSpace(body[0]);
      }
    }
    BulletBody(indent, body);
    [Indent(indent) + "- " + body]
  }

  /** What follows the indent and bullet of a line is its body. */
  lemma BulletBody(indent: nat, body: string)
    ensures var line := Indent(indent) + "- " + body;
      |line| == 2 * indent + 2 + |body| && line[..2 * indent + 2] == Indent(indent) + "- " && line[2 * indent + 2..] == body
  {
  }

  /** A list entry that is not a task and does not open with `#` reads back as a block holding the entry. */
  lemma ListLinePlainParses(t: string, indent: nat)
    requires !LogseqNaming.IsTaskItem(t)
    requires t == [] || t[0] != '#'
    ensures ParseBlock(ListLine(t, indent)) == Some(Block(indent, 0, t))
  {
    assert ListLine(t, indent) == RenderBlock(Block(indent, 0, t));
    BlockRoundTrip(Block(indent, 0, t));
  }

  /** `_is_empty_html_tag`: nothing but tags and whitespace. */
  predicate IsEmptyHtmlTag(text: string)
  {
    text == [] || IsBlank(HtmlMarkdown.Apply(HtmlMarkdown.StripTag, text))
  }

  // ---------------------------------------------------------------------
  // The image link inside a rendered line
  // ---------------------------------------------------------------------

  predicate NoNewline(s: string, a: nat, b: nat)
    requires a <= b <= |s|
  {
    forall k :: a <= k < b ==> s[k] != '\n'
  }

  /**
   * The end of a match of `!\[.*?\]\(.*?\)` starting at `p`. The lazy
   * stars stop at the first `](` and the first `)` after it; a later `](`
   * cannot help, since its `)` would have to lie in the range already
   * searched, and `.` does not cross a newline.
   */
  function LinkMatchAt(s: string, p: nat): (r: Option<nat>)
    requires p <= |s|
    ensures r.Some? ==> p + 5 <= r.value <= |s| && s[r.value - 1] == ')'
  {
    if !OccursAt(s, "![", p) then None
    else match FindFrom(s, "](", p + 2)
      case None => None
      case Some(k) =>
        if !NoNewline(s, p + 2, k) then None
        else
          var m := FirstIn(s, {')'}, k + 2);
          if m == |s| || !NoNewline(s, k + 2, m) then None else Some(m + 1)
  }

  /** `re.search(r'!\[.*?\]\(.*?\)', s)`: the leftmost match from `p` on. */
  function ImageLinkFrom(s: string, p: nat): (r: Option<string>)
    requires p <= |s|
    decreases |s| - p
  {
    match LinkMatchAt(s, p)
    case Some(e) => Some(s[p..e])
    case None => if p == |s| then None else ImageLinkFrom(s, p + 1)
  }

  function ImageLinkMatch(s: string): Option<string>
  {
    ImageLinkFrom(s, 0)
  }

  /** `![alt](target)`. */
  function MarkdownImage(alt: string, target: string): string
  {
    "![" + alt + "](" + target + ")"
  }

  /** Where the pieces of `pre + ![alt](target)` sit. */
  lemma ImageShape(pre: string, alt: string, target: string)
    ensures var s := pre + MarkdownImage(alt, target);
      var p := |pre|;
      var k := p + 2 + |alt|;
      |s| == k + 3 + |target| &&
      s[p] == '!' && s[p + 1] == '[' && s[k] == ']' && s[k + 1] == '(' && s[|s| - 1] == ')' &&
      (forall j :: p + 2 <= j < k ==> s[j] == alt[j - p - 2]) &&
      (forall j :: k + 2 <= j < k + 2 + |target| ==> s[j] == target[j - k - 2])
  {
    var s := pre + MarkdownImage(alt, target);
    assert s == pre + ("![" + alt + "](" + target + ")");
  }

  /** The link is found at its own place in a line where nothing before it starts one. */
  lemma LinkMatchOfImage(pre: string, alt: string, target: string)
    requires !Contains(alt, "](") && '\n' !in alt
    requires ')' !in target && '\n' !in target
    ensures LinkMatchAt(pre + MarkdownImage(alt, target), |pre|) == Some(|pre + MarkdownImage(alt, target)|)
  {
    var s := pre + MarkdownImage(alt, target);
    var p := |pre|;
    var k := p + 2 + |alt|;
    ImageShape(pre, alt, target);
    assert OccursAt(s, "![", p);
    assert OccursAt(s, "](", k);
    forall j | p + 2 <= j < k
      ensures !OccursAt(s, "](", j)
    {
      if j + 1 < k {
        assert s[j..j + 2] == alt[j - p - 2..j - p];
        assert !OccursAt(alt, "](", j - p - 2);
      } else {
        assert s[j + 1] == ']';
      }
    }
    FindFromIs(s, "](", p + 2, k);
    FirstInIs(s, {')'}, k + 2, |s| - 1);
  }

  /** With no `!` before it, the first link found in the line is this one. */
  lemma {:induction false} ImageLinkAfter(pre: string, alt: string, target: string, p: nat)
    requires p <= |pre| && '!' !in pre
    requires !Contains(alt, "](") && '\n' !in alt
    requires ')' !in target && '\n' !in target
    ensures ImageLinkFrom(pre + MarkdownImage(alt, target), p) == Some(MarkdownImage(alt, target))
    decreases |pre| - p
  {
    var s := pre + MarkdownImage(alt, target);
    if p == |pre| {
      LinkMatchOfImage(pre, alt, target);
      assert s[p..|s|] == MarkdownImage(alt, target);
    } else {
      assert s[p] == pre[p];
      assert !OccursAt(s, "![", p);
      ImageLinkAfter(pre, alt, target, p + 1);
    }
  }

  /** The table-cell code finds the whole link in an image block line. */
  lemma ImageLinkInLine(indent: nat, alt: string, target: string)
    requires !Contains(alt, "](") && '\n' !in alt
    requires ')' !in target && '\n' !in target
    ensures ImageLinkMatch(Indent(indent) + "- " + MarkdownImage(alt, target)) == Some(MarkdownImage(alt, target))
  {
    var pre := Indent(indent) + "- ";
    assert forall k :: 0 <= k < |pre| ==> pre[k] != '!';
    ImageLinkAfter(pre, alt, target, 0);
  }

  // ---------------------------------------------------------------------
  // Tables: one line per row
  // ---------------------------------------------------------------------

  /** One table line: the first row in bold, the others plain. */
  function RowLine(cells: seq<string>, header: bool, indent: nat): string
  {
    if header then Indent(indent) + "- **" + Join(cells, " | ") + "**"
    else Indent(indent) + "- " + Join(cells, " | ")
  }

  /**
   * The row layout shared by `_convert_simple_table` and
   * `_convert_enhanced_table`: the placeholder when every cell is blank,
   * else one line per row, the first in bold.
   */
  function LayOutTable(rows: seq<seq<string>>, indent: nat, placeholder: string): (r: seq<string>)
    ensures (forall k, j :: 0 <= k < |rows| && 0 <= j < |rows[k]| ==> IsBlank(rows[k][j])) ==> r == [placeholder]
    ensures (exists k, j :: 0 <= k < |rows| && 0 <= j < |rows[k]| && !IsBlank(rows[k][j])) ==>
      |r| == |rows| &&
      forall k :: 0 <= k < |rows| ==> r[k] == RowLine(Grid(rows)[k], k == 0, indent)
  {
    var trimmed := seq(|rows|, k requires 0 <= k < |rows| => TrimCells(rows[k]));
    var w := MaxWidth(trimmed);
    WidthZeroIffBlank(rows);
    if w == 0 then [placeholder]
    else seq(|rows|, k requires 0 <= k < |rows| => RowLine(Grid(rows)[k], k == 0, indent))
  }

  /** The widest trimmed row is empty exactly when every cell is blank. */
  lemma WidthZeroIffBlank(rows: seq<seq<string>>)
    ensures var trimmed := seq(|rows|, k requires 0 <= k < |rows| => TrimCells(rows[k]));
      MaxWidth(trimmed) == 0 <==> forall k, j :: 0 <= k < |rows| && 0 <= j < |rows[k]| ==> IsBlank(rows[k][j])
  {
    var trimmed := seq(|rows|, k requires 0 <= k < |rows| => TrimCells(rows[k]));
    if MaxWidth(trimmed) == 0 {
      NoWidthBlank(rows, trimmed);
    } else {
      WidthNotBlank(rows, trimmed);
    }
  }

  lemma NoWidthBlank(rows: seq<seq<string>>, trimmed: seq<seq<string>>)
    requires |trimmed| == |rows| && forall k :: 0 <= k < |rows| ==> trimmed[k] == TrimCells(rows[k])
    requires MaxWidth(trimmed) == 0
    ensures forall k, j :: 0 <= k < |rows| && 0 <= j < |rows[k]| ==> IsBlank(rows[k][j])
  {
    forall k, j | 0 <= k < |rows| && 0 <= j < |rows[k]|
      ensures IsBlank(rows[k][j])
    {
      assert |trimmed[k]| == 0;
    }
  }

  lemma WidthNotBlank(rows: seq<seq<string>>, trimmed: seq<seq<string>>)
    requires |trimmed| == |rows| && forall k :: 0 <= k < |rows| ==> trimmed[k] == TrimCells(rows[k])
    requires MaxWidth(trimmed) > 0
    ensures exists k, j :: 0 <= k < |rows| && 0 <= j < |rows[k]| && !IsBlank(rows[k][j])
  {
    var w := MaxWidth(trimmed);
    var k :| 0 <= k < |rows| && |trimmed[k]| == w;
    var t := TrimCells(rows[k]);
    assert t[w - 1] == rows[k][w - 1];
  }

  /** `_convert_simple_table`: converted cells laid out, with the fixed placeholder. */
  function ConvertSimpleTable(rows: seq<seq<string>>, indent: nat): (r: seq<string>)
    ensures rows == [] ==> r == ["  - <!--Empty table-->"]
    ensures |r| == 1 || |r| == |rows|
  {
    if rows == [] then ["  - <!--Empty table-->"]
    else
      var cells := seq(|rows|, k requires 0 <= k < |rows| =>
        seq(|rows[k]|, j requires 0 <= j < |rows[k]| => LogseqMarkdown(rows[k][j])));
      LayOutTable(cells, indent, "  - <!--Empty table-->")
  }
}
