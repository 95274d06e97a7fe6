/**
 * `ObsidianConverter`'s conversion of a page's content items
 * (`src/converters/obsidian_converter.py`): text, lists, images, pipe
 * tables and outline elements. The image dictionary is threaded through
 * every call as an explicit map from callback id to entry.
 */
module ObsidianRender {

  import opened Wrappers
  import opened Strings
  import HtmlMarkdown
  import BracketEscape
  import opened ContentItems
  import opened TableGrid
  import LogseqBlocks
  import opened ObsidianNaming

  /** `_html_to_obsidian_markdown`: the shared conversion with `==` highlights, then the bracket escape. */
  function ObsidianMarkdown(html: string): string
  {
    BracketEscape.EscapeLiteralBracketsWithLinks(HtmlMarkdown.HtmlToMarkdown(html, "=="))
  }

  // ---------------------------------------------------------------------
  // Text and headings
  // ---------------------------------------------------------------------

  /** A converted text at an outline level: `'#' * min(level + 1, 6) + ' '` in front when the level is positive. */
  function HeadingLine(level: nat, t: string): string
  {
    LogseqBlocks.MarksPrefix(level) + t
  }

  /** Reads a markdown line back: up to six `#` followed by a space make a heading. */
  function ParseHeading(line: string): (r: (nat, string))
  {
    var h := LogseqBlocks.RunOf(line, '#', 0);
    if 0 < h <= 6 && h < |line| && line[h] == ' ' then (h, line[h + 1..]) else (0, line)
  }

  /** A heading line reads back as its level's marks and its text. */
  lemma HeadingRoundTrip(level: nat, t: string)
    requires t == [] || t[0] != '#'
    ensures ParseHeading(HeadingLine(level, t)) == (LogseqBlocks.HeadingMarks(level), t)
  {
    var h := LogseqBlocks.HeadingMarks(level);
    if h > 0 {
      LogseqBlocks.ParseHeaded([], h, t);
    } else {
      assert HeadingLine(level, t) == t;
      LogseqBlocks.RunOfIs(t, '#', 0, 0);
    }
  }

  /** `_convert_text`: nothing for blank text, else one line with the heading marks of its level. */
  function ConvertText(text: string, level: nat): (r: seq<string>)
    ensures IsBlank(text) <==> r == []
    ensures r != [] ==> r == [HeadingLine(level, ObsidianMarkdown(text))]
  {
    if IsBlank(text) then [] else [HeadingLine(level, ObsidianMarkdown(text))]
  }

  /** A text item's line reads back as a heading of its level's marks, with the converted text. */
  lemma TextHeading(text: string, level: nat)
    requires !IsBlank(text)
    requires ObsidianMarkdown(text) == [] || ObsidianMarkdown(text)[0] != '#'
    ensures ParseHeading(ConvertText(text, level)[0]) == (LogseqBlocks.HeadingMarks(level), ObsidianMarkdown(text))
  {
    HeadingRoundTrip(level, ObsidianMarkdown(text));
  }

  // ---------------------------------------------------------------------
  // Lists
  // ---------------------------------------------------------------------

  /** `f"{i + 1}. "` for an ordered list, `- ` otherwise. */
  function ListPrefix(ordered: bool, k: nat): string
  {
    if ordered then NatToString(k + 1) + ". " else "- "
  }

  /** `_convert_list`: one line per entry, its prefix then its converted text. */
  function ConvertList(entries: seq<string>, ordered: bool): (r: seq<string>)
    ensures |r| == |entries|
    ensures forall k :: 0 <= k < |r| ==> r[k] == ListPrefix(ordered, k) + ObsidianMarkdown(entries[k])
  {
    seq(|entries|, k requires 0 <= k < |entries| => ListPrefix(ordered, k) + ObsidianMarkdown(entries[k]))
  }

  /** The length of the run of digits at `i`. */
  function DigitsFrom(s: string, i: nat): (n: nat)
    requires i <= |s|
    ensures i + n <= |s|
    ensures forall k :: i <= k < i + n ==> IsDigit(s[k])
    ensures i + n == |s| || !IsDigit(s[i + n])
    decreases |s| - i
  {
    if i == |s| || !IsDigit(s[i]) then 0 else 1 + DigitsFrom(s, i + 1)
  }

  /** The number of an ordered list line: leading digits followed by `. `. */
  function ItemNumber(line: string): (r: Option<nat>)
  {
    var d := DigitsFrom(line, 0);
    if d > 0 && OccursAt(line, ". ", d) then Some(DigitsValue(line[..d])) else None
  }

  lemma {:induction false} DigitsFromIs(s: string, i: nat, n: nat)
    requires i + n <= |s|
    requires forall k :: i <= k < i + n ==> IsDigit(s[k])
    requires i + n == |s| || !IsDigit(s[i + n])
    ensures DigitsFrom(s, i) == n
    decreases n
  {
    if n > 0 {
      DigitsFromIs(s, i + 1, n - 1);
    }
  }

  /** Digits followed by `. ` read back as their value. */
  lemma NumberedLine(n: string, t: string)
    requires n != [] && forall i :: 0 <= i < |n| ==> IsDigit(n[i])
    ensures ItemNumber(n + (". " + t)) == Some(DigitsValue(n))
  {
    var line := n + (". " + t);
    assert forall k :: 0 <= k < |n| ==> line[k] == n[k];
    assert line[|n|] == '.';
    DigitsFromIs(line, 0, |n|);
    var head, dot := line[..|n|], line[|n|..|n| + 2];
    assert head == n && dot == ". ";
    assert OccursAt(line, ". ", |n|);
  }

  /** The `k`-th line of an ordered list is numbered `k + 1`; unordered lines carry no number. */
  lemma ListNumbers(entries: seq<string>, ordered: bool, k: nat)
    requires k < |entries|
    ensures ItemNumber(ConvertList(entries, ordered)[k]) == if ordered then Some(k + 1) else None
  {
    var t := ObsidianMarkdown(entries[k]);
    assert ConvertList(entries, ordered)[k] == ListPrefix(ordered, k) + t;
    if ordered {
      OrderedNumber(k, t);
    } else {
      UnorderedNumber(k, t);
    }
  }

  /** An ordered list line reads back as its number. */
  lemma OrderedNumber(k: nat, t: string)
    ensures ItemNumber(ListPrefix(true, k) + t) == Some(k + 1)
  {
    var n := NatToString(k + 1);
    assert ListPrefix(true, k) + t == n + (". " + t);
    NumberedLine(n, t);
    NatToStringValue(k + 1);
  }

  /** An unordered list line carries no number. */
  lemma UnorderedNumber(k: nat, t: string)
    ensures ItemNumber(ListPrefix(false, k) + t).None?
  {
    var line := ListPrefix(false, k) + t;
    assert line[0] == '-';
    DigitsFromIs(line, 0, 0);
  }

  // ---------------------------------------------------------------------
  // Images
  // ---------------------------------------------------------------------

  /** An image dictionary entry; the absolute target path is left out. */
  datatype ImageEntry = ImageEntry(pageId: string, fileName: string, altText: string, section: string, page: string, link: string)

  /** `relative_path` of an entry. */
  function RelativePath(e: ImageEntry): string
  {
    "attachments/" + e.fileName
  }

  /** Obsidian's embed of an attachment. */
  function Embed(name: string): string
  {
    "![[" + name + "]]"
  }

  /** Reads an embed line back into the attachment name. */
  function EmbedTarget(line: string): (r: Option<string>)
  {
    if |line| >= 5 && line[..3] == "![[" && line[|line| - 2..] == "]]" then Some(line[3..|line| - 2]) else None
  }

  lemma EmbedRoundTrip(name: string)
    ensures EmbedTarget(Embed(name)) == Some(name)
  {
    var e := Embed(name);
    assert e[..3] == "![[" && e[|e| - 2..] == "]]" && e[3..|e| - 2] == name;
  }

  /** A generated image file name: a sanitised stem and `.png`. */
  predicate IsImageName(n: string)
  {
    |n| > 4 && n[|n| - 4..] == ".png" && IsFileStem(n[..|n| - 4])
  }

  /** What the converter keeps true of its dictionary: generated names, linked by their embeds. */
  predicate ValidImages(m: map<string, ImageEntry>)
  {
    forall cb :: cb in m ==> IsImageName(m[cb].fileName) && m[cb].link == Embed(m[cb].fileName)
  }

  /** A caption follows unless the alt text is empty or `image` in any case. */
  predicate Captioned(alt: string)
  {
    alt != [] && LowerStr(alt) != "image"
  }

  /**
   * The naming half of `_convert_image` for an image with a callback id:
   * the name generated with the dictionary's size as counter, and the entry
   * stored under the callback id.
   */
  function StoreImage(images: map<string, ImageEntry>, img: Image, section: string, page: string): (r: (ImageEntry, map<string, ImageEntry>))
    requires img.callbackId != []
    ensures r.1 == images[img.callbackId := r.0]
    ensures r.0.fileName == GenerateImageName(section, page, AltOf(img), |images|)
    ensures IsImageName(r.0.fileName) && r.0.link == Embed(r.0.fileName)
    ensures ValidImages(images) ==> ValidImages(r.1)
  {
    var alt := AltOf(img);
    var name := GenerateImageName(section, page, alt, |images|);
    var pageId := match img.pageId
      case Some(p) => p
      case None => img.callbackId;
    var entry := ImageEntry(pageId, name, alt, section, page, Embed(name));
    (entry, images[img.callbackId := entry])
  }

  /**
   * `_convert_image`: a placeholder comment without a callback id;
   * otherwise the embed of the stored image, then an italic caption when
   * the alt text is captioned.
   */
  function ConvertImage(images: map<string, ImageEntry>, img: Image, section: string, page: string): (r: (seq<string>, map<string, ImageEntry>))
    ensures img.callbackId == [] ==> r == (["<!-- Missing image: " + AltOf(img) + " -->"], images)
    ensures img.callbackId != [] ==>
      var stored := StoreImage(images, img, section, page);
      r.1 == stored.1 && 1 <= |r.0| <= 2 && r.0[0] == Embed(stored.0.fileName) &&
      (|r.0| == 2 <==> Captioned(AltOf(img))) &&
      (|r.0| == 2 ==> r.0[1] == "*" + AltOf(img) + "*")
    ensures ValidImages(images) ==> ValidImages(r.1)
    ensures images.Keys <= r.1.Keys
  {
    var alt := AltOf(img);
    if img.callbackId == [] then (["<!-- Missing image: " + alt + " -->"], images)
    else
      var stored := StoreImage(images, img, section, page);
      var caption := if Captioned(alt) then ["*" + alt + "*"] else [];
      ([Embed(stored.0.fileName)] + caption, stored.1)
  }

  /**
   * The first line of a stored image reads back as the name kept in the
   * dictionary under its callback id, and that name is a generated one.
   */
  lemma ImageLineNamesEntry(images: map<string, ImageEntry>, img: Image, section: string, page: string)
    requires img.callbackId != []
    ensures var r := ConvertImage(images, img, section, page);
      img.callbackId in r.1 &&
      EmbedTarget(r.0[0]) == Some(r.1[img.callbackId].fileName) &&
      IsImageName(r.1[img.callbackId].fileName) &&
      RelativePath(r.1[img.callbackId]) == "attachments/" + GenerateImageName(section, page, AltOf(img), |images|)
  {
    var stored := StoreImage(images, img, section, page);
    EmbedRoundTrip(stored.0.fileName);
  }

  // ---------------------------------------------------------------------
  // Tables
  // ---------------------------------------------------------------------

  /** Converts images only for the dictionary, as the embedded-image pass does. */
  function ConvertImages(images: map<string, ImageEntry>, imgs: seq<Image>, section: string, page: string): (r: map<string, ImageEntry>)
    ensures ValidImages(images) ==> ValidImages(r)
    ensures images.Keys <= r.Keys
    ensures forall k :: 0 <= k < |imgs| && imgs[k].callbackId != [] ==> imgs[k].callbackId in r
    decreases |imgs|
  {
    if imgs == [] then images
    else
      var m := ConvertImage(images, imgs[0], section, page).1;
      var r := ConvertImages(m, imgs[1..], section, page);
      assert forall k :: 1 <= k < |imgs| ==> imgs[k] == imgs[1..][k - 1];
      r
  }

  /** The cell text after one image: its embed appended after `<br>` when the first line is an embed. */
  function WithEmbed(acc: string, lines: seq<string>): (r: string)
    ensures |acc| <= |r| && r[..|acc|] == acc
  {
    if lines != [] && StartsWith(lines[0], "![[") then
      if acc != [] then acc + "<br>" + lines[0] else lines[0]
    else acc
  }

  /** A cell's stripped text with the embeds of its images appended in order. */
  function AddCellImages(images: map<string, ImageEntry>, acc: string, imgs: seq<Image>, section: string, page: string): (r: (string, map<string, ImageEntry>))
    ensures ValidImages(images) ==> ValidImages(r.1)
    ensures images.Keys <= r.1.Keys
    ensures |acc| <= |r.0| && r.0[..|acc|] == acc
    decreases |imgs|
  {
    if imgs == [] then (acc, images)
    else
      var im := ConvertImage(images, imgs[0], section, page);
      var acc1 := WithEmbed(acc, im.0);
      var r := AddCellImages(im.1, acc1, imgs[1..], section, page);
      assert r.0[..|acc|] == r.0[..|acc1|][..|acc|];
      r
  }

  /** One image with a callback id adds its embed to the cell, after `<br>` when the cell has text. */
  lemma CellGainsEmbed(images: map<string, ImageEntry>, acc: string, img: Image, section: string, page: string)
    requires img.callbackId != []
    ensures var name := GenerateImageName(section, page, AltOf(img), |images|);
      AddCellImages(images, acc, [img], section, page).0 == (if acc != [] then acc + "<br>" + Embed(name) else Embed(name))
  {
    var im := ConvertImage(images, img, section, page);
    var name := GenerateImageName(section, page, AltOf(img), |images|);
    assert im.0[0] == Embed(name);
    assert StartsWith(Embed(name), "![[");
    assert [img][1..] == [];
  }

  /** An image without a callback id leaves the cell as it is and the dictionary unchanged. */
  lemma CellKeepsMissing(images: map<string, ImageEntry>, acc: string, img: Image, section: string, page: string)
    requires img.callbackId == []
    ensures AddCellImages(images, acc, [img], section, page) == (acc, images)
  {
    var im := ConvertImage(images, img, section, page);
    var line := "<!-- Missing image: " + AltOf(img) + " -->";
    assert line[1] == '!';
    assert !StartsWith(line, "![[");
    assert [img][1..] == [];
  }

  /** One cell: a plain value converted, or a record's stripped text with its embeds, converted. */
  function CellText(images: map<string, ImageEntry>, cell: Cell, section: string, page: string): (r: (string, map<string, ImageEntry>))
    ensures ValidImages(images) ==> ValidImages(r.1)
    ensures images.Keys <= r.1.Keys
    ensures cell.Plain? ==> r == (ObsidianMarkdown(cell.text), images)
  {
    match cell
    case Plain(t) => (ObsidianMarkdown(t), images)
    case Rich(t, hasImages, imgs) =>
      var c := if hasImages && imgs != [] then AddCellImages(images, Strip(t), imgs, section, page) else (Strip(t), images);
      (ObsidianMarkdown(c.0), c.1)
  }

  function ConvertCells(images: map<string, ImageEntry>, cells: seq<Cell>, section: string, page: string): (r: (seq<string>, map<string, ImageEntry>))
    ensures ValidImages(images) ==> ValidImages(r.1)
    ensures images.Keys <= r.1.Keys
    ensures |r.0| == |cells|
    decreases |cells|
  {
    if cells == [] then ([], images)
    else
      var c := CellText(images, cells[0], section, page);
      var rest := ConvertCells(c.1, cells[1..], section, page);
      ([c.0] + rest.0, rest.1)
  }

  function ConvertRows(images: map<string, ImageEntry>, rows: seq<seq<Cell>>, section: string, page: string): (r: (seq<seq<string>>, map<string, ImageEntry>))
    ensures ValidImages(images) ==> ValidImages(r.1)
    ensures images.Keys <= r.1.Keys
    ensures |r.0| == |rows|
    decreases |rows|
  {
    if rows == [] then ([], images)
    else
      var c := ConvertCells(images, rows[0], section, page);
      var rest := ConvertRows(c.1, rows[1..], section, page);
      ([c.0] + rest.0, rest.1)
  }

  /** The header separator: `---` in each of `width` columns. */
  function Separator(width: nat): string
  {
    PipeRow(seq(width, _ => "---"))
  }

  /** Some cell of the table is not blank. */
  predicate HasText(rows: seq<seq<string>>)
  {
    exists k, j :: 0 <= k < |rows| && 0 <= j < |rows[k]| && !IsBlank(rows[k][j])
  }

  /** A table with text has a grid at least one column wide. */
  lemma GridWidth(rows: seq<seq<string>>)
    requires HasText(rows)
    ensures |Grid(rows)[0]| > 0
  {
    var k, j :| 0 <= k < |rows| && 0 <= j < |rows[k]| && !IsBlank(rows[k][j]);
    var t := TrimCells(rows[k]);
    assert j < |t|;
  }

  /**
   * The pipe-table layout shared by both table conversions: the empty
   * placeholder when no cell has text, else the header row, the separator,
   * and the other rows, all from the padded grid.
   */
  function PipeTable(rows: seq<seq<string>>): (r: seq<string>)
    ensures !HasText(rows) ==> r == ["<!-- Empty table -->"]
    ensures HasText(rows) ==>
      var g := Grid(rows);
      |r| == |rows| + 1 && r[0] == PipeRow(g[0]) && r[1] == Separator(|g[0]|) &&
      forall k :: 1 <= k < |rows| ==> r[k + 1] == PipeRow(g[k])
  {
    if !HasText(rows) then ["<!-- Empty table -->"]
    else
      GridWidth(rows);
      GridLines(Grid(rows))
  }

  /** The header row, the separator sized to it, then the remaining rows. */
  function GridLines(g: seq<seq<string>>): (r: seq<string>)
    requires |g| > 0
    ensures |r| == |g| + 1 && r[0] == PipeRow(g[0]) && r[1] == Separator(|g[0]|)
    ensures forall k :: 1 <= k < |g| ==> r[k + 1] == PipeRow(g[k])
  {
    [PipeRow(g[0]), Separator(|g[0]|)] + seq(|g| - 1, k requires 0 <= k < |g| - 1 => PipeRow(g[k + 1]))
  }

  /** Padding adds only empty cells: a pipe-free table stays pipe-free. */
  lemma GridPipeFree(rows: seq<seq<string>>)
    requires forall k, j :: 0 <= k < |rows| && 0 <= j < |rows[k]| ==> '|' !in rows[k][j]
    ensures forall k, j :: 0 <= k < |rows| && 0 <= j < |Grid(rows)[k]| ==> '|' !in Grid(rows)[k][j]
  {
    forall k, j | 0 <= k < |rows| && 0 <= j < |Grid(rows)[k]|
      ensures '|' !in Grid(rows)[k][j]
    {
      var t := TrimCells(rows[k]);
      var g := Grid(rows)[k];
      GridKeepsCells(rows);
      if j < |t| {
        assert g[..|t|] == TrimCells(g) && g[j] == t[j] && t[j] == rows[k][j];
      } else {
        assert TrimCells(g) == t;
        assert IsBlank(g[j]);
      }
    }
  }

  /** The separator has one more pipe than columns. */
  lemma SeparatorPipes(width: nat)
    requires width > 0
    ensures Count(Separator(width), '|') == width + 1
  {
    var dashes: seq<string> := seq(width, _ => "---");
    assert forall k :: 0 <= k < |dashes| ==> '|' !in dashes[k];
    RowPipes(dashes);
  }

  /** Each grid row of a pipe-free table with text has one more pipe than the grid's width. */
  lemma GridRowPipes(rows: seq<seq<string>>, k: nat)
    requires HasText(rows) && k < |rows|
    requires forall k, j :: 0 <= k < |rows| && 0 <= j < |rows[k]| ==> '|' !in rows[k][j]
    ensures Count(PipeRow(Grid(rows)[k]), '|') == |Grid(rows)[0]| + 1
  {
    GridWidth(rows);
    GridPipeFree(rows);
    RowPipes(Grid(rows)[k]);
  }

  /**
   * Every line of a table with text has the same number of columns, the
   * grid's width, when no cell holds a pipe.
   */
  lemma TableColumns(rows: seq<seq<string>>)
    requires HasText(rows)
    requires forall k, j :: 0 <= k < |rows| && 0 <= j < |rows[k]| ==> '|' !in rows[k][j]
    ensures var r := PipeTable(rows);
      forall i :: 0 <= i < |r| ==> Count(r[i], '|') == |Grid(rows)[0]| + 1
  {
    forall i | 0 <= i < |PipeTable(rows)| {
      LinePipes(rows, i);
    }
  }

  /** One line of a pipe-free table with text has one more pipe than the grid's width. */
  lemma LinePipes(rows: seq<seq<string>>, i: nat)
    requires HasText(rows)
    requires forall k, j :: 0 <= k < |rows| && 0 <= j < |rows[k]| ==> '|' !in rows[k][j]
    requires i < |PipeTable(rows)|
    ensures Count(PipeTable(rows)[i], '|') == |Grid(rows)[0]| + 1
  {
    GridWidth(rows);
    var line := TableLine(rows, i);
    if i == 1 {
      SeparatorPipes(|Grid(rows)[0]|);
    } else {
      GridRowPipes(rows, if i == 0 then 0 else i - 1);
    }
  }

  /** The line at position `i` of a table with text: the separator, or a grid row. */
  lemma TableLine(rows: seq<seq<string>>, i: nat) returns (line: string)
    requires HasText(rows) && i < |PipeTable(rows)|
    ensures line == PipeTable(rows)[i]
    ensures i == 1 ==> line == Separator(|Grid(rows)[0]|)
    ensures i != 1 ==> line == PipeRow(Grid(rows)[if i == 0 then 0 else i - 1])
  {
    line := PipeTable(rows)[i];
  }

  /**
   * `_convert_enhanced_table`: placeholders for a missing structure or no
   * rows; otherwise the embedded images first, then the cells row by row,
   * laid out as a pipe table.
   */
  function ConvertEnhancedTable(images: map<string, ImageEntry>, table: Option<Table>, section: string, page: string): (r: (seq<string>, map<string, ImageEntry>))
    ensures ValidImages(images) ==> ValidImages(r.1)
    ensures images.Keys <= r.1.Keys
    ensures table.None? ==> r == (["<!-- Invalid table structure -->"], images)
    ensures table.Some? && table.value.rows == [] ==> r == (["<!-- Empty table -->"], images)
    ensures table.Some? ==> |r.0| == 1 || |r.0| == |table.value.rows| + 1
  {
    match table
    case None => (["<!-- Invalid table structure -->"], images)
    case Some(t) =>
      if t.rows == [] then (["<!-- Empty table -->"], images)
      else
        var m := if t.hasImages && t.embeddedImages != [] then ConvertImages(images, t.embeddedImages, section, page) else images;
        var cells := ConvertRows(m, t.rows, section, page);
        (PipeTable(cells.0), cells.1)
  }

  /**
   * The legacy branch of `_convert_table`, for a table item whose type is
   * not `table`: every cell converted, then the same layout. The dispatch
   * only reaches `_convert_table` for `table` items, so this branch is not
   * reached from there.
   */
  function ConvertSimpleTable(rows: seq<seq<string>>): (r: seq<string>)
    ensures rows == [] ==> r == ["<!-- Empty table -->"]
    ensures |r| == 1 || |r| == |rows| + 1
  {
    if rows == [] then ["<!-- Empty table -->"]
    else
      PipeTable(seq(|rows|, k requires 0 <= k < |rows| =>
        seq(|rows[k]|, j requires 0 <= j < |rows[k]| => ObsidianMarkdown(rows[k][j]))))
  }

  // ---------------------------------------------------------------------
  // Outline elements and the walk over items
  // ---------------------------------------------------------------------

  /** An outline's html is shown when it is neither blank, nor bare tags, nor blank once converted. */
  predicate ShowsHtml(html: string)
  {
    !IsBlank(html) && !LogseqBlocks.IsEmptyHtmlTag(Strip(html)) && !IsBlank(ObsidianMarkdown(html))
  }

  /** A child line under a heading outline: two spaces in front unless it is blank. */
  function IndentLine(line: string): string
  {
    if IsBlank(line) then line else "  " + line
  }

  function IndentLines(lines: seq<string>): (r: seq<string>)
    ensures |r| == |lines|
    ensures forall k :: 0 <= k < |r| ==> r[k] == IndentLine(lines[k])
  {
    seq(|lines|, k requires 0 <= k < |lines| => IndentLine(lines[k]))
  }

  /** Takes a child line's two spaces off again. */
  function Undent(line: string): string
  {
    if IsBlank(line) || |line| < 2 then line else line[2..]
  }

  function UndentLines(lines: seq<string>): (r: seq<string>)
    ensures |r| == |lines|
    ensures forall k :: 0 <= k < |r| ==> r[k] == Undent(lines[k])
  {
    seq(|lines|, k requires 0 <= k < |lines| => Undent(lines[k]))
  }

  /** Indenting loses nothing: taking the spaces off gives the child's lines back. */
  lemma UndentIndent(lines: seq<string>)
    ensures UndentLines(IndentLines(lines)) == lines
  {
    forall k | 0 <= k < |lines| ensures Undent(IndentLine(lines[k])) == lines[k] {
      var l := lines[k];
      if !IsBlank(l) {
        var i :| 0 <= i < |l| && !IsSpace(l[i]);
        assert ("  " + l)[i + 2] == l[i];
      }
    }
  }

  lemma UndentConcat(a: seq<string>, b: seq<string>)
    ensures UndentLines(a + b) == UndentLines(a) + UndentLines(b)
  {
  }

  /** `_convert_html_content`: the converted html, or a placeholder when it is blank. */
  function ConvertHtmlContent(html: string): (r: seq<string>)
    ensures |r| == 1
    ensures !IsBlank(r[0])
    ensures r[0] == ObsidianMarkdown(html) <==> !IsBlank(ObsidianMarkdown(html))
    ensures !IsBlank(ObsidianMarkdown(html)) ==> r[0] == ObsidianMarkdown(html)
    ensures IsBlank(ObsidianMarkdown(html)) ==> r[0] == "<!-- Unknown HTML content -->"
  {
    var t := ObsidianMarkdown(html);
    if !IsBlank(t) then [t]
    else
      assert !IsSpace("<!-- Unknown HTML content -->"[0]);
      ["<!-- Unknown HTML content -->"]
  }

  /** The comment line that names an item of an unknown type. */
  function UnknownComment(kind: string): string
  {
    "<!-- Unknown type: " + kind + " -->"
  }

  /** The comment naming an unknown kind stays on one line when the kind does. */
  lemma CommentOneLine(kind: string)
    requires '\n' !in kind
    ensures '\n' !in UnknownComment(kind)
  {
    assert '\n' !in "<!-- Unknown type: " && '\n' !in " -->";
  }

  /**
   * `_convert_content_item`: the item's own conversion by its type; an
   * unknown type with content becomes one string holding the comment, a
   * line break and the content.
   */
  function ConvertItem(images: map<string, ImageEntry>, item: Item, section: string, page: string): (r: (seq<string>, map<string, ImageEntry>))
    ensures ValidImages(images) ==> ValidImages(r.1)
    ensures images.Keys <= r.1.Keys
    decreases ItemSize(item), 3
  {
    match item
    case TextItem(_, text, level) => (ConvertText(text, level), images)
    case Outline(_, _, _, _) => ConvertOutline(images, item, section, page)
    case ListItem(_, ordered, entries) => (ConvertList(entries, ordered), images)
    case ImageItem(_, img) => ConvertImage(images, img, section, page)
    case TableItem(_, table) => ConvertEnhancedTable(images, table, section, page)
    case HtmlItem(_, html) => (ConvertHtmlContent(html), images)
    case OtherItem(_, kind, value) =>
      if value != [] then ([UnknownComment(kind) + "\n" + value], images)
      else (["<!-- Unknown content type: " + kind + " -->"], images)
  }

  /** The lines of an outline's own content: its html as a heading of its level, an image, or a nested item. */
  function OutlineHead(images: map<string, ImageEntry>, item: Item, section: string, page: string): (r: (seq<string>, map<string, ImageEntry>))
    requires item.Outline?
    ensures ValidImages(images) ==> ValidImages(r.1)
    ensures images.Keys <= r.1.Keys
    ensures item.content.HtmlText? ==>
      r == (if ShowsHtml(item.content.html) then [HeadingLine(item.level, ObsidianMarkdown(item.content.html))] else [], images)
    ensures item.content.NoContent? ==> r == ([], images)
    decreases ItemSize(item), 1
  {
    match item.content
    case NoContent => ([], images)
    case HtmlText(html) =>
      (if ShowsHtml(html) then [HeadingLine(item.level, ObsidianMarkdown(html))] else [], images)
    case NestedImage(img) => ConvertImage(images, img, section, page)
    case Nested(it) => ConvertItem(images, it, section, page)
  }

  /** `_convert_outline_element`: the content's lines, then the children's, indented under a heading. */
  function ConvertOutline(images: map<string, ImageEntry>, item: Item, section: string, page: string): (r: (seq<string>, map<string, ImageEntry>))
    requires item.Outline?
    ensures ValidImages(images) ==> ValidImages(r.1)
    ensures images.Keys <= r.1.Keys
    decreases ItemSize(item), 2
  {
    var head := OutlineHead(images, item, section, page);
    var kids := ConvertChildren(head.1, item, 0, section, page);
    (head.0 + kids.0, kids.1)
  }

  /** The children of an outline from the `k`-th on, each indented when the outline's level is positive. */
  function ConvertChildren(images: map<string, ImageEntry>, item: Item, k: nat, section: string, page: string): (r: (seq<string>, map<string, ImageEntry>))
    requires item.Outline? && k <= |item.children|
    ensures ValidImages(images) ==> ValidImages(r.1)
    ensures images.Keys <= r.1.Keys
    decreases ItemSize(item), 0, |item.children| - k
  {
    if k == |item.children| then ([], images)
    else
      ChildSmaller(item.children, k);
      var c := ConvertItem(images, item.children[k], section, page);
      var lines := if item.level > 0 then IndentLines(c.0) else c.0;
      var rest := ConvertChildren(c.1, item, k + 1, section, page);
      (lines + rest.0, rest.1)
  }

  /**
   * The level of an outline only indents its children: taking two spaces
   * off each line of a heading outline's children gives the lines the same
   * children have under a top-level outline, with the same dictionary.
   */
  lemma {:induction false} ChildrenIndentOnly(images: map<string, ImageEntry>, item: Item, k: nat, section: string, page: string)
    requires item.Outline? && item.level > 0 && k <= |item.children|
    ensures var top := Outline(item.objectId, 0, item.content, item.children);
      var a := ConvertChildren(images, item, k, section, page);
      var b := ConvertChildren(images, top, k, section, page);
      UndentLines(a.0) == b.0 && a.1 == b.1
    decreases |item.children| - k
  {
    var top := Outline(item.objectId, 0, item.content, item.children);
    if k < |item.children| {
      ChildrenIndentOnly(ConvertItem(images, item.children[k], section, page).1, item, k + 1, section, page);
      var c := ConvertItem(images, item.children[k], section, page);
      var rest := ConvertChildren(c.1, item, k + 1, section, page);
      UndentIndent(c.0);
      UndentConcat(IndentLines(c.0), rest.0);
    }
  }

  /** A heading outline's html line reads back as a heading of the level's marks. */
  lemma OutlineHeading(images: map<string, ImageEntry>, id: Option<string>, level: nat, html: string, children: seq<Item>, section: string, page: string)
    requires ShowsHtml(html)
    requires ObsidianMarkdown(html)[0] != '#'
    ensures var r := ConvertItem(images, Outline(id, level, HtmlText(html), children), section, page);
      r.0 != [] && ParseHeading(r.0[0]) == (LogseqBlocks.HeadingMarks(level), ObsidianMarkdown(html))
  {
    var item := Outline(id, level, HtmlText(html), children);
    var head := OutlineHead(images, item, section, page);
    var kids := ConvertChildren(head.1, item, 0, section, page);
    assert ConvertOutline(images, item, section, page) == (head.0 + kids.0, kids.1);
    HeadingRoundTrip(level, ObsidianMarkdown(html));
  }

  /** An unknown item with content and a kind and content free of line breaks reads back as two lines. */
  lemma UnknownItemLines(images: map<string, ImageEntry>, id: Option<string>, kind: string, value: string, section: string, page: string)
    requires value != [] && '\n' !in kind && '\n' !in value
    ensures var r := ConvertItem(images, OtherItem(id, kind, value), section, page);
      |r.0| == 1 && Split(r.0[0], '\n') == [UnknownComment(kind), value]
  {
    var c := UnknownComment(kind);
    CommentOneLine(kind);
    SplitJoin([c, value], '\n');
    assert Join([c, value], "\n") == c + "\n" + value;
  }
}
