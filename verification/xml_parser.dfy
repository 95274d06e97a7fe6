/**
 * `OneNoteXMLParser` (`src/extractors/onenote_xml_parser.py`) over an
 * abstract element tree: the root check, the page metadata, the walk over
 * outline elements (OE) with their text, images, tables and nested
 * children, and the cleaning of CDATA text. The unknown element and
 * attribute names the parser collects into its two sets are computed by a
 * walk of their own; both walks visit the same elements.
 */
module OneNoteXml {

  import opened Wrappers
  import opened Strings

  /** The OneNote 2013 namespace, as ElementTree spells it in a tag. */
  const OneNs: string := "{http://schemas.microsoft.com/office/onenote/2013/onenote}"

  /** An XML element: its full tag, its attributes in document order, its text and its children. */
  datatype Element = Element(tag: string, attrs: seq<(string, string)>, text: Option<string>, children: seq<Element>)

  /** `tag.split('}')[-1]`: the tag without its namespace. */
  function LocalName(tag: string): string
  {
    var parts := Split(tag, '}');
    parts[|parts| - 1]
  }

  /** The element is `one:<name>`, as `find` and `findall` match it. */
  predicate IsOne(e: Element, name: string)
  {
    e.tag == OneNs + name
  }

  /** `findall('one:<name>')`: the direct children with that tag, in order. */
  function Tagged(cs: seq<Element>, name: string): (r: seq<Element>)
    ensures forall k :: 0 <= k < |r| ==> IsOne(r[k], name)
    ensures forall c :: c in r <==> c in cs && IsOne(c, name)
  {
    if cs == [] then []
    else (if IsOne(cs[0], name) then [cs[0]] else []) + Tagged(cs[1..], name)
  }

  /** `find('one:<name>')`: the first direct child with that tag. */
  function FirstTagged(cs: seq<Element>, name: string): Option<Element>
  {
    var t := Tagged(cs, name);
    if t == [] then None else Some(t[0])
  }

  /** `attrib.get(key)`; XML attribute names are unique within an element. */
  function Attr(attrs: seq<(string, string)>, key: string): (r: Option<string>)
    ensures r.Some? ==> (key, r.value) in attrs
    ensures r.None? ==> forall k :: 0 <= k < |attrs| ==> attrs[k].0 != key
  {
    if attrs == [] then None
    else if attrs[0].0 == key then Some(attrs[0].1)
    else Attr(attrs[1..], key)
  }

  /** The attributes whose names are in `known`, as the dictionary the loop builds. */
  function KnownAttrs(attrs: seq<(string, string)>, known: set<string>): (m: map<string, string>)
    ensures m.Keys == set k | 0 <= k < |attrs| && attrs[k].0 in known :: attrs[k].0
    ensures forall a :: a in m ==> (a, m[a]) in attrs
    decreases |attrs|
  {
    if attrs == [] then map[]
    else
      var init := attrs[..|attrs| - 1];
      var last := attrs[|attrs| - 1];
      var m := KnownAttrs(init, known);
      assert forall k :: 0 <= k < |init| ==> init[k] == attrs[k];
      if last.0 in known then m[last.0 := last.1] else m
  }

  /** The names the parser records for the attributes not in `known`. */
  function UnknownAttrs(attrs: seq<(string, string)>, known: set<string>, prefix: string): set<string>
  {
    set k | 0 <= k < |attrs| && attrs[k].0 !in known :: prefix + attrs[k].0
  }

  // ---------------------------------------------------------------------
  // CDATA text
  // ---------------------------------------------------------------------

  /** The last newline in `s[i..j]`. */
  function LastNewline(s: string, i: nat, j: nat): (r: Option<nat>)
    requires i <= j <= |s|
    ensures r.Some? ==> i <= r.value < j && s[r.value] == '\n'
    ensures r.None? ==> forall k :: i <= k < j ==> s[k] != '\n'
    decreases j
  {
    if j <= i then None
    else if s[j - 1] == '\n' then Some(j - 1)
    else LastNewline(s, i, j - 1)
  }

  /**
   * `re.sub(r'\n\s*\n', '\n\n', s)`: from a newline, the greedy `\s*` runs
   * to the end of the whitespace and backs off to its last newline; the
   * stretch from the first to that last newline becomes one blank line.
   */
  function BlankLines(s: string): string
    decreases |s|
  {
    if s == [] then []
    else if s[0] == '\n' then
      var j := SkipSpaces(s, 1);
      match LastNewline(s, 1, j)
      case Some(m) => "\n\n" + BlankLines(s[m + 1..])
      case None => [s[0]] + BlankLines(s[1..])
    else [s[0]] + BlankLines(s[1..])
  }

  /** Folding blank lines only rewrites whitespace. */
  lemma {:induction false} BlankLinesKeepText(s: string)
    ensures NonSpace(BlankLines(s)) == NonSpace(s)
    decreases |s|
  {
    if s != [] {
      var r := BlankLines(s);
      if s[0] == '\n' && LastNewline(s, 1, SkipSpaces(s, 1)).Some? {
        var m := LastNewline(s, 1, SkipSpaces(s, 1)).value;
        BlankLinesKeepText(s[m + 1..]);
        assert IsBlank(s[..m + 1]);
        NonSpaceSkipsBlank(s, m + 1);
        assert r == "\n\n" + BlankLines(s[m + 1..]);
        NonSpaceConcat("\n\n", BlankLines(s[m + 1..]));
        BlankNonSpace("\n\n");
      } else {
        BlankLinesKeepText(s[1..]);
        assert r == [s[0]] + BlankLines(s[1..]);
        NonSpaceConcat([s[0]], BlankLines(s[1..]));
        assert s == [s[0]] + s[1..];
        NonSpaceConcat([s[0]], s[1..]);
      }
    }
  }

  /**
   * `_clean_cdata_content`: empty for empty text; otherwise blank lines
   * folded, runs of spaces collapsed, and the ends stripped. Only
   * whitespace changes: the other characters stay, in order.
   */
  function CleanCdata(s: string): (r: string)
    ensures s == [] ==> r == []
    ensures IsStripped(r)
    ensures NoDoubleSpace(r)
    ensures NonSpace(r) == NonSpace(s)
  {
    if s == [] then []
    else
      var folded := BlankLines(s);
      var single := CollapseRuns(folded, ' ');
      BlankLinesKeepText(s);
      SpaceRunsKeepText(folded);
      StripKeepsText(single);
      StripNoDoubleSpace(single);
      Strip(single)
  }

  // ---------------------------------------------------------------------
  // The root and the page metadata
  // ---------------------------------------------------------------------

  const PageAttrs: set<string> := {"ID", "name", "dateTime", "lastModifiedTime", "pageLevel", "lang"}

  /** The page's known attributes and the attributes of its `PageSettings`, when there is one. */
  datatype Metadata = Metadata(attributes: map<string, string>, pageSettings: Option<map<string, string>>)

  /** `find('.//one:<name>')` from the `k`-th child on: the first matching descendant in document order. */
  function FindBelow(e: Element, k: nat, name: string): (r: Option<Element>)
    requires k <= |e.children|
    ensures r.Some? ==> IsOne(r.value, name)
    decreases e, |e.children| - k
  {
    if k == |e.children| then None
    else
      var c := e.children[k];
      if IsOne(c, name) then Some(c)
      else match FindBelow(c, 0, name)
        case Some(d) => Some(d)
        case None => FindBelow(e, k + 1, name)
  }

  /** `_extract_page_metadata`: the known attributes, `Page.<attr>` for the others, and the settings. */
  function PageMetadata(root: Element): (r: (Metadata, set<string>))
    ensures r.0.attributes.Keys <= PageAttrs
    ensures forall k :: 0 <= k < |root.attrs| ==>
      (root.attrs[k].0 in PageAttrs <==> root.attrs[k].0 in r.0.attributes) &&
      (root.attrs[k].0 !in PageAttrs ==> "Page." + root.attrs[k].0 in r.1)
  {
    var attributes := KnownAttrs(root.attrs, PageAttrs);
    var settings := match FindBelow(root, 0, "PageSettings")
      case Some(ps) => Some(KnownAttrs(ps.attrs, set k | 0 <= k < |ps.attrs| :: ps.attrs[k].0))
      case None => None;
    (Metadata(attributes, settings), UnknownAttrs(root.attrs, PageAttrs, "Page."))
  }

  /** What the root check and the metadata give: the page name, the metadata, the unknown attributes. */
  datatype PageHeader = PageHeader(pageName: string, metadata: Metadata, unknownAttributes: set<string>)

  /** No attribute name occurs twice, as in any well-formed XML element. */
  predicate UniqueNames(attrs: seq<(string, string)>)
  {
    forall i, j :: 0 <= i < j < |attrs| ==> attrs[i].0 != attrs[j].0
  }

  /**
   * `parse_page_xml` up to the metadata: a root whose tag does not end in
   * `Page` is refused, and the refusal reaches the caller through the
   * catch-all as one error kind whose message names the file. The page
   * name is the `name` attribute, or `Untitled`.
   */
  function ParseRoot(path: string, root: Element): (r: Result<PageHeader, string>)
    ensures r.Err? <==> !EndsWith(root.tag, "Page")
    ensures r.Err? ==> r.error == "Error parsing " + path + ": Not a OneNote page XML: " + root.tag
    ensures r.Ok? ==> r.value.metadata == PageMetadata(root).0
    ensures r.Ok? && UniqueNames(root.attrs) ==>
      forall n :: ("name", n) in root.attrs ==> r.value.pageName == n
    ensures r.Ok? && (forall k :: 0 <= k < |root.attrs| ==> root.attrs[k].0 != "name") ==>
      r.value.pageName == "Untitled"
  {
    if !EndsWith(root.tag, "Page") then Err("Error parsing " + path + ": Not a OneNote page XML: " + root.tag)
    else
      var meta := PageMetadata(root);
      var attributes := meta.0.attributes;
      var name := if "name" in attributes then attributes["name"] else "Untitled";
      assert UniqueNames(root.attrs) ==> forall n :: ("name", n) in root.attrs ==> name == n by {
        if UniqueNames(root.attrs) {
          forall n | ("name", n) in root.attrs ensures name == n {
            var k :| 0 <= k < |root.attrs| && root.attrs[k] == ("name", n);
            assert "name" in attributes;
            var k2 :| 0 <= k2 < |root.attrs| && root.attrs[k2] == ("name", attributes["name"]);
            assert k == k2;
          }
        }
      }
      Ok(PageHeader(name, meta.0, meta.1))
  }

  // ---------------------------------------------------------------------
  // Images, cells and tables
  // ---------------------------------------------------------------------

  /** An image record: `alt` ("" when absent) and the `callbackID` of its `CallbackID` child. */
  datatype ImageData = ImageData(alt: string, callbackId: Option<string>)

  /** `_process_image_element`, without the unknown attributes it records. */
  function ImageOf(img: Element): ImageData
  {
    var alt := match Attr(img.attrs, "alt") case Some(a) => a case None => "";
    var cb := match FirstTagged(img.children, "CallbackID")
      case Some(c) => Attr(c.attrs, "callbackID")
      case None => None;
    ImageData(alt, cb)
  }

  /** The `Image.<attr>` names an image records. */
  function ImageUnknown(img: Element): set<string>
  {
    UnknownAttrs(img.attrs, {"alt"}, "Image.")
  }

  datatype CellData = CellData(text: string, images: seq<ImageData>, hasImages: bool)

  /** A cell's images are flagged exactly when it has some. */
  predicate Flagged(c: CellData)
  {
    c.hasImages <==> c.images != []
  }

  /** The OEs of a cell: the cleaned text of each first `T` with a space, and each first `Image`. */
  function CellOes(oes: seq<Element>, acc: CellData): (r: CellData)
    ensures Flagged(acc) ==> Flagged(r)
    ensures |acc.images| <= |r.images| && r.images[..|acc.images|] == acc.images
    decreases |oes|
  {
    if oes == [] then acc
    else
      var oe := oes[0];
      var text := match FirstTagged(oe.children, "T")
        case Some(t) => if t.text.Some? && t.text.value != [] then acc.text + CleanCdata(t.text.value) + " " else acc.text
        case None => acc.text;
      var next := match FirstTagged(oe.children, "Image")
        case Some(i) => CellData(text, acc.images + [ImageOf(i)], true)
        case None => acc.(text := text);
      var r := CellOes(oes[1..], next);
      assert r.images[..|acc.images|] == r.images[..|next.images|][..|acc.images|];
      r
  }

  /** `_process_cell_content`: the OEs of the cell's first `OEChildren`. */
  function CellOf(cell: Element): (r: CellData)
    ensures Flagged(r)
  {
    match FirstTagged(cell.children, "OEChildren")
    case Some(o) => CellOes(Tagged(o.children, "OE"), CellData("", [], false))
    case None => CellData("", [], false)
  }

  datatype TableData = TableData(attributes: map<string, string>, rows: seq<seq<CellData>>, hasImages: bool, embeddedImages: seq<ImageData>)

  /** The images of cells, in order. */
  function CellsImages(cells: seq<CellData>): seq<ImageData>
  {
    if cells == [] then [] else cells[0].images + CellsImages(cells[1..])
  }

  /** The images of rows, row by row. */
  function RowsImages(rows: seq<seq<CellData>>): seq<ImageData>
  {
    if rows == [] then [] else RowsImages(rows[..|rows| - 1]) + CellsImages(rows[|rows| - 1])
  }

  /** Some cell has images. */
  predicate AnyImages(rows: seq<seq<CellData>>)
  {
    exists k, j :: 0 <= k < |rows| && 0 <= j < |rows[k]| && rows[k][j].hasImages
  }

  /** The cells of a row in order, each flagged ones' images appended to the table's. */
  function CellsInto(cells: seq<CellData>, has: bool, embedded: seq<ImageData>): (r: (bool, seq<ImageData>))
    ensures r.0 <==> has || exists j :: 0 <= j < |cells| && cells[j].hasImages
    ensures (forall j :: 0 <= j < |cells| ==> Flagged(cells[j])) ==> r.1 == embedded + CellsImages(cells)
    decreases |cells|
  {
    if cells == [] then (has, embedded)
    else
      var c := cells[0];
      var r := if c.hasImages then CellsInto(cells[1..], true, embedded + c.images) else CellsInto(cells[1..], has, embedded);
      assert forall j :: 1 <= j < |cells| ==> cells[j] == cells[1..][j - 1];
      r
  }

  /** The table's rows state: its images are flagged and collected exactly as its cells hold them. */
  predicate TableInv(t: TableData)
  {
    && (forall k, j :: 0 <= k < |t.rows| && 0 <= j < |t.rows[k]| ==> Flagged(t.rows[k][j]))
    && (t.hasImages <==> AnyImages(t.rows))
    && t.embeddedImages == RowsImages(t.rows)
  }

  function RowCells(row: Element): (r: seq<CellData>)
    ensures forall j :: 0 <= j < |r| ==> Flagged(r[j])
  {
    var cells := Tagged(row.children, "Cell");
    seq(|cells|, j requires 0 <= j < |cells| => CellOf(cells[j]))
  }

  /** Adding one row keeps the table's state. */
  lemma AddRowInv(t: TableData, cells: seq<CellData>)
    requires TableInv(t)
    requires forall j :: 0 <= j < |cells| ==> Flagged(cells[j])
    ensures var c := CellsInto(cells, t.hasImages, t.embeddedImages);
      TableInv(t.(rows := t.rows + [cells], hasImages := c.0, embeddedImages := c.1))
  {
    var rows := t.rows + [cells];
    var c := CellsInto(cells, t.hasImages, t.embeddedImages);
    AddRowFlagged(t.rows, cells);
    AddRowAny(t.rows, cells, t.hasImages, t.embeddedImages);
    assert rows[..|rows| - 1] == t.rows;
    assert c.1 == RowsImages(rows);
  }

  lemma AddRowFlagged(rows: seq<seq<CellData>>, cells: seq<CellData>)
    requires forall k, j :: 0 <= k < |rows| && 0 <= j < |rows[k]| ==> Flagged(rows[k][j])
    requires forall j :: 0 <= j < |cells| ==> Flagged(cells[j])
    ensures var all := rows + [cells];
      forall k, j :: 0 <= k < |all| && 0 <= j < |all[k]| ==> Flagged(all[k][j])
  {
    var all: seq<seq<CellData>> := rows + [cells];
    forall k, j | 0 <= k < |all| && 0 <= j < |all[k]| ensures Flagged(all[k][j]) {
      if k < |rows| {
        assert all[k] == rows[k];
      } else {
        assert all[k] == cells;
      }
    }
  }

  /** The flag after a row: set before, or set by one of the row's cells. */
  lemma AddRowAny(rows: seq<seq<CellData>>, cells: seq<CellData>, has: bool, embedded: seq<ImageData>)
    requires has <==> AnyImages(rows)
    ensures CellsInto(cells, has, embedded).0 <==> AnyImages(rows + [cells])
  {
    var all: seq<seq<CellData>> := rows + [cells];
    if CellsInto(cells, has, embedded).0 {
      if !has {
        var j :| 0 <= j < |cells| && cells[j].hasImages;
        assert all[|rows|][j].hasImages;
      } else {
        var k, j :| 0 <= k < |rows| && 0 <= j < |rows[k]| && rows[k][j].hasImages;
        assert all[k][j].hasImages;
      }
    } else {
      forall k, j | 0 <= k < |all| && 0 <= j < |all[k]| ensures !all[k][j].hasImages {
        if k < |rows| {
          assert all[k] == rows[k];
        } else {
          assert all[k] == cells;
        }
      }
    }
  }

  /** One more row: its flagged cells' images appended in order. */
  function AddRow(t: TableData, cells: seq<CellData>): (r: TableData)
    requires TableInv(t)
    requires forall j :: 0 <= j < |cells| ==> Flagged(cells[j])
    ensures TableInv(r)
    ensures r.rows == t.rows + [cells]
  {
    var c := CellsInto(cells, t.hasImages, t.embeddedImages);
    AddRowInv(t, cells);
    t.(rows := t.rows + [cells], hasImages := c.0, embeddedImages := c.1)
  }

  /** The cells of each row element. */
  function RowsOf(rowEls: seq<Element>): (r: seq<seq<CellData>>)
    ensures |r| == |rowEls|
    ensures forall k :: 0 <= k < |r| ==> r[k] == RowCells(rowEls[k])
  {
    seq(|rowEls|, k requires 0 <= k < |rowEls| => RowCells(rowEls[k]))
  }

  lemma RowsOfCons(rowEls: seq<Element>)
    requires rowEls != []
    ensures RowsOf(rowEls) == [RowCells(rowEls[0])] + RowsOf(rowEls[1..])
  {
    var a := RowsOf(rowEls);
    var b := [RowCells(rowEls[0])] + RowsOf(rowEls[1..]);
    assert |a| == |b|;
    forall k | 0 <= k < |a| ensures a[k] == b[k] {
      if k > 0 {
        assert rowEls[1..][k - 1] == rowEls[k];
      }
    }
  }

  /** The rows of a table in order. */
  function TableRows(rowEls: seq<Element>, acc: TableData): (r: TableData)
    requires TableInv(acc)
    ensures TableInv(r)
    ensures r.rows == acc.rows + RowsOf(rowEls)
    decreases |rowEls|
  {
    if rowEls == [] then acc
    else
      var next := AddRow(acc, RowCells(rowEls[0]));
      var r := TableRows(rowEls[1..], next);
      RowsOfCons(rowEls);
      ConcatAssoc(acc.rows, [RowCells(rowEls[0])], RowsOf(rowEls[1..]));
      r
  }

  /**
   * `_process_table_element`: every attribute kept, one row per `Row` with
   * one cell per `Cell`; the table has images exactly when a cell has, and
   * its embedded images are the cells' images in row and cell order.
   */
  function TableOf(t: Element): (r: TableData)
    ensures r.rows == RowsOf(Tagged(t.children, "Row"))
    ensures r.hasImages <==> AnyImages(r.rows)
    ensures r.embeddedImages == RowsImages(r.rows)
  {
    var attributes := KnownAttrs(t.attrs, set k | 0 <= k < |t.attrs| :: t.attrs[k].0);
    TableRows(Tagged(t.children, "Row"), TableData(attributes, [], false, []))
  }

  // ---------------------------------------------------------------------
  // Outline elements
  // ---------------------------------------------------------------------

  const OeAttrs: set<string> := {
    "objectID", "alignment", "quickStyleIndex", "creationTime", "lastModifiedTime",
    "author", "authorInitials", "lastModifiedBy", "lastModifiedByInitials",
    "authorResolutionID", "lastModifiedByResolutionID", "style", "lang"
  }

  /** The child tags an OE understands. */
  const OeChildTags: set<string> := {"T", "Image", "Table", "OEChildren"}

  datatype NodeContent = NoContent | TextContent(text: string) | ImageContent(image: ImageData) | TableContent(table: TableData)

  /** An OE's dictionary: its level, known attributes, content and children. */
  datatype Node = Node(level: nat, attributes: map<string, string>, content: NodeContent, children: seq<Node>)

  /** The node's `type`, which is set together with its content. */
  function Kind(n: Node): string
  {
    match n.content
    case NoContent => "outline_element"
    case TextContent(_) => "text"
    case ImageContent(_) => "image"
    case TableContent(_) => "table"
  }

  /** The test an OE's dictionary passes to be returned: content, children or attributes. */
  predicate Meaningful(n: Node)
  {
    !n.content.NoContent? || n.children != [] || n.attributes != map[]
  }

  /** The cleaned text a `T` child contributes, when it contributes any. */
  function TextOf(c: Element): (r: Option<string>)
    ensures r.Some? ==> !IsBlank(r.value) && IsStripped(r.value) && NoDoubleSpace(r.value)
  {
    if LocalName(c.tag) == "T" && c.text.Some? && c.text.value != [] && c.text.value != "None"
      && !IsBlank(CleanCdata(c.text.value))
    then Some(CleanCdata(c.text.value))
    else None
  }

  /** The texts of a run of children, in document order. */
  function Texts(cs: seq<Element>): (r: seq<string>)
    ensures forall k :: 0 <= k < |r| ==> r[k] != []
  {
    if cs == [] then []
    else
      match TextOf(cs[0])
      case Some(t) => [t] + Texts(cs[1..])
      case None => Texts(cs[1..])
  }

  /** Appends one text to the joined text so far, with a space between. */
  function AddText(acc: string, t: string): string
  {
    if acc != [] then acc + " " + t else t
  }

  /** What the loop over an OE's children carries. */
  datatype Scan = Scan(text: string, hasImage: bool, hasTable: bool, content: NodeContent, children: seq<Node>)

  /** The image or table content is set exactly when an image or table was seen; text is set later. */
  predicate ScanInv(s: Scan, level: nat)
  {
    && !s.content.TextContent?
    && (s.content.NoContent? <==> !s.hasImage && !s.hasTable)
    && forall k :: 0 <= k < |s.children| ==> s.children[k].level == level + 1 && Meaningful(s.children[k])
  }

  /**
   * `_process_oe_element`: the known attributes; then, over the children,
   * the texts joined, the last image or table as content, and the nodes
   * of the last `OEChildren` one level down. Text is the content only
   * without an image or table; the node is kept only if meaningful.
   */
  function OeNode(e: Element, level: nat): (r: Option<Node>)
    ensures r.Some? ==> r.value.level == level && Meaningful(r.value)
    ensures r.Some? ==> r.value.attributes.Keys <= OeAttrs
    ensures r.Some? ==> forall k :: 0 <= k < |r.value.children| ==> r.value.children[k].level == level + 1
    ensures r.None? ==> KnownAttrs(e.attrs, OeAttrs) == map[]
    ensures r.None? ==> forall k :: 0 <= k < |e.children| ==> LocalName(e.children[k].tag) !in {"Image", "Table"}
    decreases e, 2
  {
    var attributes := KnownAttrs(e.attrs, OeAttrs);
    var s := ScanChildren(e, 0, level, Scan([], false, false, NoContent, []));
    var content := if s.text != [] && !s.hasImage && !s.hasTable then TextContent(s.text) else s.content;
    var n := Node(level, attributes, content, s.children);
    if Meaningful(n) then Some(n) else None
  }

  /** One child of an OE: a text joined on, an image or table as content, or the nested nodes. */
  function Step(c: Element, level: nat, acc: Scan): (r: Scan)
    requires ScanInv(acc, level)
    ensures ScanInv(r, level)
    ensures r.hasImage <==> acc.hasImage || LocalName(c.tag) == "Image"
    ensures r.hasTable <==> acc.hasTable || LocalName(c.tag) == "Table"
    decreases c, 3
  {
    var tag := LocalName(c.tag);
    if tag == "T" then
      (match TextOf(c) case Some(t) => acc.(text := AddText(acc.text, t)) case None => acc)
    else if tag == "Image" then acc.(hasImage := true, content := ImageContent(ImageOf(c)))
    else if tag == "Table" then acc.(hasTable := true, content := TableContent(TableOf(c)))
    else if tag == "OEChildren" then acc.(children := OeChildren(c, 0, level + 1))
    else acc
  }

  /** The children of an OE from the `k`-th on. */
  function ScanChildren(e: Element, k: nat, level: nat, acc: Scan): (r: Scan)
    requires k <= |e.children|
    requires ScanInv(acc, level)
    ensures ScanInv(r, level)
    ensures r.hasImage <==> acc.hasImage || exists j :: k <= j < |e.children| && LocalName(e.children[j].tag) == "Image"
    ensures r.hasTable <==> acc.hasTable || exists j :: k <= j < |e.children| && LocalName(e.children[j].tag) == "Table"
    decreases e, 1, |e.children| - k
  {
    if k == |e.children| then acc
    else ScanChildren(e, k + 1, level, Step(e.children[k], level, acc))
  }

  /** `_process_oe_children` from the `k`-th child on: the `OE` children's nodes, the dropped ones left out. */
  function OeChildren(oec: Element, k: nat, level: nat): (r: seq<Node>)
    requires k <= |oec.children|
    ensures forall j :: 0 <= j < |r| ==> r[j].level == level && Meaningful(r[j])
    ensures |r| <= |oec.children| - k
    decreases oec, 0, |oec.children| - k
  {
    if k == |oec.children| then []
    else
      var c := oec.children[k];
      var here := if IsOne(c, "OE") then (match OeNode(c, level) case Some(n) => [n] case None => []) else [];
      here + OeChildren(oec, k + 1, level)
  }

  /** The joined text, when `ps` are the texts still to come. */
  function Joined(acc: string, ps: seq<string>): string
  {
    if ps == [] then acc else if acc == [] then Join(ps, " ") else acc + " " + Join(ps, " ")
  }

  lemma AddTextJoined(acc: string, t: string, ps: seq<string>)
    requires t != []
    ensures Joined(AddText(acc, t), ps) == Joined(acc, [t] + ps)
  {
    assert ([t] + ps)[1..] == ps;
    if acc != [] && ps != [] {
      ConcatAssoc(acc + " ", t, " " + Join(ps, " "));
      ConcatAssoc(acc, " ", t);
      ConcatAssoc(acc + " " + t, " ", Join(ps, " "));
      ConcatAssoc(t, " ", Join(ps, " "));
      ConcatAssoc(acc, " ", t + " " + Join(ps, " "));
    }
  }

  /** One loop step adds the child's usable text, if any, and nothing else to the text. */
  lemma StepText(c: Element, level: nat, acc: Scan)
    requires ScanInv(acc, level)
    ensures Step(c, level, acc).text == if TextOf(c).Some? then AddText(acc.text, TextOf(c).value) else acc.text
  {
  }

  /** The usable texts of a child followed by more children. */
  lemma TextsCons(cs: seq<Element>, c: Element, rest: seq<Element>)
    requires cs == [c] + rest
    ensures Texts(cs) == (if TextOf(c).Some? then [TextOf(c).value] else []) + Texts(rest)
  {
    assert cs[0] == c && cs[1..] == rest;
  }

  /** The loop's text is the usable texts of the children, joined with single spaces in document order. */
  lemma {:induction false} ScanText(e: Element, k: nat, level: nat, acc: Scan)
    requires k <= |e.children|
    requires ScanInv(acc, level)
    ensures ScanChildren(e, k, level, acc).text == Joined(acc.text, Texts(e.children[k..]))
    decreases |e.children| - k
  {
    if k < |e.children| {
      var c := e.children[k];
      var rest := e.children[k + 1..];
      TextsCons(e.children[k..], c, rest);
      var next := Step(c, level, acc);
      StepText(c, level, acc);
      assert ScanChildren(e, k, level, acc) == ScanChildren(e, k + 1, level, next);
      ScanText(e, k + 1, level, next);
      if TextOf(c).Some? {
        AddTextJoined(acc.text, TextOf(c).value, Texts(rest));
      }
    } else {
      assert e.children[k..] == [];
    }
  }

  /**
   * Without an image or table child, an OE with usable text becomes a text
   * node whose content is those texts joined with single spaces.
   */
  lemma TextNode(e: Element, level: nat)
    requires Texts(e.children) != []
    requires forall k :: 0 <= k < |e.children| ==> LocalName(e.children[k].tag) !in {"Image", "Table"}
    ensures OeNode(e, level).Some?
    ensures OeNode(e, level).value.content == TextContent(Join(Texts(e.children), " "))
    ensures Kind(OeNode(e, level).value) == "text"
  {
    var init := Scan([], false, false, NoContent, []);
    ScanText(e, 0, level, init);
    assert e.children[0..] == e.children;
    var s := ScanChildren(e, 0, level, init);
    assert !s.hasImage && !s.hasTable;
  }

  /** With an image or table child, an OE is an image or table node, whatever its text. */
  lemma ImageOrTableWins(e: Element, level: nat, j: nat)
    requires j < |e.children| && LocalName(e.children[j].tag) in {"Image", "Table"}
    ensures OeNode(e, level).Some?
    ensures OeNode(e, level).value.content.ImageContent? || OeNode(e, level).value.content.TableContent?
  {
    var s := ScanChildren(e, 0, level, Scan([], false, false, NoContent, []));
    assert s.hasImage || s.hasTable;
  }

  // ---------------------------------------------------------------------
  // Unknown element and attribute names
  // ---------------------------------------------------------------------

  /** The parser's two sets. */
  datatype Unknown = Unknown(elements: set<string>, attributes: set<string>)

  function Union(a: Unknown, b: Unknown): Unknown
  {
    Unknown(a.elements + b.elements, a.attributes + b.attributes)
  }

  /** The `Image.<attr>` names of the first images of a run of OEs. */
  function OesImageUnknown(oes: seq<Element>): set<string>
  {
    if oes == [] then {}
    else
      (match FirstTagged(oes[0].children, "Image") case Some(i) => ImageUnknown(i) case None => {})
      + OesImageUnknown(oes[1..])
  }

  function CellUnknown(cell: Element): set<string>
  {
    match FirstTagged(cell.children, "OEChildren")
    case Some(o) => OesImageUnknown(Tagged(o.children, "OE"))
    case None => {}
  }

  function CellsUnknown(cells: seq<Element>): set<string>
  {
    if cells == [] then {} else CellUnknown(cells[0]) + CellsUnknown(cells[1..])
  }

  function RowsUnknown(rows: seq<Element>): set<string>
  {
    if rows == [] then {} else CellsUnknown(Tagged(rows[0].children, "Cell")) + RowsUnknown(rows[1..])
  }

  /** The unknown attributes of the images a table's cells hold. */
  function TableUnknown(t: Element): set<string>
  {
    RowsUnknown(Tagged(t.children, "Row"))
  }

  /** Every name the parser records is one of its own prefixed names. */
  predicate Prefixed(u: Unknown)
  {
    && (forall x :: x in u.elements ==> StartsWith(x, "OE."))
    && (forall x :: x in u.attributes ==> StartsWith(x, "OE.") || StartsWith(x, "Image."))
  }

  lemma ImagePrefixed(img: Element)
    ensures forall x :: x in ImageUnknown(img) ==> StartsWith(x, "Image.")
  {
  }

  lemma {:induction false} OesImagePrefixed(oes: seq<Element>)
    ensures forall x :: x in OesImageUnknown(oes) ==> StartsWith(x, "Image.")
    decreases |oes|
  {
    if oes != [] {
      OesImagePrefixed(oes[1..]);
    }
  }

  lemma {:induction false} CellsPrefixed(cells: seq<Element>)
    ensures forall x :: x in CellsUnknown(cells) ==> StartsWith(x, "Image.")
    decreases |cells|
  {
    if cells != [] {
      CellsPrefixed(cells[1..]);
      match FirstTagged(cells[0].children, "OEChildren")
      case Some(o) => OesImagePrefixed(Tagged(o.children, "OE"));
      case None =>
    }
  }

  lemma {:induction false} TablePrefixed(rows: seq<Element>)
    ensures forall x :: x in RowsUnknown(rows) ==> StartsWith(x, "Image.")
    decreases |rows|
  {
    if rows != [] {
      TablePrefixed(rows[1..]);
      CellsPrefixed(Tagged(rows[0].children, "Cell"));
    }
  }

  /**
   * The names an OE adds to the two sets: `OE.<attr>` for each attribute
   * off the allow-list, and those of its children.
   */
  function OeUnknown(e: Element): (r: Unknown)
    ensures Prefixed(r)
    ensures forall k :: 0 <= k < |e.attrs| && e.attrs[k].0 !in OeAttrs ==> "OE." + e.attrs[k].0 in r.attributes
    ensures forall k :: 0 <= k < |e.children| && LocalName(e.children[k].tag) !in OeChildTags ==>
      "OE." + LocalName(e.children[k].tag) in r.elements
    decreases e, 1
  {
    var own := UnknownAttrs(e.attrs, OeAttrs, "OE.");
    assert forall x :: x in own ==> StartsWith(x, "OE.") by {
      forall x | x in own ensures StartsWith(x, "OE.") {
        var k :| 0 <= k < |e.attrs| && e.attrs[k].0 !in OeAttrs && x == "OE." + e.attrs[k].0;
      }
    }
    Union(Unknown({}, own), ChildrenUnknown(e, 0))
  }

  /**
   * The names an OE's children add from the `k`-th on: `OE.<tag>` for an
   * unrecognised tag, the image and table attributes, and the nested OEs'.
   */
  function ChildrenUnknown(e: Element, k: nat): (r: Unknown)
    requires k <= |e.children|
    ensures Prefixed(r)
    ensures forall j :: k <= j < |e.children| && LocalName(e.children[j].tag) !in OeChildTags ==>
      "OE." + LocalName(e.children[j].tag) in r.elements
    decreases e, 0, |e.children| - k
  {
    if k == |e.children| then Unknown({}, {})
    else
      var c := e.children[k];
      var tag := LocalName(c.tag);
      var u :=
        if tag == "T" then Unknown({}, {})
        else if tag == "Image" then ImagePrefixed(c); Unknown({}, ImageUnknown(c))
        else if tag == "Table" then TablePrefixed(Tagged(c.children, "Row")); Unknown({}, TableUnknown(c))
        else if tag == "OEChildren" then OesUnknown(c, 0)
        else Unknown({"OE." + tag}, {});
      Union(u, ChildrenUnknown(e, k + 1))
  }

  /** The names the `OE` children of an `OEChildren` add, from the `k`-th on. */
  function OesUnknown(oec: Element, k: nat): (r: Unknown)
    requires k <= |oec.children|
    ensures Prefixed(r)
    decreases oec, 0, |oec.children| - k
  {
    if k == |oec.children| then Unknown({}, {})
    else
      var c := oec.children[k];
      var u := if IsOne(c, "OE") then OeUnknown(c) else Unknown({}, {});
      Union(u, OesUnknown(oec, k + 1))
  }
}
