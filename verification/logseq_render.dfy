/**
 * `LogseqConverter`'s walk over a page's content items
 * (`src/converters/logseq_converter.py`). The converter's side tables, the
 * image dictionary, the set of used image names and the block-reference
 * map, are threaded through every call as an explicit `State`.
 */
module LogseqRender {

  import opened Wrappers
  import opened Strings
  import LogseqNaming
  import LogseqImages
  import opened LogseqBlocks
  import opened ContentItems

  // ---------------------------------------------------------------------
  // The side tables
  // ---------------------------------------------------------------------

  /** An image dictionary entry; the absolute target path is left out. */
  datatype ImageEntry = ImageEntry(pageId: string, fileName: string, altText: string, section: string, page: string, link: string)

  datatype State = State(images: map<string, ImageEntry>, usedNames: set<string>, blockRefs: map<string, string>)

  /** `relative_path` of an entry. */
  function RelativePath(e: ImageEntry): string
  {
    "assets/" + e.fileName
  }

  /**
   * What the converter keeps true of its tables: every recorded reference
   * is the one derived from its object id, and every stored image's file
   * name is among the used names.
   */
  predicate Valid(st: State)
  {
    (forall id :: id in st.blockRefs ==> st.blockRefs[id] == LogseqNaming.BlockReference(id)) &&
    (forall cb :: cb in st.images ==> st.images[cb].fileName in st.usedNames)
  }

  /** The tables only ever gain entries. */
  predicate Grows(a: State, b: State)
  {
    a.blockRefs.Keys <= b.blockRefs.Keys && a.images.Keys <= b.images.Keys && a.usedNames <= b.usedNames
  }

  /** Records the reference of a truthy object id. */
  function Record(st: State, id: Option<string>): (r: State)
    ensures Valid(st) ==> Valid(r)
    ensures Grows(st, r) && r.images == st.images && r.usedNames == st.usedNames
    ensures Truthy(id) ==> r.blockRefs == st.blockRefs[id.value := LogseqNaming.BlockReference(id.value)]
    ensures !Truthy(id) ==> r == st
  {
    if Truthy(id) then st.(blockRefs := st.blockRefs[id.value := LogseqNaming.BlockReference(id.value)]) else st
  }

  // ---------------------------------------------------------------------
  // Images
  // ---------------------------------------------------------------------

  /** The alt text `_detect_image_format_hint` looks at: `alt_text or alt or ''`. */
  function HintAlt(img: Image): string
  {
    if img.altText != [] then img.altText
    else match img.alt
      case Some(a) => a
      case None => ""
  }

  /** A caption is added unless the alt text is empty, `image` or `untitled` in any case. */
  predicate Captioned(alt: string)
  {
    alt != [] && LowerStr(alt) !in {"image", "untitled"}
  }

  function ImageLink(alt: string, fileName: string): string
  {
    MarkdownImage(alt, "../assets/" + fileName)
  }

  /**
   * The naming half of `_convert_image` for an image with a callback id: a
   * name generated against the used set with the dictionary's size as
   * counter, and the entry stored under the callback id.
   */
  function StoreImage(st: State, img: Image, section: string, page: string): (r: (ImageEntry, State))
    requires img.callbackId != []
    ensures Valid(st) ==> Valid(r.1)
    ensures r.1.blockRefs == st.blockRefs
    ensures r.1.images == st.images[img.callbackId := r.0]
    ensures r.1.usedNames == st.usedNames + {r.0.fileName}
    ensures forall x :: x in r.0.fileName ==> LogseqImages.IsNameChar(x)
    ensures |st.images| < 1000 ==> |r.0.fileName| <= 33
    ensures r.0.link == ImageLink(AltOf(img), r.0.fileName)
  {
    var format := match LogseqImages.DetectImageFormatHint(HintAlt(img), img.callbackId)
      case Some(f) => f
      case None => "";
    var gen := LogseqImages.GenerateImageName(st.usedNames, section, page, |st.images|, format);
    LogseqImages.GeneratedNameChars(st.usedNames, section, page, |st.images|, format);
    var pageId := match img.pageId
      case Some(p) => p
      case None => img.callbackId;
    var entry := ImageEntry(pageId, gen.0, AltOf(img), section, page, ImageLink(AltOf(img), gen.0));
    StoreKeepsValid(st, img.callbackId, entry, gen.1);
    (entry, st.(images := st.images[img.callbackId := entry], usedNames := gen.1))
  }

  /** Storing an entry whose name joins the used names keeps the tables valid. */
  lemma StoreKeepsValid(st: State, cb: string, e: ImageEntry, used: set<string>)
    requires st.usedNames <= used && e.fileName in used
    ensures Valid(st) ==> Valid(st.(images := st.images[cb := e], usedNames := used))
  {
  }

  /**
   * `_convert_image`: a placeholder without a callback id; otherwise the
   * stored image's link line and, for a meaningful alt text, an italic
   * caption line.
   */
  function ConvertImage(st: State, img: Image, section: string, page: string, indent: nat): (r: (seq<string>, State))
    ensures Valid(st) ==> Valid(r.1)
    ensures Grows(st, r.1) && r.1.blockRefs == st.blockRefs
    ensures img.callbackId == [] ==> r.1 == st && r.0 == [Indent(indent) + "- <!--Missing image: " + AltOf(img) + "-->"]
    ensures img.callbackId != [] ==>
      var e := StoreImage(st, img, section, page).0;
      r.1 == StoreImage(st, img, section, page).1 &&
      1 <= |r.0| <= 2 && r.0[0] == Indent(indent) + "- " + e.link &&
      (|r.0| == 2 <==> Captioned(AltOf(img)))
  {
    var alt := AltOf(img);
    if img.callbackId == [] then ([Indent(indent) + "- <!--Missing image: " + alt + "-->"], st)
    else
      var stored := StoreImage(st, img, section, page);
      var caption := if Captioned(alt) then [Indent(indent) + "  - *" + alt + "*"] else [];
      ([Indent(indent) + "- " + stored.0.link] + caption, stored.1)
  }

  /** The asset directory cannot end a link early. */
  lemma AssetTargetChars(name: string)
    requires forall x :: x in name ==> LogseqImages.IsNameChar(x)
    ensures ')' !in "../assets/" + name && '\n' !in "../assets/" + name
  {
    var d := "../assets/";
    assert forall i :: 0 <= i < |d| ==> d[i] != ')' && d[i] != '\n';
  }

  /**
   * The link the table-cell code extracts from an image's first line is the
   * image's own link, when the alt text cannot end it early.
   */
  lemma ImageLineLink(st: State, img: Image, section: string, page: string)
    requires img.callbackId != []
    requires !Contains(AltOf(img), "](") && '\n' !in AltOf(img)
    ensures var r := ConvertImage(st, img, section, page, 0);
      ImageLinkMatch(r.0[0]) == Some(StoreImage(st, img, section, page).0.link)
  {
    var e := StoreImage(st, img, section, page).0;
    AssetTargetChars(e.fileName);
    ImageLinkInLine(0, AltOf(img), "../assets/" + e.fileName);
  }

  // ---------------------------------------------------------------------
  // Tables
  // ---------------------------------------------------------------------

  /** Converts images only for their side tables, as the embedded-image pass does. */
  function ConvertImages(st: State, imgs: seq<Image>, section: string, page: string): (r: State)
    ensures Valid(st) ==> Valid(r)
    ensures Grows(st, r) && r.blockRefs == st.blockRefs
    ensures forall k :: 0 <= k < |imgs| && imgs[k].callbackId != [] ==> imgs[k].callbackId in r.images
    decreases |imgs|
  {
    if imgs == [] then st
    else
      var s1 := ConvertImage(st, imgs[0], section, page, 0).1;
      var r := ConvertImages(s1, imgs[1..], section, page);
      assert forall k :: 1 <= k < |imgs| ==> imgs[k] == imgs[1..][k - 1];
      r
  }

  /** The cell text after one image: its link appended, space-separated, when one is found. */
  function WithImageLink(acc: string, line: string): (r: string)
    ensures |acc| <= |r| && r[..|acc|] == acc
    ensures ImageLinkMatch(line).Some? && HasSub(line, "![") ==>
      var m := ImageLinkMatch(line).value; EndsWith(r, m) && |r| <= |acc| + 1 + |m|
    ensures ImageLinkMatch(line).None? ==> r == acc
    ensures ImageLinkMatch(line).Some? && HasSub(line, "![") ==>
      r == (if acc != [] then acc + " " + ImageLinkMatch(line).value else ImageLinkMatch(line).value)
  {
    if HasSub(line, "![") then
      match ImageLinkMatch(line)
      case Some(m) => if acc != [] then acc + " " + m else m
      case None => acc
    else acc
  }

  /** A cell's stripped text with the links of its images appended in order. */
  function AddCellImages(st: State, acc: string, imgs: seq<Image>, section: string, page: string): (r: (string, State))
    ensures Valid(st) ==> Valid(r.1)
    ensures Grows(st, r.1) && r.1.blockRefs == st.blockRefs
    ensures |acc| <= |r.0| && r.0[..|acc|] == acc
    decreases |imgs|
  {
    if imgs == [] then (acc, st)
    else
      var im := ConvertImage(st, imgs[0], section, page, 0);
      var acc1 := if im.0 != [] then WithImageLink(acc, im.0[0]) else acc;
      assert acc1[..|acc|] == acc;
      var r := AddCellImages(im.1, acc1, imgs[1..], section, page);
      assert r.0[..|acc|] == r.0[..|acc1|][..|acc|];
      r
  }

  /** One cell, converted to Logseq markdown. */
  function CellText(st: State, cell: Cell, section: string, page: string): (r: (string, State))
    ensures Valid(st) ==> Valid(r.1)
    ensures Grows(st, r.1) && r.1.blockRefs == st.blockRefs
    ensures cell.Plain? ==> r == (LogseqMarkdown(cell.text), st)
  {
    match cell
    case Plain(t) => (LogseqMarkdown(t), st)
    case Rich(t, hasImages, imgs) =>
      var c := if hasImages && imgs != [] then AddCellImages(st, Strip(t), imgs, section, page) else (Strip(t), st);
      (LogseqMarkdown(c.0), c.1)
  }

  function ConvertCells(st: State, cells: seq<Cell>, section: string, page: string): (r: (seq<string>, State))
    ensures Valid(st) ==> Valid(r.1)
    ensures Grows(st, r.1) && r.1.blockRefs == st.blockRefs
    ensures |r.0| == |cells|
    decreases |cells|
  {
    if cells == [] then ([], st)
    else
      var c := CellText(st, cells[0], section, page);
      var rest := ConvertCells(c.1, cells[1..], section, page);
      ([c.0] + rest.0, rest.1)
  }

  function ConvertRows(st: State, rows: seq<seq<Cell>>, section: string, page: string): (r: (seq<seq<string>>, State))
    ensures Valid(st) ==> Valid(r.1)
    ensures Grows(st, r.1) && r.1.blockRefs == st.blockRefs
    ensures |r.0| == |rows|
    ensures forall k :: 0 <= k < |rows| ==> |r.0[k]| == |rows[k]|
    decreases |rows|
  {
    if rows == [] then ([], st)
    else
      var c := ConvertCells(st, rows[0], section, page);
      var rest := ConvertRows(c.1, rows[1..], section, page);
      RowsWidths(rows, c.0, rest.0);
      ([c.0] + rest.0, rest.1)
  }

  lemma RowsWidths<T, U>(rows: seq<seq<T>>, first: seq<U>, rest: seq<seq<U>>)
    requires rows != [] && |first| == |rows[0]| && |rest| == |rows| - 1
    requires forall k :: 0 <= k < |rest| ==> |rest[k]| == |rows[1..][k]|
    ensures forall k :: 0 <= k < |rows| ==> |([first] + rest)[k]| == |rows[k]|
  {
  }

  /**
   * `_convert_enhanced_table`: placeholders for a missing structure or no
   * rows; otherwise embedded images first, then the cells row by row, laid
   * out one line per row.
   */
  function ConvertEnhancedTable(st: State, table: Option<Table>, section: string, page: string, indent: nat): (r: (seq<string>, State))
    ensures Valid(st) ==> Valid(r.1)
    ensures Grows(st, r.1) && r.1.blockRefs == st.blockRefs
    ensures table.None? ==> r == ([Indent(indent) + "- <!--Invalid table structure-->"], st)
    ensures table.Some? && table.value.rows == [] ==> r == ([Indent(indent) + "- <!--Empty table-->"], st)
    ensures table.Some? ==> |r.0| == 1 || |r.0| == |table.value.rows|
  {
    match table
    case None => ([Indent(indent) + "- <!--Invalid table structure-->"], st)
    case Some(t) =>
      if t.rows == [] then ([Indent(indent) + "- <!--Empty table-->"], st)
      else
        var s1 := if t.hasImages && t.embeddedImages != [] then ConvertImages(st, t.embeddedImages, section, page) else st;
        var cells := ConvertRows(s1, t.rows, section, page);
        (LayOutTable(cells.0, indent, Indent(indent) + "- <!--Empty table-->"), cells.1)
  }

  /** `_convert_table`: a `Table:` block with the rows nested one level deeper. */
  function ConvertTable(st: State, table: Option<Table>, section: string, page: string, indent: nat): (r: (seq<string>, State))
    ensures Valid(st) ==> Valid(r.1)
    ensures Grows(st, r.1) && r.1.blockRefs == st.blockRefs
    ensures |r.0| >= 2 && r.0[0] == Indent(indent) + "- Table:"
    ensures r.0[1..] == ConvertEnhancedTable(st, table, section, page, indent + 1).0
  {
    var t := ConvertEnhancedTable(st, table, section, page, indent + 1);
    ([Indent(indent) + "- Table:"] + t.0, t.1)
  }

  // ---------------------------------------------------------------------
  // Outline text and the walk over items
  // ---------------------------------------------------------------------

  /** An outline's html is shown when it is neither blank, nor bare tags, nor blank once converted. */
  predicate ShowsHtml(html: string)
  {
    !IsBlank(html) && !IsEmptyHtmlTag(Strip(html)) && !IsBlank(LogseqMarkdown(html))
  }

  /** Whether an outline line gets the reference of `id` in front. */
  predicate TakesRef(st: State, html: string, id: Option<string>)
  {
    ShowsHtml(html) && Truthy(id) && id.value !in st.blockRefs
  }

  /**
   * The html text of an outline element: one block line, with the block
   * reference in front only when the object id is truthy and has none yet,
   * in which case the reference is recorded.
   */
  function OutlineHtml(st: State, html: string, id: Option<string>, indent: nat): (r: (seq<string>, State))
    ensures Valid(st) ==> Valid(r.1)
    ensures !ShowsHtml(html) ==> r == ([], st)
    ensures ShowsHtml(html) && !TakesRef(st, html, id) ==> r == ([Indent(indent) + "- " + LogseqMarkdown(html)], st)
    ensures TakesRef(st, html, id) ==>
      r.0 == [Indent(indent) + "- " + LogseqNaming.BlockReference(id.value) + " " + LogseqMarkdown(html)] &&
      r.1 == Record(st, id)
  {
    if !ShowsHtml(html) then ([], st)
    else if TakesRef(st, html, id) then
      ([Indent(indent) + "- " + LogseqNaming.BlockReference(id.value) + " " + LogseqMarkdown(html)], Record(st, id))
    else ([Indent(indent) + "- " + LogseqMarkdown(html)], st)
  }

  /** A reference is put in front of at most one outline line per object id. */
  lemma RefPrefixedOnce(st: State, a: string, b: string, id: Option<string>, indent: nat)
    requires Truthy(id) && ShowsHtml(a)
    ensures var first := OutlineHtml(st, a, id, indent);
      ShowsHtml(b) ==> OutlineHtml(first.1, b, id, indent).0 == [Indent(indent) + "- " + LogseqMarkdown(b)]
  {
    var first := OutlineHtml(st, a, id, indent);
    assert id.value in first.1.blockRefs;
  }

  /**
   * `_convert_content_item`: the reference of a truthy object id is recorded
   * first; a text item then carries it after its bullet; the other kinds
   * dispatch to their own conversions.
   */
  function ConvertItem(st: State, item: Item, section: string, page: string, indent: nat, parent: Option<string>): (r: (seq<string>, State))
    ensures Valid(st) ==> Valid(r.1)
    ensures Grows(st, r.1)
    ensures Truthy(item.objectId) ==> item.objectId.value in r.1.blockRefs
    decreases ItemSize(item), 2
  {
    var s1 := Record(st, item.objectId);
    var r := match item
      case TextItem(id, text, level) =>
        var lines := ConvertText(text, level, indent);
        if lines != [] && Truthy(id) then ([WithRef(lines[0], LogseqNaming.BlockReference(id.value))], s1)
        else (lines, s1)
      case Outline(id, _, content, children) =>
        ConvertOutline(s1, item, section, page, indent, parent)
      case ListItem(_, _, entries) => (ConvertList(entries, indent), s1)
      case ImageItem(_, img) => ConvertImage(s1, img, section, page, indent)
      case TableItem(_, table) => ConvertTable(s1, table, section, page, indent)
      case HtmlItem(_, html) => (ConvertHtmlContent(html, indent), s1)
      case OtherItem(_, kind, content) => (UnknownKindLines(kind, content, indent), s1);
    GrowsThen(st, s1, r.1);
    r
  }

  /** Two steps that each keep the tables valid and only add to them do so together. */
  lemma GrowsThen(a: State, b: State, c: State)
    requires Grows(a, b) && Grows(b, c)
    requires Valid(a) ==> Valid(b)
    requires Valid(b) ==> Valid(c)
    ensures Grows(a, c) && (Valid(a) ==> Valid(c))
    ensures forall id :: id in b.blockRefs ==> id in c.blockRefs
  {
  }

  /** An item of an unknown kind: a comment naming the kind, then its content when there is any. */
  function UnknownKindLines(kind: string, content: string, indent: nat): seq<string>
  {
    if content != [] then [Indent(indent) + "- <!--Unknown type: " + kind + "-->", Indent(indent) + "  " + content]
    else [Indent(indent) + "- <!--Unknown content type: " + kind + "-->"]
  }

  /**
   * `_convert_outline_element`: the object id is the item's own key when
   * present, else the parent's; then the content, then the children one
   * level deeper, each with that id as parent.
   */
  function ConvertOutline(st: State, item: Item, section: string, page: string, indent: nat, parent: Option<string>): (r: (seq<string>, State))
    requires item.Outline?
    ensures Valid(st) ==> Valid(r.1)
    ensures Grows(st, r.1)
    decreases ItemSize(item), 1
  {
    var id := if item.objectId.Some? then item.objectId else parent;
    var head := match item.content
      case NoContent => ([], st)
      case HtmlText(html) => OutlineHtml(st, html, id, indent)
      case NestedImage(img) => ConvertImage(st, img, section, page, indent)
      case Nested(it) => ConvertItem(st, it, section, page, indent, id);
    var kids := ConvertChildren(head.1, item, 0, section, page, indent + 1, id);
    GrowsThen(st, head.1, kids.1);
    (head.0 + kids.0, kids.1)
  }

  /** The children of an outline item from the `k`-th on, in order. */
  function ConvertChildren(st: State, item: Item, k: nat, section: string, page: string, indent: nat, parent: Option<string>): (r: (seq<string>, State))
    requires item.Outline? && k <= |item.children|
    ensures Valid(st) ==> Valid(r.1)
    ensures Grows(st, r.1)
    decreases ItemSize(item), 0, |item.children| - k
  {
    if k == |item.children| then ([], st)
    else
      ChildSmaller(item.children, k);
      var c := ConvertItem(st, item.children[k], section, page, indent, parent);
      var rest := ConvertChildren(c.1, item, k + 1, section, page, indent, parent);
      GrowsThen(st, c.1, rest.1);
      (c.0 + rest.0, rest.1)
  }

  /**
   * The items of a page, at the top level, with the page id as the parent
   * object id.
   */
  function ConvertItems(st: State, items: seq<Item>, section: string, page: string, pageId: Option<string>): (r: (seq<string>, State))
    ensures Valid(st) ==> Valid(r.1)
    ensures Grows(st, r.1)
    ensures forall k :: 0 <= k < |items| && Truthy(items[k].objectId) ==> items[k].objectId.value in r.1.blockRefs
    decreases |items|
  {
    if items == [] then ([], st)
    else
      var c := ConvertItem(st, items[0], section, page, 0, pageId);
      var rest := ConvertItems(c.1, items[1..], section, page, pageId);
      assert forall k :: 1 <= k < |items| ==> items[k] == items[1..][k - 1];
      (c.0 + rest.0, rest.1)
  }

  // ---------------------------------------------------------------------
  // Properties of the walk
  // ---------------------------------------------------------------------

  /** The cell text after a line in which a link is found. */
  lemma WithFoundLink(acc: string, line: string, link: string)
    requires ImageLinkMatch(line) == Some(link) && Contains(line, "![")
    ensures WithImageLink(acc, line) == (if acc != [] then acc + " " + link else link)
  {
  }

  lemma LinkOpens(alt: string, name: string)
    ensures OccursAt(Indent(0) + "- " + ImageLink(alt, name), "![", 2)
  {
    assert Indent(0) + "- " + ImageLink(alt, name) == "- " + ImageLink(alt, name);
  }

  lemma AddOneCellImage(st: State, acc: string, img: Image, section: string, page: string)
    ensures var im := ConvertImage(st, img, section, page, 0);
      AddCellImages(st, acc, [img], section, page).0 == (if im.0 != [] then WithImageLink(acc, im.0[0]) else acc)
  {
    assert [img][1..] == [];
  }

  /** The first line of a stored image at the top level: the bullet and the link. */
  lemma ImageFirstLine(st: State, img: Image, section: string, page: string)
    requires img.callbackId != []
    ensures ConvertImage(st, img, section, page, 0).0 != [] &&
      ConvertImage(st, img, section, page, 0).0[0] == Indent(0) + "- " + StoreImage(st, img, section, page).0.link
  {
  }

  /** A cell's one image adds the image's link after the cell's text. */
  lemma CellWithImage(st: State, acc: string, img: Image, section: string, page: string)
    requires img.callbackId != []
    requires !Contains(AltOf(img), "](") && '\n' !in AltOf(img)
    ensures var link := StoreImage(st, img, section, page).0.link;
      AddCellImages(st, acc, [img], section, page).0 == (if acc != [] then acc + " " + link else link)
  {
    var e := StoreImage(st, img, section, page).0;
    var line := ConvertImage(st, img, section, page, 0).0[0];
    ImageFirstLine(st, img, section, page);
    ImageLineLink(st, img, section, page);
    assert e.link == ImageLink(AltOf(img), e.fileName);
    LinkOpens(AltOf(img), e.fileName);
    WithFoundLink(acc, line, e.link);
    AddOneCellImage(st, acc, img, section, page);
  }

  /** A text item with an object id carries its reference right after the bullet. */
  lemma TextItemRef(st: State, id: string, text: string, level: nat, section: string, page: string, indent: nat, parent: Option<string>)
    requires id != [] && !IsBlank(text)
    ensures var r := ConvertItem(st, TextItem(Some(id), text, level), section, page, indent, parent);
      r.0 == [Indent(indent) + "- " + LogseqNaming.BlockReference(id) + " " + MarksPrefix(level) + LogseqMarkdown(text)] &&
      r.1.blockRefs == st.blockRefs[id := LogseqNaming.BlockReference(id)]
  {
    var t := LogseqMarkdown(text);
    TextLineRef(t, level, indent, LogseqNaming.BlockReference(id));
  }

  /** An outline item is converted by the outline walk, after its own id is recorded. */
  lemma ConvertItemOutline(st: State, item: Item, section: string, page: string, indent: nat, parent: Option<string>)
    requires item.Outline?
    ensures ConvertItem(st, item, section, page, indent, parent) == ConvertOutline(Record(st, item.objectId), item, section, page, indent, parent)
  {
  }

  /**
   * An outline element with its own object id never gets the reference in
   * front: the item walk records that id before the outline looks it up.
   */
  lemma OwnIdNeverPrefixed(st: State, id: string, level: nat, html: string, children: seq<Item>, section: string, page: string, indent: nat, parent: Option<string>)
    requires id != [] && ShowsHtml(html)
    ensures var r := ConvertItem(st, Outline(Some(id), level, HtmlText(html), children), section, page, indent, parent);
      r.0 != [] && r.0[0] == Indent(indent) + "- " + LogseqMarkdown(html)
  {
    var item := Outline(Some(id), level, HtmlText(html), children);
    ConvertItemOutline(st, item, section, page, indent, parent);
    var s1 := Record(st, Some(id));
    assert !TakesRef(s1, html, Some(id));
    var head := OutlineHtml(s1, html, Some(id), indent);
    assert head.0 == [Indent(indent) + "- " + LogseqMarkdown(html)];
    var kids := ConvertChildren(head.1, item, 0, section, page, indent + 1, Some(id));
    assert ConvertOutline(s1, item, section, page, indent, parent) == (head.0 + kids.0, kids.1);
  }

  /**
   * An outline element without its own id takes the parent's: the first
   * such element shown under a parent id that has no reference yet gets the
   * parent's reference in front, and records it.
   */
  lemma InheritedIdPrefixed(st: State, level: nat, html: string, children: seq<Item>, section: string, page: string, indent: nat, parent: Option<string>)
    requires Truthy(parent) && parent.value !in st.blockRefs && ShowsHtml(html)
    ensures var r := ConvertItem(st, Outline(None, level, HtmlText(html), children), section, page, indent, parent);
      r.0 != [] &&
      r.0[0] == Indent(indent) + "- " + LogseqNaming.BlockReference(parent.value) + " " + LogseqMarkdown(html) &&
      parent.value in r.1.blockRefs
  {
    var item := Outline(None, level, HtmlText(html), children);
    ConvertItemOutline(st, item, section, page, indent, parent);
    assert Record(st, None) == st;
    var head := OutlineHtml(st, html, parent, indent);
    assert TakesRef(st, html, parent);
    var kids := ConvertChildren(head.1, item, 0, section, page, indent + 1, parent);
    assert ConvertOutline(st, item, section, page, indent, parent) == (head.0 + kids.0, kids.1);
  }
}
