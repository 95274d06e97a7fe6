/**
 * The content items both renderers walk (`LogseqConverter` and
 * `ObsidianConverter` in `src/converters/`). In the source an item is a
 * dict dispatched on its `type` key; here each type is a constructor and
 * each key a field.
 */
module ContentItems {

  import opened Wrappers

  /**
   * An image record: `callback_id` ("" when absent or empty), `alt_text`
   * ("" when absent or empty), `alt` (absent or present) and `page_id`.
   */
  datatype Image = Image(callbackId: string, altText: string, alt: Option<string>, pageId: Option<string>)

  /** A table cell: a plain value, or a record with text and images. */
  datatype Cell = Plain(text: string) | Rich(text: string, hasImages: bool, images: seq<Image>)

  datatype Table = Table(rows: seq<seq<Cell>>, hasImages: bool, embeddedImages: seq<Image>)

  /** An outline element's `content`: absent or empty, html text, an image, or a nested item. */
  datatype Content = NoContent | HtmlText(html: string) | NestedImage(image: Image) | Nested(item: Item)

  /**
   * A content item by its `type`; `objectId` is the `object_id` key (None
   * when absent). A text item carries `content or text`; an outline its
   * `level`; a list whether `list_type` is `ordered`; an image item the
   * record it is drawn from; a table item its `content` when that is a dict.
   */
  datatype Item =
    | TextItem(objectId: Option<string>, text: string, level: nat)
    | Outline(objectId: Option<string>, level: nat, content: Content, children: seq<Item>)
    | ListItem(objectId: Option<string>, ordered: bool, entries: seq<string>)
    | ImageItem(objectId: Option<string>, image: Image)
    | TableItem(objectId: Option<string>, table: Option<Table>)
    | HtmlItem(objectId: Option<string>, html: string)
    | OtherItem(objectId: Option<string>, kind: string, value: string)

  /** Python truthiness of an optional string. */
  predicate Truthy(id: Option<string>)
  {
    id.Some? && id.value != []
  }

  /** `alt_text or alt`, falling back to `'Image'` only when `alt` is absent. */
  function AltOf(img: Image): string
  {
    if img.altText != [] then img.altText
    else match img.alt
      case Some(a) => a
      case None => "Image"
  }

  /** The size of an item, for the termination of the walks over items. */
  function ItemSize(item: Item): nat
  {
    match item
    case Outline(_, _, content, children) =>
      1 + (match content case Nested(it) => ItemSize(it) case _ => 0) + ChildrenSize(children)
    case _ => 1
  }

  function ChildrenSize(children: seq<Item>): nat
  {
    if children == [] then 0 else ItemSize(children[0]) + ChildrenSize(children[1..])
  }

  /** Every child is smaller than its outline. */
  lemma {:induction false} ChildSmaller(children: seq<Item>, k: nat)
    requires k < |children|
    ensures ItemSize(children[k]) < 1 + ChildrenSize(children)
    decreases k
  {
    if k > 0 {
      ChildSmaller(children[1..], k - 1);
    }
  }
}
