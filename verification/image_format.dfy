/**
 * The pure parts of the image extractor (`src/extractors/image_extractor.py`):
 * recognising an image's format from its first bytes, naming the file an
 * extracted image is saved under, and listing the images of a parsed page
 * that can be asked for by callback id.
 */
module ImageFormat {

  import opened Wrappers
  import opened Strings
  import OneNoteXml
  import LegacyMarkdown

  newtype byte = x: int | 0 <= x < 256

  // ---------------------------------------------------------------------------
  // Signatures

  const JpegMagic: seq<byte> := [0xFF, 0xD8, 0xFF]
  const PngMagic: seq<byte> := [0x89, 0x50, 0x4E, 0x47, 0x0D, 0x0A, 0x1A, 0x0A]
  const Gif87Magic: seq<byte> := [0x47, 0x49, 0x46, 0x38, 0x37, 0x61]
  const Gif89Magic: seq<byte> := [0x47, 0x49, 0x46, 0x38, 0x39, 0x61]
  const BmpMagic: seq<byte> := [0x42, 0x4D]
  const IcoMagic: seq<byte> := [0x00, 0x00, 0x01, 0x00]
  const RiffMagic: seq<byte> := [0x52, 0x49, 0x46, 0x46]
  const WebpTag: seq<byte> := [0x57, 0x45, 0x42, 0x50]
  const JfifTag: seq<byte> := [0x4A, 0x46, 0x49, 0x46]
  const ExifTag: seq<byte> := [0x45, 0x78, 0x69, 0x66]
  const PngTag: seq<byte> := [0x50, 0x4E, 0x47]

  /** `data.startswith(sig)`. */
  predicate HasPrefix(data: seq<byte>, sig: seq<byte>)
  {
    |sig| <= |data| && data[..|sig|] == sig
  }

  /** `sig` occurs in `data` at `i`. */
  predicate BytesAt(data: seq<byte>, sig: seq<byte>, i: int)
  {
    0 <= i && i + |sig| <= |data| && data[i..i + |sig|] == sig
  }

  /** `sig in data[:n]`. */
  function InFirst(data: seq<byte>, sig: seq<byte>, n: nat): (b: bool)
    ensures b <==> exists i :: BytesAt(Head(data, n), sig, i)
  {
    Occurs(Head(data, n), sig, 0)
  }

  /** `data[:n]`. */
  function Head(data: seq<byte>, n: nat): (r: seq<byte>)
    ensures |r| <= n && |r| <= |data| && r == data[..|r|]
    ensures |r| == n || r == data
  {
    if |data| <= n then data else data[..n]
  }

  /** Whether `sig` occurs in `data` at `i` or later. */
  function Occurs(data: seq<byte>, sig: seq<byte>, i: nat): (b: bool)
    ensures b <==> exists j :: i <= j && BytesAt(data, sig, j)
    decreases |data| - i
  {
    if i + |sig| > |data| then false
    else if data[i..i + |sig|] == sig then
      assert BytesAt(data, sig, i);
      true
    else Occurs(data, sig, i + 1)
  }

  // ---------------------------------------------------------------------------
  // Formats

  /** The seven answers of `_detect_image_format`. */
  datatype Format = Jpg | Png | Gif | Bmp | Ico | Webp | Bin

  /** The file extension of a format. */
  function Extension(f: Format): (r: string)
    ensures |r| == 3 || |r| == 4
    ensures forall i :: 0 <= i < |r| ==> IsAsciiLower(r[i])
  {
    match f
    case Jpg => "jpg"
    case Png => "png"
    case Gif => "gif"
    case Bmp => "bmp"
    case Ico => "ico"
    case Webp => "webp"
    case Bin => "bin"
  }

  /** The format a signature at the start of the data announces, in the order the checks run. */
  function MagicFormat(data: seq<byte>): Option<Format>
  {
    if HasPrefix(data, JpegMagic) then Some(Jpg)
    else if HasPrefix(data, PngMagic) then Some(Png)
    else if HasPrefix(data, Gif87Magic) || HasPrefix(data, Gif89Magic) then Some(Gif)
    else if HasPrefix(data, BmpMagic) then Some(Bmp)
    else if HasPrefix(data, IcoMagic) then Some(Ico)
    else if HasPrefix(data, RiffMagic) && InFirst(data, WebpTag, 12) then Some(Webp)
    else None
  }

  /** `_detect_image_format`. */
  function DetectFormat(data: seq<byte>): (f: Format)
    ensures |data| < 8 ==> f == Bin
    ensures |data| >= 8 && MagicFormat(data).Some? ==> f == MagicFormat(data).value
  {
    if |data| < 8 then Bin
    else match MagicFormat(data)
      case Some(f) => f
      case None =>
        if InFirst(data, JfifTag, 20) || InFirst(data, ExifTag, 20) then Jpg
        else if InFirst(data, PngTag, 20) then Png
        else Bin
  }

  /** What in the data speaks for a format. */
  predicate Evidence(data: seq<byte>, f: Format)
  {
    match f
    case Jpg => HasPrefix(data, JpegMagic) || InFirst(data, JfifTag, 20) || InFirst(data, ExifTag, 20)
    case Png => HasPrefix(data, PngMagic) || InFirst(data, PngTag, 20)
    case Gif => HasPrefix(data, Gif87Magic) || HasPrefix(data, Gif89Magic)
    case Bmp => HasPrefix(data, BmpMagic)
    case Ico => HasPrefix(data, IcoMagic)
    case Webp => HasPrefix(data, RiffMagic) && InFirst(data, WebpTag, 12)
    case Bin => true
  }

  /**
   * `bin` is the answer exactly when the data is short or nothing in it
   * speaks for another format; any other answer has its evidence.
   */
  lemma DetectBin(data: seq<byte>)
    ensures DetectFormat(data) != Bin ==> |data| >= 8 && Evidence(data, DetectFormat(data))
    ensures DetectFormat(data) == Bin <==>
      |data| < 8 || forall f :: f != Bin ==> !Evidence(data, f)
  {
    if |data| >= 8 && DetectFormat(data) == Bin {
      assert MagicFormat(data).None?;
      forall f | f != Bin ensures !Evidence(data, f) {
      }
    }
    if |data| >= 8 && DetectFormat(data) != Bin {
      assert Evidence(data, DetectFormat(data));
    }
  }

  /** The full PNG signature is recognised. */
  lemma PngSignature(rest: seq<byte>)
    ensures DetectFormat(PngMagic + rest) == Png
  {
    var data := PngMagic + rest;
    assert data[..|PngMagic|] == PngMagic;
    assert data[0] == 0x89;
    assert !HasPrefix(data, JpegMagic);
  }

  // ---------------------------------------------------------------------------
  // The saved file's name

  /** The characters `[\w-]` keeps. */
  predicate SafeChar(c: char)
  {
    IsWordChar(c) || c == '-'
  }

  /** `re.sub(r'[^\w-]', '_', callback_id)[:20]`. */
  function SafeCallback(cb: string): (r: string)
    ensures |r| == if |cb| <= 20 then |cb| else 20
    ensures forall i :: 0 <= i < |r| ==> r[i] == (if SafeChar(cb[i]) then cb[i] else '_')
    ensures forall i :: 0 <= i < |r| ==> SafeChar(r[i])
    ensures |cb| <= 20 && (forall i :: 0 <= i < |cb| ==> SafeChar(cb[i])) ==> r == cb
  {
    var n := if |cb| <= 20 then |cb| else 20;
    seq(n, i requires 0 <= i < n => if SafeChar(cb[i]) then cb[i] else '_')
  }

  /** The bytes as characters, for the digest stand-in. */
  function AsChars(data: seq<byte>): string
  {
    seq(|data|, i requires 0 <= i < |data| => data[i] as int as char)
  }

  /**
   * The file name `_extract_single_image` saves decoded image data under:
   * the safe callback fragment, twelve digest digits and the detected
   * extension; nothing for empty data.
   */
  function SavedName(cb: string, data: seq<byte>): (r: Option<string>)
    ensures r.None? <==> data == []
  {
    if data == [] then None
    else Some(SafeCallback(cb) + "_" + Md5Hex(AsChars(data))[..12] + "." + Extension(DetectFormat(data)))
  }

  /** The text after the last `.`, or nothing. */
  function ExtensionOf(name: string): string
    decreases |name|
  {
    if name == [] then []
    else if name[|name| - 1] == '.' then []
    else
      var front := name[..|name| - 1];
      if '.' in front then ExtensionOf(front) + [name[|name| - 1]] else []
  }

  /** The extension of a name whose last dot is right before `ext`. */
  lemma {:induction false} ExtensionAfterDot(front: string, ext: string)
    requires '.' !in ext
    ensures ExtensionOf(front + "." + ext) == ext
    decreases |ext|
  {
    var name := front + "." + ext;
    if ext == [] {
      assert name[|name| - 1] == '.';
    } else {
      var shorter := ext[..|ext| - 1];
      assert name[..|name| - 1] == front + "." + shorter;
      assert '.' in name[..|name| - 1] by {
        assert name[..|name| - 1][|front|] == '.';
      }
      assert '.' !in shorter;
      ExtensionAfterDot(front, shorter);
      assert ext == shorter + [ext[|ext| - 1]];
    }
  }

  /** A saved file's extension reads back as the detected format's. */
  lemma SavedNameExtension(cb: string, data: seq<byte>)
    requires data != []
    ensures ExtensionOf(SavedName(cb, data).value) == Extension(DetectFormat(data))
  {
    var ext := Extension(DetectFormat(data));
    assert '.' !in ext by {
      forall i | 0 <= i < |ext| ensures ext[i] != '.' {
        assert IsAsciiLower(ext[i]);
      }
    }
    ExtensionAfterDot(SafeCallback(cb) + "_" + Md5Hex(AsChars(data))[..12], ext);
  }

  // ---------------------------------------------------------------------------
  // The images of a parsed page

  /** One image the extractor can ask for. */
  datatype ImageInfo = ImageInfo(callbackId: string, altText: string, pageId: string)

  /** The images with a callback id, in order, tagged with the page id. */
  function Infos(images: seq<OneNoteXml.ImageData>, pageId: string): (r: seq<ImageInfo>)
    ensures |r| <= |images|
    ensures forall k :: 0 <= k < |r| ==> r[k].pageId == pageId && r[k].callbackId != []
  {
    if images == [] then []
    else
      var img := images[0];
      (if LegacyMarkdown.HasCallback(img) then [ImageInfo(img.callbackId.value, img.alt, pageId)] else [])
      + Infos(images[1..], pageId)
  }

  /**
   * `get_page_images_info`: nothing without a page id; otherwise the page's
   * images with a callback id, then those of its top-level items.
   */
  function PageImagesInfo(metadata: OneNoteXml.Metadata, images: seq<OneNoteXml.ImageData>, content: seq<OneNoteXml.Node>): (r: seq<ImageInfo>)
    ensures LegacyMarkdown.PageId(metadata) == [] ==> r == []
    ensures forall k :: 0 <= k < |r| ==> r[k].pageId == LegacyMarkdown.PageId(metadata) && r[k].pageId != [] && r[k].callbackId != []
  {
    var id := LegacyMarkdown.PageId(metadata);
    if id == [] then []
    else Infos(images, id) + Infos(LegacyMarkdown.InlineImages(content), id)
  }

  /** The callback ids of the listed images. */
  function InfoIds(infos: seq<ImageInfo>): set<string>
  {
    set k | 0 <= k < |infos| :: infos[k].callbackId
  }

  lemma {:induction false} InfosIds(images: seq<OneNoteXml.ImageData>, pageId: string)
    ensures InfoIds(Infos(images, pageId)) == LegacyMarkdown.CallbackIds(images, 0)
    decreases |images|
  {
    if images != [] {
      InfosIds(images[1..], pageId);
      var rest := Infos(images[1..], pageId);
      var img := images[0];
      var head := if LegacyMarkdown.HasCallback(img) then [ImageInfo(img.callbackId.value, img.alt, pageId)] else [];
      assert Infos(images, pageId) == head + rest;
      IdsConcat(head, rest);
      LegacyMarkdown.CallbackIdsStep(images, 0);
      CallbackIdsShift(images);
    }
  }

  lemma IdsConcat(a: seq<ImageInfo>, b: seq<ImageInfo>)
    ensures InfoIds(a + b) == InfoIds(a) + InfoIds(b)
  {
    var ab := a + b;
    forall x | x in InfoIds(ab) ensures x in InfoIds(a) + InfoIds(b) {
      var k :| 0 <= k < |ab| && ab[k].callbackId == x;
      if k < |a| {
        assert ab[k] == a[k];
      } else {
        assert ab[k] == b[k - |a|];
      }
    }
    forall x | x in InfoIds(a) ensures x in InfoIds(ab) {
      var k :| 0 <= k < |a| && a[k].callbackId == x;
      assert ab[k] == a[k];
    }
    forall x | x in InfoIds(b) ensures x in InfoIds(a + b) {
      var k :| 0 <= k < |b| && b[k].callbackId == x;
      assert (a + b)[|a| + k] == b[k];
    }
  }

  lemma CallbackIdsShift(images: seq<OneNoteXml.ImageData>)
    requires images != []
    ensures LegacyMarkdown.CallbackIds(images, 1) == LegacyMarkdown.CallbackIds(images[1..], 0)
  {
    var rest := images[1..];
    forall x | x in LegacyMarkdown.CallbackIds(images, 1) ensures x in LegacyMarkdown.CallbackIds(rest, 0) {
      var i :| 1 <= i < |images| && LegacyMarkdown.HasCallback(images[i]) && images[i].callbackId.value == x;
      assert rest[i - 1] == images[i];
    }
    forall x | x in LegacyMarkdown.CallbackIds(rest, 0) ensures x in LegacyMarkdown.CallbackIds(images, 1) {
      var i :| 0 <= i < |rest| && LegacyMarkdown.HasCallback(rest[i]) && rest[i].callbackId.value == x;
      assert images[i + 1] == rest[i];
    }
  }

  /**
   * The images the extractor asks for are exactly the ones the converter
   * gave a file name: both read the page's images and then its top-level
   * items, and both keep those with a callback id.
   */
  lemma InfoMatchesConverter(metadata: OneNoteXml.Metadata, images: seq<OneNoteXml.ImageData>, content: seq<OneNoteXml.Node>,
                             section: string, page: string, dict: map<string, LegacyMarkdown.ImageRecord>)
    requires LegacyMarkdown.PageId(metadata) != []
    ensures InfoIds(PageImagesInfo(metadata, images, content))
            == LegacyMarkdown.ProcessPageImages(images, content, section, page, metadata, dict).0.Keys
  {
    var id := LegacyMarkdown.PageId(metadata);
    var inline := LegacyMarkdown.InlineImages(content);
    InfosIds(images, id);
    InfosIds(inline, id);
    IdsConcat(Infos(images, id), Infos(inline, id));
    CallbackIdsAppend(images, inline);
  }

  lemma CallbackIdsAppend(a: seq<OneNoteXml.ImageData>, b: seq<OneNoteXml.ImageData>)
    ensures LegacyMarkdown.CallbackIds(a + b, 0) == LegacyMarkdown.CallbackIds(a, 0) + LegacyMarkdown.CallbackIds(b, 0)
  {
    var ab := a + b;
    forall x | x in LegacyMarkdown.CallbackIds(ab, 0)
      ensures x in LegacyMarkdown.CallbackIds(a, 0) + LegacyMarkdown.CallbackIds(b, 0)
    {
      var i :| 0 <= i < |ab| && LegacyMarkdown.HasCallback(ab[i]) && ab[i].callbackId.value == x;
      if i < |a| {
        assert ab[i] == a[i];
      } else {
        assert ab[i] == b[i - |a|];
      }
    }
    forall x | x in LegacyMarkdown.CallbackIds(b, 0) ensures x in LegacyMarkdown.CallbackIds(ab, 0) {
      var i :| 0 <= i < |b| && LegacyMarkdown.HasCallback(b[i]) && b[i].callbackId.value == x;
      assert ab[|a| + i] == b[i];
    }
    forall x | x in LegacyMarkdown.CallbackIds(a, 0) ensures x in LegacyMarkdown.CallbackIds(ab, 0) {
      var i :| 0 <= i < |a| && LegacyMarkdown.HasCallback(a[i]) && a[i].callbackId.value == x;
      assert ab[i] == a[i];
    }
  }
}
