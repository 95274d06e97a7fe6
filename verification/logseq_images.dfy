/**
 * Image naming of `LogseqConverter` (`src/converters/logseq_converter.py`):
 * the short slug of a section or page name, the generated file name checked
 * against the set of names already used, the extension for a format and the
 * format guessed from an image's alt text or callback id.
 */
module LogseqImages {

  import opened Wrappers
  import opened Strings

  // ---------------------------------------------------------------------------
  // Short names

  const CommonWords: set<string> := {"the", "a", "an", "of", "for", "with", "and", "or", "in", "on", "at", "to"}

  /** The words that are not common words, in order. */
  function DropCommon(ws: seq<string>): (r: seq<string>)
    ensures |r| <= |ws|
    ensures forall k :: 0 <= k < |r| ==> r[k] in ws && r[k] !in CommonWords
    ensures forall w :: w in ws && w !in CommonWords ==> w in r
  {
    if ws == [] then []
    else if ws[0] in CommonWords then DropCommon(ws[1..])
    else [ws[0]] + DropCommon(ws[1..])
  }

  /** `[a-z0-9-]`. */
  predicate IsSlugChar(c: char)
  {
    IsAsciiLower(c) || IsDigit(c) || c == '-'
  }

  predicate AllSlug(s: string)
  {
    forall x :: x in s ==> IsSlugChar(x)
  }

  /**
   * The name before truncation: stripped and lower-cased, common words dropped
   * (unless that leaves none), joined by `-`, other characters dropped and
   * runs of `-` collapsed.
   */
  function Slug(name: string): (r: string)
    ensures AllSlug(r)
    ensures forall i :: 0 <= i < |r| - 1 ==> !(r[i] == '-' && r[i + 1] == '-')
  {
    var ws := Words(LowerStr(Strip(name)));
    var kept := DropCommon(ws);
    var words := if kept == [] then ws else kept;
    var cleaned := Filter(Join(words, "-"), IsSlugChar);
    CollapseRuns(cleaned, '-')
  }

  /**
   * The greedy truncation loop over the `-`-separated parts: whole parts while
   * they fit in `maxLength` counting one separator each (`used` so far), then
   * the first part that does not fit cut to `max(least, maxLength - used - 1)`
   * characters, if that leaves any.
   */
  function Greedy(parts: seq<string>, maxLength: nat, used: nat, least: nat): (r: seq<string>)
    ensures forall k, x :: 0 <= k < |r| && x in r[k] ==> exists j :: 0 <= j < |parts| && x in parts[j]
    decreases |parts|
  {
    if parts == [] then []
    else if used + |parts[0]| + 1 <= maxLength then
      var rest := Greedy(parts[1..], maxLength, used + |parts[0]| + 1, least);
      assert forall k, x :: 0 <= k < |rest| && x in rest[k] ==> exists j :: 0 <= j < |parts| && x in parts[j] by {
        forall k, x | 0 <= k < |rest| && x in rest[k] ensures exists j :: 0 <= j < |parts| && x in parts[j] {
          var j :| 0 <= j < |parts[1..]| && x in parts[1..][j];
          assert x in parts[j + 1];
        }
      }
      [parts[0]] + rest
    else
      var room := if maxLength - used - 1 < least then least else maxLength - used - 1;
      var abbrev := parts[0][..if room < |parts[0]| then room else |parts[0]|];
      assert forall x :: x in abbrev ==> x in parts[0];
      if abbrev != [] then [abbrev] else []
  }

  /** The characters of a greedy result are characters of the parts. */
  lemma GreedySlug(parts: seq<string>, maxLength: nat, least: nat)
    requires forall k, x :: 0 <= k < |parts| && x in parts[k] ==> IsSlugChar(x)
    ensures forall k, x :: 0 <= k < |Greedy(parts, maxLength, 0, least)| && x in Greedy(parts, maxLength, 0, least)[k] ==> IsSlugChar(x)
  {
  }

  /** The truncation step: the greedy parts joined by `-`, or the first `maxLength` characters if none. */
  function Truncate(slug: string, maxLength: nat, least: nat): (r: string)
    requires AllSlug(slug)
    ensures AllSlug(r)
    ensures |slug| <= maxLength ==> r == slug
  {
    if |slug| > maxLength then
      var result := Greedy(Split(slug, '-'), maxLength, 0, least);
      GreedySlug(Split(slug, '-'), maxLength, least);
      JoinChars(result, "-", IsSlugChar);
      assert forall x :: x in slug[..maxLength] ==> x in slug;
      if result != [] then Join(result, "-") else slug[..maxLength]
    else slug
  }

  /** A short name: a nonempty slug that neither starts nor ends with `-`. */
  predicate ShortSlug(r: string)
  {
    r != [] && AllSlug(r) && r[0] != '-' && r[|r| - 1] != '-'
  }

  /** `_shorten_name` with the abbreviation floor `least` (the source uses 1). */
  function Shorten(name: string, maxLength: nat, least: nat): (r: string)
    ensures ShortSlug(r)
  {
    var shortened := Truncate(Slug(name), maxLength, least);
    var stripped := StripChars(shortened, {'-'});
    StrippedSlug(shortened);
    FallbackSlug();
    if stripped == [] then Fallback else stripped
  }

  /** The name used when nothing is left. */
  const Fallback := "img"

  lemma FallbackSlug()
    ensures Fallback != [] && AllSlug(Fallback) && Fallback[0] != '-' && Fallback[|Fallback| - 1] != '-'
  {
  }

  lemma StrippedSlug(s: string)
    requires AllSlug(s)
    ensures AllSlug(StripChars(s, {'-'}))
    ensures var t := StripChars(s, {'-'}); t == [] || (t[0] != '-' && t[|t| - 1] != '-')
  {
    var stripped := StripChars(s, {'-'});
    var a := StripCharsAt(s, {'-'});
    forall x | x in stripped ensures IsSlugChar(x) {
      var i :| 0 <= i < |stripped| && stripped[i] == x;
      assert s[a + i] == x;
    }
  }

  /** The abbreviation floor of the source: at least one character. */
  const WrittenFloor: nat := 1

  /** The corrected floor: no abbreviation when no room is left. */
  const FixedFloor: nat := 0

  /** `_shorten_name` as written: a part that does not fit is still cut to at least one character. */
  function ShortenName(name: string, maxLength: nat): (r: string)
    ensures ShortSlug(r)
  {
    Shorten(name, maxLength, WrittenFloor)
  }

  /** `_shorten_name` with the abbreviation cut to the room left, which may be none. */
  function ShortenNameFixed(name: string, maxLength: nat): (r: string)
    ensures ShortSlug(r)
  {
    Shorten(name, maxLength, FixedFloor)
  }

  /** The characters of the parts plus one separator each. */
  function Width(parts: seq<string>): nat
  {
    if parts == [] then 0 else |parts[0]| + 1 + Width(parts[1..])
  }

  lemma {:induction false} JoinWidth(parts: seq<string>)
    requires parts != []
    ensures |Join(parts, "-")| + 1 == Width(parts)
    decreases |parts|
  {
    if |parts| > 1 {
      JoinWidth(parts[1..]);
    }
  }

  /** The greedy loop never goes past `maxLength`, plus what the floor `least` forces. */
  lemma {:induction false} GreedyWidth(parts: seq<string>, maxLength: nat, used: nat, least: nat)
    requires used <= maxLength
    ensures used + Width(Greedy(parts, maxLength, used, least)) <= maxLength + (if least > 0 then least + 1 else 0)
    ensures least == 0 ==> used + Width(Greedy(parts, maxLength, used, least)) <= maxLength
    decreases |parts|
  {
    if parts != [] && used + |parts[0]| + 1 <= maxLength {
      GreedyWidth(parts[1..], maxLength, used + |parts[0]| + 1, least);
    }
  }

  /** The corrected shortening keeps within `maxLength`, unless it falls back to `img`. */
  lemma ShortenFixedLength(name: string, maxLength: nat)
    ensures |ShortenNameFixed(name, maxLength)| <= maxLength || ShortenNameFixed(name, maxLength) == Fallback
  {
    var slug := Slug(name);
    if |slug| > maxLength {
      var result := Greedy(Split(slug, '-'), maxLength, 0, 0);
      GreedyWidth(Split(slug, '-'), maxLength, 0, 0);
      if result != [] {
        JoinWidth(result);
      }
    }
  }

  /** As written, the result can exceed `maxLength` by at most one character. */
  lemma ShortenLength(name: string, maxLength: nat)
    ensures |ShortenName(name, maxLength)| <= maxLength + 1 || ShortenName(name, maxLength) == Fallback
  {
    var slug := Slug(name);
    if |slug| > maxLength {
      var result := Greedy(Split(slug, '-'), maxLength, 0, 1);
      GreedyWidth(Split(slug, '-'), maxLength, 0, 1);
      if result != [] {
        JoinWidth(result);
      }
    }
  }

  /** A non-empty run of lower-case ASCII letters. */
  predicate LowerWord(w: string)
  {
    w != [] && forall i :: 0 <= i < |w| ==> IsAsciiLower(w[i])
  }

  /** Lower-casing leaves lower-case letters and spaces alone. */
  lemma LowerIdentity(s: string)
    requires forall i :: 0 <= i < |s| ==> IsAsciiLower(s[i]) || s[i] == ' '
    ensures LowerStr(s) == s
  {
  }

  /** Two lower-case words separated by a space split into those two words. */
  lemma TwoWords(a: string, b: string)
    requires LowerWord(a) && LowerWord(b)
    ensures Words(LowerStr(Strip(a + " " + b))) == [a, b]
  {
    var name := a + (" " + b);
    assert a + " " + b == name;
    JoinedWordsLower(a, b);
    SpacedWords(a, b);
  }

  /** Splitting `a b` gives the two words. */
  lemma SpacedWords(a: string, b: string)
    requires LowerWord(a) && LowerWord(b)
    ensures Words(a + (" " + b)) == [a, b]
  {
    LowerNoSpace(a);
    WordsCons(a, " " + b);
    WordsOfSpaced(b);
    assert [a] + [b] == [a, b];
  }

  lemma LowerNoSpace(w: string)
    requires LowerWord(w)
    ensures forall k :: 0 <= k < |w| ==> !IsSpace(w[k])
  {
  }

  /** Two lower-case words joined by a space are already stripped and lower-case. */
  lemma JoinedWordsLower(a: string, b: string)
    requires LowerWord(a) && LowerWord(b)
    ensures LowerStr(Strip(a + (" " + b))) == a + (" " + b)
  {
    var name := a + (" " + b);
    assert name[0] == a[0] && name[|name| - 1] == b[|b| - 1];
    StripStripped(name);
    forall i | 0 <= i < |name| ensures IsAsciiLower(name[i]) || name[i] == ' ' {
      if i < |a| { assert name[i] == a[i]; }
      else if i > |a| { assert name[i] == b[i - |a| - 1]; }
    }
    LowerIdentity(name);
  }

  lemma WordsOfSpaced(b: string)
    requires LowerWord(b)
    ensures Words(" " + b) == [b]
  {
    var t := " " + b;
    assert SkipSpaces(t, 0) == 1;
    WordEndIs(t, 1, |t|);
    assert t[1..|t|] == b && t[|t|..] == [];
  }

  lemma DropTwo(a: string, b: string)
    requires a !in CommonWords && b !in CommonWords
    ensures DropCommon([a, b]) == [a, b]
  {
    assert [a, b][1..] == [b];
  }

  /** `a-b` is made of slug characters and has its only `-` between the words. */
  lemma JoinTwo(a: string, b: string)
    requires LowerWord(a) && LowerWord(b)
    ensures Join([a, b], "-") == a + "-" + b
    ensures forall i :: 0 <= i < |a + "-" + b| ==> IsSlugChar((a + "-" + b)[i])
    ensures forall i :: 0 <= i < |a + "-" + b| - 1 ==> !((a + "-" + b)[i] == '-' && (a + "-" + b)[i + 1] == '-')
  {
    var j := a + "-" + b;
    forall i | 0 <= i < |j| ensures IsSlugChar(j[i]) && (j[i] == '-' <==> i == |a|) {
      if i < |a| { assert j[i] == a[i]; }
      else if i > |a| { assert j[i] == b[i - |a| - 1]; }
    }
  }

  /** Two lower-case words that are not common words give the slug `a-b`. */
  lemma TwoWordSlug(a: string, b: string)
    requires LowerWord(a) && LowerWord(b) && a !in CommonWords && b !in CommonWords
    ensures Slug(a + " " + b) == a + "-" + b
  {
    TwoWords(a, b);
    DropTwo(a, b);
    JoinTwo(a, b);
    CollapseRunsIdentity(a + "-" + b, '-');
  }

  /**
   * When the first word fills the room exactly, the second word is still cut
   * to one letter: the result is one character longer than `maxLength`. The
   * corrected floor leaves the first word alone.
   */
  lemma SplitTwo(a: string, b: string)
    requires LowerWord(a) && LowerWord(b)
    ensures Split(a + "-" + b, '-') == [a, b]
  {
    var s := a + "-" + b;
    FirstInIs(s, {'-'}, 0, |a|) by {
      forall k | 0 <= k < |a| ensures s[k] !in {'-'} { assert s[k] == a[k]; }
    }
    assert s[..|a|] == a && s[|a| + 1..] == b;
    FirstInIs(b, {'-'}, 0, |b|);
  }

  lemma GreedyTwo(a: string, b: string, maxLength: nat)
    requires |a| + 1 == maxLength && |b| >= 2
    ensures Greedy([a, b], maxLength, 0, 1) == [a, b[..1]]
    ensures Greedy([a, b], maxLength, 0, 0) == [a]
  {
    assert [a, b][1..] == [b];
  }

  lemma ShortenOverflows(a: string, b: string, maxLength: nat)
    requires LowerWord(a) && LowerWord(b) && a !in CommonWords && b !in CommonWords
    requires |a| + 1 == maxLength && |b| >= 2
    ensures ShortenName(a + " " + b, maxLength) == a + "-" + b[..1]
    ensures |ShortenName(a + " " + b, maxLength)| == maxLength + 1
    ensures ShortenNameFixed(a + " " + b, maxLength) == a
  {
    TwoWordSlug(a, b);
    SplitTwo(a, b);
    GreedyTwo(a, b, maxLength);
    var r := a + "-" + b[..1];
    assert Join([a, b[..1]], "-") == r;
    StripCharsIdentity(r, {'-'});
    StripCharsIdentity(a, {'-'});
  }

  /** `_shorten_name("abcdefg xyz", 8)` returns `abcdefg-x`, nine characters; corrected, `abcdefg`. */
  lemma ShortenOverflow(a: string, b: string)
    requires a == "abcdefg" && b == "xyz"
    ensures ShortenName(a + " " + b, 8) == a + "-" + b[..1]
    ensures |ShortenName(a + " " + b, 8)| == 9
    ensures ShortenNameFixed(a + " " + b, 8) == a
  {
    assert LowerWord(a) && LowerWord(b);
    ShortenOverflows(a, b, 8);
  }

  // ---------------------------------------------------------------------------
  // Extensions and format hints

  /** `_get_image_extension`: the extension for a format name, `png` by default. */
  function ImageExtension(format: string): (r: string)
    ensures r in {"jpg", "png", "gif", "bmp", "webp"}
    ensures LowerStr(format) in {"jpg", "png", "gif", "bmp", "webp"} ==> r == LowerStr(format)
    ensures LowerStr(format) == "jpeg" ==> r == "jpg"
    ensures LowerStr(format) !in {"jpeg", "jpg", "png", "gif", "bmp", "webp"} ==> r == "png"
  {
    var f := LowerStr(format);
    if format == [] then "png"
    else if f == "jpeg" || f == "jpg" then "jpg"
    else if f == "png" then "png"
    else if f == "gif" then "gif"
    else if f == "bmp" then "bmp"
    else if f == "webp" then "webp"
    else "png"
  }

  /** An extension names its own format. */
  lemma ExtensionIdempotent(format: string)
    ensures ImageExtension(ImageExtension(format)) == ImageExtension(format)
  {
    var e := ImageExtension(format);
    assert LowerStr(e) == e;
  }

  /** `_detect_image_format_hint`: a format named in the alt text, else `jpg`/`png` in the callback id. */
  function DetectImageFormatHint(altText: string, callbackId: string): (r: Option<string>)
    ensures r.Some? ==> r.value in {"jpeg", "png", "gif", "bmp", "webp"}
    ensures altText == [] && callbackId == [] ==> r.None?
    ensures altText != [] && Contains(LowerStr(altText), "jpeg") ==> r == Some("jpeg")
    ensures r.None? ==> forall f :: f in ["jpeg", "png", "gif", "bmp", "webp"] ==> !Contains(LowerStr(altText), f)
  {
    var alt := LowerStr(altText);
    var cid := LowerStr(callbackId);
    assert Contains(alt, ".jpeg") ==> Contains(alt, "jpeg") by {
      if Contains(alt, ".jpeg") {
        var i :| 0 <= i <= |alt| && OccursAt(alt, ".jpeg", i);
        assert alt[i + 1..i + 5] == "jpeg";
        assert OccursAt(alt, "jpeg", i + 1);
      }
    }
    if altText != [] && (HasSub(alt, ".jpg") || HasSub(alt, ".jpeg") || HasSub(alt, "jpeg")) then Some("jpeg")
    else if altText != [] && (HasSub(alt, ".png") || HasSub(alt, "png")) then Some("png")
    else if altText != [] && (HasSub(alt, ".gif") || HasSub(alt, "gif")) then Some("gif")
    else if altText != [] && (HasSub(alt, ".bmp") || HasSub(alt, "bmp")) then Some("bmp")
    else if altText != [] && (HasSub(alt, ".webp") || HasSub(alt, "webp")) then Some("webp")
    else if callbackId != [] && (HasSub(cid, "jpg") || HasSub(cid, "jpeg")) then Some("jpeg")
    else if callbackId != [] && HasSub(cid, "png") then Some("png")
    else None
  }

  /** A hint turns into the extension of its format. */
  lemma HintExtension(altText: string, callbackId: string)
    requires DetectImageFormatHint(altText, callbackId).Some?
    ensures var h := DetectImageFormatHint(altText, callbackId).value;
      ImageExtension(h) == (if h == "jpeg" then "jpg" else h)
  {
    var h := DetectImageFormatHint(altText, callbackId).value;
    assert LowerStr(h) == h;
  }

  // ---------------------------------------------------------------------------
  // Generated names

  /** `f"{count:03d}"`. */
  function Counter(count: nat): (r: string)
    ensures |r| >= 3
    ensures count < 1000 ==> |r| == 3
    ensures forall i :: 0 <= i < |r| ==> IsDigit(r[i])
    ensures DigitsValue(r) == count
  {
    ZeroFillValue(count, 3);
    ZeroFill(NatToString(count), 3)
  }

  /** `{section}-{page}-{counter}` before the extension; each shortened part may run one past its limit of 8. */
  function BaseName(section: string, page: string, count: nat): (r: string)
    ensures count < 1000 ==> |r| <= 23
  {
    ShortenLength(section, 8);
    ShortenLength(page, 8);
    ShortenName(section, 8) + "-" + ShortenName(page, 8) + "-" + Counter(count)
  }

  /** The first four hex digits of the digest of `{section}-{page}-{count}`. */
  function HashSuffix(section: string, page: string, count: nat): (h: string)
    ensures |h| == 4 && forall i :: 0 <= i < 4 ==> IsLowerHex(h[i])
  {
    Md5Hex(section + "-" + page + "-" + NatToString(count))[..4]
  }

  /**
   * `_generate_image_name`: the base name and extension, with a four-digit
   * hex suffix when that name is already used; the chosen name is added to
   * the used set.
   */
  function GenerateImageName(used: set<string>, section: string, page: string, count: nat, format: string): (r: (string, set<string>))
    ensures r.1 == used + {r.0}
    ensures count < 1000 ==> |r.0| <= 33
    ensures var plain := BaseName(section, page, count) + "." + ImageExtension(format);
      plain !in used ==> r.0 == plain
    ensures var base := BaseName(section, page, count);
      base + "." + ImageExtension(format) in used ==>
        r.0 == base + "-" + HashSuffix(section, page, count) + "." + ImageExtension(format)
  {
    var base := BaseName(section, page, count);
    var ext := ImageExtension(format);
    var plain := base + "." + ext;
    var name := if plain in used then base + "-" + HashSuffix(section, page, count) + "." + ext else plain;
    (name, used + {name})
  }

  /** A name not yet used comes out fresh. */
  lemma GeneratedNameFresh(used: set<string>, section: string, page: string, count: nat, format: string)
    requires BaseName(section, page, count) + "." + ImageExtension(format) !in used
    ensures GenerateImageName(used, section, page, count, format).0 !in used
    ensures GenerateImageName(used, section, page, count, format).1 - used == {GenerateImageName(used, section, page, count, format).0}
  {
  }

  /** A file-name character: a slug character or the extension dot. */
  predicate IsNameChar(c: char)
  {
    IsSlugChar(c) || c == '.'
  }

  lemma BaseNameChars(section: string, page: string, count: nat)
    ensures forall x :: x in BaseName(section, page, count) ==> IsSlugChar(x)
  {
    var c := Counter(count);
    assert forall x :: x in c ==> IsDigit(x);
  }

  lemma ExtensionChars(format: string)
    ensures forall x :: x in ImageExtension(format) ==> IsAsciiLower(x)
  {
    var e := ImageExtension(format);
    assert e == "jpg" || e == "png" || e == "gif" || e == "bmp" || e == "webp";
  }

  /** Generated names hold only slug characters and the dot: no `)`, no line break. */
  lemma GeneratedNameChars(used: set<string>, section: string, page: string, count: nat, format: string)
    ensures forall x :: x in GenerateImageName(used, section, page, count, format).0 ==> IsNameChar(x)
  {
    BaseNameChars(section, page, count);
    ExtensionChars(format);
    var h := HashSuffix(section, page, count);
    assert forall x :: x in h ==> IsSlugChar(x);
  }
}
