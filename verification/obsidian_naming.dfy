/**
 * The naming helpers of `ObsidianConverter`
 * (`src/converters/obsidian_converter.py`): the section category, the
 * file-name slug, image names, internal links, the YAML frontmatter and the
 * date-like test on page titles.
 */
module ObsidianNaming {

  import opened Wrappers
  import opened Strings
  import LogseqNaming

  // ---------------------------------------------------------------------
  // Section categories
  // ---------------------------------------------------------------------

  datatype Category = Daily | References | Projects | Notes

  const DailyKeywords: seq<string> := ["diary", "journal", "daily", "2024", "2025", "2022"]
  const ReferenceKeywords: seq<string> := ["research", "reference", "archive", "papers"]
  const ProjectKeywords: seq<string> := ["project", "tutorial", "development"]

  /** Some keyword of `kws` occurs in `s`. */
  predicate Mentions(s: string, kws: seq<string>)
  {
    exists k :: 0 <= k < |kws| && Contains(s, kws[k])
  }

  /**
   * `_categorize_section`: the keyword groups are tried on the lower-cased
   * name in a fixed order, daily first, and the first group found decides.
   */
  function CategorizeSection(name: string): (r: Category)
    ensures var l := LowerStr(name);
      && (r == Daily <==> Mentions(l, DailyKeywords))
      && (r == References <==> !Mentions(l, DailyKeywords) && Mentions(l, ReferenceKeywords))
      && (r == Projects <==>
            !Mentions(l, DailyKeywords) && !Mentions(l, ReferenceKeywords) && Mentions(l, ProjectKeywords))
      && (r == Notes <==>
            !Mentions(l, DailyKeywords) && !Mentions(l, ReferenceKeywords) && !Mentions(l, ProjectKeywords))
  {
    var l := LowerStr(name);
    if AnyContained(l, DailyKeywords) then Daily
    else if AnyContained(l, ReferenceKeywords) then References
    else if AnyContained(l, ProjectKeywords) then Projects
    else Notes
  }

  /** The category's name as the vault and the frontmatter spell it. */
  function CategoryName(c: Category): string
  {
    match c
    case Daily => "daily"
    case References => "references"
    case Projects => "projects"
    case Notes => "notes"
  }

  /** The category does not depend on case. */
  lemma CategoryIgnoresCase(name: string)
    ensures CategorizeSection(UpperStr(name)) == CategorizeSection(name)
  {
    LowerUpper(name);
  }

  /** A word without upper-case letters is found at its place in the lower-cased text. */
  lemma LowerOccurs(pre: string, w: string, post: string)
    requires forall i :: 0 <= i < |w| ==> !IsAsciiUpper(w[i])
    ensures OccursAt(LowerStr(pre + w + post), w, |pre|)
  {
    var s := pre + w + post;
    forall i | 0 <= i < |w| ensures LowerStr(s)[|pre| + i] == w[i] {
      assert s[|pre| + i] == w[i];
    }
  }

  /** A daily keyword anywhere in the name makes the section daily, whatever else it mentions. */
  lemma DailyKeywordWins(pre: string, k: nat, post: string)
    requires k < |DailyKeywords|
    ensures CategorizeSection(pre + DailyKeywords[k] + post) == Daily
  {
    var w := DailyKeywords[k];
    assert forall i :: 0 <= i < |w| ==> !IsAsciiUpper(w[i]);
    LowerOccurs(pre, w, post);
  }

  // ---------------------------------------------------------------------
  // File names
  // ---------------------------------------------------------------------

  /** `re.sub(r'\s+', '-', s)`: every run of whitespace becomes one hyphen. */
  function HyphenateSpaces(s: string): (r: string)
    ensures forall i :: 0 <= i < |r| ==> !IsSpace(r[i])
    ensures forall c :: c in r ==> c in s || c == '-'
    ensures (forall i :: 0 <= i < |s| ==> !IsSpace(s[i])) ==> r == s
    decreases |s|
  {
    if s == [] then []
    else if IsSpace(s[0]) then "-" + HyphenateSpaces(s[SkipSpaces(s, 0)..])
    else [s[0]] + HyphenateSpaces(s[1..])
  }

  /** The characters `[\w\-_]` keeps. */
  predicate FileChar(c: char)
  {
    IsWordChar(c) || c == '-'
  }

  /** What `strip('-_')` removes from the ends. */
  const EdgeChars: set<char> := {'-', '_'}

  /**
   * A sanitised file name: not empty, only word characters and hyphens, no
   * two hyphens in a row, and neither `-` nor `_` at either end.
   */
  predicate IsFileStem(r: string)
  {
    && r != []
    && (forall i :: 0 <= i < |r| ==> FileChar(r[i]))
    && (forall i :: 0 <= i < |r| - 1 ==> !(r[i] == '-' && r[i + 1] == '-'))
    && r[0] !in EdgeChars && r[|r| - 1] !in EdgeChars
  }

  lemma UntitledIsStem()
    ensures IsFileStem("untitled")
  {
    var u := "untitled";
    assert forall i :: 0 <= i < |u| ==> IsAsciiLower(u[i]);
  }

  /** Stripping a text of file characters without double hyphens keeps both properties. */
  lemma StripKeepsStem(s: string, r: string)
    requires forall c :: c in s ==> FileChar(c)
    requires forall i :: 0 <= i < |s| - 1 ==> !(s[i] == '-' && s[i + 1] == '-')
    requires exists a :: SliceAt(s, r, a)
    ensures forall i :: 0 <= i < |r| ==> FileChar(r[i])
    ensures forall i :: 0 <= i < |r| - 1 ==> !(r[i] == '-' && r[i + 1] == '-')
  {
    var a :| SliceAt(s, r, a);
    forall i | 0 <= i < |r| ensures FileChar(r[i]) {
      assert r[i] == s[a + i];
      assert s[a + i] in s;
    }
    forall i | 0 <= i < |r| - 1 ensures !(r[i] == '-' && r[i + 1] == '-') {
      assert r[i] == s[a + i] && r[i + 1] == s[a + i + 1];
    }
  }

  /**
   * `_sanitize_filename`: a blank name becomes `untitled`; whitespace runs
   * become hyphens; characters other than word characters and hyphens are
   * dropped; hyphen runs collapse; `-` and `_` are stripped from the ends;
   * an empty result becomes `untitled`.
   */
  function SanitizeFilename(name: string): (r: string)
    ensures IsFileStem(r)
    ensures forall i :: 0 <= i < |r| ==> !IsSpace(r[i])
  {
    var n := if IsBlank(name) then "untitled" else name;
    var kept := Filter(HyphenateSpaces(n), FileChar);
    var stripped := StripChars(CollapseRuns(kept, '-'), EdgeChars);
    CleanedStem(kept);
    UntitledIsStem();
    var r := if stripped == [] then "untitled" else stripped;
    StemHasNoSpace(r);
    r
  }

  /** No whitespace in a sanitised name. */
  lemma StemHasNoSpace(r: string)
    requires IsFileStem(r)
    ensures forall i :: 0 <= i < |r| ==> !IsSpace(r[i])
  {
    forall i | 0 <= i < |r| ensures !IsSpace(r[i]) {
      assert FileChar(r[i]);
    }
  }

  /** Collapsing and stripping file characters leaves a sanitised name or nothing. */
  lemma CleanedStem(kept: string)
    requires forall i :: 0 <= i < |kept| ==> FileChar(kept[i])
    ensures var stripped := StripChars(CollapseRuns(kept, '-'), EdgeChars);
      stripped == [] || IsFileStem(stripped)
  {
    var single := CollapseRuns(kept, '-');
    forall c | c in single ensures FileChar(c) {
      assert c in kept;
    }
    StripKeepsStem(single, StripChars(single, EdgeChars));
  }

  /** A sanitised name is its own sanitisation. */
  lemma SanitizeFileStem(r: string)
    requires IsFileStem(r)
    ensures SanitizeFilename(r) == r
  {
    StemHasNoSpace(r);
    assert !IsBlank(r);
    assert HyphenateSpaces(r) == r;
    assert Filter(r, FileChar) == r;
    CollapseRunsIdentity(r, '-');
    StemStripped(r);
  }

  /** Stripping `-` and `_` leaves a sanitised name alone. */
  lemma StemStripped(r: string)
    requires IsFileStem(r)
    ensures StripChars(r, EdgeChars) == r
  {
    assert SkipChars(r, EdgeChars, 0) == 0;
    assert TrimCharsEnd(r, EdgeChars, 0, |r|) == |r|;
  }

  /** Sanitising twice is sanitising once. */
  lemma SanitizeFilenameIdempotent(name: string)
    ensures SanitizeFilename(SanitizeFilename(name)) == SanitizeFilename(name)
  {
    SanitizeFileStem(SanitizeFilename(name));
  }

  /** ASCII letters and digits: what every step of the sanitiser keeps. */
  predicate Alnum(c: char)
  {
    IsDigit(c) || IsAsciiLower(c) || IsAsciiUpper(c)
  }

  /** Turning whitespace into hyphens keeps the letters and digits in order. */
  lemma {:induction false} HyphenateKeepsAlnum(s: string)
    ensures Filter(HyphenateSpaces(s), Alnum) == Filter(s, Alnum)
    decreases |s|
  {
    if s != [] {
      if IsSpace(s[0]) {
        var j := SkipSpaces(s, 0);
        HyphenateKeepsAlnum(s[j..]);
        FilterConcat("-", HyphenateSpaces(s[j..]), Alnum);
        FilterDrops(s, j, Alnum);
      } else {
        HyphenateKeepsAlnum(s[1..]);
        FilterConcat([s[0]], HyphenateSpaces(s[1..]), Alnum);
        FilterConcat([s[0]], s[1..], Alnum);
        assert s == [s[0]] + s[1..];
      }
    }
  }

  /** Filtering by a wider class first changes nothing for a narrower filter. */
  lemma {:induction false} FilterFileChars(s: string)
    ensures Filter(Filter(s, FileChar), Alnum) == Filter(s, Alnum)
    decreases |s|
  {
    if s != [] {
      FilterFileChars(s[1..]);
      if FileChar(s[0]) {
        FilterConcat([s[0]], Filter(s[1..], FileChar), Alnum);
      }
    }
  }

  /** Collapsing hyphen runs keeps the letters and digits in order. */
  lemma {:induction false} CollapseKeepsAlnum(s: string)
    ensures Filter(CollapseRuns(s, '-'), Alnum) == Filter(s, Alnum)
    decreases |s|
  {
    if s != [] {
      var r := CollapseRuns(s, '-');
      if s[0] == '-' {
        var j := SkipChars(s, {'-'}, 0);
        CollapseKeepsAlnum(s[j..]);
        assert r == "-" + CollapseRuns(s[j..], '-');
        FilterConcat("-", CollapseRuns(s[j..], '-'), Alnum);
        FilterDrops(s, j, Alnum);
      } else {
        CollapseKeepsAlnum(s[1..]);
        assert r == [s[0]] + CollapseRuns(s[1..], '-');
        FilterConcat([s[0]], CollapseRuns(s[1..], '-'), Alnum);
        FilterConcat([s[0]], s[1..], Alnum);
        assert s == [s[0]] + s[1..];
      }
    }
  }

  /** Stripping `-` and `_` from the ends keeps the letters and digits. */
  lemma StripKeepsAlnum(s: string)
    ensures Filter(StripChars(s, EdgeChars), Alnum) == Filter(s, Alnum)
  {
    var r := StripChars(s, EdgeChars);
    var a := StripCharsAt(s, EdgeChars);
    var pre, post := s[..a], s[a + |r|..];
    assert s == pre + r + post;
    EdgesDropped(pre);
    EdgesDropped(post);
    FilterMiddle(pre, r, post, Alnum);
  }

  /** A text of `-` and `_` has no letters or digits. */
  lemma EdgesDropped(s: string)
    requires forall c :: c in s ==> c in EdgeChars
    ensures Filter(s, Alnum) == []
  {
    assert forall k :: 0 <= k < |s| ==> s[k] in s;
    FilterDrops(s, |s|, Alnum);
  }

  /**
   * The sanitiser keeps every ASCII letter and digit of the name, in order,
   * and adds none: it only rewrites the separators around them.
   */
  lemma SanitizeKeepsAlnum(name: string)
    requires Filter(name, Alnum) != []
    ensures Filter(SanitizeFilename(name), Alnum) == Filter(name, Alnum)
  {
    assert !IsBlank(name) by {
      var c := Filter(name, Alnum)[0];
      var i :| 0 <= i < |name| && name[i] == c;
    }
    var h := HyphenateSpaces(name);
    var kept := Filter(h, FileChar);
    var single := CollapseRuns(kept, '-');
    HyphenateKeepsAlnum(name);
    FilterFileChars(h);
    CollapseKeepsAlnum(kept);
    StripKeepsAlnum(single);
  }

  // ---------------------------------------------------------------------
  // Image names
  // ---------------------------------------------------------------------

  /** An alt text worth naming an image after: not empty, nor `image` or `untitled` in any case. */
  predicate Meaningful(alt: string)
  {
    alt != [] && LowerStr(alt) !in {"image", "untitled"}
  }

  /** The name of an image without a meaningful alt text: section, page and counter. */
  function NumberedBase(section: string, page: string, count: nat): string
  {
    section + "-" + page + "-" + NatToString(count)
  }

  /**
   * `_generate_image_name`: the sanitised alt text when it is meaningful,
   * else the sanitised section, page and counter; always with `.png`.
   */
  function GenerateImageName(section: string, page: string, alt: string, count: nat): (r: string)
    ensures |r| > 4 && r[|r| - 4..] == ".png"
    ensures IsFileStem(r[..|r| - 4])
    ensures Meaningful(alt) ==> r[..|r| - 4] == SanitizeFilename(alt)
    ensures !Meaningful(alt) ==> r[..|r| - 4] == SanitizeFilename(NumberedBase(section, page, count))
  {
    var base := if Meaningful(alt) then SanitizeFilename(alt) else SanitizeFilename(NumberedBase(section, page, count));
    base + ".png"
  }

  /** The stem of a generated image name is already a sanitised file name. */
  lemma ImageStemSanitised(section: string, page: string, alt: string, count: nat)
    ensures var r := GenerateImageName(section, page, alt, count);
      SanitizeFilename(r[..|r| - 4]) == r[..|r| - 4]
  {
    var r := GenerateImageName(section, page, alt, count);
    SanitizeFileStem(r[..|r| - 4]);
  }

  /** A meaningful alt text lends the name all its letters and digits, in order. */
  lemma NamedAfterAlt(section: string, page: string, alt: string, count: nat)
    requires Meaningful(alt) && Filter(alt, Alnum) != []
    ensures var r := GenerateImageName(section, page, alt, count);
      Filter(r[..|r| - 4], Alnum) == Filter(alt, Alnum)
  {
    SanitizeKeepsAlnum(alt);
  }

  /** A hyphen between two texts adds no letter or digit. */
  lemma FilterDash(a: string, b: string)
    ensures Filter(a + "-" + b, Alnum) == Filter(a, Alnum) + Filter(b, Alnum)
  {
    FilterConcat(a + "-", b, Alnum);
    FilterConcat(a, "-", Alnum);
    assert Filter("-", Alnum) == [] by {
      assert !Alnum('-');
    }
    assert Filter(a, Alnum) + [] == Filter(a, Alnum);
  }

  /** Digits are letters-and-digits. */
  lemma DigitsKept(s: string)
    requires forall i :: 0 <= i < |s| ==> IsDigit(s[i])
    ensures Filter(s, Alnum) == s
  {
  }

  /**
   * Without a meaningful alt text the name spells the section's and the
   * page's letters and digits, then the counter.
   */
  lemma NamedAfterPlace(section: string, page: string, alt: string, count: nat)
    requires !Meaningful(alt)
    ensures var r := GenerateImageName(section, page, alt, count);
      Filter(r[..|r| - 4], Alnum) == Filter(section, Alnum) + Filter(page, Alnum) + NatToString(count)
  {
    var b := NumberedBase(section, page, count);
    NumberedAlnum(section, page, count);
    SanitizeKeepsAlnum(b);
  }

  /** The letters and digits of the numbered base: the section's, the page's, the counter. */
  lemma NumberedAlnum(section: string, page: string, count: nat)
    ensures Filter(NumberedBase(section, page, count), Alnum) ==
      Filter(section, Alnum) + Filter(page, Alnum) + NatToString(count)
    ensures Filter(NumberedBase(section, page, count), Alnum) != []
  {
    var n := NatToString(count);
    FilterDash(section + "-" + page, n);
    FilterDash(section, page);
    DigitsKept(n);
  }

  // ---------------------------------------------------------------------
  // Internal links
  // ---------------------------------------------------------------------

  /** `_create_internal_link`: `[[path|title]]` for a title with a known note, `[[title]]` otherwise. */
  function CreateInternalLink(noteLinks: map<string, string>, title: string): (r: string)
    ensures |r| >= 4 && r[..2] == "[[" && r[|r| - 2..] == "]]"
    ensures title in noteLinks ==> r[2..|r| - 2] == noteLinks[title] + "|" + title
    ensures title !in noteLinks ==> r[2..|r| - 2] == title
  {
    if title in noteLinks then "[[" + noteLinks[title] + "|" + title + "]]" else "[[" + title + "]]"
  }

  /** Reads a wiki link back: its target, and the display text after the first `|` (the target when there is none). */
  function ParseWikiLink(s: string): (r: Option<(string, string)>)
  {
    if |s| >= 4 && s[..2] == "[[" && s[|s| - 2..] == "]]" then
      var inner := s[2..|s| - 2];
      var bar := FirstIn(inner, {'|'}, 0);
      if bar < |inner| then Some((inner[..bar], inner[bar + 1..])) else Some((inner, inner))
    else None
  }

  /** A link made for a title reads back as the note's path (or the title) and the title. */
  lemma InternalLinkRoundTrip(noteLinks: map<string, string>, title: string)
    requires '|' !in title
    requires title in noteLinks ==> '|' !in noteLinks[title]
    ensures ParseWikiLink(CreateInternalLink(noteLinks, title)) ==
      Some((if title in noteLinks then noteLinks[title] else title, title))
  {
    var r := CreateInternalLink(noteLinks, title);
    var inner := r[2..|r| - 2];
    if title in noteLinks {
      var path := noteLinks[title];
      assert inner == path + "|" + title;
      FirstInIs(inner, {'|'}, 0, |path|);
      assert inner[..|path|] == path && inner[|path| + 1..] == title;
    } else {
      FirstInIs(inner, {'|'}, 0, |inner|);
    }
  }

  // ---------------------------------------------------------------------
  // Frontmatter
  // ---------------------------------------------------------------------

  /**
   * The keyword arguments of `_generate_frontmatter`; an empty string (or a
   * zero page count) is an argument that is absent or falsy.
   */
  datatype Properties = Properties(
    title: string, section: string, category: string, lastModified: string,
    pageId: string, noteType: string, pageCount: nat)

  /** A `key: value` line, only for a truthy value. */
  function Optional(key: string, value: string): (r: seq<string>)
    ensures |r| == (if value == [] then 0 else 1)
  {
    if value != [] then [key + ": " + value] else []
  }

  /** The number of optional keys present. */
  function OptionalCount(p: Properties): nat
  {
    (if p.category != [] then 1 else 0) + (if p.lastModified != [] then 1 else 0)
    + (if p.pageId != [] then 1 else 0) + (if p.noteType != [] then 1 else 0)
    + (if p.pageCount > 0 then 1 else 0)
  }

  /** The keys every frontmatter has, `today` being the date `datetime.now()` would give. */
  function FixedLines(p: Properties, today: string): (lines: seq<string>)
    ensures |lines| == 5 && lines[0] == "title: " + p.title && lines[1] == "date: " + today
  {
    ["title: " + p.title, "date: " + today, "tags: [onenote-import]",
     "onenote_source: " + p.section + " > " + p.title, "extraction_date: " + today]
  }

  /** The optional keys, each only when truthy, in their fixed order. */
  function OptionalLines(p: Properties): (lines: seq<string>)
    ensures |lines| == OptionalCount(p)
  {
    Optional("category", p.category)
    + Optional("last_modified", p.lastModified)
    + Optional("onenote_page_id", p.pageId)
    + Optional("type", p.noteType)
    + (if p.pageCount > 0 then ["page_count: " + NatToString(p.pageCount)] else [])
  }

  /**
   * The frontmatter's lines: the opening `---`, five fixed keys, the
   * optional keys, the closing `---` and an empty line.
   */
  function FrontmatterLines(p: Properties, today: string): (lines: seq<string>)
    ensures |lines| == 8 + OptionalCount(p)
    ensures lines[0] == "---" && lines[|lines| - 2] == "---" && lines[|lines| - 1] == ""
    ensures lines[1] == "title: " + p.title && lines[2] == "date: " + today
  {
    ["---"] + FixedLines(p, today) + OptionalLines(p) + ["---", ""]
  }

  /** `_generate_frontmatter`: the lines joined with newlines. */
  function GenerateFrontmatter(p: Properties, today: string): (r: string)
    ensures |r| >= 8 && r[..4] == "---\n" && r[|r| - 4..] == "---\n"
  {
    var lines := FrontmatterLines(p, today);
    FrontmatterEnds(lines);
    Join(lines, "\n")
  }

  /** Where a joined block of lines opening and closing with `---` begins and ends. */
  lemma FrontmatterEnds(lines: seq<string>)
    requires |lines| >= 3 && lines[0] == "---" && lines[|lines| - 2] == "---" && lines[|lines| - 1] == ""
    ensures var r := Join(lines, "\n"); |r| >= 8 && r[..4] == "---\n" && r[|r| - 4..] == "---\n"
  {
    var r := Join(lines, "\n");
    var t := Join(lines[1..], "\n");
    JoinEnd(lines[1..]);
    assert r == "---" + "\n" + t;
    assert r[|r| - 4..] == t[|t| - 4..];
    assert r[..4] == "---\n" by {
      assert forall i :: 0 <= i < 4 ==> r[i] == "---\n"[i];
    }
  }

  /** The last two lines of a joined block. */
  lemma {:induction false} JoinEnd(lines: seq<string>)
    requires |lines| >= 2 && lines[|lines| - 2] == "---" && lines[|lines| - 1] == ""
    ensures var r := Join(lines, "\n"); |r| >= 4 && r[|r| - 4..] == "---\n"
    decreases |lines|
  {
    if |lines| > 2 {
      JoinEnd(lines[1..]);
      var t := Join(lines[1..], "\n");
      assert Join(lines, "\n") == lines[0] + "\n" + t;
    } else {
      assert Join(lines, "\n") == "---" + "\n" + "";
    }
  }

  /** No field of the frontmatter holds a line break. */
  predicate SingleLineFields(p: Properties, today: string)
  {
    '\n' !in p.title && '\n' !in p.section && '\n' !in p.category && '\n' !in p.lastModified
    && '\n' !in p.pageId && '\n' !in p.noteType && '\n' !in today
  }

  /** No line holds a line break. */
  predicate SingleLines(lines: seq<string>)
  {
    forall k :: 0 <= k < |lines| ==> '\n' !in lines[k]
  }

  lemma SingleLinesConcat(a: seq<string>, b: seq<string>)
    requires SingleLines(a) && SingleLines(b)
    ensures SingleLines(a + b)
  {
  }

  /** `key: value` has no line break when the key and the value have none. */
  lemma KeyLineSingle(key: string, value: string)
    requires '\n' !in key && '\n' !in value
    ensures '\n' !in key + ": " + value
  {
  }

  lemma FixedLinesSingle(p: Properties, today: string)
    requires SingleLineFields(p, today)
    ensures SingleLines(FixedLines(p, today))
  {
    KeyLineSingle("title", p.title);
    KeyLineSingle("date", today);
    KeyLineSingle("extraction_date", today);
    assert '\n' !in p.section + " > " + p.title;
    KeyLineSingle("onenote_source", p.section + " > " + p.title);
  }

  lemma OptionalLinesSingle(p: Properties)
    requires SingleLineFields(p, "")
    ensures SingleLines(OptionalLines(p))
  {
    var n := NatToString(p.pageCount);
    assert '\n' !in n by {
      assert forall i :: 0 <= i < |n| ==> IsDigit(n[i]);
    }
    KeyLineSingle("category", p.category);
    KeyLineSingle("last_modified", p.lastModified);
    KeyLineSingle("onenote_page_id", p.pageId);
    KeyLineSingle("type", p.noteType);
    KeyLineSingle("page_count", n);
    SingleLinesConcat(Optional("category", p.category), Optional("last_modified", p.lastModified));
    SingleLinesConcat(Optional("category", p.category) + Optional("last_modified", p.lastModified),
      Optional("onenote_page_id", p.pageId));
    SingleLinesConcat(Optional("category", p.category) + Optional("last_modified", p.lastModified)
      + Optional("onenote_page_id", p.pageId), Optional("type", p.noteType));
  }

  /** Every frontmatter line is free of line breaks when the fields are. */
  lemma FrontmatterLinesSingle(p: Properties, today: string)
    requires SingleLineFields(p, today)
    ensures SingleLines(FrontmatterLines(p, today))
  {
    FixedLinesSingle(p, today);
    OptionalLinesSingle(p);
    SingleLinesConcat(["---"], FixedLines(p, today));
    SingleLinesConcat(["---"] + FixedLines(p, today), OptionalLines(p));
    SingleLinesConcat(["---"] + FixedLines(p, today) + OptionalLines(p), ["---", ""]);
  }

  /**
   * Reading the frontmatter back line by line gives exactly its lines: one
   * line per key, between the two `---` lines, when no field holds a line
   * break.
   */
  lemma FrontmatterSplits(p: Properties, today: string)
    requires SingleLineFields(p, today)
    ensures Split(GenerateFrontmatter(p, today), '\n') == FrontmatterLines(p, today)
  {
    FrontmatterLinesSingle(p, today);
    SplitJoin(FrontmatterLines(p, today), '\n');
  }

  // ---------------------------------------------------------------------
  // Date-like titles
  // ---------------------------------------------------------------------

  /** `n` decimal digits at offset `i`. */
  predicate DigitsAt(s: string, i: nat, n: nat)
  {
    i + n <= |s| && forall k :: i <= k < i + n ==> IsDigit(s[k])
  }

  /** `\d{4}-\d{2}-\d{2}` matches at `i`. */
  predicate IsoDateAt(s: string, i: nat)
  {
    DigitsAt(s, i, 4) && i + 4 < |s| && s[i + 4] == '-' && DigitsAt(s, i + 5, 2)
    && i + 7 < |s| && s[i + 7] == '-' && DigitsAt(s, i + 8, 2)
  }

  /** `\d{1,2}/\d{1,2}/\d{4}` matches at `i` with `a` and `b` digits in the first two fields. */
  predicate SlashFieldsAt(s: string, i: nat, a: nat, b: nat)
  {
    DigitsAt(s, i, a) && i + a < |s| && s[i + a] == '/' && DigitsAt(s, i + a + 1, b)
    && i + a + 1 + b < |s| && s[i + a + 1 + b] == '/' && DigitsAt(s, i + a + b + 2, 4)
  }

  predicate SlashDateAt(s: string, i: nat)
  {
    SlashFieldsAt(s, i, 1, 1) || SlashFieldsAt(s, i, 1, 2) || SlashFieldsAt(s, i, 2, 1) || SlashFieldsAt(s, i, 2, 2)
  }

  const MonthNames: seq<string> := ["january", "february", "march", "april", "may", "june",
    "july", "august", "september", "october", "november", "december"]

  /**
   * `(diary|journal)\s*\d{4}` matches at `i` of a lower-cased title: the
   * word, a run of whitespace, then four digits (backtracking into the run
   * cannot help, as a digit is never whitespace).
   */
  predicate DiaryYearAt(l: string, i: nat)
  {
    (OccursAt(l, "diary", i) && DigitsAt(l, SkipSpaces(l, i + 5), 4))
    || (OccursAt(l, "journal", i) && DigitsAt(l, SkipSpaces(l, i + 7), 4))
  }

  /** The three patterns of `_is_date_like` matched at an offset. */
  datatype DatePattern = IsoDate | SlashDate | DiaryYear

  /** `p` matches at offset `i` of `s` (the diary pattern of a lower-cased `s`). */
  predicate MatchesAt(p: DatePattern, s: string, i: nat)
  {
    match p
    case IsoDate => IsoDateAt(s, i)
    case SlashDate => SlashDateAt(s, i)
    case DiaryYear => DiaryYearAt(s, i)
  }

  /** `re.search`: `p` matches at some offset from `i` on. */
  function Search(p: DatePattern, s: string, i: nat): (b: bool)
    requires i <= |s|
    ensures b <==> exists j :: i <= j <= |s| && MatchesAt(p, s, j)
    decreases |s| - i
  {
    MatchesAt(p, s, i) || (i < |s| && Search(p, s, i + 1))
  }

  /** The four searches of `_is_date_like`, as a property of the title. */
  predicate DateLike(title: string)
  {
    || (exists i :: 0 <= i <= |title| && IsoDateAt(title, i))
    || (exists i :: 0 <= i <= |title| && SlashDateAt(title, i))
    || Mentions(LowerStr(title), MonthNames)
    || (exists i :: 0 <= i <= |title| && DiaryYearAt(LowerStr(title), i))
  }

  /**
   * `_is_date_like`: an ISO date, a slashed date, a month name or a diary
   * or journal word followed by a year occurs somewhere, ignoring case.
   */
  function IsDateLike(title: string): (b: bool)
    ensures b <==> DateLike(title)
  {
    var l := LowerStr(title);
    var iso := Search(IsoDate, title, 0);
    var slash := Search(SlashDate, title, 0);
    var diary := Search(DiaryYear, l, 0);
    assert iso <==> exists i :: 0 <= i <= |title| && IsoDateAt(title, i) by {
      assert forall i :: MatchesAt(IsoDate, title, i) == IsoDateAt(title, i);
    }
    assert slash <==> exists i :: 0 <= i <= |title| && SlashDateAt(title, i) by {
      assert forall i :: MatchesAt(SlashDate, title, i) == SlashDateAt(title, i);
    }
    assert diary <==> exists i :: 0 <= i <= |title| && DiaryYearAt(l, i) by {
      assert forall i :: MatchesAt(DiaryYear, l, i) == DiaryYearAt(l, i);
    }
    iso || slash || AnyContained(l, MonthNames) || diary
  }

  /** Upper-casing leaves digits, `-` and `/` where they are. */
  lemma UpperKeepsMarks(s: string)
    ensures forall i :: 0 <= i < |s| ==> (IsDigit(UpperStr(s)[i]) <==> IsDigit(s[i]))
    ensures forall i :: 0 <= i < |s| ==> (UpperStr(s)[i] == '-' <==> s[i] == '-')
    ensures forall i :: 0 <= i < |s| ==> (UpperStr(s)[i] == '/' <==> s[i] == '/')
  {
  }

  /** The test ignores case. */
  lemma DateLikeIgnoresCase(title: string)
    ensures IsDateLike(UpperStr(title)) == IsDateLike(title)
  {
    var u := UpperStr(title);
    LowerUpper(title);
    UpperKeepsMarks(title);
    assert forall i :: 0 <= i <= |title| ==> (IsoDateAt(u, i) <==> IsoDateAt(title, i));
    assert forall i :: 0 <= i <= |title| ==> (SlashDateAt(u, i) <==> SlashDateAt(title, i));
  }

  /** Every date the Logseq converter's date parser produces is a date-like title. */
  lemma ParsedDateIsDateLike(text: string)
    requires LogseqNaming.TryParseDate(text).Some?
    ensures IsDateLike(LogseqNaming.TryParseDate(text).value)
  {
    var d := LogseqNaming.TryParseDate(text).value;
    assert IsoDateAt(d, 0);
  }
}
