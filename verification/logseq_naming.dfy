/**
 * The naming and parsing helpers of `LogseqConverter`
 * (`src/converters/logseq_converter.py`): journal sections, page names,
 * title tag stripping, journal dates, task items, priorities and block
 * references.
 *
 * Every pattern is decided by hand. `\d` and `\w` are ASCII, and
 * case-insensitive matching folds ASCII letters only.
 */
module LogseqNaming {

  import opened Wrappers
  import opened Strings
  import HtmlMarkdown

  // ---------------------------------------------------------------------------
  // Journal sections

  const JournalKeywords: seq<string> := ["diary", "journal", "daily", "log"]

  /** `_is_journal_section`: a journal keyword occurs in the lower-cased name. */
  function IsJournalSection(name: string): (b: bool)
    ensures b <==> exists k :: 0 <= k < |JournalKeywords| && Contains(LowerStr(name), JournalKeywords[k])
  {
    AnyContained(LowerStr(name), JournalKeywords)
  }

  /** The journal test ignores case. */
  lemma JournalSectionIgnoresCase(name: string)
    ensures IsJournalSection(UpperStr(name)) == IsJournalSection(name)
  {
    LowerUpper(name);
  }

  // ---------------------------------------------------------------------------
  // Page names

  /** The characters Logseq page names may not hold. */
  const PageNameForbidden: set<char> := {'<', '>', ':', '"', '/', '\\', '|', '?', '*', '[', ']'}

  predicate Allowed(c: char)
  {
    c !in PageNameForbidden
  }

  /** A sanitised name: no forbidden character, stripped, whitespace only as single spaces. */
  predicate IsPageName(r: string)
  {
    && r != []
    && (forall i :: 0 <= i < |r| ==> r[i] !in PageNameForbidden)
    && IsStripped(r)
    && SingleSpaced(r)
  }

  lemma UntitledIsPageName()
    ensures IsPageName("untitled")
  {
    var u := "untitled";
    forall i | 0 <= i < |u| ensures !IsSpace(u[i]) && u[i] !in PageNameForbidden { }
  }

  /** Squeezing whitespace brings in no forbidden character. */
  lemma SqueezedAllowed(kept: string)
    requires forall c :: c in kept ==> Allowed(c)
    ensures forall c :: c in SqueezeSpaces(kept) ==> Allowed(c)
  {
    var squeezed := SqueezeSpaces(kept);
    forall c | c in squeezed ensures Allowed(c) {
      var i :| 0 <= i < |squeezed| && squeezed[i] == c;
    }
  }

  /** Filtering, squeezing and stripping leave no forbidden character behind. */
  lemma CleanedAvoids(n: string)
    ensures forall c :: c in Strip(SqueezeSpaces(Filter(n, Allowed))) ==> Allowed(c)
  {
    var squeezed := SqueezeSpaces(Filter(n, Allowed));
    SqueezedAllowed(Filter(n, Allowed));
    StripSingleSpaced(squeezed);
  }

  /** `_sanitize_page_name`. */
  function SanitizePageName(name: string): (r: string)
    ensures IsPageName(r)
  {
    var n := if IsBlank(name) then "untitled" else name;
    var squeezed := SqueezeSpaces(Filter(n, Allowed));
    var r := Strip(squeezed);
    if r == [] then
      UntitledIsPageName();
      "untitled"
    else
      StripSingleSpaced(squeezed);
      CleanedAvoids(n);
      AllowedPageName(r);
      r
  }

  lemma AllowedPageName(r: string)
    requires r != [] && IsStripped(r) && SingleSpaced(r)
    requires forall c :: c in r ==> Allowed(c)
    ensures IsPageName(r)
  {
    forall i | 0 <= i < |r| ensures r[i] !in PageNameForbidden {
      assert Allowed(r[i]);
    }
  }

  /** Sanitising a sanitised name changes nothing. */
  lemma SanitizeIdempotent(name: string)
    ensures SanitizePageName(SanitizePageName(name)) == SanitizePageName(name)
  {
    var r := SanitizePageName(name);
    assert !IsBlank(r) by {
      assert !IsSpace(r[0]);
    }
    assert Filter(r, Allowed) == r;
    SqueezeIdentity(r);
    StripStripped(r);
  }

  /** `_strip_html_tags`: drop tags, decode entities, squeeze whitespace, strip. */
  function StripHtmlTags(text: string): (r: string)
    ensures IsStripped(r) && SingleSpaced(r)
  {
    if text == [] then []
    else
      var squeezed := SqueezeSpaces(HtmlMarkdown.Unescape(HtmlMarkdown.Apply(HtmlMarkdown.StripTag, text)));
      StripSingleSpaced(squeezed);
      Strip(squeezed)
  }

  /** Text without tags or entities only has its whitespace cleaned. */
  lemma StripHtmlTagsPlain(text: string)
    requires !ContainsChar(text, '<') && !ContainsChar(text, '&')
    ensures StripHtmlTags(text) == Strip(SqueezeSpaces(text))
  {
    if text != [] {
      HtmlMarkdown.ApplyIdentity(HtmlMarkdown.StripTag, text);
      HtmlMarkdown.UnescapePlain(text);
    }
  }

  // ---------------------------------------------------------------------------
  // Dates

  /** The end of the greedy `\d{1,max}` run at `i` (it may be empty). */
  function DigitRun(s: string, i: nat, max: nat): (j: nat)
    requires i <= |s|
    ensures i <= j <= |s| && j <= i + max
    ensures forall k :: i <= k < j ==> IsDigit(s[k])
    ensures AllDigits(s[i..j])
    ensures j < i + max ==> j == |s| || !IsDigit(s[j])
    decreases max
  {
    if max == 0 || i == |s| || !IsDigit(s[i]) then i else DigitRun(s, i + 1, max - 1)
  }

  const MonthNames: seq<string> := [
    "january", "february", "march", "april", "may", "june",
    "july", "august", "september", "october", "november", "december"
  ]

  /** A month name found in a text: which month, and the offset just past its name. */
  datatype MonthMatch = MonthMatch(month: nat, end: nat)

  /** The first month name, in calendar order, at offset `i` of the lower-cased text `l`. */
  function MonthAt(l: string, i: nat, k: nat): (r: Option<MonthMatch>)
    requires k <= 12
    ensures r.Some? ==> k <= r.value.month < 12 && i <= r.value.end <= |l|
    decreases 12 - k
  {
    if k == 12 then None
    else if OccursAt(l, MonthNames[k], i) then Some(MonthMatch(k, i + |MonthNames[k]|))
    else MonthAt(l, i, k + 1)
  }

  /** The month found is one whose name occurs there, and none is found only when no name occurs. */
  lemma {:induction false} MonthAtFinds(l: string, i: nat, k: nat)
    requires k <= 12
    ensures MonthAt(l, i, k).Some? ==>
      var v := MonthAt(l, i, k).value;
      OccursAt(l, MonthNames[v.month], i) && v.end == i + |MonthNames[v.month]|
    ensures MonthAt(l, i, k).None? ==> forall m :: k <= m < 12 ==> !OccursAt(l, MonthNames[m], i)
    decreases 12 - k
  {
    if k < 12 && !OccursAt(l, MonthNames[k], i) {
      MonthAtFinds(l, i, k + 1);
    }
  }

  /** The first month whose name is exactly `l`. */
  function MonthIndex(l: string, k: nat): (r: Option<nat>)
    requires k <= 12
    ensures r.Some? ==> k <= r.value < 12 && MonthNames[r.value] == l
    ensures r.None? ==> forall j :: k <= j < 12 ==> MonthNames[j] != l
    decreases 12 - k
  {
    if k == 12 then None
    else if MonthNames[k] == l then Some(k)
    else MonthIndex(l, k + 1)
  }

  /** A number below 100 as two digits, `f"{n:02d}"`. */
  function TwoDigits(n: nat): (r: string)
    requires n < 100
    ensures |r| == 2 && IsDigit(r[0]) && IsDigit(r[1])
    ensures DigitsValue(r) == n
  {
    ZeroFillValue(n, 2);
    ZeroFill(NatToString(n), 2)
  }

  /** `_month_to_number`: the month's two-digit number, `"01"` for an unknown name. */
  function MonthToNumber(name: string): (r: string)
    ensures |r| == 2 && IsDigit(r[0]) && IsDigit(r[1]) && AllDigits(r)
    ensures 1 <= DigitsValue(r) <= 12
  {
    match MonthIndex(LowerStr(name), 0)
    case Some(k) => TwoDigits(k + 1)
    case None => "01"
  }

  /** A name that is no month, in any case, falls back to January. */
  lemma UnknownMonthNumber(name: string)
    requires forall k :: 0 <= k < 12 ==> MonthNames[k] != LowerStr(name)
    ensures MonthToNumber(name) == "01"
  {
    assert MonthIndex(LowerStr(name), 0).None?;
  }

  const MonthAbbrevs: seq<string> := ["jan", "feb", "mar", "apr", "may", "jun", "jul", "aug", "sep", "oct", "nov", "dec"]

  /** Each month name starts with its three-letter abbreviation. */
  lemma MonthAbbrev(k: nat)
    requires k < 12
    ensures |MonthNames[k]| >= 3 && MonthNames[k][..3] == MonthAbbrevs[k]
    ensures IsAsciiLower(MonthNames[k][0])
  {
  }

  /** No two months share their abbreviation. */
  lemma AbbrevInjective(j: nat, k: nat)
    requires j < 12 && k < 12 && MonthAbbrevs[j] == MonthAbbrevs[k]
    ensures j == k
  {
  }

  /** Two months that both occur at one offset are the same month. */
  lemma MonthOccursOnce(l: string, i: nat, j: nat, k: nat)
    requires j < 12 && k < 12
    requires OccursAt(l, MonthNames[j], i) && OccursAt(l, MonthNames[k], i)
    ensures j == k
  {
    MonthAbbrev(j);
    MonthAbbrev(k);
    assert MonthNames[j][..3] == l[i..i + 3];
    assert MonthNames[k][..3] == l[i..i + 3];
    AbbrevInjective(j, k);
  }

  /** The month found at an offset is the month that is there. */
  lemma MonthAtIs(l: string, i: nat, k: nat)
    requires k < 12 && OccursAt(l, MonthNames[k], i)
    ensures MonthAt(l, i, 0) == Some(MonthMatch(k, i + |MonthNames[k]|))
  {
    MonthAtFinds(l, i, 0);
    MonthOccursOnce(l, i, MonthAt(l, i, 0).value.month, k);
  }

  /** Every month name, in any case, maps to its calendar number. */
  lemma MonthNumberOfName(name: string, k: nat)
    requires k < 12 && LowerStr(name) == MonthNames[k]
    ensures MonthToNumber(name) == TwoDigits(k + 1)
    ensures DigitsValue(MonthToNumber(name)) == k + 1
  {
    var r := MonthIndex(LowerStr(name), 0);
    MonthOccursOnce(LowerStr(name), 0, r.value, k);
  }

  datatype DatePattern = DayMonthYear | IsoDate | SlashDate

  /** `YYYY-MM-DD`: four digits, a dash, two digits, a dash, two digits. */
  predicate IsoShape(d: string)
  {
    |d| == 10 && d[4] == '-' && d[7] == '-'
    && forall k :: 0 <= k < 10 && k != 4 && k != 7 ==> IsDigit(d[k])
  }

  predicate AllDigits(s: string)
  {
    forall k :: 0 <= k < |s| ==> IsDigit(s[k])
  }

  /** `f"{year}-{month}-{day}"` for fields of four, two and two digits. */
  function IsoOf(year: string, month: string, day: string): (d: string)
    requires |year| == 4 && |month| == 2 && |day| == 2
    requires AllDigits(year) && AllDigits(month) && AllDigits(day)
    ensures IsoShape(d)
    ensures d[..4] == year && d[5..7] == month && d[8..] == day
  {
    year + "-" + month + "-" + day
  }

  /** `s.zfill(2)` on one or two digits. */
  function Pad2(s: string): (r: string)
    requires 1 <= |s| <= 2 && AllDigits(s)
    ensures |r| == 2 && AllDigits(r)
    ensures |s| == 2 ==> r == s
    ensures |s| == 1 ==> r == "0" + s
  {
    ZeroFill(s, 2)
  }

  /** `(\d{1,2})\s+(january|...|december)\s+(\d{4})` at offset `i`, ignoring case. */
  function DayMonthYearAt(s: string, i: nat): (r: Option<string>)
    requires i <= |s|
    ensures r.Some? ==> IsoShape(r.value)
  {
    var d := DigitRun(s, i, 2);
    var j := SkipSpaces(s, d);
    if d == i || j == d then None else MonthThenYear(s, i, d, j)
  }

  /** The rest of the day-month-year match once the day `s[i..d]` and the spaces up to `j` are found. */
  function MonthThenYear(s: string, i: nat, d: nat, j: nat): (r: Option<string>)
    requires i < d <= i + 2 && d <= j <= |s| && AllDigits(s[i..d])
    ensures r.Some? ==> IsoShape(r.value)
  {
    match MonthAt(LowerStr(s), j, 0)
    case None => None
    case Some(m) => YearAfterMonth(s, i, d, j, m.end)
  }

  /** The rest of the day-month-year match once the month `s[j..e]` is found too. */
  function YearAfterMonth(s: string, i: nat, d: nat, j: nat, e: nat): (r: Option<string>)
    requires i < d <= i + 2 && d <= j <= e <= |s| && AllDigits(s[i..d])
    ensures r.Some? ==> IsoShape(r.value)
  {
    var y := SkipSpaces(s, e);
    if y == e || DigitRun(s, y, 4) != y + 4 then None
    else Some(IsoOf(s[y..y + 4], MonthToNumber(s[j..e]), Pad2(s[i..d])))
  }

  /** `(\d{4})-(\d{1,2})-(\d{1,2})` at offset `i`. */
  function IsoDateAt(s: string, i: nat): (r: Option<string>)
    requires i <= |s|
    ensures r.Some? ==> IsoShape(r.value)
  {
    if DigitRun(s, i, 4) != i + 4 || i + 4 == |s| || s[i + 4] != '-' then None
    else
      var m := DigitRun(s, i + 5, 2);
      if m == i + 5 || m == |s| || s[m] != '-' then None
      else
        var d := DigitRun(s, m + 1, 2);
        if d == m + 1 then None
        else Some(IsoOf(s[i..i + 4], Pad2(s[i + 5..m]), Pad2(s[m + 1..d])))
  }

  /** `(\d{1,2})/(\d{1,2})/(\d{4})` at offset `i`, read as month/day/year. */
  function SlashDateAt(s: string, i: nat): (r: Option<string>)
    requires i <= |s|
    ensures r.Some? ==> IsoShape(r.value)
  {
    var a := DigitRun(s, i, 2);
    if a == i || a == |s| || s[a] != '/' then None
    else
      var b := DigitRun(s, a + 1, 2);
      if b == a + 1 || b == |s| || s[b] != '/' || DigitRun(s, b + 1, 4) != b + 5 then None
      else Some(IsoOf(s[b + 1..b + 5], Pad2(s[i..a]), Pad2(s[a + 1..b])))
  }

  /** The date pattern `p` matched at offset `i`, formatted as `YYYY-MM-DD`. */
  function DateAt(p: DatePattern, s: string, i: nat): (r: Option<string>)
    requires i <= |s|
    ensures r.Some? ==> IsoShape(r.value)
  {
    match p
    case DayMonthYear => DayMonthYearAt(s, i)
    case IsoDate => IsoDateAt(s, i)
    case SlashDate => SlashDateAt(s, i)
  }

  /** `re.search`: the leftmost offset at or after `i` where the pattern matches. */
  function FindDate(p: DatePattern, s: string, i: nat): (r: Option<nat>)
    requires i <= |s|
    ensures r.Some? ==> i <= r.value <= |s| && DateAt(p, s, r.value).Some?
    ensures r.Some? ==> forall k :: i <= k < r.value ==> DateAt(p, s, k).None?
    ensures r.None? ==> forall k :: i <= k <= |s| ==> DateAt(p, s, k).None?
    decreases |s| - i
  {
    if DateAt(p, s, i).Some? then Some(i)
    else if i == |s| then None
    else FindDate(p, s, i + 1)
  }

  /** The first pattern, in the order given, that matches somewhere, formatted. */
  function FirstDate(ps: seq<DatePattern>, s: string): (r: Option<string>)
    ensures r.Some? ==> IsoShape(r.value)
    ensures r.None? <==> forall k, i :: 0 <= k < |ps| && 0 <= i <= |s| ==> DateAt(ps[k], s, i).None?
  {
    if ps == [] then None
    else
      match FindDate(ps[0], s, 0)
      case Some(i) => DateAt(ps[0], s, i)
      case None => FirstDate(ps[1..], s)
  }

  /** `_try_parse_date`: day-month-year, then ISO, then month/day/year; the first that matches wins. */
  function TryParseDate(text: string): (r: Option<string>)
    ensures r.Some? ==> IsoShape(r.value)
    ensures r.None? <==> text == [] || forall p: DatePattern, i :: 0 <= i <= |text| ==> DateAt(p, text, i).None?
  {
    if text == [] then None
    else
      var r := FirstDate([DayMonthYear, IsoDate, SlashDate], text);
      assert r.None? ==> forall p: DatePattern, i :: 0 <= i <= |text| ==> DateAt(p, text, i).None? by {
        if r.None? {
          forall p: DatePattern, i | 0 <= i <= |text|
            ensures DateAt(p, text, i).None?
          {
            var k := if p.DayMonthYear? then 0 else if p.IsoDate? then 1 else 2;
            assert [DayMonthYear, IsoDate, SlashDate][k] == p;
          }
        }
      }
      r
  }

  /** No day-month-year date can start in a text without whitespace. */
  lemma NoDayMonthYear(s: string, i: nat)
    requires i <= |s|
    requires forall k :: 0 <= k < |s| ==> !IsSpace(s[k])
    ensures DayMonthYearAt(s, i).None?
  {
  }

  /** An ISO date is found at its start. */
  lemma IsoAtStart(d: string)
    requires IsoShape(d)
    ensures IsoDateAt(d, 0) == Some(d)
  {
    assert DigitRun(d, 0, 4) == 4;
    assert DigitRun(d, 5, 2) == 7;
    assert DigitRun(d, 8, 2) == 10;
    assert d == d[0..4] + "-" + d[5..7] + "-" + d[8..10];
  }

  /** On an ISO date no day-month-year date matches and the ISO pattern matches at once. */
  lemma FirstDateIso(d: string)
    requires IsoShape(d)
    ensures FirstDate([DayMonthYear, IsoDate, SlashDate], d) == Some(d)
  {
    forall i | 0 <= i <= |d| ensures DateAt(DayMonthYear, d, i).None? {
      forall k | 0 <= k < |d| ensures !IsSpace(d[k]) { }
      NoDayMonthYear(d, i);
    }
    IsoAtStart(d);
    assert FindDate(DayMonthYear, d, 0).None?;
    assert FindDate(IsoDate, d, 0) == Some(0);
    assert [DayMonthYear, IsoDate, SlashDate][1..] == [IsoDate, SlashDate];
  }

  /** Parsing is idempotent: a parsed date parses to itself. */
  lemma ParseDateIdempotent(text: string)
    requires TryParseDate(text).Some?
    ensures TryParseDate(TryParseDate(text).value) == TryParseDate(text)
  {
    var d := TryParseDate(text).value;
    FirstDateIso(d);
  }

  /** `_format_journal_date`: the parsed date with underscores, else the sanitised text. */
  function FormatJournalDate(text: string): (r: string)
    ensures r != []
    ensures TryParseDate(text).Some? ==> |r| == 10 && r[4] == '_' && r[7] == '_'
    ensures TryParseDate(text).Some? ==> forall k :: 0 <= k < 10 && k != 4 && k != 7 ==> IsDigit(r[k])
    ensures TryParseDate(text).None? ==> IsPageName(r)
  {
    match TryParseDate(text)
    case Some(d) => ReplaceChar(d, '-', '_')
    case None => SanitizePageName(text)
  }

  /** A month name starts with a letter. */
  lemma MonthStartsWithLetter(name: string, k: nat)
    requires k < 12 && LowerStr(name) == MonthNames[k]
    ensures |name| >= 3 && !IsSpace(name[0]) && !IsDigit(name[0])
  {
    MonthAbbrev(k);
    assert Lower(name[0]) == MonthNames[k][0];
  }

  /** `\d{1,max}` stops after `n` digits when the next character is not a digit. */
  lemma {:induction false} DigitRunIs(s: string, i: nat, n: nat, max: nat)
    requires i + n <= |s| && 1 <= n <= max
    requires forall j :: i <= j < i + n ==> IsDigit(s[j])
    requires n == max || i + n == |s| || !IsDigit(s[i + n])
    ensures DigitRun(s, i, max) == i + n
    decreases n
  {
    if n > 1 {
      DigitRunIs(s, i + 1, n - 1, max - 1);
    }
  }

  /**
   * A text that starts `D Month YYYY` (one or two day digits, the month in
   * any case) matches the day-month-year pattern with those three fields.
   */
  lemma DayMonthYearFields(s: string, d: nat, name: string, k: nat)
    requires 1 <= d <= 2 && d + |name| + 6 <= |s|
    requires forall j :: 0 <= j < d ==> IsDigit(s[j])
    requires s[d] == ' ' && s[d + 1..d + 1 + |name|] == name && s[d + 1 + |name|] == ' '
    requires forall j :: d + 2 + |name| <= j < d + 6 + |name| ==> IsDigit(s[j])
    requires k < 12 && LowerStr(name) == MonthNames[k]
    ensures DayMonthYearAt(s, 0) == Some(IsoOf(s[d + 2 + |name|..d + 6 + |name|], MonthToNumber(name), Pad2(s[..d])))
  {
    var e := d + 1 + |name|;
    YearAfter(s, e);
    DayMonthPrefix(s, d, name, k);
    var day := s[0..d];
    assert day == s[..d];
    DayMonthYearAtIs(s, 0, d, d + 1, k, e, e + 1);
  }

  /** The match at `i` once each of its fields has been located. */
  lemma DayMonthYearAtIs(s: string, i: nat, d: nat, j: nat, m: nat, e: nat, y: nat)
    requires i < d <= |s| && DigitRun(s, i, 2) == d
    requires d < j <= |s| && SkipSpaces(s, d) == j
    requires MonthAt(LowerStr(s), j, 0) == Some(MonthMatch(m, e))
    requires e < y <= |s| && SkipSpaces(s, e) == y
    requires DigitRun(s, y, 4) == y + 4
    ensures DayMonthYearAt(s, i) == Some(IsoOf(s[y..y + 4], MonthToNumber(s[j..e]), Pad2(s[i..d])))
  {
    DayThenMonth(s, i, d, j);
    MonthThenYearIs(s, i, d, j, m, e);
    YearAfterMonthIs(s, i, d, j, e, y);
  }

  lemma DayThenMonth(s: string, i: nat, d: nat, j: nat)
    requires i < d <= |s| && DigitRun(s, i, 2) == d
    requires d < j <= |s| && SkipSpaces(s, d) == j
    ensures DayMonthYearAt(s, i) == MonthThenYear(s, i, d, j)
  {
  }

  lemma MonthThenYearIs(s: string, i: nat, d: nat, j: nat, m: nat, e: nat)
    requires i < d <= i + 2 && d <= j <= |s| && AllDigits(s[i..d])
    requires MonthAt(LowerStr(s), j, 0) == Some(MonthMatch(m, e))
    ensures j <= e <= |s|
    ensures MonthThenYear(s, i, d, j) == YearAfterMonth(s, i, d, j, e)
  {
  }

  lemma YearAfterMonthIs(s: string, i: nat, d: nat, j: nat, e: nat, y: nat)
    requires i < d <= i + 2 && d <= j <= e <= |s| && AllDigits(s[i..d])
    requires e < y <= |s| && SkipSpaces(s, e) == y && DigitRun(s, y, 4) == y + 4
    ensures YearAfterMonth(s, i, d, j, e) == Some(IsoOf(s[y..y + 4], MonthToNumber(s[j..e]), Pad2(s[i..d])))
  {
  }

  /** The day digits, the spaces and the month of a `D Month` prefix are found where they are. */
  lemma DayMonthPrefix(s: string, d: nat, name: string, k: nat)
    requires 1 <= d <= 2 && d + |name| + 1 <= |s|
    requires forall j :: 0 <= j < d ==> IsDigit(s[j])
    requires s[d] == ' ' && s[d + 1..d + 1 + |name|] == name
    requires k < 12 && LowerStr(name) == MonthNames[k]
    ensures DigitRun(s, 0, 2) == d && SkipSpaces(s, d) == d + 1
    ensures MonthAt(LowerStr(s), d + 1, 0) == Some(MonthMatch(k, d + 1 + |name|))
  {
    MonthStartsWithLetter(name, k);
    DigitRunIs(s, 0, d, 2);
    assert s[d + 1] == name[0];
    MonthInText(s, d + 1, name, k);
  }

  /** A space then four digits after offset `e` are the year. */
  lemma YearAfter(s: string, e: nat)
    requires e + 5 <= |s| && s[e] == ' '
    requires forall j :: e + 1 <= j < e + 5 ==> IsDigit(s[j])
    ensures SkipSpaces(s, e) == e + 1 && DigitRun(s, e + 1, 4) == e + 5
  {
    assert !IsSpace(s[e + 1]);
    DigitRunIs(s, e + 1, 4, 4);
  }

  /** A month name, in any case, at offset `i` is found there. */
  lemma MonthInText(s: string, i: nat, name: string, k: nat)
    requires i + |name| <= |s| && s[i..i + |name|] == name
    requires k < 12 && LowerStr(name) == MonthNames[k]
    ensures MonthAt(LowerStr(s), i, 0) == Some(MonthMatch(k, i + |name|))
  {
    var l := LowerStr(s);
    assert l[i..i + |name|] == LowerStr(name) by {
      forall j | 0 <= j < |name| ensures l[i + j] == LowerStr(name)[j] {
        assert s[i + j] == name[j];
      }
    }
    MonthAtIs(l, i, k);
  }

  /** When a day-month-year date occurs, parsing takes the leftmost one. */
  lemma ParseTakesDayMonthYear(text: string)
    requires text != [] && FindDate(DayMonthYear, text, 0).Some?
    ensures TryParseDate(text) == DayMonthYearAt(text, FindDate(DayMonthYear, text, 0).value)
  {
  }

  lemma TwoDigitsSmall(n: nat)
    requires n < 10
    ensures TwoDigits(n) == ['0', DigitChar(n)]
  {
    assert NatToString(n) == [DigitChar(n)];
    assert Zeros(1) == "0";
  }

  /** `D Month YYYY` parses to `YYYY-MM-DD`, the month numbered by the calendar. */
  lemma DayMonthYearParses(day: string, name: string, k: nat, year: string)
    requires 1 <= |day| <= 2 && AllDigits(day)
    requires k < 12 && LowerStr(name) == MonthNames[k]
    requires |year| == 4 && AllDigits(year)
    ensures TryParseDate(day + " " + name + " " + year) == Some(IsoOf(year, MonthToNumber(name), Pad2(day)))
    ensures DigitsValue(MonthToNumber(name)) == k + 1
  {
    var s := day + " " + name + " " + year;
    DayMonthYearOf(day, name, k, year);
    assert DateAt(DayMonthYear, s, 0).Some?;
    ParseTakesDayMonthYear(s);
    MonthNumberOfName(name, k);
  }

  /** The match at the start of `D Month YYYY`. */
  lemma DayMonthYearOf(day: string, name: string, k: nat, year: string)
    requires 1 <= |day| <= 2 && AllDigits(day)
    requires k < 12 && LowerStr(name) == MonthNames[k]
    requires |year| == 4 && AllDigits(year)
    ensures DayMonthYearAt(day + " " + name + " " + year, 0) == Some(IsoOf(year, MonthToNumber(name), Pad2(day)))
  {
    var s := day + " " + name + " " + year;
    var d := |day|;
    var e := d + 1 + |name|;
    FieldSlices(day, name, year);
    assert s[e + 1..e + 5] == year;
    forall j | 0 <= j < d ensures IsDigit(s[j]) {
      assert s[j] == day[j];
    }
    forall j | e + 1 <= j < e + 5 ensures IsDigit(s[j]) {
      assert s[j] == year[j - e - 1];
    }
    DayMonthYearFields(s, d, name, k);
    var y, dd := s[d + 2 + |name|..d + 6 + |name|], s[..d];
    assert y == year && dd == day;
  }

  /** Where the fields of `D Month YYYY` sit. */
  lemma FieldSlices(day: string, name: string, year: string)
    ensures var s := day + " " + name + " " + year; var d := |day|; var e := d + 1 + |name|;
      |s| == e + 1 + |year| && s[..d] == day && s[d] == ' ' && s[d + 1..e] == name && s[e] == ' ' && s[e + 1..] == year
  {
  }

  lemma MarchFields(s: string)
    requires s == "15 March 2024"
    ensures DayMonthYearAt(s, 0) == Some(IsoOf("2024", MonthToNumber("March"), "15"))
  {
    assert LowerStr("March") == MonthNames[2];
    assert s == "15" + " " + "March" + " " + "2024";
    assert AllDigits("15") && AllDigits("2024");
    DayMonthYearOf("15", "March", 2, "2024");
    assert Pad2("15") == "15";
  }

  lemma MarchNumber()
    ensures MonthToNumber("March") == "03"
  {
    assert LowerStr("March") == MonthNames[2];
    MonthNumberOfName("March", 2);
    TwoDigitsSmall(3);
    assert DigitChar(3) == '3';
  }

  /** "15 March 2024" parses to `2024-03-15`. */
  lemma MarchExampleOf(s: string)
    requires s == "15 March 2024"
    ensures TryParseDate(s) == Some("2024-03-15")
  {
    MarchFound(s);
    ParseTakesDayMonthYear(s);
  }

  lemma MarchFound(s: string)
    requires s == "15 March 2024"
    ensures FindDate(DayMonthYear, s, 0) == Some(0)
    ensures DayMonthYearAt(s, 0) == Some("2024-03-15")
  {
    MarchFields(s);
    MarchNumber();
    MarchIso();
  }

  lemma MarchIso()
    ensures IsoOf("2024", "03", "15") == "2024-03-15"
  {
  }

  lemma UnderscoredOf(d: string)
    requires d == "2024-03-15"
    ensures ReplaceChar(d, '-', '_') == "2024_03_15"
  {
  }

  /** "15 March 2024" parses to `2024-03-15` and names the journal `2024_03_15`. */
  lemma MarchExample()
    ensures TryParseDate("15 March 2024") == Some("2024-03-15")
    ensures FormatJournalDate("15 March 2024") == "2024_03_15"
  {
    MarchExampleOf("15 March 2024");
    UnderscoredOf("2024-03-15");
  }

  /** The English ordinal suffix of a day of the month (`_try_parse_date_to_link`). */
  function OrdinalSuffix(day: int): (r: string)
    ensures r in {"st", "nd", "rd", "th"}
  {
    if 11 <= day <= 13 then "th"
    else if day % 10 == 1 then "st"
    else if day % 10 == 2 then "nd"
    else if day % 10 == 3 then "rd"
    else "th"
  }

  /** For the days of a month the suffix follows the English rule. */
  lemma OrdinalSuffixDays(day: int)
    requires 1 <= day <= 31
    ensures OrdinalSuffix(day) == "st" <==> day in {1, 21, 31}
    ensures OrdinalSuffix(day) == "nd" <==> day in {2, 22}
    ensures OrdinalSuffix(day) == "rd" <==> day in {3, 23}
  {
  }

  // ---------------------------------------------------------------------------
  // Task items

  datatype TaskState = Todo | Done

  /** Where `$` can match: before a final newline, else at the end. */
  function LineEnd(s: string): (t: nat)
    ensures t <= |s|
    ensures t == |s| || (t == |s| - 1 && s[t] == '\n')
    ensures t == |s| ==> s == [] || s[|s| - 1] != '\n'
  {
    if s != [] && s[|s| - 1] == '\n' then |s| - 1 else |s|
  }

  /**
   * `\s*(.+)$` from offset `q`: the captured group. The greedy `\s*` gives
   * back characters only when nothing is left after it; `.` stops at a newline.
   */
  function RestOfLine(s: string, q: nat): (r: Option<string>)
    requires q <= |s|
    ensures r.Some? ==> r.value != [] && '\n' !in r.value
  {
    var k := SkipSpaces(s, q);
    var t := LineEnd(s);
    if k < t then (if '\n' in s[k..t] then None else Some(s[k..t]))
    else if q < t && s[t - 1] != '\n' then Some(s[t - 1..t])
    else None
  }

  /** After optional whitespace, the rest of a one-line text is captured whole. */
  lemma RestOfLineIs(pre: string, sp: string, x: string)
    requires IsBlank(sp) && x != [] && !IsSpace(x[0]) && '\n' !in x
    ensures RestOfLine(pre + sp + x, |pre|) == Some(x)
  {
    var s := pre + sp + x;
    var k := |pre| + |sp|;
    assert s[k] == x[0];
    forall j | |pre| <= j < k ensures IsSpace(s[j]) { assert s[j] == sp[j - |pre|]; }
    assert SkipSpaces(s, |pre|) == k;
    assert s[|s| - 1] == x[|x| - 1];
    assert s[k..|s|] == x;
  }

  /** `^\s*\[([ xX])\]\s*(.+)$`: a checkbox item. */
  function Checkbox(s: string): (r: Option<(TaskState, string)>)
    ensures r.Some? ==> r.value.1 != [] && '\n' !in r.value.1
  {
    var q := SkipSpaces(s, 0);
    if q + 3 <= |s| && s[q] == '[' && s[q + 1] in {' ', 'x', 'X'} && s[q + 2] == ']' then
      match RestOfLine(s, q + 3)
      case Some(x) => Some((if s[q + 1] == ' ' then Todo else Done, x))
      case None => None
    else None
  }

  const TaskWords: set<string> := {"TODO", "DONE", "TASK"}

  /** A task keyword, in any case, at offset `i`. */
  predicate KeywordAt(s: string, i: nat)
  {
    i + 4 <= |s| && UpperStr(s[i..i + 4]) in TaskWords
  }

  /** `^\s*(?:[-*]\s*)?(TODO|DONE|TASK):?\s*(.+)$`, ignoring case. */
  function TaskPrefix(s: string): (r: Option<(TaskState, string)>)
    ensures r.Some? ==> r.value.1 != [] && '\n' !in r.value.1
  {
    var q := KeywordStart(s);
    if !KeywordAt(s, q) then None
    else
      var state := if UpperStr(s[q..q + 4]) == "DONE" then Done else Todo;
      match AfterKeyword(s, q)
      case Some(x) => Some((state, x))
      case None => None
  }

  /** `^\s*(?:[-*]\s*)?`: where the keyword would start. */
  function KeywordStart(s: string): (q: nat)
    ensures q <= |s|
  {
    var q0 := SkipSpaces(s, 0);
    if q0 < |s| && s[q0] in {'-', '*'} then SkipSpaces(s, q0 + 1) else q0
  }

  /** `:?\s*(.+)$` after a keyword at `q`: the colon is taken when the rest still matches with it. */
  function AfterKeyword(s: string, q: nat): (r: Option<string>)
    requires q + 4 <= |s|
    ensures r.Some? ==> r.value != [] && '\n' !in r.value
  {
    var withColon := if q + 4 < |s| && s[q + 4] == ':' then RestOfLine(s, q + 5) else None;
    if withColon.Some? then withColon else RestOfLine(s, q + 4)
  }

  /** `_parse_task_item`: checkbox first, then a keyword prefix, else a TODO holding the whole text. */
  function ParseTaskItem(text: string): (r: (TaskState, string))
    ensures Checkbox(text).Some? ==> r == Checkbox(text).value
    ensures Checkbox(text).None? && TaskPrefix(text).Some? ==> r == TaskPrefix(text).value
    ensures Checkbox(text).None? && TaskPrefix(text).None? ==> r == (Todo, text)
  {
    match Checkbox(text)
    case Some(c) => c
    case None =>
      match TaskPrefix(text)
      case Some(c) => c
      case None => (Todo, text)
  }

  /** `^\s*(TODO|DONE|TASK):?\s` from offset `i`: a keyword followed by an optional colon and whitespace. */
  predicate KeywordThenSpace(s: string, i: nat)
  {
    && KeywordAt(s, i)
    && ((i + 5 < |s| && s[i + 4] == ':' && IsSpace(s[i + 5])) || (i + 4 < |s| && IsSpace(s[i + 4])))
  }

  /** `_is_task_item`: a checkbox, a keyword, or a list marker and a keyword, at the start. */
  function IsTaskItem(text: string): (b: bool)
    ensures Checkbox(text).Some? ==> b
  {
    var q := SkipSpaces(text, 0);
    || (q + 3 <= |text| && text[q] == '[' && text[q + 1] in {' ', 'x', 'X'} && text[q + 2] == ']')
    || KeywordThenSpace(text, q)
    || (q < |text| && text[q] in {'-', '*'} && KeywordThenSpace(text, SkipSpaces(text, q + 1)))
  }

  /** `^\s*` ahead of offset `q`, counted from `a`: everything in between is whitespace. */
  predicate BlankUpTo(s: string, a: nat, q: nat)
  {
    a <= q <= |s| && forall j :: a <= j < q ==> IsSpace(s[j])
  }

  /** `\[[ xX]\]` at offset `q`. */
  predicate CheckboxOpen(s: string, q: nat)
  {
    q + 3 <= |s| && s[q] == '[' && s[q + 1] in {' ', 'x', 'X'} && s[q + 2] == ']'
  }

  /** `[-*]\s*(TODO|DONE|TASK):?\s` at offset `q`. */
  predicate MarkerKeyword(s: string, q: nat)
  {
    q < |s| && s[q] in {'-', '*'} && exists r: nat :: q < r <= |s| && BlankUpTo(s, q + 1, r) && KeywordThenSpace(s, r)
  }

  /**
   * The three patterns of `_is_task_item`, each behind `^\s*`: a text is a
   * task item exactly when after some whitespace it opens with a checkbox,
   * with a keyword and a space, or with a list marker and such a keyword.
   */
  lemma IsTaskItemMatches(text: string)
    ensures IsTaskItem(text) <==>
      exists q: nat :: BlankUpTo(text, 0, q) && (CheckboxOpen(text, q) || KeywordThenSpace(text, q) || MarkerKeyword(text, q))
  {
    var q0 := SkipSpaces(text, 0);
    if IsTaskItem(text) {
      assert BlankUpTo(text, 0, q0);
      if q0 < |text| && text[q0] in {'-', '*'} && KeywordThenSpace(text, SkipSpaces(text, q0 + 1)) {
        assert BlankUpTo(text, q0 + 1, SkipSpaces(text, q0 + 1));
      }
    }
    if exists q: nat :: BlankUpTo(text, 0, q) && (CheckboxOpen(text, q) || KeywordThenSpace(text, q) || MarkerKeyword(text, q)) {
      var q: nat :| BlankUpTo(text, 0, q) && (CheckboxOpen(text, q) || KeywordThenSpace(text, q) || MarkerKeyword(text, q));
      PatternOpensNonSpace(text, q);
      FirstNonSpace(text, 0, q);
      if MarkerKeyword(text, q) && !CheckboxOpen(text, q) && !KeywordThenSpace(text, q) {
        var r: nat :| q < r <= |text| && BlankUpTo(text, q + 1, r) && KeywordThenSpace(text, r);
        KeywordNonSpace(text, r);
        FirstNonSpace(text, q + 1, r);
      }
    }
  }

  /** Each pattern opens with a character that is not whitespace. */
  lemma PatternOpensNonSpace(s: string, q: nat)
    requires CheckboxOpen(s, q) || KeywordThenSpace(s, q) || MarkerKeyword(s, q)
    ensures q < |s| && !IsSpace(s[q])
  {
    if KeywordThenSpace(s, q) {
      KeywordNonSpace(s, q);
    }
  }

  /** A task keyword opens with a letter. */
  lemma KeywordNonSpace(s: string, q: nat)
    requires KeywordAt(s, q)
    ensures q < |s| && !IsSpace(s[q])
  {
    var w := UpperStr(s[q..q + 4]);
    assert w[0] == Upper(s[q]);
    assert w[0] in {'T', 'D'};
  }

  /** Whitespace from `a` up to a non-space character at `q` means `q` is where skipping stops. */
  lemma FirstNonSpace(s: string, a: nat, q: nat)
    requires BlankUpTo(s, a, q) && q < |s| && !IsSpace(s[q])
    ensures SkipSpaces(s, a) == q
  {
  }

  /**
   * `_parse_task_item`'s text is the input itself, or a tail of its one line
   * (up to a final newline): the markers are dropped and nothing is added.
   */
  lemma ParseTaskItemTail(text: string)
    ensures var x := ParseTaskItem(text).1;
      x == text || exists a :: 0 <= a < LineEnd(text) && x == text[a..LineEnd(text)]
  {
    match Checkbox(text)
    case Some(c) =>
      var a := RestOfLineTail(text, SkipSpaces(text, 0) + 3);
      assert c.1 == text[a..LineEnd(text)];
    case None =>
      match TaskPrefix(text)
      case Some(c) =>
        var a := TaskPrefixTail(text);
        assert c.1 == text[a..LineEnd(text)];
      case None =>
  }

  /** What `\s*(.+)$` captures is a tail of the line, starting at `a`. */
  lemma RestOfLineTail(s: string, q: nat) returns (a: nat)
    requires q <= |s|
    ensures RestOfLine(s, q).Some? ==> q <= a < LineEnd(s) && RestOfLine(s, q).value == s[a..LineEnd(s)]
  {
    var k := SkipSpaces(s, q);
    var t := LineEnd(s);
    a := if k < t || t == 0 then k else t - 1;
  }

  lemma TaskPrefixTail(s: string) returns (a: nat)
    requires TaskPrefix(s).Some?
    ensures a < LineEnd(s) && TaskPrefix(s).value.1 == s[a..LineEnd(s)]
  {
    var q := KeywordStart(s);
    var p := if q + 4 < |s| && s[q + 4] == ':' && RestOfLine(s, q + 5).Some? then q + 5 else q + 4;
    assert AfterKeyword(s, q) == RestOfLine(s, p);
    a := RestOfLineTail(s, p);
  }

  /** The keyword Logseq writes for a state. */
  function StateWord(st: TaskState): (w: string)
    ensures w in TaskWords && |w| == 4
  {
    match st
    case Todo => "TODO"
    case Done => "DONE"
  }

  /** The rendered task `TODO x` / `DONE x` is a task item and parses back to its state and text. */
  lemma TaskRoundTrip(st: TaskState, x: string)
    requires x != [] && !IsSpace(x[0]) && '\n' !in x
    ensures IsTaskItem(StateWord(st) + " " + x)
    ensures ParseTaskItem(StateWord(st) + " " + x) == (st, x)
  {
    var w := StateWord(st);
    var s := w + " " + x;
    assert s[..4] == w && s[4] == ' ';
    assert SkipSpaces(s, 0) == 0;
    assert UpperStr(s[0..4]) == w;
    assert s == w + " " + x;
    RestOfLineIs(w, " ", x);
    assert Checkbox(s).None?;
  }

  /** A keyword, a colon, a space and text: "TODO: Buy milk" gives (TODO, "Buy milk"). */
  lemma KeywordColonItem(w: string, x: string)
    requires |w| == 4 && UpperStr(w) in TaskWords
    requires x != [] && !IsSpace(x[0]) && '\n' !in x
    ensures ParseTaskItem(w + ": " + x) == (if UpperStr(w) == "DONE" then Done else Todo, x)
  {
    var s := w + ": " + x;
    assert w[0] != '[' && w[0] != '-' && w[0] != '*' && !IsSpace(w[0]) by {
      assert UpperStr(w)[0] in {'T', 'D'};
    }
    assert s[0] == w[0];
    assert SkipSpaces(s, 0) == 0;
    assert s[0..4] == w;
    assert s[4] == ':';
    assert s == (w + ":") + " " + x;
    RestOfLineIs(w + ":", " ", x);
  }

  lemma BuyMilkExample()
    ensures ParseTaskItem("TODO: Buy milk") == (Todo, "Buy milk")
  {
    assert UpperStr("TODO") == "TODO";
    assert "TODO: Buy milk" == "TODO" + ": " + "Buy milk";
    KeywordColonItem("TODO", "Buy milk");
  }

  /** A checkbox with text: `[x]`/`[X]` is done and `[ ]` is to do. */
  lemma CheckboxItem(m: char, x: string)
    requires m in {' ', 'x', 'X'}
    requires x != [] && !IsSpace(x[0]) && '\n' !in x
    ensures ParseTaskItem("[" + [m] + "] " + x) == (if m == ' ' then Todo else Done, x)
  {
    var s := "[" + [m] + "] " + x;
    assert SkipSpaces(s, 0) == 0;
    assert s == ("[" + [m] + "]") + " " + x;
    RestOfLineIs("[" + [m] + "]", " ", x);
  }

  // ---------------------------------------------------------------------------
  // Priority

  const UrgentWords: seq<string> := ["urgent", "critical", "high priority", "asap"]
  const ImportantWords: seq<string> := ["important", "medium priority"]

  /** `\bw\b` at offset `i`. */
  predicate WordAt(l: string, w: string, i: nat)
  {
    && OccursAt(l, w, i)
    && (i == 0 || !IsWordChar(l[i - 1]))
    && (i + |w| == |l| || !IsWordChar(l[i + |w|]))
  }

  /** `\bw\b` occurs at or after `i`. */
  function FindWord(l: string, w: string, i: nat): (b: bool)
    requires i <= |l|
    ensures b <==> exists j :: i <= j <= |l| && WordAt(l, w, j)
    decreases |l| - i
  {
    if WordAt(l, w, i) then true
    else if i == |l| then false
    else FindWord(l, w, i + 1)
  }

  /** Some word of `ws` occurs between word boundaries. */
  function AnyWord(l: string, ws: seq<string>): (b: bool)
    ensures b <==> exists k, j :: 0 <= k < |ws| && 0 <= j <= |l| && WordAt(l, ws[k], j)
  {
    if ws == [] then false
    else
      var first := FindWord(l, ws[0], 0);
      var others := AnyWord(l, ws[1..]);
      assert others ==> exists k, j :: 0 <= k < |ws| && 0 <= j <= |l| && WordAt(l, ws[k], j) by {
        if others {
          var k, j :| 0 <= k < |ws[1..]| && 0 <= j <= |l| && WordAt(l, ws[1..][k], j);
          assert WordAt(l, ws[k + 1], j);
        }
      }
      assert (exists k, j :: 0 <= k < |ws| && 0 <= j <= |l| && WordAt(l, ws[k], j)) ==> first || others by {
        if exists k, j :: 0 <= k < |ws| && 0 <= j <= |l| && WordAt(l, ws[k], j) {
          var k, j :| 0 <= k < |ws| && 0 <= j <= |l| && WordAt(l, ws[k], j);
          if k > 0 {
            assert WordAt(l, ws[1..][k - 1], j);
          }
        }
      }
      first || others
  }

  /** `_detect_priority`: A for an urgent word, else B for an important word, else C. */
  function DetectPriority(text: string): (r: char)
    ensures r == 'A' <==> AnyWord(LowerStr(text), UrgentWords)
    ensures r == 'B' <==> !AnyWord(LowerStr(text), UrgentWords) && AnyWord(LowerStr(text), ImportantWords)
    ensures r == 'C' <==> !AnyWord(LowerStr(text), UrgentWords) && !AnyWord(LowerStr(text), ImportantWords)
  {
    var l := LowerStr(text);
    if AnyWord(l, UrgentWords) then 'A'
    else if AnyWord(l, ImportantWords) then 'B'
    else 'C'
  }

  /** The priority ignores case. */
  lemma PriorityIgnoresCase(text: string)
    ensures DetectPriority(UpperStr(text)) == DetectPriority(text)
  {
    LowerUpper(text);
  }

  /** An urgent word standing alone makes the priority A, whatever else the text says. */
  lemma UrgentWins(pre: string, k: nat, post: string)
    requires k < |UrgentWords|
    requires pre == [] || !IsWordChar(Lower(pre[|pre| - 1]))
    requires post == [] || !IsWordChar(Lower(post[0]))
    ensures DetectPriority(pre + UrgentWords[k] + post) == 'A'
  {
    var w := UrgentWords[k];
    var s := pre + w + post;
    var l := LowerStr(s);
    assert LowerStr(w) == w by {
      forall i | 0 <= i < |w| ensures Lower(w[i]) == w[i] { }
    }
    assert l[|pre|..|pre| + |w|] == w by {
      forall i | 0 <= i < |w| ensures l[|pre| + i] == w[i] {
        assert s[|pre| + i] == w[i];
      }
    }
    if pre != [] {
      assert l[|pre| - 1] == Lower(pre[|pre| - 1]);
    }
    if post != [] {
      assert s[|pre| + |w|] == post[0];
    }
    assert WordAt(l, UrgentWords[k], |pre|);
  }

  // ---------------------------------------------------------------------------
  // Block references

  /** `_generate_block_reference`: `#^` and the first eight hex digits of the id's digest. */
  function BlockReference(objectId: string): (r: string)
    ensures |r| == 10 && r[..2] == "#^"
    ensures r[2..] == Md5Hex(objectId)[..8]
    ensures forall i :: 2 <= i < 10 ==> IsLowerHex(r[i])
  {
    "#^" + Md5Hex(objectId)[..8]
  }
}
