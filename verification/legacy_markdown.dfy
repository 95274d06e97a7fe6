/**
 * The first markdown writer, `MarkdownConverter`
 * (`src/converters/markdown_converter.py`): file names, pipe tables, text
 * cleanup, the small html converter, the rendering of parsed outline
 * elements and the table of image files a page's images are saved under.
 */
module LegacyMarkdown {

  import opened Wrappers
  import opened Strings
  import HtmlMarkdown
  import TableGrid
  import OneNoteXml

  // ---------------------------------------------------------------------------
  // File names

  /** The characters `[<>:"/\\|?*]` that a file name may not hold. */
  const InvalidChars: set<char> := {'<', '>', ':', '"', '/', '\\', '|', '?', '*'}

  /** The characters `strip('. ')` removes from both ends. */
  const EndChars: set<char> := {'.', ' '}

  const MaxNameLength: nat := 50

  /** Every invalid character becomes `-`; the others stay in place. */
  function ReplaceInvalid(s: string): (r: string)
    ensures |r| == |s|
    ensures forall i :: 0 <= i < |s| ==> r[i] == (if s[i] in InvalidChars then '-' else s[i])
  {
    seq(|s|, i requires 0 <= i < |s| => if s[i] in InvalidChars then '-' else s[i])
  }

  /** What a sanitized name looks like: short, non-empty, free of invalid characters and of dots or spaces at its ends. */
  predicate IsFileName(r: string)
  {
    r != [] && |r| <= MaxNameLength && NoInvalid(r) && r[0] !in EndChars && r[|r| - 1] !in EndChars
  }

  predicate NoInvalid(s: string)
  {
    forall i :: 0 <= i < |s| ==> s[i] !in InvalidChars
  }

  lemma ReplacedNoInvalid(s: string)
    ensures NoInvalid(ReplaceInvalid(s))
  {
  }

  /** A slice of a text without invalid characters has none either. */
  lemma SliceNoInvalid(s: string, t: string, a: nat)
    requires NoInvalid(s) && SliceAt(s, t, a)
    ensures NoInvalid(t)
  {
    forall i | 0 <= i < |t| ensures t[i] !in InvalidChars {
      assert t[i] == s[a + i];
    }
  }

  /** `_sanitize_filename`: replace, cut to 50 characters, strip dots and spaces, or `untitled`. */
  function SanitizeFilename(name: string): (r: string)
    ensures IsFileName(r)
  {
    var replaced := ReplaceInvalid(name);
    var cut := if |replaced| <= MaxNameLength then replaced else replaced[..MaxNameLength];
    var stripped := StripChars(cut, EndChars);
    if stripped == [] then
      UntitledIsFileName();
      "untitled"
    else
      ReplacedNoInvalid(name);
      SliceNoInvalid(replaced, cut, 0);
      StripNoInvalid(cut);
      stripped
  }

  /** Stripping the end characters brings in no invalid character. */
  lemma StripNoInvalid(cut: string)
    requires NoInvalid(cut)
    ensures NoInvalid(StripChars(cut, EndChars))
  {
    var stripped := StripChars(cut, EndChars);
    var a := StripCharsAt(cut, EndChars);
    SliceNoInvalid(cut, stripped, a);
  }

  lemma UntitledIsFileName()
    ensures IsFileName("untitled")
  {
    var u := "untitled";
    forall i | 0 <= i < |u| ensures u[i] !in InvalidChars {
      assert u[i] in {'u', 'n', 't', 'i', 'l', 'e', 'd'};
    }
  }

  /** A name that already has the shape of a sanitized one is kept as it is. */
  lemma SanitizeFixed(name: string)
    requires IsFileName(name)
    ensures SanitizeFilename(name) == name
  {
    assert ReplaceInvalid(name) == name;
    StripCharsIdentity(name, EndChars);
  }

  /** Sanitizing twice is sanitizing once. */
  lemma SanitizeIdempotent(name: string)
    ensures SanitizeFilename(SanitizeFilename(name)) == SanitizeFilename(name)
  {
    SanitizeFixed(SanitizeFilename(name));
  }

  /**
   * A short name whose ends are not dots or spaces loses nothing: each
   * invalid character becomes `-` in place and everything else is kept.
   */
  lemma SanitizeReplaces(name: string)
    requires name != [] && |name| <= MaxNameLength
    requires name[0] !in EndChars && name[|name| - 1] !in EndChars
    ensures SanitizeFilename(name) == ReplaceInvalid(name)
  {
    StripCharsIdentity(ReplaceInvalid(name), EndChars);
  }

  // ---------------------------------------------------------------------------
  // Tables

  /** A data row padded with empty cells, then cut, to `width` cells. */
  function Fit(row: seq<string>, width: nat): (r: seq<string>)
    ensures |r| == width
    ensures forall j :: 0 <= j < width && j < |row| ==> r[j] == row[j]
    ensures forall j :: |row| <= j < width ==> r[j] == ""
  {
    seq(width, j requires 0 <= j < width => if j < |row| then row[j] else "")
  }

  /** `"|" + "|".join([" --- "] * width) + "|"`. */
  function SeparatorLine(width: nat): string
  {
    "|" + Join(Dashes(width), "|") + "|"
  }

  /** `[" --- "] * width`. */
  function Dashes(width: nat): (r: seq<string>)
    ensures |r| == width && forall k :: 0 <= k < width ==> r[k] == " --- "
  {
    seq(width, _ => " --- ")
  }

  /** The lines `_convert_table` joins: a lone newline, the header, the separator, the rows and an empty line. */
  function TableLines(data: seq<seq<string>>): (r: seq<string>)
    requires data != []
    ensures |r| == |data| + 3
    ensures r[0] == "\n" && r[1] == TableGrid.PipeRow(data[0]) && r[2] == SeparatorLine(|data[0]|) && r[|r| - 1] == ""
    ensures forall k :: 1 <= k < |data| ==> r[k + 2] == TableGrid.PipeRow(Fit(data[k], |data[0]|))
  {
    var width := |data[0]|;
    ["\n", TableGrid.PipeRow(data[0]), SeparatorLine(width)]
    + seq(|data| - 1, k requires 0 <= k < |data| - 1 => TableGrid.PipeRow(Fit(data[k + 1], width)))
    + [""]
  }

  /** `_convert_table`: nothing for no data, the joined lines otherwise. */
  function ConvertTable(data: seq<seq<string>>): (r: string)
    ensures r == [] <==> data == []
  {
    if data == [] then []
    else
      var lines := TableLines(data);
      assert Join(lines, "\n") == lines[0] + "\n" + Join(lines[1..], "\n");
      Join(lines, "\n")
  }

  /** The separator has one ` --- ` per header cell: a pipe on each side of each. */
  lemma SeparatorPipes(width: nat)
    requires width > 0
    ensures Count(SeparatorLine(width), '|') == width + 1
  {
    var dashes := Dashes(width);
    var bar := "|";
    var inner := Join(dashes, bar);
    assert SeparatorLine(width) == bar + inner + bar;
    DashesPipeFree(width);
    JoinCount(dashes, bar, '|');
    BarCount();
    CountConcat(bar + inner, bar, '|');
    CountConcat(bar, inner, '|');
  }

  lemma BarCount()
    ensures Count("|", '|') == 1
  {
  }

  lemma DashesPipeFree(width: nat)
    ensures forall k :: 0 <= k < width ==> '|' !in Dashes(width)[k]
  {
    assert '|' !in " --- " by {
      var d := " --- ";
      forall i | 0 <= i < |d| ensures d[i] != '|' { }
    }
  }

  /**
   * With pipe-free cells and a non-empty header, every line between the
   * opening newline and the closing empty line has exactly one column per
   * header cell, however long its row was.
   */
  lemma TableColumns(data: seq<seq<string>>)
    requires data != [] && data[0] != []
    requires forall k, j :: 0 <= k < |data| && 0 <= j < |data[k]| ==> '|' !in data[k][j]
    ensures var lines := TableLines(data);
      forall k :: 1 <= k < |lines| - 1 ==> Count(lines[k], '|') == |data[0]| + 1
  {
    var lines := TableLines(data);
    var width := |data[0]|;
    forall k | 1 <= k < |lines| - 1
      ensures Count(lines[k], '|') == width + 1
    {
      if k == 1 {
        TableGrid.RowPipes(data[0]);
      } else if k == 2 {
        SeparatorPipes(width);
      } else {
        FitPipes(data[k - 2], width);
      }
    }
  }

  lemma FitPipes(row: seq<string>, width: nat)
    requires width > 0
    requires forall j :: 0 <= j < |row| ==> '|' !in row[j]
    ensures Count(TableGrid.PipeRow(Fit(row, width)), '|') == width + 1
  {
    var cells := Fit(row, width);
    assert forall j :: 0 <= j < |cells| ==> '|' !in cells[j] by {
      forall j | 0 <= j < |cells| ensures '|' !in cells[j] {
        if j >= |row| { assert cells[j] == ""; }
      }
    }
    TableGrid.RowPipes(cells);
  }

  /** No line break is in a pipe-table line of cells without one. */
  lemma PipeRowOneLine(cells: seq<string>)
    requires forall j :: 0 <= j < |cells| ==> '\n' !in cells[j]
    ensures '\n' !in TableGrid.PipeRow(cells)
  {
    JoinChars(cells, " | ", x => x != '\n');
  }

  /**
   * The rendered table reads back line by line: it opens with a blank line
   * (the lone newline item), then the header, separator and rows, then the
   * closing empty line.
   */
  lemma TableSplits(data: seq<seq<string>>)
    requires data != []
    requires forall k, j :: 0 <= k < |data| && 0 <= j < |data[k]| ==> '\n' !in data[k][j]
    ensures Split(ConvertTable(data), '\n') == [""] + [""] + TableLines(data)[1..]
  {
    var lines := TableLines(data);
    var rest := lines[1..];
    var parts := [""] + [""] + rest;
    forall k | 0 <= k < |rest|
      ensures '\n' !in rest[k]
    {
      if k == 0 {
        PipeRowOneLine(data[0]);
      } else if k == 1 {
        JoinChars(Dashes(|data[0]|), "|", x => x != '\n');
      } else if k < |rest| - 1 {
        var fit := Fit(data[k - 1], |data[0]|);
        assert forall j :: 0 <= j < |fit| ==> '\n' !in fit[j] by {
          forall j | 0 <= j < |fit| ensures '\n' !in fit[j] {
            if j >= |data[k - 1]| { assert fit[j] == ""; }
          }
        }
        PipeRowOneLine(fit);
      }
    }
    assert Join(lines, "\n") == "\n" + "\n" + Join(rest, "\n");
    assert Join(parts, "\n") == "" + "\n" + Join([""] + rest, "\n");
    assert ([""] + rest)[1..] == rest;
    assert Join([""] + rest, "\n") == "" + "\n" + Join(rest, "\n");
    assert Join(parts, "\n") == Join(lines, "\n");
    SplitJoin(parts, '\n');
  }

  // ---------------------------------------------------------------------------
  // Text cleanup

  const Nbsp: char := '\U{00A0}'

  /** `re.sub(r'\n{3,}', '\n\n', s)`: a run of three or more newlines becomes two. */
  function CollapseNewlines(s: string): (r: string)
    ensures forall x :: x in r ==> x in s
    decreases |s|
  {
    if s == [] then []
    else if s[0] == '\n' then
      var j := SkipChars(s, {'\n'}, 0);
      var run := if j >= 3 then "\n\n" else s[..j];
      assert forall x :: x in run ==> x in s by {
        assert s[0] == '\n';
      }
      run + CollapseNewlines(s[j..])
    else [s[0]] + CollapseNewlines(s[1..])
  }

  /** Only whitespace is touched by collapsing newline runs. */
  lemma {:induction false} CollapseNewlinesKeepText(s: string)
    ensures NonSpace(CollapseNewlines(s)) == NonSpace(s)
    decreases |s|
  {
    if s != [] {
      if s[0] == '\n' {
        var j := SkipChars(s, {'\n'}, 0);
        var run := if j >= 3 then "\n\n" else s[..j];
        assert IsBlank(s[..j]) by {
          forall i | 0 <= i < j ensures IsSpace(s[..j][i]) { assert s[i] == '\n'; }
        }
        assert IsBlank(run);
        CollapseNewlinesKeepText(s[j..]);
        NonSpaceSkipsBlank(s, j);
        NonSpaceConcat(run, CollapseNewlines(s[j..]));
        BlankNonSpace(run);
      } else {
        CollapseNewlinesKeepText(s[1..]);
        NonSpaceConcat([s[0]], CollapseNewlines(s[1..]));
        assert s == [s[0]] + s[1..];
        NonSpaceConcat([s[0]], s[1..]);
      }
    }
  }

  /** Turning one whitespace character into another keeps the text. */
  lemma {:induction false} ReplaceSpaceKeepsText(s: string, a: char, b: char)
    requires IsSpace(a) && IsSpace(b)
    ensures NonSpace(ReplaceChar(s, a, b)) == NonSpace(s)
    decreases |s|
  {
    if s != [] {
      var r := ReplaceChar(s, a, b);
      ReplaceSpaceKeepsText(s[1..], a, b);
      assert r[1..] == ReplaceChar(s[1..], a, b);
    }
  }

  /** The lines kept by `_clean_text`: each one stripped, the empty ones dropped. */
  function CleanLines(parts: seq<string>): (r: seq<string>)
    ensures forall k :: 0 <= k < |r| ==> r[k] != [] && IsStripped(r[k])
    ensures forall k, x :: 0 <= k < |r| && x in r[k] ==> exists m :: 0 <= m < |parts| && x in parts[m]
    decreases |parts|
  {
    if parts == [] then []
    else
      var t := Strip(parts[0]);
      StripFromText(parts[0]);
      var rest := CleanLines(parts[1..]);
      assert forall k, x :: 0 <= k < |rest| && x in rest[k] ==> exists m :: 0 <= m < |parts| && x in parts[m] by {
        forall k, x | 0 <= k < |rest| && x in rest[k] ensures exists m :: 0 <= m < |parts| && x in parts[m] {
          var m :| 0 <= m < |parts[1..]| && x in parts[1..][m];
          assert x in parts[m + 1];
        }
      }
      (if t == [] then [] else [t]) + rest
  }

  /** The text `_clean_text` splits into lines: newline runs cut, space runs collapsed, no-break spaces made plain. */
  function CleanSource(text: string): (u: string)
    ensures Nbsp !in u
  {
    ReplaceChar(CollapseRuns(CollapseNewlines(text), ' '), Nbsp, ' ')
  }

  /** `_clean_text`. */
  function CleanText(text: string): string
  {
    Join(CleanLines(Split(CleanSource(text), '\n')), "\n")
  }

  /**
   * The cleaned text is made of non-empty lines without whitespace at
   * either end and without no-break spaces.
   */
  lemma CleanTextLines(text: string)
    ensures var lines := Split(CleanText(text), '\n');
      CleanText(text) == [] ||
      forall k :: 0 <= k < |lines| ==> lines[k] != [] && IsStripped(lines[k]) && Nbsp !in lines[k]
  {
    var parts := Split(CleanSource(text), '\n');
    var lines := CleanLines(parts);
    forall k | 0 <= k < |lines|
      ensures '\n' !in lines[k] && Nbsp !in lines[k]
    {
      forall x | x in lines[k] ensures x != '\n' && x != Nbsp {
        var m :| 0 <= m < |parts| && x in parts[m];
      }
    }
    if lines != [] {
      SplitJoin(lines, '\n');
    }
  }

  /** The non-whitespace characters of the pieces, in order. */
  function NonSpaceAll(parts: seq<string>): string
    decreases |parts|
  {
    if parts == [] then [] else NonSpace(parts[0]) + NonSpaceAll(parts[1..])
  }

  /** A whitespace separator adds no text to a join. */
  lemma {:induction false} JoinNonSpace(parts: seq<string>, sep: string)
    requires IsBlank(sep)
    ensures NonSpace(Join(parts, sep)) == NonSpaceAll(parts)
    decreases |parts|
  {
    if |parts| == 1 {
      assert NonSpaceAll(parts[1..]) == [];
    } else if |parts| > 1 {
      JoinNonSpace(parts[1..], sep);
      NonSpaceConcat(parts[0] + sep, Join(parts[1..], sep));
      NonSpaceConcat(parts[0], sep);
      BlankNonSpace(sep);
    }
  }

  /** Stripping lines and dropping the empty ones keeps the text. */
  lemma {:induction false} CleanLinesKeepText(parts: seq<string>)
    ensures NonSpaceAll(CleanLines(parts)) == NonSpaceAll(parts)
    decreases |parts|
  {
    if parts != [] {
      var t := Strip(parts[0]);
      var rest := CleanLines(parts[1..]);
      CleanLinesKeepText(parts[1..]);
      StripKeepsText(parts[0]);
      if t == [] {
        assert CleanLines(parts) == rest;
        BlankNonSpace(parts[0]);
      } else {
        assert CleanLines(parts) == [t] + rest;
        assert ([t] + rest)[1..] == rest;
      }
    }
  }

  /** Cleaning changes only whitespace: the text's other characters are kept, in order. */
  lemma CleanTextKeepsText(text: string)
    ensures NonSpace(CleanText(text)) == NonSpace(text)
  {
    var a := CollapseNewlines(text);
    var b := CollapseRuns(a, ' ');
    var u := ReplaceChar(b, Nbsp, ' ');
    var parts := Split(u, '\n');
    JoinNonSpace(CleanLines(parts), "\n");
    CleanLinesKeepText(parts);
    JoinNonSpace(parts, "\n");
    JoinSplit(u, '\n');
    ReplaceSpaceKeepsText(b, Nbsp, ' ');
    SpaceRunsKeepText(a);
    CollapseNewlinesKeepText(text);
  }

  // ---------------------------------------------------------------------------
  // No-break spaces and double spaces

  /**
   * As written, no-break spaces become plain spaces only after runs of
   * spaces were collapsed, so a no-break space between two spaces leaves
   * three spaces in a row.
   */
  lemma NbspLeavesRun(x: string, y: string)
    requires x != [] && y != []
    requires forall i :: 0 <= i < |x| ==> !IsSpace(x[i])
    requires forall i :: 0 <= i < |y| ==> !IsSpace(y[i])
    ensures CleanText(x + [' ', Nbsp, ' '] + y) == x + "   " + y
    ensures !NoDoubleSpace(CleanText(x + [' ', Nbsp, ' '] + y))
  {
    var t := x + [' ', Nbsp, ' '] + y;
    var u := x + "   " + y;
    NbspSourceNoNewline(x, y);
    NbspSourceNoDoubleSpace(x, y);
    NoNewlineIdentity(t);
    CollapseRunsIdentity(t, ' ');
    NbspReplaced(x, y);
    assert CleanSource(t) == u;
    NbspPlainLine(x, y);
    OneLine(u);
    assert u[|x|] == ' ' && u[|x| + 1] == ' ';
  }

  /** The text around the no-break space holds no line break. */
  lemma NbspSourceNoNewline(x: string, y: string)
    requires forall i :: 0 <= i < |x| ==> !IsSpace(x[i])
    requires forall i :: 0 <= i < |y| ==> !IsSpace(y[i])
    ensures '\n' !in x + [' ', Nbsp, ' '] + y
  {
    var t := x + [' ', Nbsp, ' '] + y;
    forall i | 0 <= i < |t| ensures t[i] != '\n' {
      if i < |x| { assert t[i] == x[i]; }
      else if i >= |x| + 3 { assert t[i] == y[i - |x| - 3]; }
    }
  }

  /** Its plain spaces are never side by side: the no-break space parts them. */
  lemma NbspSourceNoDoubleSpace(x: string, y: string)
    requires x != [] && y != []
    requires forall i :: 0 <= i < |x| ==> !IsSpace(x[i])
    requires forall i :: 0 <= i < |y| ==> !IsSpace(y[i])
    ensures NoDoubleSpace(x + [' ', Nbsp, ' '] + y)
  {
    var t := x + [' ', Nbsp, ' '] + y;
    forall i | 0 <= i < |t| - 1 ensures !(t[i] == ' ' && t[i + 1] == ' ') {
      if i < |x| {
        assert t[i] == x[i];
      } else if i >= |x| + 3 {
        assert t[i] == y[i - |x| - 3];
      } else if i == |x| + 2 {
        assert t[i + 1] == y[0];
      } else {
        assert t[|x| + 1] == Nbsp;
      }
    }
  }

  /** Making the no-break space plain gives three spaces in a row. */
  lemma NbspReplaced(x: string, y: string)
    requires forall i :: 0 <= i < |x| ==> !IsSpace(x[i])
    requires forall i :: 0 <= i < |y| ==> !IsSpace(y[i])
    ensures ReplaceChar(x + [' ', Nbsp, ' '] + y, Nbsp, ' ') == x + "   " + y
  {
    var t := x + [' ', Nbsp, ' '] + y;
    var u := x + "   " + y;
    var r := ReplaceChar(t, Nbsp, ' ');
    forall i | 0 <= i < |t| ensures r[i] == u[i] {
      if i < |x| { assert t[i] == x[i] && u[i] == x[i]; }
      else if i >= |x| + 3 { assert t[i] == y[i - |x| - 3] && u[i] == y[i - |x| - 3]; }
    }
  }

  /** The result is one stripped line. */
  lemma NbspPlainLine(x: string, y: string)
    requires x != [] && y != []
    requires forall i :: 0 <= i < |x| ==> !IsSpace(x[i])
    requires forall i :: 0 <= i < |y| ==> !IsSpace(y[i])
    ensures var u := x + "   " + y; u != [] && IsStripped(u) && '\n' !in u
  {
    var u := x + "   " + y;
    forall i | 0 <= i < |u| ensures u[i] != '\n' {
      if i < |x| { assert u[i] == x[i]; }
      else if i >= |x| + 3 { assert u[i] == y[i - |x| - 3]; }
    }
    assert u[0] == x[0] && u[|u| - 1] == y[|y| - 1];
  }

  /** A text without newlines is a single line to `_clean_text`'s split, kept whole when stripped and non-empty. */
  lemma OneLine(u: string)
    requires u != [] && IsStripped(u) && '\n' !in u
    ensures Join(CleanLines(Split(u, '\n')), "\n") == u
  {
    FirstInIs(u, {'\n'}, 0, |u|);
    assert Split(u, '\n') == [u];
    StripStripped(u);
    assert CleanLines([u]) == [u] + CleanLines([]);
  }

  /** Collapsing newline runs leaves text without newlines alone. */
  lemma {:induction false} NoNewlineIdentity(s: string)
    requires '\n' !in s
    ensures CollapseNewlines(s) == s
    decreases |s|
  {
    if s != [] {
      assert s[0] != '\n';
      assert '\n' !in s[1..];
      NoNewlineIdentity(s[1..]);
      assert s == [s[0]] + s[1..];
    }
  }

  /** The text split into lines with no-break spaces made plain before space runs are collapsed. */
  function CleanSourceFixed(text: string): (u: string)
    ensures Nbsp !in u && NoDoubleSpace(u)
  {
    var r := CollapseRuns(ReplaceChar(CollapseNewlines(text), Nbsp, ' '), ' ');
    assert Nbsp !in r by {
      var plain := ReplaceChar(CollapseNewlines(text), Nbsp, ' ');
      assert Nbsp !in plain;
      forall x | x in r ensures x != Nbsp {
        assert x in plain;
      }
    }
    r
  }

  /** `_clean_text` with its two whitespace steps in the intended order. */
  function CleanTextFixed(text: string): (r: string)
    ensures NoDoubleSpace(r)
  {
    var parts := Split(CleanSourceFixed(text), '\n');
    SplitNoDoubleSpace(CleanSourceFixed(text), '\n');
    CleanLinesNoDoubleSpace(parts);
    JoinNoDoubleSpace(CleanLines(parts));
    Join(CleanLines(parts), "\n")
  }

  /** Every piece of a split text without double spaces has none either. */
  lemma {:induction false} SplitNoDoubleSpace(s: string, c: char)
    requires NoDoubleSpace(s)
    ensures forall k :: 0 <= k < |Split(s, c)| ==> NoDoubleSpace(Split(s, c)[k])
    decreases |s|
  {
    var j := FirstIn(s, {c}, 0);
    if j < |s| {
      var t := s[j + 1..];
      SliceNoDoubleSpace(s, j + 1, |s|);
      assert t == s[j + 1..|s|];
      SplitNoDoubleSpace(t, c);
      SliceNoDoubleSpace(s, 0, j);
      var rest := Split(t, c);
      var parts := Split(s, c);
      assert parts == [s[..j]] + rest;
      forall k | 0 <= k < |parts| ensures NoDoubleSpace(parts[k]) {
        if k > 0 {
          assert parts[k] == rest[k - 1];
        }
      }
    }
  }

  lemma {:induction false} CleanLinesNoDoubleSpace(parts: seq<string>)
    requires forall k :: 0 <= k < |parts| ==> NoDoubleSpace(parts[k])
    ensures forall k :: 0 <= k < |CleanLines(parts)| ==> NoDoubleSpace(CleanLines(parts)[k])
    decreases |parts|
  {
    if parts != [] {
      var t := Strip(parts[0]);
      var rest := CleanLines(parts[1..]);
      StripNoDoubleSpace(parts[0]);
      CleanLinesNoDoubleSpace(parts[1..]);
      if t == [] {
        assert CleanLines(parts) == rest;
      } else {
        assert CleanLines(parts) == [t] + rest;
      }
    }
  }

  /** Lines without double spaces joined by newlines have none either. */
  lemma {:induction false} JoinNoDoubleSpace(lines: seq<string>)
    requires forall k :: 0 <= k < |lines| ==> NoDoubleSpace(lines[k])
    ensures NoDoubleSpace(Join(lines, "\n"))
    decreases |lines|
  {
    if |lines| > 1 {
      JoinNoDoubleSpace(lines[1..]);
      var a := lines[0] + "\n";
      var b := Join(lines[1..], "\n");
      var r := a + b;
      assert Join(lines, "\n") == r;
      forall i | 0 <= i < |r| - 1 ensures !(r[i] == ' ' && r[i + 1] == ' ') {
        if i + 1 < |lines[0]| {
          assert r[i] == lines[0][i] && r[i + 1] == lines[0][i + 1];
        } else if i + 1 == |lines[0]| {
          assert r[i + 1] == '\n';
        } else if i == |lines[0]| {
          assert r[i] == '\n';
        } else {
          assert r[i] == b[i - |a|] && r[i + 1] == b[i + 1 - |a|];
        }
      }
    }
  }

  /** The fixed cleanup keeps every property of the written one: non-empty stripped lines without no-break spaces. */
  lemma CleanTextFixedLines(text: string)
    ensures var lines := Split(CleanTextFixed(text), '\n');
      CleanTextFixed(text) == [] ||
      forall k :: 0 <= k < |lines| ==> lines[k] != [] && IsStripped(lines[k]) && Nbsp !in lines[k]
  {
    var parts := Split(CleanSourceFixed(text), '\n');
    var lines := CleanLines(parts);
    forall k | 0 <= k < |lines|
      ensures '\n' !in lines[k] && Nbsp !in lines[k]
    {
      forall x | x in lines[k] ensures x != '\n' && x != Nbsp {
        var m :| 0 <= m < |parts| && x in parts[m];
      }
    }
    if lines != [] {
      SplitJoin(lines, '\n');
    }
  }

  /** The fixed cleanup also changes only whitespace. */
  lemma CleanTextFixedKeepsText(text: string)
    ensures NonSpace(CleanTextFixed(text)) == NonSpace(text)
  {
    var a := CollapseNewlines(text);
    var b := ReplaceChar(a, Nbsp, ' ');
    var u := CollapseRuns(b, ' ');
    var parts := Split(u, '\n');
    JoinNonSpace(CleanLines(parts), "\n");
    CleanLinesKeepText(parts);
    JoinNonSpace(parts, "\n");
    JoinSplit(u, '\n');
    SpaceRunsKeepText(b);
    ReplaceSpaceKeepsText(a, Nbsp, ' ');
    CollapseNewlinesKeepText(text);
  }

  // ---------------------------------------------------------------------------
  // Content items of the older page format

  /** An item of the older page format: its `type`, `text` and table `data`. */
  datatype ContentItem = ContentItem(kind: string, text: string, data: seq<seq<string>>)

  /** The number of `#` marks of a heading type, 0 for any other type. */
  function HeadingLevel(kind: string): (n: nat)
    ensures n <= 3
    ensures n > 0 <==> kind in {"h1", "h2", "h3"}
  {
    if kind == "h1" then 1 else if kind == "h2" then 2 else if kind == "h3" then 3 else 0
  }

  /** What goes before a heading's text: its marks and a space. */
  function HeadingPrefix(kind: string): string
  {
    var n := HeadingLevel(kind);
    if n > 0 then Repeat("#", n) + " " else ""
  }

  /** `_convert_content_item`. */
  function ConvertContentItem(item: ContentItem): (r: string)
    ensures item.kind == "table" ==> r == ConvertTable(item.data)
    ensures item.kind != "table" ==> (r == [] <==> IsBlank(item.text))
    ensures item.kind != "table" && r != [] ==> r[|r| - 1] == '\n'
  {
    if item.kind == "table" then ConvertTable(item.data)
    else
      var text := Strip(item.text);
      if text == [] then []
      else HeadingPrefix(item.kind) + CleanText(text) + "\n"
  }

  /** A heading item opens with as many `#` as its type's digit, then a space. */
  lemma ContentHeading(item: ContentItem)
    requires item.kind in {"h1", "h2", "h3"} && !IsBlank(item.text)
    ensures var r := ConvertContentItem(item); var n := HeadingLevel(item.kind);
      n < |r| && (forall k :: 0 <= k < n ==> r[k] == '#') && r[n] == ' '
  {
    var n := HeadingLevel(item.kind);
    var c := CleanText(Strip(item.text));
    HeadingItemIs(item);
    MarksThenSpace(n, c);
  }

  /** A heading item is its marks, a space, its cleaned text and a newline. */
  lemma HeadingItemIs(item: ContentItem)
    requires item.kind in {"h1", "h2", "h3"} && !IsBlank(item.text)
    ensures ConvertContentItem(item) == Repeat("#", HeadingLevel(item.kind)) + " " + CleanText(Strip(item.text)) + "\n"
  {
    assert Strip(item.text) != [];
  }

  /** `n` marks then a space open the line whatever follows. */
  lemma MarksThenSpace(n: nat, c: string)
    ensures var r := Repeat("#", n) + " " + c + "\n";
      n < |r| && (forall k :: 0 <= k < n ==> r[k] == '#') && r[n] == ' '
  {
    RepeatChar('#', n);
    var r := Repeat("#", n) + " " + c + "\n";
    assert forall k :: 0 <= k < n ==> r[k] == Repeat("#", n)[k];
  }

  /** An item's text survives conversion: only its heading marks are added and only whitespace changes. */
  lemma ContentKeepsText(item: ContentItem)
    requires item.kind != "table" && !IsBlank(item.text)
    ensures NonSpace(ConvertContentItem(item)) == NonSpace(HeadingPrefix(item.kind)) + NonSpace(item.text)
  {
    var p := HeadingPrefix(item.kind);
    var c := CleanText(Strip(item.text));
    CleanTextKeepsText(Strip(item.text));
    StripKeepsText(item.text);
    NonSpaceConcat(p + c, "\n");
    NonSpaceConcat(p, c);
    BlankNonSpace("\n");
  }

  // ---------------------------------------------------------------------------
  // The html of outline elements

  /** The four rewrites of `_convert_html_to_markdown`, in order; entities are decoded after them. */
  function LegacyRules(): seq<HtmlMarkdown.Sub>
  {
    [HtmlMarkdown.Pair(HtmlMarkdown.BareSpan(HtmlMarkdown.HighlightStyle, '\''), "</span>", "==", "=="),
     HtmlMarkdown.AnchorLink, HtmlMarkdown.Citation, HtmlMarkdown.StripTag]
  }

  /** `_convert_html_to_markdown`: the rewrites, then entity decoding, then stripping. */
  function ConvertHtml(html: string): (r: string)
    ensures IsStripped(r)
    ensures html == [] ==> r == []
  {
    if html == [] then [] else Strip(HtmlMarkdown.Unescape(HtmlMarkdown.ApplyAll(LegacyRules(), html)))
  }

  /** Text without tags, citations or entities is only stripped. */
  lemma LegacyPlain(t: string)
    requires !ContainsChar(t, '<') && !ContainsChar(t, 'F') && !ContainsChar(t, '&')
    ensures ConvertHtml(t) == Strip(t)
  {
    RulesMissPlain(t);
    HtmlMarkdown.UnescapePlain(t);
  }

  /** Every rewrite starts at a `<` or at the `F` of `From`: text without either is left alone. */
  lemma RulesMissPlain(t: string)
    requires !ContainsChar(t, '<') && !ContainsChar(t, 'F')
    ensures HtmlMarkdown.ApplyAll(LegacyRules(), t) == t
  {
    var rules := LegacyRules();
    forall k | 0 <= k < |rules| ensures !ContainsChar(t, HtmlMarkdown.Lead(rules[k])) {
      assert HtmlMarkdown.Lead(rules[k]) in {'<', 'F'};
    }
    HtmlMarkdown.ApplyAllIdentity(rules, t);
  }

  /** Encoding never produces `<`, and adds no `F`. */
  lemma {:induction false} EncodeNoLead(s: string)
    ensures !ContainsChar(HtmlMarkdown.Encode(s), '<')
    ensures !ContainsChar(s, 'F') ==> !ContainsChar(HtmlMarkdown.Encode(s), 'F')
    decreases |s|
  {
    if s != [] {
      EncodeNoLead(s[1..]);
      var head := HtmlMarkdown.Encode(s)[..|HtmlMarkdown.Encode(s)| - |HtmlMarkdown.Encode(s[1..])|];
      assert HtmlMarkdown.Encode(s) == head + HtmlMarkdown.Encode(s[1..]);
      assert head in {"&amp;", "&lt;", "&gt;", "&quot;", [s[0]]};
      assert !ContainsChar(s, 'F') ==> s[0] != 'F' && !ContainsChar(s[1..], 'F');
      forall i | 0 <= i < |head| ensures head[i] != '<' && (!ContainsChar(s, 'F') ==> head[i] != 'F') { }
    }
  }

  lemma BoldNoF(x: string)
    requires !ContainsChar(x, 'F')
    ensures !ContainsChar("<b>" + x + "</b>", 'F')
  {
    var u := "<b>" + x + "</b>";
    forall i | 0 <= i < |u| ensures u[i] != 'F' {
      if 3 <= i < 3 + |x| { assert u[i] == x[i - 3]; }
    }
  }

  /**
   * Entities are decoded after the tags are removed, so an entity-encoded
   * tag comes out as a literal tag rather than markdown.
   */
  lemma EncodedTagKept(x: string)
    requires !ContainsChar(x, '<') && !ContainsChar(x, 'F')
    ensures ConvertHtml(HtmlMarkdown.Encode("<b>" + x + "</b>")) == "<b>" + x + "</b>"
  {
    var u := "<b>" + x + "</b>";
    var e := HtmlMarkdown.Encode(u);
    BoldNoF(x);
    EncodeNoLead(u);
    assert e != [] by { assert |e| >= |u|; }
    RulesMissPlain(e);
    HtmlMarkdown.UnescapeEncode(u);
    assert u[0] == '<' && u[|u| - 1] == '>';
    StripStripped(u);
  }

  /** A highlight span becomes `==body==`. */
  lemma LegacyHighlight(x: string)
    requires !ContainsChar(x, '<') && !ContainsChar(x, 'F') && !ContainsChar(x, '&')
    ensures ConvertHtml("<span style='" + HtmlMarkdown.HighlightStyle + "'>" + x + "</span>") == "==" + x + "=="
  {
    var t := "<span style='" + HtmlMarkdown.HighlightStyle + "'>" + x + "</span>";
    var w := "==" + x + "==";
    HighlightHead(x);
    HighlightTail(x);
    assert HtmlMarkdown.ApplyAll(LegacyRules(), t) == HtmlMarkdown.ApplyAll(LegacyRules()[1..], w);
    HtmlMarkdown.UnescapePlain(w);
    StripStripped(w);
  }

  /** The first rewrite turns a highlight span into `==body==`. */
  lemma HighlightHead(x: string)
    requires !ContainsChar(x, '<')
    ensures HtmlMarkdown.Apply(LegacyRules()[0], "<span style='" + HtmlMarkdown.HighlightStyle + "'>" + x + "</span>")
            == "==" + x + "=="
  {
    var style := HtmlMarkdown.HighlightStyle;
    var open := "<span style=" + ['\''] + style + ['\''] + ">";
    assert "<span style='" + style + "'>" == open;
    var t := open + x + "</span>";
    var w := "==" + x + "==";
    var rule := LegacyRules()[0];
    HtmlMarkdown.BareSpanOpens(style, '\'', x + "</span>");
    ConcatAssoc(open, x, "</span>");
    HtmlMarkdown.PairHit(open, x, "</span>", HtmlMarkdown.BareSpan(style, '\''), "==", "==");
    HtmlMarkdown.RunWhole(HtmlMarkdown.Table(rule, t), t, w);
  }

  /** The rewrites after the highlight leave `==body==` alone. */
  lemma HighlightTail(x: string)
    requires !ContainsChar(x, '<') && !ContainsChar(x, 'F')
    ensures HtmlMarkdown.ApplyAll(LegacyRules()[1..], "==" + x + "==") == "==" + x + "=="
  {
    var w := "==" + x + "==";
    var rules := LegacyRules()[1..];
    assert !ContainsChar(w, '<') && !ContainsChar(w, 'F') by {
      forall i | 0 <= i < |w| ensures w[i] != '<' && w[i] != 'F' {
        if 2 <= i < 2 + |x| { assert w[i] == x[i - 2]; }
      }
    }
    forall k | 0 <= k < |rules| ensures !ContainsChar(w, HtmlMarkdown.Lead(rules[k])) {
      assert HtmlMarkdown.Lead(rules[k]) in {'<', 'F'};
    }
    HtmlMarkdown.ApplyAllIdentity(rules, w);
  }

  // ---------------------------------------------------------------------------
  // Parsed outline elements

  /** How Python prints the callback id: the id itself, or `None` when the image has none. */
  function CallbackText(cb: Option<string>): string
  {
    match cb
    case None => "None"
    case Some(c) => c
  }

  /** The markdown link of an image: to its saved file when the page's mapping knows its callback id, else to the id. */
  function ImageLink(img: OneNoteXml.ImageData, mapping: map<string, string>): string
  {
    if img.callbackId.Some? && img.callbackId.value in mapping then
      "![" + img.alt + "](" + mapping[img.callbackId.value] + ")"
    else
      "![" + img.alt + "](CallbackID: " + CallbackText(img.callbackId) + ")"
  }

  /** The element's own line, if it has one: its text or image, indented by its level. */
  function OwnLines(n: OneNoteXml.Node, mapping: map<string, string>): (r: seq<string>)
    ensures |r| <= 1
    ensures r != [] ==> StartsWith(r[0], Indent(n.level))
  {
    match n.content
    case TextContent(t) => if t != [] then [Indent(n.level) + ConvertHtml(t)] else []
    case ImageContent(img) => [Indent(n.level) + ImageLink(img, mapping)]
    case _ => []
  }

  /** `_convert_xml_content_item`: the element's own line, then its children's non-empty renderings, one per line. */
  function XmlItem(n: OneNoteXml.Node, mapping: map<string, string>): string
    decreases n, 1
  {
    Join(OwnLines(n, mapping) + ChildLines(n, 0, mapping), "\n")
  }

  /** The non-empty renderings of the children from the `k`-th on, in order. */
  function ChildLines(n: OneNoteXml.Node, k: nat, mapping: map<string, string>): (r: seq<string>)
    requires k <= |n.children|
    ensures forall j :: 0 <= j < |r| ==> r[j] != []
    decreases n, 0, |n.children| - k
  {
    if k == |n.children| then []
    else
      var c := XmlItem(n.children[k], mapping);
      (if c != [] then [c] else []) + ChildLines(n, k + 1, mapping)
  }

  /** The element's text in document order: its own line's, then each child's, depth first. */
  function Preorder(n: OneNoteXml.Node, mapping: map<string, string>): string
    decreases n, 1
  {
    (if OwnLines(n, mapping) == [] then [] else NonSpace(OwnLines(n, mapping)[0])) + PreorderFrom(n, 0, mapping)
  }

  function PreorderFrom(n: OneNoteXml.Node, k: nat, mapping: map<string, string>): string
    requires k <= |n.children|
    decreases n, 0, |n.children| - k
  {
    if k == |n.children| then [] else Preorder(n.children[k], mapping) + PreorderFrom(n, k + 1, mapping)
  }

  /**
   * The rendering holds the whole tree's text and nothing else, in
   * document order: every element's line comes before its children's, and
   * the children follow one another in order.
   */
  lemma {:induction false} XmlItemPreorder(n: OneNoteXml.Node, mapping: map<string, string>)
    ensures NonSpace(XmlItem(n, mapping)) == Preorder(n, mapping)
    decreases n, 1
  {
    var own := OwnLines(n, mapping);
    var kids := ChildLines(n, 0, mapping);
    JoinNonSpace(own + kids, "\n");
    ChildLinesPreorder(n, 0, mapping);
    NonSpaceAllConcat(own, kids);
    if own != [] {
      assert NonSpaceAll(own) == NonSpace(own[0]) + NonSpaceAll(own[1..]);
      assert own[1..] == [];
    }
  }

  lemma {:induction false} ChildLinesPreorder(n: OneNoteXml.Node, k: nat, mapping: map<string, string>)
    requires k <= |n.children|
    ensures NonSpaceAll(ChildLines(n, k, mapping)) == PreorderFrom(n, k, mapping)
    decreases n, 0, |n.children| - k
  {
    if k < |n.children| {
      var c := XmlItem(n.children[k], mapping);
      var rest := ChildLines(n, k + 1, mapping);
      XmlItemPreorder(n.children[k], mapping);
      ChildLinesPreorder(n, k + 1, mapping);
      if c != [] {
        assert ChildLines(n, k, mapping) == [c] + rest;
        NonSpaceAllCons(c, rest);
      } else {
        assert ChildLines(n, k, mapping) == rest;
      }
    }
  }

  lemma NonSpaceAllCons(c: string, rest: seq<string>)
    ensures NonSpaceAll([c] + rest) == NonSpace(c) + NonSpaceAll(rest)
  {
    assert ([c] + rest)[1..] == rest;
  }

  lemma {:induction false} NonSpaceAllConcat(a: seq<string>, b: seq<string>)
    ensures NonSpaceAll(a + b) == NonSpaceAll(a) + NonSpaceAll(b)
    decreases |a|
  {
    if a == [] {
      assert a + b == b;
    } else {
      NonSpaceAllConcat(a[1..], b);
      assert a + b == [a[0]] + (a[1..] + b);
      assert a == [a[0]] + a[1..];
      NonSpaceAllCons(a[0], a[1..] + b);
      NonSpaceAllCons(a[0], a[1..]);
      ConcatAssoc(NonSpace(a[0]), NonSpaceAll(a[1..]), NonSpaceAll(b));
    }
  }

  /** An element with a line of its own starts its rendering with it, indented two spaces per level. */
  lemma XmlItemOpens(n: OneNoteXml.Node, mapping: map<string, string>)
    requires OwnLines(n, mapping) != []
    ensures StartsWith(XmlItem(n, mapping), Indent(n.level) + OwnLines(n, mapping)[0][2 * n.level..])
  {
    var own := OwnLines(n, mapping);
    var rest := own + ChildLines(n, 0, mapping);
    assert rest[0] == own[0];
    if |rest| > 1 {
      assert Join(rest, "\n") == own[0] + "\n" + Join(rest[1..], "\n");
    }
    assert own[0] == Indent(n.level) + own[0][2 * n.level..];
  }

  /** A leaf image whose callback id the page mapped links to the mapped file. */
  lemma MappedImage(level: nat, attributes: map<string, string>, alt: string, cb: string, mapping: map<string, string>)
    requires cb in mapping
    ensures XmlItem(OneNoteXml.Node(level, attributes, OneNoteXml.ImageContent(OneNoteXml.ImageData(alt, Some(cb))), []), mapping)
            == Indent(level) + ("![" + alt + "](" + mapping[cb] + ")")
  {
    var n := OneNoteXml.Node(level, attributes, OneNoteXml.ImageContent(OneNoteXml.ImageData(alt, Some(cb))), []);
    var link := "![" + alt + "](" + mapping[cb] + ")";
    assert ImageLink(n.content.image, mapping) == link;
    assert ChildLines(n, 0, mapping) == [];
    assert OwnLines(n, mapping) + [] == [Indent(level) + link];
  }

  /** A leaf image whose callback id is missing or unmapped falls back to the id itself. */
  lemma UnmappedImage(level: nat, attributes: map<string, string>, alt: string, cb: Option<string>, mapping: map<string, string>)
    requires cb.None? || cb.value !in mapping
    ensures XmlItem(OneNoteXml.Node(level, attributes, OneNoteXml.ImageContent(OneNoteXml.ImageData(alt, cb)), []), mapping)
            == Indent(level) + ("![" + alt + "](CallbackID: " + CallbackText(cb) + ")")
  {
    var n := OneNoteXml.Node(level, attributes, OneNoteXml.ImageContent(OneNoteXml.ImageData(alt, cb)), []);
    var link := "![" + alt + "](CallbackID: " + CallbackText(cb) + ")";
    assert ImageLink(n.content.image, mapping) == link;
    assert ChildLines(n, 0, mapping) == [];
    assert OwnLines(n, mapping) + [] == [Indent(level) + link];
  }

  // ---------------------------------------------------------------------------
  // The image files of a page

  /** What the image dictionary keeps for one callback id (the absolute target path is left out). */
  datatype ImageRecord = ImageRecord(pageId: string, relativePath: string, altText: string, section: string, page: string)

  /** The images held directly by the page's top-level content items. */
  function InlineImages(content: seq<OneNoteXml.Node>): (r: seq<OneNoteXml.ImageData>)
    ensures |r| <= |content|
    ensures forall j :: 0 <= j < |r| ==> exists k :: 0 <= k < |content| && content[k].content == OneNoteXml.ImageContent(r[j])
  {
    if content == [] then []
    else
      var rest := InlineImages(content[1..]);
      assert forall j :: 0 <= j < |rest| ==> exists k :: 0 <= k < |content| && content[k].content == OneNoteXml.ImageContent(rest[j]) by {
        forall j | 0 <= j < |rest| ensures exists k :: 0 <= k < |content| && content[k].content == OneNoteXml.ImageContent(rest[j]) {
          var k :| 0 <= k < |content[1..]| && content[1..][k].content == OneNoteXml.ImageContent(rest[j]);
          assert content[k + 1] == content[1..][k];
        }
      }
      match content[0].content
      case ImageContent(img) => [img] + rest
      case _ => rest
  }

  /** A callback id Python treats as true: present and not empty. */
  predicate HasCallback(img: OneNoteXml.ImageData)
  {
    img.callbackId.Some? && img.callbackId.value != []
  }

  /** The ids of the images from the `k`-th on that have a callback id. */
  function CallbackIds(all: seq<OneNoteXml.ImageData>, k: nat): set<string>
  {
    set i | k <= i < |all| && HasCallback(all[i]) :: all[i].callbackId.value
  }

  /** `f"{section}_{page}_{safe_alt}_{i+1}.png"`, the alt text sanitized and cut to 20 characters. */
  function ImageFile(section: string, page: string, alt: string, i: nat): (r: string)
    ensures EndsWith(r, ".png")
  {
    var safe := SanitizeFilename(alt);
    var short := if |safe| <= 20 then safe else safe[..20];
    var stem := section + "_" + page + "_" + short + "_" + NatToString(i + 1);
    assert (stem + ".png")[|stem|..] == ".png";
    stem + ".png"
  }

  /**
   * `cb` was written last by the `i`-th image: the mapping holds its file
   * under `assets/` and the dictionary the matching record.
   */
  predicate SavedBy(all: seq<OneNoteXml.ImageData>, i: int, cb: string, path: string, rec: ImageRecord,
                    section: string, page: string, pageId: string)
  {
    0 <= i < |all| && all[i].callbackId == Some(cb)
    && (forall j :: i < j < |all| ==> all[j].callbackId != Some(cb))
    && path == "assets/" + ImageFile(section, page, all[i].alt, i)
    && rec == ImageRecord(pageId, path, all[i].alt, section, page)
  }

  /** The loop of `_process_page_images` from the `k`-th image on, over the page mapping and the image dictionary. */
  function ProcessImages(all: seq<OneNoteXml.ImageData>, k: nat, section: string, page: string, pageId: string,
                         mapping: map<string, string>, dict: map<string, ImageRecord>): (r: (map<string, string>, map<string, ImageRecord>))
    requires k <= |all|
    ensures r.0.Keys == mapping.Keys + CallbackIds(all, k)
    ensures r.1.Keys == dict.Keys + CallbackIds(all, k)
    decreases |all| - k
  {
    if k == |all| then
      assert CallbackIds(all, k) == {};
      (mapping, dict)
    else
      var img := all[k];
      CallbackIdsStep(all, k);
      if HasCallback(img) then
        var cb := img.callbackId.value;
        var path := "assets/" + ImageFile(section, page, img.alt, k);
        ProcessImages(all, k + 1, section, page, pageId, mapping[cb := path],
                      dict[cb := ImageRecord(pageId, path, img.alt, section, page)])
      else
        ProcessImages(all, k + 1, section, page, pageId, mapping, dict)
  }

  lemma CallbackIdsStep(all: seq<OneNoteXml.ImageData>, k: nat)
    requires k < |all|
    ensures CallbackIds(all, k) == CallbackIds(all, k + 1) + (if HasCallback(all[k]) then {all[k].callbackId.value} else {})
  {
  }

  /** Entries of callback ids no later image carries are left as they were. */
  lemma {:induction false} ProcessKeeps(all: seq<OneNoteXml.ImageData>, k: nat, section: string, page: string, pageId: string,
                                        mapping: map<string, string>, dict: map<string, ImageRecord>, cb: string)
    requires k <= |all| && cb !in CallbackIds(all, k)
    ensures var r := ProcessImages(all, k, section, page, pageId, mapping, dict);
      (cb in mapping ==> r.0[cb] == mapping[cb]) && (cb in dict ==> r.1[cb] == dict[cb])
    decreases |all| - k
  {
    if k < |all| {
      var img := all[k];
      CallbackIdsStep(all, k);
      if HasCallback(img) {
        var path := "assets/" + ImageFile(section, page, img.alt, k);
        ProcessKeeps(all, k + 1, section, page, pageId, mapping[img.callbackId.value := path],
                     dict[img.callbackId.value := ImageRecord(pageId, path, img.alt, section, page)], cb);
      } else {
        ProcessKeeps(all, k + 1, section, page, pageId, mapping, dict, cb);
      }
    }
  }

  /** A callback id some image from the `k`-th on carries ends up with the file of the last such image. */
  lemma {:induction false} ProcessSaves(all: seq<OneNoteXml.ImageData>, k: nat, section: string, page: string, pageId: string,
                                        mapping: map<string, string>, dict: map<string, ImageRecord>, cb: string)
    returns (i: nat)
    requires k <= |all| && cb in CallbackIds(all, k)
    ensures var r := ProcessImages(all, k, section, page, pageId, mapping, dict);
      k <= i && SavedBy(all, i, cb, r.0[cb], r.1[cb], section, page, pageId)
    decreases |all| - k
  {
    var img := all[k];
    CallbackIdsStep(all, k);
    var whole := ProcessImages(all, k, section, page, pageId, mapping, dict);
    if HasCallback(img) {
      var path := "assets/" + ImageFile(section, page, img.alt, k);
      var m' := mapping[img.callbackId.value := path];
      var d' := dict[img.callbackId.value := ImageRecord(pageId, path, img.alt, section, page)];
      var r := ProcessImages(all, k + 1, section, page, pageId, m', d');
      assert whole == r;
      if cb in CallbackIds(all, k + 1) {
        i := ProcessSaves(all, k + 1, section, page, pageId, m', d', cb);
        assert SavedBy(all, i, cb, whole.0[cb], whole.1[cb], section, page, pageId);
      } else {
        ProcessKeeps(all, k + 1, section, page, pageId, m', d', cb);
        LastCarrier(all, k, cb);
        i := k;
        assert SavedBy(all, k, cb, whole.0[cb], whole.1[cb], section, page, pageId);
      }
    } else {
      var r := ProcessImages(all, k + 1, section, page, pageId, mapping, dict);
      assert whole == r;
      i := ProcessSaves(all, k + 1, section, page, pageId, mapping, dict, cb);
      assert SavedBy(all, i, cb, whole.0[cb], whole.1[cb], section, page, pageId);
    }
  }

  /** No image after the `k`-th carries a callback id missing from the later ids. */
  lemma LastCarrier(all: seq<OneNoteXml.ImageData>, k: nat, cb: string)
    requires k < |all| && cb != [] && cb !in CallbackIds(all, k + 1)
    ensures forall j :: k < j < |all| ==> all[j].callbackId != Some(cb)
  {
    forall j | k < j < |all| ensures all[j].callbackId != Some(cb) {
      if HasCallback(all[j]) {
        assert all[j].callbackId.value in CallbackIds(all, k + 1);
      }
    }
  }

  /** The `ID` attribute of the page, or the empty text. */
  function PageId(metadata: OneNoteXml.Metadata): string
  {
    if "ID" in metadata.attributes then metadata.attributes["ID"] else ""
  }

  /**
   * `_process_page_images`: the page's images followed by the images of its
   * top-level items, numbered from 1; returns the page's mapping and the
   * grown dictionary.
   */
  function ProcessPageImages(images: seq<OneNoteXml.ImageData>, content: seq<OneNoteXml.Node>, section: string, page: string,
                             metadata: OneNoteXml.Metadata, dict: map<string, ImageRecord>): (r: (map<string, string>, map<string, ImageRecord>))
  {
    ProcessImages(images + InlineImages(content), 0, section, page, PageId(metadata), map[], dict)
  }

  /**
   * Only images with a callback id get a file; every one of them does, at
   * `assets/<name>.png`, and the dictionary records the same path with the
   * page's id.
   */
  lemma PageImagesSaved(images: seq<OneNoteXml.ImageData>, content: seq<OneNoteXml.Node>, section: string, page: string,
                        metadata: OneNoteXml.Metadata, dict: map<string, ImageRecord>)
    ensures var all := images + InlineImages(content);
      var r := ProcessPageImages(images, content, section, page, metadata, dict);
      r.0.Keys == CallbackIds(all, 0) &&
      forall cb :: cb in r.0 ==>
        StartsWith(r.0[cb], "assets/") && EndsWith(r.0[cb], ".png") &&
        r.1[cb].relativePath == r.0[cb] && r.1[cb].pageId == PageId(metadata)
  {
    var all := images + InlineImages(content);
    var r := ProcessPageImages(images, content, section, page, metadata, dict);
    forall cb | cb in r.0
      ensures StartsWith(r.0[cb], "assets/") && EndsWith(r.0[cb], ".png")
      ensures r.1[cb].relativePath == r.0[cb] && r.1[cb].pageId == PageId(metadata)
    {
      var i := ProcessSaves(all, 0, section, page, PageId(metadata), map[], dict, cb);
      SavedPath(all, i, cb, r.0[cb], r.1[cb], section, page, PageId(metadata));
    }
  }

  /** A saved image's path lies under `assets/`, ends in `.png`, and is the one its record holds. */
  lemma SavedPath(all: seq<OneNoteXml.ImageData>, i: int, cb: string, path: string, rec: ImageRecord,
                  section: string, page: string, pageId: string)
    requires SavedBy(all, i, cb, path, rec, section, page, pageId)
    ensures StartsWith(path, "assets/") && EndsWith(path, ".png")
    ensures rec.relativePath == path && rec.pageId == pageId
  {
    var file := ImageFile(section, page, all[i].alt, i);
    assert path[..7] == "assets/";
    assert path[|path| - 4..] == file[|file| - 4..];
  }
}
