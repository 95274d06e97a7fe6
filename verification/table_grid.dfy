/**
 * The grid every table renderer writes its lines from
 * (`src/converters/logseq_converter.py` and
 * `src/converters/obsidian_converter.py`): each row loses its trailing blank
 * cells, then every row is padded with empty cells to the widest one.
 */
module TableGrid {

  import opened Strings

  /** A row without its trailing blank cells. */
  function TrimCells(cells: seq<string>): (r: seq<string>)
    ensures |r| <= |cells| && r == cells[..|r|]
    ensures r == [] || !IsBlank(r[|r| - 1])
    ensures forall k :: |r| <= k < |cells| ==> IsBlank(cells[k])
  {
    if cells == [] || !IsBlank(cells[|cells| - 1]) then cells else TrimCells(cells[..|cells| - 1])
  }

  /** `max(len(row) for row in rows)`, or 0 for no rows. */
  function MaxWidth(rows: seq<seq<string>>): (n: nat)
    ensures forall k :: 0 <= k < |rows| ==> |rows[k]| <= n
    ensures rows == [] ==> n == 0
    ensures rows != [] ==> exists k :: 0 <= k < |rows| && |rows[k]| == n
  {
    if rows == [] then 0
    else
      var m := MaxWidth(rows[1..]);
      assert forall k :: 1 <= k < |rows| ==> rows[k] == rows[1..][k - 1];
      if |rows[0]| >= m then |rows[0]| else m
  }

  /** A row padded with empty cells to `width`. */
  function Pad(cells: seq<string>, width: nat): (r: seq<string>)
    requires |cells| <= width
    ensures |r| == width && r[..|cells|] == cells
    ensures forall k :: |cells| <= k < width ==> r[k] == ""
  {
    cells + seq(width - |cells|, _ => "")
  }

  /** The grid the lines are written from: trimmed rows padded to the widest one. */
  function Grid(rows: seq<seq<string>>): (g: seq<seq<string>>)
    ensures |g| == |rows|
    ensures forall k :: 0 <= k < |rows| ==> |g[k]| == |g[0]| && |TrimCells(rows[k])| <= |g[k]|
  {
    var trimmed := seq(|rows|, k requires 0 <= k < |rows| => TrimCells(rows[k]));
    var w := MaxWidth(trimmed);
    seq(|rows|, k requires 0 <= k < |rows| => Pad(trimmed[k], w))
  }

  /**
   * Padding is undone by trimming: the grid keeps each row's cells up to its
   * last non-blank one, in place, and adds only empty cells.
   */
  lemma {:induction false} GridKeepsCells(rows: seq<seq<string>>)
    ensures forall k :: 0 <= k < |rows| ==> TrimCells(Grid(rows)[k]) == TrimCells(rows[k])
    ensures forall k, j :: 0 <= k < |rows| && 0 <= j < |rows[k]| && !IsBlank(rows[k][j]) ==>
      j < |Grid(rows)[k]| && Grid(rows)[k][j] == rows[k][j]
  {
    forall k | 0 <= k < |rows|
      ensures TrimCells(Grid(rows)[k]) == TrimCells(rows[k])
    {
      var t := TrimCells(rows[k]);
      var g := Grid(rows)[k];
      assert g[..|t|] == t;
      TrimPadded(t, g);
    }
  }

  /** Trimming a trimmed row padded with empty cells gives the row back. */
  lemma {:induction false} TrimPadded(t: seq<string>, g: seq<string>)
    requires |t| <= |g| && g[..|t|] == t
    requires t == [] || !IsBlank(t[|t| - 1])
    requires forall k :: |t| <= k < |g| ==> g[k] == ""
    ensures TrimCells(g) == t
    decreases |g|
  {
    if |g| > |t| {
      assert IsBlank(g[|g| - 1]);
      var g' := g[..|g| - 1];
      assert g'[..|t|] == t;
      TrimPadded(t, g');
    } else {
      assert g == t;
    }
  }

  /** One line of a pipe table: `| ` before, ` | ` between and ` |` after the cells. */
  function PipeRow(cells: seq<string>): string
  {
    "| " + Join(cells, " | ") + " |"
  }

  /** A pipe-table line of pipe-free cells has one more pipe than cells: it has exactly that many columns. */
  lemma RowPipes(cells: seq<string>)
    requires cells != []
    requires forall k :: 0 <= k < |cells| ==> '|' !in cells[k]
    ensures Count(PipeRow(cells), '|') == |cells| + 1
  {
    var j := Join(cells, " | ");
    JoinCount(cells, " | ", '|');
    PipeCounts();
    WrappedCount(j);
  }

  lemma PipeCounts()
    ensures Count(" | ", '|') == 1 && Count("| ", '|') == 1 && Count(" |", '|') == 1
  {
    assert " | "[..2] == " |" && " |"[..1] == " " && "| "[..1] == "|";
  }

  /** The outer `| ` and ` |` add two pipes. */
  lemma WrappedCount(j: string)
    ensures Count("| " + j + " |", '|') == Count(j, '|') + 2
  {
    PipeCounts();
    CountConcat("| " + j, " |", '|');
    CountConcat("| ", j, '|');
  }
}
