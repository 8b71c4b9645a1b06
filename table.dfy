/**
 * The plain-text table the task runner prints (xtask/src/table.rs): a header row,
 * body rows and a footer row, each column padded to its widest cell, with lines of
 * the form `| a | b |` and separators of the form `|---|---|`.  A cell's display
 * width is taken to be its length in characters.  `println!` is left out: a table
 * is printed as the sequence of its lines.
 */
module Table {
  import opened Wrappers

  datatype Alignment = Left | Right

  datatype TableCell = TableCell(content: string, alignment: Alignment)

  datatype Table = Table(header: seq<TableCell>, body: seq<seq<TableCell>>, footer: seq<TableCell>)

  /** `Table::new` (and `Default`): no columns and no rows. */
  function New(): (t: Table)
    ensures t.header == [] && t.body == [] && t.footer == []
    ensures Validate(t)
  {
    Table([], [], [])
  }

  /** Every row of `rows` has `n` cells. */
  predicate RowsHave(rows: seq<seq<TableCell>>, n: nat)
  {
    |rows| == 0 || (|rows[0]| == n && RowsHave(rows[1..], n))
  }

  lemma {:induction false} RowsHaveAll(rows: seq<seq<TableCell>>, n: nat)
    ensures RowsHave(rows, n) <==> forall i :: 0 <= i < |rows| ==> |rows[i]| == n
  {
    if |rows| > 0 {
      RowsHaveAll(rows[1..], n);
      assert forall i :: 1 <= i < |rows| ==> rows[i] == rows[1..][i - 1];
    }
  }

  /**
   * `validate`: the assertions it makes hold, that is every body row and the footer
   * have as many cells as the header.
   */
  function Validate(t: Table): (ok: bool)
    ensures ok <==> |t.footer| == |t.header| && forall i :: 0 <= i < |t.body| ==> |t.body[i]| == |t.header|
  {
    RowsHaveAll(t.body, |t.header|);
    RowsHave(t.body, |t.header|) && |t.footer| == |t.header|
  }

  /** `max().unwrap_or(dflt)` over a sequence of widths. */
  function MaxOr(xs: seq<nat>, dflt: nat): (r: nat)
    ensures |xs| == 0 ==> r == dflt
    ensures |xs| > 0 ==> r in xs && forall k :: 0 <= k < |xs| ==> xs[k] <= r
  {
    if |xs| == 0 then dflt
    else if |xs| == 1 then xs[0]
    else
      var rest := MaxOr(xs[1..], dflt);
      assert forall k :: 1 <= k < |xs| ==> xs[k] == xs[1..][k - 1];
      if xs[0] >= rest then xs[0] else rest
  }

  /** The widths of column `c`: the header's cell, each body row's, then the footer's. */
  function ColumnCellWidths(t: Table, c: nat): (ws: seq<nat>)
    requires c < |t.header| && c < |t.footer|
    requires forall i :: 0 <= i < |t.body| ==> c < |t.body[i]|
    ensures |ws| == |t.body| + 2
    ensures ws[0] == |t.header[c].content| && ws[|t.body| + 1] == |t.footer[c].content|
    ensures forall i :: 0 <= i < |t.body| ==> ws[i + 1] == |t.body[i][c].content|
  {
    var body := seq(|t.body|, i requires 0 <= i < |t.body| => |t.body[i][c].content|);
    [|t.header[c].content|] + body + [|t.footer[c].content|]
  }

  /**
   * `calculate_column_content_width_for`: the widest cell of the column.  The
   * column always holds the header's and the footer's cell, so the fallback width
   * `1` is never used, and the width is that of one of the column's cells.
   */
  function ColumnWidth(t: Table, c: nat): (w: nat)
    requires c < |t.header| && c < |t.footer|
    requires forall i :: 0 <= i < |t.body| ==> c < |t.body[i]|
    ensures |t.header[c].content| <= w && |t.footer[c].content| <= w
    ensures forall i :: 0 <= i < |t.body| ==> |t.body[i][c].content| <= w
    ensures w in ColumnCellWidths(t, c)
  {
    var ws := ColumnCellWidths(t, c);
    var w := MaxOr(ws, 1);
    w
  }

  /** The width of a column is that of one of its cells: the fallback is never taken. */
  lemma ColumnWidthAttained(t: Table, c: nat)
    requires c < |t.header| && c < |t.footer|
    requires forall i :: 0 <= i < |t.body| ==> c < |t.body[i]|
    ensures var w := ColumnWidth(t, c);
      w == |t.header[c].content| || w == |t.footer[c].content|
      || exists i :: 0 <= i < |t.body| && w == |t.body[i][c].content|
  {
    var ws := ColumnCellWidths(t, c);
    var k :| 0 <= k < |ws| && ws[k] == ColumnWidth(t, c);
    if 0 < k < |ws| - 1 {
      assert ws[k] == |t.body[k - 1][c].content|;
    }
  }

  /** `calculate_column_content_widths`: one width per header column, each fitting its column. */
  function ColumnWidths(t: Table): (ws: seq<nat>)
    requires Validate(t)
    ensures |ws| == |t.header|
    ensures forall c :: 0 <= c < |ws| ==> |t.header[c].content| <= ws[c] && |t.footer[c].content| <= ws[c]
    ensures forall i, c :: 0 <= i < |t.body| && 0 <= c < |ws| ==> |t.body[i][c].content| <= ws[c]
  {
    seq(|t.header|, c requires 0 <= c < |t.header| => ColumnWidth(t, c))
  }

  /** `" ".repeat(n)` and `"-".repeat(n)`. */
  function Repeat(ch: char, n: nat): (r: string)
    ensures |r| == n
    ensures forall k :: 0 <= k < n ==> r[k] == ch
  {
    if n == 0 then [] else [ch] + Repeat(ch, n - 1)
  }

  /**
   * `TableCell::format`: the content padded with spaces to `width`, on the right
   * when left-aligned and on the left when right-aligned.  A width below the
   * content's panics on the subtraction.
   */
  function Format(cell: TableCell, width: nat): (r: string)
    requires |cell.content| <= width
    ensures |r| == width
    ensures cell.alignment.Left? ==>
      r[..|cell.content|] == cell.content && forall k :: |cell.content| <= k < width ==> r[k] == ' '
    ensures cell.alignment.Right? ==>
      r[width - |cell.content|..] == cell.content && forall k :: 0 <= k < width - |cell.content| ==> r[k] == ' '
  {
    var padding := Repeat(' ', width - |cell.content|);
    match cell.alignment
    case Left => cell.content + padding
    case Right => padding + cell.content
  }

  /** Itertools' `format(sep)`: the parts with `sep` between each two. */
  function Join(parts: seq<string>, sep: string): string
  {
    if |parts| == 0 then []
    else if |parts| == 1 then parts[0]
    else parts[0] + sep + Join(parts[1..], sep)
  }

  /** The length of the joined parts of lengths `widths` with a separator of length `sepLen`. */
  function JoinedWidth(widths: seq<nat>, sepLen: nat): nat
  {
    if |widths| == 0 then 0
    else if |widths| == 1 then widths[0]
    else widths[0] + sepLen + JoinedWidth(widths[1..], sepLen)
  }

  /** Joining parts of the given lengths gives a line of their joined width. */
  lemma {:induction false} JoinLength(parts: seq<string>, sep: string, widths: seq<nat>)
    requires |parts| == |widths|
    requires forall k :: 0 <= k < |parts| ==> |parts[k]| == widths[k]
    ensures |Join(parts, sep)| == JoinedWidth(widths, |sep|)
  {
    if |parts| > 1 {
      JoinLength(parts[1..], sep, widths[1..]);
    }
  }

  /** The formatted cells of a row, paired with the widths as `zip` pairs them. */
  function FormattedCells(row: seq<TableCell>, widths: seq<nat>): (r: seq<string>)
    requires forall k :: 0 <= k < |row| && k < |widths| ==> |row[k].content| <= widths[k]
    ensures |r| == if |row| < |widths| then |row| else |widths|
    ensures forall k :: 0 <= k < |r| ==> r[k] == Format(row[k], widths[k])
  {
    var n := if |row| < |widths| then |row| else |widths|;
    seq(n, k requires 0 <= k < n => Format(row[k], widths[k]))
  }

  /** The line `print_row` prints: `| ` + the formatted cells joined by ` | ` + ` |`. */
  function RowLine(row: seq<TableCell>, widths: seq<nat>): (line: string)
    requires forall k :: 0 <= k < |row| && k < |widths| ==> |row[k].content| <= widths[k]
    ensures |row| == |widths| ==> |line| == 4 + JoinedWidth(widths, 3)
    ensures |line| >= 4
    ensures line[..2] == "| " && line[|line| - 2..] == " |"
  {
    var cells := FormattedCells(row, widths);
    var line := "| " + Join(cells, " | ") + " |";
    if |row| == |widths| then JoinLength(cells, " | ", widths); line else line
  }

  /** The line `print_separator` prints: `|-` + one run of dashes per column joined by `-|-` + `-|`. */
  function SeparatorLine(widths: seq<nat>): (line: string)
    ensures |line| == 4 + JoinedWidth(widths, 3)
    ensures forall k :: 0 <= k < |line| ==> line[k] == '-' || line[k] == '|'
  {
    var dashes := seq(|widths|, k requires 0 <= k < |widths| => Repeat('-', widths[k]));
    JoinLength(dashes, "-|-", widths);
    JoinDashes(dashes, "-|-");
    "|-" + Join(dashes, "-|-") + "-|"
  }

  /** Joining runs of dashes with a separator of dashes and bars gives only dashes and bars. */
  lemma {:induction false} JoinDashes(parts: seq<string>, sep: string)
    requires forall k, j :: 0 <= k < |parts| && 0 <= j < |parts[k]| ==> parts[k][j] == '-'
    requires forall j :: 0 <= j < |sep| ==> sep[j] == '-' || sep[j] == '|'
    ensures forall j :: 0 <= j < |Join(parts, sep)| ==> Join(parts, sep)[j] == '-' || Join(parts, sep)[j] == '|'
  {
    if |parts| > 1 {
      JoinDashes(parts[1..], sep);
    }
  }

  /**
   * `print`: `validate` panics on a ragged table (`None` here); otherwise it
   * prints its `Lines`, all of one width.
   */
  function Print(t: Table): (lines: Option<seq<string>>)
    ensures lines.None? <==> !Validate(t)
    ensures lines.Some? ==> |lines.value| == |t.body| + 4
    ensures lines.Some? ==> forall k :: 0 <= k < |lines.value| ==> |lines.value[k]| == |lines.value[0]|
  {
    if !Validate(t) then None else Some(Lines(t))
  }

  /**
   * The lines of a valid table: the header line, a separator, one line per body
   * row, a separator and the footer line, each `4 + JoinedWidth(widths, 3)` long.
   */
  function Lines(t: Table): (lines: seq<string>)
    requires Validate(t)
    ensures |lines| == |t.body| + 4
    ensures forall k :: 0 <= k < |lines| ==> |lines[k]| == 4 + JoinedWidth(ColumnWidths(t), 3)
  {
    seq(|t.body| + 4, k requires 0 <= k < |t.body| + 4 => LineAt(t, k))
  }

  /** Line `k` of a valid table. */
  function LineAt(t: Table, k: nat): (line: string)
    requires Validate(t) && k < |t.body| + 4
    ensures |line| == 4 + JoinedWidth(ColumnWidths(t), 3)
  {
    var widths := ColumnWidths(t);
    var n := |t.body|;
    if k == 0 then RowLine(t.header, widths)
    else if k == 1 || k == n + 2 then SeparatorLine(widths)
    else if k < n + 2 then
      assert |t.body[k - 2]| == |widths|;
      RowLine(t.body[k - 2], widths)
    else RowLine(t.footer, widths)
  }

  /** The lines in order: header, separator, body rows, separator, footer. */
  lemma LinesOrder(t: Table)
    requires Validate(t)
    ensures var lines := Lines(t); var widths := ColumnWidths(t);
      lines[0] == RowLine(t.header, widths) && lines[1] == SeparatorLine(widths)
      && (forall i :: 0 <= i < |t.body| ==> lines[i + 2] == RowLine(t.body[i], widths))
      && lines[|t.body| + 2] == SeparatorLine(widths) && lines[|t.body| + 3] == RowLine(t.footer, widths)
  {
    var lines := Lines(t);
    var n := |t.body|;
    assert lines[0] == LineAt(t, 0) && lines[1] == LineAt(t, 1);
    assert lines[n + 2] == LineAt(t, n + 2) && lines[n + 3] == LineAt(t, n + 3);
    forall i | 0 <= i < n
      ensures lines[i + 2] == RowLine(t.body[i], ColumnWidths(t))
    {
      assert lines[i + 2] == LineAt(t, i + 2);
    }
  }
}
