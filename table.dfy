/** The plain-text table renderer of the section formatter (scraper.py,
    lines 117-121): column widths are the longest cell of each column, every
    cell is left-justified to its column's width, cells are joined by two
    spaces and rows by a newline. */
module Table {
  import opened Errors
  import opened Text

  /** Every row has as many cells as the first one. */
  predicate Rectangular(rows: seq<seq<string>>) {
    forall k :: 0 <= k < |rows| ==> |rows[k]| == |rows[0]|
  }

  /** `max(len(row[i]) for row in rows)`. */
  function ColumnMax(rows: seq<seq<string>>, i: nat): (w: nat)
    requires |rows| > 0
    requires forall k :: 0 <= k < |rows| ==> i < |rows[k]|
    ensures forall k :: 0 <= k < |rows| ==> |rows[k][i]| <= w
    ensures exists k :: 0 <= k < |rows| && |rows[k][i]| == w
    decreases |rows|
  {
    if |rows| == 1 then |rows[0][i]|
    else
      var rest := ColumnMax(rows[1..], i);
      assert forall k :: 1 <= k < |rows| ==> rows[k] == rows[1..][k - 1];
      if |rows[0][i]| >= rest then |rows[0][i]| else rest
  }

  /** `col_widths`: one width per column of the first row, each the longest
      cell of its column. */
  function ColumnWidths(rows: seq<seq<string>>): (widths: seq<nat>)
    requires |rows| > 0 && Rectangular(rows)
    ensures |widths| == |rows[0]|
    ensures forall i, k :: 0 <= i < |widths| && 0 <= k < |rows| ==> |rows[k][i]| <= widths[i]
    ensures forall i :: 0 <= i < |widths| ==> exists k :: 0 <= k < |rows| && |rows[k][i]| == widths[i]
  {
    seq(|rows[0]|, i requires 0 <= i < |rows[0]| => ColumnMax(rows, i))
  }

  /** The cells of one row, each left-justified to its column's width. */
  function PaddedCells(row: seq<string>, widths: seq<nat>): (cells: seq<string>)
    requires |row| == |widths|
    requires forall i :: 0 <= i < |row| ==> |row[i]| <= widths[i]
    ensures |cells| == |row|
    ensures forall i :: 0 <= i < |row| ==> |cells[i]| == widths[i] && cells[i][..|row[i]|] == row[i]
    ensures forall i, j :: 0 <= i < |row| && |row[i]| <= j < widths[i] ==> cells[i][j] == ' '
  {
    seq(|row|, i requires 0 <= i < |row| => LJust(row[i], widths[i]))
  }

  /** One formatted row: its padded cells joined by two spaces. The row
      starts with its first cell, and padding and separators add no line
      break of their own. */
  function FormatRow(row: seq<string>, widths: seq<nat>): (line: string)
    requires |row| == |widths|
    requires forall i :: 0 <= i < |row| ==> |row[i]| <= widths[i]
    ensures |row| >= 1 ==> row[0] <= line
    ensures (forall i :: 0 <= i < |row| ==> '\n' !in row[i]) ==> '\n' !in line
  {
    var cells := PaddedCells(row, widths);
    var line := Join("  ", cells);
    assert |row| >= 1 ==> row[0] <= line by {
      if |row| >= 1 {
        assert cells[0] <= line;
        assert line[..|row[0]|] == cells[0][..|row[0]|];
      }
    }
    assert (forall i :: 0 <= i < |row| ==> '\n' !in row[i]) ==> '\n' !in line by {
      if forall i :: 0 <= i < |row| ==> '\n' !in row[i] {
        forall i | 0 <= i < |cells|
          ensures '\n' !in cells[i]
        {
          assert cells[i] == row[i] + cells[i][|row[i]|..];
        }
        JoinAvoids("  ", cells, '\n');
      }
    }
    line
  }

  /** `formatted_rows`: every row formatted against the table's column widths. */
  function FormattedRows(rows: seq<seq<string>>): (lines: seq<string>)
    requires |rows| > 0 && Rectangular(rows)
    ensures |lines| == |rows|
  {
    var widths := ColumnWidths(rows);
    seq(|rows|, k requires 0 <= k < |rows| => FormatRow(rows[k], widths))
  }

  /** `"\n".join(formatted_rows)`; indexing `rows[0]` fails on an empty
      table, and indexing `row[i]` or `col_widths[i]` fails on a ragged one. */
  function Render(rows: seq<seq<string>>): (r: Result<string>)
    ensures r.Ok? <==> |rows| > 0 && Rectangular(rows)
  {
    if |rows| == 0 || !Rectangular(rows) then Err(TableIndexError)
    else Ok(Join("\n", FormattedRows(rows)))
  }

  /** Sum of the column widths. */
  function Sum(widths: seq<nat>): nat
    decreases |widths|
  {
    if widths == [] then 0 else widths[0] + Sum(widths[1..])
  }

  lemma {:induction false} PaddedTotal(row: seq<string>, widths: seq<nat>)
    requires |row| == |widths|
    requires forall i :: 0 <= i < |row| ==> |row[i]| <= widths[i]
    ensures TotalLength(PaddedCells(row, widths)) == Sum(widths)
    decreases |row|
  {
    if |row| > 0 {
      PaddedTotal(row[1..], widths[1..]);
      assert PaddedCells(row, widths)[1..] == PaddedCells(row[1..], widths[1..]);
    }
  }

  /** Every formatted row of an `n`-column table is `sum(col_widths) + 2*(n-1)`
      characters long. */
  lemma RowLength(row: seq<string>, widths: seq<nat>)
    requires |row| == |widths| >= 1
    requires forall i :: 0 <= i < |row| ==> |row[i]| <= widths[i]
    ensures |FormatRow(row, widths)| == Sum(widths) + 2 * (|widths| - 1)
  {
    JoinLength("  ", PaddedCells(row, widths));
    PaddedTotal(row, widths);
  }

  /** Joining parts without `c` by a separator without `c` yields no `c`. */
  lemma {:induction false} JoinAvoids(sep: string, parts: seq<string>, c: char)
    requires c !in sep
    requires forall k :: 0 <= k < |parts| ==> c !in parts[k]
    ensures c !in Join(sep, parts)
    decreases |parts|
  {
    if |parts| > 1 {
      JoinAvoids(sep, parts[1..], c);
    }
  }

  /** The rendered table of a table without line breaks in its cells has
      exactly one line per row, the rows in order, and no newline after the
      last; every line has the same length, the column widths plus two
      spaces between neighbouring columns. */
  lemma TableLines(rows: seq<seq<string>>)
    requires |rows| > 0 && Rectangular(rows)
    requires forall k, i :: 0 <= k < |rows| && 0 <= i < |rows[k]| ==> '\n' !in rows[k][i]
    ensures Render(rows).Ok?
    ensures Split(Render(rows).value, '\n') == FormattedRows(rows)
    ensures |Split(Render(rows).value, '\n')| == |rows|
    ensures |rows[0]| >= 1 ==> forall k :: 0 <= k < |rows| ==>
      |FormattedRows(rows)[k]| == Sum(ColumnWidths(rows)) + 2 * (|rows[0]| - 1)
  {
    var widths := ColumnWidths(rows);
    var lines := FormattedRows(rows);
    forall k | 0 <= k < |rows|
      ensures '\n' !in lines[k]
      ensures |rows[0]| >= 1 ==> |lines[k]| == Sum(widths) + 2 * (|rows[0]| - 1)
    {
      assert '\n' !in FormatRow(rows[k], widths);
      if |rows[0]| >= 1 {
        RowLength(rows[k], widths);
      }
    }
    SplitJoin(lines, '\n');
  }

  /** The columns of the two-row table `Name/Age, Al/30` are 4 and 3 wide. */
  lemma NameAgeWidths()
    ensures ColumnWidths([["Name", "Age"], ["Al", "30"]]) == [4, 3]
  {
    var rows := [["Name", "Age"], ["Al", "30"]];
    assert ColumnMax(rows, 0) == 4;
    assert ColumnMax(rows, 1) == 3;
  }

  /** Its rows are padded to those widths and joined by two spaces. */
  lemma NameAgeRows()
    ensures FormattedRows([["Name", "Age"], ["Al", "30"]]) == ["Name  Age", "Al    30 "]
  {
    var rows := [["Name", "Age"], ["Al", "30"]];
    var widths := ColumnWidths(rows);
    NameAgeWidths();
    assert LJust("Al", 4) == "Al  ";
    assert LJust("30", 3) == "30 ";
    assert PaddedCells(rows[0], widths) == ["Name", "Age"];
    assert PaddedCells(rows[1], widths) == ["Al  ", "30 "];
    assert FormatRow(rows[0], widths) == "Name  Age";
    assert Join("  ", ["Al  ", "30 "]) == "Al  " + "  " + Join("  ", ["30 "]);
    assert FormatRow(rows[1], widths) == "Al    30 ";
  }

  /** The two-row table `Name/Age, Al/30` renders as `"Name  Age\nAl    30 "`. */
  lemma NameAgeFixture()
    ensures Render([["Name", "Age"], ["Al", "30"]]) == Ok("Name  Age\nAl    30 ")
  {
    var rows := [["Name", "Age"], ["Al", "30"]];
    assert Rectangular(rows);
    NameAgeRows();
    assert Join("\n", ["Name  Age", "Al    30 "]) == "Name  Age\nAl    30 " by {
      assert Join("\n", ["Name  Age", "Al    30 "]) == "Name  Age" + "\n" + Join("\n", ["Al    30 "]);
    }
  }
}
