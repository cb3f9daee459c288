/**
 The rendering half of the export: an empty query result ends the run with
 no file; otherwise the result is laid out on a fresh worksheet under a file
 name fixed by the date, and the worksheet's columns and rows are sized.
 */
module Export {

  import opened Options
  import opened Tables
  import opened Sizing
  import opened FileNames
  import opened Worksheets

  /** How rendering ends. */
  datatype Outcome =
    /** The query returned no data: no file, no sheet, no sizing. */
    | NoData
    /** Sizing row `row` faulted (it holds no truthy cell); nothing is saved. */
    | RowHeightFault(row: nat)
    /** The sheet to be saved under `fileName`, with its cells and dimensions. */
    | Saved(fileName: string, grid: Grid, columnWidths: map<nat, nat>, rowHeights: map<nat, nat>)

  /** The worksheet's cells: the column names, then every row in order. */
  function Render(frame: Frame): Grid {
    [frame.columns] + frame.rows
  }

  /** Reads the column names and rows back off a worksheet's cells. */
  function ReadBack(g: Grid): Table
    requires g != []
  {
    Table(g[0], g[1..])
  }

  /**
   Reading the worksheet back gives the query result unchanged: the same
   column names, the same rows in the same order, nothing sorted or dropped.
   */
  lemma ReadBackRender(frame: Frame)
    ensures |Render(frame)| == |frame.rows| + 1
    ensures ReadBack(Render(frame)) == frame
  {
    assert Render(frame)[1..] == frame.rows;
  }

  /** Rows of equal length `n`: the worksheet iterates exactly `n` columns. */
  lemma {:induction false} UniformColumnCount(g: Grid, n: nat)
    requires g != []
    requires forall r :: 0 <= r < |g| ==> |g[r]| == n
    ensures ColumnCount(g) == n
  {
    if |g| > 1 {
      UniformColumnCount(g[..|g| - 1], n);
    }
  }

  /**
   A rendered query result is rectangular: the worksheet iterates exactly
   one column per column name, and every row it yields is the row that was
   appended, with no padding.
   */
  lemma RenderedShape(frame: Frame)
    ensures ColumnCount(Render(frame)) == |frame.columns|
    ensures forall r :: 0 <= r < |Render(frame)| ==> RowCells(Render(frame), r) == Render(frame)[r]
  {
    var g := Render(frame);
    assert forall r :: 1 <= r < |g| ==> g[r] == frame.rows[r - 1];
    UniformColumnCount(g, |frame.columns|);
  }

  /**
   Column `c` of a rendered query result is at least as wide as its name
   plus two, and as wide as each of its values plus two, `None` values
   (rendered "None") included.
   */
  lemma ColumnWidthCoversHeaderAndValues(frame: Frame, c: nat)
    requires c < |frame.columns|
    ensures |frame.columns[c].text| + 2 <= ColumnWidth(Render(frame), c)
    ensures forall i :: 0 <= i < |frame.rows| ==> |frame.rows[i][c].text| + 2 <= ColumnWidth(Render(frame), c)
  {
    var g := Render(frame);
    ColumnWidthFits(g, c);
    assert At(g, 0, c) == frame.columns[c];
    forall i | 0 <= i < |frame.rows|
      ensures |frame.rows[i][c].text| + 2 <= ColumnWidth(g, c)
    {
      assert At(g, i + 1, c) == frame.rows[i][c];
    }
  }

  /**
   The rendering part of the export for a query result `frame` on the date
   `today`.
   */
  method ExportToExcel(frame: Frame, today: Date) returns (outcome: Outcome)
    requires today.Valid()
    ensures outcome.NoData? <==> frame.IsEmpty()
    ensures outcome.Saved? ==> outcome.fileName == FileName(today)
    ensures outcome.Saved? ==> outcome.grid == Render(frame)
    ensures outcome.Saved? ==> outcome.columnWidths == ColumnWidths(Render(frame))
    ensures outcome.Saved? ==> outcome.rowHeights == RowHeights(Render(frame), |Render(frame)|)
    ensures !frame.IsEmpty() ==>
      (outcome.Saved? <==> forall r :: 0 <= r < |Render(frame)| ==> RowHeight(RowCells(Render(frame), r)).Some?)
    ensures outcome.RowHeightFault? ==>
      && outcome.row < |Render(frame)|
      && RowHeight(RowCells(Render(frame), outcome.row)).None?
      && forall r :: 0 <= r < outcome.row ==> RowHeight(RowCells(Render(frame), r)).Some?
  {
    if frame.IsEmpty() {
      return NoData;
    }
    var fileName := FileName(today);
    var sheet := new Worksheet();
    sheet.Append(frame.columns);
    var i := 0;
    while i < |frame.rows|
      invariant i <= |frame.rows|
      invariant sheet.grid == [frame.columns] + frame.rows[..i]
      invariant sheet.columnWidths == map[] && sheet.rowHeights == map[]
    {
      sheet.Append(frame.rows[i]);
      i := i + 1;
    }
    assert frame.rows[..i] == frame.rows;
    ghost var g := sheet.grid;
    assert g == Render(frame);
    sheet.FitColumnWidths();
    UnionEmpty(ColumnWidths(g));
    var fault := sheet.FitRowHeights();
    if fault.Some? {
      return RowHeightFault(fault.value);
    }
    UnionEmpty(RowHeights(g, |g|));
    return Saved(fileName, sheet.grid, sheet.columnWidths, sheet.rowHeights);
  }
}
