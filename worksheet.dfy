/**
 The worksheet the renderer fills: rows are appended one at a time, then the
 two sizing passes write each column's width and each row's height into the
 sheet's dimension tables in place.
 */
module Worksheets {

  import opened Options
  import opened Tables
  import opened Sizing

  class Worksheet {
    /** The rows appended so far, in order. */
    var grid: Grid
    /** Column number to width: the sheet's column dimensions. */
    var columnWidths: map<nat, nat>
    /** Row number to height: the sheet's row dimensions. */
    var rowHeights: map<nat, nat>

    /** A new workbook's active sheet: no cells, no dimensions set. */
    constructor ()
      ensures grid == [] && columnWidths == map[] && rowHeights == map[]
    {
      grid := [];
      columnWidths := map[];
      rowHeights := map[];
    }

    /** Writes `row` as the next row, below the ones already there. */
    method Append(row: seq<Cell>)
      modifies this`grid
      ensures grid == old(grid) + [row]
    {
      grid := grid + [row];
    }

    /**
     The accumulator of the width pass for column `c`: starts at 0 and takes
     the maximum with each cell's rendered length, top to bottom.
     */
    method LongestInColumn(c: nat) returns (maxLength: nat)
      ensures maxLength == Longest(Column(grid, c))
    {
      maxLength := 0;
      var r := 0;
      while r < |grid|
        invariant r <= |grid|
        invariant maxLength == Longest(Column(grid, c)[..r])
      {
        assert Column(grid, c)[..r + 1][..r] == Column(grid, c)[..r];
        maxLength := Max(maxLength, |At(grid, r, c).text|);
        r := r + 1;
      }
      assert Column(grid, c)[..r] == Column(grid, c);
    }

    /**
     The width pass: every column gets its longest rendering plus two; the
     widths of columns beyond the grid, if any were set, stay as they were.
     */
    method FitColumnWidths()
      modifies this`columnWidths
      ensures columnWidths == old(columnWidths) + ColumnWidths(grid)
    {
      var n := ColumnCount(grid);
      var c: nat := 0;
      while c < n
        invariant c <= n
        invariant columnWidths == old(columnWidths) + WidthsBelow(grid, c)
      {
        var maxLength := LongestInColumn(c);
        var adjustedWidth := maxLength + 2;
        WidthsBelowStep(old(columnWidths), grid, c, adjustedWidth);
        columnWidths := columnWidths[c := adjustedWidth];
        c := c + 1;
      }
    }

    /**
     The height pass, row by row: each row gets its height, written once per
     cell of the row. At the first row with no truthy cell the pass faults
     and returns that row's number; the rows before it keep the heights
     already written, and no other row is touched.
     */
    method FitRowHeights() returns (fault: Option<nat>)
      modifies this`rowHeights
      ensures fault.None? ==> forall r :: 0 <= r < |grid| ==> RowHeight(RowCells(grid, r)).Some?
      ensures fault.None? ==> rowHeights == old(rowHeights) + RowHeights(grid, |grid|)
      ensures fault.Some? ==> fault.value < |grid| && RowHeight(RowCells(grid, fault.value)).None?
      ensures fault.Some? ==> forall r :: 0 <= r < fault.value ==> RowHeight(RowCells(grid, r)).Some?
      ensures fault.Some? ==> rowHeights == old(rowHeights) + RowHeights(grid, fault.value)
    {
      var r := 0;
      while r < |grid|
        invariant r <= |grid|
        invariant forall k :: 0 <= k < r ==> RowHeight(RowCells(grid, k)).Some?
        invariant rowHeights == old(rowHeights) + RowHeights(grid, r)
      {
        var cells := RowCells(grid, r);
        var longest := LongestTruthy(cells);
        if longest.None? {
          return Some(r);
        }
        var maxHeight := longest.value / 20;
        var height := Max(15, maxHeight);
        ghost var before := rowHeights;
        var i := 0;
        while i < |cells|
          invariant i <= |cells|
          invariant rowHeights == if i == 0 then before else before[r := height]
        {
          rowHeights := rowHeights[r := height];
          i := i + 1;
        }
        RowHeightsStep(old(rowHeights), grid, r, height);
        r := r + 1;
      }
      return None;
    }
  }
}
