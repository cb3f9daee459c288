/**
 The two sizing rules of the spreadsheet renderer, as functions of the grid
 the worksheet holds: a column is as wide as its longest rendered value plus
 two, and a row is as tall as its longest truthy value divided by twenty, but
 never below fifteen.

 The functions carry only the facts every caller needs; what each one means
 is stated and proved in the lemma that follows it.
 */
module Sizing {

  import opened Options
  import opened Tables

  /** The cells a worksheet holds, row by row; rows may differ in length. */
  type Grid = seq<seq<Cell>>

  function Max(a: nat, b: nat): nat {
    if a < b then b else a
  }

  /**
   The number of columns the worksheet iterates over: the length of its
   longest row.
   */
  function ColumnCount(g: Grid): nat {
    if g == [] then 0 else Max(ColumnCount(g[..|g| - 1]), |g[|g| - 1]|)
  }

  /** No row is longer than the column count, and some row is that long. */
  lemma {:induction false} ColumnCountIsLongestRow(g: Grid)
    ensures forall r :: 0 <= r < |g| ==> |g[r]| <= ColumnCount(g)
    ensures ColumnCount(g) == 0 || exists r :: 0 <= r < |g| && |g[r]| == ColumnCount(g)
  {
    if g != [] {
      ColumnCountIsLongestRow(g[..|g| - 1]);
    }
  }

  /**
   The cell at row `r`, column `c`. A position past the end of a shorter row
   reads as a fresh cell holding `None`.
   */
  function At(g: Grid, r: nat, c: nat): Cell
    requires r < |g|
  {
    if c < |g[r]| then g[r][c] else NONE_CELL
  }

  /** Column `c`, top to bottom, as the worksheet's column iteration yields it. */
  function Column(g: Grid, c: nat): (col: seq<Cell>)
    ensures |col| == |g|
    ensures forall r :: 0 <= r < |g| ==> col[r] == At(g, r, c)
  {
    seq(|g|, r requires 0 <= r < |g| => At(g, r, c))
  }

  /** Row `r`, left to right, as the worksheet's row iteration yields it. */
  function RowCells(g: Grid, r: nat): (row: seq<Cell>)
    requires r < |g|
    ensures |row| == ColumnCount(g)
    ensures forall c :: 0 <= c < |row| ==> row[c] == At(g, r, c)
  {
    seq(ColumnCount(g), c requires 0 <= c < ColumnCount(g) => At(g, r, c))
  }

  /**
   A row as the worksheet yields it is the row as written, followed by as
   many `None` cells as it falls short of the longest row.
   */
  lemma RowCellsPadded(g: Grid, r: nat)
    requires r < |g|
    ensures |g[r]| <= ColumnCount(g)
         && RowCells(g, r) == g[r] + seq(ColumnCount(g) - |g[r]|, _ => NONE_CELL)
  {
    ColumnCountIsLongestRow(g);
  }

  /**
   The longest rendering among `cells`, every cell counted whatever its
   truthiness; 0 when there is none, as the accumulator starts at 0.
   */
  function Longest(cells: seq<Cell>): nat {
    if cells == [] then 0
    else Max(Longest(cells[..|cells| - 1]), |cells[|cells| - 1].text|)
  }

  /** `Longest` is the maximum: every rendering fits, and one is that long. */
  lemma {:induction false} LongestIsMax(cells: seq<Cell>)
    ensures forall i :: 0 <= i < |cells| ==> |cells[i].text| <= Longest(cells)
    ensures (cells == [] && Longest(cells) == 0)
         || exists i :: 0 <= i < |cells| && |cells[i].text| == Longest(cells)
  {
    if cells != [] {
      LongestIsMax(cells[..|cells| - 1]);
    }
  }

  /** The width given to column `c`: its longest rendering plus two. */
  function ColumnWidth(g: Grid, c: nat): (w: nat)
    ensures w >= 2
  {
    Longest(Column(g, c)) + 2
  }

  /**
   Column `c`'s width is the least that leaves two characters to spare
   beside every rendering in the column: no rendering is longer than the
   width minus two, and one is exactly that long unless the grid is empty.
   */
  lemma ColumnWidthFits(g: Grid, c: nat)
    ensures forall r :: 0 <= r < |g| ==> |At(g, r, c).text| + 2 <= ColumnWidth(g, c)
    ensures (g == [] && ColumnWidth(g, c) == 2)
         || exists r :: 0 <= r < |g| && |At(g, r, c).text| + 2 == ColumnWidth(g, c)
  {
    var col := Column(g, c);
    LongestIsMax(col);
    if g != [] {
      var i :| 0 <= i < |col| && |col[i].text| == Longest(col);
      assert |At(g, i, c).text| + 2 == ColumnWidth(g, c);
    }
  }

  /**
   The longest rendering among the truthy `cells` only, or `None` when no
   cell is truthy: Python's `max()` over an empty generator raises there.
   */
  function LongestTruthy(cells: seq<Cell>): Option<nat> {
    if cells == [] then None
    else
      var last := cells[|cells| - 1];
      var before := LongestTruthy(cells[..|cells| - 1]);
      if !last.truthy then before
      else if before.None? then Some(|last.text|)
      else Some(Max(before.value, |last.text|))
  }

  /**
   `LongestTruthy` faults exactly when no cell is truthy, and otherwise is
   the maximum over the truthy cells: every truthy rendering fits, and one
   is that long.
   */
  lemma {:induction false} LongestTruthyIsMax(cells: seq<Cell>)
    ensures LongestTruthy(cells).None? <==> forall i :: 0 <= i < |cells| ==> !cells[i].truthy
    ensures LongestTruthy(cells).Some? ==>
      forall i :: 0 <= i < |cells| && cells[i].truthy ==> |cells[i].text| <= LongestTruthy(cells).value
    ensures LongestTruthy(cells).Some? ==>
      exists i :: 0 <= i < |cells| && cells[i].truthy && |cells[i].text| == LongestTruthy(cells).value
  {
    if cells != [] {
      var before := cells[..|cells| - 1];
      LongestTruthyIsMax(before);
      assert forall i :: 0 <= i < |before| ==> before[i] == cells[i];
    }
  }

  /**
   The height given to a row with these cells, or `None` when computing it
   faults because no cell is truthy.
   */
  function RowHeight(cells: seq<Cell>): Option<nat> {
    match LongestTruthy(cells)
    case None => None
    case Some(m) => Some(Max(15, m / 20))
  }

  /**
   A row's height faults exactly when no cell in it is truthy. Otherwise it
   is at least 15, every truthy rendering is shorter than twenty characters
   per unit of height plus one unit, and a height above 15 is reached by
   some truthy rendering of at least twenty characters per unit.
   */
  lemma RowHeightBounds(cells: seq<Cell>)
    ensures RowHeight(cells).None? <==> forall i :: 0 <= i < |cells| ==> !cells[i].truthy
    ensures RowHeight(cells).Some? ==> RowHeight(cells).value >= 15
    ensures RowHeight(cells).Some? ==>
      forall i :: 0 <= i < |cells| && cells[i].truthy ==> |cells[i].text| < 20 * (RowHeight(cells).value + 1)
    ensures RowHeight(cells).Some? ==>
      (RowHeight(cells).value == 15 ||
       exists i :: 0 <= i < |cells| && cells[i].truthy && 20 * RowHeight(cells).value <= |cells[i].text|)
  {
    LongestTruthyIsMax(cells);
    if LongestTruthy(cells).Some? {
      var m := LongestTruthy(cells).value;
      var h := RowHeight(cells).value;
      assert m < 20 * (m / 20 + 1);
      forall i | 0 <= i < |cells| && cells[i].truthy
        ensures |cells[i].text| < 20 * (h + 1)
      {
        assert |cells[i].text| <= m;
      }
      if h != 15 {
        var i :| 0 <= i < |cells| && cells[i].truthy && |cells[i].text| == m;
        assert 20 * (m / 20) <= m;
      }
    }
  }

  /** The widths of columns `0 .. n - 1`, keyed by column number. */
  function WidthsBelow(g: Grid, n: nat): map<nat, nat> {
    if n == 0 then map[] else WidthsBelow(g, n - 1)[n - 1 := ColumnWidth(g, n - 1)]
  }

  /** The widths of all columns of the grid, keyed by column number. */
  function ColumnWidths(g: Grid): map<nat, nat> {
    WidthsBelow(g, ColumnCount(g))
  }

  /** The widths below `n` set exactly columns `0 .. n - 1`, each to its width. */
  lemma {:induction false} WidthsBelowAt(g: Grid, n: nat, k: nat)
    ensures k in WidthsBelow(g, n) <==> k < n
    ensures k < n ==> WidthsBelow(g, n)[k] == ColumnWidth(g, k)
  {
    if n > 0 {
      WidthsBelowAt(g, n - 1, k);
    }
  }

  /**
   The width pass sets one width per column the worksheet iterates, no more,
   and each is that column's width.
   */
  lemma ColumnWidthsAt(g: Grid)
    ensures forall k: nat :: k in ColumnWidths(g) <==> k < ColumnCount(g)
    ensures forall k: nat :: k < ColumnCount(g) ==> ColumnWidths(g)[k] == ColumnWidth(g, k)
  {
    forall k: nat
      ensures k in ColumnWidths(g) <==> k < ColumnCount(g)
      ensures k < ColumnCount(g) ==> ColumnWidths(g)[k] == ColumnWidth(g, k)
    {
      WidthsBelowAt(g, ColumnCount(g), k);
    }
  }

  /**
   The heights of rows `0 .. n - 1`, keyed by row number, leaving out any row
   whose height faults.
   */
  function RowHeights(g: Grid, n: nat): map<nat, nat>
    requires n <= |g|
  {
    if n == 0 then map[]
    else
      match RowHeight(RowCells(g, n - 1))
      case None => RowHeights(g, n - 1)
      case Some(h) => RowHeights(g, n - 1)[n - 1 := h]
  }

  /**
   The heights below `n` set exactly the rows `0 .. n - 1` whose height does
   not fault, each to its height.
   */
  lemma {:induction false} RowHeightsAt(g: Grid, n: nat, k: nat)
    requires n <= |g|
    ensures k in RowHeights(g, n) <==> k < n && RowHeight(RowCells(g, k)).Some?
    ensures k in RowHeights(g, n) ==> RowHeights(g, n)[k] == RowHeight(RowCells(g, k)).value
  {
    if n > 0 {
      RowHeightsAt(g, n - 1, k);
    }
  }

  /** Setting column `n`'s width on top of the widths below `n` gives the widths below `n + 1`. */
  lemma WidthsBelowStep(prior: map<nat, nat>, g: Grid, n: nat, w: nat)
    requires w == ColumnWidth(g, n)
    ensures prior + WidthsBelow(g, n + 1) == (prior + WidthsBelow(g, n))[n := w]
  {
    UnionUpdate(prior, WidthsBelow(g, n), n, w);
  }

  /** Setting row `n`'s height on top of the heights below `n` gives the heights below `n + 1`. */
  lemma RowHeightsStep(prior: map<nat, nat>, g: Grid, n: nat, h: nat)
    requires n < |g| && RowHeight(RowCells(g, n)) == Some(h)
    ensures prior + RowHeights(g, n + 1) == (prior + RowHeights(g, n))[n := h]
  {
    UnionUpdate(prior, RowHeights(g, n), n, h);
  }

  /** Nothing set before: the union is the new map. */
  lemma UnionEmpty(m: map<nat, nat>)
    ensures map[] + m == m
  {
  }

  /** Updating the right operand of a union updates the union. */
  lemma UnionUpdate(a: map<nat, nat>, b: map<nat, nat>, k: nat, v: nat)
    ensures a + b[k := v] == (a + b)[k := v]
  {
  }

  /**
   A falsy cell does not affect a row's height: replacing it by any other
   falsy cell, whatever its rendering, leaves the height as it was.
   */
  lemma FalsyCellIgnoredByHeight(cells: seq<Cell>, i: nat, x: Cell)
    requires i < |cells| && !cells[i].truthy && !x.truthy
    ensures RowHeight(cells[i := x]) == RowHeight(cells)
  {
    LongestTruthyIgnoresFalsy(cells, i, x);
  }

  lemma {:induction false} LongestTruthyIgnoresFalsy(cells: seq<Cell>, i: nat, x: Cell)
    requires i < |cells| && !cells[i].truthy && !x.truthy
    ensures LongestTruthy(cells[i := x]) == LongestTruthy(cells)
  {
    var n := |cells|;
    var updated := cells[i := x];
    assert updated[..n - 1] == if i < n - 1 then cells[..n - 1][i := x] else cells[..n - 1];
    if i < n - 1 {
      LongestTruthyIgnoresFalsy(cells[..n - 1], i, x);
    }
  }

  /**
   A falsy cell still counts towards its column's width: whatever its
   truthiness, its rendering fits in the width with two to spare.
   */
  lemma FalsyCellCountsForWidth(g: Grid, r: nat, c: nat)
    requires r < |g| && c < |g[r]| && !g[r][c].truthy
    ensures |g[r][c].text| + 2 <= ColumnWidth(g, c)
  {
    ColumnWidthFits(g, c);
    assert At(g, r, c) == g[r][c];
  }

  /**
   A column named "id" over a row holding `None`: the `None` cell sets the
   column's width to 6, and the second row's height faults.
   */
  lemma NoneCellWidensColumnButFaultsRow()
    ensures ColumnWidth([[Cell("id", true)], [NONE_CELL]], 0) == 6
    ensures RowHeight(RowCells([[Cell("id", true)], [NONE_CELL]], 1)).None?
  {
    var g := [[Cell("id", true)], [NONE_CELL]];
    ColumnWidthFits(g, 0);
    assert |At(g, 1, 0).text| == 4;
    assert ColumnCount(g) == 1 by {
      assert g[..1] == [[Cell("id", true)]];
      assert g[..1][..0] == [];
      assert ColumnCount(g[..1]) == 1;
    }
    RowHeightBounds(RowCells(g, 1));
  }
}
