/** An optional value: `None` stands for the Python fault or the missing entry. */
module Options {

  datatype Option<+T> = None | Some(value: T)
}

/**
 The values the exporter works on: the query result (a pandas DataFrame) and
 its cells, each abstracted to what the renderer looks at.
 */
module Tables {

  /**
   A cell value as the sizing rules see it: `text` is what Python's `str()`
   renders it as, and `truthy` is what `bool()` says of it. The two are
   independent: `None` renders as "None" and is falsy, `0` renders as "0" and
   is falsy, the empty string renders as "" and is falsy.
   */
  datatype Cell = Cell(text: string, truthy: bool)

  /** The value of a cell nobody wrote to: Python's `None`. */
  const NONE_CELL := Cell("None", false)

  /**
   A query result: the column names, then the rows, each a tuple of values
   in column order.
   */
  datatype Table = Table(columns: seq<Cell>, rows: seq<seq<Cell>>) {

    /** Every row has one value per column, as pandas guarantees. */
    predicate Aligned() {
      forall i :: 0 <= i < |rows| ==> |rows[i]| == |columns|
    }

    /** pandas' `DataFrame.empty`: true when either axis has length zero. */
    predicate IsEmpty() {
      |rows| == 0 || |columns| == 0
    }
  }

  /** The tables a query can return: rows aligned to the columns. */
  type Frame = t: Table | t.Aligned() witness Table([], [])
}
