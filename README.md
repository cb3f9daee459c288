# MySQLToExcelDrive: the spreadsheet renderer, in Dafny

MySQLToExcelDrive is a one-shot export job. It runs one SQL query over an SSH
tunnel and writes the result to an `.xlsx` file. It uploads the file to
Google Drive and posts the link to a Google Chat webhook. Almost all of this
is calls into libraries (sshtunnel, pymysql, pandas, openpyxl, pydrive,
requests). The job's own logic is the rendering part of
`export_to_excel_and_drive` in `drive.py`, lines 63-101, and this project
models only that part:

- **Empty result.** An empty query result (no rows or no columns, as pandas'
  `DataFrame.empty` defines it) ends the run. It produces no file name, no
  sheet and no sizing.
- **File name.** The name is fixed by the date: `data_DD-MM-YYYY.xlsx`, with
  the day and month zero-padded.
- **Grid layout.** Row 0 of the sheet holds the column names. The query's
  rows follow in their original order, with values in column order.
- **Width rule.** Each column's width is the longest `str()` rendering in the
  column, column name included, plus 2. Every cell counts, `None` included
  (it renders as "None").
- **Height rule.** Each row's height is `max(15, L // 20)`. L is the longest
  rendering among the row's truthy cells only. The inner loop writes that
  height once per cell of the row.

A cell is abstracted to its `str()` rendering plus a truthiness bit
(`Tables.Cell`). A query result is `Tables.Frame`: column names plus rows
aligned to them. The worksheet is a class (`Worksheets.Worksheet`). Its row
list and its two dimension tables are fields that the methods update in
place. The tables are maps from column or row number to size, as openpyxl's
`column_dimensions` and `row_dimensions` are dictionaries. The sizing rules
are functions in `Sizing`. The loops of drive.py are methods whose
postconditions tie the new state to those functions. Lemmas state what the
functions mean.

Cell positions and dimension keys are 0-based. The sheet's row 1 is row 0
here, and column `A` is column 0.

`Sizing.Column` and `Sizing.RowCells` define the worksheet's column and row
iteration. They read the grid as a rectangle as wide as the longest row
(`Sizing.ColumnCount`). `Sizing.At` reads a position past the end of a
shorter row as a cell holding `None`, as openpyxl does.
`Sizing.RowCellsPadded` states what a yielded row then is, and
`Export.RenderedShape` proves that a rendered query result needs no such
padding. The model visits every appended row, while openpyxl stops at the
last row that holds a cell. The two agree on every sheet whose last row
holds a cell, and `Export.RenderedShape` shows that every sheet
`ExportToExcel` builds is one.

A row with no truthy cell makes `max()` on drive.py:99 raise `ValueError`.
The model keeps that behaviour and does not invent a fallback height.
`Sizing.RowHeight` returns `None` for such a row. `Worksheet.FitRowHeights`
stops at the first such row and returns its number. Heights already written
for earlier rows stay written, as they do in Python before the exception
propagates. `Export.ExportToExcel` then ends in `RowHeightFault`, and
nothing is saved.

Files: `tables.dfy` (the data model), `sizing.dfy` (the two rules and their
lemmas), `file_name.dfy` (the file name and its inverse), `worksheet.dfy`
(the worksheet and its loops), `export.dfy` (the rendering step as a whole).

## Model

| member | source | states |
|---|---|---|
| `Sizing.ColumnCountIsLongestRow` | drive.py:86 | The worksheet iterates as many columns as its longest row has cells: no row is longer, and some row is that long. |
| `Sizing.RowCellsPadded` | drive.py:98 | Each row the worksheet yields is the row as appended, followed by as many `None` cells as it falls short of the longest row. No row is longer than the column count. |
| `Sizing.LongestIsMax` | drive.py:87-91 | The accumulator's final value is the maximum rendered length: every cell fits under it, and some cell reaches it. It is 0 for no cells, because the accumulator starts at 0. |
| `Sizing.ColumnWidth` | drive.py:87-94 | A column's width is never below 2, because the accumulator starts at 0 and 2 is added. |
| `Sizing.ColumnWidthFits` | drive.py:86-95 | A column's width is the longest rendering in the column plus 2: every cell's length + 2 is at most the width, and some cell reaches it. |
| `Sizing.FalsyCellCountsForWidth` | drive.py:91 | A falsy cell (`None`, `0`, `""`) still counts towards the width: its rendered length + 2 fits in the width. |
| `Sizing.LongestTruthyIsMax` | drive.py:99 | The generator's `max` faults exactly when no cell of the row is truthy. Otherwise it is the longest truthy rendering: every truthy cell fits under it, and one reaches it. |
| `Sizing.RowHeightBounds` | drive.py:99-101 | A row's height faults exactly when it has no truthy cell. Otherwise it is at least 15. Every truthy rendering is shorter than 20 × (height + 1). A height above 15 is reached by some truthy rendering of at least 20 × height characters. |
| `Sizing.LongestTruthyIgnoresFalsy` | drive.py:99 | Replacing a falsy cell by another falsy cell, of any rendering, leaves the longest truthy rendering unchanged. |
| `Sizing.FalsyCellIgnoredByHeight` | drive.py:99-101 | Replacing a falsy cell by another falsy cell, of any rendering, leaves the row's height unchanged. The height rule ranges over truthy cells only. |
| `Sizing.NoneCellWidensColumnButFaultsRow` | drive.py:91-99 | For a column "id" over a row holding only `None`: the `None` cell makes the width 6, and the second row's height faults. The two rules range over different cells. |
| `Sizing.WidthsBelowAt` | drive.py:86-95 | After `n` columns of the width pass, exactly columns `0 .. n - 1` have a width, each its column's width. |
| `Sizing.ColumnWidthsAt` | drive.py:86-95 | The full width pass sets a width for exactly the iterated columns, each its column's width. |
| `Sizing.RowHeightsAt` | drive.py:98-101 | After `n` rows of the height pass, exactly those rows below `n` whose height does not fault have a height, each that row's height. |
| `FileNames.Decimal` | drive.py:71 | `%Y` renders the year as a non-empty string of decimal digits. |
| `FileNames.TwoDigits` | drive.py:71 | `%d` and `%m` render the day and month as exactly two decimal digits. |
| `FileNames.DecimalRoundTrip` | drive.py:71 | Reading back the decimal rendering of a number gives that number. |
| `FileNames.FileNameRoundTrip` | drive.py:71 | The date can be read back out of the file name: `ParseFileName(FileName(d)) == Some(d)`. |
| `FileNames.FileNameInjective` | drive.py:70-71 | Two runs get the same file name if and only if they fall on the same date. |
| `FileNames.FourDigitYearName` | drive.py:71 | For a year from 1000 on, the name is 20 characters long: `data_`, `DD`, `-`, `MM`, `-`, `YYYY`, `.xlsx`. |
| `Worksheets.Worksheet.constructor` | drive.py:74-75 | A new workbook's active sheet has no cells and no dimensions set. |
| `Worksheets.Worksheet.Append` | drive.py:79-83 | Appending writes the row below the existing rows. Nothing else changes. |
| `Worksheets.Worksheet.LongestInColumn` | drive.py:87-91 | The accumulator loop over one column ends with that column's longest rendering. |
| `Worksheets.Worksheet.FitColumnWidths` | drive.py:86-95 | The width pass leaves each iterated column with its width, longest rendering + 2. Any other entry keeps its old value. |
| `Worksheets.Worksheet.FitRowHeights` | drive.py:98-101 | The height pass gives every row its height, written once per cell, and touches no other entry. At the first row with no truthy cell it faults and returns that row. Only the rows before it have heights then. |
| `Export.ReadBackRender` | drive.py:77-83 | The sheet has one row more than the query result. Reading the sheet back gives the query result unchanged: the same column names, the same rows in the same order. |
| `Export.UniformColumnCount` | drive.py:79-86 | Rows all `n` cells long make the worksheet iterate exactly `n` columns. |
| `Export.RenderedShape` | drive.py:78-98 | A rendered query result iterates one column per column name, and each row it yields is the row as appended, with no padding. |
| `Export.ColumnWidthCoversHeaderAndValues` | drive.py:86-95 | Each column is at least as wide as its name + 2, and at least as wide as each of its values + 2. |
| `Export.ExportToExcel` | drive.py:63-101 | An empty result, and only an empty result, ends with `NoData`. Otherwise the grid is the column names followed by the rows. The file name is `FileName(today)`. The widths and heights are the ones the rules give. The run ends with `Saved` exactly when every row has a truthy cell; otherwise it ends with `RowHeightFault` at the first row that has none. |

## Left out

- Opening and closing the SSH tunnel, and connecting to MySQL, querying it and disconnecting (drive.py:18-49). These are network I/O through sshtunnel, pymysql and pandas.
- The `try`/`finally` cleanup in the `__main__` block (drive.py:133-150). It is resource handling around external handles.
- Loading Google Drive credentials, authenticating, and listing, deleting and uploading files, then reading back the file's link (drive.py:57-61, 105-131). These are library calls over the network and the file system.
- The webhook posts (drive.py:51-55, 66-67). These are HTTP I/O. Only the decision on `dataframe.empty` is modelled, as `Outcome.NoData`.
- `workbook.save` and `os.path.abspath` (drive.py:72, 103). These are file-system I/O. `Outcome.Saved` carries what would be saved.
- `datetime.now()` (drive.py:70). The date is a parameter (`FileNames.Date`). Only its `strftime` formatting is modelled. Whether `%Y` zero-pads a year below 1000 depends on the Python version and platform; the model renders it without padding. Every year from 1000 on has four digits either way, and `FileNames.FourDigitYearName` states the name's shape for those years.
- Python's `str()` and `bool()` on arbitrary values (numbers, NaN, timestamps). Each cell is already abstracted to its rendering and its truthiness. The bare `except: pass` on drive.py:92-93 is not modelled, because taking the length of a string cannot raise.
- openpyxl's column letters and dimension objects. Widths and heights are keyed by 0-based column and row number instead.
- openpyxl's coercion of values when appending (for example, rejecting types it cannot store). Appending is modelled as writing the cells as given.
- Worksheets whose last appended rows are empty. openpyxl stops at the last row holding a cell; the model visits every appended row. `Export.RenderedShape` shows that the renderer never builds such a sheet: every row it appends has one cell per column name.
- Worksheets with rows appended but no cell in any of them, which openpyxl iterates as one row of one empty cell. A sheet with nothing appended is iterated as nothing, by openpyxl and the model alike. The sizing passes are only reached with a non-empty query result, so neither case arises in the renderer.
