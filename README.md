# Olympic medalists table: row repair

A model of the row loop of `webScrapingProject.py`. The script downloads the
Wikipedia "List of multiple Olympic medalists" page. It takes the header cells
of the first table as the column names (`table_titles`) and walks the body rows.
Wikipedia merges the "rank" and "total" cells of tied athletes, so some rows
arrive with fewer `<td>` cells. The script rebuilds each such row from the row
it processed just before (`previous_values`). A row goes into the DataFrame
only when it then has one cell per header. The repaired row always becomes the
new `previous_values`, whether it was added or not.

The project has three modules:

- `Wrappers` (`Wrappers.dfy`): a `Result` type for the exceptions the script can raise.
- `RowRepair` (`RowRepair.dfy`): the repair of one row (lines 24-38).
  - `Repaired` states the repair case by case.
  - `RepairRow` runs the script's three `if` statements one after the other on
    the list `cols`, the way the script edits it in place.
  - `Index` is Python list indexing, which raises `IndexError` past the end.
- `Normalizer` (`Normalizer.dfy`): the loop (lines 20-42).
  - `Step` is one pass of the loop body.
  - `Run` is the left fold of `Step` from the empty `previous_values` and the
    empty table.
  - `NormalizeRows` is the loop itself, with the accumulator `previous` and the
    growing table. It is proved equal to `Run`.
  - The lemmas relate `Run` to an independent description: repair every row
    against the repair of the row before it (`RepairChain`), then keep the rows
    of the right width in order (`Keep`).

The script's behaviour is modelled as written, including its constants. The
rules apply to rows of exactly 10 and 9 cells, and the total is read from
`previous_values[10]`, whatever the number of header cells. The header count
`W` only decides which repaired rows are added to the table. The test
`isinstance(cols[0], Number)` is applied to a `str`, so it is false for every
cell (`IsNumberInstance`). As a result, a 10-cell row always gets the previous
rank put in front, even when its first cell is a rank such as "3" and the
missing cell was the total. The branch that would append the previous total
(lines 34-35) never changes a row: `RepairRow`, which runs all three `if`
statements in order, returns `[previous[0]] + cols` for every 10-cell row.

The script raises `IndexError` when `previous_values` is too short for the
cell a repair reads. There are two such cases:

- a row of 9 or 10 cells while `previous_values` is empty, which stops at
  `previous_values[0]` (lines 33, 37). That list is empty before the first body
  row and after any row with no `<td>` cells, such as a second header row.
- a 9-cell row after a row whose stored (repaired) form has 1 to 10 cells,
  that is a body row of 1 to 8 cells, which stops at `previous_values[10]`
  (line 38). The earlier row is kept as `previous_values` by line 42 even when
  it was dropped from the table. A 9- or 10-cell row is stored
  with 11 cells, so a 9-cell row after it is repaired without error.

Either one stops the script, and no CSV is written. The model returns
`Failure(Halt(row, IndexError(index, length)))`.

## Model

| member | source | states |
|---|---|---|
| `RowRepair.Index` | webScrapingProject.py:33-38 | Python's `xs[i]` succeeds exactly when `-len(xs) <= i < len(xs)`. For a non-negative `i` in range it gives `xs[i]`, and for a negative one `xs[len(xs) + i]`. Out of range it raises `IndexError`; the model records the index and the length of the failed read. |
| `RowRepair.IsNumberInstance` | webScrapingProject.py:32-34 | `isinstance(cell, Number)` is false for every text cell. |
| `RowRepair.Repaired` | webScrapingProject.py:32-38 | The repair fails exactly in two cases: a 10-cell row with an empty previous row, or a 9-cell row with a previous row of at most 10 cells. It then raises at index 0 when the previous row is empty and at index 10 otherwise. A repaired 9- or 10-cell row has 11 cells and starts with the previous rank. A repaired 9-cell row also ends with the previous total. Any other row keeps its length. |
| `RowRepair.RepairRow` | webScrapingProject.py:32-38 | The three `if` statements run in order. A 10-cell row becomes `[previous[0]] + cols`, so the append of lines 34-35 never changes the result, and a 9-cell row becomes `[previous[0]] + cols + [previous[10]]`. Any other row is returned unchanged. At most one branch changes the row. The repair fails exactly when the previous row lacks a cell it reads: index 0 for 10 cells, and index 0 or 10 for 9 cells. |
| `RowRepair.RepairedWidth` | webScrapingProject.py:32-38 | A repaired 9- or 10-cell row has 11 cells, and any other row keeps its length. The input cells stay together and in order, moved one place to the right when a rank is put in front. |
| `Normalizer.Step` | webScrapingProject.py:24-42 | One row fails exactly when its repair fails. Otherwise the new previous row is the repaired row, whether or not it was added. The old table is a prefix of the new one. The table grows by one row exactly when the repaired row has `W` cells, and that row is then its last entry. |
| `Normalizer.Run` | webScrapingProject.py:20-42 | Every row in the final table has `W` cells, and the table has no more rows than the input. A halt names a row of the input. |
| `Normalizer.NormalizeRows` | webScrapingProject.py:16-42 | The loop gives the same result as the fold `Run`: the same table, or the same halting row and `IndexError`. Every row it outputs has `len(table_titles)` cells. |
| `Normalizer.HaltPersists` | webScrapingProject.py:23-38 | Once an `IndexError` stops the loop at some row, the rows after it change nothing. |
| `Normalizer.HaltIsFirstFault` | webScrapingProject.py:22-38 | When the loop stops, the rows before the halting row ran cleanly. Repairing the halting row against their last repaired row raises the reported `IndexError`. |
| `Normalizer.FaultHalts` | webScrapingProject.py:22-38 | Conversely, if the rows before row `k` run cleanly and row `k`'s repair raises, the loop stops at row `k` with that error. |
| `Normalizer.EmptyPreviousStopsRepair` | webScrapingProject.py:22-42 | A 9- or 10-cell row stops the script with `IndexError(0, 0)` whenever `previous_values` is empty. That holds on the first body row and after a row with no cells. |
| `Normalizer.FirstRowNeedsPrevious` | webScrapingProject.py:22-37 | A first body row of 9 or 10 cells stops the script. It reads `previous_values[0]` of the empty list: `IndexError(0, 0)` at row 0. |
| `Normalizer.ShortPreviousStopsNineCellRow` | webScrapingProject.py:36-42 | A 9-cell row stops the script with `IndexError(10, n)` when it follows a row whose repaired form has between 1 and 10 cells. That includes a row that was dropped. |
| `Normalizer.TableGrowsAtEnd` | webScrapingProject.py:39-41 | Rows are only added at the end: the table after any prefix of the rows is a prefix of the final table. |
| `Normalizer.Keep` | webScrapingProject.py:39-41 | The kept rows all have `W` cells, and there are no more of them than repaired rows. |
| `Normalizer.KeepExactly` | webScrapingProject.py:39-41 | A repaired row is in the table exactly when it has `W` cells. Rows of any other length are dropped. |
| `Normalizer.ChainRun` | webScrapingProject.py:23-42 | When every row can be repaired against the repair of the row before it, the loop's table is the repaired rows of `W` cells in input order. `previous_values` ends as the last repaired row, or `[]` when there are no rows. |
| `Normalizer.RunIsChain` | webScrapingProject.py:23-42 | Every run that raises no error is such a row-by-row repair. |
| `Normalizer.RerunKeepsTable` | webScrapingProject.py:32-41 | Running the loop again over rows that already have `W` cells returns them unchanged, provided `W` is neither 9 nor 10. |

## Left out

- The HTTP request with its User-Agent header (lines 6-10) is network I/O and is not modelled.
- The BeautifulSoup parse is a foreign library and is not modelled. This covers `find_all('table')[0]`, `find_all('th')`, `find_all('tr')[1:]`, `find_all('td')` and `.text.strip()` (lines 11-16, 21, 24-25). Its results are inputs to the model: the header cells and the stripped text cells of each body row.
- The pandas DataFrame is a plain sequence of rows. Its construction, the internals of `df.loc[len(df)] = cols`, `print(df)` and `to_csv` (lines 17-18, 40-41, 43-44) are a foreign library and file I/O.
- `numbers.Number` type dispatch is covered only by the fact the script depends on: a `str` cell is never a `Number`.
- List aliasing is not modelled. `previous_values = cols` makes both names refer to one list. Line 25 builds a new `cols` list before any later edit, so the sharing is never observable.
- NormalizeRows, Step, Run: with no header cells (`W = 0`), pandas raises `ValueError` at `df.loc[len(df)] = []`, because a frame with no columns cannot take a row. The model appends the empty row instead.
