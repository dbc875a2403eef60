/**
  The per-row repair of webScrapingProject.py (lines 24-38).

  Wikipedia merges the "rank" and "total" cells of tied athletes, so some body
  rows of the medalists table arrive with fewer `<td>` cells. The script
  rebuilds such a row from the row processed just before it. The constants 10,
  9 and the index 10 are the script's own: they do not depend on the number of
  header cells.
*/
module RowRepair {
  import opened Wrappers

  /** The stripped text of the `<td>` cells of one table row. */
  type Row = seq<string>

  /**
    A failed list read. Python's `IndexError` carries only the message "list
    index out of range"; the model records the index of the failed read and
    the length of the list it was read from.
  */
  datatype IndexError = IndexError(index: int, length: nat)

  /**
    Python's `xs[i]`: it raises `IndexError` unless `-|xs| <= i < |xs|`, and a
    negative `i` counts from the end of the list. The script only reads the
    indices 0 and 10; the negative case is there so that `Index` is Python's
    indexing as a whole.
  */
  function Index(xs: Row, i: int): (r: Result<string, IndexError>)
    ensures r.Success? <==> -|xs| <= i < |xs|
    ensures r.Failure? ==> r.error == IndexError(i, |xs|)
    ensures 0 <= i < |xs| ==> r == Success(xs[i])
    ensures -|xs| <= i < 0 ==> r == Success(xs[|xs| + i])
  {
    if 0 <= i < |xs| then Success(xs[i])
    else if -|xs| <= i < 0 then Success(xs[|xs| + i])
    else Failure(IndexError(i, |xs|))
  }

  /**
    `isinstance(cell, numbers.Number)`. Every cell is a `str` built by
    `.text.strip()`, and a `str` is never a `Number`, so the test is false
    whatever the cell's text, including digit strings such as "3".
  */
  predicate IsNumberInstance(cell: string): (b: bool)
    ensures !b
  {
    false
  }

  /** `isinstance(cols[0], Number)` on a row that has a first cell. */
  predicate LeadsWithNumber(cols: Row) {
    |cols| > 0 && IsNumberInstance(cols[0])
  }

  /**
    What the repair makes of `cols` given the previous row, stated case by
    case: a 10-cell row gets the previous rank in front, a 9-cell row gets the
    previous rank in front and the previous total at the end, any other row is
    left as it is. Reading a cell the previous row does not have raises.
  */
  function Repaired(cols: Row, previous: Row): (r: Result<Row, IndexError>)
    ensures r.Failure? <==> (|cols| == 10 && previous == []) || (|cols| == 9 && |previous| <= 10)
    ensures r.Failure? ==> r.error == IndexError(if previous == [] then 0 else 10, |previous|)
    ensures r.Success? ==> |r.value| == if |cols| == 9 || |cols| == 10 then 11 else |cols|
    ensures r.Success? && (|cols| == 9 || |cols| == 10) ==> r.value[0] == previous[0]
    ensures r.Success? && |cols| == 9 ==> r.value[10] == previous[10]
  {
    if |cols| == 10 then
      if |previous| == 0 then Failure(IndexError(0, 0))
      else Success([previous[0]] + cols)
    else if |cols| == 9 then
      if |previous| == 0 then Failure(IndexError(0, 0))
      else if |previous| <= 10 then Failure(IndexError(10, |previous|))
      else Success([previous[0]] + cols + [previous[10]])
    else Success(cols)
  }

  /**
    The three `if` statements of lines 32-38, run one after the other on the
    list `cols`, which they edit in place. The result is the case-by-case
    repair above: at most one branch changes the row, the "append the total"
    branch never does, and the only failures are reads past the end of
    `previous`.
  */
  method RepairRow(row: Row, previous: Row) returns (r: Result<Row, IndexError>)
    ensures r == Repaired(row, previous)
    ensures |row| == 10 ==> (r.Success? <==> |previous| >= 1)
    ensures |row| == 10 && r.Success? ==> r.value == [previous[0]] + row
    ensures |row| == 9 ==> (r.Success? <==> |previous| >= 11)
    ensures |row| == 9 && r.Success? ==> r.value == [previous[0]] + row + [previous[10]]
    ensures |row| != 9 && |row| != 10 ==> r == Success(row)
    ensures r.Failure? ==> |previous| <= r.error.index && r.error.length == |previous|
  {
    var cols := row;
    if |cols| == 10 && !LeadsWithNumber(cols) {
      var rank :- Index(previous, 0);
      cols := [rank] + cols;
    }
    if |cols| == 10 && LeadsWithNumber(cols) {
      match Index(previous, 10)
      case Failure(e) =>
        return Failure(e);
      case Success(total) =>
        cols := cols + [total];
    }
    if |cols| == 9 {
      var rank :- Index(previous, 0);
      cols := [rank] + cols;
      var total :- Index(previous, 10);
      cols := cols + [total];
    }
    return Success(cols);
  }

  /**
    A repaired row has 11 cells when the input had 9 or 10, and the input's
    cells otherwise; the input's cells stay together and in order, shifted by
    one place when a rank was put in front.
  */
  lemma RepairedWidth(cols: Row, previous: Row)
    requires Repaired(cols, previous).Success?
    ensures var r := Repaired(cols, previous).value;
      var shift := if |cols| == 9 || |cols| == 10 then 1 else 0;
      && |r| == (if shift == 1 then 11 else |cols|)
      && r[shift..shift + |cols|] == cols
  {
  }
}
