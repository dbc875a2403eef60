/**
  The row loop of webScrapingProject.py (lines 20-42): every body row of the
  table is repaired against the row processed before it, added to the output
  table when it then has as many cells as there are header cells, and kept as
  the new "previous" row whether it was added or not.

  The specification is a left fold over the rows whose state is `Scan`; the
  loop itself is `NormalizeRows`.
*/
module Normalizer {
  import opened Wrappers
  import opened RowRepair

  /** The loop's state: `previous_values` and the rows added to the DataFrame so far. */
  datatype Scan = Scan(previous: Row, table: seq<Row>)

  /** The script stopped with `cause` while processing body row number `row` (from 0). */
  datatype Halt = Halt(row: nat, cause: IndexError)

  /** The state before the first body row (lines 17 and 22). */
  const Start := Scan([], [])

  /**
    One pass of the loop body (lines 24-42) for the cells `cols`: the table
    grows by the repaired row exactly when it has `width` cells, and the
    repaired row becomes the new previous row in every case.
  */
  function Step(width: nat, s: Scan, cols: Row): (r: Result<Scan, IndexError>)
    ensures r.Failure? <==> Repaired(cols, s.previous).Failure?
    ensures r.Failure? ==> r.error == Repaired(cols, s.previous).error
    ensures r.Success? ==> r.value.previous == Repaired(cols, s.previous).value
    ensures r.Success? ==> s.table <= r.value.table
    ensures r.Success? ==>
      |r.value.table| == |s.table| + (if |r.value.previous| == width then 1 else 0)
    ensures r.Success? && |r.value.previous| == width ==> r.value.table[|s.table|] == r.value.previous
  {
    match Repaired(cols, s.previous)
    case Failure(e) => Failure(e)
    case Success(row) => Success(Scan(row, if |row| == width then s.table + [row] else s.table))
  }

  /**
    The loop run over `rows` from `Start`: the state after the last row, or
    the row at which a read past the end of the previous row stopped the
    script. Every row in the table has `width` cells.
  */
  function Run(width: nat, rows: seq<Row>): (r: Result<Scan, Halt>)
    ensures r.Success? ==> forall i :: 0 <= i < |r.value.table| ==> |r.value.table[i]| == width
    ensures r.Success? ==> |r.value.table| <= |rows|
    ensures r.Failure? ==> r.error.row < |rows|
    decreases |rows|
  {
    if rows == [] then Success(Start)
    else
      match Run(width, rows[..|rows| - 1])
      case Failure(h) => Failure(h)
      case Success(s) =>
        match Step(width, s, rows[|rows| - 1])
        case Failure(e) => Failure(Halt(|rows| - 1, e))
        case Success(s') => Success(s')
  }

  /**
    Lines 20-42: `titles` are the header cells (line 16) and `rows` the cells
    of each body row (lines 21, 24-25). The result is the DataFrame's rows, or
    the row at which the script raised `IndexError`. Each added row has
    exactly one cell per header.
  */
  method NormalizeRows(titles: seq<string>, rows: seq<Row>) returns (r: Result<seq<Row>, Halt>)
    ensures r.Success? <==> Run(|titles|, rows).Success?
    ensures r.Success? ==> r.value == Run(|titles|, rows).value.table
    ensures r.Failure? ==> r.error == Run(|titles|, rows).error
    ensures r.Success? ==> forall row :: row in r.value ==> |row| == |titles|
  {
    var previous: Row := [];
    var table: seq<Row> := [];
    var i := 0;
    while i < |rows|
      invariant i <= |rows|
      invariant Run(|titles|, rows[..i]) == Success(Scan(previous, table))
    {
      assert rows[..i + 1][..i] == rows[..i];
      var cols := RepairRow(rows[i], previous);
      match cols
      case Failure(e) =>
        HaltPersists(|titles|, rows, i + 1);
        return Failure(Halt(i, e));
      case Success(repaired) =>
        if |repaired| == |titles| {
          table := table + [repaired];
        }
        previous := repaired;
      i := i + 1;
    }
    assert rows[..i] == rows;
    return Success(table);
  }

  /** Once the loop has stopped at some row, the rows after it change nothing. */
  lemma {:induction false} HaltPersists(width: nat, rows: seq<Row>, k: nat)
    requires k <= |rows|
    requires Run(width, rows[..k]).Failure?
    ensures Run(width, rows) == Run(width, rows[..k])
    decreases |rows| - k
  {
    if k < |rows| {
      assert rows[..k + 1][..k] == rows[..k];
      HaltPersists(width, rows, k + 1);
    } else {
      assert rows[..k] == rows;
    }
  }

  /** The row at which the loop stops is the first whose repair raises. */
  lemma {:induction false} HaltIsFirstFault(width: nat, rows: seq<Row>)
    requires Run(width, rows).Failure?
    ensures var h := Run(width, rows).error;
      && Run(width, rows[..h.row]).Success?
      && Repaired(rows[h.row], Run(width, rows[..h.row]).value.previous) == Failure(h.cause)
    decreases |rows|
  {
    var prefix := rows[..|rows| - 1];
    if Run(width, prefix).Failure? {
      HaltIsFirstFault(width, prefix);
      var h := Run(width, prefix).error;
      assert prefix[..h.row] == rows[..h.row];
    } else {
      assert rows[..|rows| - 1] == prefix;
    }
  }

  /**
    Conversely, a row whose repair raises after a clean run over the rows
    before it stops the loop there, whatever follows.
  */
  lemma FaultHalts(width: nat, rows: seq<Row>, k: nat)
    requires k < |rows|
    requires Run(width, rows[..k]).Success?
    requires Repaired(rows[k], Run(width, rows[..k]).value.previous).Failure?
    ensures Run(width, rows) ==
      Failure(Halt(k, Repaired(rows[k], Run(width, rows[..k]).value.previous).error))
  {
    assert rows[..k + 1][..k] == rows[..k];
    HaltPersists(width, rows, k + 1);
  }

  /**
    Lines 33 and 37 read `previous_values[0]`. Whenever `previous_values` is
    empty, a row of 9 or 10 cells stops the script there. It is empty before
    the first body row (line 22) and after any row with no `<td>` cells, which
    line 42 stores as `[]`.
  */
  lemma EmptyPreviousStopsRepair(width: nat, rows: seq<Row>, cols: Row)
    requires Run(width, rows).Success? && Run(width, rows).value.previous == []
    requires |cols| == 9 || |cols| == 10
    ensures Run(width, rows + [cols]) == Failure(Halt(|rows|, IndexError(0, 0)))
  {
  }

  /** In particular, a first body row of 9 or 10 cells stops the script, whatever follows it. */
  lemma FirstRowNeedsPrevious(width: nat, rows: seq<Row>)
    requires |rows| > 0 && (|rows[0]| == 9 || |rows[0]| == 10)
    ensures Run(width, rows) == Failure(Halt(0, IndexError(0, 0)))
  {
  }

  /**
    Line 42 keeps a row whether or not it was added to the table, so a 9-cell
    row that follows a row whose stored (repaired) form has 1 to 10 cells, that
    is a body row of 1 to 8 cells, stops the script at the read of
    `previous_values[10]`. A 9- or 10-cell body row is stored with 11 cells.
  */
  lemma ShortPreviousStopsNineCellRow(width: nat, rows: seq<Row>, cols: Row)
    requires Run(width, rows).Success?
    requires 0 < |Run(width, rows).value.previous| <= 10
    requires |cols| == 9
    ensures Run(width, rows + [cols]) ==
      Failure(Halt(|rows|, IndexError(10, |Run(width, rows).value.previous|)))
  {
  }

  /**
    Rows are only ever added at the end of the table: the table after some of
    the rows is a prefix of the table after all of them.
  */
  lemma {:induction false} TableGrowsAtEnd(width: nat, rows: seq<Row>, k: nat)
    requires k <= |rows|
    requires Run(width, rows).Success?
    ensures Run(width, rows[..k]).Success?
    ensures Run(width, rows[..k]).value.table <= Run(width, rows).value.table
    decreases |rows| - k
  {
    if k == |rows| {
      assert rows[..k] == rows;
    } else {
      TableGrowsAtEnd(width, rows, k + 1);
      assert rows[..k + 1][..k] == rows[..k];
    }
  }

  /** The last repaired row, or the empty list of line 22 when there is none. */
  function Last(repaired: seq<Row>): Row
  {
    if repaired == [] then [] else repaired[|repaired| - 1]
  }

  /** The rows of `repaired` that have `width` cells, in their order. */
  function Keep(width: nat, repaired: seq<Row>): (kept: seq<Row>)
    ensures forall i :: 0 <= i < |kept| ==> |kept[i]| == width
    ensures |kept| <= |repaired|
  {
    if repaired == [] then []
    else
      var last := repaired[|repaired| - 1];
      Keep(width, repaired[..|repaired| - 1]) + (if |last| == width then [last] else [])
  }

  /** A repaired row is in the table exactly when it has `width` cells. */
  lemma {:induction false} KeepExactly(width: nat, repaired: seq<Row>, row: Row)
    ensures row in Keep(width, repaired) <==> row in repaired && |row| == width
    decreases |repaired|
  {
    if repaired != [] {
      var n := |repaired|;
      KeepExactly(width, repaired[..n - 1], row);
      assert repaired == repaired[..n - 1] + [repaired[n - 1]];
    }
  }

  /**
    `repaired` is the row-by-row repair of `rows`: each row is repaired
    against the repair of the row before it, the first against the empty list.
  */
  predicate RepairChain(rows: seq<Row>, repaired: seq<Row>)
  {
    && |repaired| == |rows|
    && (|rows| > 0 ==> Repaired(rows[0], []) == Success(repaired[0]))
    && forall k :: 0 < k < |rows| ==> Repaired(rows[k], repaired[k - 1]) == Success(repaired[k])
  }

  /** A repair chain of some rows is, cut one row short, the repair chain of those rows but the last. */
  lemma ChainPrefix(rows: seq<Row>, repaired: seq<Row>)
    requires RepairChain(rows, repaired) && rows != []
    ensures RepairChain(rows[..|rows| - 1], repaired[..|rows| - 1])
  {
  }

  /**
    The loop as "repair every row, then keep the rows of the right width": when
    every row can be repaired, the table is the repaired rows of `width` cells
    in input order, and the previous row is the last repaired row.
  */
  lemma {:induction false} ChainRun(width: nat, rows: seq<Row>, repaired: seq<Row>)
    requires RepairChain(rows, repaired)
    ensures Run(width, rows) == Success(Scan(Last(repaired), Keep(width, repaired)))
    decreases |rows|
  {
    if rows != [] {
      var n := |rows|;
      var prefix, before := rows[..n - 1], repaired[..n - 1];
      ChainPrefix(rows, repaired);
      ChainRun(width, prefix, before);
      var s := Run(width, prefix).value;
      assert s == Scan(Last(before), Keep(width, before));
      var row := repaired[n - 1];
      assert Repaired(rows[n - 1], s.previous) == Success(row);
      assert Step(width, s, rows[n - 1]) == Success(Scan(row, if |row| == width then s.table + [row] else s.table));
      assert Keep(width, repaired) == if |row| == width then s.table + [row] else s.table;
    }
  }

  /** And every clean run is such a repair-then-keep. */
  lemma {:induction false} RunIsChain(width: nat, rows: seq<Row>)
    requires Run(width, rows).Success?
    ensures exists repaired :: RepairChain(rows, repaired)
    decreases |rows|
  {
    if rows == [] {
      assert RepairChain(rows, []);
    } else {
      var n := |rows|;
      var prefix := rows[..n - 1];
      RunIsChain(width, prefix);
      var before :| RepairChain(prefix, before);
      ChainRun(width, prefix, before);
      var row := Repaired(rows[n - 1], Last(before)).value;
      var repaired := before + [row];
      forall k | 0 < k < n
        ensures Repaired(rows[k], repaired[k - 1]) == Success(repaired[k])
      {
        if k < n - 1 {
          assert rows[k] == prefix[k] && repaired[k] == before[k] && repaired[k - 1] == before[k - 1];
        }
      }
      if n == 1 {
        assert Last(before) == [];
      } else {
        assert rows[0] == prefix[0] && repaired[0] == before[0];
      }
      assert RepairChain(rows, repaired);
    }
  }

  /**
    Running the loop again over rows that already have `width` cells changes
    nothing, as long as `width` is neither 9 nor 10 (the lengths the repair
    acts on); the script's own table has 11 header cells.
  */
  lemma {:induction false} RerunKeepsTable(width: nat, rows: seq<Row>)
    requires width != 9 && width != 10
    requires forall i :: 0 <= i < |rows| ==> |rows[i]| == width
    ensures Run(width, rows) == Success(Scan(Last(rows), rows))
  {
    assert RepairChain(rows, rows) by {
      forall k | 0 <= k < |rows|
        ensures Repaired(rows[k], if k == 0 then [] else rows[k - 1]) == Success(rows[k])
      {
      }
    }
    ChainRun(width, rows, rows);
    KeepAll(width, rows);
  }

  /** Keeping the rows of `width` cells from rows that all have `width` cells keeps them all. */
  lemma {:induction false} KeepAll(width: nat, rows: seq<Row>)
    requires forall i :: 0 <= i < |rows| ==> |rows[i]| == width
    ensures Keep(width, rows) == rows
    decreases |rows|
  {
    if rows != [] {
      var n := |rows|;
      KeepAll(width, rows[..n - 1]);
      assert rows[..n - 1] + [rows[n - 1]] == rows;
    }
  }
}
