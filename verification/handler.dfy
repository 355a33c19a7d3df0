/**
 * The in-place part of the process-file handler of docs/main.js: rows are arrays the handler
 * updates, the normalisation and coercion passes rewrite cells of existing rows, and the
 * extension loop builds the three tables, whose data rows are shared between "All Data" and
 * the two partition tables.
 */
module Handler {
  import opened Datetime
  import opened Duration
  import opened Rows

  /** One row of the sheet: a JavaScript array whose cells the handler reassigns. */
  class Row {
    var cells: seq<Cell>

    constructor (cells: seq<Cell>)
      ensures this.cells == cells
    {
      this.cells := cells;
    }

    /** The body of the normalisation forEach: each target cell holding a timestamp text becomes a Date. */
    method NormalizeTimes(openIdx: int, closeIdx: int, rt: Runtime)
      modifies this
      ensures cells == NormalizeRow(old(cells), openIdx, closeIdx, rt)
    {
      if IsTimestampText(CellAt(cells, openIdx)) {
        cells := cells[openIdx := Time(ConvertToDatetime(cells[openIdx].s, rt.newDate))];
      }
      if IsTimestampText(CellAt(cells, closeIdx)) {
        cells := cells[closeIdx := Time(ConvertToDatetime(cells[closeIdx].s, rt.newDate))];
      }
    }

    /** Array.prototype.push. */
    method Push(extra: seq<Cell>)
      modifies this
      ensures cells == old(cells) + extra
    {
      cells := cells + extra;
    }

    /** The body of the coercion forEach for a data row: columns L, M and N, in that order. */
    method CoerceColumns(parseFloat: string -> Wrappers.Option<real>)
      modifies this
      ensures cells == CoerceRow(old(cells), parseFloat)
    {
      cells := Store(cells, 11, CoerceCell(CellAt(cells, 11), parseFloat));
      cells := Store(cells, 12, CoerceCell(CellAt(cells, 12), parseFloat));
      cells := Store(cells, 13, CoerceCell(CellAt(cells, 13), parseFloat));
    }
  }

  /** The cells the rows hold, row by row. */
  function Cells(rows: seq<Row>): (t: seq<seq<Cell>>)
    reads rows
    ensures |t| == |rows|
    ensures forall k :: 0 <= k < |rows| ==> t[k] == rows[k].cells
  {
    if rows == [] then [] else Cells(rows[..|rows| - 1]) + [rows[|rows| - 1].cells]
  }

  /** The rows, as objects, whose cells in table end with the verdict, in their order. */
  function Pick(rows: seq<Row>, table: seq<seq<Cell>>, verdict: string): (r: seq<Row>)
    requires |rows| == |table|
    ensures forall x :: x in r ==> x in rows
  {
    if rows == [] then []
    else
      var n := |rows| - 1;
      Pick(rows[..n], table[..n], verdict) + (if EndsWith(table[n], verdict) then [rows[n]] else [])
  }

  lemma PickAppend(rows: seq<Row>, table: seq<seq<Cell>>, x: Row, cells: seq<Cell>, verdict: string)
    requires |rows| == |table|
    ensures Pick(rows + [x], table + [cells], verdict) == Pick(rows, table, verdict) + (if EndsWith(cells, verdict) then [x] else [])
  {
    assert (rows + [x])[..|rows|] == rows;
    assert (table + [cells])[..|table|] == table;
  }

  /**
   * The three tables as the extension loop keeps them: "All Data" holds the header and the new
   * rows, the other two the header and the new rows whose cells end with their label.
   */
  predicate Routed(h: Row, all: seq<Row>, below: seq<Row>, above: seq<Row>, made: seq<Row>, extended: seq<seq<Cell>>)
  {
    |made| == |extended| && all == [h] + made &&
    below == [h] + Pick(made, extended, BelowFive) && above == [h] + Pick(made, extended, AtLeastFive)
  }

  /** Routing one more new row keeps the tables as the loop keeps them. */
  lemma RoutedStep(h: Row, all: seq<Row>, below: seq<Row>, above: seq<Row>, made: seq<Row>, extended: seq<seq<Cell>>,
                   x: Row, cells: seq<Cell>)
    requires Routed(h, all, below, above, made, extended)
    ensures Routed(h, all + [x], below + (if EndsWith(cells, BelowFive) then [x] else []),
      above + (if EndsWith(cells, AtLeastFive) then [x] else []), made + [x], extended + [cells])
  {
    PickAppend(made, extended, x, cells, BelowFive);
    PickAppend(made, extended, x, cells, AtLeastFive);
  }

  /** Picking rows by a table of their cells and then reading the cells is selecting from the table. */
  lemma {:induction false} PickCells(rows: seq<Row>, table: seq<seq<Cell>>, verdict: string)
    requires |rows| == |table| && Cells(rows) == table
    ensures Cells(Pick(rows, table, verdict)) == Labelled(table, verdict)
    decreases |rows|
  {
    if rows != [] {
      var n := |rows| - 1;
      assert Cells(rows[..n]) == table[..n];
      PickCells(rows[..n], table[..n], verdict);
      CellsAppend(Pick(rows[..n], table[..n], verdict), if EndsWith(table[n], verdict) then [rows[n]] else []);
    }
  }

  lemma CellsCons(h: Row, rows: seq<Row>)
    ensures Cells([h] + rows) == [h.cells] + Cells(rows)
  {
    CellsAppend([h], rows);
  }

  lemma CellsAppend(a: seq<Row>, b: seq<Row>)
    ensures Cells(a + b) == Cells(a) + Cells(b)
  {
  }

  /**
   * The normalisation forEach. A row that occurs twice is normalised twice, which changes
   * nothing the second time, so every row ends up normalised once.
   */
  method Normalize(data: seq<Row>, openIdx: int, closeIdx: int, rt: Runtime)
    modifies data
    ensures forall r :: r in data ==> r.cells == NormalizeRow(old(r.cells), openIdx, closeIdx, rt)
  {
    ghost var done: set<Row> := {};
    for i := 0 to |data|
      invariant forall k :: 0 <= k < i ==> data[k] in done
      invariant forall r :: r in data ==> r.cells == if r in done then NormalizeRow(old(r.cells), openIdx, closeIdx, rt) else old(r.cells)
    {
      var row := data[i];
      if row in done {
        NormalizeRowIdempotent(old(row.cells), openIdx, closeIdx, rt);
      }
      row.NormalizeTimes(openIdx, closeIdx, rt);
      done := done + {row};
    }
  }

  /**
   * headers.push and the extension forEach: every data row gets a new row with its duration and
   * label, or two empty strings, appended to "All Data"; a timed row's new row, the same object,
   * also goes to "Below 5M" when its label is "< 5 นาที" and to "5M Up" otherwise. The ghost
   * results name the new rows and their cells.
   */
  method Assemble(headers: Row, data: seq<Row>, openIdx: int, closeIdx: int)
    returns (all: seq<Row>, below: seq<Row>, above: seq<Row>, ghost made: seq<Row>, ghost extended: seq<seq<Cell>>)
    requires headers !in data
    modifies headers
    ensures headers.cells == ExtendHeader(old(headers.cells))
    ensures extended == ExtendAll(old(Cells(data)), openIdx, closeIdx)
    ensures forall r :: r in made ==> fresh(r)
    ensures Routed(headers, all, below, above, made, extended)
    ensures forall k :: 0 <= k < |made| ==> made[k].cells == extended[k]
  {
    ghost var input := Cells(data);
    headers.Push([Str("Duration"), Str("Result")]);
    all, below, above := [headers], [headers], [headers];
    made, extended := [], [];
    for i := 0 to |data|
      invariant headers.cells == ExtendHeader(old(headers.cells))
      invariant extended == ExtendAll(input[..i], openIdx, closeIdx)
      invariant forall r :: r in made ==> fresh(r)
      invariant Routed(headers, all, below, above, made, extended)
      invariant forall k :: 0 <= k < |made| ==> made[k].cells == extended[k]
    {
      ghost var all0, below0, above0 := all, below, above;
      var newRow;
      all, below, above, newRow := ExtendOne(data[i], openIdx, closeIdx, all, below, above);
      RoutedStep(headers, all0, below0, above0, made, extended, newRow, newRow.cells);
      ExtendAllStep(input, openIdx, closeIdx, i);
      made, extended := made + [newRow], extended + [newRow.cells];
    }
    assert input[..|data|] == input;
  }

  /**
   * The callback of the extension forEach for one data row: the new row goes to "All Data", and
   * when both target cells are Dates also to "Below 5M" if its label is "< 5 นาที" and to
   * "5M Up" otherwise.
   */
  method ExtendOne(row: Row, openIdx: int, closeIdx: int, all: seq<Row>, below: seq<Row>, above: seq<Row>)
    returns (all': seq<Row>, below': seq<Row>, above': seq<Row>, newRow: Row)
    ensures fresh(newRow) && newRow.cells == ExtendRow(row.cells, openIdx, closeIdx)
    ensures all' == all + [newRow]
    ensures below' == below + if EndsWith(newRow.cells, BelowFive) then [newRow] else []
    ensures above' == above + if EndsWith(newRow.cells, AtLeastFive) then [newRow] else []
  {
    LabelsDiffer();
    all', below', above' := all, below, above;
    if CellAt(row.cells, openIdx).Time? && CellAt(row.cells, closeIdx).Time? {
      var duration := CalculateDuration(CellAt(row.cells, openIdx).ms, CellAt(row.cells, closeIdx).ms);
      var result := EvaluateDuration(duration);
      newRow := new Row(row.cells + [Str(duration), Str(result)]);
      all' := all' + [newRow];
      if result == BelowFive {
        below' := below' + [newRow];
      } else {
        above' := above' + [newRow];
      }
    } else {
      newRow := new Row(row.cells + [Str(""), Str("")]);
      all' := all' + [newRow];
    }
  }

  /**
   * The coercion forEach over "All Data": the header, at index 0, is skipped; every other row has
   * columns L, M and N coerced. A row that occurs twice is coerced twice, which changes nothing
   * the second time.
   */
  method CoerceNumbers(table: seq<Row>, parseFloat: string -> Wrappers.Option<real>)
    requires |table| >= 1 && forall k :: 1 <= k < |table| ==> table[k] != table[0]
    modifies table
    ensures table[0].cells == old(table[0].cells)
    ensures forall k :: 1 <= k < |table| ==> table[k].cells == CoerceRow(old(table[k].cells), parseFloat)
  {
    ghost var done: set<Row> := {};
    for rowIndex := 0 to |table|
      invariant table[0] !in done
      invariant forall k :: 1 <= k < rowIndex ==> table[k] in done
      invariant forall r :: r in table ==> r.cells == if r in done then CoerceRow(old(r.cells), parseFloat) else old(r.cells)
    {
      if rowIndex > 0 {
        var row := table[rowIndex];
        if row in done {
          CoerceRowIdempotent(old(row.cells), parseFloat);
        }
        row.CoerceColumns(parseFloat);
        done := done + {row};
      }
    }
  }

  /** Picked rows whose cells were coerced hold the coerced cells of the rows selected from the table. */
  lemma {:induction false} PickCoerced(rows: seq<Row>, table: seq<seq<Cell>>, verdict: string, parseFloat: string -> Wrappers.Option<real>)
    requires |rows| == |table|
    requires forall k :: 0 <= k < |rows| ==> rows[k].cells == CoerceRow(table[k], parseFloat)
    ensures Cells(Pick(rows, table, verdict)) == CoerceTable(Labelled(table, verdict), parseFloat)
    decreases |rows|
  {
    if rows != [] {
      var n := |rows| - 1;
      PickCoerced(rows[..n], table[..n], verdict, parseFloat);
      CellsAppend(Pick(rows[..n], table[..n], verdict), if EndsWith(table[n], verdict) then [rows[n]] else []);
      CoerceTableAppend(Labelled(table[..n], verdict), if EndsWith(table[n], verdict) then [table[n]] else [], parseFloat);
    }
  }

  /**
   * The header push, the extension loop and the coercion pass over "All Data", on rows as the
   * normalisation pass left them: the three tables hold the extended header and the coerced
   * extensions of the data rows, all of them or those with the table's label.
   */
  method BuildTables(headers: Row, data: seq<Row>, openIdx: int, closeIdx: int, parseFloat: string -> Wrappers.Option<real>)
    returns (all: seq<Row>, below: seq<Row>, above: seq<Row>)
    requires headers !in data
    modifies headers
    ensures headers.cells == ExtendHeader(old(headers.cells))
    ensures |all| >= 1 && |below| >= 1 && |above| >= 1
    ensures all[0] == headers && below[0] == headers && above[0] == headers
    ensures Cells(all) == [ExtendHeader(old(headers.cells))] + CoerceTable(ExtendAll(old(Cells(data)), openIdx, closeIdx), parseFloat)
    ensures Cells(below) == [ExtendHeader(old(headers.cells))] + CoerceTable(Labelled(ExtendAll(old(Cells(data)), openIdx, closeIdx), BelowFive), parseFloat)
    ensures Cells(above) == [ExtendHeader(old(headers.cells))] + CoerceTable(Labelled(ExtendAll(old(Cells(data)), openIdx, closeIdx), AtLeastFive), parseFloat)
    ensures forall r :: r in below ==> r in all
    ensures forall r :: r in above ==> r in all
  {
    ghost var made, extended;
    all, below, above, made, extended := Assemble(headers, data, openIdx, closeIdx);
    assert all[0] == headers;
    assert forall k :: 1 <= k < |all| ==> all[k] == made[k - 1];
    assert forall k :: 1 <= k < |all| ==> all[k] in made;
    assert forall k :: 1 <= k < |all| ==> fresh(all[k]);
    assert forall k :: 1 <= k < |all| ==> all[k] != headers;
    CoerceNumbers(all, parseFloat);
    assert forall k :: 0 <= k < |made| ==> made[k].cells == CoerceRow(extended[k], parseFloat) by {
      forall k | 0 <= k < |made| ensures made[k].cells == CoerceRow(extended[k], parseFloat) {
        assert made[k] == all[k + 1];
      }
    }
    CoercedAll(headers, all, made, extended, parseFloat);
    CoercedPicked(headers, below, made, extended, BelowFive, parseFloat);
    CoercedPicked(headers, above, made, extended, AtLeastFive, parseFloat);
  }

  /**
   * The row pipeline of the process-file handler: the normalisation pass over the data rows,
   * the header push and the extension loop, and the coercion pass over "All Data". The cells
   * of the three tables are those Report computes from the header and data rows as they were;
   * each table starts with the headers row itself, every row of "Below 5M" and "5M Up" is a row
   * of "All Data", and the data rows are left normalised in place.
   */
  method ProcessRows(headers: Row, data: seq<Row>, openIdx: int, closeIdx: int, rt: Runtime)
    returns (all: seq<Row>, below: seq<Row>, above: seq<Row>)
    requires headers !in data
    modifies headers, data
    ensures headers.cells == ExtendHeader(old(headers.cells))
    ensures forall r :: r in data ==> r.cells == NormalizeRow(old(r.cells), openIdx, closeIdx, rt)
    ensures |all| >= 1 && |below| >= 1 && |above| >= 1
    ensures all[0] == headers && below[0] == headers && above[0] == headers
    ensures Cells(all) == Report(old(headers.cells), old(Cells(data)), openIdx, closeIdx, rt).all
    ensures Cells(below) == Report(old(headers.cells), old(Cells(data)), openIdx, closeIdx, rt).below
    ensures Cells(above) == Report(old(headers.cells), old(Cells(data)), openIdx, closeIdx, rt).above
    ensures forall r :: r in below ==> r in all
    ensures forall r :: r in above ==> r in all
  {
    ghost var input := Cells(data);
    Normalize(data, openIdx, closeIdx, rt);
    assert Cells(data) == NormalizeAll(input, openIdx, closeIdx, rt);
    assert forall r :: r in data ==> r != headers;
    all, below, above := BuildTables(headers, data, openIdx, closeIdx, rt.parseFloat);
  }

  /** Once every new row holds the coercion of its cells, "All Data" holds the header and the coerced cells. */
  lemma CoercedAll(h: Row, all: seq<Row>, made: seq<Row>, extended: seq<seq<Cell>>, parseFloat: string -> Wrappers.Option<real>)
    requires all == [h] + made && |made| == |extended|
    requires forall k :: 0 <= k < |made| ==> made[k].cells == CoerceRow(extended[k], parseFloat)
    ensures Cells(all) == [h.cells] + CoerceTable(extended, parseFloat)
  {
    var t := Cells(made);
    assert forall k :: 0 <= k < |t| ==> t[k] == CoerceRow(extended[k], parseFloat);
    assert t == CoerceTable(extended, parseFloat);
    CellsCons(h, made);
  }

  /** Once every new row holds the coercion of its cells, a partition table holds the header and the coerced cells of its rows. */
  lemma CoercedPicked(h: Row, picked: seq<Row>, made: seq<Row>, extended: seq<seq<Cell>>, verdict: string,
                      parseFloat: string -> Wrappers.Option<real>)
    requires |made| == |extended| && picked == [h] + Pick(made, extended, verdict)
    requires forall k :: 0 <= k < |made| ==> made[k].cells == CoerceRow(extended[k], parseFloat)
    ensures Cells(picked) == [h.cells] + CoerceTable(Labelled(extended, verdict), parseFloat)
  {
    PickCoerced(made, extended, verdict, parseFloat);
    CellsCons(h, Pick(made, extended, verdict));
  }
}
