/**
 * The value-level meaning of the row pipeline in the process-file handler of docs/main.js:
 * what happens to the cells of one row when its timestamps are normalised, when it is
 * extended by a duration and a verdict, and when columns L, M and N are coerced to numbers,
 * and how the extended rows are shared out between the "Below 5M" and "5M Up" tables.
 */
module Rows {
  import opened Wrappers
  import opened Text
  import opened Datetime
  import opened Duration

  /**
   * A spreadsheet cell: missing (undefined or a hole), a string, a number, or a Date,
   * which is kept as its time value in milliseconds.
   */
  datatype Cell = Missing | Str(s: string) | Num(v: real) | Time(ms: int)

  /** The functions of the JavaScript runtime the pipeline calls but does not define. */
  datatype Runtime = Runtime(newDate: DateArgs -> int, parseFloat: string -> Option<real>)

  /** row[i]: undefined past the end of the row and at negative indices. */
  function CellAt(cells: seq<Cell>, i: int): Cell
  {
    if 0 <= i < |cells| then cells[i] else Missing
  }

  /** isValidDatetime(row[i]): only a string can match the pattern (undefined reads as "undefined"). */
  predicate IsTimestampText(c: Cell)
  {
    c.Str? && IsValidDatetime(c.s)
  }

  /** One step of the normalisation pass: a matching cell at i becomes the Date built from its text. */
  function NormalizeAt(cells: seq<Cell>, i: int, rt: Runtime): (r: seq<Cell>)
  {
    if IsTimestampText(CellAt(cells, i)) then cells[i := Time(ConvertToDatetime(cells[i].s, rt.newDate))]
    else cells
  }

  /** The normalisation pass on one row: the open cell first, then the close cell. */
  function NormalizeRow(cells: seq<Cell>, openIdx: int, closeIdx: int, rt: Runtime): seq<Cell>
  {
    NormalizeAt(NormalizeAt(cells, openIdx, rt), closeIdx, rt)
  }

  /** What normalisation leaves in one cell: the Date for a matching text, the cell itself otherwise. */
  function Normalized(c: Cell, rt: Runtime): (d: Cell)
  {
    if IsTimestampText(c) then Time(ConvertToDatetime(c.s, rt.newDate)) else c
  }

  /** The two appended cells of a row whose open and close cells are both Dates: the duration and its verdict. */
  function TimedCells(openMs: int, closeMs: int): seq<Cell>
  {
    var duration := CalculateDuration(openMs, closeMs);
    [Str(duration), Str(EvaluateDuration(duration))]
  }

  /** Whether both target cells of a row hold Dates. */
  predicate IsTimed(cells: seq<Cell>, openIdx: int, closeIdx: int)
  {
    CellAt(cells, openIdx).Time? && CellAt(cells, closeIdx).Time?
  }

  /** newRow: the row with the duration and the verdict appended, or two empty strings when a target cell is not a Date. */
  function ExtendRow(cells: seq<Cell>, openIdx: int, closeIdx: int): seq<Cell>
  {
    if IsTimed(cells, openIdx, closeIdx) then
      cells + TimedCells(CellAt(cells, openIdx).ms, CellAt(cells, closeIdx).ms)
    else cells + [Str(""), Str("")]
  }

  /** The milliseconds from the open Date to the close Date of a timed row. */
  function Delta(cells: seq<Cell>, openIdx: int, closeIdx: int): int
    requires IsTimed(cells, openIdx, closeIdx)
  {
    CellAt(cells, closeIdx).ms - CellAt(cells, openIdx).ms
  }

  /** Whether a row ends with the given verdict, which is how the partition tells its rows apart. */
  predicate EndsWith(cells: seq<Cell>, verdict: string)
  {
    |cells| > 0 && cells[|cells| - 1] == Str(verdict)
  }

  /** The rows of a table that end with the verdict, in their order. */
  function Labelled(table: seq<seq<Cell>>, verdict: string): (r: seq<seq<Cell>>)
    ensures |r| <= |table|
    ensures forall k :: 0 <= k < |r| ==> r[k] in table && EndsWith(r[k], verdict)
  {
    if table == [] then []
    else
      var last := table[|table| - 1];
      Labelled(table[..|table| - 1], verdict) + (if EndsWith(last, verdict) then [last] else [])
  }

  /** row[i] = v in JavaScript: past the end the array grows, holes reading as undefined. */
  function Store(cells: seq<Cell>, i: nat, v: Cell): (r: seq<Cell>)
    ensures |r| == if i < |cells| then |cells| else i + 1
    ensures r[i] == v
    ensures forall k :: 0 <= k < |r| && k != i ==> r[k] == CellAt(cells, k)
  {
    if i < |cells| then cells[i := v] else cells + seq(i - |cells|, _ => Missing) + [v]
  }

  /**
   * parseFloat(cell) || cell: a string whose parse is a number other than 0 becomes that number;
   * NaN and 0 are falsy, so every other cell is kept. A number reads back as itself, so it is kept
   * too, and undefined and a Date never parse.
   */
  function CoerceCell(c: Cell, parseFloat: string -> Option<real>): Cell
  {
    match c
    case Str(s) => (
      match parseFloat(s)
      case Some(v) => if v != 0.0 then Num(v) else c
      case None => c)
    case _ => c
  }

  /** row[i] = parseFloat(row[i]) || row[i]. */
  function CoerceAt(cells: seq<Cell>, i: nat, parseFloat: string -> Option<real>): seq<Cell>
  {
    Store(cells, i, CoerceCell(CellAt(cells, i), parseFloat))
  }

  /** The first coerced column, L. */
  const FirstCoerced: nat := 11

  /** The last coerced column, N. */
  const LastCoerced: nat := 13

  /** The coercion of columns L, M and N (indices 11, 12 and 13) of one data row. */
  function CoerceRow(cells: seq<Cell>, parseFloat: string -> Option<real>): seq<Cell>
  {
    CoerceAt(CoerceAt(CoerceAt(cells, 11, parseFloat), 12, parseFloat), 13, parseFloat)
  }

  /** The header row after headers.push("Duration", "Result"). */
  function ExtendHeader(header: seq<Cell>): seq<Cell>
  {
    header + [Str("Duration"), Str("Result")]
  }

  /** The data rows after the normalisation pass. */
  function NormalizeAll(rows: seq<seq<Cell>>, openIdx: int, closeIdx: int, rt: Runtime): seq<seq<Cell>>
  {
    seq(|rows|, k requires 0 <= k < |rows| => NormalizeRow(rows[k], openIdx, closeIdx, rt))
  }

  /** The new rows the extension loop makes from the data rows, one per row. */
  function ExtendAll(rows: seq<seq<Cell>>, openIdx: int, closeIdx: int): (t: seq<seq<Cell>>)
    ensures |t| == |rows|
  {
    if rows == [] then []
    else ExtendAll(rows[..|rows| - 1], openIdx, closeIdx) + [ExtendRow(rows[|rows| - 1], openIdx, closeIdx)]
  }

  /** The k-th new row is made from the k-th data row. */
  lemma {:induction false} ExtendAllAt(rows: seq<seq<Cell>>, openIdx: int, closeIdx: int, k: int)
    requires 0 <= k < |rows|
    ensures ExtendAll(rows, openIdx, closeIdx)[k] == ExtendRow(rows[k], openIdx, closeIdx)
    decreases |rows|
  {
    if k < |rows| - 1 {
      ExtendAllAt(rows[..|rows| - 1], openIdx, closeIdx, k);
    }
  }

  /** Extending one more data row appends its new row. */
  lemma ExtendAllStep(rows: seq<seq<Cell>>, openIdx: int, closeIdx: int, i: int)
    requires 0 <= i < |rows|
    ensures ExtendAll(rows[..i + 1], openIdx, closeIdx) == ExtendAll(rows[..i], openIdx, closeIdx) + [ExtendRow(rows[i], openIdx, closeIdx)]
  {
    assert rows[..i + 1][..i] == rows[..i];
  }

  /** Every data row after the normalisation pass and the extension loop. */
  function ExtendTable(rows: seq<seq<Cell>>, openIdx: int, closeIdx: int, rt: Runtime): seq<seq<Cell>>
  {
    ExtendAll(NormalizeAll(rows, openIdx, closeIdx, rt), openIdx, closeIdx)
  }

  /** The coercion pass over data rows. */
  function CoerceTable(table: seq<seq<Cell>>, parseFloat: string -> Option<real>): seq<seq<Cell>>
  {
    seq(|table|, k requires 0 <= k < |table| => CoerceRow(table[k], parseFloat))
  }

  /** Coercing a concatenation of tables coerces each. */
  lemma CoerceTableAppend(a: seq<seq<Cell>>, b: seq<seq<Cell>>, parseFloat: string -> Option<real>)
    ensures CoerceTable(a + b, parseFloat) == CoerceTable(a, parseFloat) + CoerceTable(b, parseFloat)
  {
  }

  /** The three sheets the handler writes: "All Data", "Below 5M" and "5M Up". */
  datatype Tables = Tables(all: seq<seq<Cell>>, below: seq<seq<Cell>>, above: seq<seq<Cell>>)

  /**
   * The cells of the three tables the handler builds from a header row and data rows. The rows
   * of "Below 5M" and "5M Up" are rows of "All Data", so the coercion of the data rows of
   * "All Data" reaches them as well.
   */
  function Report(header: seq<Cell>, rows: seq<seq<Cell>>, openIdx: int, closeIdx: int, rt: Runtime): Tables
  {
    var extended := ExtendTable(rows, openIdx, closeIdx, rt);
    var h := ExtendHeader(header);
    Tables([h] + CoerceTable(extended, rt.parseFloat),
           [h] + CoerceTable(Labelled(extended, BelowFive), rt.parseFloat),
           [h] + CoerceTable(Labelled(extended, AtLeastFive), rt.parseFloat))
  }

  /** The indices of the data rows whose open and close cells are both Dates after normalisation. */
  function TimedIndices(rows: seq<seq<Cell>>, openIdx: int, closeIdx: int, rt: Runtime): set<int>
  {
    set k | 0 <= k < |rows| && IsTimed(NormalizeRow(rows[k], openIdx, closeIdx, rt), openIdx, closeIdx)
  }

  // ---------------------------------------------------------------------------------------
  // Normalisation

  /** Normalising one index changes at most the cell there, and into what Normalized says. */
  lemma NormalizeAtFrame(cells: seq<Cell>, i: int, rt: Runtime)
    ensures |NormalizeAt(cells, i, rt)| == |cells|
    ensures forall k :: 0 <= k < |cells| && k != i ==> NormalizeAt(cells, i, rt)[k] == cells[k]
    ensures 0 <= i < |cells| ==> NormalizeAt(cells, i, rt)[i] == Normalized(cells[i], rt)
  {
  }

  /**
   * The normalisation pass changes only the open and close cells, each only when it is a timestamp
   * text, and then into the Date built from that text; the length of the row is kept.
   */
  lemma NormalizeRowFrame(cells: seq<Cell>, openIdx: int, closeIdx: int, rt: Runtime)
    ensures var r := NormalizeRow(cells, openIdx, closeIdx, rt);
      |r| == |cells| &&
      (forall k :: 0 <= k < |cells| ==> r[k] == if k == openIdx || k == closeIdx then Normalized(cells[k], rt) else cells[k])
  {
    var once := NormalizeAt(cells, openIdx, rt);
    NormalizeAtFrame(cells, openIdx, rt);
    NormalizeAtFrame(once, closeIdx, rt);
    if 0 <= openIdx < |cells| && openIdx == closeIdx {
      NormalizedIdempotent(cells[openIdx], rt);
    }
  }

  /** A cell is changed by normalisation exactly when it is a timestamp text. */
  lemma NormalizedChanges(c: Cell, rt: Runtime)
    ensures Normalized(c, rt) != c <==> IsTimestampText(c)
    ensures IsTimestampText(c) ==> Normalized(c, rt).Time?
  {
  }

  /** A Date is not a timestamp text, so normalising a cell twice is normalising it once. */
  lemma NormalizedIdempotent(c: Cell, rt: Runtime)
    ensures Normalized(Normalized(c, rt), rt) == Normalized(c, rt)
  {
  }

  /** The normalisation pass changes nothing the second time: shared rows are safe to normalise twice. */
  lemma NormalizeRowIdempotent(cells: seq<Cell>, openIdx: int, closeIdx: int, rt: Runtime)
    ensures NormalizeRow(NormalizeRow(cells, openIdx, closeIdx, rt), openIdx, closeIdx, rt) ==
      NormalizeRow(cells, openIdx, closeIdx, rt)
  {
    var once := NormalizeRow(cells, openIdx, closeIdx, rt);
    var twice := NormalizeRow(once, openIdx, closeIdx, rt);
    NormalizeRowFrame(cells, openIdx, closeIdx, rt);
    NormalizeRowFrame(once, openIdx, closeIdx, rt);
    forall k | 0 <= k < |cells| ensures twice[k] == once[k] {
      NormalizedIdempotent(cells[k], rt);
    }
  }

  // ---------------------------------------------------------------------------------------
  // Extension and partition

  /** newRow is the input row with exactly two cells appended. */
  lemma ExtendRowKeeps(cells: seq<Cell>, openIdx: int, closeIdx: int)
    ensures var r := ExtendRow(cells, openIdx, closeIdx);
      |r| == |cells| + 2 && r[..|cells|] == cells
  {
  }

  /**
   * The two appended cells: for a timed row the duration text and a verdict that is "≥ 5 นาที"
   * exactly when the close is at least five minutes after the open; for any other row two empty strings.
   */
  lemma ExtendRowLabel(cells: seq<Cell>, openIdx: int, closeIdx: int)
    ensures var r := ExtendRow(cells, openIdx, closeIdx);
      if IsTimed(cells, openIdx, closeIdx) then
        r[|cells|] == Str(CalculateDuration(CellAt(cells, openIdx).ms, CellAt(cells, closeIdx).ms)) &&
        r[|cells| + 1] == Str(if Delta(cells, openIdx, closeIdx) >= 5 * MsPerMinute then AtLeastFive else BelowFive)
      else r[|cells|] == Str("") && r[|cells| + 1] == Str("")
  {
    if IsTimed(cells, openIdx, closeIdx) {
      ClassifyByDelta(CellAt(cells, openIdx).ms, CellAt(cells, closeIdx).ms);
    }
  }

  lemma LabelsDiffer()
    ensures AtLeastFive != BelowFive && AtLeastFive != "" && BelowFive != ""
  {
    assert AtLeastFive[0] != BelowFive[0];
  }

  /** An extended row lands in "Below 5M" exactly when it is timed and its delta is under five minutes. */
  lemma BelowExactly(cells: seq<Cell>, openIdx: int, closeIdx: int)
    ensures EndsWith(ExtendRow(cells, openIdx, closeIdx), BelowFive) <==>
      IsTimed(cells, openIdx, closeIdx) && Delta(cells, openIdx, closeIdx) < 5 * MsPerMinute
  {
    ExtendRowLabel(cells, openIdx, closeIdx);
    LabelsDiffer();
  }

  /** An extended row lands in "5M Up" exactly when it is timed and its delta is five minutes or more. */
  lemma AboveExactly(cells: seq<Cell>, openIdx: int, closeIdx: int)
    ensures EndsWith(ExtendRow(cells, openIdx, closeIdx), AtLeastFive) <==>
      IsTimed(cells, openIdx, closeIdx) && Delta(cells, openIdx, closeIdx) >= 5 * MsPerMinute
  {
    ExtendRowLabel(cells, openIdx, closeIdx);
    LabelsDiffer();
  }

  /** Every timed row lands in exactly one of the two tables, and an untimed row in neither. */
  lemma PartitionExclusive(cells: seq<Cell>, openIdx: int, closeIdx: int)
    ensures var r := ExtendRow(cells, openIdx, closeIdx);
      (EndsWith(r, BelowFive) || EndsWith(r, AtLeastFive)) == IsTimed(cells, openIdx, closeIdx) &&
      !(EndsWith(r, BelowFive) && EndsWith(r, AtLeastFive))
  {
    BelowExactly(cells, openIdx, closeIdx);
    AboveExactly(cells, openIdx, closeIdx);
  }

  /** Selecting by verdict keeps the order: the selection of a concatenation is the concatenation of the selections. */
  lemma {:induction false} LabelledAppend(a: seq<seq<Cell>>, b: seq<seq<Cell>>, verdict: string)
    ensures Labelled(a + b, verdict) == Labelled(a, verdict) + Labelled(b, verdict)
    decreases |b|
  {
    if b == [] {
      assert a + b == a;
    } else {
      var b', last := b[..|b| - 1], b[|b| - 1];
      var tail := if EndsWith(last, verdict) then [last] else [];
      LabelledAppend(a, b', verdict);
      assert (a + b)[..|a + b| - 1] == a + b' && (a + b)[|a + b| - 1] == last;
      assert Labelled(a + b, verdict) == Labelled(a + b', verdict) + tail;
      assert Labelled(b, verdict) == Labelled(b', verdict) + tail;
    }
  }

  /** Every row of a table ending with the verdict is selected, as often as it occurs. */
  lemma {:induction false} LabelledCount(table: seq<seq<Cell>>, verdict: string)
    ensures |Labelled(table, verdict)| == |LabelledIndices(table, verdict)|
    decreases |table|
  {
    var n := |table|;
    var hits := LabelledIndices(table, verdict);
    if n > 0 {
      var front := table[..n - 1];
      var frontHits := LabelledIndices(front, verdict);
      LabelledCount(front, verdict);
      if EndsWith(table[n - 1], verdict) {
        assert hits == frontHits + {n - 1};
      } else {
        assert hits == frontHits;
      }
    }
  }

  // ---------------------------------------------------------------------------------------
  // Coercion

  /** A coerced cell is the cell itself or the non-zero number its text parses to. */
  lemma CoerceCellMeaning(c: Cell, parseFloat: string -> Option<real>)
    ensures CoerceCell(c, parseFloat) != c <==>
      c.Str? && parseFloat(c.s).Some? && parseFloat(c.s).value != 0.0
    ensures CoerceCell(c, parseFloat) != c ==> CoerceCell(c, parseFloat) == Num(parseFloat(c.s).value)
  {
  }

  /**
   * Coercion reaches exactly columns 11 to 13: the row grows to at least 14 cells, cells at other
   * indices are kept (the new ones below 11 are holes), and each of the three becomes the
   * coercion of what it held.
   */
  lemma CoerceRowFrame(cells: seq<Cell>, parseFloat: string -> Option<real>)
    ensures var r := CoerceRow(cells, parseFloat);
      |r| == (if |cells| < 14 then 14 else |cells|) &&
      (forall k :: 0 <= k < |r| && !(FirstCoerced <= k <= LastCoerced) ==> r[k] == CellAt(cells, k)) &&
      (forall k :: FirstCoerced <= k <= LastCoerced ==> r[k] == CoerceCell(CellAt(cells, k), parseFloat))
  {
    var r1 := CoerceAt(cells, 11, parseFloat);
    var r2 := CoerceAt(r1, 12, parseFloat);
    var r := CoerceAt(r2, 13, parseFloat);
    assert CellAt(r1, 12) == CellAt(cells, 12);
    assert CellAt(r2, 13) == CellAt(cells, 13);
    assert r[11] == r2[11] == r1[11];
    assert r[12] == r2[12];
  }

  /** A coerced cell coerces to itself: a number is never parsed again. */
  lemma CoerceCellIdempotent(c: Cell, parseFloat: string -> Option<real>)
    ensures CoerceCell(CoerceCell(c, parseFloat), parseFloat) == CoerceCell(c, parseFloat)
  {
  }

  /** Coercing a row a second time changes nothing: rows shared between tables are safe to coerce twice. */
  lemma CoerceRowIdempotent(cells: seq<Cell>, parseFloat: string -> Option<real>)
    ensures CoerceRow(CoerceRow(cells, parseFloat), parseFloat) == CoerceRow(cells, parseFloat)
  {
    var once := CoerceRow(cells, parseFloat);
    var twice := CoerceRow(once, parseFloat);
    CoerceRowFrame(cells, parseFloat);
    CoerceRowFrame(once, parseFloat);
    forall k | 0 <= k < |twice| ensures twice[k] == once[k] {
      if FirstCoerced <= k <= LastCoerced {
        CoerceCellIdempotent(CellAt(cells, k), parseFloat);
      }
    }
  }

  // ---------------------------------------------------------------------------------------
  // The three tables

  /** All three tables start with the same extended header, and "All Data" holds one row per data row. */
  lemma ReportHeaders(header: seq<Cell>, rows: seq<seq<Cell>>, openIdx: int, closeIdx: int, rt: Runtime)
    ensures var t := Report(header, rows, openIdx, closeIdx, rt);
      |t.all| == |rows| + 1 && |t.below| >= 1 && |t.above| >= 1 &&
      t.all[0] == ExtendHeader(header) && t.below[0] == ExtendHeader(header) && t.above[0] == ExtendHeader(header)
  {
  }

  /**
   * "All Data" keeps the data rows in their order: its row k + 1 is data row k normalised,
   * extended and coerced.
   */
  lemma ReportRow(header: seq<Cell>, rows: seq<seq<Cell>>, openIdx: int, closeIdx: int, rt: Runtime, k: int)
    requires 0 <= k < |rows|
    ensures Report(header, rows, openIdx, closeIdx, rt).all[k + 1] ==
      CoerceRow(ExtendRow(NormalizeRow(rows[k], openIdx, closeIdx, rt), openIdx, closeIdx), rt.parseFloat)
  {
    ExtendAllAt(NormalizeAll(rows, openIdx, closeIdx, rt), openIdx, closeIdx, k);
  }

  /** The indices of the rows of a table that end with the verdict. */
  function LabelledIndices(table: seq<seq<Cell>>, verdict: string): set<int>
  {
    set k | 0 <= k < |table| && EndsWith(table[k], verdict)
  }

  /** The timed rows are exactly the rows labelled "< 5 นาที" together with those labelled "≥ 5 นาที", and no row is both. */
  lemma TimedIndicesSplit(rows: seq<seq<Cell>>, openIdx: int, closeIdx: int, rt: Runtime)
    ensures var extended := ExtendTable(rows, openIdx, closeIdx, rt);
      LabelledIndices(extended, BelowFive) + LabelledIndices(extended, AtLeastFive) == TimedIndices(rows, openIdx, closeIdx, rt) &&
      LabelledIndices(extended, BelowFive) * LabelledIndices(extended, AtLeastFive) == {}
  {
    var extended := ExtendTable(rows, openIdx, closeIdx, rt);
    forall k | 0 <= k < |rows|
      ensures (EndsWith(extended[k], BelowFive) || EndsWith(extended[k], AtLeastFive)) ==
        IsTimed(NormalizeRow(rows[k], openIdx, closeIdx, rt), openIdx, closeIdx)
      ensures !(EndsWith(extended[k], BelowFive) && EndsWith(extended[k], AtLeastFive))
    {
      ExtendAllAt(NormalizeAll(rows, openIdx, closeIdx, rt), openIdx, closeIdx, k);
      PartitionExclusive(NormalizeRow(rows[k], openIdx, closeIdx, rt), openIdx, closeIdx);
    }
  }

  lemma DisjointCard(a: set<int>, b: set<int>)
    requires a * b == {}
    ensures |a + b| == |a| + |b|
  {
  }

  /** Every timed row is in exactly one of "Below 5M" and "5M Up", and no other row is in either. */
  lemma ReportSplit(header: seq<Cell>, rows: seq<seq<Cell>>, openIdx: int, closeIdx: int, rt: Runtime)
    ensures var t := Report(header, rows, openIdx, closeIdx, rt);
      (|t.below| - 1) + (|t.above| - 1) == |TimedIndices(rows, openIdx, closeIdx, rt)|
  {
    var extended := ExtendTable(rows, openIdx, closeIdx, rt);
    LabelledCount(extended, BelowFive);
    LabelledCount(extended, AtLeastFive);
    TimedIndicesSplit(rows, openIdx, closeIdx, rt);
    DisjointCard(LabelledIndices(extended, BelowFive), LabelledIndices(extended, AtLeastFive));
  }
}
