/**
 * The machine-readable form of the security report
 * (src/handlers/handleFinish.ts:30-59): every cell of every tabular row is
 * stripped of its colour codes, and every cleaned row becomes one record
 * with the keys id, package, title, path, severity, guide and expired.
 */
module ReportJson {
  import opened AnsiStrip

  /** One row of the tabular report, one string per column. */
  type Row = seq<string>

  /**
   * A value read from a row: `row[k]` past the end of the row is undefined,
   * and a record key holding undefined is left out when the record is
   * written as JSON.
   */
  datatype Cell = Undefined | Defined(text: string)

  /** `row[k]`, as indexing an array reads it. */
  function CellAt(row: Row, k: nat): Cell {
    if k < |row| then Defined(row[k]) else Undefined
  }

  /** One record of the JSON artifact. */
  datatype ReportEntry = ReportEntry(
    id: Cell,
    package: Cell,
    title: Cell,
    path: Cell,
    severity: Cell,
    guide: Cell,
    expired: Cell)

  /** Number of keys a record has. */
  const FIELD_COUNT: nat := 7

  /** The values of a record, in the order of its keys. */
  function Fields(e: ReportEntry): seq<Cell> {
    [e.id, e.package, e.title, e.path, e.severity, e.guide, e.expired]
  }

  // ---------------------------------------------------------------------
  // Cleaning (lines 34-38).

  /** A row with every cell stripped of colour codes; the row keeps its width. */
  function CleanRow(row: Row): (r: Row)
    ensures |r| == |row|
    ensures forall j :: 0 <= j < |row| ==> r[j] == Strip(row[j])
  {
    if row == [] then [] else [Strip(row[0])] + CleanRow(row[1..])
  }

  /**
   * The report with every cell of every row stripped: as many rows as the
   * report, each as wide as before, each cell the stripped original cell.
   */
  function CleanReport(report: seq<Row>): (r: seq<Row>)
    ensures |r| == |report|
    ensures forall i :: 0 <= i < |report| ==> |r[i]| == |report[i]|
    ensures forall i, j :: 0 <= i < |report| && 0 <= j < |report[i]| ==> r[i][j] == Strip(report[i][j])
  {
    if report == [] then [] else [CleanRow(report[0])] + CleanReport(report[1..])
  }

  /** Cleaning never lengthens a cell and leaves a cell without ESC as it was. */
  lemma CleanReportCells(report: seq<Row>, i: nat, j: nat)
    requires i < |report| && j < |report[i]|
    ensures |CleanReport(report)[i][j]| <= |report[i][j]|
    ensures ESC !in report[i][j] ==> CleanReport(report)[i][j] == report[i][j]
  {
  }

  // ---------------------------------------------------------------------
  // Rows to records (lines 40-50).

  /** The record of a row: key k takes cell k, for k from 0 to 6. */
  function ToEntry(row: Row): (e: ReportEntry)
    ensures |Fields(e)| == FIELD_COUNT
    ensures forall k :: 0 <= k < FIELD_COUNT ==> Fields(e)[k] == CellAt(row, k)
  {
    ReportEntry(
      id := CellAt(row, 0),
      package := CellAt(row, 1),
      title := CellAt(row, 2),
      path := CellAt(row, 3),
      severity := CellAt(row, 4),
      guide := CellAt(row, 5),
      expired := CellAt(row, 6))
  }

  /** One record per row, in report order. */
  function ToEntries(rows: seq<Row>): (r: seq<ReportEntry>)
    ensures |r| == |rows|
    ensures forall i :: 0 <= i < |rows| ==> r[i] == ToEntry(rows[i])
  {
    if rows == [] then [] else [ToEntry(rows[0])] + ToEntries(rows[1..])
  }

  /** The defined values of a record, in key order: the row it was read from. */
  function ToRow(e: ReportEntry): Row {
    DefinedTexts(Fields(e))
  }

  function DefinedTexts(cells: seq<Cell>): seq<string> {
    if cells == [] then []
    else
      match cells[0]
      case Defined(t) => [t] + DefinedTexts(cells[1..])
      case Undefined => DefinedTexts(cells[1..])
  }

  /** The first `n` cells of a row, or the whole row when it is shorter. */
  function Leading(row: Row, n: nat): Row {
    if |row| <= n then row else row[..n]
  }

  /** The `n` cells of a row from position `from` on, undefined past its end. */
  function CellsFrom(row: Row, from: nat, n: nat): (cells: seq<Cell>)
    ensures |cells| == n
    ensures forall k :: 0 <= k < n ==> cells[k] == CellAt(row, from + k)
    decreases n
  {
    if n == 0 then [] else [CellAt(row, from)] + CellsFrom(row, from + 1, n - 1)
  }

  lemma {:induction false} DefinedTextsOfCells(row: Row, from: nat, n: nat)
    ensures DefinedTexts(CellsFrom(row, from, n))
         == (if |row| <= from then [] else Leading(row, from + n)[from..])
    decreases n
  {
    if n > 0 {
      var cells := CellsFrom(row, from, n);
      assert cells[1..] == CellsFrom(row, from + 1, n - 1);
      DefinedTextsOfCells(row, from + 1, n - 1);
      if from < |row| {
        assert Leading(row, from + n)[from..] == [row[from]] + Leading(row, from + n)[from + 1..];
      }
    }
  }

  /**
   * Reading a row into a record and writing the record's defined values
   * back gives the row's first seven cells: nothing of them is lost or
   * reordered, and nothing past them is kept.
   */
  lemma RowRoundTrip(row: Row)
    ensures ToRow(ToEntry(row)) == Leading(row, FIELD_COUNT)
  {
    var e := ToEntry(row);
    assert Fields(e) == CellsFrom(row, 0, FIELD_COUNT);
    DefinedTextsOfCells(row, 0, FIELD_COUNT);
  }

  /** Cells past the seventh do not reach the record. */
  lemma EntryIgnoresExtraCells(row: Row, extra: Row)
    requires |row| >= FIELD_COUNT
    ensures ToEntry(row + extra) == ToEntry(row)
  {
    assert forall k :: 0 <= k < FIELD_COUNT ==> (row + extra)[k] == row[k];
  }

  // ---------------------------------------------------------------------
  // The artifact as a whole.

  /** The records written for a report (lines 34-52). */
  function ReportArtifact(report: seq<Row>): (entries: seq<ReportEntry>)
    ensures |entries| == |report|
  {
    ToEntries(CleanReport(report))
  }

  /**
   * One record per row, in report order, each taking key k from the
   * stripped cell k of its row, or undefined where the row is too short.
   */
  lemma ReportArtifactFields(report: seq<Row>, i: nat, k: nat)
    requires i < |report| && k < FIELD_COUNT
    ensures Fields(ReportArtifact(report)[i])[k]
         == (if k < |report[i]| then Defined(Strip(report[i][k])) else Undefined)
  {
  }

  /** An empty report gives the empty array. */
  lemma EmptyReportArtifact()
    ensures ReportArtifact([]) == []
  {
  }
}
