/** `ReadExcelData`: the first worksheet read row by row from row 1 (row 0 is the
    header) through `LastRowNum` inclusive. Rows that do not exist are skipped,
    every other row is mapped to a `TransactionDto`, and the first row whose
    mapping throws aborts the whole extraction. */
module Extraction {
  import opened Wrappers
  import opened Dates
  import opened Transaction
  import opened RowMapper

  /** The first worksheet: row `i` is `sheet[i]`, `None` where the sheet has no row. */
  type Sheet = seq<Option<Row>>

  /** What the extraction reads from its host: the clock, read once per mapped row
      (`clock(i)` is `DateTime.UtcNow` as sampled for row i), and the host's
      local-to-UTC conversion. */
  datatype Host = Host(clock: nat -> Timestamp, zone: Timestamp -> Timestamp)

  /** The exception that aborts an extraction, with the row it was thrown on. */
  datatype MappingError = MappingError(rowIndex: nat, cell: CellError)

  /** A row that exists, with its index. */
  datatype DataRow = DataRow(index: nat, cells: Row)

  /** `sheet.LastRowNum`: the index of the last row, -1 for a sheet without rows. */
  function LastRowNum(sheet: Sheet): int {
    |sheet| - 1
  }

  /** Maps a data row with the clock reading taken for it, tagging an exception with
      the row's index. */
  function MapDataRow(d: DataRow, host: Host): (r: Result<TransactionDto, MappingError>)
    ensures r.Success? <==> MapRow(d.cells, host.clock(d.index), host.zone).Success?
    ensures r.Success? ==> r.value == MapRow(d.cells, host.clock(d.index), host.zone).value
    ensures r.Failure? ==> r.error == MappingError(d.index, MapRow(d.cells, host.clock(d.index), host.zone).error)
  {
    match MapRow(d.cells, host.clock(d.index), host.zone)
    case Success(t) => Success(t)
    case Failure(e) => Failure(MappingError(d.index, e))
  }

  /** How each data row becomes a record or an exception. */
  type RowMapping = DataRow -> Result<TransactionDto, MappingError>

  /** The mapping the handler uses: `MapDataRow` with the host's clock and zone. */
  function Mapping(host: Host): RowMapping {
    d => MapDataRow(d, host)
  }

  /** The loop from row `i` on: each existing row is mapped in turn and the first
      exception ends the extraction. */
  function ExtractFrom(sheet: Sheet, mapping: RowMapping, i: nat): Result<seq<TransactionDto>, MappingError>
    decreases |sheet| - i
  {
    if i > LastRowNum(sheet) then Success([])
    else
      match sheet[i]
      case None => ExtractFrom(sheet, mapping, i + 1)
      case Some(row) =>
        var t :- mapping(DataRow(i, row));
        var rest :- ExtractFrom(sheet, mapping, i + 1);
        Success([t] + rest)
  }

  /** The whole extraction, starting below the header row. */
  function Extract(sheet: Sheet, host: Host): (r: Result<seq<TransactionDto>, MappingError>)
    ensures r.Success? ==> |r.value| == |DataRows(sheet)|
    ensures r.Failure? ==> exists d :: d in DataRows(sheet) && MapDataRow(d, host) == Failure(r.error)
  {
    var r := ExtractFrom(sheet, Mapping(host), 1);
    ExtractFromIsMapAll(sheet, Mapping(host), 1);
    MapAllSuccess(DataRows(sheet), Mapping(host));
    if r.Failure? then
      MapAllFailureExists(DataRows(sheet), Mapping(host));
      r
    else r
  }

  // ---------------------------------------------------------------------------
  // The rows the extraction visits

  /** The rows from index `i` on that exist, in sheet order. */
  function DataRowsFrom(sheet: Sheet, i: nat): seq<DataRow>
    decreases |sheet| - i
  {
    if i >= |sheet| then []
    else
      match sheet[i]
      case None => DataRowsFrom(sheet, i + 1)
      case Some(row) => [DataRow(i, row)] + DataRowsFrom(sheet, i + 1)
  }

  /** The data rows from `i` on are exactly the existing rows with index `i` or more,
      in strictly increasing row order. */
  lemma {:induction false} DataRowsFromExact(sheet: Sheet, i: nat)
    ensures var r := DataRowsFrom(sheet, i);
            forall k :: 0 <= k < |r| ==> i <= r[k].index < |sheet| && sheet[r[k].index] == Some(r[k].cells)
    ensures var r := DataRowsFrom(sheet, i);
            forall k, l :: 0 <= k < l < |r| ==> r[k].index < r[l].index
    ensures var r := DataRowsFrom(sheet, i);
            forall j :: i <= j < |sheet| && sheet[j].Some? ==> DataRow(j, sheet[j].value) in r
    decreases |sheet| - i
  {
    if i < |sheet| {
      DataRowsFromExact(sheet, i + 1);
      var rest := DataRowsFrom(sheet, i + 1);
      match sheet[i]
      case None =>
      case Some(row) =>
        var r := [DataRow(i, row)] + rest;
        assert forall k :: 1 <= k < |r| ==> r[k] == rest[k - 1];
    }
  }

  /** The data rows: every existing row below the header, in sheet order. */
  function DataRows(sheet: Sheet): seq<DataRow> {
    DataRowsFrom(sheet, 1)
  }

  /** Mapping a list of data rows in order, stopping at the first exception. */
  function MapAll(rows: seq<DataRow>, mapping: RowMapping): Result<seq<TransactionDto>, MappingError> {
    if |rows| == 0 then Success([])
    else
      var t :- mapping(rows[0]);
      var rest :- MapAll(rows[1..], mapping);
      Success([t] + rest)
  }

  /** The loop over the sheet is the mapping of its data rows. */
  lemma {:induction false} ExtractFromIsMapAll(sheet: Sheet, mapping: RowMapping, i: nat)
    ensures ExtractFrom(sheet, mapping, i) == MapAll(DataRowsFrom(sheet, i), mapping)
    decreases |sheet| - i
  {
    if i < |sheet| {
      ExtractFromIsMapAll(sheet, mapping, i + 1);
      var rest := DataRowsFrom(sheet, i + 1);
      match sheet[i]
      case None =>
      case Some(row) =>
        var r := [DataRow(i, row)] + rest;
        assert r[0] == DataRow(i, row) && r[1..] == rest;
    }
  }

  /** `MapAll` succeeds exactly when every row maps, and then yields the rows'
      records one for one, in order. */
  lemma {:induction false} MapAllSuccess(rows: seq<DataRow>, mapping: RowMapping)
    ensures MapAll(rows, mapping).Success? <==> forall k :: 0 <= k < |rows| ==> mapping(rows[k]).Success?
    ensures MapAll(rows, mapping).Success? ==>
              |MapAll(rows, mapping).value| == |rows|
              && forall k :: 0 <= k < |rows| ==> MapAll(rows, mapping).value[k] == mapping(rows[k]).value
  {
    if |rows| > 0 {
      MapAllSuccess(rows[1..], mapping);
      assert forall k :: 1 <= k < |rows| ==> rows[k] == rows[1..][k - 1];
      if MapAll(rows, mapping).Success? {
        var v := MapAll(rows, mapping).value;
        assert v == [mapping(rows[0]).value] + MapAll(rows[1..], mapping).value;
      }
    }
  }

  /** A failing `MapAll` reports the first row whose mapping throws. */
  lemma {:induction false} MapAllFailure(rows: seq<DataRow>, mapping: RowMapping) returns (k: nat)
    requires MapAll(rows, mapping).Failure?
    ensures k < |rows| && mapping(rows[k]).Failure?
    ensures forall l :: 0 <= l < k ==> mapping(rows[l]).Success?
    ensures MapAll(rows, mapping).error == mapping(rows[k]).error
  {
    if mapping(rows[0]).Failure? {
      k := 0;
    } else {
      var rest := rows[1..];
      var j := MapAllFailure(rest, mapping);
      k := j + 1;
      assert forall l :: 1 <= l < k ==> rows[l] == rest[l - 1];
      assert rows[k] == rest[j];
    }
  }

  /** A failing `MapAll` fails with the exception of one of its rows. */
  lemma MapAllFailureExists(rows: seq<DataRow>, mapping: RowMapping)
    requires MapAll(rows, mapping).Failure?
    ensures exists d :: d in rows && mapping(d) == Failure(MapAll(rows, mapping).error)
  {
    var k := MapAllFailure(rows, mapping);
    assert rows[k] in rows;
  }

  // ---------------------------------------------------------------------------
  // Properties of the extraction

  /** The extraction succeeds exactly when every data row maps; then it yields one
      record per data row, in row order, each mapped with its own clock reading. */
  lemma ExtractSuccess(sheet: Sheet, host: Host)
    ensures var rows := DataRows(sheet);
            Extract(sheet, host).Success? <==> forall k :: 0 <= k < |rows| ==> MapDataRow(rows[k], host).Success?
    ensures var rows := DataRows(sheet);
            Extract(sheet, host).Success? ==>
              |Extract(sheet, host).value| == |rows|
              && forall k :: 0 <= k < |rows| ==> Extract(sheet, host).value[k] == MapDataRow(rows[k], host).value
  {
    ExtractFromIsMapAll(sheet, Mapping(host), 1);
    MapAllSuccess(DataRows(sheet), Mapping(host));
  }

  /** A failed extraction reports the first data row whose mapping throws, with the
      column and cause of that row's exception. */
  lemma ExtractFailure(sheet: Sheet, host: Host)
    requires Extract(sheet, host).Failure?
    ensures var rows := DataRows(sheet);
            exists k :: 0 <= k < |rows| && MapDataRow(rows[k], host).Failure?
              && (forall l :: 0 <= l < k ==> MapDataRow(rows[l], host).Success?)
              && Extract(sheet, host).error == MappingError(rows[k].index, MapRow(rows[k].cells, host.clock(rows[k].index), host.zone).error)
  {
    var rows := DataRows(sheet);
    ExtractFromIsMapAll(sheet, Mapping(host), 1);
    var k := MapAllFailure(rows, Mapping(host));
    assert MapDataRow(rows[k], host).Failure?;
  }

  /** The extraction from row `i` on reads no row before `i`. */
  lemma {:induction false} ExtractFromReadsOnward(sheet: Sheet, sheet': Sheet, mapping: RowMapping, i: nat)
    requires |sheet| == |sheet'|
    requires forall j :: i <= j < |sheet| ==> sheet[j] == sheet'[j]
    ensures ExtractFrom(sheet, mapping, i) == ExtractFrom(sheet', mapping, i)
    decreases |sheet| - i
  {
    if i < |sheet| {
      ExtractFromReadsOnward(sheet, sheet', mapping, i + 1);
      assert sheet[i] == sheet'[i];
    }
  }

  /** Row 0 is the header: whatever it holds, the extraction is the same. */
  lemma HeaderNeverMapped(sheet: Sheet, header: Option<Row>, host: Host)
    requires |sheet| > 0
    ensures Extract(sheet[0 := header], host) == Extract(sheet, host)
  {
    ExtractFromReadsOnward(sheet[0 := header], sheet, Mapping(host), 1);
  }

  // ---------------------------------------------------------------------------
  // The loop

  /** Puts the records already collected in front of a later result. */
  function Prepend(done: seq<TransactionDto>, later: Result<seq<TransactionDto>, MappingError>): Result<seq<TransactionDto>, MappingError> {
    match later
    case Success(v) => Success(done + v)
    case Failure(e) => Failure(e)
  }

  /** One turn of the loop: a missing row adds nothing, a row that throws ends the
      extraction with its error, and a mapped row goes in front of the rest. */
  lemma ExtractFromStep(sheet: Sheet, mapping: RowMapping, i: nat)
    requires i <= LastRowNum(sheet)
    ensures sheet[i].None? ==> ExtractFrom(sheet, mapping, i) == ExtractFrom(sheet, mapping, i + 1)
    ensures sheet[i].Some? && mapping(DataRow(i, sheet[i].value)).Failure? ==>
              ExtractFrom(sheet, mapping, i) == Failure(mapping(DataRow(i, sheet[i].value)).error)
    ensures sheet[i].Some? && mapping(DataRow(i, sheet[i].value)).Success? ==>
              ExtractFrom(sheet, mapping, i) == Prepend([mapping(DataRow(i, sheet[i].value)).value], ExtractFrom(sheet, mapping, i + 1))
  {
  }

  /** Collecting in two steps is collecting once. */
  lemma PrependTwice(done: seq<TransactionDto>, more: seq<TransactionDto>, later: Result<seq<TransactionDto>, MappingError>)
    ensures Prepend(done, Prepend(more, later)) == Prepend(done + more, later)
  {
    match later
    case Success(v) => assert done + (more + v) == (done + more) + v;
    case Failure(_) =>
  }

  /** `ReadExcelData` over an already-opened sheet: the `for` loop with its list. */
  method ReadExcelData(sheet: Sheet, host: Host) returns (r: Result<seq<TransactionDto>, MappingError>)
    ensures r == Extract(sheet, host)
  {
    var mapping := Mapping(host);
    var excelDataList: seq<TransactionDto> := [];
    var rowIndex := 1;
    match ExtractFrom(sheet, mapping, 1) {
      case Success(v) => assert [] + v == v;
      case Failure(_) =>
    }
    while rowIndex <= LastRowNum(sheet)
      invariant 1 <= rowIndex
      invariant ExtractFrom(sheet, mapping, 1) == Prepend(excelDataList, ExtractFrom(sheet, mapping, rowIndex))
      decreases |sheet| - rowIndex
    {
      var row := sheet[rowIndex];
      ExtractFromStep(sheet, mapping, rowIndex);
      if row.Some? {
        var mapped := mapping(DataRow(rowIndex, row.value));
        if mapped.Failure? {
          return Failure(mapped.error);
        }
        PrependTwice(excelDataList, [mapped.value], ExtractFrom(sheet, mapping, rowIndex + 1));
        excelDataList := excelDataList + [mapped.value];
      }
      rowIndex := rowIndex + 1;
    }
    assert excelDataList + [] == excelDataList;
    return Success(excelDataList);
  }
}
