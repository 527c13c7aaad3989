/** `UploadAndSendFile`, the POST /transaction/notification handler: a missing or
    zero-length upload, or a sheet without data rows, is answered with 400 and the
    empty result; otherwise the records are dispatched and the pair is returned
    with 200. An exception thrown while mapping a row is not caught. */
module Handler {
  import opened Wrappers
  import opened Transaction
  import opened Extraction
  import opened Dispatcher

  /** The uploaded form file: its length in bytes and the first sheet of the workbook
      it holds. */
  datatype Upload = Upload(length: int, sheet: Sheet)

  /** The handler's outcome: `TypedResults.BadRequest`, `TypedResults.Ok`, or the
      extraction's uncaught exception. */
  datatype Reply = BadRequest(body: BatchResult) | Ok(body: BatchResult) | Fault(error: MappingError)

  /** `GetEmptyResult`: no failed records and a zero count. */
  function GetEmptyResult(): (r: BatchResult)
    ensures |r.failedData| == 0 && r.successfulCount == 0
  {
    BatchResult([], 0)
  }

  /** The handler, with `file` `None` for a request without a file. */
  function UploadAndSendFile(file: Option<Upload>, host: Host, accepted: TransactionDto -> bool): (r: Reply)
    ensures file.None? || file.value.length == 0 ==> r == BadRequest(GetEmptyResult())
    ensures r.Ok? ==> file.Some? && Extract(file.value.sheet, host).Success?
    ensures r.Fault? ==> file.Some? && Extract(file.value.sheet, host) == Failure(r.error)
  {
    match file
    case None => BadRequest(GetEmptyResult())
    case Some(upload) =>
      if upload.length == 0 then BadRequest(GetEmptyResult())
      else
        match Extract(upload.sheet, host)
        case Failure(e) => Fault(e)
        case Success(excelData) =>
          if |excelData| == 0 then BadRequest(GetEmptyResult())
          else
            var batch := Dispatch(excelData, accepted);
            Ok(batch)
  }

  /** A request without data is refused with the empty result, and the destination
      service is never consulted: the reply is the same whatever it would answer. */
  lemma EmptyInputNeverDispatches(file: Option<Upload>, host: Host, accepted: TransactionDto -> bool, accepted': TransactionDto -> bool)
    requires UploadAndSendFile(file, host, accepted).BadRequest?
    ensures UploadAndSendFile(file, host, accepted) == BadRequest(GetEmptyResult())
    ensures UploadAndSendFile(file, host, accepted') == UploadAndSendFile(file, host, accepted)
  {
  }

  /** A non-empty upload whose sheet has no data rows is refused with the empty result. */
  lemma NoDataRowsIsBadRequest(upload: Upload, host: Host, accepted: TransactionDto -> bool)
    requires upload.length != 0 && |DataRows(upload.sheet)| == 0
    ensures UploadAndSendFile(Some(upload), host, accepted) == BadRequest(GetEmptyResult())
  {
    ExtractSuccess(upload.sheet, host);
  }

  /** A non-empty upload fails exactly when some data row's mapping throws. */
  lemma FaultIffRowThrows(upload: Upload, host: Host, accepted: TransactionDto -> bool)
    requires upload.length != 0
    ensures var rows := DataRows(upload.sheet);
            var thrown := exists k :: 0 <= k < |rows| && MapDataRow(rows[k], host).Failure?;
            UploadAndSendFile(Some(upload), host, accepted).Fault? <==> thrown
  {
    ExtractSuccess(upload.sheet, host);
  }

  /** A non-empty upload whose data rows all map, and of which there is at least one,
      is dispatched: the reply is 200 with the dispatcher's result for the extracted
      records. */
  lemma DataIsDispatched(upload: Upload, host: Host, accepted: TransactionDto -> bool)
    requires upload.length != 0 && |DataRows(upload.sheet)| > 0
    requires forall k :: 0 <= k < |DataRows(upload.sheet)| ==> MapDataRow(DataRows(upload.sheet)[k], host).Success?
    ensures Extract(upload.sheet, host).Success?
    ensures UploadAndSendFile(Some(upload), host, accepted) == Ok(Dispatch(Extract(upload.sheet, host).value, accepted))
  {
    ExtractSuccess(upload.sheet, host);
  }

  /** A 200 reply accounts for every data row: each is either counted as delivered or
      returned as failed, and the failed ones are exactly the rejected records in
      row order. */
  lemma OkAccountsForEveryRow(upload: Upload, host: Host, accepted: TransactionDto -> bool)
    requires UploadAndSendFile(Some(upload), host, accepted).Ok?
    ensures var b := UploadAndSendFile(Some(upload), host, accepted).body;
            b.successfulCount + |b.failedData| == |DataRows(upload.sheet)| > 0
    ensures var b := UploadAndSendFile(Some(upload), host, accepted).body;
            b.failedData == Select(Extract(upload.sheet, host).value, t => !accepted(t))
  {
    var excelData := Extract(upload.sheet, host).value;
    ExtractSuccess(upload.sheet, host);
    DispatchAccountsForAll(excelData, accepted);
    DispatchIsPartition(excelData, accepted);
  }
}
