/** `SendDataToApiAsync`: each record is posted in turn; a record whose response is
    not a success status is kept, in order, in `failedData`, and every other record
    adds one to `successfulCount`. The destination service is an oracle
    `accepted` that says whether the response to a record has a success status. */
module Dispatcher {
  import opened Transaction

  /** The pair the dispatcher returns (and the body of the handler's reply). */
  datatype BatchResult = BatchResult(failedData: seq<TransactionDto>, successfulCount: nat)

  /** The records of `s` on which `keep` holds, in their order in `s`. */
  function Select(s: seq<TransactionDto>, keep: TransactionDto -> bool): (r: seq<TransactionDto>)
    ensures |r| <= |s|
    ensures forall t :: t in r <==> t in s && keep(t)
  {
    if |s| == 0 then []
    else
      var rest := Select(s[1..], keep);
      assert forall t :: t in s <==> t == s[0] || t in s[1..];
      if keep(s[0]) then [s[0]] + rest else rest
  }

  /** The dispatcher's state after one more record. */
  function Post(acc: BatchResult, t: TransactionDto, accepted: TransactionDto -> bool): BatchResult {
    if !accepted(t) then BatchResult(acc.failedData + [t], acc.successfulCount)
    else BatchResult(acc.failedData, acc.successfulCount + 1)
  }

  /** The `foreach` loop as a left fold from the state `acc`. */
  function DispatchFrom(acc: BatchResult, records: seq<TransactionDto>, accepted: TransactionDto -> bool): (r: BatchResult)
    ensures r.successfulCount + |r.failedData| == acc.successfulCount + |acc.failedData| + |records|
    ensures |acc.failedData| <= |r.failedData| && r.failedData[..|acc.failedData|] == acc.failedData
    decreases |records|
  {
    if |records| == 0 then acc
    else DispatchFrom(Post(acc, records[0], accepted), records[1..], accepted)
  }

  /** The dispatcher, from an empty failed list and a zero count. */
  function Dispatch(records: seq<TransactionDto>, accepted: TransactionDto -> bool): (r: BatchResult)
    ensures r.successfulCount + |r.failedData| == |records|
    ensures forall t :: t in r.failedData <==> t in records && !accepted(t)
  {
    DispatchFromSelects(BatchResult([], 0), records, accepted);
    assert [] + Select(records, t => !accepted(t)) == Select(records, t => !accepted(t));
    DispatchFrom(BatchResult([], 0), records, accepted)
  }

  /** Selecting from a concatenation selects from each part. */
  lemma {:induction false} SelectAppend(a: seq<TransactionDto>, b: seq<TransactionDto>, keep: TransactionDto -> bool)
    ensures Select(a + b, keep) == Select(a, keep) + Select(b, keep)
  {
    if |a| == 0 {
      assert a + b == b;
    } else {
      assert (a + b)[0] == a[0];
      assert (a + b)[1..] == a[1..] + b;
      SelectAppend(a[1..], b, keep);
    }
  }

  /** Every record is selected by exactly one of a predicate and its negation. */
  lemma {:induction false} SelectSplits(s: seq<TransactionDto>, keep: TransactionDto -> bool)
    ensures |Select(s, keep)| + |Select(s, t => !keep(t))| == |s|
  {
    if |s| > 0 {
      SelectSplits(s[1..], keep);
    }
  }

  /** From any starting state the fold appends the rejected records, in order, and
      counts the accepted ones. */
  lemma {:induction false} DispatchFromSelects(acc: BatchResult, records: seq<TransactionDto>, accepted: TransactionDto -> bool)
    ensures DispatchFrom(acc, records, accepted)
         == BatchResult(acc.failedData + Select(records, t => !accepted(t)),
                        acc.successfulCount + |Select(records, accepted)|)
    decreases |records|
  {
    if |records| > 0 {
      var t := records[0];
      DispatchFromSelects(Post(acc, t, accepted), records[1..], accepted);
      if !accepted(t) {
        assert acc.failedData + [t] + Select(records[1..], u => !accepted(u))
            == acc.failedData + ([t] + Select(records[1..], u => !accepted(u)));
      }
    } else {
      assert acc.failedData + [] == acc.failedData;
    }
  }

  /** `failedData` is exactly the rejected records in input order, and
      `successfulCount` is the number of accepted ones. */
  lemma DispatchIsPartition(records: seq<TransactionDto>, accepted: TransactionDto -> bool)
    ensures Dispatch(records, accepted).failedData == Select(records, t => !accepted(t))
    ensures Dispatch(records, accepted).successfulCount == |Select(records, accepted)|
  {
    DispatchFromSelects(BatchResult([], 0), records, accepted);
    assert [] + Select(records, t => !accepted(t)) == Select(records, t => !accepted(t));
  }

  /** Every record is either counted or kept, never both and never neither. */
  lemma DispatchAccountsForAll(records: seq<TransactionDto>, accepted: TransactionDto -> bool)
    ensures Dispatch(records, accepted).successfulCount + |Dispatch(records, accepted).failedData| == |records|
  {
    DispatchIsPartition(records, accepted);
    SelectSplits(records, accepted);
  }

  /** Dispatching a batch in two parts gives the first part's failures followed by the
      second's, and the sum of the counts. */
  lemma DispatchAppend(a: seq<TransactionDto>, b: seq<TransactionDto>, accepted: TransactionDto -> bool)
    ensures Dispatch(a + b, accepted)
         == BatchResult(Dispatch(a, accepted).failedData + Dispatch(b, accepted).failedData,
                        Dispatch(a, accepted).successfulCount + Dispatch(b, accepted).successfulCount)
  {
    DispatchIsPartition(a + b, accepted);
    DispatchIsPartition(a, accepted);
    DispatchIsPartition(b, accepted);
    SelectAppend(a, b, accepted);
    SelectAppend(a, b, t => !accepted(t));
  }

  /** `SendDataToApiAsync` without the HTTP client: the `foreach` loop. */
  method SendDataToApi(excelData: seq<TransactionDto>, accepted: TransactionDto -> bool)
    returns (failedData: seq<TransactionDto>, successfulCount: nat)
    ensures BatchResult(failedData, successfulCount) == Dispatch(excelData, accepted)
    ensures failedData == Select(excelData, t => !accepted(t))
    ensures successfulCount + |failedData| == |excelData|
  {
    failedData := [];
    successfulCount := 0;
    var i := 0;
    while i < |excelData|
      invariant i <= |excelData|
      invariant Dispatch(excelData, accepted) == DispatchFrom(BatchResult(failedData, successfulCount), excelData[i..], accepted)
    {
      var dataRecord := excelData[i];
      assert excelData[i..][1..] == excelData[i + 1..];
      if !accepted(dataRecord) {
        failedData := failedData + [dataRecord];
      } else {
        successfulCount := successfulCount + 1;
      }
      i := i + 1;
    }
    DispatchIsPartition(excelData, accepted);
    DispatchAccountsForAll(excelData, accepted);
  }
}
