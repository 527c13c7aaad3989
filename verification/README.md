# AgencyBankingHelper transaction upload, in Dafny

A model of the transaction-notification upload of AgencyBankingHelperSolution
(`Endpoints.cs`): a spreadsheet is uploaded, every row below the header is turned
into a `TransactionDto`, and each record is posted to the notification service.
The model covers:

- the field normalisers: `GetAmtInKobo`, the transmission-date resolution with its
  "now" fallback, the `LocalTime` default and the empty-string defaults of the text
  columns;
- the row mapper, which binds cells 0–59 to the record's fields by position;
- `ReadExcelData`, the batch extraction over the sheet;
- `SendDataToApiAsync`, the dispatcher;
- the empty-input guard of `UploadAndSendFile` and `GetEmptyResult`.

Each is written twice: as the code's loop or branch structure, and as an
independent description (a selection, a list of data rows, a round trip). Lemmas
prove that the two agree.

Files, one module each:

- `wrappers.dfy`: `Option` and `Result`. A thrown exception is a `Failure`.
- `digits.dfy`: digit strings and their values, plus the zero-padded rendering that
  the "yyyy", "MM", "HH" and "fffffff" format specifiers use.
- `conversions.dfy`: `Convert.ToInt64`, `Convert.ToDecimal` and `Convert.ToBoolean`
  over strings. A null argument converts to the type's default (0, false). Malformed
  text throws `FormatException`. An integer outside 64 bits throws
  `OverflowException`. `System.Decimal` is a coefficient with a decimal scale, so
  "1.50" is 150 at scale 2 and multiplying it by 100 keeps the scale.
- `dates.dfy`: `DateTime` with its kind, `TryParseExact(s, "yyyy-MM-dd")`, the "o"
  and "HHmmss" formats, and `ToUniversalTime`.
- `transaction.dfy`: `TransactionDto` and the column layout of its text fields.
- `rowmapper.dfy`: the normalisers and the `TransactionDto` initializer.
- `extraction.dfy`: `ReadExcelData`.
- `dispatch.dfy`: `SendDataToApiAsync`.
- `handler.dfy`: `UploadAndSendFile` and `GetEmptyResult`.

Behaviour of the code that is easy to misread:

- The clock is read once per mapped row (line 92), not once per upload. `Host.clock(i)` is the reading taken for row i.
- A missing cell 0, 57 or 59 reaches `Convert.ToInt64`/`Convert.ToBoolean` as a null string. It yields 0 or false instead of failing.
- Column 11 (`LocalDate`) has no empty-string default. It stays null when the cell is missing.
- A date parsed from column 6 has kind `Unspecified`. It goes through `ToUniversalTime`, so it is shifted by the host's zone rules. Only the "now" fallback is already UTC.
- A missing column-6 cell is replaced by the round-trip ("o") text of now. That text is 28 characters long, so it can never match "yyyy-MM-dd". The fallback to now is always what happens.
- The first row whose conversion throws aborts the whole upload. Nothing catches the exception, so the handler never replies with a partial result.
- A row that exists but has no cells is not skipped. It maps to a record with AgentAccountId 0, Amt 0, ReceiptPrinted false, Id 0, empty text columns, a null LocalDate and the clock defaults for the time fields, and that record is posted like any other.
- The number parser accepts trailing NUL characters after the trailing white space, so "5\0" converts to 5.

## Model

| member | source | states |
|---|---|---|
| Conversions.ParseInt64 | AgencyBankingHelperSolution/Endpoints.cs:122 | every integer the text converts to lies in the 64-bit range |
| Conversions.ToInt64 | AgencyBankingHelperSolution/Endpoints.cs:122 | a null cell converts to 0; every converted value lies in the 64-bit range |
| Conversions.Int64RoundTrip | AgencyBankingHelperSolution/Endpoints.cs:183 | the decimal text of every 64-bit integer converts back to that integer |
| Conversions.Int64TextOverflows | AgencyBankingHelperSolution/Endpoints.cs:122 | the text of an integer outside 64 bits throws OverflowException, not FormatException |
| Conversions.Int64WellFormedText | AgencyBankingHelperSolution/Endpoints.cs:122 | every text the 64-bit parser does not reject as malformed is white space, an optional sign, digits, white space and NULs; it gives the signed value of the digits, or OverflowException when that is outside 64 bits |
| Conversions.Int64NonNumericTextFails | AgencyBankingHelperSolution/Endpoints.cs:122 | text that holds any character other than white space, NUL, a sign or a digit (the point included) throws FormatException |
| Conversions.Int64GrammarAccepted | AgencyBankingHelperSolution/Endpoints.cs:122 | white space, an optional '+' or '-', digits, white space and NULs parse to the digits' signed value, or throw OverflowException outside 64 bits; so "+5" is 5 and "007" is 7 |
| Conversions.ParseDecimal | AgencyBankingHelperSolution/Endpoints.cs:197 | the only exception the decimal parser throws is FormatException |
| Conversions.DecimalGrammarAccepted | AgencyBankingHelperSolution/Endpoints.cs:197 | white space, an optional sign, digits, an optional point and digits (at least one digit), white space and NULs parse to the digits' signed value at a scale equal to the number of fraction digits; "+1.5", "-.5" and "5." included |
| Conversions.DecimalWellFormedText | AgencyBankingHelperSolution/Endpoints.cs:197 | every accepted text has exactly that shape and that value, so "-", ".", "1.2.3", "1 2" and "+-5" throw FormatException |
| Conversions.PaddingSkipped | AgencyBankingHelperSolution/Endpoints.cs:197 | the decimal parser, and the 64-bit parser of line 122 as well, read a number with white space on either side and NULs after it exactly as the bare number |
| Conversions.ScaledByHundred | AgencyBankingHelperSolution/Endpoints.cs:197 | multiplying a decimal's coefficient by 100 at the same scale multiplies its value by 100 |
| Conversions.UnsignedDecimalWithPoint | AgencyBankingHelperSolution/Endpoints.cs:197 | "whole.frac" reads as the digits without the point, at a scale equal to the number of fraction digits |
| Conversions.NonNumericTextFails | AgencyBankingHelperSolution/Endpoints.cs:197 | text that holds any character other than white space, NUL, a sign, a digit or the point is rejected with FormatException |
| Conversions.ParseBoolean | AgencyBankingHelperSolution/Endpoints.cs:181 | the only exception the Boolean parser throws is FormatException |
| Conversions.ToBoolean | AgencyBankingHelperSolution/Endpoints.cs:181 | a null cell converts to false; the only exception is FormatException |
| Conversions.BooleanAcceptsPaddedAnyCase | AgencyBankingHelperSolution/Endpoints.cs:181 | "true"/"false" in any letter case, padded with white space or NUL, converts to its value |
| Conversions.BooleanRejectsOtherWords | AgencyBankingHelperSolution/Endpoints.cs:181 | any other unpadded text throws FormatException |
| Conversions.BooleanAcceptedIsPaddedWord | AgencyBankingHelperSolution/Endpoints.cs:181 | every text that converts is "true" or "false" for its value, in some letter case, padded with white space or NUL |
| Dates.TryParseExactDate | AgencyBankingHelperSolution/Endpoints.cs:96 | an accepted text is exactly the "yyyy-MM-dd" rendering of a real calendar date; the result is that date at midnight with kind Unspecified |
| Dates.DateRoundTrip | AgencyBankingHelperSolution/Endpoints.cs:96 | the "yyyy-MM-dd" text of every date in years 1–9999 is accepted and gives that date back |
| Dates.RoundTripTextNeverParses | AgencyBankingHelperSolution/Endpoints.cs:93 | the "o" text that stands in for a missing date cell is never accepted by the exact pattern |
| Dates.TimeTextRoundTrip | AgencyBankingHelperSolution/Endpoints.cs:114 | the "HHmmss" text of a time reads back as its hour, minute and second |
| Dates.ToUniversalTime | AgencyBankingHelperSolution/Endpoints.cs:107-110 | the result is UTC; a UTC value is returned unchanged |
| RowMapper.GetAmtInKobo | AgencyBankingHelperSolution/Endpoints.cs:194-198 | empty text is 0; it throws exactly when non-empty text is not a decimal number, and then with FormatException |
| RowMapper.AmountOfNumber | AgencyBankingHelperSolution/Endpoints.cs:197 | non-empty text that parses as the decimal d converts to a decimal worth 100 times d, at d's scale |
| RowMapper.AmountRoundTrip | AgencyBankingHelperSolution/Endpoints.cs:194-198 | the two-decimal major-unit text of k minor units converts to a decimal worth exactly k, at scale 2: nothing is lost |
| RowMapper.ConvertToPostgresDateTime | AgencyBankingHelperSolution/Endpoints.cs:200-207 | the round trip through an instant gives a UTC value back unchanged |
| RowMapper.ResolveTransmissionDate | AgencyBankingHelperSolution/Endpoints.cs:92-110 | the transmission date is always UTC; a missing cell gives the row's own clock reading |
| RowMapper.TransmissionDateOfDateText | AgencyBankingHelperSolution/Endpoints.cs:96-110 | a "yyyy-MM-dd" date gives that date at midnight, converted by the host zone |
| RowMapper.TransmissionDateFallback | AgencyBankingHelperSolution/Endpoints.cs:100-104 | any text that is not a "yyyy-MM-dd" calendar date gives the row's clock reading as UTC |
| RowMapper.ResolveLocalTime | AgencyBankingHelperSolution/Endpoints.cs:114 | a present cell's text is kept verbatim, even when empty; a missing cell gives six digits |
| RowMapper.LocalTimeDefault | AgencyBankingHelperSolution/Endpoints.cs:114 | the default reads back as the hour, minute and second of the row's clock reading |
| RowMapper.MapRow | AgencyBankingHelperSolution/Endpoints.cs:120-184 | LocalDate is the raw cell (null when missing); LocalTime and the transmission date follow their resolvers; ids are 64-bit; an error comes from column 0, 5, 57 or 59 |
| RowMapper.MapRowOutcome | AgencyBankingHelperSolution/Endpoints.cs:120-184 | a row maps iff none of its four typed conversions throws; otherwise the error is the first in initializer order (0, 5, 57, 59) |
| RowMapper.MapRowTextColumns | AgencyBankingHelperSolution/Endpoints.cs:123-182 | every text column 1–4, 7–9, 12–56 and 58 holds its cell's text, or "" when the cell is missing |
| RowMapper.MapRowTypedFields | AgencyBankingHelperSolution/Endpoints.cs:122-183 | AgentAccountId, Amt, ReceiptPrinted and Id are the conversions of cells 0, 5, 57 and 59 |
| RowMapper.MapRowAbsentTypedCells | AgencyBankingHelperSolution/Endpoints.cs:122-183 | a row without cells 0, 5, 57 and 59 maps, with 0, 0, false and 0 |
| RowMapper.MapRowReadsSixtyColumns | AgencyBankingHelperSolution/Endpoints.cs:120-184 | two rows that agree on cells 0–59, counting cells past the end as missing, map to the same result |
| Extraction.DataRowsFromExact | AgencyBankingHelperSolution/Endpoints.cs:85-89 | the data rows are exactly the existing rows from the start index on, in strictly increasing row order |
| Extraction.Extract | AgencyBankingHelperSolution/Endpoints.cs:85-187 | a successful extraction has one record per data row; a failure is the exception some data row's mapping throws |
| Extraction.ExtractSuccess | AgencyBankingHelperSolution/Endpoints.cs:85-186 | extraction succeeds iff every data row maps; it then yields one record per data row, in row order, each mapped with that row's clock reading |
| Extraction.ExtractFailure | AgencyBankingHelperSolution/Endpoints.cs:85-186 | a failed extraction reports the first data row that throws and the exception's cause; the row index and column are labels the model adds |
| Extraction.HeaderNeverMapped | AgencyBankingHelperSolution/Endpoints.cs:85 | whatever row 0 holds, including no row at all, the extraction is the same |
| Extraction.ReadExcelData | AgencyBankingHelperSolution/Endpoints.cs:77-192 | the loop from row 1 to LastRowNum, which skips null rows and stops at the first exception, computes the extraction |
| Dispatcher.DispatchFrom | AgencyBankingHelperSolution/Endpoints.cs:53-64 | each record adds one to the count or to failedData; failures already collected stay at the front, unchanged |
| Dispatcher.Dispatch | AgencyBankingHelperSolution/Endpoints.cs:53-64 | successfulCount plus the failed records equals the number of records; a record is in failedData iff it is in the batch and rejected |
| Dispatcher.DispatchIsPartition | AgencyBankingHelperSolution/Endpoints.cs:53-64 | failedData is exactly the rejected records in input order; successfulCount is the number of accepted ones |
| Dispatcher.DispatchAccountsForAll | AgencyBankingHelperSolution/Endpoints.cs:48-67 | successfulCount plus the number of failed records equals the number of records |
| Dispatcher.DispatchAppend | AgencyBankingHelperSolution/Endpoints.cs:53-64 | dispatching a batch in two parts concatenates the failures and adds the counts |
| Dispatcher.SendDataToApi | AgencyBankingHelperSolution/Endpoints.cs:46-68 | the foreach loop computes the fold, keeps exactly the rejected records in order, and accounts for every record |
| Handler.GetEmptyResult | AgencyBankingHelperSolution/Endpoints.cs:69-76 | no failed records and a zero count |
| Handler.UploadAndSendFile | AgencyBankingHelperSolution/Endpoints.cs:17-42 | a missing or zero-length file gets 400 with the empty result; a 200 reply means the extraction succeeded; a fault is the extraction's exception |
| Handler.DataIsDispatched | AgencyBankingHelperSolution/Endpoints.cs:24-41 | a non-empty upload with at least one data row, all of which map, gets 200 with the dispatcher's result for the extracted records |
| Handler.EmptyInputNeverDispatches | AgencyBankingHelperSolution/Endpoints.cs:19-31 | a 400 reply always carries the empty result and does not depend on what the notification service would answer |
| Handler.NoDataRowsIsBadRequest | AgencyBankingHelperSolution/Endpoints.cs:28-31 | a non-empty file whose sheet has no data rows gets 400 with the empty result |
| Handler.FaultIffRowThrows | AgencyBankingHelperSolution/Endpoints.cs:24-25 | a non-empty upload ends in the uncaught exception iff some data row's conversion throws |
| Handler.OkAccountsForEveryRow | AgencyBankingHelperSolution/Endpoints.cs:33-41 | a 200 reply accounts for every data row, and there is at least one; the failed records are the rejected ones in row order |

## Left out

- The HTTP endpoint wiring, `IFormFile`, `TypedResults` and the JSON encoding of the reply are not modelled. The reply is a datatype.
- The NPOI workbook decoding is not modelled: `XSSFWorkbook`, `GetSheetAt(0)`, `GetRow` and the `ToString()` of a cell. A sheet is a sequence of optional rows of optional cell texts. A file that is not a workbook (NPOI throws) is not represented.
- `PostAsJsonAsync` is an oracle, `accepted`, that says whether the response to a record has a success status. The oracle is a function of the record. A service that answers differently for equal records, timeouts, and transport exceptions are not modelled.
- The clock (`DateTime.UtcNow`) and the host's time zone rules used by `ToUniversalTime` are parameters: `Host.clock` and `Host.zone`.
- Conversions.ParseDecimal: parses the invariant grammar only: optional white space, sign, digits, one optional point, digits, white space, trailing NULs. The culture's separators, thousands groups and a trailing sign are not accepted. Parentheses and currency symbols are rejected, as `NumberStyles.Number` rejects them. It does not model the 96-bit bound of `System.Decimal`, its rounding past 28 digits, or the sign of a negative zero.
- RowMapper.GetAmtInKobo: does not model the OverflowException of a decimal beyond the 96-bit bound or of its product with 100, because the decimal is unbounded in the model.
- Conversions.ParseInt64: does not accept culture-specific sign symbols.
- Conversions.NonNumericTextFails: counts ',' (a thousands separator in `NumberStyles.Number`) and a trailing sign as rejected, because the model's grammar leaves those features out. `Convert.ToDecimal` accepts "1,000"; the model throws FormatException for it.
- Extraction.ExtractFailure: the row index and column carried by `MappingError` are labels the model adds for the reader. The .NET `FormatException` or `OverflowException` carries only its type and message; what the model promises about the .NET exception is the `Cause`.
- Handler.UploadAndSendFile: a fault carries the same model-added row index and column as `Extraction.ExtractFailure`; the uncaught exception of the code carries only its cause.
- Dispatcher.SendDataToApi: `successfulCount` is a natural number. The C# `int` would wrap after 2^31 - 1 successes, which is not modelled.
- The unused `customFormattedDate` (line 111), the empty `if` after the local time (lines 115–118), the commented-out record (lines 210–218) and the `excelData == null` test, which can never be true, have no counterpart.
