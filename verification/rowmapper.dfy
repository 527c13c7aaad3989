/** The per-row half of `ReadExcelData` and its field normalisers: the amount in
    minor units, the transmission date with its "now" fallback, the local time
    default, and the positional mapping of cells 0-59 to a `TransactionDto`. */
module RowMapper {
  import opened Wrappers
  import opened Digits
  import opened Conversions
  import opened Dates
  import opened Transaction

  /** A cell's text, or `None` where the sheet has no cell. */
  type Cell = Option<string>

  /** A sheet row: cells by column index. */
  type Row = seq<Cell>

  /** An exception thrown while mapping a row, with the column whose conversion threw. */
  datatype CellError = CellError(column: nat, cause: Cause)

  /** `row.GetCell(c)?.ToString()`: a column beyond the row's last cell has no cell. */
  function GetCell(row: Row, c: nat): Cell {
    if c < |row| then row[c] else None
  }

  /** `row.GetCell(c)?.ToString() ?? string.Empty`. */
  function CellText(row: Row, c: nat): string {
    GetCell(row, c).GetOr("")
  }

  // ---------------------------------------------------------------------------
  // Amount

  /** `GetAmtInKobo`: empty text is 0; any other text is parsed as a decimal and
      multiplied by 100 into minor units, throwing when it is not a number. A decimal
      times an integer multiplies the coefficient and keeps the scale. */
  function GetAmtInKobo(amt: string): (r: Result<Decimal, Cause>)
    ensures amt == "" ==> r == Success(Decimal(0, 0))
    ensures r.Failure? <==> amt != "" && ParseDecimal(amt).Failure?
    ensures r.Failure? ==> r.error == FormatError
  {
    if |amt| == 0 then Success(Decimal(0, 0))
    else
      var d :- ParseDecimal(amt);
      Success(Decimal(d.coefficient * 100, d.scale))
  }

  /** The decimal `GetAmtInKobo` forms from a parsed number. */
  lemma KoboOfParsed(amt: string, d: Decimal)
    requires amt != "" && ParseDecimal(amt) == Success(d)
    ensures GetAmtInKobo(amt) == Success(Decimal(100 * d.coefficient, d.scale))
  {
  }

  /** Non-empty text that parses as d converts to a hundred times d's value, at d's scale. */
  lemma AmountOfNumber(amt: string, d: Decimal)
    requires amt != "" && ParseDecimal(amt) == Success(d)
    ensures GetAmtInKobo(amt).Success?
    ensures DecimalValue(GetAmtInKobo(amt).value) == 100.0 * DecimalValue(d)
    ensures GetAmtInKobo(amt).value.scale == d.scale
  {
    KoboOfParsed(amt, d);
    ScaledByHundred(d.coefficient, d.scale);
  }

  /** 100 * k hundredths are worth k. */
  lemma HundredthsValue(k: int)
    ensures DecimalValue(Decimal(100 * k, 2)) == k as real
  {
    assert Pow10(2) == 100;
  }

  /** An amount of k minor units written in major units with two decimals, e.g. "-12.05". */
  function KoboText(k: int): string {
    var m := if k < 0 then -k else k;
    (if k < 0 then "-" else "") + UnitsAndCents(m / 100, m % 100)
  }

  /** "units.cc" for a whole number of units and cents below 100. */
  function UnitsAndCents(units: nat, cents: nat): string {
    DecimalText(units) + "." + Pad(cents, 2)
  }

  /** "units.cc" reads back as 100 * units + cents hundredths. */
  lemma UnitsAndCentsValue(units: nat, cents: nat)
    requires cents < 100
    ensures var r := UnsignedDecimal(UnitsAndCents(units, cents));
            r.Some? && r.value.scale == 2 && r.value.coefficient == 100 * units + cents
  {
    assert Pow10(2) == 100;
    UnsignedDecimalTwoPlaces(DecimalText(units), Pad(cents, 2), 100 * units + cents);
  }

  /** The two-decimal text of any whole number k of minor units converts back to
      100 * k hundredths, which is worth k: the scaling by 100 loses nothing. */
  lemma AmountRoundTrip(k: int)
    ensures GetAmtInKobo(KoboText(k)) == Success(Decimal(100 * k, 2))
    ensures DecimalValue(GetAmtInKobo(KoboText(k)).value) == k as real
  {
    assert ParseDecimal(KoboText(k)) == Success(Decimal(k, 2)) by {
      var m := if k < 0 then -k else k;
      var units := m / 100;
      var cents := m % 100;
      assert m == 100 * units + cents;
      var body := UnitsAndCents(units, cents);
      assert body[0] == DecimalText(units)[0];
      assert body[|body| - 1] == Pad(cents, 2)[1];
      UnitsAndCentsValue(units, cents);
      var magnitude := UnsignedDecimal(body).value;
      assert magnitude.coefficient == m && magnitude.scale == 2;
      ParseSignedDecimal(k < 0, body, magnitude);
      assert KoboText(k) == (if k < 0 then "-" else "") + body;
    }
    KoboOfParsed(KoboText(k), Decimal(k, 2));
    HundredthsValue(k);
  }

  // ---------------------------------------------------------------------------
  // Transmission date and local time

  /** `ConvertToPostgresDateTime`: a NodaTime round trip through `Instant`, the
      identity on UTC values (`Instant.FromDateTimeUtc` throws on any other kind). */
  function ConvertToPostgresDateTime(d: DateTime): (r: DateTime)
    requires d.kind == Utc
    ensures r == d && r.kind == Utc
  {
    d
  }

  /** The transmission date of a row from its column-6 cell and the "now" sampled for
      that row: the cell's text parsed with the exact "yyyy-MM-dd" pattern, falling back
      to now; an absent cell is replaced by now's round-trip text, which the pattern
      never accepts. A parsed date has an unspecified kind and is converted to UTC with
      the host's zone rules; the fallback is already UTC. */
  function ResolveTransmissionDate(cell: Cell, now: Timestamp, zone: Timestamp -> Timestamp): (r: DateTime)
    ensures r.kind == Utc
    ensures cell.None? ==> r == DateTime(now, Utc)
  {
    var dateString := match cell case Some(s) => s case None => RoundTripText(now);
    RoundTripTextNeverParses(now);
    var dateOh := match TryParseExactDate(dateString) case Some(d) => d case None => DateTime(now, Utc);
    var utc := if dateOh.kind != Utc then ToUniversalTime(dateOh, zone) else dateOh;
    ConvertToPostgresDateTime(utc)
  }

  /** A calendar date written "yyyy-MM-dd" gives that date at midnight, as UTC per the host zone. */
  lemma TransmissionDateOfDateText(y: nat, m: nat, d: nat, now: Timestamp, zone: Timestamp -> Timestamp)
    requires ValidDate(y, m, d)
    ensures ResolveTransmissionDate(Some(DateText(y, m, d)), now, zone) == DateTime(zone(Midnight(y, m, d)), Utc)
  {
    DateRoundTrip(y, m, d);
  }

  /** Any text that is not a calendar date written "yyyy-MM-dd" gives the row's "now". */
  lemma TransmissionDateFallback(s: string, now: Timestamp, zone: Timestamp -> Timestamp)
    requires forall y: nat, m: nat, d: nat :: ValidDate(y, m, d) ==> s != DateText(y, m, d)
    ensures ResolveTransmissionDate(Some(s), now, zone) == DateTime(now, Utc)
  {
  }

  /** `LocalTime`: the column-10 cell's text when the cell exists (even when empty),
      otherwise the row's "now" formatted "HHmmss". */
  function ResolveLocalTime(cell: Cell, now: Timestamp): (r: string)
    ensures cell.Some? ==> r == cell.value
    ensures cell.None? ==> |r| == 6 && AllDigits(r)
  {
    match cell
    case Some(s) => s
    case None => TimeText(now)
  }

  /** The default local time reads back as the hour, minute and second of "now". */
  lemma LocalTimeDefault(now: Timestamp)
    requires ValidTimestamp(now)
    ensures var r := ResolveLocalTime(None, now);
            Value(r[0..2]) == now.hour && Value(r[2..4]) == now.minute && Value(r[4..6]) == now.second
  {
    TimeTextRoundTrip(now);
  }

  // ---------------------------------------------------------------------------
  // The row mapper

  /** Tags a conversion's exception with the column it came from. */
  function AtColumn<T>(r: Result<T, Cause>, c: nat): (r': Result<T, CellError>)
    ensures r.Success? <==> r'.Success?
    ensures r.Success? ==> r'.value == r.value
    ensures r.Failure? ==> r'.error == CellError(c, r.error)
  {
    match r
    case Success(v) => Success(v)
    case Failure(e) => Failure(CellError(c, e))
  }

  /** The `TransactionDto` initializer: cells bound to fields by position, initializers
      evaluated top to bottom, so the first conversion that throws (columns 0, 5, 57,
      59 in that order) aborts the row. */
  function MapRow(row: Row, now: Timestamp, zone: Timestamp -> Timestamp): (r: Result<TransactionDto, CellError>)
    ensures r.Success? ==> r.value.localDate == GetCell(row, 11)
    ensures r.Success? ==> r.value.localTime == ResolveLocalTime(GetCell(row, 10), now)
    ensures r.Success? ==> r.value.transmissionDateTime == ResolveTransmissionDate(GetCell(row, 6), now, zone)
    ensures r.Success? ==> InInt64(r.value.agentAccountId) && InInt64(r.value.id)
    ensures r.Failure? ==> r.error.column in {0, 5, 57, 59}
  {
    var agentAccountId :- AtColumn(ToInt64(GetCell(row, 0)), 0);
    var amt :- AtColumn(GetAmtInKobo(CellText(row, 5)), 5);
    var receiptPrinted :- AtColumn(ToBoolean(GetCell(row, 57)), 57);
    var id :- AtColumn(ToInt64(GetCell(row, 59)), 59);
    Success(Assemble(CellTexts(row), GetCell(row, 11), ResolveTransmissionDate(GetCell(row, 6), now, zone),
                     ResolveLocalTime(GetCell(row, 10), now), agentAccountId, amt, receiptPrinted, id))
  }

  /** Each column's text with the empty-string default, as a function of the column. */
  function CellTexts(row: Row): nat -> string {
    (c: nat) => CellText(row, c)
  }

  /** The record a row becomes once its two dates are resolved and its four typed
      conversions have succeeded, given the text of each of its columns. */
  function Assemble(text: nat -> string, localDate: Option<string>, transmission: DateTime, timeString: string,
                    agentAccountId: int, amt: Decimal, receiptPrinted: bool, id: int): (r: TransactionDto)
    ensures r.agentAccountId == agentAccountId && r.amt == amt && r.receiptPrinted == receiptPrinted && r.id == id
    ensures r.localDate == localDate && r.localTime == timeString && r.transmissionDateTime == transmission
  {
    TransactionDto(
      agentAccountId := agentAccountId,
      msgType := text(1),
      cardNo := text(2),
      procCode := text(3),
      balance := text(4),
      amt := amt,
      transmissionDateTime := transmission,
      transactionType := text(7),
      customerNum := text(8),
      stan := text(9),
      localTime := timeString,
      localDate := localDate,
      merchType := text(12),
      posEntryMode := text(13),
      cardSequenceNo := text(14),
      posConditionCode := text(15),
      posPinCaptureCode := text(16),
      surcharge := text(17),
      acqInstId := text(18),
      acquirerId := text(19),
      fwdInstId := text(20),
      retRefNo := text(21),
      track2 := text(22),
      serviceRestrictionCode := text(23),
      terminalId := text(24),
      merchantName := text(25),
      merchantLoc := text(26),
      merchantAddress := text(27),
      merchantExtId := text(28),
      statusCode := text(29),
      expDate := text(30),
      currencyCode := text(31),
      pinData := text(32),
      iccData := text(33),
      msgReasonCode := text(34),
      posDataCode := text(35),
      responseCode := text(36),
      authNum := text(37),
      reversed := text(38),
      completed := text(39),
      createdOn := text(40),
      maskedPan := text(41),
      cardHolderName := text(42),
      cardTypeName := text(43),
      accountType := text(44),
      authenticationMethod := text(45),
      notified := text(46),
      latency := text(47),
      totalSales := text(48),
      salesAmt := text(49),
      salesId := text(50),
      userName := text(51),
      responseMessage := text(52),
      posResponseCode := text(53),
      posResponseMessage := text(54),
      processorResponseCode := text(55),
      overallStatusCode := text(56),
      receiptPrinted := receiptPrinted,
      appChannel := text(58),
      id := id)
  }

  /** The assembled record holds each text column's text in that column's field. */
  lemma AssembleTextColumns(text: nat -> string, localDate: Option<string>, transmission: DateTime, timeString: string,
                            agentAccountId: int, amt: Decimal, receiptPrinted: bool, id: int)
    ensures var t := Assemble(text, localDate, transmission, timeString, agentAccountId, amt, receiptPrinted, id);
            forall c :: IsTextColumn(c) ==> TextField(t, c) == text(c)
  {
  }

  /** Every text column's field holds the cell's text verbatim, or "" when the cell is absent. */
  lemma MapRowTextColumns(row: Row, now: Timestamp, zone: Timestamp -> Timestamp)
    ensures MapRow(row, now, zone).Success? ==>
              forall c :: IsTextColumn(c) ==> TextField(MapRow(row, now, zone).value, c) == CellText(row, c)
  {
    MapRowOutcome(row, now, zone);
    if MapRow(row, now, zone).Success? {
      AssembleTextColumns(CellTexts(row), GetCell(row, 11), ResolveTransmissionDate(GetCell(row, 6), now, zone),
        ResolveLocalTime(GetCell(row, 10), now), ToInt64(GetCell(row, 0)).value, GetAmtInKobo(CellText(row, 5)).value,
        ToBoolean(GetCell(row, 57)).value, ToInt64(GetCell(row, 59)).value);
    }
  }

  /** The failed conversions of a row in the order the initializer runs them. */
  function ColumnErrors(row: Row): seq<CellError> {
    var account := ToInt64(GetCell(row, 0));
    var amount := GetAmtInKobo(CellText(row, 5));
    var printed := ToBoolean(GetCell(row, 57));
    var id := ToInt64(GetCell(row, 59));
    (if account.Failure? then [CellError(0, account.error)] else [])
    + (if amount.Failure? then [CellError(5, amount.error)] else [])
    + (if printed.Failure? then [CellError(57, printed.error)] else [])
    + (if id.Failure? then [CellError(59, id.error)] else [])
  }

  /** A row maps exactly when none of its four typed conversions throws; otherwise the
      row's error is the first conversion that throws, and on success the record holds
      the four converted values. */
  lemma MapRowOutcome(row: Row, now: Timestamp, zone: Timestamp -> Timestamp)
    ensures MapRow(row, now, zone).Failure? <==> |ColumnErrors(row)| > 0
    ensures MapRow(row, now, zone).Failure? ==> MapRow(row, now, zone).error == ColumnErrors(row)[0]
    ensures MapRow(row, now, zone).Success? ==>
              MapRow(row, now, zone).value
                == Assemble(CellTexts(row), GetCell(row, 11), ResolveTransmissionDate(GetCell(row, 6), now, zone),
                            ResolveLocalTime(GetCell(row, 10), now), ToInt64(GetCell(row, 0)).value,
                            GetAmtInKobo(CellText(row, 5)).value, ToBoolean(GetCell(row, 57)).value,
                            ToInt64(GetCell(row, 59)).value)
  {
  }

  /** Only cells 0 to 59 matter: two rows that agree on them, counting a cell past
      the row's end as absent, map alike. */
  lemma MapRowReadsSixtyColumns(row: Row, row': Row, now: Timestamp, zone: Timestamp -> Timestamp)
    requires forall c: nat :: c < 60 ==> GetCell(row, c) == GetCell(row', c)
    ensures MapRow(row, now, zone) == MapRow(row', now, zone)
  {
    assert GetCell(row, 0) == GetCell(row', 0) && GetCell(row, 5) == GetCell(row', 5);
    assert GetCell(row, 57) == GetCell(row', 57) && GetCell(row, 59) == GetCell(row', 59);
    assert GetCell(row, 6) == GetCell(row', 6) && GetCell(row, 10) == GetCell(row', 10);
    assert GetCell(row, 11) == GetCell(row', 11);
    AssembleReadsSixtyColumns(CellTexts(row), CellTexts(row'));
  }

  /** The record reads only the text of columns below 60. */
  lemma AssembleReadsSixtyColumns(text: nat -> string, text': nat -> string)
    requires forall c: nat :: c < 60 ==> text(c) == text'(c)
    ensures forall localDate, transmission, timeString, agentAccountId, amt, receiptPrinted, id ::
              Assemble(text, localDate, transmission, timeString, agentAccountId, amt, receiptPrinted, id)
              == Assemble(text', localDate, transmission, timeString, agentAccountId, amt, receiptPrinted, id)
  {
  }

  /** A row without cells 0, 5, 57 and 59 still maps: the null strings convert to 0,
      0 and false and the empty amount text to 0. */
  lemma MapRowAbsentTypedCells(row: Row, now: Timestamp, zone: Timestamp -> Timestamp)
    requires GetCell(row, 0).None? && GetCell(row, 5).None? && GetCell(row, 57).None? && GetCell(row, 59).None?
    ensures MapRow(row, now, zone).Success?
    ensures var t := MapRow(row, now, zone).value;
            t.agentAccountId == 0 && t.amt == Decimal(0, 0) && !t.receiptPrinted && t.id == 0
  {
    MapRowOutcome(row, now, zone);
  }

  /** The typed fields hold the conversions of their cells: `Convert.ToInt64` of cells 0
      and 59, `GetAmtInKobo` of cell 5's text, `Convert.ToBoolean` of cell 57. */
  lemma MapRowTypedFields(row: Row, now: Timestamp, zone: Timestamp -> Timestamp)
    ensures MapRow(row, now, zone).Success? ==>
            var t := MapRow(row, now, zone).value;
            && ToInt64(GetCell(row, 0)) == Success(t.agentAccountId)
            && GetAmtInKobo(CellText(row, 5)) == Success(t.amt)
            && ToBoolean(GetCell(row, 57)) == Success(t.receiptPrinted)
            && ToInt64(GetCell(row, 59)) == Success(t.id)
  {
    MapRowOutcome(row, now, zone);
  }
}
