/** The record each spreadsheet row becomes and the layout that binds its fields
    to column positions. */
module Transaction {
  import opened Wrappers
  import opened Conversions
  import opened Dates

  /** `TransactionDto`, field for field in declaration order. `ExpDate` is declared
      `object` but only ever holds a string; `LocalDate` is the one text field that
      may be null. */
  datatype TransactionDto = TransactionDto(
    id: int,
    agentAccountId: int,
    msgType: string,
    cardNo: string,
    procCode: string,
    balance: string,
    amt: Decimal,
    transmissionDateTime: DateTime,
    transactionType: string,
    customerNum: string,
    stan: string,
    localTime: string,
    localDate: Option<string>,
    merchType: string,
    posEntryMode: string,
    cardSequenceNo: string,
    posConditionCode: string,
    posPinCaptureCode: string,
    surcharge: string,
    acqInstId: string,
    acquirerId: string,
    fwdInstId: string,
    retRefNo: string,
    track2: string,
    serviceRestrictionCode: string,
    terminalId: string,
    merchantName: string,
    merchantLoc: string,
    merchantAddress: string,
    merchantExtId: string,
    statusCode: string,
    expDate: string,
    currencyCode: string,
    pinData: string,
    iccData: string,
    msgReasonCode: string,
    posDataCode: string,
    responseCode: string,
    authNum: string,
    reversed: string,
    completed: string,
    createdOn: string,
    maskedPan: string,
    cardHolderName: string,
    cardTypeName: string,
    accountType: string,
    authenticationMethod: string,
    notified: string,
    latency: string,
    totalSales: string,
    salesAmt: string,
    salesId: string,
    userName: string,
    responseMessage: string,
    posResponseCode: string,
    posResponseMessage: string,
    processorResponseCode: string,
    overallStatusCode: string,
    receiptPrinted: bool,
    appChannel: string)

  /** The columns copied as text with an empty-string default:
      1-4, 7-9, 12-56 and 58. */
  predicate IsTextColumn(c: int) {
    1 <= c <= 4 || 7 <= c <= 9 || 12 <= c <= 56 || c == 58
  }

  /** The field that text column `c` fills, by position in the row layout. */
  function TextField(r: TransactionDto, c: int): string
    requires IsTextColumn(c)
  {
    match c
    case 1 => r.msgType
    case 2 => r.cardNo
    case 3 => r.procCode
    case 4 => r.balance
    case 7 => r.transactionType
    case 8 => r.customerNum
    case 9 => r.stan
    case 12 => r.merchType
    case 13 => r.posEntryMode
    case 14 => r.cardSequenceNo
    case 15 => r.posConditionCode
    case 16 => r.posPinCaptureCode
    case 17 => r.surcharge
    case 18 => r.acqInstId
    case 19 => r.acquirerId
    case 20 => r.fwdInstId
    case 21 => r.retRefNo
    case 22 => r.track2
    case 23 => r.serviceRestrictionCode
    case 24 => r.terminalId
    case 25 => r.merchantName
    case 26 => r.merchantLoc
    case 27 => r.merchantAddress
    case 28 => r.merchantExtId
    case 29 => r.statusCode
    case 30 => r.expDate
    case 31 => r.currencyCode
    case 32 => r.pinData
    case 33 => r.iccData
    case 34 => r.msgReasonCode
    case 35 => r.posDataCode
    case 36 => r.responseCode
    case 37 => r.authNum
    case 38 => r.reversed
    case 39 => r.completed
    case 40 => r.createdOn
    case 41 => r.maskedPan
    case 42 => r.cardHolderName
    case 43 => r.cardTypeName
    case 44 => r.accountType
    case 45 => r.authenticationMethod
    case 46 => r.notified
    case 47 => r.latency
    case 48 => r.totalSales
    case 49 => r.salesAmt
    case 50 => r.salesId
    case 51 => r.userName
    case 52 => r.responseMessage
    case 53 => r.posResponseCode
    case 54 => r.posResponseMessage
    case 55 => r.processorResponseCode
    case 56 => r.overallStatusCode
    case 58 => r.appChannel
  }
}
