/** The protobuf messages the client exchanges with a node; an unset message field is `None`. */
module Proto {
  import opened Wrappers
  import opened Words
  import HexCodec

  type Bytes = HexCodec.Bytes

  datatype CurrencyAmount =
    | NoAmount
    | XrpAmount(drops: Int64)
    | IssuedAmount(currency: string, value: string, issuer: string)

  datatype Memo = Memo(data: Option<Bytes>, format: Option<Bytes>, kind: Option<Bytes>)

  datatype Payment = Payment(
    amount: CurrencyAmount,
    destination: Option<string>,
    destinationTag: Option<Uint32>,
    deliverMin: Option<CurrencyAmount>,
    sendMax: Option<CurrencyAmount>)

  datatype TransactionData = PaymentData(payment: Payment) | AccountSetData(setFlag: Uint32) | OtherData

  datatype Transaction = Transaction(
    account: string,
    fee: Int64,
    sequence: Uint32,
    lastLedgerSequence: Option<Uint32>,
    signingPublicKey: Bytes,
    sourceTag: Option<Uint32>,
    memos: seq<Memo>,
    data: TransactionData)

  datatype GetTransactionResponse = GetTransactionResponse(
    transaction: Transaction,
    validated: bool,
    result: string,
    deliveredAmount: Option<CurrencyAmount>,
    date: Option<Uint32>,
    ledgerIndex: Uint32)
}
