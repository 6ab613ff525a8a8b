/** What the clients of `DefaultXrpClient` and `ReliableSubmissionXrpClient` do, as functions of the environment. */
module Submission {
  import opened Wrappers
  import opened Words
  import opened Proto
  import opened Ledger
  import opened Rpc
  import HexCodec
  import Memos

  datatype TransactionStatus = FAILED | PENDING | SUCCEEDED | UNKNOWN

  /** The fields of a response that the protocol reads. */
  datatype RawTransactionStatus =
    RawTransactionStatus(validated: bool, transactionStatusCode: string, lastLedgerSequence: Int32)

  datatype TransactionResult = TransactionResult(hash: Transaction, status: TransactionStatus, validated: bool)

  /** A wallet: what decoding its X-address gives, `None` being the decoder's null, and its public key in hex. */
  datatype Wallet = Wallet(classicAddress: Option<string>, publicKey: HexCodec.AsciiText)

  datatype SendXrpDetails = SendXrpDetails(
    amount: int, destination: string, destinationIsXAddress: bool, sender: Wallet,
    memosList: Option<seq<Memos.XrpMemo>>)

  const MAX_LEDGER_VERSION_OFFSET := 10
  const ASF_DEPOSIT_AUTH: Uint32 := 9

  // ---- DefaultXrpClient ----

  function RawStatus(r: GetTransactionResponse): RawTransactionStatus {
    RawTransactionStatus(r.validated, r.result, AsInt32(r.transaction.lastLedgerSequence.GetOr(0)))
  }

  function GetRawTransactionStatus(e: Env, hash: Transaction): Ran<RawTransactionStatus> {
    var r := GetTransaction(e, hash);
    match r.result
    case Err(f) => Ran(r.env, Err(f))
    case Ok(response) => Ran(r.env, Ok(RawStatus(response)))
  }

  function StatusOf(raw: RawTransactionStatus): TransactionStatus {
    if !raw.validated then PENDING
    else if "tes" <= raw.transactionStatusCode then SUCCEEDED
    else FAILED
  }

  function GetPaymentStatus(e: Env, hash: Transaction): Ran<TransactionStatus> {
    var r := GetRawTransactionStatus(e, hash);
    match r.result
    case Err(f) => Ran(r.env, Err(f))
    case Ok(raw) => Ran(r.env, Ok(StatusOf(raw)))
  }

  function GetLatestValidatedLedgerSequence(e: Env): Ran<Int32> {
    var r := GetAccountInfo(e);
    match r.result
    case Err(f) => Ran(r.env, Err(f))
    case Ok(info) => Ran(r.env, Ok(AsInt32(info.ledgerIndex)))
  }

  function GetOpenLedgerSequence(e: Env): Ran<Int32> {
    var r := GetFee(e);
    match r.result
    case Err(f) => Ran(r.env, Err(f))
    case Ok(fee) => Ran(r.env, Ok(AsInt32(fee.ledgerCurrentIndex)))
  }

  /** `openLedgerSequence + MAX_LEDGER_VERSION_OFFSET` in `int`, as stored on the wire. */
  function LastLedgerFor(openLedgerSequence: Int32): Uint32 {
    AsUint32(WrapInt32(openLedgerSequence + MAX_LEDGER_VERSION_OFFSET))
  }

  /** Fee, account data and open ledger are read one after the other, then the key is decoded; the caller sets the data. */
  function PrepareBaseTransaction(e: Env, wallet: Wallet): Ran<Transaction> {
    var fee := GetFee(e);
    if fee.result.Err? then Ran(fee.env, Err(fee.result.error))
    else if wallet.classicAddress.None? then Ran(fee.env, Err(NullPointer))
    else
      var info := GetAccountInfo(fee.env);
      if info.result.Err? then Ran(info.env, Err(info.result.error))
      else
        var open := GetOpenLedgerSequence(info.env);
        if open.result.Err? then Ran(open.env, Err(open.result.error))
        else
          match HexCodec.BytesOfHex(wallet.publicKey)
          case None => Ran(open.env, Err(StringIndexOutOfBounds))
          case Some(key) =>
            Ran(open.env, Ok(Transaction(wallet.classicAddress.value, fee.result.value.minimumFee,
              info.result.value.sequence, Some(LastLedgerFor(open.result.value)), key, None, [], OtherData)))
  }

  /** A base transaction with its data and memos, signed and submitted. */
  function PrepareAndSubmit(e: Env, wallet: Wallet, data: TransactionData, memos: seq<Memo>): Ran<Transaction> {
    var base := PrepareBaseTransaction(e, wallet);
    if base.result.Err? then base
    else Submit(base.env, base.result.value.(data := data, memos := memos))
  }

  function PaymentFor(details: SendXrpDetails): Payment {
    Payment(XrpAmount(LongValue(details.amount)), Some(details.destination), None, None, None)
  }

  function SendWithDetails(e: Env, details: SendXrpDetails): Ran<Transaction> {
    if !details.destinationIsXAddress then Ran(e, Err(XAddressRequired))
    else
      PrepareAndSubmit(e, details.sender, PaymentData(PaymentFor(details)), Memos.WireMemos(details.memosList))
  }

  function EnableDepositAuth(e: Env, wallet: Wallet): Ran<TransactionResult> {
    var sent := PrepareAndSubmit(e, wallet, AccountSetData(ASF_DEPOSIT_AUTH), []);
    if sent.result.Err? then Ran(sent.env, Err(sent.result.error))
    else
      var status := GetPaymentStatus(sent.env, sent.result.value);
      if status.result.Err? then Ran(status.env, Err(status.result.error))
      else
        var raw := GetRawTransactionStatus(status.env, sent.result.value);
        if raw.result.Err? then Ran(raw.env, Err(raw.result.error))
        else Ran(raw.env, Ok(TransactionResult(sent.result.value, status.result.value, raw.result.value.validated)))
  }

  // ---- ReliableSubmissionXrpClient ----

  /** One evaluation of the poll: the ledger index first, then the status; `None` is null. */
  function Poll(e: Env, hash: Transaction, lastLedgerSequence: Int32): Ran<Option<RawTransactionStatus>> {
    var latest := GetLatestValidatedLedgerSequence(e);
    if latest.result.Err? then Ran(latest.env, Err(latest.result.error))
    else
      var status := GetRawTransactionStatus(latest.env, hash);
      if status.result.Err? then Ran(status.env, Err(status.result.error))
      else if latest.result.value > lastLedgerSequence || status.result.value.validated
      then Ran(status.env, Ok(Some(status.result.value)))
      else Ran(status.env, Ok(None))
  }

  /** `until(poll, notNullValue())` with a budget of polls. */
  function PollUntil(e: Env, hash: Transaction, lastLedgerSequence: Int32, polls: nat): Ran<RawTransactionStatus>
    decreases polls
  {
    if polls == 0 then Ran(e, Err(TimedOut))
    else
      var p := Poll(e, hash, lastLedgerSequence);
      match p.result
      case Err(f) => Ran(p.env, Err(f))
      case Ok(Some(status)) => Ran(p.env, Ok(status))
      case Ok(None) => PollUntil(p.env, hash, lastLedgerSequence, polls - 1)
  }

  /** The first wait: a status is never null, so one poll decides it. */
  function InitialStatus(e: Env, hash: Transaction, polls: nat): Ran<RawTransactionStatus> {
    if polls == 0 then Ran(e, Err(TimedOut)) else GetRawTransactionStatus(e, hash)
  }

  /** How many polls each of the two waits has time for. */
  datatype Budget = Budget(initial: nat, final: nat)

  function AwaitFinalTransactionResult(e: Env, hash: Transaction, sender: Wallet, budget: Budget)
    : Ran<RawTransactionStatus>
  {
    var initial := InitialStatus(e, hash, budget.initial);
    if initial.result.Err? then initial
    else if initial.result.value.lastLedgerSequence == 0 then Ran(initial.env, Err(NoLastLedgerSequence))
    else if sender.classicAddress.None? then Ran(initial.env, Err(UndecodableAddress))
    else PollUntil(initial.env, hash, initial.result.value.lastLedgerSequence, budget.final)
  }

  function SendReliably(e: Env, details: SendXrpDetails, budget: Budget): Ran<Transaction> {
    var sent := SendWithDetails(e, details);
    if sent.result.Err? then sent
    else
      var final := AwaitFinalTransactionResult(sent.env, sent.result.value, details.sender, budget);
      if final.result.Err? then Ran(final.env, Err(final.result.error))
      else Ran(final.env, Ok(sent.result.value))
  }

  function EnableDepositAuthReliably(e: Env, wallet: Wallet, budget: Budget): Ran<TransactionResult> {
    var initial := EnableDepositAuth(e, wallet);
    if initial.result.Err? then initial
    else
      var hash := initial.result.value.hash;
      var final := AwaitFinalTransactionResult(initial.env, hash, wallet, budget);
      if final.result.Err? then Ran(final.env, Err(final.result.error))
      else
        var status := GetPaymentStatus(final.env, hash);
        if status.result.Err? then Ran(status.env, Err(status.result.error))
        else Ran(status.env, Ok(TransactionResult(hash, status.result.value, final.result.value.validated)))
  }
}
