/** The two clients as objects over one stub. */
module Clients {
  import opened Wrappers
  import opened Words
  import opened Proto
  import opened Ledger
  import opened Rpc
  import opened Finality
  import opened Sending
  import opened DepositAuth
  import opened Outcomes
  import HexCodec
  import S = Submission

  /** The blocking gRPC stub: every call lets the node move on, then answers. */
  class Stub {
    var env: Env

    constructor (env: Env)
      ensures this.env == env
    {
      this.env := env;
    }

    method GetTransaction(hash: Transaction) returns (r: Result<GetTransactionResponse, Failure>)
      modifies this
      ensures Ran(env, r) == Rpc.GetTransaction(old(env), hash)
    {
      var ran := Rpc.GetTransaction(env, hash);
      env, r := ran.env, ran.result;
    }

    method GetAccountInfo() returns (r: Result<AccountInfo, Failure>)
      modifies this
      ensures Ran(env, r) == Rpc.GetAccountInfo(old(env))
    {
      var ran := Rpc.GetAccountInfo(env);
      env, r := ran.env, ran.result;
    }

    method GetFee() returns (r: Result<FeeInfo, Failure>)
      modifies this
      ensures Ran(env, r) == Rpc.GetFee(old(env))
    {
      var ran := Rpc.GetFee(env);
      env, r := ran.env, ran.result;
    }

    method SubmitTransaction(tx: Transaction) returns (r: Result<Transaction, Failure>)
      modifies this
      ensures Ran(env, r) == Rpc.Submit(old(env), tx)
    {
      var ran := Rpc.Submit(env, tx);
      env, r := ran.env, ran.result;
    }
  }

  class DefaultXrpClient {
    const stub: Stub

    constructor (stub: Stub)
      ensures this.stub == stub
    {
      this.stub := stub;
    }

    /** What the ledgers say of the transaction when the node answers. */
    method GetRawTransactionStatus(hash: Transaction) returns (r: Result<S.RawTransactionStatus, Failure>)
      modifies stub
      ensures Ran(stub.env, r) == S.GetRawTransactionStatus(old(stub.env), hash)
      ensures stub.env == Arrive(old(stub.env))
      ensures r.Ok? <==> IsAnswered(old(stub.env), hash)
      ensures r.Ok? ==> IsTrueStatus(stub.env.node, hash, r.value)
      ensures r.Err? ==> r.error == RpcFailure
    {
      RawStatusIsTrue(stub.env, hash);
      var response := stub.GetTransaction(hash);
      if response.Err? {
        return Err(response.error);
      }
      return Ok(S.RawStatus(response.value));
    }

    /** SUCCEEDED, FAILED or PENDING by the ledgers of the moment, never UNKNOWN. */
    method GetPaymentStatus(hash: Transaction) returns (r: Result<S.TransactionStatus, Failure>)
      modifies stub
      ensures Ran(stub.env, r) == S.GetPaymentStatus(old(stub.env), hash)
      ensures stub.env == Arrive(old(stub.env))
      ensures r.Ok? <==> IsAnswered(old(stub.env), hash)
      ensures r.Ok? ==> r.value == LedgerStatus(stub.env.node, hash)
      ensures r.Err? ==> r.error == RpcFailure
    {
      var raw := GetRawTransactionStatus(hash);
      if raw.Err? {
        return Err(raw.error);
      }
      if !raw.value.validated {
        return Ok(S.PENDING);
      }
      return Ok(if "tes" <= raw.value.transactionStatusCode then S.SUCCEEDED else S.FAILED);
    }

    method GetLatestValidatedLedgerSequence() returns (r: Result<Int32, Failure>)
      modifies stub
      ensures Ran(stub.env, r) == S.GetLatestValidatedLedgerSequence(old(stub.env))
      ensures r == if NextTick(old(stub.env)).fails then Err(RpcFailure) else Ok(AsInt32(stub.env.node.validated))
    {
      var info := stub.GetAccountInfo();
      if info.Err? {
        return Err(info.error);
      }
      return Ok(AsInt32(info.value.ledgerIndex));
    }

    method GetOpenLedgerSequence() returns (r: Result<Int32, Failure>)
      modifies stub
      ensures Ran(stub.env, r) == S.GetOpenLedgerSequence(old(stub.env))
      ensures r == if NextTick(old(stub.env)).fails then Err(RpcFailure) else Ok(AsInt32(stub.env.node.open))
    {
      var fee := stub.GetFee();
      if fee.Err? {
        return Err(fee.error);
      }
      return Ok(AsInt32(fee.value.ledgerCurrentIndex));
    }

    /** A transaction of the wallet's account and key that may enter ledgers up to ten past the open one. */
    method PrepareBaseTransaction(wallet: S.Wallet) returns (r: Result<Transaction, Failure>)
      modifies stub
      ensures Ran(stub.env, r) == S.PrepareBaseTransaction(old(stub.env), wallet)
      ensures r.Ok? <==> CanSign(wallet) && ReadsAreAnswered(old(stub.env))
      ensures r.Ok? ==>
        && r.value.lastLedgerSequence == Some((stub.env.node.open + 10) % TWO_32)
        && IsPrepared(old(stub.env), wallet, r.value) && r.value.memos == [] && r.value.data == OtherData
      ensures r == Err(NullPointer) <==> wallet.classicAddress.None? && !NextTick(old(stub.env)).fails
      ensures r.Err? ==> r.error in {RpcFailure, NullPointer, StringIndexOutOfBounds}
      ensures r.Err? && r.error != RpcFailure ==> !CanSign(wallet)
    {
      BaseTransaction(stub.env, wallet);
      var fee := stub.GetFee();
      if fee.Err? {
        return Err(fee.error);
      }
      if wallet.classicAddress.None? {
        return Err(NullPointer);
      }
      var info := stub.GetAccountInfo();
      if info.Err? {
        return Err(info.error);
      }
      var open := GetOpenLedgerSequence();
      if open.Err? {
        return Err(open.error);
      }
      var key := HexCodec.HexStringToByteArray(wallet.publicKey);
      if key.None? {
        return Err(StringIndexOutOfBounds);
      }
      var last := WrapInt32(open.value + S.MAX_LEDGER_VERSION_OFFSET);
      return Ok(Transaction(wallet.classicAddress.value, fee.value.minimumFee, info.value.sequence,
        Some(AsUint32(last)), key.value[..], None, [], OtherData));
    }

    /** Leaves the payment that was asked for, with all its memos, on the node. */
    method SendWithDetails(details: S.SendXrpDetails) returns (r: Result<Transaction, Failure>)
      modifies stub
      ensures Ran(stub.env, r) == S.SendWithDetails(old(stub.env), details)
      ensures r == Err(XAddressRequired) <==> !details.destinationIsXAddress
      ensures r.Ok? <==>
        && details.destinationIsXAddress && CanSign(details.sender)
        && ReadsAreAnswered(old(stub.env)) && !NextTick(AtOpenRead(old(stub.env))).fails
      ensures r.Ok? ==>
        && IsKnown(stub.env.node, r.value) && stub.env == Submitted(old(stub.env), r.value)
        && r.value.data == PaymentData(S.PaymentFor(details))
        && S.Memos.FromAll(r.value.memos) == details.memosList.GetOr([])
        && IsPrepared(old(stub.env), details.sender, r.value)
    {
      SentTransaction(stub.env, details);
      if !details.destinationIsXAddress {
        return Err(XAddressRequired);
      }
      var base := PrepareBaseTransaction(details.sender);
      if base.Err? {
        return base;
      }
      r := stub.SubmitTransaction(base.value.(
        data := PaymentData(S.PaymentFor(details)), memos := S.Memos.WireMemos(details.memosList)));
    }

    method EnableDepositAuth(wallet: S.Wallet) returns (r: Result<S.TransactionResult, Failure>)
      modifies stub
      ensures Ran(stub.env, r) == S.EnableDepositAuth(old(stub.env), wallet)
      ensures var sent := SubmitAccountSet(old(stub.env), wallet);
        r.Ok? <==>
          && sent.result.Ok?
          && IsAnswered(sent.env, sent.result.value) && IsAnswered(Arrive(sent.env), sent.result.value)
      ensures r.Ok? ==>
        && r.value.hash.data == AccountSetData(9) && r.value.hash.memos == []
        && IsPrepared(old(stub.env), wallet, r.value.hash)
        && stub.env == Arrive(Arrive(Submitted(old(stub.env), r.value.hash)))
        && (r.value.validated <==> InclusionOf(stub.env.node, r.value.hash).Some?)
        && (r.value.status != S.PENDING ==> r.value.validated)
        && r.value.status in {S.PENDING, LedgerStatus(stub.env.node, r.value.hash)}
    {
      InnerOutcome(stub.env, wallet);
      if S.EnableDepositAuth(stub.env, wallet).result.Ok? { InnerFieldsExactly(stub.env, wallet); }
      var base := PrepareBaseTransaction(wallet);
      if base.Err? {
        return Err(base.error);
      }
      var hash := stub.SubmitTransaction(base.value.(data := AccountSetData(S.ASF_DEPOSIT_AUTH)));
      if hash.Err? {
        return Err(hash.error);
      }
      var status := GetPaymentStatus(hash.value);
      if status.Err? {
        return Err(status.error);
      }
      var raw := GetRawTransactionStatus(hash.value);
      if raw.Err? {
        return Err(raw.error);
      }
      return Ok(S.TransactionResult(hash.value, status.value, raw.value.validated));
    }
  }

  class ReliableSubmissionXrpClient {
    const decoratedClient: DefaultXrpClient

    constructor (decoratedClient: DefaultXrpClient)
      ensures this.decoratedClient == decoratedClient
    {
      this.decoratedClient := decoratedClient;
    }

    /** Waits until the transaction is validated or its last ledger has passed. */
    method AwaitFinalTransactionResult(hash: Transaction, sender: S.Wallet, budget: S.Budget)
      returns (r: Result<S.RawTransactionStatus, Failure>)
      modifies decoratedClient.stub
      ensures Ran(decoratedClient.stub.env, r) ==
        S.AwaitFinalTransactionResult(old(decoratedClient.stub.env), hash, sender, budget)
      ensures EndsAs(old(decoratedClient.stub.env), hash, sender, budget, r)
      ensures r.Ok? ==> IsTrueStatus(decoratedClient.stub.env.node, hash, r.value)
      ensures r.Ok? && Valid(old(decoratedClient.stub.env.node)) && ComparesRight(old(decoratedClient.stub.env.node), hash) ==>
        IsFinal(decoratedClient.stub.env.node, hash, r.value)
    {
      hide EndsAs, IsTrueStatus, IsFinal, Valid, IsAnswered, ComparesRight, Rpc.GetTransaction, Rpc.GetAccountInfo;
      ghost var start := decoratedClient.stub.env;
      WaitOutcome(start, hash, sender, budget);
      if Valid(start.node) && ComparesRight(start.node, hash) {
        AwaitIsFinal(start, hash, sender, budget);
      }
      if budget.initial == 0 {
        return Err(TimedOut);
      }
      var initial := decoratedClient.GetRawTransactionStatus(hash);
      if initial.Err? {
        return initial;
      }
      var lastLedgerSequence := initial.value.lastLedgerSequence;
      if lastLedgerSequence == 0 {
        return Err(NoLastLedgerSequence);
      }
      if sender.classicAddress.None? {
        return Err(UndecodableAddress);
      }
      ghost var begun := decoratedClient.stub.env;
      var polls := budget.final;
      while polls > 0
        invariant S.PollUntil(begun, hash, lastLedgerSequence, budget.final) ==
          S.PollUntil(decoratedClient.stub.env, hash, lastLedgerSequence, polls)
      {
        var latest := decoratedClient.GetLatestValidatedLedgerSequence();
        if latest.Err? {
          return Err(latest.error);
        }
        var status := decoratedClient.GetRawTransactionStatus(hash);
        if status.Err? {
          return Err(status.error);
        }
        if latest.value > lastLedgerSequence || status.value.validated {
          return Ok(status.value);
        }
        polls := polls - 1;
      }
      return Err(TimedOut);
    }

    /** When it returns a hash, the payment's status is settled for good. */
    method SendWithDetails(details: S.SendXrpDetails, budget: S.Budget) returns (r: Result<Transaction, Failure>)
      modifies decoratedClient.stub
      ensures Ran(decoratedClient.stub.env, r) == S.SendReliably(old(decoratedClient.stub.env), details, budget)
      ensures var sent := S.SendWithDetails(old(decoratedClient.stub.env), details);
        if sent.result.Err? then r == sent.result
        else
          var tx, sender := sent.result.value, details.sender;
          && (r == Ok(tx) <==> WaitAnswers(sent.env, tx, sender, budget))
          && (r == Err(TimedOut) <==> WaitTimesOut(sent.env, tx, sender, budget))
          && (r == Err(RpcFailure) <==> WaitFails(sent.env, tx, sender, budget))
          && (r == Err(NoLastLedgerSequence) <==> WaitLacksLastLedger(sent.env, tx, budget))
          && (r.Err? ==> r.error in {TimedOut, RpcFailure, NoLastLedgerSequence})
      ensures Valid(old(decoratedClient.stub.env.node)) && r.Ok? ==>
        var submitted, n := S.SendWithDetails(old(decoratedClient.stub.env), details).env.node, decoratedClient.stub.env.node;
        ComparesRight(submitted, r.value) ==>
          && AlwaysAnswers(n, r.value, LedgerStatus(n, r.value))
          && (InclusionOf(n, r.value).None? ==> NeverIncluded(n, r.value))
    {
      SendOutcome(decoratedClient.stub.env, details, budget);
      if Valid(decoratedClient.stub.env.node) {
        SendIsIrreversible(decoratedClient.stub.env, details, budget);
      }
      var hash := decoratedClient.SendWithDetails(details);
      if hash.Err? {
        return hash;
      }
      var final := AwaitFinalTransactionResult(hash.value, details.sender, budget);
      if final.Err? {
        return Err(final.error);
      }
      return hash;
    }

    method EnableDepositAuth(wallet: S.Wallet, budget: S.Budget) returns (r: Result<S.TransactionResult, Failure>)
      modifies decoratedClient.stub
      ensures Ran(decoratedClient.stub.env, r) ==
        S.EnableDepositAuthReliably(old(decoratedClient.stub.env), wallet, budget)
      ensures var inner := S.EnableDepositAuth(old(decoratedClient.stub.env), wallet);
        if inner.result.Err? then r == inner.result
        else
          var tx := inner.result.value.hash;
          var final := S.AwaitFinalTransactionResult(inner.env, tx, wallet, budget).env;
          && (r.Ok? <==> WaitAnswers(inner.env, tx, wallet, budget) && IsAnswered(final, tx))
          && (r == Err(TimedOut) <==> WaitTimesOut(inner.env, tx, wallet, budget))
          && (r == Err(NoLastLedgerSequence) <==> WaitLacksLastLedger(inner.env, tx, budget))
          && (r.Err? ==> r.error in {TimedOut, RpcFailure, NoLastLedgerSequence})
          && (r.Ok? ==> r.value.hash == tx && (r.value.validated <==> InclusionOf(final.node, tx).Some?))
      ensures r.Ok? ==> r.value.status == LedgerStatus(decoratedClient.stub.env.node, r.value.hash)
      ensures r.Ok? && r.value.validated ==>
        r.value.status != S.PENDING && AlwaysAnswers(decoratedClient.stub.env.node, r.value.hash, r.value.status)
      ensures Valid(old(decoratedClient.stub.env.node)) && r.Ok? ==>
        var waited := S.EnableDepositAuth(old(decoratedClient.stub.env), wallet).env.node;
        ComparesRight(waited, r.value.hash) ==>
          && (r.value.status == S.PENDING <==> !r.value.validated)
          && AlwaysAnswers(decoratedClient.stub.env.node, r.value.hash, r.value.status)
    {
      EnableOutcome(decoratedClient.stub.env, wallet, budget);
      if S.EnableDepositAuthReliably(decoratedClient.stub.env, wallet, budget).result.Ok? {
        ReliableFieldsAgree(decoratedClient.stub.env, wallet, budget);
      }
      var initial := decoratedClient.EnableDepositAuth(wallet);
      if initial.Err? {
        return initial;
      }
      var final := AwaitFinalTransactionResult(initial.value.hash, wallet, budget);
      if final.Err? {
        return Err(final.error);
      }
      var status := decoratedClient.GetPaymentStatus(initial.value.hash);
      if status.Err? {
        return Err(status.error);
      }
      return Ok(S.TransactionResult(initial.value.hash, status.value, final.value.validated));
    }
  }
}
