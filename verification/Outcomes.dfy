/** How the wait and the calls built on it end: with which answer or which error, exactly when. */
module Outcomes {
  import opened Wrappers
  import opened Words
  import opened Proto
  import opened Ledger
  import opened Rpc
  import opened Submission
  import opened Finality
  import opened Sending
  import opened DepositAuth
  import opened BoundedPolling

  // ---- The loop ----

  /** Poll `k` is reached and fails. */
  predicate FailsAt(e: Env, tx: Transaction, last: Int32, k: nat) {
    NullBefore(e, tx, last, k) && PollAt(e, tx, last, k).Err?
  }

  /** Poll `k` is reached and answers a status. */
  predicate AnswersAt(e: Env, tx: Transaction, last: Int32, k: nat) {
    NullBefore(e, tx, last, k) && PollAt(e, tx, last, k).Ok? && PollAt(e, tx, last, k).value.Some?
  }

  /** The three ways the loop ends: all polls are null, or the first that is not fails, or it answers. */
  lemma LoopOutcome(e: Env, tx: Transaction, last: Int32, polls: nat)
    ensures var r := PollUntil(e, tx, last, polls);
      && (r.result == Err(TimedOut) <==> NullBefore(e, tx, last, polls))
      && (r.result == Err(RpcFailure) <==> exists k: nat :: k < polls && FailsAt(e, tx, last, k))
      && (r.result.Ok? <==> exists k: nat :: k < polls && AnswersAt(e, tx, last, k))
      && (r.result.Err? ==> r.result.error in {TimedOut, RpcFailure})
      && (forall k: nat :: k < polls && AnswersAt(e, tx, last, k) ==>
            r == Ran(After(e, 2 * k + 2), Ok(PollAt(e, tx, last, k).value.value)))
  {
    hide PollUntil, PollAt, After;
    TimesOutExactly(e, tx, last, polls);
    PollUntilMoves(e, tx, last, polls);
    forall k: nat | k < polls && (FailsAt(e, tx, last, k) || AnswersAt(e, tx, last, k))
      ensures var r := PollUntil(e, tx, last, polls);
        if FailsAt(e, tx, last, k) then r.result == Err(RpcFailure)
        else r == Ran(After(e, 2 * k + 2), Ok(PollAt(e, tx, last, k).value.value))
    {
      StopsAtFirstAnswer(e, tx, last, polls, k);
      PollErrors(e, tx, last, k);
      AnsweringPoll(e, tx, last, k);
    }
    if !NullBefore(e, tx, last, polls) {
      var j: nat :| j < polls && PollAt(e, tx, last, j) != Ok(None);
      var k := FirstAnswer(e, tx, last, j);
      assert FailsAt(e, tx, last, k) || AnswersAt(e, tx, last, k);
    }
  }

  lemma AnsweringPoll(e: Env, tx: Transaction, last: Int32, k: nat)
    ensures PollAt(e, tx, last, k).Ok? ==> Poll(After(e, 2 * k), tx, last).env == After(e, 2 * k + 2)
  {
    PollEndsExactly(After(e, 2 * k), tx, last);
    AfterStep(e, 2 * k);
    AfterStep(e, 2 * k + 1);
  }

  // ---- The wait ----

  /** The first status is answered, the last ledger does not read as absent, and the sender decodes. */
  predicate LoopIsReached(e: Env, tx: Transaction, sender: Wallet, budget: Budget) {
    budget.initial > 0 && IsAnswered(e, tx) && LastLedgerInt(tx) != 0 && sender.classicAddress.Some?
  }

  predicate WaitTimesOut(e: Env, tx: Transaction, sender: Wallet, budget: Budget) {
    budget.initial == 0
    || (LoopIsReached(e, tx, sender, budget) && NullBefore(Arrive(e), tx, LastLedgerInt(tx), budget.final))
  }

  ghost predicate WaitFails(e: Env, tx: Transaction, sender: Wallet, budget: Budget) {
    budget.initial > 0
    && (!IsAnswered(e, tx)
        || (LoopIsReached(e, tx, sender, budget)
            && exists k: nat :: k < budget.final && FailsAt(Arrive(e), tx, LastLedgerInt(tx), k)))
  }

  ghost predicate WaitAnswers(e: Env, tx: Transaction, sender: Wallet, budget: Budget) {
    LoopIsReached(e, tx, sender, budget)
    && exists k: nat :: k < budget.final && AnswersAt(Arrive(e), tx, LastLedgerInt(tx), k)
  }

  /** The node's status is read, but the last ledger reads as absent. */
  predicate WaitLacksLastLedger(e: Env, tx: Transaction, budget: Budget) {
    budget.initial > 0 && IsAnswered(e, tx) && LastLedgerInt(tx) == 0
  }

  /** A wait that started at `e` may end in `r`, and in nothing else. */
  ghost predicate EndsAs(
    e: Env, tx: Transaction, sender: Wallet, budget: Budget, r: Result<RawTransactionStatus, Failure>)
  {
    && (r == Err(TimedOut) <==> WaitTimesOut(e, tx, sender, budget))
    && (r == Err(RpcFailure) <==> WaitFails(e, tx, sender, budget))
    && (r == Err(NoLastLedgerSequence) <==> WaitLacksLastLedger(e, tx, budget))
    && (r == Err(UndecodableAddress) <==>
          budget.initial > 0 && IsAnswered(e, tx) && LastLedgerInt(tx) != 0 && sender.classicAddress.None?)
    && (r.Err? ==> r.error in {TimedOut, RpcFailure, NoLastLedgerSequence, UndecodableAddress})
    && (r.Ok? <==> WaitAnswers(e, tx, sender, budget))
    && (forall k: nat :: k < budget.final && AnswersAt(Arrive(e), tx, LastLedgerInt(tx), k) && r.Ok? ==>
          r == Ok(PollAt(Arrive(e), tx, LastLedgerInt(tx), k).value.value))
  }

  /**
   * How the wait ends. Its timeouts are the two waits' own, an RPC error is the first read's or
   * that of the first poll that is not null, and what it answers is the status of the first poll
   * that answers one.
   */
  lemma WaitOutcome(e: Env, tx: Transaction, sender: Wallet, budget: Budget)
    ensures var r, last := AwaitFinalTransactionResult(e, tx, sender, budget), LastLedgerInt(tx);
      && EndsAs(e, tx, sender, budget, r.result)
      && (r.result.Ok? ==> IsTrueStatus(r.env.node, tx, r.result.value))
      && (forall k: nat :: k < budget.final && AnswersAt(Arrive(e), tx, last, k) && r.result.Ok? ==>
            r.env == After(Arrive(e), 2 * k + 2))
  {
    hide PollUntil, FailsAt, AnswersAt, PollAt, After, IsTrueStatus, NullBefore;
    assert LastLedgerInt(tx) == AsInt32(tx.lastLedgerSequence.GetOr(0));
    FirstStatus(e, tx);
    LoopOutcome(Arrive(e), tx, LastLedgerInt(tx), budget.final);
    AwaitMoves(e, tx, sender, budget);
  }

  lemma FirstStatus(e: Env, tx: Transaction)
    ensures var r := GetRawTransactionStatus(e, tx);
      && r.env == Arrive(e) && (r.result.Ok? <==> IsAnswered(e, tx))
      && (r.result.Ok? ==> r.result.value.lastLedgerSequence == LastLedgerInt(tx))
      && (r.result.Err? ==> r.result.error == RpcFailure)
  {
    RawStatusIsTrue(e, tx);
  }

  // ---- Whole calls ----

  /** How a reliable send ends: as its submission if that fails, else as its wait, and then with the submission's hash. */
  lemma SendOutcome(e: Env, details: SendXrpDetails, budget: Budget)
    ensures var sent, r := SendWithDetails(e, details), SendReliably(e, details, budget);
      && (sent.result.Err? ==> r == sent)
      && (r.result.Ok? ==> r.result == sent.result)
      && (sent.result.Ok? ==>
            var tx, sender := sent.result.value, details.sender;
            && (r.result.Ok? <==> WaitAnswers(sent.env, tx, sender, budget))
            && (r.result == Err(TimedOut) <==> WaitTimesOut(sent.env, tx, sender, budget))
            && (r.result == Err(RpcFailure) <==> WaitFails(sent.env, tx, sender, budget))
            && (r.result == Err(NoLastLedgerSequence) <==> WaitLacksLastLedger(sent.env, tx, budget))
            && (r.result.Err? ==> r.result.error in {TimedOut, RpcFailure, NoLastLedgerSequence})
            && r.env == AwaitFinalTransactionResult(sent.env, tx, sender, budget).env)
  {
    hide SendWithDetails, AwaitFinalTransactionResult, WaitTimesOut, WaitFails, WaitAnswers;
    SentTransaction(e, details);
    var sent := SendWithDetails(e, details);
    if sent.result.Ok? { WaitOutcome(sent.env, sent.result.value, details.sender, budget); }
  }

  /**
   * How the reliable `enableDepositAuth` ends: with a result exactly when the inner call, the wait
   * and the last read are answered. The result has the inner call's hash, the status of the last
   * read, and whether the wait's status was validated.
   */
  lemma EnableOutcome(e: Env, wallet: Wallet, budget: Budget)
    ensures var inner, r := EnableDepositAuth(e, wallet), EnableDepositAuthReliably(e, wallet, budget);
      && (inner.result.Err? ==> r == inner)
      && (inner.result.Ok? ==>
            var tx := inner.result.value.hash;
            var final := AwaitFinalTransactionResult(inner.env, tx, wallet, budget);
            && (r.result.Ok? <==> WaitAnswers(inner.env, tx, wallet, budget) && IsAnswered(final.env, tx))
            && (r.result == Err(TimedOut) <==> WaitTimesOut(inner.env, tx, wallet, budget))
            && (r.result == Err(RpcFailure) <==>
                  || WaitFails(inner.env, tx, wallet, budget)
                  || (WaitAnswers(inner.env, tx, wallet, budget) && !IsAnswered(final.env, tx)))
            && (r.result == Err(NoLastLedgerSequence) <==> WaitLacksLastLedger(inner.env, tx, budget))
            && (r.result.Err? ==> r.result.error in {TimedOut, RpcFailure, NoLastLedgerSequence})
            && (r.result.Ok? ==>
                  && r.env == Arrive(final.env) && r.result.value.hash == tx
                  && r.result.value.status == LedgerStatus(r.env.node, tx)
                  && (r.result.value.validated <==> InclusionOf(final.env.node, tx).Some?)))
  {
    hide EnableDepositAuth, AwaitFinalTransactionResult, WaitTimesOut, WaitFails, WaitAnswers;
    InnerOutcome(e, wallet);
    SubmittedTransaction(e, wallet, AccountSetData(ASF_DEPOSIT_AUTH), []);
    var inner := EnableDepositAuth(e, wallet);
    if inner.result.Ok? {
      var tx := inner.result.value.hash;
      WaitOutcome(inner.env, tx, wallet, budget);
      RawStatusIsTrue(AwaitFinalTransactionResult(inner.env, tx, wallet, budget).env, tx);
    }
  }
}
