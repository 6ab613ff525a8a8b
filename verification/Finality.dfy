/** What reliable submission guarantees, in every interleaving of ledger closings with client reads. */
module Finality {
  import opened Wrappers
  import opened Words
  import opened Proto
  import opened Ledger
  import opened Rpc
  import opened Submission

  /** What the validated ledgers say of a transaction. */
  function LedgerStatus(n: Node, tx: Transaction): TransactionStatus {
    match InclusionOf(n, tx)
    case None => PENDING
    case Some(i) => if "tes" <= i.result then SUCCEEDED else FAILED
  }

  /** Of the validated results, those that begin with tes are successes and all others failures. */
  lemma LedgerStatusSpelledOut(n: Node, tx: Transaction)
    ensures InclusionOf(n, tx).None? <==> LedgerStatus(n, tx) == PENDING
    ensures InclusionOf(n, tx).Some? ==>
      var code := InclusionOf(n, tx).value.result;
      LedgerStatus(n, tx) == if |code| >= 3 && code[0] == 't' && code[1] == 'e' && code[2] == 's' then SUCCEEDED else FAILED
  {
  }

  /** A raw status that no later move can contradict. */
  ghost predicate IsFinal(n: Node, tx: Transaction, raw: RawTransactionStatus) {
    if raw.validated
    then InclusionOf(n, tx).Some? && raw.transactionStatusCode == InclusionOf(n, tx).value.result
    else NeverIncluded(n, tx)
  }

  /** Whatever the node does next, `getPaymentStatus` gives this answer, or an RPC error when the call fails or the node has forgotten. */
  ghost predicate AlwaysAnswers(n: Node, tx: Transaction, answer: TransactionStatus) {
    forall m, script | IsLater(n, m) :: AnswersOrFails(Env(m, script), tx, answer)
  }

  predicate AnswersOrFails(e: Env, tx: Transaction, answer: TransactionStatus) {
    GetPaymentStatus(e, tx).result ==
      if NextTick(e).fails || !IsKnown(Arrive(e).node, tx) then Err(RpcFailure) else Ok(answer)
  }

  /**
   * Java compares ledger indices as signed numbers. The comparison is right while the last ledger
   * or the validated ledgers are on the right side of 2^31, and does not matter once included.
   */
  predicate ComparesRight(n: Node, tx: Transaction) {
    tx.lastLedgerSequence.Some?
    && (tx.lastLedgerSequence.value < TWO_31 || n.validated >= TWO_31 || InclusionOf(n, tx).Some?)
  }

  /** The node answers a status read for the transaction. */
  predicate IsAnswered(e: Env, tx: Transaction) { !NextTick(e).fails && IsKnown(Arrive(e).node, tx) }

  /**
   * A raw status as the node holds it: validated exactly when included, with the ledger's code
   * then and the provisional one before, and the last ledger as a signed number.
   */
  predicate IsTrueStatus(n: Node, tx: Transaction, raw: RawTransactionStatus) {
    && raw.lastLedgerSequence == LastLedgerInt(tx)
    && (raw.validated <==> InclusionOf(n, tx).Some?)
    && (raw.validated ==> raw.transactionStatusCode == InclusionOf(n, tx).value.result)
    && (!raw.validated ==> tx in n.records && raw.transactionStatusCode == n.records[tx].provisional)
  }

  function LastLedgerInt(tx: Transaction): Int32 { AsInt32(tx.lastLedgerSequence.GetOr(0)) }

  // ---- Single reads ----

  lemma LaterCompares(n: Node, m: Node, tx: Transaction)
    requires IsLater(n, m) && ComparesRight(n, tx)
    ensures ComparesRight(m, tx)
  {
    LaterKeeps(n, m);
    if InclusionOf(n, tx).Some? { LaterKeepsInclusion(n, m, tx); }
  }

  lemma LaterNever(n: Node, m: Node, tx: Transaction)
    requires IsLater(n, m) && NeverIncluded(n, tx)
    ensures NeverIncluded(m, tx) && InclusionOf(m, tx).None?
  {
    var moves :| m == Run(n, moves);
    forall events ensures InclusionOf(Run(m, events), tx).None? {
      RunAppend(n, moves, events);
    }
    assert Run(m, []) == m;
  }

  /** A status read is what the ledger of that moment says; it fails exactly with the RPC or for a transaction the node does not know. */
  lemma RawStatusIsTrue(e: Env, tx: Transaction)
    ensures var r := GetRawTransactionStatus(e, tx);
      && r.env == Arrive(e)
      && (r.result.Ok? <==> IsAnswered(e, tx))
      && (r.result.Err? ==> r.result.error == RpcFailure)
      && (r.result.Ok? ==>
            && IsTrueStatus(r.env.node, tx, r.result.value)
            && StatusOf(r.result.value) == LedgerStatus(r.env.node, tx))
  {
  }

  /** A final status fixes every later answer, and it is the ledger's own. */
  lemma FinalAnswersForever(n: Node, tx: Transaction, raw: RawTransactionStatus)
    requires IsFinal(n, tx, raw)
    ensures AlwaysAnswers(n, tx, LedgerStatus(n, tx)) && StatusOf(raw) == LedgerStatus(n, tx)
    ensures raw.validated <==> InclusionOf(n, tx).Some?
  {
    assert Run(n, []) == n;
    forall m, script | IsLater(n, m)
      ensures AnswersOrFails(Env(m, script), tx, LedgerStatus(n, tx))
    {
      var e := Env(m, script);
      RawStatusIsTrue(e, tx);
      ArriveIsLater(e);
      LaterIsTransitive(n, m, Arrive(e).node);
      if raw.validated { LaterKeepsInclusion(n, Arrive(e).node, tx); } else { LaterNever(n, Arrive(e).node, tx); }
    }
  }

  lemma FinalStaysFinal(n: Node, m: Node, tx: Transaction, raw: RawTransactionStatus)
    requires IsLater(n, m) && IsFinal(n, tx, raw)
    ensures IsFinal(m, tx, raw)
  {
    if raw.validated { LaterKeepsInclusion(n, m, tx); } else { LaterNever(n, m, tx); }
  }

  /** The answer PENDING is for good exactly when the transaction never enters a validated ledger. */
  lemma PendingForeverExactly(n: Node, tx: Transaction)
    ensures AlwaysAnswers(n, tx, PENDING) <==> NeverIncluded(n, tx)
  {
    if NeverIncluded(n, tx) {
      assert Run(n, []) == n;
      FinalAnswersForever(n, tx, RawTransactionStatus(false, "", 0));
    } else {
      var events :| InclusionOf(Run(n, events), tx).Some?;
      var e := Env(Run(n, events), []);
      LaterByMoves(n, events);
      RawStatusIsTrue(e, tx);
      assert Arrive(e) == e;
      assert AlwaysAnswers(n, tx, PENDING) ==> AnswersOrFails(e, tx, PENDING);
    }
  }

  /**
   * A transaction that expired outside the validated ledgers is PENDING for good: no run ever
   * answers FAILED for it.
   */
  lemma LostIsPendingForever(n: Node, tx: Transaction)
    requires InclusionOf(n, tx).None? && tx.lastLedgerSequence.Some? && tx.lastLedgerSequence.value <= n.validated
    ensures NeverIncluded(n, tx) && AlwaysAnswers(n, tx, PENDING)
  {
    forall events ensures InclusionOf(Run(n, events), tx).None? {
      ExpiredStaysOut(n, tx, events);
    }
    FinalAnswersForever(n, tx, RawTransactionStatus(false, "", 0));
  }

  // ---- The poll ----

  /** A poll ends the wait exactly when the index it read has passed, or the transaction was included when its status was read. */
  lemma PollEndsExactly(e: Env, tx: Transaction, last: Int32)
    ensures var a, b := Arrive(e), Arrive(Arrive(e));
      var answered := !NextTick(e).fails && !NextTick(a).fails && IsKnown(b.node, tx);
      && (Poll(e, tx, last).result.Ok? <==> answered)
      && Poll(e, tx, last).env == (if NextTick(e).fails then a else b)
      && (!answered ==> Poll(e, tx, last).result.error == RpcFailure)
      && (answered ==>
            var status := Poll(e, tx, last).result.value;
            && (status.Some? <==> AsInt32(a.node.validated) > last || InclusionOf(b.node, tx).Some?)
            && (status.Some? ==> IsTrueStatus(b.node, tx, status.value)))
  {
    RawStatusIsTrue(Arrive(e), tx);
  }

  /**
   * Reading the ledger index before the status is what makes a poll that ends the wait final:
   * the transaction had expired already when its status was read.
   */
  lemma PollIsFinal(e: Env, tx: Transaction)
    requires Valid(e.node) && ComparesRight(e.node, tx)
    ensures var p := Poll(e, tx, LastLedgerInt(tx));
      && IsLater(e.node, p.env.node)
      && (p.result.Ok? && p.result.value.Some? ==> IsFinal(p.env.node, tx, p.result.value.value))
  {
    var a := Arrive(e);
    var b := Arrive(a);
    ArriveIsLater(e);
    ArriveIsLater(a);
    LaterIsTransitive(e.node, a.node, b.node);
    LaterCompares(e.node, a.node, tx);
    LaterKeeps(a.node, b.node);
    RawStatusIsTrue(a, tx);
    if InclusionOf(b.node, tx).None? && a.node.validated > tx.lastLedgerSequence.value {
      forall events ensures InclusionOf(Run(b.node, events), tx).None? {
        ExpiredStaysOut(b.node, tx, events);
      }
    } else if InclusionOf(a.node, tx).Some? {
      LaterKeepsInclusion(a.node, b.node, tx);
    }
  }

  lemma {:induction false} PollUntilIsFinal(e: Env, tx: Transaction, polls: nat)
    requires Valid(e.node) && ComparesRight(e.node, tx)
    ensures var r := PollUntil(e, tx, LastLedgerInt(tx), polls);
      && IsLater(e.node, r.env.node)
      && (r.result.Ok? ==> IsFinal(r.env.node, tx, r.result.value))
    decreases polls
  {
    LaterByMoves(e.node, []);
    if polls > 0 {
      PollIsFinal(e, tx);
      var p := Poll(e, tx, LastLedgerInt(tx));
      if p.result == Ok(None) {
        LaterKeeps(e.node, p.env.node);
        LaterCompares(e.node, p.env.node, tx);
        PollUntilIsFinal(p.env, tx, polls - 1);
        LaterIsTransitive(e.node, p.env.node, PollUntil(p.env, tx, LastLedgerInt(tx), polls - 1).env.node);
      }
    }
  }

  lemma PollMoves(e: Env, tx: Transaction, last: Int32)
    ensures var p := Poll(e, tx, last);
      && IsLater(e.node, p.env.node)
      && (p.result.Err? ==> p.result.error == RpcFailure)
      && (p.result.Ok? && p.result.value.Some? ==>
            var raw := p.result.value.value;
            && IsTrueStatus(p.env.node, tx, raw)
            && (raw.validated ==> IsFinal(p.env.node, tx, raw)))
  {
    ArriveIsLater(e);
    ArriveIsLater(Arrive(e));
    LaterIsTransitive(e.node, Arrive(e).node, Arrive(Arrive(e)).node);
    RawStatusIsTrue(Arrive(e), tx);
  }

  /** Whatever the indices, a status is what the node holds when it is read; the loop's own errors are two. */
  lemma {:induction false} PollUntilMoves(e: Env, tx: Transaction, last: Int32, polls: nat)
    ensures var r := PollUntil(e, tx, last, polls);
      && IsLater(e.node, r.env.node)
      && (r.result.Err? ==> r.result.error in {TimedOut, RpcFailure})
      && (r.result.Ok? ==>
            && IsTrueStatus(r.env.node, tx, r.result.value)
            && (r.result.value.validated ==> IsFinal(r.env.node, tx, r.result.value)))
    decreases polls
  {
    hide Poll, IsFinal;
    LaterByMoves(e.node, []);
    if polls > 0 {
      var p := Poll(e, tx, last);
      PollMoves(e, tx, last);
      if p.result == Ok(None) {
        PollUntilMoves(p.env, tx, last, polls - 1);
        LaterIsTransitive(e.node, p.env.node, PollUntil(p.env, tx, last, polls - 1).env.node);
      }
    }
  }

  /** A status is what the node holds when it is read, and final if validated; the exit for a missing last ledger is taken exactly when it reads as zero. */
  lemma AwaitMoves(e: Env, tx: Transaction, sender: Wallet, budget: Budget)
    ensures var r := AwaitFinalTransactionResult(e, tx, sender, budget);
      && IsLater(e.node, r.env.node)
      && (r.result.Ok? ==>
            && IsTrueStatus(r.env.node, tx, r.result.value)
            && (r.result.value.validated ==> IsFinal(r.env.node, tx, r.result.value)))
      && (r.result == Err(NoLastLedgerSequence) <==>
            budget.initial > 0 && GetRawTransactionStatus(e, tx).result.Ok? && LastLedgerInt(tx) == 0)
  {
    RawStatusIsTrue(e, tx);
    LaterByMoves(e.node, []);
    ArriveIsLater(e);
    var initial := InitialStatus(e, tx, budget.initial);
    if initial.result.Ok? {
      PollUntilMoves(initial.env, tx, initial.result.value.lastLedgerSequence, budget.final);
      LaterIsTransitive(e.node, initial.env.node,
        PollUntil(initial.env, tx, initial.result.value.lastLedgerSequence, budget.final).env.node);
    }
  }

  /** Finality: a status returned by the wait is validated, or the transaction is out for good. */
  lemma AwaitIsFinal(e: Env, tx: Transaction, sender: Wallet, budget: Budget)
    requires Valid(e.node) && ComparesRight(e.node, tx)
    ensures var r := AwaitFinalTransactionResult(e, tx, sender, budget);
      && IsLater(e.node, r.env.node)
      && (r.result.Ok? ==> IsFinal(r.env.node, tx, r.result.value))
  {
    LaterByMoves(e.node, []);
    var initial := InitialStatus(e, tx, budget.initial);
    RawStatusIsTrue(e, tx);
    ArriveIsLater(e);
    LaterKeeps(e.node, Arrive(e).node);
    LaterCompares(e.node, Arrive(e).node, tx);
    if initial.result.Ok? {
      PollUntilIsFinal(initial.env, tx, budget.final);
      LaterIsTransitive(e.node, initial.env.node, PollUntil(initial.env, tx, LastLedgerInt(tx), budget.final).env.node);
    }
  }

  /** The wait for one transaction ends, in every run from here, in a final status or an error. */
  ghost predicate EveryAwaitIsFinal(n: Node, tx: Transaction, sender: Wallet, budget: Budget) {
    forall script ::
      var r := AwaitFinalTransactionResult(Env(n, script), tx, sender, budget);
      r.result.Ok? ==> IsFinal(r.env.node, tx, r.result.value)
  }

  /**
   * Exactly when the wait can be trusted: the last ledger is below 2^31, or the validated ledgers
   * have passed 2^31, or the transaction is included already. Otherwise the signed comparison lets
   * the wait end while the next ledger can still include the transaction. Without a last ledger
   * the wait never returns a status.
   */
  lemma FinalExactly(n: Node, tx: Transaction, sender: Wallet, budget: Budget)
    requires Valid(n)
    requires sender.classicAddress.Some? && budget.initial > 0 && budget.final > 0
    ensures EveryAwaitIsFinal(n, tx, sender, budget) <==> tx.lastLedgerSequence.None? || ComparesRight(n, tx)
  {
    if tx.lastLedgerSequence.None? || ComparesRight(n, tx) {
      forall script ensures
        var r := AwaitFinalTransactionResult(Env(n, script), tx, sender, budget);
        r.result.Ok? ==> IsFinal(r.env.node, tx, r.result.value)
      {
        if tx.lastLedgerSequence.None? { RawStatusIsTrue(Env(n, script), tx); }
        else { AwaitIsFinal(Env(n, script), tx, sender, budget); }
      }
    } else {
      var script := EarlyEnd(n, tx, sender, budget);
    }
  }

  /** The failing run: the node has just learnt the transaction and rests during the polls. */
  lemma EarlyEnd(n: Node, tx: Transaction, sender: Wallet, budget: Budget) returns (script: seq<Tick>)
    requires Valid(n) && tx.lastLedgerSequence.Some? && !ComparesRight(n, tx)
    requires sender.classicAddress.Some? && budget.initial > 0 && budget.final > 0
    ensures var r := AwaitFinalTransactionResult(Env(n, script), tx, sender, budget);
      && r.result.Ok? && !r.result.value.validated
      && InclusionOf(r.env.node, tx).None? && !NeverIncluded(r.env.node, tx)
  {
    script := [Tick([Learn(tx, "")], false, 0, 0)];
    var e := Env(n, script);
    var learnt := Apply(n, Learn(tx, ""));
    assert Run(n, [Learn(tx, "")]) == learnt by { assert [Learn(tx, "")][1..] == []; }
    assert script[1..] == [];
    var quiet := Env(learnt, []);
    assert Arrive(e) == quiet && Arrive(quiet) == quiet;
    RawStatusIsTrue(e, tx);
    assert PollUntil(quiet, tx, LastLedgerInt(tx), budget.final) ==
      Ran(quiet, GetRawTransactionStatus(quiet, tx).result);
    RunIsValid(n, [Learn(tx, "")]);
    var events := IncludeNext(learnt, tx, "tesSUCCESS");
  }

  /** With the two reads in the other order, a status could be stale: unvalidated, yet included since. */
  lemma ReadOrderMatters(n: Node, tx: Transaction) returns (e: Env)
    requires Valid(n) && tx.lastLedgerSequence.Some? && n.validated < tx.lastLedgerSequence.value < TWO_31 - 1
    requires InclusionOf(n, tx).None?
    ensures e.node == n
    ensures var status := GetRawTransactionStatus(e, tx);
      var latest := GetLatestValidatedLedgerSequence(status.env);
      && status.result.Ok? && !status.result.value.validated
      && latest.result.Ok? && latest.result.value > LastLedgerInt(tx)
      && InclusionOf(latest.env.node, tx).Some?
  {
    var learnt := Apply(n, Learn(tx, ""));
    assert Run(n, [Learn(tx, "")]) == learnt by { assert [Learn(tx, "")][1..] == []; }
    RunIsValid(n, [Learn(tx, "")]);
    var entry := IncludeNext(learnt, tx, "tesSUCCESS");
    var included := Run(learnt, entry);
    RunIsValid(learnt, entry);
    IndicesGrow(learnt, entry);
    var pass := CloseUpTo(included, tx.lastLedgerSequence.value + 1);
    RunAppend(learnt, entry, pass);
    InclusionIsPermanent(included, tx, pass);
    e := Env(n, [Tick([Learn(tx, "")], false, 0, 0), Tick(entry + pass, false, 0, 0)]);
    assert e.script[1..] == [Tick(entry + pass, false, 0, 0)];
    assert Arrive(e) == Env(learnt, e.script[1..]);
    assert Arrive(Arrive(e)).node == Run(included, pass);
  }

  /** The node can close empty ledgers up to any index. */
  lemma {:induction false} CloseUpTo(n: Node, index: Uint32) returns (events: seq<Event>)
    requires Valid(n) && n.validated <= index && index + 1 < TWO_32
    ensures Run(n, events).validated == index && Run(n, events).records == n.records
    decreases index - n.validated
  {
    events := [];
    if n.validated < index {
      var step := [OpenNext] + [Validate(map[])];
      var wider := Apply(n, OpenNext);
      assert step[1..] == [Validate(map[])] && [Validate(map[])][1..] == [];
      assert Run(wider, [Validate(map[])]) == Apply(wider, Validate(map[]));
      RunIsValid(n, step);
      assert Run(n, step).records == n.records;
      var rest := CloseUpTo(Run(n, step), index);
      RunAppend(n, step, rest);
      events := step + rest;
    }
  }
}
