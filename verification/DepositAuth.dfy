/** The two fields of `enableDepositAuth`'s result come from different reads. When do they agree? */
module DepositAuth {
  import opened Wrappers
  import opened Words
  import opened Proto
  import opened Ledger
  import opened Rpc
  import opened Submission
  import opened Finality
  import opened Sending

  /** A result is PENDING if and only if it is not validated. */
  predicate FieldsAgree(r: Ran<TransactionResult>) {
    r.result.Ok? ==> (r.result.value.status == PENDING <==> !r.result.value.validated)
  }

  function SubmitAccountSet(e: Env, wallet: Wallet): Ran<Transaction> {
    PrepareAndSubmit(e, wallet, AccountSetData(ASF_DEPOSIT_AUTH), [])
  }

  // ---- The inner client ----

  /**
   * How the inner call ends: with a result exactly when its submission and both reads are
   * answered. What it submits sets the account flag 9 and nothing else.
   */
  lemma InnerOutcome(e: Env, wallet: Wallet)
    ensures var sent, r := SubmitAccountSet(e, wallet), EnableDepositAuth(e, wallet);
      && (r.result.Ok? <==>
            && sent.result.Ok?
            && IsAnswered(sent.env, sent.result.value) && IsAnswered(Arrive(sent.env), sent.result.value))
      && (sent.result.Err? ==> r.result == Err(sent.result.error) && r.env == sent.env)
      && (sent.result.Ok? && r.result.Err? ==> r.result.error == RpcFailure)
      && (r.result.Ok? ==>
            var tx := r.result.value.hash;
            && sent.result == Ok(tx) && tx.data == AccountSetData(9) && tx.memos == [] && IsPrepared(e, wallet, tx)
            && r.env == Arrive(Arrive(Submitted(e, tx))))
  {
    SubmittedTransaction(e, wallet, AccountSetData(ASF_DEPOSIT_AUTH), []);
    var sent := SubmitAccountSet(e, wallet);
    if sent.result.Ok? {
      RawStatusIsTrue(sent.env, sent.result.value);
      RawStatusIsTrue(Arrive(sent.env), sent.result.value);
    }
  }

  /**
   * In any run of the inner client each field tells the truth of its own read, a status other than
   * PENDING comes with validated, and the fields disagree exactly when the transaction was included
   * between the two reads.
   */
  lemma InnerFieldsExactly(e: Env, wallet: Wallet)
    requires EnableDepositAuth(e, wallet).result.Ok?
    ensures var sent, r := SubmitAccountSet(e, wallet), EnableDepositAuth(e, wallet);
      var atStatus, atRaw, got := Arrive(sent.env).node, r.env.node, r.result.value;
      && sent.result == Ok(got.hash) && r.env == Arrive(Arrive(sent.env))
      && IsLater(e.node, atRaw) && IsLater(sent.env.node, atRaw)
      && got.status == LedgerStatus(atStatus, got.hash) && got.status in {PENDING, LedgerStatus(atRaw, got.hash)}
      && (got.validated <==> InclusionOf(atRaw, got.hash).Some?)
      && (got.status != PENDING ==> got.validated)
      && (FieldsAgree(r) <==> !(InclusionOf(atStatus, got.hash).None? && InclusionOf(atRaw, got.hash).Some?))
  {
    SubmittedTransaction(e, wallet, AccountSetData(ASF_DEPOSIT_AUTH), []);
    var sent := SubmitAccountSet(e, wallet);
    var tx, a := sent.result.value, Arrive(sent.env);
    ArriveIsLater(sent.env);
    ArriveIsLater(a);
    LaterIsTransitive(sent.env.node, a.node, Arrive(a).node);
    LaterIsTransitive(e.node, sent.env.node, Arrive(a).node);
    RawStatusIsTrue(sent.env, tx);
    RawStatusIsTrue(a, tx);
    if InclusionOf(a.node, tx).Some? { LaterKeepsInclusion(a.node, Arrive(a).node, tx); }
  }

  /** The last ledger wraps to one that has been validated already, so what is submitted is lost at once. */
  predicate IsPastLastOpen(n: Node) { n.open >= TWO_32 - 10 && n.validated >= 9 }

  /**
   * Before the call: the fields of every run's result agree if and only if the wallet cannot sign,
   * so that there is no result, or the open ledger index is within ten of its end.
   */
  lemma InnerFieldsAgreeExactly(n: Node, wallet: Wallet, sequence: Uint32)
    requires Valid(n) && (CanSign(wallet) ==> IsUnused(n, wallet.classicAddress.value, sequence))
    ensures (forall script :: FieldsAgree(EnableDepositAuth(Env(n, script), wallet))) <==>
      !CanSign(wallet) || IsPastLastOpen(n)
  {
    if !CanSign(wallet) || IsPastLastOpen(n) {
      forall script ensures FieldsAgree(EnableDepositAuth(Env(n, script), wallet)) {
        var e := Env(n, script);
        SubmittedTransaction(e, wallet, AccountSetData(ASF_DEPOSIT_AUTH), []);
        if EnableDepositAuth(e, wallet).result.Ok? { LostAtOnce(e, wallet); }
      }
    } else {
      var e := IncludedBetweenReads(n, wallet, sequence);
      assert e == Env(n, e.script);
    }
  }

  lemma LostAtOnce(e: Env, wallet: Wallet)
    requires IsPastLastOpen(e.node) && EnableDepositAuth(e, wallet).result.Ok?
    ensures FieldsAgree(EnableDepositAuth(e, wallet))
  {
    hide EnableDepositAuth, PrepareAndSubmit, FieldsAgree;
    InnerFieldsExactly(e, wallet);
    SubmittedTransaction(e, wallet, AccountSetData(ASF_DEPOSIT_AUTH), []);
    var sent := SubmitAccountSet(e, wallet);
    var a := Arrive(sent.env);
    ArriveIsLater(sent.env);
    LaterKeeps(e.node, sent.env.node);
    LaterKeeps(sent.env.node, a.node);
    if InclusionOf(a.node, sent.result.value).None? {
      ExpiredStaysOut(a.node, sent.result.value, NextTick(a).events);
    }
  }

  /** The disagreeing run: the node includes the transaction after the first read and before the second. */
  lemma IncludedBetweenReads(n: Node, wallet: Wallet, sequence: Uint32) returns (e: Env)
    requires Valid(n) && CanSign(wallet) && IsUnused(n, wallet.classicAddress.value, sequence)
    requires !IsPastLastOpen(n)
    ensures e.node == n && EnableDepositAuth(e, wallet).result.Ok?
    ensures var got := EnableDepositAuth(e, wallet).result.value; got.status == PENDING && got.validated
  {
    hide PrepareAndSubmit, GetRawTransactionStatus, IsPrepared, IsUnused;
    var target := if n.open < TWO_32 - 10 then n.open else TWO_32 - 1;
    var start := SubmissionAt(n, target, sequence, wallet, AccountSetData(ASF_DEPOSIT_AUTH), []);
    var sent := SubmitAccountSet(start, wallet);
    var m, tx := sent.env.node, sent.result.value;
    SubmittedTransaction(start, wallet, AccountSetData(ASF_DEPOSIT_AUTH), []);
    LaterKeeps(n, m);
    var entry := IncludeNext(m, tx, "tesSUCCESS");
    var after := [QUIET, QUIET.(events := entry)];
    e := Then(start, after);
    SubmissionThen(start, after, wallet, AccountSetData(ASF_DEPOSIT_AUTH), []);
    var a, b := Env(m, after), Env(m, [QUIET.(events := entry)]);
    assert Arrive(a) == b && Arrive(b) == Env(Run(m, entry), []);
    RawStatusIsTrue(a, tx);
    RawStatusIsTrue(b, tx);
  }

  // ---- The reliable client ----

  /**
   * The reliable result: in every run `validated` rules out PENDING, and both are then the last
   * word; the fields disagree exactly when the wait ended unvalidated and the transaction was
   * included before the last read; where the wait compares indices right, not validated means
   * PENDING, for good.
   */
  lemma ReliableFieldsAgree(e: Env, wallet: Wallet, budget: Budget)
    requires EnableDepositAuthReliably(e, wallet, budget).result.Ok?
    ensures var initial, r := EnableDepositAuth(e, wallet), EnableDepositAuthReliably(e, wallet, budget);
      && r.result.value.hash == initial.result.value.hash
      && (r.result.value.validated ==> r.result.value.status != PENDING)
      && (FieldsAgree(r) <==> !(!r.result.value.validated && InclusionOf(r.env.node, r.result.value.hash).Some?))
      && (r.result.value.validated || (Valid(e.node) && ComparesRight(initial.env.node, r.result.value.hash)) ==>
            FieldsAgree(r) && AlwaysAnswers(r.env.node, r.result.value.hash, r.result.value.status))
  {
    InnerFieldsExactly(e, wallet);
    var initial := EnableDepositAuth(e, wallet);
    var tx := initial.result.value.hash;
    var final := AwaitFinalTransactionResult(initial.env, tx, wallet, budget);
    LaterKeeps(e.node, initial.env.node);
    AwaitMoves(initial.env, tx, wallet, budget);
    RawStatusIsTrue(final.env, tx);
    if final.result.value.validated || (Valid(e.node) && ComparesRight(initial.env.node, tx)) {
      if !final.result.value.validated { AwaitIsFinal(initial.env, tx, wallet, budget); }
      ArriveIsLater(final.env);
      FinalStaysFinal(final.env.node, Arrive(final.env).node, tx, final.result.value);
      FinalAnswersForever(Arrive(final.env).node, tx, final.result.value);
    }
  }

  /**
   * Before the call: the fields of every run's reliable result agree if and only if the validated
   * ledgers have reached 2^31 or the open one 2^32 - 10.
   */
  lemma ReliableFieldsAgreeExactly(n: Node, wallet: Wallet, budget: Budget, sequence: Uint32)
    requires Valid(n) && CanSign(wallet) && IsUnused(n, wallet.classicAddress.value, sequence)
    requires budget.initial > 0 && budget.final > 0
    ensures (forall script :: FieldsAgree(EnableDepositAuthReliably(Env(n, script), wallet, budget))) <==> AreSafeIndices(n)
  {
    if AreSafeIndices(n) {
      forall script ensures FieldsAgree(EnableDepositAuthReliably(Env(n, script), wallet, budget)) {
        var e := Env(n, script);
        if EnableDepositAuthReliably(e, wallet, budget).result.Ok? {
          InnerFieldsExactly(e, wallet);
          SafeIndicesCompare(e, wallet, AccountSetData(ASF_DEPOSIT_AUTH), []);
          LaterCompares(SubmitAccountSet(e, wallet).env.node, EnableDepositAuth(e, wallet).env.node,
            EnableDepositAuth(e, wallet).result.value.hash);
          ReliableFieldsAgree(e, wallet, budget);
        }
      }
    } else {
      var e := IncludedAfterEarlyEnd(n, wallet, budget, sequence);
      assert e == Env(n, e.script);
    }
  }

  /** The failing run: the wait ends early, and the transaction is included before the status is read again. */
  lemma IncludedAfterEarlyEnd(n: Node, wallet: Wallet, budget: Budget, sequence: Uint32) returns (e: Env)
    requires Valid(n) && CanSign(wallet) && IsUnused(n, wallet.classicAddress.value, sequence)
    requires budget.initial > 0 && budget.final > 0 && !AreSafeIndices(n)
    ensures e.node == n && EnableDepositAuthReliably(e, wallet, budget).result.Ok?
    ensures var got := EnableDepositAuthReliably(e, wallet, budget).result.value; got.status == SUCCEEDED && !got.validated
  {
    hide PrepareAndSubmit, AwaitFinalTransactionResult, GetRawTransactionStatus;
    var target := if n.open < TWO_31 - 10 then TWO_31 - 10 else n.open;
    var start := SubmissionAt(n, target, sequence, wallet, AccountSetData(ASF_DEPOSIT_AUTH), []);
    var sent := SubmitAccountSet(start, wallet);
    var m, tx := sent.env.node, sent.result.value;
    SubmittedTransaction(start, wallet, AccountSetData(ASF_DEPOSIT_AUTH), []);
    LaterKeeps(n, m);
    var entry := IncludeNext(m, tx, "tesSUCCESS");
    var last := [QUIET.(events := entry)];
    var waiting := [QUIET, QUIET, QUIET] + last;
    var after := [QUIET, QUIET] + waiting;
    e := Then(start, after);
    SubmissionThen(start, after, wallet, AccountSetData(ASF_DEPOSIT_AUTH), []);
    TwoQuietReads(m, waiting);
    RawStatusIsTrue(Env(m, after), tx);
    RawStatusIsTrue(Arrive(Env(m, after)), tx);
    assert EnableDepositAuth(e, wallet) == Ran(Env(m, waiting), Ok(TransactionResult(tx, PENDING, false)));
    EarlyEndAt(m, tx, wallet, budget, last);
    assert Arrive(Env(m, last)) == Env(Run(m, entry), []);
    RawStatusIsTrue(Env(m, last), tx);
  }

  lemma TwoQuietReads(m: Node, rest: seq<Tick>)
    ensures var a := Arrive(Env(m, [QUIET, QUIET] + rest));
      a.node == m && Arrive(a) == Env(m, rest) && !NextTick(Env(m, [QUIET, QUIET] + rest)).fails && !NextTick(a).fails
  {
    var script := [QUIET, QUIET] + rest;
    assert script[1..] == [QUIET] + rest;
    assert script[1..][1..] == rest;
  }

  /** On a node at rest that knows the transaction, the first poll ends the wait if the last ledger reads as negative. */
  lemma EarlyEndAt(m: Node, tx: Transaction, wallet: Wallet, budget: Budget, rest: seq<Tick>)
    requires IsKnown(m, tx) && InclusionOf(m, tx).None? && m.validated < TWO_31 && LastLedgerInt(tx) < 0
    requires wallet.classicAddress.Some? && budget.initial > 0 && budget.final > 0
    ensures var r := AwaitFinalTransactionResult(Env(m, [QUIET, QUIET, QUIET] + rest), tx, wallet, budget);
      r.env == Env(m, rest) && r.result.Ok? && !r.result.value.validated
  {
    var e := Env(m, [QUIET, QUIET, QUIET] + rest);
    assert ([QUIET, QUIET, QUIET] + rest)[1..] == [QUIET, QUIET] + rest;
    assert Arrive(e) == Env(m, [QUIET, QUIET] + rest);
    TwoQuietReads(m, rest);
    RawStatusIsTrue(e, tx);
    RawStatusIsTrue(Arrive(Arrive(e)), tx);
  }
}
