/** Which expiries the wait can notice: it reads the validated index as a signed number, and so misses some. */
module Expiry {
  import opened Wrappers
  import opened Words
  import opened Proto
  import opened Ledger
  import opened Rpc
  import opened Submission
  import opened Finality
  import opened Sending
  import Memos

  /** Some index that the node has or can still reach exceeds `last` as a signed number. */
  predicate CanBeSeenPast(last: Uint32, validated: Uint32) {
    if last < TWO_31 then last < TWO_31 - 1 && validated < TWO_31
    else validated < TWO_31 || last < validated || last < TWO_32 - 2
  }

  // ---- The wait ----

  /** What cannot be seen now is not seen later. */
  lemma UnseenStaysUnseen(n: Node, m: Node, last: Uint32)
    requires Valid(n) && IsLater(n, m) && !CanBeSeenPast(last, n.validated)
    ensures Valid(m) && !CanBeSeenPast(last, m.validated) && AsInt32(m.validated) <= AsInt32(last)
  {
    LaterKeeps(n, m);
  }

  /** However many polls it has, the loop then ends by inclusion or by an error only. */
  lemma {:induction false} EndsOnlyByInclusion(e: Env, tx: Transaction, last: Uint32, polls: nat)
    requires Valid(e.node) && !CanBeSeenPast(last, e.node.validated)
    ensures var r := PollUntil(e, tx, AsInt32(last), polls); r.result.Ok? ==> r.result.value.validated
    decreases polls
  {
    hide Poll, CanBeSeenPast;
    if polls > 0 {
      var a := Arrive(e);
      ArriveIsLater(e);
      UnseenStaysUnseen(e.node, a.node, last);
      PollMoves(e, tx, AsInt32(last));
      PollEndsExactly(e, tx, AsInt32(last));
      var p := Poll(e, tx, AsInt32(last));
      if p.result == Ok(None) {
        UnseenStaysUnseen(e.node, p.env.node, last);
        EndsOnlyByInclusion(p.env, tx, last, polls - 1);
      }
    }
  }

  lemma AwaitEndsOnlyByInclusion(e: Env, tx: Transaction, sender: Wallet, budget: Budget)
    requires Valid(e.node) && tx.lastLedgerSequence.Some?
    requires tx.lastLedgerSequence.value == 0 || !CanBeSeenPast(tx.lastLedgerSequence.value, e.node.validated)
    ensures var r := AwaitFinalTransactionResult(e, tx, sender, budget); r.result.Ok? ==> r.result.value.validated
  {
    hide PollUntil, CanBeSeenPast;
    RawStatusIsTrue(e, tx);
    ArriveIsLater(e);
    if tx.lastLedgerSequence.value != 0 {
      UnseenStaysUnseen(e.node, Arrive(e).node, tx.lastLedgerSequence.value);
      EndsOnlyByInclusion(Arrive(e), tx, tx.lastLedgerSequence.value, budget.final);
    }
  }

  predicate ReturnsUnvalidated(e: Env, tx: Transaction, sender: Wallet, budget: Budget) {
    var r := AwaitFinalTransactionResult(e, tx, sender, budget); r.result.Ok? && !r.result.value.validated
  }

  /** A run that ends on the expiry: the node learns the transaction and closes empty ledgers before the first poll. */
  lemma ExpirySeen(n: Node, tx: Transaction, sender: Wallet, budget: Budget) returns (script: seq<Tick>)
    requires Valid(n) && tx.lastLedgerSequence.Some? && tx.lastLedgerSequence.value != 0 && InclusionOf(n, tx).None?
    requires sender.classicAddress.Some? && budget.initial > 0 && budget.final > 0
    requires CanBeSeenPast(tx.lastLedgerSequence.value, n.validated)
    ensures ReturnsUnvalidated(Env(n, script), tx, sender, budget)
    ensures InclusionOf(AwaitFinalTransactionResult(Env(n, script), tx, sender, budget).env.node, tx).None?
  {
    var last := tx.lastLedgerSequence.value;
    var learning := [Learn(tx, "")];
    var learnt := Apply(n, Learn(tx, ""));
    assert learning[1..] == [] && Run(n, learning) == learnt;
    RunIsValid(n, learning);
    var target := if AsInt32(n.validated) > AsInt32(last) then n.validated else last + 1;
    var closing := CloseUpTo(learnt, target);
    var closed := Run(learnt, closing);
    var second := [QUIET.(events := closing)];
    script := [QUIET.(events := learning)] + second;
    var e := Env(n, script);
    var a, b := Env(learnt, second), Env(closed, []);
    assert script[1..] == second && Arrive(e) == a && Arrive(a) == b && Arrive(b) == b;
    RawStatusIsTrue(e, tx);
    PollEndsExactly(a, tx, LastLedgerInt(tx));
    PollMoves(a, tx, LastLedgerInt(tx));
    assert PollUntil(a, tx, LastLedgerInt(tx), budget.final) ==
      Ran(b, Ok(Poll(a, tx, LastLedgerInt(tx)).result.value.value));
  }

  /**
   * Before the wait: some run of it ends on the expiry if and only if the signed comparison can see
   * it. Otherwise, whatever the budget, only an inclusion or an error ends it.
   */
  lemma ExpirySeenExactly(n: Node, tx: Transaction, sender: Wallet, budget: Budget)
    requires Valid(n) && tx.lastLedgerSequence.Some? && tx.lastLedgerSequence.value != 0 && InclusionOf(n, tx).None?
    requires sender.classicAddress.Some? && budget.initial > 0 && budget.final > 0
    ensures (exists script :: ReturnsUnvalidated(Env(n, script), tx, sender, budget)) <==>
      CanBeSeenPast(tx.lastLedgerSequence.value, n.validated)
  {
    if CanBeSeenPast(tx.lastLedgerSequence.value, n.validated) {
      var script := ExpirySeen(n, tx, sender, budget);
    } else {
      forall script ensures !ReturnsUnvalidated(Env(n, script), tx, sender, budget) {
        AwaitEndsOnlyByInclusion(Env(n, script), tx, sender, budget);
      }
    }
  }

  // ---- A whole call ----

  /** The send returns its hash although the payment is in no validated ledger. */
  predicate ReturnsUnincluded(e: Env, details: SendXrpDetails, budget: Budget) {
    var r := SendReliably(e, details, budget); r.result.Ok? && InclusionOf(r.env.node, r.result.value).None?
  }

  /** What a send submits at this point has a last ledger whose passing the wait can see. */
  predicate CanSeeSentExpire(sent: Ran<Transaction>)
    requires sent.result.Ok? && sent.result.value.lastLedgerSequence.Some?
  {
    var last := sent.result.value.lastLedgerSequence.value;
    last != 0 && CanBeSeenPast(last, sent.env.node.validated)
  }

  lemma SendEndsOnlyByInclusion(e: Env, details: SendXrpDetails, budget: Budget)
    requires Valid(e.node) && SendWithDetails(e, details).result.Ok?
    ensures SendWithDetails(e, details).result.value.lastLedgerSequence.Some?
    ensures !CanSeeSentExpire(SendWithDetails(e, details)) ==> !ReturnsUnincluded(e, details, budget)
  {
    hide SendWithDetails, AwaitFinalTransactionResult, CanBeSeenPast;
    SentTransaction(e, details);
    var sent := SendWithDetails(e, details);
    LaterKeeps(e.node, sent.env.node);
    AwaitMoves(sent.env, sent.result.value, details.sender, budget);
    if !CanSeeSentExpire(sent) {
      AwaitEndsOnlyByInclusion(sent.env, sent.result.value, details.sender, budget);
    }
  }

  /**
   * Whatever led up to the submission, some continuation of the call ends on the expiry if and only
   * if the payment is not included already and the wait can see its last ledger pass.
   */
  lemma SendSeesExpiryExactly(e: Env, details: SendXrpDetails, budget: Budget)
    requires Valid(e.node) && |e.script| == 4 && SendWithDetails(e, details).result.Ok?
    requires budget.initial > 0 && budget.final > 0
    ensures var sent := SendWithDetails(e, details);
      && sent.result.value.lastLedgerSequence == Some((OpenRead(e) + 10) % TWO_32)
      && ((exists after :: ReturnsUnincluded(Then(e, after), details, budget)) <==>
            InclusionOf(sent.env.node, sent.result.value).None? && CanSeeSentExpire(sent))
  {
    hide SendWithDetails, AwaitFinalTransactionResult, CanBeSeenPast;
    var sent := SendWithDetails(e, details);
    var n, tx := sent.env.node, sent.result.value;
    SentTransaction(e, details);
    LaterKeeps(e.node, n);
    if InclusionOf(n, tx).None? && CanSeeSentExpire(sent) {
      var after := ExpirySeen(n, tx, details.sender, budget);
      SendThen(e, after, details);
      assert ReturnsUnincluded(Then(e, after), details, budget);
    } else {
      forall after ensures !ReturnsUnincluded(Then(e, after), details, budget) {
        SendThen(e, after, details);
        SendEndsOnlyByInclusion(Then(e, after), details, budget);
        AwaitMoves(Env(n, after), tx, details.sender, budget);
        if InclusionOf(n, tx).Some? {
          LaterKeepsInclusion(n, AwaitFinalTransactionResult(Env(n, after), tx, details.sender, budget).env.node, tx);
        }
      }
    }
  }

  /**
   * The failing run of a whole call: from every node with an open index up to 2^31 - 11, a payment
   * can be submitted with the last ledger 2^31 - 1; no continuation and no budget then makes the
   * call return unless the payment is included.
   */
  lemma ExpiryOverlooked(n: Node, details: SendXrpDetails) returns (e: Env)
    requires Valid(n) && n.open <= TWO_31 - 11 && details.destinationIsXAddress && CanSign(details.sender)
    ensures e.node == n && SendWithDetails(e, details).result.Ok?
    ensures SendWithDetails(e, details).result.value.lastLedgerSequence == Some(TWO_31 - 1)
    ensures forall after, budget :: !ReturnsUnincluded(Then(e, after), details, budget)
  {
    hide SendReliably, PrepareAndSubmit;
    e := SubmissionAt(n, TWO_31 - 11, 0, details.sender, PaymentData(PaymentFor(details)), Memos.WireMemos(details.memosList));
    SentTransaction(e, details);
    forall after, budget ensures !ReturnsUnincluded(Then(e, after), details, budget) {
      SendThen(e, after, details);
      SendEndsOnlyByInclusion(Then(e, after), details, budget);
    }
  }

  /** A run in which the wait returns because the next ledger includes the transaction. */
  lemma IncludedIsReturned(n: Node, tx: Transaction, sender: Wallet, budget: Budget) returns (script: seq<Tick>)
    requires Valid(n) && IsKnown(n, tx) && InclusionOf(n, tx).None? && n.validated + 2 < TWO_32
    requires tx.lastLedgerSequence.Some? && tx.lastLedgerSequence.value > n.validated
    requires sender.classicAddress.Some? && budget.initial > 0 && budget.final > 0
    ensures AwaitFinalTransactionResult(Env(n, script), tx, sender, budget).result.Ok?
  {
    var entry := IncludeNext(n, tx, "tesSUCCESS");
    script := [QUIET.(events := entry)];
    var e, m := Env(n, script), Env(Run(n, entry), []);
    assert Arrive(e) == m && Arrive(m) == m;
    RawStatusIsTrue(e, tx);
    PollEndsExactly(m, tx, LastLedgerInt(tx));
    assert PollUntil(m, tx, LastLedgerInt(tx), budget.final).result.Ok?;
  }

  /**
   * Before the call: no run of it returns the hash of a payment that was not included already if
   * and only if the open index is in its last ten and the validated one has reached 2^31. The last
   * ledger is then a wrapped one: expired when it is submitted, and never seen to be.
   */
  lemma SendNeverReturnsExactly(n: Node, details: SendXrpDetails, budget: Budget, sequence: Uint32)
    requires Valid(n) && details.destinationIsXAddress && CanSign(details.sender)
    requires budget.initial > 0 && budget.final > 0
    requires IsUnused(n, details.sender.classicAddress.value, sequence)
    ensures (forall script :: ReturnsOnlyOld(Env(n, script), details, budget)) <==>
      n.open >= TWO_32 - 10 && n.validated >= TWO_31
  {
    if n.open >= TWO_32 - 10 && n.validated >= TWO_31 {
      forall script ensures ReturnsOnlyOld(Env(n, script), details, budget) {
        WrappedIsNotReturned(Env(n, script), details, budget);
      }
    } else {
      var e := NewIsReturned(n, details, budget, sequence);
      assert e == Env(n, e.script);
    }
  }

  /** If the send returns a hash, its transaction was in a validated ledger before the call. */
  predicate ReturnsOnlyOld(e: Env, details: SendXrpDetails, budget: Budget) {
    var r := SendReliably(e, details, budget); r.result.Ok? ==> InclusionOf(e.node, r.result.value).Some?
  }

  lemma WrappedIsNotReturned(e: Env, details: SendXrpDetails, budget: Budget)
    requires Valid(e.node) && e.node.open >= TWO_32 - 10 && e.node.validated >= TWO_31
    ensures ReturnsOnlyOld(e, details, budget)
  {
    hide SendWithDetails, AwaitFinalTransactionResult, Submitted, IsKnown, AtOpenRead;
    SentTransaction(e, details);
    var sent, r := SendWithDetails(e, details), SendReliably(e, details, budget);
    if r.result.Ok? && InclusionOf(e.node, r.result.value).None? {
      LaterKeeps(e.node, sent.env.node);
      SendEndsOnlyByInclusion(e, details, budget);
      AwaitMoves(sent.env, sent.result.value, details.sender, budget);
      LaterIsTransitive(e.node, sent.env.node, r.env.node);
      var events :| r.env.node == Run(e.node, events);
      ExpiredStaysOut(e.node, r.result.value, events);
      assert false;
    }
  }

  lemma NewIsReturned(n: Node, details: SendXrpDetails, budget: Budget, sequence: Uint32) returns (e: Env)
    requires Valid(n) && details.destinationIsXAddress && CanSign(details.sender)
    requires budget.initial > 0 && budget.final > 0
    requires IsUnused(n, details.sender.classicAddress.value, sequence)
    requires n.open < TWO_32 - 10 || n.validated < TWO_31
    ensures e.node == n && !ReturnsOnlyOld(e, details, budget)
  {
    hide PrepareAndSubmit, AwaitFinalTransactionResult;
    var target := if n.open < TWO_32 - 10 then n.open else TWO_32 - 1;
    var start := SubmissionAt(
      n, target, sequence, details.sender, PaymentData(PaymentFor(details)), Memos.WireMemos(details.memosList));
    SentTransaction(start, details);
    var sent := SendWithDetails(start, details);
    var m, tx := sent.env.node, sent.result.value;
    LaterKeeps(n, m);
    if InclusionOf(n, tx).Some? { LaterKeepsInclusion(n, m, tx); }
    var after;
    if tx.lastLedgerSequence.value > m.validated {
      after := IncludedIsReturned(m, tx, details.sender, budget);
    } else {
      after := ExpirySeen(m, tx, details.sender, budget);
    }
    e := Then(start, after);
    SendThen(start, after, details);
  }
}
