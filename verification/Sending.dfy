/** What is submitted, and what a reliable send guarantees of it once it has returned. */
module Sending {
  import opened Wrappers
  import opened Words
  import opened Proto
  import opened Ledger
  import opened Rpc
  import opened Submission
  import opened Finality
  import HexCodec
  import Memos

  // ---- Preparing and submitting ----

  /** The wallet's address decodes, and so does its key. */
  predicate CanSign(wallet: Wallet) { wallet.classicAddress.Some? && |wallet.publicKey| % 2 == 0 }

  /** The node when a preparation reads the open ledger index, with its third RPC. */
  function AtOpenRead(e: Env): Env { Arrive(Arrive(Arrive(e))) }

  function OpenRead(e: Env): Uint32 { AtOpenRead(e).node.open }

  /**
   * The last ledger is ten past the open one, modulo 2^32. It reads as absent for one open index,
   * and leaves the range of a positive `int` for those from 2^31 - 10 up to there.
   */
  lemma LastLedgerExactly(open: Uint32)
    ensures LastLedgerFor(AsInt32(open)) == (open + 10) % TWO_32
    ensures AsInt32(LastLedgerFor(AsInt32(open))) == 0 <==> open == TWO_32 - 10
    ensures LastLedgerFor(AsInt32(open)) < TWO_31 <==> open < TWO_31 - 10 || open >= TWO_32 - 10
  {
  }

  /** A transaction of the wallet's account and key, with the values a preparation reads and its last ledger. */
  predicate IsPrepared(e: Env, wallet: Wallet, tx: Transaction) {
    && Some(tx.account) == wallet.classicAddress
    && tx.fee == NextTick(e).fee && tx.sequence == NextTick(Arrive(e)).sequence
    && tx.lastLedgerSequence == Some((OpenRead(e) + 10) % TWO_32)
    && tx.signingPublicKey == HexCodec.Decoded(wallet.publicKey)
    && (HexCodec.IsHex(wallet.publicKey) ==>
          HexCodec.Encoded(tx.signingPublicKey) == HexCodec.Lower(wallet.publicKey))
    && tx.sourceTag.None?
  }

  /** The three RPCs of a preparation are answered. */
  predicate ReadsAreAnswered(e: Env) {
    !NextTick(e).fails && !NextTick(Arrive(e)).fails && !NextTick(Arrive(Arrive(e))).fails
  }

  /**
   * How a preparation ends: it succeeds exactly when the wallet can sign and its three RPCs are
   * answered, and makes no more of them than it takes to fail.
   */
  lemma BaseTransaction(e: Env, wallet: Wallet)
    ensures var r := PrepareBaseTransaction(e, wallet);
      && IsLater(e.node, r.env.node)
      && (r.result.Ok? <==> CanSign(wallet) && ReadsAreAnswered(e))
      && (r.result == Err(NullPointer) <==> wallet.classicAddress.None? && !NextTick(e).fails)
      && (r.result == Err(StringIndexOutOfBounds) <==>
            wallet.classicAddress.Some? && |wallet.publicKey| % 2 == 1 && ReadsAreAnswered(e))
      && (r.result.Err? ==> r.result.error in {RpcFailure, NullPointer, StringIndexOutOfBounds})
      && r.env == (if NextTick(e).fails || wallet.classicAddress.None? then Arrive(e)
                   else if NextTick(Arrive(e)).fails then Arrive(Arrive(e)) else AtOpenRead(e))
      && (r.result.Ok? ==>
            var tx := r.result.value;
            IsPrepared(e, wallet, tx) && tx.memos == [] && tx.data == OtherData)
  {
    var a := Arrive(e);
    var b := Arrive(a);
    ArriveIsLater(e);
    ArriveIsLater(a);
    ArriveIsLater(b);
    LaterIsTransitive(e.node, a.node, b.node);
    LaterIsTransitive(e.node, b.node, Arrive(b).node);
    LastLedgerExactly(OpenRead(e));
    if |wallet.publicKey| % 2 == 0 { HexCodec.EncodeDecode(wallet.publicKey); }
  }

  /** The node just after it has taken the submission. */
  function Submitted(e: Env, tx: Transaction): Env {
    var arrived := Arrive(AtOpenRead(e));
    arrived.(node := Apply(arrived.node, Learn(tx, "")))
  }

  /**
   * How a submission ends, and what it leaves on the node: the prepared transaction with the data
   * and memos asked for, all its other fields as prepared.
   */
  lemma SubmittedTransaction(e: Env, wallet: Wallet, data: TransactionData, memos: seq<Memo>)
    ensures var r := PrepareAndSubmit(e, wallet, data, memos);
      && IsLater(e.node, r.env.node)
      && (r.result.Ok? <==> CanSign(wallet) && ReadsAreAnswered(e) && !NextTick(AtOpenRead(e)).fails)
      && (r.result == Err(NullPointer) <==> wallet.classicAddress.None? && !NextTick(e).fails)
      && (r.result == Err(StringIndexOutOfBounds) <==>
            wallet.classicAddress.Some? && |wallet.publicKey| % 2 == 1 && ReadsAreAnswered(e))
      && (r.result.Err? ==> r.result.error in {RpcFailure, NullPointer, StringIndexOutOfBounds})
      && (r.result.Ok? ==>
            var tx := r.result.value;
            && IsPrepared(e, wallet, tx) && tx.data == data && tx.memos == memos
            && r.env == Submitted(e, tx) && IsKnown(r.env.node, tx)
            && e.node.open <= OpenRead(e) <= r.env.node.open)
  {
    BaseTransaction(e, wallet);
    var base := PrepareBaseTransaction(e, wallet);
    if base.result.Ok? {
      var tx := base.result.value.(data := data, memos := memos);
      SubmitIsLater(base.env, tx);
      LaterKeeps(e.node, base.env.node);
      LaterKeeps(base.env.node, Submit(base.env, tx).env.node);
      LaterIsTransitive(e.node, base.env.node, Submit(base.env, tx).env.node);
    }
  }

  /** How `sendWithDetails` ends; what it submits is the payment asked for, and its memos read back as the list given. */
  lemma SentTransaction(e: Env, details: SendXrpDetails)
    ensures var r := SendWithDetails(e, details);
      && IsLater(e.node, r.env.node)
      && (r.result.Ok? <==>
            && details.destinationIsXAddress && CanSign(details.sender)
            && ReadsAreAnswered(e) && !NextTick(AtOpenRead(e)).fails)
      && (r.result == Err(XAddressRequired) <==> !details.destinationIsXAddress)
      && (r.result == Err(NullPointer) <==>
            details.destinationIsXAddress && details.sender.classicAddress.None? && !NextTick(e).fails)
      && (r.result == Err(StringIndexOutOfBounds) <==>
            && details.destinationIsXAddress && details.sender.classicAddress.Some?
            && |details.sender.publicKey| % 2 == 1 && ReadsAreAnswered(e))
      && (r.result.Err? ==> r.result.error in {RpcFailure, NullPointer, StringIndexOutOfBounds, XAddressRequired})
      && (!details.destinationIsXAddress ==> r.env == e)
      && (r.result.Ok? ==>
            var tx := r.result.value;
            && IsPrepared(e, details.sender, tx)
            && tx.data == PaymentData(PaymentFor(details)) && Memos.FromAll(tx.memos) == details.memosList.GetOr([])
            && r.env == Submitted(e, tx) && IsKnown(r.env.node, tx)
            && e.node.open <= OpenRead(e) <= r.env.node.open)
  {
    LaterByMoves(e.node, []);
    SubmittedTransaction(e, details.sender, PaymentData(PaymentFor(details)), Memos.WireMemos(details.memosList));
    Memos.WireRoundTrip(details.memosList);
  }

  /** The payment on the wire holds the amount modulo 2^64: all of it exactly on the range of `long`. */
  lemma PaymentCarriesAmount(details: SendXrpDetails)
    ensures var p := PaymentFor(details);
      && p.destination == Some(details.destination) && p.amount.XrpAmount?
      && p.destinationTag.None? && p.deliverMin.None? && p.sendMax.None?
      && (p.amount.drops - details.amount) % TWO_64 == 0
      && (p.amount.drops == details.amount <==> -TWO_63 <= details.amount < TWO_63)
  {
    LongValueIsTheCongruentLong(details.amount, LongValue(details.amount));
    var k := (details.amount - LongValue(details.amount)) / TWO_64;
    assert LongValue(details.amount) - details.amount == TWO_64 * -k;
  }

  /** The transaction whose hash a reliable send returns is the payment asked for, with every memo, as prepared from the sender. */
  lemma SentTransactionCarriesDetails(e: Env, details: SendXrpDetails, budget: Budget)
    requires SendReliably(e, details, budget).result.Ok?
    ensures var tx := SendReliably(e, details, budget).result.value;
      && tx.data == PaymentData(PaymentFor(details)) && Memos.FromAll(tx.memos) == details.memosList.GetOr([])
      && IsPrepared(e, details.sender, tx)
  {
    hide AwaitFinalTransactionResult, SendWithDetails;
    SentTransaction(e, details);
  }

  // ---- Permanence ----

  /** The hash a reliable send returns, if any, names a payment whose answer never changes again. */
  ghost predicate Settles(e: Env, details: SendXrpDetails, budget: Budget) {
    var r := SendReliably(e, details, budget);
    r.result.Ok? ==> AlwaysAnswers(r.env.node, r.result.value, LedgerStatus(r.env.node, r.result.value))
  }

  /**
   * Permanence: when a reliable send returns a hash, the payment's status is the ledger's, and no
   * continuation of the run ever gives another answer; a payment not included by then never will
   * be. It takes no more than a right comparison of indices at the moment of submission.
   */
  lemma SendIsIrreversible(e: Env, details: SendXrpDetails, budget: Budget)
    requires Valid(e.node)
    ensures var r := SendReliably(e, details, budget);
      r.result.Ok? && ComparesRight(SendWithDetails(e, details).env.node, r.result.value) ==>
        && Settles(e, details, budget)
        && (InclusionOf(r.env.node, r.result.value).None? ==> NeverIncluded(r.env.node, r.result.value))
  {
    SentTransaction(e, details);
    var sent := SendWithDetails(e, details);
    if sent.result.Ok? && ComparesRight(sent.env.node, sent.result.value) {
      var tx := sent.result.value;
      LaterKeeps(e.node, sent.env.node);
      AwaitIsFinal(sent.env, tx, details.sender, budget);
      var final := AwaitFinalTransactionResult(sent.env, tx, details.sender, budget);
      if final.result.Ok? {
        FinalAnswersForever(final.env.node, tx, final.result.value);
      }
    }
  }

  /** The exit for a missing last ledger: taken exactly when the open index read was 2^32 - 10 and the first status came. */
  lemma NoLastLedgerExactly(e: Env, details: SendXrpDetails, budget: Budget)
    ensures var sent := SendWithDetails(e, details);
      SendReliably(e, details, budget).result == Err(NoLastLedgerSequence) <==>
        && sent.result.Ok? && OpenRead(e) == TWO_32 - 10
        && budget.initial > 0 && GetRawTransactionStatus(sent.env, sent.result.value).result.Ok?
  {
    hide AwaitFinalTransactionResult, GetRawTransactionStatus, SendWithDetails;
    SentTransaction(e, details);
    var sent := SendWithDetails(e, details);
    if sent.result.Ok? {
      AwaitMoves(sent.env, sent.result.value, details.sender, budget);
    }
  }

  // ---- Permanence, exactly ----

  /** The same environment with more of the script to come. */
  function Then(e: Env, after: seq<Tick>): Env { e.(script := e.script + after) }

  lemma ArriveThen(e: Env, after: seq<Tick>)
    requires e.script != []
    ensures Arrive(Then(e, after)) == Then(Arrive(e), after) && NextTick(Then(e, after)) == NextTick(e)
  {
    assert (e.script + after)[1..] == e.script[1..] + after;
  }

  /** A submission makes four RPCs; what comes after them does not affect it. */
  lemma SubmissionThen(e: Env, after: seq<Tick>, wallet: Wallet, data: TransactionData, memos: seq<Memo>)
    requires |e.script| == 4 && PrepareAndSubmit(e, wallet, data, memos).result.Ok?
    ensures var r := PrepareAndSubmit(e, wallet, data, memos);
      r.env.script == [] && PrepareAndSubmit(Then(e, after), wallet, data, memos) == Ran(Env(r.env.node, after), r.result)
  {
    var a := Arrive(e);
    var b := Arrive(a);
    var c := Arrive(b);
    ArriveThen(e, after);
    ArriveThen(a, after);
    ArriveThen(b, after);
    ArriveThen(c, after);
    assert Arrive(c).script == [];
    assert [] + after == after;
  }

  lemma SendThen(e: Env, after: seq<Tick>, details: SendXrpDetails)
    requires |e.script| == 4 && SendWithDetails(e, details).result.Ok?
    ensures var sent := SendWithDetails(e, details);
      SendWithDetails(Then(e, after), details) == Ran(Env(sent.env.node, after), sent.result)
  {
    hide PrepareAndSubmit;
    SubmissionThen(e, after, details.sender, PaymentData(PaymentFor(details)), Memos.WireMemos(details.memosList));
  }

  /**
   * Exactly when a send settles: whatever led up to the submission, every continuation of the call
   * settles if and only if the indices compare right on the node it was submitted to.
   */
  lemma SendSettlesExactly(e: Env, details: SendXrpDetails, budget: Budget)
    requires Valid(e.node) && |e.script| == 4 && SendWithDetails(e, details).result.Ok?
    requires budget.initial > 0 && budget.final > 0
    ensures var sent := SendWithDetails(e, details);
      (forall after :: Settles(Then(e, after), details, budget)) <==> ComparesRight(sent.env.node, sent.result.value)
  {
    hide SendWithDetails, AwaitFinalTransactionResult, AlwaysAnswers, NeverIncluded;
    var sent := SendWithDetails(e, details);
    var tx := sent.result.value;
    SentTransaction(e, details);
    LaterKeeps(e.node, sent.env.node);
    if ComparesRight(sent.env.node, tx) {
      forall after ensures Settles(Then(e, after), details, budget) {
        SendThen(e, after, details);
        SendIsIrreversible(Then(e, after), details, budget);
      }
    } else {
      var after := EarlyEnd(sent.env.node, tx, details.sender, budget);
      SendThen(e, after, details);
      var r := SendReliably(Then(e, after), details, budget);
      PendingForeverExactly(r.env.node, tx);
      assert !Settles(Then(e, after), details, budget);
    }
  }

  /** No transaction of this account with this sequence number is in a validated ledger. */
  predicate IsUnused(n: Node, account: string, sequence: Uint32) {
    forall tx | tx in n.records && tx.account == account && tx.sequence == sequence :: n.records[tx].inclusion.None?
  }

  lemma {:induction false} OpenUpTo(n: Node, target: Uint32) returns (events: seq<Event>)
    requires n.open <= target
    ensures Run(n, events) == n.(open := target)
    decreases target - n.open
  {
    events := [];
    if n.open < target {
      var rest := OpenUpTo(Apply(n, OpenNext), target);
      events := [OpenNext] + rest;
      assert events[1..] == rest;
    }
  }

  const QUIET := Tick([], false, 0, 0)

  /** A run in which the submission reads the chosen open index and sequence number, and the node then rests. */
  lemma SubmissionAt(n: Node, target: Uint32, sequence: Uint32, wallet: Wallet, data: TransactionData, memos: seq<Memo>)
    returns (e: Env)
    requires n.open <= target && CanSign(wallet)
    ensures e.node == n && |e.script| == 4 && OpenRead(e) == target
    ensures var r := PrepareAndSubmit(e, wallet, data, memos);
      && r.result.Ok? && r.env.node.validated == n.validated && r.env.node.open == target
      && (IsUnused(n, wallet.classicAddress.value, sequence) ==> InclusionOf(r.env.node, r.result.value).None?)
  {
    var opening := OpenUpTo(n, target);
    var numbered := QUIET.(sequence := sequence);
    e := Env(n, [QUIET.(events := opening), numbered, QUIET, QUIET]);
    var m := n.(open := target);
    assert Arrive(e) == Env(m, [numbered, QUIET, QUIET]);
    assert Arrive(Arrive(e)) == Env(m, [QUIET, QUIET]);
    assert Arrive(Arrive(Arrive(e))) == Env(m, [QUIET]);
    assert Arrive(Env(m, [QUIET])) == Env(m, []);
    BaseTransaction(e, wallet);
  }

  /** Java's signed numbers order all ledger indices right that a call from here can meet. */
  predicate AreSafeIndices(n: Node) { n.validated >= TWO_31 || n.open >= TWO_32 - 10 }

  lemma SafeIndicesCompare(e: Env, wallet: Wallet, data: TransactionData, memos: seq<Memo>)
    requires AreSafeIndices(e.node) && PrepareAndSubmit(e, wallet, data, memos).result.Ok?
    ensures var r := PrepareAndSubmit(e, wallet, data, memos); ComparesRight(r.env.node, r.result.value)
  {
    SubmittedTransaction(e, wallet, data, memos);
    var r := PrepareAndSubmit(e, wallet, data, memos);
    LaterKeeps(e.node, r.env.node);
  }

  /**
   * Before the call: every run of it settles if and only if the validated ledgers have reached 2^31
   * or the open one 2^32 - 10; from any other node the open index can rise to 2^31 - 10 before the
   * call reads it, while the validated ledgers stay behind.
   */
  lemma EverySendSettlesExactly(n: Node, details: SendXrpDetails, budget: Budget, sequence: Uint32)
    requires Valid(n) && details.destinationIsXAddress && CanSign(details.sender)
    requires budget.initial > 0 && budget.final > 0
    requires IsUnused(n, details.sender.classicAddress.value, sequence)
    ensures (forall script :: Settles(Env(n, script), details, budget)) <==> AreSafeIndices(n)
  {
    var data, memos := PaymentData(PaymentFor(details)), Memos.WireMemos(details.memosList);
    hide PrepareAndSubmit, AwaitFinalTransactionResult, AlwaysAnswers;
    if AreSafeIndices(n) {
      forall script ensures Settles(Env(n, script), details, budget) {
        var e := Env(n, script);
        if SendWithDetails(e, details).result.Ok? { SafeIndicesCompare(e, details.sender, data, memos); }
        SendIsIrreversible(e, details, budget);
      }
    } else {
      var target := if n.open < TWO_31 - 10 then TWO_31 - 10 else n.open;
      var e := SubmissionAt(n, target, sequence, details.sender, data, memos);
      SentTransaction(e, details);
      SendSettlesExactly(e, details, budget);
      var after :| !Settles(Then(e, after), details, budget);
      assert Then(e, after) == Env(n, e.script + after);
    }
  }

  /** Before the call: some run of it takes the exit for a missing last ledger, unless the open index has passed 2^32 - 10. */
  lemma NoRunLacksLastLedgerExactly(n: Node, details: SendXrpDetails, budget: Budget)
    requires details.destinationIsXAddress && CanSign(details.sender) && budget.initial > 0
    ensures (forall script :: SendReliably(Env(n, script), details, budget).result != Err(NoLastLedgerSequence)) <==>
      n.open > TWO_32 - 10
  {
    hide AwaitFinalTransactionResult, PrepareAndSubmit;
    if n.open > TWO_32 - 10 {
      forall script ensures SendReliably(Env(n, script), details, budget).result != Err(NoLastLedgerSequence) {
        SentTransaction(Env(n, script), details);
        NoLastLedgerExactly(Env(n, script), details, budget);
      }
    } else {
      var data, memos := PaymentData(PaymentFor(details)), Memos.WireMemos(details.memosList);
      var e := SubmissionAt(n, TWO_32 - 10, 0, details.sender, data, memos);
      SubmissionThen(e, [], details.sender, data, memos);
      SentTransaction(e, details);
      var sent := SendWithDetails(e, details);
      assert Arrive(sent.env) == sent.env;
      RawStatusIsTrue(sent.env, sent.result.value);
      NoLastLedgerExactly(e, details, budget);
      assert e == Env(n, e.script);
    }
  }
}
