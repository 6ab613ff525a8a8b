/** How the polling loop ends, and how soon. */
module BoundedPolling {
  import opened Wrappers
  import opened Words
  import opened Proto
  import opened Ledger
  import opened Rpc
  import opened Submission
  import opened Finality
  import opened Sending

  /** The environment after `count` RPCs that only read. */
  function After(e: Env, count: nat): Env
    decreases count
  {
    if count == 0 then e else After(Arrive(e), count - 1)
  }

  /** What the poll numbered `k` answers, if the loop gets that far. */
  function PollAt(e: Env, tx: Transaction, last: Int32, k: nat): Result<Option<RawTransactionStatus>, Failure> {
    Poll(After(e, 2 * k), tx, last).result
  }

  /** The polls before number `k` all answer null. */
  predicate NullBefore(e: Env, tx: Transaction, last: Int32, k: nat) {
    forall j: nat | j < k :: PollAt(e, tx, last, j) == Ok(None)
  }

  /** Two reads to a poll, so the polls of the rest of a run are the later polls of the run. */
  lemma ShiftPolls(e: Env, tx: Transaction, last: Int32, k: nat)
    requires Poll(e, tx, last).result == Ok(None)
    ensures PollAt(Poll(e, tx, last).env, tx, last, k) == PollAt(e, tx, last, k + 1)
    ensures NullBefore(e, tx, last, k + 1) <==> NullBefore(Poll(e, tx, last).env, tx, last, k)
  {
    var f := Poll(e, tx, last).env;
    assert f == Arrive(Arrive(e));
    forall j: nat ensures PollAt(f, tx, last, j) == PollAt(e, tx, last, j + 1) {
      assert After(e, 2 * (j + 1)) == After(Arrive(e), 2 * j + 1) == After(f, 2 * j);
    }
    assert PollAt(e, tx, last, 0) == Ok(None);
    if NullBefore(f, tx, last, k) {
      forall j: nat | j < k + 1 ensures PollAt(e, tx, last, j) == Ok(None) {
        if j > 0 { assert PollAt(f, tx, last, j - 1) == Ok(None); }
      }
    }
    if NullBefore(e, tx, last, k + 1) {
      forall j: nat | j < k ensures PollAt(f, tx, last, j) == Ok(None) {
        assert PollAt(e, tx, last, j + 1) == Ok(None);
      }
    }
  }

  lemma AfterPoll(e: Env, tx: Transaction, last: Int32, k: nat)
    requires k > 0 && Poll(e, tx, last).result.Ok?
    ensures After(e, 2 * k) == After(Poll(e, tx, last).env, 2 * (k - 1))
  {
    assert After(e, 2 * k) == After(Arrive(e), 2 * k - 1) == After(Arrive(Arrive(e)), 2 * k - 2);
  }

  lemma FirstPoll(e: Env, tx: Transaction, last: Int32)
    ensures After(e, 2 * 0) == e && PollAt(e, tx, last, 0) == Poll(e, tx, last).result
  {
  }

  /**
   * The loop stops at the first poll that does not answer null, with what that poll answered and
   * after exactly its two reads (one if the first of them failed); without one it times out.
   */
  lemma {:induction false} StopsAtFirstAnswer(e: Env, tx: Transaction, last: Int32, polls: nat, k: nat)
    requires k <= polls && NullBefore(e, tx, last, k)
    requires k < polls ==> PollAt(e, tx, last, k) != Ok(None)
    ensures var r := PollUntil(e, tx, last, polls);
      if k == polls then r == Ran(After(e, 2 * polls), Err(TimedOut))
      else
        && r.env == Poll(After(e, 2 * k), tx, last).env
        && r.result == (match PollAt(e, tx, last, k) case Ok(s) => Ok(s.value) case Err(f) => Err(f))
    decreases polls
  {
    hide Poll, PollAt, After;
    FirstPoll(e, tx, last);
    if k > 0 {
      var f := Poll(e, tx, last).env;
      assert PollAt(e, tx, last, 0) == Ok(None);
      AfterPoll(e, tx, last, k);
      AfterPoll(e, tx, last, polls);
      ShiftPolls(e, tx, last, k - 1);
      StopsAtFirstAnswer(f, tx, last, polls - 1, k - 1);
    }
  }

  lemma {:induction false} FirstAnswer(e: Env, tx: Transaction, last: Int32, limit: nat) returns (k: nat)
    requires PollAt(e, tx, last, limit) != Ok(None)
    ensures k <= limit && NullBefore(e, tx, last, k) && PollAt(e, tx, last, k) != Ok(None)
    decreases limit
  {
    if j: nat :| j < limit && PollAt(e, tx, last, j) != Ok(None) {
      k := FirstAnswer(e, tx, last, j);
    } else {
      k := limit;
    }
  }

  lemma PollErrors(e: Env, tx: Transaction, last: Int32, k: nat)
    ensures PollAt(e, tx, last, k).Err? ==> PollAt(e, tx, last, k).error == RpcFailure
  {
  }

  /** The loop times out exactly when every poll of its budget answers null. */
  lemma TimesOutExactly(e: Env, tx: Transaction, last: Int32, polls: nat)
    ensures PollUntil(e, tx, last, polls).result == Err(TimedOut) <==> NullBefore(e, tx, last, polls)
  {
    hide PollUntil, PollAt;
    if NullBefore(e, tx, last, polls) {
      StopsAtFirstAnswer(e, tx, last, polls, polls);
    } else {
      var j: nat :| j < polls && PollAt(e, tx, last, j) != Ok(None);
      var k := FirstAnswer(e, tx, last, j);
      StopsAtFirstAnswer(e, tx, last, polls, k);
      PollErrors(e, tx, last, k);
    }
  }

  // ---- Progress ----

  /** The validated index that poll `k` reads. */
  function IndexSeen(e: Env, k: nat): Uint32 { After(e, 2 * k + 1).node.validated }

  /** The transaction is included when poll `k` reads its status. */
  predicate IncludedAt(e: Env, tx: Transaction, k: nat) { InclusionOf(After(e, 2 * k + 2).node, tx).Some? }

  /** Both reads of each of the first `n` polls are answered. */
  predicate Answered(e: Env, tx: Transaction, n: nat) {
    && (forall i: nat | i < 2 * n :: !NextTick(After(e, i)).fails)
    && (forall k: nat | k < n :: IsKnown(After(e, 2 * k + 2).node, tx))
  }

  /** The first `n` polls are answered, and the index advances between them. */
  ghost predicate Advancing(e: Env, tx: Transaction, n: nat) {
    Answered(e, tx, n) && forall k: nat | k + 1 < n :: IndexSeen(e, k) < IndexSeen(e, k + 1)
  }

  /** It advances by one each time, and the transaction is not included. */
  ghost predicate Steady(e: Env, tx: Transaction, n: nat) {
    && Answered(e, tx, n)
    && (forall k: nat | k < n :: IndexSeen(e, k) == IndexSeen(e, 0) + k)
    && (forall k: nat | k < n :: !IncludedAt(e, tx, k))
  }

  lemma {:induction false} IndexSeenGrows(e: Env, tx: Transaction, n: nat, j: nat, k: nat)
    requires Advancing(e, tx, n) && j <= k < n
    ensures IndexSeen(e, k) >= IndexSeen(e, j) + (k - j)
    decreases k
  {
    if k > j {
      IndexSeenGrows(e, tx, n, j, k - 1);
      assert IndexSeen(e, k - 1) < IndexSeen(e, k - 1 + 1);
    }
  }

  lemma {:induction false} AfterStep(e: Env, i: nat)
    ensures After(e, i + 1) == Arrive(After(e, i))
    decreases i
  {
    if i > 0 { AfterStep(Arrive(e), i - 1); }
  }

  /** What poll `k` needs to end the wait. */
  predicate EndsWait(e: Env, tx: Transaction, last: Int32, k: nat) {
    AsInt32(IndexSeen(e, k)) > last || IncludedAt(e, tx, k)
  }

  lemma AnsweredPoll(e: Env, tx: Transaction, last: Int32, n: nat, k: nat)
    requires Answered(e, tx, n) && k < n
    ensures PollAt(e, tx, last, k).Ok? && (PollAt(e, tx, last, k).value.Some? <==> EndsWait(e, tx, last, k))
  {
    AfterStep(e, 2 * k);
    AfterStep(e, 2 * k + 1);
    assert !NextTick(After(e, 2 * k)).fails && !NextTick(After(e, 2 * k + 1)).fails;
    assert IsKnown(After(e, 2 * k + 2).node, tx);
    PollEndsExactly(After(e, 2 * k), tx, last);
  }

  lemma AnswersWithin(e: Env, tx: Transaction, last: Int32, polls: nat, n: nat, j: nat)
    requires j < n <= polls && Answered(e, tx, n) && EndsWait(e, tx, last, j)
    ensures PollUntil(e, tx, last, polls).result.Ok?
    ensures exists k :: 0 <= k < n && PollUntil(e, tx, last, polls).env == After(e, 2 * k + 2)
  {
    hide PollUntil, Answered, EndsWait;
    AnsweredPoll(e, tx, last, n, j);
    var k := FirstAnswer(e, tx, last, j);
    AnsweredPoll(e, tx, last, n, k);
    StopsAtFirstAnswer(e, tx, last, polls, k);
    AfterStep(e, 2 * k);
    AfterStep(e, 2 * k + 1);
  }

  /** While its reads are answered, the loop returns a status exactly when some poll sees the expiry or the inclusion. */
  lemma AnswersExactly(e: Env, tx: Transaction, last: Int32, polls: nat)
    requires Answered(e, tx, polls)
    ensures PollUntil(e, tx, last, polls).result.Ok? <==> exists k: nat | k < polls :: EndsWait(e, tx, last, k)
    ensures PollUntil(e, tx, last, polls).result.Err? ==> PollUntil(e, tx, last, polls).result.error == TimedOut
  {
    hide PollUntil, PollAt, Answered, EndsWait;
    if j: nat :| j < polls && EndsWait(e, tx, last, j) {
      AnswersWithin(e, tx, last, polls, polls, j);
    } else {
      forall j: nat | j < polls ensures PollAt(e, tx, last, j) == Ok(None) {
        AnsweredPoll(e, tx, last, polls, j);
      }
      TimesOutExactly(e, tx, last, polls);
    }
  }

  /** One of the first `bound` polls can see that ledger `last` has passed: the index it reads is ahead and still a positive `int`. */
  predicate SeesExpiry(e: Env, last: Uint32, bound: nat) {
    last >= TWO_31 || exists k: nat | k < bound :: last < IndexSeen(e, k) < TWO_31
  }

  /**
   * Bounded polling: if the validated index advances between polls, the loop returns a status
   * exactly when it meets the inclusion or sees the expiry, and the latter happens within
   * `last - first + 2` polls or not at all, where `first` is the index its first poll reads.
   */
  lemma EndsInTime(e: Env, tx: Transaction, last: Uint32, polls: nat, bound: nat)
    requires bound == if last < IndexSeen(e, 0) then 1 else last - IndexSeen(e, 0) + 2
    requires bound <= polls && Advancing(e, tx, polls)
    ensures var r := PollUntil(e, tx, AsInt32(last), polls);
      && (r.result.Ok? <==> SeesExpiry(e, last, bound) || exists k: nat | k < polls :: IncludedAt(e, tx, k))
      && (SeesExpiry(e, last, bound) ==> exists k :: 0 <= k < bound && r.env == After(e, 2 * k + 2))
  {
    hide PollUntil, PollAt, Answered, After, IndexSeen, IncludedAt;
    AnswersExactly(e, tx, AsInt32(last), polls);
    assert forall k: nat | k < polls && IncludedAt(e, tx, k) :: EndsWait(e, tx, AsInt32(last), k);
    IndexSeenGrows(e, tx, polls, 0, bound - 1);
    if SeesExpiry(e, last, bound) {
      var j: nat :| j < bound && AsInt32(IndexSeen(e, j)) > AsInt32(last) by {
        assert last >= TWO_31 ==>
          AsInt32(IndexSeen(e, 0)) > AsInt32(last) || AsInt32(IndexSeen(e, bound - 1)) > AsInt32(last);
      }
      FirstPolls(e, tx, polls, bound);
      AnswersWithin(e, tx, AsInt32(last), polls, bound, j);
    } else if k: nat :| k < polls && AsInt32(IndexSeen(e, k)) > AsInt32(last) {
      if k >= bound { IndexSeenGrows(e, tx, polls, bound - 1, k); }
      assert !(last < IndexSeen(e, bound - 1) < TWO_31);
    }
  }

  lemma FirstPolls(e: Env, tx: Transaction, polls: nat, n: nat)
    requires Answered(e, tx, polls) && n <= polls
    ensures Answered(e, tx, n)
  {
  }

  /** The signed comparison sees ledger `last` pass when the index counts up from `first`. */
  predicate IsSeenFrom(last: Uint32, first: Uint32) { last != TWO_31 - 1 && !(last < TWO_31 <= first) }

  /**
   * With an index that counts up one by one and a transaction that is never included, the loop
   * returns a status if and only if the last ledger is not 2^31 - 1, which no `int` exceeds, nor
   * below 2^31 when the first index read is not.
   */
  lemma EndsExactly(e: Env, tx: Transaction, last: Uint32, polls: nat, bound: nat)
    requires bound == if last < IndexSeen(e, 0) then 1 else last - IndexSeen(e, 0) + 2
    requires bound <= polls && Steady(e, tx, polls)
    ensures PollUntil(e, tx, AsInt32(last), polls).result.Ok? <==> IsSeenFrom(last, IndexSeen(e, 0))
  {
    hide PollUntil, Answered, After, IndexSeen, IncludedAt;
    SteadyAdvances(e, tx, polls);
    EndsInTime(e, tx, last, polls, bound);
    assert IndexSeen(e, bound - 1) == IndexSeen(e, 0) + (bound - 1);
  }

  lemma SteadyAdvances(e: Env, tx: Transaction, polls: nat)
    requires Steady(e, tx, polls)
    ensures Advancing(e, tx, polls)
  {
  }

  // ---- The bound is reached ----

  /** A node that closes one empty ledger before each poll, as a script for so many polls. */
  lemma {:induction false} ClosingRun(n: Node, tx: Transaction, polls: nat) returns (e: Env)
    requires Valid(n) && n.validated + polls + 1 < TWO_32
    ensures e.node == n
    ensures forall i: nat | i <= 2 * polls ::
      After(e, i).node.validated == n.validated + (i + 1) / 2 && After(e, i).node.records == n.records
    ensures forall i: nat | i < 2 * polls :: !NextTick(After(e, i)).fails
    decreases polls
  {
    if polls == 0 {
      e := Env(n, []);
    } else {
      var closing := CloseUpTo(n, n.validated + 1);
      var m := Run(n, closing);
      RunIsValid(n, closing);
      var rest := ClosingRun(m, tx, polls - 1);
      var first := QUIET.(events := closing);
      e := Env(n, [first, QUIET] + rest.script);
      assert e.script[1..] == [QUIET] + rest.script && e.script[1..][1..] == rest.script;
      assert Arrive(e) == Env(m, [QUIET] + rest.script) && Arrive(Arrive(e)) == rest;
      forall i: nat ensures After(e, i) == if i == 0 then e else if i == 1 then Arrive(e) else After(rest, i - 2) {
        if i >= 2 { assert After(e, i) == After(Arrive(e), i - 1) == After(rest, i - 2); }
      }
    }
  }

  /** From every node that knows the transaction outside its ledgers, some run is steady. */
  lemma SteadyRun(n: Node, tx: Transaction, polls: nat) returns (e: Env)
    requires Valid(n) && IsKnown(n, tx) && InclusionOf(n, tx).None? && n.validated + polls + 1 < TWO_32
    ensures e.node == n && Steady(e, tx, polls) && (polls > 0 ==> IndexSeen(e, 0) == n.validated + 1)
  {
    e := ClosingRun(n, tx, polls);
    hide After;
  }

  /** The bound is tight: in every steady run the poll before the last answers null. */
  lemma BoundIsTight(e: Env, tx: Transaction, last: Uint32, polls: nat)
    requires IndexSeen(e, 0) <= last < TWO_31 && polls == last - IndexSeen(e, 0) + 1 && Steady(e, tx, polls)
    ensures PollUntil(e, tx, AsInt32(last), polls).result == Err(TimedOut)
  {
    hide PollUntil, Answered, IndexSeen, IncludedAt;
    AnswersExactly(e, tx, AsInt32(last), polls);
  }

  /** And it is reached: in some run from every node that knows the transaction, with one poll less the loop times out. */
  lemma BoundIsReached(n: Node, tx: Transaction, last: Uint32) returns (e: Env)
    requires Valid(n) && IsKnown(n, tx) && InclusionOf(n, tx).None? && n.validated < last < TWO_31 - 1
    ensures e.node == n
    ensures var bound := last - IndexSeen(e, 0) + 2;
      && bound > 1
      && PollUntil(e, tx, AsInt32(last), bound - 1).result == Err(TimedOut)
      && PollUntil(e, tx, AsInt32(last), bound).result.Ok?
  {
    hide PollUntil, Answered, After, IncludedAt, IndexSeen;
    var bound := last - n.validated + 1;
    e := SteadyRun(n, tx, bound);
    EndsExactly(e, tx, last, bound, bound);
    FirstPolls(e, tx, bound, bound - 1);
    BoundIsTight(e, tx, last, bound - 1);
  }

  // ---- A whole call ----

  /** The environment in which the loop of a reliable send starts: after the submission and one status read. */
  function AtFirstPoll(e: Env, details: SendXrpDetails): Env { Arrive(SendWithDetails(e, details).env) }

  /** The submission and the first status read are answered, so that the loop is reached. */
  predicate ReachesLoop(e: Env, details: SendXrpDetails, budget: Budget) {
    var sent := SendWithDetails(e, details);
    sent.result.Ok? && budget.initial > 0 && GetRawTransactionStatus(sent.env, sent.result.value).result.Ok?
  }

  /** The last ledger of what a send submits. */
  function LastLedgerRead(e: Env): Uint32 { (OpenRead(e) + 10) % TWO_32 }

  lemma SendIsLoop(e: Env, details: SendXrpDetails, budget: Budget)
    requires ReachesLoop(e, details, budget)
    ensures var tx, r := SendWithDetails(e, details).result.value, SendReliably(e, details, budget);
      && tx.lastLedgerSequence == Some(LastLedgerRead(e))
      && (r.result.Ok? ==> r.result.value == tx)
      && (r.result.Ok? <==>
            && LastLedgerRead(e) != 0
            && PollUntil(AtFirstPoll(e, details), tx, AsInt32(LastLedgerRead(e)), budget.final).result.Ok?)
  {
    hide SendWithDetails, PollUntil;
    SentTransaction(e, details);
    var sent := SendWithDetails(e, details);
    RawStatusIsTrue(sent.env, sent.result.value);
  }

  /**
   * If the validated index advances between polls, a reliable send returns its hash exactly when
   * its last ledger reads as one and the loop meets the inclusion or sees the expiry, the latter
   * within `last - first + 2` polls or not at all.
   */
  lemma SendEndsInTime(e: Env, details: SendXrpDetails, budget: Budget, bound: nat)
    requires ReachesLoop(e, details, budget)
    requires var last, first := LastLedgerRead(e), IndexSeen(AtFirstPoll(e, details), 0);
      && bound == (if last < first then 1 else last - first + 2) && bound <= budget.final
    requires Advancing(AtFirstPoll(e, details), SendWithDetails(e, details).result.value, budget.final)
    ensures var w, tx := AtFirstPoll(e, details), SendWithDetails(e, details).result.value;
      SendReliably(e, details, budget).result.Ok? <==>
        && LastLedgerRead(e) != 0
        && (SeesExpiry(w, LastLedgerRead(e), bound) || exists k: nat | k < budget.final :: IncludedAt(w, tx, k))
    ensures var sent, r := SendWithDetails(e, details), SendReliably(e, details, budget);
      r.result.Ok? ==>
        && r.result == sent.result
        && (Valid(e.node) && ComparesRight(sent.env.node, sent.result.value) ==>
              AlwaysAnswers(r.env.node, r.result.value, LedgerStatus(r.env.node, r.result.value)))
  {
    hide PollUntil, SendReliably, SendWithDetails, AtFirstPoll, Advancing, SeesExpiry, IncludedAt;
    if Valid(e.node) { SendIsIrreversible(e, details, budget); }
    SendIsLoop(e, details, budget);
    EndsInTime(AtFirstPoll(e, details), SendWithDetails(e, details).result.value, LastLedgerRead(e), budget.final, bound);
  }

  /**
   * With an index that counts up one by one and a payment that is never included, a reliable send
   * returns its hash, within the bound, unless its last ledger reads as none, is 2^31 - 1, or is
   * below 2^31 when the first index read is not, as it always is for the wrapped ones.
   */
  lemma SendEndsExactly(e: Env, details: SendXrpDetails, budget: Budget, bound: nat)
    requires ReachesLoop(e, details, budget)
    requires var last, first := LastLedgerRead(e), IndexSeen(AtFirstPoll(e, details), 0);
      && bound == (if last < first then 1 else last - first + 2) && bound <= budget.final
    requires Steady(AtFirstPoll(e, details), SendWithDetails(e, details).result.value, budget.final)
    ensures SendReliably(e, details, budget).result.Ok? <==>
      && OpenRead(e) != TWO_32 - 10 && OpenRead(e) != TWO_31 - 11
      && !(LastLedgerRead(e) < TWO_31 <= IndexSeen(AtFirstPoll(e, details), 0))
  {
    hide PollUntil, SendReliably, SendWithDetails, AtFirstPoll, Steady;
    SendIsLoop(e, details, budget);
    EndsExactly(AtFirstPoll(e, details), SendWithDetails(e, details).result.value, LastLedgerRead(e), budget.final, bound);
  }

  /** Every way a reliable send can end without a hash. */
  lemma SendFailures(e: Env, details: SendXrpDetails, budget: Budget)
    requires SendReliably(e, details, budget).result.Err?
    ensures SendReliably(e, details, budget).result.error in
      {RpcFailure, TimedOut, NoLastLedgerSequence, XAddressRequired, NullPointer, StringIndexOutOfBounds}
    ensures SendReliably(e, details, budget).result.error == XAddressRequired <==> !details.destinationIsXAddress
    ensures SendReliably(e, details, budget).result.error in {NullPointer, StringIndexOutOfBounds} ==> !CanSign(details.sender)
  {
    hide SendWithDetails, PollUntil;
    SentTransaction(e, details);
    BaseTransaction(e, details.sender);
    var sent := SendWithDetails(e, details);
    if sent.result.Ok? {
      var initial := InitialStatus(sent.env, sent.result.value, budget.initial);
      RawStatusIsTrue(sent.env, sent.result.value);
      if initial.result.Ok? {
        PollUntilMoves(initial.env, sent.result.value, initial.result.value.lastLedgerSequence, budget.final);
      }
    }
  }
}
