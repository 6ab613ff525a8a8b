/**
 * The remote node as a state machine. It closes ledgers one at a time; a transaction may enter a
 * validated ledger only while that ledger's index is at most its `lastLedgerSequence`.
 */
module Ledger {
  import opened Wrappers
  import opened Words
  import opened Proto

  datatype Inclusion = Inclusion(ledger: Uint32, result: string)

  /** What the node holds of a transaction. Until it is included, the node may forget it and learn it again. */
  datatype Record = Record(known: bool, provisional: string, inclusion: Option<Inclusion>)

  /** `validated` and `open` are the indices of the last validated and of the current open ledger. */
  datatype Node = Node(validated: Uint32, open: Uint32, records: map<Transaction, Record>)

  datatype Event =
    | OpenNext
    | Validate(results: map<Transaction, string>)
    | Learn(tx: Transaction, provisional: string)
    | Forget(tx: Transaction)

  function InclusionOf(n: Node, tx: Transaction): Option<Inclusion> {
    if tx in n.records then n.records[tx].inclusion else None
  }

  /** The documented meaning of `lastLedgerSequence`; without one there is no limit. */
  predicate MayEnter(tx: Transaction, index: Uint32) {
    tx.lastLedgerSequence.Some? ==> index <= tx.lastLedgerSequence.value
  }

  /** A record after ledger `index` has closed with these results. */
  function Closed(tx: Transaction, record: Record, index: Uint32, results: map<Transaction, string>): Record {
    if tx in results && record.inclusion.None? && MayEnter(tx, index)
    then record.(inclusion := Some(Inclusion(index, results[tx])))
    else record
  }

  function Apply(n: Node, e: Event): Node {
    match e
    case OpenNext => if n.open + 1 < TWO_32 then n.(open := n.open + 1) else n
    case Validate(results) =>
      if n.validated + 1 < n.open then
        Node(n.validated + 1, n.open,
          map tx | tx in n.records :: Closed(tx, n.records[tx], n.validated + 1, results))
      else n
    case Learn(tx, provisional) =>
      n.(records := n.records[tx := Record(true, provisional, InclusionOf(n, tx))])
    case Forget(tx) =>
      if tx in n.records then n.(records := n.records[tx := n.records[tx].(known := false)]) else n
  }

  function Run(n: Node, events: seq<Event>): Node
    decreases events
  {
    if events == [] then n else Run(Apply(n, events[0]), events[1..])
  }

  /** Indices are ordered, and every inclusion is in a validated ledger that its transaction may enter. */
  ghost predicate Valid(n: Node) {
    n.validated < n.open
    && forall tx | tx in n.records && n.records[tx].inclusion.Some? ::
         n.records[tx].inclusion.value.ledger <= n.validated && MayEnter(tx, n.records[tx].inclusion.value.ledger)
  }

  // ---- Every run ----

  lemma {:induction false} RunIsValid(n: Node, events: seq<Event>)
    requires Valid(n)
    ensures Valid(Run(n, events))
    decreases events
  {
    if events != [] {
      RunIsValid(Apply(n, events[0]), events[1..]);
    }
  }

  lemma {:induction false} RunAppend(n: Node, a: seq<Event>, b: seq<Event>)
    ensures Run(Run(n, a), b) == Run(n, a + b)
    decreases a
  {
    if a == [] {
      assert a + b == b;
    } else {
      RunAppend(Apply(n, a[0]), a[1..], b);
      assert (a + b)[1..] == a[1..] + b;
    }
  }

  lemma {:induction false} IndicesGrow(n: Node, events: seq<Event>)
    ensures n.validated <= Run(n, events).validated && n.open <= Run(n, events).open
    decreases events
  {
    if events != [] {
      IndicesGrow(Apply(n, events[0]), events[1..]);
    }
  }

  /** Inclusion is permanent, ledger and result code included. */
  lemma {:induction false} InclusionIsPermanent(n: Node, tx: Transaction, events: seq<Event>)
    requires InclusionOf(n, tx).Some?
    ensures InclusionOf(Run(n, events), tx) == InclusionOf(n, tx)
    decreases events
  {
    if events != [] {
      InclusionIsPermanent(Apply(n, events[0]), tx, events[1..]);
    }
  }

  /** In no run from here is the transaction ever in a validated ledger. */
  ghost predicate NeverIncluded(n: Node, tx: Transaction) {
    forall events :: InclusionOf(Run(n, events), tx).None?
  }

  /** A transaction that has expired outside the validated ledgers stays outside. */
  lemma {:induction false} ExpiredStaysOut(n: Node, tx: Transaction, events: seq<Event>)
    requires InclusionOf(n, tx).None? && tx.lastLedgerSequence.Some? && tx.lastLedgerSequence.value <= n.validated
    ensures InclusionOf(Run(n, events), tx).None?
    decreases events
  {
    if events != [] {
      ExpiredStaysOut(Apply(n, events[0]), tx, events[1..]);
    }
  }

  /**
   * A transaction that is not included is lost for good exactly when its last ledger has been
   * validated; until then some run still learns and includes it (while ledger indices last).
   */
  lemma LostExactlyWhenExpired(n: Node, tx: Transaction)
    requires Valid(n) && InclusionOf(n, tx).None? && n.validated + 2 < TWO_32
    ensures NeverIncluded(n, tx) <==>
      tx.lastLedgerSequence.Some? && tx.lastLedgerSequence.value <= n.validated
  {
    if tx.lastLedgerSequence.Some? && tx.lastLedgerSequence.value <= n.validated {
      forall events ensures InclusionOf(Run(n, events), tx).None? {
        ExpiredStaysOut(n, tx, events);
      }
    } else {
      var learning := [Learn(tx, "")];
      assert learning[1..] == [] && Run(n, learning) == Apply(n, Learn(tx, ""));
      RunIsValid(n, learning);
      var last := IncludeNext(Run(n, learning), tx, "tesSUCCESS");
      RunAppend(n, learning, last);
    }
  }

  /** The next ledger can include a known transaction that may enter it. */
  lemma IncludeNext(n: Node, tx: Transaction, result: string) returns (events: seq<Event>)
    requires Valid(n) && tx in n.records && InclusionOf(n, tx).None? && n.validated + 2 < TWO_32
    requires MayEnter(tx, n.validated + 1)
    ensures InclusionOf(Run(n, events), tx) == Some(Inclusion(n.validated + 1, result))
    ensures Run(n, events).validated == n.validated + 1
  {
    var wider := Apply(n, OpenNext);
    var closing := Validate(map[tx := result]);
    var closed := Apply(wider, closing);
    events := [OpenNext] + [closing];
    assert events[1..] == [closing] && [closing][1..] == [];
    assert Run(wider, [closing]) == Run(closed, []);
    assert wider.records == n.records;
    assert closed.records[tx] == Closed(tx, n.records[tx], n.validated + 1, map[tx := result]);
  }
}
