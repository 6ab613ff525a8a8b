/**
 * What a client sees of the node. Before each RPC the node makes any number of moves of its own;
 * a script lists them, so quantifying over scripts is quantifying over all interleavings.
 */
module Rpc {
  import opened Wrappers
  import opened Words
  import opened Proto
  import opened Ledger

  /** The node's moves before one RPC, whether that RPC fails, and the values this model does not track. */
  datatype Tick = Tick(events: seq<Event>, fails: bool, fee: Int64, sequence: Uint32)

  /** When the script has run out the node rests. */
  datatype Env = Env(node: Node, script: seq<Tick>)

  datatype Failure =
    | RpcFailure | TimedOut | NoLastLedgerSequence | UndecodableAddress | XAddressRequired
    | NullPointer | StringIndexOutOfBounds

  datatype Ran<+T> = Ran(env: Env, result: Result<T, Failure>)

  function NextTick(e: Env): Tick { if e.script == [] then Tick([], false, 0, 0) else e.script[0] }

  /** The node at the moment it answers the next RPC. */
  function Arrive(e: Env): Env {
    Env(Run(e.node, NextTick(e).events), if e.script == [] then [] else e.script[1..])
  }

  function Answered<T>(e: Env, value: T): Ran<T> {
    Ran(Arrive(e), if NextTick(e).fails then Err(RpcFailure) else Ok(value))
  }

  /** Whether the node can answer for a transaction. */
  predicate IsKnown(n: Node, tx: Transaction) {
    tx in n.records && (n.records[tx].known || n.records[tx].inclusion.Some?)
  }

  function ResponseFor(n: Node, tx: Transaction): GetTransactionResponse
    requires IsKnown(n, tx)
  {
    match n.records[tx].inclusion
    case Some(i) => GetTransactionResponse(tx, true, i.result, None, None, i.ledger)
    case None => GetTransactionResponse(tx, false, n.records[tx].provisional, None, None, 0)
  }

  /** `getTransaction`; a transaction the node does not know is an RPC error. */
  function GetTransaction(e: Env, tx: Transaction): Ran<GetTransactionResponse> {
    var n := Arrive(e).node;
    if IsKnown(n, tx) then Answered(e, ResponseFor(n, tx)) else Ran(Arrive(e), Err(RpcFailure))
  }

  datatype AccountInfo = AccountInfo(ledgerIndex: Uint32, sequence: Uint32)

  /** `getAccountInfo` on the validated ledger. */
  function GetAccountInfo(e: Env): Ran<AccountInfo> {
    Answered(e, AccountInfo(Arrive(e).node.validated, NextTick(e).sequence))
  }

  datatype FeeInfo = FeeInfo(minimumFee: Int64, ledgerCurrentIndex: Uint32)

  function GetFee(e: Env): Ran<FeeInfo> {
    Answered(e, FeeInfo(NextTick(e).fee, Arrive(e).node.open))
  }

  /** `submitTransaction`; the hash it answers names the transaction, and no two transactions share one. */
  function Submit(e: Env, tx: Transaction): Ran<Transaction> {
    var arrived := Arrive(e);
    if NextTick(e).fails then Ran(arrived, Err(RpcFailure))
    else Ran(arrived.(node := Apply(arrived.node, Learn(tx, ""))), Ok(tx))
  }

  // ---- What later nodes owe to earlier ones ----

  /** `m` is `n` after some moves. */
  ghost predicate IsLater(n: Node, m: Node) { exists events :: m == Run(n, events) }

  lemma LaterByMoves(n: Node, events: seq<Event>)
    ensures IsLater(n, Run(n, events))
  {
  }

  lemma LaterIsTransitive(a: Node, b: Node, c: Node)
    requires IsLater(a, b) && IsLater(b, c)
    ensures IsLater(a, c)
  {
    var x :| b == Run(a, x);
    var y :| c == Run(b, y);
    RunAppend(a, x, y);
  }

  lemma LaterKeeps(n: Node, m: Node)
    requires IsLater(n, m)
    ensures Valid(n) ==> Valid(m)
    ensures n.validated <= m.validated && n.open <= m.open
  {
    var events :| m == Run(n, events);
    IndicesGrow(n, events);
    if Valid(n) { RunIsValid(n, events); }
  }

  lemma LaterKeepsInclusion(n: Node, m: Node, tx: Transaction)
    requires IsLater(n, m) && InclusionOf(n, tx).Some?
    ensures InclusionOf(m, tx) == InclusionOf(n, tx)
  {
    var events :| m == Run(n, events);
    InclusionIsPermanent(n, tx, events);
  }

  lemma ArriveIsLater(e: Env)
    ensures IsLater(e.node, Arrive(e).node)
  {
    LaterByMoves(e.node, NextTick(e).events);
  }

  lemma SubmitIsLater(e: Env, tx: Transaction)
    ensures IsLater(e.node, Submit(e, tx).env.node)
  {
    ArriveIsLater(e);
    var n := Arrive(e).node;
    assert Run(n, [Learn(tx, "")]) == Apply(n, Learn(tx, "")) by {
      assert [Learn(tx, "")][1..] == [];
    }
    LaterByMoves(n, [Learn(tx, "")]);
    LaterByMoves(n, []);
    LaterIsTransitive(e.node, n, Submit(e, tx).env.node);
  }
}
