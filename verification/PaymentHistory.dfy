/** The loop of `paymentHistory`. */
module PaymentHistory {
  import opened Wrappers
  import opened Proto
  import opened Conversions

  datatype HistoryError = PaymentConversionFailure | Uncaught(thrown: Thrown)

  /** The payments among the responses, in order. */
  function Payments(responses: seq<GetTransactionResponse>): seq<GetTransactionResponse> {
    if responses == [] then []
    else
      var init, r := Payments(responses[..|responses| - 1]), responses[|responses| - 1];
      if r.transaction.data.PaymentData? then init + [r] else init
  }

  predicate AllConvert(payments: seq<GetTransactionResponse>, encode: Encoder, isTest: bool) {
    forall i | 0 <= i < |payments| :: TransactionFrom(payments[i], encode, isTest).Converted?
  }

  /** The error of a payment that does not convert. */
  function ErrorOf(c: Conversion<XrpTransaction>): HistoryError
    requires !c.Converted?
  {
    if c.Null? then PaymentConversionFailure else Uncaught(c.thrown)
  }

  predicate AreConversions(
    history: seq<XrpTransaction>, payments: seq<GetTransactionResponse>, encode: Encoder, isTest: bool)
  {
    |history| == |payments|
    && forall i | 0 <= i < |payments| :: TransactionFrom(payments[i], encode, isTest) == Converted(history[i])
  }

  /** The payment numbered `k` is the first that does not convert. */
  predicate IsFirstFailure(payments: seq<GetTransactionResponse>, k: int, encode: Encoder, isTest: bool) {
    && 0 <= k < |payments| && AllConvert(payments[..k], encode, isTest)
    && !TransactionFrom(payments[k], encode, isTest).Converted?
  }

  /** What the history of these responses has to be: the conversions of all payments, or the first failure's error. */
  ghost predicate IsOutcome(
    history: Result<seq<XrpTransaction>, HistoryError>,
    responses: seq<GetTransactionResponse>, encode: Encoder, isTest: bool)
  {
    var payments := Payments(responses);
    match history
    case Ok(converted) => AreConversions(converted, payments, encode, isTest)
    case Err(error) =>
      exists k :: IsFirstFailure(payments, k, encode, isTest) && error == ErrorOf(TransactionFrom(payments[k], encode, isTest))
  }

  /**
   * All or nothing: the conversions of exactly the payments, in order, when all of them convert;
   * otherwise the error of the first payment that does not.
   */
  method CollectPayments(responses: seq<GetTransactionResponse>, encode: Encoder, isTest: bool)
    returns (history: Result<seq<XrpTransaction>, HistoryError>)
    ensures history.Ok? <==> AllConvert(Payments(responses), encode, isTest)
    ensures IsOutcome(history, responses, encode, isTest)
  {
    var payments: seq<XrpTransaction> := [];
    for i := 0 to |responses|
      invariant AreConversions(payments, Payments(responses[..i]), encode, isTest)
    {
      assert responses[..i + 1][..i] == responses[..i];
      if responses[i].transaction.data.PaymentData? {
        var converted := TransactionFrom(responses[i], encode, isTest);
        match converted {
          case Null =>
            FirstFailure(responses, i, payments, encode, isTest);
            return Err(PaymentConversionFailure);
          case Threw(e) =>
            FirstFailure(responses, i, payments, encode, isTest);
            return Err(Uncaught(e));
          case Converted(v) =>
            payments := payments + [v];
        }
      }
    }
    assert responses[..|responses|] == responses;
    return Ok(payments);
  }

  lemma FirstFailure(responses: seq<GetTransactionResponse>, i: nat, converted: seq<XrpTransaction>,
      encode: Encoder, isTest: bool)
    requires i < |responses| && responses[i].transaction.data.PaymentData?
    requires AreConversions(converted, Payments(responses[..i]), encode, isTest)
    ensures var all, k := Payments(responses), |converted|;
      k < |all| && all[k] == responses[i] && AllConvert(all[..k], encode, isTest)
  {
    assert responses[..i + 1][..i] == responses[..i];
    PaymentsOfPrefix(responses, i + 1);
    assert Payments(responses)[..|converted|] == Payments(responses[..i]);
  }

  lemma {:induction false} PaymentsOfPrefix(responses: seq<GetTransactionResponse>, n: nat)
    requires n <= |responses|
    ensures Payments(responses[..n]) <= Payments(responses)
  {
    if n < |responses| {
      PaymentsOfPrefix(responses[..|responses| - 1], n);
      assert responses[..|responses| - 1][..n] == responses[..n];
    } else {
      assert responses[..n] == responses;
    }
  }

  // ---- One outcome ----

  lemma FirstFailureIsUnique(payments: seq<GetTransactionResponse>, j: int, k: int, encode: Encoder, isTest: bool)
    requires IsFirstFailure(payments, j, encode, isTest) && IsFirstFailure(payments, k, encode, isTest)
    ensures j == k
  {
  }

  /** The responses leave one outcome only. */
  lemma OutcomeIsUnique(
    a: Result<seq<XrpTransaction>, HistoryError>, b: Result<seq<XrpTransaction>, HistoryError>,
    responses: seq<GetTransactionResponse>, encode: Encoder, isTest: bool)
    requires IsOutcome(a, responses, encode, isTest) && IsOutcome(b, responses, encode, isTest)
    ensures a == b
  {
    var payments := Payments(responses);
    if a.Err? && b.Err? {
      var j :| IsFirstFailure(payments, j, encode, isTest) && a.error == ErrorOf(TransactionFrom(payments[j], encode, isTest));
      var k :| IsFirstFailure(payments, k, encode, isTest) && b.error == ErrorOf(TransactionFrom(payments[k], encode, isTest));
      FirstFailureIsUnique(payments, j, k, encode, isTest);
    } else if a.Ok? && b.Ok? {
      forall i | 0 <= i < |payments| ensures a.value[i] == b.value[i] {
        assert Converted(a.value[i]) == TransactionFrom(payments[i], encode, isTest) == Converted(b.value[i]);
      }
      assert a.value == b.value;
    }
  }

  lemma {:induction false} OthersAreNoPayments(
    before: seq<GetTransactionResponse>, other: GetTransactionResponse, after: seq<GetTransactionResponse>)
    requires !other.transaction.data.PaymentData?
    ensures Payments(before + [other] + after) == Payments(before + after)
  {
    if after == [] {
      assert (before + [other] + after)[..|before|] == before && before + after == before;
    } else {
      var init := after[..|after| - 1];
      OthersAreNoPayments(before, other, init);
      assert (before + [other] + after)[..|before| + |after|] == before + [other] + init;
      assert (before + after)[..|before| + |after| - 1] == before + init;
    }
  }

  /** A response that is no payment never affects the outcome. */
  lemma OthersAreIgnored(
    before: seq<GetTransactionResponse>, other: GetTransactionResponse, after: seq<GetTransactionResponse>,
    with: Result<seq<XrpTransaction>, HistoryError>, without: Result<seq<XrpTransaction>, HistoryError>,
    encode: Encoder, isTest: bool)
    requires !other.transaction.data.PaymentData?
    requires IsOutcome(with, before + [other] + after, encode, isTest) && IsOutcome(without, before + after, encode, isTest)
    ensures with == without
  {
    OthersAreNoPayments(before, other, after);
    OutcomeIsUnique(with, without, before + after, encode, isTest);
  }

  // ---- Which error ----

  lemma {:induction false} PaymentsArePayments(responses: seq<GetTransactionResponse>)
    ensures forall r | r in Payments(responses) :: r.transaction.data.PaymentData?
  {
    if responses != [] {
      PaymentsArePayments(responses[..|responses| - 1]);
    }
  }

  /**
   * Exactly when a Java exception escapes instead of `paymentConversionFailure`: the first payment
   * that does not convert fails on a number, or on an address.
   */
  lemma UncaughtExactly(
    history: Result<seq<XrpTransaction>, HistoryError>,
    responses: seq<GetTransactionResponse>, encode: Encoder, isTest: bool)
    requires IsOutcome(history, responses, encode, isTest)
    ensures var payments := Payments(responses);
      && (forall r | r in payments :: r.transaction.data.PaymentData?)
      && (history == Err(Uncaught(NumberFormatException)) <==>
            exists k :: IsFirstFailure(payments, k, encode, isTest) && FailsOnNumber(payments[k].transaction.data.payment))
      && (history == Err(Uncaught(NullPointerException)) <==>
            exists k :: IsFirstFailure(payments, k, encode, isTest) && FailsOnAddress(payments[k], encode, isTest))
  {
    hide TransactionFrom, FailsOnNumber, FailsOnAddress;
    var payments := Payments(responses);
    PaymentsArePayments(responses);
    if k :| IsFirstFailure(payments, k, encode, isTest) {
      assert payments[k] in payments;
      TransactionConvertsExactly(payments[k], encode, isTest);
      forall j | IsFirstFailure(payments, j, encode, isTest) ensures j == k {
        FirstFailureIsUnique(payments, j, k, encode, isTest);
      }
    }
  }

  /** A fractional issued amount is such a number. */
  lemma FractionEscapes(
    history: Result<seq<XrpTransaction>, HistoryError>,
    responses: seq<GetTransactionResponse>, encode: Encoder, isTest: bool)
    requires IsOutcome(history, responses, encode, isTest)
    requires Payments(responses) != [] && Payments(responses)[0].transaction.data.PaymentData?
    requires var amount := Payments(responses)[0].transaction.data.payment.amount; amount.IssuedAmount? && amount.value == "1.5"
    ensures history == Err(Uncaught(NumberFormatException))
  {
    var payments := Payments(responses);
    UncaughtExactly(history, responses, encode, isTest);
    TransactionConvertsExactly(payments[0], encode, isTest);
    BigIntegerSpelledOut("1.5");
    assert "1.5"[1] == '.';
    assert IsFirstFailure(payments, 0, encode, isTest);
  }
}
