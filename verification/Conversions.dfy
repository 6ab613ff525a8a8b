/** From protobuf to the client's own types: `XrpCurrencyAmount.from`, `XrpPayment.from`, `XrpTransaction.from`. */
module Conversions {
  import opened Wrappers
  import opened Words
  import opened Digits
  import opened Proto
  import Memos

  datatype Thrown = NumberFormatException | NullPointerException

  /** What a converter does: it returns a value, returns null, or throws. */
  datatype Conversion<+T> = Converted(value: T) | Null | Threw(thrown: Thrown)

  datatype XrpCurrencyAmount = Drops(text: string) | Issued(currency: string, value: int, issuer: string)

  datatype XrpPayment = XrpPayment(
    amount: XrpCurrencyAmount,
    destination: string,
    destinationTag: Option<Uint32>,
    destinationXAddress: string,
    deliverMin: Option<XrpCurrencyAmount>,
    sendMax: Option<XrpCurrencyAmount>)

  datatype XrpTransaction = XrpTransaction(
    account: string,
    memos: seq<Memos.XrpMemo>,
    sourceTag: Option<Uint32>,
    sourceXAddress: string,
    paymentFields: XrpPayment,
    timestamp: Option<int>,
    deliveredAmount: Option<string>,
    validated: bool,
    ledgerIndex: Uint32)

  /** The X-address codec of the JavaScript bundle; `None` is its null. */
  type Encoder = (string, Option<Uint32>, bool) -> Option<string>

  const RIPPLE_EPOCH := 946684800

  /** `new BigInteger(text)`: a sign, then at least one digit; `None` is its `NumberFormatException`. */
  function ParseBigInteger(text: string): Option<int> {
    var signed := text != "" && (text[0] == '-' || text[0] == '+');
    var digits := if signed then text[1..] else text;
    if digits == "" || !AllDigits(digits) then None
    else Some(if text[0] == '-' then -(NatOf(digits) as int) else NatOf(digits))
  }

  function AmountFrom(amount: CurrencyAmount): Conversion<XrpCurrencyAmount> {
    match amount
    case IssuedAmount(currency, value, issuer) =>
      (match ParseBigInteger(value)
       case None => Threw(NumberFormatException)
       case Some(n) => Converted(Issued(currency, n, issuer)))
    case XrpAmount(drops) => Converted(Drops(IntText(drops)))
    case NoAmount => Null
  }

  /** A field that is unset converts to an empty optional; one that is set has to convert. */
  function OptionalAmountFrom(amount: Option<CurrencyAmount>): Conversion<Option<XrpCurrencyAmount>> {
    match amount
    case None => Converted(None)
    case Some(a) =>
      match AmountFrom(a)
      case Converted(v) => Converted(Some(v))
      case Null => Null
      case Threw(e) => Threw(e)
  }

  function PaymentFrom(p: Payment, encode: Encoder, isTest: bool): Conversion<XrpPayment> {
    match AmountFrom(p.amount)
    case Null => Null
    case Threw(e) => Threw(e)
    case Converted(amount) =>
      if p.destination.GetOr("") == "" then Null
      else
        match OptionalAmountFrom(p.deliverMin)
        case Null => Null
        case Threw(e) => Threw(e)
        case Converted(deliverMin) =>
          match OptionalAmountFrom(p.sendMax)
          case Null => Null
          case Threw(e) => Threw(e)
          case Converted(sendMax) =>
            match encode(p.destination.value, p.destinationTag, isTest)
            case None => Threw(NullPointerException)
            case Some(x) => Converted(XrpPayment(amount, p.destination.value, p.destinationTag, x, deliverMin, sendMax))
  }

  function TransactionFrom(r: GetTransactionResponse, encode: Encoder, isTest: bool): Conversion<XrpTransaction> {
    var t := r.transaction;
    match t.data
    case AccountSetData(_) => Null
    case OtherData => Null
    case PaymentData(p) =>
      match PaymentFrom(p, encode, isTest)
      case Null => Null
      case Threw(e) => Threw(e)
      case Converted(paymentFields) =>
        if r.deliveredAmount == Some(NoAmount) then Null
        else
          match encode(t.account, t.sourceTag, isTest)
          case None => Threw(NullPointerException)
          case Some(x) => Converted(XrpTransaction(
            t.account, Memos.FromAll(t.memos), t.sourceTag, x, paymentFields,
            if r.date.Some? then Some(r.date.value + RIPPLE_EPOCH) else None,
            match r.deliveredAmount {
              case Some(XrpAmount(drops)) => Some(IntText(drops))
              case Some(IssuedAmount(_, value, _)) => Some(value)
              case _ => None
            },
            r.validated, r.ledgerIndex))
  }

  // ---- Amounts ----

  /** `BigInteger` reads back the decimal text of every integer. */
  lemma ParseOfIntText(n: int)
    ensures ParseBigInteger(IntText(n)) == Some(n)
  {
    var digits := NatText(if n < 0 then -n else n);
    NatTextIsExact(if n < 0 then -n else n);
    assert IsDigit(digits[0]);
    assert n < 0 ==> IntText(n)[1..] == digits;
  }

  /**
   * An amount goes onto the wire through `longValue` and comes back as a text: that text denotes
   * the one signed 64-bit number congruent to the amount, which is the amount exactly on the range of `long`.
   */
  lemma AmountOnTheWire(amount: int, y: Int64)
    ensures AmountFrom(XrpAmount(LongValue(amount))).Converted?
    ensures var text := AmountFrom(XrpAmount(LongValue(amount))).value.text;
      && IsIntText(text)
      && (ParseBigInteger(text) == Some(y) <==> (amount - y) % TWO_64 == 0)
      && (ParseBigInteger(text) == Some(amount) <==> -TWO_63 <= amount < TWO_63)
  {
    IntTextIsPlain(LongValue(amount));
    ParseOfIntText(LongValue(amount));
    LongValueIsTheCongruentLong(amount, y);
  }

  // ---- Which payments convert ----

  predicate IsConvertible(amount: CurrencyAmount) {
    match amount
    case NoAmount => false
    case XrpAmount(_) => true
    case IssuedAmount(_, value, _) => ParseBigInteger(value).Some?
  }

  /** An issued amount whose value `new BigInteger` does not read. */
  predicate IsUnreadable(amount: CurrencyAmount) {
    amount.IssuedAmount? && ParseBigInteger(amount.value).None?
  }

  /** `BigInteger` reads an optional sign of either kind and then digits only, at least one; a fraction, say, it does not read. */
  lemma BigIntegerSpelledOut(text: string)
    ensures var digits := if text != "" && (text[0] == '+' || text[0] == '-') then text[1..] else text;
      && (ParseBigInteger(text).Some? <==> digits != "" && forall k | 0 <= k < |digits| :: digits[k] in "0123456789")
      && (ParseBigInteger(text).Some? ==>
            && AllDigits(digits)
            && ParseBigInteger(text).value == (if text[0] == '-' then -(NatOf(digits) as int) else NatOf(digits)))
  {
    var digits := if text != "" && (text[0] == '+' || text[0] == '-') then text[1..] else text;
    forall k | 0 <= k < |digits| ensures digits[k] in "0123456789" <==> IsDigit(digits[k]) { DigitSpelledOut(digits[k]); }
  }

  /** The amount and the destination pass, so that the optional amounts are looked at. */
  predicate ReachesOptionalAmounts(p: Payment) { IsConvertible(p.amount) && p.destination.GetOr("") != "" }

  /** The first amount, in the order of the checks, that stops the conversion is an unreadable one. */
  predicate FailsOnNumber(p: Payment) {
    || IsUnreadable(p.amount)
    || (ReachesOptionalAmounts(p) && p.deliverMin.Some? && IsUnreadable(p.deliverMin.value))
    || (ReachesOptionalAmounts(p) && (p.deliverMin.Some? ==> IsConvertible(p.deliverMin.value))
        && p.sendMax.Some? && IsUnreadable(p.sendMax.value))
  }

  /** Everything but the addresses converts. */
  predicate FieldsConvert(p: Payment) {
    && ReachesOptionalAmounts(p)
    && (p.deliverMin.Some? ==> IsConvertible(p.deliverMin.value))
    && (p.sendMax.Some? ==> IsConvertible(p.sendMax.value))
  }

  /** An address is the first thing that stops the conversion. */
  predicate FailsOnAddress(r: GetTransactionResponse, encode: Encoder, isTest: bool)
    requires r.transaction.data.PaymentData?
  {
    var p := r.transaction.data.payment;
    && FieldsConvert(p)
    && (encode(p.destination.value, p.destinationTag, isTest).None?
        || (r.deliveredAmount != Some(NoAmount) && encode(r.transaction.account, r.transaction.sourceTag, isTest).None?))
  }

  /**
   * A response converts exactly when it is a payment whose every set amount converts and whose
   * addresses encode. Of the others, an unreadable number or an address that does not encode
   * throws where it is the first obstacle; the rest give null.
   */
  lemma TransactionConvertsExactly(r: GetTransactionResponse, encode: Encoder, isTest: bool)
    ensures var c, isPayment := TransactionFrom(r, encode, isTest), r.transaction.data.PaymentData?;
      && (c.Converted? <==>
            && isPayment && FieldsConvert(r.transaction.data.payment)
            && !FailsOnAddress(r, encode, isTest) && r.deliveredAmount != Some(NoAmount))
      && (c == Threw(NumberFormatException) <==> isPayment && FailsOnNumber(r.transaction.data.payment))
      && (c == Threw(NullPointerException) <==> isPayment && FailsOnAddress(r, encode, isTest))
  {
  }

  /** The text denotes the drops, and is the plainest that does. */
  predicate IsTextOf(text: string, drops: int) { ParseBigInteger(text) == Some(drops) && IsIntText(text) }

  /** An optional amount carried over: set on both sides or on neither, and the same amount. */
  predicate SameAmount(wire: Option<CurrencyAmount>, amount: Option<XrpCurrencyAmount>) {
    match wire
    case None => amount.None?
    case Some(XrpAmount(drops)) =>
      amount.Some? && amount.value.Drops? && IsTextOf(amount.value.text, drops)
    case Some(IssuedAmount(currency, value, issuer)) =>
      amount.Some? && ParseBigInteger(value).Some? && amount.value == Issued(currency, ParseBigInteger(value).value, issuer)
    case Some(NoAmount) => false
  }

  /** The delivered amount as a text: that of the drops, or the issued value as it came. */
  predicate SameDelivered(wire: Option<CurrencyAmount>, text: Option<string>) {
    match wire
    case None => text.None?
    case Some(XrpAmount(drops)) => text.Some? && IsTextOf(text.value, drops)
    case Some(IssuedAmount(_, value, _)) => text == Some(value)
    case Some(NoAmount) => false
  }

  lemma OptionalAmountIsSame(wire: Option<CurrencyAmount>)
    ensures OptionalAmountFrom(wire).Converted? ==> SameAmount(wire, OptionalAmountFrom(wire).value)
  {
    hide ParseBigInteger, IsIntText;
    if wire.Some? && wire.value.XrpAmount? {
      ParseOfIntText(wire.value.drops);
      IntTextIsPlain(wire.value.drops);
    }
  }

  /** What a converted transaction says is what the response said; times count from 1970. */
  lemma ConvertedSaysTheSame(r: GetTransactionResponse, encode: Encoder, isTest: bool)
    requires TransactionFrom(r, encode, isTest).Converted?
    ensures var x, p := TransactionFrom(r, encode, isTest).value, r.transaction.data.payment;
      && SameAmount(Some(p.amount), Some(x.paymentFields.amount))
      && SameAmount(p.deliverMin, x.paymentFields.deliverMin)
      && SameAmount(p.sendMax, x.paymentFields.sendMax)
      && p.destination == Some(x.paymentFields.destination) && x.paymentFields.destinationTag == p.destinationTag
      && encode(x.paymentFields.destination, x.paymentFields.destinationTag, isTest) == Some(x.paymentFields.destinationXAddress)
      && encode(x.account, x.sourceTag, isTest) == Some(x.sourceXAddress)
      && x.account == r.transaction.account && x.sourceTag == r.transaction.sourceTag
      && (r.date.Some? <==> x.timestamp.Some?)
      && (r.date.Some? ==> x.timestamp.value - r.date.value == 946684800)
      && (x.validated <==> r.validated) && x.ledgerIndex == r.ledgerIndex
      && SameDelivered(r.deliveredAmount, x.deliveredAmount)
      && x.memos == Memos.FromAll(r.transaction.memos)
  {
    hide ParseBigInteger, IsIntText;
    var p := r.transaction.data.payment;
    OptionalAmountIsSame(Some(p.amount));
    OptionalAmountIsSame(p.deliverMin);
    OptionalAmountIsSame(p.sendMax);
    if r.deliveredAmount.Some? && r.deliveredAmount.value.XrpAmount? {
      ParseOfIntText(r.deliveredAmount.value.drops);
      IntTextIsPlain(r.deliveredAmount.value.drops);
    }
  }
}
