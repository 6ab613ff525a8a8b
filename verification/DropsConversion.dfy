/** `dropsToXrp` and `xrpToDrops`: decimal texts in, decimal texts out. */
module DropsConversion {
  import opened Wrappers
  import opened Digits
  import opened JavaStrings
  import opened BigDecimals

  /** `InvalidInputs` is the `XrpException`, `NumberFormat` the exception `new BigDecimal` throws. */
  datatype ConversionError = InvalidInputs | NumberFormat

  function DigitPrefix(s: string): (i: nat)
    ensures i <= |s|
  {
    if s == "" || !IsDigit(s[0]) then 0 else 1 + DigitPrefix(s[1..])
  }

  /** The whole text matches `^-?[0-9]*['.']?[0-9]*$`; the bracket holds an apostrophe and a point. */
  predicate MatchesPattern(s: string) { BodyMatches(Body(s)) }

  predicate BodyMatches(b: string) {
    var i := DigitPrefix(b);
    i == |b| || ((b[i] == '\'' || b[i] == '.') && AllDigits(b[i + 1..]))
  }

  const DROPS_PER_XRP := 1000000

  function DropsToXrp(drops: string): Result<string, ConversionError> {
    if !MatchesPattern(drops) || drops == "." then Err(InvalidInputs)
    else
      match Parse(drops)
      case None => Err(NumberFormat)
      case Some(parsed) =>
        match ToBigIntegerExact(parsed)
        case None => Err(InvalidInputs)
        case Some(whole) =>
          match Parse(IntText(whole))
          case None => Err(NumberFormat)
          case Some(again) => Ok(PlainText(DividePow10(again.unscaled, 6)))
  }

  function XrpToDrops(xrp: string): Result<string, ConversionError> {
    if !MatchesPattern(xrp) || xrp == "." then Err(InvalidInputs)
    else
      match Parse(xrp)
      case None => Err(NumberFormat)
      case Some(parsed) =>
        DropsOfPlain(PlainText(StripTrailingZeros(parsed)))
  }

  /** The second half of `xrpToDrops`, on the plain text without trailing zeros. */
  function DropsOfPlain(plain: string): Result<string, ConversionError> {
    var components := Split(plain, '.');
    if |components| > 2 then Err(InvalidInputs)
    else
      var fraction := if |components| == 2 then components[1] else "0";
      if |fraction| > 6 then Err(InvalidInputs)
      else
        match Parse(plain)
        case None => Err(NumberFormat)
        case Some(again) => Ok(IntText(ToBigInteger(MultiplyInt(again, DROPS_PER_XRP))))
  }

  predicate IsWhole(v: real) { v.Floor as real == v }

  // ---- Which texts are numerals ----

  lemma {:induction false} DigitPrefixStops(s: string)
    ensures AllDigits(s[..DigitPrefix(s)])
    ensures DigitPrefix(s) < |s| ==> !IsDigit(s[DigitPrefix(s)])
  {
    if s != "" && IsDigit(s[0]) {
      DigitPrefixStops(s[1..]);
      assert forall k | 0 < k < DigitPrefix(s) :: s[k] == s[1..][k - 1];
    }
  }

  predicate HasDigit(s: string) { exists k :: 0 <= k < |s| && IsDigit(s[k]) }

  /** A text denotes a number exactly when it matches the pattern, has no apostrophe and has a digit. */
  lemma NumeralExactly(s: string)
    ensures IsNumeral(s) <==> MatchesPattern(s) && !Has(s, '\'') && HasDigit(s)
    ensures HasDigit(s) <==> exists k :: 0 <= k < |s| && s[k] in "0123456789"
  {
    forall k | 0 <= k < |s| ensures IsDigit(s[k]) <==> s[k] in "0123456789" { DigitSpelledOut(s[k]); }
    BodyKeeps(s);
    if IsNumeral(s) {
      NumeralHasNoApostrophe(Body(s));
    }
    if !Has(s, '\'') {
      MatchByPoint(Body(s));
    }
    if AllDigits(Before(Body(s))) && AllDigits(After(Body(s))) {
      DigitsOfParts(Body(s));
    }
  }

  /**
   * The pattern, character by character: after an optional minus sign, digits and at most one
   * apostrophe or point.
   */
  lemma PatternSpelledOut(s: string)
    ensures var b := if s != "" && s[0] == '-' then s[1..] else s;
      MatchesPattern(s) <==>
        && (forall k | 0 <= k < |b| :: b[k] in "0123456789'.")
        && (forall j, k | 0 <= j < k < |b| :: b[j] in "0123456789" || b[k] in "0123456789")
  {
    var b := Body(s);
    var i := DigitPrefix(b);
    DigitPrefixStops(b);
    forall k | 0 <= k < |b| ensures IsDigit(b[k]) <==> b[k] in "0123456789" { DigitSpelledOut(b[k]); }
    assert forall k | 0 <= k < i :: b[k] == b[..i][k];
    assert forall k | i < k < |b| :: b[k] == b[i + 1..][k - i - 1];
    assert forall k | 0 <= k < |b| :: b[k] in "0123456789'." <==> b[k] in "0123456789" || b[k] == '\'' || b[k] == '.';
    assert MatchesPattern(s) <==> i == |b| || ((b[i] == '\'' || b[i] == '.') && forall k | i < k < |b| :: IsDigit(b[k]));
  }

  lemma BodyKeeps(s: string)
    ensures Has(s, '\'') <==> Has(Body(s), '\'')
    ensures HasDigit(s) <==> HasDigit(Body(s))
  {
    if IsNegative(s) {
      assert forall k | 0 <= k < |Body(s)| :: Body(s)[k] == s[k + 1];
      assert forall k | 0 < k < |s| :: s[k] == Body(s)[k - 1];
    }
  }

  /** The digits before the first point, and those after it. */
  function Before(b: string): string { b[..IndexOf(b, '.')] }

  function After(b: string): string { var i := IndexOf(b, '.'); if i == |b| then "" else b[i + 1..] }

  lemma NumeralHasNoApostrophe(b: string)
    requires AllDigits(Before(b)) && AllDigits(After(b))
    ensures !Has(b, '\'')
  {
    var i := IndexOf(b, '.');
    IndexOfIsFirst(b, '.');
    assert forall k | 0 <= k < i :: b[k] == Before(b)[k];
    assert forall k | i < k < |b| :: b[k] == After(b)[k - i - 1];
  }

  lemma MatchByPoint(b: string)
    requires !Has(b, '\'')
    ensures BodyMatches(b) <==> AllDigits(Before(b)) && AllDigits(After(b))
  {
    var i, p := IndexOf(b, '.'), DigitPrefix(b);
    DigitPrefixStops(b);
    IndexOfIsFirst(b, '.');
    assert forall k | 0 <= k < p :: b[k] == b[..p][k];
    assert p <= i;
    assert forall k | 0 <= k < i :: b[k] == Before(b)[k];
  }

  lemma DigitsOfParts(b: string)
    requires AllDigits(Before(b)) && AllDigits(After(b))
    ensures HasDigit(b) <==> Before(b) + After(b) != ""
  {
    var i := IndexOf(b, '.');
    if Before(b) != "" {
      assert b[0] == Before(b)[0];
    } else if After(b) != "" {
      assert b[i + 1] == After(b)[0];
    }
  }

  // ---- Numbers behind the texts ----

  lemma ScaleToDrops(v: real)
    ensures Scale(v, 6) == v * 1000000.0
  {
    assert Scale(v, 3) == 1000.0 * v by { assert Scale(v, 1) == 10.0 * v; }
    assert Scale(v, 5) == 100.0 * Scale(v, 3);
  }

  lemma ShiftToDrops(n: int)
    ensures Shift(n, 6) == 1000000 * n
  {
    assert Shift(n, 3) == 1000 * n by { assert Shift(n, 1) == 10 * n; }
    assert Shift(n, 5) == 100 * Shift(n, 3);
  }

  lemma {:induction false} CutOfShift(n: int, k: nat)
    ensures Cut(Shift(n, k), k) == n
  {
    if k > 0 { CutOfShift(n, k - 1); }
  }

  /** `b` is the number `v`, written with a scale that is not negative. */
  predicate Denotes(b: BigDecimal, v: real) { b.scale >= 0 && Scale(v, b.scale) == b.unscaled as real }

  /** `toBigIntegerExact` succeeds exactly on whole numbers, and is then exact. */
  lemma ToBigIntegerExactIsExact(b: BigDecimal, v: real)
    requires Denotes(b, v)
    ensures ToBigIntegerExact(b).Some? <==> IsWhole(v)
    ensures IsWhole(v) ==> ToBigIntegerExact(b) == Some(v.Floor)
  {
    var n := ToBigInteger(b);
    if ToBigIntegerExact(b).Some? {
      ScaleOfInt(n, b.scale);
      ScaleInjective(v, n as real, b.scale);
    }
    if IsWhole(v) {
      ScaleOfInt(v.Floor, b.scale);
      CutOfShift(v.Floor, b.scale);
    }
  }

  /** The decimal text of an integer is a canonical numeral of that integer. */
  lemma IntTextIsExact(n: int)
    ensures IsNumeral(IntText(n)) && Parse(IntText(n)) == Some(BigDecimal(n, 0))
    ensures IsCanonical(IntText(n)) && Value(IntText(n)) == n as real
  {
    ParseOfPlainText(BigDecimal(n, 0));
    PlainTextIsCanonical(BigDecimal(n, 0));
    ParseIsExact(IntText(n));
  }

  /** Dividing by a million loses nothing, and the point appears exactly for a fraction. */
  lemma DivideIsExact(n: int)
    ensures var q := DividePow10(n, 6);
      && IsCanonical(PlainText(q)) && |FractionDigits(PlainText(q))| <= 6
      && Value(PlainText(q)) * 1000000.0 == n as real
      && (Has(PlainText(q), '.') <==> n % 1000000 != 0)
  {
    var q := DividePow10(n, 6);
    var t := PlainText(q);
    ParseOfPlainText(q);
    PlainTextIsCanonical(q);
    ParseIsExact(t);
    ScaleTwice(Value(t), q.scale, 6 - q.scale);
    ScaleOfInt(q.unscaled, 6 - q.scale);
    ScaleToDrops(Value(t));
    SplitOfPlainText(q);
    PointExactlyForFraction(n, q);
  }

  lemma PointExactlyForFraction(n: int, q: BigDecimal)
    requires 0 <= q.scale <= 6 && n == Shift(q.unscaled, 6 - q.scale)
    requires q.scale > 0 ==> q.unscaled % 10 != 0
    ensures q.scale > 0 <==> n % 1000000 != 0
  {
    if q.scale == 0 {
      ShiftToDrops(q.unscaled);
    } else if n % 1000000 == 0 {
      ShiftToDrops(n / 1000000);
      MoreZeros(n / 1000000, q.unscaled, q.scale);
    }
  }

  lemma MoreZeros(m: int, u: int, k: nat)
    requires 0 < k <= 6 && Shift(m, 6) == Shift(u, 6 - k)
    ensures u % 10 == 0
  {
    ShiftTwice(m, k, 6 - k);
    ShiftInjective(Shift(m, k), u, 6 - k);
  }

  /** Stripping zeros and raising a negative scale to zero keep the number. */
  lemma StrippedDenotes(b: BigDecimal, v: real)
    requires Denotes(b, v)
    ensures var a := AtLeastZero(StripTrailingZeros(b));
      Denotes(a, v) && (a.scale == 0 || a.unscaled % 10 != 0)
  {
    var c := StripTrailingZeros(b);
    var a := AtLeastZero(c);
    if b.unscaled == 0 {
      ScaleOfInt(0, b.scale);
      ShiftSign(0, b.scale);
      ScaleInjective(v, 0.0, b.scale);
    } else {
      ShiftTwice(c.unscaled, Up(-c.scale), b.scale - a.scale);
      ScaleTwice(v, a.scale, b.scale - a.scale);
      ScaleOfInt(a.unscaled, b.scale - a.scale);
      ScaleInjective(Scale(v, a.scale), a.unscaled as real, b.scale - a.scale);
    }
  }

  /** At most six fraction digits is the same as a whole number of drops. */
  lemma SixDigitsExactly(a: BigDecimal, v: real)
    requires Denotes(a, v) && (a.scale == 0 || a.unscaled % 10 != 0)
    ensures a.scale <= 6 <==> IsWhole(v * 1000000.0)
  {
    ScaleToDrops(v);
    if a.scale <= 6 {
      ScaleTwice(v, a.scale, 6 - a.scale);
      ScaleOfInt(a.unscaled, 6 - a.scale);
    } else if IsWhole(Scale(v, 6)) {
      LeastScale(a, BigDecimal(Scale(v, 6).Floor, 6), v);
    }
  }

  /** The multiplication by a million is then exact: `toBigInteger` cuts nothing off. */
  lemma DropsAreExact(a: BigDecimal, v: real)
    requires Denotes(a, v) && a.scale <= 6
    ensures ToBigInteger(MultiplyInt(a, DROPS_PER_XRP)) == (v * 1000000.0).Floor
  {
    var n := Shift(a.unscaled, 6 - a.scale);
    ScaleToDrops(v);
    ScaleTwice(v, a.scale, 6 - a.scale);
    ScaleOfInt(a.unscaled, 6 - a.scale);
    ShiftTwice(a.unscaled, 6 - a.scale, a.scale);
    MillionTimes(a.unscaled, a.scale, n);
  }

  lemma MillionTimes(u: int, k: nat, n: int)
    requires Shift(n, k) == Shift(u, 6)
    ensures ToBigInteger(MultiplyInt(BigDecimal(u, k), DROPS_PER_XRP)) == n
  {
    ShiftToDrops(u);
    CutOfShift(n, k);
  }

  // ---- The two conversions ----

  /**
   * What both conversions do with a text that is not a numeral: an uncaught `NumberFormatException`
   * if it has no character but those of a numeral and at most one apostrophe or point, and is not
   * the point alone; else the `XrpException`.
   */
  lemma NotANumeral(s: string)
    requires !IsNumeral(s)
    ensures var b := if s != "" && s[0] == '-' then s[1..] else s;
      DropsToXrp(s) == XrpToDrops(s) == Err(
        if && s != "."
           && (forall k | 0 <= k < |b| :: b[k] in "0123456789'.")
           && (forall j, k | 0 <= j < k < |b| :: b[j] in "0123456789" || b[k] in "0123456789")
        then NumberFormat else InvalidInputs)
  {
    PatternSpelledOut(s);
  }

  /** Any other character than a digit, a point, an apostrophe or the leading minus sign is rejected as it should be. */
  lemma OthersAreInvalid(s: string, k: nat)
    requires k < |s| && s[k] !in "0123456789'." && (k > 0 || s[0] != '-')
    ensures DropsToXrp(s) == XrpToDrops(s) == Err(InvalidInputs)
  {
    hide DropsToXrp, XrpToDrops, IsNumeral, HasDigit, MatchesPattern;
    var b := if s[0] == '-' then s[1..] else s;
    assert s[k] == b[if s[0] == '-' then k - 1 else k];
    NumeralExactly(s);
    PatternSpelledOut(s);
    NotANumeral(s);
  }

  /** An apostrophe in the place of the point is not. */
  lemma ApostropheEscapes(s: string)
    requires MatchesPattern(s) && Has(s, '\'')
    ensures DropsToXrp(s) == XrpToDrops(s) == Err(NumberFormat)
  {
    hide DropsToXrp, XrpToDrops, IsNumeral, HasDigit, MatchesPattern;
    NumeralExactly(s);
    PatternSpelledOut(s);
    NotANumeral(s);
  }

  lemma NumeralIsAccepted(s: string)
    requires IsNumeral(s)
    ensures MatchesPattern(s) && s != "." && Parse(s).Some? && Denotes(Parse(s).value, Value(s))
  {
    NumeralExactly(s);
    ParseIsExact(s);
  }

  /**
   * `dropsToXrp` accepts exactly the numerals of whole value. Its answer is the canonical text of
   * a millionth of the input: exact, at most six fraction digits, a point only for a fraction.
   */
  lemma DropsToXrpIsExact(drops: string)
    requires IsNumeral(drops)
    ensures DropsToXrp(drops).Ok? <==> IsWhole(Value(drops))
    ensures !IsWhole(Value(drops)) ==> DropsToXrp(drops) == Err(InvalidInputs)
    ensures IsWhole(Value(drops)) ==>
      var xrp := DropsToXrp(drops).value;
      && IsCanonical(xrp) && Value(xrp) * 1000000.0 == Value(drops)
      && |FractionDigits(xrp)| <= 6 && (Has(xrp, '.') <==> Value(drops).Floor % 1000000 != 0)
  {
    NumeralIsAccepted(drops);
    ToBigIntegerExactIsExact(Parse(drops).value, Value(drops));
    if IsWhole(Value(drops)) {
      IntTextIsExact(Value(drops).Floor);
      DivideIsExact(Value(drops).Floor);
    }
  }

  /**
   * `xrpToDrops` accepts exactly the numerals whose value times a million is whole: counting the
   * fraction characters of the printed text decides divisibility. Its answer is that integer's text.
   */
  lemma XrpToDropsIsExact(xrp: string)
    requires IsNumeral(xrp)
    ensures XrpToDrops(xrp) ==
      if IsWhole(Value(xrp) * 1000000.0) then Ok(IntText((Value(xrp) * 1000000.0).Floor)) else Err(InvalidInputs)
  {
    hide PlainText, DropsOfPlain, XrpToDrops, AtLeastZero;
    var c, v := XrpToDropsOfNumeral(xrp);
    DropsOfPlainText(c, v);
  }

  lemma XrpToDropsOfNumeral(xrp: string) returns (c: BigDecimal, v: real)
    requires IsNumeral(xrp)
    ensures v == Value(xrp) && XrpToDrops(xrp) == DropsOfPlain(PlainText(c))
    ensures c.scale < 0 ==> c.unscaled != 0
    ensures var a := AtLeastZero(c); Denotes(a, v) && (a.scale == 0 || a.unscaled % 10 != 0)
  {
    NumeralIsAccepted(xrp);
    v := Value(xrp);
    StrippedDenotes(Parse(xrp).value, v);
    c := StripTrailingZeros(Parse(xrp).value);
  }

  lemma DropsOfPlainText(c: BigDecimal, v: real)
    requires c.scale < 0 ==> c.unscaled != 0
    requires var a := AtLeastZero(c); Denotes(a, v) && (a.scale == 0 || a.unscaled % 10 != 0)
    ensures DropsOfPlain(PlainText(c)) ==
      if IsWhole(v * 1000000.0) then Ok(IntText((v * 1000000.0).Floor)) else Err(InvalidInputs)
  {
    ParseOfPlainText(c);
    SplitOfPlainText(c);
    SixDigitsExactly(AtLeastZero(c), v);
    if c.scale <= 6 {
      DropsAreExact(AtLeastZero(c), v);
    }
  }

  /** Drops to XRP and back is the canonical integer text of the drops, for every accepted text. */
  lemma DropsRoundTrip(drops: string)
    requires DropsToXrp(drops).Ok?
    ensures IsNumeral(drops) && XrpToDrops(DropsToXrp(drops).value) == Ok(IntText(Value(drops).Floor))
  {
    hide DropsToXrp, XrpToDrops, IsNumeral, IsCanonical, Value;
    if !IsNumeral(drops) { NotANumeral(drops); }
    DropsToXrpIsExact(drops);
    XrpToDropsIsExact(DropsToXrp(drops).value);
  }

  /** XRP to drops and back is the one canonical text of the amount, for every accepted text. */
  lemma XrpRoundTrip(xrp: string)
    requires XrpToDrops(xrp).Ok?
    ensures IsNumeral(xrp) && DropsToXrp(XrpToDrops(xrp).value).Ok?
    ensures var back := DropsToXrp(XrpToDrops(xrp).value).value;
      && IsCanonical(back) && Value(back) == Value(xrp)
      && forall t | IsCanonical(t) && Value(t) == Value(xrp) :: t == back
  {
    hide DropsToXrp, XrpToDrops, IsNumeral, Value;
    if !IsNumeral(xrp) { NotANumeral(xrp); }
    XrpToDropsIsExact(xrp);
    var n := (Value(xrp) * 1000000.0).Floor;
    IntTextIsExact(n);
    DropsToXrpIsExact(IntText(n));
    var back := DropsToXrp(IntText(n)).value;
    forall t | IsCanonical(t) && Value(t) == Value(xrp) ensures t == back {
      CanonicalIsUnique(t, back);
    }
  }
}
