/**
 * `java.math.BigDecimal` as an unscaled integer and a scale: the number is
 * `unscaled / 10^scale`, and the scale may be negative.
 */
module BigDecimals {
  import opened Wrappers
  import opened Digits
  import opened JavaStrings

  datatype BigDecimal = BigDecimal(unscaled: int, scale: int)

  /** Integer part and fraction digits of a text, cut at its first point. */
  function IntDigits(s: string): string {
    var b := Body(s);
    b[..IndexOf(b, '.')]
  }

  function FractionDigits(s: string): string {
    var b := Body(s);
    var i := IndexOf(b, '.');
    if i == |b| then "" else b[i + 1..]
  }

  predicate IsNegative(s: string) { s != [] && s[0] == '-' }

  function Body(s: string): string { if IsNegative(s) then s[1..] else s }

  function Signed(negative: bool, n: int): int { if negative then -n else n }

  /** An optional minus sign, digits, and at most one point, with at least one digit. */
  predicate IsNumeral(s: string) {
    AllDigits(IntDigits(s)) && AllDigits(FractionDigits(s)) && IntDigits(s) + FractionDigits(s) != ""
  }

  /** `new BigDecimal(s)` on texts without an exponent; `None` is its `NumberFormatException`. */
  function Parse(s: string): Option<BigDecimal> {
    if IsNumeral(s) then
      NatOfAppend(IntDigits(s), FractionDigits(s));
      Some(BigDecimal(Signed(IsNegative(s), NatOf(IntDigits(s) + FractionDigits(s))), |FractionDigits(s)|))
    else None
  }

  /** Strip trailing zeros as long as the scale stays at or above `floor`. */
  function StripTo(b: BigDecimal, floor: int): (r: BigDecimal)
    requires floor <= b.scale
    ensures floor <= r.scale <= b.scale
    ensures b.unscaled == Shift(r.unscaled, b.scale - r.scale)
    ensures r.scale > floor ==> r.unscaled % 10 != 0
    ensures b.unscaled != 0 ==> r.unscaled != 0
    decreases b.scale - floor
  {
    if b.scale > floor && b.unscaled % 10 == 0
    then
      StripTo(BigDecimal(b.unscaled / 10, b.scale - 1), floor)
    else b
  }

  /** `stripTrailingZeros`: zero becomes the constant ZERO, anything else loses every trailing zero. */
  function StripTrailingZeros(b: BigDecimal): (r: BigDecimal)
    ensures r.unscaled == 0 ==> r.scale == 0 && b.unscaled == 0
    ensures r.unscaled != 0 ==> r.unscaled % 10 != 0 && r.scale <= b.scale
    ensures r.unscaled != 0 ==> b.unscaled == Shift(r.unscaled, b.scale - r.scale)
    decreases if b.unscaled < 0 then -b.unscaled else b.unscaled
  {
    if b.unscaled == 0 then b.(scale := 0)
    else if b.unscaled % 10 == 0 then
      StripTrailingZeros(BigDecimal(b.unscaled / 10, b.scale - 1))
    else b
  }

  /** `toPlainString`: no exponent, whatever the scale. */
  function PlainText(b: BigDecimal): string {
    if b.scale == 0 then IntText(b.unscaled)
    else if b.scale < 0 then
      if b.unscaled == 0 then "0" else IntText(b.unscaled) + Zeros(-b.scale)
    else
      ValueString(if b.unscaled < 0 then "-" else "", NatText(Abs(b.unscaled)), b.scale)
  }

  /** Digits with the point inserted before the last `scale` of them. */
  function ValueString(sign: string, digits: string, scale: nat): string {
    var insertion := |digits| - scale;
    if insertion == 0 then sign + "0." + digits
    else if insertion > 0 then sign + digits[..insertion] + "." + digits[insertion..]
    else sign + "0." + Zeros(-insertion) + digits
  }

  /** `multiply(new BigDecimal(n))`: the factor has scale zero. */
  function MultiplyInt(a: BigDecimal, n: int): BigDecimal {
    BigDecimal(a.unscaled * n, a.scale)
  }

  /** A tenth, rounded towards zero. */
  function Tenth(n: int): int { if n >= 0 then n / 10 else -(-n / 10) }

  /** The number without its last `k` digits. */
  function Cut(n: int, k: nat): int
    decreases k
  {
    if k == 0 then n else Cut(Tenth(n), k - 1)
  }

  /** Cutting digits off rounds towards zero. */
  lemma {:induction false} CutTruncates(n: int, k: nat)
    ensures n >= 0 ==> Cut(n, k) >= 0 && Shift(Cut(n, k), k) <= n < Shift(Cut(n, k) + 1, k)
    ensures Cut(-n, k) == -Cut(n, k)
    decreases k
  {
    if k > 0 { CutTruncates(Tenth(n), k - 1); }
  }

  /** `toBigInteger`: the fraction is cut off, towards zero. */
  function ToBigInteger(b: BigDecimal): int {
    if b.scale <= 0 then Shift(b.unscaled, -b.scale) else Cut(b.unscaled, b.scale)
  }

  /** `toBigIntegerExact`; `None` is its `ArithmeticException`. */
  function ToBigIntegerExact(b: BigDecimal): Option<int> {
    var n := ToBigInteger(b);
    if b.scale <= 0 || Shift(n, b.scale) == b.unscaled then Some(n) else None
  }

  /** `new BigDecimal(n).divide(new BigDecimal(10^k))`: exact, with the least scale that is not negative. */
  function DividePow10(n: int, k: nat): BigDecimal {
    StripTo(BigDecimal(n, k), 0)
  }

  // ---- What a numeral denotes, read digit by digit ----

  /** Value of the digits after the point, read from the left. */
  function FractionValue(s: string): real
    requires AllDigits(s)
  {
    if s == [] then 0.0 else (DigitValue(s[0]) as real + FractionValue(s[1..])) / 10.0
  }

  /** The number a numeral denotes. */
  function Value(s: string): real
    requires IsNumeral(s)
  {
    var magnitude := NatOf(IntDigits(s)) as real + FractionValue(FractionDigits(s));
    if IsNegative(s) then -magnitude else magnitude
  }

  lemma {:induction false} FractionValueScaled(s: string)
    requires AllDigits(s)
    ensures Scale(FractionValue(s), |s|) == NatOf(s) as real
  {
    if s != [] {
      var d, rest := s[..1], s[1..];
      FractionValueScaled(rest);
      assert d[..0] == [] && NatOf(d) == DigitValue(s[0]);
      NatOfAppend(d, rest);
      assert s == d + rest;
      ScaleTwice(FractionValue(s), 1, |rest|);
      assert Scale(FractionValue(s), 0) == FractionValue(s);
      assert Scale(FractionValue(s), 1) == NatOf(d) as real + FractionValue(rest);
      ScaleSum(NatOf(d) as real, FractionValue(rest), |rest|);
      ScaleOfInt(NatOf(d), |rest|);
    }
  }

  /** The constructor is exact: `unscaled / 10^scale` is the number the text denotes. */
  lemma ParseIsExact(s: string)
    requires IsNumeral(s)
    ensures Parse(s).Some? && Parse(s).value.scale >= 0
    ensures Scale(Value(s), Parse(s).value.scale) == Parse(s).value.unscaled as real
  {
    var i, f := IntDigits(s), FractionDigits(s);
    NatOfAppend(i, f);
    FractionValueScaled(f);
    ScaleSum(NatOf(i) as real, FractionValue(f), |f|);
    ScaleSum(NatOf(i) as real + FractionValue(f), 0.0, |f|);
    ScaleOfInt(NatOf(i), |f|);
  }

  // ---- Canonical texts ----

  /**
   * The shortest plain text of a number: no superfluous leading zero, no trailing fraction zero,
   * a point only before fraction digits, no negative zero.
   */
  predicate IsCanonical(s: string) {
    && IsNumeral(s)
    && var i, f := IntDigits(s), FractionDigits(s);
       && i != "" && (|i| == 1 || i[0] != '0')
       && (f == "" <==> !Has(s, '.'))
       && (f != "" ==> f[|f| - 1] != '0')
       && (IsNegative(s) ==> exists k :: 0 <= k < |i + f| && (i + f)[k] != '0')
  }

  /** The plain text with these parts. */
  function Assembled(negative: bool, i: string, f: string): string {
    (if negative then "-" else "") + (if f == "" then i else i + ['.'] + f)
  }

  /** How an assembled text is taken apart again. */
  lemma PartsOfAssembled(negative: bool, i: string, f: string)
    requires AllDigits(i) && AllDigits(f) && i != ""
    ensures var s := Assembled(negative, i, f);
            IsNegative(s) == negative && IntDigits(s) == i && FractionDigits(s) == f
  {
    var b := if f == "" then i else i + ['.'] + f;
    DigitsAreNoSigns(i);
    hide AllDigits;
    assert b[0] == i[0];
    assert Body(Assembled(negative, i, f)) == b;
    if f == "" {
      IndexOfIsFirst(b, '.');
    } else {
      IndexOfFirst(i, '.', f);
    }
  }

  lemma DigitsAreNoSigns(i: string)
    requires AllDigits(i) && i != ""
    ensures !Has(i, '.') && i[0] != '-'
  {
    assert IsDigit(i[0]);
  }

  lemma SplitOfAssembled(negative: bool, i: string, f: string)
    requires AllDigits(i) && AllDigits(f) && i != ""
    ensures var s := Assembled(negative, i, f);
            Split(s, '.') == if f == "" then [s] else [Assembled(negative, i, ""), f]
  {
    var s := Assembled(negative, i, f);
    var head := Assembled(negative, i, "");
    PointOfAssembled(negative, i, f);
    if f != "" {
      assert s == head + ['.'] + f;
      SplitAtOne(head, '.', f);
    }
  }

  lemma PointOfAssembled(negative: bool, i: string, f: string)
    requires AllDigits(i) && AllDigits(f)
    ensures Has(Assembled(negative, i, f), '.') <==> f != ""
    ensures !Has(Assembled(negative, i, ""), '.') && !Has(f, '.')
  {
    var head := Assembled(negative, i, "");
    assert f != "" ==> Assembled(negative, i, f) == head + ['.'] + f;
    assert f != "" ==> Assembled(negative, i, f)[|head|] == '.';
  }

  function Abs(n: int): nat { if n < 0 then -n else n }

  /** The digits before and after the point when the last `scale` of them come after it. */
  function PointedParts(digits: string, scale: nat): (r: (string, string)) {
    if |digits| > scale then (digits[..|digits| - scale], digits[|digits| - scale..])
    else ("0", Zeros(scale - |digits|) + digits)
  }

  /** Integer and fraction digits that `toPlainString` prints. */
  function PlainParts(b: BigDecimal): (r: (string, string)) {
    var digits := NatText(Abs(b.unscaled));
    if b.scale <= 0 then (digits + Zeros(-b.scale), "") else PointedParts(digits, b.scale)
  }

  function Up(n: int): nat { if n < 0 then 0 else n }

  lemma PlainDigitsOfInteger(b: BigDecimal)
    requires b.scale <= 0 && (b.scale < 0 ==> b.unscaled != 0)
    ensures var (i, f) := PlainParts(b);
      && f == "" && AllDigits(i) && i != "" && (|i| == 1 || i[0] != '0')
      && NatOf(i) == Shift(Abs(b.unscaled), -b.scale)
  {
    NatTextIsExact(Abs(b.unscaled));
    AppendZeros(NatText(Abs(b.unscaled)), -b.scale);
  }

  lemma AppendZeros(digits: string, k: nat)
    requires AllDigits(digits) && digits != ""
    ensures AllDigits(digits + Zeros(k)) && NatOf(digits + Zeros(k)) == Shift(NatOf(digits), k)
    ensures (digits + Zeros(k))[0] == digits[0]
  {
    NatOfAppend(digits, Zeros(k));
    NatOfZeros(k);
  }

  lemma PlainDigitsOfFraction(b: BigDecimal)
    requires b.scale > 0
    ensures var (i, f) := PlainParts(b);
      && AllDigits(i) && AllDigits(f) && |f| == b.scale && i != "" && (|i| == 1 || i[0] != '0')
      && NatOf(i + f) == Abs(b.unscaled) && (b.unscaled % 10 != 0 ==> f[|f| - 1] != '0')
  {
    var digits := NatText(Abs(b.unscaled));
    NatTextIsExact(Abs(b.unscaled));
    assert Abs(b.unscaled) == 0 ==> |digits| == 1;
    PointedDigits(digits, b.scale);
    LastDigit(digits);
    AbsModTen(b.unscaled);
  }

  lemma AbsModTen(n: int)
    ensures Abs(n) % 10 == 0 <==> n % 10 == 0
  {
  }

  lemma PointedDigits(digits: string, scale: nat)
    requires scale > 0 && AllDigits(digits) && digits != "" && (|digits| == 1 || digits[0] != '0')
    ensures var (i, f) := PointedParts(digits, scale); ArePointed(i, f, digits, scale)
  {
    hide ArePointed, NatOf, AllDigits;
    if |digits| > scale {
      CutDigits(digits, |digits| - scale);
    } else {
      PaddedDigits(digits, scale - |digits|);
    }
  }

  /** `i` and `f` hold the digits, the last `scale` of them in `f`. */
  predicate ArePointed(i: string, f: string, digits: string, scale: nat) {
    && AllDigits(i) && AllDigits(f) && |f| == scale && i != "" && (|i| == 1 || i[0] != '0')
    && AllDigits(i + f) && AllDigits(digits) && NatOf(i + f) == NatOf(digits)
    && f != "" && digits != "" && f[|f| - 1] == digits[|digits| - 1]
  }

  lemma CutDigits(digits: string, k: nat)
    requires AllDigits(digits) && 0 < k < |digits| && digits[0] != '0'
    ensures ArePointed(digits[..k], digits[k..], digits, |digits| - k)
  {
    hide NatOf;
    assert digits[..k] + digits[k..] == digits;
  }

  lemma PaddedDigits(digits: string, z: nat)
    requires AllDigits(digits) && digits != ""
    ensures ArePointed("0", Zeros(z) + digits, digits, z + |digits|)
  {
    hide NatOf;
    NatOfPadded(z, digits);
    NatOfPadded(1, Zeros(z) + digits);
    assert "0" == Zeros(1);
  }

  lemma PointedText(sign: string, digits: string, scale: nat)
    requires scale > 0
    ensures var (i, f) := PointedParts(digits, scale);
      f != "" && ValueString(sign, digits, scale) == sign + (i + ['.'] + f)
  {
    var insertion := |digits| - scale;
    if insertion <= 0 {
      assert sign + "0." + Zeros(-insertion) + digits == sign + (['0'] + ['.'] + (Zeros(-insertion) + digits));
      assert insertion == 0 ==> Zeros(0) + digits == digits;
    }
  }

  lemma PlainTextIsAssembled(b: BigDecimal)
    requires b.scale < 0 ==> b.unscaled != 0
    ensures var (i, f) := PlainParts(b); PlainText(b) == Assembled(b.unscaled < 0, i, f)
  {
    var digits := NatText(Abs(b.unscaled));
    var sign := if b.unscaled < 0 then "-" else "";
    if b.scale > 0 {
      PointedText(sign, digits, b.scale);
    } else {
      SignedDigits(b.unscaled, Zeros(-b.scale));
      assert b.scale == 0 ==> digits + Zeros(0) == digits;
    }
  }

  lemma SignedDigits(n: int, zeros: string)
    ensures IntText(n) + zeros == (if n < 0 then "-" else "") + (NatText(Abs(n)) + zeros)
  {
    if n < 0 {
      assert IntText(n) == "-" + NatText(-n);
    } else {
      assert "" + (NatText(n) + zeros) == NatText(n) + zeros;
    }
  }

  /** `toPlainString` prints all digits of the number, and as many after the point as the scale says. */
  lemma PlainTextParts(b: BigDecimal)
    requires b.scale < 0 ==> b.unscaled != 0
    ensures var (i, f) := PlainParts(b);
      && AllDigits(i) && AllDigits(f)
      && i != "" && (|i| == 1 || i[0] != '0')
      && PlainText(b) == Assembled(b.unscaled < 0, i, f)
      && |f| == Up(b.scale)
      && NatOf(i + f) == Shift(Abs(b.unscaled), Up(-b.scale))
      && (f != "" && b.unscaled % 10 != 0 ==> f[|f| - 1] != '0')
  {
    PlainTextIsAssembled(b);
    if b.scale <= 0 {
      PlainDigitsOfInteger(b);
      assert PlainParts(b).0 + "" == PlainParts(b).0;
    } else {
      PlainDigitsOfFraction(b);
    }
  }

  lemma AssembledIsNumeral(negative: bool, i: string, f: string)
    requires AllDigits(i) && AllDigits(f) && i != ""
    ensures var s := Assembled(negative, i, f);
      IsNumeral(s) && Parse(s) == Some(BigDecimal(Signed(negative, NatOf(i + f)), |f|))
  {
    PartsOfAssembled(negative, i, f);
  }

  lemma AssembledIsCanonical(negative: bool, i: string, f: string)
    requires AllDigits(i) && AllDigits(f) && i != "" && (|i| == 1 || i[0] != '0')
    requires f != "" ==> f[|f| - 1] != '0'
    requires negative ==> NatOf(i + f) > 0
    ensures IsCanonical(Assembled(negative, i, f))
  {
    PartsOfAssembled(negative, i, f);
    PointOfAssembled(negative, i, f);
    if negative {
      SomeNonZero(i + f);
    }
  }

  /** The same number with a scale that is not negative. */
  function AtLeastZero(b: BigDecimal): BigDecimal {
    BigDecimal(Shift(b.unscaled, Up(-b.scale)), Up(b.scale))
  }

  /** Printing plainly and reading back: same number; the scale is raised to zero if it was negative. */
  lemma ParseOfPlainText(b: BigDecimal)
    requires b.scale < 0 ==> b.unscaled != 0
    ensures IsNumeral(PlainText(b)) && Parse(PlainText(b)) == Some(AtLeastZero(b))
  {
    hide PlainText, PlainParts, Assembled, IsNumeral, Parse;
    PlainTextParts(b);
    var (i, f) := PlainParts(b);
    SignedShift(b.unscaled, Up(-b.scale));
    AssembledIsNumeral(b.unscaled < 0, i, f);
  }

  /** Cut at the point, the printed text has as many fraction characters as the scale says. */
  lemma SplitOfPlainText(b: BigDecimal)
    requires b.scale < 0 ==> b.unscaled != 0
    ensures Has(PlainText(b), '.') <==> b.scale > 0
    ensures var parts := Split(PlainText(b), '.');
      if b.scale > 0 then |parts| == 2 && |parts[1]| == b.scale else |parts| == 1
  {
    PlainTextParts(b);
    var (i, f) := PlainParts(b);
    PointOfAssembled(b.unscaled < 0, i, f);
    SplitOfAssembled(b.unscaled < 0, i, f);
  }

  /** What `toPlainString` prints is canonical when no zero can be stripped from the fraction. */
  lemma PlainTextIsCanonical(b: BigDecimal)
    requires b.scale < 0 ==> b.unscaled != 0
    requires b.scale <= 0 || b.unscaled % 10 != 0
    ensures IsCanonical(PlainText(b))
  {
    PlainTextParts(b);
    var (i, f) := PlainParts(b);
    SignedShift(b.unscaled, Up(-b.scale));
    AssembledIsCanonical(b.unscaled < 0, i, f);
  }

  lemma SignedShift(n: int, k: nat)
    ensures Signed(n < 0, Shift(Abs(n), k)) == Shift(n, k)
    ensures n < 0 ==> Shift(Abs(n), k) > 0
  {
    ShiftSign(n, k);
  }

  lemma SomeNonZero(s: string)
    requires AllDigits(s) && NatOf(s) > 0
    ensures exists k :: 0 <= k < |s| && s[k] != '0'
  {
    var z := LeadingZeros(s);
  }

  lemma TextOfParts(s: string)
    requires FractionDigits(s) == "" <==> !Has(s, '.')
    ensures s == Assembled(IsNegative(s), IntDigits(s), FractionDigits(s))
  {
    BodyKeepsPoint(s);
    BodyOfParts(Body(s));
    IndexOfIsFirst(Body(s), '.');
  }

  lemma BodyOfParts(b: string)
    ensures var i := IndexOf(b, '.'); if i < |b| then b == b[..i] + ['.'] + b[i + 1..] else b == b[..i] && !Has(b, '.')
  {
    IndexOfIsFirst(b, '.');
  }

  lemma BodyKeepsPoint(s: string)
    ensures s == (if IsNegative(s) then "-" else "") + Body(s)
    ensures Has(s, '.') <==> Has(Body(s), '.')
  {
    assert IsNegative(s) ==> s == ['-'] + Body(s);
  }

  lemma SignOfCanonical(s: string)
    requires IsCanonical(s)
    ensures Parse(s).Some? && (Parse(s).value.unscaled < 0 <==> IsNegative(s))
    ensures Abs(Parse(s).value.unscaled) == NatOf(IntDigits(s) + FractionDigits(s))
  {
    if IsNegative(s) {
      SomeDigitNonZero(IntDigits(s) + FractionDigits(s));
    }
  }

  lemma PlainPartsOfCanonical(s: string)
    requires IsCanonical(s)
    ensures Parse(s).Some? && PlainParts(Parse(s).value) == (IntDigits(s), FractionDigits(s))
  {
    var i, f, b := IntDigits(s), FractionDigits(s), Parse(s).value;
    SignOfCanonical(s);
    if f == "" {
      assert i + f == i;
      PlainPartsOfInteger(i, b);
    } else if i[0] != '0' {
      PlainPartsOfMixed(i, f, b);
    } else {
      assert i == "0";
      PlainPartsOfFraction(f, b);
    }
  }

  lemma PlainPartsOfInteger(i: string, b: BigDecimal)
    requires AllDigits(i) && i != "" && (|i| == 1 || i[0] != '0')
    requires Abs(b.unscaled) == NatOf(i) && b.scale == 0
    ensures PlainParts(b) == (i, "")
  {
    NatTextOfNatOf(i);
    assert i + Zeros(0) == i;
  }

  lemma PlainPartsOfMixed(i: string, f: string, b: BigDecimal)
    requires AllDigits(i) && AllDigits(f) && i != "" && i[0] != '0' && f != ""
    requires Abs(b.unscaled) == NatOf(i + f) && b.scale == |f|
    ensures PlainParts(b) == (i, f)
  {
    NatTextOfNatOf(i + f);
    assert (i + f)[..|i|] == i && (i + f)[|i|..] == f;
  }

  lemma PlainPartsOfFraction(f: string, b: BigDecimal)
    requires AllDigits(f) && f != "" && f[|f| - 1] != '0'
    requires Abs(b.unscaled) == NatOf("0" + f) && b.scale == |f|
    ensures PlainParts(b) == ("0", f)
  {
    var z := LeadingZerosOfFraction(f);
    assert f == Zeros(z) + f[z..];
  }

  lemma LeadingZerosOfFraction(f: string) returns (z: nat)
    requires AllDigits(f) && f != "" && f[|f| - 1] != '0'
    ensures z < |f| && f[..z] == Zeros(z) && NatText(NatOf("0" + f)) == f[z..]
  {
    LastDigit(f);
    assert "0" + f == Zeros(1) + f;
    NatOfPadded(1, f);
    z := LeadingZeros(f);
  }

  /** A canonical text is what `toPlainString` prints for the decimal read from it. */
  lemma CanonicalDecimal(s: string) returns (b: BigDecimal)
    requires IsCanonical(s)
    ensures Parse(s) == Some(b) && PlainText(b) == s
    ensures b.scale >= 0 && (b.scale == 0 || b.unscaled % 10 != 0)
    ensures Scale(Value(s), b.scale) == b.unscaled as real
  {
    b := Parse(s).value;
    assert PlainText(b) == s by { PlainTextOfCanonical(s); }
    CanonicalUnscaled(s);
    ParseIsExact(s);
  }

  lemma PlainTextOfCanonical(s: string)
    requires IsCanonical(s)
    ensures Parse(s).Some? && PlainText(Parse(s).value) == s
  {
    TextOfParts(s);
    SignOfCanonical(s);
    PlainPartsOfCanonical(s);
    PlainTextIsAssembled(Parse(s).value);
  }

  lemma {:induction false} SomeDigitNonZero(s: string)
    requires AllDigits(s) && exists k :: 0 <= k < |s| && s[k] != '0'
    ensures NatOf(s) > 0
  {
    var k :| 0 <= k < |s| && s[k] != '0';
    if k < |s| - 1 {
      assert s[..|s| - 1][k] != '0';
      SomeDigitNonZero(s[..|s| - 1]);
    }
  }

  lemma LastDigit(s: string)
    requires AllDigits(s) && s != ""
    ensures NatOf(s) % 10 == DigitValue(s[|s| - 1])
  {
    ModTen(NatOf(s[..|s| - 1]), DigitValue(s[|s| - 1]));
  }

  lemma ModTen(n: nat, d: nat)
    requires d < 10
    ensures (n * 10 + d) % 10 == d
  {
  }

  lemma CanonicalUnscaled(s: string)
    requires IsCanonical(s)
    ensures Parse(s).Some? && var b := Parse(s).value; b.scale >= 0 && (b.scale == 0 || b.unscaled % 10 != 0)
  {
    if FractionDigits(s) != "" {
      LastDigitOfAppend(IntDigits(s), FractionDigits(s));
    }
  }

  lemma LastDigitOfAppend(i: string, f: string)
    requires AllDigits(i) && AllDigits(f) && f != ""
    ensures AllDigits(i + f) && NatOf(i + f) % 10 == DigitValue(f[|f| - 1])
  {
    LastDigit(i + f);
  }

  /** Two canonical texts of one number are one text. */
  lemma CanonicalIsUnique(s: string, t: string)
    requires IsCanonical(s) && IsCanonical(t) && Value(s) == Value(t)
    ensures s == t
  {
    var a := CanonicalDecimal(s);
    var b := CanonicalDecimal(t);
    LeastScale(a, b, Value(s));
    LeastScale(b, a, Value(s));
  }

  lemma LeastScale(a: BigDecimal, b: BigDecimal, v: real)
    requires a.scale >= 0 && b.scale >= 0 && (a.scale == 0 || a.unscaled % 10 != 0)
    requires Scale(v, a.scale) == a.unscaled as real && Scale(v, b.scale) == b.unscaled as real
    ensures a.scale <= b.scale
  {
    if a.scale > b.scale {
      ScaleTwice(v, b.scale, a.scale - b.scale);
      ScaleOfInt(b.unscaled, a.scale - b.scale);
    }
  }
}
