/** Decimal digit strings and the numbers they denote. */
module Digits {
  predicate IsDigit(c: char) { '0' <= c <= '9' }

  predicate AllDigits(s: string) { forall i | 0 <= i < |s| :: IsDigit(s[i]) }

  function DigitValue(c: char): (d: nat)
    requires IsDigit(c)
    ensures d < 10
  {
    c as int - '0' as int
  }

  function DigitChar(d: nat): (c: char)
    requires d < 10
    ensures IsDigit(c) && DigitValue(c) == d
  {
    ('0' as int + d) as char
  }

  /** `n * 10^k`. */
  function Shift(n: int, k: nat): int {
    if k == 0 then n else 10 * Shift(n, k - 1)
  }

  /** `v * 10^k`. */
  function Scale(v: real, k: nat): real {
    if k == 0 then v else 10.0 * Scale(v, k - 1)
  }

  function NatOf(s: string): nat
    requires AllDigits(s)
  {
    if s == [] then 0 else NatOf(s[..|s| - 1]) * 10 + DigitValue(s[|s| - 1])
  }

  /** `BigInteger.toString(10)` of a number that is not negative. */
  function NatText(n: nat): string {
    if n < 10 then [DigitChar(n)] else NatText(n / 10) + [DigitChar(n % 10)]
  }

  /** The decimal text of a number denotes it and has no leading zero. */
  lemma {:induction false} NatTextIsExact(n: nat)
    ensures var s := NatText(n);
      s != [] && AllDigits(s) && NatOf(s) == n && (n > 0 ==> s[0] != '0')
  {
    if n < 10 {
      assert NatOf([]) == 0;
      assert [DigitChar(n)][..0] == [];
    } else {
      NatTextIsExact(n / 10);
      var s := NatText(n);
      assert s[..|s| - 1] == NatText(n / 10);
    }
  }

  /** `BigInteger.toString(10)`. */
  function IntText(x: int): string {
    if x < 0 then "-" + NatText(-x) else NatText(x)
  }

  /** An optional minus sign and digits, without a superfluous zero or a negative one. */
  predicate IsIntText(s: string) {
    var digits := if s != "" && s[0] == '-' then s[1..] else s;
    && digits != "" && (forall i | 0 <= i < |digits| :: digits[i] in "0123456789")
    && (digits[0] == '0' ==> s == "0")
  }

  lemma DigitSpelledOut(c: char)
    ensures IsDigit(c) <==> c in "0123456789"
    ensures forall d | 0 <= d < 10 :: DigitChar(d) == "0123456789"[d]
  {
    if IsDigit(c) { assert "0123456789"[c as int - 48] == c; }
  }

  /** The decimal text of an integer is the plainest there is. */
  lemma IntTextIsPlain(n: int)
    ensures IsIntText(IntText(n))
  {
    var magnitude := if n < 0 then -n else n;
    var digits := NatText(magnitude);
    NatTextIsExact(magnitude);
    assert n < 0 ==> IntText(n)[1..] == digits;
    forall i | 0 <= i < |digits| ensures digits[i] in "0123456789" { DigitSpelledOut(digits[i]); }
    assert IsDigit(digits[0]);
  }

  function Zeros(n: nat): (s: string)
    ensures |s| == n && forall i | 0 <= i < n :: s[i] == '0'
  {
    seq(n, _ => '0')
  }

  lemma {:induction false} ShiftTwice(n: int, a: nat, b: nat)
    ensures Shift(Shift(n, a), b) == Shift(n, a + b)
  {
    if b > 0 { ShiftTwice(n, a, b - 1); }
  }

  lemma {:induction false} ShiftInjective(m: int, n: int, k: nat)
    requires Shift(m, k) == Shift(n, k)
    ensures m == n
  {
    if k > 0 { ShiftInjective(m, n, k - 1); }
  }

  lemma {:induction false} ShiftSign(n: int, k: nat)
    ensures Shift(n, k) > 0 <==> n > 0
    ensures Shift(n, k) < 0 <==> n < 0
    ensures Shift(-n, k) == -Shift(n, k)
  {
    if k > 0 { ShiftSign(n, k - 1); }
  }

  lemma {:induction false} ScaleTwice(v: real, a: nat, b: nat)
    ensures Scale(Scale(v, a), b) == Scale(v, a + b)
  {
    if b > 0 { ScaleTwice(v, a, b - 1); }
  }

  lemma {:induction false} ScaleInjective(v: real, w: real, k: nat)
    requires Scale(v, k) == Scale(w, k)
    ensures v == w
  {
    if k > 0 { ScaleInjective(v, w, k - 1); }
  }

  lemma {:induction false} ScaleSum(v: real, w: real, k: nat)
    ensures Scale(v + w, k) == Scale(v, k) + Scale(w, k)
    ensures Scale(-v, k) == -Scale(v, k)
  {
    if k > 0 { ScaleSum(v, w, k - 1); }
  }

  lemma {:induction false} ScaleOfInt(n: int, k: nat)
    ensures Scale(n as real, k) == Shift(n, k) as real
  {
    if k > 0 { ScaleOfInt(n, k - 1); }
  }

  lemma {:induction false} NatOfAppend(a: string, b: string)
    requires AllDigits(a) && AllDigits(b)
    ensures AllDigits(a + b)
    ensures NatOf(a + b) == Shift(NatOf(a), |b|) + NatOf(b)
  {
    if b == [] {
      assert a + b == a;
    } else {
      var init := b[..|b| - 1];
      NatOfAppend(a, init);
      assert (a + b)[..|a + b| - 1] == a + init;
      assert NatOf(a + b) == NatOf(a + init) * 10 + DigitValue(b[|b| - 1]);
    }
  }

  lemma {:induction false} NatOfZeros(n: nat)
    ensures NatOf(Zeros(n)) == 0
  {
    if n > 0 {
      NatOfZeros(n - 1);
      assert Zeros(n)[..n - 1] == Zeros(n - 1);
    }
  }

  lemma {:induction false} NatOfPadded(n: nat, s: string)
    requires AllDigits(s)
    ensures NatOf(Zeros(n) + s) == NatOf(s)
  {
    NatOfAppend(Zeros(n), s);
    NatOfZeros(n);
    ShiftSign(0, |s|);
  }

  lemma {:induction false} NatOfPositive(s: string)
    requires AllDigits(s) && s != [] && s[0] != '0'
    ensures NatOf(s) > 0
  {
    if |s| > 1 {
      NatOfPositive(s[..|s| - 1]);
    } else {
      assert NatOf(s[..0]) == 0;
    }
  }

  /** A digit string without a superfluous leading zero is the decimal text of its number. */
  lemma {:induction false} NatTextOfNatOf(s: string)
    requires AllDigits(s) && s != [] && (|s| == 1 || s[0] != '0')
    ensures NatText(NatOf(s)) == s
  {
    if |s| == 1 {
      assert NatOf(s[..0]) == 0;
      assert NatOf(s) == DigitValue(s[0]);
      assert s == [DigitChar(NatOf(s))];
    } else {
      var init := s[..|s| - 1];
      NatTextOfNatOf(init);
      NatOfPositive(init);
      assert s == init + [s[|s| - 1]];
    }
  }

  /** Leading zeros of a digit string that denotes a positive number. */
  lemma {:induction false} LeadingZeros(s: string) returns (z: nat)
    requires AllDigits(s) && NatOf(s) > 0
    ensures z < |s| && s[..z] == Zeros(z) && s[z] != '0'
    ensures NatText(NatOf(s)) == s[z..]
  {
    if s[0] != '0' {
      z := 0;
      NatTextOfNatOf(s);
    } else {
      assert s == Zeros(1) + s[1..];
      NatOfPadded(1, s[1..]);
      var y := LeadingZeros(s[1..]);
      z := y + 1;
      assert s[..z] == [s[0]] + s[1..][..y];
      assert s[1..][y..] == s[z..];
    }
  }
}
