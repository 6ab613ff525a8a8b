/** `AbstractPayId.upperCasePercentEncoded`: section 6.2.2.1 of RFC 3986. */
module PercentEncoding {
  import opened JavaStrings

  predicate IsHexDigit(c: char) {
    '0' <= c <= '9' || 'a' <= c <= 'f' || 'A' <= c <= 'F'
  }

  /** `%` and two hex digits at `i`. */
  predicate IsTripletAt(s: string, i: int) {
    0 <= i && i + 2 < |s| && s[i] == '%' && IsHexDigit(s[i + 1]) && IsHexDigit(s[i + 2])
  }

  /** Position `k` lies in some triplet, wherever that triplet starts. */
  predicate InTriplet(s: string, k: int) {
    IsTripletAt(s, k) || IsTripletAt(s, k - 1) || IsTripletAt(s, k - 2)
  }

  /** The text with every character that lies in a triplet upper-cased, and no other touched. */
  function UpperTriplets(s: string): (r: string)
    ensures |r| == |s|
  {
    seq(|s|, k requires 0 <= k < |s| => if InTriplet(s, k) then UpperChar(s[k]) else s[k])
  }

  function ToUpper(s: string): (r: string)
    ensures |r| == |s|
  {
    seq(|s|, i requires 0 <= i < |s| => UpperChar(s[i]))
  }

  /** `matcher.find()`: the leftmost triplet at `from` or later; -1 when there is none. */
  method FindTriplet(s: string, from: nat) returns (i: int)
    requires from <= |s|
    ensures i == -1 || (from <= i && IsTripletAt(s, i))
    ensures forall k | from <= k < (if i == -1 then |s| else i) :: !IsTripletAt(s, k)
  {
    i := from;
    while i + 2 < |s|
      invariant from <= i <= |s|
      invariant forall k | from <= k < i :: !IsTripletAt(s, k)
    {
      if s[i] == '%' && IsHexDigit(s[i + 1]) && IsHexDigit(s[i + 2]) {
        return;
      }
      i := i + 1;
    }
    i := -1;
  }

  /** The scan: leftmost matches that do not overlap, each replaced by its upper-case form. */
  method UpperCasePercentEncoded(input: string) returns (result: string)
    ensures result == UpperTriplets(input)
    ensures IsUpperInTriplets(result, input)
  {
    UpperTripletsSpelledOut(input);
    hide UpperTriplets, InTriplet, IsUpperInTriplets;
    result := "";
    var appended := 0;
    var found := FindTriplet(input, 0);
    while found != -1
      invariant appended <= |input| && result == UpperTriplets(input)[..appended]
      invariant found == -1 || (appended <= found && IsTripletAt(input, found))
      invariant forall k | appended <= k < (if found == -1 then |input| else found) :: !IsTripletAt(input, k)
      invariant !IsTripletAt(input, appended - 1) && !IsTripletAt(input, appended - 2)
      decreases |input| - appended
    {
      // appendReplacement: the text before the match, then the replacement
      result := result + input[appended..found] + ToUpper(input[found..found + 3]);
      AppendedReplacement(input, appended, found);
      appended := found + 3;
      found := FindTriplet(input, appended);
    }
    // appendTail
    AppendedTail(input, appended);
    result := result + input[appended..];
  }

  /** Triplets cannot overlap: no triplet starts inside another. */
  lemma TripletsStandAlone(s: string, i: int)
    requires IsTripletAt(s, i)
    ensures !IsTripletAt(s, i + 1) && !IsTripletAt(s, i + 2) && !IsTripletAt(s, i - 1) && !IsTripletAt(s, i - 2)
  {
  }

  lemma AppendedReplacement(s: string, from: nat, i: nat)
    requires from <= i && IsTripletAt(s, i)
    requires forall k | from - 2 <= k < i :: !IsTripletAt(s, k)
    ensures UpperTriplets(s)[..i + 3] == UpperTriplets(s)[..from] + s[from..i] + ToUpper(s[i..i + 3])
    ensures !IsTripletAt(s, i + 2) && !IsTripletAt(s, i + 1)
  {
    TripletsStandAlone(s, i);
    UntouchedBetween(s, from, i);
    UpperInside(s, i);
    hide UpperTriplets, ToUpper, IsTripletAt;
    var t := UpperTriplets(s);
    assert t[..i + 3] == t[..from] + t[from..i] + t[i..i + 3];
  }

  lemma UntouchedBetween(s: string, from: nat, to: nat)
    requires from <= to <= |s| && forall k | from - 2 <= k < to :: !IsTripletAt(s, k)
    ensures UpperTriplets(s)[from..to] == s[from..to]
  {
    assert forall k | from <= k < to :: !InTriplet(s, k);
  }

  lemma UpperInside(s: string, i: nat)
    requires IsTripletAt(s, i)
    ensures UpperTriplets(s)[i..i + 3] == ToUpper(s[i..i + 3])
  {
    assert InTriplet(s, i) && InTriplet(s, i + 1) && InTriplet(s, i + 2);
    hide IsTripletAt;
  }

  lemma AppendedTail(s: string, from: nat)
    requires from <= |s| && forall k | from - 2 <= k < |s| :: !IsTripletAt(s, k)
    ensures UpperTriplets(s) == UpperTriplets(s)[..from] + s[from..]
  {
    UntouchedBetween(s, from, |s|);
    assert UpperTriplets(s) == UpperTriplets(s)[..from] + UpperTriplets(s)[from..];
  }

  lemma CaseKeepsTriplets(s: string, t: string, k: int)
    requires ToLower(s) == ToLower(t)
    ensures IsTripletAt(s, k) <==> IsTripletAt(t, k)
  {
    if 0 <= k && k + 2 < |s| {
      assert forall j | k <= j <= k + 2 :: LowerChar(s[j]) == ToLower(s)[j] == ToLower(t)[j] == LowerChar(t[j]);
    }
  }

  /** The normal form differs from the text in letter case only. */
  lemma UpperTripletsChangesCaseOnly(s: string)
    ensures ToLower(UpperTriplets(s)) == ToLower(s)
  {
  }

  /** Normalising twice is normalising once. */
  lemma UpperTripletsIdempotent(s: string)
    ensures UpperTriplets(UpperTriplets(s)) == UpperTriplets(s)
  {
    var t := UpperTriplets(s);
    UpperTripletsChangesCaseOnly(s);
    forall k | 0 <= k < |s| ensures UpperTriplets(t)[k] == t[k] {
      CaseKeepsTriplets(s, t, k);
      CaseKeepsTriplets(s, t, k - 1);
      CaseKeepsTriplets(s, t, k - 2);
    }
  }

  // ---- Character by character ----

  /** Position `k` belongs to a percent sign and the two characters after it, both hex digits of either case. */
  predicate InPercentTriplet(s: string, k: int) {
    exists j :: 0 <= j && k - 2 <= j <= k && j + 2 < |s| && s[j] == '%'
      && s[j + 1] in "0123456789abcdefABCDEF" && s[j + 2] in "0123456789abcdefABCDEF"
  }

  /** `r` is `s` with the letters a to f of its percent triplets made A to F, and nothing else changed. */
  predicate IsUpperInTriplets(r: string, s: string) {
    && |r| == |s|
    && (forall k | 0 <= k < |s| && !InPercentTriplet(s, k) :: r[k] == s[k])
    && (forall k | 0 <= k < |s| && InPercentTriplet(s, k) ::
          && r[k] in "%0123456789ABCDEF"
          && (forall i | 0 <= i < 6 && s[k] == "abcdef"[i] :: r[k] == "ABCDEF"[i])
          && (s[k] !in "abcdef" ==> r[k] == s[k]))
  }

  lemma HexDigitSpelledOut(c: char)
    ensures IsHexDigit(c) <==> c in "0123456789abcdefABCDEF"
  {
    var digits := "0123456789abcdefABCDEF";
    if '0' <= c <= '9' { assert digits[c as int - 48] == c; }
    if 'a' <= c <= 'f' { assert digits[c as int - 87] == c; }
    if 'A' <= c <= 'F' { assert digits[c as int - 49] == c; }
  }

  lemma InTripletSpelledOut(s: string, k: int)
    requires 0 <= k < |s|
    ensures InTriplet(s, k) <==> InPercentTriplet(s, k)
    ensures InTriplet(s, k) ==> s[k] == '%' || IsHexDigit(s[k])
  {
    forall j | 0 <= j && j + 2 < |s| ensures IsTripletAt(s, j) <==>
      s[j] == '%' && s[j + 1] in "0123456789abcdefABCDEF" && s[j + 2] in "0123456789abcdefABCDEF"
    {
      HexDigitSpelledOut(s[j + 1]);
      HexDigitSpelledOut(s[j + 2]);
    }
    assert IsTripletAt(s, k) ==> InPercentTriplet(s, k);
    assert IsTripletAt(s, k - 1) ==> InPercentTriplet(s, k);
    assert IsTripletAt(s, k - 2) ==> InPercentTriplet(s, k);
  }

  /** What the normal form is, character by character. */
  lemma UpperTripletsSpelledOut(s: string)
    ensures IsUpperInTriplets(UpperTriplets(s), s)
  {
    hide InPercentTriplet;
    forall k | 0 <= k < |s| ensures
      && (InTriplet(s, k) <==> InPercentTriplet(s, k))
      && (InTriplet(s, k) ==>
            && UpperChar(s[k]) in "%0123456789ABCDEF"
            && (forall i | 0 <= i < 6 && s[k] == "abcdef"[i] :: UpperChar(s[k]) == "ABCDEF"[i])
            && (s[k] !in "abcdef" ==> UpperChar(s[k]) == s[k]))
    {
      InTripletSpelledOut(s, k);
      if InTriplet(s, k) { UpperDigitSpelledOut(s[k]); }
    }
  }

  lemma UpperDigitSpelledOut(c: char)
    requires c == '%' || IsHexDigit(c)
    ensures UpperChar(c) in "%0123456789ABCDEF"
    ensures forall i | 0 <= i < 6 && c == "abcdef"[i] :: UpperChar(c) == "ABCDEF"[i]
    ensures c !in "abcdef" ==> UpperChar(c) == c
  {
    var digits := "%0123456789ABCDEF";
    var u := UpperChar(c);
    if c == '%' { assert digits[0] == u; }
    else if '0' <= c <= '9' { assert digits[c as int - 47] == u; }
    else { assert digits[u as int - 54] == u; }
    if 'a' <= c <= 'f' { assert "abcdef"[c as int - 97] == c; }
  }
}
