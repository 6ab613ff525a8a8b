/** The parts of `java.lang.String` and `java.util.StringTokenizer` that the parsers use. */
module JavaStrings {
  predicate IsAscii(s: string) { forall i | 0 <= i < |s| :: s[i] as int < 128 }

  predicate StartsWith(s: string, prefix: string) {
    |prefix| <= |s| && s[..|prefix|] == prefix
  }

  predicate Has(s: string, c: char) { exists k :: 0 <= k < |s| && s[k] == c }

  function IndexFrom(s: string, c: char, from: nat): (i: nat)
    requires from <= |s|
    ensures from <= i <= |s|
    decreases |s| - from
  {
    if from == |s| || s[from] == c then from else IndexFrom(s, c, from + 1)
  }

  /** `s.indexOf(c)`, with the length instead of -1 when there is none. */
  function IndexOf(s: string, c: char): (i: nat)
    ensures i <= |s|
  {
    IndexFrom(s, c, 0)
  }

  lemma {:induction false} IndexFromIsFirst(s: string, c: char, from: nat)
    requires from <= |s|
    ensures var i := IndexFrom(s, c, from); (forall k | from <= k < i :: s[k] != c) && (i < |s| ==> s[i] == c)
    decreases |s| - from
  {
    if from < |s| && s[from] != c { IndexFromIsFirst(s, c, from + 1); }
  }

  lemma IndexOfIsFirst(s: string, c: char)
    ensures var i := IndexOf(s, c); (forall k | 0 <= k < i :: s[k] != c) && (i < |s| ==> s[i] == c)
    ensures IndexOf(s, c) < |s| <==> Has(s, c)
  {
    IndexFromIsFirst(s, c, 0);
  }

  lemma IndexOfFirst(a: string, c: char, b: string)
    requires !Has(a, c)
    ensures IndexOf(a + [c] + b, c) == |a|
  {
    var s := a + [c] + b;
    IndexOfIsFirst(s, c);
    assert s[|a|] == c;
    assert forall k | 0 <= k < |a| :: s[k] == a[k];
  }

  /** All pieces between separators, empty ones included. */
  function Pieces(s: string, c: char): (parts: seq<string>)
    ensures parts != []
  {
    var i := IndexOf(s, c);
    if i == |s| then [s] else [s[..i]] + Pieces(s[i + 1..], c)
  }

  function DropTrailingEmpty(parts: seq<string>): (r: seq<string>)
    ensures r <= parts
    ensures forall k | |r| <= k < |parts| :: parts[k] == ""
    ensures r != [] ==> r[|r| - 1] != ""
  {
    if parts == [] || parts[|parts| - 1] != "" then parts
    else DropTrailingEmpty(parts[..|parts| - 1])
  }

  /** `s.split(regex)` for a regex that matches the one character `c`. */
  function Split(s: string, c: char): seq<string> {
    if !Has(s, c) then [s] else DropTrailingEmpty(Pieces(s, c))
  }

  /** With one separator inside, the split is exactly the text before it and the text after it. */
  lemma {:induction false} SplitAtOne(a: string, c: char, b: string)
    requires !Has(a, c) && !Has(b, c)
    ensures Pieces(a + [c] + b, c) == [a, b]
    ensures Split(a + [c] + b, c) == if b != "" then [a, b] else if a != "" then [a] else []
  {
    var s := a + [c] + b;
    IndexOfFirst(a, c, b);
    assert s[..|a|] == a && s[|a| + 1..] == b;
    IndexOfIsFirst(b, c);
    assert Pieces(b, c) == [b];
    assert Pieces(s, c) == [a, b];
    assert s[|a|] == c;
    if b == "" {
      assert [a, b][..1] == [a];
      assert DropTrailingEmpty([a, b]) == DropTrailingEmpty([a]);
      if a == "" {
        assert [a][..0] == [];
      }
    }
  }

  // ---- Letter case, on ASCII texts ----

  function LowerChar(c: char): char {
    if 'A' <= c <= 'Z' then (c as int + 32) as char else c
  }

  function UpperChar(c: char): char {
    if 'a' <= c <= 'z' then (c as int - 32) as char else c
  }

  function ToLower(s: string): (r: string)
    ensures |r| == |s|
  {
    seq(|s|, i requires 0 <= i < |s| => LowerChar(s[i]))
  }

  function ToLowerAll(parts: seq<string>): (r: seq<string>)
    ensures |r| == |parts|
  {
    seq(|parts|, i requires 0 <= i < |parts| => ToLower(parts[i]))
  }

  lemma ToLowerIdempotent(s: string)
    ensures ToLower(ToLower(s)) == ToLower(s)
  {
  }

  lemma ToLowerAppend(a: string, b: string)
    ensures ToLower(a + b) == ToLower(a) + ToLower(b)
  {
  }

  /** The 26 pairs of letters are exchanged. */
  lemma CaseOfLetter(i: nat)
    requires i < 26
    ensures LowerChar("ABCDEFGHIJKLMNOPQRSTUVWXYZ"[i]) == "abcdefghijklmnopqrstuvwxyz"[i]
    ensures UpperChar("abcdefghijklmnopqrstuvwxyz"[i]) == "ABCDEFGHIJKLMNOPQRSTUVWXYZ"[i]
  {
  }

  lemma CapitalsSpelledOut(c: char)
    ensures c in "ABCDEFGHIJKLMNOPQRSTUVWXYZ" <==> 'A' <= c <= 'Z'
  {
    if 'A' <= c <= 'Z' { assert "ABCDEFGHIJKLMNOPQRSTUVWXYZ"[c as int - 65] == c; }
  }

  lemma SmallLettersSpelledOut(c: char)
    ensures c in "abcdefghijklmnopqrstuvwxyz" <==> 'a' <= c <= 'z'
  {
    if 'a' <= c <= 'z' { assert "abcdefghijklmnopqrstuvwxyz"[c as int - 97] == c; }
  }

  /** No other character changes. */
  lemma CaseOfOthers(c: char)
    ensures c !in "ABCDEFGHIJKLMNOPQRSTUVWXYZ" ==> LowerChar(c) == c
    ensures c !in "abcdefghijklmnopqrstuvwxyz" ==> UpperChar(c) == c
  {
    CapitalsSpelledOut(c);
    SmallLettersSpelledOut(c);
  }

  predicate IsCaseless(c: char) { LowerChar(c) == c && !('a' <= c <= 'z') }

  /** Lower-casing moves no separator, so it commutes with cutting a text into pieces. */
  lemma {:induction false} PiecesOfLower(s: string, c: char)
    requires IsCaseless(c)
    ensures IndexOf(ToLower(s), c) == IndexOf(s, c)
    ensures Pieces(ToLower(s), c) == ToLowerAll(Pieces(s, c))
  {
    IndexOfLower(s, c);
    var i := IndexOf(s, c);
    if i < |s| {
      PiecesOfLower(s[i + 1..], c);
      assert ToLower(s)[i + 1..] == ToLower(s[i + 1..]);
      assert ToLower(s)[..i] == ToLower(s[..i]);
    }
  }

  lemma IndexOfLower(s: string, c: char)
    requires IsCaseless(c)
    ensures IndexOf(ToLower(s), c) == IndexOf(s, c)
    ensures Has(ToLower(s), c) <==> Has(s, c)
  {
    var t := ToLower(s);
    assert forall k | 0 <= k < |s| :: t[k] == c <==> s[k] == c;
    IndexOfIsFirst(s, c);
    IndexOfIsFirst(t, c);
  }

  lemma {:induction false} DropTrailingEmptyOfLower(parts: seq<string>)
    ensures DropTrailingEmpty(ToLowerAll(parts)) == ToLowerAll(DropTrailingEmpty(parts))
  {
    if parts != [] && parts[|parts| - 1] == "" {
      DropTrailingEmptyOfLower(parts[..|parts| - 1]);
      assert ToLowerAll(parts)[..|parts| - 1] == ToLowerAll(parts[..|parts| - 1]);
    } else {
      assert parts != [] ==> |ToLowerAll(parts)[|parts| - 1]| == |parts[|parts| - 1]|;
    }
  }

  lemma SplitOfLower(s: string, c: char)
    requires IsCaseless(c)
    ensures Split(ToLower(s), c) == ToLowerAll(Split(s, c))
  {
    IndexOfLower(s, c);
    PiecesOfLower(s, c);
    DropTrailingEmptyOfLower(Pieces(s, c));
  }

  // ---- Counting separators ----

  /** `new StringTokenizer(s, d).countTokens()`: a token starts at each other character after a `d` or the start. */
  function CountTokens(s: string, d: char, afterDelimiter: bool := true): nat {
    if s == "" then 0
    else (if s[0] != d && afterDelimiter then 1 else 0) + CountTokens(s[1..], d, s[0] == d)
  }

  /** Number of maximal runs of `d`. */
  function Runs(s: string, d: char, inRun: bool := false): nat {
    if s == "" then 0
    else (if s[0] == d && !inRun then 1 else 0) + Runs(s[1..], d, s[0] == d)
  }

  function Occurrences(s: string, d: char): nat {
    if s == "" then 0 else (if s[0] == d then 1 else 0) + Occurrences(s[1..], d)
  }

  predicate HasAdjacent(s: string, d: char) {
    exists k :: 0 <= k < |s| - 1 && s[k] == s[k + 1] == d
  }

  lemma {:induction false} TokensOfPadded(s: string, d: char, after: bool)
    requires d != ' '
    ensures CountTokens(s + " ", d, after) == Runs(s, d, after) + (if after then 1 else 0)
  {
    if s != "" {
      assert (s + " ")[1..] == s[1..] + " ";
      TokensOfPadded(s[1..], d, s[0] == d);
    } else {
      assert (s + " ")[1..] == "";
    }
  }

  /** The padded token count less one is the number of runs of the delimiter. */
  lemma TokensCountRuns(s: string, d: char)
    requires d != ' '
    ensures CountTokens(" " + s + " ", d) - 1 == Runs(s, d)
  {
    assert (" " + s + " ")[1..] == s + " ";
    TokensOfPadded(s, d, false);
  }

  lemma {:induction false} RunsBelowOccurrences(s: string, d: char, inRun: bool)
    ensures Runs(s, d, inRun) <= Occurrences(s, d)
    ensures Runs(s, d, inRun) == Occurrences(s, d) <==> !HasAdjacent(s, d) && !(inRun && s != "" && s[0] == d)
  {
    if s != "" {
      var rest := s[1..];
      RunsBelowOccurrences(rest, d, s[0] == d);
      if HasAdjacent(s, d) {
        var k :| 0 <= k < |s| - 1 && s[k] == s[k + 1] == d;
        if k > 0 { assert rest[k - 1] == rest[k] == d; } else { assert rest[0] == d; }
      } else {
        assert forall k | 0 <= k < |rest| :: rest[k] == s[k + 1];
        assert |s| > 1 ==> rest[0] == s[1];
      }
    }
  }

  /** So it counts the delimiters themselves exactly when no two of them are adjacent. */
  lemma RunsCountOccurrencesExactly(s: string, d: char)
    ensures Runs(s, d) == Occurrences(s, d) <==> !HasAdjacent(s, d)
  {
    RunsBelowOccurrences(s, d, false);
  }

  lemma {:induction false} RunsOfLower(s: string, d: char, inRun: bool)
    requires IsCaseless(d)
    ensures Runs(ToLower(s), d, inRun) == Runs(s, d, inRun)
  {
    if s != "" {
      RunsOfLower(s[1..], d, s[0] == d);
      assert ToLower(s)[1..] == ToLower(s[1..]);
    }
  }

  /** One occurrence: the text around it holds no other. */
  lemma {:induction false} AroundOne(s: string, d: char)
    requires Occurrences(s, d) == 1
    ensures var i := IndexOf(s, d);
      i < |s| && s == s[..i] + [d] + s[i + 1..] && !Has(s[..i], d) && !Has(s[i + 1..], d)
  {
    var i := IndexOf(s, d);
    IndexOfIsFirst(s, d);
    NoOccurrence(s, d);
    OccurrencesAt(s, d, i);
    NoOccurrence(s[i + 1..], d);
  }

  lemma {:induction false} NoOccurrence(s: string, d: char)
    ensures Occurrences(s, d) == 0 <==> !Has(s, d)
  {
    if s != "" {
      NoOccurrence(s[1..], d);
      assert forall k | 0 < k < |s| :: s[k] == s[1..][k - 1];
    }
  }

  lemma {:induction false} OccurrencesAt(s: string, d: char, i: nat)
    requires i < |s| && s[i] == d && forall k | 0 <= k < i :: s[k] != d
    ensures Occurrences(s, d) == 1 + Occurrences(s[i + 1..], d)
  {
    if i > 0 {
      OccurrencesAt(s[1..], d, i - 1);
      assert s[1..][i..] == s[i + 1..];
    }
  }

  lemma {:induction false} RunsAt(s: string, d: char, i: nat)
    requires i < |s| && s[i] == d && forall k | 0 <= k < i :: s[k] != d
    ensures Runs(s, d) == 1 + Runs(s[i + 1..], d, true)
  {
    if i > 0 {
      RunsAt(s[1..], d, i - 1);
      assert s[1..][i..] == s[i + 1..];
    }
  }

  lemma {:induction false} SomeRun(s: string, d: char)
    requires Has(s, d)
    ensures Runs(s, d) > 0
  {
    IndexOfIsFirst(s, d);
    RunsAt(s, d, IndexOf(s, d));
  }
}
