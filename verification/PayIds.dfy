/** `PayId.of` with `AbstractPayId.validate` and `toString`, on ASCII texts. */
module PayIds {
  import opened Wrappers
  import opened JavaStrings
  import opened PercentEncoding

  const SCHEME := "payid:"

  datatype PayId = PayId(account: string, host: string) {
    function ToString(): string { SCHEME + account + ['$'] + host }
  }

  /** `NoHostPart` is the `ArrayIndexOutOfBoundsException` of reading `parts`. */
  datatype PayIdError =
    | NoScheme | NoDollar | TooShort | DollarCount | LeadingPercent
    | NoHostPart | MissingAccount | BadAccount | BadHost

  predicate IsAccountChar(c: char) {
    'a' <= c <= 'z' || 'A' <= c <= 'Z' || '0' <= c <= '9' || c in "-._~" || c in "!$&'()*+,;=" || c == '%'
  }

  predicate IsHostChar(c: char) { IsAccountChar(c) || c == ':' }

  function Normalise(part: string): string { UpperTriplets(ToLower(part)) }

  /** Builder and `validate`: an empty account is never set, and both parts keep to their characters. */
  function Build(account: string, host: string): Result<PayId, PayIdError> {
    if account == "" then Err(MissingAccount)
    else if exists k :: 0 <= k < |account| && !IsAccountChar(account[k]) then Err(BadAccount)
    else if exists k :: 0 <= k < |host| && !IsHostChar(host[k]) then Err(BadHost)
    else Ok(PayId(account, host))
  }

  /** What `of` does with the text after the scheme. */
  function OfRest(rest: string): Result<PayId, PayIdError> {
    if !Has(rest, '$') then Err(NoDollar)
    else if |rest| <= 6 then Err(TooShort)
    else if CountTokens(" " + rest + " ", '$') - 1 != 1 then Err(DollarCount)
    else if StartsWith(rest, "%") then Err(LeadingPercent)
    else
      var parts := Split(rest, '$');
      if |parts| < 2 then Err(NoHostPart)
      else Build(Normalise(parts[0]), Normalise(parts[1]))
  }

  function Of(value: string): Result<PayId, PayIdError>
    requires IsAscii(value)
  {
    if StartsWith(ToLower(value), SCHEME) then OfRest(value[6..]) else Err(NoScheme)
  }

  // ---- Letter case ----

  lemma NormaliseIgnoresCase(part: string)
    ensures Normalise(ToLower(part)) == Normalise(part)
    ensures ToLower(Normalise(part)) == ToLower(part)
  {
    ToLowerIdempotent(part);
    UpperTripletsChangesCaseOnly(ToLower(part));
  }

  lemma OfRestIgnoresCase(rest: string)
    ensures OfRest(ToLower(rest)) == OfRest(rest)
  {
    IndexOfLower(rest, '$');
    TokensCountRuns(rest, '$');
    TokensCountRuns(ToLower(rest), '$');
    RunsOfLower(rest, '$', false);
    assert StartsWith(ToLower(rest), "%") <==> StartsWith(rest, "%") by {
      if rest != "" {
        assert ToLower(rest)[0] == '%' <==> rest[0] == '%';
        assert rest[..1] == [rest[0]] && ToLower(rest)[..1] == [ToLower(rest)[0]];
      }
    }
    SplitOfLower(rest, '$');
    var parts := Split(rest, '$');
    if |parts| >= 2 {
      NormaliseIgnoresCase(parts[0]);
      NormaliseIgnoresCase(parts[1]);
    }
  }

  lemma OfLower(value: string)
    requires IsAscii(value)
    ensures IsAscii(ToLower(value)) && Of(ToLower(value)) == Of(value)
  {
    ToLowerIdempotent(value);
    if |value| >= 6 {
      OfRestIgnoresCase(value[6..]);
      assert ToLower(value)[6..] == ToLower(value[6..]);
    }
  }

  /** Texts that differ only in letter case get the same answer: the same PayId or the same rejection. */
  lemma OfIgnoresCase(a: string, b: string)
    requires IsAscii(a) && IsAscii(b) && ToLower(a) == ToLower(b)
    ensures Of(a) == Of(b)
  {
    OfLower(a);
    OfLower(b);
  }

  // ---- What is accepted ----

  /** The text after the scheme has exactly one dollar sign. */
  predicate HasOneDollar(value: string) { |value| >= 6 && Occurrences(value[6..], '$') == 1 }

  predicate AllAccountChars(s: string) { forall k | 0 <= k < |s| :: IsAccountChar(s[k]) }

  predicate AllHostChars(s: string) { forall k | 0 <= k < |s| :: IsHostChar(s[k]) }

  lemma NormaliseKeepsCharacters(part: string)
    ensures |Normalise(part)| == |part|
    ensures AllAccountChars(Normalise(part)) <==> AllAccountChars(part)
    ensures AllHostChars(Normalise(part)) <==> AllHostChars(part)
  {
    var t := Normalise(part);
    forall k | 0 <= k < |part| ensures IsAccountChar(t[k]) <==> IsAccountChar(part[k]) {
      CaseKeepsCharacters(part[k]);
      assert t[k] == LowerChar(part[k]) || t[k] == UpperChar(LowerChar(part[k]));
    }
    assert forall k | 0 <= k < |part| :: t[k] == ':' <==> part[k] == ':';
  }

  lemma CaseKeepsCharacters(c: char)
    ensures IsAccountChar(LowerChar(c)) <==> IsAccountChar(c)
    ensures IsAccountChar(UpperChar(LowerChar(c))) <==> IsAccountChar(c)
  {
  }

  /** The characters of an account, written out: unreserved ones, sub-delimiters and the percent sign. */
  predicate MayBeInAccount(c: char) {
    || c in "abcdefghijklmnopqrstuvwxyz"
    || c in "ABCDEFGHIJKLMNOPQRSTUVWXYZ"
    || c in "0123456789"
    || c in "-._~!$&'()*+,;=%"
  }

  lemma AccountCharSpelledOut(c: char)
    ensures IsAccountChar(c) <==> MayBeInAccount(c)
    ensures IsHostChar(c) <==> MayBeInAccount(c) || c == ':'
  {
    SmallLettersSpelledOut(c);
    CapitalsSpelledOut(c);
    DigitSpelledOut(c);
    PunctuationParts(c);
  }

  lemma DigitSpelledOut(c: char)
    ensures c in "0123456789" <==> '0' <= c <= '9'
  {
    if '0' <= c <= '9' { assert "0123456789"[c as int - 48] == c; }
  }

  lemma PunctuationParts(c: char)
    ensures c in "-._~!$&'()*+,;=%" <==> c in "-._~" || c in "!$&'()*+,;=" || c == '%'
  {
    assert "-._~!$&'()*+,;=%" == "-._~" + "!$&'()*+,;=" + "%";
  }

  lemma CharactersSpelledOut(s: string)
    ensures AllAccountChars(s) <==> forall k | 0 <= k < |s| :: MayBeInAccount(s[k])
    ensures AllHostChars(s) <==> forall k | 0 <= k < |s| :: MayBeInAccount(s[k]) || s[k] == ':'
  {
    hide MayBeInAccount, IsAccountChar, IsHostChar;
    forall k | 0 <= k < |s| ensures
      && (IsAccountChar(s[k]) <==> MayBeInAccount(s[k]))
      && (IsHostChar(s[k]) <==> MayBeInAccount(s[k]) || s[k] == ':')
    {
      AccountCharSpelledOut(s[k]);
    }
  }

  /** `t` is `part` in normal form: inside percent triplets `0`..`9` and `A`..`F`, elsewhere no capital letter. */
  predicate IsNormalFormOf(t: string, part: string) {
    && |t| == |part|
    && (forall k | 0 <= k < |part| ::
          if InPercentTriplet(part, k)
          then t[k] in "%0123456789ABCDEF" && (t[k] == part[k] || IsLowerOf(part[k], t[k]))
          else t[k] !in "ABCDEFGHIJKLMNOPQRSTUVWXYZ" && (t[k] == part[k] || IsLowerOf(t[k], part[k])))
  }

  /** `lower` is the small letter of `upper`. */
  predicate IsLowerOf(lower: char, upper: char) {
    exists i :: 0 <= i < 26 && lower == "abcdefghijklmnopqrstuvwxyz"[i] && upper == "ABCDEFGHIJKLMNOPQRSTUVWXYZ"[i]
  }

  lemma LowerCharSpelledOut(c: char)
    ensures LowerChar(c) !in "ABCDEFGHIJKLMNOPQRSTUVWXYZ"
    ensures LowerChar(c) == c || IsLowerOf(LowerChar(c), c)
  {
    hide IsLowerOf;
    CapitalsSpelledOut(LowerChar(c));
    if 'A' <= c <= 'Z' { LettersAreLower(c as int - 65); }
  }

  lemma LettersAreLower(i: nat)
    requires i < 26
    ensures IsLowerOf((97 + i) as char, (65 + i) as char)
  {
    assert "abcdefghijklmnopqrstuvwxyz"[i] == (97 + i) as char && "ABCDEFGHIJKLMNOPQRSTUVWXYZ"[i] == (65 + i) as char;
  }

  lemma TripletsOfLower(part: string, k: int)
    requires 0 <= k < |part|
    ensures InPercentTriplet(ToLower(part), k) <==> InPercentTriplet(part, k)
  {
    InTripletSpelledOut(part, k);
    InTripletSpelledOut(ToLower(part), k);
    ToLowerIdempotent(part);
    CaseKeepsTriplets(part, ToLower(part), k);
    CaseKeepsTriplets(part, ToLower(part), k - 1);
    CaseKeepsTriplets(part, ToLower(part), k - 2);
  }

  /** What normalisation does to each character. */
  lemma NormaliseSpelledOut(part: string)
    ensures IsNormalFormOf(Normalise(part), part)
  {
    hide InPercentTriplet, IsLowerOf;
    var lower := ToLower(part);
    UpperTripletsSpelledOut(lower);
    forall k | 0 <= k < |part| ensures
      var t, c := Normalise(part)[k], part[k];
      if InPercentTriplet(part, k)
      then t in "%0123456789ABCDEF" && (t == c || IsLowerOf(c, t))
      else t !in "ABCDEFGHIJKLMNOPQRSTUVWXYZ" && (t == c || IsLowerOf(t, c))
    {
      TripletsOfLower(part, k);
      LowerCharSpelledOut(part[k]);
      if InPercentTriplet(part, k) { InTripletCase(part, k); }
    }
  }

  lemma InTripletCase(part: string, k: int)
    requires 0 <= k < |part| && InPercentTriplet(part, k)
    ensures Normalise(part)[k] == part[k] || IsLowerOf(part[k], Normalise(part)[k])
  {
    hide InPercentTriplet, IsLowerOf;
    TripletsOfLower(part, k);
    InTripletSpelledOut(ToLower(part), k);
    InTripletSpelledOut(part, k);
    var c := part[k];
    assert Normalise(part)[k] == UpperChar(LowerChar(c));
    if 'a' <= c <= 'f' { LettersAreLower(c as int - 97); }
  }

  lemma NormaliseTwice(part: string)
    ensures Normalise(Normalise(part)) == Normalise(part)
  {
    NormaliseIgnoresCase(part);
    NormaliseIgnoresCase(Normalise(part));
  }

  // ---- Runs of dollar signs ----

  predicate AllDollars(s: string) { forall k | 0 <= k < |s| :: s[k] == '$' }

  lemma {:induction false} RunsAfterRun(run: string, tail: string)
    requires AllDollars(run)
    ensures Runs(run + tail, '$', true) == Runs(tail, '$', true)
  {
    if run == "" {
      assert run + tail == tail;
    } else {
      RunsAfterRun(run[1..], tail);
      assert (run + tail)[1..] == run[1..] + tail;
    }
  }

  /** One run of dollar signs is counted exactly when no other follows. */
  lemma CountedOnce(account: string, run: string, tail: string)
    requires !Has(account, '$') && run != "" && AllDollars(run) && (tail == "" || tail[0] != '$')
    ensures CountTokens(" " + (account + run + tail) + " ", '$') - 1 == 1 <==> !Has(tail, '$')
  {
    var rest := account + run + tail;
    TokensCountRuns(rest, '$');
    RunsAt(rest, '$', |account|);
    assert rest[|account| + 1..] == run[1..] + tail;
    RunsAfterRun(run[1..], tail);
    if Has(tail, '$') {
      LaterRun(tail);
    } else {
      NoOccurrence(tail, '$');
      RunsBelowOccurrences(tail, '$', true);
    }
  }

  /** Between the signs of a run all pieces are empty; what follows the run is the last piece. */
  lemma {:induction false} PiecesOfRun(run: string, tail: string)
    requires AllDollars(run) && !Has(tail, '$')
    ensures var parts := Pieces(run + tail, '$');
      && |parts| == |run| + 1 && parts[|run|] == tail && forall k | 0 <= k < |run| :: parts[k] == ""
  {
    var s := run + tail;
    IndexOfIsFirst(s, '$');
    if run == "" {
      assert s == tail;
    } else {
      assert s[0] == '$' && s[1..] == run[1..] + tail;
      PiecesOfRun(run[1..], tail);
      assert Pieces(s, '$') == [""] + Pieces(s[1..], '$');
    }
  }

  /** The split drops the empty pieces at the end, so a run with nothing behind it leaves the account alone. */
  lemma SplitAtRun(account: string, run: string, tail: string)
    requires !Has(account, '$') && |run| > 1 && AllDollars(run) && !Has(tail, '$')
    ensures var parts := Split(account + run + tail, '$');
      if tail == "" then |parts| < 2 else |parts| >= 2 && parts[0] == account && parts[1] == ""
  {
    var rest := account + run + tail;
    var pieces := Pieces(rest, '$');
    assert rest == account + ['$'] + (run[1..] + tail);
    IndexOfFirst(account, '$', run[1..] + tail);
    assert rest[|account| + 1..] == run[1..] + tail && rest[..|account|] == account;
    PiecesOfRun(run[1..], tail);
    assert rest[|account|] == '$';
    assert pieces == [account] + Pieces(run[1..] + tail, '$');
    assert forall k | 0 < k < |run| :: pieces[k] == Pieces(run[1..] + tail, '$')[k - 1];
    assert pieces[|run|] == tail;
  }

  // ---- What becomes of a text ----

  /**
   * Every text after the scheme that has a dollar sign, cut at its first run of them: which check
   * rejects it, and as what it is accepted.
   */
  lemma RestOutcome(account: string, run: string, tail: string)
    requires !Has(account, '$') && run != "" && AllDollars(run) && (tail == "" || tail[0] != '$')
    ensures OfRest(account + run + tail) ==
      if |account| + |run| + |tail| <= 6 then Err(TooShort)
      else if Has(tail, '$') then Err(DollarCount)
      else if account != "" && account[0] == '%' then Err(LeadingPercent)
      else if tail == "" then Err(NoHostPart)
      else if account == "" then Err(MissingAccount)
      else if !AllAccountChars(account) then Err(BadAccount)
      else if |run| == 1 && !AllHostChars(tail) then Err(BadHost)
      else Ok(PayId(Normalise(account), if |run| == 1 then Normalise(tail) else ""))
  {
    hide Normalise, CountTokens, Split, IsAccountChar, IsHostChar;
    var rest := account + run + tail;
    assert rest[|account|] == '$';
    assert rest[..1] == [rest[0]] && rest[0] == (account + run)[0];
    CountedOnce(account, run, tail);
    NormaliseKeepsCharacters(account);
    NormaliseKeepsCharacters(tail);
    EmptyIsNormal();
    if !Has(tail, '$') {
      if |run| == 1 {
        assert run == ['$'];
        SplitAtOne(account, '$', tail);
      } else {
        SplitAtRun(account, run, tail);
      }
    }
  }

  lemma EmptyIsNormal()
    ensures Normalise("") == ""
  {
  }

  /** The same of a whole text: six characters that must be the scheme, and what follows them. */
  lemma Outcome(scheme: string, account: string, run: string, tail: string)
    requires |scheme| == 6 && !Has(account, '$') && run != "" && AllDollars(run) && (tail == "" || tail[0] != '$')
    requires IsAscii(scheme + (account + run + tail))
    ensures Of(scheme + (account + run + tail)) ==
      if ToLower(scheme) != "payid:" then Err(NoScheme)
      else if |account| + |run| + |tail| <= 6 then Err(TooShort)
      else if Has(tail, '$') then Err(DollarCount)
      else if account != "" && account[0] == '%' then Err(LeadingPercent)
      else if tail == "" then Err(NoHostPart)
      else if account == "" then Err(MissingAccount)
      else if exists k :: 0 <= k < |account| && !MayBeInAccount(account[k]) then Err(BadAccount)
      else if |run| == 1 && exists k :: 0 <= k < |tail| && !(MayBeInAccount(tail[k]) || tail[k] == ':') then Err(BadHost)
      else Ok(PayId(Normalise(account), if |run| == 1 then Normalise(tail) else ""))
  {
    hide OfRest, Normalise, MayBeInAccount, IsAccountChar, IsHostChar;
    var rest := account + run + tail;
    var value := scheme + rest;
    assert value[..6] == scheme && value[6..] == rest;
    assert ToLower(value)[..6] == ToLower(scheme);
    RestOutcome(account, run, tail);
    CharactersSpelledOut(account);
    CharactersSpelledOut(tail);
  }

  /** Texts without the scheme, or with no dollar sign after it. */
  lemma NoSchemeOrDollar(value: string)
    requires IsAscii(value)
    ensures Of(value) == Err(NoScheme) <==> |value| < 6 || ToLower(value[..6]) != "payid:"
    ensures Of(value) == Err(NoDollar) <==> |value| >= 6 && ToLower(value[..6]) == "payid:" && !Has(value[6..], '$')
  {
    if |value| >= 6 { assert ToLower(value)[..6] == ToLower(value[..6]); }
  }

  /**
   * Which texts with one dollar sign are accepted, and as what: both sides of the sign are there
   * and hold only their characters, no percent sign leads, seven characters at least follow the
   * scheme; the PayId is the two sides, each in normal form.
   */
  lemma AcceptedExactly(scheme: string, account: string, host: string)
    requires |scheme| == 6 && !Has(account, '$') && !Has(host, '$')
    requires IsAscii(scheme + (account + ['$'] + host))
    ensures Of(scheme + (account + ['$'] + host)).Ok? <==>
      && ToLower(scheme) == "payid:" && |account| + |host| >= 6
      && account != "" && account[0] != '%' && host != ""
      && (forall k | 0 <= k < |account| :: MayBeInAccount(account[k]))
      && (forall k | 0 <= k < |host| :: MayBeInAccount(host[k]) || host[k] == ':')
    ensures Of(scheme + (account + ['$'] + host)).Ok? ==>
      var p := Of(scheme + (account + ['$'] + host)).value;
      && p == PayId(Normalise(account), Normalise(host))
      && IsNormalFormOf(p.account, account) && IsNormalFormOf(p.host, host)
  {
    hide Of, Normalise, IsNormalFormOf, MayBeInAccount;
    Outcome(scheme, account, ['$'], host);
    NormaliseSpelledOut(account);
    NormaliseSpelledOut(host);
  }

  /**
   * Which texts with several dollar signs are accepted, cut at their first run of them: one run
   * only, account characters before it, and anything at all after it, as long as there is
   * something. The host is then empty, whatever came after the run.
   */
  lemma SeveralDollarsExactly(scheme: string, account: string, run: string, tail: string)
    requires |scheme| == 6 && !Has(account, '$') && run != "" && AllDollars(run) && (tail == "" || tail[0] != '$')
    requires |run| > 1 || Has(tail, '$')
    requires IsAscii(scheme + (account + run + tail))
    ensures Of(scheme + (account + run + tail)).Ok? <==>
      && ToLower(scheme) == "payid:" && |account| + |run| + |tail| > 6
      && account != "" && account[0] != '%' && (forall k | 0 <= k < |account| :: MayBeInAccount(account[k]))
      && tail != "" && !Has(tail, '$')
    ensures Of(scheme + (account + run + tail)).Ok? ==>
      var p := Of(scheme + (account + run + tail)).value;
      p == PayId(Normalise(account), "") && IsNormalFormOf(p.account, account)
  {
    hide Of, Normalise, MayBeInAccount;
    Outcome(scheme, account, run, tail);
    NormaliseSpelledOut(account);
  }

  /** An accepted text with one dollar sign is its PayId's printed form, up to letter case. */
  lemma AcceptedIsPrintedForm(value: string)
    requires IsAscii(value) && HasOneDollar(value) && Of(value).Ok?
    ensures ToLower(value) == ToLower(Of(value).value.ToString()) && Of(value).value.host != ""
  {
    var rest, p := value[6..], Of(value).value;
    AroundOne(rest, '$');
    var i := IndexOf(rest, '$');
    var account, host := rest[..i], rest[i + 1..];
    SplitAtOne(account, '$', host);
    assert p == PayId(Normalise(account), Normalise(host));
    NormaliseIgnoresCase(account);
    NormaliseIgnoresCase(host);
    assert value == value[..6] + (account + ['$'] + host);
    ToLowerAppend(value[..6], account + ['$'] + host);
    ToLowerOfParts(account, host);
    assert ToLower(value[..6]) == ToLower(value)[..6] == ToLower(SCHEME);
    assert p.ToString() == SCHEME + (p.account + ['$'] + p.host);
    ToLowerAppend(SCHEME, p.account + ['$'] + p.host);
    ToLowerOfParts(p.account, p.host);
  }

  lemma ToLowerOfParts(account: string, host: string)
    ensures ToLower(account + ['$'] + host) == ToLower(account) + ['$'] + ToLower(host)
  {
    ToLowerAppend(account + ['$'], host);
    ToLowerAppend(account, ['$']);
  }

  /** Accepted texts of one PayId differ only in letter case. */
  lemma SamePayIdSameText(a: string, b: string)
    requires IsAscii(a) && IsAscii(b) && HasOneDollar(a) && HasOneDollar(b)
    requires Of(a).Ok? && Of(a) == Of(b)
    ensures ToLower(a) == ToLower(b)
  {
    AcceptedIsPrintedForm(a);
    AcceptedIsPrintedForm(b);
  }

  lemma PrintedIsAscii(p: PayId)
    requires forall k | 0 <= k < |p.account| :: IsAccountChar(p.account[k])
    requires forall k | 0 <= k < |p.host| :: IsHostChar(p.host[k])
    ensures IsAscii(p.ToString())
  {
  }

  /** Every accepted text with two or more dollar signs has them side by side, and yields an empty host. */
  lemma AdjacentDollarsEmptyHost(value: string)
    requires IsAscii(value) && Of(value).Ok? && !HasOneDollar(value)
    ensures Of(value).value.host == ""
  {
    hide Normalise, IsAccountChar, IsHostChar, CountTokens;
    EmptyIsNormal();
    var rest := value[6..];
    var i := IndexOf(rest, '$');
    IndexOfIsFirst(rest, '$');
    TokensCountRuns(rest, '$');
    RunsAt(rest, '$', i);
    OccurrencesAt(rest, '$', i);
    var tail := rest[i + 1..];
    NoOccurrence(tail, '$');
    assert tail != "" && tail[0] == '$' by {
      if tail == "" || tail[0] != '$' {
        LaterRun(tail);
      }
    }
    assert IndexOf(tail, '$') == 0 by { IndexOfIsFirst(tail, '$'); }
    assert Pieces(tail, '$')[0] == "";
    assert Pieces(rest, '$')[1] == Pieces(tail, '$')[0];
  }

  lemma LaterRun(tail: string)
    requires Has(tail, '$') && (tail == "" || tail[0] != '$')
    ensures Runs(tail, '$', true) > 0
  {
    SomeRun(tail, '$');
  }

  /** Printing a PayId without a host and reading it back fails. */
  lemma EmptyHostIsRejected(account: string)
    requires !Has(account, '$') && IsAscii(account)
    ensures IsAscii(PayId(account, "").ToString()) && Of(PayId(account, "").ToString()).Err?
  {
    var text := PayId(account, "").ToString();
    assert text[6..] == account + ['$'] + "";
    SplitAtOne(account, '$', "");
  }

  lemma AcceptedAccountHasNoDollar(value: string)
    requires IsAscii(value) && Of(value).Ok?
    ensures !Has(Of(value).value.account, '$')
    ensures IsAscii(Of(value).value.ToString())
  {
    var rest := value[6..];
    var first := Split(rest, '$')[0];
    var p := Of(value).value;
    IndexOfIsFirst(rest, '$');
    assert first == rest[..IndexOf(rest, '$')];
    assert forall k | 0 <= k < |first| :: LowerChar(first[k]) == '$' <==> first[k] == '$';
    assert forall k | 0 <= k < |first| :: p.account[k] == '$' <==> ToLower(first)[k] == '$';
    PrintedIsAscii(p);
  }

  /**
   * Parsing the printed form of an accepted PayId gives it back exactly when the text had one
   * dollar sign, which is exactly when the host is not empty.
   */
  lemma PrintParse(value: string)
    requires IsAscii(value) && Of(value).Ok?
    ensures var p := Of(value).value;
      && IsAscii(p.ToString()) && p.ToString() == "payid:" + p.account + "$" + p.host
      && (Of(p.ToString()) == Ok(p) <==> HasOneDollar(value))
      && (p.host != "" <==> HasOneDollar(value))
      && (!HasOneDollar(value) ==> Of(p.ToString()).Err?)
  {
    var p := Of(value).value;
    AcceptedAccountHasNoDollar(value);
    if HasOneDollar(value) {
      AcceptedIsPrintedForm(value);
      OfIgnoresCase(value, p.ToString());
    } else {
      AdjacentDollarsEmptyHost(value);
      EmptyHostIsRejected(p.account);
    }
  }

  /** The parts of an accepted PayId are in the normal form of section 6.2.2.1 of RFC 3986. */
  lemma AcceptedIsNormal(value: string)
    requires IsAscii(value) && Of(value).Ok?
    ensures var p := Of(value).value;
      && Normalise(p.account) == p.account && Normalise(p.host) == p.host
      && IsNormalFormOf(p.account, p.account) && IsNormalFormOf(p.host, p.host)
  {
    hide IsNormalFormOf, Normalise;
    var parts := Split(value[6..], '$');
    NormaliseTwice(parts[0]);
    NormaliseTwice(parts[1]);
    NormaliseSpelledOut(Normalise(parts[0]));
    NormaliseSpelledOut(Normalise(parts[1]));
  }
}
