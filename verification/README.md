# A verified model of Xpring4J's reliable submission, money conversion, PayID and wire codecs

The Dafny files model the parts of the Java client whose correctness is not visible from one method body:

- **Reliable submission** (`Ledger`, `Rpc`, `Submission`, `Finality`, `Sending`,
  `DepositAuth`, `BoundedPolling`, `Expiry`, `Outcomes`,
  `Clients`). The remote node is a
  state machine that opens and validates ledgers, includes, learns and forgets transactions. Before every RPC it makes any
  number of moves; a script lists them, together with the RPCs that fail, so a statement about every script is a statement
  about every interleaving of ledger closings with the client's separate reads. `Submission` says what each client method
  does to that environment, `Clients` has the two clients as classes with the polling loop, each method proved equal to its
  function and promising, in terms of the node, what a caller relies on. `Finality` proves what the wait guarantees, `Sending`
  and `DepositAuth` what whole calls guarantee and exactly when, `BoundedPolling` whether and how soon the loop
  ends, `Expiry` which expired transactions it can notice, `Outcomes` with which answer or error
  the wait and each whole call end. Ledger indices are unsigned 32-bit on
  the wire and signed `int` in Java, and the model keeps that difference.
- **Decimal money** (`Digits`, `BigDecimals`, `DropsConversion`). `BigDecimal` is an unscaled integer and a scale, which may
  be negative; parsing, zero stripping, plain printing, splitting and re-parsing are done on texts as the source does them.
  What a numeral denotes is defined separately, as a real number read digit by digit.
- **PayIDs** (`JavaStrings`, `PercentEncoding`, `PayIds`). The parser, the percent-encoding scan (section 6.2.2.1 of
  RFC 3986), the character checks and the printer, over ASCII texts.
- **Wire forms** (`Words`, `HexCodec`, `Proto`, `Memos`, `Conversions`, `PaymentHistory`). Hex and byte arrays, memo lists,
  amounts through `longValue`, the partial conversions from protobuf and the loop of `paymentHistory`.

## Findings

- Whatever the wait returns for a transaction whose last ledger is below 2^31 is final. From 2^31 on, Java reads the
  index as a negative number and the wait can end while the transaction can still be included. `Finality.FinalExactly`
  gives the exact condition (`ComparesRight`) for the wait, `Finality.EarlyEnd` the failing run. For a whole send,
  `Sending.SendSettlesExactly` gives it at the moment of submission and `Sending.EverySendSettlesExactly` before the call:
  the validated ledgers have reached 2^31 or the open one 2^32 - 10. From every other node some run of the call goes wrong,
  namely one that submits at an open index from 2^31 - 10 to 2^32 - 11 while the validated index is below 2^31.
- Below 2^31 the wait may not return at all. No `int` exceeds the last ledger 2^31 - 1, and none of the indices from 2^31 on
  exceeds a last ledger below 2^31 as a signed number, so the wait never notices that such a transaction has expired; however
  large its budget, only an inclusion or an error ends it. `BoundedPolling.EndsExactly` and `SendEndsExactly` say exactly
  when the loop and a whole send return as the index counts up, `Expiry.ExpirySeenExactly` and `SendSeesExpiryExactly` when
  any run can end on the expiry, and `Expiry.ExpiryOverlooked` is the failing call: it submits at the open index 2^31 - 11.
  The wrapped last ledgers 0 to 9, of open indices from 2^32 - 10 on, are of this kind once the validated index is 2^31 or
  more: on such a node every send settles only because none returns the hash of a new payment
  (`Expiry.SendNeverReturnsExactly`).
- The exit for a missing last ledger is taken for the open index 2^32 - 10 only (`Sending.NoLastLedgerExactly`); no run of a
  call takes it if and only if the open index is past that before the call (`Sending.NoRunLacksLastLedgerExactly`).
- The repository's README (line 185) says a payment that will never be validated is FAILED. The code answers PENDING, for
  ever: `Finality.LostIsPendingForever`. It also never answers UNKNOWN.
- The inner `enableDepositAuth` may report PENDING together with `validated == true`, from two reads, exactly when the
  transaction is included between them (`DepositAuth.InnerFieldsExactly`); it can happen from every node a working wallet
  can submit to, except when the open index is at its very end (`DepositAuth.InnerFieldsAgreeExactly`). The reliable client
  never reports that pair; the opposite one, not validated but not PENDING, only where the indices compare wrong.
- A PayID with one run of several dollar signs, such as `payid:alice$$example.com`, is accepted with an empty host, whatever
  follows the run (`PayIds.SeveralDollarsExactly`), and only for those texts does parsing the printed form fail.
- `paymentHistory` lets a `NumberFormatException` escape, instead of `paymentConversionFailure`, when the first payment that
  does not convert has an issued amount such as "1.5" (`PaymentHistory.UncaughtExactly`, `PaymentHistory.FractionEscapes`).
- The pattern of the two conversions also matches texts that are no numerals (no digit, or an apostrophe); those end in
  `NumberFormatException` instead of `XrpException`. The second `matches()` call re-tests the original text and never fails.

## Model

| member | source | states |
|---|---|---|
| Ledger.RunIsValid | src/main/java/io/xpring/xrpl/model/XrpTransaction.java:75-81 | in every run of the node, each inclusion is in a validated ledger not past the transaction's last ledger sequence |
| Ledger.InclusionIsPermanent | src/main/java/io/xpring/xrpl/TransactionStatus.java:5-12 | once in a validated ledger, always there, in the same ledger with the same result code |
| Ledger.ExpiredStaysOut | src/main/java/io/xpring/xrpl/model/XrpTransaction.java:75-81 | a transaction outside the validated ledgers when its last ledger has been validated stays outside in every run |
| Ledger.LostExactlyWhenExpired | src/main/java/io/xpring/xrpl/model/XrpTransaction.java:75-81 | a transaction not yet included is lost for good if and only if its last ledger has been validated |
| Finality.RawStatusIsTrue | src/main/java/io/xpring/xrpl/RawTransactionStatus.java:15-28 | a raw status read is what the node holds: validated exactly when included, with the ledger's code then and the provisional one before, and the last ledger as a signed int; it fails exactly with the RPC or for an unknown transaction |
| Finality.LedgerStatusSpelledOut | src/main/java/io/xpring/xrpl/DefaultXrpClient.java:141-148 | outside the validated ledgers PENDING; inside them SUCCEEDED exactly for codes that begin with t, e, s, else FAILED |
| Finality.PollEndsExactly | src/main/java/io/xpring/xrpl/ReliableSubmissionXrpClient.java:126-134 | one poll answers a status, the node's of its second read, exactly when the index it read first is past the last ledger or the transaction was included by then; it fails exactly when one of the reads does, with the RPC error |
| Finality.PollIsFinal | src/main/java/io/xpring/xrpl/ReliableSubmissionXrpClient.java:126-134 | a poll that ends the wait is final, because the index is read before the status |
| Finality.ReadOrderMatters | src/main/java/io/xpring/xrpl/ReliableSubmissionXrpClient.java:127-130 | from every node with an open deadline, the opposite read order has a run with an unvalidated status, a passed index and an included transaction |
| Finality.AwaitIsFinal | src/main/java/io/xpring/xrpl/ReliableSubmissionXrpClient.java:90-143 | finality in every interleaving: a status the wait returns is validated with the ledger's code, or the transaction is in no validated ledger of any continuation |
| Finality.FinalExactly | src/main/java/io/xpring/xrpl/ReliableSubmissionXrpClient.java:128-131 | every wait from a node state is final if and only if there is no last ledger, or it is below 2^31, or the validated index has reached 2^31, or the transaction is included already |
| Finality.EarlyEnd | src/main/java/io/xpring/xrpl/ReliableSubmissionXrpClient.java:128-131 | the failing run: for a last ledger from 2^31 on and a validated index below, the wait returns an unvalidated status although a later ledger can include the transaction |
| Finality.AwaitMoves | src/main/java/io/xpring/xrpl/ReliableSubmissionXrpClient.java:97-104 | whatever the indices, a validated status is final; the exit for a missing last ledger is taken exactly when the last ledger reads as zero in an answered first status |
| Finality.FinalAnswersForever | src/main/java/io/xpring/xrpl/DefaultXrpClient.java:136-149 | after a final status, getPaymentStatus on every later node gives the one answer the ledger implies, unless the call fails or the node has forgotten |
| Finality.LostIsPendingForever | src/main/java/io/xpring/xrpl/DefaultXrpClient.java:141-144 | an expired transaction that was not included is answered PENDING in every continuation, never FAILED |
| Finality.PendingForeverExactly | src/main/java/io/xpring/xrpl/DefaultXrpClient.java:141-144 | the answer PENDING lasts for ever if and only if no continuation includes the transaction |
| Sending.LastLedgerExactly | src/main/java/io/xpring/xrpl/DefaultXrpClient.java:477-478 | the last ledger is the open index plus ten modulo 2^32; it reads as absent for exactly one open index and as a non-negative int exactly outside 2^31 - 10 to 2^32 - 11 |
| Sending.BaseTransaction | src/main/java/io/xpring/xrpl/DefaultXrpClient.java:460-488 | a preparation succeeds exactly when the wallet's address and key decode and three RPCs answer, each failure has its error, and no RPC is made after one; the transaction holds account, fee, sequence, key bytes and a last ledger ten past the open index of the third read |
| Sending.SubmittedTransaction | src/main/java/io/xpring/xrpl/DefaultXrpClient.java:356-362 | a submission succeeds exactly when the preparation does and a fourth RPC is answered; what is then on the node is the prepared transaction, fee, sequence, key and all, with the data and memos asked for |
| Sending.SentTransaction | src/main/java/io/xpring/xrpl/DefaultXrpClient.java:181-247 | sendWithDetails ends in a hash or in each of its errors exactly when stated; its payment is as prepared from the sender, with memos that read back as the list given |
| Sending.SendIsIrreversible | src/main/java/io/xpring/xrpl/ReliableSubmissionXrpClient.java:47-51 | when reliable sendWithDetails returns a hash and the indices compared right at submission, every later getPaymentStatus gives the ledger's answer of that moment, and a payment not included by then never is |
| Sending.SendSettlesExactly | src/main/java/io/xpring/xrpl/ReliableSubmissionXrpClient.java:47-51 | whatever led up to the submission, every continuation of the call settles if and only if the indices compare right on the node submitted to |
| Sending.EverySendSettlesExactly | src/main/java/io/xpring/xrpl/ReliableSubmissionXrpClient.java:47-51 | before the call: every run of it settles if and only if the validated index has reached 2^31 or the open one 2^32 - 10, given one sequence number of the account without an included transaction |
| Sending.NoLastLedgerExactly | src/main/java/io/xpring/xrpl/ReliableSubmissionXrpClient.java:97-104 | the exit for a missing last ledger is taken if and only if the preparation read the open index 2^32 - 10 and the first status was answered |
| Sending.NoRunLacksLastLedgerExactly | src/main/java/io/xpring/xrpl/ReliableSubmissionXrpClient.java:97-104 | before the call: no run of it takes that exit if and only if the open index is past 2^32 - 10, for a wallet that can sign |
| Sending.SentTransactionCarriesDetails | src/main/java/io/xpring/xrpl/DefaultXrpClient.java:181-247 | the transaction behind a reliably returned hash is the payment asked for, its memos decode to the given list, and account, fee, sequence, key and last ledger are as prepared |
| Sending.PaymentCarriesAmount | src/main/java/io/xpring/xrpl/DefaultXrpClient.java:199-209 | the payment's drops are congruent to the amount modulo 2^64 and equal to it exactly on the range of long; the destination is the one given, and no other field is set |
| DepositAuth.InnerFieldsExactly | src/main/java/io/xpring/xrpl/DefaultXrpClient.java:356-372 | each field of the inner result is true of its own read, a status other than PENDING comes with validated, and the fields disagree if and only if the transaction was included between the reads |
| DepositAuth.InnerOutcome | src/main/java/io/xpring/xrpl/DefaultXrpClient.java:356-372 | the inner call has a result if and only if the submission and both reads are answered, else the submission's error or the RPC's; it submits account flag 9, no memos, as prepared from the wallet |
| DepositAuth.InnerFieldsAgreeExactly | src/main/java/io/xpring/xrpl/DefaultXrpClient.java:363-371 | before the call: the fields of every run's result agree if and only if the wallet cannot sign, or the open index is within ten of 2^32 and nine ledgers are validated, given one sequence number of the account without an included transaction |
| DepositAuth.ReliableFieldsAgree | src/main/java/io/xpring/xrpl/ReliableSubmissionXrpClient.java:79-88 | in every run validated rules out PENDING, and the fields disagree if and only if the wait ended unvalidated and the transaction was included before the last read; where the wait compares indices right they agree, and the status is the answer for ever |
| DepositAuth.ReliableFieldsAgreeExactly | src/main/java/io/xpring/xrpl/ReliableSubmissionXrpClient.java:79-88 | before the call: the fields of every run's reliable result agree if and only if the validated index has reached 2^31 or the open one 2^32 - 10, given one sequence number of the account without an included transaction |
| DepositAuth.IncludedAfterEarlyEnd | src/main/java/io/xpring/xrpl/ReliableSubmissionXrpClient.java:79-88 | the failing run from every other node: SUCCEEDED and not validated |
| BoundedPolling.StopsAtFirstAnswer | src/main/java/io/xpring/xrpl/ReliableSubmissionXrpClient.java:125-136 | the loop stops at the first poll that does not answer null, with its status or error and after exactly its reads; without one it times out after all its polls |
| BoundedPolling.TimesOutExactly | src/main/java/io/xpring/xrpl/ReliableSubmissionXrpClient.java:137-142 | the loop ends in the timeout error if and only if every poll of its budget answers null |
| Outcomes.LoopOutcome | src/main/java/io/xpring/xrpl/ReliableSubmissionXrpClient.java:125-142 | the loop times out, fails with the RPC, or answers, exactly when all polls are null, or the first that is not fails, or answers; the answer is that poll's |
| Outcomes.WaitOutcome | src/main/java/io/xpring/xrpl/ReliableSubmissionXrpClient.java:90-143 | each error of the wait and its answer if and only if its own cause: no poll in time, a failed first read or first non-null poll, a last ledger that reads as zero, a sender that does not decode |
| Outcomes.SendOutcome | src/main/java/io/xpring/xrpl/ReliableSubmissionXrpClient.java:47-51 | a reliable send ends as its submission if that fails, else as its wait: hash, timeout, RPC error or missing last ledger, each exactly then |
| Outcomes.EnableOutcome | src/main/java/io/xpring/xrpl/ReliableSubmissionXrpClient.java:79-88 | the reliable enableDepositAuth has a result if and only if the inner call, the wait and the last read are answered, FAILED ones included; hash of the inner call, status of the last read, validated of the wait; else exactly which error |
| BoundedPolling.AnswersExactly | src/main/java/io/xpring/xrpl/ReliableSubmissionXrpClient.java:124-136 | while its reads are answered, the loop returns a status if and only if some poll reads a greater signed index or an included transaction, and times out otherwise |
| BoundedPolling.EndsInTime | src/main/java/io/xpring/xrpl/ReliableSubmissionXrpClient.java:124-136 | if the validated index advances between polls, the loop returns a status if and only if it meets the inclusion or one of the first last ledger - first index seen + 2 polls sees the expiry, then within that many |
| BoundedPolling.EndsExactly | src/main/java/io/xpring/xrpl/ReliableSubmissionXrpClient.java:128-131 | if the index counts up one by one and nothing is included, the loop returns if and only if the last ledger is not 2^31 - 1, and not below 2^31 when the first index seen is not |
| BoundedPolling.BoundIsTight | src/main/java/io/xpring/xrpl/ReliableSubmissionXrpClient.java:124-136 | with one poll less and an index that advances by one, the loop times out |
| BoundedPolling.BoundIsReached | src/main/java/io/xpring/xrpl/ReliableSubmissionXrpClient.java:124-136 | from every node that knows the transaction, some run needs the whole bound |
| BoundedPolling.SendEndsInTime | src/main/java/io/xpring/xrpl/ReliableSubmissionXrpClient.java:47-51 | if the validated index advances between polls, a reliable send returns its hash if and only if its last ledger reads as one and the loop meets the inclusion or sees the expiry in time; the payment is then settled if the indices compared right at submission |
| BoundedPolling.SendEndsExactly | src/main/java/io/xpring/xrpl/ReliableSubmissionXrpClient.java:47-51 | with a steadily advancing index and no inclusion, a reliable send returns, within the bound, if and only if the open index read is not 2^32 - 10 or 2^31 - 11 and the last ledger, wrapped ones included, is not below 2^31 when the first index seen is not |
| BoundedPolling.SendFailures | src/main/java/io/xpring/xrpl/ReliableSubmissionXrpClient.java:90-143 | the errors a reliable send can end in, when the X-address error is the one, and that null and bounds errors mean a wallet that cannot sign |
| Expiry.EndsOnlyByInclusion | src/main/java/io/xpring/xrpl/ReliableSubmissionXrpClient.java:128-134 | whatever the budget, the loop ends by inclusion or an error only, if no index the node can reach exceeds the last ledger as a signed number |
| Expiry.ExpirySeenExactly | src/main/java/io/xpring/xrpl/ReliableSubmissionXrpClient.java:124-136 | before the wait: some run of it ends on the expiry if and only if the signed comparison can see it |
| Expiry.SendSeesExpiryExactly | src/main/java/io/xpring/xrpl/ReliableSubmissionXrpClient.java:47-51 | whatever led up to the submission, some continuation of the call returns the hash of a payment outside the ledgers if and only if the payment is not included already and its last ledger can be seen to pass |
| Expiry.ExpiryOverlooked | src/main/java/io/xpring/xrpl/ReliableSubmissionXrpClient.java:128-134 | the failing call, from every node with an open index up to 2^31 - 11: a payment with last ledger 2^31 - 1, returned in no continuation and for no budget unless included |
| Expiry.SendNeverReturnsExactly | src/main/java/io/xpring/xrpl/ReliableSubmissionXrpClient.java:47-51 | before the call: no run returns the hash of a new payment if and only if the open index is 2^32 - 10 or more and the validated one 2^31 or more, given one sequence number of the account without an included transaction |
| Clients.DefaultXrpClient.GetRawTransactionStatus | src/main/java/io/xpring/xrpl/DefaultXrpClient.java:413-424 | validated if and only if a validated ledger of the moment holds the transaction, then with that ledger's code, else with the provisional one; fails exactly with the RPC or for an unknown transaction |
| Clients.DefaultXrpClient.GetPaymentStatus | src/main/java/io/xpring/xrpl/DefaultXrpClient.java:136-149 | the answer is what the validated ledgers of the moment imply: PENDING outside them, else SUCCEEDED or FAILED by the code, never UNKNOWN |
| Clients.DefaultXrpClient.GetLatestValidatedLedgerSequence | src/main/java/io/xpring/xrpl/DefaultXrpClient.java:394-410 | the validated index of the node when it answers, as a signed int, or the RPC error |
| Clients.DefaultXrpClient.PrepareBaseTransaction | src/main/java/io/xpring/xrpl/DefaultXrpClient.java:460-488 | succeeds exactly when the wallet can sign and the three RPCs answer; account, fee, sequence, key and last ledger are those of the wallet and the reads |
| Clients.DefaultXrpClient.SendWithDetails | src/main/java/io/xpring/xrpl/DefaultXrpClient.java:181-247 | succeeds exactly for an X-address, a wallet that can sign and four answered RPCs; the hash names the transaction the node then knows: payment, memos, account, fee, sequence, key and last ledger as asked for and read |
| Clients.DefaultXrpClient.EnableDepositAuth | src/main/java/io/xpring/xrpl/DefaultXrpClient.java:356-372 | has a result exactly when submission and both reads are answered; account flag 9 submitted; validated if and only if included at the second read; the status is the ledger's of then, or PENDING; not PENDING implies validated |
| Clients.ReliableSubmissionXrpClient.AwaitFinalTransactionResult | src/main/java/io/xpring/xrpl/ReliableSubmissionXrpClient.java:90-143 | the polling loop: each error and the answer exactly for its cause, and what it returns is final where the indices compare right |
| Clients.ReliableSubmissionXrpClient.SendWithDetails | src/main/java/io/xpring/xrpl/ReliableSubmissionXrpClient.java:47-51 | hash or error exactly as submission and wait end; when it returns a hash and the indices compared right at submission, the payment's status is settled for good |
| Clients.ReliableSubmissionXrpClient.EnableDepositAuth | src/main/java/io/xpring/xrpl/ReliableSubmissionXrpClient.java:79-88 | a result exactly when inner call, wait and last read are answered, with the ledger's status of the last read; validated rules out PENDING in every run; PENDING if and only if not validated, for good, where the wait compares indices right |
| BigDecimals.ParseIsExact | src/main/java/io/xpring/xrpl/Utils.java:148-189 | reading a numeral gives exactly the number its digits denote |
| BigDecimals.ParseOfPlainText | src/main/java/io/xpring/xrpl/Utils.java:189-213 | plain printing and reading back keep the number, negative scales included |
| BigDecimals.SplitOfPlainText | src/main/java/io/xpring/xrpl/Utils.java:198-207 | cut at the point, a printed decimal has as many fraction characters as its scale says |
| BigDecimals.CutTruncates | src/main/java/io/xpring/xrpl/Utils.java:213-216 | the integer conversion cuts digits off towards zero, for either sign |
| BigDecimals.CanonicalIsUnique | src/main/java/io/xpring/xrpl/Utils.java:162 | two canonical texts of one number are the same text |
| DropsConversion.NumeralExactly | src/main/java/io/xpring/xrpl/Utils.java:132-142 | a text denotes a number if and only if it matches the pattern, has no apostrophe and has one of 0 to 9 |
| DropsConversion.PatternSpelledOut | src/main/java/io/xpring/xrpl/Utils.java:132 | a text matches the pattern if and only if, after an optional minus sign, it is digits and at most one apostrophe or point |
| DropsConversion.NotANumeral | src/main/java/io/xpring/xrpl/Utils.java:132-148 | every text that is no numeral is rejected by both conversions, by its characters with the XrpException or with NumberFormatException |
| DropsConversion.OthersAreInvalid | src/main/java/io/xpring/xrpl/Utils.java:136-139 | a text with any other character is rejected with the XrpException |
| DropsConversion.ApostropheEscapes | src/main/java/io/xpring/xrpl/Utils.java:132-148 | a text that matches with an apostrophe ends in NumberFormatException |
| DropsConversion.ToBigIntegerExactIsExact | src/main/java/io/xpring/xrpl/Utils.java:147-153 | the exact integer conversion succeeds if and only if the number is whole |
| DropsConversion.SixDigitsExactly | src/main/java/io/xpring/xrpl/Utils.java:198-211 | at most six fraction digits after stripping zeros is the same as a whole number of drops |
| DropsConversion.DropsToXrpIsExact | src/main/java/io/xpring/xrpl/Utils.java:129-163 | accepts exactly the numerals of whole value; the answer is the canonical text of a millionth, with at most six fraction digits and a point exactly for a fraction |
| DropsConversion.XrpToDropsIsExact | src/main/java/io/xpring/xrpl/Utils.java:172-217 | succeeds on a numeral if and only if a million times its value is whole, with that integer's text |
| DropsConversion.DropsRoundTrip | src/main/java/io/xpring/xrpl/Utils.java:129-217 | XRP and back is the canonical integer text of the drops, for every accepted text |
| DropsConversion.XrpRoundTrip | src/main/java/io/xpring/xrpl/Utils.java:129-217 | drops and back is the only canonical text of the amount, for every accepted text |
| JavaStrings.TokensCountRuns | src/main/java/io/xpring/payid/PayId.java:60-62 | the padded token count less one is the number of maximal runs of the delimiter |
| JavaStrings.RunsCountOccurrencesExactly | src/main/java/io/xpring/payid/PayId.java:60-65 | that is the number of delimiters if and only if no two are adjacent |
| JavaStrings.SplitAtOne | src/main/java/io/xpring/payid/PayId.java:70-73 | with one delimiter inside, the split is the text before and the text after |
| PercentEncoding.FindTriplet | src/main/java/io/xpring/payid/AbstractPayId.java:51-68 | finds the leftmost percent-encoded triplet |
| PercentEncoding.UpperCasePercentEncoded | src/main/java/io/xpring/payid/AbstractPayId.java:63-75 | the scan upper-cases exactly the positions that lie in some triplet and touches nothing else, stated with the digits written out |
| PercentEncoding.UpperTripletsSpelledOut | src/main/java/io/xpring/payid/AbstractPayId.java:50-75 | in a percent sign and two characters of 0-9, a-f, A-F after it, a to f become A to F; every other character stays |
| PercentEncoding.UpperTripletsIdempotent | src/main/java/io/xpring/payid/AbstractPayId.java:50-75 | normalising twice is normalising once |
| PercentEncoding.UpperTripletsChangesCaseOnly | src/main/java/io/xpring/payid/AbstractPayId.java:50-75 | the normal form differs from the text in letter case only |
| PayIds.Outcome | src/main/java/io/xpring/payid/PayId.java:45-91 | every text with a dollar sign after its first six characters: which check rejects it, by its characters, or as what it is accepted |
| PayIds.NoSchemeOrDollar | src/main/java/io/xpring/payid/PayId.java:47-55 | which texts are rejected for their scheme, and which for lack of a dollar sign |
| PayIds.AcceptedExactly | src/main/java/io/xpring/payid/PayId.java:45-91 | which single-dollar texts are accepted, by their own characters, and that the PayId is the two sides in normal form |
| PayIds.AccountCharSpelledOut | src/main/java/io/xpring/payid/AbstractPayId.java:18-44 | the characters of account and host, written out |
| PayIds.NormaliseSpelledOut | src/main/java/io/xpring/payid/PayId.java:75-81 | the normal form character by character: capital digits inside percent triplets, small letters elsewhere, nothing else changed |
| PayIds.OfIgnoresCase | src/main/java/io/xpring/payid/PayId.java:47-81 | texts that differ only in letter case get the same PayId or the same rejection |
| PayIds.SamePayIdSameText | src/main/java/io/xpring/payid/PayId.java:75-90 | accepted single-dollar texts with one PayId differ only in letter case |
| PayIds.PrintParse | src/main/java/io/xpring/payid/AbstractPayId.java:98-101 | the printed form is scheme, account, dollar sign, host; parsing that of an accepted PayId gives it back if and only if the text had one dollar sign, if and only if the host is not empty |
| PayIds.AcceptedIsNormal | src/main/java/io/xpring/payid/PayId.java:75-81 | account and host of an accepted PayId are in normal form: no capital letter outside their triplets, no small one inside |
| PayIds.AdjacentDollarsEmptyHost | src/main/java/io/xpring/payid/PayId.java:60-73 | an accepted text with more than one dollar sign always yields an empty host |
| PayIds.SeveralDollarsExactly | src/main/java/io/xpring/payid/PayId.java:60-73 | a text with several dollar signs is accepted if and only if they are one run, account characters come before it and anything non-empty after it; the host is then empty |
| HexCodec.StringToHex | src/main/java/io/xpring/common/CommonUtils.java:12-18 | the loop appends the unpadded hex of every code unit |
| HexCodec.HexStringToByteArray | src/main/java/io/xpring/common/CommonUtils.java:42-50 | fills the array with the decoded bytes, and fails exactly on odd length |
| HexCodec.ByteArrayToHex | src/main/java/io/xpring/common/CommonUtils.java:58-64 | the loop appends two digits per byte |
| HexCodec.StringToByteArray | src/main/java/io/xpring/common/CommonUtils.java:27-34 | a hex text fails exactly on an odd length and gives the bytes of its digits; a plain one of characters in 0x10..0xFF gives its code units |
| HexCodec.HexStringExactly | src/main/java/io/xpring/common/CommonUtils.java:32-33 | a hex text has bytes if and only if its length is even, and encoding them gives its lower-case form if and only if it is all hex digits |
| HexCodec.ToHexStringIsExact | src/main/java/io/xpring/common/CommonUtils.java:15 | the unpadded hex of a code unit denotes it, in lower case and without a leading zero |
| HexCodec.DigitsSpelledOut | src/main/java/io/xpring/common/CommonUtils.java:46-47 | the sixteen digits, printed in lower case, read in either case, and no other character read |
| HexCodec.DecodeEncode | src/main/java/io/xpring/common/CommonUtils.java:42-64 | decoding encoded bytes returns them, for all signed bytes |
| HexCodec.EncodeDecode | src/main/java/io/xpring/common/CommonUtils.java:42-64 | encoding a decoded text of even length gives its lower-case form if and only if it is all hex digits |
| HexCodec.PlainStringExactly | src/main/java/io/xpring/common/CommonUtils.java:12-34 | a plain string becomes its code units as bytes if and only if all of them are in 0x10..0xFF |
| Memos.WireRoundTrip | src/main/java/io/xpring/xrpl/DefaultXrpClient.java:213-242 | every memo list, absent and empty ones included, decodes from the wire to itself in order; each wire field holds its own field's bytes and is unset for none |
| Memos.FromMemoFieldsExactly | src/main/java/io/xpring/xrpl/model/XrpMemo.java:88-101 | for every mix of absent, plain and hex fields: a memo exists exactly when no field's hex text is odd, and each field holds its own bytes, none when absent |
| Memos.ReEncodedExactly | src/main/java/io/xpring/xrpl/model/XrpMemo.java:62-77 | decoding and encoding a wire memo restores it if and only if no field is set to no bytes |
| Memos.PlainTextMemoExactly | src/main/java/io/xpring/xrpl/model/XrpMemo.java:88-101 | a memo of plain texts comes back from the wire with their code units if and only if all characters are in 0x10..0xFF |
| Conversions.AmountOnTheWire | src/main/java/io/xpring/xrpl/model/XrpCurrencyAmount.java:56-60 | the text read back is the plain decimal text of the one signed 64-bit number congruent to the amount, the amount itself exactly on the range of long |
| Conversions.BigIntegerSpelledOut | src/main/java/io/xpring/xrpl/model/XrpIssuedCurrency.java:49-56 | which issued values are read, by their characters, and as which number |
| Conversions.TransactionConvertsExactly | src/main/java/io/xpring/xrpl/model/XrpTransaction.java:208-334 | a response converts if and only if it is a payment whose set amounts convert and whose addresses encode; which of the others throw, which exception, and which give null |
| Conversions.ConvertedSaysTheSame | src/main/java/io/xpring/xrpl/model/XrpPayment.java:110-171 | a converted payment carries the wire's amounts, the delivered one included, addresses, memos and times |
| PaymentHistory.CollectPayments | src/main/java/io/xpring/xrpl/DefaultXrpClient.java:276-296 | all or nothing: the conversions of exactly the payments in order, or the error of the first payment that does not convert |
| PaymentHistory.OthersAreIgnored | src/main/java/io/xpring/xrpl/DefaultXrpClient.java:279-295 | with or without a response that is no payment, the loop has the same result |
| PaymentHistory.OutcomeIsUnique | src/main/java/io/xpring/xrpl/DefaultXrpClient.java:279-295 | the loop's contract leaves one result for given responses |
| PaymentHistory.UncaughtExactly | src/main/java/io/xpring/xrpl/DefaultXrpClient.java:281-287 | an uncaught NumberFormatException or NullPointerException escapes if and only if the first payment that does not convert fails first on a number, or on an address |
| PaymentHistory.FractionEscapes | src/main/java/io/xpring/xrpl/model/XrpIssuedCurrency.java:49-56 | an issued amount of 1.5 in the first payment makes the history fail with that exception |

## Left out

- gRPC channels, stubs and shutdown hooks: an RPC is a read of the modelled node or an error.
- Real time and Awaitility: each of the two waits has a number of polls; how many fit into eleven seconds is a parameter.
- Signing, transaction hashes and the JavaScript bundle: a hash is modelled as an injective name of its transaction, an
  address codec as a partial function, the validity of the destination address as a flag; fees and account sequence numbers are what the node reports.
- Whether the account of the validated-ledger query still exists: an RPC error when it does not.
- The address check and the RPC in front of the loop of `paymentHistory`.
- Flat copies in `XrpTransaction.from` and `XrpPayment.from` (hash, fee, flags, sequence, signers, keys, signatures, invoice, paths) and all other converters.
- Non-ASCII text in PayIDs and in hex input: locale case mapping and Unicode digits are library behaviour.
- `BigDecimal` scales outside `int`.
- `isFullPayment`, balances, account existence, `getPayment`, the PayID HTTP client, ILP and the delegating clients.
