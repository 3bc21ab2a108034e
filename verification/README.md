# Gateway state machines, scanners and ratchets

A Dafny model of the parts of the gateway that decide something on their own: the deadline-bounded
submit-and-poll protocol and its retry engine, the duplicate-code ratchet with its hand-written
lexer, the branch-protection gate, and the smaller ratchets and audits beside them. Services behind
the gateway, the clock, the file system and the network appear as arguments: an arbitrary list of
answers, an arbitrary tree, an arbitrary document.

`dafny verify dfyconfig.toml` checks everything.

How the pieces are laid out:

- *Foundations.* `Wrappers`, `Text` (strip, join, split, decimal text), `Sorting` (stable sort, the
  order of strings, sorted sets), `Numbering` (group, sort and number from 1), `Json` and `JsonEquality`
  (documents and Python's equality on them).
- *Duplicate-code ratchet.* `Brackets`, `FragmentScanner`, `FragmentNormaliser` (the mutual
  recursion), `FragmentLoops` (the loops of the source, each proved equal to it), `FragmentLexing`,
  `FragmentLiterals`, `FragmentShapes`, `FragmentLayout`, `FragmentSpacing`, `FragmentSqueeze`,
  `FragmentNormalForm`, `FragmentComments`, `FStringLaws` and `FStringTokens` (what the lexer
  recognises and what the normal form means), `DuplicateReport` and `FingerprintLaws` (identities and
  fingerprints), `JsonText`, `JsonPrinting` and `JsonRoundTrip` (the printer and an RFC 8259 reader,
  sections 3 to 7), `DuplicateRatchet`, `DuplicatePolicy`, `DuplicateRatchetLaws` and
  `DuplicateRatchetFile`.
- *Analytics protocol.* `RetryEngine`, `ExecutionBudget`, `AnalyticsPolling`, `AnalyticsRequest`, and
  `AnalyticsPollingRuns` and `AnalyticsRequestRuns` (whole runs told from replies and times).
- *Branch-protection gate.* `BranchPolicy`, `BranchPolicyLaws`, `BranchPolicyGate`,
  `BranchPolicyValid`, `BranchPolicyLive`, `BranchPolicyEscape`.
- *Other guards.* `MonetaryGuard`, `GateAudit`, `Cleaner`, `WorkflowTimeouts`, `MetricRatchet`,
  `SigningContext`, each but two with a module of laws beside it; `GateAuditExact` and `SigningExact`
  spell out tables and header names.

Code the source writes as loops over changing variables is a method with that loop, proved equal to
a specification function; what the source promises is then proved of the function. Objects whose
fields change are classes.

## Findings

Some natural claims about the code are false. Each is kept as it is in the source, with the input
that breaks it and, where one was found, the exact condition under which the claim holds.

- *The policy gate lets one weakness through.* Validation skips the review block when its `present`
  is falsy in Python's sense, while the weak value `false` is looked for by type. A policy that
  declares `present: 0` therefore validates without an exception, and agrees with a branch that has
  no review block at all. It is the only escape: `BranchPolicyEscape.EscapesExactly`.
- *The metric ratchet can loosen.* Values are looked up by metric name, so with two entries of one
  name the last decides for both. `MetricRatchetLaws.NeverLoosensExactly` says when this is harmless,
  `RecheckPassesExactly` when an accepted update passes its own re-check, and `SharedNameLoosens`
  gives a baseline that fails both.
- *The monetary guard can excuse more findings than it has entries* (`OneEntryExcusesTwo`, exact
  counts in `ReportedCount`), and a refreshed allowlist can attach an entry's metadata to the wrong
  finding (`MetadataGoesAstray`, exact condition in `MovementKeepsMetadata`).
- *An f-string that is only its opening delimiter is given a second one*
  (`FStringLaws.OverlappingDelimiters`, condition in `ShapeSplits`).
- *Lexical normalisation is not idempotent, nor does the normal form determine the lexemes, once a
  comment is followed by code*: the line end that closes the comment is dropped
  (`FragmentComments.CommentsAreNotStable`, `CommentsAreNotFaithful`). Without f-strings and
  unterminated literals, the normal form is its own normal form exactly when no literal after the
  first comment holds whitespace other than single spaces (`FragmentNormalForm.NormalFormIsFixed`),
  and its lexemes can be read back exactly when nothing follows the first comment
  (`NormalFormRereads`).
- *The two sides of a clone are interchangeable exactly when two sides that start at one place are the
  same*: the sort key ignores the end (`DuplicateReport.SidesAreInterchangeable`, input in
  `NestedSidesDiffer` and, as Python tokenizes it, `NestedSidesDifferAsTokenized`).
- *Delivery is at most once for exactly those settings that retry nothing, or neither ambiguous
  failures nor any status* (`RetryEngine.AtMostOnce`, runs in `ReplayDeliversTwice`).
- *Polling has no poll bound when the source may recommend ever shorter intervals*
  (`AnalyticsPolling.NoBoundWithoutPace`).
- *A cleaned directory may hold descendants with a protected name*
  (`Cleaner.ProtectedNameInsideGoes`).
- *A debug field such as `{x = }` changes its output*: the text before the `=` is printed, and the
  source normalises its whitespace although its comment speaks of preserving output-affecting text.
  `FStringLaws.DebugTextChanges` shows it for every plain one-character name, number or operator in
  place of `x`, with the tokens Python gives for it as well as on the lexer path;
  `FieldTextSurvives` says exactly when a field is left as it is, on either path.

## Model

| member | source | states |
|---|---|---|
| FragmentLexing.LexemesTile | scripts/check_duplicate_code_ratchet.py:357-433 | On every text the lexer's pieces, with the whitespace it skips one character at a time, are in-order slices that tile the text |
| FragmentLexing.LexemeStable | scripts/check_duplicate_code_ratchet.py:357-433 | A lexeme keeps its kind and extent when what follows it is cut short by whitespace or the end of the text, but for unterminated literals and lengthened comments |
| FragmentLayout.LayoutInvariant | scripts/check_duplicate_code_ratchet.py:357-433 | Inserting any whitespace at any boundary between lexemes leaves the lexical normal form unchanged, as long as no unterminated literal comes before it; comments and f-strings included |
| FragmentNormalForm.NormalFormFaithful | scripts/check_duplicate_code_ratchet.py:357-433 | Two texts without f-strings and unterminated literals, in which nothing follows the first comment, have the same normal form if and only if they have the same sequence of lexemes |
| FragmentNormalForm.NormalFormRereads | scripts/check_duplicate_code_ratchet.py:357-433 | Lexing the normal form of a text without f-strings and unterminated literals gives its lexemes back if and only if nothing follows the first comment |
| FragmentNormalForm.NormalFormIsFixed | scripts/check_duplicate_code_ratchet.py:357-433 | The normal form of a text without f-strings and unterminated literals, comments included, is its own normal form if and only if every literal after the first comment is left alone by squeezing its whitespace |
| FragmentComments.CommentsAreNotStable | scripts/check_duplicate_code_ratchet.py:377-387 | A string on the line after a comment: the second normalisation differs from the first |
| FragmentComments.CommentsAreNotFaithful | scripts/check_duplicate_code_ratchet.py:377-387 | A name on the line after a comment and the same name inside the comment have one normal form and different lexemes |
| FragmentLoops.StringLiteralEnd | scripts/check_duplicate_code_ratchet.py:530-549 | A literal starts where up to three prefix letters and a quote stand, and the scan ends just past the first delimiter, one quote or three, that no odd run of backslashes escapes, or at the end of the text |
| FragmentLiterals.LiteralExactly | scripts/check_duplicate_code_ratchet.py:530-549 | A literal is recognised if and only if prefix letters and a quote stand there, and its extent is exactly up to its first unescaped delimiter |
| FragmentLiterals.CloseExactly | scripts/check_duplicate_code_ratchet.py:541-549 | The escape-skipping scan stops at the first delimiter preceded by an even number of backslashes, and finds none if and only if there is none |
| FragmentLiterals.TripleQuoted | scripts/check_duplicate_code_ratchet.py:537-547 | After zero to three prefix letters, three quotes, a body without backslashes or three quotes and not ending in one, and three quotes are one literal of that length |
| FragmentLiterals.SingleQuoted | scripts/check_duplicate_code_ratchet.py:537-547 | The same for one quote and a body in which every quote is escaped |
| FragmentLiterals.Unterminated | scripts/check_duplicate_code_ratchet.py:548-549 | Without an unescaped closing quote the literal is the rest of the text |
| FragmentLiterals.LongRunIsNoPrefix | scripts/check_duplicate_code_ratchet.py:533-536 | Four prefix letters in a row start no literal |
| FragmentShapes.NextExactly | scripts/check_duplicate_code_ratchet.py:371-432 | The next lexeme is a space, a comment up to its line end, a literal of its exact extent, the longest operator that stands there, the longest number or name, or one character, in this order |
| FragmentShapes.SqueezeRun | scripts/check_duplicate_code_ratchet.py:377-387 | In a comment visible text stays and every run of whitespace becomes one space |
| FragmentLoops.HasUnclosedDelimiter | scripts/check_duplicate_code_ratchet.py:279-292 | The push-and-pop loop over operator tokens computes the stack machine |
| Brackets.ClosedIffNested | scripts/check_duplicate_code_ratchet.py:279-292 | The stack machine accepts exactly the operator runs that flatten a properly nested tree of brackets |
| Brackets.PairsThatClose | scripts/check_duplicate_code_ratchet.py:279-292 | An opening bracket and one more operator are accepted if and only if they are `()`, `[]` or `{}` |
| Brackets.SingleOperators | scripts/check_duplicate_code_ratchet.py:279-292 | One operator alone is accepted if and only if it is no bracket |
| FragmentSpacing.LexerReadsTheRest | scripts/check_duplicate_code_ratchet.py:255-292 | The lexer reads exactly the texts whose tokenization failed, is empty, holds an error token or has operators that are not properly nested |
| FragmentSpacing.LineEndsAreOne | scripts/check_duplicate_code_ratchet.py:257 | A line end is read alike whether it is written `\n`, `\r\n` or `\r`, and nothing else changes |
| FragmentLoops.FStringExpressionEnd | scripts/check_duplicate_code_ratchet.py:512-527 | The scan for the closing brace of a replacement field, skipping nested braces and string literals, finds the specified offset |
| FragmentLoops.FStringFieldBoundaries | scripts/check_duplicate_code_ratchet.py:484-509 | At most one boundary is collected, the first place where the expression gives way to a conversion, format or debug suffix |
| FragmentLoops.NormaliseFStringBody | scripts/check_duplicate_code_ratchet.py:453-472 | The body loop renders verbatim parts as they are and fields by their normalised expression |
| FragmentLoops.NormaliseStringLiteral | scripts/check_duplicate_code_ratchet.py:436-450 | Only a complete f-string is changed, and only inside its body |
| FragmentShapes.OtherLiteralsStay | scripts/check_duplicate_code_ratchet.py:438-442 | A literal without `f` or `F` among its prefix letters is kept as it is |
| FragmentShapes.TripleFString | scripts/check_duplicate_code_ratchet.py:443-450 | In a triple-quoted f-string only what stands between the three quotes is normalised |
| FragmentShapes.SingleFString | scripts/check_duplicate_code_ratchet.py:443-450 | In a single-quoted f-string only what stands between the quotes is normalised |
| FragmentShapes.VerbatimParts | scripts/check_duplicate_code_ratchet.py:456-463 | Doubled braces, and every character but an opening brace, are taken as they are |
| FragmentShapes.FieldParts | scripts/check_duplicate_code_ratchet.py:464-472 | A field is what stands between an opening brace and the one that closes it, inner braces matched |
| FragmentShapes.OpenFieldParts | scripts/check_duplicate_code_ratchet.py:464-467 | A field that is never closed takes the rest of the body as it is |
| FragmentLoops.NormaliseFragmentLexically | scripts/check_duplicate_code_ratchet.py:357-433 | The lexer loop over positions computes the normal form of the lexemes |
| FragmentLoops.NormaliseTokenStream | scripts/check_duplicate_code_ratchet.py:295-334 | The token loop keeps tokens, drops layout, and takes whole f-strings back from the source text |
| FStringTokens.WholeFString | scripts/check_duplicate_code_ratchet.py:295-320 | A start token, any tokens that close every f-string they open, and an end token read as the one string token of their extent |
| FStringTokens.FStringShapesAgree | scripts/check_duplicate_code_ratchet.py:295-334 | In any token stream, replacing a whole f-string by one string token over the same slice leaves the normal form as it was |
| FragmentSpacing.StreamLayoutInvariant | scripts/check_duplicate_code_ratchet.py:295-334 | Text put between two tokens, inside no token and no f-string, leaves what the token stream gives as it was, and leaves it usable |
| FragmentSpacing.RespacedForm | scripts/check_duplicate_code_ratchet.py:255-334 | However often space is put in or taken out between lexemes or tokens, or line ends are rewritten, the normal form of the fragment stays |
| FragmentLoops.NormaliseSourceFragment | scripts/check_duplicate_code_ratchet.py:255-266 | The token stream is used when it is complete and balanced, the lexer otherwise; the mutual recursion ends on every text |
| FStringLaws.PartsTile | scripts/check_duplicate_code_ratchet.py:453-472 | Verbatim parts and fields with their braces tile the f-string body: nothing is lost or moved |
| FStringLaws.NoFieldsNoChange | scripts/check_duplicate_code_ratchet.py:453-472 | A body without replacement fields is left as it is |
| FStringLaws.ShapeSplits | scripts/check_duplicate_code_ratchet.py:443-450 | Delimiters and body make up the literal exactly when the two delimiters do not overlap |
| FStringLaws.OverlappingDelimiters | scripts/check_duplicate_code_ratchet.py:443-450 | The smallest literal whose delimiters overlap gains a quote |
| FStringLaws.FieldFreeLiteral | scripts/check_duplicate_code_ratchet.py:436-450 | A field-free f-string is its own normal form exactly when its delimiters do not overlap |
| FStringLaws.BoundaryIsFirst | scripts/check_duplicate_code_ratchet.py:484-509 | The boundary is the first place in code, outside string literals and at bracket depth 0, where a suffix starts; there is none exactly when no such place exists |
| FStringLaws.BoundaryFound | scripts/check_duplicate_code_ratchet.py:484-509 | That place holds a `!` or `:` not followed by `=`, or a `=` that neither starts the expression nor belongs to a comparison |
| FStringLaws.FieldTextSurvives | scripts/check_duplicate_code_ratchet.py:475-481 | Whichever way the text before the boundary is read, from tokens or by the lexer, if no f-string is among its pieces the field is left as it is if and only if that text is its own pieces one space apart |
| FStringLaws.LexedFieldSurvives | scripts/check_duplicate_code_ratchet.py:475-481 | On the lexer path, for text without unterminated literals: if and only if the text has no carriage return and is its own lexemes one space apart |
| FStringLaws.DebugTextChanges | scripts/check_duplicate_code_ratchet.py:475-481 | The space before the `=` of a debug field is lost, from the tokens when the first character is the only one that is not layout, and by the lexer when it takes the text |
| FragmentLayout.NameIsComplete | scripts/check_duplicate_code_ratchet.py:255-292 | The tokens of a one-character name are complete, so the lexer is not asked |
| DuplicateReport.SidesAreInterchangeable | scripts/check_duplicate_code_ratchet.py:552-623 | Naming the two sides of a clone in the other order gives the same identity if and only if sides that start at one place are the same |
| DuplicateReport.NestedSidesDiffer | scripts/check_duplicate_code_ratchet.py:552-623 | Two sides in one source with one start and two ends, for every tokenizer that leaves something of the fragment: each order gives its own identity |
| DuplicateReport.NestedSidesDifferAsTokenized | scripts/check_duplicate_code_ratchet.py:552-623 | The same for the tokens Python gives for the fragment, or on the lexer path |
| FingerprintLaws.NotAfterExactly | scripts/check_duplicate_code_ratchet.py:566-575 | The canonical side comes first by source, then line, then start column, an unknown column counting as -1 |
| FingerprintLaws.IdentityExactly | scripts/check_duplicate_code_ratchet.py:552-623 | An entry has an identity if and only if the text of its canonical side has a normal form, and the identity gives the two sides in that order |
| FingerprintLaws.KeysExactly | scripts/check_duplicate_code_ratchet.py:592-641 | Two entries share a grouping key if and only if format, unordered pair of sources, normal form of the canonical text and contexts of both sides are equal |
| FingerprintLaws.RespacedReport | scripts/check_duplicate_code_ratchet.py:552-688 | Re-spacing the clones of a report, in the report or in the sources, leaves its findings and their fingerprints as they were |
| FingerprintLaws.FirstDifferenceDecides | scripts/check_duplicate_code_ratchet.py:653-672 | Location tuples compare by their first difference, and fail to compare exactly when a cell is missing there |
| FingerprintLaws.SortFailsExactly | scripts/check_duplicate_code_ratchet.py:653-672 | A group cannot be sorted if and only if two of its members differ first at a side where columns are known for one only |
| DuplicateReport.NumberFindings | scripts/check_duplicate_code_ratchet.py:653-672 | Grouping, sorting and numbering give every identity the fingerprint of its key and its place in its group, in report order |
| DuplicateReport.FingerprintsAreNumbered | scripts/check_duplicate_code_ratchet.py:626-672 | The fingerprint set of a report is exactly the set of (key, i) for i from 1 to the key's count, so entry order and positions do not matter |
| DuplicateReport.FingerprintsAreDistinct | scripts/check_duplicate_code_ratchet.py:626-672 | No two findings share a fingerprint, if the digest does not collide |
| DuplicateReport.SurplusIsCounted | scripts/check_duplicate_code_ratchet.py:717-741 | The fingerprints of one report that another lacks number the sum over all keys of max(0, own count - other count) |
| DuplicateRatchet.LoadReport | scripts/check_duplicate_code_ratchet.py:646-688 | A report is loaded exactly when every entry has an identity, locations can be ordered and the totals agree with the entries; then its findings are the numbered ones |
| Numbering.NumbersFillGroup | scripts/check_duplicate_code_ratchet.py:653-672 | The members of a group carry the numbers 1 to its size, each once |
| Numbering.NumberCounts | scripts/check_monetary_float_usage.py:49-51 | A member's number is how many members of its group do not come after it |
| Numbering.NumberOccurrences | scripts/check_duplicate_code_ratchet.py:653-672 | The dictionary fill numbers every item by its place in its sorted group |
| Sorting.SortIsStable | scripts/check_duplicate_code_ratchet.py:566-575 | Elements the order does not tell apart come out in the order they had |
| Sorting.TextLeExactly | scripts/check_duplicate_code_ratchet.py:566-587 | Strings compare by the first character that differs, and a prefix comes first |
| JsonRoundTrip.ReadEncode | scripts/check_duplicate_code_ratchet.py:764-788 | At every indent and nesting depth, an RFC 8259 reader gives an encoded document back and stops where it ends |
| JsonRoundTrip.RoundTrip | scripts/check_duplicate_code_ratchet.py:764-792 | The file that is written reads back as the same document, decimals without a point becoming integers |
| JsonRoundTrip.RereadIsEqual | scripts/check_duplicate_code_ratchet.py:764-792 | The document read back equals the one written in Python's eyes: every number keeps its value |
| JsonEquality.EqualityIsAnEquivalence | scripts/check_duplicate_code_ratchet.py:717-724 | Python's equality of documents, by which a baseline's detector and a live setting are compared, is reflexive, symmetric and transitive |
| JsonEquality.DictionariesExactly | scripts/check_duplicate_code_ratchet.py:717-724 | Two dictionaries are equal if and only if they have the same keys with equal values, in whatever order |
| JsonPrinting.BlocksAreLines | scripts/check_duplicate_code_ratchet.py:773-787 | A list or object is its items one a line, two spaces further in, joined by comma and line end, between brackets |
| JsonPrinting.EncodedIsPlain | scripts/check_duplicate_code_ratchet.py:764-788 | Every encoded document is printable ASCII and line ends only |
| JsonPrinting.DecimalIsWritten | scripts/check_duplicate_code_ratchet.py:769-770 | A decimal is written with all its digits, as many after the point as its exponent says, no exponent and no zero to spare in front |
| DuplicateRatchetLaws.WrittenPolicy | scripts/check_duplicate_code_ratchet.py:744-792 | The text of a baseline built from a report is read back as a valid policy that allows exactly that report |
| DuplicatePolicy.PolicyExactly | scripts/check_duplicate_code_ratchet.py:700-741 | A document is read as a policy if and only if it has schema version 1, this detector, three non-negative limits, two of them whole, and a list of fingerprints without repetition, and then the policy says exactly these |
| DuplicatePolicy.BuiltFigures | scripts/check_duplicate_code_ratchet.py:744-761 | The baseline built from a report gives each of its three figures both as baseline and as threshold |
| DuplicateRatchetLaws.CheckPassesIff | scripts/check_duplicate_code_ratchet.py:84-124 | A check passes if and only if the detector ran, no metric exceeds its threshold and the fingerprints are exactly the allowed ones |
| DuplicateRatchetLaws.UpdateTightens | scripts/check_duplicate_code_ratchet.py:873-885 | An update leaves the file alone or writes a policy with thresholds no higher and a fingerprint set no larger |
| DuplicateRatchetLaws.RecheckPasses | scripts/check_duplicate_code_ratchet.py:873-885 | After an accepted update the same input passes the check, and updating again changes nothing |
| DuplicateRatchetLaws.UpdatesTighten | scripts/check_duplicate_code_ratchet.py:848-889 | Over any sequence of updates, accepted or refused, the baseline only tightens |
| DuplicateRatchetLaws.ClonesComeAndGo | scripts/check_duplicate_code_ratchet.py:717-761 | Against the file written for another report, unexpected and stale fingerprints count the clones that appeared and disappeared, key by key |
| DuplicateRatchetFile.BaselineFile.Execute | scripts/check_duplicate_code_ratchet.py:848-889 | The file changes only in a successful initialization or update; the exit code of each mode by the limits of the policy read; after an update the policy is tighter and is exactly that of the report |
| RetryEngine.ExecuteJsonRequest | src/app/clients/http_json_resilience.py:216-242 | The loop repeats exactly while retries are left and the reply is one the table of repeated replies names, sends at most max(0, r) + 1 requests, and its tail after the loop is unreachable |
| RetryEngine.RepeatsExactly | src/app/clients/http_retry_policy.py:19-71 | Which replies are repeated under which settings, error by error and status by status |
| RetryEngine.TimeoutEndsTheRun | src/app/clients/http_retry_policy.py:33-47 | With timeouts not retried, no attempt but the last ends in a connect, read, write or pool timeout |
| RetryEngine.EveryRetryIsUsed | src/app/clients/http_retry_policy.py:10-11 | Replies that are always repeated are attempted exactly max(0, r) + 1 times |
| RetryEngine.RequestWithRetryOutcome | src/app/clients/http_json_resilience.py:245-291 | An unsupported method is refused with nothing sent; otherwise the outcome is that of the last attempt |
| RetryEngine.StopsInTime | src/app/clients/http_retry_policy.py:10-47 | Attempts are at most max(0, r) + 1 and the total back-off at most max(0, b) * (2^max(0, r) - 1) |
| RetryEngine.TotalDelayClosedForm | src/app/clients/http_retry_policy.py:14-16 | n delays add up to 2^n - 1 times the first |
| RetryEngine.RepeatedOnlyWhenAnswered | src/app/clients/http_retry_policy.py:19-71 | Without ambiguous replay, an attempt that reached the producer is repeated only when it was answered with a status the caller retries |
| RetryEngine.AtMostOnce | src/app/clients/http_json_resilience.py:104-154 | Only the last attempt of any run the network can play reaches the producer, if and only if nothing is retried at all, or neither ambiguous failures nor any status are |
| RetryEngine.ReplayDeliversTwice | src/app/clients/http_json_resilience.py:131-154 | With ambiguous replay on and retries left, a run delivers a request twice, whatever the other settings |
| RetryEngine.OutcomeIsOfLastAttempt | src/app/clients/http_json_resilience.py:26-48 | An outcome names its last attempt's failure, is transient exactly for retryable errors, and never reports exhaustion |
| ExecutionBudget.SleepEndsByDeadline | src/app/execution_budget.py:55-60 | A bounded sleep never plans past the deadline, never exceeds the recommended interval, and is positive while time is left |
| AnalyticsPolling.RunAsyncPollLoop | src/app/clients/lotus_analytics_async_polling.py:124-223 | The poll loop, with its waits and expiry checks, computes the specified run |
| AnalyticsPollingRuns.EveryRun | src/app/clients/lotus_analytics_async_polling.py:142-223 | Every run is a chain of answers it was told to wait after and exactly one ending, with its time, result and number of polls given by the replies and times alone |
| AnalyticsPollingRuns.AnswerIsReturned | src/app/clients/lotus_analytics_async_polling.py:142-185 | If the run waits through k answers and the next settles the poll with time left, it ends on that answer with its status and payload after k + 1 polls, with or without a deadline |
| AnalyticsPollingRuns.LimitEndsTheRun | src/app/clients/lotus_analytics_async_polling.py:142-163 | When the allowed polls are used up the run ends with the last status and payload it was told |
| AnalyticsPollingRuns.DeadlineOnlyWhenReached | src/app/clients/lotus_analytics_async_polling.py:142-223 | With a positive fallback interval a run that ends before its deadline, or has none, ends with what the source said or with its attempt limit |
| AnalyticsPollingRuns.RunStarts | src/app/clients/lotus_analytics_async_polling.py:77-101 | A run starts at once, or after the first sleep when it follows an acceptance; without time for that sleep it is the deadline result |
| AnalyticsPollingRuns.OutcomeIsSeen | src/app/clients/lotus_analytics_async_polling.py:251-284 | What the caller sees of a reply, redirects refused and failures answered 503, and after which replies a run asks again |
| AnalyticsPollingRuns.LastReplyIs | src/app/clients/lotus_analytics_async_polling.py:259-284 | The reply a poll comes down to is that of the attempt at which the retry rules stop |
| AnalyticsPollingRuns.DeadlineResultIs | src/app/clients/lotus_analytics_async_polling.py:30-44 | The gateway's own answer field by field |
| AnalyticsPolling.DeadlineSafety | src/app/clients/lotus_analytics_async_polling.py:124-223 | From every state of the loop, a bounded unlimited run ends by its deadline and returns the deadline result or an answer received with time left; one that is not over has not reached its deadline |
| AnalyticsPolling.BoundedRunIsSafe | src/app/clients/lotus_analytics_async_polling.py:124-223 | The same for a whole run, which never returns a 202 |
| AnalyticsPolling.DeadlineEvidence | src/app/clients/lotus_analytics_async_polling.py:30-44 | The deadline result carries the result path, and a calculation id exactly when a usable one is known |
| AnalyticsPolling.BoundedPollIsOneAttempt | src/app/clients/lotus_analytics_async_polling.py:259-284 | A poll under a deadline is a single attempt |
| AnalyticsPolling.PollsAreBounded | src/app/clients/lotus_analytics_async_polling.py:142-223 | If every usable interval is at least m, a bounded run over time T makes at most ceil(T / m) polls |
| AnalyticsPolling.PacedRunEnds | src/app/clients/lotus_analytics_async_polling.py:142-223 | So a paced bounded run is over once offered that many answers |
| AnalyticsPolling.NoBoundWithoutPace | src/app/clients/lotus_analytics_async_polling.py:209-223 | Without such a lower bound a source can keep any bounded unlimited run polling for as many turns as it likes |
| AnalyticsPolling.UnboundedRunStops | src/app/clients/lotus_analytics_async_polling.py:142-185 | Without a deadline a run makes at most its allowed polls and goes on only after a 202 |
| AnalyticsRequest.PostAnalyticsRequest | src/app/clients/lotus_analytics_client.py:72-201 | Submission, expiry handling, redirect refusal, target check and polling in the source's order; a bounded request submits at most once |
| AnalyticsRequest.RequestSettingsAre | src/app/clients/lotus_analytics_client.py:163-201 | Submissions repeat no timeout, polls only without a deadline, neither repeats a status, and a deadline leaves no retries |
| AnalyticsRequest.SubmissionStopsAtTimeout | src/app/clients/lotus_analytics_client.py:181-201 | A submission is never sent again after a timeout, whatever the budget |
| AnalyticsRequestRuns.FinalAnswerIsReturned | src/app/clients/lotus_analytics_client.py:72-235 | A submission answered in time with anything but a 202 that names a path ends the request with exactly that answer |
| AnalyticsRequestRuns.AcceptanceIsPolled | src/app/clients/lotus_analytics_client.py:72-235 | A 202 in time that names a path is polled from its arrival, or refused when a caller's authority would leave the configured origin |
| AnalyticsRequestRuns.UnansweredSubmission | src/app/clients/lotus_analytics_client.py:163-223 | A submission the timer ends, or that has no time, is the gateway's own 504 and names no path |
| AnalyticsRequestRuns.LateAnswer | src/app/clients/lotus_analytics_client.py:163-223 | A submission answered too late is its own 504, or the gateway's, which keeps the path and calculation of an acceptance and nothing of any other answer |
| AnalyticsRequest.BoundedRequest | src/app/clients/lotus_analytics_client.py:72-235 | A bounded unlimited request is over by its deadline, one that is not over has not reached it, and a 202 surfaces only when the acceptance named no usable result path |
| AnalyticsRequest.AcceptanceIsKept | src/app/clients/lotus_analytics_client.py:163-235 | After a 202 that names a path, a bounded request gives the source's own timely answer, refuses a foreign target, or ends in a 504 that carries the path and any calculation id |
| AnalyticsRequest.AsyncResultPath | src/app/clients/lotus_analytics_client.py:225-235 | A path is found if and only if the status is 202 and it is the non-empty text under `result_path`, or under `resultPath` when the former says nothing |
| BranchPolicy.ResolveField | scripts/check_branch_protection_policy.py:362-369 | The walk along a dotted field finds the value the specification finds |
| BranchPolicy.RequiredChecks | scripts/check_branch_protection_policy.py:211-274 | The loop over declared checks collects the issues of each, given the contexts named before it |
| BranchPolicyLaws.DeclaredChecksClean | scripts/check_branch_protection_policy.py:211-274 | Declared checks are accepted if and only if they are a non-empty list of well-formed checks whose contexts do not repeat |
| BranchPolicyLaws.BindingsCount | scripts/check_branch_protection_policy.py:685-779 | Counting bindings finds repeated contexts |
| BranchPolicyLaws.RequiredChecksExact | scripts/check_branch_protection_policy.py:685-779 | Against a validated declaration the comparison finds nothing if and only if every live entry is well-formed, no context repeats and the live context-to-app map is the declared one |
| BranchPolicyLaws.LiveChecksExactly | scripts/check_branch_protection_policy.py:685-779 | The same told from the documents: the live value is a list of records that each bind one context, no context twice, and it binds the same contexts to the same apps |
| BranchPolicyValid.CheckBlockExactly | scripts/check_branch_protection_policy.py:211-274 | The declared check block is accepted if and only if it has a boolean strictness, a non-empty sound list of checks and no retired list |
| BranchPolicyValid.FalsyExactly | scripts/check_branch_protection_policy.py:580 | Exactly null, false, zero in any notation, and empty text, list and object count as false |
| BranchPolicyValid.ReviewBlockExactly | scripts/check_branch_protection_policy.py:576-612 | The declared review block is accepted if and only if it says whether it is present and, when that is truthy, says everything else with the right types |
| BranchPolicyValid.BindsExactly | scripts/check_branch_protection_policy.py:372-531 | An exception is accepted if and only if what it documents is declared: the null binding, the populated category, or the setting with the value named and, for a posture, the weak one |
| BranchPolicyValid.UndocumentedExactly | scripts/check_branch_protection_policy.py:277-359 | Nothing is reported undocumented if and only if every open context, populated category and weak posture is named by an exception |
| BranchPolicyValid.ValidExactly | scripts/check_branch_protection_policy.py:534-612 | A policy validates if and only if repository, authority, both blocks, every boolean setting and every exception are sound and nothing weak is unnamed |
| BranchPolicyEscape.ComparisonForgetsOrder | scripts/check_branch_protection_policy.py:685-779 | Whether required checks agree does not depend on the order of the live list |
| BranchPolicyGate.WeakIffDocumented | scripts/check_branch_protection_policy.py:277-531 | On every valid policy a registered posture is declared weak if and only if an exception names it |
| BranchPolicyGate.UnpinnedIffDocumented | scripts/check_branch_protection_policy.py:277-531 | On every valid policy a context is open to any app if and only if an exception names it |
| BranchPolicyGate.BypassIffDocumented | scripts/check_branch_protection_policy.py:277-531 | On every valid policy a bypass category lists somebody if and only if an exception names it |
| BranchPolicyLive.ComparisonExactly | scripts/check_branch_protection_policy.py:782-849 | Against a valid policy the comparison finds nothing if and only if every boolean setting, unwrapped from its `enabled` object where it has one, the required checks and the review block with its allowances are live as declared |
| BranchPolicyLive.LiveWeaknessIsDocumented | scripts/check_branch_protection_policy.py:277-849 | With validation and comparison both clean, every registered weak posture that is live is named by an exception, but for a review block declared as a numeric zero |
| BranchPolicyLive.ReportedWeaknessIsDocumented | scripts/check_branch_protection_policy.py:277-849 | The same told from the live document posture by posture: a weak value as it stands, or under `enabled` in an object |
| BranchPolicyLive.LiveUnpinnedIsDocumented | scripts/check_branch_protection_policy.py:277-849 | With both clean, every live record that binds a context to null is named by an exception |
| BranchPolicyLive.LiveBypassIsDocumented | scripts/check_branch_protection_policy.py:277-849 | With both clean, every live non-empty bypass category is named by an exception |
| BranchPolicyEscape.EscapesExactly | scripts/check_branch_protection_policy.py:534-849 | A valid policy lets some undocumented live weakness through if and only if it declares the review block as a numeric zero |
| BranchPolicyEscape.EscapeExists | scripts/check_branch_protection_policy.py:534-612 | Such a policy exists: a complete valid document without exceptions |
| MonetaryGuard.StableFindingKeys | scripts/check_monetary_float_usage.py:38-52 | Whatever order the set yields, each located finding's key is its place and its rank there, and other findings keep their text |
| MonetaryGuard.FindUnapprovedFindings | scripts/check_monetary_float_usage.py:140-147 | The sorted findings that neither their own text nor an entry of their place and rank excuses |
| MonetaryGuard.RefreshAllowlist | scripts/check_monetary_float_usage.py:150-172 | Each finding keeps its own entry's metadata, else that of an entry with its stable key, else the default |
| MonetaryGuardLaws.FindingReadsBack | scripts/check_monetary_float_usage.py:28-35 | A finding the scan wrote reads back as its path, line and source |
| MonetaryGuardLaws.ParseExactly | scripts/check_monetary_float_usage.py:28-35 | A text is read as a located finding if and only if it is path, number and source cut at the first two colons, the source stripped |
| MonetaryGuardLaws.RankFollowsLine | scripts/check_monetary_float_usage.py:46-51 | Within a place the ranks follow the line numbers, and on one line the texts |
| MonetaryGuardLaws.KeyTextInjective | scripts/check_monetary_float_usage.py:49-51 | A stable key's text names one place and one rank |
| MonetaryGuardLaws.RanksFill | scripts/check_monetary_float_usage.py:38-52 | The findings of a place carry the ranks 1 to their count, each once |
| MonetaryGuardLaws.AtMostTheSurplus | scripts/check_monetary_float_usage.py:140-147 | For every allowlist, a place with n findings and m entries reports at most max(0, n - m) |
| MonetaryGuardLaws.ReportedCount | scripts/check_monetary_float_usage.py:140-147 | With located entries it reports at least n - 2m, and exactly max(0, n - m) if and only if no finding ranked after m is itself an entry |
| MonetaryGuardLaws.OneEntryExcusesTwo | scripts/check_monetary_float_usage.py:140-147 | One entry excuses two findings, for every path, source and pair of lines |
| MonetaryGuardLaws.MovementIsNotReported | scripts/check_monetary_float_usage.py:140-147 | Moving allowlisted findings to any other lines of their place, and deleting any of them, is never reported |
| MonetaryGuardLaws.MovementKeepsKeys | scripts/check_monetary_float_usage.py:38-52 | A movement that keeps the order within each place keeps every stable key |
| MonetaryGuardLaws.MovementKeepsMetadata | scripts/check_monetary_float_usage.py:158-172 | After such a movement a refreshed entry keeps its metadata if and only if its new text is not the old text of an entry that says something else |
| MonetaryGuardLaws.MetadataGoesAstray | scripts/check_monetary_float_usage.py:158-172 | Two findings move down one line, and the first, although its stable key is unchanged, is given what the second entry said |
| GateAudit.GateRuns | scripts/audit_main_gate_coverage.py:254-312 | No history is given exactly when some run or superseded attempt leaves it unknown; otherwise it is every attempt of every run that evaluated the source |
| GateAudit.SupersededAttempts | scripts/audit_main_gate_coverage.py:305-311 | Attempts 1 up to the newest are read, or none when one cannot be |
| GateAuditLaws.HistoryExactly | scripts/audit_main_gate_coverage.py:254-312 | An attempt is in the history if and only if it is the newest or a superseded attempt of a run that evaluated the source |
| GateAuditExact.AttemptExactly | scripts/audit_main_gate_coverage.py:139-174 | What is recorded of an attempt: the listing's fields for the newest, the archive's for every earlier one, under the run's identifier and the attempt's number |
| GateAuditLaws.UnprovenTitleIsSkipped | scripts/audit_main_gate_coverage.py:274-283 | A mainline run with a malformed title, or off main, changes no source's history and never makes one unknown |
| GateAuditExact.SourceExactly | scripts/audit_main_gate_coverage.py:177-196 | A run counts for a full revision if and only if its mainline title names it and it ran on `main`, or it has no mainline title and started on it |
| GateAuditExact.TitleOffMain | scripts/audit_main_gate_coverage.py:187-192 | A mainline title on any other branch counts for no commit and leaves every history as it is without that run |
| GateAuditExact.LaterExactly | scripts/audit_main_gate_coverage.py:315-336 | Attempts are ordered by start time, then by run number, then by attempt number |
| GateAuditLaws.PaddedOrder | scripts/audit_main_gate_coverage.py:315-336 | Zero-padded numbers within the width sort as numbers |
| GateAuditLaws.OutcomeForgetsOrder | scripts/audit_main_gate_coverage.py:315-379 | When attempts can be told apart, the outcome does not depend on their order |
| GateAuditLaws.ListingOrderDoesNotMatter | scripts/audit_main_gate_coverage.py:254-379 | With distinct numeric run identifiers the outcome does not depend on the order of the run listing |
| GateAuditLaws.NoiseChangesNothing | scripts/audit_main_gate_coverage.py:361-372 | Adding, dropping or moving attempts without a verdict never changes an outcome that has one |
| GateAuditLaws.NewestDecides | scripts/audit_main_gate_coverage.py:361-372 | The newest verdict and the number of failing verdicts give the outcome, without any sorting |
| GateAuditLaws.FailureIsNeverErased | scripts/audit_main_gate_coverage.py:339-379 | Whatever attempts surround it, a failing verdict is never read as passing or ungated |
| GateAuditLaws.FailedAttemptStays | scripts/audit_main_gate_coverage.py:254-379 | A failing attempt of the source, superseded or not, is never read as passing or ungated |
| GateAuditLaws.PassingExactly | scripts/audit_main_gate_coverage.py:344-366 | A commit passes if and only if it has verdicts and all are dated and successful |
| GateAuditLaws.UngatedExactly | scripts/audit_main_gate_coverage.py:373-374 | A commit is ungated if and only if it has no attempts |
| GateAuditExact.WithoutVerdictExactly | scripts/audit_main_gate_coverage.py:373-379 | Attempts without any verdict are unverifiable: the statuses of the unfinished ones, or what each came to |
| GateAuditExact.UndatedExactly | scripts/audit_main_gate_coverage.py:344-360 | The outcome is undated if and only if some verdict has no start time, and counts them |
| Cleaner.TopmostIsTheAntichain | scripts/clean_generated_artifacts.py:75-84 | The collapsed set is the only antichain of candidates with every candidate in or below it |
| Cleaner.SameSubtrees | scripts/clean_generated_artifacts.py:75-84 | Removing the collapsed subtrees removes exactly what removing every candidate's subtree would |
| Cleaner.ResolveAll | scripts/clean_generated_artifacts.py:76-78 | Each resolved path once, in order of appearance, with the last path that led to it |
| Cleaner.Collapse | scripts/clean_generated_artifacts.py:79-83 | Visiting shortest first and dropping what lies below a kept path keeps exactly the topmost paths |
| Cleaner.DedupeExistingPaths | scripts/clean_generated_artifacts.py:75-84 | The result resolves to the topmost candidates, each once, each by the last candidate that led to it |
| Cleaner.InsideExactly | scripts/clean_generated_artifacts.py:58-92 | A path is refused as protected if and only if some part of it below the root is `.git`, `.venv`, `venv` or `node_modules` |
| Cleaner.Checkout.RemoveDisposablePath | scripts/clean_generated_artifacts.py:58-72 | The root, anything outside it and anything reached through a protected part is refused and nothing changes; otherwise exactly the target's subtree goes |
| Cleaner.Checkout.CleanGeneratedArtifacts | scripts/clean_generated_artifacts.py:45-55 | All or nothing: refused exactly when a candidate leads to the root, and then untouched; otherwise everything in or below a target goes and nothing else |
| Cleaner.OutsideIsKept | scripts/clean_generated_artifacts.py:58-72 | The root and everything outside it survive |
| Cleaner.ProtectedNameInsideGoes | scripts/clean_generated_artifacts.py:87-92 | A protected name inside a target does not save it |
| WorkflowTimeouts.FindTimeoutViolations | scripts/check_workflow_action_runtime.py:152-210 | The one-pass scan reports the job blocks of the file, each judged once, in order |
| WorkflowTimeouts.HeadingExactly | scripts/check_workflow_action_runtime.py:24 | A job heading is two spaces, a name of letters, digits, `_` and `-`, a colon and only whitespace |
| WorkflowTimeouts.MinutesExactly | scripts/check_workflow_action_runtime.py:25 | A job timeout is its key at four spaces and digits between whitespace, read as their number |
| WorkflowTimeouts.OneViolationPerJob | scripts/check_workflow_action_runtime.py:162-181 | There are as many violations as jobs whose last job-level timeout is absent or outside 1 to 60 |
| WorkflowTimeouts.CleanExactly | scripts/check_workflow_action_runtime.py:152-210 | A file is clean if and only if every job's last timeout is in range |
| WorkflowTimeouts.SectionsAreJudgedApart | scripts/check_workflow_action_runtime.py:190-195 | From a line that ends a section on, the rest of the file is judged on its own |
| MetricRatchet.QualityBaseline.UpdateBaseline | scripts/check_quality_baseline_ratchet.py:173-206 | When an update is accepted, what it then writes, and that a refusal changes nothing |
| MetricRatchetLaws.AcceptedExactly | scripts/check_quality_baseline_ratchet.py:173-206 | An update is accepted if and only if every comparison is known, every metric that misses its threshold is allowed that very value with a reason, and every allowance names a metric whose last entry misses |
| MetricRatchet.QualityBaseline.Execute | scripts/check_quality_baseline_ratchet.py:209-273 | The exit code of every combination of options, and when the file is rewritten |
| MetricRatchetLaws.NeverLoosensExactly | scripts/check_quality_baseline_ratchet.py:180-203 | No accepted update loosens a threshold that was not allowed by name, value and reason, if and only if every entry agrees in direction with the last of its name and that one is as tight |
| MetricRatchetLaws.RecheckPassesExactly | scripts/check_quality_baseline_ratchet.py:28-38 | Every accepted update passes its own re-check if and only if no two entries share a name |
| MetricRatchetLaws.SharedNameLoosens | scripts/check_quality_baseline_ratchet.py:180-203 | A baseline with one name twice that an update loosens and that fails its re-check |
| MetricRatchetLaws.UpdatesOnlyTighten | scripts/check_quality_baseline_ratchet.py:173-206 | Over any sequence of updates, with or without allowed regressions, each threshold of such a baseline stays as tight as it was in its own direction, or as tight as a value explicitly allowed for its name with a reason |
| SigningContext.CollapseCasing | src/app/core_execution_authority.py:50-53 | Headers are collapsed to lower case if and only if no two names differ only in case |
| SigningContext.CoreExecutionAuthority.PostInit | src/app/core_execution_authority.py:36-47 | Every field is reset to its normal form, or the object is refused for the first flaw |
| SigningExact.ContextValueExactly | src/app/core_execution_authority.py:17-23 | A value is admitted as s if and only if it is s between runs of whitespace and s is 1 to 128 printable ASCII characters with none of it at the ends |
| SigningExact.ScopeExactly | src/app/core_execution_authority.py:36-47 | A scope is admitted if and only if it has values and each is a field value without `,` and `*`; it is the set of those |
| SigningContext.CoreExecutionAuthority.Sign | src/app/core_execution_authority.py:49-83 | When headers are refused and why; otherwise the caller's unprivileged headers, the operator's context and its signature, and nothing else |
| SigningLaws.CanonicalTextSplits | src/app/core_execution_authority.py:86-104 | Splitting the canonical text on newlines gives every signed field back, in order |
| SigningLaws.CapabilitiesSplit | src/app/core_execution_authority.py:79 | Splitting the last field on commas gives exactly the capability set |
| SigningLaws.UniquelyDecodable | src/app/core_execution_authority.py:86-104 | Equal canonical texts come only from equal contexts |
| SigningLaws.SignatureBindsContext | src/app/core_execution_authority.py:86-109 | Under one secret, signatures are equal if and only if the contexts are, as long as the MAC does not collide |
| SigningLaws.SignatureCoversWhatIsSent | src/app/core_execution_authority.py:70-83 | The signature is over the headers as they are sent |
| SigningLaws.PrivilegedAreTheOperators | src/app/core_execution_authority.py:58-81 | A privileged header is sent only with the operator's value, whatever the caller supplied |
| SigningLaws.CallerHeadersDoNotMatter | src/app/core_execution_authority.py:58-83 | Nothing a caller sends beside tenant and correlation shows in the signature |
| SigningExact.CollapsedExactly | src/app/core_execution_authority.py:50-53 | Every header stands under its lower-case name with its value stripped, and no other does |
| SigningExact.SentExactly | src/app/core_execution_authority.py:58-83 | The nine headers that are always sent, by name, with the context's values and the signature over the text spelled out |
| SigningExact.AuthorizationIsNeverSent | src/app/core_execution_authority.py:58-69 | The caller's own `authorization` and `x-caller-capabilities` are never sent |
| SigningExact.PassedOnExactly | src/app/core_execution_authority.py:58-69 | Any header neither the operator nor the context owns is sent if and only if the caller gave it, with the value given |

## Left out

- Python's `tokenize` is an arbitrary function from text to token slices; token positions are offsets rather than rows and columns, so `_source_span` and `splitlines` are not modelled.
- Python's character classes are arbitrary predicates of which only three inclusions are assumed; whitespace itself is the concrete Unicode list.
- Reading fragments and contexts from checked-out sources (`_source_fragment`, `_scope_context`) is an argument of the report model; so are entry field checks (`_normalise_source`, `_normalise_location`).
- FingerprintLaws.KeysExactly: the digest of normal forms and contexts is injective.
- DuplicateReport.FingerprintsAreDistinct: SHA-256 over the identity payload is an injective function of key and number.
- FingerprintLaws.RespacedReport: which tokens the re-spaced text has is part of the hypothesis, since the tokenizer is an argument; context digests of both sides are taken as unchanged.
- JsonRoundTrip.RoundTrip: lone surrogates, infinities and NaN cannot occur in a modelled document; the reader follows RFC 8259, which is stricter than `json.loads` about such values.
- FragmentNormalForm.NormalFormFaithful: the direction from equal normal forms to equal lexemes fails when code follows a comment (`FragmentComments.CommentsAreNotFaithful`); the other direction holds of every text.
- AnalyticsPolling.DeadlineSafety: each wake-up may be late by `lag`, so a run ends by the deadline plus one `lag`; with ideal timers `lag` is zero.
- AnalyticsPolling.RunAsyncPollLoop: the per-request httpx timeout clipped to the remaining budget is not modelled; the budget's own timer bounds the request.
- RetryEngine.AtMostOnce: what the network can do is an assumption: a response means delivery, and a failure to connect means none unless redirects are followed.
- The error detail text of transport failures, audit emission, metrics and logging.
- BranchPolicy.RequiredChecks: a value of a shape on which the script would stop with an exception is reported as an `Unreadable` issue; message texts are tags.
- BranchPolicyLive.LiveBypassIsDocumented: bypass logins and slugs that are not strings are reported as a difference.
- BranchPolicyEscape.ComparisonForgetsOrder: states that emptiness does not depend on order; with a repeated context the individual issues do.
- `detect_repository`, `fetch_live_protection` and `resolve_effective_codeowners` call subprocesses and read files.
- MonetaryGuardLaws.ReportedCount: the lower bound and the exact count need every allowlist entry to have a place; an entry without one could be the literal text of a stable key.
- MonetaryGuard.StableFindingKeys: `isdecimal` and `int` are an arbitrary partial function on text.
- `scan_repo`, `load_allowlist` and review dates: file traversal and field checks settled by reading one branch.
- GateAudit.GateRuns: API fields arrive as the text the script makes of them; fetching and paging the listing is an argument.
- GateAuditLaws.ListingOrderDoesNotMatter: identifiers that are not plain decimal numbers may collide after padding.
- Cleaner.Checkout.CleanGeneratedArtifacts: path resolution does not change while removing, and removal itself does not fail; the fixed names and glob patterns are an arbitrary list of candidates.
- WorkflowTimeouts.FindTimeoutViolations: works on the lines of one file, and reads ASCII digits where the pattern's `\d` also admits other decimal digits.
- The action-version and Node 24 checks of the workflow guard: each line is judged by itself.
- MetricRatchet.QualityBaseline.UpdateBaseline: each entry comes with one measured number; reading them from logs by regular expression is an argument that may fail as a whole, and NaN, a missing `metrics` list and the rewritten JSON text (a copy of the printer above) are left out.
- MetricRatchetLaws.NeverLoosensExactly: quantifies over one measurement per entry, also for entries that share a log.
- SigningContext.CoreExecutionAuthority.Sign: `str.lower`, the clock and HMAC-SHA-256 are arguments; settings and the environment are not modelled.
- Per-service client mixins, header builders, routers, contract models and `precision_policy.py`: forwarding or single-branch code.
