# AgentNet in Dafny

A model of the parts of AgentNet that its security and its bookkeeping rest
on, with proofs. AgentNet lets agents of different people work together: each
has a signed agent card, grants others signed capabilities on files, serves
those files in bounded fetches, asks a human to approve risky actions, runs
allowlisted commands for a linked device, and writes everything to a
hash-chained audit log.

Five components are modelled, each in the form the source has: pure functions
where it computes, classes and loops where it updates state, and a state machine
over critical sections, transactions and messages where it is concurrent.

1. **Canonical JSON** (`Utf8`, `Order`, `Json`, `JsonGrammar`, `JsonExact`, `Canonical*`,
   `Surrogates`, `Documents`, `StrictDocuments`, `Base64Url`, `Decimal`, `Instant`,
   `AgentCard`, `CardVerdict`, `Paths`, `Grants`). A writer in the style of RFC 8785, a
   reader, the byte scanner for lone surrogate escapes, and the signed cards and grants
   on top. The reader is exact for the grammar of RFC 8259 given as syntax trees,
   canonical bytes determine the value, reading them gives it back, and cards and grants
   verify if and only if they are signed and well formed and, for grants, apply.
2. **Audit chain** (`Hex`, `Chain*`, `SoftRows`). An anchored hash fixes every row
   before it, legacy rows included, what the appender builds verifies, and the verifier
   reports the first bad row and the first reason exactly (`ChainVerdict`).
   SHA-256 is any function with 32-byte results; where injectivity is needed the
   theorem asks that the inputs actually hashed do not collide.
3. **Approvals** (`RollingDay`, `Approval`, `ApprovalStore`, `ApprovalAnswers`, `ApprovalHourly`).
   Every interleaving of creation, confirmation, rejection, timers, sweeps, lockout and
   restart, with any database write failing: what never happens, and what every answer does.
4. **Fetch** (`ByteWindow`, `FixedWindow`, `FetchBudget`, `FetchBudgetExact`,
   `FetchSlots`, `FetchReplay`, `FetchAudit`, `FetchServer`, `FetchRun`, `FetchRead`,
   `Reassembly`, `FetchClient`, `FetchFile`, `FetchWhole`, `Listing`). Budgets, slots, replay
   memory and audit rows of the server; fragments, retries and paging up to a
   whole file or listing on the client.
5. **Helper runs** (`RunQueue`, `RunProgress`, `RunLimits`, `RunStore`). The stored queue, its
   one executor, and sweeps that race with revocations, crashes and restarts: a revoked
   command is stopped, and a permitted one that can be checked is left to run.

Ed25519, SHA-256, JSON validity of an audit detail, the clock, the network and
the database's answers are parameters. Times are integers, in milliseconds where
a limit depends on them. Random ids are assumed fresh.

## Where the code does not keep a promise

- The appender does not check that an actor or an action is valid UTF-8, and the
  verifier does. `ChainRuns.UncheckedActorBreaksLog` gives a successful append
  that breaks the log; `ChainRuns.AppendedLogVerifies` proves that a built log
  verifies if and only if those texts, and the legacy rows, are well formed.
- A replayed request can pass twice when a worker is delayed more than 30 s
  between reading the clock and the replay check, because Flush forgets after
  11 minutes on its own clock (an operation may take a minute).
  `FetchReplay.SlackIsExact` proves at-most-once for delays up to d if and only
  if d is at most 30 s.
- `Docs/protocol/grant.md` says a grant's 24 h budget is passed by at most the
  one operation that crossed it. For every budget two operations admitted
  together both cross it (`FetchBudgetExact.TwoOperationsCross`, at the default
  budget with at most two operations a second). The documented bound holds on all
  runs with at most m operations in flight if and only if m is at most 1
  (`FetchBudgetExact.OneAtATimeIsExact`).
- `Docs/protocol/approval.md` says at most 20 approvals are created per hour. The
  check counts rows, and a row is written after its slot was reserved, so
  creations that overlap pass it (`ApprovalHourly.OverlapPassesLimit`). The limit
  holds for every hour of all runs with at most m creations under way if and only
  if m is at most 1 (`ApprovalHourly.OverlapIsExact`).
- A file in a directory that is written while it is fetched can come out as a
  mixture of its versions. Each fragment of a read is read from the file as it
  then is, and between the reads of one file the command line compares only size
  and commit, and a directory has no commit. `FetchRead.ChangeGivesMixture` and
  `FetchFile.RewriteGoesUnnoticed` give the mixtures. What is safe depends on
  lengths known before the call, for every change of the file:
  - one read of n bytes is the range of one version if and only if n is at most
    one fragment, 32 KiB (`FetchRead.WholeReadIsExact`), and the client completes
    a read with one version's range, whatever the network does, under the same
    condition on the range asked for (`Reassembly.SafeReadIsExact`);
  - if every read is of one version, the command line returns one version if and
    only if the file fits in one read, 256 KiB, or is over the 8 MiB limit
    (`FetchFile.NeverMixedIsExact`);
  - from disk to command line it returns one version if and only if the file fits
    in one fragment or is over the limit (`FetchWhole.ArrivesWholeIsExact`).
- The limits of 20 operations a second and 60 audit rows a minute are kept by
  windows that start at a use. For every limit and period, some run lets twice
  the limit through in one period, or one less when every window starts with a
  use that counts, as for audit rows, and none lets more through
  (`FixedWindow.TwiceIsExact`). When a window starts again, the limit itself is
  kept by whatever follows within a period if and only if nothing passed in the
  period before (`FixedWindow.QuietIsExact`).

## Model

| member | source | states |
|---|---|---|
| `Order.KeyLessStrictTotal` | internal/agentcard/canonical.go:238-246 | the UTF-16 key order is irreflexive, transitive and total on strings |
| `Order.KeyLessByRank` | internal/agentcard/canonical.go:238-246 | comparing UTF-16 units orders keys by code point, except that characters past U+FFFF come before U+E000 to U+FFFF |
| `Order.Utf16Less` | internal/agentcard/canonical.go:238-246 | the unit-by-unit loop decides exactly that order |
| `Canonical.SortedUnique` | internal/agentcard/canonical.go:213-218 | a set of keys has one ascending listing, so output does not depend on map iteration order |
| `CanonicalWriter.WriteString` | internal/agentcard/canonical.go:250-279 | the buffer grows by the quoted string with the fixed escapes of RFC 8785 section 3.2.2.2 |
| `CanonicalWriter.SortKeys` | internal/agentcard/canonical.go:213-218 | keys in any order become their one ascending listing |
| `CanonicalWriter.Canonicalize` | internal/agentcard/canonical.go:184-232 | the recursive writer appends exactly the canonical text, and fails exactly on values that have none |
| `CanonicalWriter.CanonicalValue` | internal/agentcard/canonical.go:284-290 | the bytes returned are the UTF-8 of the canonical text |
| `Decimal.AcceptedNumbers` | internal/agentcard/canonical.go:190-201 | the numbers accepted are exactly the shortest decimal forms of the integers strictly between -2^53 and 2^53 |
| `CanonicalReader.ParseText` | internal/agentcard/canonical.go:139-180 | in front of any text, reading a value's canonical form gives the value and leaves the text |
| `CanonicalReader.RoundTrip` | internal/agentcard/canonical.go:139-232 | parsing a canonical form gives the value back |
| `CanonicalReader.TextInjective` | internal/agentcard/canonical.go:184-232 | two accepted values with one canonical form are equal |
| `JsonExact.ReadsDocument` | internal/agentcard/canonical.go:126-180 | every spelling of a grammatical document, with any escapes and white space, is read as its meaning, and refused exactly when an object in it repeats a key |
| `JsonExact.ReadsExactly` | internal/agentcard/canonical.go:126-180 | a text is read as a value if and only if it spells that value: some syntax tree of RFC 8259 without repeated keys has this text and this meaning |
| `Surrogates.Hex4At` | internal/agentcard/canonical.go:106-124 | the loop reads exactly the value of four hex digits of either case |
| `Surrogates.CheckSurrogates` | internal/agentcard/canonical.go:58-103 | the index-jumping loop computes the scan |
| `Surrogates.ScanOutside` | internal/agentcard/canonical.go:58-103 | on well-formed escapes the scan accepts exactly the texts whose surrogate escapes, literal by literal, are high ones directly followed by low ones |
| `Documents.StrictRoundTrip` | internal/agentcard/canonical.go:34-45 | the strict parse of canonical bytes gives the value, surrogate scan included |
| `StrictDocuments.StrictReadsDocument` | internal/agentcard/canonical.go:34-45 | every grammatical document is read as its meaning, and refused exactly for a repeated key or a surrogate escape without its pair |
| `StrictDocuments.StrictReadsExactly` | internal/agentcard/canonical.go:34-137 | bytes are read strictly as a value if and only if they spell it: UTF-8, grammatical, no repeated key, every surrogate escape paired |
| `Documents.CanonicalBytesInjective` | internal/agentcard/canonical.go:284-290 | canonical bytes determine the value |
| `Documents.NeverLonger` | internal/agentcard/canonical.go:250-290 | canonical bytes are never longer than the document they were read from |
| `Documents.CanonicalIdempotent` | internal/agentcard/canonical.go:284-290 | canonicalising twice is canonicalising once |
| `Base64Url.DecodeIsInverse` | internal/agentcard/agentcard.go:251-269 | a string decodes to n bytes if and only if it is the encoder's output for them |
| `Base64Url.AcceptsExactlyEncodings` | internal/agentcard/agentcard.go:251-269 | the accepted strings are exactly the encodings of n-byte values (RFC 4648 sections 3.5 and 5) |
| `AgentCard.CardExact` | internal/agentcard/agentcard.go:279-345 | the decoded card's own map is the map that was read: nothing signed is dropped |
| `AgentCard.VerifiedIsSigned` | internal/agentcard/agentcard.go:370-418 | the signature covers the canonical form of the card Verify returns |
| `AgentCard.StoredFormFaithful` | internal/agentcard/agentcard.go:424-447 | the stored form of a verified card fits the limit, verifies to the same card and is its own stored form |
| `AgentCard.RescuedIsStored` | internal/agentcard/agentcard.go:460-477 | a rescued card is kept only in a form that passes the current rules under the wanted key |
| `CardVerdict.ValidateExact` | internal/agentcard/agentcard.go:115-182 | a card is valid if and only if its texts can be shown, the required ones are not empty, its key encodes 32 bytes, its time is one and it has at most 32 skills |
| `CardVerdict.CardRead` | internal/agentcard/agentcard.go:279-345 | the map of a card with at most 32 skills is read back as that card |
| `CardVerdict.VerifiedExactly` | internal/agentcard/agentcard.go:370-418 | bytes verify as a signed card if and only if they are at most 16 KiB, strictly read, hold exactly that card and signature, the card is valid and its own key made the signature |
| `CardVerdict.VerifiedIsRescued` | internal/agentcard/agentcard.go:460-477 | every card that verifies as stored is rescued, in its stored form |
| `Instant.ParseExact` | internal/capability/token.go:377-387 | a time text is accepted exactly when it is the formatted form of the time it is read as |
| `Instant.SecondsCount` | internal/capability/token.go:218-228 | the seconds of a time count calendar seconds: from the zero time, the next second in the calendar is one more, leap years included |
| `Paths.EffectivePathStaysInScope` | internal/capability/fetch.go:487-496 | the effective path's segments are the scope's followed by the request's, and none climbs |
| `Paths.ScopePathExact` | internal/capability/token.go:302-331 | a scope path is valid if and only if it has at most 1024 bytes and is empty or allowed names joined by single slashes |
| `Paths.ScopeWithin` | internal/capability/store.go:774-792 | the segment comparison decides exactly the prefix relation on segments |
| `Paths.CoveredRequestStaysCovered` | internal/capability/store.go:743-792 | a request under a covered scope stays under the policy's scope |
| `Grants.DecodeOfMap` | internal/capability/token.go:102-127 | decoding the map of a grant that Sign accepts gives the grant |
| `Grants.MapOfDecode` | internal/capability/verify.go:231-319 | a map that passes steps 1 and 2 is the map of the grant it decodes to |
| `Grants.SignedTokenVerifies` | internal/capability/token.go:137-174 | a signed token verifies, as exactly the signed grant, if and only if issuer, audience, times, session and its state all fit the parameters; otherwise the step and reason reported are those of the first that does not |
| `Grants.VerifiedIsSigned` | internal/capability/verify.go:107-196 | what Verify returns is what the issuer signed: well formed, of a fitting kind, for the expected issuer and audience, begun and not expired, in a known open session, from at most 2048 bytes |
| `Grants.VerifiedExactly` | internal/capability/verify.go:107-196 | for every byte string: it verifies as a grant if and only if it is a token of that grant with a signature that holds, and the grant is well formed, of a fitting kind and applies |
| `Grants.FormatsExact` | internal/capability/token.go:180-240 | the format rules spelled out, one by one and both ways |
| `Chain.RowBytesInjective` | internal/audit/chain.go:45-55 | the canonical form of a row fixes its five fields |
| `ChainAnchors.LabelsApart` | internal/audit/chain.go:38-66 | the genesis input and row inputs of the hash never coincide |
| `Hex.DecodeHashExact` | internal/audit/chain.go:68-76 | a hash text decodes to 32 bytes if and only if it is their lower-case hex |
| `ChainAnchors.WalkEstablishes` | internal/audit/chain.go:270-349 | an intact walk has checked every row: order, form, hash link and chain start |
| `ChainAnchors.AnchorFound` | internal/audit/chain.go:351-366 | a verified anchor sits on a stored row with its hash |
| `ChainAnchors.LinkFixesHistory` | internal/audit/chain.go:56-66 | one chain value fixes the fields of all rows behind it |
| `ChainAnchors.AnchorsFixHistory` | internal/audit/chain.go:196-349 | two verified logs that share an anchored hash agree on every row up to it, legacy rows included |
| `ChainVerdict.WellFormedExact` | internal/audit/chain.go:368-376 | a row is well formed if and only if its detail is JSON, its ts a time and all four texts are UTF-8 |
| `ChainVerdict.VerdictExact` | internal/audit/chain.go:196-366 | Verify reports a status if and only if it is so: broken at the first row that fails and for the first reason it fails, else the least anchor with no row, else the first anchored legacy row, else intact |
| `ChainVerdict.VerdictCounts` | internal/audit/chain.go:196-245 | rows, legacy rows and chain start are those of the rows looked at: all of them, or those up to the first bad one |
| `ChainVerdict.FirstReported` | internal/audit/chain.go:270-332 | the first row that does not pass is the one reported, with a reason for which it fails |
| `ChainVerdict.AlteredRowFound` | internal/audit/chain.go:270-332 | a genuine log with one row altered: Verify reports that row, or the seal when a legacy row was altered and stays well formed |
| `ChainVerdict.DeletedRowFound` | internal/audit/chain.go:270-300 | a genuine log with a row deleted between the seal and the last row: Verify reports the gap |
| `ChainLog.Verifier.Check` | internal/audit/chain.go:270-332 | the row check updates the walk's fields to the next state of the walk that `ChainVerdict.VerdictExact` is about |
| `ChainLog.Verifier.Close` | internal/audit/chain.go:351-366 | missing anchors and the end of the walk decide the status |
| `ChainLog.Log.ReadPage` | internal/audit/chain.go:247-268 | a page is the first rows between the bounds, in id order |
| `ChainLog.PageIsSlice` | internal/audit/chain.go:247-268 | read while others append, a page is still the next slice of the log as it was at the start |
| `ChainLog.Log.Verify` | internal/audit/chain.go:196-245 | the verdict is that of the log at the start, for every page size and whatever is appended meanwhile |
| `ChainLog.Log.ChainLegacy` | internal/audit/audit.go:309-353 | the loop over legacy rows gives their chain value, or fails exactly when one cannot be hashed |
| `ChainLog.Log.StartChain` | internal/audit/audit.go:309-353 | the chain starts with a sealing row hashed onto the legacy rows, and never twice |
| `ChainLog.Log.InsertRow` | internal/audit/audit.go:355-367 | the row inserted carries the hash of the chain value and its own fields |
| `ChainLog.Log.Append` | internal/audit/audit.go:114-307 | an append without an actor or action is refused, and any other adds all of its rows or none |
| `ChainRuns.AppendsExactly` | internal/audit/audit.go:281-307 | on a built log an append succeeds if and only if actor and action are given and the next id is below 2^53 |
| `ChainRuns.FirstAppendsExactly` | internal/audit/audit.go:281-353 | on a log of legacy rows the same, for the seal, the row and every legacy id |
| `ChainRuns.StartsExactly` | internal/audit/audit.go:309-353 | a chain starts on legacy rows if and only if all ids can be written canonically |
| `ChainRuns.BuildShape` | internal/audit/audit.go:281-367 | every sequence of successful appends gives legacy rows, one seal, then consecutive rows that carry the events |
| `ChainRuns.AppendedLogVerifies` | internal/audit/audit.go:281-367 | a built log verifies, with the right counts and start and for every anchor from its stored rows, if and only if the texts put in were valid |
| `ChainRuns.UncheckedActorBreaksLog` | internal/audit/audit.go:257-270 | an append with an actor that is not UTF-8 succeeds and the log no longer verifies |
| `SoftRows.Body` | internal/audit/audit.go:174-201 | rows through savepoints: a failed row is left out; the attempt succeeds if and only if every change works and no row loses the transaction, and reports a lost one exactly when that came first |
| `SoftRows.Database.RunSoft` | internal/audit/audit.go:212-237 | a second attempt, without rows, exactly when the first lost its transaction to a row; success exactly when the last attempt commits; it commits the whole change once with its written rows or none, failure commits nothing, and failing rows alone never stop the change |
| `Approval.StepOwned` | internal/approval/store.go:326-500 | every step keeps ownership: an approval is pending, approved, or rejected with its hook run or owed, exactly one of these |
| `Approval.RunIsSafe` | internal/approval/store.go:67-977 | on every run: an action commits at most once, OnReject runs at most once and never for an approved one, at most 3 wrong codes per approval even when writes fail, at most 5 pending, at most 10 wrong codes a day and with 10 of them nothing pending |
| `Approval.CommitIsApproval` | internal/approval/store.go:419-500 | an action commits only when its own finished approval is confirmed in time, in the step that marks its row approved (and always then: `ApprovalAnswers.PerformedExactly`) |
| `Approval.GoneForGood` | internal/approval/store.go:910-977 | an approval that has left memory is never pending or performed again, whatever follows |
| `ApprovalAnswers.RightCodeApproves` | internal/approval/store.go:419-500 | the right code in time, with a working database, performs the action once, approves the row, frees the slot and changes nothing else |
| `ApprovalAnswers.PerformedExactly` | internal/approval/store.go:326-500 | a step performs an action if and only if it is that answer |
| `ApprovalAnswers.RightCodeInTheEnd` | internal/approval/store.go:326-500 | after any wrong codes in time, the right one performs the action if and only if fewer than three attempts were used and the day's window stayed under ten |
| `ApprovalAnswers.WrongCodeCounts` | internal/approval/store.go:567-630 | a wrong code adds one attempt and one entry of the window; the third rejects, the tenth of a day takes everything |
| `ApprovalAnswers.LockoutRejectsAll` | internal/approval/store.go:631-655 | the tenth wrong code of a day takes every other finished approval for rejection |
| `ApprovalAnswers.UncountedCodeRejects` | internal/approval/store.go:357-417 | a wrong code that cannot be counted takes its approval for rejection |
| `ApprovalAnswers.LateAnswerExpires` | internal/approval/store.go:532-565 | an answer after ten minutes expires the row whatever the code, and OnReject is owed |
| `ApprovalAnswers.FailedConditionRejects` | internal/approval/store.go:506-530 | a failed precondition takes the approval for rejection and performs nothing |
| `ApprovalAnswers.FailedActionKeeps` | internal/approval/store.go:419-500 | a failed transaction or action changes nothing, so the approval can be answered again |
| `ApprovalAnswers.NothingToAnswer` | internal/approval/store.go:326-356 | an answer to something unknown, unfinished or unreadable changes nothing |
| `ApprovalAnswers.TakenExactly` | internal/approval/store.go:689-741 | a rejection and the timer take a finished approval out of memory, each with its own write to come |
| `ApprovalAnswers.RejectionSettles` | internal/approval/store.go:838-923 | what was taken for rejection is written rejected, and OnReject then runs once |
| `ApprovalAnswers.ExpirySettles` | internal/approval/store.go:689-766 | what the timer took is written expired and OnReject runs once; a failed write is left to be retried |
| `ApprovalAnswers.RetrySettles` | internal/approval/store.go:767-783 | the retry expires a row that still waits and changes nothing else |
| `ApprovalAnswers.SweptExactly` | internal/approval/store.go:656-685 | a sweep can take a set of approvals if and only if all are past their time; it expires exactly their rows |
| `ApprovalAnswers.EndsExactly` | internal/approval/store.go:326-977 | a finished approval leaves memory in a step if and only if the step is one of the listed reasons, and is otherwise as it was |
| `Approval.StepGuarded` | internal/approval/settings.go:38-122 | the rolling window keeps its bound, and a full one leaves nothing pending |
| `RollingDay.RecentLater` | internal/approval/settings.go:58-69 | what pruning drops would not count at any later time |
| `RollingDay.RecentCounts` | internal/approval/settings.go:58-69 | the number of recent times is the number of indices whose time is less than a day old |
| `RollingDay.RecentKeeps` | internal/approval/settings.go:58-69 | each time less than a day old is kept as often as it occurs, and no other |
| `ApprovalStore.Store.WrongCodes` | internal/approval/settings.go:38-70 | the loop returns exactly the times younger than a day |
| `ApprovalStore.Store.RecordWrongCode` | internal/approval/settings.go:111-122 | the window becomes its recent times and now, and is reported full from ten on |
| `ApprovalStore.Store.Reserve` | internal/approval/store.go:83-128 | a slot is reserved exactly when not locked, fewer than five are pending, fewer than 20 rows are of the last hour and the store is open |
| `ApprovalHourly.HourHolds` | internal/approval/store.go:104-127 | with at most m creations under way at once, every hour of the run has fewer than 20 + m creations, finished and under way, whatever has been pruned since |
| `ApprovalHourly.OverlapPassesLimit` | internal/approval/store.go:104-127 | from any stored list of wrong codes, two creations that overlap make 21 in an hour |
| `ApprovalHourly.OverlapIsExact` | internal/approval/store.go:104-127 | 20 in every hour holds on all runs with at most m creations under way if and only if m is at most 1 |
| `ApprovalStore.Store.FinishCreate` | internal/approval/store.go:205-235 | the row is written only if the reservation survived |
| `ApprovalStore.Store.RecordBadCode` | internal/approval/store.go:567-619 | attempts and window change together, and the third attempt rejects |
| `ApprovalStore.Store.Wrong` | internal/approval/store.go:357-417 | the wrong-code branch is the machine's step, with and without the database |
| `ApprovalStore.Store.Confirm` | internal/approval/store.go:326-500 | confirm is the machine's step, which `ApprovalAnswers` describes for every answer |
| `ApprovalStore.Store.DropAllLocked` | internal/approval/store.go:631-649 | a lockout empties memory and hands over exactly the finished approvals |
| `ApprovalStore.Store.SweepExpired` | internal/approval/store.go:656-685 | a sweep expires only what is past its time, and all of it when no write fails |
| `ApprovalStore.Store.TakePending` | internal/approval/store.go:925-940 | a rejection takes a finished pending approval and nothing else |
| `ApprovalStore.Store.ExpireNow` | internal/approval/store.go:689-703 | the timer takes its approval out of memory, if it is still there |
| `ByteWindow.BucketIsModulo` | internal/capability/fetch.go:113-116 | the truncating remainders give the true modulus, before 1970 too |
| `ByteWindow.UnixHourExact` | internal/capability/fetch.go:113 | the hour of a time truncates toward zero: down after 1970, up before |
| `ByteWindow.CountsLast25` | internal/capability/fetch.go:118-141 | rolled to an hour, the window adds up exactly the bytes whose hour is that one or one of the 24 before |
| `ByteWindow.SpreadAddsUp` | internal/capability/fetch.go:133-141 | the 25 buckets add up to the bytes of the newest 25 hours |
| `ByteWindow.Ring.Roll` | internal/capability/fetch.go:118-131 | zeroing the reused buckets is moving the window over the whole history forward |
| `ByteWindow.Ring.Served` | internal/capability/fetch.go:133-141 | the sum equals the bytes whose effective hour is within the newest 25, for any clock |
| `ByteWindow.Ring.Add` | internal/capability/fetch.go:696-706 | bytes count for the window's hour, so a clock that steps back adds to the newest |
| `FetchBudget.NeverMoreThanTwo` | internal/capability/fetch.go:665-694 | every run has at most two operations of a grant in flight |
| `FetchBudget.AdmitsExactly` | internal/capability/fetch.go:665-694 | an operation is admitted if and only if fewer than two are in flight and the bytes of the last 25 hours are below the budget |
| `FetchBudget.BudgetReturns` | internal/capability/fetch.go:665-694 | after 25 hours without bytes a positive budget admits again |
| `FetchBudget.BudgetHolds` | internal/capability/fetch.go:522-542 | for any clock readings, with at most m operations at once, those begun in the 25 clock hours up to the latest reading or later have served less than the budget and m reads |
| `FetchBudgetExact.AnyDayHolds` | internal/capability/fetch.go:522-542 | for readings in order, the same for every 25 clock hours of the run |
| `FetchBudgetExact.TwoOperationsCross` | internal/capability/fetch.go:679-684 | for every budget, a run whose last two operations both cross it: budget - 1 and two reads are served |
| `FetchBudgetExact.OneAtATimeIsExact` | internal/capability/fetch.go:679-684 | for every budget: the budget and one operation bound all runs with at most m in flight if and only if m is at most 1 |
| `FetchSlots.StepKeepsInv` | internal/capability/fetch.go:248-302 | every critical section keeps the counters equal to the jobs that hold slots |
| `FetchSlots.SlotsAreHeldJobs` | internal/capability/fetch.go:248-302 | on every run the counts per peer, per grant, of refusals and in all are the unreleased jobs, the total is their sum, and no limit is passed |
| `FetchSlots.IdleIsEmpty` | internal/capability/fetch.go:281-302 | when all jobs are released nothing is left counted |
| `FetchSlots.ReservesExactly` | internal/capability/fetch.go:248-273 | a request gets a slot if and only if its peer holds fewer than two and all hold fewer than 32; otherwise a refusal if and only if the peer has fewer than two |
| `FetchSlots.AdmitsExactly` | internal/capability/fetch.go:665-694 | a job is admitted to a grant if and only if fewer than two jobs hold it, and otherwise nothing changes |
| `FetchReplay.ForgettingIsInvisible` | internal/capability/fetch.go:331-345 | on calls in clock order the answers are those of a store that forgets nothing |
| `FetchReplay.AtMostOnceWithinSlack` | internal/capability/fetch.go:455-470 | checked within 30 s, the same request and ts pass at most once on every run |
| `FetchReplay.LateRequestPassesTwice` | internal/capability/fetch.go:565-588 | one millisecond later they can pass twice |
| `FetchReplay.SlackIsExact` | internal/capability/fetch.go:455-588 | at most once on all runs with delays up to d, if and only if d is at most 30 s |
| `FixedWindow.TwiceIsExact` | internal/capability/fetch.go:671-678 | for every limit and period: no period of any run lets more than k through if and only if k is at least twice the limit, one less when windows start only with uses that count |
| `FixedWindow.QuietKeepsLimit` | internal/capability/fetch.go:745-754 | windows that start after a quiet period keep the limit in every period |
| `FixedWindow.QuietIsExact` | internal/capability/fetch.go:671-678 | when a window starts again, the limit is kept whatever uses come within a period if and only if nothing passed in the period before |
| `FetchAudit.Audit.Record` | internal/capability/fetch.go:729-770 | a recorded operation is a row or is counted, and rows, summaries and counts together stay the unlimited log |
| `FetchAudit.CountedTogether` | internal/capability/fetch.go:729-744 | two operations share a window if and only if they have the same grant id, or none and the same peer |
| `FetchAudit.Audit.Flush` | internal/capability/fetch.go:805-824 | windows a minute old are written out and dropped, the others stay |
| `FetchAudit.Audit.FlushAll` | internal/capability/fetch.go:786-802 | afterwards the rows say exactly what the unlimited log would, grant by grant: operations, bytes and errors |
| `FetchServer.PruneStore` | internal/capability/fetch.go:577-581 | the loop keeps exactly the unexpired entries |
| `FetchServer.Server.Handle` | internal/capability/fetch.go:248-273 | what is not a request with a well-formed id is dropped; otherwise the reservation is the slot step |
| `FetchServer.Server.Enqueue` | internal/capability/fetch.go:274-279 | a job enters the queue of 256, or a full queue gives its reservation back |
| `FetchServer.Server.Free` | internal/capability/fetch.go:281-302 | the release is the slot step |
| `FetchServer.Server.MarkSeen` | internal/capability/fetch.go:565-588 | the check is the replay step on that peer's store and touches no other |
| `FetchServer.Server.OverBudget` | internal/capability/fetch.go:679-684 | the grant's ring is rolled and its buckets compared: the verdict is that of the history the ring stands for, and no other ring changes |
| `FetchServer.Server.Admit` | internal/capability/fetch.go:665-694 | admitted exactly within all three limits, with the new counters either way |
| `FetchServer.Server.FreeGrant` | internal/capability/fetch.go:687-693 | the returned release gives the grant's slot back |
| `FetchServer.Server.AddServed` | internal/capability/fetch.go:696-706 | the bytes go into the grant's own ring, a new one if needed: its history gains them, every other grant's stays |
| `FetchServer.Server.Flush` | internal/capability/fetch.go:331-356 | exactly the expired requests, idle rate windows and rings with nothing left to count are dropped |
| `FetchRun.Job.Fragments` | internal/capability/fetch.go:520-542 | the fragments' part of the story: bytes are counted before each fragment is sent, and the last one goes out only when settled |
| `FetchRun.Job.Run` | internal/capability/fetch.go:372-543 | the run does exactly what its story says, effect by effect; on every path slots are freed once and the audit row is written once, before any response that can be the last |
| `FetchRead.Read` | internal/capability/fs.go:394-423 | the loop emits each fragment as the file then is, or stops exactly when the file became too short |
| `FetchRead.ByteOfParts` | internal/capability/fs.go:402-421 | each byte of the joined fragments is the file's at the time its fragment was read |
| `FetchRead.PartsAreSlice` | internal/capability/fs.go:394-423 | on an unchanged file the fragments are file[offset .. min(offset+length, size)] |
| `FetchRead.ReadIsVersion` | internal/capability/fs.go:402-421 | which versions one given read can be: exactly those that every fragment matches |
| `FetchRead.ChangeGivesMixture` | internal/capability/fs.go:402-421 | a file rewritten after the first fragment: the read is the mixture, and one of the two versions only if they agree on one of its halves |
| `FetchRead.WholeReadIsExact` | internal/capability/fs.go:402-421 | a read of n bytes is the range of one version, for every change of the file, if and only if n is at most one fragment |
| `Reassembly.Assemble` | internal/daemon/fetch_client.go:388-391 | the loop joins the fragments in index order |
| `Reassembly.StepKeepsInv` | internal/daemon/fetch_client.go:349-406 | what is held is always part of the current attempt |
| `Reassembly.CompletedReadIsOneAttempt` | internal/daemon/fetch_client.go:207-257 | for any order, duplication, loss and retry, a completed read is exactly one attempt's fragments with the size promised, and there are at most three attempts |
| `Reassembly.CompletedReadIsVersion` | internal/daemon/fetch_client.go:391-406 | which versions one given completed read can be: exactly those that every fragment of its attempt matches |
| `Reassembly.PromptCompletes` | internal/daemon/fetch_client.go:349-406 | every acceptable attempt, its fragments delivered in order, completes the read with its data, size and commit |
| `Reassembly.AnyOrderCompletes` | internal/daemon/fetch_client.go:349-406 | fragments of an acceptable attempt in any order and with any repetition: complete with its data if and only if all have come, and until then exactly those that came are held |
| `Reassembly.OnFragExact` | internal/daemon/fetch_client.go:349-406 | an unusable fragment fails the read, a repeated one only marks the time, a new one is kept, and the last one completes it if and only if the bytes are as many as the size promises |
| `Reassembly.TickExact` | internal/daemon/fetch_client.go:207-257 | a pending read times out at its deadline, starts again exactly when it has some fragments, not all, none for 10 s and a retry left, and is otherwise unchanged |
| `Reassembly.RefusedExact` | internal/daemon/fetch_client.go:278-287 | a refusal fails the read it names, with its code if well formed, and leaves any other alone |
| `Reassembly.CompletedReadIsOneVersion` | internal/daemon/fetch_client.go:391-406 | a completed read whose range fits in one fragment is a version its attempt saw |
| `Reassembly.SafeReadIsExact` | internal/daemon/fetch_client.go:207-257 | over all runs and all changes of the file, a completed read is the range of one version if and only if the range fits in one fragment |
| `Reassembly.CompletedReadIsSlice` | internal/daemon/fetch_client.go:391-406 | if that attempt read an unchanged file, the result is that file's range |
| `FetchClient.Survey` | internal/daemon/fetch_client.go:528-543 | the loop counts the fetches pending with the peer, all those pending and those kept, and finds the first that finished |
| `FetchClient.Client.Admit` | internal/daemon/fetch_client.go:525-551 | admitted exactly with fewer than two pending with the peer and 64 in all; the first to finish makes room; at most 127 are ever held |
| `FetchClient.Client.Forget` | internal/daemon/fetch_client.go:555-560 | the fetch and its request id leave together; the index changes exactly when the fetch was still pending, and nothing does when it was gone |
| `FetchClient.Client.OnResp` | internal/daemon/fetch_client.go:261-298 | looking a fragment up by request id is offering it to every fetch with that peer |
| `FetchClient.Client.OnRefusal` | internal/daemon/fetch_client.go:278-287 | the same for an error, which fails the fetch with its code, or with io_error when that is not a well-formed code |
| `FetchClient.Client.TickAll` | internal/daemon/fetch_client.go:207-229 | each fetch is timed out, retried under a new id, dropped or left, and the index stays exact |
| `FetchFile.FetchFile` | cmd/agentnet/fetch.go:183-211 | the loop ends for any answers, with the outcome the lemmas below are about |
| `FetchFile.FetchJoins` | cmd/agentnet/fetch.go:196-210 | what is returned is the reads' data in order, at least as long as the one size they all reported |
| `FetchFile.FetchWhole` | cmd/agentnet/fetch.go:183-211 | on an unchanged file it is the file, and only a failed read or a file over 8 MiB prevents it |
| `FetchFile.FetchIsVersion` | cmd/agentnet/fetch.go:202-210 | which versions one given fetch can be: exactly those that every chunk matches at its offset |
| `FetchFile.RewriteGoesUnnoticed` | cmd/agentnet/fetch.go:202-206 | for every file over one read, a same-size rewrite after the first read gives the mixture and no error, and it is one of the versions only if they agree on one of its halves |
| `FetchFile.NeverMixedIsExact` | cmd/agentnet/fetch.go:183-211 | whichever version each read sees, what is returned is one of them if and only if the file fits in one read or is over the limit |
| `FetchWhole.WholeFileArrives` | cmd/agentnet/fetch.go:183-211 | from fragments to file: for any order, duplication and loss in every read and any retries, an unchanged file arrives whole |
| `FetchWhole.ServedArrives` | cmd/agentnet/fetch.go:183-211 | a file of at most 8 MiB whose reads are answered does arrive |
| `FetchWhole.ArrivesWholeIsExact` | cmd/agentnet/fetch.go:183-211 | over all runs of every read and all changes of the file, what is returned is one version if and only if the file fits in one fragment or is over the limit |
| `Listing.Search` | internal/capability/fs.go:322-326 | the binary search finds the first name not below the cursor |
| `Listing.List` | internal/capability/fs.go:302-349 | a page is every present entry after the cursor up to its last, within the limits, and stops early only when the next does not fit |
| `Listing.PageBounds` | internal/capability/fs.go:343-345 | names of a page ascend, lie after the cursor, and a page that is not the last moves the cursor forward |
| `Listing.FetchList` | cmd/agentnet/fetch.go:263-289 | over a changing directory names strictly ascend, each was shown by some page's directory, and a name shown throughout is listed exactly once; it fails only after 1000 pages or on a directory of over 100000 names |
| `RunQueue.StepWatchOk` | internal/daemon/device_run.go:213-252 | every step keeps: a sweep begun after a revocation will stop the command or find it not started |
| `RunQueue.RevocationBeatsEveryRace` | internal/daemon/device_run.go:369-445 | on every interleaving, once a command is revoked and a sweep has begun and finished since, it is signalled if it runs or is about to |
| `RunQueue.SweptNeverStarts` | internal/daemon/device_run.go:564-607 | and it does not start afterwards |
| `RunProgress.StoppedForCause` | internal/daemon/device_run.go:213-272 | on every run a command told to stop was found revoked, or could not be checked, since it was taken |
| `RunProgress.AllowedCommandStarts` | internal/daemon/device_run.go:564-607 | on every run a checked command with no such grounds does start, for the first time |
| `RunProgress.PermittedRuns` | internal/daemon/device_run.go:369-607 | from every idle state the first permitted job, taken, checked by the loop's own sweep and launched, starts as it was taken |
| `RunProgress.AllowedInOrder` | internal/daemon/device_run.go:402-419 | permitted jobs keep their order in the queue |
| `RunQueue.JobsRunAtMostOnce` | internal/daemon/device_run.go:482-534 | across any crashes and restarts a routed job starts at most once, and at most eight are queued |
| `RunLimits.SixtyADay` | internal/daemon/device_run.go:120-135 | at most 60 runs of a controller are accepted in any 24 hours |
| `RunLimits.AcceptsExactly` | internal/daemon/device_run.go:298-342 | on every run a request with room is accepted if and only if fewer than 60 of its controller were accepted in the last 24 hours |
| `RunStore.PruneRecent` | internal/daemon/device_run.go:120-135 | the nested loops keep exactly the recent times and drop controllers without any |
| `RunStore.Route` | internal/daemon/device_run.go:298-342 | a request is queued exactly when in scope and within both limits, and a refused one changes nothing |
| `RunStore.Sort` | internal/daemon/device_run.go:402-419 | the loop splits the queue into the first allowed job, the other allowed ones and the dropped ones, in order |
| `RunStore.Take` | internal/daemon/device_run.go:369-445 | take is the loop's step or a sweep's, depending on start |
| `RunStore.Runner.StopSession` | internal/daemon/device_run.go:246-252 | only the command of that session is stopped |
| `RunStore.Runner.StillRunning` | internal/daemon/device_run.go:259-271 | a session that stands for another command is stopped, and one that stands for the same command is not |
| `RunStore.Runner.Sweep` | internal/daemon/device_run.go:213-226 | a sweep applies the verdict on the running job, and a failed one stops what ran when it began |
| `RunStore.Runner.Recover` | internal/daemon/device_run.go:482-534 | after a restart nothing is queued or running; what ran is reported or cancelled, what was queued is cancelled |
| `RunStore.TrimFront` | internal/daemon/device_run.go:716-725 | the first quarter is dropped, up to the next rune and no further; valid text stays valid |
| `RunStore.TrimsAreFew` | internal/daemon/device_run.go:716-725 | an output of n bytes is trimmed at most 3 log2(n) + 1 times before nothing is left |
| `RunStore.Submit` | internal/daemon/device_run.go:628-639 | the retry loop ends with the output, or with the trim of a tail that was too large, that is itself not too large or empty, after a logarithmic number of tries |

## Left out

- Approval windows, notifications, the terminal reader and reopening: a user interface; only an answer arriving is modelled.
- ApprovalStore.Store.Reserve: does not model the check of the kind and of the summary's characters that Create makes first.
- Approval.RunIsSafe: starts with any list of at most ten wrong-code times and no approvals; later daemon runs are Restart steps. A stored list that cannot be decoded is read as full and is not modelled, nor is a commit that fails after taking effect.
- ApprovalHourly.HourHolds: rows carry no decision time; a decided row may be pruned once it was created over 30 days ago, which allows every pruning the store does.
- RunQueue.RevocationBeatsEveryRace: the stored queue row is readable, because an unreadable one is read as empty and a sweep then finds nothing to stop. A daemon that is stopping is a restart.
- RunLimits.SixtyADay: clock readings do not go back.
- FetchClient.Client.OnResp: takes fragments of reads; the responses to stat and list are not modelled.
- FetchServer.Server.Handle: takes the decoded type and id of a message; decoding its JSON is not part of this model.
- FetchBudgetExact.TwoOperationsCross: the machine of the byte budget does not count operations per second; the run given keeps to two a second for budgets up to 3598 reads.
- FetchAudit.Audit.Record: rows are emitted outside the mutex in any order; the model keeps one order, and the tallies do not depend on it.
- Listing.List: the reading and sorting of directory entries and the encoded size of an entry are parameters.
- Grants.SignedTokenVerifies: takes times that are whole seconds in UTC, which Sign makes them; which characters a display hides is a parameter.
- ChainLog.Log.Verify: takes ids above -2^63 and a database that answers.
- ChainVerdict.VerdictExact: takes anchors with positive ids, which ParseAnchor demands.
- Chain.RowBytesInjective: JSON and time checks of the stored texts are parameters.
- 64-bit overflow of counters and sizes.
- internal/capability/git.go: its paging and fragment loops repeat fs.go, and the rest runs git.
- Walking directories, symlink checks and access control lists: operating-system behaviour.
- internal/capability/store.go except its scope comparison: it inserts, activates, revokes and lists the rows of grants and policies, which is not part of this model.
- SQL text, IPC registration, the relay, the command line except its two fetch loops, and the debate and decision packages.
