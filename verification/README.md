# A verified model of the MySS API's protocols

The MySS API fronts Siebel (ICM) for income-assistance clients. This Dafny 4.11 project models the
parts of it whose correctness depends on the order in which concurrent requests take effect, and
the arithmetic that decides what input is accepted and what benefit is estimated. `dafny verify
dfyconfig.toml` checks everything.

How runs are modelled. Code that changes state is a class whose methods are the stretches between
two awaits (or one locked section, or one SQL statement). Such a class carries a ghost event log,
and `Valid()` says that its fields agree with what functions of the log alone say; the session
store, which several services share, carries a ghost plain map instead, and its legal runs are
those of any number of stores. A *legal* log is any interleaving of any number of callers; the
theorems are about all legal logs. A method that does in one piece what the code does across several
awaits is called uninterrupted below. Time is a real number that never decreases along a log.

What the log functions and other shared definitions mean is said once more without them, in terms of
events, fields and literal numbers (`StateIff`, `AdmitsIff`, `ServedIff`, `CachedIff`, `ReadIff`,
`LinkWorksIff`, `SubmittableIff`, `StoredIff`, `SinLaw`, `PhnLaw`, `EncodingLaw`, `EstimateLaw`).

| file | what it models |
|---|---|
| `CircuitBreaker.dfy` | the asynchronous circuit breaker, with calls admitted in one state and completing in another |
| `RetryLoop.dfy` | one call's bounded retry loop and the classification of replies |
| `LoadBound.dfy` | breaker and retry loop together: requests that reach a failing upstream |
| `TokenCache.dfy` | the OAuth token cache behind its lock |
| `Registration.dfy`, `PinStorage.dfy` | the registration wizard, its invites, and the stored PIN |
| `CheckDigits.dfy` | SIN (Luhn, Annex B of ISO/IEC 7812-1) and PHN (weighted sum modulo 11) |
| `RedisModel.dfy`, `ReadThroughCache.dfy`, `RateTables.dfy`, `MonthlyReports.dfy` | read-through caches and the submission gate they feed |
| `SessionStore.dfy`, `AdminSessions.dfy` | the Redis session store and the AO sessions in it |
| `Drafts.dfy` | service-request drafts and their submission |
| `Attachments.dfy`, `Base64.dfy` | virus-scan jobs and what is sent upstream (section 4 of RFC 4648) |
| `Eligibility.dfy` | the benefit estimate and the fallback tables |

Where the code and its documentation disagree, the model follows the code:

- `docs/reference/siebel-integration.md` allows "only one probe at a time". That holds within one
  HALF_OPEN episode (`HalfOpenEpisode`), not globally (`TwoProbesInFlight`); `EpisodeEnd` says
  exactly when a probe outlives its episode, and `TwoProbesIff` that only then two are in flight.
- `docs/ops/runbooks/troubleshooting.md` promises automatic recovery. It holds in every run without
  cancellation (`RecoversWithoutCancellation`). A cancelled probe can leave the breaker HALF_OPEN
  with nobody to end the episode; `RecoveryIff` gives the exact condition.
- The documentation speaks of retries on every 5xx response. `_call` retries one only if its body is
  not JSON, or a JSON object whose `errorCode` is missing or a scalar. Any other body raises an
  exception that is neither caught nor retried: `AttributeError` if it is not an object, `TypeError`
  if the code is an array or object (it cannot be looked up in the error map), `RecursionError` if it
  is nested too deeply (`ResponseRetriedIff`, `UnclassifiedErrors`).
- `docs/reference/siebel-integration.md` says that an error body without `errorCode` becomes an
  `HTTPStatusError`. That holds for a 5xx response; for a 4xx the code raises the base `ICMError`,
  with the code "".
- The 72-hour invite limit named in app/domains/registration/service.py is never applied. The limit
  enforced is the session's 168 hours (`VerifyIff`, `ConsumptionFollowsIssue`).
- A typed ICM error (a 4xx answer included) counts as a breaker failure, like any other exception.
- `fail_max` below 1 behaves like 1 (`Threshold`).

Other results where a tempting claim fails: a monthly report can be sent after the close date, because
the gate looks at the clock before the PIN checks are awaited (`SentInTimeIff`,
`SentInTimeForUpstreamIff`, `SentAfterClose`); a cached token can carry the expiry of another fetch
(`ForeignExpiryIff`); an invalidation with a fill in flight does not last (`InvalidationIff`); a form
saved while another request submits is lost, in either of two gaps (`NothingLostIff`, `LateSaveIsLost`,
`SaveAfterFinalizeIsLost`); a late purge can remove a session stored meanwhile (`LatePurgeLosesIff`,
`PurgesLiveIff`, `LatePurgeHappens`): a live support view, whose key is used again by the next view of
the same client, but never a live AO session (`PurgeFindsNoneAlive`);
overlapping AO submissions can lower the step (`LostUpdateIff`, `NoneLoweredIff`, `OverlapLowers`).

## Model

| member | source | states |
|---|---|---|
| `CircuitBreaker.AsyncCircuitBreaker.constructor` | app/services/icm/client.py:38-45 | a new breaker agrees with the empty log: CLOSED, no failures |
| `CircuitBreaker.AsyncCircuitBreaker.IsOpen` | app/services/icm/client.py:47-59 | open exactly when OPEN and the latest failure in the log is younger than the reset timeout; otherwise OPEN turns HALF_OPEN |
| `CircuitBreaker.AsyncCircuitBreaker.Enter` | app/services/icm/client.py:61-73 | admits exactly what the log specification admits; a rejected call changes no field; afterwards state, failure count, opened_at and probe flag are again the ones the log dictates |
| `CircuitBreaker.AsyncCircuitBreaker.OnFailure` | app/services/icm/client.py:77-89 | after any failure, stragglers included, the fields are again the ones the log dictates |
| `CircuitBreaker.AsyncCircuitBreaker.OnSuccess` | app/services/icm/client.py:90-96 | after any success, stragglers included, the fields are again the ones the log dictates |
| `CircuitBreaker.AsyncCircuitBreaker.OnCancel` | app/services/icm/client.py:75-77 | cancellation ends a call without changing any field |
| `CircuitBreaker.StateIff` | app/services/icm/client.py:47-96 | in events alone: CLOSED exactly while at most fail_max - 1 calls have failed since the newest success (none if fail_max is below 1); otherwise HALF_OPEN exactly when a call was admitted and none has completed since |
| `CircuitBreaker.AdmitsIff` | app/services/icm/client.py:55-73 | in events alone: a caller is let in exactly while fewer than fail_max calls have failed since the newest success, or when reset_timeout has passed since the newest failure and nobody was let in since the newest completion |
| `CircuitBreaker.InFlightIff` | app/services/icm/client.py:75-96 | a call is in flight exactly when no event since its admission has completed or cancelled it |
| `CircuitBreaker.AdmissionSpacing` | app/services/icm/client.py:55-88 | an admission made while not CLOSED comes at least reset_timeout after every earlier admission and failure since the last success, however stragglers move opened_at |
| `CircuitBreaker.WindowBound` | app/services/icm/client.py:55-88 | at most floor(W / reset_timeout) + 1 admissions while not CLOSED in a window of length W without a success |
| `CircuitBreaker.HalfOpenEpisode` | app/services/icm/client.py:67-88 | a HALF_OPEN episode begins with one admission from OPEN, admits no other call and sees no completion; its probe is in flight exactly when it was not cancelled |
| `CircuitBreaker.EpisodeEnd` | app/services/icm/client.py:75-96 | the first completion, by whichever call, ends the episode; the probe outlives it exactly when a straggler ended it |
| `CircuitBreaker.TwoProbesInFlight` | app/services/icm/client.py:67-84 | a run with two probes in flight, so one probe at a time is not a global property |
| `CircuitBreaker.TwoProbesIff` | app/services/icm/client.py:67-96 | two probes are in flight together exactly when a straggler ended the earlier one's episode before the later one's began, and neither has ended since |
| `CircuitBreaker.WedgedForever` | app/services/icm/client.py:67-73 | HALF_OPEN with no call in flight rejects every later call, in every continuation |
| `CircuitBreaker.RecoveryIff` | app/services/icm/client.py:47-96 | from any reachable state a further admission is reachable exactly when the breaker is not HALF_OPEN with nothing in flight |
| `CircuitBreaker.RecoversWithoutCancellation` | app/services/icm/client.py:47-96 | in every run without cancellation a further admission is reachable |
| `CircuitBreaker.CompletionLetsIn` | app/services/icm/client.py:47-96 | after any completion in HALF_OPEN, whichever call and outcome, the next caller is admitted at once if it succeeded, else exactly from reset_timeout on |
| `CircuitBreaker.CancelledProbeWedges` | app/services/icm/client.py:69-77 | a run in which a cancelled probe wedges the breaker |
| `RetryLoop.Call` | app/services/icm/client.py:186-220 | makes one to three attempts; returns or raises the outcome of the first non-retryable attempt, else of the third; every earlier attempt was retryable. Which outcome, in terms of the last reply: the parsed body of a 2xx for the JSON loop, the content for the raw loop, the status error, typed error or own exception otherwise |
| `RetryLoop.TranscriptPlays` | app/services/icm/client.py:186-191 | the loop goes on after each proper prefix of its transcript and not after the whole |
| `RetryLoop.TranscriptUnique` | app/services/icm/client.py:186-224 | against one upstream there is one transcript, so the contract of Call fixes its result |
| `RetryLoop.ResponseRetriedIff` | app/services/icm/client.py:206-218 | which responses are retried, become typed ICM errors, or return, for every status and body and for both loops; a 5xx response is retried by `_call` exactly when its body is not JSON or an object with a scalar error code |
| `RetryLoop.ServerErrorsGetThreeAttemptsIff` | app/services/icm/client.py:186-218 | an upstream that always answers with some 5xx gets three attempts exactly when its first two bodies can be classified |
| `RetryLoop.UnclassifiedErrors` | app/services/icm/error_mapping.py:23-28 | the three failing inputs: each as a 503 ends the loop at once, each as a 400 is no typed ICM error |
| `RetryLoop.FailureRetriedIff` | app/services/icm/client.py:18-24 | which failures without a response are retried (connections that could not be made and timeouts, not connections lost half-way), a failed token fetch included |
| `LoadBound.ResilientClient.Enter` | app/services/icm/client.py:222-227 | a call enters through the breaker; the client log stays legal |
| `LoadBound.ResilientClient.Attempt` | app/services/icm/client.py:186-220 | one attempt of a call in flight; its loop goes on exactly as the retry loop would |
| `LoadBound.ResilientClient.Finish` | app/services/icm/client.py:75-97 | a call whose loop has run its course reports success or failure to the breaker |
| `LoadBound.RequestsPerAdmission` | app/services/icm/client.py:186-224 | in every interleaving at most three requests reach the target per admitted call |
| `LoadBound.AdmissionBound` | app/services/icm/client.py:61-96 | with at most C callers and no success, the calls admitted are at most fail_max - 1 (0 if fail_max is below 1) + C + floor(D / reset_timeout) + the calls cancelled |
| `LoadBound.RequestBound` | app/services/icm/client.py:61-224 | hence at most three times as many attempts reach the target, D being the time since the breaker opened |
| `TokenCache.TokenHolder.Acquire` | app/services/icm/client.py:171-175 | serves the cached token exactly while one is held and its expiry lies ahead, else starts a fetch under the lock |
| `TokenCache.TokenHolder.FetchEnds` | app/services/icm/client.py:166-180 | how a fetch ends and what it leaves behind, half-way failures and null tokens included |
| `TokenCache.ServedIff` | app/services/icm/client.py:167-180 | in events alone: a caller is served the newest token from the cache exactly while it is not null and less than E - 60 seconds have passed since the newest lifetime E came, a missing E being 3600 |
| `TokenCache.OneFetchInFlight` | app/services/icm/client.py:173-175 | between the starts of two fetches the first one has ended; this gives back the mutual exclusion of the token lock, which is assumed |
| `TokenCache.CachedTokenLives` | app/services/icm/client.py:168-180 | a token served from the cache under its own expiry has more than 60 seconds, less its fetch's round trip, of true life left if the server named its lifetime (section 5.1 of RFC 6749); if not, less also what the default of 3600 seconds overestimates |
| `TokenCache.ForeignExpiryIff` | app/services/icm/client.py:167-177 | the cache serves a token under another fetch's expiry exactly when that fetch brought a null token |
| `TokenCache.ForeignExpiryHappens` | app/services/icm/client.py:167-169 | a run in which it does |
| `TokenCache.RefetchSpacing` | app/services/icm/client.py:168-175 | after a token with lifetime E arrives, no fetch starts for E - 60 seconds |
| `Registration.RegistrationService.StartRegistration` | app/domains/registration/service.py:60-81 | a new row at step 1, all else empty, that lives 168 hours |
| `Registration.RegistrationService.RequireSession` | app/domains/registration/service.py:83-112 | a snapshot of an existing unexpired session, or none |
| `Registration.RegistrationService.SavePersonalInfo` | app/routers/registration.py:112-138 | commits the save for a snapshot at step 1 or later, on whatever row is there by then, and raises its step to at least 2; never meets a missing row |
| `Registration.RegistrationService.IssueInviteToken` | app/domains/registration/service.py:147-162 | the background invite replaces the row's invite, marks it unused, raises the step to at least 3, and never meets a missing row |
| `Registration.RegistrationService.VerifyEmail` | app/domains/registration/service.py:164-184 | one atomic consumption of a current unused invite of an unexpired row, which raises the step to at least 4, or 410 when there is none |
| `Registration.RegistrationService.SavePin` | app/routers/registration.py:145-155 | refuses a snapshot below step 4, else stores key and salt in hex and raises the step to at least 5; never meets a missing row |
| `Registration.Convention` | app/domains/registration/service.py:60-71 | step_reached is at least N exactly when steps 1..N have each been done for this session, and what each step must have stored is stored |
| `Registration.DoneIff` | app/domains/registration/service.py:60-199 | what the five steps are: started, information saved, invite issued, an invite of this very session consumed, PIN saved |
| `Registration.StepNeverDecreases` | app/domains/registration/service.py:128-199 | step_reached never decreases, rows never vanish, expiries never move |
| `Registration.LatestSaveKept` | app/domains/registration/service.py:128-145 | the row holds exactly the newest saved personal data |
| `Registration.LatestSaveIs` | app/domains/registration/service.py:128-145 | that is the newest save event of the session |
| `Registration.VerifyIff` | app/domains/registration/service.py:164-184 | a link works exactly when its invite is the latest of an unexpired session and unconsumed; it then yields that session |
| `Registration.LinkWorksIff` | app/domains/registration/service.py:164-184 | in events alone: the invite is the newest one issued to the session, no link with it has worked, and the session was started less than 168 hours ago |
| `Registration.ConsumedOnce` | app/domains/registration/service.py:164-184 | an invite is consumed at most once in any run |
| `Registration.ConsumptionFollowsIssue` | app/domains/registration/service.py:147-184 | a consumption follows the issue of that invite to that session with no re-issue between, before the session's 168 hours end |
| `Registration.StoredPinVerifies` | app/domains/registration/service.py:186-199 | a session at step 5 holds, in hex, a salt and the key that the PIN saved last derives with it, and verifies exactly the PINs that derive the same key |
| `Registration.LatestPinIs` | app/domains/registration/service.py:186-199 | the PIN saved last is that of the newest save-PIN event of the session |
| `PinStorage.HexRoundTrip` | app/domains/registration/service.py:52-56 | decoding an encoded byte string gives it back |
| `PinStorage.HexAt` | app/domains/registration/service.py:52 | two lower-case hex digits for each byte, the higher half first |
| `PinStorage.FromHexPairs` | app/domains/registration/service.py:56 | digits of either case decode, with white space between pairs; nothing else does |
| `PinStorage.VerifyIff` | app/domains/registration/service.py:45-58 | for any key-derivation function and salt, a PIN verifies exactly when it derives the stored PIN's key |
| `PinStorage.VerifyErrors` | app/domains/registration/service.py:54-58 | a stored salt that is not hex, or a stored hash that is not ASCII, is an error |
| `CheckDigits.ValidateSin` | app/domains/registration/validators.py:19-39 | accepts exactly nine digits, not all zero, whose Luhn sum is 0 modulo 10, and returns them |
| `CheckDigits.SeparatorsIgnored` | app/domains/registration/validators.py:21 | non-digits anywhere in the raw string play no part |
| `CheckDigits.DigitsOfDigits` | app/domains/registration/validators.py:21-39 | a validated number has itself as its digits, so validating it again changes nothing |
| `CheckDigits.SinLaw` | app/domains/registration/validators.py:24-37 | what is valid, with the arithmetic written out: d0 + d2 + d4 + d6 + d8 plus the doubled d1, d3, d5, d7 with nines cast out is a multiple of 10, and not all digits are 0 |
| `CheckDigits.SinCheckDigit` | app/domains/registration/validators.py:27-37 | every eight digits but eight zeros have exactly one check digit, the tens complement of their sum |
| `CheckDigits.DigitAlphabet` | app/domains/registration/validators.py:21-30 | the digits are 0 to 9 and stand for their own values |
| `CheckDigits.ValidSinsDifferTwice` | app/domains/registration/validators.py:27-37 | two valid SINs differ in at least two digits |
| `CheckDigits.SinSwapUndetectedIff` | app/domains/registration/validators.py:27-37 | an adjacent swap goes unnoticed exactly for the pair 0 and 9 |
| `CheckDigits.ValidatePhn` | app/domains/registration/validators.py:45-67 | a PHN of white space alone (ASCII 9 to 13, 28 to 31, 32) is allowed; otherwise accepted exactly when ten digits weighted 2,4,8,5,10,9,7,3,1,1 sum to 0 modulo 11 |
| `CheckDigits.PhnLaw` | app/domains/registration/validators.py:58-65 | what is valid, with the weights written out |
| `CheckDigits.PhnDetectsOneDigit` | app/domains/registration/validators.py:58-65 | every single wrong digit is rejected |
| `CheckDigits.PhnSwapUndetectedIff` | app/domains/registration/validators.py:58-65 | every swap of two different digits is rejected except in the last two positions |
| `CheckDigits.PhnCheckDigitUnique` | app/domains/registration/validators.py:59-65 | a nine-digit prefix has at most one check digit |
| `CheckDigits.PhnCheckDigitExistsIff` | app/domains/registration/validators.py:59-65 | and has one unless its weighted sum is 1 modulo 11 |
| `CheckDigits.PhnCheckDigit` | app/domains/registration/validators.py:59-65 | namely the complement of that sum to a multiple of 11 |
| `ReadThroughCache.CachedSource.Lookup` | app/domains/eligibility/rate_table_service.py:21-25 | hits exactly while the newest uninvalidated fill is younger than the TTL |
| `ReadThroughCache.CachedSource.Query` | app/domains/eligibility/rate_table_service.py:27-46 | reads the source's current value |
| `ReadThroughCache.CachedSource.Fill` | app/domains/eligibility/rate_table_service.py:47-52 | stores what the reader read, whatever happened since |
| `ReadThroughCache.CachedSource.Invalidate` | app/domains/eligibility/rate_table_service.py:80-82 | drops the entries of the given keys |
| `ReadThroughCache.SourceIff` | app/domains/eligibility/rate_table_service.py:27-46 | in events alone: the source holds what the newest change put there |
| `ReadThroughCache.CachedIff` | app/domains/eligibility/rate_table_service.py:21-52 | in events alone: the cache serves a value exactly while the fill that stored it is younger than the TTL and no other fill and no invalidation has followed |
| `ReadThroughCache.FillInFlightIff` | app/domains/eligibility/rate_table_service.py:27-52 | a fill is in flight exactly when the reader's newest step is a query of the key |
| `ReadThroughCache.Staleness` | app/domains/eligibility/rate_table_service.py:21-52 | every value returned was the source's own at its query, less than the TTL plus the fill delay ago |
| `ReadThroughCache.InvalidationIff` | app/domains/eligibility/rate_table_service.py:80-82 | after an invalidation every later read is from at or after it, in all continuations, exactly when no fill was in flight |
| `ReadThroughCache.StaleHitIff` | app/domains/eligibility/rate_table_service.py:21-52 | a later hit on what was read before an invalidation is possible exactly when a fill was in flight |
| `ReadThroughCache.StaleHitWindow` | app/domains/eligibility/rate_table_service.py:47-52 | such a hit comes less than the TTL after the late fill by a reader that was in flight |
| `RateTables.RateTableService.InvalidateCache` | app/domains/eligibility/rate_table_service.py:80-82 | deletes the entries of both tables |
| `RateTables.ServedRowsAge` | app/domains/eligibility/rate_table_service.py:54-78 | a rate change that is not yet visible is younger than a day plus the fill delay |
| `RateTables.InvalidateRefreshesBoth` | app/domains/eligibility/rate_table_service.py:80-82 | the same freshness for each of the two tables after invalidate_cache, if no fill of that table was in flight |
| `MonthlyReports.MonthlyReportService.LookUp` | app/domains/monthly_reports/service.py:33-39 | the cached window, exactly while its fill is younger than an hour |
| `MonthlyReports.MonthlyReportService.AskUpstream` | app/domains/monthly_reports/service.py:41-42 | the window that the upstream holds |
| `MonthlyReports.MonthlyReportService.StoreWindow` | app/domains/monthly_reports/service.py:44-48 | stores what was read, whatever happened since |
| `MonthlyReports.MonthlyReportService.PassGate` | app/domains/monthly_reports/service.py:78-86 | opens exactly up to the close date that the upstream gave when the window was read |
| `MonthlyReports.MonthlyReportService.CheckAndSend` | app/domains/monthly_reports/service.py:88-97 | each refusal of the PIN checks exactly, the spouse's included; otherwise the hand-over, at a moment after the gate's, of a report all of whose PINs were accepted |
| `MonthlyReports.MonthlyReportService.SubmitReport` | app/domains/monthly_reports/service.py:78-97 | uninterrupted: which gate refuses first, the spouse PIN's included; the first looks at the clock against the close date that the upstream gave, and the hand-over comes after the PIN checks, at a moment of its own |
| `MonthlyReports.SentInTimeIff` | app/domains/monthly_reports/service.py:78-97 | in every interleaving a report is sent by the close date of its window exactly when the PIN checks take no longer than the gate found left, and is late by no more than they take; the upstream gave that date less than an hour, plus the delays on the way, before |
| `MonthlyReports.SentInTimeForUpstreamIff` | app/domains/monthly_reports/service.py:33-97 | by the date that the upstream holds when the report is sent: exactly when its newest change since the window was read allows it or, without a change, the checks took no longer than was left |
| `MonthlyReports.SentAfterClose` | app/domains/monthly_reports/service.py:83-97 | a run in which a report is sent after the close date |
| `SessionStore.RedisSessionStore.Set` | app/dependencies/session_store.py:26-27 | sets the plain map's entry; Redis keeps refining the plain map |
| `SessionStore.RedisSessionStore.Read` | app/dependencies/session_store.py:29-32 | the read of `get`: what Redis shows is what the plain map holds, before expires_at is checked |
| `SessionStore.RedisSessionStore.Purge` | app/dependencies/session_store.py:41-43 | the purge of `get`, whenever it comes: takes from the plain map exactly a session that is live by then |
| `SessionStore.RedisSessionStore.Get` | app/dependencies/session_store.py:29-44 | uninterrupted: returns the plain map's session exactly when neither TTL nor expires_at has passed; the purge leaves the plain map as it was |
| `SessionStore.RedisSessionStore.Delete` | app/dependencies/session_store.py:46-47 | removes one key of the plain map |
| `SessionStore.RedisSessionStore.ScanKeys` | app/dependencies/session_store.py:50-52 | collects exactly the keys under the prefix |
| `SessionStore.RedisSessionStore.DropKeys` | app/dependencies/session_store.py:53-54 | the delete of `clear`, whenever it comes: removes exactly the keys collected |
| `SessionStore.RedisSessionStore.Clear` | app/dependencies/session_store.py:49-54 | uninterrupted: empties the plain map and leaves other prefixes alone |
| `SessionStore.ExecRefines` | app/dependencies/session_store.py:26-54 | one operation on Redis matches the same operation on the plain map, a purge if no live session is there; a read answers what the plain map says |
| `SessionStore.PurgeRefinesIff` | app/dependencies/session_store.py:41-43 | a purge goes unnoticed exactly when no live session is under its key by then |
| `SessionStore.StoresDoNotInterfere` | app/dependencies/session_store.py:23-54 | a store under an incomparable prefix keeps its refinement |
| `SessionStore.SharedRefinesAlone` | app/dependencies/session_store.py:12-54 | in every timed run of any number of stores in one Redis, with reads and purges interleaved, a store none of whose purges meets a live session refines the plain map it would have alone |
| `SessionStore.LatePurgeLosesIff` | app/dependencies/session_store.py:29-54 | and it does so all along the run exactly when none of its purges meets a live session |
| `SessionStore.PurgesLiveIff` | app/dependencies/session_store.py:29-43 | a purge meets a live session exactly when one was set after the read that found an expired session, and is neither removed nor dead by then |
| `SessionStore.FixedExpiryNeverLoses` | app/dependencies/session_store.py:34-43 | no purge meets a live session where all sessions set under a key expire at the same moment |
| `SessionStore.LatePurgeHappens` | app/routers/admin/support_view.py:102-116 | a run of the support-view store in which a purge removes a live session |
| `SessionStore.ReadsAnswerAlone` | app/dependencies/session_store.py:29-44 | then a read returns the last session set under its key exactly when it was not deleted or cleared and neither TTL nor expires_at has passed |
| `SessionStore.ReadIff` | app/dependencies/session_store.py:26-54 | in the operations alone: a read returns a session exactly when the newest set of the key stored it less than the TTL ago, nothing has removed it since, and its expires_at lies not behind |
| `SessionStore.SurvivesClearIff` | app/dependencies/session_store.py:49-54 | what a clear leaves alive is exactly what was set between its scan and its delete, under a key that the scan did not find |
| `SessionStore.StoresInUseAreIncomparable` | app/dependencies/require_ao_session.py:12 | the prefixes in use are incomparable |
| `AdminSessions.AdvanceStep` | app/services/ao_registration_service.py:70-74 | only the step changes, never downwards, and ends above the submitted step |
| `AdminSessions.AoHandlers.AoLogin` | app/routers/admin/ao.py:65-91 | stores a session at step 1 with 30 days to live; Redis goes on refining what the log says |
| `AdminSessions.AoHandlers.ReadSession` | app/dependencies/require_ao_session.py:54-72 | the read of a submission: a snapshot of the live session, in any interleaving |
| `AdminSessions.AoHandlers.PurgeSession` | app/dependencies/session_store.py:41-43 | the purge of an expired AO session, however late, changes no session that the log says is stored |
| `AdminSessions.AoHandlers.WriteStep` | app/routers/admin/ao.py:135-139 | 403 for another worker; otherwise writes back the advanced snapshot, whatever is stored by then |
| `AdminSessions.AoHandlers.SubmitRegistrationStep` | app/routers/admin/ao.py:125-139 | uninterrupted: the read-modify-write of one request, 401 and 403 included |
| `AdminSessions.StoredIff` | app/routers/admin/ao.py:65-139 | in events alone: what is stored under a token is what its login (step 1, 30 days) or the newest write put there, for 2592000 seconds |
| `AdminSessions.SessionIdentity` | app/services/ao_registration_service.py:48-59 | in every interleaving a stored session keeps its token, its worker and its first expiry |
| `AdminSessions.WriteIdentity` | app/routers/admin/ao.py:135-138 | so does every session written back, however old its snapshot; it goes under the token that its request named |
| `AdminSessions.PurgeFindsNoneAlive` | app/services/ao_registration_service.py:48-59 | in every interleaving, what the purge of an expired AO session meets is dead |
| `AdminSessions.NeverReadablePastExpiry` | app/services/ao_registration_service.py:48-59 | no interleaving of requests keeps a session readable past its login's 30 days |
| `AdminSessions.StepNeverDecreases` | app/routers/admin/ao.py:135-139 | where no submission overlaps a write to the same session, its step never decreases |
| `AdminSessions.OnlyOwnSubmissionsCount` | app/routers/admin/ao.py:47-55 | in every interleaving a session changes only by a write of its own worker's request that named its token and read it alive; the step is then the larger of the step read and the submitted one plus 1 |
| `AdminSessions.LostUpdateIff` | app/routers/admin/ao.py:135-138 | in every interleaving a write lowers the step exactly when the stored one exceeds both what its request read and its submission plus 1; that is, exactly when the newest write in between went further |
| `AdminSessions.NoneLoweredIff` | app/routers/admin/ao.py:135-138 | no write in a run lowers a step exactly when none ends below a write that it overlaps |
| `AdminSessions.OverlapLowers` | app/routers/admin/ao.py:135-138 | a run of two overlapping submissions that takes a session from step 4 back to 2 |
| `Drafts.SRDraftRepository.Create` | app/domains/service_requests/draft_repository.py:17-24 | inserts, or fails on an existing SR and changes nothing |
| `Drafts.SRDraftRepository.Get` | app/domains/service_requests/draft_repository.py:26-36 | the row in the caller's scope |
| `Drafts.SRDraftRepository.UpdateForm` | app/domains/service_requests/draft_repository.py:38-67 | replaces the form of the row in scope and nothing else |
| `Drafts.SRDraftRepository.Delete` | app/domains/service_requests/draft_repository.py:69-78 | removes the row in scope and nothing else |
| `Drafts.ServiceRequestService.CreateSr` | app/domains/service_requests/service.py:45-61 | a draft row for a new SR |
| `Drafts.ServiceRequestService.SaveFormDraft` | app/domains/service_requests/service.py:89-112 | saves for the owner only |
| `Drafts.ServiceRequestService.LoadDraft` | app/domains/service_requests/service.py:130-133 | the read of a submission: the user's own row, in any interleaving |
| `Drafts.ServiceRequestService.FinalizeSr` | app/domains/service_requests/service.py:135-142 | sends the answers loaded, whatever was saved since; a failure changes nothing |
| `Drafts.ServiceRequestService.DeleteDraft` | app/domains/service_requests/service.py:144-146 | removes the user's row, whatever it holds by then |
| `Drafts.ServiceRequestService.SubmitSr` | app/domains/service_requests/service.py:114-152 | uninterrupted: succeeds exactly when every check does, sends the owner's last saved answers, removes only that row, and leaves the table alone on any failure |
| `Drafts.FormIsLastSaved` | app/domains/service_requests/draft_repository.py:38-67 | a row holds exactly the form saved last |
| `Drafts.DisappearsAfterFinalize` | app/domains/service_requests/service.py:140-146 | in every interleaving a row disappears only by its owner, after that owner's finalize of that SR |
| `Drafts.GoneWasFinalized` | app/domains/service_requests/service.py:140-146 | in every run, a row that once stood and is gone, or another's, was finalized and then deleted by the user who owned it |
| `Drafts.OtherUsersUntouched` | app/domains/service_requests/draft_repository.py:26-78 | no step of one user touches another's row |
| `Drafts.FinalizeCurrentIff` | app/domains/service_requests/service.py:130-142 | the finalize carries the answers saved last exactly when the newest save or creation since the load, if any, left the answers loaded |
| `Drafts.NothingLostIff` | app/domains/service_requests/service.py:130-146 | a submission that removes a row has sent the very answers it destroys exactly when the newest save or creation between its load and its delete, if any, left the answers loaded |
| `Drafts.LastSaveInGapIsLost` | app/domains/service_requests/service.py:130-146 | for the last save before the delete: sent if it precedes the load; otherwise sent exactly when it repeats the answers loaded |
| `Drafts.LateSaveIsLost` | app/domains/service_requests/service.py:130-146 | a run in which a save between load and finalize is lost |
| `Drafts.SaveAfterFinalizeIsLost` | app/domains/service_requests/service.py:141-146 | a run in which the finalize is current and a save between finalize and delete is lost |
| `Base64.RoundTrip` | app/domains/attachments/service.py:55 | decoding an encoded byte string gives it back |
| `Base64.EncodingLaw` | app/domains/attachments/service.py:55 | what the encoding is: three bytes as one number of 24 bits, its four digits to the base 64 in the alphabet of section 4 of RFC 4648, padding for what is missing |
| `Base64.SymbolIs` | app/domains/attachments/service.py:55 | that alphabet in order |
| `Attachments.AttachmentService.UploadFile` | app/domains/attachments/service.py:20-32 | a pending job with the uploader and the bytes |
| `Attachments.AttachmentService.ProcessScanResult` | app/domains/attachments/service.py:40-45 | records the verdict of an existing job |
| `Attachments.AttachmentService.SubmitAttachment` | app/domains/attachments/service.py:47-64 | sends exactly for the uploader's own CLEAN job; which refusal otherwise |
| `Attachments.SubmittableIff` | app/domains/attachments/service.py:47-54 | in events alone: a job can be submitted by exactly the user who uploaded it, once its newest verdict is CLEAN |
| `Attachments.SentIsCleanUpload` | app/domains/attachments/service.py:20-64 | what is handed to the upstream client decodes to the bytes its sender uploaded under that id, and the newest verdict at that moment was CLEAN |
| `Eligibility.HouseholdDecides` | app/domains/eligibility/calculator.py:33-68 | client type and asset category from household kind and number of designations |
| `Eligibility.RejectedIff` | app/domains/eligibility/models.py:14-32 | exactly which requests are turned away |
| `Eligibility.EstimateLaw` | app/domains/eligibility/calculator.py:33-113 | the whole estimate in the request's own fields, for any tables: the row of at most seven members, the column, the asset gate over the three assets, the amount as the limit less both incomes |
| `Eligibility.EachIncomeCounts` | app/domains/eligibility/models.py:43-44 | raising either income alone by x lowers an amount above x by exactly x, and any other to 0 |
| `Eligibility.EachAssetCounts` | app/domains/eligibility/models.py:39-40 | raising any one asset changes nothing up to the limit, and beyond it the estimate is refused |
| `Eligibility.LookupNeverMisses` | app/domains/eligibility/calculator.py:73-113 | with complete tables every valid request gets an estimate; amount, eligibility and reason agree |
| `Eligibility.IncomeLipschitz` | app/domains/eligibility/calculator.py:98-113 | non-increasing and 1-Lipschitz in income |
| `Eligibility.OrderedIsFair` | app/domains/eligibility/calculator.py:33-113 | with ordered tables no number of further dependants, no PWD designation, no lower income and no lower assets ever lowers the amount |
| `Eligibility.FairIffOrdered` | app/domains/eligibility/calculator.py:33-113 | for tables without empty entries the order conditions hold exactly when that is so |
| `Eligibility.FallbackIsOrdered` | app/routers/eligibility.py:21-41 | the fallback tables are complete and ordered, so the estimate with them is fair in that sense |
| `Eligibility.FallbackWorth` | app/routers/eligibility.py:21-41 | what the fallback tables are worth: a first designation adds 475.50 for every household, a second 527.00, each member from the fourth to the seventh 50.00; and the four asset limits |

## Left out

- HTTP transport, FastAPI wiring, authentication, rate limiting, audit: replaced by arbitrary outcomes.
- Tenacity and asyncio locks: taken as documented (three attempts, re-raise the last; mutual exclusion). Waits between attempts are not modelled.
- SQL and Redis engines: a table is a map with atomic statements, Redis a map with expiry times; the SELECT of the newest effective date is one atomic read of the source's current value.
- JSON codecs, time zones and Decimal rounding: values are stored losslessly, times are instants, amounts are reals.
- Randomness: session tokens, invites, scan ids and AO tokens never repeat; the salt is arbitrary.
- PBKDF2 (section 5.2 of RFC 8018): any function of PIN and salt; its strength is not a subject here.
- Unicode digits and white space in the validators' input: only the ASCII ones are recognised.
- Name, PIN-format and age checks, the SR type registry, form schemas and list endpoints: one-branch checks and constants.
- `advance_step` and `complete_registration` of the registration service, and the columns only they write: no route reaches them.
- The monotonic clock of the token cache is assumed non-negative; with a negative reading the initial expiry 0.0 would lie ahead.
- ReadThroughCache.CachedSource.Query: a source that answers with an error is a missing value, and such a reader simply stops.
- SessionStore.RedisSessionStore.Get: uninterrupted; interleavings of its read and its purge are covered by the lemmas on legal runs.
- SessionStore.RedisSessionStore.Clear: uninterrupted; what comes between its scan and its delete is covered by SurvivesClearIff. The scan itself is one step.
- Attachments.SentIsCleanUpload: about the hand-over to the client, whose retries may repeat the request after a new verdict.
- MonthlyReports.MonthlyReportService.CheckAndSend: a PIN service that raises ends a submission with nothing sent; the client's own retries of the report come after the hand-over.
- SessionStore.ReadsAnswerAlone: for stores none of whose purges meets a live session, because one that does removes it (PurgesLiveIff says when).
- AdminSessions.StepNeverDecreases: for submissions that do not overlap, because overlapping ones can lower the step (LostUpdateIff).
- AdminSessions.AoHandlers.SubmitRegistrationStep: one uninterrupted submission; interleavings are covered by the lemmas on legal logs.
- The GET handler and the form submission of AO sessions: they read a session and write nothing back.
- Drafts.ServiceRequestService.SubmitSr: one uninterrupted submission; interleavings are covered by the lemmas on legal logs.
- Parsing of Siebel's answer to a monthly report, withdrawals, downloads, payments, notifications, employment plans, support-view searches: pass-through calls.
