# A verified model of TempInbox

TempInbox is a disposable-mail service: an SMTP receiver that stores mail in PostgreSQL, and an
HTTP API in front of it with API keys, a Redis rate limiter, a sender blacklist with a Redis cache,
and an administrator login with a lockout. This project models the parts of it that keep shared
state and states, as Dafny lemmas and contracts, what they guarantee over whole runs.

`dafny verify dfyconfig.toml` checks everything.

## How the model is laid out

| file | what it covers |
|---|---|
| `SlidingWindow.dfy` | one call of the rate limiter and runs of calls: refinement of a limiter that forgets nothing, key expiry, retry time |
| `RateLimitProtocol.dfy` | the rate limiter with requests in flight: pipelines, removals and reads interleave in any way |
| `AdminLockout.dfy` | the login counter with attempts in flight: increments, time-to-live commands and resets interleave in any way |
| `RateLimiter.dfy` | the imperative operations on Redis: the check, the middleware, the login counter, the master-key check |
| `BlacklistRows.dfy` | blacklist rows, partial updates, matching |
| `Blacklist.dfy` | the blacklist service, one operation at a time, with bulk import |
| `BlacklistProtocol.dfy` | checks and administrators at work at the same time, with the cache |
| `ApiKeys.dfy` | the key service one operation at a time, and validations and administrators at the same time (`KeyProtocol`) |
| `LikeSearch.dfy` | the LIKE operator, the escaping of search terms, and what the queries select |
| `MailParser.dfy`, `SmtpServer.dfy`, `Text.dfy` | header grouping, the bounded MIME walk, recipients, all-or-nothing storage, domain agreement |
| `Cleanup.dfy` | the batched delete loop |
| `Wrappers.dfy`, `Sets.dfy` | optional values, outcomes, partial updates; sizes of finite sets |

Code that changes state is a class or a method proved against a specification function; the
properties over runs are lemmas about these functions. Where several requests are in flight, a
protocol is a set of atomic steps (`Enabled`, `Apply`); a run is a legal sequence of steps, and
a theorem holds for every legal sequence. `StepsOfOneCall`, `AttemptIsProtocolSteps`, `LoginIsProtocolSteps`,
`CheckThatHits`, `CheckThatMisses` and `ValidationIsProtocolSteps` tie the steps to the operations run
to completion.

## Assumptions

- Each Redis command, the pipeline of the rate limiter, each database commit and each
  `UPDATE ... + 1` is one atomic step. A Redis key with a time to live is there strictly before its
  deadline and gone from then on. The server's clock does not go back.
- Clock readings under one rate-limit identifier are not negative and distinct: the timestamp is both
  member and score of the sorted set (app/services/rate_limiter.py:24), so equal readings share one
  entry. `RejectionRestoresEntries`, `AllowedCallTakesASlot` and `EqualReadingsAllPass` say exactly
  what equal readings do.
- Clock readings may be ahead of the server's clock or behind it by any amount. Where expiry has to
  be invisible, the delay between clock reading and pipeline may not grow by more than a second from
  a call to a later one; `ExpiryIsVisibleBeyondASecond` and `DriftAdmitsMore` show that any greater
  growth matters.
- Times are real numbers; rounding of floating-point time is not modelled.
- Row identifiers are fresh; a counter stands for random UUIDs.
- Where the SMTP library starts a new envelope (a reset by the client, a new sender, the end of DATA),
  a session has a `Reset` command; theorems hold wherever these come.
- Lower-casing covers the ASCII letters. Case folding in ILIKE is any per-character mapping that
  keeps `\`, `%` and `_` and maps nothing else onto them.
- Key hashing, fnmatch, HTML cleaning and the decoding of MIME content are parameters. A cached list
  comes back from JSON as it went in.

## Where the code differs from what it says of itself

- The docstring at app/services/rate_limiter.py:50 calls the login check atomic; increment and
  time to live are two commands (lines 55-57). The lockout ends exactly when a deadline set by the second has come
  (`LockoutEndsExactly`); if that command is never run, no number of attempts and no time ends it
  (`StuckWithoutExpire`, and `LockoutNeedNotEnd` for a run in which it happens).
- The comment at app/services/blacklist.py:150 calls the block count asynchronous; it is awaited and
  committed before the answer. The model follows the code.
- Line 14 of TempInbox's own README promises per-key overrides. An override that is changed or
  taken back goes on being enforced for up to the 60 seconds of its cache entry
  (`WithdrawnLimitIsEnforced`), and one that is in force is not enforced before a validation has
  cached it or once the entry has expired (`OverrideNeedsValidation`). `EnforcedLimitIsCurrent` says
  when the two agree.
- Cache deletion after a commit does not by itself keep the blacklist cache right: a list selected
  before the commit can be stored after the deletion. `StaleFillSurvives` is such a run;
  `Coherence` and `BoundedStaleness` say what holds in all runs, `CoherenceExactly` and
  `QuietCoherenceExactly` when exactly the list is right.
- Waiting out Retry-After is enough exactly when the entries then left in the window are fewer than
  the limit then in force: `RetryAdviceHoldsExactly`. It is not after the limit has been lowered
  (`LoweredLimitBreaksRetryAdvice`), and never under an override of zero (`NoRetryWithoutLimit`),
  which app/schemas/keys.py:52 allows; under a limit that stays as it is, it is enough exactly when
  the limit is positive (`ConstantLimitAdvice`).
- A rejected request occupies a slot until its own removal has run: `PendingUndoTurnsOthersAway`.
  `DecisionsMatchLogExactly` says when that changes a decision.
- The window bound is that of the window less the clock skew, and needs the time between clock
  reading and pipeline not to grow by more than a second and the skew, as the key may have expired.
  Neither can be relaxed: `SkewAdmitsMore`, `DriftAdmitsMore`.

## Model

| member | source | states |
|---|---|---|
| SlidingWindow.DeployedLimiterRefinesLog | app/services/rate_limiter.py:19-40 | over any run of calls with increasing clock readings, delays that do not grow by more than a second and any limits, the limiter with pruning and expiry gives every answer (allowed, remaining, retry) that a limiter remembering every allowed request would give |
| SlidingWindow.PrunedRefinesLog | app/services/rate_limiter.py:22-40 | the same for pruning alone, from any set that abridges the log |
| SlidingWindow.CheckAgreesWithLog | app/services/rate_limiter.py:22-40 | one call on a pruned set and on the full log: same answer, and the pruned set still abridges the log |
| SlidingWindow.ExpiryIsInvisible | app/services/rate_limiter.py:19-27 | dropping the key when window + 1 seconds have passed changes no answer of a run in which the delay between clock reading and pipeline, of either sign, grows by at most a second |
| SlidingWindow.ExpiredIsPrunable | app/services/rate_limiter.py:23-26 | whatever an expired key held, a next pipeline delayed at most a second more would have pruned |
| SlidingWindow.ExpiryIsVisibleBeyondASecond | app/services/rate_limiter.py:19-27 | for every first delay, every growth of more than a second and every window there is a run in which expiry admits a request the window forbids |
| SlidingWindow.RejectionRestoresEntries | app/services/rate_limiter.py:31-33 | a rejection leaves the window's entries unchanged if and only if its timestamp was not among them |
| SlidingWindow.AllowedCallTakesASlot | app/services/rate_limiter.py:24-25 | an allowed call uses up one slot if and only if its timestamp is new |
| SlidingWindow.EqualReadingsAllPass | app/services/rate_limiter.py:24 | any number of calls with the same clock reading pass a limit of one |
| SlidingWindow.RetryAdviceHoldsExactly | app/services/rate_limiter.py:35-36 | whatever entries are left and whatever limit is in force at the retry: waiting as advised is enough at all later times if and only if the entries still in the window when the wait ends are fewer than that limit |
| SlidingWindow.ConstantLimitAdvice | app/services/rate_limiter.py:31-37 | after any run under one limit, positive or not, waiting as advised is enough if and only if the limit is at least one |
| SlidingWindow.NoRetryWithoutLimit | app/schemas/keys.py:52 | under an override of zero or less no retry is ever allowed |
| SlidingWindow.RetryAfterIsSoundAndTight | app/services/rate_limiter.py:31-37 | after any run under a constant positive limit, the retry time is from 1 to the window, exceeds the true wait by more than 0 and at most 1 second, and a retry with nothing in between is allowed exactly from the true wait on |
| SlidingWindow.RetryWaitsForOldest | app/services/rate_limiter.py:35-36 | with a full window, a retry is allowed if and only if the oldest entry has left it |
| SlidingWindow.ConstantLimitBoundsEntries | app/services/rate_limiter.py:22-39 | under a constant limit the set never holds more entries than the limit, none under a negative one |
| SlidingWindow.LoweredLimitBreaksRetryAdvice | app/services/rate_limiter.py:36 | after the limit is lowered, waiting for the advised time can end in another rejection |
| RateLimitProtocol.Invariant | app/services/rate_limiter.py:19-40 | in every interleaving, with any clock offsets, the sorted set holds exactly the entries of allowed requests and of rejected ones not yet removed that no later pipeline has pruned or found expired; a request was allowed if and only if these and its own were within its limit; and every advice is at least 1 and bounded |
| RateLimitProtocol.WindowBound | app/services/rate_limiter.py:19-40 | in every interleaving with clock skew at most d, and delays between reading and pipeline growing by at most d and a second, an interval no longer than window - d admits no more requests than the limit of the last of them to be admitted |
| RateLimitProtocol.WindowBoundFromOffsets | app/services/rate_limiter.py:19-40 | the same from bounds on how far clock readings are ahead of their pipelines and behind them, with d their sum |
| RateLimitProtocol.OffsetsBoundSkew | app/services/rate_limiter.py:19-27 | such offsets bound skew and growth of the delays by their sum |
| RateLimitProtocol.ServerWindowBound | app/services/rate_limiter.py:19-40 | the same bound for intervals of the server's time |
| RateLimitProtocol.FullWindowBound | app/services/rate_limiter.py:8-40 | with pipelines in the order of their clock readings, delays growing by at most a second and one limit, every window-long interval admits at most the limit |
| RateLimitProtocol.SkewAdmitsMore | app/services/rate_limiter.py:19-40 | no longer interval will do: for every window, every skew d above 0 and every length above window - d there is a run with that skew and a limit of two that admits three requests in an interval of that length |
| RateLimitProtocol.DriftAdmitsMore | app/services/rate_limiter.py:19-27 | no larger growth of the delays will do: for every d and every growth above d and a second there is a run without skew that admits two requests under a limit of one in an interval of length window - d |
| RateLimitProtocol.DecisionsMatchLogExactly | app/services/rate_limiter.py:31-40 | with pipelines in the order of their clock readings, a request is allowed if and only if the allowed requests in its window and the rejected ones in its window not yet removed are together fewer than its limit; so it is decided as by the allowed ones alone if and only if these reach the limit by themselves or both together do not |
| RateLimitProtocol.QuietDecisionsMatchLog | app/services/rate_limiter.py:31-40 | in particular, with pipelines in the order of their clock readings, if no removal of a request in the window is pending: rejected requests used no quota |
| RateLimitProtocol.PendingUndoTurnsOthersAway | app/services/rate_limiter.py:31-33 | a run in which a pending removal gets a request rejected though its window holds no allowed request |
| RateLimitProtocol.StepsOfOneCall | app/services/rate_limiter.py:22-40 | the steps of a request with nothing in between leave the entries the completed call leaves and give its answer: the decision, the remaining quota, the retry time |
| RateLimitProtocol.AdviceIsBounded | app/services/rate_limiter.py:35-36 | in every interleaving a retry time is at least 1 and at most the window, a second and the time by which the latest clock reading is after the caller's |
| RateLimitProtocol.RetryInFlight | app/services/rate_limiter.py:31-37 | Retry-After is sound with requests in flight: in clock order, with no pipeline between advice and retry and no limit above the retry's, a retry at or after the advised time finds fewer allowed requests in its window than its limit; it is allowed if and only if removals still pending do not fill the rest, so always if none is |
| RateLimitProtocol.PendingSinceRejection | app/services/rate_limiter.py:31-33 | a removal still pending was pending at every pipeline since its request's own |
| RateLimiter.CheckRateLimit | app/services/rate_limiter.py:8-40 | the commands answer and leave behind what the specification says, for this identifier at all later times, and touch no other |
| RateLimiter.Dispatch | app/middleware/rate_limit.py:15-54 | exempt paths and a missing server pass untouched; any other request is decided by its own identifier and limit, a cached override of zero included, its set then holds what the call leaves, and no other is touched |
| RateLimiter.IdentifiersAreSeparate | app/services/rate_limiter.py:18 | different identifiers have different keys |
| RateLimiter.KeyedIdentifiers | app/middleware/rate_limit.py:25-28 | requests with keys share a sorted set if and only if the hashes of their keys agree in the first 16 characters |
| RateLimiter.KeylessIdentifiers | app/middleware/rate_limit.py:33-35 | requests without a key, or with an empty one, share it if and only if they come from the same address |
| RateLimiter.CachedOverrideIsLimit | app/middleware/rate_limit.py:30-32 | a cached override is the limit for 60 seconds, zero included, and the standard one is afterwards |
| RateLimiter.StandardLimitOtherwise | app/middleware/rate_limit.py:30-35 | without a cached override of its own key a request has the standard limit |
| RateLimiter.AttemptIsProtocolSteps | app/services/rate_limiter.py:54-58 | an attempt run to completion does to the counter what the protocol's steps do |
| RateLimiter.LoginIsProtocolSteps | app/api/deps.py:82-89 | one more step after an accepted attempt leaves no counter |
| RateLimiter.CheckAndRecordAdminAttempt | app/services/rate_limiter.py:43-58 | the value counted, when the address is blocked, and that only the first attempt sets the time to live |
| RateLimiter.ResetAdminAuthCounter | app/services/rate_limiter.py:61-63 | the counter of this address is gone, the others stay |
| RateLimiter.RequireMasterKey | app/api/deps.py:73-89 | blocked beyond five attempts whatever key is given, accepted exactly for the right key within them; success alone deletes the counter |
| AdminLockout.LockoutBound | app/services/rate_limiter.py:54-58 | in every interleaving, fewer than (2 + logins in the interval) times the maximum of attempts are admitted in any half-open interval of the window's length |
| AdminLockout.LockoutBoundWithoutLogin | app/api/deps.py:82-87 | without a successful login in the interval: at most twice the maximum less one |
| AdminLockout.LockoutBoundIsReached | app/services/rate_limiter.py:54-58 | for every maximum and window a run reaches that bound |
| AdminLockout.NoTtlMeansPendingExpire | app/services/rate_limiter.py:55-57 | in every run a counter without a time to live is one whose creator has yet to set it |
| AdminLockout.LockoutEndsExactly | app/services/rate_limiter.py:54-58 | from any counter, after any attempts and outstanding time-to-live commands while it is there, the next attempt counts from one if and only if the latest such command, or the one before them, has set a deadline and it has come |
| AdminLockout.CounterGoesOn | app/services/rate_limiter.py:54-58 | meanwhile every attempt adds one, and the deadline is the one set last |
| AdminLockout.LockoutEnds | app/services/rate_limiter.py:54-58 | attempts alone leave the deadline as it is, whatever is outstanding; after them an attempt counts from one if and only if the counter had a deadline and it has come |
| AdminLockout.FirstAttemptAfterLogin | app/services/rate_limiter.py:61-63 | after a successful login the next attempt counts from one, whatever the counter was and whichever outstanding time-to-live commands come in between |
| AdminLockout.BlockedAttemptsSetNoDeadline | app/services/rate_limiter.py:55-57 | in every interleaving only attempts told 1 have a time to live to set, and a deadline that is there was set by one of them a window before |
| AdminLockout.StuckWithoutExpire | app/services/rate_limiter.py:55-57 | without a time to live, every attempt is counted on |
| AdminLockout.LockoutNeedNotEnd | app/services/rate_limiter.py:55-57 | for every number of attempts there is a run from the start in which the time to live is never set and the next attempt, at any time, is counted on |
| AdminLockout.Invariant | app/services/rate_limiter.py:54-63 | every interleaving keeps: lives of the counter do not overlap and last at least a window unless deleted, and attempts of one life return increasing values |
| BlacklistProtocol.Coherence | app/services/blacklist.py:29-49 | in every interleaving the cached list differs from the active rows only while a writer is between commit and cache delete, or if a change was committed between the list's select and store |
| BlacklistProtocol.CoherenceExactly | app/services/blacklist.py:29-49 | in every interleaving the cached list is right if and only if the active projection at its selection is the present one |
| BlacklistProtocol.QuietCoherenceExactly | app/services/blacklist.py:34-47 | with no writer at work: if and only if the changes committed between its selection and its storing left the active projection as it was |
| BlacklistProtocol.CommitsDecideProjection | app/services/blacklist.py:64-66 | while no change is committed the active projection stays, whatever checks do |
| BlacklistProtocol.CoherenceInvariant | app/services/blacklist.py:64-66 | the invariant behind it: every change since a cleanly filled list was stored still has its cache delete to come |
| BlacklistProtocol.StaleFillSurvives | app/services/blacklist.py:34-47 | a run in which a stale list stays cached with no writer at work |
| BlacklistProtocol.BoundedStaleness | app/services/blacklist.py:24-49 | every list a check obtains was the active projection of the table at a moment less than 60 seconds plus its fill's select-to-store time before |
| BlacklistProtocol.VerdictWasRight | app/services/blacklist.py:131-159 | and the verdict is the one the table called for at that moment, for every order of the rows; a type given is that of a row active and matching at that moment |
| BlacklistProtocol.BlockCountsAreConserved | app/services/blacklist.py:150-157 | in every interleaving the block count of a row is the number of checks that charged it since it was added |
| BlacklistProtocol.ChargesAreOnePerCheck | app/services/blacklist.py:131-159 | in every interleaving the checks begun are those under way, those that charged one row and those that passed without charging: never more charges than checks |
| BlacklistProtocol.CommitTakesEffect | app/services/blacklist.py:58-110 | an insertion adds an active unused row with the given fields, an update changes its row alone, a removal takes its row away |
| BlacklistProtocol.RemovedStaysAway | app/services/blacklist.py:84-90 | in every interleaving a removed row is in no later table and no later check is counted on it |
| BlacklistProtocol.RemovedIsNotListed | app/services/blacklist.py:34-44 | and no list selected later names it |
| BlacklistProtocol.CheckThatHits | app/services/blacklist.py:131-159 | an undisturbed check within 60 seconds of the storing uses the cached list and charges its first match |
| BlacklistProtocol.CheckThatMisses | app/services/blacklist.py:131-159 | an undisturbed check without a list, or after its 60 seconds, selects one, stores it and charges its first match |
| BlacklistRows.CheckDecidesBlocks | app/services/blacklist.py:142-159 | on any enumeration of the active rows a match is found if and only if an active row matches, and it is such a row |
| BlacklistRows.MatchesAddress | app/services/blacklist.py:139-149 | a pattern matches an address if and only if, in lower case, it is the address or its domain or the glob takes one of the two |
| BlacklistRows.MatchesPlain | app/services/blacklist.py:140 | a sender without @ is its own domain |
| BlacklistRows.MatchesIgnoresCase | app/services/blacklist.py:139-143 | the case of pattern and sender does not matter |
| BlacklistRows.BlocksAddress | app/services/blacklist.py:139-149 | a sender is blocked if and only if some active row has such a pattern |
| BlacklistRows.BlocksPlain | app/services/blacklist.py:139-149 | the same for senders without @ |
| BlacklistRows.DomainPatternBlocks | app/services/blacklist.py:148 | an active row whose pattern is a domain, up to case, blocks every sender there, whatever the glob does |
| BlacklistRows.BlocksIgnoresCase | app/services/blacklist.py:139-143 | the verdict does not depend on the case of the sender or of the patterns |
| BlacklistRows.Inserted | app/services/blacklist.py:58-62 | a new row has the given pattern, type and reason, is active and unused |
| BlacklistRows.ChargeKeepsProjection | app/services/blacklist.py:151-156 | counting a blocked message changes neither the active projection nor the uniqueness of patterns |
| BlacklistRows.Updated | app/schemas/keys.py:64-70 | a partial update changes the fields given a value or null and no others; the block count is not among them |
| Blacklist.Blacklist.CheckBlacklist | app/services/blacklist.py:131-159 | with or without cache and at any expiry, a type is returned if and only if an active row matches; it is the type of such a row, and that row alone is charged |
| Blacklist.Blacklist.GetCachedBlacklist | app/services/blacklist.py:24-49 | the list enumerates the active rows; it is the cached one within its 60 seconds, and is stored otherwise |
| Blacklist.Blacklist.SelectActive | app/services/blacklist.py:34-44 | the active rows, each once, in some order |
| Blacklist.Blacklist.AddEntry | app/services/blacklist.py:52-67 | a new row under a fresh identifier with the given pattern, type and reason, active and unused, all others as they were, and a deleted cache; or an integrity error and no change for a known pattern |
| Blacklist.Blacklist.UpdateEntry | app/services/blacklist.py:93-111 | only the fields given change; missing rows, nulls for required fields and patterns of other rows change nothing, and nothing else fails |
| Blacklist.Blacklist.DeleteEntry | app/services/blacklist.py:78-90 | the row is gone and every other as it was; the cache is deleted if and only if the row was there |
| Blacklist.Blacklist.ImportEntries | app/services/blacklist.py:114-128 | the result is the first occurrences of the patterns not in the table, in order, each a new row; the cache stays coherent |
| Blacklist.ImportUnitesPatterns | app/services/blacklist.py:121-127 | after an import the patterns are those of table and list together, and no others |
| Blacklist.ImportIsIdempotent | app/services/blacklist.py:122-127 | importing the same list again adds nothing |
| Blacklist.FirstNewPlaces | app/services/blacklist.py:121-127 | the entries imported are those at exactly the places where a pattern missing from the table occurs first, in order |
| Blacklist.WithNewImports | app/services/blacklist.py:127 | every entry reported is there with its fields, active and unused, and nothing else has changed |
| Blacklist.WithNewRows | app/services/blacklist.py:127 | an import leaves existing rows as they were and adds the new ones unused and active |
| LikeSearch.ChainEqualsOnePass | app/services/messages.py:13-15 | the three chained replacements equal one pass that puts a backslash before each special character |
| LikeSearch.EscapeRoundTrip | app/services/messages.py:13-15 | escaping can be undone and never leaves a dangling backslash |
| LikeSearch.EscapeIsInjective | app/services/messages.py:13-15 | different terms have different patterns |
| LikeSearch.PatternMeansContains | app/services/messages.py:77 | the pattern matches a text if and only if the text contains the term, for all texts and terms |
| LikeSearch.ContainsMeansInfix | app/services/messages.py:77 | a text contains a term if and only if it is some text, the term, and some text |
| LikeSearch.UnderscoreMatchesOne | app/services/messages.py:13-15 | unescaped, _ would match any one character |
| LikeSearch.ILikeMeansContains | app/services/messages.py:49-51 | the same up to case |
| LikeSearch.EscapedIsLiteral | app/services/messages.py:13-15 | an escaped term in front of any pattern stands for the term itself |
| LikeSearch.SearchSelects | app/services/messages.py:76-92 | a search selects exactly the messages of the address with the term in a searched column that is not null |
| LikeSearch.ListSelects | app/services/messages.py:46-55 | a listing selects exactly the messages of the address that pass every filter given; empty text filters do not restrict |
| MailParser.GroupHeaders | app/smtp/parser.py:33-35 | every name that occurs, with all its values in order |
| MailParser.GroupingKeepsEveryHeader | app/smtp/parser.py:33-35 | every header occurs in the grouping as often as in the mail |
| MailParser.ValuesInOrder | app/smtp/parser.py:33-35 | a header's value comes after as many values as headers of its name precede it |
| MailParser.ValuesCount | app/smtp/parser.py:33-35 | a name has as many values as headers |
| MailParser.FirstValueMeaning | app/smtp/parser.py:31 | the subject is the first header of that name up to case, or none if there is none |
| MailParser.FindBodies | app/smtp/parser.py:37-57 | the loop over the walk gives the bodies the following lemmas speak of |
| MailParser.BodiesOnTree | app/smtp/parser.py:41-51 | on every tree of parts: the body of each type is the first part of it in preorder that is not an attachment, if it is one of the first 50, the HTML one cleaned; an error if and only if a chosen part cannot be decoded |
| MailParser.BodiesOfSinglePart | app/smtp/parser.py:52-57 | a mail without parts is its own body, attachment or not, if it is plain text or HTML |
| MailParser.WalkHasEveryPart | app/smtp/parser.py:41 | the part at every path of the tree is in the walk, after as many parts as come before it in the tree |
| MailParser.WalkHasOnlyParts | app/smtp/parser.py:41 | every place in the walk is that of a part of the tree |
| MailParser.PositionsInPreorder | app/smtp/parser.py:41 | places in the walk are in preorder of the paths, and different for different parts |
| MailParser.FirstBody | app/smtp/parser.py:41-51 | the choice is a part of the type with none before it, or there is none |
| MailParser.OnlyFirstPartsMatter | app/smtp/parser.py:24-43 | mails with the same first 50 parts have the same bodies |
| MailParser.AppendedPartsAreIgnored | app/smtp/parser.py:41-43 | parts added at the end of a mail that has 50 change nothing |
| MailParser.ParseEmail | app/smtp/parser.py:27-70 | the parsed mail, or an error exactly when its bodies fail |
| MailParser.ParsedMeaning | app/smtp/parser.py:59-70 | a parsed mail has the envelope's sender and recipient, the recipient's domain, the size, the subject, the grouped headers and the bodies; parsing fails if and only if the bodies do |
| SmtpServer.RcptKeepsGood | app/smtp/server.py:43-49 | RCPT accepts exactly configured domains, up to case, below ten recipients, and keeps the recipients lower-case and of configured domains |
| SmtpServer.TempInboxHandler.HandleRcpt | app/smtp/server.py:34-49 | foreign domains are refused, up to case, then everyone beyond ten recipients; an accepted address is appended in lower case, and otherwise nothing changes |
| SmtpServer.TempInboxHandler.HandleData | app/smtp/server.py:51-104 | which reply is given when, and that one message per recipient is stored for 250 and none for any other reply |
| SmtpServer.TempInboxHandler.ParseForEach | app/smtp/server.py:75-94 | the messages for all recipients, or the first parse error |
| SmtpServer.RejectedExactly | app/smtp/server.py:75-82 | parsing fails if and only if there is a recipient and the bodies cannot be decoded |
| SmtpServer.OneMessageEach | app/smtp/server.py:75-94 | one message for each recipient held, in order and with multiplicity, with its domain, sender, size, subject, headers and bodies |
| SmtpServer.SessionInvariant | app/smtp/server.py:43-49 | over any session at most ten recipients are held, and stored messages agree with their recipients |
| SmtpServer.DataReplyMeaning | app/smtp/server.py:62-104 | each reply to DATA has its one cause: size, verdict, undecodable bodies, failed commit, or none of these |
| SmtpServer.EachDataStoresItsRecipients | app/smtp/server.py:62-104 | a DATA command answered 250 appends one message per recipient held, in order, with its sender, size and bodies; any other reply and any other command stores nothing |
| SmtpServer.HeldAsReplied | app/smtp/server.py:43-49 | over any session the recipients held are the addresses accepted since the last reset, in lower case, in order and with multiplicity |
| SmtpServer.AcceptedRecipientGetsMessage | app/smtp/server.py:48-104 | a recipient accepted before a DATA command answered 250, with no reset in between, has a message among those this command stores |
| SmtpServer.SessionOnlyGrows | app/smtp/server.py:95-104 | replies given and messages stored stay |
| SmtpServer.SessionStoresWhatItOwes | app/smtp/server.py:62-104 | over any session the recipients of the stored messages are, in order, those held at each DATA answered 250 |
| SmtpServer.OnlyAcceptedRecipients | app/smtp/server.py:44-49 | every recipient of a stored message was accepted by an RCPT command of the session |
| SmtpServer.DomainAgreesEndToEnd | app/smtp/parser.py:59 | accepted domain, stored domain and the domain the API derives are one and the same, for every message stored in any session |
| SmtpServer.AccessIsByStoredDomain | app/api/deps.py:43-49 | a restricted key opens a message if and only if the stored domain is one of the key's |
| SmtpServer.RestrictedAccess | app/api/deps.py:43-49 | a restricted key opens an address if and only if its domain is one of the key's, up to case |
| SmtpServer.UnrestrictedAccess | app/api/deps.py:45-46 | a key without domains, or with an empty list, opens every inbox |
| Text.DomainOfLower | app/smtp/server.py:43 | splitting at the last @ commutes with lower-casing |
| Text.SplitAtLast | app/smtp/server.py:43 | the domain is what follows the last @ |
| Text.WithoutAt | app/services/blacklist.py:140 | a text without @ is its own last piece and has no domain |
| Text.LowerMeaning | app/smtp/server.py:44 | lower-casing moves the ASCII capitals and nothing else |
| Cleanup.MessageStore.CleanupOldMessages | app/services/cleanup.py:16-43 | the loop ends, leaves exactly what one delete with the last cutoff leaves, and returns the number removed |
| Cleanup.MessageStore.SelectBatch | app/services/cleanup.py:26-31 | any batch the limited subquery may choose |
| Cleanup.ShortBatchEndsClean | app/services/cleanup.py:24-38 | with messages arriving between batches, a short batch leaves exactly those at or after the last cutoff |
| Cleanup.TotalIsWhatIsGone | app/services/cleanup.py:36 | the number returned is the number removed, whatever arrives meanwhile |
| Cleanup.ShortBatchTakesAll | app/services/cleanup.py:37-38 | a batch below the batch size has taken everything stale |
| ApiKeys.KeyService.ValidateApiKey | app/services/keys.py:102-136 | accepted if and only if an active, unexpired row has the hash; then that row alone is counted and its override cached for 60 seconds |
| ApiKeys.AuthenticateThenDispatch | app/api/deps.py:52-70 | after a key with an override has authenticated a request, the next one with this key is limited by that override for 60 seconds and by the standard limit from then on; without any override, by the standard limit |
| ApiKeys.KeyService.CreateApiKey | app/services/keys.py:27-56 | a new active, unused row under its hash |
| ApiKeys.Created | app/services/keys.py:39-46 | the row of a new key has the given fields and hash, is active and unused |
| ApiKeys.KeyService.UpdateApiKey | app/services/keys.py:73-89 | only the fields given change; hash, expiry and usage stay |
| ApiKeys.Updated | app/schemas/keys.py:46-53 | a partial update leaves hash, expiry and usage and every field left out alone, and gives every other field its value or null |
| ApiKeys.KeyService.DeactivateApiKey | app/services/keys.py:92-99 | the row is inactive and otherwise as it was |
| KeyProtocol.RequestTotalsAreConserved | app/services/keys.py:120-126 | in every interleaving of validations, updates and deactivations a key's request total is the number of validations counted on it |
| KeyProtocol.EnforcedLimitIsRecent | app/middleware/rate_limit.py:30-32 | in every interleaving an enforced limit other than the standard one was the override of the usable key less than 60 seconds plus the validation's own time ago |
| KeyProtocol.EnforcedLimitIsCurrent | app/middleware/rate_limit.py:30-32 | the enforced limit is the one the key should have: with a live cached override, if and only if the last update of the override since its selection gives that limit again, or there is none; otherwise, if and only if the key has no override or one to the standard limit |
| KeyProtocol.UntouchedLimitIsEnforced | app/middleware/rate_limit.py:30-32 | a live cached override that no update has touched since its selection is the present one |
| KeyProtocol.OverrideStays | app/services/keys.py:73-89 | a key once there stays with its hash, and its override is what the last update of it since gave it |
| KeyProtocol.WithdrawnLimitIsEnforced | app/services/keys.py:128-134 | a run in which an override that was taken back is still enforced |
| KeyProtocol.OverrideNeedsValidation | app/services/keys.py:128-134 | runs in which an override in force is not enforced: before the first validation, and from 60 seconds after the last |
| KeyProtocol.DeactivatedIsShutOut | app/services/keys.py:92-113 | in every interleaving a deactivated key is not selected again unless an update has activated it in between |
| KeyProtocol.LimitForIsEnforced | app/middleware/rate_limit.py:30-32 | the limit the middleware takes is the enforced limit of these theorems |
| KeyProtocol.ValidationIsProtocolSteps | app/services/keys.py:102-136 | an undisturbed validation counts on its key and caches its override for 60 seconds, as the service does |

## Left out

- RateLimitProtocol.WindowBound: for distinct clock readings only, since equal readings share an entry (`EqualReadingsAllPass`), and with the growth of the delays bounded, without which it is false (`DriftAdmitsMore`).
- RateLimitProtocol.DecisionsMatchLogExactly: for pipelines in the order of their clock readings; with skew a pipeline ahead prunes for those behind, and Invariant says what is counted.
- RateLimitProtocol.Invariant: one identifier; different identifiers do not share state.
- SlidingWindow.RetryAfterIsSoundAndTight: completed calls under one limit; with requests in flight the advice is sound (RetryInFlight) but not tight, only bounded (AdviceIsBounded).
- RateLimitProtocol.RetryInFlight: another request between advice and retry may take the slot, so none is allowed there.
- Cleanup.MessageStore.CleanupOldMessages: no one else deletes; a batch cut short by another deleter would end the loop early.
- Cleanup.ShortBatchEndsClean: with messages arriving, that the loop comes to a short batch at all depends on the arrivals.
- BlacklistProtocol.VerdictWasRight: says nothing of which of several matching rows is charged, as the select has no order.
- SmtpServer.TempInboxHandler.HandleData: whether the commit succeeds is a parameter; a failed commit stores nothing.
- Blacklist.Blacklist.UpdateEntry: column lengths are not checked.
- Paging and ordering of message lists, previews, statistics and simple reads: they have no property over runs.
- The limit reported by app/api/public.py:103, which treats an override of zero as none.
- The client address from X-Forwarded-For: a parameter of the middleware.
- FastAPI routing, request validation, logging, migrations, deployment files.
- Key generation and hashing, fnmatch, nh3, MIME decoding and JSON, which are libraries; they are not part of this model.
