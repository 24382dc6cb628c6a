# Garba Partner: verified models

Models of the algorithmic parts of the Garba Partner platform (a web app, an admin app and an API),
with proofs of what they promise. `dafny verify dfyconfig.toml` checks everything.

| file | models |
|---|---|
| `RefreshServer`, `RefreshProtocol`, `RefreshSafety`, `RefreshRuns`, `RefreshStories` | silent session refresh: many calls in many tabs, one cookie jar, a Web Lock, a server that rotates refresh tokens, and a network that loses messages |
| `Verhoeff` | the checksum of identity numbers, in TypeScript and in PL/pgSQL |
| `Patterns`, `AadhaarScan`, `AadhaarShape`, `AadhaarOverlap` | regular-expression scanning in both dialects, the two scanners for identity numbers, and what they find |
| `TextOrder`, `Calendar`, `Dates`, `Ages` | dates as texts: validity, day arithmetic, ages, lists of available dates |
| `SlidingWindow`, `SocketEvents` | the rate limiter, and the chat socket's event handler that uses it |
| `Keyset` | keyset pagination over a table that changes between pages |
| `Wrappers`, `Sets` | an optional value; sizes of sets |
| `Like` | escaping user input inside LIKE and ILIKE patterns |
| `Matches` | canonical pairs of member ids, and the table with one active match per pair |
| `Paragraphs` | the clean-up of public text |
| `RedactUrl` | what the request log keeps of a URL |

Code that works by changing state is a class or a method with loops (`ApiClient`, `SlidingWindowLimiter`,
`ChatSocket`, `SearchParams`, both checksums, both scanners, the date functions), each proved against a
function; the properties are lemmas about that function and about whole runs.

Where the code does not keep a promise, the model keeps to the code, a lemma names an input or a family
of inputs, and another says exactly when the promise is kept:

- The scanners look for non-overlapping numbers, so `2222 2222 2222 2227` holds a valid number that neither
  reports (`OverlapHidesANumber`). A text is reported if and only if it holds a valid number that no
  number before it covers, where a number covers what begins inside it unless it is covered itself
  (`FlagIsExact`, `FlagIsRight`); the scan lists every number if and only if no two overlap
  (`ScanIsCompleteWithoutOverlap`).
- `isIsoDate` refuses the real dates of the years 0000 to 0099 and no others
  (`EarlyDateIsRefused`, `IsIsoDateExactly`).
- `availableDatesError` accepts no date at all once the horizon lies past the year 9999, so not
  even today on 9999-12-31 (`LastDayIsRefused`, `AvailableDatesError`).
- A cursor holds a time in whole milliseconds, a `timestamptz` column may hold microseconds: then a page
  can repeat (`FractionsRepeatThePage`); the cursor of a row is right for every table if and only if its
  value is exact (`CursorIsRightExactlyWhenExact`), and a traversal is faithful while the rows at which its
  pages end are (`TraversalIsFaithful`). Of the columns paged by date, `events.starts_at` is generated from
  a date and a time and `events.created_at` is written in whole milliseconds by the ORM, so an inexact
  value takes a row that is written otherwise and gets the column's default `now()`.
- An acknowledgement callback that throws can be called a second time (`ThrowingCallbackIsAnsweredTwice`):
  if and only if it threw as `then` answered with a result or with the end of the session
  (`EventsAreAnswered`); what it throws as `catch` answers goes nowhere.
- If the reply to a refresh is lost, the next refresh presents the old token, and more than 15 seconds
  later this revokes the member's own session (`LostReplyRevokesSession`); a request that the browser gives
  up on and the server serves late can do the same. With Web Locks and neither of the two no session is
  ever revoked for reuse (`NothingLostNothingReplayed`); in general a session is, if and only if its
  rotated-out token is presented while it is live and more than 15 seconds after the rotation
  (`ReuseIsRevokedExactly`). Without Web Locks two tabs can present one token twice (`LocksPreventReplay`).
- A UUID paired with itself passes through `canonicalPair` and is refused by the table
  (`SelfPairIsRefused`, `CanonicalPairIsOrdered`, `CreateStoresExactlyWhenFree`).
- A rate limit of zero or less refuses every hit, yet `retryAfterSeconds` says 0 (`NoLimitNoHits`); with a
  positive limit it is right (`RetryAfterIsHonest`).

## Model

| member | source | states |
|---|---|---|
| RefreshServer.RefreshKeepsServer | apps/api/src/modules/auth/auth.service.ts:178-258 | whatever is presented, every token the server issued and that was not yet presented is the current token of some session, and rotated-out tokens are presented ones; when a token is rotated at all, RotatesExactly says |
| RefreshServer.ReuseNeedsSpentToken | apps/api/src/modules/auth/auth.service.ts:233-247 | a refresh revokes a session for reuse only if the token was presented before, is that session's rotated-out one, and the grace period is over |
| RefreshServer.RefreshKeepsBooks | apps/api/src/modules/auth/auth.service.ts:178-258 | whatever is presented, all current and rotated-out tokens of all sessions stay distinct and issued |
| RefreshServer.RotatesExactly | apps/api/src/modules/auth/auth.service.ts:183-231 | a new token is given out if and only if the presented one is the current token of a session that is neither revoked nor expired and the member is not banned |
| RefreshServer.CurrentTokenOutcome | apps/api/src/modules/auth/auth.service.ts:189-231 | presenting a current token rotates its session, revokes it if the member is banned, or changes nothing where it is revoked or expired |
| RefreshServer.OtherSessionsStay | apps/api/src/modules/auth/auth.service.ts:183-248 | sessions that hold the token neither as current nor as rotated out are untouched |
| RefreshServer.RotatedOutTokenIsRefused | apps/api/src/modules/auth/auth.service.ts:233-258 | with such books a rotated-out token never yields a new one, revokes its live session exactly when more than 15 s have passed since the rotation, and changes nothing else |
| RefreshServer.RefreshRevokesReused | apps/api/src/modules/auth/auth.service.ts:233-247 | whatever is presented, exactly the live session that rotated it out more than 15 s ago is revoked for reuse |
| RefreshRuns.RotatedOutTokensAreRefused | apps/api/src/modules/auth/auth.service.ts:233-258 | the same after every run of the protocol, with or without locks, for every session and whoever presents the token |
| RefreshRuns.ReuseIsRevokedExactly | apps/api/src/modules/auth/auth.service.ts:233-247 | in every run, with or without locks, a session ends revoked for reuse if and only if a flight or an abandoned request presented its rotated-out token while it was live and the grace period was over |
| RefreshProtocol.ApiClient.constructor | apps/web/src/lib/api-client.ts:28-102 | a fresh tab has no access token, no flight and no past ones |
| RefreshProtocol.ApiClient.RefreshSession | apps/web/src/lib/api-client.ts:109-128 | the caller gets the tab's one unsettled flight; a new one starts only if every earlier one has settled |
| RefreshProtocol.ApiClient.FlightEnds | apps/web/src/lib/api-client.ts:116-125 | the flight settles with its outcome and none is left unsettled; an access token in memory came with a flight that succeeded |
| RefreshProtocol.ApiClient.RefreshFailed | apps/web/src/lib/api-client.ts:139-145 | a call whose refresh failed drops the access token and leaves the unsettled flight, if any, to its callers |
| RefreshSafety.StepKeepsTabs | apps/web/src/lib/api-client.ts:109-128 | every step of every tab, call, request, lock or server keeps `refreshInFlight` the tab's one unsettled flight |
| RefreshSafety.StepKeepsLock | apps/web/src/lib/api-client.ts:117-120 | every step keeps the flight with a request the holder of the Web Lock, and the waiting flights exactly its queue |
| RefreshSafety.StepKeepsCalls | apps/web/src/lib/api-client.ts:131-148 | every step keeps each call at one joined flight of its own tab, in the phase and with the number of requests that flight's outcome allows |
| RefreshSafety.StepKeepsBooks | apps/api/src/modules/auth/auth.service.ts:178-258 | every step of the protocol, with or without locks, keeps the server's current and rotated-out tokens distinct |
| RefreshSafety.StepKeepsTokens | apps/web/src/lib/api-client.ts:104-128 | with Web Locks every step, a late arrival of an abandoned request included, keeps the cookie jar ahead of the server: a spent token is in the jar only while its reply is on the way, after it was lost, or after an abandoned request presented it |
| RefreshRuns.RefreshIsSafe | apps/web/src/lib/api-client.ts:102-128 | in every run with Web Locks: at most one refresh request in the browser; it carries the server's current token, no token is presented twice and no session is revoked for reuse, unless that token's reply was lost or an abandoned request presented it late |
| RefreshRuns.NothingLostNothingReplayed | apps/web/src/lib/api-client.ts:104-128 | in every run with Web Locks, without a lost reply and without a late request, all presented tokens differ and no session is revoked for reuse |
| RefreshRuns.SingleFlightPerTab | apps/web/src/lib/api-client.ts:109-128 | in every run, with or without locks, `refreshInFlight` is a flight if and only if that flight is the tab's and unsettled |
| RefreshRuns.CallsAreBounded | apps/admin/src/lib/api-client.ts:126-183 | in every run a call (`api`, `apiDownload` or `refreshSession` itself) sends at most two requests and joins at most one flight; a retry follows a successful flight, an expired session a failed one |
| RefreshStories.CallsRefreshExactlyOn401 | apps/web/src/lib/api-client.ts:131-148 | in every run, with or without locks, a call refreshes if and only if it is `refreshSession` itself, or a download or an authenticated request whose first answer was a 401 |
| RefreshStories.FlightsEndWellExactly | apps/web/src/lib/api-client.ts:109-128 | in every run a flight that ended, ended well if and only if the server rotated a live current token for it and that reply was delivered |
| RefreshStories.ServeRotates | apps/api/src/modules/auth/auth.controller.ts:48-57 | the reply sets a new cookie exactly for a rotation, leaves it alone exactly where the request was stopped before the service, and clears it otherwise |
| RefreshStories.DeliveryFillsTheJar | apps/api/src/modules/auth/auth.controller.ts:48-57 | in every run with Web Locks a delivered success leaves a current token in the cookie jar, and a refusal none |
| RefreshStories.RevokedStaysRevoked | apps/api/src/modules/auth/auth.service.ts:189-192 | in every run a session once revoked, for whatever reason, is never rotated or changed again |
| RefreshStories.TokenIsLastBrought | apps/web/src/lib/api-client.ts:121-145 | in every run a tab's access token is that of its latest successful flight, unless a call of the tab has expired since |
| RefreshRuns.InternalStepWorks | apps/web/src/lib/api-client.ts:109-148 | every step of a call, flight, request or the lock manager uses up work |
| RefreshRuns.InternalRunsAreBounded | apps/web/src/lib/api-client.ts:109-148 | what has been started ends: the steps left are bounded, in any order, losses included |
| RefreshRuns.Progress | apps/web/src/lib/api-client.ts:109-148 | no deadlock: while a call, a flight or an abandoned request is unfinished, a step of one can happen without any loss |
| RefreshRuns.LocksPreventReplay | apps/web/src/lib/api-client.ts:104-120 | as long as no reply is lost and no request late, no token is presented twice in any run if and only if Web Locks are available |
| RefreshRuns.WithoutLocksTokensAreReplayed | apps/web/src/lib/api-client.ts:117-120 | a run of two tabs without Web Locks that presents a token twice |
| RefreshRuns.LostReplyRevokesSession | apps/api/src/modules/auth/auth.service.ts:233-247 | a run with Web Locks in which a lost reply makes the next refresh revoke the session |
| Verhoeff.TableIsGroup | apps/api/src/lib/pii-guards.ts:12-23 | table D is the composition table of the symmetries of a pentagon |
| Verhoeff.Associative | apps/api/src/lib/pii-guards.ts:12-23 | the composition is associative |
| Verhoeff.TableIsPower | apps/api/src/lib/pii-guards.ts:24-33 | row `i % 8` of table P is the `i`-th power of row 1, for every `i`, so eight rows come back to the identity |
| Verhoeff.FoldIsProduct | apps/api/src/lib/pii-guards.ts:44-49 | multiplying digit after digit into the checksum is the product of the permuted digits |
| Verhoeff.IsVerhoeffValid | apps/api/src/lib/pii-guards.ts:42-50 | true exactly for nonempty digit strings whose product is the identity; no table read is out of range |
| Verhoeff.OnlyDigitsAreValid | apps/api/src/lib/pii-guards.ts:43 | nothing but texts of one or more digits is valid, and some are |
| Verhoeff.DetectsSingleErrors | apps/api/src/lib/pii-guards.ts:41-50 | changing any one digit of a valid string, of any length, makes it invalid |
| Verhoeff.DetectsTranspositions | apps/api/src/lib/pii-guards.ts:41-50 | swapping any two unequal neighbours of a valid string makes it invalid |
| Verhoeff.OneCheckDigit | apps/api/src/lib/pii-guards.ts:41-50 | every digit string is completed by exactly one check digit |
| Verhoeff.FlatDRead | apps/api/src/migrations/20260925100400-create-user-verifications.ts:13-16 | the flattened 1-based array `d` is the same table |
| Verhoeff.FlatPRead | apps/api/src/migrations/20260925100400-create-user-verifications.ts:17-19 | the flattened 1-based array `p` is the same table, for every position in the string |
| Verhoeff.IsVerhoeffValidSql | apps/api/src/migrations/20260925100400-create-user-verifications.ts:10-31 | the PL/pgSQL loop gives the TypeScript answer for every string and reads no array out of range |
| AadhaarScan.NumbersAreDigits | apps/api/src/lib/pii-guards.ts:56 | the three groups match in at most one way, starting and ending with a digit, so backtracking and longest match agree |
| AadhaarShape.SeparatorMeans | apps/api/src/lib/pii-guards.ts:56 | a separator is a space or a hyphen |
| AadhaarShape.GroupsMean | apps/api/src/lib/pii-guards.ts:56 | the groups match exactly four digits from 2 on, and twice four digits, with at most one separator in between, not followed by a letter or digit |
| AadhaarShape.PatternMeans | apps/api/src/lib/pii-guards.ts:52-56 | by characters and positions alone: where the pattern matches, where the match ends, and its three captures |
| AadhaarScan.ScansAgree | apps/api/src/migrations/20260925100400-create-user-verifications.ts:38-42 | the lookbehind scan and the scan that consumes a separator capture the same groups in the same order, in every string |
| AadhaarScan.ContainsAadhaarLikeNumber | apps/api/src/lib/pii-guards.ts:59-64 | true exactly when some captured number passes the checksum |
| AadhaarScan.ContainsAadhaarLikeNumberSql | apps/api/src/migrations/20260925100400-create-user-verifications.ts:33-50 | the database function gives the same answer for every string |
| AadhaarOverlap.ScanIsCompleteWithoutOverlap | apps/api/src/lib/pii-guards.ts:52-64 | the scan lists every standalone 12-digit shape if and only if no two of them overlap |
| AadhaarOverlap.ScanFindsUncovered | apps/api/src/lib/pii-guards.ts:60 | from a position nothing covers, the scan lists exactly the captures of the uncovered standalone numbers |
| AadhaarOverlap.FlagIsExact | apps/api/src/lib/pii-guards.ts:58-64 | a text is flagged if and only if, by its characters alone, it holds a valid standalone number that no number before it covers |
| AadhaarOverlap.FlagIsRight | apps/api/src/lib/pii-guards.ts:58-64 | a flag means a standalone valid number; such a number goes unflagged if and only if every valid one is covered |
| AadhaarOverlap.SeparatedNumberIsFlagged | apps/api/src/lib/pii-guards.ts:52-64 | every valid number that starts with 2 to 9 is flagged when written in groups with spaces or hyphens |
| AadhaarOverlap.OverlapHidesANumber | apps/api/src/lib/pii-guards.ts:58-64 | a text with a standalone valid number that is not flagged |
| Calendar.DayFromYearIsClosedForm | packages/shared/src/utils/dates.ts:11-12 | counting days year by year is the closed form of ECMA-262 section 21.4.1, for all years |
| Calendar.FieldsOfDay | packages/shared/src/utils/dates.ts:11-12 | the day number of a real date reads back as that date |
| Calendar.DayOfFields | packages/shared/src/utils/dates.ts:11-12 | every day number is that of the date it reads as |
| Calendar.ChronologicalOrder | packages/shared/src/utils/dates.ts:33-40 | (year, month, day) order of real dates is day-number order |
| Dates.IsIsoDateExactly | packages/shared/src/utils/dates.ts:6-13 | `isIsoDate` accepts exactly the real Gregorian dates of the years 0100 to 9999 |
| Dates.EarlyDateIsRefused | packages/shared/src/utils/dates.ts:11-12 | a real date of the year 0050 that is refused |
| Dates.StringOrderIsChronological | packages/shared/src/utils/dates.ts:58-59 | comparing two date texts as strings compares the days |
| Dates.AddDays | packages/shared/src/utils/dates.ts:27-31 | setting the day of the month past its end gives the text of the day so many days later |
| Dates.AddedDateIsCalendarDate | packages/shared/src/utils/dates.ts:27-31 | the result is a well-formed real date if and only if it lies in the years 0000 to 9999, and then lies exactly `days` later |
| Dates.AddDaysComposes | packages/shared/src/utils/dates.ts:27-31 | adding `a` and then `b` days is adding `a + b` |
| Dates.AddDaysUndone | packages/shared/src/utils/dates.ts:27-31 | adding `a` and then `-a` days gives the date back |
| Dates.AddedDatesCompare | packages/shared/src/utils/dates.ts:55-59 | results compare as strings as their days compare |
| Dates.AddDaysIsMonotone | packages/shared/src/utils/dates.ts:27-31 | `addDays` is strictly monotone in the date and in the number of days |
| Ages.FieldAgeCountsBirthdays | packages/shared/src/utils/dates.ts:34-40 | comparing year, month and day counts the birthdays passed; those of 29 February fall on 1 March in common years |
| Ages.AgeIsUnique | packages/shared/src/utils/dates.ts:33-40 | a day lies between one birthday and the next for one age only |
| Ages.CalculateAge | packages/shared/src/utils/dates.ts:34-40 | for all texts YYYY-MM-DD the age of the last anniversary on or before `today` in (year, month, day) order; for real dates that is the last birthday |
| Ages.AgeRisesOnBirthdays | packages/shared/src/utils/dates.ts:34-40 | the age never falls, and rises by one exactly on the days that are birthdays |
| Ages.AgeInDays | packages/shared/src/utils/dates.ts:34-40 | 365 · age ≤ elapsed days < 366 · (age + 1) for everyone already born |
| Ages.IsAdult | packages/shared/src/utils/dates.ts:43-45 | true exactly from the eighteenth anniversary on, for real dates from the eighteenth birthday on |
| Ages.AdultStaysAdult | packages/shared/src/utils/dates.ts:43-45 | an adult is one on every later date `addDays` gives |
| Ages.AvailableDatesError | packages/shared/src/utils/dates.ts:51-63 | although it compares strings: null if and only if the list is at most 30 distinct real dates from today to 365 days ahead and, unless it is empty, the horizon has a four-digit year; otherwise, with such a horizon, the first error in terms of days, in the order of the code |
| Ages.LastYearIsRefused | packages/shared/src/utils/dates.ts:55-59 | on every day of the year 9999 that day is an acceptable date and the horizon has no four-digit year |
| Ages.NoErrorMeans | packages/shared/src/utils/dates.ts:56-60 | no error in the loop if and only if every entry is available |
| Ages.FirstErrorMeans | packages/shared/src/utils/dates.ts:56-60 | an error of the loop is deserved by the first entry that is not available: no real date, before today, or more than 365 days ahead |
| Ages.SetSizeCountsDistinct | packages/shared/src/utils/dates.ts:61 | the set is as large as the list if and only if the dates are distinct |
| SlidingWindow.SlidingWindowLimiter.constructor | apps/api/src/lib/sliding-window.ts:13-19 | a new limiter has no hits |
| SlidingWindow.SlidingWindowLimiter.Recent | apps/api/src/lib/sliding-window.ts:21-27 | the key's list is pruned to its live times and returned; other keys are untouched and empty lists removed |
| SlidingWindow.SlidingWindowLimiter.Take | apps/api/src/lib/sliding-window.ts:30-36 | a hit is recorded, at the second clock read, exactly when the live list is shorter than the limit |
| SlidingWindow.SlidingWindowLimiter.RetryAfterSeconds | apps/api/src/lib/sliding-window.ts:37-41 | the seconds until the oldest live hit expires, rounded up, at least 1, or 0 without one |
| SlidingWindow.StoredIsLive | apps/api/src/lib/sliding-window.ts:18-36 | over every run the stored list is the part of the full history that was live at the key's last call |
| SlidingWindow.StoredAgrees | apps/api/src/lib/sliding-window.ts:21-27 | from then on pruning the stored list or the full history gives the same, whatever the window |
| SlidingWindow.TakeIsAcceptedExactly | apps/api/src/lib/sliding-window.ts:30-36 | after every run a take is accepted if and only if fewer than `limit` hits of the key, of all ever accepted, lie in the window before it |
| SlidingWindow.NoEmptyLists | apps/api/src/lib/sliding-window.ts:24-25 | after every run the map holds no empty list |
| SlidingWindow.HitsAreSpaced | apps/api/src/lib/sliding-window.ts:30-36 | accepted hits of a key that are `limit` apart differ by at least the window, and no list outgrows the limit |
| SlidingWindow.WindowHoldsAtMostLimit | apps/api/src/lib/sliding-window.ts:1-8 | every window, wherever it starts, holds at most `limit` accepted hits |
| SlidingWindow.KeysAreIndependent | apps/api/src/lib/sliding-window.ts:18-27 | list and history of a key are those of the run with the other keys' calls left out |
| SlidingWindow.RetryAfterIsHonest | apps/api/src/lib/sliding-window.ts:37-41 | with nothing accepted in between, a take is accepted from the returned time on, refused until the oldest hit of a full list expires, and the returned time overshoots by less than a second unless it is the floor 1 |
| SlidingWindow.RetryIsZeroExactly | apps/api/src/lib/sliding-window.ts:37-41 | after every run the wait is 0 if and only if no hit ever accepted for the key lies in the window, and at least 1 otherwise |
| SlidingWindow.NoLimitNoHits | apps/api/src/lib/sliding-window.ts:30-41 | without a positive limit `retryAfterSeconds` is 0 after every run, and no hit is accepted at any time |
| SocketEvents.ChatSocket.constructor | apps/api/src/realtime/socket-server.ts:113-119 | a connection starts with its own empty limiter |
| SocketEvents.ChatSocket.Handle | apps/api/src/realtime/socket-server.ts:122-131 | an event without a callable acknowledgement is ignored, one over the limit is refused, any other waits for the session check |
| SocketEvents.ChatSocket.OnSessionChecked | apps/api/src/realtime/socket-server.ts:132-150 | `then`, `reply`, `fail` and the fall into `catch` make of the event what the step says: run on, answered once, or answered by both, and the connection ended only if the answer did not throw |
| SocketEvents.ChatSocket.OnRunSettled | apps/api/src/realtime/socket-server.ts:140-150 | the same for the end of the event's work: its result answered by `then`, its error or a throwing answer by `catch` |
| SocketEvents.StepKeepsInv | apps/api/src/realtime/socket-server.ts:122-151 | every callback, in any interleaving, keeps each event's answers what its progress allows, and the accepted events the limiter's accepted hits |
| SocketEvents.StepAnswers | apps/api/src/realtime/socket-server.ts:132-150 | one callback ends exactly the event whose work it is, and only a throw in `then` brings a second answer |
| SocketEvents.EventsAreAnswered | apps/api/src/realtime/socket-server.ts:121-151 | in every run an event that passes the limiter has no answer until its work ends, then one, and two if and only if the run has a callback at which its acknowledgement threw inside `then`; a refused event has one, an event without callable acknowledgement none; it runs only after the limiter and an active session |
| SocketEvents.AnswersFollowOutcomes | apps/api/src/realtime/socket-server.ts:132-150 | in every run the answers of an event are those of the callback that ended its work: its result, its error or the end of the session, and a general failure after that where the acknowledgement threw in `then` |
| SocketEvents.RunsAndEndsExactly | apps/api/src/realtime/socket-server.ts:133-141 | in every run an event runs if and only if its session check said active, and the connection is ended if and only if some check said inactive and the client could be told |
| SocketEvents.AtMost120EventsAMinute | apps/api/src/realtime/socket-server.ts:116-131 | in every run any minute contains at most 120 events that pass |
| SocketEvents.ThrowingCallbackIsAnsweredTwice | apps/api/src/realtime/socket-server.ts:134-149 | a run in which a callback that throws is called twice |
| Keyset.ConditionSelectsAfter | apps/api/src/lib/pagination.ts:93-110 | the condition holds of a row if and only if the ORDER BY puts it after the cursor's position, in both directions |
| Keyset.StrictTotalOrder | apps/api/src/lib/pagination.ts:104-110 | the ORDER BY leaves no ties between different rows |
| Keyset.SortedIsUnique | apps/api/src/lib/pagination.ts:104-110 | a table can be sorted in one way only |
| Keyset.PageIsFaithful | apps/api/src/modules/events/events.service.ts:82-117 | for every table a page is sorted and after the cursor; without a next cursor nothing is left, with one it is that of the page's last row, after which every other row after the cursor comes |
| Keyset.NextExactlyWhenMore | apps/api/src/modules/events/events.service.ts:107-117 | a next cursor is given if and only if a row after the cursor is not on the page, so not on a last page that is just full |
| Keyset.TraversalIsFaithful | apps/api/src/lib/pagination.ts:92-119 | whatever is inserted and deleted between fetches, while the rows at which pages end are exact, the rows come strictly ordered, each from a table that held it, and a completed traversal has every row that was there throughout |
| Keyset.ExactTables | apps/api/src/lib/pagination.ts:112-119 | they are exact for all texts and for all tables of whole milliseconds |
| Keyset.FixedTableCompletes | apps/api/src/lib/pagination.ts:92-119 | on a fixed table, with such rows, `n` pages complete the traversal if and only if the rows to come fit on them, and at least one page is fetched |
| Keyset.FixedTableIsEnumerated | apps/api/src/lib/pagination.ts:92-119 | on a fixed table, with such rows, as many pages as its rows fill are the whole sorted table |
| Keyset.CursorIsRightExactlyWhenExact | apps/api/src/lib/pagination.ts:112-119 | the cursor of a row selects the rows after it in every table if and only if its value is exact in whole milliseconds |
| Keyset.FractionsRepeatThePage | apps/api/src/lib/pagination.ts:112-119 | a table whose second page is the first one again |
| Like.MatchOfConcat | apps/api/src/lib/sql.ts:1-4 | a pattern without dangling escape, followed by another, matches exactly the texts that split into a match of each (LIKE of ISO/IEC 9075-2 section 8.5) |
| Like.EscapedMatchesItself | apps/api/src/lib/sql.ts:1-4 | escaped text matches itself and nothing else |
| Like.EscapedTextIsLiteral | apps/api/src/lib/sql.ts:1-4 | between any two patterns escaped text matches exactly the occurrences of the text itself |
| Like.ContainsSearch | apps/api/src/lib/sql.ts:1-4 | `%` + escaped text + `%` is "contains the text" |
| Like.FoldedEscape | apps/api/src/lib/sql.ts:1-4 | escaping and case folding commute, also where folding a character gives several |
| Like.ContainsSearchIgnoringCase | apps/api/src/modules/admin/organizers/admin-organizers.service.ts:145 | the ILIKE searches are "contains the text, whatever the case" |
| Matches.TextOrderIsByteOrder | apps/api/src/models/match.model.ts:89-92 | string order of lowercase UUID texts is byte order, and texts are equal only for equal UUIDs |
| Matches.ParseUndoesTextOf | apps/api/src/models/match.model.ts:93-95 | a text reads as a UUID if and only if its lowercase form is that UUID's text |
| Matches.CanonicalPairIsUnordered | apps/api/src/models/match.model.ts:93-96 | two pairs are equal if and only if the members are, in either order and any letter case |
| Matches.CanonicalPairIsOrdered | apps/api/src/models/match.model.ts:89-96 | the pair keeps the two members, the smaller first by bytes, strictly if and only if they differ |
| Matches.RunKeepsGuarded | apps/api/src/migrations/20260929120100-create-matches.ts:28-35 | every run of inserts, status changes and deletions keeps the rows canonical and the active keys distinct |
| Matches.OneActiveMatchPerPair | apps/api/src/migrations/20260929120100-create-matches.ts:10-12 | no run leaves two active matches between the same two members, in whichever order |
| Matches.CreateStoresExactlyWhenFree | apps/api/src/models/match.model.ts:93-96 | after any run, a match created through `canonicalPair` is stored if and only if the members differ and have no active match, and nothing else changes |
| Matches.EndingFreesThePair | apps/api/src/migrations/20260929120100-create-matches.ts:28-35 | after any run a pair with an active match cannot match again, and can once that match has ended |
| Matches.SelfPairIsRefused | apps/api/src/models/match.model.ts:93-96 | after any run, a match of a member with itself changes nothing |
| Matches.LookupFindsEitherOrder | apps/api/src/modules/interests/connections.ts:56-60 | after any run, looking up by `canonicalPair` finds exactly the pair's active match |
| Paragraphs.OutputIsNormal | packages/shared/src/schemas/event.schema.ts:80-87 | the output has no unwanted character, no doubled space, no white space beside a break, no three breaks in a row and no outer white space; it is no longer than the normalised input and has its visible characters in order, and those of the input itself where NFKC changes nothing |
| Paragraphs.OutputIsStable | packages/shared/src/schemas/event.schema.ts:81-87 | the stages after normalisation keep the text normalised |
| Paragraphs.SpacingIsKept | packages/shared/src/schemas/event.schema.ts:82-87 | words of the normalised text that stand apart still do, and the breaks between any two, `\r\n`, `\r` and `\n` being one each, are none, one or two as they were none, one, or more |
| Paragraphs.UnifyBreaksReads | packages/shared/src/schemas/event.schema.ts:82 | a carriage return right before a line feed counts for nothing, any other is a break, and nothing else changes |
| Paragraphs.TidyLinesKeepTokens | packages/shared/src/schemas/event.schema.ts:83-85 | tidying each line changes no word, no gap between words and no number of breaks |
| Paragraphs.NormalFormsAreFixed | packages/shared/src/schemas/event.schema.ts:80-87 | the pipeline leaves a text alone if and only if it is normalised and in that form |
| Paragraphs.ParagraphsIsIdempotent | packages/shared/src/schemas/event.schema.ts:80-87 | applying the pipeline again changes nothing, for every text |
| Paragraphs.Stripped | packages/shared/src/utils/text.ts:76-95 | no invisible character remains, and nothing visible is lost |
| Paragraphs.InvisibleMeans | packages/shared/src/utils/text.ts:75-85 | what is invisible: control characters save tab and line ends, zero-width characters and direction marks, separators, direction overrides, joiners and the byte order mark |
| Paragraphs.BreaksCollapse | packages/shared/src/schemas/event.schema.ts:86 | collapsing breaks leaves no three in a row and keeps the spacing |
| RedactUrl.SearchParams.Set | apps/api/src/lib/logger.ts:52 | walking the list, overwriting the first parameter of the name and removing later ones, or appending a new name, is what the URL Standard, section 6.2, says of the whole list |
| RedactUrl.SetMasksOneMore | apps/api/src/lib/logger.ts:50-55 | setting one more sensitive key masks that key too and disturbs nothing else |
| RedactUrl.RedactParams | apps/api/src/lib/logger.ts:49-55 | the loop leaves the list with all sensitive keys masked, and `changed` says whether there was one |
| RedactUrl.RedactUrl | apps/api/src/lib/logger.ts:44-57 | the logged URL is the path with the masked list serialised, or the URL itself without query or sensitive key |
| RedactUrl.ValuesOfRedacted | apps/api/src/lib/logger.ts:50-55 | a sensitive name is left exactly once, as `[REDACTED]`; every other name keeps its values in order |
| RedactUrl.RedactedIsMaskedSubsequence | apps/api/src/lib/logger.ts:50-55 | what is left stands in the original order: sensitive keys at their first position, all other pairs in place |
| RedactUrl.RedactedHoldsSecret | apps/api/src/lib/logger.ts:50-56 | without a sensitive key the list is unchanged |
| RedactUrl.RedactedIsIdempotent | apps/api/src/lib/logger.ts:50-55 | masking a masked list changes nothing |
| RedactUrl.LoggedIsIdempotent | apps/api/src/lib/logger.ts:44-57 | the logged query decodes to the masked list, and logging a logged URL gives it again |
| RedactUrl.HarmlessIsLoggedUnchanged | apps/api/src/lib/logger.ts:45-56 | a URL without a query, or without `q`, `phone`, `code` and `token` in it, is logged as it is |
| RedactUrl.SecretIsMasked | apps/api/src/lib/logger.ts:48-56 | any other is logged as its path and the masked list |
| RedactUrl.SecretsDoNotShow | apps/api/src/lib/logger.ts:40-57 | lists that differ in sensitive values alone are masked alike |
| RedactUrl.LoggedHidesSecrets | apps/api/src/lib/logger.ts:40-57 | two requests that differ in sensitive values alone leave the same line in the log |

## Left out

- Refresh: random tokens are numbers never issued before, and a token stands for its hash; user agent, address and activity fields are not modelled.
- Refresh: closing a tab is not a step of its own; for the other tabs its request is lost, its reply is lost, or the request is abandoned and may reach the server later (`Abandon`, `ServeAbandoned`), and a flight still waiting for the lock is one whose request is lost as soon as it is sent.
- Refresh: the admin server's own session rules (idle timeout) are not modelled; both clients are paired with the member server.
- Refresh: the controller also clears the cookie when the service fails for another reason than a refusal, a database error for one (`apps/api/src/modules/auth/auth.controller.ts:51-56`); that takes a `ClearCookie` step of its own.
- Refresh: logging in and out also sets the access token in memory; the model names access tokens by the flight that brought them.
- Refresh: bodies, headers, abort signals, error codes and the file that `apiDownload` returns.
- RefreshRuns.RefreshIsSafe: says nothing about a token whose reply was lost or that came late, because the browser then presents it again; `LostReplyRevokesSession` shows the consequence.
- AadhaarScan: scanning is modelled for these two patterns' constructs only, and characters are Unicode scalar values instead of UTF-16 code units.
- Dates.AddDays: `addDays` of a text that is no real date is left to the engine by ECMA-262 and is not modelled.
- Dates: `todayInIndia` and time zones; today is an input.
- Ages.CalculateAge: texts that are not of the form YYYY-MM-DD, which the source demands of its callers; `Number` makes nothing of them.
- Ages.IsAdult: the same.
- SlidingWindow: clocks that run backwards; each call reads two times that never decrease along a run.
- SocketEvents: the handshake, the payloads and `chat` itself; the session check and the event's work are outcomes that arrive at any time.
- Keyset.TraversalIsFaithful: is about traversals whose pages end at values that a cursor holds exactly, because it is false of others, as `FractionsRepeatThePage` shows.
- Keyset.FixedTableCompletes: the same.
- Keyset.FixedTableIsEnumerated: the same.
- Keyset: the JSON and base64url form of cursors and its error cases; collations, so that text values are compared as their ranks in the database's order; a limit below 1, which callers clamp.
- Like.ContainsSearchIgnoringCase: case folding is any function from characters to texts that leaves the special ones alone; foldings that depend on neighbouring characters are not modelled.
- Matches: the other columns and constraints of the table, and the locks that the services take beside its guards; UUID spellings other than the hyphenated one.
- Paragraphs: NFKC itself; the pipeline is proved for every normalisation that keeps normalised text and invisible characters as they are, and whose normalised texts can be cut anywhere and joined by a space or a break. Length limits and the search for contact data come after the pipeline.
- Paragraphs.OutputIsNormal: does not say that a text which NFKC changes comes out no longer than it went in, because NFKC can lengthen a text.
- RedactUrl: parsing and serialising query strings are two functions of which `LoggedIsIdempotent` needs that parsing undoes serialising.
- The payment, order, interest, sanction and chat services, models, other migrations, middleware and all user interface code: transactions around library calls, declarations and layout.
- Role tables, error codes, profile completion and the money and contact patterns: finite tables and heuristics without a specification of their own.
