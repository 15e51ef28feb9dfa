# DidiCafe captive portal: a verified model

DidiCafe sells time-limited WiFi. A paid code is a *token*; redeeming it opens a *session* row
for a device's (MAC, IP) *pair* and puts that pair into a *firewall* set with a timeout. Tokens,
rows and firewall are three stores that are not updated atomically, while time passes and
firewall calls fail. This project models that protocol, the views computed from the tables, and
the smaller stores and codecs around it, and proves what holds over whole runs.

`dafny verify dfyconfig.toml` checks everything.

## How it is organised

| file | contents |
|---|---|
| `Clock.dfy`, `TextTime.dfy` | milliseconds, stored seconds, remaining seconds; the stored text, the calendar, text order and parsing |
| `Store.dfy` | the three tables; every SQL statement as a function on them |
| `Protocol.dfy` | whole handlers on a `World`, the steps, and runs (`Next`, `Run`) |
| `Invariants.dfy`, `Evolution.dfy` | the inductive invariant; what a step can do to old rows, tokens and grants |
| `Entitlement.dfy`, `Agreement.dfy`, `Outcomes.dfy` | paid time, finality, status order; firewall and table agree; what handlers achieve |
| `Recovery.dfy` | the cleanup and the restart loop, row by row, and their closed forms |
| `Stats.dfy`, `Views.dfy` | daily and weekly statistics and the purge; status endpoints, effective status, filters, pages |
| `Witnesses.dfy` | concrete runs where a property stops |
| `Interleaving.dfy`, `Granularity.dfy` | handlers interleaved at every await, any call failing; run alone they do what the whole handlers do |
| `Service.dfy` | the service in place: classes whose methods refine `Store`, `Protocol` and `Recovery` |
| `RateLimit.dfy`, `CsrfStore.dfy` | two pruned, shared in-memory stores against unpruned per-client histories |
| `TokenCode.dfy`, `Cidr.dfy` | code generator, validator and browser formatter; CIDR masks |
| `Basics.dfy`, `Devices.dfy` | options, least and greatest elements; two clients for the concrete runs |

Modelling choices. Time is in milliseconds; stored times are whole seconds since the start of year
0, and `TextTime` shows that their text orders and parses the same way. The outcome of a firewall
call is an input; a failed call leaves the set unchanged. An authorise call sets the deadline of its
pair, and the set drops a pair when its deadline has come (`TickMeans`). Each handler reads the
clock once. In `Protocol` a handler is one step and its database writes succeed; in `Interleaving`
every call is a step of its own and may fail. `grants`, `entitled` and `newest` are history
variables; `grants` collects the authorise calls of each step (`GrantsAreAuthorised`). The
configuration does not exclude a negative grace: the results on tables, status, finality, agreement
and statistics hold for any grace, those on deadlines for exactly the non-negative ones
(`SafeGraces`).

## What the proofs show about the code

* The cleanup test compares a remaining time that is clamped at zero with the negated grace
  (`src/services/session.rs:171`, `src/db/models.rs:179`). With a positive grace, as shipped, the
  loop never expires anything, against `docs/DESIGN.md:801`: rows and tokens become expired only
  when the service restarts (`CleanupMeetsItsDocumentation`, `OnlyRestartsExpire`,
  `OverdueRowStaysActive`).
* A failed authorise call costs nothing at a first redemption, as promised, and the whole rest of
  the token at a migration (`FailedAuthoriseCosts`).
* Disconnecting a closed row can shut out a device that has paid: exactly when an open row uses
  the same pair (`NextAgrees`, `StaleDisconnectLocksOut`).
* The configuration accepts retentions from one day; exactly with those of a week or more do the
  statistics never show that purges happen (`SafeRetentions`).
* It accepts a negative grace, with which a restart authorises expired rows anew (`SafeGraces`).
* It accepts any charset; exactly the ASCII ones produce only codes the validator accepts
  (`EveryCodeAccepted`).
* How long bans must be for a window to hold no more than the configured number of allowed
  attempts depends on the thresholds: any length when the first attempt starts a ban, half the
  window when both thresholds are two, the whole window otherwise (`WindowBoundExactly`). The
  configuration asks for none of this.
* A form token of exactly ten minutes' age is refused if another client has drawn one at that same
  instant, and accepted otherwise (`Replay` and `LimitIsReached` in `CsrfStore`).
* One active row per MAC holds under every interleaving (`LookupIsNewest`). One per token holds
  exactly while no insert meets an active row of its token on another device
  (`OnePerTokenExactly`), which callers get by not overlapping the submissions of a token and not
  losing a redeem (`ApartSubmissionsKeepOnePerToken`); without either it fails
  (`InterleavedSubmissions`, `LostRedeem`).
* `docs/DESIGN.md` says that a new MAC needs a new token; the code migrates the session, and the
  model follows the code.

## Model

| member | source | states |
|---|---|---|
| Clock.LivenessGap | src/db/models.rs:171-180 | SQL liveness and a positive remaining time agree except exactly in the last second before expiry, and remaining time never calls a dead row alive |
| TextTime.TextOrderIsChronological | src/db/mod.rs:84-99 | stored date-time texts of the years 0 to 9999 compare as text exactly as the instants they stand for, and are equal only for equal instants |
| TextTime.TextRoundTrip | src/services/session.rs:24-25 | a time formatted for the database parses back to itself |
| TextTime.DateComparison | src/db/mod.rs:612 | comparing a full time with a ten-character date means from midnight on, and the date prefix means that day |
| TextTime.TextAndParsedTimeAgree | src/db/models.rs:171-180 | the SQL text comparison means the expiry lies in the future, the parsed time means at least a second is left, and they differ exactly in between |
| TextTime.SecondsCounted | src/db/models.rs:171-180 | a stored time is the second that the Gregorian calendar makes it, by closed-form counts of leap years and month lengths |
| TextTime.TextExample | src/services/session.rs:25 | the layout of the stored text, on one time |
| Invariants.InsertRedeemKeeps | src/services/session.rs:34-41 | insert followed by redeem keeps all table invariants, although the insert alone never does |
| Invariants.MoveKeeps | src/services/session.rs:117-131 | closing a token's row and inserting its successor keeps all table invariants |
| Invariants.PurgeKeeps | src/db/mod.rs:451-473 | a purge keeps all table invariants, so no row is left with a deleted token, and deletes only expired or revoked tokens |
| Invariants.NextKeepsDb | src/services/session.rs:17-195 | every step keeps, for any configuration: one active row per MAC and per token, rows carry their token's expiry, active rows belong to active tokens, unused and revoked tokens have no rows |
| Invariants.NextKeeps | src/services/session.rs:17-195 | a step keeps besides, that every grant lies within a second of its token's expiry and every firewall pair is backed by an unexpired grant, if and only if it restores no row without a second left |
| Invariants.RunKeepsTables | src/services/session.rs:17-195 | tables and entitlements stay consistent over every run, for any configuration |
| Invariants.RunKeeps | src/main.rs:92-98 | a run keeps the whole invariant throughout if and only if no restart in it restores such a row, as none does with a non-negative grace |
| Entitlement.EntitlementNeverGrows | src/services/session.rs:99-131 | whatever migrations, restarts and failures follow, a token keeps the expiry of its redemption, on all its rows, and with a non-negative grace every deadline granted for it stays strictly within one second of it |
| Entitlement.FirewallIsPaidFor | src/services/session.rs:24-41 | under the invariant every firewall pair traces to a token and is gone less than a second after that token's expiry, at most a day and a second after its redemption |
| Witnesses.SafeGraces | src/main.rs:92-98 | every run keeps the whole invariant, and every run lets through only what is paid for, if and only if the grace is not negative |
| Entitlement.NextMoves | src/db/mod.rs:269-287 | a step moves a token status by one arrow of Unused, Active, Expired or Unused, Revoked, and deletes only used or revoked tokens that no row refers to |
| Entitlement.StatusNeverReturns | src/db/mod.rs:269-287 | over whole runs no token status ever moves backwards |
| Entitlement.RemovedForever | src/db/mod.rs:463-471 | a purged token's id never comes back in any continuation |
| Entitlement.WhoCanReturn | src/web/portal.rs:247-321 | some continuation opens a session for a token if and only if it is unused or has an active row with a second left |
| Entitlement.DisconnectIsFinal | src/services/session.rs:54-69 | after the administrator disconnects a token's active row, no step of any continuation inserts a row or authorises a pair for that token, not even a pair and deadline it had before |
| Entitlement.FailedMigrationIsFinal | src/services/session.rs:117-125 | a migration whose authorise call fails is as final as a disconnect |
| Entitlement.FailedAuthoriseCosts | src/services/session.rs:28-32 | after a failed authorise call some continuation still opens a session for the token if and only if it was its first redemption |
| Entitlement.RevokeIsFinal | src/db/mod.rs:362-368 | revoking an unused token ends it for every continuation and touches nothing else; revoking any other does nothing |
| Entitlement.CreatedIsUsable | src/services/token.rs:76-81 | a new token has an id never used before, leaves the others alone and can connect; one of a missing plan is not stored |
| Entitlement.SaveMeans | src/web/admin.rs:606-612 | a plan within the bounds is stored and no other plan, token, row or expiry changes; any other input changes nothing |
| Evolution.NextRows | src/db/mod.rs:381-447 | no step changes an old row but to close or remove it, and new rows belong to the submitted token |
| Evolution.UnusableAuth | src/web/portal.rs:252-304 | a code that is not usable changes nothing in any store |
| Outcomes.ConnectsExactly | src/web/portal.rs:247-321 | a submission connects if and only if its token is usable and the firewall accepts the pair |
| Outcomes.AnswersExactly | src/web/portal.rs:247-321 | each answer a submission can get is equivalent to a condition on the stored token and its active row, and without a connection or a firewall failure nothing changes |
| Outcomes.ConnectedChanges | src/db/mod.rs:381-411 | connecting redeems a fresh token for its plan's duration from now, closes exactly the other active rows of the device and of the token, and changes nothing else in the tables |
| Outcomes.RedemptionLeavesOthers | src/services/session.rs:28-31 | a first redemption sets its own pair's deadline to the plan's duration from now and touches no other pair |
| Outcomes.FailureLeaves | src/services/session.rs:104-125 | after a failed authorise call a first redemption has changed nothing, and a migration has closed the old row and, if that call succeeded, taken out its pair |
| Outcomes.DisconnectMeans | src/services/session.rs:54-69 | a disconnect succeeds exactly for an existing row and an answering firewall, then closes that row, takes out that pair and changes no more; otherwise it changes nothing at all |
| Outcomes.ConnectedMeans | src/services/session.rs:24-41 | once connected, the new row is the only active row of device and token, served by the firewall, and expires after the plan's duration or at the token's old expiry |
| Outcomes.MigrationLeavesOldPair | src/services/session.rs:104-131 | a migration shuts out the old pair exactly unless it is the new pair or the deauthorise call failed, and touches no third pair |
| Agreement.NextAgrees | src/services/session.rs:17-195 | from agreement (every active row with a second left is let through until within a second of its expiry) a step keeps agreement if and only if it respects its guard |
| Agreement.DisconnectAgrees | src/services/session.rs:54-69 | a disconnect keeps agreement if and only if no other open row uses the pair |
| Agreement.BootAgrees | src/main.rs:85-124 | a restart keeps agreement if and only if every row it keeps active but fails to restore has a pair that survived in the set |
| Agreement.RunAgrees | src/services/session.rs:17-195 | a run is in agreement throughout if and only if each of its steps respects its guard |
| Agreement.CarefulRunAgrees | src/services/session.rs:17-195 | every run whose disconnects name active rows and whose restores succeed ends in agreement, whichever other firewall calls fail |
| Recovery.CleanupAnyOrder | src/services/session.rs:166-195 | with the coded or the documented test, the cleanup loop gives the closed-form result for every order of the queried rows |
| Recovery.DocumentedCleanup | src/services/session.rs:166-195 | on an unclamped remaining time the loop, in any order of the rows, expires exactly the active rows at least the grace past expiry whose call succeeds, each with its token and pair, and nothing else |
| Recovery.CleanupNeverExpires | src/services/session.rs:170-171 | with the clamp and a positive grace the loop changes nothing |
| Recovery.CleanupMeetsItsDocumentation | src/services/session.rs:170-171 | the coded and the documented loop agree, for any orders of the rows, if and only if the grace is not positive or every overdue row's call fails |
| Witnesses.OverdueRowStaysActive | src/services/session.rs:170-192 | for every positive grace a reachable state whose one overdue row the documented loop expires and the coded round leaves active |
| Recovery.OnlyRestartsExpire | src/services/session.rs:170-192 | with a positive grace, from any state, every row and token expired after a run without a restart was expired before it |
| Recovery.RecoverAnyOrder | src/main.rs:92-120 | the recovery loop gives the closed-form result for every order of the queried rows |
| Recovery.RecoveryReestablishes | src/main.rs:85-124 | from an emptied firewall the loop, in any order of the rows, lets through exactly the pairs of active rows with more time than the grace, with their remaining time, expires the other active rows with their tokens, and changes no other row or token; the purge after it removes no active row |
| Recovery.RecoveryIdempotent | src/main.rs:85-136 | repeating a recovery at the same instant changes nothing at all |
| Recovery.PurgeMeans | src/db/mod.rs:451-473 | a purge removes exactly the closed rows started the retention ago and the expired or revoked tokens without a remaining row, and changes nothing it leaves |
| Recovery.ShippedRound | src/services/session.rs:160-228 | with a positive grace a round of the ticker is a purge when an hour has passed since the last, and nothing else |
| Stats.WeekShape | src/db/mod.rs:647-666 | the weekly query yields exactly seven consecutive days ending today |
| Stats.WeekConserves | src/db/mod.rs:647-666 | every token sold in the window falls on exactly one of the days, and counts and revenue add up to the window's totals |
| Stats.StatsMean | src/db/mod.rs:609-679 | each count is the number of tokens sold, or of sessions live, in its span of seconds, and today is the day the clock is in |
| Stats.SaleCounts | src/db/mod.rs:609-679 | a first redemption adds one and its plan's price to today, in both statistics, and nothing to any other day |
| Stats.SaleLives | src/db/mod.rs:617-621 | after a sale the live sessions are its own and those of other devices |
| Stats.OnlySalesCount | src/db/mod.rs:609-679 | no other step changes a day's count, nor its revenue unless it overwrites a plan |
| Stats.WeekIsTheSales | src/db/mod.rs:647-679 | after any run with a retention of a week or more, each day of the week shows exactly the sales made on it and, no plan being overwritten, what they brought |
| Stats.ReachableLastDay | src/db/mod.rs:609-679 | at every reachable state the last day of the week equals the daily statistics although one compares texts and the other days |
| Stats.NextRetains | src/db/mod.rs:451-473 | every step keeps: a redeemed token has its original row until that row is older than the retention |
| Stats.RunInStep | src/db/mod.rs:451-473 | with a retention of a week or more a run and the same run without purges differ, at every instant, only by closed rows and by finished tokens sold before the week |
| Stats.PurgesGoUnnoticed | src/db/mod.rs:451-473 | so at every reachable state daily and weekly statistics are those of the run that never purged |
| Witnesses.SafeRetentions | src/config.rs:473-477 | all runs show the statistics of their unpurged counterparts if and only if the retention is at least seven days, each handler reading the clock once |
| Witnesses.ShortRetentionLosesASale | src/config.rs:473-477 | a concrete run in which a retention of one to six days drops a sale from the week that the unpurged run shows |
| Witnesses.StaleDisconnectLocksOut | src/services/session.rs:54-65 | a concrete run in which disconnecting a displaced row shuts out a device with a paid hour left |
| Views.EndpointsAgree | src/web/captive.rs:93-108 | portal status and the captive API (section 5 of RFC 8908) agree, and say connected exactly when the device has an active row with a second left, never for a row SQL calls dead |
| Views.ConnectedIsLetThrough | src/web/portal.rs:439-451 | a device told it is connected is in the firewall, with a deadline within two seconds of the time it is shown |
| Views.FiltersPartition | src/db/mod.rs:34-74 | a token is under exactly the filter of its effective status unless active without expiry; current is unused or active; every list shows the effective status |
| Views.FiltersMean | src/db/mod.rs:34-74 | what each filter lists, in terms of the stored status and whether the expiry lies ahead; unknown words list nothing |
| Views.OpenIsListedActive | src/db/mod.rs:34-74 | a token with a second left on its active row shows as active, under active and current, and not under expired |
| Views.FiltersCover | src/db/mod.rs:34-74 | in reachable states every token is under the filter of its effective status |
| Views.CountIsLength | src/db/mod.rs:315-360 | each count, which does not join, equals the length of its list, which does, and the list holds exactly the matching tokens |
| Views.SelectKeepsOrder | src/db/mod.rs:34-74 | the list keeps the order of the table |
| Views.PagesCover | src/db/mod.rs:320-360 | pages one to the last concatenate to the whole list |
| Views.NextPageExists | src/db/models.rs:221-235 | a page has a next one if and only if that page is not empty |
| Views.BrowsingCovers | src/db/mod.rs:315-360 | following the pages, whose number comes from the count query, shows each matching token exactly once, and a page offers a next one exactly when that request returns tokens |
| Interleaving.ProceedKeeps | src/db/mod.rs:381-447 | every single call of every handler keeps a MAC's active row its last inserted one, and closed rows closed |
| Interleaving.FailedCall | src/services/session.rs:17-195 | a failed call changes nothing; a request then returns, except at the ignored deauthorise of a migration, and a loop goes on with its next row |
| Interleaving.LookupIsNewest | src/db/mod.rs:95-99 | under every interleaving and failure pattern a MAC has at most one active row, and the lookup by MAC returns the last row inserted for it |
| Interleaving.NoRevival | src/db/mod.rs:433-447 | under every interleaving a row that is not active never becomes active |
| Interleaving.ProceedOnePerToken | src/db/mod.rs:381-411 | one call keeps one active row per token if and only if it does not insert a row while the token has an active row on another device |
| Interleaving.OnePerTokenExactly | src/web/portal.rs:247-304 | a run of interleaved, failing handlers keeps one active row per token throughout if and only if each of its inserts respects that guard |
| Interleaving.ApartSubmissionsKeepOnePerToken | src/services/session.rs:17-143 | it does when submissions of one token do not overlap and no redeem after an insert is lost, whatever else interleaves or fails |
| Interleaving.InterleavedSubmissions | src/web/portal.rs:247-262 | two overlapping submissions of one unused token, with no call failing, leave it with two active rows |
| Interleaving.LostRedeem | src/services/session.rs:34-41 | a failed redeem write followed by a submission from another device does the same without any overlap |
| Granularity.AuthAlone | src/web/portal.rs:247-321 | a submission that runs call by call without interruption leaves tables and firewall as the whole handler does, whichever firewall calls fail |
| Granularity.DisconnectAlone | src/services/session.rs:54-69 | so does a disconnect |
| Granularity.CleanupAlone | src/services/session.rs:166-195 | so does a cleanup pass, for any order of the rows and any failing calls |
| Granularity.RecoverAlone | src/main.rs:92-120 | so does the restart loop |
| Granularity.PurgeAlone | src/db/mod.rs:451-473 | so does a purge |
| Granularity.RevokeAlone | src/db/mod.rs:362-368 | so does a revocation |
| Granularity.CreateTokenAlone | src/services/token.rs:76-81 | so does storing a token |
| Service.Database.CreateSession | src/db/mod.rs:381-411 | the insert transaction displaces the MAC's active rows and inserts, or rolls back when the token is missing |
| Service.Database.PurgeExpiredSessions | src/db/mod.rs:451-473 | the two deletes, and the count of removed rows |
| Service.Database.GetActiveSessions | src/db/mod.rs:416-421 | lists each active row exactly once, in any order |
| Service.AppState.PortalAuth | src/web/portal.rs:247-321 | the calls in their order do what the handler does to a world; from consistent tables they connect exactly a usable token on an accepting firewall, and they keep tables, invariant and agreement |
| Service.AppState.Disconnect | src/services/session.rs:54-69 | the firewall is asked first: a failed call changes nothing, a successful one is followed by closing the row; tables and invariant are kept, and agreement exactly when no other open row uses the pair |
| Service.AppState.CleanupRound | src/services/session.rs:166-228 | the loop over the queried rows equals the closed-form pass, followed by the purge when an hour has passed |
| Service.AppState.Recover | src/main.rs:85-136 | the loop equals the closed-form recovery followed by a purge, and its two counters count the restored and the expired rows |
| RateLimit.RateLimiter.CheckAndRecord | src/services/rate_limit.rs:54-121 | rules exactly as the full history of the address since its last ban demands, and changes no other address's history |
| RateLimit.Replay | src/services/rate_limit.rs:54-121 | for every sequence of calls at nondecreasing times each verdict is the specification's on the calling address's own calls, so pruning, sweep and other addresses are unobservable |
| RateLimit.RateLimiter.RecentAttempts | src/services/rate_limit.rs:89-97 | the stored list with this attempt is what the whole history shows in the window and is short enough for the 32-bit count to be exact |
| RateLimit.VerdictByCount | src/services/rate_limit.rs:89-120 | an address not banned before is allowed, throttled or banned exactly by the number of its own calls in the window, this one included |
| RateLimit.VerdictAfterBan | src/services/rate_limit.rs:89-120 | after a ban the same holds, counting its calls from the ban's end on |
| RateLimit.BanLastsExactly | src/services/rate_limit.rs:57-113 | in every sequence of calls at nondecreasing times, each later call of a banned address before the ban's end is banned with the seconds left and leaves the ban as it was, and each from the end on is ruled as if the calls had begun at the end |
| RateLimit.SlidingWindowBound | src/services/rate_limit.rs:89-120 | if bans are at least as long as the window, no half-open window holds more than the configured number of allowed attempts |
| RateLimit.WindowBoundExactly | src/config.rs:450-466 | for every accepted configuration the bound holds for all call sequences if and only if bans are long enough: of any length when the first attempt starts a ban, half the window when both thresholds are two, the whole window otherwise |
| CsrfStore.PortalCsrfStore.GetOrGenerate | src/services/csrf.rs:64-80 | returns the outstanding token while younger than the TTL, else a new one |
| CsrfStore.PortalCsrfStore.Validate | src/services/csrf.rs:85-96 | consumes the token whatever the outcome, and accepts exactly a right token within its TTL that the last draw has not pruned |
| CsrfStore.Replay | src/services/csrf.rs:38-96 | for every sequence of operations at nondecreasing times each answer is that of the client's own unpruned history, except that a right token is refused exactly when its age is the TTL and a token was drawn for another client at that instant |
| CsrfStore.AcceptedExactly | src/services/csrf.rs:85-96 | a submission is accepted if and only if exactly that token was issued to the client at most its TTL ago, has not been replaced or consumed since, and is not pruned at the end of its TTL |
| CsrfStore.IssuedExactly | src/services/csrf.rs:38-80 | a generation returns what it draws; asking returns the standing token while it is younger than its TTL, else what it draws |
| CsrfStore.DrawsExactly | src/services/csrf.rs:64-80 | a request draws exactly when it is a generation, or asks while no token younger than its TTL stands |
| CsrfStore.SameClient | src/services/csrf.rs:48 | clients are told apart by their address up to the case of letters |
| CsrfStore.LimitIsReached | src/services/csrf.rs:43-45 | three operations in which that refusal happens |
| CsrfStore.SameTokenWhenAskedAgain | src/services/csrf.rs:57-80 | within the TTL asking again returns the same token until a validation, generation or store on that key |
| CsrfStore.OneTimeUse | src/services/csrf.rs:85-96 | after any validation, right or wrong, all later ones on the key fail until a new token |
| TokenCode.ValidatorAcceptsTheLanguage | src/services/token.rs:11-44 | for an ASCII charset the validator, which checks lengths and the dash on bytes, accepts exactly the generator's codes |
| TokenCode.GeneratedAccepted | src/services/token.rs:62-74 | a generated code is accepted if and only if its random characters are ASCII |
| TokenCode.EveryCodeAccepted | src/config.rs:436-448 | every generated code is accepted if and only if the charset is ASCII |
| TokenCode.DrawPart | src/services/token.rs:65-70 | a drawn part has the configured half length and only charset characters, those drawn |
| TokenCode.StoreCodes | src/services/token.rs:76-81 | a batch is stored if and only if all its codes are new; at the first duplicate the loop stops and keeps what it stored |
| TokenCode.FormatInput | static/portal.js:23-33 | the input loop computes the formatted text |
| TokenCode.FormatIdempotent | static/portal.js:23-33 | formatting is idempotent on all strings |
| TokenCode.TypingFormatsToCode | static/portal.js:23-33 | typing formats to a code if and only if its first twelve letters and digits, upper-cased, are the code's |
| TokenCode.TypedCodeValidates | src/web/portal.rs:225-229 | any re-cased or re-separated typing of a generated code reaches the server as that code and validates |
| TokenCode.NormalizedExactly | src/web/portal.rs:225 | the server reads a text as a code if and only if it is that code in any case, between blanks |
| TokenCode.TypedWithoutScript | src/web/portal.rs:225-229 | so a blank-padded, re-cased code typed without the script validates |
| TokenCode.SeparatorsIgnored | static/portal.js:24 | whatever is neither letter nor digit may stand anywhere in the input |
| TokenCode.CaseIgnored | static/portal.js:24 | letters may be typed in either case |
| TokenCode.FormatShows | static/portal.js:27-31 | while a code is typed the input shows it with its dashes |
| TokenCode.SurplusDropped | static/portal.js:25 | what follows the twelfth letter or digit is dropped |
| Cidr.MaskIsDivision | src/config.rs:310-336 | for any word width the mask test means equality after division by the block size, and no shift reaches the width |
| Cidr.BlockIsInterval | src/config.rs:310-336 | a block is an interval of its size, aligned to its size (section 3.1 of RFC 4632, section 2.3 of RFC 4291) |
| Cidr.NestedOrDisjoint | src/config.rs:310-336 | two blocks of one family are nested, exactly when the longer one's network lies in the shorter, or disjoint |
| Cidr.LongerPrefixIsSubset | src/config.rs:310-336 | a longer prefix of the same network is a subset |
| Cidr.IpInCidrMeaning | src/config.rs:298-336 | the test as called, with malformed text, oversized prefixes and mixed families matching nothing |

## Left out

- HTTP routing, middleware, cookies, templates, styles, translations, dashboard and countdown scripts: user interface and plumbing.
- TLS, connection loops, task spawning, logging and the audit log: input and output with no state property.
- The `nft` command and ARP lookups: only a map with deadlines whose calls may fail is kept. `NftablesController::deauthorize_client` swallows failures of the command; a success in the model means that the pair is gone.
- nftables' treatment of a timeout of zero and of re-adding an element: an authorise call sets the deadline.
- The administrator's seven-day authorisation at login: it puts pairs into the firewall that no token owns.
- Database write failures in whole handlers: a failed redeem after the insert leaves an active row on an unused token; failures of every call are in `Interleaving` only.
- Threads inside the rate limiter and the form token store: calls are atomic; both release locks between phases.
- SQL engine, WAL, pooling: a statement or a transaction is one atomic function; `ORDER BY created_at` is one fixed order with ties in any order.
- Overflow of 64-bit counters and times: stored times and ids stay far below it.
- A plan's `active` flag, names and codes of tokens in the protocol: a submitted code is the id of its token, or of none.
- Parsing of addresses and prefix numbers: `ParseCidr` takes the parsed parts.
- Text that chrono accepts but the service never stores (signs, unpadded numbers): `Parse` accepts the stored shape only.
- Lower and upper case beyond ASCII, and white space beyond the common four characters when a submitted code is trimmed.
- Argon2, constant-time comparison, random generation: random values are inputs.
- Plan editing screens, settings, theme colours, MAC format checks, number grouping, the administrator's session store: easy members that would add nothing.
- SlidingWindowBound: the bound is stated when bans are at least as long as the window; WindowBoundExactly gives the exact condition.
- FirewallIsPaidFor: stated under the invariant; SafeGraces says for which graces all runs have it.
- SafeRetentions: for one clock reading per handler. The code stamps the row and the redemption by two statements (`src/db/mod.rs:402`, `src/db/mod.rs:271`); when midnight falls between them by two seconds or more, a retention of exactly seven days can drop that sale in the last second of its week.
- ApartSubmissionsKeepOnePerToken: a sufficient condition on callers; the exact one, on inserts, is OnePerTokenExactly.
