# Anteroom: a verified model of its three doors

Anteroom is a gating reverse proxy. A visitor gets through either by solving a small proof of work (the free
door) or by presenting an x402 payment (the pay door), and a document served to an admitted visitor gets one
renewal script inserted into its head. This project models those three parts in Dafny 4.11 and proves what they
are for. `dafny verify dfyconfig.toml` checks everything.

## What is modelled

**The pay door.** `Grants` is the durable ledger: a class over one map from payment id to stored record, each of
whose operations is one atomic transaction that may also fail to reach the disk. `Identity` says which two
presentations are the same payment. `Callback` is one conversation with an arbitrary facilitator, and any
interleaving of such conversations, `Guards` the rate limiter and the circuit breaker around them. `PayDoor` is the
protocol: any number of attempts in any number of processes step through begin, settle, commit, serve and release in
any order, with crashes, failed disk writes, stale clock readings and restarts, against one ledger. A run is a list
of events, each enabled where it happens; every main result is about every run.

**The free door.** `Pow` is the 256-bit comparison on the server and in the browser, `Challenges` what is signed
into a challenge, `Token` a pass. `Session` is the protocol: the server keeps nothing, so its state is the set of
MACs that exist; clients may keep, mix and replay every challenge, answer and pass they ever saw. `Answers` says what
each submission comes to.

**The injector.** `Html` holds the byte searches, `Csp` and `CspPlan` the reading and editing of policies, `PlanLaws`
what that does to a page as a browser reads it, `Loader` the script element as it reads on the page, and `Injector`
the buffering writer, with a log of what reached the real connection.

**Beside them.** `Routes` (first-match pricing and scopes), `Money` (exact prices and the value counter),
`Activity` (the bounded per-address log). `Text` and `Wrappers` hold strings and option types.

## How to read it

* Instants and durations are unbounded integers of nanoseconds; `Unix` is the floor to seconds. Code that floors
  to seconds does so here.
* A string or byte slice is a `seq<char>`, one `char` a byte; lower-casing is on ASCII.
* HMAC is unforgeable: a keyring is the set of things it has signed. The scope digest is an injective text,
  SHA-256 in proof of work is an arbitrary function, random leases are fresh, and JSON and base64 are the identity.
* Imperative code is a class or a method with loops; where a protocol reasons about it, the method's contract says
  that it computes a named function, and the lemmas are about that function.

## What was found

Eight places where the code does not do what its own text says, each with the exact condition proved:

1. A late commit is counted twice. `servePayment` counts value whenever `Commit` returns a grant, also when the
   grant was already there (internal/gate/pay.go:463-549). A bought id is counted once exactly when no commit of a
   complete grant for it ran where a grant for the same purchase already stood: `CountedOnceIff`.
   `LateCommitCountsTwice` is a run in which one did; `TimelyRunsCountOnce` shows that it takes a commit later than
   its lease.
2. A payment can be taken for a grant that will not be written. A request whose Host is missing or a lone dot has
   the empty audience (internal/gate/gate.go:884-895); where no `public_hosts` are configured nothing stops it before
   settlement, and `Commit` then refuses the grant as incomplete (internal/payment/store.go:106-112), as it does at
   every retry under that Host.
   `TimelyCommitCreatesIff` is the exact rule, `NamelessIff` says which requests these are,
   `NamelessSaleIsSettledAndRefused` is a run.
3. Difficulty 0 is described as accepting any hash (internal/challenge/challenge.go:231-232). The threshold is all
   ones and the comparison strict, so one hash is refused: `AcceptedHashes`.
4. With a `pass_ttl` that is not whole seconds the last part-second of the advertised window is refused:
   `PartSecondIsRefused`; `DeadlineInSeconds` is the exact rule, `DeadlineIsExact` the whole-second case.
5. A renewal can be refused although the request carries the pass that earned its challenge, when a cookie in front
   of it counts for more and is no solved pass within its session: a pass of a session that has just ended stays
   live for up to one more `pass_ttl`. `EntitledIff` and `RenewalIsRefusedIff` are the exact rule,
   `AnEndedSessionShadows` is a run.
6. A plan is made from the last occurrence of a repeated directive, and a browser enforces the first.
   `PlannedElementIff` says exactly when the planned element runs and when it can renew; `RepeatedDirectiveIsMisread`
   is a policy where it does not run. An edit is not affected: the source goes on the first occurrence, where a
   browser reads it (`BrowserReadsTheSource`), although the gate itself, reading its edit back, would miss it
   (`RepeatedDirectiveHidesTheSource`, with `EditAddsOneSource` for when).
7. A policy with both `'self'` and `'strict-dynamic'` is planned an external script no browser runs:
   `StrictDynamicWithSelfIsMissed`; `UnrepeatedPlanRuns` is the exact rule where nothing is repeated.
8. An edit can stop the page's own inline scripts. The plan leaves headers alone where `'unsafe-inline'` is in force
   everywhere, and says why (internal/gate/inject.go:352-365), but if only one policy calls for a nonce or a digest it
   adds one to every policy, which voids `'unsafe-inline'` in the others. `PageScriptAfterPlan` says exactly which
   scripts still run, `EditStopsOwnScript` is a page whose script does not, `NoEditUnlessNeeded` where nothing is edited.

## Model

| member | source | states |
|---|---|---|
| Grants.DecodeRecord | internal/payment/store.go:88-104 | a stored record is accepted exactly when it is well formed: a complete grant and nothing else, or a lease with its end |
| Grants.GrantStore.constructor | internal/payment/store.go:58-67 | a new ledger holds nothing |
| Grants.GrantStore.Begin | internal/payment/store.go:133-183 | for every id, clock reading and disk outcome: a stored grant is recoverable exactly until the instant it expires and spent from then on, a live reservation is in flight until its end, an id nothing holds is reserved for half a minute, and nothing else changes |
| Grants.GrantStore.Release | internal/payment/store.go:185-205 | frees exactly the reservation of this lease and nothing else, in particular no newer lease and no grant |
| Grants.GrantStore.Commit | internal/payment/store.go:207-237 | writes the grant exactly when this lease still holds the reservation, returns the stored grant with created false when there already is one, and otherwise refuses and changes nothing |
| PayDoor.PaidExpiryRoundsUp | internal/gate/pay.go:36-42 | the expiry is the whole second in [now+ttl, now+ttl+1s) |
| PayDoor.StepKeepsInv | internal/gate/pay.go:413-625 | every step of any attempt, whatever its clock readings and the disk do, keeps the ledger readable, leases owned by one attempt, and all passes tied to their grants, and never changes a grant |
| PayDoor.RunKeepsInv | internal/gate/pay.go:413-625 | the same in every reachable state, for every interleaving, crash and restart |
| PayDoor.BeginOutcome | internal/gate/pay.go:463-487 | in every run: a request for an id with a grant for the same purchase goes on to be served exactly until the grant expires, one for an id nothing holds reserves it for half a minute, and in every other case nothing changes and the request ends |
| PayDoor.VerdictOutcome | internal/gate/pay.go:524-599 | what a verdict or a crash does to the attempt, and that neither touches ledger, passes or count |
| PayDoor.CommitOutcome | internal/gate/pay.go:526-549 | in every run: a commit writes and serves a complete grant exactly over its own reservation, serves the grant for the same purchase it finds, and otherwise ends the attempt and leaves the ledger; it counts exactly in the first two cases |
| PayDoor.GrantIsThePurchase | internal/gate/pay.go:527-537 | the grant written is for the purchase begun, with what the facilitator reported, and expires with the paid period rounded up to the second |
| PayDoor.ServeOutcome | internal/gate/pay.go:606-625 | in every run: serving a grant adds exactly one pass, with the scope, audience, expiry, payer and transaction of the grant and dated to the second it is minted, exactly while the grant lasts, and none otherwise |
| PayDoor.ReleaseOutcome | internal/payment/store.go:185-205 | in every run: a release frees the id exactly when its own reservation is still there |
| PayDoor.RetryGetsItsPass | internal/gate/pay.go:463-477 | once a grant is written, a request that presents the payment again for the same purchase, and is served, before it expires is minted a pass for exactly that grant, whatever happened between |
| PayDoor.GrantsArePermanent | internal/payment/store.go:133-237 | once a grant is written for an id it is the same in every later state |
| PayDoor.BoughtIsFinal | internal/payment/store.go:133-237 | after that no Begin answers new or in flight, and no commit writes |
| PayDoor.LedgerStaysSound | internal/payment/store.go:88-112 | in every run every record is well formed and at most one commit per id ever wrote, exactly one where there is a grant |
| PayDoor.OnlyItsLeaseMovesAReservation | internal/payment/store.go:185-237 | a reservation only changes by a step of its own lease or by a Begin that read a clock at or past its end; a stale Release deletes nothing newer |
| PayDoor.OneAuthorizationOneEntitlement | internal/payment/verifier.go:107-131 | any two passes minted over any run for presentations that sign the same sender and nonce on one rail have the same scope, audience and expiry, however nonce, address or envelope are spelled |
| PayDoor.EntitlementPeriod | internal/gate/pay.go:471-477 | every pass for an id expires with the stored grant, within one second above commit reading plus lifetime; retries never extend it |
| PayDoor.StepKeepsLeases | internal/payment/store.go:133-183 | with one clock every step leaves an unexpired paying attempt holding its own reservation |
| PayDoor.LeasesAreHonoured | internal/payment/store.go:133-183 | so does every run |
| PayDoor.LeaseExclusion | internal/payment/store.go:133-183 | two attempts on one id within their leases are the same attempt |
| PayDoor.TimelyCommitCreatesIff | internal/gate/pay.go:463-549 | a settled attempt that commits within its lease on a working disk writes its grant, and is counted and served, exactly when the grant is complete, which under a configured rule means that the request named a site; otherwise ledger and count stay as they are and nothing is served; never a conflict |
| PayDoor.CompleteIffNamed | internal/payment/store.go:106-112 | under a configured rule a settled grant is complete exactly when its audience is not empty |
| PayDoor.NamelessIff | internal/gate/gate.go:884-895 | a request has no audience exactly when its Host, trimmed, is empty or a lone dot |
| PayDoor.NamelessSaleIsSettledAndRefused | internal/gate/pay.go:413-549 | a run on one clock, every commit in time, in which such a request's payment settles and its grant is refused |
| PayDoor.OvertakenOnlyWhenLate | internal/gate/pay.go:463-549 | if all commits are timely no commit ever finds a grant already there |
| PayDoor.TimelyRunsCountOnce | internal/gate/pay.go:520-549 | then value is counted exactly once per committed id and never for another |
| PayDoor.CountedOnceIff | internal/gate/pay.go:520-549 | with no timing assumption: value is counted for an id once if its grant was written and once more per commit event that found it written, so a bought id is counted once exactly when no such event happened |
| PayDoor.LateCommitCountsTwice | internal/gate/pay.go:520-549 | a legal one-clock run of six events in which one payment is counted twice |
| Identity.CanonicalFormDecides | internal/payment/verifier.go:233-244 | two literals have one canonical form exactly when they spell the same integer |
| Identity.DecimalSpellsItself | internal/payment/verifier.go:233-244 | a decimal numeral spells its number below 2^256 and nothing from there on or below zero |
| Identity.HexAndDecimalAgree | internal/payment/verifier.go:227-244 | every zero-padded hexadecimal spelling in either case names the same nonce as the decimal one |
| Identity.FindAuthorization | internal/payment/verifier.go:165-206 | the two passes over the known keys find exactly the authorization the server's transfer method selects, and refuse a payload with both |
| Identity.NamedIff | internal/payment/verifier.go:104-131 | a presentation has a name exactly when the scheme is exact and the payload holds one authorization object, under the key of the rail's transfer method, with a sender and a nonce that spells an unsigned 256-bit integer; the name is made of those |
| Identity.SamePaymentIff | internal/payment/verifier.go:107-131 | two presentations get one id exactly when rail, asset, method, sender and nonce agree as values |
| Identity.MatchRail | internal/payment/verifier.go:272-292 | the first offered entry on the echoed network and scheme decides; what is returned is the gate's own entry, and only if asset, amount and payee agree |
| Callback.Decode | internal/payment/callback.go:356-401 | the document is the answer exactly when it arrived whole under a status below 300, or from 400 to 499 other than 429 with a reason; a failure is transport-class exactly for a redirect, a rate limit, a server error or a body cut short |
| Callback.RoundTrip | internal/payment/callback.go:305-354 | tries again exactly after retryable failures, up to the given number of attempts, and returns the last |
| Callback.CallbackVerifier.Verify | internal/payment/callback.go:123-271 | for every facilitator: at most two verify and one settle request; when exactly each of the five verdicts is returned; what each carries: the facilitator's transaction, payer and reasons, the requested network, the requested amount exactly if one was reported, and a time to wait of fifteen seconds for a pending settlement, two for a call without a slot and until the breaker closes otherwise; the breaker hears of transport-class failures and definitive answers only; the egress slot is returned |
| Callback.CallbackVerifier.Round | internal/payment/callback.go:166-271 | the same for the part that holds a slot |
| Callback.CallbackVerifier.Judge | internal/payment/callback.go:211-271 | how a settlement answer is classified, both directions for every verdict, and all that the outcome carries of it |
| Callback.CallbackVerifier.NoteFailure | internal/payment/callback.go:166-210 | a failed call reaches the breaker exactly when it is transport-class |
| Callback.EgressIsBounded | internal/payment/callback.go:144-271 | for any interleaving of calls: no more than the maximum are past the gate at once, and none settles what was not verified |
| Callback.SlotOutcome | internal/payment/callback.go:144-271 | in every run: a call gets a slot exactly when it saw the breaker closed and fewer than sixteen are taken, keeps it to settle exactly when it was verified, and gives it back at its end |
| Callback.BreakerHearsEveryCall | internal/payment/callback.go:166-271 | for any interleaving: the shared breaker is where the reports of all calls in their order put it, and only transport-class failures and definitive answers are reports |
| Callback.SharedBreakerOpensIff | internal/payment/callback.go:166-271 | on one clock a failure of whichever call opens the shared breaker exactly when it is not already open and the in-window failures of all calls since the last answer or opening reach the threshold |
| Callback.UninterruptedCall | internal/payment/callback.go:123-271 | one call stepped without interruption does to the breaker and the slots what Verify promises |
| Guards.Breaker.constructor | internal/payment/guards.go:104-115 | non-positive settings take their defaults and the breaker starts closed |
| Guards.Breaker.IsOpen | internal/payment/guards.go:118-124 | open exactly until the end of the last opening |
| Guards.Breaker.RetryAfter | internal/payment/guards.go:126-136 | the remaining time while open, else zero |
| Guards.Breaker.Compact | internal/payment/guards.go:145-151 | the in-place compaction leaves, in order, exactly the failures inside the window |
| Guards.Breaker.Fail | internal/payment/guards.go:138-161 | the in-place method takes the abstract step |
| Guards.Breaker.Succeed | internal/payment/guards.go:163-168 | forgets the failures and closes |
| Guards.CompactionLosesNothing | internal/payment/guards.go:138-161 | dropping old failures at each step never changes a later count |
| Guards.BreakerRefinesHistory | internal/payment/guards.go:117-168 | over every monotone run what is kept is the uncompacted history since the last reset, cut to the window of the last failure, and a closed breaker holds fewer than the threshold |
| Guards.FailOpensAtThreshold | internal/payment/guards.go:138-161 | Fail answers true exactly at an unsuppressed failure that brings the in-window count of the whole history to the threshold |
| Guards.OpeningsAreACooldownApart | internal/payment/guards.go:138-161 | two openings without a success between are at least a cooldown apart, on any clock |
| Guards.OpensAtThreshold | internal/payment/guards.go:138-161 | told by counting: in a row of failures the first to open the breaker is the first that makes the threshold within one window |
| Guards.OpeningLastsACooldown | internal/payment/guards.go:117-161 | an opening lasts exactly the cooldown and forgets the failures before it |
| Guards.Limiter.constructor | internal/payment/guards.go:35-49 | non-positive settings take their defaults |
| Guards.Limiter.Allow | internal/payment/guards.go:51-77 | a new client passes; a known one passes exactly when what its bucket had left and has earned since, up to the burst, makes one whole token; the bucket afterwards; the map starts over when full |
| Guards.TokensStayInRange | internal/payment/guards.go:51-77 | in every run every bucket stays within [0, burst] |
| Guards.MapStaysBounded | internal/payment/guards.go:51-77 | the map never exceeds 8193 keys |
| Guards.TokenBucketBound | internal/payment/guards.go:51-77 | in any window a client whose bucket is kept passes at most burst + rate * length calls, however its calls interleave with others |
| Guards.SpacedCallsPass | internal/payment/guards.go:51-77 | the other side of the bound: a client whose calls are at least the time of one token apart is never refused while its bucket is kept, whatever others do |
| Token.LifeOfAPass | internal/token/token.go:199-238 | a cookie is accepted exactly when it carries a signed, well-formed pass and the time is within [dated - 60s, expiry), in spite of the flooring |
| Pow.CheckPoW | internal/challenge/challenge.go:244-255 | accepts exactly when the hash is below the threshold as a big-endian number |
| Pow.LessThan | internal/gate/assets/core.js:16-21 | the browser's comparison is the same order |
| Pow.FirstDifference | internal/challenge/challenge.go:244-255 | the first differing byte decides the order of two numbers |
| Pow.Threshold | internal/challenge/challenge.go:217-240 | whole difficulties 0 to 255 are accepted and give 2^(256-d), or the largest word for 0 |
| Pow.FillBytes | internal/challenge/challenge.go:238-239 | filled in place, the bytes are the number's big-endian form |
| Pow.DifficultyIsLeadingZeros | internal/challenge/challenge.go:212-216 | below 2^(8n-d) means d leading zero bits, for any length and d |
| Pow.AcceptedHashes | internal/challenge/challenge.go:217-255 | difficulty d from 1 accepts exactly the hashes with d leading zero bits; difficulty 0 all but one |
| Pow.EncodeHex | internal/gate/endpoints.go:158-158 | two hexadecimal digits per byte, in order |
| Pow.HexToBytes | internal/gate/assets/core.js:8-14 | every text gives the bytes parseInt makes of its pairs, and the server's hex encoding of any bytes gives those bytes back |
| Pow.Solve | internal/gate/assets/core.js:44-56 | a nonce the browser returns is one the server accepts, and the first there is; it gives up only at a page's tick, after every attempt up to the deadline failed; without a page it finds a nonce if there is one |
| Challenges.ParseOfAppend | internal/challenge/challenge.go:101-127 | a profile is read back as written exactly when it is valid, for every 64-bit lifetime |
| Challenges.AppendOfParse | internal/challenge/challenge.go:111-127 | whatever parses is exactly what a valid profile is written as |
| Challenges.BodyIsInjective | internal/challenge/challenge.go:166-182 | one signed body speaks for one timestamp, nonce and profile |
| Session.Covers | internal/gate/gate.go:785-791 | a solved pass covers everything, a paid one the paths priced by its scope now |
| Session.ValidPassAt | internal/gate/gate.go:679-714 | the loop returns the chosen pass |
| Session.Chosen | internal/gate/gate.go:679-714 | the first usable cookie that was solved for or covers the path, else the first usable one, else none |
| Session.PassRung | internal/gate/gate.go:478-493 | a request is admitted exactly when some cookie in it is valid for this audience and network and covers the path, in whatever order and with whatever junk around it |
| Session.MayRenew | internal/gate/gate.go:739-749 | only the chosen pass counts, only a solved one, only within the session of its root |
| Session.Endpoints.constructor | internal/gate/gate.go:97-165 | a new gate has signed nothing |
| Session.Endpoints.ServeChallenge | internal/gate/endpoints.go:142-172 | issues the renewal profile exactly to a renewable pass, stamps whole seconds, advertises the deadline that is signed, and changes nothing else |
| Session.Endpoints.Judge | internal/gate/endpoints.go:200-266 | the order of the checks and the outcome of each, with its three clock readings |
| Session.Endpoints.ServeAnswer | internal/gate/endpoints.go:190-277 | the whole new state: one outcome counted, and a pass signed exactly when granted |
| Session.GrantedMint | internal/gate/endpoints.go:213-266 | what a granted answer adds: a solved challenge of its kind's threshold, its expiry, and for a renewal an older pass whose root it inherits |
| Answers.OutcomeIff | internal/gate/endpoints.go:200-266 | for every submission: malformed exactly when it is no challenge made for this site, else stale exactly outside [issue - 60s, deadline], else, in this order, unentitled, unsolved and elapsed, each exactly when |
| Answers.GrantedIff | internal/gate/endpoints.go:245-266 | a solved answer in time is granted exactly when the sender can be resolved, the pass would end in a later second than it begins, and its root is not after it |
| Answers.GrantedPass | internal/gate/endpoints.go:245-266 | what is granted: a pass for the whole site, bound to site and network, dated now, ending at the deadline, with the root of the pass renewed if any |
| Answers.OpensIff | internal/gate/gate.go:679-714 | what a cookie opens, for any pass: exactly a request to its own site, within its life, from its own network if it was solved for, or for a page its scope prices now if it was paid for |
| Answers.GrantedPassOpens | internal/gate/gate.go:679-714 | that pass opens every page exactly from the network it was bought on and until its second of expiry, whatever cookies come with it |
| Answers.CountedAs | internal/gate/endpoints.go:200-277 | the name each outcome is counted under, once, and that only a grant signs anything |
| Answers.OfferedIff | internal/gate/endpoints.go:142-172 | the renewal profile is issued exactly to a request whose first best cookie is a solved pass within its session, and nothing else is signed |
| Session.RunIsSound | internal/gate/endpoints.go:142-277 | every reachable world has that lineage for every pass, and the mint counter equals the two success counters |
| Session.SessionIsCapped | internal/gate/gate.go:739-749 | every solved pass in every run descends from one admission solved at the admission threshold, carries its time as root, and expires before root + max_session + pass_ttl and before the issue of that challenge + max_session + 2 pass_ttl |
| Session.DeadlineInSeconds | internal/gate/endpoints.go:245-258 | a correct answer is granted exactly when its second is before the deadline's second, and the pass is then accepted exactly until that second |
| Session.DeadlineIsExact | internal/gate/endpoints.go:147-167 | with whole-second lifetimes: granted exactly before the advertised millisecond, and the pass accepted exactly until it |
| Session.PartSecondIsRefused | internal/gate/endpoints.go:245-258 | with any other lifetime the last part-second of the window is refused |
| Session.EntitledIff | internal/gate/gate.go:679-749 | a renewal answer is entitled exactly when the first cookie that was solved for or covers the path, as of the issue of the challenge, is a solved pass less than max_session after its root, and that root is carried forward |
| Session.EarnedPassStillCounts | internal/gate/gate.go:716-749 | the pass a renewal challenge was issued on counts as much, with the same root, when it is presented later, also after it lapsed |
| Session.RenewalIsRefusedIff | internal/gate/endpoints.go:215-230 | over any run: an answer in time that presents the pass that earned its challenge is refused for entitlement exactly when the first best cookie, at or before that pass, is no solved pass within its session; never when it is that pass itself |
| Session.AnEndedSessionShadows | internal/gate/gate.go:679-749 | a run that mints two passes for one visitor and earns one of them a renewal challenge, whose answer is granted with that pass alone and refused for entitlement with the other, still live, in front of it |
| Html.InsertionPoint | internal/gate/inject.go:194-229 | the search terminates and returns the place just past the first head tag that is a real tag outside any comment, or -1 while there is none |
| Html.InsertionPointIsStable | internal/gate/inject.go:194-229 | a place found in a prefix is the place in every extension |
| Html.InsertionPointIsUnique | internal/gate/inject.go:194-229 | there is one such place |
| Html.LooksLikeDocumentIff | internal/gate/inject.go:170-189 | a body is taken for a document exactly when, past marks and blanks, some continuation of it starts like one |
| Html.NoPartIsDeclined | internal/gate/inject.go:170-189 | so no part of a document is declined, once its marks and blanks are in, however it is cut |
| Html.HeadEnd | internal/gate/injector.go:219-231 | the first head-closing or body-opening tag, or -1 when there is none |
| Html.HeadEndIsStable | internal/gate/injector.go:219-231 | once seen it is final |
| Html.Attr | internal/gate/injector.go:263-297 | for a name without blanks the value is what the first assignment of the attribute in the tag assigns, quoted or not, and none if there is no assignment or its quote never closes |
| Html.AttrIsFirstAssignment | internal/gate/injector.go:263-297 | the search, which skips past each namesake, misses no assignment |
| Html.AttrIsUnique | internal/gate/injector.go:263-297 | which leaves one value |
| Html.DeclaredIff | internal/gate/injector.go:236-259 | a meta tag declares a policy exactly when its http-equiv names one, in any case and with space around it, and the policy is its content |
| Html.MetaPolicies | internal/gate/injector.go:236-259 | the loop collects, in order, what exactly the document's meta tags declare: every opening up to its next '>' that is not inside an earlier unclosed one |
| Html.MetaFromListsTags | internal/gate/injector.go:236-259 | going on from the end of the tag just read misses no meta tag and finds nothing else |
| Html.MetaPoliciesOnlyGrow | internal/gate/injector.go:236-259 | more input never retracts or reorders a declared policy |
| Csp.Collect | internal/gate/inject.go:431-455 | the map the loop fills holds each directive's last values |
| Csp.Effective | internal/gate/inject.go:431-470 | reads a policy as its governing script directive and sandbox |
| Csp.AppendSource | internal/gate/inject.go:501-512 | the edit changes exactly the first segment with the directive's name |
| Csp.Rewrite | internal/gate/inject.go:478-494 | every policy of every header is edited or left, none added or lost |
| Csp.RewriteKeepsPolicies | internal/gate/inject.go:478-512 | re-parsing a rewritten header gives the same policies, the unrestricting ones byte for byte |
| Csp.EditAddsOneSource | internal/gate/inject.go:478-512 | re-reading an edited restricting policy gives the old reading with exactly one more source at the end if its governing directive occurs once, and the old reading if it is repeated |
| Csp.RepeatedDirectiveHidesTheSource | internal/gate/inject.go:431-512 | every policy with two script-src directives, whose edit the gate does not see when it reads it back |
| CspPlan.PlanCSP | internal/gate/inject.go:281-376 | computes the plan whose form and edits the laws of `PlanLaws` pin from the policies |
| PlanLaws.PlanFromPolicies | internal/gate/inject.go:281-376 | from the policies as a browser reads them: exactly when there is no way, exactly when the script is external, exactly when headers are edited, and when with a nonce |
| PlanLaws.NoEditUnlessNeeded | internal/gate/inject.go:352-365 | where the inline loader already runs under every policy, no header is edited |
| PlanLaws.EveryPolicyGains | internal/gate/inject.go:281-376 | if any is, every restricting policy, enforcing or report-only, gains exactly the one source of the loader, as a browser reads it, and nothing else |
| PlanLaws.EditKeepsTheRest | internal/gate/inject.go:478-512 | in the text of a policy, the governing directive has one more word and every other segment is what it was, byte for byte |
| PlanLaws.NothingIsReported | internal/gate/inject.go:275-280 | so an edited report-only policy does not report the loader |
| PlanLaws.PageScriptAfterPlan | internal/gate/inject.go:352-365 | what a plan leaves of any inline script of the page's own: all of it without an edit, and with one exactly what every enforcing policy names by nonce or digest |
| PlanLaws.EditStopsOwnScript | internal/gate/inject.go:352-376 | two headers under which a page's own inline script runs until the plan edits them |
| PlanLaws.BrowserSourcesIff | internal/gate/inject.go:431-470 | which directive governs scripts: the most specific name there is, and of that name the first |
| CspPlan.PoliciesAfterRewrite | internal/gate/inject.go:478-494 | the policies in force after a rewrite are the edited ones, across all headers |
| CspPlan.BrowserReadsTheSource | internal/gate/inject.go:478-512 | a browser reads an edited policy with exactly one more source at the end, repeated directives or not, and with the same sandbox |
| CspPlan.PlannedElementIff | internal/gate/inject.go:281-376 | for any policies, any page origin, and both for running and for renewing: the planned element is allowed by every enforcing policy as edited and every meta policy exactly when no header's first sandbox directive stops it, no unedited policy forbids it in the first of a repeated script directive, and no policy adds 'strict-dynamic' for an external script |
| CspPlan.UnrepeatedPlanRuns | internal/gate/inject.go:281-376 | where no policy repeats a directive, every planned inline loader runs and renews, and an external script exactly without 'strict-dynamic' |
| CspPlan.RepeatedDirectiveIsMisread | internal/gate/inject.go:431-470 | a policy the gate reads as allowing its own origin and a browser enforces as allowing nothing |
| CspPlan.StrictDynamicWithSelfIsMissed | internal/gate/inject.go:300-330 | a policy for which the plan is an external script that is not allowed |
| Injector.AddVary | internal/gate/injector.go:201-213 | Vary names the field or is a wildcard afterwards and is otherwise unchanged |
| Injector.EditHeaders | internal/gate/injector.go:160-190 | the header edits that go with an injection |
| Injector.InjectedHeaders | internal/gate/injector.go:160-190 | an injected response has no length, a weak validator with the same tag, a Vary that names Cookie or is a wildcard, and no-store exactly if it holds a nonce; nothing else but its policies changes |
| Injector.SkipReason | internal/gate/inject.go:123-158 | a response may be touched exactly when it is an unsigned, unencoded 200 of HTML in a character set that keeps ASCII |
| Injector.Injector.constructor | internal/gate/injector.go:34-39 | nothing sent, nothing held |
| Injector.Injector.WriteHeader | internal/gate/injector.go:47-65 | informational headers pass at once; the first final status is kept or, if the response must not be touched, sent unchanged; later ones are ignored |
| Injector.Injector.Write | internal/gate/injector.go:67-90 | accepts every byte; afterwards the injector has decided, exactly if what it has is decisive, and delivered, or holds everything and fewer bytes than the budget |
| Injector.Injector.Flush | internal/gate/injector.go:95-102 | passed on exactly when decided |
| Injector.Injector.Finish | internal/gate/injector.go:106-114 | always ends decided and delivered; the second look at the header finds it sent |
| Injector.Injector.GiveUp | internal/gate/injector.go:117-127 | sends the headers unchanged and every held byte |
| Injector.Injector.Decide | internal/gate/injector.go:130-198 | injects exactly when what is held has a head opening, a head end within the budget and policies that leave a way |
| Injector.Injector.Inject | internal/gate/injector.go:163-198 | sends the edited header, then the bytes with the plan's tag at the insertion point |
| Injector.DecisionHolds | internal/gate/injector.go:67-90 | a decision made on a prefix is right for every continuation |
| Loader.TagReadsAs | internal/gate/inject.go:247-271 | read back by the attribute searches, the tag is the element planned: the external script has the renewal source and no text, the inline one has no source, the loader for its text, and a nonce exactly when one was drawn |
| Loader.OneReading | internal/gate/inject.go:247-271 | a tag reads as one element only |
| Injector.Serve | internal/gate/injector.go:47-198 | for every handler and every cutting of the body into writes: one final header with the handler's status before any body byte, informational ones in order, the body as written or with exactly one tag at its insertion point, one report if left alone; and a tag exactly when the response may be touched and the bytes in hand at the first decisive write have a head with room |
| Injector.SentScriptReads | internal/gate/injector.go:163-198 | what an injected body has more than the one written reads as one script element |
| Injector.SentScriptIff | internal/gate/injector.go:130-198 | the script in the body sent, as it reads there, runs and renews under the headers sent with it and every meta policy the gate found up to the end of the head exactly when none of those policies is one the plan misreads |
| Routes.GlobMeansSubstitution | internal/bypass/bypass.go:74-81 | a pattern with at most one star matches exactly the texts some run of characters turns it into |
| Routes.MatchPath | internal/bypass/bypass.go:63-72 | true exactly when some pattern matches |
| Routes.ScopeNamesThePatterns | internal/gate/gate.go:809-816 | two rules share a scope exactly when they list the same patterns in any order |
| Routes.CompilePaidRoutes | internal/gate/gate.go:799-819 | every rule gets its matcher and scope, in order, unless a pattern is malformed |
| Routes.MatchRoute | internal/gate/pay.go:47-54 | the first matching rule, or none |
| Routes.PricingScopesNeverLeak | internal/gate/gate.go:785-791 | a pass bought at one path opens another exactly when the same rule prices both |
| Money.ParsePriceIsExact | internal/config/config.go:757-789 | accepted exactly when the text is a positive decimal with at most that many fraction digits, and then the amount is that decimal times 10^decimals |
| Money.StrippedIff | internal/config/config.go:757-765 | a numeral is read from exactly the texts that write it with space around it and at most one dollar sign before it |
| Money.WrittenPrice | internal/config/config.go:757-789 | so every way to write a price is accepted exactly when its numeral is positive and short enough, for exactly that many atomic units |
| Money.ValidateRails | internal/config/config.go:560-580 | accepted exactly when every rail names a CAIP-2 network and an asset, its decimals are in range and no network is declared twice; unset decimals become six |
| Money.ResolvePrice | internal/config/config.go:664-673 | a price resolves exactly when every rail can express it, to amounts that cross-multiply equal |
| Money.SameOnEveryRail | internal/config/config.go:664-673 | any two resolutions of one price are the same value |
| Money.FindDecimals | internal/gate/pay.go:663-669 | the loop finds the network's decimals, six for an unknown one |
| Money.Meter.CountPaidValue | internal/gate/pay.go:655-678 | adds the settled or asked amount in millionths to a wrapping 64-bit counter, or nothing if it does not fit |
| Money.CountedIsWorth | internal/gate/pay.go:655-678 | what one settlement adds, by bounds: the whole millionths in the amount reported, or asked if none can be read, at the network's decimals or six, and nothing past 64 bits |
| Money.AskingPriceInMicros | internal/gate/pay.go:655-678 | the asking price in millionths is the price rounded down, on every rail, and exact up to six fraction digits |
| Money.CounterIgnoresTheRail | internal/gate/pay.go:655-678 | one settlement at the asking price, its amount reported or left out, adds the price read at six decimals if that fits and nothing otherwise, whichever rail was paid |
| Activity.Log.constructor | internal/activity/activity.go:60-73 | defaults for non-positive settings, and an empty log |
| Activity.Log.Note | internal/activity/activity.go:84-103 | one record: a tracked address is bumped, a new one admitted, making room if full; the log stays within its bound and every entry equals the records of its address since it was opened |
| Activity.Log.MakeRoom | internal/activity/activity.go:110-125 | in whatever order the map is walked: everything expired goes, or exactly one quietest entry if nothing is |
| Activity.Log.Snapshot | internal/activity/activity.go:130-155 | exactly the unexpired entries, by recency then address |
| Activity.SnapshotIsUnique | internal/activity/activity.go:130-155 | which leaves one possible answer |
| Activity.Log.Len | internal/activity/activity.go:160-173 | prunes and counts the rest |

## Left out

- HTTP transport, reverse proxying, logging, metrics exposition, admin pages, wait-page assets and Docker: I/O and presentation.
- The cryptography itself, key rotation with several keys, JSON, base64 and media-type parsing: taken as exact on decoded values.
- bbolt: each `update` is one atomic step that happens or does not.
- Integer overflow of clocks and durations, and of the activity log's 64-bit counters; the value counter's wrap-around is modelled.
- Several clocks: `Session` and the lease results assume one clock that does not run backwards. Permanence, one entitlement per authorization and the counting equation do not.
- Fleets whose members have different configurations, and configuration reloads: the signed profile makes them possible, the runs here have one.
- Fractional difficulties, and the rounding of floating point: limiter tokens are reals.
- Non-ASCII documents: lower-casing there can change the length of the text the searches index.
- Whether an injection happens does depend on how the body is cut (a byte-order mark split between writes, a meta policy just past the head in the same write): on the bytes in hand at the first decisive write, as `Injector.Serve` says.
- A handler that edits response headers after it has begun to write.
- How a browser matches a source expression against the page's origin: any matching that accepts `'self'` will do.
- Meta policies as a browser reads them: the gate ends a tag at the first `>`, quoted or not, and splits a meta policy at commas, and what is claimed is about the policies it finds that way.
- The rest of the page the external or inline script runs in: what `renew.js` does, and its own fetch.
- `paidWriter`, `stripPassCookie`, cookie ages, `Accept` parsing, path cleaning, hosted and crawler verification, the service worker: one-branch facts or library lookups.
- Building the facilitator request: failures of URL joining and marshalling inside `call` are not separate from other failures.
- A crash between a commit and the counter: the process's counter is lost with it.
- The nil activity log, which ignores every call, and empty addresses, which no caller passes.
- Pow.Solve: a search with neither a solution nor a page to stop it does not end, and is not a call the method takes.
- Pow.Threshold: whole difficulties only; the rounding of a fractional one is floating point.
- Callback.CallbackVerifier.Verify: its clause on the breaker is for a call no other interleaves with; `Callback.BreakerHearsEveryCall` says what holds for calls that do.
- Callback.CallbackVerifier.Round: the same.
- Session.PassRung: takes the normalized authority and the network prefix of a request as given.
- Injector.Injector.Finish: the branch that would send a header not yet sent is never taken, and holds no code here.
