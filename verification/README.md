# Verified model of the Ajar gateway's store and serving layers

The Ajar gateway answers ordinary web traffic in front of an origin. Next to the origin's
pages it serves prepared artifacts from a directory: a manifest, an index of views, and the
views themselves. The directory is loaded and validated once at startup and can be reloaded
while requests are in flight. This project models that program and proves what it promises:

- **Every run of the gateway.** Requests and reloads are state machines that share a store
  behind a lock, a log-once flag, seven counters and standard error. A run is any sequence of
  steps of any number of them; the directory as a load reads it, each clock reading and each
  outcome at the origin come with the step that observes them, so they may be anything and may
  change between any two steps (`Gateway`). Proved for all runs: the served sequence is the
  greatest committed and never falls (`GatewaySafety`); each answer is the one its handler
  gives when run alone from some point of the run (`GatewayLinearity`), and one order of whole
  requests and whole reloads gives all answers and all replies together (`GatewayOrder`); each
  answer is traced to one file of the one directory its store was loaded from, or to the
  origin's reply (`GatewayContent`), and is fresh at a clock reading made after that load
  (`GatewaySafety`, `GatewayTimeline`); reloads that do not commit are invisible
  (`GatewayReloads`); counters add up (`GatewayConservation`, `GatewayAccounts`), and so do the flag and the
  expiry lines (`GatewayFlag`, `GatewayLog`).
- **Timestamps.** Era arithmetic on 32-bit integers against a calendar that counts one year
  and one month at a time; parsing against rendering; byte order against time order
  (`Calendar`, `Timestamp`, `TimestampOrder`).
- **Entity tags and revalidation.** What the 64-bit FNV-1a tag is certain to distinguish, and
  what that means for a client that sends tags back across reloads (`EntityTag`,
  `Revalidation`).
- **Headers.** Accept negotiation against its declarative meaning and against printed lists of
  abstract items; hop-by-hop stripping as a filter (`Text`, `Headers`, `Negotiation`,
  `AcceptGrammar`, `AcceptLists`, `AcceptWeights`, `AcceptExamples`).
- **The loader.** Exactly when a directory loads, which error it reports, that the map agrees
  with a scan of the files, and that listing order is irrelevant (`PreparedStore`,
  `StoreTheorems`).

The code that updates things in place is modelled in that form: `ProxyState.Metrics` and
`ProxyState.ProxyState` are classes whose methods change their fields, `Headers.HeaderMap` is
changed by the stripping method, and the loops of the source are loops here. Each such method
is proved against a function of its inputs or of the old state, and the lemmas are about those
functions. `GatewaySequential` ties the two worlds together: a handler's effect is the
machine's own steps without interruption, and that is one of the machine's runs.

## Findings

These follow the code where it departs from what a reader may expect.

- A day past the end of its month (30 February) is accepted and stands for a day of the next
  month. Rendering gives the text back, and byte order agrees with time order against every
  calendar-valid text, exactly when the day exists (`TimestampOrder.TextRoundTrip`,
  `TimestampOrder.ByteOrderExact`, `TimestampOrder.ThirtiethOfFebruary`).
- A semicolon inside a quoted parameter of an Accept item is taken for a separator, and what
  follows may be read as a weight. An item with no comma inside keeps its meaning exactly when
  those stray weights are harmless; `x="a;q=0"` is not. A list of such items gets what it asks
  for exactly when an item that keeps its meaning still offers it
  (`AcceptGrammar.AcceptableIffWanted`, `AcceptExamples.QuotedSemicolonExample`,
  `AcceptLists.PrintedListSelects`).
- A comma inside a quoted parameter cuts the item short. What is left is read with the stray
  weights before that comma and without the item's own weight, so a refused item may be
  served; and what follows the comma is read as items of its own, so an offer may be smuggled
  in. `application/ajar+json;x="a,b";q=0` refuses ajar JSON and gets it, and so does
  `text/html;x="a,application/ajar+json,b"`, which asks for neither representation. Any list
  gets what it asks for exactly when that is not lost, no refused item before it is read as
  counting, and nothing before it is smuggled in; when what follows the commas names neither
  type, only the first two matter (`AcceptLists.AnyListSelectsExactly`,
  `AcceptLists.NamelessListSelectsExactly`, `AcceptLists.RevivedExactly`,
  `AcceptExamples.RefusedItemExample`, `AcceptExamples.QuotedCommaExample`).
- View tags are whatever the view's author wrote. Sending the current tag back alone is
  answered 304 exactly when it reads as text and is one trimmed element, or a piece of it is a
  star; `"a,b"` is not (`Revalidation.CurrentTagRevalidatesExactly`,
  `Revalidation.CommaTagNeverRevalidates`).
- `If-None-Match` elements are compared character for character, where section 13.1.2 of
  RFC 9110 asks for the weak comparison. For any tag the two agree exactly when the list does
  not hold the tag's other form, weak or strong, without the tag itself or a star; a client that sends
  `W/"x"` for `"x"`, or `"x"` for a view's tag `W/"x"`, is missed
  (`Revalidation.WeakComparisonExactly`, `Revalidation.OtherFormMissed`,
  `Revalidation.AnswersFollowWeakComparisonExactly`).
- Expiry is checked at load and at serving, not at the swap. A reload keeps a served manifest
  served exactly while the new store is unexpired too; otherwise it replies that it reloaded
  and the manifest is gone (`GatewayExpiry.ReloadKeepsServingExactly`,
  `GatewayExpiry.ExpiredStoreSwappedIn`).
- The time of issue is compared with the expiry and never with the clock: a manifest can be
  served before it is issued (`StoreTheorems.LifecycleExactly`,
  `StoreTheorems.AcceptedBeforeIssue`).
- An expired answer is logged exactly when the flag has not been raised since the last reset.
  A request that found the old store expired can raise the flag after a reload has reset it;
  then the new store's own expiry is not logged, and no order of the whole calls that respects
  time gives those answers and that number of lines. Once every request is answered, the order
  of calls does give the run's number of lines if at no time a request answered as expired was
  on its way to the flag while a reload was on its way from swap to reset (`GatewayFlag.ExpiredAnswerLogsExactly`,
  `GatewayFlag.LosingRunLogsOnce`, `GatewayFlag.LogIsNotLinearizable`,
  `GatewayLog.OrderGivesLinesWhenApart`).
- Raising the flag and writing the line are two steps, so a line may come after the next
  reset: between two raises there is always a reset, between two lines there need not be. There
  is one whenever no reset happens while a line is pending (`GatewayFlag.FlagRun`,
  `GatewayFlag.TwoLinesAfterReset`, `GatewayFlag.LinesApartWhenResetsWait`).

## Model

| member | source | states |
|---|---|---|
| GatewayLinearity.AnswersAreLinearizable | crates/serving/src/lib.rs:320-380 | in every run every answer has a point, the first step of its request and before the answer was given, from which the whole handler run alone gives that very response |
| GatewayOrder.OneOrderGivesAll | crates/serving/src/lib.rs:320-656 | for every run there is one order of whole requests and whole reloads, each once, that played alone from the start gives every answer, the reply of every finished reload, and the store the run ends with |
| GatewayOrder.OrderFollowsTime | crates/serving/src/lib.rs:320-656 | at every moment the calls ordered so far come first in the whole order, have begun, and include all that are answered or finished, so whoever finishes before another begins comes before it |
| GatewayLinearity.LooksRun | crates/serving/src/lib.rs:549-557 | every snapshot in every run goes back to the shared store as it was just before that request's first step |
| GatewayLinearity.SnapshotsNeverGoBack | crates/serving/src/lib.rs:549-557 | of two first steps in a run the later one looks at a store with the same sequence or a higher one |
| GatewayLinearity.AnswersNeverGoBack | crates/serving/src/lib.rs:549-557 | an answer whose request arrives after another answer was given comes from a store with the same sequence or a higher one |
| GatewaySafety.SequenceNeverFalls | crates/serving/src/lib.rs:587-616 | between any two points of any run the served sequence does not fall, and at both it is the greatest of startup and all commits |
| GatewaySafety.ServedIsGreatest | crates/serving/src/lib.rs:596-608 | after any run the served store is one that was committed, and no committed one has a higher sequence |
| GatewaySafety.OvertakenReloadRefused | crates/serving/src/lib.rs:594-606 | in any run a reload whose loaded sequence is below some commit's when it reaches the lock is refused and nothing shared changes |
| GatewaySafety.CurrentReloadCommits | crates/serving/src/lib.rs:596-608 | in any run a reload whose sequence is at least every commit's, equal included, replaces the store and nothing else |
| GatewaySafety.InvRun | crates/serving/src/lib.rs:320-380 | that generations are in sequence order with the last one served, and that every request is where its one snapshot put it, survive any sequence of steps |
| GatewaySafety.AnswersAreWholeAndFresh | crates/serving/src/lib.rs:325-351 | every 200 and 304 served from a store is, in route, status, headers and body, determined by the request, one clock reading and the single committed store it snapshotted, that reading is before the store's expiry, and a 304 has no header and no body |
| GatewaySafety.ServedStoresWereLoaded | crates/store/src/lib.rs:166-240 | every store that is ever served is the result of a successful full load of one directory at one clock reading |
| GatewaySafety.ServedStoresAreWellTimed | crates/store/src/lib.rs:437-453 | every store that is ever served expires after its issue and at most 180 days after it, with the tags of its own bytes |
| GatewaySafety.CachedManifestExpiresFirst | crates/serving/src/lib.rs:387-413 | in every run a full manifest answer has one cache-control value, `max-age=` and decimal digits; the number they read as, added to the clock reading, never passes that manifest's expiry (section 5.2.2.1 of RFC 9111), and is the time left capped at an hour whenever the difference fits 64 bits |
| GatewaySafety.ExpiredStoreAnswers404 | crates/serving/src/lib.rs:533-547 | the expired problem is answered only from a store whose expiry the request's reading had reached, with status 404, the problem content type and the code AJAR-VERIFY-EXPIRED |
| GatewaySafety.OriginOnlyWithoutContent | crates/serving/src/lib.rs:353-380 | only a request its snapshot has no content for is answered by the origin, and its answer is a function of what the origin did |
| GatewaySafety.StartupIsStarted | crates/store/src/lib.rs:166-240 | a gateway started with a directory that loads, or with none, is in the state the run theorems start from, its one generation that load of that directory |
| GatewayTimeline.ReadingFollowsLoad | crates/serving/src/lib.rs:533-547 | behind every answer from a store there is the step in which that request read that clock value, made after the load that validated the store |
| GatewayTimeline.TimelineRun | crates/serving/src/lib.rs:571-616 | in every run each served generation's load and each pending load is among the actions so far, and each reading comes after its generation's load |
| GatewayContent.ViewAnswersAreOneFile | crates/serving/src/lib.rs:334-351 | in every run a full view answer is the one file, of the directory its store was loaded from, whose URL maps to the request's path and query, or to a slash when it has none, with that file's bytes or text, tag and signature, in the representation the Accept lines prefer |
| GatewayContent.ArtifactAnswersAreTheirFiles | crates/serving/src/lib.rs:327-333 | in every run manifest and index answers carry the exact bytes one load read, as JSON with the tag of those bytes, the index on the path that the manifest file of that directory names |
| GatewayContent.OriginAnswersHadNoContent | crates/serving/src/lib.rs:326-351 | a GET answered by the origin was for neither the manifest's nor the index's path, and had no view file for its path and query in its store's directory, or preferred neither representation |
| GatewayContent.OriginAnswersAreEndToEnd | crates/serving/src/lib.rs:372-379 | a proxied reply reaches the client with status and body untouched, every header but connection, keep-alive, te, trailer, transfer-encoding, upgrade, proxy- ones and those a Connection token names, with all values, and one manifest link on a page when there is a store |
| GatewayContent.RouteIsRight | crates/serving/src/lib.rs:326-351 | for every request and loaded directory the route is the one that the path, the path and query, the manifest file's index path, the view files' URLs and the Accept items call for |
| GatewayContent.PublishedViewIsServed | crates/serving/src/lib.rs:334-351 | a GET whose path and query are those of a published view's URL, under any authority, by http, https or path alone, is routed to that very view in the preferred representation; so is one without path and query to the view at a slash |
| GatewayContent.PublishedViewIsAnswered | crates/serving/src/lib.rs:334-351 | in every run such a GET is answered that view of its generation's directory, or the expired problem, and by the origin only when it prefers neither representation |
| GatewayContent.IndexIsServed | crates/serving/src/lib.rs:327-333 | the manifest is served at its well-known path, and the index at the path that the manifest file names |
| GatewayContent.IndexIsAnswered | crates/serving/src/lib.rs:327-333 | in every run a GET for one of those two paths of its generation is never answered by the origin, and gets the manifest or the index |
| GatewayContent.OriginFailuresAreProblems | crates/serving/src/lib.rs:871-934 | in every run an origin that fails, times out or is not asked gives the problem with the status and code for that reason, and nothing else |
| GatewayContent.PageExactly | crates/serving/src/lib.rs:781-792 | a reply is a page exactly when the type in its first content type, in any case, with blanks and parameters or not, is text/html |
| GatewayContent.NoPage | crates/serving/src/lib.rs:781-787 | a reply without a content type, or whose first one does not read as text, is no page |
| Serving.MarkdownSplits | crates/serving/src/lib.rs:726-737 | the markdown of a view cut at any chunk is that of the two parts with an empty line between |
| Serving.MarkdownOfChunk | crates/serving/src/lib.rs:726-737 | one chunk is its content, marked when it is a heading |
| GatewayReloads.FailedReloadsInvisible | crates/serving/src/lib.rs:571-656 | taking all steps of any set of reloads that never commit out of any run leaves requests, answers, other reloads, store, flag, other counters and other log lines as they were |
| GatewayReloads.ClientsCannotTell | crates/serving/src/lib.rs:571-656 | any run without any of its uncommitted reloads gives the same answers in the same order and no counted failure |
| GatewayConservation.RequestsAreConserved | crates/serving/src/lib.rs:324-370 | in every run requests_total is the number of requests begun, and manifest + views + passthrough, and manifest + views + upstream errors, never exceed it |
| GatewayAccounts.CountersAreAnswers | crates/serving/src/lib.rs:324-370 | in every run with all requests answered each request counter is exactly the number of answers of its kind: all, manifests in full, views and indexes in full, views negotiated away, and origin failures and timeouts |
| GatewayAccounts.AccountsRun | crates/serving/src/lib.rs:324-370 | at every moment each is that number plus the requests in flight that have already counted |
| GatewayConservation.ReloadsAreConserved | crates/serving/src/lib.rs:596-641 | in every run, with a store or without, commits are store_reloads_total plus the reloads between swap and count, and store_reload_failures_total is the number of reloads that have counted their failure |
| GatewayFlag.FlagRun | crates/serving/src/lib.rs:559-569 | in every run the flag is up exactly when it was raised and not reset since, between any two raises there is a reset, and each raise has one expiry line written or about to be |
| GatewayFlag.ExpiryLinesAreBounded | crates/serving/src/lib.rs:559-619 | in every run expiry lines are at most one plus the flag resets |
| GatewayFlag.ExpiredAnswerLogsExactly | crates/serving/src/lib.rs:559-569 | in every run a request that found its store expired logs it exactly when the flag was not raised since the last reset; if its own generation never raised the flag, exactly when no other generation has since that reset |
| GatewayFlag.LosingRunLogsOnce | crates/serving/src/lib.rs:559-619 | from any state with two stores to expire: both are answered as expired, with an accepted reload and reset in between, and there is one line |
| GatewayFlag.LogIsNotLinearizable | crates/serving/src/lib.rs:559-619 | no sequence of that run's three whole calls that ends with the second request, which begins last, gives its answers and its number of lines |
| GatewayFlag.TwoLinesAfterReset | crates/serving/src/lib.rs:559-619 | from any such state two requests that raise the flag on either side of a reset can both write their lines after it |
| GatewayFlag.LinesApartWhenResetsWait | crates/serving/src/lib.rs:559-619 | in every run in which no reset happens while a line is pending, there is a reset between any two lines |
| GatewayLog.OrderGivesLinesWhenApart | crates/serving/src/lib.rs:559-619 | in every run with all requests answered, in which no request answered as expired is before its flag step while a reload is between swap and reset, the order of whole calls gives as many expiry lines as the run |
| GatewayLog.CanAnswerRun | crates/serving/src/lib.rs:382-547 | at every moment of a run a request's own state still allows the answer it gets in the end |
| GatewayExpiry.ServedAfterReloadExactly | crates/serving/src/lib.rs:594-637 | from any state with a store an accepted reload replies that it reloaded, and after it the manifest is served exactly while the reading is below the new expiry, else the expired problem |
| GatewayExpiry.ReloadKeepsServingExactly | crates/serving/src/lib.rs:607 | where the old store would still be served, the new one is if and only if it is unexpired at that reading |
| GatewayExpiry.ExpiredStoreSwappedIn | crates/serving/src/lib.rs:607 | a gateway that serves its manifest accepts a reload and answers the same request, at the same reading, that the manifest has expired |
| GatewayExpiry.LineCanBeLost | crates/serving/src/lib.rs:559-619 | two concrete directories meet what the losing run needs |
| GatewayConservation.CountsRun | crates/serving/src/lib.rs:141-212 | each request counter is always the number of requests that bumped it, each reload counter the number of reloads past that point |
| GatewayConservation.AdvanceBumps | crates/serving/src/lib.rs:324-370 | a request's step raises a counter by one exactly when that request had not raised it before and now has |
| GatewayConservation.CountUpdate | crates/serving/src/lib.rs:141-212 | changing one entry moves a count of entries by that entry's difference |
| GatewaySequential.WholeRequest | crates/serving/src/lib.rs:320-380 | a request's steps, run without interruption, come to: serve the routed content, or count a passthrough if negotiated away and forward |
| GatewaySequential.WholeReload | crates/serving/src/lib.rs:607-637 | an accepted reload run without interruption swaps, counts once, lowers the flag and logs one line |
| GatewaySequential.RolledBackReload | crates/serving/src/lib.rs:599-606 | a reload with a lower sequence run without interruption comes to the counted and logged failure alone |
| GatewaySequential.SequentialIsARun | crates/serving/src/lib.rs:320-380 | from any state six consecutive steps after arrival bring a request to the answer and shared state of its uninterrupted handler |
| GatewaySequential.ContentIsServed | crates/serving/src/lib.rs:326-351 | from any state a request its store has content for can finish by steps of its own, with exactly that content |
| GatewaySequential.ReloadIsARun | crates/serving/src/lib.rs:571-638 | from any state a started reload's four consecutive steps give the shared state and reply of the uninterrupted handler |
| GatewaySequential.ReloadEndsExactly | crates/serving/src/lib.rs:571-656 | from any state a started reload can end by its own steps: refused for the first of no store, the load's own error, or a lower sequence, with one failure counted and logged and nothing else changed, and otherwise committed with the number of views and the sequence of what was loaded |
| ProxyState.ProxyState.ProxyRequest | crates/serving/src/lib.rs:320-380 | the handler's response and its effect on store, flag, counters and log are those of the machine's request steps without interruption |
| ProxyState.ProxyState.ReloadStore | crates/serving/src/lib.rs:571-638 | the handler's reply and its effect are those of the machine's reload steps without interruption, and it always ends as reloaded or refused |
| ProxyState.ProxyState.CommitStore | crates/serving/src/lib.rs:594-637 | under the lock: compare, swap or refuse; the only refusal here is a rollback |
| ProxyState.ProxyState.ReloadFailed | crates/serving/src/lib.rs:640-656 | one failure counted, one line logged, store and flag untouched |
| ProxyState.ProxyState.ServeManifest | crates/serving/src/lib.rs:382-416 | expiry, then If-None-Match, then the bytes with max-age and tag; the manifest counter moves only for a full answer |
| ProxyState.ProxyState.ServeViewIndex | crates/serving/src/lib.rs:418-438 | expiry, then If-None-Match, then the index bytes; the view counter moves only for a full answer |
| ProxyState.ProxyState.ServeViewJson | crates/serving/src/lib.rs:440-468 | the same order for a view's exact bytes, with its tag, signature and Vary |
| ProxyState.ProxyState.ServeViewMarkdown | crates/serving/src/lib.rs:470-501 | the same order for the text derived from the view |
| ProxyState.ProxyState.ForwardToOrigin | crates/serving/src/lib.rs:353-380 | failures and timeouts count an upstream error, refused requests do not, replies are stripped and linked |
| ProxyState.ProxyState.ExpiredManifestProblem | crates/serving/src/lib.rs:533-547 | the problem is returned exactly when the expiry is at or before the reading, and only then the flag and log may change |
| ProxyState.ProxyState.LogManifestExpiredOnce | crates/serving/src/lib.rs:559-569 | a line is logged exactly when the flag was down, and the flag ends up |
| ProxyState.ProxyState.constructor | crates/serving/src/lib.rs:216-226 | a new gateway has its store, a lowered flag, zero counters and an empty log |
| ProxyState.Metrics.constructor | crates/serving/src/lib.rs:141-151 | all seven counters start at zero |
| ProxyState.Metrics.IncrementRequestsTotal | crates/serving/src/lib.rs:155-157 | that counter rises by one and no other changes |
| ProxyState.Metrics.IncrementUpstreamErrorsTotal | crates/serving/src/lib.rs:160-162 | that counter rises by one and no other changes |
| ProxyState.Metrics.IncrementViewsServedTotal | crates/serving/src/lib.rs:165-167 | that counter rises by one and no other changes |
| ProxyState.Metrics.IncrementManifestServedTotal | crates/serving/src/lib.rs:170-172 | that counter rises by one and no other changes |
| ProxyState.Metrics.IncrementNegotiationPassthroughTotal | crates/serving/src/lib.rs:175-178 | that counter rises by one and no other changes |
| ProxyState.Metrics.IncrementStoreReloadsTotal | crates/serving/src/lib.rs:181-183 | that counter rises by one and no other changes |
| ProxyState.Metrics.IncrementStoreReloadFailuresTotal | crates/serving/src/lib.rs:186-189 | that counter rises by one and no other changes |
| Serving.CacheWithinExpiry | crates/serving/src/lib.rs:402-403 | for every pair of 64-bit readings before the expiry, the seconds never reach past it, are the exact remaining time capped at an hour whenever the difference fits 64 bits, and zero when it does not |
| Revalidation.RevalidatesAcrossReloads | crates/serving/src/lib.rs:398-400 | whatever was committed in between, a client listing tags of bytes it holds, over any number of lines, gets 304 when it holds the served bytes, and the full content when everything it holds differs in length or in exactly one byte (section 13.1.2 of RFC 9110) |
| Revalidation.EchoedTagRevalidates | crates/serving/src/lib.rs:427-429 | a client that sends back the ETag header of an earlier full answer gets 304 if the bytes are still those, the full content if they changed in length or in one byte |
| Revalidation.FullAnswerCarriesItsTag | crates/serving/src/lib.rs:404-413 | the ETag header of a full manifest or index answer is the tag of the very bytes in its body |
| Revalidation.CurrentTagRevalidatesExactly | crates/serving/src/lib.rs:449-451 | on every store route, view tags included, sending the current tag back alone is answered 304 exactly when the tag is echoable |
| Revalidation.EchoedHeaderRevalidatesExactly | crates/serving/src/lib.rs:398-480 | in every run, on every store route, sending back the ETag header of a full answer to the same generation gives 304 exactly when that header is echoable, and the content again otherwise |
| Revalidation.CommaTagNeverRevalidates | crates/serving/src/lib.rs:449-451 | the view tag `"a,b"` sent back by a client that holds the view gets the full view, as JSON and as markdown |
| Revalidation.EchoHitsExactly | crates/serving/src/lib.rs:760-773 | a tag sent back alone hits exactly when it reads as text and is one trimmed comma-free element, or holds a star element |
| Revalidation.HitsExactlyWhenListed | crates/serving/src/lib.rs:760-773 | a comma-separated list with blanks and empty elements anywhere, over any number of lines, hits exactly when it lists the tag or a star |
| Revalidation.WeakComparisonExactly | crates/serving/src/lib.rs:766-768 | for any tag, weak or strong, and any list, the exact comparison agrees with the weak one (section 8.8.3.2 of RFC 9110) exactly when the tag's other form is not listed without the tag or a star |
| Revalidation.OtherFormAloneMissed | crates/serving/src/lib.rs:766-768 | a client that sends only the other form of a tag matches by the weak comparison and is not hit |
| Revalidation.OtherFormMissed | crates/serving/src/lib.rs:766-768 | in particular `W/"x"` for the tag `"x"`, and `"x"` for the tag `W/"x"` |
| Revalidation.AnswersFollowWeakComparisonExactly | crates/serving/src/lib.rs:398-480 | in every run answers on every store route, view tags included, are 304 as the weak comparison asks exactly under that condition on the current tag |
| Revalidation.ComputedTagsHaveWeakForm | crates/store/src/lib.rs:556-567 | the other form of a manifest or index tag is the tag with the weakness prefix |
| Revalidation.TagSeesChange | crates/store/src/lib.rs:191-228 | equal bytes have equal manifest or index tags; another length or one changed byte always gives another tag |
| EntityTag.SameTag | crates/store/src/lib.rs:556-567 | two byte strings with the same tag have the same length and are identical or differ in at least two places |
| EntityTag.ChangeSeen | crates/store/src/lib.rs:556-567 | a changed length or a single changed byte always changes the tag |
| EntityTag.FnvSeesOneByte | crates/store/src/lib.rs:558-565 | changing one byte anywhere in the input always changes the 64-bit hash |
| EntityTag.FnvInjectiveInState | crates/store/src/lib.rs:558-565 | hashing the same bytes from two states gives the same result only from the same state |
| EntityTag.StepInjectiveInState | crates/store/src/lib.rs:563-564 | a step with a fixed byte loses nothing of the 64-bit state |
| EntityTag.StepInjectiveInByte | crates/store/src/lib.rs:563-564 | from one state different bytes lead to different states |
| EntityTag.MulByPrimeInjective | crates/store/src/lib.rs:564 | multiplying by the FNV prime modulo 2^64 is injective |
| EntityTag.XorCancel | crates/store/src/lib.rs:563 | exclusive or with a byte is its own inverse |
| EntityTag.PublishedValues | crates/store/src/lib.rs:556-565 | the hashes of the empty string, `a` and `fo` are the published 64-bit FNV-1a values |
| EntityTag.TagReadsBack | crates/store/src/lib.rs:556-567 | a tag is, between quotes, sixteen hexadecimal digits that read as the hash of prefix, bytes and extra in that order, a hyphen, and decimal digits that read as the number of bytes |
| EntityTag.TagTextInjective | crates/store/src/lib.rs:566 | hash and length can both be read back from the tag's text |
| EntityTag.TagCharacters | crates/store/src/lib.rs:566 | a tag is quoted and holds no comma, blank or star, so it survives in a list |
| EntityTag.StrongEtag | crates/store/src/lib.rs:556-567 | the hashing loop over prefix, bytes and extra computes the recursive FNV-1a of their concatenation |
| Headers.IfNoneMatchMatches | crates/serving/src/lib.rs:760-773 | the early-return loops are true exactly when some readable value has an element that trims to the tag or a star |
| Headers.HopByHopNames | crates/serving/src/lib.rs:848-869 | the names collected are exactly the fixed ones and those named by a valid token of a readable Connection value |
| Headers.StripHopByHopHeaders | crates/serving/src/lib.rs:835-846 | removing in place leaves exactly the headers that are not hop-by-hop (section 7.6.1 of RFC 9110), with all their values |
| Headers.StrippingKeepsExactly | crates/serving/src/lib.rs:835-869 | a header survives with all its values exactly when it is none of connection, keep-alive, te, trailer, transfer-encoding and upgrade, does not begin with proxy-, and is named by no token of a readable Connection value |
| Headers.TokenCharsExactly | crates/serving/src/lib.rs:861 | the token characters are the visible ones but the delimiters of section 5.6.2 of RFC 9110 |
| Headers.ReadableExactly | crates/serving/src/lib.rs:859 | a value reads as text exactly when it is tabs, spaces and visible ASCII, of which trimming takes off tabs and spaces |
| Headers.InsertableExactly | crates/serving/src/lib.rs:775-779 | a header is set exactly when its value has no control character but the tab, and no delete |
| Headers.EndToEndIdempotent | crates/serving/src/lib.rs:835-846 | stripping twice equals stripping once |
| Headers.CombinedAcceptHeader | crates/serving/src/lib.rs:746-758 | the readable lines in order, joined by commas; none when no line is readable |
| Negotiation.Negotiate | crates/serving/src/lib.rs:679-724 | the early-return loop gives AjarJson exactly when some item of that type is acceptable, else Markdown exactly when some item of that type is, else Passthrough |
| Negotiation.ReadWeights | crates/serving/src/lib.rs:697-709 | the parameter loop finds an unreadable weight exactly when there is one, and otherwise the last weight, one if none |
| Negotiation.OrderAndRepetitionDoNotMatter | crates/serving/src/lib.rs:687-723 | permuting or repeating items never changes the choice |
| Negotiation.LinesDoNotMatter | crates/serving/src/lib.rs:746-758 | combining readable lines and negotiating is negotiating over the items of all of them (section 5.3 of RFC 9110) |
| Negotiation.LineOrderDoesNotMatter | crates/serving/src/lib.rs:746-758 | the same lines in any order, with any repeats, give the same choice |
| Negotiation.SameItemsSameChoice | crates/serving/src/lib.rs:687-688 | any two ways to spread the same items over lines give the same choice |
| Negotiation.NothingToChoose | crates/serving/src/lib.rs:680-685 | without a view, or without a readable Accept line, the origin answers |
| AcceptGrammar.WeightReadsInner | crates/serving/src/lib.rs:700-703 | a weight in either case, with blanks around name and value and any number of quotes on either side, reads as the text inside the quotes |
| AcceptWeights.AnyWeightsExactly | crates/serving/src/lib.rs:697-712 | a type with weights of any text is an acceptable offer exactly when every one reads as a number and the last is above zero or not a number |
| AcceptWeights.EmptyWeights | crates/serving/src/lib.rs:700-703 | a weight name without a value, or with quotes alone, is a weight of no text |
| AcceptWeights.SpellingDoesNotMatter | crates/serving/src/lib.rs:688-717 | two lists, with no comma inside their items, of the same items however their weights are written, quoted or not, select the same |
| AcceptWeights.QuotedWeightSelects | crates/serving/src/lib.rs:688-717 | in particular a quoted weight selects as the same weight unquoted |
| AcceptExamples.BareTypes | crates/serving/src/lib.rs:43-44 | application/ajar+json alone gets ajar JSON, and text/markdown alone gets markdown |
| Text.LowerCharExactly | crates/serving/src/lib.rs:691 | folding case turns the twenty-six capitals into their small letters and changes nothing else |
| AcceptLists.PrintedListSelects | crates/serving/src/lib.rs:688-717 | negotiating over a printed list with no comma inside its items, in any spelling of blanks and case, selects by the wanted items whose stray weights are harmless, and that is what the list asks for (section 12.4.2 of RFC 9110) exactly when such an item still offers it |
| AcceptLists.PlainListSelects | crates/serving/src/lib.rs:688-717 | with no comma inside its items and no semicolon inside its parameters, a printed list always selects by its abstract items |
| AcceptLists.AnyListSelectsExactly | crates/serving/src/lib.rs:688-723 | any printed list of valid items, commas and semicolons inside or not, selects by the weights its items are read with and by what follows their commas, and gets what it asks for exactly when that is not lost, no refused item before it counts, and nothing before it is smuggled in |
| AcceptLists.NamelessListSelectsExactly | crates/serving/src/lib.rs:688-723 | when what follows inner commas names neither type, a list gets what it asks for exactly when the chosen type still counts and no refused item of a type before it does |
| AcceptLists.MeantListSelects | crates/serving/src/lib.rs:688-723 | and, also then, always when every item reads as it is meant |
| AcceptLists.RevivedExactly | crates/serving/src/lib.rs:689-712 | a refused item counts exactly when a comma cuts off its weight and the stray weights before that comma, if any, all read and end above zero |
| AcceptLists.ItemOffers | crates/serving/src/lib.rs:688-712 | the fragments of an item offer a type exactly when it is the item's own and counts by the weights left to it, or a later fragment offers it |
| AcceptLists.AnyLinesSelectExactly | crates/serving/src/lib.rs:746-758 | the same reading and the same condition for lists over several header lines |
| AcceptExamples.QuotedCommaOpensOffer | crates/serving/src/lib.rs:688-717 | an item of another type with ajar JSON between commas in its parameter is valid, harmless, asks for neither representation, and gets ajar JSON |
| AcceptExamples.QuotedCommaExample | crates/serving/src/lib.rs:688-717 | in particular `text/html;x="a,application/ajar+json,b"` |
| AcceptExamples.RefusedItemServed | crates/serving/src/lib.rs:688-714 | a refused ajar JSON item with a comma in a parameter and no stray weight before it is harmless, asks for nothing, and gets ajar JSON |
| AcceptExamples.RefusedItemExample | crates/serving/src/lib.rs:688-714 | in particular `application/ajar+json;x="a,b";q=0` |
| AcceptLists.PrintedLinesSelect | crates/serving/src/lib.rs:746-758 | the same, with the same condition, for lists printed over several header lines |
| AcceptGrammar.AcceptableIffWanted | crates/serving/src/lib.rs:688-712 | what is read as an item, its text up to the first comma, is acceptable just when the item is wanted, exactly when: uncut, its stray weights are harmless; cut, the strays before the comma are acceptable just when it is wanted |
| AcceptGrammar.OwnFragmentReadsBack | crates/serving/src/lib.rs:688-703 | an item's text up to its first comma gives back its media type, with all its weights when there is no comma and only the strays before it when there is |
| AcceptGrammar.PlainIsHarmless | crates/serving/src/lib.rs:689-699 | an item whose parameters hold no semicolon has no stray weight to be misread, so it is harmless |
| AcceptLists.OneOfferSelectsExactly | crates/serving/src/lib.rs:688-717 | for a list of one offer the choice is the intended one exactly under that condition |
| AcceptLists.ListReadsBack | crates/serving/src/lib.rs:688 | a printed list is cut into its items exactly when none of them holds a comma |
| AcceptGrammar.ItemReadsBack | crates/serving/src/lib.rs:689-703 | an item's text gives back its media type and its weight, after the stray weights of its parameters |
| AcceptExamples.ExactReaderReadsQvalues | crates/serving/src/lib.rs:704 | exact decimal reading of qvalues satisfies the assumption made of the float reader |
| AcceptExamples.QuotedSemicolonExample | crates/serving/src/lib.rs:689-712 | an unweighted markdown offer with the parameter `x="a;q=0"` is wanted and yet not selected |
| PreparedStore.LoadFromDir | crates/store/src/lib.rs:166-240 | the loading sequence with its early returns computes the load that the theorems below are about, first error included |
| PreparedStore.CheckManifestLifecycle | crates/store/src/lib.rs:437-453 | the early-return checks over the timestamps as read give the lifecycle that LifecycleExactly characterises |
| PreparedStore.IndexViews | crates/store/src/lib.rs:201-226 | the loop with its seen set and map gives the index of all files or the first failure |
| PreparedStore.JsonFiles | crates/store/src/lib.rs:455-465 | the names with the extension, in listing order; a failed listing is an error |
| PreparedStore.StopsAtFailure | crates/store/src/lib.rs:203-226 | once a file fails, no later file changes the result |
| PreparedStore.IndexNext | crates/store/src/lib.rs:204-225 | one more file either fails the load with its own error, fails it as a duplicate, or adds exactly one entry |
| PreparedStore.AfterAuthority | crates/store/src/lib.rs:484-488 | what is left of a URL after its authority always starts with a slash |
| StoreTheorems.LoadsExactly | crates/store/src/lib.rs:166-240 | a directory loads exactly when manifest, index and listing are in order, every view file loads and no two share a target; the map then holds exactly the files |
| StoreTheorems.LoadReportsFirstFailure | crates/store/src/lib.rs:166-240 | every failing load reports the first fault in order: manifest, index, listing, then the first failing view file by name, by its own error or as a duplicate |
| StoreTheorems.ViewLoadsExactly | crates/store/src/lib.rs:204-221 | a view file loads exactly when it is there, decodes and has a servable URL, and is stored whole under a target that starts with a slash; else the error says which was missing |
| StoreTheorems.OnlyUrlsCanFail | crates/store/src/lib.rs:201-226 | with well-formed files a load fails exactly when some URL is unservable or two map to one target |
| StoreTheorems.LookupIsScan | crates/store/src/lib.rs:253-255 | a lookup finds what a scan of the files finds: the one file of that target, or nothing |
| StoreTheorems.LookupIsFile | crates/store/src/lib.rs:253-255 | whatever a lookup finds is the bytes and view of a file whose URL maps to that target |
| StoreTheorems.ViewCountIsFileCount | crates/store/src/lib.rs:263-265 | as many views are kept as the directory has `.json` names |
| StoreTheorems.ListingOrderDoesNotMatter | crates/store/src/lib.rs:197-226 | the load's result, error included, is the same for every permutation of the listing |
| StoreTheorems.SortedUnique | crates/store/src/lib.rs:199 | two sorted arrangements of the same names are equal, so any correct sort gives this load order |
| StoreTheorems.SortSorts | crates/store/src/lib.rs:199 | the names come out sorted and none is lost, added or repeated |
| StoreTheorems.NameLeqExactly | crates/store/src/lib.rs:199 | a name is before another exactly when it is the start of it, or smaller at their first difference |
| StoreTheorems.JsonExtensionExactly | crates/store/src/lib.rs:460 | a view file's name is a stem, not empty, followed by `.json` |
| StoreTheorems.IndexExactly | crates/store/src/lib.rs:201-226 | indexing succeeds exactly when every file loads and no target repeats, with one entry for each file |
| StoreTheorems.ReportsFirstFailure | crates/store/src/lib.rs:203-226 | a failed index names the first position that fails |
| StoreTheorems.ViewNamesAreTheFiles | crates/store/src/lib.rs:455-465 | a name is loaded exactly when it is listed and has the extension |
| StoreTheorems.PublishedViewIsFound | crates/store/src/lib.rs:473-491 | a view published under any authority by http, https or path alone is found by a request for its path and query |
| StoreTheorems.TargetIgnoresOrigin | crates/store/src/lib.rs:473-491 | scheme and authority never matter; without a path the target is a slash |
| StoreTheorems.TargetExists | crates/store/src/lib.rs:473-491 | a URL is servable exactly when it starts with a slash or one of the two schemes, and mapping a target again changes nothing |
| StoreTheorems.SampleLoads | crates/store/src/lib.rs:166-240 | a concrete directory with a view published under another origin loads, and that view is found at its path |
| StoreTheorems.LoadedIsWellTimed | crates/store/src/lib.rs:437-453 | a loaded manifest is issued before it expires, lives at most 180 days and was unexpired at the load's reading |
| StoreTheorems.LifecycleExactly | crates/store/src/lib.rs:437-453 | a manifest is accepted exactly when its sequence is not negative, both timestamps parse, and issue < expiry <= issue + 180 days and now < expiry |
| StoreTheorems.LifecycleErrors | crates/store/src/lib.rs:437-453 | and otherwise the error is that of the first fault: the sequence, a timestamp, the order of the two, the lifetime, the expiry |
| StoreTheorems.LoadKeepsManifest | crates/store/src/lib.rs:228-239 | after every load the index path, the sequence, the expiry and the bytes kept are those of the manifest file |
| StoreTheorems.AcceptedBeforeIssue | crates/store/src/lib.rs:437-453 | a manifest issued in 2026 is accepted at reading 0 |
| Timestamp.DaysFromCivilIsNaive | crates/store/src/lib.rs:542-554 | the era arithmetic, with every intermediate value in 32 bits, is the naive day count for years 0 to 9999, January and February of year 0 and days past the month's end included |
| Timestamp.DaysFromCivilIsMarchCount | crates/store/src/lib.rs:542-553 | eras and truncating division come to a floor-division count of years that start in March |
| Timestamp.ParseDigits | crates/store/src/lib.rs:523-532 | the accumulating loop gives the decimal value of all digits, or the error at any other byte, without overflow |
| Timestamp.ReadRfc3339Utc | crates/store/src/lib.rs:493-521 | reading a text digit by digit with early returns gives the parse the theorems below are about, without overflow |
| Timestamp.DigitsValue | crates/store/src/lib.rs:523-532 | a value exactly when every byte is a digit, and always below ten to the length |
| Timestamp.ParseRfc3339Utc | crates/store/src/lib.rs:493-521 | the only error is the time error, and accepted values stay far from the ends of 64 bits |
| Timestamp.ParseRender | crates/store/src/lib.rs:493-521 | rendering any in-range fields and parsing gives the seconds of those fields on the naive calendar |
| Timestamp.RenderFields | crates/store/src/lib.rs:493-540 | every accepted text is the rendering of its fields, so nothing outside the one form is accepted |
| Timestamp.AcceptedExactly | crates/store/src/lib.rs:493-540 | a text is accepted exactly when it is twenty ASCII characters of the form in section 5.6 of RFC 3339 with each field in its range, and its value is the seconds of those fields on the naive calendar |
| Timestamp.RenderedText | crates/store/src/lib.rs:493-508 | the separators are `-`, `T`, `:` and `Z`, and the fields ASCII digits of their values |
| TimestampOrder.InstantRoundTrip | crates/store/src/lib.rs:493-521 | rendering any instant of years 0 to 9999 and parsing it gives the instant back (section 5.6 of RFC 3339) |
| TimestampOrder.TextRoundTrip | crates/store/src/lib.rs:509-516 | parsing an accepted text and rendering the instant gives the text back exactly when its day exists |
| TimestampOrder.CivilOf | crates/store/src/lib.rs:517-520 | every instant of years 0 to 9999 is that of calendar-valid fields |
| TimestampOrder.ByteOrderIsTimeOrder | crates/store/src/lib.rs:493-521 | on calendar-valid texts byte order is time order, in both directions (section 5.1 of RFC 3339) |
| TimestampOrder.ByteOrderExact | crates/store/src/lib.rs:509-516 | an accepted text keeps byte order with every calendar-valid text exactly when its own day exists |
| TimestampOrder.RolloverBreaksByteOrder | crates/store/src/lib.rs:509-516 | a day past its month's end sorts before the first of the next month and is no earlier |
| TimestampOrder.RolloverValue | crates/store/src/lib.rs:509-520 | such a text has the value of the calendar-valid text of the day it runs into |
| TimestampOrder.ThirtiethOfFebruary | crates/store/src/lib.rs:509-516 | 30 February is accepted |
| Calendar.YearStartClosed | crates/store/src/lib.rs:552 | adding year lengths one by one comes to the leap-day formula, before and after 1970 |
| Calendar.DayNumberStrict | crates/store/src/lib.rs:542-554 | later calendar dates have greater day numbers |
| Calendar.Rollover | crates/store/src/lib.rs:510 | a day past the month's end is that day of the next month |
| Text.SplitJoin | crates/serving/src/lib.rs:688-756 | splitting a join gives the pieces of every line, in line order |
| Text.SplitJoinPieces | crates/serving/src/lib.rs:688 | joining pieces without the separator and splitting gives them back |
| Text.JoinSplit | crates/serving/src/lib.rs:688 | splitting and joining gives the text back, and no piece holds the separator |
| Text.TrimPadded | crates/serving/src/lib.rs:691 | trimming takes off exactly the padding |

## Left out

- Sockets, HTTP parsing and routing by the web framework, the upstream client, timeouts and shutdown: the origin is a parameter that replies, fails, times out, or is never asked because the request was refused.
- Content-Length checks, the body limit and the upstream URI: they are the refused outcome of the origin parameter, not computed here.
- The request as forwarded upstream is not kept in the machine; its headers go through the same stripping method.
- The URI library: a request carries its path and its optional path and query.
- Header name order in the map: a header map takes each name to its values in order; the library's own order of names is not promised either.
- JSON decoding and required-field checks: a file decodes to malformed, field missing or a typed value. The view index is any JSON, as in the source.
- Reading floats: `Negotiation.FloatParser` is a parameter. The grammar theorems ask that it gives every qvalue a finite value, above zero exactly when a digit is; `AcceptExamples.ExactReaderReadsQvalues` shows this can be met.
- The file system: a directory is what one load reads of it, so changes during a load are covered; file names that are not text, paths and symbolic links are not modelled.
- The library sort is modelled as insertion; `StoreTheorems.SortedUnique` makes the choice irrelevant.
- Relaxed atomic operations are treated as sequentially consistent.
- The order of whole calls gives answers, replies and the store; counters are the subject of `GatewayConservation` and `GatewayAccounts`, and the flag and log have no such order in general.
- Counters are unbounded; wrapping after 2^64 increments is not modelled.
- Lock poisoning and its two error answers. The rollback branch logs while it holds the write lock, and that panics, poisoning the lock, when standard error is closed; standard error that can fail is not part of this model.
- Subtraction in `seconds_until_expiry` wraps, as in an optimised build; a checked build would stop on clocks more than 2^63 seconds before the expiry.
- The source writes the commit under the lock, the loop over views, the reading of one view and the loop over parameters inline, and the three view handlers each repeat one shape; here these parts are functions and methods of their own.
- That a changed view changes its tag: view tags are author-supplied and may stay the same, so only the manifest and the index have that guarantee.
- Signatures are passed on and never verified, in the source as here.
- Status codes and bodies of the admin replies to a reload: a reply is the outcome and its reason.
- Texts of problem bodies and log lines, the metrics page, configuration, the health endpoint, and the crates that hold only traits and stubs.
