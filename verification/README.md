# intelli-prism, modelled and proved in Dafny

intelli-prism is an api gateway that runs as a cluster of like nodes. This project models the parts of it where
being wrong would be hard to see, and proves what they promise for every input, every run and every interleaving.

| file | what it models |
|---|---|
| `Propagation.dfy` | rules committed to storage, published in the cache by racing publishers, announced, and reloaded by nodes that lose lines, fail and retry |
| `SledTrees.dfy`, `SledCache.dfy`, `SledRaces.dfy` | the single-node cache: four trees kept in step, least-recently-used eviction, and the races of claiming and counting |
| `Sse.dfy` | cutting a streamed body into server-sent events as it arrives, and the event that tells of a refusal |
| `Periods.dfy`, `Limits.dfy`, `Counters.dfy` | the stretches limits count over, which limits apply, the keys they count under, and rates and quotas under any interleaving |
| `RoutingTable.dfy`, `Dispatch.dfy` | which rule a request falls to, and which of its endpoints |
| `Identity.dfy`, `Management.dfy` | accounts, tenants, memberships and grants, and the management api over them |
| `Recheck.dfy` | the lock on asking a logged in user for its passphrase again |
| `Headers.dfy` | the header block plugins read and write |
| `Bytes.dfy`, `Texts.dfy`, `Sums.dfy`, `Common.dfy` | byte order, cutting at a mark, totals, and shared datatypes |

What the source updates in place is a class here (`SledCache.Cache`, `Sse.Pump`, `Dispatch.Plan`, `Management.Directory`,
`Recheck.Guard`), and its loops are loops. What several tasks or nodes do at once is a state machine over their atomic
steps, and its theorems range over every legal run. Clocks, random draws, backoff and failures are parameters or
free choices. Integers are unbounded, and 32- and 64-bit saturation and wrap-around are written out where the source
has them.

Where a promise turned out false of the code, the code stands as it is, a lemma gives the failing input, and another
says exactly when the promise holds:

- a node that starts while a publish lands between its first read of storage and its first read of the publication
  rests on the old rules, or on a mix of old and new, and nothing but a further commit wakes it (`TheGapIsReachable`,
  `ATornStartIsReachable`, `TheGapLasts`; exactly when, `AtRestIsUpToDateExactly`);
- a node whose line was lost while a change landed, and whose one catch-up read then fails, rests on the old rules until
  a further commit or a further loss of its line (`AFailedCatchUpIsReachable`, `AFailedCatchUpLasts`; that these are the
  only two ways to be left behind, `AStillFollowerIsBehindExactly`);
- a read that records its use after the entry was removed can leave eviction without an end (`AStallIsReachable`;
  exactly when, `EvictionEndsExactly`);
- a claim or a count can go unrecorded in its level's size (`AClaimGoesUnrecorded`; exactly when,
  `AClaimIsRecordedExactly`);
- a count's late write can lose another caller's (`ALateWriteLosesACount`; exactly when, `CountsAreRightExactly`);
- in the last stretch the clock can hold a period ends no later than the moment asked about
  (`TheLastMomentHasNoLaterEnd`; exactly when, `APeriodEndsLaterExactly`);
- a grant checked before its member left and written after comes back with the member (`ALateGrantComesBack`;
  exactly which writes are safe, `AWriteKeepsExactly`);
- rechecks that race can be checked past the limit (`AnOverrunIsReachable`; exactly when, `TheLimitIsKeptExactly`, and
  by exactly how much, `RacingRechecksOverrunByWhatWasInFlight`);
- a header value with space at either end does not come back (`OuterSpaceIsLost`; exactly when, `RoundTripsExactly`).

## Model

| member | source | states |
|---|---|---|
| Propagation.StepKeeps | src/rules.rs:77-265 | every atomic step of storage, publishers (redis script or sled compare-and-swap), healers and nodes keeps the protocol's invariant and lets no revision go back |
| Propagation.FreshFits | src/rules.rs:67-89 | storage holding its first rules and nothing else meets the invariant |
| Propagation.PropagationIsSafe | src/rules.rs:77-89 | over every run, however it is cut in two: the published revision never goes back, what is published is storage's set at that revision, no node's applied revision goes back, and a node that has reloaded serves storage's set at what it applied |
| Propagation.LandingKeeps | crates/ip-cache/src/cluster.rs:129-137 | landing a newer publication and announcing it to every line that is up keeps the invariant |
| Propagation.PublishingKeeps | crates/ip-cache/src/standalone.rs:412-435 | each step of a publisher or healer, the compare-and-swap retry and the abort included, keeps the invariant |
| Propagation.OnlyALandedReloadChangesServing | src/rules.rs:202-213 | past startup no step but a reload's apply changes what a node serves or has applied; a failed build changes nothing |
| Propagation.NoAnnouncementIsLost | src/rules.rs:217-235 | in every run, a follower waiting with nothing left to look at has applied everything announced to it since it began to follow |
| Propagation.APublishLands | crates/ip-cache/src/standalone.rs:412-435 | over every run, a publish that is done and was not given up, through however many lost swaps, leaves a revision at least its own published |
| Propagation.APublisherLeftAloneIsDone | crates/ip-cache/src/standalone.rs:412-435 | from wherever its loop has got to, swaps already lost included, a publisher left alone is done, and its set is published if and only if it is newer |
| Propagation.ALandingIsAnnounced | crates/ip-cache/src/cluster.rs:129-137 | a landing sends its revision to every line that is up, behind what is on its way there, and does nothing else to any node |
| Propagation.EachPartIsStorages | src/state.rs:91-106 | over every run, the routes, the plugins and the limits a node serves before its first reload were each storage's at some revision from the one it started at on |
| Propagation.AHealGoesOnExactlyWhenBehind | src/rules.rs:133-141 | a heal goes on to publish if and only if nothing is published or what is published is behind the revision read first, and is otherwise over with nothing changed |
| Propagation.AFailedPublishChangesNothing | src/rules.rs:77-89 | a publish may fail wherever it has got to, and leaves everything but itself as it was |
| Propagation.AFailedReloadIsTriedAgain | src/rules.rs:238-265 | a reload that fails at either of its steps keeps what is served and starts over, at once where there is news, which then counts as seen |
| Propagation.ANodeThatGivesUpServesOn | src/rules.rs:217-225 | a node that cannot follow serves what it started with over every run from there |
| Propagation.AnAnnouncementIsLostWithItsLine | crates/ip-cache/src/cluster.rs:186-223 | a line that is lost loses what was on its way; the read on resubscribing makes up for it, and where that fails nothing does |
| Propagation.AStillFollowerIsBehindExactly | src/rules.rs:217-265 | a follower that waits with its line up, nothing to look at and nothing on its way is behind the publication if and only if it is in one of two gaps: what was published as it began to follow is newer than its start and still the newest, or a catch-up failed and what is published was neither announced to it nor taken by it |
| Propagation.AtRestIsUpToDateExactly | src/rules.rs:217-265 | a follower at rest, which leaves out one whose catch-up failed, is up with the publication if and only if it started at or past what was published as it began to follow, or something was published since |
| Propagation.AtRestServesStorage | src/state.rs:91-106 | outside the gap of a start and with the cache healed, a follower at rest, no failed catch-up behind it, serves exactly storage's set |
| Propagation.TheGapIsReachable | crates/ip-cache/src/standalone.rs:445-471 | a concrete run that leaves a node at rest on the old rules under a healed cache |
| Propagation.ATornStartIsReachable | src/state.rs:91-106 | for every two sets that differ in their routes and in the rest, a run that leaves a node at rest, in the same gap, on the routes of the one with the plugins and limits of the other, a set storage never held |
| Propagation.TheGapLasts | src/rules.rs:133-141 | in every run without a further commit, healing included, such a node keeps serving the old rules |
| Propagation.AFailedCatchUpIsReachable | crates/ip-cache/src/cluster.rs:186-223 | for every two sets, a run in which a change lands while a line is lost and the read on resubscribing fails leaves the node still, outside the gap of a start, on the old rules under a healed cache |
| Propagation.AFailedCatchUpLasts | crates/ip-cache/src/cluster.rs:186-223 | in every run without a commit and without that line lost again, healing included, such a node stays exactly as it is |
| Propagation.QuietStepsLowerTheLag | src/rules.rs:217-265 | while storage is quiet no step raises the lag of cache and nodes, and each publish or reload that lands lowers it |
| Propagation.QuietRunsSettle | src/rules.rs:217-265 | in any quiet run the landings and the lag left come to no more than the lag at its start |
| Propagation.HealingLands | src/rules.rs:133-141 | whenever the cache is behind, one heal brings it to exactly what storage holds, by the redis script and by the sled compare-and-swap |
| Propagation.AWokenNodeCatchesUp | src/rules.rs:238-265 | a waiting node with an announcement to look at reaches exactly what is published by waking, reading and applying |
| Propagation.AFollowerCatchesUp | src/rules.rs:217-265 | every follower that is behind, whatever its phase, its line and what is on its way, reaches exactly what is published by steps of its own, unless it is in the gap of a start or has a failed catch-up behind it with nothing on its way and no reload begun |
| Propagation.AFollowerComesToRest | src/rules.rs:217-265 | every follower, whatever its phase, its line and what is on its way, comes to be still by steps of its own, and to rest unless its line was up with a failed catch-up behind it |
| SledTrees.ACacheKeyTellsItsLevel | crates/ip-cache/src/key.rs:42-63 | a key made for a level tells that level and no other |
| SledTrees.APrefixIsSpelt | crates/ip-cache/src/key.rs:42-63 | the bytes a level's keys begin with spell `ip:`, the level's word and a colon |
| SledTrees.AWeightIsItsBytes | crates/ip-cache/src/standalone.rs:368-370 | the weight of a level is the bytes of its keys and entries counted one by one |
| SledTrees.StampedReadsBack | crates/ip-cache/src/standalone.rs:396-408 | a stamped value reads back until exactly its ttl has passed, and always without one |
| SledTrees.IndexSortsByUse | crates/ip-cache/src/standalone.rs:387-393 | the byte order of one level's index keys is the order of use, oldest first |
| SledTrees.DropKeepsAgreement | crates/ip-cache/src/standalone.rs:115-132 | dropping an entry keeps entries and uses over the same keys, with one index key each, built from the recorded use |
| SledTrees.TouchKeepsIndex | crates/ip-cache/src/standalone.rs:161-184 | recording a use keeps the index in step with the uses, whether or not the entry is still there |
| SledTrees.WriteRestoresAgreement | crates/ip-cache/src/standalone.rs:135-158 | a write brings its key back into agreement from whatever a swap left |
| SledTrees.AgreementCounts | crates/ip-cache/src/standalone.rs:115-184 | trees that agree hold exactly as many index keys as entries |
| SledTrees.RunsKeepTheIndex | crates/ip-cache/src/standalone.rs:115-334 | every interleaving of drops, writes, touches and swaps keeps exactly one index key per recorded use, built from it |
| SledTrees.SizesStayExact | crates/ip-cache/src/standalone.rs:115-158 | over every interleaving of writes, drops and touches, each level's recorded size is the weight of its entries |
| SledTrees.AStepOverstatesExactly | crates/ip-cache/src/standalone.rs:115-334 | from a size that does not exceed the weight, a step makes it do so if and only if it is a swap whose lighter entry takes more weight away than the size was short of |
| SledTrees.RunsOverstateExactly | crates/ip-cache/src/standalone.rs:115-334 | over every interleaving, a recorded size is within the true weight at every moment if and only if each swap leaves the level at least the weight then recorded for it |
| SledTrees.SizesAreNeverOverstated | crates/ip-cache/src/standalone.rs:220-334 | over every interleaving, puts of any weights among it, in which no claim or count swaps out a heavier entry, no recorded size exceeds the true weight |
| SledTrees.AClaimIsRecordedExactly | crates/ip-cache/src/standalone.rs:220-260 | a claim's or count's swap and write leave an exact size exact if and only if the entry weighs what it replaced, or the level held nothing else and the entry is no lighter; they overstate it if and only if it is lighter; other levels are untouched |
| SledTrees.AClaimGoesUnrecorded | crates/ip-cache/src/standalone.rs:220-260 | the failing case in plain: a claim on a free key in a level that already holds as much leaves the size as it was while the weight grows |
| SledCache.EvictionIsLeastRecentlyUsed | crates/ip-cache/src/standalone.rs:84-103 | eviction brings an exactly sized level inside its limit, takes something only when it was over, and takes nothing used after anything it leaves |
| SledCache.TheNewestSurvives | crates/ip-cache/src/standalone.rs:84-103 | the entry used last is evicted only if it alone exceeds the limit |
| SledCache.WhatEvictionLeaves | crates/ip-cache/src/standalone.rs:84-103 | eviction changes no entry it leaves, touches no other level and keeps every exact size exact |
| SledCache.WhatAPutLeaves | crates/ip-cache/src/standalone.rs:135-158 | a write with its eviction leaves the entry or nothing under its key, every other entry as it was, other levels whole, exact sizes, a level inside its limit, and under a rising clock the entry itself whenever it fits |
| SledCache.OneTurnEvicts | crates/ip-cache/src/standalone.rs:84-103 | a turn of the loop over agreeing trees removes an entry, so the loop ends, and keeps everything gone older than everything left |
| SledCache.EvictionEndsExactly | crates/ip-cache/src/standalone.rs:84-103 | from any trees with an index in step, which every interleaving leaves, some number of turns of the loop brings it to a stop if and only if, for every recorded use of the level whose entry is gone, the entries used before it are heavy enough to bring the level inside its limit |
| SledCache.ALateTouchStallsEviction | crates/ip-cache/src/standalone.rs:161-184 | from any trees, a use recorded for a key whose entry is gone, with too little used before it, leaves a state no number of turns brings to a stop |
| SledCache.AStallIsReachable | crates/ip-cache/src/standalone.rs:84-184 | for every two keys of a level, a put, a removal, the late record of a read and a put too large leave such a state |
| SledCache.Cache.constructor | crates/ip-cache/src/standalone.rs:68-81 | a new cache is empty, its trees agree and its sizes are exact |
| SledCache.Cache.DropEntry | crates/ip-cache/src/standalone.rs:115-132 | the trees after a drop are those of the transaction, and the answer says whether a live entry was there |
| SledCache.Cache.Evict | crates/ip-cache/src/standalone.rs:84-103 | the loop ends with the level evicted, and does nothing to a level without a limit |
| SledCache.Cache.Write | crates/ip-cache/src/standalone.rs:135-158 | the trees after a write are those of the transaction and its eviction, in agreement again |
| SledCache.Cache.Record | crates/ip-cache/src/standalone.rs:135-158 | the trees after the transaction of a write, its saturating sizes included, are those its specification gives |
| SledCache.Cache.RecordUse | crates/ip-cache/src/standalone.rs:161-184 | a use is recorded, whether or not the entry is still there, exactly when something is ever evicted and none is recorded or the last one is a second old, and nothing else changes |
| SledCache.Cache.Get | crates/ip-cache/src/standalone.rs:189-210 | answers the live value, drops an expired one, records the use of a live one, and keeps exact sizes exact |
| SledCache.Cache.Put | crates/ip-cache/src/standalone.rs:212-218 | leaves what a put leaves, from any agreeing trees |
| SledCache.Cache.Claim | crates/ip-cache/src/standalone.rs:220-260 | takes a key exactly when nothing live is under it, changing nothing otherwise, and leaves the swap and the write carried out |
| SledCache.Cache.Counting | crates/ip-cache/src/standalone.rs:305-334 | answers exactly the live count plus what is added, saturating at 64 bits, or what is added alone where nothing live is there, and for a seed the live count or the seed; refuses and changes nothing where the bytes are no count, and otherwise leaves the swap and the write carried out; the new count reads back for its whole ttl wherever eviction left it, and a level without a limit always does |
| SledCache.AdditionsAddUp | crates/ip-cache/src/standalone.rs:305-334 | any additions one after another, to a live count or to none, answer the start plus their sum, saturated at 64 bits |
| SledCache.Cache.Remove | crates/ip-cache/src/standalone.rs:262-267 | removes exactly that entry, says whether it was live, and keeps exact sizes exact |
| SledRaces.RaceStepKeeps | crates/ip-cache/src/standalone.rs:228-256 | each read, swap and write of a claimer keeps: nobody has taken the key and nobody has gone round twice, or one has, the key holds its entry and everyone else is on the way to being told no |
| SledRaces.OneClaimerTakesTheKey | crates/ip-cache/src/standalone.rs:220-260 | for any number of claimers and any interleaving on a free key with nothing expiring meanwhile, at most one takes it, exactly one is told so once all are told, and nobody loops more than twice |
| SledRaces.AnEntryLivesForItsTtl | crates/ip-cache/src/standalone.rs:220-260 | an entry bars a claim until exactly its ttl has passed, for good without one, and nothing bars one from a key never written |
| SledRaces.AClaimerLeftAloneIsTold | crates/ip-cache/src/standalone.rs:220-260 | from any race and wherever its loop has got to, a claimer left alone is told: no where it reads the key held, which stays as it is, and otherwise yes, with its entry there; one whose swap was overtaken goes round once more |
| SledRaces.PromptCountsAddUp | crates/ip-cache/src/standalone.rs:305-334 | in any interleaving in which no swap raises the count while another caller's landed swap has still to be written, the count is at every moment the start plus everything added |
| SledRaces.ACountBeginsRight | crates/ip-cache/src/standalone.rs:305-334 | callers that have not begun have added nothing: a count begins where it stood |
| SledRaces.ACallerLeftAloneIsCounted | crates/ip-cache/src/standalone.rs:305-334 | wherever its loop has got to, a caller left alone is counted on top of what then stands, or as it had landed already, and told exactly what is left there |
| SledRaces.CountsAreRightExactly | crates/ip-cache/src/standalone.rs:305-334 | over any interleaving that ends with every landed swap written, the count is right at every moment if and only if no swap raised it while another caller's landed swap had still to be written |
| SledRaces.ALateWriteLosesACount | crates/ip-cache/src/standalone.rs:318-331 | for every two amounts and stamps, a run in which both callers are told a total and the count ends without the second |
| Sse.EventEnd | crates/ip-gateway/src/sse.rs:146-160 | at the end of a stream the scan answers where reading line by line ends the first event; before it, it answers an end if and only if every continuation of the stream ends the first event there, and nothing otherwise |
| Sse.AFoundEndStands | crates/ip-gateway/src/sse.rs:129-160 | an end found before the stream's end is the end whatever bytes follow |
| Sse.AnEndIsKnownExactly | crates/ip-gateway/src/sse.rs:129-160 | before the stream's end an end is found if and only if it is the end however the stream goes on |
| Sse.SplittingEarlyChangesNothing | crates/ip-gateway/src/sse.rs:57-83 | taking the complete events now and going on with the rest gives the same events and the same rest |
| Sse.SplitLosesNothing | crates/ip-gateway/src/sse.rs:57-83 | events and rest concatenate to the buffer |
| Sse.TheScanFollowsTheLines | crates/ip-gateway/src/sse.rs:129-160 | the byte scan ends an event exactly where reading line by line puts the first blank line that is not the very first |
| Sse.EventsAreTheStandards | crates/ip-gateway/src/sse.rs:57-83 | every event is whole lines closed by the only blank line after its first, nothing complete is left over, and no line ending is cut |
| Sse.SplittingKeepsMeaning | crates/ip-gateway/src/sse.rs:57-94 | a client reading event by event, as section 9.2.6 of the WHATWG HTML Living Standard says, is handed exactly the messages of the whole stream, and what is left at its end hands it none |
| Sse.PumpingIsIdeal | crates/ip-gateway/src/sse.rs:24-54 | pumping frame by frame, each frame's events shown as it arrives, comes to the same as each stretch of data in one piece, trailers and broken bodies included |
| Sse.CutsDoNotMatter | crates/ip-gateway/src/sse.rs:24-54 | for every byte stream and every cutting of it into data frames, pumping frame by frame shows the chain and sends the caller what the whole stream gives in one piece |
| Sse.AnIdentityChainIsTransparent | crates/ip-gateway/src/sse.rs:24-94 | pumped frame by frame, a chain that passes everything is shown exactly the events of the whole stream, and the caller is delivered exactly its bytes |
| Sse.Pump.Forward | crates/ip-gateway/src/sse.rs:64-81 | one event is shown to the chain, and what it makes of it, its refusal or its failure is sent on; the stream goes on exactly if it passed and was taken |
| Sse.Pump.ForwardEvents | crates/ip-gateway/src/sse.rs:57-83 | the loop shows and sends exactly the events of the buffer until one is refused or the caller is gone, and keeps the rest; and what the caller is sent is what the chain makes: in place of each event the event it passes, or the reason of its refusal as an error event, or an abort where it fails, and nothing after either |
| Sse.WhatIsMadeIsSent | crates/ip-gateway/src/sse.rs:57-83 | for every chain: the events it passes are shown to it in order, each with those before it, and the caller is sent exactly what it made of each, one chunk for one event |
| Sse.TheChainDecides | crates/ip-gateway/src/sse.rs:57-117 | for every chain and every room: what was made of each event passed is sent in order; the first refused ends the stream with one frame that tells its reason, the first that fails with an abort, a caller that is gone with nothing more; and nothing behind any of these is shown or sent |
| Sse.ARefusalTells | crates/ip-gateway/src/sse.rs:96-117 | what is sent for a refusal is one event, whatever follows, which a client reads as one error of that reason |
| Sse.HowABodyEnds | crates/ip-gateway/src/sse.rs:24-54 | data with trailers behind it comes to the whole stream in one piece and then the trailers; data that breaks off, to its complete events and then an abort |
| Sse.AStreamLeaves | crates/ip-gateway/src/sse.rs:24-94 | a stream that is over leaves what the chain decides of its events and then, if it goes on, what is left of it as it stands |
| Sse.AStreamWithATailLeaves | crates/ip-gateway/src/sse.rs:24-94 | and with trailers behind it, those after what is left |
| Sse.ABrokenStreamLeaves | crates/ip-gateway/src/sse.rs:24-54 | a stream that breaks off leaves what the chain decides of its complete events and then, if it goes on, an abort |
| Sse.Pump.FlushPending | crates/ip-gateway/src/sse.rs:86-94 | what is left is sent as it stands, and nothing is sent when nothing is left |
| Sse.Pump.Drive | crates/ip-gateway/src/sse.rs:24-54 | the loop itself, from any buffer, does frame by frame what the incremental specification says |
| Sse.Pump.Run | crates/ip-gateway/src/sse.rs:24-54 | the loop over data, trailer and failing frames leaves the chain and the caller with what each stretch of data gives in one piece; of data alone, and of data with trailers or a failure behind it, with what the chain makes of the stream's events and then what was left of it, the trailers or an abort; under a chain that passes everything, with exactly its events and its bytes |
| Sse.ErrorEvent | crates/ip-gateway/src/sse.rs:108-117 | the loop writes the event line, one data line per line of the reason, and the blank line |
| Sse.ARefusalIsOneEvent | crates/ip-gateway/src/sse.rs:108-160 | for every reason, the splitter takes the refusal as exactly one event, at the end of a stream or before it |
| Sse.ARefusalReadsBack | crates/ip-gateway/src/sse.rs:108-117 | for every reason, a client reads one message of kind error whose data is the reason with CRLF and CR made LF |
| Sse.ARefusalKeepsItsLines | crates/ip-gateway/src/sse.rs:108-117 | for every reason, the data a client reads, cut at its line feeds, is exactly the lines of the reason, whichever line endings it was written with |
| Sse.AFieldReads | crates/ip-gateway/src/sse.rs:108-117 | the client refusals are read by takes a field as the standard says: its name to the first colon, its value behind it without one leading space |
| Sse.AClientReads | crates/ip-gateway/src/sse.rs:86-94 | that client skips fields it does not know, is handed nothing where there is no data, and takes a message without a kind as `message` |
| Periods.MonthLength | crates/ip-core/src/timestamp.rs:34-53 | each month of the proleptic Gregorian calendar begins where the one before is over, December rolling into the next year |
| Periods.MonthsFallWhereTheyDo | crates/ip-core/src/timestamp.rs:34-53 | in every year each month begins as many days in as the calendar says, one more past February in a leap year |
| Periods.OneMonthHoldsADay | crates/ip-core/src/timestamp.rs:34-41 | no day falls in two months |
| Periods.MonthlyEnds | crates/ip-core/src/timestamp.rs:44-53 | a month's start lies in the month, and its end is the next one's start except in the last month the clock holds |
| Periods.BeganIsRepresentable | crates/ip-core/src/limit.rs:160-169 | a stretch begins at a moment the clock holds, no later than the moment asked about, and minutes, hours and days at the floor, before the epoch included |
| Periods.APeriodEndsLaterExactly | crates/ip-core/src/limit.rs:172-181 | a period ends after the moment asked about if and only if that moment is before the last stretch |
| Periods.TheLastMomentHasNoLaterEnd | crates/ip-core/src/limit.rs:172-181 | the failing moment: at the last second the clock holds every period is told an end no later than it |
| Periods.StretchesMeet | crates/ip-core/src/limit.rs:160-181 | before the last stretch, one stretch ends exactly where the next begins |
| Periods.StretchesPartitionTheClock | crates/ip-core/src/limit.rs:160-181 | a moment lies in its stretch, two moments share a start exactly when each lies in the other's stretch, and a start is its own start |
| Periods.KnownDates | crates/ip-core/src/timestamp.rs:34-53 | the calendar gives the midnights of dates anyone can look up, leap years and century years among them |
| Limits.NarrownessTellsScopesApart | crates/ip-core/src/limit.rs:57-66 | of the scopes that hold for one request no two are equally narrow |
| Limits.ApplyingTo | crates/ip-gateway/src/limit.rs:34-50 | the loop answers exactly the limits of the list that cover the request (its tenant, and its account and api where they name one) and that none which covers it outranks, naming the account before naming the api, one for each thing counted and period |
| Limits.WhatIsChosen | crates/ip-gateway/src/limit.rs:34-50 | of the limits that cover a request and count alike, the one kept is outranked by none: naming an account outranks not naming one, and between equals there, naming an api |
| Limits.TheChoiceIgnoresOrder | crates/ip-gateway/src/limit.rs:34-50 | with one limit per scope, thing and period, the chosen limits do not depend on the order of the list |
| Limits.CountersAreSharedExactly | crates/ip-gateway/src/limit.rs:240-255 | two limits share a counter key if and only if they are over one scope, thing and period and in one stretch |
| Limits.ACountLivesForItsStretch | crates/ip-gateway/src/limit.rs:240-255 | one limit counts two moments together exactly when one stretch holds both, and the ttl runs out exactly at its end; in the last stretch the clock can hold it is one second |
| Counters.RateKeeps | crates/ip-gateway/src/limit.rs:140-154 | in every interleaving of reading, seeding and counting, the counter stands at its first seed plus the requests counted |
| Counters.ARatePassesExactlyWhatIsLeft | crates/ip-gateway/src/limit.rs:140-201 | however the calls of n requests interleave, exactly min(n, what the allowance has left beyond the first seed to land) go through |
| Counters.AStartIsWhatARequestRead | crates/ip-gateway/src/limit.rs:176-201 | what a rate is started at is what some request of the run read from storage |
| Counters.ARequestIsCounted | crates/ip-gateway/src/limit.rs:140-201 | from any state, a request that has not looked is counted by steps of its own, one above what was counted or, where nothing was, above what it read from storage |
| Counters.AnUnreachedQuotaAdmits | crates/ip-gateway/src/limit.rs:158-172 | a request that finds a quota's count, its own seed included, is admitted if and only if it is below the allowance, and changes nobody else |
| Counters.ASpenderSettles | crates/ip-gateway/src/limit.rs:122-201 | from any state, a request that finds less than the allowance is admitted and its tokens are added by steps of its own |
| Counters.AReachedQuotaIsConserved | crates/ip-gateway/src/limit.rs:122-172 | once a quota is reached, what is counted plus what admitted requests still owe never changes |
| Counters.AQuotaIsOverrunByWhatWasOwed | crates/ip-gateway/src/limit.rs:122-201 | a quota's count ends at most one below the allowance plus the tokens owed just before it was reached, unless a seed reached it |
| RoutingTable.ClaimsAreWholeSegments | crates/ip-gateway/src/table.rs:191-202 | a rule claims a path if and only if its segments begin the path's segments |
| RoutingTable.EqualLengthClaimsAreEqual | crates/ip-gateway/src/table.rs:191-202 | two paths of one length that claim the same request are the same path |
| RoutingTable.AJoinedPathIsAPathExactly | crates/ip-gateway/src/table.rs:204-210 | a joined path is valid if and only if it is within the longest a path may be |
| RoutingTable.TargetsAreRewritten | crates/ip-gateway/src/table.rs:143-210 | each target is its endpoint with the path alone changed: what stands behind the endpoint's path in it, put behind the rule's path, is the request's; a request for the rule's own path goes to the endpoint's own |
| RoutingTable.PathsThatAre | crates/ip-core/src/route.rs:240-290 | a text is a path if and only if it begins with a slash, has at most 2048 characters and all are graphic ASCII but `?` and `#` |
| RoutingTable.ReservedPathsAreASegment | crates/ip-core/src/route.rs:255-262 | a path is the gateway's own if and only if its first segment is `_ip` |
| RoutingTable.ConfigWins | crates/ip-gateway/src/table.rs:84-99 | a stored rule is in force exactly when no configured rule has its key, and keys stay distinct |
| RoutingTable.SortedIsStable | crates/ip-gateway/src/table.rs:114-125 | sorting by length keeps the order of rules of one length |
| RoutingTable.FromRules | crates/ip-gateway/src/table.rs:106-127 | the loops leave, under each authority that has rules, exactly its rules, longest first |
| RoutingTable.Assemble | crates/ip-gateway/src/table.rs:84-99 | the table of the rules in force, refused exactly when one of them has a reserved path |
| RoutingTable.Append | crates/ip-gateway/src/table.rs:143-161 | each endpoint of a rule, in order, with what follows the rule's path in the request's put behind its own, or nothing exactly when one of the paths so made is invalid |
| RoutingTable.Resolve | crates/ip-gateway/src/table.rs:133-164 | the answer is a longest claiming rule of the request's authority, each target its endpoint's path with what follows the rule's in the request's behind it, and none only when nothing claims the request or a joined path is invalid |
| RoutingTable.OneRuleWins | crates/ip-gateway/src/table.rs:133-164 | with distinct keys no request has two winners |
| RoutingTable.TheAnswerIgnoresOrder | crates/ip-gateway/src/table.rs:84-164 | with distinct keys the answer does not depend on the order of configured or stored rules |
| Dispatch.FindLive | crates/ip-gateway/src/dispatch.rs:81-90 | the loop finds the endpoints that are not drained in order, or every one when all are |
| Dispatch.AddShares | crates/ip-gateway/src/dispatch.rs:91-98 | the loop adds up the running totals of the live shares |
| Dispatch.LiveHolds | crates/ip-gateway/src/dispatch.rs:81-90 | no endpoint is live twice, an undrained one always is, and a drained one only where all are drained |
| Dispatch.ADrawFallsBetween | crates/ip-gateway/src/dispatch.rs:124-127 | a draw falls to a live endpoint if and only if it lies between the running totals before and up to it |
| Dispatch.SharesAreExact | crates/ip-gateway/src/dispatch.rs:113-127 | of the draws below the total, exactly as many fall to each live endpoint as its weight says |
| Dispatch.TurnsAreFair | crates/ip-gateway/src/dispatch.rs:118-121 | while the 64-bit turn does not wrap, any n·k turns in a row give each of n live endpoints exactly k |
| Dispatch.TheAverageStaysBetween | crates/ip-gateway/src/dispatch.rs:51-57 | over any answers the moving average stays between the least and the greatest folded in, so it neither overflows nor returns to zero |
| Dispatch.TheAverageMovesTowards | crates/ip-gateway/src/dispatch.rs:51-57 | under a constant latency the average moves only towards it, and rests if and only if both share a fifth |
| Dispatch.TheAverageSettles | crates/ip-gateway/src/dispatch.rs:51-57 | and comes to rest within four microseconds of it, in no more answers than it was microseconds away |
| Dispatch.ScoresFit | crates/ip-gateway/src/dispatch.rs:42-48 | with latencies below 2^32 no score overflows 64 bits or reaches the value the scan starts from |
| Dispatch.UpAndDown | crates/ip-gateway/src/dispatch.rs:190-265 | a 32-bit count that is added to and taken from stays the number of outstanding choices modulo 2^32 |
| Dispatch.SmallCountsAreExact | crates/ip-gateway/src/dispatch.rs:190-265 | and is exactly that number below 2^32 |
| Dispatch.Plan.constructor | crates/ip-gateway/src/dispatch.rs:81-105 | a plan starts with its live endpoints, their shares, turn zero and nothing outstanding |
| Dispatch.Plan.InTurn | crates/ip-gateway/src/dispatch.rs:118-121 | takes the live endpoint of the turn and moves the turn on, wrapping at 64 bits |
| Dispatch.Plan.FallsTo | crates/ip-gateway/src/dispatch.rs:124-127 | the search in the stored shares finds the endpoint the draw falls to |
| Dispatch.Plan.FindLightest | crates/ip-gateway/src/dispatch.rs:133-144 | with latencies below 2^32 the scan finds the first live endpoint of least wait, and a live one in any case |
| Dispatch.Plan.Choose | crates/ip-gateway/src/dispatch.rs:181-205 | the choice is in range, drained only where all are, what its strategy says, and counted: in every run each in-flight count is the outstanding choices of its endpoint, modulo 2^32 |
| Dispatch.Plan.Drop | crates/ip-gateway/src/dispatch.rs:261-277 | a finished request is counted no longer, and its latency is never the zero of an untried endpoint |
| Dispatch.Micros | crates/ip-gateway/src/dispatch.rs:261-277 | a latency is kept in whole microseconds, at least one and at most what 64 bits hold |
| Dispatch.Plan.Fold | crates/ip-gateway/src/dispatch.rs:220-227 | the loop leaves each endpoint with its own answers folded in, in order, and no other's |
| Identity.AWriteKeepsExactly | src/routes/grant.rs:181-255 | of the writes a sound store carries out, a write leaves it sound (one owner per tenant, none owning two, no administrator attached or granted anything, tenant grants only for members that do not own, no dependent grant without its prerequisite) if and only if it finds what the handlers check for |
| Identity.CreatingATenantKeeps | src/routes/tenant.rs:204-224 | creating a tenant with its owner in one transaction keeps the store sound |
| Identity.CreatingAnAccountKeeps | src/routes/user.rs:255-270 | creating a member or a system administrator keeps the store sound |
| Identity.DeletingATenantKeeps | src/routes/tenant.rs:134-153 | deleting a tenant with what it cascades to keeps the store sound |
| Identity.DeletingAUserKeepsExactly | src/routes/user.rs:139-184 | deleting an account with what it cascades to keeps the store sound if and only if it owns nothing |
| Identity.AttachingKeepsExactly | src/routes/member.rs:77-118 | writing a membership keeps the store sound if and only if the account is regular and does not own the tenant |
| Identity.DetachingKeepsExactly | src/routes/member.rs:124-201 | removing a membership with its grants keeps the store sound if and only if it is not the owner's |
| Identity.GrantingKeepsExactly | src/routes/grant.rs:181-200 | writing a grant keeps the store sound if and only if it suits its scope, its account is regular and a member that does not own, and its prerequisite is held |
| Identity.RevokingKeepsExactly | src/routes/grant.rs:203-223 | removing a grant keeps the store sound if and only if nothing held at its scope depends on it |
| Identity.AllowedExactly | crates/ip-core/src/capability.rs:167-212 | for every store, account, capability and scope of the account's: allowed if and only if the account is a stored system administrator, or the shape fits and the grant is stored with its prerequisite or the account owns the tenant, being in the tenant where the scope lies in one |
| Identity.AnOwnersRoleEndsWithItsTenant | crates/ip-core/src/capability.rs:194-212 | owning a tenant gives exactly what fits inside it, and nothing on an account or in another tenant |
| Identity.EachCapabilityHasItsShape | crates/ip-core/src/capability.rs:28-44 | managing tenants is granted on an account, managing users, agents and observing in a tenant, and the rest at an api; the two advanced ones alone need api access |
| Identity.WhatAWriteDoes | crates/ip-storage/migrations/sqlite/0001_identity.sql:1-38 | what each write that is carried out leaves of accounts, tenants, memberships and grants, its cascades spelled out |
| Identity.WhenAWriteIsRefused | src/routes/mod.rs:255-265 | a write is refused as taken or as missing exactly when an id it makes is there, or something it names is not |
| Management.RunsKeepSound | src/routes/grant.rs:181-359 | every run of the management api and the command line, each handler atomic, keeps the store sound |
| Management.AdministratorsAreFixed | src/admin.rs:62-80 | no run of api requests makes or ends a system administrator |
| Management.OwnershipNeedsATenantManager | src/routes/tenant.rs:77-166 | in any run in which no system administrator and no account holding that grant calls, tenants and owners stay as they were |
| Management.GrantsComeFromAdministrators | src/routes/grant.rs:227-359 | a grant that is there after a run and was not before was given in it, as it stands, by one that was a stored system administrator or, inside a tenant, its stored owner then |
| Management.WhoMayAsk | src/routes/user.rs:73-270 | for every write, exactly who may ask for it, in terms of stored accounts, memberships and grants alone |
| Management.MembershipsComeFromManagers | src/routes/member.rs:77-118 | a membership that is there after a run and was not before came with its tenant, asked for by one who manages tenants, or was made or joined by one who managed the tenant's users then |
| Management.MembershipsGoByManagers | src/routes/member.rs:124-201 | a membership that is gone after a run went with its tenant, with its account, or was taken by one who managed the tenant's users then and was not the owner's |
| Management.AccountsGoByManagers | src/routes/user.rs:139-184 | an account that is gone after a run was regular, owned nothing, and was ended by another that was an administrator or managed the users of every tenant it was in |
| Management.NothingComesBack | src/routes/member.rs:120-147 | an account taken out of a tenant has none of its grants there after any run, being put in again included, in which no administrator of the tenant gives that grant again |
| Management.ALateGrantComesBack | src/routes/grant.rs:181-200 | with check and write interleaved: for every member and capability, a grant written after the member left is stored, unsound, and in force once the account is put in again |
| Management.AStoredGrantIsHeld | crates/ip-core/src/capability.rs:167-177 | in a sound store a grant is held exactly where it is stored |
| Management.SeeingAllIsCounting | src/routes/user.rs:156-234 | comparing how many attachments are shown with how many there are decides whether a caller manages every one of them |
| Management.Directory.constructor | crates/ip-storage/migrations/sqlite/0001_identity.sql:1-38 | the empty store is sound |
| Management.Directory.CreateTenant | src/routes/tenant.rs:77-108 | carried out exactly when the caller may manage tenants and neither id is taken, forbidden exactly when it may not, and otherwise a conflict |
| Management.Directory.RemoveTenant | src/routes/tenant.rs:134-153 | carried out, cascade and all, exactly when the caller may manage tenants and the tenant is there, forbidden exactly when it may not, and otherwise not found |
| Management.Directory.CreateUser | src/routes/user.rs:73-112 | carried out exactly when the caller manages users in the tenant, the id is free and the tenant is there; forbidden exactly when it does not, a conflict where the id is taken, and otherwise not found |
| Management.Directory.Found | src/routes/user.rs:195-234 | the loop shows exactly the attachments the caller manages users in, or all to the administrator and the account itself |
| Management.Directory.RemoveUser | src/routes/user.rs:139-184 | carried out exactly when the account is another, regular, wholly seen by the caller and owns nothing; not found exactly when it is another that is not there or that the caller is shown no tenant of, a conflict exactly for an owner the caller could end otherwise, and forbidden in every other case |
| Management.Directory.Attach | src/routes/member.rs:77-118 | accepted exactly for a regular account that does not own the tenant, by a caller that manages its users; an account already in changes nothing; a conflict for an administrator or the owner, and not found where account or tenant is not there |
| Management.Directory.Detach | src/routes/member.rs:124-147 | carried out, grants with it, exactly for a member that is not the owner, by a caller that manages the tenant's users; a conflict for the owner, and not found for one that is not in |
| Management.Directory.MemberRefusal | src/routes/grant.rs:227-255 | no refusal exactly when the grant suits its scope, the caller administers the tenant and the account is a member that does not own it; unprocessable exactly when it does not suit, forbidden exactly when it suits and the caller does not administer, a conflict only for the owner and not found only for one not in |
| Management.Directory.Give | src/routes/grant.rs:181-200 | stored exactly when not refused and its prerequisite is held; a conflict only for the owner or a missing prerequisite |
| Management.Directory.Take | src/routes/grant.rs:203-223 | removed exactly when not refused, stored, and nothing held depends on it; a conflict only for the owner or something that depends on it, and not found only where it is not stored |
| Management.Directory.AccountRefusal | src/routes/grant.rs:331-359 | no refusal exactly when a system administrator asks for a grant that suits, for a regular account; forbidden exactly to anyone else, unprocessable exactly when it does not suit |
| Management.Directory.GiveOnAccount | src/routes/grant.rs:298-311 | stored exactly when not refused |
| Management.Directory.TakeOnAccount | src/routes/grant.rs:314-327 | removed exactly when not refused and stored |
| Recheck.AClaimIsLogged | crates/ip-auth/src/login.rs:165-173 | claiming a free slot keeps the live slots as many, at every later moment, as the wrong ones of the last window since the last right one |
| Recheck.AFreeSlotIsSpaced | crates/ip-auth/src/login.rs:165-173 | a slot is free for a wrong one only when the wrong one a limit's worth before it is a window old |
| Recheck.NoWindowChecksMore | crates/ip-auth/src/login.rs:143-177 | no stretch as long as the window, at any moment, holds more checked wrong passphrases than the limit without a right one between |
| Recheck.Guard.constructor | crates/ip-auth/src/login.rs:31-36 | the limit is clamped to two to five and no wrong one counts yet |
| Recheck.Guard.FailedRechecks | crates/ip-auth/src/login.rs:180-188 | the count, its slots read at advancing moments, lies between the live slots at the last and at the first of them, and below the limit only if a slot was seen free |
| Recheck.Guard.Claim | crates/ip-auth/src/login.rs:165-173 | the loop takes the first slot that is free when it is asked for, and there is one |
| Recheck.Guard.Clear | crates/ip-auth/src/login.rs:158-162 | the loop frees every slot |
| Recheck.Guard.CountWrong | crates/ip-auth/src/login.rs:164-176 | a wrong one is counted once, and answered locked or refused by what then counts |
| Recheck.Guard.Recheck | crates/ip-auth/src/login.rs:149-177 | unchecked only while the limit's worth of wrong ones count, changing nothing then; always checked a window after the last wrong one; a right one clears the count and a wrong one is counted |
| Recheck.RacingFailuresAllCount | crates/ip-auth/src/login.rs:149-188 | however the slot reads and claims of n racing wrong rechecks interleave, once all have ended the slots held are those held before plus the wrong ones checked, up to the limit |
| Recheck.ARecheckLeftAlone | crates/ip-auth/src/login.rs:149-188 | left alone in any race, a wrong recheck is turned away unchecked when every slot is held, and otherwise takes the first that is free |
| Recheck.AnAskerLeftAlone | crates/ip-auth/src/login.rs:165-173 | one that asks for slots takes the first free from there on, and misses if and only if there is none |
| Recheck.ALockHolds | crates/ip-auth/src/login.rs:150-152 | while the limit's worth count, no recheck that starts is checked, however many race |
| Recheck.RacingRechecksOverrunByWhatWasInFlight | crates/ip-auth/src/login.rs:149-177 | over any run to the claim that takes the last slot and any run from there, those that counted before and those checked come to at most one less than the limit plus those in flight just before it, and to exactly that once all have ended |
| Recheck.TheLimitIsKeptExactly | crates/ip-auth/src/login.rs:149-177 | over any run in which all have ended, no more are checked than the limit has left if and only if nobody else is in flight as a claim takes the last slot; a run that never takes it keeps to the limit |
| Recheck.AnOverrunIsReachable | crates/ip-auth/src/login.rs:149-177 | from any slots not all held and for any n, a run in which all n rechecks are checked |
| Headers.EncodeHeaders | crates/ip-plugin/src/headers.rs:7-16 | the loop writes each header of the listing on a line of its own |
| Headers.DecodeHeaders | crates/ip-plugin/src/headers.rs:20-49 | the loop reads a block into the multimap of its headers, each name's values in order, or the first bad line |
| Headers.NamesThatRead | crates/ip-plugin/src/headers.rs:35-39 | a name reads if and only if it is one to 65535 of the characters section 5.6.2 of RFC 9110 lists |
| Headers.CapitalsDoNotMatter | crates/ip-plugin/src/headers.rs:35-39 | names that differ only in the case of letters read as one, kept letter for letter without capitals |
| Headers.ValueBytes | crates/ip-plugin/src/headers.rs:40-45 | a value holds tabs and everything but control characters |
| Headers.TrimTakesTheBlanksOff | crates/ip-plugin/src/headers.rs:35-45 | trimming takes off exactly the tabs, line feeds, form feeds, carriage returns and spaces at both ends |
| Headers.ALineReadsExactly | crates/ip-plugin/src/headers.rs:22-46 | a line with a colon reads as the name before its first one and the value behind it, both trimmed, or is bad for the one or the other exactly when it cannot be held |
| Headers.ALineWithoutAColon | crates/ip-plugin/src/headers.rs:22-33 | a line without one is blank when nothing is left of it and bad for that otherwise |
| Headers.TheFirstBadLineIsReported | crates/ip-plugin/src/headers.rs:20-49 | a block is refused for a line and a problem if and only if that line has it and every line before it reads |
| Headers.LayoutDoesNotMatter | crates/ip-plugin/src/headers.rs:18-27 | LF or CRLF behind each line and blank lines anywhere give the same headers |
| Headers.RoundTripsExactly | crates/ip-plugin/src/headers.rs:7-49 | decoding an encoded block gives its headers with values trimmed, and the same header map if and only if no value has ASCII whitespace at either end |
| Headers.OuterSpaceIsLost | crates/ip-plugin/src/headers.rs:7-49 | the failing value: one that begins with a space is written and read back without it, as another header map |

## Left out

- The loops of `keep_following` and `reload_until_it_lands` are steps of a state machine, so that every interleaving with other nodes and publishers is covered; sleeps, jitter and backoff lengths are free choices.
- A cache that loses its publication: the protocol is modelled for one that keeps it, as announcements are heard or missed.
- Real sled, redis and tokio: a tree is a map, a transaction, swap or script is one atomic step, and a watch channel is a value with a seen mark.
- Propagation.QuietRunsSettle: bounds the landings of a quiet run; that a woken node eventually takes its enabled steps is the scheduler's, and only that it can is proved.
- SledCache.Cache.Counting: says how long a count reads back only where the eviction behind it left it, since a full level may lose it at once; what that eviction leaves is in its contract.
- RoutingTable.Resolve: for configured rules that repeat a key it promises a longest claiming rule, not which of the repeats; `SortedIsStable` says it is the first.
- Sse.AnIdentityChainIsTransparent: for a caller that takes every frame; one that leaves early is covered by `Pump.Run`.
- Event ids and retry fields of server-sent events, and encodings of a body: only the kind and data a client dispatches are read.
- The chain processors, compression, http plumbing, status texts, cookies, CSRF and JSON views.
- Deciding over several limits at once and reading usage from storage: a rate and a quota are each modelled alone, the seed a free number.
- Counters.ARatePassesExactlyWhatIsLeft: counters answer and hold what they hold for the stretch; the fallback when the cache is down lets requests through uncounted.
- Overflow of counters past 64 bits in `Counters` and `SledRaces`; `SledCache.Cache.Counting` saturates as the source does.
- Memory orderings of the dispatcher's atomics: each load, store and addition is one step on one value, and choosing reads every score at one moment.
- Proving who a caller is: the handlers are given one that is a stored account, and anyone else is turned away before them.
- Malformed ids and passphrases in management requests, refused before anything the model holds is read.
- Management.RunsKeepSound: each handler is one atomic step; what interleaving a check and its write can do is `ALateGrantComesBack`, and which writes are then safe is `AWriteKeepsExactly`.
- Recheck.Guard.Recheck: one user's rechecks one after another, each cache call at one moment and no slot evicted; those that race are modelled within one window, with no right one among them.
- Headers.RoundTripsExactly: a header map is taken in some listing of its headers, since the order of its names is the http library's.
- Cryptography: a passphrase check is an uninterpreted answer.
- The byte layout of a stored publication, `CachedResponse`, configuration, telemetry, the usage sweeper, plugin hosting and storage beyond the identity tables: none of the properties above depends on them.
