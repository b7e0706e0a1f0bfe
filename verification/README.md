# Clattermark in Dafny

Clattermark tails log files, matches lines against monitors and sends alerts. What is hard about it is a set of small
concurrent state machines over one shared Redis-compatible store. This project models those machines, with every Lua
script and every single store command as one atomic step, and proves what they keep in every run.

`dafny verify dfyconfig.toml` checks everything.

## Layout

| file | what it models |
|---|---|
| Picking.dfy | the positions a pass over a list picks, in order |
| DueQuery.dfy | the index query: order of the sorted set, and which members fit its limit |
| Incidents.dfy | the incident scripts on values: record, release, close, expire, drop; the index; reminders |
| IncidentHash.dfy | the flat hash behind an incident (`host:` and `process:` fields) and reading it back |
| KeydbStore.dfy | class `Keydb`: the scripts and commands changing the keys in place, each tied to its value-level function |
| IncidentLedger.dfy | conservation of events and one outbox entry per incarnation, over all interleavings |
| IncidentTimer.dfy | TTL against sweeps, with a clock |
| Outbox.dfy | decodability, and publication as a machine with a trimming cap, crashes and failing drops |
| Aggregator.dfy | class `IncidentAggregator`: the sweep and the publishing loop |
| Excludes.dfy | one exclude update on lists, and the set of pairs it stands for |
| ExcludesProtocol.dfy | the WATCH/GET/EXEC retry loop and the in-memory copies, as a machine |
| ExcludesStore.dfy | class `DynamicExcludesStore` on slices with shared backing arrays |
| Dedup.dfy | classes `DedupStore` and `AlertDeduper`: reservations, cooldowns, pruning, forgetting |
| Delivery.dfy | reserve, send, forget by any number of workers and processes |
| CheckLine.dfy | class `AlertEngine`: the delivery path of one line |
| TextRewrite.dfy | laws of replacing every match of a pattern, and every value of a field |
| AlertText.dfy | the normaliser's patterns and passes, its normal form, fingerprint keys |
| AlertTimestamps.dfy | where timestamp fields are found, and which words they consist of |
| AlertWords.dfy | what the normaliser does to each word and to volatile values |
| AlertLines.dfy | which lines have one normal form: exactly when their words are masked alike |
| AlertPatterns.dfy | regular expressions and what they match; the five patterns are the languages of theirs |
| AlertNormal.dfy | the normal form of whole lines, word by word, and of words by their characters |
| AlertFields.dfy | the expression for timestamp fields, and what becomes of a line that has one |
| AlertEndpoints.dfy | addresses with ports |
| SingleFlight.dfy | the shared evaluation of decisions: a machine, and class `DecisionCache` that makes its steps |
| Pipeline.dfy | tailers, bounded channel, workers, shutdown |
| RateLimiter.dfy | class `RequestLimiter` and its sliding bound |
| Utf8Text.dfy | byte-limited truncation of UTF-8 |

A method that changes state is proved equal to a function of the old state, and the theorems are about every run of a
step machine. The ledger, the timer, the excludes protocol and the delivery machine are built from the functions the
methods are proved against; the outbox machine keeps its own record of positions and is tied to those functions by
`Outbox.StepsAreTheStores` and to the publishing method by `Aggregator.RoundIsARun`; the single-flight machine is the
ghost state of `DecisionCache`. The pipeline has no class beside it. The functions in turn are described by what they do
over whole runs, in terms of the events alone: with field names, periods and limits written out, and for the normaliser
with the regular expressions themselves.

## What does not hold as one might expect

- An incident is announced as quiet if and only if one of its events named a host and one named a process. Otherwise Lua
  encodes an empty table as an object, decoding fails, and the recovery is dropped unsent
  (`Outbox.DecodableIncarnations`).
- The limiter admits up to (k+1)·limit − 1 requests of one host in an interval of k windows, not k·limit; the bound is
  attained for every limit, every k ≥ 1 and every window longer than one tick (`RateLimiter.SlidingBoundIsTight`).
- A release leaves the store alone unless it names the last notified count of whatever incident is live under that name
  now, so it can undo the notification of a later incarnation (`Incidents.ReleaseCrossesIncarnations`). A release for
  count 0 on a missing hash, which no caller makes, leaves a hash that every other script treats as missing
  (`IncidentHash.ReleaseCreatesNoHash`).
- Expiry leaves the name in the index, and closing a missing hash does not remove it. A due live incident is hidden if
  and only if more names come up to it in the index than the query returns (`Incidents.DueAgreesWithScan`), and a sweep
  that is given stale names only changes nothing (`Aggregator.SweepIsStuckOnStaleNames`). A configuration can lose an
  incident to its TTL if and only if it has a rule, and either complete sweeps may be more than three quiet periods
  apart or there are more than a hundred rules (`IncidentTimer.IncidentsExpireExactlyWhenSweepsFallShort`). Too many
  rules are enough however often it sweeps: events that arrived long ago and are recorded late keep a hundred names
  ahead of one that was recorded once (`IncidentTimer.HiddenIncidentExpires`).
- A drop removes items that were not delivered if and only if the cap cut the front since the peek and there was
  something to drop (`Outbox.TrimmingBeforeTheDrop`, over whole runs `Outbox.LossNeedsTrimming`); one close while a full
  outbox is being published is enough (`Outbox.OneCloseDuringPublicationLosesAnItem`).
- With several workers, or when the store misses a deletion, an alert can be suppressed although nothing was delivered
  (`Delivery.ConcurrentSuppressionCanLoseAlerts`, `Delivery.KeptReservationCanLoseAlerts`); it is suppressed if and only
  if a reservation blocks it that was sent, is in flight, or failed and was kept (`Delivery.SuppressionIsAccounted`).
- With several workers, or when the store is away for a moment, a failing send can delete somebody else's reservation
  and let a duplicate pass within its TTL (`Delivery.SlowFailureLetsADuplicatePass`,
  `Delivery.StoreOutageLetsADuplicatePass`). For any number of workers and places, a repeat within the time of a
  reservation passes, or has passed, if and only if that reservation has been forgotten
  (`Delivery.RepeatsPassExactlyWhenForgotten`).
- An older replace can land after a newer one, so an in-memory copy of the excludes can go back in time
  (`ExcludesProtocol.OlderReplaceCanWin`); a current copy stays current while nobody commits if and only if nothing
  older is pending (`ExcludesProtocol.CopyStaysExactlyWhenNothingOlderIsPending`).
- Removing an exclude removes it if and only if the list held it at most once; duplicates survive
  (`Excludes.RemovalRemoves`). No run of updates creates a duplicate (`Excludes.RunsRefineTheSet`).

## Model

| member | source | states |
|---|---|---|
| KeydbStore.Keydb.RecordIncident | keydb/keydb.go:247-264 | the script on the flat hash, index and TTL does to the incidents what `Recorded` does, returns the first arrival, latest arrival and count it leaves, and notifies exactly when it leaves the last notified count equal to the count |
| Incidents.RecordedFromScratch | keydb/keydb.go:247-253 | n events recorded under a name without an incident: what incident, index and TTL hold, all else as it was; the n-th notifies if and only if n - 1 is a multiple of the period given, or of 25 when that is not positive, and the last notified count is 1 + ((n-1)/r)·r |
| KeydbStore.Keydb.ReleaseIncidentNotification | keydb/keydb.go:34-40 | for any count: resets the last notified count of a live incident when it is the one released, and changes no incident otherwise |
| KeydbStore.Keydb.CloseIncidentToOutbox | keydb/keydb.go:42-65 | closes exactly a live incident not seen after the cutoff: its object goes to the back of the outbox, the cap keeps the last ones, hash, TTL and index entry go; otherwise nothing changes |
| KeydbStore.Keydb.DueIncidents | keydb/keydb.go:271-278 | the members with a score up to the cutoff, lowest first, equal scores by name, at most the limit of them, and none left out that comes before one returned |
| KeydbStore.Keydb.PeekQueue | keydb/keydb.go:111-116 | the first items, nothing for a non-positive count |
| KeydbStore.Keydb.DropQueue | keydb/keydb.go:118-123 | removes that many items from the front and keeps the rest in order |
| KeydbStore.ListRanges | keydb/keydb.go:61 | what the negative and positive range ends of LTRIM and LRANGE leave: the last, all but the first, or the first items |
| KeydbStore.RecordScript | keydb/keydb.go:15-28 | the field changes keep every hash the flat form of its incident |
| KeydbStore.CloseScript | keydb/keydb.go:43-60 | deletes a hash and hands out its object exactly when it holds an event and was last seen by the cutoff |
| IncidentHash.RecordFields | keydb/keydb.go:15-28 | on a missing, vacant or existing hash the field updates give the flat form of the incident after the event, its count, and whether to notify |
| IncidentHash.ReadBack | keydb/keydb.go:45-59 | in whatever order the fields come, closing undoes the flattening: exactly the hosts, the processes and the other fields |
| IncidentHash.RecoveryTellsTheEvents | keydb/keydb.go:45-60 | the queued object of any incarnation has exactly the fields `count`, `last_notified_count`, `first_seen_ms`, `last_seen_ms`, `name`, `title` and `sample`, with the number of events, the first arrival and the text and arrival of the latest event, and the hosts and processes events named |
| IncidentHash.HashTellsTheEvents | keydb/keydb.go:15-22 | the same of the hash, which beside these has exactly one `host:` and one `process:` field for each |
| IncidentHash.ReleaseCreatesNoHash | keydb/keydb.go:35-38 | without an incident a release leaves a hash that holds no event, and it makes one out of nothing if and only if its count is zero |
| Incidents.RecordKeepsIndexed | keydb/keydb.go:20-30 | recording keeps every live incident indexed under its last_seen |
| Incidents.CloseKeepsIndexed | keydb/keydb.go:43-63 | so do closing and expiry |
| Incidents.ReleaseKeepsIndexed | keydb/keydb.go:34-40 | so do releasing and dropping from the outbox |
| Incidents.RefreshedIncidentStaysOpen | keydb/keydb.go:44 | an incident refreshed past the cutoff between scan and close is left untouched |
| Incidents.DueAgreesWithScan | keydb/keydb.go:271-278 | a live name the query returns is due, and a due live incident is returned if and only if no more members than the limit come up to it |
| DueQuery.ReturnedExactlyWhenItFits | keydb/keydb.go:275-277 | a member up to the cutoff is returned if and only if it and those before it are no more than the limit |
| DueQuery.DueMembersInOrder | keydb/keydb.go:275-277 | they come by score, and with one score by the first character in which the names differ |
| Incidents.StaleNamesHideLiveIncidents | keydb/keydb.go:43-44 | as many stale names ahead of a live incident as the limit hide it, and closing them never removes them |
| Incidents.ExpiredNamesStayIndexed | keydb/keydb.go:29-30 | expiry takes the hash and leaves the index entry, and closing such a name changes nothing |
| Incidents.IncarnationSummarisesItsEvents | keydb/keydb.go:15-22 | after any events and releases: count, first arrival, latest title, sample and arrival, and exactly the non-empty hosts and processes of the events |
| Incidents.RemindersAreRegular | keydb/keydb.go:23-28 | without releases the n-th event has notified 1 + (n-1)/r times, the last time at count 1 + ((n-1)/r)·r |
| Incidents.RemindersSurviveReleases | keydb/keydb.go:23-40 | with any releases 0 ≤ last notified ≤ count, a reminder is never r events late, and after a matching release the next event notifies |
| Incidents.FailedNotificationIsMadeUpFor | main.go:493-502 | with records, releases and closes of others between a notifying event and the release after its failed send, the next event notifies if and only if it is due anyway, or nothing notified and nothing was closed in between, or after a close a later incarnation was last notified at the same count |
| Incidents.StaleReleaseChangesNothing | keydb/keydb.go:34-40 | a release leaves the store as it is if and only if it names no live incident's non-zero last notified count |
| Incidents.ReleaseResetsOneCounter | keydb/keydb.go:34-40 | whatever it names, nothing but that one counter ever changes |
| Incidents.ReleaseCrossesIncarnations | main.go:495-500 | a release meant for a closed incarnation undoes the notification of the next one |
| IncidentLedger.EventsAreConserved | keydb/keydb.go:14-65 | in every interleaving: events recorded = live + in the outbox + trimmed + dropped + expired |
| IncidentLedger.LedgerWatchesTheStore | keydb/keydb.go:14-65 | the ledger steps with the store, counts every record, and counts trimmed, dropped and expired events only after a close, a drop and an expiry |
| IncidentLedger.IncarnationsCloseOnce | incident.go:168-190 | however many replicas sweep, no incarnation enters the outbox twice, and every live incident is indexed under its last_seen in every reachable store |
| IncidentTimer.NoIncidentIsLostToItsTtl | keydb/keydb.go:29 | with at most a hundred rules and complete sweeps that end within three quiet periods of the start of the one before, whatever calls fail and sweeps are given up: no incident expires; one that disappears was closed into the outbox, at least quiet after its last_seen and before its TTL ran out |
| IncidentTimer.IncidentsExpireExactlyWhenSweepsFallShort | incident.go:146-190 | for every quiet period and every gap between sweeps, some run ends in an expiry if and only if there is a rule, and the gap exceeds three quiet periods or there are more than a hundred rules |
| IncidentTimer.HiddenIncidentExpires | incident.go:170 | with more than a hundred rules a run loses any given one, however often it sweeps |
| IncidentTimer.OneTickMoreCanLoseAnIncident | incident.go:146-164 | with one rule and a gap of one tick more than three quiet periods, a run that ends in an expiry |
| Aggregator.IncidentAggregator.CloseQuiet | incident.go:168-190 | of the names the due query returned for the same cutoff, those last seen by it whose call succeeds are closed: their entries go, their incidents join the outbox in order, of which the cap, 1000 unless positive, keeps the last; nothing else changes, and nothing at all when the query fails |
| Aggregator.IncidentAggregator.PublishRecoveries | incident.go:192-243 | of the first twenty items those up to the first failing send are got past; sent are the objects of the decodable ones among them, one each, in order; the drop removes exactly what was got past; and for the publication machine at rest over this outbox it is one round that sends these very positions |
| Aggregator.RoundIsARun | incident.go:192-243 | from rest the machine has steps of its own, each taking effect, that send the positions of the decodable items got past and leave the outbox the round leaves |
| Aggregator.CloseAllClosesTheQuiet | incident.go:182-189 | closing a list of names takes the entries of exactly those last seen by the cutoff whose call succeeds, leaves those of every other name alone, and queues the closed incidents in order under the cap |
| Aggregator.SweepLeavesNothingQuiet | incident.go:168-190 | with at most a hundred indexed names a sweep leaves exactly the incidents seen after the cutoff and those it failed to close |
| Aggregator.SweepIsStuckOnStaleNames | incident.go:168-190 | a sweep changes nothing if and only if every name it was given is stale or fails to close |
| Outbox.DecodableIncarnations | incident.go:204-210 | a recovery can be decoded if and only if some event named a host and some event named a process |
| Outbox.PublicationIsFifo | incident.go:192-243 | in every run with trimming, crashes and failing drops: what left the outbox was sent, undecodable, trimmed or lost, and nothing is sent before everything ahead of it was |
| Outbox.RepeatsAreInterruptedPrefixes | incident.go:203-242 | every decodable item, also one the cap cut, has been sent exactly once per interruption that struck while it was got past and not dropped, once if it was dropped as got past, and once if it is got past now |
| Outbox.CrashRepeatsAnItem | incident.go:225-236 | a run in which a crash between send and drop sends an item twice |
| Outbox.ExactlyOnceWithoutInterruptions | incident.go:192-243 | a decodable item that left neither trimmed nor lost was sent once, and once more per interruption that struck it |
| Outbox.DropRemovesTheDeliveredPrefix | keydb/keydb.go:118-123 | a drop leaves the old contents minus as many items as were got past, plus what was pushed meanwhile; without a cut since the peek those are the delivered ones |
| Outbox.TrimmingBeforeTheDrop | keydb/keydb.go:60-61 | a drop removes items not got past if and only if the cap cut the front since the peek and there was something to drop |
| Outbox.LossNeedsTrimming | keydb/keydb.go:60-61 | in every run something was lost if and only if some drop came after a cut |
| Outbox.OneCloseDuringPublicationLosesAnItem | incident.go:235-236 | a run in which one close during publication costs an item that was never sent |
| Outbox.DropAfterCloseSkipsAnItem | keydb/keydb.go:118-123 | on the store: with a full outbox, a drop after one close also removes the first item not delivered |
| Outbox.StepsAreTheStores | keydb/keydb.go:60-61 | pushing and dropping in the publication machine are what closing and dropping do to the store |
| Excludes.Compute | keydb/keydb.go:195-212 | the transaction body computes `Updated` and `Changes` |
| Excludes.WithoutFirstAt | keydb/keydb.go:206-207 | cutting out the first match by index is removing the first occurrence |
| Excludes.RemovalRemoves | keydb/keydb.go:206-212 | a removal removes the pair if and only if its list held it at most once |
| Excludes.UpdateRefinesSet | keydb/keydb.go:195-212 | on lists without duplicates or empty lists an update keeps them so, is insertion or removal of one pair, and `changed` says whether the set changed |
| Excludes.RunsRefineTheSet | keydb/keydb.go:195-212 | after any run of updates a pair is excluded exactly when its last update added it, or it was there and had none |
| Excludes.ListsAreInOrder | keydb/keydb.go:203-207 | after any run of updates from nothing each list holds its values in the order in which they were last added |
| ExcludesProtocol.UpdatesAreSerialisable | keydb/keydb.go:177-235 | for any number of callers the stored value is the fold of the commits in order, each call commits at most once, and each returned value and flag are its own update's at one log position during the call |
| ExcludesProtocol.FailedCallsHaveNoEffect | keydb/keydb.go:229-234 | a call that ran out of attempts or failed before EXEC committed nothing; one whose reply was lost committed once |
| ExcludesProtocol.GivingUpNeedsContention | keydb/keydb.go:180-234 | a call that ran out of attempts overlapped at least 16 commits, none of them its own |
| ExcludesProtocol.SixteenCommitsExhaust | keydb/keydb.go:180-234 | and a run in which exactly 16 exhaust a call |
| ExcludesProtocol.LostReplyHasTakenEffect | keydb/keydb.go:219-224 | a run in which the reply to EXEC is lost and the update is in the store |
| ExcludesProtocol.CopiesWereCommitted | web.go:216-226 | an in-memory copy always is the value some prefix of the commits produced |
| ExcludesProtocol.RefreshConverges | dynamic_excludes.go:162-172 | once nothing older is pending one refresh makes the copy equal to the store |
| ExcludesProtocol.ConvergedCopyStays | dynamic_excludes.go:162-172 | and no further step changes that until somebody commits |
| ExcludesProtocol.CopyStaysExactlyWhenNothingOlderIsPending | dynamic_excludes.go:162-172 | a current copy stays current in every run without commits if and only if nothing older can still land |
| ExcludesProtocol.OlderReplaceCanWin | dynamic_excludes.go:163-171 | a refresh read before a commit can land after it and put the older value back |
| ExcludesStore.DynamicExcludesStore.Mute | dynamic_excludes.go:50-64 | the same update as the transaction body, appended in place while there is capacity, and `changed` says whether it was new |
| ExcludesStore.DynamicExcludesStore.Unmute | dynamic_excludes.go:66-84 | the same update as the transaction body, shifting in place and leaving no empty list |
| ExcludesStore.DynamicExcludesStore.Replace | dynamic_excludes.go:44-48 | the store holds the given value in backing arrays of its own |
| ExcludesStore.DynamicExcludesStore.Snapshot | dynamic_excludes.go:38-42 | a copy of the value in fresh backing arrays |
| ExcludesStore.CloneDynamicExcludes | dynamic_excludes.go:27-36 | equal contents, fresh arrays, no two lists sharing one |
| ExcludesStore.RemoveAt | dynamic_excludes.go:77 | the values behind the index move up, in the same array |
| ExcludesStore.SnapshotSurvives | dynamic_excludes.go:27-84 | no later sequence of Mute, Unmute and Replace alters a snapshot already returned |
| Dedup.AlertDeduper.Allow | alert_dedup.go:84-108 | the store's answer and reservation if it answers; otherwise refuse while cooling, else reserve and drop what expired; for the decision's TTL in seconds if positive, else the default |
| Dedup.AlertDeduper.Forget | alert_dedup.go:110-117 | removes the fingerprint from the store, if that takes it, and from memory, and nothing else |
| Dedup.AlertDeduper.constructor | alert_dedup.go:49-55 | the default TTL is the configured seconds if positive, else fifteen minutes |
| Dedup.DedupStore.ReserveDedup | keydb/keydb.go:239-241 | reserves if and only if no unexpired reservation is there |
| Dedup.PruningNeverChangesAVerdict | alert_dedup.go:97-106 | for a clock that does not run backwards every verdict is that of a map that is never pruned |
| Dedup.AllowedCallLeavesLiveEntries | alert_dedup.go:100-105 | after an allowed call the map holds exactly the unexpired reservations, the new one among them |
| Dedup.AllowedCallsAreSpaced | alert_dedup.go:84-108 | two allowed calls for one fingerprint with no Forget between are at least the first one's TTL apart |
| Delivery.SuppressionIsAccounted | main.go:505-520 | in every run of any number of workers an alert is suppressed if and only if an unexpired reservation blocks it that was sent, is in flight, or failed while the store missed the deletion |
| Delivery.SuppressionImpliesDelivery | main.go:505-520 | with one worker and a store that takes deletions, if and only if an earlier send of the fingerprint succeeded within its TTL |
| Delivery.RepeatsPassExactlyWhenForgotten | main.go:505-520 | for any number of workers and places: within the time of a reservation a repeat passes now or has passed before if and only if the reservation has been forgotten |
| Delivery.EarlyRepeatsNeedForgetting | main.go:505-520 | a reservation within the time of an earlier one in the same place was let through only because that one has been forgotten |
| Delivery.SentAlertsAreSpaced | main.go:505-520 | for any number of workers, two successful sends of one fingerprint in one place are the first one's TTL apart unless that one has been forgotten |
| Delivery.OneWorkerSpacesSentAlerts | main.go:505-520 | with one worker and one place to look they always are |
| Delivery.ConcurrentSuppressionCanLoseAlerts | main.go:505-520 | two workers: the second alert is suppressed by a send that then fails |
| Delivery.KeptReservationCanLoseAlerts | keydb/keydb.go:243-245 | a deletion the store misses suppresses although nothing was delivered |
| Delivery.SlowFailureLetsADuplicatePass | alert_dedup.go:110-117 | two workers: a slow failing send deletes another one's reservation, and a duplicate passes within its TTL |
| Delivery.StoreOutageLetsADuplicatePass | alert_dedup.go:89-93 | one worker: a failure while the store was away deletes an earlier reservation there |
| CheckLine.AlertEngine.CheckLine | main.go:410-524 | the outcome for each monitor, and the store and cooldowns after all of them, each monitor seeing what the ones before did |
| CheckLine.AlertEngine.Handle | main.go:481-520 | one monitor: ignored, aggregated, incident sent or released, suppressed, sent, or failed and forgotten, with the state each leaves |
| CheckLine.AlertEngine.HandleIncident | main.go:482-503 | the event is recorded, and a failed notification released |
| CheckLine.AlertEngine.HandleAlert | main.go:505-520 | the alert is suppressed or sent, and a failed send forgotten where it can be |
| CheckLine.OutsidersAreIgnored | main.go:413-480 | a monitor does nothing if and only if it does not match, the line is excluded for it, or the decision denies |
| CheckLine.IgnoredLineChangesNothing | main.go:413-480 | a line that every monitor passes over leaves incidents, reservations and cooldowns as they were |
| CheckLine.OthersAreHandled | main.go:482-520 | otherwise the event counts in the incident and no cooldown is touched if there is a rule and the record succeeds; else the alert is suppressed exactly while dedup is on and its fingerprint cools where it looks, and no incident is touched |
| CheckLine.OtherFingerprintsAreKept | alert_dedup.go:97-117 | alerts with other fingerprints are suppressed as before |
| CheckLine.LineNotifiesOnSchedule | main.go:482-503 | the monitors of a line that opens an incident notify for the first event and then for every r-th, 25th without a positive period, and count the others |
| CheckLine.FailedIncidentIsRetried | main.go:495-502 | after a failed incident notification the next event of the incident notifies, whoever reports it, if nobody came in between |
| CheckLine.FailedAlertIsRetried | main.go:512-518 | after a failed alert the next one of its fingerprint is attempted unless it asks the store, which kept the reservation it was to forget |
| CheckLine.SentAlertCools | main.go:505-512 | after a sent alert the next one that looks in the same place, store or memory, is suppressed if and only if it comes within the decision's seconds, or within the default TTL when they are not positive |
| CheckLine.EveryCandidateIsCounted | main.go:482-502 | exactly the monitors that match, with the line neither excluded nor denied and the record not failing, add one each to the rule's incident, sent or not, and no other incident is touched |
| AlertText.NormalizeIdempotent | alert_dedup.go:57-66 | normalising twice is normalising once, and the texts left alone are exactly the normal forms |
| AlertText.NormalizeGivesNormalForm | alert_dedup.go:57-66 | the output is lower case, trimmed, has single blanks and no match of any pattern |
| AlertText.UniqueMatch | alert_dedup.go:15-24 | a pattern has at most one match at a position, so greediness never matters |
| AlertText.PatternsFree | alert_dedup.go:60-64 | after the five replacements none of the five patterns matches anywhere |
| AlertPatterns.PatternsAreTheirExpressions | alert_dedup.go:15-24 | the texts a pattern matches, word boundaries aside, are exactly those of its regular expression |
| AlertText.TimestampsUnchanged | alert_dedup.go:28 | a text without long numbers has no timestamp field |
| AlertWords.PatternsSeparate | alert_dedup.go:60-64 | what stands on one side of a character no match contains has no influence on what becomes of the other side |
| AlertWords.ValueIsMasked | alert_dedup.go:60-64 | an address, identifier, hexadecimal or long decimal value standing alone becomes the token of its own kind |
| AlertLines.LinesLookAlikeExactly | alert_dedup.go:57-66 | two lines that differ in one word between separators have one normal form if and only if the two words are masked alike |
| AlertLines.NormalizedLine | alert_dedup.go:57-66 | a line is normalised word by word: what comes before and behind a word has no part in what becomes of it, nor it in theirs |
| AlertNormal.LineIsNormalized | alert_dedup.go:57-66 | the normal form of a whole line: each word masked, the blanks in the separators between them collapsed, the ends trimmed |
| AlertNormal.EveryTextIsALine | alert_dedup.go:57-66 | every text is a line of such words and separators |
| AlertNormal.SeparatorsCollapse | alert_dedup.go:65 | blanks become one blank and go at the ends; other separators are kept |
| AlertNormal.IdentifiersAreMasked | alert_dedup.go:21-24 | a word of letters, digits and underscores becomes `<n>` if it is four digits or more, `<hex>` if it is hexadecimal, and is only lowered otherwise |
| AlertNormal.ValuesBecomeTokens | alert_dedup.go:60-64 | a text of one of the five expressions becomes `<uuid>`, `<ip6>`, `<ip>`, `<hex>` or `<n>` |
| AlertNormal.WordsByMembers | alert_dedup.go:15-24 | the word characters of `\b`, and the separators that no match contains, by enumeration |
| AlertLines.ShortNumbersStayDistinct | alert_dedup.go:22-24 | lines that differ in numbers of up to three digits look alike if and only if the numbers are equal |
| AlertEndpoints.EndpointsLookAlike | alert_dedup.go:16-24 | lines that differ in an address with a port look alike if and only if the ports are equal or both have at least four digits |
| AlertEndpoints.EndpointIsMasked | alert_dedup.go:16-24 | the address becomes the token of its kind, the port is masked if it is long, and the punctuation stays |
| AlertWords.VolatileValuesLookAlike | alert_dedup.go:57-66 | any two lines that differ in one volatile value of one kind between separators have the same normal form, whatever else they contain |
| AlertWords.MaskedLine | alert_dedup.go:57-64 | a word between separators is masked by itself, and the text before and behind becomes what it would be alone |
| AlertTimestamps.TimestampsAround | alert_dedup.go:28 | no timestamp field reaches into a word that is none of its own, and timestamps before and behind are replaced as if they stood alone |
| AlertTimestamps.TimestampIsMasked | alert_dedup.go:28 | a timestamp field becomes the same whatever its timestamp, and so does the text around it |
| AlertTimestamps.FieldOfPrefix | alert_dedup.go:28 | whether a timestamp field is found, and which, depends on nothing behind it |
| AlertFields.FieldsAreTheirExpression | alert_dedup.go:28 | a name and a value are a timestamp field if and only if the name matches the captured part of the expression, a quoted `time`, `timestamp` or `ts`, blanks, a colon, blanks and a quote, and the value its date, clock, optional fraction and zone |
| AlertFields.FieldsAreFoundExactly | alert_dedup.go:28 | a field is found at a place if and only if the expression matches there, and it is the same one |
| AlertFields.TimestampIsMaskedInLine | alert_dedup.go:57-66 | the normal form of a line with a timestamp field is that of the text before it, the field with `<timestamp>` for its value, and that of the text behind it |
| AlertFields.TimestampsLookAlike | alert_dedup.go:57-66 | two lines that differ in the value of one timestamp field have the same normal form |
| AlertText.JoinKeyInjective | alert_dedup.go:81 | the joined key determines host, process and text |
| AlertText.FingerprintKeyInjective | alert_dedup.go:68-82 | two lines have one key if and only if they have the same host or lack it alike, the same for the process, and one normal form of the parsed text, or of the raw line where there is none |
| TextRewrite.PassKeepsFree | alert_dedup.go:57-66 | a replacement pass clears its own pattern and keeps a text free of every pattern it was free of |
| SingleFlight.DecisionCache.Join | decision.go:67-78 | finds the flight of the key or opens one: one step of the machine |
| SingleFlight.DecisionCache.Publish | decision.go:80-84 | stores the decision, ends the flight and wakes its followers: one step of the machine |
| SingleFlight.DecisionCache.Await | decision.go:70-71 | a follower of a finished flight reads the decision published in it |
| SingleFlight.OneEvaluationPerKey | decision.go:66-86 | in every interleaving at most one evaluation per key is in flight, and the inflight map holds exactly the keys being evaluated |
| SingleFlight.FollowersShareTheLeadersDecision | decision.go:68-72 | a follower returns what the leader of its key returned, and that was not published yet when the follower looked |
| SingleFlight.NobodyWaitsInVain | decision.go:68-85 | a waiting follower can wake, or its leader is still evaluating and publishing wakes it |
| Pipeline.NoLineIsLost | main.go:697-730 | per tailer, in reading order: lines read = taken + queued + in its hand + discarded; at most one discarded, none before cancellation; lines are taken in enqueue order; nothing is sent on the closed channel |
| Pipeline.DrainedMeansDone | main.go:754-782 | drained means every worker exited and every enqueued line was taken and completed; the store is closed only then |
| Pipeline.WorkerStepsShrinkTheDrain | main.go:650-655 | once the channel is closed every step of a worker decreases the work left |
| Pipeline.TheDrainEnds | main.go:758-770 | no run of worker steps is longer than the work left, and one that cannot go on leaves the pipeline drained |
| Pipeline.OneLineThrough | main.go:649-656 | a run that takes a line from a file through the channel to a finished worker |
| Pipeline.DrainsAndCloses | main.go:754-782 | after cancellation the channel closes, the workers exit, the drain is reported and the store closes, each only after the one before |
| RateLimiter.RequestLimiter.Allow | web.go:51-66 | counts the request in the host's open window or a fresh one, and admits it up to the limit |
| RateLimiter.HostsAreIndependent | web.go:59-65 | a host's windows and verdicts are those of the history without all other hosts |
| RateLimiter.SlidingBound | web.go:51-66 | over any history in time order, any interval of k windows admits at most (k+1)·limit − 1 requests of one host |
| RateLimiter.SlidingBoundIsTight | web.go:51-66 | a history that attains the bound, for every limit, every k ≥ 1 and every window longer than one tick |
| Utf8Text.TruncateUTF8 | notifier.go:167-179 | the whole value if it fits, else the longest prefix within the limit that ends on a rune boundary; well-formed text stays well-formed, and no longer prefix within the limit is |
| Utf8Text.WellFormedPrefixes | notifier.go:171-178 | in well-formed UTF-8 (section 3 of RFC 3629) the well-formed prefixes are exactly those that end on a rune boundary |
| Utf8Text.WellFormedIsEncoded | notifier.go:172 | well-formed text is the encoding of some code points, by the table of section 3 of RFC 3629 |
| Utf8Text.EncodedIsWellFormed | notifier.go:172 | and every such encoding is well-formed |
| Utf8Text.RuneWidths | notifier.go:172 | a range loop advances over one encoded code point, or over one byte where none is encoded |

## Left out

- HTTP clients and servers, request and response formats, token checks and validation: library calls; a send either
  succeeds or fails.
- The decision service's own request, fail-open rules and timeouts (decision.go:96-224): the decision is an input.
- The regex engine: monitor, incident and exclude patterns are inputs; the normaliser's patterns are matchers proved to
  find what their expressions match, and word boundaries are stated by `AlertText.Matches`.
- SHA-256 (alert_dedup.go:81): theorems are about the text that is hashed.
- File tailing, restarts of a tail (main.go:731-748), signals, configuration, secrets, snapshot files and telemetry.
- Dynamic excludes, process excludes and JSON excludes as matching (main.go:277-345): whether a line is excluded is an
  input.
- Stored excludes that are no JSON object of string lists (keydb/keydb.go:189-193): decoding is left out, so a stored
  value always is a map of lists.
- Store values as text: numbers in a hash are numbers, not their decimal form; a missing or non-numeric field reads as
  0, as in the scripts.
- The order HGETALL returns fields in: hosts and processes of a recovery are sets.
- Rule names `active` and `recovery-outbox`, whose keys would collide with the index and the outbox: assumed away.
- Networking and replication of the store: one primary, atomic scripts; a failing call either changes nothing or, for
  EXEC, may lose its reply.
- A record or release whose reply is lost (main.go:483-488): recording fails as a whole, and a release always arrives.
- Overflow of durations and 64-bit times: times and TTLs are unbounded integers.
- Lower-casing and trimming outside ASCII: text is made of characters, and only ASCII letters and blanks change.
- AlertLines.LinesLookAlikeExactly: is about one word that separators delimit, that is, no word character and none of
  the marks `-`, `.`, `:`, `[` and `]`, which the patterns themselves use; words a timestamp field consists of are
  excluded.
- AlertWords.VolatileValuesLookAlike: the same; an address with a port is in AlertEndpoints.EndpointsLookAlike.
- AlertFields.TimestampsLookAlike: the text before the field does not end in a digit or a `z`, where a quote would
  close an earlier timestamp.
- Outbox.PublicationIsFifo: one publisher at a time. When the address that marks the active replica moves, two can
  publish for a moment, and each may send what the other has peeked.
- IncidentTimer.NoIncidentIsLostToItsTtl: one clock for all processes, and arrivals are not in its future; a sweep
  counts as complete when none of its calls failed.
- ExcludesProtocol.RefreshConverges: "nothing older pending" includes calls that have read an older value and will find
  nothing to change.
- CheckLine.AlertEngine.CheckLine: matching, exclusion and the decision are inputs, and no other worker steps in
  between; what interleaving changes is stated on the machines.
- CheckLine.AlertEngine.Handle: the same.
- Delivery.RepeatsPassExactlyWhenForgotten: one clock for all workers and for the store.
- Pipeline.TheDrainEnds: takes for granted that each job ends; the drain timeout is a step that may come at any time.
- SingleFlight.NobodyWaitsInVain: takes for granted that an evaluation returns; one that panics leaves its flight open.
- Aggregator.IncidentAggregator.PublishRecoveries: the notification text built from a recovery is left out.
- Restoring excludes from a snapshot file at start-up (main.go:592-606) is one step that overwrites the stored value; a
  restore that fails, and so leaves a copy the store does not have, is left out.
