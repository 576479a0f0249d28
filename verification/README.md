# Verified model of the Wazuh manager's stateful core

A Dafny model of the parts of the manager that keep state between events and requests, with proofs of what they keep
over whole runs. `dafny verify dfyconfig.toml` checks everything.

| file | what it models |
|---|---|
| `limits.dfy`, `limits_protocol.dfy` | the events-per-second limiter: its buffer and semaphore as one thread sees them, and workers and ticker interleaved step by step |
| `filters.dfy`, `search.dfy`, `search_meaning.dfy` | the backward search of composite rules: its filters, the scan, and what the scan decides |
| `evidence.dfy`, `evidence_exact.dfy`, `evidence_link.dfy`, `evidence_overlap.dfy` | whole runs of searches over one index list, exactly when they count no event twice, how they are runs of the methods, and what overlapping stores do to them |
| `eventlist.dfy`, `memory.dfy`, `objects.dfy` | the doubly linked event list, the index lists of the rules, and the store and eviction that keep the two in step |
| `interleaved.dfy`, `interleaved_order.dfy` | stores by several threads at once: what every interleaving keeps, and exactly when the order of two stores is kept |
| `listguard.dfy` | searchers and removers on the index lists, interleaved |
| `ruletree.dfy` | the walk of the rule tree, the hourly counters, and the marking of group lists |
| `logtest.dfy`, `logtest_protocol.dfy`, `logtest_recency.dfy` | the logtest session table, alone and under concurrent requests, and which sessions leave it |
| `accumulator.dfy`, `accumulator_runs.dfy`, `accumulator_purge.dfy`, `accumulator_sharing.dfy` | the accumulator cache, runs of it, when it purges, and which events share a record |
| `keyfile.dfy`, `keyfile_lines.dfy`, `keyfile_runs.dfy`, `idformat.dfy`, `manage_agents.dfy`, `agent_addresses.dfy` | the agent key file as characters: the searches, the in-place mark of a removal, runs of additions and removals, and the questions asked when an agent is added or removed |
| `comment.dfy`, `comment_limits.dfy`, `comment_fields.dfy` | the expansion of variables in a rule's comment, what its length limit does, and where the values come from |
| `arguments.dfy` | active-response arguments, split by the manager and joined by the agent |
| `cdblist.dfy` | the line parser of CDB lists |
| `sums.dfy`, `options.dfy`, `cstrings.dfy` | finite sums, absent values, and C strings in buffers |

Code that works in place is modelled in place: classes with fields, arrays with terminators written into them, loops
with invariants, each method proved against a function or predicate about which the main results are proved.
Concurrent protocols are state machines whose steps are the atomic actions between two lock operations; their results
hold for every interleaving.

## Findings

Promises that hold only under a condition, which is stated and proved as an if-and-only-if:

- *Evidence reuse.* A firing marks only the newest event it counted, and none if the rule was written with frequency 2
  (stored as 0). A later search that passes over the marked event finds the others as fresh as before: for
  instance, under a `different_*` or `not_same` condition, when the marked event has the value of the one that searches.
  `EvidenceExactly.ReuseExactly`, for every rule: evidence is never reused in any run exactly if the rule cannot fire
  at all (its level is not positive, or some field is to be both the same and different, decoded fields being named
  alike up to upper and lower case), or its stored frequency is positive and no effective condition asks for a
  difference.
- *Index lists.* `OS_MarkGroup` gives a rule the same group list once for every node of the tree at which the rule's
  record stands, and the store step then adds an event to that list several times. `IndexedIsFilterExactly`: an index
  list is the filtered history exactly if no listed event's rule names it twice. `FrequencyCountsEventsExactly` and
  `PaidForExactly`: exactly then a frequency counts events, and the firings of a rule whose evidence is never reused
  are paid for in events.
- *Removal protocol.* With such a repeated list the second wait for the list begins after its flag was taken down, and
  a searcher can be inside while the second node is deleted. `ListGuard.SafeExactly`: the protocol is safe for a
  removal in all interleavings exactly if its lists are distinct.
- *Logtest sessions.* A request that finds an error message waiting when it has obtained its session returns without
  unlocking the session. `LogtestProtocol.DeadlocksExactly`: the sessions can deadlock exactly if that has happened.
  A limit of zero sessions is always exceeded by one (`LimitHoldsExactly`).
- *Accumulator purges.* The interval of 300 seconds is compared the wrong way round. `EveryRoundExactly`: purges fall
  on every 200th call and on no other exactly if the clock never goes back 300 seconds behind the last purge. With a
  clock that never goes back the interval is kept exactly if all other calls come within it anyway
  (`IntervalKeptExactly`). `PurgesAreInvisible` shows that this changes no event.
- *Accumulator keys.* The key of a record is host, decoder and id with spaces between them. `SameKeyExactly`,
  `OthersDoNotMatter`: without spaces in host and decoder names no event is touched by one of another host, decoder or
  id. With them `KeysMeetExactly` says when two hosts and decoders can share a record, and `SpacesMix` gives two that do.
- *Long comments.* A rule comment of more than 1024 characters is cut to 1024 before it is expanded, and a short enough
  expansion of the cut text is used. `AllOrNothingExactly`: for all events the result is the whole comment expanded, or
  the comment as it stands, exactly if the comment has at most 1024 characters or no closed variable among the first
  1024.
- *Adding an agent.* An agent that holds the address of a new one is removed before the addition is confirmed. An
  addition that does not take place leaves the file unchanged exactly if no address was accepted, or no agent in use
  had it (`ManageAgents.AddAgent`; `UnconfirmedRemoves` gives a file that is changed).
- *CDB lists.* An unquoted key and its value come back exactly if the key holds no quote and no colon and the value no
  quote; a quoted key exactly if neither holds a quote (`BareRoundTrip`, `BareKeyRoundTrip`, `QuotedKeyRoundTrip`). On a
  line of a file neither may hold a line break either (`LineRoundTrip`).
- *Stores at once.* A thread enters the index lists under one mutex and the event list under another. For every run and
  every two events that share a list, `InterleavedOrder.OrderKeptExactly`: a store that begins now is sure to stand in
  the same order to an earlier one in that list and in the event list, however the stores go on, exactly if the earlier
  store is finished. The contents agree in every interleaving, and evicted events leave no node behind. What the order
  is for is lost with it: when stores may overlap, an event that a firing marked can be evicted before older ones, and
  evidence is never reused exactly if the rule cannot fire at all (`EvidenceOverlap.OverlapReuseExactly`). As long as
  evictions take the oldest nodes of the list, overlapping stores do no harm (`NoReuseInOrder`).

## Model

| member | source | states |
|---|---|---|
| EpsLimits.Limits.LoadLimits | agents/analysisd/limits.c:41-62 | the limiter is on exactly if both settings are positive, starts with empty cells and eps*timeframe credits, and that product fits the semaphore |
| EpsLimits.Limits.UpdateLimits | agents/analysisd/limits.c:64-80 | one tick is the pure step Tick, and credits plus recorded events are conserved |
| EpsLimits.Limits.GetEpsCredit | agents/analysisd/limits.c:82-87 | a credit becomes one recorded event in the current cell; their sum is conserved |
| EpsLimits.Limits.LimitReached | agents/analysisd/limits.c:89-105 | the limit is reached exactly if no credit is left, and the credits are reported either way |
| EpsLimits.Limits.GenerateEpsCredits | agents/analysisd/limits.c:107-111 | posts the given number of credits one by one |
| EpsLimits.Limits.IncreaseEventCounter | agents/analysisd/limits.c:113-117 | adds one to the current cell and to nothing else |
| EpsLimits.TickConserves | agents/analysisd/limits.c:64-80 | a tick moves credits from the oldest cell to the semaphore and loses none |
| EpsLimits.CapacityFits | agents/analysisd/limits.c:50 | for every accepted configuration eps*timeframe fits the semaphore's range |
| EpsProtocol.SlidingWindowBound | agents/analysisd/limits.c:64-87 | in every interleaving of workers and ticker, no timeframe consecutive intervals contain more than eps*timeframe acquired credits |
| EpsProtocol.BoundIsAttained | agents/analysisd/limits.c:64-87 | every number of credits up to the bound can be acquired in one interval, so the bound cannot be lowered |
| EpsProtocol.CellsAndBlocking | agents/analysisd/limits.c:64-87 | between ticks the buffer holds exactly the recorded counts of the last min(ticks+1, timeframe) intervals, also while it warms up, and a worker blocks exactly if they and the credits in flight use up eps*timeframe |
| EpsProtocol.NoCounterWraps | agents/analysisd/limits.c:107-117 | for every accepted configuration no cell and no semaphore value leaves its machine range |
| EpsProtocol.StepInv | agents/analysisd/limits.c:64-117 | each single step keeps: credits, credits in flight and cells less what is posted already add up to the capacity; the buffer shows the recorded history; every window is bounded |
| EpsProtocol.Recovery | agents/analysisd/limits.c:64-80 | from any reachable state with nothing in flight, timeframe ticks without acquisitions restore every credit |
| EpsProtocol.TickerCompletes | agents/analysisd/limits.c:64-80 | the ticker's small steps, undisturbed, have the effect of one Tick |
| Filters.SameLoop | agents/analysisd/eventinfo.c:48-69 | every static field from index 2 named in the mask is present and equal in both events |
| Filters.DifferentLoop | agents/analysisd/eventinfo.c:73-94 | no static field named in the mask is present and equal in both events |
| Filters.FindField | agents/analysisd/decoders/decoder.c:233-241 | the value of the first decoded field that has the name up to upper and lower case, or none exactly if no field has it |
| Filters.SameNameExactly | agents/analysisd/decoders/decoder.c:237 | names are equal exactly if they agree character by character, the two cases of a letter taken as one |
| Filters.MaskIsItsBits | agents/analysisd/rules.h:24-44 | the bits of a field mask are its binary digits |
| Filters.CheckDynamics | agents/analysisd/eventinfo.c:180-221 | the same_field and not_same_field conditions on decoded fields, over every named field, names being equal up to upper and lower case |
| Filters.CheckStatics | agents/analysisd/eventinfo.c:222-232 | the conditions on static fields |
| Filters.CheckFilters | agents/analysisd/eventinfo.c:148-232 | one turn of the loop lets an event through exactly if agent, id, source address, dynamic and static conditions all pass |
| Filters.PassesExactly | agents/analysisd/eventinfo.c:148-232 | field by field: an earlier event passes exactly if it has the agent unless the frequency is global, the value of each static field to be the same, not that of any to be different, and likewise the first decoded field of each name |
| Filters.ClassesOfEvents | agents/analysisd/eventinfo.c:148-232 | without an effective condition that asks for a difference, events counted together for one event are counted together for any |
| Filters.GroupsExactly | agents/analysisd/eventinfo.c:148-232 | for every rule, the filters group events in this way exactly if no effective different_* or not_same condition is set, or the conditions contradict each other |
| Filters.NothingPasses | agents/analysisd/eventinfo.c:148-232 | a field that is to be both the same and different, by name up to upper and lower case, lets no event through |
| RepeatSearch.SearchLast | agents/analysisd/eventinfo.c:134-262 | the scan returns an event exactly if the hits fire, returns the last one counted and marks the newest with the rule's level; entries of last_events that were there stay, entry k up to the eleventh is the log of the k-th hit as far as hits were counted, and nothing else is added; Search_LastGroups (310-446) is the same scan over another list |
| RepeatSearch.AddLastEvent | agents/analysisd/eventinfo.c:242-245 | the k-th log is appended for k up to ten unless entry k is set; otherwise nothing changes |
| RepeatSearch.HitsStep | agents/analysisd/eventinfo.c:134-255 | each turn of the loop either stops, passes over, or takes the next hit |
| SearchMeaning.SearchDecides | agents/analysisd/eventinfo.c:134-262 | over a list ordered by time a search succeeds exactly if more than frequency events are eligible and none of the newest frequency+1 was used; the result is the oldest of those |
| SearchMeaning.HitsAreEligible | agents/analysisd/eventinfo.c:134-232 | over an ordered list the scan stops at no event too early: its hits are all eligible events |
| SearchMeaning.CountsNewest | agents/analysisd/eventinfo.c:235-255 | over an ordered list a search counts the newest eligible events, up to the first used one or frequency+1 of them |
| SearchMeaning.RecordsNewest | agents/analysisd/eventinfo.c:242-245 | over an ordered list entry k of last_events, unless set before, is the log of the eligible event with exactly k newer ones |
| SearchMeaning.FrequencyCountsNodes | agents/analysisd/rules.c:2296-2303 | frequency n in the rule file asks for n-1 eligible nodes of an unused list, besides the current event |
| EvidenceOfMethods.FrequencyCountsEventsExactly | agents/analysisd/rules.c:2296-2303 | frequency n asks for n events, the current one included, for all rules and histories exactly if no rule names the list twice |
| EvidenceExactly.NoEvidenceReuse | agents/analysisd/eventinfo.c:237-261 | over any run, for a rule of positive stored frequency without an effective condition that asks for a difference, the events counted by any two firings are disjoint; if no rule names the list twice, each firing counted frequency+1 events and firings*(frequency+1) is at most the number of events stored |
| EvidenceExactly.ReuseExactly | agents/analysisd/eventinfo.c:237-261 | for every rule: evidence is never reused in any run exactly if its level is not positive, or its conditions contradict each other, or its stored frequency is positive and no effective condition asks for a difference |
| EvidenceExactly.PaidForExactly | agents/analysisd/eventinfo.c:237-261 | for every rule and every way rules feed the list: firings are disjoint, of frequency+1 events each, and paid for in events stored, in all runs exactly if the rule cannot fire, or nothing feeds the list, or evidence is never reused and no rule names the list twice |
| EvidenceExactly.UnmarkedIsReused | agents/analysisd/eventinfo.c:237-261 | for every rule of stored frequency 0 that can fire, a run that counts one event twice |
| EvidenceExactly.TellingIsReused | agents/analysisd/eventinfo.c:202-261 | for every rule of positive stored frequency with an effective condition that asks for a difference, a run that counts one event twice |
| EvidenceExactly.RepeatedIsUnderpaid | agents/analysisd/analysisd.c:2219-2233 | with a list named twice, a run whose firing counted fewer events than the rule asks for, and as many as were stored |
| EvidenceRuns.NoSharedEvidence | agents/analysisd/eventinfo.c:237-261 | a search that would count an event of an earlier firing meets a used event among the newer ones first |
| EvidenceRuns.StepInv | agents/analysisd/eventinfo.c:237-261 | storing, dropping the oldest nodes, raising a mark and any rule's search keep what the proof remembers of past firings |
| EvidenceOfMethods.SearchInRun | agents/analysisd/eventinfo.c:134-262 | a search of the records and index nodes has exactly the effect of the run's search |
| EvidenceOfMethods.StoreInRun | agents/analysisd/analysisd.c:2207-2240 | what a store and its evictions make of an index list is what the run's append and drop make of its list |
| EventLists.EventList.constructor | agents/analysisd/eventinfo_list.c:16-25 | an empty well-formed list with its limits |
| EventLists.EventList.AddEvent | agents/analysisd/eventinfo_list.c:36-111 | the list stays a well-formed doubly linked list with an empty head; the new event is in, and the evicted ones are the oldest, as many as the eviction rule says; the size counter equals the number of nodes |
| EventLists.EventList.Trim | agents/analysisd/eventinfo_list.c:61-81 | the loop stops at the newest event, or after ten at the first recent one, and not before |
| EventLists.EventList.Unlink | agents/analysisd/eventinfo_list.c:70-79 | the oldest node leaves and the list stays linked both ways |
| EventLists.EventList.RemoveAll | agents/analysisd/eventinfo_list.c:113-130 | every event is freed once, newest first, with its back pointer cleared |
| EventLists.EvictionBounds | agents/analysisd/eventinfo_list.c:58-81 | the number evicted is determined, and the size then stays within the limit, dropping to at most max(1, limit-9) when eviction runs |
| EventLists.EvictedExactly | agents/analysisd/eventinfo_list.c:58-81 | beyond the limit ten events leave, then exactly those up to the first that is not older than the threshold, and never the newest |
| CorrelationMemory.Memory.Store | agents/analysisd/analysisd.c:2207-2240 | after every store and the evictions it causes, each index list holds, in order, exactly what the listed events put there, and every saved node handle points at its own event's node |
| CorrelationMemory.Memory.AddIndexNodes | agents/analysisd/analysisd.c:2208-2233 | the new event goes to its rule's own list, or else to each group list, and remembers its nodes |
| CorrelationMemory.Memory.FreeEvent | agents/analysisd/eventinfo.c:735-776 | the oldest event's nodes leave all its lists and no other node moves |
| CorrelationMemory.StoreIsAppendThenDrop | agents/analysisd/analysisd.c:2207-2240 | seen from one index list, a store appends at the tail and drops from the front, as the evidence runs assume |
| CorrelationMemory.IndexedIsFilterExactly | agents/analysisd/analysisd.c:2219-2233 | an index list is the history filtered to the events of the rules that feed it exactly if no listed event's rule names it twice |
| CorrelationMemory.FeedsOncePerNode | agents/analysisd/rules_list.c:528-571 | after marking, a rule feeds a group list once for every node of the tree at which its record stands |
| InterleavedStores.SameNodesAtRest | agents/analysisd/analysisd.c:2207-2240 | whatever the interleaving of stores, once none is under way each index list holds of every listed event as many nodes as its rule names the list, and no others |
| InterleavedStores.EvictedIsGone | agents/analysisd/eventinfo.c:735-776 | an evicted event has no node left in any list, whichever stores are under way |
| InterleavedStores.OrderOfSeparateStores | agents/analysisd/analysisd.c:2207-2240 | a store begun after another was finished comes after it in the event list and in every index list |
| InterleavedOrder.OrderKeptExactly | agents/analysisd/analysisd.c:2207-2240 | for every run, an earlier store and one that begins now and shares a list with it: in every continuation in which both are listed, that list and the event list have them in the same order, exactly if the earlier store is finished |
| InterleavedOrder.OverlapReverses | agents/analysisd/analysisd.c:2207-2240 | from every reachable state in which two stores that share a list are under way, a continuation that puts them into the event list in the other order |
| EvidenceOverlap.OverlapReuseExactly | agents/analysisd/eventinfo.c:237-261 | for every rule: with overlapping stores, evidence is never reused in any run exactly if the rule cannot fire |
| EvidenceOverlap.MarkedLeavesFirst | agents/analysisd/eventinfo.c:237-261 | for every rule of positive stored frequency that can fire, a run in which the marked event is evicted before the others and one of those is counted again |
| EvidenceOverlap.NoReuseInOrder | agents/analysisd/eventinfo.c:237-261 | with overlapping stores too, the events counted by any two firings are disjoint as long as every eviction takes the oldest nodes of the list |
| ListGuard.NoSearcherDuringDelete | agents/analysisd/eventinfo.c:735-776 | in every interleaving no searcher is inside an index list while a node of it is deleted, in the single-list and in the flag-all-then-drain-each form |
| ListGuard.SafeExactly | agents/analysisd/eventinfo.c:750-776 | the protocol is safe for a removal in all interleavings exactly if its lists are distinct |
| ListGuard.DuplicateIsUnsafe | agents/analysisd/eventinfo.c:750-776 | for any repeated list, an interleaving with a searcher inside during a delete |
| ListGuard.NoStuckRemoval | agents/analysisd/eventinfo.c:735-776 | from every reachable state the active removal can finish while searchers only leave |
| ListGuard.FinishingStep | agents/analysisd/eventinfo.c:117-125 | a searcher that has entered never waits for the remover: some finishing step is always enabled and brings the end nearer |
| ListGuard.FlaggedOnlyEmpties | agents/analysisd/eventinfo.c:117-125 | nobody enters a flagged list |
| RuleTrees.MatchMeaning | agents/analysisd/rules.c:3106-3147 | the walk finds the alerting path that comes first, and none exactly if no path alerts |
| RuleTrees.RuleEngine.CheckIfRuleMatch | agents/analysisd/rules.c:3106-3147 | a match counts once for the matched rule and in the total, and a match below the top leaves the immediate parent in an unset prev_rule |
| RuleTrees.RuleEngine.MatchEvent | agents/analysisd/analysisd.c:2100-2125 | for one event the first match in order among the top-level rules of its category is taken; counters change for it alone, and the total stays the sum of the counters |
| RuleTrees.RuleEngine.LoopRule | agents/analysisd/analysisd.c:1117-1138 | every fired rule of the subtree is printed once with its count and cleared |
| RuleTrees.RuleEngine.DumpLogstats | agents/analysisd/analysisd.c:1140-1197 | the printed counts add up to the printed total, each rule appears at most once, and everything is cleared; nothing changes if the file cannot be opened |
| RuleTrees.GroupMarker.MarkGroup | agents/analysisd/rules_list.c:528-571 | each matching rule gets the list once per node at which it stands |
| RuleTrees.PlacesArePaths | agents/analysisd/rules_list.c:528-571 | the places counted for a rule are the paths of the tree that lead to its record |
| LogtestSessions.SessionTable.RemoveSession | agents/analysisd/logtest.c:555-566 | only the named session leaves the table |
| LogtestSessions.SessionTable.RemoveOldSession | agents/analysisd/logtest.c:884-916 | the first in walking order of the sessions idle for longest is removed; an empty table is left alone |
| LogtestSessions.SessionTable.RegisterSession | agents/analysisd/logtest.c:870-882 | the counter stays the number of sessions, and room is made by a longest-idle session exactly if the table is full and not empty |
| LogtestSessions.SessionTable.CheckInactiveSessions | agents/analysisd/logtest.c:612-637 | exactly the expired sessions that nobody uses leave, and the counter follows |
| LogtestSessions.SurvivorsAt | agents/analysisd/logtest.c:612-637 | after a pass a session is left, with its time, exactly if it was in use or not expired at the one reading made for it |
| LogtestProtocol.StepInv | agents/analysisd/logtest.c:1076-1130 | every step of every worker keeps the lock discipline, the ownership of mutexes and the counter |
| LogtestProtocol.TableWithinLimit | agents/analysisd/logtest.c:870-882 | in every interleaving, whenever the table lock is free the counter is the number of sessions and within the limit |
| LogtestRecency.TimesAreLastUses | agents/analysisd/logtest.c:1076-1082 | after every run, the time of each session in the table is that of the last step that created it or obtained it for a worker whose latest request named it |
| LogtestRecency.EvictsLeastRecent | agents/analysisd/logtest.c:870-916 | in every run the session a registration evicts leaves the table, and no session there was last asked for before it, as read off the steps |
| LogtestRecency.RemovesUnlessInUse | agents/analysisd/logtest.c:1165-1185 | whatever happens before its turn, a remove request takes out its session exactly if nobody uses it, frees it, corrects the counter, and leaves all others |
| LogtestRecency.SweepsExactly | agents/analysisd/logtest.c:612-637 | whatever other workers do meanwhile, a sweep leaves exactly the sessions it found recently used or in use, with their times |
| LogtestProtocol.LimitHoldsExactly | agents/analysisd/logtest.c:870-896 | the limit holds in all runs exactly if it is at least one |
| LogtestProtocol.FreedWhileUnused | agents/analysisd/logtest.c:555-600 | a session is freed only while nobody holds its mutex, and no pointer to it is left in any worker |
| LogtestProtocol.OneWorkerPerSession | agents/analysisd/logtest.c:1076-1130 | no two workers use one session at once |
| LogtestProtocol.RegistersAtOnce | agents/analysisd/logtest.c:870-916 | a registration that has to wait for the evicted session changes the table as the uninterrupted method does |
| LogtestProtocol.DeadlocksExactly | agents/analysisd/logtest.c:1105-1109 | the sessions can be brought to a deadlock exactly if some request returned early without unlocking its session |
| LogtestProtocol.EveryRequestCanFinish | agents/analysisd/logtest.c:1076-1183 | with no such return, every request in progress can be brought to its end in a bounded number of steps, after which no lock is held |
| LogtestProtocol.JamIsForever | agents/analysisd/logtest.c:1078-1082 | a worker that holds the table lock and waits for a leaked mutex waits for ever, and the table never changes again |
| Accumulators.StrReplace | agents/analysisd/accumulator.c:337-368 | a known value is never overwritten, and only a value of 1 to 80 characters is taken |
| Accumulators.Fill | agents/analysisd/accumulator.c:156-217 | each of the seven fields is completed from its own counterpart |
| Accumulators.Accumulator.CleanUp | agents/analysisd/accumulator.c:239-294 | a call that purges sets the counter to zero and leaves exactly the entries of the last 120 seconds; any other leaves the store alone; which calls purge is the test on counter and clock |
| AccumulatorPurges.EveryRoundExactly | agents/analysisd/accumulator.c:249-265 | over any readings of the clock, purges fall on every 200th call and on no other exactly if no call in between reads a time 300 seconds or more before the last purge |
| AccumulatorPurges.IntervalKeptExactly | agents/analysisd/accumulator.c:249-265 | with a clock that never goes back the interval causes no purge, and every call that comes 300 seconds after the last purge purges exactly if all calls but each 200th come earlier |
| AccumulatorPurges.DueAndNotPurged | agents/analysisd/accumulator.c:249-265 | a call 300 seconds after the start does not purge |
| Accumulators.Accumulator.Accumulate | agents/analysisd/accumulator.c:97-237 | the event and the store become what the step functions say, for identified events with a key under 256 characters; others pass through |
| AccumulatorRuns.PurgesAreInvisible | agents/analysisd/accumulator.c:126-154 | under a positive clock that never goes back, any two purge schedules give the same events, and stores that differ in expired entries only |
| AccumulatorRuns.OutputMeaning | agents/analysisd/accumulator.c:142-217 | an output field is the event's own value if it has one, otherwise the first value of 1 to 80 characters that an earlier event of the key brought since the last pause of more than 120 seconds |
| AccumulatorRuns.RecordMeaning | agents/analysisd/accumulator.c:186-217 | what the store holds for a key is the time of its latest event and, field by field, the first such values; a key without an entry has had no event for more than 120 seconds |
| AccumulatorSharing.SameKeyExactly | agents/analysisd/accumulator.c:132-136 | for host and decoder names without spaces, keys are equal exactly if host, decoder and id are |
| AccumulatorSharing.KeysMeetExactly | agents/analysisd/accumulator.c:132-136 | for any names: two hosts and decoders have equal keys for some ids exactly if what stands before the one id begins what stands before the other |
| AccumulatorSharing.OthersDoNotMatter | agents/analysisd/accumulator.c:97-237 | over any run and clock, replacing events of another host, decoder or id by any others of that kind does not change what Accumulate makes of an event |
| AccumulatorSharing.FieldsStayTogether | agents/analysisd/accumulator.c:142-217 | a field of an output is the event's own, or a useful value of an earlier event of the same host, decoder and id |
| AccumulatorSharing.PurgedIsRecent | agents/analysisd/accumulator.c:267-294 | after a call that purges, every record is that of the call itself or of an event of its key at most 120 seconds before the purge |
| KeyFiles.IsValidName | agents/addagent/validate.c:340-358 | 2 to 128 letters, digits, dashes, underscores and dots, and nothing else |
| KeyFiles.IsValidID | agents/addagent/validate.c:201-225 | at most eight digits |
| KeyFiles.KeyFile.IDExist | agents/addagent/validate.c:288-337 | tells whether some line has the id, in use or not as asked, and leaves the position of the first such line |
| KeyFiles.KeyFile.NameExist | agents/addagent/validate.c:370-422 | tells whether some agent in use has the name |
| KeyFiles.KeyFile.GetNameById | agents/addagent/validate.c:228-285 | the name of the first agent in use under the id that shows one |
| KeyFiles.KeyFile.IPExist | agents/addagent/validate.c:425-477 | the id of the first agent in use with exactly the address, unless the address is "any" or a network |
| KeyFiles.NobodysExactly | agents/addagent/validate.c:432-433 | an address is nobody's, whatever the file, exactly if it starts with any or holds a slash |
| KeyFiles.KeyFile.RemoveAgent | agents/addagent/validate.c:74-161 | the file becomes itself with one '!' after the first space of the first line in use under the id, one character longer, through a buffer of exactly that size |
| KeyFiles.MarkLine | agents/addagent/validate.c:123-142 | the line read is shifted by one from the name on, within its buffer, and the mark put there |
| KeyFiles.PositionFinds | agents/addagent/validate.c:288-337 | a search finds a position exactly if the file has the agent wanted, and that agent is there |
| KeyFiles.ChunkShows | agents/addagent/validate.c:308-333 | what a chunk shows, by how it is written: nothing without a space or after a leading #, a removed agent if ! or # follows the first space, and else an agent in use |
| KeyFiles.FormatRoundTrip | agents/addagent/manage_agents.c:326 | the formatted id read as a number is the number again |
| KeyFiles.FormatExactly | agents/addagent/manage_agents.c:326 | the formatted id is the one text of at least three digits with that value that has no leading zero beyond three |
| KeyFileLines.AppendAgents | agents/addagent/manage_agents.c:424 | appending a text to a file of tidy lines appends exactly its agents |
| KeyFileLines.MarkAgents | agents/addagent/validate.c:118-147 | marking the line found retires exactly the first agent in use under the id, keeps all others and their order, and keeps the file tidy |
| KeyFileLines.LineStep | agents/addagent/validate.c:308-333 | a tidy line shows one agent or none, however many chunks it is read in |
| KeyFileRuns.NewLine | agents/addagent/manage_agents.c:424 | the line written for a valid name and id reads back as that agent in use, in one chunk, with room for the mark |
| KeyFileRuns.RemovedExactly | agents/addagent/validate.c:87-155 | after a removal the id is still taken, is out of use exactly if one line had it in use, and every other id answers as before |
| KeyFileRuns.IdsAreNeverReused | agents/addagent/manage_agents.c:158-364 | over any run of additions and removals each id is on at most one line, keeps its place for ever, and names in use are pairwise different |
| ManageAgents.ChooseName | agents/addagent/manage_agents.c:158-200 | the first answer before quitting that is valid, is not the manager's name and is not in use |
| ManageAgents.DefaultId | agents/addagent/manage_agents.c:325-326 | the search ends, with the least number whose id no line has |
| ManageAgents.ChooseId | agents/addagent/manage_agents.c:323-364 | the id of the first answer before quitting that stands for a valid id on no line, or none if there is no such answer |
| ManageAgents.ChooseAddress | agents/addagent/manage_agents.c:205-321 | the first answer before quitting that is valid and free, or whose holder is to be replaced; that holder is removed on the spot |
| ManageAgents.AddAgent | agents/addagent/manage_agents.c:158-424 | name, address and id are the first acceptable answers; the file after it is that of a run of at most a removal, of the agent that held the address, and an addition; a call that adds nothing leaves the file unchanged exactly if no address was accepted or no agent in use had it |
| ManageAgents.UnconfirmedRemoves | agents/addagent/manage_agents.c:303-306 | a file from which an unconfirmed addition removes an agent |
| AgentAddresses.AddressesStayDistinct | agents/addagent/manage_agents.c:205-424 | over any run of additions, each with the removal of the holder found, and removals, no two agents in use have the same address, except those that start with any or hold a slash |
| AgentAddresses.AddAgentIsAllowed | agents/addagent/manage_agents.c:158-424 | a call of add_agent that adds an agent is such an addition |
| ManageAgents.RemoveAgent | agents/addagent/manage_agents.c:481-590 | the first answer that, formatted, is the id of some line is taken; the removal succeeds exactly if it is confirmed and the agent is in use, and otherwise nothing changes |
| IdFormats.FormatTwice | agents/addagent/validate.c:668-678 | formatting any text twice is formatting it once |
| IdFormats.FormatsNumbersExactly | agents/addagent/validate.c:668-678 | a text of blanks, a sign or none, and digits becomes its number, as far as a long and then an int keep it, in the usual format; any other text stays |
| IdFormats.PrintedNegative | agents/addagent/validate.c:668-678 | a negative number has a sign and at least two digits, more only if needed |
| IdFormats.FormatValidId | agents/addagent/validate.c:668-678 | a valid id becomes its number in three digits or more |
| RuleComments.OneReading | agents/analysisd/eventinfo.c:916-933 | every comment is the writing of exactly one template, so that substitution means filling that template once; an opening never closed is text |
| RuleComments.ParseRuleComment | agents/analysisd/eventinfo.c:904-1002 | the result is the filled template of the comment, cut to 1024 characters, if that has fewer than 1024, and the comment as it stands otherwise; the piecewise overflow tests agree with that one test |
| CommentFields.ShowsField | agents/analysisd/eventinfo.c:936-985 | a comment that is one variable becomes the event's own field for each of the sixteen names, whatever is decoded, and the decoded field for any other name; nothing if there is none; a value or comment that is too long leaves the comment as it is |
| CommentFields.OnlyNamedFields | agents/analysisd/eventinfo.c:936-985 | two events that agree on the fields the comment names, own ones for the sixteen names and decoded ones for others, give the same result |
| CommentFields.EchoGivesBack | agents/analysisd/eventinfo.c:916-1000 | for an event whose fields are the variables that stand for them, every comment under 1024 characters comes back unchanged |
| CommentLimits.AllOrNothingExactly | agents/analysisd/eventinfo.c:916 | for all events the result is the whole comment expanded or the comment as it stands exactly if the comment has at most 1024 characters, or no closed variable among its first 1024 |
| CommentLimits.LongCommentIsCut | agents/analysisd/eventinfo.c:916 | of $(id) and 1024 more characters, an event without an id leaves 1019 |
| ResponseArguments.Split | agents/analysisd/ar_json.c:57-67 | cutting the copy in place call by call yields the words, in order, of what the copy has room for |
| ResponseArguments.Join | agents/active-response/active_responses.c:347-363 | the items are joined by single spaces up to the first that does not fit, and an empty result is NULL |
| ResponseArguments.JoinMeans | agents/active-response/active_responses.c:347-359 | what is joined are the first strings of the array, each with room when its turn came, up to the first without |
| ResponseArguments.ArgumentsArrive | agents/active-response/active_responses.c:347-363 | for arguments of at most 2047 characters joining what was split gives them with runs of spaces collapsed and ends trimmed, empty exactly if all are spaces |
| ResponseArguments.SendAndReceive | agents/analysisd/ar_json.c:57-67 | the two programs one after the other deliver just that, or NULL |
| CdbLists.ParsedExactly | agents/analysisd/lists_make.c:72-134 | a line yields an entry exactly if it is the writing of that entry, with quotes and colons only where the parts allow; all other lines are skipped |
| CdbLists.QuotedKeyRoundTrip | agents/analysisd/lists_make.c:74-134 | with a quoted key, the pair comes back exactly if neither key nor value has a quote, whether the value is quoted or not |
| CdbLists.BareKeyRoundTrip | agents/analysisd/lists_make.c:74-134 | with an unquoted key and a quoted value, the pair comes back exactly if the key has no quote and no colon and the value no quote |
| CdbLists.BareRoundTrip | agents/analysisd/lists_make.c:74-134 | with neither quoted, the pair comes back under exactly the same condition |
| CdbLists.LineRoundTrip | agents/analysisd/lists_make.c:61-134 | a pair written on a line, each part quoted or not, is what the list stores exactly if neither part has a quote or a line break, and the key no colon unless it is quoted |
| CdbLists.ContentOfLine | agents/analysisd/lists_make.c:62-70 | cutting a line at its ends gives the text back exactly if the text has no line break |
| CdbLists.ParseLine | agents/analysisd/lists_make.c:61-136 | the parser that writes terminators into its line passes on exactly the stored pair of the line's content |

## Left out

- EventLists.EventList.AddEvent: one step; the hand-over of the node before its event is set, and the node counts and mutexes, are not modelled, and evicted events are freed when the list is already updated.
- CorrelationMemory.Memory.Store: stores are taken one after another, although the code releases the rule mutex before it takes the event mutex; `InterleavedStores` says what survives when they overlap. The fields of an event that a store does not touch are constants of the model.
- InterleavedStores.SameNodesAtRest: the second half of a store, with its evictions, is one step; searches are not part of these runs.
- EvidenceExactly.NoEvidenceReuse: stores are taken one after another, so that the oldest nodes leave first; `EvidenceOverlap` has them overlap.
- EvidenceOverlap.OverlapReuseExactly: a store is two steps here, all nodes of one list and then the event list; how many events an eviction takes, as in `InterleavedOrder.OrderKeptExactly`, is left open and may be none.
- EvidenceExactly.ReuseExactly: an event may have as many decoded fields as the rule names; the limit a decoder puts on their number is not modelled.
- RuleTrees.RuleEngine.MatchEvent: events that already carry a rule, and what follows a match (level 0, ignore times and ignore lists), are not modelled.
- RuleTrees.RuleEngine.CheckIfRuleMatch: whether a rule's own conditions pass, and whether its alert is suppressed, are properties of the tree and a set of rules; prev_rule is followed, the rest of the event is not.
- LogtestSessions.SessionTable.CheckInactiveSessions: one pass; the endless loop around it and its sleep are not modelled. The order of hash nodes is arbitrary.
- LogtestProtocol.DeadlocksExactly: tokens of new sessions are taken to be unused; that an error message is waiting is a step of its own, whatever wrote the message; building a session is one step.
- Accumulators.Accumulator.Accumulate: records are held by value in a map; failures of the hash are not modelled.
- KeyFiles.KeyFile.NameExist: the file position it leaves behind, which nothing reads, is not modelled; nor is that of IPExist.
- KeyFiles.KeyFile.RemoveAgent: failures to open, read or replace the file, and what is removed elsewhere (the agent's database, counters and timestamps), are not modelled. Files hold no NUL characters.
- KeyFileLines.MarkAgents: lines must have their spaces within the first 255 characters (254 in use), as every line under 256 characters has; a longer line with spaces beyond may show further agents.
- ManageAgents.AddAgent: answers are given as sequences, each address with the outcome of its validation and of the decision to replace its holder; environment variables and JSON output are not modelled, and the registration daemon is taken not to run.
- RuleComments.ParseRuleComment: the two geographic names are those of a build without GeoIP, so they are looked up as decoded fields; FindField is a map.
- ResponseArguments.Split: arguments of 2047 or more characters leave the last character of the copy unwritten; the model has them only if a terminator stands there. The message between the two programs is taken to carry strings unchanged.
- CdbLists.ParseLine: one line as fgets returned it; a line longer than the buffer arrives in pieces.
- Search_LastEvents: its agent filter continues without moving on, so its loop need not end.
- Hot reload of rules, the cdb file format and lookup, ignore lists, storage of first-time-seen values, message cleaning, and loading of rules and settings: files, libraries or settings rather than state kept between events.
- Allocation failures, signals, sockets, random keys and log messages: not modelled anywhere.
