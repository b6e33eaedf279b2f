# Splitlane: the decision code, modelled and proved

Splitlane runs coding agents side by side in one window. Much of what it shows
and keeps rests on small pieces of decision code that never touch the screen:
which sessions make it into a list, what an agent is doing right now, which file
belongs to which pane, what the settings file holds after several writers, and
what the relay between a computer and a phone lets through. This project models
those pieces and proves what they are for.

| part | files |
|---|---|
| ranking, session lists, session cache | `Ranking`, `SessionRanking`, `SessionCache` |
| timestamps | `Calendar`, `IsoStamp`, `IsoGrammar` (string operations in `Text`) |
| agent state from a Codex rollout | `Rollout`, `AgentStates`, `CodexProbe`, `CodexMeaning`, `CodexAnswer`, `RolloutBinding`, `RunClocks` |
| relay room | `TokenBucket`, `RelayRoom`, `RelayRuns` |
| settings | `ConfigUpdates`, `ConfigWriters`, `EditorCommand` |

The shape follows the program. What it updates in place is a class (the session
collector, the cache, the room, the shortcut map, the config document), its
loops are methods with loops, and its pure matches are functions. Each class and
loop is proved against a plain form that is easy to believe: sort everything and
take, a recency list, one pass of a definition over the window, one update after
the other. The theorems are then about the plain form, over every input, every
history or every interleaving. Where a theorem says what an operation is for, it
says it in the data and the numbers themselves and not through the functions the
operation is made of.

## What is assumed

- The relay runs each handler as one atomic step with one reading of the clock,
  and `close` takes the socket out of the room at once. Losing the in-memory
  allowance is a step that may come at any time. The digest of a join token is
  any function of the token, and the answer of the claims limiter is an input.
  Sockets carry an identity, which the program has as object identity.
- The allowance is counted in `real`; rounding is not modelled.
- `sort_by` is stable, `Array.prototype.sort` is stable, and `partition_point`
  on a partitioned list is a binary search.
- A rename replaces its target atomically. Writing the temporary file does not.
- A rollout is a list of lines, each blank, unparseable or a decoded record with
  optional members.
- A pass over any of the Codex surfaces reads and adopts in one step. A rollout is
  first written no earlier than its session was created.
- The timer that drops a session after a stop fires on time.
- Comparing strings as Rust does (UTF-8 bytes) and as the model does (character
  codes) is the same order.
- The keystroke parser is a parameter: any partial function from text to chords.

## Where the code and its documentation part

- A rollout is meant to be given only to the surface it can only belong to
  (`codex_state.rs:165-193`). Rivals are looked for under the directory as it was
  typed (`agent_state_pass.rs:541-545`), candidates also under the directory with
  links followed (`codex_state.rs:224-226`). Two running surfaces that spell one
  directory differently are therefore no rivals. A pass can propose one file to
  both, and when the next pass does so again both hold it.
  `RolloutBinding.OneRolloutForTwo` is such a history,
  `RolloutBinding.WhenTwoCollide` gives the exact condition among any surfaces
  and `RolloutBinding.SpellingDecidesExclusivity` for two with no third one near.
- A hook frame is said never to take a bound id away (`ipc_handler.rs:5268-5272`).
  For Codex it does (`ipc_handler.rs:186-193`), and it looks at no other surface;
  under Codex's background server a frame can carry the environment of another
  pane (`codex_state.rs:177-181`). `RolloutBinding.FrameTakesOver` says exactly
  when a bound id goes, and in `RolloutBinding.FrameNamesTheWrongSurface` two
  surfaces in one directory come to hold one session that way.
  `RolloutBinding.ExclusiveUnlessClash` is the exact condition over whole
  histories: surfaces that spell their directory alike never share a session
  exactly when no surface is put with, and no frame names, a session held beside
  it. No pass ever makes them share one.
- A run is meant to be measured from where it began (`ai_types.rs:207-217`). A
  session that a stop left finished is dropped five seconds later
  (`ipc_handler.rs:4848-4868`), and with it the stamp. One that comes back before
  that in another state than thinking, or whose run ended in a crash or an exit,
  keeps the stamp of the run before. `RunClocks.OldStampOverANewRun` has two such
  histories, `RunClocks.StampIsThisRuns` says exactly when the stamp is the run's
  own, and `RunClocks.OldStampNeedsAQuickReturn` that nothing else brings it about.
- The note beside the atomic write says that an invalid file would be taken for
  an empty object and lost (`config_writer.rs:86-88`). The loader refuses such a
  file (`config_writer.rs:40-62`), and `ConfigWriters.UnreadableIsKept` holds.

## Model

| member | source | states |
|---|---|---|
| Ranking.StableSortIsStable | src-app/src/agent_sessions.rs:941-942 | the plain form the bounded rankings are measured against is ranked and leaves rows of one key in arrival order |
| Ranking.StableOrderIsUnique | src-app/src/agent_sessions.rs:1101-1105 | ranked with ties in arrival order leaves exactly one list, so the plain form is the stable sort and no other |
| Ranking.PlaceAfterPruning | src-app/src/agent_sessions.rs:951-961 | a row the cap cut off stays cut off, whatever arrives later |
| Ranking.PruningLosesNothing | src-app/src/agent_sessions.rs:983-987 | ranking and pruning a first batch before the rest arrives gives what ranking everything once gives |
| Ranking.PruningLaterLosesNothing | src-app/src/agent_sessions.rs:983-987 | the same for a later batch that is pruned before it is added |
| Ranking.MapOfSort | src-app/src/codex_sessions.rs:425-433 | a change to rows that keeps their keys may come before or after ranking |
| Ranking.SortIsPermutation | src-app/src/agent_sessions.rs:941-942 | the plain form adds no row and loses none |
| Ranking.PartitionPoint | src-app/src/agent_sessions.rs:955-957 | the binary search finds the place behind all rows the newcomer is not ahead of, so inserting there keeps the ranking |
| SessionRanking.RecentSessionCollector.constructor | src-app/src/agent_sessions.rs:920-927 | an empty collector has seen nothing and keeps its cap |
| SessionRanking.RecentSessionCollector.Push | src-app/src/agent_sessions.rs:929-963 | whatever is kept ranks to the first `cap` rows of everything pushed, and the omitted count is the rest |
| SessionRanking.RecentSessionCollector.Fill | src-app/src/agent_sessions.rs:938-945 | while there is room every row is kept, and the last to fit ranks them, so the rows kept stay those the plain form keeps |
| SessionRanking.RecentSessionCollector.Displace | src-app/src/agent_sessions.rs:952-961 | a full collector's insert is the bounded placement of the newcomer, behind its ties, and keeps what the plain form would keep of all rows with the newcomer |
| SessionRanking.RecentSessionCollector.Finish | src-app/src/agent_sessions.rs:965-971 | the rows are the first `cap` of the stable sort of all pushed rows; the count is how many that leaves out |
| SessionRanking.CollectRecentSessions | src-app/src/agent_sessions.rs:899-908 | streaming through the collector equals sorting everything and taking, for every list and cap |
| SessionRanking.NewestAreKept | src-app/src/agent_sessions.rs:1099-1105 | the rows shown and those left out are all the sessions, by last activity and then creation, newest first, equal ones in arrival order |
| SessionRanking.PushRankedAttribution | src-app/src/agent_sessions.rs:987-1011 | keeps the retained rows ranked, within the cap and equal to placing then cutting |
| SessionRanking.MatchSessionsToColumn | src-app/src/agent_sessions.rs:1020-1039 | the pruning insert over the rows of the directory equals ranking all of them once, then the cap |
| SessionRanking.BestAreKept | src-app/src/agent_sessions.rs:1013-1039 | a column's rows, fifty at most, and those left out are all the sessions of its directory, those on its branch first and then the latest created |
| SessionRanking.TrimSeparators | src-app/src/agent_sessions.rs:702-718 | what is compared is the longest front of a path that is empty, ends in no separator, or is a lone separator or a drive root |
| SessionRanking.RowsStandByBranchThenTime | src-app/src/agent_sessions.rs:1013-1019 | a column's rows stand by branch and then by time, newest first, though the ranking compares texts, where the stamps are calendar dates with fractions of one width |
| SessionRanking.AttributionForColumn | src-app/src/agent_sessions.rs:1046-1074 | cutting to the cap after each agent equals ranking all agents' sessions once |
| SessionRanking.RankedOnceAgain | src-app/src/agent_sessions.rs:1071 | re-ranking an already ranked and cut prefix with more rows loses nothing |
| SessionRanking.ReadersMayPrune | src-app/src/agent_sessions.rs:983-987 | each reader may cut its own batch to the cap first; the column's answer is still one ranking of everything |
| SessionRanking.ReadSessionsWithUsage | src-app/src/codex_sessions.rs:407-435 | enriching only the retained candidates gives what enriching everything found and ranking would, when enrichment keeps the directory, branch and stamp of what was found; and no more scans are made than the cap |
| SessionCache.Cache.constructor | src-app/src/agent_sessions.rs:178-181 | an empty cache stands for the empty recency list |
| SessionCache.Cache.Lookup | src-app/src/agent_sessions.rs:221-254 | the stamped map behaves as a recency list: a fresh hit moves its row to the front unchanged, anything else changes nothing |
| SessionCache.Cache.StoreResult | src-app/src/agent_sessions.rs:279-331 | a store puts its row in front and forgets what falls off ten places, evicting the smallest stamp |
| SessionCache.Cache.LeastRecentlyUsed | src-app/src/agent_sessions.rs:308-315 | the smallest stamp is the last of the recency order |
| SessionCache.OrderCounts | src-app/src/agent_sessions.rs:146-154 | a recency order by falling stamps over the map's keys is as long as the map, so the list's bound is the map's |
| SessionCache.EvictionForgetsTheColdest | src-app/src/agent_sessions.rs:140-146 | after any history the bounded cache is the first ten rows of the list that forgets nothing |
| SessionCache.RowsAreLatestStores | src-app/src/agent_sessions.rs:321-330 | over any history each key's row is its latest store; lookups never change one |
| SessionCache.StandsBehindUsedSince | src-app/src/agent_sessions.rs:148-154 | over any history a key stands behind exactly the keys stored or hit since it was |
| SessionCache.HitIsTheLatestStore | src-app/src/agent_sessions.rs:196-201 | a lookup answers exactly when fewer than ten other keys were used since its key was and the observed time lies in the millisecond from its latest store's time, so drift never adds up; and it answers with that store |
| Calendar.CheckedRefinesIntegers | src-app/src/agent_sessions.rs:1211-1251 | for every non-negative 64-bit field, however absurd, the answer is the exact integer value of the formula, refused exactly when a quantity on the way does not fit; no unchecked operation overflows |
| Calendar.CheckedEra | src-app/src/agent_sessions.rs:1232-1233 | the checks on the era never fail and the year lands in 0 to 399 |
| Calendar.CheckedDayOfYear | src-app/src/agent_sessions.rs:1234-1240 | the day of the March year, refused exactly when a product or sum outgrows 64 bits |
| Calendar.MarchStep | src-app/src/agent_sessions.rs:1241-1245 | the era formula grows by exactly one calendar year from March to March, in every year |
| Calendar.ClosedFormIsCalendar | src-app/src/agent_sessions.rs:1190-1194 | on every calendar date, in any year, the closed form counts the days the calendar has year by year and month by month |
| Calendar.InstantRepresentable | src-app/src/agent_sessions.rs:1221-1227 | a calendar date is refused only when its own instant does not fit |
| Calendar.InstantOrdersDates | src-app/src/agent_sessions.rs:1014-1019 | instants compare as the six fields do, strictly and both ways |
| IsoStamp.ReadFields | src-app/src/agent_sessions.rs:1195-1209 | no text whatever yields a negative field, which the unchecked operations rely on |
| IsoStamp.ReadBack | src-app/src/agent_sessions.rs:1195-1209 | every stamp of non-negative fields is read back field for field, whatever ignored fraction or offset follows |
| IsoGrammar.ReadsStamps | src-app/src/agent_sessions.rs:1195-1209 | exactly which texts are read, and as what: a date of three numbers, `T`, hours and minutes with or without seconds, and then anything that starts with a dot, a `Z` or a sign |
| IsoStamp.PrintedDateReadsBack | src-app/src/agent_sessions.rs:1194-1252 | a printed calendar date parses to exactly its instant whenever that fits |
| IsoStamp.SecondsOfADate | src-app/src/agent_sessions.rs:1085-1087 | a printed calendar date reads as its instant |
| IsoStamp.SubtractYearsAndMonths | src-app/src/codex_state.rs:725-752 | both subtracting loops end, inside the month table, with a date exactly that many days after 1970-01-01 |
| IsoStamp.ChronoLike | src-app/src/codex_state.rs:720-763 | for every Unix second from 0 on, parsing the printed stamp gives back that second |
| IsoStamp.StampOrderIsTimeOrder | src-app/src/agent_sessions.rs:978-982 | for stamps of four-digit calendar dates with fractions of one width, or none, comparing texts is comparing the seconds they parse to and then the fractions, strictly and both ways |
| AgentStates.WaitingIsEvidence | src-app/src/agent_state.rs:653-688 | "waiting for you" exactly on positive evidence: a trustworthy window, the process found, and a call open for at least the grace and less than the horizon that the process bears out |
| AgentStates.FinishedMeansNothingInFlight | src-app/src/agent_state.rs:512-651 | at rest exactly when there is no error and nothing is in flight: in a window that can be trusted every open call is spent (half an hour old, or of unknown length and its agent gone) and no live turn is open; otherwise the worker decides |
| AgentStates.OtherwiseErrorOrWork | src-app/src/agent_state.rs:512-536 | an error is said exactly when the window ends in one, a stall never |
| CodexProbe.ProbeFromText | src-app/src/codex_state.rs:385-548 | the one-pass reader computes the probe as defined on the whole window: standing calls, newest turn events, last typed record, accounting |
| CodexProbe.TakeLine | src-app/src/codex_state.rs:396-513 | one line keeps every reader variable equal to its definition on the lines seen |
| CodexProbe.StandingCallsAre | src-app/src/codex_state.rs:386-388 | a call is open exactly when some line starts it and nothing later answers, repeats or aborts it |
| Rollout.AgeIsSinceTheDate | src-app/src/codex_state.rs:697-706 | the age of a record stamped with a calendar date is the time from that date to now, and there is none for a date ahead or not after 1970 |
| CodexMeaning.OpenCallsAre | src-app/src/codex_state.rs:419-513 | a call is open, with its name, its age and the way it executes, exactly when some record starts it and no later one answers it, names it again or aborts the turn |
| CodexMeaning.OpenCallsInOrder | src-app/src/codex_state.rs:433-441 | the open calls come in the order of the records that start them |
| CodexMeaning.OpenTurnIs | src-app/src/codex_state.rs:475-487 | a turn is open, with its age, exactly when the newest turn event starts one |
| CodexMeaning.NewestTurnEndIs | src-app/src/codex_state.rs:488-513 | the turn end is that of the newest record that ends a turn and has an id or a stamp to name it, failed and interrupted as that record says |
| CodexMeaning.ProbeMeans | src-app/src/codex_state.rs:385-548 | every part of the probe of a text, said of the records that were read |
| CodexProbe.OneEntryEach | src-app/src/codex_state.rs:433-441 | the open calls hold one entry for each call id |
| CodexMeaning.WaitingEndToEnd | src-app/src/codex_state.rs:667-689 | from the file and two process facts to the word shown: waiting exactly when the read began at the head, every line is accounted for, no error stands last, the agent is there with no worker, and some escalated command stamped from five seconds to half an hour ago stands unsettled |
| CodexMeaning.DatedQuestion | src-app/src/codex_state.rs:667-706 | one escalated command stamped with a date is a wait exactly from five seconds to half an hour after that date |
| CodexProbe.TailIsSound | src-app/src/codex_state.rs:403-408 | however the file is cut, the tail's open calls are a suffix of the whole's, what the whole adds began before the cut and nothing after it closed it, and a turn event in the tail is the whole's newest |
| CodexAnswer.NonBlank | src-app/src/codex_state.rs:656-661 | an answer is never empty and never ends in a blank |
| CodexAnswer.LastAnswerFromText | src-app/src/codex_state.rs:589-654 | the one-pass reader computes the answer of the newest ended turn of the window |
| CodexAnswer.AnswerIsTheLastEndings | src-app/src/codex_state.rs:629-648 | the answer is decided by the last ending record and what precedes it alone |
| CodexAnswer.AnswerMeans | src-app/src/codex_state.rs:589-654 | every answer exactly: aborted, failed with its message or rendering, found as the ending's own message or the last words since the boundary before, or none yet, said of the last record that ends a turn |
| CodexAnswer.OutputTextOneMore | src-app/src/codex_state.rs:615-623 | an assistant's words are its text blocks in order and nothing else |
| CodexAnswer.JoinOneMore | src-app/src/codex_state.rs:624 | they are joined by a blank line |
| CodexAnswer.FoundIsTheNewestTurns | src-app/src/codex_state.rs:617-637 | an answer is found exactly when the last ending is a completion without error, and is its message or, when blank, the last words since the boundary before it |
| CodexAnswer.TailAnswersForTheWhole | src-app/src/codex_state.rs:550-587 | a tail with the newest ending and a boundary before it gives the whole file's answer |
| RolloutBinding.BindsTheOnlyOne | src-app/src/codex_state.rs:217-247 | a launch gets a rollout exactly when one head, and only one, qualifies |
| RolloutBinding.RivalsOf | src-app/src/app/agent_state_pass.rs:541-573 | the spans of a claim are exactly those of the other unbound surfaces in the directory as typed |
| RolloutBinding.PassProposes | src-app/src/app/agent_state_pass.rs:533-580 | a pass proposes a rollout for a surface exactly when the surface is running, launched and unbound and this rollout, and no other, could be its own: its directory, created after the launch, written at most five seconds after the last input, held by none, and no other unbound surface there alive when it was created |
| RolloutBinding.OneOfManyBinds | src-app/src/app/agent_state_pass.rs:515-580 | of any number of running surfaces that spell a directory alike at most one is proposed a rollout in a pass, the one launched first, and never one held already |
| RolloutBinding.NeverTaken | src-app/src/codex_state.rs:231 | no surface is proposed a rollout that some surface already holds |
| RolloutBinding.FrameTakesOver | src-app/src/app/ipc_handler.rs:175-194 | a frame takes a bound id away exactly when it names another valid one and the agent picks its own ids |
| RolloutBinding.StepKeepsExclusive | src-app/src/app/agent_state_pass.rs:734-764 | a step keeps surfaces of one spelling from sharing a session exactly when it is no put or frame with a session held beside it; no pass, whichever surfaces it reads, breaks it |
| RolloutBinding.TwoReadingsAgree | src-app/src/app/agent_state_pass.rs:734-764 | a session is adopted exactly when two readings of the surface in a row propose it |
| RolloutBinding.ExclusiveUnlessClash | src-app/src/app/ipc_handler.rs:5273-5290 | the same over any history of passes, adoptions, frames and surfaces that come, go and change |
| RolloutBinding.FrameNamesTheWrongSurface | src-app/src/app/ipc_handler.rs:175-194 | two surfaces in one directory and a frame after which both hold one session |
| RolloutBinding.WhenTwoCollide | src-app/src/codex_state.rs:223-235 | among any surfaces, one readable rollout can be proposed to two exactly when both can be looking at one directory, at some time a session of either was in reach of both (launched, typed into, no rival alive), and some valid id is held by none |
| RolloutBinding.SomeIdIsFree | src-app/src/agent_sessions.rs:693-700 | some valid id is held by no surface, whatever ids they hold, for fewer than 10 to the 128th of them |
| RolloutBinding.SpellingDecidesExclusivity | src-app/src/codex_state.rs:223-235 | with no third surface near, exactly when the directory is spelled in two ways and both were typed into after the later launch or at most the slack before it |
| RolloutBinding.CollisionIsAdopted | src-app/src/app/agent_state_pass.rs:734-764 | when two passes read the same heads, both surfaces come to hold the session |
| RolloutBinding.OneRolloutForTwo | src-app/src/codex_state.rs:217-247 | a directory, a link to it and one rollout that two surfaces come to hold |
| RunClocks.WaitCountsFromItsStart | src-app/src/ai_types.rs:222-238 | over any history a wait is shown exactly while waiting and counts from the start of the unbroken wait |
| RunClocks.StampIsTheLatestEntry | src-app/src/ai_types.rs:200-220 | over any history the run's stamp is the time of the latest entry into a run, and is there exactly once something has thought |
| RunClocks.StampNeverClearedNorAhead | src-app/src/ai_types.rs:207-220 | a stamp is never cleared, a thinking session has one, and none lies ahead |
| RunClocks.StampIsThisRuns | src-app/src/ai_types.rs:207-217 | exactly when a thinking session's stamp belongs to the run it is in, over the writes since the session was last dropped |
| RunClocks.EntryIsItsLife | src-app/src/app/ipc_handler.rs:5640-5665 | over any history of writes and drops the program's entry carries the stamps of the writes since the last drop and of no others |
| RunClocks.OldStampNeedsAQuickReturn | src-app/src/app/ipc_handler.rs:4848-4868 | a stamp of a run before is kept only by a session that came back within five seconds of a stop in another state than thinking, or whose run ended otherwise |
| RunClocks.DropForgetsTheStamp | src-app/src/app/ipc_handler.rs:4868 | after a drop no stamp is older than the first write since |
| RunClocks.OldStampOverANewRun | src-app/src/ai_types.rs:211-215 | two histories, a question a second after a stop and one an hour after a crash, in which the stamp is that of the run before |
| TokenBucket.AcceptedIsWithinRate | relay/src/index.js:141-151 | a socket's frames are all accepted exactly when every stretch of them without a loss stays within twenty a second and one burst of a hundred |
| TokenBucket.AcceptedHoldsLeastSlack | relay/src/index.js:143-149 | after accepted frames the bucket holds the least slack of any stretch ending there |
| TokenBucket.LossOnlyHelps | relay/src/index.js:37-39 | losing the allowance never turns an accept into a refusal |
| TokenBucket.LossesAddBursts | relay/src/index.js:20-24 | in any window of accepted frames, h losses add at most h bursts of a hundred |
| RelayRoom.Room.constructor | relay/src/index.js:34-40 | a new room is empty and keeps its digest |
| RelayRoom.Room.Join | relay/src/index.js:42-88 | the whole next state from the token's own digest, and an upgrade exactly when the join is admitted |
| RelayRoom.Room.Receive | relay/src/index.js:90-113 | the whole next state, and exactly the sockets of the other role are sent the frame, or none |
| RelayRoom.Room.Spend | relay/src/index.js:141-151 | the bucket's next state and its answer, touching no other socket's bucket |
| RelayRoom.Room.SocketClosed | relay/src/index.js:115-124 | a closed socket leaves and nothing else changes |
| RelayRoom.Room.AlarmFired | relay/src/index.js:128-138 | the whole next state, kept or forgotten |
| RelayRoom.Room.Evicted | relay/src/index.js:35-39 | hibernation loses the allowance and nothing else |
| RelayRoom.StepKeepsSafe | relay/src/index.js:15-28 | every step keeps: one machine and two phones at most, no socket without a claim, a claim with an alarm pending no earlier than the last join allows, distinct sockets |
| RelayRoom.MachineJoins | relay/src/index.js:69-73 | an admitted machine replaces the machine that was there, and no phone |
| RelayRoom.PhoneJoins | relay/src/index.js:74-82 | a third phone displaces the one of the two that joined first; below two nobody goes; the machine stays |
| RelayRoom.PushedOutAreOldest | relay/src/index.js:76-81 | the phones pushed out are as few as make room, and none of them joined later than one that stays |
| RelayRuns.AlwaysSafe | relay/src/index.js:33-152 | every reachable room is safe, over all histories of joins, frames, closes, alarms and evictions |
| RelayRuns.ClaimStands | relay/src/index.js:50-68 | over any run, from a claim on the stored hash never changes until the room is deleted |
| RelayRuns.OnlyTheClaimingTokenJoins | relay/src/index.js:50-68 | over any run, from a claim until deletion a machine is let in exactly when its token has the claiming token's digest; with a digest that tells tokens apart, exactly when it presents that very token |
| RelayRuns.OnlyTheClaimantJoins | relay/src/index.js:52-68 | in every reachable room a machine socket comes in only with a token whose digest is the claim |
| RelayRuns.DeletedExactlyWhenDue | relay/src/index.js:128-138 | over any run a claimed room is deleted exactly by an alarm with no machine connected and 180 days past since a machine was last let in; a kept room's alarm comes back no sooner than a day later |
| RelayRuns.WhoIsLetIn | relay/src/index.js:42-68 | a socket comes in exactly for an upgrade by a machine whose well-formed token claims the room or has the claim's digest, or by a phone of a claimed room |
| RelayRuns.WhyASocketLeaves | relay/src/index.js:71-138 | a socket leaves exactly for its own refused message or close, for a machine let in over it, for a phone that pushes it out, or for the alarm that forgets the room; never for hibernation |
| RelayRuns.ClosedIsGone | relay/src/index.js:115-124 | a socket that closes is gone and nothing else changes |
| RelayRuns.JoinedIsTheLastJoin | relay/src/index.js:69-70 | in every reachable claimed room the stored join is the machine's last and the alarm stands no earlier than that plus the time to live |
| RelayRuns.AlarmNotLate | relay/src/index.js:131-132 | when alarms fire on time, a claimed room's alarm stands no later than both its due time and a day from now |
| RelayRuns.QuietUntilTheAlarm | relay/src/index.js:128-138 | while no machine joins, claim, last join and alarm stand still until the room is gone |
| RelayRuns.ForgottenInTime | relay/src/index.js:25-28 | with no machine and none joining, the room holds no claim past both its due time and a day, if alarms fire on time |
| RelayRuns.AllowanceIsTheBucket | relay/src/index.js:35-39 | over any history the room's allowance is, socket by socket, the bucket of that socket's own frames |
| RelayRuns.OnlyTheSenderIsClosed | relay/src/index.js:90-103 | a message closes its sender exactly when it is not sent on, and no other socket |
| RelayRuns.OpenMeansAllAccepted | relay/src/index.js:99-103 | in every reachable room all frames of an open socket were sent on |
| RelayRuns.FrameAcceptedIsWithinRate | relay/src/index.js:90-103 | whatever else happens in the room, a message from an open socket is sent on exactly when it is binary, of at most 64 KiB and, with all the socket has sent, within its rate; otherwise the sender is closed |
| ConfigUpdates.ConflictIsEquivalence | src-app/src/keybindings/apply.rs:35-40 | denoting the same chord is an equivalence, for any keystroke parser |
| ConfigUpdates.ShortcutMap.Merge | src-app/src/config_writer.rs:160-180 | the map loses exactly the bindings that share the action or the chord, and gains the new one |
| ConfigUpdates.BindingSurvives | src-app/src/config_writer.rs:154-159 | after any sequence of merges a binding stands exactly when it was made and no later merge took its action or chord |
| ConfigUpdates.MergedIsOneToOne | src-app/src/config_writer.rs:154-159 | from an empty map on, every action has one chord and every chord one action |
| ConfigUpdates.ConfigDocument.SetValues | src-app/src/config_writer.rs:138-146 | the loop sets or clears the fields in order and leaves the document otherwise as it was |
| ConfigUpdates.ConfigDocument.SetIn | src-app/src/config_writer.rs:236-279 | one field of a block is set or cleared, a block that is no object counting as empty |
| ConfigUpdates.ConfigDocument.BindShortcut | src-app/src/config_writer.rs:202-213 | the document's shortcuts become the merge of the old ones, a value that is no object counting as empty |
| ConfigUpdates.ApplyTouchesOnly | src-app/src/config_writer.rs:331-343 | a writer leaves every field it is not about, known or unknown, as it found it |
| ConfigUpdates.ApplyWrites | src-app/src/config_writer.rs:138-279 | everything an update does to the document, field by field: the last value given for a field stands, a cleared one is gone, a block keeps its other fields, a shortcut displaces exactly those of its action or chord |
| ConfigWriters.StepKeepsConsistent | src-app/src/config_writer.rs:129-148 | every step of every writer, and a crash at any point, keeps: the file is the fold of the committed updates in lock order, and each writer holds what its phase says |
| ConfigWriters.AlwaysConsistent | src-app/src/config_writer.rs:24-34 | that invariant over every interleaving |
| ConfigWriters.NeverTornNeverLost | src-app/src/config_writer.rs:86-117 | the file is the one found or a whole document equal to the fold; a writer that answered true is in it, one that answered false is not, and besides those only one just renamed or cut off |
| ConfigWriters.WaitingWriterFinishes | src-app/src/config_writer.rs:129-148 | a waiting writer that finds the lock free writes its update on top of the file, a missing one counting as empty, and answers true; a file it cannot read it leaves and answers false; the lock is free again |
| ConfigWriters.HolderCanFinish | src-app/src/config_writer.rs:29-33 | in every reachable state whoever holds the lock can go on to its end, and then it is free |
| ConfigWriters.FailureFreesTheLock | src-app/src/config_writer.rs:108-117 | a failure before the rename, and a crash at any point, leave the file as it is and the lock free |
| ConfigWriters.UnreadableIsKept | src-app/src/config_writer.rs:36-62 | a file that is rejected, no JSON or no object is never overwritten, and no writer claims it was |
| ConfigWriters.CommittedStays | src-app/src/config_writer.rs:129-148 | whatever comes later, crashes included, a writer that answered true stays in the fold, in the place it took the lock |
| ConfigWriters.UntouchedFieldStays | src-app/src/config_writer.rs:331-343 | after any run, crashes included, a field no committed update is about is in the file as the writers found it |
| EditorCommand.SplitEditorCommandLine | src-app/src/editor.rs:131-176 | the quote-state loop computes the split as defined from the middle of any token |
| EditorCommand.SplitInvertsQuoting | src-app/src/editor.rs:131-176 | however each argument is quoted, in one piece or several, with any blanks between, splitting gives back the arguments |
| EditorCommand.UnclosedQuote | src-app/src/editor.rs:172-175 | a quote that never closes holds everything to the end |
| EditorCommand.EveryListIsASplit | src-app/src/editor.rs:146-152 | every list of strings, empty ones and ones with quotes or backslashes included, is the split of its double-quoted line |
| EditorCommand.QuoteFreeSplit | src-app/src/editor.rs:154-170 | without quotes, splitting is splitting at blanks; a backslash is a character like any other |
| EditorCommand.BlankHasNoTokens | src-app/src/editor.rs:154-159 | a value has no arguments exactly when it is blank |
| EditorCommand.NoEditorNamed | src-app/src/editor.rs:122-129 | no program is named exactly when the text is blank or, after blanks, opens with a quote that closes at once, any number of times over, and then ends, comes to a blank, or has one last quote left open |
| EditorCommand.EmptyQuotesNameNothing | src-app/src/editor.rs:122-129 | two such texts |
| EditorCommand.EditorReadsBack | src-app/src/editor.rs:122-129 | a program with its flags, quoted in any way, is read back as it was meant |

## Left out

- RolloutBinding.ExclusiveUnlessClash: takes a pass as one step; what happens to a surface between a pass's reading and its adoption, or with two readings in flight, is not modelled.
- RelayRoom.Step: does not model handlers that interleave at their storage awaits, sockets that linger while closing, or an alarm that fires late (only the two lemmas about forgetting in time need it on time).
- TokenBucket.AcceptedIsWithinRate: counts in reals; floating-point rounding is not modelled.
- ConfigWriters.Step: is about the writers of one process; the lock does not reach a second process or a hand edit, and a path without a parent directory, which is written directly, is not modelled.
- SessionRanking.CwdMatches: is the comparison off Windows; there case and separators are folded as well.
- SessionRanking.SessionMeta: carries what ranking and enrichment look at; titles, prompts and transcript paths are not modelled.
- SessionCache.Cache: the cached sessions and their omitted count are one opaque payload; reading file times is not modelled.
- IsoStamp.StampOrderIsTimeOrder: is about stamps of one width in UTC; stamps with mixed fractions or offsets compare as texts without comparing as times.
- RolloutBinding.Qualifies: adds the slack and the grace over the integers; the program adds them in 64 bits unchecked, which matters only for times near the ends of the range.
- Counters that saturate at the machine's limits (omitted rows, access stamps) are unbounded here.
- JSON and UTF-8 decoding, reading tails and directories, process snapshots and terminal facts: their results are inputs.
- The Claude Code transcript reader, and the members of the probe that the Codex reader always leaves empty (spend, background shells, unanswered prompts, compaction).
- Mutex poisoning, logging, the constant-time comparison of hashes, WebSocket close codes, send failures to a closing peer, and the worker in front of the rooms with its own limiter.
- Finding an editor's program on disk and starting it, the names and icons of the agent launcher, and the aggregates of the side bar: they are lookups in fixed tables, calls into the system, or counts, and no decision above depends on them.
