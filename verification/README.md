# GinBot: a verified model of its state machines, index and parsers

GinBot is a chatbot backend written in Go. This project models the parts of it whose correctness is decided by the
code rather than by a service it talks to, and proves what those parts are for. `dafny verify dfyconfig.toml` checks
everything.

**Reminder delivery** (`Reminders`, `ReminderRuns`, `ReminderTicks`, `ReminderCreates`, `ReminderPhase`, `ReminderStore`). Every SQL
statement is one atomic step on the reminder table. `ConfirmDelivery` is two steps, the read and the guarded write,
with anything in between; `CreateReminder` is four, holding its owner's lock from the first to the last. A run is any
sequence of steps, so each statement about runs is about every interleaving of ticks, confirmations, edits, deletes
and create transactions. The methods of `ReminderStore` are proved to take exactly those steps.

**Schedule advance** (`GoTime`, `Schedule`). The jump of `advanceByDelay` is written in Go's arithmetic: `Sub`
saturates and products wrap at 64 bits. It is proved to be the stepping of the schedule whenever it succeeds, and its
success is characterised exactly. The bounded calendar walk is proved to be a direct lookup.

**Repost index** (`PerceptualHash`, `RepostIndex`). The eight-chunk filter, over a store built by creates and deletes,
is proved to find what an exhaustive Hamming scan finds, up to the distance the code allows, which is proved tight.

**Trigger cache** (`TriggerCache`). Lookups hold the lock from the miss to the store; writers commit and then
invalidate instance by instance. In every interleaving what is cached is current, or an invalidation is owed.

**Reverse streams** (`Reverse`). The registry under its read-write lock, the bounded channels, their closing, and the
sender goroutines, as interleaved steps, and the registry and its clients as classes.

**Dump parser** (`DumpGrammar`, `DumpParser`, `DumpLiteral`, `DumpProof`, `DumpReader`, `DumpWriter`). `DumpReader` has
the loops of the Go code; `DumpParser` is the same reading as functions that keep the syntax; `DumpProof` shows those
accept exactly the printed forms of the grammar; `DumpWriter` is a printer of rows, spelled in bytes of its own, and its
round trip.

**Text** (`GoStrings`, `SplitContent`, `Spoilers`, `CommandParse`, `DurationParse`) and **small stateful objects**
(`CommandRegistry`, `UndoWindows`, `ForcedLimiter`). Loops are methods proved against functions, and the properties
are proved of those functions, for all inputs and all sequences of calls.

## Where the code does not do what it is said to do

- The cap on active reminders is checked at creation only. Reclaims, edits and reschedules return rows to PENDING
  unchecked, so the cap can be exceeded (`ReminderCreates.CapIsExceededByAReclaim`). A step other than a claim or a
  delete, which only bring the count down, leaves the count within it if and only if there is room for the rows its
  guard lets in (`ReminderCreates.StepFitsExactly`), and a run keeps it throughout if and only if every step found
  that room (`ReminderCreates.CapKeptExactly`). Creates alone never exceed it (`ReminderCreates.CreatesNeverExceed`),
  and the excess is never more than the rows so returned (`ReminderCreates.CapHolds`).
- `splitContent` promises that every chunk stays valid UTF-8. Its chunks are all valid if and only if the content is
  and no character of it is longer than the limit (`SplitContent.SplitContent`). So a limit of four or more always
  keeps the promise (`SplitContent.FourIsEnough`), and for each limit below that there is valid content, one four-byte
  character, that no way of cutting can keep valid (`SplitContent.BelowFourCutsACharacter`). The code's own inner
  comment concedes limits below four.
- `undoWindows` and `ForcedLimiter` read the clock before they take the lock, so their calls can see clocks out of
  order, and then pruning can be observed (`UndoWindows.ALateCallMayFindItGone`,
  `ForcedLimiter.ABackwardClockIsObservable`). A consume answers as the full history does if and only if no later call
  has read a clock at or past the end of a window that is still open (`UndoWindows.AgreesWithHistoryExactly`). A
  limiter answers as one never pruned if and only if, at each attempt, a last permitted call that was pruned away is a
  minute back (`ForcedLimiter.NextAgreesExactly`, `ForcedLimiter.RunAgreesExactly`). With clocks in order both always
  hold.
- A retried confirmation is said to be a no-op. A confirmation's write changes no reminder if and only if the one it
  is about is not live and SENT (`ReminderRuns.NoOpExactly`); after an accepted confirmation, that is, if and only if
  the reminder has been deleted or every claim of it since has been answered (`ReminderRuns.RetryIsNoOpExactly`). The
  guard is the status and not the claim, so a second confirmation of one delivery, written during the next one, is
  accepted and can arm the same occurrence again (`ReminderPhase.AStaleConfirmationArmsAgain`). When an accepted one
  moves the reminder forward is characterised exactly (`ReminderPhase.MovesForwardExactly`).
- A late confirmation is said not to shift a repeat's phase permanently. It can, to the phase from before an edit: a
  confirmation that an edit overtakes is accepted once the reminder has been claimed at its edited time, and
  reschedules from the time it had read (`ReminderPhase.AnOvertakenConfirmationUndoesAnEdit`). In every run in which
  no such confirmation is accepted, and none has to report the phase lost, the phase is kept
  (`ReminderPhase.PhaseInEveryRun`), and one that is accepted keeps the phase of the edited time if and only if the
  time it had read is whole periods from that, or, where the edit changed the delay too, if and only if the instant
  the jump lands on is (`ReminderPhase.RescheduleKeepsPhaseExactly`).

## Model

| member | source | states |
|---|---|---|
| ReminderRuns.ClaimConservation | pkg/db/reminder.go:163-308 | In every run, for every reminder, claims = reclaims + accepted confirmations + owner edits applied while SENT + 1 if it is SENT now. |
| ReminderRuns.RecordsWithinClaims | pkg/grpc/server/reminder.go:312-383 | Delivery records about a reminder never exceed its accepted confirmations, nor those its claims, with any steps between a confirmation's read and write. |
| ReminderRuns.DeliveryState | pkg/db/reminder.go:163-308 | In every run a row has a claim time exactly while SENT; PENDING has at most 4 attempts, every other status 1 to 5. |
| ReminderRuns.OnlyAnEditReopens | pkg/db/reminder.go:468-496 | A step changes the status of a DELIVERED or FAILED row if and only if it is an edit of that row by its owner while it is not deleted. |
| ReminderRuns.AttemptsCountTheStreak | pkg/db/reminder.go:163-170 | The stored attempt counter is the number of claims since the last create, applied edit or accepted reschedule, and is at most 5. |
| ReminderRuns.ClaimsAreReclaimedBetween | pkg/db/reminder.go:225-242 | In every run, whatever clocks are read, a claim is at most the fifth since the last reset, and since the one before it a reclaim has read a clock at least two minutes past that. |
| ReminderRuns.ClaimsAreFewAndFar | pkg/db/reminder.go:225-242 | So with a clock that does not run backwards it is at least two minutes after the one before. |
| ReminderRuns.NoOpExactly | pkg/grpc/server/reminder.go:298-299 | A confirmation's write changes no reminder if and only if the one it is about is missing, deleted or not SENT then. |
| ReminderRuns.RetryIsNoOpExactly | pkg/grpc/server/reminder.go:298-299 | In every run, after an accepted confirmation of a reminder, another write about it changes no reminder if and only if it is deleted or all its claims since then are answered by reclaims, confirmations or edits. |
| ReminderTicks.TickLeavesNothingDue | pkg/cron/cronjob/remind.go:24-41 | After an error-free tick no live row is PENDING and due, nor SENT on a claim older than the grace, whatever runs between its two statements, other ticks included, as long as none of those claims with a time older than the grace. |
| ReminderTicks.UnansweredReminderFails | pkg/cron/cronjob/remind.go:24-41 | A due reminder nobody confirms, edits or deletes is FAILED once its spent attempts and the ticks two minutes apart are more than five together, whatever other ticks and steps come before them and between their statements. |
| ReminderTicks.TicksFailExactly | pkg/db/reminder.go:225-242 | With nothing but ticks two minutes apart, a due PENDING reminder is FAILED if and only if its attempts and the ticks are more than five together. |
| ReminderTicks.FiveTicksAreNotEnough | pkg/db/reminder.go:225-242 | So five such ticks leave a fresh due reminder SENT. |
| ReminderCreates.RefsRiseInEveryRun | pkg/db/reminder.go:67-105 | In every interleaving an owner's refs are pairwise distinct and rise in commit order, deleted rows included; open transactions hold different owners' locks; and an allocated ref stays the next one until its insert. |
| ReminderCreates.StepKeepsIdentity | pkg/db/reminder.go:427-444 | No step removes a row or changes its owner or ref, so a soft-deleted reminder's ref is never reused. |
| ReminderCreates.AllocatedRefIsFree | pkg/db/reminder.go:83-87 | The ref a transaction allocated is still unused when it inserts: the unique index never refuses it. |
| ReminderCreates.NextRefIsExact | pkg/db/reminder.go:83-87 | Where refs rise, as in every run, the next ref is above all the owner's, deleted rows included: one above the largest, or 1 when there are none. |
| ReminderCreates.CapHolds | pkg/db/reminder.go:73-81 | In every run an owner's PENDING count is at most the cap plus the rows returned to PENDING other than by creates, and below that while a transaction of the owner is past its check. |
| ReminderCreates.WhatRearms | pkg/db/reminder.go:225-308 | Only a reclaim, a confirmation's write or an edit returns a row to the count. |
| ReminderCreates.CapIsExceededByAReclaim | pkg/db/reminder.go:73-81 | A concrete run at a cap of one that ends with two active reminders. |
| ReminderCreates.StepFitsExactly | pkg/db/reminder.go:163-308 | A step that can add to an owner's PENDING count leaves it within the cap if and only if there was room for the rows that its guard, read before the step, lets in. |
| ReminderCreates.StepJoins | pkg/db/reminder.go:163-308 | A step other than a claim or a delete adds exactly the rows its guard lets in, none of which counted before. |
| ReminderCreates.StepLeaves | pkg/db/reminder.go:427-444 | A claim takes exactly the owner's due live PENDING rows out of the count, a delete exactly the live PENDING row its owner deletes, and neither anything else. |
| ReminderCreates.ActiveAreLivePending | pkg/db/reminder.go:310-314 | The rows counted against the cap are the owner's that are PENDING and not deleted. |
| ReminderCreates.CapKeptExactly | pkg/db/reminder.go:73-81 | A run stays within the cap throughout if and only if every step found room for the rows it was about to let in. |
| ReminderCreates.CreatesNeverExceed | pkg/db/reminder.go:67-105 | In every interleaving without reclaims, edits and confirmations an owner's PENDING count is within the cap. |
| ReminderStore.ReminderStore.ClaimDueReminders | pkg/db/reminder.go:163-214 | Returns exactly the live PENDING rows that are due; those become SENT with the claim time and one more attempt, and no other row changes. |
| ReminderStore.ReminderStore.ReclaimStaleReminders | pkg/db/reminder.go:225-266 | Exactly the live SENT rows claimed two minutes ago or more lose their claim and go to PENDING, or to FAILED with five attempts spent; counts both kinds. |
| ReminderStore.CountOutcomes | pkg/db/reminder.go:249-260 | The loop over returned rows counts each status exactly. |
| ReminderStore.ReminderStore.AdvanceReminderStatusIfSent | pkg/db/reminder.go:270-286 | Reports a change if and only if the row was live and SENT; then status and claim time change and nothing else, and otherwise nothing does. |
| ReminderStore.ReminderStore.RescheduleReminderIfSent | pkg/db/reminder.go:288-308 | The same guard; then the row is PENDING at the new time with no claim and no attempts. |
| ReminderStore.ReminderStore.UpdateReminderByUser | pkg/db/reminder.go:468-496 | Not found exactly when the row is missing, deleted or another's, and then nothing changes; otherwise exactly the edited fields are replaced and the row is PENDING with no claim and no attempts. |
| ReminderStore.ReminderStore.SoftDeleteReminderByUser | pkg/db/reminder.go:427-444 | Not found exactly when the row is missing, deleted or another's, and then nothing changes; otherwise the row is marked deleted and stays. |
| ReminderStore.ReminderStore.BeginCreate | pkg/db/reminder.go:67-71 | Takes the lock exactly when no open transaction holds it for that owner, and otherwise changes nothing. |
| ReminderStore.ReminderStore.CheckCap | pkg/db/reminder.go:73-81 | Refuses exactly when the owner's rows that are PENDING and not deleted are as many as the cap, ending the transaction, and otherwise goes on. |
| ReminderStore.ReminderStore.AllocateRef | pkg/db/reminder.go:83-87 | Allocates one more than the owner's largest ref, deleted rows included. |
| ReminderStore.ReminderStore.InsertAndCommit | pkg/db/reminder.go:89-110 | Fails exactly on a used id or ref, changing no row; otherwise the new row is the owner's, under the allocated ref, PENDING, unclaimed and without attempts. Either way the transaction is over. |
| ReminderStore.ReminderStore.ReadForConfirmation | pkg/grpc/server/reminder.go:312-325 | Finds the row exactly when it is live and the caller's own, and changes no row. |
| ReminderStore.ReminderStore.FinishConfirmation | pkg/grpc/server/reminder.go:327-385 | Advances exactly when the row is now live and SENT: to FAILED when not delivered, back to PENDING at the next time when it was read with a repeat that has one, and else to DELIVERED; only a delivered advance leaves a record, and no advance changes nothing. |
| ReminderStore.ReminderStore.Remind | pkg/cron/cronjob/remind.go:24-66 | One tick with one shared time, either statement possibly failing; every row that is due after the reclaim is sent once and no other. |
| Schedule.AdvanceByDelayIsStepping | pkg/reminder/cron.go:165-182 | The jump succeeds exactly when the first step is after now or the exact jump fits in 64 bits, and then it is the first instant after now reached by stepping the schedule from the anchor. |
| Schedule.WrappedJump | pkg/reminder/cron.go:174-179 | A saturated difference or wrapped product never yields an instant after now. |
| Schedule.SteppingIsTheJump | pkg/reminder/cron.go:165-182 | Stepping a whole-second period from a whole-second instant is the closed-form jump. |
| Schedule.RepeatKeepsPhase | pkg/grpc/server/reminder.go:341-365 | Over any sequence of late confirmations without a lost phase the rescheduled time is congruent to the truncated original anchor modulo the delay and after its own confirmation. |
| Schedule.AdvanceSchedule | pkg/reminder/cron.go:118-143 | For a calendar, the least fire time after both anchor and now or never, bound exhausted or not, with the phase lost exactly when at least 4320 fire times lie between anchor and now. For a fixed delay, of the instants whole delays after the anchor's whole second the least after both anchor and now; or, exactly when the jump to it exceeds 64 bits, one delay after the whole second of now with the phase lost. |
| Schedule.AdvanceFromNow | pkg/reminder/cron.go:147-154 | With the phase lost: the least fire time after now or never for a calendar, and for a fixed delay a whole second after now by at most the delay. |
| Schedule.JumpInClosedForm | pkg/reminder/cron.go:165-182 | A successful jump lands one period past the whole periods between its start's whole second and the later of its start and now. |
| Schedule.JumpLandsAfterExactly | pkg/reminder/cron.go:165-182 | It lands after any given instant if and only if no whole period of its own separates that from the later of its start and now. |
| Schedule.JumpKeepsPhaseExactly | pkg/reminder/cron.go:165-182 | It lands in phase with another instant if and only if the two whole seconds are a number of periods apart. |
| Schedule.JumpFallsInPhaseExactly | pkg/reminder/cron.go:165-182 | It lands in phase with any instant and any period if and only if the instant of the closed form is whole periods from that. |
| Schedule.JumpPassesExactly | pkg/reminder/cron.go:165-182 | A jump from one instant of a grid stays on the grid and lands after another of its instants if and only if it starts there or later, or now is there or later. |
| ReminderPhase.PhaseInEveryRun | pkg/grpc/server/reminder.go:341-365 | In every run of the protocol without a lost phase, in which no confirmation that an edit of the reminder overtook is accepted for a reschedule, a repeat with a fixed period stands on the grid of the time its owner last gave it. |
| ReminderPhase.AnOvertakenConfirmationUndoesAnEdit | pkg/grpc/server/reminder.go:312-365 | From any live SENT repeat with a fixed period: a confirmation is read, the owner edits, the reminder is claimed at its edited time, and the confirmation is accepted and reschedules from the time before the edit. |
| ReminderPhase.RescheduleKeepsPhaseExactly | pkg/grpc/server/reminder.go:341-365 | An accepted reschedule leaves the reminder in phase with a given time and its present delay if and only if the instant the jump lands on, in closed form, is whole periods from it; with the delay unchanged, if and only if the time as read is. |
| ReminderPhase.MovesForwardExactly | pkg/grpc/server/reminder.go:341-365 | In any state an accepted reschedule moves the reminder forward if and only if, counted from the time as read, no whole period separates its present time from the later of the time as read and that of the confirmation. |
| ReminderPhase.MovesForwardInStep | pkg/grpc/server/reminder.go:341-365 | In a run that keeps the phase, one that no edit overtook does so if and only if the row as read, or the time of the confirmation, is no earlier than the row as it is now. |
| ReminderPhase.TimelyConfirmationMovesForward | pkg/grpc/server/reminder.go:341-365 | In every run one made no earlier than the current claim moves the reminder forward, overtaken or not. |
| ReminderPhase.ClaimedWhenDueInEveryRun | pkg/db/reminder.go:163-170 | In every run a SENT row was due when it was claimed. |
| ReminderPhase.AStaleConfirmationArmsAgain | pkg/grpc/server/reminder.go:312-385 | From any live SENT repeat with a fixed period, a run in which two confirmations of one delivery are both accepted, the second arming the next occurrence after it was claimed. |
| PerceptualHash.WithinSevenSharesAChunk | pkg/repost/repost.go:11-34 | Two 64-bit hashes at Hamming distance 7 or less agree in one of their eight chunks. |
| PerceptualHash.EightMayShareNone | pkg/repost/repost.go:11-14 | Every hash has another at distance 8 that shares no chunk with it. |
| PerceptualHash.DistanceCountsDifferingBits | pkg/repost/repost.go:32-34 | The population count of the exclusive or is the number of positions in which the bits differ. |
| PerceptualHash.Chunks | pkg/repost/repost.go:22-29 | The loop yields the eight bytes, the most significant first. |
| PerceptualHash.Normalise | pkg/repost/repost.go:51-87 | The bounds come out ordered within 0 to 7, unchanged if they were, each the clamped one widened to the one before it; a change is reported exactly when there is one. |
| RepostIndex.RepostIndex.MatchRepostByPerceptualHash | pkg/db/repost.go:62-102 | For every distance up to 7: if any entry of the instance, not by the excluded user, has a hash within the distance, one is returned, none is closer, and of the equally close none is older; otherwise not found. What is returned always is such an entry. For larger distances the same among those that share a chunk. |
| RepostIndex.RepostIndex.CreateRepostEntry | pkg/db/repost.go:124-165 | Stores the entry and its fingerprint together or, for an entry with neither key nor content hash, nothing. |
| RepostIndex.RepostIndex.DeleteRepostEntriesBefore | pkg/db/repost.go:202-218 | Deletes, of the instance's entries before the cut-off, the oldest and at most the limit, with their fingerprints, and reports how many. |
| RepostIndex.RepostIndex.MatchRepostByContentHash | pkg/db/repost.go:23-51 | The oldest visible entry of the instance with those bytes, or not found exactly when there is none. |
| RepostIndex.SignRoundTrip | pkg/grpc/server/repost.go:256-259 | A hash stored as a signed 64-bit integer is read back unchanged. |
| RepostIndex.CheckAttachment | pkg/grpc/server/repost.go:215-275 | The oldest entry with the same bytes wins as identical; otherwise images and videos get the exhaustive scan's nearest entry within the last tier, each confidence meaning its band of distances and never unspecified; every usable attachment gets an identity, and keeps it without a match when either lookup fails. |
| TriggerCache.CacheCoherentInEveryRun | pkg/trigger/cache.go:27-51 | In every interleaving a cached or just loaded set equals the compiled load of the current database, or some handler has committed a write to that instance and still owes its invalidation. |
| TriggerCache.NothingStaleAtRest | pkg/grpc/server/trigger.go:622-647 | Once no handler owes an invalidation, every cached set is the load of the current database. |
| TriggerCache.LoadFrame | pkg/db/trigger.go:84-93 | A write to a trigger whose scope leaves out an instance, before and after, does not change that instance's load. |
| TriggerCache.ListedAreTheFirst | pkg/db/trigger.go:418-447 | A load lists live triggers of the instance in rising id order, at most 500; what it leaves out has a larger id than all it lists, and only when it lists 500. |
| TriggerCache.LoadIsExact | pkg/grpc/server/trigger.go:79-105 | A load has one candidate for each listed trigger that compiles, with that trigger's mode, chance and compiled phrase, in id order. |
| TriggerCache.CommitsWrite | pkg/db/trigger.go:359-407 | An update changes exactly the patched fields of an owner's live trigger, a delete marks it, each owing its scope's invalidation; otherwise nothing is written. |
| TriggerCache.LookupLoads | pkg/trigger/cache.go:27-44 | A lookup that missed loads the database as it is when it queries, and caches that. |
| TriggerCache.TriggerServer.LoadCandidates | pkg/grpc/server/trigger.go:79-105 | The loop returns the compiled load: each listed trigger that compiles with its own mode, chance and pattern, in id order, and no other. |
| TriggerCache.TriggerServer.Candidates | pkg/trigger/cache.go:27-44 | A hit answers from the cache; a miss loads and caches what it returns; a failed load caches nothing; a fresh cache stays fresh and answers with the current load. |
| TriggerCache.TriggerServer.Invalidate | pkg/trigger/cache.go:46-51 | Forgets that instance and no other. |
| TriggerCache.TriggerServer.InvalidateEach | pkg/grpc/server/trigger.go:765-767 | The loop forgets exactly the listed instances. |
| TriggerCache.TriggerServer.CreateTrigger | pkg/grpc/server/trigger.go:622-647 | Stores the trigger with the listed instances as its scope and forgets exactly those; on failure nothing changes; a fresh cache stays fresh. |
| TriggerCache.TriggerServer.UpdateTrigger | pkg/grpc/server/trigger.go:746-767 | Changes exactly the patched fields of an owner's live trigger and forgets exactly its scope; otherwise nothing changes; a fresh cache stays fresh. |
| TriggerCache.TriggerServer.DeleteTrigger | pkg/grpc/server/trigger.go:789-807 | Marks an owner's live trigger deleted and forgets exactly its scope; otherwise nothing changes; a fresh cache stays fresh. |
| TriggerCache.TriggerServer.ListTriggerInstanceIDs | pkg/db/trigger.go:220-243 | Lists exactly the trigger's scope. |
| Reverse.StreamsAreSafe | pkg/grpc/server/reverse.go:67-99 | In every interleaving no send meets a closed channel, no channel is closed twice, registered channels are open, at most 64 clients are registered, and the next id was never used. |
| Reverse.Admission | pkg/grpc/server/reverse.go:67-86 | Under the lock a client is refused at 64 and otherwise given the next id and an open empty channel. |
| Reverse.Departure | pkg/grpc/server/reverse.go:88-98 | A client leaves the registry under the lock, and its channel is closed after. |
| Reverse.Sending | pkg/grpc/server/reverse.go:241-263 | A send is meant for the registered clients of its platform, comes to each once, queues there unless 64 are queued, and panics on a closed channel. |
| Reverse.SenderTakesNext | pkg/grpc/server/reverse.go:160-169 | A sender takes and sends the head of the queue; after a failure it takes no more. |
| Reverse.RunningCallSeesOneRegistry | pkg/grpc/server/reverse.go:241-263 | While a SendAction call runs its platform's registered clients are those it began with, and no one can join or leave. |
| Reverse.EveryClientInOrder | pkg/grpc/server/reverse.go:145-170 | In every run a client has taken and sent, in order and without a gap, the actions accepted for it, all of its platform; the rest are queued, at most 64; an attempt was dropped exactly when the queue was full; a failed send ends the sending. |
| Reverse.EveryCallReachesItsAudienceOnce | pkg/grpc/server/reverse.go:241-263 | A finished call made one attempt on every client of its platform registered while it ran, and none on any other. |
| Reverse.ReverseServer.Register | pkg/grpc/server/reverse.go:67-99 | Refuses exactly at capacity, changing nothing; otherwise adds one client, with an id never used before, an empty open queue and its platform. |
| Reverse.ReverseServer.Deregister | pkg/grpc/server/reverse.go:88-98 | Removes that client and no other, and closes its channel leaving what is queued. |
| Reverse.ReverseServer.SendAction | pkg/grpc/server/reverse.go:241-263 | Appends the action to the queue of every client of the platform that has room, and changes no other queue. |
| DumpProof.AcceptsExactlyTheGrammar | cmd/ginbot-migrate/main.go:158-298 | The parser returns a dump for a text if and only if the dump is well formed and the text is that dump printed. |
| DumpWriter.MysqldumpRoundTrip | cmd/ginbot-migrate/main.go:158-317 | Any INSERT statements with non-empty rows of NULLs in any case, numbers and arbitrary strings, printed with the characters and escapes of mysqldump by a printer that shares nothing with the parser, and with any blanks around values and tuples, are read back as exactly each table's rows in order and no other table. |
| DumpWriter.EscapeMeansItself | cmd/ginbot-migrate/main.go:300-317 | A string escaped as mysqldump does is well formed, is printed so, and means the string. |
| DumpWriter.EscapesMean | cmd/ginbot-migrate/main.go:300-317 | For every byte, what a backslash and that byte stand for: 0, b, n, r, t and Z their control codes, other ASCII itself, and a byte above ASCII its UTF-8 encoding. |
| DumpWriter.StringIsReadSo | cmd/ginbot-migrate/main.go:253-280 | At every position of every text: backslash 0x5C escapes the next byte, two quotes 0x27 are one, one ends the string, any other byte is itself, and the two ways to run out are errors. |
| DumpLiteral.SpaceIsTrimmed | cmd/ginbot-migrate/main.go:287 | An encoded white space character at either end of a literal is trimmed. |
| DumpLiteral.NothingElseIsTrimmed | cmd/ginbot-migrate/main.go:287 | Text that begins, or ends, with no encoded white space character is left alone there. |
| DumpReader.ParseDump | cmd/ginbot-migrate/main.go:158-195 | For every input the loop gives the tables of the dump that the grammar's reading gives, or the same error. |
| DumpReader.ParseTuples | cmd/ginbot-migrate/main.go:197-247 | The outer loop gives the rows, the position after them, or the error, of the grammar's reading. |
| DumpReader.ParseTuple | cmd/ginbot-migrate/main.go:206-232 | The inner loop gives one row's values likewise. |
| DumpReader.ParseValue | cmd/ginbot-migrate/main.go:249-298 | A value, quoted or literal, is what the grammar says it means, or the same error. |
| DumpReader.ParseString | cmd/ginbot-migrate/main.go:253-280 | The quoted-string loop undoes escapes and doubled quotes exactly as the grammar gives them meaning. |
| DumpReader.SkipSpace | cmd/ginbot-migrate/main.go:326-331 | Passes over spaces, newlines, returns and tabs and stops at any other byte or the end, where the grammar does. |
| CommandRegistry.CommandRegistry.Register | pkg/command/command.go:166-236 | Accepts exactly a well-declared command that collides with nothing; the new registry is the old one with its name, aliases and group pair added, or the old one unchanged. |
| CommandRegistry.AcceptableMeans | pkg/command/command.go:166-224 | A command is acceptable exactly when it has a handler, sound arguments and grouping, no name of it is blank, taken by a name, an alias or a group, its own group or declared twice, and its group is no name and lacks its sub. |
| CommandRegistry.NamesResolveAlike | pkg/command/command.go:288-353 | Names that differ in letter case or in the white space around them resolve alike, as do subs. |
| CommandRegistry.CommandRegistry.CollectKeys | pkg/command/command.go:185-195 | The folded name and aliases in order, refused exactly when one is blank. |
| CommandRegistry.CommandRegistry.CheckKeys | pkg/command/command.go:199-215 | Passes exactly when no key is taken, is a group, is the command's own group, or is declared twice. |
| CommandRegistry.CommandRegistry.InsertKeys | pkg/command/command.go:226-229 | Points every key at the command and leaves the others. |
| CommandRegistry.ValidateArgs | pkg/command/command.go:258-285 | Passes exactly when every argument has a name and a known type, no two share a folded name, and no required one follows an optional one. |
| CommandRegistry.ValidateGrouping | pkg/command/command.go:238-256 | Passes exactly when group and sub are both empty, or neither is blank. |
| CommandRegistry.ConsistentInEveryRun | pkg/command/command.go:166-236 | After any sequence of registrations every key and every group member leads to a command, and flat keys and group keys are disjoint. |
| CommandRegistry.AcceptedResolves | pkg/command/command.go:288-321 | After an accepted registration Lookup and ResolveChat give the command for its name, every alias and its group and sub, and for anything else exactly what they gave before. |
| CommandRegistry.RunsExtend | pkg/command/command.go:166-236 | Any further registrations keep every command, key and group member as they were. |
| CommandRegistry.ResolutionsNeverChange | pkg/command/command.go:288-321 | What Lookup or ResolveChat resolved to a command still resolves to it after any further registrations. |
| CommandParse.MatchPrefix | pkg/command/parse.go:36-49 | Finds a prefix exactly when a non-empty one matches, and then the longest of them. |
| CommandParse.Tokenize | pkg/command/parse.go:51-81 | The loop yields the tokens of the line, of which the next three rows speak. |
| CommandParse.SpaceSeparates | pkg/command/parse.go:51-81 | White space outside quotes separates: the tokens of both sides and nothing else. |
| GoStrings.SpacesAre | pkg/command/parse.go:51-81 | The white space is the 25 characters of that Unicode property. |
| CommandParse.TokensKeepTheText | pkg/command/parse.go:51-81 | For every line the tokens put together are the line without its quotes and without the white space outside them. |
| CommandParse.TokensRoundTrip | pkg/command/parse.go:51-81 | Tokens without a quote, empty ones included, quoted and separated by any white space, come back as they were. |
| CommandParse.ParseChat | pkg/command/parse.go:14-26 | Nothing without a matching prefix; otherwise the tokens after the longest, refused when there is none or the first is empty. |
| CommandParse.CommandRoundTrip | pkg/command/parse.go:14-26 | A command written after its prefix is read back as its name and arguments, whatever other prefixes there are, unless a longer one matches. |
| SplitContent.SplitContent | pkg/discord/respond.go:87-139 | For every content and limit of at least 1: each chunk has 1 to limit bytes; the chunks are slices of the content in order with only newlines before, between and after them; their non-empty lines are the content's, too long ones cut; all are valid UTF-8 if and only if the content is and none of its characters is longer than the limit; and two chunks in a row never fit into one with a newline between them when every line fits, nor, where the chunks are valid, with three bytes between them. |
| SplitContent.CutLine | pkg/discord/respond.go:117-132 | The inner loop emits the cuts of a long line and keeps the last as the remainder. |
| SplitContent.CutAt | pkg/discord/respond.go:119-127 | Backs up to the last character boundary within the limit, or cuts at the limit when there is none. |
| SplitContent.CutOnBoundary | pkg/discord/respond.go:119-127 | Where no character is longer than the limit both sides of a cut of valid UTF-8 are valid UTF-8. |
| SplitContent.SplittingKeepsTheText | pkg/discord/respond.go:87-139 | Without newlines, the chunks put together are the content. |
| SplitContent.FittingLinesStayWhole | pkg/discord/respond.go:84-86 | A line that fits is a whole line of some chunk. |
| SplitContent.BelowFourCutsACharacter | pkg/discord/respond.go:123-127 | For each limit below 4, one valid four-byte character always gives a chunk that is not valid, however it is cut, and the code's first chunk is one. |
| SplitContent.ValidSlices | pkg/discord/respond.go:84-86 | Any slices of at most limit bytes that are all valid come from valid content without longer characters. |
| SplitContent.FourIsEnough | pkg/discord/respond.go:123-127 | For limits of at least 4 every valid content qualifies. |
| GoStrings.ValidIsEncoded | pkg/discord/respond.go:84-86 | Valid UTF-8 is exactly the encodings of scalar values of section 3 of RFC 3629, one after another. |
| DurationParse.ParseDuration | pkg/reminder/parse.go:59-127 | Succeeds exactly when the text is figures-and-letter segments with distinct letters from M, w, d, h, m, s whose exact total, at 2592000, 604800, 86400, 3600, 60 and 1 seconds, is in 1 to 2^63-1 nanoseconds, and returns that total. |
| DurationParse.OneUnitIsRead | pkg/reminder/parse.go:59-127 | Any figures and one letter parse to that many of its unit, or are refused out of range. |
| DurationParse.ParseNumber | pkg/reminder/parse.go:75-88 | The digits' value, or nothing exactly when it does not fit in 63 bits. |
| DurationParse.OneReading | pkg/reminder/parse.go:59-127 | A text denotes at most one list of segments. |
| DurationParse.SegmentsDecide | pkg/reminder/parse.go:59-127 | A text that denotes segments parses to their total if that is in range, and is refused if not. |
| DurationParse.OrderNeverMatters | pkg/reminder/parse.go:59-127 | The same segments in another order parse to the same. |
| DurationParse.DurationRoundTrip | pkg/reminder/parse.go:59-127 | Any positive whole number of seconds that fits, written by units, parses to itself. |
| Spoilers.StripSpoilers | pkg/trigger/spoiler.go:10-36 | The loop yields the message with every span replaced by a space, and white space collapsed. |
| Spoilers.ParseReadsAll | pkg/trigger/spoiler.go:10-36 | Every message is spans and a tail, markers pairing leftmost first, and nothing of it is left unread. |
| Spoilers.PrintedIsParsed | pkg/trigger/spoiler.go:10-36 | Any spans and tail, printed, are read back as they were. |
| Spoilers.HiddenTextNeverMatters | pkg/trigger/spoiler.go:7-9 | Changing the text inside closed spans never changes the result. |
| Spoilers.SeenWordsSurvive | pkg/trigger/spoiler.go:7-36 | The words of the result are exactly the words outside the spans, in order; a span parts the words around it. |
| Spoilers.SpaceSeparates | pkg/trigger/spoiler.go:35 | White space separates: the words of both sides and nothing else. |
| Spoilers.StrippedHasNoSpan | pkg/trigger/spoiler.go:10-36 | The result holds no closed pair of markers. |
| Spoilers.StrippedIsNeat | pkg/trigger/spoiler.go:35-35 | The result has no white space at its ends and single spaces between words. |
| Spoilers.StrippingTwiceIsOnce | pkg/trigger/spoiler.go:10-36 | Stripping is idempotent. |
| UndoWindows.PendingIsTheOpenArm | pkg/discord/undo.go:52-81 | For clocks in any order, an entry is pending exactly when the last call about its key armed it and no later call read a clock past its expiry; then it is that call's. |
| UndoWindows.ConsumeAnswersFromHistory | pkg/discord/undo.go:60-81 | With a clock that does not run backwards a consume answers with the latest unconsumed arm of its key less than seven seconds old, and with nothing exactly when there is none. |
| UndoWindows.AgreesWithHistoryExactly | pkg/discord/undo.go:52-81 | For clocks in any order, a consume answers as the full history does if and only if no later call has read a clock at or past the end of the window of an unconsumed latest arm that is still open. |
| UndoWindows.ALateCallMayFindItGone | pkg/discord/undo.go:75-81 | With clocks out of order, another key's call can sweep a window that is still open, and the answer is not the history's. |
| UndoWindows.UndoWindows.Arm | pkg/discord/undo.go:52-58 | The key's window becomes the new response's for seven seconds; of the others exactly the expired ones go. |
| UndoWindows.UndoWindows.Consume | pkg/discord/undo.go:60-73 | Takes the consume step and answers from the windows as they were before the sweep. |
| UndoWindows.UndoWindows.Prune | pkg/discord/undo.go:75-81 | The loop deletes exactly the expired entries. |
| ForcedLimiter.PermitsExactly | pkg/trigger/limiter.go:31-62 | For clocks in any order, an author is permitted exactly when their last permitted call is a minute back or a prune since saw it older than that; refusals count for nothing. |
| ForcedLimiter.PermitsFromHistory | pkg/trigger/limiter.go:31-48 | With a clock that does not run backwards an author is permitted exactly when nothing permitted to them lies less than a minute back. |
| ForcedLimiter.PruningIsUnobservable | pkg/trigger/limiter.go:51-62 | Then a limiter pruned at any points answers as one never pruned. |
| ForcedLimiter.NextAgreesExactly | pkg/trigger/limiter.go:31-62 | For clocks in any order and answers that agreed so far, the next answer is that of a limiter never pruned if and only if the author's last permitted call was not pruned away or is a minute back. |
| ForcedLimiter.RunAgreesExactly | pkg/trigger/limiter.go:31-62 | All answers of a run agree if and only if that holds at each attempt. |
| ForcedLimiter.PermittedAreFarApart | pkg/trigger/limiter.go:31-48 | Permitted calls of one author are at least a minute apart, with a clock that does not run backwards. |
| ForcedLimiter.ABackwardClockIsObservable | pkg/trigger/limiter.go:51-62 | With clocks out of order a prune can permit what would have been refused. |
| ForcedLimiter.ForcedLimiter.Allow | pkg/trigger/limiter.go:31-48 | Answers from the recorded times and records only what it permits. |
| ForcedLimiter.ForcedLimiter.Prune | pkg/trigger/limiter.go:51-62 | The loop deletes exactly the authors last permitted before the cut-off. |

## Left out

- Postgres, pgx and SQL: each statement is one atomic step, a failed one has no effect, and foreign keys hold. Failures
  of reads and writes are inputs of the methods, or runs in which the step does not happen.
- Reminder columns for the parent, and reminder rows without an owner, which no create writes.
- `SetReminderStatus`, which is unguarded and which none of the modelled code calls.
- ReminderRuns.ClaimsAreFewAndFar: takes the ticks' clock as an input and not running backwards as its premise;
  `ReminderRuns.ClaimsAreReclaimedBetween` is the form without.
- robfig/cron, olebedev/when and time zones: a calendar is any function that returns the least fire time after its
  argument. Instants are unbounded integers in nanoseconds; only durations are 64 bits wide. A spec that does not parse
  and a schedule that never fires are the same outcome of `ConfirmDelivery`, and the same input here.
- `ValidateRepeatInterval`, `ParseWhen`, `parseSlashDate` and `parseNatural`.
- The text of errors: parsers, the registry and the handlers give an outcome or a kind of error, not a message. Which
  of several faults of one command is reported first is not modelled.
- URL canonicalisation and matching by source key, the loop of `CheckRepost` over candidates, and the descriptive
  columns of a repost entry (destination, canonical URL, message reference).
- Fetching, image decoding, hashing and regular expressions: their results are parameters.
- The file column of triggers, and the unique index on exact phrases, which appears as a write that fails.
- `InvalidateAll` is a step of the cache's runs but has no method of its own.
- Drain timeout, receive goroutine and shutdown of the reverse stream; a stream that ends is one that starts to
  deregister.
- Map iteration order is arbitrary, as Go leaves it.
- `strconv.ParseFloat` and `strings.ToLower` are arbitrary functions; of the second it is used that it maps the empty
  string to itself.
- Chat messages and spoiler texts are sequences of characters, that is, valid UTF-8; message splitting and both parsers
  of files and durations work on arbitrary bytes.
- `Bind`, `coerceArg`, `Groups` and `All`; the truncation helpers of chat responses; the trigger chance rules.
- Discord and Matrix sessions, rendering, configuration, TLS, logging, generated code, the migration's database passes,
  and the retry, deadline and reconnect logic of the clients.
