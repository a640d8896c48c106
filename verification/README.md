# Ryve controller model

Ryve is a desktop workshop and a command line for running coding agents ("Hands") against a graph of
work items ("sparks"). Two large controllers hold its logic: the UI update loop (`src/app.rs`) and the CLI
(`src/cli.rs`). This project models their protocols and proves what they promise, one module per protocol.
The lemmas say what every run of the modelled code keeps, and, where a promise fails, exactly when.

| module | what it models |
|---|---|
| `Lifecycle`, `FineHandover` | opening and closing workshops, and handing the ngIRCd supervisor and the IRC runtime from their start tasks to the workshop; the first with the check-and-install and the close as one step each, the second with every step on its own |
| `SparkPatch`, `SparkEdits`, `EditRace`, `EditSession` | optimistic edits of a spark: patches and their inverses, cache and database over whole runs with reloads, two overlapping edits of one column, and the drafts and in-flight slots of the inline editor |
| `PollDiff`, `Sessions` | what the 3-second poll turns into embers, channel announcements, merged sessions and reconciled dead ones |
| `ReleaseClose` | `ryve release close` with its hand-written compensations |
| `Sweep` | `ryve sweep stalls`, with SQLite's `LIKE` and whole-second `datetime` |
| `Assignments` | claiming, releasing and the chat-gated `ryve assign close` |
| `WatchText`, `Watches` | the text forms of watches, and create, replace and cancel under the uniqueness rule |
| `Workgraph` | the parent rule over `spark create` and the type picker, and the bond fold of `load_sparks` |
| `Prune` | `ryve worktree prune` |
| `Orchestrate` | the loop of `ryve head orchestrate` and its primitives |
| `Template` | rendering a Head archetype |

An operation that updates state in place is a method of a class (or a method with loops), proved equal to a
function of the old state; the promises are then proved about that function, over all runs. Outside answers
(git, the database refusing a write, a heartbeat, a clock) are parameters, and the results hold for all of them.

## Where the code and its promise differ

Each of these is a lemma, with the exact condition under which the promise holds where there is one.

- A close takes the IRC runtime out of its slot with `lock().ok()`, so a poisoned slot loses a running
  runtime; the supervisor path recovers it (`CloseLosesExactlyPoisoned`, `PoisonedCloseLosesRuntime`).
- The strong-count check and the install are two steps, and so are the take and the drop of the close. A
  process is lost exactly in the schedules named by `LostExactlyInTheGap`; joining only one of the two pairs
  does not help (`OnePairAtomicIsNotEnough`), joining both does (`BothPairsAtomicIsSafe`).
- The close dialog keeps an index, which a removal at or below it invalidates (`DialogIndexStillNames`).
- Rolling back an edit of the problem statement always shows the old text, but restores the metadata only for
  the documents of `UndoExactly`. `{}` comes back with an empty intent, and the `null` that `spark create`
  writes when only other intent fields are given comes back as no entry at all.
- `spark_repo::update` reads back after writing, and an error there is reported as a failed write: the cache
  is rolled back, the database is not (`UnreportedAgreesExactly`). It also reads the row and then writes all
  columns without a transaction, so overlapping updates lose changes (`OverlapLosesExactly`).
- Two edits of one column in flight can end with the cache wrong for good, in the three cases of
  `SameColumnDivergesExactly`; so can a reload with a write landing between its read and its delivery
  (`ReloadAgreesExactly`).
- An edit committed while the spark is not cached or the database is not open leaves its slot in flight for
  ever, so the session stays dirty (`CommitStrandsExactly`, `StrandedStays`).
- A release close restores the original branch only when it succeeds (`HeadAfterAttempt`,
  `HeadStaysOnReleaseBranch`), and a status update that is written but cannot be read back leaves a closed
  release without tag, artifact or pointers (`UnreadWriteLeavesHalfClosed`).
- The sweep's comment says embers are deduplicated per spark and session; the code does it per spark. `LIKE`
  ignores case and takes wildcards from a workshop's name: its flares are told apart exactly when the name
  has no `%` (`FindsSameSpark`, `ToldApartExactly`), and whole-second clocks let two flares be less than an hour apart
  (`LessThanAnHourApart`).
- A post in the parent's channel unlocks a close of a spark it does not mention (`ParentPostUnlocks`), and a
  post from before the claim counts exactly when both carry the same instant (`OldPostCountsExactly`,
  `OldPostUnlocksExactly`, `SameInstantUnlocks`).
- A refused `watch create` reports "unknown" when the row in the way is completed; a stored stop condition
  that does not decode is dropped by `watch replace` (`MalformedStopIsDropped`).
- `spark edit --type` writes with no guard at all (`HarmfulWriteBreaks` says when that does harm), and the
  picker checks cached rows, which may be old (`CheckOnOldRowsIsNotEnough`).
- The orchestrator promises a Merger once every child is closed `completed`. The code also spawns one when
  children were closed otherwise after the listing (`AllDoneMeansCompletedExactly`, `MergerWithNothingCompleted`),
  and never spawns one when all children were dropped: an empty crew uses up every cycle
  (`EmptyCrewRunsOut`, `AllDroppedNeverMerges`).
- "No placeholder is left over" holds for every template exactly when the id cannot form one across a seam
  (`NothingLeftOver`).

## Model

| member | source | states |
|---|---|---|
| Lifecycle.NoProcessLost | src/app.rs:3348-3400 | in every interleaving each started process is with its task, held for an open workshop or shut down, exactly one of these and never twice; the one exception is a poisoned IRC slot |
| Lifecycle.RunKeepsInv | src/app.rs:3483-3546 | every run of open, select, close, ready, init-failed, load, start, install, announce and poison steps keeps the slots accounted for, the list indexed and the directories distinct |
| Lifecycle.ClosedMeansShutDown | src/app.rs:3356-3378 | once its workshop is closed and its task finished, a started process has been shut down exactly once unless its lock was poisoned |
| Lifecycle.PendingOwners | src/app.rs:3358-3378 | while a start is pending the owners are the starter and, if still open, the workshop, so a strong count of 1 means closed |
| Lifecycle.CloseLosesExactlyPoisoned | src/app.rs:785-828 | closing loses the IRC runtime exactly when its slot is full and poisoned, and always stops an installed supervisor |
| Lifecycle.PoisonedCloseLosesRuntime | src/app.rs:785-789 | a run from the empty app that loses the runtime exists |
| Lifecycle.RemovalKeepsActiveWorkshop | src/app.rs:828-837 | removing a workshop other than the active one, by close or by failed init, keeps the same workshop active |
| Lifecycle.DialogIndexStillNames | src/app.rs:970-986 | over any run the index kept by the close dialog still names its workshop if and only if nothing at or below it was removed |
| Lifecycle.OpenEffects | src/app.rs:1500-1540 | a path already open is made active and nothing else, a new one joins the list active with an idle IRC slot and a pending init, one that is no directory changes nothing |
| Lifecycle.CloseEffects | src/app.rs:736-845 | a close removes its workshop, stops what both slots hold unless the IRC lock is poisoned, drops the app's clones, lets all else stand, and keeps the active workshop or moves to its successor, or else its predecessor |
| Lifecycle.ReadyEffects | src/app.rs:3310-3354 | a ready workshop that is open gets a supervisor entry and a starting slot exactly if there is a daemon to run, and an IRC start exactly if one is configured; nothing else changes |
| Lifecycle.InitFailedEffects | src/app.rs:3288-3302 | a failed init drops the app's clone and leaves all other slots, supervisors and pending inits alone |
| Lifecycle.InitFailedListEffects | src/app.rs:3291-3302 | it takes the workshop from the list, keeping another active workshop, or moving to the predecessor, or else the successor |
| Lifecycle.LoadEffects | src/app.rs:1606-1660 | a clone of the IRC slot escapes exactly when the runtime is there to be seen and an epic is new |
| Lifecycle.StartEffects | src/app.rs:3353-3398 | a start that succeeds leaves the process in the task's hand, one that fails drops the task's clone |
| Lifecycle.InstallEffects | src/app.rs:3370-3386 | a process in hand is installed if its workshop is open and shut down if not |
| Lifecycle.SupervisorInstalled | src/app.rs:3345-3386 | a run from the empty app that starts and installs a supervisor |
| Lifecycle.SupervisorStopsOnce | src/app.rs:804-827 | and the close of its workshop stops that supervisor once |
| Lifecycle.StartWithRetry | src/app.rs:3447-3481 | connect errors, and only those, are retried, at most five times, with the delays slept adding up |
| Lifecycle.App.OpenWorkshopPath | src/app.rs:1496-1555 | an open directory is focused, a new one appended and made active with its init pending, a missing one changes nothing |
| Lifecycle.App.SelectWorkshop | src/app.rs:964-968 | an index in range becomes active, any other is ignored |
| Lifecycle.App.CloseWorkshop | src/app.rs:970-982 | asks first while Hands are active there, closes otherwise |
| Lifecycle.App.ConfirmCloseWorkshop | src/app.rs:983-986 | clears the dialog and closes whatever the index names now, if anything |
| Lifecycle.App.DoCloseWorkshop | src/app.rs:736-845 | takes and stops both processes, drops the app's clones and moves the active index as specified |
| Lifecycle.App.WorkshopInitFailed | src/app.rs:3288-3302 | removes the half-open workshop and steps the active index back |
| Lifecycle.App.WorkshopReady | src/app.rs:3310-3352 | registers a supervisor slot and a pending IRC start, only for a workshop still open |
| Lifecycle.App.InstallOrShutDown | src/app.rs:3483-3532 | the started process is shut down exactly when its workshop is gone and held exactly when it is there |
| FineHandover.LostExactlyInTheGap | src/app.rs:3370-3386 | with each step on its own, the process is lost in exactly the schedules with the check before the drop and the take before the install, and never stopped twice |
| FineHandover.OnePairAtomicIsNotEnough | src/app.rs:785-828 | making only the check and install, or only the take and drop, one step still loses a process |
| FineHandover.BothPairsAtomicIsSafe | src/app.rs:3370-3386 | with both pairs joined every complete schedule shuts the process down exactly once |
| SparkPatch.UndoExactly | src/workshop.rs:1698-1732 | undoing an edit of the problem statement always shows the old text and restores the document exactly when it was restorable |
| SparkPatch.ColumnsTaken | src/workshop.rs:1652-1697 | column by column what the cache takes, what the prior patch holds and what is stored |
| SparkPatch.ProblemTaken | src/workshop.rs:1698-1732 | what an edit of the problem statement does to the document, the prior patch and what is stored |
| SparkPatch.EditIsShown | src/workshop.rs:1698-1732 | an edited problem statement reads back unless its siblings do not parse, and sibling entries are never clobbered |
| SparkPatch.RollbackExactly | src/workshop.rs:1634-1648 | re-applying the returned prior patch restores every column, and the row exactly when the document is restorable |
| SparkPatch.StoredAgreesExactly | src/workshop.rs:157-202 | after a stored edit cache and database are equal exactly when every changed value could be stored |
| SparkPatch.NoPriorNoChange | src/app.rs:4172-4176 | an edit dropped as a no-op changed nothing, and conversely if the intent parses |
| SparkPatch.UnreportedAgreesExactly | data/src/sparks/spark_repo.rs:138-160 | when a stored write reports an error, cache and database agree exactly if nothing stored was a change and the document's rollback does nothing |
| SparkPatch.EditAgreesExactly | src/app.rs:4149-4265 | for each way a single edit's write can end, the row agrees afterwards if and only if a condition known before it holds |
| SparkPatch.OverlapLosesExactly | data/src/sparks/spark_repo.rs:85-161 | two updates that both read before either writes come out as one after the other exactly when the first changed nothing outside the second's columns |
| SparkEdits.RunKeepsAgreement | src/app.rs:4149-4280 | in any order of dispatches, writes, replies and reloads, without two edits of one field in flight, with writes ending as `EditAgreesExactly` allows and reloads delivered while the database is as read and no write is on its way, cache and database agree on every field no edit in flight occupies, and are equal when none is |
| SparkEdits.DispatchEffects | src/app.rs:4149-4224 | an edit that changes something shows in the cache and is pending, or is undone at once without a database; any other changes nothing |
| SparkEdits.ReplyEffects | src/app.rs:4226-4265 | a reply retires its edit and re-applies the prior patch exactly if the write was refused |
| SparkEdits.OneEditEnds | src/app.rs:4149-4280 | what one edit with its write and reply leaves in cache and database, for each way the write can end, and when the two are equal |
| SparkEdits.ReloadRestores | src/app.rs:1665-1668 | from any state with nothing in flight a reload makes cache and database equal, and agreement lasts from there |
| SparkEdits.ReloadAgreesExactly | src/app.rs:1665-1668 | from any state and whatever happens between the read and the delivery of a reload, a field agrees afterwards exactly when no write landed on it in between or the last one left the value read |
| EditRace.SameColumnDivergesExactly | src/app.rs:4226-4265 | in every interleaving of two overlapping edits of one column cache and database end up different exactly when the first is refused and the second stores another value than the old one, both are stored in reverse order, or both are refused with the replies in order |
| EditRace.RaceEnds | src/app.rs:4149-4265 | for all outcomes and interleavings, what the column holds at the end in the cache and in the database |
| EditSession.RunBacksSlots | src/screen/spark_detail.rs:84-140 | over every run of launched commits, one per field, each slot in flight has its write pending with the same text, and none is left when no write is pending |
| EditSession.FailureGivesTextBack | src/app.rs:4264-4277 | the failure step turns every slot of a field it carries into a draft with the slot's text, lets every other slot and draft stand, and leaves a session of another spark alone |
| EditSession.SuccessClearsSlots | src/app.rs:4232-4246 | the success step removes only its own slots, and ends the session exactly when nothing is left of it |
| EditSession.CommitMoves | src/screen/spark_detail.rs:121-131 | a commit moves the draft into its slot and, launched, has a write of that text pending |
| EditSession.CommitStrandsExactly | src/app.rs:3089-3104 | a commit leaves a slot that nothing will clear exactly when its write was not launched and no other is pending |
| EditSession.StrandedStays | src/app.rs:4226-4246 | such a slot survives every later reply, so the session stays dirty until the spark is left |
| EditSession.AffectedExactly | src/workshop.rs:133-155 | the fields a write reports are exactly the slotted fields its patch sets |
| EditSession.Workshop.ApplySparkPatch | src/workshop.rs:1649-1735 | the cached row becomes the patched row and the returned patch holds the old value of exactly what changed |
| EditSession.Workshop.SparkUpdateDispatch | src/app.rs:4149-4224 | changes the cache and sends a request just as the dispatch step says, for every early return |
| EditSession.Workshop.SparkUpdateApplied | src/app.rs:4226-4246 | removes only the write's own slots and ends the session exactly when nothing is left |
| EditSession.Workshop.SparkUpdateFailed | src/app.rs:4250-4280 | re-applies the prior patch and moves the write's own slots back to drafts |
| PollDiff.EmbersAreEdges | src/app.rs:1563-1596 | after the baseline poll embers are exactly the edges, one each, and the baseline makes none |
| PollDiff.FlashExactly | src/app.rs:1567-1596 | a spark gets a Flash exactly if it is blocked now, was not at the last load, a load came before and the database is there |
| PollDiff.AnnounceExactly | src/app.rs:1622-1645 | an epic is announced exactly if open, not known and the runtime ready, and known afterwards exactly if open and known or announced |
| PollDiff.RisesMinusFalls | src/app.rs:3696-3728 | over any polls rises minus falls of an id, plus the changes at polls without a database, is its final minus its baseline membership, and nothing goes unseen once the database is there |
| PollDiff.KnownIsOpenSinceReady | src/app.rs:1613-1645 | an epic is known exactly when it has been open ever since some load with the runtime ready |
| PollDiff.KnownWithinOpen | src/app.rs:1638-1645 | the known set is within the open epics and equals them after a ready load |
| PollDiff.AnnouncedAtFirstReady | src/app.rs:1622-1637 | within a stretch of loads in which it is open an epic is announced at the first ready load and no other |
| PollDiff.AnnouncedOncePerStretch | src/app.rs:1598-1646 | such a stretch has one announcement if the runtime is ready during it and none otherwise |
| PollDiff.Workshop.SparksLoaded | src/app.rs:1557-1667 | returns the Flash embers and new epics and moves the remembered sets as specified |
| PollDiff.Workshop.FailingContractsLoaded | src/app.rs:3648-3686 | returns the Flare embers and remembers the poll |
| PollDiff.Workshop.HandAssignmentsLoaded | src/app.rs:3688-3729 | returns the Glow embers and remembers the poll |
| Sessions.MergeSettles | src/app.rs:1840-1923 | a merge keeps ids unique and every known session's place, id and tab, adds each unknown row once in row order and reclassifies what a row describes |
| Sessions.MergeShows | src/screen/agents.rs:255-267 | after a merge each row has one session, history if the row has ended, active if a tab or a running process is there, stale otherwise |
| Sessions.DeadQueueMembers | src/app.rs:1826-1872 | exactly the sessions without a live tab whose live row's process is gone are queued |
| Sessions.NotQueuedAgain | src/app.rs:1945-1960 | after reconciliation no later load queues any of the same sessions, and every other one keeps its chance |
| Sessions.Workshop.AgentSessionsLoaded | src/app.rs:1782-1960 | the loop over rows computes the merge and the queue |
| Sessions.Database.ReconcileDeadSessions | src/app.rs:7719-7746 | ends each queued session and abandons its active assignments, every other row untouched |
| ReleaseClose.AllOrNothing | src/cli.rs:4749-4907 | from an untouched release a successful close leaves all its products, and a failed one leaves none exactly when it was compensated |
| ReleaseClose.OutcomeExactly | src/cli.rs:4749-4907 | an attempt closes the release if and only if no stage fails, and dies of the first that does, in source order |
| ReleaseClose.FailuresLeaveRelease | src/cli.rs:4825-4907 | any number of compensated failures leaves the release as it was and a later faultless attempt closes it |
| ReleaseClose.UnreadWriteLeavesHalfClosed | data/src/sparks/release_repo.rs:201-230 | a status write that cannot be read back leaves the row closed with its products gone |
| ReleaseClose.NothingElseTouched | src/cli.rs:4761-4782 | other tags and files are untouched, an existing tag is never deleted, and no run closes over an open epic |
| ReleaseClose.HeadAfterAttempt | src/cli.rs:4784-4918 | HEAD returns to the original branch only on success; a failure after the checkout leaves it on the release branch |
| ReleaseClose.HeadStaysOnReleaseBranch | src/cli.rs:4909-4918 | once there, no sequence of later attempts brings HEAD back |
| ReleaseClose.Repository.UnclosedEpics | src/cli.rs:4761-4782 | the epic check finds a missing epic or an open one if there is any |
| ReleaseClose.Repository.Close | src/cli.rs:4749-4918 | the procedure changes the world exactly as the specified attempt, for every combination of faults |
| Sweep.FindsSameSpark | data/src/sparks/ember_repo.rs:83-108 | with space-free ids and no wildcard a flare is found for exactly the ids equal up to letter case |
| Sweep.FindsWithinWorkshop | src/cli.rs:1722-1730 | within a workshop whose name has no percent sign a flare is found for exactly its own spark |
| Sweep.ToldApartExactly | src/cli.rs:1722-1738 | the flares of a workshop's sparks are told apart, whatever they say, if and only if its name has no percent sign |
| Sweep.PercentInNameConfuses | src/cli.rs:1722-1738 | with a percent sign in the name the flare of any spark is found for any other when its title holds the rest of the other's id |
| Sweep.LikePrefix | data/src/sparks/ember_repo.rs:91-98 | a pattern that ends in its only percent sign matches exactly by prefix |
| Sweep.FlaresAreSpaced | src/cli.rs:1713-1754 | over any run of sweeps, expiries and foreign embers two flares for one spark are the look-back apart in whole seconds |
| Sweep.LessThanAnHourApart | data/src/sparks/ember_repo.rs:91-98 | two sweeps over one orphan, from the empty table, raise two flares less than 3600 seconds apart |
| Sweep.EveryOrphanCovered | src/cli.rs:1713-1754 | after a sweep whose inserts succeed every orphan has a flare from within the window |
| Sweep.OnlyOrphansFlagged | src/cli.rs:1722-1754 | a sweep only appends, and only flares of its own orphans with their text |
| Sweep.OrphansExactly | data/src/sparks/assignment_repo.rs:372-398 | the orphans are exactly the active claims of ended sessions on sparks that are not closed |
| Sweep.ExpiryExactly | data/src/sparks/ember_repo.rs:125-135 | the clean-up removes exactly the embers whose time is over |
| Sweep.Workgraph.SweepStalls | src/cli.rs:1699-1768 | flares are raised per orphan in order, and with `--abandon` exactly the claims that share session and spark with an orphan are released, leaving none |
| Assignments.GateExact | src/cli.rs:2303-2349 | a close goes through exactly for a session that holds the claim and has posted, about the spark or its parent, since every active claim of its own |
| Assignments.GateReports | src/cli.rs:2303-2349 | the gate answers with the latest active claim and the number of posts since it, none when it refuses |
| Assignments.CompletedWasPosted | src/cli.rs:2291-2349 | over any run with a clock that never goes back every completed assignment has such a post since its own claim, and no spark has two active owners |
| Assignments.AssignExactly | data/src/sparks/assignment_repo.rs:18-74 | a claim is refused exactly to an owner of a spark with an active owner, and else adds an active row |
| Assignments.ReleaseExactly | data/src/sparks/assignment_repo.rs:134-152 | a release abandons the session's active rows on that spark and no other |
| Assignments.CloseExactly | data/src/sparks/assignment_repo.rs:77-92 | a close that goes through completes just those rows, another changes no row |
| Assignments.OldPostCountsExactly | src/cli.rs:2297-2314 | with a clock that never goes back a post from before a claim counts for it exactly when it matches and carries the claim's instant |
| Assignments.OldPostsNeverUnlock | src/cli.rs:2297-2314 | each completed assignment was unlocked by a post made after its claim, or by an older one at the claim's very instant |
| Assignments.OldPostUnlocksExactly | src/cli.rs:2297-2349 | when nothing matching was posted after the latest claim, a close goes through if and only if such an older post exists |
| Assignments.SameInstantUnlocks | ipc/src/chat_of_record.rs:346-366 | in one instant a post made before the claim unlocks it |
| Assignments.ParentPostUnlocks | ipc/src/chat_of_record.rs:357-367 | a post tagged with the parent epic unlocks a close of the child |
| Assignments.Database.AssignClose | src/cli.rs:2291-2350 | decides as the gate says, completes the session's active rows on that spark or changes nothing, and each completed row has its post |
| WatchText.CadenceRoundTrip | src/cli.rs:1848-1858 | the printed form of a cadence parses back to it, except an empty cron expression, which does not parse |
| WatchText.BareSeconds | src/cli.rs:1852-1854 | bare decimal seconds parse to that interval |
| WatchText.CadenceExactly | src/cli.rs:1848-1858 | exactly the texts that parse to a given cadence |
| WatchText.NeverIgnoresCase | src/cli.rs:1864-1866 | `never` in any case is no stop condition |
| WatchText.CadencesPrintDifferently | data/src/sparks/types.rs:1484-1492 | distinct cadences print differently |
| WatchText.StopRoundTrip | src/cli.rs:1863-1888 | a stop-condition shorthand parses back exactly when its spark id has no equals sign |
| WatchText.StopsPrintDifferently | src/cli.rs:1863-1888 | such conditions, when distinct, print differently |
| Watches.RunKeepsInv | data/migrations/017_watches.sql:37-39 | after any run of create, cancel and replace at most one row per target and intent is not cancelled |
| Watches.CreateRefusedExactly | src/cli.rs:2000-2031 | a create is refused if and only if a live row has its key, and else appends the row as asked; that row is the only one, and its id is reported if it is active and "unknown" if not |
| Watches.StoredAsAsked | data/src/sparks/watch_repo.rs:23-51 | the stored row decodes to what was asked for, with no stop condition for `never` |
| Watches.CancelExactly | data/src/sparks/watch_repo.rs:92-101 | a cancel marks the row with that id cancelled and lets every other stand, or finds nothing and changes nothing |
| Watches.CancelFreesKey | data/migrations/017_watches.sql:37-39 | after a cancel a create of its key under a fresh id succeeds |
| Watches.ReplaceEndsExactly | src/cli.rs:2134-2181 | when a replacement finds nothing, needs a cadence, is a duplicate or is written, and that only the last changes anything |
| Watches.ReplaceInherits | src/cli.rs:2139-2170 | a replacement cancels the old row, touches no other and differs from it only where a flag was given |
| Watches.ReplaceRefusedExactly | data/src/sparks/watch_repo.rs:110-163 | a replacement is a duplicate exactly when another live row has the new key, and then nothing changes |
| Watches.MalformedStopIsDropped | src/cli.rs:2150-2157 | a stored stop condition that does not decode becomes no stop condition |
| Watches.WatchTable.CreateWatch | src/cli.rs:1985-2034 | the table and outcome of the specified create |
| Watches.WatchTable.CancelWatch | data/src/sparks/watch_repo.rs:92-101 | the table and outcome of the specified cancel |
| Watches.WatchTable.ReplaceWatch | src/cli.rs:2134-2181 | the table and outcome of the specified replace |
| Workgraph.RunKeepsForest | src/cli.rs:1055-1126 | every run of creates and type changes keeps a forest of epic parents with sound bonds, and mirrored ones when all bonds are written |
| Workgraph.CreateExactly | src/cli.rs:1055-1126 | when a create is refused and why, and that else it appends the spark, with its bond if that can be written |
| Workgraph.SetTypeExactly | src/app.rs:2590-2652 | the picker changes that one type or nothing, and says which |
| Workgraph.RefusalExactly | src/app.rs:2613-2640 | a change is refused to an epic with children, with their number, or without a parent, and to nothing else |
| Workgraph.CreateKeepsMirror | src/cli.rs:1114-1126 | parent column and bond stay in step exactly when the bond is written |
| Workgraph.SetTypeGuardIsExact | src/app.rs:2602-2652 | the picker allows a change if and only if the unguarded write would keep the forest |
| Workgraph.HarmfulWriteBreaks | src/cli.rs:1265-1270 | the unguarded write demoting an epic with children or without a parent breaks the rule |
| Workgraph.CheckOnOldRowsIsNotEnough | src/app.rs:2607-2640 | an allowed demotion breaks the forest when a child was created after the check |
| Workgraph.Root | src/cli.rs:1055-1077 | following parents from any spark of a forest ends at a top-level epic created no later |
| Workgraph.FoldChangesNothing | src/app.rs:7791-7809 | after any run the bond fold is the identity |
| Workgraph.FoldExactly | src/app.rs:7791-7809 | a load keeps a parent the column names, and gives a spark without one the parent of its first bond, if any |
| Workgraph.FoldIsIdempotent | src/app.rs:7791-7809 | whatever the tables hold, folding twice is folding once |
| Workgraph.LoadSparks | src/app.rs:7775-7810 | the map built with `or_insert` and the update in place compute the fold |
| Workgraph.Tables.CreateSpark | src/cli.rs:1055-1126 | the tables and outcome of the specified create |
| Workgraph.Tables.PickType | src/app.rs:2590-2652 | the tables and outcome of the specified type change |
| Prune.RemovableExactly | src/worktree_cleanup.rs:110-138 | removable are exactly the idle, clean, merged worktrees on their own `<actor>/<short id>` branch |
| Prune.ClassifyExactly | src/worktree_cleanup.rs:110-138 | which worktrees get each of the five statuses, the most blocking reason first |
| Prune.ReportOrder | src/cli.rs:4205-4220 | the report goes by status in the stated order and alphabetically by short id within each |
| Prune.SortIsStableSort | src/cli.rs:4205-4220 | a sort by status rank and short id that is a permutation and keeps the order of equal keys exists |
| Prune.StableSortIsUnique | src/cli.rs:4205-4220 | that promise leaves one report only |
| Prune.RemovablePrefix | src/cli.rs:4205-4225 | the removable candidates are exactly the first `summary.removable` rows |
| Prune.CountersAddUp | src/worktree_cleanup.rs:155-165 | the five counters add up to the number of candidates |
| Prune.CountersExactly | src/worktree_cleanup.rs:155-165 | each counter counts the candidates of its status |
| Prune.PruneRun.Prune | src/cli.rs:4148-4268 | reports the stable sort, attempts exactly the removable prefix on its own paths and branches and only with `--yes`, and succeeded plus failed is its length |
| Orchestrate.RunIsSafe | src/cli.rs:3912-4020 | for any answers there are at most max(1, max_cycles) polls, no spark is respawned beyond the cap, every release and respawn rests on a report that was not all done and saw the spark unowned or silent and not stuck, and at most one Merger comes, last |
| Orchestrate.MergerExactly | src/cli.rs:3986-4018 | a Merger is spawned exactly when the run survives, ends all done and has a merge spark; otherwise a surviving run used every cycle |
| Orchestrate.StalledClaimsAreReleased | src/head/orchestrator.rs:433-484 | in every whole run the Hand of a stalled row is spawned right behind the release of its old claim, that of an unassigned row without one, and only a run that died ends in a release |
| Orchestrate.EveryRoundIsServed | src/cli.rs:3915-3983 | in every run each poll that is not all done is followed by the respawns its needy rows ask for, up to the cap, before the next poll or the end, unless the run dies |
| Orchestrate.EveryPollReportsTheCrew | src/head/orchestrator.rs:311-372 | in every run each poll reports exactly the crew's sparks that no listing so far showed closed otherwise, each in the state of its view |
| Orchestrate.StatesExactly | src/head/orchestrator.rs:325-404 | which views give each member state, a stuck assignment outranking its heartbeat |
| Orchestrate.PassDiesExactly | src/head/orchestrator.rs:453-473 | a pass dies exactly of a release or spawn that fails on a row it attempts |
| Orchestrate.PassSpawnsWhatAnswers | src/head/orchestrator.rs:459-482 | every Hand logged is the one its row's spawn answered with |
| Orchestrate.RunSurvives | src/cli.rs:3915-3983 | a run in which every poll, release and spawn succeeds does not die |
| Orchestrate.RunKeepsOwners | src/head/orchestrator.rs:102-106 | over any run of drops and respawns the crew handle shows, at the first slot of each remaining spark, the session last spawned for it |
| Orchestrate.PassServesEveryone | src/head/orchestrator.rs:433-484 | a pass that survives gives every needy row a new Hand until its spark reaches the cap |
| Orchestrate.EmptyCrewRunsOut | src/head/orchestrator.rs:187-192 | an empty crew is never all done and uses up all cycles |
| Orchestrate.AllDroppedNeverMerges | src/head/orchestrator.rs:642-677 | when every child was closed otherwise at first no Merger is ever spawned |
| Orchestrate.AllDoneMeansCompletedExactly | src/head/orchestrator.rs:29-31 | an all-done report means all are completed if and only if no child the listing left in the crew is closed otherwise at the poll |
| Orchestrate.MergerWithNothingCompleted | src/head/orchestrator.rs:187-192 | a child open in the listing and closed otherwise at the poll gives a Merger with nothing completed |
| Orchestrate.Orchestrate | src/cli.rs:3912-4020 | the loop and the final merger compute the specified run |
| Orchestrate.ReassignStalled | src/head/orchestrator.rs:421-487 | the pass over the report computes the specified respawns and stops at the first failure |
| Template.NothingLeftOver | src/head_archetypes.rs:133-152 | rendering leaves no placeholder for every template if and only if the id cannot form one across a seam |
| Template.OrdinaryIdsAreSafe | src/head_archetypes.rs:133-152 | an id without braces and with a character outside the placeholder never leaves one |
| Template.ClashShape | src/head_archetypes.rs:50-52 | a clashing id has a brace or is written in the placeholder's letters |
| Template.RenderJoinsPieces | src/head_archetypes.rs:50-52 | the output is the pieces between placeholders joined by the id |
| Template.PiecesRebuildTemplate | src/head_archetypes.rs:50-52 | the same pieces joined by the placeholder are the template |
| Template.PiecesArePlaceholderFree | src/head_archetypes.rs:50-52 | no piece holds a placeholder |
| Template.RenderedLength | src/head_archetypes.rs:50-52 | the output is longer by the number of placeholders times the difference in length |

## Left out

- All views, toasts, overlays, hotkeys, recent-workshop bookkeeping and tmux or file-system work: no property beyond doing them.
- Real I/O: git, SQLite, IRC, tmux and process spawning are table updates or success and failure parameters. Time is a number, not RFC 3339 text, except that `Sweep` truncates to whole seconds as `datetime` does.
- Reads that the code turns into empty defaults, such as the member epics of a release: assumed to succeed.
- `ryve sweep stalls` run twice at the same time, and the dismissal or rewriting of embers between sweeps.
- Lifecycle.App.WorkshopReady: models the handover only, not the watch runner, tabs and configuration started there.
- PollDiff.Workshop.SparksLoaded: does not model the re-sorting of the spark list or the other refreshes of the same handler.
- Sessions.Workshop.AgentSessionsLoaded: does not model names, labels, logs and the tmux flag of a session, and returns the queue also while the database is not open.
- Sessions.Database.ReconcileDeadSessions: assumes its best-effort writes succeed.
- SparkEdits.RunKeepsAgreement: takes `spark_repo::update` as one step; `OverlapLosesExactly` is what happens when two of them interleave. The intent-list editor (`src/app.rs:2415-2440`), which writes the whole metadata outside the dispatch and then reloads, is not among the steps. Sparks and rows are maps by id and by column, and metadata is compared as a document, so the re-printing of its JSON text is not modelled.
- WatchText.StopRoundTrip: takes the JSON decoder as a parameter that accepts no text beginning with `e` or `s`.
- Watches.RunKeepsInv: the scheduler appears only as the completion of an active watch; when it fires and `next_fire_at` are not kept, nor is the existence of the target spark.
- Workgraph.RunKeepsForest: checks read current rows; other bond types and other edits of sparks are not modelled.
- Prune.PruneRun.Prune: `sort_by` is modelled by its promise of a stable sort, which has one result; branch deletion is attempted but its failure counts for nothing, as in the source.
- Orchestrate.RunIsSafe: the initial crew is given; notifying about stuck members and sleeping between cycles are left out because they change nothing here.
- `delegation`, `agent_prompts`, `panel_state`, font and bundled-binary helpers: only easy members.
