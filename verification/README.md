# Qmonster: a verified model of the monitor's bookkeeping

Qmonster polls the panes of a terminal multiplexer and tells the operator what the AI command-line tools in
them are doing. This project models the parts of it that carry state or search, and proves what they keep
over whole runs. One module models one component:

- `ProcessMemory` and `Attribution`: two depth-capped breadth-first walks over the process table, and the
  gates that decide from them whether a provider's files may be attributed to a pane.
- `Lifecycle`, `TailHistory`, `Pressure`, `AutoSnapshot`, `PaneTick` and `EventLoop`: the polling tick.
  `EventLoop.Context` is the mutable state with its maps keyed by pane id; `PaneTick` says what one tick does
  to one pane. The class is proved to move every pane by exactly that pane's own events, so the theorems
  about a single pane's events hold for every run of listings, duplicate pane ids included.
- `SnapshotRuns`: automatic snapshots over a pane's whole history and over runs of the monitor.
- `RecentFiles`, `Sidefile`, `CodexRollout` and `RolloutOrder`: the newest-first scans with the 60-second
  ambiguity guard, the fold that reads a session log, and when the order of a directory listing matters. The
  Claude and the agy side-file readers are the same scan; one model stands for both, with the session or
  conversation id called `id`.
- `GeminiColumns`, `CodexStatus` and `ActiveFiles`: the parsers with stateful loops.
- `ConfigMerge` and `Safety`: layered configuration and one-way safety overrides.
- `Dashboard`, `Flashes` and `Fx`: alert times, card flashes, and the generator and confetti of the effects.
- `Text` and `Wrappers`: string tests and the option type.

Inputs the model takes as arbitrary: the process table, directory listings and file contents (after JSON or
TOML parsing), pane listings, the facts the adapters read off a tail, policy recommendations, the outcome of
each snapshot write, clocks and settings.

What the code does differs from what one would expect, or from its own documentation, in these places:

- A runtime refresh captured for a pane is merged into the parse tail before the lifecycle reset, so text of
  one lifetime can be parsed in the first tick of the next (`PaneTick.FirstTickIsOwnTail` has the exact
  condition, `PaneTick.VanishedOverlayLeaks` an instance); `PaneTick.OnlyFirstTickLeaks` shows that nothing
  else of an earlier lifetime survives in the memory modelled here.
- The bare-token loop of the active-file parser tests single bytes as if they were characters, so a
  tool-call line can make the slice after it panic (`ActiveFiles.LinePanicsIff`,
  `ActiveFiles.AccentedNamePanics`).
- Layering of configurations is not associative (`ConfigMerge.MergeAssociativeIff`,
  `ConfigMerge.LeafBetweenTablesBreaksRegrouping`).
- `src/app/auto_snapshot.rs:1-8` promises one snapshot per pane id, quota kind and window. Only the last
  window of a kind is remembered, and the lifecycle reset drops even that. So a snapshot is repeated when a
  reset time goes back (`AutoSnapshot.GoingBackWritesTwice`), and when a pane is missing from one listing and
  returns in the same window (`SnapshotRuns.ReturningWritesTwice`). `SnapshotRuns.WrittenAtMostOnce` has the
  exact condition.
- Session logs that share a modification time across the cap of 64 are read in listing order, so that order
  can decide whether a pane gets an answer (`RolloutOrder.OrderIsIrrelevantIff`,
  `RolloutOrder.TieAcrossCapDecides`).
- `src/adapters/process_memory.rs:182-183` promises no command line when every descendant is a generic
  shell; the walk returns the nearest readable descendant, whatever it is
  (`ProcessMemory.ReadDescendantCliProcess` has the exact condition, `Attribution.LoneShellIsIdentity` an
  instance). The module comment speaks of a depth cap of 5; the last pids looked at are 4 steps away.
- The comment at `src/adapters/codex_rollout.rs:171-175` places rate limits beside the info record; they are
  read exactly when that record is present (`CodexRollout.LimitsNeedInfo`,
  `CodexRollout.LimitsWithoutInfoAreLost`).

## Model

| member | source | states |
|---|---|---|
| ProcessMemory.PushChildren | src/adapters/process_memory.rs:118-122 | The innermost loop of both walks pushes exactly the children not visited before, each once and in order of first occurrence, and marks them visited. |
| ProcessMemory.FrontierIsDistance | src/adapters/process_memory.rs:95-124 | For every child relation, cyclic and shared ones included, frontier number d is exactly the set of pids whose shortest path from the pane has d steps, each pid once. |
| ProcessMemory.SeenIsBall | src/adapters/process_memory.rs:95-124 | After d rounds the pids seen are exactly those reachable in at most d steps (paths in the child relation are the reference notion). |
| ProcessMemory.ReadDescendantRssMb | src/adapters/process_memory.rs:86-127 | The answer is the resident size of a readable pid at most 4 steps away above which no such pid ranks by (tier, size); it is missing exactly when every such pid has tier 0 and size 0. |
| ProcessMemory.StatsAre | src/adapters/process_memory.rs:129-155 | A pid has statistics exactly when a resident size can be read; its tier is 2 for claude, codex, gemini, agy and qmonster, 1 for node, python and python3, else 0. |
| ProcessMemory.TopIsPreferred | src/adapters/process_memory.rs:87-115 | A dedicated CLI in reach is preferred to any interpreter and an interpreter to anything else, whatever their sizes; within the preferred kind the largest is reported. |
| ProcessMemory.ReadDescendantCliProcess | src/adapters/process_memory.rs:217-280 | The descriptor is that of the pane's identity; it is missing exactly when no descendant at most 4 steps away has a command name, or the identity has no argv. |
| ProcessMemory.IdentityIsNearest | src/adapters/process_memory.rs:221-270 | The identity is never the pane pid, even in a cycle; if some known CLI lies 1 to 4 steps away the identity is one at minimum distance among them, otherwise it is the nearest readable descendant. |
| ProcessMemory.SomeIdentity | src/adapters/process_memory.rs:234-272 | There is at most one identity, and it is readable and at most 4 steps away. |
| ProcessMemory.IdentityExists | src/adapters/process_memory.rs:244-270 | Any readable descendant at most 4 steps away makes the walk pick some process. |
| Attribution.LoneShellIsIdentity | src/adapters/process_memory.rs:182-270 | A pane whose only descendant is a shell has that shell as its identity, with an argv to describe it. |
| ProcessMemory.CliIff | src/adapters/process_memory.rs:44-50 | The known CLIs are the dedicated binaries and the interpreters, by exact command name. |
| Attribution.ProcessConfirmed | src/adapters/mod.rs:334-350 | A known pane pid is confirmed exactly when it is itself the CLI or its identity has an argv and is named like the CLI. |
| Attribution.ClaudeConfirmed | src/adapters/mod.rs:339-365 | The Claude gate accepts exactly a missing pane pid or a confirmed one. |
| Attribution.CodexConfirmed | src/adapters/mod.rs:367-379 | The Codex gate accepts exactly a missing pane pid or a confirmed one. |
| Attribution.AgyConfirmed | src/adapters/mod.rs:381-400 | The agy gate accepts exactly a confirmed pane pid and fails closed on a missing one. |
| Attribution.ConfirmedIff | src/adapters/mod.rs:334-418 | A pane is confirmed exactly when its own process has the name, or its identity can be described and has a like name, argument or executable. |
| Attribution.BasenameDecides | src/adapters/mod.rs:420-427 | A path counts by its last component only, whatever directory it is in and whatever slashes and dots follow. |
| Attribution.NamelessPathIsSearched | src/adapters/mod.rs:421-425 | A path that ends with `..`, or holds slashes and dots only, is searched as a whole. |
| Attribution.ExecutableDecides | src/adapters/mod.rs:412-417 | The executable counts by its last component, and not at all without one. |
| Attribution.ServerPaneIsDeclined | src/adapters/mod.rs:402-427 | A pane whose identity is a node process running a server below a `.claude` directory is declined by the Claude gate. |
| Attribution.ConfirmedHasEvidence | src/adapters/mod.rs:386-417 | A confirmed pane has a process named like the CLI at most 4 steps from the pane pid. |
| Attribution.NearerCliVetoes | src/adapters/mod.rs:323-333 | A known CLI strictly nearer than every known CLI named like the needle vetoes the attribution, unless the pane pid is the CLI itself. |
| TailHistory.Normalize | src/adapters/common.rs:213-219 | The pop loop computes the normalized tail. |
| TailHistory.NormalizedKeepsLines | src/adapters/common.rs:213-219 | Normalization keeps every line up to trailing white space. |
| TailHistory.NormalizedEqualIff | src/adapters/common.rs:191-219 | Two tails normalize alike exactly when they show the same lines, trailing white space and trailing blank lines aside. |
| TailHistory.NormalizeIsIdempotent | src/adapters/common.rs:213-219 | Normalizing twice equals normalizing once, through split, trim, pop and join. |
| TailHistory.PaneTailHistory.constructor | src/adapters/common.rs:160-166 | A new history is empty; its capacity is the setting from 2 to 12, 2 for a smaller one and 12 for a larger one. |
| TailHistory.PaneTailHistory.Push | src/adapters/common.rs:184-189 | A push keeps the last `capacity` tails. |
| TailHistory.PaneTailHistory.IsStill | src/adapters/common.rs:193-206 | True exactly when the window is positive, full, and its tails all normalize alike. |
| TailHistory.PaneTailHistory.ChangedWithinCapacity | src/adapters/common.rs:208-211 | True exactly when at least two tails are held within the capacity and two of them differ after normalization. |
| Lifecycle.PaneLifecycle.Observe | src/domain/lifecycle.rs:24-33 | Records the flag; Reappeared and BecameDead are exactly the two flips of a known flag, Appeared exactly the first sight. |
| Lifecycle.PaneLifecycle.Forget | src/domain/lifecycle.rs:39-46 | A known pane becomes dead, an unknown one stays unknown. |
| Pressure.ApplyPressureMetricCache | src/app/event_loop.rs:986-1025 | Parsed values replace cached ones and cached ones fill gaps, for Claude only; any other provider drops the cache and passes its values through. |
| Pressure.ReportsMostRecent | src/app/event_loop.rs:986-1025 | Over every run of ticks, each metric reported for a Claude pane is the most recent value parsed since the pane last became Claude, and missing exactly when none was. |
| Pressure.OtherProvidersForget | src/app/event_loop.rs:992-995 | A tick of another provider reports its own values, and whatever follows is as if nothing had come before. |
| AutoSnapshot.MaybeAutoSnapshot | src/app/auto_snapshot.rs:112-192 | The writer is called exactly for the recommendations whose window differs from the last success of their kind, and never when snapshots are off; one notice per call, one audit row per success, and the dedup state is that of the last successes. |
| AutoSnapshot.WindowIsMinute | src/app/auto_snapshot.rs:67-73 | A window is the multiple of 60 at or up to 59 seconds before the reset time; two reset times share it exactly when they are in the same minute. |
| AutoSnapshot.JitterIsAbsorbed | src/app/auto_snapshot.rs:46-73 | After a success no tick with a reset time in the same minute tries the kind again, whatever else it recommends. |
| AutoSnapshot.TwoTicksWrite | src/app/auto_snapshot.rs:67-148 | Two ticks that recommend a kind write once when their raw reset times are in the same minute, and twice otherwise. |
| AutoSnapshot.NoticesTell | src/app/auto_snapshot.rs:159-189 | There is one notice for every call of the writer, telling its outcome and kind. |
| AutoSnapshot.RunStep | src/app/auto_snapshot.rs:135-145 | Handling a tick from the stored dedup state acts as looking back over the whole run of the lifetime would. |
| AutoSnapshot.SuccessiveWindowsDiffer | src/app/auto_snapshot.rs:46-65 | Over any run, two successive snapshots of the same kind are for different minute-floored windows. |
| AutoSnapshot.WritesSqueezedOffers | src/app/auto_snapshot.rs:46-65 | Over any run, the windows written of a kind are the windows offered with consecutive repeats squeezed out. |
| AutoSnapshot.WrittenAtMostOnce | src/app/auto_snapshot.rs:46-73 | Within one lifetime each (kind, window) is written at most once exactly when the offers of every window form one block. |
| AutoSnapshot.NeverBackWritesOnce | src/app/auto_snapshot.rs:17-73 | If the floored reset times of a kind never go back, its written windows strictly increase. |
| AutoSnapshot.GoingBackWritesTwice | src/app/auto_snapshot.rs:49-65 | A run whose reset time goes back writes the same window twice. |
| AutoSnapshot.FailureIsRetried | src/app/auto_snapshot.rs:179-188 | A failed attempt whose kind was not written since is made again by any tick that recommends the kind for the same window, whatever else happened and whatever else the tick recommends. |
| SnapshotRuns.LifeAuditsGrow | src/app/event_loop.rs:487-518 | The audit rows returned for a tick of a live pane continue those of the run of its current lifetime. |
| SnapshotRuns.TrailIsOfLives | src/app/event_loop.rs:105-129 | The audit rows of a pane's whole event history are those of the runs of its lifetimes, one after the other. |
| SnapshotRuns.WrittenAtMostOnce | src/app/auto_snapshot.rs:1-8 | Over a pane's whole history each window of a kind is written at most once exactly when in every lifetime the offers of each window form one block and no window is offered in two lifetimes. |
| SnapshotRuns.RunTrail | src/app/event_loop.rs:44-65 | The audit rows that a run of the monitor records for a pane are those its own events call for. |
| SnapshotRuns.RunWritesOnce | src/app/event_loop.rs:479-518 | Over any run of a new monitor a pane's window is written at most once exactly under that condition. |
| SnapshotRuns.ReturningWritesTwice | src/app/event_loop.rs:123-129 | A pane that is missing from one listing and returns in the same window has it written twice, although the offers of every lifetime form one block. |
| PaneTick.FlagIsAlive | src/domain/lifecycle.rs:24-46 | Over every run, the lifecycle flag says alive exactly when the pane was last listed alive and has not gone since. |
| PaneTick.CachesHoldOneLifetime | src/app/event_loop.rs:105-137 | Over every run in which panes die, vanish and return, the tail history, error window, idle record, pressure cache and snapshot dedup of a live pane are a function of the ticks since it was last dead or absent. |
| PaneTick.OnlyFirstTickLeaks | src/app/event_loop.rs:75-137 | Two histories of a pane that is down, continued alike, give the same ticks from the second one on; the first differs by the pending overlay only, and without such a difference the whole memory is the same. |
| PaneTick.FirstTickIsOwnTail | src/app/event_loop.rs:75-116 | The first tick of a lifetime parses the pane's own tail exactly when no runtime refresh is pending: the overlay is merged before the reset drops it. |
| PaneTick.VanishedOverlayLeaks | src/app/event_loop.rs:75-116 | A run in which text captured in one lifetime is parsed as part of the tail of the next. |
| PaneTick.OverlayIsPending | src/app/event_loop.rs:75-116 | Over every run an overlay is pending exactly when it was captured, nothing visible was captured and the pane was not reset since, and it was not listed since unless the text persists. |
| PaneTick.PersistsIff | src/app/event_loop.rs:980-984 | The texts that persist are those that mention the model menu and a reset time. |
| PaneTick.HistoryIsLastTails | src/app/event_loop.rs:184-192 | The tail history is the last tails of the lifetime, as many as the first tick's setting says, between 2 and 12. |
| PaneTick.EntryTimeStartsRun | src/app/event_loop.rs:460-477 | The idle entry time is the instant of the first tick of the maximal run, within the lifetime, of the current idle cause; it is absent exactly when the pane is not idle. |
| PaneTick.IdleCauseIff | src/adapters/gemini.rs:302-319 | For each cause, exactly when it is reported, whatever the path: a full window of still tails counts as unchanged, so Gemini's test for a change never hides a stale pane. |
| PaneTick.StaleIsStill | src/adapters/mod.rs:97-107 | A pane is stale exactly when nothing on its path speaks against it (on the common path: no prompt marker) and the last full window of tails shows the same lines, so never in the first capacity - 1 ticks. |
| PaneTick.ErrorsAreNewest | src/app/event_loop.rs:290-301 | The error window holds the newest hints of the lifetime, newest first, and as many as no tick's window setting forbids. |
| PaneTick.PressureIsOfLifetime | src/app/event_loop.rs:117-223 | The pressure cache of a pane is that of its current lifetime's readings. |
| PaneTick.DedupIsOfLifetime | src/app/event_loop.rs:127-129 | The snapshot dedup of a pane is that of its current lifetime's run. |
| EventLoop.Context.TakeOverlay | src/app/event_loop.rs:75-88 | The overlay is merged into the parse tail and dropped unless it is of the persisting kind. |
| EventLoop.Context.ResetPane | src/app/event_loop.rs:111-137 | Drops every cache of one pane and nothing of any other. |
| EventLoop.Context.RecordTail | src/app/event_loop.rs:184-192 | Pushes the parse tail onto the pane's own history, created on first use, and onto no other. |
| EventLoop.Context.RecordPressures | src/app/event_loop.rs:218-223 | Updates one pane's pressure cache and hands back the reported pressures. |
| EventLoop.Context.RecordError | src/app/event_loop.rs:290-301 | Pushes the hint to the front and drops the oldest beyond the current cap. |
| EventLoop.Context.RecordIdle | src/app/event_loop.rs:460-477 | Sets, keeps or clears the entry time on the transition between the last and the current cause. |
| EventLoop.Context.RecordSnapshots | src/app/event_loop.rs:479-518 | Creates and updates the dedup entry only when snapshots are enabled and the provider is not observe-only. |
| EventLoop.SnapshotsAreOptIn | src/app/event_loop.rs:479-518 | Without the setting, or for a provider that is only observed, a tick takes no snapshot and leaves the dedup entry alone; otherwise it acts on its recommendations from the entry. |
| EventLoop.Context.ObservePane | src/app/event_loop.rs:75-518 | One listing row moves exactly its own pane's memory by one step. |
| EventLoop.Context.ForgetMissing | src/app/event_loop.rs:57-65 | Exactly the panes that left the listing are marked dead. |
| EventLoop.Context.RunOnce | src/app/event_loop.rs:44-65 | Every pane's memory moves by exactly the events the listing holds for it; each row's report, notices and audit rows come from the state its own earlier rows left; duplicate ids are allowed. |
| EventLoop.Context.CaptureRefresh | src/app/runtime_refresh.rs:103-108 | A captured tail is kept for its pane exactly when it is not blank. |
| EventLoop.Context.Run | src/app/polling_tick.rs:32-60 | Over any run of ticks and refreshes each pane's memory, and what every row of every listing produces, is the fold of the pane's own events: no pane influences another. |
| EventLoop.Monitor | src/app/polling_tick.rs:32-60 | In any run of a new monitor the report of every live row is the one its pane's current lifetime calls for. |
| EventLoop.AliveIsListedAlive | src/app/event_loop.rs:57-65 | After a tick a pane counts as alive exactly when its last row in that tick's listing was alive. |
| EventLoop.LiveReportIsOfLifetime | src/app/event_loop.rs:477-518 | A live pane's report is a function of the ticks of its current lifetime: cause, entry time, error window and pressures. |
| EventLoop.EarlierLivesAreForgotten | src/app/event_loop.rs:105-129 | Two histories that are down with the same overlay pending, continued alike with the same facts read off the same tails, produce the same report, notices and audit rows. |
| RecentFiles.SortNewestFirst | src/adapters/claude_sidefile.rs:163-164 | The candidates are reordered, none lost or added, newest first. |
| Sidefile.Scan | src/adapters/claude_sidefile.rs:165-196 | The early-stopping loop keeps the first match and, exactly when there is one, the first match that may be another session. |
| Sidefile.ReadSidefileForPath | src/adapters/claude_sidefile.rs:145-219 | Answers exactly when some newest match has no other match with a missing or different session id less than 60 s older, and then with the one met first. |
| Sidefile.OneFileAnswers | src/adapters/claude_sidefile.rs:152-178 | A single file answers exactly when it is a JSON file that parses and names the directory. |
| Sidefile.TwoFilesAnswer | src/adapters/claude_sidefile.rs:179-218 | Of two files of the directory the newer answers when both name the same session or are at least 60 seconds apart; two missing ids count as two sessions. |
| Sidefile.ScanDecides | src/adapters/agy_sidefile.rs:61-97 | The pair kept by the scan decides the exhaustive rule over all pairs. |
| Sidefile.ListingOrderIsIrrelevant | src/adapters/agy_sidefile.rs:49-97 | Reordering the directory listing changes neither whether the scan answers nor which session it names. |
| Sidefile.AnyUnrivalledAnswers | src/adapters/claude_sidefile.rs:163-219 | Every unrivalled file is the answer for some order of the listing. |
| Sidefile.AnswerIsOrderFreeIff | src/adapters/claude_sidefile.rs:163-219 | The whole answer, payload included, is the same for every order of the listing exactly when all unrivalled files hold the same. |
| CodexRollout.ParseIfMatching | src/adapters/codex_rollout.rs:134-200 | A body yields a result exactly when it has a session_meta line and all of them match; each field is that of the latest line that speaks about it, with resets classified by window length. |
| CodexRollout.MetaStarts | src/adapters/codex_rollout.rs:134-152 | A log of one session_meta line is accepted, with empty signals, exactly for the originator codex-tui and the directory of the pane. |
| CodexRollout.LineKeepsAcceptance | src/adapters/codex_rollout.rs:137-155 | A further line keeps a log accepted unless it is a session_meta line that does not match. |
| CodexRollout.EventAdds | src/adapters/codex_rollout.rs:159-194 | An event with an info record replaces the window and, given totals, all three counts; a complete rate window of at most 720 minutes sets the 5-hour reset, a longer one the weekly reset, secondary after primary; an incomplete one sets nothing. |
| CodexRollout.GrownLogContinues | src/adapters/codex_rollout.rs:134-200 | Parsing a log with lines appended continues from what the prefix gave, accepted, abandoned or still without a session_meta line: acceptance is decided by both parts, and the new lines override the old ones field by field. |
| CodexRollout.ReadRolloutForPath | src/adapters/codex_rollout.rs:63-99 | Among the 64 newest files, the two-match scan answers exactly when the newest match has no other match less than 60 s older, and then with its fields; the answer depends on the bag of these files only. |
| CodexRollout.TwoLogsAnswer | src/adapters/codex_rollout.rs:88-99 | Of two logs of the pane the newer answers exactly when the other is at least 60 seconds older. |
| CodexRollout.CappedAreNewest | src/adapters/codex_rollout.rs:72-76 | The files read are 64 at most, and no file left out is newer than one read. |
| CodexRollout.LimitsNeedInfo | src/adapters/codex_rollout.rs:160-194 | The rate limits of the latest event change the reset times exactly when the event has an info record. |
| CodexRollout.LimitsWithoutInfoAreLost | src/adapters/codex_rollout.rs:171-194 | A log whose only event has a 5-hour window but no info record yields no reset. |
| CodexRollout.AnswerIsSole | src/adapters/codex_rollout.rs:88-99 | The rule on positions in newest-first order is a rule on the bag of files read: a match from which every other match is at least 60 seconds older. |
| RolloutOrder.OrderIsIrrelevantIff | src/adapters/codex_rollout.rs:68-99 | The order of the listing plays no part in the answer exactly when no tie straddles the cap of 64, no tied file matches, the newer files have decided, an answer is ambiguous in any case, or the one tied file that is read answers the same whichever it is. |
| RolloutOrder.NoTieAcrossCap | src/adapters/codex_rollout.rs:72-76 | When the 64th newest file is newer than the next one, any order of the listing reads the same files and gives the same answer. |
| RolloutOrder.TieAcrossCapDecides | src/adapters/codex_rollout.rs:72-76 | Two orders of 65 files of one time, of which one answers and the other does not. |
| RolloutOrder.OrderMakesChoice | src/adapters/codex_rollout.rs:72-76 | Whatever the order of the listing, the files read are those newer than the 64th and a choice of those of its time. |
| RolloutOrder.ChoiceHasOrder | src/adapters/codex_rollout.rs:72-76 | Every such choice is made by some order of the listing. |
| GeminiColumns.RowIsUnique | src/adapters/gemini.rs:255-288 | A line is a row of at most one list of columns. |
| GeminiColumns.JoinIsRowOf | src/adapters/gemini.rs:255-288 | Columns joined by runs of two or more white space characters, with any white space around, form a row of those columns. |
| GeminiColumns.SplitColumns | src/adapters/gemini.rs:255-288 | The line is a row of the result, whose columns are non-empty, trimmed and free of double white space, and of no other list; so splitting undoes every joining. |
| GeminiColumns.StatusFromColumns | src/adapters/gemini.rs:159-192 | Each field is read from the last non-blank cell under its header; a row whose count differs from the header's yields no field. |
| GeminiColumns.StatusReads | src/adapters/gemini.rs:170-190 | Every field, by the names of its header up to case and white space, is read from the last cell under one of them that is not blank, and is missing when there is none. |
| GeminiColumns.UsedPercentIs | src/adapters/gemini.rs:290-300 | A cell of a number, a percent sign and the word used is that percentage, up to 100. |
| GeminiColumns.OtherCellsAreNone | src/adapters/gemini.rs:290-294 | No other cell is a percentage. |
| GeminiColumns.HeaderIff | src/adapters/gemini.rs:396-404 | A header mentions all six names, in whatever case. |
| GeminiColumns.ParseGeminiStatus | src/adapters/gemini.rs:126-157 | The newest header whose data row yields a field decides. |
| CodexStatus.FormsExclude | src/adapters/codex.rs:289-375 | No token has two forms, except that a path or a model name may look like a plain identifier. |
| CodexStatus.StepToken | src/adapters/codex.rs:289-375 | The first applicable rule of the loop body leaves the same fields as looking at every form independently. |
| CodexStatus.PercentTokenAdds | src/adapters/codex.rs:321-340 | A context token sets the context; a 5h or weekly token sets its quota in a line that had none; nothing else changes. |
| CodexStatus.CountTokenAdds | src/adapters/codex.rs:341-370 | A count sets the field of its unit in a line that had none, and nothing else. |
| CodexStatus.NameTokenAdds | src/adapters/codex.rs:293-379 | The first path, the first model with its effort, then a project name that is skipped, then the branch. |
| CodexStatus.ContextIff | src/adapters/codex.rs:322-325 | A token is a context token exactly when it is `Context`, a number up to 255 and `% used`. |
| CodexStatus.PercentTokenIs | src/adapters/codex.rs:439-450 | A label, white space and a number up to 100 in front of the first percent sign are that percentage, whatever follows. |
| CodexStatus.ModelTokenIs | src/adapters/codex.rs:414-426 | A token is a model token exactly by its first word's prefix, and its effort is that of the first later word that has one. |
| CodexStatus.EffortWordIs | src/adapters/codex.rs:428-437 | A word that spells an effort, in whatever case and between whatever characters that are no letters, is that effort. |
| CodexStatus.PlainIff | src/adapters/codex.rs:456-462 | A plain identifier is 1 to 60 ASCII letters, digits, slashes, underscores, dots and hyphens. |
| CodexStatus.ParseTokens | src/adapters/codex.rs:276-375 | Every field is the first token of its form, the context is the last one, and the branch is the second plain token after the model. |
| CodexStatus.ParseReasoningEffort | src/adapters/codex.rs:195-218 | The newest boxed line with a known effort decides. |
| CodexStatus.BoxedEffortIs | src/adapters/codex.rs:196-214 | A line says an effort exactly when it is boxed, holds the label, and the letters behind its first `reasoning ` are one in lower case. |
| CodexStatus.ParseStatusLine | src/adapters/codex.rs:263-412 | The newest status-shaped line alone decides; there is no result when its context cannot be parsed, even if an older line's can. |
| CodexStatus.ReportIs | src/adapters/codex.rs:382-408 | The report copies the fields of the line and falls back to a boxed effort only. |
| CodexStatus.TotalIs | src/adapters/codex.rs:382-385 | A missing total is the sum of input and output, saturating at the largest 64-bit number. |
| CodexStatus.OlderTextIsIgnored | src/adapters/codex.rs:263-274 | Text put above a tail that holds a status-shaped line changes nothing but a missing effort. |
| ActiveFiles.ReadBareToken | src/adapters/common.rs:380-391 | The byte loop and the slice give the text before the first character with a stop byte, and fail when that character is not ASCII. |
| ActiveFiles.BareTokenPanicsIff | src/adapters/common.rs:380-391 | The slice is off a character boundary exactly when the first character one of whose bytes is a stop byte is not ASCII. |
| ActiveFiles.LinePanicsIff | src/adapters/common.rs:342-391 | A line makes the scan panic exactly when it is a tool call without a quoted path whose first character with a stop byte is not ASCII. |
| ActiveFiles.AccentedNamePanics | src/adapters/common.rs:326-391 | A tail of one tool call with an unquoted file name starting with U+00E0 makes the parser panic. |
| ActiveFiles.PathOnIff | src/adapters/common.rs:342-395 | A line contributes a path exactly when it is a tool call and the path passes the path test and is the text between the first two double quotes, or, when that is no path, the longest prefix without a stop byte. |
| ActiveFiles.CallsWithIff | src/adapters/common.rs:332-349 | The calls that count are those of the five editing tools behind the bullet. |
| ActiveFiles.LooksLikePathIff | src/adapters/common.rs:397-412 | Between the white space, a path is two bytes or longer, starts with no hyphen, holds no equals sign, and has a slash or an extension of one to eight ASCII letters and digits. |
| ActiveFiles.Utf8Holds | src/adapters/common.rs:381-388 | The bytes of a character hold its code point, six bits in every byte but the first. |
| ActiveFiles.AtMostEight | src/adapters/common.rs:326-360 | At most eight paths are reported, and all there are when they are fewer. |
| ActiveFiles.ParseActiveFiles | src/adapters/common.rs:326-360 | The bottom-up scan with early break gives the first 8 distinct paths of the reversed lines; it fails exactly when a failing line comes before the eighth. |
| ActiveFiles.DedupKeepsFirsts | src/adapters/common.rs:352-357 | The distinct paths have no duplicates, the same items, and the order of first occurrence. |
| ActiveFiles.PathsLookLikePaths | src/adapters/common.rs:397-412 | Every path comes from a line of the tail and passes the path test. |
| ConfigMerge.MergeTomlValues | src/app/config.rs:1153-1169 | The in-place recursion computes the merge, in whatever order the keys are visited. |
| ConfigMerge.LoadLayered | src/app/config.rs:1137-1151 | A setting has a value exactly when it is that of the highest layer (local file, file, defaults) that has it, no higher layer holding anything at its path or a leaf above it. |
| ConfigMerge.MergeAtPath | src/app/config.rs:1153-1169 | At every path: the overlay's value on top of the base's where the overlay has one, nothing below an overlay leaf, the base's value elsewhere. |
| ConfigMerge.LocalLeafWins | src/app/config.rs:1146-1150 | A leaf of the local file decides its path. |
| ConfigMerge.MergeIsIdempotent | src/app/config.rs:1153-1169 | Merging the same overlay twice equals merging it once. |
| ConfigMerge.MergeAssociativeIff | src/app/config.rs:1143-1150 | Layers can be regrouped exactly when, wherever a leaf lies between two tables, the lower table has no key outside the upper one. |
| ConfigMerge.LeafBetweenTablesBreaksRegrouping | src/app/config.rs:1164-1167 | Three documents, with a table, a leaf and an empty table under one key, that cannot be regrouped. |
| ConfigMerge.SameKindsRegroup | src/app/config.rs:1153-1169 | Layers that agree on which shared paths are tables can be regrouped. |
| Safety.Config.ApplySafetyOverride | src/app/config.rs:1182-1257 | The override is accepted exactly when it asks for a known and not riskier value; nothing but its own setting changes. |
| Safety.ApplyOverrideWithAudit | src/app/safety_audit.rs:22-58 | Accepted, rejected and unknown add up to the batch, and the sink receives one row per item not accepted, in order, with the severity of its kind. |
| Safety.RunIsSafest | src/app/config.rs:1178-1257 | After any batch the mode is the safest of the initial one and those asked for, the flags are lowered exactly when asked, and unrelated settings are unchanged. |
| Safety.ModeAfterBatch | src/app/config.rs:145-197 | After any batch the mode is safe-auto only if it was and nobody asked for less, observe-only exactly if it was or somebody asked for it, and from recommend-only it never rises. |
| Safety.AcceptedIff | src/app/config.rs:1182-1265 | For every key, the words that are accepted, by the current mode where it matters. |
| Safety.AcceptedSets | src/app/config.rs:1182-1257 | An accepted override sets its own setting to what was asked for and no other. |
| Safety.OrderIsIrrelevant | src/app/config.rs:1178-1257 | Batches with the same items leave the same settings in any order, the logging sensitivity aside. |
| Safety.PermissionsOnlyShrink | src/app/effects.rs:24-39 | An effect is permitted after a batch exactly when it was before and no item asks to only observe. |
| Safety.PermitIs | src/app/effects.rs:24-39 | Every effect, by the mode and the flag that permit it. |
| Dashboard.AlertState.RefreshAlertState | src/app/dashboard_state.rs:581-602 | The new sets, times and deadlines are those of the refresh. |
| Dashboard.AlertState.ToggleAlertSeverityHide | src/app/dashboard_state.rs:464-495 | All keys are unhidden when all were pending, otherwise all get the same new deadline. |
| Dashboard.TimesStartPresence | src/app/dashboard_state.rs:581-602 | Over any run, exactly the current alerts have a time, it is that of the refresh that began the current uninterrupted presence, and the fresh alerts are the newly present ones. |
| Dashboard.DeadlineIsOfLastHide | src/app/dashboard_state.rs:445-602 | Over any run of refreshes and toggles an alert has a hide deadline exactly when the last toggle that touched it hid it and every refresh since still had it; the deadline is 20 seconds after that toggle. |
| Dashboard.DeadlinesBelongToPresentAlerts | src/app/dashboard_state.rs:595 | After any run that ends with a refresh every hide deadline belongs to a present alert. |
| Dashboard.ToggleTwiceUnhides | src/app/dashboard_state.rs:481-494 | Toggling a severity twice within the delay leaves none of its alerts pending and the others as they were. |
| Dashboard.ToggleIs | src/app/dashboard_state.rs:481-494 | A toggle cancels the hides exactly when every alert of the severity has a deadline still ahead, and otherwise gives all of them 20 seconds from now. |
| Flashes.PaneFlashes.Update | src/app/dashboard_state.rs:553-579 | Every pane's remembered state and flash move by exactly the rows reported for it. |
| Flashes.FlashIsLastChange | src/app/dashboard_state.rs:553-579 | On a clock that never goes back, a card flashes exactly while its pane's latest change of state since it was last missing is younger than 3 seconds, and shows that change. |
| Fx.UnmixUndoesMix | src/app/fx_state.rs:663-670 | The 64-bit step of the generator has an inverse. |
| Fx.FirstValue | src/app/fx_state.rs:656-670 | The first value of the generator seeded with one. |
| Fx.OnlyZeroGivesZero | src/app/fx_state.rs:663-670 | Only zero is mapped to zero. |
| Fx.XorShift64.NextU64 | src/app/fx_state.rs:663-670 | The guard against a zero state never acts: the value returned is the new state. |
| Fx.StreamsNeverMeet | src/app/fx_state.rs:656-670 | Two generators with different states differ after any number of steps. |
| Fx.ConfettiState.Step | src/app/fx_state.rs:164-179 | Every particle moves and ages, and the dead and the departed are dropped, in order. |
| Fx.BurstEnds | src/app/fx_state.rs:164-183 | Whatever the positions, a burst is finished after at most 120 steps. |

## Left out

- CodexStatus.ParseStatusLine: the number parser behind token counts is a parameter, of which only the set of
  characters it can accept is used; its floating-point rounding is not modelled.
- GeminiColumns.StatusFromColumns: the parser of the memory cell is a parameter, because it is a plain
  floating-point conversion.
- EventLoop.Context.RecordPressures: the pressure cache, the snapshot dedup and the signals are values that
  are passed in and handed back, where the source borrows map entries mutably; the histories are objects.
- EventLoop.Context.ObservePane: identity history and drift findings, conflict logging, anomaly history,
  token and cost sinks and the cross-pane pass are not modelled; their rules are outside the component.
- EventLoop.EarlierLivesAreForgotten: the facts, recommendations among them, are a function of the parse tail;
  in the source the policy also reads token samples stored under the pane id, which outlive a lifetime.
- ConfigMerge.LoadLayered: reading, TOML text and the final typed conversion are not modelled.
- Lower-casing is ASCII only. It is exact for the words compared with, except that a Kelvin sign reads as
  `k` in the Gemini header `workspace`.
- A status file with two `Name` lines, of which the two process walks read different ones.
- Recursive collection of rollout files: the list of files is an input.
- The welcome-box model line, the token-usage line and the runtime facts of the Codex adapter, and the
  phrase lists behind prompt, error and progress markers: settled by reading one branch.
- Retry and send logic of runtime refreshes, except that a captured tail is stored.
- Rendering, mouse handling, selection, file system, database, notification and terminal code.
- Snow, fireworks, plasma and matrix effects, trigonometric spawning and colours of confetti.
