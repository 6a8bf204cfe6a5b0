# A verified model of webuiboot

webuiboot is a UEFI boot loader: a cooperative executor runs a user interface and a small web
server, boot files queue what to start next, and images are loaded and started through the firmware.
This project models its logic in Dafny 4.11 and proves what that logic promises.

`dafny verify dfyconfig.toml` checks everything.

## How the model is laid out

| files | what they model |
|---|---|
| `Scheduler.dfy`, `ExecutorObject.dfy` | the executor's state and operations, as functions and as the object that changes in place |
| `ExecutorInvariant.dfy`, `ExecutorQueue.dfy`, `ExecutorWakeup.dfy`, `ExecutorFairness.dfy`, `ExecutorTermination.dfy` | its invariant, the order in which it does things, no lost wake-up, bounded bypass, termination and stalling |
| `SleepFutures.dfy` | the three sleep futures and the async blocks made of them |
| `Text.dfy`, `Volumes.dfy` | the string operations and the file store the boot code works on |
| `BootNext.dfy`, `BootEntry.dfy`, `BootSearch.dfy`, `BootMachine.dfy` | the bootnext queue, the entry parser, the search through the volumes, and the object that performs them |
| `LogBuffer.dfy` | the bounded log |
| `RemoteBoot.dfy`, `Http.dfy` | the remote-boot part of the network loop, the HTTP responses and routing |
| `Cursor.dfy`, `Blend.dfy` | cursor compositing, pointer clamping, pixel blending |

Code of the original that changes things step by step is a class or a method with loops; its
contract equates the new state with a function of the old one, and the properties are lemmas about
those functions.

Choices that a reader should know:

- A future is what it does at its k-th poll, for every k: any function from poll numbers to a list of
  wakes and registrations and a result. Theorems hold for all such functions, finite or not.
- The answer of `WaitForEvent` is a parameter: an error, or the set of signalled events, of which the
  one lowest in the list is reported (section 7.1 of the UEFI Specification 2.10).
- Firmware steps that can fail on a volume or an image (opening, loading, protocols, starting) are
  parameters too, so that theorems hold for every combination of failures.
- The log and the HTTP bodies are bytes; the boot files are strings of Unicode characters.
- Mouse coordinates are reals.

## Where the promise needs a condition

- Writing the bootnext lines back and reading them again is the identity exactly when the first of
  them does not start with U+FEFF (`RewriteRoundTrip`). A flag file that is not readable text blocks
  the queue for ever (`BlockedFileStopsTheQueue`). On every disk, the flag files are a first-in-first-out
  queue exactly when, among the files ahead of the first such one, no line but the first of a file
  starts with U+FEFF (`BootsAreFifoIff`); and exactly then every line ahead is popped
  (`EveryLinePoppedIff`; `MarkedDiskDamaged` is a disk on which one is not).
- `run` halts exactly when it never gets stuck (`RunHaltsIffNeverStuck`). A lone task gets stuck
  exactly when it reaches an await with no event registered, by the sleep or by its work before, and
  without having woken itself (`LoneTaskStuckIff`, for each of several tasks
  `PolledTaskOrphanedIff`), for instance on a timer of 50 ns (`TinyTimersStuck`). A sleep registers
  none exactly when the firmware supplies none of its events and its timer, where it has one, cannot
  be created or has no tick (`NothingRegisteredIff`).
- The log panics exactly when the cut falls inside a multi-byte character; ASCII never does
  (`AsciiAlwaysFits`), other text can (`NonAsciiCanPanic`).
- A response reads back exactly when its status has three digits, its body is valid UTF-8, and its
  status and headers frame that body by section 6.3 of RFC 9112 (`ResponseRoundTripIff`). A body that
  is not UTF-8 is declared and not sent; a body of a 204 response is sent and not read
  (`NoContentLosesBody`).
- The cursor is always wholly on the screen exactly from 23 x 37 pixels on
  (`CursorAlwaysOnScreenIff`).
- A blended channel fits 8 bits over every background exactly when the colour is premultiplied
  (`ChannelFitsIff`).
- The Boot Loader Specification combines repeated `options` lines. The code keeps the last one, and so
  does the model; the two agree exactly when there is at most one (`LastOptionsCombineIff`).
- An accepted remote-boot request is booted exactly when it becomes due before another one overrides
  it (`RequestBootsIff`), and then at the first iteration at which it is due
  (`BootsExactlyWhenFirstDue`). Requests can postpone the boot without limit, but only over one
  connection that is kept half closed, or quickly over new ones (`EagerClientWaits`,
  `OverriddenOverSameConnection`). The exit for a closed connection is never taken
  (`ExitNeverTaken`), because a closed socket is made to listen again before the check.
- What listening, closing, segments and timeouts do to the socket is taken from section 3.10 of
  RFC 9293.

## Model

| member | source | states |
|---|---|---|
| ExecutorObject.Executor.Spawn | src/executor.rs:84-100 | a new task gets the next id, is live and is queued last |
| ExecutorObject.Executor.WakeWaker | src/executor.rs:26-34 | a woken id is in the wake list, once, and the others keep their places |
| ExecutorObject.Executor.RegisterEventForCurrentTask | src/executor.rs:58-67 | the event is staged for the task being polled, once; outside a poll nothing happens |
| ExecutorObject.Executor.DrainAwake | src/executor.rs:103-110 | the live woken ids are appended to the run queue without duplicates and the wake list is emptied |
| ExecutorObject.Executor.PollAndSettle | src/executor.rs:126-153 | old registrations go before the poll, wakes and staged events of the poll are recorded, and staged events move to the registry only if the poll is pending |
| ExecutorObject.Executor.PollTask | src/executor.rs:117-161 | the whole state after one task of the run list has had its turn |
| ExecutorObject.Executor.RunOnce | src/executor.rs:102-165 | the whole state after a round, which polls the queued and then the woken live tasks in order; true if there was any |
| ExecutorObject.Executor.CollectEvents | src/executor.rs:179-184 | the events to wait for: those of the registry, each once, in order of first appearance |
| ExecutorObject.Executor.WaitForEvents | src/executor.rs:167-206 | the run queue after a wait, for every answer of the firmware; stalls exactly if tasks are live, none is woken and none is registered |
| ExecutorObject.Executor.RunFor | src/executor.rs:208-215 | the loop broken off after any number of iterations: the whole state, with any tasks and any answers of the firmware; it has ended before only if no task is left |
| ExecutorObject.Executor.Run | src/executor.rs:208-215 | the loop ends with no task left, as soon as that is the case, within twice the number of remaining polls |
| ExecutorInvariant.ReachableValid | src/executor.rs:75-206 | after any calls, with any tasks: no duplicates in the run queue, the wake list and the registry, only live tasks in queue and registry, nothing staged, no current task |
| ExecutorInvariant.RegistryExact | src/executor.rs:130-160 | after a pending poll a task holds exactly the events of that poll, once each and in order, after a ready one none; the entries of all others keep content and order |
| ExecutorInvariant.RunListLive | src/executor.rs:118-121 | every task of the run list is live at its turn, so the arm that skips it is unreachable |
| ExecutorInvariant.RunOncePollsExactlyOnce | src/executor.rs:102-165 | a round polls each queued or woken live task exactly once and no other; exactly the polled ones that were ready are gone |
| ExecutorInvariant.WaitQueuesExactly | src/executor.rs:191-201 | a successful wait queues exactly the tasks registered on one signalled event, the one whose first entry precedes those of all other signalled events |
| ExecutorQueue.QueueOnlyGrows | src/executor.rs:84-206 | between two rounds the run queue only grows at its end, whatever is called |
| ExecutorQueue.SpawnedInOrder | src/executor.rs:84-117 | tasks get the ids 0, 1, 2 and so on, and the first round polls them in the order in which they were spawned |
| ExecutorQueue.RunListOrder | src/executor.rs:102-117 | a round polls the queued tasks first, in queue order, then the live woken ones, once each, in the order in which they were first woken |
| ExecutorQueue.ActionsInOrder | src/executor.rs:26-67 | every wake and every registration of a poll counts, in its place |
| ExecutorQueue.OwnRegistrations | src/executor.rs:130-153 | the registrations that a pending poll leaves are, entry by entry, its events, once each, as first registered |
| ExecutorQueue.RoundOrder | src/executor.rs:102-165 | after a round the registrations of the other tasks come first, as they were, then those of the polled tasks in the order of polling; the wake list holds the wakes of the round, once each, in order |
| ExecutorQueue.BlocksOnlyWhenIdle | src/executor.rs:208-215 | the loop blocks only if nothing is runnable: otherwise the firmware's answer makes no difference |
| ExecutorQueue.WaitLeavesAlone | src/executor.rs:167-206 | a wait changes nothing if no task is left, one is woken, none is registered, or none of the events is reported |
| ExecutorQueue.WaitQueueOrder | src/executor.rs:191-201 | the tasks registered on the reported event are queued behind the others, in the order of their registrations |
| ExecutorWakeup.NoLostWakeup | src/executor.rs:26-34 | a wake issued from outside or in any poll of a round, the task's own included, is followed by exactly one poll of the task in the next round, if it is still live |
| ExecutorFairness.PollOther | src/executor.rs:130-153 | polling another task takes exactly that task out of those ahead of a registration |
| ExecutorFairness.WaitPicksAhead | src/executor.rs:191-201 | a wait during which the target's event is signalled queues the target or a task ahead of it |
| ExecutorFairness.OvertakingBudget | src/executor.rs:208-215 | while a target is not polled, there are no more successful waits than tasks ahead of it |
| ExecutorFairness.BoundedBypass | src/executor.rs:179-215 | with k other tasks ahead of a registration whose event stays signalled, its task is polled by the iteration after the (k+1)-th successful wait |
| ExecutorTermination.WaitMakesRunnable | src/executor.rs:167-215 | an iteration that polls nothing is followed by one that polls, unless nothing can be waited for |
| ExecutorTermination.RunHalts | src/executor.rs:208-215 | with N polls remaining, run has halted after 2N iterations if it is never stuck and its waits are answered |
| ExecutorTermination.RunHaltsIffNeverStuck | src/executor.rs:186-215 | for finite tasks and answered waits, run halts if and only if it never has live tasks with nothing runnable and nothing registered |
| ExecutorTermination.StuckForever | src/executor.rs:186-189 | once stuck, run keeps stalling for ever with the same tasks |
| ExecutorTermination.ArmedTasksHalt | src/executor.rs:167-215 | finite tasks that register an event or wake themselves at each pending poll never get stuck, and halt within 2N iterations |
| ExecutorTermination.ReachableNoOrphans | src/executor.rs:84-206 | if every future registers an event at each pending poll, every live task is always queued, woken or registered |
| SleepFutures.SleepFuture.Poll | src/futures.rs:39-188 | the first poll registers the events of that kind of sleep in order, keeps the timer and is pending; the second is ready and registers nothing |
| SleepFutures.FirstPollMeaning | src/futures.rs:39-188 | a first poll registers everything that its kind of sleep can register and the firmware supplies, and nothing else: the packet event and the timer; the key event, every mouse in order and the timer; or the timer; a timer with a duration only if it has a tick |
| SleepFutures.FirstPollExample | src/futures.rs:95-134 | with a key event, a mouse and a timer all three are registered |
| SleepFutures.TicksPositive | src/futures.rs:114-115 | short of wrapping 64 bits, a duration has ticks exactly from 100 ns on |
| SleepFutures.NothingRegisteredIff | src/futures.rs:39-188 | the first poll of a sleep registers nothing if and only if the firmware supplies none of its other events and there is no timer, or no tick to count |
| SleepFutures.PlanRegistersIff | src/futures.rs:39-188 | an async block registers an event at each pending poll if and only if each of its awaits is reached with one, by the sleep or by the work before |
| SleepFutures.SleepTasksNeverOrphaned | src/futures.rs:39-188 | with tasks that reach each await with an event registered, no reachable state has an orphaned task and the stall is not entered with nothing queued |
| ExecutorTermination.OrphanAfterRoundIff | src/executor.rs:102-165 | for any tasks: a round leaves a live task neither queued, woken nor registered if and only if no poll of it wakes the task and the task registers nothing in its own poll or, if it is not polled, was not registered |
| ExecutorTermination.OrphanForever | src/executor.rs:102-215 | such a task is never polled again if no other task ever wakes it |
| SleepFutures.PolledTaskOrphanedIff | src/executor.rs:102-165 | among any number of tasks that do not wake it, an async block is left so by a round that polls it if and only if that poll awaits with no event registered and no wake of its own |
| SleepFutures.LonePollStuckIff | src/executor.rs:167-189 | at any poll of a lone task: it is stuck afterwards if and only if that poll awaits with no event registered and no wake of its own |
| SleepFutures.LoneTaskStuckIff | src/futures.rs:39-188 | a lone task whose waits are answered gets stuck at some time if and only if one of its awaits, whichever and of whichever kind, is reached that way |
| SleepFutures.TinyTimersStuck | src/futures.rs:162-188 | a task that awaits timers of 50 ns is stuck from its first poll on, whatever the firmware answers |
| Text.WordsSplit | src/boot.rs:80-81 | whitespace separates words: the words around it are those of the two sides |
| Text.WordsOfJoin | src/boot.rs:80-86 | splitting undoes joining with spaces |
| Text.JoinSingleBlanks | src/boot.rs:86-86 | joined words have single blanks between them and no other whitespace |
| Text.LineSplits | src/boot.rs:74-75 | a newline ends a line, and a carriage return before it goes with it |
| Text.LastLine | src/boot.rs:74-75 | what follows the last newline is a line too, unless it is empty |
| Text.IsSpaceIff | src/boot.rs:75-80 | whitespace is the 25 characters with the White_Space property |
| Text.TrimMeaning | src/boot.rs:75-75 | trimming takes off the whitespace around a text and nothing else |
| BootNext.LinesOfRender | src/boot.rs:462-469 | the line splitter undoes the writer |
| BootNext.QueueMeaning | src/boot.rs:424-432 | the lines of a flag file are the nonblank pieces between its newlines, trimmed, in order, the last piece included; one leading byte order mark does not count |
| BootNext.RenderMeaning | src/boot.rs:462-469 | a queue is written as its lines, each with CR LF after it |
| BootNext.RewriteRoundTrip | src/boot.rs:424-469 | parsing what is written back yields exactly the remaining lines if and only if the first does not start with a byte order mark |
| BootNext.BomIsLost | src/boot.rs:424-427 | otherwise that line comes back without the mark and without the whitespace behind it, or not at all if nothing else is in it; the other lines come back as they were |
| BootNext.PopFlagMeaning | src/boot.rs:379-489 | a file that does not open for writing is passed over, one that is not readable text is left as it is, any other loses its first line and is gone if no line is left |
| BootNext.PopUnterminated | src/boot.rs:424-447 | a file with one line and no newline: the line is popped and the file is gone |
| BootNext.PopDiskMeaning | src/boot.rs:362-507 | one boot pops from one file: that of the first volume that has one, `\bootnext.txt` before `\EFI\bootnext.txt` |
| BootNext.PopDiskNone | src/boot.rs:362-507 | without any such file nothing happens |
| BootNext.PopDiskRefines | src/boot.rs:362-507 | one boot takes the head of the queue formed by the flag files, in volume order and the root file first |
| BootNext.BootsAreFifoIff | src/boot.rs:362-507 | on every disk and over any number of boots, what was popped followed by what is left is what was there, if and only if, ahead of the first file that is not readable text, no line but the first of a file starts with a byte order mark |
| BootNext.BootsDrainTheQueue | src/boot.rs:362-507 | on every disk, after as many boots as the files ahead of the first unreadable one have lines, line-less files counting as one, those files are gone and the others as before |
| BootNext.EveryLinePoppedIff | src/boot.rs:362-507 | by then exactly the lines of those files have been popped, in order, if and only if no mark is out of place in them |
| BootNext.MarkedDiskDamaged | src/boot.rs:424-469 | a bootnext file with a marked second line, and what two boots pop instead of it |
| BootNext.BootsEmptyTheQueue | src/boot.rs:362-507 | and then it takes no fewer boots |
| BootNext.EachLinePoppedAtMostOnce | src/boot.rs:436-507 | with no mark out of place ahead of an unreadable file, no line is popped more often than it occurs, in any number of boots |
| BootNext.NoMorePopsThanLines | src/boot.rs:436-507 | on every disk there are never more pops than lines ahead of an unreadable file |
| BootNext.BlockedFileStopsTheQueue | src/boot.rs:399-421 | on every disk, once the files ahead of the first unreadable one are gone, no further boot changes the disk or pops a line |
| BootEntry.LineMeaning | src/boot.rs:74-97 | a line acts through its words alone: comments, blank lines, unknown keys, empty values and the amount of whitespace change nothing |
| BootEntry.SameWordsSameMeaning | src/boot.rs:75-86 | lines that differ in whitespace alone do the same |
| BootEntry.ParseMeaning | src/boot.rs:70-97 | the last linux and options values win, the initrd values are kept in order |
| BootEntry.ParseConcat | src/boot.rs:74-97 | parsing distributes over concatenation of line lists |
| BootEntry.EntryMeaning | src/boot.rs:70-97 | what a whole entry file says, piece by piece between its newlines |
| BootEntry.EntryExample | src/boot.rs:70-97 | an entry with a kernel and its options |
| BootEntry.FinalOptionsWords | src/boot.rs:109-119 | the words of the command line are those of the last options value, then those of each initrd item in file order |
| BootEntry.FinalOptionsExact | src/boot.rs:109-119 | the command line is exactly these words with single blanks between them |
| BootEntry.CommandLineExample | src/boot.rs:111-119 | a command line with an image to load |
| BootEntry.LastOptionsCombineIff | src/boot.rs:91-94 | keeping the last options line agrees with combining all of them if and only if there is at most one |
| BootSearch.SearchOkIff | src/boot.rs:254-348 | boot_os returns Ok if and only if the attempt on some volume succeeds, and NOT_FOUND otherwise |
| BootSearch.SearchStopsAtFirst | src/boot.rs:254-348 | volumes after the first success make no difference |
| BootSearch.SearchEndsWith | src/boot.rs:254-348 | the image left running is that of the first volume whose attempt succeeds |
| BootSearch.ReadFileMeaning | src/boot.rs:46-68 | which files can be read, and the status of each failure |
| BootSearch.EntryOkIff | src/boot.rs:41-201 | an entry is booted if and only if its file is readable text, a line names a kernel, the kernel that the last such line names, slashes turned round, is readable, the options fit and no firmware step fails; then exactly that image is loaded and started with these options |
| BootSearch.EntryUnusable | src/boot.rs:46-144 | the status of an entry that cannot be read, is not text, or names no kernel that can be read |
| BootSearch.EntryLaunch | src/boot.rs:146-200 | the status and the image calls for each firmware step that fails first |
| BootSearch.EntryBoots | src/boot.rs:109-200 | an entry whose kernel path has a slash boots the file of the path with a backslash |
| BootSearch.FileMeaning | src/boot.rs:276-345 | a file that is no entry: its status and image calls for every failure |
| BootSearch.VolumeMeaning | src/boot.rs:255-275 | a path is taken for an entry if and only if it ends in `.conf` or `.CONF` |
| BootSearch.EntryConserves | src/boot.rs:148-200 | the entry loader unloads exactly once what it loaded, on every error |
| BootSearch.SearchConserves | src/boot.rs:254-348 | on an error every image loaded has been unloaded exactly once; on success exactly the started one is left |
| BootSearch.DirectConserves | src/boot.rs:148-241 | over all the attempts of boot_linux_direct each image is loaded at most once, and unloaded exactly once unless its attempt returned Ok |
| BootSearch.OneImagePerOkTrial | src/boot.rs:234-241 | as many images stay loaded as attempts returned Ok |
| BootSearch.StableSortIsPartition | src/boot.rs:227-232 | the outcomes that a stable sort by the fallback key allows are exactly one: the other entries, then the fallback ones |
| BootSearch.VolumeEntriesOnce | src/boot.rs:222-240 | the entries of a volume are each tried once, in stable order |
| BootSearch.DirectOrderMeaning | src/boot.rs:211-241 | the attempts on any one volume are its entries, fallback ones last, whatever the attempts return |
| BootSearch.DirectOrderSorted | src/boot.rs:211-241 | the volumes are taken in order |
| BootSearch.DirectTries | src/boot.rs:211-241 | on each volume exactly the directory's names in `.conf` up to the first read error are tried, once each, those without `fallback` first and otherwise in the order of the directory |
| BootMachine.TrialStep | src/boot.rs:234-240 | each of these attempts is made on its own volume with its own path |
| BootMachine.Machine.ParseEntryFile | src/boot.rs:70-97 | the loop computes the parse of the entry file |
| BootMachine.Machine.AssembleOptions | src/boot.rs:111-119 | the loop computes the kernel command line |
| BootMachine.Machine.BootLinuxFromEntryFile | src/boot.rs:41-201 | the result and the image calls of one entry, for every answer of the firmware |
| BootMachine.Machine.BootOs | src/boot.rs:246-349 | the result and the image calls of the search through the volumes |
| BootMachine.Machine.BootLinuxDirect | src/boot.rs:203-244 | the entries tried, in order, and their image calls; an Ok does not end the loop |
| BootMachine.Machine.PopFlagFile | src/boot.rs:379-489 | one flag file popped and rewritten, or left alone |
| BootMachine.Machine.WriteLines | src/boot.rs:462-469 | the loop writes each line followed by CR LF |
| BootMachine.Machine.CheckAndProcessBootnext | src/boot.rs:351-508 | the disk is advanced by one pop, and boot_os is called once with the popped path and the advanced disk |
| BootMachine.Machine.Reboot | src/boot.rs:351-508 | over any number of calls, boot_os is called with exactly the lines that the queue pops, in order and slashes turned round; with no mark out of place these are the first of the lines in the files, each attempted once even if every boot fails |
| LogBuffer.Logger.Log | src/main.rs:48-104 | what is stored after a message, in the pending buffer or the window; it panics exactly if the cut falls inside a character |
| LogBuffer.Logger.InstallWindow | src/main.rs:332-338 | the handover changes where the log is stored and nothing of what is stored |
| LogBuffer.AppendKeeps | src/main.rs:72-80 | one message keeps the property below, and the cut always finds a newline |
| LogBuffer.TruncateMeaning | src/main.rs:72-80 | what a truncation keeps of any text, with or without a newline in its last 4000 bytes |
| LogBuffer.EnabledIff | src/main.rs:44-51 | exactly the messages up to the level of information are stored |
| LogBuffer.FormatMeaning | src/main.rs:53-53 | a line is the level in brackets, padded to five characters, a colon, the text and a newline |
| Octets.BoundaryIff | src/main.rs:73-75 | a text can be cut exactly where what is in front of the cut is valid UTF-8 |
| LogBuffer.Logger.Replay | src/main.rs:48-104 | from its creation on, through any messages and the handover anywhere among them, the logger panics exactly if some cut falls inside a character, and otherwise stores all that it can of the stream |
| LogBuffer.LogKeepsAllItCan | src/main.rs:53-102 | the stored log is a line-aligned suffix of the whole stream of at most 4000 bytes that contains every such suffix of fewer than 4000, wherever the handover falls |
| LogBuffer.AsciiAlwaysFits | src/main.rs:73-80 | ASCII messages never make a cut panic |
| LogBuffer.NonAsciiCanPanic | src/main.rs:73-80 | a message that does |
| RemoteBoot.NetworkTask.Iterate | src/main.rs:123-187 | the new state and the boot of one iteration |
| RemoteBoot.ConnectionGoneIff | src/main.rs:155-180 | the check finds the connection closed or in TIME-WAIT if and only if the iteration answered a request on a socket without a connection |
| RemoteBoot.DueSinceIff | src/main.rs:177-182 | when a request is due: all sent after 100 ms, in any case after 500 ms, or after an answer without a connection |
| RemoteBoot.ExitNeverTaken | src/main.rs:155-182 | as nothing is received without a connection, the exit for a connection that is gone is never taken, and a request is due exactly when all is sent and 100 ms have passed, or 500 ms have |
| RemoteBoot.ArmedIff | src/main.rs:124-186 | selection and time are set together, exactly while an accepted request has not fired, and are those of the latest one |
| RemoteBoot.BootsExactlyWhenFirstDue | src/main.rs:166-186 | an iteration boots a selection if and only if it is the first at which the latest accepted request, which made that selection, is due |
| RemoteBoot.RequestBootsIff | src/main.rs:166-186 | an accepted request is booted if and only if it becomes due before another one overrides it |
| RemoteBoot.BootUsesLatestSelection | src/main.rs:166-186 | a boot is for the most recent selection since the last boot |
| RemoteBoot.BootsNeverOutnumberPosts | src/main.rs:166-186 | boots never outnumber accepted requests |
| RemoteBoot.FiresByDeadline | src/main.rs:175-186 | a request that is not overridden has fired by the first iteration 500 ms later |
| RemoteBoot.EarlyOnlyWhenSent | src/main.rs:175-186 | it fires earlier only if all is sent and 100 ms have passed, or a request was answered without a connection |
| RemoteBoot.NoBootIff | src/main.rs:166-186 | nothing is booted in any number of iterations if and only if the latest request is due at none of them |
| RemoteBoot.RequestsPostponeIff | src/main.rs:166-182 | a new request at every iteration postpones the boot for ever if and only if each comes over a connection |
| RemoteBoot.RequestsAlwaysPostpone | src/main.rs:166-182 | so a new request at every iteration always postpones the boot |
| RemoteBoot.OverriddenOverSameConnection | src/main.rs:154-186 | a request is overridden without having been booted only over its own half-closed connection, or over a new one for which the socket was free within 100 ms |
| RemoteBoot.EagerClientWaits | src/main.rs:154-186 | a client that sends a request every 400 ms over one connection and acknowledges nothing, the loop waking every 10 ms: all of it can come, and none of the requests is ever booted |
| RemoteBoot.EagerClientServed | src/main.rs:166-186 | the last of them is booted once the client has been silent for long enough |
| Cursor.SaveBackground | src/slint_plat.rs:379-390 | every visible pixel under the cursor is saved at the place of the cursor pixel on it |
| Cursor.DrawCursor | src/slint_plat.rs:393-408 | the buffer becomes the frame overlaid with the visible part of the mask |
| Cursor.RestoreBackground | src/slint_plat.rs:420-430 | exactly the pixels under the cursor get their saved values back |
| Cursor.ShowFrame | src/slint_plat.rs:375-431 | the screen gets the overlaid frame, and the buffer ends as the rendered frame |
| Cursor.OverlayByCoordinates | src/slint_plat.rs:395-406 | at the coordinates of any visible cursor pixel the overlay is white where the mask says 1, black where it says 2, and otherwise the frame |
| Cursor.OverlayElsewhere | src/slint_plat.rs:395-406 | away from the cursor the overlay is the frame |
| Cursor.PointerMoves | src/slint_plat.rs:288-335 | each mouse report moves the pointer by its two numbers times the sensitivity, from the middle of the screen, as far as the cursor fits |
| Cursor.CursorAlwaysOnScreenIff | src/slint_plat.rs:288-335 | the whole cursor is on the screen after every sequence of mouse reports if and only if the screen has at least 23 x 37 pixels |
| Blend.BlendPixel | src/slint_plat.rs:156-160 | a pixel blended in place stays within 8 bits per channel, and no other pixel changes |
| Blend.ChannelFitsIff | src/slint_plat.rs:156-160 | products fit 16 bits, and sums fit 8 bits over every background if and only if the colour is premultiplied |
| Blend.BlendIsFloor | src/slint_plat.rs:156-160 | a blended channel is the exact blend rounded down |
| Blend.CompositeError | src/slint_plat.rs:156-160 | over n layers the integer result is at most the exact composite and off by less than n |
| Http.Serialize | src/web.rs:39-57 | the bytes of a response |
| Http.WrittenForm | src/web.rs:39-57 | the text of a response around any one of its header fields |
| Http.WrittenBare | src/web.rs:39-57 | the text of a response without header fields |
| Http.DecimalLeads | src/web.rs:35-35 | a number is printed without leading zeros |
| Http.DecimalRoundTrip | src/web.rs:35-35 | reading a printed number back |
| Http.BodyDeclaresLength | src/web.rs:32-37 | body() adds the length of the body to the lengths declared, which is that of the bytes after the blank line if these are valid UTF-8; nothing else that frames the body changes |
| Http.ResponseRoundTripIff | src/web.rs:27-57 | parsing a printed response by RFC 9112 recovers status, headers in order and body if and only if the status has three digits, status and headers frame the body by its section 6.3, and the body is valid UTF-8 |
| Http.BodyRoundTripIff | src/web.rs:20-57 | with the body set by body(): if and only if the status has three digits, the body is valid UTF-8, it is empty for a status that allows none, and for any other no header says that it is chunked or declares another length without a transfer coding |
| Http.NoContentLosesBody | src/web.rs:32-57 | a 204 response whose body is sent and read as empty |
| Http.RequestsAnswered | src/web.rs:60-96 | every complete request is answered readably, with exactly these header fields: the page as text/html, OK as text/plain with the selection of exactly the two boot paths, or 404; all with Connection: close |

## Left out

- Firmware calls themselves (protocols, timers, console, graphics output, device paths): they appear as parameters only.
- File names that differ in letter case or are not in normal form: a path is looked up as it is written.
- Failed deletion, re-creation or writing of a bootnext file: these are taken to succeed.
- Changes that other programs make to the volumes between boots.
- Several executors sharing the statics, and wrap-around of the task id counter: the program has one executor with two tasks.
- Loss of the window after the log has been handed to it, and the copy of the log on the console.
- `src/net.rs`, the TCP/IP stack and the HTTP request parser: the socket after each poll of the network and the parsed method and path are inputs; that listening, opening and closing fail nowhere is taken for granted.
- Responses to HEAD and CONNECT requests, to which section 6.3 of RFC 9112 gives other rules: the program answers both with an empty 404.
- Rendering, key translation, the order of window events, graphics mode and scale factor, the timer frequency.
- The particular cursor shape: the compositing theorems hold for every 12 x 19 mask.
- Rounding of `f32` pointer coordinates.
- Debug builds, in which the subtraction in the pointer clamp panics on a screen smaller than the cursor instead of wrapping.
- The HTML page: any valid UTF-8 text.
