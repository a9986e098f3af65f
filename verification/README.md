# Verified model of the NervesHub link agent

A Dafny model of what a device running the agent has to get right, and proofs about it:

- the A/B scheme: fwup's tasks, the two u-boot environments, the boot script and its counter, and
  the agent's start-up correction and report (`BootEnv`, `Fwup`, `Device`, `Rollback`,
  `SlotSafety`, `FwupText`), and the RAUC boot script (`RaucBoot`);
- text and queues: the shell's UTF-8 reader and the script-output limit (`Utf8`, `ShellReader`,
  `Truncate`), and the log buffer (`LogBuffer`);
- conversations: installs across sessions (`AgentSession`), extension negotiation
  (`Negotiation`), the local socket's controller slot and its questions (`IpcController`,
  `IpcQuestions`);
- wire encodings: the shared-secret payload and token (`TermFormat`, `Base64Url`).

Code that changes state step by step is a class whose methods follow it, each proved equal to a
specification function on values. The claims about whole runs are lemmas about those functions
over arbitrary event lists: power cuts, failed sends, crashes and reconnects are events like any
other.

Some properties hold only under a condition, and the condition is proved to be exact:

- An install may start exactly when the disk names the running slot and a rollback, where one can
  still happen, would return to it. If the disk block may also be unreadable at a boot, the running
  slot must be A besides, or u-boot must already be bound to stay on it
  (`SlotSafety.InstallIsSafeExactlyWhen`). The agent does not check this; outside it, a run of
  power cuts can end in a half-written slot.
- A finished install can still be entered exactly when the firmware is not the one a rollback was
  recorded against, no agent restart corrected the environment, and the countdown has not run out;
  where blocks may be unreadable a correction does not keep slot A out, nor a countdown held
  against other firmware (`SlotSafety.FinishedInstallCanBeEnteredExactlyWhen`). Otherwise nothing
  ever enters it (`SlotSafety.UndoneInstallIsNeverEntered`).
- An unreadable block disarms the counter, so with one at every second boot an unvalidated slot A is
  entered for ever (`SlotSafety.UnreadableBlocksResetTheCountdown`). The previous slot is entered
  within the allowed attempts exactly when a rollback is due already, or the slot is B and no
  override of other firmware leads into it (`SlotSafety.ProbationIsBoundedExactlyWhen`).
- A validated firmware is rolled back all the same exactly when the count stored in flash has run
  out by the next completed boot (`Rollback.ValidationComesTooLateExactlyWhen`).
- When the pty closes, no text is lost exactly when the reads before the last had, wherever they
  are cut, a chance to skip each ill-formed subpart with text behind it
  (`ShellReader.EndOfInputLosesTheCarry`); one stray byte in the last read is enough to lose some.
- The controller slot can be free again exactly when no controller's Welcome failed to be written
  (`IpcController.FreedAgainExactlyWhen`, `IpcController.LeakedExactlyWhen`).
- The update tool can never come back exactly when an install task crashed
  (`AgentSession.ToolNeverReturnsExactlyWhen`).
- A waiting log backlog drains exactly when the batch size is at least one (`LogBuffer.DrainsExactlyWhen`).
- A printed environment parses back exactly when each variable survives on its line
  (`FwupText.ParsesBackExactlyWhen`).

Where documentation and code differ, the model follows the code. docs/fwup.md:195-199 counts three
boots of an unvalidated slot; the repository does not say what u-boot holds in `bootcount` while
the counter is disarmed, so that value is a parameter (`idle`) and `Rollback.FreshUpdateGetsItsBoots`
gives both readings. src/extensions/mod.rs:185-186 says a device with nothing to offer never joins
the extensions channel; src/agent.rs:437-446 joins when asked, with an empty offer: exactly when an
advertisement arrives before the channel closes (`Negotiation.NothingEnabledStillJoinsWhenAsked`).
src/agent.rs:572-575 says a lost install starts again from a known state; the tool does not come
back (`AgentSession.BereftForGood`). src/shared_secret.rs:34 calls the protected header the encoding
of a JSON object; it is the encoding of the five letters HS256 (`Base64Url.ProtectedIsTheHeader`).
The comment at test/device/boot.cmd:78-82 gives the reason for telling Linux that a slot it was
rolled back to is validated; the boot that rolls back does not tell it so yet
(`Rollback.RollbackTellsTheFailedFlag`).

## Model

| member | source | states |
|---|---|---|
| BootEnv.Uboot.RunScript | test/device/boot.cmd:31-129 | the script's saved environment, booted slot and command-line flag, for readable and unreadable disk blocks, in every branch |
| BootEnv.Uboot.CountBoot | test/device/boot.cmd:14-20 | the counter is stored only while armed, and altbootcmd runs once it passes the limit |
| BootEnv.EntersExactly | test/device/boot.cmd:34-129 | the slot a power-up enters: the previous one when a rollback is due, else the recorded one, else the active one, or A when the block cannot be read |
| BootEnv.ToldValidatedExactlyWhenDisarmed | test/device/boot.cmd:53-129 | Linux is told "validated" if and only if u-boot has stopped counting; only the boot that rolls back passes on the abandoned firmware's flag |
| BootEnv.CountsExactlyWhen | test/device/boot.cmd:53-107 | the counter is left armed if and only if an unvalidated slot was entered that is neither a rollback nor an override; its count and limit |
| BootEnv.RemembersExactly | test/device/boot.cmd:56-73 | what is remembered of a rollback, and until when |
| BootEnv.KeepsACopy | test/device/boot.cmd:34-43 | u-boot's stored copy of the disk's variables after a power-up |
| Fwup.Disk.Complete | test/device/fwup.conf:99-124 | the factory task: slot A whole, active, validated, nothing else set |
| Fwup.Disk.StartUpgrade | test/device/fwup.conf:128-130 | at most one upgrade task is enabled, and it writes the slot that is not active |
| Fwup.Disk.FinishUpgrade | test/device/fwup.conf:131-161 | the on-finish block: the written slot active, unvalidated, its record set, the other recorded as previous |
| Fwup.Disk.Validate | test/device/ops.conf:35-39 | validation changes the flag and nothing else |
| Fwup.Disk.Reconcile | src/update_tool/fwup.rs:122-150 | for the slot the boot script passes: the active slot becomes the booted one, or the environment is untouched when the write fails |
| Device.Rig.Do | test/device/boot.cmd:31-129 | script, fwup tasks and agent together do exactly what one step of the device machine says |
| Rollback.RollbackFires | test/device/boot.cmd:53-66 | past the limit a readable disk boots the previous slot and records it against the firmware it names |
| Rollback.RollbackTellsTheFailedFlag | test/device/boot.cmd:76-84 | the boot that rolls back tells Linux the failed firmware's flag; every later one says validated |
| Rollback.RollbackIsDurable | test/device/boot.cmd:45-84 | for as long as the disk names no other firmware, every power-up enters the recorded slot and the counter stays off, across cuts, corrections, validations, unreadable blocks and unfinished installs |
| Rollback.OverrideEndsWithOtherFirmware | test/device/boot.cmd:68-73 | the record ends exactly when a readable disk names other firmware, which is then booted on probation |
| Rollback.ProbationIsExact | test/device/boot.cmd:85-106 | an unvalidated slot is entered exactly as often as the counter allows, the previous slot ever after |
| Rollback.FreshUpdateGetsItsBoots | docs/fwup.md:191-200 | from a disarmed counter an unvalidated slot gets exactly 3 boots or exactly 4, by what u-boot counts in memory |
| Rollback.ProbationIsBounded | test/device/boot.cmd:85-106 | while the disk can be read, power cuts during boots never give an unvalidated slot more attempts, whatever u-boot holds in memory |
| Rollback.ValidationComesTooLateExactlyWhen | test/device/boot.cmd:53-96 | a validated firmware is rolled back at the next completed boot if and only if the stored count and the cuts since exceed the limit |
| Rollback.SettledForGood | test/device/boot.cmd:86-90 | once a validated boot completed, no run in which no install finishes ever rolls back |
| Rollback.ValidatedInTimeIsNeverRolledBack | test/device/ops.conf:35-39 | validated before the countdown has run out, and booted once more, nothing rolls a firmware back before an install finishes |
| SlotSafety.MayBootIsReached | test/device/boot.cmd:34-97 | every slot the environments leave possible is really entered by some run of boots and cuts, with readable blocks only or with any |
| SlotSafety.OnlyMayBoot | test/device/boot.cmd:34-97 | and no such run enters any other slot |
| SlotSafety.InstallIsSafeExactlyWhen | src/update_tool/fwup.rs:91-102 | once an install has begun, the running image and every image a run of boots and cuts can enter are whole if and only if the stated condition held: one for readable blocks, one for all |
| SlotSafety.UnsafeInstallCanBrick | test/device/fwup.conf:126-162 | otherwise the running image is overwritten or some run boots a half-written slot |
| SlotSafety.SecondInstallOverwritesRunningSlot | test/device/fwup.conf:126-162 | from the factory, a second install started without an agent restart leaves the running slot half written |
| SlotSafety.ReadableIsASpecialCase | test/device/boot.cmd:34-43 | what is safe whatever blocks are like is safe for readable ones |
| SlotSafety.RunsAndReportsWholeImages | src/update_tool/fwup.rs:585-598 | in every run from the factory whose installs start under that condition, with readable blocks or with any, what boots is a whole image and the reported uuid is that image's, also after a rollback |
| SlotSafety.UnfinishedInstallChangesNothingThatRuns | test/device/fwup.conf:128-144 | an install cut off before on-finish changes no boot of any later run of boots and cuts nor, when the disk names the running slot, the running image |
| SlotSafety.FinishedInstallIsEnteredExactlyWhen | src/update_tool/fwup.rs:127-141 | after any restarts, validations and cuts, the next boot enters a finished install if and only if: on a readable block, no correction came before power was lost, no rollback is recorded against its uuid and the countdown has not run out; on an unreadable one, it is in slot A and u-boot has no override or rollback to carry out |
| SlotSafety.FinishedInstallCanBeEnteredExactlyWhen | test/device/boot.cmd:34-97 | some run of boots and cuts enters it if and only if the stated condition holds, for readable blocks and for all |
| SlotSafety.FinishedInstallIsOnProbation | test/device/fwup.conf:138-160 | a finished install is entered exactly as often as the counter allows, and the slot it was installed from ever after |
| SlotSafety.UndoneInstallIsNeverEntered | test/device/boot.cmd:53-84 | otherwise no run of boots, cuts, restarts and validations ever leaves the old slot, with readable blocks or with any |
| SlotSafety.RestartAbandonsInstall | src/update_tool/fwup.rs:103-151 | after an agent restart an unfinished install writes and records nothing more |
| SlotSafety.InstallKeepsItsTarget | test/device/fwup.conf:128-131 | while an install is under way no other starts, and only its own slot is written |
| SlotSafety.UnreadableBlocksResetTheCountdown | test/device/boot.cmd:34-43 | with every second block unreadable, an unvalidated slot is entered without end, slot A at every power-up and the previous slot at none |
| SlotSafety.ProbationIsBoundedExactlyWhen | test/device/boot.cmd:34-106 | in every run of boots and cuts the unvalidated slot gets no more than its attempts before the previous one is entered, if and only if a rollback is due already or it is slot B and no override leads into it |
| SlotSafety.UnreadableBootIsWholeExactlyWhen | test/device/boot.cmd:34-43 | an unreadable block during an install boots a whole image if and only if slot A is running, an override is recorded, or a rollback is due |
| RaucBoot.RaucUboot.RunScript | test/device/rauc-boot.cmd:60-104 | for counts up to nine: the first slot of the order with attempts left is booted and pays one, or a is booted with one put back; everything is saved |
| RaucBoot.SomeSlotAlwaysBoots | test/device/rauc-boot.cmd:72-102 | a slot is always chosen, and every boot that is not the fallback lowers the total by one |
| RaucBoot.BootsIsAFunction | test/device/rauc-boot.cmd:74-102 | the choice is determined by order and counts |
| RaucBoot.AttemptSequence | test/device/rauc-boot.cmd:74-104 | for counts up to nine, the runs of boots are exactly: all of the first slot's attempts, all of the second's, then a forever |
| RaucBoot.FreshDeviceSequence | test/device/rauc-boot.cmd:60-104 | a device that was never updated boots a three times, b three times and a ever after |
| RaucBoot.SetVariablesStand | test/device/rauc-boot.cmd:60-70 | set variables stand, unset ones default to the order a b and three attempts |
| FwupText.ParsesBackExactlyWhen | src/update_tool/fwup.rs:437-454 | parsing printed variables gives them back, in order, if and only if each is one line, has no equals sign in its name nor a hash before it, and nothing at its ends that is trimmed or unquoted |
| FwupText.PrintedIsRead | src/update_tool/fwup.rs:437-454 | under every name the agent sees the last value stored, trimmed and unquoted, whatever the values are |
| FwupText.TrimTakesOffSpace | src/update_tool/fwup.rs:440-451 | trimming takes off white space only, and all of it |
| FwupText.UnquoteTakesOffQuotes | src/update_tool/fwup.rs:451 | unquoting takes off double quotes only, and all of them |
| FwupText.ReconcileActiveSlot | src/update_tool/fwup.rs:103-151 | the write asked of fw_setenv at start-up, for any command line and any environment, read or not |
| FwupText.CorrectionAgreesExactlyWhen | src/update_tool/fwup.rs:114-125 | only the variable the image keeps its active slot in changes; the booted slot is then read there, and the next start writes nothing, if and only if the slot name has no double quote at either end |
| FwupText.CorrectionReachesTheImage | src/update_tool/fwup.rs:114-125 | the write reaches the variable fwup reads: `nerves_fw_active` for an image that keeps only that, and no second name beside it; `fw_active` for every other |
| FwupText.CorrectionWithoutKnowledge | src/update_tool/fwup.rs:104-125 | no slot on the command line leads to no write, an unreadable environment to one |
| FwupText.CorrectionOfDisk | src/update_tool/fwup.rs:103-141 | on a device the write is none when disk and boot agree and else sets fw_active to the booted slot |
| FwupText.SlotComesBack | src/update_tool/fwup.rs:496-503 | the booted slot is recovered from the kernel command line the boot script writes |
| FwupText.RestComesBack | test/device/boot.cmd:109-129 | the flag, the slot under RAUC's name and the partition come back from the command line and agree |
| FwupText.NervesNamePasses | src/update_tool/fwup.rs:106-110 | a command line without `fw_slot` names the slot by its first `nerves_fw_slot` |
| FwupText.FieldIsFirstSet | src/update_tool/fwup.rs:538-546 | a field is the first set of its four names, `fw_` before `nerves_fw_` and the slot's before the bare one |
| FwupText.FlagExactlyWhen | src/update_tool/fwup.rs:518-530 | only "1" confirms and only "0" is pending, `fw_validated` before `nerves_fw_validated` |
| FwupText.ReportIsAboutTheBootedSlot | src/update_tool/fwup.rs:518-598 | from any listing of the disk's variables, others with any one-line values among them and in any order, and the command line, the agent reports the booted slot's record and the disk's validation flag |
| FwupText.EmptySlotReportsTheBareUuid | src/update_tool/fwup.rs:585-598 | an empty slot name on the command line leads to the bare record |
| FwupText.NothingPassedReportsTheActiveSlot | src/update_tool/fwup.rs:590-594 | without a slot on the command line the record of the disk's active slot is reported |
| FwupText.FactoryPrintsAListing | test/device/fwup.conf:104-124 | what task `complete` writes prints as such a listing, whatever the firmware is called |
| Utf8.WellFormedExactlyWhenEncoded | src/extensions/local_shell.rs:220 | what the validator accepts is exactly the encodings of scalar values |
| Utf8.IllIsMaximalSubpart | src/extensions/local_shell.rs:226-236 | what is skipped is the maximal ill-formed subpart |
| Utf8.ShortExactlyWhenBegun | src/extensions/local_shell.rs:230-234 | the validator asks for more exactly when the rest begins a character |
| Utf8.DecodedIsWellFormed | src/extensions/local_shell.rs:219-241 | dropping ill-formed subparts leaves well-formed text |
| Utf8.DecodesToItselfExactlyWhen | src/extensions/local_shell.rs:220-225 | a buffer decodes to itself if and only if it is well-formed |
| ShellReader.Reader.TakeComplete | src/extensions/local_shell.rs:219-241 | text out, at most one ill-formed subpart gone, the rest kept |
| ShellReader.Reader.Forward | src/extensions/local_shell.rs:178-210 | one message for each read that completes some text, as many as the receiver takes; they are non-empty and well-formed, and together are what the reads decode to unless the receiver left |
| ShellReader.MessagesArePrompt | src/extensions/local_shell.rs:188-197 | each read's text goes out with that read |
| ShellReader.ReadsUpToTheEnd | src/extensions/local_shell.rs:184-206 | interrupted reads make no difference, and the end of input or a failure ends the reading |
| ShellReader.ChunkIndependent | src/extensions/local_shell.rs:183-199 | however the input is cut, what was sent and what any continuation will decode to is what the whole would |
| ShellReader.GoodInputComesOutWhole | src/extensions/local_shell.rs:212-218 | input without ill-formed subparts comes out byte for byte with at most three bytes waiting |
| ShellReader.SkippingLagsBehind | src/extensions/local_shell.rs:230-236 | exactly how many ill-formed subparts a run of reads has skipped and how many pile up in the carry |
| ShellReader.EndOfInputLosesTheCarry | src/extensions/local_shell.rs:185 | nothing is lost at the end if and only if every cut of the reads before the last leaves a chance for each ill-formed subpart with text behind it |
| Truncate.TruncateOutput | src/scripts.rs:221-236 | fitting text is unchanged; otherwise the longest well-formed prefix within the limit, at most three bytes short of it, and the notice |
| Truncate.BoundaryExactlyWhenText | src/scripts.rs:226-230 | the places a text may be cut are exactly those with text on their left |
| LogBuffer.Pending.Push | src/extensions/logging.rs:265-273 | appended, the oldest dropped and counted past the capacity, the gap's start kept |
| LogBuffer.Pending.Batch | src/extensions/logging.rs:288-308 | the first entries waiting, notice included, up to the cap |
| LogBuffer.Pending.MarkSent | src/extensions/logging.rs:312-324 | exactly the entries that went are forgotten |
| LogBuffer.Pending.Flush | src/agent.rs:594-613 | one message when attached and something waits, forgotten only if it went |
| LogBuffer.StreamIsAccountedFor | src/extensions/logging.rs:232-334 | over any run, delivered lines and the lines delivered notices count are a prefix of what was pushed; the unreported gap and the waiting lines are the rest |
| LogBuffer.GapStartsAtItsFirstDrop | src/extensions/logging.rs:265-273 | over any run of pushes the newest lines are kept, the others counted, and the gap is dated by the push that dropped the first |
| LogBuffer.FlushLowersBacklog | src/extensions/logging.rs:288-329 | a batch holds exactly min(cap, waiting) entries and lowers the backlog by that |
| LogBuffer.BacklogDrains | src/extensions/logging.rs:220-230 | the backlog after n flushes is what n full messages leave |
| LogBuffer.AFewFlushesEmptyIt | src/extensions/logging.rs:225-230 | one flush more than PENDING_BATCHES empties any buffer |
| LogBuffer.BufferHoldsFiveBatches | src/extensions/logging.rs:225-230 | the buffer is sized for five batches, saturating at the machine's largest number |
| LogBuffer.ZeroBatchNeverDrains | src/extensions/logging.rs:288-308 | with a batch size of zero nothing ever leaves |
| LogBuffer.DrainsExactlyWhen | src/extensions/logging.rs:288-329 | a backlog drains if and only if the batch size is at least one or nothing waits |
| AgentSession.AgentObject.OpenSession | src/agent.rs:352-378 | what a session joins with, from the tool or from the caches |
| AgentSession.AgentObject.OnUpdate | src/agent.rs:747-866 | guard, decision, `started`, and the tool moved into the job |
| AgentSession.AgentObject.OnFinished | src/agent.rs:566-583 | the tool put back and the outcome reported, or the loss noticed |
| AgentSession.AgentObject.OnRebootAsked | src/agent.rs:510-520 | an operator's reboot waits for an install, an application's does not |
| AgentSession.AgentObject.OnMarkValid | src/agent.rs:629-644 | validation only with the tool present |
| AgentSession.RunsAreInOrder | src/agent.rs:340-656 | in every run: who owns the tool, that the caches are there, and that all acts are in order |
| AgentSession.ActsExactlyWhenCaused | src/agent.rs:340-993 | in every run each kind of act (join, report, spawn, validation, reboot) has happened exactly as often as it was caused; a reboot after an install only by a decision to reboot |
| AgentSession.SessionJoinsWithWhatRuns | src/agent.rs:363-376 | with the tool present a session joins with what the tool says is running |
| AgentSession.CachesAgree | src/agent.rs:200-215 | the cached parameters are always those of the cached firmware |
| AgentSession.SessionLastsExactlyWhen | src/agent.rs:352-656 | when an agent is in session after each event |
| AgentSession.EveryTaskEndsOnce | src/agent.rs:847-863 | every job spawned returned, was lost, or is the one in flight |
| AgentSession.EveryReturnIsReportedOnce | src/agent.rs:868-934 | one completed or failed for each job that returned, and no post-install reboot without a completion |
| AgentSession.EveryTaskWasAnnounced | src/agent.rs:812-833 | one `started` before each job, more only once the tool is lost |
| AgentSession.MidInstallSessionCanJoin | src/agent.rs:363-371 | a session opened mid-install joins with what was running when it began |
| AgentSession.CachesLastThroughAnInstall | src/agent.rs:200-215 | whatever happens, caches and the single install last until its outcome is taken |
| AgentSession.BereftForGood | src/agent.rs:572-583 | after a lost job nothing is installed, reported or validated again |
| AgentSession.ToolNeverReturnsExactlyWhen | src/agent.rs:566-583 | in every life of an agent the tool can never come back, whatever follows, if and only if an install task crashed |
| Negotiation.Extensions.Attach | src/extensions/mod.rs:223-234 | the offered keys of the list are attached and confirmed, in order |
| Negotiation.Extensions.Handle | src/extensions/mod.rs:253-281 | a request is recognised only for an attached extension |
| Negotiation.SessionLoop.OnAdvertisement | src/agent.rs:437-446 | the first advertisement is answered with the join |
| Negotiation.SessionLoop.OnDeadline | src/agent.rs:540-550 | the deadline joins with everything offered, if no join went |
| Negotiation.SessionLoop.OnReply | src/link.rs:323-343 | a reply to the join replaces the attached keys and confirms each |
| Negotiation.SessionLoop.OnPush | src/link.rs:345-348 | an event is served when its extension is attached |
| Negotiation.AtMostOneJoin | src/agent.rs:394-446 | however advertisements and the deadline interleave, at most one join |
| Negotiation.JoinsExactlyWhenAsked | src/agent.rs:421-550 | a session joins if and only if, on an open channel, an advertisement came, or the deadline passed after the device joined with something to offer |
| Negotiation.OfferIsExact | src/extensions/mod.rs:110-119 | in every session the join answers the first advertisement or the deadline, and offers exactly the enabled keys that advertisement does not rule out, at this agent's versions |
| Negotiation.OlderLoggingIsNotOffered | src/extensions/mod.rs:95-104 | no session answers a platform that advertises only older logging with an offer of logging |
| Negotiation.AttachedIsLatest | src/extensions/mod.rs:223-245 | the attached keys are the offered ones of the latest accepted list |
| Negotiation.ServesOnlyWhatBothWant | src/agent.rs:594-613 | every request served and every log message is for a key config enables and the latest list names |
| Negotiation.RecognisedExactlyWhen | src/extensions/mod.rs:253-281 | each event is the request of its name, with its contents, if and only if its extension is attached |
| Negotiation.DeclaredVersions | src/extensions/mod.rs:88-130 | logging is declared at 0.1.0 and the other four at 0.0.1 |
| Negotiation.EmitsExactlyWhen | src/agent.rs:437-613 | when a session joins, confirms, serves and ships, and nothing else |
| Negotiation.EachAttachedIsConfirmed | src/link.rs:323-343 | an accepted reply confirms each key it attaches, once and in order |
| Negotiation.WantedIsInOrder | src/extensions/mod.rs:223-234 | what is attached of a list is its offered keys, in order |
| Negotiation.RefsCountMessages | src/link.rs:231-241 | references count the messages sent, so none is used twice |
| Negotiation.JoinRefIsTheJoins | src/link.rs:323-325 | the reply waited for is the one to the join that was sent |
| Negotiation.NothingEnabledStillJoinsWhenAsked | src/agent.rs:421-446 | with nothing enabled a session joins if and only if an advertisement comes before the channel closes, and the offer is empty |
| Negotiation.UnreferencedReplyAttachesBeforeJoin | src/link.rs:323-342 | while nothing asked for the join, the attached keys are exactly the offered ones of the last accepting reply without a reference |
| IpcController.Ipc.CheckRole | src/ipc/mod.rs:204-228 | a controller claims a free slot or is refused without touching it |
| IpcController.Ipc.WriteWelcome | src/ipc/mod.rs:232-241 | a failed write leaves at once |
| IpcController.Ipc.AfterPump | src/ipc/mod.rs:249-257 | a controller clears the slot on exit |
| IpcController.AtMostOneController | src/ipc/mod.rs:201-253 | over any interleaving at most one connection is between claim and release |
| IpcController.ObserverVisits | src/ipc/mod.rs:204-257 | an observer is admitted whatever the slot holds, and never touches it |
| IpcController.ControllerVisits | src/ipc/mod.rs:204-257 | a controller that finds the slot free holds it from the check to the release |
| IpcController.StepsAreOnesOwn | src/ipc/mod.rs:195-257 | one connection's steps move no other |
| IpcController.ReleaseFreesItsOwnClaim | src/ipc/mod.rs:249-253 | the clear on exit frees the claim of the connection that exits and no other |
| IpcController.ClaimRefusedExactlyWhen | src/ipc/mod.rs:206-227 | a claim is refused exactly when the slot is held or was leaked |
| IpcController.LeakLocksOutForever | src/ipc/mod.rs:232-241 | after a failed Welcome to a controller every later claim is refused |
| IpcController.LeakedExactlyWhen | src/ipc/mod.rs:232-241 | the slot is leaked if and only if some controller's Welcome could not be written |
| IpcController.FreedAgainExactlyWhen | src/ipc/mod.rs:249-253 | the slot can be free again if and only if it is not leaked |
| IpcQuestions.RequestIdIsInjective | src/ipc/mod.rs:317-318 | different questions get different ids |
| IpcQuestions.Connection.ForwardNext | src/ipc/mod.rs:314-322 | the next question goes out under the next id |
| IpcQuestions.Connection.HandleResponse | src/ipc/mod.rs:298-307 | a response resolves the question outstanding under its id, or nothing |
| IpcQuestions.OneAnswerEach | src/ipc/mod.rs:130-146 | an answer never changes, and a reply carries the id its question went out under |
| IpcQuestions.RepliesWereReceived | src/ipc/mod.rs:298-301 | each reply is a response frame received while that question was outstanding under that id |
| IpcQuestions.ResponseReachesItsAsker | src/ipc/mod.rs:298-300 | a response received in time is what its question's asker gets, for good |
| IpcQuestions.WaitEndsExactlyWhen | src/ipc/mod.rs:130-146 | a wait ends with the response to its id, or without one at its deadline, at the end of the connection, or when there is none |
| IpcQuestions.QuestionsGoOutInOrder | src/ipc/mod.rs:314-322 | questions go out in the order they were asked, none skipped |
| IpcQuestions.QuestionGoesOutUnderItsNumber | src/ipc/mod.rs:317-318 | question number k goes out under the id of k |
| IpcQuestions.SpentIdsStaySpent | src/ipc/mod.rs:299-306 | late and duplicate responses change nothing, in any later state |
| IpcQuestions.ResponseCountsExactlyWhen | src/ipc/mod.rs:298-307 | a response changes anything if and only if the connection is open, its id was sent out, and no response to it came since |
| IpcQuestions.CloseResolvesEverything | src/ipc/mod.rs:140-146 | when the connection ends nobody is left waiting, and nobody waits on it later |
| TermFormat.EncodeInteger | src/shared_secret.rs:119-139 | the buffer grows by the term of the value |
| TermFormat.IntegerRoundTrip | src/shared_secret.rs:117-139 | every 64-bit value decodes back and the decoder stops where the term does |
| TermFormat.CanonicalExactlyWhenEncoded | src/shared_secret.rs:119-139 | the encoder writes the one term in the first applicable form without leading zero digits |
| TermFormat.BuildPayload | src/shared_secret.rs:100-115 | the payload's bytes |
| TermFormat.PayloadRoundTripExactlyWhen | src/shared_secret.rs:99-115 | the payload decodes to its arguments, consuming exactly its bytes, if and only if the identifier fits the length field |
| TermFormat.AcceptedPayload | src/shared_secret.rs:190-226 | the payload of the recorded handshake is byte for byte the one a server accepted |
| Base64Url.EncodeBytes | src/shared_secret.rs:153-175 | the loop over chunks of three computes the encoding |
| Base64Url.RoundTrip | src/shared_secret.rs:152-175 | decoding inverts encoding |
| Base64Url.EncodeIsInjective | src/shared_secret.rs:152-175 | different bytes have different encodings |
| Base64Url.LengthAndLetters | src/shared_secret.rs:156-173 | length 4(n/3) plus 0, 2 or 3, letters of the alphabet only |
| Base64Url.ValuedExactlyInAlphabet | src/shared_secret.rs:154 | the letters that decode are exactly the alphabet's |
| Base64Url.UrlLetters | src/shared_secret.rs:153-155 | the two letters of the URL alphabet stand for 62 and 63 |
| Base64Url.ProtectedIsTheHeader | src/shared_secret.rs:34-35 | the protected header is the encoding of the text HS256 |
| Base64Url.TokenSplits | src/shared_secret.rs:142-150 | a token splits back at its dots into its three parts |
| Base64Url.TokenVerifies | src/shared_secret.rs:141-150 | recomputing the signature over the first two parts accepts the token and yields the payload |
| Base64Url.HandshakeRecoversArguments | src/shared_secret.rs:63-86 | through encoding, signing and splitting the server gets the identifier, time and age that were signed |

## Left out

- u-boot's own code is not part of this model: its counter follows what test/device/boot.cmd:14-20 and docs/fwup.md:263-269 say of it, and the value of a disarmed count in memory is a parameter.
- Writes of an environment are atomic: a power cut falls between `saveenv`s and between a fwup resource and its on-finish block, not inside one.
- SlotSafety.RunsAndReportsWholeImages: holds for installs started under the stated condition, because the code does not check it; the lemmas beside it say what happens otherwise.
- BootEnv.Uboot.RunScript: slot variables hold `a`, `b` or nothing; other text in `fw_active` is not modelled.
- RaucBoot.RaucUboot.RunScript: an order lists only `a` and `b`. Counts are numbers: the script counts with `setexpr`, which is hexadecimal, so the model is the script's for counts up to nine. Whether the environment block could be read is not modelled beyond unset variables.
- RaucBoot.AttemptSequence: for counts up to nine, for the same reason.
- RAUC's own installs and marks, and fwup's signature checks and block fetching: external programs.
- FwupText.ReportIsAboutTheBootedSlot: variable names are taken to have no equals sign, line break, leading hash or surrounding whitespace, and values no line break; u-boot's printed format cannot tell such variables apart.
- FwupText.ReconcileActiveSlot: whether fw_setenv succeeds is a parameter of Fwup.Disk.Reconcile.
- Firmware fields other than the uuid: version, product, platform and architecture are looked up by the same rule.
- AgentSession.RunsAreInOrder: update and reboot decisions, and whether a send works, are free choices; progress reports carry no content, and the IPC side of an install (events, shared status) is not modelled.
- Support scripts, heartbeats, the shell's input and output messages and its process: plumbing around the parts modelled here. Shell output is sent whether or not the extension is attached.
- LogBuffer.Pending.Push: a line is an abstract value; parsing journald records and priorities is left out.
- IpcQuestions.OneAnswerEach: the channel's capacity of four is not modelled, so a question blocked on a full channel counts as queued; `next_id` does not wrap at 2^64.
- Negotiation.AtMostOneJoin: sends succeed; a failed one ends the session, which then is a shorter run.
- HMAC, PBKDF2 and the salt: the signature is an arbitrary function of the signed text. `signed_at * 1000` does not overflow.
- JSON, TOML, sockets, TLS, HTTP, processes and clocks: library behaviour, replaced by values and free choices.
- Health, location, network identity, the sandbox tool, backoff, the policy table: single-branch facts.
