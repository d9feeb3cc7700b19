# ZeroChannel ring protocol: a Dafny model

ZeroChannel passes fixed-size entries from one writer to many readers through a ring of slots in
shared memory, without locks. Each slot has a signed control word: 0 while empty or being written,
`s > 0` once entry `s` is committed, `-s` while a zero-copy reader holds entry `s` in place. The header
carries the writer's next index and its high watermark. This project models that protocol, the writer
restart that follows a crash, and the PID cells that arbitrate the exclusive roles, and proves what
they promise over every interleaving, every ring size and every crash point.

`dafny verify dfyconfig.toml` checks the whole project.

## How the model is built

The same protocol is modelled twice, and the two are tied together.

* **As a state machine** (`Protocol.dfy`). One event is one atomic operation: a load, a store, a
  compare-and-swap, one payload byte, or a crash. A run is any sequence of enabled events from a freshly
  initialized segment, with one writer, any number of readers and any number of writers that die and are
  replaced, each attaching with any header whatever. `log[s - 1]` records the payload committed as the
  `s`-th entry; it grows only at the slot store of a publish. Dying and dropping a writer cleanly are the
  same event.
* **As imperative code** (`Segment.dfy`, `Writer.dfy`, `Reader.dfy`, `Lifecycle.dfy`, `Layout.dfy`). The
  source's methods keep their loops and their field updates. Before every atomic operation on the ring they
  call `Interfere` (readers) or `InterfereByReaders` (the writer), whose contracts say all that other
  participants may do in between; `RunEvolves` and `ReadersOnlyFlipSigns` prove that the machine's
  runs do no more than that. The ghost argument `quiet` says that nobody else acts during the call,
  which is when a contract can be exact; `still` names slots the others leave alone meanwhile, among them
  the ones this reader holds (`PinHolds` is why that is sound). Role claims call `Cell.Interfere` in the
  same way, and `MeanwhileOthers` is the lemma about runs behind its contract.

Roles are a second, smaller machine (`Roles.dfy`): processes start, die, claim, probe, adopt and drop
around one PID cell.

## Layers

Theorems are stated over nested classes of runs, each with its own invariant, and each theorem asks for no
more than its class.

| runs | what is asked of every step | invariant | what holds |
|---|---|---|---|
| `IsRun` | nothing | `Shape` | deliveries strictly increase and were really committed, nothing passed over, exact answers when undisturbed, why and when a call gives up, wait-freedom, which calls touch their buffer, every handle accounted for |
| `WindowRun` | no acquire between the load and the store of `claim_slot` | `PinInv` | pins hold, handles are the negative slots, readers change signs only, recovery mid-run, numbers above everything in the ring |
| `NoReuseRun` | ... and each slot store takes the next number | `LogInv` | untorn entries, a lost entry never reappears, the probe is the scan |
| `InformedRun` | `WindowRun`, and header and ring together tell each attaching writer the highest number | `NumberInv` | is a `NoReuseRun`; `NumberingExact` says exactly when a `WindowRun` is one |

`InformedRun` is free with two slots or more and no pins, however old the headers
(`UnpinnedRunsAreInformed`), with current headers if no writer dies inside a publish, whatever is pinned
(`SettledRunDisciplined`), and with current headers and safe claims in general (`DisciplinedRunsAreInformed`).

## Hypotheses

The code does not enforce these by itself. All but the first are predicates on single steps, and for each of
those there is a lemma with a reachable state from which breaking it does the damage.

| hypothesis | predicate | when it is free | what goes wrong without it |
|---|---|---|---|
| one outstanding claim per writer | built into `WriterPc`, so the machine cannot break it; the imperative writer can | | `TwoHandlesOneSlot`, exactly: `SecondClaimSameSlot` |
| no acquire between the load and the store of `claim_slot` | `OutsideClaimWindow` | no zero-copy reader | `WindowRaceBreaksPin`, exactly: `WindowExact` |
| a writer's header and the ring tell the highest number | `Informed` | two slots or more and no pins, for every header ever decoded (`UnpinnedRunsAreInformed`); a current header and safe claims (`DisciplinedRunsAreInformed`) | `StaleHeaderReusesNumber`, exactly: `RecoveredNumberExact`, `NumberingExact`, `StoredOnceExact` |
| the newest entry is not zeroed while the header does not know its number | `SafeClaim` | two slots or more and no pins (`UnpinnedRunsAreInformed`); no death inside a publish (`SettledRunDisciplined`) | `OneSlotReusesNumber`, `PinnedRingReusesNumber`, exactly: `SafeClaimExact` |
| (order only) no death between slot store and index store before the header index was brought up to date | `IndexCrashSafe` | if each writer but the first stores the index once before it may die there (`OrderlyRunsSlide`) | `RepeatedCrashLosesOrder`, exactly: `IndexCrashExact` |
| (roles only) no adoption meets its probed PID alive again and bound | `EvictsNobody` | PIDs are not reused (`NoPidReuseIsHarmless`) | `ReusedPidBreaksExclusivity`, exactly: `StepExact`, `ExclusivityExact` |
| (roles only) no process starts under the PID a role cell still names | `RevivesNobody` | PIDs are not reused | exclusivity holds, but the role looks taken: `RevivedPidHoldsNothing`, exactly: `TruthfulnessExact` |

## Where code and documentation disagree

* The header is 72 bytes in the order of `zerochannel-core/src/metadata.rs:20-36`. The tables of
  `docs/specs/zero_channel.md:65-69` order the fields differently and line 132 says 64 bytes. The code is followed.
* `docs/specs/zero_channel.md:577` says that a read that returns nothing leaves the caller's buffer
  untouched. It may have copied before it gave up: `NothingMayDirtyBuffer` is such a run. `EmptyReadExact`
  says when, over every run: a call that returns nothing has written to the buffer iff it ended with fewer
  than `READ_RETRIES` tries left, that is iff it had lost an entry and gone round again.
* `docs/specs/zero_channel.md:624-625` calls the sequence number a dense, strictly increasing counter over
  committed entries. `OneSlotReusesNumber`, `PinnedRingReusesNumber` and `StaleHeaderReusesNumber` are runs in
  which a number is stored twice. `StoredOnceExact` says exactly when that happens, and `NumberingExact` exactly
  when the counter is dense.
* `docs/specs/zero_channel.md:408-410` promises that a restarted writer continues above everything visible. Of
  the slots that is true in every run with pins safe (`StoresAboveVisible`), those runs included; of the
  watermark it can fail with a stale header, exactly as `AboveWatermarkExact` says.
* `zerochannel-core/src/writer.rs:117-118` says that a reader never sees a promise it cannot fulfil. With one
  slot or with pins it can: `OneSlotBreaksPromise`, `PinnedRingBreaksPromise`. `PromiseExact` names the steps
  that break it, `PromiseRunExact` the runs; without pins and with two slots or more there are none (`WatermarkPromiseKept`).

## Model

| member | source | states |
|---|---|---|
| Rings.FastPathRefinesScan | zerochannel-core/src/reader.rs:95-119 | `locate` with its one-slot probe returns the oldest unheld entry above the watermark, like the full scan, for every watermark (saturating at the top) and last index; index included when entries are distinct |
| Rings.ScanFindsOldest | zerochannel-core/src/reader.rs:104-118 | the scan loop yields the minimum word above the watermark, or nothing exactly when there is none |
| Rings.OldestNewerUnique | zerochannel-core/src/reader.rs:89-94 | on a ring of distinct entries "the oldest newer entry" determines the answer, slot included |
| Rings.AllHeld | zerochannel-core/src/writer.rs:77-98 | n probes without a hit from any start index mean that every slot of the ring is held |
| Rings.NearestUnheldUnique | zerochannel-core/src/writer.rs:77-98 | the cyclically nearest unheld slot is unique |
| Rings.SecondClaimSameSlot | zerochannel-core/src/writer.rs:150-158 | a second claim before the first is committed gets the very same slot iff the held slots before it are still held |
| Rings.RecoveredNumberExact | zerochannel-core/src/writer.rs:189-196 | for every header it may be given, recovery returns the highest number ever committed iff that header is not ahead of it and either knows it or some slot still shows it |
| Shapes.RunShape | zerochannel-core/src/reader.rs:95-181 | in every run indices stay in range, numbers below 2^63, and whatever a reader has found or returned is above its watermark |
| Shapes.WriterNeverStuck | zerochannel-core/src/writer.rs:77-122 | in every run, the machine's guards never block a writer, and whoever is down can attach with any header |
| Shapes.ReaderNeverStuck | zerochannel-core/src/reader.rs:95-174 | in every run, the machine's guards never block a reader, the start of a call and the final check after a full copy included |
| Shapes.HandlesNeverStuck | zerochannel-core/src/reader.rs:277-284 | in every run, each outstanding handle can be released |
| Issues.RunGenuine | zerochannel-core/src/reader.rs:95-178 | in every run, each number in a slot, a handle, a scan or a delivery was stored by an earlier publish |
| Pins.ReadersOnlyFlipSigns | zerochannel-core/src/reader.rs:236-284 | while the writer does nothing, everything the others do changes signs of words at most |
| Safety.RecheckProvesCopy | zerochannel-core/src/reader.rs:168-174 | an unchanged word after a byte-wise copy proves that the buffer is the committed entry |
| Safety.StepKeepsBacked | zerochannel-core/src/writer.rs:77-122 | every step of every actor that reuses no number keeps words, copies in progress and deliveries backed by the log, and evolves the ring so that a slot which lost an entry never shows it again |
| Safety.StepKeepsInv | zerochannel-core/src/writer.rs:77-145 | if writers attach informed, every step keeps the whole invariant and no step reuses a number |
| Safety.RunInv | zerochannel-core/src/writer.rs:77-145 | the invariant holds at every point of every informed run |
| Safety.RunEvolves | zerochannel-core/src/reader.rs:153-174 | between any two points of a run without number reuse the ring changes only as a reader relies on |
| Safety.InformedRunsDoNotReuse | zerochannel-core/src/writer.rs:182-212 | if header and ring tell each attaching writer the highest number, no slot store reuses one |
| Reads.NeverShownAgain | zerochannel-core/src/writer.rs:105-111 | a slot without entry s, once s is committed, never carries s again |
| Reads.TornReadFreedom | zerochannel-core/src/reader.rs:137-181 | in every run without number reuse, every entry handed out is newer than the call's watermark and byte for byte the payload committed under its number, then and ever after |
| Reads.ReadReturnsEntry | zerochannel-core/src/reader.rs:153-178 | a `read_into` that returns s leaves exactly entry s in the caller's buffer |
| Reads.AcquiredEntry | zerochannel-core/src/reader.rs:251-273 | what an acquire hands out is a committed entry, in place |
| Reads.PinnedEntryStays | zerochannel-core/src/reader.rs:236-284 | a pinned slot holds its committed entry until its handle is released |
| Reads.DeliveryIsNewer | zerochannel-core/src/reader.rs:125-131 | in every run, each number returned exceeds the override, or else the number returned before |
| Reads.DeliveryWasCommitted | zerochannel-core/src/reader.rs:153-178 | in every run, window races and reused numbers included, each number returned was stored in a slot by an earlier publish |
| Reads.DeliveriesIncrease | zerochannel-core/src/reader.rs:125-131 | in every run, without an override the numbers one reader gets strictly increase, for any mix of copying and zero-copy reads |
| Reads.FastPathInRuns | zerochannel-core/src/reader.rs:95-119 | in every ring a run without number reuse can produce, the probe and the full scan agree, slot included |
| Reads.FastPathAlways | zerochannel-core/src/reader.rs:95-119 | in every ring any run can produce, `locate` answers with the oldest unheld newer entry, or nothing when there is none |
| Reads.ScanSees | zerochannel-core/src/reader.rs:104-117 | a scan that is past a slot keeps something at most as large as the entry that stays there |
| Reads.ScanDoesNotSkip | zerochannel-core/src/reader.rs:95-119 | in every run, a concurrent `locate` neither comes back empty nor passes over an entry that stays committed and unheld for the whole call |
| Reads.ReadIsWaitFree | zerochannel-core/src/reader.rs:153-180 | in every run, each load, check and swap of a call brings its end closer |
| Reads.OthersDoNotDelay | zerochannel-core/src/reader.rs:153-180 | nothing the writer or other readers do lengthens a call |
| Reads.CallIsShort | zerochannel-core/src/reader.rs:153-180 | one call takes at most 4(n + 3) steps of its own besides the byte copies, whatever the others do |
| Reads.EmptyReadExact | docs/specs/zero_channel.md:576-577 | a copying call that returns nothing has written to the caller's buffer iff it had lost an entry and gone round again; otherwise the buffer is the caller's |
| Calls.CallStarts | zerochannel-core/src/reader.rs:121-151 | a call is over at once iff the header advertises nothing newer than asked for; otherwise it sets out with four tries and the caller's watermark, mode and buffer |
| Calls.LocateExact | zerochannel-core/src/reader.rs:95-119 | a `locate` during which no word changes ends, by probe or scan, at the oldest newer entry, slot included, or with nothing when there is none |
| Calls.CheckExact | zerochannel-core/src/reader.rs:168-178 | a call hands out what it located, exactly once and with its slot remembered, iff the slot still shows it; otherwise it starts over with one try less or ends |
| Calls.UndisturbedCall | zerochannel-core/src/reader.rs:137-181 | a whole call during which no word changes, copying or in place, returns exactly the oldest entry newer than asked for, or nothing when there is none |
| Calls.GivesUpExact | zerochannel-core/src/reader.rs:153-180 | a call that returns nothing has scanned the whole ring without a hit or has lost what it had located four times; it never gives up sooner |
| Calls.CommitsWhatWasFilled | zerochannel-core/src/writer.rs:135-145 | a slot store commits at every position the byte last put there since the claim, and otherwise the byte the slot had before |
| Pins.PinHolds | zerochannel-core/src/writer.rs:83-87 | until the handle's release the word stays negated and the payload stays put, through writes, laps, leaks, crashes, recoveries and reused numbers |
| Pins.HandleStays | zerochannel-core/src/reader.rs:236-275 | a handle stays outstanding, under the same number, until it is released or lost |
| Pins.AcquirePins | zerochannel-core/src/reader.rs:251-273 | an acquire that hits hands out a handle on a slot that was not held, negates its word and changes nothing else in the ring |
| Pins.NegativeSlotsAreHeld | zerochannel-core/src/reader.rs:277-284 | outstanding and lost handles together are exactly the negative slots, and a handle names its slot's word |
| Pins.HandlesAreNegativeSlots | zerochannel-core/src/reader.rs:277-284 | as long as no handle is lost, the outstanding handles are exactly the negative slots |
| Pins.HandlesConserved | zerochannel-core/src/reader.rs:236-284 | in every run, the handles handed out are those outstanding and those released or lost |
| Pins.GivingUp | zerochannel-core/src/reader.rs:277-284 | in every run, a release puts the handle's own number back into its slot and changes nothing else in the ring; losing a handle or closing a reader changes nothing there |
| Pins.WindowExact | zerochannel-core/src/writer.rs:85-89 | an acquire between claim load and claim store leaves every handle pinned iff it aims at another slot or finds another word there |
| Numbering.RecoveryInRun | zerochannel-core/src/writer.rs:182-212 | a recovery in the middle of a run ends with what `recover_state` computes from the ring as it was at the attach, whatever is pinned and unpinned between its loads |
| Numbering.RecoveredExactly | zerochannel-core/src/writer.rs:182-212 | a recovered writer holds the highest committed number iff its header and the ring told it at the attach |
| Numbering.NumberingExact | docs/specs/zero_channel.md:624-625 | with pins safe, every slot store takes the number after the highest ever committed iff each writer that commits anything attached informed |
| Counters.StoredOnceExact | docs/specs/zero_channel.md:624-625 | with pins safe and no header ahead of the log, no two slot stores share a number iff each writer that commits anything attached informed |
| Counters.DecodedHeadersAreBehind | zerochannel/src/writer.rs:66-76 | a header decoded at any earlier point is not ahead of the log |
| Counters.StoresAboveVisible | docs/specs/zero_channel.md:408-410 | whatever header its writer was given, each entry gets a number above every magnitude in the ring |
| Counters.AboveWatermarkExact | docs/specs/zero_channel.md:405-410 | a recovered writer is at or above the watermark it found iff its header or some slot was |
| Numbering.SafeClaimExact | zerochannel-core/src/writer.rs:85-92 | zeroing a slot keeps the newest number recoverable iff the header knows it or the slot is another entry's |
| Numbering.DisciplinedRunsAreInformed | zerochannel-core/src/writer.rs:166-212 | writers that attach with the current header and make safe claims only are always informed |
| Numbering.UnpinnedRunsAreInformed | zerochannel/src/writer.rs:66-76 | with two slots or more and no pins, every writer is informed whatever earlier header it decoded, and no claim endangers the numbering, across any crashes |
| Numbering.CrashProofNumbering | zerochannel-core/src/writer.rs:182-212 | after any number of crashes between any two atomic operations, and with any header decoded before or after them, a recovered writer holds exactly the highest committed number and resumes off the newest entry |
| Numbering.WatermarkPromiseKept | zerochannel-core/src/writer.rs:117-119 | at every point, mid-publish and after crashes too, some slot visibly holds an entry at least as new as the header watermark, which never exceeds the highest committed number |
| Numbering.StartedReadIsOwed | zerochannel-core/src/reader.rs:121-131 | a read that gets past the watermark check finds an entry newer than its watermark visible at that moment |
| Numbering.PromiseExact | zerochannel-core/src/writer.rs:117-119 | with pins or one slot, the promise breaks exactly at a claim or an acquire of the only slot that keeps it, or at a watermark store whose own entry was acquired meanwhile |
| Numbering.PromiseRunExact | zerochannel-core/src/writer.rs:117-119 | over a run without number reuse, every watermark promise is kept iff no step is one of those |
| Numbering.NumbersDense | zerochannel-core/src/writer.rs:105-109 | if committing writers attach informed, every slot store shows the number after the highest ever committed |
| Numbering.NumbersIssuedOnce | zerochannel-core/src/writer.rs:105-109 | no number is issued twice, in every run that `NumberingExact` characterizes |
| Recoveries.SingleCrashRecovery | zerochannel-core/src/writer.rs:166-212 | from an up-to-date header and with any pins, at every crash point recovery returns the highest committed number; the index is the slot after the newest entry, except exactly after a commit that skipped a held slot |
| Recoveries.SkipExact | zerochannel-core/src/writer.rs:77-88 | a commit interrupted before its index store had found d slots held from the header index on, and is resumed at the writer's own next index iff d is 0 or n - 1 |
| Recoveries.CompletedPublishIsFresh | zerochannel-core/src/writer.rs:111-119 | a completed publish brings the header up to date |
| Recoveries.HeaderFreshSafe | zerochannel-core/src/writer.rs:77-92 | a claim made under an up-to-date header endangers no number |
| Recoveries.SettledRunDisciplined | zerochannel-core/src/writer.rs:101-122 | if no writer dies between slot store and watermark store, no claim endangers the numbering, whatever is pinned and for every ring size |
| Window.WindowHoldsLast | zerochannel-core/src/writer.rs:111-111 | a window holds entry s in slot (s - 1) mod n for the last n entries and nothing else |
| Window.SlidingWindow | zerochannel-core/src/writer.rs:77-122 | throughout such runs the ring is exactly the last n log entries with their payloads, entry s in slot (s - 1) mod n, less at most the slot to be written next |
| Window.TidyRun | zerochannel-core/src/writer.rs:77-122 | if claims are neither abandoned nor cut short, that slot is missing only while it is claimed |
| Window.IndexCrashExact | zerochannel-core/src/writer.rs:198-209 | a writer that dies after its slot store is resumed in order iff the header index names that slot or its successor |
| Window.CompletedPublishAllowsCrash | zerochannel-core/src/writer.rs:111-116 | once a writer has stored the header index, dying at any later point keeps the order |
| Window.OrderlyRunsSlide | zerochannel-core/src/writer.rs:166-175 | with two slots or more and no pins, if each writer but the first stores the header index once before it may die between slot store and index store, the window slides in order |
| Drain.QuiescentNext | zerochannel-core/src/reader.rs:125-181 | one default read of a quiescent window returns the first entry owed, with its payload, or nothing when none is owed |
| Drain.QuiescentInRuns | zerochannel-core/src/reader.rs:125-131 | in runs whose window slides, the ring is quiescent whenever the header has caught up with the log |
| Drain.ExactDrain | zerochannel/src/tests.rs:98-121 | repeated default reads from any bookmark return exactly the surviving newer entries in order and then nothing |
| Drain.DrainInRuns | zerochannel/src/tests.rs:98-121 | at such a point of a run, repeated default reads return exactly the surviving newer entries |
| Drain.GapCountsOverwritten | docs/specs/zero_channel.md:498-501 | the numbers skipped past the bookmark are exactly the entries the ring no longer holds |
| Drain.LapLosesAllButLast | zerochannel/src/tests.rs:112-115 | after a lap the reader resumes at entry max(b, M - n) + 1 |
| Necessity.Recovers | zerochannel-core/src/writer.rs:182-212 | recovery load by load ends in the state `recover_state` computes, for any header |
| Necessity.Probes | zerochannel-core/src/writer.rs:77-88 | the claim loop, load by load, stops at the nearest unheld slot |
| Necessity.OneSlotReusesNumber | zerochannel-core/src/writer.rs:189-196 | with one slot, a death inside a publish and one inside the next claim lead to a second slot store of number 1 |
| Necessity.PinnedRingReusesNumber | zerochannel-core/src/writer.rs:198-209 | with two slots and a pin, the same happens to number 3 |
| Necessity.StaleHeaderReusesNumber | zerochannel/src/writer.rs:66-76 | a header decoded too early makes an attaching writer store number 1 again |
| Necessity.RepeatedCrashLosesOrder | zerochannel-core/src/writer.rs:172-175 | two deaths before the index store make the third writer resume out of order |
| Necessity.WindowRaceBreaksPin | zerochannel-core/src/writer.rs:85-89 | the claim window is reachable, and an acquire in it leaves a handle whose slot is zeroed |
| Necessity.OneSlotBreaksPromise | zerochannel-core/src/writer.rs:117-119 | with one slot, the watermark can promise an entry that no slot shows |
| Necessity.PinnedRingBreaksPromise | zerochannel-core/src/writer.rs:117-119 | so it can with two slots and a pin |
| Necessity.NothingMayDirtyBuffer | zerochannel-core/src/reader.rs:153-180 | a read can return nothing after having overwritten the caller's buffer |
| Writers.RecoverState | zerochannel-core/src/writer.rs:182-212 | the result depends on the magnitudes at the start only, whatever readers pin or unpin during the scan |
| Writers.RawWriter.Attach | zerochannel-core/src/writer.rs:38-53 | whatever header it was given, an attached writer is up to date iff that header and the ring tell the highest number |
| Writers.RawWriter.ClaimSlot | zerochannel-core/src/writer.rs:77-98 | claims the cyclically nearest unheld slot, reports busy exactly when all are held, and changes no other magnitude |
| Writers.RawWriter.Publish | zerochannel-core/src/writer.rs:101-122 | commits the slot's payload under the next number, keeps the ring backed by the log between its stores, and leaves the header up to date |
| Writers.RawWriter.CopyIn | zerochannel-core/src/writer.rs:135-142 | the byte-wise copy changes the claimed payload only, readers acting meanwhile |
| Writers.RawWriter.Write | zerochannel-core/src/writer.rs:125-145 | commits exactly the caller's bytes under the next number; a wrong length or a busy ring leaves the log alone |
| Writers.RawWriter.TryAcquire | zerochannel-core/src/writer.rs:150-158 | hands out the nearest unheld slot, emptied, without touching payloads, header or next index |
| Writers.RawWriter.Commit | zerochannel-core/src/writer.rs:161-163 | publishes what the slot contains under the next number, claimed or not, and header index, watermark and next index follow |
| Writers.TwoHandlesOneSlot | zerochannel-core/src/writer.rs:150-163 | two handles taken before a commit are the same slot, and committing both loses the first entry from the ring at once |
| Readers.RawReader.Locate | zerochannel-core/src/reader.rs:95-119 | under interference, skips nothing that stays put; undisturbed, answers exactly |
| Readers.RawReader.ScanAll | zerochannel-core/src/reader.rs:104-118 | the scan loop with other participants acting before every load |
| Readers.RawReader.ReadInto | zerochannel-core/src/reader.rs:137-181 | under interference, a returned number comes with exactly its committed bytes and passes over nothing that stays put; undisturbed, returns the oldest newer entry; gives up with something newer about only if all four attempts were disturbed; a call that returns nothing and lost no entry leaves the buffer alone |
| Readers.RawReader.CopyOut | zerochannel-core/src/reader.rs:158-166 | the byte-wise copy is faithful as long as the slot keeps the entry |
| Readers.RawReader.TryAcquire | zerochannel-core/src/reader.rs:236-275 | pins a committed entry newer than the watermark that was not held; undisturbed, the one a read would return; gives up with something newer about only if all four attempts were disturbed |
| Readers.RawReader.Release | zerochannel-core/src/reader.rs:281-284 | the slot handed back still carries the same entry and payload as when it was acquired |
| Readers.DrainAll | zerochannel/src/tests.rs:26-33 | the draining loop returns exactly the surviving newer entries and terminates |
| Layout.LayoutSound | zerochannel-core/src/metadata.rs:177-207 | in every accepted geometry every slot has an aligned word and payload between the header and the segment's end, and no two slots overlap |
| Layout.GeometryExact | zerochannel-core/src/metadata.rs:191-207 | the geometry check accepts exactly the non-empty geometries in which every slot begins, and the last one ends, on a word boundary |
| Layout.AlignmentNeedsCheck | zerochannel-core/src/metadata.rs:200-205 | all slot words are aligned iff the payload size passes the check |
| Layout.WordsAreBytes | zerochannel-core/src/metadata.rs:183-185 | the words that initialization zeroes are the segment's required bytes |
| Layout.HeaderVerdict | zerochannel-core/src/metadata.rs:298-323 | a header is trusted iff magic and version are this build's; zero means wait, a known magic with another version is reported with that version, anything else is foreign |
| Layout.InitLatch | zerochannel-core/src/metadata.rs:269-323 | after every prefix of the stores of `init_header` a peer sees nothing or exactly the declared header, and then the creator owns the segment |
| Layout.InitialWords | zerochannel-core/src/metadata.rs:19-31 | the nine header words of a segment just initialized, by position and value |
| Layout.DecodesPublished | zerochannel-core/src/metadata.rs:315-322 | a peer decodes the write index put at byte 56 and the sequence number put at byte 64, with geometry and type as declared, whatever the owner words hold |
| Layout.InitHeader | zerochannel-core/src/metadata.rs:269-288 | the stores in order, clearing the segment and nothing beyond it |
| Roles.StepExact | zerochannel/src/lifecycle.rs:87-149 | for a role or a deed, PIDs recycled or not, a step keeps at most one live holder iff it is no adoption that finds its probed PID back in the cell with an instance bound; a role cell stays truthful iff no process starts under the PID it names |
| Roles.ExclusivityExact | zerochannel/src/lifecycle.rs:87-149 | over every run there is never more than one live holder iff no adoption evicts one |
| Roles.RefusedOnlyByLive | zerochannel/src/lifecycle.rs:93-108 | a claimant is refused only by a holder just found alive; one that loses an adoption to another claimant looks again |
| Roles.UndisturbedClaim | zerochannel/src/lifecycle.rs:87-111 | undisturbed, a claimant is bound and in the cell iff the cell named nobody alive, and is refused otherwise |
| Roles.EvictionNeedsReuse | zerochannel/src/lifecycle.rs:103-108 | where a role cell is truthful, an adoption evicts a holder iff the PID it had found dead is alive again and in the cell |
| Roles.NoPidReuseIsHarmless | zerochannel/src/lifecycle.rs:29-32 | without PID reuse nobody is evicted, no dead claimant revived, and adoptions are from the dead |
| Roles.MeanwhileOthers | zerochannel/src/lifecycle.rs:87-111 | between two points of a run PIDs are only added, the dead stay dead, and the cell changes only by a claimant: what a claimant's loop relies on |
| Roles.AtMostOneHolder | zerochannel/src/lifecycle.rs:81-111 | as long as no adoption evicts a holder, at most one live instance holds the role or the deed, and the cell holds its PID |
| Roles.RoleCellTruthful | zerochannel/src/lifecycle.rs:93-99 | the role cell names a live process iff a live instance holds the role |
| Roles.OnlyHolderLetsGo | zerochannel/src/lifecycle.rs:113-119 | then nothing but the holder's own drop or death unbinds it; a late release clears no other claim |
| Roles.TruthfulnessExact | zerochannel/src/lifecycle.rs:29-32 | as long as no adoption evicts a holder, a role cell that names a live process always has a holder iff no process starts under the PID it names |
| Roles.DeedStaysWithLive | zerochannel/src/lifecycle.rs:121-149 | in every run, the deed leaves a live process exactly at an adoption whose probed PID came back |
| Roles.ReusedPidBreaksExclusivity | zerochannel/src/lifecycle.rs:29-32 | a recycled PID lets an old probe evict a live holder |
| Roles.RevivedPidHoldsNothing | zerochannel/src/lifecycle.rs:29-32 | a process under a dead holder's PID passes for the holder although nobody is bound |
| Lifecycle.ClaimRole | zerochannel/src/lifecycle.rs:87-111 | replaces only nobody or the dead, is refused only by a live process met in the cell during the call, and loops at most once more than others changed the cell |
| Lifecycle.ReleaseRole | zerochannel/src/lifecycle.rs:117-119 | gives up this process's claim and touches no other |
| Lifecycle.ClaimSegment | zerochannel/src/lifecycle.rs:131-149 | wins exactly when the holder it met in the cell during the call is not alive, within the same bound on rounds |
| Lifecycle.NamedWriter.Bind | zerochannel/src/writer.rs:66-78 | binds iff the role was claimed; the bound writer resumes at the number and the index that the header decoded earlier and the ring found once the claim is decided give, and is up to date iff these tell the highest number; a refusal leaves the ring to the others |
| Lifecycle.NamedWriter.Drop | zerochannel/src/writer.rs:146-158 | a bound writer hands the role back, an unbound one touches nothing |
| Lifecycle.TypeCheckExact | zerochannel-core/src/metadata.rs:226-238 | a typed request is accepted iff the channel was declared with that very type, an opaque one always |
| Lifecycle.Name.OpenOrCreate | zerochannel/src/lifecycle.rs:223-325 | others creating, unlinking and bidding meanwhile, the answer for every mapping the call can settle on: opened, created, initialized in place, not yet, or which error; the owner flag is granted iff geometry was accepted and the deed was not in live hands; refusals and attaching without geometry change neither name nor deed |

## Left out

- Weak memory: every atomic operation is sequentially consistent; fences and orderings are not modelled.
- Operating system: shared-memory creation, opening and unlinking and process probes are parameters or an abstract set of live processes; a creation that fails for reasons other than a taken name is not modelled, nor is `unlink`.
- Two processes initializing the same segment in place at once: the latch is proved for a single initializer.
- Sequence wrap-around: numbers stay below 2^63, as `docs/specs/zero_channel.md:635-636` declares wrap-around unhandled.
- Segment bytes: the imperative model keeps control words and payloads in sequence fields of one object; their placement in memory is the business of `Layout.dfy`.
- Writers.RawWriter.ClaimSlot: no reader acts between its load and its store; the machine models them apart and `WindowExact` says what happens otherwise.
- Zero-copy readers above the core (`zerochannel/src/reader.rs`): same claim and release as `NamedWriter`, behind a constructor flag; deferred connection only retries `try_attach`.
- Typed wrappers, byte reinterpretation, Python bindings, error texts and dtype names.
