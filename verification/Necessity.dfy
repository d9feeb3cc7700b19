/**
 * Why the protocol theorems ask what they ask: for each hypothesis on single steps, a state reached
 * without breaking any of them, from which the one step that breaks it does the damage. The building
 * blocks are whole operations, as runs of atomic steps.
 */
module Necessity {
  import opened Words
  import opened Rings
  import opened Protocol
  import opened Numbering
  import opened Window

  // ── Reaching states ─────────────────────────────────────────────────────────

  /** Some run ends in s, keeping all hypotheses if `strict`, and in any case the claim window free. */
  ghost predicate Reachable(strict: bool, s: State) {
    exists run :: EndsIn(strict, run, s)
  }

  ghost predicate EndsIn(strict: bool, run: Run, s: State) {
    (if strict then DisciplinedRun(run) else WindowRun(run)) && run.states[|run.states| - 1] == s
  }

  lemma Then(strict: bool, s: State, e: Event)
    requires Reachable(strict, s) && Can(s, e) && (if strict then Disciplined(s, e) else OutsideClaimWindow(s, e))
    ensures Reachable(strict, Step(s, e))
  {
    var run :| EndsIn(strict, run, s);
    var next := Run(run.states + [Step(s, e)], run.events + [e]);
    forall k | 0 <= k < |next.events|
      ensures IsStep(next, k) && OutsideClaimWindow(next.states[k], next.events[k])
      ensures strict ==> Disciplined(next.states[k], next.events[k])
    {
      if k < |run.events| {
        assert IsStep(run, k);
      }
    }
    assert EndsIn(strict, next, Step(s, e));
  }

  lemma Relax(s: State)
    requires Reachable(true, s)
    ensures Reachable(false, s)
  {
    var run :| EndsIn(true, run, s);
    assert EndsIn(false, run, s);
  }

  /** A fresh segment with n slots of 8 payload bytes. */
  function FreshState(n: nat): State {
    var payloads: seq<seq<byte>> := seq(n, i => seq(8, j => 0));
    State(Ring(8, 0, 0, seq(n, i => 0), payloads), [], Writer(Down, 0, 0), map[], map[], {}, multiset{})
  }

  lemma Begin(n: nat)
    requires 0 < n
    ensures Reachable(true, FreshState(n))
  {
    var run := Run([FreshState(n)], []);
    assert Fresh(FreshState(n));
    assert EndsIn(true, run, FreshState(n));
  }

  // ── Whole operations as runs ────────────────────────────────────────────────

  /** The state after a writer has attached with the given header and recovered, undisturbed. */
  function Recovered(s: State, headerIndex: nat, headerSeq: nat): State
    requires 0 < |s.ring.seqs|
  {
    var m := MaxMagnitude(s.ring.seqs, headerSeq, |s.ring.seqs|);
    s.(writer := Writer(Idle, ResumeIndex(s.ring.seqs, headerIndex, m), m))
  }

  /** The same with the segment's current header. */
  function Restarted(s: State): State
    requires 0 < |s.ring.seqs|
  {
    Recovered(s, s.ring.writeIndex, s.ring.watermark)
  }

  function MidRecovery(s: State, headerIndex: nat, headerSeq: nat, i: nat): State
    requires i <= |s.ring.seqs|
  {
    At(s, Recovering(headerIndex, headerSeq, i, MaxMagnitude(s.ring.seqs, headerSeq, i)))
  }

  lemma {:induction false} RecoversUpTo(strict: bool, s: State, headerIndex: nat, headerSeq: nat, i: nat)
    requires Reachable(strict, s) && s.writer.pc.Down? && 0 < |s.ring.seqs| && i <= |s.ring.seqs|
    requires strict ==> HeaderCurrent(s, Attach(headerIndex, headerSeq))
    ensures Reachable(strict, MidRecovery(s, headerIndex, headerSeq, i))
  {
    if i == 0 {
      Then(strict, s, Attach(headerIndex, headerSeq));
    } else {
      RecoversUpTo(strict, s, headerIndex, headerSeq, i - 1);
      Then(strict, MidRecovery(s, headerIndex, headerSeq, i - 1), RecoverLoad);
    }
  }

  /** Recovery, load by load, ends where `recover_state` says, whatever the header. */
  lemma Recovers(strict: bool, s: State, headerIndex: nat, headerSeq: nat)
    requires Reachable(strict, s) && s.writer.pc.Down? && 0 < |s.ring.seqs|
    requires strict ==> HeaderCurrent(s, Attach(headerIndex, headerSeq))
    ensures Reachable(strict, Recovered(s, headerIndex, headerSeq))
  {
    RecoversUpTo(strict, s, headerIndex, headerSeq, |s.ring.seqs|);
    Then(strict, MidRecovery(s, headerIndex, headerSeq, |s.ring.seqs|), RecoverLoad);
  }

  lemma Restarts(s: State)
    requires Reachable(true, s) && s.writer.pc.Down? && 0 < |s.ring.seqs|
    ensures Reachable(true, Restarted(s))
  {
    Recovers(true, s, s.ring.writeIndex, s.ring.watermark);
  }

  function At(s: State, pc: WriterPc): State {
    s.(writer := s.writer.(pc := pc))
  }

  lemma {:induction false} ProbesUpTo(strict: bool, s: State, d: nat)
    requires Reachable(strict, s) && s.writer.pc.Idle? && s.writer.currentIndex < |s.ring.seqs| && d < |s.ring.seqs|
    requires HeldUpTo(s.ring.seqs, s.writer.currentIndex, d)
    ensures Reachable(strict, At(s, Probing(d)))
  {
    if d == 0 {
      Then(strict, s, BeginClaim);
    } else {
      ProbesUpTo(strict, s, d - 1);
      assert s.ring.seqs[Wrap(s.writer.currentIndex, d - 1, |s.ring.seqs|)] < 0;
      Then(strict, At(s, Probing(d - 1)), ProbeSlot);
    }
  }

  /** The claim loop finds the nearest unheld slot, d places on, past the held ones before it. */
  lemma Probes(strict: bool, s: State, d: nat)
    requires Reachable(strict, s) && s.writer.pc.Idle? && s.writer.currentIndex < |s.ring.seqs| && d < |s.ring.seqs|
    requires HeldUpTo(s.ring.seqs, s.writer.currentIndex, d)
    requires 0 <= s.ring.seqs[Wrap(s.writer.currentIndex, d, |s.ring.seqs|)]
    ensures Reachable(strict, At(s, Loaded(Wrap(s.writer.currentIndex, d, |s.ring.seqs|))))
  {
    ProbesUpTo(strict, s, d);
    Then(strict, At(s, Probing(d)), ProbeSlot);
  }

  /** The state after slot i has been zeroed and committed with whatever payload it had. */
  function CommittedState(s: State, i: nat): State
    requires i < |s.ring.seqs| == |s.ring.payloads|
  {
    s.(ring := Store(s.ring, i, s.writer.lastSeq + 1), log := s.log + [s.ring.payloads[i]],
       writer := Writer(Committed(i), Wrap(i, 1, |s.ring.seqs|), s.writer.lastSeq + 1))
  }

  lemma Commits(strict: bool, s: State, i: nat)
    requires Reachable(strict, At(s, Loaded(i))) && (strict ==> SafeClaim(At(s, Loaded(i)), ZeroSlot))
    requires i < |s.ring.seqs| == |s.ring.payloads| && s.writer.lastSeq < I64_MAX
    ensures Reachable(strict, CommittedState(s, i))
  {
    var loaded := At(s, Loaded(i));
    Then(strict, loaded, ZeroSlot);
    var zeroed := Step(loaded, ZeroSlot);
    Then(strict, zeroed, StoreSlot);
    assert s.ring.seqs[i := 0][i := s.writer.lastSeq + 1] == s.ring.seqs[i := s.writer.lastSeq + 1];
    assert Step(zeroed, StoreSlot) == CommittedState(s, i);
  }

  function Finished(s: State): State {
    var ring := s.ring.(writeIndex := s.writer.currentIndex, watermark := s.writer.lastSeq);
    At(s.(ring := ring), Idle)
  }

  lemma Finishes(s: State)
    requires Reachable(true, s) && s.writer.pc.Committed?
    ensures Reachable(true, Finished(s))
  {
    Then(true, s, StoreIndex);
    Then(true, Step(s, StoreIndex), StoreWatermark);
  }

  /** The first entry of a ring, committed in slot 0 and not yet in the header. */
  lemma FirstCommit(n: nat) returns (s: State)
    requires 0 < n
    ensures Reachable(true, s)
    ensures s.ring == FreshState(n).ring.(seqs := s.ring.seqs) && s.ring.seqs == seq(n, i => 0)[0 := 1]
    ensures |s.log| == 1
    ensures s.writer == Writer(Committed(0), Wrap(0, 1, n), 1) && s.readers == map[] && s.handles == map[]
  {
    var empty := FreshState(n);
    Begin(n);
    Restarts(empty);
    SmallModulo(0, n);
    var idle := Restarted(empty);
    assert idle.writer == Writer(Idle, 0, 0);
    Probes(true, idle, 0);
    Commits(true, idle, 0);
    s := CommittedState(idle, 0);
  }

  /** The maximum over rings of one, two and three slots. */
  lemma MaxOfOne(a: int, floor: nat)
    ensures MaxMagnitude([a], floor, 1) == if Abs(a) > floor then Abs(a) else floor
  {
    assert MaxMagnitude([a], floor, 0) == floor;
  }

  lemma MaxOfTwo(a: int, b: int, floor: nat)
    ensures var m := if Abs(a) > floor then Abs(a) else floor;
            MaxMagnitude([a, b], floor, 2) == if Abs(b) > m then Abs(b) else m
  {
    assert MaxMagnitude([a, b], floor, 0) == floor;
    assert MaxMagnitude([a, b], floor, 1) == if Abs(a) > floor then Abs(a) else floor;
  }

  lemma MaxOfThree(a: int, b: int, c: int)
    requires Abs(b) <= Abs(a) && Abs(c) <= Abs(a)
    ensures MaxMagnitude([a, b, c], 0, 3) == Abs(a)
  {
    assert MaxMagnitude([a, b, c], 0, 0) == 0;
    assert MaxMagnitude([a, b, c], 0, 1) == Abs(a);
    assert MaxMagnitude([a, b, c], 0, 2) == Abs(a);
  }

  // ── What goes wrong without the hypotheses ──────────────────────────────────

  /** Zeroing the claimed slot makes recovery come back with a number below the highest committed one. */
  ghost predicate ClaimForgetsNewest(s: State) {
    && WriterCan(s, ZeroSlot)
    && var after := WriterStep(s, ZeroSlot);
       MaxMagnitude(after.ring.seqs, after.ring.watermark, |after.ring.seqs|) < |after.log|
  }

  /** In t, a writer has just stored in its slot a number that the log of s already had. */
  ghost predicate IssuedAgain(s: State, t: State) {
    && t.writer.pc.Committed? && |t.log| == |s.log| + 1 && s.log <= t.log
    && t.writer.pc.index < |t.ring.seqs| && 0 < t.ring.seqs[t.writer.pc.index] <= |s.log|
  }

  /** A writer that recovers too low a number commits an entry under one that is taken, d slots on. */
  lemma IssuesAgain(s: State, headerIndex: nat, headerSeq: nat, d: nat) returns (t: State)
    requires Reachable(false, s) && s.writer.pc.Down? && d < |s.ring.seqs| == |s.ring.payloads|
    requires Recovered(s, headerIndex, headerSeq).writer.lastSeq < |s.log| <= I64_MAX
    requires var start := Recovered(s, headerIndex, headerSeq).writer.currentIndex;
             HeldUpTo(s.ring.seqs, start, d) && 0 <= s.ring.seqs[Wrap(start, d, |s.ring.seqs|)]
    ensures Reachable(false, t) && IssuedAgain(s, t)
  {
    Recovers(false, s, headerIndex, headerSeq);
    var idle := Recovered(s, headerIndex, headerSeq);
    Probes(false, idle, d);
    var i := Wrap(idle.writer.currentIndex, d, |s.ring.seqs|);
    Commits(false, idle, i);
    t := CommittedState(idle, i);
  }

  /** From an unsafe claim: the writer zeroes its slot and dies, the next one reuses a number. */
  lemma UnsafeClaimReuses(s: State, d: nat) returns (t: State)
    requires Reachable(true, s) && ClaimForgetsNewest(s) && |s.log| <= I64_MAX
    requires d < |s.ring.seqs| == |s.ring.payloads|
    requires var after := WriterStep(s, ZeroSlot);
             var start := Restarted(after).writer.currentIndex;
             HeldUpTo(after.ring.seqs, start, d) && 0 <= after.ring.seqs[Wrap(start, d, |after.ring.seqs|)]
    ensures Reachable(false, t) && IssuedAgain(s, t)
  {
    Relax(s);
    Then(false, s, ZeroSlot);
    Then(false, Step(s, ZeroSlot), Crash);
    var down := Step(Step(s, ZeroSlot), Crash);
    t := IssuesAgain(down, down.ring.writeIndex, down.ring.watermark, d);
  }

  /**
   * A ring of one slot: a writer that dies inside its publish, and a successor that dies inside its
   * claim, make the next one issue number 1 again.
   */
  lemma OneSlotReusesNumber() returns (s: State, t: State)
    ensures Reachable(true, s) && |s.ring.seqs| == 1 && s.handles == map[]
    ensures !SafeClaim(s, ZeroSlot) && ClaimForgetsNewest(s)
    ensures Reachable(false, t) && IssuedAgain(s, t)
  {
    var first := FirstCommit(1);
    assert first.ring.seqs == [1];
    Then(true, first, Crash);
    var down := Step(first, Crash);
    Restarts(down);
    MaxOfOne(1, 0);
    SmallModulo(0, 1);
    Probes(true, Restarted(down), 0);
    s := At(Restarted(down), Loaded(0));
    assert Step(s, ZeroSlot).ring.seqs == [0];
    MaxOfOne(0, 0);
    t := UnsafeClaimReuses(s, 0);
  }

  /**
   * A stale header: decoded before entry 1 was committed and used after its slot was claimed again,
   * it makes an attaching writer issue number 1 again.
   */
  lemma StaleHeaderReusesNumber() returns (s: State, t: State)
    ensures Reachable(true, s) && s.writer.pc.Down? && !HeaderCurrent(s, Attach(0, 0)) && !Informed(s, Attach(0, 0))
    ensures Reachable(false, t) && IssuedAgain(s, t)
  {
    var first := FirstCommit(1);
    assert first.ring.seqs == [1];
    Finishes(first);
    var idle := Finished(first);
    Probes(true, idle, 0);
    var loaded := At(idle, Loaded(0));
    Then(true, loaded, ZeroSlot);
    var zeroed := Step(loaded, ZeroSlot);
    Then(true, zeroed, Crash);
    s := Step(zeroed, Crash);
    assert s.ring.seqs == [0];
    MaxOfOne(0, 0);
    SmallModulo(0, 1);
    Relax(s);
    t := IssuesAgain(s, 0, 0, 0);
  }

  /**
   * Three slots, two writers in a row that die between slot store and index store: the third one
   * resumes two slots back, out of order.
   */
  lemma RepeatedCrashLosesOrder() returns (s: State)
    ensures Reachable(true, s) && |s.ring.seqs| == 3 && s.handles == map[]
    ensures s.writer.pc.Committed? && !IndexCrashSafe(s, Crash)
    ensures ResumeIndex(s.ring.seqs, s.ring.writeIndex, |s.log|) != Cursor(|s.log|, |s.ring.seqs|)
  {
    var idle := CrashedOnce();
    Probes(true, idle, 0);
    Commits(true, idle, 1);
    s := CommittedState(idle, 1);
    assert s.ring.seqs == [1, 2, 0];
  }

  /** Three slots, one writer dead between slot store and index store, its successor recovered. */
  lemma CrashedOnce() returns (s: State)
    ensures Reachable(true, s) && s.ring.seqs == [1, 0, 0] && |s.ring.payloads| == 3 && s.handles == map[]
    ensures s.ring.writeIndex == 0 && s.ring.watermark == 0 && |s.log| == 1 && s.writer == Writer(Idle, 1, 1)
  {
    var first := FirstCommit(3);
    assert first.ring.seqs == [1, 0, 0];
    Then(true, first, Crash);
    var down := Step(first, Crash);
    Restarts(down);
    MaxOfThree(1, 0, 0);
    SmallModulo(0, 3);
    s := Restarted(down);
  }

  /** A zero-copy reader arrives and locates entry 1 of a one-slot ring. */
  lemma LocatesOnly(s: State) returns (t: State)
    requires Reachable(true, s) && s.ring.seqs == [1] && s.ring.watermark == 1
    requires s.ring.payloadBytes == 8 && s.readers == map[]
    ensures Reachable(true, t) && t == s.(readers := t.readers) && 0 in t.readers
    ensures t.readers[0].pc.Located? && t.readers[0].pc.call.mode.ZeroCopy? && t.readers[0].pc.at == Found(0, 1)
  {
    var dst: seq<byte> := [0, 0, 0, 0, 0, 0, 0, 0];
    Then(true, s, OpenReader(0));
    var s1 := Step(s, OpenReader(0));
    Then(true, s1, StartRead(0, ZeroCopy, None, dst));
    var s2 := Step(s1, StartRead(0, ZeroCopy, None, dst));
    Then(true, s2, LoadProbe(0));
    t := Step(s2, LoadProbe(0));
  }

  /** The window of `claim_slot` is reachable, and an acquire that lands there leaves a handle without its pin. */
  lemma WindowRaceBreaksPin() returns (s: State, i: nat)
    ensures Reachable(true, s) && ReaderCan(s, Swap(0)) && !OutsideClaimWindow(s, Swap(0))
    ensures WriterCan(ReaderStep(s, Swap(0)), ZeroSlot)
    ensures var broken := WriterStep(ReaderStep(s, Swap(0)), ZeroSlot);
            i in broken.handles && i < |broken.ring.seqs| && broken.ring.seqs[i] == 0
  {
    var first := FirstCommit(1);
    assert first.ring.seqs == [1];
    Finishes(first);
    var located := LocatesOnly(Finished(first));
    Probes(true, located, 0);
    s, i := At(located, Loaded(0)), 0;
  }

  /** State s with one reader, at the given point of its zero-copy read. */
  function Reading(s: State, pc: ReaderPc): State {
    s.(readers := map[0 := Reader(0, 0, [0, 0, 0, 0, 0, 0, 0, 0], pc, [])])
  }

  const FIRST_CALL := Call(ZeroCopy, 0, false)

  /** A zero-copy reader arrives at a two-slot ring; its probe misses. */
  lemma Arrives(s: State)
    requires Reachable(true, s) && s.ring.seqs == [1, 2] && s.ring.watermark == 2
    requires s.ring.payloadBytes == 8 && s.readers == map[]
    ensures Reachable(true, Reading(s, Scan(FIRST_CALL, READ_RETRIES, 0, None)))
  {
    var dst: seq<byte> := [0, 0, 0, 0, 0, 0, 0, 0];
    Then(true, s, OpenReader(0));
    Then(true, Step(s, OpenReader(0)), StartRead(0, ZeroCopy, None, dst));
    var probing := Reading(s, Probe(FIRST_CALL, READ_RETRIES));
    assert Step(Step(s, OpenReader(0)), StartRead(0, ZeroCopy, None, dst)) == probing;
    Then(true, probing, LoadProbe(0));
    assert Step(probing, LoadProbe(0)) == Reading(s, Scan(FIRST_CALL, READ_RETRIES, 0, None));
  }

  lemma Scans(s: State, idx: nat, best: Option<Found>)
    requires Reachable(true, Reading(s, Scan(FIRST_CALL, READ_RETRIES, idx, best))) && idx < |s.ring.seqs|
    ensures var next := Consider(best, 0, idx, s.ring.seqs[idx]);
            Reachable(true, Reading(s, Scan(FIRST_CALL, READ_RETRIES, idx + 1, next)))
  {
    var before := Reading(s, Scan(FIRST_CALL, READ_RETRIES, idx, best));
    Then(true, before, LoadScan(0));
    var next := Consider(best, 0, idx, s.ring.seqs[idx]);
    assert Step(before, LoadScan(0)) == Reading(s, Scan(FIRST_CALL, READ_RETRIES, idx + 1, next));
  }

  lemma Locates(s: State, at: Found)
    requires Reachable(true, Reading(s, Scan(FIRST_CALL, READ_RETRIES, |s.ring.seqs|, Some(at))))
    ensures Reachable(true, Reading(s, Located(FIRST_CALL, READ_RETRIES, at, {})))
  {
    var scanned := Reading(s, Scan(FIRST_CALL, READ_RETRIES, |s.ring.seqs|, Some(at)));
    Then(true, scanned, LoadScan(0));
    assert Step(scanned, LoadScan(0)) == Reading(s, Located(FIRST_CALL, READ_RETRIES, at, {}));
  }

  lemma Acquires(s: State, at: Found) returns (t: State)
    requires Reachable(true, Reading(s, Located(FIRST_CALL, READ_RETRIES, at, {})))
    requires at.index < |s.ring.seqs| == |s.ring.payloads| && s.ring.seqs[at.index] == AsI64(at.entrySeq)
    requires s.writer.pc.Idle? && at.index !in s.handles
    ensures Reachable(true, t)
    ensures t == s.(ring := Store(s.ring, at.index, -AsI64(at.entrySeq)), readers := t.readers,
                    handles := s.handles[at.index := at.entrySeq])
  {
    var located := Reading(s, Located(FIRST_CALL, READ_RETRIES, at, {}));
    Then(true, located, Swap(0));
    t := Step(located, Swap(0));
  }

  /** A zero-copy reader arrives and pins entry 1 of a two-slot ring. */
  lemma PinsOlder(s: State) returns (t: State)
    requires Reachable(true, s) && s.ring.seqs == [1, 2] && |s.ring.payloads| == 2 && s.ring.watermark == 2
    requires s.ring.payloadBytes == 8 && s.writer.pc.Idle? && s.readers == map[] && s.handles == map[]
    ensures Reachable(true, t)
    ensures t == s.(ring := s.ring.(seqs := [-1, 2]), readers := t.readers, handles := s.handles[0 := 1])
  {
    Arrives(s);
    Scans(s, 0, None);
    Scans(s, 1, Some(Found(0, 1)));
    Locates(s, Found(0, 1));
    t := Acquires(s, Found(0, 1));
  }

  lemma FillsTwo() returns (s: State)
    ensures Reachable(true, s) && s.ring.seqs == [1, 2] && |s.ring.payloads| == 2 && s.ring.payloadBytes == 8
    ensures s.ring.watermark == 2 && s.ring.writeIndex == 0 && |s.log| == 2
    ensures s.writer == Writer(Idle, 0, 2) && s.readers == map[] && s.handles == map[]
  {
    var first := FirstCommit(2);
    assert first.ring.seqs == [1, 0];
    Finishes(first);
    var idle := Finished(first);
    Probes(true, idle, 0);
    Commits(true, idle, 1);
    Finishes(CommittedState(idle, 1));
    s := Finished(CommittedState(idle, 1));
  }

  /**
   * Two slots, the older one pinned: the newest entry, committed but not in the header, is the next to
   * be claimed, and if that claim is cut short, number 3 is issued again.
   */
  lemma PinnedRingReusesNumber() returns (s: State, t: State)
    ensures Reachable(true, s) && |s.ring.seqs| == 2
    ensures !SafeClaim(s, ZeroSlot) && ClaimForgetsNewest(s)
    ensures Reachable(false, t) && IssuedAgain(s, t)
  {
    var idle := PinnedCrash();
    Probes(true, idle, 1);
    s := At(idle, Loaded(1));
    assert Step(s, ZeroSlot).ring.seqs == [-1, 0];
    MaxOfTwo(-1, 0, 2);
    SmallModulo(0, 2);
    t := UnsafeClaimReuses(s, 1);
  }

  /** The older slot pinned, the writer of entry 3 dead right after its slot store, its successor recovered. */
  lemma PinnedCrash() returns (s: State)
    ensures Reachable(true, s) && s.ring.seqs == [-1, 3] && |s.ring.payloads| == 2
    ensures s.ring.watermark == 2 && s.ring.writeIndex == 0 && |s.log| == 3 && s.writer == Writer(Idle, 0, 3)
  {
    var filled := FillsTwo();
    var pinned := PinsOlder(filled);
    Probes(true, pinned, 1);
    Commits(true, pinned, 1);
    var third := CommittedState(pinned, 1);
    assert third.ring.seqs == [-1, 3];
    Then(true, third, Crash);
    var down := Step(third, Crash);
    Restarts(down);
    MaxOfTwo(-1, 3, 2);
    SmallModulo(0, 2);
    s := Restarted(down);
  }

  // ── Watermarks without an entry to show for ─────────────────────────────────

  /** One slot: while it is claimed again, the watermark promises an entry that no slot shows. */
  lemma OneSlotBreaksPromise() returns (s: State)
    ensures Reachable(true, s) && |s.ring.seqs| == 1 && s.handles == map[] && !PromiseKept(s.ring)
  {
    var first := FirstCommit(1);
    assert first.ring.seqs == [1];
    Finishes(first);
    var idle := Finished(first);
    Probes(true, idle, 0);
    Then(true, At(idle, Loaded(0)), ZeroSlot);
    s := Step(At(idle, Loaded(0)), ZeroSlot);
    assert s.ring.seqs == [0];
  }

  /** Two slots, the older one pinned: the same, while the other is claimed again. */
  lemma PinnedRingBreaksPromise() returns (s: State)
    ensures Reachable(true, s) && |s.ring.seqs| == 2 && !PromiseKept(s.ring)
  {
    var filled := FillsTwo();
    var pinned := PinsOlder(filled);
    Probes(true, pinned, 1);
    Then(true, At(pinned, Loaded(1)), ZeroSlot);
    s := Step(At(pinned, Loaded(1)), ZeroSlot);
    assert s.ring.seqs == [-1, 0];
  }

  // ── A read that returns nothing may still have written ──────────────────────

  const COPY_CALL := Call(OneCopy, 0, false)

  /** The caller's buffer of ones, its first j bytes overwritten with a payload of zeros. */
  function Mixed(j: nat): seq<byte> {
    seq(8, m => if m < j then 0 else 1)
  }

  function Positions(j: nat): (ps: set<nat>)
    ensures forall m: nat :: m in ps <==> m < j
  {
    if j == 0 then {} else Positions(j - 1) + {j - 1}
  }

  function Copying(s: State, j: nat): State {
    WithReader(s, Mixed(j), Located(COPY_CALL, READ_RETRIES, Found(0, 1), Positions(j)))
  }

  function WithReader(s: State, dst: seq<byte>, pc: ReaderPc): State {
    s.(readers := map[0 := Reader(0, 0, dst, pc, [])])
  }

  lemma StartsCopy(s: State)
    requires Reachable(true, s) && s.ring.seqs == [1] && s.ring.watermark == 1
    requires s.ring.payloadBytes == 8 && s.readers == map[]
    ensures Reachable(true, Copying(s, 0))
  {
    Then(true, s, OpenReader(0));
    Then(true, Step(s, OpenReader(0)), StartRead(0, OneCopy, None, Mixed(0)));
    var probing := WithReader(s, Mixed(0), Probe(COPY_CALL, READ_RETRIES));
    assert Step(Step(s, OpenReader(0)), StartRead(0, OneCopy, None, Mixed(0))) == probing;
    Then(true, probing, LoadProbe(0));
    assert Step(probing, LoadProbe(0)) == Copying(s, 0);
  }

  lemma {:induction false} CopiesUpTo(s: State, j: nat)
    requires Reachable(true, Copying(s, 0)) && s.ring.payloads == [seq(8, m => 0 as byte)] && j <= 8
    ensures Reachable(true, Copying(s, j))
  {
    if j > 0 {
      CopiesUpTo(s, j - 1);
      Then(true, Copying(s, j - 1), CopyByte(0, j - 1));
      assert Mixed(j - 1)[j - 1 := 0] == Mixed(j);
      assert Step(Copying(s, j - 1), CopyByte(0, j - 1)) == Copying(s, j);
    }
  }

  /** After the slot is claimed again, the copy is discarded. */
  lemma Discards(s: State)
    requires Reachable(true, Copying(s, 8)) && s.ring.seqs == [0]
    ensures Reachable(true, WithReader(s, Mixed(8), Probe(COPY_CALL, READ_RETRIES - 1)))
  {
    Then(true, Copying(s, 8), Recheck(0));
    assert Step(Copying(s, 8), Recheck(0)) == WithReader(s, Mixed(8), Probe(COPY_CALL, READ_RETRIES - 1));
  }

  /** The second look finds nothing. */
  lemma GivesUp(s: State, dst: seq<byte>)
    requires Reachable(true, WithReader(s, dst, Probe(COPY_CALL, READ_RETRIES - 1))) && s.ring.seqs == [0]
    ensures Reachable(true, WithReader(s, dst, Resting))
  {
    var again := WithReader(s, dst, Probe(COPY_CALL, READ_RETRIES - 1));
    Then(true, again, LoadProbe(0));
    var scan0 := WithReader(s, dst, Scan(COPY_CALL, READ_RETRIES - 1, 0, None));
    assert Step(again, LoadProbe(0)) == scan0;
    Then(true, scan0, LoadScan(0));
    var scan1 := WithReader(s, dst, Scan(COPY_CALL, READ_RETRIES - 1, 1, None));
    assert Step(scan0, LoadScan(0)) == scan1;
    FindsNothing(s, dst);
  }

  lemma FindsNothing(s: State, dst: seq<byte>)
    requires Reachable(true, WithReader(s, dst, Scan(COPY_CALL, READ_RETRIES - 1, 1, None))) && |s.ring.seqs| == 1
    ensures Reachable(true, WithReader(s, dst, Resting))
  {
    var scanned := WithReader(s, dst, Scan(COPY_CALL, READ_RETRIES - 1, 1, None));
    Then(true, scanned, LoadScan(0));
    assert Step(scanned, LoadScan(0)) == WithReader(s, dst, Resting);
  }

  /** A reader that handed in a buffer of ones was told there is nothing, and finds it overwritten with zeros. */
  lemma NothingMayDirtyBuffer() returns (s: State)
    ensures Reachable(true, s) && 0 in s.readers && s.readers[0].pc.Resting? && s.readers[0].deliveries == []
    ensures s.readers[0].dst == Mixed(8) && Mixed(8) != Mixed(0)
  {
    var first := FirstCommit(1);
    assert first.ring.seqs == [1];
    Finishes(first);
    var idle := Finished(first);
    StartsCopy(idle);
    CopiesUpTo(idle, 8);
    Probes(true, Copying(idle, 8), 0);
    var loaded := At(Copying(idle, 8), Loaded(0));
    Then(true, loaded, ZeroSlot);
    var zeroed := idle.(ring := idle.ring.(seqs := [0]), writer := idle.writer.(pc := Filling(0)));
    assert Step(loaded, ZeroSlot) == Copying(zeroed, 8);
    Discards(zeroed);
    GivesUp(zeroed, Mixed(8));
    s := WithReader(zeroed, Mixed(8), Resting);
    assert Mixed(8)[0] == 0 && Mixed(0)[0] == 1;
  }
}
