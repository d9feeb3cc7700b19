/** What readers are promised over whole runs: untorn entries, increasing numbers, no entry passed over. */
module Reads {
  import opened Words
  import opened Rings
  import opened Protocol
  import opened Shapes
  import opened Issues
  import opened Pins
  import opened Safety

  // ── Entries, as long as no number is issued twice ───────────────────────────

  /** A slot that does not carry entry s, once s is committed, never carries s again. */
  lemma NeverShownAgain(run: Run, a: nat, b: nat, i: nat, s: nat)
    requires NoReuseRun(run) && a <= b < |run.states|
    requires i < |run.states[a].ring.seqs| && 0 < s <= |run.states[a].log|
    requires Abs(run.states[a].ring.seqs[i]) != s
    ensures i < |run.states[b].ring.seqs| && Abs(run.states[b].ring.seqs[i]) != s
  {
    RunEvolves(run, a, b);
  }

  /**
   * Torn-read freedom: in every interleaving, each entry handed to a reader's caller, by copy or in
   * place, is newer than the call's watermark, overridden or not, and byte for byte the payload
   * committed under its number, then and ever after.
   */
  lemma TornReadFreedom(run: Run, k: nat, m: nat, r: nat, d: nat)
    requires NoReuseRun(run) && k <= m < |run.states|
    requires r in run.states[k].readers && d < |run.states[k].readers[r].deliveries|
    ensures var got := run.states[k].readers[r].deliveries[d];
            got.watermark < got.entrySeq <= |run.states[m].log| && got.payload == run.states[m].log[got.entrySeq - 1]
  {
    RunBacked(run, k);
    RunEvolves(run, k, m);
    var ds := run.states[k].readers[r].deliveries;
    assert DeliveryInv(ds[d], run.states[k].log);
    assert DeliveryShape(ds, d);
  }

  /** A `read_into` that returns s leaves entry s in the caller's buffer, and s is newer than asked for. */
  lemma ReadReturnsEntry(run: Run, k: nat, r: nat)
    requires NoReuseRun(run) && k < |run.events| && run.events[k] == Recheck(r)
    requires r in run.states[k].readers && r in run.states[k + 1].readers
    requires run.states[k + 1].readers[r].deliveries != run.states[k].readers[r].deliveries
    ensures run.states[k].readers[r].pc.Located?
    ensures var before, after := run.states[k].readers[r], run.states[k + 1].readers[r];
            && before.pc.call.watermark < after.lastSeq <= |run.states[k + 1].log|
            && after.dst == run.states[k + 1].log[after.lastSeq - 1]
  {
    assert IsStep(run, k);
    RunBacked(run, k);
    RecheckProvesCopy(run.states[k].readers[r], run.states[k].ring, run.states[k].log);
  }

  /** A pinned slot holds its committed entry, from the moment it is negative until its handle is released. */
  lemma PinnedEntryStays(run: Run, a: nat, b: nat, i: nat)
    requires NoReuseRun(run) && a <= b < |run.states|
    requires i < |run.states[a].ring.seqs| && run.states[a].ring.seqs[i] < 0
    requires forall k :: a <= k < b ==> run.events[k] != ReleaseHandle(i)
    ensures i < |run.states[b].ring.payloads| && -run.states[a].ring.seqs[i] <= |run.states[a].log|
    ensures run.states[b].ring.payloads[i] == run.states[a].log[-run.states[a].ring.seqs[i] - 1]
  {
    RunBacked(run, a);
    PinHolds(run, a, b, i);
    assert SlotInv(run.states[a].ring.seqs[i], run.states[a].ring.payloads[i], run.states[a].log);
  }

  /** What an acquire hands out is a committed entry, in place. */
  lemma AcquiredEntry(run: Run, k: nat, r: nat)
    requires NoReuseRun(run) && k < |run.events| && run.events[k] == Swap(r)
    requires run.states[k + 1].handles != run.states[k].handles
    ensures r in run.states[k].readers && run.states[k].readers[r].pc.Located?
    ensures var at, after := run.states[k].readers[r].pc.at, run.states[k + 1];
            && at.index < |after.ring.payloads| && 0 < at.entrySeq <= |after.log|
            && after.ring.payloads[at.index] == after.log[at.entrySeq - 1]
  {
    AcquirePins(run, k, r);
    RunBacked(run, k);
    assert IsStep(run, k);
    var s, at := run.states[k], run.states[k].readers[r].pc.at;
    assert SlotInv(s.ring.seqs[at.index], s.ring.payloads[at.index], s.log);
  }

  /** In every ring such a run can produce, `locate` with its probe is the full minimum scan, index included. */
  lemma FastPathInRuns(run: Run, k: nat, lastIdx: nat, watermark: nat)
    requires NoReuseRun(run) && k < |run.states| && lastIdx < |run.states[k].ring.seqs| && watermark <= U64_MAX
    ensures var seqs := run.states[k].ring.seqs;
            Locate(seqs, lastIdx, watermark) == ScanTo(seqs, watermark, |seqs|)
  {
    RunBacked(run, k);
    FastPathRefinesScan(run.states[k].ring.seqs, lastIdx, watermark);
  }

  // ── Numbers, in every run ───────────────────────────────────────────────────

  /** Whatever the environment does, `locate` answers with the oldest newer number, probe or scan. */
  lemma FastPathAlways(run: Run, k: nat, lastIdx: nat, watermark: nat)
    requires IsRun(run) && k < |run.states| && lastIdx < |run.states[k].ring.seqs| && watermark <= U64_MAX
    ensures IsOldestNewer(run.states[k].ring.seqs, watermark, Locate(run.states[k].ring.seqs, lastIdx, watermark))
  {
    RunShape(run, k);
    var seqs := run.states[k].ring.seqs;
    forall i | 0 <= i < |seqs|
      ensures seqs[i] <= I64_MAX
    {
      assert Abs(seqs[i]) <= I64_MAX;
    }
    FastPathRefinesScan(seqs, lastIdx, watermark);
  }

  /** Each delivery is newer than its call's watermark: the override, or else the delivery before it. */
  lemma DeliveryIsNewer(run: Run, k: nat, r: nat, d: nat)
    requires IsRun(run) && k < |run.states| && r in run.states[k].readers
    requires d < |run.states[k].readers[r].deliveries|
    ensures var ds := run.states[k].readers[r].deliveries;
            && ds[d].watermark < ds[d].entrySeq
            && (!ds[d].overridden ==> ds[d].watermark == if d == 0 then 0 else ds[d - 1].entrySeq)
  {
    RunShape(run, k);
    assert DeliveryShape(run.states[k].readers[r].deliveries, d);
  }

  /** Each delivery names an entry really committed: some earlier publish stored its number in a slot. */
  lemma DeliveryWasCommitted(run: Run, k: nat, r: nat, d: nat) returns (m: nat)
    requires IsRun(run) && k < |run.states| && r in run.states[k].readers
    requires d < |run.states[k].readers[r].deliveries|
    ensures m < k && run.events[m].StoreSlot? && run.states[m].writer.pc.Filling?
    ensures run.states[m].writer.pc.index < |run.states[m + 1].ring.seqs|
    ensures var number := run.states[k].readers[r].deliveries[d].entrySeq;
            run.states[m + 1].ring.seqs[run.states[m].writer.pc.index] == run.states[m + 1].writer.lastSeq == number
  {
    RunGenuine(run, k);
    assert GenuineReader(run.states[k].readers[r], Issued(run, k));
    m := StoreOf(run, k, run.states[k].readers[r].deliveries[d].entrySeq);
    assert IsStep(run, m);
  }

  /** Without an override, one reader's deliveries strictly increase. */
  lemma {:induction false} DeliveriesIncrease(run: Run, k: nat, r: nat, a: nat, b: nat)
    requires IsRun(run) && k < |run.states| && r in run.states[k].readers
    requires a < b < |run.states[k].readers[r].deliveries|
    requires forall d :: a < d <= b ==> !run.states[k].readers[r].deliveries[d].overridden
    ensures run.states[k].readers[r].deliveries[a].entrySeq < run.states[k].readers[r].deliveries[b].entrySeq
    decreases b - a
  {
    DeliveryIsNewer(run, k, r, b);
    if a < b - 1 {
      DeliveriesIncrease(run, k, r, a, b - 1);
    }
  }

  // ── The concurrent scan ─────────────────────────────────────────────────────

  /** From state a to state b reader r works on one `locate`: a probe or a scan, and no delivery between. */
  ghost predicate OneLocate(run: Run, r: nat, a: nat, b: nat)
    requires a <= b < |run.states|
  {
    && r in run.states[a].readers && run.states[a].readers[r].pc.Probe?
    && forall k :: a < k < b ==>
         r in run.states[k].readers && (run.states[k].readers[r].pc.Scan? || run.states[k].readers[r].pc.Probe?)
  }

  /** Entry t stays committed and unheld in slot j from state a to state b. */
  ghost predicate Stays(run: Run, j: nat, t: nat, a: nat, b: nat)
    requires a <= b < |run.states|
  {
    forall k :: a <= k <= b ==> j < |run.states[k].ring.seqs| && run.states[k].ring.seqs[j] == t
  }

  /** A scan that is past slot j has seen t, and keeps something at most as large. */
  ghost predicate SeenBy(rd: Reader, watermark: nat, j: nat, t: nat) {
    match rd.pc
    case Probe(call, _) => call.watermark == watermark
    case Scan(call, _, idx, best) => call.watermark == watermark && (j < idx ==> best.Some? && best.value.entrySeq <= t)
    case Located(call, _, at, _) => call.watermark == watermark && at.entrySeq <= t
    case Resting => false
  }

  lemma LoadSees(rd: Reader, seqs: seq<int>, watermark: nat, j: nat, t: nat)
    requires j < |seqs| && seqs[j] == t && watermark < t && SeenBy(rd, watermark, j, t)
    ensures rd.pc.Probe? && rd.lastIdx < |seqs| && watermark <= U64_MAX ==>
              SeenBy(AfterLoadProbe(rd, seqs), watermark, j, t)
    ensures rd.pc.Scan? && rd.pc.idx <= |seqs| ==> SeenBy(AfterLoadScan(rd, seqs), watermark, j, t)
  {}

  lemma ScanStepSees(s: State, e: Event, r: nat, watermark: nat, j: nat, t: nat)
    requires Can(s, e) && r in s.readers && (s.readers[r].pc.Scan? || s.readers[r].pc.Probe?)
    requires j < |s.ring.seqs| && s.ring.seqs[j] == t && watermark < t
    requires SeenBy(s.readers[r], watermark, j, t)
    ensures r in Step(s, e).readers ==> SeenBy(Step(s, e).readers[r], watermark, j, t)
  {
    if e == LoadProbe(r) || e == LoadScan(r) {
      LoadSees(s.readers[r], s.ring.seqs, watermark, j, t);
    } else if r in Step(s, e).readers {
      ReaderFrame(s, e, r);
    }
  }

  lemma {:induction false} ScanSees(run: Run, r: nat, a: nat, b: nat, j: nat, t: nat)
    requires IsRun(run) && a <= b < |run.states| && OneLocate(run, r, a, b) && Stays(run, j, t, a, b)
    requires run.states[a].readers[r].pc.call.watermark < t
    requires r in run.states[b].readers
    ensures SeenBy(run.states[b].readers[r], run.states[a].readers[r].pc.call.watermark, j, t)
    decreases b - a
  {
    if a < b {
      ScanSees(run, r, a, b - 1, j, t);
      assert IsStep(run, b - 1);
      ScanStepSees(run.states[b - 1], run.events[b - 1], r, run.states[a].readers[r].pc.call.watermark, j, t);
    }
  }

  /**
   * Although `locate` loads the words one by one while the writer runs, it neither comes back empty
   * nor passes over an entry newer than the watermark that stays where it is for the whole call.
   */
  lemma ScanDoesNotSkip(run: Run, r: nat, a: nat, b: nat, j: nat, t: nat)
    requires IsRun(run) && a < b < |run.states| && OneLocate(run, r, a, b) && Stays(run, j, t, a, b)
    requires run.states[a].readers[r].pc.call.watermark < t
    requires r in run.states[b].readers
    requires !run.states[b].readers[r].pc.Scan? && !run.states[b].readers[r].pc.Probe?
    ensures run.states[b].readers[r].pc.Located? && run.states[b].readers[r].pc.at.entrySeq <= t
  {
    ScanSees(run, r, a, b, j, t);
  }

  // ── Wait-freedom ────────────────────────────────────────────────────────────

  /** How many more steps a call can take, whatever the others do: per try a probe, n loads, a choice, a check. */
  function StepsLeft(pc: ReaderPc, n: nat): int {
    match pc
    case Resting => 0
    case Probe(_, tries) => tries * (n + 3)
    case Scan(_, tries, idx, _) => tries * (n + 3) - idx - 1
    case Located(_, tries, _, _) => tries * (n + 3) - n - 2
  }

  lemma TriesDecrease(tries: nat, n: nat)
    requires 1 <= tries <= READ_RETRIES
    ensures tries * (n + 3) == (tries - 1) * (n + 3) + n + 3
    ensures (tries - 1) * (n + 3) >= 0 && tries * (n + 3) <= READ_RETRIES * (n + 3)
  {}

  /** A step of reader r's own call, other than copying a byte. */
  predicate OwnStep(e: Event, r: nat) {
    e == LoadProbe(r) || e == LoadScan(r) || e == Recheck(r) || e == Swap(r)
  }

  lemma ReadStepAdvances(s: State, e: Event, r: nat)
    requires Can(s, e) && OwnStep(e, r) && 1 <= s.readers[r].pc.tries <= READ_RETRIES
    ensures r in Step(s, e).readers
    ensures 0 <= StepsLeft(Step(s, e).readers[r].pc, |s.ring.seqs|) < StepsLeft(s.readers[r].pc, |s.ring.seqs|)
  {
    TriesDecrease(s.readers[r].pc.tries, |s.ring.seqs|);
  }

  /** A read never spins: each of its own loads, checks and swaps brings its end closer, under any interference. */
  lemma ReadIsWaitFree(run: Run, k: nat, r: nat)
    requires IsRun(run) && k < |run.events| && OwnStep(run.events[k], r)
    ensures r in run.states[k].readers && r in run.states[k + 1].readers
    ensures var n := |run.states[0].ring.seqs|;
            0 <= StepsLeft(run.states[k + 1].readers[r].pc, n) < StepsLeft(run.states[k].readers[r].pc, n)
  {
    RunShape(run, k);
    assert IsStep(run, k);
    assert ReaderShape(run.states[k].readers[r], |run.states[k].ring.seqs|, run.states[k].ring.payloadBytes);
    ReadStepAdvances(run.states[k], run.events[k], r);
  }

  /** What the others do, and copying bytes, does not set a reader back. */
  lemma OthersDoNotDelay(s: State, e: Event, r: nat)
    requires Can(s, e) && r in s.readers && r in Step(s, e).readers && !s.readers[r].pc.Resting?
    requires !OwnStep(e, r)
    ensures StepsLeft(Step(s, e).readers[r].pc, |s.ring.seqs|) == StepsLeft(s.readers[r].pc, |s.ring.seqs|)
  {}

  /** Event a starts a call of reader r, which is still under way in every state up to b. */
  ghost predicate InCall(run: Run, r: nat, a: nat, b: nat)
    requires |run.states| == |run.events| + 1 && a < b < |run.states|
  {
    && run.events[a].StartRead? && run.events[a].r == r
    && forall k :: a < k <= b ==> r in run.states[k].readers && !run.states[k].readers[r].pc.Resting?
  }

  /** How many of the events from a up to b are reader r's own steps. */
  function OwnSteps(run: Run, r: nat, a: nat, b: nat): nat
    requires a <= b <= |run.events|
    decreases b - a
  {
    if a == b then 0 else OwnSteps(run, r, a, b - 1) + if OwnStep(run.events[b - 1], r) then 1 else 0
  }

  lemma {:induction false} StepsAddUp(run: Run, r: nat, a: nat, b: nat)
    requires IsRun(run) && a < b < |run.states| && InCall(run, r, a, b)
    ensures var n := |run.states[0].ring.seqs|;
            OwnSteps(run, r, a + 1, b) + StepsLeft(run.states[b].readers[r].pc, n) <= READ_RETRIES * (n + 3)
    decreases b - a
  {
    assert IsStep(run, b - 1);
    RunShape(run, b - 1);
    if a + 1 < b {
      StepsAddUp(run, r, a, b - 1);
      if OwnStep(run.events[b - 1], r) {
        ReadIsWaitFree(run, b - 1, r);
      } else {
        OthersDoNotDelay(run.states[b - 1], run.events[b - 1], r);
      }
    }
  }

  /**
   * The bound itself: whatever the others do, one call takes at most READ_RETRIES (n + 3) steps of
   * its own besides the bytes it copies, its last one included.
   */
  lemma CallIsShort(run: Run, r: nat, a: nat, b: nat)
    requires IsRun(run) && a < b < |run.events| && InCall(run, r, a, b)
    ensures OwnSteps(run, r, a + 1, b + 1) <= READ_RETRIES * (|run.states[0].ring.seqs| + 3)
  {
    StepsAddUp(run, r, a, b);
    RunShape(run, b);
    assert ReaderShape(run.states[b].readers[r], |run.states[b].ring.seqs|, run.states[b].ring.payloadBytes);
    TriesDecrease(run.states[b].readers[r].pc.tries, |run.states[b].ring.seqs|);
  }

  // ── The buffer of a call that returns nothing ───────────────────────────────

  predicate IsCopy(e: Event, r: nat) {
    e.CopyByte? && e.r == r
  }

  /** The call that event a started has written to its caller's buffer before event b. */
  ghost predicate Wrote(run: Run, r: nat, a: nat, b: nat)
    requires a < b <= |run.events|
  {
    exists k :: a < k < b && IsCopy(run.events[k], r)
  }

  /** Whether a copying call has written to its buffer, told from where it stands. */
  ghost predicate HasWritten(pc: ReaderPc)
    requires !pc.Resting?
  {
    pc.tries < READ_RETRIES || (pc.Located? && pc.copied != {})
  }

  /** What one step does to a copying call: `before` and `after` are its reader. */
  ghost predicate BufferKept(before: Reader, after: Reader, copies: bool)
    requires !before.pc.Resting?
  {
    if after.pc.Resting? then
      after.deliveries == before.deliveries ==>
        !copies && after.dst == before.dst && (HasWritten(before.pc) <==> before.pc.tries < READ_RETRIES)
    else
      && after.pc.call == before.pc.call && after.deliveries == before.deliveries
      && (HasWritten(after.pc) <==> HasWritten(before.pc) || copies)
      && (!copies ==> after.dst == before.dst)
  }

  lemma BufferOwnStep(s: State, e: Event, r: nat)
    requires RingShape(s.ring) && Can(s, e) && OwnStep(e, r) && s.ring.payloadBytes > 0
    requires ReaderShape(s.readers[r], |s.ring.seqs|, s.ring.payloadBytes) && s.readers[r].pc.call.mode.OneCopy?
    ensures r in Step(s, e).readers && BufferKept(s.readers[r], Step(s, e).readers[r], false)
  {
    assert e == Recheck(r) ==> 0 in s.readers[r].pc.copied;
  }

  lemma BufferCopy(s: State, e: Event, r: nat)
    requires Can(s, e) && IsCopy(e, r)
    ensures r in Step(s, e).readers && BufferKept(s.readers[r], Step(s, e).readers[r], true)
  {
    assert e.j in Step(s, e).readers[r].pc.copied;
  }

  lemma BufferStep(s: State, e: Event, r: nat)
    requires Shape(s) && Can(s, e) && r in s.readers && !s.readers[r].pc.Resting?
    requires s.readers[r].pc.call.mode.OneCopy? && s.ring.payloadBytes > 0
    requires r in Step(s, e).readers
    ensures BufferKept(s.readers[r], Step(s, e).readers[r], IsCopy(e, r))
  {
    if OwnStep(e, r) {
      BufferOwnStep(s, e, r);
    } else if IsCopy(e, r) {
      BufferCopy(s, e, r);
    } else {
      ReaderFrame(s, e, r);
    }
  }

  lemma {:induction false} BufferInCall(run: Run, r: nat, a: nat, b: nat)
    requires IsRun(run) && a < b < |run.states| && InCall(run, r, a, b)
    requires run.events[a].mode.OneCopy? && run.events[a].dst != []
    ensures r in run.states[a].readers && 0 < run.states[b].ring.payloadBytes
    ensures var rd := run.states[b].readers[r];
            && rd.pc.call.mode.OneCopy? && rd.deliveries == run.states[a].readers[r].deliveries
            && (HasWritten(rd.pc) <==> Wrote(run, r, a, b))
            && (!HasWritten(rd.pc) ==> rd.dst == run.events[a].dst)
    decreases b - a
  {
    assert IsStep(run, b - 1);
    RunShape(run, b - 1);
    if a + 1 < b {
      BufferInCall(run, r, a, b - 1);
      BufferStep(run.states[b - 1], run.events[b - 1], r);
    }
  }

  /**
   * A copying call that returns nothing has written to its caller's buffer exactly when it had lost
   * an entry and gone round again; a call that gave up on its first try leaves the buffer as it was.
   */
  lemma EmptyReadExact(run: Run, r: nat, a: nat, b: nat)
    requires IsRun(run) && a < b < |run.events| && InCall(run, r, a, b)
    requires run.events[a].mode.OneCopy? && run.events[a].dst != []
    requires r in run.states[b + 1].readers && run.states[b + 1].readers[r].pc.Resting?
    requires run.states[b + 1].readers[r].deliveries == run.states[b].readers[r].deliveries
    ensures Wrote(run, r, a, b + 1) <==> run.states[b].readers[r].pc.tries < READ_RETRIES
    ensures run.states[b].readers[r].pc.tries >= READ_RETRIES ==> run.states[b + 1].readers[r].dst == run.events[a].dst
  {
    BufferInCall(run, r, a, b);
    RunShape(run, b);
    assert IsStep(run, b);
    BufferStep(run.states[b], run.events[b], r);
  }
}
