/**
 * What every step of the protocol keeps, as long as no number is issued twice: each committed word
 * is backed by the log, and so is everything a reader has found, copied so far or returned. A writer
 * that attaches informed issues no number twice.
 */
module Safety {
  import opened Words
  import opened Rings
  import opened Protocol
  import opened Shapes
  import opened Pins

  // ── The invariant ───────────────────────────────────────────────────────────

  /** Between the slot store and the watermark store the newest entry is the writer's own. */
  ghost predicate CommitInv(w: Writer, ring: Ring, log: seq<seq<byte>>) {
    w.pc.Committed? || w.pc.Indexed? ==>
      w.pc.index < |ring.seqs| && w.lastSeq == |log| == Abs(ring.seqs[w.pc.index]) > 0
  }

  ghost predicate FoundInv(at: Found, watermark: nat, n: nat, log: seq<seq<byte>>) {
    at.index < n && watermark < at.entrySeq <= |log|
  }

  /** A copy in progress is faithful so far, or the slot has lost the entry for good. */
  ghost predicate CopyInv(rd: Reader, ring: Ring, log: seq<seq<byte>>)
    requires rd.pc.Located? && FoundInv(rd.pc.at, rd.pc.call.watermark, |ring.seqs|, log)
  {
    Abs(ring.seqs[rd.pc.at.index]) == rd.pc.at.entrySeq ==>
      && |log[rd.pc.at.entrySeq - 1]| == |rd.dst|
      && forall j :: j in rd.pc.copied ==> j < |rd.dst| && rd.dst[j] == log[rd.pc.at.entrySeq - 1][j]
  }

  /** A delivered entry is a committed one, byte for byte. */
  ghost predicate DeliveryInv(d: Delivery, log: seq<seq<byte>>) {
    0 < d.entrySeq <= |log| && d.payload == log[d.entrySeq - 1]
  }

  ghost predicate ReaderInv(rd: Reader, ring: Ring, log: seq<seq<byte>>) {
    && (forall k :: 0 <= k < |rd.deliveries| ==> DeliveryInv(rd.deliveries[k], log))
    && (rd.pc.Scan? && rd.pc.best.Some? ==> FoundInv(rd.pc.best.value, rd.pc.call.watermark, |ring.seqs|, log))
    && (rd.pc.Located? ==> FoundInv(rd.pc.at, rd.pc.call.watermark, |ring.seqs|, log) && CopyInv(rd, ring, log))
  }

  ghost predicate LogInv(s: State) {
    && RingInv(s.ring, s.log)
    && CommitInv(s.writer, s.ring, s.log)
    && forall r :: r in s.readers ==> ReaderInv(s.readers[r], s.ring, s.log)
  }

  /** Everything but the writer's own idea of the highest number. */
  ghost predicate Backed(s: State) {
    Shape(s) && PinInv(s) && LogInv(s)
  }

  /** A recovery in progress has met the newest number or is still to meet it; afterwards the writer knows it. */
  ghost predicate NumberInv(w: Writer, seqs: seq<int>, newest: nat) {
    match w.pc
    case Down => true
    case Recovering(_, _, i, maxSeq) => maxSeq <= newest && (maxSeq == newest || NewestAhead(seqs, i, newest))
    case _ => w.lastSeq == newest
  }

  ghost predicate NewestAhead(seqs: seq<int>, from: nat, newest: nat) {
    exists i :: from <= i < |seqs| && Abs(seqs[i]) == newest
  }

  ghost predicate Inv(s: State) {
    Backed(s) && NumberInv(s.writer, s.ring.seqs, |s.log|)
  }

  // ── The ring ────────────────────────────────────────────────────────────────

  lemma StoreKeepsRing(ring: Ring, log: seq<seq<byte>>, i: nat, word: int)
    requires RingInv(ring, log) && i < |ring.seqs|
    requires word == 0 || Abs(word) == Abs(ring.seqs[i])
    ensures RingInv(Store(ring, i, word), log)
    ensures Evolves(ring, log, Store(ring, i, word), log)
  {
    var after := Store(ring, i, word);
    forall j | 0 <= j < |after.seqs|
      ensures SlotInv(after.seqs[j], after.payloads[j], log)
    {
      assert SlotInv(ring.seqs[j], ring.payloads[j], log);
    }
    forall j: nat, k: nat | j < |after.seqs| && k < |after.seqs|
      ensures Differ(after.seqs, j, k)
    {
      assert Differ(ring.seqs, j, k);
    }
  }

  lemma PublishKeepsRing(ring: Ring, log: seq<seq<byte>>, i: nat)
    requires RingInv(ring, log) && i < |ring.seqs| && |log| < I64_MAX
    ensures RingInv(Store(ring, i, |log| + 1), log + [ring.payloads[i]])
    ensures Evolves(ring, log, Store(ring, i, |log| + 1), log + [ring.payloads[i]])
  {
    var after, grown := Store(ring, i, |log| + 1), log + [ring.payloads[i]];
    forall j | 0 <= j < |after.seqs|
      ensures SlotInv(after.seqs[j], after.payloads[j], grown)
      ensures j != i ==> Abs(after.seqs[j]) <= |log|
    {
      assert SlotInv(ring.seqs[j], ring.payloads[j], log);
    }
    forall j: nat, k: nat | j < |after.seqs| && k < |after.seqs|
      ensures Differ(after.seqs, j, k)
    {
      assert Differ(ring.seqs, j, k);
    }
  }

  lemma FillKeepsRing(ring: Ring, log: seq<seq<byte>>, i: nat, j: nat, b: byte)
    requires RingInv(ring, log) && i < |ring.seqs| && ring.seqs[i] == 0 && j < |ring.payloads[i]|
    ensures RingInv(ring.(payloads := ring.payloads[i := ring.payloads[i][j := b]]), log)
  {
    var after := ring.(payloads := ring.payloads[i := ring.payloads[i][j := b]]);
    forall k | 0 <= k < |after.seqs|
      ensures SlotInv(after.seqs[k], after.payloads[k], log)
    {
      assert SlotInv(ring.seqs[k], ring.payloads[k], log);
    }
  }

  /** Changing signs keeps the ring backed and takes nothing from anybody. */
  lemma SignsKeepRing(a: Ring, b: Ring, log: seq<seq<byte>>)
    requires RingInv(a, log) && SignsOnly(a, b)
    ensures RingInv(b, log) && Evolves(a, log, b, log)
  {
    forall j | 0 <= j < |b.seqs|
      ensures SlotInv(b.seqs[j], b.payloads[j], log)
    {
      assert SlotInv(a.seqs[j], a.payloads[j], log);
    }
    forall j: nat, k: nat | j < |b.seqs| && k < |b.seqs|
      ensures Differ(b.seqs, j, k)
    {
      assert Differ(a.seqs, j, k);
      assert Abs(a.seqs[j]) == Abs(b.seqs[j]) && Abs(a.seqs[k]) == Abs(b.seqs[k]);
    }
  }

  // ── The writer's steps ──────────────────────────────────────────────────────

  lemma WriterStepKeepsRing(s: State, e: Event)
    requires SharedShape(s) && PinInv(s) && RingInv(s.ring, s.log) && CommitInv(s.writer, s.ring, s.log)
    requires WriterCan(s, e) && IssuesNext(s, e)
    ensures var after := WriterStep(s, e);
            && RingInv(after.ring, after.log) && CommitInv(after.writer, after.ring, after.log)
            && Evolves(s.ring, s.log, after.ring, after.log)
  {
    if e.ZeroSlot? {
      StoreKeepsRing(s.ring, s.log, s.writer.pc.index, 0);
    } else if e.StoreSlot? {
      PublishKeepsRing(s.ring, s.log, s.writer.pc.index);
    } else if e.FillByte? {
      FillKeepsRing(s.ring, s.log, s.writer.pc.index, e.j, e.b);
    } else {
      WriterFrame(s, e);
    }
  }

  lemma WriterStepKeepsNumber(s: State, e: Event)
    requires Inv(s) && WriterCan(s, e) && Informed(s, e)
    ensures var after := WriterStep(s, e);
            NumberInv(after.writer, after.ring.seqs, |after.log|)
  {
    if e.RecoverLoad? && s.writer.pc.i < |s.ring.seqs| {
      var i := s.writer.pc.i;
      assert SlotInv(s.ring.seqs[i], s.ring.payloads[i], s.log);
      if s.writer.pc.maxSeq != |s.log| && Abs(s.ring.seqs[i]) != |s.log| {
        var j :| i <= j < |s.ring.seqs| && Abs(s.ring.seqs[j]) == |s.log|;
        assert i + 1 <= j;
      }
    }
  }

  // ── The readers' steps ──────────────────────────────────────────────────────

  lemma ReaderStepKeepsRing(s: State, e: Event)
    requires Backed(s) && ReaderCan(s, e)
    ensures var after := ReaderStep(s, e);
            && RingInv(after.ring, after.log) && CommitInv(after.writer, after.ring, after.log)
            && Evolves(s.ring, s.log, after.ring, after.log)
  {
    ReaderStepFlipsSigns(s, e);
    SignsKeepRing(s.ring, ReaderStep(s, e).ring, s.log);
  }

  lemma SignsKeepNumber(w: Writer, a: Ring, b: Ring, newest: nat)
    requires SignsOnly(a, b) && NumberInv(w, a.seqs, newest)
    ensures NumberInv(w, b.seqs, newest)
  {
    if w.pc.Recovering? && w.pc.maxSeq != newest {
      var i :| w.pc.i <= i < |a.seqs| && Abs(a.seqs[i]) == newest;
      assert Abs(b.seqs[i]) == newest;
    }
  }

  /** A reader's invariant survives whatever the others do. */
  lemma ReaderStable(rd: Reader, a: Ring, la: seq<seq<byte>>, b: Ring, lb: seq<seq<byte>>)
    requires ReaderInv(rd, a, la) && Evolves(a, la, b, lb)
    ensures ReaderInv(rd, b, lb)
  {}

  /** The double check: an unchanged word proves that the copy is the committed entry, byte for byte. */
  lemma RecheckProvesCopy(rd: Reader, ring: Ring, log: seq<seq<byte>>)
    requires ReaderInv(rd, ring, log) && rd.pc.Located?
    requires forall j :: 0 <= j < |rd.dst| ==> j in rd.pc.copied
    requires |log| <= I64_MAX && ring.seqs[rd.pc.at.index] == AsI64(rd.pc.at.entrySeq)
    ensures rd.dst == log[rd.pc.at.entrySeq - 1]
  {
    assert Abs(ring.seqs[rd.pc.at.index]) == rd.pc.at.entrySeq;
  }

  lemma LoadProbeKeeps(rd: Reader, ring: Ring, log: seq<seq<byte>>)
    requires RingInv(ring, log) && ReaderInv(rd, ring, log) && ReaderShape(rd, |ring.seqs|, ring.payloadBytes)
    requires rd.pc.Probe?
    ensures ReaderInv(AfterLoadProbe(rd, ring.seqs), ring, log)
  {
    var next := Wrap(rd.lastIdx, 1, |ring.seqs|);
    assert SlotInv(ring.seqs[next], ring.payloads[next], log);
    assert |ring.payloads[next]| == ring.payloadBytes;
  }

  lemma LoadScanKeeps(rd: Reader, ring: Ring, log: seq<seq<byte>>)
    requires RingInv(ring, log) && ReaderInv(rd, ring, log) && ReaderShape(rd, |ring.seqs|, ring.payloadBytes)
    requires rd.pc.Scan?
    ensures ReaderInv(AfterLoadScan(rd, ring.seqs), ring, log)
  {
    var p := rd.pc;
    if p.idx < |ring.seqs| {
      assert SlotInv(ring.seqs[p.idx], ring.payloads[p.idx], log);
    } else if p.best.Some? {
      var i := p.best.value.index;
      assert SlotInv(ring.seqs[i], ring.payloads[i], log);
      assert |ring.payloads[i]| == ring.payloadBytes;
    }
  }

  lemma CopyByteKeeps(rd: Reader, ring: Ring, log: seq<seq<byte>>, j: nat)
    requires RingInv(ring, log) && ReaderInv(rd, ring, log) && ReaderShape(rd, |ring.seqs|, ring.payloadBytes)
    requires rd.pc.Located? && j < ring.payloadBytes
    ensures ReaderInv(rd.(dst := rd.dst[j := ring.payloads[rd.pc.at.index][j]],
                          pc := rd.pc.(copied := rd.pc.copied + {j})), ring, log)
  {
    var i := rd.pc.at.index;
    assert SlotInv(ring.seqs[i], ring.payloads[i], log);
  }

  lemma DeliverKeeps(rd: Reader, payload: seq<byte>, ring: Ring, log: seq<seq<byte>>)
    requires ReaderInv(rd, ring, log) && rd.pc.Located? && payload == log[rd.pc.at.entrySeq - 1]
    ensures ReaderInv(Deliver(rd, payload), ring, log)
  {}

  ghost predicate OwnInv(s: State, r: nat, ring: Ring, log: seq<seq<byte>>) {
    r in s.readers && ReaderShape(s.readers[r], |ring.seqs|, ring.payloadBytes) && ReaderInv(s.readers[r], ring, log)
  }

  /** The two steps that may hand out an entry. */
  lemma FinalStepKeeps(s: State, e: Event)
    requires RingInv(s.ring, s.log) && Can(s, e) && (e.Recheck? || e.Swap?) && OwnInv(s, e.r, s.ring, s.log)
    ensures e.r in Step(s, e).readers && ReaderInv(Step(s, e).readers[e.r], s.ring, s.log)
  {
    var rd := s.readers[e.r];
    var i := rd.pc.at.index;
    if s.ring.seqs[i] == AsI64(rd.pc.at.entrySeq) {
      if e.Recheck? {
        RecheckProvesCopy(rd, s.ring, s.log);
        DeliverKeeps(rd, rd.dst, s.ring, s.log);
      } else {
        assert SlotInv(s.ring.seqs[i], s.ring.payloads[i], s.log);
        DeliverKeeps(rd, s.ring.payloads[i], s.ring, s.log);
      }
    }
  }

  /** The acting reader's own invariant after its step, on the ring as it was before. */
  lemma OwnStepKeeps(s: State, e: Event)
    requires RingInv(s.ring, s.log) && Can(s, e) && CallEvent(e) && OwnInv(s, e.r, s.ring, s.log)
    ensures e.r in Step(s, e).readers && ReaderInv(Step(s, e).readers[e.r], s.ring, s.log)
  {
    var rd := s.readers[e.r];
    if e.LoadProbe? {
      LoadProbeKeeps(rd, s.ring, s.log);
    } else if e.LoadScan? {
      LoadScanKeeps(rd, s.ring, s.log);
    } else if e.CopyByte? {
      CopyByteKeeps(rd, s.ring, s.log, e.j);
    } else if e.Recheck? || e.Swap? {
      FinalStepKeeps(s, e);
    }
  }

  lemma ReadersKeep(s: State, e: Event, r: nat)
    requires Backed(s) && Can(s, e) && r in Step(s, e).readers
    requires Evolves(s.ring, s.log, Step(s, e).ring, Step(s, e).log)
    ensures ReaderInv(Step(s, e).readers[r], Step(s, e).ring, Step(s, e).log)
  {
    if r in s.readers && CallEvent(e) && e.r == r {
      OwnStepKeeps(s, e);
    } else {
      ReaderFrame(s, e, r);
    }
    ReaderStable(Step(s, e).readers[r], s.ring, s.log, Step(s, e).ring, Step(s, e).log);
  }

  // ── Every step ──────────────────────────────────────────────────────────────

  lemma StepKeepsPins(s: State, e: Event)
    requires Shape(s) && PinInv(s) && Can(s, e) && OutsideClaimWindow(s, e)
    ensures Shape(Step(s, e)) && PinInv(Step(s, e))
  {
    StepKeepsShape(s, e);
    if WriterEvent(e) {
      WriterStepKeepsPins(s, e);
    } else {
      ReaderStepKeepsPins(s, e);
    }
  }

  /** Every step that reuses no number keeps words, copies and deliveries backed by the log. */
  lemma StepKeepsBacked(s: State, e: Event)
    requires Backed(s) && Can(s, e) && OutsideClaimWindow(s, e) && IssuesNext(s, e)
    ensures Backed(Step(s, e))
    ensures Evolves(s.ring, s.log, Step(s, e).ring, Step(s, e).log)
  {
    StepKeepsPins(s, e);
    if WriterEvent(e) {
      WriterStepKeepsRing(s, e);
    } else {
      ReaderStepKeepsRing(s, e);
    }
    forall r | r in Step(s, e).readers
      ensures ReaderInv(Step(s, e).readers[r], Step(s, e).ring, Step(s, e).log)
    {
      ReadersKeep(s, e, r);
    }
  }

  /** If writers attach informed, no step reuses a number, and every step keeps the whole invariant. */
  lemma StepKeepsInv(s: State, e: Event)
    requires Inv(s) && Can(s, e) && OutsideClaimWindow(s, e) && Informed(s, e)
    ensures IssuesNext(s, e) && Inv(Step(s, e))
    ensures Evolves(s.ring, s.log, Step(s, e).ring, Step(s, e).log)
  {
    StepKeepsBacked(s, e);
    if WriterEvent(e) {
      WriterStepKeepsNumber(s, e);
    } else {
      ReaderStepFlipsSigns(s, e);
      SignsKeepNumber(s.writer, s.ring, Step(s, e).ring, |s.log|);
    }
  }

  // ── Over whole runs ─────────────────────────────────────────────────────────

  lemma FreshInv(s: State)
    requires Fresh(s)
    ensures Inv(s)
  {
    forall i | 0 <= i < |s.ring.seqs|
      ensures SlotInv(s.ring.seqs[i], s.ring.payloads[i], s.log)
    {}
  }

  /** As long as no number is issued twice, everything stays backed by the log. */
  lemma {:induction false} RunBacked(run: Run, k: nat)
    requires NoReuseRun(run) && k < |run.states|
    ensures Backed(run.states[k])
  {
    if k == 0 {
      FreshInv(run.states[0]);
    } else {
      RunBacked(run, k - 1);
      assert IsStep(run, k - 1);
      StepKeepsBacked(run.states[k - 1], run.events[k - 1]);
    }
  }

  /** Between any two points of such a run the ring evolves as each participant relies on. */
  lemma {:induction false} RunEvolves(run: Run, a: nat, b: nat)
    requires NoReuseRun(run) && a <= b < |run.states|
    ensures Evolves(run.states[a].ring, run.states[a].log, run.states[b].ring, run.states[b].log)
    decreases b - a
  {
    if a < b {
      RunEvolves(run, a, b - 1);
      RunBacked(run, b - 1);
      assert IsStep(run, b - 1);
      StepKeepsBacked(run.states[b - 1], run.events[b - 1]);
      EvolvesTransitive(run.states[a].ring, run.states[a].log, run.states[b - 1].ring, run.states[b - 1].log,
                        run.states[b].ring, run.states[b].log);
    }
  }

  /** The whole invariant holds at every point of every informed run. */
  lemma {:induction false} RunInv(run: Run, k: nat)
    requires InformedRun(run) && k < |run.states|
    ensures Inv(run.states[k])
  {
    if k == 0 {
      FreshInv(run.states[0]);
    } else {
      RunInv(run, k - 1);
      assert IsStep(run, k - 1);
      StepKeepsInv(run.states[k - 1], run.events[k - 1]);
    }
  }

  /** So writers that attach informed never reuse a number, and the theorems for such runs apply. */
  lemma InformedRunsDoNotReuse(run: Run)
    requires InformedRun(run)
    ensures NoReuseRun(run)
  {
    forall k | 0 <= k < |run.events|
      ensures IssuesNext(run.states[k], run.events[k])
    {
      RunInv(run, k);
      assert IsStep(run, k);
      StepKeepsInv(run.states[k], run.events[k]);
    }
  }
}
