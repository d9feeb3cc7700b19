/**
 * What holds at every point of every run, whatever the environment does: indices stay in range,
 * numbers below 2^63, and everything a reader finds or returns is above its watermark.
 */
module Shapes {
  import opened Words
  import opened Rings
  import opened Protocol

  ghost predicate RingShape(ring: Ring) {
    && 0 < |ring.seqs| == |ring.payloads| && ring.writeIndex < |ring.seqs|
    && (forall i :: 0 <= i < |ring.payloads| ==> |ring.payloads[i]| == ring.payloadBytes)
    && (forall i :: 0 <= i < |ring.seqs| ==> Abs(ring.seqs[i]) <= I64_MAX)
  }

  ghost predicate WriterShape(w: Writer, ring: Ring) {
    var n := |ring.seqs|;
    match w.pc
    case Down => true
    case Recovering(_, _, i, _) => i <= n
    case Idle => w.currentIndex < n
    case Probing(k) => w.currentIndex < n && k < n
    case Loaded(index) => w.currentIndex < n && index < n
    case Filling(index) => w.currentIndex < n && index < n
    case Committed(index) => index < n && w.currentIndex == Wrap(index, 1, n)
    case Indexed(index) => index < n && ring.writeIndex == w.currentIndex == Wrap(index, 1, n)
  }

  ghost predicate FoundShape(at: Found, watermark: nat, n: nat) {
    at.index < n && watermark < at.entrySeq <= I64_MAX
  }

  ghost predicate CallShape(rd: Reader, call: Call, tries: nat) {
    && 0 < tries <= READ_RETRIES && call.watermark <= U64_MAX
    && (!call.overridden ==> call.watermark == rd.lastSeq)
  }

  /** The sequence number of the last delivery, 0 before the first. */
  function Bookmark(ds: seq<Delivery>): nat {
    if ds == [] then 0 else ds[|ds| - 1].entrySeq
  }

  /** A delivery is newer than its call's watermark, which is the previous delivery unless overridden. */
  ghost predicate DeliveryShape(ds: seq<Delivery>, k: nat)
    requires k < |ds|
  {
    && ds[k].watermark < ds[k].entrySeq <= I64_MAX
    && (!ds[k].overridden ==> ds[k].watermark == Bookmark(ds[..k]))
  }

  ghost predicate ReaderShape(rd: Reader, n: nat, payloadBytes: nat) {
    && rd.lastIdx < n && rd.lastSeq == Bookmark(rd.deliveries) <= I64_MAX
    && (forall k :: 0 <= k < |rd.deliveries| ==> DeliveryShape(rd.deliveries, k))
    && (!rd.pc.Resting? ==> CallShape(rd, rd.pc.call, rd.pc.tries) && |rd.dst| == payloadBytes)
    && (rd.pc.Scan? ==> rd.pc.idx <= n)
    && (rd.pc.Scan? && rd.pc.best.Some? ==> FoundShape(rd.pc.best.value, rd.pc.call.watermark, n))
    && (rd.pc.Located? ==>
          FoundShape(rd.pc.at, rd.pc.call.watermark, n) && forall j :: j in rd.pc.copied ==> j < payloadBytes)
  }

  ghost predicate HandleShape(handles: map<nat, nat>, strays: multiset<Found>, n: nat) {
    && (forall i :: i in handles ==> i < n && 0 < handles[i] <= I64_MAX)
    && (forall at :: at in strays ==> FoundShape(at, 0, n))
  }

  ghost predicate SharedShape(s: State) {
    RingShape(s.ring) && WriterShape(s.writer, s.ring) && HandleShape(s.handles, s.strays, |s.ring.seqs|)
  }

  ghost predicate Shape(s: State) {
    && SharedShape(s)
    && forall r :: r in s.readers ==> ReaderShape(s.readers[r], |s.ring.seqs|, s.ring.payloadBytes)
  }

  ghost predicate SameSize(a: Ring, b: Ring) {
    |a.seqs| == |b.seqs| && |a.payloads| == |b.payloads| && a.payloadBytes == b.payloadBytes
  }

  // ── Preservation ────────────────────────────────────────────────────────────

  lemma WriterStepKeepsShape(s: State, e: Event)
    requires SharedShape(s) && WriterCan(s, e)
    ensures SharedShape(WriterStep(s, e)) && SameSize(s.ring, WriterStep(s, e).ring)
  {}

  lemma ReaderStepKeepsSharedShape(s: State, e: Event)
    requires SharedShape(s) && ReaderCan(s, e)
    requires e.Swap? ==> 0 < s.readers[e.r].pc.at.entrySeq <= I64_MAX
    ensures SharedShape(ReaderStep(s, e)) && SameSize(s.ring, ReaderStep(s, e).ring)
  {
    if e.Swap? || e.ReleaseHandle? || e.ReleaseStray? {
      HandleEventKeepsShape(s, e);
    }
  }

  lemma HandleEventKeepsShape(s: State, e: Event)
    requires SharedShape(s) && ReaderCan(s, e) && (e.Swap? || e.ReleaseHandle? || e.ReleaseStray?)
    requires e.Swap? ==> 0 < s.readers[e.r].pc.at.entrySeq <= I64_MAX
    ensures SharedShape(ReaderStep(s, e)) && SameSize(s.ring, ReaderStep(s, e).ring)
  {
    if e.Swap? {
      SwapKeepsShape(s, e.r);
    } else if e.ReleaseHandle? {
      StoreKeepsShape(s, e.i, s.handles[e.i]);
    } else {
      StoreKeepsShape(s, e.at.index, e.at.entrySeq);
    }
  }

  lemma SwapKeepsShape(s: State, r: nat)
    requires SharedShape(s) && ReaderCan(s, Swap(r)) && 0 < s.readers[r].pc.at.entrySeq <= I64_MAX
    ensures SharedShape(ReaderStep(s, Swap(r))) && SameSize(s.ring, ReaderStep(s, Swap(r)).ring)
  {
    StoreKeepsShape(s, s.readers[r].pc.at.index, -AsI64(s.readers[r].pc.at.entrySeq));
  }

  lemma StoreKeepsShape(s: State, i: nat, word: int)
    requires RingShape(s.ring) && WriterShape(s.writer, s.ring) && i < |s.ring.seqs| && Abs(word) <= I64_MAX
    ensures RingShape(Store(s.ring, i, word)) && WriterShape(s.writer, Store(s.ring, i, word))
  {}

  lemma DeliverKeepsShape(rd: Reader, payload: seq<byte>, n: nat, payloadBytes: nat)
    requires ReaderShape(rd, n, payloadBytes) && rd.pc.Located?
    ensures ReaderShape(Deliver(rd, payload), n, payloadBytes)
  {
    var ds, after := rd.deliveries, Deliver(rd, payload).deliveries;
    forall k | 0 <= k < |after|
      ensures DeliveryShape(after, k)
    {
      assert after[..k] == if k < |ds| then ds[..k] else ds;
      assert k < |ds| ==> DeliveryShape(ds, k);
    }
  }

  lemma LoadKeepsShape(rd: Reader, ring: Ring)
    requires RingShape(ring) && ReaderShape(rd, |ring.seqs|, ring.payloadBytes)
    ensures rd.pc.Probe? ==> ReaderShape(AfterLoadProbe(rd, ring.seqs), |ring.seqs|, ring.payloadBytes)
    ensures rd.pc.Scan? ==> ReaderShape(AfterLoadScan(rd, ring.seqs), |ring.seqs|, ring.payloadBytes)
  {}

  /** Of the writer's steps only the two slot stores touch a word, and only the second the log. */
  lemma WriterFrame(s: State, e: Event)
    requires WriterCan(s, e) && !e.ZeroSlot? && !e.StoreSlot?
    ensures WriterStep(s, e).ring.seqs == s.ring.seqs && WriterStep(s, e).log == s.log
    ensures WriterStep(s, e).readers == s.readers
  {}

  ghost predicate CallEvent(e: Event) {
    e.StartRead? || e.LoadProbe? || e.LoadScan? || e.CopyByte? || e.Recheck? || e.Swap?
  }

  /** The acting reader's own shape after its step. */
  lemma OwnStepKeepsShape(s: State, e: Event)
    requires RingShape(s.ring) && Can(s, e) && CallEvent(e)
    requires ReaderShape(s.readers[e.r], |s.ring.seqs|, s.ring.payloadBytes)
    ensures e.r in Step(s, e).readers
    ensures ReaderShape(Step(s, e).readers[e.r], |s.ring.seqs|, s.ring.payloadBytes)
  {
    var rd := s.readers[e.r];
    if e.LoadProbe? || e.LoadScan? {
      LoadKeepsShape(rd, s.ring);
    } else if e.Recheck? {
      DeliverKeepsShape(rd, rd.dst, |s.ring.seqs|, s.ring.payloadBytes);
    } else if e.Swap? {
      DeliverKeepsShape(rd, s.ring.payloads[rd.pc.at.index], |s.ring.seqs|, s.ring.payloadBytes);
    }
  }

  /** The other readers are as they were. */
  lemma ReaderFrame(s: State, e: Event, r: nat)
    requires Can(s, e) && r in Step(s, e).readers
    ensures r !in s.readers ==> Step(s, e).readers[r] == Reader(0, 0, [], Resting, [])
    ensures r in s.readers && !(CallEvent(e) && e.r == r) ==> Step(s, e).readers[r] == s.readers[r]
  {
    if WriterEvent(e) {
      assert WriterStep(s, e).readers == s.readers;
    }
  }

  lemma ReadersKeepShape(s: State, e: Event, r: nat)
    requires Shape(s) && Can(s, e) && r in Step(s, e).readers
    ensures ReaderShape(Step(s, e).readers[r], |s.ring.seqs|, s.ring.payloadBytes)
  {
    if r in s.readers && CallEvent(e) && e.r == r {
      OwnStepKeepsShape(s, e);
    } else {
      ReaderFrame(s, e, r);
    }
  }

  lemma SharedKeepsShape(s: State, e: Event)
    requires Shape(s) && Can(s, e)
    ensures SharedShape(Step(s, e)) && SameSize(s.ring, Step(s, e).ring)
  {
    if WriterEvent(e) {
      WriterStepKeepsShape(s, e);
    } else {
      ReaderStepKeepsSharedShape(s, e);
    }
  }

  lemma StepKeepsShape(s: State, e: Event)
    requires Shape(s) && Can(s, e)
    ensures Shape(Step(s, e)) && SameSize(s.ring, Step(s, e).ring)
  {
    SharedKeepsShape(s, e);
    forall r | r in Step(s, e).readers
      ensures ReaderShape(Step(s, e).readers[r], |s.ring.seqs|, s.ring.payloadBytes)
    {
      ReadersKeepShape(s, e, r);
    }
  }

  /** The shape holds at every point of every run. */
  lemma {:induction false} RunShape(run: Run, k: nat)
    requires IsRun(run) && k < |run.states|
    ensures Shape(run.states[k]) && SameSize(run.states[0].ring, run.states[k].ring)
  {
    if k > 0 {
      RunShape(run, k - 1);
      assert IsStep(run, k - 1);
      StepKeepsShape(run.states[k - 1], run.events[k - 1]);
    }
  }

  // ── Nobody is ever stuck ────────────────────────────────────────────────────

  /**
   * The guards of the machine are about shapes only: in every run a writer can take its next step, and
   * whoever is down can attach with any header.
   */
  lemma WriterNeverStuck(run: Run, k: nat, headerIndex: nat, headerSeq: nat, j: nat, b: byte)
    requires IsRun(run) && k < |run.states|
    ensures var s := run.states[k];
            match s.writer.pc
            case Down => Can(s, Attach(headerIndex, headerSeq))
            case Recovering(_, _, _, _) => Can(s, RecoverLoad) && Can(s, Crash)
            case Idle => Can(s, BeginClaim) && Can(s, Crash)
            case Probing(_) => Can(s, ProbeSlot) && Can(s, Crash)
            case Loaded(_) => Can(s, ZeroSlot) && Can(s, Crash)
            case Filling(_) =>
              && (j < s.ring.payloadBytes ==> Can(s, FillByte(j, b))) && Can(s, AbandonClaim) && Can(s, Crash)
              && (s.writer.lastSeq < I64_MAX ==> Can(s, StoreSlot))
            case Committed(_) => Can(s, StoreIndex) && Can(s, Crash)
            case Indexed(_) => Can(s, StoreWatermark) && Can(s, Crash)
  {
    RunShape(run, k);
  }

  /** So can a reader: it starts a call, probes, scans, swaps, copies any byte, and checks once all are copied. */
  lemma ReaderNeverStuck(run: Run, k: nat, r: nat, j: nat)
    requires IsRun(run) && k < |run.states| && r in run.states[k].readers
    ensures var s, pc := run.states[k], run.states[k].readers[r].pc;
            match pc
            case Resting => forall mode, from: Option<nat>, dst {:trigger StartRead(r, mode, from, dst)} ::
              |dst| == s.ring.payloadBytes && (from.Some? ==> from.value <= U64_MAX) ==>
                Can(s, StartRead(r, mode, from, dst))
            case Probe(_, _) => Can(s, LoadProbe(r))
            case Scan(_, _, _, _) => Can(s, LoadScan(r))
            case Located(call, _, _, copied) =>
              && (call.mode.ZeroCopy? ==> Can(s, Swap(r)))
              && (call.mode.OneCopy? && j < s.ring.payloadBytes ==> Can(s, CopyByte(r, j)))
              && (call.mode.OneCopy? && (forall m :: 0 <= m < s.ring.payloadBytes ==> m in copied) ==>
                    Can(s, Recheck(r)))
  {
    RunShape(run, k);
    assert ReaderShape(run.states[k].readers[r], |run.states[k].ring.seqs|, run.states[k].ring.payloadBytes);
  }

  /** And every handle ever handed out can be released. */
  lemma HandlesNeverStuck(run: Run, k: nat, i: nat, at: Found)
    requires IsRun(run) && k < |run.states|
    ensures i in run.states[k].handles ==>
              Can(run.states[k], ReleaseHandle(i)) && Can(run.states[k], LeakHandle(i))
    ensures at in run.states[k].strays ==> Can(run.states[k], ReleaseStray(at))
  {
    RunShape(run, k);
  }
}
