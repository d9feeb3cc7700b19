/**
 * Pin safety: what a zero-copy reader may rely on between its acquire and its release. All of it
 * needs one hypothesis only, that no acquire lands in the window of `claim_slot`; writers may die,
 * attach with any header and issue any numbers.
 */
module Pins {
  import opened Words
  import opened Rings
  import opened Protocol
  import opened Shapes

  /** Negative words are exactly the outstanding and the leaked handles, and a handle names its slot's word. */
  ghost predicate HandleInv(seqs: seq<int>, handles: map<nat, nat>, leaked: set<nat>) {
    && handles.Keys !! leaked
    && (forall i :: i in handles ==> i < |seqs| && 0 < handles[i] && seqs[i] == -(handles[i] as int))
    && (forall i :: i in leaked ==> i < |seqs| && seqs[i] < 0)
    && (forall i :: 0 <= i < |seqs| && seqs[i] < 0 ==> i in handles || i in leaked)
  }

  /** The slot a claim is about is not held, and is empty once it is claimed. */
  ghost predicate ClaimInv(pc: WriterPc, seqs: seq<int>) {
    && (pc.Loaded? ==> pc.index < |seqs| && 0 <= seqs[pc.index])
    && (pc.Filling? ==> pc.index < |seqs| && 0 == seqs[pc.index])
  }

  ghost predicate PinInv(s: State) {
    HandleInv(s.ring.seqs, s.handles, s.leaked) && s.strays == multiset{} && ClaimInv(s.writer.pc, s.ring.seqs)
  }

  // ── Preservation ────────────────────────────────────────────────────────────

  lemma WriterStepKeepsPins(s: State, e: Event)
    requires SharedShape(s) && PinInv(s) && WriterCan(s, e)
    ensures PinInv(WriterStep(s, e))
  {}

  lemma AcquireKeepsPins(seqs: seq<int>, handles: map<nat, nat>, leaked: set<nat>, i: nat)
    requires HandleInv(seqs, handles, leaked) && i < |seqs| && 0 < seqs[i]
    ensures HandleInv(seqs[i := -seqs[i]], handles[i := seqs[i]], leaked)
  {}

  lemma ReleaseKeepsPins(seqs: seq<int>, handles: map<nat, nat>, leaked: set<nat>, i: nat)
    requires HandleInv(seqs, handles, leaked) && i in handles
    ensures HandleInv(seqs[i := handles[i]], handles - {i}, leaked)
  {}

  lemma ReaderStepKeepsPins(s: State, e: Event)
    requires Shape(s) && PinInv(s) && ReaderCan(s, e) && OutsideClaimWindow(s, e)
    ensures PinInv(ReaderStep(s, e))
  {
    if e.Swap? {
      var at := s.readers[e.r].pc.at;
      if s.ring.seqs[at.index] == AsI64(at.entrySeq) {
        AcquireKeepsPins(s.ring.seqs, s.handles, s.leaked, at.index);
      }
    } else if e.ReleaseHandle? {
      ReleaseKeepsPins(s.ring.seqs, s.handles, s.leaked, e.i);
    }
  }

  lemma {:induction false} RunPins(run: Run, k: nat)
    requires WindowRun(run) && k < |run.states|
    ensures Shape(run.states[k]) && PinInv(run.states[k])
  {
    RunShape(run, k);
    if k > 0 {
      RunPins(run, k - 1);
      assert IsStep(run, k - 1);
      if WriterEvent(run.events[k - 1]) {
        WriterStepKeepsPins(run.states[k - 1], run.events[k - 1]);
      } else {
        ReaderStepKeepsPins(run.states[k - 1], run.events[k - 1]);
      }
    }
  }

  // ── What readers do to the ring ─────────────────────────────────────────────

  /** The sign of one word at most, and nothing to the writer or the log. */
  lemma ReaderStepFlipsSigns(s: State, e: Event)
    requires Shape(s) && PinInv(s) && ReaderCan(s, e)
    ensures SignsOnly(s.ring, ReaderStep(s, e).ring)
    ensures ReaderStep(s, e).log == s.log && ReaderStep(s, e).writer == s.writer
  {}

  /** While the writer does nothing, the others change signs at most: what it relies on between its steps. */
  lemma {:induction false} ReadersOnlyFlipSigns(run: Run, a: nat, b: nat)
    requires WindowRun(run) && a <= b < |run.states|
    requires forall k :: a <= k < b ==> !WriterEvent(run.events[k])
    ensures SignsOnly(run.states[a].ring, run.states[b].ring)
    ensures run.states[b].log == run.states[a].log && run.states[b].writer == run.states[a].writer
    decreases b - a
  {
    if a < b {
      ReadersOnlyFlipSigns(run, a, b - 1);
      RunPins(run, b - 1);
      assert IsStep(run, b - 1);
      ReaderStepFlipsSigns(run.states[b - 1], run.events[b - 1]);
      SignsOnlyTransitive(run.states[a].ring, run.states[b - 1].ring, run.states[b].ring);
    }
  }

  /** While nothing is pinned, readers that only copy change nothing but themselves. */
  lemma CopyReadersTouchNothing(s: State, e: Event)
    requires PinInv(s) && ReaderCan(s, e) && !e.Swap?
    requires forall i :: 0 <= i < |s.ring.seqs| ==> 0 <= s.ring.seqs[i]
    ensures ReaderStep(s, e) == s.(readers := ReaderStep(s, e).readers)
  {}

  // ── Pins hold ───────────────────────────────────────────────────────────────

  lemma PinStep(s: State, e: Event, i: nat)
    requires Shape(s) && PinInv(s) && Can(s, e) && e != ReleaseHandle(i) && i < |s.ring.seqs| && s.ring.seqs[i] < 0
    ensures SameSize(s.ring, Step(s, e).ring)
    ensures Step(s, e).ring.seqs[i] == s.ring.seqs[i] && Step(s, e).ring.payloads[i] == s.ring.payloads[i]
  {
    if WriterEvent(e) {
      PinWriterStep(s, e, i);
    } else if e.Swap? {
      SignRoundTrip(s.readers[e.r].pc.at.entrySeq);
    }
  }

  lemma PinWriterStep(s: State, e: Event, i: nat)
    requires SharedShape(s) && PinInv(s) && WriterCan(s, e) && i < |s.ring.seqs| && s.ring.seqs[i] < 0
    ensures SameSize(s.ring, WriterStep(s, e).ring)
    ensures WriterStep(s, e).ring.seqs[i] == s.ring.seqs[i]
    ensures WriterStep(s, e).ring.payloads[i] == s.ring.payloads[i]
  {}

  /**
   * From the moment a slot is negative until its handle is released, through every interleaving of
   * writes, laps, reads, leaks, crashes and recoveries, the word and the payload stay put.
   */
  lemma {:induction false} PinHolds(run: Run, a: nat, b: nat, i: nat)
    requires WindowRun(run) && a <= b < |run.states|
    requires i < |run.states[a].ring.seqs| && run.states[a].ring.seqs[i] < 0
    requires forall k :: a <= k < b ==> run.events[k] != ReleaseHandle(i)
    ensures i < |run.states[a].ring.payloads| && SameSize(run.states[a].ring, run.states[b].ring)
    ensures run.states[b].ring.seqs[i] == run.states[a].ring.seqs[i]
    ensures run.states[b].ring.payloads[i] == run.states[a].ring.payloads[i]
    decreases b - a
  {
    RunPins(run, a);
    if a < b {
      PinHolds(run, a, b - 1, i);
      RunPins(run, b - 1);
      assert IsStep(run, b - 1);
      PinStep(run.states[b - 1], run.events[b - 1], i);
    }
  }

  /** A handle survives every step but its own release and its own loss. */
  lemma HandleStep(s: State, e: Event, i: nat)
    requires Shape(s) && PinInv(s) && Can(s, e) && i in s.handles && e != ReleaseHandle(i) && e != LeakHandle(i)
    ensures i in Step(s, e).handles && Step(s, e).handles[i] == s.handles[i]
  {
    if WriterEvent(e) {
      assert WriterStep(s, e).handles == s.handles;
    } else if e.Swap? {
      SignRoundTrip(s.readers[e.r].pc.at.entrySeq);
    }
  }

  /** A handle stays outstanding until it is released or lost. */
  lemma {:induction false} HandleStays(run: Run, a: nat, b: nat, i: nat)
    requires WindowRun(run) && a <= b < |run.states| && i in run.states[a].handles
    requires forall k :: a <= k < b ==> run.events[k] != ReleaseHandle(i) && run.events[k] != LeakHandle(i)
    ensures i in run.states[b].handles && run.states[b].handles[i] == run.states[a].handles[i]
    decreases b - a
  {
    if a < b {
      HandleStays(run, a, b - 1, i);
      RunPins(run, b - 1);
      assert IsStep(run, b - 1);
      HandleStep(run.states[b - 1], run.events[b - 1], i);
    }
  }

  /** An acquire that hits hands out a handle on a slot nobody held, pins exactly that slot, and moves no byte. */
  lemma AcquirePins(run: Run, k: nat, r: nat)
    requires WindowRun(run) && k < |run.events| && run.events[k] == Swap(r)
    requires run.states[k + 1].handles != run.states[k].handles
    ensures r in run.states[k].readers && run.states[k].readers[r].pc.Located?
    ensures var at, before, after := run.states[k].readers[r].pc.at, run.states[k], run.states[k + 1];
            && at.index !in before.handles && at.index !in before.leaked
            && after.handles == before.handles[at.index := at.entrySeq]
            && at.index < |before.ring.seqs| && before.ring.seqs[at.index] == at.entrySeq
            && after.ring == before.ring.(seqs := before.ring.seqs[at.index := -(at.entrySeq as int)])
  {
    assert IsStep(run, k);
    RunPins(run, k);
    SignRoundTrip(run.states[k].readers[r].pc.at.entrySeq);
  }

  /** Negative slots are exactly the ones with an outstanding or a lost handle. */
  lemma NegativeSlotsAreHeld(run: Run, k: nat, i: nat)
    requires WindowRun(run) && k < |run.states|
    ensures run.states[k].handles.Keys !! run.states[k].leaked
    ensures i in run.states[k].handles || i in run.states[k].leaked <==>
            i < |run.states[k].ring.seqs| && run.states[k].ring.seqs[i] < 0
    ensures i in run.states[k].handles ==> run.states[k].ring.seqs[i] == -(run.states[k].handles[i] as int)
  {
    RunPins(run, k);
  }

  lemma {:induction false} NothingLeaks(run: Run, k: nat)
    requires IsRun(run) && k < |run.states| && forall m :: 0 <= m < k ==> !run.events[m].LeakHandle?
    ensures run.states[k].leaked == {}
  {
    if k > 0 {
      NothingLeaks(run, k - 1);
      assert IsStep(run, k - 1);
    }
  }

  /** As long as no handle is lost, the outstanding handles are exactly the negative slots. */
  lemma HandlesAreNegativeSlots(run: Run, k: nat, i: nat)
    requires WindowRun(run) && k < |run.states| && forall m :: 0 <= m < k ==> !run.events[m].LeakHandle?
    ensures i in run.states[k].handles <==> i < |run.states[k].ring.seqs| && run.states[k].ring.seqs[i] < 0
  {
    NegativeSlotsAreHeld(run, k, i);
    NothingLeaks(run, k);
  }

  // ── Every handle is accounted for ───────────────────────────────────────────

  /** This acquire finds what its reader located and hands out a handle. */
  predicate HandsOut(s: State, e: Event) {
    && e.Swap? && e.r in s.readers && s.readers[e.r].pc.Located?
    && var at := s.readers[e.r].pc.at; at.index < |s.ring.seqs| && s.ring.seqs[at.index] == at.entrySeq
  }

  /** How many handles were handed out before state k, and how many released or lost. */
  function HandedOut(run: Run, k: nat): nat
    requires k <= |run.events| < |run.states|
  {
    if k == 0 then 0 else HandedOut(run, k - 1) + if HandsOut(run.states[k - 1], run.events[k - 1]) then 1 else 0
  }

  function GivenUp(run: Run, k: nat): nat
    requires k <= |run.events|
  {
    if k == 0 then 0
    else GivenUp(run, k - 1) + if GivesUpHandle(run.events[k - 1]) then 1 else 0
  }

  function Outstanding(s: State): nat {
    |s.handles| + |s.strays|
  }

  predicate GivesUpHandle(e: Event) {
    e.ReleaseHandle? || e.ReleaseStray? || e.LeakHandle?
  }

  lemma SwapCount(s: State, r: nat)
    requires ReaderCan(s, Swap(r)) && 0 < s.readers[r].pc.at.entrySeq <= I64_MAX
    ensures Outstanding(ReaderStep(s, Swap(r))) == Outstanding(s) + if HandsOut(s, Swap(r)) then 1 else 0
  {
    var at := s.readers[r].pc.at;
    SignRoundTrip(at.entrySeq);
    MapGrows(s.handles, at.index, at.entrySeq);
  }

  lemma GiveUpCount(s: State, e: Event)
    requires ReaderCan(s, e) && GivesUpHandle(e)
    ensures Outstanding(ReaderStep(s, e)) == Outstanding(s) - 1
  {
    if !e.ReleaseStray? {
      MapShrinks(s.handles, e.i);
    }
  }

  lemma OtherCount(s: State, e: Event)
    requires Can(s, e) && !GivesUpHandle(e) && !e.Swap?
    ensures Outstanding(Step(s, e)) == Outstanding(s)
  {
    assert Step(s, e).handles == s.handles && Step(s, e).strays == s.strays;
  }

  lemma StepCount(s: State, e: Event)
    requires Shape(s) && Can(s, e)
    ensures Outstanding(Step(s, e)) + (if GivesUpHandle(e) then 1 else 0) ==
            Outstanding(s) + if HandsOut(s, e) then 1 else 0
  {
    if e.Swap? {
      assert ReaderShape(s.readers[e.r], |s.ring.seqs|, s.ring.payloadBytes);
      SwapCount(s, e.r);
    } else if GivesUpHandle(e) {
      GiveUpCount(s, e);
    } else {
      OtherCount(s, e);
    }
  }

  lemma MapGrows(m: map<nat, nat>, i: nat, v: nat)
    ensures |m[i := v]| == if i in m then |m| else |m| + 1
  {
    assert m[i := v].Keys == m.Keys + {i};
    assert |m[i := v]| == |m[i := v].Keys| && |m| == |m.Keys|;
  }

  lemma MapShrinks(m: map<nat, nat>, i: nat)
    requires i in m
    ensures |m - {i}| == |m| - 1
  {
    assert (m - {i}).Keys == m.Keys - {i};
    assert |m - {i}| == |(m - {i}).Keys| && |m| == |m.Keys|;
  }

  /** In every run, broken pins included: the handles handed out are those outstanding and those given up. */
  lemma {:induction false} HandlesConserved(run: Run, k: nat)
    requires IsRun(run) && k < |run.states|
    ensures HandedOut(run, k) == Outstanding(run.states[k]) + GivenUp(run, k)
  {
    if k > 0 {
      HandlesConserved(run, k - 1);
      RunShape(run, k - 1);
      assert IsStep(run, k - 1);
      StepCount(run.states[k - 1], run.events[k - 1]);
    }
  }

  /**
   * What giving up a handle does, in every run: a release puts the handle's own number back into its
   * slot and touches nothing else in the ring; a loss, and closing a reader, leave the ring alone.
   */
  lemma GivingUp(run: Run, k: nat)
    requires IsRun(run) && k < |run.events|
    ensures var s, after, e := run.states[k], run.states[k + 1], run.events[k];
            match e
            case ReleaseHandle(i) =>
              && i in s.handles && i < |s.ring.seqs| && 0 < s.handles[i] && after.handles == s.handles - {i}
              && after.ring == s.ring.(seqs := s.ring.seqs[i := s.handles[i]])
            case ReleaseStray(at) =>
              && at in s.strays && at.index < |s.ring.seqs| && 0 < at.entrySeq
              && after.strays == s.strays - multiset{at}
              && after.ring == s.ring.(seqs := s.ring.seqs[at.index := at.entrySeq])
            case LeakHandle(i) =>
              i in s.handles && after.handles == s.handles - {i} && i in after.leaked && after.ring == s.ring
            case CloseReader(r) => r in s.readers && after == s.(readers := s.readers - {r})
            case _ => true
  {
    RunShape(run, k);
    assert IsStep(run, k);
  }

  // ── Why the claim window matters ────────────────────────────────────────────

  /** Every outstanding handle's slot is negated. */
  ghost predicate HandlesPinned(s: State) {
    forall i :: i in s.handles ==> i < |s.ring.seqs| && s.ring.seqs[i] == -(s.handles[i] as int)
  }

  /**
   * An acquire while the writer stands between load and store: every handle survives the writer's
   * next store exactly when the acquire aims at another slot or finds another word there.
   */
  lemma WindowExact(s: State, r: nat)
    requires Shape(s) && PinInv(s) && ReaderCan(s, Swap(r)) && s.writer.pc.Loaded?
    ensures var swapped, at := ReaderStep(s, Swap(r)), s.readers[r].pc.at;
            && WriterCan(swapped, ZeroSlot)
            && (HandlesPinned(WriterStep(swapped, ZeroSlot)) <==>
                OutsideClaimWindow(s, Swap(r)) || s.ring.seqs[at.index] != at.entrySeq)
  {
    var at := s.readers[r].pc.at;
    SignRoundTrip(at.entrySeq);
    var zeroed := WriterStep(ReaderStep(s, Swap(r)), ZeroSlot);
    if s.ring.seqs[at.index] == at.entrySeq {
      assert at.index in zeroed.handles && at.index !in s.handles;
    }
  }
}
