/**
 * The sequence counter as readers see it: what a restarted writer always stays above, and exactly when
 * no number is stored twice.
 */
module Counters {
  import opened Words
  import opened Rings
  import opened Protocol
  import opened Shapes
  import opened Pins
  import opened Safety
  import opened Issues
  import opened Numbering

  // ── Above everything visible ────────────────────────────────────────────────

  /** A writer's number is at least every magnitude in the ring, or in the part its recovery has loaded. */
  ghost predicate AboveRing(w: Writer, seqs: seq<int>) {
    match w.pc
    case Down => true
    case Recovering(_, _, i, maxSeq) => forall j :: 0 <= j < i && j < |seqs| ==> Abs(seqs[j]) <= maxSeq
    case _ => forall j :: 0 <= j < |seqs| ==> Abs(seqs[j]) <= w.lastSeq
  }

  lemma WriterStepAbove(s: State, e: Event)
    requires WriterShape(s.writer, s.ring) && AboveRing(s.writer, s.ring.seqs) && WriterCan(s, e)
    ensures AboveRing(WriterStep(s, e).writer, WriterStep(s, e).ring.seqs)
  {
    if !e.ZeroSlot? && !e.StoreSlot? {
      WriterFrame(s, e);
    }
  }

  lemma {:induction false} RunAboveRing(run: Run, k: nat)
    requires WindowRun(run) && k < |run.states|
    ensures AboveRing(run.states[k].writer, run.states[k].ring.seqs)
  {
    if k > 0 {
      RunAboveRing(run, k - 1);
      RunPins(run, k - 1);
      assert IsStep(run, k - 1);
      if WriterEvent(run.events[k - 1]) {
        WriterStepAbove(run.states[k - 1], run.events[k - 1]);
      } else {
        ReaderStepFlipsSigns(run.states[k - 1], run.events[k - 1]);
      }
    }
  }

  /** Whatever header its writer was given, each entry gets a number above every one in the ring, held or not. */
  lemma StoresAboveVisible(run: Run, k: nat, i: nat)
    requires WindowRun(run) && k < |run.events| && run.events[k].StoreSlot? && i < |run.states[k].ring.seqs|
    ensures run.states[k].writer.pc.Filling? && run.states[k].writer.pc.index < |run.states[k + 1].ring.seqs|
    ensures Abs(run.states[k].ring.seqs[i]) < run.states[k + 1].ring.seqs[run.states[k].writer.pc.index]
  {
    assert IsStep(run, k);
    RunAboveRing(run, k);
  }

  /**
   * A recovered writer is at or above the watermark it found iff its header was, or some slot. So only
   * a stale header can fall below it.
   */
  lemma AboveWatermarkExact(run: Run, a: nat, k: nat)
    requires WindowRun(run) && a < k < |run.states| && Tenant(run, a, k)
    requires forall m :: a < m < k ==> !run.events[m].StoreSlot?
    requires !run.states[k].writer.pc.Recovering?
    ensures var found := run.states[a].ring;
            found.watermark <= run.states[k].writer.lastSeq <==>
            || found.watermark <= run.events[a].headerSeq
            || exists i :: 0 <= i < |found.seqs| && found.watermark <= Abs(found.seqs[i])
  {
    RecoveryInRun(run, a, k);
  }

  // ── No number stored twice ──────────────────────────────────────────────────

  ghost predicate StoredOnce(run: Run)
    requires |run.states| == |run.events| + 1
  {
    forall k, m :: 0 <= k < m < |run.events| && run.events[k].StoreSlot? && run.events[m].StoreSlot? ==>
      run.states[k].writer.lastSeq != run.states[m].writer.lastSeq
  }

  /** No writer attaches with a header watermark ahead of what has been committed. */
  ghost predicate HeadersBehind(run: Run)
    requires |run.states| == |run.events| + 1
  {
    forall k :: 0 <= k < |run.events| && run.events[k].Attach? ==> run.events[k].headerSeq <= |run.states[k].log|
  }

  lemma {:induction false} BackedSoFar(run: Run, k: nat)
    requires WindowRun(run) && k < |run.states| && IssuedNextUpTo(run, k)
    ensures Backed(run.states[k])
  {
    if k == 0 {
      FreshInv(run.states[0]);
    } else {
      BackedSoFar(run, k - 1);
      assert IsStep(run, k - 1);
      StepKeepsBacked(run.states[k - 1], run.events[k - 1]);
    }
  }

  /** While stores take the next number, every number up to the highest has been stored. */
  lemma {:induction false} AllStored(run: Run, k: nat, s: nat) returns (m: nat)
    requires IsRun(run) && k < |run.states| && IssuedNextUpTo(run, k) && 0 < s <= |run.states[k].log|
    ensures m < k && StoresNumber(run, m, s)
  {
    assert IsStep(run, k - 1);
    if s <= |run.states[k - 1].log| {
      m := AllStored(run, k - 1, s);
    } else {
      m := k - 1;
    }
  }

  lemma {:induction false} FirstWrongStore(run: Run, k: nat) returns (c: nat)
    requires |run.states| == |run.events| + 1 && k < |run.events| && !IssuesNext(run.states[k], run.events[k])
    ensures c <= k && !IssuesNext(run.states[c], run.events[c]) && IssuedNextUpTo(run, c)
  {
    if m :| 0 <= m < k && !IssuesNext(run.states[m], run.events[m]) {
      c := FirstWrongStore(run, m);
    } else {
      c := k;
    }
  }

  /** The first store that does not take the next number takes a lower one, unless a header was ahead. */
  lemma WrongStoreIsLow(run: Run, c: nat)
    requires WindowRun(run) && HeadersBehind(run) && c < |run.events|
    requires IssuedNextUpTo(run, c) && !IssuesNext(run.states[c], run.events[c])
    ensures run.events[c].StoreSlot? && run.states[c].writer.lastSeq < |run.states[c].log|
  {
    assert IsStep(run, c);
    var a := SinceAttach(run, c);
    if b :| a < b < c && run.events[b].StoreSlot? {
      AfterStore(run, b, c);
    } else {
      RecoveryInRun(run, a, c);
      BackedSoFar(run, a);
      MaximumIsBacked(run.states[a].ring, run.states[a].log, run.events[a].headerSeq);
    }
  }

  lemma MaximumIsBacked(ring: Ring, log: seq<seq<byte>>, headerSeq: nat)
    requires RingInv(ring, log) && headerSeq <= |log|
    ensures MaxMagnitude(ring.seqs, headerSeq, |ring.seqs|) <= |log|
  {
    var m := MaxMagnitude(ring.seqs, headerSeq, |ring.seqs|);
    if m != headerSeq {
      var i :| 0 <= i < |ring.seqs| && Abs(ring.seqs[i]) == m;
      assert SlotInv(ring.seqs[i], ring.payloads[i], log);
    }
  }

  /**
   * Exactly when a number is stored twice: with pins safe and no header ahead of the log, all stored
   * numbers differ iff each writer that commits anything attached informed.
   */
  lemma StoredOnceExact(run: Run)
    requires WindowRun(run) && HeadersBehind(run)
    ensures StoredOnce(run) <==> CommittersInformed(run)
  {
    NumberingExact(run);
    if CommittersInformed(run) {
      forall k, m | 0 <= k < m < |run.events| && run.events[k].StoreSlot? && run.events[m].StoreSlot?
        ensures run.states[k].writer.lastSeq != run.states[m].writer.lastSeq
      {
        assert IsStep(run, k) && IsStep(run, m);
        NumbersIssuedOnce(run, k, m);
      }
    } else {
      var k :| 0 <= k < |run.events| && !IssuesNext(run.states[k], run.events[k]);
      var c := FirstWrongStore(run, k);
      WrongStoreIsLow(run, c);
      var m := AllStored(run, c, run.states[c].writer.lastSeq + 1);
      assert run.states[m].writer.lastSeq == run.states[c].writer.lastSeq;
    }
  }

  // ── Decoded headers are never ahead ─────────────────────────────────────────

  /** Nothing in the segment or the writer is ahead of the log. */
  ghost predicate NotAhead(s: State) {
    && s.ring.watermark <= |s.log|
    && (forall i :: 0 <= i < |s.ring.seqs| ==> Abs(s.ring.seqs[i]) <= |s.log|)
    && (s.writer.pc.Recovering? ==> s.writer.pc.maxSeq <= |s.log|)
    && (!s.writer.pc.Down? && !s.writer.pc.Recovering? ==> s.writer.lastSeq <= |s.log|)
  }

  lemma WriterStepNotAhead(s: State, e: Event)
    requires NotAhead(s) && WriterCan(s, e) && (e.Attach? ==> e.headerSeq <= |s.log|)
    ensures NotAhead(WriterStep(s, e))
  {
    if !e.ZeroSlot? && !e.StoreSlot? {
      WriterFrame(s, e);
    }
  }

  lemma {:induction false} RunNotAhead(run: Run, k: nat)
    requires WindowRun(run) && k < |run.states| && forall m :: 0 <= m < |run.events| ==> HeaderSeen(run, m)
    ensures NotAhead(run.states[k])
  {
    if k > 0 {
      RunNotAhead(run, k - 1);
      RunPins(run, k - 1);
      assert IsStep(run, k - 1);
      var s, e := run.states[k - 1], run.events[k - 1];
      if e.Attach? {
        assert HeaderSeen(run, k - 1);
        var m :| 0 <= m <= k - 1 && run.states[m].ring.watermark == e.headerSeq;
        RunNotAhead(run, m);
        LogGrows(run, m, k - 1);
      }
      if WriterEvent(e) {
        WriterStepNotAhead(s, e);
      } else {
        ReaderStepFlipsSigns(s, e);
      }
    }
  }

  /** A header decoded at any point of the run, however long ago, is not ahead of the log. */
  lemma DecodedHeadersAreBehind(run: Run)
    requires WindowRun(run) && forall k :: 0 <= k < |run.events| ==> HeaderSeen(run, k)
    ensures HeadersBehind(run)
  {
    forall k | 0 <= k < |run.events| && run.events[k].Attach?
      ensures run.events[k].headerSeq <= |run.states[k].log|
    {
      assert HeaderSeen(run, k);
      var m :| 0 <= m <= k && run.states[m].ring.watermark == run.events[k].headerSeq;
      RunNotAhead(run, m);
      LogGrows(run, m, k);
    }
  }
}
