/** Sequence numbers across writer crashes: when recovery is exact, and what makes it so. */
module Numbering {
  import opened Words
  import opened Rings
  import opened Protocol
  import opened Shapes
  import opened Pins
  import opened Safety

  // ── When numbers are issued once ────────────────────────────────────────────

  /** The writer of state k attached at event a and has not died since. */
  ghost predicate Tenant(run: Run, a: nat, k: nat)
    requires |run.states| == |run.events| + 1 && a < k < |run.states|
  {
    run.events[a].Attach? && forall m :: a < m < k ==> !run.events[m].Crash?
  }

  lemma {:induction false} SinceAttach(run: Run, k: nat) returns (a: nat)
    requires IsRun(run) && k < |run.states| && !run.states[k].writer.pc.Down?
    ensures a < k && Tenant(run, a, k)
  {
    assert IsStep(run, k - 1);
    if run.events[k - 1].Attach? {
      a := k - 1;
    } else {
      a := SinceAttach(run, k - 1);
    }
  }

  /** What a writer that attached in `start` knows until its first slot store. */
  ghost predicate Resumed(start: State, headerIndex: nat, headerSeq: nat, s: State) {
    var seqs := start.ring.seqs;
    && 0 < |seqs| && s.log == start.log && !s.writer.pc.Down?
    && (s.writer.pc.Recovering? ==>
          && SignsOnly(start.ring, s.ring) && s.writer.pc.i <= |seqs|
          && s.writer.pc.headerIndex == headerIndex && s.writer.pc.headerSeq == headerSeq
          && s.writer.pc.maxSeq == MaxMagnitude(seqs, headerSeq, s.writer.pc.i))
    && (!s.writer.pc.Recovering? ==>
          && s.writer.lastSeq == MaxMagnitude(seqs, headerSeq, |seqs|)
          && s.writer.currentIndex == ResumeIndex(seqs, headerIndex, s.writer.lastSeq))
  }

  lemma RecoverLoadResumes(start: State, headerIndex: nat, headerSeq: nat, s: State)
    requires Resumed(start, headerIndex, headerSeq, s) && WriterCan(s, RecoverLoad)
    ensures Resumed(start, headerIndex, headerSeq, WriterStep(s, RecoverLoad))
  {
    var i := s.writer.pc.i;
    if i < |s.ring.seqs| {
      LoadExtendsMaximum(start.ring.seqs, s.ring.seqs, headerSeq, i);
    } else {
      ResumeIgnoresSigns(start.ring.seqs, s.ring.seqs, headerIndex, s.writer.pc.maxSeq);
    }
  }

  lemma ReaderStepResumes(start: State, headerIndex: nat, headerSeq: nat, s: State, e: Event)
    requires Shape(s) && PinInv(s) && Resumed(start, headerIndex, headerSeq, s) && ReaderCan(s, e)
    ensures Resumed(start, headerIndex, headerSeq, ReaderStep(s, e))
  {
    ReaderStepFlipsSigns(s, e);
    if s.writer.pc.Recovering? {
      SignsOnlyTransitive(start.ring, s.ring, ReaderStep(s, e).ring);
    }
  }

  /**
   * Recovery in the middle of a run: whatever readers pin and unpin between its loads, a writer ends
   * up with what `recover_state` computes from the ring as it was when the writer attached.
   */
  lemma {:induction false} RecoveryInRun(run: Run, a: nat, k: nat)
    requires WindowRun(run) && a < k < |run.states| && Tenant(run, a, k)
    requires forall m :: a < m < k ==> !run.events[m].StoreSlot?
    ensures Resumed(run.states[a], run.events[a].headerIndex, run.events[a].headerSeq, run.states[k])
    decreases k
  {
    assert IsStep(run, k - 1);
    RunPins(run, k - 1);
    if a < k - 1 {
      RecoveryInRun(run, a, k - 1);
      var s, e, attach := run.states[k - 1], run.events[k - 1], run.events[a];
      if e.RecoverLoad? {
        RecoverLoadResumes(run.states[a], attach.headerIndex, attach.headerSeq, s);
      } else if !WriterEvent(e) {
        ReaderStepResumes(run.states[a], attach.headerIndex, attach.headerSeq, s, e);
      }
    }
  }

  /** A writer that has just recovered holds the highest committed number iff it attached informed. */
  lemma RecoveredExactly(run: Run, a: nat, k: nat)
    requires NoReuseRun(run) && a < k < |run.states| && Tenant(run, a, k)
    requires forall m :: a < m < k ==> !run.events[m].StoreSlot?
    requires !run.states[k].writer.pc.Recovering?
    ensures run.states[k].writer.lastSeq == |run.states[k].log| <==> Informed(run.states[a], run.events[a])
  {
    RecoveryInRun(run, a, k);
    RunBacked(run, a);
    RecoveredNumberExact(run.states[a].ring, run.states[a].log, run.events[a].headerSeq);
  }

  ghost predicate IssuedNextUpTo(run: Run, k: nat)
    requires |run.states| == |run.events| + 1 && k <= |run.events|
  {
    forall m :: 0 <= m < k ==> IssuesNext(run.states[m], run.events[m])
  }

  /** From its first slot store on, a writer's number is the highest. */
  lemma {:induction false} AfterStore(run: Run, b: nat, k: nat)
    requires IsRun(run) && b < k < |run.states| && run.events[b].StoreSlot? && IssuedNextUpTo(run, k)
    requires forall m :: b < m < k ==> !run.events[m].Crash?
    ensures !run.states[k].writer.pc.Down? && !run.states[k].writer.pc.Recovering?
    ensures run.states[k].writer.lastSeq == |run.states[k].log|
    decreases k
  {
    assert IsStep(run, k - 1);
    if b < k - 1 {
      AfterStore(run, b, k - 1);
    }
  }

  /** The writer that attaches at event a goes on to commit an entry. */
  ghost predicate GoesOnToCommit(run: Run, a: nat)
    requires |run.states| == |run.events| + 1 && a < |run.events|
  {
    exists b :: a < b < |run.events| && run.events[b].StoreSlot? && Tenant(run, a, b)
  }

  ghost predicate CommittersInformed(run: Run)
    requires |run.states| == |run.events| + 1
  {
    forall a :: 0 <= a < |run.events| && run.events[a].Attach? && GoesOnToCommit(run, a) ==>
      Informed(run.states[a], run.events[a])
  }

  lemma {:induction false} FirstStore(run: Run, a: nat, b: nat) returns (c: nat)
    requires a <= b < |run.events| && run.events[b].StoreSlot?
    ensures a <= c <= b && run.events[c].StoreSlot? && forall m :: a <= m < c ==> !run.events[m].StoreSlot?
    decreases b - a
  {
    if run.events[a].StoreSlot? {
      c := a;
    } else {
      c := FirstStore(run, a + 1, b);
    }
  }

  /** The next slot store takes the next number, if the ones before it did. */
  lemma NextStoreIssuesNext(run: Run, k: nat)
    requires WindowRun(run) && CommittersInformed(run) && k < |run.events| && IssuedNextUpTo(run, k)
    requires forall m :: 0 <= m <= k ==> Backed(run.states[m])
    ensures IssuesNext(run.states[k], run.events[k])
  {
    if run.events[k].StoreSlot? {
      assert IsStep(run, k);
      var a := SinceAttach(run, k);
      if b :| a < b < k && run.events[b].StoreSlot? {
        AfterStore(run, b, k);
      } else {
        assert GoesOnToCommit(run, a);
        RecoveryInRun(run, a, k);
        RecoveredNumberExact(run.states[a].ring, run.states[a].log, run.events[a].headerSeq);
      }
    }
  }

  lemma {:induction false} InformedStores(run: Run, k: nat)
    requires WindowRun(run) && CommittersInformed(run) && k < |run.states|
    ensures IssuedNextUpTo(run, k) && forall m :: 0 <= m <= k ==> Backed(run.states[m])
  {
    if k == 0 {
      FreshInv(run.states[0]);
    } else {
      InformedStores(run, k - 1);
      NextStoreIssuesNext(run, k - 1);
      assert IsStep(run, k - 1);
      StepKeepsBacked(run.states[k - 1], run.events[k - 1]);
    }
  }

  /**
   * Exactly when numbering works: with pins safe, every slot store takes the number after the
   * highest ever committed iff each writer that commits anything attached informed.
   */
  lemma NumberingExact(run: Run)
    requires WindowRun(run)
    ensures NoReuseRun(run) <==> CommittersInformed(run)
  {
    if CommittersInformed(run) {
      InformedStores(run, |run.events|);
    }
    if NoReuseRun(run) {
      forall a | 0 <= a < |run.events| && run.events[a].Attach? && GoesOnToCommit(run, a)
        ensures Informed(run.states[a], run.events[a])
      {
        var b :| a < b < |run.events| && run.events[b].StoreSlot? && Tenant(run, a, b);
        var c := FirstStore(run, a + 1, b);
        assert IsStep(run, c);
        RecoveredExactly(run, a, c);
      }
    }
  }

  /** If committing writers attach informed, numbers are dense: each slot shows the one after the highest. */
  lemma NumbersDense(run: Run, k: nat)
    requires WindowRun(run) && CommittersInformed(run) && k < |run.events| && run.events[k].StoreSlot?
    ensures run.states[k].writer.pc.Filling? && run.states[k].writer.pc.index < |run.states[k + 1].ring.seqs|
    ensures var issued := run.states[k + 1].ring.seqs[run.states[k].writer.pc.index];
            issued == |run.states[k].log| + 1 == |run.states[k + 1].log|
  {
    NumberingExact(run);
    assert IsStep(run, k);
  }

  /** No number is issued twice, and later stores get larger numbers. */
  lemma NumbersIssuedOnce(run: Run, k: nat, m: nat)
    requires NoReuseRun(run) && k < m < |run.events| && run.events[k].StoreSlot? && run.events[m].StoreSlot?
    ensures run.states[k + 1].writer.lastSeq < run.states[m + 1].writer.lastSeq
  {
    assert IsStep(run, k) && IsStep(run, m);
    LogGrows(run, k + 1, m);
  }

  lemma {:induction false} LogGrows(run: Run, a: nat, b: nat)
    requires IsRun(run) && a <= b < |run.states|
    ensures run.states[a].log <= run.states[b].log
    decreases b - a
  {
    if a < b {
      LogGrows(run, a, b - 1);
      assert IsStep(run, b - 1);
    }
  }

  // ── Current headers and safe claims ─────────────────────────────────────────

  /** Zeroing a slot keeps the newest number recoverable exactly when the claim is safe. */
  lemma SafeClaimExact(s: State)
    requires RingInv(s.ring, s.log) && Recoverable(s.ring, s.log)
    requires WriterCan(s, ZeroSlot) && ClaimInv(s.writer.pc, s.ring.seqs)
    ensures Recoverable(WriterStep(s, ZeroSlot).ring, s.log) <==> SafeClaim(s, ZeroSlot)
  {
    var i, after := s.writer.pc.index, WriterStep(s, ZeroSlot).ring;
    if s.ring.watermark != |s.log| {
      var newest :| 0 <= newest < |s.ring.seqs| && Abs(s.ring.seqs[newest]) == |s.log|;
      if s.ring.seqs[i] != |s.log| {
        assert Abs(after.seqs[newest]) == |s.log|;
      } else {
        forall j: nat | j < |after.seqs|
          ensures Abs(after.seqs[j]) != |s.log|
        {
          assert Differ(s.ring.seqs, i, j);
        }
      }
    }
  }

  lemma SignsKeepRecoverable(a: Ring, b: Ring, log: seq<seq<byte>>)
    requires SignsOnly(a, b) && Recoverable(a, log)
    ensures Recoverable(b, log)
  {
    if a.watermark != |log| {
      var i :| 0 <= i < |a.seqs| && Abs(a.seqs[i]) == |log|;
      assert Abs(b.seqs[i]) == |log|;
    }
  }

  lemma DisciplinedStep(s: State, e: Event)
    requires Inv(s) && Recoverable(s.ring, s.log) && Can(s, e) && Disciplined(s, e)
    ensures Informed(s, e) && Recoverable(Step(s, e).ring, Step(s, e).log)
  {
    var after := Step(s, e);
    if e.ZeroSlot? {
      SafeClaimExact(s);
    } else if e.StoreSlot? {
      assert Abs(after.ring.seqs[s.writer.pc.index]) == |after.log|;
    } else if !WriterEvent(e) {
      ReaderStepFlipsSigns(s, e);
      SignsKeepRecoverable(s.ring, after.ring, s.log);
    }
  }

  lemma {:induction false} DisciplinedRunInv(run: Run, k: nat)
    requires DisciplinedRun(run) && k < |run.states|
    ensures Inv(run.states[k]) && Recoverable(run.states[k].ring, run.states[k].log)
  {
    if k == 0 {
      FreshInv(run.states[0]);
    } else {
      DisciplinedRunInv(run, k - 1);
      assert IsStep(run, k - 1);
      DisciplinedStep(run.states[k - 1], run.events[k - 1]);
      StepKeepsInv(run.states[k - 1], run.events[k - 1]);
    }
  }

  /** Writers that attach with the current header and make safe claims only are always informed. */
  lemma DisciplinedRunsAreInformed(run: Run)
    requires DisciplinedRun(run)
    ensures InformedRun(run)
  {
    forall k | 0 <= k < |run.events|
      ensures Informed(run.states[k], run.events[k])
    {
      DisciplinedRunInv(run, k);
      assert IsStep(run, k);
      DisciplinedStep(run.states[k], run.events[k]);
    }
  }

  // ── Rings nobody pins ───────────────────────────────────────────────────────

  /** Neither a recovered nor an advanced index ever names the slot holding the newest entry. */
  ghost predicate Unpinned(s: State) {
    && 2 <= |s.ring.seqs|
    && (forall i :: 0 <= i < |s.ring.seqs| ==> 0 <= s.ring.seqs[i])
    && NewestVisible(s.ring.seqs, |s.log|)
    && match s.writer.pc
       case Down => true
       case Recovering(_, _, _, _) => true
       case Idle => CursorOffNewest(s)
       case Probing(k) => k == 0 && CursorOffNewest(s)
       case Loaded(index) => index == s.writer.currentIndex && CursorOffNewest(s)
       case Filling(index) => index == s.writer.currentIndex && CursorOffNewest(s)
       case Committed(_) => true
       case Indexed(_) => true
  }

  ghost predicate CursorOffNewest(s: State) {
    |s.log| > 0 ==> s.writer.currentIndex < |s.ring.seqs| && s.ring.seqs[s.writer.currentIndex] != |s.log|
  }

  /** The header watermark a writer attaches with was the segment's at some point, now or long ago. */
  ghost predicate HeaderSeen(run: Run, k: nat)
    requires |run.states| == |run.events| + 1 && k < |run.events|
  {
    run.events[k].Attach? ==> exists m :: 0 <= m <= k && run.states[m].ring.watermark == run.events[k].headerSeq
  }

  /** A run of a ring with at least two slots in which no reader pins anything. */
  ghost predicate UnpinnedRun(run: Run) {
    && IsRun(run) && 2 <= |run.states[0].ring.seqs|
    && forall k :: 0 <= k < |run.events| ==> HeaderSeen(run, k) && !run.events[k].Swap?
  }

  lemma UnpinnedZeroSlot(s: State)
    requires Inv(s) && Unpinned(s) && WriterCan(s, ZeroSlot)
    ensures Unpinned(WriterStep(s, ZeroSlot))
  {
    var after := WriterStep(s, ZeroSlot);
    var newest :| 0 <= newest < |s.ring.seqs| && Abs(s.ring.seqs[newest]) == |s.log|;
    if |s.log| > 0 {
      assert newest != s.writer.pc.index;
      assert Abs(after.ring.seqs[newest]) == |s.log|;
    } else {
      assert Abs(after.ring.seqs[s.writer.pc.index]) == 0;
    }
  }

  lemma UnpinnedStoreSlot(s: State)
    requires Inv(s) && Unpinned(s) && WriterCan(s, StoreSlot)
    ensures Unpinned(WriterStep(s, StoreSlot))
  {
    var after := WriterStep(s, StoreSlot);
    assert Abs(after.ring.seqs[s.writer.pc.index]) == |after.log|;
  }

  lemma UnpinnedWriterStep(s: State, e: Event)
    requires Inv(s) && Unpinned(s) && WriterCan(s, e)
    ensures Unpinned(WriterStep(s, e))
  {
    if e.ZeroSlot? {
      UnpinnedZeroSlot(s);
    } else if e.StoreSlot? {
      UnpinnedStoreSlot(s);
    } else {
      assert WriterStep(s, e).ring.seqs == s.ring.seqs;
      assert e.StoreWatermark? ==> Differ(s.ring.seqs, s.writer.pc.index, s.writer.currentIndex);
      if e.RecoverLoad? && s.writer.pc.i == |s.ring.seqs| && |s.log| > 0 {
        ResumeIndexOffNewest(s.ring, s.log, s.writer.pc.headerIndex);
      }
    }
  }

  lemma ResumeIndexOffNewest(ring: Ring, log: seq<seq<byte>>, headerIndex: nat)
    requires RingInv(ring, log) && 2 <= |ring.seqs| && |log| > 0
    ensures Abs(ring.seqs[ResumeIndex(ring.seqs, headerIndex, |log|)]) != |log|
  {
    var at := headerIndex % |ring.seqs|;
    assert Differ(ring.seqs, at, Wrap(at, 1, |ring.seqs|));
  }

  lemma UnpinnedStep(s: State, e: Event)
    requires Inv(s) && Unpinned(s) && Can(s, e) && !e.Swap?
    ensures Unpinned(Step(s, e))
  {
    if WriterEvent(e) {
      UnpinnedWriterStep(s, e);
    } else {
      CopyReadersTouchNothing(s, e);
    }
  }

  lemma {:induction false} UnpinnedRunInv(run: Run, k: nat)
    requires UnpinnedRun(run) && k < |run.states|
    ensures Inv(run.states[k]) && Unpinned(run.states[k])
    decreases k, 0
  {
    if k == 0 {
      FreshInv(run.states[0]);
      assert Abs(run.states[0].ring.seqs[0]) == 0;
    } else {
      UnpinnedInformed(run, k - 1);
      UnpinnedRunInv(run, k - 1);
      assert IsStep(run, k - 1);
      StepKeepsInv(run.states[k - 1], run.events[k - 1]);
      UnpinnedStep(run.states[k - 1], run.events[k - 1]);
    }
  }

  lemma {:induction false} UnpinnedInformed(run: Run, k: nat)
    requires UnpinnedRun(run) && k < |run.events|
    ensures Informed(run.states[k], run.events[k])
    decreases k, 1
  {
    UnpinnedRunInv(run, k);
    if run.events[k].Attach? {
      assert HeaderSeen(run, k);
      var m :| 0 <= m <= k && run.states[m].ring.watermark == run.events[k].headerSeq;
      UnpinnedRunInv(run, m);
      LogGrows(run, m, k);
    }
  }

  /**
   * Without pins and with two slots or more, every writer is informed, however old its header, and
   * no claim endangers the numbering.
   */
  lemma UnpinnedRunsAreInformed(run: Run)
    requires UnpinnedRun(run)
    ensures InformedRun(run)
    ensures forall k :: 0 <= k < |run.events| ==> SafeClaim(run.states[k], run.events[k])
  {
    forall k | 0 <= k < |run.events|
      ensures Informed(run.states[k], run.events[k]) && SafeClaim(run.states[k], run.events[k])
    {
      UnpinnedInformed(run, k);
      UnpinnedRunInv(run, k);
    }
  }

  /**
   * Crash-proof numbering: after any number of crashes between any two atomic operations, and with
   * any header decoded before or after them, a writer that has finished recovering holds exactly the
   * highest number ever committed, and resumes at a slot other than the newest entry's.
   */
  lemma CrashProofNumbering(run: Run, k: nat)
    requires UnpinnedRun(run) && k < |run.states|
    requires !run.states[k].writer.pc.Down? && !run.states[k].writer.pc.Recovering?
    ensures run.states[k].writer.lastSeq == |run.states[k].log|
    ensures run.states[k].writer.currentIndex < |run.states[k].ring.seqs|
    ensures run.states[k].writer.pc.Idle? && |run.states[k].log| > 0 ==>
              run.states[k].ring.seqs[run.states[k].writer.currentIndex] != |run.states[k].log|
  {
    UnpinnedRunInv(run, k);
  }

  /**
   * The watermark never promises more than a reader can find: some slot visibly holds an entry at
   * least as new, in the middle of a claim or a publish and after crashes too.
   */
  lemma WatermarkPromiseKept(run: Run, k: nat)
    requires UnpinnedRun(run) && k < |run.states|
    ensures run.states[k].ring.watermark <= |run.states[k].log|
    ensures exists i :: 0 <= i < |run.states[k].ring.seqs| && run.states[k].ring.watermark <= run.states[k].ring.seqs[i]
  {
    UnpinnedRunInv(run, k);
    var s := run.states[k];
    var i :| 0 <= i < |s.ring.seqs| && Abs(s.ring.seqs[i]) == |s.log|;
    assert s.ring.watermark <= s.ring.seqs[i];
  }

  /** A read that gets past the watermark check is owed something: an entry newer than its watermark is visible. */
  lemma StartedReadIsOwed(run: Run, k: nat, r: nat) returns (i: nat)
    requires UnpinnedRun(run) && k < |run.events| && run.events[k].StartRead? && run.events[k].r == r
    requires r in run.states[k + 1].readers && !run.states[k + 1].readers[r].pc.Resting?
    ensures i < |run.states[k + 1].ring.seqs|
    ensures run.states[k + 1].readers[r].pc.call.watermark < run.states[k + 1].ring.seqs[i]
  {
    assert IsStep(run, k);
    WatermarkPromiseKept(run, k);
    var s := run.states[k];
    i :| 0 <= i < |s.ring.seqs| && s.ring.watermark <= s.ring.seqs[i];
    assert run.states[k + 1].ring == s.ring;
  }

  /** Nothing is promised, or some slot shows an entry as new as the watermark. */
  ghost predicate PromiseKept(ring: Ring) {
    ring.watermark == 0 || exists i :: 0 <= i < |ring.seqs| && ring.watermark <= ring.seqs[i]
  }

  ghost predicate KeptElsewhere(ring: Ring, i: nat) {
    ring.watermark == 0 || exists j :: 0 <= j < |ring.seqs| && j != i && ring.watermark <= ring.seqs[j]
  }

  /** A step does not hide the only entry that keeps the promise, nor promise an entry that is held. */
  ghost predicate KeepsPromise(s: State, e: Event) {
    Can(s, e) ==>
      match e
      case ZeroSlot => KeptElsewhere(s.ring, s.writer.pc.index)
      case Swap(r) =>
        var at := s.readers[r].pc.at;
        s.ring.seqs[at.index] == AsI64(at.entrySeq) ==> KeptElsewhere(s.ring, at.index)
      case StoreWatermark => s.writer.pc.index < |s.ring.seqs| && 0 < s.ring.seqs[s.writer.pc.index]
      case _ => true
  }

  lemma HidingExact(ring: Ring, i: nat, word: int)
    requires i < |ring.seqs| && word <= 0
    ensures PromiseKept(Store(ring, i, word)) <==> KeptElsewhere(ring, i)
  {
    var after := Store(ring, i, word);
    if ring.watermark > 0 && PromiseKept(after) {
      var j :| 0 <= j < |after.seqs| && after.watermark <= after.seqs[j];
      assert ring.watermark <= ring.seqs[j];
    }
    if ring.watermark > 0 && KeptElsewhere(ring, i) {
      var j :| 0 <= j < |ring.seqs| && j != i && ring.watermark <= ring.seqs[j];
      assert after.watermark <= after.seqs[j];
    }
  }

  lemma ShowingKeeps(ring: Ring, i: nat, word: int)
    requires PromiseKept(ring) && i < |ring.seqs| && ring.seqs[i] <= 0 <= word
    ensures PromiseKept(Store(ring, i, word))
  {
    if ring.watermark > 0 {
      var j :| 0 <= j < |ring.seqs| && ring.watermark <= ring.seqs[j];
      assert Store(ring, i, word).seqs[j] == ring.seqs[j];
    }
  }

  lemma PromisingExact(s: State)
    requires Backed(s) && WriterCan(s, StoreWatermark)
    ensures PromiseKept(WriterStep(s, StoreWatermark).ring) <==> KeepsPromise(s, StoreWatermark)
  {
    var i, after := s.writer.pc.index, WriterStep(s, StoreWatermark).ring;
    forall j: nat | j < |s.ring.seqs| && |s.log| <= s.ring.seqs[j]
      ensures j == i
    {
      assert SlotInv(s.ring.seqs[j], s.ring.payloads[j], s.log) && Differ(s.ring.seqs, i, j);
    }
    assert 0 < s.ring.seqs[i] ==> after.watermark <= after.seqs[i];
  }

  lemma WriterPromiseExact(s: State, e: Event)
    requires Backed(s) && PromiseKept(s.ring) && WriterEvent(e) && Can(s, e)
    ensures PromiseKept(WriterStep(s, e).ring) <==> KeepsPromise(s, e)
  {
    if e.ZeroSlot? {
      HidingExact(s.ring, s.writer.pc.index, 0);
    } else if e.StoreSlot? {
      ShowingKeeps(s.ring, s.writer.pc.index, s.writer.lastSeq + 1);
    } else if e.StoreWatermark? {
      PromisingExact(s);
    } else {
      WriterFrame(s, e);
    }
  }

  lemma ReaderPromiseExact(s: State, e: Event)
    requires Backed(s) && PromiseKept(s.ring) && !WriterEvent(e) && Can(s, e)
    ensures PromiseKept(ReaderStep(s, e).ring) <==> KeepsPromise(s, e)
  {
    if e.Swap? {
      HidingExact(s.ring, s.readers[e.r].pc.at.index, -AsI64(s.readers[e.r].pc.at.entrySeq));
    } else if e.ReleaseHandle? {
      ShowingKeeps(s.ring, e.i, s.handles[e.i]);
    } else {
      assert ReaderStep(s, e).ring == s.ring;
    }
  }

  /**
   * With pins or in a single slot the promise can break. It does exactly at a claim or an acquire of
   * the only slot that keeps it, or at a watermark store whose own entry has been acquired meanwhile.
   */
  lemma PromiseExact(s: State, e: Event)
    requires Backed(s) && PromiseKept(s.ring) && Can(s, e)
    ensures PromiseKept(Step(s, e).ring) <==> KeepsPromise(s, e)
  {
    if WriterEvent(e) {
      WriterPromiseExact(s, e);
    } else {
      ReaderPromiseExact(s, e);
    }
  }

  lemma {:induction false} PromiseUpTo(run: Run, k: nat)
    requires NoReuseRun(run) && k < |run.states|
    requires forall m :: 0 <= m < k ==> KeepsPromise(run.states[m], run.events[m])
    ensures PromiseKept(run.states[k].ring)
  {
    if k > 0 {
      PromiseUpTo(run, k - 1);
      assert IsStep(run, k - 1);
      RunBacked(run, k - 1);
      PromiseExact(run.states[k - 1], run.events[k - 1]);
    }
  }

  /** Over a whole run the promise is kept iff no step of it is one of those. */
  lemma PromiseRunExact(run: Run)
    requires NoReuseRun(run)
    ensures (forall k :: 0 <= k < |run.states| ==> PromiseKept(run.states[k].ring)) <==>
            (forall k :: 0 <= k < |run.events| ==> KeepsPromise(run.states[k], run.events[k]))
  {
    if forall k :: 0 <= k < |run.events| ==> KeepsPromise(run.states[k], run.events[k]) {
      forall k | 0 <= k < |run.states|
        ensures PromiseKept(run.states[k].ring)
      {
        PromiseUpTo(run, k);
      }
    }
    if forall k :: 0 <= k < |run.states| ==> PromiseKept(run.states[k].ring) {
      forall k | 0 <= k < |run.events|
        ensures KeepsPromise(run.states[k], run.events[k])
      {
        assert IsStep(run, k) && PromiseKept(run.states[k].ring) && PromiseKept(run.states[k + 1].ring);
        RunBacked(run, k);
        PromiseExact(run.states[k], run.events[k]);
      }
    }
  }
}
