/** Recovery from a single crash with slots pinned: the number at every crash point, and when the index is exact. */
module Recoveries {
  import opened Words
  import opened Rings
  import opened Protocol
  import opened Shapes
  import opened Pins
  import opened Safety

  // ── One crash, with pinned slots ────────────────────────────────────────────

  /** The cursor is just past the newest entry, wherever that entry still is. */
  ghost predicate PastNewest(seqs: seq<int>, newest: nat, cursor: nat) {
    && cursor < |seqs|
    && (newest > 0 ==> forall j :: 0 <= j < |seqs| && Abs(seqs[j]) == newest ==> cursor == Wrap(j, 1, |seqs|))
  }

  /** The header was up to date before the write in progress, and lags only by what that write has committed. */
  ghost predicate HeaderFresh(s: State) {
    match s.writer.pc
    case Down => false
    case Recovering(_, _, _, _) => false
    case Committed(_) => s.ring.watermark + 1 == |s.log|
    case Indexed(_) => s.ring.watermark + 1 == |s.log|
    case _ =>
      && s.ring.watermark == |s.log| && s.ring.writeIndex == s.writer.currentIndex
      && PastNewest(s.ring.seqs, |s.log|, s.writer.currentIndex)
  }

  lemma CompletedPublishIsFresh(s: State)
    requires Backed(s) && WriterCan(s, StoreWatermark)
    ensures HeaderFresh(WriterStep(s, StoreWatermark))
  {
    forall j: nat | j < |s.ring.seqs| && Abs(s.ring.seqs[j]) == |s.log|
      ensures j == s.writer.pc.index
    {
      assert Differ(s.ring.seqs, s.writer.pc.index, j);
    }
  }

  lemma HeaderFreshSafe(s: State, e: Event)
    requires HeaderFresh(s)
    ensures SafeClaim(s, e)
  {}

  lemma HeaderFreshStep(s: State, e: Event)
    requires Backed(s) && HeaderFresh(s) && Can(s, e) && IssuesNext(s, e) && !e.Crash?
    ensures HeaderFresh(Step(s, e))
  {
    if e.StoreWatermark? {
      CompletedPublishIsFresh(s);
    } else if !WriterEvent(e) {
      ReaderStepFlipsSigns(s, e);
    }
  }

  lemma {:induction false} HeaderFreshRun(run: Run, a: nat, b: nat)
    requires NoReuseRun(run) && a <= b < |run.states| && HeaderFresh(run.states[a])
    requires forall k :: a <= k < b ==> !run.events[k].Crash?
    ensures HeaderFresh(run.states[b])
    decreases b - a
  {
    if a < b {
      HeaderFreshRun(run, a, b - 1);
      RunBacked(run, b - 1);
      assert IsStep(run, b - 1);
      HeaderFreshStep(run.states[b - 1], run.events[b - 1]);
    }
  }

  /**
   * What recovery computes if the writer dies in this state. The number is exact at every crash
   * point; the index is the writer's own next one, except after an interrupted commit that had
   * skipped a held slot, where it is so exactly when the skip led all the way round.
   */
  ghost predicate RecoveryExact(s: State) {
    && 0 < |s.ring.seqs|
    && MaxMagnitude(s.ring.seqs, s.ring.watermark, |s.ring.seqs|) == |s.log|
    && var resumed := ResumeIndex(s.ring.seqs, s.ring.writeIndex, |s.log|);
       (resumed == s.writer.currentIndex <==>
          (s.writer.pc.Committed? ==>
             s.ring.writeIndex == s.writer.pc.index || s.ring.writeIndex == s.writer.currentIndex))
  }

  lemma FreshRecoveryExact(s: State)
    requires Backed(s) && HeaderFresh(s)
    ensures RecoveryExact(s)
  {
    RecoveredNumberExact(s.ring, s.log, s.ring.watermark);
    SmallModulo(s.ring.writeIndex, |s.ring.seqs|);
    if s.writer.pc.Committed? || s.writer.pc.Indexed? {
      assert Differ(s.ring.seqs, s.writer.pc.index, s.ring.writeIndex);
      assert Abs(s.ring.seqs[s.writer.pc.index]) == |s.log|;
    }
  }

  /** The writer's next index is the slot after the newest entry. */
  lemma FreshPastNewest(s: State)
    requires Backed(s) && HeaderFresh(s)
    ensures PastNewest(s.ring.seqs, |s.log|, s.writer.currentIndex)
  {
    if s.writer.pc.Committed? || s.writer.pc.Indexed? {
      forall j: nat | j < |s.ring.seqs| && Abs(s.ring.seqs[j]) == |s.log|
        ensures j == s.writer.pc.index
      {
        assert Differ(s.ring.seqs, s.writer.pc.index, j);
      }
    }
  }

  /** Single-crash recovery: from an up-to-date header, through any interleaving, at every crash point. */
  lemma SingleCrashRecovery(run: Run, a: nat, b: nat)
    requires NoReuseRun(run) && a <= b < |run.states| && HeaderFresh(run.states[a])
    requires forall k :: a <= k < b ==> !run.events[k].Crash?
    ensures RecoveryExact(run.states[b])
    ensures PastNewest(run.states[b].ring.seqs, |run.states[b].log|, run.states[b].writer.currentIndex)
  {
    HeaderFreshRun(run, a, b);
    RunBacked(run, b);
    FreshPastNewest(run.states[b]);
    FreshRecoveryExact(run.states[b]);
  }

  // ── Skipped slots ───────────────────────────────────────────────────────────

  /** This load of `claim_slot` finds slot i held. */
  ghost predicate LoadsHeld(s: State, e: Event, i: nat) {
    && e.ProbeSlot? && s.writer.pc.Probing? && s.writer.currentIndex < |s.ring.seqs| && s.writer.pc.k < |s.ring.seqs|
    && i == Wrap(s.writer.currentIndex, s.writer.pc.k, |s.ring.seqs|) && s.ring.seqs[i] < 0
  }

  /** The claim that state k is in, or that it has committed, found slot i held. */
  ghost predicate FoundHeld(run: Run, k: nat, i: nat)
    requires |run.states| == |run.events| + 1 && k < |run.states|
  {
    exists m :: 0 <= m < k && LoadsHeld(run.states[m], run.events[m], i)
                && forall j :: m < j < k ==> !run.events[j].BeginClaim?
  }

  /** That claim, begun at `start`, found the first d slots held. */
  ghost predicate Skipped(run: Run, k: nat, start: nat, d: nat)
    requires |run.states| == |run.events| + 1 && k < |run.states|
    requires start < |run.states[k].ring.seqs| && d <= |run.states[k].ring.seqs|
  {
    forall e: nat :: e < d ==> FoundHeld(run, k, Wrap(start, e, |run.states[k].ring.seqs|))
  }

  ghost predicate SkippedTo(run: Run, k: nat, start: nat, i: nat)
    requires |run.states| == |run.events| + 1 && k < |run.states|
  {
    && start < |run.states[k].ring.seqs|
    && exists d: nat :: d < |run.states[k].ring.seqs| && i == Wrap(start, d, |run.states[k].ring.seqs|)
                        && Skipped(run, k, start, d)
  }

  lemma FoundHeldStays(run: Run, k: nat, i: nat)
    requires |run.states| == |run.events| + 1 && 0 < k < |run.states| && !run.events[k - 1].BeginClaim?
    requires FoundHeld(run, k - 1, i)
    ensures FoundHeld(run, k, i)
  {
    var m :| 0 <= m < k - 1 && LoadsHeld(run.states[m], run.events[m], i)
             && forall j :: m < j < k - 1 ==> !run.events[j].BeginClaim?;
  }

  lemma SkippedStays(run: Run, k: nat, start: nat, d: nat)
    requires |run.states| == |run.events| + 1 && 0 < k < |run.states| && !run.events[k - 1].BeginClaim?
    requires |run.states[k].ring.seqs| == |run.states[k - 1].ring.seqs|
    requires start < |run.states[k].ring.seqs| && d <= |run.states[k].ring.seqs| && Skipped(run, k - 1, start, d)
    ensures Skipped(run, k, start, d)
  {
    forall e: nat | e < d
      ensures FoundHeld(run, k, Wrap(start, e, |run.states[k].ring.seqs|))
    {
      FoundHeldStays(run, k, Wrap(start, e, |run.states[k].ring.seqs|));
    }
  }

  lemma SkippedToStays(run: Run, k: nat, start: nat, i: nat)
    requires |run.states| == |run.events| + 1 && 0 < k < |run.states| && !run.events[k - 1].BeginClaim?
    requires |run.states[k].ring.seqs| == |run.states[k - 1].ring.seqs| && SkippedTo(run, k - 1, start, i)
    ensures SkippedTo(run, k, start, i)
  {
    var n := |run.states[k].ring.seqs|;
    var d: nat :| d < n && i == Wrap(start, d, n) && Skipped(run, k - 1, start, d);
    SkippedStays(run, k, start, d);
  }

  /** A claim in progress has found every slot between its start and where it stands held. */
  ghost predicate ClaimPath(run: Run, k: nat)
    requires |run.states| == |run.events| + 1 && k < |run.states|
  {
    var w, n := run.states[k].writer, |run.states[k].ring.seqs|;
    match w.pc
    case Probing(j) => w.currentIndex < n && j < n && Skipped(run, k, w.currentIndex, j)
    case Loaded(i) => SkippedTo(run, k, w.currentIndex, i)
    case Filling(i) => SkippedTo(run, k, w.currentIndex, i)
    case _ => true
  }

  /** The claim goes one load further. */
  lemma ProbePath(run: Run, k: nat)
    requires IsRun(run) && 0 < k < |run.states| && run.events[k - 1].ProbeSlot? && ClaimPath(run, k - 1)
    ensures ClaimPath(run, k)
  {
    assert IsStep(run, k - 1);
    var s, n := run.states[k - 1], |run.states[k - 1].ring.seqs|;
    var j, start := s.writer.pc.k, s.writer.currentIndex;
    SkippedStays(run, k, start, j);
    if s.ring.seqs[Wrap(start, j, n)] < 0 {
      assert LoadsHeld(s, run.events[k - 1], Wrap(start, j, n));
      assert FoundHeld(run, k, Wrap(start, j, n));
      assert Skipped(run, k, start, j + 1);
    }
  }

  /** A claim has just begun, or stands where it stood. */
  ghost predicate ClaimStands(was: Writer, now: Writer, e: Event) {
    && (now.pc.Probing? ==> now == was || now.pc.k == 0)
    && (now.pc.Loaded? ==> now == was)
    && (now.pc.Filling? ==>
          (was.pc.Loaded? || was.pc.Filling?) && now.pc.index == was.pc.index && now.currentIndex == was.currentIndex)
    && (e.BeginClaim? ==> now.pc.Probing? && now.pc.k == 0)
  }

  /** No step but a load of `claim_slot` moves a claim on. */
  lemma ClaimFrame(s: State, e: Event)
    requires Can(s, e) && !e.ProbeSlot?
    ensures ClaimStands(s.writer, Step(s, e).writer, e)
  {
    assert !WriterEvent(e) ==> Step(s, e).writer == s.writer;
  }

  lemma {:induction false} RunClaimPath(run: Run, k: nat)
    requires IsRun(run) && k < |run.states|
    ensures ClaimPath(run, k)
  {
    RunShape(run, k);
    if k > 0 {
      RunClaimPath(run, k - 1);
      RunShape(run, k - 1);
      assert IsStep(run, k - 1);
      if run.events[k - 1].ProbeSlot? {
        ProbePath(run, k);
      } else {
        ClaimFrame(run.states[k - 1], run.events[k - 1]);
        OtherPath(run, k);
      }
    }
  }

  lemma OtherPath(run: Run, k: nat)
    requires |run.states| == |run.events| + 1 && 0 < k < |run.states| && ClaimPath(run, k - 1)
    requires SameSize(run.states[k - 1].ring, run.states[k].ring)
    requires WriterShape(run.states[k].writer, run.states[k].ring)
    requires ClaimStands(run.states[k - 1].writer, run.states[k].writer, run.events[k - 1])
    ensures ClaimPath(run, k)
  {
    var w := run.states[k].writer;
    if w.pc.Probing? && w.pc.k > 0 {
      SkippedStays(run, k, w.currentIndex, w.pc.k);
    } else if w.pc.Loaded? || w.pc.Filling? {
      SkippedToStays(run, k, w.currentIndex, w.pc.index);
    }
  }

  /** Between slot store and index store the header index is where the claim began. */
  lemma {:induction false} CommitPath(run: Run, a: nat, b: nat)
    requires NoReuseRun(run) && a <= b < |run.states| && HeaderFresh(run.states[a])
    requires !run.states[a].writer.pc.Committed? && run.states[b].writer.pc.Committed?
    requires forall k :: a <= k < b ==> !run.events[k].Crash?
    ensures SkippedTo(run, b, run.states[b].ring.writeIndex, run.states[b].writer.pc.index)
    decreases b - a
  {
    assert IsStep(run, b - 1);
    var s := run.states[b - 1];
    StaysCommitted(s, run.events[b - 1]);
    if s.writer.pc.Filling? {
      HeaderFreshRun(run, a, b - 1);
      RunClaimPath(run, b - 1);
    } else {
      CommitPath(run, a, b - 1);
    }
    SkippedToStays(run, b, s.ring.writeIndex, s.writer.pc.index);
  }

  /** A commit comes from its claim, and nothing moves the header index before the writer does. */
  lemma StaysCommitted(s: State, e: Event)
    requires Can(s, e) && Step(s, e).writer.pc.Committed?
    ensures !e.BeginClaim? && (s.writer.pc.Filling? || s.writer.pc.Committed?)
    ensures s.writer.pc.index == Step(s, e).writer.pc.index && s.ring.writeIndex == Step(s, e).ring.writeIndex
    ensures |s.ring.seqs| == |Step(s, e).ring.seqs|
  {}

  /**
   * The interrupted commit in terms of what it skipped: it had found d slots held, from the header index
   * on, and recovery resumes where the writer would have gone on iff d is none or all but one.
   */
  lemma SkipExact(run: Run, a: nat, b: nat) returns (d: nat)
    requires NoReuseRun(run) && a <= b < |run.states| && HeaderFresh(run.states[a])
    requires !run.states[a].writer.pc.Committed? && run.states[b].writer.pc.Committed?
    requires forall k :: a <= k < b ==> !run.events[k].Crash?
    ensures var s, n := run.states[b], |run.states[b].ring.seqs|;
            && d < n && s.ring.writeIndex < n && s.writer.pc.index == Wrap(s.ring.writeIndex, d, n)
            && Skipped(run, b, s.ring.writeIndex, d)
            && (ResumeIndex(s.ring.seqs, s.ring.writeIndex, |s.log|) == s.writer.currentIndex <==>
                d == 0 || d == n - 1)
  {
    CommitPath(run, a, b);
    SingleCrashRecovery(run, a, b);
    RunBacked(run, b);
    var s, n := run.states[b], |run.states[b].ring.seqs|;
    d :| d < n && s.writer.pc.index == Wrap(s.ring.writeIndex, d, n) && Skipped(run, b, s.ring.writeIndex, d);
  }

  // ── No crash inside a publish ───────────────────────────────────────────────

  /** Fresh, or down or recovering with a header that tells the whole story. */
  ghost predicate Settled(s: State) {
    || HeaderFresh(s)
    || (&& (s.writer.pc.Down? || (s.writer.pc.Recovering? && s.writer.pc.headerIndex == s.ring.writeIndex))
        && s.ring.watermark == |s.log| && PastNewest(s.ring.seqs, |s.log|, s.ring.writeIndex))
  }

  /** The writer does not die between the slot store and the watermark store of `publish`. */
  ghost predicate NotInsidePublish(s: State, e: Event) {
    e.Crash? ==> !s.writer.pc.Committed? && !s.writer.pc.Indexed?
  }

  /** Runs that only crash outside of a publish, with any number of pins and any ring size. */
  ghost predicate SettledRun(run: Run) {
    && IsRun(run)
    && forall k :: 0 <= k < |run.events| ==>
         && HeaderCurrent(run.states[k], run.events[k]) && OutsideClaimWindow(run.states[k], run.events[k])
         && NotInsidePublish(run.states[k], run.events[k])
  }

  lemma SettledStep(s: State, e: Event)
    requires Inv(s) && Settled(s) && Can(s, e)
    requires HeaderCurrent(s, e) && OutsideClaimWindow(s, e) && NotInsidePublish(s, e)
    ensures Disciplined(s, e) && Informed(s, e) && Settled(Step(s, e))
  {
    if HeaderFresh(s) && !e.Crash? {
      HeaderFreshStep(s, e);
    } else if e.RecoverLoad? {
      SmallModulo(s.ring.writeIndex, |s.ring.seqs|);
    } else if !WriterEvent(e) {
      ReaderStepFlipsSigns(s, e);
    }
  }

  lemma {:induction false} SettledRunInv(run: Run, k: nat)
    requires SettledRun(run) && k < |run.states|
    ensures Inv(run.states[k]) && Settled(run.states[k])
  {
    if k == 0 {
      FreshInv(run.states[0]);
    } else {
      SettledRunInv(run, k - 1);
      assert IsStep(run, k - 1);
      SettledStep(run.states[k - 1], run.events[k - 1]);
      StepKeepsInv(run.states[k - 1], run.events[k - 1]);
    }
  }

  /** Such runs endanger no number, whatever is pinned. */
  lemma SettledRunDisciplined(run: Run)
    requires SettledRun(run)
    ensures DisciplinedRun(run)
  {
    forall k | 0 <= k < |run.events|
      ensures Disciplined(run.states[k], run.events[k])
    {
      SettledRunInv(run, k);
      assert IsStep(run, k);
      SettledStep(run.states[k], run.events[k]);
    }
  }
}
