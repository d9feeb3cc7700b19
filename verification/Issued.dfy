/**
 * In every run, window races and reused numbers included, each number anybody sees was stored by an
 * earlier publish.
 */
module Issues {
  import opened Words
  import opened Rings
  import opened Protocol
  import opened Shapes

  /** The numbers stored in slots before state k. */
  ghost function Issued(run: Run, k: nat): set<nat>
    requires |run.states| == |run.events| + 1 && k < |run.states|
  {
    if k == 0 then {} else Issued(run, k - 1) + NewlyIssued(run.states[k - 1], run.events[k - 1])
  }

  function NewlyIssued(s: State, e: Event): set<nat> {
    if e.StoreSlot? then {s.writer.lastSeq + 1} else {}
  }

  /** Event m stores number s in a slot. */
  predicate StoresNumber(run: Run, m: nat, s: nat)
    requires m < |run.events| < |run.states|
  {
    run.events[m].StoreSlot? && run.states[m].writer.lastSeq + 1 == s
  }

  lemma {:induction false} StoreOf(run: Run, k: nat, s: nat) returns (m: nat)
    requires |run.states| == |run.events| + 1 && k < |run.states| && s in Issued(run, k)
    ensures m < k && StoresNumber(run, m, s)
  {
    if s in Issued(run, k - 1) {
      m := StoreOf(run, k - 1, s);
    } else {
      m := k - 1;
    }
  }

  // ── The invariant ───────────────────────────────────────────────────────────

  ghost predicate GenuineWords(seqs: seq<int>, issued: set<nat>) {
    forall i :: 0 <= i < |seqs| && seqs[i] != 0 ==> Abs(seqs[i]) in issued
  }

  ghost predicate GenuineHandles(handles: map<nat, nat>, strays: multiset<Found>, issued: set<nat>) {
    && (forall i :: i in handles ==> handles[i] in issued)
    && (forall at :: at in strays ==> at.entrySeq in issued)
  }

  ghost predicate GenuineReader(rd: Reader, issued: set<nat>) {
    && (forall d :: 0 <= d < |rd.deliveries| ==> rd.deliveries[d].entrySeq in issued)
    && (rd.pc.Scan? && rd.pc.best.Some? ==> rd.pc.best.value.entrySeq in issued)
    && (rd.pc.Located? ==> rd.pc.at.entrySeq in issued)
  }

  ghost predicate Genuine(s: State, issued: set<nat>) {
    && GenuineWords(s.ring.seqs, issued) && GenuineHandles(s.handles, s.strays, issued)
    && forall r :: r in s.readers ==> GenuineReader(s.readers[r], issued)
  }

  // ── Preservation ────────────────────────────────────────────────────────────

  lemma WriterStepGenuine(s: State, e: Event, issued: set<nat>)
    requires GenuineWords(s.ring.seqs, issued) && GenuineHandles(s.handles, s.strays, issued) && WriterCan(s, e)
    ensures var now := issued + NewlyIssued(s, e);
            && GenuineWords(WriterStep(s, e).ring.seqs, now)
            && GenuineHandles(WriterStep(s, e).handles, WriterStep(s, e).strays, now)
  {
    if !e.ZeroSlot? && !e.StoreSlot? {
      WriterFrame(s, e);
    }
  }

  lemma ReaderStepGenuine(s: State, e: Event, issued: set<nat>)
    requires Genuine(s, issued) && ReaderCan(s, e)
    requires e.Swap? ==> 0 < s.readers[e.r].pc.at.entrySeq <= I64_MAX
    ensures GenuineWords(ReaderStep(s, e).ring.seqs, issued)
    ensures GenuineHandles(ReaderStep(s, e).handles, ReaderStep(s, e).strays, issued)
  {
    if e.Swap? {
      assert GenuineReader(s.readers[e.r], issued);
      SignRoundTrip(s.readers[e.r].pc.at.entrySeq);
    }
  }

  lemma OwnStepGenuine(s: State, e: Event, issued: set<nat>)
    requires GenuineWords(s.ring.seqs, issued) && Can(s, e) && CallEvent(e) && GenuineReader(s.readers[e.r], issued)
    ensures e.r in Step(s, e).readers && GenuineReader(Step(s, e).readers[e.r], issued)
  {}

  lemma StepGenuine(s: State, e: Event, issued: set<nat>)
    requires Shape(s) && Genuine(s, issued) && Can(s, e)
    ensures Genuine(Step(s, e), issued + NewlyIssued(s, e))
  {
    if WriterEvent(e) {
      WriterStepGenuine(s, e, issued);
    } else {
      ReaderStepGenuine(s, e, issued);
    }
    forall r | r in Step(s, e).readers
      ensures GenuineReader(Step(s, e).readers[r], issued)
    {
      ReadersGenuine(s, e, r, issued);
    }
  }

  lemma ReadersGenuine(s: State, e: Event, r: nat, issued: set<nat>)
    requires Genuine(s, issued) && Can(s, e) && r in Step(s, e).readers
    ensures GenuineReader(Step(s, e).readers[r], issued)
  {
    if r in s.readers && CallEvent(e) && e.r == r {
      OwnStepGenuine(s, e, issued);
    } else {
      ReaderFrame(s, e, r);
    }
  }

  lemma {:induction false} RunGenuine(run: Run, k: nat)
    requires IsRun(run) && k < |run.states|
    ensures Genuine(run.states[k], Issued(run, k))
  {
    if k > 0 {
      RunGenuine(run, k - 1);
      RunShape(run, k - 1);
      assert IsStep(run, k - 1);
      StepGenuine(run.states[k - 1], run.events[k - 1], Issued(run, k - 1));
    }
  }
}
