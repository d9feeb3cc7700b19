/** Whole calls, first step to last: what a call returns when nobody disturbs it, and why it returns nothing. */
module Calls {
  import opened Words
  import opened Rings
  import opened Protocol
  import opened Shapes
  import opened Reads

  // ── What a call starts with ─────────────────────────────────────────────────

  /** The watermark a call asks for: the override, or else the number last returned. */
  function Asked(rd: Reader, from: Option<nat>): nat {
    if from.Some? then from.value else Bookmark(rd.deliveries)
  }

  /**
   * A call is over at once iff the header advertises nothing newer, and then it touches nothing.
   * Otherwise it sets out with all its tries and with the caller's watermark, mode and buffer.
   */
  lemma CallStarts(run: Run, r: nat, a: nat)
    requires IsRun(run) && a < |run.events| && run.events[a].StartRead? && run.events[a].r == r
    ensures r in run.states[a].readers && r in run.states[a + 1].readers
    ensures var before, after, e := run.states[a].readers[r], run.states[a + 1].readers[r], run.events[a];
            && (after.pc.Resting? <==> run.states[a].ring.watermark <= Asked(before, e.from))
            && (!after.pc.Resting? ==> after.pc == Probe(Call(e.mode, Asked(before, e.from), e.from.Some?), 4))
            && after.dst == e.dst && after.deliveries == before.deliveries
  {
    assert IsStep(run, a);
    RunShape(run, a);
    assert ReaderShape(run.states[a].readers[r], |run.states[a].ring.seqs|, run.states[a].ring.payloadBytes);
  }

  // ── An undisturbed locate ───────────────────────────────────────────────────

  /** How far a call has got on words that stay the same: what it stands at is the answer so far. */
  ghost predicate Answered(pc: ReaderPc, watermark: nat, seqs: seq<int>) {
    match pc
    case Probe(call, _) => call.watermark == watermark
    case Scan(call, _, idx, best) =>
      call.watermark == watermark && idx <= |seqs| && IsOldestNewer(seqs[..idx], watermark, best)
    case Located(call, _, at, _) => call.watermark == watermark && IsOldestNewer(seqs, watermark, Some(at))
    case Resting => IsOldestNewer(seqs, watermark, None)
  }

  lemma ConsiderKeepsOldest(seqs: seq<int>, watermark: nat, idx: nat, best: Option<Found>)
    requires idx < |seqs| && IsOldestNewer(seqs[..idx], watermark, best)
    ensures IsOldestNewer(seqs[..idx + 1], watermark, Consider(best, watermark, idx, seqs[idx]))
  {
    var before, after := seqs[..idx], seqs[..idx + 1];
    assert forall j :: 0 <= j < idx ==> after[j] == before[j];
    assert after[idx] == seqs[idx];
  }

  lemma LoadAnswers(rd: Reader, ring: Ring, watermark: nat)
    requires RingShape(ring) && ReaderShape(rd, |ring.seqs|, ring.payloadBytes)
    requires !rd.pc.Resting? && Answered(rd.pc, watermark, ring.seqs)
    ensures rd.pc.Probe? ==> Answered(AfterLoadProbe(rd, ring.seqs).pc, watermark, ring.seqs)
    ensures rd.pc.Scan? ==> Answered(AfterLoadScan(rd, ring.seqs).pc, watermark, ring.seqs)
  {
    var seqs := ring.seqs;
    if rd.pc.Probe? {
      var next := Wrap(rd.lastIdx, 1, |seqs|);
      assert Abs(seqs[next]) <= I64_MAX;
      assert seqs[..0] == [];
    } else if rd.pc.Scan? && rd.pc.idx < |seqs| {
      ConsiderKeepsOldest(seqs, watermark, rd.pc.idx, rd.pc.best);
    } else {
      assert seqs[..|seqs|] == seqs;
    }
  }

  /** The step with which a call checks what it has located, and ends or goes round again. */
  predicate IsFinal(e: Event, r: nat) {
    e == Recheck(r) || e == Swap(r)
  }

  /** What one step of the machine makes of a reader that is in mid-call and not checking. */
  lemma MidCallStep(s: State, e: Event, r: nat)
    requires Can(s, e) && r in s.readers && !s.readers[r].pc.Resting? && !IsFinal(e, r) && r in Step(s, e).readers
    ensures var before, after := s.readers[r], Step(s, e).readers[r];
            if e == LoadProbe(r) then ReaderCan(s, e) && after == AfterLoadProbe(before, s.ring.seqs)
            else if e == LoadScan(r) then ReaderCan(s, e) && after == AfterLoadScan(before, s.ring.seqs)
            else if IsCopy(e, r) then
              && before.pc.Located?
              && after == before.(dst := after.dst, pc := before.pc.(copied := before.pc.copied + {e.j}))
            else after == before
  {
    if !OwnStep(e, r) && !IsCopy(e, r) {
      ReaderFrame(s, e, r);
    }
  }

  lemma AnswerStep(s: State, e: Event, r: nat, watermark: nat)
    requires Shape(s) && Can(s, e) && r in s.readers && !s.readers[r].pc.Resting? && !IsFinal(e, r)
    requires Answered(s.readers[r].pc, watermark, s.ring.seqs) && r in Step(s, e).readers
    ensures Answered(Step(s, e).readers[r].pc, watermark, s.ring.seqs)
  {
    MidCallStep(s, e, r);
    LoadAnswers(s.readers[r], s.ring, watermark);
  }

  lemma LocateStep(s: State, e: Event, r: nat, watermark: nat)
    requires Shape(s) && Can(s, e) && r in s.readers && (s.readers[r].pc.Probe? || s.readers[r].pc.Scan?)
    requires Answered(s.readers[r].pc, watermark, s.ring.seqs) && r in Step(s, e).readers
    ensures Answered(Step(s, e).readers[r].pc, watermark, s.ring.seqs)
  {
    AnswerStep(s, e, r, watermark);
  }

  /** The words are the same in every state from a to b. */
  ghost predicate WordsStay(run: Run, a: nat, b: nat)
    requires a <= b < |run.states|
  {
    forall k :: a <= k <= b ==> run.states[k].ring.seqs == run.states[a].ring.seqs
  }

  /**
   * A `locate` during which no word changes ends, probe or scan, at the oldest newer entry, slot
   * included, or with nothing when there is none.
   */
  lemma {:induction false} LocateExact(run: Run, r: nat, a: nat, b: nat)
    requires IsRun(run) && a <= b < |run.states| && OneLocate(run, r, a, b) && r in run.states[b].readers
    requires a < b ==> WordsStay(run, a, b - 1)
    ensures Answered(run.states[b].readers[r].pc, run.states[a].readers[r].pc.call.watermark, run.states[a].ring.seqs)
    decreases b - a
  {
    if a < b {
      LocateExact(run, r, a, b - 1);
      assert IsStep(run, b - 1);
      RunShape(run, b - 1);
      LocateStep(run.states[b - 1], run.events[b - 1], r, run.states[a].readers[r].pc.call.watermark);
    }
  }

  // ── The final check ─────────────────────────────────────────────────────────

  /** The reader after the check of the entry it stands at, `shown` being the word in the slot. */
  ghost predicate Checked(before: Reader, after: Reader, shown: int, payload: seq<byte>)
    requires before.pc.Located?
  {
    var at, call := before.pc.at, before.pc.call;
    if shown == at.entrySeq then
      && after.pc.Resting? && after.lastSeq == at.entrySeq && after.lastIdx == at.index && after.dst == before.dst
      && after.deliveries == before.deliveries + [Delivery(at.entrySeq, call.watermark, call.overridden, payload)]
    else
      && after == before.(pc := after.pc)
      && after.pc == if before.pc.tries <= 1 then Resting else Probe(call, before.pc.tries - 1)
  }

  /**
   * A call hands out what it has located, once, iff the slot still shows it; otherwise it is back to
   * where it started with one try less, or has used up the last one.
   */
  lemma CheckExact(run: Run, k: nat, r: nat)
    requires IsRun(run) && k < |run.events| && IsFinal(run.events[k], r)
    ensures r in run.states[k].readers && r in run.states[k + 1].readers && run.states[k].readers[r].pc.Located?
    ensures var s, rd := run.states[k], run.states[k].readers[r];
            && rd.pc.at.index < |s.ring.seqs| == |s.ring.payloads|
            && Checked(rd, run.states[k + 1].readers[r], s.ring.seqs[rd.pc.at.index],
                       if rd.pc.call.mode.OneCopy? then rd.dst else s.ring.payloads[rd.pc.at.index])
  {
    assert IsStep(run, k);
    RunShape(run, k);
    var rd := run.states[k].readers[r];
    assert ReaderShape(rd, |run.states[k].ring.seqs|, run.states[k].ring.payloadBytes);
    SignRoundTrip(rd.pc.at.entrySeq);
  }

  // ── An undisturbed call ─────────────────────────────────────────────────────

  /** While a call goes on, its terms and everything returned before stay as they are. */
  lemma CallFrame(s: State, e: Event, r: nat)
    requires Can(s, e) && r in s.readers && !s.readers[r].pc.Resting? && r in Step(s, e).readers && !IsFinal(e, r)
    ensures var before, after := s.readers[r], Step(s, e).readers[r];
            && after.deliveries == before.deliveries
            && (!after.pc.Resting? ==> after.pc.call == before.pc.call && after.pc.tries == before.pc.tries)
            && (after.pc.Resting? ==>
                  e == LoadScan(r) && before.pc.Scan? && before.pc.idx == |s.ring.seqs| && before.pc.best.None?)
  {
    MidCallStep(s, e, r);
  }

  /** A call that goes on although its slot still shows what it located has not checked yet. */
  lemma NotCheckedYet(s: State, e: Event, r: nat)
    requires Shape(s) && Can(s, e) && r in s.readers && r in Step(s, e).readers && !Step(s, e).readers[r].pc.Resting?
    requires s.readers[r].pc.Located? ==>
               var at := s.readers[r].pc.at; at.index < |s.ring.seqs| && s.ring.seqs[at.index] == at.entrySeq
    ensures !IsFinal(e, r)
  {
    assert ReaderShape(s.readers[r], |s.ring.seqs|, s.ring.payloadBytes);
  }

  lemma {:induction false} CallTerms(run: Run, r: nat, a: nat, b: nat)
    requires IsRun(run) && a < b < |run.states| && InCall(run, r, a, b)
    ensures r in run.states[a].readers
    ensures var before, rd, from := run.states[a].readers[r], run.states[b].readers[r], run.events[a].from;
            && rd.deliveries == before.deliveries
            && rd.pc.call == Call(run.events[a].mode, Asked(before, from), from.Some?)
    decreases b - a
  {
    if a + 1 == b {
      CallStarts(run, r, a);
    } else {
      CallTerms(run, r, a, b - 1);
      assert IsStep(run, b - 1);
      if IsFinal(run.events[b - 1], r) {
        CheckExact(run, b - 1, r);
      } else {
        CallFrame(run.states[b - 1], run.events[b - 1], r);
      }
    }
  }

  lemma {:induction false} UndisturbedSoFar(run: Run, r: nat, a: nat, b: nat)
    requires IsRun(run) && a < b < |run.states| && InCall(run, r, a, b) && WordsStay(run, a, b)
    ensures Answered(run.states[b].readers[r].pc, run.states[b].readers[r].pc.call.watermark, run.states[a].ring.seqs)
    decreases b - a
  {
    if a + 1 == b {
      CallStarts(run, r, a);
    } else {
      UndisturbedSoFar(run, r, a, b - 1);
      CallTerms(run, r, a, b - 1);
      CallTerms(run, r, a, b);
      assert IsStep(run, b - 1);
      RunShape(run, b - 1);
      NotCheckedYet(run.states[b - 1], run.events[b - 1], r);
      AnswerStep(run.states[b - 1], run.events[b - 1], r, run.states[b].readers[r].pc.call.watermark);
    }
  }

  /**
   * A call during which no word changes, by copy or in place, returns exactly the oldest entry newer
   * than asked for and remembers its slot, or nothing when there is none.
   */
  lemma UndisturbedCall(run: Run, r: nat, a: nat, b: nat) returns (found: Option<Found>)
    requires IsRun(run) && a < b < |run.events| && InCall(run, r, a, b) && WordsStay(run, a, b)
    requires r in run.states[b + 1].readers && run.states[b + 1].readers[r].pc.Resting?
    ensures r in run.states[a].readers
    ensures var before, after := run.states[a].readers[r], run.states[b + 1].readers[r];
            var watermark := Asked(before, run.events[a].from);
            && IsOldestNewer(run.states[a].ring.seqs, watermark, found)
            && (found.None? ==> after.deliveries == before.deliveries)
            && (found.Some? ==>
                  && |after.deliveries| == |before.deliveries| + 1 && before.deliveries <= after.deliveries
                  && after.deliveries[|before.deliveries|].entrySeq == after.lastSeq == found.value.entrySeq
                  && after.deliveries[|before.deliveries|].watermark == watermark
                  && after.lastIdx == found.value.index)
  {
    CallTerms(run, r, a, b);
    UndisturbedSoFar(run, r, a, b);
    RunShape(run, b);
    assert IsStep(run, b);
    var s, e := run.states[b], run.events[b];
    if IsFinal(e, r) {
      CheckExact(run, b, r);
      found := Some(s.readers[r].pc.at);
    } else {
      AnswerStep(s, e, r, s.readers[r].pc.call.watermark);
      CallFrame(s, e, r);
      found := None;
    }
  }

  // ── Why a call returns nothing ──────────────────────────────────────────────

  /** How many of the events from a up to b are checks of reader r's call. */
  function Checks(run: Run, r: nat, a: nat, b: nat): nat
    requires a <= b <= |run.events|
    decreases b - a
  {
    if a == b then 0 else Checks(run, r, a, b - 1) + if IsFinal(run.events[b - 1], r) then 1 else 0
  }

  lemma {:induction false} TriesCountChecks(run: Run, r: nat, a: nat, b: nat)
    requires IsRun(run) && a < b < |run.states| && InCall(run, r, a, b)
    ensures run.states[b].readers[r].pc.tries + Checks(run, r, a + 1, b) == READ_RETRIES
    decreases b - a
  {
    if a + 1 == b {
      CallStarts(run, r, a);
    } else {
      TriesCountChecks(run, r, a, b - 1);
      assert IsStep(run, b - 1);
      if IsFinal(run.events[b - 1], r) {
        CheckExact(run, b - 1, r);
      } else {
        CallFrame(run.states[b - 1], run.events[b - 1], r);
      }
    }
  }

  /**
   * A call that returns nothing has either scanned the whole ring without a hit, or checked and lost
   * what it had located READ_RETRIES times. It never gives up sooner.
   */
  lemma GivesUpExact(run: Run, r: nat, a: nat, b: nat)
    requires IsRun(run) && a < b < |run.events| && InCall(run, r, a, b)
    requires r in run.states[b + 1].readers && run.states[b + 1].readers[r].pc.Resting?
    requires run.states[b + 1].readers[r].deliveries == run.states[b].readers[r].deliveries
    ensures var pc := run.states[b].readers[r].pc;
            if Checks(run, r, a + 1, b + 1) == READ_RETRIES then IsFinal(run.events[b], r)
            else pc.Scan? && pc.idx == |run.states[b].ring.seqs| && pc.best.None?
    ensures forall k :: a < k <= b && IsFinal(run.events[k], r) ==> LostAt(run, k, r)
  {
    TriesCountChecks(run, r, a, b);
    RunShape(run, b);
    assert ReaderShape(run.states[b].readers[r], |run.states[b].ring.seqs|, run.states[b].ring.payloadBytes);
    assert IsStep(run, b);
    if IsFinal(run.events[b], r) {
      CheckExact(run, b, r);
    } else {
      CallFrame(run.states[b], run.events[b], r);
    }
    forall k | a < k <= b && IsFinal(run.events[k], r)
      ensures LostAt(run, k, r)
    {
      CheckExact(run, k, r);
    }
  }

  /** In state k the slot reader r stands at shows something else than what it located there. */
  ghost predicate LostAt(run: Run, k: nat, r: nat)
    requires k < |run.states|
  {
    && r in run.states[k].readers && run.states[k].readers[r].pc.Located?
    && var at := run.states[k].readers[r].pc.at;
       at.index < |run.states[k].ring.seqs| && run.states[k].ring.seqs[at.index] != at.entrySeq
  }

  // ── What a writer commits ───────────────────────────────────────────────────

  /** The byte last stored at position j by the events from a up to k, `initial` if there is none. */
  function LastFilled(run: Run, a: nat, k: nat, j: nat, initial: byte): byte
    requires a <= k <= |run.events|
    decreases k - a
  {
    if a == k then initial
    else if run.events[k - 1].FillByte? && run.events[k - 1].j == j then run.events[k - 1].b
    else LastFilled(run, a, k - 1, j, initial)
  }

  ghost predicate FillingAll(run: Run, a: nat, k: nat, i: nat)
    requires a <= k < |run.states|
  {
    forall m :: a <= m <= k ==> run.states[m].writer.pc == Filling(i)
  }

  lemma FillStep(s: State, e: Event, i: nat, j: nat)
    requires Can(s, e) && s.writer.pc == Filling(i) && Step(s, e).writer.pc == Filling(i)
    requires i < |s.ring.payloads| && j < |s.ring.payloads[i]|
    ensures |Step(s, e).ring.payloads| == |s.ring.payloads|
    ensures |Step(s, e).ring.payloads[i]| == |s.ring.payloads[i]|
    ensures Step(s, e).ring.payloads[i][j] == if e.FillByte? && e.j == j then e.b else s.ring.payloads[i][j]
  {
    assert !WriterEvent(e) ==> Step(s, e).ring.payloads == s.ring.payloads;
  }

  lemma {:induction false} FilledSoFar(run: Run, a: nat, k: nat, i: nat, j: nat)
    requires IsRun(run) && a <= k < |run.states| && FillingAll(run, a, k, i) && j < run.states[0].ring.payloadBytes
    ensures i < |run.states[a].ring.payloads| && i < |run.states[k].ring.payloads|
    ensures j < |run.states[a].ring.payloads[i]| && j < |run.states[k].ring.payloads[i]|
    ensures run.states[k].ring.payloads[i][j] == LastFilled(run, a, k, j, run.states[a].ring.payloads[i][j])
    decreases k - a
  {
    RunShape(run, a);
    RunShape(run, k);
    if a < k {
      FilledSoFar(run, a, k - 1, i, j);
      assert IsStep(run, k - 1);
      FillStep(run.states[k - 1], run.events[k - 1], i, j);
    }
  }

  /**
   * What a slot store commits: at every position the byte last put there since the slot was claimed,
   * by copy or through a handle, and otherwise the byte the slot had before.
   */
  lemma CommitsWhatWasFilled(run: Run, a: nat, k: nat, i: nat, j: nat)
    requires IsRun(run) && a < k < |run.events| && run.events[a].ZeroSlot? && run.events[k].StoreSlot?
    requires FillingAll(run, a + 1, k, i) && j < run.states[0].ring.payloadBytes
    ensures |run.states[k + 1].log| == |run.states[k].log| + 1 && run.states[k].log <= run.states[k + 1].log
    ensures i < |run.states[a].ring.payloads| && j < |run.states[a].ring.payloads[i]|
    ensures var entry := run.states[k + 1].log[|run.states[k].log|];
            j < |entry| && entry[j] == LastFilled(run, a + 1, k, j, run.states[a].ring.payloads[i][j])
  {
    assert IsStep(run, a) && IsStep(run, k);
    FilledSoFar(run, a + 1, k, i, j);
  }
}
