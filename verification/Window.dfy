/** The ring as a sliding window over the log, and what draining it yields. */
module Window {
  import opened Words
  import opened Rings
  import opened Protocol
  import opened Shapes
  import opened Pins
  import opened Safety
  import opened Numbering

  // ── The window ──────────────────────────────────────────────────────────────

  /** The entry that belongs in slot i when the newest one is `newest` and `cursor` is written next. */
  function Due(i: nat, n: nat, newest: nat, cursor: nat): int {
    newest - n + 1 + (if cursor <= i then i - cursor else i - cursor + n)
  }

  /** Every slot holds the entry due in it, if there is one yet; an open window lacks the slot at the cursor. */
  ghost predicate IsWindow(seqs: seq<int>, newest: nat, cursor: nat, open: bool) {
    && cursor < |seqs|
    && forall i :: 0 <= i < |seqs| ==>
         var due := Due(i, |seqs|, newest, cursor);
         seqs[i] == if due <= 0 || (open && i == cursor) then 0 else due
  }

  /** The slot written next after `newest` entries. */
  function Cursor(newest: nat, n: nat): (c: nat)
    requires 0 < n
    ensures c < n
  {
    newest % n
  }

  lemma CursorAdvances(newest: nat, n: nat)
    requires 0 < n
    ensures Cursor(newest + 1, n) == Wrap(Cursor(newest, n), 1, n)
  {
    var q, c := newest / n, newest % n;
    assert newest + 1 == q * n + (c + 1);
    if c + 1 < n {
      ModuloUnique(newest + 1, q, c + 1, n);
    } else {
      assert newest + 1 == (q + 1) * n + 0;
      ModuloUnique(newest + 1, q + 1, 0, n);
    }
  }

  lemma ModuloUnique(x: nat, q: nat, c: nat, n: nat)
    requires c < n && x == q * n + c
    ensures x % n == c
  {
    var d := x / n - q;
    assert x == (x / n) * n + x % n;
    assert d * n == c - x % n;
    MultipleBounds(d, n);
  }

  lemma MultipleBounds(d: int, n: int)
    requires 0 < n
    ensures d >= 2 ==> d * n >= n + n
    ensures d >= 1 ==> d * n >= n
    ensures d <= -1 ==> d * n <= -n
  {}

  /** The slot entry s belongs in. */
  function Home(s: nat, n: nat): (i: nat)
    requires 0 < s && 0 < n
    ensures i < n
  {
    (s - 1) % n
  }

  /** The entry due in the slot of s is s, for each of the last n numbers. */
  lemma DueAtModulo(s: nat, newest: nat, n: nat)
    requires 0 < n && 0 < s <= newest && newest < s + n
    ensures Due(Home(s, n), n, newest, Cursor(newest, n)) == s
  {
    var i, c := (s - 1) % n, newest % n;
    var d := newest / n - (s - 1) / n;
    assert newest == (newest / n) * n + c && s - 1 == ((s - 1) / n) * n + i;
    assert d * n == newest - (s - 1) - c + i;
    MultipleBounds(d, n);
    assert d == 0 || d == 1;
  }

  /** The window in the source's own terms: entry s lives in slot (s - 1) mod n, and nothing else is in the ring. */
  lemma WindowHoldsLast(seqs: seq<int>, newest: nat, open: bool)
    requires 0 < |seqs| && IsWindow(seqs, newest, Cursor(newest, |seqs|), open)
    ensures forall s :: 0 < s <= newest && newest < s + |seqs| ==>
              seqs[Home(s, |seqs|)] == s || (open && s + |seqs| == newest + 1 && seqs[Home(s, |seqs|)] == 0)
    ensures forall i :: 0 <= i < |seqs| && seqs[i] != 0 ==> 0 < seqs[i] <= newest && newest < seqs[i] + |seqs|
  {
    forall s | 0 < s <= newest && newest < s + |seqs|
      ensures seqs[Home(s, |seqs|)] == s || (open && s + |seqs| == newest + 1 && seqs[Home(s, |seqs|)] == 0)
    {
      DueAtModulo(s, newest, |seqs|);
    }
  }

  lemma WindowOpens(seqs: seq<int>, newest: nat, cursor: nat, open: bool)
    requires IsWindow(seqs, newest, cursor, open)
    ensures IsWindow(seqs[cursor := 0], newest, cursor, true)
  {}

  lemma WindowSlides(seqs: seq<int>, newest: nat, cursor: nat, open: bool)
    requires IsWindow(seqs, newest, cursor, open)
    ensures IsWindow(seqs[cursor := newest + 1], newest + 1, Wrap(cursor, 1, |seqs|), false)
  {}

  // ── Sliding over runs ───────────────────────────────────────────────────────

  ghost predicate SomeWindow(s: State) {
    0 < |s.ring.seqs| && exists open :: IsWindow(s.ring.seqs, |s.log|, Cursor(|s.log|, |s.ring.seqs|), open)
  }

  /** The header index is the cursor, or still names the newest entry. */
  ghost predicate HeaderNearCursor(s: State)
    requires 0 < |s.ring.seqs|
  {
    || s.ring.writeIndex == Cursor(|s.log|, |s.ring.seqs|)
    || (s.ring.writeIndex < |s.ring.seqs| && s.ring.seqs[s.ring.writeIndex] == |s.log| > 0)
  }

  ghost predicate Sliding(s: State) {
    && SomeWindow(s)
    && var c := Cursor(|s.log|, |s.ring.seqs|);
       match s.writer.pc
       case Down => HeaderNearCursor(s)
       case Recovering(headerIndex, _, _, _) => headerIndex == s.ring.writeIndex && HeaderNearCursor(s)
       case Idle => s.writer.currentIndex == c && HeaderNearCursor(s)
       case Probing(k) => k == 0 && s.writer.currentIndex == c && HeaderNearCursor(s)
       case Loaded(index) => s.writer.currentIndex == index == c && HeaderNearCursor(s)
       case Filling(index) => s.writer.currentIndex == index == c && HeaderNearCursor(s)
       case Committed(_) => s.writer.currentIndex == c
       case Indexed(_) => s.writer.currentIndex == c
  }

  /**
   * A crash between slot store and index store is harmless to the order exactly when the header
   * index had been brought up to date since the last recovery.
   */
  ghost predicate IndexCrashSafe(s: State, e: Event) {
    e.Crash? && s.writer.pc.Committed? ==>
      s.ring.writeIndex == s.writer.pc.index || s.ring.writeIndex == s.writer.currentIndex
  }

  ghost predicate IndexCurrent(s: State, e: Event) {
    e.Attach? ==> e.headerIndex == s.ring.writeIndex
  }

  ghost predicate SlidingRun(run: Run) {
    && InformedRun(run)
    && forall k :: 0 <= k < |run.events| ==>
         && !run.events[k].Swap?
         && IndexCurrent(run.states[k], run.events[k]) && IndexCrashSafe(run.states[k], run.events[k])
  }

  /** On a window, a writer that dies after its slot store resumes in order iff the crash was safe. */
  lemma IndexCrashExact(s: State)
    requires Inv(s) && Sliding(s) && s.writer.pc.Committed?
    ensures ResumeIndex(s.ring.seqs, s.ring.writeIndex, |s.log|) == Cursor(|s.log|, |s.ring.seqs|)
            <==> IndexCrashSafe(s, Crash)
  {
    SmallModulo(s.ring.writeIndex, |s.ring.seqs|);
  }

  lemma SlidingRecovery(s: State)
    requires Inv(s) && Sliding(s) && WriterCan(s, RecoverLoad)
    ensures Sliding(WriterStep(s, RecoverLoad))
  {
    SmallModulo(s.ring.writeIndex, |s.ring.seqs|);
  }

  lemma SlidingZeroSlot(s: State)
    requires Inv(s) && Sliding(s) && WriterCan(s, ZeroSlot)
    ensures Sliding(WriterStep(s, ZeroSlot))
  {
    var c := Cursor(|s.log|, |s.ring.seqs|);
    var open :| IsWindow(s.ring.seqs, |s.log|, c, open);
    WindowOpens(s.ring.seqs, |s.log|, c, open);
    var after := WriterStep(s, ZeroSlot);
    assert IsWindow(after.ring.seqs, |s.log|, c, true);
    if |s.ring.seqs| == 1 {
      assert s.ring.writeIndex == 0 == c;
    }
  }

  lemma SlidingStoreSlot(s: State)
    requires Inv(s) && Sliding(s) && WriterCan(s, StoreSlot)
    ensures Sliding(WriterStep(s, StoreSlot))
  {
    var c := Cursor(|s.log|, |s.ring.seqs|);
    var open :| IsWindow(s.ring.seqs, |s.log|, c, open);
    WindowSlides(s.ring.seqs, |s.log|, c, open);
    CursorAdvances(|s.log|, |s.ring.seqs|);
    var after := WriterStep(s, StoreSlot);
    assert IsWindow(after.ring.seqs, |after.log|, Cursor(|after.log|, |after.ring.seqs|), false);
  }

  lemma SlidingStep(s: State, e: Event)
    requires Inv(s) && Sliding(s) && Can(s, e) && !e.Swap? && IndexCurrent(s, e) && IndexCrashSafe(s, e)
    ensures Sliding(Step(s, e))
  {
    if e.ZeroSlot? {
      SlidingZeroSlot(s);
    } else if e.StoreSlot? {
      SlidingStoreSlot(s);
    } else if e.RecoverLoad? {
      SlidingRecovery(s);
    } else if !WriterEvent(e) {
      CopyReadersTouchNothing(s, e);
    } else {
      WriterFrame(s, e);
    }
  }

  lemma FreshSliding(s: State)
    requires Fresh(s)
    ensures Sliding(s)
  {
    SmallModulo(0, |s.ring.seqs|);
    assert IsWindow(s.ring.seqs, |s.log|, Cursor(|s.log|, |s.ring.seqs|), false);
  }

  lemma {:induction false} SlidingRunInv(run: Run, k: nat)
    requires SlidingRun(run) && k < |run.states|
    ensures Sliding(run.states[k])
  {
    if k == 0 {
      FreshSliding(run.states[0]);
    } else {
      SlidingRunInv(run, k - 1);
      RunInv(run, k - 1);
      assert IsStep(run, k - 1);
      SlidingStep(run.states[k - 1], run.events[k - 1]);
    }
  }

  /**
   * Sliding-window refinement: at every point of such a run, entry s lives in slot (s - 1) mod n, with
   * its payload, and the ring holds exactly the last n entries of the log, less at most the oldest
   * one, whose slot is the one to be written next.
   */
  lemma SlidingWindow(run: Run, k: nat)
    requires SlidingRun(run) && k < |run.states|
    ensures var n, newest, seqs := |run.states[k].ring.seqs|, |run.states[k].log|, run.states[k].ring.seqs;
            && 0 < n == |run.states[k].ring.payloads|
            && (forall s :: 0 < s <= newest && newest < s + n ==>
                  || (seqs[Home(s, n)] == s && run.states[k].ring.payloads[Home(s, n)] == run.states[k].log[s - 1])
                  || (s + n == newest + 1 && seqs[Home(s, n)] == 0))
            && (forall i :: 0 <= i < n && seqs[i] != 0 ==> 0 < seqs[i] <= newest && newest < seqs[i] + n)
  {
    SlidingRunInv(run, k);
    RunInv(run, k);
    var s, n := run.states[k], |run.states[k].ring.seqs|;
    var open :| IsWindow(s.ring.seqs, |s.log|, Cursor(|s.log|, n), open);
    WindowHoldsLast(s.ring.seqs, |s.log|, open);
    forall e | 0 < e <= |s.log| && |s.log| < e + n && s.ring.seqs[Home(e, n)] == e
      ensures s.ring.payloads[Home(e, n)] == s.log[e - 1]
    {
      assert SlotInv(s.ring.seqs[Home(e, n)], s.ring.payloads[Home(e, n)], s.log);
    }
  }

  /** The oldest entry is missing only while a claim is outstanding, unless a claim was given up or cut short. */
  ghost predicate Tidy(s: State) {
    0 < |s.ring.seqs| && IsWindow(s.ring.seqs, |s.log|, Cursor(|s.log|, |s.ring.seqs|), s.writer.pc.Filling?)
  }

  ghost predicate ClaimFinished(s: State, e: Event) {
    !e.AbandonClaim? && (e.Crash? ==> !s.writer.pc.Filling?)
  }

  lemma TidyZeroSlot(s: State)
    requires Tidy(s) && WriterCan(s, ZeroSlot) && s.writer.pc.index == Cursor(|s.log|, |s.ring.seqs|)
    ensures Tidy(WriterStep(s, ZeroSlot))
  {
    WindowOpens(s.ring.seqs, |s.log|, Cursor(|s.log|, |s.ring.seqs|), false);
  }

  lemma TidyStoreSlot(s: State)
    requires Tidy(s) && WriterCan(s, StoreSlot) && s.writer.lastSeq == |s.log|
    requires s.writer.pc.index == Cursor(|s.log|, |s.ring.seqs|)
    ensures Tidy(WriterStep(s, StoreSlot))
  {
    WindowSlides(s.ring.seqs, |s.log|, Cursor(|s.log|, |s.ring.seqs|), true);
    CursorAdvances(|s.log|, |s.ring.seqs|);
  }

  lemma TidyElse(s: State, after: State)
    requires Tidy(s) && after.ring.seqs == s.ring.seqs && after.log == s.log
    requires after.writer.pc.Filling? == s.writer.pc.Filling?
    ensures Tidy(after)
  {}

  lemma TidyStep(s: State, e: Event)
    requires PinInv(s) && NumberInv(s.writer, s.ring.seqs, |s.log|) && Sliding(s) && Tidy(s)
    requires Can(s, e) && !e.Swap? && ClaimFinished(s, e)
    ensures Tidy(Step(s, e))
  {
    if e.ZeroSlot? {
      TidyZeroSlot(s);
    } else if e.StoreSlot? {
      TidyStoreSlot(s);
    } else {
      if WriterEvent(e) {
        WriterFrame(s, e);
      } else {
        CopyReadersTouchNothing(s, e);
      }
      TidyElse(s, Step(s, e));
    }
  }

  lemma {:induction false} TidyRun(run: Run, k: nat)
    requires SlidingRun(run) && k < |run.states|
    requires forall m :: 0 <= m < |run.events| ==> ClaimFinished(run.states[m], run.events[m])
    ensures Tidy(run.states[k])
  {
    if k == 0 {
      FreshInv(run.states[0]);
      SmallModulo(0, |run.states[0].ring.seqs|);
    } else {
      TidyRun(run, k - 1);
      SlidingRunInv(run, k - 1);
      RunInv(run, k - 1);
      assert IsStep(run, k - 1);
      TidyStep(run.states[k - 1], run.events[k - 1]);
    }
  }

  // ── Completing a publish makes the next crash safe ──────────────────────────

  ghost predicate IndexFresh(s: State) {
    match s.writer.pc
    case Down => false
    case Recovering(_, _, _, _) => false
    case Committed(index) => s.ring.writeIndex == index
    case Indexed(_) => true
    case _ => s.ring.writeIndex == s.writer.currentIndex
  }

  lemma IndexFreshStep(s: State, e: Event)
    requires Inv(s) && Sliding(s) && Can(s, e) && !e.Crash?
    requires IndexFresh(s) || e.StoreIndex?
    ensures IndexFresh(Step(s, e))
  {
    if !WriterEvent(e) {
      ReaderStepFlipsSigns(s, e);
    }
  }

  /** The writer of state b has stored the header index since it attached. */
  ghost predicate IndexStored(run: Run, b: nat)
    requires b <= |run.events|
  {
    exists a :: 0 <= a < b && run.events[a].StoreIndex? && forall k :: a < k < b ==> !run.events[k].Crash?
  }

  /** Once a writer has stored the header index, dying at any later point keeps the order. */
  lemma {:induction false} CompletedPublishAllowsCrash(run: Run, b: nat)
    requires SlidingRun(run) && b < |run.states| && IndexStored(run, b)
    ensures IndexFresh(run.states[b]) && IndexCrashSafe(run.states[b], Crash)
  {
    StoredBefore(run, b);
    if !run.events[b - 1].StoreIndex? {
      CompletedPublishAllowsCrash(run, b - 1);
    }
    assert IsStep(run, b - 1);
    SlidingRunInv(run, b - 1);
    RunInv(run, b - 1);
    IndexFreshStep(run.states[b - 1], run.events[b - 1]);
  }

  // ── Runs that keep the order ────────────────────────────────────────────────

  ghost predicate NoCrashYet(run: Run, b: nat)
    requires b <= |run.events|
  {
    forall k :: 0 <= k < b ==> !run.events[k].Crash?
  }

  /**
   * Two slots or more, no pins, current header indices, and each writer but the first gets as far as
   * storing the header index once before it may die between a slot store and an index store.
   */
  ghost predicate OrderlyRun(run: Run) {
    && UnpinnedRun(run)
    && forall k :: 0 <= k < |run.events| ==> IndexCurrent(run.states[k], run.events[k]) && DiesOrderly(run, k)
  }

  ghost predicate DiesOrderly(run: Run, k: nat)
    requires |run.states| == |run.events| + 1 && k < |run.events|
  {
    run.events[k].Crash? && run.states[k].writer.pc.Committed? ==> NoCrashYet(run, k) || IndexStored(run, k)
  }

  /** Before the first entry of a ring, or with a header index that follows the writer. */
  ghost predicate FirstOrFresh(s: State) {
    || IndexFresh(s)
    || (&& s.log == [] && s.ring.writeIndex == 0 && (forall i :: 0 <= i < |s.ring.seqs| ==> s.ring.seqs[i] == 0)
        && (s.writer.pc.Down? || (s.writer.pc.Recovering? && s.writer.pc.headerIndex == 0)))
  }

  lemma FirstOrFreshStep(s: State, e: Event)
    requires Inv(s) && Sliding(s) && Can(s, e) && IndexCurrent(s, e) && !e.Swap? && !e.Crash?
    requires FirstOrFresh(s) || e.StoreIndex?
    ensures FirstOrFresh(Step(s, e))
    ensures IndexFresh(s) || e.StoreIndex? ==> IndexFresh(Step(s, e))
  {
    if IndexFresh(s) || e.StoreIndex? {
      IndexFreshStep(s, e);
    } else if e.RecoverLoad? {
      SmallModulo(0, |s.ring.seqs|);
    } else if !WriterEvent(e) {
      CopyReadersTouchNothing(s, e);
    } else {
      assert e.Attach?;
    }
  }

  lemma OrderlyStep(s: State, e: Event, first: bool, stored: bool)
    requires Inv(s) && Sliding(s) && Can(s, e) && IndexCurrent(s, e) && !e.Swap?
    requires (first ==> FirstOrFresh(s)) && (stored ==> IndexFresh(s))
    requires e.Crash? && s.writer.pc.Committed? ==> first || stored
    ensures Sliding(Step(s, e))
    ensures first && !e.Crash? ==> FirstOrFresh(Step(s, e))
    ensures (stored || e.StoreIndex?) && !e.Crash? ==> IndexFresh(Step(s, e))
  {
    SlidingStep(s, e);
    if (first || stored || e.StoreIndex?) && !e.Crash? {
      FirstOrFreshStep(s, e);
    }
  }

  lemma {:induction false} OrderlyRunInv(run: Run, k: nat)
    requires OrderlyRun(run) && k < |run.states|
    ensures Sliding(run.states[k])
    ensures NoCrashYet(run, k) ==> FirstOrFresh(run.states[k])
    ensures IndexStored(run, k) ==> IndexFresh(run.states[k])
  {
    if k == 0 {
      FreshSliding(run.states[0]);
    } else {
      OrderlyRunInv(run, k - 1);
      UnpinnedRunInv(run, k - 1);
      assert IsStep(run, k - 1) && DiesOrderly(run, k - 1);
      if IndexStored(run, k) {
        StoredBefore(run, k);
      }
      OrderlyStep(run.states[k - 1], run.events[k - 1], NoCrashYet(run, k - 1), IndexStored(run, k - 1));
    }
  }

  lemma StoredBefore(run: Run, k: nat)
    requires 0 < k <= |run.events| && IndexStored(run, k)
    ensures run.events[k - 1].StoreIndex? || IndexStored(run, k - 1)
    ensures !run.events[k - 1].Crash?
  {
    var a :| 0 <= a < k && run.events[a].StoreIndex? && forall m :: a < m < k ==> !run.events[m].Crash?;
  }

  lemma OrderlyCrash(run: Run, k: nat)
    requires OrderlyRun(run) && k < |run.events|
    requires NoCrashYet(run, k) ==> FirstOrFresh(run.states[k])
    requires IndexStored(run, k) ==> IndexFresh(run.states[k])
    ensures IndexCrashSafe(run.states[k], run.events[k])
  {
    assert DiesOrderly(run, k);
  }

  /** Such runs keep the sliding window. */
  lemma OrderlyRunsSlide(run: Run)
    requires OrderlyRun(run)
    ensures SlidingRun(run)
  {
    UnpinnedRunsAreInformed(run);
    forall k | 0 <= k < |run.events|
      ensures IndexCrashSafe(run.states[k], run.events[k])
    {
      OrderlyRunInv(run, k);
      OrderlyCrash(run, k);
    }
  }
}
