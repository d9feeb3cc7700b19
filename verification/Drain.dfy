/** Reading a quiescent ring until nothing newer is left. */
module Drain {
  import opened Words
  import opened Rings
  import opened Protocol
  import opened Shapes
  import opened Safety
  import opened Window

  datatype Entry = Entry(entrySeq: nat, payload: seq<byte>)

  ghost predicate Readable(ring: Ring) {
    && 0 < |ring.seqs| == |ring.payloads|
    && forall i :: 0 <= i < |ring.seqs| ==> ring.seqs[i] <= I64_MAX
  }

  /** One default read by a reader with bookmark b, while nobody else acts. */
  function ReadNext(ring: Ring, lastIdx: nat, b: nat): Option<Found>
    requires lastIdx < |ring.seqs| && b <= U64_MAX
  {
    if ring.watermark <= b then None else Locate(ring.seqs, lastIdx, b)
  }

  /** Repeated default reads, until one of them returns nothing. */
  ghost function DrainFrom(ring: Ring, lastIdx: nat, b: nat): seq<Entry>
    requires Readable(ring) && lastIdx < |ring.seqs| && b <= U64_MAX
    decreases U64_MAX - b
  {
    FastPathRefinesScan(ring.seqs, lastIdx, b);
    match ReadNext(ring, lastIdx, b)
    case None => []
    case Some(f) => [Entry(f.entrySeq, ring.payloads[f.index])] + DrainFrom(ring, f.index, f.entrySeq)
  }

  /** The oldest entry a window still holds. */
  function Oldest(newest: nat, n: nat, open: bool): nat {
    var lost := newest - n + if open then 1 else 0;
    if lost < 0 then 1 else lost + 1
  }

  /** Entries first .. newest of the log, with their numbers. */
  ghost function Entries(log: seq<seq<byte>>, first: nat): seq<Entry>
    requires 0 < first
    decreases |log| + 1 - first
  {
    if first > |log| then [] else [Entry(first, log[first - 1])] + Entries(log, first + 1)
  }

  /** The first number a reader with bookmark b is owed. */
  function FirstOwed(b: nat, newest: nat, n: nat, open: bool): (f: nat)
    ensures 0 < f && b < f
  {
    if b + 1 < Oldest(newest, n, open) then Oldest(newest, n, open) else b + 1
  }

  /** `out` followed by what a reader with bookmark b is still owed makes up `owed`. */
  ghost predicate Drained(out: seq<Entry>, log: seq<seq<byte>>, n: nat, open: bool, b: nat, owed: seq<Entry>) {
    && out + Entries(log, FirstOwed(b, |log|, n, open)) == owed
    && (out != [] ==> FirstOwed(b, |log|, n, open) == b + 1)
  }

  /** Reading the first entry owed moves it from the one to the other. */
  lemma DrainedNext(out: seq<Entry>, log: seq<seq<byte>>, n: nat, open: bool, b: nat, owed: seq<Entry>)
    requires Drained(out, log, n, open, b, owed) && FirstOwed(b, |log|, n, open) <= |log|
    ensures var first := FirstOwed(b, |log|, n, open);
            Drained(out + [Entry(first, log[first - 1])], log, n, open, first, owed)
  {
    var first := FirstOwed(b, |log|, n, open);
    assert Entries(log, first) == [Entry(first, log[first - 1])] + Entries(log, first + 1);
  }

  /** When nothing more is owed, everything has been read. */
  lemma DrainedEnd(out: seq<Entry>, log: seq<seq<byte>>, n: nat, open: bool, b: nat, owed: seq<Entry>)
    requires Drained(out, log, n, open, b, owed) && FirstOwed(b, |log|, n, open) > |log| >= b
    ensures out == owed && (out != [] ==> b == |log|)
  {}

  /** The one entry a read of a window must return, index included. */
  lemma WindowNext(seqs: seq<int>, newest: nat, open: bool, b: nat)
    requires 0 < |seqs| && IsWindow(seqs, newest, Cursor(newest, |seqs|), open)
    ensures var first := FirstOwed(b, newest, |seqs|, open);
            IsOldestNewer(seqs, b, if first > newest then None else Some(Found(Home(first, |seqs|), first)))
    ensures Distinct(seqs)
  {
    var n, first := |seqs|, FirstOwed(b, newest, |seqs|, open);
    if first <= newest {
      DueAtModulo(first, newest, n);
    }
  }

  /** No write is in progress and the header says so. */
  ghost predicate Quiescent(ring: Ring, log: seq<seq<byte>>, open: bool) {
    && RingInv(ring, log) && Readable(ring) && ring.watermark == |log|
    && IsWindow(ring.seqs, |log|, Cursor(|log|, |ring.seqs|), open)
  }

  /** Runs whose window slides are quiescent whenever the header has caught up with the log. */
  lemma QuiescentInRuns(run: Run, k: nat) returns (open: bool)
    requires SlidingRun(run) && k < |run.states| && run.states[k].ring.watermark == |run.states[k].log|
    ensures Quiescent(run.states[k].ring, run.states[k].log, open)
  {
    SlidingRunInv(run, k);
    RunInv(run, k);
    var s := run.states[k];
    forall i | 0 <= i < |s.ring.seqs|
      ensures s.ring.seqs[i] <= I64_MAX
    {
      assert Abs(s.ring.seqs[i]) <= I64_MAX;
    }
    open :| IsWindow(s.ring.seqs, |s.log|, Cursor(|s.log|, |s.ring.seqs|), open);
  }

  /** What one read of a quiescent window returns. */
  lemma QuiescentNext(ring: Ring, log: seq<seq<byte>>, open: bool, lastIdx: nat, b: nat)
    requires Quiescent(ring, log, open) && lastIdx < |ring.seqs| && b <= U64_MAX
    ensures var first, next := FirstOwed(b, |log|, |ring.seqs|, open), ReadNext(ring, lastIdx, b);
            && (next.None? <==> first > |log|)
            && (next.Some? ==> next.value.entrySeq == first && next.value.index < |ring.seqs|
                               && ring.payloads[next.value.index] == log[first - 1])
  {
    var first, next := FirstOwed(b, |log|, |ring.seqs|, open), ReadNext(ring, lastIdx, b);
    FastPathRefinesScan(ring.seqs, lastIdx, b);
    WindowNext(ring.seqs, |log|, open, b);
    if ring.watermark > b {
      var due := if first > |log| then None else Some(Found(Home(first, |ring.seqs|), first));
      OldestNewerUnique(ring.seqs, b, next, due);
    }
    if next.Some? {
      assert SlotInv(ring.seqs[next.value.index], ring.payloads[next.value.index], log);
    }
  }

  /**
   * Exact drain: from any bookmark and any last index, repeated reads of a window with no write in
   * progress return exactly the surviving entries newer than the bookmark, in order, with their
   * payloads, and then nothing.
   */
  lemma {:induction false} ExactDrain(ring: Ring, log: seq<seq<byte>>, open: bool, lastIdx: nat, b: nat)
    requires Quiescent(ring, log, open) && lastIdx < |ring.seqs| && b <= U64_MAX
    ensures DrainFrom(ring, lastIdx, b) == Entries(log, FirstOwed(b, |log|, |ring.seqs|, open))
    decreases U64_MAX - b
  {
    QuiescentNext(ring, log, open, lastIdx, b);
    var first, next := FirstOwed(b, |log|, |ring.seqs|, open), ReadNext(ring, lastIdx, b);
    if next.Some? {
      ExactDrain(ring, log, open, next.value.index, first);
    }
  }

  /** So at such a point of a run, a drain yields exactly the entries newer than the bookmark that survive. */
  lemma DrainInRuns(run: Run, k: nat, lastIdx: nat, b: nat) returns (open: bool)
    requires SlidingRun(run) && k < |run.states| && run.states[k].ring.watermark == |run.states[k].log|
    requires lastIdx < |run.states[k].ring.seqs| && b <= U64_MAX
    ensures var ring, log := run.states[k].ring, run.states[k].log;
            && Readable(ring)
            && DrainFrom(ring, lastIdx, b) == Entries(log, FirstOwed(b, |log|, |ring.seqs|, open))
  {
    open := QuiescentInRuns(run, k);
    ExactDrain(run.states[k].ring, run.states[k].log, open, lastIdx, b);
  }

  /**
   * Gap accounting: the numbers a drain skips past the bookmark are exactly the entries the ring no
   * longer holds, so the jump in the numbering counts them.
   */
  lemma GapCountsOverwritten(seqs: seq<int>, newest: nat, open: bool, b: nat, s: nat)
    requires 0 < |seqs| && IsWindow(seqs, newest, Cursor(newest, |seqs|), open)
    requires b < s <= newest
    ensures s < FirstOwed(b, newest, |seqs|, open) <==> forall i :: 0 <= i < |seqs| ==> seqs[i] != s
  {
    if s >= FirstOwed(b, newest, |seqs|, open) {
      DueAtModulo(s, newest, |seqs|);
      assert seqs[Home(s, |seqs|)] == s;
    }
  }

  /** With no claim outstanding the window reaches back exactly n entries. */
  lemma LapLosesAllButLast(newest: nat, n: nat, b: nat)
    requires 0 < n
    ensures FirstOwed(b, newest, n, false) == 1 + (if b + n < newest then newest - n else b)
  {}
}
