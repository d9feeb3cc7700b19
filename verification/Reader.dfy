/** The reader end of the ring, method by method, with the writer and other readers acting at every step. */
module Readers {
  import opened Words
  import opened Rings
  import opened Protocol
  import opened Safety
  import opened Segments
  import opened Drain
  import opened Window

  datatype ReadResult = InvalidArgument | Nothing | Got(entrySeq: nat)

  /** A borrowed view of one committed slot. */
  datatype ReadHandle = ReadHandle(index: nat, entrySeq: nat)

  /** Negating a word keeps the ring valid and continues its evolution. */
  lemma FlipEvolves(start: Ring, startLog: seq<seq<byte>>, ring: Ring, log: seq<seq<byte>>, i: nat)
    requires RingInv(ring, log) && Evolves(start, startLog, ring, log) && i < |ring.seqs| && ring.seqs[i] != 0
    ensures RingInv(Store(ring, i, -ring.seqs[i]), log)
    ensures Evolves(start, startLog, Store(ring, i, -ring.seqs[i]), log)
    ensures ring.payloads[i] == log[Abs(ring.seqs[i]) - 1]
  {
    assert SlotInv(ring.seqs[i], ring.payloads[i], log);
    StoreKeepsRing(ring, log, i, -ring.seqs[i]);
    EvolvesTransitive(start, startLog, ring, log, Store(ring, i, -ring.seqs[i]), log);
  }

  /** A word above the watermark names a committed entry. */
  lemma WordIsFound(ring: Ring, log: seq<seq<byte>>, i: nat, watermark: nat)
    requires RingInv(ring, log) && i < |ring.seqs| && watermark < ring.seqs[i]
    ensures FoundInv(Found(i, ring.seqs[i]), watermark, |ring.seqs|, log)
  {
    assert SlotInv(ring.seqs[i], ring.payloads[i], log);
  }

  /** Every held slot shows the negated number it is held under. */
  ghost predicate HoldsSlots(seqs: seq<int>, held: map<nat, nat>) {
    forall i :: i in held ==> i < |seqs| && 0 < held[i] && seqs[i] == -(held[i] as int)
  }

  lemma HeldGrows(seqs: seq<int>, held: map<nat, nat>, i: nat)
    requires i < |seqs| && 0 < seqs[i] && HoldsSlots(seqs, held)
    ensures i !in held && HoldsSlots(seqs[i := -seqs[i]], held[i := seqs[i]])
  {}

  class RawReader {
    const segment: Segment
    var lastSeq: nat
    var lastIdx: nat
    ghost var held: map<nat, nat>     // the slots this reader has pinned, and under which number

    ghost predicate Valid()
      reads this, segment
    {
      && segment.Valid() && lastIdx < |segment.seqs| && lastSeq <= |segment.log|
      && HoldsSlots(segment.seqs, held)
    }

    constructor Attach(segment: Segment)
      requires segment.Valid()
      ensures Valid() && this.segment == segment && lastSeq == 0 && lastIdx == 0 && held == map[]
    {
      this.segment := segment;
      lastSeq, lastIdx := 0, 0;
      held := map[];
    }

    /** The effective watermark, or nothing when the header advertises nothing newer. */
    method Watermark(from: Option<nat>) returns (watermark: Option<nat>)
      requires Valid()
      ensures var w := if from.Some? then from.value else lastSeq;
              watermark == if segment.watermark <= w then None else Some(w)
    {
      var w := if from.Some? then from.value else lastSeq;
      watermark := if segment.watermark <= w then None else Some(w);
    }

    /** Slots in `still` show the same words in both rings. */
    static ghost predicate SameWords(still: set<nat>, a: seq<int>, b: seq<int>) {
      |a| == |b| && forall j :: j in still && j < |a| ==> a[j] == b[j]
    }

    /** No entry newer than the watermark in a slot of `still`, among the first k, is passed over by `best`. */
    static ghost predicate NothingSkipped(best: Option<Found>, watermark: nat, still: set<nat>, seqs: seq<int>, k: nat)
    {
      forall j :: j in still && j < k && j < |seqs| && watermark < seqs[j] ==>
        best.Some? && best.value.entrySeq <= seqs[j]
    }

    /**
     * Find the oldest committed entry newer than the watermark. Whatever the others do meanwhile, no
     * entry that stays put for the whole call is passed over; undisturbed, the answer is exact.
     */
    method Locate(watermark: nat,
                  ghost quiet: bool, ghost still: set<nat>, ghost start: Ring, ghost startLog: seq<seq<byte>>)
      returns (best: Option<Found>)
      requires Valid() && watermark <= U64_MAX && held.Keys <= still
      requires Evolves(start, startLog, segment.View(), segment.log)
      modifies segment
      ensures Valid() && Evolves(start, startLog, segment.View(), segment.log)
      ensures SameWords(still, old(segment.seqs), segment.seqs)
      ensures best.Some? ==> FoundInv(best.value, watermark, |segment.seqs|, segment.log)
      ensures NothingSkipped(best, watermark, still, segment.seqs, |segment.seqs|)
      ensures quiet ==>
                && segment.View() == old(segment.View()) && segment.log == old(segment.log)
                && best == Rings.Locate(segment.seqs, lastIdx, watermark)
    {
      segment.Interfere(quiet, still, start, startLog);
      var nextIdx := Wrap(lastIdx, 1, |segment.seqs|);
      var next := segment.seqs[nextIdx];
      if next > 0 && next == SaturatingSucc(watermark) {
        assert SlotInv(segment.seqs[nextIdx], segment.payloads[nextIdx], segment.log);
        return Some(Found(nextIdx, next));
      }
      best := ScanAll(watermark, quiet, still, start, startLog);
    }

    /** One more load skips nothing either: the word of a slot in `still` is the one it showed at the start. */
    static lemma SkipsNothingNext(best: Option<Found>, watermark: nat, still: set<nat>, seqs: seq<int>,
                                  idx: nat, raw: int)
      requires idx < |seqs| && NothingSkipped(best, watermark, still, seqs, idx) && (idx in still ==> raw == seqs[idx])
      ensures NothingSkipped(Consider(best, watermark, idx, raw), watermark, still, seqs, idx + 1)
    {}

    /** The scan of `locate`, one load at a time. */
    method ScanAll(watermark: nat,
                   ghost quiet: bool, ghost still: set<nat>, ghost start: Ring, ghost startLog: seq<seq<byte>>)
      returns (best: Option<Found>)
      requires Valid() && held.Keys <= still
      requires Evolves(start, startLog, segment.View(), segment.log)
      modifies segment
      ensures Valid() && Evolves(start, startLog, segment.View(), segment.log)
      ensures SameWords(still, old(segment.seqs), segment.seqs)
      ensures best.Some? ==> FoundInv(best.value, watermark, |segment.seqs|, segment.log)
      ensures NothingSkipped(best, watermark, still, segment.seqs, |segment.seqs|)
      ensures quiet ==>
                && segment.View() == old(segment.View()) && segment.log == old(segment.log)
                && best == ScanTo(segment.seqs, watermark, |segment.seqs|)
    {
      ghost var entry, entryLog := segment.View(), segment.log;
      var entryCount := |segment.seqs|;
      best := None;
      for idx := 0 to entryCount
        invariant Valid() && Evolves(start, startLog, segment.View(), segment.log)
        invariant SameWords(still, entry.seqs, segment.seqs)
        invariant best.Some? ==> FoundInv(best.value, watermark, |segment.seqs|, segment.log)
        invariant NothingSkipped(best, watermark, still, entry.seqs, idx)
        invariant quiet ==>
                    segment.View() == entry && segment.log == entryLog && best == ScanTo(entry.seqs, watermark, idx)
      {
        segment.Interfere(quiet, still, start, startLog);
        var raw := segment.seqs[idx];
        SkipsNothingNext(best, watermark, still, entry.seqs, idx, raw);
        if raw > 0 && raw > watermark && (best.None? || raw < best.value.entrySeq) {
          WordIsFound(segment.View(), segment.log, idx, watermark);
          best := Some(Found(idx, raw));
        }
      }
    }

    /** The header advertises nothing newer, or no slot that stayed put shows anything newer. */
    ghost predicate NothingOwed(watermark: nat, still: set<nat>)
      reads segment
    {
      segment.watermark <= watermark || NothingSkipped(None, watermark, still, segment.seqs, |segment.seqs|)
    }

    /** The watermark a call works with. */
    function Effective(from: Option<nat>): nat
      reads this
    {
      if from.Some? then from.value else lastSeq
    }

    /**
     * Copy the next entry into `dst`. Whatever the others do meanwhile, a returned number comes with
     * exactly the bytes committed under it and is newer than the watermark; undisturbed, the entry is
     * the oldest such one. A call that returns nothing leaves the buffer alone unless it had copied
     * and lost an entry before; `lost` counts the entries it lost. From attempt `calmFrom` on nobody
     * else acts: a call gives up with something newer about only if all its attempts were disturbed.
     */
    method ReadInto(dst: array<byte>, from: Option<nat>, ghost quiet: bool, ghost calmFrom: nat, ghost still: set<nat>)
      returns (r: ReadResult, ghost lost: nat)
      requires Valid() && held.Keys <= still && (from.Some? ==> from.value <= U64_MAX)
      modifies this`lastSeq, this`lastIdx, segment, dst
      ensures Valid() && Evolves(old(segment.View()), old(segment.log), segment.View(), segment.log)
      ensures r.InvalidArgument? <==> dst.Length != segment.payloadBytes
      ensures !r.Got? ==> lastSeq == old(lastSeq) && lastIdx == old(lastIdx)
      ensures r.Got? ==>
                && lastSeq == r.entrySeq && old(Effective(from)) < r.entrySeq <= |segment.log|
                && dst[..] == segment.log[r.entrySeq - 1]
                && NothingSkipped(Some(Found(lastIdx, r.entrySeq)), old(Effective(from)), still,
                                  segment.seqs, |segment.seqs|)
      ensures quiet ==> segment.View() == old(segment.View()) && segment.log == old(segment.log)
      ensures r.Nothing? && calmFrom < READ_RETRIES ==> NothingOwed(old(Effective(from)), still)
      ensures !r.Got? && lost == 0 ==> dst[..] == old(dst[..])
      ensures lost <= READ_RETRIES && (r.InvalidArgument? || quiet ==> lost == 0)
      ensures quiet && !r.InvalidArgument? ==>
                var next := ReadNext(segment.View(), old(lastIdx), old(Effective(from)));
                if next.None? then r == Nothing else r == Got(next.value.entrySeq) && lastIdx == next.value.index
    {
      ghost var start, startLog := segment.View(), segment.log;
      if dst.Length != segment.payloadBytes {
        return InvalidArgument, 0;
      }
      segment.Interfere(quiet, still, start, startLog);
      var watermark := Watermark(from);
      if watermark.None? {
        return Nothing, 0;
      }
      for tries := 0 to READ_RETRIES
        invariant Valid() && lastSeq == old(lastSeq) && lastIdx == old(lastIdx)
        invariant Evolves(start, startLog, segment.View(), segment.log)
        invariant tries <= calmFrom && (tries == 0 ==> dst[..] == old(dst[..]))
        invariant quiet ==> tries == 0 && segment.View() == start && segment.log == startLog
      {
        var located, intact := Attempt(dst, watermark.value, quiet || calmFrom <= tries, still, start, startLog);
        if located.None? {
          return Nothing, tries;
        }
        if !intact {
          continue;
        }
        lastSeq, lastIdx := located.value.entrySeq, located.value.index;
        return Got(located.value.entrySeq), tries;
      }
      return Nothing, READ_RETRIES;
    }

    /** One iteration of the retry loop: locate, copy, check again. */
    method Attempt(dst: array<byte>, watermark: nat,
                   ghost quiet: bool, ghost still: set<nat>, ghost start: Ring, ghost startLog: seq<seq<byte>>)
      returns (located: Option<Found>, intact: bool)
      requires Valid() && watermark <= U64_MAX && held.Keys <= still && dst.Length == segment.payloadBytes
      requires Evolves(start, startLog, segment.View(), segment.log)
      modifies segment, dst
      ensures Valid() && Evolves(start, startLog, segment.View(), segment.log)
      ensures located.Some? && intact ==>
                && FoundInv(located.value, watermark, |segment.seqs|, segment.log)
                && dst[..] == segment.log[located.value.entrySeq - 1]
                && NothingSkipped(located, watermark, still, segment.seqs, |segment.seqs|)
      ensures quiet ==>
                && segment.View() == old(segment.View()) && segment.log == old(segment.log)
                && located == Rings.Locate(segment.seqs, lastIdx, watermark)
                && (located.Some? ==> intact)
      ensures located.None? ==> dst[..] == old(dst[..]) && NothingOwed(watermark, still)
    {
      intact := false;
      if quiet {
        AnswerIsThere(watermark);
      }
      located := Locate(watermark, quiet, still, start, startLog);
      if located.None? {
        return;
      }
      CopyOut(dst, located.value, quiet, still, start, startLog);
      segment.Interfere(quiet, still, start, startLog);
      SignRoundTrip(located.value.entrySeq);
      intact := segment.seqs[located.value.index] == AsI64(located.value.entrySeq);
    }

    /** Undisturbed, the located slot shows the located number. */
    lemma AnswerIsThere(watermark: nat)
      requires Valid() && watermark <= U64_MAX
      ensures var f := Rings.Locate(segment.seqs, lastIdx, watermark);
              f.Some? ==> f.value.index < |segment.seqs| && segment.seqs[f.value.index] == f.value.entrySeq <= I64_MAX
    {
      assert forall i :: 0 <= i < |segment.seqs| ==> SlotInv(segment.seqs[i], segment.payloads[i], segment.log);
      FastPathRefinesScan(segment.seqs, lastIdx, watermark);
    }

    /** The payload copy out of a located slot, byte by byte: faithful as long as the slot keeps the entry. */
    method CopyOut(dst: array<byte>, at: Found,
                   ghost quiet: bool, ghost still: set<nat>, ghost start: Ring, ghost startLog: seq<seq<byte>>)
      requires Valid() && held.Keys <= still && dst.Length == segment.payloadBytes
      requires at.index < |segment.seqs| && 0 < at.entrySeq <= |segment.log|
      requires Evolves(start, startLog, segment.View(), segment.log)
      modifies segment, dst
      ensures Valid() && Evolves(start, startLog, segment.View(), segment.log)
      ensures at.index < |segment.seqs| && at.entrySeq <= |segment.log|
      ensures Abs(segment.seqs[at.index]) == at.entrySeq ==> dst[..] == segment.log[at.entrySeq - 1]
      ensures SameWords(still, old(segment.seqs), segment.seqs)
      ensures quiet ==> segment.View() == old(segment.View()) && segment.log == old(segment.log)
    {
      ghost var entry, entryLog := segment.View(), segment.log;
      for k := 0 to dst.Length
        invariant Valid() && at.entrySeq <= |segment.log|
        invariant Evolves(start, startLog, segment.View(), segment.log)
        invariant SameWords(still, entry.seqs, segment.seqs)
        invariant Abs(segment.seqs[at.index]) == at.entrySeq ==>
                    && |segment.log[at.entrySeq - 1]| == dst.Length
                    && forall m :: 0 <= m < k ==> dst[m] == segment.log[at.entrySeq - 1][m]
        invariant quiet ==> segment.View() == entry && segment.log == entryLog
      {
        segment.Interfere(quiet, still, start, startLog);
        assert SlotInv(segment.seqs[at.index], segment.payloads[at.index], segment.log);
        dst[k] := segment.payloads[at.index][k];
      }
    }

    /**
     * Acquire the next entry in place. A handle names a committed entry, and its slot is pinned: it
     * joins the slots nobody else may touch. From attempt `calmFrom` on nobody else acts.
     */
    method TryAcquire(from: Option<nat>, ghost quiet: bool, ghost calmFrom: nat, ghost still: set<nat>)
      returns (handle: Option<ReadHandle>)
      requires Valid() && held.Keys <= still && (from.Some? ==> from.value <= U64_MAX)
      modifies this, segment
      ensures Valid() && Evolves(old(segment.View()), old(segment.log), segment.View(), segment.log)
      ensures handle.None? ==> lastSeq == old(lastSeq) && lastIdx == old(lastIdx) && held == old(held)
      ensures handle.None? && calmFrom < READ_RETRIES ==> NothingOwed(old(Effective(from)), still)
      ensures handle.Some? ==>
                && lastSeq == handle.value.entrySeq && lastIdx == handle.value.index
                && old(Effective(from)) < handle.value.entrySeq
                && Pinned(Found(handle.value.index, handle.value.entrySeq), old(held))
      ensures quiet ==>
                var next := ReadNext(old(segment.View()), old(lastIdx), old(Effective(from)));
                AcquiredExactly(old(segment.View()), next, handle, segment.View())
    {
      ghost var start, startLog := segment.View(), segment.log;
      segment.Interfere(quiet, still, start, startLog);
      var watermark := Watermark(from);
      if watermark.None? {
        return None;
      }
      for tries := 0 to READ_RETRIES
        invariant Valid() && lastSeq == old(lastSeq) && lastIdx == old(lastIdx) && held == old(held)
        invariant Evolves(start, startLog, segment.View(), segment.log) && tries <= calmFrom
        invariant quiet ==> tries == 0 && segment.View() == start && segment.log == startLog
      {
        var located, swapped := AcquireAttempt(watermark.value, quiet || calmFrom <= tries, still, start, startLog);
        if located.None? {
          return None;
        }
        if !swapped {
          continue;
        }
        assert quiet ==> ReadNext(start, old(lastIdx), old(Effective(from))) == located;
        lastSeq, lastIdx := located.value.entrySeq, located.value.index;
        return Some(ReadHandle(located.value.index, located.value.entrySeq));
      }
      return None;
    }

    /** Undisturbed, exactly the entry a read would return is pinned, and nothing else changes. */
    static ghost predicate AcquiredExactly(before: Ring, next: Option<Found>, handle: Option<ReadHandle>, after: Ring) {
      match next
      case None => handle.None? && after == before
      case Some(f) =>
        && handle == Some(ReadHandle(f.index, f.entrySeq)) && f.index < |before.seqs|
        && after == before.(seqs := before.seqs[f.index := -(f.entrySeq as int)])
    }

    static function HandleOn(located: Option<Found>): Option<ReadHandle> {
      if located.None? then None else Some(ReadHandle(located.value.index, located.value.entrySeq))
    }

    /** One iteration of the acquire loop: locate, then compare-and-swap. */
    method AcquireAttempt(watermark: nat,
                          ghost quiet: bool, ghost still: set<nat>, ghost start: Ring, ghost startLog: seq<seq<byte>>)
      returns (located: Option<Found>, swapped: bool)
      requires Valid() && watermark <= U64_MAX && held.Keys <= still
      requires Evolves(start, startLog, segment.View(), segment.log)
      modifies this`held, segment
      ensures Valid() && Evolves(start, startLog, segment.View(), segment.log)
      ensures !swapped ==> held == old(held)
      ensures located.None? ==> !swapped && NothingOwed(watermark, still)
      ensures swapped ==> watermark < located.value.entrySeq && Pinned(located.value, old(held))
      ensures quiet ==>
                && located == Rings.Locate(old(segment.seqs), lastIdx, watermark)
                && (located.Some? ==> swapped)
                && AcquiredExactly(old(segment.View()), located, HandleOn(located), segment.View())
    {
      swapped := false;
      if quiet {
        AnswerIsThere(watermark);
      }
      located := Locate(watermark, quiet, still, start, startLog);
      if located.Some? {
        swapped := Pin(located.value, quiet, still, start, startLog);
      }
    }

    /** A slot this reader has just added to the ones it holds, with its committed entry in place. */
    ghost predicate Pinned(at: Found, before: map<nat, nat>)
      reads this`held, segment
    {
      && at.index !in before && held == before[at.index := at.entrySeq]
      && 0 < at.entrySeq <= |segment.log|
      && at.index < |segment.payloads| && segment.payloads[at.index] == segment.log[at.entrySeq - 1]
    }

    /** The acquire compare-and-swap: from `entrySeq` to its negation, or not at all. */
    method Pin(at: Found,
               ghost quiet: bool, ghost still: set<nat>, ghost start: Ring, ghost startLog: seq<seq<byte>>)
      returns (swapped: bool)
      requires Valid() && held.Keys <= still
      requires at.index < |segment.seqs| && 0 < at.entrySeq <= |segment.log|
      requires Evolves(start, startLog, segment.View(), segment.log)
      modifies this`held, segment
      ensures Valid() && Evolves(start, startLog, segment.View(), segment.log)
      ensures !swapped ==> held == old(held)
      ensures swapped ==> Pinned(at, old(held))
      ensures quiet ==> (swapped <==> old(segment.seqs)[at.index] == at.entrySeq)
      ensures quiet && swapped ==>
                segment.View() == old(segment.View()).(seqs := old(segment.seqs)[at.index := -(at.entrySeq as int)])
      ensures quiet && !swapped ==> segment.View() == old(segment.View()) && segment.log == old(segment.log)
    {
      SignRoundTrip(at.entrySeq);
      segment.Interfere(quiet, still, start, startLog);
      swapped := segment.seqs[at.index] == AsI64(at.entrySeq);
      if swapped {
        TakeSlot(at, start, startLog);
      }
    }

    /** The store half of the swap: the slot turns negative and is this reader's until released. */
    method TakeSlot(at: Found, ghost start: Ring, ghost startLog: seq<seq<byte>>)
      requires Valid() && at.index < |segment.seqs|
      requires 0 < at.entrySeq && segment.seqs[at.index] == at.entrySeq <= I64_MAX
      requires Evolves(start, startLog, segment.View(), segment.log)
      modifies this`held, segment`seqs
      ensures Valid() && Evolves(start, startLog, segment.View(), segment.log) && Pinned(at, old(held))
      ensures segment.seqs == old(segment.seqs)[at.index := -(at.entrySeq as int)]
    {
      FlipEvolves(start, startLog, segment.View(), segment.log, at.index);
      HeldGrows(segment.seqs, held, at.index);
      ghost var flipped := Store(segment.View(), at.index, -segment.seqs[at.index]);
      segment.seqs := segment.seqs[at.index := -AsI64(at.entrySeq)];
      held := held[at.index := at.entrySeq];
      assert segment.View() == flipped;
    }

    /** Hand a held slot back: through everything that happened since, it still carries the same entry. */
    method Release(handle: ReadHandle, ghost quiet: bool, ghost still: set<nat>)
      requires Valid() && held.Keys <= still && handle.index in held && held[handle.index] == handle.entrySeq
      modifies this`held, segment
      ensures Valid() && held == old(held) - {handle.index}
      ensures Evolves(old(segment.View()), old(segment.log), segment.View(), segment.log)
      ensures handle.index < |segment.seqs| == |segment.payloads| == |old(segment.payloads)|
      ensures segment.seqs[handle.index] == handle.entrySeq
      ensures segment.payloads[handle.index] == old(segment.payloads[handle.index])
      ensures quiet ==>
                segment.View() == old(segment.View()).(seqs := old(segment.seqs)[handle.index := handle.entrySeq])
    {
      ghost var start, startLog := segment.View(), segment.log;
      segment.Interfere(quiet, still, start, startLog);
      ghost var before, beforeLog := segment.View(), segment.log;
      assert SlotInv(start.seqs[handle.index], start.payloads[handle.index], startLog);
      assert SlotInv(before.seqs[handle.index], before.payloads[handle.index], beforeLog);
      StoreKeepsRing(before, beforeLog, handle.index, handle.entrySeq);
      segment.seqs := segment.seqs[handle.index := AsI64(handle.entrySeq)];
      held := held - {handle.index};
      EvolvesTransitive(start, startLog, before, beforeLog, segment.View(), segment.log);
    }
  }

  /** An allocating default read of a quiescent window: the first entry owed, or nothing. */
  method ReadOwed(reader: RawReader, ghost open: bool) returns (entry: Option<Entry>)
    requires reader.Valid() && Quiescent(reader.segment.View(), reader.segment.log, open)
    modifies reader`lastSeq, reader`lastIdx, reader.segment
    ensures reader.Valid()
    ensures reader.segment.View() == old(reader.segment.View()) && reader.segment.log == old(reader.segment.log)
    ensures var log := reader.segment.log;
            var first := FirstOwed(old(reader.lastSeq), |log|, |reader.segment.seqs|, open);
            if first > |log| then entry == None && reader.lastSeq == old(reader.lastSeq)
            else entry == Some(Entry(first, log[first - 1])) && reader.lastSeq == first
  {
    var dst := new byte[reader.segment.payloadBytes];
    QuiescentNext(reader.segment.View(), reader.segment.log, open, reader.lastIdx, reader.lastSeq);
    ghost var lost: nat;
    var r: ReadResult;
    r, lost := reader.ReadInto(dst, None, true, 0, reader.held.Keys);
    entry := if r.Got? then Some(Entry(r.entrySeq, dst[..])) else None;
  }

  /** One round of the draining loop: `out` has been read of what was `owed`. */
  method DrainNext(reader: RawReader, ghost open: bool, ghost out: seq<Entry>, ghost owed: seq<Entry>)
    returns (entry: Option<Entry>)
    requires reader.Valid() && Quiescent(reader.segment.View(), reader.segment.log, open)
    requires Drained(out, reader.segment.log, |reader.segment.seqs|, open, reader.lastSeq, owed)
    modifies reader`lastSeq, reader`lastIdx, reader.segment
    ensures reader.Valid()
    ensures reader.segment.View() == old(reader.segment.View()) && reader.segment.log == old(reader.segment.log)
    ensures entry.Some? ==>
              && old(reader.lastSeq) < reader.lastSeq
              && Drained(out + [entry.value], reader.segment.log, |reader.segment.seqs|, open, reader.lastSeq, owed)
    ensures entry.None? ==> out == owed && (out != [] ==> reader.lastSeq == |reader.segment.log|)
  {
    ghost var log, n, b := reader.segment.log, |reader.segment.seqs|, reader.lastSeq;
    entry := ReadOwed(reader, open);
    if entry.Some? {
      DrainedNext(out, log, n, open, b, owed);
    } else {
      DrainedEnd(out, log, n, open, b, owed);
    }
  }

  /**
   * Read until nothing is left, while nobody else acts: exactly the surviving entries newer than the
   * bookmark, oldest first, each with its payload.
   */
  method DrainAll(reader: RawReader, ghost open: bool) returns (out: seq<Entry>)
    requires reader.Valid() && Quiescent(reader.segment.View(), reader.segment.log, open)
    modifies reader`lastSeq, reader`lastIdx, reader.segment
    ensures reader.Valid()
    ensures reader.segment.View() == old(reader.segment.View()) && reader.segment.log == old(reader.segment.log)
    ensures var log := reader.segment.log;
            out == Entries(log, FirstOwed(old(reader.lastSeq), |log|, |reader.segment.seqs|, open))
    ensures out != [] ==> reader.lastSeq == |reader.segment.log|
  {
    out := [];
    ghost var ring, log := reader.segment.View(), reader.segment.log;
    ghost var owed := Entries(log, FirstOwed(reader.lastSeq, |log|, |ring.seqs|, open));
    while true
      invariant reader.Valid() && reader.segment.View() == ring && reader.segment.log == log
      invariant Drained(out, log, |ring.seqs|, open, reader.lastSeq, owed)
      decreases |log| - reader.lastSeq
    {
      var entry := DrainNext(reader, open, out, owed);
      if entry.None? {
        break;
      }
      out := out + [entry.value];
    }
  }
}
