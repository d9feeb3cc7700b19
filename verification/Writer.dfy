/** The writer end of the ring, method by method, with readers pinning and unpinning slots at every step. */
module Writers {
  import opened Words
  import opened Rings
  import opened Protocol
  import opened Safety
  import opened Segments

  datatype WriteResult = Written | InvalidArgument | Busy

  /** An exclusive, not yet published slot. */
  datatype WriteHandle = WriteHandle(index: nat)

  /** Two rings that agree on every magnitude and every payload, except slot i's; headers may differ. */
  ghost predicate AgreeExcept(a: Ring, b: Ring, i: nat) {
    && a.payloadBytes == b.payloadBytes && |a.seqs| == |b.seqs| && |a.payloads| == |b.payloads|
    && (forall j :: 0 <= j < |a.seqs| && j != i ==> Abs(a.seqs[j]) == Abs(b.seqs[j]))
    && (forall j :: 0 <= j < |a.payloads| && j != i ==> a.payloads[j] == b.payloads[j])
  }

  /**
   * `recover_state`: the larger of header watermark and ring maximum, and the index after the newest
   * entry if the header still points at it; pins taken or dropped meanwhile make no difference.
   */
  method RecoverState(segment: Segment, headerIndex: nat, headerSeq: nat, ghost quiet: bool)
    returns (maxSeq: nat, index: nat)
    requires segment.Valid()
    modifies segment
    ensures segment.Valid() && segment.log == old(segment.log) && SignsOnly(old(segment.View()), segment.View())
    ensures maxSeq == MaxMagnitude(old(segment.seqs), headerSeq, |old(segment.seqs)|)
    ensures index == ResumeIndex(old(segment.seqs), headerIndex, maxSeq)
  {
    ghost var start := segment.View();
    var n := |segment.seqs|;
    maxSeq := headerSeq;
    for i := 0 to n
      invariant segment.Valid() && segment.log == old(segment.log) && SignsOnly(start, segment.View())
      invariant maxSeq == MaxMagnitude(start.seqs, headerSeq, i)
    {
      segment.InterfereByReaders(quiet, start);
      LoadExtendsMaximum(start.seqs, segment.seqs, headerSeq, i);
      var magnitude := Abs(segment.seqs[i]);
      if magnitude > maxSeq {
        maxSeq := magnitude;
      }
    }
    var writeIndex := headerIndex % (if n > 1 then n else 1);
    segment.InterfereByReaders(quiet, start);
    ResumeIgnoresSigns(start.seqs, segment.seqs, headerIndex, maxSeq);
    var atIndex := Abs(segment.seqs[writeIndex]);
    index := if atIndex != 0 && atIndex == maxSeq then Wrap(writeIndex, 1, n) else writeIndex;
  }

  class RawWriter {
    const segment: Segment
    var currentIndex: nat
    var lastSeq: nat

    /** The writer's number is the highest ever committed. */
    ghost predicate Valid()
      reads this, segment
    {
      segment.Valid() && currentIndex < |segment.seqs| && lastSeq == |segment.log|
    }

    /** A writer, whatever header it was given, is up to date iff that header and the ring tell the newest number. */
    constructor Attach(segment: Segment, headerIndex: nat, headerSeq: nat, ghost quiet: bool)
      requires segment.Valid()
      modifies segment
      ensures this.segment == segment
      ensures segment.Valid() && segment.log == old(segment.log) && SignsOnly(old(segment.View()), segment.View())
      ensures lastSeq == MaxMagnitude(old(segment.seqs), headerSeq, |old(segment.seqs)|)
      ensures currentIndex == ResumeIndex(old(segment.seqs), headerIndex, lastSeq)
      ensures Valid() <==> Informs(old(segment.seqs), headerSeq, |segment.log|)
    {
      RecoveredNumberExact(segment.View(), segment.log, headerSeq);
      var maxSeq, index := RecoverState(segment, headerIndex, headerSeq, quiet);
      this.segment := segment;
      this.lastSeq, this.currentIndex := maxSeq, index;
    }

    /** Claim the next unheld slot and mark it in progress. */
    method ClaimSlot(ghost quiet: bool) returns (slot: Option<nat>)
      requires Valid()
      modifies segment
      ensures Valid() && segment.log == old(segment.log)
      ensures segment.writeIndex == old(segment.writeIndex) && segment.watermark == old(segment.watermark)
      ensures slot.None? ==> SignsOnly(old(segment.View()), segment.View())
      ensures slot.Some? ==>
                && slot.value < |segment.seqs| && segment.seqs[slot.value] == 0
                && segment.payloads == old(segment.payloads)
                && AgreeExcept(old(segment.View()), segment.View(), slot.value)
      ensures quiet ==>
                (slot.None? <==> forall i :: 0 <= i < |old(segment.seqs)| ==> old(segment.seqs)[i] < 0)
      ensures quiet && slot.None? ==> segment.View() == old(segment.View())
      ensures quiet && slot.Some? ==>
                && IsNearestUnheld(old(segment.seqs), currentIndex, slot.value)
                && segment.seqs == old(segment.seqs)[slot.value := 0]
    {
      ghost var start := segment.View();
      var entryCount := |segment.seqs|;
      for k := 0 to entryCount
        invariant Valid() && segment.log == old(segment.log) && SignsOnly(start, segment.View())
        invariant quiet ==> segment.View() == start && HeldUpTo(start.seqs, currentIndex, k)
      {
        segment.InterfereByReaders(quiet, start);
        var index := Wrap(currentIndex, k, entryCount);
        if segment.seqs[index] < 0 {
          continue;
        }
        // No acquire lands between the load above and the store below.
        StoreKeepsRing(segment.View(), segment.log, index, 0);
        segment.seqs := segment.seqs[index := 0];
        assert AgreeExcept(start, segment.View(), index);
        assert quiet ==> IsNearestUnheld(start.seqs, currentIndex, index);
        return Some(index);
      }
      if quiet {
        AllHeld(start.seqs, currentIndex);
      }
      return None;
    }

    /** Publish a claimed slot under the next sequence number and advance the ring. */
    method Publish(index: nat, ghost quiet: bool) returns (entrySeq: nat)
      requires Valid() && index < |segment.seqs| && lastSeq < I64_MAX
      modifies this, segment
      ensures Valid() && |segment.seqs| == |old(segment.seqs)|
      ensures entrySeq == lastSeq == old(lastSeq) + 1 == segment.watermark
      ensures segment.log == old(segment.log) + [old(segment.payloads[index])]
      ensures currentIndex == Wrap(index, 1, |segment.seqs|) == segment.writeIndex
      ensures AgreeExcept(old(segment.View()), segment.View(), index)
      ensures Abs(segment.seqs[index]) == entrySeq && segment.payloads == old(segment.payloads)
      ensures quiet ==> segment.seqs == old(segment.seqs)[index := entrySeq]
    {
      entrySeq := lastSeq + 1;
      PublishKeepsRing(segment.View(), segment.log, index);
      segment.seqs := segment.seqs[index := AsI64(entrySeq)];
      segment.log := segment.log + [segment.payloads[index]];
      lastSeq := entrySeq;
      currentIndex := Wrap(index, 1, |segment.seqs|);
      ghost var committed := segment.View();
      segment.InterfereByReaders(quiet, committed);
      segment.writeIndex := currentIndex;
      ghost var indexed := segment.View();
      segment.InterfereByReaders(quiet, indexed);
      segment.watermark := entrySeq;
    }

    /**
     * Write one entry. Exactly the caller's bytes are committed, under the next number, whatever
     * readers do meanwhile; an error leaves the log alone.
     */
    method Write(data: seq<byte>, ghost quiet: bool) returns (r: WriteResult, ghost slot: nat)
      requires Valid() && lastSeq < I64_MAX
      modifies this, segment
      ensures Valid()
      ensures r.InvalidArgument? <==> |data| != segment.payloadBytes
      ensures r.InvalidArgument? ==> segment.View() == old(segment.View())
      ensures !r.Written? ==>
                && SignsOnly(old(segment.View()), segment.View()) && segment.log == old(segment.log)
                && lastSeq == old(lastSeq) && currentIndex == old(currentIndex)
      ensures r.Written? ==>
                && lastSeq == old(lastSeq) + 1 == segment.watermark
                && segment.log == old(segment.log) + [data]
                && slot < |segment.seqs| && Abs(segment.seqs[slot]) == lastSeq && segment.payloads[slot] == data
                && AgreeExcept(old(segment.View()), segment.View(), slot)
                && currentIndex == Wrap(slot, 1, |segment.seqs|) == segment.writeIndex
      ensures quiet && |data| == segment.payloadBytes ==>
                (r.Busy? <==> forall i :: 0 <= i < |old(segment.seqs)| ==> old(segment.seqs)[i] < 0)
      ensures quiet && r.Written? ==>
                && IsNearestUnheld(old(segment.seqs), old(currentIndex), slot)
                && segment.seqs == old(segment.seqs)[slot := lastSeq]
    {
      slot := 0;
      if |data| != segment.payloadBytes {
        return InvalidArgument, slot;
      }
      ghost var start := segment.View();
      var claimed := ClaimSlot(quiet);
      if claimed.None? {
        return Busy, slot;
      }
      var index := claimed.value;
      slot := index;
      CopyIn(index, data, quiet);
      ghost var filled := segment.View();
      assert AgreeExcept(start, filled, index);
      assert segment.payloads[index] == data;
      var entrySeq := Publish(index, quiet);
      assert forall j :: 0 <= j < |start.seqs| && j != index ==> Abs(filled.seqs[j]) == Abs(segment.seqs[j]);
      return Written, slot;
    }

    /** The payload copy into a claimed slot, byte by byte. */
    method CopyIn(index: nat, data: seq<byte>, ghost quiet: bool)
      requires Valid() && index < |segment.seqs| && segment.seqs[index] == 0 && |data| == segment.payloadBytes
      modifies segment
      ensures Valid() && segment.log == old(segment.log)
      ensures |segment.seqs| == |old(segment.seqs)| && segment.seqs[index] == 0
      ensures segment.payloads == old(segment.payloads)[index := data]
      ensures SignsOnly(old(segment.View()).(payloads := segment.payloads), segment.View())
      ensures quiet ==> segment.seqs == old(segment.seqs)
    {
      ghost var start := segment.View();
      for j := 0 to |data|
        invariant Valid() && segment.log == old(segment.log)
        invariant |segment.seqs| == |start.seqs| && segment.seqs[index] == 0 && |segment.payloads[index]| == |data|
        invariant segment.payloads == start.payloads[index := segment.payloads[index]]
        invariant segment.payloads[index][..j] == data[..j]
        invariant SignsOnly(start.(payloads := segment.payloads), segment.View())
        invariant quiet ==> segment.seqs == start.seqs
      {
        ghost var now := segment.View();
        segment.InterfereByReaders(quiet, now);
        assert Abs(segment.seqs[index]) == Abs(now.seqs[index]);
        FillKeepsRing(segment.View(), segment.log, index, j, data[j]);
        ghost var bytes := segment.payloads[index];
        segment.payloads := segment.payloads[index := segment.payloads[index][j := data[j]]];
        assert segment.payloads[index][..j] == bytes[..j];
        assert segment.payloads[index][..j + 1] == data[..j + 1];
        assert SignsOnly(start.(payloads := segment.payloads), segment.View()) by {
          forall i | 0 <= i < |start.seqs|
            ensures Abs(start.seqs[i]) == Abs(segment.seqs[i])
          {
            assert Abs(now.seqs[i]) == Abs(segment.seqs[i]);
          }
        }
      }
      assert segment.payloads[index] == segment.payloads[index][..|data|] == data[..|data|] == data;
    }

    /** Acquire the next slot for in-place construction; committing the handle is up to the caller. */
    method TryAcquire(ghost quiet: bool) returns (handle: Option<WriteHandle>)
      requires Valid()
      modifies segment
      ensures Valid() && segment.log == old(segment.log) && segment.payloads == old(segment.payloads)
      ensures segment.writeIndex == old(segment.writeIndex) && segment.watermark == old(segment.watermark)
      ensures handle.None? ==> SignsOnly(old(segment.View()), segment.View())
      ensures handle.Some? ==>
                && handle.value.index < |segment.seqs| && segment.seqs[handle.value.index] == 0
                && AgreeExcept(old(segment.View()), segment.View(), handle.value.index)
      ensures quiet ==> (handle.None? <==> forall i :: 0 <= i < |old(segment.seqs)| ==> old(segment.seqs)[i] < 0)
      ensures quiet && handle.Some? ==>
                && IsNearestUnheld(old(segment.seqs), currentIndex, handle.value.index)
                && segment.seqs == old(segment.seqs)[handle.value.index := 0]
    {
      var slot := ClaimSlot(quiet);
      handle := if slot.None? then None else Some(WriteHandle(slot.value));
    }

    /**
     * Publish the slot of a handle, with whatever payload it has, like a write: header and next index
     * follow. Nothing keeps track of what was claimed.
     */
    method Commit(handle: WriteHandle, ghost quiet: bool) returns (entrySeq: nat)
      requires Valid() && handle.index < |segment.seqs| && lastSeq < I64_MAX
      modifies this, segment
      ensures Valid() && entrySeq == lastSeq == old(lastSeq) + 1 == segment.watermark
      ensures |segment.seqs| == |old(segment.seqs)| && Abs(segment.seqs[handle.index]) == entrySeq
      ensures currentIndex == Wrap(handle.index, 1, |segment.seqs|) == segment.writeIndex
      ensures segment.log == old(segment.log) + [old(segment.payloads[handle.index])]
      ensures segment.payloads == old(segment.payloads)
      ensures AgreeExcept(old(segment.View()), segment.View(), handle.index)
      ensures quiet ==> segment.seqs == old(segment.seqs)[handle.index := entrySeq]
    {
      entrySeq := Publish(handle.index, quiet);
    }
  }

  /** Emptying the nearest unheld slot leaves the held ones before it held. */
  lemma StaysHeld(seqs: seq<int>, start: nat, i: nat) returns (d: nat)
    requires start < |seqs| && i < |seqs| && IsNearestUnheld(seqs, start, i)
    ensures d < |seqs| && i == Wrap(start, d, |seqs|) && HeldUpTo(seqs[i := 0], start, d)
  {
    d :| d < |seqs| && i == Wrap(start, d, |seqs|) && 0 <= seqs[i] && HeldUpTo(seqs, start, d);
    forall e: nat | e < d
      ensures seqs[i := 0][Wrap(start, e, |seqs|)] < 0
    {
      assert seqs[Wrap(start, e, |seqs|)] < 0;
    }
  }

  /**
   * Two write handles at once, even with no reader about: both are the same slot, and although both
   * commits succeed, the first entry is gone from the ring as soon as the second is committed.
   */
  method TwoHandlesOneSlot(writer: RawWriter) returns (slot: nat, first: nat, second: nat)
    requires writer.Valid() && writer.lastSeq + 1 < I64_MAX
    requires exists i :: 0 <= i < |writer.segment.seqs| && 0 <= writer.segment.seqs[i]
    modifies writer, writer.segment
    ensures writer.Valid() && first == old(writer.lastSeq) + 1 && second == first + 1 == |writer.segment.log|
    ensures slot < |writer.segment.seqs| && writer.segment.seqs[slot] == second
    ensures forall i :: 0 <= i < |writer.segment.seqs| ==> Abs(writer.segment.seqs[i]) != first
  {
    ghost var start := writer.segment.seqs;
    forall i | 0 <= i < |start|
      ensures Abs(start[i]) <= writer.lastSeq
    {
      assert SlotInv(start[i], writer.segment.payloads[i], writer.segment.log);
    }
    var a, b := ClaimTwice(writer);
    first := writer.Commit(a, true);
    second := writer.Commit(b, true);
    slot := b.index;
  }

  method ClaimTwice(writer: RawWriter) returns (a: WriteHandle, b: WriteHandle)
    requires writer.Valid() && exists i :: 0 <= i < |writer.segment.seqs| && 0 <= writer.segment.seqs[i]
    modifies writer.segment
    ensures writer.Valid() && writer.segment.log == old(writer.segment.log)
    ensures a == b && a.index < |old(writer.segment.seqs)| == |writer.segment.seqs|
    ensures writer.segment.seqs == old(writer.segment.seqs)[a.index := 0]
  {
    ghost var start := writer.segment.seqs;
    ghost var free :| 0 <= free < |start| && 0 <= start[free];
    var one := writer.TryAcquire(true);
    ghost var claimed := start[one.value.index := 0];
    assert 0 <= claimed[free];
    ghost var d := StaysHeld(start, writer.currentIndex, one.value.index);
    var two := writer.TryAcquire(true);
    SecondClaimSameSlot(claimed, writer.currentIndex, d, two.value.index);
    assert claimed[two.value.index := 0] == claimed;
    return one.value, two.value;
  }
}
