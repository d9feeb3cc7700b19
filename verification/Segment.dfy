/** A mapped segment as an object: the words and payloads all participants share. */
module Segments {
  import opened Words
  import opened Rings

  class Segment {
    const payloadBytes: nat
    var writeIndex: nat
    var watermark: nat
    var seqs: seq<int>
    var payloads: seq<seq<byte>>
    ghost var log: seq<seq<byte>>     // log[s - 1] is the payload committed under number s

    ghost function View(): Ring
      reads this
    {
      Ring(payloadBytes, writeIndex, watermark, seqs, payloads)
    }

    ghost predicate Valid()
      reads this
    {
      RingInv(View(), log)
    }

    /** A zeroed ring, as `init_header` leaves it. */
    constructor (payloadBytes: nat, entryCount: nat)
      requires 0 < entryCount
      ensures Valid() && log == [] && this.payloadBytes == payloadBytes
      ensures |seqs| == entryCount && writeIndex == 0 && watermark == 0
      ensures forall i :: 0 <= i < entryCount ==> seqs[i] == 0
    {
      this.payloadBytes := payloadBytes;
      writeIndex, watermark := 0, 0;
      seqs := seq(entryCount, i => 0);
      payloads := seq(entryCount, i => seq(payloadBytes, j => 0 as byte));
      log := [];
    }

    /**
     * Everything the other participants may do between two operations of a reader: any number of
     * steps that evolve the ring. The slots in `still` are ones they leave alone; when `quiet`,
     * nobody else acts. `start` is the segment as some earlier point saw it.
     */
    method Interfere(ghost quiet: bool, ghost still: set<nat>, ghost start: Ring, ghost startLog: seq<seq<byte>>)
      requires Valid() && Evolves(start, startLog, View(), log)
      modifies this
      ensures Valid() && Evolves(old(View()), old(log), View(), log) && Evolves(start, startLog, View(), log)
      ensures forall i :: i in still && i < |seqs| ==> seqs[i] == old(seqs[i])
      ensures quiet ==> View() == old(View()) && log == old(log)
    {}

    /** Everything readers may do between two operations of the writer: pin and unpin committed slots. */
    method InterfereByReaders(ghost quiet: bool, ghost start: Ring)
      requires Valid() && SignsOnly(start, View())
      modifies this
      ensures Valid() && log == old(log) && SignsOnly(old(View()), View()) && SignsOnly(start, View())
      ensures quiet ==> View() == old(View())
    {}
  }
}
