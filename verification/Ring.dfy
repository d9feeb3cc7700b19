/** The shared ring as a value, and what the single-shot operations on it compute. */
module Rings {
  import opened Words

  /** The ring part of a segment: header cursor and watermark, the `entry_seq` words, the payloads. */
  datatype Ring = Ring(payloadBytes: nat, writeIndex: nat, watermark: nat, seqs: seq<int>, payloads: seq<seq<byte>>)

  /** An entry found by `locate`: its slot and its sequence number. */
  datatype Found = Found(index: nat, entrySeq: nat)

  /** Every committed word is backed by the log: its magnitude names the entry its payload holds. */
  ghost predicate RingInv(ring: Ring, log: seq<seq<byte>>) {
    && 0 < |ring.seqs| == |ring.payloads|
    && ring.writeIndex < |ring.seqs|
    && ring.watermark <= |log| <= I64_MAX
    && (forall i :: 0 <= i < |ring.payloads| ==> |ring.payloads[i]| == ring.payloadBytes)
    && (forall i :: 0 <= i < |ring.seqs| ==> SlotInv(ring.seqs[i], ring.payloads[i], log))
    && Distinct(ring.seqs)
  }

  ghost predicate SlotInv(word: int, payload: seq<byte>, log: seq<seq<byte>>) {
    && Abs(word) <= |log|
    && (word != 0 ==> payload == log[Abs(word) - 1])
  }

  /** No two slots carry the same entry. */
  ghost predicate Distinct(seqs: seq<int>) {
    forall i: nat, j: nat {:trigger Differ(seqs, i, j)} :: i < |seqs| && j < |seqs| ==> Differ(seqs, i, j)
  }

  ghost predicate Differ(seqs: seq<int>, i: nat, j: nat)
    requires i < |seqs| && j < |seqs|
  {
    i != j && seqs[i] != 0 ==> Abs(seqs[i]) != Abs(seqs[j])
  }

  /**
   * What one participant may see happen between two of its own steps: the log only grows, and a
   * slot that no longer carries an old entry never carries that entry again.
   */
  ghost predicate Evolves(a: Ring, la: seq<seq<byte>>, b: Ring, lb: seq<seq<byte>>) {
    && |a.seqs| == |b.seqs| && a.payloadBytes == b.payloadBytes
    && la <= lb
    && (forall i :: 0 <= i < |b.seqs| && 0 < Abs(b.seqs[i]) <= |la| ==> Abs(a.seqs[i]) == Abs(b.seqs[i]))
  }

  lemma EvolvesTransitive(a: Ring, la: seq<seq<byte>>, b: Ring, lb: seq<seq<byte>>, c: Ring, lc: seq<seq<byte>>)
    requires Evolves(a, la, b, lb) && Evolves(b, lb, c, lc)
    ensures Evolves(a, la, c, lc)
  {
    forall i | 0 <= i < |c.seqs| && 0 < Abs(c.seqs[i]) <= |la|
      ensures Abs(a.seqs[i]) == Abs(c.seqs[i])
    {
      assert Abs(b.seqs[i]) == Abs(c.seqs[i]);
    }
  }

  /** Two rings that differ at most in which words are negated. */
  ghost predicate SignsOnly(a: Ring, b: Ring) {
    && b == a.(seqs := b.seqs) && |a.seqs| == |b.seqs|
    && forall i :: 0 <= i < |a.seqs| ==> Abs(a.seqs[i]) == Abs(b.seqs[i])
  }

  lemma SignsOnlyTransitive(a: Ring, b: Ring, c: Ring)
    requires SignsOnly(a, b) && SignsOnly(b, c)
    ensures SignsOnly(a, c)
  {
    forall i | 0 <= i < |a.seqs|
      ensures Abs(a.seqs[i]) == Abs(c.seqs[i])
    {
      assert Abs(b.seqs[i]) == Abs(c.seqs[i]);
    }
  }

  // ── locate ──────────────────────────────────────────────────────────────────

  /** One iteration of the scan loop: keep the smaller of `best` and the loaded word, if it qualifies. */
  function Consider(best: Option<Found>, watermark: nat, idx: nat, word: int): Option<Found> {
    if word <= 0 || word <= watermark then best
    else if best.None? || word < best.value.entrySeq then Some(Found(idx, word))
    else best
  }

  /** The whole scan over a ring nobody changes meanwhile. */
  function ScanTo(seqs: seq<int>, watermark: nat, k: nat): Option<Found>
    requires k <= |seqs|
  {
    if k == 0 then None else Consider(ScanTo(seqs, watermark, k - 1), watermark, k - 1, seqs[k - 1])
  }

  /** The slot `locate` probes before it scans: a hit is the very next sequence number. */
  predicate ProbeHits(word: int, watermark: nat)
    requires watermark <= U64_MAX
  {
    0 < word && word == SaturatingSucc(watermark)
  }

  function Locate(seqs: seq<int>, lastIdx: nat, watermark: nat): Option<Found>
    requires lastIdx < |seqs| && watermark <= U64_MAX
  {
    var next := Wrap(lastIdx, 1, |seqs|);
    if ProbeHits(seqs[next], watermark) then Some(Found(next, seqs[next])) else ScanTo(seqs, watermark, |seqs|)
  }

  /** What a read owes its caller: the oldest unheld committed entry newer than the watermark. */
  ghost predicate IsOldestNewer(seqs: seq<int>, watermark: nat, r: Option<Found>) {
    match r
    case None => forall j :: 0 <= j < |seqs| ==> seqs[j] <= watermark
    case Some(f) =>
      && f.index < |seqs| && seqs[f.index] == f.entrySeq && watermark < f.entrySeq
      && (forall j :: 0 <= j < |seqs| && watermark < seqs[j] ==> f.entrySeq <= seqs[j])
  }

  lemma {:induction false} ScanFindsOldest(seqs: seq<int>, watermark: nat, k: nat)
    requires k <= |seqs|
    ensures IsOldestNewer(seqs[..k], watermark, ScanTo(seqs, watermark, k))
  {
    if k > 0 {
      ScanFindsOldest(seqs, watermark, k - 1);
      var before, after := seqs[..k - 1], seqs[..k];
      assert forall j :: 0 <= j < k - 1 ==> after[j] == before[j];
      assert after[k - 1] == seqs[k - 1];
    }
  }

  /** On a ring with distinct entries the answer is determined, index included. */
  lemma OldestNewerUnique(seqs: seq<int>, watermark: nat, a: Option<Found>, b: Option<Found>)
    requires Distinct(seqs)
    requires IsOldestNewer(seqs, watermark, a) && IsOldestNewer(seqs, watermark, b)
    ensures a == b
  {
    if a.Some? && b.Some? {
      assert Differ(seqs, a.value.index, b.value.index);
    }
  }

  /**
   * `locate` with its one-slot probe answers like the full scan, for every watermark and every last
   * index; even where two slots shared an entry, the sequence number would still be the scan's.
   */
  lemma FastPathRefinesScan(seqs: seq<int>, lastIdx: nat, watermark: nat)
    requires lastIdx < |seqs| && watermark <= U64_MAX
    requires forall i :: 0 <= i < |seqs| ==> seqs[i] <= I64_MAX
    ensures IsOldestNewer(seqs, watermark, Locate(seqs, lastIdx, watermark))
    ensures Locate(seqs, lastIdx, watermark).Some? <==> ScanTo(seqs, watermark, |seqs|).Some?
    ensures Locate(seqs, lastIdx, watermark).Some? ==>
              Locate(seqs, lastIdx, watermark).value.entrySeq == ScanTo(seqs, watermark, |seqs|).value.entrySeq
    ensures Distinct(seqs) ==> Locate(seqs, lastIdx, watermark) == ScanTo(seqs, watermark, |seqs|)
  {
    ScanFindsOldest(seqs, watermark, |seqs|);
    assert seqs[..|seqs|] == seqs;
    var next := Wrap(lastIdx, 1, |seqs|);
    if ProbeHits(seqs[next], watermark) {
      assert IsOldestNewer(seqs, watermark, Some(Found(next, seqs[next])));
    }
    if Distinct(seqs) {
      OldestNewerUnique(seqs, watermark, Locate(seqs, lastIdx, watermark), ScanTo(seqs, watermark, |seqs|));
    }
  }

  // ── claim_slot ──────────────────────────────────────────────────────────────

  /** Slot `i` is the first unheld one met when walking forward from `start`. */
  ghost predicate IsNearestUnheld(seqs: seq<int>, start: nat, i: nat)
    requires start < |seqs|
  {
    exists d: nat :: d < |seqs| && i == Wrap(start, d, |seqs|) && 0 <= seqs[i] && HeldUpTo(seqs, start, d)
  }

  ghost predicate HeldUpTo(seqs: seq<int>, start: nat, d: nat)
    requires start < |seqs| && d <= |seqs|
  {
    forall e: nat :: e < d ==> seqs[Wrap(start, e, |seqs|)] < 0
  }

  /** Probing n slots from anywhere without a hit means that every slot of the ring is held. */
  lemma AllHeld(seqs: seq<int>, start: nat)
    requires start < |seqs|
    requires HeldUpTo(seqs, start, |seqs|)
    ensures forall i :: 0 <= i < |seqs| ==> seqs[i] < 0
  {
    forall i | 0 <= i < |seqs|
      ensures seqs[i] < 0
    {
      var d := WrapCovers(start, i, |seqs|);
      assert seqs[Wrap(start, d, |seqs|)] < 0;
    }
  }

  lemma NearestUnheldUnique(seqs: seq<int>, start: nat, i: nat, j: nat)
    requires start < |seqs|
    requires IsNearestUnheld(seqs, start, i) && IsNearestUnheld(seqs, start, j)
    ensures i == j
  {
    var d: nat :| d < |seqs| && i == Wrap(start, d, |seqs|) && 0 <= seqs[i] && HeldUpTo(seqs, start, d);
    var e: nat :| e < |seqs| && j == Wrap(start, e, |seqs|) && 0 <= seqs[j] && HeldUpTo(seqs, start, e);
  }

  /**
   * A second claim before the first is committed: the slot d places on is empty by then, and is handed
   * out again exactly when the held slots before it are still held.
   */
  lemma SecondClaimSameSlot(seqs: seq<int>, start: nat, d: nat, j: nat)
    requires start < |seqs| && d < |seqs| && seqs[Wrap(start, d, |seqs|)] == 0
    requires IsNearestUnheld(seqs, start, j)
    ensures j == Wrap(start, d, |seqs|) <==> HeldUpTo(seqs, start, d)
  {
    var i := Wrap(start, d, |seqs|);
    if HeldUpTo(seqs, start, d) {
      assert IsNearestUnheld(seqs, start, i);
      NearestUnheldUnique(seqs, start, i, j);
    }
  }

  // ── recover_state ───────────────────────────────────────────────────────────

  /** The larger of `floor` and every magnitude among the first `k` words. */
  function MaxMagnitude(seqs: seq<int>, floor: nat, k: nat): (m: nat)
    requires k <= |seqs|
    ensures floor <= m
    ensures forall i :: 0 <= i < k ==> Abs(seqs[i]) <= m
    ensures m == floor || exists i :: 0 <= i < k && Abs(seqs[i]) == m
  {
    if k == 0 then floor
    else
      var m := MaxMagnitude(seqs, floor, k - 1);
      if Abs(seqs[k - 1]) > m then Abs(seqs[k - 1]) else m
  }

  /** The index a recovering writer resumes at, given the recovered maximum. */
  function ResumeIndex(seqs: seq<int>, headerIndex: nat, maxSeq: nat): (r: nat)
    requires 0 < |seqs|
    ensures r < |seqs|
  {
    var at := headerIndex % |seqs|;
    if seqs[at] != 0 && Abs(seqs[at]) == maxSeq then Wrap(at, 1, |seqs|) else at
  }

  /** One more load of the recovery scan, from a ring whose signs have changed since it began. */
  lemma LoadExtendsMaximum(start: seq<int>, now: seq<int>, floor: nat, k: nat)
    requires k < |start| == |now| && Abs(start[k]) == Abs(now[k])
    ensures var m := MaxMagnitude(start, floor, k);
            MaxMagnitude(start, floor, k + 1) == if Abs(now[k]) > m then Abs(now[k]) else m
  {}

  /** What recovery resumes with depends on magnitudes only. */
  lemma ResumeIgnoresSigns(start: seq<int>, now: seq<int>, headerIndex: nat, maxSeq: nat)
    requires 0 < |start| == |now| && forall i :: 0 <= i < |start| ==> Abs(start[i]) == Abs(now[i])
    ensures ResumeIndex(start, headerIndex, maxSeq) == ResumeIndex(now, headerIndex, maxSeq)
  {
    assert Abs(start[headerIndex % |start|]) == Abs(now[headerIndex % |start|]);
  }

  ghost predicate NewestVisible(seqs: seq<int>, newest: nat) {
    exists i :: 0 <= i < |seqs| && Abs(seqs[i]) == newest
  }

  /** A header watermark, however old, together with the words tells the newest number. */
  ghost predicate Informs(seqs: seq<int>, headerSeq: nat, newest: nat) {
    headerSeq <= newest && (headerSeq == newest || NewestVisible(seqs, newest))
  }

  /** The newest entry can be told from the current header or from the ring. */
  ghost predicate Recoverable(ring: Ring, log: seq<seq<byte>>) {
    Informs(ring.seqs, ring.watermark, |log|)
  }

  /**
   * Whatever header it is given, `recover_state` returns the highest committed sequence number
   * exactly when that header and the ring tell it.
   */
  lemma RecoveredNumberExact(ring: Ring, log: seq<seq<byte>>, headerSeq: nat)
    requires RingInv(ring, log)
    ensures MaxMagnitude(ring.seqs, headerSeq, |ring.seqs|) == |log| <==> Informs(ring.seqs, headerSeq, |log|)
  {
    var m := MaxMagnitude(ring.seqs, headerSeq, |ring.seqs|);
    if m != headerSeq {
      var i :| 0 <= i < |ring.seqs| && Abs(ring.seqs[i]) == m;
      assert SlotInv(ring.seqs[i], ring.payloads[i], log);
    }
    if NewestVisible(ring.seqs, |log|) {
      var i :| 0 <= i < |ring.seqs| && Abs(ring.seqs[i]) == |log|;
      assert Abs(ring.seqs[i]) <= m;
    }
  }
}
