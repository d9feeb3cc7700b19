/** The bytes of a segment: where the words live, and how a segment comes into being. */
module Layout {
  import opened Words

  const HEADER_BYTES: nat := 72
  const SLOT_ALIGN: nat := 8
  const MAGIC: nat := 0x5A43_484E
  const VERSION: nat := 1
  const MAGIC_VERSION: nat := MAGIC * 0x1_0000_0000 + VERSION

  // Word indices of the header fields (byte offset divided by 8).
  const AT_MAGIC: nat := 0
  const AT_PAYLOAD_BYTES: nat := 1
  const AT_ENTRY_COUNT: nat := 2
  const AT_DTYPE: nat := 3
  const AT_SEGMENT_OWNER: nat := 4
  const AT_WRITE_INDEX: nat := 7
  const AT_LAST_ENTRY_SEQ: nat := 8

  datatype Dtype = U8 | I64 | F64 {
    function Code(): nat {
      match this case U8 => 0 case I64 => 1 case F64 => 2
    }
  }

  /** The codes on the wire tell the types apart. */
  lemma CodesDiffer(a: Dtype, b: Dtype)
    ensures [U8.Code(), I64.Code(), F64.Code()] == [0, 1, 2]
    ensures a.Code() == b.Code() <==> a == b
  {}

  datatype Header = Header(payloadBytes: nat, entryCount: nat, writeIndex: nat, dtype: nat, lastEntrySeq: nat)

  // ── Geometry ────────────────────────────────────────────────────────────────

  function EntryBytes(payloadBytes: nat): nat {
    SLOT_ALIGN + payloadBytes
  }

  function RequiredBytes(payloadBytes: nat, entryCount: nat): nat {
    HEADER_BYTES + entryCount * EntryBytes(payloadBytes)
  }

  /** Byte offset of the `entry_seq` word of a slot. */
  function SeqOffset(payloadBytes: nat, idx: nat): nat {
    HEADER_BYTES + idx * EntryBytes(payloadBytes)
  }

  function PayloadOffset(payloadBytes: nat, idx: nat): nat {
    HEADER_BYTES + idx * EntryBytes(payloadBytes) + SLOT_ALIGN
  }

  /** `check_geometry`: non-zero sizes, and payloads that keep every slot word aligned. */
  predicate GeometryOk(payloadBytes: nat, entryCount: nat) {
    payloadBytes != 0 && entryCount != 0 && payloadBytes % SLOT_ALIGN == 0
  }

  /**
   * What the geometry check is for: it accepts exactly the non-empty geometries in which every slot
   * begins, and the last one ends, on a word boundary.
   */
  lemma GeometryExact(payloadBytes: nat, entryCount: nat)
    ensures GeometryOk(payloadBytes, entryCount) <==>
            && payloadBytes > 0 && entryCount > 0
            && forall i: nat :: i <= entryCount ==> SeqOffset(payloadBytes, i) % 8 == 0
  {
    if GeometryOk(payloadBytes, entryCount) {
      forall i: nat | i <= entryCount
        ensures SeqOffset(payloadBytes, i) % 8 == 0
      {
        SlotAligned(payloadBytes, i);
      }
    } else if entryCount > 0 {
      assert SeqOffset(payloadBytes, 1) == 80 + payloadBytes;
    }
  }

  lemma {:induction false} SlotsApart(payloadBytes: nat, i: nat, j: nat)
    requires i < j
    ensures SeqOffset(payloadBytes, i) + EntryBytes(payloadBytes) <= SeqOffset(payloadBytes, j)
    decreases j
  {
    var e := EntryBytes(payloadBytes);
    assert (j - 1) * e + e == j * e;
    if i < j - 1 {
      SlotsApart(payloadBytes, i, j - 1);
    }
  }

  lemma AlignedSum(a: nat, k: nat, e: nat)
    requires a % 8 == 0 && e % 8 == 0
    ensures (a + k * e) % 8 == 0
  {
    var q := e / 8;
    assert k * e == (k * q) * 8 by {
      assert e == q * 8;
    }
  }

  lemma SlotAligned(payloadBytes: nat, i: nat)
    requires payloadBytes % SLOT_ALIGN == 0
    ensures SeqOffset(payloadBytes, i) % SLOT_ALIGN == 0 && PayloadOffset(payloadBytes, i) % SLOT_ALIGN == 0
  {
    AlignedSum(HEADER_BYTES, i, EntryBytes(payloadBytes));
    AlignedSum(HEADER_BYTES + SLOT_ALIGN, i, EntryBytes(payloadBytes));
  }

  lemma SlotInside(payloadBytes: nat, entryCount: nat, i: nat)
    requires i < entryCount
    ensures HEADER_BYTES <= SeqOffset(payloadBytes, i)
    ensures SeqOffset(payloadBytes, i) + SLOT_ALIGN == PayloadOffset(payloadBytes, i)
    ensures PayloadOffset(payloadBytes, i) + payloadBytes <= RequiredBytes(payloadBytes, entryCount)
  {
    SlotsApart(payloadBytes, i, entryCount);
  }

  /** Slot i of the segment, its word and its payload, is aligned and lies between the header and the end. */
  predicate SlotPlaced(payloadBytes: nat, entryCount: nat, i: nat) {
    && SeqOffset(payloadBytes, i) % SLOT_ALIGN == 0 && PayloadOffset(payloadBytes, i) % SLOT_ALIGN == 0
    && HEADER_BYTES <= SeqOffset(payloadBytes, i)
    && SeqOffset(payloadBytes, i) + SLOT_ALIGN == PayloadOffset(payloadBytes, i)
    && PayloadOffset(payloadBytes, i) + payloadBytes <= RequiredBytes(payloadBytes, entryCount)
  }

  /** The bytes of slots i and j, word and payload, do not overlap. */
  predicate SlotsDisjoint(payloadBytes: nat, i: nat, j: nat) {
    || PayloadOffset(payloadBytes, i) + payloadBytes <= SeqOffset(payloadBytes, j)
    || PayloadOffset(payloadBytes, j) + payloadBytes <= SeqOffset(payloadBytes, i)
  }

  /**
   * Layout soundness: for every accepted geometry, one slot included, each slot's word is aligned,
   * follows the header, is followed at once by its payload, and both lie inside the segment and clear
   * of every other slot. So no offset overflows if the segment's size does not.
   */
  lemma LayoutSound(payloadBytes: nat, entryCount: nat)
    requires GeometryOk(payloadBytes, entryCount)
    ensures forall i: nat :: i < entryCount ==> SlotPlaced(payloadBytes, entryCount, i)
    ensures forall i: nat, j: nat :: i < entryCount && j < entryCount && i != j ==> SlotsDisjoint(payloadBytes, i, j)
  {
    forall i: nat | i < entryCount
      ensures SlotPlaced(payloadBytes, entryCount, i)
    {
      SlotAligned(payloadBytes, i);
      SlotInside(payloadBytes, entryCount, i);
    }
    forall i: nat, j: nat | i < entryCount && j < entryCount && i != j
      ensures SlotsDisjoint(payloadBytes, i, j)
    {
      if i < j {
        SlotsApart(payloadBytes, i, j);
      } else {
        SlotsApart(payloadBytes, j, i);
      }
    }
  }

  /** Alignment of every slot word is exactly what the payload check is for. */
  lemma AlignmentNeedsCheck(payloadBytes: nat, entryCount: nat)
    requires 2 <= entryCount
    ensures payloadBytes % SLOT_ALIGN == 0 <==>
            forall i: nat :: i < entryCount ==> SeqOffset(payloadBytes, i) % SLOT_ALIGN == 0
  {
    if payloadBytes % SLOT_ALIGN == 0 {
      forall i: nat | i < entryCount
        ensures SeqOffset(payloadBytes, i) % SLOT_ALIGN == 0
      {
        AlignedSum(HEADER_BYTES, i, EntryBytes(payloadBytes));
      }
    } else {
      assert SeqOffset(payloadBytes, 1) == HEADER_BYTES + SLOT_ALIGN + payloadBytes;
    }
  }

  // ── Reading a header ────────────────────────────────────────────────────────

  datatype HeaderRead = NotReady | NotZeroChannel | WrongVersion(found: nat) | Ready(header: Header)

  /** `read_header` over the segment's words. */
  function ReadHeader(words: seq<nat>): HeaderRead
    requires 9 <= |words|
  {
    var magic := words[AT_MAGIC];
    if magic == 0 then NotReady
    else if magic != MAGIC_VERSION then
      if magic / 0x1_0000_0000 != MAGIC then NotZeroChannel else WrongVersion(magic % 0x1_0000_0000)
    else
      Ready(Header(words[AT_PAYLOAD_BYTES], words[AT_ENTRY_COUNT], words[AT_WRITE_INDEX], words[AT_DTYPE],
                   words[AT_LAST_ENTRY_SEQ]))
  }

  /** A peer trusts exactly its own magic and version, waits on zero, and tells a foreign segment from an old layout. */
  lemma HeaderVerdict(words: seq<nat>, magic: nat, version: nat)
    requires 9 <= |words| && version < 0x1_0000_0000 && words[AT_MAGIC] == magic * 0x1_0000_0000 + version
    ensures ReadHeader(words).Ready? <==> magic == MAGIC && version == VERSION
    ensures ReadHeader(words).NotReady? <==> magic == 0 && version == 0
    ensures ReadHeader(words).WrongVersion? <==> magic == MAGIC && version != VERSION
    ensures ReadHeader(words).WrongVersion? ==> ReadHeader(words).found == version
  {
    assert words[AT_MAGIC] / 0x1_0000_0000 == magic;
  }

  // ── Laying down a header ────────────────────────────────────────────────────

  /** What `init_header` is asked to lay down. */
  datatype Plan = Plan(payloadBytes: nat, entryCount: nat, dtype: Dtype, owner: nat)

  /** Stores before the geometry: one zero per word of the segment. */
  function ZeroStores(plan: Plan): nat {
    9 + plan.entryCount * (1 + plan.payloadBytes / 8)
  }

  function AllStores(plan: Plan): nat {
    ZeroStores(plan) + 5
  }

  /** The segment's words are its required bytes. */
  lemma WordsAreBytes(plan: Plan)
    requires GeometryOk(plan.payloadBytes, plan.entryCount)
    ensures ZeroStores(plan) * 8 == RequiredBytes(plan.payloadBytes, plan.entryCount)
  {
    var p, e := plan.payloadBytes / 8, plan.entryCount;
    assert plan.payloadBytes == p * 8;
    assert e * (1 + p) * 8 == e * ((1 + p) * 8);
  }

  /** The words after the first k stores of `init_header`; its last store is the magic. */
  function AfterInit(words: seq<nat>, plan: Plan, k: nat): (r: seq<nat>)
    requires ZeroStores(plan) <= |words| && k <= AllStores(plan)
    ensures |r| == |words|
  {
    if k == 0 then words
    else
      var before, zeros := AfterInit(words, plan, k - 1), ZeroStores(plan);
      if k <= zeros then before[k - 1 := 0]
      else if k == zeros + 1 then before[AT_PAYLOAD_BYTES := plan.payloadBytes]
      else if k == zeros + 2 then before[AT_ENTRY_COUNT := plan.entryCount]
      else if k == zeros + 3 then before[AT_DTYPE := plan.dtype.Code()]
      else if k == zeros + 4 then before[AT_SEGMENT_OWNER := plan.owner]
      else before[AT_MAGIC := MAGIC_VERSION]
  }

  lemma {:induction false} AfterZeroing(words: seq<nat>, plan: Plan, k: nat)
    requires ZeroStores(plan) <= |words| && k <= ZeroStores(plan)
    ensures forall i :: 0 <= i < k ==> AfterInit(words, plan, k)[i] == 0
    ensures forall i :: k <= i < |words| ==> AfterInit(words, plan, k)[i] == words[i]
  {
    if k > 0 {
      AfterZeroing(words, plan, k - 1);
    }
  }

  /** The header after the zeroing and the four stores of geometry and owner. */
  lemma {:induction false} AfterGeometry(words: seq<nat>, plan: Plan, k: nat)
    requires ZeroStores(plan) <= |words| && ZeroStores(plan) < k <= AllStores(plan)
    ensures AfterInit(words, plan, k)[AT_MAGIC] == if k == AllStores(plan) then MAGIC_VERSION else 0
    ensures forall i :: 5 <= i < ZeroStores(plan) ==> AfterInit(words, plan, k)[i] == 0
    ensures k + 1 >= AllStores(plan) ==>
              AfterInit(words, plan, k)[1..5] == [plan.payloadBytes, plan.entryCount, plan.dtype.Code(), plan.owner]
  {
    var z := ZeroStores(plan);
    AfterZeroing(words, plan, z);
    var w0, w1, w2, w3, w4 := AfterInit(words, plan, z), AfterInit(words, plan, z + 1), AfterInit(words, plan, z + 2),
                              AfterInit(words, plan, z + 3), AfterInit(words, plan, z + 4);
    assert w1 == w0[AT_PAYLOAD_BYTES := plan.payloadBytes];
    assert w2 == w1[AT_ENTRY_COUNT := plan.entryCount];
    assert w3 == w2[AT_DTYPE := plan.dtype.Code()];
    assert w4 == w3[AT_SEGMENT_OWNER := plan.owner];
    assert AfterInit(words, plan, z + 5) == w4[AT_MAGIC := MAGIC_VERSION];
  }

  /**
   * The magic is a latch: starting from an unlatched segment, whatever else it contains, a peer that
   * reads the header after any prefix of the stores sees either nothing or exactly the declared
   * geometry and type with cursor and watermark at zero, and then the creator is already its owner
   * and both role cells are free.
   */
  lemma {:induction false} InitLatch(words: seq<nat>, plan: Plan, k: nat)
    requires ZeroStores(plan) <= |words| && k <= AllStores(plan) && words[AT_MAGIC] == 0
    ensures var now := AfterInit(words, plan, k);
            if k < AllStores(plan) then ReadHeader(now) == NotReady
            else && ReadHeader(now) == Ready(Header(plan.payloadBytes, plan.entryCount, 0, plan.dtype.Code(), 0))
                 && now[AT_SEGMENT_OWNER] == plan.owner && now[40 / 8] == 0 && now[48 / 8] == 0
                 && forall i :: 9 <= i < ZeroStores(plan) ==> now[i] == 0
  {
    if k <= ZeroStores(plan) {
      AfterZeroing(words, plan, k);
    } else {
      AfterGeometry(words, plan, k);
      var now := AfterInit(words, plan, k);
      assert k == AllStores(plan) ==> forall i :: 1 <= i < 5 ==> now[i] == now[1..5][i - 1];
    }
  }

  lemma NineWords(now: seq<nat>, fields: seq<nat>)
    requires 9 <= |now| && |fields| == 4 && now[0] == 0x5A43_484E_0000_0001 && now[1..5] == fields
    requires forall i :: 5 <= i < 9 ==> now[i] == 0
    ensures now[..9] == [0x5A43_484E_0000_0001, fields[0], fields[1], fields[2], fields[3], 0, 0, 0, 0]
  {
    assert forall i :: 1 <= i < 5 ==> now[i] == now[1..5][i - 1];
  }

  /** The header of a segment just initialized, word by word from offset 0. */
  lemma {:induction false} InitialWords(words: seq<nat>, plan: Plan)
    requires ZeroStores(plan) <= |words|
    ensures AfterInit(words, plan, AllStores(plan))[..9] ==
            [0x5A43_484E_0000_0001, plan.payloadBytes, plan.entryCount, plan.dtype.Code(), plan.owner, 0, 0, 0, 0]
  {
    AfterGeometry(words, plan, AllStores(plan));
    NineWords(AfterInit(words, plan, AllStores(plan)),
              [plan.payloadBytes, plan.entryCount, plan.dtype.Code(), plan.owner]);
  }

  /** The owner words, the write index at byte 56 and the sequence number at byte 64 are set; the rest stays. */
  function InUse(words: seq<nat>, owners: seq<nat>, index: nat, entrySeq: nat): seq<nat>
    requires 9 <= |words| && |owners| == 3
  {
    words[..4] + owners + [index, entrySeq] + words[9..]
  }

  /**
   * What a peer decodes from a segment in use: whatever the owner words hold, the write index that a
   * publish put at byte 56 and the number it put at byte 64, with geometry and type as they were.
   */
  lemma DecodesPublished(words: seq<nat>, owners: seq<nat>, index: nat, entrySeq: nat)
    requires 9 <= |words| && |owners| == 3 && ReadHeader(words).Ready?
    ensures var was := ReadHeader(words).header;
            ReadHeader(InUse(words, owners, index, entrySeq)) ==
            Ready(Header(was.payloadBytes, was.entryCount, index, was.dtype, entrySeq))
  {
    var used := InUse(words, owners, index, entrySeq);
    assert forall i :: 0 <= i < 4 ==> used[i] == words[i];
    assert used[7] == index && used[8] == entrySeq;
  }

  /** `init_header` itself, store by store. */
  method InitHeader(words: array<nat>, plan: Plan)
    requires ZeroStores(plan) <= words.Length
    modifies words
    ensures words[..] == AfterInit(old(words[..]), plan, AllStores(plan))
    ensures forall i :: ZeroStores(plan) <= i < words.Length ==> words[i] == old(words[i])
    ensures ReadHeader(words[..]) == Ready(Header(plan.payloadBytes, plan.entryCount, 0, plan.dtype.Code(), 0))
  {
    ghost var start := words[..];
    var zeros := ZeroStores(plan);
    for i := 0 to zeros
      invariant words[..] == AfterInit(start, plan, i)
    {
      words[i] := 0;
    }
    AfterZeroing(start, plan, zeros);
    words[AT_PAYLOAD_BYTES] := plan.payloadBytes;
    assert words[..] == AfterInit(start, plan, zeros + 1);
    words[AT_ENTRY_COUNT] := plan.entryCount;
    assert words[..] == AfterInit(start, plan, zeros + 2);
    words[AT_DTYPE] := plan.dtype.Code();
    assert words[..] == AfterInit(start, plan, zeros + 3);
    words[AT_SEGMENT_OWNER] := plan.owner;
    assert words[..] == AfterInit(start, plan, zeros + 4);
    words[AT_MAGIC] := MAGIC_VERSION;
    assert words[..] == AfterInit(start, plan, zeros + 5);
    AfterGeometry(start, plan, zeros + 5);
    assert forall i :: 1 <= i < 5 ==> words[..][i] == words[..][1..5][i - 1];
  }
}
