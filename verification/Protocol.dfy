/**
 * The ring protocol as a concurrent state machine. One event is one atomic operation on the shared
 * segment (a load, a store, a compare-and-swap, one payload byte) or one local decision; a run is
 * any interleaving of one writer, any number of readers and any number of writer crashes.
 */
module Protocol {
  import opened Words
  import opened Rings

  /** How many times a read retries after losing its slot. */
  const READ_RETRIES: nat := 4

  // ── Actors ──────────────────────────────────────────────────────────────────

  datatype WriterPc =
    | Down                                                           // no writer is bound
    | Recovering(headerIndex: nat, headerSeq: nat, i: nat, maxSeq: nat) // `recover_state`, before word i
    | Idle
    | Probing(k: nat)                                                // `claim_slot`, before its k-th load
    | Loaded(index: nat)                                             // loaded a word >= 0, zero not stored yet
    | Filling(index: nat)                                            // the slot is claimed and being written
    | Committed(index: nat)                                          // slot stored, header index not yet
    | Indexed(index: nat)                                            // header index stored, watermark not yet

  datatype Writer = Writer(pc: WriterPc, currentIndex: nat, lastSeq: nat)

  datatype Mode = OneCopy | ZeroCopy

  /** A call of `read_into` or `try_acquire`: its effective watermark, and whether the caller supplied it. */
  datatype Call = Call(mode: Mode, watermark: nat, overridden: bool)

  datatype ReaderPc =
    | Resting
    | Probe(call: Call, tries: nat)                                  // before the one-slot probe of `locate`
    | Scan(call: Call, tries: nat, idx: nat, best: Option<Found>)    // before the scan's load of word idx
    | Located(call: Call, tries: nat, at: Found, copied: set<nat>)   // copying, or about to compare-and-swap

  /** One entry returned to a reader's caller. */
  datatype Delivery = Delivery(entrySeq: nat, watermark: nat, overridden: bool, payload: seq<byte>)

  datatype Reader = Reader(lastSeq: nat, lastIdx: nat, dst: seq<byte>, pc: ReaderPc, deliveries: seq<Delivery>)

  /**
   * `log[s - 1]` is the payload committed under sequence number s; it grows only at the slot store.
   * `handles` maps a slot to the entry its latest outstanding read handle names; `leaked` holds the
   * slots whose handle was lost without a release. `strays` are the outstanding handles on slots that
   * have been acquired again since, which takes a broken pin.
   */
  datatype State = State(
    ring: Ring, log: seq<seq<byte>>, writer: Writer,
    readers: map<nat, Reader>, handles: map<nat, nat>, leaked: set<nat>, strays: multiset<Found>)

  ghost predicate Fresh(s: State) {
    && 0 < |s.ring.seqs| == |s.ring.payloads|
    && (forall i :: 0 <= i < |s.ring.seqs| ==> s.ring.seqs[i] == 0)
    && (forall i :: 0 <= i < |s.ring.payloads| ==> |s.ring.payloads[i]| == s.ring.payloadBytes)
    && s.ring.writeIndex == 0 && s.ring.watermark == 0
    && s.log == [] && s.writer.pc == Down && s.readers == map[]
    && s.handles == map[] && s.leaked == {} && s.strays == multiset{}
  }

  // ── Events ──────────────────────────────────────────────────────────────────

  datatype Event =
    | Attach(headerIndex: nat, headerSeq: nat)   // a writer binds, with the header it decoded earlier
    | RecoverLoad                                // the next load of `recover_state`
    | BeginClaim
    | ProbeSlot                                  // the load of `claim_slot`
    | ZeroSlot                                   // the store of `claim_slot`
    | FillByte(j: nat, b: byte)                  // one payload byte, by copy or through a write handle
    | AbandonClaim                               // a write handle dropped without commit
    | StoreSlot                                  // the three stores of `publish`
    | StoreIndex
    | StoreWatermark
    | Crash
    | OpenReader(r: nat)
    | CloseReader(r: nat)
    | StartRead(r: nat, mode: Mode, from: Option<nat>, dst: seq<byte>)
    | LoadProbe(r: nat)
    | LoadScan(r: nat)
    | CopyByte(r: nat, j: nat)
    | Recheck(r: nat)
    | Swap(r: nat)                               // the acquire compare-and-swap
    | ReleaseHandle(i: nat)
    | ReleaseStray(at: Found)
    | LeakHandle(i: nat)

  predicate WriterEvent(e: Event) {
    || e.Attach? || e.RecoverLoad? || e.BeginClaim? || e.ProbeSlot? || e.ZeroSlot? || e.FillByte?
    || e.AbandonClaim? || e.StoreSlot? || e.StoreIndex? || e.StoreWatermark? || e.Crash?
  }

  // ── Writer steps ────────────────────────────────────────────────────────────

  ghost predicate WriterCan(s: State, e: Event) {
    var n := |s.ring.seqs|;
    match e
    case Attach(_, _) => s.writer.pc.Down?
    case RecoverLoad => s.writer.pc.Recovering? && s.writer.pc.i <= n && 0 < n
    case BeginClaim => s.writer.pc.Idle?
    case ProbeSlot => s.writer.pc.Probing? && s.writer.currentIndex < n && s.writer.pc.k < n
    case ZeroSlot => s.writer.pc.Loaded? && s.writer.pc.index < n
    case FillByte(j, _) =>
      s.writer.pc.Filling? && s.writer.pc.index < |s.ring.payloads| && j < |s.ring.payloads[s.writer.pc.index]|
    case AbandonClaim => s.writer.pc.Filling?
    case StoreSlot => s.writer.pc.Filling? && s.writer.pc.index < n == |s.ring.payloads| && s.writer.lastSeq < I64_MAX
    case StoreIndex => s.writer.pc.Committed?
    case StoreWatermark => s.writer.pc.Indexed?
    case Crash => !s.writer.pc.Down?
    case _ => false
  }

  function Store(ring: Ring, i: nat, word: int): Ring
    requires i < |ring.seqs|
  {
    ring.(seqs := ring.seqs[i := word])
  }

  ghost function WriterStep(s: State, e: Event): State
    requires WriterCan(s, e)
  {
    var w, ring, n := s.writer, s.ring, |s.ring.seqs|;
    match e
    case Attach(headerIndex, headerSeq) => s.(writer := w.(pc := Recovering(headerIndex, headerSeq, 0, headerSeq)))
    case RecoverLoad => s.(writer := RecoverStep(w, ring))
    case BeginClaim => s.(writer := w.(pc := Probing(0)))
    case ProbeSlot => s.(writer := w.(pc := AfterProbe(w, ring)))
    case ZeroSlot => s.(ring := Store(ring, w.pc.index, 0), writer := w.(pc := Filling(w.pc.index)))
    case FillByte(j, b) =>
      var i := w.pc.index;
      s.(ring := ring.(payloads := ring.payloads[i := ring.payloads[i][j := b]]))
    case AbandonClaim => s.(writer := w.(pc := Idle))
    case StoreSlot =>
      var i := w.pc.index;
      s.(ring := Store(ring, i, AsI64(w.lastSeq + 1)),
         log := s.log + [ring.payloads[i]],
         writer := Writer(Committed(i), Wrap(i, 1, n), w.lastSeq + 1))
    case StoreIndex => s.(ring := ring.(writeIndex := w.currentIndex), writer := w.(pc := Indexed(w.pc.index)))
    case StoreWatermark => s.(ring := ring.(watermark := w.lastSeq), writer := w.(pc := Idle))
    case Crash => s.(writer := w.(pc := Down))
    case _ => s
  }

  /** One load of `recover_state`: a word of the scan, or at its end the word at the header's index. */
  function RecoverStep(w: Writer, ring: Ring): Writer
    requires w.pc.Recovering? && w.pc.i <= |ring.seqs| && 0 < |ring.seqs|
  {
    var p := w.pc;
    if p.i < |ring.seqs| then
      var magnitude := Abs(ring.seqs[p.i]);
      w.(pc := p.(i := p.i + 1, maxSeq := if magnitude > p.maxSeq then magnitude else p.maxSeq))
    else
      Writer(Idle, ResumeIndex(ring.seqs, p.headerIndex, p.maxSeq), p.maxSeq)
  }

  /** One load of `claim_slot`: take an unheld slot, skip a held one, give up (`Busy`) after n of them. */
  function AfterProbe(w: Writer, ring: Ring): WriterPc
    requires w.pc.Probing? && w.currentIndex < |ring.seqs| && w.pc.k < |ring.seqs|
  {
    var index := Wrap(w.currentIndex, w.pc.k, |ring.seqs|);
    if 0 <= ring.seqs[index] then Loaded(index)
    else if w.pc.k + 1 < |ring.seqs| then Probing(w.pc.k + 1)
    else Idle
  }

  // ── Reader steps ────────────────────────────────────────────────────────────

  ghost predicate ReaderCan(s: State, e: Event) {
    var n := |s.ring.seqs|;
    match e
    case OpenReader(r) => r !in s.readers
    case CloseReader(r) => r in s.readers
    case StartRead(r, _, from, dst) =>
      && r in s.readers && s.readers[r].pc.Resting? && |dst| == s.ring.payloadBytes
      && (from.Some? ==> from.value <= U64_MAX)
    case LoadProbe(r) =>
      r in s.readers && s.readers[r].pc.Probe? && s.readers[r].lastIdx < n && s.readers[r].pc.call.watermark <= U64_MAX
    case LoadScan(r) => r in s.readers && s.readers[r].pc.Scan? && s.readers[r].pc.idx <= n
    case CopyByte(r, j) =>
      && r in s.readers && s.readers[r].pc.Located? && s.readers[r].pc.call.mode.OneCopy?
      && s.readers[r].pc.at.index < |s.ring.payloads|
      && j < |s.readers[r].dst| == |s.ring.payloads[s.readers[r].pc.at.index]|
    case Recheck(r) =>
      && r in s.readers && s.readers[r].pc.Located? && s.readers[r].pc.call.mode.OneCopy?
      && s.readers[r].pc.at.index < n
      && (forall j :: 0 <= j < |s.readers[r].dst| ==> j in s.readers[r].pc.copied)
    case Swap(r) =>
      && r in s.readers && s.readers[r].pc.Located? && s.readers[r].pc.call.mode.ZeroCopy?
      && s.readers[r].pc.at.index < n == |s.ring.payloads|
    case ReleaseHandle(i) => i in s.handles && i < n
    case ReleaseStray(at) => at in s.strays && at.index < n
    case LeakHandle(i) => i in s.handles
    case _ => false
  }

  ghost function ReaderStep(s: State, e: Event): State
    requires ReaderCan(s, e)
  {
    match e
    case OpenReader(r) => s.(readers := s.readers[r := Reader(0, 0, [], Resting, [])])
    case CloseReader(r) => s.(readers := s.readers - {r})
    case StartRead(r, mode, from, dst) =>
      s.(readers := s.readers[r := Start(s.readers[r], s.ring.watermark, mode, from, dst)])
    case LoadProbe(r) => s.(readers := s.readers[r := AfterLoadProbe(s.readers[r], s.ring.seqs)])
    case LoadScan(r) => s.(readers := s.readers[r := AfterLoadScan(s.readers[r], s.ring.seqs)])
    case CopyByte(r, j) =>
      var rd := s.readers[r];
      s.(readers := s.readers[r := rd.(dst := rd.dst[j := s.ring.payloads[rd.pc.at.index][j]],
                                       pc := rd.pc.(copied := rd.pc.copied + {j}))])
    case Recheck(r) =>
      var rd := s.readers[r];
      var intact := s.ring.seqs[rd.pc.at.index] == AsI64(rd.pc.at.entrySeq);
      s.(readers := s.readers[r := if intact then Deliver(rd, rd.dst) else Retry(rd)])
    case Swap(r) =>
      var rd := s.readers[r];
      var i := rd.pc.at.index;
      if s.ring.seqs[i] == AsI64(rd.pc.at.entrySeq) then
        s.(ring := Store(s.ring, i, -AsI64(rd.pc.at.entrySeq)),
           readers := s.readers[r := Deliver(rd, s.ring.payloads[i])],
           handles := s.handles[i := rd.pc.at.entrySeq],
           strays := if i in s.handles then s.strays + multiset{Found(i, s.handles[i])} else s.strays)
      else
        s.(readers := s.readers[r := Retry(rd)])
    case ReleaseHandle(i) => s.(ring := Store(s.ring, i, s.handles[i]), handles := s.handles - {i})
    case ReleaseStray(at) => s.(ring := Store(s.ring, at.index, at.entrySeq), strays := s.strays - multiset{at})
    case LeakHandle(i) => s.(handles := s.handles - {i}, leaked := s.leaked + {i})
    case _ => s
  }

  /** `watermark`, then the first iteration of the retry loop unless the reader is up to date. */
  function Start(rd: Reader, header: nat, mode: Mode, from: Option<nat>, dst: seq<byte>): Reader {
    var watermark := if from.Some? then from.value else rd.lastSeq;
    if header <= watermark then rd.(dst := dst)
    else rd.(dst := dst, pc := Probe(Call(mode, watermark, from.Some?), READ_RETRIES))
  }

  function AfterLoadProbe(rd: Reader, seqs: seq<int>): Reader
    requires rd.pc.Probe? && rd.lastIdx < |seqs| && rd.pc.call.watermark <= U64_MAX
  {
    var next := Wrap(rd.lastIdx, 1, |seqs|);
    if ProbeHits(seqs[next], rd.pc.call.watermark) then
      rd.(pc := Located(rd.pc.call, rd.pc.tries, Found(next, seqs[next]), {}))
    else
      rd.(pc := Scan(rd.pc.call, rd.pc.tries, 0, None))
  }

  function AfterLoadScan(rd: Reader, seqs: seq<int>): Reader
    requires rd.pc.Scan? && rd.pc.idx <= |seqs|
  {
    var p := rd.pc;
    if p.idx < |seqs| then
      rd.(pc := p.(idx := p.idx + 1, best := Consider(p.best, p.call.watermark, p.idx, seqs[p.idx])))
    else if p.best.Some? then rd.(pc := Located(p.call, p.tries, p.best.value, {}))
    else rd.(pc := Resting)
  }

  function Deliver(rd: Reader, payload: seq<byte>): Reader
    requires rd.pc.Located?
  {
    var at, call := rd.pc.at, rd.pc.call;
    Reader(at.entrySeq, at.index, rd.dst, Resting,
           rd.deliveries + [Delivery(at.entrySeq, call.watermark, call.overridden, payload)])
  }

  function Retry(rd: Reader): Reader
    requires rd.pc.Located?
  {
    if rd.pc.tries <= 1 then rd.(pc := Resting) else rd.(pc := Probe(rd.pc.call, rd.pc.tries - 1))
  }

  // ── Runs ────────────────────────────────────────────────────────────────────

  ghost predicate Can(s: State, e: Event) {
    if WriterEvent(e) then WriterCan(s, e) else ReaderCan(s, e)
  }

  ghost function Step(s: State, e: Event): State
    requires Can(s, e)
  {
    if WriterEvent(e) then WriterStep(s, e) else ReaderStep(s, e)
  }

  datatype Run = Run(states: seq<State>, events: seq<Event>)

  /** A run: any number of steps from a freshly initialized segment. */
  ghost predicate IsRun(run: Run) {
    && |run.states| == |run.events| + 1
    && Fresh(run.states[0])
    && forall k :: 0 <= k < |run.events| ==> IsStep(run, k)
  }

  ghost predicate IsStep(run: Run, k: nat)
    requires |run.states| == |run.events| + 1 && k < |run.events|
  {
    Can(run.states[k], run.events[k]) && run.states[k + 1] == Step(run.states[k], run.events[k])
  }

  // ── What the code leaves to its environment ─────────────────────────────────

  /** No acquire lands on a slot between the load and the store of `claim_slot`. */
  ghost predicate OutsideClaimWindow(s: State, e: Event) {
    (e.Swap? && e.r in s.readers && s.readers[e.r].pc.Located? && s.writer.pc.Loaded?) ==>
      s.readers[e.r].pc.at.index != s.writer.pc.index
  }

  /** A slot store takes the number after the highest ever committed. */
  ghost predicate IssuesNext(s: State, e: Event) {
    e.StoreSlot? ==> s.writer.lastSeq == |s.log|
  }

  /** The header a writer attaches with, however old, and the ring it finds tell the highest number. */
  ghost predicate Informed(s: State, e: Event) {
    e.Attach? ==> Informs(s.ring.seqs, e.headerSeq, |s.log|)
  }

  /** The header a writer attaches with is the segment's current one. */
  ghost predicate HeaderCurrent(s: State, e: Event) {
    e.Attach? ==> e.headerIndex == s.ring.writeIndex && e.headerSeq == s.ring.watermark
  }

  /** The newest entry is not zeroed while the header does not know its number yet. */
  ghost predicate SafeClaim(s: State, e: Event) {
    (e.ZeroSlot? && s.writer.pc.Loaded? && s.writer.pc.index < |s.ring.seqs|) ==>
      s.ring.watermark == |s.log| || s.ring.seqs[s.writer.pc.index] != |s.log|
  }

  ghost predicate Disciplined(s: State, e: Event) {
    HeaderCurrent(s, e) && OutsideClaimWindow(s, e) && SafeClaim(s, e)
  }

  // Runs under more and more of these hypotheses: pins hold in every window run, entries are untorn
  // in every window run that issues no number twice, and informed runs issue none twice.

  ghost predicate WindowRun(run: Run) {
    && IsRun(run)
    && forall k :: 0 <= k < |run.events| ==> OutsideClaimWindow(run.states[k], run.events[k])
  }

  ghost predicate NoReuseRun(run: Run) {
    && WindowRun(run)
    && forall k :: 0 <= k < |run.events| ==> IssuesNext(run.states[k], run.events[k])
  }

  ghost predicate InformedRun(run: Run) {
    && WindowRun(run)
    && forall k :: 0 <= k < |run.events| ==> Informed(run.states[k], run.events[k])
  }

  ghost predicate DisciplinedRun(run: Run) {
    && IsRun(run)
    && forall k :: 0 <= k < |run.events| ==> Disciplined(run.states[k], run.events[k])
  }
}
