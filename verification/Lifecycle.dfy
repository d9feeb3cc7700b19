/**
 * Role claims, the segment deed and opening a segment, method by method, with other processes acting
 * in between.
 */
module Lifecycle {
  import opened Words
  import opened Layout
  import opened Rings
  import opened Segments
  import Writers

  /** A PID cell of the header, together with the operating system's table of live processes. */
  class Cell {
    var value: nat
    var alive: set<nat>
    ghost var used: set<nat>       // PIDs handed out so far
    ghost var changes: nat         // successful changes of the cell by other claimants
    ghost var history: seq<nat>    // the values the cell has had, the current one last

    ghost predicate Valid()
      reads this
    {
      && 0 !in used && alive <= used && (value == 0 || value in used)
      && history != [] && history[|history| - 1] == value
    }

    /** Dead processes stay dead, because PIDs are not reused; this process goes on running. */
    twostate predicate Since(me: nat)
      reads this
    {
      && Valid() && me in alive && old(used) <= used && old(changes) <= changes && old(history) <= history
      && forall p :: p in old(used) && p !in old(alive) ==> p !in alive
    }

    /** The cell has held p at some point since then, that point included. */
    twostate predicate Held(p: nat)
      requires old(history) != []
      reads this
    {
      exists k :: |old(history)| <= k + 1 <= |history| && history[k] == p
    }

    /** Write the cell. */
    method Put(p: nat)
      requires Valid() && (p == 0 || p in used)
      modifies this`value, this`history
      ensures Valid() && value == p && history == old(history) + [p]
    {
      value := p;
      history := history + [p];
    }

    /**
     * Everything other claimants may do between two operations of this one (`Roles.MeanwhileOthers`
     * is why), `limit` being the number of changes they ever make; when `quiet`, they do nothing.
     */
    method Interfere(me: nat, ghost quiet: bool, ghost limit: nat)
      requires Valid() && me in alive && changes <= limit
      modifies this
      ensures Since(me) && changes <= limit
      ensures changes == old(changes) ==> value == old(value)
      ensures quiet ==> value == old(value) && alive == old(alive) && changes == old(changes)
    {}
  }

  datatype Claim = Claimed | RoleConflict(holder: nat)

  /**
   * `claim_role`. A claim replaces only 0 or the PID of a dead process, and a refusal names a live one,
   * met in the cell during the call; the loop goes round again only if somebody else changed the cell
   * meanwhile; undisturbed, the outcome is decided by whether the recorded holder lives.
   */
  method ClaimRole(cell: Cell, me: nat, ghost quiet: bool, ghost limit: nat)
    returns (r: Claim, ghost replaced: nat, ghost rounds: nat)
    requires cell.Valid() && me in cell.alive && cell.changes <= limit
    modifies cell
    ensures cell.Since(me) && cell.changes <= limit
    ensures r.Claimed? ==> cell.value == me && replaced !in cell.alive && cell.Held(replaced)
    ensures r.RoleConflict? ==> r.holder in cell.alive && cell.Held(r.holder)
    ensures 1 <= rounds <= cell.changes - old(cell.changes) + 1
    ensures quiet ==> cell.alive == old(cell.alive)
    ensures quiet ==> (r.Claimed? <==> old(cell.value) !in old(cell.alive))
    ensures quiet && r.Claimed? ==> replaced == old(cell.value)
    ensures quiet && r.RoleConflict? ==> r.holder == cell.value == old(cell.value)
  {
    replaced, rounds := 0, 0;
    while true
      invariant cell.Since(me) && cell.changes <= limit
      invariant rounds <= cell.changes - old(cell.changes)
      invariant quiet ==> rounds == 0 && cell.value == old(cell.value) && cell.alive == old(cell.alive)
      decreases limit - cell.changes
    {
      rounds := rounds + 1;
      cell.Interfere(me, quiet, limit);
      if cell.value == 0 {
        cell.Put(me);
        assert cell.history[|cell.history| - 2] == 0;
        return Claimed, 0, rounds;
      }
      var holder := cell.value;
      ghost var before, at := cell.changes, |cell.history| - 1;
      cell.Interfere(me, quiet, limit);
      if holder in cell.alive {
        assert cell.history[at] == holder;
        return RoleConflict(holder), 0, rounds;
      }
      cell.Interfere(me, quiet, limit);
      if cell.value == holder {
        cell.Put(me);
        assert cell.history[at] == holder;
        return Claimed, holder, rounds;
      }
      assert before < cell.changes;
    }
  }

  /** `release_role`: clear the cell if it is still this process's claim, and not otherwise. */
  method ReleaseRole(cell: Cell, me: nat, ghost quiet: bool, ghost limit: nat)
    requires cell.Valid() && me in cell.alive && cell.changes <= limit
    modifies cell
    ensures cell.Since(me) && cell.value != me
    ensures cell.changes == old(cell.changes) ==> cell.value == if old(cell.value) == me then 0 else old(cell.value)
    ensures quiet ==> cell.changes == old(cell.changes)
  {
    cell.Interfere(me, quiet, limit);
    if cell.value == me {
      cell.Put(0);
    }
  }

  /**
   * `claim_segment`. Losing is no error: the deed moves only from nobody or from the dead, never
   * from a live holder, this process included. `seen` is the holder it replaced or lost to.
   */
  method ClaimSegment(cell: Cell, me: nat, ghost quiet: bool, ghost limit: nat)
    returns (won: bool, ghost seen: nat, ghost rounds: nat)
    requires cell.Valid() && me in cell.alive && cell.changes <= limit
    modifies cell
    ensures cell.Since(me) && cell.changes <= limit
    ensures won ==> cell.value == me
    ensures cell.Held(seen) && (won <==> seen !in cell.alive)
    ensures 1 <= rounds <= cell.changes - old(cell.changes) + 1
    ensures quiet ==> cell.alive == old(cell.alive) && cell.changes == old(cell.changes) && seen == old(cell.value)
    ensures quiet && !won ==> cell.value == old(cell.value)
  {
    rounds := 0;
    while true
      invariant cell.Since(me) && cell.changes <= limit
      invariant rounds <= cell.changes - old(cell.changes)
      invariant quiet ==>
                  rounds == 0 && cell.value == old(cell.value) && cell.alive == old(cell.alive)
                  && cell.changes == old(cell.changes)
      decreases limit - cell.changes
    {
      rounds := rounds + 1;
      cell.Interfere(me, quiet, limit);
      if cell.value == 0 {
        cell.Put(me);
        assert cell.history[|cell.history| - 2] == 0;
        return true, 0, rounds;
      }
      var holder := cell.value;
      ghost var before, at := cell.changes, |cell.history| - 1;
      cell.Interfere(me, quiet, limit);
      if holder == me || holder in cell.alive {
        assert cell.history[at] == holder;
        return false, holder, rounds;
      }
      cell.Interfere(me, quiet, limit);
      if cell.value == holder {
        cell.Put(me);
        assert cell.history[at] == holder;
        return true, holder, rounds;
      }
      assert before < cell.changes;
    }
  }

  // ── A named writer ──────────────────────────────────────────────────────────

  /** The role-aware writer: bound to a segment from a successful claim until it is dropped. */
  class NamedWriter {
    const me: nat
    const cell: Cell
    var inner: Writers.RawWriter?

    constructor (cell: Cell, me: nat)
      ensures this.cell == cell && this.me == me && inner == null
    {
      this.cell, this.me := cell, me;
      inner := null;
    }

    /**
     * Claim the writer role, then recover the ring state from a header decoded earlier, other writers
     * and readers acting meanwhile; a refused claim leaves the writer unbound and the ring to the
     * others. `found` and `foundLog` are the ring and the log once the claim is decided.
     */
    method Bind(segment: Segment, headerIndex: nat, headerSeq: nat, ghost quiet: bool, ghost limit: nat)
      returns (r: Claim, ghost found: Ring, ghost foundLog: seq<seq<byte>>)
      requires inner == null && cell.Valid() && me in cell.alive && cell.changes <= limit && segment.Valid()
      modifies this`inner, cell, segment
      ensures cell.Since(me)
      ensures r.Claimed? <==> inner != null
      ensures Evolves(old(segment.View()), old(segment.log), found, foundLog)
      ensures quiet ==> found == old(segment.View()) && foundLog == old(segment.log)
      ensures r.Claimed? ==>
                && cell.value == me && inner.segment == segment
                && SignsOnly(found, segment.View()) && segment.log == foundLog
                && inner.lastSeq == MaxMagnitude(found.seqs, headerSeq, |found.seqs|)
                && 0 < |found.seqs| && inner.currentIndex == ResumeIndex(found.seqs, headerIndex, inner.lastSeq)
                && (inner.Valid() <==> Informs(found.seqs, headerSeq, |foundLog|))
      ensures r.RoleConflict? ==> r.holder in cell.alive && segment.View() == found && segment.log == foundLog
      ensures quiet ==> (r.Claimed? <==> old(cell.value) !in old(cell.alive))
    {
      found, foundLog := segment.View(), segment.log;
      ghost var replaced, rounds;
      r, replaced, rounds := ClaimRole(cell, me, quiet, limit);
      segment.Interfere(quiet, {}, found, foundLog);
      found, foundLog := segment.View(), segment.log;
      if r.Claimed? {
        inner := new Writers.RawWriter.Attach(segment, headerIndex, headerSeq, quiet);
      }
    }

    /** Hand the role back, if this writer ever held it; a writer that was refused touches nothing. */
    method Drop(ghost quiet: bool, ghost limit: nat)
      requires cell.Valid() && me in cell.alive && cell.changes <= limit
      modifies this`inner, cell
      ensures inner == null && cell.Valid()
      ensures old(inner) == null ==> cell.value == old(cell.value)
      ensures old(inner) != null ==> cell.value != me
      ensures quiet && old(inner) != null ==> cell.value == if old(cell.value) == me then 0 else old(cell.value)
    {
      if inner != null {
        ReleaseRole(cell, me, quiet, limit);
      }
      inner := null;
    }
  }

  // ── Opening a segment ───────────────────────────────────────────────────────

  /** What a name refers to: nothing, a mapping that cannot be opened, or one with these contents and length. */
  datatype Mapping = Missing | Unopenable | Mapped(contents: HeaderRead, bytes: nat)

  datatype OpenResult = Opened(header: Header, owner: bool) | NotYet | InvalidArgument | OsError

  /** `check_dtype`: opaque requests accept anything, others need the exact tag. */
  predicate DtypeOk(header: Header, requested: Dtype) {
    requested == U8 || header.dtype == requested.Code()
  }

  /** A typed request is accepted iff the channel was declared with that very type, an opaque one always. */
  lemma TypeCheckExact(header: Header, declared: Dtype, requested: Dtype)
    requires header.dtype == declared.Code()
    ensures DtypeOk(header, requested) <==> requested == U8 || requested == declared
  {
    CodesDiffer(declared, requested);
  }

  /** What a bid with an accepted geometry is answered, by what the name refers to. */
  ghost predicate BidAnswer(found: Mapping, pb: nat, tc: nat, dtype: Dtype, r: OpenResult) {
    var created := Opened(Header(pb, tc, 0, dtype.Code(), 0), true);
    match found
    case Missing => r == created || r == OsError
    case Unopenable => r == OsError
    case Mapped(NotReady, bytes) => r == if RequiredBytes(pb, tc) <= bytes then created else InvalidArgument
    case Mapped(Ready(h), _) =>
      if (h.payloadBytes, h.entryCount) == (pb, tc) && (dtype == U8 || dtype.Code() == h.dtype)
      then r.Opened? && r.header == h
      else r == InvalidArgument
    case Mapped(_, _) => r == InvalidArgument
  }

  /** What a request without geometry is answered. */
  ghost predicate AttachAnswer(found: Mapping, dtype: Dtype, delayedConnect: bool, r: OpenResult) {
    var absent := if delayedConnect then NotYet else OsError;
    match found
    case Missing => r == absent
    case Unopenable => r == absent
    case Mapped(NotReady, _) => r == absent
    case Mapped(Ready(h), _) =>
      if h.payloadBytes == 0 || h.entryCount == 0 then r == absent
      else r == if dtype == U8 || dtype.Code() == h.dtype then Opened(h, false) else InvalidArgument
    case Mapped(_, _) => r == InvalidArgument
  }

  class Name {
    var mapping: Mapping
    const owner: Cell            // the segment_owner word of the mapping

    constructor (mapping: Mapping, owner: Cell)
      ensures this.mapping == mapping && this.owner == owner
    {
      this.mapping, this.owner := mapping, owner;
    }

    /** Everything others may do to the name meanwhile: create, initialize, unlink, create again. */
    method Interfere(ghost quiet: bool)
      modifies this
      ensures quiet ==> mapping == old(mapping)
    {}

    /** Lay down a header: the caller owns the segment from the moment it becomes readable. */
    method Initialize(payloadBytes: nat, entryCount: nat, dtype: Dtype, bytes: nat, me: nat) returns (header: Header)
      requires owner.Valid() && me in owner.alive
      modifies this, owner
      ensures header == Header(payloadBytes, entryCount, 0, dtype.Code(), 0)
      ensures mapping == Mapped(Ready(header), bytes)
      ensures owner.Valid() && owner.value == me
      ensures owner.alive == old(owner.alive) && owner.used == old(owner.used) && owner.changes == old(owner.changes)
      ensures owner.history == old(owner.history) + [me]
    {
      header := Header(payloadBytes, entryCount, 0, dtype.Code(), 0);
      mapping := Mapped(Ready(header), bytes);
      owner.Put(me);
    }

    /**
     * `open_or_create`, others creating and unlinking the name and bidding for the deed meanwhile. What
     * it answers depends on the mapping it settled on as `BidAnswer` and `AttachAnswer` say. The owner
     * flag is granted exactly when geometry was declared and accepted and the deed was not in live hands;
     * a refusal, and an attach without geometry, change neither name nor deed. `found` is the mapping the
     * call settled on, `seen` the holder its bid met.
     */
    method OpenOrCreate(payloadBytes: Option<nat>, entryCount: Option<nat>, dtype: Dtype, delayedConnect: bool,
                        me: nat, ghost quiet: bool, ghost limit: nat)
      returns (r: OpenResult, ghost found: Mapping, ghost seen: nat)
      requires owner.Valid() && me in owner.alive && owner.changes <= limit
      modifies this, owner
      ensures owner.Since(me)
      ensures !r.Opened? || !r.owner ==> mapping == found
      ensures (!r.Opened? || payloadBytes.None?) && owner.changes == old(owner.changes) ==>
                owner.value == old(owner.value)
      ensures r.Opened? && r.owner ==> owner.value == me && payloadBytes.Some? && entryCount.Some?
      ensures r.Opened? ==> mapping.Mapped? && mapping.contents == Ready(r.header)
      ensures payloadBytes.None? && entryCount.None? ==> AttachAnswer(found, dtype, delayedConnect, r)
      ensures payloadBytes.Some? != entryCount.Some? ==> r == InvalidArgument
      ensures payloadBytes.Some? && entryCount.Some? ==>
                if GeometryOk(payloadBytes.value, entryCount.value)
                then BidAnswer(found, payloadBytes.value, entryCount.value, dtype, r)
                else r == InvalidArgument
      ensures found.Missing? && quiet && payloadBytes.Some? && entryCount.Some? ==>
                GeometryOk(payloadBytes.value, entryCount.value) ==> r.Opened?
      ensures r.Opened? && found.Missing? ==>
                mapping.bytes == RequiredBytes(payloadBytes.value, entryCount.value)
      ensures r.Opened? && found.Mapped? ==> mapping.bytes == found.bytes
      ensures r.Opened? && payloadBytes.Some? && IsReady(found) ==>
                mapping == found && (r.owner <==> seen !in owner.alive)
      ensures quiet ==> found == old(mapping) && owner.changes == old(owner.changes)
      ensures quiet && r.Opened? && payloadBytes.Some? && IsReady(found) ==>
                seen == old(owner.value) && (!r.owner ==> owner.value == old(owner.value))
    {
      seen := 0;
      owner.Interfere(me, quiet, limit);
      Interfere(quiet);
      found := mapping;
      if payloadBytes.Some? && entryCount.Some? {
        var pb, tc := payloadBytes.value, entryCount.value;
        if !GeometryOk(pb, tc) {
          return InvalidArgument, found, seen;
        }
        if mapping.Missing? {
          var header := Initialize(pb, tc, dtype, RequiredBytes(pb, tc), me);
          return Opened(header, true), found, seen;
        }
        // The name was taken; it may be gone again before it can be opened.
        Interfere(quiet);
        found := mapping;
        r, seen := Adopt(pb, tc, dtype, me, quiet, limit);
        return;
      } else if payloadBytes.None? && entryCount.None? {
        if mapping.Mapped? && mapping.contents.Ready? {
          var header := mapping.contents.header;
          if header.payloadBytes != 0 && header.entryCount != 0 {
            r := if DtypeOk(header, dtype) then Opened(header, false) else InvalidArgument;
            return;
          }
        } else if mapping.Mapped? && !mapping.contents.NotReady? {
          return InvalidArgument, found, seen;
        }
        r := if delayedConnect then NotYet else OsError;
        return;
      }
      return InvalidArgument, found, seen;
    }

    /** The second pass over a taken name: bid for an accepted segment, or initialize an abandoned one. */
    method Adopt(pb: nat, tc: nat, dtype: Dtype, me: nat, ghost quiet: bool, ghost limit: nat)
      returns (r: OpenResult, ghost seen: nat)
      requires owner.Valid() && me in owner.alive && owner.changes <= limit
      modifies this, owner
      ensures owner.Since(me)
      ensures BidAnswer(old(mapping), pb, tc, dtype, r) && (old(mapping).Missing? ==> r == OsError)
      ensures !r.Opened? || !r.owner ==> mapping == old(mapping)
      ensures !r.Opened? ==> owner.value == old(owner.value) && owner.changes == old(owner.changes)
      ensures r.Opened? ==> mapping.Mapped? && mapping.contents == Ready(r.header) && (r.owner ==> owner.value == me)
      ensures r.Opened? && old(mapping).Mapped? ==> mapping.bytes == old(mapping).bytes
      ensures r.Opened? && IsReady(old(mapping)) ==> mapping == old(mapping) && (r.owner <==> seen !in owner.alive)
      ensures quiet ==> owner.changes == old(owner.changes)
      ensures quiet && r.Opened? && IsReady(old(mapping)) ==>
                seen == old(owner.value) && (!r.owner ==> owner.value == old(owner.value))
    {
      seen := 0;
      if !mapping.Mapped? {
        return OsError, seen;
      }
      match mapping.contents
      case Ready(header) =>
        if header.payloadBytes != pb || header.entryCount != tc || !DtypeOk(header, dtype) {
          return InvalidArgument, seen;
        }
        ghost var rounds;
        var won: bool;
        won, seen, rounds := ClaimSegment(owner, me, quiet, limit);
        return Opened(header, won), seen;
      case NotReady =>
        if mapping.bytes < RequiredBytes(pb, tc) {
          return InvalidArgument, seen;
        }
        var header := Initialize(pb, tc, dtype, mapping.bytes, me);
        return Opened(header, true), seen;
      case _ => return InvalidArgument, seen;
    }

    static predicate IsReady(mapping: Mapping) {
      mapping.Mapped? && mapping.contents.Ready?
    }
  }
}
