/**
 * Exclusive roles and the segment deed: many processes stepping on one PID cell. One event is one
 * atomic operation on the cell, one liveness probe, or one process starting or dying.
 */
module Roles {
  import opened Words

  /** A role is handed back on drop; a deed stays with its holder's PID. */
  datatype Kind = Role | Deed

  datatype Phase =
    | Claiming             // about to compare-and-swap from 0
    | Saw(holder: nat)     // lost to `holder`, about to probe it
    | Stale(holder: nat)   // `holder` was dead when probed, about to adopt its claim
    | Bound                // holds the role, or carries the owner flag
    | Done                 // refused, or dropped

  /** One writer, zero-copy reader or mapping, living in a process. */
  datatype Instance = Instance(pid: nat, phase: Phase)

  datatype World = World(kind: Kind, cell: nat, alive: set<nat>, used: set<nat>, instances: map<nat, Instance>)

  datatype Event =
    | Spawn(pid: nat)
    | Die(pid: nat)
    | Open(id: nat, pid: nat)
    | TakeFree(id: nat)
    | ProbeHolder(id: nat)
    | Adopt(id: nat)
    | Drop(id: nat)

  /** Nothing is bound yet, or (a deed) the creator's mapping was stamped before anyone could look. */
  ghost predicate Fresh(w: World) {
    && 0 !in w.alive && w.alive <= w.used && 0 !in w.used
    && (|| (w.cell == 0 && w.instances == map[])
        || (exists p, id ::
              w.kind == Deed && w.cell == p && p in w.alive && w.instances == map[id := Instance(p, Bound)]))
  }

  predicate Running(w: World, id: nat) {
    id in w.instances && w.instances[id].pid in w.alive
  }

  ghost predicate Can(w: World, e: Event) {
    match e
    case Spawn(pid) => pid != 0 && pid !in w.alive
    case Die(pid) => pid in w.alive
    case Open(id, pid) => id !in w.instances && pid in w.alive
    case TakeFree(id) => Running(w, id) && w.instances[id].phase == Claiming
    case ProbeHolder(id) => Running(w, id) && w.instances[id].phase.Saw?
    case Adopt(id) => Running(w, id) && w.instances[id].phase.Stale?
    case Drop(id) => Running(w, id) && (w.instances[id].phase == Bound || w.instances[id].phase == Done)
  }

  function Enter(w: World, id: nat, phase: Phase): World
    requires id in w.instances
  {
    w.(instances := w.instances[id := w.instances[id].(phase := phase)])
  }

  ghost function Step(w: World, e: Event): World
    requires Can(w, e)
  {
    match e
    case Spawn(pid) => w.(alive := w.alive + {pid}, used := w.used + {pid})
    case Die(pid) =>
      var others := map id | id in w.instances && w.instances[id].pid != pid :: w.instances[id];
      w.(alive := w.alive - {pid}, instances := others)
    case Open(id, pid) => w.(instances := w.instances[id := Instance(pid, Claiming)])
    case TakeFree(id) => if w.cell == 0 then Take(w, id) else Enter(w, id, Saw(w.cell))
    case ProbeHolder(id) =>
      var holder := w.instances[id].phase.holder;
      Enter(w, id, if holder in w.alive then Done else Stale(holder))
    case Adopt(id) => if w.cell == w.instances[id].phase.holder then Take(w, id) else Enter(w, id, Claiming)
    case Drop(id) =>
      // Only a bound instance has a mapping to release; the swap back is from its own PID.
      var mine := w.kind == Role && w.instances[id].phase == Bound && w.cell == w.instances[id].pid;
      Enter(w, id, Done).(cell := if mine then 0 else w.cell)
  }

  function Take(w: World, id: nat): World
    requires id in w.instances
  {
    Enter(w, id, Bound).(cell := w.instances[id].pid)
  }

  /** PIDs are not reused. */
  ghost predicate FreshPid(w: World, e: Event) {
    e.Spawn? ==> e.pid !in w.used
  }

  // ── What a step may do wrong when PIDs are reused ───────────────────────────

  predicate LiveBound(w: World, id: nat) {
    Running(w, id) && w.instances[id].phase == Bound
  }

  /** An adoption that hits, that is, finds the holder it had probed still in the cell. */
  predicate AdoptHits(w: World, e: Event) {
    && e.Adopt? && Running(w, e.id) && w.instances[e.id].phase.Stale?
    && w.cell == w.instances[e.id].phase.holder
  }

  /** No adoption takes the cell away from a live instance that is bound. */
  ghost predicate EvictsNobody(w: World, e: Event) {
    AdoptHits(w, e) ==> forall id :: !LiveBound(w, id)
  }

  /** No adoption takes the cell away from a live process. */
  ghost predicate AdoptsFromDead(w: World, e: Event) {
    AdoptHits(w, e) ==> w.cell !in w.alive
  }

  /** No process starts under the PID that a role cell still names. */
  ghost predicate RevivesNobody(w: World, e: Event) {
    e.Spawn? && w.kind == Role ==> e.pid != w.cell
  }

  // ── The invariant ───────────────────────────────────────────────────────────

  ghost predicate InstanceInv(w: World, i: Instance) {
    && i.pid in w.alive
    && (i.phase.Saw? || i.phase.Stale? ==> i.phase.holder in w.used)
    && (i.phase.Stale? ==> i.phase.holder != i.pid)
  }

  ghost predicate AtMostOne(w: World) {
    forall a, b :: LiveBound(w, a) && LiveBound(w, b) ==> a == b
  }

  /** What holds in every run: instances belong to live processes, and cells name PIDs handed out. */
  ghost predicate WellFormed(w: World) {
    && 0 !in w.used && w.alive <= w.used && (w.cell == 0 || w.cell in w.used)
    && (forall id :: id in w.instances ==> InstanceInv(w, w.instances[id]))
  }

  /** At most one live instance is bound, and the cell names it. */
  ghost predicate Mutex(w: World) {
    && WellFormed(w)
    && (forall id :: LiveBound(w, id) ==> w.cell == w.instances[id].pid)
    && AtMostOne(w)
  }

  /** A role cell that names a live process has a holder. */
  ghost predicate Truthful(w: World) {
    w.kind == Role && w.cell in w.alive ==> exists id :: LiveBound(w, id)
  }

  /** A holder that was dead when probed is dead still. */
  ghost predicate ProbesHold(w: World) {
    forall id :: id in w.instances && w.instances[id].phase.Stale? ==> w.instances[id].phase.holder !in w.alive
  }

  /** Entering a phase leaves the other instances as bound as they were. */
  lemma EnterFrame(w: World, id: nat, phase: Phase, other: nat)
    requires id in w.instances
    ensures other != id ==> (LiveBound(Enter(w, id, phase), other) <==> LiveBound(w, other))
    ensures LiveBound(Enter(w, id, phase), id) <==> phase == Bound && w.instances[id].pid in w.alive
  {}

  /** Taking the cell makes the taker the one bound instance exactly when nobody was bound. */
  lemma TakeExact(w: World, id: nat)
    requires Mutex(w) && Running(w, id) && !LiveBound(w, id)
    ensures (forall other :: !LiveBound(w, other)) ==> Mutex(Take(w, id))
    ensures AtMostOne(Take(w, id)) <==> forall other :: !LiveBound(w, other)
    ensures Truthful(Take(w, id))
  {
    var after := Take(w, id);
    EnterFrame(w, id, Bound, id);
    assert LiveBound(after, id);
    forall other
      ensures other != id ==> (LiveBound(after, other) <==> LiveBound(w, other))
    {
      EnterFrame(w, id, Bound, other);
    }
  }

  /** Moving to a phase that is not Bound, from one that is not Bound, changes nothing for anybody. */
  lemma MoveKeeps(w: World, id: nat, phase: Phase)
    requires Mutex(w) && Running(w, id) && !LiveBound(w, id) && phase != Bound
    requires InstanceInv(w, w.instances[id].(phase := phase))
    ensures Mutex(Enter(w, id, phase))
    ensures Truthful(w) ==> Truthful(Enter(w, id, phase))
  {
    var after := Enter(w, id, phase);
    forall other
      ensures LiveBound(after, other) <==> LiveBound(w, other)
    {
      EnterFrame(w, id, phase, other);
    }
    if holder :| LiveBound(w, holder) {
      assert LiveBound(after, holder);
    }
  }

  lemma DropKeeps(w: World, id: nat)
    requires Mutex(w) && Can(w, Drop(id))
    ensures Mutex(Step(w, Drop(id)))
    ensures Truthful(w) ==> Truthful(Step(w, Drop(id)))
  {
    if w.instances[id].phase != Bound {
      MoveKeeps(w, id, Done);
    } else {
      var after := Step(w, Drop(id));
      assert LiveBound(w, id);
      forall other
        ensures !LiveBound(after, other)
      {
        EnterFrame(w, id, Done, other);
        assert LiveBound(w, other) ==> other == id;
      }
    }
  }

  lemma ProcessEventExact(w: World, e: Event)
    requires Mutex(w) && Can(w, e) && (e.Spawn? || e.Die? || e.Open?)
    ensures Mutex(Step(w, e))
    ensures Truthful(w) ==> (Truthful(Step(w, e)) <==> RevivesNobody(w, e))
  {
    var after := Step(w, e);
    forall other
      ensures LiveBound(after, other) ==> LiveBound(w, other)
      ensures LiveBound(w, other) && (e.Die? ==> w.instances[other].pid != e.pid) ==> LiveBound(after, other)
    {
      assert other in w.instances ==> InstanceInv(w, w.instances[other]);
    }
    if holder :| LiveBound(w, holder) {
      assert (e.Die? && e.pid == w.cell) || LiveBound(after, holder);
    }
  }

  /**
   * Exactly which steps keep exclusivity, of a role or a deed, PIDs recycled or not: all but an adoption
   * that finds the PID it had probed back in the cell with a live instance bound under it.
   */
  lemma StepExact(w: World, e: Event)
    requires Mutex(w) && Can(w, e)
    ensures AtMostOne(Step(w, e)) <==> EvictsNobody(w, e)
    ensures Mutex(Step(w, e)) <==> EvictsNobody(w, e)
    ensures Truthful(w) ==> (Truthful(Step(w, e)) <==> RevivesNobody(w, e))
  {
    match e
    case TakeFree(id) =>
      if w.cell == 0 {
        assert forall other :: LiveBound(w, other) ==> w.cell in w.alive;
        TakeExact(w, id);
      } else {
        MoveKeeps(w, id, Saw(w.cell));
      }
    case ProbeHolder(id) =>
      assert InstanceInv(w, w.instances[id]);
      var holder := w.instances[id].phase.holder;
      MoveKeeps(w, id, if holder in w.alive then Done else Stale(holder));
    case Adopt(id) =>
      if w.cell == w.instances[id].phase.holder { TakeExact(w, id); } else { MoveKeeps(w, id, Claiming); }
    case Drop(id) => DropKeeps(w, id);
    case _ => ProcessEventExact(w, e);
  }

  /** Where a role cell is truthful, an adoption evicts a holder iff the PID it had probed is alive again. */
  lemma EvictionNeedsReuse(w: World, e: Event)
    requires Mutex(w)
    ensures AdoptsFromDead(w, e) ==> EvictsNobody(w, e)
    ensures w.kind == Role && Truthful(w) && EvictsNobody(w, e) ==> AdoptsFromDead(w, e)
  {
    assert forall id :: LiveBound(w, id) ==> w.cell in w.alive;
  }

  lemma StepKeepsWellFormed(w: World, e: Event)
    requires WellFormed(w) && Can(w, e)
    ensures WellFormed(Step(w, e))
  {
    var after := Step(w, e);
    forall id | id in after.instances
      ensures InstanceInv(after, after.instances[id])
    {
      assert id in w.instances ==> InstanceInv(w, w.instances[id]);
    }
  }

  /** A deed leaves a live process exactly by an adoption whose probed PID is alive again. */
  lemma DeedExact(w: World, e: Event)
    requires WellFormed(w) && Can(w, e) && w.kind == Deed && w.cell in w.alive
    ensures Step(w, e).cell == w.cell <==> AdoptsFromDead(w, e)
  {
    assert e.Adopt? ==> InstanceInv(w, w.instances[e.id]);
  }

  /** As long as PIDs are not reused, dead holders stay dead. */
  lemma FreshPidsKeepProbes(w: World, e: Event)
    requires Mutex(w) && ProbesHold(w) && Can(w, e) && FreshPid(w, e)
    ensures AdoptsFromDead(w, e) && EvictsNobody(w, e) && RevivesNobody(w, e) && ProbesHold(Step(w, e))
  {
    assert forall id :: id in w.instances ==> InstanceInv(w, w.instances[id]);
  }

  // ── Over whole runs ─────────────────────────────────────────────────────────

  datatype Run = Run(states: seq<World>, events: seq<Event>)

  ghost predicate IsRun(run: Run) {
    && |run.states| == |run.events| + 1 && Fresh(run.states[0])
    && forall k :: 0 <= k < |run.events| ==> IsStep(run, k)
  }

  ghost predicate IsStep(run: Run, k: nat)
    requires |run.states| == |run.events| + 1 && k < |run.events|
  {
    Can(run.states[k], run.events[k]) && run.states[k + 1] == Step(run.states[k], run.events[k])
  }

  ghost predicate NoPidReuse(run: Run) {
    IsRun(run) && forall k :: 0 <= k < |run.events| ==> FreshPid(run.states[k], run.events[k])
  }

  ghost predicate EvictionFree(run: Run) {
    IsRun(run) && forall k :: 0 <= k < |run.events| ==> EvictsNobody(run.states[k], run.events[k])
  }

  lemma FreshMutex(w: World)
    requires Fresh(w)
    ensures Mutex(w) && Truthful(w) && ProbesHold(w)
  {
    if w.instances != map[] {
      FreshDeed(w);
    }
  }

  lemma FreshDeed(w: World)
    requires Fresh(w) && w.instances != map[]
    ensures Mutex(w) && Truthful(w) && ProbesHold(w)
  {
    var p, id :| w.kind == Deed && w.cell == p && p in w.alive && w.instances == map[id := Instance(p, Bound)];
    assert forall other :: LiveBound(w, other) ==> other == id;
  }

  lemma {:induction false} RunWellFormed(run: Run, k: nat)
    requires IsRun(run) && k < |run.states|
    ensures WellFormed(run.states[k])
  {
    if k > 0 {
      RunWellFormed(run, k - 1);
      assert IsStep(run, k - 1);
      StepKeepsWellFormed(run.states[k - 1], run.events[k - 1]);
    } else {
      FreshMutex(run.states[0]);
    }
  }

  lemma {:induction false} RunMutex(run: Run, k: nat)
    requires EvictionFree(run) && k < |run.states|
    ensures Mutex(run.states[k])
  {
    if k > 0 {
      RunMutex(run, k - 1);
      assert IsStep(run, k - 1);
      StepExact(run.states[k - 1], run.events[k - 1]);
    } else {
      FreshMutex(run.states[0]);
    }
  }

  lemma {:induction false} NoEvictionSoFar(run: Run, k: nat)
    requires IsRun(run) && k < |run.states| && forall m :: 0 <= m <= k ==> AtMostOne(run.states[m])
    ensures Mutex(run.states[k]) && forall m :: 0 <= m < k ==> EvictsNobody(run.states[m], run.events[m])
  {
    if k > 0 {
      NoEvictionSoFar(run, k - 1);
      assert IsStep(run, k - 1);
      StepExact(run.states[k - 1], run.events[k - 1]);
    } else {
      FreshMutex(run.states[0]);
    }
  }

  /**
   * Exclusivity, exactly: with any number of processes and instances claiming, dropping and crashing, and
   * PIDs recycled at will, there is never more than one live holder iff no adoption evicts one.
   */
  lemma ExclusivityExact(run: Run)
    requires IsRun(run)
    ensures (forall k :: 0 <= k < |run.states| ==> AtMostOne(run.states[k])) <==> EvictionFree(run)
  {
    if EvictionFree(run) {
      forall k | 0 <= k < |run.states|
        ensures AtMostOne(run.states[k])
      {
        RunMutex(run, k);
      }
    }
    if forall k :: 0 <= k < |run.states| ==> AtMostOne(run.states[k]) {
      NoEvictionSoFar(run, |run.events|);
    }
  }

  /** As long as no adoption evicts a holder, one live instance at most is bound, and the cell holds its PID. */
  lemma AtMostOneHolder(run: Run, k: nat, a: nat, b: nat)
    requires EvictionFree(run) && k < |run.states| && LiveBound(run.states[k], a)
    ensures run.states[k].cell == run.states[k].instances[a].pid
    ensures LiveBound(run.states[k], b) ==> a == b
  {
    RunMutex(run, k);
  }

  /** Then no step but a holder's own drop or death unbinds it: a late release clears no other claim. */
  lemma OnlyHolderLetsGo(run: Run, k: nat, id: nat)
    requires EvictionFree(run) && k < |run.events| && LiveBound(run.states[k], id)
    requires run.events[k] != Drop(id) && run.events[k] != Die(run.states[k].instances[id].pid)
    ensures LiveBound(run.states[k + 1], id) && run.states[k + 1].cell == run.states[k].cell
  {
    RunMutex(run, k);
    RunMutex(run, k + 1);
    assert IsStep(run, k);
  }

  ghost predicate RevivalFree(run: Run) {
    IsRun(run) && forall k :: 0 <= k < |run.events| ==> RevivesNobody(run.states[k], run.events[k])
  }

  lemma {:induction false} RunTruthful(run: Run, k: nat)
    requires EvictionFree(run) && RevivalFree(run) && k < |run.states|
    ensures Truthful(run.states[k])
  {
    if k > 0 {
      RunTruthful(run, k - 1);
      RunMutex(run, k - 1);
      assert IsStep(run, k - 1);
      StepExact(run.states[k - 1], run.events[k - 1]);
    } else {
      FreshMutex(run.states[0]);
    }
  }

  /** A role cell names a live process only if a live instance holds the role, iff nobody starts under its PID. */
  lemma TruthfulnessExact(run: Run)
    requires EvictionFree(run)
    ensures (forall k :: 0 <= k < |run.states| ==> Truthful(run.states[k])) <==> RevivalFree(run)
  {
    if RevivalFree(run) {
      forall k | 0 <= k < |run.states|
        ensures Truthful(run.states[k])
      {
        RunTruthful(run, k);
      }
    }
    if forall k :: 0 <= k < |run.states| ==> Truthful(run.states[k]) {
      forall k | 0 <= k < |run.events|
        ensures RevivesNobody(run.states[k], run.events[k])
      {
        RunMutex(run, k);
        assert IsStep(run, k) && Truthful(run.states[k]) && Truthful(run.states[k + 1]);
        StepExact(run.states[k], run.events[k]);
      }
    }
  }

  /** A role cell names a live process exactly when a live instance holds the role. */
  lemma RoleCellTruthful(run: Run, k: nat)
    requires EvictionFree(run) && RevivalFree(run) && k < |run.states| && run.states[k].kind == Role
    ensures run.states[k].cell in run.states[k].alive <==> exists id :: LiveBound(run.states[k], id)
  {
    RunTruthful(run, k);
    RunMutex(run, k);
    if id :| LiveBound(run.states[k], id) {
      assert run.states[k].cell == run.states[k].instances[id].pid;
    }
  }

  /**
   * In every run, a deed leaves a live process, even one whose owning mapping is gone, exactly at an
   * adoption whose probed PID came back.
   */
  lemma DeedStaysWithLive(run: Run, k: nat)
    requires IsRun(run) && k < |run.events| && run.states[k].kind == Deed
    requires run.states[k].cell in run.states[k].alive
    ensures run.states[k + 1].cell == run.states[k].cell <==> AdoptsFromDead(run.states[k], run.events[k])
  {
    RunWellFormed(run, k);
    assert IsStep(run, k);
    DeedExact(run.states[k], run.events[k]);
  }

  lemma {:induction false} NoReuseUpTo(run: Run, k: nat)
    requires NoPidReuse(run) && k < |run.states|
    ensures Mutex(run.states[k]) && ProbesHold(run.states[k])
  {
    if k > 0 {
      NoReuseUpTo(run, k - 1);
      assert IsStep(run, k - 1);
      FreshPidsKeepProbes(run.states[k - 1], run.events[k - 1]);
      StepExact(run.states[k - 1], run.events[k - 1]);
    } else {
      FreshMutex(run.states[0]);
    }
  }

  /** Without PID reuse nobody is evicted, no dead claimant is revived and adoptions are from the dead. */
  lemma NoPidReuseIsHarmless(run: Run)
    requires NoPidReuse(run)
    ensures EvictionFree(run) && RevivalFree(run)
    ensures forall k :: 0 <= k < |run.events| ==> AdoptsFromDead(run.states[k], run.events[k])
  {
    forall k | 0 <= k < |run.events|
      ensures EvictsNobody(run.states[k], run.events[k]) && RevivesNobody(run.states[k], run.events[k])
      ensures AdoptsFromDead(run.states[k], run.events[k])
    {
      NoReuseUpTo(run, k);
      assert IsStep(run, k);
      FreshPidsKeepProbes(run.states[k], run.events[k]);
    }
  }

  /**
   * A claimant is done only when it lets go itself or has just found the holder alive; one that loses
   * an adoption to another claimant looks again.
   */
  lemma RefusedOnlyByLive(run: Run, k: nat, id: nat)
    requires IsRun(run) && k < |run.events| && id in run.states[k].instances && id in run.states[k + 1].instances
    ensures var before, after := run.states[k].instances[id].phase, run.states[k + 1].instances[id].phase;
            && (after == Done && before != Done ==>
                  || run.events[k] == Drop(id)
                  || (run.events[k] == ProbeHolder(id) && before.Saw? && before.holder in run.states[k].alive))
            && (run.events[k] == Adopt(id) ==>
                  before.Stale? && after == if before.holder == run.states[k].cell then Bound else Claiming)
            && (run.events[k] == TakeFree(id) && run.states[k].cell != 0 ==> after == Saw(run.states[k].cell))
  {
    assert IsStep(run, k);
  }

  // ── A claim nobody disturbs ─────────────────────────────────────────────────

  /** The claim loop of one instance, step by step. */
  function ClaimSteps(w: World, id: nat): seq<Event> {
    if w.cell == 0 then [TakeFree(id)]
    else if w.cell in w.alive then [TakeFree(id), ProbeHolder(id)]
    else [TakeFree(id), ProbeHolder(id), Adopt(id)]
  }

  /** The world after the given events, each of which is possible in its turn. */
  ghost predicate Leads(w: World, events: seq<Event>, after: World)
    decreases |events|
  {
    if events == [] then after == w else Can(w, events[0]) && Leads(Step(w, events[0]), events[1..], after)
  }

  /** Undisturbed, a claimant is bound and in the cell exactly when the cell named nobody alive, and else refused. */
  lemma UndisturbedClaim(w: World, id: nat) returns (after: World)
    requires WellFormed(w) && id in w.instances && w.instances[id].phase == Claiming
    ensures Leads(w, ClaimSteps(w, id), after)
    ensures after.alive == w.alive && after.instances.Keys == w.instances.Keys
    ensures if w.cell in w.alive then after.instances[id].phase == Done && after.cell == w.cell
            else LiveBound(after, id) && after.cell == w.instances[id].pid
    ensures forall other :: other in w.instances && other != id ==> after.instances[other] == w.instances[other]
  {
    assert InstanceInv(w, w.instances[id]);
    var events, w1 := ClaimSteps(w, id), Step(w, TakeFree(id));
    if w.cell == 0 {
      assert events[1..] == [];
      after := w1;
    } else {
      var w2 := Step(w1, ProbeHolder(id));
      assert events[1..][0] == ProbeHolder(id);
      if w.cell in w.alive {
        assert events[1..][1..] == [];
        after := w2;
      } else {
        assert events[1..][1..] == [Adopt(id)] && [Adopt(id)][1..] == [];
        after := Step(w2, Adopt(id));
        assert Leads(w2, [Adopt(id)], after);
      }
      assert Leads(w1, events[1..], after);
    }
  }

  // ── What one claimant sees of the others ────────────────────────────────────

  /** How often the cell changes between two points of a run. */
  ghost function Changes(run: Run, a: nat, b: nat): nat
    requires a <= b < |run.states|
    decreases b - a
  {
    if a == b then 0 else Changes(run, a, b - 1) + if run.states[b].cell != run.states[b - 1].cell then 1 else 0
  }

  /**
   * Between two points of a run without PID reuse, PIDs are only added, the dead stay dead, a process
   * lives unless it dies, and the cell holds what it held if nobody changed it.
   */
  lemma {:induction false} MeanwhileOthers(run: Run, a: nat, b: nat, me: nat)
    requires NoPidReuse(run) && a <= b < |run.states|
    ensures var was, now := run.states[a], run.states[b];
            && 0 !in now.used && now.alive <= now.used && (now.cell == 0 || now.cell in now.used)
            && was.used <= now.used
            && (forall p :: p in was.used && p !in was.alive ==> p !in now.alive)
            && (me in was.alive && (forall k :: a <= k < b ==> run.events[k] != Die(me)) ==> me in now.alive)
            && (Changes(run, a, b) == 0 ==> now.cell == was.cell)
    decreases b - a
  {
    NoReuseUpTo(run, b);
    if a < b {
      MeanwhileOthers(run, a, b - 1, me);
      assert IsStep(run, b - 1);
    }
  }

  // ── Why PIDs must not be reused ─────────────────────────────────────────────

  ghost predicate Reachable(w: World) {
    exists run :: EndsIn(run, w)
  }

  ghost predicate EndsIn(run: Run, w: World) {
    NoPidReuse(run) && run.states[|run.states| - 1] == w
  }

  lemma Then(w: World, e: Event)
    requires Reachable(w) && Can(w, e) && FreshPid(w, e)
    ensures Reachable(Step(w, e))
  {
    var run :| EndsIn(run, w);
    var next := Run(run.states + [Step(w, e)], run.events + [e]);
    forall k | 0 <= k < |next.events|
      ensures IsStep(next, k) && FreshPid(next.states[k], next.events[k])
    {
      if k < |run.events| {
        assert IsStep(run, k);
      }
    }
    assert EndsIn(next, Step(w, e));
  }

  /** Process 1 crashed holding the role; 2 found it dead; 3 adopted the role and gave it back. */
  const AFTER_HANDOVER :=
    World(Role, 0, {2, 3}, {1, 2, 3}, map[20 := Instance(2, Stale(1)), 30 := Instance(3, Done)])

  lemma HolderCrashes()
    ensures Reachable(World(Role, 1, {}, {1}, map[]))
  {
    var w0 := World(Role, 0, {}, {}, map[]);
    assert EndsIn(Run([w0], []), w0);
    Then(w0, Spawn(1));
    var w1 := World(Role, 0, {1}, {1}, map[]);
    assert Step(w0, Spawn(1)) == w1;
    Then(w1, Open(10, 1));
    var w2 := World(Role, 0, {1}, {1}, map[10 := Instance(1, Claiming)]);
    assert Step(w1, Open(10, 1)) == w2;
    Then(w2, TakeFree(10));
    var w3 := World(Role, 1, {1}, {1}, map[10 := Instance(1, Bound)]);
    assert Step(w2, TakeFree(10)) == w3;
    Then(w3, Die(1));
    assert Step(w3, Die(1)) == World(Role, 1, {}, {1}, map[]);
  }

  /** A new process starts, loses the first swap to a dead holder and finds that out. */
  lemma FindsDead(w: World, id: nat, pid: nat)
    requires Reachable(w) && pid != 0 && pid !in w.used && pid !in w.alive && id !in w.instances
    requires w.cell != 0 && w.cell !in w.alive && w.cell != pid
    ensures Reachable(w.(alive := w.alive + {pid}, used := w.used + {pid},
                         instances := w.instances[id := Instance(pid, Stale(w.cell))]))
  {
    var grown := w.(alive := w.alive + {pid}, used := w.used + {pid});
    Then(w, Spawn(pid));
    Then(grown, Open(id, pid));
    var claiming := grown.(instances := w.instances[id := Instance(pid, Claiming)]);
    Then(claiming, TakeFree(id));
    var saw := grown.(instances := w.instances[id := Instance(pid, Saw(w.cell))]);
    assert Step(claiming, TakeFree(id)).instances == saw.instances;
    Then(saw, ProbeHolder(id));
    assert Step(saw, ProbeHolder(id)).instances == w.instances[id := Instance(pid, Stale(w.cell))];
  }

  lemma Handover()
    ensures Reachable(AFTER_HANDOVER)
  {
    HolderCrashes();
    FindsDead(World(Role, 1, {}, {1}, map[]), 20, 2);
    var two := World(Role, 1, {2}, {1, 2}, map[20 := Instance(2, Stale(1))]);
    assert Reachable(two) by {
      assert {} + {2} == {2} && {1} + {2} == {1, 2};
    }
    FindsDead(two, 30, 3);
    var three := World(Role, 1, {2, 3}, {1, 2, 3}, map[20 := Instance(2, Stale(1)), 30 := Instance(3, Stale(1))]);
    assert Reachable(three) by {
      assert two.alive + {3} == three.alive && two.used + {3} == three.used;
    }
    Then(three, Adopt(30));
    var adopted := World(Role, 3, {2, 3}, {1, 2, 3}, map[20 := Instance(2, Stale(1)), 30 := Instance(3, Bound)]);
    assert Step(three, Adopt(30)) == adopted;
    Then(adopted, Drop(30));
    assert Step(adopted, Drop(30)) == AFTER_HANDOVER;
  }

  /** If the dead PID comes back and claims the role, the old probe's adoption evicts its live holder. */
  lemma ReusedPidBreaksExclusivity() returns (w: World)
    ensures Reachable(AFTER_HANDOVER) && Can(AFTER_HANDOVER, Spawn(1)) && !FreshPid(AFTER_HANDOVER, Spawn(1))
    ensures var reborn := Step(AFTER_HANDOVER, Spawn(1));
            && Can(reborn, Open(40, 1)) && Can(Step(reborn, Open(40, 1)), TakeFree(40))
            && Can(Step(Step(reborn, Open(40, 1)), TakeFree(40)), Adopt(20))
            && w == Step(Step(Step(reborn, Open(40, 1)), TakeFree(40)), Adopt(20))
    ensures LiveBound(w, 20) && LiveBound(w, 40) && !AtMostOne(w)
  {
    Handover();
    var claimant := Step(Step(AFTER_HANDOVER, Spawn(1)), Open(40, 1));
    var bound := Step(claimant, TakeFree(40));
    w := Step(bound, Adopt(20));
    assert LiveBound(w, 20) && LiveBound(w, 40);
  }

  /** The accepted false positive: a process under a dead holder's PID passes for the holder, and nobody is bound. */
  lemma RevivedPidHoldsNothing() returns (w: World)
    ensures Reachable(w) && Can(w, Spawn(w.cell)) && !RevivesNobody(w, Spawn(w.cell))
    ensures Mutex(Step(w, Spawn(w.cell))) && !Truthful(Step(w, Spawn(w.cell)))
  {
    HolderCrashes();
    w := World(Role, 1, {}, {1}, map[]);
  }
}
