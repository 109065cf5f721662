/**
  Translation caches and queued invalidation (`kernel/src/iommu/qi.rs`, `invalidate_all` and its
  callers in `kernel/src/iommu/vt_d.rs`; section 6.5 of the Intel VT-d specification), as a state
  machine over the steps of one lock holder and of any number of remapping units.

  A unit may cache any translation the page table holds at any moment, in the middle of an update
  included, and consumes its invalidation queue on its own. `removed` records the translations taken
  out of the page table since the last round of invalidation.
 */
module Invalidation {

  const SLOTS: nat := 256

  /** A wait asks for the status word, a fence only keeps the order. */
  datatype Descriptor = Context | Iotlb | Wait | Fence

  /**
    `tail` is the software index behind IQT, `head` the hardware index IQH, `queue` the ring in
    memory. `submitted` and `consumed` are the history the ring indices are reduced from.
   */
  datatype Unit = Unit(
    queued: bool,
    statusPage: bool,
    queue: seq<Descriptor>,
    tail: nat,
    head: nat,
    status: bool,
    tlb: map<nat, nat>,
    submitted: seq<Descriptor>,
    consumed: nat)

  /**
    Where the lock holder stands. `Polling` waits for IQH to reach IQT after a submission; `Fallback` is
    about to submit the fence of a unit that has no status page or whose wait was not taken.
   */
  datatype Pc =
    | Idle
    | Editing
    | Submitting(unit: nat, what: Descriptor)
    | Polling(unit: nat, what: Descriptor)
    | AwaitingStatus(unit: nat)
    | Fallback(unit: nat)
    | FallbackPolling(unit: nat)

  /** `failed` holds the units whose last round did not complete. */
  datatype State = State(units: seq<Unit>, pages: map<nat, nat>, pc: Pc, removed: set<(nat, nat)>, failed: set<nat>)

  datatype Event =
    // the lock holder
    | Lock
    | SetPage(page: nat, frame: nat)
    | ClearPage(page: nat)
    | Unlock              // leave without invalidating: nothing allocated, or a mapping rolled back
    | Invalidate          // start the round over all units
    | Submit
    | Drained             // poll sees IQH == IQT
    | Gives               // poll sees an error or times out
    | StatusSeen
    | StatusTimeout
    | RegisterDone
    | RegisterTimeout
    // a unit
    | Cache(u: nat, page: nat)
    | Evict(u: nat, page: nat)
    | Consume(u: nat)

  /** The round moves to the next unit, or ends. */
  function Advance(s: State, unit: nat): State {
    if unit + 1 < |s.units| then s.(pc := Submitting(unit + 1, Context)) else s.(pc := Idle, removed := {})
  }

  function Complete(s: State, unit: nat): State {
    Advance(s, unit).(failed := s.failed - {unit})
  }

  /** `invalidate_all` returned false for this unit; the caller ignores it and goes on. */
  function GiveUp(s: State, unit: nat): State {
    Advance(s, unit).(failed := s.failed + {unit})
  }

  /** Context, then IOTLB, then wait, then the status word the wait makes hardware write. */
  function AfterDrain(unit: nat, what: Descriptor, statusPage: bool): Pc {
    match what
    case Context => Submitting(unit, Iotlb)
    case Iotlb => if statusPage then Submitting(unit, Wait) else Fallback(unit)
    case Wait | Fence => AwaitingStatus(unit)
  }

  function Enqueue(unit: Unit, d: Descriptor): Unit
    requires unit.tail < |unit.queue|
  {
    unit.(queue := unit.queue[unit.tail := d], tail := (unit.tail + 1) % SLOTS, submitted := unit.submitted + [d])
  }

  function Process(unit: Unit, d: Descriptor): Unit {
    var done := unit.(head := (unit.head + 1) % SLOTS, consumed := unit.consumed + 1);
    match d
    case Context => done
    case Iotlb => done.(tlb := map[])
    case Wait => done.(status := true)
    case Fence => done
  }

  function SetUnit(s: State, u: nat, unit: Unit): State
    requires u < |s.units|
  {
    s.(units := s.units[u := unit])
  }

  /** The descriptor a submission puts in the ring. */
  function Rings(pc: Pc): Descriptor
    requires pc.Submitting? || pc.Fallback?
  {
    if pc.Fallback? then Fence else pc.what
  }

  /** The unit after the holder rings the doorbell; a wait submission first clears the status word. */
  function Rung(unit: Unit, pc: Pc): Unit
    requires (pc.Submitting? || pc.Fallback?) && unit.tail < |unit.queue|
  {
    Enqueue(unit.(status := unit.status && !Rings(pc).Wait?), Rings(pc))
  }

  /** The translation that goes when a page is cleared, if it had one. */
  function Taken(pages: map<nat, nat>, pg: nat): set<(nat, nat)> {
    if pg in pages then {(pg, pages[pg])} else {}
  }

  ghost predicate Next(s: State, e: Event, t: State) {
    match e
    case Lock => s.pc.Idle? && t == s.(pc := Editing)
    case SetPage(pg, f) => s.pc.Editing? && pg !in s.pages && t == s.(pages := s.pages[pg := f])
    case ClearPage(pg) => s.pc.Editing? && t == s.(pages := s.pages - {pg}, removed := s.removed + Taken(s.pages, pg))
    case Unlock => s.pc.Editing? && t == s.(pc := Idle)
    case Invalidate =>
      s.pc.Editing?
      && t == if |s.units| > 0 then s.(pc := Submitting(0, Context)) else s.(pc := Idle, removed := {})
    case Submit =>
      && (s.pc.Submitting? || s.pc.Fallback?) && s.pc.unit < |s.units|
      && s.units[s.pc.unit].queued && s.units[s.pc.unit].tail < |s.units[s.pc.unit].queue|
      && t == SetUnit(s, s.pc.unit, Rung(s.units[s.pc.unit], s.pc))
              .(pc := if s.pc.Fallback? then FallbackPolling(s.pc.unit) else Polling(s.pc.unit, s.pc.what))
    case Drained =>
      && (s.pc.Polling? || s.pc.FallbackPolling?) && s.pc.unit < |s.units|
      && s.units[s.pc.unit].head == s.units[s.pc.unit].tail
      && t == if s.pc.FallbackPolling? then Complete(s, s.pc.unit)
              else s.(pc := AfterDrain(s.pc.unit, s.pc.what, s.units[s.pc.unit].statusPage))
    case Gives =>
      && (s.pc.Polling? || s.pc.FallbackPolling?) && s.pc.unit < |s.units|
      && t == if s.pc.Polling? && s.pc.what.Wait? then s.(pc := Fallback(s.pc.unit)) else GiveUp(s, s.pc.unit)
    case StatusSeen =>
      s.pc.AwaitingStatus? && s.pc.unit < |s.units| && s.units[s.pc.unit].status && t == Complete(s, s.pc.unit)
    case StatusTimeout => s.pc.AwaitingStatus? && s.pc.unit < |s.units| && t == GiveUp(s, s.pc.unit)
    case RegisterDone =>
      && s.pc.Submitting? && s.pc.unit < |s.units| && !s.units[s.pc.unit].queued
      && t == Complete(SetUnit(s, s.pc.unit, s.units[s.pc.unit].(tlb := map[])), s.pc.unit)
    case RegisterTimeout =>
      s.pc.Submitting? && s.pc.unit < |s.units| && !s.units[s.pc.unit].queued && t == GiveUp(s, s.pc.unit)
    case Cache(u, pg) =>
      && u < |s.units| && pg in s.pages
      && t == SetUnit(s, u, s.units[u].(tlb := s.units[u].tlb[pg := s.pages[pg]]))
    case Evict(u, pg) =>
      u < |s.units| && t == SetUnit(s, u, s.units[u].(tlb := s.units[u].tlb - {pg}))
    case Consume(u) =>
      && u < |s.units| && s.units[u].head != s.units[u].tail && s.units[u].head < |s.units[u].queue|
      && t == SetUnit(s, u, Process(s.units[u], s.units[u].queue[s.units[u].head]))
  }

  // ── The ring ───────────────────────────────────────────────────────

  /** The ring holds, in submission order, what was submitted and not yet consumed. */
  ghost predicate Ring(unit: Unit) {
    && |unit.queue| == SLOTS
    && unit.tail == |unit.submitted| % SLOTS
    && unit.head == unit.consumed % SLOTS
    && unit.consumed <= |unit.submitted|
    && forall k | unit.consumed <= k < |unit.submitted| :: unit.queue[k % SLOTS] == unit.submitted[k]
  }

  /** With fewer than 256 descriptors outstanding, equal indices mean an empty ring. */
  lemma DrainedMeansEmpty(unit: Unit)
    requires Ring(unit) && |unit.submitted| < unit.consumed + SLOTS
    ensures unit.head == unit.tail <==> unit.consumed == |unit.submitted|
  {
    if unit.head == unit.tail {
      SameResidue(unit.consumed, |unit.submitted|);
    }
  }

  lemma SameResidue(a: nat, b: nat)
    requires a <= b < a + SLOTS && a % SLOTS == b % SLOTS
    ensures a == b
  {
  }

  lemma OneTurn(a: nat)
    requires a >= SLOTS
    ensures (a - SLOTS) % SLOTS == a % SLOTS
  {
  }

  /** The slot at the tail still holds another descriptor that the hardware has not taken. */
  predicate Overwrites(unit: Unit, d: Descriptor) {
    |unit.submitted| >= unit.consumed + SLOTS && unit.submitted[|unit.submitted| - SLOTS] != d
  }

  lemma EnqueueIntact(unit: Unit, d: Descriptor, k: nat)
    requires Ring(unit) && !Overwrites(unit, d) && unit.consumed <= k < |unit.submitted|
    ensures Enqueue(unit, d).queue[k % SLOTS] == unit.submitted[k]
  {
    var n := |unit.submitted|;
    if k % SLOTS == unit.tail {
      if n < k + SLOTS {
        SameResidue(k, n);
        assert false;
      }
      OneTurn(n);
    }
  }

  /** A submission keeps the ring right exactly when it overwrites no other descriptor that was not taken. */
  lemma EnqueueKeepsRing(unit: Unit, d: Descriptor)
    requires Ring(unit)
    ensures Ring(Enqueue(unit, d)) <==> !Overwrites(unit, d)
  {
    var n, after := |unit.submitted|, Enqueue(unit, d);
    ModStep(n);
    if Overwrites(unit, d) {
      OneTurn(n);
      assert after.queue[(n - SLOTS) % SLOTS] != after.submitted[n - SLOTS];
    } else {
      forall k | after.consumed <= k < |after.submitted| ensures after.queue[k % SLOTS] == after.submitted[k] {
        if k < n {
          EnqueueIntact(unit, d, k);
        }
      }
    }
  }

  lemma ModStep(a: nat)
    ensures (a % SLOTS + 1) % SLOTS == (a + 1) % SLOTS
  {
  }

  /** Hardware takes descriptors in submission order, across any number of wrap-arounds. */
  lemma ConsumesInOrder(unit: Unit)
    requires Ring(unit) && unit.head != unit.tail
    ensures unit.consumed < |unit.submitted| && unit.queue[unit.head] == unit.submitted[unit.consumed]
    ensures Ring(Process(unit, unit.queue[unit.head]))
    ensures Process(unit, unit.queue[unit.head]).consumed == unit.consumed + 1
  {
    ModStep(unit.consumed);
  }

  // ── Coherence ──────────────────────────────────────────────────────

  /** Every cached translation is the current one. */
  predicate Coherent(unit: Unit, pages: map<nat, nat>) {
    forall pg | pg in unit.tlb :: pg in pages && unit.tlb[pg] == pages[pg]
  }

  /** A translation the page table gives. */
  predicate Current(pages: map<nat, nat>, entry: (nat, nat)) {
    entry.0 in pages && pages[entry.0] == entry.1
  }

  /** Every cached translation is current or was taken out since the last round. */
  predicate Accounted(unit: Unit, pages: map<nat, nat>, removed: set<(nat, nat)>) {
    forall pg | pg in unit.tlb :: Current(pages, (pg, unit.tlb[pg])) || (pg, unit.tlb[pg]) in removed
  }

  predicate InRound(pc: Pc) {
    !pc.Idle? && !pc.Editing?
  }

  /** Descriptors of unit `i` that may be outstanding. */
  function Outstanding(pc: Pc, i: nat): nat {
    if !InRound(pc) || pc.unit != i then 0
    else if pc.Polling? || pc.Fallback? then 1
    else if pc.FallbackPolling? then 2
    else 0
  }

  /** This round has flushed unit `i`: its part is complete, or past the IOTLB flush. */
  predicate Flushed(pc: Pc, i: nat, failed: set<nat>) {
    InRound(pc)
    && ((i < pc.unit && i !in failed)
        || (i == pc.unit && ((pc.Submitting? || pc.Polling?) ==> pc.what.Wait? || pc.what.Fence?)))
  }

  /**
    The IOTLB flush was the only descriptor between head and tail when it was submitted, whatever the ring
    holds: either it is the next one taken, or it was taken and the cache is current again.
   */
  predicate Flushing(unit: Unit, pages: map<nat, nat>)
    requires unit.head < |unit.queue|
  {
    || (unit.head == unit.tail && Coherent(unit, pages))
    || (unit.tail == (unit.head + 1) % SLOTS && unit.queue[unit.head] == Iotlb)
  }

  ghost predicate UnitInv(s: State, i: nat)
    requires i < |s.units|
  {
    && |s.units[i].queue| == SLOTS && s.units[i].head < SLOTS && s.units[i].tail < SLOTS
    && (i !in s.failed ==> Accounted(s.units[i], s.pages, s.removed))
    && (Flushed(s.pc, i, s.failed) ==> Coherent(s.units[i], s.pages))
    && (s.pc == Submitting(i, Iotlb) && s.units[i].queued ==> s.units[i].head == s.units[i].tail)
    && (s.pc == Polling(i, Iotlb) ==> Flushing(s.units[i], s.pages))
  }

  ghost predicate Inv(s: State) {
    && (InRound(s.pc) ==> s.pc.unit < |s.units|)
    && (forall i | 0 <= i < |s.units| :: UnitInv(s, i))
  }

  lemma EditKeepsUnit(s: State, e: Event, t: State, i: nat)
    requires (e.Lock? || e.SetPage? || e.ClearPage? || e.Unlock? || e.Invalidate?) && Next(s, e, t)
    requires i < |s.units| && UnitInv(s, i)
    ensures UnitInv(t, i)
  {
  }

  lemma SubmitKeepsUnit(s: State, t: State, i: nat)
    requires Next(s, Submit, t) && i < |s.units| && UnitInv(s, i)
    ensures UnitInv(t, i)
  {
  }

  lemma DrainKeepsUnit(s: State, t: State, i: nat)
    requires Next(s, Drained, t) && i < |s.units| && UnitInv(s, i)
    ensures UnitInv(t, i)
  {
    if s.pc.FallbackPolling? {
      CompleteKeepsUnit(s, t, i);
    }
  }

  /** The cache of a unit that gives up is unaccounted for until the unit completes a round. */
  lemma GiveUpKeepsUnit(s: State, t: State, i: nat)
    requires InRound(s.pc) && s.pc.unit < |s.units| && t == GiveUp(s, s.pc.unit) && i < |s.units| && UnitInv(s, i)
    ensures UnitInv(t, i)
  {
  }

  /** A unit whose cache is flushed and that completes its part of the round is accounted for again. */
  lemma CompleteKeepsUnit(s: State, t: State, i: nat)
    requires InRound(s.pc) && s.pc.unit < |s.units| && t == Complete(s, s.pc.unit) && i < |s.units| && UnitInv(s, i)
    requires i == s.pc.unit ==> Coherent(s.units[i], s.pages)
    ensures UnitInv(t, i)
  {
  }

  lemma RegisterKeepsUnit(s: State, t: State, i: nat)
    requires Next(s, RegisterDone, t) && i < |s.units| && UnitInv(s, i)
    ensures UnitInv(t, i)
  {
    var m := SetUnit(s, s.pc.unit, s.units[s.pc.unit].(tlb := map[]));
    assert UnitInv(m, i);
    CompleteKeepsUnit(m, t, i);
  }

  lemma RoundKeepsUnit(s: State, e: Event, t: State, i: nat)
    requires (e.Gives? || e.StatusSeen? || e.StatusTimeout? || e.RegisterDone? || e.RegisterTimeout?) && Next(s, e, t)
    requires i < |s.units| && UnitInv(s, i)
    ensures UnitInv(t, i)
  {
    if e.StatusSeen? {
      CompleteKeepsUnit(s, t, i);
    } else if e.RegisterDone? {
      RegisterKeepsUnit(s, t, i);
    } else if t.pc != Fallback(s.pc.unit) {
      GiveUpKeepsUnit(s, t, i);
    }
  }

  lemma CacheKeepsUnit(s: State, e: Event, t: State, i: nat)
    requires (e.Cache? || e.Evict?) && Next(s, e, t)
    requires i < |s.units| && UnitInv(s, i)
    ensures UnitInv(t, i)
  {
  }

  /** Taking a descriptor makes no entry stale, and taking the IOTLB flush leaves none. */
  lemma ProcessKeeps(unit: Unit, pages: map<nat, nat>, removed: set<(nat, nat)>)
    requires |unit.queue| == SLOTS && unit.head < SLOTS && unit.head != unit.tail
    ensures var done := Process(unit, unit.queue[unit.head]);
            && done.head < SLOTS && done.tail == unit.tail
            && (Accounted(unit, pages, removed) ==> Accounted(done, pages, removed))
            && (Coherent(unit, pages) ==> Coherent(done, pages))
            && (Flushing(unit, pages) ==> Flushing(done, pages))
  {
  }

  lemma ConsumeKeepsUnit(s: State, e: Event, t: State, i: nat)
    requires e.Consume? && Next(s, e, t) && i < |s.units| && UnitInv(s, i)
    ensures UnitInv(t, i)
  {
    if i == e.u {
      ProcessKeeps(s.units[i], s.pages, s.removed);
    }
  }

  lemma StepKeepsUnit(s: State, e: Event, t: State, i: nat)
    requires Next(s, e, t) && i < |s.units| && UnitInv(s, i)
    ensures i < |t.units| && UnitInv(t, i)
  {
    match e
    case Submit => SubmitKeepsUnit(s, t, i);
    case Drained => DrainKeepsUnit(s, t, i);
    case Consume(_) => ConsumeKeepsUnit(s, e, t, i);
    case Cache(_, _) | Evict(_, _) => CacheKeepsUnit(s, e, t, i);
    case Gives | StatusSeen | StatusTimeout | RegisterDone | RegisterTimeout => RoundKeepsUnit(s, e, t, i);
    case Lock | SetPage(_, _) | ClearPage(_) | Unlock | Invalidate => EditKeepsUnit(s, e, t, i);
  }

  lemma StepKeepsShape(s: State, e: Event, t: State)
    requires (InRound(s.pc) ==> s.pc.unit < |s.units|) && Next(s, e, t)
    ensures (InRound(t.pc) ==> t.pc.unit < |t.units|) && |t.units| == |s.units|
  {
  }

  lemma NextKeepsInv(s: State, e: Event, t: State)
    requires Inv(s) && Next(s, e, t)
    ensures Inv(t)
  {
    StepKeepsShape(s, e, t);
    forall i | 0 <= i < |t.units|
      ensures UnitInv(t, i)
    {
      StepKeepsUnit(s, e, t, i);
    }
  }

  // ── Runs ───────────────────────────────────────────────────────────

  ghost predicate Initial(s: State) {
    && s.pc.Idle? && s.removed == {} && s.failed == {}
    && forall i | 0 <= i < |s.units| ::
         var u := s.units[i];
         |u.queue| == SLOTS && u.tail == 0 && u.head == 0 && u.submitted == [] && u.consumed == 0 && u.tlb == map[]
  }

  ghost predicate StepAt(states: seq<State>, events: seq<Event>, i: nat)
    requires i < |events| && i + 1 < |states|
  {
    Next(states[i], events[i], states[i + 1])
  }

  ghost predicate Run(states: seq<State>, events: seq<Event>) {
    && |states| == |events| + 1
    && Initial(states[0])
    && forall i {:trigger StepAt(states, events, i)} | 0 <= i < |events| :: StepAt(states, events, i)
  }

  lemma {:induction false} RunKeepsInv(states: seq<State>, events: seq<Event>, i: nat)
    requires Run(states, events) && i < |states|
    ensures Inv(states[i])
  {
    if i > 0 {
      RunKeepsInv(states, events, i - 1);
      assert StepAt(states, events, i - 1);
      NextKeepsInv(states[i - 1], events[i - 1], states[i]);
    }
  }

  /**
    Whenever the lock is free, an entry cached by a unit whose last `invalidate_all` succeeded is the current
    translation or one that was taken out since the last round; with none of those, all are current. Neither
    earlier failures nor what they left in the ring matter.
   */
  lemma CachesCoherent(states: seq<State>, events: seq<Event>, i: nat, u: nat)
    requires Run(states, events) && i < |states|
    requires states[i].pc.Idle? && u < |states[i].units| && u !in states[i].failed
    ensures Accounted(states[i].units[u], states[i].pages, states[i].removed)
    ensures (forall entry | entry in states[i].removed :: Current(states[i].pages, entry)) ==>
              Coherent(states[i].units[u], states[i].pages)
  {
    RunKeepsInv(states, events, i);
    assert UnitInv(states[i], u);
  }

  /** The part of unit `u` in a round ends with success. */
  ghost predicate Completes(s: State, e: Event, u: nat) {
    && InRound(s.pc) && s.pc.unit == u
    && (e.StatusSeen? || e.RegisterDone? || (e.Drained? && s.pc.FallbackPolling?))
  }

  /** Whatever failed before, a unit that completes its part of a round caches only current translations. */
  lemma RoundRestores(states: seq<State>, events: seq<Event>, i: nat, u: nat)
    requires Run(states, events) && i < |events| && Completes(states[i], events[i], u)
    requires u < |states[i].units|
    ensures u < |states[i + 1].units| && u !in states[i + 1].failed
    ensures Coherent(states[i + 1].units[u], states[i + 1].pages)
  {
    RunKeepsInv(states, events, i);
    assert StepAt(states, events, i);
    assert UnitInv(states[i], u);
  }

  // ── Order in the ring ──────────────────────────────────────────────

  /** The step submits a descriptor over another that unit `u` has not taken. */
  ghost predicate Overruns(s: State, e: Event, u: nat)
    requires u < |s.units|
  {
    e.Submit? && (s.pc.Submitting? || s.pc.Fallback?) && s.pc.unit == u && Overwrites(s.units[u], Rings(s.pc))
  }

  lemma StepKeepsRing(s: State, e: Event, t: State, u: nat)
    requires Next(s, e, t) && u < |s.units| && Ring(s.units[u])
    ensures u < |t.units| && (Ring(t.units[u]) <==> !Overruns(s, e, u))
  {
    if e.Submit? && s.pc.unit == u {
      EnqueueKeepsRing(s.units[u].(status := s.units[u].status && !Rings(s.pc).Wait?), Rings(s.pc));
    } else if e.Consume? && e.u == u {
      ConsumesInOrder(s.units[u]);
    }
  }

  lemma {:induction false} SameUnits(states: seq<State>, events: seq<Event>, i: nat, j: nat)
    requires Run(states, events) && i <= j < |states|
    ensures |states[i].units| == |states[j].units|
  {
    if i < j {
      SameUnits(states, events, i, j - 1);
      RunKeepsInv(states, events, j - 1);
      assert StepAt(states, events, j - 1);
      StepKeepsShape(states[j - 1], events[j - 1], states[j]);
    }
  }

  ghost predicate RingUntil(states: seq<State>, n: nat, u: nat)
    requires n < |states|
  {
    forall i | 0 <= i <= n :: u < |states[i].units| && Ring(states[i].units[u])
  }

  ghost predicate NoOverrun(states: seq<State>, events: seq<Event>, n: nat, u: nat)
    requires n <= |events| && n <= |states|
  {
    forall i | 0 <= i < n :: u < |states[i].units| && !Overruns(states[i], events[i], u)
  }

  /** A ring is right all along a run exactly when no submission overwrites a descriptor that was not taken. */
  lemma {:induction false} RunKeepsRing(states: seq<State>, events: seq<Event>, n: nat, u: nat)
    requires Run(states, events) && n <= |events| && u < |states[0].units|
    ensures RingUntil(states, n, u) <==> NoOverrun(states, events, n, u)
  {
    if n > 0 {
      RunKeepsRing(states, events, n - 1, u);
      SameUnits(states, events, 0, n - 1);
      SameUnits(states, events, 0, n);
      assert RingUntil(states, n, u) <==> RingUntil(states, n - 1, u) && Ring(states[n].units[u]);
      assert NoOverrun(states, events, n, u) <==>
             NoOverrun(states, events, n - 1, u) && !Overruns(states[n - 1], events[n - 1], u);
      if RingUntil(states, n - 1, u) {
        assert StepAt(states, events, n - 1);
        StepKeepsRing(states[n - 1], events[n - 1], states[n], u);
      }
    }
  }

  /** The ring is right and holds no more than what this round has submitted and not seen drained. */
  ghost predicate UpToDate(s: State, u: nat) {
    u < |s.units| && Ring(s.units[u]) && |s.units[u].submitted| <= s.units[u].consumed + Outstanding(s.pc, u)
  }

  lemma StaysUpToDate(s: State, e: Event, t: State, u: nat)
    requires Next(s, e, t) && UpToDate(s, u) && u !in t.failed
    ensures UpToDate(t, u)
  {
    StepKeepsRing(s, e, t, u);
    if e.Drained? {
      DrainedUpToDate(s, t, u);
    } else if OfHardware(e) {
      HardwareUpToDate(s, e, t, u);
    }
  }

  lemma DrainedUpToDate(s: State, t: State, u: nat)
    requires Next(s, Drained, t) && UpToDate(s, u) && u !in t.failed && Ring(t.units[u])
    ensures UpToDate(t, u)
  {
    if s.pc.unit == u {
      DrainedMeansEmpty(s.units[u]);
    }
  }

  lemma HardwareUpToDate(s: State, e: Event, t: State, u: nat)
    requires OfHardware(e) && Next(s, e, t) && UpToDate(s, u) && u < |t.units| && Ring(t.units[u])
    ensures UpToDate(t, u)
  {
  }

  /** A unit whose rounds have not failed has at most two descriptors waiting, so its ring never overruns. */
  lemma {:induction false} NeverBehind(states: seq<State>, events: seq<Event>, i: nat, u: nat)
    requires Run(states, events) && i < |states| && u < |states[0].units|
    requires forall k | 0 <= k <= i :: u !in states[k].failed
    ensures UpToDate(states[i], u)
  {
    if i > 0 {
      NeverBehind(states, events, i - 1, u);
      assert StepAt(states, events, i - 1);
      StaysUpToDate(states[i - 1], events[i - 1], states[i], u);
    }
  }

  lemma Grows(states: seq<State>, events: seq<Event>, e: Event, t: State)
    requires Run(states, events) && Next(states[|events|], e, t)
    ensures Run(states + [t], events + [e])
  {
    forall i | 0 <= i < |events| + 1 ensures StepAt(states + [t], events + [e], i) {
      assert i < |events| ==> StepAt(states, events, i);
    }
  }

  // ── The status word ────────────────────────────────────────────────

  /** The wait of this round is the last descriptor, and once it is taken the status word is written. */
  predicate Waits(unit: Unit) {
    && |unit.submitted| > 0 && unit.submitted[|unit.submitted| - 1] == Wait
    && (unit.consumed == |unit.submitted| ==> unit.status)
  }

  ghost predicate StatusInv(s: State, u: nat) {
    && u < |s.units| && Ring(s.units[u])
    && (s.pc.Submitting? || s.pc.Polling? ==> !s.pc.what.Fence?)
    && (s.pc == Polling(u, Wait) || s.pc == AwaitingStatus(u) ==> Waits(s.units[u]))
    && (s.pc == AwaitingStatus(u) ==> s.units[u].consumed == |s.units[u].submitted|)
  }

  lemma TakesWait(unit: Unit)
    requires Ring(unit) && unit.head != unit.tail && Waits(unit)
    ensures Waits(Process(unit, unit.queue[unit.head]))
  {
    ConsumesInOrder(unit);
  }

  /** Steps of the units. */
  lemma HardwareKeepsStatus(s: State, e: Event, t: State, u: nat)
    requires Next(s, e, t) && (e.Consume? || e.Cache? || e.Evict?) && StatusInv(s, u) && Ring(t.units[u])
    ensures StatusInv(t, u)
  {
    if e.Consume? && e.u == u {
      if Waits(s.units[u]) {
        TakesWait(s.units[u]);
      }
    }
  }

  /** Steps of the lock holder that submit, or see the ring drained. */
  lemma HolderKeepsStatus(s: State, e: Event, t: State, u: nat)
    requires Next(s, e, t) && (e.Submit? || e.Drained?) && StatusInv(s, u) && Ring(t.units[u])
    requires |s.units[u].submitted| < s.units[u].consumed + SLOTS
    ensures StatusInv(t, u)
  {
    DrainedMeansEmpty(s.units[u]);
  }

  lemma StepKeepsStatus(s: State, e: Event, t: State, u: nat)
    requires Next(s, e, t) && StatusInv(s, u) && |s.units[u].submitted| < s.units[u].consumed + SLOTS
    ensures StatusInv(t, u)
  {
    StepKeepsRing(s, e, t, u);
    if e.Consume? || e.Cache? || e.Evict? {
      HardwareKeepsStatus(s, e, t, u);
    } else if e.Submit? || e.Drained? {
      HolderKeepsStatus(s, e, t, u);
    }
  }

  lemma {:induction false} RunKeepsStatus(states: seq<State>, events: seq<Event>, i: nat, u: nat)
    requires Run(states, events) && i < |states| && u < |states[0].units|
    requires forall k | 0 <= k < i && u < |states[k].units| ::
               |states[k].units[u].submitted| < states[k].units[u].consumed + SLOTS
    ensures StatusInv(states[i], u)
  {
    if i > 0 {
      RunKeepsStatus(states, events, i - 1, u);
      assert StepAt(states, events, i - 1);
      StepKeepsStatus(states[i - 1], events[i - 1], states[i], u);
    }
  }

  /** On a run on which its ring was never full, a unit's status word is seen only when it took this round's wait. */
  lemma StatusMeansTaken(states: seq<State>, events: seq<Event>, i: nat, u: nat)
    requires Run(states, events) && i < |events| && events[i] == StatusSeen && u < |states[0].units|
    requires states[i].pc == AwaitingStatus(u)
    requires forall k | 0 <= k < i && u < |states[k].units| ::
               |states[k].units[u].submitted| < states[k].units[u].consumed + SLOTS
    ensures u < |states[i].units| && Waits(states[i].units[u])
    ensures states[i].units[u].consumed == |states[i].units[u].submitted| && states[i].units[u].status
  {
    RunKeepsStatus(states, events, i, u);
  }

  // ── What a unit without a status page is spared, and what fails one ──

  /** The holder deals in waits with unit `u`. */
  predicate Expects(pc: Pc, u: nat) {
    pc == Submitting(u, Wait) || pc == Polling(u, Wait) || pc == AwaitingStatus(u)
  }

  ghost predicate Spared(s: State, u: nat) {
    && u < |s.units| && !s.units[u].statusPage && Wait !in s.units[u].submitted && !Expects(s.pc, u)
    && (s.pc.Submitting? || s.pc.Polling? ==> !s.pc.what.Fence?)
  }

  lemma StaysSpared(s: State, e: Event, t: State, u: nat)
    requires Next(s, e, t) && Spared(s, u)
    ensures Spared(t, u)
  {
  }

  /** In every run a unit with nowhere to write a status word is sent no wait, and the holder awaits no word of it. */
  lemma {:induction false} NoPageNoWait(states: seq<State>, events: seq<Event>, i: nat, u: nat)
    requires Run(states, events) && i < |states| && u < |states[0].units| && !states[0].units[u].statusPage
    ensures u < |states[i].units| && Wait !in states[i].units[u].submitted && !Expects(states[i].pc, u)
    ensures Spared(states[i], u)
  {
    if i > 0 {
      NoPageNoWait(states, events, i - 1, u);
      assert StepAt(states, events, i - 1);
      StaysSpared(states[i - 1], events[i - 1], states[i], u);
    }
  }

  /** A unit fails exactly by an unanswered flush or an unwritten word; a wait that is not taken leaves it the fence. */
  lemma FailsExactly(s: State, e: Event, t: State, u: nat)
    requires Next(s, e, t) && u !in s.failed
    ensures u in t.failed <==>
            && InRound(s.pc) && s.pc.unit == u
            && (e == StatusTimeout || e == RegisterTimeout || (e == Gives && s.pc != Polling(u, Wait)))
  {
  }

  // ── A ring that overruns ───────────────────────────────────────────

  /** One unit with a queue, in the state after `k` rounds in which it took nothing. */
  ghost predicate Stalled(s: State, k: nat) {
    && s.pc.Idle? && |s.units| == 1
    && var u := s.units[0];
    && u.queued && |u.queue| == SLOTS && u.head == 0 && u.tail == k % SLOTS && u.consumed == 0
    && |u.submitted| == k && (forall i | 0 <= i < k :: u.submitted[i] == Context)
  }

  lemma StalledSubmit(s: State, k: nat) returns (a: State, b: State, c: State)
    requires Stalled(s, k)
    ensures Next(s, Lock, a) && Next(a, Invalidate, b) && Next(b, Submit, c)
    ensures c.pc == Polling(0, Context) && Stalled(c.(pc := Idle), k + 1)
  {
    ModStep(k);
    a := s.(pc := Editing);
    b := a.(pc := Submitting(0, Context));
    c := SetUnit(b, 0, Rung(b.units[0], b.pc)).(pc := Polling(0, Context));
  }

  lemma StalledRing(states: seq<State>, events: seq<Event>, k: nat) returns (more: seq<State>, taken: seq<Event>)
    requires Run(states, events) && Stalled(states[|events|], k)
    ensures Run(more, taken) && more[|taken|].pc == Polling(0, Context)
    ensures Stalled(more[|taken|].(pc := Idle), k + 1)
  {
    var a, b, c := StalledSubmit(states[|events|], k);
    Grows(states, events, Lock, a);
    Grows(states + [a], events + [Lock], Invalidate, b);
    Grows(states + [a] + [b], events + [Lock] + [Invalidate], Submit, c);
    more, taken := states + [a] + [b] + [c], events + [Lock] + [Invalidate] + [Submit];
  }

  lemma {:induction false} StalledRounds(k: nat) returns (states: seq<State>, events: seq<Event>)
    ensures Run(states, events) && Stalled(states[|events|], k)
  {
    if k == 0 {
      var unit := Unit(true, true, seq(SLOTS, i => Wait), 0, 0, false, map[], [], 0);
      states, events := [State([unit], map[], Idle, {}, {})], [];
    } else {
      states, events := StalledRounds(k - 1);
      states, events := StalledRing(states, events, k - 1);
      var t := GiveUp(states[|events|], 0);
      Grows(states, events, Gives, t);
      states, events := states + [t], events + [Gives];
    }
  }

  /**
    A unit that takes nothing for 255 rounds looks drained after the next submission, and the one after that
    overwrites a descriptor it has not taken.
   */
  lemma RingOverruns() returns (states: seq<State>, events: seq<Event>, t: State)
    ensures Run(states, events) && |states[|events|].units| == 1
    ensures Overruns(states[|events|], Submit, 0) && Next(states[|events|], Submit, t)
    ensures |t.units| == 1 && !Ring(t.units[0])
  {
    states, events := StalledRounds(SLOTS - 1);
    states, events := StalledRing(states, events, SLOTS - 1);
    var s := states[|events|].(pc := Submitting(0, Iotlb));
    Grows(states, events, Drained, s);
    states, events := states + [s], events + [Drained];
    t := SetUnit(s, 0, Rung(s.units[0], s.pc)).(pc := Polling(0, Iotlb));
    assert t.units[0].queue[0 % SLOTS] == Iotlb && t.units[0].submitted[0] == Context;
  }

  // ── What was taken out can still be cached ─────────────────────────

  predicate OfHardware(e: Event) {
    e.Cache? || e.Evict? || e.Consume?
  }

  /** The steps of the lock holder in a history. */
  function OfHolder(events: seq<Event>): (r: seq<Event>) {
    if events == [] then [] else
      var e := events[|events| - 1];
      OfHolder(events[..|events| - 1]) + if OfHardware(e) then [] else [e]
  }

  lemma OfHolderStep(events: seq<Event>, e: Event)
    ensures OfHolder(events + [e]) == OfHolder(events) + if OfHardware(e) then [] else [e]
  {
    assert (events + [e])[..|events|] == events;
  }

  lemma Adds(s: State, e: Event, t: State, entry: (nat, nat))
    requires Next(s, e, t) && entry in t.removed && entry !in s.removed
    ensures e == ClearPage(entry.0) && Current(s.pages, entry)
  {
  }

  /** A translation counted as taken out was taken out at some step, and has been counted ever since. */
  lemma {:induction false} TakenAt(states: seq<State>, events: seq<Event>, n: nat, entry: (nat, nat)) returns (j: nat)
    requires Run(states, events) && n < |states| && entry in states[n].removed
    ensures j < n && events[j] == ClearPage(entry.0) && Current(states[j].pages, entry)
    ensures forall m | j < m <= n :: entry in states[m].removed
  {
    if entry in states[n - 1].removed {
      j := TakenAt(states, events, n - 1, entry);
    } else {
      j := n - 1;
      assert StepAt(states, events, j);
      Adds(states[j], events[j], states[n], entry);
    }
  }

  lemma LeavesRound(s: State, e: Event, t: State)
    requires Next(s, e, t) && InRound(s.pc) && !InRound(t.pc)
    ensures t.removed == {}
  {
  }

  /** Since it was taken out there has been no round. */
  lemma {:induction false} NoRound(states: seq<State>, events: seq<Event>, m: nat, n: nat, entry: (nat, nat))
    requires Run(states, events) && m <= n < |states| && states[n].pc.Idle?
    requires forall i | m <= i <= n :: entry in states[i].removed
    ensures !InRound(states[m].pc)
    decreases n - m
  {
    if m < n {
      NoRound(states, events, m + 1, n, entry);
      assert StepAt(states, events, m);
      if InRound(states[m].pc) {
        LeavesRound(states[m], events[m], states[m + 1]);
      }
    }
  }

  ghost predicate SameHolder(s: State, t: State) {
    s.pages == t.pages && s.pc == t.pc && s.removed == t.removed && s.failed == t.failed && |s.units| == |t.units|
  }

  /** Outside a round the lock holder does not look at the units, and the units may do nothing. */
  lemma Follows(s: State, e: Event, t: State, a: State) returns (b: State)
    requires Next(s, e, t) && SameHolder(s, a) && !InRound(s.pc) && !InRound(t.pc)
    ensures SameHolder(t, b) && b.units == a.units && if OfHardware(e) then b == a else Next(a, e, b)
  {
    b := a.(pages := t.pages, pc := t.pc, removed := t.removed);
  }

  predicate Keeps(s: State, u: nat, entry: (nat, nat)) {
    u < |s.units| && entry.0 in s.units[u].tlb && s.units[u].tlb[entry.0] == entry.1
  }

  ghost predicate SameHistory(events: seq<Event>, more: seq<Event>, s: State, t: State) {
    OfHolder(events) == OfHolder(more) && SameHolder(s, t)
  }

  lemma Prefix(states: seq<State>, events: seq<Event>, j: nat)
    requires Run(states, events) && j <= |events|
    ensures Run(states[..j + 1], events[..j])
  {
    var some, few := states[..j + 1], events[..j];
    forall i | 0 <= i < j ensures StepAt(some, few, i) {
      assert StepAt(states, events, i);
    }
  }

  lemma SameStep(events: seq<Event>, m: nat, more: seq<Event>)
    requires m < |events| && OfHolder(events[..m]) == OfHolder(more)
    ensures OfHolder(events[..m + 1]) == OfHolder(if OfHardware(events[m]) then more else more + [events[m]])
  {
    OfHolderStep(events[..m], events[m]);
    OfHolderStep(more, events[m]);
    assert events[..m + 1] == events[..m] + [events[m]];
  }

  /** The run up to the removal, with the unit caching the translation just before it goes. */
  lemma CachesFirst(states: seq<State>, events: seq<Event>, j: nat, u: nat, entry: (nat, nat))
    returns (other: seq<State>, more: seq<Event>)
    requires Run(states, events) && j < |events| && u < |states[j].units|
    requires events[j] == ClearPage(entry.0) && Current(states[j].pages, entry)
    ensures Run(other, more) && SameHistory(events[..j + 1], more, states[j + 1], other[|more|])
    ensures Keeps(other[|more|], u, entry)
  {
    var s, pg := states[j], entry.0;
    var c := SetUnit(s, u, s.units[u].(tlb := s.units[u].tlb[pg := s.pages[pg]]));
    var d := c.(pages := states[j + 1].pages, removed := states[j + 1].removed);
    assert StepAt(states, events, j);
    Prefix(states, events, j);
    Grows(states[..j + 1], events[..j], Cache(u, pg), c);
    Grows(states[..j + 1] + [c], events[..j] + [Cache(u, pg)], ClearPage(pg), d);
    OfHolderStep(events[..j], Cache(u, pg));
    SameStep(events, j, events[..j] + [Cache(u, pg)]);
    other, more := states[..j + 1] + [c] + [d], events[..j] + [Cache(u, pg)] + [ClearPage(pg)];
  }

  lemma ReplayStep(states: seq<State>, events: seq<Event>, m: nat, u: nat, entry: (nat, nat),
                   before: seq<State>, taken: seq<Event>)
    returns (other: seq<State>, more: seq<Event>)
    requires Run(states, events) && m < |events| && !InRound(states[m].pc) && !InRound(states[m + 1].pc)
    requires Run(before, taken) && SameHistory(events[..m], taken, states[m], before[|taken|])
    requires Keeps(before[|taken|], u, entry)
    ensures Run(other, more) && SameHistory(events[..m + 1], more, states[m + 1], other[|more|])
    ensures Keeps(other[|more|], u, entry)
  {
    assert StepAt(states, events, m);
    var b := Follows(states[m], events[m], states[m + 1], before[|taken|]);
    SameStep(events, m, taken);
    if OfHardware(events[m]) {
      other, more := before, taken;
    } else {
      Grows(before, taken, events[m], b);
      other, more := before + [b], taken + [events[m]];
    }
  }

  /** The steps of the lock holder since the removal, with the units doing nothing. */
  lemma {:induction false} Replay(states: seq<State>, events: seq<Event>, j: nat, n: nat, u: nat, entry: (nat, nat))
    returns (other: seq<State>, more: seq<Event>)
    requires Run(states, events) && j < n < |states| && u < |states[j].units|
    requires events[j] == ClearPage(entry.0) && Current(states[j].pages, entry)
    requires forall m | j < m <= n :: !InRound(states[m].pc)
    ensures Run(other, more) && SameHistory(events[..n], more, states[n], other[|more|])
    ensures Keeps(other[|more|], u, entry)
  {
    if n == j + 1 {
      other, more := CachesFirst(states, events, j, u, entry);
    } else {
      other, more := Replay(states, events, j, n - 1, u, entry);
      other, more := ReplayStep(states, events, n - 1, u, entry, other, more);
    }
  }

  /**
    The other half: whenever the lock is free and a translation taken out since the last round is not back, the
    same steps of the lock holder can leave any unit holding it.
   */
  lemma StaleIsPossible(states: seq<State>, events: seq<Event>, n: nat, u: nat, entry: (nat, nat))
    returns (other: seq<State>, more: seq<Event>)
    requires Run(states, events) && n < |states| && states[n].pc.Idle? && u < |states[n].units|
    requires entry in states[n].removed && !Current(states[n].pages, entry)
    ensures Run(other, more) && SameHistory(events[..n], more, states[n], other[|more|])
    ensures u < |other[|more|].units| && !Coherent(other[|more|].units[u], other[|more|].pages)
  {
    var j := TakenAt(states, events, n, entry);
    forall m | j < m <= n ensures !InRound(states[m].pc) {
      NoRound(states, events, m, n, entry);
    }
    SameUnits(states, events, j, n);
    other, more := Replay(states, events, j, n, u, entry);
  }

  /**
    A mapping rolled back under the lock, as when a later page of the same call fails, is followed by no round.
    From every idle state such a call can leave any unit holding a translation the page table no longer has.
   */
  lemma RollbackLeavesStale(s: State, u: nat, pg: nat, frame: nat)
    requires s.pc.Idle? && u < |s.units| && pg !in s.pages
    ensures exists a, b, c, d, t ::
              && Next(s, Lock, a) && Next(a, SetPage(pg, frame), b) && Next(b, Cache(u, pg), c)
              && Next(c, ClearPage(pg), d) && Next(d, Unlock, t)
              && t.pc.Idle? && t.failed == s.failed && t.removed == s.removed + {(pg, frame)} && t.pages == s.pages
              && u < |t.units| && !Coherent(t.units[u], t.pages)
  {
    var a := s.(pc := Editing);
    var b := a.(pages := a.pages[pg := frame]);
    var c := SetUnit(b, u, b.units[u].(tlb := b.units[u].tlb[pg := frame]));
    var d := c.(pages := c.pages - {pg}, removed := c.removed + {(pg, frame)});
    var t := d.(pc := Idle);
    assert d.pages == s.pages;
    assert pg in t.units[u].tlb;
    assert Next(s, Lock, a) && Next(a, SetPage(pg, frame), b) && Next(b, Cache(u, pg), c);
    assert Next(c, ClearPage(pg), d) && Next(d, Unlock, t);
  }
}
