/**
  The bounded multi-producer single-consumer event queue (`input/queue.rs`), as a transition system in
  which every atomic operation is a step and the event is written and read in two halves. Any number
  of producers interleave with the consumer. `claimed` records the events in the order their slots
  were claimed and `claimants` who claimed them, `popped` what the consumer was given, and `sent` the events
  for which `push` answered true; the algorithm uses none of these.
 */
module InputQueue {
  import opened Common

  const CAPACITY: nat := 256

  /** An input event: two halves that are written one after the other. */
  datatype Item = Item(lo: nat, hi: nat)

  datatype Slot = Slot(turn: nat, lo: nat, hi: nat)

  datatype Producer =
    | Idle
    | Trying(item: Item)                        // at the top of the loop
    | HasHead(item: Item, head: nat)
    | HasTail(item: Item, head: nat, tail: nat) // not full by these two readings
    | Owns(item: Item, at: nat)                 // the exchange succeeded, spinning on the slot
    | Free(item: Item, at: nat)                 // the slot was seen empty
    | HalfWritten(item: Item, at: nat)
    | Written(item: Item, at: nat)

  datatype Consumer =
    | Resting
    | SawTail(tail: nat)
    | Waiting(tail: nat)                        // the queue was seen not empty, spinning on the slot
    | Ready(tail: nat)                          // the slot was seen published
    | HalfRead(tail: nat, lo: nat)
    | Taken(tail: nat, item: Item)
    | Released(tail: nat, item: Item)

  datatype State = State(
    head: nat,
    tail: nat,
    slots: seq<Slot>,
    producers: map<nat, Producer>,
    consumer: Consumer,
    owner: map<nat, nat>,
    claimed: seq<Item>,
    claimants: seq<nat>,
    popped: seq<Item>,
    sent: map<nat, seq<Item>>)

  datatype Event =
    | Push(p: nat, item: Item)
    | LoadHead(p: nat)
    | LoadTail(p: nat)
    | Exchange(p: nat)
    | WeakFailure(p: nat)                       // a weak exchange may fail for no reason
    | SlotEmpty(p: nat)
    | WriteLow(p: nat)
    | WriteHigh(p: nat)
    | Publish(p: nat)
    | PopTail
    | PopHead
    | SlotReady
    | ReadLow
    | ReadHigh
    | ReleaseSlot
    | StoreTail

  predicate Is(s: State, p: nat, pc: Producer) {
    p in s.producers && s.producers[p] == pc
  }

  /** The full test: the difference of two 64-bit readings, which wraps when the head reading is the older one. */
  predicate Refuses(head: nat, tail: nat) {
    head < tail || head - tail >= CAPACITY
  }

  function At(s: State, pos: nat): (slot: Slot)
    requires |s.slots| == CAPACITY
  {
    s.slots[pos % CAPACITY]
  }

  predicate Enabled(s: State, e: Event) {
    && |s.slots| == CAPACITY
    && match e
       case Push(p, item) => p in s.producers && s.producers[p].Idle?
       case LoadHead(p) => p in s.producers && s.producers[p].Trying?
       case LoadTail(p) => p in s.producers && s.producers[p].HasHead?
       case Exchange(p) => p in s.producers && s.producers[p].HasTail?
       case WeakFailure(p) => p in s.producers && s.producers[p].HasTail?
       case SlotEmpty(p) =>
         p in s.producers && s.producers[p].Owns? && At(s, s.producers[p].at).turn == 2 * (s.producers[p].at / CAPACITY)
       case WriteLow(p) => p in s.producers && s.producers[p].Free?
       case WriteHigh(p) => p in s.producers && s.producers[p].HalfWritten?
       case Publish(p) => p in s.producers && s.producers[p].Written?
       case PopTail => s.consumer.Resting?
       case PopHead => s.consumer.SawTail?
       case SlotReady => s.consumer.Waiting? && At(s, s.consumer.tail).turn == 2 * (s.consumer.tail / CAPACITY) + 1
       case ReadLow => s.consumer.Ready?
       case ReadHigh => s.consumer.HalfRead?
       case ReleaseSlot => s.consumer.Taken?
       case StoreTail => s.consumer.Released?
  }

  function Sent(s: State, p: nat): (items: seq<Item>) {
    if p in s.sent then s.sent[p] else []
  }

  function SetSlot(s: State, pos: nat, slot: Slot): (t: State)
    requires |s.slots| == CAPACITY
  {
    s.(slots := s.slots[pos % CAPACITY := slot])
  }

  function SetPc(s: State, p: nat, pc: Producer): (t: State) {
    s.(producers := s.producers[p := pc])
  }

  function Apply(s: State, e: Event): (t: State)
    requires Enabled(s, e)
  {
    match e
    case Push(p, item) => SetPc(s, p, Trying(item))
    case LoadHead(p) => SetPc(s, p, HasHead(s.producers[p].item, s.head))
    case LoadTail(p) =>
      var pc := s.producers[p];
      SetPc(s, p, if Refuses(pc.head, s.tail) then Idle else HasTail(pc.item, pc.head, s.tail))
    case Exchange(p) =>
      var pc := s.producers[p];
      if pc.head == s.head then
        SetPc(s, p, Owns(pc.item, s.head))
          .(head := s.head + 1, owner := s.owner[s.head := p], claimed := s.claimed + [pc.item],
            claimants := s.claimants + [p])
      else SetPc(s, p, Trying(pc.item))
    case WeakFailure(p) => SetPc(s, p, Trying(s.producers[p].item))
    case SlotEmpty(p) => SetPc(s, p, Free(s.producers[p].item, s.producers[p].at))
    case WriteLow(p) =>
      var pc := s.producers[p];
      SetPc(SetSlot(s, pc.at, At(s, pc.at).(lo := pc.item.lo)), p, HalfWritten(pc.item, pc.at))
    case WriteHigh(p) =>
      var pc := s.producers[p];
      SetPc(SetSlot(s, pc.at, At(s, pc.at).(hi := pc.item.hi)), p, Written(pc.item, pc.at))
    case Publish(p) =>
      var pc := s.producers[p];
      SetPc(SetSlot(s, pc.at, At(s, pc.at).(turn := 2 * (pc.at / CAPACITY) + 1)), p, Idle)
        .(owner := s.owner - {pc.at}, sent := s.sent[p := Sent(s, p) + [pc.item]])
    case PopTail => s.(consumer := SawTail(s.tail))
    case PopHead => s.(consumer := if s.consumer.tail == s.head then Resting else Waiting(s.consumer.tail))
    case SlotReady => s.(consumer := Ready(s.consumer.tail))
    case ReadLow => s.(consumer := HalfRead(s.consumer.tail, At(s, s.consumer.tail).lo))
    case ReadHigh => s.(consumer := Taken(s.consumer.tail, Item(s.consumer.lo, At(s, s.consumer.tail).hi)))
    case ReleaseSlot =>
      var c := s.consumer;
      SetSlot(s, c.tail, At(s, c.tail).(turn := 2 * (c.tail / CAPACITY) + 2)).(consumer := Released(c.tail, c.item))
    case StoreTail => s.(tail := s.consumer.tail + 1, consumer := Resting, popped := s.popped + [s.consumer.item])
  }

  // ---- The invariant -----------------------------------------------------------------------

  predicate InSlot(pc: Producer) {
    pc.Owns? || pc.Free? || pc.HalfWritten? || pc.Written?
  }

  predicate Holds(pc: Producer, pos: nat) {
    InSlot(pc) && pc.at == pos
  }

  /** The indices and the histories. */
  ghost predicate Indices(s: State) {
    && |s.slots| == CAPACITY && s.head == |s.claimed| == |s.claimants| && s.tail == |s.popped|
    && s.tail <= s.head <= s.tail + CAPACITY && s.popped == s.claimed[..s.tail]
  }

  /** What a slot holds, for each of the positions that are in reach. */
  ghost predicate SlotOk(s: State, pos: nat)
    requires Indices(s) && s.tail <= pos < s.tail + CAPACITY
  {
    var slot, round := At(s, pos), pos / CAPACITY;
    if pos >= s.head || pos in s.owner then slot.turn == 2 * round
    else if pos == s.tail && s.consumer.Released? then slot.turn == 2 * round + 2
    else slot.turn == 2 * round + 1 && Item(slot.lo, slot.hi) == s.claimed[pos]
  }

  ghost predicate ProducerOk(s: State, p: nat)
    requires Indices(s) && p in s.producers
  {
    var pc := s.producers[p];
    && (pc.HasHead? ==> pc.head <= s.head)
    && (pc.HasTail? ==> pc.head <= s.head && pc.tail <= s.tail && pc.tail <= pc.head < pc.tail + CAPACITY)
    && (InSlot(pc) ==>
          && s.tail <= pc.at < s.head && pc.at in s.owner && s.owner[pc.at] == p && s.claimed[pc.at] == pc.item)
    && (pc.HalfWritten? || pc.Written? ==> At(s, pc.at).lo == pc.item.lo)
    && (pc.Written? ==> At(s, pc.at).hi == pc.item.hi)
  }

  ghost predicate OwnerOk(s: State, pos: nat) {
    pos in s.owner ==> s.tail <= pos < s.head && s.owner[pos] in s.producers && Holds(s.producers[s.owner[pos]], pos)
  }

  ghost predicate ConsumerOk(s: State)
    requires Indices(s)
  {
    var c := s.consumer;
    && (!c.Resting? ==> c.tail == s.tail)
    && (c.Waiting? || c.Ready? || c.HalfRead? || c.Taken? || c.Released? ==> s.tail < s.head)
    && (c.Ready? || c.HalfRead? || c.Taken? || c.Released? ==> s.tail !in s.owner)
    && (c.HalfRead? ==> c.lo == s.claimed[s.tail].lo)
    && (c.Taken? || c.Released? ==> c.item == s.claimed[s.tail])
  }

  ghost predicate Inv(s: State) {
    && Indices(s) && ConsumerOk(s)
    && (forall pos: nat | s.tail <= pos < s.tail + CAPACITY :: SlotOk(s, pos))
    && (forall p | p in s.producers :: ProducerOk(s, p))
    && (forall pos: nat :: OwnerOk(s, pos))
  }

  // ---- Every step keeps the invariant ------------------------------------------------------

  /** Two positions in reach use the same slot only if they are the same position. */
  lemma SameSlot(tail: nat, a: nat, b: nat)
    requires tail <= a < tail + CAPACITY && tail <= b < tail + CAPACITY && a % CAPACITY == b % CAPACITY
    ensures a == b
  {
  }

  lemma NextRound(pos: nat)
    ensures (pos + CAPACITY) % CAPACITY == pos % CAPACITY && (pos + CAPACITY) / CAPACITY == pos / CAPACITY + 1
  {
  }

  /** A producer moves on without touching anything shared. */
  lemma Step(s: State, p: nat, pc: Producer)
    requires Inv(s) && p in s.producers && ProducerOk(SetPc(s, p, pc), p)
    requires !InSlot(s.producers[p]) || (InSlot(pc) && pc.at == s.producers[p].at)
    ensures Inv(SetPc(s, p, pc))
  {
    var t := SetPc(s, p, pc);
    forall pos: nat | t.tail <= pos < t.tail + CAPACITY ensures SlotOk(t, pos) {
      assert SlotOk(s, pos);
    }
    forall q | q in t.producers ensures ProducerOk(t, q) {
      assert ProducerOk(s, q);
    }
    forall pos: nat ensures OwnerOk(t, pos) {
      assert OwnerOk(s, pos);
    }
  }

  /** Steps of a producer before it writes. */
  lemma ApproachKeepsInv(s: State, e: Event)
    requires Inv(s) && Enabled(s, e)
    requires e.Push? || e.LoadHead? || e.LoadTail? || e.WeakFailure? || e.SlotEmpty?
    ensures Inv(Apply(s, e))
  {
    assert ProducerOk(s, e.p);
    Step(s, e.p, Apply(s, e).producers[e.p]);
  }

  /** The claim: the head has not moved since it was read, so neither reading can have been too optimistic. */
  lemma Claim(s: State, t: State, p: nat, item: Item)
    requires Inv(s) && p in s.producers && s.head < s.tail + CAPACITY && !InSlot(s.producers[p])
    requires t == s.(head := s.head + 1, owner := s.owner[s.head := p], claimed := s.claimed + [item],
                     claimants := s.claimants + [p], producers := s.producers[p := Owns(item, s.head)])
    ensures Inv(t)
  {
    assert Indices(t);
    forall pos: nat | t.tail <= pos < t.tail + CAPACITY ensures SlotOk(t, pos) {
      assert SlotOk(s, pos);
    }
    forall q | q in t.producers ensures ProducerOk(t, q) {
      assert ProducerOk(s, q);
    }
    forall pos: nat ensures OwnerOk(t, pos) {
      assert OwnerOk(s, pos);
    }
  }

  lemma ExchangeKeepsInv(s: State, p: nat)
    requires Inv(s) && Enabled(s, Exchange(p))
    ensures Inv(Apply(s, Exchange(p)))
  {
    var pc := s.producers[p];
    assert ProducerOk(s, p);
    if pc.head == s.head {
      Claim(s, Apply(s, Exchange(p)), p, pc.item);
    } else {
      Step(s, p, Trying(pc.item));
    }
  }

  /** A producer writes half of the event into the slot it owns. */
  lemma WriteKeepsInv(s: State, p: nat, e: Event)
    requires Inv(s) && Enabled(s, e) && (e == WriteLow(p) || e == WriteHigh(p))
    ensures Inv(Apply(s, e))
  {
    var t, at := Apply(s, e), s.producers[p].at;
    assert ProducerOk(s, p);
    forall pos: nat | t.tail <= pos < t.tail + CAPACITY ensures SlotOk(t, pos) {
      assert SlotOk(s, pos);
      if pos % CAPACITY == at % CAPACITY {
        SameSlot(s.tail, pos, at);
      }
    }
    forall q | q in t.producers ensures ProducerOk(t, q) {
      assert ProducerOk(s, q);
      var pc := s.producers[q];
      if q != p && (pc.HalfWritten? || pc.Written?) && pc.at % CAPACITY == at % CAPACITY {
        SameSlot(s.tail, pc.at, at);
      }
    }
    forall pos: nat ensures OwnerOk(t, pos) {
      assert OwnerOk(s, pos);
    }
  }

  lemma PublishKeepsInv(s: State, p: nat)
    requires Inv(s) && Enabled(s, Publish(p))
    ensures Inv(Apply(s, Publish(p)))
  {
    var t, at := Apply(s, Publish(p)), s.producers[p].at;
    assert ProducerOk(s, p);
    forall pos: nat | t.tail <= pos < t.tail + CAPACITY ensures SlotOk(t, pos) {
      assert SlotOk(s, pos);
      if pos % CAPACITY == at % CAPACITY {
        SameSlot(s.tail, pos, at);
      }
    }
    forall q | q in t.producers ensures ProducerOk(t, q) {
      assert ProducerOk(s, q);
      var pc := s.producers[q];
      if q != p && (pc.HalfWritten? || pc.Written?) && pc.at % CAPACITY == at % CAPACITY {
        SameSlot(s.tail, pc.at, at);
      }
    }
    forall pos: nat ensures OwnerOk(t, pos) {
      assert OwnerOk(s, pos);
    }
  }

  /** Steps of the consumer that change nothing but its own registers. */
  lemma ReadKeepsInv(s: State, e: Event)
    requires Inv(s) && Enabled(s, e)
    requires e.PopTail? || e.PopHead? || e.SlotReady? || e.ReadLow? || e.ReadHigh?
    ensures Inv(Apply(s, e))
  {
    var t := Apply(s, e);
    if !e.PopTail? && !e.PopHead? {
      assert SlotOk(s, s.tail);
    }
    forall pos: nat | t.tail <= pos < t.tail + CAPACITY ensures SlotOk(t, pos) {
      assert SlotOk(s, pos);
    }
    forall q | q in t.producers ensures ProducerOk(t, q) {
      assert ProducerOk(s, q);
    }
    forall pos: nat ensures OwnerOk(t, pos) {
      assert OwnerOk(s, pos);
    }
  }

  lemma ReleaseKeepsInv(s: State)
    requires Inv(s) && Enabled(s, ReleaseSlot)
    ensures Inv(Apply(s, ReleaseSlot))
  {
    var t, at := Apply(s, ReleaseSlot), s.tail;
    forall pos: nat | t.tail <= pos < t.tail + CAPACITY ensures SlotOk(t, pos) {
      assert SlotOk(s, pos);
      if pos % CAPACITY == at % CAPACITY {
        SameSlot(s.tail, pos, at);
      }
    }
    forall q | q in t.producers ensures ProducerOk(t, q) {
      assert ProducerOk(s, q);
      var pc := s.producers[q];
      if (pc.HalfWritten? || pc.Written?) && pc.at % CAPACITY == at % CAPACITY {
        SameSlot(s.tail, pc.at, at);
      }
    }
    forall pos: nat ensures OwnerOk(t, pos) {
      assert OwnerOk(s, pos);
    }
  }

  /** The released slot becomes the slot of the position one round later. */
  lemma StoreTailKeepsInv(s: State)
    requires Inv(s) && Enabled(s, StoreTail)
    ensures Inv(Apply(s, StoreTail))
  {
    var t := Apply(s, StoreTail);
    assert SlotOk(s, s.tail);
    assert Indices(t) by {
      assert t.claimed[..t.tail] == s.claimed[..s.tail] + [s.claimed[s.tail]];
    }
    forall pos: nat | t.tail <= pos < t.tail + CAPACITY ensures SlotOk(t, pos) {
      if pos == s.tail + CAPACITY {
        NextRound(s.tail);
      } else {
        assert SlotOk(s, pos);
      }
    }
    forall q | q in t.producers ensures ProducerOk(t, q) {
      assert ProducerOk(s, q);
    }
    forall pos: nat ensures OwnerOk(t, pos) {
      assert OwnerOk(s, pos);
    }
  }

  lemma StepKeepsInv(s: State, e: Event)
    requires Inv(s) && Enabled(s, e)
    ensures Inv(Apply(s, e))
  {
    if e.Exchange? {
      ExchangeKeepsInv(s, e.p);
    } else if e.WriteLow? || e.WriteHigh? {
      WriteKeepsInv(s, e.p, e);
    } else if e.Publish? {
      PublishKeepsInv(s, e.p);
    } else if e.ReleaseSlot? {
      ReleaseKeepsInv(s);
    } else if e.StoreTail? {
      StoreTailKeepsInv(s);
    } else if e.PopTail? || e.PopHead? || e.SlotReady? || e.ReadLow? || e.ReadHigh? {
      ReadKeepsInv(s, e);
    } else {
      ApproachKeepsInv(s, e);
    }
  }

  // ---- Whole runs --------------------------------------------------------------------------

  ghost predicate Initial(s: State) {
    && s.head == 0 && s.tail == 0 && |s.slots| == CAPACITY
    && (forall i | 0 <= i < CAPACITY :: s.slots[i].turn == 0)
    && (forall p | p in s.producers :: s.producers[p].Idle?)
    && s.consumer.Resting? && s.owner == map[] && s.claimed == [] && s.claimants == [] && s.popped == []
    && s.sent == map[]
  }

  ghost predicate Run(states: seq<State>, events: seq<Event>) {
    && |states| == |events| + 1 && Initial(states[0])
    && (forall i | 0 <= i < |events| :: Enabled(states[i], events[i]) && states[i + 1] == Apply(states[i], events[i]))
  }

  lemma {:induction false} RunKeepsInv(states: seq<State>, events: seq<Event>, i: nat)
    requires Run(states, events) && i < |states|
    ensures Inv(states[i])
  {
    if i > 0 {
      RunKeepsInv(states, events, i - 1);
      StepKeepsInv(states[i - 1], events[i - 1]);
    }
  }

  /** In every run the consumer is given the claimed events, in the order of the claims, whole and once each. */
  lemma FirstInFirstOut(states: seq<State>, events: seq<Event>, i: nat)
    requires Run(states, events) && i < |states|
    ensures states[i].popped <= states[i].claimed
    ensures |states[i].popped| == states[i].tail && |states[i].claimed| == states[i].head
    ensures states[i].tail <= states[i].head <= states[i].tail + CAPACITY
  {
    RunKeepsInv(states, events, i);
  }

  /** In every run a producer that claimed a position finds its slot empty: the wait ends at the first look. */
  lemma NeverSpins(states: seq<State>, events: seq<Event>, i: nat, p: nat)
    requires Run(states, events) && i < |states| && p in states[i].producers && states[i].producers[p].Owns?
    ensures Enabled(states[i], SlotEmpty(p))
  {
    RunKeepsInv(states, events, i);
    assert ProducerOk(states[i], p);
    assert SlotOk(states[i], states[i].producers[p].at);
  }

  predicate Writing(pc: Producer) {
    pc.Free? || pc.HalfWritten? || pc.Written?
  }

  /** In every run no two threads use the event of one slot at the same time. */
  lemma NoOverlap(states: seq<State>, events: seq<Event>, i: nat, p: nat, q: nat)
    requires Run(states, events) && i < |states| && p in states[i].producers && q in states[i].producers
    requires Writing(states[i].producers[p])
    ensures q != p && Writing(states[i].producers[q]) ==>
              states[i].producers[q].at % CAPACITY != states[i].producers[p].at % CAPACITY
    ensures states[i].consumer.Ready? || states[i].consumer.HalfRead? ==>
              states[i].consumer.tail % CAPACITY != states[i].producers[p].at % CAPACITY
  {
    var s := states[i];
    RunKeepsInv(states, events, i);
    assert ProducerOk(s, p) && ProducerOk(s, q);
    if q != p && Writing(s.producers[q]) && s.producers[q].at % CAPACITY == s.producers[p].at % CAPACITY {
      SameSlot(s.tail, s.producers[q].at, s.producers[p].at);
    }
    if (s.consumer.Ready? || s.consumer.HalfRead?) && s.consumer.tail % CAPACITY == s.producers[p].at % CAPACITY {
      SameSlot(s.tail, s.consumer.tail, s.producers[p].at);
    }
  }

  /** In every run a push is refused exactly when the queue is full, or its head reading is older than the tail. */
  lemma RefusedWhenFull(states: seq<State>, events: seq<Event>, i: nat, p: nat)
    requires Run(states, events) && i < |events| && events[i] == LoadTail(p)
    ensures var s, head := states[i], states[i].producers[p].head;
            states[i + 1].producers[p].Idle? <==> head < s.tail || head == s.head == s.tail + CAPACITY
  {
    RunKeepsInv(states, events, i);
    assert ProducerOk(states[i], p);
  }

  /** Event `e` ends the push of `p`: its event is published, or refused with the queue full or its reading old. */
  ghost predicate Ends(s: State, e: Event, t: State, p: nat)
    requires p in s.producers && !s.producers[p].Idle?
  {
    var pc := s.producers[p];
    || (e == Publish(p) && Sent(t, p) == Sent(s, p) + [pc.item])
    || (pc.HasHead? && Sent(t, p) == Sent(s, p) && (pc.head < s.tail || pc.head == s.head == s.tail + CAPACITY))
  }

  lemma StepEnds(s: State, e: Event, p: nat)
    requires Enabled(s, e) && p in s.producers && !s.producers[p].Idle? && Indices(s)
    requires s.producers[p].HasHead? ==> s.producers[p].head <= s.head
    ensures var t, pc := Apply(s, e), s.producers[p];
            && p in t.producers
            && (t.producers[p].Idle? ==> Ends(s, e, t, p))
            && (!t.producers[p].Idle? ==> t.producers[p].item == pc.item && Sent(t, p) == Sent(s, p))
  {
  }

  /** In every run a push ends by publishing its event or by being refused; until then it keeps trying with it. */
  lemma PushEnds(states: seq<State>, events: seq<Event>, i: nat, p: nat)
    requires Run(states, events) && i < |events| && p in states[i].producers && !states[i].producers[p].Idle?
    ensures var t, pc := states[i + 1], states[i].producers[p];
            && p in t.producers
            && (t.producers[p].Idle? ==> Ends(states[i], events[i], t, p))
            && (!t.producers[p].Idle? ==> t.producers[p].item == pc.item && Sent(t, p) == Sent(states[i], p))
  {
    RunKeepsInv(states, events, i);
    assert ProducerOk(states[i], p);
    StepEnds(states[i], events[i], p);
  }

  /** In every run `pop` answers none only when there is nothing in the queue. */
  lemma NoneWhenEmpty(states: seq<State>, events: seq<Event>, i: nat)
    requires Run(states, events) && i < |events| && events[i] == PopHead && states[i + 1].consumer.Resting?
    ensures states[i].head == states[i].tail && states[i].popped == states[i].claimed
  {
    RunKeepsInv(states, events, i);
  }

  // ---- What each producer sent is what comes out of it -------------------------------------

  /** The events of one producer, in order. */
  ghost function From(items: seq<Item>, claimants: seq<nat>, p: nat): (r: seq<Item>)
    requires |items| == |claimants|
  {
    if items == [] then [] else
      var k := |items| - 1;
      From(items[..k], claimants[..k], p) + if claimants[k] == p then [items[k]] else []
  }

  lemma FromGrows(items: seq<Item>, claimants: seq<nat>, p: nat, item: Item, q: nat)
    requires |items| == |claimants|
    ensures From(items + [item], claimants + [q], p) == From(items, claimants, p) + if q == p then [item] else []
  {
    assert (items + [item])[..|items|] == items && (claimants + [q])[..|items|] == claimants;
  }

  lemma {:induction false} FromPrefix(items: seq<Item>, claimants: seq<nat>, p: nat, k: nat)
    requires |items| == |claimants| && k <= |items|
    ensures From(items[..k], claimants[..k], p) <= From(items, claimants, p)
    decreases |items|
  {
    var n := |items|;
    if k == n {
      assert items[..k] == items && claimants[..k] == claimants;
    } else {
      FromPrefix(items[..n - 1], claimants[..n - 1], p, k);
      assert items[..n - 1][..k] == items[..k] && claimants[..n - 1][..k] == claimants[..k];
    }
  }

  function InHand(pc: Producer): (items: seq<Item>) {
    if pc.Owns? || Writing(pc) then [pc.item] else []
  }

  /** What a producer claimed is what it was told was accepted, and the event it is still writing. */
  ghost predicate Balanced(s: State, p: nat) {
    && |s.claimed| == |s.claimants| && p in s.producers
    && From(s.claimed, s.claimants, p) == Sent(s, p) + InHand(s.producers[p])
  }

  lemma ClaimBalanced(s: State, q: nat, p: nat)
    requires Enabled(s, Exchange(q)) && Balanced(s, p)
    ensures Balanced(Apply(s, Exchange(q)), p)
  {
    var t, item := Apply(s, Exchange(q)), s.producers[q].item;
    if s.producers[q].head != s.head {
      StillBalanced(s, t, p);
    } else {
      FromGrows(s.claimed, s.claimants, p, item, q);
      assert Sent(t, p) == Sent(s, p);
      assert q == p ==> InHand(s.producers[p]) == [] && InHand(t.producers[p]) == [item];
    }
  }

  lemma PublishBalanced(s: State, q: nat, p: nat)
    requires Enabled(s, Publish(q)) && Balanced(s, p)
    ensures Balanced(Apply(s, Publish(q)), p)
  {
  }

  lemma StillBalanced(s: State, t: State, p: nat)
    requires Balanced(s, p) && t.claimed == s.claimed && t.claimants == s.claimants && t.sent == s.sent
    requires p in t.producers && InHand(t.producers[p]) == InHand(s.producers[p])
    ensures Balanced(t, p)
  {
  }

  lemma StepBalanced(s: State, e: Event, p: nat)
    requires Enabled(s, e) && Balanced(s, p)
    ensures Balanced(Apply(s, e), p)
  {
    if e.Exchange? {
      ClaimBalanced(s, e.p, p);
    } else if e.Publish? {
      PublishBalanced(s, e.p, p);
    } else {
      StillBalanced(s, Apply(s, e), p);
    }
  }

  lemma {:induction false} RunBalanced(states: seq<State>, events: seq<Event>, i: nat, p: nat)
    requires Run(states, events) && i < |states| && p in states[0].producers
    ensures Balanced(states[i], p)
  {
    if i > 0 {
      RunBalanced(states, events, i - 1, p);
      StepBalanced(states[i - 1], events[i - 1], p);
    }
  }

  /** The position a producer is writing is its latest claim. */
  ghost predicate Latest(s: State, p: nat) {
    p in s.producers && InSlot(s.producers[p]) ==>
      var at := s.producers[p].at;
      at < |s.claimants| && s.claimants[at] == p && forall pos | at < pos < |s.claimants| :: s.claimants[pos] != p
  }

  lemma StepLatest(s: State, e: Event, p: nat)
    requires Enabled(s, e) && Latest(s, p) && s.head == |s.claimants|
    ensures Latest(Apply(s, e), p)
  {
    if e.Exchange? && s.producers[e.p].head == s.head {
      assert Apply(s, e).claimants == s.claimants + [e.p];
    }
  }

  lemma {:induction false} RunLatest(states: seq<State>, events: seq<Event>, i: nat, p: nat)
    requires Run(states, events) && i < |states|
    ensures Latest(states[i], p)
  {
    if i > 0 {
      RunLatest(states, events, i - 1, p);
      RunKeepsInv(states, events, i - 1);
      StepLatest(states[i - 1], events[i - 1], p);
    }
  }

  lemma {:induction false} FromLatest(items: seq<Item>, claimants: seq<nat>, p: nat, at: nat)
    requires |items| == |claimants| && at < |items| && claimants[at] == p
    requires forall pos | at < pos < |items| :: claimants[pos] != p
    ensures From(items, claimants, p) == From(items[..at], claimants[..at], p) + [items[at]]
    decreases |items|
  {
    var k := |items| - 1;
    if at < k {
      FromLatest(items[..k], claimants[..k], p, at);
      assert items[..k][..at] == items[..at] && claimants[..k][..at] == claimants[..at];
    }
  }

  lemma SameButLast(a: seq<Item>, b: seq<Item>, item: Item)
    requires a + [item] == b + [item]
    ensures a == b
  {
    assert |a| == |b|;
    forall i | 0 <= i < |a| ensures a[i] == b[i] {
      assert (a + [item])[i] == (b + [item])[i];
    }
  }

  /** What a producer claimed before the position it is writing is what it was told was accepted. */
  lemma AcceptedBefore(s: State, p: nat)
    requires Inv(s) && Balanced(s, p) && Latest(s, p) && InSlot(s.producers[p])
    ensures From(s.claimed[..s.producers[p].at], s.claimants[..s.producers[p].at], p) == Sent(s, p)
  {
    var at := s.producers[p].at;
    assert ProducerOk(s, p);
    FromLatest(s.claimed, s.claimants, p, at);
    SameButLast(From(s.claimed[..at], s.claimants[..at], p), Sent(s, p), s.claimed[at]);
  }

  lemma TakenIsAccepted(s: State, p: nat)
    requires Inv(s) && Balanced(s, p) && Latest(s, p)
    ensures From(s.popped, s.claimants[..s.tail], p) <= Sent(s, p)
  {
    if InSlot(s.producers[p]) {
      var at := s.producers[p].at;
      assert ProducerOk(s, p);
      AcceptedBefore(s, p);
      FromPrefix(s.claimed[..at], s.claimants[..at], p, s.tail);
      assert s.claimed[..at][..s.tail] == s.popped && s.claimants[..at][..s.tail] == s.claimants[..s.tail];
    } else {
      FromPrefix(s.claimed, s.claimants, p, s.tail);
      assert InHand(s.producers[p]) == [];
    }
  }

  /**
    In every run the consumer has, of each producer, a prefix of the events that were accepted, in the
    order they were pushed; once the queue is drained and the producer is idle it has all of them.
   */
  lemma Delivered(states: seq<State>, events: seq<Event>, i: nat, p: nat)
    requires Run(states, events) && i < |states| && p in states[0].producers
    ensures p in states[i].producers && |states[i].popped| == states[i].tail <= states[i].head == |states[i].claimants|
    ensures From(states[i].popped, states[i].claimants[..states[i].tail], p) <= Sent(states[i], p)
    ensures states[i].head == states[i].tail && states[i].producers[p].Idle? ==>
              From(states[i].popped, states[i].claimants, p) == Sent(states[i], p)
  {
    var s := states[i];
    RunKeepsInv(states, events, i);
    RunBalanced(states, events, i, p);
    RunLatest(states, events, i, p);
    TakenIsAccepted(s, p);
    if s.head == s.tail {
      assert s.claimed[..s.tail] == s.claimed;
    }
  }

  // ---- A push or a pop that nobody interrupts ----------------------------------------------

  ghost predicate Reaches(s: State, events: seq<Event>, t: State)
    decreases |events|
  {
    if events == [] then s == t else Enabled(s, events[0]) && Reaches(Apply(s, events[0]), events[1..], t)
  }

  lemma {:induction false} Extend(s: State, events: seq<Event>, m: State, e: Event)
    requires Reaches(s, events, m) && Enabled(m, e)
    ensures Reaches(s, events + [e], Apply(m, e))
    decreases |events|
  {
    if events == [] {
      assert events + [e] == [e];
    } else {
      Extend(Apply(s, events[0]), events[1..], m, e);
      assert (events + [e])[1..] == events[1..] + [e];
    }
  }

  lemma Then(s: State, events: seq<Event>, m: State, e: Event) returns (t: State)
    requires Reaches(s, events, m) && Inv(m) && Enabled(m, e)
    ensures t == Apply(m, e) && Reaches(s, events + [e], t) && Inv(t)
  {
    t := Apply(m, e);
    Extend(s, events, m, e);
    StepKeepsInv(m, e);
  }

  lemma PushReads(s: State, p: nat, item: Item) returns (events: seq<Event>, t: State)
    requires Inv(s) && Is(s, p, Idle) && s.head < s.tail + CAPACITY
    ensures Reaches(s, events, t) && Inv(t)
    ensures t == s.(producers := s.producers[p := HasTail(item, s.head, s.tail)])
  {
    var a := Then(s, [], s, Push(p, item));
    var b := Then(s, [] + [Push(p, item)], a, LoadHead(p));
    t := Then(s, [] + [Push(p, item)] + [LoadHead(p)], b, LoadTail(p));
    events := [] + [Push(p, item)] + [LoadHead(p)] + [LoadTail(p)];
  }

  lemma PushClaims(s: State, p: nat, item: Item) returns (events: seq<Event>, t: State)
    requires Inv(s) && Is(s, p, Idle) && s.head < s.tail + CAPACITY
    ensures Reaches(s, events, t) && Inv(t)
    ensures t == s.(head := s.head + 1, owner := s.owner[s.head := p], claimed := s.claimed + [item],
                    claimants := s.claimants + [p], producers := s.producers[p := Free(item, s.head)])
  {
    var loads, m := PushReads(s, p, item);
    var a := Then(s, loads, m, Exchange(p));
    assert ProducerOk(a, p) && SlotOk(a, s.head);
    t := Then(s, loads + [Exchange(p)], a, SlotEmpty(p));
    events := loads + [Exchange(p)] + [SlotEmpty(p)];
  }

  lemma PushPublishes(s: State, events: seq<Event>, m: State, p: nat, item: Item) returns (more: seq<Event>, t: State)
    requires Reaches(s, events, m) && Inv(m) && m.head > 0 && Is(m, p, Free(item, m.head - 1))
    ensures Reaches(s, more, t) && Inv(t)
    ensures t == m.(slots := t.slots, producers := m.producers[p := Idle], owner := m.owner - {m.head - 1},
                    sent := m.sent[p := Sent(m, p) + [item]])
  {
    var a := Then(s, events, m, WriteLow(p));
    var b := Then(s, events + [WriteLow(p)], a, WriteHigh(p));
    t := Then(s, events + [WriteLow(p)] + [WriteHigh(p)], b, Publish(p));
    more := events + [WriteLow(p)] + [WriteHigh(p)] + [Publish(p)];
  }

  /** With room in the queue, a push that runs by itself is accepted: its event is the last in the queue. */
  lemma PushSucceeds(s: State, p: nat, item: Item) returns (events: seq<Event>, t: State)
    requires Inv(s) && Is(s, p, Idle) && s.head < s.tail + CAPACITY
    ensures Reaches(s, events, t) && Inv(t)
    ensures t.head == s.head + 1 && t.tail == s.tail && t.claimed == s.claimed + [item] && t.consumer == s.consumer
    ensures t.producers == s.producers[p := Idle] && t.owner == s.owner && Sent(t, p) == Sent(s, p) + [item]
  {
    var claims, m := PushClaims(s, p, item);
    events, t := PushPublishes(s, claims, m, p, item);
    assert OwnerOk(s, s.head);
    assert t.owner == s.owner;
    assert t.producers == s.producers[p := Idle];
  }

  lemma PopWaits(s: State) returns (events: seq<Event>, t: State)
    requires Inv(s) && s.consumer == Resting && s.tail < s.head && s.tail !in s.owner
    ensures Reaches(s, events, t) && Inv(t) && t == s.(consumer := Ready(s.tail))
  {
    var a := Then(s, [], s, PopTail);
    var b := Then(s, [] + [PopTail], a, PopHead);
    assert SlotOk(b, s.tail);
    t := Then(s, [] + [PopTail] + [PopHead], b, SlotReady);
    events := [] + [PopTail] + [PopHead] + [SlotReady];
  }

  lemma PopReads(s: State, events: seq<Event>, m: State) returns (more: seq<Event>, t: State)
    requires Reaches(s, events, m) && Inv(m) && m.consumer == Ready(m.tail)
    ensures Reaches(s, more, t) && Inv(t) && m.tail < m.head
    ensures t == m.(consumer := Taken(m.tail, m.claimed[m.tail]))
  {
    var a := Then(s, events, m, ReadLow);
    t := Then(s, events + [ReadLow], a, ReadHigh);
    more := events + [ReadLow] + [ReadHigh];
  }

  /** With its next event published, a pop that runs by itself hands that event out. */
  lemma PopSucceeds(s: State) returns (events: seq<Event>, t: State)
    requires Inv(s) && s.consumer == Resting && s.tail < s.head && s.tail !in s.owner
    ensures Reaches(s, events, t) && Inv(t)
    ensures t.popped == s.popped + [s.claimed[s.tail]] && t.tail == s.tail + 1 && t.head == s.head
    ensures t.producers == s.producers && t.consumer == Resting
  {
    var waits, m := PopWaits(s);
    var loads, n := PopReads(s, waits, m);
    var a := Then(s, loads, n, ReleaseSlot);
    t := Then(s, loads + [ReleaseSlot], a, StoreTail);
    events := loads + [ReleaseSlot] + [StoreTail];
  }

  lemma {:induction false} Join(s: State, one: seq<Event>, m: State, two: seq<Event>, t: State)
    requires Reaches(s, one, m) && Reaches(m, two, t)
    ensures Reaches(s, one + two, t)
    decreases |one|
  {
    if one == [] {
      assert one + two == two;
    } else {
      Join(Apply(s, one[0]), one[1..], m, two, t);
      assert (one + two)[1..] == one[1..] + two;
    }
  }

  /** A push can be refused by an empty queue: its head reading was overtaken by a push and a pop. */
  lemma RefusedWhenEmpty(s: State, p: nat, q: nat, item: Item, other: Item) returns (events: seq<Event>, t: State)
    requires Inv(s) && Is(s, p, Trying(item)) && Is(s, q, Idle) && s.head == s.tail && s.consumer == Resting
    ensures Reaches(s, events, t) && Inv(t)
    ensures t.head == t.tail && Enabled(t, LoadTail(p)) && Apply(t, LoadTail(p)).producers[p].Idle?
  {
    var a := Then(s, [], s, LoadHead(p));
    var pushes, b := PushSucceeds(a, q, other);
    assert OwnerOk(a, a.tail);
    var pops, c := PopSucceeds(b);
    Join(a, pushes, b, pops, c);
    Join(s, [] + [LoadHead(p)], a, pushes + pops, c);
    events, t := [] + [LoadHead(p)] + (pushes + pops), c;
  }
}
