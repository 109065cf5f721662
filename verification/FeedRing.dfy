/**
  The playback ring of the HD-audio driver (`audio/hda.rs`): `submit_playback` stages bytes ahead of
  the play head, `out_completed_reconcile` follows the hardware position and silences what was played,
  and the DMA engine reads on its own.

  Offsets are absolute: byte `i` of the stream lives in cell `i % RING`. The DMA, and a reconcile on
  another processor, can come between any two bytes of the producer's copy.
 */
module FeedRing {
  import opened Common

  const RING: nat := 16384
  const MAX_STAGED: nat := 15360
  const GUARD: nat := 2048

  /** The cells and the three cursors the driver keeps. */
  datatype Ring = Ring(cells: seq<nat>, produced: nat, completed: nat, last: nat)

  // ---- The critical section, as functions --------------------------------------------------

  /** A run of cells that may wrap around the end of the ring. */
  predicate InArc(cell: nat, from: nat, count: nat)
    requires cell < RING && from < RING
  {
    (cell + RING - from) % RING < count
  }

  function Silenced(cells: seq<nat>, from: nat, count: nat): (r: seq<nat>)
    requires |cells| == RING && from < RING
    ensures |r| == RING
  {
    seq(RING, i requires 0 <= i < RING => if InArc(i, from, count) then 0 else cells[i])
  }

  function Delta(last: nat, lpib: nat): (d: nat)
    requires last < RING && lpib < RING
  {
    (lpib + RING - last) % RING
  }

  predicate Shaped(r: Ring) {
    |r.cells| == RING && r.last < RING
  }

  /** Silence what the DMA has read since the last look and move the completion cursor. */
  function Reconciled(r: Ring, lpib: nat): (t: Ring)
    requires Shaped(r) && lpib < RING
    ensures Shaped(t)
  {
    Ring(Silenced(r.cells, r.last, Delta(r.last, lpib)), r.produced, r.completed + Delta(r.last, lpib), lpib)
  }

  /** Cold start or underrun: skip the write head past a silent guard gap. */
  function Realigned(r: Ring): (t: Ring)
    requires Shaped(r)
    ensures Shaped(t)
  {
    if r.produced <= r.completed then
      r.(cells := Silenced(r.cells, r.completed % RING, GUARD), produced := r.completed + GUARD)
    else r
  }

  /** How many bytes one pass may copy: what is left, up to the end of the ring, up to the staging cap. */
  function Take(r: Ring, left: nat): (n: nat)
    requires r.completed < r.produced
  {
    if r.produced - r.completed >= MAX_STAGED then 0
    else Min(Min(left, RING - r.produced % RING), MAX_STAGED - (r.produced - r.completed))
  }

  /** A number of bytes one pass may copy: all are left, none wraps, and no more is staged than the cap allows. */
  predicate MayTake(r: Ring, left: nat, n: nat) {
    n <= left && r.produced % RING + n <= RING && r.produced + n <= r.completed + MAX_STAGED
  }

  /** A pass copies as much as it may, and something whenever anything is left and there is room. */
  lemma TakeLargest(r: Ring, left: nat, n: nat)
    requires r.completed < r.produced
    ensures r.produced <= r.completed + MAX_STAGED ==> MayTake(r, left, Take(r, left))
    ensures MayTake(r, left, n) ==> n <= Take(r, left)
    ensures Take(r, left) > 0 <==> left > 0 && r.produced < r.completed + MAX_STAGED
  {
  }

  function Prepared(r: Ring, lpib: nat): (t: Ring)
    requires Shaped(r) && lpib < RING
    ensures Shaped(t) && t.completed < t.produced
  {
    Realigned(Reconciled(r, lpib))
  }

  // ---- The transition system ---------------------------------------------------------------

  /** A call of `submit_playback`: its bytes, how far it is, and where its bytes went. */
  datatype Job = Job(data: seq<nat>, off: nat, at: seq<nat>)

  /** The copy inside the critical section. */
  datatype Copying = Copying(job: nat, take: nat, done: nat)

  /** `dma` is the hardware's position, `played` what it read, `staged` what was ever written for each offset. */
  datatype State = State(
    ring: Ring,
    dma: nat,
    played: seq<nat>,
    staged: map<nat, nat>,
    jobs: map<nat, Job>,
    copying: Option<Copying>)

  datatype Event =
    | Submit(job: nat, data: seq<nat>)
    | Dma
    | Reconcile
    | Begin(job: nat)
    | CopyByte
    | Commit

  /** The source address is computed in samples, so an odd byte offset starts one byte early. */
  function Source(off: nat, done: nat): (i: nat) {
    off / 2 * 2 + done
  }

  /** The next offset to be written. */
  function Front(s: State): (i: nat) {
    s.ring.produced + if s.copying.Some? then s.copying.value.done else 0
  }

  /**
    The DMA stays less than one turn of the ring ahead of the completion cursor: a reconcile runs at
    every buffer completion interrupt.
   */
  ghost predicate Enabled(s: State, e: Event) {
    && Shaped(s.ring)
    && match e
       case Submit(k, data) => k !in s.jobs && |data| % 4 == 0
       case Dma => s.dma + 1 < s.ring.completed + RING
       case Reconcile => true
       case Begin(k) => s.copying.None? && k in s.jobs && s.jobs[k].off < |s.jobs[k].data|
       case CopyByte =>
         && s.copying.Some? && s.copying.value.done < s.copying.value.take && s.copying.value.job in s.jobs
         && Source(s.jobs[s.copying.value.job].off, s.copying.value.done) < |s.jobs[s.copying.value.job].data|
       case Commit =>
         s.copying.Some? && s.copying.value.done == s.copying.value.take && s.copying.value.job in s.jobs
  }

  ghost function Apply(s: State, e: Event): (t: State)
    requires Enabled(s, e)
  {
    match e
    case Submit(k, data) => s.(jobs := s.jobs[k := Job(data, 0, [])])
    case Dma => s.(dma := s.dma + 1, played := s.played + [s.ring.cells[s.dma % RING]])
    case Reconcile => s.(ring := Reconciled(s.ring, s.dma % RING))
    case Begin(k) =>
      var ring := Prepared(s.ring, s.dma % RING);
      var take := Take(ring, |s.jobs[k].data| - s.jobs[k].off);
      s.(ring := ring, copying := if take == 0 then None else Some(Copying(k, take, 0)))
    case CopyByte =>
      var c, i := s.copying.value, Front(s);
      var job := s.jobs[c.job];
      var value := job.data[Source(job.off, c.done)];
      s.(ring := s.ring.(cells := s.ring.cells[i % RING := value]), staged := s.staged[i := value],
         jobs := s.jobs[c.job := job.(at := job.at + [i])], copying := Some(c.(done := c.done + 1)))
    case Commit =>
      var c := s.copying.value;
      var job := s.jobs[c.job];
      s.(ring := s.ring.(produced := s.ring.produced + c.take),
         jobs := s.jobs[c.job := job.(off := job.off + c.take)], copying := None)
  }

  // ---- The invariant -----------------------------------------------------------------------

  ghost predicate Cursors(s: State) {
    && Shaped(s.ring) && s.ring.last == s.ring.completed % RING
    && s.ring.completed <= s.dma < s.ring.completed + RING && |s.played| == s.dma
    && Front(s) <= s.ring.completed + MAX_STAGED
  }

  /** The byte a cell holds for the offset it currently stands for: the staged byte, or silence. */
  ghost predicate CellOk(s: State, i: nat)
    requires Shaped(s.ring)
  {
    s.ring.cells[i % RING] == if i in s.staged then s.staged[i] else 0
  }

  ghost predicate CopyOk(s: State)
    requires Shaped(s.ring)
  {
    s.copying.Some? ==>
      var c, p := s.copying.value, s.ring.produced;
      && c.job in s.jobs && c.done <= c.take && p + c.take <= s.ring.completed + MAX_STAGED
      && p % RING + c.take <= RING && s.jobs[c.job].off + c.take <= |s.jobs[c.job].data|
  }

  /** What every run keeps, however late a reconcile comes. */
  ghost predicate Bounds(s: State) {
    && Cursors(s) && CopyOk(s)
    && (forall i | i in s.staged :: i < Front(s))
  }

  ghost predicate Played(s: State) {
    forall i | 0 <= i < |s.played| :: s.played[i] == 0 || (i in s.staged && s.played[i] == s.staged[i])
  }

  /** Every cell holds what was staged for the offset it stands for, or silence, and so it has been played. */
  ghost predicate Inv(s: State) {
    && Bounds(s) && Played(s)
    && (forall i: nat | s.ring.completed <= i < s.ring.completed + RING :: CellOk(s, i))
  }

  // ---- Arithmetic of the ring --------------------------------------------------------------

  lemma SameCell(c: nat, i: nat, j: nat)
    requires c <= i < c + RING && c <= j < c + RING && i % RING == j % RING
    ensures i == j
  {
  }

  /** The distance between two readings is how far the hardware really moved. */
  lemma DeltaIsProgress(c: nat, d: nat)
    requires c <= d < c + RING
    ensures Delta(c % RING, d % RING) == d - c
  {
  }

  lemma ArcIsRange(c: nat, i: nat, count: nat)
    requires c <= i < c + RING
    ensures InArc(i % RING, c % RING, count) <==> i < c + count
  {
  }

  lemma SilencedAt(cells: seq<nat>, c: nat, count: nat, i: nat)
    requires |cells| == RING && c <= i < c + RING
    ensures Silenced(cells, c % RING, count)[i % RING] == if i < c + count then 0 else cells[i % RING]
  {
    ArcIsRange(c, i, count);
  }

  // ---- Every step keeps the invariant ------------------------------------------------------

  lemma ReconciledCell(s: State, t: State, c: nat, d: nat, i: nat)
    requires Shaped(s.ring) && Shaped(t.ring) && c <= d <= i < d + RING && d < c + RING
    requires t.ring.cells == Silenced(s.ring.cells, c % RING, d - c) && t.staged == s.staged
    requires if i < c + RING then CellOk(s, i) else i !in s.staged
    ensures CellOk(t, i)
  {
    if i < c + RING {
      SilencedAt(s.ring.cells, c, d - c, i);
    } else {
      SilencedAt(s.ring.cells, c, d - c, i - RING);
      OneTurn(i);
    }
  }

  lemma OneTurn(i: nat)
    requires i >= RING
    ensures (i - RING) % RING == i % RING
  {
  }

  lemma ReconciledBounds(s: State, t: State)
    requires Bounds(s) && t == s.(ring := Reconciled(s.ring, s.dma % RING))
    ensures Bounds(t) && t.ring.completed == s.dma
  {
    DeltaIsProgress(s.ring.completed, s.dma);
  }

  /** After a reconcile the completion cursor is the hardware position, and everything it passed is silent. */
  lemma ReconciledCells(s: State, t: State)
    requires Inv(s) && t == s.(ring := Reconciled(s.ring, s.dma % RING))
    ensures Inv(t) && t.ring.completed == s.dma
  {
    var c, d := s.ring.completed, s.dma;
    DeltaIsProgress(c, d);
    ReconciledBounds(s, t);
    forall i: nat | d <= i < d + RING ensures CellOk(t, i) {
      if i < c + RING {
        assert CellOk(s, i);
      }
      ReconciledCell(s, t, c, d, i);
    }
  }

  lemma RealignedBounds(s: State, t: State)
    requires Bounds(s) && s.copying.None? && t == s.(ring := Realigned(s.ring))
    ensures Bounds(t) && t.ring.completed < t.ring.produced && t.ring.completed == s.ring.completed
  {
  }

  lemma RealignedCells(s: State, t: State)
    requires Inv(s) && s.copying.None? && t == s.(ring := Realigned(s.ring))
    ensures Inv(t)
  {
    RealignedBounds(s, t);
    var c := s.ring.completed;
    forall i: nat | c <= i < c + RING ensures CellOk(t, i) {
      assert CellOk(s, i);
      if s.ring.produced <= c {
        SilencedAt(s.ring.cells, c, GUARD, i);
      }
    }
  }

  lemma BeginKeepsBounds(s: State, k: nat)
    requires Bounds(s) && Enabled(s, Begin(k))
    ensures Bounds(Apply(s, Begin(k))) && Apply(s, Begin(k)).ring == Prepared(s.ring, s.dma % RING)
    ensures Prepared(s.ring, s.dma % RING).completed == s.dma
  {
    var a := s.(ring := Reconciled(s.ring, s.dma % RING));
    ReconciledBounds(s, a);
    RealignedBounds(a, a.(ring := Realigned(a.ring)));
  }

  lemma BeginKeepsInv(s: State, k: nat)
    requires Inv(s) && Enabled(s, Begin(k))
    ensures Inv(Apply(s, Begin(k)))
  {
    var t := Apply(s, Begin(k));
    var a := s.(ring := Reconciled(s.ring, s.dma % RING));
    var b := a.(ring := Realigned(a.ring));
    BeginKeepsBounds(s, k);
    ReconciledCells(s, a);
    RealignedCells(a, b);
    assert b.ring == t.ring;
    forall i: nat | t.ring.completed <= i < t.ring.completed + RING ensures CellOk(t, i) {
      assert CellOk(b, i);
    }
  }

  lemma DmaKeepsInv(s: State)
    requires Inv(s) && Enabled(s, Dma)
    ensures Inv(Apply(s, Dma))
  {
    var t := Apply(s, Dma);
    assert CellOk(s, s.dma);
    forall i: nat | t.ring.completed <= i < t.ring.completed + RING ensures CellOk(t, i) {
      assert CellOk(s, i);
    }
  }

  /** The byte the next step of the copy writes. */
  function NextByte(s: State): (value: nat)
    requires s.copying.Some? && s.copying.value.job in s.jobs
    requires Source(s.jobs[s.copying.value.job].off, s.copying.value.done) < |s.jobs[s.copying.value.job].data|
  {
    s.jobs[s.copying.value.job].data[Source(s.jobs[s.copying.value.job].off, s.copying.value.done)]
  }

  /** The completion cursor has passed the byte being copied, and it is no silence. */
  ghost predicate Late(s: State, e: Event) {
    e == CopyByte && Enabled(s, e) && Front(s) < s.ring.completed && NextByte(s) != 0
  }

  /** The offset a cell stands for once the completion cursor is at `c`. */
  function Standing(at: nat, c: nat): (i: nat)
    ensures c <= i < c + RING && i % RING == at % RING
  {
    c + Delta(c % RING, at % RING)
  }

  lemma CopyByteKeepsInv(s: State)
    requires Inv(s) && Enabled(s, CopyByte) && s.ring.completed <= Front(s)
    ensures Inv(Apply(s, CopyByte)) && Front(s) !in s.staged
  {
    var t, at := Apply(s, CopyByte), Front(s);
    forall i: nat | t.ring.completed <= i < t.ring.completed + RING ensures CellOk(t, i) {
      assert CellOk(s, i);
      if i % RING == at % RING {
        SameCell(s.ring.completed, i, at);
      }
    }
  }

  /** Behind the completion cursor a byte lands in a cell that stands for a later offset and has to be silent. */
  lemma LateByteStands(s: State)
    requires Inv(s) && Enabled(s, CopyByte) && Front(s) < s.ring.completed
    ensures var t, i := Apply(s, CopyByte), Standing(Front(s), s.ring.completed);
            && Front(s) < i && i !in t.staged && t.ring.cells[i % RING] == NextByte(s)
            && (CellOk(t, i) <==> NextByte(s) == 0)
  {
  }

  lemma LateSilenceKeepsInv(s: State)
    requires Inv(s) && Enabled(s, CopyByte) && Front(s) < s.ring.completed && NextByte(s) == 0
    ensures Inv(Apply(s, CopyByte))
  {
    var t := Apply(s, CopyByte);
    forall i: nat | t.ring.completed <= i < t.ring.completed + RING ensures CellOk(t, i) {
      assert CellOk(s, i);
    }
  }

  lemma BookkeepingKeepsInv(s: State, e: Event)
    requires Inv(s) && Enabled(s, e) && (e.Submit? || e.Commit?)
    ensures Inv(Apply(s, e))
  {
    var t := Apply(s, e);
    forall i: nat | t.ring.completed <= i < t.ring.completed + RING ensures CellOk(t, i) {
      assert CellOk(s, i);
    }
  }

  lemma StepKeepsBounds(s: State, e: Event)
    requires Bounds(s) && Enabled(s, e)
    ensures Bounds(Apply(s, e))
  {
    if e == Reconcile {
      ReconciledBounds(s, Apply(s, e));
    } else if e.Begin? {
      BeginKeepsBounds(s, e.job);
    }
  }

  /** A step keeps every cell right exactly when it is not the copy of a byte the completion cursor has passed. */
  lemma StepKeepsInv(s: State, e: Event)
    requires Inv(s) && Enabled(s, e)
    ensures Inv(Apply(s, e)) <==> !Late(s, e)
  {
    match e
    case Submit(k, data) => BookkeepingKeepsInv(s, e);
    case Dma => DmaKeepsInv(s);
    case Reconcile => ReconciledCells(s, Apply(s, e));
    case Begin(k) => BeginKeepsInv(s, k);
    case CopyByte =>
      if s.ring.completed <= Front(s) {
        CopyByteKeepsInv(s);
      } else if NextByte(s) == 0 {
        LateSilenceKeepsInv(s);
      } else {
        LateByteStands(s);
      }
    case Commit => BookkeepingKeepsInv(s, e);
  }

  // ---- Whole runs --------------------------------------------------------------------------

  ghost predicate Initial(s: State) {
    && Shaped(s.ring) && s.ring.produced == 0 && s.ring.completed == 0 && s.ring.last == 0
    && (forall i | 0 <= i < RING :: s.ring.cells[i] == 0)
    && s.dma == 0 && s.played == [] && s.staged == map[] && s.jobs == map[] && s.copying == None
  }

  ghost predicate Run(states: seq<State>, events: seq<Event>) {
    && |states| == |events| + 1 && Initial(states[0])
    && (forall i | 0 <= i < |events| ::
          Enabled(states[i], events[i]) && states[i + 1] == Apply(states[i], events[i]))
  }

  lemma {:induction false} RunKeepsBounds(states: seq<State>, events: seq<Event>, i: nat)
    requires Run(states, events) && i < |states|
    ensures Bounds(states[i])
  {
    if i > 0 {
      RunKeepsBounds(states, events, i - 1);
      StepKeepsBounds(states[i - 1], events[i - 1]);
    }
  }

  lemma InitialInv(s: State)
    requires Initial(s)
    ensures Inv(s)
  {
    forall j: nat | j < RING ensures CellOk(s, j) {
    }
  }

  ghost predicate InTimeUntil(states: seq<State>, events: seq<Event>, n: nat)
    requires n <= |events| && n <= |states|
  {
    forall i | 0 <= i < n :: !Late(states[i], events[i])
  }

  ghost predicate InvUntil(states: seq<State>, n: nat)
    requires n < |states|
  {
    forall i | 0 <= i <= n :: Inv(states[i])
  }

  /** A run keeps every cell right from start to end exactly when it copies no byte the completion cursor has passed. */
  lemma {:induction false} RunKeepsInv(states: seq<State>, events: seq<Event>, n: nat)
    requires Run(states, events) && n <= |events|
    ensures InvUntil(states, n) <==> InTimeUntil(states, events, n)
  {
    if n == 0 {
      InitialInv(states[0]);
    } else {
      RunKeepsInv(states, events, n - 1);
      assert InvUntil(states, n) <==> InvUntil(states, n - 1) && Inv(states[n]);
      assert InTimeUntil(states, events, n) <==>
             InTimeUntil(states, events, n - 1) && !Late(states[n - 1], events[n - 1]);
      if InvUntil(states, n - 1) {
        assert Inv(states[n - 1]);
        StepKeepsInv(states[n - 1], events[n - 1]);
      }
    }
  }

  /**
    In every run each byte the hardware reads is the byte staged for exactly that offset of the stream, or
    silence when none was, as long as no byte was copied after the completion cursor had passed it.
   */
  lemma PlaysWhatWasStaged(states: seq<State>, events: seq<Event>, i: nat)
    requires Run(states, events) && i < |events| && InTimeUntil(states, events, i) && events[i] == Dma
    ensures |states[i].played| == states[i].dma
    ensures var d, staged := states[i].dma, states[i].staged;
            states[i + 1].played == states[i].played + [if d in staged then staged[d] else 0]
  {
    RunKeepsInv(states, events, i);
    assert Inv(states[i]);
    assert CellOk(states[i], states[i].dma);
  }

  /** In every run at most fifteen slots are staged ahead of the completion cursor. */
  lemma StagesWithinCap(states: seq<State>, events: seq<Event>, i: nat)
    requires Run(states, events) && i < |states|
    ensures states[i].ring.completed <= states[i].dma < states[i].ring.completed + RING
    ensures forall at | at in states[i].staged :: at < states[i].ring.completed + MAX_STAGED
  {
    RunKeepsBounds(states, events, i);
  }

  lemma StagedStays(s: State, e: Event, at: nat)
    requires Enabled(s, e) && at in s.staged && (e == CopyByte ==> Front(s) !in s.staged)
    ensures at in Apply(s, e).staged && Apply(s, e).staged[at] == s.staged[at]
  {
  }

  /** In every run what was staged for an offset stays: no offset is ever written twice. */
  lemma {:induction false} NeverOverwritten(states: seq<State>, events: seq<Event>, i: nat, j: nat, at: nat)
    requires Run(states, events) && i <= j < |states| && at in states[i].staged
    ensures at in states[j].staged && states[j].staged[at] == states[i].staged[at]
  {
    if i < j {
      NeverOverwritten(states, events, i, j - 1, at);
      RunKeepsBounds(states, events, j - 1);
      StagedStays(states[j - 1], events[j - 1], at);
    }
  }

  // ---- Every sample is staged, in order ----------------------------------------------------

  function Placed(s: State, k: nat): (n: nat)
    requires k in s.jobs
  {
    s.jobs[k].off + if s.copying.Some? && s.copying.value.job == k then s.copying.value.done else 0
  }

  /** The bytes of a job that are done have their places, at increasing offsets, none missing and none twice. */
  ghost predicate JobPlaced(s: State, k: nat)
    requires k in s.jobs
  {
    var job := s.jobs[k];
    && |job.at| == Placed(s, k) <= |job.data| && |job.data| % 4 == 0
    && (forall j | 0 <= j < |job.at| :: job.at[j] < Front(s) && job.at[j] in s.staged)
    && (forall i, j | 0 <= i < j < |job.at| :: job.at[i] < job.at[j])
  }

  ghost predicate Placing(s: State) {
    forall k | k in s.jobs :: JobPlaced(s, k)
  }

  lemma JobKept(s: State, t: State, k: nat)
    requires k in s.jobs && k in t.jobs && JobPlaced(s, k) && t.jobs[k] == s.jobs[k] && Placed(t, k) == Placed(s, k)
    requires Front(s) <= Front(t) && s.staged.Keys <= t.staged.Keys
    ensures JobPlaced(t, k)
  {
  }

  lemma CopyPlaced(s: State)
    requires Enabled(s, CopyByte) && CopyOk(s) && JobPlaced(s, s.copying.value.job)
    ensures JobPlaced(Apply(s, CopyByte), s.copying.value.job)
  {
    var t, k := Apply(s, CopyByte), s.copying.value.job;
    assert t.jobs[k].data == s.jobs[k].data && t.jobs[k].at == s.jobs[k].at + [Front(s)];
  }

  lemma CommitPlaced(s: State, k: nat)
    requires Enabled(s, Commit) && CopyOk(s) && k in s.jobs && JobPlaced(s, k)
    ensures JobPlaced(Apply(s, Commit), k)
  {
  }

  lemma FrontGrows(s: State, e: Event)
    requires Bounds(s) && Enabled(s, e)
    ensures Front(s) <= Front(Apply(s, e))
  {
  }

  lemma StepPlaced(s: State, e: Event, k: nat)
    requires Bounds(s) && Enabled(s, e) && Placing(s) && k in Apply(s, e).jobs
    ensures JobPlaced(Apply(s, e), k)
  {
    if e == Commit {
      CommitPlaced(s, k);
    } else if e == CopyByte && k == s.copying.value.job {
      CopyPlaced(s);
    } else if k in s.jobs {
      FrontGrows(s, e);
      JobKept(s, Apply(s, e), k);
    }
  }

  lemma {:induction false} RunPlaced(states: seq<State>, events: seq<Event>, i: nat)
    requires Run(states, events) && i < |states|
    ensures Placing(states[i])
  {
    if i > 0 {
      RunPlaced(states, events, i - 1);
      RunKeepsBounds(states, events, i - 1);
      forall k | k in states[i].jobs ensures JobPlaced(states[i], k) {
        StepPlaced(states[i - 1], events[i - 1], k);
      }
    }
  }

  // ---- Which byte is staged ----------------------------------------------------------------

  /** Each place of a job holds the byte of the job that belongs there. */
  ghost predicate JobRight(s: State, k: nat) {
    k in s.jobs ==>
      var job := s.jobs[k];
      forall j | 0 <= j < |job.at| :: j < |job.data| && job.at[j] in s.staged && s.staged[job.at[j]] == job.data[j]
  }

  /** A byte of job `k` copied from a chunk that starts in the middle of a sample is equal to the byte before it. */
  ghost predicate Unharmed(s: State, e: Event, k: nat) {
    e == CopyByte && s.copying.Some? && s.copying.value.job == k && k in s.jobs && s.jobs[k].off % 2 == 1 ==>
      var n, data := Placed(s, k), s.jobs[k].data;
      0 < n < |data| && data[n] == data[n - 1]
  }

  /** Unless a byte of the job is copied, what was right stays right and what was wrong stays wrong. */
  lemma OtherRight(s: State, e: Event, k: nat)
    requires Bounds(s) && Placing(s) && Enabled(s, e) && (e == CopyByte ==> k != s.copying.value.job)
    ensures JobRight(Apply(s, e), k) <==> JobRight(s, k)
  {
    var t := Apply(s, e);
    assert k in s.jobs ==> k in t.jobs && t.jobs[k].at == s.jobs[k].at && t.jobs[k].data == s.jobs[k].data;
    if k in s.jobs {
      assert JobPlaced(s, k);
      forall j | 0 <= j < |s.jobs[k].at|
        ensures s.jobs[k].at[j] in t.staged && t.staged[s.jobs[k].at[j]] == s.staged[s.jobs[k].at[j]]
      {
        StagedStays(s, e, s.jobs[k].at[j]);
      }
    }
  }

  /** A chunk that starts at an odd byte stages the byte before the right one. */
  lemma CopiedByte(s: State)
    requires Bounds(s) && Placing(s) && Enabled(s, CopyByte)
    ensures var k, n := s.copying.value.job, Placed(s, s.copying.value.job);
            && n < |s.jobs[k].data| && (s.jobs[k].off % 2 == 1 ==> n > 0)
            && Apply(s, CopyByte).staged[Front(s)] == s.jobs[k].data[if s.jobs[k].off % 2 == 1 then n - 1 else n]
  {
  }

  lemma CopyRight(s: State)
    requires Bounds(s) && Placing(s) && Enabled(s, CopyByte)
    ensures var k := s.copying.value.job;
            JobRight(Apply(s, CopyByte), k) <==> JobRight(s, k) && Unharmed(s, CopyByte, k)
  {
    var t, k := Apply(s, CopyByte), s.copying.value.job;
    var job := s.jobs[k];
    assert JobPlaced(s, k);
    CopiedByte(s);
    assert t.jobs[k].data == job.data && t.jobs[k].at == job.at + [Front(s)];
    assert t.jobs[k].at[|job.at|] == Front(s);
    forall j | 0 <= j < |job.at| ensures t.jobs[k].at[j] == job.at[j] && t.staged[job.at[j]] == s.staged[job.at[j]] {
    }
    if JobRight(t, k) {
      forall j | 0 <= j < |job.at| ensures s.staged[job.at[j]] == job.data[j] {
        assert t.jobs[k].at[j] == job.at[j];
      }
    }
  }

  lemma StepRight(s: State, e: Event, k: nat)
    requires Bounds(s) && Placing(s) && Enabled(s, e)
    ensures JobRight(Apply(s, e), k) <==> JobRight(s, k) && Unharmed(s, e, k)
  {
    if e == CopyByte && k == s.copying.value.job {
      CopyRight(s);
    } else {
      OtherRight(s, e, k);
    }
  }

  ghost predicate UnharmedUntil(states: seq<State>, events: seq<Event>, n: nat, k: nat)
    requires n <= |events| && n <= |states|
  {
    forall i | 0 <= i < n :: Unharmed(states[i], events[i], k)
  }

  /** In every run the bytes of a job are staged right exactly when no chunk cut a sample in two unequal bytes. */
  lemma {:induction false} RunRight(states: seq<State>, events: seq<Event>, i: nat, k: nat)
    requires Run(states, events) && i < |states|
    ensures JobRight(states[i], k) <==> UnharmedUntil(states, events, i, k)
  {
    if i > 0 {
      RunRight(states, events, i - 1, k);
      RunKeepsBounds(states, events, i - 1);
      RunPlaced(states, events, i - 1);
      StepRight(states[i - 1], events[i - 1], k);
    }
  }

  /**
    When `submit_playback` returns, every byte it was given has one place of its own, in order, and the places
    hold those bytes exactly when no chunk of the call cut a sample in two unequal bytes.
   */
  lemma SubmittedWhole(states: seq<State>, events: seq<Event>, i: nat, k: nat)
    requires Run(states, events) && i < |states| && k in states[i].jobs
    requires states[i].jobs[k].off == |states[i].jobs[k].data|
    ensures var job, staged := states[i].jobs[k], states[i].staged;
            && |job.at| == |job.data|
            && (forall j | 0 <= j < |job.at| :: job.at[j] in staged)
            && (forall m, n | 0 <= m < n < |job.at| :: job.at[m] < job.at[n])
            && ((forall j | 0 <= j < |job.data| :: staged[job.at[j]] == job.data[j])
                <==> UnharmedUntil(states, events, i, k))
  {
    RunPlaced(states, events, i);
    RunKeepsBounds(states, events, i);
    RunRight(states, events, i, k);
    assert JobPlaced(states[i], k);
  }

  // ---- Even readings are enough ------------------------------------------------------------

  /** All cursors stand on whole samples. */
  ghost predicate Even(s: State) {
    && s.ring.completed % 2 == 0 && s.ring.produced % 2 == 0
    && (s.copying.Some? ==> s.copying.value.take % 2 == 0)
    && (forall k | k in s.jobs :: s.jobs[k].off % 2 == 0 && |s.jobs[k].data| % 4 == 0)
  }

  lemma TakeEven(r: Ring, left: nat)
    requires r.completed < r.produced && r.produced % 2 == 0 && r.completed % 2 == 0 && left % 2 == 0
    ensures Take(r, left) % 2 == 0
  {
    EvenIn(r.produced);
    EvenGap(RING, r.produced % RING);
    if r.produced - r.completed < MAX_STAGED {
      EvenGap(r.produced, r.completed);
      EvenGap(MAX_STAGED, r.produced - r.completed);
    }
  }

  /** The ring has an even number of bytes. */
  lemma EvenIn(a: nat)
    requires a % 2 == 0
    ensures a % RING % 2 == 0
  {
  }

  lemma EvenGap(a: nat, b: nat)
    requires a % 2 == 0 && b % 2 == 0 && b <= a
    ensures (a - b) % 2 == 0
  {
  }

  lemma ReadingEven(r: Ring, d: nat)
    requires Shaped(r) && r.last == r.completed % RING && r.completed <= d < r.completed + RING
    requires d % 2 == 0 && r.produced % 2 == 0
    ensures Reconciled(r, d % RING).completed == d
    ensures Prepared(r, d % RING).completed == d && Prepared(r, d % RING).produced % 2 == 0
  {
    DeltaIsProgress(r.completed, d);
  }

  lemma StepEven(s: State, e: Event)
    requires Cursors(s) && Enabled(s, e) && Even(s) && (e == Reconcile || e.Begin? ==> s.dma % 2 == 0)
    ensures Even(Apply(s, e))
  {
    if e == Commit {
      SumEven(s.ring.produced, s.copying.value.take);
      SumEven(s.jobs[s.copying.value.job].off, s.copying.value.take);
    } else if e == Reconcile {
      ReadingEven(s.ring, s.dma);
    } else if e.Begin? {
      BeginEven(s, e.job);
    }
  }

  lemma SumEven(a: nat, b: nat)
    requires a % 2 == 0 && b % 2 == 0
    ensures (a + b) % 2 == 0
  {
  }

  lemma BeginEven(s: State, k: nat)
    requires Cursors(s) && Enabled(s, Begin(k)) && Even(s) && s.dma % 2 == 0
    ensures Even(Apply(s, Begin(k)))
  {
    ReadingEven(s.ring, s.dma);
    LeftEven(|s.jobs[k].data|, s.jobs[k].off);
    TakeEven(Prepared(s.ring, s.dma % RING), |s.jobs[k].data| - s.jobs[k].off);
  }

  lemma LeftEven(n: nat, off: nat)
    requires n % 4 == 0 && off % 2 == 0 && off <= n
    ensures (n - off) % 2 == 0
  {
    Doubled(2 * (n / 4) - off / 2);
    assert n - off == 2 * (2 * (n / 4) - off / 2);
  }

  lemma Doubled(k: int)
    ensures 2 * k % 2 == 0
  {
  }

  /** Every position read from the hardware is a whole number of samples. */
  ghost predicate EvenReadings(states: seq<State>, events: seq<Event>)
    requires |states| > |events|
  {
    forall i | 0 <= i < |events| :: events[i] == Reconcile || events[i].Begin? ==> states[i].dma % 2 == 0
  }

  lemma {:induction false} RunEven(states: seq<State>, events: seq<Event>, i: nat)
    requires Run(states, events) && i < |states| && EvenReadings(states, events)
    ensures Even(states[i])
  {
    if i > 0 {
      RunEven(states, events, i - 1);
      RunKeepsBounds(states, events, i - 1);
      StepEven(states[i - 1], events[i - 1]);
    }
  }

  /** When every position read from the hardware is even, every byte is staged right. */
  lemma EvenReadingsRight(states: seq<State>, events: seq<Event>, i: nat, k: nat)
    requires Run(states, events) && i < |states| && EvenReadings(states, events)
    ensures JobRight(states[i], k)
  {
    forall j | 0 <= j < i ensures Unharmed(states[j], events[j], k) {
      RunEven(states, events, j);
    }
    RunRight(states, events, i, k);
  }

  // ---- Left stays left ---------------------------------------------------------------------

  /** All cursors stand on whole stereo frames, and each byte keeps its place in its frame. */
  ghost predicate Framed(s: State) {
    && s.ring.completed % 4 == 0 && s.ring.produced % 4 == 0
    && (s.copying.Some? ==> s.copying.value.take % 4 == 0)
    && (forall k | k in s.jobs :: FramedJob(s.jobs[k]))
  }

  ghost predicate FramedJob(job: Job) {
    job.off % 4 == 0 && |job.data| % 4 == 0 && forall j | 0 <= j < |job.at| :: job.at[j] % 4 == j % 4
  }

  lemma TakeFramed(r: Ring, left: nat)
    requires r.completed < r.produced && r.produced % 4 == 0 && r.completed % 4 == 0 && left % 4 == 0
    ensures Take(r, left) % 4 == 0
  {
  }

  lemma ReadingFramed(r: Ring, d: nat)
    requires Shaped(r) && r.last == r.completed % RING && r.completed <= d < r.completed + RING
    requires d % 4 == 0 && r.produced % 4 == 0
    ensures Reconciled(r, d % RING).completed == d
    ensures Prepared(r, d % RING).completed == d && Prepared(r, d % RING).produced % 4 == 0
  {
    DeltaIsProgress(r.completed, d);
  }

  lemma CopyFramed(s: State)
    requires Enabled(s, CopyByte) && s.ring.produced % 4 == 0 && s.jobs[s.copying.value.job].off % 4 == 0
    requires |s.jobs[s.copying.value.job].at| == Placed(s, s.copying.value.job)
    requires FramedJob(s.jobs[s.copying.value.job])
    ensures FramedJob(Apply(s, CopyByte).jobs[s.copying.value.job])
  {
    SameFrame(s.ring.produced, s.copying.value.done);
    SameFrame(s.jobs[s.copying.value.job].off, s.copying.value.done);
  }

  lemma SameFrame(a: nat, b: nat)
    requires a % 4 == 0
    ensures (a + b) % 4 == b % 4
  {
  }

  lemma StepFramed(s: State, e: Event)
    requires Cursors(s) && Enabled(s, e) && Framed(s) && Placing(s)
    requires e == Reconcile || e.Begin? ==> s.dma % 4 == 0
    ensures Framed(Apply(s, e))
  {
    if e == Commit {
      CommitFramed(s);
    } else if e == Reconcile {
      ReadingFramed(s.ring, s.dma);
    } else if e.Begin? {
      BeginFramed(s, e.job);
    } else if e == CopyByte {
      assert JobPlaced(s, s.copying.value.job);
      CopyFramed(s);
    }
  }

  lemma CommitFramed(s: State)
    requires Enabled(s, Commit) && Framed(s)
    ensures Framed(Apply(s, Commit))
  {
    SameFrame(s.ring.produced, s.copying.value.take);
    SameFrame(s.jobs[s.copying.value.job].off, s.copying.value.take);
  }

  lemma BeginFramed(s: State, k: nat)
    requires Cursors(s) && Enabled(s, Begin(k)) && Framed(s) && s.dma % 4 == 0
    ensures Framed(Apply(s, Begin(k)))
  {
    ReadingFramed(s.ring, s.dma);
    LeftFramed(|s.jobs[k].data|, s.jobs[k].off);
    TakeFramed(Prepared(s.ring, s.dma % RING), |s.jobs[k].data| - s.jobs[k].off);
  }

  lemma LeftFramed(n: nat, off: nat)
    requires n % 4 == 0 && off % 4 == 0 && off <= n
    ensures (n - off) % 4 == 0
  {
  }

  /** With positions reported in whole frames, left samples are staged where left samples are played. */
  lemma {:induction false} RunFramed(states: seq<State>, events: seq<Event>, i: nat)
    requires Run(states, events) && i < |states|
    requires forall j | 0 <= j < |events| :: events[j] == Reconcile || events[j].Begin? ==> states[j].dma % 4 == 0
    ensures Framed(states[i]) && Placing(states[i])
  {
    RunPlaced(states, events, i);
    if i > 0 {
      RunFramed(states, events, i - 1);
      RunKeepsBounds(states, events, i - 1);
      StepFramed(states[i - 1], events[i - 1]);
    }
  }

  // ---- The critical section on the buffer itself -------------------------------------------

  /** A block copy of bytes that do not wrap. */
  function Overwritten(cells: seq<nat>, pos: nat, bytes: seq<nat>): (r: seq<nat>)
    requires pos + |bytes| <= |cells|
    ensures |r| == |cells|
  {
    cells[..pos] + bytes + cells[pos + |bytes|..]
  }

  /** What one pass through the critical section leaves, and how many bytes it took. */
  function Staged(r: Ring, lpib: nat, data: seq<nat>, off: nat): (t: (Ring, nat))
    requires Shaped(r) && lpib < RING && off <= |data|
  {
    var p := Prepared(r, lpib);
    var take := Take(p, |data| - off);
    var cells := Overwritten(p.cells, p.produced % RING, data[Source(off, 0)..Source(off, take)]);
    (p.(cells := cells, produced := p.produced + take), take)
  }

  /** The byte steps of a copy, to the end. */
  ghost function CopyRest(s: State): (t: State)
    requires Shaped(s.ring) && CopyOk(s) && s.copying.Some?
    ensures Shaped(t.ring) && CopyOk(t) && t.copying == Some(s.copying.value.(done := s.copying.value.take))
    ensures t.ring.produced == s.ring.produced && t.ring.completed == s.ring.completed && t.ring.last == s.ring.last
    ensures t.dma == s.dma && s.copying.value.job in s.jobs
    ensures t.jobs[s.copying.value.job].data == s.jobs[s.copying.value.job].data
    ensures t.jobs[s.copying.value.job].off == s.jobs[s.copying.value.job].off
    decreases s.copying.value.take - s.copying.value.done
  {
    if s.copying.value.done == s.copying.value.take then s else CopyRest(Apply(s, CopyByte))
  }

  lemma CellIndex(p: nat, take: nat, done: nat)
    requires p % RING + take <= RING && done < take
    ensures (p + done) % RING == p % RING + done
  {
  }

  lemma OneByteMore(cells: seq<nat>, pos: nat, data: seq<nat>, from: nat, to: nat)
    requires from < to <= |data| && pos + (to - from) <= |cells|
    ensures Overwritten(cells[pos := data[from]], pos + 1, data[from + 1..to])
         == Overwritten(cells, pos, data[from..to])
  {
    assert data[from..to] == [data[from]] + data[from + 1..to];
  }

  lemma CopyOne(s: State) returns (t: State)
    requires Shaped(s.ring) && CopyOk(s) && s.copying.Some? && s.copying.value.done < s.copying.value.take
    ensures t.copying == Some(s.copying.value.(done := s.copying.value.done + 1))
    ensures Shaped(t.ring) && CopyOk(t) && t.ring.produced == s.ring.produced && CopyRest(t) == CopyRest(s)
    ensures t.jobs[s.copying.value.job].data == s.jobs[s.copying.value.job].data
    ensures t.jobs[s.copying.value.job].off == s.jobs[s.copying.value.job].off
    ensures s.ring.produced % RING + s.copying.value.done < RING
    ensures var job, done := s.jobs[s.copying.value.job], s.copying.value.done;
            t.ring.cells == s.ring.cells[s.ring.produced % RING + done := job.data[Source(job.off, done)]]
  {
    CellIndex(s.ring.produced, s.copying.value.take, s.copying.value.done);
    t := Apply(s, CopyByte);
  }

  /** Byte by byte or as a block, the cells end up the same. */
  lemma {:induction false} CopyIsBlock(s: State)
    requires Shaped(s.ring) && CopyOk(s) && s.copying.Some?
    ensures var c, pos := s.copying.value, s.ring.produced % RING;
            var job := s.jobs[c.job];
            var rest := job.data[Source(job.off, c.done)..Source(job.off, c.take)];
            CopyRest(s).ring.cells == Overwritten(s.ring.cells, pos + c.done, rest)
    decreases s.copying.value.take - s.copying.value.done
  {
    var c, job := s.copying.value, s.jobs[s.copying.value.job];
    if c.done < c.take {
      var pos, from := s.ring.produced % RING + c.done, Source(job.off, c.done);
      var t := CopyOne(s);
      CopyIsBlock(t);
      OneByteMore(s.ring.cells, pos, job.data, from, Source(job.off, c.take));
    }
  }

  /** An undisturbed pass of the transition system is the critical section on the buffer. */
  lemma PassIsStaged(s: State, k: nat)
    requires Bounds(s) && Enabled(s, Begin(k)) && Apply(s, Begin(k)).copying.Some?
    ensures var m := Apply(s, Begin(k));
            && CopyOk(m)
            && Enabled(CopyRest(m), Commit)
            && Apply(CopyRest(m), Commit).ring == Staged(s.ring, s.dma % RING, s.jobs[k].data, s.jobs[k].off).0
  {
    BeginKeepsBounds(s, k);
    CommitIsBlock(Apply(s, Begin(k)));
  }

  lemma CommitIsBlock(m: State)
    requires Shaped(m.ring) && CopyOk(m) && m.copying.Some? && m.copying.value.done == 0
    ensures Enabled(CopyRest(m), Commit)
    ensures var c, job := m.copying.value, m.jobs[m.copying.value.job];
            var chunk := job.data[Source(job.off, 0)..Source(job.off, c.take)];
            Apply(CopyRest(m), Commit).ring ==
              m.ring.(cells := Overwritten(m.ring.cells, m.ring.produced % RING, chunk),
                      produced := m.ring.produced + c.take)
  {
    CopyIsBlock(m);
  }

  // ---- Two runs that go wrong --------------------------------------------------------------

  /** A run that goes on. */
  datatype Trace = Trace(states: seq<State>, events: seq<Event>) {
    ghost predicate Good() {
      Run(states, events)
    }

    ghost function Last(): (s: State)
      requires Good()
    {
      states[|events|]
    }

    ghost function Then(e: Event): (t: Trace)
      requires Good() && Enabled(Last(), e)
      ensures t.Good() && t.Last() == Apply(Last(), e) && t.states[0] == states[0]
    {
      Trace(states + [Apply(Last(), e)], events + [e])
    }
  }

  /** The hardware reads on. */
  lemma {:induction false} Plays(r: Trace, n: nat) returns (t: Trace)
    requires r.Good() && r.Last().dma + n < r.Last().ring.completed + RING
    ensures t.Good() && t.states[0] == r.states[0]
    ensures t.Last() == r.Last().(dma := r.Last().dma + n, played := t.Last().played)
  {
    RunKeepsBounds(r.states, r.events, |r.events|);
    t := r;
    for i := 0 to n
      invariant t.Good() && t.states[0] == r.states[0]
      invariant t.Last() == r.Last().(dma := r.Last().dma + i, played := t.Last().played)
    {
      t := t.Then(Dma);
    }
  }

  lemma {:induction false} CopiesRest(r: Trace) returns (t: Trace)
    requires r.Good() && Shaped(r.Last().ring) && CopyOk(r.Last()) && r.Last().copying.Some?
    ensures t.Good() && t.states[0] == r.states[0] && t.Last() == CopyRest(r.Last())
    decreases r.Last().copying.value.take - r.Last().copying.value.done
  {
    if r.Last().copying.value.done == r.Last().copying.value.take {
      t := r;
    } else {
      t := CopiesRest(r.Then(CopyByte));
    }
  }

  /** One undisturbed pass of a call through the critical section. */
  lemma Passes(r: Trace, k: nat) returns (t: Trace)
    requires r.Good() && Enabled(r.Last(), Begin(k)) && Apply(r.Last(), Begin(k)).copying.Some?
    ensures t.Good() && t.states[0] == r.states[0] && t.Last().copying.None? && t.Last().dma == r.Last().dma
    ensures var ring := Prepared(r.Last().ring, r.Last().dma % RING);
            var left := |r.Last().jobs[k].data| - r.Last().jobs[k].off;
            && t.Last().ring.completed == ring.completed == r.Last().dma
            && t.Last().ring.produced == ring.produced + Take(ring, left)
            && k in t.Last().jobs && t.Last().jobs[k].data == r.Last().jobs[k].data
            && t.Last().jobs[k].off == r.Last().jobs[k].off + Take(ring, left)
  {
    RunKeepsBounds(r.states, r.events, |r.events|);
    BeginKeepsBounds(r.Last(), k);
    t := CopiesRest(r.Then(Begin(k)));
    t := t.Then(Commit);
  }

  /** A call is made, the hardware reads one byte. */
  lemma Starts(s: State, data: seq<nat>) returns (t: Trace)
    requires Initial(s) && |data| % 4 == 0
    ensures t.Good() && t.states[0] == s
    ensures t.Last() == s.(jobs := map[0 := Job(data, 0, [])], dma := 1, played := t.Last().played)
  {
    t := Trace([s], []);
    t := t.Then(Submit(0, data));
    t := t.Then(Dma);
  }

  /** The first pass fills the ring up to the staging cap; from then on every byte played makes room for one more. */
  lemma OddRoom(s: State, data: seq<nat>) returns (t: Trace)
    requires Initial(s) && |data| % 4 == 0 && |data| >= 13316
    ensures t.Good() && t.states[0] == s && t.Last().copying.None?
    ensures t.Last().dma == 2 && t.Last().ring.completed == 2 && t.Last().ring.produced == 15362
    ensures 0 in t.Last().jobs && t.Last().jobs[0].data == data && t.Last().jobs[0].off == 13313
  {
    t := Starts(s, data);
    DeltaIsProgress(0, 1);
    assert 2049 % RING == 2049;
    t := Passes(t, 0);
    RunKeepsBounds(t.states, t.events, |t.events|);
    t := t.Then(Dma);
    DeltaIsProgress(1, 2);
    assert 15361 % RING == 15361;
    t := Passes(t, 0);
  }

  lemma OddChunk(s: State, data: seq<nat>) returns (t: Trace)
    requires Initial(s) && |data| % 4 == 0 && |data| >= 13316
    ensures t.Good() && t.states[0] == s && t.Last().copying == Some(Copying(0, 1, 0))
    ensures 0 in t.Last().jobs && t.Last().jobs[0].data == data && t.Last().jobs[0].off == 13313
  {
    t := OddRoom(s, data);
    RunKeepsBounds(t.states, t.events, |t.events|);
    t := t.Then(Dma);
    DeltaIsProgress(2, 3);
    assert 15362 % RING == 15362;
    t := t.Then(Begin(0));
  }

  /** There is a run in which the hardware reports an odd position and a byte is staged twice. */
  lemma SampleCut(s: State, data: seq<nat>) returns (t: Trace)
    requires Initial(s) && |data| % 4 == 0 && |data| >= 13316
    ensures t.Good() && t.states[0] == s && 0 in t.Last().jobs && t.Last().jobs[0].data == data
    ensures |t.Last().jobs[0].at| == 13314 && t.Last().jobs[0].at[13313] in t.Last().staged
    ensures t.Last().staged[t.Last().jobs[0].at[13313]] == data[13312]
    ensures data[13312] != data[13313] ==> !JobRight(t.Last(), 0)
  {
    t := OddChunk(s, data);
    RunKeepsBounds(t.states, t.events, |t.events|);
    RunPlaced(t.states, t.events, |t.events|);
    assert JobPlaced(t.Last(), 0);
    CopiedByte(t.Last());
    CopyRight(t.Last());
    t := t.Then(CopyByte);
  }

  lemma CopyBegins(s: State, data: seq<nat>) returns (t: Trace)
    requires Initial(s) && |data| % 4 == 0 && |data| > 0
    ensures t.Good() && t.states[0] == s && t.Last().copying.Some? && t.Last().copying.value.job == 0
    ensures t.Last().copying.value.done == 0 < t.Last().copying.value.take && t.Last().staged == map[]
    ensures t.Last().dma == t.Last().ring.completed == 1 && t.Last().ring.produced == 2049
    ensures t.Last().jobs == map[0 := Job(data, 0, [])]
  {
    t := Starts(s, data);
    DeltaIsProgress(0, 1);
    assert 2049 % RING == 2049;
    t := t.Then(Begin(0));
  }

  lemma Overtaken(s: State, data: seq<nat>) returns (t: Trace)
    requires Initial(s) && |data| % 4 == 0 && |data| > 0
    ensures t.Good() && t.states[0] == s && Shaped(t.Last().ring) && t.Last().ring.cells[2049] == data[0]
    ensures t.Last().ring.completed == t.Last().dma == 2050
    ensures t.Last().staged == map[2049 := data[0]]
  {
    t := CopyBegins(s, data);
    t := Plays(t, 2049);
    RunKeepsBounds(t.states, t.events, |t.events|);
    ReconciledBounds(t.Last(), Apply(t.Last(), Reconcile));
    t := t.Then(Reconcile);
    t := t.Then(CopyByte);
  }

  /** There is a run in which the hardware plays a byte one turn of the ring after the offset it was staged for. */
  lemma PlaysOneTurnLate(s: State, data: seq<nat>) returns (t: Trace)
    requires Initial(s) && |data| % 4 == 0 && |data| > 0
    ensures t.Good() && t.states[0] == s && t.Last().staged == map[2049 := data[0]]
    ensures |t.Last().played| == 2050 + RING && t.Last().played[2049 + RING] == data[0]
  {
    t := Overtaken(s, data);
    t := Plays(t, RING - 1);
    RunKeepsBounds(t.states, t.events, |t.events|);
    ReconciledBounds(t.Last(), Apply(t.Last(), Reconcile));
    DeltaIsProgress(2050, 2049 + RING);
    SilencedAt(t.Last().ring.cells, 2050, RING - 1, 2049 + RING);
    OneTurn(2049 + RING);
    t := t.Then(Reconcile);
    RunKeepsBounds(t.states, t.events, |t.events|);
    t := t.Then(Dma);
  }

  /** The driver's buffer and cursors. */
  class Buffer {
    const cells: array<nat>
    var produced: nat
    var completed: nat
    var last: nat

    ghost predicate Valid()
      reads this
    {
      cells.Length == RING && last < RING
    }

    ghost function Model(): (r: Ring)
      requires Valid()
      reads this, cells
      ensures Shaped(r)
    {
      Ring(cells[..], produced, completed, last)
    }

    constructor ()
      ensures Valid() && fresh(cells)
      ensures Model() == Ring(seq(RING, i => 0), 0, 0, 0)
    {
      cells := new nat[RING](i => 0);
      produced, completed, last := 0, 0, 0;
      new;
      assert cells[..] == seq(RING, i => 0);
    }

    /** Zero a run of cells that does not wrap. */
    method Fill(from: nat, count: nat)
      requires Valid() && from + count <= RING
      modifies cells
      ensures forall i | 0 <= i < RING :: cells[i] == if from <= i < from + count then 0 else old(cells[i])
    {
      for j := from to from + count
        invariant forall i | 0 <= i < RING :: cells[i] == if from <= i < j then 0 else old(cells[i])
      {
        cells[j] := 0;
      }
    }

    /** Zero a run of cells, in two pieces when it wraps around the end of the ring. */
    method Silence(from: nat, count: nat)
      requires Valid() && from < RING && count <= RING
      modifies cells
      ensures cells[..] == Silenced(old(cells[..]), from, count)
    {
      if from + count <= RING {
        Fill(from, count);
      } else {
        var first := RING - from;
        Fill(from, first);
        Fill(0, count - first);
      }
    }

    /** `out_completed_reconcile` for a position reading. */
    method Reconcile(lpib: nat)
      requires Valid() && lpib < RING
      modifies this, cells
      ensures Valid() && Model() == Reconciled(old(Model()), lpib)
    {
      var previous := last;
      last := lpib;
      var delta := (lpib + RING - previous) % RING;
      if delta == 0 {
        assert cells[..] == Silenced(cells[..], previous, 0);
        return;
      }
      Silence(previous, delta);
      completed := completed + delta;
    }

    /** Follow the hardware, and after an underrun skip past a silent gap. */
    method Prepare(lpib: nat)
      requires Valid() && lpib < RING
      modifies this, cells
      ensures Valid() && Model() == Prepared(old(Model()), lpib)
    {
      Reconcile(lpib);
      if produced <= completed {
        Silence(completed % RING, GUARD);
        produced := completed + GUARD;
      }
    }

    method Copy(pos: nat, data: seq<nat>, from: nat, count: nat)
      requires Valid() && pos + count <= RING && from + count <= |data|
      modifies cells
      ensures cells[..] == Overwritten(old(cells[..]), pos, data[from..from + count])
    {
      for j := 0 to count
        invariant forall i | 0 <= i < RING ::
                    cells[i] == if pos <= i < pos + j then data[from + i - pos] else old(cells[i])
      {
        cells[pos + j] := data[from + j];
      }
    }

    /** One pass of `submit_playback` through its critical section. */
    method Stage(lpib: nat, data: seq<nat>, off: nat) returns (take: nat)
      requires Valid() && lpib < RING && off <= |data|
      modifies this, cells
      ensures Valid() && (Model(), take) == Staged(old(Model()), lpib, data, off)
    {
      Prepare(lpib);
      var ahead := produced - completed;
      if ahead >= MAX_STAGED {
        take := 0;
      } else {
        take := Min(Min(|data| - off, RING - produced % RING), MAX_STAGED - ahead);
      }
      Copy(produced % RING, data, off / 2 * 2, take);
      produced := produced + take;
    }
  }
}
