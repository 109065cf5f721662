/**
  Whole runs of fork, faults and exit: the counts, the frames, and the refinement of eager copying. The
  runs at the end show what a failed fork does.
 */
module ForkRuns {
  import opened Common
  import opened CopyOnWrite
  import opened ForkSteps

  /** Before the first process: every frame is free. */
  ghost predicate Initial(s: State) {
    && s.refs == map[] && s.writable == {} && s.region == {} && s.count == map[] && s.limbo == {}
    && s.dangling == map[] && s.pcs == map[] && s.free == s.frames == s.mem.Keys
  }

  ghost predicate Chain(states: seq<State>, events: seq<Event>) {
    && |states| == |events| + 1
    && (forall i | 0 <= i < |events| :: Enabled(states[i], events[i]) && states[i + 1] == Apply(states[i], events[i]))
  }

  ghost predicate Run(states: seq<State>, events: seq<Event>) {
    Chain(states, events) && Initial(states[0])
  }

  ghost predicate CleanRun(states: seq<State>, events: seq<Event>) {
    Run(states, events) && forall i | 0 <= i < |events| :: Clean(states[i], events[i])
  }

  lemma {:induction false} RunKeepsInv(states: seq<State>, events: seq<Event>, i: nat)
    requires CleanRun(states, events) && i < |states|
    ensures Inv(states[i])
  {
    if i == 0 {
      forall f: nat ensures Agrees(|Owners(states[0].refs, f)|, Count(states[0].count, f)) {
        assert Owners(states[0].refs, f) == {};
      }
    } else {
      RunKeepsInv(states, events, i - 1);
      StepKeepsInv(states[i - 1], events[i - 1]);
    }
  }

  // ---- The system fork is meant to be ------------------------------------------------------

  /** A registered process that has not begun to exit. */
  predicate Lives(s: State, a: nat) {
    a in s.pcs && !s.pcs[a].Embryo? && !s.pcs[a].Exiting?
  }

  datatype Fork = Fork(child: nat, skip: Option<Range>)

  /** What a live process sees in one of its pages. */
  ghost function See(s: State, p: Page): (v: Option<nat>) {
    if HasLeaf(s, p) && Lives(s, p.space) && s.refs[Leaf(p)] in s.mem then Some(s.mem[s.refs[Leaf(p)]]) else None
  }

  ghost function View(s: State): (v: Page -> Option<nat>) {
    p => See(s, p)
  }

  /** Without a range everything is copied; with one, what is outside it and in no 2 MiB block that begins above it. */
  predicate Inherited(skip: Option<Range>, n: nat) {
    skip.Some? ==> !(skip.value.lo <= n * PAGE < skip.value.hi) && n / 0x200 * 0x20_0000 < skip.value.hi
  }

  /**
    Eager copying: no frames, no counters, no faults. What page `p` holds after event `e`, when the
    pages held `v` before it. A committed fork copies to the child, at once, every page of the parent
    except those left out.
   */
  ghost function Spec(v: Page -> Option<nat>, e: Event, fork: Fork, p: Page): (w: Option<nat>) {
    match e
    case MapPage(q, f, content, rw) => if p == q then Some(content) else v(p)
    case Write(q, content) => if p == q then Some(content) else v(p)
    case Unmap(q) => if p == q then None else v(p)
    case ForkCommit(a) =>
      if p.space != fork.child then v(p) else if Inherited(fork.skip, p.number) then v(Page(a, p.number)) else None
    case OutOfMemory(a) => if p.space == a then None else v(p)
    case ExitStart(a) => if p.space == a then None else v(p)
    case _ => v(p)
  }

  /** The fork a commit is about. */
  function ForkOf(s: State, e: Event): (f: Fork) {
    if e.ForkCommit? && e.space in s.pcs && s.pcs[e.space].Forking?
    then Fork(s.pcs[e.space].child, s.pcs[e.space].skip)
    else Fork(0, None)
  }

  /** A write is seen at its page and nowhere else. */
  lemma WriteRefines(s: State, p: Page, v: nat, q: Page)
    requires Inv(s) && Enabled(s, Write(p, v))
    ensures See(Apply(s, Write(p, v)), q) == if q == p then Some(v) else See(s, q)
  {
    assert Local(s, p.space) && PageOk(s, Page(p.space, p.number));
  }

  /** A fault that ends in a private copy changes nothing the process sees. */
  lemma RepointRefines(s: State, a: nat, q: Page)
    requires Inv(s) && Enabled(s, Repoint(a))
    ensures See(Apply(s, Repoint(a)), q) == See(s, q)
  {
    assert Local(s, a);
  }

  /** A committed fork gives the child a copy of every page of the parent except those left out. */
  lemma CommitRefines(s: State, a: nat, q: Page)
    requires Inv(s) && Enabled(s, ForkCommit(a))
    ensures See(Apply(s, ForkCommit(a)), q) ==
            if q.space != s.pcs[a].child then See(s, q)
            else if Inherited(s.pcs[a].skip, q.number) then See(s, Page(a, q.number)) else None
  {
    var c, skip, p := s.pcs[a].child, s.pcs[a].skip, Page(a, q.number);
    ClonedExactly(skip, q.number);
    assert Local(s, a) && Mirrors(s, a, c) && FullyShared(s, a, c, skip) && Selected(s, c, skip);
    if q.space == c {
      assert q == Page(c, q.number);
      assert HasLeaf(s, q) <==> HasLeaf(s, p) && Cloned(skip, q.number);
    }
  }

  /** A fork that leaves out nothing gives the child every page of the parent. */
  lemma WholeCopy(s: State, a: nat, n: nat)
    requires Inv(s) && Enabled(s, ForkCommit(a)) && s.pcs[a].skip == None
    ensures See(Apply(s, ForkCommit(a)), Page(s.pcs[a].child, n)) == See(s, Page(a, n))
  {
    CommitRefines(s, a, Page(s.pcs[a].child, n));
  }

  /**
    The walk leaves out the given range, and with it everything in tables that begin above it: a page
    outside the range is cloned exactly when the 2 MiB block it lies in begins below the range's end.
   */
  lemma ClonedExactly(skip: Option<Range>, n: nat)
    ensures Cloned(skip, n) <==> Inherited(skip, n)
  {
    Coarser(n);
    Nested(n);
  }

  /** A block of 512 blocks begins no later than the block inside it. */
  lemma Coarser(n: nat)
    ensures n / 0x4_0000 * 0x4_0000 <= n / 0x200 * 0x200
  {
    var q, m := n / 0x4_0000, n / 0x200;
    assert q * 0x4_0000 <= n < (m + 1) * 0x200;
    assert q * 0x200 <= m;
  }

  lemma Nested(n: nat)
    ensures n / 0x800_0000 * 0x800_0000 <= n / 0x4_0000 * 0x4_0000
  {
    var q, m := n / 0x800_0000, n / 0x4_0000;
    assert q * 0x800_0000 <= n < (m + 1) * 0x4_0000;
    assert q * 0x200 <= m;
  }

  /** So a page well above the skipped range does not reach the child. */
  lemma CloneDropsPages()
    ensures !Cloned(Some(Range(0x20_0000, 0x20_1000)), 0x400)
    ensures !(0x20_0000 <= 0x400 * PAGE < 0x20_1000)
  {
  }

  predicate Silent(e: Event) {
    !e.MapPage? && !e.Write? && !e.Unmap? && !e.ForkCommit? && !e.OutOfMemory? && !e.ExitStart? && !e.Repoint?
  }

  /** A step that moves no leaf and no content, and lets every space live or not as before. */
  lemma SameSight(s: State, t: State, q: Page)
    requires t.refs == s.refs && t.mem == s.mem && (HasLeaf(s, q) ==> (Lives(s, q.space) <==> Lives(t, q.space)))
    ensures See(t, q) == See(s, q)
  {
  }

  /** Everything fork does before it commits is invisible. */
  lemma SilentClone(s: State, e: Event, q: Page)
    requires Enabled(s, e) && (e.ForkShare? || e.Unshare?) && ForkOk(s, e.page.space, s.pcs[e.page.space])
    ensures See(Apply(s, e), q) == See(s, q)
  {
  }

  /** A leaf belongs to a space that exists. */
  ghost predicate Housed(s: State, q: Page) {
    HasLeaf(s, q) ==> q.space in s.pcs
  }

  lemma LeafHoused(s: State, q: Page)
    requires Local(s, q.space)
    ensures Housed(s, q)
  {
    assert HasLeaf(s, q) ==> RefOk(s, Leaf(q));
  }

  lemma SilentFork(s: State, e: Event, q: Page)
    requires Enabled(s, e) && Silent(e) && IsFork(e) && !e.ForkShare? && !e.Unshare? && Housed(s, q)
    requires e.ForkAbandon? ==> ForkOk(s, e.space, s.pcs[e.space])
    ensures See(Apply(s, e), q) == See(s, q)
  {
    SameSight(s, Apply(s, e), q);
  }

  lemma SilentStep(s: State, e: Event, q: Page)
    requires Enabled(s, e) && Silent(e) && !IsFork(e) && Accounted(s) && Housed(s, q)
    ensures See(Apply(s, e), q) == See(s, q)
  {
    if e.Copy? || e.Decref? || e.ExitUnmap? {
      SilentMove(s, e, q);
    } else {
      SameSight(s, Apply(s, e), q);
    }
  }

  lemma SilentMove(s: State, e: Event, q: Page)
    requires Enabled(s, e) && Accounted(s) && (e.Copy? || e.Decref? || e.ExitUnmap?)
    ensures See(Apply(s, e), q) == See(s, q)
  {
  }

  lemma MapSeen(s: State, e: Event, q: Page)
    requires Accounted(s) && Enabled(s, e) && e.MapPage?
    ensures See(Apply(s, e), q) == if q == e.page then Some(e.content) else See(s, q)
  {
  }

  lemma EndSeen(s: State, e: Event, q: Page)
    requires Enabled(s, e) && (e.OutOfMemory? || e.ExitStart?)
    ensures See(Apply(s, e), q) == if q.space == e.space then None else See(s, q)
  {
  }

  lemma UnmapSeen(s: State, e: Event, q: Page)
    requires Enabled(s, e) && e.Unmap?
    ensures See(Apply(s, e), q) == if q == e.page then None else See(s, q)
  {
  }

  lemma Unseen(s: State, e: Event, q: Page)
    requires Inv(s) && Enabled(s, e) && (Silent(e) || e.Repoint?)
    ensures See(Apply(s, e), q) == See(s, q)
  {
    assert Local(s, q.space);
    LeafHoused(s, q);
    if e.Repoint? {
      RepointRefines(s, e.space, q);
    } else if e.ForkShare? || e.Unshare? {
      assert Local(s, e.page.space);
      SilentClone(s, e, q);
    } else if IsFork(e) {
      assert Local(s, e.space);
      SilentFork(s, e, q);
    } else {
      SilentStep(s, e, q);
    }
  }

  /** Copy-on-write refines eager copying, step by step. */
  lemma StepRefines(s: State, e: Event, q: Page)
    requires Inv(s) && Enabled(s, e)
    ensures View(Apply(s, e))(q) == Spec(View(s), e, ForkOf(s, e), q)
  {
    if Silent(e) || e.Repoint? {
      Unseen(s, e, q);
    } else if e.Write? {
      WriteRefines(s, e.page, e.content, q);
    } else if e.ForkCommit? {
      CommitRefines(s, e.space, q);
    } else if e.MapPage? {
      MapSeen(s, e, q);
    } else if e.Unmap? {
      UnmapSeen(s, e, q);
    } else {
      EndSeen(s, e, q);
    }
  }

  /** In every clean run every step is a step of eager copying, on every page. */
  lemma RunRefines(states: seq<State>, events: seq<Event>, i: nat, q: Page)
    requires CleanRun(states, events) && i < |events|
    ensures View(states[i + 1])(q) == Spec(View(states[i]), events[i], ForkOf(states[i], events[i]), q)
  {
    RunKeepsInv(states, events, i);
    StepRefines(states[i], events[i], q);
  }

  /** In every clean run no frame is free, or on its way to the allocator, while anything still maps it. */
  lemma NeverFreedWhileMapped(states: seq<State>, events: seq<Event>, i: nat, f: nat)
    requires CleanRun(states, events) && i < |states| && f in states[0].frames
    ensures states[i].frames == states[0].frames
    ensures Owners(states[i].refs, f) == {} <==> (f in states[i].free || f in states[i].limbo)
    ensures !(f in states[i].free && f in states[i].limbo)
  {
    RunKeepsInv(states, events, i);
    SameFrames(states, events, i);
    if Owners(states[i].refs, f) != {} {
      var r :| r in Owners(states[i].refs, f);
      assert r in states[i].refs;
    }
  }

  lemma FramesStay(s: State, e: Event)
    requires Enabled(s, e)
    ensures Apply(s, e).frames == s.frames
  {
  }

  lemma {:induction false} SameFrames(states: seq<State>, events: seq<Event>, i: nat)
    requires Run(states, events) && i < |states|
    ensures states[i].frames == states[0].frames
  {
    if i > 0 {
      SameFrames(states, events, i - 1);
      FramesStay(states[i - 1], events[i - 1]);
    }
  }

  /** In every clean run the counter of a shared frame is the number of its owners. */
  lemma CountIsOwners(states: seq<State>, events: seq<Event>, i: nat, f: nat)
    requires CleanRun(states, events) && i < |states|
    ensures |Owners(states[i].refs, f)| >= 2 ==> Count(states[i].count, f) == |Owners(states[i].refs, f)|
    ensures |Owners(states[i].refs, f)| < 2 ==> Count(states[i].count, f) <= |Owners(states[i].refs, f)|
  {
    RunKeepsInv(states, events, i);
    assert Agrees(|Owners(states[i].refs, f)|, Count(states[i].count, f));
  }

  // ---- When a failed fork is harmless ------------------------------------------------------

  /** A fork of `a` that failed after page `n` was shared, and has not returned yet. */
  ghost predicate Stuck(s: State, a: nat, c: nat, n: nat) {
    && a in s.pcs && (s.pcs[a].Unwinding? || s.pcs[a].Normalizing? || s.pcs[a].Destroying?) && s.pcs[a].child == c
    && (HasLeaf(s, Page(c, n)) || Page(c, n) in s.dangling)
  }

  lemma StuckAtProcess(s: State, e: Event, a: nat, c: nat, n: nat)
    requires Enabled(s, e) && !IsFork(e) && !IsFault(e) && Stuck(s, a, c, n) && At(s, c, Embryo)
    ensures Stuck(Apply(s, e), a, c, n)
  {
  }

  lemma StuckAtFault(s: State, e: Event, a: nat, c: nat, n: nat)
    requires Enabled(s, e) && IsFault(e) && Stuck(s, a, c, n) && At(s, c, Embryo)
    requires e.Repoint? || e.Copy? ==> FaultOk(s, e.space, s.pcs[e.space])
    ensures Stuck(Apply(s, e), a, c, n)
  {
  }

  lemma StuckAtFork(s: State, e: Event, a: nat, c: nat, n: nat)
    requires Enabled(s, e) && IsFork(e) && !e.DropDangling? && Stuck(s, a, c, n) && At(s, c, Embryo)
    requires OneParent(s.pcs)
    requires At(s, a, Destroying(c)) ==> NoLeaf(s, c)
    requires e.ForkCommit? || e.ForkAbandon? ==> ForkOk(s, e.space, s.pcs[e.space])
    ensures Stuck(Apply(s, e), a, c, n)
  {
  }

  lemma StuckStays(s: State, e: Event, a: nat, c: nat, n: nat)
    requires Inv(s) && Enabled(s, e) && Clean(s, e) && Stuck(s, a, c, n)
    ensures Stuck(Apply(s, e), a, c, n)
  {
    assert Local(s, a) && At(s, c, Embryo);
    if IsFork(e) {
      assert e.ForkCommit? || e.ForkAbandon? ==> Local(s, e.space);
      StuckAtFork(s, e, a, c, n);
    } else if IsFault(e) {
      assert e.Repoint? || e.Copy? ==> Local(s, e.space);
      StuckAtFault(s, e, a, c, n);
    } else {
      StuckAtProcess(s, e, a, c, n);
    }
  }

  /** In a clean run a fork that fails after it shared a page never comes back: returning takes an unclean step. */
  lemma {:induction false} FailedForkReturns(states: seq<State>, events: seq<Event>, i: nat, j: nat, a: nat, n: nat)
    requires CleanRun(states, events) && i < j < |states| && events[i] == ForkFail(a)
    requires HasLeaf(states[i], Page(states[i].pcs[a].child, n))
    ensures Stuck(states[j], a, states[i].pcs[a].child, n)
  {
    var c := states[i].pcs[a].child;
    if j > i + 1 {
      FailedForkReturns(states, events, i, j - 1, a, n);
      RunKeepsInv(states, events, j - 1);
      StuckStays(states[j - 1], events[j - 1], a, c, n);
    }
  }

  lemma {:induction false} Unroll(s: State, events: seq<Event>, t: State) returns (states: seq<State>)
    requires Reaches(s, events, t)
    ensures Chain(states, events) && states[0] == s && states[|events|] == t
    decreases |events|
  {
    if events == [] {
      states := [s];
    } else {
      var rest := Unroll(Apply(s, events[0]), events[1..], t);
      states := [s] + rest;
      forall i | 0 <= i < |events|
        ensures Enabled(states[i], events[i]) && states[i + 1] == Apply(states[i], events[i])
      {
        if i > 0 {
          assert states[i] == rest[i - 1] && events[i] == events[1..][i - 1] && states[i + 1] == rest[i];
        }
      }
    }
  }

  ghost predicate Reaches(s: State, events: seq<Event>, t: State)
    decreases |events|
  {
    if events == [] then s == t else Enabled(s, events[0]) && Reaches(Apply(s, events[0]), events[1..], t)
  }

  lemma Step(s: State, e: Event, t: State)
    requires Enabled(s, e) && t == Apply(s, e)
    ensures Reaches(s, [e], t)
  {
  }

  lemma {:induction false} Join(s: State, one: seq<Event>, m: State, two: seq<Event>, t: State)
    requires Reaches(s, one, m) && Reaches(m, two, t)
    ensures Reaches(s, one + two, t)
    decreases |one|
  {
    if one == [] {
      assert one + two == two;
    } else {
      Join(Apply(s, one[0]), one[1..], m, two, t);
      assert (one + two)[1..] == one[1..] + two;
    }
  }

  // ---- A fault ends with the page writable -------------------------------------------------

  /** A step the process itself takes to resolve a write fault on `p`. */
  predicate Resolves(e: Event, p: Page) {
    || e == FaultSole(p) || e == Privatize(p.space) || e == MakeWritable(p.space)
    || e == FaultShared(p) || (e.Copy? && e.space == p.space) || e == Repoint(p.space) || e == Decref(p)
  }

  ghost predicate Alike(s: State, m: State) {
    forall q :: See(m, q) == See(s, q)
  }

  lemma StillAlike(s: State, m: State, e: Event)
    requires Alike(s, m) && Inv(m) && Enabled(m, e) && (Silent(e) || e.Repoint?)
    ensures Alike(s, Apply(m, e))
  {
    forall q ensures See(Apply(m, e), q) == See(s, q) {
      Unseen(m, e, q);
    }
  }

  /** The process is at `m` on its way, and nobody has seen anything. */
  ghost predicate OnTheWay(s: State, events: seq<Event>, m: State, p: Page) {
    Reaches(s, events, m) && Inv(m) && Alike(s, m) && forall e | e in events :: Resolves(e, p)
  }

  lemma Extend(s: State, events: seq<Event>, m: State, e: Event)
    requires Reaches(s, events, m) && Enabled(m, e)
    ensures Reaches(s, events + [e], Apply(m, e))
  {
    Step(m, e, Apply(m, e));
    Join(s, events, m, [e], Apply(m, e));
  }

  lemma OneStepOn(s: State, events: seq<Event>, m: State, p: Page, e: Event) returns (t: State)
    requires OnTheWay(s, events, m, p) && Enabled(m, e) && Resolves(e, p)
    ensures t == Apply(m, e) && OnTheWay(s, events + [e], t, p)
  {
    t := Apply(m, e);
    Extend(s, events, m, e);
    StepKeepsInv(m, e);
    StillAlike(s, m, e);
  }

  lemma SoleGranted(s: State, p: Page) returns (events: seq<Event>, t: State)
    requires Inv(s) && Enabled(s, FaultSole(p))
    ensures OnTheWay(s, events, t, p) && At(t, p.space, Running) && HasLeaf(t, p) && p in t.writable
  {
    var a := OneStepOn(s, [], s, p, FaultSole(p));
    var b := OneStepOn(s, [] + [FaultSole(p)], a, p, Privatize(p.space));
    t := OneStepOn(s, [] + [FaultSole(p)] + [Privatize(p.space)], b, p, MakeWritable(p.space));
    events := [] + [FaultSole(p)] + [Privatize(p.space)] + [MakeWritable(p.space)];
  }

  lemma CopyTaken(s: State, p: Page, f: nat) returns (events: seq<Event>, t: State)
    requires Inv(s) && Enabled(s, FaultShared(p)) && f in s.free
    ensures OnTheWay(s, events, t, p) && At(t, p.space, Copied(p)) && HasLeaf(t, p) && New(p) in t.refs
  {
    var a := OneStepOn(s, [], s, p, FaultShared(p));
    assert s.refs[Leaf(p)] in s.mem;
    t := OneStepOn(s, [] + [FaultShared(p)], a, p, Copy(p.space, f));
    events := [] + [FaultShared(p)] + [Copy(p.space, f)];
  }

  lemma CopyMapped(s: State, events: seq<Event>, m: State, p: Page) returns (t: State)
    requires OnTheWay(s, events, m, p) && At(m, p.space, Copied(p)) && HasLeaf(m, p) && New(p) in m.refs
    ensures OnTheWay(s, events + [Repoint(p.space)], t, p) && At(t, p.space, Dropping(p))
    ensures HasLeaf(t, p) && Old(p) in t.refs && p in t.writable
  {
    t := OneStepOn(s, events, m, p, Repoint(p.space));
  }

  lemma SharedGranted(s: State, p: Page, f: nat) returns (events: seq<Event>, t: State)
    requires Inv(s) && Enabled(s, FaultShared(p)) && f in s.free
    ensures OnTheWay(s, events, t, p) && At(t, p.space, Running) && HasLeaf(t, p) && p in t.writable
  {
    var copies, m := CopyTaken(s, p, f);
    var b := CopyMapped(s, copies, m, p);
    t := OneStepOn(s, copies + [Repoint(p.space)], b, p, Decref(p));
    events := copies + [Repoint(p.space)] + [Decref(p)];
  }

  /**
    From every state a process that may write a page and cannot yet comes, by its own steps and with nothing
    changed for anybody, to a state in which it can, if the frame is its own or there is a free one.
   */
  lemma FaultGrants(s: State, p: Page) returns (events: seq<Event>, t: State)
    requires Inv(s) && At(s, p.space, Running) && HasLeaf(s, p) && p in s.region && p !in s.writable
    requires Sole(s.refs, Leaf(p)) || s.free != {}
    ensures OnTheWay(s, events, t, p) && (forall v :: Enabled(t, Write(p, v)))
  {
    SoleIsCounted(s.refs, s.count, Leaf(p));
    if Sole(s.refs, Leaf(p)) {
      events, t := SoleGranted(s, p);
    } else {
      var f :| f in s.free;
      events, t := SharedGranted(s, p, f);
    }
  }

  // ---- Two failed forks --------------------------------------------------------------------

  /** A process with one writable page; the same in the middle of a fork. */
  ghost function OnePage(): (s: State) {
    State({10}, map[Leaf(Page(1, 0)) := 10], {Page(1, 0)}, {Page(1, 0)}, map[], map[10 := 5], {}, {}, map[],
          map[1 := Running])
  }

  ghost function MidFork(): (s: State) {
    State({10}, map[Leaf(Page(1, 0)) := 10, Leaf(Page(2, 0)) := 10], {}, {Page(1, 0), Page(2, 0)},
          map[10 := 2], map[10 := 5], {}, {}, map[], map[1 := Forking(2, None), 2 := Embryo])
  }

  lemma FirstPage() returns (s: State)
    ensures Initial(s) && Reaches(s, [Spawn(1)] + [MapPage(Page(1, 0), 10, 5, true)], OnePage())
  {
    s := State({10}, map[], {}, {}, map[], map[10 := 0], {10}, {}, map[], map[]);
    var m := s.(pcs := map[1 := Running]);
    Step(s, Spawn(1), m);
    Step(m, MapPage(Page(1, 0), 10, 5, true), OnePage());
    Join(s, [Spawn(1)], m, [MapPage(Page(1, 0), 10, 5, true)], OnePage());
  }

  lemma FirstFork()
    ensures Reaches(OnePage(), [ForkStart(1, 2, None)] + [ForkShare(Page(1, 0))], MidFork())
  {
    var m := OnePage().(writable := {}, pcs := map[1 := Forking(2, None), 2 := Embryo]);
    Step(OnePage(), ForkStart(1, 2, None), m);
    Step(m, ForkShare(Page(1, 0)), MidFork());
    Join(OnePage(), [ForkStart(1, 2, None)], m, [ForkShare(Page(1, 0))], MidFork());
  }

  /** `unshare` restores the counter, and the child's tables keep the entry. */
  ghost function AfterUnshare(): (s: State) {
    State({10}, map[Leaf(Page(1, 0)) := 10], {}, {Page(1, 0)}, map[10 := 0], map[10 := 5], {}, {},
          map[Page(2, 0) := 10], map[1 := Unwinding(2), 2 := Embryo])
  }

  lemma UnwindOnce()
    ensures Reaches(MidFork(), [ForkFail(1)] + ([Unshare(Page(1, 0))] + [Normalize(1)]), AfterUnshare())
  {
    var m := MidFork().(pcs := map[1 := Unwinding(2), 2 := Embryo]);
    Step(MidFork(), ForkFail(1), m);
    UnshareOnce(m);
    Join(MidFork(), [ForkFail(1)], m, [Unshare(Page(1, 0))] + [Normalize(1)], AfterUnshare());
  }

  lemma UnshareOnce(m: State)
    requires m == MidFork().(pcs := map[1 := Unwinding(2), 2 := Embryo])
    ensures Reaches(m, [Unshare(Page(1, 0))] + [Normalize(1)], AfterUnshare())
  {
    var n := DropShare(m);
    Step(n, Normalize(1), AfterUnshare());
    Join(m, [Unshare(Page(1, 0))], n, [Normalize(1)], AfterUnshare());
  }

  lemma DropShare(m: State) returns (n: State)
    requires m == MidFork().(pcs := map[1 := Unwinding(2), 2 := Embryo])
    ensures Reaches(m, [Unshare(Page(1, 0))], n)
    ensures n == AfterUnshare().(count := map[10 := 1], pcs := map[1 := Normalizing(2, 10), 2 := Embryo])
  {
    n := AfterUnshare().(count := map[10 := 1], pcs := map[1 := Normalizing(2, 10), 2 := Embryo]);
    Step(m, Unshare(Page(1, 0)), n);
  }

  lemma RollBackHome() returns (m: State)
    ensures Reaches(AfterUnshare(), [Rollback(1)], m)
    ensures m == AfterUnshare().(writable := {Page(1, 0)}, pcs := map[1 := Destroying(2), 2 := Embryo])
  {
    assert Of(AfterUnshare().region, 1) == {Page(1, 0)};
    m := AfterUnshare().(writable := {Page(1, 0)}, pcs := map[1 := Destroying(2), 2 := Embryo]);
    Step(AfterUnshare(), Rollback(1), m);
  }

  lemma TearDown(m: State) returns (t: State)
    requires m == AfterUnshare().(writable := {Page(1, 0)}, pcs := map[1 := Destroying(2), 2 := Embryo])
    ensures Reaches(m, [DropDangling(1, Page(2, 0))] + [Release(10)], t)
    ensures HasLeaf(t, Page(1, 0)) && t.refs[Leaf(Page(1, 0))] == 10 && Page(1, 0) in t.writable && 10 in t.free
  {
    var n := m.(limbo := {10}, dangling := map[]);
    t := n.(limbo := {}, free := {10});
    Step(m, DropDangling(1, Page(2, 0)), n);
    Step(n, Release(10), t);
    Join(m, [DropDangling(1, Page(2, 0))], n, [Release(10)], t);
  }

  /** A fork that fails after sharing one page ends with the parent's page mapped, writable, to a free frame. */
  lemma FailedForkFreesMappedFrame() returns (states: seq<State>, events: seq<Event>)
    ensures Run(states, events) && ForkFail(1) in events
    ensures var t := states[|events|];
            HasLeaf(t, Page(1, 0)) && Page(1, 0) in t.writable && t.refs[Leaf(Page(1, 0))] in t.free
  {
    var s, t;
    s, events, t := ReachFreed();
    states := Unroll(s, events, t);
  }

  lemma ReachFreed() returns (s: State, events: seq<Event>, t: State)
    ensures Initial(s) && Reaches(s, events, t) && ForkFail(1) in events
    ensures HasLeaf(t, Page(1, 0)) && Page(1, 0) in t.writable && t.refs[Leaf(Page(1, 0))] in t.free
  {
    s := FirstPage();
    FirstFork();
    UnwindOnce();
    var m := RollBackHome();
    t := TearDown(m);
    var one, two := [Spawn(1)] + [MapPage(Page(1, 0), 10, 5, true)], [ForkStart(1, 2, None)] + [ForkShare(Page(1, 0))];
    var three := [ForkFail(1)] + ([Unshare(Page(1, 0))] + [Normalize(1)]);
    var four := [DropDangling(1, Page(2, 0))] + [Release(10)];
    Join(s, one, OnePage(), two, MidFork());
    Join(s, one + two, MidFork(), three, AfterUnshare());
    Join(s, one + two + three, AfterUnshare(), [Rollback(1)], m);
    Join(s, one + two + three + [Rollback(1)], m, four, t);
    events := one + two + three + [Rollback(1)] + four;
    assert three[0] == ForkFail(1) && events[|one + two|] == ForkFail(1);
  }

  /** Two processes share the page; a second fork of the parent has failed before it shared anything. */
  ghost function Refused(): (s: State) {
    MidFork().(pcs := map[1 := Unwinding(3), 2 := Running, 3 := Embryo])
  }

  lemma CommitOnce() returns (m: State)
    ensures Reaches(MidFork(), [ForkCommit(1)], m) && m == MidFork().(pcs := map[1 := Running, 2 := Running])
  {
    m := MidFork().(pcs := map[1 := Running, 2 := Running]);
    assert FullyShared(MidFork(), 1, 2, None);
    Step(MidFork(), ForkCommit(1), m);
  }

  lemma RefuseOnce(m: State)
    requires m == MidFork().(pcs := map[1 := Running, 2 := Running])
    ensures Reaches(m, [ForkStart(1, 3, None)] + [ForkFail(1)], Refused())
  {
    var n := m.(pcs := map[1 := Forking(3, None), 2 := Running, 3 := Embryo]);
    Step(m, ForkStart(1, 3, None), n);
    Step(n, ForkFail(1), Refused());
    Join(m, [ForkStart(1, 3, None)], n, [ForkFail(1)], Refused());
  }

  lemma SecondFork()
    ensures Reaches(MidFork(), [ForkCommit(1)] + ([ForkStart(1, 3, None)] + [ForkFail(1)]), Refused())
  {
    var m := CommitOnce();
    RefuseOnce(m);
    Join(MidFork(), [ForkCommit(1)], m, [ForkStart(1, 3, None)] + [ForkFail(1)], Refused());
  }

  /** The rollback made the shared page writable for the parent. */
  ghost function Exposed(): (s: State) {
    MidFork().(writable := {Page(1, 0)}, pcs := map[1 := Running, 2 := Running])
  }

  lemma RollBackShared() returns (m: State)
    ensures Reaches(Refused(), [Rollback(1)], m)
    ensures m == Refused().(writable := {Page(1, 0)}, pcs := map[1 := Destroying(3), 2 := Running, 3 := Embryo])
  {
    assert Of(Refused().region, 1) == {Page(1, 0)};
    m := Refused().(writable := {Page(1, 0)}, pcs := map[1 := Destroying(3), 2 := Running, 3 := Embryo]);
    Step(Refused(), Rollback(1), m);
  }

  lemma AbandonShared(m: State)
    requires m == Refused().(writable := {Page(1, 0)}, pcs := map[1 := Destroying(3), 2 := Running, 3 := Embryo])
    ensures Reaches(m, [ForkAbandon(1)], Exposed())
  {
    Step(m, ForkAbandon(1), Exposed());
  }

  lemma WriteLeaks()
    ensures Enabled(Exposed(), Write(Page(1, 0), 7)) && See(Exposed(), Page(2, 0)) == Some(5)
    ensures See(Apply(Exposed(), Write(Page(1, 0), 7)), Page(2, 0)) == Some(7)
  {
  }

  lemma ReachExposed() returns (s: State, events: seq<Event>)
    ensures Initial(s) && Reaches(s, events, Exposed()) && ForkFail(1) in events
  {
    s := FirstPage();
    FirstFork();
    SecondFork();
    var m := RollBackShared();
    AbandonShared(m);
    var one, two := [Spawn(1)] + [MapPage(Page(1, 0), 10, 5, true)], [ForkStart(1, 2, None)] + [ForkShare(Page(1, 0))];
    var three := [ForkCommit(1)] + ([ForkStart(1, 3, None)] + [ForkFail(1)]);
    Join(s, one, OnePage(), two, MidFork());
    Join(s, one + two, MidFork(), three, Refused());
    Join(s, one + two + three, Refused(), [Rollback(1)], m);
    Join(s, one + two + three + [Rollback(1)], m, [ForkAbandon(1)], Exposed());
    events := one + two + three + [Rollback(1)] + [ForkAbandon(1)];
    assert three[2] == ForkFail(1) && events[|one + two| + 2] == ForkFail(1);
  }

  /** After a fork that fails at once, a write of the parent shows up in the child of an earlier fork. */
  lemma FailedForkBreaksIsolation() returns (states: seq<State>, events: seq<Event>)
    ensures Run(states, events) && |events| > 0 && ForkFail(1) in events
    ensures events[|events| - 1] == Write(Page(1, 0), 7)
    ensures See(states[|events| - 1], Page(2, 0)) == Some(5) && See(states[|events|], Page(2, 0)) == Some(7)
  {
    var s;
    s, events := ReachExposed();
    states := Unroll(s, events, Exposed());
    WriteLeaks();
    Grows(states, events, Write(Page(1, 0), 7));
    states := states + [Apply(Exposed(), Write(Page(1, 0), 7))];
    events := events + [Write(Page(1, 0), 7)];
  }

  lemma Grows(states: seq<State>, events: seq<Event>, e: Event)
    requires Run(states, events) && Enabled(states[|events|], e)
    ensures Run(states + [Apply(states[|events|], e)], events + [e])
  {
  }
}
