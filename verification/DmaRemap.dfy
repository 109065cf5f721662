/**
  The cache from physical page to IOVA page kept by the DMA allocator
  (`kernel/src/iommu/dma_remap.rs`), as a state machine over the steps of any number of threads.
  Each lock-protected section is one step: mapping and unmapping take the domain lock, reading and
  updating the cache takes the cache lock, and nothing is held across the two.
 */
module DmaRemap {

  import opened Common
  import opened Slpt
  import opened IovaWindows
  import Domain = IovaDomain

  /**
    Where a thread stands inside a call. `Allocated`: buffer mapped, not yet cached. `Mapped`: a
    page mapped by `virt_to_phys`, not yet cached. `LostRace`: another thread's entry `winner` was
    found, the own window is still to be reclaimed. `Evicting`: window unmapped, entries of its
    `phys` pages still to be dropped.
   */
  datatype Pc =
    | Outside
    | Allocated(base: nat)
    | Mapped(phys: nat, iova: nat)
    | LostRace(phys: nat, iova: nat, winner: nat)
    | Evicting(first: nat, size: nat)

  /** `buffers`: bases of the buffers callers hold. */
  datatype State = State(
    domain: Domain.State,
    cache: map<nat, nat>,
    buffers: set<nat>,
    threads: map<nat, Pc>)

  datatype Event =
    | MapBuffer(t: nat, step: Domain.Event)
    | CacheBuffer(t: nat)
    | MapPage(t: nat, phys: nat, step: Domain.Event)
    | CachePage(t: nat)
    | Reclaim(t: nat)
    | UnmapBuffer(t: nat, base: nat)
    | Evict(t: nat)
    | NoMapping(step: Domain.Event)   // a refused or failed mapping

  /** Cache entries for the pages of one window. */
  function Entries(base: nat, phys: nat, n: nat): map<nat, nat> {
    if n == 0 then map[] else Entries(base, phys, n - 1)[phys + (n - 1) * PAGE := base + (n - 1) * PAGE]
  }

  /** `cache` without the `n` physical pages from `first`. */
  function Without(cache: map<nat, nat>, first: nat, n: nat): map<nat, nat> {
    if n == 0 then cache else Without(cache, first, n - 1) - {first + (n - 1) * PAGE}
  }

  predicate At(s: State, t: nat) {
    t in s.threads
  }

  ghost predicate Next(s: State, e: Event, s': State) {
    match e
    case MapBuffer(t, step) =>
      && At(s, t) && s.threads[t].Outside? && step.Map? && step.phys % PAGE == 0
      && Domain.Next(s.domain, step, s'.domain)
      && s' == s.(domain := s'.domain, threads := s.threads[t := Allocated(step.va)])
    case CacheBuffer(t) =>
      && At(s, t) && s.threads[t].Allocated? && s.threads[t].base in s.domain.live
      && var b := s.threads[t].base;
         s' == s.(cache := s.cache + Entries(b, s.domain.live[b].phys, s.domain.live[b].size / PAGE),
                  buffers := s.buffers + {b},
                  threads := s.threads[t := Outside])
    case MapPage(t, phys, step) =>
      && At(s, t) && s.threads[t].Outside? && phys % PAGE == 0
      && step.Map? && step.phys == phys && step.size == PAGE
      && Domain.Next(s.domain, step, s'.domain)
      && s' == s.(domain := s'.domain, threads := s.threads[t := Mapped(phys, step.va)])
    case CachePage(t) =>
      && At(s, t) && s.threads[t].Mapped?
      && var (phys, iova) := (s.threads[t].phys, s.threads[t].iova);
         s' == if phys !in s.cache then s.(cache := s.cache[phys := iova], threads := s.threads[t := Outside])
               else if s.cache[phys] == iova then s.(threads := s.threads[t := Outside])
               else s.(threads := s.threads[t := LostRace(phys, iova, s.cache[phys])])
    case Reclaim(t) =>
      && At(s, t) && s.threads[t].LostRace? && s.threads[t].iova in s.domain.live
      && s' == s.(domain := Domain.Released(s.domain, s.threads[t].iova), threads := s.threads[t := Outside])
    case UnmapBuffer(t, b) =>
      && At(s, t) && s.threads[t].Outside? && b in s.buffers && b in s.domain.live
      && s' == s.(domain := Domain.Released(s.domain, b),
                  buffers := s.buffers - {b},
                  threads := s.threads[t := Evicting(s.domain.live[b].phys, s.domain.live[b].size)])
    case Evict(t) =>
      && At(s, t) && s.threads[t].Evicting?
      && s' == s.(cache := Without(s.cache, s.threads[t].first, s.threads[t].size / PAGE),
                  threads := s.threads[t := Outside])
    case NoMapping(step) =>
      && (step.Refuse? || step.Fail?) && Domain.Next(s.domain, step, s'.domain) && s' == s.(domain := s'.domain)
  }

  // ── The invariant ──────────────────────────────────────────────────

  /** IOVA page `iova` lies in live window `b` at the offset that is backed by `phys`. */
  predicate BackedIn(live: map<nat, Domain.Mapping>, b: nat, phys: nat, iova: nat) {
    b in live && b <= iova < b + live[b].size && phys == live[b].phys + (iova - b)
  }

  ghost predicate Backed(live: map<nat, Domain.Mapping>, phys: nat, iova: nat) {
    iova % PAGE == 0 && exists b :: BackedIn(live, b, phys, iova)
  }

  /** Thread `t` is about to drop the entry of `phys`. */
  predicate Drops(pc: Pc, phys: nat) {
    pc.Evicting? && pc.first <= phys < pc.first + pc.size
  }

  ghost predicate BeingFreed(s: State, phys: nat) {
    exists t | t in s.threads :: Drops(s.threads[t], phys)
  }

  /** Every entry whose page is not being freed is backed by the page table. */
  ghost predicate CacheAgrees(s: State) {
    forall p | p in s.cache :: Backed(s.domain.live, p, s.cache[p]) || BeingFreed(s, p)
  }

  predicate Holds(pc: Pc, b: nat) {
    (pc.Allocated? && pc.base == b) || ((pc.Mapped? || pc.LostRace?) && pc.iova == b)
  }

  /** A window in the hands of one thread is in no buffer and in no other hands. */
  ghost predicate Exclusive(s: State) {
    && (forall t, b | t in s.threads && Holds(s.threads[t], b) :: b in s.domain.live && b !in s.buffers)
    && (forall t, u, b | t in s.threads && u in s.threads && Holds(s.threads[t], b) && Holds(s.threads[u], b) :: t == u)
    && (forall b | b in s.buffers :: b in s.domain.live)
  }

  ghost predicate InFlight(s: State) {
    forall t | t in s.threads && (s.threads[t].Mapped? || s.threads[t].LostRace?) ::
      var pc := s.threads[t];
      && pc.iova in s.domain.live && s.domain.live[pc.iova] == Domain.Mapping(PAGE, pc.phys)
      && (pc.LostRace? && pc.phys in s.cache && !BeingFreed(s, pc.phys) ==> s.cache[pc.phys] != pc.iova)
  }

  ghost predicate PageAligned(s: State) {
    && (forall b | b in s.domain.live :: s.domain.live[b].phys % PAGE == 0)
    && (forall p | p in s.cache :: p % PAGE == 0)
    && (forall t | t in s.threads && s.threads[t].Evicting? ::
          s.threads[t].first % PAGE == 0 && s.threads[t].size % PAGE == 0)
  }

  ghost predicate Inv(s: State) {
    Domain.Inv(s.domain) && CacheAgrees(s) && Exclusive(s) && InFlight(s) && PageAligned(s)
  }

  /** A backed entry is exactly a translation of the page table. */
  lemma BackedTranslates(d: Domain.State, phys: nat, iova: nat, offset: nat)
    requires Domain.Exact(d.pages, d.live, d.fixed) && Backed(d.live, phys, iova) && offset < PAGE
    ensures Lookup(d.pages, iova + offset) == Some(phys + offset)
  {
    var b :| BackedIn(d.live, b, phys, iova);
    var pg := iova / PAGE;
    assert (iova + offset) / PAGE == pg && (iova + offset) % PAGE == offset;
    assert Domain.InLive(d.live, b, pg);
    assert Domain.IsLive(d.live, pg);
  }

  // ── Every step keeps it ────────────────────────────────────────────

  lemma MapAddsWindow(d: Domain.State, step: Domain.Event, d': Domain.State)
    requires Domain.Inv(d) && step.Map? && Domain.Next(d, step, d')
    ensures Domain.Inv(d') && step.va !in d.live
    ensures d'.live == d.live[step.va := Domain.Mapping(step.size, step.phys)]
    ensures step.size > 0
  {
    Domain.NextKeepsInv(d, step, d');
    Domain.HandedWindow(d, step.size, step.limit, step.va, step.bumped, step.free, step.next);
    Domain.MappedApart(d, step.va, step.size, step.phys);
  }

  lemma BackedGrows(live: map<nat, Domain.Mapping>, va: nat, m: Domain.Mapping, phys: nat, iova: nat)
    requires va !in live && Backed(live, phys, iova)
    ensures Backed(live[va := m], phys, iova)
  {
    var b :| BackedIn(live, b, phys, iova);
    assert BackedIn(live[va := m], b, phys, iova);
  }

  /** Unmapping window `gone` unbacks only entries that point into it, and those belong to its pages. */
  lemma BackedShrinks(live: map<nat, Domain.Mapping>, gone: nat, phys: nat, iova: nat)
    requires gone in live && Backed(live, phys, iova)
    ensures Backed(live - {gone}, phys, iova) || BackedIn(live, gone, phys, iova)
  {
    var b :| BackedIn(live, b, phys, iova);
    if b != gone {
      assert BackedIn(live - {gone}, b, phys, iova);
    }
  }

  /** A step of a thread that neither was nor becomes evicting frees nothing and un-frees nothing. */
  lemma FreedSame(s: State, t: nat, pc: Pc, phys: nat)
    requires t in s.threads && !s.threads[t].Evicting? && !pc.Evicting?
    ensures BeingFreed(s.(threads := s.threads[t := pc]), phys) <==> BeingFreed(s, phys)
  {
    var s' := s.(threads := s.threads[t := pc]);
    if BeingFreed(s, phys) {
      var u :| u in s.threads && Drops(s.threads[u], phys);
      assert u in s'.threads && Drops(s'.threads[u], phys);
    }
    if BeingFreed(s', phys) {
      var u :| u in s'.threads && Drops(s'.threads[u], phys);
      assert u in s.threads && Drops(s.threads[u], phys);
    }
  }

  lemma MappingKeepsInv(s: State, t: nat, step: Domain.Event, pc: Pc, s': State)
    requires Inv(s) && t in s.threads && s.threads[t].Outside? && step.Map? && step.phys % PAGE == 0
    requires Domain.Next(s.domain, step, s'.domain)
    requires pc == Allocated(step.va) || (pc == Mapped(step.phys, step.va) && step.size == PAGE)
    requires s' == s.(domain := s'.domain, threads := s.threads[t := pc])
    ensures Inv(s')
  {
    MapAddsWindow(s.domain, step, s'.domain);
    forall p: nat
      ensures BeingFreed(s', p) <==> BeingFreed(s, p)
    {
      FreedSame(s, t, pc, p);
    }
    forall p | p in s.cache && Backed(s.domain.live, p, s.cache[p])
      ensures Backed(s'.domain.live, p, s.cache[p])
    {
      BackedGrows(s.domain.live, step.va, Domain.Mapping(step.size, step.phys), p, s.cache[p]);
    }
  }

  lemma {:induction false} EntriesAt(base: nat, phys: nat, n: nat, p: nat)
    ensures p in Entries(base, phys, n) <==> phys <= p < phys + n * PAGE && (p - phys) % PAGE == 0
    ensures p in Entries(base, phys, n) ==> Entries(base, phys, n)[p] == base + (p - phys)
  {
    if n > 0 {
      EntriesAt(base, phys, n - 1, p);
    }
  }

  lemma {:induction false} WithoutAt(cache: map<nat, nat>, first: nat, n: nat, p: nat)
    ensures p in Without(cache, first, n)
            <==> p in cache && !(first <= p < first + n * PAGE && (p - first) % PAGE == 0)
    ensures p in Without(cache, first, n) ==> Without(cache, first, n)[p] == cache[p]
  {
    if n > 0 {
      WithoutAt(cache, first, n - 1, p);
    }
  }

  /** What the cache holds for `p` once the pages of window `b` are entered. */
  lemma CachedBuffer(s: State, b: nat, p: nat)
    requires Domain.Inv(s.domain) && PageAligned(s) && b in s.domain.live
    ensures var m := s.domain.live[b];
            var cache := s.cache + Entries(b, m.phys, m.size / PAGE);
            p in cache ==>
              && p % PAGE == 0
              && ((p in s.cache && cache[p] == s.cache[p])
                  || (b <= cache[p] < b + m.size && Backed(s.domain.live, p, cache[p])))
  {
    var m := s.domain.live[b];
    assert Domain.LiveWindow(s.domain.live, b).Proper();
    EntriesAt(b, m.phys, m.size / PAGE, p);
    if p in Entries(b, m.phys, m.size / PAGE) {
      assert BackedIn(s.domain.live, b, p, b + (p - m.phys));
    }
  }

  lemma CacheBufferKeepsInv(s: State, t: nat, s': State)
    requires Inv(s) && Next(s, CacheBuffer(t), s')
    ensures Inv(s')
  {
    var b := s.threads[t].base;
    forall p: nat
      ensures BeingFreed(s', p) <==> BeingFreed(s, p)
      ensures p in s'.cache ==> p % PAGE == 0 && (Backed(s.domain.live, p, s'.cache[p]) || BeingFreed(s, p))
    {
      FreedSame(s, t, Outside, p);
      CachedBuffer(s, b, p);
    }
    forall u | u in s'.threads && s'.threads[u].LostRace?
      ensures s'.threads[u].phys in s'.cache && !BeingFreed(s', s'.threads[u].phys) ==>
                s'.cache[s'.threads[u].phys] != s'.threads[u].iova
    {
      var pc := s.threads[u];
      CachedBuffer(s, b, pc.phys);
      assert Holds(pc, pc.iova) && Holds(s.threads[t], b);
      assert Domain.LiveWindow(s.domain.live, b).Apart(Domain.LiveWindow(s.domain.live, pc.iova));
    }
  }

  lemma CachePageOwners(s: State, t: nat, s': State)
    requires Exclusive(s) && InFlight(s) && Next(s, CachePage(t), s')
    requires forall p: nat :: BeingFreed(s', p) <==> BeingFreed(s, p)
    ensures Exclusive(s') && InFlight(s')
  {
    var pc := s.threads[t];
    assert Holds(pc, pc.iova);
    forall u | u in s'.threads && u != t && s'.threads[u].LostRace?
      ensures s'.threads[u].iova != pc.iova
    {
      assert Holds(s.threads[u], s.threads[u].iova);
    }
  }

  lemma CachePageAgrees(s: State, t: nat, s': State)
    requires CacheAgrees(s) && InFlight(s) && Domain.LiveWell(s.domain) && Next(s, CachePage(t), s')
    requires forall p: nat :: BeingFreed(s', p) <==> BeingFreed(s, p)
    ensures CacheAgrees(s')
  {
    var pc := s.threads[t];
    assert Domain.LiveWindow(s.domain.live, pc.iova).Proper();
    assert BackedIn(s.domain.live, pc.iova, pc.phys, pc.iova);
  }

  lemma CachePageKeepsInv(s: State, t: nat, s': State)
    requires Inv(s) && Next(s, CachePage(t), s')
    ensures Inv(s')
  {
    forall p: nat
      ensures BeingFreed(s', p) <==> BeingFreed(s, p)
    {
      FreedSame(s, t, s'.threads[t], p);
    }
    CachePageOwners(s, t, s');
    CachePageAgrees(s, t, s');
    var pc := s.threads[t];
    assert Domain.LiveWindow(s.domain.live, pc.iova).Proper();
    assert PageAligned(s');
  }

  lemma ReclaimOwners(s: State, t: nat, s': State)
    requires Exclusive(s) && InFlight(s) && Next(s, Reclaim(t), s')
    requires forall p :: BeingFreed(s, p) ==> BeingFreed(s', p)
    ensures Exclusive(s') && InFlight(s')
  {
    var pc := s.threads[t];
    assert Holds(pc, pc.iova);
    assert forall u, c | u in s.threads && u != t && Holds(s.threads[u], c) :: c != pc.iova;
    forall u | u in s'.threads && (s'.threads[u].Mapped? || s'.threads[u].LostRace?)
      ensures s'.threads[u].iova != pc.iova
    {
      assert Holds(s.threads[u], s.threads[u].iova);
    }
  }

  lemma ReclaimKeepsInv(s: State, t: nat, s': State)
    requires Inv(s) && Next(s, Reclaim(t), s')
    ensures Inv(s')
  {
    var pc := s.threads[t];
    Domain.ReleaseKeepsInv(s.domain, pc.iova);
    forall p: nat
      ensures BeingFreed(s', p) <==> BeingFreed(s, p)
    {
      FreedSame(s, t, Outside, p);
    }
    forall p | p in s.cache && !BeingFreed(s, p)
      ensures Backed(s'.domain.live, p, s.cache[p])
    {
      BackedShrinks(s.domain.live, pc.iova, p, s.cache[p]);
      NotReclaimed(s, t, p);
    }
    ReclaimOwners(s, t, s');
  }

  /** A window being reclaimed backs no entry. */
  lemma NotReclaimed(s: State, t: nat, p: nat)
    requires Inv(s) && t in s.threads && s.threads[t].LostRace? && p in s.cache && !BeingFreed(s, p)
    ensures !BackedIn(s.domain.live, s.threads[t].iova, p, s.cache[p])
  {
    var pc := s.threads[t];
    assert Domain.LiveWindow(s.domain.live, pc.iova).Proper();
    assert Backed(s.domain.live, p, s.cache[p]);
    SameAlignedPage(pc.iova, s.cache[p]);
  }

  lemma SameAlignedPage(a: nat, b: nat)
    requires a % PAGE == 0 && b % PAGE == 0
    ensures a <= b < a + PAGE ==> a == b
  {
  }

  /** A buffer's entries all belong to the pages its owner is about to drop. */
  lemma UnmappedEntries(s: State, t: nat, b: nat, s': State, p: nat)
    requires Inv(s) && Next(s, UnmapBuffer(t, b), s')
    ensures BeingFreed(s, p) ==> BeingFreed(s', p)
    ensures p in s.cache ==> Backed(s'.domain.live, p, s.cache[p]) || BeingFreed(s', p)
  {
    if BeingFreed(s, p) {
      var u :| u in s.threads && Drops(s.threads[u], p);
      assert u in s'.threads && Drops(s'.threads[u], p);
    } else if p in s.cache {
      BackedShrinks(s.domain.live, b, p, s.cache[p]);
      if BackedIn(s.domain.live, b, p, s.cache[p]) {
        assert t in s'.threads && Drops(s'.threads[t], p);
      }
    }
  }

  lemma UnmapBufferOwners(s: State, t: nat, b: nat, s': State)
    requires Exclusive(s) && InFlight(s) && Next(s, UnmapBuffer(t, b), s')
    requires forall p :: BeingFreed(s, p) ==> BeingFreed(s', p)
    ensures Exclusive(s') && InFlight(s')
  {
    assert forall u, c | u in s.threads && Holds(s.threads[u], c) :: c != b;
    forall u | u in s'.threads && (s'.threads[u].Mapped? || s'.threads[u].LostRace?)
      ensures s'.threads[u].iova != b
    {
      assert Holds(s.threads[u], s.threads[u].iova);
    }
  }

  lemma UnmapBufferKeepsInv(s: State, t: nat, b: nat, s': State)
    requires Inv(s) && Next(s, UnmapBuffer(t, b), s')
    ensures Inv(s')
  {
    Domain.ReleaseKeepsInv(s.domain, b);
    assert Domain.LiveWindow(s.domain.live, b).Proper();
    forall p: nat
      ensures BeingFreed(s, p) ==> BeingFreed(s', p)
      ensures p in s.cache ==> Backed(s'.domain.live, p, s.cache[p]) || BeingFreed(s', p)
    {
      UnmappedEntries(s, t, b, s', p);
    }
    UnmapBufferOwners(s, t, b, s');
  }

  lemma EvictedFree(s: State, t: nat, s': State, p: nat)
    requires Inv(s) && Next(s, Evict(t), s')
    ensures BeingFreed(s', p) ==> BeingFreed(s, p)
    ensures p in s'.cache ==> p in s.cache && s'.cache[p] == s.cache[p] && (BeingFreed(s, p) ==> BeingFreed(s', p))
  {
    var pc := s.threads[t];
    WithoutAt(s.cache, pc.first, pc.size / PAGE, p);
    if BeingFreed(s', p) {
      var u :| u in s'.threads && Drops(s'.threads[u], p);
      assert u in s.threads && Drops(s.threads[u], p);
    }
    if p in s'.cache && BeingFreed(s, p) {
      var u :| u in s.threads && Drops(s.threads[u], p);
      assert u != t;
      assert u in s'.threads && Drops(s'.threads[u], p);
    }
  }

  lemma EvictKeepsInv(s: State, t: nat, s': State)
    requires Inv(s) && Next(s, Evict(t), s')
    ensures Inv(s')
  {
    forall p: nat
      ensures BeingFreed(s', p) ==> BeingFreed(s, p)
      ensures p in s'.cache ==> p in s.cache && s'.cache[p] == s.cache[p] && (BeingFreed(s, p) ==> BeingFreed(s', p))
    {
      EvictedFree(s, t, s', p);
    }
  }

  lemma NoMappingKeepsInv(s: State, step: Domain.Event, s': State)
    requires Inv(s) && Next(s, NoMapping(step), s')
    ensures Inv(s')
  {
    Domain.NextKeepsInv(s.domain, step, s'.domain);
    forall p: nat
      ensures BeingFreed(s', p) <==> BeingFreed(s, p)
    {
      assert s'.threads == s.threads;
    }
  }

  lemma NextKeepsInv(s: State, e: Event, s': State)
    requires Inv(s) && Next(s, e, s')
    ensures Inv(s')
  {
    match e
    case MapBuffer(t, step) => MappingKeepsInv(s, t, step, Allocated(step.va), s');
    case CacheBuffer(t) => CacheBufferKeepsInv(s, t, s');
    case MapPage(t, phys, step) => MappingKeepsInv(s, t, step, Mapped(phys, step.va), s');
    case CachePage(t) => CachePageKeepsInv(s, t, s');
    case Reclaim(t) => ReclaimKeepsInv(s, t, s');
    case UnmapBuffer(t, b) => UnmapBufferKeepsInv(s, t, b, s');
    case Evict(t) => EvictKeepsInv(s, t, s');
    case NoMapping(step) => NoMappingKeepsInv(s, step, s');
  }

  // ── Runs ───────────────────────────────────────────────────────────

  ghost predicate Initial(s: State) {
    && Domain.Inv(s.domain) && s.domain.live == map[] && s.cache == map[] && s.buffers == {}
    && forall t | t in s.threads :: s.threads[t].Outside?
  }

  ghost predicate StepAt(states: seq<State>, events: seq<Event>, i: nat)
    requires i < |events| && i + 1 < |states|
  {
    Next(states[i], events[i], states[i + 1])
  }

  ghost predicate Run(states: seq<State>, events: seq<Event>) {
    && |states| == |events| + 1
    && Initial(states[0])
    && forall i {:trigger StepAt(states, events, i)} | 0 <= i < |events| :: StepAt(states, events, i)
  }

  lemma {:induction false} RunKeepsInv(states: seq<State>, events: seq<Event>, i: nat)
    requires Run(states, events) && i < |states|
    ensures Inv(states[i])
  {
    if i > 0 {
      RunKeepsInv(states, events, i - 1);
      assert StepAt(states, events, i - 1);
      NextKeepsInv(states[i - 1], events[i - 1], states[i]);
    }
  }

  /**
    What `virt_to_phys` answers for the byte at `offset` of physical page `phys`: the address itself
    when the page table maps the page to itself, otherwise the cached page. A fresh mapping and a
    lost race both end with the entry in the cache.
   */
  ghost predicate Answers(s: State, phys: nat, offset: nat, address: nat) {
    || (Lookup(s.domain.pages, phys) == Some(phys) && address == phys + offset)
    || (phys in s.cache && address == s.cache[phys] + offset)
  }

  lemma IdentityTranslates(pages: map<nat, nat>, phys: nat, offset: nat)
    requires phys % PAGE == 0 && offset < PAGE && Lookup(pages, phys) == Some(phys)
    ensures Lookup(pages, phys + offset) == Some(phys + offset)
  {
    assert (phys + offset) / PAGE == phys / PAGE && (phys + offset) % PAGE == offset;
  }

  lemma CachedBacked(s: State, phys: nat)
    requires CacheAgrees(s) && phys in s.cache && !BeingFreed(s, phys)
    ensures Backed(s.domain.live, phys, s.cache[phys])
  {
  }

  lemma AnswerTranslates(s: State, phys: nat, offset: nat, address: nat)
    requires Domain.Exact(s.domain.pages, s.domain.live, s.domain.fixed) && phys % PAGE == 0 && offset < PAGE
    requires (phys in s.cache ==> Backed(s.domain.live, phys, s.cache[phys])) && Answers(s, phys, offset, address)
    ensures Lookup(s.domain.pages, address) == Some(phys + offset)
  {
    if phys in s.cache && address == s.cache[phys] + offset {
      BackedTranslates(s.domain, phys, s.cache[phys], offset);
    } else {
      IdentityTranslates(s.domain.pages, phys, offset);
    }
  }

  /**
    At every point of every run, for every page no thread is freeing, the address `virt_to_phys`
    answers is one the page table translates to the physical address behind the pointer.
   */
  lemma VirtToPhysTranslates(states: seq<State>, events: seq<Event>, i: nat, phys: nat, offset: nat, address: nat)
    requires Run(states, events) && i < |states| && phys % PAGE == 0 && offset < PAGE
    requires !BeingFreed(states[i], phys) && Answers(states[i], phys, offset, address)
    ensures Lookup(states[i].domain.pages, address) == Some(phys + offset)
  {
    RunKeepsInv(states, events, i);
    if phys in states[i].cache {
      CachedBacked(states[i], phys);
    }
    AnswerTranslates(states[i], phys, offset, address);
  }

  // ── An answer stays good ───────────────────────────────────────────

  /** No thread in the middle of a call has this window to itself. */
  ghost predicate Unheld(s: State, b: nat) {
    forall t | t in s.threads :: !Holds(s.threads[t], b)
  }

  /** Window `b` backs `phys` at `iova` and is out of the hands of the calls that may still give it back. */
  ghost predicate Anchored(s: State, b: nat, phys: nat, iova: nat) {
    BackedIn(s.domain.live, b, phys, iova) && Unheld(s, b)
  }

  ghost predicate Settled(s: State, phys: nat, iova: nat) {
    iova % PAGE == 0 && exists b :: Anchored(s, b, phys, iova)
  }

  ghost predicate AllSettled(s: State) {
    forall p | p in s.cache :: Settled(s, p, s.cache[p]) || BeingFreed(s, p)
  }

  /** The step unmaps a buffer one of whose pages is `phys`. */
  ghost predicate Frees(s: State, e: Event, phys: nat) {
    && e.UnmapBuffer? && e.base in s.domain.live
    && s.domain.live[e.base].phys <= phys < s.domain.live[e.base].phys + s.domain.live[e.base].size
  }

  ghost predicate NeverFreed(states: seq<State>, events: seq<Event>, i: nat, j: nat, phys: nat)
    requires i <= j <= |events| && j < |states|
  {
    forall k {:trigger Frees(states[k], events[k], phys)} | i <= k < j :: !Frees(states[k], events[k], phys)
  }

  /** What one thread does to its own hands leaves a window unheld, if it takes no hold of it. */
  lemma StillUnheld(s: State, t: nat, pc: Pc, s': State, b: nat)
    requires Unheld(s, b) && !Holds(pc, b) && s'.threads == s.threads[t := pc]
    ensures Unheld(s', b)
  {
  }

  lemma AnchorStaysMapping(s: State, t: nat, step: Domain.Event, pc: Pc, s': State, b: nat)
    requires Domain.Inv(s.domain) && step.Map? && Domain.Next(s.domain, step, s'.domain)
    requires pc == Allocated(step.va) || pc == Mapped(step.phys, step.va)
    requires s'.threads == s.threads[t := pc] && b in s.domain.live && Unheld(s, b)
    ensures b in s'.domain.live && s'.domain.live[b] == s.domain.live[b] && Unheld(s', b)
  {
    MapAddsWindow(s.domain, step, s'.domain);
    StillUnheld(s, t, pc, s', b);
  }

  lemma AnchorStaysCached(s: State, e: Event, s': State, b: nat)
    requires Next(s, e, s') && (e.CacheBuffer? || e.CachePage? || e.Evict? || e.NoMapping?)
    requires b in s.domain.live && Unheld(s, b)
    ensures b in s'.domain.live && s'.domain.live[b] == s.domain.live[b] && Unheld(s', b)
  {
    if e.NoMapping? {
      assert s'.threads == s.threads;
    } else {
      assert !Holds(s.threads[e.t], b);
      StillUnheld(s, e.t, s'.threads[e.t], s', b);
    }
  }

  /** A window nobody holds survives every step but the unmapping of it as a buffer. */
  lemma AnchorStays(s: State, e: Event, s': State, b: nat)
    requires Inv(s) && Next(s, e, s') && b in s.domain.live && Unheld(s, b) && !(e.UnmapBuffer? && e.base == b)
    ensures b in s'.domain.live && s'.domain.live[b] == s.domain.live[b] && Unheld(s', b)
  {
    if e.MapBuffer? || e.MapPage? {
      AnchorStaysMapping(s, e.t, e.step, s'.threads[e.t], s', b);
    } else if e.Reclaim? {
      assert Holds(s.threads[e.t], s.threads[e.t].iova);
      StillUnheld(s, e.t, Outside, s', b);
    } else if e.UnmapBuffer? {
      StillUnheld(s, e.t, s'.threads[e.t], s', b);
    } else {
      AnchorStaysCached(s, e, s', b);
    }
  }

  lemma SettledStays(s: State, e: Event, s': State, p: nat, iova: nat)
    requires Inv(s) && Next(s, e, s') && Settled(s, p, iova) && !Frees(s, e, p)
    ensures Settled(s', p, iova)
  {
    var b :| Anchored(s, b, p, iova);
    AnchorStays(s, e, s', b);
    assert Anchored(s', b, p, iova);
  }

  /** The window a thread was holding becomes settled when the thread enters it in the cache. */
  lemma EnteredSettled(s: State, t: nat, s': State, b: nat, p: nat, iova: nat)
    requires Exclusive(s) && t in s.threads && Holds(s.threads[t], b) && s'.threads == s.threads[t := Outside]
    requires iova % PAGE == 0 && BackedIn(s.domain.live, b, p, iova) && s'.domain == s.domain
    ensures Settled(s', p, iova)
  {
    forall u | u in s'.threads ensures !Holds(s'.threads[u], b) {
      assert u in s.threads;
    }
    assert Anchored(s', b, p, iova);
  }

  lemma CacheBufferSettled(s: State, t: nat, s': State, p: nat)
    requires Inv(s) && AllSettled(s) && Next(s, CacheBuffer(t), s') && p in s'.cache
    ensures Settled(s', p, s'.cache[p]) || BeingFreed(s', p)
  {
    var b := s.threads[t].base;
    var m := s.domain.live[b];
    assert Domain.LiveWindow(s.domain.live, b).Proper();
    FreedSame(s, t, Outside, p);
    EntriesAt(b, m.phys, m.size / PAGE, p);
    if p in Entries(b, m.phys, m.size / PAGE) {
      AlignedEntry(b, m.phys, p);
      EnteredSettled(s, t, s', b, p, b + (p - m.phys));
    } else if !BeingFreed(s, p) {
      SettledStays(s, CacheBuffer(t), s', p, s.cache[p]);
    }
  }

  lemma AlignedEntry(b: nat, phys: nat, p: nat)
    requires b % PAGE == 0 && phys <= p && (p - phys) % PAGE == 0
    ensures (b + (p - phys)) % PAGE == 0
  {
  }

  lemma CachePageSettled(s: State, t: nat, s': State, p: nat)
    requires Inv(s) && AllSettled(s) && Next(s, CachePage(t), s') && p in s'.cache
    ensures Settled(s', p, s'.cache[p]) || BeingFreed(s', p)
  {
    var pc := s.threads[t];
    FreedSame(s, t, s'.threads[t], p);
    if p in s.cache {
      if !BeingFreed(s, p) {
        SettledStays(s, CachePage(t), s', p, s.cache[p]);
      }
    } else {
      assert Domain.LiveWindow(s.domain.live, pc.iova).Proper();
      EnteredSettled(s, t, s', pc.iova, p, pc.iova);
    }
  }

  lemma OtherSettled(s: State, e: Event, s': State, p: nat)
    requires Inv(s) && AllSettled(s) && Next(s, e, s') && !e.CacheBuffer? && !e.CachePage? && !e.Evict? && p in s'.cache
    ensures Settled(s', p, s'.cache[p]) || BeingFreed(s', p)
  {
    if BeingFreed(s, p) {
      var u :| u in s.threads && Drops(s.threads[u], p);
      assert u in s'.threads && Drops(s'.threads[u], p);
    } else if Frees(s, e, p) {
      assert e.t in s'.threads && Drops(s'.threads[e.t], p);
    } else {
      SettledStays(s, e, s', p, s.cache[p]);
    }
  }

  lemma EvictSettled(s: State, t: nat, s': State, p: nat)
    requires Inv(s) && AllSettled(s) && Next(s, Evict(t), s') && p in s'.cache
    ensures Settled(s', p, s'.cache[p]) || BeingFreed(s', p)
  {
    EvictedFree(s, t, s', p);
    if !BeingFreed(s, p) {
      SettledStays(s, Evict(t), s', p, s.cache[p]);
    }
  }

  lemma NextKeepsSettled(s: State, e: Event, s': State)
    requires Inv(s) && AllSettled(s) && Next(s, e, s')
    ensures AllSettled(s')
  {
    forall p | p in s'.cache ensures Settled(s', p, s'.cache[p]) || BeingFreed(s', p) {
      if e.CacheBuffer? {
        CacheBufferSettled(s, e.t, s', p);
      } else if e.CachePage? {
        CachePageSettled(s, e.t, s', p);
      } else if e.Evict? {
        EvictSettled(s, e.t, s', p);
      } else {
        OtherSettled(s, e, s', p);
      }
    }
  }

  /** In every run the window behind a cached entry is in no thread's hands, unless its page is being freed. */
  lemma {:induction false} RunKeepsSettled(states: seq<State>, events: seq<Event>, i: nat)
    requires Run(states, events) && i < |states|
    ensures AllSettled(states[i])
  {
    if i > 0 {
      RunKeepsSettled(states, events, i - 1);
      RunKeepsInv(states, events, i - 1);
      assert StepAt(states, events, i - 1);
      NextKeepsSettled(states[i - 1], events[i - 1], states[i]);
    }
  }

  lemma {:induction false} SettledAlong(states: seq<State>, events: seq<Event>, i: nat, j: nat, p: nat, iova: nat)
    requires Run(states, events) && i <= j < |states| && Settled(states[i], p, iova)
    requires NeverFreed(states, events, i, j, p)
    ensures Settled(states[j], p, iova)
  {
    if i < j {
      assert !Frees(states[j - 1], events[j - 1], p);
      SettledAlong(states, events, i, j - 1, p, iova);
      RunKeepsInv(states, events, j - 1);
      assert StepAt(states, events, j - 1);
      SettledStays(states[j - 1], events[j - 1], states[j], p, iova);
    }
  }

  lemma CachedSettled(states: seq<State>, events: seq<Event>, i: nat, p: nat)
    requires Run(states, events) && i < |states| && p in states[i].cache && !BeingFreed(states[i], p)
    ensures Settled(states[i], p, states[i].cache[p])
  {
    RunKeepsSettled(states, events, i);
  }

  lemma SettledTranslates(states: seq<State>, events: seq<Event>, i: nat, p: nat, iova: nat, offset: nat)
    requires Run(states, events) && i < |states| && Settled(states[i], p, iova) && offset < PAGE
    ensures Lookup(states[i].domain.pages, iova + offset) == Some(p + offset)
  {
    RunKeepsInv(states, events, i);
    var b :| Anchored(states[i], b, p, iova);
    assert Backed(states[i].domain.live, p, iova);
    BackedTranslates(states[i].domain, p, iova, offset);
  }

  /**
    In every run the address answered from the cache keeps translating to the same physical byte, at
    every later point, until a buffer that holds its page is unmapped.
   */
  lemma AnswerKeepsTranslating(states: seq<State>, events: seq<Event>, i: nat, j: nat, p: nat, offset: nat)
    requires Run(states, events) && i <= j < |states| && offset < PAGE
    requires p in states[i].cache && !BeingFreed(states[i], p)
    requires NeverFreed(states, events, i, j, p)
    ensures Lookup(states[j].domain.pages, states[i].cache[p] + offset) == Some(p + offset)
  {
    CachedSettled(states, events, i, p);
    SettledAlong(states, events, i, j, p, states[i].cache[p]);
    SettledTranslates(states, events, j, p, states[i].cache[p], offset);
  }

  /** The same for the answer of a thread that lost the race: it answers with the winner's address. */
  lemma LoserKeepsTranslating(states: seq<State>, events: seq<Event>, i: nat, j: nat, t: nat, offset: nat)
    requires Run(states, events) && i < j < |states| && offset < PAGE && events[i] == CachePage(t)
    requires StepAt(states, events, i)
    requires states[i + 1].threads[t].LostRace? && !BeingFreed(states[i], states[i].threads[t].phys)
    requires NeverFreed(states, events, i, j, states[i].threads[t].phys)
    ensures var pc := states[i + 1].threads[t];
            Lookup(states[j].domain.pages, pc.winner + offset) == Some(pc.phys + offset)
  {
    AnswerKeepsTranslating(states, events, i, j, states[i].threads[t].phys, offset);
  }

  /** The same for a page the domain maps to itself from the start; it never ends. */
  lemma IdentityKeepsTranslating(states: seq<State>, events: seq<Event>, i: nat, p: nat, offset: nat)
    requires Run(states, events) && i < |states| && p % PAGE == 0 && offset < PAGE && p / PAGE in states[0].domain.fixed
    ensures Lookup(states[i].domain.pages, p + offset) == Some(p + offset)
  {
    RunKeepsInv(states, events, i);
    SameFixed(states, events, i);
    assert (p + offset) / PAGE == p / PAGE && p / PAGE in states[i].domain.pages;
  }

  lemma FixedStays(s: State, e: Event, s': State)
    requires Inv(s) && Next(s, e, s')
    ensures s'.domain.fixed == s.domain.fixed
  {
    if e.MapBuffer? || e.MapPage? || e.NoMapping? {
      Domain.NextKeepsInv(s.domain, e.step, s'.domain);
    }
  }

  lemma {:induction false} SameFixed(states: seq<State>, events: seq<Event>, i: nat)
    requires Run(states, events) && i < |states|
    ensures states[i].domain.fixed == states[0].domain.fixed
  {
    if i > 0 {
      SameFixed(states, events, i - 1);
      RunKeepsInv(states, events, i - 1);
      assert StepAt(states, events, i - 1);
      FixedStays(states[i - 1], events[i - 1], states[i]);
    }
  }

  // ── A window with the address of its frame ─────────────────────────

  /** The identity test passes for a fixed page, or inside a window that has the address of its memory. */
  lemma OwnAddress(d: Domain.State, p: nat)
    requires Domain.Inv(d) && p % PAGE == 0 && Lookup(d.pages, p) == Some(p) && p / PAGE !in d.fixed
    ensures exists b :: BackedIn(d.live, b, p, p)
  {
    Domain.LeadsEverywhere(d, p);
    var b :| Domain.HoldsAddress(d.live, b, p);
    assert BackedIn(d.live, b, p, p);
  }

  lemma OwnWindow(d: Domain.State, b: nat, p: nat)
    requires Domain.Inv(d) && p % PAGE == 0 && BackedIn(d.live, b, p, p)
    ensures Lookup(d.pages, p) == Some(p)
  {
    assert Backed(d.live, p, p);
    BackedTranslates(d, p, p, 0);
  }

  lemma FixedTranslates(d: Domain.State, p: nat)
    requires Domain.Inv(d) && p % PAGE == 0 && p / PAGE in d.fixed
    ensures Lookup(d.pages, p) == Some(p)
  {
    Domain.LeadsEverywhere(d, p);
  }

  /** Which step takes a live window away. */
  lemma WindowStays(s: State, e: Event, s': State, b: nat)
    requires Inv(s) && Next(s, e, s') && b in s.domain.live
    requires !(e.UnmapBuffer? && e.base == b) && !(e.Reclaim? && s.threads[e.t].iova == b)
    ensures b in s'.domain.live && s'.domain.live[b] == s.domain.live[b]
  {
    if e.MapBuffer? || e.MapPage? {
      MapAddsWindow(s.domain, e.step, s'.domain);
    }
  }

  /** The step gives back, after a lost race, the window at this address. */
  ghost predicate GivesBack(s: State, e: Event, p: nat) {
    e.Reclaim? && e.t in s.threads && s.threads[e.t].LostRace? && s.threads[e.t].iova == p
  }

  lemma GivenBack(s: State, e: Event, s': State, p: nat)
    requires Inv(s) && Next(s, e, s') && GivesBack(s, e, p)
    ensures Lookup(s'.domain.pages, p) == None
  {
    assert Domain.LiveWindow(s.domain.live, p).Proper();
    Domain.ReleasedPage(s.domain, p, p / PAGE);
  }

  lemma GivenBackNext(states: seq<State>, events: seq<Event>, e: Event, t: State, p: nat)
    requires Run(states, events) && Next(states[|events|], e, t) && GivesBack(states[|events|], e, p)
    ensures Lookup(t.domain.pages, p) == None
  {
    RunKeepsInv(states, events, |events|);
    GivenBack(states[|events|], e, t, p);
  }

  /** A page that passed the identity test fails it after a step exactly when that step gives its window back. */
  lemma StepKeepsIdentity(s: State, e: Event, s': State, p: nat)
    requires Inv(s) && Next(s, e, s') && p % PAGE == 0 && Lookup(s.domain.pages, p) == Some(p) && !Frees(s, e, p)
    ensures Lookup(s'.domain.pages, p) == Some(p) <==> !GivesBack(s, e, p)
  {
    NextKeepsInv(s, e, s');
    if GivesBack(s, e, p) {
      GivenBack(s, e, s', p);
    } else if p / PAGE in s.domain.fixed {
      FixedStays(s, e, s');
      FixedTranslates(s'.domain, p);
    } else {
      OwnAddress(s.domain, p);
      var b :| BackedIn(s.domain.live, b, p, p);
      StillOwn(s, e, s', b, p);
    }
  }

  lemma StillOwn(s: State, e: Event, s': State, b: nat, p: nat)
    requires Inv(s) && Inv(s') && Next(s, e, s') && p % PAGE == 0 && BackedIn(s.domain.live, b, p, p)
    requires !Frees(s, e, p) && !GivesBack(s, e, p)
    ensures Lookup(s'.domain.pages, p) == Some(p)
  {
    if e.Reclaim? && s.threads[e.t].iova == b {
      assert Domain.LiveWindow(s.domain.live, b).Proper();
      SameAlignedPage(b, p);
      assert false;
    }
    WindowStays(s, e, s', b);
    OwnWindow(s'.domain, b, p);
  }

  /** The identity test passes. */
  predicate Own(s: State, p: nat) {
    Lookup(s.domain.pages, p) == Some(p)
  }

  ghost predicate OwnAllAlong(states: seq<State>, i: nat, j: nat, p: nat)
    requires i <= j < |states|
  {
    forall k | i <= k <= j :: Own(states[k], p)
  }

  ghost predicate NeverGivenBack(states: seq<State>, events: seq<Event>, i: nat, j: nat, p: nat)
    requires i <= j <= |events| && j < |states|
  {
    forall k {:trigger GivesBack(states[k], events[k], p)} | i <= k < j :: !GivesBack(states[k], events[k], p)
  }

  lemma RunStepKeepsIdentity(states: seq<State>, events: seq<Event>, i: nat, p: nat)
    requires Run(states, events) && i < |events| && p % PAGE == 0
    requires Own(states[i], p) && !Frees(states[i], events[i], p)
    ensures Own(states[i + 1], p) <==> !GivesBack(states[i], events[i], p)
  {
    RunKeepsInv(states, events, i);
    assert StepAt(states, events, i);
    StepKeepsIdentity(states[i], events[i], states[i + 1], p);
  }

  /**
    In every run an answer of the identity test keeps translating, until a buffer that holds its page is
    unmapped, exactly when no thread that lost a race gives back a window at that address.
   */
  lemma {:induction false} IdentityAnswerKeeps(states: seq<State>, events: seq<Event>, i: nat, j: nat, p: nat)
    requires Run(states, events) && i <= j < |states| && p % PAGE == 0
    requires Own(states[i], p) && NeverFreed(states, events, i, j, p)
    ensures OwnAllAlong(states, i, j, p) <==> NeverGivenBack(states, events, i, j, p)
  {
    if i < j {
      assert !Frees(states[j - 1], events[j - 1], p);
      IdentityAnswerKeeps(states, events, i, j - 1, p);
      assert OwnAllAlong(states, i, j, p) <==> OwnAllAlong(states, i, j - 1, p) && Own(states[j], p);
      assert NeverGivenBack(states, events, i, j, p) <==>
             NeverGivenBack(states, events, i, j - 1, p) && !GivesBack(states[j - 1], events[j - 1], p);
      if OwnAllAlong(states, i, j - 1, p) {
        RunStepKeepsIdentity(states, events, j - 1, p);
      }
    }
  }

  // ── A run in which such an answer dies ─────────────────────────────

  ghost function FreshDomain(): (d: Domain.State) {
    Domain.State(0x80_0000_0000, PAGE, [], map[], map[], [], {})
  }

  ghost function OneWindow(): (d: Domain.State) {
    Domain.State(0x80_0000_0000, 2 * PAGE, [], map[1 := 2 * PAGE], map[PAGE := Domain.Mapping(PAGE, 2 * PAGE)], [], {})
  }

  ghost function TwoWindows(): (d: Domain.State) {
    Domain.State(0x80_0000_0000, 3 * PAGE, [], map[1 := 2 * PAGE, 2 := 2 * PAGE],
                 map[PAGE := Domain.Mapping(PAGE, 2 * PAGE), 2 * PAGE := Domain.Mapping(PAGE, 2 * PAGE)], [], {})
  }

  /** The cursor hands out page `va`, for physical page 2. */
  function MapNextPage(va: nat): (e: Domain.Event) {
    Domain.Map(PAGE, 0x80_0000_0000, va, true, [], va + PAGE, 2 * PAGE)
  }

  lemma FirstWindow()
    ensures Domain.Inv(FreshDomain()) && Domain.Next(FreshDomain(), MapNextPage(PAGE), OneWindow())
  {
    assert Extend(map[], 1, 2 * PAGE, 1) == map[1 := 2 * PAGE];
  }

  lemma SecondWindow()
    ensures Domain.Next(OneWindow(), MapNextPage(2 * PAGE), TwoWindows())
  {
    assert Extend(map[1 := 2 * PAGE], 2, 2 * PAGE, 1) == map[1 := 2 * PAGE, 2 := 2 * PAGE];
  }

  /** Two threads map the same physical page before either has cached it. */
  lemma BothMapped() returns (states: seq<State>, events: seq<Event>)
    ensures Run(states, events) && |events| == 2 && (forall e | e in events :: !e.UnmapBuffer?)
    ensures states[2].domain == TwoWindows() && states[2].cache == map[] && states[2].buffers == {}
    ensures states[2].threads == map[1 := Mapped(2 * PAGE, PAGE), 2 := Mapped(2 * PAGE, 2 * PAGE)]
  {
    FirstWindow();
    SecondWindow();
    var s0 := State(FreshDomain(), map[], {}, map[1 := Outside, 2 := Outside]);
    var s1 := s0.(domain := OneWindow(), threads := s0.threads[1 := Mapped(2 * PAGE, PAGE)]);
    var s2 := s1.(domain := TwoWindows(), threads := s1.threads[2 := Mapped(2 * PAGE, 2 * PAGE)]);
    states, events := [s0], [];
    states, events := Grows(states, events, MapPage(1, 2 * PAGE, MapNextPage(PAGE)), s1);
    states, events := Grows(states, events, MapPage(2, 2 * PAGE, MapNextPage(2 * PAGE)), s2);
  }

  lemma Grows(before: seq<State>, taken: seq<Event>, e: Event, t: State)
    returns (states: seq<State>, events: seq<Event>)
    requires Run(before, taken) && Next(before[|taken|], e, t)
    ensures states == before + [t] && events == taken + [e] && Run(states, events)
  {
    states, events := before + [t], taken + [e];
    forall i | 0 <= i < |events| ensures StepAt(states, events, i) {
      assert i < |taken| ==> StepAt(before, taken, i);
    }
  }

  /** The first thread caches its window, the second finds it there and holds the window at the frame's address. */
  lemma RaceLost() returns (states: seq<State>, events: seq<Event>)
    ensures Run(states, events) && |events| == 4 && (forall e | e in events :: !e.UnmapBuffer?)
    ensures states[4].domain == TwoWindows()
    ensures states[4].threads == map[1 := Outside, 2 := LostRace(2 * PAGE, 2 * PAGE, PAGE)]
  {
    states, events := BothMapped();
    var s2 := states[2];
    var s3 := s2.(cache := map[2 * PAGE := PAGE], threads := s2.threads[1 := Outside]);
    var s4 := s3.(threads := s3.threads[2 := LostRace(2 * PAGE, 2 * PAGE, PAGE)]);
    states, events := Grows(states, events, CachePage(1), s3);
    states, events := Grows(states, events, CachePage(2), s4);
  }

  /**
    The test for an identity page is also passed by a window that happens to have the address of its frame: two
    threads map physical page 2, the second gets page 2 of the I/O addresses, loses the race and gives it back.
    The answer given in between then translates no more, with no buffer ever unmapped.
   */
  lemma CollisionReclaimed() returns (states: seq<State>, events: seq<Event>)
    ensures Run(states, events) && |events| == 5 && (forall e | e in events :: !e.UnmapBuffer?)
    ensures Answers(states[4], 2 * PAGE, 0, 2 * PAGE) && Lookup(states[4].domain.pages, 2 * PAGE) == Some(2 * PAGE)
    ensures Lookup(states[5].domain.pages, 2 * PAGE) == None
  {
    states, events := RaceLost();
    var s4 := states[4];
    var s5 := s4.(domain := Domain.Released(TwoWindows(), 2 * PAGE), threads := s4.threads[2 := Outside]);
    GivenBackNext(states, events, Reclaim(2), s5, 2 * PAGE);
    states, events := Grows(states, events, Reclaim(2), s5);
  }
}
