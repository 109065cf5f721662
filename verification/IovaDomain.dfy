/**
  The IOVA allocator of a VT-d domain together with the mappings it hands out
  (`Domain`, `map_phys_to_iova_inner` and `unmap_iova` in `kernel/src/iommu/vt_d.rs`), as a
  state machine over values. `VtdDomain` runs it on the page table and the window list.

  Two groups of facts are kept apart. `Inv` survives every step, failed mappings included.
  `Tight`, that what is free, what is live and what the bump cursor has yet to give out never
  overlap, survives every step but one, and `FailedMapTight` says exactly which.
 */
module IovaDomain {

  import opened Common
  import opened Slpt
  import opened IovaWindows

  /** A reserved range as firmware reports it: `limit` is inclusive, neither end page-aligned. */
  datatype Reserved = Reserved(base: nat, limit: nat) {

    /** `base & !0xFFF` */
    function Start(): nat {
      base / PAGE * PAGE
    }

    /** `(limit | 0xFFF) + 1` */
    function End(): nat {
      (limit / PAGE + 1) * PAGE
    }

    /** The first page, and how many there are. */
    function First(): nat {
      base / PAGE
    }

    function Pages(): nat {
      if base / PAGE <= limit / PAGE then limit / PAGE + 1 - base / PAGE else 0
    }

    predicate Holds(x: nat) {
      Start() <= x < End()
    }

    /** The source's overlap test, which an inverted range can also pass. */
    predicate Overlaps(w: Window) {
      w.base < End() && Start() < w.End()
    }

    /** No address lies in both. */
    predicate Avoids(w: Window) {
      End() <= Start() || w.End() <= Start() || End() <= w.base
    }
  }

  /** For a range the right way round and a window with an address, the test is exactly: some address is in both. */
  lemma OverlapsExactly(r: Reserved, w: Window)
    requires r.Start() < r.End() && w.size > 0
    ensures r.Overlaps(w) <==> exists x: nat :: r.Holds(x) && w.Holds(x)
    ensures r.Avoids(w) <==> !r.Overlaps(w)
  {
    if r.Overlaps(w) {
      var x := Max(r.Start(), w.base);
      assert r.Holds(x) && w.Holds(x);
    }
  }

  predicate Clear(reserved: seq<Reserved>, w: Window) {
    forall i | 0 <= i < |reserved| :: reserved[i].Avoids(w)
  }

  predicate NoOverlap(reserved: seq<Reserved>, w: Window) {
    forall i | 0 <= i < |reserved| :: !reserved[i].Overlaps(w)
  }

  datatype Mapping = Mapping(size: nat, phys: nat)

  /**
    `free` is the window list, `next` the bump cursor, `pages` the finite map the page table
    stands for, `live` the windows handed out and not yet unmapped (base to size and backing),
    `fixed` the pages identity-mapped at start-up.
   */
  datatype State = State(
    limit: nat,
    next: nat,
    free: seq<Window>,
    pages: map<nat, nat>,
    live: map<nat, Mapping>,
    reserved: seq<Reserved>,
    fixed: set<nat>)

  function LiveWindow(live: map<nat, Mapping>, b: nat): Window
    requires b in live
  {
    Window(b, live[b].size)
  }

  // ── What every step keeps ──────────────────────────────────────────

  ghost predicate LiveWell(s: State) {
    forall b | b in s.live ::
      && LiveWindow(s.live, b).Proper()
      && LiveWindow(s.live, b).End() <= s.limit
      && Clear(s.reserved, LiveWindow(s.live, b))
  }

  ghost predicate LiveApart(live: map<nat, Mapping>) {
    forall b, c | b in live && c in live && b != c :: LiveWindow(live, b).Apart(LiveWindow(live, c))
  }

  ghost predicate FreeWell(s: State) {
    && Proper(s.free) && |s.free| <= CAPACITY
    && forall i | 0 <= i < |s.free| :: s.free[i].End() <= s.limit && Clear(s.reserved, s.free[i])
  }

  /** Page `pg` lies in live window `b`. */
  predicate InLive(live: map<nat, Mapping>, b: nat, pg: nat) {
    b in live && b <= pg * PAGE < b + live[b].size
  }

  ghost predicate IsLive(live: map<nat, Mapping>, pg: nat) {
    exists b :: InLive(live, b, pg)
  }

  ghost predicate FixedReserved(s: State) {
    forall pg | pg in s.fixed :: exists i | 0 <= i < |s.reserved| :: s.reserved[i].Holds(pg * PAGE)
  }

  /** The mapped pages are exactly the live windows and the identity pages, each where it belongs. */
  ghost predicate Exact(pages: map<nat, nat>, live: map<nat, Mapping>, fixed: set<nat>) {
    && (forall pg :: pg in pages <==> pg in fixed || IsLive(live, pg))
    && (forall pg | pg in pages && pg in fixed :: pages[pg] == pg * PAGE)
    && (forall pg, b | pg in pages && InLive(live, b, pg) :: pages[pg] == live[b].phys + (pg * PAGE - b))
  }

  ghost predicate Inv(s: State) {
    && s.next > 0 && s.next % PAGE == 0
    && LiveWell(s)
    && LiveApart(s.live)
    && FreeWell(s)
    && FixedReserved(s)
    && Exact(s.pages, s.live, s.fixed)
  }

  predicate HoldsAddress(live: map<nat, Mapping>, b: nat, iova: nat) {
    b in live && b <= iova < b + live[b].size
  }

  lemma AddressPage(b: nat, size: nat, iova: nat)
    requires b % PAGE == 0 && size % PAGE == 0
    ensures b <= iova < b + size <==> b <= iova / PAGE * PAGE < b + size
  {
  }

  /** Where an address leads: an identity page to itself, a live window to its memory, any other nowhere. */
  ghost predicate Leads(live: map<nat, Mapping>, fixed: set<nat>, iova: nat, r: Option<nat>) {
    && (iova / PAGE in fixed ==> r == Some(iova))
    && (forall b | HoldsAddress(live, b, iova) :: r == Some(live[b].phys + (iova - b)))
    && (r.Some? ==> iova / PAGE in fixed || exists b :: HoldsAddress(live, b, iova))
  }

  lemma HeldIsLive(s: State, b: nat, iova: nat)
    requires Inv(s)
    ensures HoldsAddress(s.live, b, iova) <==> InLive(s.live, b, iova / PAGE)
  {
    if b in s.live {
      assert LiveWindow(s.live, b).Proper();
      AddressPage(b, s.live[b].size, iova);
    }
  }

  /** The frame of a page in a window, and the offset of the byte in its page, make the place of the byte. */
  lemma PastStart(b: nat, phys: nat, iova: nat)
    requires b <= iova / PAGE * PAGE
    ensures phys + (iova / PAGE * PAGE - b) + iova % PAGE == phys + (iova - b)
  {
  }

  lemma LeadsIntoWindow(s: State, b: nat, iova: nat)
    requires Inv(s) && HoldsAddress(s.live, b, iova)
    ensures Lookup(s.pages, iova) == Some(s.live[b].phys + (iova - b))
  {
    HeldIsLive(s, b, iova);
    PastStart(b, s.live[b].phys, iova);
    assert IsLive(s.live, iova / PAGE);
  }

  lemma LeadsEverywhere(s: State, iova: nat)
    requires Inv(s)
    ensures Leads(s.live, s.fixed, iova, Lookup(s.pages, iova))
  {
    forall b | HoldsAddress(s.live, b, iova)
      ensures Lookup(s.pages, iova) == Some(s.live[b].phys + (iova - b))
    {
      LeadsIntoWindow(s, b, iova);
    }
    if iova / PAGE in s.pages && iova / PAGE !in s.fixed {
      var b :| InLive(s.live, b, iova / PAGE);
      HeldIsLive(s, b, iova);
    }
  }

  /** What is free, what is live and what lies past the cursor are disjoint; the list is coalesced. */
  ghost predicate Tight(s: State) {
    && Separate(s.free)
    && (forall i | 0 <= i < |s.free| :: s.free[i].End() <= s.next)
    && (forall b | b in s.live :: LiveWindow(s.live, b).End() <= s.next && AllApart(s.free, LiveWindow(s.live, b)))
  }

  // ── Handing out a window ───────────────────────────────────────────

  /** `va` is the lowest page at or above the cursor whose window misses every reserved range. */
  ghost predicate FirstFit(next: nat, reserved: seq<Reserved>, size: nat, limit: nat, va: nat) {
    && next <= va && va % PAGE == 0 && va + size <= limit
    && NoOverlap(reserved, Window(va, size))
    && forall lower | next <= lower < va && lower % PAGE == 0 :: !NoOverlap(reserved, Window(lower, size))
  }

  /** What `alloc_iova_with_limit` may answer, and the allocator state it leaves. */
  ghost predicate Handed(s: State, size: nat, limit: nat, va: nat, bumped: bool, free: seq<Window>, next: nat) {
    && size > 0 && size % PAGE == 0 && limit <= s.limit
    && if bumped then
         NoneFits(s.free, size, limit) && FirstFit(s.next, s.reserved, size, limit, va)
         && free == s.free && next == va + size
       else
         next == s.next
         && exists k: nat :: Tightest(s.free, k, size, limit) && va == s.free[k].base && free == Taken(s.free, k, size)
  }

  lemma SubwindowClear(reserved: seq<Reserved>, w: Window, v: Window)
    requires Clear(reserved, w) && w.base <= v.base && v.End() <= w.End()
    ensures Clear(reserved, v)
  {
  }

  lemma TakenWell(s: State, k: nat, size: nat)
    requires FreeWell(s) && k < |s.free| && 0 < size <= s.free[k].size && size % PAGE == 0
    ensures FreeWell(s.(free := Taken(s.free, k, size)))
  {
    TakeProper(s.free, k, size);
    var t := Taken(s.free, k, size);
    forall i | 0 <= i < |t|
      ensures t[i].End() <= s.limit && Clear(s.reserved, t[i])
    {
      if s.free[k].size == size {
        assert t[i] == s.free[if i == k then |s.free| - 1 else i];
      } else if i == k {
        SubwindowClear(s.reserved, s.free[k], t[i]);
      }
    }
  }

  /** Every window handed out is below the requested limit and clear of every reserved range. */
  lemma HandedWindow(s: State, size: nat, limit: nat, va: nat, bumped: bool, free: seq<Window>, next: nat)
    requires Inv(s) && Handed(s, size, limit, va, bumped, free, next)
    ensures Window(va, size).Proper() && va + size <= limit && Clear(s.reserved, Window(va, size))
    ensures Inv(s.(free := free, next := next))
  {
    if !bumped {
      var k: nat :| Tightest(s.free, k, size, limit) && va == s.free[k].base && free == Taken(s.free, k, size);
      SubwindowClear(s.reserved, s.free[k], Window(va, size));
      TakenWell(s, k, size);
    }
  }

  lemma TakenTight(s: State, k: nat, size: nat)
    requires Inv(s) && Tight(s) && k < |s.free| && 0 < size <= s.free[k].size
    ensures Tight(s.(free := Taken(s.free, k, size)))
  {
    var t := Taken(s.free, k, size);
    TakeSeparate(s.free, k, size);
    forall i | 0 <= i < |t|
      ensures t[i].End() <= s.next
      ensures forall b | b in s.live :: t[i].Apart(LiveWindow(s.live, b))
    {
      var from := if i == k && s.free[k].size == size then |s.free| - 1 else i;
      assert s.free[from].base <= t[i].base && t[i].End() == s.free[from].End();
    }
  }

  /** On a tight state the window is disjoint from everything live and free, before and after. */
  lemma HandedTight(s: State, size: nat, limit: nat, va: nat, bumped: bool, free: seq<Window>, next: nat)
    requires Inv(s) && Tight(s) && Handed(s, size, limit, va, bumped, free, next)
    ensures Tight(s.(free := free, next := next))
    ensures AllApart(free, Window(va, size)) && va + size <= next
    ensures forall b | b in s.live :: Window(va, size).Apart(LiveWindow(s.live, b))
  {
    if !bumped {
      var k: nat :| Tightest(s.free, k, size, limit) && va == s.free[k].base && free == Taken(s.free, k, size);
      TakenTight(s, k, size);
      TakeSeparate(s.free, k, size);
      assert forall b | b in s.live :: s.free[k].Apart(LiveWindow(s.live, b));
    }
  }

  // ── Mapping and unmapping ──────────────────────────────────────────

  /** Two page-aligned windows that are not apart share a page. */
  lemma SharedPage(w: Window, v: Window) returns (pg: nat)
    requires w.Proper() && v.Proper() && !w.Apart(v)
    ensures w.Holds(pg * PAGE) && v.Holds(pg * PAGE)
  {
    pg := (if w.base < v.base then v.base else w.base) / PAGE;
  }

  lemma PageInWindow(va: nat, size: nat, pg: nat)
    requires va % PAGE == 0 && size % PAGE == 0
    ensures va / PAGE <= pg < va / PAGE + size / PAGE <==> va <= pg * PAGE < va + size
  {
  }

  /** A window clear of the reserved ranges holds no identity page. */
  lemma FixedOutside(s: State, w: Window, pg: nat)
    requires FixedReserved(s) && Clear(s.reserved, w) && pg in s.fixed
    ensures !w.Holds(pg * PAGE)
  {
    var i :| 0 <= i < |s.reserved| && s.reserved[i].Holds(pg * PAGE);
    assert s.reserved[i].Avoids(w);
  }

  lemma LiveOutside(live: map<nat, Mapping>, w: Window, pg: nat)
    requires (forall b | b in live :: w.Apart(LiveWindow(live, b))) && IsLive(live, pg)
    ensures !w.Holds(pg * PAGE)
  {
    var b :| InLive(live, b, pg);
    assert w.Apart(LiveWindow(live, b));
  }

  function Mapped(s: State, va: nat, size: nat, phys: nat): State {
    s.(pages := Extend(s.pages, va / PAGE, phys, size / PAGE), live := s.live[va := Mapping(size, phys)])
  }

  lemma MappedPage(s: State, va: nat, size: nat, phys: nat, pg: nat)
    requires Window(va, size).Proper() && va !in s.live
    requires Unmapped(s.pages, va / PAGE, size / PAGE)
    ensures var t := Mapped(s, va, size, phys);
            && (pg in t.pages <==> pg in s.pages || va <= pg * PAGE < va + size)
            && (va <= pg * PAGE < va + size ==> pg !in s.pages && t.pages[pg] == phys + (pg * PAGE - va))
            && (pg in s.pages ==> t.pages[pg] == s.pages[pg])
            && (IsLive(t.live, pg) <==> IsLive(s.live, pg) || va <= pg * PAGE < va + size)
  {
    var t := Mapped(s, va, size, phys);
    PageInWindow(va, size, pg);
    ExtendAt(s.pages, va / PAGE, phys, size / PAGE, pg);
    if va <= pg * PAGE < va + size {
      assert InLive(t.live, va, pg);
    }
    if IsLive(s.live, pg) {
      var b :| InLive(s.live, b, pg);
      assert InLive(t.live, b, pg);
    }
    if IsLive(t.live, pg) {
      var b :| InLive(t.live, b, pg);
      assert b == va || InLive(s.live, b, pg);
    }
  }

  lemma MappedExact(s: State, va: nat, size: nat, phys: nat)
    requires Exact(s.pages, s.live, s.fixed) && Window(va, size).Proper() && va !in s.live
    requires Unmapped(s.pages, va / PAGE, size / PAGE)
    ensures Exact(Mapped(s, va, size, phys).pages, Mapped(s, va, size, phys).live, s.fixed)
  {
    var t := Mapped(s, va, size, phys);
    forall pg: nat
      ensures pg in t.pages <==> pg in s.fixed || IsLive(t.live, pg)
      ensures pg in t.pages && pg in s.fixed ==> t.pages[pg] == pg * PAGE
    {
      MappedPage(s, va, size, phys, pg);
    }
    forall pg: nat, b | pg in t.pages && InLive(t.live, b, pg)
      ensures t.pages[pg] == t.live[b].phys + (pg * PAGE - b)
    {
      MappedPage(s, va, size, phys, pg);
      assert b == va || (InLive(s.live, b, pg) && IsLive(s.live, pg));
    }
  }

  lemma MappedApart(s: State, va: nat, size: nat, phys: nat)
    requires Inv(s) && Window(va, size).Proper()
    requires Unmapped(s.pages, va / PAGE, size / PAGE)
    ensures va !in s.live
    ensures LiveApart(Mapped(s, va, size, phys).live)
  {
    assert va / PAGE !in s.pages;
    assert va in s.live ==> InLive(s.live, va, va / PAGE);
    forall b | b in s.live
      ensures LiveWindow(s.live, b).Apart(Window(va, size))
    {
      if !LiveWindow(s.live, b).Apart(Window(va, size)) {
        var pg := SharedPage(LiveWindow(s.live, b), Window(va, size));
        PageInWindow(va, size, pg);
        assert InLive(s.live, b, pg);
      }
    }
  }

  /** Mapping a handed-out window keeps every invariant, whatever state the allocator is in. */
  lemma MapKeepsInv(
    s: State, size: nat, limit: nat, va: nat, bumped: bool, free: seq<Window>, next: nat, phys: nat)
    requires Inv(s) && Handed(s, size, limit, va, bumped, free, next)
    requires Unmapped(s.pages, va / PAGE, size / PAGE)
    ensures Inv(Mapped(s.(free := free, next := next), va, size, phys))
  {
    var mid := s.(free := free, next := next);
    HandedWindow(s, size, limit, va, bumped, free, next);
    MappedApart(mid, va, size, phys);
    MappedExact(mid, va, size, phys);
  }

  lemma MapKeepsTight(
    s: State, size: nat, limit: nat, va: nat, bumped: bool, free: seq<Window>, next: nat, phys: nat)
    requires Inv(s) && Tight(s) && Handed(s, size, limit, va, bumped, free, next)
    ensures Tight(Mapped(s.(free := free, next := next), va, size, phys))
  {
    HandedTight(s, size, limit, va, bumped, free, next);
  }

  /** On a tight state no page of a handed-out window is mapped: "already mapped" cannot arise. */
  lemma HandedUnmapped(s: State, size: nat, limit: nat, va: nat, bumped: bool, free: seq<Window>, next: nat)
    requires Inv(s) && Tight(s) && Handed(s, size, limit, va, bumped, free, next)
    ensures Unmapped(s.pages, va / PAGE, size / PAGE)
  {
    HandedWindow(s, size, limit, va, bumped, free, next);
    HandedTight(s, size, limit, va, bumped, free, next);
    forall pg | va / PAGE <= pg < va / PAGE + size / PAGE
      ensures pg !in s.pages
    {
      PageInWindow(va, size, pg);
      assert pg in s.fixed ==> false by {
        if pg in s.fixed {
          FixedOutside(s, Window(va, size), pg);
        }
      }
      assert IsLive(s.live, pg) ==> false by {
        if IsLive(s.live, pg) {
          LiveOutside(s.live, Window(va, size), pg);
        }
      }
    }
  }

  lemma {:induction false} AbsorbWell(reserved: seq<Reserved>, limit: nat, s: seq<Window>, w: Window)
    requires forall i | 0 <= i < |s| :: s[i].End() <= limit && Clear(reserved, s[i])
    requires w.End() <= limit && Clear(reserved, w)
    ensures forall i | 0 <= i < |Absorb(s, w).0| ::
              Absorb(s, w).0[i].End() <= limit && Clear(reserved, Absorb(s, w).0[i])
    ensures Absorb(s, w).1.End() <= limit && Clear(reserved, Absorb(s, w).1)
    decreases |s|
  {
    var k := FirstTouch(s, w, 0);
    if k < |s| {
      assert Clear(reserved, s[k]);
      JoinClear(reserved, w, s[k]);
      AbsorbWell(reserved, limit, RemoveAt(s, k), w.Join(s[k]));
    }
  }

  lemma JoinClear(reserved: seq<Reserved>, w: Window, e: Window)
    requires Clear(reserved, w) && Clear(reserved, e) && w.Touches(e)
    ensures Clear(reserved, w.Join(e))
  {
    forall i | 0 <= i < |reserved|
      ensures reserved[i].Avoids(w.Join(e))
    {
      assert reserved[i].Avoids(w) && reserved[i].Avoids(e);
    }
  }

  lemma PushedWell(s: State, w: Window)
    requires FreeWell(s) && w.Proper() && w.End() <= s.limit && Clear(s.reserved, w)
    ensures FreeWell(s.(free := Pushed(s.free, w)))
  {
    PushProper(s.free, w);
    PushCovers(s.free, w, 0);
    AbsorbWell(s.reserved, s.limit, s.free, w);
  }

  function Released(s: State, b: nat): State
    requires b in s.live
  {
    s.(pages := Shrink(s.pages, b / PAGE, s.live[b].size / PAGE),
       live := s.live - {b},
       free := Pushed(s.free, LiveWindow(s.live, b)))
  }

  lemma ReleasedLive(live: map<nat, Mapping>, b: nat, pg: nat)
    requires b in live && LiveApart(live)
    ensures IsLive(live - {b}, pg) <==> IsLive(live, pg) && !LiveWindow(live, b).Holds(pg * PAGE)
  {
    var w := LiveWindow(live, b);
    if IsLive(live, pg) {
      var c :| InLive(live, c, pg);
      assert c == b || (InLive(live - {b}, c, pg) && w.Apart(LiveWindow(live, c)));
    }
    if IsLive(live - {b}, pg) {
      var c :| InLive(live - {b}, c, pg);
      assert InLive(live, c, pg) && w.Apart(LiveWindow(live, c));
    }
  }

  lemma ReleasedPage(s: State, b: nat, pg: nat)
    requires Inv(s) && b in s.live
    ensures var w := LiveWindow(s.live, b);
            var t := Released(s, b);
            && (pg in t.pages <==> pg in s.pages && !w.Holds(pg * PAGE))
            && (pg in t.pages ==> t.pages[pg] == s.pages[pg])
            && (pg in s.fixed ==> !w.Holds(pg * PAGE))
  {
    var w := LiveWindow(s.live, b);
    PageInWindow(b, w.size, pg);
    ShrinkAt(s.pages, b / PAGE, w.size / PAGE, pg);
    if pg in s.fixed {
      FixedOutside(s, w, pg);
    }
  }

  lemma ReleasedExact(s: State, b: nat)
    requires Inv(s) && b in s.live
    ensures Exact(Released(s, b).pages, Released(s, b).live, s.fixed)
  {
    var t := Released(s, b);
    forall pg: nat
      ensures pg in t.pages <==> pg in s.fixed || IsLive(t.live, pg)
      ensures pg in t.pages && pg in s.fixed ==> t.pages[pg] == pg * PAGE
    {
      ReleasedPage(s, b, pg);
      ReleasedLive(s.live, b, pg);
    }
    forall pg: nat, c | pg in t.pages && InLive(t.live, c, pg)
      ensures t.pages[pg] == t.live[c].phys + (pg * PAGE - c)
    {
      ReleasedPage(s, b, pg);
      assert InLive(s.live, c, pg);
    }
  }

  lemma ReleaseKeepsInv(s: State, b: nat)
    requires Inv(s) && b in s.live
    ensures Inv(Released(s, b))
  {
    ReleasedExact(s, b);
    PushedWell(s, LiveWindow(s.live, b));
  }

  lemma {:induction false} AbsorbBounded(s: seq<Window>, w: Window, v: Window, bound: nat)
    requires AllApart(s, v) && w.Apart(v) && v.size > 0
    requires w.End() <= bound && forall i | 0 <= i < |s| :: s[i].End() <= bound
    ensures AllApart(Absorb(s, w).0, v) && Absorb(s, w).1.Apart(v)
    ensures Absorb(s, w).1.End() <= bound && forall i | 0 <= i < |Absorb(s, w).0| :: Absorb(s, w).0[i].End() <= bound
    decreases |s|
  {
    var k := FirstTouch(s, w, 0);
    if k < |s| {
      RemoveApart(s, k, v);
      AbsorbBounded(RemoveAt(s, k), w.Join(s[k]), v, bound);
    }
  }

  /** Giving a window back below the cursor, apart from all that is free and live, stays tight. */
  lemma PushKeepsTight(s: State, w: Window)
    requires Inv(s) && Tight(s) && w.Proper() && w.End() <= s.next && AllApart(s.free, w)
    requires forall b | b in s.live :: w.Apart(LiveWindow(s.live, b))
    ensures Tight(s.(free := Pushed(s.free, w)))
  {
    PushSeparate(s.free, w);
    var beyond := Window(s.next, 1);
    AbsorbBounded(s.free, w, beyond, s.next);
    forall b | b in s.live
      ensures AllApart(Pushed(s.free, w), LiveWindow(s.live, b))
    {
      AbsorbBounded(s.free, w, LiveWindow(s.live, b), s.next);
    }
  }

  lemma ReleaseKeepsTight(s: State, b: nat)
    requires Inv(s) && Tight(s) && b in s.live
    ensures Tight(Released(s, b))
  {
    var rest := s.(pages := Released(s, b).pages, live := s.live - {b});
    ReleasedExact(s, b);
    PushKeepsTight(rest, LiveWindow(s.live, b));
  }

  // ── A mapping that fails half-way ──────────────────────────────────

  /** The window goes to the free list and the cursor to where it was before the call. */
  function Failed(s: State, va: nat, size: nat, free: seq<Window>): State {
    s.(free := Pushed(free, Window(va, size)))
  }

  lemma FailedKeepsInv(s: State, size: nat, limit: nat, va: nat, bumped: bool, free: seq<Window>, next: nat)
    requires Inv(s) && Handed(s, size, limit, va, bumped, free, next)
    ensures Inv(Failed(s, va, size, free))
  {
    HandedWindow(s, size, limit, va, bumped, free, next);
    PushedWell(s.(free := free), Window(va, size));
  }

  /**
    Exactly when a failed mapping leaves the allocator tight: the window came from the free list,
    or the list was full and leaked it. Otherwise the window is both on the list and past the cursor.
   */
  lemma FailedMapTight(s: State, size: nat, limit: nat, va: nat, bumped: bool, free: seq<Window>, next: nat)
    requires Inv(s) && Tight(s) && Handed(s, size, limit, va, bumped, free, next)
    ensures Tight(Failed(s, va, size, free)) <==> !bumped || Leaks(s.free, Window(va, size))
  {
    var w := Window(va, size);
    HandedWindow(s, size, limit, va, bumped, free, next);
    HandedTight(s, size, limit, va, bumped, free, next);
    PushCovers(free, w, va);
    if !bumped {
      PushKeepsTight(s.(free := free, next := next), w);
    } else if !Leaks(s.free, w) {
      assert w.Holds(va);
      var i :| 0 <= i < |Pushed(free, w)| && Pushed(free, w)[i].Holds(va);
      assert Pushed(free, w)[i].End() > s.next;
    }
  }

  // ── Runs ───────────────────────────────────────────────────────────

  datatype Event =
    | Refuse
    | Map(size: nat, limit: nat, va: nat, bumped: bool, free: seq<Window>, next: nat, phys: nat)
    | Fail(size: nat, limit: nat, va: nat, bumped: bool, free: seq<Window>, next: nat)
    | Unmap(base: nat)

  ghost predicate Next(s: State, e: Event, t: State) {
    match e
    case Refuse => t == s
    case Map(size, limit, va, bumped, free, next, phys) =>
      && Handed(s, size, limit, va, bumped, free, next)
      && Unmapped(s.pages, va / PAGE, size / PAGE)
      && t == Mapped(s.(free := free, next := next), va, size, phys)
    case Fail(size, limit, va, bumped, free, next) =>
      Handed(s, size, limit, va, bumped, free, next) && t == Failed(s, va, size, free)
    case Unmap(b) =>
      b in s.live && t == Released(s, b)
  }

  /** Not the failure that leaves its window on both sides of the cursor. */
  predicate Clean(s: State, e: Event) {
    e.Fail? && e.bumped ==> Leaks(s.free, Window(e.va, e.size))
  }

  lemma NextKeepsInv(s: State, e: Event, t: State)
    requires Inv(s) && Next(s, e, t)
    ensures Inv(t) && t.limit == s.limit && t.reserved == s.reserved && t.fixed == s.fixed
  {
    match e
    case Refuse =>
    case Map(size, limit, va, bumped, free, next, phys) =>
      MapKeepsInv(s, size, limit, va, bumped, free, next, phys);
    case Fail(size, limit, va, bumped, free, next) =>
      FailedKeepsInv(s, size, limit, va, bumped, free, next);
    case Unmap(b) =>
      ReleaseKeepsInv(s, b);
  }

  /** One failed mapping, and the allocator hands out a window that is live. */
  lemma FailedMapHandsOutTwice() returns (s: State, t: State, u: State)
    ensures Inv(s) && Tight(s)
    ensures Next(s, Fail(PAGE, s.limit, PAGE, true, [], 2 * PAGE), t)
    ensures Next(t, Map(PAGE, t.limit, PAGE, false, [], PAGE, 0), u) && PAGE in u.live
    ensures Handed(u, PAGE, u.limit, PAGE, true, [], 2 * PAGE)
  {
    s := State(0x80_0000_0000, PAGE, [], map[], map[], [], {});
    var w := Window(PAGE, PAGE);
    AbsorbStep([], w);
    t := Failed(s, PAGE, PAGE, []);
    assert t.free == [w];
    assert Tightest(t.free, 0, PAGE, t.limit) && Taken(t.free, 0, PAGE) == [];
    assert NoOverlap([], w);
    u := Mapped(t.(free := []), PAGE, PAGE, 0);
  }

  lemma NextKeepsTight(s: State, e: Event, t: State)
    requires Inv(s) && Tight(s) && Next(s, e, t)
    ensures Tight(t) <==> Clean(s, e)
  {
    match e
    case Refuse =>
    case Map(size, limit, va, bumped, free, next, phys) =>
      MapKeepsTight(s, size, limit, va, bumped, free, next, phys);
    case Fail(size, limit, va, bumped, free, next) =>
      FailedMapTight(s, size, limit, va, bumped, free, next);
    case Unmap(b) =>
      ReleaseKeepsTight(s, b);
  }

  ghost predicate Run(states: seq<State>, events: seq<Event>) {
    && |states| == |events| + 1
    && forall i | 0 <= i < |events| :: Next(states[i], events[i], states[i + 1])
  }

  /**
    Over every run, failed mappings included: the page table maps exactly the live windows and the
    identity pages, live windows are pairwise disjoint, below the limit and clear of reserved ranges.
   */
  lemma {:induction false} RunKeepsInv(states: seq<State>, events: seq<Event>, i: nat)
    requires Run(states, events) && Inv(states[0]) && i < |states|
    ensures Inv(states[i])
    ensures states[i].limit == states[0].limit
    ensures states[i].reserved == states[0].reserved && states[i].fixed == states[0].fixed
  {
    if i > 0 {
      RunKeepsInv(states, events, i - 1);
      NextKeepsInv(states[i - 1], events[i - 1], states[i]);
    }
  }

  /** Over every run of clean steps the allocator stays tight, so no window meets a mapped page. */
  lemma CleanStepKeepsTight(states: seq<State>, events: seq<Event>, i: nat)
    requires Run(states, events) && Inv(states[0]) && i < |events| && Tight(states[i]) && Clean(states[i], events[i])
    ensures Tight(states[i + 1])
  {
    RunKeepsInv(states, events, i);
    NextKeepsTight(states[i], events[i], states[i + 1]);
  }

  lemma {:induction false} CleanRunKeepsTight(states: seq<State>, events: seq<Event>, i: nat)
    requires Run(states, events) && Inv(states[0]) && Tight(states[0]) && i < |states|
    requires forall j | 0 <= j < |events| :: Clean(states[j], events[j])
    ensures Tight(states[i])
  {
    if i > 0 {
      CleanRunKeepsTight(states, events, i - 1);
      CleanStepKeepsTight(states, events, i - 1);
    }
  }

  /** Identity pages translate to themselves at every point of every run. */
  lemma RunKeepsIdentity(states: seq<State>, events: seq<Event>, i: nat, va: nat)
    requires Run(states, events) && Inv(states[0]) && i < |states| && va / PAGE in states[0].fixed
    ensures Lookup(states[i].pages, va) == Some(va)
  {
    RunKeepsInv(states, events, i);
    assert va / PAGE in states[i].pages;
  }
}
