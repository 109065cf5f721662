/**
  The VT-d domain in place (`Domain`, `map_phys_to_iova_inner`, `unmap_iova`, `translate_iova` and
  the identity-mapping part of `init` in `kernel/src/iommu/vt_d.rs`): a page table, a window list
  and a bump cursor, updated under the state lock. Every method is a step of `IovaDomain`.
 */
module VtdDomain {

  import opened Common
  import opened Slpt
  import opened IovaWindows
  import opened IovaDomain

  const MAX_ATTEMPTS: nat := 64

  /** `(size + 0xFFF) & !0xFFF` */
  function RoundUp(size: nat): nat {
    (size + PAGE - 1) / PAGE * PAGE
  }

  /** Bytes of the pages that `size` bytes at `phys` touch. */
  function Spanned(phys: nat, size: nat): nat {
    RoundUp(size + phys % PAGE)
  }

  /** Rounding up gives the least multiple of the page size that is no smaller. */
  lemma RoundUpLeast(size: nat, m: nat)
    ensures RoundUp(size) % PAGE == 0 && size <= RoundUp(size)
    ensures size <= m * PAGE ==> RoundUp(size) <= m * PAGE
  {
    RoundUpPages(size, (size + PAGE - 1) / PAGE);
  }

  lemma RoundUpPages(size: nat, n: nat)
    requires n == (size + PAGE - 1) / PAGE
    ensures RoundUp(size) == n * PAGE && n * PAGE % PAGE == 0 && n * PAGE / PAGE == n
    ensures size <= n * PAGE < size + PAGE
  {
  }

  lemma SpannedBound(phys: nat, size: nat)
    ensures size + phys % PAGE <= Spanned(phys, size)
  {
    RoundUpPages(size + phys % PAGE, (size + phys % PAGE + PAGE - 1) / PAGE);
  }

  /** A mapping of the pages that `size` bytes at `phys` touch, at `va`. */
  function SpanMapped(pages: map<nat, nat>, va: nat, phys: nat, size: nat): map<nat, nat> {
    Extend(pages, va / PAGE, phys - phys % PAGE, Spanned(phys, size) / PAGE)
  }

  /** Every byte of the buffer is reached, at its own distance from the address answered. */
  lemma SpanReaches(pages: map<nat, nat>, va: nat, phys: nat, size: nat, i: nat)
    requires va % PAGE == 0 && i < size
    ensures Lookup(SpanMapped(pages, va, phys, size), va + phys % PAGE + i) == Some(phys + i)
  {
    var off, n := phys % PAGE + i, Spanned(phys, size) / PAGE;
    RoundUpPages(size + phys % PAGE, (size + phys % PAGE + PAGE - 1) / PAGE);
    BytePage(va, off, n);
    ExtendAt(pages, va / PAGE, phys - phys % PAGE, n, va / PAGE + off / PAGE);
  }

  lemma BytePage(va: nat, off: nat, n: nat)
    requires va % PAGE == 0 && off < n * PAGE
    ensures (va + off) / PAGE == va / PAGE + off / PAGE && (va + off) % PAGE == off % PAGE && off / PAGE < n
    ensures off / PAGE * PAGE + off % PAGE == off
  {
  }

  /** No page is mapped but those of the bytes. */
  lemma SpanTouches(pages: map<nat, nat>, va: nat, phys: nat, size: nat, pg: nat)
    requires va % PAGE == 0 && size > 0
    ensures pg in SpanMapped(pages, va, phys, size) <==>
            pg in pages || (va + phys % PAGE) / PAGE <= pg <= (va + phys % PAGE + size - 1) / PAGE
  {
    var n, last := Spanned(phys, size) / PAGE, phys % PAGE + size - 1;
    RoundUpPages(size + phys % PAGE, (size + phys % PAGE + PAGE - 1) / PAGE);
    BytePage(va, phys % PAGE, n);
    BytePage(va, last, n);
    LastPage(last, n);
    ExtendAt(pages, va / PAGE, phys - phys % PAGE, n, pg);
  }

  lemma LastPage(last: nat, n: nat)
    requires last < n * PAGE <= last + PAGE
    ensures last / PAGE + 1 == n
  {
  }

  predicate ByteAt(pages: map<nat, nat>, iova: nat, phys: nat, i: nat) {
    Lookup(pages, iova + i) == Some(phys + i)
  }

  /** The bytes from `iova` lead to the bytes from `phys`, one by one. */
  ghost predicate LeadsTo(pages: map<nat, nat>, iova: nat, phys: nat, size: nat) {
    forall i {:trigger ByteAt(pages, iova, phys, i)} | 0 <= i < size :: ByteAt(pages, iova, phys, i)
  }

  /** `now` has no more pages than `before` and those of the bytes from `iova`. */
  ghost predicate OnlyThese(before: map<nat, nat>, now: map<nat, nat>, iova: nat, size: nat) {
    forall pg {:trigger pg in now} :: pg in now <==> pg in before || iova / PAGE <= pg <= (iova + size - 1) / PAGE
  }

  /** A mapping of the pages a buffer touches reaches every byte of it and nothing else. */
  lemma MapsBuffer(was: State, e: Event, t: State, phys: nat, size: nat, iova: nat, pages: map<nat, nat>)
    requires Inv(was) && e.Map? && Next(was, e, t) && size > 0 && pages == t.pages && iova == e.va + phys % PAGE
    requires e.phys == phys - phys % PAGE && e.size == Spanned(phys, size)
    ensures LeadsTo(pages, iova, phys, size) && OnlyThese(was.pages, pages, iova, size)
  {
    HandedWindow(was, e.size, e.limit, e.va, e.bumped, e.free, e.next);
    forall i | 0 <= i < size ensures ByteAt(pages, iova, phys, i) {
      SpanReaches(was.pages, e.va, phys, size, i);
    }
    forall pg: nat
      ensures pg in pages <==> pg in was.pages || iova / PAGE <= pg <= (iova + size - 1) / PAGE
    {
      SpanTouches(was.pages, e.va, phys, size, pg);
    }
  }

  /** Reserved ranges that end at or below `c`. */
  function Passed(reserved: seq<Reserved>, c: nat): nat {
    if |reserved| == 0 then 0
    else Passed(reserved[..|reserved| - 1], c) + if reserved[|reserved| - 1].End() <= c then 1 else 0
  }

  lemma {:induction false} PassedGrows(reserved: seq<Reserved>, c: nat, d: nat)
    requires c <= d
    ensures Passed(reserved, c) <= Passed(reserved, d) <= |reserved|
    ensures (exists k | 0 <= k < |reserved| :: c < reserved[k].End() <= d) ==> Passed(reserved, c) < Passed(reserved, d)
  {
    if |reserved| > 0 {
      var init := reserved[..|reserved| - 1];
      PassedGrows(init, c, d);
      forall k | 0 <= k < |init| && c < reserved[k].End() <= d
        ensures exists j | 0 <= j < |init| :: c < init[j].End() <= d
      {
        assert init[k] == reserved[k];
      }
    }
  }

  /** Every reserved range ends inside the 64-bit address space. */
  predicate Representable(reserved: seq<Reserved>) {
    forall i | 0 <= i < |reserved| :: reserved[i].End() < WORD_LIMIT
  }

  ghost predicate NothingBelow(reserved: seq<Reserved>, size: nat, lo: nat, hi: nat) {
    forall va | lo <= va < hi && va % PAGE == 0 :: !NoOverlap(reserved, Window(va, size))
  }

  /** Moving a blocked candidate past the range that blocks it skips no free position. */
  lemma SkipRange(reserved: seq<Reserved>, size: nat, lo: nat, c: nat, k: nat)
    requires NothingBelow(reserved, size, lo, c) && k < |reserved| && reserved[k].Overlaps(Window(c, size))
    ensures NothingBelow(reserved, size, lo, reserved[k].End())
  {
    forall va | lo <= va < reserved[k].End() && va % PAGE == 0
      ensures !NoOverlap(reserved, Window(va, size))
    {
      if c <= va {
        assert reserved[k].Overlaps(Window(va, size));
      }
    }
  }

  function Pow2(n: nat): nat {
    if n == 0 then 1 else 2 * Pow2(n - 1)
  }

  /** The IOVA limit: the address width of the walk, capped by MGAW and by the host address width. */
  function DomainLimit(agaw: Agaw, mgaw: nat, haw: nat): (r: nat)
    ensures r <= agaw.MaxIova() + 1
  {
    var bits := if agaw.Level3? then 39 else 48;
    var full := if agaw.Level3? then 0x80_0000_0000 else 0x1_0000_0000_0000;
    var capped := if haw < bits then Min(full, Pow2(haw)) else full;
    if mgaw < bits then Min(capped, Pow2(mgaw)) else capped
  }

  lemma {:induction false} Pow2Grows(a: nat, b: nat)
    requires a <= b
    ensures Pow2(a) <= Pow2(b)
    decreases b
  {
    if a < b {
      Pow2Grows(a, b - 1);
    }
  }

  lemma {:induction false} Pow2Adds(a: nat, b: nat)
    ensures Pow2(a + b) == Pow2(a) * Pow2(b)
    decreases b
  {
    if b > 0 {
      Pow2Adds(a, b - 1);
    }
  }

  lemma Widths()
    ensures Pow2(39) == 0x80_0000_0000 && Pow2(48) == 0x1_0000_0000_0000
  {
    assert Pow2(3) == 8 && Pow2(6) == 64 && Pow2(9) == 512;
    Pow2Adds(9, 9);
    Pow2Adds(18, 18);
    Pow2Adds(36, 3);
    Pow2Adds(39, 9);
  }

  /** The limit is the least of the widths of the walk, of the unit and of the host. */
  lemma LimitIsLeast(agaw: Agaw, mgaw: nat, haw: nat)
    ensures var bits, limit := 9 * agaw.Levels() + 12, DomainLimit(agaw, mgaw, haw);
            && limit <= Pow2(bits) && limit <= Pow2(mgaw) && limit <= Pow2(haw)
            && (limit == Pow2(bits) || limit == Pow2(mgaw) || limit == Pow2(haw))
  {
    Widths();
    var bits := 9 * agaw.Levels() + 12;
    if haw >= bits {
      Pow2Grows(bits, haw);
    }
    if mgaw >= bits {
      Pow2Grows(bits, mgaw);
    }
  }

  lemma WindowMappable(pages: map<nat, nat>, va: nat, phys: nat, size: nat, agaw: Agaw)
    requires va % PAGE == 0 && size % PAGE == 0 && Unmapped(pages, va / PAGE, size / PAGE)
    requires va + size <= agaw.MaxIova() + 1 && phys + size <= FRAME_LIMIT
    ensures Mappable(pages, va, phys, size / PAGE, agaw)
  {
  }

  lemma MappableFits(pages: map<nat, nat>, va: nat, phys: nat, size: nat, agaw: Agaw)
    requires phys % PAGE == 0 && size % PAGE == 0 && size > 0 && Mappable(pages, va, phys, size / PAGE, agaw)
    ensures phys + size <= FRAME_LIMIT
  {
    assert PageMappable(pages, va, phys, size / PAGE - 1, agaw);
  }

  lemma HandedFits(s: State, size: nat, max: nat, va: nat, bumped: bool, free: seq<Window>, next: nat)
    requires Inv(s) && Handed(s, size, max, va, bumped, free, next)
    ensures Window(va, size).Proper() && va + size <= max
  {
    HandedWindow(s, size, max, va, bumped, free, next);
  }

  /** Whether a window that was handed out can be mapped. */
  lemma WindowOutcome(s: State, size: nat, max: nat, va: nat, bumped: bool, free: seq<Window>, next: nat, phys: nat,
                      agaw: Agaw)
    requires Inv(s) && Handed(s, size, max, va, bumped, free, next) && phys % PAGE == 0
    requires s.limit <= agaw.MaxIova() + 1
    ensures Mappable(s.pages, va, phys, size / PAGE, agaw) ==>
              Unmapped(s.pages, va / PAGE, size / PAGE) && phys + size <= FRAME_LIMIT
    ensures Tight(s) && phys + size <= FRAME_LIMIT ==> Mappable(s.pages, va, phys, size / PAGE, agaw)
  {
    HandedWindow(s, size, max, va, bumped, free, next);
    if Mappable(s.pages, va, phys, size / PAGE, agaw) {
      MappableRun(s.pages, va, phys, size / PAGE, agaw);
      MappableFits(s.pages, va, phys, size, agaw);
    }
    if Tight(s) && phys + size <= FRAME_LIMIT {
      HandedUnmapped(s, size, max, va, bumped, free, next);
      WindowMappable(s.pages, va, phys, size, agaw);
    }
  }

  function WindowEvent(ok: bool, size: nat, max: nat, va: nat, bumped: bool, free: seq<Window>, next: nat, phys: nat):
    (e: Event)
  {
    if ok then Map(size, max, va, bumped, free, next, phys) else Fail(size, max, va, bumped, free, next)
  }

  /** Mapping the window, or the failure path, is one step of the domain; what a failure was for want of. */
  lemma WindowStep(s: State, t: State, ok: bool, size: nat, max: nat, va: nat, bumped: bool, free: seq<Window>,
                   next: nat, phys: nat, agaw: Agaw, framesLast: bool)
    requires Inv(s) && Handed(s, size, max, va, bumped, free, next) && phys % PAGE == 0
    requires s.limit <= agaw.MaxIova() + 1
    requires ok <==> Mappable(s.pages, va, phys, size / PAGE, agaw) && framesLast
    requires t == if ok then Mapped(s.(free := free, next := next), va, size, phys) else Failed(s, va, size, free)
    ensures Next(s, WindowEvent(ok, size, max, va, bumped, free, next, phys), t) && Inv(t)
    ensures ok ==> phys + size <= FRAME_LIMIT && framesLast
    ensures !ok && Tight(s) ==> phys + size > FRAME_LIMIT || !framesLast
    ensures !ok ==> t.pages == s.pages
  {
    WindowOutcome(s, size, max, va, bumped, free, next, phys, agaw);
    NextKeepsInv(s, WindowEvent(ok, size, max, va, bumped, free, next, phys), t);
  }

  lemma LiveMapped(s: State, b: nat)
    requires Inv(s) && b in s.live
    ensures forall pg | b / PAGE <= pg < b / PAGE + s.live[b].size / PAGE :: pg in s.pages
  {
    forall pg | b / PAGE <= pg < b / PAGE + s.live[b].size / PAGE
      ensures pg in s.pages
    {
      PageInWindow(b, s.live[b].size, pg);
      assert InLive(s.live, b, pg);
    }
  }

  lemma FramesAligned(pages: map<nat, nat>, mem: Mem, nodes: map<Node, nat>, agaw: Agaw, pg: nat)
    requires Represents(pages, mem, nodes, agaw)
    ensures pg in pages ==> pages[pg] % PAGE == 0
  {
    var leaf := LeafWord(mem, nodes, pg);
  }

  lemma LookupOffset(pages: map<nat, nat>, iova: nat)
    requires iova / PAGE in pages ==> pages[iova / PAGE] % PAGE == 0
    ensures match Lookup(pages, iova - iova % PAGE)
            case None => Lookup(pages, iova).None?
            case Some(p) => Lookup(pages, iova) == Some(p - p % PAGE + iova % PAGE)
  {
    assert (iova - iova % PAGE) / PAGE == iova / PAGE && (iova - iova % PAGE) % PAGE == 0;
  }

  // ── Identity mappings ──────────────────────────────────────────────

  /** A firmware range that `init` maps rather than skips; an end past the word range wraps to 0. */
  predicate Accepted(r: Reserved, limit: nat) {
    r.Start() < r.End() < WORD_LIMIT && r.End() <= limit
  }

  ghost predicate InAccepted(rmrrs: seq<Reserved>, limit: nat, pg: nat) {
    exists i | 0 <= i < |rmrrs| :: Accepted(rmrrs[i], limit) && rmrrs[i].Holds(pg * PAGE)
  }

  /** Exactly the pages of the accepted ranges are mapped, each to itself. */
  ghost predicate Identity(pages: map<nat, nat>, rmrrs: seq<Reserved>, limit: nat) {
    && (forall pg: nat :: pg in pages <==> InAccepted(rmrrs, limit, pg))
    && (forall pg | pg in pages :: pages[pg] == pg * PAGE)
  }

  /** `pages` with the pages of `r` mapped to themselves. */
  function WithRange(pages: map<nat, nat>, r: Reserved): map<nat, nat>
    requires r.Start() < r.End()
  {
    Extend(pages, r.First(), r.First() * PAGE, r.Pages())
  }

  lemma IdentityStep(pages: map<nat, nat>, rmrrs: seq<Reserved>, limit: nat, r: Reserved)
    requires Identity(pages, rmrrs, limit)
    ensures Identity(if Accepted(r, limit) then WithRange(pages, r) else pages, rmrrs + [r], limit)
  {
    var after := if Accepted(r, limit) then WithRange(pages, r) else pages;
    forall pg: nat
      ensures pg in after <==> InAccepted(rmrrs + [r], limit, pg)
      ensures pg in after ==> after[pg] == pg * PAGE
    {
      IdentityPage(pages, rmrrs, limit, r, pg);
      AppendAccepted(rmrrs, limit, r, pg);
    }
  }

  lemma IdentityPage(pages: map<nat, nat>, rmrrs: seq<Reserved>, limit: nat, r: Reserved, pg: nat)
    requires Identity(pages, rmrrs, limit)
    ensures var after := if Accepted(r, limit) then WithRange(pages, r) else pages;
            && (pg in after <==> pg in pages || (Accepted(r, limit) && r.Holds(pg * PAGE)))
            && (pg in after ==> after[pg] == pg * PAGE)
  {
    if Accepted(r, limit) {
      var first := r.First();
      PageInWindow(r.Start(), r.End() - r.Start(), pg);
      ExtendAt(pages, first, first * PAGE, r.Pages(), pg);
    }
  }

  lemma AppendAccepted(rmrrs: seq<Reserved>, limit: nat, r: Reserved, pg: nat)
    ensures InAccepted(rmrrs + [r], limit, pg) <==>
              InAccepted(rmrrs, limit, pg) || (Accepted(r, limit) && r.Holds(pg * PAGE))
  {
    var all := rmrrs + [r];
    if InAccepted(rmrrs, limit, pg) {
      var i :| 0 <= i < |rmrrs| && Accepted(rmrrs[i], limit) && rmrrs[i].Holds(pg * PAGE);
      assert all[i] == rmrrs[i];
    }
    if Accepted(r, limit) && r.Holds(pg * PAGE) {
      assert all[|rmrrs|] == r;
    }
  }

  /** `now` is the identity map `before` with `p` more pages from `first`, some of them there already. */
  ghost predicate Covered(before: map<nat, nat>, now: map<nat, nat>, first: nat, p: nat) {
    && (forall pg: nat :: pg in now <==> pg in before || first <= pg < first + p)
    && (forall pg | pg in now :: now[pg] == pg * PAGE)
  }

  lemma CoveredStep(before: map<nat, nat>, now: map<nat, nat>, first: nat, p: nat)
    requires Covered(before, now, first, p)
    ensures Covered(before, now[first + p := (first + p) * PAGE], first, p + 1)
    ensures first + p in now ==>
              Covered(before, now, first, p + 1) && Lookup(now, (first + p) * PAGE) == Some((first + p) * PAGE)
  {
  }

  lemma FramebufferPages(
    pages: map<nat, nat>, rmrrs: seq<Reserved>, limit: nat, r: Reserved, first: nat, n: nat)
    requires Identity(pages, rmrrs, limit) && Accepted(r, limit)
    requires first == r.First() && n == r.Pages()
    ensures Covered(pages, pages, first, 0) && first * PAGE + n * PAGE <= limit
  {
    RangePages(r, 0);
  }

  lemma CoveredIdentity(before: map<nat, nat>, now: map<nat, nat>, rmrrs: seq<Reserved>, limit: nat, r: Reserved,
                        first: nat, n: nat)
    requires Identity(before, rmrrs, limit) && Accepted(r, limit)
    requires first == r.First() && n == r.Pages()
    ensures Covered(before, now, first, n) ==> Identity(now, rmrrs + [r], limit)
  {
    forall pg: nat
      ensures first <= pg < first + n <==> r.Holds(pg * PAGE)
      ensures InAccepted(rmrrs + [r], limit, pg) <==> InAccepted(rmrrs, limit, pg) || r.Holds(pg * PAGE)
    {
      PageInWindow(r.Start(), r.End() - r.Start(), pg);
      AppendAccepted(rmrrs, limit, r, pg);
    }
  }

  // ── When start-up succeeds ─────────────────────────────────────────

  /** The tables on the ways to the pages of a range. */
  ghost function RangeTables(level: nat, r: Reserved): set<Node>
    requires r.Start() < r.End()
  {
    RunTables(level, r.First(), r.Pages())
  }

  /** The tables on the ways to the pages of all accepted ranges. */
  ghost function AllTables(level: nat, ranges: seq<Reserved>, limit: nat): set<Node> {
    if ranges == [] then {} else
      var r := ranges[|ranges| - 1];
      AllTables(level, ranges[..|ranges| - 1], limit) + if Accepted(r, limit) then RangeTables(level, r) else {}
  }

  /** How many tables are hung for the accepted ranges: for each those that neither were there nor came before. */
  ghost function StartTables(level: nat, ranges: seq<Reserved>, limit: nat, tables: set<Node>): nat {
    if ranges == [] then 0 else
      var r, before := ranges[|ranges| - 1], ranges[..|ranges| - 1];
      StartTables(level, before, limit, tables)
      + if Accepted(r, limit)
        then Needed(tables + AllTables(level, before, limit), level, r.First(), r.Pages())
        else 0
  }

  predicate ShareNothing(a: Reserved, b: Reserved) {
    a.End() <= b.Start() || b.End() <= a.Start()
  }

  /** No two accepted ranges share a page. */
  ghost predicate RangesApart(ranges: seq<Reserved>, limit: nat) {
    forall i, j {:trigger ShareNothing(ranges[i], ranges[j])} | 0 <= i < j < |ranges| ::
      Accepted(ranges[i], limit) && Accepted(ranges[j], limit) ==> ShareNothing(ranges[i], ranges[j])
  }

  lemma AllTablesStep(level: nat, ranges: seq<Reserved>, limit: nat, r: Reserved)
    ensures AllTables(level, ranges + [r], limit)
         == AllTables(level, ranges, limit) + if Accepted(r, limit) then RangeTables(level, r) else {}
  {
    assert (ranges + [r])[..|ranges|] == ranges;
  }

  lemma {:induction false} StartTablesGrow(level: nat, ranges: seq<Reserved>, limit: nat, k: nat, tables: set<Node>)
    requires k <= |ranges|
    ensures StartTables(level, ranges[..k], limit, tables) <= StartTables(level, ranges, limit, tables)
    decreases |ranges|
  {
    if k == |ranges| {
      assert ranges[..k] == ranges;
    } else {
      StartTablesGrow(level, ranges[..|ranges| - 1], limit, k, tables);
      assert ranges[..|ranges| - 1][..k] == ranges[..k];
    }
  }

  /** One more range: the tables it needs on top of those there and those of the ranges before it. */
  lemma StartTablesStep(level: nat, ranges: seq<Reserved>, limit: nat, r: Reserved, tables: set<Node>, keys: set<Node>)
    requires Accepted(r, limit) && keys == tables + AllTables(level, ranges, limit)
    ensures StartTables(level, ranges + [r], limit, tables)
         == StartTables(level, ranges, limit, tables)
            + Needed(keys, level, r.First(), r.Pages())
    ensures keys + RangeTables(level, r) == tables + AllTables(level, ranges + [r], limit)
  {
    AllTablesStep(level, ranges, limit, r);
    assert (ranges + [r])[..|ranges|] == ranges;
  }

  lemma CountStep(tables: set<Node>, level: nat, first: nat, n: nat, some: set<Node>, all: set<Node>)
    requires all == some + RunTables(level, first, n)
    ensures |all - tables| == |some - tables| + Needed(tables + some, level, first, n)
  {
    NeededIsCount(tables + some, level, first, n);
    UnionCount(some, RunTables(level, first, n), tables, all);
  }

  /** The last range: what it adds to the count and to the tables. */
  lemma CountLast(level: nat, ranges: seq<Reserved>, limit: nat, tables: set<Node>, some: set<Node>, all: set<Node>)
    requires ranges != [] && all == AllTables(level, ranges, limit)
    requires some == AllTables(level, ranges[..|ranges| - 1], limit)
    ensures StartTables(level, ranges, limit, tables) - StartTables(level, ranges[..|ranges| - 1], limit, tables)
         == |all - tables| - |some - tables|
  {
    var r := ranges[|ranges| - 1];
    if Accepted(r, limit) {
      CountStep(tables, level, r.First(), r.Pages(), some, all);
    } else {
      assert all == some;
    }
  }

  /** Start-up hangs each table on the way to an accepted range once. */
  lemma {:induction false} StartTablesIsCount(level: nat, ranges: seq<Reserved>, limit: nat, tables: set<Node>)
    ensures StartTables(level, ranges, limit, tables) == |AllTables(level, ranges, limit) - tables|
    decreases |ranges|
  {
    if ranges != [] {
      var before := ranges[..|ranges| - 1];
      StartTablesIsCount(level, before, limit, tables);
      CountLast(level, ranges, limit, tables, AllTables(level, before, limit), AllTables(level, ranges, limit));
    }
  }

  lemma SkippedRange(level: nat, ranges: seq<Reserved>, limit: nat, r: Reserved, tables: set<Node>)
    requires !Accepted(r, limit)
    ensures AllTables(level, ranges + [r], limit) == AllTables(level, ranges, limit)
    ensures StartTables(level, ranges + [r], limit, tables) == StartTables(level, ranges, limit, tables)
    ensures RangesApart(ranges, limit) ==> RangesApart(ranges + [r], limit)
  {
    AllTablesStep(level, ranges, limit, r);
    assert (ranges + [r])[..|ranges|] == ranges;
  }

  lemma EndAligned(r: Reserved)
    ensures r.End() > 0 && r.End() % PAGE == 0
  {
  }

  lemma RangePages(r: Reserved, pg: nat)
    requires r.Start() < r.End()
    ensures r.First() <= pg < r.First() + r.Pages() <==> r.Holds(pg * PAGE)
    ensures r.First() * PAGE + r.Pages() * PAGE == r.End()
  {
    PageInWindow(r.Start(), r.End() - r.Start(), pg);
  }

  /** Two ranges meet exactly when they have a page in common. */
  lemma ShareSomething(a: Reserved, b: Reserved) returns (pg: nat)
    requires !ShareNothing(a, b) && a.Start() < a.End() && b.Start() < b.End()
    ensures a.Holds(pg * PAGE) && b.Holds(pg * PAGE)
  {
    pg := Max(a.base / PAGE, b.base / PAGE);
  }

  lemma MeetsNoneIfUnmapped(pages: map<nat, nat>, ranges: seq<Reserved>, limit: nat, r: Reserved, i: nat)
    requires Identity(pages, ranges, limit) && Accepted(r, limit) && i < |ranges| && Accepted(ranges[i], limit)
    requires Unmapped(pages, r.First(), r.Pages())
    ensures ShareNothing(ranges[i], r)
  {
    if !ShareNothing(ranges[i], r) {
      var pg := ShareSomething(ranges[i], r);
      RangePages(r, pg);
      assert InAccepted(ranges, limit, pg);
    }
  }

  /** The next range meets one of those before it exactly when one of its pages is mapped already. */
  lemma MeetsNone(pages: map<nat, nat>, ranges: seq<Reserved>, limit: nat, r: Reserved)
    requires Identity(pages, ranges, limit) && Accepted(r, limit)
    ensures Unmapped(pages, r.First(), r.Pages()) <==>
            (forall i | 0 <= i < |ranges| && Accepted(ranges[i], limit) :: ShareNothing(ranges[i], r))
  {
    if Unmapped(pages, r.First(), r.Pages()) {
      forall i | 0 <= i < |ranges| && Accepted(ranges[i], limit) ensures ShareNothing(ranges[i], r) {
        MeetsNoneIfUnmapped(pages, ranges, limit, r, i);
      }
    } else {
      var pg :| r.First() <= pg < r.First() + r.Pages() && pg in pages;
      RangePages(r, pg);
      var i :| 0 <= i < |ranges| && Accepted(ranges[i], limit) && ranges[i].Holds(pg * PAGE);
      assert !ShareNothing(ranges[i], r);
    }
  }

  lemma NextRangeApart(ranges: seq<Reserved>, limit: nat, r: Reserved)
    requires RangesApart(ranges, limit) && Accepted(r, limit)
    ensures RangesApart(ranges + [r], limit) <==>
            (forall i | 0 <= i < |ranges| && Accepted(ranges[i], limit) :: ShareNothing(ranges[i], r))
  {
    var all := ranges + [r];
    if RangesApart(all, limit) {
      forall i | 0 <= i < |ranges| && Accepted(ranges[i], limit) ensures ShareNothing(ranges[i], r) {
        assert all[i] == ranges[i] && all[|ranges|] == r;
        assert ShareNothing(all[i], all[|ranges|]);
      }
    } else {
      var i, j :| 0 <= i < j < |all| && Accepted(all[i], limit) && Accepted(all[j], limit)
        && !ShareNothing(all[i], all[j]);
      assert j < |ranges| ==> ShareNothing(ranges[i], ranges[j]);
    }
  }

  /** When the next range can be mapped, in terms of the ranges and of the frames there were. */
  lemma RangeOutcome(level: nat, ranges: seq<Reserved>, limit: nat, r: Reserved, tables: set<Node>, had: nat,
                     pages: map<nat, nat>, keys: set<Node>, left: nat, first: nat, n: nat)
    requires Identity(pages, ranges, limit) && RangesApart(ranges, limit) && Accepted(r, limit)
    requires keys == tables + AllTables(level, ranges, limit) && had - left == StartTables(level, ranges, limit, tables)
    requires first == r.First() && n == r.Pages()
    ensures first * PAGE + n * PAGE == r.End()
    ensures Unmapped(pages, first, n) && Needed(keys, level, first, n) <= left <==>
            RangesApart(ranges + [r], limit) && StartTables(level, ranges + [r], limit, tables) <= had
  {
    RangePages(r, 0);
    StartTablesStep(level, ranges, limit, r, tables, keys);
    MeetsNone(pages, ranges, limit, r);
    NextRangeApart(ranges, limit, r);
  }

  /** What there is once it is mapped. */
  lemma RangeMapped(level: nat, ranges: seq<Reserved>, limit: nat, r: Reserved, tables: set<Node>, had: nat,
                    before: map<nat, nat>, keys: set<Node>, left: nat, first: nat, n: nat,
                    pages: map<nat, nat>, more: set<Node>, less: nat)
    requires Identity(before, ranges, limit) && Accepted(r, limit)
    requires keys == tables + AllTables(level, ranges, limit) && had - left == StartTables(level, ranges, limit, tables)
    requires first == r.First() && n == r.Pages()
    requires pages == Extend(before, first, first * PAGE, n)
    requires more == keys + RunTables(level, first, n) && left - less == Needed(keys, level, first, n)
    ensures Identity(pages, ranges + [r], limit)
    ensures more == tables + AllTables(level, ranges + [r], limit)
    ensures had - less == StartTables(level, ranges + [r], limit, tables)
  {
    StartTablesStep(level, ranges, limit, r, tables, keys);
    IdentityStep(before, ranges, limit, r);
  }

  /** The accepted ranges share no page and the frames last for the tables they need. */
  ghost predicate StartsUp(level: nat, ranges: seq<Reserved>, limit: nat, tables: set<Node>, had: nat) {
    RangesApart(ranges, limit) && StartTables(level, ranges, limit, tables) <= had
  }

  lemma FailsEarly(level: nat, ranges: seq<Reserved>, limit: nat, k: nat, tables: set<Node>, had: nat)
    requires k <= |ranges| && !StartsUp(level, ranges[..k], limit, tables, had)
    ensures !StartsUp(level, ranges, limit, tables, had)
  {
    StartTablesGrow(level, ranges, limit, k, tables);
    if RangesApart(ranges, limit) {
      forall i, j | 0 <= i < j < k && Accepted(ranges[i], limit) && Accepted(ranges[j], limit)
        ensures ShareNothing(ranges[..k][i], ranges[..k][j])
      {
        assert ShareNothing(ranges[i], ranges[j]);
      }
    }
  }

  /** Below the limit pages can be mapped to themselves exactly when none is mapped. */
  lemma OwnPagesMappable(pages: map<nat, nat>, first: nat, n: nat, agaw: Agaw)
    requires first * PAGE + n * PAGE <= agaw.MaxIova() + 1
    ensures first * PAGE / PAGE == first && first * PAGE % PAGE == 0
    ensures Mappable(pages, first * PAGE, first * PAGE, n, agaw) <==> Unmapped(pages, first, n)
  {
    var base := first * PAGE;
    forall p | 0 <= p < n ensures PageMappable(pages, base, base, p, agaw) <==> first + p !in pages {
    }
    if Mappable(pages, base, base, n, agaw) {
      forall pg | first <= pg < first + n ensures pg !in pages {
        assert PageMappable(pages, base, base, pg - first, agaw);
      }
    }
  }

  predicate HasFramebuffer(fb: Option<(nat, nat)>) {
    fb.Some? && fb.value.0 != 0 && fb.value.1 != 0
  }

  /** The pages of a framebuffer given as base and size, as the reserved range `init` adds. */
  function FramebufferRange(base: nat, size: nat): Reserved {
    Reserved(base / PAGE * PAGE, if base + size > 0 then RoundUp(base + size) - 1 else 0)
  }

  /** The ranges start-up reserves: those of the firmware and the framebuffer. */
  function Effective(rmrrs: seq<Reserved>, fb: Option<(nat, nat)>): seq<Reserved> {
    rmrrs + if HasFramebuffer(fb) then [FramebufferRange(fb.value.0, fb.value.1)] else []
  }

  /** No two firmware ranges share a page, the framebuffer is in range, and the frames last for all tables. */
  ghost predicate CanStart(
    level: nat, rmrrs: seq<Reserved>, fb: Option<(nat, nat)>, limit: nat, tables: set<Node>, had: nat)
  {
    && RangesApart(rmrrs, limit)
    && (HasFramebuffer(fb) ==> Accepted(FramebufferRange(fb.value.0, fb.value.1), limit))
    && StartTables(level, Effective(rmrrs, fb), limit, tables) <= had
  }

  lemma NoFirmwareNoStart(
    level: nat, rmrrs: seq<Reserved>, fb: Option<(nat, nat)>, limit: nat, tables: set<Node>, had: nat)
    requires !StartsUp(level, rmrrs, limit, tables, had)
    ensures !CanStart(level, rmrrs, fb, limit, tables, had)
  {
    assert Effective(rmrrs, fb)[..|rmrrs|] == rmrrs;
    StartTablesGrow(level, Effective(rmrrs, fb), limit, |rmrrs|, tables);
  }

  lemma FirmwareAlone(
    level: nat, rmrrs: seq<Reserved>, fb: Option<(nat, nat)>, limit: nat, tables: set<Node>, had: nat)
    requires StartsUp(level, rmrrs, limit, tables, had) && !HasFramebuffer(fb)
    ensures CanStart(level, rmrrs, fb, limit, tables, had) && Effective(rmrrs, fb) == rmrrs
  {
    assert Effective(rmrrs, fb) == rmrrs;
  }

  /** The range is accepted and there are frames for the tables it still needs. */
  ghost predicate Affordable(level: nat, r: Reserved, limit: nat, keys: set<Node>, left: nat) {
    Accepted(r, limit) && Needed(keys, level, r.First(), r.Pages()) <= left
  }

  /** With the firmware ranges mapped, what is left to be had for the framebuffer. */
  lemma FramebufferOutcome(
    level: nat, rmrrs: seq<Reserved>, fb: Option<(nat, nat)>, limit: nat, tables: set<Node>, had: nat,
    keys: set<Node>, left: nat)
    requires StartsUp(level, rmrrs, limit, tables, had) && HasFramebuffer(fb)
    requires keys == tables + AllTables(level, rmrrs, limit) && had - left == StartTables(level, rmrrs, limit, tables)
    ensures var r := FramebufferRange(fb.value.0, fb.value.1);
            CanStart(level, rmrrs, fb, limit, tables, had) <==> Affordable(level, r, limit, keys, left)
  {
    var r := FramebufferRange(fb.value.0, fb.value.1);
    if Accepted(r, limit) {
      StartTablesStep(level, rmrrs, limit, r, tables, keys);
    }
  }

  // ── Start-up, byte by byte ─────────────────────────────────────────

  /** The page of `x` lies between the first and the last page of the range, and the range below the limit. */
  predicate TakesIn(base: nat, last: nat, limit: nat, x: nat) {
    base / PAGE <= x / PAGE <= last / PAGE < limit / PAGE
  }

  lemma AcceptedTakesIn(r: Reserved, limit: nat, x: nat)
    requires limit < WORD_LIMIT
    ensures Accepted(r, limit) && r.Holds(x / PAGE * PAGE) <==> TakesIn(r.base, r.limit, limit, x)
  {
  }

  lemma FramebufferTakesIn(base: nat, size: nat, limit: nat, x: nat)
    requires size > 0
    ensures var r := FramebufferRange(base, size);
            TakesIn(r.base, r.limit, limit, x) <==> TakesIn(base, base + size - 1, limit, x)
  {
    var n := (base + size + PAGE - 1) / PAGE;
    RoundUpPages(base + size, n);
    PageBefore(n);
    LastPage(base + size - 1, n);
    PageStart(base);
  }

  lemma PageBefore(n: nat)
    requires n > 0
    ensures (n * PAGE - 1) / PAGE == n - 1
  {
  }

  lemma PageStart(base: nat)
    ensures base / PAGE * PAGE / PAGE == base / PAGE
  {
  }

  /** A byte is taken in by a firmware range or by the framebuffer. */
  ghost predicate StartByte(rmrrs: seq<Reserved>, fb: Option<(nat, nat)>, limit: nat, x: nat) {
    || (exists i | 0 <= i < |rmrrs| :: TakesIn(rmrrs[i].base, rmrrs[i].limit, limit, x))
    || (HasFramebuffer(fb) && TakesIn(fb.value.0, fb.value.0 + fb.value.1 - 1, limit, x))
  }

  /** After start-up exactly the bytes of the pages of those ranges translate, each to itself. */
  lemma StartTranslates(pages: map<nat, nat>, rmrrs: seq<Reserved>, fb: Option<(nat, nat)>, limit: nat, x: nat)
    requires Identity(pages, Effective(rmrrs, fb), limit) && limit < WORD_LIMIT
    ensures Lookup(pages, x) == if StartByte(rmrrs, fb, limit, x) then Some(x) else None
  {
    SameRanges(rmrrs, fb, limit, x);
  }

  lemma SameRanges(rmrrs: seq<Reserved>, fb: Option<(nat, nat)>, limit: nat, x: nat)
    requires limit < WORD_LIMIT
    ensures InAccepted(Effective(rmrrs, fb), limit, x / PAGE) <==> StartByte(rmrrs, fb, limit, x)
  {
    var ranges, pg := Effective(rmrrs, fb), x / PAGE;
    if InAccepted(ranges, limit, pg) {
      var i :| 0 <= i < |ranges| && Accepted(ranges[i], limit) && ranges[i].Holds(pg * PAGE);
      AcceptedTakesIn(ranges[i], limit, x);
      if i == |rmrrs| {
        FramebufferTakesIn(fb.value.0, fb.value.1, limit, x);
      } else {
        assert ranges[i] == rmrrs[i];
      }
    } else {
      forall i | 0 <= i < |rmrrs| ensures !TakesIn(rmrrs[i].base, rmrrs[i].limit, limit, x) {
        assert ranges[i] == rmrrs[i];
        AcceptedTakesIn(ranges[i], limit, x);
      }
      if HasFramebuffer(fb) {
        assert ranges[|rmrrs|] == FramebufferRange(fb.value.0, fb.value.1);
        AcceptedTakesIn(ranges[|rmrrs|], limit, x);
        FramebufferTakesIn(fb.value.0, fb.value.1, limit, x);
      }
    }
  }

  lemma FramebufferEnds(base: nat, size: nat)
    requires base + size > 0
    ensures FramebufferRange(base, size).Start() == base / PAGE * PAGE
    ensures FramebufferRange(base, size).End() == RoundUp(base + size)
  {
  }

  lemma StartsTight(s: State)
    requires s.next > 0 && s.next % PAGE == 0 && s.free == [] && s.live == map[]
    requires Identity(s.pages, s.reserved, s.limit) && s.fixed == s.pages.Keys
    ensures Inv(s) && Tight(s)
  {
    forall pg: nat
      ensures !IsLive(s.live, pg)
    {
    }
    forall pg | pg in s.fixed
      ensures exists i | 0 <= i < |s.reserved| :: s.reserved[i].Holds(pg * PAGE)
    {
      assert InAccepted(s.reserved, s.limit, pg);
    }
  }

  class Domain {
    const table: PageTable
    const windows: FreeIovaWindows
    const limit: nat
    const allowSnoop: bool
    var next: nat
    var reserved: seq<Reserved>
    ghost var live: map<nat, Mapping>
    ghost var fixed: set<nat>

    ghost predicate Parts()
      reads this, table, windows, windows.entries
    {
      && table.Valid() && windows.Valid()
      && limit <= table.agaw.MaxIova() + 1
    }

    ghost function View(): State
      requires windows.len <= windows.entries.Length
      reads this, table, windows, windows.entries
    {
      State(limit, next, windows.Contents(), table.pages, live, reserved, fixed)
    }

    ghost predicate Valid()
      reads this, table, windows, windows.entries
    {
      Parts() && Inv(View())
    }

    constructor (table: PageTable, mgaw: nat, haw: nat, allowSnoop: bool)
      requires table.Valid() && table.pages == map[]
      ensures table.Snoops(allowSnoop)
      ensures Valid() && Tight(View())
      ensures this.table == table && fresh(windows) && fresh(windows.entries)
      ensures View() == State(DomainLimit(table.agaw, mgaw, haw), PAGE, [], map[], map[], [], {})
    {
      this.table := table;
      this.windows := new FreeIovaWindows();
      this.limit := DomainLimit(table.agaw, mgaw, haw);
      this.allowSnoop := allowSnoop;
      this.next := PAGE;
      this.reserved := [];
      this.live := map[];
      this.fixed := {};
    }

    /** First reserved range the window overlaps; `overflow` when a range met before has no end. */
    method Obstacle(w: Window) returns (k: nat, overflow: bool)
      ensures k <= |reserved|
      ensures overflow ==> !Representable(reserved)
      ensures !overflow && k < |reserved| ==> reserved[k].Overlaps(w)
      ensures !overflow && k == |reserved| ==> NoOverlap(reserved, w)
    {
      overflow := false;
      k := 0;
      while k < |reserved|
        invariant k <= |reserved|
        invariant forall i | 0 <= i < k :: !reserved[i].Overlaps(w)
      {
        if reserved[k].End() >= WORD_LIMIT {
          overflow := true;
          return;
        }
        if w.base < reserved[k].End() && reserved[k].Start() < w.End() {
          return;
        }
        k := k + 1;
      }
    }

    /** The bump allocator: first fit at or above the cursor. */
    method Bump(size: nat, max: nat) returns (r: Option<nat>)
      requires size > 0 && next > 0 && next % PAGE == 0
      modifies this`next
      ensures r.Some? ==> FirstFit(old(next), reserved, size, max, r.value) && next == r.value + size
      ensures r.None? ==> next == old(next)
      ensures r.None? && |reserved| < MAX_ATTEMPTS && Representable(reserved) ==>
                forall va | old(next) <= va && va % PAGE == 0 && va + size <= max ::
                  !NoOverlap(reserved, Window(va, size))
    {
      var candidate := next;
      var attempts := 0;
      while attempts < MAX_ATTEMPTS
        invariant next == old(next) && next <= candidate && candidate % PAGE == 0
        invariant NothingBelow(reserved, size, next, candidate)
        invariant 0 <= attempts <= Passed(reserved, candidate)
      {
        if candidate + size > max {
          return None;
        }
        var k, overflow := Obstacle(Window(candidate, size));
        if overflow {
          return None;
        }
        if k == |reserved| {
          next := candidate + size;
          return Some(candidate);
        }
        SkipRange(reserved, size, next, candidate, k);
        PassedGrows(reserved, candidate, reserved[k].End());
        candidate := reserved[k].End();
        attempts := attempts + 1;
      }
      PassedGrows(reserved, candidate, candidate);
      return None;
    }

    /** No window of `size` bytes below `max`: none on the free list, and none past the cursor clear of the ranges. */
    ghost predicate NoRoom(size: nat, max: nat)
      requires Parts()
      reads this, table, windows, windows.entries
    {
      && NoneFits(windows.Contents(), size, max)
      && forall va | next <= va && va % PAGE == 0 && va + size <= max :: !NoOverlap(reserved, Window(va, size))
    }

    /** The free list first, then the bump cursor. */
    method AllocIova(size: nat, max: nat) returns (r: Option<nat>, ghost bumped: bool)
      requires Valid() && max <= limit
      modifies this`next, windows, windows.entries
      ensures Parts()
      ensures r.Some? ==> Handed(old(View()), RoundUp(size), max, r.value, bumped, windows.Contents(), next)
      ensures r.None? ==> View() == old(View())
      ensures r.None? && 0 < size && RoundUp(size) < WORD_LIMIT && |reserved| < MAX_ATTEMPTS
              && Representable(reserved) ==>
                old(NoRoom(RoundUp(size), max))
    {
      bumped := false;
      if size == 0 || size + PAGE - 1 >= WORD_LIMIT {
        return None, bumped;
      }
      var pages := RoundUp(size);
      r := windows.Take(pages, max);
      if r.None? {
        bumped := true;
        r := Bump(pages, max);
      }
    }

    /** There are frames enough for every table missing on the way to a page of the window. */
    ghost predicate FramesLast(va: nat, size: nat)
      reads this, table
    {
      Needed(table.nodes.Keys, table.agaw.Levels() - 1, va / PAGE, size / PAGE) <= |table.supply|
    }

    /** Map the pages of a window just handed out; undo the allocation when a page fails. */
    method MapWindow(va: nat, size: nat, phys: nat, cursor: nat) returns (ok: bool)
      requires Parts() && phys % PAGE == 0 && Window(va, size).Proper()
      modifies this`next, this`live, table, windows, windows.entries
      ensures old(table.Snoops(allowSnoop)) ==> table.Snoops(allowSnoop)
      ensures Parts()
      ensures View() == if ok then Mapped(old(View()), va, size, phys)
                        else Failed(old(View()).(next := cursor), va, size, old(windows.Contents()))
      ensures ok <==> Mappable(old(table.pages), va, phys, size / PAGE, table.agaw) && old(FramesLast(va, size))
    {
      var r := table.MapPages(va, phys, size / PAGE, allowSnoop);
      ok := r.Ok?;
      if ok {
        live := live[va := Mapping(size, phys)];
      } else {
        windows.Push(va, size);
        next := cursor;
      }
    }

    /** Find a window for `size` bytes and map it to the frames from `phys`; the call is one step of the domain. */
    method MapAligned(phys: nat, size: nat, max: nat, ghost span: nat) returns (r: Option<nat>, ghost e: Event)
      requires Valid() && max <= limit && phys % PAGE == 0 && span == RoundUp(size)
      modifies this`next, this`live, table, windows, windows.entries
      ensures old(table.Snoops(allowSnoop)) ==> table.Snoops(allowSnoop)
      ensures Valid() && Next(old(View()), e, View()) && !e.Unmap? && (r.Some? <==> e.Map?)
      ensures r.Some? ==> r.value == e.va && e.va + e.size <= max && e.size == span && e.phys == phys
      ensures r.None? ==> table.pages == old(table.pages)
      ensures e.Map? ==> phys + e.size <= FRAME_LIMIT && old(FramesLast(e.va, e.size))
      ensures e.Fail? && old(Tight(View())) ==>
                e.size == span && (phys + e.size > FRAME_LIMIT || !old(FramesLast(e.va, e.size)))
      ensures e.Refuse? && 0 < size && span < WORD_LIMIT && |reserved| < MAX_ATTEMPTS
              && Representable(reserved) ==>
                old(NoRoom(span, max))
    {
      e := Refuse;
      ghost var was := View();
      var cursor := next;
      ghost var bumped;
      r, bumped := AllocIova(size, max);
      if r.None? {
        return;
      }
      ghost var free, cut, frames := windows.Contents(), next, FramesLast(r.value, RoundUp(size));
      HandedFits(was, RoundUp(size), max, r.value, bumped, free, cut);
      var ok := MapWindow(r.value, RoundUp(size), phys, cursor);
      e := WindowEvent(ok, RoundUp(size), max, r.value, bumped, free, cut, phys);
      WindowStep(was, View(), ok, RoundUp(size), max, r.value, bumped, free, cut, phys, table.agaw, frames);
      if !ok {
        r := None;
      }
    }

    /** The same for bytes of any alignment: the pages they touch are mapped, and the offset in the page is kept. */
    method MapBytes(phys: nat, size: nat, max: nat, ghost span: nat) returns (r: Option<nat>, ghost e: Event)
      requires Valid() && max <= limit && size > 0 && span == Spanned(phys, size)
      modifies this`next, this`live, table, windows, windows.entries
      ensures old(table.Snoops(allowSnoop)) ==> table.Snoops(allowSnoop)
      ensures Valid() && Next(old(View()), e, View()) && !e.Unmap? && (r.Some? <==> e.Map?)
      ensures r.Some? ==> r.value == e.va + phys % PAGE && e.phys == phys - phys % PAGE
      ensures r.Some? ==> e.size == span && e.va + e.size <= max
      ensures r.None? ==> table.pages == old(table.pages)
      ensures e.Map? ==> phys - phys % PAGE + e.size <= FRAME_LIMIT && old(FramesLast(e.va, e.size))
      ensures e.Fail? && old(Tight(View())) ==>
                phys - phys % PAGE + e.size > FRAME_LIMIT || !old(FramesLast(e.va, e.size))
      ensures e.Refuse? && span < WORD_LIMIT && |reserved| < MAX_ATTEMPTS && Representable(reserved) ==>
                old(NoRoom(span, max))
    {
      var offset := phys % PAGE;
      r, e := MapAligned(phys - offset, size + offset, max, span);
      if r.Some? {
        r := Some(r.value + offset);
      }
    }

    /**
      Map `size` bytes at `phys`, of any alignment, to a fresh IOVA, below `below` when given: every byte
      is reached at its own distance from the answer, and no page is mapped but those of the bytes.
      The call is one step of the domain, whether it maps, refuses or fails half-way; it refuses only for
      want of a window, and on a tight domain a window that was found is mapped exactly when the frames
      last for the tables it needs and an entry can hold its last frame.
     */
    method MapPhysToIova(phys: nat, size: nat, below: Option<nat>) returns (r: Option<nat>, ghost e: Event)
      requires Valid() && phys < WORD_LIMIT && size < WORD_LIMIT
      modifies this`next, this`live, table, windows, windows.entries
      ensures old(table.Snoops(allowSnoop)) ==> table.Snoops(allowSnoop)
      ensures Valid() && Next(old(View()), e, View()) && !e.Unmap? && (r.Some? <==> e.Map?)
      ensures r.Some? ==> r.value == e.va + phys % PAGE && e.phys == phys - phys % PAGE
      ensures r.Some? ==> e.size == Spanned(phys, size) && (below.Some? ==> e.va + e.size <= below.value)
      ensures r.Some? ==> LeadsTo(table.pages, r.value, phys, size)
      ensures r.Some? ==> OnlyThese(old(table.pages), table.pages, r.value, size)
      ensures r.None? ==> table.pages == old(table.pages)
      ensures e.Map? ==> phys - phys % PAGE + e.size <= FRAME_LIMIT && old(FramesLast(e.va, e.size))
      ensures e.Fail? && old(Tight(View())) ==>
                phys - phys % PAGE + e.size > FRAME_LIMIT || !old(FramesLast(e.va, e.size))
      ensures e.Refuse? && 0 < size && Spanned(phys, size) < WORD_LIMIT && (below.Some? ==> below.value <= limit)
              && |reserved| < MAX_ATTEMPTS && Representable(reserved) ==>
                old(NoRoom(Spanned(phys, size), if below.Some? then below.value else limit))
    {
      ghost var span := Spanned(phys, size);
      e := Refuse;
      r := None;
      SpannedBound(phys, size);
      if size == 0 || size + phys % PAGE >= WORD_LIMIT || (below.Some? && below.value > limit) {
        return;
      }
      ghost var was := View();
      r, e := MapBytes(phys, size, if below.Some? then below.value else limit, span);
      if r.Some? {
        MapsBuffer(was, e, View(), phys, size, r.value, table.pages);
      }
    }

    method UnmapIova(iova: nat, size: nat) returns (ok: bool)
      requires Valid()
      modifies this`live, table, windows, windows.entries
      ensures old(table.Snoops(allowSnoop)) ==> table.Snoops(allowSnoop)
      ensures Parts()
      ensures size == 0 || iova % PAGE != 0 || size % PAGE != 0 ==> !ok && View() == old(View())
      ensures size > 0 && iova % PAGE == 0 && size % PAGE == 0 ==>
                && (ok <==> forall pg | iova / PAGE <= pg < iova / PAGE + size / PAGE :: pg in old(table.pages))
                && table.pages == Shrink(old(table.pages), iova / PAGE, size / PAGE)
      ensures iova in old(live) && old(live[iova].size) == size ==>
                ok && Valid() && Next(old(View()), Unmap(iova), View())
    {
      if size == 0 || iova % PAGE != 0 || size % PAGE != 0 {
        return false;
      }
      ghost var was := View();
      AllMappedMeans(table.pages, iova / PAGE, size / PAGE);
      ok := table.ClearPages(iova, size / PAGE);
      windows.Push(iova, size);
      if iova in live && live[iova].size == size {
        live := live - {iova};
        LiveMapped(was, iova);
        NextKeepsInv(was, Unmap(iova), View());
      }
    }

    /** Walk for the page and put the offset back. */
    method WalkPage(iova: nat) returns (r: Option<nat>)
      requires table.Valid()
      ensures r == Lookup(table.pages, iova)
    {
      FramesAligned(table.pages, table.mem, table.nodes, table.agaw, iova / PAGE);
      LookupOffset(table.pages, iova);
      r := table.Translate(iova - iova % PAGE);
      if r.Some? {
        r := Some(r.value - r.value % PAGE + iova % PAGE);
      }
    }

    method TranslateIova(iova: nat) returns (r: Option<nat>)
      requires Valid()
      ensures Leads(live, fixed, iova, r)
    {
      LeadsEverywhere(View(), iova);
      r := WalkPage(iova);
    }

    /**
      Identity-map pages `first .. first + n`, giving up at the first page that cannot be mapped: one that
      is mapped already or for whose tables there is no frame.
     */
    method MapIdentity(first: nat, n: nat) returns (ok: bool)
      requires table.Valid() && first * PAGE + n * PAGE <= table.agaw.MaxIova() + 1
      modifies table
      ensures old(table.Snoops(allowSnoop)) ==> table.Snoops(allowSnoop)
      ensures table.Valid()
      ensures ok ==> table.pages == Extend(old(table.pages), first, first * PAGE, n)
      ensures ok ==> table.Spent(old(table.nodes.Keys), old(|table.supply|), first, n)
      ensures ok <==> Unmapped(old(table.pages), first, n)
                      && old(Needed(table.nodes.Keys, table.agaw.Levels() - 1, first, n)) <= old(|table.supply|)
    {
      OwnPagesMappable(table.pages, first, n, table.agaw);
      var base := first * PAGE;
      var r, done := table.MapEach(base, base, n, allowSnoop);
      ok := r.Ok?;
    }

    /** The tables hung so far are those of the ranges mapped so far. */
    ghost predicate Started(ranges: seq<Reserved>, tables: set<Node>, had: nat)
      reads this, table
    {
      && table.nodes.Keys == tables + AllTables(table.agaw.Levels() - 1, ranges, limit)
      && had - |table.supply| == StartTables(table.agaw.Levels() - 1, ranges, limit, tables)
    }

    /** One accepted range: mapped exactly when it meets none of those before and the frames last. */
    method MapRangeToItself(r: Reserved, ghost ranges: seq<Reserved>, ghost tables: set<Node>, ghost had: nat)
      returns (ok: bool)
      requires table.Valid() && Accepted(r, limit) && limit <= table.agaw.MaxIova() + 1
      requires Identity(table.pages, ranges, limit) && RangesApart(ranges, limit) && Started(ranges, tables, had)
      modifies table
      ensures old(table.Snoops(allowSnoop)) ==> table.Snoops(allowSnoop)
      ensures table.Valid()
      ensures ok ==> Identity(table.pages, ranges + [r], limit) && Started(ranges + [r], tables, had)
      ensures ok <==> StartsUp(table.agaw.Levels() - 1, ranges + [r], limit, tables, had)
    {
      var first, n := r.First(), r.Pages();
      ghost var level, before, keys, left := table.agaw.Levels() - 1, table.pages, table.nodes.Keys, |table.supply|;
      RangeOutcome(level, ranges, limit, r, tables, had, before, keys, left, first, n);
      ok := MapIdentity(first, n);
      if ok {
        RangeMapped(level, ranges, limit, r, tables, had, before, keys, left, first, n,
                    table.pages, table.nodes.Keys, |table.supply|);
      }
    }

    /** One firmware range: skipped, or mapped with the cursor moving past it. */
    method TakeFirmware(r: Reserved, ghost ranges: seq<Reserved>, ghost tables: set<Node>, ghost had: nat)
      returns (ok: bool)
      requires table.Valid() && limit <= table.agaw.MaxIova() + 1 && next > 0 && next % PAGE == 0
      requires Identity(table.pages, ranges, limit) && RangesApart(ranges, limit) && Started(ranges, tables, had)
      modifies this`next, table
      ensures old(table.Snoops(allowSnoop)) ==> table.Snoops(allowSnoop)
      ensures table.Valid() && next > 0 && next % PAGE == 0
      ensures ok ==> Identity(table.pages, ranges + [r], limit) && Started(ranges + [r], tables, had)
      ensures ok <==> StartsUp(table.agaw.Levels() - 1, ranges + [r], limit, tables, had)
    {
      if r.Start() < r.End() < WORD_LIMIT && r.End() <= limit {
        ok := MapRangeToItself(r, ranges, tables, had);
        EndAligned(r);
        if ok && next <= r.End() && r.End() < limit {
          next := r.End();
        }
      } else {
        SkippedRange(table.agaw.Levels() - 1, ranges, limit, r, tables);
        IdentityStep(table.pages, ranges, limit, r);
        ok := true;
      }
    }

    /**
      Identity-map the accepted firmware ranges; the cursor moves past each. This succeeds exactly when no two
      of them share a page and the frames last for their tables.
     */
    method MapFirmware(rmrrs: seq<Reserved>) returns (ok: bool)
      requires table.Valid() && table.pages == map[] && next > 0 && next % PAGE == 0
      requires limit <= table.agaw.MaxIova() + 1
      modifies this`next, table
      ensures old(table.Snoops(allowSnoop)) ==> table.Snoops(allowSnoop)
      ensures table.Valid() && next > 0 && next % PAGE == 0
      ensures ok ==> Identity(table.pages, rmrrs, limit)
      ensures ok ==> Started(rmrrs, old(table.nodes.Keys), old(|table.supply|))
      ensures ok <==> StartsUp(table.agaw.Levels() - 1, rmrrs, limit, old(table.nodes.Keys), old(|table.supply|))
    {
      ghost var tables, had := table.nodes.Keys, |table.supply|;
      var k := 0;
      while k < |rmrrs|
        invariant old(table.Snoops(allowSnoop)) ==> table.Snoops(allowSnoop)
        invariant 0 <= k <= |rmrrs|
        invariant table.Valid() && next > 0 && next % PAGE == 0
        invariant Identity(table.pages, rmrrs[..k], limit)
        invariant RangesApart(rmrrs[..k], limit) && Started(rmrrs[..k], tables, had)
      {
        assert rmrrs[..k + 1] == rmrrs[..k] + [rmrrs[k]];
        ok := TakeFirmware(rmrrs[k], rmrrs[..k], tables, had);
        if !ok {
          FailsEarly(table.agaw.Levels() - 1, rmrrs, limit, k + 1, tables, had);
          return;
        }
        k := k + 1;
      }
      assert rmrrs[..k] == rmrrs;
      return true;
    }

    /** One page of the framebuffer: left alone when it is mapped already. */
    method MapOwnPage(first: nat, p: nat, ghost before: map<nat, nat>, ghost tables: set<Node>, ghost had: nat)
      returns (ok: bool, mismatch: bool)
      requires table.Valid() && Covered(before, table.pages, first, p) && (first + p) * PAGE <= table.agaw.MaxIova()
      requires table.Spent(tables, had, first, p)
      modifies table
      ensures old(table.Snoops(allowSnoop)) ==> table.Snoops(allowSnoop)
      ensures table.Valid() && !mismatch
      ensures ok ==> Covered(before, table.pages, first, p + 1) && table.Spent(tables, had, first, p + 1)
      ensures ok <==> Needed(tables, table.agaw.Levels() - 1, first, p + 1) <= had
    {
      var addr := (first + p) * PAGE;
      ghost var nodes, left := table.nodes, |table.supply|;
      PageOffset(0, first + p);
      CoveredStep(before, table.pages, first, p);
      ok, mismatch := table.MapOwn(addr, allowSnoop);
      SpentStep(tables, had, table.agaw.Levels() - 1, first, p, addr, nodes, left, table.nodes.Keys, |table.supply|);
    }

    /** Identity-map the pages from `first` that are not mapped yet, on top of an identity map. */
    method MapOwnPages(first: nat, n: nat, verify: bool) returns (ok: bool, mismatch: bool)
      requires table.Valid() && Covered(table.pages, table.pages, first, 0)
      requires first * PAGE + n * PAGE <= table.agaw.MaxIova() + 1
      modifies table
      ensures old(table.Snoops(allowSnoop)) ==> table.Snoops(allowSnoop)
      ensures table.Valid() && !mismatch
      ensures ok ==> Covered(old(table.pages), table.pages, first, n)
      ensures ok <==> old(Needed(table.nodes.Keys, table.agaw.Levels() - 1, first, n)) <= old(|table.supply|)
    {
      ok, mismatch := true, false;
      ghost var before, tables, had := table.pages, table.nodes.Keys, |table.supply|;
      var p := 0;
      while p < n
        invariant old(table.Snoops(allowSnoop)) ==> table.Snoops(allowSnoop)
        invariant 0 <= p <= n && !mismatch
        invariant table.Valid() && Covered(before, table.pages, first, p) && table.Spent(tables, had, first, p)
      {
        var differs;
        ok, differs := MapOwnPage(first, p, before, tables, had);
        mismatch := mismatch || differs;
        if !ok || (mismatch && verify) {
          NeededGrows(tables, table.agaw.Levels() - 1, first, p + 1, n);
          return false, mismatch;
        }
        p := p + 1;
      }
      ok := true;
    }

    /**
      Identity-map the framebuffer, skipping pages an overlapping firmware range already covers: this succeeds
      exactly when the frames last for the tables that are missing.
     */
    method MapFramebuffer(r: Reserved, verify: bool, ghost rmrrs: seq<Reserved>)
      returns (ok: bool, mismatch: bool)
      requires table.Valid() && Identity(table.pages, rmrrs, limit)
      requires limit <= table.agaw.MaxIova() + 1 && Accepted(r, limit)
      modifies table
      ensures old(table.Snoops(allowSnoop)) ==> table.Snoops(allowSnoop)
      ensures table.Valid()
      ensures ok ==> Identity(table.pages, rmrrs + [r], limit)
      ensures ok <==> Affordable(table.agaw.Levels() - 1, r, limit, old(table.nodes.Keys), old(|table.supply|))
      ensures !mismatch
    {
      ghost var before := table.pages;
      var first, n := r.First(), r.Pages();
      FramebufferPages(before, rmrrs, limit, r, first, n);
      ok, mismatch := MapOwnPages(first, n, verify);
      CoveredIdentity(before, table.pages, rmrrs, limit, r, first, n);
    }

    /** Check the framebuffer range, then map it; `r` is the range to reserve. */
    method AddFramebuffer(base: nat, size: nat, verify: bool, ghost rmrrs: seq<Reserved>)
      returns (ok: bool, r: Reserved)
      requires table.Valid() && Identity(table.pages, rmrrs, limit) && limit <= table.agaw.MaxIova() + 1
      requires 0 < base < WORD_LIMIT && 0 < size < WORD_LIMIT
      modifies table
      ensures old(table.Snoops(allowSnoop)) ==> table.Snoops(allowSnoop)
      ensures table.Valid() && r == FramebufferRange(base, size)
      ensures ok ==> Identity(table.pages, rmrrs + [r], limit)
      ensures ok <==> Affordable(table.agaw.Levels() - 1, r, limit, old(table.nodes.Keys), old(|table.supply|))
    {
      var start := base / PAGE * PAGE;
      var rawEnd := if base + size < WORD_LIMIT then base + size else 0;
      var end := RoundUp(rawEnd);
      r := FramebufferRange(base, size);
      FramebufferEnds(base, size);
      if end <= start || start >= limit || end > limit {
        ok := false;
        return;
      }
      var mismatch: bool;
      ok, mismatch := MapFramebuffer(r, verify, rmrrs);
    }

    /** Map the firmware ranges and then the framebuffer; `effective` are the ranges to reserve. */
    method MapStartRanges(rmrrs: seq<Reserved>, fb: Option<(nat, nat)>, verify: bool)
      returns (ok: bool, effective: seq<Reserved>)
      requires table.Valid() && table.pages == map[] && next > 0 && next % PAGE == 0
      requires limit <= table.agaw.MaxIova() + 1
      requires fb.Some? ==> fb.value.0 < WORD_LIMIT && fb.value.1 < WORD_LIMIT
      modifies this`next, table
      ensures old(table.Snoops(allowSnoop)) ==> table.Snoops(allowSnoop)
      ensures table.Valid() && next > 0 && next % PAGE == 0
      ensures ok <==> CanStart(table.agaw.Levels() - 1, rmrrs, fb, limit, old(table.nodes.Keys), old(|table.supply|))
      ensures ok ==> effective == Effective(rmrrs, fb) && Identity(table.pages, effective, limit)
    {
      ghost var level, tables, had := table.agaw.Levels() - 1, table.nodes.Keys, |table.supply|;
      effective := rmrrs;
      ok := MapFirmware(rmrrs);
      if !ok {
        NoFirmwareNoStart(level, rmrrs, fb, limit, tables, had);
      } else if fb.Some? && fb.value.1 != 0 && fb.value.0 != 0 {
        FramebufferOutcome(level, rmrrs, fb, limit, tables, had, table.nodes.Keys, |table.supply|);
        var r: Reserved;
        ok, r := AddFramebuffer(fb.value.0, fb.value.1, verify, rmrrs);
        effective := rmrrs + [r];
      } else {
        FirmwareAlone(level, rmrrs, fb, limit, tables, had);
      }
    }

    /**
      Identity mappings made before translation is enabled. On success every page of each accepted
      firmware range and of the framebuffer translates to itself, all of them are reserved, and the
      allocator is tight, which is where the runs of `IovaDomain` start. It succeeds exactly when no two
      firmware ranges share a page, the framebuffer is in range and the frames last; the framebuffer may
      overlap a firmware range.
     */
    method Init(rmrrs: seq<Reserved>, fb: Option<(nat, nat)>, verify: bool) returns (ok: bool)
      requires Parts() && View() == State(limit, PAGE, [], map[], map[], [], {})
      requires fb.Some? ==> fb.value.0 < WORD_LIMIT && fb.value.1 < WORD_LIMIT
      modifies this`next, this`reserved, this`fixed, table
      ensures old(table.Snoops(allowSnoop)) ==> table.Snoops(allowSnoop)
      ensures ok <==> CanStart(table.agaw.Levels() - 1, rmrrs, fb, limit, old(table.nodes.Keys), old(|table.supply|))
      ensures ok ==> Valid() && Tight(View()) && live == map[]
      ensures ok ==> reserved == Effective(rmrrs, fb)
      ensures ok ==> fixed == table.pages.Keys && Identity(table.pages, reserved, limit)
    {
      var effective: seq<Reserved>;
      ok, effective := MapStartRanges(rmrrs, fb, verify);
      if ok {
        reserved := effective;
        fixed := table.pages.Keys;
        StartsTight(View());
      }
    }
  }
}
