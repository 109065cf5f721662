/**
  Copy-on-write fork: the reference counts of shared frames (`mm/framecnt.rs`), the write-fault
  resolver (`mm/fault.rs`), `fork_as` (`mm/usermem.rs`) and the structural clone and teardown of a
  user page table (`mm/vmm/x86_64.rs`), as one transition system.

  Every atomic read-modify-write of a counter and every edit of a leaf entry is a step of its own,
  and any number of address spaces interleave their steps. The system is related to a much simpler
  one, in which fork copies every page at once and nothing is ever shared (`ForkRuns.Spec`).
 */
module CopyOnWrite {
  import opened Common

  /** A user page: an address space and a page number in it. */
  datatype Page = Page(space: nat, number: nat)

  /**
    What can hold a reference to a frame: a leaf entry; an entry that was cleared or repointed and
    whose reference is not dropped yet; a private copy that is not mapped yet.
   */
  datatype Ref = Leaf(at: Page) | Old(at: Page) | New(at: Page)

  /** The range of addresses a fork leaves out of the clone: the parent's capability window. */
  datatype Range = Range(lo: nat, hi: nat)

  datatype Pc =
    | Running
    | Embryo                                        // a child that is not registered yet
    | Forking(child: nat, skip: Option<Range>)      // leaves are being shared with the child
    | Unwinding(child: nat)                         // the clone failed, shares are being dropped
    | Normalizing(child: nat, frame: nat)           // `unshare` saw 2, its second exchange is pending
    | Destroying(child: nat)                        // the parent is rolled back, the child's root is torn down
    | SoleSeen(page: Page)                          // `is_sole_owner` answered true
    | Privatized(page: Page)                        // the counter was normalized
    | SharedSeen(page: Page)                        // `is_sole_owner` answered false
    | Copied(page: Page)                            // a private copy exists
    | Dropping(page: Page)                          // repointed or unmapped, the old reference is pending
    | Exiting

  /**
    `dangling` holds the entries of a failed clone that `unshare` has already released and that are
    still written in the child's tables. `limbo` holds the frames whose last reference is gone and
    that are not yet back in the allocator.
   */
  datatype State = State(
    frames: set<nat>,
    refs: map<Ref, nat>,
    writable: set<Page>,
    region: set<Page>,
    count: map<nat, nat>,
    mem: map<nat, nat>,
    free: set<nat>,
    limbo: set<nat>,
    dangling: map<Page, nat>,
    pcs: map<nat, Pc>)

  datatype Event =
    | Spawn(space: nat)
    | MapPage(page: Page, frame: nat, content: nat, rw: bool)
    | Write(page: Page, content: nat)
    | Unmap(page: Page)
    | ForkStart(space: nat, child: nat, skip: Option<Range>)
    | ForkShare(page: Page)
    | ForkCommit(space: nat)
    | ForkFail(space: nat)
    | Unshare(page: Page)
    | Normalize(space: nat)
    | Rollback(space: nat)
    | DropDangling(space: nat, entry: Page)
    | ForkAbandon(space: nat)
    | FaultSole(page: Page)
    | Privatize(space: nat)
    | MakeWritable(space: nat)
    | FaultShared(page: Page)
    | Copy(space: nat, frame: nat)
    | OutOfMemory(space: nat)
    | Repoint(space: nat)
    | Decref(page: Page)
    | Release(frame: nat)
    | ExitStart(space: nat)
    | ExitUnmap(page: Page)
    | ExitDone(space: nat)

  // ---- The counter -------------------------------------------------------------------------

  function Count(count: map<nat, nat>, frame: nat): (c: nat) {
    if frame in count then count[frame] else 0
  }

  /** `share_frame`: untracked to two owners, otherwise one more. */
  function Shared(c: nat): (r: nat) {
    if c == 0 then 2 else c + 1
  }

  /** `decref_or_free`: an untracked entry stays as it is. */
  function Dropped(c: nat): (r: nat) {
    if c == 0 then 0 else c - 1
  }

  /** `unshare`, first exchange. */
  function Unshared(c: nat): (r: nat) {
    if c >= 2 then c - 1 else c
  }

  /** `privatize`, and the second exchange of `unshare`. */
  function Normalized(c: nat): (r: nat) {
    if c == 1 then 0 else c
  }

  // ---- Steps -------------------------------------------------------------------------------

  function Swap(refs: map<Ref, nat>, r: Ref, q: Ref): (t: map<Ref, nat>)
    requires r in refs
  {
    (refs - {r})[q := refs[r]]
  }

  predicate At(s: State, a: nat, pc: Pc) {
    a in s.pcs && s.pcs[a] == pc
  }

  /** The address at which the subtree of page `n` begins, for a table entry that spans `pages` pages. */
  function Base(n: nat, pages: nat): (va: nat)
    requires pages > 0
  {
    n / pages * pages * PAGE
  }

  /** The tests `cow_walk` makes on the way down to the leaf of page `n`: three tables, then the leaf. */
  predicate Cloned(skip: Option<Range>, n: nat) {
    skip.Some? ==>
      && !(Base(n, 0x800_0000) >= skip.value.hi)
      && !(Base(n, 0x4_0000) >= skip.value.hi)
      && !(Base(n, 0x200) >= skip.value.hi)
      && !(skip.value.lo <= n * PAGE < skip.value.hi)
  }

  /** The leaves of one space. */
  predicate HasLeaf(s: State, page: Page) {
    Leaf(page) in s.refs
  }

  ghost predicate NoLeaf(s: State, a: nat) {
    forall n: nat :: !HasLeaf(s, Page(a, n))
  }

  ghost predicate NoRef(s: State, a: nat) {
    forall r | r in s.refs :: r.at.space != a
  }

  ghost predicate NoDangling(s: State, a: nat) {
    forall n: nat :: Page(a, n) !in s.dangling
  }

  /** Every leaf of the parent that the walk reaches is also a leaf of the child. */
  ghost predicate FullyShared(s: State, a: nat, c: nat, skip: Option<Range>) {
    forall n: nat :: HasLeaf(s, Page(a, n)) && Cloned(skip, n) ==> HasLeaf(s, Page(c, n))
  }

  ghost predicate Enabled(s: State, e: Event) {
    match e
    case Spawn(a) => a !in s.pcs
    case MapPage(p, f, v, rw) => At(s, p.space, Running) && !HasLeaf(s, p) && f in s.free
    case Write(p, v) => At(s, p.space, Running) && HasLeaf(s, p) && p in s.writable
    case Unmap(p) => At(s, p.space, Running) && HasLeaf(s, p)
    case ForkStart(a, c, skip) => At(s, a, Running) && c !in s.pcs
    case ForkShare(p) =>
      && p.space in s.pcs && s.pcs[p.space].Forking? && Cloned(s.pcs[p.space].skip, p.number)
      && HasLeaf(s, p) && !HasLeaf(s, Page(s.pcs[p.space].child, p.number))
    case ForkCommit(a) => a in s.pcs && s.pcs[a].Forking? && FullyShared(s, a, s.pcs[a].child, s.pcs[a].skip)
    case ForkFail(a) => a in s.pcs && s.pcs[a].Forking?
    case Unshare(p) => p.space in s.pcs && s.pcs[p.space].Unwinding? && HasLeaf(s, Page(s.pcs[p.space].child, p.number))
    case Normalize(a) => a in s.pcs && s.pcs[a].Normalizing?
    case Rollback(a) => a in s.pcs && s.pcs[a].Unwinding? && NoLeaf(s, s.pcs[a].child)
    case DropDangling(a, p) => a in s.pcs && s.pcs[a].Destroying? && p.space == s.pcs[a].child && p in s.dangling
    case ForkAbandon(a) => a in s.pcs && s.pcs[a].Destroying? && NoDangling(s, s.pcs[a].child)
    case FaultSole(p) =>
      && At(s, p.space, Running) && HasLeaf(s, p) && p in s.region && p !in s.writable
      && Count(s.count, s.refs[Leaf(p)]) <= 1
    case Privatize(a) => a in s.pcs && s.pcs[a].SoleSeen? && HasLeaf(s, s.pcs[a].page)
    case MakeWritable(a) => a in s.pcs && s.pcs[a].Privatized?
    case FaultShared(p) =>
      && At(s, p.space, Running) && HasLeaf(s, p) && p in s.region && p !in s.writable
      && Count(s.count, s.refs[Leaf(p)]) > 1
    case Copy(a, f) =>
      && a in s.pcs && s.pcs[a].SharedSeen? && HasLeaf(s, s.pcs[a].page)
      && s.refs[Leaf(s.pcs[a].page)] in s.mem && f in s.free
    case OutOfMemory(a) => a in s.pcs && s.pcs[a].SharedSeen? && s.free == {}
    case Repoint(a) =>
      && a in s.pcs && s.pcs[a].Copied?
      && HasLeaf(s, s.pcs[a].page) && New(s.pcs[a].page) in s.refs
    case Decref(p) =>
      p.space in s.pcs && (s.pcs[p.space] == Dropping(p) || s.pcs[p.space] == Exiting) && Old(p) in s.refs
    case Release(f) => f in s.limbo
    case ExitStart(a) => At(s, a, Running)
    case ExitUnmap(p) => At(s, p.space, Exiting) && HasLeaf(s, p) && Old(p) !in s.refs
    case ExitDone(a) => At(s, a, Exiting) && NoRef(s, a)
  }

  /** Dropping a reference: one atomic update; the caller that saw the last one frees the frame. */
  function Drop(s: State, f: nat): (t: State) {
    s.(count := s.count[f := Dropped(Count(s.count, f))],
       limbo := if Count(s.count, f) <= 1 then s.limbo + {f} else s.limbo)
  }

  function Without(pages: set<Page>, a: nat): (r: set<Page>) {
    set p | p in pages && p.space != a
  }

  function Of(pages: set<Page>, a: nat): (r: set<Page>) {
    set p | p in pages && p.space == a
  }

  ghost function Apply(s: State, e: Event): (t: State)
    requires Enabled(s, e)
  {
    match e
    case Spawn(a) => s.(pcs := s.pcs[a := Running])
    case MapPage(p, f, v, rw) =>
      s.(refs := s.refs[Leaf(p) := f], free := s.free - {f}, mem := s.mem[f := v],
         writable := if rw then s.writable + {p} else s.writable - {p},
         region := if rw then s.region + {p} else s.region - {p})
    case Write(p, v) => s.(mem := s.mem[s.refs[Leaf(p)] := v])
    case Unmap(p) =>
      s.(refs := Swap(s.refs, Leaf(p), Old(p)), writable := s.writable - {p}, region := s.region - {p},
         pcs := s.pcs[p.space := Dropping(p)])
    case ForkStart(a, c, skip) =>
      s.(writable := Without(s.writable, a), pcs := s.pcs[a := Forking(c, skip)][c := Embryo])
    case ForkShare(p) =>
      var q := Page(s.pcs[p.space].child, p.number);
      var f := s.refs[Leaf(p)];
      s.(refs := s.refs[Leaf(q) := f], count := s.count[f := Shared(Count(s.count, f))],
         writable := s.writable - {q},
         region := if p in s.region then s.region + {q} else s.region - {q})
    case ForkCommit(a) => s.(pcs := s.pcs[a := Running][s.pcs[a].child := Running])
    case ForkFail(a) => s.(pcs := s.pcs[a := Unwinding(s.pcs[a].child)])
    case Unshare(p) =>
      var c := s.pcs[p.space].child;
      var q := Page(c, p.number);
      var f := s.refs[Leaf(q)];
      s.(refs := s.refs - {Leaf(q)}, dangling := s.dangling[q := f],
         count := s.count[f := Unshared(Count(s.count, f))], region := s.region - {q},
         pcs := s.pcs[p.space := if Count(s.count, f) == 2 then Normalizing(c, f) else Unwinding(c)])
    case Normalize(a) =>
      var f := s.pcs[a].frame;
      s.(count := s.count[f := Normalized(Count(s.count, f))], pcs := s.pcs[a := Unwinding(s.pcs[a].child)])
    case Rollback(a) =>
      s.(writable := s.writable + Of(s.region, a), pcs := s.pcs[a := Destroying(s.pcs[a].child)])
    case DropDangling(a, p) => Drop(s, s.dangling[p]).(dangling := s.dangling - {p})
    case ForkAbandon(a) => s.(pcs := s.pcs[a := Running] - {s.pcs[a].child})
    case FaultSole(p) => s.(pcs := s.pcs[p.space := SoleSeen(p)])
    case Privatize(a) =>
      var f := s.refs[Leaf(s.pcs[a].page)];
      s.(count := s.count[f := Normalized(Count(s.count, f))], pcs := s.pcs[a := Privatized(s.pcs[a].page)])
    case MakeWritable(a) => s.(writable := s.writable + {s.pcs[a].page}, pcs := s.pcs[a := Running])
    case FaultShared(p) => s.(pcs := s.pcs[p.space := SharedSeen(p)])
    case Copy(a, f) =>
      var p := s.pcs[a].page;
      s.(refs := s.refs[New(p) := f], free := s.free - {f}, mem := s.mem[f := s.mem[s.refs[Leaf(p)]]],
         pcs := s.pcs[a := Copied(p)])
    case OutOfMemory(a) => s.(pcs := s.pcs[a := Exiting])
    case Repoint(a) =>
      var p := s.pcs[a].page;
      s.(refs := Swap(Swap(s.refs, Leaf(p), Old(p)), New(p), Leaf(p)), writable := s.writable + {p},
         pcs := s.pcs[a := Dropping(p)])
    case Decref(p) =>
      Drop(s, s.refs[Old(p)])
        .(refs := s.refs - {Old(p)}, pcs := s.pcs[p.space := if s.pcs[p.space].Exiting? then Exiting else Running])
    case Release(f) => s.(limbo := s.limbo - {f}, free := s.free + {f})
    case ExitStart(a) => s.(pcs := s.pcs[a := Exiting])
    case ExitUnmap(p) =>
      s.(refs := Swap(s.refs, Leaf(p), Old(p)), writable := s.writable - {p}, region := s.region - {p})
    case ExitDone(a) => s.(pcs := s.pcs - {a})
  }

  // ---- The invariant -----------------------------------------------------------------------

  function Owners(refs: map<Ref, nat>, f: nat): (o: set<Ref>) {
    set r | r in refs && refs[r] == f
  }

  /** The counting convention: 0 or 1 stand for one owner, everything above is the number of owners. */
  predicate Agrees(owners: nat, c: nat) {
    if owners <= 1 then c <= owners else c == owners
  }

  ghost predicate Counted(refs: map<Ref, nat>, count: map<nat, nat>) {
    forall f: nat :: Agrees(|Owners(refs, f)|, Count(count, f))
  }

  /** A frame is in exactly one place: owned, on its way to the allocator, or free. */
  ghost predicate Accounted(s: State) {
    && s.free !! s.limbo
    && (forall r | r in s.refs :: s.refs[r] in s.frames && s.refs[r] !in s.free && s.refs[r] !in s.limbo)
    && (forall f | f in s.frames :: f in s.free || f in s.limbo || Owners(s.refs, f) != {})
    && s.free <= s.frames && s.limbo <= s.frames
    && s.mem.Keys == s.frames
  }

  ghost predicate Sole(refs: map<Ref, nat>, r: Ref) {
    r in refs && forall q | q in refs :: refs[q] == refs[r] ==> q == r
  }

  predicate Busy(pc: Pc) {
    pc.Forking? || pc.Unwinding? || pc.Normalizing? || pc.Destroying?
  }

  ghost predicate RefOk(s: State, r: Ref) {
    && r.at.space in s.pcs
    && (r.Old? ==> s.pcs[r.at.space] == Dropping(r.at) || s.pcs[r.at.space] == Exiting)
    && (r.New? ==> s.pcs[r.at.space] == Copied(r.at) && Sole(s.refs, r))
  }

  /** A page the hardware lets user code write belongs to a writable region and its frame has no other owner. */
  ghost predicate PageOk(s: State, p: Page) {
    && (p in s.writable ==> Sole(s.refs, Leaf(p)) && p in s.region)
    && (p in s.region ==> HasLeaf(s, p))
    && (p in s.dangling ==> At(s, p.space, Embryo))
  }

  /** Every leaf of a child under construction shares the frame and the region flag of the parent's leaf. */
  ghost predicate Mirrors(s: State, a: nat, c: nat) {
    forall n: nat :: HasLeaf(s, Page(c, n)) ==>
      && HasLeaf(s, Page(a, n)) && s.refs[Leaf(Page(c, n))] == s.refs[Leaf(Page(a, n))]
      && (Page(c, n) in s.region <==> Page(a, n) in s.region)
  }

  /** A dangling entry of the child names a frame that the parent still maps. */
  ghost predicate Haunts(s: State, a: nat, c: nat) {
    forall n: nat :: Page(c, n) in s.dangling ==>
      HasLeaf(s, Page(a, n)) && s.refs[Leaf(Page(a, n))] == s.dangling[Page(c, n)]
  }

  /** The child has only leaves the walk reaches. */
  ghost predicate Selected(s: State, c: nat, skip: Option<Range>) {
    forall n: nat :: HasLeaf(s, Page(c, n)) ==> Cloned(skip, n)
  }

  ghost predicate NothingWritable(s: State, a: nat) {
    forall n: nat :: Page(a, n) !in s.writable
  }

  /** What the fault resolver knows of the page it is working on. */
  ghost predicate FaultOk(s: State, a: nat, pc: Pc) {
    && ((pc.SoleSeen? || pc.Privatized?) ==> pc.page.space == a && Sole(s.refs, Leaf(pc.page)) && pc.page in s.region)
    && (pc.SharedSeen? ==> pc.page.space == a && HasLeaf(s, pc.page) && pc.page in s.region && pc.page !in s.writable)
    && (pc.Copied? ==>
          && pc.page.space == a && HasLeaf(s, pc.page) && pc.page in s.region && pc.page !in s.writable
          && New(pc.page) in s.refs && s.refs[Leaf(pc.page)] in s.mem && s.refs[New(pc.page)] in s.mem
          && s.mem[s.refs[New(pc.page)]] == s.mem[s.refs[Leaf(pc.page)]])
    && (pc.Dropping? ==> pc.page.space == a && Old(pc.page) in s.refs)
  }

  /** What a parent in the middle of a fork knows of its child. */
  ghost predicate ForkOk(s: State, a: nat, pc: Pc) {
    && (Busy(pc) ==> pc.child != a && At(s, pc.child, Embryo) && Haunts(s, a, pc.child))
    && ((pc.Forking? || pc.Unwinding? || pc.Normalizing?) ==> Mirrors(s, a, pc.child) && NothingWritable(s, a))
    && (pc.Forking? ==> NoDangling(s, pc.child) && Selected(s, pc.child, pc.skip))
    && (pc.Destroying? ==> NoLeaf(s, pc.child))
    && (pc.Embryo? ==> NothingWritable(s, a))
  }

  /** The part of the invariant that is about one address space. */
  ghost predicate Local(s: State, a: nat) {
    && (forall r: Ref {:trigger RefOk(s, r)} :: r in s.refs && r.at.space == a ==> RefOk(s, r))
    && (forall n: nat :: PageOk(s, Page(a, n)))
    && (a in s.pcs ==> FaultOk(s, a, s.pcs[a]) && ForkOk(s, a, s.pcs[a]))
  }

  /** A child is under construction by one parent only. */
  ghost predicate OneParent(pcs: map<nat, Pc>) {
    forall a, b | a in pcs && b in pcs && Busy(pcs[a]) && Busy(pcs[b]) && pcs[a].child == pcs[b].child :: a == b
  }

  ghost predicate Inv(s: State) {
    && Counted(s.refs, s.count) && Accounted(s) && OneParent(s.pcs)
    && (forall a: nat :: Local(s, a))
  }

  // ---- Counting owners ---------------------------------------------------------------------

  lemma AddOwner(refs: map<Ref, nat>, count: map<nat, nat>, r: Ref, f: nat, c: nat)
    requires Counted(refs, count) && r !in refs && Agrees(|Owners(refs, f)| + 1, c)
    ensures Counted(refs[r := f], count[f := c])
  {
    var grown, updated := refs[r := f], count[f := c];
    forall g: nat ensures Agrees(|Owners(grown, g)|, Count(updated, g)) {
      if g == f {
        assert Owners(grown, f) == Owners(refs, f) + {r};
      } else {
        assert Owners(grown, g) == Owners(refs, g);
      }
    }
  }

  lemma RemoveOwner(refs: map<Ref, nat>, count: map<nat, nat>, r: Ref, c: nat)
    requires Counted(refs, count) && r in refs && Agrees(|Owners(refs, refs[r]) - {r}|, c)
    ensures Counted(refs - {r}, count[refs[r] := c])
  {
    var f, shrunk, updated := refs[r], refs - {r}, count[refs[r] := c];
    forall g: nat ensures Agrees(|Owners(shrunk, g)|, Count(updated, g)) {
      if g == f {
        assert Owners(shrunk, f) == Owners(refs, f) - {r} && r in Owners(refs, f);
      } else {
        assert Owners(shrunk, g) == Owners(refs, g);
      }
    }
  }

  lemma SwapOwners(refs: map<Ref, nat>, r: Ref, q: Ref, g: nat)
    requires r in refs && q !in refs
    ensures |Owners(Swap(refs, r, q), g)| == |Owners(refs, g)|
  {
    var swapped := Swap(refs, r, q);
    if g == refs[r] {
      assert Owners(swapped, g) == Owners(refs, g) - {r} + {q};
      assert r in Owners(refs, g);
    } else {
      assert Owners(swapped, g) == Owners(refs, g);
    }
  }

  lemma SwapOwner(refs: map<Ref, nat>, count: map<nat, nat>, r: Ref, q: Ref)
    requires Counted(refs, count) && r in refs && q !in refs
    ensures Counted(Swap(refs, r, q), count)
  {
    var swapped := Swap(refs, r, q);
    forall g: nat ensures Agrees(|Owners(swapped, g)|, Count(count, g)) {
      SwapOwners(refs, r, q, g);
      assert Agrees(|Owners(refs, g)|, Count(count, g));
    }
  }

  lemma SameOwners(refs: map<Ref, nat>, count: map<nat, nat>, f: nat, c: nat)
    requires Counted(refs, count) && Agrees(|Owners(refs, f)|, c)
    ensures Counted(refs, count[f := c])
  {
    var updated := count[f := c];
    forall g: nat ensures Agrees(|Owners(refs, g)|, Count(updated, g)) {
      assert Agrees(|Owners(refs, g)|, Count(count, g));
    }
  }

  /** Two owners make the counter count; one owner shows as 0 or 1. */
  lemma SoleIsCounted(refs: map<Ref, nat>, count: map<nat, nat>, r: Ref)
    requires Counted(refs, count) && r in refs
    ensures Sole(refs, r) <==> Count(count, refs[r]) <= 1
  {
    var o := Owners(refs, refs[r]);
    assert r in o && Agrees(|o|, Count(count, refs[r]));
    if Sole(refs, r) {
      assert o == {r};
    } else {
      var q :| q in refs && refs[q] == refs[r] && q != r;
      assert {q, r} <= o;
      Larger({q, r}, o);
    }
  }

  lemma Larger(a: set<Ref>, b: set<Ref>)
    requires a <= b
    ensures |a| <= |b|
  {
    assert b == a + (b - a);
  }

  // ---- What a step does not touch ----------------------------------------------------------

  ghost predicate SameRef(s: State, t: State, r: Ref) {
    && (r in s.refs <==> r in t.refs)
    && (r in s.refs ==>
          && s.refs[r] == t.refs[r] && (Sole(s.refs, r) ==> Sole(t.refs, r))
          && (s.refs[r] in s.mem ==> s.refs[r] in t.mem && t.mem[s.refs[r]] == s.mem[s.refs[r]]))
  }

  ghost predicate SamePage(s: State, t: State, p: Page) {
    && (p in s.writable <==> p in t.writable) && (p in s.region <==> p in t.region)
    && (p in s.dangling <==> p in t.dangling) && (p in s.dangling ==> s.dangling[p] == t.dangling[p])
  }

  /** A step leaves everything of one address space as it was. */
  ghost predicate Untouched(s: State, t: State, a: nat) {
    && (forall r: Ref {:trigger SameRef(s, t, r)} :: r.at.space == a ==> SameRef(s, t, r))
    && (forall n: nat :: SamePage(s, t, Page(a, n)))
    && (a in s.pcs <==> a in t.pcs) && (a in s.pcs ==> s.pcs[a] == t.pcs[a])
  }

  lemma UntouchedPages(s: State, t: State, a: nat)
    requires Local(s, a) && Untouched(s, t, a)
    ensures forall n: nat :: PageOk(t, Page(a, n))
    ensures forall r: Ref {:trigger RefOk(t, r)} :: r in t.refs && r.at.space == a ==> RefOk(t, r)
  {
    forall n: nat ensures PageOk(t, Page(a, n)) {
      var p := Page(a, n);
      assert PageOk(s, p) && SamePage(s, t, p) && SameRef(s, t, Leaf(p));
    }
    forall r: Ref | r in t.refs && r.at.space == a ensures RefOk(t, r) {
      assert SameRef(s, t, r) && RefOk(s, r);
    }
  }

  lemma UntouchedFault(s: State, t: State, a: nat)
    requires Local(s, a) && Untouched(s, t, a) && a in s.pcs
    ensures FaultOk(t, a, t.pcs[a])
  {
    var pc := s.pcs[a];
    if pc.SoleSeen? || pc.Privatized? || pc.SharedSeen? || pc.Copied? || pc.Dropping? {
      var p := pc.page;
      assert p == Page(a, p.number) && SamePage(s, t, p);
      assert SameRef(s, t, Leaf(p)) && SameRef(s, t, New(p)) && SameRef(s, t, Old(p));
    }
  }

  lemma UntouchedFork(s: State, t: State, a: nat)
    requires Local(s, a) && Untouched(s, t, a) && a in s.pcs
    requires Busy(s.pcs[a]) ==> Untouched(s, t, s.pcs[a].child)
    ensures ForkOk(t, a, t.pcs[a])
  {
    var pc := s.pcs[a];
    forall n: nat ensures Page(a, n) in s.writable <==> Page(a, n) in t.writable {
      assert SamePage(s, t, Page(a, n));
    }
    if Busy(pc) {
      var c := pc.child;
      forall n: nat
        ensures SamePage(s, t, Page(c, n)) && SamePage(s, t, Page(a, n))
        ensures SameRef(s, t, Leaf(Page(c, n))) && SameRef(s, t, Leaf(Page(a, n)))
      {
      }
    }
  }

  lemma UntouchedLocal(s: State, t: State, a: nat)
    requires Local(s, a) && Untouched(s, t, a)
    requires a in s.pcs && Busy(s.pcs[a]) ==> Untouched(s, t, s.pcs[a].child)
    ensures Local(t, a)
  {
    UntouchedPages(s, t, a);
    if a in s.pcs {
      UntouchedFault(s, t, a);
      UntouchedFork(s, t, a);
    }
  }

  /** A step of one space that touches nothing of the others keeps the invariant if it keeps its own part. */
  lemma Alone(s: State, t: State, a: nat)
    requires Inv(s) && (a in s.pcs ==> !s.pcs[a].Embryo?)
    requires forall x: nat | x != a :: Untouched(s, t, x)
    requires Counted(t.refs, t.count) && Accounted(t) && OneParent(t.pcs) && Local(t, a)
    ensures Inv(t)
  {
    forall x: nat | x != a ensures Local(t, x) {
      assert Local(s, x);
      UntouchedLocal(s, t, x);
    }
  }

  /** The same for a step of a parent and its child. */
  lemma Together(s: State, t: State, a: nat, c: nat)
    requires Inv(s) && a in s.pcs && !s.pcs[a].Embryo?
    requires c !in s.pcs || (Busy(s.pcs[a]) && s.pcs[a].child == c)
    requires forall x: nat | x != a && x != c :: Untouched(s, t, x)
    requires Counted(t.refs, t.count) && Accounted(t) && OneParent(t.pcs) && Local(t, a) && Local(t, c)
    ensures Inv(t)
  {
    forall x: nat | x != a && x != c ensures Local(t, x) {
      assert Local(s, x);
      UntouchedLocal(s, t, x);
    }
  }

  lemma StillOneParent(pcs: map<nat, Pc>, a: nat, pc: Pc)
    requires OneParent(pcs)
    requires Busy(pc) ==> a in pcs && Busy(pcs[a]) && pcs[a].child == pc.child
    ensures OneParent(pcs[a := pc])
  {
  }

  /** Only the program counter of one space changes. */
  lemma PcUntouched(s: State, t: State, a: nat)
    requires t == s.(pcs := t.pcs, count := t.count)
    requires forall x: nat | x != a :: (x in s.pcs <==> x in t.pcs) && (x in s.pcs ==> s.pcs[x] == t.pcs[x])
    ensures forall x: nat | x != a :: Untouched(s, t, x)
  {
  }

  // ---- Every step keeps the invariant ------------------------------------------------------

  /** A step of one space that keeps every reference, page and program counter of the others. */
  lemma Others(s: State, t: State, a: nat)
    requires forall r: Ref {:trigger SameRef(s, t, r)} :: r.at.space != a ==> SameRef(s, t, r)
    requires forall p: Page {:trigger SamePage(s, t, p)} :: p.space != a ==> SamePage(s, t, p)
    requires forall x: nat | x != a :: (x in s.pcs <==> x in t.pcs) && (x in s.pcs ==> s.pcs[x] == t.pcs[x])
    ensures forall x: nat | x != a :: Untouched(s, t, x)
  {
  }

  /** A space whose references are all leaves. */
  predicate Plain(pc: Pc) {
    !pc.Dropping? && !pc.Exiting? && !pc.Copied? && !pc.Embryo?
  }

  /** The pages of a space are fine if only counters and its own program counter move. */
  lemma LocalPc(s: State, t: State, a: nat)
    requires Local(s, a) && t == s.(pcs := t.pcs, count := t.count) && a in t.pcs
    requires a in s.pcs ==> Plain(s.pcs[a])
    requires FaultOk(t, a, t.pcs[a]) && ForkOk(t, a, t.pcs[a])
    ensures Local(t, a)
  {
    forall n: nat ensures PageOk(t, Page(a, n)) {
      assert PageOk(s, Page(a, n));
    }
    forall r: Ref | r in t.refs && r.at.space == a ensures RefOk(t, r) {
      assert RefOk(s, r);
    }
  }

  lemma SpawnKeepsInv(s: State, a: nat)
    requires Inv(s) && Enabled(s, Spawn(a))
    ensures Inv(Apply(s, Spawn(a)))
  {
    var t := Apply(s, Spawn(a));
    PcUntouched(s, t, a);
    StillOneParent(s.pcs, a, Running);
    assert Local(s, a);
    LocalPc(s, t, a);
    Alone(s, t, a);
  }

  lemma FaultKeepsInv(s: State, p: Page, e: Event)
    requires Inv(s) && Enabled(s, e) && (e == FaultSole(p) || e == FaultShared(p))
    ensures Inv(Apply(s, e))
  {
    var t, a := Apply(s, e), p.space;
    PcUntouched(s, t, a);
    StillOneParent(s.pcs, a, t.pcs[a]);
    assert Local(s, a);
    SoleIsCounted(s.refs, s.count, Leaf(p));
    LocalPc(s, t, a);
    Alone(s, t, a);
  }

  lemma EndKeepsInv(s: State, a: nat, e: Event)
    requires Inv(s) && Enabled(s, e) && (e == OutOfMemory(a) || e == ExitStart(a))
    ensures Inv(Apply(s, e))
  {
    var t := Apply(s, e);
    PcUntouched(s, t, a);
    StillOneParent(s.pcs, a, t.pcs[a]);
    assert Local(s, a);
    LocalPc(s, t, a);
    Alone(s, t, a);
  }

  lemma ForkFailKeepsInv(s: State, a: nat)
    requires Inv(s) && Enabled(s, ForkFail(a))
    ensures Inv(Apply(s, ForkFail(a)))
  {
    var t := Apply(s, ForkFail(a));
    PcUntouched(s, t, a);
    StillOneParent(s.pcs, a, t.pcs[a]);
    assert Local(s, a);
    LocalPc(s, t, a);
    Alone(s, t, a);
  }

  lemma NormalizedAgrees(refs: map<Ref, nat>, count: map<nat, nat>, f: nat)
    requires Counted(refs, count)
    ensures Counted(refs, count[f := Normalized(Count(count, f))])
  {
    assert Agrees(|Owners(refs, f)|, Count(count, f));
    SameOwners(refs, count, f, Normalized(Count(count, f)));
  }

  lemma PrivatizeKeepsInv(s: State, a: nat)
    requires Inv(s) && Enabled(s, Privatize(a))
    ensures Inv(Apply(s, Privatize(a)))
  {
    var t := Apply(s, Privatize(a));
    NormalizedAgrees(s.refs, s.count, s.refs[Leaf(s.pcs[a].page)]);
    PcUntouched(s, t, a);
    StillOneParent(s.pcs, a, t.pcs[a]);
    assert Local(s, a);
    LocalPc(s, t, a);
    Alone(s, t, a);
  }

  /** The frame of a page that is about to be made writable in place is untracked again. */
  lemma PrivatizedUntracked(s: State, a: nat)
    requires Inv(s) && Enabled(s, Privatize(a))
    ensures Count(Apply(s, Privatize(a)).count, s.refs[Leaf(s.pcs[a].page)]) == 0
  {
    assert Local(s, a);
    SoleIsCounted(s.refs, s.count, Leaf(s.pcs[a].page));
  }

  lemma NormalizeKeepsInv(s: State, a: nat)
    requires Inv(s) && Enabled(s, Normalize(a))
    ensures Inv(Apply(s, Normalize(a)))
  {
    var t := Apply(s, Normalize(a));
    NormalizedAgrees(s.refs, s.count, s.pcs[a].frame);
    PcUntouched(s, t, a);
    StillOneParent(s.pcs, a, t.pcs[a]);
    assert Local(s, a);
    LocalPc(s, t, a);
    Alone(s, t, a);
  }

  lemma ReleaseKeepsInv(s: State, f: nat)
    requires Inv(s) && Enabled(s, Release(f))
    ensures Inv(Apply(s, Release(f)))
  {
    var t := Apply(s, Release(f));
    forall x: nat ensures Local(t, x) {
      assert Local(s, x);
      assert Untouched(s, t, x);
      if x in s.pcs && Busy(s.pcs[x]) {
        assert Untouched(s, t, s.pcs[x].child);
      }
      UntouchedLocal(s, t, x);
    }
  }

  /** Granting write access to a page whose frame has no other owner. */
  lemma GrantedLocal(s: State, t: State, p: Page)
    requires Local(s, p.space) && At(s, p.space, Privatized(p))
    requires t == s.(writable := s.writable + {p}, pcs := s.pcs[p.space := Running])
    ensures Local(t, p.space)
  {
    var a := p.space;
    forall n: nat ensures PageOk(t, Page(a, n)) {
      assert PageOk(s, Page(a, n));
    }
    forall r: Ref | r in t.refs && r.at.space == a ensures RefOk(t, r) {
      assert RefOk(s, r);
    }
  }

  lemma MakeWritableKeepsInv(s: State, a: nat)
    requires Inv(s) && Enabled(s, MakeWritable(a))
    ensures Inv(Apply(s, MakeWritable(a)))
  {
    var t := Apply(s, MakeWritable(a));
    assert Local(s, a);
    StillOneParent(s.pcs, a, Running);
    GrantedLocal(s, t, s.pcs[a].page);
    Others(s, t, a);
    Alone(s, t, a);
  }

  lemma FreshOwner(refs: map<Ref, nat>, count: map<nat, nat>, q: Ref, f: nat)
    requires Counted(refs, count) && q !in refs && Owners(refs, f) == {}
    ensures Counted(refs[q := f], count)
  {
    assert Agrees(0, Count(count, f));
    AddOwner(refs, count, q, f, Count(count, f));
    var grown, updated := refs[q := f], count[f := Count(count, f)];
    forall g: nat ensures Agrees(|Owners(grown, g)|, Count(count, g)) {
      assert Agrees(|Owners(grown, g)|, Count(updated, g));
    }
  }

  /** Handing a free frame to a new reference. */
  lemma Acquired(s: State, t: State, q: Ref, f: nat, v: nat)
    requires Counted(s.refs, s.count) && Accounted(s) && f in s.free && q !in s.refs
    requires t.refs == s.refs[q := f] && t.free == s.free - {f} && t.mem == s.mem[f := v]
    requires t.frames == s.frames && t.count == s.count && t.limbo == s.limbo
    ensures Counted(t.refs, t.count) && Accounted(t) && Sole(t.refs, q)
    ensures forall r {:trigger SameRef(s, t, r)} | r in s.refs :: SameRef(s, t, r)
  {
    assert Owners(s.refs, f) == {};
    FreshOwner(s.refs, s.count, q, f);
    forall g | g in t.frames ensures g in t.free || g in t.limbo || Owners(t.refs, g) != {} {
      if g == f {
        assert q in Owners(t.refs, f);
      } else if Owners(s.refs, g) != {} {
        var r :| r in Owners(s.refs, g);
        assert r in Owners(t.refs, g);
      }
    }
  }

  lemma MapLocal(s: State, t: State, p: Page, f: nat, v: nat, rw: bool)
    requires Local(s, p.space) && At(s, p.space, Running) && !HasLeaf(s, p) && Sole(t.refs, Leaf(p))
    requires forall r {:trigger SameRef(s, t, r)} | r in s.refs :: SameRef(s, t, r)
    requires t == s.(refs := s.refs[Leaf(p) := f], mem := s.mem[f := v], free := t.free,
                     writable := if rw then s.writable + {p} else s.writable - {p},
                     region := if rw then s.region + {p} else s.region - {p})
    ensures Local(t, p.space)
  {
    var a := p.space;
    forall n: nat ensures PageOk(t, Page(a, n)) {
      assert PageOk(s, Page(a, n));
      assert HasLeaf(s, Page(a, n)) ==> SameRef(s, t, Leaf(Page(a, n)));
    }
    forall r: Ref | r in t.refs && r.at.space == a ensures RefOk(t, r) {
      assert r == Leaf(p) || (RefOk(s, r) && SameRef(s, t, r));
    }
  }

  lemma MapKeepsInv(s: State, p: Page, f: nat, v: nat, rw: bool)
    requires Inv(s) && Enabled(s, MapPage(p, f, v, rw))
    ensures Inv(Apply(s, MapPage(p, f, v, rw)))
  {
    var t, a := Apply(s, MapPage(p, f, v, rw)), p.space;
    Acquired(s, t, Leaf(p), f, v);
    assert Local(s, a);
    MapLocal(s, t, p, f, v, rw);
    Others(s, t, a);
    Alone(s, t, a);
  }

  lemma CopyLocal(s: State, t: State, p: Page, f: nat)
    requires Local(s, p.space) && s.pcs == s.pcs[p.space := SharedSeen(p)] && p.space in s.pcs
    requires HasLeaf(s, p) && s.refs[Leaf(p)] in s.mem && Sole(t.refs, New(p)) && s.refs[Leaf(p)] != f
    requires forall r {:trigger SameRef(s, t, r)} | r in s.refs :: SameRef(s, t, r)
    requires t == s.(refs := s.refs[New(p) := f], mem := s.mem[f := s.mem[s.refs[Leaf(p)]]],
                     pcs := s.pcs[p.space := Copied(p)], free := t.free)
    ensures Local(t, p.space)
  {
    var a := p.space;
    forall n: nat ensures PageOk(t, Page(a, n)) {
      assert PageOk(s, Page(a, n));
    }
    forall r: Ref | r in t.refs && r.at.space == a ensures RefOk(t, r) {
      assert r == New(p) || RefOk(s, r);
    }
  }

  lemma CopyKeepsInv(s: State, a: nat, f: nat)
    requires Inv(s) && Enabled(s, Copy(a, f))
    ensures Inv(Apply(s, Copy(a, f)))
  {
    var t, p := Apply(s, Copy(a, f)), s.pcs[a].page;
    assert Local(s, a);
    assert New(p) !in s.refs by {
      assert New(p) in s.refs ==> RefOk(s, New(p));
    }
    Acquired(s, t, New(p), f, s.mem[s.refs[Leaf(p)]]);
    StillOneParent(s.pcs, a, t.pcs[a]);
    CopyLocal(s, t, p, f);
    Others(s, t, a);
    Alone(s, t, a);
  }

  /** Passing the reference of one holder to another. */
  lemma Passed(s: State, refs: map<Ref, nat>, r: Ref, q: Ref)
    requires Counted(s.refs, s.count) && Accounted(s) && r in s.refs && q !in s.refs && refs == Swap(s.refs, r, q)
    ensures Counted(refs, s.count) && Accounted(s.(refs := refs))
    ensures forall x {:trigger Sole(refs, x)} | x in s.refs && x != r :: Sole(s.refs, x) ==> Sole(refs, x)
    ensures Sole(s.refs, r) ==> Sole(refs, q)
  {
    SwapOwner(s.refs, s.count, r, q);
    forall g | g in s.frames ensures g in s.free || g in s.limbo || Owners(refs, g) != {} {
      if Owners(s.refs, g) != {} {
        var x :| x in Owners(s.refs, g);
        assert (if x == r then q else x) in Owners(refs, g);
      }
    }
  }

  lemma PassedOthers(s: State, t: State, r: Ref, q: Ref, a: nat)
    requires r in s.refs && q !in s.refs && r.at.space == a == q.at.space
    requires t.refs == Swap(s.refs, r, q) && t.mem == s.mem
    requires forall x {:trigger Sole(t.refs, x)} | x in s.refs && x != r :: Sole(s.refs, x) ==> Sole(t.refs, x)
    ensures forall x: Ref {:trigger SameRef(s, t, x)} :: x.at.space != a ==> SameRef(s, t, x)
  {
  }

  /** Clearing a leaf: the reference stays with the space until it is dropped. */
  lemma ClearedLocal(s: State, t: State, p: Page)
    requires Local(s, p.space) && HasLeaf(s, p) && Old(p) !in s.refs
    requires t == s.(refs := Swap(s.refs, Leaf(p), Old(p)), writable := s.writable - {p}, region := s.region - {p},
                     pcs := t.pcs)
    requires if At(s, p.space, Running) then At(t, p.space, Dropping(p))
             else At(s, p.space, Exiting) && At(t, p.space, Exiting)
    requires forall x {:trigger Sole(t.refs, x)} | x in s.refs && x != Leaf(p) :: Sole(s.refs, x) ==> Sole(t.refs, x)
    ensures Local(t, p.space)
  {
    var a := p.space;
    forall n: nat ensures PageOk(t, Page(a, n)) {
      assert PageOk(s, Page(a, n));
    }
    forall r: Ref | r in t.refs && r.at.space == a ensures RefOk(t, r) {
      assert r == Old(p) || RefOk(s, r);
    }
  }

  lemma Cleared(s: State, t: State, p: Page)
    requires Inv(s) && HasLeaf(s, p) && Old(p) !in s.refs
    requires t == s.(refs := Swap(s.refs, Leaf(p), Old(p)), writable := s.writable - {p}, region := s.region - {p},
                     pcs := t.pcs)
    requires if At(s, p.space, Running) then t.pcs == s.pcs[p.space := Dropping(p)]
             else At(s, p.space, Exiting) && t.pcs == s.pcs
    ensures Inv(t)
  {
    var a := p.space;
    assert Local(s, a);
    Passed(s, t.refs, Leaf(p), Old(p));
    PassedOthers(s, t, Leaf(p), Old(p), a);
    ClearedLocal(s, t, p);
    if At(s, a, Running) {
      StillOneParent(s.pcs, a, Dropping(p));
    }
    Others(s, t, a);
    Alone(s, t, a);
  }

  lemma UnmapKeepsInv(s: State, p: Page, e: Event)
    requires Inv(s) && Enabled(s, e) && (e == Unmap(p) || e == ExitUnmap(p))
    ensures Inv(Apply(s, e))
  {
    assert Local(s, p.space);
    assert Old(p) in s.refs ==> RefOk(s, Old(p));
    Cleared(s, Apply(s, e), p);
  }

  lemma RepointLocal(s: State, t: State, p: Page)
    requires Local(s, p.space) && At(s, p.space, Copied(p)) && HasLeaf(s, p) && New(p) in s.refs && Old(p) !in s.refs
    requires t == s.(refs := Swap(Swap(s.refs, Leaf(p), Old(p)), New(p), Leaf(p)), writable := s.writable + {p},
                     pcs := s.pcs[p.space := Dropping(p)])
    requires forall x {:trigger Sole(t.refs, x)} | x in s.refs && x != Leaf(p) && x != New(p) ::
               Sole(s.refs, x) ==> Sole(t.refs, x)
    requires Sole(t.refs, Leaf(p))
    ensures Local(t, p.space)
  {
    var a := p.space;
    forall n: nat ensures PageOk(t, Page(a, n)) {
      assert PageOk(s, Page(a, n));
    }
    forall r: Ref | r in t.refs && r.at.space == a ensures RefOk(t, r) {
      assert r == Old(p) || r == Leaf(p) || RefOk(s, r);
    }
  }

  lemma RepointRefs(s: State, t: State, p: Page)
    requires Counted(s.refs, s.count) && Accounted(s)
    requires HasLeaf(s, p) && Sole(s.refs, New(p)) && Old(p) !in s.refs
    requires t.refs == Swap(Swap(s.refs, Leaf(p), Old(p)), New(p), Leaf(p))
             && t == s.(refs := t.refs, writable := t.writable, pcs := t.pcs)
    ensures Counted(t.refs, t.count) && Accounted(t) && Sole(t.refs, Leaf(p))
    ensures forall x {:trigger Sole(t.refs, x)} | x in s.refs && x != Leaf(p) && x != New(p) ::
              Sole(s.refs, x) ==> Sole(t.refs, x)
  {
    var m := s.(refs := Swap(s.refs, Leaf(p), Old(p)));
    Passed(s, m.refs, Leaf(p), Old(p));
    Passed(m, t.refs, New(p), Leaf(p));
    forall x | x in s.refs && x != Leaf(p) && x != New(p) ensures Sole(s.refs, x) ==> Sole(t.refs, x) {
      assert Sole(s.refs, x) ==> Sole(m.refs, x);
    }
  }

  lemma RepointOthers(s: State, t: State, p: Page)
    requires HasLeaf(s, p) && New(p) in s.refs && Old(p) !in s.refs && t.mem == s.mem
    requires t.refs == Swap(Swap(s.refs, Leaf(p), Old(p)), New(p), Leaf(p))
    requires forall x {:trigger Sole(t.refs, x)} | x in s.refs && x != Leaf(p) && x != New(p) ::
               Sole(s.refs, x) ==> Sole(t.refs, x)
    ensures forall r: Ref {:trigger SameRef(s, t, r)} :: r.at.space != p.space ==> SameRef(s, t, r)
  {
  }

  lemma Repointed(s: State, t: State, p: Page)
    requires Inv(s) && At(s, p.space, Copied(p)) && HasLeaf(s, p) && New(p) in s.refs
    requires t == s.(refs := Swap(Swap(s.refs, Leaf(p), Old(p)), New(p), Leaf(p)), writable := s.writable + {p},
                     pcs := s.pcs[p.space := Dropping(p)])
    ensures Inv(t)
  {
    var a := p.space;
    assert Local(s, a);
    CopyInHand(s, p);
    RepointRefs(s, t, p);
    RepointLocal(s, t, p);
    RepointOthers(s, t, p);
    StillOneParent(s.pcs, a, Dropping(p));
    Others(s, t, a);
    Alone(s, t, a);
  }

  lemma CopyInHand(s: State, p: Page)
    requires Local(s, p.space) && At(s, p.space, Copied(p)) && New(p) in s.refs
    ensures Sole(s.refs, New(p)) && Old(p) !in s.refs
  {
    assert RefOk(s, New(p));
    assert Old(p) in s.refs ==> RefOk(s, Old(p));
  }

  lemma RepointKeepsInv(s: State, a: nat)
    requires Inv(s) && Enabled(s, Repoint(a))
    ensures Inv(Apply(s, Repoint(a)))
  {
    assert Local(s, a);
    Repointed(s, Apply(s, Repoint(a)), s.pcs[a].page);
  }

  /** One holder gives its reference up; the one that sees the last reference sends the frame home. */
  lemma Given(s: State, t: State, r: Ref)
    requires Counted(s.refs, s.count) && Accounted(s) && r in s.refs
    requires t == Drop(s, s.refs[r]).(refs := s.refs - {r}, pcs := t.pcs)
    ensures Counted(t.refs, t.count) && Accounted(t)
    ensures forall x {:trigger Sole(t.refs, x)} | x in s.refs && x != r :: Sole(s.refs, x) ==> Sole(t.refs, x)
  {
    var f := s.refs[r];
    var o := Owners(s.refs, f);
    assert r in o && Agrees(|o|, Count(s.count, f)) && |o - {r}| == |o| - 1;
    RemoveOwner(s.refs, s.count, r, Dropped(Count(s.count, f)));
    SoleIsCounted(s.refs, s.count, r);
    forall g | g in t.frames ensures g in t.free || g in t.limbo || Owners(t.refs, g) != {} {
      if g != f && Owners(s.refs, g) != {} {
        var x :| x in Owners(s.refs, g);
        assert x in Owners(t.refs, g);
      } else if g == f && Count(s.count, f) > 1 {
        var x :| x in s.refs && s.refs[x] == f && x != r;
        assert x in Owners(t.refs, g);
      }
    }
  }

  lemma GivenLocal(s: State, t: State, p: Page)
    requires Local(s, p.space) && Old(p) in s.refs
    requires t == Drop(s, s.refs[Old(p)]).(refs := s.refs - {Old(p)}, pcs := t.pcs)
    requires if At(s, p.space, Dropping(p)) then At(t, p.space, Running)
             else At(s, p.space, Exiting) && At(t, p.space, Exiting)
    requires forall x {:trigger Sole(t.refs, x)} | x in s.refs && x != Old(p) :: Sole(s.refs, x) ==> Sole(t.refs, x)
    ensures Local(t, p.space)
  {
    var a := p.space;
    forall n: nat ensures PageOk(t, Page(a, n)) {
      assert PageOk(s, Page(a, n));
    }
    forall r: Ref | r in t.refs && r.at.space == a ensures RefOk(t, r) {
      assert RefOk(s, r);
    }
  }

  lemma GivenOthers(s: State, t: State, p: Page)
    requires Old(p) in s.refs && t.mem == s.mem && t.refs == s.refs - {Old(p)}
    requires forall x {:trigger Sole(t.refs, x)} | x in s.refs && x != Old(p) :: Sole(s.refs, x) ==> Sole(t.refs, x)
    ensures forall r: Ref {:trigger SameRef(s, t, r)} :: r.at.space != p.space ==> SameRef(s, t, r)
  {
  }

  lemma DecrefKeepsInv(s: State, p: Page)
    requires Inv(s) && Enabled(s, Decref(p))
    ensures Inv(Apply(s, Decref(p)))
  {
    var t, a := Apply(s, Decref(p)), p.space;
    assert Local(s, a);
    Given(s, t, Old(p));
    GivenLocal(s, t, p);
    GivenOthers(s, t, p);
    StillOneParent(s.pcs, a, t.pcs[a]);
    Others(s, t, a);
    Alone(s, t, a);
  }

  lemma ExitDoneKeepsInv(s: State, a: nat)
    requires Inv(s) && Enabled(s, ExitDone(a))
    ensures Inv(Apply(s, ExitDone(a)))
  {
    var t := Apply(s, ExitDone(a));
    assert Local(s, a);
    PcUntouched(s, t, a);
    forall n: nat ensures PageOk(t, Page(a, n)) {
      assert PageOk(s, Page(a, n));
    }
    Alone(s, t, a);
  }

  lemma WriteLocal(s: State, t: State, p: Page, v: nat)
    requires Local(s, p.space) && At(s, p.space, Running) && HasLeaf(s, p) && Sole(s.refs, Leaf(p))
    requires t == s.(mem := s.mem[s.refs[Leaf(p)] := v])
    ensures Local(t, p.space)
    ensures forall r: Ref {:trigger SameRef(s, t, r)} :: r.at.space != p.space ==> SameRef(s, t, r)
  {
    var a := p.space;
    forall n: nat ensures PageOk(t, Page(a, n)) {
      assert PageOk(s, Page(a, n));
    }
    forall r: Ref | r in t.refs && r.at.space == a ensures RefOk(t, r) {
      assert RefOk(s, r);
    }
  }

  lemma WriteKeepsInv(s: State, p: Page, v: nat)
    requires Inv(s) && Enabled(s, Write(p, v))
    ensures Inv(Apply(s, Write(p, v)))
  {
    var t, a := Apply(s, Write(p, v)), p.space;
    assert Local(s, a) && PageOk(s, Page(a, p.number));
    WriteLocal(s, t, p, v);
    Others(s, t, a);
    Alone(s, t, a);
  }
}
