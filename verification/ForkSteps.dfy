/**
  The steps of fork: starting, sharing leaf by leaf, committing, and the unwinding, rollback and teardown
  of a fork that fails. All of them keep the invariant of `CopyOnWrite` but the last two, and for those
  the condition is exact.
 */
module ForkSteps {
  import opened Common
  import opened CopyOnWrite

  // ---- Fork --------------------------------------------------------------------------------

  lemma OtherPair(s: State, t: State, a: nat, c: nat)
    requires forall r: Ref {:trigger SameRef(s, t, r)} :: r.at.space != a && r.at.space != c ==> SameRef(s, t, r)
    requires forall p: Page {:trigger SamePage(s, t, p)} :: p.space != a && p.space != c ==> SamePage(s, t, p)
    requires forall x: nat | x != a && x != c :: (x in s.pcs <==> x in t.pcs) && (x in s.pcs ==> s.pcs[x] == t.pcs[x])
    ensures forall x: nat | x != a && x != c :: Untouched(s, t, x)
  {
  }

  lemma NoParentYet(s: State, a: nat, c: nat, skip: Option<Range>)
    requires Inv(s) && c !in s.pcs && a in s.pcs
    ensures OneParent(s.pcs[a := Forking(c, skip)][c := Embryo])
  {
    forall x | x in s.pcs && Busy(s.pcs[x]) ensures s.pcs[x].child != c {
      assert Local(s, x);
    }
  }

  lemma ForkStartParent(s: State, t: State, a: nat, c: nat, skip: Option<Range>)
    requires Local(s, a) && Local(s, c) && At(s, a, Running) && c !in s.pcs
    requires t == s.(writable := Without(s.writable, a), pcs := s.pcs[a := Forking(c, skip)][c := Embryo])
    ensures Local(t, a)
  {
    forall n: nat ensures PageOk(t, Page(a, n)) && Page(a, n) !in t.writable {
      assert PageOk(s, Page(a, n));
    }
    forall r: Ref | r in t.refs && r.at.space == a ensures RefOk(t, r) {
      assert RefOk(s, r);
    }
    forall n: nat ensures !HasLeaf(t, Page(c, n)) && Page(c, n) !in t.dangling {
      assert PageOk(s, Page(c, n)) && (HasLeaf(s, Page(c, n)) ==> RefOk(s, Leaf(Page(c, n))));
    }
  }

  lemma ForkStartChild(s: State, t: State, a: nat, c: nat, skip: Option<Range>)
    requires Local(s, c) && a in s.pcs && c !in s.pcs
    requires t == s.(writable := Without(s.writable, a), pcs := s.pcs[a := Forking(c, skip)][c := Embryo])
    ensures Local(t, c)
  {
    forall n: nat ensures PageOk(t, Page(c, n)) && Page(c, n) !in t.writable {
      assert PageOk(s, Page(c, n)) && (HasLeaf(s, Page(c, n)) ==> RefOk(s, Leaf(Page(c, n))));
    }
    forall r: Ref | r.at.space == c ensures r !in t.refs {
      assert r in s.refs ==> RefOk(s, r);
    }
  }

  lemma ForkStartKeepsInv(s: State, a: nat, c: nat, skip: Option<Range>)
    requires Inv(s) && Enabled(s, ForkStart(a, c, skip))
    ensures Inv(Apply(s, ForkStart(a, c, skip)))
  {
    var t := Apply(s, ForkStart(a, c, skip));
    assert Local(s, a) && Local(s, c);
    NoParentYet(s, a, c, skip);
    ForkStartParent(s, t, a, c, skip);
    ForkStartChild(s, t, a, c, skip);
    OtherPair(s, t, a, c);
    Together(s, t, a, c);
  }

  /** One more leaf of the parent is a leaf of the child, and the counter knows. */
  lemma SharedRefs(s: State, t: State, p: Page, q: Page)
    requires Counted(s.refs, s.count) && Accounted(s) && HasLeaf(s, p) && !HasLeaf(s, q)
    requires t.refs == s.refs[Leaf(q) := s.refs[Leaf(p)]]
    requires t.count == s.count[s.refs[Leaf(p)] := Shared(Count(s.count, s.refs[Leaf(p)]))]
    requires t == s.(refs := t.refs, count := t.count, writable := t.writable, region := t.region)
    ensures Counted(t.refs, t.count) && Accounted(t)
    ensures forall r: Ref {:trigger SameRef(s, t, r)} :: r != Leaf(p) && r != Leaf(q) ==> SameRef(s, t, r)
  {
    var f := s.refs[Leaf(p)];
    assert Leaf(p) in Owners(s.refs, f) && Agrees(|Owners(s.refs, f)|, Count(s.count, f));
    AddOwner(s.refs, s.count, Leaf(q), f, Shared(Count(s.count, f)));
    forall g | g in t.frames ensures g in t.free || g in t.limbo || Owners(t.refs, g) != {} {
      if Owners(s.refs, g) != {} {
        var r :| r in Owners(s.refs, g);
        assert r in Owners(t.refs, g);
      }
    }
  }

  lemma SharedParent(s: State, t: State, p: Page, q: Page)
    requires Local(s, p.space) && p.space in s.pcs && s.pcs[p.space].Forking? && s.pcs[p.space].child == q.space
    requires q.number == p.number && Cloned(s.pcs[p.space].skip, p.number)
    requires HasLeaf(s, p) && !HasLeaf(s, q)
    requires t.refs == s.refs[Leaf(q) := s.refs[Leaf(p)]] && t.writable == s.writable - {q}
    requires t.region == if p in s.region then s.region + {q} else s.region - {q}
    requires t == s.(refs := t.refs, count := t.count, writable := t.writable, region := t.region)
    ensures Local(t, p.space)
  {
    var a, c := p.space, q.space;
    forall n: nat ensures PageOk(t, Page(a, n)) && Page(a, n) !in t.writable {
      assert PageOk(s, Page(a, n));
    }
    forall r: Ref | r in t.refs && r.at.space == a ensures RefOk(t, r) {
      assert RefOk(s, r);
    }
    assert Mirrors(t, a, c) by {
      assert Mirrors(s, a, c);
      forall n: nat | HasLeaf(t, Page(c, n))
        ensures HasLeaf(t, Page(a, n)) && t.refs[Leaf(Page(c, n))] == t.refs[Leaf(Page(a, n))]
        ensures Page(c, n) in t.region <==> Page(a, n) in t.region
      {
        assert Page(c, n) == q || HasLeaf(s, Page(c, n));
      }
    }
    assert Selected(t, c, s.pcs[a].skip) by {
      assert Selected(s, c, s.pcs[a].skip);
      assert forall n: nat :: HasLeaf(t, Page(c, n)) ==> HasLeaf(s, Page(c, n)) || n == p.number;
    }
  }

  lemma SharedChild(s: State, t: State, p: Page, q: Page)
    requires Local(s, q.space) && At(s, q.space, Embryo) && p.space != q.space && HasLeaf(s, p) && !HasLeaf(s, q)
    requires t.refs == s.refs[Leaf(q) := s.refs[Leaf(p)]] && t.writable == s.writable - {q}
    requires t.region == if p in s.region then s.region + {q} else s.region - {q}
    requires t == s.(refs := t.refs, count := t.count, writable := t.writable, region := t.region)
    ensures Local(t, q.space)
  {
    var c := q.space;
    forall n: nat ensures PageOk(t, Page(c, n)) && Page(c, n) !in t.writable {
      assert PageOk(s, Page(c, n));
    }
    forall r: Ref | r in t.refs && r.at.space == c ensures RefOk(t, r) {
      assert r == Leaf(q) || RefOk(s, r);
    }
  }

  lemma ForkShareKeepsInv(s: State, p: Page)
    requires Inv(s) && Enabled(s, ForkShare(p))
    ensures Inv(Apply(s, ForkShare(p)))
  {
    var t, a, q := Apply(s, ForkShare(p)), p.space, Page(s.pcs[p.space].child, p.number);
    assert Local(s, a) && Local(s, q.space);
    SharedRefs(s, t, p, q);
    SharedParent(s, t, p, q);
    SharedChild(s, t, p, q);
    OtherPair(s, t, a, q.space);
    Together(s, t, a, q.space);
  }

  lemma CommitLocal(s: State, t: State, b: nat)
    requires Local(s, b) && b in s.pcs && t == s.(pcs := t.pcs) && At(t, b, Running)
    requires s.pcs[b].Forking? || (s.pcs[b].Embryo? && NoDangling(s, b))
    ensures Local(t, b)
  {
    forall n: nat ensures PageOk(t, Page(b, n)) {
      assert PageOk(s, Page(b, n));
    }
    forall r: Ref | r in t.refs && r.at.space == b ensures RefOk(t, r) {
      assert RefOk(s, r);
    }
  }

  lemma ForkCommitKeepsInv(s: State, a: nat)
    requires Inv(s) && Enabled(s, ForkCommit(a))
    ensures Inv(Apply(s, ForkCommit(a)))
  {
    var t, c := Apply(s, ForkCommit(a)), s.pcs[a].child;
    assert Local(s, a) && Local(s, c);
    CommitLocal(s, t, a);
    CommitLocal(s, t, c);
    OtherPair(s, t, a, c);
    Together(s, t, a, c);
  }

  /** `unshare` takes the child's leaf out of the count and never sees the last reference. */
  lemma UnsharedRefs(s: State, t: State, p: Page, q: Page)
    requires Counted(s.refs, s.count) && Accounted(s) && HasLeaf(s, p) && HasLeaf(s, q) && p != q
    requires s.refs[Leaf(q)] == s.refs[Leaf(p)] && t.refs == s.refs - {Leaf(q)}
    requires t.count == s.count[s.refs[Leaf(q)] := Unshared(Count(s.count, s.refs[Leaf(q)]))]
    requires t == s.(refs := t.refs, count := t.count, dangling := t.dangling, region := t.region, pcs := t.pcs)
    ensures Counted(t.refs, t.count) && Accounted(t) && Count(s.count, s.refs[Leaf(q)]) >= 2
    ensures forall r: Ref {:trigger SameRef(s, t, r)} :: r != Leaf(q) ==> SameRef(s, t, r)
  {
    var f := s.refs[Leaf(q)];
    var o := Owners(s.refs, f);
    assert Leaf(q) in o && Leaf(p) in o - {Leaf(q)} && |o - {Leaf(q)}| == |o| - 1;
    assert Agrees(|o|, Count(s.count, f));
    RemoveOwner(s.refs, s.count, Leaf(q), Unshared(Count(s.count, f)));
    forall g | g in t.frames ensures g in t.free || g in t.limbo || Owners(t.refs, g) != {} {
      if g == f {
        assert Leaf(p) in Owners(t.refs, g);
      } else if Owners(s.refs, g) != {} {
        var r :| r in Owners(s.refs, g);
        assert r in Owners(t.refs, g);
      }
    }
  }

  lemma UnsharedParent(s: State, t: State, p: Page, q: Page, pc: Pc)
    requires Local(s, p.space) && At(s, p.space, Unwinding(q.space)) && q.number == p.number && HasLeaf(s, q)
    requires t.refs == s.refs - {Leaf(q)} && t.region == s.region - {q}
             && t.dangling == s.dangling[q := s.refs[Leaf(q)]]
    requires t == s.(refs := t.refs, count := t.count, dangling := t.dangling, region := t.region, pcs := t.pcs)
    requires pc == Unwinding(q.space) || pc == Normalizing(q.space, s.refs[Leaf(q)])
    requires t.pcs == s.pcs[p.space := pc]
    ensures Local(t, p.space)
  {
    var a, c := p.space, q.space;
    forall n: nat ensures PageOk(t, Page(a, n)) && Page(a, n) !in t.writable {
      assert PageOk(s, Page(a, n));
    }
    forall r: Ref | r in t.refs && r.at.space == a ensures RefOk(t, r) {
      assert RefOk(s, r);
    }
    assert Mirrors(t, a, c) && Haunts(t, a, c) by {
      assert Mirrors(s, a, c) && Haunts(s, a, c);
      assert forall n: nat :: HasLeaf(t, Page(c, n)) ==> HasLeaf(s, Page(c, n));
    }
  }

  lemma UnsharedChild(s: State, t: State, q: Page)
    requires Local(s, q.space) && At(s, q.space, Embryo) && At(t, q.space, Embryo) && HasLeaf(s, q)
    requires t.refs == s.refs - {Leaf(q)} && t.region == s.region - {q}
             && t.dangling == s.dangling[q := s.refs[Leaf(q)]]
    requires t == s.(refs := t.refs, count := t.count, dangling := t.dangling, region := t.region, pcs := t.pcs)
    ensures Local(t, q.space)
  {
    var c := q.space;
    forall n: nat ensures PageOk(t, Page(c, n)) && Page(c, n) !in t.writable {
      assert PageOk(s, Page(c, n));
    }
    forall r: Ref | r in t.refs && r.at.space == c ensures RefOk(t, r) {
      assert RefOk(s, r);
    }
  }

  lemma Unwound(s: State, t: State, p: Page, q: Page, pc: Pc)
    requires Inv(s) && At(s, p.space, Unwinding(q.space)) && q.number == p.number && HasLeaf(s, q)
    requires pc == Unwinding(q.space) || pc == Normalizing(q.space, s.refs[Leaf(q)])
    requires t.count == s.count[s.refs[Leaf(q)] := Unshared(Count(s.count, s.refs[Leaf(q)]))]
    requires t == s.(refs := s.refs - {Leaf(q)}, dangling := s.dangling[q := s.refs[Leaf(q)]], count := t.count,
                     region := s.region - {q}, pcs := s.pcs[p.space := pc])
    ensures Inv(t)
  {
    var a := p.space;
    assert Local(s, a) && Local(s, q.space);
    assert HasLeaf(s, Page(a, p.number)) && Page(a, p.number) == p;
    UnsharedRefs(s, t, p, q);
    UnsharedParent(s, t, p, q, pc);
    UnsharedChild(s, t, q);
    StillOneParent(s.pcs, a, pc);
    OtherPair(s, t, a, q.space);
    Together(s, t, a, q.space);
  }

  lemma UnshareKeepsInv(s: State, p: Page)
    requires Inv(s) && Enabled(s, Unshare(p))
    ensures Inv(Apply(s, Unshare(p)))
  {
    var t := Apply(s, Unshare(p));
    Unwound(s, t, p, Page(s.pcs[p.space].child, p.number), t.pcs[p.space]);
  }

  lemma AbandonLocal(s: State, t: State, a: nat, c: nat)
    requires Local(s, a) && Local(s, c) && At(s, a, Destroying(c)) && NoDangling(s, c)
    requires t == s.(pcs := s.pcs[a := Running] - {c})
    ensures Local(t, a) && Local(t, c)
  {
    forall n: nat ensures PageOk(t, Page(a, n)) && PageOk(t, Page(c, n)) {
      assert PageOk(s, Page(a, n)) && PageOk(s, Page(c, n));
    }
    forall r: Ref | r in t.refs && r.at.space == a ensures RefOk(t, r) {
      assert RefOk(s, r);
    }
    forall r: Ref | r.at.space == c ensures r !in t.refs {
      assert r in s.refs ==> RefOk(s, r);
      assert r == Leaf(Page(c, r.at.number)) ==> !HasLeaf(s, Page(c, r.at.number));
    }
  }

  lemma ForkAbandonKeepsInv(s: State, a: nat)
    requires Inv(s) && Enabled(s, ForkAbandon(a))
    ensures Inv(Apply(s, ForkAbandon(a)))
  {
    var t, c := Apply(s, ForkAbandon(a)), s.pcs[a].child;
    assert Local(s, a) && Local(s, c);
    AbandonLocal(s, t, a, c);
    OtherPair(s, t, a, c);
    Together(s, t, a, c);
  }

  // ---- The two steps of a failed fork that can break it ------------------------------------

  /** No page the parent may write is shared with an earlier child. */
  ghost predicate NothingShared(s: State, a: nat) {
    forall n: nat :: Page(a, n) in s.region ==> Sole(s.refs, Leaf(Page(a, n)))
  }

  lemma RolledBackLocal(s: State, t: State, a: nat, c: nat)
    requires Local(s, a) && At(s, a, Unwinding(c)) && NoLeaf(s, c) && NothingShared(s, a)
    requires t == s.(writable := s.writable + Of(s.region, a), pcs := s.pcs[a := Destroying(c)])
    ensures Local(t, a)
  {
    forall n: nat ensures PageOk(t, Page(a, n)) {
      assert PageOk(s, Page(a, n));
    }
    forall r: Ref | r in t.refs && r.at.space == a ensures RefOk(t, r) {
      assert RefOk(s, r);
    }
    assert Haunts(t, a, c) by {
      assert Haunts(s, a, c);
    }
  }

  /** Making every page of the writable regions writable again is right exactly when none of them is shared. */
  lemma RollbackKeepsInv(s: State, a: nat)
    requires Inv(s) && Enabled(s, Rollback(a))
    ensures Inv(Apply(s, Rollback(a))) <==> NothingShared(s, a)
  {
    var t, c := Apply(s, Rollback(a)), s.pcs[a].child;
    assert Local(s, a);
    if NothingShared(s, a) {
      RolledBackLocal(s, t, a, c);
      StillOneParent(s.pcs, a, t.pcs[a]);
      Others(s, t, a);
      Alone(s, t, a);
    } else {
      var n: nat :| Page(a, n) in s.region && !Sole(s.refs, Leaf(Page(a, n)));
      assert !PageOk(t, Page(a, n));
      assert !Local(t, a);
    }
  }

  /** Tearing the child's root down drops a reference the child no longer has. */
  lemma DropDanglingBreaks(s: State, a: nat, p: Page)
    requires Inv(s) && Enabled(s, DropDangling(a, p))
    ensures !Inv(Apply(s, DropDangling(a, p)))
  {
    var t, f, home := Apply(s, DropDangling(a, p)), s.dangling[p], Leaf(Page(a, p.number));
    assert Local(s, a) && p == Page(p.space, p.number);
    assert home in s.refs && s.refs[home] == f;
    var o := Owners(s.refs, f);
    assert home in o && Agrees(|o|, Count(s.count, f));
    assert |o| >= 1;
    if Count(s.count, f) <= 1 {
      assert t.refs[home] in t.limbo;
    } else {
      assert Owners(t.refs, f) == o;
      assert !Agrees(|o|, Count(t.count, f));
    }
  }

  // ---- Every step --------------------------------------------------------------------------

  /** The steps that keep the invariant: all but the two above. */
  ghost predicate Clean(s: State, e: Event) {
    match e
    case Rollback(a) => NothingShared(s, a)
    case DropDangling(a, p) => false
    case _ => true
  }

  predicate IsFork(e: Event) {
    || e.ForkStart? || e.ForkShare? || e.ForkCommit? || e.ForkFail? || e.Unshare? || e.Normalize? || e.Rollback?
    || e.DropDangling? || e.ForkAbandon?
  }

  predicate IsFault(e: Event) {
    || e.FaultSole? || e.Privatize? || e.MakeWritable? || e.FaultShared? || e.Copy? || e.OutOfMemory? || e.Repoint?
  }

  lemma ForkKeepsInv(s: State, e: Event)
    requires Inv(s) && Enabled(s, e) && IsFork(e)
    ensures Inv(Apply(s, e)) <==> Clean(s, e)
  {
    if e.ForkStart? {
      ForkStartKeepsInv(s, e.space, e.child, e.skip);
    } else if e.ForkShare? {
      ForkShareKeepsInv(s, e.page);
    } else if e.ForkCommit? {
      ForkCommitKeepsInv(s, e.space);
    } else if e.ForkFail? {
      ForkFailKeepsInv(s, e.space);
    } else if e.Unshare? {
      UnshareKeepsInv(s, e.page);
    } else if e.Normalize? {
      NormalizeKeepsInv(s, e.space);
    } else if e.Rollback? {
      RollbackKeepsInv(s, e.space);
    } else if e.DropDangling? {
      DropDanglingBreaks(s, e.space, e.entry);
    } else {
      ForkAbandonKeepsInv(s, e.space);
    }
  }

  lemma ResolverKeepsInv(s: State, e: Event)
    requires Inv(s) && Enabled(s, e) && IsFault(e)
    ensures Inv(Apply(s, e))
  {
    if e.FaultSole? || e.FaultShared? {
      FaultKeepsInv(s, e.page, e);
    } else if e.Privatize? {
      PrivatizeKeepsInv(s, e.space);
    } else if e.MakeWritable? {
      MakeWritableKeepsInv(s, e.space);
    } else if e.Copy? {
      CopyKeepsInv(s, e.space, e.frame);
    } else if e.OutOfMemory? {
      EndKeepsInv(s, e.space, e);
    } else {
      RepointKeepsInv(s, e.space);
    }
  }

  lemma ProcessKeepsInv(s: State, e: Event)
    requires Inv(s) && Enabled(s, e) && !IsFork(e) && !IsFault(e)
    ensures Inv(Apply(s, e))
  {
    if e.Spawn? {
      SpawnKeepsInv(s, e.space);
    } else if e.MapPage? {
      MapKeepsInv(s, e.page, e.frame, e.content, e.rw);
    } else if e.Write? {
      WriteKeepsInv(s, e.page, e.content);
    } else if e.Unmap? || e.ExitUnmap? {
      UnmapKeepsInv(s, e.page, e);
    } else if e.Decref? {
      DecrefKeepsInv(s, e.page);
    } else if e.Release? {
      ReleaseKeepsInv(s, e.frame);
    } else if e.ExitStart? {
      EndKeepsInv(s, e.space, e);
    } else {
      ExitDoneKeepsInv(s, e.space);
    }
  }

  lemma StepKeepsInv(s: State, e: Event)
    requires Inv(s) && Enabled(s, e)
    ensures Inv(Apply(s, e)) <==> Clean(s, e)
  {
    if IsFork(e) {
      ForkKeepsInv(s, e);
    } else if IsFault(e) {
      ResolverKeepsInv(s, e);
    } else {
      ProcessKeepsInv(s, e);
    }
  }
}
