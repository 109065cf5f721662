/**
  The coalescing list of reclaimed IOVA windows (`FreeIovaWindows` in
  `kernel/src/iommu/vt_d.rs`): 64 slots, `push` merges a window with the neighbours it touches,
  `take` hands out the tightest window that fits below a limit.

  The list is proved against the set of addresses it covers.
 */
module IovaWindows {

  import opened Common

  const CAPACITY: nat := 64

  datatype Window = Window(base: nat, size: nat) {

    function End(): nat {
      base + size
    }

    predicate Holds(x: nat) {
      base <= x < base + size
    }

    predicate Proper() {
      base > 0 && size > 0 && base % PAGE == 0 && size % PAGE == 0
    }

    /** One window ends exactly where the other begins. */
    predicate Touches(w: Window) {
      End() == w.base || w.End() == base
    }

    predicate Apart(w: Window) {
      End() <= w.base || w.End() <= base
    }

    function Join(w: Window): Window {
      if End() == w.base then Window(base, size + w.size) else Window(w.base, size + w.size)
    }
  }

  predicate Proper(s: seq<Window>) {
    forall i | 0 <= i < |s| :: s[i].Proper()
  }

  ghost predicate Covers(s: seq<Window>, x: nat) {
    exists i | 0 <= i < |s| :: s[i].Holds(x)
  }

  predicate AllApart(s: seq<Window>, w: Window) {
    forall i | 0 <= i < |s| :: s[i].Apart(w)
  }

  predicate NoneTouches(s: seq<Window>, w: Window) {
    forall i | 0 <= i < |s| :: !w.Touches(s[i])
  }

  /** Pairwise disjoint and fully coalesced. */
  predicate Separate(s: seq<Window>) {
    forall i, j | 0 <= i < |s| && 0 <= j < |s| && i != j :: s[i].Apart(s[j]) && !s[i].Touches(s[j])
  }

  /** Overwrite entry `i` with the last one and drop the last. */
  function RemoveAt(s: seq<Window>, i: nat): seq<Window>
    requires i < |s|
  {
    s[i := s[|s| - 1]][..|s| - 1]
  }

  lemma RemoveCovers(s: seq<Window>, i: nat, x: nat)
    requires i < |s|
    ensures Covers(s, x) <==> Covers(RemoveAt(s, i), x) || s[i].Holds(x)
  {
    var r := RemoveAt(s, i);
    if Covers(s, x) {
      var k :| 0 <= k < |s| && s[k].Holds(x);
      if k != i {
        assert r[if k == |s| - 1 then i else k] == s[k];
      }
    }
    if Covers(r, x) {
      var k :| 0 <= k < |r| && r[k].Holds(x);
      assert r[k] == s[if k == i then |s| - 1 else k];
    }
  }

  // ── push ───────────────────────────────────────────────────────────

  /** First entry at or after `i` that touches `w`; `|s|` when there is none. */
  function FirstTouch(s: seq<Window>, w: Window, i: nat): (k: nat)
    requires i <= |s|
    ensures i <= k <= |s|
    ensures k < |s| ==> w.Touches(s[k])
    ensures forall j | i <= j < k :: !w.Touches(s[j])
    decreases |s| - i
  {
    if i == |s| || w.Touches(s[i]) then i else FirstTouch(s, w, i + 1)
  }

  /** Merge entries into `w` until none touches it. */
  function Absorb(s: seq<Window>, w: Window): (seq<Window>, Window)
    decreases |s|
  {
    var k := FirstTouch(s, w, 0);
    if k == |s| then (s, w) else Absorb(RemoveAt(s, k), w.Join(s[k]))
  }

  function Pushed(s: seq<Window>, w: Window): seq<Window> {
    var (rest, merged) := Absorb(s, w);
    if |rest| < CAPACITY then rest + [merged] else rest
  }

  lemma JoinProper(w: Window, e: Window)
    requires w.Proper() && e.Proper()
    ensures w.Join(e).Proper()
  {
  }

  lemma AbsorbStep(s: seq<Window>, w: Window)
    ensures Absorb(s, w) == var k := FirstTouch(s, w, 0);
                            if k == |s| then (s, w) else Absorb(RemoveAt(s, k), w.Join(s[k]))
  {
  }

  lemma {:induction false} AbsorbStops(s: seq<Window>, w: Window)
    ensures NoneTouches(Absorb(s, w).0, Absorb(s, w).1)
    ensures |Absorb(s, w).0| <= |s|
    ensures |Absorb(s, w).0| == |s| <==> NoneTouches(s, w)
    ensures NoneTouches(s, w) ==> Absorb(s, w) == (s, w)
    decreases |s|
  {
    var k := FirstTouch(s, w, 0);
    if k < |s| {
      AbsorbStops(RemoveAt(s, k), w.Join(s[k]));
    }
  }

  lemma {:induction false} AbsorbProper(s: seq<Window>, w: Window)
    requires Proper(s) && w.Proper()
    ensures Proper(Absorb(s, w).0) && Absorb(s, w).1.Proper()
    decreases |s|
  {
    var k := FirstTouch(s, w, 0);
    if k < |s| {
      AbsorbProper(RemoveAt(s, k), w.Join(s[k]));
    }
  }

  lemma {:induction false} AbsorbCovers(s: seq<Window>, w: Window, x: nat)
    ensures Covers(Absorb(s, w).0, x) || Absorb(s, w).1.Holds(x) <==> Covers(s, x) || w.Holds(x)
    decreases |s|
  {
    var k := FirstTouch(s, w, 0);
    if k < |s| {
      RemoveCovers(s, k, x);
      AbsorbCovers(RemoveAt(s, k), w.Join(s[k]), x);
    }
  }

  lemma RemoveSeparate(s: seq<Window>, k: nat)
    requires Separate(s) && k < |s|
    ensures Separate(RemoveAt(s, k)) && AllApart(RemoveAt(s, k), s[k])
    ensures NoneTouches(RemoveAt(s, k), s[k])
  {
    var r := RemoveAt(s, k);
    forall j | 0 <= j < |r|
      ensures r[j].Apart(s[k]) && !s[k].Touches(r[j])
    {
      assert r[j] == s[if j == k then |s| - 1 else j];
    }
  }

  lemma RemoveApart(s: seq<Window>, k: nat, w: Window)
    requires AllApart(s, w) && k < |s|
    ensures AllApart(RemoveAt(s, k), w)
  {
  }

  lemma {:induction false} AbsorbSeparate(s: seq<Window>, w: Window)
    requires Separate(s) && AllApart(s, w) && Proper(s) && w.Proper()
    ensures Separate(Absorb(s, w).0) && AllApart(Absorb(s, w).0, Absorb(s, w).1)
    decreases |s|
  {
    var k := FirstTouch(s, w, 0);
    if k < |s| {
      RemoveSeparate(s, k);
      RemoveApart(s, k, w);
      AbsorbSeparate(RemoveAt(s, k), w.Join(s[k]));
    }
  }

  lemma AppendCovers(s: seq<Window>, w: Window, x: nat)
    ensures Covers(s + [w], x) <==> Covers(s, x) || w.Holds(x)
  {
    var t := s + [w];
    if Covers(s, x) {
      var k :| 0 <= k < |s| && s[k].Holds(x);
      assert t[k] == s[k];
    }
    if w.Holds(x) {
      assert t[|s|] == w;
    }
  }

  /** The list is full and `w` merges with nothing: the one case in which a window is leaked. */
  predicate Leaks(s: seq<Window>, w: Window) {
    |s| >= CAPACITY && NoneTouches(s, w)
  }

  /** A push adds exactly the window to the covered addresses, unless it leaks it. */
  lemma PushCovers(s: seq<Window>, w: Window, x: nat)
    requires |s| <= CAPACITY
    ensures Leaks(s, w) ==> Pushed(s, w) == s
    ensures !Leaks(s, w) ==> (Covers(Pushed(s, w), x) <==> Covers(s, x) || w.Holds(x))
    ensures |Pushed(s, w)| <= CAPACITY
  {
    AbsorbStops(s, w);
    AbsorbCovers(s, w, x);
    AppendCovers(Absorb(s, w).0, Absorb(s, w).1, x);
  }

  lemma PushProper(s: seq<Window>, w: Window)
    requires Proper(s) && w.Proper()
    ensures Proper(Pushed(s, w))
  {
    AbsorbProper(s, w);
  }

  /** Pushing a window apart from every entry keeps the list disjoint and fully coalesced. */
  lemma PushSeparate(s: seq<Window>, w: Window)
    requires Separate(s) && AllApart(s, w) && Proper(s) && w.Proper()
    ensures Separate(Pushed(s, w))
  {
    AbsorbSeparate(s, w);
    AbsorbStops(s, w);
  }

  // ── take ───────────────────────────────────────────────────────────

  predicate Fits(e: Window, size: nat, limit: nat) {
    e.size >= size && e.base + size <= limit
  }

  predicate NoneFits(s: seq<Window>, size: nat, limit: nat) {
    forall i | 0 <= i < |s| :: !Fits(s[i], size, limit)
  }

  /** Entry `k` fits, and no entry that fits is smaller. */
  predicate Tightest(s: seq<Window>, k: nat, size: nat, limit: nat) {
    && k < |s| && Fits(s[k], size, limit)
    && forall i | 0 <= i < |s| && Fits(s[i], size, limit) :: s[k].size <= s[i].size
  }

  /** The list after the first `size` bytes of entry `k` are handed out. */
  function Taken(s: seq<Window>, k: nat, size: nat): seq<Window>
    requires k < |s| && size <= s[k].size
  {
    if s[k].size == size then RemoveAt(s, k) else s[k := Window(s[k].base + size, s[k].size - size)]
  }

  lemma TakeProper(s: seq<Window>, k: nat, size: nat)
    requires Proper(s) && k < |s| && 0 < size <= s[k].size && size % PAGE == 0
    ensures Proper(Taken(s, k, size))
  {
  }

  /** Whatever the list, a take gives up only addresses of the returned window, and no others appear. */
  lemma TakeCovers(s: seq<Window>, k: nat, size: nat, x: nat)
    requires k < |s| && size <= s[k].size
    ensures Covers(Taken(s, k, size), x) ==> Covers(s, x)
    ensures Covers(s, x) ==> Covers(Taken(s, k, size), x) || Window(s[k].base, size).Holds(x)
    ensures Window(s[k].base, size).Holds(x) ==> Covers(s, x)
    ensures Separate(s) ==> (Covers(Taken(s, k, size), x) <==> Covers(s, x) && !Window(s[k].base, size).Holds(x))
  {
    var t := Taken(s, k, size);
    if s[k].size == size {
      RemoveCovers(s, k, x);
    } else {
      if Covers(s, x) {
        var j :| 0 <= j < |s| && s[j].Holds(x);
        assert t[j] == if j == k then Window(s[k].base + size, s[k].size - size) else s[j];
      }
    }
  }

  /** On a disjoint list a take removes exactly the returned window, and the list stays coalesced. */
  lemma TakeSeparate(s: seq<Window>, k: nat, size: nat)
    requires Separate(s) && Proper(s) && k < |s| && 0 < size <= s[k].size
    ensures Separate(Taken(s, k, size)) && AllApart(Taken(s, k, size), Window(s[k].base, size))
  {
    if s[k].size == size {
      RemoveSeparate(s, k);
    } else {
      var t := Taken(s, k, size);
      assert forall i, j | 0 <= i < |t| && 0 <= j < |t| && i != j :: s[i].Apart(s[j]) && !s[i].Touches(s[j]);
    }
  }

  // ── The list in place ──────────────────────────────────────────────

  class FreeIovaWindows {
    const entries: array<Window>
    var len: nat

    ghost predicate Valid()
      reads this, entries
    {
      entries.Length == CAPACITY && len <= CAPACITY && Proper(entries[..len])
    }

    ghost function Contents(): seq<Window>
      requires len <= entries.Length
      reads this, entries
    {
      entries[..len]
    }

    constructor ()
      ensures Valid() && Contents() == [] && fresh(entries)
    {
      entries := new Window[CAPACITY](_ => Window(0, 0));
      len := 0;
    }

    method Remove(i: nat)
      requires Valid() && i < len
      modifies this, entries
      ensures Valid() && Contents() == RemoveAt(old(Contents()), i)
    {
      entries[i] := entries[len - 1];
      entries[len - 1] := Window(0, 0);
      len := len - 1;
    }

    /** First entry that touches `w`, as the inner loop of `push` finds it. */
    method Scan(w: Window) returns (k: nat)
      requires Valid()
      ensures k == FirstTouch(Contents(), w, 0)
    {
      k := 0;
      while k < len
        invariant k <= len && FirstTouch(Contents(), w, 0) == FirstTouch(Contents(), w, k)
      {
        var e := entries[k];
        if !(e.base == 0 && e.size == 0) && (w.base + w.size == e.base || e.base + e.size == w.base) {
          return;
        }
        k := k + 1;
      }
    }

    /** Merge entries into the window until none touches it. */
    method Coalesce(w0: Window) returns (w: Window)
      requires Valid() && w0.Proper()
      modifies this, entries
      ensures Valid() && w.Proper() && (Contents(), w) == Absorb(old(Contents()), w0)
    {
      w := w0;
      var merged := true;
      while merged
        invariant Valid() && w.Proper()
        invariant Absorb(old(Contents()), w0) == Absorb(Contents(), w)
        invariant !merged ==> Absorb(Contents(), w) == (Contents(), w)
        decreases len, merged
      {
        var k := Scan(w);
        AbsorbStep(Contents(), w);
        merged := k < len;
        if merged {
          JoinProper(w, Contents()[k]);
          w := w.Join(entries[k]);
          Remove(k);
        }
      }
    }

    method Append(w: Window)
      requires Valid() && w.Proper()
      modifies this, entries
      ensures Valid()
      ensures Contents() == if |old(Contents())| < CAPACITY then old(Contents()) + [w] else old(Contents())
    {
      if len < entries.Length {
        entries[len] := w;
        len := len + 1;
        assert entries[..len] == old(entries[..len]) + [w];
      }
    }

    method Push(base: nat, size: nat)
      requires Valid()
      modifies this, entries
      ensures Valid()
      ensures Contents() == if Window(base, size).Proper() then Pushed(old(Contents()), Window(base, size))
                            else old(Contents())
    {
      if base == 0 || size == 0 || base % PAGE != 0 || size % PAGE != 0 {
        return;
      }
      var w := Coalesce(Window(base, size));
      Append(w);
    }

    /** Index of a tightest fit, exact fits preferred; `len` when nothing fits. */
    method Choose(size: nat, limit: nat) returns (k: nat)
      requires Valid()
      ensures k == len ==> NoneFits(Contents(), size, limit)
      ensures k != len ==> Tightest(Contents(), k, size, limit)
    {
      k := 0;
      while k < len
        invariant k <= len
        invariant forall i | 0 <= i < k :: !(entries[i].size == size && entries[i].base + size <= limit)
      {
        if entries[k].size == size && entries[k].base + size <= limit {
          return;
        }
        k := k + 1;
      }
      var i := 0;
      while i < len
        invariant i <= len && k <= len
        invariant k == len ==> NoneFits(entries[..i], size, limit)
        invariant k != len ==> k < i && Tightest(entries[..i], k, size, limit)
      {
        if && entries[i].size >= size && entries[i].base + size <= limit
           && (k == len || entries[i].size < entries[k].size)
        {
          k := i;
        }
        i := i + 1;
      }
    }

    /** `None` exactly when nothing fits; otherwise the start of a tightest fit. */
    method Take(size: nat, limit: nat) returns (r: Option<nat>)
      requires Valid()
      modifies this, entries
      ensures Valid()
      ensures r.None? <==> size == 0 || size % PAGE != 0 || NoneFits(old(Contents()), size, limit)
      ensures r.None? ==> Contents() == old(Contents())
      ensures r.Some? ==> exists k: nat :: Tightest(old(Contents()), k, size, limit)
                                      && r.value == old(Contents())[k].base
                                      && Contents() == Taken(old(Contents()), k, size)
    {
      if size == 0 || size % PAGE != 0 {
        return None;
      }
      var k := Choose(size, limit);
      if k == len {
        return None;
      }
      var e := entries[k];
      TakeProper(Contents(), k, size);
      assert Tightest(old(Contents()), k, size, limit);
      if e.size == size {
        Remove(k);
      } else {
        entries[k] := Window(e.base + size, e.size - size);
        assert Contents() == Taken(old(Contents()), k, size);
      }
      return Some(e.base);
    }
  }
}
