/**
  The search for an audio path in a codec's widget graph (`reach_converter`, `reach_in_pin` and
  `path_hops` in `audio/codec.rs`): breadth first from a widget toward its sources, along connection
  lists (section 7.3.3.3 of the Intel High Definition Audio specification), through mixers, selectors
  and volume knobs.
 */
module CodecSearch {
  import opened Common

  const MAX_CONNS: nat := 32

  const MIXER: nat := 2
  const SELECTOR: nat := 3
  const PIN: nat := 4
  const VOL_KNOB: nat := 6

  datatype Widget = Widget(nid: nat, kind: nat, inCapable: bool, conns: seq<nat>)

  /** What is looked for: a widget of some type, or a pin that can be an input. */
  datatype Goal = Kind(kind: nat) | InputPin

  // ---- The graph ---------------------------------------------------------------------------

  /** The first widget with this node id. */
  function Find(ws: seq<Widget>, nid: nat): (w: Option<Widget>)
    ensures w.Some? ==> w.value in ws && w.value.nid == nid
  {
    if ws == [] then None else if ws[0].nid == nid then Some(ws[0]) else Find(ws[1..], nid)
  }

  predicate Passes(w: Widget) {
    w.kind == MIXER || w.kind == SELECTOR || w.kind == VOL_KNOB
  }

  predicate Meets(w: Widget, goal: Goal) {
    if goal.Kind? then w.kind == goal.kind else w.kind == PIN && w.inCapable
  }

  predicate Passing(ws: seq<Widget>, n: nat) {
    Find(ws, n).Some? && Passes(Find(ws, n).value)
  }

  predicate IsGoal(ws: seq<Widget>, goal: Goal, n: nat) {
    Find(ws, n).Some? && Meets(Find(ws, n).value, goal)
  }

  /** `c` is a source of `a`. Node 0 is no node, and nothing leads back to the start. */
  predicate Edge(ws: seq<Widget>, start: nat, a: nat, c: nat) {
    Find(ws, a).Some? && c in Find(ws, a).value.conns && c != 0 && c != start && Find(ws, c).Some?
  }

  /** A route, source first: from a goal through passing widgets down to the start. */
  ghost predicate Route(ws: seq<Widget>, start: nat, goal: Goal, path: seq<nat>) {
    && |path| >= 2 && path[|path| - 1] == start && IsGoal(ws, goal, path[0])
    && (forall i | 0 <= i < |path| - 1 :: Edge(ws, start, path[i + 1], path[i]))
    && (forall i | 0 < i < |path| - 1 :: Passing(ws, path[i]))
  }

  // ---- What a route is, widget by widget ---------------------------------------------------

  /** Widget `k` is the first with this node id. */
  ghost predicate First(ws: seq<Widget>, k: nat, nid: nat) {
    k < |ws| && ws[k].nid == nid && forall j | 0 <= j < k :: ws[j].nid != nid
  }

  /** Looking up a node id gives the first widget that has it, and nothing exactly when none has. */
  lemma {:induction false} FindsFirst(ws: seq<Widget>, nid: nat) returns (k: nat)
    ensures Find(ws, nid).None? <==> forall i | 0 <= i < |ws| :: ws[i].nid != nid
    ensures Find(ws, nid).Some? ==> First(ws, k, nid) && Find(ws, nid).value == ws[k]
  {
    k := 0;
    if ws != [] && ws[0].nid != nid {
      k := FindsFirst(ws[1..], nid);
      k := k + 1;
      forall i | 0 < i < |ws| ensures ws[i] == ws[1..][i - 1] {
      }
    }
  }

  lemma FirstIsFound(ws: seq<Widget>, k: nat, nid: nat)
    requires First(ws, k, nid)
    ensures Find(ws, nid) == Some(ws[k])
  {
    var _ := FindsFirst(ws, nid);
  }

  ghost predicate Known(ws: seq<Widget>, n: nat) {
    exists k: nat :: First(ws, k, n)
  }

  ghost predicate Lists(ws: seq<Widget>, a: nat, c: nat) {
    exists k: nat :: First(ws, k, a) && c in ws[k].conns
  }

  ghost predicate OfKind(ws: seq<Widget>, n: nat, kind: nat) {
    exists k: nat :: First(ws, k, n) && ws[k].kind == kind
  }

  ghost predicate CanBeInput(ws: seq<Widget>, n: nat) {
    exists k: nat :: First(ws, k, n) && ws[k].inCapable
  }

  /** `Find` in terms of the list alone. */
  lemma Found(ws: seq<Widget>, n: nat)
    ensures Find(ws, n).Some? <==> Known(ws, n)
    ensures Find(ws, n).Some? ==> forall c :: c in Find(ws, n).value.conns <==> Lists(ws, n, c)
    ensures Find(ws, n).Some? ==> forall kind :: Find(ws, n).value.kind == kind <==> OfKind(ws, n, kind)
    ensures Find(ws, n).Some? ==> (Find(ws, n).value.inCapable <==> CanBeInput(ws, n))
  {
    var k := FindsFirst(ws, n);
    if Find(ws, n).Some? {
      assert First(ws, k, n);
      forall j: nat | First(ws, j, n) ensures ws[j] == ws[k] {
        FirstIsFound(ws, j, n);
      }
    }
  }

  /**
    From the goal to the start every node is a widget, every widget lists the one before it, and those in
    between are mixers (2), selectors (3) or volume knobs (6); an input pin is a pin (4) that can be an input.
   */
  ghost predicate Wired(ws: seq<Widget>, start: nat, goal: Goal, path: seq<nat>) {
    && |path| >= 2 && path[|path| - 1] == start
    && (forall i | 0 <= i < |path| - 1 ::
          path[i] != 0 && path[i] != start && Known(ws, path[i]) && Lists(ws, path[i + 1], path[i]))
    && (forall i | 0 < i < |path| - 1 :: OfKind(ws, path[i], 2) || OfKind(ws, path[i], 3) || OfKind(ws, path[i], 6))
    && match goal
       case Kind(t) => OfKind(ws, path[0], t)
       case InputPin => OfKind(ws, path[0], 4) && CanBeInput(ws, path[0])
  }

  lemma EdgeExactly(ws: seq<Widget>, start: nat, a: nat, c: nat)
    ensures Edge(ws, start, a, c) <==> c != 0 && c != start && Known(ws, c) && Lists(ws, a, c)
  {
    Found(ws, a);
    Found(ws, c);
    if Lists(ws, a, c) {
      var k: nat :| First(ws, k, a) && c in ws[k].conns;
      assert Known(ws, a);
    }
  }

  lemma NodeExactly(ws: seq<Widget>, goal: Goal, n: nat)
    requires Known(ws, n)
    ensures Passing(ws, n) <==> OfKind(ws, n, 2) || OfKind(ws, n, 3) || OfKind(ws, n, 6)
    ensures IsGoal(ws, goal, n) <==>
            match goal case Kind(t) => OfKind(ws, n, t) case InputPin => OfKind(ws, n, 4) && CanBeInput(ws, n)
  {
    Found(ws, n);
  }

  lemma RouteWired(ws: seq<Widget>, start: nat, goal: Goal, path: seq<nat>)
    requires Route(ws, start, goal, path)
    ensures Wired(ws, start, goal, path)
  {
    forall i | 0 <= i < |path| - 1
      ensures path[i] != 0 && path[i] != start && Known(ws, path[i]) && Lists(ws, path[i + 1], path[i])
    {
      EdgeExactly(ws, start, path[i + 1], path[i]);
    }
    forall i | 0 < i < |path| - 1 ensures OfKind(ws, path[i], 2) || OfKind(ws, path[i], 3) || OfKind(ws, path[i], 6) {
      NodeExactly(ws, goal, path[i]);
    }
    NodeExactly(ws, goal, path[0]);
  }

  lemma WiredRoute(ws: seq<Widget>, start: nat, goal: Goal, path: seq<nat>)
    requires Wired(ws, start, goal, path)
    ensures Route(ws, start, goal, path)
  {
    forall i | 0 <= i < |path| - 1 ensures Edge(ws, start, path[i + 1], path[i]) {
      EdgeExactly(ws, start, path[i + 1], path[i]);
    }
    forall i | 0 < i < |path| - 1 ensures Passing(ws, path[i]) {
      NodeExactly(ws, goal, path[i]);
    }
    NodeExactly(ws, goal, path[0]);
  }

  /** A route is exactly such a path. */
  lemma RouteExactly(ws: seq<Widget>, start: nat, goal: Goal, path: seq<nat>)
    ensures Route(ws, start, goal, path) <==> Wired(ws, start, goal, path)
  {
    if Route(ws, start, goal, path) {
      RouteWired(ws, start, goal, path);
    } else if Wired(ws, start, goal, path) {
      WiredRoute(ws, start, goal, path);
    }
  }

  // ---- The search tree ---------------------------------------------------------------------

  /** The list of (node, the node it was found from), read as a table. */
  function ParentOf(parents: seq<(nat, nat)>, n: nat): (p: Option<nat>) {
    if parents == [] then None else if parents[0].0 == n then Some(parents[0].1) else ParentOf(parents[1..], n)
  }

  lemma {:induction false} ParentAppended(parents: seq<(nat, nat)>, c: nat, p: nat, n: nat)
    ensures ParentOf(parents + [(c, p)], n) ==
            if ParentOf(parents, n).Some? then ParentOf(parents, n) else if n == c then Some(p) else None
  {
    if parents != [] {
      assert (parents + [(c, p)])[1..] == parents[1..] + [(c, p)];
      ParentAppended(parents[1..], c, p, n);
    }
  }

  /** Every node of the tree is a passing widget, one edge above its parent, and no goal. */
  ghost predicate Tree(ws: seq<Widget>, start: nat, goal: Goal, parents: seq<(nat, nat)>, depth: map<nat, nat>) {
    && start in depth && depth[start] == 0
    && (forall n: nat :: ParentOf(parents, n).Some? <==> n in depth && n != start)
    && (forall n | n in depth && n != start :: Grown(ws, start, goal, parents, depth, n))
  }

  ghost predicate Grown(ws: seq<Widget>, start: nat, goal: Goal, parents: seq<(nat, nat)>, depth: map<nat, nat>, n: nat)
    requires n in depth
  {
    var p := ParentOf(parents, n);
    && p.Some? && p.value in depth && depth[n] == depth[p.value] + 1
    && Edge(ws, start, p.value, n) && Passing(ws, n) && !IsGoal(ws, goal, n)
  }

  lemma TreeGrows(ws: seq<Widget>, start: nat, goal: Goal, parents: seq<(nat, nat)>, depth: map<nat, nat>, a: nat,
                  c: nat)
    requires Tree(ws, start, goal, parents, depth) && a in depth && c !in depth
    requires Edge(ws, start, a, c) && Passing(ws, c) && !IsGoal(ws, goal, c)
    ensures Tree(ws, start, goal, parents + [(c, a)], depth[c := depth[a] + 1])
  {
    var more, deeper := parents + [(c, a)], depth[c := depth[a] + 1];
    forall n: nat ensures ParentOf(more, n).Some? <==> n in deeper && n != start {
      ParentAppended(parents, c, a, n);
    }
    forall n | n in deeper && n != start ensures Grown(ws, start, goal, more, deeper, n) {
      ParentAppended(parents, c, a, n);
      if n != c {
        assert Grown(ws, start, goal, parents, depth, n);
      }
    }
  }

  /** Nothing is lost at node `a`: no goal above it, and every passing widget above it is in the tree, low enough. */
  ghost predicate Handled(ws: seq<Widget>, start: nat, goal: Goal, depth: map<nat, nat>, a: nat)
    requires a in depth
  {
    forall c | Edge(ws, start, a, c) ::
      !IsGoal(ws, goal, c) && (Passing(ws, c) ==> c in depth && depth[c] <= depth[a] + 1)
  }

  /** All nodes below level `r` are handled. */
  ghost predicate Swept(ws: seq<Widget>, start: nat, goal: Goal, depth: map<nat, nat>, r: nat) {
    start in depth && depth[start] == 0 && forall a | a in depth && depth[a] < r :: Handled(ws, start, goal, depth, a)
  }

  lemma {:induction false} RouteInTree(ws: seq<Widget>, start: nat, goal: Goal, depth: map<nat, nat>, r: nat,
                                       path: seq<nat>, i: nat)
    requires Swept(ws, start, goal, depth, r) && Route(ws, start, goal, path) && 1 <= i < |path| && |path| - 1 - i <= r
    ensures path[i] in depth && depth[path[i]] <= |path| - 1 - i
    decreases |path| - i
  {
    if i < |path| - 1 {
      RouteInTree(ws, start, goal, depth, r, path, i + 1);
      assert Handled(ws, start, goal, depth, path[i + 1]);
    }
  }

  /** Once the first `r` levels are handled, every route has more than `r` edges. */
  lemma SweptMeansLonger(ws: seq<Widget>, start: nat, goal: Goal, depth: map<nat, nat>, r: nat, path: seq<nat>)
    requires Swept(ws, start, goal, depth, r) && Route(ws, start, goal, path)
    ensures |path| - 1 > r
  {
    assert Edge(ws, start, path[1], path[0]);
    if |path| - 1 <= r {
      RouteInTree(ws, start, goal, depth, r, path, 1);
    }
  }

  // ---- Reading the path off the tree -------------------------------------------------------

  /** A path that is a route but for its length, from some node down to the start. */
  ghost predicate Descends(ws: seq<Widget>, start: nat, path: seq<nat>) {
    && (forall i | 0 <= i < |path| - 1 :: Edge(ws, start, path[i + 1], path[i]))
    && (forall i | 0 < i < |path| - 1 :: Passing(ws, path[i]))
  }

  lemma DescendsOn(ws: seq<Widget>, start: nat, path: seq<nat>, cur: nat)
    requires |path| >= 1 && Descends(ws, start, path) && Edge(ws, start, cur, path[|path| - 1])
    requires |path| > 1 ==> Passing(ws, path[|path| - 1])
    ensures Descends(ws, start, path + [cur])
  {
  }

  /**
    Follow the parents from `from` down to the start. The two ways out of the loop that give up are
    written as in the driver; neither is ever taken.
   */
  method Rebuild(ws: seq<Widget>, start: nat, ghost goal: Goal, parents: seq<(nat, nat)>, ghost depth: map<nat, nat>,
                 c: nat, from: nat)
    returns (path: seq<nat>, tooLong: bool)
    requires Tree(ws, start, goal, parents, depth) && from in depth && depth[from] < MAX_CONNS
             && Edge(ws, start, from, c)
    ensures !tooLong && |path| == depth[from] + 2 && path[0] == c && path[|path| - 1] == start
            && Descends(ws, start, path)
  {
    path := [c];
    tooLong := false;
    var cur := from;
    while true
      invariant cur in depth && |path| == depth[from] - depth[cur] + 1 && path[0] == c && !tooLong
      invariant Edge(ws, start, cur, path[|path| - 1]) && (|path| > 1 ==> Passing(ws, path[|path| - 1]))
      invariant Descends(ws, start, path)
      decreases depth[cur]
    {
      DescendsOn(ws, start, path, cur);
      path := path + [cur];
      if cur == start {
        break;
      }
      assert Grown(ws, start, goal, parents, depth, cur);
      var p := ParentOf(parents, cur);
      cur := if p.Some? then p.value else start;
      tooLong := |path| > MAX_CONNS;
      if tooLong {
        break;
      }
    }
  }

  /** The position of a node in a connection list. */
  function Position(conns: seq<nat>, c: nat): (i: Option<nat>)
    ensures i.Some? <==> c in conns
    ensures i.Some? ==> i.value < |conns| && conns[i.value] == c && c !in conns[..i.value]
  {
    if conns == [] then None
    else if conns[0] == c then Some(0)
    else match Position(conns[1..], c)
      case None => None
      case Some(i) => assert conns[..i + 1] == [conns[0]] + conns[1..][..i]; Some(i + 1)
  }

  datatype Hop = Hop(nid: nat, index: nat)

  /** Each hop after the first selects, in its own connection list, the hop before it. */
  ghost predicate Selects(ws: seq<Widget>, hops: seq<Hop>) {
    forall j | 0 < j < |hops| ::
      && Find(ws, hops[j].nid).Some? && hops[j].index < |Find(ws, hops[j].nid).value.conns|
      && Find(ws, hops[j].nid).value.conns[hops[j].index] == hops[j - 1].nid
  }

  method PathHops(ws: seq<Widget>, path: seq<nat>) returns (hops: seq<Hop>)
    ensures |hops| == |path| && (forall j | 0 <= j < |path| :: hops[j].nid == path[j])
    ensures forall j | 0 < j < |path| && Find(ws, path[j]).Some? && path[j - 1] in Find(ws, path[j]).value.conns ::
              && hops[j].index < |Find(ws, path[j]).value.conns|
              && Find(ws, path[j]).value.conns[hops[j].index] == path[j - 1]
  {
    hops := [];
    for j := 0 to |path|
      invariant |hops| == j && (forall i | 0 <= i < j :: hops[i].nid == path[i])
      invariant forall i | 0 < i < j && Find(ws, path[i]).Some? && path[i - 1] in Find(ws, path[i]).value.conns ::
                  && hops[i].index < |Find(ws, path[i]).value.conns|
                  && Find(ws, path[i]).value.conns[hops[i].index] == path[i - 1]
    {
      var index := 0;
      if j > 0 {
        var w := Find(ws, path[j]);
        if w.Some? {
          var at := Position(w.value.conns, path[j - 1]);
          index := if at.Some? then at.value else 0;
        }
      }
      hops := hops + [Hop(path[j], index)];
    }
  }

  // ---- One level of the search -------------------------------------------------------------

  /** Inside level `r`: the nodes one level up are exactly those collected for the next round. */
  ghost predicate Levels(depth: map<nat, nat>, next: seq<nat>, r: nat) {
    && (forall n | n in depth :: depth[n] <= r + 1 && (depth[n] == r + 1 ==> n in next))
    && (forall i | 0 <= i < |next| :: next[i] in depth && depth[next[i]] == r + 1)
  }

  ghost predicate Extends(depth: map<nat, nat>, more: map<nat, nat>, r: nat) {
    && (forall n | n in depth :: n in more && more[n] == depth[n])
    && (forall n | n in more && n !in depth :: more[n] == r + 1)
  }

  lemma HandledStays(ws: seq<Widget>, start: nat, goal: Goal, depth: map<nat, nat>, more: map<nat, nat>, r: nat, a: nat)
    requires a in depth && Handled(ws, start, goal, depth, a) && Extends(depth, more, r)
    ensures Handled(ws, start, goal, more, a)
  {
  }

  /** What is known of one entry of a connection list once it was looked at. */
  ghost predicate Looked(ws: seq<Widget>, start: nat, goal: Goal, depth: map<nat, nat>, r: nat, a: nat, c: nat) {
    Edge(ws, start, a, c) ==> !IsGoal(ws, goal, c) && (Passing(ws, c) ==> c in depth && depth[c] <= r + 1)
  }

  ghost predicate AllLooked(ws: seq<Widget>, start: nat, goal: Goal, depth: map<nat, nat>, r: nat, a: nat,
                            conns: seq<nat>) {
    forall c | c in conns :: Looked(ws, start, goal, depth, r, a, c)
  }

  lemma LookedOneMore(ws: seq<Widget>, start: nat, goal: Goal, depth: map<nat, nat>, more: map<nat, nat>, r: nat,
                      a: nat, conns: seq<nat>, i: nat)
    requires i < |conns| && AllLooked(ws, start, goal, depth, r, a, conns[..i]) && Extends(depth, more, r)
    requires Looked(ws, start, goal, more, r, a, conns[i])
    ensures AllLooked(ws, start, goal, more, r, a, conns[..i + 1])
  {
    forall c | c in conns[..i + 1] ensures Looked(ws, start, goal, more, r, a, c) {
      assert c in conns[..i] || c == conns[i];
      if c in conns[..i] {
        LookedStays(ws, start, goal, depth, more, r, a, c);
      }
    }
  }

  lemma AllHandled(ws: seq<Widget>, start: nat, goal: Goal, depth: map<nat, nat>, r: nat, a: nat)
    requires a in depth && depth[a] == r && Find(ws, a).Some?
    requires var conns := Find(ws, a).value.conns; AllLooked(ws, start, goal, depth, r, a, conns[..|conns|])
    ensures Handled(ws, start, goal, depth, a)
  {
    var conns := Find(ws, a).value.conns;
    assert conns[..|conns|] == conns;
    forall c | Edge(ws, start, a, c) ensures Looked(ws, start, goal, depth, r, a, c) {
    }
  }

  lemma LookedStays(ws: seq<Widget>, start: nat, goal: Goal, depth: map<nat, nat>, more: map<nat, nat>, r: nat,
                    a: nat, c: nat)
    requires Looked(ws, start, goal, depth, r, a, c) && Extends(depth, more, r)
    ensures Looked(ws, start, goal, more, r, a, c)
  {
  }

  lemma Collected(depth: map<nat, nat>, next: seq<nat>, r: nat, c: nat)
    requires Levels(depth, next, r) && c !in depth
    ensures Levels(depth[c := r + 1], next + [c], r) && Extends(depth, depth[c := r + 1], r)
  {
    var more := next + [c];
    forall n | n in depth && depth[n] == r + 1 ensures n in more {
      assert n in next;
    }
    assert more[|next|] == c;
  }

  /** One entry of a connection list, for `reach_converter`. */
  method LookAt(ws: seq<Widget>, start: nat, goal: Goal, nid: nat, c: nat, parents0: seq<(nat, nat)>, next0: seq<nat>,
                ghost depth0: map<nat, nat>, ghost r: nat)
    returns (hit: bool, parents: seq<(nat, nat)>, next: seq<nat>, ghost depth: map<nat, nat>)
    requires Tree(ws, start, goal, parents0, depth0) && Levels(depth0, next0, r) && nid in depth0 && depth0[nid] == r
    requires Find(ws, nid).Some? && c in Find(ws, nid).value.conns
    ensures Tree(ws, start, goal, parents, depth) && Levels(depth, next, r) && Extends(depth0, depth, r)
    ensures hit ==> Edge(ws, start, nid, c) && IsGoal(ws, goal, c)
    ensures !hit ==> Looked(ws, start, goal, depth, r, nid, c)
  {
    hit, parents, next, depth := false, parents0, next0, depth0;
    if c == 0 || c == start {
      return;
    }
    if ParentOf(parents, c).Some? {
      assert Grown(ws, start, goal, parents, depth, c);
      return;
    }
    var cw := Find(ws, c);
    if cw.None? {
      return;
    }
    if Meets(cw.value, goal) {
      hit := true;
    } else if Passes(cw.value) {
      TreeGrows(ws, start, goal, parents, depth, nid, c);
      Collected(depth, next, r, c);
      parents, next, depth := parents + [(c, nid)], next + [c], depth[c := r + 1];
    }
  }

  /** The connection list of one widget of the frontier. */
  method ScanWidget(ws: seq<Widget>, start: nat, goal: Goal, nid: nat, parents0: seq<(nat, nat)>, next0: seq<nat>,
                    ghost depth0: map<nat, nat>, ghost r: nat)
    returns (found: Option<nat>, parents: seq<(nat, nat)>, next: seq<nat>, ghost depth: map<nat, nat>)
    requires Tree(ws, start, goal, parents0, depth0) && Levels(depth0, next0, r) && nid in depth0 && depth0[nid] == r
    ensures Tree(ws, start, goal, parents, depth) && Levels(depth, next, r) && Extends(depth0, depth, r)
    ensures found.Some? ==> Edge(ws, start, nid, found.value) && IsGoal(ws, goal, found.value)
    ensures found.None? ==> Handled(ws, start, goal, depth, nid)
  {
    found, parents, next, depth := None, parents0, next0, depth0;
    var w := Find(ws, nid);
    if w.None? {
      return;
    }
    var conns := w.value.conns;
    for i := 0 to |conns|
      invariant Tree(ws, start, goal, parents, depth) && Levels(depth, next, r) && Extends(depth0, depth, r)
      invariant AllLooked(ws, start, goal, depth, r, nid, conns[..i])
    {
      ghost var before := depth;
      var hit;
      hit, parents, next, depth := LookAt(ws, start, goal, nid, conns[i], parents, next, depth, r);
      if hit {
        found := Some(conns[i]);
        return;
      }
      LookedOneMore(ws, start, goal, before, depth, r, nid, conns, i);
    }
    AllHandled(ws, start, goal, depth, r, nid);
  }

  lemma SweptStays(ws: seq<Widget>, start: nat, goal: Goal, depth: map<nat, nat>, more: map<nat, nat>, r: nat)
    requires Swept(ws, start, goal, depth, r) && Extends(depth, more, r)
    ensures Swept(ws, start, goal, more, r)
  {
    forall a | a in more && more[a] < r ensures Handled(ws, start, goal, more, a) {
      HandledStays(ws, start, goal, depth, more, r, a);
    }
  }

  ghost predicate Done(ws: seq<Widget>, start: nat, goal: Goal, depth: map<nat, nat>, frontier: seq<nat>, i: nat)
    requires i <= |frontier|
  {
    forall j | 0 <= j < i :: frontier[j] in depth && Handled(ws, start, goal, depth, frontier[j])
  }

  lemma DoneStays(ws: seq<Widget>, start: nat, goal: Goal, depth: map<nat, nat>, more: map<nat, nat>, r: nat,
                  frontier: seq<nat>, i: nat)
    requires i < |frontier| && Done(ws, start, goal, depth, frontier, i) && Extends(depth, more, r)
    requires frontier[i] in more && Handled(ws, start, goal, more, frontier[i])
    ensures Done(ws, start, goal, more, frontier, i + 1)
  {
    forall j | 0 <= j < i + 1 ensures frontier[j] in more && Handled(ws, start, goal, more, frontier[j]) {
      if j < i {
        HandledStays(ws, start, goal, depth, more, r, frontier[j]);
      }
    }
  }

  /** The frontier is the whole of level `r`. */
  ghost predicate IsFrontier(depth: map<nat, nat>, frontier: seq<nat>, r: nat) {
    && (forall n | n in depth && depth[n] == r :: n in frontier)
    && (forall i | 0 <= i < |frontier| :: frontier[i] in depth && depth[frontier[i]] == r)
  }

  lemma RoundDone(ws: seq<Widget>, start: nat, goal: Goal, depth0: map<nat, nat>, depth: map<nat, nat>, r: nat,
                  frontier: seq<nat>)
    requires IsFrontier(depth0, frontier, r) && Extends(depth0, depth, r)
    requires Swept(ws, start, goal, depth, r) && Done(ws, start, goal, depth, frontier, |frontier|)
    ensures Swept(ws, start, goal, depth, r + 1)
  {
    forall a | a in depth && depth[a] < r + 1 ensures Handled(ws, start, goal, depth, a) {
      if depth[a] == r {
        assert a in depth0;
        var j :| 0 <= j < |frontier| && frontier[j] == a;
      }
    }
  }

  /** One round: every widget of the frontier. */
  method ScanFrontier(ws: seq<Widget>, start: nat, goal: Goal, frontier: seq<nat>, parents0: seq<(nat, nat)>,
                      ghost depth0: map<nat, nat>, ghost r: nat)
    returns (found: Option<(nat, nat)>, parents: seq<(nat, nat)>, next: seq<nat>, ghost depth: map<nat, nat>)
    requires Tree(ws, start, goal, parents0, depth0) && Levels(depth0, [], r) && Swept(ws, start, goal, depth0, r)
    requires IsFrontier(depth0, frontier, r)
    ensures Tree(ws, start, goal, parents, depth) && Levels(depth, next, r)
    ensures found.Some? ==>
              && Edge(ws, start, found.value.1, found.value.0) && IsGoal(ws, goal, found.value.0)
              && found.value.1 in depth && depth[found.value.1] == r
    ensures found.None? ==> Swept(ws, start, goal, depth, r + 1)
  {
    found, parents, next, depth := None, parents0, [], depth0;
    for i := 0 to |frontier|
      invariant Tree(ws, start, goal, parents, depth) && Levels(depth, next, r) && Extends(depth0, depth, r)
      invariant Swept(ws, start, goal, depth, r) && Done(ws, start, goal, depth, frontier, i)
    {
      ghost var before := depth;
      var c: Option<nat>;
      c, parents, next, depth := ScanWidget(ws, start, goal, frontier[i], parents, next, depth, r);
      if c.Some? {
        found := Some((c.value, frontier[i]));
        return;
      }
      SweptStays(ws, start, goal, before, depth, r);
      DoneStays(ws, start, goal, before, depth, r, frontier, i);
    }
    RoundDone(ws, start, goal, depth0, depth, r, frontier);
  }

  /** The path found, and the proof that nothing shorter or nothing at all exists. */
  ghost predicate Answer(ws: seq<Widget>, start: nat, goal: Goal, found: Option<(nat, seq<Hop>)>) {
    && (found.Some? ==> exists path ::
          && Route(ws, start, goal, path) && |path| - 1 <= MAX_CONNS && path[0] == found.value.0
          && Tagged(path, found.value.1) && Selects(ws, found.value.1)
          && forall other | Route(ws, start, goal, other) :: |path| <= |other|)
    && (found.None? ==> forall path | Route(ws, start, goal, path) :: |path| - 1 > MAX_CONNS)
  }

  ghost predicate Tagged(path: seq<nat>, hops: seq<Hop>) {
    |hops| == |path| && forall j | 0 <= j < |path| :: hops[j].nid == path[j]
  }

  lemma RouteSelects(ws: seq<Widget>, start: nat, path: seq<nat>, hops: seq<Hop>)
    requires Descends(ws, start, path) && Tagged(path, hops)
    requires forall j | 0 < j < |path| && Find(ws, path[j]).Some? && path[j - 1] in Find(ws, path[j]).value.conns ::
               && hops[j].index < |Find(ws, path[j]).value.conns|
               && Find(ws, path[j]).value.conns[hops[j].index] == path[j - 1]
    ensures Selects(ws, hops)
  {
    forall j | 0 < j < |hops|
      ensures Find(ws, hops[j].nid).Some? && hops[j].index < |Find(ws, hops[j].nid).value.conns|
      ensures Find(ws, hops[j].nid).value.conns[hops[j].index] == hops[j - 1].nid
    {
      assert Edge(ws, start, path[j - 1 + 1], path[j - 1]);
    }
  }

  /** Read the path off the tree and tag it. */
  method Report(ws: seq<Widget>, start: nat, goal: Goal, parents: seq<(nat, nat)>, ghost depth: map<nat, nat>, c: nat,
                nid: nat, ghost r: nat)
    returns (found: Option<(nat, seq<Hop>)>)
    requires Tree(ws, start, goal, parents, depth) && nid in depth && depth[nid] == r < MAX_CONNS
    requires Edge(ws, start, nid, c) && IsGoal(ws, goal, c)
    requires forall other | Route(ws, start, goal, other) :: |other| - 1 > r
    ensures found.Some? && Answer(ws, start, goal, found)
  {
    var path, tooLong := Rebuild(ws, start, goal, parents, depth, c, nid);
    var hops := PathHops(ws, path);
    RouteSelects(ws, start, path, hops);
    assert Route(ws, start, goal, path);
    found := if tooLong then None else Some((c, hops));
  }

  /** After a round that collects nothing, every level is handled. */
  lemma NothingAbove(ws: seq<Widget>, start: nat, goal: Goal, depth: map<nat, nat>, r: nat, path: seq<nat>)
    requires Swept(ws, start, goal, depth, r + 1) && Levels(depth, [], r)
    ensures !Route(ws, start, goal, path)
  {
    if Route(ws, start, goal, path) {
      assert Swept(ws, start, goal, depth, |path|);
      SweptMeansLonger(ws, start, goal, depth, |path|, path);
    }
  }

  /**
    `reach_converter`: a path is found exactly when a route of at most 32 edges exists; it is a
    shortest one, and each of its hops selects its predecessor.
   */
  method ReachConverter(ws: seq<Widget>, start: nat, target: nat) returns (found: Option<(nat, seq<Hop>)>)
    ensures Answer(ws, start, Kind(target), found)
  {
    var goal := Kind(target);
    var parents: seq<(nat, nat)>, frontier := [], [start];
    ghost var depth: map<nat, nat> := map[start := 0];
    for r := 0 to MAX_CONNS
      invariant Tree(ws, start, goal, parents, depth) && Swept(ws, start, goal, depth, r)
      invariant Levels(depth, [], r) && IsFrontier(depth, frontier, r)
    {
      forall other | Route(ws, start, goal, other) ensures |other| - 1 > r {
        SweptMeansLonger(ws, start, goal, depth, r, other);
      }
      var hit: Option<(nat, nat)>, next;
      hit, parents, next, depth := ScanFrontier(ws, start, goal, frontier, parents, depth, r);
      if hit.Some? {
        found := Report(ws, start, goal, parents, depth, hit.value.0, hit.value.1, r);
        return;
      }
      if next == [] {
        forall path ensures !Route(ws, start, goal, path) {
          NothingAbove(ws, start, goal, depth, r, path);
        }
        return None;
      }
      frontier := next;
    }
    forall path | Route(ws, start, goal, path) ensures |path| - 1 > MAX_CONNS {
      SweptMeansLonger(ws, start, goal, depth, MAX_CONNS, path);
    }
    found := None;
  }

  // ---- The search for an input pin ---------------------------------------------------------

  /** `reach_in_pin` keeps a list of everything it has looked at, instead of asking the tree. */
  ghost predicate Visits(ws: seq<Widget>, start: nat, goal: Goal, depth: map<nat, nat>, visited: seq<nat>) {
    && start in visited && (forall n | n in depth :: n in visited)
    && (forall v | v in visited && v != start :: !IsGoal(ws, goal, v) && (Passing(ws, v) ==> v in depth))
  }

  lemma Visited(ws: seq<Widget>, start: nat, goal: Goal, depth: map<nat, nat>, more: map<nat, nat>, visited: seq<nat>,
                c: nat)
    requires Visits(ws, start, goal, depth, visited) && c != start && !IsGoal(ws, goal, c)
    requires forall n | n in more :: n in depth || n == c
    requires forall n | n in depth :: n in more
    requires Passing(ws, c) ==> c in more
    ensures Visits(ws, start, goal, more, visited + [c])
  {
    var longer := visited + [c];
    assert longer[|visited|] == c;
    forall n | n in visited ensures n in longer {
    }
    forall v | v in longer && v != start ensures !IsGoal(ws, goal, v) && (Passing(ws, v) ==> v in more) {
      assert v == c || v in visited;
    }
  }

  method LookAtInput(ws: seq<Widget>, start: nat, nid: nat, c: nat, parents0: seq<(nat, nat)>, next0: seq<nat>,
                     visited0: seq<nat>, ghost depth0: map<nat, nat>, ghost r: nat)
    returns (hit: bool, parents: seq<(nat, nat)>, next: seq<nat>, visited: seq<nat>, ghost depth: map<nat, nat>)
    requires Tree(ws, start, InputPin, parents0, depth0) && Levels(depth0, next0, r) && nid in depth0
             && depth0[nid] == r
    requires Find(ws, nid).Some? && c in Find(ws, nid).value.conns && Visits(ws, start, InputPin, depth0, visited0)
    ensures Tree(ws, start, InputPin, parents, depth) && Levels(depth, next, r) && Extends(depth0, depth, r)
    ensures hit ==> Edge(ws, start, nid, c) && IsGoal(ws, InputPin, c)
    ensures !hit ==> Looked(ws, start, InputPin, depth, r, nid, c) && Visits(ws, start, InputPin, depth, visited)
  {
    hit, parents, next, visited, depth := false, parents0, next0, visited0, depth0;
    if c == 0 || c in visited {
      return;
    }
    visited := visited + [c];
    var cw := Find(ws, c);
    if cw.Some? && cw.value.kind == PIN {
      hit := cw.value.inCapable;
    } else if cw.Some? && Passes(cw.value) {
      TreeGrows(ws, start, InputPin, parents, depth, nid, c);
      Collected(depth, next, r, c);
      parents, next, depth := parents + [(c, nid)], next + [c], depth[c := r + 1];
    }
    if !hit {
      Visited(ws, start, InputPin, depth0, depth, visited0, c);
    }
  }

  method ScanInputs(ws: seq<Widget>, start: nat, nid: nat, parents0: seq<(nat, nat)>, next0: seq<nat>,
                    visited0: seq<nat>, ghost depth0: map<nat, nat>, ghost r: nat)
    returns (found: Option<nat>, parents: seq<(nat, nat)>, next: seq<nat>, visited: seq<nat>,
             ghost depth: map<nat, nat>)
    requires Tree(ws, start, InputPin, parents0, depth0) && Levels(depth0, next0, r) && nid in depth0
             && depth0[nid] == r
    requires Visits(ws, start, InputPin, depth0, visited0)
    ensures Tree(ws, start, InputPin, parents, depth) && Levels(depth, next, r) && Extends(depth0, depth, r)
    ensures found.Some? ==> Edge(ws, start, nid, found.value) && IsGoal(ws, InputPin, found.value)
    ensures found.None? ==> Handled(ws, start, InputPin, depth, nid) && Visits(ws, start, InputPin, depth, visited)
  {
    found, parents, next, visited, depth := None, parents0, next0, visited0, depth0;
    var w := Find(ws, nid);
    if w.None? {
      return;
    }
    var conns := w.value.conns;
    for i := 0 to |conns|
      invariant Tree(ws, start, InputPin, parents, depth) && Levels(depth, next, r) && Extends(depth0, depth, r)
      invariant AllLooked(ws, start, InputPin, depth, r, nid, conns[..i]) && Visits(ws, start, InputPin, depth, visited)
    {
      ghost var before := depth;
      var hit;
      hit, parents, next, visited, depth := LookAtInput(ws, start, nid, conns[i], parents, next, visited, depth, r);
      if hit {
        found := Some(conns[i]);
        return;
      }
      LookedOneMore(ws, start, InputPin, before, depth, r, nid, conns, i);
    }
    AllHandled(ws, start, InputPin, depth, r, nid);
  }

  method ScanInputFrontier(ws: seq<Widget>, start: nat, frontier: seq<nat>, parents0: seq<(nat, nat)>,
                           visited0: seq<nat>, ghost depth0: map<nat, nat>, ghost r: nat)
    returns (found: Option<(nat, nat)>, parents: seq<(nat, nat)>, next: seq<nat>, visited: seq<nat>,
             ghost depth: map<nat, nat>)
    requires Tree(ws, start, InputPin, parents0, depth0) && Levels(depth0, [], r)
             && Swept(ws, start, InputPin, depth0, r)
    requires IsFrontier(depth0, frontier, r) && Visits(ws, start, InputPin, depth0, visited0)
    ensures Tree(ws, start, InputPin, parents, depth) && Levels(depth, next, r)
    ensures found.Some? ==>
              && Edge(ws, start, found.value.1, found.value.0) && IsGoal(ws, InputPin, found.value.0)
              && found.value.1 in depth && depth[found.value.1] == r
    ensures found.None? ==> Swept(ws, start, InputPin, depth, r + 1) && Visits(ws, start, InputPin, depth, visited)
  {
    found, parents, next, visited, depth := None, parents0, [], visited0, depth0;
    for i := 0 to |frontier|
      invariant Tree(ws, start, InputPin, parents, depth) && Levels(depth, next, r) && Extends(depth0, depth, r)
      invariant Swept(ws, start, InputPin, depth, r) && Done(ws, start, InputPin, depth, frontier, i)
      invariant Visits(ws, start, InputPin, depth, visited)
    {
      ghost var before := depth;
      var c: Option<nat>;
      c, parents, next, visited, depth := ScanInputs(ws, start, frontier[i], parents, next, visited, depth, r);
      if c.Some? {
        found := Some((c.value, frontier[i]));
        return;
      }
      SweptStays(ws, start, InputPin, before, depth, r);
      DoneStays(ws, start, InputPin, before, depth, r, frontier, i);
    }
    RoundDone(ws, start, InputPin, depth0, depth, r, frontier);
  }

  /** `reach_in_pin`: the same promise for the nearest pin that can be an input. */
  method ReachInPin(ws: seq<Widget>, adc: nat) returns (found: Option<(nat, seq<Hop>)>)
    ensures Answer(ws, adc, InputPin, found)
  {
    var parents: seq<(nat, nat)>, frontier, visited := [], [adc], [adc];
    ghost var depth: map<nat, nat> := map[adc := 0];
    for r := 0 to MAX_CONNS
      invariant Tree(ws, adc, InputPin, parents, depth) && Swept(ws, adc, InputPin, depth, r)
      invariant Levels(depth, [], r) && IsFrontier(depth, frontier, r) && Visits(ws, adc, InputPin, depth, visited)
    {
      forall other | Route(ws, adc, InputPin, other) ensures |other| - 1 > r {
        SweptMeansLonger(ws, adc, InputPin, depth, r, other);
      }
      var hit: Option<(nat, nat)>, next;
      hit, parents, next, visited, depth := ScanInputFrontier(ws, adc, frontier, parents, visited, depth, r);
      if hit.Some? {
        found := Report(ws, adc, InputPin, parents, depth, hit.value.0, hit.value.1, r);
        return;
      }
      if next == [] {
        forall path ensures !Route(ws, adc, InputPin, path) {
          NothingAbove(ws, adc, InputPin, depth, r, path);
        }
        return None;
      }
      frontier := next;
    }
    forall path | Route(ws, adc, InputPin, path) ensures |path| - 1 > MAX_CONNS {
      SweptMeansLonger(ws, adc, InputPin, depth, MAX_CONNS, path);
    }
    found := None;
  }
}
