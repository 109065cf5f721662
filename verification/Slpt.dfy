/**
  Second-level page tables of a VT-d unit (`kernel/src/iommu/slpt.rs`).

  Physical memory is a map from a table's frame address to its 512 entry words. An entry word
  is a natural number; the mask operations of the source are written as the quotients and
  remainders they denote, and the bitwise-or of disjoint fields as a sum.

  The simple thing the radix tree stands for is a finite map from page number to frame address
  (`Pages`). Every operation is proved against that map.
 */
module Slpt {

  import opened Common

  const ENTRIES: nat := 512

  /** Addresses an entry can hold: bits 51:12, `PTE_ADDR_MASK`. */
  const FRAME_LIMIT: nat := 0x10_0000_0000_0000

  const PTE_READ: nat := 1
  const PTE_WRITE: nat := 2
  const PTE_SNP: nat := 2048

  datatype Agaw = Level3 | Level4 {

    function Levels(): nat {
      match this
      case Level3 => 3
      case Level4 => 4
    }

    function MaxIova(): nat {
      match this
      case Level3 => 0x7F_FFFF_FFFF
      case Level4 => 0xFFFF_FFFF_FFFF
    }

    /** An address of this width. */
    predicate Reaches(x: nat) {
      x < if Level3? then 0x80_0000_0000 else 0x1_0000_0000_0000
    }

    /** Number of 4 KiB pages below `MaxIova`. */
    function PageLimit(): nat {
      match this
      case Level3 => 0x800_0000
      case Level4 => 0x10_0000_0000
    }
  }

  datatype Error =
    | Unaligned
    | IovaBeyondAgaw
    | PhysOutOfRange
    | OutOfMemory
    | SuperpageCollision
    | NullTable
    | AlreadyMapped
    | RangeUnaligned
    | RangeBeyondAgaw

  datatype Outcome = Ok | Err(error: Error)

  // ── Entry words ────────────────────────────────────────────────────

  /** `entry & (PTE_READ | PTE_WRITE) != 0` */
  predicate Present(e: nat) {
    e % 4 != 0
  }

  /** `entry & PTE_PS != 0` */
  predicate Large(e: nat) {
    e / 128 % 2 == 1
  }

  /** `entry & PTE_ADDR_MASK` */
  function FrameOf(e: nat): nat {
    e / PAGE % 0x100_0000_0000 * PAGE
  }

  /** `flags & (READ | WRITE | SNP | A | D | PS)`: bits 0-1, 7-9 and 11. */
  function FlagBits(flags: nat): nat {
    flags % 4 + flags / 128 % 8 * 128 + flags / 2048 % 2 * 2048
  }

  function SlPte(phys: nat, flags: nat): nat {
    FrameOf(phys) + FlagBits(flags)
  }

  /** `entry & PTE_SNP != 0` */
  predicate Snooped(e: nat) {
    e / 2048 % 2 == 1
  }

  /** Reads and writes are both allowed. */
  predicate FullAccess(e: nat) {
    e % 4 == 3
  }

  /** Packing a word loses neither the frame nor the permissions nor a flag a walk looks at. */
  lemma PteRoundTrip(phys: nat, flags: nat)
    ensures FrameOf(SlPte(phys, flags)) == FrameOf(phys)
    ensures SlPte(phys, flags) % 4 == flags % 4
    ensures Large(SlPte(phys, flags)) <==> Large(flags)
    ensures Snooped(SlPte(phys, flags)) <==> Snooped(flags)
  {
    var f := phys / PAGE % 0x100_0000_0000;
    FlagFields(flags % 4, flags / 128 % 8, flags / 2048 % 2);
    WordFields(f, FlagBits(flags));
    EvenPart(f, flags / 128, flags / 2048 % 2);
    Parity(flags / 2048 % 2, f);
  }

  lemma FlagFields(low: nat, middle: nat, high: nat)
    requires low < 4 && middle < 8 && high < 2
    ensures var b := low + middle * 128 + high * 2048;
            b < PAGE && b % 4 == low && b / 128 == middle + high * 16 && b / 2048 == high
  {
  }

  lemma WordFields(f: nat, b: nat)
    requires b < PAGE
    ensures (f * PAGE + b) / PAGE == f && (f * PAGE + b) % 4 == b % 4
    ensures (f * PAGE + b) / 128 == f * 32 + b / 128 && (f * PAGE + b) / 2048 == f * 2 + b / 2048
  {
  }

  lemma EvenPart(f: nat, m: nat, h: nat)
    ensures (f * 32 + (m % 8 + h * 16)) % 2 == m % 2
  {
    Parity(m % 8, f * 16 + h * 8);
    Parity(m % 8, 4 * (m / 8));
  }

  lemma Parity(a: nat, k: nat)
    ensures (a + 2 * k) % 2 == a % 2
  {
  }

  predicate TableFrame(f: nat) {
    0 < f < FRAME_LIMIT && f % PAGE == 0
  }

  lemma AlignedFrame(phys: nat)
    requires phys < FRAME_LIMIT && phys % PAGE == 0
    ensures FrameOf(phys) == phys
  {
  }

  // ── Indices ────────────────────────────────────────────────────────

  /** Bytes one entry of a level-`level` table spans: `1 << (12 + 9 * level)`. */
  function Span(level: nat): nat
    requires level <= 3
  {
    if level == 0 then PAGE
    else if level == 1 then 0x20_0000
    else if level == 2 then 0x4000_0000
    else 0x80_0000_0000
  }

  /** `(va >> (12 + 9 * level)) & 0x1FF` */
  function Index(level: nat, va: nat): nat
    requires level <= 3
  {
    va / Span(level) % ENTRIES
  }

  /** Page number `pg` without its low `level` radix-512 digits. */
  function Prefix(level: nat, pg: nat): nat {
    if level == 0 then pg else Prefix(level - 1, pg) / ENTRIES
  }

  /** The source's shifted index is a radix-512 digit of the page number. */
  lemma IndexIsDigit(level: nat, va: nat)
    requires level <= 3
    ensures Index(level, va) == Prefix(level, va / PAGE) % ENTRIES
  {
    assert Prefix(1, va / PAGE) == va / 0x20_0000;
    assert Prefix(2, va / PAGE) == va / 0x4000_0000;
    assert Prefix(3, va / PAGE) == va / 0x80_0000_0000;
  }

  lemma TopPrefix(agaw: Agaw, pg: nat)
    requires pg < agaw.PageLimit()
    ensures Prefix(agaw.Levels(), pg) == 0
  {
    assert Prefix(1, pg) == pg / 512;
    assert Prefix(2, pg) == pg / 512 / 512;
    assert Prefix(3, pg) == pg / 512 / 512 / 512;
    assert Prefix(4, pg) == pg / 512 / 512 / 512 / 512;
  }

  // ── The tree ───────────────────────────────────────────────────────

  type Mem = map<nat, seq<nat>>

  /** Position of a table: its level and the digits of every page below it. */
  datatype Node = Node(level: nat, prefix: nat)

  function Word(mem: Mem, table: nat, i: nat): nat {
    if table in mem && i < |mem[table]| then mem[table][i] else 0
  }

  function Child(n: Node, i: nat): Node
    requires n.level > 0
  {
    Node(n.level - 1, n.prefix * ENTRIES + i)
  }

  /** Entry `i` of a non-leaf table points at exactly the table that belongs there. */
  ghost predicate Linked(mem: Mem, nodes: map<Node, nat>, n: Node, i: nat)
    requires n in nodes && n.level > 0
  {
    var e := Word(mem, nodes[n], i);
    var child := Child(n, i);
    if child in nodes then
      FullAccess(e) && !Large(e) && FrameOf(e) == nodes[child]
    else
      !Present(e)
  }

  ghost predicate Tables(mem: Mem, nodes: map<Node, nat>, levels: nat) {
    forall n | n in nodes ::
      n.level < levels && TableFrame(nodes[n]) && nodes[n] in mem && |mem[nodes[n]]| == ENTRIES
  }

  /** No table is reachable along two paths. */
  ghost predicate Unaliased(nodes: map<Node, nat>) {
    forall n, m | n in nodes && m in nodes && nodes[n] == nodes[m] :: n == m
  }

  /** Every table hangs off a table one level up. */
  ghost predicate Rooted(nodes: map<Node, nat>, levels: nat) {
    forall n | n in nodes && n.level + 1 < levels :: Node(n.level + 1, n.prefix / ENTRIES) in nodes
  }

  ghost predicate AllLinked(mem: Mem, nodes: map<Node, nat>) {
    forall n, i | n in nodes && n.level > 0 && 0 <= i < ENTRIES :: Linked(mem, nodes, n, i)
  }

  ghost predicate Tree(mem: Mem, nodes: map<Node, nat>, root: nat, levels: nat) {
    && levels > 0
    && Node(levels - 1, 0) in nodes
    && nodes[Node(levels - 1, 0)] == root
    && Tables(mem, nodes, levels)
    && Unaliased(nodes)
    && AllLinked(mem, nodes)
    && Rooted(nodes, levels)
  }

  /** The entry word that decides page `pg`; 0 while no leaf table covers it. */
  ghost function LeafWord(mem: Mem, nodes: map<Node, nat>, pg: nat): nat {
    var n := Node(0, pg / ENTRIES);
    if n in nodes then Word(mem, nodes[n], pg % ENTRIES) else 0
  }

  /** The tree stands for the finite map `pages`. */
  ghost predicate Represents(pages: map<nat, nat>, mem: Mem, nodes: map<Node, nat>, agaw: Agaw) {
    forall pg: nat {:trigger LeafWord(mem, nodes, pg)} ::
      && (pg in pages <==> pg < agaw.PageLimit() && Present(LeafWord(mem, nodes, pg)))
      && (pg in pages ==> pages[pg] == FrameOf(LeafWord(mem, nodes, pg)) && FullAccess(LeafWord(mem, nodes, pg)))
  }

  /** The snoop bit of every mapped page is `b`. */
  ghost predicate Snooping(pages: map<nat, nat>, mem: Mem, nodes: map<Node, nat>, b: bool) {
    forall pg {:trigger LeafWord(mem, nodes, pg)} | pg in pages :: Snooped(LeafWord(mem, nodes, pg)) <==> b
  }

  // ── Translation ────────────────────────────────────────────────────

  /** Where a superpage entry sends `iova`: `(entry & !mask) | (iova & mask)`. */
  function LargeTarget(e: nat, level: nat, iova: nat): nat
    requires level <= 3
  {
    var size := Span(level);
    e / size * size + iova % size
  }

  /** The hardware walk, superpage and null-pointer branches included. */
  function Walk(mem: Mem, table: nat, level: nat, iova: nat): Option<nat>
    requires level <= 3
    decreases level
  {
    var e := Word(mem, table, Index(level, iova));
    if !Present(e) then
      None
    else if level == 0 then
      Some(FrameOf(e) + iova % PAGE)
    else if Large(e) then
      Some(LargeTarget(e, level, iova))
    else if FrameOf(e) == 0 then
      None
    else
      Walk(mem, FrameOf(e), level - 1, iova)
  }

  function Translation(mem: Mem, root: nat, iova: nat, agaw: Agaw): Option<nat> {
    if iova > agaw.MaxIova() then None else Walk(mem, root, agaw.Levels() - 1, iova)
  }

  function Lookup(pages: map<nat, nat>, iova: nat): Option<nat> {
    if iova / PAGE in pages then Some(pages[iova / PAGE] + iova % PAGE) else None
  }

  /** The level-`level` table on the way to `iova`. */
  function OnPath(level: nat, iova: nat): Node {
    Node(level, Prefix(level + 1, iova / PAGE))
  }

  lemma ChildOnPath(level: nat, iova: nat)
    requires 0 < level <= 3
    ensures Index(level, iova) < ENTRIES
    ensures Child(OnPath(level, iova), Index(level, iova)) == OnPath(level - 1, iova)
  {
    IndexIsDigit(level, iova);
  }

  /** What a walk reads in a non-leaf table of the tree: the next table, or nothing. */
  lemma PathWord(mem: Mem, nodes: map<Node, nat>, root: nat, levels: nat, level: nat, iova: nat)
    requires Tree(mem, nodes, root, levels)
    requires 0 < level < levels <= 4 && OnPath(level, iova) in nodes
    ensures var e := Word(mem, nodes[OnPath(level, iova)], Index(level, iova));
            if OnPath(level - 1, iova) in nodes then
              FullAccess(e) && !Large(e) && FrameOf(e) == nodes[OnPath(level - 1, iova)] > 0
            else
              !Present(e)
  {
    ChildOnPath(level, iova);
    assert Linked(mem, nodes, OnPath(level, iova), Index(level, iova));
  }

  lemma {:induction false} Climb(nodes: map<Node, nat>, levels: nat, level: nat, iova: nat)
    requires Rooted(nodes, levels) && level < levels
    requires OnPath(0, iova) in nodes
    ensures OnPath(level, iova) in nodes
  {
    if level > 0 {
      Climb(nodes, levels, level - 1, iova);
    }
  }

  lemma LeafOnPath(iova: nat)
    ensures OnPath(0, iova) == Node(0, iova / PAGE / ENTRIES)
  {
    assert Prefix(1, iova / PAGE) == Prefix(0, iova / PAGE) / ENTRIES;
  }

  /** A page below a missing table is not mapped. */
  lemma Unreached(mem: Mem, nodes: map<Node, nat>, root: nat, agaw: Agaw, level: nat, iova: nat)
    requires Tree(mem, nodes, root, agaw.Levels())
    requires level < agaw.Levels() && OnPath(level, iova) !in nodes
    ensures LeafWord(mem, nodes, iova / PAGE) == 0
  {
    LeafOnPath(iova);
    if OnPath(0, iova) in nodes {
      Climb(nodes, agaw.Levels(), level, iova);
    }
  }

  /** Below a table that belongs to the tree, a walk finds the leaf word of its page. */
  lemma {:induction false} WalkFindsLeaf(mem: Mem, nodes: map<Node, nat>, root: nat, agaw: Agaw, level: nat, iova: nat)
    requires Tree(mem, nodes, root, agaw.Levels())
    requires level < agaw.Levels() && OnPath(level, iova) in nodes
    ensures var w := LeafWord(mem, nodes, iova / PAGE);
            Walk(mem, nodes[OnPath(level, iova)], level, iova)
            == if Present(w) then Some(FrameOf(w) + iova % PAGE) else None
    decreases level
  {
    if level == 0 {
      LeafOnPath(iova);
      IndexIsDigit(0, iova);
    } else {
      PathWord(mem, nodes, root, agaw.Levels(), level, iova);
      if OnPath(level - 1, iova) in nodes {
        WalkFindsLeaf(mem, nodes, root, agaw, level - 1, iova);
      } else {
        Unreached(mem, nodes, root, agaw, level - 1, iova);
      }
    }
  }

  /**
    Refinement: on every well-formed tree, of three levels or four, the walk from the root
    answers exactly as the finite map does.
   */
  lemma TranslationIsLookup(
    pages: map<nat, nat>, mem: Mem, nodes: map<Node, nat>, root: nat, agaw: Agaw, iova: nat)
    requires Tree(mem, nodes, root, agaw.Levels()) && Represents(pages, mem, nodes, agaw)
    ensures Translation(mem, root, iova, agaw) == Lookup(pages, iova)
  {
    var leaf := LeafWord(mem, nodes, iova / PAGE);
    if iova <= agaw.MaxIova() {
      TopPrefix(agaw, iova / PAGE);
      WalkFindsLeaf(mem, nodes, root, agaw, agaw.Levels() - 1, iova);
    }
  }

  /** Every entry on the walk allows reads and writes, which is what the hardware asks of all of them. */
  ghost predicate WalkAllows(mem: Mem, table: nat, level: nat, iova: nat)
    requires level <= 3
    decreases level
  {
    var e := Word(mem, table, Index(level, iova));
    FullAccess(e) && (level > 0 ==> WalkAllows(mem, FrameOf(e), level - 1, iova))
  }

  lemma {:induction false} PathAllows(
    pages: map<nat, nat>, mem: Mem, nodes: map<Node, nat>, root: nat, agaw: Agaw, level: nat, iova: nat)
    requires Tree(mem, nodes, root, agaw.Levels()) && Represents(pages, mem, nodes, agaw) && iova / PAGE in pages
    requires level < agaw.Levels() && OnPath(level, iova) in nodes
    ensures WalkAllows(mem, nodes[OnPath(level, iova)], level, iova)
    decreases level
  {
    var leaf := LeafWord(mem, nodes, iova / PAGE);
    if level == 0 {
      LeafOnPath(iova);
      IndexIsDigit(0, iova);
    } else {
      PathWord(mem, nodes, root, agaw.Levels(), level, iova);
      if OnPath(level - 1, iova) !in nodes {
        Unreached(mem, nodes, root, agaw, level - 1, iova);
      } else {
        PathAllows(pages, mem, nodes, root, agaw, level - 1, iova);
      }
    }
  }

  /** A device may read and write every mapped address. */
  lemma MappedAllows(pages: map<nat, nat>, mem: Mem, nodes: map<Node, nat>, root: nat, agaw: Agaw, iova: nat)
    requires Tree(mem, nodes, root, agaw.Levels()) && Represents(pages, mem, nodes, agaw)
    requires Lookup(pages, iova).Some?
    ensures iova <= agaw.MaxIova() && WalkAllows(mem, root, agaw.Levels() - 1, iova)
  {
    var leaf := LeafWord(mem, nodes, iova / PAGE);
    TopPrefix(agaw, iova / PAGE);
    PathAllows(pages, mem, nodes, root, agaw, agaw.Levels() - 1, iova);
  }

  // ── Updates ────────────────────────────────────────────────────────

  function Zeroes(): seq<nat> {
    seq(ENTRIES, _ => 0)
  }

  function SetWord(mem: Mem, table: nat, i: nat, w: nat): Mem
    requires table in mem && i < |mem[table]|
  {
    var words: seq<nat> := mem[table][i := w];
    mem[table := words]
  }

  /** Memory after a zeroed table `next` is hung under entry `i` of `table`. */
  function Grown(mem: Mem, table: nat, i: nat, next: nat): Mem
    requires table in mem && i < |mem[table]| && next !in mem
  {
    SetWord(mem[next := Zeroes()], table, i, SlPte(next, PTE_READ + PTE_WRITE))
  }

  lemma StillLinked(mem: Mem, nodes: map<Node, nat>, root: nat, levels: nat, n: Node, i: nat, next: nat, m: Node,
                    j: nat)
    requires Tree(mem, nodes, root, levels)
    requires n in nodes && n.level > 0 && i < ENTRIES && Child(n, i) !in nodes
    requires TableFrame(next) && next !in mem
    requires m in nodes && m.level > 0 && j < ENTRIES && !(m == n && j == i)
    ensures Linked(Grown(mem, nodes[n], i, next), nodes[Child(n, i) := next], m, j)
  {
    assert Linked(mem, nodes, m, j);
    ChildInjective(m, j, n, i);
  }

  /** A table hangs in one entry of one table only. */
  lemma ChildInjective(m: Node, j: nat, n: Node, i: nat)
    requires m.level > 0 && n.level > 0 && j < ENTRIES && i < ENTRIES
    ensures Child(m, j) == Child(n, i) ==> m == n && j == i
  {
    assert Child(m, j).prefix / ENTRIES == m.prefix && Child(n, i).prefix / ENTRIES == n.prefix;
  }

  lemma NewTableEmpty(mem: Mem, nodes: map<Node, nat>, root: nat, levels: nat, n: Node, i: nat, next: nat, j: nat)
    requires Tree(mem, nodes, root, levels)
    requires n in nodes && n.level > 1 && i < ENTRIES && Child(n, i) !in nodes && next !in mem && j < ENTRIES
    ensures Linked(Grown(mem, nodes[n], i, next), nodes[Child(n, i) := next], Child(n, i), j)
  {
    var child := Child(n, i);
    assert Child(child, j).prefix / ENTRIES == child.prefix;
    assert Child(child, j) !in nodes;
  }

  lemma NewTableLinked(mem: Mem, nodes: map<Node, nat>, n: Node, i: nat, next: nat)
    requires n in nodes && n.level > 0 && nodes[n] in mem && |mem[nodes[n]]| == ENTRIES && i < ENTRIES
    requires TableFrame(next) && next !in mem
    ensures Linked(Grown(mem, nodes[n], i, next), nodes[Child(n, i) := next], n, i)
  {
    PteRoundTrip(next, PTE_READ + PTE_WRITE);
    AlignedFrame(next);
  }

  lemma GrownLinks(mem: Mem, nodes: map<Node, nat>, root: nat, levels: nat, n: Node, i: nat, next: nat)
    requires Tree(mem, nodes, root, levels)
    requires n in nodes && n.level > 0 && i < ENTRIES && Child(n, i) !in nodes
    requires TableFrame(next) && next !in mem
    ensures AllLinked(Grown(mem, nodes[n], i, next), nodes[Child(n, i) := next])
  {
    var child := Child(n, i);
    var mem' := Grown(mem, nodes[n], i, next);
    var nodes' := nodes[child := next];
    forall m, j | m in nodes' && m.level > 0 && 0 <= j < ENTRIES
      ensures Linked(mem', nodes', m, j)
    {
      if m == child {
        NewTableEmpty(mem, nodes, root, levels, n, i, next, j);
      } else if m == n && j == i {
        NewTableLinked(mem, nodes, n, i, next);
      } else {
        StillLinked(mem, nodes, root, levels, n, i, next, m, j);
      }
    }
  }

  lemma GrownLeaf(mem: Mem, nodes: map<Node, nat>, root: nat, levels: nat, n: Node, i: nat, next: nat, pg: nat)
    requires Tree(mem, nodes, root, levels)
    requires n in nodes && n.level > 0 && i < ENTRIES && Child(n, i) !in nodes
    requires TableFrame(next) && next !in mem
    ensures LeafWord(Grown(mem, nodes[n], i, next), nodes[Child(n, i) := next], pg) == LeafWord(mem, nodes, pg)
  {
  }

  lemma GrownTables(mem: Mem, nodes: map<Node, nat>, levels: nat, n: Node, i: nat, next: nat)
    requires Tables(mem, nodes, levels) && Unaliased(nodes)
    requires n in nodes && n.level > 0 && i < ENTRIES
    requires TableFrame(next) && next !in mem
    ensures Tables(Grown(mem, nodes[n], i, next), nodes[Child(n, i) := next], levels)
    ensures Unaliased(nodes[Child(n, i) := next])
  {
  }

  lemma GrownRooted(nodes: map<Node, nat>, levels: nat, n: Node, i: nat, next: nat)
    requires Rooted(nodes, levels) && n in nodes && n.level > 0 && i < ENTRIES
    ensures Rooted(nodes[Child(n, i) := next], levels)
  {
    assert Child(n, i).prefix / ENTRIES == n.prefix;
  }

  lemma GrownTree(mem: Mem, nodes: map<Node, nat>, root: nat, levels: nat, n: Node, i: nat, next: nat)
    requires Tree(mem, nodes, root, levels)
    requires n in nodes && n.level > 0 && i < ENTRIES && Child(n, i) !in nodes
    requires TableFrame(next) && next !in mem
    ensures Tree(Grown(mem, nodes[n], i, next), nodes[Child(n, i) := next], root, levels)
  {
    GrownLinks(mem, nodes, root, levels, n, i, next);
    GrownTables(mem, nodes, levels, n, i, next);
    GrownRooted(nodes, levels, n, i, next);
  }

  /** Hanging a fresh zeroed table under an empty entry keeps the tree and the map. */
  lemma LinkTable(
    pages: map<nat, nat>, mem: Mem, nodes: map<Node, nat>, root: nat, agaw: Agaw, n: Node, i: nat, next: nat)
    requires Tree(mem, nodes, root, agaw.Levels()) && Represents(pages, mem, nodes, agaw)
    requires n in nodes && n.level > 0 && i < ENTRIES
    requires !Present(Word(mem, nodes[n], i))
    requires TableFrame(next) && next !in mem
    ensures Child(n, i) !in nodes
    ensures Tree(Grown(mem, nodes[n], i, next), nodes[Child(n, i) := next], root, agaw.Levels())
    ensures Represents(pages, Grown(mem, nodes[n], i, next), nodes[Child(n, i) := next], agaw)
  {
    assert Linked(mem, nodes, n, i);
    GrownTree(mem, nodes, root, agaw.Levels(), n, i, next);
    var mem' := Grown(mem, nodes[n], i, next);
    var nodes' := nodes[Child(n, i) := next];
    forall pg: nat {:trigger LeafWord(mem', nodes', pg)}
      ensures LeafWord(mem', nodes', pg) == LeafWord(mem, nodes, pg)
    {
      GrownLeaf(mem, nodes, root, agaw.Levels(), n, i, next, pg);
    }
  }

  lemma LinkTableSnoops(
    pages: map<nat, nat>, mem: Mem, nodes: map<Node, nat>, root: nat, levels: nat, n: Node, i: nat, next: nat, b: bool)
    requires Tree(mem, nodes, root, levels)
    requires n in nodes && n.level > 0 && i < ENTRIES && Child(n, i) !in nodes
    requires TableFrame(next) && next !in mem
    ensures Snooping(pages, mem, nodes, b) ==>
              Snooping(pages, Grown(mem, nodes[n], i, next), nodes[Child(n, i) := next], b)
  {
    var mem', nodes' := Grown(mem, nodes[n], i, next), nodes[Child(n, i) := next];
    forall pg {:trigger LeafWord(mem', nodes', pg)} | pg in pages
      ensures LeafWord(mem', nodes', pg) == LeafWord(mem, nodes, pg)
    {
      GrownLeaf(mem, nodes, root, levels, n, i, next, pg);
    }
  }

  lemma SetLeafTree(mem: Mem, nodes: map<Node, nat>, root: nat, levels: nat, n: Node, i: nat, w: nat)
    requires Tree(mem, nodes, root, levels)
    requires n in nodes && n.level == 0 && i < ENTRIES
    ensures Tree(SetWord(mem, nodes[n], i, w), nodes, root, levels)
  {
    var mem' := SetWord(mem, nodes[n], i, w);
    forall m, j | m in nodes && m.level > 0 && 0 <= j < ENTRIES
      ensures Linked(mem', nodes, m, j)
    {
      assert Linked(mem, nodes, m, j);
    }
  }

  lemma SetLeafWord(mem: Mem, nodes: map<Node, nat>, levels: nat, pg: nat, w: nat, q: nat)
    requires Tables(mem, nodes, levels) && Unaliased(nodes) && Node(0, pg / ENTRIES) in nodes
    ensures LeafWord(SetWord(mem, nodes[Node(0, pg / ENTRIES)], pg % ENTRIES, w), nodes, q)
            == if q == pg then w else LeafWord(mem, nodes, q)
  {
  }

  /** Writing one leaf word changes that page and no other. */
  lemma SetLeaf(pages: map<nat, nat>, mem: Mem, nodes: map<Node, nat>, root: nat, agaw: Agaw, pg: nat, w: nat)
    requires Tree(mem, nodes, root, agaw.Levels()) && Represents(pages, mem, nodes, agaw)
    requires pg < agaw.PageLimit() && Node(0, pg / ENTRIES) in nodes && (Present(w) ==> FullAccess(w))
    ensures var mem' := SetWord(mem, nodes[Node(0, pg / ENTRIES)], pg % ENTRIES, w);
            && Tree(mem', nodes, root, agaw.Levels())
            && Represents(if Present(w) then pages[pg := FrameOf(w)] else pages - {pg}, mem', nodes, agaw)
  {
    SetLeafTree(mem, nodes, root, agaw.Levels(), Node(0, pg / ENTRIES), pg % ENTRIES, w);
    forall q: nat
      ensures LeafWord(SetWord(mem, nodes[Node(0, pg / ENTRIES)], pg % ENTRIES, w), nodes, q)
              == if q == pg then w else LeafWord(mem, nodes, q)
    {
      SetLeafWord(mem, nodes, agaw.Levels(), pg, w, q);
    }
  }

  /** The leaf word of a mapped page. */
  function LeafEntry(phys: nat, allowSnoop: bool): (w: nat)
    requires phys < FRAME_LIMIT && phys % PAGE == 0
    ensures FrameOf(w) == phys && FullAccess(w) && Present(w) && (Snooped(w) <==> allowSnoop)
  {
    var flags := if allowSnoop then PTE_READ + PTE_WRITE + PTE_SNP else PTE_READ + PTE_WRITE;
    PteRoundTrip(phys, flags);
    AlignedFrame(phys);
    SlPte(phys, flags)
  }

  lemma SetLeafSnoops(pages: map<nat, nat>, mem: Mem, nodes: map<Node, nat>, levels: nat, pg: nat, w: nat, b: bool)
    requires Tables(mem, nodes, levels) && Unaliased(nodes) && Node(0, pg / ENTRIES) in nodes
    requires Present(w) ==> (Snooped(w) <==> b)
    ensures Snooping(pages, mem, nodes, b) ==>
              Snooping(if Present(w) then pages[pg := FrameOf(w)] else pages - {pg},
                       SetWord(mem, nodes[Node(0, pg / ENTRIES)], pg % ENTRIES, w), nodes, b)
  {
    var mem' := SetWord(mem, nodes[Node(0, pg / ENTRIES)], pg % ENTRIES, w);
    forall q: nat {:trigger LeafWord(mem', nodes, q)}
      ensures LeafWord(mem', nodes, q) == if q == pg then w else LeafWord(mem, nodes, q)
    {
      SetLeafWord(mem, nodes, levels, pg, w, q);
    }
  }

  // ── Outcomes ───────────────────────────────────────────────────────

  /** Tables missing on the way from a level-`level` table down to the leaf table of `iova`. */
  ghost function Missing(nodes: map<Node, nat>, level: nat, iova: nat): nat {
    if level == 0 then 0
    else (if OnPath(level - 1, iova) in nodes then 0 else 1) + Missing(nodes, level - 1, iova)
  }

  lemma {:induction false} MissingAbove(nodes: map<Node, nat>, level: nat, iova: nat, n: Node, f: nat)
    requires n.level >= level
    ensures Missing(nodes[n := f], level, iova) == Missing(nodes, level, iova)
  {
    if level > 0 {
      MissingAbove(nodes, level - 1, iova, n, f);
    }
  }

  /** A mapped page needs no new table. */
  lemma {:induction false} NoneMissing(nodes: map<Node, nat>, levels: nat, level: nat, iova: nat)
    requires Rooted(nodes, levels) && level < levels
    requires OnPath(0, iova) in nodes
    ensures Missing(nodes, level, iova) == 0
  {
    if level > 0 {
      Climb(nodes, levels, level - 1, iova);
      NoneMissing(nodes, levels, level - 1, iova);
    }
  }

  lemma MappedHasTables(
    pages: map<nat, nat>, mem: Mem, nodes: map<Node, nat>, root: nat, agaw: Agaw, iova: nat)
    requires Tree(mem, nodes, root, agaw.Levels()) && Represents(pages, mem, nodes, agaw)
    ensures iova / PAGE in pages ==> Missing(nodes, agaw.Levels() - 1, iova) == 0
  {
    if iova / PAGE in pages {
      assert Present(LeafWord(mem, nodes, iova / PAGE));
      LeafOnPath(iova);
      NoneMissing(nodes, agaw.Levels(), agaw.Levels() - 1, iova);
    }
  }

  // ── The tables a run of pages needs ────────────────────────────────

  /** The tables on the way from a level-`level` table down to the leaf table of page `pg`. */
  ghost function PathTables(level: nat, pg: nat): set<Node> {
    if level == 0 then {} else {Node(level - 1, Prefix(level, pg))} + PathTables(level - 1, pg)
  }

  /** The tables on the ways to `n` consecutive pages. */
  ghost function RunTables(level: nat, first: nat, n: nat): set<Node> {
    if n == 0 then {} else RunTables(level, first, n - 1) + PathTables(level, first + n - 1)
  }

  /** How many tables are missing on the way to page `pg`. */
  ghost function MissingAt(tables: set<Node>, level: nat, pg: nat): nat {
    if level == 0 then 0
    else (if Node(level - 1, Prefix(level, pg)) in tables then 0 else 1) + MissingAt(tables, level - 1, pg)
  }

  /** How many are hung along a run: for each page those that neither were there nor came with the pages before it. */
  ghost function Needed(tables: set<Node>, level: nat, first: nat, n: nat): nat {
    if n == 0 then 0
    else Needed(tables, level, first, n - 1) + MissingAt(tables + RunTables(level, first, n - 1), level, first + n - 1)
  }

  lemma {:induction false} MissingIsAt(nodes: map<Node, nat>, level: nat, iova: nat, pg: nat)
    requires pg == iova / PAGE
    ensures Missing(nodes, level, iova) == MissingAt(nodes.Keys, level, pg)
  {
    if level > 0 {
      MissingIsAt(nodes, level - 1, iova, pg);
    }
  }

  lemma {:induction false} NothingMissing(tables: set<Node>, level: nat, pg: nat)
    requires MissingAt(tables, level, pg) == 0
    ensures PathTables(level, pg) <= tables
  {
    if level > 0 {
      NothingMissing(tables, level - 1, pg);
    }
  }

  /** The tables of a mapped page are there. */
  lemma MappedNeedsNothing(pages: map<nat, nat>, mem: Mem, nodes: map<Node, nat>, root: nat, agaw: Agaw, iova: nat)
    requires Tree(mem, nodes, root, agaw.Levels()) && Represents(pages, mem, nodes, agaw) && iova / PAGE in pages
    ensures Missing(nodes, agaw.Levels() - 1, iova) == 0
    ensures nodes.Keys == nodes.Keys + PathTables(agaw.Levels() - 1, iova / PAGE)
  {
    MappedHasTables(pages, mem, nodes, root, agaw, iova);
    MissingIsAt(nodes, agaw.Levels() - 1, iova, iova / PAGE);
    NothingMissing(nodes.Keys, agaw.Levels() - 1, iova / PAGE);
  }

  lemma {:induction false} NeededGrows(tables: set<Node>, level: nat, first: nat, p: nat, n: nat)
    requires p <= n
    ensures Needed(tables, level, first, p) <= Needed(tables, level, first, n)
    decreases n
  {
    if p < n {
      NeededGrows(tables, level, first, p, n - 1);
    }
  }

  lemma {:induction false} MissingAtBound(tables: set<Node>, level: nat, pg: nat)
    ensures MissingAt(tables, level, pg) <= level
  {
    if level > 0 {
      MissingAtBound(tables, level - 1, pg);
    }
  }

  lemma {:induction false} PathTablesBelow(level: nat, pg: nat, node: Node)
    requires node in PathTables(level, pg)
    ensures node.level < level
  {
    if level > 0 && node != Node(level - 1, Prefix(level, pg)) {
      PathTablesBelow(level - 1, pg, node);
    }
  }

  lemma OneMore<T>(a: set<T>, x: T, b: set<T>)
    requires x !in a
    ensures |{x} + a - b| == (if x in b then 0 else 1) + |a - b|
  {
    assert {x} + a - b == (if x in b then {} else {x}) + (a - b);
  }

  lemma {:induction false} MissingIsCount(tables: set<Node>, level: nat, pg: nat)
    ensures MissingAt(tables, level, pg) == |PathTables(level, pg) - tables|
  {
    if level > 0 {
      var top, rest := Node(level - 1, Prefix(level, pg)), PathTables(level - 1, pg);
      if top in rest {
        PathTablesBelow(level - 1, pg, top);
        assert false;
      }
      MissingIsCount(tables, level - 1, pg);
      OneMore(rest, top, tables);
    }
  }

  lemma UnionCount<T>(a: set<T>, b: set<T>, c: set<T>, all: set<T>)
    requires all == a + b
    ensures |all - c| == |a - c| + |b - (c + a)|
  {
    assert all - c == (a - c) + (b - (c + a));
    assert (a - c) !! (b - (c + a));
  }

  lemma NeededOneMore(tables: set<Node>, level: nat, pg: nat, before: set<Node>, all: set<Node>, missing: nat)
    requires all == before + PathTables(level, pg) && missing == MissingAt(tables + before, level, pg)
    ensures |all - tables| == |before - tables| + missing
  {
    MissingIsCount(tables + before, level, pg);
    UnionCount(before, PathTables(level, pg), tables, all);
  }

  lemma NoneNeeded(tables: set<Node>, level: nat, first: nat)
    ensures Needed(tables, level, first, 0) == |RunTables(level, first, 0) - tables|
  {
    assert RunTables(level, first, 0) - tables == {};
  }

  lemma NeededStep(tables: set<Node>, level: nat, first: nat, p: nat, n: nat)
    requires n == p + 1
    ensures Needed(tables, level, first, n) - Needed(tables, level, first, p)
         == |RunTables(level, first, n) - tables| - |RunTables(level, first, p) - tables|
  {
    var before := RunTables(level, first, p);
    var missing := MissingAt(tables + before, level, first + p);
    NeededOneMore(tables, level, first + p, before, RunTables(level, first, n), missing);
  }

  /** Along a run each missing table is needed once, however many of the pages share it. */
  lemma {:induction false} NeededIsCount(tables: set<Node>, level: nat, first: nat, n: nat)
    ensures Needed(tables, level, first, n) == |RunTables(level, first, n) - tables|
    decreases n
  {
    if n == 0 {
      NoneNeeded(tables, level, first);
    } else {
      NeededIsCount(tables, level, first, n - 1);
      NeededStep(tables, level, first, n - 1, n);
    }
  }

  /** A page never needs more tables than there are levels below the root. */
  lemma {:induction false} NeededBound(tables: set<Node>, level: nat, first: nat, n: nat)
    requires level <= 3
    ensures Needed(tables, level, first, n) <= 3 * n
    decreases n
  {
    if n > 0 {
      NeededBound(tables, level, first, n - 1);
      MissingAtBound(tables + RunTables(level, first, n - 1), level, first + n - 1);
    }
  }

  /** One page further along a run: the tables of its way come in, and the frames for the missing ones go out. */
  lemma SpentStep(tables: set<Node>, had: nat, level: nat, first: nat, p: nat, va: nat, before: map<Node, nat>,
                  left: nat, keys: set<Node>, after: nat)
    requires va / PAGE == first + p && before.Keys == tables + RunTables(level, first, p)
    requires had - left == Needed(tables, level, first, p)
    ensures keys == before.Keys + PathTables(level, va / PAGE) ==> keys == tables + RunTables(level, first, p + 1)
    ensures left - after == Missing(before, level, va) ==> had - after == Needed(tables, level, first, p + 1)
    ensures left < Missing(before, level, va) ==> had < Needed(tables, level, first, p + 1)
  {
    MissingIsAt(before, level, va, first + p);
  }

  lemma PathTablesStep(level: nat, below: nat, iova: nat, keys: set<Node>, more: set<Node>, all: set<Node>)
    requires level == below + 1 && more == keys + {OnPath(below, iova)} && keys + PathTables(level, iova / PAGE) == all
    ensures more + PathTables(below, iova / PAGE) == all
  {
    Reassociate(keys, OnPath(below, iova), PathTables(below, iova / PAGE));
  }

  lemma Reassociate(keys: set<Node>, top: Node, rest: set<Node>)
    ensures keys + {top} + rest == keys + ({top} + rest)
  {
  }

  /** What `map_4k` answers, in terms of the finite map and of the frames it would need. */
  ghost function MapOutcome(pages: map<nat, nat>, needed: nat, available: nat, iova: nat, phys: nat,
                            agaw: Agaw): Outcome {
    if iova % PAGE != 0 || phys % PAGE != 0 then Err(Unaligned)
    else if iova > agaw.MaxIova() then Err(IovaBeyondAgaw)
    else if phys >= FRAME_LIMIT then Err(PhysOutOfRange)
    else if iova / PAGE in pages then Err(AlreadyMapped)
    else if available < needed then Err(OutOfMemory)
    else Ok
  }

  const WORD_LIMIT: nat := 0x1_0000_0000_0000_0000

  /** `pages` with `n` pages from `first` mapped in order to consecutive frames from `phys`. */
  function Extend(pages: map<nat, nat>, first: nat, phys: nat, n: nat): map<nat, nat> {
    if n == 0 then pages
    else Extend(pages, first, phys, n - 1)[first + n - 1 := phys + (n - 1) * PAGE]
  }

  /** `pages` without the `n` pages from `first`. */
  function Shrink(pages: map<nat, nat>, first: nat, n: nat): map<nat, nat> {
    if n == 0 then pages
    else Shrink(pages, first, n - 1) - {first + n - 1}
  }

  /** What clearing page `p` of a run does to the map. */
  lemma ClearStep(before: map<nat, nat>, iova: nat, p: nat, va: nat)
    requires iova % PAGE == 0 && va == iova + p * PAGE
    ensures var so := Shrink(before, iova / PAGE, p);
            && va % PAGE == 0 && Shrink(before, iova / PAGE, p + 1) == so - {va / PAGE}
            && (va / PAGE in so <==> iova / PAGE + p in before)
  {
    PageOffset(iova, p);
    ShrinkStep(before, iova / PAGE, p);
    ShrinkAt(before, iova / PAGE, p, iova / PAGE + p);
  }

  lemma ShrinkStep(pages: map<nat, nat>, first: nat, n: nat)
    ensures Shrink(pages, first, n + 1) == Shrink(pages, first, n) - {first + n}
  {
  }

  lemma PageOffset(iova: nat, p: nat)
    requires iova % PAGE == 0
    ensures (iova + p * PAGE) / PAGE == iova / PAGE + p && (iova + p * PAGE) % PAGE == 0
  {
  }

  ghost predicate AllMapped(pages: map<nat, nat>, first: nat, n: nat) {
    n > 0 ==> AllMapped(pages, first, n - 1) && first + n - 1 in pages
  }

  lemma {:induction false} AllMappedMeans(pages: map<nat, nat>, first: nat, n: nat)
    ensures AllMapped(pages, first, n) <==> forall pg | first <= pg < first + n :: pg in pages
  {
    if n > 0 {
      AllMappedMeans(pages, first, n - 1);
    }
  }

  predicate Unmapped(pages: map<nat, nat>, first: nat, n: nat) {
    forall pg | first <= pg < first + n :: pg !in pages
  }

  lemma {:induction false} ExtendAt(pages: map<nat, nat>, first: nat, phys: nat, n: nat, pg: nat)
    ensures first <= pg < first + n ==>
              pg in Extend(pages, first, phys, n) && Extend(pages, first, phys, n)[pg] == phys + (pg - first) * PAGE
    ensures !(first <= pg < first + n) ==>
              (pg in Extend(pages, first, phys, n) <==> pg in pages)
              && (pg in pages ==> Extend(pages, first, phys, n)[pg] == pages[pg])
  {
    if n > 0 {
      ExtendAt(pages, first, phys, n - 1, pg);
    }
  }

  lemma {:induction false} ShrinkAt(pages: map<nat, nat>, first: nat, n: nat, pg: nat)
    ensures pg in Shrink(pages, first, n) <==> pg in pages && !(first <= pg < first + n)
    ensures pg in Shrink(pages, first, n) ==> Shrink(pages, first, n)[pg] == pages[pg]
  {
    if n > 0 {
      ShrinkAt(pages, first, n - 1, pg);
    }
  }

  /** Unmapping a range undoes mapping it, provided no page of it was mapped before. */
  lemma ShrinkUndoesExtend(pages: map<nat, nat>, first: nat, phys: nat, n: nat)
    requires Unmapped(pages, first, n)
    ensures Shrink(Extend(pages, first, phys, n), first, n) == pages
  {
    var extended := Extend(pages, first, phys, n);
    forall pg: nat
      ensures pg in Shrink(extended, first, n) <==> pg in pages
      ensures pg in pages ==> Shrink(extended, first, n)[pg] == pages[pg]
    {
      ExtendAt(pages, first, phys, n, pg);
      ShrinkAt(extended, first, n, pg);
    }
  }

  /** Nothing but a lack of frames keeps page `p` of the run from being mapped. */
  ghost predicate PageMappable(pages: map<nat, nat>, iova: nat, phys: nat, p: nat, agaw: Agaw) {
    iova / PAGE + p !in pages && iova + p * PAGE <= agaw.MaxIova() && phys + p * PAGE < FRAME_LIMIT
  }

  ghost predicate Mappable(pages: map<nat, nat>, iova: nat, phys: nat, n: nat, agaw: Agaw) {
    forall p | 0 <= p < n :: PageMappable(pages, iova, phys, p, agaw)
  }

  /** What `map_4k` answers for page `p` of a run, the pages before it being mapped. */
  lemma NextOutcome(base: map<nat, nat>, iova: nat, phys: nat, p: nat, va: nat, pa: nat, needed: nat, available: nat,
                    agaw: Agaw)
    requires iova % PAGE == 0 && phys % PAGE == 0 && va == iova + p * PAGE && pa == phys + p * PAGE
    ensures va / PAGE == iova / PAGE + p
    ensures var before := Extend(base, iova / PAGE, phys, p);
            var o := MapOutcome(before, needed, available, va, pa, agaw);
            && (o.Ok? ==> PageMappable(base, iova, phys, p, agaw))
            && (PageMappable(base, iova, phys, p, agaw) ==> o == if available < needed then Err(OutOfMemory) else Ok)
            && Extend(base, iova / PAGE, phys, p + 1) == before[va / PAGE := pa]
  {
    PageOffset(iova, p);
    PageOffset(phys, p);
    ExtendAt(base, iova / PAGE, phys, p, iova / PAGE + p);
  }

  lemma MappableRun(pages: map<nat, nat>, iova: nat, phys: nat, n: nat, agaw: Agaw)
    requires Mappable(pages, iova, phys, n, agaw)
    ensures Unmapped(pages, iova / PAGE, n)
  {
    forall pg | iova / PAGE <= pg < iova / PAGE + n
      ensures pg !in pages
    {
      assert PageMappable(pages, iova, phys, pg - iova / PAGE, agaw);
    }
  }

  /**
    The argument checks of `map_range`. For an empty range at address 0 the source's `end - 1`
    leaves the word range, which the comparison then rejects.
   */
  function RangeArgs(iova: nat, phys: nat, size: nat, agaw: Agaw): Outcome {
    if iova % PAGE != 0 || phys % PAGE != 0 || size % PAGE != 0 then Err(RangeUnaligned)
    else if iova > agaw.MaxIova() || iova + size == 0 || iova + size - 1 > agaw.MaxIova() then Err(RangeBeyondAgaw)
    else Ok
  }

  /** A range passes exactly when it is a run of whole pages and every byte of it can be addressed. */
  lemma RangeArgsExactly(iova: nat, phys: nat, size: nat, agaw: Agaw)
    ensures RangeArgs(iova, phys, size, agaw) == Err(RangeUnaligned) <==>
            !(iova / PAGE * PAGE == iova && phys / PAGE * PAGE == phys && size / PAGE * PAGE == size)
    ensures RangeArgs(iova, phys, size, agaw).Ok? <==>
            && iova / PAGE * PAGE == iova && phys / PAGE * PAGE == phys && size / PAGE * PAGE == size
            && iova <= agaw.MaxIova() && iova + size > 0
            && forall x {:trigger agaw.Reaches(x)} | iova <= x < iova + size :: agaw.Reaches(x)
  {
    if size > 0 && iova + size - 1 > agaw.MaxIova() {
      assert !agaw.Reaches(iova + size - 1);
    }
  }

  lemma SameTranslation(pages: map<nat, nat>, mem: Mem, nodes: map<Node, nat>, root: nat, agaw: Agaw)
    ensures Tree(mem, nodes, root, agaw.Levels()) && Represents(pages, mem, nodes, agaw) ==>
              forall va :: Translation(mem, root, va, agaw) == Lookup(pages, va)
  {
    if Tree(mem, nodes, root, agaw.Levels()) && Represents(pages, mem, nodes, agaw) {
      forall va: nat
        ensures Translation(mem, root, va, agaw) == Lookup(pages, va)
      {
        TranslationIsLookup(pages, mem, nodes, root, agaw, va);
      }
    }
  }

  // ── The tree in memory ─────────────────────────────────────────────

  /** Frames the physical allocator will hand out, in order; exhausted means out of memory. */
  ghost predicate Fresh(supply: seq<nat>, mem: Mem) {
    && (forall i | 0 <= i < |supply| :: TableFrame(supply[i]) && supply[i] !in mem)
    && (forall i, j | 0 <= i < j < |supply| :: supply[i] != supply[j])
  }

  class PageTable {
    const root: nat
    const agaw: Agaw
    var mem: Mem
    var supply: seq<nat>
    ghost var nodes: map<Node, nat>
    ghost var pages: map<nat, nat>

    ghost predicate Valid()
      reads this
    {
      Tree(mem, nodes, root, agaw.Levels()) && Fresh(supply, mem) && Represents(pages, mem, nodes, agaw)
    }

    /** All mappings are marked for snooping, or none is. */
    ghost predicate Snoops(b: bool)
      reads this
    {
      Snooping(pages, mem, nodes, b)
    }

    /** A zeroed root table. */
    constructor (root: nat, agaw: Agaw, supply: seq<nat>)
      requires TableFrame(root) && Fresh(supply, map[root := Zeroes()])
      ensures Valid() && pages == map[]
      ensures this.root == root && this.agaw == agaw && this.supply == supply
    {
      this.root := root;
      this.agaw := agaw;
      this.mem := map[root := Zeroes()];
      this.supply := supply;
      this.nodes := map[Node(agaw.Levels() - 1, 0) := root];
      this.pages := map[];
    }

    method Translate(iova: nat) returns (r: Option<nat>)
      requires Valid()
      ensures r == Translation(mem, root, iova, agaw)
      ensures r == Lookup(pages, iova)
    {
      TranslationIsLookup(pages, mem, nodes, root, agaw, iova);
      if iova > agaw.MaxIova() {
        return None;
      }
      var cur := root;
      var level := agaw.Levels() - 1;
      while level > 0
        invariant 0 <= level < agaw.Levels()
        invariant Walk(mem, root, agaw.Levels() - 1, iova) == Walk(mem, cur, level, iova)
      {
        var e := Word(mem, cur, Index(level, iova));
        if !Present(e) {
          return None;
        }
        if Large(e) {
          return Some(LargeTarget(e, level, iova));
        }
        cur := FrameOf(e);
        if cur == 0 {
          return None;
        }
        level := level - 1;
      }
      var leaf := Word(mem, cur, Index(0, iova));
      if !Present(leaf) {
        return None;
      }
      return Some(FrameOf(leaf) + iova % PAGE);
    }

    /** Take a frame, zero it and hang it under the empty entry `i` of `cur`. */
    method HangTable(cur: nat, i: nat, ghost n: Node) returns (next: nat)
      requires Valid() && supply != []
      requires n in nodes && nodes[n] == cur && n.level > 0 && i < ENTRIES && !Present(Word(mem, cur, i))
      modifies this
      ensures (old(Snoops(true)) ==> Snoops(true)) && (old(Snoops(false)) ==> Snoops(false))
      ensures Valid() && pages == old(pages)
      ensures Child(n, i) !in old(nodes) && nodes == old(nodes)[Child(n, i) := next]
      ensures supply == old(supply)[1..]
    {
      next := supply[0];
      LinkTable(pages, mem, nodes, root, agaw, n, i, next);
      LinkTableSnoops(pages, mem, nodes, root, agaw.Levels(), n, i, next, true);
      LinkTableSnoops(pages, mem, nodes, root, agaw.Levels(), n, i, next, false);
      mem := Grown(mem, cur, i, next);
      supply := supply[1..];
      nodes := nodes[Child(n, i) := next];
    }

    /** The table below level-`level` table `cur` on the way to `iova`, hung there if absent. */
    method Descend(cur: nat, level: nat, below: nat, iova: nat) returns (next: nat, r: Outcome)
      requires Valid() && level == below + 1 < agaw.Levels()
      requires OnPath(level, iova) in nodes && nodes[OnPath(level, iova)] == cur
      modifies this
      ensures (old(Snoops(true)) ==> Snoops(true)) && (old(Snoops(false)) ==> Snoops(false))
      ensures Valid() && pages == old(pages)
      ensures r == if OnPath(below, iova) !in old(nodes) && old(supply) == [] then Err(OutOfMemory) else Ok
      ensures r.Err? ==> supply == [] && nodes == old(nodes) && Missing(nodes, level, iova) > 0
      ensures r.Ok? ==> OnPath(below, iova) in nodes && nodes[OnPath(below, iova)] == next
      ensures r.Ok? ==> |old(supply)| - |supply| + Missing(nodes, below, iova) == old(Missing(nodes, level, iova))
      ensures r.Ok? ==> nodes.Keys == old(nodes).Keys + {OnPath(below, iova)}
    {
      next, r := 0, Ok;
      var i := Index(level, iova);
      ChildOnPath(level, iova);
      PathWord(mem, nodes, root, agaw.Levels(), level, iova);
      var e := Word(mem, cur, i);
      if !Present(e) {
        if |supply| == 0 {
          r := Err(OutOfMemory);
          return;
        }
        next := HangTable(cur, i, OnPath(level, iova));
        MissingAbove(old(nodes), below, iova, OnPath(below, iova), next);
      } else {
        if Large(e) {
          r := Err(SuperpageCollision);
          return;
        }
        next := FrameOf(e);
        if next == 0 {
          r := Err(NullTable);
          return;
        }
      }
    }

    /** The leaf table of `iova`, with every table on the way hung if absent. */
    method LeafTable(iova: nat) returns (cur: nat, r: Outcome)
      requires Valid() && iova <= agaw.MaxIova()
      modifies this
      ensures (old(Snoops(true)) ==> Snoops(true)) && (old(Snoops(false)) ==> Snoops(false))
      ensures Valid() && pages == old(pages)
      ensures r.Ok? ==> |old(supply)| - |supply| == old(Missing(nodes, agaw.Levels() - 1, iova))
      ensures r == if old(|supply|) < old(Missing(nodes, agaw.Levels() - 1, iova)) then Err(OutOfMemory) else Ok
      ensures r.Ok? ==> OnPath(0, iova) in nodes && nodes[OnPath(0, iova)] == cur
      ensures r.Ok? ==> nodes.Keys == old(nodes).Keys + PathTables(agaw.Levels() - 1, iova / PAGE)
    {
      TopPrefix(agaw, iova / PAGE);
      ghost var had, need := |supply|, Missing(nodes, agaw.Levels() - 1, iova);
      ghost var all := nodes.Keys + PathTables(agaw.Levels() - 1, iova / PAGE);
      r := Ok;
      cur := root;
      var level := agaw.Levels() - 1;
      while level > 0
        invariant 0 <= level < agaw.Levels() && r == Ok
        invariant Valid() && pages == old(pages)
        invariant (old(Snoops(true)) ==> Snoops(true)) && (old(Snoops(false)) ==> Snoops(false))
        invariant OnPath(level, iova) in nodes && nodes[OnPath(level, iova)] == cur
        invariant had - |supply| + Missing(nodes, level, iova) == need
        invariant nodes.Keys + PathTables(level, iova / PAGE) == all
      {
        var below := level - 1;
        ghost var keys := nodes.Keys;
        cur, r := Descend(cur, level, below, iova);
        if r.Err? {
          return;
        }
        PathTablesStep(level, below, iova, keys, nodes.Keys, all);
        level := below;
      }
    }

    method Map4k(iova: nat, phys: nat, allowSnoop: bool) returns (r: Outcome)
      requires Valid()
      modifies this
      ensures old(Snoops(allowSnoop)) ==> Snoops(allowSnoop)
      ensures Valid()
      ensures r == old(MapOutcome(pages, Missing(nodes, agaw.Levels() - 1, iova), |supply|, iova, phys, agaw))
      ensures pages == if r.Ok? then old(pages)[iova / PAGE := phys] else old(pages)
      ensures r.Ok? ==> |old(supply)| - |supply| == old(Missing(nodes, agaw.Levels() - 1, iova))
      ensures r.Ok? ==> nodes.Keys == old(nodes).Keys + PathTables(agaw.Levels() - 1, iova / PAGE)
      ensures r.Ok? ==> FullAccess(LeafWord(mem, nodes, iova / PAGE))
      ensures r.Ok? ==> (Snooped(LeafWord(mem, nodes, iova / PAGE)) <==> allowSnoop)
    {
      if iova % PAGE != 0 || phys % PAGE != 0 {
        return Err(Unaligned);
      }
      if iova > agaw.MaxIova() {
        return Err(IovaBeyondAgaw);
      }
      if phys >= FRAME_LIMIT {
        return Err(PhysOutOfRange);
      }
      MappedHasTables(pages, mem, nodes, root, agaw, iova);
      var cur: nat;
      cur, r := LeafTable(iova);
      if r.Ok? {
        r := WriteLeaf(cur, iova, phys, allowSnoop);
      }
    }

    method WriteLeaf(cur: nat, iova: nat, phys: nat, allowSnoop: bool) returns (r: Outcome)
      requires Valid() && iova <= agaw.MaxIova() && phys < FRAME_LIMIT && phys % PAGE == 0
      requires OnPath(0, iova) in nodes && nodes[OnPath(0, iova)] == cur
      modifies this
      ensures old(Snoops(allowSnoop)) ==> Snoops(allowSnoop)
      ensures Valid() && supply == old(supply) && nodes == old(nodes)
      ensures r == if iova / PAGE in old(pages) then Err(AlreadyMapped) else Ok
      ensures pages == if r.Ok? then old(pages)[iova / PAGE := phys] else old(pages)
      ensures r.Ok? ==> FullAccess(LeafWord(mem, nodes, iova / PAGE))
      ensures r.Ok? ==> (Snooped(LeafWord(mem, nodes, iova / PAGE)) <==> allowSnoop)
    {
      LeafOnPath(iova);
      IndexIsDigit(0, iova);
      var i := Index(0, iova);
      var existing := Word(mem, cur, i);
      assert LeafWord(mem, nodes, iova / PAGE) == existing;
      if Present(existing) {
        return Err(AlreadyMapped);
      }
      var w := LeafEntry(phys, allowSnoop);
      SetLeaf(pages, mem, nodes, root, agaw, iova / PAGE, w);
      SetLeafWord(mem, nodes, agaw.Levels(), iova / PAGE, w, iova / PAGE);
      SetLeafSnoops(pages, mem, nodes, agaw.Levels(), iova / PAGE, w, allowSnoop);
      mem := SetWord(mem, cur, i, w);
      pages := pages[iova / PAGE := phys];
      return Ok;
    }

    method Unmap4k(iova: nat) returns (r: bool)
      requires Valid()
      modifies this
      ensures (old(Snoops(true)) ==> Snoops(true)) && (old(Snoops(false)) ==> Snoops(false))
      ensures Valid() && supply == old(supply) && nodes == old(nodes)
      ensures r <==> iova % PAGE == 0 && iova / PAGE in old(pages)
      ensures pages == if iova % PAGE == 0 then old(pages) - {iova / PAGE} else old(pages)
    {
      if iova % PAGE != 0 || iova > agaw.MaxIova() {
        ghost var leaf := LeafWord(mem, nodes, iova / PAGE);
        assert iova % PAGE == 0 ==> pages == pages - {iova / PAGE};
        return false;
      }
      var found, cur := FindLeafTable(iova);
      if found {
        r := ClearLeaf(cur, iova);
      } else {
        assert pages == pages - {iova / PAGE};
        r := false;
      }
    }

    /** Walk down to the leaf table of `iova` without hanging anything; without one the page is unmapped. */
    method FindLeafTable(iova: nat) returns (found: bool, cur: nat)
      requires Valid() && iova <= agaw.MaxIova()
      ensures found ==> OnPath(0, iova) in nodes && nodes[OnPath(0, iova)] == cur
      ensures !found ==> iova / PAGE !in pages
    {
      TopPrefix(agaw, iova / PAGE);
      found, cur := true, root;
      var level := agaw.Levels() - 1;
      while level > 0 && found
        invariant 0 <= level < agaw.Levels()
        invariant found ==> OnPath(level, iova) in nodes && nodes[OnPath(level, iova)] == cur
        invariant !found ==> iova / PAGE !in pages
        decreases level, found
      {
        var below := level - 1;
        PathWord(mem, nodes, root, agaw.Levels(), level, iova);
        var e := Word(mem, cur, Index(level, iova));
        if !Present(e) || Large(e) {
          Unreached(mem, nodes, root, agaw, below, iova);
          found := false;
        } else {
          cur := FrameOf(e);
          found := cur != 0;
          level := below;
        }
      }
    }

    method ClearLeaf(cur: nat, iova: nat) returns (r: bool)
      requires Valid() && iova <= agaw.MaxIova()
      requires OnPath(0, iova) in nodes && nodes[OnPath(0, iova)] == cur
      modifies this
      ensures (old(Snoops(true)) ==> Snoops(true)) && (old(Snoops(false)) ==> Snoops(false))
      ensures Valid() && supply == old(supply) && nodes == old(nodes)
      ensures r <==> iova / PAGE in old(pages)
      ensures pages == old(pages) - {iova / PAGE}
    {
      LeafOnPath(iova);
      IndexIsDigit(0, iova);
      var i := Index(0, iova);
      var leaf := Word(mem, cur, i);
      assert LeafWord(mem, nodes, iova / PAGE) == leaf;
      if !Present(leaf) {
        assert pages == pages - {iova / PAGE};
        return false;
      }
      SetLeaf(pages, mem, nodes, root, agaw, iova / PAGE, 0);
      SetLeafSnoops(pages, mem, nodes, agaw.Levels(), iova / PAGE, 0, true);
      SetLeafSnoops(pages, mem, nodes, agaw.Levels(), iova / PAGE, 0, false);
      mem := SetWord(mem, cur, i, 0);
      pages := pages - {iova / PAGE};
      return true;
    }

    /** The tables and the frames left after `p` pages of a run that began with `tables` and `had` frames. */
    ghost predicate Spent(tables: set<Node>, had: nat, first: nat, p: nat)
      reads this
    {
      && nodes.Keys == tables + RunTables(agaw.Levels() - 1, first, p)
      && had - |supply| == Needed(tables, agaw.Levels() - 1, first, p)
    }

    /** Page `p` of a run, at `va`, on top of the first `p` pages of it. */
    method MapNext(va: nat, pa: nat, p: nat, allowSnoop: bool, ghost iova: nat, ghost phys: nat,
                   ghost base: map<nat, nat>)
      returns (r: Outcome)
      requires Valid() && iova % PAGE == 0 && phys % PAGE == 0 && va == iova + p * PAGE && pa == phys + p * PAGE
      requires pages == Extend(base, iova / PAGE, phys, p)
      modifies this
      ensures old(Snoops(allowSnoop)) ==> Snoops(allowSnoop)
      ensures Valid()
      ensures pages == if r.Ok? then Extend(base, iova / PAGE, phys, p + 1) else old(pages)
      ensures r.Ok? ==> PageMappable(base, iova, phys, p, agaw)
      ensures r.Ok? ==> old(|supply|) - |supply| == old(Missing(nodes, agaw.Levels() - 1, va))
      ensures r.Ok? ==> nodes.Keys == old(nodes).Keys + PathTables(agaw.Levels() - 1, va / PAGE)
      ensures r.Err? && PageMappable(base, iova, phys, p, agaw) ==>
                r == Err(OutOfMemory) && old(|supply|) < old(Missing(nodes, agaw.Levels() - 1, va))
    {
      NextOutcome(base, iova, phys, p, va, pa, Missing(nodes, agaw.Levels() - 1, va), |supply|, agaw);
      r := Map4k(va, pa, allowSnoop);
    }

    /** The same, counted from the start of the run. */
    method MapCounted(iova: nat, phys: nat, p: nat, allowSnoop: bool, ghost base: map<nat, nat>,
                      ghost tables: set<Node>, ghost had: nat)
      returns (r: Outcome)
      requires Valid() && iova % PAGE == 0 && phys % PAGE == 0
      requires pages == Extend(base, iova / PAGE, phys, p) && Spent(tables, had, iova / PAGE, p)
      modifies this
      ensures old(Snoops(allowSnoop)) ==> Snoops(allowSnoop)
      ensures Valid()
      ensures pages == if r.Ok? then Extend(base, iova / PAGE, phys, p + 1) else old(pages)
      ensures r.Ok? ==> PageMappable(base, iova, phys, p, agaw) && Spent(tables, had, iova / PAGE, p + 1)
      ensures r.Err? && PageMappable(base, iova, phys, p, agaw) ==>
                r == Err(OutOfMemory) && had < Needed(tables, agaw.Levels() - 1, iova / PAGE, p + 1)
    {
      var va, pa := iova + p * PAGE, phys + p * PAGE;
      ghost var before, left := nodes, |supply|;
      PageOffset(iova, p);
      r := MapNext(va, pa, p, allowSnoop, iova, phys, base);
      SpentStep(tables, had, agaw.Levels() - 1, iova / PAGE, p, va, before, left, nodes.Keys, |supply|);
    }

    /** The next page of a run to be cleared. */
    method ClearNext(iova: nat, p: nat, ghost before: map<nat, nat>) returns (was: bool)
      requires Valid() && iova % PAGE == 0 && pages == Shrink(before, iova / PAGE, p)
      modifies this
      ensures (old(Snoops(true)) ==> Snoops(true)) && (old(Snoops(false)) ==> Snoops(false))
      ensures Valid() && pages == Shrink(before, iova / PAGE, p + 1)
      ensures was <==> iova / PAGE + p in before
    {
      var va := iova + p * PAGE;
      ClearStep(before, iova, p, va);
      was := Unmap4k(va);
    }

    /** Clear `n` pages; true exactly when all of them were mapped. */
    method ClearPages(iova: nat, n: nat) returns (ok: bool)
      requires Valid() && iova % PAGE == 0
      modifies this
      ensures (old(Snoops(true)) ==> Snoops(true)) && (old(Snoops(false)) ==> Snoops(false))
      ensures Valid() && pages == Shrink(old(pages), iova / PAGE, n)
      ensures ok <==> AllMapped(old(pages), iova / PAGE, n)
    {
      ok := true;
      ghost var first, before := iova / PAGE, pages;
      var p := 0;
      while p < n
        invariant (old(Snoops(true)) ==> Snoops(true)) && (old(Snoops(false)) ==> Snoops(false))
        invariant 0 <= p <= n
        invariant Valid() && pages == Shrink(before, first, p)
        invariant ok <==> AllMapped(before, first, p)
      {
        var was := ClearNext(iova, p, before);
        ok := ok && was;
        p := p + 1;
      }
    }

    /** Map a page to itself unless it is mapped; `elsewhere` when it is mapped to another address. */
    method MapOwn(addr: nat, allowSnoop: bool) returns (ok: bool, elsewhere: bool)
      requires Valid() && addr % PAGE == 0 && addr <= agaw.MaxIova()
      modifies this
      ensures old(Snoops(allowSnoop)) ==> Snoops(allowSnoop)
      ensures Valid()
      ensures elsewhere <==> addr / PAGE in old(pages) && old(pages)[addr / PAGE] != addr
      ensures pages == if ok && addr / PAGE !in old(pages) then old(pages)[addr / PAGE := addr] else old(pages)
      ensures ok <==> old(Missing(nodes, agaw.Levels() - 1, addr)) <= old(|supply|)
      ensures ok ==> nodes.Keys == old(nodes).Keys + PathTables(agaw.Levels() - 1, addr / PAGE)
      ensures ok ==> old(|supply|) - |supply| == old(Missing(nodes, agaw.Levels() - 1, addr))
    {
      ok, elsewhere := true, false;
      var seen := Translate(addr);
      if seen.Some? {
        MappedNeedsNothing(pages, mem, nodes, root, agaw, addr);
        elsewhere := seen.value != addr;
      } else {
        var o := Map4k(addr, addr, allowSnoop);
        ok := o.Ok? || o.error == AlreadyMapped;
      }
    }

    /** Map consecutive pages, stopping at the first of the `n` that fails; `done` of them are mapped. */
    method MapEach(iova: nat, phys: nat, n: nat, allowSnoop: bool) returns (r: Outcome, done: nat)
      requires Valid() && iova % PAGE == 0 && phys % PAGE == 0
      modifies this
      ensures old(Snoops(allowSnoop)) ==> Snoops(allowSnoop)
      ensures Valid() && done <= n
      ensures pages == Extend(old(pages), iova / PAGE, phys, done) && Mappable(old(pages), iova, phys, done, agaw)
      ensures r.Ok? ==> done == n && Spent(old(nodes.Keys), old(|supply|), iova / PAGE, n)
      ensures r.Ok? <==> Mappable(old(pages), iova, phys, n, agaw)
                         && old(Needed(nodes.Keys, agaw.Levels() - 1, iova / PAGE, n)) <= old(|supply|)
      ensures r.Err? && Mappable(old(pages), iova, phys, n, agaw) ==> r == Err(OutOfMemory)
    {
      ghost var tables, had := nodes.Keys, |supply|;
      done := 0;
      while done < n
        invariant old(Snoops(allowSnoop)) ==> Snoops(allowSnoop)
        invariant 0 <= done <= n
        invariant Valid() && pages == Extend(old(pages), iova / PAGE, phys, done)
        invariant Mappable(old(pages), iova, phys, done, agaw) && Spent(tables, had, iova / PAGE, done)
      {
        r := MapCounted(iova, phys, done, allowSnoop, old(pages), tables, had);
        if r.Err? {
          NeededGrows(tables, agaw.Levels() - 1, iova / PAGE, done + 1, n);
          return;
        }
        done := done + 1;
      }
      r := Ok;
    }

    /**
      Map `n` consecutive pages, undoing all of them when one fails. All are mapped exactly when each
      can be and the frames last for every table missing on the way to any of them.
     */
    method MapPages(iova: nat, phys: nat, n: nat, allowSnoop: bool) returns (r: Outcome)
      requires Valid() && iova % PAGE == 0 && phys % PAGE == 0
      modifies this
      ensures old(Snoops(allowSnoop)) ==> Snoops(allowSnoop)
      ensures Valid()
      ensures pages == if r.Ok? then Extend(old(pages), iova / PAGE, phys, n) else old(pages)
      ensures r.Ok? <==> Mappable(old(pages), iova, phys, n, agaw)
                         && old(Needed(nodes.Keys, agaw.Levels() - 1, iova / PAGE, n)) <= old(|supply|)
      ensures r.Ok? ==> old(|supply|) - |supply| == old(Needed(nodes.Keys, agaw.Levels() - 1, iova / PAGE, n))
      ensures r.Err? && Mappable(old(pages), iova, phys, n, agaw) ==> r == Err(OutOfMemory)
    {
      var done: nat;
      r, done := MapEach(iova, phys, n, allowSnoop);
      if r.Err? {
        MappableRun(old(pages), iova, phys, done, agaw);
        ShrinkUndoesExtend(old(pages), iova / PAGE, phys, done);
        Rollback(iova, done);
      }
    }

    /**
      Map a contiguous range. On any failure every address, mapped or not, translates as it did
      before the call, even though intermediate tables hung on the way remain.
     */
    method MapRange(iova: nat, phys: nat, size: nat, allowSnoop: bool) returns (r: Outcome)
      requires Valid() && iova < WORD_LIMIT && phys < WORD_LIMIT && size < WORD_LIMIT
      modifies this
      ensures old(Snoops(allowSnoop)) ==> Snoops(allowSnoop)
      ensures Valid()
      ensures RangeArgs(iova, phys, size, agaw).Err? ==> r == RangeArgs(iova, phys, size, agaw)
      ensures pages == if r.Ok? then Extend(old(pages), iova / PAGE, phys, size / PAGE) else old(pages)
      ensures r.Ok? <==> && RangeArgs(iova, phys, size, agaw).Ok?
                         && Mappable(old(pages), iova, phys, size / PAGE, agaw)
                         && old(Needed(nodes.Keys, agaw.Levels() - 1, iova / PAGE, size / PAGE)) <= old(|supply|)
      ensures r.Err? ==> forall va :: Translation(mem, root, va, agaw) == Translation(old(mem), root, va, agaw)
    {
      if iova % PAGE != 0 || phys % PAGE != 0 || size % PAGE != 0 {
        return Err(RangeUnaligned);
      }
      if iova > agaw.MaxIova() || iova + size >= WORD_LIMIT || iova + size == 0 || iova + size - 1 > agaw.MaxIova() {
        return Err(RangeBeyondAgaw);
      }
      r := MapPages(iova, phys, size / PAGE, allowSnoop);
      SameTranslation(pages, old(mem), old(nodes), root, agaw);
      SameTranslation(pages, mem, nodes, root, agaw);
    }

    method Rollback(iova: nat, n: nat)
      requires Valid() && iova % PAGE == 0
      modifies this
      ensures (old(Snoops(true)) ==> Snoops(true)) && (old(Snoops(false)) ==> Snoops(false))
      ensures Valid() && pages == Shrink(old(pages), iova / PAGE, n)
    {
      var _ := ClearPages(iova, n);
    }
  }
}
