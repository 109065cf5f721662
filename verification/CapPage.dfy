/**
  The capability window (`serialize_to_page` in `caps/mod.rs`): a task's capabilities packed into a
  fixed window of bytes, and a reader of that format.
 */
module CapPage {
  import opened Common
  import CapPaths

  type Byte = x: int | 0 <= x < 256

  datatype Cap = Cap(path: seq<Byte>, verb: Option<seq<Byte>>, perm: CapPaths.Perm)

  const WINDOW: nat := 16384
  const U32_LIMIT: nat := 0x1_0000_0000
  const ABSENT: nat := 0xFFFF_FFFF

  // ---- The format --------------------------------------------------------------------------

  function U32(n: nat): (b: seq<Byte>)
    requires n < U32_LIMIT
    ensures |b| == 4
  {
    [n % 256, n / 256 % 256, n / 65536 % 256, n / 16777216]
  }

  function ReadU32(b: seq<Byte>): (n: nat)
    requires |b| >= 4
  {
    (b[0] as int) + 256 * (b[1] as int) + 65536 * (b[2] as int) + 16777216 * (b[3] as int)
  }

  function Padding(length: nat): (n: nat)
    ensures n < 4
  {
    if length % 4 == 0 then 0 else 4 - length % 4
  }

  function Zeroes(n: nat): (b: seq<Byte>)
    ensures |b| == n
  {
    seq(n, i => 0)
  }

  /** A length, the bytes, and zeroes up to the next multiple of four. */
  function Text(bytes: seq<Byte>): (b: seq<Byte>)
    requires |bytes| < U32_LIMIT
    ensures |b| == 4 + |bytes| + Padding(|bytes|)
  {
    U32(|bytes|) + bytes + Zeroes(Padding(|bytes|))
  }

  function PermByte(p: CapPaths.Perm): (b: Byte) {
    if p.R? then 1 else 3
  }

  function VerbText(verb: Option<seq<Byte>>): (b: seq<Byte>)
    requires verb.Some? ==> |verb.value| < ABSENT
    ensures |b| == if verb.Some? then 4 + |verb.value| + Padding(|verb.value|) else 4
  {
    if verb.Some? then Text(verb.value) else U32(ABSENT)
  }

  predicate Small(c: Cap) {
    |c.path| < ABSENT && (c.verb.Some? ==> |c.verb.value| < ABSENT)
  }

  function Entry(c: Cap): (b: seq<Byte>)
    requires Small(c)
    ensures |b| == |Text(c.path)| + |VerbText(c.verb)| + 4
  {
    Text(c.path) + VerbText(c.verb) + [PermByte(c.perm), 0, 0, 0]
  }

  /** The single size test made before an entry is written. */
  predicate Fits(off: nat, c: Cap) {
    off + 8 + |c.path| + 8 + (if c.verb.Some? then |c.verb.value| else 0) + 4 <= WINDOW
  }

  /** The test covers everything the entry writes, padding included. */
  lemma FitsCovers(off: nat, c: Cap)
    requires Fits(off, c)
    ensures Small(c) && off + |Entry(c)| <= WINDOW
  {
  }

  /** The test is no stricter than eight bytes: an entry it turns away would end within the last eight or beyond. */
  lemma FitsTight(off: nat, c: Cap)
    requires Small(c) && !Fits(off, c)
    ensures off + |Entry(c)| + 8 > WINDOW
  {
  }

  /** The bytes of an entry, one field after the other, lengths with the low byte first. */
  lemma EntryLayout(c: Cap)
    requires Small(c)
    ensures var b, p := Entry(c), |c.path|;
            var q := 4 + p + Padding(p);
            && (b[0] as int) + 256 * (b[1] as int) + 65536 * (b[2] as int) + 16777216 * (b[3] as int) == p
            && b[4..4 + p] == c.path
            && b[q..q + 4] == (if c.verb.Some? then U32(|c.verb.value|) else [255, 255, 255, 255])
            && (c.verb.Some? ==> b[q + 4..q + 4 + |c.verb.value|] == c.verb.value)
            && b[|b| - 4..] == [if c.perm == CapPaths.R then 1 else 3, 0, 0, 0]
  {
    var b := Entry(c);
    U32RoundTrip(|c.path|, b[4..]);
    assert b == U32(|c.path|) + b[4..];
    VerbLayout(c);
  }

  lemma VerbLayout(c: Cap)
    requires Small(c)
    ensures var b, q := Entry(c), |Text(c.path)|;
            && b[q..q + 4] == (if c.verb.Some? then U32(|c.verb.value|) else [255, 255, 255, 255])
            && (c.verb.Some? ==> b[q + 4..q + 4 + |c.verb.value|] == c.verb.value)
  {
    var b, q := Entry(c), |Text(c.path)|;
    assert b[q..] == VerbText(c.verb) + [PermByte(c.perm), 0, 0, 0];
    assert b[q..q + 4] == b[q..][..4];
    if c.verb.Some? {
      assert b[q + 4..q + 4 + |c.verb.value|] == b[q..][4..4 + |c.verb.value|];
    }
  }

  /** Every entry, and so every length in it, starts at a multiple of four. */
  lemma EntryAligned(c: Cap)
    requires Small(c)
    ensures |Text(c.path)| % 4 == 0 && |Text(c.path) + VerbText(c.verb)| % 4 == 0 && |Entry(c)| % 4 == 0
            && |Entry(c)| >= 12
  {
    TextAligned(|c.path|);
    if c.verb.Some? {
      TextAligned(|c.verb.value|);
    }
    Sum4(|Text(c.path)|, |VerbText(c.verb)|);
    Sum4(|Text(c.path)| + |VerbText(c.verb)|, 4);
  }

  lemma TextAligned(length: nat)
    ensures (4 + length + Padding(length)) % 4 == 0
  {
  }

  lemma Sum4(a: nat, b: nat)
    requires a % 4 == 0 && b % 4 == 0
    ensures (a + b) % 4 == 0
  {
  }

  predicate AllSmall(caps: seq<Cap>) {
    forall i | 0 <= i < |caps| :: Small(caps[i])
  }

  function Flat(chunks: seq<seq<Byte>>): (b: seq<Byte>) {
    if chunks == [] then [] else Flat(chunks[..|chunks| - 1]) + chunks[|chunks| - 1]
  }

  function Chunks(caps: seq<Cap>): (chunks: seq<seq<Byte>>)
    requires AllSmall(caps)
  {
    seq(|caps|, i requires 0 <= i < |caps| => Entry(caps[i]))
  }

  function Entries(caps: seq<Cap>): (b: seq<Byte>)
    requires AllSmall(caps)
  {
    Flat(Chunks(caps))
  }

  // ---- The reader --------------------------------------------------------------------------

  /** A length-prefixed text and what follows it. */
  function TakeText(b: seq<Byte>, length: nat): (r: Option<(seq<Byte>, seq<Byte>)>)
    requires |b| >= 4
  {
    if 4 + length + Padding(length) <= |b| then Some((b[4..4 + length], b[4 + length + Padding(length)..])) else None
  }

  function TakeVerb(b: seq<Byte>): (r: Option<(Option<seq<Byte>>, seq<Byte>)>)
    requires |b| >= 4
  {
    if ReadU32(b) == ABSENT then Some((None, b[4..]))
    else match TakeText(b, ReadU32(b))
      case None => None
      case Some(t) => Some((Some(t.0), t.1))
  }

  function TakePerm(b: seq<Byte>): (r: Option<(CapPaths.Perm, seq<Byte>)>) {
    if |b| < 4 then None
    else if b[0] == 1 then Some((CapPaths.R, b[4..]))
    else if b[0] == 3 then Some((CapPaths.RW, b[4..]))
    else None
  }

  function TakeEntry(b: seq<Byte>): (r: Option<(Cap, seq<Byte>)>) {
    if |b| < 4 then None else
      match TakeText(b, ReadU32(b))
      case None => None
      case Some(path) =>
        if |path.1| < 4 then None else
          match TakeVerb(path.1)
          case None => None
          case Some(verb) =>
            match TakePerm(verb.1)
            case None => None
            case Some(perm) => Some((Cap(path.0, verb.0, perm.0), perm.1))
  }

  function TakeEntries(b: seq<Byte>, n: nat): (r: Option<seq<Cap>>) {
    if n == 0 then Some([]) else
      match TakeEntry(b)
      case None => None
      case Some(first) =>
        match TakeEntries(first.1, n - 1)
        case None => None
        case Some(rest) => Some([first.0] + rest)
  }

  function Decode(window: seq<Byte>): (r: Option<seq<Cap>>) {
    if |window| < 4 then None else TakeEntries(window[4..], ReadU32(window))
  }

  // ---- Reading back what was written -------------------------------------------------------

  lemma U32RoundTrip(n: nat, tail: seq<Byte>)
    requires n < U32_LIMIT
    ensures ReadU32(U32(n) + tail) == n
  {
    assert n / 256 == n / 65536 * 256 + n / 256 % 256;
    assert n / 65536 == n / 16777216 * 256 + n / 65536 % 256;
  }

  lemma TextRoundTrip(bytes: seq<Byte>, tail: seq<Byte>)
    requires |bytes| < U32_LIMIT
    ensures ReadU32(Text(bytes) + tail) == |bytes| && TakeText(Text(bytes) + tail, |bytes|) == Some((bytes, tail))
  {
    var b := Text(bytes) + tail;
    assert b == U32(|bytes|) + (bytes + Zeroes(Padding(|bytes|)) + tail);
    U32RoundTrip(|bytes|, bytes + Zeroes(Padding(|bytes|)) + tail);
    assert b[4..4 + |bytes|] == bytes;
    assert b[4 + |bytes| + Padding(|bytes|)..] == tail;
  }

  lemma VerbRoundTrip(verb: Option<seq<Byte>>, tail: seq<Byte>)
    requires verb.Some? ==> |verb.value| < ABSENT
    ensures TakeVerb(VerbText(verb) + tail) == Some((verb, tail))
  {
    if verb.Some? {
      TextRoundTrip(verb.value, tail);
    } else {
      U32RoundTrip(ABSENT, tail);
      assert (U32(ABSENT) + tail)[4..] == tail;
    }
  }

  lemma EntryRoundTrip(c: Cap, tail: seq<Byte>)
    requires Small(c)
    ensures TakeEntry(Entry(c) + tail) == Some((c, tail))
  {
    var last: seq<Byte> := [PermByte(c.perm), 0, 0, 0];
    Regrouped(Text(c.path) + VerbText(c.verb), last, tail);
    Regrouped(Text(c.path), VerbText(c.verb), last + tail);
    TextRoundTrip(c.path, VerbText(c.verb) + (last + tail));
    VerbRoundTrip(c.verb, last + tail);
    assert (last + tail)[4..] == tail;
  }

  lemma Regrouped(a: seq<Byte>, b: seq<Byte>, c: seq<Byte>)
    ensures (a + b) + c == a + (b + c)
  {
  }

  lemma {:induction false} FlatFront(chunks: seq<seq<Byte>>)
    requires chunks != []
    ensures Flat(chunks) == chunks[0] + Flat(chunks[1..])
  {
    var n := |chunks| - 1;
    if n == 0 {
      assert chunks[..0] == [] && chunks[1..] == [];
    } else {
      FlatFront(chunks[..n]);
      assert chunks[..n][1..] == chunks[1..][..n - 1] && chunks[1..][n - 1] == chunks[n];
      Regrouped(chunks[0], Flat(chunks[..n][1..]), chunks[n]);
    }
  }

  lemma TakeStep(b: seq<Byte>, n: nat, first: Cap, tail: seq<Byte>, rest: seq<Cap>)
    requires TakeEntry(b) == Some((first, tail)) && TakeEntries(tail, n) == Some(rest)
    ensures TakeEntries(b, n + 1) == Some([first] + rest)
  {
  }

  lemma ChunksFront(caps: seq<Cap>)
    requires caps != [] && AllSmall(caps)
    ensures Chunks(caps) != [] && Chunks(caps)[0] == Entry(caps[0]) && Chunks(caps)[1..] == Chunks(caps[1..])
  {
  }

  lemma EntriesFront(caps: seq<Cap>, tail: seq<Byte>)
    requires caps != [] && AllSmall(caps)
    ensures Entries(caps) + tail == Entry(caps[0]) + (Entries(caps[1..]) + tail)
  {
    ChunksFront(caps);
    FlatFront(Chunks(caps));
    Regrouped(Entry(caps[0]), Entries(caps[1..]), tail);
  }

  lemma {:induction false} EntriesRoundTrip(caps: seq<Cap>, tail: seq<Byte>)
    requires AllSmall(caps)
    ensures TakeEntries(Entries(caps) + tail, |caps|) == Some(caps)
  {
    if caps != [] {
      EntriesFront(caps, tail);
      EntryRoundTrip(caps[0], Entries(caps[1..]) + tail);
      EntriesRoundTrip(caps[1..], tail);
      TakeStep(Entries(caps) + tail, |caps| - 1, caps[0], Entries(caps[1..]) + tail, caps[1..]);
      assert [caps[0]] + caps[1..] == caps;
    }
  }

  /** The window: the count, the entries, and zeroes. */
  ghost predicate Holds(window: seq<Byte>, caps: seq<Cap>) {
    && |window| == WINDOW && AllSmall(caps) && |caps| < U32_LIMIT && 4 + |Entries(caps)| <= WINDOW
    && window == U32(|caps|) + Entries(caps) + Zeroes(WINDOW - 4 - |Entries(caps)|)
  }

  /** Decoding a window gives the capabilities it was written from. */
  lemma WindowRoundTrip(window: seq<Byte>, caps: seq<Cap>)
    requires Holds(window, caps)
    ensures Decode(window) == Some(caps)
  {
    var rest := Entries(caps) + Zeroes(WINDOW - 4 - |Entries(caps)|);
    assert window == U32(|caps|) + rest;
    U32RoundTrip(|caps|, rest);
    assert window[4..] == rest;
    EntriesRoundTrip(caps, Zeroes(WINDOW - 4 - |Entries(caps)|));
  }

  // ---- The writer --------------------------------------------------------------------------

  function Patched(w: seq<Byte>, off: nat, bytes: seq<Byte>): (r: seq<Byte>)
    requires off + |bytes| <= |w|
    ensures |r| == |w|
  {
    w[..off] + bytes + w[off + |bytes|..]
  }

  lemma PatchedTwice(w: seq<Byte>, off: nat, a: seq<Byte>, b: seq<Byte>)
    requires off + |a| + |b| <= |w|
    ensures Patched(Patched(w, off, a), off + |a|, b) == Patched(w, off, a + b)
  {
    var p := Patched(w, off, a);
    assert p[..off + |a|] == w[..off] + a;
    assert p[off + |a| + |b|..] == w[off + |a| + |b|..];
  }

  /** Copy bytes into the window. */
  method Put(window: array<Byte>, off: nat, bytes: seq<Byte>)
    requires off + |bytes| <= window.Length
    modifies window
    ensures window[..] == Patched(old(window[..]), off, bytes)
  {
    for i := 0 to |bytes|
      invariant forall j | 0 <= j < window.Length ::
                  window[j] == if off <= j < off + i then bytes[j - off] else old(window[j])
    {
      window[off + i] := bytes[i];
    }
  }

  /** Write zeroes up to the next multiple of four. */
  method Pad(window: array<Byte>, off: nat, ghost length: nat) returns (next: nat)
    requires (off + Padding(length)) % 4 == 0 && off + Padding(length) <= window.Length
    modifies window
    ensures next == off + Padding(length) && window[..] == Patched(old(window[..]), off, Zeroes(Padding(length)))
  {
    next := off;
    while next % 4 != 0
      invariant off <= next <= off + Padding(length)
      invariant forall j | 0 <= j < window.Length :: window[j] == if off <= j < next then 0 else old(window[j])
      decreases off + Padding(length) - next
    {
      window[next] := 0;
      next := next + 1;
    }
    AtMostFour(off, next, Padding(length));
  }

  lemma AtMostFour(off: nat, next: nat, pad: nat)
    requires off <= next <= off + pad && pad < 4 && next % 4 == 0 && (off + pad) % 4 == 0
    ensures next == off + pad
  {
  }

  lemma PatchedText(w: seq<Byte>, off: nat, bytes: seq<Byte>)
    requires |bytes| < U32_LIMIT && off + |Text(bytes)| <= |w|
    ensures Patched(Patched(Patched(w, off, U32(|bytes|)), off + 4, bytes), off + 4 + |bytes|,
                    Zeroes(Padding(|bytes|)))
         == Patched(w, off, Text(bytes))
  {
    PatchedTwice(w, off, U32(|bytes|), bytes);
    PatchedTwice(w, off, U32(|bytes|) + bytes, Zeroes(Padding(|bytes|)));
  }

  method PutText(window: array<Byte>, off: nat, bytes: seq<Byte>) returns (next: nat)
    requires off % 4 == 0 && |bytes| < U32_LIMIT && off + |Text(bytes)| <= window.Length
    modifies window
    ensures next == off + |Text(bytes)| && window[..] == Patched(old(window[..]), off, Text(bytes))
  {
    ghost var w := window[..];
    TextAligned(|bytes|);
    Sum4(off, 4 + |bytes| + Padding(|bytes|));
    Put(window, off, U32(|bytes|));
    Put(window, off + 4, bytes);
    next := Pad(window, off + 4 + |bytes|, |bytes|);
    PatchedText(w, off, bytes);
  }

  method PutVerb(window: array<Byte>, off: nat, verb: Option<seq<Byte>>) returns (next: nat)
    requires off % 4 == 0 && (verb.Some? ==> |verb.value| < ABSENT) && off + |VerbText(verb)| <= window.Length
    modifies window
    ensures next == off + |VerbText(verb)| && window[..] == Patched(old(window[..]), off, VerbText(verb))
  {
    if verb.Some? {
      next := PutText(window, off, verb.value);
    } else {
      Put(window, off, U32(ABSENT));
      next := off + 4;
    }
  }

  method PutNames(window: array<Byte>, off: nat, c: Cap) returns (next: nat)
    requires off % 4 == 0 && Small(c) && off + |Entry(c)| <= window.Length
    modifies window
    ensures next == off + |Text(c.path) + VerbText(c.verb)|
    ensures window[..] == Patched(old(window[..]), off, Text(c.path) + VerbText(c.verb))
  {
    ghost var w := window[..];
    EntryAligned(c);
    next := PutText(window, off, c.path);
    Sum4(off, |Text(c.path)|);
    next := PutVerb(window, next, c.verb);
    PatchedTwice(w, off, Text(c.path), VerbText(c.verb));
  }

  method PutEntry(window: array<Byte>, off: nat, c: Cap) returns (next: nat)
    requires off % 4 == 0 && Small(c) && off + |Entry(c)| <= window.Length
    modifies window
    ensures next == off + |Entry(c)| && window[..] == Patched(old(window[..]), off, Entry(c))
  {
    ghost var w := window[..];
    next := PutNames(window, off, c);
    Put(window, next, [PermByte(c.perm), 0, 0, 0]);
    PatchedTwice(w, off, Text(c.path) + VerbText(c.verb), [PermByte(c.perm), 0, 0, 0]);
    next := next + 4;
  }

  /** Appending one more entry to a window. */
  lemma EntriesBack(caps: seq<Cap>, n: nat)
    requires n < |caps| && AllSmall(caps[..n + 1])
    ensures AllSmall(caps[..n]) && Entries(caps[..n + 1]) == Entries(caps[..n]) + Entry(caps[n])
  {
    assert forall i | 0 <= i < n :: caps[..n][i] == caps[..n + 1][i];
    assert Chunks(caps[..n + 1])[..n] == Chunks(caps[..n]);
  }

  ghost predicate Filled(w: seq<Byte>, head: seq<Byte>, caps: seq<Cap>)
    requires |head| == 4 && AllSmall(caps)
  {
    |w| == WINDOW && 4 + |Entries(caps)| <= WINDOW && w == head + Entries(caps) + Zeroes(WINDOW - 4 - |Entries(caps)|)
  }

  lemma FilledNext(w: seq<Byte>, head: seq<Byte>, caps: seq<Cap>, n: nat, t: seq<Byte>)
    requires n < |caps| && |head| == 4 && AllSmall(caps[..n + 1]) && AllSmall(caps[..n]) && Filled(w, head, caps[..n])
    requires 4 + |Entries(caps[..n])| + |Entry(caps[n])| <= WINDOW
             && t == Patched(w, 4 + |Entries(caps[..n])|, Entry(caps[n]))
    ensures Filled(t, head, caps[..n + 1])
  {
    EntriesBack(caps, n);
    var was, more := Entries(caps[..n]), Entry(caps[n]);
    assert w[..4 + |was|] == head + was;
    assert w[4 + |was| + |more|..] == Zeroes(WINDOW - 4 - |was| - |more|);
  }

  /** The entry `i` was written exactly because it passed the size test at its own offset. */
  ghost predicate Admitted(caps: seq<Cap>, i: nat)
    requires i < |caps| && AllSmall(caps[..i])
  {
    Fits(4 + |Entries(caps[..i])|, caps[i])
  }

  ghost predicate Reached(w: seq<Byte>, caps: seq<Cap>, n: nat, off: nat) {
    && n <= |caps| && AllSmall(caps[..n]) && Filled(w, Zeroes(4), caps[..n])
    && off == 4 + |Entries(caps[..n])| && off % 4 == 0 && 12 * n <= off
  }

  lemma SmallNext(caps: seq<Cap>, n: nat)
    requires n < |caps| && AllSmall(caps[..n]) && Small(caps[n])
    ensures AllSmall(caps[..n + 1])
  {
    assert caps[..n + 1] == caps[..n] + [caps[n]];
  }

  method Append(caps: seq<Cap>, n: nat, window: array<Byte>, off: nat) returns (next: nat)
    requires window.Length == WINDOW && n < |caps| && Reached(window[..], caps, n, off) && Fits(off, caps[n])
    modifies window
    ensures Reached(window[..], caps, n + 1, next)
  {
    FitsCovers(off, caps[n]);
    EntryAligned(caps[n]);
    Sum4(off, |Entry(caps[n])|);
    SmallNext(caps, n);
    EntriesBack(caps, n);
    ghost var w := window[..];
    next := PutEntry(window, off, caps[n]);
    FilledNext(w, Zeroes(4), caps, n, window[..]);
  }

  ghost predicate AllAdmitted(caps: seq<Cap>, n: nat) {
    n <= |caps| && forall i | 0 <= i < n :: AllSmall(caps[..i]) && Admitted(caps, i)
  }

  lemma AdmitNext(w: seq<Byte>, caps: seq<Cap>, n: nat, off: nat)
    requires n < |caps| && Reached(w, caps, n, off) && Fits(off, caps[n]) && AllAdmitted(caps, n)
    ensures AllAdmitted(caps, n + 1)
  {
  }

  method WriteEntries(caps: seq<Cap>, window: array<Byte>) returns (n: nat)
    requires window.Length == WINDOW && Reached(window[..], caps, 0, 4)
    modifies window
    ensures exists off: nat :: Reached(window[..], caps, n, off) && n <= WINDOW
    ensures n <= |caps| && AllSmall(caps[..n]) && (n < |caps| ==> !Admitted(caps, n))
    ensures AllAdmitted(caps, n)
  {
    var off := 4;
    n := 0;
    while n < |caps|
      invariant Reached(window[..], caps, n, off) && AllAdmitted(caps, n)
    {
      if !Fits(off, caps[n]) {
        break;
      }
      AdmitNext(window[..], caps, n, off);
      off := Append(caps, n, window, off);
      n := n + 1;
    }
  }

  lemma CountWritten(w: seq<Byte>, caps: seq<Cap>, n: nat, off: nat, t: seq<Byte>)
    requires Reached(w, caps, n, off) && n <= WINDOW && t == Patched(w, 0, U32(n))
    ensures Holds(t, caps[..n])
  {
  }

  /**
    `serialize_to_page`: entries are written until one fails the size test. The window decodes to
    exactly the capabilities before that one.
   */
  method Serialize(caps: seq<Cap>, window: array<Byte>) returns (n: nat)
    requires window.Length == WINDOW
    modifies window
    ensures n <= |caps| && Holds(window[..], caps[..n]) && Decode(window[..]) == Some(caps[..n])
    ensures n < |caps| ==> AllSmall(caps[..n]) && !Admitted(caps, n)
    ensures n < |caps| && Small(caps[n]) ==> 4 + |Entries(caps[..n])| + |Entry(caps[n])| + 8 > WINDOW
    ensures AllAdmitted(caps, n)
  {
    forall i | 0 <= i < WINDOW {
      window[i] := 0;
    }
    assert window[..] == Zeroes(4) + Entries(caps[..0]) + Zeroes(WINDOW - 4);
    n := WriteEntries(caps, window);
    ghost var w := window[..];
    ghost var off: nat :| Reached(w, caps, n, off) && n <= WINDOW;
    Put(window, 0, U32(n));
    CountWritten(w, caps, n, off, window[..]);
    if n < |caps| && Small(caps[n]) {
      FitsTight(4 + |Entries(caps[..n])|, caps[n]);
    }
    WindowRoundTrip(window[..], caps[..n]);
  }
}
