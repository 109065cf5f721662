/**
  Capability checks (`caps/mod.rs`): `check_path`, which joins components into path strings, and
  `check_path_on`, which compares components without building strings and is documented as having
  identical semantics. Strings are sequences of characters; an absent method is `None`.
 */
module CapPaths {
  import opened Common

  datatype Perm = R | RW {
    predicate Covers(want: Perm) {
      RW? || want.R?
    }
  }

  datatype Cap = Cap(path: string, verb: Option<string>, perm: Perm)

  datatype Fault = NotFound | AccessDenied | MethodNotFound

  datatype Outcome = Granted | Refused(fault: Fault)

  // ---- Paths -------------------------------------------------------------------------------

  /** All pieces between slashes, empty ones included. */
  function Split(path: string): (pieces: seq<string>)
    ensures |pieces| >= 1
  {
    if path == "" then [""]
    else if path[0] == '/' then [""] + Split(path[1..])
    else var rest := Split(path[1..]); [[path[0]] + rest[0]] + rest[1..]
  }

  function Nonempty(pieces: seq<string>): (r: seq<string>) {
    if pieces == [] then [] else (if pieces[0] == "" then [] else [pieces[0]]) + Nonempty(pieces[1..])
  }

  /** The components of a capability path. */
  function Segments(path: string): (r: seq<string>) {
    Nonempty(Split(path))
  }

  function Join(components: seq<string>): (path: string) {
    if |components| == 0 then ""
    else if |components| == 1 then components[0]
    else components[0] + "/" + Join(components[1..])
  }

  /** What the path parser delivers: no component is empty or holds a slash. */
  ghost predicate Parsed(components: seq<string>) {
    forall i | 0 <= i < |components| :: components[i] != "" && '/' !in components[i]
  }

  /** The form capability paths are kept in. */
  ghost predicate Canonical(path: string) {
    path == "" || forall i | 0 <= i < |Split(path)| :: Split(path)[i] != ""
  }

  /** Joining the pieces of a path gives the path back. */
  lemma {:induction false} JoinSplit(path: string)
    ensures Join(Split(path)) == path
  {
    if path != "" {
      var rest := Split(path[1..]);
      JoinSplit(path[1..]);
      if path[0] == '/' {
        assert ([""] + rest)[1..] == rest;
        assert Join(Split(path)) == "" + "/" + Join(rest);
      } else {
        var pieces := [[path[0]] + rest[0]] + rest[1..];
        assert pieces[1..] == rest[1..];
        assert Join(pieces) == [path[0]] + Join(rest);
      }
    }
  }

  lemma {:induction false} SplitPlain(piece: string)
    requires '/' !in piece
    ensures Split(piece) == [piece]
  {
    if piece != "" {
      SplitPlain(piece[1..]);
      assert [piece[0]] + piece[1..] == piece;
    }
  }

  lemma {:induction false} SplitPrefix(piece: string, rest: string)
    requires '/' !in piece
    ensures Split(piece + "/" + rest) == [piece] + Split(rest)
  {
    var whole := piece + "/" + rest;
    if piece == "" {
      assert whole[1..] == rest;
    } else {
      SplitPrefix(piece[1..], rest);
      assert whole[1..] == piece[1..] + "/" + rest && whole[0] == piece[0];
      assert [piece[0]] + piece[1..] == piece;
    }
  }

  /** Splitting a joined path gives the components back. */
  lemma {:induction false} SplitJoin(components: seq<string>)
    requires |components| > 0 && forall i | 0 <= i < |components| :: '/' !in components[i]
    ensures Split(Join(components)) == components
  {
    if |components| == 1 {
      SplitPlain(components[0]);
    } else {
      SplitJoin(components[1..]);
      SplitPrefix(components[0], Join(components[1..]));
    }
  }

  lemma {:induction false} NonemptyAll(pieces: seq<string>)
    requires forall i | 0 <= i < |pieces| :: pieces[i] != ""
    ensures Nonempty(pieces) == pieces
  {
    if pieces != [] {
      NonemptyAll(pieces[1..]);
    }
  }

  lemma CanonicalSegments(path: string)
    requires Canonical(path)
    ensures Segments(path) == if path == "" then [] else Split(path)
    ensures Join(Segments(path)) == path
  {
    if path == "" {
      assert Split(path)[1..] == [];
    } else {
      NonemptyAll(Split(path));
    }
    JoinSplit(path);
  }

  lemma {:induction false} SplitPieces(path: string)
    ensures forall i | 0 <= i < |Split(path)| :: '/' !in Split(path)[i]
  {
    if path != "" {
      SplitPieces(path[1..]);
    }
  }

  /** The components of a canonical path are what the parser would deliver. */
  lemma SegmentsParsed(path: string)
    requires Canonical(path)
    ensures Parsed(Segments(path))
  {
    CanonicalSegments(path);
    SplitPieces(path);
  }

  /** Comparing strings and comparing components is the same, on canonical paths. */
  lemma PathIsComponents(path: string, components: seq<string>)
    requires Canonical(path) && Parsed(components)
    ensures path == Join(components) <==> Segments(path) == components
  {
    CanonicalSegments(path);
    if components != [] {
      SplitJoin(components);
      assert Join(components) != "";
    }
  }

  // ---- What `validate_cap` admits ----------------------------------------------------------

  const MAX_PATH: nat := 256
  const MAX_METHOD: nat := 64

  predicate Control(c: char) {
    c < 0x20 as char || c == 0x7F as char
  }

  predicate DoubleSlash(path: string) {
    exists i | 0 <= i < |path| - 1 :: path[i] == '/' && path[i + 1] == '/'
  }

  predicate PieceOk(piece: string) {
    piece != "" && piece != "." && piece != ".." && ':' !in piece && forall i | 0 <= i < |piece| :: !Control(piece[i])
  }

  predicate Validate(cap: Cap) {
    && |cap.path| <= MAX_PATH
    && (cap.verb.Some? ==>
          var m := cap.verb.value;
          m != "" && |m| <= MAX_METHOD && '/' !in m && ':' !in m && forall i | 0 <= i < |m| :: !Control(m[i]))
    && (cap.path != "" ==>
          && cap.path[0] != '/' && cap.path[|cap.path| - 1] != '/' && !DoubleSlash(cap.path)
          && forall i | 0 <= i < |Split(cap.path)| :: PieceOk(Split(cap.path)[i]))
  }

  lemma DoubleSlashStep(path: string)
    requires path != ""
    ensures DoubleSlash(path) <==> (|path| >= 2 && path[0] == '/' && path[1] == '/') || DoubleSlash(path[1..])
  {
    var tail := path[1..];
    if DoubleSlash(path) {
      var i :| 0 <= i < |path| - 1 && path[i] == '/' && path[i + 1] == '/';
      assert i > 0 ==> tail[i - 1] == '/' && tail[i - 1 + 1] == '/';
    }
    if DoubleSlash(tail) {
      var i :| 0 <= i < |tail| - 1 && tail[i] == '/' && tail[i + 1] == '/';
      assert path[i + 1] == '/' && path[i + 1 + 1] == '/';
    }
  }

  ghost predicate EmptyFrom(pieces: seq<string>, from: nat) {
    exists i | from <= i < |pieces| :: pieces[i] == ""
  }

  lemma EmptyShift(one: string, two: string, rest: seq<string>)
    requires |rest| > 0
    ensures EmptyFrom([one] + rest, 1) <==> rest[0] == "" || EmptyFrom(rest, 1)
    ensures EmptyFrom([two] + rest[1..], 1) <==> EmptyFrom(rest, 1)
  {
    var long, short := [one] + rest, [two] + rest[1..];
    if EmptyFrom(rest, 1) {
      var i :| 1 <= i < |rest| && rest[i] == "";
      assert long[i + 1] == "" && short[i] == "";
    }
    if rest[0] == "" {
      assert long[1] == "";
    }
  }

  lemma {:induction false} EmptyAfterFirst(path: string)
    ensures EmptyFrom(Split(path), 1) <==> (path != "" && path[|path| - 1] == '/') || DoubleSlash(path)
  {
    if path != "" {
      var tail := path[1..];
      EmptyAfterFirst(tail);
      EmptyShift("", [path[0]] + Split(tail)[0], Split(tail));
      DoubleSlashStep(path);
    }
  }

  /** The three tests on slashes reject exactly the paths that have an empty piece. */
  lemma SlashTests(path: string)
    requires path != ""
    ensures EmptyFrom(Split(path), 0) <==> (path[0] == '/' || path[|path| - 1] == '/' || DoubleSlash(path))
  {
    EmptyAfterFirst(path);
    assert Split(path)[0] == "" <==> path[0] == '/';
  }

  /** A validated capability has a canonical path, whose components are what the parser delivers. */
  lemma ValidatedCanonical(cap: Cap)
    requires Validate(cap)
    ensures Canonical(cap.path) && Parsed(Segments(cap.path)) && Join(Segments(cap.path)) == cap.path
  {
    assert Canonical(cap.path);
    SegmentsParsed(cap.path);
    CanonicalSegments(cap.path);
  }

  predicate Printable(c: char) {
    32 <= c as nat && c as nat != 127
  }

  /** Not a step up or a step nowhere, and only printable characters other than the two separators. */
  predicate NameOk(name: string) {
    |name| > 0 && name != "." && name != ".."
    && forall i | 0 <= i < |name| :: name[i] != '/' && name[i] != ':' && Printable(name[i])
  }

  predicate MethodOk(verb: Option<string>) {
    verb.Some? ==>
      var m := verb.value;
      0 < |m| <= MAX_METHOD && forall i | 0 <= i < |m| :: m[i] != '/' && m[i] != ':' && Printable(m[i])
  }

  lemma NameIsPiece(name: string)
    requires '/' !in name
    ensures NameOk(name) <==> PieceOk(name)
  {
  }

  lemma MethodTests(cap: Cap)
    ensures MethodOk(cap.verb) <==>
            (cap.verb.Some? ==>
               var m := cap.verb.value;
               m != "" && |m| <= MAX_METHOD && '/' !in m && ':' !in m && forall i | 0 <= i < |m| :: !Control(m[i]))
  {
  }

  /** Which capabilities on joined components are admitted. */
  lemma ValidateExactly(components: seq<string>, verb: Option<string>, perm: Perm)
    requires components != [] && forall i | 0 <= i < |components| :: '/' !in components[i]
    ensures Validate(Cap(Join(components), verb, perm)) <==>
            && |Join(components)| <= MAX_PATH && MethodOk(verb)
            && (Join(components) != "" ==> forall i | 0 <= i < |components| :: NameOk(components[i]))
  {
    SplitJoin(components);
    var path := Join(components);
    forall i | 0 <= i < |components| ensures NameOk(components[i]) <==> PieceOk(components[i]) {
      NameIsPiece(components[i]);
    }
    MethodTests(Cap(path, verb, perm));
    if path != "" {
      SlashTests(path);
      if forall i | 0 <= i < |components| :: PieceOk(components[i]) {
        assert !EmptyFrom(Split(path), 0);
      }
    }
  }

  // ---- The reference form ------------------------------------------------------------------

  predicate HasPerm(caps: seq<Cap>, path: string, verb: Option<string>, want: Perm) {
    exists i | 0 <= i < |caps| :: caps[i].path == path && caps[i].verb == verb && caps[i].perm.Covers(want)
  }

  predicate HasAncestorR(caps: seq<Cap>, components: seq<string>) {
    forall n | 1 <= n < |components| :: HasPerm(caps, Join(components[..n]), None, R)
  }

  // ---- The component-wise form -------------------------------------------------------------

  predicate HasPermOn(caps: seq<Cap>, components: seq<string>, verb: Option<string>, want: Perm) {
    exists i | 0 <= i < |caps| ::
      Segments(caps[i].path) == components && caps[i].verb == verb && caps[i].perm.Covers(want)
  }

  /** A capability on exactly these components; its method is not looked at. */
  predicate HasPrefix(caps: seq<Cap>, prefix: seq<string>) {
    exists i | 0 <= i < |caps| :: Segments(caps[i].path) == prefix && caps[i].perm.Covers(R)
  }

  predicate HasAncestorROn(caps: seq<Cap>, components: seq<string>) {
    forall n | 1 <= n < |components| :: HasPrefix(caps, components[..n])
  }

  // ---- The alias of `proc/<pid>` -----------------------------------------------------------

  /** Who asks: nobody, or a task with the set of tasks it is an ancestor of. */
  datatype Caller = NoTask | Task(descendants: set<nat>)

  datatype Alias = Keep | Replace(components: seq<string>) | Hide

  const U64: nat := 0x1_0000_0000_0000_0000

  function Digits(s: string): (v: nat)
    requires forall i | 0 <= i < |s| :: '0' <= s[i] <= '9'
  {
    if s == "" then 0 else Digits(s[..|s| - 1]) * 10 + (s[|s| - 1] as nat - '0' as nat)
  }

  function ParsePid(s: string): (pid: Option<nat>) {
    if s == "" || |s| > 20 || exists i | 0 <= i < |s| :: !('0' <= s[i] <= '9') then None
    else if Digits(s) < U64 then Some(Digits(s)) else None
  }

  function Canonicalize(components: seq<string>, caller: Caller): (a: Alias) {
    if && |components| >= 2 && components[0] == "proc" && components[1] != "self"
       && ParsePid(components[1]).Some? && caller.Task?
    then
      if ParsePid(components[1]).value in caller.descendants
      then Replace([components[0], "self"] + components[2..])
      else Hide
    else Keep
  }

  // ---- The two checks ----------------------------------------------------------------------

  function LeafCheck(caps: seq<Cap>, components: seq<string>, verb: Option<string>, want: Perm): (o: Outcome) {
    var path := Join(components);
    if verb.Some? then
      if !HasPerm(caps, path, None, R) then Refused(NotFound)
      else if HasPerm(caps, path, verb, want) then Granted
      else if HasPerm(caps, path, verb, R) && want == RW then Refused(AccessDenied)
      else Refused(MethodNotFound)
    else if HasPerm(caps, path, None, want) then Granted
    else if HasPerm(caps, path, None, R) && want == RW then Refused(AccessDenied)
    else Refused(NotFound)
  }

  function LeafCheckOn(caps: seq<Cap>, components: seq<string>, verb: Option<string>, want: Perm): (o: Outcome) {
    if verb.Some? then
      if !HasPermOn(caps, components, None, R) then Refused(NotFound)
      else if HasPermOn(caps, components, verb, want) then Granted
      else if HasPermOn(caps, components, verb, R) && want == RW then Refused(AccessDenied)
      else Refused(MethodNotFound)
    else if HasPermOn(caps, components, None, want) then Granted
    else if HasPermOn(caps, components, None, R) && want == RW then Refused(AccessDenied)
    else Refused(NotFound)
  }

  function Resolve(components: seq<string>, a: Alias): (r: seq<string>) {
    if a.Replace? then a.components else components
  }

  /** `check_path`. No capability list at all means the kernel itself is asking. */
  function CheckPath(caps: Option<seq<Cap>>, components: seq<string>, verb: Option<string>, want: Perm,
                     caller: Caller): (o: Outcome) {
    if caps.None? then Granted
    else if caps.value == [] && components != [] then Refused(NotFound)
    else if Canonicalize(components, caller).Hide? then Refused(NotFound)
    else
      var cs := Resolve(components, Canonicalize(components, caller));
      if !HasAncestorR(caps.value, cs) then Refused(NotFound) else LeafCheck(caps.value, cs, verb, want)
  }

  /** `check_path_on`. */
  function CheckPathOn(caps: Option<seq<Cap>>, components: seq<string>, verb: Option<string>, want: Perm,
                       caller: Caller): (o: Outcome) {
    if caps.None? then Granted
    else if caps.value == [] && components != [] then Refused(NotFound)
    else if Canonicalize(components, caller).Hide? then Refused(NotFound)
    else
      var cs := Resolve(components, Canonicalize(components, caller));
      if !HasAncestorROn(caps.value, cs) then Refused(NotFound) else LeafCheckOn(caps.value, cs, verb, want)
  }

  // ---- What they answer --------------------------------------------------------------------

  /** The list holds a capability on these components and this method, for writing if that is wanted. */
  ghost predicate Held(caps: seq<Cap>, components: seq<string>, verb: Option<string>, want: Perm) {
    exists i | 0 <= i < |caps| ::
      Segments(caps[i].path) == components && caps[i].verb == verb && (want == RW ==> caps[i].perm == RW)
  }

  ghost predicate SomeOn(caps: seq<Cap>, components: seq<string>) {
    exists i | 0 <= i < |caps| :: Segments(caps[i].path) == components
  }

  /** Every object on the way has a capability, of whatever kind. */
  ghost predicate WayOpen(caps: seq<Cap>, components: seq<string>) {
    forall n | 1 <= n < |components| :: SomeOn(caps, components[..n])
  }

  /** Every object on the way has a capability of its own. */
  ghost predicate WayHeld(caps: seq<Cap>, components: seq<string>) {
    forall n | 1 <= n < |components| :: Held(caps, components[..n], None, R)
  }

  /** The answer for an object or a method of it, the way there being `open`, in terms of the capabilities held. */
  ghost predicate Answers(o: Outcome, caps: seq<Cap>, open: bool, cs: seq<string>, verb: Option<string>, want: Perm) {
    var reached := open && (verb.Some? ==> Held(caps, cs, None, R));
    && (o == Granted <==> reached && Held(caps, cs, verb, want))
    && (o == Refused(AccessDenied) <==> reached && Held(caps, cs, verb, R) && !Held(caps, cs, verb, want))
    && (o == Refused(MethodNotFound) <==> reached && verb.Some? && !Held(caps, cs, verb, R))
  }

  lemma HeldIsPermOn(caps: seq<Cap>, cs: seq<string>, verb: Option<string>, want: Perm)
    ensures HasPermOn(caps, cs, verb, want) <==> Held(caps, cs, verb, want)
  {
    if HasPermOn(caps, cs, verb, want) {
      var i :| 0 <= i < |caps| && Segments(caps[i].path) == cs && caps[i].verb == verb && caps[i].perm.Covers(want);
      assert Segments(caps[i].path) == cs;
    }
    if Held(caps, cs, verb, want) {
      var i :| 0 <= i < |caps| && Segments(caps[i].path) == cs && caps[i].verb == verb
        && (want == RW ==> caps[i].perm == RW);
      assert caps[i].perm.Covers(want);
    }
  }

  lemma LeafAnswers(caps: seq<Cap>, cs: seq<string>, verb: Option<string>, want: Perm)
    ensures Answers(LeafCheckOn(caps, cs, verb, want), caps, true, cs, verb, want)
  {
    HeldIsPermOn(caps, cs, None, R);
    HeldIsPermOn(caps, cs, None, want);
    HeldIsPermOn(caps, cs, verb, R);
    HeldIsPermOn(caps, cs, verb, want);
  }

  lemma OpenIsChain(caps: seq<Cap>, cs: seq<string>)
    ensures HasAncestorROn(caps, cs) <==> WayOpen(caps, cs)
  {
    forall n | 1 <= n < |cs| ensures HasPrefix(caps, cs[..n]) <==> SomeOn(caps, cs[..n]) {
      if SomeOn(caps, cs[..n]) {
        var i :| 0 <= i < |caps| && Segments(caps[i].path) == cs[..n];
        assert caps[i].perm.Covers(R);
      }
    }
  }

  lemma NothingHeld(cs: seq<string>, verb: Option<string>, want: Perm, open: bool)
    ensures Answers(Refused(NotFound), [], open, cs, verb, want)
  {
  }

  /** What `check_path_on` answers, in terms of the capabilities held: grant and every kind of refusal. */
  lemma CheckOnAnswers(caps: seq<Cap>, cs: seq<string>, verb: Option<string>, want: Perm)
    ensures Answers(CheckPathOn(Some(caps), cs, verb, want, NoTask), caps, WayOpen(caps, cs), cs, verb, want)
  {
    LeafAnswers(caps, cs, verb, want);
    OpenIsChain(caps, cs);
    if caps == [] {
      NothingHeld(cs, verb, want, WayOpen(caps, cs));
    }
  }

  /** What `check_path` answers: the same, but every object on the way needs a capability of its own. */
  lemma CheckAnswers(caps: seq<Cap>, cs: seq<string>, verb: Option<string>, want: Perm)
    requires AllCanonical(caps) && Parsed(cs)
    ensures Answers(CheckPath(Some(caps), cs, verb, want, NoTask), caps, WayHeld(caps, cs), cs, verb, want)
  {
    LeafAnswers(caps, cs, verb, want);
    SameLeaf(caps, cs, verb, want);
    ChainIsPlain(caps, cs);
    forall n | 1 <= n < |cs| ensures HasPermOn(caps, cs[..n], None, R) <==> Held(caps, cs[..n], None, R) {
      HeldIsPermOn(caps, cs[..n], None, R);
    }
    if caps == [] {
      NothingHeld(cs, verb, want, WayHeld(caps, cs));
    }
  }

  // ---- What the alias does -----------------------------------------------------------------

  /** A number in decimal, without leading zeros. */
  function Decimal(n: nat): (s: string)
    ensures |s| > 0 && forall i | 0 <= i < |s| :: '0' <= s[i] <= '9'
  {
    (if n < 10 then "" else Decimal(n / 10)) + [('0' as nat + n % 10) as char]
  }

  lemma DigitsStep(s: string, d: nat)
    requires d < 10 && forall i | 0 <= i < |s| :: '0' <= s[i] <= '9'
    ensures Digits(s + [('0' as nat + d) as char]) == Digits(s) * 10 + d
  {
    assert (s + [('0' as nat + d) as char])[..|s|] == s;
  }

  lemma {:induction false} DigitsDecimal(n: nat)
    ensures Digits(Decimal(n)) == n
  {
    if n < 10 {
      DigitsStep("", n);
    } else {
      DigitsDecimal(n / 10);
      DigitsStep(Decimal(n / 10), n % 10);
    }
  }

  function Pow10(k: nat): nat {
    if k == 0 then 1 else 10 * Pow10(k - 1)
  }

  lemma {:induction false} DecimalShort(n: nat, k: nat)
    requires n < Pow10(k) && k > 0
    ensures |Decimal(n)| <= k
    decreases k
  {
    if n >= 10 {
      DecimalShort(n / 10, k - 1);
    }
  }

  lemma {:induction false} Pow10Adds(a: nat, b: nat)
    ensures Pow10(a + b) == Pow10(a) * Pow10(b)
    decreases b
  {
    if b > 0 {
      Pow10Adds(a, b - 1);
    }
  }

  lemma TwentyDigits()
    ensures Pow10(20) == 100_000_000_000_000_000_000
  {
    assert Pow10(2) == 100;
    Pow10Adds(2, 2);
    Pow10Adds(4, 1);
    Pow10Adds(5, 5);
    Pow10Adds(10, 10);
  }

  lemma PidShort(n: nat)
    requires n < U64
    ensures |Decimal(n)| <= 20
  {
    TwentyDigits();
    DecimalShort(n, 20);
  }

  lemma ParsesDigits(s: string)
    requires 0 < |s| <= 20 && (forall i | 0 <= i < |s| :: '0' <= s[i] <= '9') && Digits(s) < U64
    ensures ParsePid(s) == Some(Digits(s))
  {
  }

  /** Every pid is read back from its decimal form. */
  lemma PidRoundTrip(n: nat)
    requires n < U64
    ensures ParsePid(Decimal(n)) == Some(n)
  {
    PidShort(n);
    DigitsDecimal(n);
    ParsesDigits(Decimal(n));
  }

  /** What is not made of digits is no pid. */
  lemma NoPid(s: string, i: nat)
    requires i < |s| && !('0' <= s[i] <= '9')
    ensures ParsePid(s) == None
  {
  }

  /** Another task is hidden, whatever is held. */
  lemma StrangerHidden(caps: seq<Cap>, rest: seq<string>, pid: nat, verb: Option<string>, want: Perm, mine: set<nat>)
    requires pid < U64 && pid !in mine
    ensures CheckPathOn(Some(caps), ["proc", Decimal(pid)] + rest, verb, want, Task(mine)) == Refused(NotFound)
    ensures CheckPath(Some(caps), ["proc", Decimal(pid)] + rest, verb, want, Task(mine)) == Refused(NotFound)
  {
    PidRoundTrip(pid);
    NotSelf(pid);
  }

  lemma NotSelf(pid: nat)
    ensures Decimal(pid) != "self"
  {
    assert Decimal(pid)[0] <= '9' < "self"[0];
  }

  /** A task of one's own answers as "self" does. */
  lemma OwnTaskIsSelf(caps: seq<Cap>, rest: seq<string>, pid: nat, verb: Option<string>, want: Perm, mine: set<nat>)
    requires pid < U64 && pid in mine
    ensures CheckPathOn(Some(caps), ["proc", Decimal(pid)] + rest, verb, want, Task(mine))
         == CheckPathOn(Some(caps), ["proc", "self"] + rest, verb, want, NoTask)
    ensures CheckPath(Some(caps), ["proc", Decimal(pid)] + rest, verb, want, Task(mine))
         == CheckPath(Some(caps), ["proc", "self"] + rest, verb, want, NoTask)
  {
    PidRoundTrip(pid);
    NotSelf(pid);
    assert (["proc", Decimal(pid)] + rest)[2..] == rest;
  }

  /** Any other path is answered as if nobody asked. */
  lemma OthersUnchanged(
    caps: Option<seq<Cap>>, cs: seq<string>, verb: Option<string>, want: Perm, caller: Caller)
    requires |cs| < 2 || cs[0] != "proc" || cs[1] == "self" || ParsePid(cs[1]) == None || caller == NoTask
    ensures CheckPathOn(caps, cs, verb, want, caller) == CheckPathOn(caps, cs, verb, want, NoTask)
    ensures CheckPath(caps, cs, verb, want, caller) == CheckPath(caps, cs, verb, want, NoTask)
  {
  }

  // ---- How they compare --------------------------------------------------------------------

  ghost predicate AllCanonical(caps: seq<Cap>) {
    forall i | 0 <= i < |caps| :: Canonical(caps[i].path)
  }

  lemma SamePerm(caps: seq<Cap>, components: seq<string>, verb: Option<string>, want: Perm)
    requires AllCanonical(caps) && Parsed(components)
    ensures HasPerm(caps, Join(components), verb, want) <==> HasPermOn(caps, components, verb, want)
  {
    forall i | 0 <= i < |caps| ensures caps[i].path == Join(components) <==> Segments(caps[i].path) == components {
      PathIsComponents(caps[i].path, components);
    }
  }

  lemma SameLeaf(caps: seq<Cap>, components: seq<string>, verb: Option<string>, want: Perm)
    requires AllCanonical(caps) && Parsed(components)
    ensures LeafCheck(caps, components, verb, want) == LeafCheckOn(caps, components, verb, want)
  {
    SamePerm(caps, components, None, R);
    SamePerm(caps, components, None, want);
    SamePerm(caps, components, verb, want);
    SamePerm(caps, components, verb, R);
  }

  /** The strict ancestor chain: every proper prefix has a capability that is not about a method. */
  ghost predicate PlainChain(caps: seq<Cap>, components: seq<string>) {
    forall n | 1 <= n < |components| :: HasPermOn(caps, components[..n], None, R)
  }

  lemma ChainIsPlain(caps: seq<Cap>, components: seq<string>)
    requires AllCanonical(caps) && Parsed(components)
    ensures HasAncestorR(caps, components) <==> PlainChain(caps, components)
  {
    forall n | 1 <= n < |components|
      ensures HasPerm(caps, Join(components[..n]), None, R) <==> HasPermOn(caps, components[..n], None, R)
    {
      SamePerm(caps, components[..n], None, R);
    }
  }

  /** The component-wise chain asks for less. */
  lemma ChainWeaker(caps: seq<Cap>, components: seq<string>)
    requires PlainChain(caps, components)
    ensures HasAncestorROn(caps, components)
  {
    forall n | 1 <= n < |components| ensures HasPrefix(caps, components[..n]) {
      assert HasPermOn(caps, components[..n], None, R);
    }
  }

  lemma ResolvedParsed(components: seq<string>, caller: Caller)
    requires Parsed(components)
    ensures Parsed(Resolve(components, Canonicalize(components, caller)))
  {
  }

  /** Whatever the reference form grants, the component-wise form grants. */
  lemma GrantImpliesGrantOn(caps: Option<seq<Cap>>, components: seq<string>, verb: Option<string>, want: Perm,
                            caller: Caller)
    requires caps.Some? ==> AllCanonical(caps.value)
    requires Parsed(components) && CheckPath(caps, components, verb, want, caller) == Granted
    ensures CheckPathOn(caps, components, verb, want, caller) == Granted
  {
    if caps.Some? {
      var cs := Resolve(components, Canonicalize(components, caller));
      ResolvedParsed(components, caller);
      ChainIsPlain(caps.value, cs);
      ChainWeaker(caps.value, cs);
      SameLeaf(caps.value, cs, verb, want);
    }
  }

  /** Where the two chains of every capability that is not about a method agree. */
  ghost predicate ChainsAgree(caps: seq<Cap>) {
    forall i | 0 <= i < |caps| && caps[i].verb == None && HasAncestorROn(caps, Segments(caps[i].path)) ::
      PlainChain(caps, Segments(caps[i].path))
  }

  /** A leaf that is not simply hidden has a capability of its own. */
  lemma LeafHasCap(caps: seq<Cap>, components: seq<string>, verb: Option<string>, want: Perm)
    requires LeafCheckOn(caps, components, verb, want) != Refused(NotFound)
    ensures exists i | 0 <= i < |caps| :: caps[i].verb == None && Segments(caps[i].path) == components
  {
    if verb.Some? {
      assert HasPermOn(caps, components, None, R);
    } else {
      assert HasPermOn(caps, components, None, want) || HasPermOn(caps, components, None, R);
    }
  }

  lemma ChainFromLeaf(caps: seq<Cap>, components: seq<string>, verb: Option<string>, want: Perm)
    requires ChainsAgree(caps) && HasAncestorROn(caps, components)
    requires LeafCheckOn(caps, components, verb, want) != Refused(NotFound)
    ensures PlainChain(caps, components)
  {
    LeafHasCap(caps, components, verb, want);
    var i :| 0 <= i < |caps| && caps[i].verb == None && Segments(caps[i].path) == components;
  }

  lemma AgreeOnQuery(caps: seq<Cap>, components: seq<string>, verb: Option<string>, want: Perm, caller: Caller)
    requires AllCanonical(caps) && Parsed(components) && ChainsAgree(caps)
    ensures CheckPath(Some(caps), components, verb, want, caller)
            == CheckPathOn(Some(caps), components, verb, want, caller)
  {
    var cs := Resolve(components, Canonicalize(components, caller));
    ResolvedParsed(components, caller);
    ChainIsPlain(caps, cs);
    SameLeaf(caps, cs, verb, want);
    if PlainChain(caps, cs) {
      ChainWeaker(caps, cs);
    }
    if HasAncestorROn(caps, cs) && LeafCheckOn(caps, cs, verb, want) != Refused(NotFound) {
      ChainFromLeaf(caps, cs, verb, want);
    }
  }

  /** If the chains of some capability differ, asking for that capability tells the two forms apart. */
  lemma DisagreeOnQuery(caps: seq<Cap>, i: nat)
    requires AllCanonical(caps) && i < |caps| && caps[i].verb == None
    requires HasAncestorROn(caps, Segments(caps[i].path)) && !PlainChain(caps, Segments(caps[i].path))
    ensures Parsed(Segments(caps[i].path))
    ensures CheckPath(Some(caps), Segments(caps[i].path), None, R, NoTask) == Refused(NotFound)
    ensures CheckPathOn(Some(caps), Segments(caps[i].path), None, R, NoTask) == Granted
  {
    var cs := Segments(caps[i].path);
    SegmentsParsed(caps[i].path);
    ChainIsPlain(caps, cs);
    assert HasPermOn(caps, cs, None, R);
  }

  ghost predicate SameEverywhere(caps: seq<Cap>) {
    forall components, verb, want, caller | Parsed(components) ::
      CheckPath(Some(caps), components, verb, want, caller) == CheckPathOn(Some(caps), components, verb, want, caller)
  }

  /** The two forms answer alike on every question exactly when the chains agree. */
  lemma SemanticsIdentical(caps: seq<Cap>)
    requires AllCanonical(caps)
    ensures SameEverywhere(caps) <==> ChainsAgree(caps)
  {
    if ChainsAgree(caps) {
      forall components, verb, want, caller | Parsed(components)
        ensures CheckPath(Some(caps), components, verb, want, caller)
                == CheckPathOn(Some(caps), components, verb, want, caller)
      {
        AgreeOnQuery(caps, components, verb, want, caller);
      }
    } else {
      var i: nat :| i < |caps| && caps[i].verb == None && HasAncestorROn(caps, Segments(caps[i].path))
        && !PlainChain(caps, Segments(caps[i].path));
      DisagreeOnQuery(caps, i);
    }
  }

  /** Enough for that: every method capability comes with a capability on its object. */
  lemma MethodsAccompanied(caps: seq<Cap>)
    requires forall i | 0 <= i < |caps| :: HasPermOn(caps, Segments(caps[i].path), None, R)
    ensures ChainsAgree(caps)
  {
    forall i | 0 <= i < |caps| && caps[i].verb == None && HasAncestorROn(caps, Segments(caps[i].path))
      ensures PlainChain(caps, Segments(caps[i].path))
    {
      var cs := Segments(caps[i].path);
      forall n | 1 <= n < |cs| ensures HasPermOn(caps, cs[..n], None, R) {
        assert HasPrefix(caps, cs[..n]);
      }
    }
  }

  /** A method capability on a directory lets the component-wise form through where the reference form hides. */
  lemma SemanticsDiffer()
    ensures var caps := [Cap("a", Some("go"), R), Cap("a/b", None, R)];
            && AllCanonical(caps)
            && CheckPath(Some(caps), ["a", "b"], None, R, NoTask) == Refused(NotFound)
            && CheckPathOn(Some(caps), ["a", "b"], None, R, NoTask) == Granted
  {
    var caps := [Cap("a", Some("go"), R), Cap("a/b", None, R)];
    SplitJoin(["a"]);
    SplitJoin(["a", "b"]);
    assert Join(["a", "b"]) == "a/b";
    CanonicalSegments("a");
    CanonicalSegments("a/b");
    assert Segments(caps[0].path) == ["a"] && Segments(caps[1].path) == ["a", "b"];
    assert ["a", "b"][..1] == ["a"];
    assert HasPrefix(caps, ["a"]);
    assert !HasPermOn(caps, ["a"], None, R);
    assert !PlainChain(caps, ["a", "b"]);
    DisagreeOnQuery(caps, 1);
  }

  // ---- Authority along spawns --------------------------------------------------------------

  /** `is_subset`: each capability of the child is covered by one of the parent. */
  predicate IsSubset(parent: seq<Cap>, child: seq<Cap>) {
    forall i | 0 <= i < |child| :: HasPerm(parent, child[i].path, child[i].verb, child[i].perm)
  }

  /** The subset test is exactly: the parent has every permission the child has. */
  lemma SubsetIsAuthority(parent: seq<Cap>, child: seq<Cap>)
    ensures IsSubset(parent, child) <==>
            (forall path, verb, want :: HasPerm(child, path, verb, want) ==> HasPerm(parent, path, verb, want))
  {
    if IsSubset(parent, child) {
      forall path, verb, want | HasPerm(child, path, verb, want) ensures HasPerm(parent, path, verb, want) {
        var i :| 0 <= i < |child| && child[i].path == path && child[i].verb == verb && child[i].perm.Covers(want);
        assert HasPerm(parent, child[i].path, child[i].verb, child[i].perm);
      }
    } else {
      var i :| 0 <= i < |child| && !HasPerm(parent, child[i].path, child[i].verb, child[i].perm);
      assert HasPerm(child, child[i].path, child[i].verb, child[i].perm);
    }
  }

  ghost predicate GivesNoLess(parent: seq<Cap>, cap: Cap) {
    exists j | 0 <= j < |parent| ::
      parent[j].path == cap.path && parent[j].verb == cap.verb && (cap.perm == RW ==> parent[j].perm == RW)
  }

  /** In terms of the capabilities: for each of the child's the parent has one that gives no less. */
  lemma SubsetMeans(parent: seq<Cap>, child: seq<Cap>)
    ensures IsSubset(parent, child) <==> forall i | 0 <= i < |child| :: GivesNoLess(parent, child[i])
  {
    forall i | 0 <= i < |child|
      ensures HasPerm(parent, child[i].path, child[i].verb, child[i].perm) <==> GivesNoLess(parent, child[i])
    {
      PermIsNoLess(parent, child[i]);
    }
  }

  lemma PermIsNoLess(parent: seq<Cap>, cap: Cap)
    ensures HasPerm(parent, cap.path, cap.verb, cap.perm) <==> GivesNoLess(parent, cap)
  {
    if GivesNoLess(parent, cap) {
      var j :| 0 <= j < |parent| && parent[j].path == cap.path && parent[j].verb == cap.verb
        && (cap.perm == RW ==> parent[j].perm == RW);
      assert parent[j].perm.Covers(cap.perm);
    }
  }

  lemma SubsetOn(parent: seq<Cap>, child: seq<Cap>, components: seq<string>, verb: Option<string>, want: Perm)
    requires IsSubset(parent, child) && HasPermOn(child, components, verb, want)
    ensures HasPermOn(parent, components, verb, want)
  {
    var i :| 0 <= i < |child| && Segments(child[i].path) == components && child[i].verb == verb
      && child[i].perm.Covers(want);
    assert HasPerm(parent, child[i].path, child[i].verb, child[i].perm);
  }

  /** What a child may do, its parent may do. */
  lemma ChildGrantIsParentGrant(parent: seq<Cap>, child: seq<Cap>, components: seq<string>, verb: Option<string>,
                                want: Perm, caller: Caller)
    requires IsSubset(parent, child) && CheckPathOn(Some(child), components, verb, want, caller) == Granted
    ensures CheckPathOn(Some(parent), components, verb, want, caller) == Granted
  {
    var cs := Resolve(components, Canonicalize(components, caller));
    forall n | 1 <= n < |cs| ensures HasPrefix(parent, cs[..n]) {
      assert HasPrefix(child, cs[..n]);
      var i :| 0 <= i < |child| && Segments(child[i].path) == cs[..n];
      assert HasPerm(parent, child[i].path, child[i].verb, child[i].perm);
    }
    SubsetOn(parent, child, cs, verb, want);
    if verb.Some? {
      SubsetOn(parent, child, cs, None, R);
    }
    assert parent != [] by {
      assert HasPermOn(parent, cs, verb, want);
    }
  }

  /** Authority never grows along a chain of spawns: what any descendant may do, the first may do. */
  lemma {:induction false} SpawnsNeverGain(lineage: seq<seq<Cap>>, n: nat, components: seq<string>,
                                           verb: Option<string>, want: Perm, caller: Caller)
    requires n < |lineage| && forall i | 0 < i <= n :: IsSubset(lineage[i - 1], lineage[i])
    requires CheckPathOn(Some(lineage[n]), components, verb, want, caller) == Granted
    ensures CheckPathOn(Some(lineage[0]), components, verb, want, caller) == Granted
    decreases n
  {
    if n > 0 {
      ChildGrantIsParentGrant(lineage[n - 1], lineage[n], components, verb, want, caller);
      SpawnsNeverGain(lineage, n - 1, components, verb, want, caller);
    }
  }
}
