/** The flattened-devicetree walker that finds the initial ramdisk, and the structure block
    format of sections 5.2 and 5.4 of the Devicetree Specification v0.4. */
module Fdt {
  import opened Options
  import opened ByteStrings

  const MAGIC := 0xd00dfeed
  const MAX_SIZE := 8 * 1024 * 1024
  const U32 := 0x1_0000_0000
  const DEPTH := 16
  const NAME_MAX := 64

  const CHOSEN: Bytes := [0x63, 0x68, 0x6f, 0x73, 0x65, 0x6e]
  /** "linux,initrd-start" and "linux,initrd-end". */
  const START: Bytes := [0x6c, 0x69, 0x6e, 0x75, 0x78, 0x2c, 0x69, 0x6e, 0x69, 0x74, 0x72, 0x64, 0x2d, 0x73, 0x74,
    0x61, 0x72, 0x74]
  const END: Bytes := [0x6c, 0x69, 0x6e, 0x75, 0x78, 0x2c, 0x69, 0x6e, 0x69, 0x74, 0x72, 0x64, 0x2d, 0x65, 0x6e, 0x64]

  function Be32(b: Bytes, p: nat): (v: nat)
    requires p + 4 <= |b|
    ensures v < U32
  {
    var b0: int, b1: int, b2: int, b3: int := b[p], b[p + 1], b[p + 2], b[p + 3];
    ((b0 * 256 + b1) * 256 + b2) * 256 + b3
  }

  function Align4(v: nat): nat { (v + 3) / 4 * 4 }

  // ---- the header ----

  /** The header test; it looks at the first 24 bytes only. */
  predicate Accepted(b: Bytes)
    requires |b| >= 24
  {
    && Be32(b, 0) == MAGIC && 40 <= Be32(b, 4) <= MAX_SIZE
    && 16 <= Be32(b, 20) <= 17
    && Be32(b, 8) < Be32(b, 4) && Be32(b, 12) < Be32(b, 4) && Be32(b, 8) + 4 <= Be32(b, 4)
  }

  /** The blob is all the memory there is: indices are checked against its total size. */
  predicate Readable(b: Bytes) { |b| >= 24 && (Accepted(b) ==> |b| == Be32(b, 4)) }

  datatype Header = Header(offStruct: nat, structEnd: nat, offStrings: nat, sizeStrings: nat)
  {
    predicate Fits(b: Bytes) { structEnd <= |b| && offStrings + sizeStrings <= |b| && |b| <= MAX_SIZE }
  }

  function HeaderOf(b: Bytes): Option<Header>
    requires Readable(b) && Accepted(b)
  {
    var claimed := Be32(b, 8) + Be32(b, 36);
    var end := if claimed >= U32 || claimed > |b| then |b| else claimed;
    if Be32(b, 12) + Be32(b, 32) > |b| then None
    else Some(Header(Be32(b, 8), end, Be32(b, 12), Be32(b, 32)))
  }

  // ---- one token ----

  datatype Walker = Walker(p: nat, depth: nat, chosen: seq<bool>, start: Option<nat>, end: Option<nat>)
  {
    predicate Valid() { depth <= DEPTH && |chosen| == DEPTH }
  }

  /** Bytes of a name from p on, not counting the NUL; gives up at 65 and at the end of the blob. */
  function NameLength(b: Bytes, p: nat, n: nat): nat
    requires n <= NAME_MAX + 1
    decreases NAME_MAX + 1 - n
  {
    if n == NAME_MAX + 1 || p + n >= |b| || b[p + n] == 0 then n else NameLength(b, p, n + 1)
  }

  predicate StartsWith(b: Bytes, p: nat, want: Bytes) { p + |want| <= |b| && b[p..p + |want|] == want }

  /** Whether the string at an offset of the strings block is `want`. */
  predicate Named(b: Bytes, h: Header, nameoff: nat, want: Bytes) {
    nameoff + |want| + 1 <= h.sizeStrings && StartsWith(b, h.offStrings + nameoff, want + [0])
  }

  function Value(v: Bytes): nat
    requires |v| == 4 || |v| == 8
  {
    if |v| == 8 then Be32(v, 0) * U32 + Be32(v, 4) else Be32(v, 0)
  }

  /** What a property of /chosen says about `want`. */
  function Says(b: Bytes, h: Header, nameoff: nat, v: Bytes, want: Bytes): Option<nat> {
    if (|v| == 4 || |v| == 8) && Named(b, h, nameoff, want) then Some(Value(v)) else None
  }

  function OrElse(a: Option<nat>, b: Option<nat>): Option<nat> { if a.Some? then a else b }

  datatype Outcome = Fail | Stop | Next(w: Walker)

  function BeginNode(b: Bytes, w: Walker): Outcome
    requires w.Valid()
  {
    var n := NameLength(b, w.p, 0);
    if w.p + n >= |b| then Fail else
    var isChosen := w.depth == 1 && StartsWith(b, w.p, CHOSEN + [0]);
    Next(w.(p := Align4(w.p + n + 1),
            chosen := if w.depth < DEPTH then w.chosen[w.depth := isChosen] else w.chosen,
            depth := if w.depth + 1 > DEPTH then DEPTH else w.depth + 1))
  }

  function Property(b: Bytes, h: Header, w: Walker): Outcome
    requires w.Valid() && h.Fits(b)
  {
    if w.p + 8 > h.structEnd then Fail else
    var len, nameoff := Be32(b, w.p), Be32(b, w.p + 4);
    var at := w.p + 8;
    if at + len > h.structEnd then Fail else
    var v := b[at..at + len];
    var inChosen := w.depth > 0 && w.chosen[w.depth - 1];
    Next(w.(p := Align4(at + len),
            start := if inChosen then OrElse(Says(b, h, nameoff, v, START), w.start) else w.start,
            end := if inChosen then OrElse(Says(b, h, nameoff, v, END), w.end) else w.end))
  }

  function Step(b: Bytes, h: Header, w: Walker): Outcome
    requires w.Valid() && h.Fits(b) && w.p + 4 <= h.structEnd
  {
    var token, w1 := Be32(b, w.p), w.(p := w.p + 4);
    if token == 1 then BeginNode(b, w1)
    else if token == 2 then Next(w1.(depth := if w.depth > 0 then w.depth - 1 else 0))
    else if token == 3 then Property(b, h, w1)
    else if token == 4 then Next(w1)
    else if token == 9 then Stop
    else Fail
  }

  lemma StepAdvances(b: Bytes, h: Header, w: Walker)
    requires w.Valid() && h.Fits(b) && w.p + 4 <= h.structEnd && Step(b, h, w).Next?
    ensures Step(b, h, w).w.p >= w.p + 4 && Step(b, h, w).w.Valid()
  {}

  /** The walk from a state: the ramdisk bounds seen at its end, or nothing on a malformed blob. */
  function Walk(b: Bytes, h: Header, w: Walker): Option<(Option<nat>, Option<nat>)>
    requires w.Valid() && h.Fits(b)
    decreases h.structEnd - w.p
  {
    if w.p + 4 > h.structEnd then Some((w.start, w.end)) else
    match Step(b, h, w)
    case Fail => None
    case Stop => Some((w.start, w.end))
    case Next(w') =>
      StepAdvances(b, h, w);
      Walk(b, h, w')
  }

  function Answer(start: Option<nat>, end: Option<nat>): Option<(nat, nat)> {
    if start.Some? && end.Some? && end.value > start.value then Some((start.value, end.value)) else None
  }

  function Begin(h: Header): Walker { Walker(h.offStruct, 0, seq(DEPTH, _ => false), None, None) }

  function Initrd(b: Bytes): Option<(nat, nat)>
    requires Readable(b)
  {
    if !Accepted(b) then None else
    match HeaderOf(b)
    case None => None
    case Some(h) =>
      match Walk(b, h, Begin(h))
      case None => None
      case Some((start, end)) => Answer(start, end)
  }

  // ---- the program ----

  method ScanName(b: Bytes, p: nat) returns (n: nat)
    ensures n == NameLength(b, p, 0)
  {
    n := 0;
    while n <= NAME_MAX && p + n < |b| && b[p + n] != 0
      invariant n <= NAME_MAX + 1 && NameLength(b, p, 0) == NameLength(b, p, n)
    {
      n := n + 1;
    }
  }

  /** Compares one byte at a time and stops at the first difference. Every byte before that
      is one of want's, so nothing past the first NUL is read: `last` bounds the reads. */
  method Compare(b: Bytes, p: nat, want: Bytes, ghost last: nat) returns (same: bool)
    requires p <= last < |b| && (b[last] == 0 || p + |want| <= last)
    requires forall i :: 0 <= i < |want| ==> want[i] != 0
    ensures same == StartsWith(b, p, want + [0])
  {
    for i := 0 to |want|
      invariant p + i <= last && b[p..p + i] == want[..i]
    {
      if b[p + i] != want[i] {
        Differs(b, p, want + [0], i);
        return false;
      }
    }
    same := b[p + |want|] == 0;
    if same {
      assert b[p..p + |want|] == want[..|want|] == want;
      assert b[p..p + |want| + 1] == b[p..p + |want|] + [b[p + |want|]];
    } else { Differs(b, p, want + [0], |want|); }
  }

  lemma Differs(b: Bytes, p: nat, want: Bytes, i: nat)
    requires i < |want| && p + i < |b| && b[p + i] != want[i]
    ensures !StartsWith(b, p, want)
  {
    if p + |want| <= |b| { assert b[p..p + |want|][i] == b[p + i]; }
  }

  /** Finds the ramdisk. Every read is inside the blob, and the walk ends on every blob. */
  method GetInitrd(b: Bytes) returns (r: Option<(nat, nat)>)
    requires Readable(b)
    ensures r == Initrd(b)
  {
    hide Step, Be32, Walk, BeginNode, Property;
    if !Accepted(b) { return None; }
    var header := HeaderOf(b);
    if header.None? { return None; }
    var h := header.value;
    ghost var all := Walk(b, h, Begin(h));
    var p, depth: nat, chosen := h.offStruct, 0, seq(DEPTH, _ => false);
    var start: Option<nat>, end: Option<nat> := None, None;
    while p + 4 <= h.structEnd
      invariant depth <= DEPTH && |chosen| == DEPTH
      invariant Walk(b, h, Walker(p, depth, chosen, start, end)) == all
      decreases h.structEnd - p
    {
      ghost var w := Walker(p, depth, chosen, start, end);
      Token(b, h, w);
      var token := Be32(b, p);
      p := p + 4;
      if token == 1 {
        var ok;
        ok, p, depth, chosen := OnBeginNode(b, p, depth, chosen, start, end);
        if !ok { return None; }
      } else if token == 2 {
        if depth > 0 { depth := depth - 1; }
      } else if token == 3 {
        var ok;
        ok, p, start, end := OnProperty(b, h, p, depth, chosen, start, end);
        if !ok { return None; }
      } else if token == 4 {
      } else if token == 9 {
        break;
      } else {
        return None;
      }
    }
    if p + 4 > h.structEnd { WalkOver(b, h, Walker(p, depth, chosen, start, end)); }
    r := Answer(start, end);
  }

  method OnBeginNode(b: Bytes, p: nat, depth: nat, chosen: seq<bool>, ghost start: Option<nat>, ghost end: Option<nat>)
    returns (ok: bool, p': nat, depth': nat, chosen': seq<bool>)
    requires depth <= DEPTH && |chosen| == DEPTH
    ensures BeginNode(b, Walker(p, depth, chosen, start, end))
            == if ok then Next(Walker(p', depth', chosen', start, end)) else Fail
  {
    hide NameLength, StartsWith;
    p', depth', chosen' := p, depth, chosen;
    var n := ScanName(b, p);
    NameEnds(b, p, 0);
    if p + n >= |b| { ok := false; return; }
    var isChosen := false;
    if depth == 1 { isChosen := Compare(b, p, CHOSEN, p + n); }
    if depth < DEPTH { chosen' := chosen[depth := isChosen]; }
    depth' := if depth + 1 > DEPTH then DEPTH else depth + 1;
    p' := Align4(p + n + 1);
    ok := true;
  }

  method OnProperty(b: Bytes, h: Header, p: nat, depth: nat, chosen: seq<bool>, start: Option<nat>, end: Option<nat>)
    returns (ok: bool, p': nat, start': Option<nat>, end': Option<nat>)
    requires depth <= DEPTH && |chosen| == DEPTH && h.Fits(b)
    ensures Property(b, h, Walker(p, depth, chosen, start, end))
            == if ok then Next(Walker(p', depth, chosen, start', end')) else Fail
  {
    hide Be32, StartsWith, Value, Named;
    p', start', end' := p, start, end;
    if p + 8 > h.structEnd { ok := false; return; }
    var len, nameoff := Be32(b, p), Be32(b, p + 4);
    var at := p + 8;
    if at + len > h.structEnd { ok := false; return; }
    if depth > 0 && chosen[depth - 1] {
      var v := b[at..at + len];
      var isStart := NameIs(b, h, nameoff, len, START);
      var isEnd := false;
      if !isStart { isEnd := NameIs(b, h, nameoff, len, END); }
      NotBoth(b, h, nameoff);
      if isStart { start' := Some(Value(v)); } else if isEnd { end' := Some(Value(v)); }
    }
    p' := Align4(at + len);
    ok := true;
  }

  method NameIs(b: Bytes, h: Header, nameoff: nat, len: nat, want: Bytes) returns (yes: bool)
    requires h.Fits(b) && (forall i :: 0 <= i < |want| ==> want[i] != 0)
    ensures yes == ((len == 4 || len == 8) && Named(b, h, nameoff, want))
  {
    yes := (len == 4 || len == 8) && nameoff + |want| + 1 <= h.sizeStrings;
    if yes {
      var at := h.offStrings + nameoff;
      yes := Compare(b, at, want, at + |want|);
    }
  }

  lemma WalkOver(b: Bytes, h: Header, w: Walker)
    requires w.Valid() && h.Fits(b) && w.p + 4 > h.structEnd
    ensures Walk(b, h, w) == Some((w.start, w.end))
  {}

  /** One unfolding of the walk and of its step. */
  lemma Token(b: Bytes, h: Header, w: Walker)
    requires w.Valid() && h.Fits(b) && w.p + 4 <= h.structEnd
    ensures var o, t, w1 := Step(b, h, w), Be32(b, w.p), w.(p := w.p + 4);
            && o == (if t == 1 then BeginNode(b, w1)
                     else if t == 2 then Next(w1.(depth := if w.depth > 0 then w.depth - 1 else 0))
                     else if t == 3 then Property(b, h, w1)
                     else if t == 4 then Next(w1)
                     else if t == 9 then Stop
                     else Fail)
            && (o.Next? ==> o.w.Valid() && o.w.p >= w.p + 4 && Walk(b, h, w) == Walk(b, h, o.w))
            && (o.Fail? ==> Walk(b, h, w) == None)
            && (o.Stop? ==> Walk(b, h, w) == Some((w.start, w.end)))
  {
    if Step(b, h, w).Next? { StepAdvances(b, h, w); }
  }

  lemma {:induction false} NameEnds(b: Bytes, p: nat, n: nat)
    requires n <= NAME_MAX + 1
    ensures var k := NameLength(b, p, n); n <= k <= NAME_MAX + 1 && (p + k < |b| && b[p + k] != 0 ==> k == NAME_MAX + 1)
    decreases NAME_MAX + 1 - n
  {
    if !(n == NAME_MAX + 1 || p + n >= |b| || b[p + n] == 0) { NameEnds(b, p, n + 1); }
  }

  lemma NotBoth(b: Bytes, h: Header, nameoff: nat)
    ensures !(Named(b, h, nameoff, START) && Named(b, h, nameoff, END))
  {
    if Named(b, h, nameoff, START) {
      assert b[h.offStrings + nameoff..h.offStrings + nameoff + |START + [0]|][13] == START[13];
      Differs(b, h.offStrings + nameoff, END + [0], 13);
    }
  }

  // ---- the format ----

  /** A sequence of properties, NOPs and nodes, as it may appear inside a node. */
  datatype Nodes =
    | Done
    | Prop(nameoff: nat, value: Bytes, rest: Nodes)
    | Nop(rest: Nodes)
    | Node(name: Bytes, inner: Nodes, rest: Nodes)

  function Big32(n: nat): Bytes
    requires n < U32
  {
    [n / 0x100_0000, n / 0x1_0000 % 256, n / 256 % 256, n % 256]
  }

  /** Padded with zeros to a multiple of four. */
  function Padded(s: Bytes): Bytes { s + seq(Align4(|s|) - |s|, _ => 0) }

  /** Names without NUL and of at most 64 bytes, nesting of at most 16. */
  ghost predicate Sound(t: Nodes, d: nat) {
    match t
    case Done => true
    case Prop(nameoff, value, rest) => nameoff < U32 && |value| < U32 && Sound(rest, d)
    case Nop(rest) => Sound(rest, d)
    case Node(name, inner, rest) =>
      && |name| <= NAME_MAX && (forall i :: 0 <= i < |name| ==> name[i] != 0)
      && d < DEPTH && Sound(inner, d + 1) && Sound(rest, d)
  }

  ghost function Serialized(t: Nodes, d: nat): Bytes
    requires Sound(t, d)
  {
    match t
    case Done => []
    case Prop(nameoff, value, rest) => Big32(3) + Big32(|value|) + Big32(nameoff) + Padded(value) + Serialized(rest, d)
    case Nop(rest) => Big32(4) + Serialized(rest, d)
    case Node(name, inner, rest) =>
      Big32(1) + Padded(name + [0]) + Serialized(inner, d + 1) + Big32(2) + Serialized(rest, d)
  }

  /** Properties of one node, in order. */
  ghost function Props(t: Nodes): seq<(nat, Bytes)> {
    match t
    case Done => []
    case Prop(nameoff, value, rest) => [(nameoff, value)] + Props(rest)
    case Nop(rest) => Props(rest)
    case Node(_, _, rest) => Props(rest)
  }

  /** Properties of the nodes called chosen among these, in order. */
  ghost function ChosenProps(t: Nodes): seq<(nat, Bytes)> {
    match t
    case Done => []
    case Prop(_, _, rest) => ChosenProps(rest)
    case Nop(rest) => ChosenProps(rest)
    case Node(name, inner, rest) => (if name == CHOSEN then Props(inner) else []) + ChosenProps(rest)
  }

  /** The value of the last property called `want` with a 4- or 8-byte value. */
  ghost function LastOf(b: Bytes, h: Header, props: seq<(nat, Bytes)>, want: Bytes): Option<nat> {
    if props == [] then None else
    OrElse(LastOf(b, h, props[1..], want), Says(b, h, props[0].0, props[0].1, want))
  }

  /** What the walker keeps of these nodes at depth d, inside /chosen or not. */
  ghost function Kept(t: Nodes, d: nat, inChosen: bool): seq<(nat, Bytes)> {
    match t
    case Done => []
    case Prop(nameoff, value, rest) => (if inChosen then [(nameoff, value)] else []) + Kept(rest, d, inChosen)
    case Nop(rest) => Kept(rest, d, inChosen)
    case Node(name, inner, rest) => Kept(inner, d + 1, d == 1 && name == CHOSEN) + Kept(rest, d, inChosen)
  }

  /** Deep nodes keep nothing; a chosen node keeps its own properties. */
  lemma {:induction false} KeptDeep(t: Nodes, d: nat, inChosen: bool)
    requires d >= 2
    ensures Kept(t, d, inChosen) == if inChosen then Props(t) else []
  {
    match t
    case Done =>
    case Prop(_, _, rest) => KeptDeep(rest, d, inChosen);
    case Nop(rest) => KeptDeep(rest, d, inChosen);
    case Node(_, inner, rest) => KeptDeep(inner, d + 1, false); KeptDeep(rest, d, inChosen);
  }

  lemma {:induction false} KeptInRoot(t: Nodes)
    ensures Kept(t, 1, false) == ChosenProps(t)
  {
    match t
    case Done =>
    case Prop(_, _, rest) => KeptInRoot(rest);
    case Nop(rest) => KeptInRoot(rest);
    case Node(name, inner, rest) => KeptDeep(inner, 2, name == CHOSEN); KeptInRoot(rest);
  }

  lemma {:induction false} LastOfConcat(b: Bytes, h: Header, xs: seq<(nat, Bytes)>, ys: seq<(nat, Bytes)>, want: Bytes)
    ensures LastOf(b, h, xs + ys, want) == OrElse(LastOf(b, h, ys, want), LastOf(b, h, xs, want))
  {
    if xs == [] {
      assert xs + ys == ys;
    } else {
      assert (xs + ys)[1..] == xs[1..] + ys;
      LastOfConcat(b, h, xs[1..], ys, want);
    }
  }

  // ---- the walk over a serialized tree ----

  lemma BigAt(b: Bytes, p: nat, n: nat)
    requires n < U32 && At(b, p, Big32(n))
    ensures Be32(b, p) == n
  {
    var s := b[p..p + 4];
    assert s == Big32(n);
    assert b[p] == s[0] && b[p + 1] == s[1] && b[p + 2] == s[2] && b[p + 3] == s[3];
    Quarters(n);
  }

  lemma Quarters(n: nat)
    requires n < U32
    ensures ((n / 0x100_0000 * 256 + n / 0x1_0000 % 256) * 256 + n / 256 % 256) * 256 + n % 256 == n
  {
    assert n / 0x1_0000 == n / 256 / 256 && n / 0x100_0000 == n / 256 / 256 / 256;
  }

  /** t' is where the walk from w gets to after these nodes. */
  ghost predicate Reached(b: Bytes, h: Header, w: Walker, w': Walker, size: nat, kept: seq<(nat, Bytes)>)
    requires w.Valid() && h.Fits(b)
  {
    && w'.Valid() && w'.p == w.p + size && w'.depth == w.depth && w'.chosen[..w.depth] == w.chosen[..w.depth]
    && w'.start == OrElse(LastOf(b, h, kept, START), w.start) && w'.end == OrElse(LastOf(b, h, kept, END), w.end)
    && Walk(b, h, w') == Walk(b, h, w)
  }

  function InChosen(w: Walker): bool
    requires w.Valid()
  {
    w.depth > 0 && w.chosen[w.depth - 1]
  }

  lemma PadLength(s: Bytes, p: nat)
    requires p % 4 == 0
    ensures |Padded(s)| == Align4(|s|) >= |s| && |Padded(s)| % 4 == 0 && Align4(p + |s|) == p + |Padded(s)|
  {}

  lemma PropStep(b: Bytes, h: Header, w: Walker, nameoff: nat, v: Bytes)
    requires w.Valid() && h.Fits(b) && w.p % 4 == 0 && nameoff < U32 && |v| < U32
    requires w.p + 12 + |Padded(v)| <= h.structEnd
    requires At(b, w.p, Big32(3) + Big32(|v|) + Big32(nameoff) + Padded(v))
    ensures Step(b, h, w) == Next(w.(p := w.p + 12 + |Padded(v)|,
              start := if InChosen(w) then OrElse(Says(b, h, nameoff, v, START), w.start) else w.start,
              end := if InChosen(w) then OrElse(Says(b, h, nameoff, v, END), w.end) else w.end))
  {
    hide Be32, Big32, Says, Padded;
    AtSplit(b, w.p, Big32(3) + Big32(|v|) + Big32(nameoff), Padded(v));
    AtSplit(b, w.p, Big32(3) + Big32(|v|), Big32(nameoff));
    AtSplit(b, w.p, Big32(3), Big32(|v|));
    BigLength(3); BigLength(|v|); BigLength(nameoff);
    BigAt(b, w.p, 3);
    BigAt(b, w.p + 4, |v|);
    BigAt(b, w.p + 8, nameoff);
    PadLength(v, w.p + 12);
    PadPrefix(v);
    assert b[w.p + 12..w.p + 12 + |v|] == b[w.p + 12..w.p + 12 + |Padded(v)|][..|v|];
  }

  lemma BigLength(n: nat)
    requires n < U32
    ensures |Big32(n)| == 4
  {}

  lemma PadPrefix(s: Bytes)
    ensures |Padded(s)| >= |s| && Padded(s)[..|s|] == s
  {}

  lemma {:induction false} NameFound(b: Bytes, p: nat, name: Bytes, n: nat)
    requires |name| <= NAME_MAX && n <= |name| && At(b, p, name + [0]) && forall i :: 0 <= i < |name| ==> name[i] != 0
    ensures NameLength(b, p, n) == |name|
    decreases |name| - n
  {
    assert b[p + n] == b[p..p + |name + [0]|][n];
    if n < |name| { NameFound(b, p, name, n + 1); }
  }

  /** A NUL-terminated name is CHOSEN exactly when the bytes say so. */
  lemma ChosenExact(b: Bytes, p: nat, name: Bytes)
    requires At(b, p, name + [0]) && forall i :: 0 <= i < |name| ==> name[i] != 0
    ensures StartsWith(b, p, CHOSEN + [0]) <==> name == CHOSEN
  {
    var x, y := name + [0], CHOSEN + [0];
    if StartsWith(b, p, y) {
      forall i | 0 <= i < |x| && i < |y| ensures x[i] == y[i] {
        assert b[p..p + |x|][i] == b[p + i] == b[p..p + |y|][i];
      }
      Terminators(name, CHOSEN);
      assert x[..|name|] == y[..|name|];
    }
  }

  /** NUL-terminated names of different lengths differ where the shorter one ends. */
  lemma Terminators(s: Bytes, t: Bytes)
    requires (forall i :: 0 <= i < |s| ==> s[i] != 0) && forall i :: 0 <= i < |t| ==> t[i] != 0
    ensures |s| < |t| ==> (s + [0])[|s|] != (t + [0])[|s|]
    ensures |t| < |s| ==> (s + [0])[|t|] != (t + [0])[|t|]
  {}

  lemma NodeStep(b: Bytes, h: Header, w: Walker, name: Bytes)
    requires w.Valid() && h.Fits(b) && w.p % 4 == 0 && w.depth < DEPTH
    requires |name| <= NAME_MAX && forall i :: 0 <= i < |name| ==> name[i] != 0
    requires w.p + 4 + |Padded(name + [0])| <= h.structEnd && At(b, w.p, Big32(1) + Padded(name + [0]))
    ensures Step(b, h, w) == Next(w.(p := w.p + 4 + |Padded(name + [0])|, depth := w.depth + 1,
              chosen := w.chosen[w.depth := w.depth == 1 && name == CHOSEN]))
  {
    hide Be32, Big32, BeginNode, Padded, At, Align4;
    AtSplit(b, w.p, Big32(1), Padded(name + [0]));
    BigLength(1);
    BigAt(b, w.p, 1);
    Opened(b, w.(p := w.p + 4), name);
  }

  lemma Opened(b: Bytes, w: Walker, name: Bytes)
    requires w.Valid() && w.p % 4 == 0 && w.depth < DEPTH && At(b, w.p, Padded(name + [0]))
    requires |name| <= NAME_MAX && forall i :: 0 <= i < |name| ==> name[i] != 0
    ensures BeginNode(b, w) == Next(w.(p := w.p + |Padded(name + [0])|, depth := w.depth + 1,
              chosen := w.chosen[w.depth := w.depth == 1 && name == CHOSEN]))
  {
    hide NameLength, StartsWith, Padded, Align4;
    var s := name + [0];
    PadPrefix(s);
    PadLength(s, w.p);
    assert Padded(s) == s + Padded(s)[|s|..];
    AtSplit(b, w.p, s, Padded(s)[|s|..]);
    NameFound(b, w.p, name, 0);
    ChosenExact(b, w.p, name);
  }

  lemma PlainStep(b: Bytes, h: Header, w: Walker, token: nat)
    requires w.Valid() && h.Fits(b) && w.p + 4 <= h.structEnd && token in {2, 4, 9} && At(b, w.p, Big32(token))
    ensures token == 4 ==> Step(b, h, w) == Next(w.(p := w.p + 4))
    ensures token == 2 && w.depth > 0 ==> Step(b, h, w) == Next(w.(p := w.p + 4, depth := w.depth - 1))
    ensures token == 9 ==> Step(b, h, w) == Stop
  {
    hide Be32, Big32;
    BigAt(b, w.p, token);
  }

  lemma {:induction false} SerializedAligned(t: Nodes, d: nat)
    requires Sound(t, d)
    ensures |Serialized(t, d)| % 4 == 0
  {
    hide Big32, Padded, Align4;
    match t
    case Done =>
    case Prop(nameoff, v, rest) =>
      SerializedAligned(rest, d);
      PadLength(v, 0); BigLength(3); BigLength(|v|); BigLength(nameoff);
      Multiples4(12, |Padded(v)|, |Serialized(rest, d)|);
    case Nop(rest) =>
      SerializedAligned(rest, d);
      BigLength(4);
      Multiples4(4, |Serialized(rest, d)|, 0);
    case Node(name, inner, rest) =>
      SerializedAligned(inner, d + 1);
      SerializedAligned(rest, d);
      PadLength(name + [0], 0); BigLength(1); BigLength(2);
      Multiples4(|Padded(name + [0])| + 8, |Serialized(inner, d + 1)|, |Serialized(rest, d)|);
  }

  lemma Multiples4(a: nat, b: nat, c: nat)
    requires a % 4 == 0 && b % 4 == 0 && c % 4 == 0
    ensures (a + b + c) % 4 == 0
  {}

  /** The walk passes over serialized nodes and keeps what they say. */
  lemma {:induction false} Follow(b: Bytes, h: Header, w: Walker, t: Nodes) returns (w': Walker)
    requires w.Valid() && h.Fits(b) && w.p % 4 == 0 && Sound(t, w.depth)
    requires w.p + |Serialized(t, w.depth)| <= h.structEnd && At(b, w.p, Serialized(t, w.depth))
    ensures Reached(b, h, w, w', |Serialized(t, w.depth)|, Kept(t, w.depth, InChosen(w)))
    decreases t, 1
  {
    hide Step, Walk, Be32, Big32, Padded, Reached, At;
    match t
    case Done =>
      w' := w;
      Stay(b, h, w);
    case Prop(nameoff, v, rest) => w' := FollowProp(b, h, w, nameoff, v, rest);
    case Nop(rest) =>
      BigLength(4);
      AtSplit(b, w.p, Big32(4), Serialized(rest, w.depth));
      PlainStep(b, h, w, 4);
      var w1 := w.(p := w.p + 4);
      Moved(b, h, w, w1, 4, []);
      w' := Follow(b, h, w1, rest);
      Compose(b, h, w, w1, w', 4, |Serialized(rest, w.depth)|, [], Kept(rest, w.depth, InChosen(w)));
      assert [] + Kept(rest, w.depth, InChosen(w)) == Kept(t, w.depth, InChosen(w));
    case Node(name, inner, rest) => w' := FollowNode(b, h, w, name, inner, rest);
  }

  lemma Stay(b: Bytes, h: Header, w: Walker)
    requires w.Valid() && h.Fits(b)
    ensures Reached(b, h, w, w, 0, [])
  {}

  /** One step that keeps the depth. */
  lemma Moved(b: Bytes, h: Header, w: Walker, w': Walker, size: nat, kept: seq<(nat, Bytes)>)
    requires w.Valid() && h.Fits(b) && w.p + 4 <= h.structEnd && Step(b, h, w) == Next(w')
    requires w'.p == w.p + size && w'.depth == w.depth && w'.chosen == w.chosen
    requires w'.start == OrElse(LastOf(b, h, kept, START), w.start) && w'.end == OrElse(LastOf(b, h, kept, END), w.end)
    ensures Reached(b, h, w, w', size, kept)
  {
    hide Step, Walk;
    Token(b, h, w);
  }

  lemma Compose(b: Bytes, h: Header, w: Walker, w1: Walker, w2: Walker, n: nat, m: nat,
                xs: seq<(nat, Bytes)>, ys: seq<(nat, Bytes)>)
    requires w.Valid() && h.Fits(b) && w1.Valid() && Reached(b, h, w, w1, n, xs) && Reached(b, h, w1, w2, m, ys)
    ensures Reached(b, h, w, w2, n + m, xs + ys)
  {
    hide Walk;
    LastOfConcat(b, h, xs, ys, START);
    LastOfConcat(b, h, xs, ys, END);
  }

  lemma {:induction false} FollowProp(b: Bytes, h: Header, w: Walker, nameoff: nat, v: Bytes, rest: Nodes)
      returns (w': Walker)
    requires var t := Prop(nameoff, v, rest);
             && w.Valid() && h.Fits(b) && w.p % 4 == 0 && Sound(t, w.depth)
             && w.p + |Serialized(t, w.depth)| <= h.structEnd && At(b, w.p, Serialized(t, w.depth))
    ensures var t := Prop(nameoff, v, rest);
            Reached(b, h, w, w', |Serialized(t, w.depth)|, Kept(t, w.depth, InChosen(w)))
    decreases Prop(nameoff, v, rest), 0
  {
    hide Step, Walk, Be32, Big32, Padded, Reached, At, Says;
    var item := Big32(3) + Big32(|v|) + Big32(nameoff) + Padded(v);
    BigLength(3); BigLength(|v|); BigLength(nameoff);
    PadLength(v, 0);
    AtSplit(b, w.p, item, Serialized(rest, w.depth));
    PropStep(b, h, w, nameoff, v);
    var w1 := Step(b, h, w).w;
    var kept := if InChosen(w) then [(nameoff, v)] else [];
    LastOfOne(b, h, nameoff, v, START);
    LastOfOne(b, h, nameoff, v, END);
    Moved(b, h, w, w1, |item|, kept);
    w' := Follow(b, h, w1, rest);
    Compose(b, h, w, w1, w', |item|, |Serialized(rest, w.depth)|, kept, Kept(rest, w.depth, InChosen(w)));
  }

  lemma LastOfOne(b: Bytes, h: Header, nameoff: nat, v: Bytes, want: Bytes)
    ensures LastOf(b, h, [(nameoff, v)], want) == Says(b, h, nameoff, v, want)
  {
    assert LastOf(b, h, [(nameoff, v)][1..], want) == None;
  }

  lemma {:induction false} FollowNode(b: Bytes, h: Header, w: Walker, name: Bytes, inner: Nodes, rest: Nodes)
      returns (w': Walker)
    requires var t := Node(name, inner, rest);
             && w.Valid() && h.Fits(b) && w.p % 4 == 0 && Sound(t, w.depth)
             && w.p + |Serialized(t, w.depth)| <= h.structEnd && At(b, w.p, Serialized(t, w.depth))
    ensures var t := Node(name, inner, rest);
            Reached(b, h, w, w', |Serialized(t, w.depth)|, Kept(t, w.depth, InChosen(w)))
    decreases Node(name, inner, rest), 0
  {
    hide Step, Walk, Be32, Big32, Padded, Reached, At, Serialized, Sound, Align4, LastOf, OrElse, BeginNode, Property;
    var d := w.depth;
    NodeLayout(b, w.p, name, inner, rest, d);
    var n, body, tail := 4 + |Padded(name + [0])|, Serialized(inner, d + 1), Serialized(rest, d);
    var kept := Kept(inner, d + 1, d == 1 && name == CHOSEN);
    NodeStep(b, h, w, name);
    Token(b, h, w);
    var w1 := Step(b, h, w).w;
    var w2 := Follow(b, h, w1, inner);
    ReachedFacts(b, h, w1, w2, |body|, kept);
    PlainStep(b, h, w2, 2);
    Token(b, h, w2);
    var w3 := Step(b, h, w2).w;
    Closed(b, h, w, w1, w2, w3, n, |body|, kept);
    ReachedFacts(b, h, w, w3, n + |body| + 4, kept);
    SameChosen(w, w3);
    w' := Follow(b, h, w3, rest);
    Compose(b, h, w, w3, w', n + |body| + 4, |tail|, kept, Kept(rest, d, InChosen(w)));
  }

  /** Where the parts of a serialized node lie. */
  lemma NodeLayout(b: Bytes, p: nat, name: Bytes, inner: Nodes, rest: Nodes, d: nat)
    requires Sound(Node(name, inner, rest), d) && At(b, p, Serialized(Node(name, inner, rest), d))
    ensures |name| <= NAME_MAX && (forall i :: 0 <= i < |name| ==> name[i] != 0) && d < DEPTH && Sound(inner, d + 1)
            && Sound(rest, d)
    ensures var n, body, tail := 4 + |Padded(name + [0])|, Serialized(inner, d + 1), Serialized(rest, d);
            && |Serialized(Node(name, inner, rest), d)| == n + |body| + 4 + |tail|
            && n % 4 == 0 && |body| % 4 == 0
            && At(b, p, Big32(1) + Padded(name + [0])) && At(b, p + n, body)
            && At(b, p + n + |body|, Big32(2)) && At(b, p + n + |body| + 4, tail)
  {
    hide Big32, Padded, At;
    var open := Big32(1) + Padded(name + [0]);
    var body, tail := Serialized(inner, d + 1), Serialized(rest, d);
    BigLength(1); BigLength(2);
    PadLength(name + [0], 0);
    SerializedAligned(inner, d + 1);
    AtSplit(b, p, open + body + Big32(2), tail);
    AtSplit(b, p, open + body, Big32(2));
    AtSplit(b, p, open, body);
  }

  lemma SameChosen(w: Walker, w': Walker)
    requires w.Valid() && w'.Valid() && w'.depth == w.depth && w'.chosen[..w.depth] == w.chosen[..w.depth]
    ensures InChosen(w') == InChosen(w)
  {
    if w.depth > 0 { assert w'.chosen[..w.depth][w.depth - 1] == w.chosen[..w.depth][w.depth - 1]; }
  }

  lemma ReachedFacts(b: Bytes, h: Header, w: Walker, w': Walker, size: nat, kept: seq<(nat, Bytes)>)
    requires w.Valid() && h.Fits(b) && Reached(b, h, w, w', size, kept)
    ensures w'.Valid() && w'.p == w.p + size && w'.depth == w.depth && w'.chosen[..w.depth] == w.chosen[..w.depth]
    ensures Walk(b, h, w') == Walk(b, h, w)
  {
    hide Walk;
  }

  /** Opening a node, passing over its contents and closing it. */
  lemma Closed(b: Bytes, h: Header, w: Walker, w1: Walker, w2: Walker, w3: Walker, n: nat, m: nat,
               kept: seq<(nat, Bytes)>)
    requires w.Valid() && h.Fits(b) && w1.Valid() && w.depth < DEPTH && Reached(b, h, w1, w2, m, kept)
    requires w1 == w.(p := w.p + n, depth := w.depth + 1, chosen := w1.chosen)
             && w1.chosen[..w.depth] == w.chosen[..w.depth]
    requires w3 == w2.(p := w2.p + 4, depth := w.depth)
    requires Walk(b, h, w1) == Walk(b, h, w) && Walk(b, h, w3) == Walk(b, h, w2)
    ensures Reached(b, h, w, w3, n + m + 4, kept)
  {
    hide Walk;
    assert w2.chosen[..w.depth] == w2.chosen[..w1.depth][..w.depth];
    assert w1.chosen[..w.depth] == w1.chosen[..w1.depth][..w.depth];
  }

  // ---- the whole blob ----

  /** One root node, with NOP tokens before and after it. */
  ghost predicate OneRoot(t: Nodes) {
    match t
    case Nop(rest) => OneRoot(rest)
    case Node(_, _, rest) => OnlyNops(rest)
    case _ => false
  }

  ghost predicate OnlyNops(t: Nodes) { t.Done? || (t.Nop? && OnlyNops(t.rest)) }

  /** What the root node contains. */
  ghost function RootOf(t: Nodes): Nodes
    requires OneRoot(t)
  {
    if t.Nop? then RootOf(t.rest) else t.inner
  }

  lemma {:induction false} NopsKeepNothing(t: Nodes)
    requires OnlyNops(t)
    ensures Kept(t, 0, false) == []
  {
    if t.Nop? { NopsKeepNothing(t.rest); }
  }

  lemma {:induction false} KeptAtTop(t: Nodes)
    requires OneRoot(t)
    ensures Kept(t, 0, false) == ChosenProps(RootOf(t))
  {
    if t.Nop? {
      KeptAtTop(t.rest);
    } else {
      KeptInRoot(t.inner);
      NopsKeepNothing(t.rest);
      assert Kept(t, 0, false) == ChosenProps(t.inner) + [];
    }
  }

  /** A blob whose structure block is a serialized tree, NOPs allowed anywhere, and the end
      token. */
  ghost predicate Holds(b: Bytes, h: Header, tree: Nodes) {
    && OneRoot(tree) && Sound(tree, 0)
    && h.Fits(b) && h.offStruct % 4 == 0
    && h.structEnd == h.offStruct + |Serialized(tree, 0)| + 4
    && At(b, h.offStruct, Serialized(tree, 0) + Big32(9))
  }

  /** On every serialized devicetree the walker answers with the last ramdisk bounds among
      the properties of /chosen, when both exist and make a nonempty range. */
  lemma InitrdExact(b: Bytes, tree: Nodes)
    requires Readable(b) && Accepted(b) && HeaderOf(b).Some? && Holds(b, HeaderOf(b).value, tree)
    ensures var h, props := HeaderOf(b).value, ChosenProps(RootOf(tree));
            Initrd(b) == Answer(LastOf(b, h, props, START), LastOf(b, h, props, END))
  {
    hide Walk, Step, At, Big32, Serialized, Readable, Accepted, HeaderOf, Sound, Kept, OneRoot, RootOf;
    var h := HeaderOf(b).value;
    var s, w := Serialized(tree, 0), Begin(h);
    AtSplit(b, h.offStruct, s, Big32(9));
    var w' := Follow(b, h, w, tree);
    PlainStep(b, h, w', 9);
    Token(b, h, w');
    KeptAtTop(tree);
  }
}
