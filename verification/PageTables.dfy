/** The four-level AArch64 stage-1 tables over a heap of 512-word pages: what a root
    translates, what a well-formed root is, and how one word written into one table
    changes the translation. Words are 64-bit descriptors; masks of the source are
    written as the bit field they select. Blocks and pages follow section D8.3 of the
    Arm Architecture Reference Manual (DDI 0487), 4 KiB granule, 48-bit addresses. */
module PageTables {
  import opened Arithmetic
  import opened Buddy

  const B21 := 0x20_0000
  const B30 := 0x4000_0000
  const B39 := 0x80_0000_0000
  const B44 := 0x1000_0000_0000
  const B48 := 0x1_0000_0000_0000

  // ---- descriptor fields ----

  predicate Valid(d: Word) { d % 2 == 1 }
  predicate IsTable(d: Word) { d / 2 % 2 == 1 }
  /** d & !0xFFF: the address a walk follows; the high attribute bits stay in. */
  function Link(d: Word): nat { d / PAGE * PAGE }
  /** Bits 48..63. */
  function Hi(d: Word): nat { d / B48 }
  /** Bits 2..11: AttrIndx, NS, AP, SH, AF, nG. */
  function Lo(d: Word): nat { d % PAGE / 4 }
  function Frame(d: Word): nat { d % B48 / PAGE * PAGE }
  function Block21(d: Word): nat { d % B48 / B21 * B21 }
  function Block30(d: Word): nat { d % B48 / B30 * B30 }
  /** AttrIndx == 1 marks Device memory. */
  predicate IsDevice(lo: nat) { lo % 8 == 1 }

  // ---- paths through the tree ----

  /** The four table indices of a virtual page. */
  datatype Path = Path(i0: nat, i1: nat, i2: nat, i3: nat) {
    predicate Ok() { i0 < 512 && i1 < 512 && i2 < 512 && i3 < 512 }
    function Va(): nat { (((i0 * 512 + i1) * 512 + i2) * 512 + i3) * PAGE }
  }

  function PathOf(va: nat): (p: Path)
    ensures p.Ok()
  {
    Path(va / B39 % 512, va / B30 % 512, va / B21 % 512, va / PAGE % 512)
  }

  lemma Quotients(va: nat)
    ensures va / B21 == va / PAGE / 512
    ensures va / B30 == va / B21 / 512
    ensures va / B39 == va / B30 / 512
  {}

  /** Virtual pages and paths correspond one to one. */
  lemma PathOfVa(p: Path)
    requires p.Ok()
    ensures PathOf(p.Va()) == p && p.Va() < B48 && p.Va() % PAGE == 0
  {
    Quotients(p.Va());
    assert p.Va() / PAGE == ((p.i0 * 512 + p.i1) * 512 + p.i2) * 512 + p.i3;
    assert p.Va() / PAGE / 512 == (p.i0 * 512 + p.i1) * 512 + p.i2;
    assert p.Va() / PAGE / 512 / 512 == p.i0 * 512 + p.i1;
  }

  lemma VaOfPath(va: nat)
    requires va < B48
    ensures PathOf(va).Va() == va / PAGE * PAGE
  {
    Quotients(va);
    assert va / B39 < 512;
  }

  // ---- translation ----

  /** What one virtual page translates to. `marker` is the invalid leaf word the kernel
      itself interprets (demand markers); `hi`/`lo` are every attribute bit of the leaf
      except the two type bits. */
  datatype Translation = Absent(marker: Word) | Mapped(frame: nat, hi: nat, lo: nat)

  function Read(m: Mem, a: nat, i: nat): Word {
    if a in m && i < WORDS then m[a][i] else 0
  }

  function At3(d: Word): Translation {
    if Valid(d) && IsTable(d) then Mapped(Frame(d), Hi(d), Lo(d)) else Absent(d)
  }
  function At2(m: Mem, d: Word, p: Path): Translation {
    if !Valid(d) then Absent(0)
    else if !IsTable(d) then Mapped(Block21(d) + p.i3 * PAGE, Hi(d), Lo(d))
    else At3(Read(m, Link(d), p.i3))
  }
  function At1(m: Mem, d: Word, p: Path): Translation {
    if !Valid(d) then Absent(0)
    else if !IsTable(d) then Mapped(Block30(d) + p.i2 * B21 + p.i3 * PAGE, Hi(d), Lo(d))
    else At2(m, Read(m, Link(d), p.i2), p)
  }
  function At0(m: Mem, d: Word, p: Path): Translation {
    if Valid(d) && IsTable(d) then At1(m, Read(m, Link(d), p.i1), p) else Absent(0)
  }
  function Translate(m: Mem, root: nat, p: Path): Translation {
    At0(m, Read(m, root, p.i0), p)
  }

  ghost predicate SameTranslation(m: Mem, m': Mem, root: nat) {
    forall p: Path :: p.Ok() ==> Translate(m', root, p) == Translate(m, root, p)
  }

  // ---- well-formed roots ----

  /** Where in the tree a table sits: the indices that lead to it. */
  datatype Prefix = Root | L1(i0: nat) | L2(i0: nat, i1: nat) | L3(i0: nat, i1: nat, i2: nat) {
    function Child(i: nat): Prefix
      requires !L3?
    {
      match this
      case Root => L1(i)
      case L1(a) => L2(a, i)
      case L2(a, b) => L3(a, b, i)
    }
    /** Does the walk for p go through slot i of the table at this prefix? */
    predicate Through(i: nat, p: Path) {
      match this
      case Root => p.i0 == i
      case L1(a) => p.i0 == a && p.i1 == i
      case L2(a, b) => p.i0 == a && p.i1 == b && p.i2 == i
      case L3(a, b, c) => p.i0 == a && p.i1 == b && p.i2 == c && p.i3 == i
    }
  }

  /** Labels every table page of a root with its one place in the tree. A page has one
      label, so no table is reached along two different prefixes. */
  type Shape = map<nat, Prefix>

  ghost predicate Linked(sh: Shape, a: nat, at: Prefix) { a in sh && sh[a] == at }

  /** Table links lead to the page labelled with the extended prefix; a block names an
      output below 2^44; a valid leaf has the page type. */
  ghost predicate EntryOk(sh: Shape, at: Prefix, i: nat, d: Word) {
    Valid(d) ==>
      match at
      case Root => IsTable(d) && Linked(sh, Link(d), L1(i))
      case L3(_, _, _) => IsTable(d)
      case _ => if IsTable(d) then Linked(sh, Link(d), at.Child(i)) else d % B48 < B44
  }

  ghost predicate Placed(m: Mem, root: nat, sh: Shape) {
    && Linked(sh, root, Root)
    && forall a :: a in sh ==> a in m && Aligned(a) && 0 < a < B48
  }

  ghost predicate WellFormed(m: Mem, root: nat, sh: Shape) {
    && Placed(m, root, sh)
    && forall a, i :: a in sh && 0 <= i < WORDS ==> EntryOk(sh, sh[a], i, Read(m, a, i))
  }

  /** The table reached along a prefix, 0 if the walk stops before. */
  function TableAt(m: Mem, root: nat, at: Prefix): nat {
    match at
    case Root => root
    case L1(a) => Follow(m, root, a)
    case L2(a, b) => Follow(m, Follow(m, root, a), b)
    case L3(a, b, c) => Follow(m, Follow(m, Follow(m, root, a), b), c)
  }
  function Follow(m: Mem, t: nat, i: nat): nat {
    var d := Read(m, t, i);
    if t != 0 && Valid(d) && IsTable(d) then Link(d) else 0
  }

  function AtSlot(m: Mem, at: Prefix, d: Word, p: Path): Translation {
    match at
    case Root => At0(m, d, p)
    case L1(_) => At1(m, d, p)
    case L2(_, _) => At2(m, d, p)
    case L3(_, _, _) => At3(d)
  }

  // ---- one write ----

  /** m' agrees with m on every word of the tree's tables except slot i of table a. */
  ghost predicate SameExcept(m: Mem, m': Mem, sh: Shape, a: nat, i: nat) {
    && (forall b :: b in sh ==> b in m')
    && forall b, j :: b in sh && 0 <= j < WORDS && (b != a || j != i) ==> Read(m', b, j) == Read(m, b, j)
  }

  /** A page translates as before when every slot its walk goes through is as before. */
  lemma SameWalk(m: Mem, m': Mem, root: nat, sh: Shape, p: Path)
    requires WellFormed(m, root, sh) && p.Ok()
    requires forall a, i :: a in sh && 0 <= i < WORDS && sh[a].Through(i, p) ==> Read(m', a, i) == Read(m, a, i)
    ensures Translate(m', root, p) == Translate(m, root, p)
  {
    var d0 := Read(m, root, p.i0);
    assert EntryOk(sh, Root, p.i0, d0);
    if Valid(d0) {
      var t1 := Link(d0);
      var d1 := Read(m, t1, p.i1);
      assert EntryOk(sh, L1(p.i0), p.i1, d1);
      if Valid(d1) && IsTable(d1) {
        var t2 := Link(d1);
        var d2 := Read(m, t2, p.i2);
        assert EntryOk(sh, L2(p.i0, p.i1), p.i2, d2);
        if Valid(d2) && IsTable(d2) {
          assert Linked(sh, Link(d2), L3(p.i0, p.i1, p.i2));
        }
      }
    }
  }

  /** A page whose walk misses the written slot translates as before. */
  lemma ElsewhereUnchanged(m: Mem, m': Mem, root: nat, sh: Shape, a: nat, i: nat, p: Path)
    requires WellFormed(m, root, sh) && SameExcept(m, m', sh, a, i)
    requires a in sh && i < WORDS && p.Ok() && !sh[a].Through(i, p)
    ensures Translate(m', root, p) == Translate(m, root, p)
  {
    SameWalk(m, m', root, sh, p);
  }

  /** A page whose walk goes through the written slot translates as that slot's word says,
      before and after the write. */
  lemma ThroughSlot(m: Mem, m': Mem, root: nat, sh: Shape, a: nat, i: nat, p: Path)
    requires WellFormed(m, root, sh) && SameExcept(m, m', sh, a, i)
    requires a in sh && i < WORDS && p.Ok() && sh[a].Through(i, p)
    requires TableAt(m, root, sh[a]) == a
    ensures Translate(m, root, p) == AtSlot(m, sh[a], Read(m, a, i), p)
    ensures Translate(m', root, p) == AtSlot(m', sh[a], Read(m', a, i), p)
  {
    var d0 := Read(m, root, p.i0);
    assert EntryOk(sh, Root, p.i0, d0);
    if !sh[a].Root? {
      var t1 := Link(d0);
      var d1 := Read(m, t1, p.i1);
      assert EntryOk(sh, L1(p.i0), p.i1, d1);
      if !sh[a].L1? {
        var t2 := Link(d1);
        var d2 := Read(m, t2, p.i2);
        assert EntryOk(sh, L2(p.i0, p.i1), p.i2, d2);
      }
    }
  }

  /** Writes outside the tree's tables change nothing about the tree. */
  lemma OutsideUnchanged(m: Mem, m': Mem, root: nat, sh: Shape)
    requires WellFormed(m, root, sh)
    requires forall a :: a in sh ==> a in m' && m'[a] == m[a]
    ensures WellFormed(m', root, sh) && SameTranslation(m, m', root)
  {
    forall b, j | b in sh && 0 <= j < WORDS ensures EntryOk(sh, sh[b], j, Read(m', b, j)) {
      assert EntryOk(sh, sh[b], j, Read(m, b, j));
    }
    forall p: Path | p.Ok() ensures Translate(m', root, p) == Translate(m, root, p) {
      SameWalk(m, m', root, sh, p);
    }
  }

  /** Rewriting one leaf changes the translation of that leaf's page and no other. */
  lemma LeafWritten(m: Mem, m': Mem, root: nat, sh: Shape, a: nat, p: Path, d: Word)
    requires WellFormed(m, root, sh) && p.Ok()
    requires Linked(sh, a, L3(p.i0, p.i1, p.i2)) && TableAt(m, root, sh[a]) == a
    requires m' == m[a := m[a][p.i3 := d]] && (Valid(d) ==> IsTable(d))
    ensures WellFormed(m', root, sh)
    ensures Translate(m, root, p) == At3(Read(m, a, p.i3)) && Translate(m', root, p) == At3(d)
    ensures forall q: Path :: q.Ok() && q != p ==> Translate(m', root, q) == Translate(m, root, q)
  {
    forall b, j | b in sh && 0 <= j < WORDS ensures EntryOk(sh, sh[b], j, Read(m', b, j)) {
      assert EntryOk(sh, sh[b], j, Read(m, b, j));
    }
    ThroughSlot(m, m', root, sh, a, p.i3, p);
    forall q: Path | q.Ok() && q != p ensures Translate(m', root, q) == Translate(m, root, q) {
      ElsewhereUnchanged(m, m', root, sh, a, p.i3, q);
    }
  }

  // ---- hanging a fresh table under a slot ----

  function TableDesc(t: nat): (d: Word)
    requires Aligned(t) && t < B48
    ensures Valid(d) && IsTable(d) && Link(d) == t
  {
    LowBits(t / PAGE, 3);
    t + 3
  }

  /** m' differs from m by a fresh page t, and by slot i of table a now linking to it. */
  ghost predicate Hung(m: Mem, m': Mem, sh: Shape, a: nat, i: nat, t: nat) {
    && a in sh && !sh[a].L3? && i < WORDS
    && t !in sh && t in m' && Aligned(t) && 0 < t < B48
    && SameExcept(m, m', sh, a, i)
    && Read(m', a, i) == TableDesc(t)
  }

  /** The tree stays well-formed when the fresh page holds no links of its own. */
  lemma HungWellFormed(m: Mem, m': Mem, root: nat, sh: Shape, a: nat, i: nat, t: nat)
    requires WellFormed(m, root, sh) && Hung(m, m', sh, a, i, t)
    requires TableAt(m, root, sh[a]) == a
    requires forall j :: 0 <= j < WORDS ==> EntryOk(map[], sh[a].Child(i), j, Read(m', t, j))
    ensures WellFormed(m', root, sh[t := sh[a].Child(i)])
    ensures TableAt(m', root, sh[a].Child(i)) == t
  {
    var sh' := sh[t := sh[a].Child(i)];
    forall b, j | b in sh' && 0 <= j < WORDS
      ensures EntryOk(sh', sh'[b], j, Read(m', b, j))
    {
      if b != t && (b != a || j != i) { assert EntryOk(sh, sh[b], j, Read(m, b, j)); }
    }
    ThroughSlotTable(m, m', root, sh, a, i);
  }

  /** Writing below a table does not move the table. */
  lemma ThroughSlotTable(m: Mem, m': Mem, root: nat, sh: Shape, a: nat, i: nat)
    requires WellFormed(m, root, sh) && SameExcept(m, m', sh, a, i)
    requires a in sh && i < WORDS && TableAt(m, root, sh[a]) == a
    ensures TableAt(m', root, sh[a]) == a
  {
  }

  /** Through the slot, the walk now continues in the fresh page. */
  lemma HungTranslate(m: Mem, m': Mem, root: nat, sh: Shape, a: nat, i: nat, t: nat, p: Path)
    requires WellFormed(m, root, sh) && Hung(m, m', sh, a, i, t)
    requires TableAt(m, root, sh[a]) == a && p.Ok()
    ensures !sh[a].Through(i, p) ==> Translate(m', root, p) == Translate(m, root, p)
    ensures sh[a].Through(i, p) ==>
      var j := match sh[a] case Root => p.i1 case L1(_) => p.i2 case _ => p.i3;
      && Translate(m, root, p) == AtSlot(m, sh[a], Read(m, a, i), p)
      && Translate(m', root, p) == AtSlot(m', sh[a].Child(i), Read(m', t, j), p)
  {
    if sh[a].Through(i, p) {
      ThroughSlot(m, m', root, sh, a, i, p);
    } else {
      ElsewhereUnchanged(m, m', root, sh, a, i, p);
    }
  }

  /** Hanging a zeroed table under an invalid slot changes no translation. */
  lemma HangEmpty(m: Mem, m': Mem, root: nat, sh: Shape, a: nat, i: nat, t: nat)
    requires WellFormed(m, root, sh) && Hung(m, m', sh, a, i, t)
    requires TableAt(m, root, sh[a]) == a && !Valid(Read(m, a, i)) && m'[t] == ZeroPage()
    ensures WellFormed(m', root, sh[t := sh[a].Child(i)]) && TableAt(m', root, sh[a].Child(i)) == t
    ensures SameTranslation(m, m', root)
  {
    HungWellFormed(m, m', root, sh, a, i, t);
    forall p: Path | p.Ok() ensures Translate(m', root, p) == Translate(m, root, p) {
      HungTranslate(m, m', root, sh, a, i, t, p);
    }
  }

  // ---- splitting a block ----

  /** Entry j of the table that replaces a 1 GiB block: attributes kept, and the output
      masked to bits 21..43. */
  function Split1(d: Word, j: nat): Word
    requires j < WORDS
  {
    Hi(d) * B48 + (Block30(d) + j * B21) % B44 / B21 * B21 + d % PAGE
  }

  /** Entry j of the table that replaces a 2 MiB block: the base is masked to bits 21..43,
      the type becomes page. */
  function Split2(d: Word, j: nat): Word
    requires j < WORDS && !IsTable(d)
  {
    Split2Word(d, j);
    Hi(d) * B48 + d % B44 / B21 * B21 + j * PAGE + d % PAGE + 2
  }

  lemma Split2Word(d: Word, j: nat)
    requires j < WORDS && !IsTable(d)
    ensures 0 <= Hi(d) * B48 + d % B44 / B21 * B21 + j * PAGE + d % PAGE + 2 < 0x1_0000_0000_0000_0000
  {
    var hi, _ := Parts(d, B48);
    var n, _ := Parts(d % B44, B21);
    var x, low := Parts(d, PAGE);
    LowBits(x, low);
    assert n < 0x80_0000 && low + 2 < PAGE;
  }

  lemma Split1Fields(d: Word, j: nat)
    requires j < WORDS && Valid(d) && !IsTable(d) && d % B48 < B44
    ensures var c := Split1(d, j);
            && Valid(c) && !IsTable(c) && Hi(c) == Hi(d) && Lo(c) == Lo(d) && c % B48 < B44
            && Block21(c) == Block30(d) + j * B21
  {
    hide Valid, IsTable, Hi, Lo, Block21, Block30;
    BlockLow(d);
    var n := Chunk21(d, j);
    Split1Sum(Hi(d), n, d % PAGE);
  }

  /** The low fields of a block descriptor. */
  lemma BlockLow(d: Word)
    requires Valid(d) && !IsTable(d)
    ensures d % PAGE % 2 == 1 && d % PAGE / 2 % 2 == 0 && Lo(d) == d % PAGE / 4 && Hi(d) < 0x1_0000
  {
    LowBits(d / PAGE, d % PAGE);
  }

  lemma Split1Sum(hi: nat, n: nat, low: nat)
    requires hi < 0x1_0000 && n < 0x80_0000 && low < PAGE && low / 2 % 2 == 0 && low % 2 == 1
    ensures var c := hi * B48 + n * B21 + low;
            && 0 <= c < 0x1_0000_0000_0000_0000
            && Valid(c) && !IsTable(c) && Hi(c) == hi && Lo(c) == low / 4 && c % B48 < B44
            && Block21(c) == n * B21
  {
    Fields(hi, n * 512, low);
    assert (n * B21 + low) / B21 == n;
  }

  /** The masked output of chunk j is a whole number of 2 MiB blocks, below 2^44. */
  lemma Chunk21(d: Word, j: nat) returns (n: nat)
    requires j < WORDS && d % B48 < B44
    ensures Block30(d) + j * B21 == n * B21 && n < 0x80_0000
    ensures (Block30(d) + j * B21) % B44 / B21 * B21 == n * B21
  {
    var q, r := Parts(d % B48, B30);
    assert q < 0x4000;
    n := q * 512 + j;
    MaskChunk(n);
  }

  /** The output mask keeps chunk addresses below 2^44. */
  lemma MaskChunk(n: nat)
    requires n < 0x80_0000
    ensures n * B21 % B44 / B21 * B21 == n * B21
  {
    DivMod(0, B44, n * B21);
    DivMod(n, B21, 0);
  }

  lemma Split2Fields(d: Word, j: nat)
    requires j < WORDS && Valid(d) && !IsTable(d) && d % B48 < B44
    ensures var c := Split2(d, j);
            && Valid(c) && IsTable(c) && Hi(c) == Hi(d) && Lo(c) == Lo(d)
            && Frame(c) == Block21(d) + j * PAGE
  {
    hide Valid, IsTable, Hi, Lo, Frame;
    BlockLow(d);
    var q := Chunk12(d);
    Split2Sum(Hi(d), q, j, d % PAGE);
  }

  lemma Chunk12(d: Word) returns (q: nat)
    requires d % B48 < B44
    ensures q < 0x80_0000 && d % B44 / B21 * B21 == q * B21 == Block21(d)
  {
    assert d % B44 == d % B48;
    q := d % B48 / B21;
  }

  lemma Split2Sum(hi: nat, q: nat, j: nat, low: nat)
    requires hi < 0x1_0000 && q < 0x80_0000 && j < WORDS && low < PAGE && low / 2 % 2 == 0 && low % 2 == 1
    ensures var c := hi * B48 + q * B21 + j * PAGE + low + 2;
            && 0 <= c < 0x1_0000_0000_0000_0000
            && Valid(c) && IsTable(c) && Hi(c) == hi && Lo(c) == low / 4 && Frame(c) == q * B21 + j * PAGE
  {
    assert low + 2 < PAGE;
    Fields(hi, q * 512 + j, low + 2);
  }

  /** A word put together from its three fields takes apart into them. */
  lemma Fields(hi: nat, pfn: nat, low: nat)
    requires hi < 0x1_0000 && pfn < 0x10_0000_0000 && low < PAGE
    ensures var w := hi * B48 + pfn * PAGE + low;
            && 0 <= w < 0x1_0000_0000_0000_0000 && w / B48 == hi && w % B48 == pfn * PAGE + low
            && w % PAGE == low && w % B48 / PAGE * PAGE == pfn * PAGE
            && w % 2 == low % 2 && w / 2 % 2 == low / 2 % 2
  {
    var w := hi * B48 + pfn * PAGE + low;
    assert w / B48 == hi && w % B48 == pfn * PAGE + low;
    LowBits(hi * 0x10_0000_0000 + pfn, low);
  }

  lemma LowBits(x: nat, low: nat)
    requires low < PAGE
    ensures var w := x * PAGE + low;
            w / PAGE == x && w % PAGE == low && w % 2 == low % 2 && w / 2 % 2 == low / 2 % 2
  {
    Half(x * 2048, low);
    Half(x * 1024, low / 2);
  }

  lemma Half(y: nat, r: nat)
    ensures (y * 2 + r) % 2 == r % 2 && (y * 2 + r) / 2 == y + r / 2
  {}

  function SplitPage(at: Prefix, d: Word): Page
    requires (at.L1? || at.L2?) && !IsTable(d)
  {
    if at.L1? then seq(WORDS, j requires 0 <= j < WORDS => Split1(d, j))
    else seq(WORDS, j requires 0 <= j < WORDS => Split2(d, j))
  }

  /** Replacing a block by the table of its chunks changes no translation anywhere:
      same output page and same attributes under the slot, nothing elsewhere. */
  lemma HangSplit(m: Mem, m': Mem, root: nat, sh: Shape, a: nat, i: nat, t: nat)
    requires WellFormed(m, root, sh) && Hung(m, m', sh, a, i, t) && !sh[a].Root?
    requires TableAt(m, root, sh[a]) == a
    requires Valid(Read(m, a, i)) && !IsTable(Read(m, a, i)) && m'[t] == SplitPage(sh[a], Read(m, a, i))
    ensures WellFormed(m', root, sh[t := sh[a].Child(i)]) && TableAt(m', root, sh[a].Child(i)) == t
    ensures SameTranslation(m, m', root)
  {
    var d := Read(m, a, i);
    assert EntryOk(sh, sh[a], i, d);
    forall j | 0 <= j < WORDS ensures EntryOk(map[], sh[a].Child(i), j, Read(m', t, j)) {
      if sh[a].L1? { Split1Fields(d, j); } else { Split2Fields(d, j); }
    }
    HungWellFormed(m, m', root, sh, a, i, t);
    forall p: Path | p.Ok() ensures Translate(m', root, p) == Translate(m, root, p) {
      HungTranslate(m, m', root, sh, a, i, t, p);
      if sh[a].L1? { Split1Fields(d, p.i2); } else { Split2Fields(d, p.i3); }
    }
  }

  /** The split of a 1 GiB block preserves what every page below translates to exactly when
      the block's output lies below 2^44; above, the chunk mask drops the high output bits. */
  lemma Split1Exact(m: Mem, d: Word)
    requires Valid(d) && !IsTable(d)
    ensures d % B48 < B44 <==>
            forall p: Path :: p.Ok() ==> At2(m, Split1(d, p.i2), p) == At1(m, d, p)
  {
    if d % B48 < B44 {
      forall p: Path | p.Ok() ensures At2(m, Split1(d, p.i2), p) == At1(m, d, p) {
        Split1Fields(d, p.i2);
      }
    } else {
      var p := Path(0, 0, 0, 0);
      Split1Truncates(d);
      assert At2(m, Split1(d, p.i2), p) != At1(m, d, p);
    }
  }

  lemma Split1Truncates(d: Word)
    requires Valid(d) && !IsTable(d) && d % B48 >= B44
    ensures var c := Split1(d, 0); Valid(c) && !IsTable(c) && Block21(c) < B44 <= Block30(d)
  {
    BlockLow(d);
    var q := d % B48 / B30;
    Split1High(Hi(d), q, d % PAGE);
    assert q >= 0x4000;
  }

  lemma Split1High(hi: nat, q: nat, low: nat)
    requires hi < 0x1_0000 && low < PAGE && low % 2 == 1 && low / 2 % 2 == 0
    ensures var c := hi * B48 + q * B30 % B44 / B21 * B21 + low;
            Valid(c) && !IsTable(c) && Block21(c) < B44
  {
    var n := q * B30 % B44 / B21;
    assert n < 0x80_0000;
    Split1Sum(hi, n, low);
  }

  /** The same for a 2 MiB block. */
  lemma Split2Exact(m: Mem, d: Word)
    requires Valid(d) && !IsTable(d)
    ensures d % B48 < B44 <==>
            forall p: Path :: p.Ok() ==> At3(Split2(d, p.i3)) == At2(m, d, p)
  {
    if d % B48 < B44 {
      forall p: Path | p.Ok() ensures At3(Split2(d, p.i3)) == At2(m, d, p) {
        Split2Fields(d, p.i3);
      }
    } else {
      var p := Path(0, 0, 0, 0);
      Split2Truncates(d);
      assert At3(Split2(d, p.i3)) != At2(m, d, p);
    }
  }

  lemma Split2Truncates(d: Word)
    requires Valid(d) && !IsTable(d) && d % B48 >= B44
    ensures var c := Split2(d, 0); Valid(c) && IsTable(c) && Frame(c) < B44 <= Block21(d)
  {
    BlockLow(d);
    var q := MaskBelow44(d);
    Split2Sum(Hi(d), q, 0, d % PAGE);
    StaysHigh(d % B48);
  }

  lemma MaskBelow44(d: Word) returns (q: nat)
    ensures d % B44 / B21 * B21 == q * B21 && q < 0x80_0000
  {
    q := d % B44 / B21;
  }

  lemma StaysHigh(x: nat)
    requires x >= B44
    ensures x / B21 * B21 >= B44
  {
    assert x / B21 >= 0x80_0000;
  }
}
