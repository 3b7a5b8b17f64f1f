/** Driver roots: mapping one virtio-MMIO window page, narrowing the root to that window
    and enrolling it, and reading the window back from the tables. */
module DriverRoot {
  import opened Options
  import opened Arithmetic
  import opened Buddy
  import opened PageTables
  import opened Walk
  import opened DriverSet
  import Pager

  const MMIO_BASE := 0x0a00_0000
  const MMIO_STRIDE := 0x200
  const MMIO_SLOTS := 32
  const L2_UART := 64
  const L2_GIC := 72
  const L2_MMIO := 80

  /** The page that holds a slot's 0x200-byte window. */
  function SlotPage(slot: int): (r: Option<nat>)
    ensures r.Some? <==> 0 <= slot < MMIO_SLOTS
    ensures r.Some? ==>
              && Aligned(r.value) && r.value <= MMIO_BASE + slot * MMIO_STRIDE
              && MMIO_BASE + slot * MMIO_STRIDE + MMIO_STRIDE <= r.value + PAGE
              && PathOf(r.value) == Path(0, 0, L2_MMIO, slot / 8)
  {
    if 0 <= slot < MMIO_SLOTS then Some((MMIO_BASE + slot * MMIO_STRIDE) / PAGE * PAGE) else None
  }

  const MMIO_HI := 0x60       // UXN | PXN
  const MMIO_LO := 0x3D1      // as the pager's leaf, with AttrIndx 1 (Device)

  function MmioDesc(page: nat): (d: Word)
    requires Aligned(page) && page < B48
    ensures Valid(d) && IsTable(d) && At3(d) == Mapped(page, MMIO_HI, MMIO_LO) && IsDevice(Lo(d))
    ensures d % 4096 == 1 + 2 + 4 + 64 + 3 * 256 + 1024 + 2048 && WritableDevice(At3(d))
  {
    Fields(MMIO_HI, page / PAGE, 0xF47);
    LowBits(MMIO_HI * 0x10_0000_0000 + page / PAGE, 0xF47);
    MMIO_HI * B48 + page + 0xF47
  }

  /** Device memory, read-write, inner shareable, accessed, not global, never executable. */
  predicate WritableDevice(t: Translation) {
    && t.Mapped? && t.lo % 8 == 1 && t.lo / 16 % 4 == 1 && t.lo / 64 % 4 == 3
    && t.lo / 256 % 2 == 1 && t.lo / 512 % 2 == 1 && t.hi / 32 % 2 == 1 && t.hi / 64 % 2 == 1
  }

  // ---- the user-window level 2 table and its Device leaves ----

  function L2Of(m: Mem, root: nat): nat { TableAt(m, root, L2(0, 0)) }

  /** A Device leaf in a level 3 table hung under slot j2 of the user-window table. */
  ghost predicate DeviceLeaf(m: Mem, root: nat, j2: nat, j3: nat) {
    var t := Follow(m, L2Of(m, root), j2);
    t != 0 && j2 < WORDS && j3 < WORDS && Valid(Read(m, t, j3)) && IsDevice(Lo(Read(m, t, j3)))
  }

  ghost predicate OnlyLeaf(m: Mem, root: nat, j2: nat, j3: nat) {
    && DeviceLeaf(m, root, j2, j3)
    && forall k2, k3 :: DeviceLeaf(m, root, k2, k3) ==> k2 == j2 && k3 == j3
  }

  /** The walk of driver_window_page and its loops over the level 2 and level 3 entries:
      the frame of the root's only Device leaf, None when there is none or several. */
  method WindowPage(m: Mem, pdir: nat, ghost sh: Shape) returns (r: Option<nat>)
    requires Usable(pdir) ==> WellFormed(m, pdir, sh)
    ensures !Usable(pdir) ==> r == None
    ensures Usable(pdir) && r.Some? ==>
              exists j2, j3 :: OnlyLeaf(m, pdir, j2, j3) && Translate(m, pdir, Path(0, 0, j2, j3)).Mapped?
                         && Translate(m, pdir, Path(0, 0, j2, j3)).frame == r.value
    ensures Usable(pdir) && r.None? ==> forall j2, j3 :: !OnlyLeaf(m, pdir, j2, j3)
  {
    if pdir == 0 || pdir % PAGE != 0 { return None; }
    var d0 := Read(m, pdir, 0);
    assert EntryOk(sh, Root, 0, d0);
    if !Valid(d0) || !IsTable(d0) { return None; }
    var l1 := Link(d0);
    var d1 := Read(m, l1, 0);
    assert EntryOk(sh, L1(0), 0, d1);
    if !Valid(d1) || !IsTable(d1) { return None; }
    var l2 := Link(d1);
    r := ScanWindow(m, pdir, l2, sh);
  }

  ghost predicate Before(k2: nat, k3: nat, j2: nat, j3: nat) { k2 < j2 || (k2 == j2 && k3 < j3) }

  /** Nothing found yet, or exactly one leaf found, among the entries before (j2, j3). */
  ghost predicate Scanned(m: Mem, root: nat, j2: nat, j3: nat, found: Option<nat>, at: (nat, nat)) {
    && (found.None? ==> forall k2, k3 :: DeviceLeaf(m, root, k2, k3) ==> !Before(k2, k3, j2, j3))
    && (found.Some? ==>
          && DeviceLeaf(m, root, at.0, at.1) && Before(at.0, at.1, j2, j3)
          && found.value == Frame(Read(m, Follow(m, L2Of(m, root), at.0), at.1))
          && forall k2, k3 :: DeviceLeaf(m, root, k2, k3) && Before(k2, k3, j2, j3) ==> k2 == at.0 && k3 == at.1)
  }

  method ScanWindow(m: Mem, pdir: nat, l2: nat, ghost sh: Shape) returns (r: Option<nat>)
    requires WellFormed(m, pdir, sh) && l2 == L2Of(m, pdir) != 0 && Linked(sh, l2, L2(0, 0))
    ensures r.Some? ==>
              exists j2, j3 :: OnlyLeaf(m, pdir, j2, j3) && Translate(m, pdir, Path(0, 0, j2, j3)).Mapped?
                         && Translate(m, pdir, Path(0, 0, j2, j3)).frame == r.value
    ensures r.None? ==> forall j2, j3 :: !OnlyLeaf(m, pdir, j2, j3)
  {
    hide WellFormed, Translate;
    var found := None;
    ghost var at := (0, 0);
    for i := 0 to WORDS
      invariant Scanned(m, pdir, i, 0, found, at)
    {
      var d2 := Read(m, l2, i);
      if Valid(d2) && IsTable(d2) {
        var several;
        found, several, at := ScanTable(m, pdir, l2, i, found, at);
        if several { return None; }
      } else {
        RowEmpty(m, pdir, i, found, at);
      }
    }
    r := found;
    ScanDone(m, pdir, sh, found, at);
  }

  lemma RowEmpty(m: Mem, root: nat, i: nat, found: Option<nat>, at: (nat, nat))
    requires Scanned(m, root, i, 0, found, at) && Follow(m, L2Of(m, root), i) == 0
    ensures Scanned(m, root, i + 1, 0, found, at)
  {
    forall k2, k3 | DeviceLeaf(m, root, k2, k3) ensures k2 != i {}
  }

  method ScanTable(m: Mem, ghost root: nat, l2: nat, i: nat, found0: Option<nat>, ghost at0: (nat, nat))
    returns (found: Option<nat>, several: bool, ghost at: (nat, nat))
    requires l2 == L2Of(m, root) != 0 && i < WORDS && Valid(Read(m, l2, i)) && IsTable(Read(m, l2, i))
    requires Scanned(m, root, i, 0, found0, at0)
    ensures several ==> forall j2, j3 :: !OnlyLeaf(m, root, j2, j3)
    ensures !several ==> Scanned(m, root, i + 1, 0, found, at)
  {
    found, several, at := found0, false, at0;
    var l3 := Link(Read(m, l2, i));
    if l3 == 0 { RowEmpty(m, root, i, found, at); return; }
    for j := 0 to WORDS
      invariant Scanned(m, root, i, j, found, at)
    {
      var d3 := Read(m, l3, j);
      if Valid(d3) && IsDevice(Lo(d3)) {
        assert DeviceLeaf(m, root, i, j);
        if found.Some? { return found, true, at; }
        found := Some(Frame(d3));
        at := (i, j);
      }
    }
    forall k2, k3 | DeviceLeaf(m, root, k2, k3)
      ensures Before(k2, k3, i, WORDS) <==> Before(k2, k3, i + 1, 0)
    {}
  }

  lemma ScanDone(m: Mem, root: nat, sh: Shape, found: Option<nat>, at: (nat, nat))
    requires WellFormed(m, root, sh) && Linked(sh, L2Of(m, root), L2(0, 0))
    requires Scanned(m, root, WORDS, 0, found, at)
    ensures found.None? ==> forall j2, j3 :: !OnlyLeaf(m, root, j2, j3)
    ensures found.Some? ==> OnlyLeaf(m, root, at.0, at.1)
    ensures found.Some? ==>
              var t := Translate(m, root, Path(0, 0, at.0, at.1)); t.Mapped? && t.frame == found.value
  {
    forall k2, k3 | DeviceLeaf(m, root, k2, k3) ensures Before(k2, k3, WORDS, 0) {}
    if found.Some? { LeafTranslation(m, root, sh, at.0, at.1); }
  }

  /** A Device leaf is what its page translates to. */
  lemma LeafTranslation(m: Mem, root: nat, sh: Shape, j2: nat, j3: nat)
    requires WellFormed(m, root, sh) && Linked(sh, L2Of(m, root), L2(0, 0)) && DeviceLeaf(m, root, j2, j3)
    ensures Translate(m, root, Path(0, 0, j2, j3)) == At3(Read(m, Follow(m, L2Of(m, root), j2), j3))
    ensures Translate(m, root, Path(0, 0, j2, j3)).Mapped?
  {
    var l2 := L2Of(m, root);
    assert EntryOk(sh, L2(0, 0), j2, Read(m, l2, j2));
    var t := Follow(m, l2, j2);
    assert EntryOk(sh, sh[t], j3, Read(m, t, j3));
    assert EntryOk(sh, Root, 0, Read(m, root, 0));
    ThroughSlot(m, m, root, sh, l2, j2, Path(0, 0, j2, j3));
  }

  // ---- mapping the window ----

  /** The slot an MMIO page needs: a chain of tables to level 2 and an invalid entry there. */
  predicate WindowSlotFree(m: Mem, root: nat) {
    L2Of(m, root) != 0 && !Valid(Read(m, L2Of(m, root), L2_MMIO))
  }

  /** Exactly one page changed, to the Device window page; the Device leaves gained it. */
  ghost predicate WindowMapped(m0: Mem, m: Mem, root: nat, page: nat) {
    var p := PathOf(page);
    && Translate(m, root, p) == Mapped(page, MMIO_HI, MMIO_LO)
    && (forall q: Path :: q.Ok() && q != p ==> Translate(m, root, q) == Translate(m0, root, q))
    && (forall j2, j3 :: DeviceLeaf(m, root, j2, j3) <==>
          DeviceLeaf(m0, root, j2, j3) || (j2 == p.i2 && j3 == p.i3))
  }

  /** Every other entry of the user-window level 2 table is as it was. */
  ghost predicate OtherSlotsKept(m0: Mem, m: Mem, root: nat) {
    && L2Of(m, root) == L2Of(m0, root)
    && forall j :: 0 <= j < WORDS && j != L2_MMIO ==> Read(m, L2Of(m, root), j) == Read(m0, L2Of(m, root), j)
  }

  /** Installs the Device page of a slot: 1 installed, 0 refused, -12 out of pages; a
      refusal or a missing page changes nothing. */
  method MapMmio(ram: PageAllocator, pdir: nat, slot: int, ghost sh: Shape)
    returns (r: int, ghost sh': Shape)
    requires Usable(pdir) ==> Ready(ram.Now(), pdir, sh)
    modifies ram
    ensures r in {1, 0, -12}
    ensures r == 0 <==> SlotPage(slot).None? || !Usable(pdir) || !WindowSlotFree(old(ram.mem), pdir)
    ensures r == -12 ==> old(ram.freePages) == 0
    ensures r != 1 ==> ram.Now() == old(ram.Now()) && sh' == sh
    ensures r == 1 ==> Ready(ram.Now(), pdir, sh') && WindowMapped(old(ram.mem), ram.mem, pdir, SlotPage(slot).value)
    ensures r == 1 ==>
              && SlotPage(slot).Some?
              && var t := Translate(ram.mem, pdir, PathOf(SlotPage(slot).value));
              && t.Mapped? && t.frame == 0x0a00_0000 + slot / 8 * 4096 && WritableDevice(t)
    ensures r == 1 ==> OtherSlotsKept(old(ram.mem), ram.mem, pdir) && DataKept(old(ram.Now()), ram.Now(), sh, sh')
  {
    sh' := sh;
    var sp := SlotPage(slot);
    if sp.None? { return 0, sh; }
    var page := sp.value;
    if pdir == 0 || pdir % PAGE != 0 { return 0, sh; }
    var d0 := Read(ram.mem, pdir, 0);
    assert EntryOk(sh, Root, 0, d0);
    if !Valid(d0) || !IsTable(d0) { return 0, sh; }
    var d1 := Read(ram.mem, Link(d0), 0);
    assert EntryOk(sh, L1(0), 0, d1);
    if !Valid(d1) || !IsTable(d1) { return 0, sh; }
    var l2 := Link(d1);
    if Valid(Read(ram.mem, l2, L2_MMIO)) { return 0, sh; }
    r, sh' := MapWindow(ram, pdir, l2, page, sh);
    hide Ready, Translate, DeviceLeaf;
    if r == 1 { WindowFields(old(ram.mem), ram.mem, pdir, slot); }
  }

  lemma WindowFields(m0: Mem, m: Mem, root: nat, slot: int)
    requires 0 <= slot < MMIO_SLOTS && WindowMapped(m0, m, root, SlotPage(slot).value)
    ensures var t := Translate(m, root, PathOf(SlotPage(slot).value));
            t.Mapped? && t.frame == 0x0a00_0000 + slot / 8 * 4096 && WritableDevice(t)
  {
    hide Translate, DeviceLeaf;
    DivMod(MMIO_BASE / PAGE + slot / 8, PAGE, slot % 8 * MMIO_STRIDE);
  }

  method MapWindow(ram: PageAllocator, ghost root: nat, l2: nat, page: nat, ghost sh: Shape)
    returns (r: int, ghost sh': Shape)
    requires Ready(ram.Now(), root, sh) && l2 == L2Of(ram.mem, root) && Linked(sh, l2, L2(0, 0))
    requires !Valid(Read(ram.mem, l2, L2_MMIO)) && Aligned(page) && page < B48
    requires PathOf(page).i0 == PathOf(page).i1 == 0 && PathOf(page).i2 == L2_MMIO
    modifies ram
    ensures r == 1 || r == -12
    ensures r == -12 <==> old(ram.freePages) == 0
    ensures r == -12 ==> ram.Now() == old(ram.Now()) && sh' == sh
    ensures r == 1 ==> Ready(ram.Now(), root, sh') && WindowMapped(old(ram.mem), ram.mem, root, page)
    ensures r == 1 ==> OtherSlotsKept(old(ram.mem), ram.mem, root) && DataKept(old(ram.Now()), ram.Now(), sh, sh')
  {
    hide Refined, WindowMapped, OtherSlotsKept, DataKept;
    ghost var h0 := ram.Now();
    var l3;
    l3, sh' := Pager.LinkEmpty(ram, l2, L2_MMIO, root, sh);
    if l3 == 0 { return -12, sh; }
    ghost var h1 := ram.Now();
    WindowLeaf(h0, h1, root, sh, sh', l2, l3, page);
    RefinedData(h0, h1, root, sh, sh');
    TableWriteKeeps(h1, sh', l3, h1.mem[l3][page / PAGE % 512 := MmioDesc(page)]);
    DataKeptTwice(h0, h1, h1.(mem := h1.mem[l3 := h1.mem[l3][page / PAGE % 512 := MmioDesc(page)]]), sh, sh', sh');
    ram.mem := ram.mem[l3 := ram.mem[l3][page / PAGE % 512 := MmioDesc(page)]];
    r := 1;
  }

  /** Hanging a table and writing the window leaf into it. */
  lemma WindowLeaf(h0: Heap, h1: Heap, root: nat, sh: Shape, sh': Shape, l2: nat, l3: nat, page: nat)
    requires Ready(h0, root, sh) && Linked(sh, l2, L2(0, 0)) && L2Of(h0.mem, root) == l2
    requires Refined(h0, h1, root, sh, sh') && Aligned(page) && page < B48
    requires !Valid(Read(h0.mem, l2, L2_MMIO))
    requires PathOf(page).i0 == PathOf(page).i1 == 0 && PathOf(page).i2 == L2_MMIO
    requires Linked(sh', l3, L3(0, 0, L2_MMIO)) && TableAt(h1.mem, root, L3(0, 0, L2_MMIO)) == l3
    requires Hung(h0.mem, h1.mem, sh, l2, L2_MMIO, l3) && h1.mem[l3] == ZeroPage()
    ensures l3 in h1.mem
    ensures var h := h1.(mem := h1.mem[l3 := h1.mem[l3][page / PAGE % 512 := MmioDesc(page)]]);
            Ready(h, root, sh') && WindowMapped(h0.mem, h.mem, root, page) && OtherSlotsKept(h0.mem, h.mem, root)
  {
    hide WellFormed, Translate, DeviceLeaf;
    var p := PathOf(page);
    var m := h1.mem[l3 := h1.mem[l3][p.i3 := MmioDesc(page)]];
    LeafReady(h1, root, sh', l3, p, MmioDesc(page));
    WindowTable(h0.mem, h1.mem, root, sh, l2, l3, p.i3, MmioDesc(page));
    WindowLeaves(h0.mem, m, root, sh, l2, l3, p.i3);
  }

  /** The hung table holds nothing but the window leaf. */
  lemma WindowTable(m0: Mem, m1: Mem, root: nat, sh: Shape, l2: nat, l3: nat, i3: nat, d: Word)
    requires WellFormed(m0, root, sh) && Linked(sh, l2, L2(0, 0)) && i3 < WORDS && Valid(d) && IsDevice(Lo(d))
    requires Hung(m0, m1, sh, l2, L2_MMIO, l3) && m1[l3] == ZeroPage()
    ensures var m := m1[l3 := m1[l3][i3 := d]];
            && SameExcept(m0, m, sh, l2, L2_MMIO) && Follow(m, l2, L2_MMIO) == l3 != 0
            && forall j :: 0 <= j < WORDS ==> (Valid(Read(m, l3, j)) && IsDevice(Lo(Read(m, l3, j))) <==> j == i3)
  {}

  lemma LeafReady(h: Heap, root: nat, sh: Shape, a: nat, p: Path, d: Word)
    requires Ready(h, root, sh) && p.Ok() && Linked(sh, a, L3(p.i0, p.i1, p.i2)) && TableAt(h.mem, root, sh[a]) == a
    requires Valid(d) && IsTable(d)
    ensures a in h.mem
    ensures var h' := h.(mem := h.mem[a := h.mem[a][p.i3 := d]]);
            && Ready(h', root, sh) && Translate(h'.mem, root, p) == At3(d)
            && forall q: Path :: q.Ok() && q != p ==> Translate(h'.mem, root, q) == Translate(h.mem, root, q)
  {
    var m := h.mem[a := h.mem[a][p.i3 := d]];
    LeafWritten(h.mem, m, root, sh, a, p, d);
    WriteKeeps(h, m);
  }

  lemma WindowLeaves(m0: Mem, m: Mem, root: nat, sh: Shape, l2: nat, l3: nat, i3: nat)
    requires WellFormed(m0, root, sh) && Linked(sh, l2, L2(0, 0)) && L2Of(m0, root) == l2
    requires SameExcept(m0, m, sh, l2, L2_MMIO) && !Valid(Read(m0, l2, L2_MMIO)) && i3 < WORDS
    requires Follow(m, l2, L2_MMIO) == l3 != 0
    requires forall j :: 0 <= j < WORDS ==> (Valid(Read(m, l3, j)) && IsDevice(Lo(Read(m, l3, j))) <==> j == i3)
    ensures L2Of(m, root) == l2
    ensures forall j2, j3 :: DeviceLeaf(m, root, j2, j3) <==>
              DeviceLeaf(m0, root, j2, j3) || (j2 == L2_MMIO && j3 == i3)
  {
    ThroughSlotTable(m0, m, root, sh, l2, L2_MMIO);
    forall j2, j3 | 0 <= j2 < WORDS && 0 <= j3 < WORDS
      ensures DeviceLeaf(m, root, j2, j3) <==> DeviceLeaf(m0, root, j2, j3) || (j2 == L2_MMIO && j3 == i3)
    {
      assert EntryOk(sh, L2(0, 0), j2, Read(m0, l2, j2));
    }
  }

  // ---- narrowing ----

  /** Nothing but a clearable block, or nothing at all. */
  predicate Clearable(d: Word) { d == 0 || (Valid(d) && !IsTable(d)) }

  /** The word is null, or its low two bits are those of a block. */
  lemma ClearableExactly(d: Word)
    ensures Clearable(d) <==> d == 0 || d % 4 == 1
  {
    var q, r := Parts(d, 4);
    assert d == (2 * q + r / 2) * 2 + r % 2;
    DivMod(2 * q + r / 2, 2, r % 2);
    DivMod(q, 2, r / 2);
  }

  predicate NarrowShape(m: Mem, root: nat) {
    var l2 := L2Of(m, root);
    l2 != 0 && Clearable(Read(m, l2, L2_UART)) && Clearable(Read(m, l2, L2_GIC))
  }

  /** The pages narrowing strips: everything of the first 512 GiB above its first GiB, and
      the 2 MiB blocks of the UART and the GIC. */
  predicate Stripped(p: Path) {
    p.i0 == 0 && (p.i1 != 0 || p.i2 == L2_UART || p.i2 == L2_GIC)
  }

  /** By address: all from 1 GiB to 512 GiB, and the 2 MiB at 0x0800_0000 and at 0x0900_0000. */
  lemma StrippedExactly(p: Path)
    requires p.Ok()
    ensures Stripped(p) <==>
              || 0x0800_0000 <= p.Va() < 0x0820_0000 || 0x0900_0000 <= p.Va() < 0x0920_0000
              || 0x4000_0000 <= p.Va() < 0x80_0000_0000
  {
    PathOfVa(p);
    var low := p.i2 * B21 + p.i3 * PAGE;
    assert p.Va() == p.i0 * B39 + p.i1 * B30 + low && low < B30;
  }

  ghost predicate Narrowed(m0: Mem, m: Mem, root: nat) {
    && L2Of(m, root) == L2Of(m0, root)
    && (forall p: Path :: p.Ok() ==>
          Translate(m, root, p) == if Stripped(p) then Absent(0) else Translate(m0, root, p))
    && (forall j2, j3 :: DeviceLeaf(m, root, j2, j3) <==> DeviceLeaf(m0, root, j2, j3))
  }

  function OnlyFirst(page: Page): Page { seq(WORDS, i requires 0 <= i < WORDS => if i == 0 then page[0] else 0) }

  method ClearFromOne(page: Page) returns (cleared: Page)
    ensures cleared == OnlyFirst(page)
  {
    cleared := page;
    for i := 1 to WORDS
      invariant forall k :: 0 <= k < WORDS ==> cleared[k] == if 1 <= k < i then 0 else page[k]
    {
      cleared := cleared[i := 0];
    }
  }

  function NarrowMem(m: Mem, l1: nat, l2: nat): Mem
    requires l1 in m && l2 in m
  {
    var m1 := m[l1 := OnlyFirst(m[l1])];
    m1[l2 := m1[l2][L2_UART := 0][L2_GIC := 0]]
  }

  /** Strips a root down to its window chain and enrols it: 1 done, 0 refused. A refusal
      leaves the tables alone, and leaves the enrolment alone unless the root was enrolled
      already: then a root that no longer has the right shape loses its enrolment. */
  method Narrow(ram: PageAllocator, drivers: DriverRoots, pdir: nat, ghost sh: Shape) returns (r: int)
    requires drivers.Valid() && (Usable(pdir) ==> Ready(ram.Now(), pdir, sh))
    modifies ram, drivers
    ensures drivers.Valid()
    ensures r == 0 || r == 1
    ensures r == 1 <==>
              && Usable(pdir) && NarrowShape(old(ram.mem), pdir)
              && old(pdir in drivers.roots || 0 in drivers.roots)
    ensures r == 1 ==> Ready(ram.Now(), pdir, sh) && Narrowed(old(ram.mem), ram.mem, pdir) && pdir in drivers.roots
    ensures r == 1 ==> DataKept(old(ram.Now()), ram.Now(), sh, sh)
    ensures forall q :: q != 0 && q != pdir ==> (q in drivers.roots <==> old(q in drivers.roots))
    ensures r == 0 ==> ram.Now() == old(ram.Now())
    ensures r == 0 && old(pdir !in drivers.roots) ==> drivers.roots == old(drivers.roots)
    ensures r == 0 && Usable(pdir) && old(pdir in drivers.roots) ==> pdir !in drivers.roots
  {
    if pdir == 0 || pdir % PAGE != 0 { return 0; }
    var marked := drivers.Mark(pdir);
    if !marked { return 0; }
    ghost var afterMark := drivers.roots;
    var valid := NarrowValidate(ram.mem, pdir, sh);
    if !valid {
      drivers.Unmark(pdir);
      if old(pdir !in drivers.roots) { MarkThenUnmark(old(drivers.roots), afterMark, drivers.roots, pdir); }
      return 0;
    }
    NarrowRoot(ram, pdir, sh);
    return 1;
  }

  method NarrowValidate(m: Mem, pdir: nat, ghost sh: Shape) returns (ok: bool)
    requires WellFormed(m, pdir, sh)
    ensures ok <==> NarrowShape(m, pdir)
  {
    var d0 := Read(m, pdir, 0);
    assert EntryOk(sh, Root, 0, d0);
    if !Valid(d0) || !IsTable(d0) { return false; }
    var d1 := Read(m, Link(d0), 0);
    assert EntryOk(sh, L1(0), 0, d1);
    if !Valid(d1) || !IsTable(d1) { return false; }
    var l2 := Link(d1);
    var u, g := Read(m, l2, L2_UART), Read(m, l2, L2_GIC);
    if u != 0 && (!Valid(u) || IsTable(u)) { return false; }
    if g != 0 && (!Valid(g) || IsTable(g)) { return false; }
    return true;
  }

  method NarrowRoot(ram: PageAllocator, pdir: nat, ghost sh: Shape)
    requires Ready(ram.Now(), pdir, sh) && NarrowShape(ram.mem, pdir)
    modifies ram
    ensures Ready(ram.Now(), pdir, sh) && Narrowed(old(ram.mem), ram.mem, pdir)
    ensures DataKept(old(ram.Now()), ram.Now(), sh, sh)
  {
    hide Narrowed, Ready;
    ReadyWellFormed(ram.Now(), pdir, sh);
    var l1 := Link(Read(ram.mem, pdir, 0));
    var l2 := Link(Read(ram.mem, l1, 0));
    NarrowTables(ram.mem, pdir, sh);
    NarrowEffect(ram.Now(), pdir, sh, l1, l2);
    var cleared := ClearFromOne(ram.mem[l1]);
    ram.mem := ram.mem[l1 := cleared];
    ram.mem := ram.mem[l2 := ram.mem[l2][L2_UART := 0][L2_GIC := 0]];
  }

  lemma ReadyWellFormed(h: Heap, root: nat, sh: Shape)
    requires Ready(h, root, sh)
    ensures WellFormed(h.mem, root, sh)
  {}

  lemma NarrowTables(m: Mem, root: nat, sh: Shape)
    requires WellFormed(m, root, sh) && NarrowShape(m, root)
    ensures var l1 := Link(Read(m, root, 0)); var l2 := Link(Read(m, l1, 0));
            && Linked(sh, l1, L1(0)) && Linked(sh, l2, L2(0, 0)) && l2 == L2Of(m, root)
            && l1 in m && l2 in m && Valid(Read(m, root, 0)) && IsTable(Read(m, root, 0))
            && Valid(Read(m, l1, 0)) && IsTable(Read(m, l1, 0))
  {
    assert EntryOk(sh, Root, 0, Read(m, root, 0));
    assert EntryOk(sh, L1(0), 0, Read(m, Link(Read(m, root, 0)), 0));
  }

  lemma NarrowEffect(h: Heap, root: nat, sh: Shape, l1: nat, l2: nat)
    requires Ready(h, root, sh) && NarrowShape(h.mem, root)
    requires l1 == Link(Read(h.mem, root, 0)) && l2 == Link(Read(h.mem, l1, 0)) && l1 in h.mem && l2 in h.mem
    ensures var h' := h.(mem := NarrowMem(h.mem, l1, l2));
            Ready(h', root, sh) && Narrowed(h.mem, h'.mem, root)
  {
    NarrowTables(h.mem, root, sh);
    var m := NarrowMem(h.mem, l1, l2);
    forall b, j | b in sh && 0 <= j < WORDS ensures EntryOk(sh, sh[b], j, Read(m, b, j)) {
      assert EntryOk(sh, sh[b], j, Read(h.mem, b, j));
    }
    WriteKeeps(h, m);
    forall p: Path | p.Ok()
      ensures Translate(m, root, p) == if Stripped(p) then Absent(0) else Translate(h.mem, root, p)
    {
      if !Stripped(p) { SameWalk(h.mem, m, root, sh, p); }
    }
    NarrowLeaves(h.mem, root, sh, l1, l2);
  }

  lemma NarrowLeaves(m: Mem, root: nat, sh: Shape, l1: nat, l2: nat)
    requires WellFormed(m, root, sh) && NarrowShape(m, root)
    requires l1 == Link(Read(m, root, 0)) && l2 == Link(Read(m, l1, 0)) && l1 in m && l2 in m
    ensures L2Of(NarrowMem(m, l1, l2), root) == L2Of(m, root) == l2
    ensures forall j2, j3 :: DeviceLeaf(NarrowMem(m, l1, l2), root, j2, j3) <==> DeviceLeaf(m, root, j2, j3)
  {
    NarrowTables(m, root, sh);
    var m' := NarrowMem(m, l1, l2);
    forall j2, j3 | 0 <= j2 < WORDS && 0 <= j3 < WORDS
      ensures DeviceLeaf(m', root, j2, j3) <==> DeviceLeaf(m, root, j2, j3)
    {
      assert EntryOk(sh, L2(0, 0), j2, Read(m, l2, j2));
    }
  }

  /** Mapping a slot's window into a root that has no Device leaf yet and then narrowing it
      leaves exactly that slot's page as the window, for every slot. */
  lemma WindowIsSlotPage(m0: Mem, m1: Mem, m2: Mem, root: nat, slot: int)
    requires 0 <= slot < MMIO_SLOTS
    requires forall j2, j3 :: !DeviceLeaf(m0, root, j2, j3)
    requires WindowMapped(m0, m1, root, SlotPage(slot).value) && Narrowed(m1, m2, root)
    ensures OnlyLeaf(m2, root, L2_MMIO, slot / 8)
    ensures Translate(m2, root, Path(0, 0, L2_MMIO, slot / 8)) == Mapped(SlotPage(slot).value, MMIO_HI, MMIO_LO)
    ensures forall p: Path :: p.Ok() && p != Path(0, 0, L2_MMIO, slot / 8) ==>
              Translate(m2, root, p) == if Stripped(p) then Absent(0) else Translate(m0, root, p)
  {
    hide Translate, DeviceLeaf;
    var p := PathOf(SlotPage(slot).value);
    assert DeviceLeaf(m1, root, p.i2, p.i3);
  }

  /** Setting up a driver: map the slot's window, narrow the root, and ask for its window. On
      a root with a free window slot, a strippable shape and no Device leaf, with a page left
      and room in the set, everything succeeds and the answer is that slot's page. */
  method SetUpDriver(ram: PageAllocator, drivers: DriverRoots, pdir: nat, slot: int, ghost sh: Shape)
    returns (window: Option<nat>, ghost sh': Shape)
    requires drivers.Valid() && Usable(pdir) && Ready(ram.Now(), pdir, sh) && 0 <= slot < MMIO_SLOTS
    requires WindowSlotFree(ram.mem, pdir) && NarrowShape(ram.mem, pdir) && ram.freePages > 0
    requires forall j2, j3 :: !DeviceLeaf(ram.mem, pdir, j2, j3)
    requires pdir in drivers.roots || 0 in drivers.roots
    modifies ram, drivers
    ensures Ready(ram.Now(), pdir, sh') && drivers.Valid() && pdir in drivers.roots
    ensures window == SlotPage(slot)
    ensures forall p: Path :: p.Ok() && p != Path(0, 0, L2_MMIO, slot / 8) ==>
              Translate(ram.mem, pdir, p) == if Stripped(p) then Absent(0) else Translate(old(ram.mem), pdir, p)
  {
    hide Ready, Translate, DeviceLeaf, WindowMapped, Narrowed, OtherSlotsKept;
    ghost var m0 := ram.mem;
    var r;
    r, sh' := MapMmio(ram, pdir, slot, sh);
    ghost var m1 := ram.mem;
    StillNarrow(m0, m1, pdir);
    r := Narrow(ram, drivers, pdir, sh');
    WindowIsSlotPage(m0, m1, ram.mem, pdir, slot);
    ReadyWellFormed(ram.Now(), pdir, sh');
    window := WindowPage(ram.mem, pdir, sh');
    OneAnswer(ram.mem, pdir, slot, window);
  }

  lemma StillNarrow(m0: Mem, m1: Mem, root: nat)
    requires NarrowShape(m0, root) && OtherSlotsKept(m0, m1, root)
    ensures NarrowShape(m1, root)
  {}

  lemma OneAnswer(m: Mem, root: nat, slot: int, window: Option<nat>)
    requires 0 <= slot < MMIO_SLOTS && OnlyLeaf(m, root, L2_MMIO, slot / 8)
    requires Translate(m, root, Path(0, 0, L2_MMIO, slot / 8)) == Mapped(SlotPage(slot).value, MMIO_HI, MMIO_LO)
    requires window.Some? ==>
               exists j2, j3 :: OnlyLeaf(m, root, j2, j3) && Translate(m, root, Path(0, 0, j2, j3)).Mapped?
                          && Translate(m, root, Path(0, 0, j2, j3)).frame == window.value
    requires window.None? ==> forall j2, j3 :: !OnlyLeaf(m, root, j2, j3)
    ensures window == SlotPage(slot)
  {
    hide Translate, DeviceLeaf;
  }
}
