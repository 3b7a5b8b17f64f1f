/** The demand pager: the fault handler that finds or builds the tables down to the
    faulting page and installs a fresh zeroed frame there. */
module Pager {
  import opened Layout
  import opened Buddy
  import opened PageTables
  import opened Walk
  import opened DriverSet
  import Vm

  /** An invalid leaf word with 0xDE in bits 56..63: registered, not yet served. */
  predicate IsDemand(d: Word): (r: bool)
    ensures r <==> d % 2 == 0 && 0xDE00_0000_0000_0000 <= d < 0xDF00_0000_0000_0000
  {
    !Valid(d) && d / 0x100_0000_0000_0000 == 0xDE
  }

  const FAULT_HI := 0x60      // UXN | PXN
  const FAULT_LO := 0x3D0     // AP read-write | inner shareable | AF | nG, AttrIndx 0 (Normal)

  /** The leaf of a served page. Bit by bit: valid (0), a page (1), AttrIndx 0 for Normal memory
      (2..4), AP 1 for read-write (6..7), inner shareable (8..9), accessed (10), not global
      (11), and execute-never for both exception levels (53, 54). */
  function FaultDesc(page: nat): (d: Word)
    requires Aligned(page) && page < B48
    ensures Valid(d) && IsTable(d) && At3(d) == Mapped(page, FAULT_HI, FAULT_LO)
    ensures WritableData(At3(d)) && d % 4096 == 1 + 2 + 64 + 3 * 256 + 1024 + 2048
  {
    Fields(FAULT_HI, page / PAGE, 0xF43);
    LowBits(FAULT_HI * 0x10_0000_0000 + page / PAGE, 0xF43);
    FAULT_HI * B48 + page + 0xF43
  }

  /** Normal memory, read-write, inner shareable, accessed, not global, never executable. */
  predicate WritableData(t: Translation) {
    && t.Mapped? && t.lo % 8 == 0 && t.lo / 16 % 4 == 1 && t.lo / 64 % 4 == 3
    && t.lo / 256 % 2 == 1 && t.lo / 512 % 2 == 1 && t.hi / 32 % 2 == 1 && t.hi / 64 % 2 == 1
  }

  /** Asking for write access on a page the pager served changes nothing: it has it already. */
  lemma ServedIsWritable(h: Heap, h': Heap, root: nat, sh: Shape, sh': Shape, p: Path, page: nat)
    requires Installed(h, h', root, sh, sh', p, page)
    ensures var t := Translate(h'.mem, root, p); WritableData(t) && t.frame == page && Vm.WithAp(t, 1) == t
    ensures var t := Translate(h'.mem, root, p); !IsDevice(t.lo) && Vm.WithAp(t, 3) != t
  {
    hide Translate, Ready, DataKept;
    hide Heap.Free, Heap.Held;
    assert Translate(h'.mem, root, p) == Mapped(page, FAULT_HI, FAULT_LO);
  }

  /** Hangs a zeroed table under an invalid entry. */
  method LinkEmpty(ram: PageAllocator, a: nat, i: nat, ghost root: nat, ghost sh: Shape)
    returns (table: nat, ghost sh': Shape)
    requires Ready(ram.Now(), root, sh) && i < WORDS
    requires a in sh && TableAt(ram.mem, root, sh[a]) == a && !sh[a].L3? && !Valid(Read(ram.mem, a, i))
    modifies ram
    ensures Refined(old(ram.Now()), ram.Now(), root, sh, sh')
    ensures ram.freePages + 1 >= old(ram.freePages)
    ensures table == 0 <==> old(ram.freePages) == 0
    ensures table == 0 ==> ram.Now() == old(ram.Now()) && sh' == sh
    ensures table != 0 ==>
              && Linked(sh', table, sh[a].Child(i)) && TableAt(ram.mem, root, sh[a].Child(i)) == table
              && Hung(old(ram.mem), ram.mem, sh, a, i, table) && ram.mem[table] == ZeroPage()
              && a in ram.mem && Valid(ram.mem[a][i]) && IsTable(ram.mem[a][i]) && Link(ram.mem[a][i]) == table
  {
    sh' := sh;
    ghost var h := ram.Now();
    table := ram.Alloc();
    if table == 0 { return 0, sh; }
    FirstIsPage(h);
    var zeroed := ZeroFill(ram.mem[table]);
    ram.mem := ram.mem[table := zeroed];
    ram.mem := ram.mem[a := ram.mem[a][i := TableDesc(table)]];
    TakenAndHung(h, ram.Now(), root, sh, a, i, zeroed);
    HangEmpty(h.mem, ram.mem, root, sh, a, i, table);
    HungRefines(h, ram.Now(), root, sh, a, i);
    sh' := sh[table := sh[a].Child(i)];
  }

  /** One level of the pager's walk: links a zeroed table under an invalid entry, splits a
      block, follows a table. 0, with nothing changed, exactly when a page was needed and
      none was left. */
  method Deepen(ram: PageAllocator, a: nat, i: nat, level: int, ghost root: nat, ghost sh: Shape)
    returns (t: nat, ghost sh': Shape)
    requires Ready(ram.Now(), root, sh) && i < WORDS
    requires a in sh && TableAt(ram.mem, root, sh[a]) == a
    requires (level == 0 && sh[a].Root?) || (level == 1 && sh[a].L1?) || (level == 2 && sh[a].L2?)
    modifies ram
    ensures Refined(old(ram.Now()), ram.Now(), root, sh, sh')
    ensures ram.freePages + 1 >= old(ram.freePages)
    ensures t != 0 ==> Linked(sh', t, sh[a].Child(i)) && TableAt(ram.mem, root, sh[a].Child(i)) == t
    ensures t == 0 ==> old(ram.freePages) == 0
  {
    sh' := sh;
    var d := ram.mem[a][i];
    assert EntryOk(sh, sh[a], i, Read(ram.mem, a, i));
    if !Valid(d) {
      var table;
      table, sh' := LinkEmpty(ram, a, i, root, sh);
      if table == 0 { return 0, sh; }
    } else if level != 0 && !IsTable(d) {
      var ok;
      ok, sh' := SplitSlot(ram, a, i, level, root, sh);
      if !ok { return 0, sh'; }
    }
    var d' := ram.mem[a][i];
    t := Link(d');
  }

  /** Taking a data page leaves the tree as it is. */
  lemma DataPageTaken(h: Heap, root: nat, sh: Shape)
    requires Ready(h, root, sh) && h.free > 0
    ensures Ready(h.Take(), root, sh) && SameTranslation(h.mem, h.Take().mem, root)
    ensures h.Free(h.First()) && h.Take().Held(h.First()) && h.First() !in sh && 0 < h.First() < B48
    ensures Aligned(h.First()) && h.Take().mem[h.First()] == ZeroPage()
    ensures forall q :: h.Held(q) ==> q != h.First() && h.Take().Held(q) && h.Take().mem[q] == h.mem[q]
  {
    TakeKeeps(h);
    OutsideUnchanged(h.mem, h.Take().mem, root, sh);
  }

  /** The pager gave up: translations as before, and every page that is not free any more
      serves as a table; in particular the data page is back. */
  ghost predicate GaveUp(h: Heap, h': Heap, root: nat, sh: Shape, sh': Shape) {
    && Ready(h', root, sh')
    && SameTranslation(h.mem, h'.mem, root)
    && (forall q :: h.Free(q) ==> h'.Free(q) || q in sh')
    && DataKept(h, h', sh, sh')
    && h'.free + |sh'| == h.free + |sh|
  }

  /** The pager installed `page`, zeroed and until now free, at p and changed nothing else. */
  ghost predicate Installed(h: Heap, h': Heap, root: nat, sh: Shape, sh': Shape, p: Path, page: nat) {
    && Ready(h', root, sh')
    && h.Free(page) && h'.Held(page) && page !in sh'
    && page in h'.mem && h'.mem[page] == ZeroPage()
    && Translate(h'.mem, root, p) == Mapped(page, FAULT_HI, FAULT_LO)
    && (forall q: Path :: q.Ok() && q != p ==> Translate(h'.mem, root, q) == Translate(h.mem, root, q))
    && DataKept(h, h', sh, sh')
    && h'.free + |sh'| + 1 == h.free + |sh|
  }

  lemma GiveUp(h0: Heap, h2: Heap, root: nat, sh: Shape, sh': Shape)
    requires Ready(h0, root, sh) && h0.free > 0
    requires Refined(h0.Take(), h2, root, sh, sh')
    ensures h2.Valid() && h2.Held(h0.First()) && GaveUp(h0, h2.Give(h0.First()), root, sh, sh')
  {
    hide Translate, WellFormed;
    DataPageTaken(h0, root, sh);
    TakeKeeps(h0);
    GiveReady(h2, root, sh', h0.First());
    GaveUpData(h0, h2, root, sh, sh');
    hide DataKept;
  }

  /** Taking a page and giving it back disturbs no data. */
  lemma GaveUpData(h0: Heap, h2: Heap, root: nat, sh: Shape, sh': Shape)
    requires Ready(h0, root, sh) && h0.free > 0
    requires Refined(h0.Take(), h2, root, sh, sh')
    ensures h2.Valid() && DataKept(h0, h2.Give(h0.First()), sh, sh')
  {
    hide Refined, WellFormed, Heap.Take, SameTranslation;
    TakeData(h0, root, sh);
    RefinedData(h0.Take(), h2, root, sh, sh');
    DataPageTaken(h0, root, sh);
    RefinedReady(h0.Take(), h2, root, sh, sh');
    GiveReady(h2, root, sh', h0.First());
  }

  lemma TakeData(h: Heap, root: nat, sh: Shape)
    requires Ready(h, root, sh) && h.free > 0
    ensures DataKept(h, h.Take(), sh, sh)
  {
    DataPageTaken(h, root, sh);
  }

  /** Freeing a held page that is no table leaves the tree as it is. */
  lemma GiveReady(h: Heap, root: nat, sh: Shape, page: nat)
    requires Ready(h, root, sh) && h.Held(page) && page !in sh
    ensures Ready(h.Give(page), root, sh) && SameTranslation(h.mem, h.Give(page).mem, root)
    ensures h.Give(page).Free(page) && h.Give(page).free == h.free + 1
    ensures forall q :: h.Free(q) ==> h.Give(page).Free(q)
    ensures forall q :: h.Held(q) && q != page ==> h.Give(page).Held(q) && h.Give(page).mem[q] == h.mem[q]
  {
    GiveKeeps(h, page);
    OutsideUnchanged(h.mem, h.Give(page).mem, root, sh);
  }

  /** Writing the fault leaf into the slot of far. */
  lemma LeafInstalled(h: Heap, root: nat, sh: Shape, far: nat, a: nat, i: nat, page: nat)
    requires Ready(h, root, sh) && LeafSlot(h.mem, root, sh, far, a, i)
    requires Aligned(page) && page < B48 && page !in sh
    ensures a in h.mem
    ensures var h' := h.(mem := h.mem[a := h.mem[a][i := FaultDesc(page)]]);
            && Ready(h', root, sh) && (page in h.mem ==> h'.mem[page] == h.mem[page])
            && Translate(h'.mem, root, PathOf(far)) == Mapped(page, FAULT_HI, FAULT_LO)
            && forall q: Path :: q.Ok() && q != PathOf(far) ==> Translate(h'.mem, root, q) == Translate(h.mem, root, q)
  {
    var m := h.mem[a := h.mem[a][i := FaultDesc(page)]];
    LeafWritten(h.mem, m, root, sh, a, PathOf(far), FaultDesc(page));
    WriteKeeps(h, m);
  }

  lemma Install(h0: Heap, h2: Heap, root: nat, sh: Shape, sh': Shape, far: nat, a: nat, i: nat)
    requires Ready(h0, root, sh) && h0.free > 0 && Aligned(h0.First()) && h0.First() < B48
    requires Refined(h0.Take(), h2, root, sh, sh') && LeafSlot(h2.mem, root, sh', far, a, i)
    ensures var page := h0.First();
            a in h2.mem &&
            Installed(h0, h2.(mem := h2.mem[a := h2.mem[a][i := FaultDesc(page)]]), root, sh, sh', PathOf(far), page)
  {
    hide WellFormed, LeafSlot, Translate;
    DataPageTaken(h0, root, sh);
    LeafInstalled(h2, root, sh', far, a, i, h0.First());
    InstallData(h0, h2, root, sh, sh', far, a, i, FaultDesc(h0.First()));
    hide DataKept;
  }

  lemma InstallData(h0: Heap, h2: Heap, root: nat, sh: Shape, sh': Shape, far: nat, a: nat, i: nat, d: Word)
    requires Ready(h0, root, sh) && h0.free > 0
    requires Refined(h0.Take(), h2, root, sh, sh') && LeafSlot(h2.mem, root, sh', far, a, i)
    ensures a in h2.mem && i < WORDS && DataKept(h0, h2.(mem := h2.mem[a := h2.mem[a][i := d]]), sh, sh')
  {
    TakeData(h0, root, sh);
    RefinedData(h0.Take(), h2, root, sh, sh');
    RefinedReady(h0.Take(), h2, root, sh, sh');
    hide Refined, DataKept;
    DataKeptTwice(h0, h0.Take(), h2, sh, sh, sh');
    TableWriteKeeps(h2, sh', a, h2.mem[a][i := d]);
    DataKeptTwice(h0, h2, h2.(mem := h2.mem[a := h2.mem[a][i := d]]), sh, sh', sh');
  }

  /** What the leaf slot holds is what the faulting page translated to before the fault. */
  lemma LeafBefore(h0: Heap, h2: Heap, root: nat, sh: Shape, sh': Shape, far: nat, a: nat, i: nat)
    requires Ready(h0, root, sh) && h0.free > 0
    requires Refined(h0.Take(), h2, root, sh, sh') && LeafSlot(h2.mem, root, sh', far, a, i)
    ensures a in h2.mem && i < WORDS && Translate(h0.mem, root, PathOf(far)) == At3(h2.mem[a][i])
    ensures Valid(h2.mem[a][i]) ==> IsTable(h2.mem[a][i])
  {
    DataPageTaken(h0, root, sh);
    var p := PathOf(far);
    assert Translate(h2.mem, root, p) == Translate(h0.Take().mem, root, p);
    ThroughSlot(h2.mem, h2.mem, root, sh', a, i, p);
    assert EntryOk(sh', sh'[a], i, Read(h2.mem, a, i));
  }

  /** The three levels of the pager's walk down to the leaf slot. */
  method DeepenToLeaf(ram: PageAllocator, pdir: nat, va: nat, ghost sh: Shape)
    returns (a: nat, ghost sh': Shape)
    requires Ready(ram.Now(), pdir, sh)
    modifies ram
    ensures Refined(old(ram.Now()), ram.Now(), pdir, sh, sh')
    ensures a != 0 ==> LeafSlot(ram.mem, pdir, sh', va, a, va / PAGE % 512)
    ensures a == 0 ==> old(ram.freePages) <= 2
  {
    hide Refined;
    ghost var h := ram.Now();
    var l1, l2, l3;
    ghost var sh1, sh2, sh3;
    l1, sh1 := Deepen(ram, pdir, va / B39 % 512, 0, pdir, sh);
    ghost var h1 := ram.Now();
    RefinedReady(h, h1, pdir, sh, sh1);
    if l1 == 0 { return 0, sh1; }
    l2, sh2 := Deepen(ram, l1, va / B30 % 512, 1, pdir, sh1);
    ghost var h2 := ram.Now();
    RefinedTwice(h, h1, h2, pdir, sh, sh1, sh2);
    RefinedReady(h, h2, pdir, sh, sh2);
    if l2 == 0 { return 0, sh2; }
    l3, sh3 := Deepen(ram, l2, va / B21 % 512, 2, pdir, sh2);
    RefinedTwice(h, h2, ram.Now(), pdir, sh, sh2, sh3);
    return l3, sh3;
  }

  lemma RefinedReady(h: Heap, h': Heap, root: nat, sh: Shape, sh': Shape)
    requires Refined(h, h', root, sh, sh')
    ensures Ready(h', root, sh')
  {}

  /** The fault walk under the lock: -28 over budget, -12 out of pages, 0 already mapped,
      2 left to the supervisor that registered the page, 1 installed. With four pages free
      the answer depends only on what the page translated to. */
  method FaultLocked(ram: PageAllocator, pdir: nat, far: nat, overBudget: bool, ghost sh: Shape)
    returns (r: int, ghost sh': Shape)
    requires Ready(ram.Now(), pdir, sh)
    modifies ram
    ensures r in {1, 0, 2, -12, -28}
    ensures r == 1 ==> Installed(old(ram.Now()), ram.Now(), pdir, sh, sh', PathOf(far), old(ram.Now().First()))
    ensures r == 1 ==>
              var t := Translate(ram.mem, pdir, PathOf(far));
              && t.Mapped? && t.frame == old(ram.Now().First())
              && t.lo % 8 == 0 && t.lo / 16 % 4 == 1                                    // Normal, read-write
              && t.lo / 64 % 4 == 3 && t.lo / 256 % 2 == 1 && t.lo / 512 % 2 == 1       // inner shareable, AF, nG
              && t.hi / 32 % 2 == 1 && t.hi / 64 % 2 == 1                               // PXN, UXN
    ensures r != 1 ==> GaveUp(old(ram.Now()), ram.Now(), pdir, sh, sh')
    ensures r == -28 <==> overBudget
    ensures r == -12 ==> old(ram.freePages) <= 3
    ensures var t := Translate(old(ram.mem), pdir, PathOf(far));
            && (r == 0 ==> t.Mapped?)
            && (r == 2 ==> t.Absent? && IsDemand(t.marker))
            && (r == 1 ==> t.Absent? && !IsDemand(t.marker))
  {
    hide Refined, GaveUp, Installed, Ready, SameTranslation, LeafSlot, Heap.Valid;
    sh' := sh;
    ghost var h := ram.Now();
    NothingDone(h, pdir, sh);
    var va := far / PAGE * PAGE;
    FarPage(far);
    if overBudget { return -28, sh; }
    var page := ram.Alloc();
    if page == 0 { return -12, sh; }
    DataPageTaken(h, pdir, sh);
    var a;
    a, sh' := DeepenToLeaf(ram, pdir, va, sh);
    ghost var h2 := ram.Now();
    GiveUp(h, h2, pdir, sh, sh');
    RefinedReady(h.Take(), h2, pdir, sh, sh');
    if a == 0 {
      ram.FreePage(page);
      return -12, sh';
    }
    var i := va / PAGE % 512;
    LeafBefore(h, h2, pdir, sh, sh', va, a, i);
    var d := ram.mem[a][i];
    if Valid(d) {
      ram.FreePage(page);
      return 0, sh';
    }
    if IsDemand(d) {
      ram.FreePage(page);
      return 2, sh';
    }
    Install(h, h2, pdir, sh, sh', va, a, i);
    ram.mem := ram.mem[a := ram.mem[a][i := FaultDesc(page)]];
    ServedIsWritable(h, ram.Now(), pdir, sh, sh', PathOf(far), page);
    return 1, sh';
  }

  lemma NothingDone(h: Heap, root: nat, sh: Shape)
    requires Ready(h, root, sh)
    ensures h.Valid() && GaveUp(h, h, root, sh, sh)
  {}

  /** far & !4095 has the table indices of far. */
  lemma FarPage(far: nat)
    ensures PathOf(far / PAGE * PAGE) == PathOf(far)
  {
    Quotients(far);
    Quotients(far / PAGE * PAGE);
  }

  /** The fault entry: refuses heap addresses, addresses outside the window, unusable roots
      and enrolled driver roots before any walk. */
  method HandleUserFault(ram: PageAllocator, drivers: DriverRoots, pdir: nat, far: nat, overBudget: bool,
                         ghost sh: Shape)
    returns (r: int, ghost sh': Shape)
    requires drivers.Valid() && (Usable(pdir) ==> Ready(ram.Now(), pdir, sh))
    modifies ram
    ensures var refused := || old(ram.start) <= far / PAGE * PAGE < old(ram.end)
                           || far < 0x0100_0000 || far > 0x10_0000_0000
                           || !Usable(pdir) || pdir in drivers.roots;
            && (refused ==> r == 0 && ram.Now() == old(ram.Now()))
            && (!refused ==>
                  && (r == 1 ==> Installed(old(ram.Now()), ram.Now(), pdir, sh, sh', PathOf(far),
                      old(ram.Now().First())))
                  && (r != 1 ==> GaveUp(old(ram.Now()), ram.Now(), pdir, sh, sh'))
                  && (old(ram.freePages) >= 4 && !overBudget ==>
                        var t := Translate(old(ram.mem), pdir, PathOf(far));
                        r == if t.Mapped? then 0 else if IsDemand(t.marker) then 2 else 1))
  {
    hide GaveUp, Installed, Ready;
    sh' := sh;
    if ram.end > ram.start && ram.start <= far / PAGE * PAGE < ram.end { return 0, sh; }
    if far < USER_VA_MIN || far > USER_VA_MAX { return 0, sh; }
    if pdir == 0 || pdir % PAGE != 0 { return 0, sh; }
    var isDriver := drivers.IsDriverRoot(pdir);
    if isDriver { return 0, sh; }
    r, sh' := FaultLocked(ram, pdir, far, overBudget, sh);
  }

  /** A page the pager installed carries execute-never bits above bit 47, and they stay in
      the address munmap frees: unmapping it clears the leaf but never returns the frame. */
  lemma PagerFramesAreNotReclaimed(h: Heap, page: nat)
    requires h.Valid() && h.InHeap(page)
    ensures page < B48 && !h.InHeap(Link(FaultDesc(page)))
    ensures h.Give(Link(FaultDesc(page))) == h
  {
    assert Link(FaultDesc(page)) >= B48;
  }
}
