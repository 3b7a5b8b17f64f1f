/** Walks that refine the tables of a root on the way down: the in-place block split and
    the walk to a leaf slot that mprotect, munmap and the demand pager share. */
module Walk {
  import opened Buddy
  import opened PageTables

  /** A root over the allocator's memory: tables well-formed, none of them a free page. */
  ghost predicate Ready(h: Heap, root: nat, sh: Shape) {
    && h.Valid()
    && WellFormed(h.mem, root, sh)
    && forall a :: a in sh ==> !h.Free(a)
  }

  /** The roots a walk accepts at all: page-aligned and not null. */
  predicate Usable(pdir: nat) { pdir != 0 && Aligned(pdir) }

  /** Held pages stay held, none of them became a table, and those that are no tables keep
      their contents. */
  ghost predicate DataKept(h: Heap, h': Heap, sh: Shape, sh': Shape) {
    && (forall q :: h.Held(q) ==> h'.Held(q) && (q in sh' ==> q in sh))
    && (forall q :: h.Held(q) && q in h.mem && q !in sh ==> q in h'.mem && h'.mem[q] == h.mem[q])
  }

  lemma DataKeptTwice(h0: Heap, h1: Heap, h2: Heap, sh0: Shape, sh1: Shape, sh2: Shape)
    requires DataKept(h0, h1, sh0, sh1) && DataKept(h1, h2, sh1, sh2)
    ensures DataKept(h0, h2, sh0, sh2)
  {}

  /** Writing into a table is no write to data. */
  lemma TableWriteKeeps(h: Heap, sh: Shape, a: nat, page: Page)
    requires a in sh
    ensures DataKept(h, h.(mem := h.mem[a := page]), sh, sh)
  {}

  /** h' is h with finer tables: every translation, every held page and every table
      is as before, and so are the contents of held pages that are no tables; pages have
     only left the free pool, and became tables. */
  ghost predicate Refined(h: Heap, h': Heap, root: nat, sh: Shape, sh': Shape) {
    && Ready(h', root, sh')
    && SameTranslation(h.mem, h'.mem, root)
    && h'.start == h.start && h'.end == h.end
    && (forall a :: a in sh ==> Linked(sh', a, sh[a]))
    && DataKept(h, h', sh, sh')
    && (forall q :: h'.Free(q) ==> h.Free(q))
    && (forall q :: h.Free(q) ==> h'.Free(q) || q in sh')
    && h'.free + |sh'| == h.free + |sh|
  }

  lemma RefinedData(h: Heap, h': Heap, root: nat, sh: Shape, sh': Shape)
    requires Refined(h, h', root, sh, sh')
    ensures DataKept(h, h', sh, sh')
  {}

  lemma RefinedTwice(h0: Heap, h1: Heap, h2: Heap, root: nat, sh0: Shape, sh1: Shape, sh2: Shape)
    requires Refined(h0, h1, root, sh0, sh1) && Refined(h1, h2, root, sh1, sh2)
    ensures Refined(h0, h2, root, sh0, sh2)
  {
    forall p: Path | p.Ok() ensures Translate(h2.mem, root, p) == Translate(h0.mem, root, p) {
      assert Translate(h1.mem, root, p) == Translate(h0.mem, root, p);
    }
    forall q | h0.Free(q) ensures h2.Free(q) || q in sh2 {
      if !h1.Free(q) { assert Linked(sh2, q, sh1[q]); }
    }
  }

  /** The memory after filling page t and linking slot i of table a to it. */
  function WithTable(m: Mem, a: nat, i: nat, t: nat, page: Page): Mem
    requires a in m && i < WORDS && Aligned(t) && t < B48
  {
    var m1 := m[t := page];
    m1[a := m1[a][i := TableDesc(t)]]
  }

  /** Taking the next free page, filling it and linking it leaves the allocator valid and
      hangs the page under the slot. */
  lemma TakenAndHung(h: Heap, h': Heap, root: nat, sh: Shape, a: nat, i: nat, page: Page)
    requires Ready(h, root, sh) && h.free > 0
    requires a in sh && !sh[a].L3? && i < WORDS
    requires Aligned(h.First()) && h.First() < B48
    requires h' == h.Take().(mem := WithTable(h.Take().mem, a, i, h.First(), page))
    ensures h'.Valid() && Hung(h.mem, h'.mem, sh, a, i, h.First()) && h'.mem[h.First()] == page
    ensures forall q :: h.Held(q) && q !in sh ==> h'.mem[q] == h.mem[q]
    ensures h'.Held(h.First()) && h.Free(h.First()) && h'.free == h.free - 1
    ensures forall q :: q != h.First() ==> (h'.Free(q) <==> h.Free(q)) && (h'.Held(q) <==> h.Held(q))
  {
    TakeKeeps(h);
    TakenFree(h);
    TablesHeld(h, root, sh);
    WithTableHung(h.mem, sh, a, i, h.First(), page);
    TakenWrite(h, h'.mem);
  }

  /** Linking a fresh table changes the linking slot and the table itself. */
  lemma WithTableHung(m: Mem, sh: Shape, a: nat, i: nat, t: nat, page: Page)
    requires a in sh && !sh[a].L3? && i < WORDS && Aligned(t) && 0 < t < B48 && t !in sh
    requires forall b :: b in sh ==> b in m
    ensures var m' := WithTable(m[t := ZeroPage()], a, i, t, page);
            && Hung(m, m', sh, a, i, t) && m'[t] == page && m'.Keys == m.Keys + {t}
            && forall q :: q in m && q != t && q != a ==> m'[q] == m[q]
  {}

  /** A write that spares free pages, after taking one. */
  lemma TakenWrite(h: Heap, m: Mem)
    requires h.Valid() && h.free > 0 && h.mem.Keys <= m.Keys
    requires forall q :: h.Free(q) && q in h.mem && q != h.First() ==> m[q] == h.mem[q]
    ensures var h' := h.Take().(mem := m);
            && h'.Valid() && h'.Held(h.First())
            && forall q :: q != h.First() ==> (h'.Free(q) <==> h.Free(q)) && (h'.Held(q) <==> h.Held(q))
  {
    TakeKeeps(h);
    TakenFree(h);
    hide Heap.Valid, Heap.Held, Heap.Free;
    WriteKeeps(h.Take(), m);
  }

  lemma TakenFree(h: Heap)
    requires h.Valid() && h.free > 0
    ensures h.Take().free == h.free - 1 && h.First() in h.mem && !h.Take().Free(h.First())
    ensures h.Take().mem == h.mem[h.First() := ZeroPage()] && 0 < h.First()
  {
    TakeKeeps(h);
  }

  lemma TablesHeld(h: Heap, root: nat, sh: Shape)
    requires Ready(h, root, sh)
    ensures forall b :: b in sh ==> b in h.mem && !h.Free(b)
  {}

  lemma FirstIsPage(h: Heap)
    requires h.Valid() && h.free > 0
    ensures Aligned(h.First()) && 0 < h.First() < B48
  {
    TakeKeeps(h);
  }

  /** A hung page that preserves every translation is a refinement. */
  lemma HungRefines(h: Heap, h': Heap, root: nat, sh: Shape, a: nat, i: nat)
    requires Ready(h, root, sh) && h.free > 0 && h'.Valid()
    requires Hung(h.mem, h'.mem, sh, a, i, h.First())
    requires WellFormed(h'.mem, root, sh[h.First() := sh[a].Child(i)])
    requires SameTranslation(h.mem, h'.mem, root)
    requires h'.start == h.start && h'.end == h.end && h'.free == h.free - 1
    requires h'.Held(h.First()) && h.Free(h.First())
    requires forall q :: h.Held(q) && q !in sh ==> h'.mem[q] == h.mem[q]
    requires forall q :: q != h.First() ==> (h'.Free(q) <==> h.Free(q)) && (h'.Held(q) <==> h.Held(q))
    ensures Refined(h, h', root, sh, sh[h.First() := sh[a].Child(i)])
  {
    hide WellFormed, Translate, Heap.Valid, Heap.First, Heap.Held, Heap.Free, EntryOk;
    var sh' := sh[h.First() := sh[a].Child(i)];
    assert sh'.Keys == sh.Keys + {h.First()};
    HeldInMemory(h);
    HeldInMemory(h');
    NewTableData(h, h', sh, h.First(), sh[a].Child(i));
  }

  lemma HeldInMemory(h: Heap)
    requires h.Valid()
    ensures forall q :: h.Held(q) ==> q in h.mem && !h.Free(q)
  {}

  /** One free page became a table. */
  lemma NewTableData(h: Heap, h': Heap, sh: Shape, t: nat, at: Prefix)
    requires h.Valid() && h'.Valid() && h.Free(t) && h'.start == h.start && h'.end == h.end
    requires forall q :: h.Held(q) && q !in sh ==> h'.mem[q] == h.mem[q]
    requires forall q :: q != t ==> (h'.Held(q) <==> h.Held(q))
    ensures DataKept(h, h', sh, sh[t := at])
  {
    hide Heap.Held, Heap.Free;
    HeldInMemory(h);
    HeldInMemory(h');
  }

  lemma SelfRefined(h: Heap, root: nat, sh: Shape)
    requires Ready(h, root, sh)
    ensures Refined(h, h, root, sh, sh)
  {}

  /** Fills the table that replaces a block. */
  method FillSplit(d: Word, level: int, ghost at: Prefix) returns (page: Page)
    requires !IsTable(d) && (level == 1 <==> at.L1?) && (level == 2 <==> at.L2?) && (at.L1? || at.L2?)
    ensures page == SplitPage(at, d)
  {
    page := seq(WORDS, _ => 0);
    for j := 0 to WORDS
      invariant forall k :: 0 <= k < j ==> page[k] == SplitPage(at, d)[k]
    {
      page := page[j := if level == 1 then Split1(d, j) else Split2(d, j)];
    }
  }

  /** Splits a block descriptor in place. A null slot or another level is refused; an
      invalid entry or a table is left alone; without a page nothing changes. */
  method SplitSlot(ram: PageAllocator, a: nat, i: nat, level: int, ghost root: nat, ghost sh: Shape)
    returns (ok: bool, ghost sh': Shape)
    requires Ready(ram.Now(), root, sh) && i < WORDS
    requires a != 0 ==> a in sh && TableAt(ram.mem, root, sh[a]) == a
    requires a != 0 ==> (level == 1 ==> sh[a].L1?) && (level == 2 ==> sh[a].L2?)
    modifies ram
    ensures Refined(old(ram.Now()), ram.Now(), root, sh, sh')
    ensures ok <==> a != 0 && (level == 1 || level == 2)
                    && var d := old(Read(ram.mem, a, i)); (!Valid(d) || IsTable(d) || old(ram.freePages) > 0)
    ensures !ok || (var d := old(Read(ram.mem, a, i)); !Valid(d) || IsTable(d))
            ==> ram.Now() == old(ram.Now()) && sh' == sh
    ensures var d := old(Read(ram.mem, a, i)); ok && Valid(d) && !IsTable(d) ==>
              && sh' == sh[old(ram.Now().First()) := sh[a].Child(i)]
              && TableAt(ram.mem, root, sh[a].Child(i)) == old(ram.Now().First())
              && Follow(ram.mem, a, i) == old(ram.Now().First())
  {
    hide Refined;
    sh' := sh;
    ghost var h := ram.Now();
    SelfRefined(h, root, sh);
    if a == 0 || (level != 1 && level != 2) { return false, sh; }
    var d := ram.mem[a][i];
    if !Valid(d) || IsTable(d) { return true, sh; }
    var child := ram.Alloc();
    if child == 0 { return false, sh; }
    FirstIsPage(h);
    var page := FillSplit(d, level, sh[a]);
    ram.mem := ram.mem[child := page];
    ram.mem := ram.mem[a := ram.mem[a][i := TableDesc(child)]];
    TakenAndHung(h, ram.Now(), root, sh, a, i, page);
    HangSplit(h.mem, ram.mem, root, sh, a, i, child);
    HungRefines(h, ram.Now(), root, sh, a, i);
    return true, sh[child := sh[a].Child(i)];
  }

  /** One level of a walk that may not stop at a block: follows the table link in slot i,
      splitting a block first. 0 when the entry is invalid, or when the split got no
      page (`starved`). */
  method Descend(ram: PageAllocator, a: nat, i: nat, level: int, ghost root: nat, ghost sh: Shape)
    returns (t: nat, ghost sh': Shape, ghost starved: bool)
    requires Ready(ram.Now(), root, sh) && i < WORDS
    requires a in sh && TableAt(ram.mem, root, sh[a]) == a
    requires (level == 1 && sh[a].L1?) || (level == 2 && sh[a].L2?)
    modifies ram
    ensures Refined(old(ram.Now()), ram.Now(), root, sh, sh')
    ensures ram.freePages + 1 >= old(ram.freePages)
    ensures t != 0 ==> Linked(sh', t, sh[a].Child(i)) && TableAt(ram.mem, root, sh[a].Child(i)) == t
    ensures t == 0 ==> starved || !Valid(old(Read(ram.mem, a, i)))
    ensures starved ==> t == 0 && old(ram.freePages) == ram.freePages == 0
  {
    sh' := sh;
    starved := false;
    var d := ram.mem[a][i];
    assert EntryOk(sh, sh[a], i, Read(ram.mem, a, i));
    if !Valid(d) { return 0, sh, false; }
    if !IsTable(d) {
      var ok;
      ok, sh' := SplitSlot(ram, a, i, level, root, sh);
      if !ok { return 0, sh', true; }
    }
    var d' := ram.mem[a][i];
    t := Link(d');
  }

  /** What a walk to the leaf slot of va reports: the slot of the page's own leaf entry. */
  ghost predicate LeafSlot(m: Mem, root: nat, sh: Shape, va: nat, a: nat, i: nat) {
    var p := PathOf(va);
    && i == p.i3
    && Linked(sh, a, L3(p.i0, p.i1, p.i2))
    && TableAt(m, root, L3(p.i0, p.i1, p.i2)) == a
  }

  /** The slot of va's leaf entry, splitting the blocks on the way; (0, 0) when the root is
      unusable, when an upper entry is invalid, or when a split got no page. */
  method LeafEntry(ram: PageAllocator, pdir: nat, va: nat, ghost sh: Shape)
    returns (a: nat, i: nat, ghost sh': Shape, ghost starved: bool)
    requires Usable(pdir) ==> Ready(ram.Now(), pdir, sh)
    modifies ram
    ensures !Usable(pdir) ==> a == 0 && !starved && ram.Now() == old(ram.Now())
    ensures Usable(pdir) ==>
              && Refined(old(ram.Now()), ram.Now(), pdir, sh, sh')
              && ram.freePages + 2 >= old(ram.freePages)
              && (a != 0 ==> LeafSlot(ram.mem, pdir, sh', va, a, i))
              && (a == 0 && !starved ==> Translate(old(ram.mem), pdir, PathOf(va)) == Absent(0))
    ensures starved ==> a == 0 && ram.freePages == 0 && old(ram.freePages) <= 1
  {
    sh', starved := sh, false;
    if pdir == 0 || pdir % PAGE != 0 { return 0, 0, sh, false; }
    ghost var h := ram.Now();
    var i0 := va / B39 % 512;
    var d0 := ram.mem[pdir][i0];
    assert EntryOk(sh, Root, i0, Read(ram.mem, pdir, i0));
    if !Valid(d0) { return 0, 0, sh, false; }
    var l1 := Link(d0);
    if l1 == 0 { return 0, 0, sh, false; }
    var l2, l3;
    ghost var sh1, sh2;
    l2, sh1, starved := Descend(ram, l1, va / B30 % 512, 1, pdir, sh);
    ghost var h1 := ram.Now();
    if l2 == 0 { return 0, 0, sh1, starved; }
    l3, sh2, starved := Descend(ram, l2, va / B21 % 512, 2, pdir, sh1);
    RefinedTwice(h, h1, ram.Now(), pdir, sh, sh1, sh2);
    if l3 == 0 {
      assert Translate(h1.mem, pdir, PathOf(va)) == Translate(h.mem, pdir, PathOf(va));
      return 0, 0, sh2, starved;
    }
    return l3, va / PAGE % 512, sh2, false;
  }
}
