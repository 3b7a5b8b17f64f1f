/** The VM system calls that rewrite leaf entries page by page: mprotect and munmap. */
module Vm {
  import opened Layout
  import opened Arithmetic
  import opened Buddy
  import opened PageTables
  import opened Walk

  const U64 := 0x1_0000_0000_0000_0000

  const EINVAL := 22
  const ENOTSUP := 95
  const ENOMEM := 12

  predicate InRange(p: Path, lo: int, hi: int) { lo <= p.Va() < hi }

  /** PathOf(va) is the only page at va. */
  lemma OnlyPageAt(va: nat)
    requires va < B48
    ensures forall p: Path :: p.Ok() ==> (p.Va() == va / PAGE * PAGE <==> p == PathOf(va))
    ensures forall p: Path :: p.Ok() ==> p.Va() % PAGE == 0
  {
    VaOfPath(va);
    forall p: Path | p.Ok() ensures PathOf(p.Va()) == p && p.Va() % PAGE == 0 {
      PathOfVa(p);
    }
  }

  // ---- mprotect ----

  /** Bits 6..7 of the descriptor are bits 4..5 of the attribute field. */
  function WithAp(t: Translation, ap: nat): Translation {
    if t.Mapped? then t.(lo := t.lo - t.lo / 16 % 4 * 16 + ap * 16) else t
  }

  /** The permission field becomes ap and every other field stays. */
  lemma WithApFields(t: Translation, ap: nat)
    requires t.Mapped? && ap < 4
    ensures var r := WithAp(t, ap);
            && r.Mapped? && r.frame == t.frame && r.hi == t.hi
            && r.lo / 16 % 4 == ap && r.lo % 16 == t.lo % 16 && r.lo / 64 == t.lo / 64
  {
    var x, low := Parts(t.lo, 16);
    var k, o := Parts(x, 4);
    assert t.lo == (k * 4 + o) * 16 + low;
    var r := (k * 4 + ap) * 16 + low;
    assert WithAp(t, ap).lo == r;
    DivMod(k * 4 + ap, 16, low);
    DivMod(k, 4, ap);
    DivMod(k, 64, ap * 16 + low);
    DivMod(k, 64, o * 16 + low);
  }

  /** (d & !PTE_AP_MASK) | ap << 6 */
  function ApDesc(d: Word, ap: nat): Word
    requires ap < 4
  {
    d - d / 64 % 4 * 64 + ap * 64
  }

  lemma ApDescFields(d: Word, ap: nat)
    requires ap < 4
    ensures Valid(ApDesc(d, ap)) == Valid(d) && IsTable(ApDesc(d, ap)) == IsTable(d)
    ensures Valid(d) && IsTable(d) ==> At3(ApDesc(d, ap)) == WithAp(At3(d), ap)
  {
    var x, low := Parts(d, 64);
    var z, o := Parts(x, 4);
    var y, k := Parts(z, 16);
    assert d == y * PAGE + (k * 256 + o * 64 + low);
    ApWord(y, k, o, low, ap);
  }

  lemma ApWord(y: nat, k: nat, o: nat, low: nat, ap: nat)
    requires y < 0x10_0000_0000_0000 && k < 16 && o < 4 && low < 64 && ap < 4
    ensures var d: Word := y * PAGE + (k * 256 + o * 64 + low);
            var c: Word := y * PAGE + (k * 256 + ap * 64 + low);
            && Valid(c) == Valid(d) && IsTable(c) == IsTable(d)
            && Hi(c) == Hi(d) && Frame(c) == Frame(d)
            && Lo(d) / 16 % 4 == o && Lo(c) == Lo(d) - o * 16 + ap * 16
  {
    ApLow(k, o, low, ap);
    var r, r' := k * 256 + o * 64 + low, k * 256 + ap * 64 + low;
    LowBits(y, r);
    LowBits(y, r');
    PageOf(y, r);
    PageOf(y, r');
  }

  lemma ApLow(k: nat, o: nat, low: nat, ap: nat)
    requires k < 16 && o < 4 && low < 64 && ap < 4
    ensures var r := k * 256 + o * 64 + low; var c := k * 256 + ap * 64 + low;
            && r < PAGE && c < PAGE && c % 2 == r % 2 && c / 2 % 2 == r / 2 % 2
            && r / 4 / 16 % 4 == o && c / 4 == r / 4 - o * 16 + ap * 16
  {
    var q, b := Parts(low, 4);
    LowField(k, o, q, b);
    LowField(k, ap, q, b);
  }

  lemma LowField(k: nat, o: nat, q: nat, b: nat)
    requires k < 16 && o < 4 && q < 16 && b < 4
    ensures var r := k * 256 + o * 64 + (q * 4 + b);
            && r < PAGE && r % 2 == b % 2 && r / 2 % 2 == b / 2 && r / 4 == k * 64 + o * 16 + q && r / 4 / 16 % 4 == o
  {
    DivMod(k * 64 + o * 16 + q, 4, b);
    DivMod(k * 4 + o, 16, q);
    DivMod(k, 4, o);
    Half(k * 128 + o * 32 + q * 2, b);
    Half(k * 64 + o * 16 + q, b / 2);
  }

  lemma PageOf(y: nat, low: nat)
    requires low < PAGE
    ensures (y * PAGE + low) / B48 == y / 0x10_0000_0000
    ensures (y * PAGE + low) % B48 / PAGE == y % 0x10_0000_0000
  {}

  /** Exactly the pages of [lo, hi) got the new access permissions; all of them were mapped. */
  ghost predicate Protected(m0: Mem, m: Mem, root: nat, lo: nat, hi: nat, ap: nat) {
    forall p: Path :: p.Ok() ==>
      var t0 := Translate(m0, root, p);
      if InRange(p, lo, hi) then t0.Mapped? && Translate(m, root, p) == WithAp(t0, ap)
      else Translate(m, root, p) == t0
  }

  lemma ProtectedNext(m0: Mem, m: Mem, m': Mem, root: nat, lo: nat, va: nat, ap: nat)
    requires Protected(m0, m, root, lo, va, ap)
    requires lo % PAGE == va % PAGE == 0 && lo <= va < B48
    requires Translate(m, root, PathOf(va)).Mapped?
    requires Translate(m', root, PathOf(va)) == WithAp(Translate(m, root, PathOf(va)), ap)
    requires forall q: Path :: q.Ok() && q != PathOf(va) ==> Translate(m', root, q) == Translate(m, root, q)
    ensures Protected(m0, m', root, lo, va + PAGE, ap)
  {
    hide Translate;
    OnlyPageAt(va);
    forall p: Path | p.Ok()
      ensures var t0 := Translate(m0, root, p);
              if InRange(p, lo, va + PAGE) then t0.Mapped? && Translate(m', root, p) == WithAp(t0, ap)
              else Translate(m', root, p) == t0
    {}
  }

  /** prot & !(READ|WRITE|EXEC) == 0. */
  predicate KnownProt(prot: int) { 0 <= prot <= 7 }

  /** Bytes rounded up to whole pages. */
  function RoundUp(len: nat): (r: nat)
    ensures r % 4096 == 0 && len <= r < len + 4096
  {
    (len + PAGE - 1) / PAGE * PAGE
  }

  /** The refusals that happen before the walk. */
  function ProtectRefusal(addr: nat, len: nat, prot: int): int {
    if addr == 0 || len == 0 || !KnownProt(prot) then EINVAL
    else if prot / 4 % 2 == 1 then ENOTSUP
    else if len + PAGE - 1 >= U64 || addr % PAGE != 0 || addr + RoundUp(len) >= U64 then EINVAL
    else if addr < USER_VA_MIN || addr + RoundUp(len) > USER_VA_MAX + 1 then ENOMEM
    else 0
  }

  /** Toggles write permission page by page. Success changes the access permission of every
      page in the range and nothing else; a failure mid-walk leaves a changed prefix. The
      refusals are EINVAL (22), ENOTSUP (95) and ENOMEM (12); a protection is a sum of 1 for
      reading, 2 for writing and 4 for executing. */
  method Mprotect(ram: PageAllocator, pdir: nat, addr: nat, len: nat, prot: int, ghost sh: Shape)
    returns (r: int, errno: int, ghost sh': Shape, ghost upTo: nat)
    requires addr < U64 && len < U64
    requires Usable(pdir) ==> Ready(ram.Now(), pdir, sh)
    modifies ram
    ensures Usable(pdir) ==> Ready(ram.Now(), pdir, sh') && DataKept(old(ram.Now()), ram.Now(), sh, sh')
    ensures r == if errno == 0 then 0 else -1
    ensures errno == 95 <==> addr != 0 && len != 0 && 4 <= prot <= 7
    ensures errno == 12 <==>
              && addr != 0 && len != 0 && 0 <= prot <= 3 && addr % 4096 == 0
              && len + 4095 < 0x1_0000_0000_0000_0000 && addr + RoundUp(len) < 0x1_0000_0000_0000_0000
              && (addr < 0x0100_0000 || addr + RoundUp(len) > 0x10_0000_0000)
    ensures Walked(addr, len, prot) <==>
              && 0 <= prot <= 3 && len != 0 && addr % 4096 == 0
              && 0x0100_0000 <= addr && addr + RoundUp(len) <= 0x10_0000_0000
    ensures !Walked(addr, len, prot) ==> r == -1 && ram.Now() == old(ram.Now())
    ensures errno == 22 <==> r == -1 && errno != 95 && errno != 12
    ensures Walked(addr, len, prot) && !Usable(pdir) ==> errno == 22 && ram.Now() == old(ram.Now())
    ensures Walked(addr, len, prot) && Usable(pdir) ==>
              && addr <= upTo <= addr + RoundUp(len)
              && Protected(old(ram.mem), ram.mem, pdir, addr, upTo, if prot == 2 || prot == 3 then 1 else 3)
              && (r == 0 <==> upTo == addr + RoundUp(len))
              && (r == -1 ==> Translate(old(ram.mem), pdir, PathOf(upTo)).Absent? || ram.freePages == 0)
    ensures Walked(addr, len, prot) && Usable(pdir) && old(ram.freePages) >= 2 * (RoundUp(len) / 4096) ==>
              (r == 0 <==> AllMapped(old(ram.mem), pdir, addr, addr + RoundUp(len)))
  {
    hide Ready, Translate, DataKept, Protected, RoundUp;
    RefusalExactly(addr, len, prot);
    NothingYet(ram.Now(), pdir, sh, addr, 3);
    sh', upTo := sh, addr;
    errno := ProtectRefusal(addr, len, prot);
    if errno != 0 { return -1, errno, sh, addr; }
    hide ProtectRefusal;
    var wantRw := prot / 2 % 2 == 1;
    var hi := addr + RoundUp(len);
    var failed;
    failed, sh', upTo := ProtectRange(ram, pdir, addr, hi, if wantRw then 1 else 3, sh);
    if Usable(pdir) { FailedExactly(old(ram.mem), ram.mem, pdir, addr, upTo, hi, if wantRw then 1 else 3); }
    if failed { return -1, EINVAL, sh', upTo; }
    return 0, 0, sh', upTo;
  }

  /** The request passes every test before the walk. */
  predicate Walked(addr: nat, len: nat, prot: int) { ProtectRefusal(addr, len, prot) == 0 }

  /** The refusals, each by what is asked for. */
  lemma RefusalExactly(addr: nat, len: nat, prot: int)
    requires addr < U64 && len < U64
    ensures ProtectRefusal(addr, len, prot) == 95 <==> addr != 0 && len != 0 && 4 <= prot <= 7
    ensures ProtectRefusal(addr, len, prot) == 12 <==>
              && addr != 0 && len != 0 && 0 <= prot <= 3 && addr % 4096 == 0
              && len + 4095 < 0x1_0000_0000_0000_0000 && addr + RoundUp(len) < 0x1_0000_0000_0000_0000
              && (addr < 0x0100_0000 || addr + RoundUp(len) > 0x10_0000_0000)
    ensures ProtectRefusal(addr, len, prot) == 0 <==>
              && 0 <= prot <= 3 && len != 0 && addr % 4096 == 0
              && 0x0100_0000 <= addr && addr + RoundUp(len) <= 0x10_0000_0000
    ensures ProtectRefusal(addr, len, prot) in {0, 12, 22, 95}
    ensures 0 <= prot <= 3 ==> (prot / 2 % 2 == 1 <==> prot == 2 || prot == 3)
  {
    if addr % 4096 == 0 { EndAligned(addr, len); }
    hide RoundUp;
  }

  lemma EndAligned(addr: nat, len: nat)
    requires addr % 4096 == 0
    ensures (addr + RoundUp(len)) % 4096 == 0 && addr + RoundUp(len) != 0x10_0000_0001
  {}

  ghost predicate AllMapped(m: Mem, root: nat, lo: nat, hi: nat) {
    forall p: Path :: p.Ok() && InRange(p, lo, hi) ==> Translate(m, root, p).Mapped?
  }

  lemma FailedExactly(m0: Mem, m: Mem, root: nat, lo: nat, upTo: nat, hi: nat, ap: nat)
    requires Protected(m0, m, root, lo, upTo, ap) && lo <= upTo <= hi <= B48 && Aligned(upTo) && Aligned(hi)
    ensures upTo == hi ==> AllMapped(m0, root, lo, hi)
    ensures upTo < hi && Translate(m0, root, PathOf(upTo)).Absent? ==> !AllMapped(m0, root, lo, hi)
  {
    if upTo < hi { VaOfPath(upTo); }
  }

  /** The mprotect loop over [lo, hi). */
  method ProtectRange(ram: PageAllocator, pdir: nat, lo: nat, hi: nat, ap: nat, ghost sh: Shape)
    returns (failed: bool, ghost sh': Shape, ghost upTo: nat)
    requires (Usable(pdir) ==> Ready(ram.Now(), pdir, sh)) && ap < 4
    requires Aligned(lo) && Aligned(hi) && lo < hi <= B48
    modifies ram
    ensures !Usable(pdir) ==> failed && ram.Now() == old(ram.Now())
    ensures Usable(pdir) ==> Ready(ram.Now(), pdir, sh') && DataKept(old(ram.Now()), ram.Now(), sh, sh')
    ensures Usable(pdir) ==>
              lo <= upTo <= hi && Aligned(upTo) && Protected(old(ram.mem), ram.mem, pdir, lo, upTo, ap)
    ensures Usable(pdir) && !failed ==> upTo == hi
    ensures Usable(pdir) && failed ==>
              && upTo < hi
              && (|| Translate(old(ram.mem), pdir, PathOf(upTo)).Absent?
                  || (ram.freePages == 0 && old(ram.freePages) < 2 * ((hi - lo) / PAGE)))
  {
    hide Ready, Protected, Usable, DataKept;
    sh', upTo := sh, lo;
    var va := lo;
    ghost var h0, k := ram.Now(), 0;
    NothingYet(h0, pdir, sh, lo, ap);
    while va < hi
      invariant lo <= va <= hi && Aligned(va) && va == lo + k * PAGE
      invariant Usable(pdir) ==> Ready(ram.Now(), pdir, sh') && Protected(old(ram.mem), ram.mem, pdir, lo, va, ap)
      invariant Usable(pdir) ==> DataKept(h0, ram.Now(), sh, sh') && ram.freePages + 2 * k >= h0.free
      invariant !Usable(pdir) ==> va == lo && ram.Now() == old(ram.Now())
    {
      ghost var h1, sh1 := ram.Now(), sh';
      failed, sh' := ProtectPage(ram, pdir, va, ap, sh', lo, old(ram.mem));
      if Usable(pdir) { DataKeptTwice(h0, h1, ram.Now(), sh, sh1, sh'); }
      NextPage(va, hi);
      PagesLeft(lo, k, hi);
      if failed { return true, sh', va; }
      va := va + PAGE;
      k := k + 1;
    }
    return false, sh', va;
  }

  lemma PagesLeft(lo: nat, k: nat, hi: nat)
    requires lo + k * PAGE + PAGE <= hi
    ensures k + 1 <= (hi - lo) / PAGE
  {}

  lemma NothingYet(h: Heap, root: nat, sh: Shape, lo: nat, ap: nat)
    ensures Protected(h.mem, h.mem, root, lo, lo, ap) && DataKept(h, h, sh, sh)
  {}

  lemma NextPage(va: nat, hi: nat)
    requires Aligned(va) && Aligned(hi) && va < hi
    ensures va + PAGE <= hi && Aligned(va + PAGE)
  {}

  lemma LeafTranslates(m: Mem, root: nat, sh: Shape, va: nat, a: nat, i: nat)
    requires WellFormed(m, root, sh) && LeafSlot(m, root, sh, va, a, i)
    ensures Translate(m, root, PathOf(va)) == At3(Read(m, a, i))
  {
    ThroughSlot(m, m, root, sh, a, i, PathOf(va));
  }

  lemma LeafIsTable(m: Mem, root: nat, sh: Shape, va: nat, a: nat, i: nat)
    requires LeafSlot(m, root, sh, va, a, i)
    ensures a in sh && i < WORDS
  {}

  /** What the walk found at va is what va translated to before the walk. */
  lemma StillAbsent(h1: Heap, h2: Heap, root: nat, sh: Shape, sh': Shape, va: nat, a: nat, i: nat)
    requires Refined(h1, h2, root, sh, sh') && (a != 0 ==> LeafSlot(h2.mem, root, sh', va, a, i))
    ensures Translate(h2.mem, root, PathOf(va)) == Translate(h1.mem, root, PathOf(va))
    ensures a != 0 ==> a in h2.mem && i < WORDS && Translate(h2.mem, root, PathOf(va)) == At3(Read(h2.mem, a, i))
  {
    if a != 0 { LeafTranslates(h2.mem, root, sh', va, a, i); }
  }

  /** One round of the mprotect loop. */
  method ProtectPage(ram: PageAllocator, pdir: nat, va: nat, ap: nat, ghost sh: Shape, ghost lo: nat, ghost m0: Mem)
    returns (failed: bool, ghost sh': Shape)
    requires (Usable(pdir) ==> Ready(ram.Now(), pdir, sh) && Protected(m0, ram.mem, pdir, lo, va, ap)) && ap < 4
    requires lo % PAGE == va % PAGE == 0 && lo <= va < B48
    modifies ram
    ensures !Usable(pdir) ==> failed && ram.Now() == old(ram.Now())
    ensures Usable(pdir) ==> Ready(ram.Now(), pdir, sh') && DataKept(old(ram.Now()), ram.Now(), sh, sh')
    ensures Usable(pdir) && failed ==>
              && Protected(m0, ram.mem, pdir, lo, va, ap)
              && (|| Translate(m0, pdir, PathOf(va)).Absent?
                  || (ram.freePages == 0 && old(ram.freePages) <= 1))
    ensures Usable(pdir) ==> ram.freePages + 2 >= old(ram.freePages)
    ensures Usable(pdir) && !failed ==> Protected(m0, ram.mem, pdir, lo, va + PAGE, ap)
  {
    hide Ready, Protected, Refined, LeafSlot, Translate, DataKept;
    ghost var h1 := ram.Now();
    var a, i;
    ghost var starved;
    a, i, sh', starved := LeafEntry(ram, pdir, va, sh);
    if Usable(pdir) {
      ProtectedSame(m0, h1, ram.Now(), pdir, sh, sh', lo, va, ap);
      StillAbsent(h1, ram.Now(), pdir, sh, sh', va, a, i);
      RefinedData(h1, ram.Now(), pdir, sh, sh');
    }
    if a == 0 { return true, sh'; }
    var d := ram.mem[a][i];
    if !Valid(d) { return true, sh'; }
    ghost var h2 := ram.Now();
    ProtectedLeaf(m0, h2, pdir, sh', lo, va, ap, a, i);
    LeafIsTable(h2.mem, pdir, sh', va, a, i);
    TableWriteKeeps(h2, sh', a, ram.mem[a][i := ApDesc(d, ap)]);
    DataKeptTwice(h1, h2, h2.(mem := h2.mem[a := h2.mem[a][i := ApDesc(d, ap)]]), sh, sh', sh');
    ram.mem := ram.mem[a := ram.mem[a][i := ApDesc(d, ap)]];
    return false, sh';
  }

  /** Rewriting the permission field of the leaf at va. */
  lemma ProtectedLeaf(m0: Mem, h: Heap, root: nat, sh: Shape, lo: nat, va: nat, ap: nat, a: nat, i: nat)
    requires Ready(h, root, sh) && LeafSlot(h.mem, root, sh, va, a, i) && Valid(Read(h.mem, a, i)) && ap < 4
    requires Protected(m0, h.mem, root, lo, va, ap) && lo % PAGE == va % PAGE == 0 && lo <= va < B48
    ensures var h' := h.(mem := h.mem[a := h.mem[a][i := ApDesc(h.mem[a][i], ap)]]);
            Ready(h', root, sh) && Protected(m0, h'.mem, root, lo, va + PAGE, ap)
  {
    var d := Read(h.mem, a, i);
    var m := h.mem[a := h.mem[a][i := ApDesc(d, ap)]];
    assert EntryOk(sh, sh[a], i, d);
    ApDescFields(d, ap);
    LeafWritten(h.mem, m, root, sh, a, PathOf(va), ApDesc(d, ap));
    WriteKeeps(h, m);
    ProtectedNext(m0, h.mem, m, root, lo, va, ap);
  }

  lemma ProtectedSame(m0: Mem, h1: Heap, h2: Heap, root: nat, sh: Shape, sh': Shape, lo: nat, va: nat, ap: nat)
    requires Protected(m0, h1.mem, root, lo, va, ap) && Refined(h1, h2, root, sh, sh')
    requires lo % PAGE == va % PAGE == 0 && lo <= va < B48
    ensures Protected(m0, h2.mem, root, lo, va, ap) && Ready(h2, root, sh')
    ensures Translate(h1.mem, root, PathOf(va)) == Translate(m0, root, PathOf(va))
  {
    OnlyPageAt(va);
    forall p: Path | p.Ok()
      ensures var t0 := Translate(m0, root, p);
              if InRange(p, lo, va) then t0.Mapped? && Translate(h2.mem, root, p) == WithAp(t0, ap)
              else Translate(h2.mem, root, p) == t0
    {
      assert Translate(h2.mem, root, p) == Translate(h1.mem, root, p);
    }
    assert !InRange(PathOf(va), lo, va);
  }

  // ---- munmap ----

  /** A Normal leaf whose frame the page allocator takes back: its descriptor carries no
      high attribute bits, since those stay in the address that is freed. */
  ghost predicate GivesBack(h: Heap, t: Translation) {
    t.Mapped? && !IsDevice(t.lo) && t.hi == 0 && h.InHeap(t.frame)
  }

  /** Every mapped page of [lo, hi) became absent, or kept its translation when some split
      got no page; absent pages and every page outside kept theirs. */
  ghost predicate Cleared(m0: Mem, m: Mem, root: nat, lo: nat, hi: nat, starved: bool) {
    forall p: Path :: p.Ok() ==>
      var t0, t := Translate(m0, root, p), Translate(m, root, p);
      if InRange(p, lo, hi) && t0.Mapped? then t == Absent(0) || (starved && t == t0)
      else t == t0
  }

  /** What munmap asks of its caller: each frame it would give back is a held page, is no
      table of the root, and is named by one page of the range only. */
  ghost predicate Owned(h0: Heap, h: Heap, root: nat, sh: Shape, lo: nat, hi: nat) {
    && (forall p: Path :: p.Ok() && InRange(p, lo, hi) && GivesBack(h0, Translate(h0.mem, root, p)) ==>
          var f := Translate(h0.mem, root, p).frame; h.Held(f) && f !in sh)
    && (forall p: Path, q: Path ::
          p.Ok() && q.Ok() && InRange(p, lo, hi) && InRange(q, lo, hi) && p != q
          && GivesBack(h0, Translate(h0.mem, root, p)) && GivesBack(h0, Translate(h0.mem, root, q))
          ==> Translate(h0.mem, root, p).frame != Translate(h0.mem, root, q).frame)
  }

  /** The pages that became free are frames of Normal leaves of [lo, hi), never a Device
      page; and unless a split starved, each such frame is free again or serves as a table. */
  ghost predicate Returned(h0: Heap, h: Heap, root: nat, sh: Shape, lo: nat, hi: nat, starved: bool) {
    && (forall f :: h.Free(f) && !h0.Free(f) ==>
          exists p: Path :: p.Ok() && InRange(p, lo, hi)
                      && GivesBack(h0, Translate(h0.mem, root, p)) && Translate(h0.mem, root, p).frame == f)
    && (!starved ==> forall p: Path :: p.Ok() && InRange(p, lo, hi) && GivesBack(h0, Translate(h0.mem, root, p)) ==>
          var f := Translate(h0.mem, root, p).frame; h.Free(f) || f in sh)
  }

  /** f is the frame of a page of [lo, hi) that is given back. */
  ghost predicate Named(h0: Heap, root: nat, f: nat, lo: nat, hi: nat) {
    exists p: Path :: p.Ok() && InRange(p, lo, hi)
                && GivesBack(h0, Translate(h0.mem, root, p)) && Translate(h0.mem, root, p).frame == f
  }

  /** Held pages that are no tables and no frames given back stay so, with their contents. */
  ghost predicate Untouched(h0: Heap, h: Heap, root: nat, sh0: Shape, sh: Shape, lo: nat, hi: nat) {
    forall q :: h0.Held(q) && q !in sh0 && !Named(h0, root, q, lo, hi) ==>
      h.Held(q) && q !in sh && (q in h0.mem ==> q in h.mem && h.mem[q] == h0.mem[q])
  }

  lemma UntouchedKept(h0: Heap, h1: Heap, h2: Heap, root: nat, sh0: Shape, sh1: Shape, sh2: Shape, lo: nat, hi: nat)
    requires Untouched(h0, h1, root, sh0, sh1, lo, hi) && DataKept(h1, h2, sh1, sh2)
    ensures Untouched(h0, h2, root, sh0, sh2, lo, hi)
  {
    hide Named;
  }

  lemma UntouchedWider(h0: Heap, h: Heap, root: nat, sh0: Shape, sh: Shape, lo: nat, va: nat, hi: nat)
    requires Untouched(h0, h, root, sh0, sh, lo, va) && va <= hi
    ensures Untouched(h0, h, root, sh0, sh, lo, hi)
  {
    hide Translate;
    forall q | Named(h0, root, q, lo, va) ensures Named(h0, root, q, lo, hi) {
      var p: Path :| p.Ok() && InRange(p, lo, va)
                     && GivesBack(h0, Translate(h0.mem, root, p)) && Translate(h0.mem, root, p).frame == q;
      assert InRange(p, lo, hi);
    }
  }

  /** Giving back the frame of the page at va. */
  lemma UntouchedGive(h0: Heap, h: Heap, root: nat, sh0: Shape, sh: Shape, lo: nat, va: nat, d: Word)
    requires h.Valid() && h.start == h0.start && h.end == h0.end && Untouched(h0, h, root, sh0, sh, lo, va)
    requires lo <= va < B48 && Aligned(va) && h.InHeap(Link(d)) && h.Held(Link(d))
    requires Valid(d) && IsTable(d) && !IsDevice(Lo(d)) && Translate(h0.mem, root, PathOf(va)) == At3(d)
    ensures Untouched(h0, h.Give(Link(d)), root, sh0, sh, lo, va + PAGE)
  {
    UntouchedWider(h0, h, root, sh0, sh, lo, va, va + PAGE);
    FreedAddress(h, d);
    OnlyPageAt(va);
    assert InRange(PathOf(va), lo, va + PAGE) && GivesBack(h0, At3(d));
    assert Named(h0, root, Link(d), lo, va + PAGE);
    hide Named, Translate;
    GiveKeeps(h, Link(d));
  }

  /** The state of the munmap walk when it stands at va, having started from h0. */
  ghost predicate Unmapping(h0: Heap, h: Heap, root: nat, sh: Shape, lo: nat, va: nat, hi: nat, starved: bool) {
    && Ready(h, root, sh)
    && h.start == h0.start && h.end == h0.end
    && Cleared(h0.mem, h.mem, root, lo, va, starved)
    && Owned(h0, h, root, sh, va, hi)
    && Returned(h0, h, root, sh, lo, va, starved)
  }

  /** d & !0xFFF is a heap address exactly when the leaf carries no high bits and its
      frame is in the heap. */
  lemma FreedAddress(h: Heap, d: Word)
    requires h.Valid() && Valid(d) && IsTable(d)
    ensures h.InHeap(Link(d)) <==> Hi(d) == 0 && h.InHeap(Frame(d))
    ensures Hi(d) == 0 ==> Link(d) == Frame(d)
  {
    PageOf(d / PAGE, d % PAGE);
  }

  /** Refining tables on the way does not disturb the walk. */
  lemma UnmapRefined(h0: Heap, h1: Heap, h2: Heap, root: nat, sh1: Shape, sh2: Shape,
                     lo: nat, va: nat, hi: nat, starved: bool)
    requires Unmapping(h0, h1, root, sh1, lo, va, hi, starved) && Refined(h1, h2, root, sh1, sh2)
    ensures Unmapping(h0, h2, root, sh2, lo, va, hi, starved)
  {
    ClearedSame(h0.mem, h1.mem, h2.mem, root, lo, va, starved);
    assert Owned(h0, h2, root, sh2, va, hi);
    forall p: Path | !starved && p.Ok() && InRange(p, lo, va) && GivesBack(h0, Translate(h0.mem, root, p))
      ensures var f := Translate(h0.mem, root, p).frame; h2.Free(f) || f in sh2
    {
      var f := Translate(h0.mem, root, p).frame;
      if f in sh1 { assert Linked(sh2, f, sh1[f]); }
    }
  }

  lemma ClearedSame(m0: Mem, m1: Mem, m2: Mem, root: nat, lo: nat, va: nat, starved: bool)
    requires Cleared(m0, m1, root, lo, va, starved) && SameTranslation(m1, m2, root)
    ensures Cleared(m0, m2, root, lo, va, starved)
  {
    forall p: Path | p.Ok()
      ensures var t0, t := Translate(m0, root, p), Translate(m2, root, p);
              if InRange(p, lo, va) && t0.Mapped? then t == Absent(0) || (starved && t == t0)
              else t == t0
    {
      assert Translate(m2, root, p) == Translate(m1, root, p);
    }
  }

  /** The walk moves past a page that is absent already, or whose split starved. */
  lemma UnmapSkip(h0: Heap, h: Heap, root: nat, sh: Shape, lo: nat, va: nat, hi: nat, starved: bool, now: bool)
    requires Unmapping(h0, h, root, sh, lo, va, hi, starved)
    requires lo % PAGE == va % PAGE == 0 && lo <= va < B48
    requires now || Translate(h.mem, root, PathOf(va)).Absent?
    ensures Unmapping(h0, h, root, sh, lo, va + PAGE, hi, starved || now)
  {
    OnlyPageAt(va);
    var p := PathOf(va);
    assert !InRange(p, lo, va);
    assert Translate(h.mem, root, p) == Translate(h0.mem, root, p);
    assert forall q: Path :: q.Ok() ==> (InRange(q, lo, va + PAGE) <==> InRange(q, lo, va) || q == p);
  }

  /** Clearing the leaf at va. */
  lemma UnmapLeaf(h0: Heap, h: Heap, h': Heap, root: nat, sh: Shape, lo: nat, va: nat, hi: nat, starved: bool,
                  a: nat, i: nat)
    requires Unmapping(h0, h, root, sh, lo, va, hi, starved)
    requires lo % PAGE == va % PAGE == 0 && lo <= va < B48
    requires LeafSlot(h.mem, root, sh, va, a, i) && Valid(Read(h.mem, a, i))
    requires h' == h.(mem := h.mem[a := h.mem[a][i := 0]])
    ensures Ready(h', root, sh) && Cleared(h0.mem, h'.mem, root, lo, va + PAGE, starved)
    ensures IsTable(Read(h.mem, a, i))
    ensures Translate(h0.mem, root, PathOf(va)) == At3(Read(h.mem, a, i))
  {
    hide Owned, Returned, Cleared;
    var p := PathOf(va);
    assert EntryOk(sh, sh[a], i, Read(h.mem, a, i));
    LeafWritten(h.mem, h'.mem, root, sh, a, p, 0);
    WriteKeeps(h, h'.mem);
    ClearedNext(h0.mem, h.mem, h'.mem, root, lo, va, starved);
  }

  lemma ClearedNext(m0: Mem, m: Mem, m': Mem, root: nat, lo: nat, va: nat, starved: bool)
    requires Cleared(m0, m, root, lo, va, starved)
    requires lo % PAGE == va % PAGE == 0 && lo <= va < B48
    requires Translate(m, root, PathOf(va)).Mapped? && Translate(m', root, PathOf(va)) == Absent(0)
    requires forall q: Path :: q.Ok() && q != PathOf(va) ==> Translate(m', root, q) == Translate(m, root, q)
    ensures Cleared(m0, m', root, lo, va + PAGE, starved)
    ensures Translate(m0, root, PathOf(va)) == Translate(m, root, PathOf(va))
  {
    hide Translate;
    OnlyPageAt(va);
    assert !InRange(PathOf(va), lo, va);
  }

  /** Handing the cleared frame to the page allocator, which takes it or ignores it. */
  lemma UnmapGive(h0: Heap, h: Heap, h': Heap, root: nat, sh: Shape, lo: nat, va: nat, hi: nat, starved: bool,
                  d: Word)
    requires Ready(h, root, sh) && h.start == h0.start && h.end == h0.end
    requires Cleared(h0.mem, h.mem, root, lo, va + PAGE, starved)
    requires Owned(h0, h, root, sh, va, hi) && Returned(h0, h, root, sh, lo, va, starved)
    requires lo % PAGE == va % PAGE == 0 && lo <= va < hi <= B48
    requires Valid(d) && IsTable(d) && Translate(h0.mem, root, PathOf(va)) == At3(d)
    requires h' == if IsDevice(Lo(d)) then h else h.Give(Link(d))
    ensures !IsDevice(Lo(d)) && h.InHeap(Link(d)) ==> h.Held(Link(d))
    ensures Unmapping(h0, h', root, sh, lo, va + PAGE, hi, starved)
  {
    OnlyPageAt(va);
    FreedAddress(h, d);
    var p := PathOf(va);
    assert InRange(p, va, hi);
    if GivesBack(h0, At3(d)) {
      GiveKeeps(h, Link(d));
      OutsideUnchanged(h.mem, h'.mem, root, sh);
      ClearedSame(h0.mem, h.mem, h'.mem, root, lo, va + PAGE, starved);
    }
    OwnedNext(h0, h, h', root, sh, va, hi, Link(d));
    ReturnedNext(h0, h, h', root, sh, lo, va, starved, Link(d));
  }

  lemma OwnedNext(h0: Heap, h: Heap, h': Heap, root: nat, sh: Shape, va: nat, hi: nat, f: nat)
    requires Owned(h0, h, root, sh, va, hi) && va < hi <= B48 && va % PAGE == 0
    requires forall q :: q != f ==> (h'.Held(q) <==> h.Held(q))
    requires var t := Translate(h0.mem, root, PathOf(va)); if GivesBack(h0, t) then t.frame == f else h' == h
    ensures Owned(h0, h', root, sh, va + PAGE, hi)
  {
    OnlyPageAt(va);
    var p := PathOf(va);
    assert InRange(p, va, hi);
    forall q: Path | q.Ok() && InRange(q, va + PAGE, hi) && GivesBack(h0, Translate(h0.mem, root, q))
      ensures var g := Translate(h0.mem, root, q).frame; h'.Held(g) && g !in sh
    {
      assert InRange(q, va, hi) && q != p;
    }
  }

  lemma ReturnedNext(h0: Heap, h: Heap, h': Heap, root: nat, sh: Shape, lo: nat, va: nat, starved: bool, f: nat)
    requires Returned(h0, h, root, sh, lo, va, starved) && lo <= va < B48 && va % PAGE == lo % PAGE == 0
    requires forall q :: q != f ==> (h'.Free(q) <==> h.Free(q))
    requires var t := Translate(h0.mem, root, PathOf(va));
             if GivesBack(h0, t) then t.frame == f && h'.Free(f) else h' == h
    ensures Returned(h0, h', root, sh, lo, va + PAGE, starved)
  {
    OnlyPageAt(va);
    var p := PathOf(va);
    assert InRange(p, lo, va + PAGE);
    forall g | h'.Free(g) && !h0.Free(g)
      ensures exists q: Path :: q.Ok() && InRange(q, lo, va + PAGE)
                          && GivesBack(h0, Translate(h0.mem, root, q)) && Translate(h0.mem, root, q).frame == g
    {
      if h.Free(g) {
        var q: Path :| q.Ok() && InRange(q, lo, va)
                       && GivesBack(h0, Translate(h0.mem, root, q)) && Translate(h0.mem, root, q).frame == g;
        assert InRange(q, lo, va + PAGE);
      }
    }
    forall q: Path | !starved && q.Ok() && InRange(q, lo, va + PAGE) && GivesBack(h0, Translate(h0.mem, root, q))
      ensures var g := Translate(h0.mem, root, q).frame; h'.Free(g) || g in sh
    {
      assert q == p || InRange(q, lo, va);
    }
  }

  lemma SamePage(va: nat)
    requires va < B48
    ensures PathOf(va) == PathOf(va / PAGE * PAGE)
  {
    VaOfPath(va);
    PathOfVa(PathOf(va));
  }

  /** One round of the munmap loop, at the page that holds va. */
  method UnmapPage(ram: PageAllocator, pdir: nat, va: nat, ghost sh: Shape,
                   ghost h0: Heap, ghost sh0: Shape, ghost lo: nat, ghost hi: nat, ghost before: bool)
    returns (ghost sh': Shape, ghost starved: bool)
    requires Usable(pdir) ==> Unmapping(h0, ram.Now(), pdir, sh, lo, va / PAGE * PAGE, hi, before)
    requires Usable(pdir) ==> Untouched(h0, ram.Now(), pdir, sh0, sh, lo, va / PAGE * PAGE)
    requires Aligned(lo) && lo <= va / PAGE * PAGE < hi <= B48 && va < B48
    modifies ram
    ensures !Usable(pdir) ==> ram.Now() == old(ram.Now())
    ensures Usable(pdir) ==> Unmapping(h0, ram.Now(), pdir, sh', lo, va / PAGE * PAGE + PAGE, hi, before || starved)
    ensures Usable(pdir) ==> Untouched(h0, ram.Now(), pdir, sh0, sh', lo, va / PAGE * PAGE + PAGE)
    ensures ram.freePages + 2 >= old(ram.freePages)
    ensures starved ==> old(ram.freePages) <= 1
  {
    hide Unmapping, Refined, Ready, LeafSlot, Translate, PathOf, Untouched, DataKept, Heap.Valid, Link;
    ghost var vb := va / PAGE * PAGE;
    ghost var h1 := ram.Now();
    SamePage(va);
    if Usable(pdir) { UnmappingReady(h0, h1, pdir, sh, lo, vb, hi, before); }
    var a, i;
    a, i, sh', starved := LeafEntry(ram, pdir, va, sh);
    if Usable(pdir) {
      UnmapRefined(h0, h1, ram.Now(), pdir, sh, sh', lo, vb, hi, before);
      StillAbsent(h1, ram.Now(), pdir, sh, sh', va, a, i);
      RefinedData(h1, ram.Now(), pdir, sh, sh');
      UntouchedKept(h0, h1, ram.Now(), pdir, sh0, sh, sh', lo, vb);
    }
    if a != 0 {
      var d := ram.mem[a][i];
      if Valid(d) {
        ClearLeaf(ram, pdir, va, a, i, sh', h0, sh0, lo, vb, hi, before);
        return sh', false;
      }
    }
    if Usable(pdir) {
      UnmapSkip(h0, ram.Now(), pdir, sh', lo, vb, hi, before, starved);
      UntouchedWider(h0, ram.Now(), pdir, sh0, sh', lo, vb, vb + PAGE);
    }
  }

  lemma UnmappingReady(h0: Heap, h: Heap, root: nat, sh: Shape, lo: nat, va: nat, hi: nat, starved: bool)
    requires Unmapping(h0, h, root, sh, lo, va, hi, starved)
    ensures Ready(h, root, sh)
  {}

  /** Clears a valid leaf and frees its frame unless it is Device memory. */
  method ClearLeaf(ram: PageAllocator, pdir: nat, ghost va: nat, a: nat, i: nat, ghost sh: Shape,
                   ghost h0: Heap, ghost sh0: Shape, ghost lo: nat, ghost vb: nat, ghost hi: nat, ghost before: bool)
    requires Unmapping(h0, ram.Now(), pdir, sh, lo, vb, hi, before)
    requires Untouched(h0, ram.Now(), pdir, sh0, sh, lo, vb)
    requires Aligned(lo) && Aligned(vb) && lo <= vb < hi <= B48
    requires LeafSlot(ram.mem, pdir, sh, va, a, i) && PathOf(va) == PathOf(vb) && Valid(Read(ram.mem, a, i))
    modifies ram
    ensures Unmapping(h0, ram.Now(), pdir, sh, lo, vb + PAGE, hi, before)
    ensures Untouched(h0, ram.Now(), pdir, sh0, sh, lo, vb + PAGE)
    ensures ram.freePages >= old(ram.freePages)
  {
    hide Unmapping, Untouched, Translate, Heap.Valid;
    ghost var h2 := ram.Now();
    LeafIsTable(ram.mem, pdir, sh, va, a, i);
    UnmappingReady(h0, h2, pdir, sh, lo, vb, hi, before);
    var d := ram.mem[a][i];
    var page := Link(d);
    ram.mem := ram.mem[a := ram.mem[a][i := 0]];
    LeafDone(h0, h2, ram.Now(), pdir, sh0, sh, lo, vb, hi, before, a, i);
    if !IsDevice(Lo(d)) { ram.FreePage(page); }
  }

  /** Which pages are held or free does not depend on what memory holds. */
  lemma SameStatus(h0: Heap, h: Heap, m: Mem, root: nat, sh: Shape, lo: nat, va: nat, hi: nat, starved: bool)
    requires Owned(h0, h, root, sh, va, hi) && Returned(h0, h, root, sh, lo, va, starved)
    ensures Owned(h0, h.(mem := m), root, sh, va, hi) && Returned(h0, h.(mem := m), root, sh, lo, va, starved)
  {
    hide Translate, GivesBack;
    var h' := h.(mem := m);
    assert forall f :: (h'.Free(f) <==> h.Free(f)) && (h'.Held(f) <==> h.Held(f));
  }

  /** Clearing the leaf at vb and giving its frame back, together. */
  lemma LeafDone(h0: Heap, h2: Heap, h3: Heap, root: nat, sh0: Shape, sh: Shape, lo: nat, vb: nat, hi: nat,
                 before: bool, a: nat, i: nat)
    requires Unmapping(h0, h2, root, sh, lo, vb, hi, before) && Untouched(h0, h2, root, sh0, sh, lo, vb)
    requires Aligned(lo) && Aligned(vb) && lo <= vb < hi <= B48
    requires LeafSlot(h2.mem, root, sh, vb, a, i) && Valid(Read(h2.mem, a, i))
    requires h3 == h2.(mem := h2.mem[a := h2.mem[a][i := 0]])
    ensures h3.Valid()
    ensures var d := Read(h2.mem, a, i);
            var h4 := if IsDevice(Lo(d)) then h3 else h3.Give(Link(d));
            && (!IsDevice(Lo(d)) && h3.InHeap(Link(d)) ==> h3.Held(Link(d)))
            && Unmapping(h0, h4, root, sh, lo, vb + PAGE, hi, before) && h4.free >= h2.free
            && Untouched(h0, h4, root, sh0, sh, lo, vb + PAGE)
  {
    hide Untouched, DataKept, Translate, Cleared, Owned, Returned, WellFormed;
    var d := Read(h2.mem, a, i);
    UnmapLeaf(h0, h2, h3, root, sh, lo, vb, hi, before, a, i);
    SameStatus(h0, h2, h3.mem, root, sh, lo, vb, hi, before);
    LeafIsTable(h2.mem, root, sh, vb, a, i);
    TableWriteKeeps(h2, sh, a, h2.mem[a][i := 0]);
    UntouchedKept(h0, h2, h3, root, sh0, sh, sh, lo, vb);
    UnmapGive(h0, h3, if IsDevice(Lo(d)) then h3 else h3.Give(Link(d)), root, sh, lo, vb, hi, before, d);
    hide Unmapping, Heap.Valid, Heap.Held;
    if !IsDevice(Lo(d)) && h3.InHeap(Link(d)) { UntouchedGive(h0, h3, root, sh0, sh, lo, vb, d); }
    else { UntouchedWider(h0, h3, root, sh0, sh, lo, vb, vb + PAGE); }
  }

  /** Unmaps whole pages: every page whose bytes [addr, addr + len) rounded up touch,
      counting from the page of addr. Outside the user window the tables stay as they are. */
  method Munmap(ram: PageAllocator, pdir: nat, addr: nat, len: nat, ghost sh: Shape)
    returns (r: int, errno: int, ghost sh': Shape, ghost starved: bool)
    requires addr < U64 && len < U64
    requires Usable(pdir) ==>
               && Ready(ram.Now(), pdir, sh)
               && Owned(ram.Now(), ram.Now(), pdir, sh, addr / PAGE * PAGE, addr / PAGE * PAGE + RoundUp(len))
    modifies ram
    ensures r == 0 || (r == -1 && errno == EINVAL)
    ensures r == -1 <==> addr != 0 && (len == 0 || len + PAGE - 1 >= U64 || addr + RoundUp(len) >= U64)
    ensures r == -1 || addr < 0x0100_0000 || addr + RoundUp(len) > 0x10_0000_0001 || !Usable(pdir) ==>
              ram.Now() == old(ram.Now())
    ensures r == 0 && 0x0100_0000 <= addr && addr + RoundUp(len) <= 0x10_0000_0001 && Usable(pdir) ==>
              var lo := addr / PAGE * PAGE;
              && Ready(ram.Now(), pdir, sh')
              && Cleared(old(ram.mem), ram.mem, pdir, lo, lo + RoundUp(len), starved)
              && Returned(old(ram.Now()), ram.Now(), pdir, sh', lo, lo + RoundUp(len), starved)
              && Untouched(old(ram.Now()), ram.Now(), pdir, sh, sh', lo, lo + RoundUp(len))
    ensures starved ==> old(ram.freePages) < 2 * (RoundUp(len) / PAGE)
  {
    hide Unmapping, Ready, Owned, Untouched;
    r, errno, sh', starved := 0, 0, sh, false;
    if addr == 0 { return 0, 0, sh, false; }
    if len == 0 { return -1, EINVAL, sh, false; }
    if len + PAGE - 1 >= U64 { return -1, EINVAL, sh, false; }
    var hi := addr + RoundUp(len);
    if hi >= U64 { return -1, EINVAL, sh, false; }
    if addr >= USER_VA_MIN && hi <= USER_VA_MAX + 1 {
      WholePages(len);
      sh', starved := UnmapRange(ram, pdir, addr, RoundUp(len) / PAGE, sh);
      if Usable(pdir) {
        UnmappingDone(old(ram.Now()), ram.Now(), pdir, sh', addr / PAGE * PAGE, addr / PAGE * PAGE + RoundUp(len),
          starved);
      }
    }
  }

  lemma WholePages(len: nat)
    ensures RoundUp(len) / PAGE * PAGE == RoundUp(len)
  {}

  lemma UnmappingDone(h0: Heap, h: Heap, root: nat, sh: Shape, lo: nat, hi: nat, starved: bool)
    requires Unmapping(h0, h, root, sh, lo, hi, hi, starved)
    ensures Ready(h, root, sh) && Cleared(h0.mem, h.mem, root, lo, hi, starved)
    ensures Returned(h0, h, root, sh, lo, hi, starved)
  {}

  /** The munmap loop over n pages from the page of addr. */
  method UnmapRange(ram: PageAllocator, pdir: nat, addr: nat, n: nat, ghost sh: Shape)
    returns (ghost sh': Shape, ghost starved: bool)
    requires addr + n * PAGE < B48
    requires Usable(pdir) ==>
               && Ready(ram.Now(), pdir, sh)
               && Owned(ram.Now(), ram.Now(), pdir, sh, addr / PAGE * PAGE, addr / PAGE * PAGE + n * PAGE)
    modifies ram
    ensures !Usable(pdir) ==> ram.Now() == old(ram.Now())
    ensures Usable(pdir) ==>
              Unmapping(old(ram.Now()), ram.Now(), pdir, sh', addr / PAGE * PAGE,
                        addr / PAGE * PAGE + n * PAGE, addr / PAGE * PAGE + n * PAGE, starved)
    ensures Usable(pdir) ==>
              Untouched(old(ram.Now()), ram.Now(), pdir, sh, sh', addr / PAGE * PAGE, addr / PAGE * PAGE + n * PAGE)
    ensures starved ==> old(ram.freePages) < 2 * n
  {
    hide Unmapping, Ready, Owned, Untouched;
    ghost var h0 := ram.Now();
    ghost var lo := addr / PAGE * PAGE;
    ghost var end := lo + n * PAGE;
    sh', starved := sh, false;
    if Usable(pdir) { UnmapStart(h0, pdir, sh, lo, end); }
    var k := 0;
    while k < n
      invariant k <= n
      invariant Usable(pdir) ==> Unmapping(h0, ram.Now(), pdir, sh', lo, lo + k * PAGE, end, starved)
      invariant Usable(pdir) ==> Untouched(h0, ram.Now(), pdir, sh, sh', lo, lo + k * PAGE)
      invariant !Usable(pdir) ==> ram.Now() == h0
      invariant ram.freePages + 2 * k >= h0.free
      invariant starved ==> h0.free < 2 * k
    {
      PageStep(addr, k, n);
      ghost var now;
      sh', now := UnmapPage(ram, pdir, addr + k * PAGE, sh', h0, sh, lo, end, starved);
      starved := starved || now;
      k := k + 1;
    }
  }

  lemma PageStep(addr: nat, k: nat, n: nat)
    requires k < n
    ensures (addr + k * PAGE) / PAGE * PAGE == addr / PAGE * PAGE + k * PAGE
    ensures addr / PAGE * PAGE + k * PAGE < addr / PAGE * PAGE + n * PAGE
    ensures Aligned(addr / PAGE * PAGE)
  {}

  lemma UnmapStart(h: Heap, root: nat, sh: Shape, lo: nat, hi: nat)
    requires Ready(h, root, sh) && Owned(h, h, root, sh, lo, hi)
    ensures Unmapping(h, h, root, sh, lo, lo, hi, false) && Untouched(h, h, root, sh, sh, lo, lo)
  {
    hide Named;
  }
}
