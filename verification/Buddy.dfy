/** The page allocator: an intrusive free list threaded through the first word of
    every freed page, in front of a bump region. Every other module that needs a
    page (tables, demand pages) draws on this one object, so the memory a page
    table lives in and the memory the free list is threaded through are the same. */
module Buddy {
  import opened Arithmetic
  import opened Sequences

  const PAGE := 4096
  const WORDS := 512
  const PHYS_LIMIT := 0x1_0000_0000_0000   // 48-bit physical addresses

  type Word = w: int | 0 <= w < 0x1_0000_0000_0000_0000
  type Page = p: seq<Word> | |p| == WORDS witness seq(WORDS, _ => 0)
  type Mem = map<nat, Page>

  function ZeroPage(): Page { seq(WORDS, _ => 0) }

  predicate Aligned(p: nat) { p % PAGE == 0 }

  function Next(list: seq<nat>, i: nat): nat
    requires i < |list|
  {
    if i + 1 < |list| then list[i + 1] else 0
  }

  /** A snapshot of the allocator's globals; `list` is the free list from head to end. */
  datatype Heap = Heap(mem: Mem, start: nat, end: nat, cur: nat, head: nat,
                       free: nat, total: nat, list: seq<nat>)
  {
    predicate InHeap(p: nat) { start <= p < end && Aligned(p) }

    /** On the free list, or not yet bumped. */
    predicate Free(p: nat) { InHeap(p) && (p in list || cur <= p) }

    /** Handed out and not given back. */
    predicate Held(p: nat) { InHeap(p) && p < cur && p !in list }

    /** The first word of each listed page holds the address of the next, 0 at the end. */
    ghost predicate Chained() {
      && (head == if list == [] then 0 else list[0])
      && forall i :: 0 <= i < |list| ==>
           list[i] in mem && mem[list[i]][0] == Next(list, i)
    }

    ghost predicate Listed() {
      && Distinct(list)
      && forall i :: 0 <= i < |list| ==> start <= list[i] < cur && Aligned(list[i])
    }

    ghost predicate Counted() {
      && total == (end - start) / PAGE
      && free == |list| + (end - cur) / PAGE
    }

    ghost predicate Bounded() {
      && 0 < start <= cur <= end <= PHYS_LIMIT
      && Aligned(start) && Aligned(cur) && Aligned(end)
      && forall p :: start <= p < end && Aligned(p) ==> p in mem
    }

    ghost predicate Valid() { Bounded() && Listed() && Chained() && Counted() }

    /** The page the next allocation hands out. */
    function First(): nat { if list != [] then list[0] else cur }

    ghost function Take(): Heap
      requires Valid() && free > 0
    {
      var p := First();
      var zeroed := mem[p := ZeroPage()];
      if list != []
      then this.(mem := zeroed, head := mem[p][0], free := free - 1, list := list[1..])
      else this.(mem := zeroed, cur := cur + PAGE, free := free - 1)
    }

    ghost function Give(p: nat): Heap
      requires Valid()
    {
      if InHeap(p)
      then this.(mem := mem[p := mem[p][0 := head]], head := p,
                 free := if free < total then free + 1 else free, list := [p] + list)
      else this
    }
  }

  /** Allocation keeps the partition and moves exactly one page, First, from free to held. */
  lemma TakeKeeps(h: Heap)
    requires h.Valid() && h.free > 0
    ensures h.Take().Valid()
    ensures h.Free(h.First()) && h.Take().Held(h.First()) && h.First() != 0
    ensures forall q :: q != h.First() ==>
              && (h.Take().Free(q) <==> h.Free(q)) && (h.Take().Held(q) <==> h.Held(q))
  {
    if h.list != [] { TakeFront(h); } else { TakeBump(h); }
  }

  lemma TakeFront(h: Heap)
    requires h.Valid() && h.free > 0 && h.list != []
    ensures h.Take().Valid()
    ensures h.Free(h.First()) && h.Take().Held(h.First()) && h.First() != 0
    ensures forall q :: q != h.First() ==>
              && (h.Take().Free(q) <==> h.Free(q)) && (h.Take().Held(q) <==> h.Held(q))
  {
    TakeListed(h);
    hide Heap.Chained, Distinct;
    assert h.list == [h.First()] + h.Take().list;
  }

  lemma TakeBump(h: Heap)
    requires h.Valid() && h.free > 0 && h.list == []
    ensures h.Take().Valid()
    ensures h.Free(h.First()) && h.Take().Held(h.First()) && h.First() != 0
    ensures forall q :: q != h.First() ==>
              && (h.Take().Free(q) <==> h.Free(q)) && (h.Take().Held(q) <==> h.Held(q))
  {}

  lemma TakeListed(h: Heap)
    requires h.Valid() && h.free > 0 && h.list != []
    ensures h.Take().Listed() && h.Take().Chained()
    ensures h.First() !in h.Take().list
  {
    var g := h.Take();
    assert h.mem[h.list[0]][0] == Next(h.list, 0);
    forall i | 0 <= i < |g.list|
      ensures g.list[i] in g.mem && g.mem[g.list[i]][0] == Next(g.list, i)
    {
      assert g.list[i] == h.list[i + 1] != h.list[0];
      assert h.mem[h.list[i + 1]][0] == Next(h.list, i + 1);
    }
  }

  /** Writing into pages that are not free leaves the allocator intact. */
  lemma WriteKeeps(h: Heap, m: Mem)
    requires h.Valid() && h.mem.Keys <= m.Keys
    requires forall q :: h.Free(q) && q in h.mem ==> m[q] == h.mem[q]
    ensures h.(mem := m).Valid()
    ensures forall q :: (h.(mem := m).Free(q) <==> h.Free(q)) && (h.(mem := m).Held(q) <==> h.Held(q))
  {
    var g := h.(mem := m);
    forall i | 0 <= i < |g.list|
      ensures g.list[i] in g.mem && g.mem[g.list[i]][0] == Next(g.list, i)
    {
      assert h.Free(h.list[i]);
    }
  }

  /** Freeing a held page keeps the partition and moves exactly that page back. */
  lemma GiveKeeps(h: Heap, p: nat)
    requires h.Valid() && (h.InHeap(p) ==> h.Held(p))
    ensures h.Give(p).Valid()
    ensures h.InHeap(p) ==> h.Give(p).Free(p) && h.Give(p).First() == p && h.free < h.total
    ensures forall q :: q != p ==>
              && (h.Give(p).Free(q) <==> h.Free(q)) && (h.Give(p).Held(q) <==> h.Held(q))
  {
    if h.InHeap(p) {
      ListHasRoom(h.list, p, h.start, h.cur);
      GiveListed(h, p);
      assert h.Give(p).list[1..] == h.list;
    }
  }

  lemma GiveListed(h: Heap, p: nat)
    requires h.Valid() && h.Held(p)
    ensures h.Give(p).Listed() && h.Give(p).Chained()
  {
    var g := h.Give(p);
    forall i | 0 <= i < |g.list|
      ensures h.start <= g.list[i] < h.cur && Aligned(g.list[i])
      ensures g.list[i] in g.mem && g.mem[g.list[i]][0] == Next(g.list, i)
    {
      if i > 0 {
        assert g.list[i] == h.list[i - 1] != p;
        assert h.mem[h.list[i - 1]][0] == Next(h.list, i - 1);
      }
    }
  }

  function PageIndex(p: nat, start: nat): (k: nat)
    requires Aligned(start) && Aligned(p) && start <= p
    ensures p == start + k * PAGE
  {
    (p - start) / PAGE
  }

  /** With one more distinct page in the same range, the list cannot already name them all. */
  lemma ListHasRoom(list: seq<nat>, p: nat, start: nat, cur: nat)
    requires start <= cur && Aligned(start) && Aligned(cur)
    requires Distinct(list) && p !in list && Aligned(p) && start <= p < cur
    requires forall i :: 0 <= i < |list| ==> start <= list[i] < cur && Aligned(list[i])
    ensures |list| < (cur - start) / PAGE
  {
    var s := [p] + list;
    assert forall i :: 0 <= i < |s| ==> start <= s[i] < cur && Aligned(s[i]);
    var idx: seq<nat> := seq(|s|, i requires 0 <= i < |s| => PageIndex(s[i], start));
    forall i, j | 0 <= i < j < |idx| ensures idx[i] != idx[j] {
      assert s[i] != s[j];
    }
    DistinctBounded(idx, (cur - start) / PAGE);
  }

  /** Allocating right after a free gives the same page back, zeroed, and restores every
      global: free-then-alloc is the identity except on the page's own contents. */
  lemma TakeAfterGive(h: Heap, p: nat)
    requires h.Valid() && h.Held(p)
    ensures h.Give(p).Valid() && h.Give(p).First() == p
    ensures h.Give(p).Take() == h.(mem := h.mem[p := ZeroPage()])
  {
    GiveKeeps(h, p);
    var g := h.Give(p);
    assert g.list[1..] == h.list;
    assert g.Take().mem == h.mem[p := ZeroPage()];
  }

  /** The in-heap pages split three ways: held, listed, and not yet bumped; the
      counter counts the last two. */
  lemma Partition(h: Heap, p: nat)
    requires h.Valid() && h.InHeap(p)
    ensures h.Held(p) != h.Free(p)
    ensures h.Free(p) <==> (p in h.list) != (h.cur <= p)
    ensures h.free == 0 ==> h.Held(p)
  {
    if p in h.list {
      var i :| 0 <= i < |h.list| && h.list[i] == p;
    }
  }

  /** Freeing breaks the partition exactly when the accepted page was not held: a page
      already on the list closes a cycle that no finite list describes, and a page still
      in the bump region is then both listed and unbumped. */
  lemma GiveValidExactlyWhenHeld(h: Heap, p: nat)
    requires h.Valid() && h.InHeap(p)
    ensures (exists l: seq<nat> :: h.Give(p).(list := l).Valid()) <==> h.Held(p)
  {
    if h.Held(p) {
      GiveKeeps(h, p);
      assert h.Give(p).(list := h.Give(p).list).Valid();
    }
    if l: seq<nat> :| h.Give(p).(list := l).Valid() {
      var g := h.Give(p).(list := l);
      if p in h.list {
        var k :| 0 <= k < |h.list| && h.list[k] == p;
        GiveCycle(h, p, g, k, k + 1);
      }
    }
  }

  /** After a double free the walk from p reads the old list up to p again. */
  lemma {:induction false} GiveCycle(h: Heap, p: nat, g: Heap, k: nat, j: nat)
    requires h.Valid() && h.InHeap(p) && k < |h.list| && h.list[k] == p
    requires g.Valid() && g == h.Give(p).(list := g.list)
    requires j <= k + 1
    ensures |g.list| > j && g.list[j] == (if j == 0 then p else h.list[j - 1])
    decreases j
  {
    if j > 0 {
      GiveCycle(h, p, g, k, j - 1);
      if j > 1 { assert h.list[j - 2] != p; }
    }
  }

  class PageAllocator {
    var mem: Mem
    var start: nat
    var end: nat
    var cur: nat
    var freeHead: nat
    var freePages: nat
    var totalPages: nat
    ghost var list: seq<nat>

    ghost function Now(): Heap reads this {
      Heap(mem, start, end, cur, freeHead, freePages, totalPages, list)
    }

    constructor (m: Mem)
      ensures Now() == Heap(m, 0, 0, 0, 0, 0, 0, [])
    {
      mem := m;
      start, end, cur, freeHead, freePages, totalPages, list := 0, 0, 0, 0, 0, 0, [];
    }

    /** Page-aligns the window inwards and takes it; an empty window or a second
        call changes nothing. */
    method Init(s0: nat, e0: nat)
      requires 0 < s0 <= PHYS_LIMIT && e0 <= PHYS_LIMIT
      requires forall p :: s0 <= p && p + PAGE <= e0 && Aligned(p) ==> p in mem
      modifies this
      ensures old(start != 0 && end != 0) || (s0 + PAGE - 1) / PAGE >= e0 / PAGE ==> Now() == old(Now())
      ensures old(start == 0 || end == 0) && (s0 + PAGE - 1) / PAGE < e0 / PAGE ==>
                && Now().Valid() && mem == old(mem) && freePages == totalPages
                && forall p: nat :: Now().Free(p) <==> s0 <= p && p + PAGE <= e0 && Aligned(p)
    {
      var s := (s0 + PAGE - 1) / PAGE * PAGE;
      var e := e0 / PAGE * PAGE;
      if e <= s { return; }
      Inwards(s0, e0);
      if start != 0 && end != 0 { return; }
      start, end, cur := s, e, s;
      totalPages := (e - s) / PAGE;
      freePages := totalPages;
      freeHead := 0;
      list := [];
    }

    /** Null exactly when no page is left; otherwise the first free page, zeroed. */
    method Alloc() returns (p: nat)
      requires Now().Valid()
      modifies this
      ensures p == 0 <==> old(freePages) == 0
      ensures p == 0 ==> Now() == old(Now())
      ensures p != 0 ==> p == old(Now().First()) && Now() == old(Now().Take())
    {
      p := 0;
      if freeHead != 0 {
        p := freeHead;
        freeHead := mem[p][0];
        list := list[1..];
        if freePages > 0 { freePages := freePages - 1; }
      } else if cur + PAGE <= end {
        p := cur;
        cur := cur + PAGE;
        if freePages > 0 { freePages := freePages - 1; }
      }
      if p != 0 {
        var zeroed := ZeroFill(mem[p]);
        mem := mem[p := zeroed];
      }
    }

    /** Any pointer is accepted; null, out-of-range and misaligned ones are ignored.
        An accepted page must be one that is currently held. */
    method FreePage(p: nat)
      requires Now().Valid()
      requires Now().InHeap(p) ==> Now().Held(p)
      modifies this
      ensures Now() == old(Now().Give(p))
    {
      if p == 0 || p < start || p >= end || p % PAGE != 0 { return; }
      GiveKeeps(Now(), p);
      mem := mem[p := mem[p][0 := freeHead]];
      freeHead := p;
      list := [p] + list;
      if freePages < totalPages { freePages := freePages + 1; }
    }
  }

  /** Rounding a window inwards keeps exactly its whole pages. */
  lemma Inwards(s0: nat, e0: nat)
    ensures var s, e := (s0 + PAGE - 1) / PAGE * PAGE, e0 / PAGE * PAGE;
            && Aligned(s) && Aligned(e) && s0 <= s
            && forall p: nat :: Aligned(p) ==> (s <= p < e <==> s0 <= p && p + PAGE <= e0)
  {
    var a, ra := Parts(s0 + PAGE - 1, PAGE);
    var b, rb := Parts(e0, PAGE);
    DivMod(a, PAGE, 0);
    DivMod(b, PAGE, 0);
    forall p: nat | Aligned(p) ensures a * PAGE <= p < b * PAGE <==> s0 <= p && p + PAGE <= e0 {
      var k, _ := Parts(p, PAGE);
    }
  }

  method ZeroFill(page: Page) returns (zeroed: Page)
    ensures zeroed == ZeroPage()
  {
    zeroed := page;
    for off := 0 to WORDS
      invariant forall k :: 0 <= k < off ==> zeroed[k] == 0
    {
      zeroed := zeroed[off := 0];
    }
  }
}
