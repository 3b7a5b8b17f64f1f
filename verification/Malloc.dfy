/** The libc pool allocator over byte-addressed memory: a 16-byte header [magic][size] in
    front of every payload, and a first-fit free list threaded through freed payloads. */
module Malloc {
  import opened Arithmetic
  import opened Sequences
  import opened Options
  import opened ByteStrings
  import opened ByteMemory

  const POOL := 64 * 1024 * 1024
  const MAGIC := 0x484F5553454D414C
  const MIN := 8
  const VA_LIMIT := 0x1_0000_0000_0000   // the pool lies in 48-bit addresses
  const ENOMEM := 12
  const EINVAL := 22

  // ---- the pool ----

  /** A block ever handed out: payload address, payload size, and whether it is handed out now. */
  datatype Block = Block(p: nat, size: nat, live: bool)

  /** The address of a block's magic (0), size (1) and, when freed, link (2). */
  function Field(b: Block, f: nat): int { b.p - 16 + 8 * f }

  function LiveSum(bs: seq<Block>): nat {
    if bs == [] then 0
    else LiveSum(bs[..|bs| - 1]) + if bs[|bs| - 1].live then bs[|bs| - 1].size else 0
  }

  /** A snapshot of the allocator: its globals, the blocks in address order, and the free
      list from head to end as indices into them. */
  datatype Pool = Pool(base: nat, mem: Memory, cur: nat, head: nat, used: nat, high: nat,
                       blocks: seq<Block>, order: seq<nat>)
  {
    function Cursor(): nat { if cur == 0 then base else cur }

    /** Headers and payloads follow one another inside the pool, never overlapping. */
    ghost predicate LaidOut() {
      && 0 < base && base + POOL <= VA_LIMIT && base <= Cursor() <= base + POOL
      && (forall i :: 0 <= i < |blocks| ==>
            && base + 16 <= blocks[i].p && blocks[i].p % 16 == 0
            && MIN <= blocks[i].size && blocks[i].p + blocks[i].size <= Cursor())
      && (forall i, j :: 0 <= i < j < |blocks| ==> blocks[i].p + blocks[i].size + 16 <= blocks[j].p)
    }

    ghost predicate Headed()
      requires LaidOut()
    {
      forall i :: 0 <= i < |blocks| ==>
        && Load(mem, Field(blocks[i], 0)) == (if blocks[i].live then MAGIC else 0)
        && Load(mem, Field(blocks[i], 1)) == blocks[i].size
    }

    /** The free list is exactly the dead blocks, each once. */
    ghost predicate Listed() {
      && Distinct(order)
      && (forall k :: 0 <= k < |order| ==> order[k] < |blocks| && !blocks[order[k]].live)
      && (forall i :: 0 <= i < |blocks| && !blocks[i].live ==> i in order)
    }

    function Addr(k: nat): nat
      requires forall j :: 0 <= j < |order| ==> order[j] < |blocks|
    {
      if k < |order| then blocks[order[k]].p else 0
    }

    ghost predicate Chained()
      requires LaidOut() && Listed()
    {
      head == Addr(0) && forall k {:trigger Load(mem, Field(blocks[order[k]], 2))} ::
        0 <= k < |order| ==> Load(mem, Field(blocks[order[k]], 2)) == Addr(k + 1)
    }

    ghost predicate Counted() { used == LiveSum(blocks) <= high }

    ghost predicate Valid() { LaidOut() && Headed() && Listed() && Chained() && Counted() }
  }

  ghost predicate SameBytes(m: Memory, m': Memory, b: Block) {
    forall x :: b.p <= x < b.p + b.size ==> Get(m', x) == Get(m, x)
  }

  /** Live payloads are untouched. */
  ghost predicate SamePayloads(s: Pool, m: Memory) {
    forall j :: 0 <= j < |s.blocks| && s.blocks[j].live ==> SameBytes(s.mem, m, s.blocks[j])
  }

  /** Storing into one field of one block changes that field and, for a link, that payload. */
  lemma StoreField(s: Pool, i: nat, f: nat, v: nat)
    requires s.LaidOut() && i < |s.blocks| && f < 3 && v < U64
    ensures var m := Store(s.mem, Field(s.blocks[i], f), v);
            && Load(m, Field(s.blocks[i], f)) == v
            && (forall j, g :: 0 <= j < |s.blocks| && 0 <= g < 3 && (j != i || g != f) ==>
                  Load(m, Field(s.blocks[j], g)) == Load(s.mem, Field(s.blocks[j], g)))
            && (forall j :: 0 <= j < |s.blocks| && (j != i || f < 2) ==> SameBytes(s.mem, m, s.blocks[j]))
  {
    hide Load, Store;
    var a := Field(s.blocks[i], f);
    LoadStored(s.mem, a, v);
    StoreElsewhere(s.mem, a, v);
    var m := Store(s.mem, a, v);
    forall j, g | 0 <= j < |s.blocks| && 0 <= g < 3 && (j != i || g != f)
      ensures Load(m, Field(s.blocks[j], g)) == Load(s.mem, Field(s.blocks[j], g))
    {
      var b := Field(s.blocks[j], g);
      assert b + 8 <= a || a + 8 <= b;
    }
  }

  // ---- the counters ----

  lemma {:induction false} LiveSumUpdate(bs: seq<Block>, i: nat, b: Block)
    requires i < |bs| && b.size == bs[i].size
    ensures LiveSum(bs[i := b]) == LiveSum(bs) - (if bs[i].live then b.size else 0) + (if b.live then b.size else 0)
    decreases |bs|
  {
    var n := |bs| - 1;
    if i < n {
      assert bs[i := b][..n] == bs[..n][i := b];
      LiveSumUpdate(bs[..n], i, b);
    } else {
      assert bs[i := b][..n] == bs[..n];
    }
  }

  /** Every live byte is a byte of the pool. */
  lemma {:induction false} LiveSumBounded(s: Pool, n: nat)
    requires s.LaidOut() && n <= |s.blocks|
    ensures LiveSum(s.blocks[..n]) <= (if n == 0 then 0 else s.blocks[n - 1].p + s.blocks[n - 1].size - s.base)
  {
    if n > 0 {
      LiveSumBounded(s, n - 1);
      assert s.blocks[..n][..n - 1] == s.blocks[..n - 1];
    }
  }

  function Max(a: nat, b: nat): nat { if a > b then a else b }

  // ---- freeing ----

  function Released(s: Pool, i: nat): Pool
    requires i < |s.blocks|
  {
    var b := s.blocks[i];
    s.(mem := Store(Store(s.mem, Field(b, 0), 0), b.p, s.head), head := b.p,
       used := if s.used >= b.size then s.used - b.size else 0,
       blocks := s.blocks[i := b.(live := false)], order := [i] + s.order)
  }

  lemma LiveIsCounted(s: Pool, i: nat)
    requires s.Valid() && i < |s.blocks| && s.blocks[i].live
    ensures s.used >= s.blocks[i].size && s.used <= POOL
  {
    LiveSumUpdate(s.blocks, i, s.blocks[i].(live := false));
    LiveSumBounded(s, |s.blocks|);
    assert s.blocks[..|s.blocks|] == s.blocks;
  }

  /** Freeing a live block moves it to the front of the free list; nobody's bytes change. */
  lemma ReleaseKeeps(s: Pool, i: nat)
    requires s.Valid() && i < |s.blocks| && s.blocks[i].live
    ensures Released(s, i).Valid()
    ensures SamePayloads(s.(blocks := Released(s, i).blocks), Released(s, i).mem)
  {
    hide Load, Store, LiveSum;
    LiveIsCounted(s, i);
    var t := Released(s, i);
    ReleaseMem(s, i);
    LiveSumUpdate(s.blocks, i, t.blocks[i]);
    assert t.LaidOut();
    ReleaseList(s, i);
  }

  lemma ReleaseMem(s: Pool, i: nat)
    requires s.Valid() && i < |s.blocks| && s.blocks[i].live
    ensures var t := Released(s, i);
            && t.LaidOut() && t.Headed() && Load(t.mem, Field(s.blocks[i], 2)) == s.head
            && (forall j :: 0 <= j < |s.blocks| && j != i ==>
                  && Load(t.mem, Field(s.blocks[j], 2)) == Load(s.mem, Field(s.blocks[j], 2))
                  && SameBytes(s.mem, t.mem, s.blocks[j]))
  {
    hide Load, Store, Pool.Counted;
    var s1 := s.(mem := Store(s.mem, Field(s.blocks[i], 0), 0));
    HeadInPool(s);
    StoreField(s, i, 0, 0);
    StoreField(s1, i, 2, s.head);
    assert Field(s.blocks[i], 2) == s.blocks[i].p;
    HeadedAgain(s, Released(s, i), i, false);
  }

  /** One block changes hands: its magic is rewritten, all other header words stay. */
  lemma HeadedAgain(s: Pool, t: Pool, i: nat, live: bool)
    requires s.LaidOut() && s.Headed() && i < |s.blocks| && t.base == s.base && t.cur == s.cur
    requires t.blocks == s.blocks[i := s.blocks[i].(live := live)]
    requires Load(t.mem, Field(s.blocks[i], 0)) == if live then MAGIC else 0
    requires forall j, f :: 0 <= j < |s.blocks| && 0 <= f < 2 && (j != i || f != 0) ==>
               Load(t.mem, Field(s.blocks[j], f)) == Load(s.mem, Field(s.blocks[j], f))
    ensures t.LaidOut() && t.Headed()
  {
    hide Load;
    assert t.LaidOut();
    forall j | 0 <= j < |t.blocks|
      ensures Load(t.mem, Field(t.blocks[j], 0)) == (if t.blocks[j].live then MAGIC else 0)
      ensures Load(t.mem, Field(t.blocks[j], 1)) == t.blocks[j].size
    {
      assert Field(t.blocks[j], 0) == Field(s.blocks[j], 0) && Field(t.blocks[j], 1) == Field(s.blocks[j], 1);
    }
  }

  lemma HeadInPool(s: Pool)
    requires s.Valid()
    ensures s.head < U64
  {
    if s.order != [] { assert s.order[0] < |s.blocks|; }
  }

  lemma ReleaseList(s: Pool, i: nat)
    requires s.Valid() && i < |s.blocks| && s.blocks[i].live
    ensures Released(s, i).LaidOut() && Released(s, i).Listed() && Released(s, i).Chained()
  {
    hide Load, Store, LiveSum, Pool.Headed, Pool.Counted, Pool.Chained, SameBytes;
    ReleaseMem(s, i);
    ReleaseListed(s, i);
    ChainPrepended(s, Released(s, i), i);
  }

  /** Linking one more block in front of the chain. */
  lemma ChainPrepended(s: Pool, t: Pool, i: nat)
    requires s.LaidOut() && s.Listed() && s.Chained() && t.LaidOut() && t.Listed()
    requires i < |s.blocks| && s.blocks[i].live && t.order == [i] + s.order && t.head == s.blocks[i].p
    requires |t.blocks| == |s.blocks| && forall j :: 0 <= j < |s.blocks| ==> t.blocks[j].p == s.blocks[j].p
    requires Load(t.mem, Field(s.blocks[i], 2)) == s.head
    requires forall j :: 0 <= j < |s.blocks| && j != i ==>
               Load(t.mem, Field(s.blocks[j], 2)) == Load(s.mem, Field(s.blocks[j], 2))
    ensures t.Chained()
  {
    hide Load, Pool.LaidOut, Pool.Addr, Distinct;
    PrependAddr(s, t, i, 0);
    assert t.head == t.Addr(0);
    forall k | 0 <= k < |t.order| ensures Load(t.mem, Field(t.blocks[t.order[k]], 2)) == t.Addr(k + 1) {
      PrependAddr(s, t, i, k);
      if k > 0 {
        var j := s.order[k - 1];
        assert t.order[k] == j != i;
        assert Load(s.mem, Field(s.blocks[j], 2)) == s.Addr(k);
      }
    }
  }

  lemma PrependAddr(s: Pool, t: Pool, i: nat, k: nat)
    requires s.Listed() && t.Listed() && i < |s.blocks| && t.order == [i] + s.order
    requires |t.blocks| == |s.blocks| && forall j :: 0 <= j < |s.blocks| ==> t.blocks[j].p == s.blocks[j].p
    ensures t.Addr(0) == s.blocks[i].p && t.Addr(k + 1) == s.Addr(k)
  {
    hide Distinct;
  }

  lemma ReleaseListed(s: Pool, i: nat)
    requires s.Listed() && i < |s.blocks| && s.blocks[i].live
    ensures Released(s, i).Listed()
  {
    hide Store;
    var t := Released(s, i);
    assert i !in s.order;
    forall k | 0 < k < |t.order| ensures t.order[k] == s.order[k - 1] {}
    forall j | 0 <= j < |t.blocks| && !t.blocks[j].live ensures j in t.order {
      if j == i { assert t.order[0] == i; } else {
        assert j in s.order;
      }
    }
  }

  // ---- reusing a freed block ----

  function Reused(s: Pool, k: nat): Pool
    requires k < |s.order| && forall j :: 0 <= j < |s.order| ==> s.order[j] < |s.blocks|
  {
    var i := s.order[k];
    var b := s.blocks[i];
    var nxt := Load(s.mem, b.p);
    var m := if k == 0 then s.mem else Store(s.mem, Field(s.blocks[s.order[k - 1]], 2), nxt);
    s.(mem := Store(m, Field(b, 0), MAGIC), head := if k == 0 then nxt else s.head, used := s.used + b.size,
       high := Max(s.high, s.used + b.size), blocks := s.blocks[i := b.(live := true)],
       order := s.order[..k] + s.order[k + 1..])
  }

  /** Taking the k-th block off the free list makes it live again; nobody's bytes change. */
  lemma ReuseKeeps(s: Pool, k: nat)
    requires s.Valid() && k < |s.order|
    ensures Reused(s, k).Valid() && SamePayloads(s, Reused(s, k).mem)
  {
    hide Load, Store, LiveSum, Pool.Chained, Pool.Headed;
    var t := Reused(s, k);
    var i := s.order[k];
    ReuseMem(s, k);
    ReuseListed(s, k);
    LiveSumUpdate(s.blocks, i, t.blocks[i]);
    ReuseChain(s, t, k);
  }

  lemma ReuseMem(s: Pool, k: nat)
    requires s.Valid() && k < |s.order|
    ensures var t := Reused(s, k);
            && t.LaidOut() && t.Headed() && SamePayloads(s, t.mem)
            && (k > 0 ==> Load(t.mem, Field(s.blocks[s.order[k - 1]], 2)) == s.Addr(k + 1))
            && (forall j :: 0 <= j < |s.blocks| && (k > 0 ==> j != s.order[k - 1]) ==>
                  Load(t.mem, Field(s.blocks[j], 2)) == Load(s.mem, Field(s.blocks[j], 2)))
            && Load(s.mem, s.blocks[s.order[k]].p) == s.Addr(k + 1)
  {
    hide Load, Store, Pool.Counted;
    var i := s.order[k];
    var nxt := Load(s.mem, s.blocks[i].p);
    assert Field(s.blocks[i], 2) == s.blocks[i].p;
    assert Load(s.mem, Field(s.blocks[i], 2)) == s.Addr(k + 1);
    AddrInPool(s, k + 1);
    var s1 := s;
    if k > 0 {
      StoreField(s, s.order[k - 1], 2, nxt);
      s1 := s.(mem := Store(s.mem, Field(s.blocks[s.order[k - 1]], 2), nxt));
    }
    StoreField(s1, i, 0, MAGIC);
    HeadedAgain(s, Reused(s, k), i, true);
  }

  lemma AddrInPool(s: Pool, k: nat)
    requires s.LaidOut() && s.Listed()
    ensures s.Addr(k) < U64
  {
    if k < |s.order| { assert s.order[k] < |s.blocks|; }
  }

  lemma ReuseListed(s: Pool, k: nat)
    requires s.Listed() && k < |s.order|
    ensures Reused(s, k).Listed()
  {
    hide Load, Store;
    var t := Reused(s, k);
    forall j | 0 <= j < |t.order| ensures t.order[j] == s.order[if j < k then j else j + 1] != s.order[k] {}
    forall j | 0 <= j < |t.blocks| && !t.blocks[j].live ensures j in t.order {
      var x :| 0 <= x < |s.order| && s.order[x] == j;
      assert t.order[if x < k then x else x - 1] == j;
    }
  }

  /** Unlinking the k-th block: its predecessor, or the head, now leads to its successor. */
  lemma ReuseChain(s: Pool, t: Pool, k: nat)
    requires s.LaidOut() && s.Listed() && s.Chained() && t.LaidOut() && t.Listed() && k < |s.order|
    requires t.order == s.order[..k] + s.order[k + 1..] && t.head == if k == 0 then s.Addr(1) else s.head
    requires |t.blocks| == |s.blocks| && forall j :: 0 <= j < |s.blocks| ==> t.blocks[j].p == s.blocks[j].p
    requires k > 0 ==> Load(t.mem, Field(s.blocks[s.order[k - 1]], 2)) == s.Addr(k + 1)
    requires forall j :: 0 <= j < |s.blocks| && (k > 0 ==> j != s.order[k - 1]) ==>
               Load(t.mem, Field(s.blocks[j], 2)) == Load(s.mem, Field(s.blocks[j], 2))
    ensures t.Chained()
  {
    hide Load, Pool.LaidOut, Pool.Addr, Distinct;
    ReuseAddr(s, t, k, 0);
    forall x | 0 <= x < |t.order| ensures Load(t.mem, Field(t.blocks[t.order[x]], 2)) == t.Addr(x + 1) {
      ReuseLink(s, t, k, x);
    }
  }

  lemma ReuseLink(s: Pool, t: Pool, k: nat, x: nat)
    requires s.LaidOut() && s.Listed() && s.Chained() && t.Listed() && k < |s.order| && x < |t.order|
    requires t.order == s.order[..k] + s.order[k + 1..]
    requires |t.blocks| == |s.blocks| && forall j :: 0 <= j < |s.blocks| ==> t.blocks[j].p == s.blocks[j].p
    requires k > 0 ==> Load(t.mem, Field(s.blocks[s.order[k - 1]], 2)) == s.Addr(k + 1)
    requires forall j :: 0 <= j < |s.blocks| && (k > 0 ==> j != s.order[k - 1]) ==>
               Load(t.mem, Field(s.blocks[j], 2)) == Load(s.mem, Field(s.blocks[j], 2))
    ensures Load(t.mem, Field(t.blocks[t.order[x]], 2)) == t.Addr(x + 1)
  {
    hide Load, Pool.LaidOut, Pool.Chained, Pool.Addr, Distinct;
    var y := if x < k then x else x + 1;
    var j := s.order[y];
    assert t.order[x] == j;
    ReuseAddr(s, t, k, x + 1);
    LinkAt(s, y);
    if k > 0 && x != k - 1 { Different(s.order, y, k - 1); }
  }

  lemma LinkAt(s: Pool, k: nat)
    requires s.LaidOut() && s.Listed() && s.Chained() && k < |s.order|
    ensures Load(s.mem, Field(s.blocks[s.order[k]], 2)) == s.Addr(k + 1)
  {
    hide Load, Pool.LaidOut, Pool.Addr, Distinct;
  }

  lemma Different(s: seq<nat>, i: nat, j: nat)
    requires Distinct(s) && i < |s| && j < |s| && i != j
    ensures s[i] != s[j]
  {}

  lemma ReuseAddr(s: Pool, t: Pool, k: nat, x: nat)
    requires s.Listed() && t.Listed() && k < |s.order| && t.order == s.order[..k] + s.order[k + 1..]
    requires |t.blocks| == |s.blocks| && forall j :: 0 <= j < |s.blocks| ==> t.blocks[j].p == s.blocks[j].p
    ensures t.Addr(x) == s.Addr(if x < k then x else x + 1)
  {
    hide Distinct;
  }

  // ---- extending the pool ----

  function Bumped(s: Pool, p: nat, n: nat): Pool {
    s.(mem := Store(Store(s.mem, p - 16, MAGIC), p - 8, n), cur := p + n, used := s.used + n,
       high := Max(s.high, s.used + n), blocks := s.blocks + [Block(p, n, true)])
  }

  /** A block bumped off the end of the pool is disjoint from all others; nobody's bytes change. */
  lemma BumpKeeps(s: Pool, p: nat, n: nat)
    requires s.Valid() && n >= MIN && p % 16 == 0 && s.Cursor() + 16 <= p && p + n <= s.base + POOL
    ensures Bumped(s, p, n).Valid() && SamePayloads(s, Bumped(s, p, n).mem)
  {
    hide Load, Store, LiveSum, Pool.Chained, Pool.Headed;
    var t := Bumped(s, p, n);
    BumpMem(s, p, n);
    assert t.Counted() by {
      assert t.blocks[..|t.blocks| - 1] == s.blocks;
      LiveSumSnoc(s.blocks, Block(p, n, true));
    }
    BumpList(s, t);
  }

  lemma LiveSumSnoc(bs: seq<Block>, b: Block)
    ensures LiveSum(bs + [b]) == LiveSum(bs) + if b.live then b.size else 0
  {
    assert (bs + [b])[..|bs|] == bs;
  }

  lemma BumpMem(s: Pool, p: nat, n: nat)
    requires s.Valid() && n >= MIN && p % 16 == 0 && s.Cursor() + 16 <= p && p + n <= s.base + POOL
    ensures var t := Bumped(s, p, n);
            && t.LaidOut() && t.Headed() && SamePayloads(s, t.mem)
            && forall j :: 0 <= j < |s.blocks| ==>
                 Load(t.mem, Field(s.blocks[j], 2)) == Load(s.mem, Field(s.blocks[j], 2))
  {
    hide Load, Store, LiveSum;
    var m1 := Store(s.mem, p - 16, MAGIC);
    LoadStored(s.mem, p - 16, MAGIC);
    StoreElsewhere(s.mem, p - 16, MAGIC);
    LoadStored(m1, p - 8, n);
    StoreElsewhere(m1, p - 8, n);
    var t := Bumped(s, p, n);
    assert t.LaidOut();
    forall j, f | 0 <= j < |s.blocks| && 0 <= f < 3
      ensures Load(t.mem, Field(s.blocks[j], f)) == Load(s.mem, Field(s.blocks[j], f))
    {
      assert Field(s.blocks[j], f) + 8 <= p - 16;
    }
    forall j | 0 <= j < |t.blocks|
      ensures Load(t.mem, Field(t.blocks[j], 0)) == (if t.blocks[j].live then MAGIC else 0)
      ensures Load(t.mem, Field(t.blocks[j], 1)) == t.blocks[j].size
    {
      if j < |s.blocks| {
        assert Load(t.mem, Field(s.blocks[j], 0)) == Load(s.mem, Field(s.blocks[j], 0));
        assert Load(t.mem, Field(s.blocks[j], 1)) == Load(s.mem, Field(s.blocks[j], 1));
      }
    }
  }

  lemma BumpList(s: Pool, t: Pool)
    requires s.LaidOut() && s.Listed() && s.Chained() && t.LaidOut()
    requires t.order == s.order && t.head == s.head && |t.blocks| == |s.blocks| + 1
    requires t.blocks[..|s.blocks|] == s.blocks && t.blocks[|s.blocks|].live
    requires forall j :: 0 <= j < |s.blocks| ==>
               Load(t.mem, Field(s.blocks[j], 2)) == Load(s.mem, Field(s.blocks[j], 2))
    ensures t.Listed() && t.Chained()
  {
    hide Load, Pool.LaidOut, Pool.Addr, Distinct;
    assert forall j :: 0 <= j < |s.blocks| ==> t.blocks[j] == t.blocks[..|s.blocks|][j];
    assert t.Listed();
    BumpAddr(s, t, 0);
    forall x | 0 <= x < |t.order| ensures Load(t.mem, Field(t.blocks[t.order[x]], 2)) == t.Addr(x + 1) {
      var j := s.order[x];
      assert Load(s.mem, Field(s.blocks[j], 2)) == s.Addr(x + 1);
      BumpAddr(s, t, x + 1);
    }
  }

  lemma BumpAddr(s: Pool, t: Pool, k: nat)
    requires s.Listed() && t.Listed() && t.order == s.order && |s.blocks| <= |t.blocks|
    requires forall j :: 0 <= j < |s.blocks| ==> t.blocks[j] == s.blocks[j]
    ensures t.Addr(k) == s.Addr(k)
  {
    hide Distinct;
  }

  // ---- callers ----

  /** Callers write their own payloads only. */
  lemma CallerWrites(s: Pool, m: Memory)
    requires s.Valid()
    requires forall x :: Get(m, x) != Get(s.mem, x) ==>
               exists j :: 0 <= j < |s.blocks| && s.blocks[j].live
                 && s.blocks[j].p <= x < s.blocks[j].p + s.blocks[j].size
    ensures s.(mem := m).Valid()
  {
    hide Load, LiveSum;
    forall i, f | 0 <= i < |s.blocks| && 0 <= f < 3 && (f < 2 || !s.blocks[i].live)
      ensures Load(m, Field(s.blocks[i], f)) == Load(s.mem, Field(s.blocks[i], f))
    {
      var a := Field(s.blocks[i], f);
      forall x | a <= x < a + 8 ensures Get(m, x) == Get(s.mem, x) { FieldsAreNobodys(s, i, f, x); }
      LoadSame(s.mem, m, a);
    }
    SameFields(s, m);
  }

  /** Only headers and the links of freed blocks matter. */
  lemma SameFields(s: Pool, m: Memory)
    requires s.Valid()
    requires forall i, f :: 0 <= i < |s.blocks| && 0 <= f < 3 && (f < 2 || !s.blocks[i].live) ==>
               Load(m, Field(s.blocks[i], f)) == Load(s.mem, Field(s.blocks[i], f))
    ensures s.(mem := m).Valid()
  {
    hide Load, LiveSum, Pool.Addr, Distinct;
    var t := s.(mem := m);
    assert t.LaidOut() && t.Listed();
    assert t.Addr(0) == s.Addr(0) by { MemAddr(s, m, 0); }
    forall k | 0 <= k < |t.order| ensures Load(t.mem, Field(t.blocks[t.order[k]], 2)) == t.Addr(k + 1) {
      LinkAt(s, k);
      MemAddr(s, m, k + 1);
    }
  }

  lemma MemAddr(s: Pool, m: Memory, k: nat)
    requires s.Listed()
    ensures s.(mem := m).Listed() && s.(mem := m).Addr(k) == s.Addr(k)
  {}

  /** Headers and links lie in no live payload. */
  lemma FieldsAreNobodys(s: Pool, i: nat, f: nat, x: int)
    requires s.LaidOut() && i < |s.blocks| && f < 3 && (f < 2 || !s.blocks[i].live)
    requires Field(s.blocks[i], f) <= x < Field(s.blocks[i], f) + 8
    ensures forall j :: 0 <= j < |s.blocks| && s.blocks[j].live ==>
              x < s.blocks[j].p || s.blocks[j].p + s.blocks[j].size <= x
  {
    forall j | 0 <= j < |s.blocks| && s.blocks[j].live && j != i
      ensures x < s.blocks[j].p || s.blocks[j].p + s.blocks[j].size <= x
    {
      Apart(s, i, j);
    }
  }

  lemma Apart(s: Pool, i: nat, j: nat)
    requires s.LaidOut() && i < |s.blocks| && j < |s.blocks| && i != j
    ensures var a, b := s.blocks[i], s.blocks[j]; a.p + a.size <= b.p - 16 || b.p + b.size <= a.p - 16
  {}

  // ---- placement ----

  /** align & (align - 1) == 0, for align > 0. */
  predicate PowerOfTwo(a: nat) { a == 1 || (a > 1 && a % 2 == 0 && PowerOfTwo(a / 2)) }

  function Pow2(k: nat): nat { if k == 0 then 1 else 2 * Pow2(k - 1) }

  lemma {:induction false} PowerOfTwoExact(a: nat)
    ensures PowerOfTwo(a) ==> exists k: nat :: a == Pow2(k)
    ensures forall k: nat :: a == Pow2(k) ==> PowerOfTwo(a)
  {
    if a > 1 && a % 2 == 0 { PowerOfTwoExact(a / 2); }
    if PowerOfTwo(a) {
      if a == 1 { assert a == Pow2(0); }
      else {
        var k: nat :| a / 2 == Pow2(k);
        assert a == Pow2(k + 1);
      }
    }
    forall k: nat | a == Pow2(k) ensures PowerOfTwo(a) {
      Pow2Positive(k);
      if k > 0 {
        Pow2Positive(k - 1);
        assert a / 2 == Pow2(k - 1);
      }
    }
  }

  lemma Pow2Positive(k: nat)
    ensures Pow2(k) >= 1
  {}

  function RoundUp(x: nat, a: nat): nat
    requires a > 0
  {
    (x + a - 1) / a * a
  }

  lemma RoundUpBounds(x: nat, a: nat)
    requires a > 0
    ensures x <= RoundUp(x, a) < x + a && RoundUp(x, a) % a == 0
  {
    var q := (x + a - 1) / a;
    assert x + a - 1 == q * a + (x + a - 1) % a;
    MultipleMod(q, a);
  }

  lemma MultipleMod(q: nat, a: nat)
    requires a > 0
    ensures q * a % a == 0
  {
    var d, r := q * a / a, q * a % a;
    assert (q - d) * a == r;
    Multiples(q - d, a);
  }

  lemma SixteenDivides(p: nat, a: nat)
    requires a > 0 && a % 16 == 0 && p % a == 0
    ensures p % 16 == 0
  {
    var m, c := p / a, a / 16;
    assert p == m * a;
    assert p == (m * c) * 16;
  }

  lemma Sixteen()
    ensures PowerOfTwo(16) && !PowerOfTwo(0)
  {}

  lemma Halve(a: nat)
    requires a > 1 && PowerOfTwo(a)
    ensures a == 2 || a == 4 || a == 8 || a % 16 == 0
  {
    var b := HalfOf(a);
    if b > 1 {
      var c := HalfOf(b);
      if c > 1 {
        var d := HalfOf(c);
        if d > 1 {
          var e := HalfOf(d);
          DivMod(e, 16, 0);
        }
      }
    }
  }

  lemma HalfOf(a: nat) returns (b: nat)
    requires a > 1 && PowerOfTwo(a)
    ensures a == 2 * b && b >= 1 && PowerOfTwo(b)
  {
    b := a / 2;
  }

  lemma SixteenOrMore(a: nat)
    requires PowerOfTwo(a)
    ensures a in {1, 2, 4, 8} || a % 16 == 0
  {
    if a > 1 { Halve(a); }
  }

  /** Where a bumped payload goes: behind a 16-aligned header, at a multiple of align. */
  function PlaceAt(cursor: nat, align: nat): nat
    requires align > 0
  {
    RoundUp(RoundUp(cursor, 16) + 16, align)
  }

  lemma PlaceAtFits(cursor: nat, align: nat)
    requires PowerOfTwo(align)
    ensures cursor + 16 <= PlaceAt(cursor, align) && PlaceAt(cursor, align) % 16 == 0
            && PlaceAt(cursor, align) % align == 0
  {
    hide RoundUp;
    var h := RoundUp(cursor, 16);
    RoundUpBounds(cursor, 16);
    RoundUpBounds(h + 16, align);
    SixteenOrMore(align);
    if align % 16 == 0 { SixteenDivides(PlaceAt(cursor, align), align); } else { SmallPlace(h + 16, align); }
  }

  /** No lower address that leaves room for a header is aligned. */
  lemma PlaceAtLeast(cursor: nat, align: nat, q: nat)
    requires PowerOfTwo(align) && q >= cursor + 16 && q % 16 == 0 && q % align == 0
    ensures PlaceAt(cursor, align) <= q
  {
    hide RoundUp;
    var h := RoundUp(cursor, 16);
    RoundUpLeast(cursor, 16, q - 16);
    RoundUpLeast(h + 16, align, q);
  }

  lemma RoundUpLeast(x: nat, a: nat, q: nat)
    requires a > 0 && x <= q && q % a == 0
    ensures RoundUp(x, a) <= q
  {
    RoundUpBounds(x, a);
    var r := RoundUp(x, a);
    var c, d := (x + a - 1) / a, q / a;
    assert r == c * a && q == d * a;
    assert r - q == (c - d) * a;
    if c > d { Multiples(c - d, a); }
  }

  lemma SmallPlace(x: nat, align: nat)
    requires x % 16 == 0 && align in {1, 2, 4, 8}
    ensures RoundUp(x, align) == x
  {
    hide RoundUp;
    Divides(x, align);
    RoundExact(x, align);
  }

  lemma Divides(x: nat, align: nat)
    requires x % 16 == 0 && align in {1, 2, 4, 8, 16}
    ensures x % align == 0
  {
    var y := x / 16;
    if align == 2 { DivMod(y * 8, 2, 0); } else if align == 4 { DivMod(y * 4, 4, 0); }
    else if align == 8 { DivMod(y * 2, 8, 0); }
  }

  lemma RoundExact(x: nat, a: nat)
    requires a > 0 && x % a == 0
    ensures RoundUp(x, a) == x
  {
    RoundUpBounds(x, a);
    var q := (x + a - 1) / a;
    assert (q - x / a) * a == RoundUp(x, a) - x;
    Multiples(q - x / a, a);
  }

  // ---- results of an allocation ----

  /** t grants one more block than s, of at least n bytes at p; p was not live, everything
      else is as it was, and the counters follow. */
  ghost predicate Granted(s: Pool, t: Pool, p: nat, n: nat) {
    && t.Valid() && SamePayloads(s, t.mem)
    && |s.blocks| <= |t.blocks|
    && exists i :: 0 <= i < |t.blocks| && GrantedAt(s, t, p, n, i)
  }

  ghost predicate GrantedAt(s: Pool, t: Pool, p: nat, n: nat, i: nat)
    requires i < |t.blocks|
  {
    && t.blocks[i].p == p && t.blocks[i].live && t.blocks[i].size >= Max(n, MIN)
    && i <= |s.blocks| && (i < |s.blocks| ==> !s.blocks[i].live)
    && |t.blocks| <= (if i < |s.blocks| then |s.blocks| else i + 1)
    && (forall j :: 0 <= j < |t.blocks| && j < |s.blocks| && j != i ==> t.blocks[j] == s.blocks[j])
    && t.used == s.used + t.blocks[i].size && t.high == Max(s.high, t.used)
  }

  /** The k-th listed block is the first that is large enough. */
  ghost predicate FirstFit(s: Pool, k: nat, n: nat)
    requires s.Listed()
  {
    && k < |s.order| && s.blocks[s.order[k]].size >= n
    && forall j :: 0 <= j < k ==> s.blocks[s.order[j]].size < n
  }

  ghost predicate NoFit(s: Pool, n: nat)
    requires s.Listed()
  {
    forall j :: 0 <= j < |s.order| ==> s.blocks[s.order[j]].size < n
  }

  /** p is the first listed block of at least n bytes, and t is s with it taken off the list. */
  ghost predicate TookFirst(s: Pool, t: Pool, p: nat, n: nat)
    requires s.Listed()
  {
    exists k: nat :: k < |s.order| && FirstFit(s, k, n) && t == Reused(s, k) && p == s.Addr(k)
  }

  /** What a successful allocation does: the first listed block that is large enough is taken
      off the list, and if there is none, or the alignment is too large for listed blocks, a
      new block is bumped off the end. */
  ghost predicate Allocates(s: Pool, t: Pool, p: nat, n: nat, align: nat)
    requires s.Listed() && align > 0
  {
    if align <= 16 && !NoFit(s, Max(n, MIN)) then TookFirst(s, t, p, Max(n, MIN))
    else
      && p == PlaceAt(s.Cursor(), align) && p + Max(n, MIN) <= s.base + POOL
      && t == Bumped(s, p, Max(n, MIN))
  }

  lemma NextSixteen(x: nat) returns (q: nat)
    ensures q % 16 == 0 && x <= q < x + 16
  {
    q := (x + 15) / 16 * 16;
  }

  /** malloc by numbers: the first listed block of at least n and at least 8 bytes, or else that many
      bytes at the first multiple of 16 that leaves 16 for a header, if they are below base + 64 MiB. */
  lemma AllocatesExactly(s: Pool, t: Pool, p: nat, n: nat)
    requires s.Valid() && Allocates(s, t, p, n, 16)
    ensures var want := if n < 8 then 8 else n;
            && (!NoFit(s, want) ==>
                  exists k :: 0 <= k < |s.order| && FirstFit(s, k, want) && p == s.blocks[s.order[k]].p
                         && t.blocks == s.blocks[s.order[k] := s.blocks[s.order[k]].(live := true)])
            && (NoFit(s, want) ==>
                  && p % 16 == 0 && s.Cursor() + 16 <= p < s.Cursor() + 32 && t.cur == p + want <= s.base + 0x400_0000
                  && t.blocks == s.blocks + [Block(p, want, true)])
  {
    hide Load, Store, LiveSum, RoundUp, PlaceAt, PowerOfTwo, Pool.Headed, Pool.Chained, Distinct;
    Sixteen();
    PlaceAtFits(s.Cursor(), 16);
    var c := s.Cursor();
    var q := NextSixteen(c + 16);
    PlaceAtLeast(c, 16, q);
  }

  lemma AllocatesGrants(s: Pool, t: Pool, p: nat, n: nat, align: nat)
    requires s.Valid() && PowerOfTwo(align) && Allocates(s, t, p, n, align)
    ensures Granted(s, t, p, n)
  {
    hide Load, Store, LiveSum, Granted, RoundUp, Pool.Headed, Pool.Chained;
    if align <= 16 && !NoFit(s, Max(n, MIN)) {
      var k: nat :| k < |s.order| && FirstFit(s, k, Max(n, MIN)) && t == Reused(s, k) && p == s.Addr(k);
      ReuseGrants(s, k, n);
    } else {
      BumpGrants(s, align, n);
    }
  }

  /** Some listed block is large enough for n bytes, or there is room for them behind the cursor. */
  ghost predicate CanGrant(s: Pool, n: nat, align: nat)
    requires s.Listed() && align > 0
  {
    (align <= 16 && !NoFit(s, Max(n, MIN))) || PlaceAt(s.Cursor(), align) + Max(n, MIN) <= s.base + POOL
  }

  lemma ReuseGrants(s: Pool, k: nat, n: nat)
    requires s.Valid() && FirstFit(s, k, Max(n, MIN))
    ensures Granted(s, Reused(s, k), s.blocks[s.order[k]].p, n)
  {
    hide Load, Store, LiveSum;
    ReuseKeeps(s, k);
    assert GrantedAt(s, Reused(s, k), s.blocks[s.order[k]].p, n, s.order[k]);
  }

  lemma BumpGrants(s: Pool, align: nat, n: nat)
    requires s.Valid() && PowerOfTwo(align) && PlaceAt(s.Cursor(), align) + Max(n, MIN) <= s.base + POOL
    ensures var p := PlaceAt(s.Cursor(), align);
            Granted(s, Bumped(s, p, Max(n, MIN)), p, n) && p % align == 0
  {
    hide Load, Store, LiveSum, RoundUp;
    var p := PlaceAt(s.Cursor(), align);
    PlaceAtFits(s.Cursor(), align);
    BumpKeeps(s, p, Max(n, MIN));
    assert GrantedAt(s, Bumped(s, p, Max(n, MIN)), p, n, |s.blocks|);
  }

  // ---- words that look like a header ----

  /** The eight letters of the magic word. */
  lemma MagicLetters()
    ensures ByteOf(MAGIC, 0) == 0x4C && ByteOf(MAGIC, 1) == 0x41 && ByteOf(MAGIC, 2) == 0x4D && ByteOf(MAGIC, 3) == 0x45
    ensures ByteOf(MAGIC, 4) == 0x53 && ByteOf(MAGIC, 5) == 0x55 && ByteOf(MAGIC, 6) == 0x4F && ByteOf(MAGIC, 7) == 0x48
  {
    var v4 := 0x484F5553;
    assert MAGIC / 256 / 256 / 256 / 256 == v4;
    assert ByteOf(MAGIC, 4) == ByteOf(v4, 0) && ByteOf(MAGIC, 5) == ByteOf(v4, 1);
    assert ByteOf(MAGIC, 6) == ByteOf(v4, 2) && ByteOf(MAGIC, 7) == ByteOf(v4, 3);
  }

  lemma LettersDiffer(i: nat, j: nat)
    requires i < 8 && j < 8
    ensures ByteOf(MAGIC, i) != 0 && (ByteOf(MAGIC, i) == ByteOf(MAGIC, j) <==> i == j)
  {
    MagicLetters();
    hide ByteOf;
  }

  /** No letter repeats, so two magic words never overlap. */
  lemma MagicApart(m: Memory, a: int, w: int)
    requires Load(m, a) == MAGIC && Load(m, w) == MAGIC && a != w
    ensures a + 8 <= w || w + 8 <= a
  {
    hide Load, ByteOf;
    if a < w < a + 8 {
      WordByte(m, a, w - a);
      WordByte(m, w, 0);
      LettersDiffer(w - a, 0);
    } else if w < a < w + 8 {
      WordByte(m, w, a - w);
      WordByte(m, a, 0);
      LettersDiffer(a - w, 0);
    }
  }

  /** A magic word covers no zero byte: in a word below 256^k, none of those from k on. */
  lemma MagicAvoidsZeros(m: Memory, a: int, w: int, k: nat)
    requires Load(m, a) == MAGIC && k < 8 && Load(m, w) < Pow256(k)
    ensures a + 8 <= w + k || w + 8 <= a
  {
    hide Load, ByteOf;
    if a + 8 > w + k && a < w + 8 {
      var x := if a < w + k then w + k else a;
      WordByte(m, w, x - w);
      HighBytesZero(Load(m, w), k, x - w);
      WordByte(m, a, x - a);
      LettersDiffer(x - a, 0);
    }
  }

  /** A magic word that is not some block's own header overlaps no header and no link. */
  lemma MagicIsNoField(s: Pool, a: int, i: nat, f: nat)
    requires s.Valid() && Load(s.mem, a) == MAGIC && i < |s.blocks| && f < 3 && (f < 2 || !s.blocks[i].live)
    requires a != Field(s.blocks[i], 0)
    ensures a + 8 <= Field(s.blocks[i], f) || Field(s.blocks[i], f) + 8 <= a
  {
    hide Load, LiveSum, Pow256;
    var b := s.blocks[i];
    Powers();
    assert Load(s.mem, Field(b, 1)) == b.size < Pow256(4);
    if b.live { MagicApart(s.mem, a, Field(b, 0)); } else { MagicAvoidsZeros(s.mem, a, Field(b, 0), 0); }
    MagicAvoidsZeros(s.mem, a, Field(b, 1), 4);
    if !b.live {
      LinkSmall(s, i);
      MagicAvoidsZeros(s.mem, a, Field(b, 2), 7);
    }
  }

  lemma Powers()
    ensures Pow256(0) == 1 && Pow256(4) == 0x1_0000_0000 && Pow256(7) == 0x100_0000_0000_0000
  {
    assert Pow256(4) == 256 * 256 * 256 * 256;
    assert Pow256(7) == 256 * 256 * 256 * Pow256(4);
  }

  lemma LinkSmall(s: Pool, i: nat)
    requires s.Valid() && i < |s.blocks| && !s.blocks[i].live
    ensures Load(s.mem, Field(s.blocks[i], 2)) < 0x100_0000_0000_0000
  {
    hide Load, LiveSum, Distinct;
    var k :| 0 <= k < |s.order| && s.order[k] == i;
    LinkAt(s, k);
    if k + 1 < |s.order| { assert s.order[k + 1] < |s.blocks|; }
  }

  // ---- what free does ----

  /** The test of header_for: the range first, then the magic word. */
  predicate Passes(s: Pool, p: nat) { s.base + 16 <= p < s.base + POOL && Load(s.mem, p - 16) == MAGIC }

  function SizeAt(s: Pool, p: nat): nat
    requires p >= 16
  {
    Load(s.mem, p - 8)
  }

  /** Memory and globals after free(p), whatever p is: nothing changes unless p passes the test;
      a recorded size too small for a link has its magic cleared and no more. */
  function AfterFree(s: Pool, p: nat): Pool {
    if !Passes(s, p) then s
    else if SizeAt(s, p) < MIN then s.(mem := Store(s.mem, p - 16, 0))
    else s.(mem := Store(Store(s.mem, p - 16, 0), p, s.head), head := p,
            used := if s.used >= SizeAt(s, p) then s.used - SizeAt(s, p) else 0)
  }

  /** The same up to what the model records about the blocks. */
  ghost predicate SameMachine(s: Pool, t: Pool) { s.(blocks := [], order := []) == t.(blocks := [], order := []) }

  ghost predicate LivePayload(s: Pool, p: nat) {
    exists i :: 0 <= i < |s.blocks| && s.blocks[i].p == p && s.blocks[i].live
  }

  /** Whatever is handed out passes the test, with its size recorded. */
  lemma LivePasses(s: Pool, i: nat)
    requires s.Valid() && i < |s.blocks| && s.blocks[i].live
    ensures Passes(s, s.blocks[i].p) && SizeAt(s, s.blocks[i].p) == s.blocks[i].size >= 8
    ensures Freeable(s, s.blocks[i].p) && !Passes(s, 0)
  {
    hide Load, LiveSum;
    LiveHeader(s, i);
    assert Load(s.mem, Field(s.blocks[i], 0)) == MAGIC;
  }

  /** A block that is freed is the next one handed out, to whoever asks for no more than it holds;
      block list, free list and counters are then as before. */
  lemma MallocAfterFree(s: Pool, i: nat, n: nat, t: Pool, u: Pool, p: nat)
    requires s.Valid() && i < |s.blocks| && s.blocks[i].live && n <= s.blocks[i].size
    requires t.Valid() && Frees(s, s.blocks[i].p, t) && Allocates(t, u, p, n, 16)
    ensures p == s.blocks[i].p && u.blocks == s.blocks && u.order == s.order && u.head == s.head && u.cur == s.cur
    ensures u.used == s.used && u.high == s.high
  {
    hide Load, Store, LiveSum, Pool.Headed, Released, Reused, Allocates, Frees;
    hide Pool.Chained, Pool.LaidOut, Pool.Listed;
    ReleasedFields(s, i);
    FreesThis(s, i, t);
    TakesFront(t, u, p, n);
    ReusedFields(t);
    HeadAfter(s, t, i);
    assert t.blocks[i := t.blocks[i].(live := true)] == s.blocks;
  }

  lemma ReleasedFields(s: Pool, i: nat)
    requires s.Valid() && i < |s.blocks| && s.blocks[i].live
    ensures var t := Released(s, i);
            && t.blocks == s.blocks[i := s.blocks[i].(live := false)] && t.order == [i] + s.order && t.cur == s.cur
            && t.used == s.used - s.blocks[i].size && t.high == s.high >= s.used
  {
    hide Load, Store, LiveSum;
    LiveIsCounted(s, i);
  }

  lemma ReusedFields(t: Pool)
    requires t.Listed() && t.order != [] && t.order[0] < |t.blocks|
    ensures var u, i := Reused(t, 0), t.order[0];
            && u.blocks == t.blocks[i := t.blocks[i].(live := true)] && u.order == t.order[1..] && u.cur == t.cur
            && u.head == Load(t.mem, t.blocks[i].p) && u.used == t.used + t.blocks[i].size
            && u.high == Max(t.high, u.used)
  {
    hide Load, Store;
    assert t.order[..0] + t.order[1..] == t.order[1..];
  }

  lemma FreesThis(s: Pool, i: nat, t: Pool)
    requires s.Valid() && i < |s.blocks| && s.blocks[i].live && Frees(s, s.blocks[i].p, t)
    ensures t == Released(s, i) && s.blocks[i].size >= MIN
  {
    hide Load, Store, LiveSum;
    LivePasses(s, i);
    var j :| 0 <= j < |s.blocks| && s.blocks[j].p == s.blocks[i].p && s.blocks[j].live && t == Released(s, j);
    assert i == j;
  }

  lemma TakesFront(t: Pool, u: Pool, p: nat, n: nat)
    requires t.Valid() && t.order != [] && t.blocks[t.order[0]].size >= Max(n, MIN) && Allocates(t, u, p, n, 16)
    ensures u == Reused(t, 0) && p == t.blocks[t.order[0]].p && Load(t.mem, p) == t.Addr(1)
  {
    hide Load, Store, LiveSum, RoundUp, Pool.Headed, Pool.Chained, Pool.LaidOut, Pool.Counted;
    assert FirstFit(t, 0, Max(n, MIN));
    var k: nat :| k < |t.order| && FirstFit(t, k, Max(n, MIN)) && u == Reused(t, k) && p == t.Addr(k);
    assert k == 0;
    FitStep(t, 0);
  }

  lemma HeadAfter(s: Pool, t: Pool, i: nat)
    requires s.Valid() && i < |s.blocks| && s.blocks[i].live && t == Released(s, i) && t.Valid()
    ensures t.Addr(1) == s.head
  {
    hide Load, Store, LiveSum;
    PrependAddr(s, t, i, 0);
  }

  /** What callers owe free. */
  ghost predicate Freeable(s: Pool, p: nat) { Passes(s, p) && SizeAt(s, p) >= MIN ==> LivePayload(s, p) }

  /** t is the pool after free(p): machine state, and which block changed hands. */
  ghost predicate Frees(s: Pool, p: nat, t: Pool) {
    if Passes(s, p) && SizeAt(s, p) >= MIN
    then exists i :: 0 <= i < |s.blocks| && s.blocks[i].p == p && s.blocks[i].live && t == Released(s, i)
    else t == AfterFree(s, p)
  }

  lemma FreesKeeps(s: Pool, p: nat, t: Pool)
    requires s.Valid() && Frees(s, p, t)
    ensures t.Valid() && SameMachine(t, AfterFree(s, p)) && t.high == s.high && t.used <= s.used
  {
    hide Load, Store, LiveSum, Pool.Valid;
    if Passes(s, p) && SizeAt(s, p) >= MIN {
      var i :| 0 <= i < |s.blocks| && s.blocks[i].p == p && s.blocks[i].live && t == Released(s, i);
      ReleaseKeeps(s, i);
      LiveHeader(s, i);
    } else if Passes(s, p) {
      ClearKeeps(s, p);
    }
  }

  /** Clearing a forged header disturbs nothing. */
  lemma ClearKeeps(s: Pool, p: nat)
    requires s.Valid() && Passes(s, p) && SizeAt(s, p) < MIN
    ensures s.(mem := Store(s.mem, p - 16, 0)).Valid()
  {
    hide Load, Store, LiveSum;
    var a := p - 16;
    StoreElsewhere(s.mem, a, 0);
    forall i, f | 0 <= i < |s.blocks| && 0 <= f < 3 && (f < 2 || !s.blocks[i].live)
      ensures Load(Store(s.mem, a, 0), Field(s.blocks[i], f)) == Load(s.mem, Field(s.blocks[i], f))
    {
      NoOwnHeader(s, p, i);
      MagicIsNoField(s, a, i, f);
    }
    SameFields(s, Store(s.mem, a, 0));
  }

  lemma NoOwnHeader(s: Pool, p: nat, i: nat)
    requires s.Valid() && Passes(s, p) && SizeAt(s, p) < MIN && i < |s.blocks|
    ensures p - 16 != Field(s.blocks[i], 0)
  {
    hide Load, LiveSum;
    var b := s.blocks[i];
    assert Load(s.mem, Field(b, 1)) == b.size >= MIN;
    assert Field(b, 1) == b.p - 8 && Field(b, 0) == b.p - 16;
  }

  /** The pool after free(p) is a valid pool over the same block addresses exactly when p fails
      the header test, records a size too small to link, or is a live payload. */
  lemma FreeExact(s: Pool, p: nat)
    requires s.Valid()
    ensures (exists bs: seq<Block>, order: seq<nat> ::
               SameAddresses(s.blocks, bs) && AfterFree(s, p).(blocks := bs, order := order).Valid())
            <==> Freeable(s, p)
  {
    hide Load, Store, LiveSum, Pool.Valid;
    if Freeable(s, p) {
      var t := if Passes(s, p) && SizeAt(s, p) >= MIN then
                 var i :| 0 <= i < |s.blocks| && s.blocks[i].p == p && s.blocks[i].live; Released(s, i)
               else AfterFree(s, p);
      FreesKeeps(s, p, t);
      assert AfterFree(s, p).(blocks := t.blocks, order := t.order) == t;
      assert SameAddresses(s.blocks, t.blocks);
    } else {
      forall bs: seq<Block>, order: seq<nat> | SameAddresses(s.blocks, bs)
        ensures !AfterFree(s, p).(blocks := bs, order := order).Valid()
      {
        ForgedFreeBreaks(s, p, AfterFree(s, p).(blocks := bs, order := order));
      }
    }
  }

  ghost predicate SameAddresses(bs: seq<Block>, cs: seq<Block>) {
    |bs| == |cs| && forall j :: 0 <= j < |bs| ==> cs[j].p == bs[j].p
  }

  /** With a forged payload at its head the list is no list of the blocks. */
  lemma ForgedFreeBreaks(s: Pool, p: nat, t: Pool)
    requires s.Valid() && Passes(s, p) && !LivePayload(s, p)
    requires t.head == p && SameAddresses(s.blocks, t.blocks)
    ensures !t.Valid()
  {
    hide Load, LiveSum;
    forall i | 0 <= i < |s.blocks| && !s.blocks[i].live ensures s.blocks[i].p != p { FreedBlockFailsHeader(s, i); }
  }

  /** Both kinds of forgery exist: a caller that writes a magic word and any size into its own
      payload makes an address that passes the test and is no payload. */
  lemma ForgeryExists(base: nat, m: Memory, v: nat)
    requires 0 < base && base % 16 == 0 && base + POOL <= VA_LIMIT && v < U64
    ensures var s := Forged(base, m, v); var p := base + 32;
            && s.Valid() && Passes(s, p) && SizeAt(s, p) == v && !LivePayload(s, p) && (Freeable(s, p) <==> v < MIN)
  {
    hide Load, Store, LiveSum, Pool.Valid;
    var s0 := Pool(base, m, 0, 0, 0, 0, [], []);
    UnusedValid(s0);
    BumpKeeps(s0, base + 16, 40);
    var s1 := Bumped(s0, base + 16, 40);
    var m1 := Store(s1.mem, base + 16, MAGIC);
    StoreElsewhere(s1.mem, base + 16, MAGIC);
    StoreElsewhere(m1, base + 24, v);
    LoadStored(s1.mem, base + 16, MAGIC);
    LoadStored(m1, base + 24, v);
    assert s1.blocks[0] == Block(base + 16, 40, true);
    CallerWrites(s1, Store(m1, base + 24, v));
  }

  /** One live block of 40 bytes with a header forged at its start. */
  function Forged(base: nat, m: Memory, v: nat): Pool {
    var s := Bumped(Pool(base, m, 0, 0, 0, 0, [], []), base + 16, 40);
    s.(mem := Store(Store(s.mem, base + 16, MAGIC), base + 24, v))
  }

  // ---- the allocator ----

  class Allocator {
    const base: nat
    var mem: Memory
    var cur: nat
    var freeHead: nat
    var used: nat
    var high: nat
    var errno: int
    ghost var blocks: seq<Block>
    ghost var order: seq<nat>

    ghost function Now(): Pool reads this { Pool(base, mem, cur, freeHead, used, high, blocks, order) }

    constructor (heapBase: nat, m: Memory)
      requires 0 < heapBase && heapBase + POOL <= VA_LIMIT
      ensures Now() == Pool(heapBase, m, 0, 0, 0, 0, [], []) && Now().Valid()
    {
      base := heapBase;
      mem, cur, freeHead, used, high, errno, blocks, order := m, 0, 0, 0, 0, 0, [], [];
    }

    /** The range test comes before the header is looked at. */
    function HeaderFor(p: nat): (size: Option<nat>)
      reads this
      ensures size == if Passes(Now(), p) then Some(SizeAt(Now(), p)) else None
    {
      if p == 0 || p < base + 16 || p >= base + POOL then None
      else if Load(mem, p - 16) != MAGIC then None
      else Some(Load(mem, p - 8))
    }

    /** First fit in the free list for alignments up to 16, else a bump. Null, with ENOMEM
        and nothing changed, exactly when neither is possible. */
    method PoolAlloc(n: nat, align0: nat) returns (p: nat)
      requires Now().Valid() && n < U64 && align0 < U64
      modifies this
      ensures Now().Valid()
      ensures var align := if PowerOfTwo(align0) then align0 else 16; var s := old(Now());
              && (p != 0 <==> CanGrant(s, n, align))
              && (p != 0 ==> Allocates(s, Now(), p, n, align))
              && (p != 0 ==> Granted(s, Now(), p, n) && p % align == 0 && errno == old(errno))
      ensures p == 0 ==> Now() == old(Now()) && errno == ENOMEM
    {
      hide Load, Store, LiveSum, Granted, RoundUp, PowerOfTwo, Pool.Headed, Pool.Chained, Pool.Counted, TookFirst;
      Sixteen();
      var align := if PowerOfTwo(align0) then align0 else 16;
      var want := Max(n, MIN);
      ghost var s := Now();
      if align <= 16 {
        p := TakeFit(want, n);
        if p != 0 { SmallAligned(s, Now(), p, n, align); return p; }
      }
      var cursor := if cur == 0 then base else cur;
      PlaceAtFits(cursor, align);
      var place := PlaceAt(cursor, align);
      if place + want > base + POOL {
        errno := ENOMEM;
        return 0;
      }
      BumpGrants(s, align, n);
      mem := Store(Store(mem, place - 16, MAGIC), place - 8, want);
      cur := place + want;
      used := used + want;
      if used > high { high := used; }
      blocks := blocks + [Block(place, want, true)];
      p := place;
      GrantedValid(s, Now(), p, n);
    }

    /** Unlinks the k-th node, `at`, from behind `prev`, and puts it in use. */
    method TakeNode(prev: nat, at: nat, size: nat, ghost k: nat)
      requires Now().Valid() && k < |order| && at == Now().Addr(k) && prev == (if k == 0 then 0 else Now().Addr(k - 1))
      requires size == Load(mem, at - 8)
      modifies this
      ensures Now() == Reused(old(Now()), k) && errno == old(errno)
    {
      hide Load, Store, LiveSum;
      ghost var s := Now();
      FitStep(s, k);
      var nxt := Load(mem, at);
      if prev == 0 { freeHead := nxt; } else { mem := Store(mem, prev, nxt); }
      mem := Store(mem, at - 16, MAGIC);
      used := used + size;
      if used > high { high := used; }
      blocks := blocks[order[k] := blocks[order[k]].(live := true)];
      order := order[..k] + order[k + 1..];
    }

    /** The first-fit walk along the free list. */
    method TakeFit(want: nat, ghost n: nat) returns (p: nat)
      requires Now().Valid() && want == Max(n, MIN)
      modifies this
      ensures errno == old(errno)
      ensures p == 0 ==> Now() == old(Now()) && NoFit(old(Now()), want)
      ensures p != 0 ==> Granted(old(Now()), Now(), p, n) && !NoFit(old(Now()), want)
      ensures p != 0 ==> TookFirst(old(Now()), Now(), p, want)
    {
      hide Load, Store, LiveSum, Granted;
      ghost var s := Now();
      var prev := 0;
      var at := freeHead;
      ghost var k := 0;
      while at != 0
        invariant Now() == s && errno == old(errno) && k <= |order|
        invariant at == s.Addr(k)
        invariant if k == 0 then prev == 0 else prev == s.Addr(k - 1)
        invariant forall j :: 0 <= j < k ==> s.blocks[s.order[j]].size < want
        decreases |order| - k
      {
        FitStep(s, k);
        var size := Load(mem, at - 8);
        if size >= want {
          TakeNode(prev, at, size, k);
          ReuseGrants(s, k, n);
          assert FirstFit(s, k, want) && Now() == Reused(s, k);
          return at;
        }
        prev := at;
        at := Load(mem, at);
        k := k + 1;
      }
      EndOfList(s, k);
      return 0;
    }

    method Malloc(n: nat) returns (p: nat)
      requires Now().Valid() && n < U64
      modifies this
      ensures Now().Valid()
      ensures p != 0 <==> CanGrant(old(Now()), n, 16)
      ensures p != 0 ==> Granted(old(Now()), Now(), p, n) && p % 16 == 0
      ensures p == 0 ==> Now() == old(Now()) && errno == ENOMEM
    {
      assert PowerOfTwo(16);
      p := PoolAlloc(n, 16);
    }

    /** Null is silently ignored; anything that fails the header test sets EINVAL and changes
        nothing else, as does a second free of the same block; a recorded size too small for
        a link is disarmed with EINVAL; the rest goes to the front of the free list. For a
        live payload, and exactly where FreeExact allows it, the pool stays valid. */
    method Free(p: nat)
      requires Now().Valid()
      modifies this
      ensures SameMachine(Now(), AfterFree(old(Now()), p))
      ensures Freeable(old(Now()), p) ==> Now().Valid() && Frees(old(Now()), p, Now())
      ensures errno == if p == 0 || (old(HeaderFor(p)).Some? && old(HeaderFor(p)).value >= MIN) then old(errno)
              else EINVAL
    {
      hide Load, Store, LiveSum, Pool.Valid;
      if p == 0 { return; }
      var header := HeaderFor(p);
      ghost var s := Now();
      match header
      case None => errno := EINVAL;
      case Some(size) =>
        mem := Store(mem, p - 16, 0);
        if size >= MIN {
          mem := Store(mem, p, freeHead);
          freeHead := p;
          used := if used >= size then used - size else 0;
          if LivePayload(s, p) {
            ghost var i :| 0 <= i < |s.blocks| && s.blocks[i].p == p && s.blocks[i].live;
            LiveHeader(s, i);
            blocks, order := blocks[i := blocks[i].(live := false)], [i] + order;
            assert Now() == Released(s, i);
          }
        } else {
          errno := EINVAL;
        }
      if Freeable(s, p) { FreesKeeps(s, p, Now()); }
    }

    /** a * b zeroed bytes; an overflowing product is refused. */
    method Calloc(a: nat, b: nat) returns (p: nat)
      requires Now().Valid() && a < U64 && b < U64
      modifies this
      ensures Now().Valid()
      ensures p != 0 <==> a * b < U64 && CanGrant(old(Now()), a * b, 16)
      ensures p != 0 ==> Granted(old(Now()), Now(), p, a * b)
      ensures p != 0 ==> forall x :: p <= x < p + a * b ==> Get(mem, x) == 0
      ensures p == 0 ==> Now() == old(Now()) && errno == ENOMEM
    {
      hide Load, Store, LiveSum, Granted;
      var n := a * b;
      if n >= U64 { errno := ENOMEM; return 0; }
      p := Malloc(n);
      if p != 0 {
        var zeroed := FillZero(mem, p, n);
        WriteGranted(old(Now()), Now(), zeroed, p, n);
        mem := zeroed;
        GrantedValid(old(Now()), Now(), p, n);
      }
    }

    /** A new block with the old one's bytes, as many as fit both. The old block stays live:
        it is neither moved nor freed. Behind a forged header the copy is clamped to the pool;
        its bytes arrive whenever the two ranges are apart, and the source leaves a copy
        between overlapping ranges undefined. */
    method Realloc(oldp: nat, n: nat) returns (p: nat)
      requires Now().Valid() && n < U64
      modifies this
      ensures Now().Valid()
      ensures p != 0 <==> (oldp == 0 || (n <= POOL && old(HeaderFor(oldp)).Some?)) && CanGrant(old(Now()), n, 16)
      ensures p != 0 ==> Granted(old(Now()), Now(), p, n)
      ensures p != 0 && oldp != 0 ==>
                var copy := CopyLength(old(HeaderFor(oldp)).value, n, base + POOL - oldp);
                oldp + copy <= p || p + copy <= oldp ==>
                  forall x :: p <= x < p + copy ==> Get(mem, x) == Get(mem, oldp + (x - p))
      ensures p != 0 && old(LivePayload(Now(), oldp)) ==>
                forall x :: p <= x < p + n && x - p < old(HeaderFor(oldp)).value ==>
                  Get(mem, x) == Get(old(mem), oldp + (x - p))
      ensures p == 0 ==> Now() == old(Now())
      ensures p == 0 ==> errno == if oldp != 0 && n <= POOL && old(HeaderFor(oldp)).None? then EINVAL else ENOMEM
    {
      hide Load, Store, LiveSum, Granted, Pool.Valid;
      ghost var s := Now();
      if oldp == 0 {
        p := Malloc(n);
        NoBlockAtNull(s);
        return;
      }
      if n > POOL { errno := ENOMEM; return 0; }
      var header := HeaderFor(oldp);
      if header.None? { errno := EINVAL; return 0; }
      var oldn := header.value;
      p := Malloc(n);
      if p != 0 {
        var copy := CopyLength(oldn, n, base + POOL - oldp);
        ghost var t := Now();
        var copied := CopyBytes(mem, oldp, p, copy);
        WriteGranted(s, t, copied, p, n);
        mem := copied;
        GrantedValid(s, Now(), p, n);
        if LivePayload(s, oldp) { LiveCopied(s, t, copied, oldp, p, n); }
      }
    }

    /** EINVAL for an alignment that is no power of two, ENOMEM when the pool is exhausted. */
    method PosixMemalign(align: nat, n: nat) returns (r: int, p: nat)
      requires Now().Valid() && align < U64 && n < U64
      modifies this
      ensures Now().Valid()
      ensures r == EINVAL <==> !PowerOfTwo(align)
      ensures r == 0 <==> PowerOfTwo(align) && CanGrant(old(Now()), n, align)
      ensures r == 0 || r == EINVAL || r == ENOMEM
      ensures r == 0 ==> p != 0 && Granted(old(Now()), Now(), p, n) && p % align == 0
      ensures r != 0 ==> Now() == old(Now())
    {
      hide Load, Store, LiveSum, Granted;
      if !PowerOfTwo(align) { return EINVAL, 0; }
      p := PoolAlloc(n, align);
      r := if p == 0 then ENOMEM else 0;
    }
  }

  /** A second free of the same block fails the header test. */
  lemma FreedBlockFailsHeader(s: Pool, i: nat)
    requires s.Valid() && i < |s.blocks| && !s.blocks[i].live
    ensures Load(s.mem, s.blocks[i].p - 16) != MAGIC
  {
    hide Load, LiveSum;
    assert Field(s.blocks[i], 0) == s.blocks[i].p - 16;
  }

  lemma LiveHeader(s: Pool, i: nat)
    requires s.Valid() && i < |s.blocks| && s.blocks[i].live
    ensures var b := s.blocks[i];
            Load(s.mem, b.p - 8) == b.size >= MIN && b.p + b.size <= s.base + POOL && Field(b, 0) == b.p - 16
  {
    hide Load, LiveSum;
    assert Load(s.mem, Field(s.blocks[i], 1)) == s.blocks[i].size;
    assert Field(s.blocks[i], 1) == s.blocks[i].p - 8;
  }

  /** The block just granted may be written without disturbing anything else. */
  lemma WriteGranted(s: Pool, t: Pool, m: Memory, p: nat, n: nat)
    requires Granted(s, t, p, n)
    requires forall x :: x < p || p + n <= x ==> Get(m, x) == Get(t.mem, x)
    ensures Granted(s, t.(mem := m), p, n)
  {
    hide Load, LiveSum;
    var i :| 0 <= i < |t.blocks| && GrantedAt(s, t, p, n, i);
    CallerWrites(t, m);
    forall j | 0 <= j < |s.blocks| && s.blocks[j].live ensures SameBytes(s.mem, m, s.blocks[j]) {
      assert SameBytes(s.mem, t.mem, s.blocks[j]);
      assert t.blocks[j] == s.blocks[j];
      Apart(t, i, j);
    }
    GrantedAtMem(s, t, m, p, n, i);
  }

  lemma GrantedAtMem(s: Pool, t: Pool, m: Memory, p: nat, n: nat, i: nat)
    requires i < |t.blocks| && GrantedAt(s, t, p, n, i)
    ensures GrantedAt(s, t.(mem := m), p, n, i)
  {}

  lemma NoBlockAtNull(s: Pool)
    requires s.Valid()
    ensures !LivePayload(s, 0)
  {
    hide Load, LiveSum;
  }

  /** How much realloc copies: no more than either size and the rest of the pool. */
  function CopyLength(oldn: nat, n: nat, remaining: nat): (r: nat)
    ensures r <= oldn && r <= n && r <= remaining && (r == oldn || r == n || r == remaining)
  {
    var copy := if oldn < n then oldn else n;
    if copy > remaining then remaining else copy
  }

  /** A live block's bytes are copied unclamped and as they were. */
  lemma LiveCopied(s: Pool, t: Pool, m: Memory, oldp: nat, p: nat, n: nat)
    requires s.Valid() && Granted(s, t, p, n) && LivePayload(s, oldp) && oldp >= 16
    requires s.base + 16 <= oldp < s.base + POOL
    requires var copy := CopyLength(SizeAt(s, oldp), n, s.base + POOL - oldp);
             oldp + copy <= p || p + copy <= oldp ==>
               forall x :: p <= x < p + copy ==> Get(m, x) == Get(t.mem, oldp + (x - p))
    ensures var copy := CopyLength(SizeAt(s, oldp), n, s.base + POOL - oldp);
            oldp + copy <= p || p + copy <= oldp
    ensures forall x :: p <= x < p + n && x - p < SizeAt(s, oldp) ==> Get(m, x) == Get(s.mem, oldp + (x - p))
  {
    hide Load, LiveSum, Granted, Pool.Valid;
    var i :| 0 <= i < |s.blocks| && s.blocks[i].p == oldp && s.blocks[i].live;
    LiveHeader(s, i);
    OldUnchanged(s, t, p, n, i);
  }

  lemma OldUnchanged(s: Pool, t: Pool, p: nat, n: nat, i: nat)
    requires s.Valid() && Granted(s, t, p, n) && i < |s.blocks| && s.blocks[i].live
    ensures SameBytes(s.mem, t.mem, s.blocks[i])
    ensures s.blocks[i].p + s.blocks[i].size <= p || p + n <= s.blocks[i].p
  {
    hide Load, LiveSum;
    var k :| 0 <= k < |t.blocks| && GrantedAt(s, t, p, n, k);
    assert t.blocks[i] == s.blocks[i];
    Apart(t, i, k);
  }

  /** What the walk reads at its k-th node. */
  lemma FitStep(s: Pool, k: nat)
    requires s.Valid() && k <= |s.order| && (k < |s.order| || s.Addr(k) != 0)
    ensures k < |s.order| && s.Addr(k) != 0 && s.blocks[s.order[k]].p == s.Addr(k) && s.Addr(k) >= 16
    ensures Load(s.mem, s.Addr(k) - 8) == s.blocks[s.order[k]].size
    ensures Load(s.mem, s.Addr(k)) == s.Addr(k + 1)
    ensures k > 0 ==> s.Addr(k - 1) != 0 && Field(s.blocks[s.order[k - 1]], 2) == s.Addr(k - 1)
    ensures Field(s.blocks[s.order[k]], 0) == s.Addr(k) - 16
  {
    hide Load, LiveSum;
    var b := s.blocks[s.order[k]];
    assert Load(s.mem, Field(b, 1)) == b.size;
    assert Load(s.mem, Field(b, 2)) == s.Addr(k + 1);
    assert Field(b, 1) == b.p - 8 && Field(b, 2) == b.p;
  }

  lemma EndOfList(s: Pool, k: nat)
    requires s.Valid() && k <= |s.order| && s.Addr(k) == 0
    ensures k == |s.order|
  {
    hide Load, LiveSum;
  }

  lemma SmallAligned(s: Pool, t: Pool, p: nat, n: nat, align: nat)
    requires Granted(s, t, p, n) && PowerOfTwo(align) && align <= 16
    ensures t.Valid() && p % align == 0
  {
    hide Load, LiveSum;
    SixteenOrMore(align);
    Divides(p, align);
  }

  lemma GrantedValid(s: Pool, t: Pool, p: nat, n: nat)
    requires Granted(s, t, p, n)
    ensures t.Valid() && p >= 16
  {
    hide Load, LiveSum;
  }

  // ---- runs ----

  /** One call, or its callers' writes in between. A refused call changes nothing; calloc and
      realloc are an allocation followed by a write to the new block. */
  datatype Event =
    | Allocate(p: nat, n: nat, align: nat)
    | Release(p: nat)
    | Refuse
    | Write(mem: Memory)

  ghost predicate Step(s: Pool, e: Event, t: Pool)
    requires s.Valid()
  {
    match e
    case Allocate(p, n, align) => PowerOfTwo(align) && Allocates(s, t, p, n, align)
    case Release(p) => Frees(s, p, t)
    case Refuse => t == s
    case Write(m) =>
      && t == s.(mem := m)
      && forall x :: Get(m, x) != Get(s.mem, x) ==>
           exists j :: 0 <= j < |s.blocks| && s.blocks[j].live
                       && s.blocks[j].p <= x < s.blocks[j].p + s.blocks[j].size
  }

  /** The allocator before its first call. */
  ghost predicate Unused(s: Pool) {
    0 < s.base && s.base + POOL <= VA_LIMIT && s == Pool(s.base, s.mem, 0, 0, 0, 0, [], [])
  }

  /** A run from the start; nothing is asked of the steps from a state that is not valid. */
  ghost predicate Run(states: seq<Pool>, events: seq<Event>) {
    && |states| == |events| + 1 && Unused(states[0])
    && forall k :: 0 <= k < |events| && states[k].Valid() ==> Step(states[k], events[k], states[k + 1])
  }

  function MaxUsed(states: seq<Pool>): nat {
    if states == [] then 0 else Max(MaxUsed(states[..|states| - 1]), states[|states| - 1].used)
  }

  /** In every run the pool stays laid out, listed and counted, and the high-water mark is
      the largest total ever in use. */
  lemma {:induction false} RunKeeps(states: seq<Pool>, events: seq<Event>)
    requires Run(states, events)
    ensures states[|events|].Valid() && states[|events|].high == MaxUsed(states)
    decreases |events|
  {
    hide Load, Store, LiveSum, Pool.Valid, Step, Unused;
    var n := |events|;
    if n == 0 {
      UnusedValid(states[0]);
      assert states[..0] == [];
      assert MaxUsed(states[..0]) == 0;
    } else {
      assert states[..n + 1] == states;
      RunKeeps(states[..n], events[..n - 1]);
      StepKeeps(states[n - 1], events[n - 1], states[n]);
    }
  }

  lemma UnusedValid(s: Pool)
    requires Unused(s)
    ensures s.Valid() && s.used == s.high == 0
  {}

  lemma StepKeeps(s: Pool, e: Event, t: Pool)
    requires s.Valid() && Step(s, e, t)
    ensures t.Valid() && t.high == Max(s.high, t.used)
  {
    hide Load, Store, LiveSum, Allocates, Frees;
    match e
    case Allocate(p, n, align) => AllocatesGrants(s, t, p, n, align);
    case Release(p) => FreesKeeps(s, p, t);
    case Refuse =>
    case Write(m) => CallerWrites(s, m);
  }
}
