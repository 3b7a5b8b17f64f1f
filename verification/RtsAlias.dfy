/** The alias window that maps the runtime heap's addresses onto the upper half of RAM, as the
    MMU code builds it and as the address check of mmap accepts it. */
module RtsAlias {
  import opened Options
  import opened Layout
  import opened Arithmetic

  const GIB := 0x4000_0000
  const MIB2 := 0x20_0000
  const RAM_BASE := 0x4000_0000
  const ALIAS_BASE := 264 * GIB
  const MAX_RAM := 256 * GIB
  const U64 := 0x1_0000_0000_0000_0000

  /** Bytes kept back for stacks: 2 MiB and 64 KiB a core; an unknown core count means two. */
  function StackReserve(smp: nat): nat { 0x200000 + (if smp == 0 then 2 else smp) * 65536 }

  /** Size of the window: half of RAM less the stacks, at most 8 GiB. */
  function Span(ram: nat, smp: nat): nat {
    var half := ram / 2;
    var usable := if half > StackReserve(smp) then half - StackReserve(smp) else 0;
    if usable > 8 * GIB then 8 * GIB else usable
  }

  function CeilDiv(a: nat, b: nat): nat
    requires b > 0
  {
    (a + b - 1) / b
  }

  // ---- descriptors ----

  /** Valid, accessed, inner-shareable block of memory type attr at an aligned address. */
  function Block(pa: nat, attr: nat): nat { pa + attr * 4 + 0x701 }

  function TableEntry(at: nat): nat { at + 3 }

  /** The tables reached through the kernel's level-1 table: the eight level-2 tables of the
      window, at page-aligned addresses. */
  datatype Tables = Tables(low: seq<nat>, rts: seq<nat>, l2: seq<seq<nat>>, at: seq<nat>)
  {
    ghost predicate Valid() {
      && |low| == 512 && |rts| == 512 && |l2| == 8 && |at| == 8
      && (forall t :: 0 <= t < 8 ==> |l2[t]| == 512 && at[t] % 4096 == 0)
      && forall s, t :: 0 <= s < t < 8 ==> at[s] != at[t]
    }
  }

  /** The level-2 entry for the k-th 2 MiB of the window. */
  function Entry(l2: seq<seq<nat>>, k: nat): nat
    requires |l2| == 8 && (forall t :: 0 <= t < 8 ==> |l2[t]| == 512) && k < 4096
  {
    l2[k / 512][k % 512]
  }

  function IndexOf(at: seq<nat>, a: nat): nat { if at == [] || at[0] == a then 0 else 1 + IndexOf(at[1..], a) }

  /** The hardware walk from level 1: a 1 GiB block, or a table of 2 MiB blocks. */
  ghost function Translate(m: Tables, va: nat): Option<nat>
    requires m.Valid() && va < 512 * GIB
  {
    var d := m.low[va / GIB];
    if d % 4 == 1 then Some(d / GIB * GIB + va % GIB)
    else if d % 4 == 3 && IndexOf(m.at, d / 4096 * 4096) < 8 then
      var e := m.l2[IndexOf(m.at, d / 4096 * 4096)][va / MIB2 % 512];
      if e % 4 == 1 then Some(e / MIB2 * MIB2 + va % MIB2) else None
    else None
  }

  lemma {:induction false} IndexOfAt(at: seq<nat>, i: nat)
    requires i < |at| && forall s, t :: 0 <= s < t < |at| ==> at[s] != at[t]
    ensures IndexOf(at, at[i]) == i
  {
    if i > 0 {
      assert at[1..][i - 1] == at[i];
      IndexOfAt(at[1..], i - 1);
    }
  }

  // ---- what is built ----

  /** The window over ram bytes of RAM: 2 MiB blocks up to the span, and the level-1 entries
      of the tables that hold them; every other level-1 entry is as it was. */
  ghost predicate Aliased(m: Tables, m': Tables, ram: nat, smp: nat) {
    && m.Valid() && m'.Valid() && m'.at == m.at
    && (forall k :: 0 <= k < 4096 ==>
          Entry(m'.l2, k) == (if k * MIB2 < Span(ram, smp) then Block(RAM_BASE + ram / 2 + k * MIB2, 0) else 0))
    && (forall i :: 264 <= i < 272 ==>
        m'.low[i] == (if i - 264 < CeilDiv(Span(ram, smp), GIB) then TableEntry(m.at[i - 264]) else 0))
    && (forall i :: 0 <= i < 512 && !(264 <= i < 272) ==> m'.low[i] == m.low[i])
  }

  class Mmu {
    var low: seq<nat>
    var rts: seq<nat>
    var l2: seq<seq<nat>>
    const at: seq<nat>

    ghost function Now(): Tables reads this { Tables(low, rts, l2, at) }

    constructor (addresses: seq<nat>)
      requires |addresses| == 8 && (forall t :: 0 <= t < 8 ==> addresses[t] % 4096 == 0)
      requires forall s, t :: 0 <= s < t < 8 ==> addresses[s] != addresses[t]
      ensures Now().Valid() && low == seq(512, _ => 0) && at == addresses
    {
      low, rts, l2, at := seq(512, _ => 0), seq(512, _ => 0), seq(8, _ => seq(512, _ => 0)), addresses;
    }

    method ClearAlias()
      requires Now().Valid()
      modifies this
      ensures Now().Valid()
      ensures forall k :: 0 <= k < 4096 ==> Entry(l2, k) == 0
      ensures forall i :: 264 <= i < 272 ==> low[i] == 0
      ensures forall i :: 0 <= i < 512 && !(264 <= i < 272) ==> low[i] == old(low)[i]
    {
      for i := 0 to 8
        invariant Now().Valid()
        invariant forall t :: 0 <= t < i ==> l2[t] == seq(512, _ => 0)
        invariant forall j :: 264 <= j < 264 + i ==> low[j] == 0
        invariant forall j :: 0 <= j < 512 && !(264 <= j < 264 + i) ==> low[j] == old(low)[j]
      {
        l2 := l2[i := seq(512, _ => 0)];
        rts := rts[i := 0];
        low := low[264 + i := 0];
      }
    }

    method LinkTables(n: nat)
      requires Now().Valid() && n <= 8
      modifies this
      ensures Now().Valid() && l2 == old(l2)
      ensures forall i :: 264 <= i < 264 + n ==> low[i] == TableEntry(at[i - 264])
      ensures forall i :: 0 <= i < 512 && !(264 <= i < 264 + n) ==> low[i] == old(low)[i]
    {
      for i := 0 to n
        invariant Now().Valid() && l2 == old(l2)
        invariant forall j :: 264 <= j < 264 + i ==> low[j] == TableEntry(at[j - 264])
        invariant forall j :: 0 <= j < 512 && !(264 <= j < 264 + i) ==> low[j] == old(low)[j]
      {
        rts := rts[i := TableEntry(at[i])];
        low := low[264 + i := rts[i]];
      }
    }

    method FillBlocks(span: nat, pa: nat)
      requires Now().Valid() && span <= 8 * GIB && forall k :: 0 <= k < 4096 ==> Entry(l2, k) == 0
      modifies this
      ensures Now().Valid() && low == old(low)
      ensures forall k :: 0 <= k < 4096 ==> Entry(l2, k) == (if k * MIB2 < span then Block(pa + k * MIB2, 0) else 0)
    {
      var off := 0;
      ghost var n := 0;
      while off < span
        invariant Now().Valid() && low == old(low) && off == n * MIB2 && n <= 4096
        invariant forall k :: n <= k < 4096 ==> Entry(l2, k) == 0
        invariant forall k :: 0 <= k < n ==> k * MIB2 < span && Entry(l2, k) == Block(pa + k * MIB2, 0)
        decreases span - off
      {
        Position(n);
        var t, e := off / GIB, off / MIB2 % 512;
        SetEntry(l2, n, Block(pa + off, 0));
        var row: seq<nat> := l2[t][e := Block(pa + off, 0)];
        l2 := l2[t := row];
        off := off + MIB2;
        n := n + 1;
      }
    }

    method BuildRtsAlias(ram: nat, smp: nat)
      requires Now().Valid()
      modifies this
      ensures Aliased(old(Now()), Now(), ram, smp)
    {
      hide Span;
      SpanBound(ram, smp);
      var span := Span(ram, smp);
      var n := CeilDiv(span, GIB);
      ClearAlias();
      LinkTables(n);
      FillBlocks(span, RAM_BASE + ram / 2);
    }

    /** Adds the identity blocks of detected RAM that are missing. */
    method ExtendRamBlocks(ram: nat)
      requires Now().Valid()
      modifies this
      ensures Now().Valid() && l2 == old(l2)
      ensures forall i :: 0 <= i < 512 ==>
                low[i] == (if 1 <= i <= RamBlocks(ram) && i < 256 && old(low)[i] == 0 then Block(i * GIB, 0)
                  else old(low)[i])
    {
      var blocks := RamBlocks(ram);
      var i := 1;
      while i <= blocks && i < 256
        invariant Now().Valid() && l2 == old(l2) && 1 <= i <= 256
        invariant forall j :: i <= j < 512 ==> low[j] == old(low)[j]
        invariant low[0] == old(low)[0]
        invariant forall j :: 1 <= j < i ==>
                    j <= blocks && low[j] == (if old(low)[j] == 0 then Block(j * GIB, 0) else old(low)[j])
        decreases 256 - i
      {
        if low[i] == 0 { low := low[i := Block(i * GIB, 0)]; }
        i := i + 1;
      }
    }

    /** Clears blocks beyond detected RAM; tables are left alone. */
    method TrimRamBlocks(ram: nat)
      requires Now().Valid()
      modifies this
      ensures Now().Valid() && l2 == old(l2)
      ensures forall i :: 0 <= i < 512 ==>
                low[i] == (if RamBlocks(ram) < i < 256 && old(low)[i] % 4 == 1 then 0 else old(low)[i])
    {
      var blocks := RamBlocks(ram);
      var i := blocks + 1;
      while i < 256
        invariant Now().Valid() && l2 == old(l2) && blocks < i
        invariant forall j :: 0 <= j < 512 ==>
                    low[j] == (if blocks < j < i && j < 256 && old(low)[j] % 4 == 1 then 0 else old(low)[j])
        decreases 256 - i
      {
        if low[i] % 4 == 1 { low := low[i := 0]; }
        i := i + 1;
      }
    }

    /** After detection: the identity map covers RAM exactly, and the alias window its half. */
    method UpdateAlias(ram: nat, smp: nat)
      requires Now().Valid() && 0 < ram <= MAX_RAM
      requires forall i :: 1 <= i < 256 ==> low[i] == 0 || low[i] == Block(i * GIB, 0)
      modifies this
      ensures exists m: Tables :: Aliased(m, Now(), ram, smp)
      ensures forall i :: 1 <= i < 256 ==> low[i] == (if i <= RamBlocks(ram) then Block(i * GIB, 0) else 0)
      ensures low[0] == old(low)[0]
    {
      ghost var was := low;
      ExtendRamBlocks(ram);
      ghost var extended := low;
      TrimRamBlocks(ram);
      forall i | 1 <= i < 256 ensures low[i] == (if i <= RamBlocks(ram) then Block(i * GIB, 0) else 0) {
        BlockKind(i * GIB);
        assert extended[i] == was[i] || extended[i] == Block(i * GIB, 0);
      }
      BuildRtsAlias(ram, smp);
    }
  }

  /** 1 GiB blocks of detected RAM, counted from index 1; 4 GiB while RAM is unknown. */
  function RamBlocks(ram: nat): nat { CeilDiv(if ram == 0 then 4 * GIB else ram, GIB) }

  lemma BlockKind(pa: nat)
    requires pa % MIB2 == 0
    ensures Block(pa, 0) % 4 == 1 && Block(pa, 0) / MIB2 * MIB2 == pa
    ensures pa % GIB == 0 ==> Block(pa, 0) / GIB * GIB == pa
  {
    var k := pa / MIB2;
    assert Block(pa, 0) == k * MIB2 + 0x701 == (k * 0x80000 + 0x1C0) * 4 + 1;
    DivMod(k, MIB2, 0x701);
    DivMod(k * 0x80000 + 0x1C0, 4, 1);
    if pa % GIB == 0 {
      var g := pa / GIB;
      assert Block(pa, 0) == g * GIB + 0x701;
      DivMod(g, GIB, 0x701);
    }
  }

  /** A block's low bits are valid (bit 0), inner shareable (8, 9) and accessed (10) and no other:
      memory type 0, kernel read-write, global. The rest is its address. */
  lemma BlockFields(pa: nat)
    requires pa % MIB2 == 0
    ensures Block(pa, 0) % 4096 == 1 + 0x100 + 0x200 + 0x400 && Block(pa, 0) / 4096 * 4096 == pa
  {
    DivMod(pa / MIB2 * 512, 4096, 0x701);
  }

  /** The span is the largest size of at most 8 GiB that leaves 2 MiB and 64 KiB for every core of
      the upper half of RAM, counting two cores while their number is unknown. */
  lemma SpanExactly(ram: nat, smp: nat, s: nat)
    requires s > 0
    ensures s <= Span(ram, smp) <==>
              s <= 0x2_0000_0000 && 2 * (s + 0x20_0000 + (if smp == 0 then 2 else smp) * 0x1_0000) <= ram
  {}

  /** The least number of GiB blocks that covers detected RAM; four while RAM is unknown. */
  lemma RamBlocksExactly(ram: nat, n: nat)
    ensures ram > 0 ==> (RamBlocks(ram) <= n <==> ram <= n * 0x4000_0000)
    ensures RamBlocks(0) == 4
  {
    if ram > 0 {
      var b := RamBlocks(ram);
      assert (b - 1) * GIB < ram <= b * GIB;
      Multiples(b - n, GIB);
      assert b * GIB - n * GIB == (b - n) * GIB;
      if b > n { assert (b - 1 - n) * GIB >= 0; }
    }
  }

  lemma SpanBound(ram: nat, smp: nat)
    ensures Span(ram, smp) <= 8 * GIB && CeilDiv(Span(ram, smp), GIB) <= 8
  {}

  lemma Position(n: nat)
    requires n < 4096
    ensures n * MIB2 / GIB == n / 512 < 8 && n * MIB2 / MIB2 % 512 == n % 512
  {}

  lemma SetEntry(l2: seq<seq<nat>>, n: nat, v: nat)
    requires |l2| == 8 && (forall t :: 0 <= t < 8 ==> |l2[t]| == 512) && n < 4096
    ensures var row: seq<nat> := l2[n / 512][n % 512 := v];
            var l2' := l2[n / 512 := row];
            forall k :: 0 <= k < 4096 ==> Entry(l2', k) == (if k == n then v else Entry(l2, k))
  {
    forall k | 0 <= k < 4096 && k != n ensures k / 512 != n / 512 || k % 512 != n % 512 {}
  }

  // ---- what mmap accepts ----

  predicate InUserWindow(lo: nat, n: nat)
    requires lo < U64 && n < U64
  {
    && lo >= USER_VA_MIN && n <= (USER_VA_MAX + 1 - lo) % U64
    && (lo + n) % U64 >= lo && (lo + n) % U64 <= USER_VA_MAX + 1
  }

  predicate InRam(lo: nat, n: nat, ram: nat, heap: nat) { heap <= lo && lo + n <= RAM_BASE + ram }

  predicate InAlias(lo: nat, n: nat, ram: nat, smp: nat)
    requires lo < U64 && n < U64
  {
    && lo >= ALIAS_BASE && n <= Span(ram, smp)
    && (lo + n) % U64 >= lo && (lo + n) % U64 <= ALIAS_BASE + Span(ram, smp)
  }

  predicate Committable(lo: nat, n: nat, ram: nat, smp: nat, heap: nat)
    requires lo < U64 && n < U64
  {
    InUserWindow(lo, n) || InRam(lo, n, ram, heap) || InAlias(lo, n, ram, smp)
  }

  /** Both tests are exact, whatever wraps: the whole range lies in the user window, or in the
      alias window from 264 GiB on. */
  lemma WindowsExact(lo: nat, n: nat, ram: nat, smp: nat)
    requires lo < U64 && n < U64
    ensures InUserWindow(lo, n) <==> 0x0100_0000 <= lo && lo + n <= 0x10_0000_0001
    ensures InAlias(lo, n, ram, smp) <==> 0x42_0000_0000 <= lo && lo + n <= 0x42_0000_0000 + Span(ram, smp)
  {
    SpanBound(ram, smp);
    hide Span;
  }

  /** The three accepted areas do not meet: from the window's base on only the alias test counts. */
  lemma AliasOnly(lo: nat, n: nat, ram: nat, smp: nat, heap: nat)
    requires ALIAS_BASE <= lo < U64 && n < U64 && ram <= MAX_RAM
    ensures Committable(lo, n, ram, smp, heap) <==> InAlias(lo, n, ram, smp)
  {}

  /** The core counts at build and at check for which a window is long enough. Only one
      combination fails: built for all 32 cores, checked for fewer, and RAM between 8 MiB and
      16 GiB + 4 MiB, below which there is no window and above which 8 GiB is the limit. */
  predicate SpansMeet(ram: nat, built: nat, checked: nat) {
    !(built == 32 && checked < 32 && 4 * MIB2 <= ram <= 4097 * (2 * MIB2))
  }

  /** Every accepted offset lies in a block that was built, exactly for those combinations. */
  lemma SpansMeetExactly(m: nat, built: nat, checked: nat)
    requires built <= 32 && checked <= 32
    ensures var ram := m * (2 * MIB2);
            (forall off: nat :: off < Span(ram, checked) ==> off / MIB2 * MIB2 < Span(ram, built))
            <==> SpansMeet(ram, built, checked)
  {
    var ram := m * (2 * MIB2);
    assert ram / 2 == m * MIB2;
    if SpansMeet(ram, built, checked) {
      forall off: nat | off < Span(ram, checked) ensures off / MIB2 * MIB2 < Span(ram, built) {
        Blocks(m, built, checked, off / MIB2, off);
      }
    } else {
      LastBlock(m, checked);
      var off := (m - 2) * MIB2;
      assert off / MIB2 * MIB2 == off;
    }
  }

  /** The block a window built for 32 cores lacks. */
  lemma LastBlock(m: nat, checked: nat)
    requires 2 <= m <= 4097 && checked < 32
    ensures var ram := m * (2 * MIB2); (m - 2) * MIB2 < Span(ram, checked) && !((m - 2) * MIB2 < Span(ram, 32))
  {
    var ram := m * (2 * MIB2);
    assert ram / 2 == m * MIB2;
  }

  /** For those combinations the blocks cover everything the check accepts and stop below the
      last 2 MiB of RAM. */
  lemma SpansAgree(ram: nat, built: nat, checked: nat, off: nat)
    requires ram % (2 * MIB2) == 0 && built <= 32 && checked <= 32 && SpansMeet(ram, built, checked)
    requires off < Span(ram, checked)
    ensures off / MIB2 * MIB2 < Span(ram, built) && off / MIB2 < 4096
    ensures ram / 2 + off < ram - MIB2
    ensures off / GIB < CeilDiv(Span(ram, built), GIB)
  {
    var m, k := ram / (2 * MIB2), off / MIB2;
    assert ram == m * (2 * MIB2) && ram / 2 == m * MIB2;
    Blocks(m, built, checked, k, off);
  }

  lemma Blocks(m: nat, built: nat, checked: nat, k: nat, off: nat)
    requires built <= 32 && checked <= 32 && SpansMeet(m * (2 * MIB2), built, checked) && k == off / MIB2
    requires off < Span(m * (2 * MIB2), checked)
    ensures k * MIB2 < Span(m * (2 * MIB2), built) && k < 4096 && off < m * MIB2 - MIB2
    ensures off / GIB < CeilDiv(Span(m * (2 * MIB2), built), GIB)
  {
    var ram := m * (2 * MIB2);
    assert ram / 2 == m * MIB2;
    assert k + 1 <= m - 1;
    assert off / GIB == k / 512;
    Covers(k, Span(ram, built));
  }

  lemma Covers(k: nat, span: nat)
    requires k * MIB2 < span
    ensures k / 512 < CeilDiv(span, GIB)
  {
    assert k / 512 * GIB <= k * MIB2;
  }

  /** Every address of an accepted range is mapped, to RAM_BASE + ram/2 plus its offset in
      the window (so distinct addresses to distinct frames), below the boot stack's top and the
      stacks of the cores the check counts. */
  lemma AcceptedIsMapped(m: Tables, m': Tables, ram: nat, built: nat, checked: nat, heap: nat, lo: nat, n: nat, va: nat)
    requires Aliased(m, m', ram, built) && ram % (2 * MIB2) == 0 && ram <= MAX_RAM
    requires built <= 32 && checked <= 32 && SpansMeet(ram, built, checked)
    requires ALIAS_BASE <= lo < U64 && n < U64 && Committable(lo, n, ram, checked, heap) && lo <= va < lo + n
    ensures va < 512 * GIB && Translate(m', va) == Some(RAM_BASE + ram / 2 + (va - ALIAS_BASE))
    ensures RAM_BASE + ram / 2 + (va - ALIAS_BASE) < RAM_BASE + ram - StackReserve(checked) <= StackTop(ram)
  {
    hide Span, Translate;
    AliasOnly(lo, n, ram, checked, heap);
    InsideSpan(lo, n, ram, checked, va);
    OffStacks(ram, checked, va - ALIAS_BASE);
    var off := va - ALIAS_BASE;
    SpansAgree(ram, built, checked, off);
    SpanBound(ram, built);
    Walked(m, m', ram, built, off);
  }

  /** What the check accepts stops below the stacks of all the cores it was made for. */
  lemma OffStacks(ram: nat, checked: nat, off: nat)
    requires off < Span(ram, checked)
    ensures ram / 2 + off < ram - StackReserve(checked)
  {}

  /** Every block that is built, accepted or not, ends at or below the boot stack's top. */
  lemma BuiltBelowStack(m: Tables, m': Tables, ram: nat, built: nat, k: nat)
    requires Aliased(m, m', ram, built) && ram % (2 * MIB2) == 0 && k < 4096 && Entry(m'.l2, k) != 0
    ensures Entry(m'.l2, k) == Block(RAM_BASE + ram / 2 + k * MIB2, 0)
    ensures RAM_BASE + ram / 2 + k * MIB2 + MIB2 <= StackTop(ram)
  {
    var q := ram / (2 * MIB2);
    assert ram / 2 == q * MIB2;
    assert k + 1 <= q - 1;
  }

  /** The boot stack starts 2 MiB below the end of RAM. */
  function StackTop(ram: nat): int { RAM_BASE + ram - 0x200000 }

  lemma InsideSpan(lo: nat, n: nat, ram: nat, smp: nat, va: nat)
    requires lo < U64 && n < U64 && InAlias(lo, n, ram, smp) && lo <= va < lo + n
    ensures ALIAS_BASE <= va < ALIAS_BASE + Span(ram, smp) <= ALIAS_BASE + 8 * GIB
  {
    SpanBound(ram, smp);
    hide Span;
  }

  lemma Walked(m: Tables, m': Tables, ram: nat, smp: nat, off: nat)
    requires Aliased(m, m', ram, smp) && ram % (2 * MIB2) == 0 && off < 8 * GIB
    requires off / MIB2 * MIB2 < Span(ram, smp) && off / MIB2 < 4096 && off / GIB < CeilDiv(Span(ram, smp), GIB)
    ensures Translate(m', ALIAS_BASE + off) == Some(RAM_BASE + ram / 2 + off)
  {
    hide Span, CeilDiv;
    var va, k, t := ALIAS_BASE + off, off / MIB2, off / GIB;
    Indices(off);
    assert m'.low[264 + t] == TableEntry(m.at[t]);
    TableKind(m.at[t]);
    IndexOfAt(m'.at, t);
    assert Entry(m'.l2, k) == Block(RAM_BASE + ram / 2 + k * MIB2, 0);
    Half(ram, k);
    BlockKind(RAM_BASE + ram / 2 + k * MIB2);
  }

  lemma Indices(off: nat)
    requires off < 8 * GIB
    ensures (ALIAS_BASE + off) / GIB == 264 + off / GIB && (ALIAS_BASE + off) / MIB2 % 512 == off / MIB2 % 512
    ensures (ALIAS_BASE + off) % MIB2 == off % MIB2 && off / GIB == off / MIB2 / 512 && off / GIB < 8
  {}

  /** A table entry leads back to its table exactly when the table is page-aligned. */
  lemma TableKind(at: nat)
    ensures TableEntry(at) % 4 == 3 && TableEntry(at) / 4096 * 4096 == at <==> at % 4096 == 0
  {
    var q, r := at / 4096, at % 4096;
    assert at == q * 4096 + r;
    if r == 0 { EntryFields(q); }
  }

  lemma EntryFields(q: nat)
    ensures (q * 4096 + 3) / 4096 == q && (q * 4096 + 3) % 4 == 3
  {
    DivMod(q, 4096, 3);
    DivMod(q * 1024, 4, 3);
  }

  lemma Half(ram: nat, k: nat)
    requires ram % (2 * MIB2) == 0
    ensures (RAM_BASE + ram / 2 + k * MIB2) % MIB2 == 0
  {
    var q := ram / (2 * MIB2);
    assert RAM_BASE + ram / 2 + k * MIB2 == (512 + q + k) * MIB2;
  }
}
