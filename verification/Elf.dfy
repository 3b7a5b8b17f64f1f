/** The 64-bit little-endian ELF structures the repackager reads and writes. */
module Elf {
  import opened Arithmetic
  import opened ByteStrings

  const LOAD := 1
  const DYNAMIC := 2
  const INTERP := 3
  const TLS := 7
  const RELRO := 0x6474E552

  // ---- numbers ----

  /** The k low bytes of n, lowest first. */
  function Little(n: nat, k: nat): (b: Bytes)
    ensures |b| == k
  {
    if k == 0 then [] else [n % 256] + Little(n / 256, k - 1)
  }

  function Read(b: Bytes, p: nat, k: nat): (n: nat)
    requires p + k <= |b|
    ensures n < Pow256(k)
    decreases k
  {
    if k == 0 then 0 else var low: int := b[p]; low + 256 * Read(b, p + 1, k - 1)
  }

  lemma {:induction false} ReadLittle(b: Bytes, p: nat, n: nat, k: nat)
    requires n < Pow256(k) && At(b, p, Little(n, k))
    ensures Read(b, p, k) == n
    decreases k
  {
    if k > 0 {
      AtSplit(b, p, [n % 256], Little(n / 256, k - 1));
      assert b[p..p + 1][0] == n % 256;
      ReadLittle(b, p + 1, n / 256, k - 1);
    }
  }

  lemma Widths()
    ensures Pow256(2) == 0x1_0000 && Pow256(4) == 0x1_0000_0000 && Pow256(8) == 0x1_0000_0000_0000_0000
  {
    assert Pow256(4) == 256 * 256 * Pow256(2);
    assert Pow256(8) == 256 * 256 * 256 * 256 * Pow256(4);
  }

  // ---- program headers ----

  datatype Raw = Raw(ptype: nat, flags: nat, poff: nat, vaddr: nat, filesz: nat, memsz: nat, align: nat)
  {
    ghost predicate Fits() {
      ptype < Pow256(4) && flags < Pow256(4) && poff < Pow256(8) && vaddr < Pow256(8)
      && filesz < Pow256(8) && memsz < Pow256(8) && align < Pow256(8)
    }
  }

  /** A program header with any physical address. */
  function Header(r: Raw, paddr: nat): Bytes {
    Little(r.ptype, 4) + Little(r.flags, 4) + Little(r.poff, 8) + Little(r.vaddr, 8) + Little(paddr, 8)
    + Little(r.filesz, 8) + Little(r.memsz, 8) + Little(r.align, 8)
  }

  /** The physical address is written as the virtual one and never read. */
  function Phdr(r: Raw): Bytes { Header(r, r.vaddr) }

  function ReadRaw(b: Bytes, p: nat): (r: Raw)
    requires p + 56 <= |b|
    ensures r.Fits()
  {
    Raw(Read(b, p, 4), Read(b, p + 4, 4), Read(b, p + 8, 8), Read(b, p + 16, 8), Read(b, p + 32, 8), Read(b, p + 40, 8),
        Read(b, p + 48, 8))
  }

  /** A written header reads back, each field from its own place, whatever its physical address. */
  lemma PhdrReads(b: Bytes, p: nat, r: Raw, paddr: nat)
    requires r.Fits() && paddr < Pow256(8) && At(b, p, Header(r, paddr))
    ensures p + 56 <= |b| && ReadRaw(b, p) == r
    ensures Read(b, p, 4) == r.ptype && Read(b, p + 4, 4) == r.flags && Read(b, p + 8, 8) == r.poff
    ensures Read(b, p + 16, 8) == r.vaddr && Read(b, p + 24, 8) == paddr && Read(b, p + 32, 8) == r.filesz
    ensures Read(b, p + 40, 8) == r.memsz && Read(b, p + 48, 8) == r.align
  {
    hide At, Little, Read, Pow256;
    var f0, f1, f2, f3, f4, f5, f6, f7 := Little(r.ptype, 4), Little(r.flags, 4), Little(r.poff, 8), Little(r.vaddr, 8),
                                           Little(paddr, 8), Little(r.filesz, 8), Little(r.memsz, 8),
                                             Little(r.align, 8);
    AtSplit(b, p, f0 + f1 + f2 + f3 + f4 + f5 + f6, f7);
    AtSplit(b, p, f0 + f1 + f2 + f3 + f4 + f5, f6);
    AtSplit(b, p, f0 + f1 + f2 + f3 + f4, f5);
    AtSplit(b, p, f0 + f1 + f2 + f3, f4);
    AtSplit(b, p, f0 + f1 + f2, f3);
    AtSplit(b, p, f0 + f1, f2);
    AtSplit(b, p, f0, f1);
    AtFits(b, p + 48, f7);
    ReadLittle(b, p, r.ptype, 4);
    ReadLittle(b, p + 4, r.flags, 4);
    ReadLittle(b, p + 8, r.poff, 8);
    ReadLittle(b, p + 16, r.vaddr, 8);
    ReadLittle(b, p + 24, paddr, 8);
    ReadLittle(b, p + 32, r.filesz, 8);
    ReadLittle(b, p + 40, r.memsz, 8);
    ReadLittle(b, p + 48, r.align, 8);
  }

  function Table(rs: seq<Raw>): (b: Bytes)
    ensures |b| == 56 * |rs|
  {
    if rs == [] then [] else Phdr(rs[0]) + Table(rs[1..])
  }

  function ReadTable(b: Bytes, p: nat, n: nat): (rs: seq<Raw>)
    requires p + 56 * n <= |b|
    ensures |rs| == n && forall i :: 0 <= i < n ==> rs[i].Fits()
    decreases n
  {
    if n == 0 then [] else [ReadRaw(b, p)] + ReadTable(b, p + 56, n - 1)
  }

  lemma {:induction false} TableAt(b: Bytes, p: nat, n: nat, i: nat)
    requires p + 56 * n <= |b| && i < n
    ensures p + 56 * i + 56 <= |b| && ReadTable(b, p, n)[i] == ReadRaw(b, p + 56 * i)
    decreases n
  {
    hide ReadRaw;
    if i > 0 { TableAt(b, p + 56, n - 1, i - 1); }
  }

  lemma {:induction false} TableReads(b: Bytes, p: nat, rs: seq<Raw>)
    requires At(b, p, Table(rs)) && forall i :: 0 <= i < |rs| ==> rs[i].Fits()
    ensures p + 56 * |rs| <= |b| && ReadTable(b, p, |rs|) == rs
    decreases rs
  {
    hide Raw.Fits, Header;
    if rs != [] {
      AtSplit(b, p, Phdr(rs[0]), Table(rs[1..]));
      PhdrLength(rs[0]);
      assert rs[0].vaddr < Pow256(8) by { Fitting(rs[0]); }
      PhdrReads(b, p, rs[0], rs[0].vaddr);
      TableReads(b, p + 56, rs[1..]);
      assert rs == [rs[0]] + rs[1..];
    }
  }

  lemma Fitting(r: Raw)
    requires r.Fits()
    ensures r.vaddr < Pow256(8)
  {}

  lemma PhdrLength(r: Raw)
    ensures |Phdr(r)| == 56
  {}

  // ---- the file header ----

  const IDENT: Bytes := [0x7F, 0x45, 0x4C, 0x46, 2, 1, 1, 0, 0, 0, 0, 0, 0, 0, 0, 0]

  function Ehdr(etype: nat, entry: nat, phnum: nat): Bytes {
    IDENT + Little(etype, 2) + Little(183, 2) + Little(1, 4) + Little(entry, 8) + Little(64, 8) + Little(0, 8)
    + Little(0, 4) + Little(64, 2) + Little(56, 2) + Little(phnum, 2) + Little(0, 2) + Little(0, 2) + Little(0, 2)
  }

  /** The fields of the file header that are looked at. */
  datatype Head = Head(magic: bool, machine: nat, etype: nat, entry: nat, phoff: nat, phentsz: nat, phnum: nat)

  function ReadHead(b: Bytes): Head
    requires |b| >= 64
  {
    Head(b[..7] == IDENT[..7], Read(b, 18, 2), Read(b, 16, 2), Read(b, 24, 8), Read(b, 32, 8), Read(b, 54, 2),
      Read(b, 56, 2))
  }

  lemma EhdrReads(b: Bytes, etype: nat, entry: nat, phnum: nat)
    requires At(b, 0, Ehdr(etype, entry, phnum)) && etype < Pow256(2) && entry < Pow256(8) && phnum < Pow256(2)
    ensures |Ehdr(etype, entry, phnum)| == 64 && |b| >= 64
    ensures ReadHead(b) == Head(true, 183, etype, entry, 64, 56, phnum)
    ensures b[..7] == [0x7F, 0x45, 0x4C, 0x46, 2, 1, 1]
    ensures Read(b, 16, 2) == etype && Read(b, 18, 2) == 183 && Read(b, 24, 8) == entry && Read(b, 32, 8) == 64
    ensures Read(b, 54, 2) == 56 && Read(b, 56, 2) == phnum
  {
    hide At, Little, Read;
    var a := IDENT + Little(etype, 2) + Little(183, 2) + Little(1, 4) + Little(entry, 8) + Little(64, 8);
    var z := a + Little(0, 8) + Little(0, 4) + Little(64, 2) + Little(56, 2) + Little(phnum, 2);
    AtSplit(b, 0, z + Little(0, 2) + Little(0, 2), Little(0, 2));
    AtFits(b, 62, Little(0, 2));
    AtSplit(b, 0, z + Little(0, 2), Little(0, 2));
    AtSplit(b, 0, z, Little(0, 2));
    assert IDENT[..7] == [0x7F, 0x45, 0x4C, 0x46, 2, 1, 1];
    EhdrTail(b, a, phnum);
    EhdrFront(b, etype, entry);
  }

  lemma EhdrTail(b: Bytes, a: Bytes, phnum: nat)
    requires |a| == 48 - 8 && phnum < Pow256(2)
    requires At(b, 0, a + Little(0, 8) + Little(0, 4) + Little(64, 2) + Little(56, 2) + Little(phnum, 2))
    ensures |b| >= 58 && Read(b, 54, 2) == 56 && Read(b, 56, 2) == phnum && At(b, 0, a)
  {
    hide At, Little, Read;
    Widths();
    var y := a + Little(0, 8) + Little(0, 4) + Little(64, 2);
    AtSplit(b, 0, y + Little(56, 2), Little(phnum, 2));
    AtFits(b, 56, Little(phnum, 2));
    AtSplit(b, 0, y, Little(56, 2));
    AtSplit(b, 0, a + Little(0, 8) + Little(0, 4), Little(64, 2));
    AtSplit(b, 0, a + Little(0, 8), Little(0, 4));
    AtSplit(b, 0, a, Little(0, 8));
    ReadLittle(b, 54, 56, 2);
    ReadLittle(b, 56, phnum, 2);
  }

  lemma EhdrFront(b: Bytes, etype: nat, entry: nat)
    requires At(b, 0, IDENT + Little(etype, 2) + Little(183, 2) + Little(1, 4) + Little(entry, 8) + Little(64, 8))
    requires |b| >= 64 && etype < Pow256(2) && entry < Pow256(8)
    ensures b[..7] == IDENT[..7] && Read(b, 16, 2) == etype && Read(b, 18, 2) == 183 && Read(b, 24, 8) == entry
            && Read(b, 32, 8) == 64
  {
    hide At, Little, Read;
    Widths();
    var i := IDENT;
    var m := i + Little(etype, 2) + Little(183, 2);
    AtSplit(b, 0, m + Little(1, 4) + Little(entry, 8), Little(64, 8));
    AtSplit(b, 0, m + Little(1, 4), Little(entry, 8));
    AtSplit(b, 0, m, Little(1, 4));
    AtSplit(b, 0, i + Little(etype, 2), Little(183, 2));
    AtSplit(b, 0, i, Little(etype, 2));
    AtStart(b, i);
    ReadLittle(b, 16, etype, 2);
    ReadLittle(b, 18, 183, 2);
    ReadLittle(b, 24, entry, 8);
    ReadLittle(b, 32, 64, 8);
  }
}
