/** Shared objects that are accepted and written back unchanged: one segment holding a string
    table, a hash table, two symbols, one relocation against a symbol and its target, and a
    dynamic section that describes them. */
module RepackDynamic {
  import opened Options
  import opened Arithmetic
  import opened ByteStrings
  import opened Elf
  import opened Segments
  import opened Repack
  import opened RepackProofs
  import RepackAgain
  import Dynamic
  import opened DynamicExact

  // ---- lists of entries ----

  function Entry(e: (nat, nat)): Bytes { Little(e.0, 8) + Little(e.1, 8) }

  function Section(es: seq<(nat, nat)>): (b: Bytes)
    ensures |b| == 16 * |es|
  {
    if es == [] then [] else Entry(es[0]) + Section(es[1..])
  }

  ghost predicate Wide(es: seq<(nat, nat)>) {
    forall k :: 0 <= k < |es| ==> es[k].0 < 0x1_0000_0000_0000_0000 && es[k].1 < 0x1_0000_0000_0000_0000
  }

  lemma {:induction false} SectionReads(b: Bytes, p: nat, es: seq<(nat, nat)>, k: nat)
    requires At(b, p, Section(es)) && Wide(es) && k < |es|
    ensures p + 16 * k + 16 <= |b| && Read(b, p + 16 * k, 8) == es[k].0 && Read(b, p + 16 * k + 8, 8) == es[k].1
    decreases es
  {
    hide At, Read, Little;
    Widths();
    AtFits(b, p, Section(es));
    AtSplit(b, p, Entry(es[0]), Section(es[1..]));
    if k == 0 {
      AtSplit(b, p, Little(es[0].0, 8), Little(es[0].1, 8));
      ReadLittle(b, p, es[0].0, 8);
      ReadLittle(b, p + 8, es[0].1, 8);
    } else {
      SectionReads(b, p + 16, es[1..], k - 1);
    }
  }

  lemma SectionTags(es: seq<(nat, nat)>)
    requires Wide(es)
    ensures forall k :: 0 <= k < |es| ==> Tag(Section(es), k) == es[k].0 && Value(Section(es), k) == es[k].1
  {
    hide Section, Read, At, Wide;
    AtWhole(Section(es));
    forall k | 0 <= k < |es| ensures Tag(Section(es), k) == es[k].0 && Value(Section(es), k) == es[k].1 {
      SectionReads(Section(es), 0, es, k);
    }
  }

  /** The value of the last entry with a tag. */
  function Listed(es: seq<(nat, nat)>, n: nat, tag: nat): Option<nat>
    requires n <= |es|
  {
    if n == 0 then None else if es[n - 1].0 == tag then Some(es[n - 1].1) else Listed(es, n - 1, tag)
  }

  lemma {:induction false} LookupListed(es: seq<(nat, nat)>, n: nat, tag: nat)
    requires Wide(es) && n <= |es|
    ensures Lookup(Section(es), n, tag) == Listed(es, n, tag)
  {
    hide Section, Wide, Tag, Value;
    SectionTags(es);
    if n > 0 { LookupListed(es, n - 1, tag); }
  }

  lemma {:induction false} NoneNeeded(es: seq<(nat, nat)>, n: nat)
    requires Wide(es) && n <= |es| && forall k :: 0 <= k < n ==> es[k].0 != 1
    ensures NeededOf(Section(es), n) == []
  {
    hide Section, Wide, Tag, Value;
    SectionTags(es);
    if n > 0 { NoneNeeded(es, n - 1); }
  }

  // ---- the segment ----

  function Zeros(n: nat): Bytes { seq(n, _ => 0) }

  function Strings(name: Bytes): Bytes { [0] + name + [0] }

  /** One bucket with symbol 1, and two chains that end. */
  function Hash(): Bytes { Little(1, 4) + Little(2, 4) + Little(1, 4) + Little(0, 4) + Little(0, 4) }

  /** The null symbol and one whose name is at offset 1 of the string table. */
  function Symbols(): Bytes { Zeros(24) + Little(1, 4) + [0x12] + Zeros(19) }

  function Rela(target: nat, kind: nat): Bytes { Little(target, 8) + Little(kind, 4) + Little(1, 4) + Zeros(8) }

  function Memory(va: nat, name: Bytes, kind: nat): Bytes {
    Strings(name) + Hash() + Symbols() + Rela(va + |name| + 94, kind) + Zeros(8)
  }

  function Tags(va: nat, name: Bytes): seq<(nat, nat)> {
    var s := |name| + 2;
    [(5, va), (10, s), (4, va + s), (6, va + s + 20), (11, 24), (7, va + s + 68), (8, 24), (9, 24), (24, 0), (0, 0)]
  }

  /** A printable name of at most 256 characters, a relocation against a symbol, and a place for
      the segment away from the stack page. */
  predicate Fits(va: nat, name: Bytes, kind: nat) {
    && 1 <= |name| <= 256 && (forall c :: c in name ==> 32 <= c <= 126) && kind in {257, 1025, 1026}
    && va + |name| + 102 <= 0x1_0000_0000 && (va + |name| + 101 < 0x3FFF_D000 || va >= 0x3FFF_E000)
  }

  function Blob1(va: nat, name: Bytes, kind: nat): Blob { Blob(va, Memory(va, name, kind), 7) }

  function Extras1(va: nat, name: Bytes): Extras { Extras(None, Some((va, Section(Tags(va, name)))), None) }

  function SharedObject(va: nat, name: Bytes, kind: nat): Bytes {
    Output(DYN, va, [Blob1(va, name, kind)], Extras1(va, name))
  }

  // ---- where things are in the segment ----

  lemma MemoryParts(va: nat, name: Bytes, kind: nat)
    ensures var m, s := Memory(va, name, kind), |name| + 2;
            && |m| == s + 100 && At(m, 0, Strings(name)) && At(m, s, Hash()) && At(m, s + 20, Symbols())
            && At(m, s + 68, Rela(va + s + 92, kind))
    ensures |Hash()| == 20 && |Symbols()| == 48 && |Rela(va + |name| + 94, kind)| == 24
  {
    hide At, Little;
    var m, a, h, y, r := Memory(va, name, kind), Strings(name), Hash(), Symbols(), Rela(va + |name| + 94, kind);
    AtWhole(m);
    AtSplit(m, 0, a + h + y + r, Zeros(8));
    AtSplit(m, 0, a + h + y, r);
    AtSplit(m, 0, a + h, y);
    AtSplit(m, 0, a, h);
  }

  lemma HashReads(h: Bytes)
    requires h == Hash()
    ensures |h| == 20 && Read(h, 0, 4) == 1 && Read(h, 4, 4) == 2 && Read(h, 8, 4) == 1 && Read(h, 12, 4) == 0
            && Read(h, 16, 4) == 0
  {
    hide At, Little, Read;
    Widths();
    AtWhole(h);
    AtSplit(h, 0, Little(1, 4) + Little(2, 4) + Little(1, 4) + Little(0, 4), Little(0, 4));
    AtSplit(h, 0, Little(1, 4) + Little(2, 4) + Little(1, 4), Little(0, 4));
    AtSplit(h, 0, Little(1, 4) + Little(2, 4), Little(1, 4));
    AtSplit(h, 0, Little(1, 4), Little(2, 4));
    ReadLittle(h, 0, 1, 4);
    ReadLittle(h, 4, 2, 4);
    ReadLittle(h, 8, 1, 4);
    ReadLittle(h, 12, 0, 4);
    ReadLittle(h, 16, 0, 4);
  }

  lemma ZerosRead(b: Bytes, p: nat, k: nat)
    requires p + k <= |b| && forall i :: p <= i < p + k ==> b[i] == 0
    ensures Read(b, p, k) == 0
    decreases k
  {
    if k > 0 { ZerosRead(b, p + 1, k - 1); }
  }

  lemma SymbolsRead(y: Bytes)
    requires y == Symbols()
    ensures |y| == 48 && Read(y, 0, 4) == 0 && y[4] == 0 && Read(y, 24, 4) == 1 && y[28] == 0x12
  {
    hide At, Little, Read;
    Widths();
    AtWhole(y);
    AtSplit(y, 0, Zeros(24) + Little(1, 4) + [0x12], Zeros(19));
    AtSplit(y, 0, Zeros(24) + Little(1, 4), [0x12]);
    AtSplit(y, 0, Zeros(24), Little(1, 4));
    ReadLittle(y, 24, 1, 4);
    ZerosRead(y, 0, 4);
  }

  lemma RelaReads(r: Bytes, target: nat, kind: nat)
    requires r == Rela(target, kind) && target < 0x1_0000_0000_0000_0000 && kind < 0x1_0000_0000
    ensures |r| == 24 && Read(r, 0, 8) == target && Read(r, 8, 4) == kind && Read(r, 12, 4) == 1
  {
    hide At, Little, Read;
    Widths();
    AtWhole(r);
    AtSplit(r, 0, Little(target, 8) + Little(kind, 4) + Little(1, 4), Zeros(8));
    AtSplit(r, 0, Little(target, 8) + Little(kind, 4), Little(1, 4));
    AtSplit(r, 0, Little(target, 8), Little(kind, 4));
    ReadLittle(r, 0, target, 8);
    ReadLittle(r, 8, kind, 4);
    ReadLittle(r, 12, 1, 4);
  }

  /** An address range of a single segment. */
  lemma SeesMemory(img: Bytes, off: nat, va: nat, data: Bytes, k: nat, part: Bytes)
    requires At(img, off, data) && At(data, k, part)
    ensures var segs := [Load(va, off, |data|, |data|, 7)];
            Backed(img, segs) && View(img, segs, va + k, |part|) == Some(part)
  {
    var segs := [Load(va, off, |data|, |data|, 7)];
    assert Backs(segs[0], va + k, |part|);
    SliceSlice(img, off, |data|, k, |part|);
  }

  // ---- the section is acceptable ----

  /** The section's values by tag. */
  function TagValue(va: nat, s: nat, t: nat): Option<nat> {
    if t == 5 then Some(va) else if t == 10 then Some(s) else if t == 4 then Some(va + s)
    else if t == 6 then Some(va + s + 20) else if t == 7 then Some(va + s + 68)
    else if t in {8, 9, 11} then Some(24) else if t == 24 then Some(0) else None
  }

  lemma ListedTags(va: nat, name: Bytes, t: nat)
    ensures Listed(Tags(va, name), 9, t) == TagValue(va, |name| + 2, t)
  {
    var es := Tags(va, name);
    assert Listed(es, 1, t) == if t == 5 then Some(va) else None;
    assert Listed(es, 2, t) == if t == 10 then Some(|name| + 2) else Listed(es, 1, t);
    assert Listed(es, 3, t) == if t == 4 then Some(va + |name| + 2) else Listed(es, 2, t);
    assert Listed(es, 4, t) == if t == 6 then Some(va + |name| + 22) else Listed(es, 3, t);
    assert Listed(es, 5, t) == if t == 11 then Some(24) else Listed(es, 4, t);
    assert Listed(es, 6, t) == if t == 7 then Some(va + |name| + 70) else Listed(es, 5, t);
    assert Listed(es, 7, t) == if t == 8 then Some(24) else Listed(es, 6, t);
    assert Listed(es, 8, t) == if t == 9 then Some(24) else Listed(es, 7, t);
  }

  lemma TagsLookUp(va: nat, name: Bytes)
    requires va + |name| + 102 <= 0x1_0000_0000
    ensures var dyn, s := Section(Tags(va, name)), |name| + 2;
            && Wide(Tags(va, name)) && |dyn| == 160 && NeededOf(dyn, 9) == []
            && forall t :: Lookup(dyn, 9, t) == TagValue(va, s, t)
  {
    hide Section;
    var es := Tags(va, name);
    NoneNeeded(es, 9);
    forall t ensures Lookup(Section(es), 9, t) == TagValue(va, |name| + 2, t) {
      LookupListed(es, 9, t);
      ListedTags(va, name, t);
    }
  }

  lemma EntriesHold(va: nat, name: Bytes)
    requires va + |name| + 102 <= 0x1_0000_0000
    ensures Entries(Section(Tags(va, name)), 9)
  {
    hide Section, Tag, Value;
    TagsLookUp(va, name);
    SectionTags(Tags(va, name));
  }

  lemma NamesHold(name: Bytes)
    requires 1 <= |name| <= 256 && forall c :: c in name ==> 32 <= c <= 126
    ensures SymbolTable(Some(Symbols()), Strings(name), [[], name]) && HashTable(Some(Hash()), 3, 2)
  {
    hide Symbols, Hash, Read;
    SymbolsRead(Symbols());
    HashReads(Hash());
    var t := Strings(name);
    assert t[0..0] == [] && t[1..1 + |name|] == name && t[0] == 0 && t[1 + |name|] == 0;
    var names := [[], name];
    forall i | 0 <= i < 2
      ensures Symbols()[24 * i + 4] % 16 != 6 && NameAt(t, Read(Symbols(), 24 * i, 4), 256, names[i])
    {}
    forall i | 0 <= i < 3 ensures Read(Hash(), 8 + 4 * i, 4) < 2 {}
  }

  lemma RelocationHolds(va: nat, name: Bytes, kind: nat, segs: seq<Load>)
    requires Fits(va, name, kind) && |segs| == 1 && segs[0].vaddr == va && segs[0].memsz == |name| + 102
    requires segs[0].flags == 7
    ensures |Rela(va + |name| + 94, kind)| == 24
    ensures Relocation(Rela(va + |name| + 94, kind), 0, segs, true, [[], name])
  {
    hide Rela, Read;
    RelaReads(Rela(va + |name| + 94, kind), va + |name| + 94, kind);
    assert Segments.Holds(segs[0], va + |name| + 94, 8, true);
  }

  lemma SectionSound(img: Bytes, off: nat, va: nat, name: Bytes, kind: nat)
    requires Fits(va, name, kind) && At(img, off, Memory(va, name, kind))
    ensures |Memory(va, name, kind)| == |name| + 102
    ensures var n := |name| + 102; var segs := [Load(va, off, n, n, 7)];
            Backed(img, segs) && Described(img, segs, Section(Tags(va, name)), 9, Strings(name), [[], name])
  {
    hide At, View, Backed, Memory, Strings, Hash, Symbols, Rela, Section, Lookup, NeededOf, Relocation, HashTable,
      SymbolTable, Entries, VaInSegment, Tags;
    var m, s, n := Memory(va, name, kind), |name| + 2, |name| + 102;
    var segs := [Load(va, off, n, n, 7)];
    MemoryParts(va, name, kind);
    TagsLookUp(va, name);
    EntriesHold(va, name);
    NamesHold(name);
    StringsLength(name);
    SeesMemory(img, off, va, m, 0, Strings(name));
    SeesMemory(img, off, va, m, s, Hash());
    SeesMemory(img, off, va, m, s + 20, Symbols());
    SeesMemory(img, off, va, m, s + 68, Rela(va + s + 92, kind));
    HeadSeen(img, segs, va + s);
    RelocationHolds(va, name, kind, segs);
  }

  lemma StringsLength(name: Bytes)
    ensures |Strings(name)| == |name| + 2
  {}

  /** The first two words of the hash table, seen on their own. */
  lemma HeadSeen(img: Bytes, segs: seq<Load>, hash: nat)
    requires Backed(img, segs) && |segs| == 1 && |Hash()| == 20 && View(img, segs, hash, 20) == Some(Hash())
    ensures var head := View(img, segs, hash, 8);
            head.Some? && Read(head.value, 0, 4) == 1 && Read(head.value, 4, 4) == 2
  {
    hide Hash, Read;
    HashReads(Hash());
    var l := segs[0];
    FoundIn(segs, hash, 20);
    assert Backs(l, hash, 20) && Backs(l, hash, 8);
    var off := l.poff + (hash - l.vaddr);
    SliceSlice(img, off, 20, 0, 8);
    SameRead(Hash(), Hash()[..8], 0, 4);
    SameRead(Hash(), Hash()[..8], 4, 4);
  }

  lemma SameRead(a: Bytes, b: Bytes, p: nat, k: nat)
    requires p + k <= |a| && p + k <= |b| && forall i :: p <= i < p + k ==> a[i] == b[i]
    ensures Read(a, p, k) == Read(b, p, k)
    decreases k
  {
    if k > 0 { SameRead(a, b, p + 1, k - 1); }
  }

  // ---- the file is accepted ----

  lemma ObjectSmall(va: nat, name: Bytes, kind: nat)
    requires Fits(va, name, kind)
    ensures Small([Blob1(va, name, kind)], Extras1(va, name)) && |Memory(va, name, kind)| == |name| + 102
    ensures DataLength([Blob1(va, name, kind)]) == |name| + 102 && PageSum([Blob1(va, name, kind)]) == 1
    ensures Data([Blob1(va, name, kind)]) == Memory(va, name, kind)
  {
    hide Memory, Section;
    Widths();
    MemoryParts(va, name, kind);
    var bs := [Blob1(va, name, kind)];
    assert bs[1..] == [];
    assert Data(bs) == Memory(va, name, kind) + [];
    assert |Tags(va, name)| == 10;
    assert va < 0x1_0000_0000;
    assert Pow256(4) > 7 && Pow256(8) > va;
    assert forall i :: 0 <= i < |bs| ==> bs[i].flags < Pow256(4) && bs[i].vaddr < 0x1_0000_0000;
    assert PageSum(bs) == 1 && Count(bs, Extras1(va, name)) == 2;
    assert |Section(Tags(va, name))| == 160;
  }

  lemma ObjectReads(va: nat, name: Bytes, kind: nat)
    requires Fits(va, name, kind)
    ensures var img, bs, x := SharedObject(va, name, kind), [Blob1(va, name, kind)], Extras1(va, name);
            && RepackProofs.Parts(img, DYN, va, bs, x) && HeadOk(img)
               && ReadHead(img) == Head(true, 183, DYN, va, 64, 56, 2)
            && RawsOf(img) == OutRaws(bs, x) && Readable(img) && !Static(img)
            && SegmentsOf(img) == [Load(va, 176, |name| + 102, |name| + 102, 7)]
  {
    hide Memory, Section, Output, HeadOk, RawsOf, LoadsOf, Sort, Kind, RepackProofs.Parts, Small, OutRaws, Readable,
      RawOk, Data;
    var img, bs, x := SharedObject(va, name, kind), [Blob1(va, name, kind)], Extras1(va, name);
    ObjectSmall(va, name, kind);
    OutputParts(DYN, va, bs, x);
    Widths();
    SmallOutput(img, DYN, va, bs, x);
    RawsSorted(bs, x);
    SingleLoad(bs, 176);
    DataAt(img, DYN, va, bs, x);
    forall i | 0 <= i < Count(bs, x) ensures RawOk(img, OutRaws(bs, x)[i], false) { OutRawOk(img, bs, x, i, false); }
    SortOne(Load(va, 176, |name| + 102, |name| + 102, 7));
    OutRawsLength(bs, x);
    RepackProofs.MakeReadable(img);
  }

  lemma DataAt(img: Bytes, etype: nat, entry: nat, bs: seq<Blob>, x: Extras)
    requires RepackProofs.Parts(img, etype, entry, bs, x)
    ensures At(img, DataStart(bs, x), Data(bs))
    ensures var end := DataStart(bs, x) + DataLength(bs);
            At(img, end, InterpData(x)) && At(img, end + |InterpData(x)|, DynData(x))
  {
    hide At, Ehdr, Table, OutRaws, Data, DataLength;
  }

  lemma SingleLoad(bs: seq<Blob>, off: nat)
    requires |bs| == 1
    ensures OutLoads(bs, off) == [Load(bs[0].vaddr, off, |bs[0].data|, |bs[0].data|, bs[0].flags)]
  {}

  lemma SortOne(l: Load)
    ensures Sort([l]) == [l]
  {}

  lemma OneOk(l: Load, entry: nat)
    requires 0 < l.memsz && entry == l.vaddr && l.vaddr + l.memsz <= 0x1_0000_0000
    requires l.vaddr + l.memsz - 1 < 0x3FFF_D000 || l.vaddr >= 0x3FFF_E000
    ensures LoadsOk([l], DYN, entry)
  {
    assert [l][0].vaddr <= entry < [l][0].vaddr + [l][0].memsz;
  }

  /** Every such shared object is accepted, and what is written for it is the file itself. */
  lemma SharedObjectAccepted(va: nat, name: Bytes, kind: nat)
    requires Fits(va, name, kind)
    ensures Accepted(SharedObject(va, name, kind))
    ensures Repacked(SharedObject(va, name, kind)) == Some(SharedObject(va, name, kind))
  {
    hide Memory, Section, Output, HeadOk, RawsOf, LoadsOf, Sort, Kind, RepackProofs.Parts, Small, OutRaws, Readable,
      RawOk, Data,
      Dynamic.Accepts, At, Static, ExtrasOf, LoadsOk, Described, PageSum, Strings;
    var img, bs, x := SharedObject(va, name, kind), [Blob1(va, name, kind)], Extras1(va, name);
    var n := |name| + 102;
    var segs := [Load(va, 176, n, n, 7)];
    ObjectReads(va, name, kind);
    ObjectSmall(va, name, kind);
    DataAt(img, DYN, va, bs, x);
    SectionSound(img, 176, va, name, kind);
    AcceptsExactly(img, segs, Section(Tags(va, name)));
    assert Sound(img, segs, Section(Tags(va, name)));
    RawsSorted(bs, x);
    DynAt(img, 176 + n, x);
    ExtrasFoundHere(img, RawsOf(img), segs, x, 176 + n);
    OutBacked(img, bs, 176);
    SingleLoad(bs, 176);
    OneOk(segs[0], va);
  }

  lemma DynAt(img: Bytes, end: nat, x: Extras)
    requires x.interp.None? && At(img, end, DynData(x))
    ensures end + |DynData(x)| <= |img| && img[end..end + |DynData(x)|] == DynData(x) && img[end..end] == []
  {}

  lemma ExtrasFoundHere(img: Bytes, raws: seq<Raw>, segs: seq<Load>, x: Extras, end: nat)
    requires Backed(img, segs) && x.interp.None? && x.relro.None? && x.dyn.Some?
    requires Kind(raws, INTERP) == InterpRaws(x, end) && Kind(raws, DYNAMIC) == DynRaws(x, end)
             && Kind(raws, RELRO) == []
    requires end + |DynData(x)| <= |img| && img[end..end + |DynData(x)|] == DynData(x)
    requires Dynamic.Accepts(img, segs, x.dyn.value.1)
    ensures ExtrasOf(img, raws, segs) == Some(x)
  {
    hide Kind, Dynamic.Accepts, Backed;
  }
}
