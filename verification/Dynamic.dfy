/** Which dynamic sections the repackager accepts. Everything outside the section itself is
    reached through virtual addresses. */
module Dynamic {
  import opened Options
  import opened ByteStrings
  import opened Elf
  import opened Segments

  const MAX_DYN_STR := 64 * 1024
  const MAX_NEEDED := 16
  const MAX_RELA := 32768
  const MAX_DYN_ENT := 64
  const MAX_NEEDED_NAME := 128
  const MAX_HASH_BUCKETS := 4096
  const MAX_SYMBOLS := 16384
  const MAX_INIT_ARRAY := 64
  const MAX_SYMBOL_NAME := 256

  const NEEDED := 1
  const PLTRELSZ := 2
  const PLTGOT := 3
  const HASH := 4
  const STRTAB := 5
  const SYMTAB := 6
  const RELA := 7
  const RELASZ := 8
  const RELAENT := 9
  const STRSZ := 10
  const SYMENT := 11
  const INIT := 12
  const FINI := 13
  const SONAME := 14
  const PLTREL := 20
  const DEBUG := 21
  const JMPREL := 23
  const BIND_NOW := 24
  const INIT_ARRAY := 25
  const FINI_ARRAY := 26
  const INIT_ARRAYSZ := 27
  const FINI_ARRAYSZ := 28
  const FLAGS := 30
  const FLAGS_1 := 0x6FFFFFFB
  const VERSYM := 0x6FFFFFF0

  const SUPPORTED: set<nat> :=
    {PLTRELSZ, PLTGOT, HASH, STRTAB, SYMTAB, RELA, RELASZ, RELAENT, STRSZ, SYMENT, INIT, FINI, SONAME, PLTREL, DEBUG,
     JMPREL, BIND_NOW, INIT_ARRAY, FINI_ARRAY, INIT_ARRAYSZ, FINI_ARRAYSZ, FLAGS, FLAGS_1, VERSYM}

  /** Version needs and definitions, run path, relative-relocation count, extended section indices. */
  const SKIPPED: set<nat> := {0x6FFFFFFE, 0x6FFFFFFF, 0x6FFFFFFC, 0x6FFFFFFD, 29, 0x6FFFFFF9, 34}

  // ---- the section ----

  datatype Dyn = Dyn(needed: seq<nat>, tags: map<nat, nat>)
  {
    function Get(tag: nat): Option<nat> { if tag in tags then Some(tags[tag]) else None }
    function GetOr0(tag: nat): nat { if tag in tags then tags[tag] else 0 }
  }

  /** Entries from the i-th on: up to the null tag, each supported tag once. */
  function Scan(dyn: Bytes, i: nat, d: Dyn): Option<Dyn>
    decreases |dyn| - 16 * i
  {
    if 16 * i + 16 > |dyn| then None else
    var tag, value := Read(dyn, 16 * i, 8), Read(dyn, 16 * i + 8, 8);
    if tag == 0 then Some(d)
    else if tag == NEEDED then Scan(dyn, i + 1, d.(needed := d.needed + [value]))
    else if tag in SKIPPED then Scan(dyn, i + 1, d)
    else if tag in d.tags || tag !in SUPPORTED || (tag == FLAGS && value / 4 % 2 == 1) then None
    else Scan(dyn, i + 1, d.(tags := d.tags[tag := value]))
  }

  // ---- strings ----

  function FindNul(s: Bytes, off: nat): Option<nat>
    decreases |s| - off
  {
    if off >= |s| then None else if s[off] == 0 then Some(off) else FindNul(s, off + 1)
  }

  lemma {:induction false} NulFound(s: Bytes, off: nat)
    requires FindNul(s, off).Some?
    ensures off <= FindNul(s, off).value < |s|
    decreases |s| - off
  {
    if s[off] != 0 { NulFound(s, off + 1); }
  }

  /** A printable NUL-terminated name of bounded length. */
  function Resolve(strtab: Bytes, strsz: nat, off: nat, limit: nat): Option<Bytes> {
    if off >= strsz || FindNul(strtab, off).None? then None else
    NulFound(strtab, off);
    var name := strtab[off..FindNul(strtab, off).value];
    if (forall i :: 0 <= i < |name| ==> 32 <= name[i] <= 126) && |name| <= limit then Some(name) else None
  }

  function Strtab(img: Bytes, segs: seq<Load>, d: Dyn): Option<Bytes>
    requires Backed(img, segs)
  {
    var strsz := d.GetOr0(STRSZ);
    match d.Get(STRTAB)
    case Some(va) => View(img, segs, va, strsz)
    case None =>
      if d.needed != [] || SONAME in d.tags || HASH in d.tags || SYMTAB in d.tags || strsz != 0 then None else Some([])
  }

  predicate StringsOk(d: Dyn, strtab: Bytes) {
    var strsz := d.GetOr0(STRSZ);
    && strsz <= MAX_DYN_STR && |d.needed| <= MAX_NEEDED
    && (forall off :: off in d.needed ==>
          var name := Resolve(strtab, strsz, off, MAX_NEEDED_NAME);
          name.Some? && name.value != [] && 0x2f !in name.value)
    && (SONAME in d.tags ==>
          var name := Resolve(strtab, strsz, d.tags[SONAME], MAX_SYMBOL_NAME);
          name.Some? && name.value != [])
  }

  // ---- symbols ----

  predicate HashOk(table: Bytes, buckets: nat, count: nat)
    requires |table| == 8 + 4 * (buckets + count)
  {
    && (forall i :: 2 <= i < 2 + buckets ==> Word(table, i) < count)
    && (forall i :: 2 + buckets <= i < 2 + buckets + count ==> Word(table, i) == 0 || Word(table, i) < count)
  }

  /** The i-th 32-bit word. */
  function Word(table: Bytes, i: nat): nat
    requires 4 * i + 4 <= |table|
  {
    Read(table, 4 * i, 4)
  }

  function Symbol(sym: Bytes, i: nat, strtab: Bytes, strsz: nat): Option<Bytes>
    requires 24 * i + 24 <= |sym|
  {
    if sym[24 * i + 4] % 16 == 6 then None else Resolve(strtab, strsz, Read(sym, 24 * i, 4), MAX_SYMBOL_NAME)
  }

  predicate SymbolsOk(sym: Bytes, count: nat, strtab: Bytes, strsz: nat)
    requires |sym| == 24 * count
  {
    forall i :: 0 <= i < count ==> Symbol(sym, i, strtab, strsz).Some?
  }

  function NamesOf(sym: Bytes, count: nat, strtab: Bytes, strsz: nat): (names: seq<Bytes>)
    requires |sym| == 24 * count && SymbolsOk(sym, count, strtab, strsz)
  {
    seq(count, i requires 0 <= i < count => Symbol(sym, i, strtab, strsz).value)
  }

  /** The symbol names, or nothing if the symbol metadata is refused. */
  function Names(img: Bytes, segs: seq<Load>, d: Dyn, strtab: Bytes): Option<seq<Bytes>>
    requires Backed(img, segs)
  {
    if (HASH in d.tags) != (SYMTAB in d.tags) || (HASH !in d.tags && SYMENT in d.tags) then None
    else if HASH !in d.tags then Some([])
    else if SYMENT in d.tags && d.tags[SYMENT] != 24 then None
    else
      var head := View(img, segs, d.tags[HASH], 8);
      if head.None? then None else NamesFrom(img, segs, d, strtab, head.value)
  }

  function NamesFrom(img: Bytes, segs: seq<Load>, d: Dyn, strtab: Bytes, head: Bytes): Option<seq<Bytes>>
    requires Backed(img, segs) && HASH in d.tags && SYMTAB in d.tags && |head| == 8
  {
    var buckets, count := Word(head, 0), Word(head, 1);
    if buckets == 0 || buckets > MAX_HASH_BUCKETS || count == 0 || count > MAX_SYMBOLS then None else
    var table := View(img, segs, d.tags[HASH], 8 + 4 * (buckets + count));
    if table.None? || !HashOk(table.value, buckets, count) then None else
    var sym := View(img, segs, d.tags[SYMTAB], count * 24);
    if sym.None? || !SymbolsOk(sym.value, count, strtab, d.GetOr0(STRSZ)) then None
    else Some(NamesOf(sym.value, count, strtab, d.GetOr0(STRSZ)))
  }

  // ---- everything else ----

  predicate AddressesOk(img: Bytes, segs: seq<Load>, d: Dyn, symbols: nat)
    requires Backed(img, segs)
  {
    && (VERSYM in d.tags ==> HASH in d.tags && View(img, segs, d.tags[VERSYM], symbols * 2).Some?)
    && (PLTGOT in d.tags ==> VaInSegment(segs, d.tags[PLTGOT], 1, false))
    && (INIT in d.tags ==> VaInSegment(segs, d.tags[INIT], 1, false))
    && (FINI in d.tags ==> VaInSegment(segs, d.tags[FINI], 1, false))
    && ArrayOk(img, segs, d.Get(INIT_ARRAY), d.Get(INIT_ARRAYSZ))
    && ArrayOk(img, segs, d.Get(FINI_ARRAY), d.Get(FINI_ARRAYSZ))
  }

  predicate ArrayOk(img: Bytes, segs: seq<Load>, address: Option<nat>, size: Option<nat>)
    requires Backed(img, segs)
  {
    match (address, size)
    case (None, None) => true
    case (Some(a), Some(n)) => n % 8 == 0 && n / 8 <= MAX_INIT_ARRAY && View(img, segs, a, n).Some?
    case _ => false
  }

  /** Entries of a relocation table; nothing if its description is incomplete or too long. */
  function TableCount(address: Option<nat>, size: Option<nat>, entry: Option<nat>): Option<nat> {
    if address.None? && size.None? && entry.None? then Some(0)
    else if address.None? || size.None? || entry.None? then None
    else if entry.value != 24 || size.value % 24 != 0 || size.value / 24 > MAX_RELA then None
    else Some(size.value / 24)
  }

  function BindNow(d: Dyn): bool { BIND_NOW in d.tags || d.GetOr0(FLAGS) / 8 % 2 == 1 || d.GetOr0(FLAGS_1) % 2 == 1 }

  predicate RelocOk(table: Bytes, i: nat, segs: seq<Load>, bindNow: bool, names: seq<Bytes>)
    requires 24 * i + 24 <= |table|
  {
    var off, info := Read(table, 24 * i, 8), Read(table, 24 * i + 8, 8);
    var kind, symbol := info % 0x1_0000_0000, info / 0x1_0000_0000;
    if kind == 0 then symbol == 0
    else if kind == 1027 then symbol == 0 && VaInSegment(segs, off, 8, false)
    else
      && (kind == 257 || ((kind == 1025 || kind == 1026) && bindNow))
      && 0 < symbol < |names| && names[symbol] != [] && VaInSegment(segs, off, 8, true)
  }

  predicate RelocsOk(img: Bytes, segs: seq<Load>, address: Option<nat>, count: nat, bindNow: bool, names: seq<Bytes>)
    requires Backed(img, segs) && (count > 0 ==> address.Some?)
  {
    count == 0 ||
      var table := View(img, segs, address.value, count * 24);
      table.Some? && forall i :: 0 <= i < count ==> RelocOk(table.value, i, segs, bindNow, names)
  }

  predicate TablesOk(img: Bytes, segs: seq<Load>, d: Dyn, names: seq<Bytes>)
    requires Backed(img, segs)
  {
    var rela := TableCount(d.Get(RELA), d.Get(RELASZ), d.Get(RELAENT));
    var plt := TableCount(d.Get(JMPREL), d.Get(PLTRELSZ), if PLTREL in d.tags then Some(24) else None);
    && rela.Some? && plt.Some? && rela.value + plt.value <= MAX_RELA && (PLTREL in d.tags ==> d.tags[PLTREL] == RELA)
    && RelocsOk(img, segs, d.Get(RELA), rela.value, BindNow(d), names)
    && RelocsOk(img, segs, d.Get(JMPREL), plt.value, BindNow(d), names)
  }

  /** Whether the dynamic section `dyn` of an image is accepted. */
  predicate Accepts(img: Bytes, segs: seq<Load>, dyn: Bytes)
    requires Backed(img, segs)
  {
    && |dyn| % 16 == 0 && |dyn| / 16 <= MAX_DYN_ENT
    && var d := Scan(dyn, 0, Dyn([], map[]));
       d.Some? && AcceptsTags(img, segs, d.value)
  }

  predicate AcceptsTags(img: Bytes, segs: seq<Load>, d: Dyn)
    requires Backed(img, segs)
  {
    && d.GetOr0(STRSZ) <= MAX_DYN_STR
    && var strtab := Strtab(img, segs, d);
       && strtab.Some? && StringsOk(d, strtab.value)
       && var names := Names(img, segs, d, strtab.value);
          names.Some? && AddressesOk(img, segs, d, |names.value|) && TablesOk(img, segs, d, names.value)
  }

  /** What acceptance guarantees a loader: every relocation of either table is of a known kind
      and writes inside a segment, a writable one if it needs a symbol, and that symbol has
      a name. */
  lemma AcceptedRelocations(img: Bytes, segs: seq<Load>, dyn: Bytes, va: nat, size: nat, i: nat)
    requires Backed(img, segs) && Accepts(img, segs, dyn)
    requires var d := Scan(dyn, 0, Dyn([], map[])).value;
             (d.Get(RELA) == Some(va) && d.Get(RELASZ) == Some(size))
               || (d.Get(JMPREL) == Some(va) && d.Get(PLTRELSZ) == Some(size))
    requires i < size / 24
    ensures View(img, segs, va, size).Some? && 24 * i + 24 <= size
    ensures var table := View(img, segs, va, size).value;
            var off, kind, symbol := Read(table, 24 * i, 8), Read(table, 24 * i + 8, 8) % 0x1_0000_0000,
              Read(table, 24 * i + 8, 8) / 0x1_0000_0000;
            && kind in {0, 257, 1025, 1026, 1027}
            && (kind == 1027 ==> VaInSegment(segs, off, 8, false))
            && (kind in {257, 1025, 1026} ==> VaInSegment(segs, off, 8, true) && symbol > 0)
            && (kind in {0, 1027} ==> symbol == 0)
  {
    hide Backed, View, VaInSegment, StringsOk, Scan, Strtab, Names, AddressesOk, Read;
    var d := Scan(dyn, 0, Dyn([], map[])).value;
    var names := Names(img, segs, d, Strtab(img, segs, d).value).value;
    var n := size / 24;
    assert size % 24 == 0 && n * 24 == size;
    var table := View(img, segs, va, size).value;
    assert RelocOk(table, i, segs, BindNow(d), names);
  }

  // ---- relayouts ----

  /** Another file that backs at least the same addresses with the same bytes, in segments
      of the same extent and permissions. */
  ghost predicate Extends(img: Bytes, segs: seq<Load>, img': Bytes, segs': seq<Load>)
    requires Backed(img, segs) && Backed(img', segs')
  {
    && (forall va: nat, n: nat :: View(img, segs, va, n).Some? ==> View(img', segs', va, n) == View(img, segs, va, n))
    && (forall va: nat, n: nat, w :: VaInSegment(segs', va, n, w) == VaInSegment(segs, va, n, w))
  }

  /** Acceptance looks only at addressed bytes, so it survives every such relayout. */
  lemma AcceptsAgain(img: Bytes, segs: seq<Load>, img': Bytes, segs': seq<Load>, dyn: Bytes)
    requires Backed(img, segs) && Backed(img', segs') && Extends(img, segs, img', segs') && Accepts(img, segs, dyn)
    ensures Accepts(img', segs', dyn)
  {
    hide Backed, Extends, View, VaInSegment, StringsOk, Scan, Strtab, Names, AddressesOk, TablesOk;
    var d := Scan(dyn, 0, Dyn([], map[])).value;
    StrtabAgain(img, segs, img', segs', d);
    var strtab := Strtab(img, segs, d).value;
    NamesAgain(img, segs, img', segs', d, strtab);
    var names := Names(img, segs, d, strtab).value;
    AddressesAgain(img, segs, img', segs', d, |names|);
    TablesAgain(img, segs, img', segs', d, names);
  }

  lemma StrtabAgain(img: Bytes, segs: seq<Load>, img': Bytes, segs': seq<Load>, d: Dyn)
    requires Backed(img, segs) && Backed(img', segs') && Extends(img, segs, img', segs') && Strtab(img, segs, d).Some?
    ensures Strtab(img', segs', d) == Strtab(img, segs, d)
  {
    hide Backed, View, VaInSegment;
  }

  lemma NamesAgain(img: Bytes, segs: seq<Load>, img': Bytes, segs': seq<Load>, d: Dyn, strtab: Bytes)
    requires Backed(img, segs) && Backed(img', segs') && Extends(img, segs, img', segs')
             && Names(img, segs, d, strtab).Some?
    ensures Names(img', segs', d, strtab) == Names(img, segs, d, strtab)
  {
    hide Backed, View, VaInSegment, HashOk, SymbolsOk, NamesOf, Word;
  }

  lemma AddressesAgain(img: Bytes, segs: seq<Load>, img': Bytes, segs': seq<Load>, d: Dyn, n: nat)
    requires Backed(img, segs) && Backed(img', segs') && Extends(img, segs, img', segs') && AddressesOk(img, segs, d, n)
    ensures AddressesOk(img', segs', d, n)
  {
    hide Backed, View, VaInSegment;
  }

  lemma TablesAgain(img: Bytes, segs: seq<Load>, img': Bytes, segs': seq<Load>, d: Dyn, names: seq<Bytes>)
    requires Backed(img, segs) && Backed(img', segs') && Extends(img, segs, img', segs')
             && TablesOk(img, segs, d, names)
    ensures TablesOk(img', segs', d, names)
  {
    hide Backed, View, VaInSegment, RelocsOk;
    var rela := TableCount(d.Get(RELA), d.Get(RELASZ), d.Get(RELAENT)).value;
    var plt := TableCount(d.Get(JMPREL), d.Get(PLTRELSZ), if PLTREL in d.tags then Some(24) else None).value;
    RelocsAgain(img, segs, img', segs', d.Get(RELA), rela, BindNow(d), names);
    RelocsAgain(img, segs, img', segs', d.Get(JMPREL), plt, BindNow(d), names);
  }

  lemma RelocsAgain(img: Bytes, segs: seq<Load>, img': Bytes, segs': seq<Load>, address: Option<nat>, n: nat,
                    bindNow: bool, names: seq<Bytes>)
    requires Backed(img, segs) && Backed(img', segs') && Extends(img, segs, img', segs') && (n > 0 ==> address.Some?)
    requires RelocsOk(img, segs, address, n, bindNow, names)
    ensures RelocsOk(img', segs', address, n, bindNow, names)
  {
    hide Backed, View, VaInSegment, RelocOk;
    if n > 0 {
      var table := View(img, segs, address.value, n * 24).value;
      forall i | 0 <= i < n ensures RelocOk(table, i, segs', bindNow, names) {
        RelocAgain(img, segs, img', segs', table, i, bindNow, names);
      }
    }
  }

  lemma RelocAgain(img: Bytes, segs: seq<Load>, img': Bytes, segs': seq<Load>, table: Bytes, i: nat, bindNow: bool,
                   names: seq<Bytes>)
    requires Backed(img, segs) && Backed(img', segs') && Extends(img, segs, img', segs')
    requires 24 * i + 24 <= |table| && RelocOk(table, i, segs, bindNow, names)
    ensures RelocOk(table, i, segs', bindNow, names)
  {
    hide Backed, View, VaInSegment;
  }
}
