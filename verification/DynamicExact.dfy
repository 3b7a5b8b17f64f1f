/** Which dynamic sections are accepted, said entry by entry and byte by byte, and that it is
    exactly those. Numbers are the tags and limits of the System V gABI, chapter 5, and of the
    repackager. */
module DynamicExact {
  import opened Options
  import opened Arithmetic
  import opened ByteStrings
  import opened Elf
  import opened Segments
  import opened Dynamic

  // ---- entries ----

  function Tag(dyn: Bytes, k: nat): nat
    requires 16 * k + 16 <= |dyn|
  {
    Read(dyn, 16 * k, 8)
  }

  function Value(dyn: Bytes, k: nat): nat
    requires 16 * k + 16 <= |dyn|
  {
    Read(dyn, 16 * k + 8, 8)
  }

  /** Needed libraries and the tags that are skipped may repeat. */
  predicate Repeats(tag: nat) {
    tag in {1, 29, 34, 0x6FFFFFF9, 0x6FFFFFFC, 0x6FFFFFFD, 0x6FFFFFFE, 0x6FFFFFFF}
  }

  predicate Known(tag: nat) {
    2 <= tag <= 14 || 20 <= tag <= 21 || 23 <= tag <= 28 || tag in {30, 0x6FFFFFF0, 0x6FFFFFFB}
  }

  /** The n entries before the first null one have known tags, those that matter once each, and
      do not ask for text relocations. */
  ghost predicate Entries(dyn: Bytes, n: nat) {
    && 16 * n + 16 <= |dyn| && Tag(dyn, n) == 0
    && (forall k :: 0 <= k < n ==> Repeats(Tag(dyn, k)) || Known(Tag(dyn, k)))
    && (forall j, k :: 0 <= j < k < n && Tag(dyn, j) == Tag(dyn, k) ==> Repeats(Tag(dyn, k)))
    && (forall k :: 0 <= k < n && Tag(dyn, k) == 30 ==> Value(dyn, k) / 4 % 2 == 0)
  }

  /** The value of a tag among the first n entries. */
  function Lookup(dyn: Bytes, n: nat, tag: nat): Option<nat>
    requires 16 * n <= |dyn|
  {
    if n == 0 then None else if Tag(dyn, n - 1) == tag then Some(Value(dyn, n - 1)) else Lookup(dyn, n - 1, tag)
  }

  function OrZero(v: Option<nat>): nat { if v.Some? then v.value else 0 }

  /** The values of every needed-library entry, in order. */
  function NeededOf(dyn: Bytes, n: nat): seq<nat>
    requires 16 * n <= |dyn|
  {
    if n == 0 then [] else NeededOf(dyn, n - 1) + if Tag(dyn, n - 1) == 1 then [Value(dyn, n - 1)] else []
  }

  // ---- names ----

  /** The name at an offset of a string table: printable, ended by a zero byte, bounded. */
  ghost predicate NameAt(strtab: Bytes, off: nat, limit: nat, name: Bytes) {
    && off + |name| < |strtab| && strtab[off..off + |name|] == name && strtab[off + |name|] == 0
    && |name| <= limit && forall c :: c in name ==> 32 <= c <= 126
  }

  /** A string table of the stated size; none only if nothing names a string. */
  ghost predicate StringTable(img: Bytes, segs: seq<Load>, dyn: Bytes, n: nat, strtab: Bytes)
    requires Backed(img, segs) && 16 * n <= |dyn|
  {
    var size := OrZero(Lookup(dyn, n, 10));
    && size <= 65536
    && match Lookup(dyn, n, 5)
       case Some(va) => View(img, segs, va, size) == Some(strtab)
       case None =>
         && size == 0 && strtab == [] && NeededOf(dyn, n) == []
         && Lookup(dyn, n, 14) == Lookup(dyn, n, 4) == Lookup(dyn, n, 6) == None
  }

  /** At most 16 needed libraries, each a plain file name; a shared-object name that is not empty. */
  ghost predicate LibraryNames(dyn: Bytes, n: nat, strtab: Bytes)
    requires 16 * n <= |dyn|
  {
    && |NeededOf(dyn, n)| <= 16
    && (forall off :: off in NeededOf(dyn, n) ==>
        exists name :: NameAt(strtab, off, 128, name) && name != [] && 47 !in name)
    && (Lookup(dyn, n, 14).Some? ==> exists name :: NameAt(strtab, Lookup(dyn, n, 14).value, 256, name) && name != [])
  }

  // ---- symbols ----

  /** Hash table and symbol table come together; entries are 24 bytes; every index the hash table
      holds is a symbol; every symbol has a name and none is thread-local. */
  ghost predicate SymbolNames(img: Bytes, segs: seq<Load>, dyn: Bytes, n: nat, strtab: Bytes, names: seq<Bytes>)
    requires Backed(img, segs) && 16 * n <= |dyn|
  {
    match Lookup(dyn, n, 4)
    case None => names == [] && Lookup(dyn, n, 6) == Lookup(dyn, n, 11) == None
    case Some(hash) =>
      && Lookup(dyn, n, 6).Some? && Lookup(dyn, n, 11) in {None, Some(24)}
      && View(img, segs, hash, 8).Some?
      && var head := View(img, segs, hash, 8).value; var buckets, count := Read(head, 0, 4), Read(head, 4, 4);
      && 1 <= buckets <= 4096 && 1 <= count <= 16384 && |names| == count
      && HashTable(View(img, segs, hash, 8 + 4 * (buckets + count)), buckets + count, count)
      && SymbolTable(View(img, segs, Lookup(dyn, n, 6).value, 24 * count), strtab, names)
  }

  ghost predicate HashTable(table: Option<Bytes>, entries: nat, count: nat) {
    && table.Some? && |table.value| == 8 + 4 * entries
    && forall i :: 0 <= i < entries ==> Read(table.value, 8 + 4 * i, 4) < count
  }

  ghost predicate SymbolTable(sym: Option<Bytes>, strtab: Bytes, names: seq<Bytes>) {
    && sym.Some? && |sym.value| == 24 * |names|
    && forall i :: 0 <= i < |names| ==>
         sym.value[24 * i + 4] % 16 != 6 && NameAt(strtab, Read(sym.value, 24 * i, 4), 256, names[i])
  }

  // ---- addresses ----

  ghost predicate Array(img: Bytes, segs: seq<Load>, address: Option<nat>, size: Option<nat>)
    requires Backed(img, segs)
  {
    && (address.Some? <==> size.Some?)
    && (size.Some? ==> size.value <= 512 && size.value % 8 == 0 && View(img, segs, address.value, size.value).Some?)
  }

  /** The version table covers the symbols; every other address named is inside a segment. */
  ghost predicate Addresses(img: Bytes, segs: seq<Load>, dyn: Bytes, n: nat, symbols: nat)
    requires Backed(img, segs) && 16 * n <= |dyn|
  {
    && (Lookup(dyn, n, 0x6FFFFFF0).Some? ==>
          Lookup(dyn, n, 4).Some? && View(img, segs, Lookup(dyn, n, 0x6FFFFFF0).value, 2 * symbols).Some?)
    && (forall tag :: tag in {3, 12, 13} && Lookup(dyn, n, tag).Some? ==>
          VaInSegment(segs, Lookup(dyn, n, tag).value, 1, false))
    && Array(img, segs, Lookup(dyn, n, 25), Lookup(dyn, n, 27))
    && Array(img, segs, Lookup(dyn, n, 26), Lookup(dyn, n, 28))
  }

  // ---- relocations ----

  ghost predicate BindsNow(dyn: Bytes, n: nat)
    requires 16 * n <= |dyn|
  {
    || Lookup(dyn, n, 24).Some? || OrZero(Lookup(dyn, n, 30)) / 8 % 2 == 1
    || OrZero(Lookup(dyn, n, 0x6FFFFFFB)) % 2 == 1
  }

  /** One 24-byte relocation: none and relative ones name no symbol, the others a named one; what
      is written is 8 bytes of a segment, writable ones for a symbol's address; slots of symbols
      are only filled when the program binds at start. */
  ghost predicate Relocation(table: Bytes, p: nat, segs: seq<Load>, bindsNow: bool, names: seq<Bytes>)
    requires p + 24 <= |table|
  {
    var target, kind, symbol := Read(table, p, 8), Read(table, p + 8, 4), Read(table, p + 12, 4);
    && kind in {0, 257, 1025, 1026, 1027}
    && (kind in {0, 1027} ==> symbol == 0)
    && (kind == 1027 ==> VaInSegment(segs, target, 8, false))
    && (kind in {257, 1025, 1026} ==>
          1 <= symbol < |names| && names[symbol] != [] && VaInSegment(segs, target, 8, true))
    && (kind in {1025, 1026} ==> bindsNow)
  }

  ghost predicate Relocations(img: Bytes, segs: seq<Load>, address: Option<nat>, size: nat, bindsNow: bool,
                              names: seq<Bytes>)
    requires Backed(img, segs) && (size > 0 ==> address.Some?)
  {
    && size % 24 == 0
    && (size > 0 ==>
          && View(img, segs, address.value, size).Some?
          && forall i :: 0 <= i < size / 24 ==>
               Relocation(View(img, segs, address.value, size).value, 24 * i, segs, bindsNow, names))
  }

  /** Both relocation tables are fully described or absent, together at most 32768 entries of 24
      bytes with addends. */
  ghost predicate RelocationTables(img: Bytes, segs: seq<Load>, dyn: Bytes, n: nat, names: seq<Bytes>)
    requires Backed(img, segs) && 16 * n <= |dyn|
  {
    && (Lookup(dyn, n, 7).Some? <==> Lookup(dyn, n, 8).Some?) && (Lookup(dyn, n, 7).Some? <==> Lookup(dyn, n, 9).Some?)
    && (Lookup(dyn, n, 23).Some? <==> Lookup(dyn, n, 2).Some?)
    && (Lookup(dyn, n, 23).Some? <==> Lookup(dyn, n, 20).Some?)
    && Lookup(dyn, n, 9) in {None, Some(24)} && Lookup(dyn, n, 20) in {None, Some(7)}
    && OrZero(Lookup(dyn, n, 8)) + OrZero(Lookup(dyn, n, 2)) <= 24 * 32768
    && Relocations(img, segs, Lookup(dyn, n, 7), OrZero(Lookup(dyn, n, 8)), BindsNow(dyn, n), names)
    && Relocations(img, segs, Lookup(dyn, n, 23), OrZero(Lookup(dyn, n, 2)), BindsNow(dyn, n), names)
  }

  // ---- the section ----

  ghost predicate Described(img: Bytes, segs: seq<Load>, dyn: Bytes, n: nat, strtab: Bytes, names: seq<Bytes>)
    requires Backed(img, segs)
  {
    && |dyn| % 16 == 0 && |dyn| <= 1024 && Entries(dyn, n)
    && StringTable(img, segs, dyn, n, strtab) && LibraryNames(dyn, n, strtab)
    && SymbolNames(img, segs, dyn, n, strtab, names) && Addresses(img, segs, dyn, n, |names|)
    && RelocationTables(img, segs, dyn, n, names)
  }

  ghost predicate Sound(img: Bytes, segs: seq<Load>, dyn: Bytes)
    requires Backed(img, segs)
  {
    exists n, strtab, names :: Described(img, segs, dyn, n, strtab, names)
  }

  // ---- entries: the scan ----

  /** What the scan has gathered from the first i entries. */
  ghost predicate Gathered(dyn: Bytes, i: nat, d: Dyn)
    requires 16 * i <= |dyn|
  {
    && d.needed == NeededOf(dyn, i)
    && (forall tag :: Known(tag) ==> d.Get(tag) == Lookup(dyn, i, tag))
    && (forall tag :: tag in d.tags ==> Known(tag))
  }

  /** The entries so far are acceptable. */
  ghost predicate Good(dyn: Bytes, i: nat)
    requires 16 * i <= |dyn|
  {
    && (forall k :: 0 <= k < i ==> Repeats(Tag(dyn, k)) || Known(Tag(dyn, k)))
    && (forall j, k :: 0 <= j < k < i && Tag(dyn, j) == Tag(dyn, k) ==> Repeats(Tag(dyn, k)))
    && (forall k :: 0 <= k < i && Tag(dyn, k) == 30 ==> Value(dyn, k) / 4 % 2 == 0)
  }

  lemma {:induction false} LookupFound(dyn: Bytes, i: nat, tag: nat)
    requires 16 * i <= |dyn|
    ensures Lookup(dyn, i, tag).Some? ==> exists k :: 0 <= k < i && Tag(dyn, k) == tag
    ensures forall k :: 0 <= k < i && Tag(dyn, k) == tag ==> Lookup(dyn, i, tag).Some?
  {
    hide Tag, Value;
    if i > 0 {
      LookupFound(dyn, i - 1, tag);
      if Tag(dyn, i - 1) == tag { assert Lookup(dyn, i, tag).Some?; }
    }
  }

  lemma TagKinds(tag: nat)
    ensures Known(tag) <==> tag in SUPPORTED
    ensures Repeats(tag) <==> tag == 1 || tag in SKIPPED
    ensures !(Known(tag) && Repeats(tag)) && !Known(0) && !Repeats(0)
  {}

  /** One more entry: what the scan would have after it. */
  function Next(d: Dyn, tag: nat, value: nat): Dyn {
    if tag == 1 then d.(needed := d.needed + [value]) else if Repeats(tag) then d else d.(tags := d.tags[tag := value])
  }

  lemma GatheredNext(dyn: Bytes, i: nat, d: Dyn)
    requires 16 * i + 16 <= |dyn| && Gathered(dyn, i, d) && (Repeats(Tag(dyn, i)) || Known(Tag(dyn, i)))
    ensures Gathered(dyn, i + 1, Next(d, Tag(dyn, i), Value(dyn, i)))
  {
    hide Tag, Value, Lookup, NeededOf;
    var t, e := Tag(dyn, i), Next(d, Tag(dyn, i), Value(dyn, i));
    TagKinds(t);
    assert NeededOf(dyn, i + 1) == NeededOf(dyn, i) + if t == 1 then [Value(dyn, i)] else [] by { Unfolded(dyn, i, 0); }
    forall tag | Known(tag) ensures e.Get(tag) == Lookup(dyn, i + 1, tag) {
      TagKinds(tag);
      Unfolded(dyn, i, tag);
    }
  }

  lemma Unfolded(dyn: Bytes, i: nat, tag: nat)
    requires 16 * i + 16 <= |dyn|
    ensures Lookup(dyn, i + 1, tag) == if Tag(dyn, i) == tag then Some(Value(dyn, i)) else Lookup(dyn, i, tag)
    ensures NeededOf(dyn, i + 1) == NeededOf(dyn, i) + if Tag(dyn, i) == 1 then [Value(dyn, i)] else []
  {}

  /** The scan goes on over an entry exactly when it keeps the entries so far acceptable. */
  lemma GoodNext(dyn: Bytes, i: nat, d: Dyn)
    requires 16 * i + 16 <= |dyn| && Good(dyn, i) && Gathered(dyn, i, d)
    ensures var t := Tag(dyn, i);
            Good(dyn, i + 1) <==> Repeats(t) || (Known(t) && t !in d.tags && (t == 30 ==> Value(dyn, i) / 4 % 2 == 0))
  {
    hide Tag, Value, Lookup, NeededOf;
    var t := Tag(dyn, i);
    TagKinds(t);
    LookupFound(dyn, i, t);
    if Known(t) { assert d.Get(t) == Lookup(dyn, i, t); }
  }

  lemma ScanStep(dyn: Bytes, i: nat, d: Dyn)
    requires 16 * i + 16 <= |dyn| && Tag(dyn, i) != 0
    ensures var t := Tag(dyn, i);
            Scan(dyn, i, d) ==
              if Repeats(t) || (Known(t) && t !in d.tags && (t == 30 ==> Value(dyn, i) / 4 % 2 == 0))
              then Scan(dyn, i + 1, Next(d, t, Value(dyn, i))) else None
  {
    hide Read;
    TagKinds(Tag(dyn, i));
  }

  lemma {:induction false} ScanSound(dyn: Bytes, i: nat, d: Dyn) returns (n: nat)
    requires 16 * i <= |dyn| && Good(dyn, i) && Gathered(dyn, i, d) && Scan(dyn, i, d).Some?
    ensures Entries(dyn, n) && Gathered(dyn, n, Scan(dyn, i, d).value)
    decreases |dyn| - 16 * i
  {
    hide Good, Gathered, Next;
    if 16 * i + 16 <= |dyn| && Tag(dyn, i) != 0 {
      ScanStep(dyn, i, d);
      GoodNext(dyn, i, d);
      GoodKnown(dyn, i);
      hide Scan, Tag, Value;
      GatheredNext(dyn, i, d);
      n := ScanSound(dyn, i + 1, Next(d, Tag(dyn, i), Value(dyn, i)));
    } else {
      n := i;
      GoodEnd(dyn, i);
    }
  }

  lemma GoodKnown(dyn: Bytes, i: nat)
    requires 16 * i + 16 <= |dyn|
    ensures Good(dyn, i + 1) ==> Repeats(Tag(dyn, i)) || Known(Tag(dyn, i))
  {
    hide Tag, Value;
  }

  lemma GoodEnd(dyn: Bytes, i: nat)
    requires 16 * i <= |dyn|
    ensures 16 * i + 16 <= |dyn| && Tag(dyn, i) == 0 && Good(dyn, i) <==> Entries(dyn, i)
    ensures forall j :: 0 <= j <= i && Good(dyn, i) ==> Good(dyn, j)
    ensures Good(dyn, i) ==> forall j :: 0 <= j < i ==> Tag(dyn, j) != 0
  {
    hide Tag, Value;
  }

  lemma {:induction false} ScanComplete(dyn: Bytes, i: nat, d: Dyn, n: nat)
    requires 16 * i <= |dyn| && Good(dyn, i) && Gathered(dyn, i, d) && i <= n && Entries(dyn, n)
    ensures Scan(dyn, i, d).Some? && Gathered(dyn, n, Scan(dyn, i, d).value)
    decreases n - i
  {
    hide Good, Gathered, Next;
    GoodEnd(dyn, n);
    if i < n {
      ScanStep(dyn, i, d);
      GoodNext(dyn, i, d);
      GoodKnown(dyn, i);
      hide Scan, Tag, Value;
      GatheredNext(dyn, i, d);
      ScanComplete(dyn, i + 1, Next(d, Tag(dyn, i), Value(dyn, i)), n);
    }
  }

  /** The scan accepts exactly the acceptable entries, and looks every tag up. */
  lemma ScanExact(dyn: Bytes) returns (n: nat)
    ensures var d := Scan(dyn, 0, Dyn([], map[]));
            d.Some? ==> Entries(dyn, n) && Gathered(dyn, n, d.value)
    ensures forall m :: Entries(dyn, m) ==>
              var d := Scan(dyn, 0, Dyn([], map[])); d.Some? && Gathered(dyn, m, d.value)
  {
    hide Scan;
    var d := Dyn([], map[]);
    assert Good(dyn, 0) && Gathered(dyn, 0, d);
    n := 0;
    if Scan(dyn, 0, d).Some? { n := ScanSound(dyn, 0, d); }
    forall m | Entries(dyn, m) ensures Scan(dyn, 0, d).Some? && Gathered(dyn, m, Scan(dyn, 0, d).value) {
      ScanComplete(dyn, 0, d, m);
    }
  }

  // ---- names ----

  lemma {:induction false} FirstNul(s: Bytes, off: nat, end: nat)
    requires off <= end < |s| && s[end] == 0 && forall i :: off <= i < end ==> s[i] != 0
    ensures FindNul(s, off) == Some(end)
    decreases end - off
  {
    if off < end { FirstNul(s, off + 1, end); }
  }

  lemma {:induction false} NulIsFirst(s: Bytes, off: nat)
    requires FindNul(s, off).Some?
    ensures off <= FindNul(s, off).value < |s| && s[FindNul(s, off).value] == 0
    decreases |s| - off
  {
    if s[off] != 0 { NulIsFirst(s, off + 1); }
  }

  /** A name resolves exactly when it stands there. */
  lemma ResolveExact(strtab: Bytes, off: nat, limit: nat)
    ensures var r := Resolve(strtab, |strtab|, off, limit); r.Some? ==> NameAt(strtab, off, limit, r.value)
    ensures forall name :: NameAt(strtab, off, limit, name) ==> Resolve(strtab, |strtab|, off, limit) == Some(name)
  {
    if off < |strtab| && FindNul(strtab, off).Some? { NulIsFirst(strtab, off); }
    forall name | NameAt(strtab, off, limit, name) ensures Resolve(strtab, |strtab|, off, limit) == Some(name) {
      forall i | off <= i < off + |name| ensures strtab[i] != 0 {
        assert strtab[i] == name[i - off];
        assert name[i - off] in name;
      }
      FirstNul(strtab, off, off + |name|);
      forall i | 0 <= i < |name| ensures 32 <= name[i] <= 126 { assert name[i] in name; }
    }
  }

  lemma StrtabExact(img: Bytes, segs: seq<Load>, dyn: Bytes, n: nat, d: Dyn)
    requires Backed(img, segs) && 16 * n <= |dyn| && Gathered(dyn, n, d)
    ensures var s := Strtab(img, segs, d);
            d.GetOr0(STRSZ) <= MAX_DYN_STR && s.Some? ==> StringTable(img, segs, dyn, n, s.value)
    ensures forall s :: StringTable(img, segs, dyn, n, s) ==>
              Strtab(img, segs, d) == Some(s) && d.GetOr0(STRSZ) == |s| <= MAX_DYN_STR
  {
    hide View, Backed, Lookup, NeededOf;
    Looked(dyn, n, d);
  }

  /** The tags the string table and the symbols depend on, as looked up. */
  lemma Looked(dyn: Bytes, n: nat, d: Dyn)
    requires 16 * n <= |dyn| && Gathered(dyn, n, d)
    ensures forall tag :: Known(tag) ==>
              d.Get(tag) == Lookup(dyn, n, tag) && d.GetOr0(tag) == OrZero(Lookup(dyn, n, tag))
              && (tag in d.tags <==> Lookup(dyn, n, tag).Some?)
    ensures forall tag :: Known(tag) && tag in d.tags ==> d.tags[tag] == Lookup(dyn, n, tag).value
    ensures Known(STRTAB) && Known(STRSZ) && Known(SONAME) && Known(HASH) && Known(SYMTAB) && Known(SYMENT)
  {
    hide Lookup, NeededOf;
    forall tag | Known(tag)
      ensures d.Get(tag) == Lookup(dyn, n, tag) && d.GetOr0(tag) == OrZero(Lookup(dyn, n, tag))
              && (tag in d.tags <==> Lookup(dyn, n, tag).Some?)
    {
      assert d.Get(tag) == Lookup(dyn, n, tag);
    }
  }

  lemma StringsExact(dyn: Bytes, n: nat, d: Dyn, strtab: Bytes)
    requires 16 * n <= |dyn| && Gathered(dyn, n, d) && |strtab| == d.GetOr0(STRSZ) <= MAX_DYN_STR
    ensures StringsOk(d, strtab) <==> LibraryNames(dyn, n, strtab)
  {
    hide Lookup, NeededOf, Resolve, NameAt;
    Looked(dyn, n, d);
    forall off: nat, limit: nat
      ensures var r := Resolve(strtab, |strtab|, off, limit); r.Some? ==> NameAt(strtab, off, limit, r.value)
      ensures forall name :: NameAt(strtab, off, limit, name) ==> Resolve(strtab, |strtab|, off, limit) == Some(name)
    {
      ResolveExact(strtab, off, limit);
    }
  }

  // ---- symbols ----

  lemma HashExact(table: Bytes, buckets: nat, count: nat)
    requires |table| == 8 + 4 * (buckets + count) && count > 0
    ensures HashOk(table, buckets, count) <==> HashTable(Some(table), buckets + count, count)
  {
    hide Read;
    if HashOk(table, buckets, count) {
      forall i | 0 <= i < buckets + count ensures Read(table, 8 + 4 * i, 4) < count {
        assert Word(table, i + 2) == Read(table, 8 + 4 * i, 4);
      }
    }
    if HashTable(Some(table), buckets + count, count) {
      forall i | 2 <= i < 2 + buckets + count ensures Word(table, i) < count {
        assert Read(table, 8 + 4 * (i - 2), 4) < count;
      }
    }
  }

  lemma SymbolsExact(sym: Bytes, count: nat, strtab: Bytes)
    requires |sym| == 24 * count
    ensures SymbolsOk(sym, count, strtab, |strtab|) ==>
              SymbolTable(Some(sym), strtab, NamesOf(sym, count, strtab, |strtab|))
    ensures forall names :: |names| == count && SymbolTable(Some(sym), strtab, names) ==>
              SymbolsOk(sym, count, strtab, |strtab|) && NamesOf(sym, count, strtab, |strtab|) == names
  {
    hide Read, Resolve, NameAt;
    if SymbolsOk(sym, count, strtab, |strtab|) {
      var names := NamesOf(sym, count, strtab, |strtab|);
      forall i | 0 <= i < count
        ensures sym[24 * i + 4] % 16 != 6 && NameAt(strtab, Read(sym, 24 * i, 4), 256, names[i])
      {
        assert Symbol(sym, i, strtab, |strtab|).Some?;
        ResolveExact(strtab, Read(sym, 24 * i, 4), 256);
      }
    }
    forall names | |names| == count && SymbolTable(Some(sym), strtab, names)
      ensures SymbolsOk(sym, count, strtab, |strtab|) && NamesOf(sym, count, strtab, |strtab|) == names
    {
      forall i | 0 <= i < count ensures Symbol(sym, i, strtab, |strtab|) == Some(names[i]) {
        ResolveExact(strtab, Read(sym, 24 * i, 4), 256);
      }
    }
  }

  lemma NamesExact(img: Bytes, segs: seq<Load>, dyn: Bytes, n: nat, d: Dyn, strtab: Bytes)
    requires Backed(img, segs) && 16 * n <= |dyn| && Gathered(dyn, n, d) && |strtab| == d.GetOr0(STRSZ)
    ensures var r := Names(img, segs, d, strtab); r.Some? ==> SymbolNames(img, segs, dyn, n, strtab, r.value)
    ensures forall names :: SymbolNames(img, segs, dyn, n, strtab, names) ==>
              Names(img, segs, d, strtab) == Some(names)
  {
    hide View, Backed, Lookup, NeededOf, NamesFrom, HashTable, SymbolTable;
    Looked(dyn, n, d);
    if HASH in d.tags && SYMTAB in d.tags && View(img, segs, d.tags[HASH], 8).Some? {
      NamesFromExact(img, segs, d, strtab, View(img, segs, d.tags[HASH], 8).value);
    }
  }

  /** The part behind the first two words of the hash table. */
  ghost predicate TableNames(img: Bytes, segs: seq<Load>, hash: nat, symtab: nat, head: Bytes, strtab: Bytes,
                             names: seq<Bytes>)
    requires Backed(img, segs) && |head| == 8
  {
    var buckets, count := Read(head, 0, 4), Read(head, 4, 4);
    && 1 <= buckets <= 4096 && 1 <= count <= 16384 && |names| == count
    && HashTable(View(img, segs, hash, 8 + 4 * (buckets + count)), buckets + count, count)
    && SymbolTable(View(img, segs, symtab, 24 * count), strtab, names)
  }

  lemma NamesFromExact(img: Bytes, segs: seq<Load>, d: Dyn, strtab: Bytes, head: Bytes)
    requires Backed(img, segs) && HASH in d.tags && SYMTAB in d.tags && |head| == 8 && |strtab| == d.GetOr0(STRSZ)
    ensures var r := NamesFrom(img, segs, d, strtab, head);
            r.Some? ==> TableNames(img, segs, d.tags[HASH], d.tags[SYMTAB], head, strtab, r.value)
    ensures forall names :: TableNames(img, segs, d.tags[HASH], d.tags[SYMTAB], head, strtab, names) ==>
              NamesFrom(img, segs, d, strtab, head) == Some(names)
  {
    hide View, Backed, HashOk, SymbolsOk, Read, HashTable, SymbolTable;
    var buckets, count := Word(head, 0), Word(head, 1);
    if 1 <= buckets <= 4096 && 1 <= count <= 16384 {
      var table := View(img, segs, d.tags[HASH], 8 + 4 * (buckets + count));
      var sym := View(img, segs, d.tags[SYMTAB], 24 * count);
      if table.Some? { HashExact(table.value, buckets, count); } else { NoHash(buckets + count, count); }
      if sym.Some? { SymbolsExact(sym.value, count, strtab); } else { NoSymbols(strtab); }
    }
  }

  lemma NoHash(entries: nat, count: nat)
    ensures !HashTable(None, entries, count)
  {}

  lemma NoSymbols(strtab: Bytes)
    ensures forall names :: !SymbolTable(None, strtab, names)
  {}

  // ---- addresses ----

  lemma AddressesExact(img: Bytes, segs: seq<Load>, dyn: Bytes, n: nat, d: Dyn, symbols: nat)
    requires Backed(img, segs) && 16 * n <= |dyn| && Gathered(dyn, n, d)
    ensures AddressesOk(img, segs, d, symbols) <==> Addresses(img, segs, dyn, n, symbols)
  {
    hide View, Backed, VaInSegment, Lookup, NeededOf, ArrayOk, Array;
    Looked(dyn, n, d);
    MoreKnown();
    ArrayExact(img, segs, d.Get(INIT_ARRAY), d.Get(INIT_ARRAYSZ));
    ArrayExact(img, segs, d.Get(FINI_ARRAY), d.Get(FINI_ARRAYSZ));
  }

  lemma MoreKnown()
    ensures Known(VERSYM) && Known(PLTGOT) && Known(INIT) && Known(FINI) && Known(INIT_ARRAY) && Known(INIT_ARRAYSZ)
            && Known(FINI_ARRAY) && Known(FINI_ARRAYSZ) && Known(RELA) && Known(RELASZ) && Known(RELAENT)
            && Known(JMPREL) && Known(PLTRELSZ) && Known(PLTREL) && Known(BIND_NOW) && Known(FLAGS) && Known(FLAGS_1)
  {}

  lemma ArrayExact(img: Bytes, segs: seq<Load>, address: Option<nat>, size: Option<nat>)
    requires Backed(img, segs)
    ensures ArrayOk(img, segs, address, size) <==> Array(img, segs, address, size)
  {
    hide View, Backed;
  }

  // ---- relocations ----

  /** The low and the high half of a 64-bit word. */
  lemma Halves(b: Bytes, p: nat)
    requires p + 8 <= |b|
    ensures Read(b, p, 8) % 0x1_0000_0000 == Read(b, p, 4) && Read(b, p, 8) / 0x1_0000_0000 == Read(b, p + 4, 4)
  {
    hide Read;
    ReadParts(b, p, 4, 4);
    Widths();
    DivMod(Read(b, p + 4, 4), 0x1_0000_0000, Read(b, p, 4));
  }

  lemma {:induction false} ReadParts(b: Bytes, p: nat, j: nat, k: nat)
    requires p + j + k <= |b|
    ensures Read(b, p, j + k) == Read(b, p, j) + Pow256(j) * Read(b, p + j, k)
    decreases j
  {
    if j > 0 {
      ReadParts(b, p + 1, j - 1, k);
      FirstByte(b, p, j);
      FirstByte(b, p, j + k);
      hide Read;
      Shifted(b[p], Read(b, p + 1, j - 1), Pow256(j - 1), Read(b, p + j, k));
    }
  }

  lemma FirstByte(b: Bytes, p: nat, k: nat)
    requires 0 < k && p + k <= |b|
    ensures Read(b, p, k) == b[p] + 256 * Read(b, p + 1, k - 1)
  {}

  lemma Shifted(low: int, x: int, y: int, z: int)
    ensures low + 256 * (x + y * z) == low + 256 * x + (256 * y) * z
  {}

  lemma RelocationExact(table: Bytes, i: nat, segs: seq<Load>, bindsNow: bool, names: seq<Bytes>)
    requires 24 * i + 24 <= |table|
    ensures RelocOk(table, i, segs, bindsNow, names) <==> Relocation(table, 24 * i, segs, bindsNow, names)
  {
    hide Read, VaInSegment;
    Halves(table, 24 * i + 8);
  }

  lemma RelocationsExact(img: Bytes, segs: seq<Load>, address: Option<nat>, count: nat, bindsNow: bool,
                         names: seq<Bytes>)
    requires Backed(img, segs) && (count > 0 ==> address.Some?)
    ensures RelocsOk(img, segs, address, count, bindsNow, names)
            <==> Relocations(img, segs, address, 24 * count, bindsNow, names)
  {
    hide View, Backed, RelocOk, Relocation;
    DivMod(count, 24, 0);
    if count > 0 && View(img, segs, address.value, 24 * count).Some? {
      var table := View(img, segs, address.value, 24 * count).value;
      forall i | 0 <= i < count
        ensures RelocOk(table, i, segs, bindsNow, names) <==> Relocation(table, 24 * i, segs, bindsNow, names)
      {
        RelocationExact(table, i, segs, bindsNow, names);
      }
    }
  }

  /** What a complete table description amounts to. */
  lemma CountExact(address: Option<nat>, size: Option<nat>, entry: Option<nat>)
    ensures TableCount(address, size, entry).Some? <==>
              && (address.Some? <==> size.Some?) && (address.Some? <==> entry.Some?) && entry in {None, Some(24)}
              && OrZero(size) % 24 == 0 && OrZero(size) <= 24 * 32768
    ensures TableCount(address, size, entry).Some? ==> 24 * TableCount(address, size, entry).value == OrZero(size)
  {}

  lemma TablesExact(img: Bytes, segs: seq<Load>, dyn: Bytes, n: nat, d: Dyn, names: seq<Bytes>)
    requires Backed(img, segs) && 16 * n <= |dyn| && Gathered(dyn, n, d)
    ensures TablesOk(img, segs, d, names) <==> RelocationTables(img, segs, dyn, n, names)
  {
    hide View, Backed, Lookup, NeededOf, RelocsOk, Relocation, TableCount, Gathered;
    Looked(dyn, n, d);
    MoreKnown();
    var rela := TableCount(d.Get(RELA), d.Get(RELASZ), d.Get(RELAENT));
    var plt := TableCount(d.Get(JMPREL), d.Get(PLTRELSZ), if PLTREL in d.tags then Some(24) else None);
    CountExact(d.Get(RELA), d.Get(RELASZ), d.Get(RELAENT));
    CountExact(d.Get(JMPREL), d.Get(PLTRELSZ), if PLTREL in d.tags then Some(24) else None);
    if rela.Some? && plt.Some? {
      RelocationsExact(img, segs, d.Get(RELA), rela.value, BindNow(d), names);
      RelocationsExact(img, segs, d.Get(JMPREL), plt.value, BindNow(d), names);
    }
  }

  // ---- the whole section ----

  /** A dynamic section is accepted exactly when it is described as above. */
  lemma AcceptsExactly(img: Bytes, segs: seq<Load>, dyn: Bytes)
    requires Backed(img, segs)
    ensures Accepts(img, segs, dyn) <==> Sound(img, segs, dyn)
  {
    hide View, Backed, Strtab, StringsOk, Names, AddressesOk, TablesOk, Scan, Gathered, Entries, StringTable,
      LibraryNames, SymbolNames, Addresses, RelocationTables;
    var m := ScanExact(dyn);
    if Accepts(img, segs, dyn) {
      EntriesFit(dyn, m);
      var d := Scan(dyn, 0, Dyn([], map[])).value;
      StrtabExact(img, segs, dyn, m, d);
      var strtab := Strtab(img, segs, d).value;
      StringsExact(dyn, m, d, strtab);
      NamesExact(img, segs, dyn, m, d, strtab);
      var names := Names(img, segs, d, strtab).value;
      AddressesExact(img, segs, dyn, m, d, |names|);
      TablesExact(img, segs, dyn, m, d, names);
      assert Described(img, segs, dyn, m, strtab, names);
    }
    if n, strtab, names :| Described(img, segs, dyn, n, strtab, names) {
      EntriesFit(dyn, n);
      var d := Scan(dyn, 0, Dyn([], map[])).value;
      StrtabExact(img, segs, dyn, n, d);
      StringsExact(dyn, n, d, strtab);
      NamesExact(img, segs, dyn, n, d, strtab);
      AddressesExact(img, segs, dyn, n, d, |names|);
      TablesExact(img, segs, dyn, n, d, names);
    }
  }

  lemma EntriesFit(dyn: Bytes, n: nat)
    requires Entries(dyn, n)
    ensures 16 * n <= |dyn|
  {}
}
