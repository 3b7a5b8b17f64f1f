/** Loadable segments: their order, their page layout and what they put into memory. */
module Segments {
  import opened Options
  import opened ByteStrings
  import opened Elf

  const PAGE := 4096
  const STACK_PAGE := 0x3FFFD000

  datatype Load = Load(vaddr: nat, poff: nat, filesz: nat, memsz: nat, flags: nat)

  /** Every segment's file bytes are inside the file. */
  ghost predicate Backed(img: Bytes, segs: seq<Load>) {
    forall i :: 0 <= i < |segs| ==> segs[i].filesz <= segs[i].memsz && segs[i].poff + segs[i].filesz <= |img|
  }

  // ---- addresses ----

  /** The segment backs an address range with file bytes. */
  predicate Backs(l: Load, va: nat, size: nat) { l.vaddr <= va && va - l.vaddr + size <= l.filesz }

  /** The file offset of an address range, in the first segment that backs it. */
  function VaToFile(segs: seq<Load>, va: nat, size: nat): Option<nat> {
    if segs == [] then None
    else if Backs(segs[0], va, size) then Some(segs[0].poff + (va - segs[0].vaddr))
    else VaToFile(segs[1..], va, size)
  }

  predicate Holds(l: Load, va: nat, size: nat, writable: bool) {
    l.vaddr <= va && va - l.vaddr + size <= l.memsz && (!writable || l.flags / 2 % 2 == 1)
  }

  predicate VaInSegment(segs: seq<Load>, va: nat, size: nat, writable: bool) {
    exists i :: 0 <= i < |segs| && Holds(segs[i], va, size, writable)
  }

  lemma {:induction false} FoundIn(segs: seq<Load>, va: nat, size: nat)
    ensures match VaToFile(segs, va, size)
            case Some(off) =>
              exists i :: 0 <= i < |segs| && Backs(segs[i], va, size) && off == segs[i].poff + (va - segs[i].vaddr)
            case None => forall i :: 0 <= i < |segs| ==> !Backs(segs[i], va, size)
  {
    if segs != [] && !Backs(segs[0], va, size) {
      var rest := segs[1..];
      FoundIn(rest, va, size);
      match VaToFile(segs, va, size)
      case Some(off) =>
        var i :| 0 <= i < |rest| && Backs(rest[i], va, size) && off == rest[i].poff + (va - rest[i].vaddr);
        assert segs[i + 1] == rest[i];
      case None =>
        forall i | 0 < i < |segs| ensures !Backs(segs[i], va, size) { assert segs[i] == rest[i - 1]; }
    }
  }

  /** The file-backed bytes of an address range. */
  function View(img: Bytes, segs: seq<Load>, va: nat, size: nat): (v: Option<Bytes>)
    requires Backed(img, segs)
    ensures v.Some? ==> |v.value| == size
  {
    FoundIn(segs, va, size);
    match VaToFile(segs, va, size)
    case None => None
    case Some(off) => Some(img[off..off + size])
  }

  // ---- layout ----

  function FirstPage(l: Load): int { l.vaddr / PAGE }
  function LastPage(l: Load): int { (l.vaddr + l.memsz - 1) / PAGE }

  /** No segment covers the stack page and no two share a page. */
  ghost predicate LaidOut(loads: seq<Load>) {
    && (forall i :: 0 <= i < |loads| ==> !(FirstPage(loads[i]) <= STACK_PAGE / PAGE <= LastPage(loads[i])))
    && forall i, j :: 0 <= i < j < |loads| ==>
       !(FirstPage(loads[i]) <= LastPage(loads[j]) && FirstPage(loads[j]) <= LastPage(loads[i]))
  }

  /** An address lies in at most one segment. */
  lemma OneSegment(loads: seq<Load>, i: nat, j: nat, va: nat)
    requires LaidOut(loads) && i < |loads| && j < |loads|
    requires loads[i].vaddr <= va < loads[i].vaddr + loads[i].memsz
             && loads[j].vaddr <= va < loads[j].vaddr + loads[j].memsz
    ensures i == j
  {
    Covers(loads[i], va);
    Covers(loads[j], va);
  }

  lemma Covers(l: Load, va: nat)
    requires l.vaddr <= va < l.vaddr + l.memsz
    ensures FirstPage(l) <= va / PAGE <= LastPage(l)
  {}

  // ---- order ----

  /** Tuple order on (vaddr, poff, filesz, memsz, flags). */
  predicate Le(a: Load, b: Load) {
    if a.vaddr != b.vaddr then a.vaddr < b.vaddr
    else if a.poff != b.poff then a.poff < b.poff
    else if a.filesz != b.filesz then a.filesz < b.filesz
    else if a.memsz != b.memsz then a.memsz < b.memsz
    else a.flags <= b.flags
  }

  function Insert(x: Load, s: seq<Load>): (r: seq<Load>)
    ensures |r| == |s| + 1
  {
    if s == [] || Le(x, s[0]) then [x] + s else [s[0]] + Insert(x, s[1..])
  }

  function Sort(s: seq<Load>): (r: seq<Load>)
    ensures |r| == |s|
  {
    if s == [] then [] else Insert(s[0], Sort(s[1..]))
  }

  ghost predicate Sorted(s: seq<Load>) { forall i :: 0 <= i < |s| - 1 ==> Le(s[i], s[i + 1]) }

  lemma {:induction false} InsertSorted(x: Load, s: seq<Load>)
    requires Sorted(s)
    ensures Sorted(Insert(x, s)) && multiset(Insert(x, s)) == multiset(s) + multiset{x}
  {
    if s == [] || Le(x, s[0]) {
      forall i | 0 < i < |s| ensures Le(([x] + s)[i], ([x] + s)[i + 1]) { assert Le(s[i - 1], s[i]); }
    } else {
      assert s == [s[0]] + s[1..];
      forall i | 0 <= i < |s[1..]| - 1 ensures Le(s[1..][i], s[1..][i + 1]) { assert Le(s[i + 1], s[i + 2]); }
      InsertSorted(x, s[1..]);
      var r := Insert(x, s[1..]);
      assert r[0] == x || (s[1..] != [] && r[0] == s[1]);
      assert |s| > 1 ==> Le(s[0], s[0 + 1]);
      forall i | 0 <= i < |s| ensures Le(([s[0]] + r)[i], ([s[0]] + r)[i + 1]) {
        if i > 0 { assert Le(r[i - 1], r[i]); }
      }
    }
  }

  /** Sorting keeps the segments and puts them in order. */
  lemma {:induction false} SortSorts(s: seq<Load>)
    ensures Sorted(Sort(s)) && multiset(Sort(s)) == multiset(s)
  {
    if s != [] {
      SortSorts(s[1..]);
      InsertSorted(s[0], Sort(s[1..]));
      assert s == [s[0]] + s[1..];
    }
  }

  lemma {:induction false} SortedStays(s: seq<Load>)
    requires Sorted(s)
    ensures Sort(s) == s
  {
    if s != [] {
      forall i | 0 <= i < |s[1..]| - 1 ensures Le(s[1..][i], s[1..][i + 1]) { assert Le(s[i + 1], s[i + 2]); }
      SortedStays(s[1..]);
      assert |s| > 1 ==> Le(s[0], s[0 + 1]);
      assert s == [s[0]] + s[1..];
    }
  }

  lemma SortMembers(s: seq<Load>)
    ensures forall l :: l in Sort(s) <==> l in s
  {
    SortSorts(s);
    forall l ensures l in Sort(s) <==> l in s {
      assert l in Sort(s) <==> l in multiset(Sort(s));
      assert l in s <==> l in multiset(s);
    }
  }

  // ---- contents ----

  /** A segment as it is loaded. */
  datatype Blob = Blob(vaddr: nat, data: Bytes, flags: nat)

  function BlobOf(img: Bytes, l: Load): (b: Blob)
    requires l.filesz <= l.memsz && l.poff + l.filesz <= |img|
    ensures |b.data| == l.memsz
  {
    Blob(l.vaddr, img[l.poff..l.poff + l.filesz] + seq(l.memsz - l.filesz, _ => 0), l.flags)
  }

  function Blobs(img: Bytes, loads: seq<Load>): (bs: seq<Blob>)
    requires Backed(img, loads)
    ensures |bs| == |loads| && forall i :: 0 <= i < |loads| ==> bs[i] == BlobOf(img, loads[i])
  {
    seq(|loads|, i requires 0 <= i < |loads| => BlobOf(img, loads[i]))
  }

  function PageSum(bs: seq<Blob>): nat { if bs == [] then 0 else (|bs[0].data| + 4095) / PAGE + PageSum(bs[1..]) }

  function DataLength(bs: seq<Blob>): nat { if bs == [] then 0 else |bs[0].data| + DataLength(bs[1..]) }

  lemma {:induction false} PagesBoundBytes(bs: seq<Blob>)
    ensures DataLength(bs) <= PAGE * PageSum(bs)
  {
    if bs != [] {
      PagesBoundBytes(bs[1..]);
      var n := |bs[0].data|;
      assert n <= PAGE * ((n + 4095) / PAGE);
    }
  }

  /** The program's memory: byte b at address va, mapped with permissions f. File bytes come
      first, the rest of a segment is zero. */
  ghost predicate MapsTo(img: Bytes, raws: seq<Raw>, va: nat, b: Byte, f: nat) {
    exists i :: 0 <= i < |raws| && RawMaps(img, raws[i], va, b, f)
  }

  ghost predicate RawMaps(img: Bytes, r: Raw, va: nat, b: Byte, f: nat) {
    && r.ptype == LOAD && r.flags == f && r.vaddr <= va < r.vaddr + r.memsz
    && (if va - r.vaddr < r.filesz then r.poff + (va - r.vaddr) < |img| && b == img[r.poff + (va - r.vaddr)]
        else b == 0)
  }
}
