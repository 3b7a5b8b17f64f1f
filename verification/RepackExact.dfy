/** Which files the repackager accepts, header by header, and that it is exactly those. Offsets,
    types and limits are numbers of the System V gABI, chapters 4 and 5, and of the repackager. */
module RepackExact {
  import opened Options
  import opened ByteStrings
  import opened Elf
  import opened Segments
  import opened Repack
  import Dynamic
  import DynamicExact
  import RepackProofs

  // ---- what a file must be ----

  /** A little-endian 64-bit ELF file for AArch64, an executable or a shared object, of at most
      16 MiB and 16 program headers. */
  predicate Front(img: Bytes) {
    && 64 <= |img| <= 16 * 1024 * 1024 && img[..7] == [0x7F, 0x45, 0x4C, 0x46, 2, 1, 1]
    && Read(img, 18, 2) == 183 && Read(img, 16, 2) in {2, 3}
    && Read(img, 56, 2) <= 16 && (Read(img, 56, 2) != 0 ==> Read(img, 54, 2) in {0, 56})
    && Read(img, 32, 8) + 56 * Read(img, 56, 2) <= |img|
  }

  function HeaderAt(img: Bytes, p: nat): Raw
    requires p + 56 <= |img|
  {
    Raw(Read(img, p, 4), Read(img, p + 4, 4), Read(img, p + 8, 8), Read(img, p + 16, 8), Read(img, p + 32, 8),
        Read(img, p + 40, 8), Read(img, p + 48, 8))
  }

  function Headers(img: Bytes): seq<Raw>
    requires Front(img)
  {
    seq(Read(img, 56, 2), i requires 0 <= i < Read(img, 56, 2) => HeaderAt(img, Read(img, 32, 8) + 56 * i))
  }

  /** An executable without dynamic section, interpreter or read-only relocations. */
  predicate Plain(img: Bytes)
    requires Front(img)
  {
    Read(img, 16, 2) == 2 && forall h :: h in Headers(img) ==> h.ptype !in {2, 3, 0x6474E552}
  }

  /** A segment: backed by the file, at most 1 MiB, aligned as it says, inside the window, away
      from the stack page, and without zero fill in a plain file. */
  predicate Segment(img: Bytes, h: Raw, etype: nat, plain: bool) {
    && h.filesz <= h.memsz <= 0x10_0000 && h.poff + h.filesz <= |img| && (plain ==> h.filesz == h.memsz)
    && (h.align == 0 || (h.align in {4096, 8192, 16384, 32768, 65536} && (h.vaddr - h.poff) % h.align == 0))
    && (etype == 2 ==> 0x0100_0000 <= h.vaddr) && h.vaddr <= 0xFFFF_FFFF && h.vaddr + h.memsz <= 0x1_0000_0000
    && (0x3FFF_D000 / 4096 < h.vaddr / 4096 || (h.vaddr + h.memsz - 1) / 4096 < 0x3FFF_D000 / 4096)
  }

  /** No page of one lies between the first and the last page of the other. */
  predicate Apart(a: Raw, b: Raw) {
    (a.vaddr + a.memsz - 1) / 4096 < b.vaddr / 4096 || (b.vaddr + b.memsz - 1) / 4096 < a.vaddr / 4096
  }

  ghost predicate AllApart(hs: seq<Raw>) {
    forall i, j :: 0 <= i < j < |hs| && hs[i].ptype == 1 && hs[j].ptype == 1 ==> Apart(hs[i], hs[j])
  }

  ghost predicate ApartFrom(h: Raw, hs: seq<Raw>) {
    forall j :: 0 <= j < |hs| && hs[j].ptype == 1 ==> Apart(h, hs[j])
  }

  function PagesOf(hs: seq<Raw>): nat {
    if hs == [] then 0 else (if hs[0].ptype == 1 then (hs[0].memsz + 4095) / 4096 else 0) + PagesOf(hs[1..])
  }

  /** The headers a repackaged file keeps. */
  predicate Stays(h: Raw) { h.ptype in {1, 2, 3} || (h.ptype == 0x6474E552 && h.memsz > 0) }

  function Staying(hs: seq<Raw>): nat {
    if hs == [] then 0 else (if Stays(hs[0]) then 1 else 0) + Staying(hs[1..])
  }

  const PATH := "/lib/ld-house.so.0"

  /** The one interpreter, its path ended and padded with zeros. */
  predicate Interpreter(img: Bytes, h: Raw) {
    && 18 < h.filesz <= 256 && h.poff + h.filesz <= |img|
    && forall i :: 0 <= i < h.filesz ==> img[h.poff + i] == if i < 18 then PATH[i] as int else 0
  }

  ghost predicate DynamicSection(img: Bytes, segs: seq<Load>, h: Raw) {
    && h.poff + h.filesz <= |img| && Backed(img, segs)
    && DynamicExact.Sound(img, segs, img[h.poff..h.poff + h.filesz])
  }

  predicate ReadOnly(hs: seq<Raw>, h: Raw) {
    h.memsz == 0 || exists l :: l in hs && l.ptype == 1 && l.vaddr <= h.vaddr && h.vaddr + h.memsz <= l.vaddr + l.memsz
  }

  /** No thread-local storage; segments as above, apart from each other, one holding the entry. */
  ghost predicate HeadersOk(img: Bytes, hs: seq<Raw>, etype: nat, entry: nat, plain: bool) {
    && (forall h :: h in hs ==> h.ptype != 7 && (h.ptype == 1 ==> Segment(img, h, etype, plain)))
    && AllApart(hs) && exists h :: h in hs && h.ptype == 1 && h.vaddr <= entry < h.vaddr + h.memsz
  }

  ghost predicate AtMostOne(hs: seq<Raw>, t: nat) {
    forall i, j :: 0 <= i < j < |hs| && hs[i].ptype == hs[j].ptype ==> hs[i].ptype != t
  }

  /** At most one interpreter, dynamic section and read-only range, each as it must be; no more
      than 16 headers in the result. */
  ghost predicate Linked(img: Bytes, hs: seq<Raw>) {
    && AtMostOne(hs, 2) && AtMostOne(hs, 3) && AtMostOne(hs, 0x6474E552)
    && (forall h :: h in hs && h.ptype == 3 ==> Interpreter(img, h))
    && (forall h :: h in hs && h.ptype == 2 ==> DynamicSection(img, Sort(LoadsOf(hs)), h))
    && (forall h :: h in hs && h.ptype == 0x6474E552 ==> ReadOnly(hs, h))
    && Staying(hs) <= 16
  }

  ghost predicate Acceptable(img: Bytes) {
    && Front(img) && HeadersOk(img, Headers(img), Read(img, 16, 2), Read(img, 24, 8), Plain(img))
    && PagesOf(Headers(img)) <= 256
    && if Plain(img) then Staying(Headers(img)) <= 8 else Linked(img, Headers(img))
  }

  // ---- headers ----

  lemma FrontExact(img: Bytes)
    ensures HeadOk(img) <==> Front(img)
    ensures Front(img) ==> RawsOf(img) == Headers(img)
    ensures Front(img) ==> |img| >= 64 && Read(img, 16, 2) in {2, 3}
    ensures Front(img) ==> ReadHead(img).etype == Read(img, 16, 2) && ReadHead(img).entry == Read(img, 24, 8)
  {
    hide Read, ReadTable;
    assert IDENT[..7] == [0x7F, 0x45, 0x4C, 0x46, 2, 1, 1];
    if Front(img) {
      var p, n := Read(img, 32, 8), Read(img, 56, 2);
      forall i | 0 <= i < n ensures RawsOf(img)[i] == Headers(img)[i] {
        TableAt(img, p, n, i);
      }
    }
  }

  lemma PlainExact(img: Bytes)
    requires Front(img) && HeadOk(img)
    ensures Static(img) <==> Plain(img)
  {
    hide Read, Headers, RawsOf, Kind, Front, HeadOk;
    FrontExact(img);
    var hs := Headers(img);
    RepackProofs.KindNone(hs, 2);
    RepackProofs.KindNone(hs, 3);
    RepackProofs.KindNone(hs, 0x6474E552);
    forall h | h in hs && Static(img) ensures h.ptype !in {2, 3, 0x6474E552} {
      var i :| 0 <= i < |hs| && hs[i] == h;
    }
    assert forall i :: 0 <= i < |hs| ==> hs[i] in hs;
  }

  // ---- sorting keeps what is asked of the segments ----

  /** Pairwise disjoint pages, whatever the order. */
  predicate Disjoint(a: Load, b: Load) { LastPage(a) < FirstPage(b) || LastPage(b) < FirstPage(a) }

  ghost predicate AllDisjoint(ls: seq<Load>) { forall i, j :: 0 <= i < j < |ls| ==> Disjoint(ls[i], ls[j]) }

  ghost predicate FromAll(x: Load, ls: seq<Load>) { forall l :: l in ls ==> Disjoint(x, l) }

  lemma DisjointCons(x: Load, ls: seq<Load>)
    ensures AllDisjoint([x] + ls) <==> FromAll(x, ls) && AllDisjoint(ls)
  {
    hide Disjoint;
    var s := [x] + ls;
    if AllDisjoint(s) {
      forall l | l in ls ensures Disjoint(x, l) {
        var i :| 0 <= i < |ls| && ls[i] == l;
        assert s[i + 1] == l && s[0] == x;
      }
      forall i, j | 0 <= i < j < |ls| ensures Disjoint(ls[i], ls[j]) { assert s[i + 1] == ls[i] && s[j + 1] == ls[j]; }
    }
  }

  lemma {:induction false} DisjointInsert(x: Load, ls: seq<Load>)
    ensures AllDisjoint(Insert(x, ls)) <==> FromAll(x, ls) && AllDisjoint(ls)
    ensures forall l :: l in Insert(x, ls) <==> l == x || l in ls
  {
    hide Disjoint, Le, AllDisjoint;
    if ls == [] || Le(x, ls[0]) {
      DisjointCons(x, ls);
    } else {
      var y, rest := ls[0], ls[1..];
      assert ls == [y] + rest;
      DisjointInsert(x, rest);
      DisjointCons(y, Insert(x, rest));
      DisjointCons(y, rest);
      Mutual(x, y);
    }
  }

  lemma Mutual(a: Load, b: Load)
    ensures Disjoint(a, b) <==> Disjoint(b, a)
  {}

  lemma {:induction false} DisjointSort(ls: seq<Load>)
    ensures AllDisjoint(Sort(ls)) <==> AllDisjoint(ls)
  {
    hide Disjoint, AllDisjoint;
    if ls != [] {
      DisjointSort(ls[1..]);
      DisjointInsert(ls[0], Sort(ls[1..]));
      DisjointCons(ls[0], ls[1..]);
      SortMembers(ls[1..]);
      assert ls == [ls[0]] + ls[1..];
    }
  }

  /** Pages of segments. */
  function LoadPages(ls: seq<Load>): nat { if ls == [] then 0 else (ls[0].memsz + 4095) / PAGE + LoadPages(ls[1..]) }

  lemma {:induction false} PagesInsert(x: Load, ls: seq<Load>)
    ensures LoadPages(Insert(x, ls)) == (x.memsz + 4095) / PAGE + LoadPages(ls)
  {
    hide Le;
    if ls != [] && !Le(x, ls[0]) { PagesInsert(x, ls[1..]); }
  }

  lemma {:induction false} PagesSort(ls: seq<Load>)
    ensures LoadPages(Sort(ls)) == LoadPages(ls)
  {
    if ls != [] {
      PagesSort(ls[1..]);
      PagesInsert(ls[0], Sort(ls[1..]));
    }
  }

  lemma {:induction false} PagesOfBlobs(bs: seq<Blob>, ls: seq<Load>)
    requires |bs| == |ls| && forall i :: 0 <= i < |ls| ==> |bs[i].data| == ls[i].memsz
    ensures PageSum(bs) == LoadPages(ls)
  {
    if bs != [] { PagesOfBlobs(bs[1..], ls[1..]); }
  }

  lemma LoadsCons(hs: seq<Raw>)
    requires hs != []
    ensures LoadsOf(hs) == (if hs[0].ptype == 1 then [LoadOf(hs[0])] else []) + LoadsOf(hs[1..])
    ensures hs[0].ptype != 1 ==> LoadsOf(hs) == LoadsOf(hs[1..])
    ensures hs[0].ptype == 1 ==> LoadsOf(hs)[0] == LoadOf(hs[0]) && LoadsOf(hs)[1..] == LoadsOf(hs[1..])
  {}

  lemma {:induction false} PagesOfHeaders(hs: seq<Raw>)
    ensures LoadPages(LoadsOf(hs)) == PagesOf(hs)
  {
    if hs != [] {
      PagesOfHeaders(hs[1..]);
      LoadsCons(hs);
    }
  }

  lemma {:induction false} DisjointHeaders(hs: seq<Raw>)
    ensures AllDisjoint(LoadsOf(hs)) <==> AllApart(hs)
  {
    hide AllDisjoint, AllApart, ApartFrom;
    if hs == [] {
      NoneLeft();
    } else {
      var h, rest := hs[0], hs[1..];
      DisjointHeaders(rest);
      LoadsCons(hs);
      ApartCons(h, rest);
      assert hs == [h] + rest;
      if h.ptype == 1 {
        assert LoadsOf(hs) == [LoadOf(h)] + LoadsOf(rest);
        DisjointCons(LoadOf(h), LoadsOf(rest));
        FromHeaders(h, rest);
      }
    }
  }

  lemma NoneLeft()
    ensures AllDisjoint(LoadsOf([])) && AllApart([])
  {}

  lemma FromHeaders(h: Raw, rest: seq<Raw>)
    ensures FromAll(LoadOf(h), LoadsOf(rest)) <==> ApartFrom(h, rest)
  {
    hide Disjoint, Apart;
    forall r: Raw ensures Disjoint(LoadOf(h), LoadOf(r)) <==> Apart(h, r) { SameApart(h, r); }
    forall l ensures l in LoadsOf(rest) <==> exists i :: 0 <= i < |rest| && rest[i].ptype == 1 && LoadOf(rest[i]) == l {
      LoadsMembers(rest, l);
    }
    forall j | 0 <= j < |rest| && rest[j].ptype == 1 ensures LoadOf(rest[j]) in LoadsOf(rest) {}
  }

  lemma SameApart(a: Raw, b: Raw)
    ensures Disjoint(LoadOf(a), LoadOf(b)) <==> Apart(a, b)
  {}

  lemma ApartCons(h: Raw, rest: seq<Raw>)
    ensures AllApart([h] + rest) <==> (h.ptype == 1 ==> ApartFrom(h, rest)) && AllApart(rest)
  {
    hide Apart;
    var hs := [h] + rest;
    if AllApart(hs) {
      forall j | 0 <= j < |rest| && h.ptype == 1 && rest[j].ptype == 1 ensures Apart(h, rest[j]) {
        assert hs[0] == h && hs[j + 1] == rest[j];
      }
      forall i, j | 0 <= i < j < |rest| && rest[i].ptype == 1 && rest[j].ptype == 1 ensures Apart(rest[i], rest[j]) {
        assert hs[i + 1] == rest[i] && hs[j + 1] == rest[j];
      }
    }
  }

  // ---- kinds and counts ----

  lemma {:induction false} KindCount(hs: seq<Raw>, t: nat)
    ensures |Kind(hs, t)| <= 1 <==> AtMostOne(hs, t)
    ensures forall h :: h in Kind(hs, t) <==> h in hs && h.ptype == t
  {
    hide AtMostOne;
    if hs == [] {
      NoKind(t);
    } else {
      var h, rest := hs[0], hs[1..];
      KindCount(rest, t);
      RepackProofs.FirstKind(hs, t);
      assert hs == [h] + rest;
      AtMostCons(h, rest, t);
      if Kind(rest, t) != [] { assert Kind(rest, t)[0] in Kind(rest, t); }
    }
  }

  lemma NoKind(t: nat)
    ensures AtMostOne([], t) && Kind([], t) == []
  {}

  lemma AtMostCons(h: Raw, rest: seq<Raw>, t: nat)
    ensures AtMostOne([h] + rest, t)
            <==> AtMostOne(rest, t) && (h.ptype == t ==> forall r :: r in rest ==> r.ptype != t)
  {
    var hs := [h] + rest;
    if AtMostOne(hs, t) {
      forall i, j | 0 <= i < j < |rest| && rest[i].ptype == rest[j].ptype ensures rest[i].ptype != t {
        assert hs[i + 1] == rest[i] && hs[j + 1] == rest[j];
      }
      forall r | r in rest && h.ptype == t ensures r.ptype != t {
        var j :| 0 <= j < |rest| && rest[j] == r;
        assert hs[0] == h && hs[j + 1] == r;
      }
    }
  }

  function Relros(hs: seq<Raw>): nat {
    if hs == [] then 0 else (if hs[0].ptype == 0x6474E552 && hs[0].memsz > 0 then 1 else 0) + Relros(hs[1..])
  }

  lemma {:induction false} StayingCount(hs: seq<Raw>)
    ensures Staying(hs) == |LoadsOf(hs)| + |Kind(hs, 2)| + |Kind(hs, 3)| + Relros(hs)
  {
    if hs != [] {
      StayingCount(hs[1..]);
      LoadsCons(hs);
      RepackProofs.FirstKind(hs, 2);
      RepackProofs.FirstKind(hs, 3);
      hide Kind, LoadsOf;
    }
  }

  lemma {:induction false} RelroCount(hs: seq<Raw>)
    requires |Kind(hs, 0x6474E552)| <= 1
    ensures Relros(hs) == if Kind(hs, 0x6474E552) != [] && Kind(hs, 0x6474E552)[0].memsz > 0 then 1 else 0
  {
    if hs != [] {
      RepackProofs.FirstKind(hs, 0x6474E552);
      if hs[0].ptype == 0x6474E552 {
        NoRelros(hs[1..]);
      } else {
        RelroCount(hs[1..]);
      }
    }
  }

  lemma {:induction false} NoRelros(hs: seq<Raw>)
    requires Kind(hs, 0x6474E552) == []
    ensures Relros(hs) == 0
  {
    if hs != [] {
      RepackProofs.FirstKind(hs, 0x6474E552);
      NoRelros(hs[1..]);
    }
  }

  // ---- segments ----

  lemma SegmentExact(img: Bytes, h: Raw, etype: nat, plain: bool)
    requires h.ptype == 1 && etype in {2, 3}
    ensures Segment(img, h, etype, plain) <==>
              RawOk(img, h, plain) && InWindow(LoadOf(h), etype) && OffStack(LoadOf(h))
  {}

  predicate OffStack(l: Load) { !(FirstPage(l) <= STACK_PAGE / PAGE <= LastPage(l)) }

  ghost predicate Holding(ls: seq<Load>, entry: nat) {
    exists l :: l in ls && l.vaddr <= entry < l.vaddr + l.memsz
  }

  lemma LoadsOkExact(ls: seq<Load>, etype: nat, entry: nat)
    ensures LoadsOk(ls, etype, entry) <==>
              && (forall l :: l in ls ==> InWindow(l, etype) && OffStack(l)) && AllDisjoint(ls) && Holding(ls, entry)
  {
    hide InWindow, FirstPage, LastPage;
    assert forall i :: 0 <= i < |ls| ==> ls[i] in ls;
    if LoadsOk(ls, etype, entry) {
      forall l | l in ls ensures InWindow(l, etype) && OffStack(l) { var i :| 0 <= i < |ls| && ls[i] == l; }
      var i :| 0 <= i < |ls| && ls[i].vaddr <= entry < ls[i].vaddr + ls[i].memsz;
      assert ls[i] in ls;
    }
    if Holding(ls, entry) {
      var l :| l in ls && l.vaddr <= entry < l.vaddr + l.memsz;
      var i :| 0 <= i < |ls| && ls[i] == l;
    }
  }

  /** A property of every loadable header is one of every segment. */
  lemma HeadersLoads(hs: seq<Raw>)
    ensures forall h :: h in hs && h.ptype == 1 ==> LoadOf(h) in LoadsOf(hs)
    ensures forall l :: l in LoadsOf(hs) ==> exists h :: h in hs && h.ptype == 1 && LoadOf(h) == l
  {
    hide LoadsOf;
    forall h | h in hs && h.ptype == 1 ensures LoadOf(h) in LoadsOf(hs) {
      var i :| 0 <= i < |hs| && hs[i] == h;
      LoadsMembers(hs, LoadOf(h));
    }
    forall l | l in LoadsOf(hs) ensures exists h :: h in hs && h.ptype == 1 && LoadOf(h) == l {
      LoadsMembers(hs, l);
      var i :| 0 <= i < |hs| && hs[i].ptype == LOAD && LoadOf(hs[i]) == l;
      assert hs[i] in hs;
    }
  }

  lemma HeadersExact(img: Bytes, hs: seq<Raw>, etype: nat, entry: nat, plain: bool)
    requires etype in {2, 3}
    ensures HeadersOk(img, hs, etype, entry, plain) <==>
              && Kind(hs, 7) == [] && (forall i :: 0 <= i < |hs| ==> RawOk(img, hs[i], plain))
              && LoadsOk(Sort(LoadsOf(hs)), etype, entry)
  {
    hide Kind, LoadsOf, Sort, Segment, RawOk, InWindow, AllApart, AllDisjoint, LoadsOk, OffStack;
    var ls := LoadsOf(hs);
    LoadsOkExact(Sort(ls), etype, entry);
    SortMembers(ls);
    DisjointHeaders(hs);
    DisjointSort(ls);
    HeadersLoads(hs);
    RepackProofs.KindNone(hs, 7);
    assert forall i :: 0 <= i < |hs| ==> hs[i] in hs;
    forall h: Raw | h in hs ensures exists i :: 0 <= i < |hs| && hs[i] == h {}
    forall h: Raw | h.ptype == 1
      ensures Segment(img, h, etype, plain) <==>
              RawOk(img, h, plain) && InWindow(LoadOf(h), etype) && OffStack(LoadOf(h))
    {
      SegmentExact(img, h, etype, plain);
    }
    forall h: Raw | h.ptype != 1 ensures RawOk(img, h, plain) { NotLoaded(img, h, plain); }
    forall h: Raw ensures LoadOf(h).vaddr == h.vaddr && LoadOf(h).memsz == h.memsz {}
  }

  lemma NotLoaded(img: Bytes, h: Raw, plain: bool)
    requires h.ptype != 1
    ensures RawOk(img, h, plain)
  {}

  // ---- interpreter, dynamic section, read-only relocations ----

  lemma InterpExact(img: Bytes, h: Raw)
    ensures InFile(img, h) && InterpOk(Slice(img, h)) <==> Interpreter(img, h)
  {
    PathIs();
    if InFile(img, h) {
      var s := Slice(img, h);
      if InterpOk(s) {
        forall i | 0 <= i < h.filesz ensures img[h.poff + i] == if i < 18 then PATH[i] as int else 0 {
          assert img[h.poff + i] == s[i] && (i < 18 ==> s[i] == s[..18][i]);
        }
      }
      if Interpreter(img, h) {
        forall i | 0 <= i < h.filesz ensures s[i] == if i < 18 then PATH[i] as int else 0 {
          assert s[i] == img[h.poff + i];
        }
        assert s[..18] == LD_HOUSE;
      }
    }
  }

  lemma PathIs()
    ensures |PATH| == |LD_HOUSE| == 18 && forall i :: 0 <= i < 18 ==> LD_HOUSE[i] == PATH[i] as int
  {}

  lemma ReadOnlyExact(hs: seq<Raw>, h: Raw)
    ensures h.memsz == 0 || VaInSegment(Sort(LoadsOf(hs)), h.vaddr, h.memsz, false) <==> ReadOnly(hs, h)
  {
    hide LoadsOf, Sort;
    var segs := Sort(LoadsOf(hs));
    SortMembers(LoadsOf(hs));
    HeadersLoads(hs);
    if VaInSegment(segs, h.vaddr, h.memsz, false) {
      var i :| 0 <= i < |segs| && Segments.Holds(segs[i], h.vaddr, h.memsz, false);
      assert segs[i] in segs;
    }
    if l :| l in hs && l.ptype == 1 && l.vaddr <= h.vaddr && h.vaddr + h.memsz <= l.vaddr + l.memsz {
      assert LoadOf(l) in segs;
      var i :| 0 <= i < |segs| && segs[i] == LoadOf(l);
      assert Segments.Holds(segs[i], h.vaddr, h.memsz, false);
    }
  }

  lemma SectionExact(img: Bytes, segs: seq<Load>, h: Raw)
    requires Backed(img, segs)
    ensures InFile(img, h) && Dynamic.Accepts(img, segs, Slice(img, h)) <==> DynamicSection(img, segs, h)
  {
    hide Dynamic.Accepts, DynamicExact.Sound;
    if InFile(img, h) { DynamicExact.AcceptsExactly(img, segs, Slice(img, h)); }
  }

  lemma LinkedExact(img: Bytes, hs: seq<Raw>, bs: seq<Blob>)
    requires Backed(img, Sort(LoadsOf(hs))) && |bs| == |LoadsOf(hs)|
    ensures var x := ExtrasOf(img, hs, Sort(LoadsOf(hs))); x.Some? && Count(bs, x.value) <= 16 <==> Linked(img, hs)
  {
    hide LoadsOf, Sort, Kind, Staying, AtMostOne, DynamicSection, Interpreter, ReadOnly, InterpOk, Slice, Backed,
      VaInSegment, Dynamic.Accepts, InFile;
    var segs := Sort(LoadsOf(hs));
    KindCount(hs, 2);
    KindCount(hs, 3);
    KindCount(hs, 0x6474E552);
    StayingCount(hs);
    if |Kind(hs, 0x6474E552)| <= 1 { RelroCount(hs); }
    Firsts(hs, 2);
    Firsts(hs, 3);
    Firsts(hs, 0x6474E552);
    forall h ensures InFile(img, h) && InterpOk(Slice(img, h)) <==> Interpreter(img, h) { InterpExact(img, h); }
    forall h ensures InFile(img, h) && Dynamic.Accepts(img, segs, Slice(img, h)) <==> DynamicSection(img, segs, h) {
      SectionExact(img, segs, h);
    }
    forall h: Raw ensures h.memsz == 0 || VaInSegment(segs, h.vaddr, h.memsz, false) <==> ReadOnly(hs, h) {
      ReadOnlyExact(hs, h);
    }
  }

  /** With at most one header of a kind, that header is the kind's first. */
  lemma Firsts(hs: seq<Raw>, t: nat)
    ensures |Kind(hs, t)| <= 1 ==> forall h :: h in hs && h.ptype == t ==> Kind(hs, t) == [h]
    ensures Kind(hs, t) != [] ==> Kind(hs, t)[0] in hs && Kind(hs, t)[0].ptype == t
  {
    hide Kind;
    KindCount(hs, t);
    if Kind(hs, t) != [] { assert Kind(hs, t)[0] in Kind(hs, t); }
  }

  // ---- the whole file ----

  /** The repackager accepts exactly the files described above. */
  lemma AcceptedExactly(img: Bytes)
    ensures Accepted(img) <==> Acceptable(img)
  {
    hide Front, Headers, HeadersOk, Linked, PagesOf, Plain, Staying, Read, ReadHead, HeadOk, RawsOf, Kind, LoadsOf,
      Sort,
      RawOk, LoadsOk, PageSum, Backed, ExtrasOf, Static, Count;
    FrontExact(img);
    if Front(img) {
      PlainExact(img);
      var hs := Headers(img);
      HeadersExact(img, hs, Read(img, 16, 2), Read(img, 24, 8), Plain(img));
      if Readable(img) { Sizes(img); }
    }
  }

  lemma Sizes(img: Bytes)
    requires Front(img) && Readable(img)
    ensures RawsOf(img) == Headers(img) && Backed(img, SegmentsOf(img))
    ensures PageSum(BlobsOf(img)) == PagesOf(Headers(img))
    ensures Plain(img) ==> Staying(Headers(img)) == |SegmentsOf(img)|
    ensures var x := ExtrasOf(img, Headers(img), SegmentsOf(img));
            x.Some? && Count(BlobsOf(img), x.value) <= 16 <==> Linked(img, Headers(img))
  {
    hide Front, Headers, Read, ReadHead, HeadOk, RawsOf, Kind, LoadsOf, Sort, RawOk, Backed, ExtrasOf, Count, Linked;
    FrontExact(img);
    PlainExact(img);
    ReadableBacked(img);
    var hs := Headers(img);
    PagesOfBlobs(BlobsOf(img), SegmentsOf(img));
    PagesSort(LoadsOf(hs));
    PagesOfHeaders(hs);
    LinkedExact(img, hs, BlobsOf(img));
    if Plain(img) {
      StayingCount(hs);
      RepackProofs.KindNone(hs, 2);
      RepackProofs.KindNone(hs, 3);
      RepackProofs.KindNone(hs, 0x6474E552);
      RelroCount(hs);
    }
  }

  // ---- what is written ----

  ghost predicate SameBytes(img: Bytes, p: nat, out: Bytes, q: nat, n: nat) {
    p + n <= |img| && q + n <= |out| && out[q..q + n] == img[p..p + n]
  }

  /** A header of the result for one of the input: same address and permissions of a segment, its
      zero fill written out; same bytes of a dynamic section or an interpreter; same range. */
  ghost predicate Carried(img: Bytes, h: Raw, out: Bytes, g: Raw) {
    && g.ptype == h.ptype
    && (h.ptype == 1 ==>
          && g.vaddr == h.vaddr && g.flags == h.flags && g.filesz == g.memsz == h.memsz
          && SameBytes(img, h.poff, out, g.poff, h.filesz) && g.poff + g.filesz <= |out|
          && forall k :: g.poff + h.filesz <= k < g.poff + h.memsz ==> out[k] == 0)
    && (h.ptype == 2 ==>
          g.vaddr == h.vaddr && g.filesz == g.memsz == h.filesz && SameBytes(img, h.poff, out, g.poff, h.filesz))
    && (h.ptype == 3 ==> g.filesz == g.memsz == h.filesz && SameBytes(img, h.poff, out, g.poff, h.filesz))
    && (h.ptype == 0x6474E552 ==> g.vaddr == h.vaddr && g.memsz == h.memsz)
  }

  lemma SegmentCarried(img: Bytes, out: Bytes, h: Raw)
    requires RepackProofs.Rewritten(img, out) && HeadOk(img) && HeadOk(out) && h in RawsOf(img) && h.ptype == 1
    ensures exists g :: g in RawsOf(out) && Carried(img, h, out, g)
  {
    hide RepackProofs.Rewritten, Output, OutRaws, RawsOf, HeadOk, ExtrasIn, Sort, LoadsOf, Accepted, At, Readable,
      LoadRaws, RepackProofs.OutLoads, DataLength, Ehdr, Table;
    RepackProofs.Known(img, out);
    RepackProofs.OutputRead(img, out);
    var bs, x := BlobsOf(img), ExtrasIn(img);
    var off := RepackProofs.DataStart(bs, x);
    HeadersLoads(RawsOf(img));
    SortMembers(LoadsOf(RawsOf(img)));
    var segs := SegmentsOf(img);
    assert LoadOf(h) in segs;
    var i :| 0 <= i < |segs| && segs[i] == LoadOf(h);
    ReadableBacked(img);
    assert bs[i] == BlobOf(img, segs[i]);
    RepackProofs.Placed(out, bs, off, i);
    RepackProofs.OutRawsSplit(bs, x);
    var g := LoadRaws(bs, off)[i];
    assert OutRaws(bs, x)[i] == g;
    BlobCarried(img, out, h, g);
    assert g in RawsOf(out);
  }

  lemma BlobCarried(img: Bytes, out: Bytes, h: Raw, g: Raw)
    requires h.ptype == 1 && h.filesz <= h.memsz && h.poff + h.filesz <= |img|
    requires g == Raw(1, h.flags, g.poff, h.vaddr, h.memsz, h.memsz, 0)
    requires At(out, g.poff, BlobOf(img, LoadOf(h)).data)
    ensures Carried(img, h, out, g)
  {
    var data := BlobOf(img, LoadOf(h)).data;
    AtBytes(out, g.poff, data);
    assert out[g.poff..g.poff + h.filesz] == data[..h.filesz] == img[h.poff..h.poff + h.filesz];
    forall k | g.poff + h.filesz <= k < g.poff + h.memsz ensures out[k] == 0 { assert out[k] == data[k - g.poff]; }
  }

  /** Where the extras of an accepted file stand in the result. */
  lemma ExtrasStand(img: Bytes, out: Bytes) returns (end: nat)
    requires RepackProofs.Rewritten(img, out) && HeadOk(img) && HeadOk(out)
    ensures Accepted(img)
    ensures var x := ExtrasIn(img);
            && At(out, end, InterpData(x)) && At(out, end + |InterpData(x)|, DynData(x))
            && (forall g :: g in InterpRaws(x, end) ==> g in RawsOf(out))
            && (forall g :: g in DynRaws(x, end + |InterpData(x)|) ==> g in RawsOf(out))
            && (forall g :: g in RelroRaws(x) ==> g in RawsOf(out))
  {
    hide RepackProofs.Rewritten, Output, OutRaws, RawsOf, HeadOk, Sort, LoadsOf, At, Readable, LoadRaws, Data, BlobsOf,
      DataLength, Ehdr, Table, Kind, ExtrasIn, Accepted, InterpRaws, DynRaws, RelroRaws, InterpData, DynData;
    RepackProofs.Known(img, out);
    RepackProofs.OutputRead(img, out);
    var bs, x := BlobsOf(img), ExtrasIn(img);
    end := RepackProofs.DataStart(bs, x) + DataLength(bs);
    RepackProofs.OutRawsSplit(bs, x);
  }

  lemma ExtraCarried(img: Bytes, out: Bytes, h: Raw)
    requires RepackProofs.Rewritten(img, out) && HeadOk(img) && HeadOk(out) && h in RawsOf(img)
    requires h.ptype in {2, 3} || (h.ptype == 0x6474E552 && h.memsz > 0)
    ensures exists g :: g in RawsOf(out) && Carried(img, h, out, g)
  {
    hide RepackProofs.Rewritten, HeadOk, RawsOf, ExtrasIn, Accepted, At, Carried;
    var end := ExtrasStand(img, out);
    ExtraFrom(img, h);
    var x := ExtrasIn(img);
    if h.ptype == 2 {
      var g := DynRaws(x, end + |InterpData(x)|)[0];
      assert g in DynRaws(x, end + |InterpData(x)|);
      SliceCarried(img, out, h, g);
    } else if h.ptype == 3 {
      var g := InterpRaws(x, end)[0];
      assert g in InterpRaws(x, end);
      SliceCarried(img, out, h, g);
    } else {
      assert RelroRaws(x)[0] in RelroRaws(x);
      RelroCarried(img, out, h);
    }
  }

  lemma SliceCarried(img: Bytes, out: Bytes, h: Raw, g: Raw)
    requires h.ptype in {2, 3} && InFile(img, h) && At(out, g.poff, Slice(img, h))
    requires g.ptype == h.ptype && g.filesz == g.memsz == h.filesz && (h.ptype == 2 ==> g.vaddr == h.vaddr)
    ensures Carried(img, h, out, g)
  {
    AtBytes(out, g.poff, Slice(img, h));
  }

  lemma RelroCarried(img: Bytes, out: Bytes, h: Raw)
    requires h.ptype == 0x6474E552
    ensures Carried(img, h, out, Raw(0x6474E552, 0, 0, h.vaddr, h.memsz, h.memsz, 1))
  {}

  /** What the extras of an accepted file hold of a header. */
  lemma ExtraFrom(img: Bytes, h: Raw)
    requires Accepted(img) && HeadOk(img) && h in RawsOf(img)
    ensures var x := ExtrasIn(img);
            && (h.ptype == 2 ==> InFile(img, h) && x.dyn == Some((h.vaddr, Slice(img, h))))
            && (h.ptype == 3 ==> InFile(img, h) && x.interp == Some(Slice(img, h)))
            && (h.ptype == 0x6474E552 && h.memsz > 0 ==> x.relro == Some((h.vaddr, h.memsz)))
  {
    hide RawsOf, HeadOk, Sort, LoadsOf, Kind, LoadsOk, PageSum, Dynamic.Accepts, InterpOk, VaInSegment, BlobsOf, RawOk,
      Backed;
    Firsts(RawsOf(img), 2);
    Firsts(RawsOf(img), 3);
    Firsts(RawsOf(img), 0x6474E552);
    ReadableBacked(img);
  }

  /** Every header that stays is carried over, there are no others, and type and entry are kept. */
  lemma HeadersCarried(img: Bytes, out: Bytes, h: Raw)
    requires RepackProofs.Rewritten(img, out)
    ensures Front(img) && Front(out) && |Headers(out)| == Staying(Headers(img))
    ensures Read(out, 16, 2) == Read(img, 16, 2) && Read(out, 24, 8) == Read(img, 24, 8)
    ensures h in Headers(img) && Stays(h) ==> exists g :: g in Headers(out) && Carried(img, h, out, g)
  {
    hide Front, Headers, Read, ReadHead, HeadOk, RawsOf, Carried, Staying, OutRaws, Output, Count;
    RepackProofs.Known(img, out);
    RepackProofs.OutputRead(img, out);
    FrontExact(img);
    FrontExact(out);
    RepackProofs.OutRawsLength(BlobsOf(img), ExtrasIn(img));
    CountStaying(img);
    if h in Headers(img) && Stays(h) {
      if h.ptype == 1 { SegmentCarried(img, out, h); } else { ExtraCarried(img, out, h); }
    }
  }

  lemma CountStaying(img: Bytes)
    requires Accepted(img) && Front(img) && Headers(img) == RawsOf(img)
    ensures Count(BlobsOf(img), ExtrasIn(img)) == Staying(Headers(img))
  {
    hide Front, Headers, Read, ReadHead, HeadOk, RawsOf, Kind, LoadsOf, Sort, RawOk, Backed, LoadsOk, PageSum, InterpOk,
      Dynamic.Accepts, VaInSegment, Static;
    var hs := Headers(img);
    ReadableBacked(img);
    StayingCount(hs);
    if Static(img) { StaticKinds(img); }
    RelroCount(hs);
  }

  lemma StaticKinds(img: Bytes)
    requires HeadOk(img) && Static(img)
    ensures Kind(RawsOf(img), 2) == Kind(RawsOf(img), 3) == Kind(RawsOf(img), 0x6474E552) == []
  {}
}
