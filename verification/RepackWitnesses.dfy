/** Concrete files for which repackaging twice is not the identity. */
module RepackWitnesses {
  import opened Options
  import opened Arithmetic
  import opened ByteStrings
  import opened Elf
  import opened Segments
  import opened Repack
  import opened RepackProofs
  import opened RepackAgain

  // ---- an input whose output is not a fixed point ----

  const SWAPPED: seq<Raw> := [Raw(LOAD, 5, 0, 0x1000000, 0, 0, 0), Raw(LOAD, 4, 1, 0x1000000, 0, 0, 0),
    Raw(LOAD, 5, 0, 0x1001000, 1, 1, 0)]

  /** Two empty segments at one page, the first executable, and one byte of program. */
  function Tied(): Bytes { Ehdr(EXEC, 0x1001000, 3) + Table(SWAPPED) }

  lemma TiedReads()
    ensures HeadOk(Tied()) && ReadHead(Tied()) == Head(true, 183, EXEC, 0x1001000, 64, 56, 3)
            && RawsOf(Tied()) == SWAPPED
  {
    hide Table, Ehdr, At, Read, ReadTable, Pow256;
    Widths();
    var e, t := Ehdr(EXEC, 0x1001000, 3), Table(SWAPPED);
    EhdrLength(EXEC, 0x1001000, 3);
    AtWhole(Tied());
    AtSplit(Tied(), 0, e, t);
    EhdrReads(Tied(), EXEC, 0x1001000, 3);
    TableReads(Tied(), 64, SWAPPED);
  }

  lemma TiedSegments()
    ensures Sort(LoadsOf(SWAPPED)) ==
            [Load(0x1000000, 0, 0, 0, 5), Load(0x1000000, 1, 0, 0, 4), Load(0x1001000, 0, 1, 1, 5)]
    ensures Kind(SWAPPED, INTERP) == Kind(SWAPPED, DYNAMIC) == Kind(SWAPPED, RELRO) == Kind(SWAPPED, TLS) == []
  {
    var r0, r1, r2 := SWAPPED[0], SWAPPED[1], SWAPPED[2];
    assert SWAPPED[1..] == [r1, r2] && [r1, r2][1..] == [r2] && [r2][1..] == [];
    var a, b, c := LoadOf(r0), LoadOf(r1), LoadOf(r2);
    assert LoadsOf([r2]) == [c];
    assert LoadsOf([r1, r2]) == [b, c];
    assert LoadsOf(SWAPPED) == [a, b, c];
    SortedStays([a, b, c]);
    TiedKind(INTERP);
    TiedKind(DYNAMIC);
    TiedKind(RELRO);
    TiedKind(TLS);
  }

  lemma TiedKind(k: nat)
    requires k != LOAD
    ensures Kind(SWAPPED, k) == []
  {
    KindNone(SWAPPED, k);
  }

  /** That file is accepted, and repackaging its output changes it. */
  lemma NotAlwaysFixed()
    ensures Accepted(Tied()) && Repacked(Repacked(Tied()).value) != Repacked(Tied())
  {
    hide Table, Ehdr, Tied, ReadTable, Read, Kind, Sort, LoadsOf, RawsOf, HeadOk, ReadHead, Output, LoadsOk,
      TiesOrdered;
    TiedReads();
    TiedSegments();
    var img := Tied();
    TiedLength();
    forall i | 0 <= i < |SWAPPED| ensures RawOk(img, SWAPPED[i], true) {}
    assert Readable(img);
    TiedPages(img);
    TiedLayout(SegmentsOf(img));
    assert Accepted(img);
    StaticIsPlain(img);
    hide Accepted, Readable;
    FixedPoint(img, Repacked(img).value);
  }

  lemma TiedLayout(segs: seq<Load>)
    requires segs == [Load(0x1000000, 0, 0, 0, 5), Load(0x1000000, 1, 0, 0, 4), Load(0x1001000, 0, 1, 1, 5)]
    ensures LoadsOk(segs, EXEC, 0x1001000) && !TiesOrdered(segs)
  {
    assert segs[2].vaddr <= 0x1001000 < segs[2].vaddr + segs[2].memsz;
    assert segs[0].vaddr == segs[0 + 1].vaddr;
  }

  lemma TiedLength()
    ensures |Tied()| == 232
  {
    EhdrLength(EXEC, 0x1001000, 3);
  }

  lemma TiedPages(img: Bytes)
    requires Readable(img)
             && SegmentsOf(img) ==
                [Load(0x1000000, 0, 0, 0, 5), Load(0x1000000, 1, 0, 0, 4), Load(0x1001000, 0, 1, 1, 5)]
    ensures PageSum(BlobsOf(img)) == 1
  {
    hide RawsOf, LoadsOf, Sort, HeadOk, Kind, Readable;
    ReadableBacked(img);
    var bs := BlobsOf(img);
    assert |bs| == 3 && |bs[0].data| == 0 && |bs[1].data| == 0 && |bs[2].data| == 1;
    assert bs[1..][0] == bs[1] && bs[1..][1..] == bs[2..] && bs[2..][0] == bs[2] && bs[2..][1..] == [];
    assert PageSum(bs[2..]) == 1;
    assert PageSum(bs[1..]) == 1;
  }

  // ---- inputs whose output is refused ----

  /** n pages of one byte each. */
  function Pages(n: nat): (bs: seq<Blob>)
    ensures |bs| == n && forall i :: 0 <= i < n ==> bs[i] == Blob(0x1000000 + i * PAGE, [0], 5)
  {
    seq(n, i requires 0 <= i < n => Blob(0x1000000 + i * PAGE, [0], 5))
  }

  const EMPTY_RELRO := Raw(RELRO, 0, 0, 0, 0, 0, 0)

  function PagesAt(n: nat): nat { 64 + 56 * (n + 1) }

  function AlmostStaticRaws(n: nat): seq<Raw> { LoadRaws(Pages(n), PagesAt(n)) + [EMPTY_RELRO] }

  /** An executable of n segments whose only dynamic metadata is an empty RELRO header. */
  function AlmostStatic(n: nat): Bytes { Ehdr(EXEC, 0x1000000, n + 1) + Table(AlmostStaticRaws(n)) + Data(Pages(n)) }

  lemma {:induction false} OnePageEach(bs: seq<Blob>)
    requires forall i :: 0 <= i < |bs| ==> |bs[i].data| == 1
    ensures DataLength(bs) == PageSum(bs) == |bs|
  {
    if bs != [] { OnePageEach(bs[1..]); }
  }

  lemma AlmostStaticParts(n: nat)
    requires 1 <= n <= 15
    ensures var img := AlmostStatic(n);
            && |img| == PagesAt(n) + n && At(img, 0, Ehdr(EXEC, 0x1000000, n + 1))
            && At(img, 64, Table(AlmostStaticRaws(n))) && At(img, PagesAt(n), Data(Pages(n)))
  {
    hide Table, Ehdr, At, Data, Pages, AlmostStaticRaws;
    var img, e, t := AlmostStatic(n), Ehdr(EXEC, 0x1000000, n + 1), Table(AlmostStaticRaws(n));
    EhdrLength(EXEC, 0x1000000, n + 1);
    OnePageEach(Pages(n));
    AlmostStaticCount(n);
    AtWhole(img);
    AtSplit(img, 0, e + t, Data(Pages(n)));
    AtSplit(img, 0, e, t);
  }

  lemma AlmostStaticCount(n: nat)
    ensures |AlmostStaticRaws(n)| == n + 1
  {}

  lemma AlmostStaticReads(n: nat)
    requires 1 <= n <= 15
    ensures var img := AlmostStatic(n);
            && HeadOk(img) && ReadHead(img) == Head(true, 183, EXEC, 0x1000000, 64, 56, n + 1)
            && RawsOf(img) == AlmostStaticRaws(n) && At(img, PagesAt(n), Data(Pages(n)))
  {
    hide Table, Ehdr, At, Read, ReadTable, Pow256, LoadRaws, Data, Pages, AlmostStatic, ReadHead;
    Widths();
    AlmostStaticParts(n);
    AlmostStaticCount(n);
    var img := AlmostStatic(n);
    EhdrReads(img, EXEC, 0x1000000, n + 1);
    forall i | 0 <= i < n + 1 ensures AlmostStaticRaws(n)[i].Fits() {
      if i < n { Placed(img, Pages(n), PagesAt(n), i); }
    }
    hide AlmostStaticRaws, Raw.Fits;
    TableReads(img, 64, AlmostStaticRaws(n));
  }

  lemma AlmostStaticKinds(n: nat)
    ensures var raws := AlmostStaticRaws(n);
            && Kind(raws, INTERP) == [] && Kind(raws, DYNAMIC) == [] && Kind(raws, RELRO) == [EMPTY_RELRO]
               && Kind(raws, TLS) == []
            && LoadsOf(raws) == OutLoads(Pages(n), PagesAt(n))
  {
    hide LoadsOf, Kind, LoadRaws, OutLoads, Pages;
    var bs, rest := Pages(n), [EMPTY_RELRO];
    KindOne(rest, RELRO, INTERP); KindOfAll(bs, PagesAt(n), rest, INTERP);
    KindOne(rest, RELRO, DYNAMIC); KindOfAll(bs, PagesAt(n), rest, DYNAMIC);
    KindOne(rest, RELRO, RELRO); KindOfAll(bs, PagesAt(n), rest, RELRO);
    KindOne(rest, RELRO, TLS); KindOfAll(bs, PagesAt(n), rest, TLS);
    LoadsOfAll(bs, PagesAt(n), rest);
  }

  lemma AlmostStaticSegments(n: nat)
    requires 1 <= n <= 15
    ensures HeadOk(AlmostStatic(n))
    ensures var segs := SegmentsOf(AlmostStatic(n));
            && segs == OutLoads(Pages(n), PagesAt(n))
            && forall i :: 0 <= i < n ==> segs[i] == Load(0x1000000 + i * PAGE, segs[i].poff, 1, 1, 5)
  {
    hide LoadsOf, LoadRaws, OutLoads, RawsOf, Sort, At, Data, HeadOk, Pages, AlmostStatic;
    AlmostStaticReads(n);
    AlmostStaticKinds(n);
    var segs := OutLoads(Pages(n), PagesAt(n));
    forall i | 0 <= i < n ensures segs[i] == Load(0x1000000 + i * PAGE, segs[i].poff, 1, 1, 5) {
      Placed(AlmostStatic(n), Pages(n), PagesAt(n), i);
    }
    SortedStays(segs);
  }

  lemma AlmostStaticReadable(n: nat)
    requires 1 <= n <= 15
    ensures var img := AlmostStatic(n); Readable(img) && BlobsOf(img) == Pages(n) && !Static(img)
  {
    hide LoadsOf, Kind, LoadRaws, OutLoads, RawsOf, Sort, At, Data, HeadOk, Pages, AlmostStatic;
    var img := AlmostStatic(n);
    AlmostStaticReads(n);
    AlmostStaticKinds(n);
    AlmostStaticSegments(n);
    OutBacked(img, Pages(n), PagesAt(n));
    forall i | 0 <= i < n + 1 ensures RawOk(img, AlmostStaticRaws(n)[i], false) {
      if i < n { Placed(img, Pages(n), PagesAt(n), i); }
    }
  }

  lemma AlmostStaticAccepted(n: nat)
    requires 1 <= n <= 15
    ensures Accepted(AlmostStatic(n)) && ExtrasIn(AlmostStatic(n)) == NONE_EXTRA
    ensures ReadHead(AlmostStatic(n)).etype == EXEC && |SegmentsOf(AlmostStatic(n))| == n
  {
    hide LoadsOf, Kind, LoadRaws, OutLoads, RawsOf, Sort, At, Data, HeadOk, PageSum, Readable, BlobsOf, LoadsOk, Pages,
      AlmostStatic, Static;
    AlmostStaticReads(n);
    AlmostStaticKinds(n);
    AlmostStaticSegments(n);
    AlmostStaticReadable(n);
    PagesLayout(SegmentsOf(AlmostStatic(n)));
    OnePageEach(Pages(n));
    ReadableBacked(AlmostStatic(n));
  }

  lemma PagesLayout(segs: seq<Load>)
    requires 1 <= |segs| <= 15
    requires forall i :: 0 <= i < |segs| ==> segs[i] == Load(0x1000000 + i * PAGE, segs[i].poff, 1, 1, 5)
    ensures LoadsOk(segs, EXEC, 0x1000000)
  {
    forall i | 0 <= i < |segs| ensures FirstPage(segs[i]) == LastPage(segs[i]) == 0x1000 + i {}
    assert segs[0].vaddr <= 0x1000000 < segs[0].vaddr + segs[0].memsz;
  }

  /** Such a file of nine to fifteen segments is accepted, and its output is refused. */
  lemma NotAlwaysAccepted(n: nat)
    requires 9 <= n <= 15
    ensures Accepted(AlmostStatic(n)) && Repacked(Repacked(AlmostStatic(n)).value) == None
  {
    hide Accepted, AlmostStatic, Output, SegmentsOf, BlobsOf, ExtrasIn;
    AlmostStaticAccepted(n);
    AcceptedAgain(AlmostStatic(n), Repacked(AlmostStatic(n)).value);
  }
}
