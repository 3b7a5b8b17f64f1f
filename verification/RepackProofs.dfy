/** The repackager's output read back: same program, accepted again, and when unchanged. */
module RepackProofs {
  import opened Options
  import opened Arithmetic
  import opened ByteStrings
  import opened Elf
  import opened Segments
  import opened Repack
  import Dynamic

  // ---- where the parts of the output are ----

  function DataStart(bs: seq<Blob>, x: Extras): nat { 64 + 56 * Count(bs, x) }

  ghost predicate Parts(out: Bytes, etype: nat, entry: nat, bs: seq<Blob>, x: Extras) {
    var off := DataStart(bs, x);
    var end := off + DataLength(bs);
    && At(out, 0, Ehdr(etype, entry, Count(bs, x))) && At(out, 64, Table(OutRaws(bs, x)))
    && At(out, off, Data(bs)) && At(out, end, InterpData(x)) && At(out, end + |InterpData(x)|, DynData(x))
    && |out| == end + |InterpData(x)| + |DynData(x)|
  }

  lemma OutputParts(etype: nat, entry: nat, bs: seq<Blob>, x: Extras)
    ensures Parts(Output(etype, entry, bs, x), etype, entry, bs, x)
  {
    hide At, OutRaws, Table, Data, InterpData, DynData, Count;
    var out := Output(etype, entry, bs, x);
    var e, t, d, i, y := Ehdr(etype, entry, Count(bs, x)), Table(OutRaws(bs, x)), Data(bs), InterpData(x), DynData(x);
    EhdrLength(etype, entry, Count(bs, x));
    OutRawsLength(bs, x);
    AtWhole(out);
    AtSplit(out, 0, e + t + d + i, y);
    AtSplit(out, 0, e + t + d, i);
    AtSplit(out, 0, e + t, d);
    AtSplit(out, 0, e, t);
  }

  lemma OutRawsLength(bs: seq<Blob>, x: Extras)
    ensures |OutRaws(bs, x)| == Count(bs, x)
  {}

  lemma EhdrLength(etype: nat, entry: nat, n: nat)
    ensures |Ehdr(etype, entry, n)| == 64
  {}

  // ---- segments in the output ----

  function OutLoads(bs: seq<Blob>, off: nat): (ls: seq<Load>)
    ensures |ls| == |bs|
  {
    if bs == [] then []
    else [Load(bs[0].vaddr, off, |bs[0].data|, |bs[0].data|, bs[0].flags)] + OutLoads(bs[1..], off + |bs[0].data|)
  }

  lemma {:induction false} Placed(out: Bytes, bs: seq<Blob>, off: nat, i: nat)
    requires At(out, off, Data(bs)) && i < |bs|
    ensures var l, n := OutLoads(bs, off)[i], |bs[i].data|;
            && l == Load(bs[i].vaddr, l.poff, n, n, bs[i].flags)
            && off <= l.poff && l.poff + n <= off + DataLength(bs) <= |out| && At(out, l.poff, bs[i].data)
            && (i + 1 < |bs| ==> OutLoads(bs, off)[i + 1].poff == l.poff + n)
            && LoadRaws(bs, off)[i] == Raw(LOAD, l.flags, l.poff, l.vaddr, n, n, 0)
    decreases i
  {
    hide At;
    AtSplit(out, off, bs[0].data, Data(bs[1..]));
    AtFits(out, off, Data(bs));
    if i > 0 {
      Placed(out, bs[1..], off + |bs[0].data|, i - 1);
    } else if |bs| > 1 {
      assert bs[1..][0] == bs[1];
    }
  }

  /** The segment headers are loads, and nothing else is. */
  lemma {:induction false} LoadsOfOut(bs: seq<Blob>, off: nat)
    ensures LoadsOf(LoadRaws(bs, off)) == OutLoads(bs, off)
    decreases bs
  {
    if bs != [] {
      assert LoadRaws(bs, off)[1..] == LoadRaws(bs[1..], off + |bs[0].data|);
      LoadsOfOut(bs[1..], off + |bs[0].data|);
    }
  }

  lemma {:induction false} KindOfOut(bs: seq<Blob>, off: nat, k: nat)
    requires k != LOAD
    ensures Kind(LoadRaws(bs, off), k) == []
    decreases bs
  {
    if bs != [] {
      assert LoadRaws(bs, off)[1..] == LoadRaws(bs[1..], off + |bs[0].data|);
      KindOfOut(bs[1..], off + |bs[0].data|, k);
    }
  }

  lemma LoadsOfAll(bs: seq<Blob>, off: nat, rest: seq<Raw>)
    requires LoadsOf(rest) == []
    ensures LoadsOf(LoadRaws(bs, off) + rest) == OutLoads(bs, off)
  {
    hide LoadsOf, LoadRaws, OutLoads;
    LoadsOfOut(bs, off);
    LoadsConcat(LoadRaws(bs, off), rest);
  }

  lemma KindOfAll(bs: seq<Blob>, off: nat, rest: seq<Raw>, k: nat)
    requires k != LOAD
    ensures Kind(LoadRaws(bs, off) + rest, k) == Kind(rest, k)
  {
    hide Kind, LoadRaws;
    KindOfOut(bs, off, k);
    KindConcat(LoadRaws(bs, off), rest, k);
  }

  lemma RawsSorted(bs: seq<Blob>, x: Extras)
    ensures var off := DataStart(bs, x); var end := off + DataLength(bs);
            && LoadsOf(OutRaws(bs, x)) == OutLoads(bs, off)
            && Kind(OutRaws(bs, x), INTERP) == InterpRaws(x, end)
            && Kind(OutRaws(bs, x), DYNAMIC) == DynRaws(x, end + |InterpData(x)|)
            && Kind(OutRaws(bs, x), RELRO) == RelroRaws(x)
            && Kind(OutRaws(bs, x), TLS) == []
  {
    hide Kind, LoadsOf, LoadRaws, OutLoads, OutRaws, DataLength, DataStart, InterpData, Count, InterpRaws, DynRaws,
      RelroRaws;
    var off := DataStart(bs, x);
    var end := off + DataLength(bs);
    OutRawsSplit(bs, x);
    SplitLoads(bs, x, off, end, end + |InterpData(x)|, OutRaws(bs, x));
    SplitKinds(bs, x, off, end, end + |InterpData(x)|, OutRaws(bs, x));
  }

  lemma SplitLoads(bs: seq<Blob>, x: Extras, off: nat, p: nat, q: nat, raws: seq<Raw>)
    requires raws == LoadRaws(bs, off) + (InterpRaws(x, p) + DynRaws(x, q) + RelroRaws(x))
    ensures LoadsOf(raws) == OutLoads(bs, off)
  {
    hide Kind, LoadsOf, LoadRaws, OutLoads, InterpRaws, DynRaws, RelroRaws;
    ExtraKinds(x, p, q);
    Few(InterpRaws(x, p), DynRaws(x, q), RelroRaws(x));
    LoadsOfAll(bs, off, InterpRaws(x, p) + DynRaws(x, q) + RelroRaws(x));
  }

  lemma SplitKinds(bs: seq<Blob>, x: Extras, off: nat, p: nat, q: nat, raws: seq<Raw>)
    requires raws == LoadRaws(bs, off) + (InterpRaws(x, p) + DynRaws(x, q) + RelroRaws(x))
    ensures Kind(raws, INTERP) == InterpRaws(x, p) && Kind(raws, DYNAMIC) == DynRaws(x, q)
    ensures Kind(raws, RELRO) == RelroRaws(x) && Kind(raws, TLS) == []
  {
    hide Kind, LoadsOf, LoadRaws, InterpRaws, DynRaws, RelroRaws;
    ExtraKinds(x, p, q);
    var a, b, c := InterpRaws(x, p), DynRaws(x, q), RelroRaws(x);
    KindOfAll(bs, off, a + b + c, INTERP);
    KindThree(a, b, c, INTERP);
    KindOfAll(bs, off, a + b + c, DYNAMIC);
    KindThree(a, b, c, DYNAMIC);
    KindOfAll(bs, off, a + b + c, RELRO);
    KindThree(a, b, c, RELRO);
    KindOfAll(bs, off, a + b + c, TLS);
    KindThree(a, b, c, TLS);
  }

  lemma OutRawsSplit(bs: seq<Blob>, x: Extras)
    ensures var off := DataStart(bs, x); var end := off + DataLength(bs);
            OutRaws(bs, x) == LoadRaws(bs, off)
              + (InterpRaws(x, end) + DynRaws(x, end + |InterpData(x)|) + RelroRaws(x))
  {
    hide LoadRaws, DataLength;
  }

  lemma ExtraKinds(x: Extras, p: nat, q: nat)
    ensures forall r :: r in InterpRaws(x, p) ==> r.ptype == INTERP
    ensures forall r :: r in DynRaws(x, q) ==> r.ptype == DYNAMIC
    ensures forall r :: r in RelroRaws(x) ==> r.ptype == RELRO
    ensures |InterpRaws(x, p)| <= 1 && |DynRaws(x, q)| <= 1 && |RelroRaws(x)| <= 1
  {}

  lemma Few(a: seq<Raw>, b: seq<Raw>, c: seq<Raw>)
    requires |a| <= 1 && |b| <= 1 && |c| <= 1
    requires (forall r :: r in a ==> r.ptype == INTERP) && (forall r :: r in b ==> r.ptype == DYNAMIC)
             && forall r :: r in c ==> r.ptype == RELRO
    ensures LoadsOf(a + b + c) == []
  {
    hide Kind, LoadsOf;
    KindThree(a, b, c, TLS);
    LoadsConcat(a + b, c);
    LoadsConcat(a, b);
  }

  lemma KindThree(a: seq<Raw>, b: seq<Raw>, c: seq<Raw>, k: nat)
    requires |a| <= 1 && |b| <= 1 && |c| <= 1
    requires (forall r :: r in a ==> r.ptype == INTERP) && (forall r :: r in b ==> r.ptype == DYNAMIC)
             && forall r :: r in c ==> r.ptype == RELRO
    ensures Kind(a + b + c, k) == (if k == INTERP then a else if k == DYNAMIC then b else if k == RELRO then c else [])
    ensures LoadsOf(a) == LoadsOf(b) == LoadsOf(c) == []
  {
    hide Kind, LoadsOf;
    KindConcat(a + b, c, k);
    KindConcat(a, b, k);
    KindOne(a, INTERP, k);
    KindOne(b, DYNAMIC, k);
    KindOne(c, RELRO, k);
  }

  lemma KindOne(a: seq<Raw>, t: nat, k: nat)
    requires |a| <= 1 && t != LOAD && forall r :: r in a ==> r.ptype == t
    ensures Kind(a, k) == (if k == t then a else []) && LoadsOf(a) == []
  {
    if a != [] { assert a[1..] == [] && a == [a[0]] && a[0] in a; }
  }

  lemma {:induction false} KindConcat(a: seq<Raw>, b: seq<Raw>, k: nat)
    ensures Kind(a + b, k) == Kind(a, k) + Kind(b, k)
  {
    hide OneKind;
    if a == [] {
      assert a + b == b && Kind(a, k) == [];
    } else {
      assert (a + b)[1..] == a[1..] + b && (a + b)[0] == a[0];
      KindConcat(a[1..], b, k);
      FirstKind(a, k);
      FirstKind(a + b, k);
      hide Kind;
      Associates(OneKind(a[0], k), Kind(a[1..], k), Kind(b, k));
    }
  }

  lemma FirstKind(a: seq<Raw>, k: nat)
    requires a != []
    ensures Kind(a, k) == OneKind(a[0], k) + Kind(a[1..], k)
  {}

  lemma {:induction false} LoadsConcat(a: seq<Raw>, b: seq<Raw>)
    ensures LoadsOf(a + b) == LoadsOf(a) + LoadsOf(b)
  {
    hide OneLoad;
    if a == [] {
      assert a + b == b && LoadsOf(a) == [];
    } else {
      assert (a + b)[1..] == a[1..] + b && (a + b)[0] == a[0];
      LoadsConcat(a[1..], b);
      FirstLoad(a);
      FirstLoad(a + b);
      hide LoadsOf;
      Associates(OneLoad(a[0]), LoadsOf(a[1..]), LoadsOf(b));
    }
  }

  lemma {:induction false} KindNone(raws: seq<Raw>, k: nat)
    ensures Kind(raws, k) == [] <==> forall i :: 0 <= i < |raws| ==> raws[i].ptype != k
  {
    if raws != [] {
      KindNone(raws[1..], k);
      FirstKind(raws, k);
      hide Kind;
      if forall i :: 0 <= i < |raws| ==> raws[i].ptype != k {
        forall i | 0 <= i < |raws[1..]| ensures raws[1..][i].ptype != k { assert raws[1..][i] == raws[i + 1]; }
      } else {
        var i :| 0 <= i < |raws| && raws[i].ptype == k;
        if i > 0 { assert raws[1..][i - 1].ptype == k; }
      }
    }
  }

  lemma FirstLoad(a: seq<Raw>)
    requires a != []
    ensures LoadsOf(a) == OneLoad(a[0]) + LoadsOf(a[1..])
  {}

  // ---- sizes ----

  /** What an accepted file's segments and extras fit into. */
  ghost predicate Small(bs: seq<Blob>, x: Extras) {
    && (forall i :: 0 <= i < |bs| ==> bs[i].flags < Pow256(4) && bs[i].vaddr < 0x1_0000_0000)
    && PageSum(bs) <= MAX_PAGES && Count(bs, x) <= MAX_PHNUM
    && (x.interp.Some? ==> InterpOk(x.interp.value))
    && (x.dyn.Some? ==> |x.dyn.value.1| <= 1024 && x.dyn.value.0 < Pow256(8))
    && (x.relro.Some? ==> 0 < x.relro.value.1 < Pow256(8) && x.relro.value.0 < Pow256(8))
  }

  lemma SmallOutput(out: Bytes, etype: nat, entry: nat, bs: seq<Blob>, x: Extras)
    requires Parts(out, etype, entry, bs, x) && Small(bs, x) && etype in {EXEC, DYN} && entry < Pow256(8)
    ensures HeadOk(out) && ReadHead(out) == Head(true, 183, etype, entry, 64, 56, Count(bs, x))
    ensures RawsOf(out) == OutRaws(bs, x)
  {
    hide At, ReadTable, Ehdr, Table, Data, DataLength, PageSum, Read, Pow256;
    Widths();
    PagesBoundBytes(bs);
    var n := Count(bs, x);
    EhdrReads(out, etype, entry, n);
    forall i | 0 <= i < n ensures OutRaws(bs, x)[i].Fits() { OutFits(out, bs, x, i); }
    TableReads(out, 64, OutRaws(bs, x));
  }

  lemma OutFits(out: Bytes, bs: seq<Blob>, x: Extras, i: nat)
    requires Small(bs, x) && i < Count(bs, x) && At(out, DataStart(bs, x), Data(bs))
    ensures OutRaws(bs, x)[i].Fits()
  {
    hide At, DataLength, PageSum, Pow256;
    Widths();
    PagesBoundBytes(bs);
    if i < |bs| { Placed(out, bs, DataStart(bs, x), i); }
  }

  lemma {:induction false} KindMembers(raws: seq<Raw>, k: nat)
    ensures forall r :: r in Kind(raws, k) ==> r in raws
  {
    if raws != [] {
      KindMembers(raws[1..], k);
      assert raws == [raws[0]] + raws[1..];
    }
  }

  /** A segment comes from one of the file's headers. */
  lemma SegmentRaw(img: Bytes, i: nat) returns (j: nat)
    requires HeadOk(img) && i < |SegmentsOf(img)|
    ensures j < |RawsOf(img)| && RawsOf(img)[j].ptype == LOAD && LoadOf(RawsOf(img)[j]) == SegmentsOf(img)[i]
  {
    hide RawsOf, LoadsOf, Sort;
    var raws, l := RawsOf(img), SegmentsOf(img)[i];
    SortMembers(LoadsOf(raws));
    assert l in SegmentsOf(img);
    LoadsMembers(raws, l);
    j :| 0 <= j < |raws| && raws[j].ptype == LOAD && LoadOf(raws[j]) == l;
  }

  lemma RawsFit(img: Bytes)
    requires HeadOk(img)
    ensures forall i :: 0 <= i < |RawsOf(img)| ==> RawsOf(img)[i].Fits()
  {}

  lemma AcceptedSmall(img: Bytes)
    requires Accepted(img)
    ensures Small(BlobsOf(img), ExtrasIn(img)) && ReadHead(img).etype in {EXEC, DYN} && ReadHead(img).entry < Pow256(8)
  {
    hide RawsOf, LoadsOf, Sort, Kind, PageSum, Pow256, Dynamic.Scan, Dynamic.AcceptsTags, LaidOut;
    var bs := BlobsOf(img);
    RawsFit(img);
    Widths();
    forall i | 0 <= i < |bs| ensures bs[i].flags < Pow256(4) && bs[i].vaddr < 0x1_0000_0000 {
      ReadableBacked(img);
      var j := SegmentRaw(img, i);
      assert RawsOf(img)[j].Fits();
    }
    if !Static(img) { ExtrasSmall(img); }
  }

  lemma ExtrasSmall(img: Bytes)
    requires Accepted(img) && !Static(img)
    ensures var x := ExtrasIn(img);
            && (x.interp.Some? ==> InterpOk(x.interp.value))
            && (x.dyn.Some? ==> |x.dyn.value.1| <= 1024 && x.dyn.value.0 < Pow256(8))
            && (x.relro.Some? ==> 0 < x.relro.value.1 < Pow256(8) && x.relro.value.0 < Pow256(8))
  {
    hide RawsOf, LoadsOf, Sort, Kind, PageSum, Pow256, Dynamic.Scan, Dynamic.AcceptsTags, LaidOut, VaInSegment;
    var raws := RawsOf(img);
    RawsFit(img);
    KindMembers(raws, DYNAMIC);
    KindMembers(raws, RELRO);
    var dyns, relros := Kind(raws, DYNAMIC), Kind(raws, RELRO);
    if dyns != [] { assert dyns[0] in raws; }
    if relros != [] { assert relros[0] in raws; }
  }

  // ---- the image ----

  ghost predicate BlobMaps(d: Blob, va: nat, b: Byte, f: nat) {
    d.flags == f && d.vaddr <= va < d.vaddr + |d.data| && d.data[va - d.vaddr] == b
  }

  ghost predicate Image(bs: seq<Blob>, va: nat, b: Byte, f: nat) { exists d :: d in bs && BlobMaps(d, va, b, f) }

  /** A header maps what its blob holds. */
  lemma RawBlob(img: Bytes, r: Raw, va: nat, b: Byte, f: nat)
    requires r.ptype == LOAD && r.filesz <= r.memsz && r.poff + r.filesz <= |img|
    ensures RawMaps(img, r, va, b, f) <==> BlobMaps(BlobOf(img, LoadOf(r)), va, b, f)
  {
    var d := BlobOf(img, LoadOf(r)).data;
    if r.vaddr <= va < r.vaddr + r.memsz {
      var k := va - r.vaddr;
      if k < r.filesz { assert d[k] == img[r.poff..r.poff + r.filesz][k]; } else { assert d[k] == 0; }
    }
  }

  /** A file's memory image is that of its segments. */
  lemma ImageOfBlobs(img: Bytes, va: nat, b: Byte, f: nat)
    requires Readable(img)
    ensures MapsTo(img, RawsOf(img), va, b, f) <==> Image(BlobsOf(img), va, b, f)
  {
    hide RawsOf, LoadsOf, Sort, RawMaps, BlobMaps, Kind;
    var raws, segs, bs := RawsOf(img), SegmentsOf(img), BlobsOf(img);
    ReadableBacked(img);
    if MapsTo(img, raws, va, b, f) {
      var j :| 0 <= j < |raws| && RawMaps(img, raws[j], va, b, f);
      IsLoad(img, raws[j], va, b, f);
      assert RawOk(img, raws[j], Static(img));
      RawBlob(img, raws[j], va, b, f);
      LoadsMembers(raws, LoadOf(raws[j]));
      SortMembers(LoadsOf(raws));
      assert LoadOf(raws[j]) in segs;
      var i :| 0 <= i < |segs| && segs[i] == LoadOf(raws[j]);
      assert bs[i] in bs && BlobMaps(bs[i], va, b, f);
    }
    if Image(bs, va, b, f) {
      var d :| d in bs && BlobMaps(d, va, b, f);
      var i :| 0 <= i < |bs| && bs[i] == d;
      var j := SegmentRaw(img, i);
      assert RawOk(img, raws[j], Static(img));
      RawBlob(img, raws[j], va, b, f);
    }
  }

  lemma IsLoad(img: Bytes, r: Raw, va: nat, b: Byte, f: nat)
    requires RawMaps(img, r, va, b, f)
    ensures r.ptype == LOAD
  {}

  // ---- the output is readable ----

  lemma OutBacked(out: Bytes, bs: seq<Blob>, off: nat)
    requires At(out, off, Data(bs))
    ensures Backed(out, OutLoads(bs, off)) && Blobs(out, OutLoads(bs, off)) == bs
  {
    hide At;
    var ls := OutLoads(bs, off);
    forall i | 0 <= i < |bs|
      ensures ls[i].filesz <= ls[i].memsz && ls[i].poff + ls[i].filesz <= |out| && BlobOf(out, ls[i]) == bs[i] {
      Placed(out, bs, off, i);
      AtBytes(out, ls[i].poff, bs[i].data);
      assert out[ls[i].poff..ls[i].poff + ls[i].filesz] + seq(0, _ => 0) == bs[i].data;
    }
  }

  /** An accepted file and what is written for it. */
  ghost predicate Rewritten(img: Bytes, out: Bytes) { Accepted(img) && Repacked(img) == Some(out) }

  lemma OutputRead(img: Bytes, out: Bytes)
    requires Rewritten(img, out)
    ensures var bs, x := BlobsOf(img), ExtrasIn(img); var h := ReadHead(img);
            && Parts(out, h.etype, h.entry, bs, x) && Small(bs, x)
            && HeadOk(out) && ReadHead(out) == Head(true, 183, h.etype, h.entry, 64, 56, Count(bs, x))
            && RawsOf(out) == OutRaws(bs, x) && SegmentsOf(out) == Sort(OutLoads(bs, DataStart(bs, x)))
  {
    hide Small, Output, Parts, OutRaws, RawsOf, BlobsOf, ExtrasIn, Sort, LoadsOf, OutLoads, Kind, LoadsOk, PageSum,
      ExtrasOf;
    var bs, x, h := BlobsOf(img), ExtrasIn(img), ReadHead(img);
    AcceptedSmall(img);
    OutputParts(h.etype, h.entry, bs, x);
    SmallOutput(out, h.etype, h.entry, bs, x);
    RawsSorted(bs, x);
  }

  lemma OutReadable(img: Bytes, out: Bytes)
    requires Rewritten(img, out)
    ensures Readable(out)
  {
    hide Rewritten, Output, OutRaws, RawsOf, HeadOk, BlobsOf, ExtrasIn, Sort, LoadsOf, OutLoads, Kind, Accepted,
      ExtrasOf, PageSum, At, Readable;
    Known(img, out);
    OutputRead(img, out);
    var bs, x := BlobsOf(img), ExtrasIn(img);
    RawsSorted(bs, x);
    forall i | 0 <= i < |RawsOf(out)|
      ensures RawOk(out, RawsOf(out)[i], Static(out)) { OutRawOk(out, bs, x, i, Static(out)); }
    MakeReadable(out);
  }

  lemma Known(img: Bytes, out: Bytes)
    requires Rewritten(img, out)
    ensures Accepted(img) && Readable(img) && HeadOk(img) && |img| >= 64
  {}

  lemma MakeReadable(out: Bytes)
    requires HeadOk(out) && Kind(RawsOf(out), TLS) == []
    requires forall i :: 0 <= i < |RawsOf(out)| ==> RawOk(out, RawsOf(out)[i], Static(out))
    ensures Readable(out)
  {}

  lemma OutRawOk(out: Bytes, bs: seq<Blob>, x: Extras, i: nat, isStatic: bool)
    requires Small(bs, x) && i < Count(bs, x) && At(out, DataStart(bs, x), Data(bs))
    ensures RawOk(out, OutRaws(bs, x)[i], isStatic)
  {
    hide At, DataLength, PageSum, Pow256;
    PagesBoundBytes(bs);
    if i < |bs| { Placed(out, bs, DataStart(bs, x), i); }
  }

  lemma BlobMembers(out: Bytes, ls: seq<Load>)
    requires Backed(out, ls)
    ensures Backed(out, Sort(ls)) && forall d :: d in Blobs(out, Sort(ls)) <==> d in Blobs(out, ls)
  {
    hide Sort, BlobOf;
    SortMembers(ls);
    var ss := Sort(ls);
    forall i | 0 <= i < |ss| ensures ss[i] in ls { assert ss[i] in ss; }
    forall i | 0 <= i < |ls| ensures ls[i] in ss { assert ls[i] in ls; }
    forall d | d in Blobs(out, ss) ensures d in Blobs(out, ls) {
      var i :| 0 <= i < |ss| && BlobOf(out, ss[i]) == d;
      var j :| 0 <= j < |ls| && ls[j] == ss[i];
      assert Blobs(out, ls)[j] == d;
    }
    forall d | d in Blobs(out, ls) ensures d in Blobs(out, ss) {
      var j :| 0 <= j < |ls| && BlobOf(out, ls[j]) == d;
      var i :| 0 <= i < |ss| && ss[i] == ls[j];
      assert Blobs(out, ss)[i] == d;
    }
  }

  /** The output loads the same program: the same byte with the same permissions at every
      address, BSS included, and the same entry point. */
  lemma SameImage(img: Bytes, out: Bytes, va: nat, b: Byte, f: nat)
    requires Rewritten(img, out)
    ensures HeadOk(img) && HeadOk(out) && ReadHead(out).entry == ReadHead(img).entry
            && ReadHead(out).etype == ReadHead(img).etype
    ensures MapsTo(out, RawsOf(out), va, b, f) <==> MapsTo(img, RawsOf(img), va, b, f)
  {
    hide Rewritten, Output, OutRaws, RawsOf, HeadOk, ExtrasIn, Sort, OutLoads, Accepted, At, Readable, MapsTo,
      BlobMaps, Backed;
    Known(img, out);
    OutReadable(img, out);
    OutputRead(img, out);
    var bs := BlobsOf(img);
    OutBacked(out, bs, DataStart(bs, ExtrasIn(img)));
    BlobMembers(out, OutLoads(bs, DataStart(bs, ExtrasIn(img))));
    ImageOfBlobs(img, va, b, f);
    ImageOfBlobs(out, va, b, f);
  }
}
