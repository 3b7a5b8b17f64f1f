/** Repackaging twice: the output is accepted again, and exactly when it is a fixed point. */
module RepackAgain {
  import opened Options
  import opened ByteStrings
  import opened Elf
  import opened Segments
  import opened Repack
  import opened RepackProofs
  import Dynamic

  // ---- sorting segments that are sorted but for their flags ----

  predicate Alike(a: Load, b: Load) { a.(flags := 0) == b.(flags := 0) }

  ghost predicate Nearly(s: seq<Load>) { forall i :: 0 <= i < |s| - 1 ==> Le(s[i].(flags := 0), s[i + 1].(flags := 0)) }

  ghost predicate AllAlike(s: seq<Load>, t: seq<Load>) { |s| == |t| && forall i :: 0 <= i < |s| ==> Alike(s[i], t[i]) }

  lemma {:induction false} InsertNearly(x: Load, s: seq<Load>)
    requires Nearly(s) && (s != [] ==> Le(x.(flags := 0), s[0].(flags := 0)))
    ensures AllAlike(Insert(x, s), [x] + s)
  {
    if s != [] && !Le(x, s[0]) {
      assert Alike(x, s[0]);
      forall i | 0 <= i < |s[1..]| - 1 ensures Le(s[1..][i].(flags := 0), s[1..][i + 1].(flags := 0)) {
        assert Le(s[i + 1].(flags := 0), s[i + 2].(flags := 0));
      }
      assert |s| > 1 ==> Le(s[0].(flags := 0), s[0 + 1].(flags := 0));
      InsertNearly(x, s[1..]);
      var r := Insert(x, s[1..]);
      forall i | 0 <= i < |s| + 1 ensures Alike(Insert(x, s)[i], ([x] + s)[i]) {
        if i > 0 { assert Alike(r[i - 1], ([x] + s[1..])[i - 1]); }
      }
    }
  }

  /** Sorting moves a segment only past segments that differ from it in nothing but flags. */
  lemma {:induction false} SortNearly(s: seq<Load>)
    requires Nearly(s)
    ensures AllAlike(Sort(s), s)
  {
    if s != [] {
      var t := s[1..];
      forall i | 0 <= i < |t| - 1 ensures Le(t[i].(flags := 0), t[i + 1].(flags := 0)) {
        assert Le(s[i + 1].(flags := 0), s[i + 2].(flags := 0));
      }
      SortNearly(t);
      forall i | 0 <= i < |t| - 1 ensures Le(Sort(t)[i].(flags := 0), Sort(t)[i + 1].(flags := 0)) {
        assert Alike(Sort(t)[i], t[i]) && Alike(Sort(t)[i + 1], t[i + 1]);
        assert Le(s[i + 1].(flags := 0), s[i + 2].(flags := 0));
      }
      if t != [] {
        assert Alike(Sort(t)[0], t[0]);
        assert Le(s[0].(flags := 0), s[0 + 1].(flags := 0));
      }
      InsertNearly(s[0], Sort(t));
      forall i | 0 <= i < |s| ensures Alike(Sort(s)[i], s[i]) {
        if i > 0 { assert Alike(Sort(t)[i - 1], t[i - 1]); }
        assert Alike(Sort(s)[i], ([s[0]] + Sort(t))[i]);
      }
    }
  }

  // ---- order in the output ----

  /** Neighbours without bytes at one address have their flags in order. */
  ghost predicate TiesOrdered(segs: seq<Load>) {
    forall i :: 0 <= i < |segs| - 1 ==> TieOrdered(segs[i], segs[i + 1])
  }

  predicate TieOrdered(a: Load, b: Load) { a.vaddr == b.vaddr && a.memsz == 0 && b.memsz == 0 ==> a.flags <= b.flags }

  /** A file's sorted segments and the segments of its output, position by position. */
  ghost predicate Matches(segs: seq<Load>, ls: seq<Load>) {
    && |segs| == |ls|
    && (forall i :: 0 <= i < |ls| ==>
        ls[i] == Load(segs[i].vaddr, ls[i].poff, segs[i].memsz, segs[i].memsz, segs[i].flags))
    && (forall i :: 0 <= i < |ls| - 1 ==> ls[i + 1].poff == ls[i].poff + ls[i].memsz)
  }

  lemma MatchesOut(img: Bytes, out: Bytes)
    requires Rewritten(img, out)
    ensures HeadOk(img) && HeadOk(out) && Readable(img)
    ensures var bs, off := BlobsOf(img), DataStart(BlobsOf(img), ExtrasIn(img));
            && Matches(SegmentsOf(img), OutLoads(bs, off)) && SegmentsOf(out) == Sort(OutLoads(bs, off))
            && Backed(out, OutLoads(bs, off)) && Blobs(out, OutLoads(bs, off)) == bs
  {
    hide Rewritten, RawsOf, HeadOk, Sort, OutLoads, Accepted, At, Readable, ExtrasIn, Output, Matches;
    Known(img, out);
    OutputRead(img, out);
    ReadableBacked(img);
    var bs, off := BlobsOf(img), DataStart(BlobsOf(img), ExtrasIn(img));
    OutBacked(out, bs, off);
    MatchesPlaced(img, out, SegmentsOf(img), off);
  }

  lemma MatchesPlaced(img: Bytes, out: Bytes, segs: seq<Load>, off: nat)
    requires Backed(img, segs) && At(out, off, Data(Blobs(img, segs)))
    ensures Matches(segs, OutLoads(Blobs(img, segs), off))
  {
    hide At, OutLoads, LoadRaws;
    var bs := Blobs(img, segs);
    var ls := OutLoads(bs, off);
    forall i | 0 <= i < |bs|
      ensures ls[i] == Load(segs[i].vaddr, ls[i].poff, segs[i].memsz, segs[i].memsz, segs[i].flags)
      ensures i + 1 < |bs| ==> ls[i + 1].poff == ls[i].poff + ls[i].memsz
    {
      Placed(out, bs, off, i);
    }
  }

  lemma OutOrder(segs: seq<Load>, ls: seq<Load>)
    requires Matches(segs, ls) && Sorted(segs)
    ensures Nearly(ls) && (Sorted(ls) <==> TiesOrdered(segs))
  {
    forall i | 0 <= i < |ls| - 1
      ensures Le(ls[i].(flags := 0), ls[i + 1].(flags := 0))
      ensures Le(ls[i], ls[i + 1]) <==> TieOrdered(segs[i], segs[i + 1])
    {
      assert Le(segs[i], segs[i + 1]);
      assert ls[i + 1].poff == ls[i].poff + ls[i].memsz;
    }
    OrderIff(segs, ls);
  }

  lemma OrderIff(segs: seq<Load>, ls: seq<Load>)
    requires |segs| == |ls|
    requires forall i :: 0 <= i < |ls| - 1 ==> (Le(ls[i], ls[i + 1]) <==> TieOrdered(segs[i], segs[i + 1]))
    ensures Sorted(ls) <==> TiesOrdered(segs)
  {
    hide Le;
  }

  // ---- the same checks pass ----

  ghost predicate SameExtent(s: seq<Load>, t: seq<Load>) {
    |s| == |t| && forall i :: 0 <= i < |s| ==> s[i].vaddr == t[i].vaddr && s[i].memsz == t[i].memsz
  }

  lemma LoadsOkAgain(s: seq<Load>, t: seq<Load>, etype: nat, entry: nat)
    requires SameExtent(s, t) && LoadsOk(s, etype, entry)
    ensures LoadsOk(t, etype, entry)
  {
    forall i, j | 0 <= i < j < |t| ensures !(FirstPage(t[i]) <= LastPage(t[j]) && FirstPage(t[j]) <= LastPage(t[i])) {
      assert FirstPage(t[i]) == FirstPage(s[i]) && FirstPage(t[j]) == FirstPage(s[j]);
      assert LastPage(t[i]) == LastPage(s[i]) && LastPage(t[j]) == LastPage(s[j]);
    }
    forall i | 0 <= i < |t| ensures !(FirstPage(t[i]) <= STACK_PAGE / PAGE <= LastPage(t[i])) && InWindow(t[i], etype) {
      assert FirstPage(t[i]) == FirstPage(s[i]) && LastPage(t[i]) == LastPage(s[i]) && InWindow(s[i], etype);
    }
    var i :| 0 <= i < |s| && s[i].vaddr <= entry < s[i].vaddr + s[i].memsz;
    assert t[i].vaddr <= entry < t[i].vaddr + t[i].memsz;
  }

  lemma {:induction false} PageSumSame(a: seq<Blob>, b: seq<Blob>)
    requires |a| == |b| && forall i :: 0 <= i < |a| ==> |a[i].data| == |b[i].data|
    ensures PageSum(a) == PageSum(b)
  {
    if a != [] { PageSumSame(a[1..], b[1..]); }
  }

  // ---- addresses in the output ----

  /** One segment's bytes lie in the output at its new place. */
  lemma Moved(img: Bytes, out: Bytes, l: Load, l': Load, va: nat, n: nat)
    requires l.filesz <= l.memsz && l.poff + l.filesz <= |img|
    requires l'.filesz == l'.memsz == l.memsz && l'.vaddr == l.vaddr && l'.poff + l'.filesz <= |out|
    requires BlobOf(out, l').data == BlobOf(img, l).data
    requires l.vaddr <= va && va - l.vaddr + n <= l.filesz
    ensures var k := va - l.vaddr; out[l'.poff + k..l'.poff + k + n] == img[l.poff + k..l.poff + k + n]
  {
    var k, a, b := va - l.vaddr, img[l.poff..l.poff + l.filesz], out[l'.poff..l'.poff + l'.filesz];
    assert b + seq(0, _ => 0) == b;
    SliceSlice(img, l.poff, l.filesz, k, n);
    SliceSlice(out, l'.poff, l'.filesz, k, n);
    SliceConcat(a, seq(l.memsz - l.filesz, _ => 0), k, n);
  }

  lemma ViewAgain(img: Bytes, segs: seq<Load>, out: Bytes, ls: seq<Load>, ss: seq<Load>, va: nat, n: nat)
    requires Backed(img, segs) && Backed(out, ls) && Backed(out, ss) && LaidOut(segs) && Matches(segs, ls)
             && AllAlike(ss, ls)
    requires Blobs(out, ls) == Blobs(img, segs) && View(img, segs, va, n).Some?
    ensures View(out, ss, va, n) == View(img, segs, va, n)
  {
    hide LaidOut, BlobOf, VaToFile, Matches, AllAlike, Blobs;
    FoundIn(segs, va, n);
    var off := VaToFile(segs, va, n).value;
    var i :| 0 <= i < |segs| && Backs(segs[i], va, n) && off == segs[i].poff + (va - segs[i].vaddr);
    FoundIn(ss, va, n);
    SameSpot(segs, ls, ss, i);
    var off' := VaToFile(ss, va, n).value;
    if n > 0 {
      var j :| 0 <= j < |ss| && Backs(ss[j], va, n) && off' == ss[j].poff + (va - ss[j].vaddr);
      SameSpot(segs, ls, ss, j);
      SamePlace(img, segs, out, ls, va, n, i, j);
    } else {
      assert img[off..off + n] == [] && out[off'..off' + n] == [];
    }
  }

  lemma SameSpot(segs: seq<Load>, ls: seq<Load>, ss: seq<Load>, i: nat)
    requires Matches(segs, ls) && AllAlike(ss, ls) && (i < |segs| || i < |ss|)
    ensures i < |segs| == |ls| == |ss|
    ensures ss[i].vaddr == segs[i].vaddr == ls[i].vaddr && ss[i].filesz == segs[i].memsz == ls[i].filesz
            && ss[i].poff == ls[i].poff
  {
    assert Alike(ss[i], ls[i]);
  }

  lemma SamePlace(img: Bytes, segs: seq<Load>, out: Bytes, ls: seq<Load>, va: nat, n: nat, i: nat, j: nat)
    requires Backed(img, segs) && Backed(out, ls) && LaidOut(segs) && Matches(segs, ls)
             && Blobs(out, ls) == Blobs(img, segs)
    requires n > 0 && i < |segs| && Backs(segs[i], va, n) && j < |ls| && Backs(ls[j], va, n)
    ensures i == j
    ensures var p, q := ls[i].poff + (va - segs[i].vaddr), segs[i].poff + (va - segs[i].vaddr);
            out[p..p + n] == img[q..q + n]
  {
    hide LaidOut, BlobOf;
    OneSegment(segs, i, j, va);
    assert Blobs(out, ls)[i] == Blobs(img, segs)[i];
    Moved(img, out, segs[i], ls[i], va, n);
  }

  lemma SegmentAgain(segs: seq<Load>, ls: seq<Load>, va: nat, n: nat, w: bool)
    requires Matches(segs, ls)
    ensures VaInSegment(Sort(ls), va, n, w) == VaInSegment(segs, va, n, w)
  {
    hide Sort;
    SortMembers(ls);
    var ss := Sort(ls);
    if VaInSegment(segs, va, n, w) {
      var i :| 0 <= i < |segs| && Holds(segs[i], va, n, w);
      assert Holds(ls[i], va, n, w) && ls[i] in ls;
      var j :| 0 <= j < |ss| && ss[j] == ls[i];
      assert Holds(ss[j], va, n, w);
    }
    if VaInSegment(ss, va, n, w) {
      var j :| 0 <= j < |ss| && Holds(ss[j], va, n, w);
      assert ss[j] in ss;
      var i :| 0 <= i < |ls| && ls[i] == ss[j];
      assert Holds(segs[i], va, n, w);
    }
  }

  /** Sorted segments of the output: those of the input at new places, flags possibly swapped
      between segments without bytes. */
  lemma SegmentsAgain(img: Bytes, out: Bytes)
    requires Rewritten(img, out)
    ensures HeadOk(img) && HeadOk(out) && Readable(img) && Readable(out)
    ensures var ls := OutLoads(BlobsOf(img), DataStart(BlobsOf(img), ExtrasIn(img)));
            && Matches(SegmentsOf(img), ls) && SegmentsOf(out) == Sort(ls) && AllAlike(SegmentsOf(out), ls)
            && (Sorted(ls) <==> TiesOrdered(SegmentsOf(img)))
            && Backed(out, ls) && Blobs(out, ls) == BlobsOf(img)
            && SameExtent(SegmentsOf(img), SegmentsOf(out)) && LaidOut(SegmentsOf(img))
            && Backed(out, SegmentsOf(out)) && Backed(img, SegmentsOf(img))
  {
    hide Rewritten, RawsOf, HeadOk, Sort, OutLoads, At, Readable, ExtrasIn, LaidOut, Le;
    Known(img, out);
    OutReadable(img, out);
    MatchesOut(img, out);
    SortSorts(LoadsOf(RawsOf(img)));
    var ls := OutLoads(BlobsOf(img), DataStart(BlobsOf(img), ExtrasIn(img)));
    OutOrder(SegmentsOf(img), ls);
    SortNearly(ls);
    ReadableBacked(out);
    ReadableBacked(img);
    forall i | 0 <= i < |ls|
      ensures SegmentsOf(out)[i].vaddr == SegmentsOf(img)[i].vaddr
              && SegmentsOf(out)[i].memsz == SegmentsOf(img)[i].memsz {
      assert Alike(SegmentsOf(out)[i], ls[i]);
    }
  }

  lemma ExtendsOut(img: Bytes, out: Bytes)
    requires Rewritten(img, out)
    ensures HeadOk(img) && HeadOk(out) && Backed(img, SegmentsOf(img)) && Backed(out, SegmentsOf(out))
    ensures Dynamic.Extends(img, SegmentsOf(img), out, SegmentsOf(out))
  {
    hide Rewritten, RawsOf, HeadOk, Sort, OutLoads, Readable, ExtrasIn, LaidOut, View, VaInSegment, Matches, AllAlike,
      Backed, Blobs, Sorted, TiesOrdered;
    Known(img, out);
    SegmentsAgain(img, out);
    var segs, ss := SegmentsOf(img), SegmentsOf(out);
    var ls := OutLoads(BlobsOf(img), DataStart(BlobsOf(img), ExtrasIn(img)));
    forall va: nat, n: nat | View(img, segs, va, n).Some? ensures View(out, ss, va, n) == View(img, segs, va, n) {
      ViewAgain(img, segs, out, ls, ss, va, n);
    }
    forall va: nat, n: nat, w: bool
      ensures VaInSegment(ss, va, n, w) == VaInSegment(segs, va, n, w) { SegmentAgain(segs, ls, va, n, w); }
  }

  /** Interpreter, dynamic section and RELRO range are found again unchanged. */
  lemma ExtrasAgain(img: Bytes, out: Bytes)
    requires Rewritten(img, out) && HeadOk(img) && !Static(img)
    ensures HeadOk(out) && Backed(out, SegmentsOf(out))
    ensures ExtrasOf(out, RawsOf(out), SegmentsOf(out)) == Some(ExtrasIn(img))
  {
    hide Rewritten, RawsOf, HeadOk, Sort, LoadsOf, View, VaInSegment, At, Small, Output, OutRaws, Kind,
      Dynamic.Accepts, Data, Table, Ehdr, DataLength, InterpOk, Readable,
      Accepted, ExtrasOf, ExtrasIn, BlobsOf, InterpRaws, DynRaws, RelroRaws, Dynamic.Extends, Backed;
    Known(img, out);
    OutputRead(img, out);
    ExtendsOut(img, out);
    var bs, x := BlobsOf(img), ExtrasIn(img);
    RawsSorted(bs, x);
    ExtrasSmall(img);
    ExtrasFacts(img);
    var end := DataStart(bs, x) + DataLength(bs);
    AtBytes(out, end, InterpData(x));
    AtBytes(out, end + |InterpData(x)|, DynData(x));
    if x.dyn.Some? { Dynamic.AcceptsAgain(img, SegmentsOf(img), out, SegmentsOf(out), x.dyn.value.1); }
    if x.relro.Some? { RelroAgain(img, out, x.relro.value.0, x.relro.value.1); }
    ExtrasFound(out, RawsOf(out), SegmentsOf(out), x, end);
  }

  lemma ExtrasFacts(img: Bytes)
    requires Accepted(img) && !Static(img)
    ensures Backed(img, SegmentsOf(img))
    ensures var x := ExtrasIn(img);
            && (x.dyn.Some? ==> Dynamic.Accepts(img, SegmentsOf(img), x.dyn.value.1))
            && (x.relro.Some? ==> VaInSegment(SegmentsOf(img), x.relro.value.0, x.relro.value.1, false))
  {
    hide RawsOf, HeadOk, Sort, VaInSegment, Kind, Dynamic.Accepts, PageSum, LoadsOk, BlobsOf;
    ReadableBacked(img);
  }

  lemma ExtrasFound(out: Bytes, raws: seq<Raw>, segs: seq<Load>, x: Extras, end: nat)
    requires Backed(out, segs)
    requires Kind(raws, INTERP) == InterpRaws(x, end) && Kind(raws, DYNAMIC) == DynRaws(x, end + |InterpData(x)|)
             && Kind(raws, RELRO) == RelroRaws(x)
    requires var i, d := InterpData(x), DynData(x);
             end + |i| + |d| <= |out| && out[end..end + |i|] == i && out[end + |i|..end + |i| + |d|] == d
    requires x.interp.Some? ==> InterpOk(x.interp.value)
    requires x.dyn.Some? ==> Dynamic.Accepts(out, segs, x.dyn.value.1)
    requires x.relro.Some? ==> x.relro.value.1 > 0 && VaInSegment(segs, x.relro.value.0, x.relro.value.1, false)
    ensures ExtrasOf(out, raws, segs) == Some(x)
  {
    hide Kind, VaInSegment, Dynamic.Accepts, InterpOk, Backed;
  }

  lemma RelroAgain(img: Bytes, out: Bytes, va: nat, n: nat)
    requires Rewritten(img, out) && HeadOk(img) && HeadOk(out) && Backed(img, SegmentsOf(img))
             && Backed(out, SegmentsOf(out))
    requires Dynamic.Extends(img, SegmentsOf(img), out, SegmentsOf(out)) && VaInSegment(SegmentsOf(img), va, n, false)
    ensures VaInSegment(SegmentsOf(out), va, n, false)
  {
    hide RawsOf, HeadOk, Sort, LoadsOf, View, VaInSegment, Rewritten;
  }

  // ---- twice ----

  /** An executable without interpreter, dynamic section or RELRO range is written as a static
      one, and those may have at most eight segments. Only an executable that an empty RELRO
      header alone made dynamic can break this. */
  ghost predicate Settles(img: Bytes)
    requires Accepted(img)
  {
    ReadHead(img).etype == EXEC && ExtrasIn(img) == NONE_EXTRA ==> |SegmentsOf(img)| <= MAX_SEGMENTS
  }

  /** Every output is accepted again, except for that limit. */
  lemma AcceptedAgain(img: Bytes, out: Bytes)
    requires Rewritten(img, out) && Accepted(img)
    ensures Accepted(out) <==> Settles(img)
    ensures HeadOk(out) && ReadHead(out).etype == ReadHead(img).etype && ReadHead(out).entry == ReadHead(img).entry
    ensures Accepted(out) ==> ExtrasIn(out) == ExtrasIn(img)
  {
    hide Rewritten, RawsOf, HeadOk, Sort, LoadsOf, At, Small, Output, OutRaws, Kind, Data, Table, Ehdr, DataLength,
      Readable,
      ExtrasOf, InterpRaws, DynRaws, RelroRaws, Backed, LaidOut, LoadsOk, TiesOrdered, Sorted, OutLoads, Matches,
        PageSum, Blobs,
      Static;
    Known(img, out);
    OutputRead(img, out);
    SegmentsAgain(img, out);
    var bs, x, h := BlobsOf(img), ExtrasIn(img), ReadHead(img);
    LoadsOkAgain(SegmentsOf(img), SegmentsOf(out), h.etype, h.entry);
    SameLengths(img, out);
    PageSumSame(bs, BlobsOf(out));
    StaticAgain(img, out);
    if Static(img) { StaticIsPlain(img); } else { ExtrasAgain(img, out); }
  }

  lemma StaticIsPlain(img: Bytes)
    requires Accepted(img) && Static(img)
    ensures ReadHead(img).etype == EXEC && ExtrasIn(img) == NONE_EXTRA && |SegmentsOf(img)| <= MAX_SEGMENTS
  {
    hide RawsOf, HeadOk, Sort, LoadsOf, Kind, Readable, LoadsOk, PageSum;
  }

  lemma SameLengths(img: Bytes, out: Bytes)
    requires Readable(img) && Readable(out) && SameExtent(SegmentsOf(img), SegmentsOf(out))
    ensures |BlobsOf(img)| == |SegmentsOf(img)| == |BlobsOf(out)|
    ensures forall i :: 0 <= i < |BlobsOf(img)| ==> |BlobsOf(img)[i].data| == |BlobsOf(out)[i].data|
  {
    ReadableBacked(img);
    ReadableBacked(out);
    hide RawsOf, LoadsOf, Sort, HeadOk, Kind;
  }

  lemma StaticAgain(img: Bytes, out: Bytes)
    requires HeadOk(out) && Accepted(img)
    requires var bs, x := BlobsOf(img), ExtrasIn(img);
             RawsOf(out) == OutRaws(bs, x) && ReadHead(out).etype == ReadHead(img).etype
    ensures Static(out) <==> ReadHead(img).etype == EXEC && ExtrasIn(img) == NONE_EXTRA
  {
    hide RawsOf, HeadOk, LoadsOf, OutRaws, Kind, BlobsOf, LoadsOk, PageSum, ExtrasOf, ExtrasIn, Readable;
    RawsSorted(BlobsOf(img), ExtrasIn(img));
  }

  /** For every accepted input: repackaging the output leaves it unchanged, byte for byte,
      exactly when it is accepted again and the input has no two neighbouring segments
      without bytes at one address with decreasing flags. */
  lemma FixedPoint(img: Bytes, out: Bytes)
    requires Rewritten(img, out) && Accepted(img)
    ensures Repacked(out) == Some(out) <==> Settles(img) && TiesOrdered(SegmentsOf(img))
  {
    hide RawsOf, HeadOk, Sort, LoadsOf, Output, OutRaws, Kind, Readable, ExtrasOf, ExtrasIn, Backed, Accepted, LaidOut,
      TiesOrdered, Sorted, OutLoads, Matches, Blobs, AllAlike, SameExtent, Settles;
    Known(img, out);
    AcceptedAgain(img, out);
    SegmentsAgain(img, out);
    var ls := OutLoads(BlobsOf(img), DataStart(BlobsOf(img), ExtrasIn(img)));
    if TiesOrdered(SegmentsOf(img)) { SortedStays(ls); }
    if Repacked(out) == Some(out) { FixedIsSorted(img, out); }
  }

  lemma FixedIsSorted(img: Bytes, out: Bytes)
    requires Rewritten(img, out) && Rewritten(out, out) && HeadOk(img) && Readable(img)
             && ExtrasIn(out) == ExtrasIn(img)
    ensures Sorted(OutLoads(BlobsOf(img), DataStart(BlobsOf(img), ExtrasIn(img))))
  {
    hide RawsOf, HeadOk, Sort, LoadsOf, Output, OutRaws, Kind, Readable, ExtrasOf, ExtrasIn, Backed, Accepted, LaidOut,
      TiesOrdered, OutLoads, Blobs, SameExtent,
      Rewritten, BlobsOf, Le;
    Known(img, out);
    Known(out, out);
    OutputRead(img, out);
    OutputRead(out, out);
    RawsSorted(BlobsOf(img), ExtrasIn(img));
    RawsSorted(BlobsOf(out), ExtrasIn(img));
    SegmentsAgain(img, out);
    SegmentsAgain(out, out);
    var ls, ss := OutLoads(BlobsOf(img), DataStart(BlobsOf(img), ExtrasIn(img))), SegmentsOf(out);
    OutRawsLength(BlobsOf(img), ExtrasIn(img));
    OutRawsLength(BlobsOf(out), ExtrasIn(img));
    assert OutLoads(BlobsOf(out), DataStart(BlobsOf(out), ExtrasIn(img))) == ls;
    forall i | 0 <= i < |ls| ensures ss[i] == ls[i] { assert Alike(ss[i], ls[i]); }
    assert ss == ls;
    SortSorts(ls);
  }
}
