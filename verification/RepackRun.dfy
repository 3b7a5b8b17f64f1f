/** The repackager as it runs: loops over headers, segments, dynamic entries and relocations
    with a running file offset, each proved to compute what the model says. */
module RepackRun {
  import opened Options
  import opened ByteStrings
  import opened Elf
  import opened Segments
  import opened Repack
  import Dynamic
  import DynamicExact
  import RepackProofs
  import RepackExact

  // ---- headers ----

  /** All program headers, unless one of them is TLS. */
  method ParseRaw(img: Bytes, phoff: nat, phnum: nat) returns (raws: Option<seq<Raw>>)
    requires phoff + 56 * phnum <= |img|
    ensures raws == if Kind(ReadTable(img, phoff, phnum), TLS) == [] then Some(ReadTable(img, phoff, phnum)) else None
  {
    hide ReadRaw, Kind;
    ghost var all := ReadTable(img, phoff, phnum);
    RepackProofs.KindNone(all, TLS);
    var rs: seq<Raw> := [];
    for i := 0 to phnum
      invariant rs == all[..i] && forall j :: 0 <= j < i ==> all[j].ptype != TLS
    {
      TableAt(img, phoff, phnum, i);
      var r := ReadRaw(img, phoff + 56 * i);
      if r.ptype == TLS { return None; }
      rs := rs + [r];
    }
    assert all[..phnum] == all;
    return Some(rs);
  }

  lemma LoadsSnoc(raws: seq<Raw>, i: nat)
    requires i < |raws|
    ensures LoadsOf(raws[..i + 1]) == LoadsOf(raws[..i]) + if raws[i].ptype == LOAD then [LoadOf(raws[i])] else []
  {
    RepackProofs.LoadsConcat(raws[..i], [raws[i]]);
    assert raws[..i + 1] == raws[..i] + [raws[i]];
    assert LoadsOf([raws[i]][1..]) == [];
  }

  method CollectLoads(img: Bytes, raws: seq<Raw>, isStatic: bool) returns (loads: Option<seq<Load>>)
    ensures loads.Some? <==> forall i :: 0 <= i < |raws| ==> RawOk(img, raws[i], isStatic)
    ensures loads.Some? ==> loads.value == LoadsOf(raws)
  {
    hide RawOk;
    var ls: seq<Load> := [];
    for i := 0 to |raws|
      invariant ls == LoadsOf(raws[..i]) && forall j :: 0 <= j < i ==> RawOk(img, raws[j], isStatic)
    {
      if !RawOk(img, raws[i], isStatic) { return None; }
      LoadsSnoc(raws, i);
      if raws[i].ptype == LOAD { ls := ls + [LoadOf(raws[i])]; }
    }
    assert raws[..|raws|] == raws;
    return Some(ls);
  }

  // ---- layout ----

  method ValidateLoadLayout(loads: seq<Load>) returns (ok: bool)
    ensures ok <==> LaidOut(loads)
  {
    hide FirstPage, LastPage;
    for i := 0 to |loads|
      invariant forall a :: 0 <= a < i ==> !(FirstPage(loads[a]) <= STACK_PAGE / PAGE <= LastPage(loads[a]))
      invariant forall a, b :: 0 <= a < i && a < b < |loads| ==> Clear(loads[a], loads[b])
    {
      if FirstPage(loads[i]) <= STACK_PAGE / PAGE <= LastPage(loads[i]) { return false; }
      for j := i + 1 to |loads|
        invariant forall b :: i < b < j ==> Clear(loads[i], loads[b])
      {
        if !Clear(loads[i], loads[j]) { return false; }
      }
    }
    return true;
  }

  predicate Clear(a: Load, b: Load) { !(FirstPage(a) <= LastPage(b) && FirstPage(b) <= LastPage(a)) }

  /** Window and entry checks, and the segments' contents. */
  method MakeBlobs(img: Bytes, loads: seq<Load>, etype: nat, entry: nat) returns (bs: Option<seq<Blob>>)
    requires Backed(img, loads)
    ensures bs.Some? <==> (forall i :: 0 <= i < |loads| ==> InWindow(loads[i], etype))
                          && exists i :: 0 <= i < |loads| && loads[i].vaddr <= entry < loads[i].vaddr + loads[i].memsz
    ensures bs.Some? ==> bs.value == Blobs(img, loads)
  {
    var found := false;
    var out: seq<Blob> := [];
    for i := 0 to |loads|
      invariant |out| == i && forall j :: 0 <= j < i ==> out[j] == BlobOf(img, loads[j]) && InWindow(loads[j], etype)
      invariant found <==> exists j :: 0 <= j < i && loads[j].vaddr <= entry < loads[j].vaddr + loads[j].memsz
    {
      if !InWindow(loads[i], etype) { return None; }
      out := out + [BlobOf(img, loads[i])];
      if loads[i].vaddr <= entry < loads[i].vaddr + loads[i].memsz { found := true; }
    }
    if !found { return None; }
    return Some(out);
  }

  // ---- output ----

  /** Headers and contents of the segments, the offset advancing by each one's length. */
  method EmitLoads(bs: seq<Blob>, start: nat) returns (raws: seq<Raw>, data: Bytes, off: nat)
    ensures raws == LoadRaws(bs, start) && data == Data(bs) && off == start + DataLength(bs)
  {
    raws, data, off := [], [], start;
    for i := 0 to |bs|
      invariant raws == LoadRaws(bs[..i], start) && off == start + DataLength(bs[..i]) && data == Data(bs[..i])
    {
      LoadRawsSnoc(bs, i, start);
      raws := raws + [Raw(LOAD, bs[i].flags, off, bs[i].vaddr, |bs[i].data|, |bs[i].data|, 0)];
      off := off + |bs[i].data|;
      data := data + bs[i].data;
    }
    assert bs[..|bs|] == bs;
  }

  method Emit(etype: nat, entry: nat, bs: seq<Blob>, x: Extras) returns (out: Bytes)
    ensures out == Output(etype, entry, bs, x)
  {
    hide Ehdr, LoadRaws, Data, DataLength, Table;
    var n := Count(bs, x);
    var raws, data, off := EmitLoads(bs, 64 + 56 * n);
    raws := raws + InterpRaws(x, off);
    off := off + |InterpData(x)|;
    raws := raws + DynRaws(x, off) + RelroRaws(x);
    assert raws == OutRaws(bs, x);
    out := Ehdr(etype, entry, n) + Table(raws) + data + InterpData(x) + DynData(x);
  }

  lemma LoadRawsSnoc(bs: seq<Blob>, i: nat, off: nat)
    requires i < |bs|
    ensures LoadRaws(bs[..i + 1], off) == LoadRaws(bs[..i], off)
              + [Raw(LOAD, bs[i].flags, off + DataLength(bs[..i]), bs[i].vaddr, |bs[i].data|, |bs[i].data|, 0)]
    ensures DataLength(bs[..i + 1]) == DataLength(bs[..i]) + |bs[i].data|
            && Data(bs[..i + 1]) == Data(bs[..i]) + bs[i].data
  {
    assert bs[..i + 1] == bs[..i] + [bs[i]];
    Join(bs[..i], bs[i], off);
  }

  lemma {:induction false} Join(a: seq<Blob>, d: Blob, off: nat)
    ensures LoadRaws(a + [d], off) == LoadRaws(a, off)
            + [Raw(LOAD, d.flags, off + DataLength(a), d.vaddr, |d.data|, |d.data|, 0)]
    ensures DataLength(a + [d]) == DataLength(a) + |d.data| && Data(a + [d]) == Data(a) + d.data
    decreases a
  {
    if a == [] {
      assert a + [d] == [d] && [d][1..] == [];
    } else {
      assert (a + [d])[1..] == a[1..] + [d] && (a + [d])[0] == a[0];
      Join(a[1..], d, off + |a[0].data|);
      FirstBlob(a, off);
      FirstBlob(a + [d], off);
      hide LoadRaws, Data, DataLength;
      Associates(a[0].data, Data(a[1..]), d.data);
    }
  }

  lemma FirstBlob(a: seq<Blob>, off: nat)
    requires a != []
    ensures LoadRaws(a, off) == [Raw(LOAD, a[0].flags, off, a[0].vaddr, |a[0].data|, |a[0].data|, 0)]
            + LoadRaws(a[1..], off + |a[0].data|)
    ensures Data(a) == a[0].data + Data(a[1..]) && DataLength(a) == |a[0].data| + DataLength(a[1..])
  {}

  // ---- the dynamic section ----

  method ScanEntries(dyn: Bytes) returns (d: Option<Dynamic.Dyn>)
    ensures d == Dynamic.Scan(dyn, 0, Dynamic.Dyn([], map[]))
  {
    var needed: seq<nat>, tags: map<nat, nat> := [], map[];
    var i := 0;
    while 16 * i + 16 <= |dyn|
      invariant Dynamic.Scan(dyn, 0, Dynamic.Dyn([], map[])) == Dynamic.Scan(dyn, i, Dynamic.Dyn(needed, tags))
      decreases |dyn| - 16 * i
    {
      var tag, value := Read(dyn, 16 * i, 8), Read(dyn, 16 * i + 8, 8);
      if tag == 0 { return Some(Dynamic.Dyn(needed, tags)); }
      if tag == Dynamic.NEEDED {
        needed := needed + [value];
      } else if tag !in Dynamic.SKIPPED {
        if tag in tags { return None; }
        if tag !in Dynamic.SUPPORTED { return None; }
        if tag == Dynamic.FLAGS && value / 4 % 2 == 1 { return None; }
        tags := tags[tag := value];
      }
      i := i + 1;
    }
    return None;
  }

  method CheckRelocations(img: Bytes, segs: seq<Load>, address: Option<nat>, count: nat, bindNow: bool,
                          names: seq<Bytes>) returns (ok: bool)
    requires Backed(img, segs) && (count > 0 ==> address.Some?)
    ensures ok == Dynamic.RelocsOk(img, segs, address, count, bindNow, names)
    ensures ok <==> DynamicExact.Relocations(img, segs, address, 24 * count, bindNow, names)
  {
    DynamicExact.RelocationsExact(img, segs, address, count, bindNow, names);
    hide DynamicExact.Relocations;
    hide View, Dynamic.RelocOk;
    if count == 0 { return true; }
    var table := View(img, segs, address.value, count * 24);
    if table.None? { return false; }
    for i := 0 to count
      invariant forall j :: 0 <= j < i ==> Dynamic.RelocOk(table.value, j, segs, bindNow, names)
    {
      if !Dynamic.RelocOk(table.value, i, segs, bindNow, names) { return false; }
    }
    return true;
  }

  method CheckDynamic(img: Bytes, segs: seq<Load>, dyn: Bytes) returns (ok: bool)
    requires Backed(img, segs)
    ensures ok == Dynamic.Accepts(img, segs, dyn)
    ensures ok <==> DynamicExact.Sound(img, segs, dyn)
  {
    DynamicExact.AcceptsExactly(img, segs, dyn);
    hide DynamicExact.Sound, DynamicExact.Relocations;
    hide View, Dynamic.Scan, Dynamic.StringsOk, Dynamic.Names, Dynamic.AddressesOk, Dynamic.RelocsOk, Dynamic.Strtab,
      Backed;
    if |dyn| % 16 != 0 || |dyn| / 16 > Dynamic.MAX_DYN_ENT { return false; }
    var scanned := ScanEntries(dyn);
    if scanned.None? { return false; }
    var d := scanned.value;
    if d.GetOr0(Dynamic.STRSZ) > Dynamic.MAX_DYN_STR { return false; }
    var strtab := Dynamic.Strtab(img, segs, d);
    if strtab.None? || !Dynamic.StringsOk(d, strtab.value) { return false; }
    var names := Dynamic.Names(img, segs, d, strtab.value);
    if names.None? || !Dynamic.AddressesOk(img, segs, d, |names.value|) { return false; }
    var rela := Dynamic.TableCount(d.Get(Dynamic.RELA), d.Get(Dynamic.RELASZ), d.Get(Dynamic.RELAENT));
    var plt := Dynamic.TableCount(d.Get(Dynamic.JMPREL), d.Get(Dynamic.PLTRELSZ),
      if Dynamic.PLTREL in d.tags then Some(24) else None);
    if rela.None? || plt.None? || rela.value + plt.value > Dynamic.MAX_RELA { return false; }
    if Dynamic.PLTREL in d.tags && d.tags[Dynamic.PLTREL] != Dynamic.RELA { return false; }
    ok := CheckRelocations(img, segs, d.Get(Dynamic.RELA), rela.value, Dynamic.BindNow(d), names.value);
    if ok { ok := CheckRelocations(img, segs, d.Get(Dynamic.JMPREL), plt.value, Dynamic.BindNow(d), names.value); }
  }

  method FindExtras(img: Bytes, raws: seq<Raw>, segs: seq<Load>) returns (x: Option<Extras>)
    requires Backed(img, segs)
    ensures x == ExtrasOf(img, raws, segs)
  {
    hide Kind, Dynamic.Accepts, VaInSegment, InterpOk, Backed;
    var interps, dyns, relros := Kind(raws, INTERP), Kind(raws, DYNAMIC), Kind(raws, RELRO);
    var found := NONE_EXTRA;
    if |interps| > 1 || |dyns| > 1 || |relros| > 1 { return None; }
    if interps != [] {
      if !InFile(img, interps[0]) || !InterpOk(Slice(img, interps[0])) { return None; }
      found := found.(interp := Some(Slice(img, interps[0])));
    }
    if dyns != [] {
      if !InFile(img, dyns[0]) { return None; }
      var ok := CheckDynamic(img, segs, Slice(img, dyns[0]));
      if !ok { return None; }
      found := found.(dyn := Some((dyns[0].vaddr, Slice(img, dyns[0]))));
    }
    if relros != [] && relros[0].memsz > 0 {
      if !VaInSegment(segs, relros[0].vaddr, relros[0].memsz, false) { return None; }
      found := found.(relro := Some((relros[0].vaddr, relros[0].memsz)));
    }
    return Some(found);
  }

  // ---- the whole program ----

  method RepackFile(img: Bytes) returns (out: Option<Bytes>)
    ensures out == Repacked(img)
    ensures out.Some? <==> RepackExact.Acceptable(img)
  {
    RepackExact.AcceptedExactly(img);
    hide RepackExact.Acceptable;
    hide RawsOf, LoadsOf, Sort, Kind, LaidOut, PageSum, ExtrasOf, Blobs, RawOk, Output, Backed;
    if !HeadOk(img) { return None; }
    var h := ReadHead(img);
    var parsed := ReadHeaders(img);
    if parsed.None? { return None; }
    var raws := parsed.value;
    var isStatic := Static(img);
    var loads := CollectLoads(img, raws, isStatic);
    if loads.None? { return None; }
    assert Readable(img);
    ReadableBacked(img);
    if loads.value == [] { EmptySort(loads.value); return None; }
    var segs := Sort(loads.value);
    var laid := ValidateLoadLayout(segs);
    if !laid { return None; }
    var blobs := MakeBlobs(img, segs, h.etype, h.entry);
    if blobs.None? { return None; }
    NonemptySort(loads.value);
    if PageSum(blobs.value) > MAX_PAGES { return None; }
    if isStatic {
      if |segs| > MAX_SEGMENTS { return None; }
      out := Finish(img, blobs.value, NONE_EXTRA);
    } else {
      var x := FindExtras(img, raws, segs);
      if x.None? || Count(blobs.value, x.value) > MAX_PHNUM { return None; }
      out := Finish(img, blobs.value, x.value);
    }
  }

  method Finish(img: Bytes, bs: seq<Blob>, x: Extras) returns (out: Option<Bytes>)
    requires Accepted(img) && bs == BlobsOf(img) && x == ExtrasIn(img)
    ensures out == Repacked(img)
  {
    hide Output;
    var h := ReadHead(img);
    var bytes := Emit(h.etype, h.entry, bs, x);
    return Some(bytes);
  }

  method ReadHeaders(img: Bytes) returns (raws: Option<seq<Raw>>)
    requires HeadOk(img)
    ensures raws == if Kind(RawsOf(img), TLS) == [] then Some(RawsOf(img)) else None
  {
    hide Kind, ReadTable;
    var h := ReadHead(img);
    raws := ParseRaw(img, h.phoff, h.phnum);
  }

  lemma EmptySort(s: seq<Load>)
    requires s == []
    ensures Sort(s) == []
  {}

  lemma NonemptySort(s: seq<Load>)
    requires s != []
    ensures Sort(s) != []
  {}
}
