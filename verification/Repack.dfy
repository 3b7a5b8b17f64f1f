/** The repackager: which ELF files it accepts, what it writes, and why the result loads the
    same program. */
module Repack {
  import opened Options
  import opened ByteStrings
  import opened Elf
  import opened Segments
  import Dynamic

  const MAX_ELF_BYTES := 16 * 1024 * 1024
  const MAX_PHNUM := 16
  const MAX_SEGMENTS := 8
  const MAX_SEG_MEM := 1024 * 1024
  const MAX_PAGES := 256
  const MAX_INTERP := 256
  const MIN_EXEC_VADDR := 0x01000000
  const MAX_VADDR := 0xFFFFFFFF
  const EXEC := 2
  const DYN := 3

  /** "/lib/ld-house.so.0" */
  const LD_HOUSE: Bytes := [0x2f, 0x6c, 0x69, 0x62, 0x2f, 0x6c, 0x64, 0x2d, 0x68, 0x6f, 0x75, 0x73, 0x65, 0x2e, 0x73,
    0x6f, 0x2e, 0x30]

  // ---- reading ----

  predicate HeadOk(img: Bytes) {
    && 64 <= |img| <= MAX_ELF_BYTES
    && var h := ReadHead(img);
       && h.magic && h.machine == 183 && h.etype in {EXEC, DYN}
       && h.phnum <= MAX_PHNUM && (h.phnum > 0 ==> h.phentsz in {0, 56})
       && h.phoff + h.phnum * (if h.phentsz == 0 then 56 else h.phentsz) <= |img|
  }

  function RawsOf(img: Bytes): seq<Raw>
    requires HeadOk(img)
  {
    ReadTable(img, ReadHead(img).phoff, ReadHead(img).phnum)
  }

  predicate AlignOk(r: Raw) {
    r.align in {0, 4096, 8192, 16384, 32768, 65536} && (r.align != 0 ==> (r.vaddr - r.poff) % r.align == 0)
  }

  predicate RawOk(img: Bytes, r: Raw, isStatic: bool) {
    r.ptype == LOAD ==>
      && r.filesz <= r.memsz <= MAX_SEG_MEM && r.poff + r.filesz <= |img| && AlignOk(r)
      && (isStatic ==> r.filesz == r.memsz)
  }

  function LoadOf(r: Raw): Load { Load(r.vaddr, r.poff, r.filesz, r.memsz, r.flags) }

  function LoadsOf(raws: seq<Raw>): seq<Load> {
    if raws == [] then [] else OneLoad(raws[0]) + LoadsOf(raws[1..])
  }

  function OneLoad(r: Raw): seq<Load> { if r.ptype == LOAD then [LoadOf(r)] else [] }

  function Kind(raws: seq<Raw>, ptype: nat): seq<Raw> {
    if raws == [] then [] else OneKind(raws[0], ptype) + Kind(raws[1..], ptype)
  }

  function OneKind(r: Raw, ptype: nat): seq<Raw> { if r.ptype == ptype then [r] else [] }

  predicate InWindow(l: Load, etype: nat) {
    (etype == EXEC ==> l.vaddr >= MIN_EXEC_VADDR) && l.vaddr <= MAX_VADDR && l.vaddr + l.memsz <= 0x1_0000_0000
  }

  /** Conditions on the sorted segments that both kinds of file share. */
  ghost predicate LoadsOk(loads: seq<Load>, etype: nat, entry: nat) {
    && loads != [] && LaidOut(loads)
    && (forall i :: 0 <= i < |loads| ==> InWindow(loads[i], etype))
    && (exists i :: 0 <= i < |loads| && loads[i].vaddr <= entry < loads[i].vaddr + loads[i].memsz)
  }

  // ---- interpreter, dynamic section, read-only relocations ----

  datatype Extras = Extras(interp: Option<Bytes>, dyn: Option<(nat, Bytes)>, relro: Option<(nat, nat)>)

  const NONE_EXTRA := Extras(None, None, None)

  /** The one accepted interpreter path, NUL-terminated and NUL-padded. */
  predicate InterpOk(s: Bytes) {
    && |LD_HOUSE| < |s| <= MAX_INTERP && s[..|LD_HOUSE|] == LD_HOUSE
    && forall i :: |LD_HOUSE| <= i < |s| ==> s[i] == 0
  }

  predicate InFile(img: Bytes, r: Raw) { r.poff + r.filesz <= |img| }

  ghost function ExtrasOf(img: Bytes, raws: seq<Raw>, segs: seq<Load>): Option<Extras>
    requires Backed(img, segs)
  {
    var interps, dyns, relros := Kind(raws, INTERP), Kind(raws, DYNAMIC), Kind(raws, RELRO);
    if |interps| > 1 || |dyns| > 1 || |relros| > 1 then None
    else if interps != [] && !(InFile(img, interps[0]) && InterpOk(Slice(img, interps[0]))) then None
    else if dyns != [] && !(InFile(img, dyns[0]) && Dynamic.Accepts(img, segs, Slice(img, dyns[0]))) then None
    else if relros != [] && relros[0].memsz > 0 && !VaInSegment(segs, relros[0].vaddr, relros[0].memsz, false) then None
    else Some(Extras(if interps == [] then None else Some(Slice(img, interps[0])),
                     if dyns == [] then None else Some((dyns[0].vaddr, Slice(img, dyns[0]))),
                     if relros == [] || relros[0].memsz == 0 then None else Some((relros[0].vaddr, relros[0].memsz))))
  }

  function Slice(img: Bytes, r: Raw): Bytes
    requires InFile(img, r)
  {
    img[r.poff..r.poff + r.filesz]
  }

  // ---- writing ----

  /** Headers of the segments, laid out one after another from off on. */
  function LoadRaws(bs: seq<Blob>, off: nat): (rs: seq<Raw>)
    ensures |rs| == |bs|
  {
    if bs == [] then []
    else
      var n := |bs[0].data|;
      [Raw(LOAD, bs[0].flags, off, bs[0].vaddr, n, n, 0)] + LoadRaws(bs[1..], off + n)
  }

  function Data(bs: seq<Blob>): (b: Bytes)
    ensures |b| == DataLength(bs)
  {
    if bs == [] then [] else bs[0].data + Data(bs[1..])
  }

  function InterpRaws(x: Extras, off: nat): seq<Raw> {
    if x.interp.None? then [] else [Raw(INTERP, 0, off, 0, |x.interp.value|, |x.interp.value|, 1)]
  }
  function DynRaws(x: Extras, off: nat): seq<Raw> {
    if x.dyn.None? then [] else [Raw(DYNAMIC, 0, off, x.dyn.value.0, |x.dyn.value.1|, |x.dyn.value.1|, 8)]
  }
  function RelroRaws(x: Extras): seq<Raw> {
    if x.relro.None? then [] else [Raw(RELRO, 0, 0, x.relro.value.0, x.relro.value.1, x.relro.value.1, 1)]
  }
  function InterpData(x: Extras): Bytes { if x.interp.None? then [] else x.interp.value }
  function DynData(x: Extras): Bytes { if x.dyn.None? then [] else x.dyn.value.1 }

  function Count(bs: seq<Blob>, x: Extras): nat {
    |bs| + (if x.interp.Some? then 1 else 0) + (if x.dyn.Some? then 1 else 0) + (if x.relro.Some? then 1 else 0)
  }

  function OutRaws(bs: seq<Blob>, x: Extras): (rs: seq<Raw>)
    ensures |rs| == Count(bs, x)
  {
    var off := 64 + 56 * Count(bs, x);
    var end := off + DataLength(bs);
    LoadRaws(bs, off) + InterpRaws(x, end) + DynRaws(x, end + |InterpData(x)|) + RelroRaws(x)
  }

  function Output(etype: nat, entry: nat, bs: seq<Blob>, x: Extras): Bytes {
    Ehdr(etype, entry, Count(bs, x)) + Table(OutRaws(bs, x)) + Data(bs) + InterpData(x) + DynData(x)
  }

  // ---- the repackager ----

  /** What is written for a file, or nothing if it is refused. */
  ghost function Repacked(img: Bytes): Option<Bytes> {
    if !Accepted(img) then None
    else Some(Output(ReadHead(img).etype, ReadHead(img).entry, BlobsOf(img), ExtrasIn(img)))
  }

  /** ET_EXEC files without interpreter, dynamic section or RELRO take the static path. */
  predicate Static(img: Bytes)
    requires HeadOk(img)
  {
    var raws := RawsOf(img);
    ReadHead(img).etype == EXEC && Kind(raws, INTERP) == [] && Kind(raws, DYNAMIC) == [] && Kind(raws, RELRO) == []
  }

  function SegmentsOf(img: Bytes): seq<Load>
    requires HeadOk(img)
  {
    Sort(LoadsOf(RawsOf(img)))
  }

  ghost predicate Readable(img: Bytes) {
    && HeadOk(img) && Kind(RawsOf(img), TLS) == []
    && forall i :: 0 <= i < |RawsOf(img)| ==> RawOk(img, RawsOf(img)[i], Static(img))
  }

  ghost function BlobsOf(img: Bytes): seq<Blob>
    requires Readable(img)
  {
    ReadableBacked(img);
    Blobs(img, SegmentsOf(img))
  }

  ghost predicate Accepted(img: Bytes) {
    && Readable(img) && LoadsOk(SegmentsOf(img), ReadHead(img).etype, ReadHead(img).entry)
    && PageSum(BlobsOf(img)) <= MAX_PAGES
    && (if Static(img) then |SegmentsOf(img)| <= MAX_SEGMENTS
        else ReadableBacked(img);
             var x := ExtrasOf(img, RawsOf(img), SegmentsOf(img));
             x.Some? && Count(BlobsOf(img), x.value) <= MAX_PHNUM)
  }

  ghost function ExtrasIn(img: Bytes): Extras
    requires Accepted(img)
  {
    if Static(img) then NONE_EXTRA else ReadableBacked(img); ExtrasOf(img, RawsOf(img), SegmentsOf(img)).value
  }

  // ---- segments of a file ----

  lemma {:induction false} LoadsMembers(raws: seq<Raw>, l: Load)
    ensures l in LoadsOf(raws) <==> exists i :: 0 <= i < |raws| && raws[i].ptype == LOAD && LoadOf(raws[i]) == l
  {
    if raws != [] {
      LoadsMembers(raws[1..], l);
      assert raws == [raws[0]] + raws[1..];
      if l in LoadsOf(raws) {
        if l in LoadsOf(raws[1..]) {
          var i :| 0 <= i < |raws[1..]| && raws[1..][i].ptype == LOAD && LoadOf(raws[1..][i]) == l;
          assert raws[i + 1].ptype == LOAD && LoadOf(raws[i + 1]) == l;
        } else {
          assert raws[0].ptype == LOAD && LoadOf(raws[0]) == l;
        }
      }
      if i :| 0 <= i < |raws| && raws[i].ptype == LOAD && LoadOf(raws[i]) == l {
        if i > 0 { assert raws[1..][i - 1] == raws[i]; }
      }
    }
  }

  lemma ReadableBacked(img: Bytes)
    requires Readable(img)
    ensures Backed(img, SegmentsOf(img))
  {
    hide Sort, RawsOf, LoadsOf;
    var raws := RawsOf(img);
    SortMembers(LoadsOf(raws));
    forall i | 0 <= i < |SegmentsOf(img)|
      ensures SegmentsOf(img)[i].filesz <= SegmentsOf(img)[i].memsz
              && SegmentsOf(img)[i].poff + SegmentsOf(img)[i].filesz <= |img|
    {
      var l := SegmentsOf(img)[i];
      assert l in SegmentsOf(img);
      LoadsMembers(raws, l);
      var j :| 0 <= j < |raws| && raws[j].ptype == LOAD && LoadOf(raws[j]) == l;
      assert RawOk(img, raws[j], Static(img));
    }
  }
}
