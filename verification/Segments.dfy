/** Properties of the program and section headers: page congruence, writable relocation targets, and that each
    header's file range holds the content built for it. */
module Segments {
  import opened Common
  import opened Bytes
  import opened ElfFormat
  import opened PeImage
  import opened PeLoader
  import opened Layout
  import opened Names
  import HashTable
  import opened Output
  import opened Build
  import opened Assemble
  import opened ElfLoader
  import opened FileReads
  import opened Mapping
  import opened TablesRead

  // ------------------------------------------------------------------------
  // Congruence
  // ------------------------------------------------------------------------

  /** Every PT_LOAD has p_offset and p_vaddr congruent modulo the page, as p_align demands. */
  lemma LoadsCongruent(img: Image, opts: Options, p: Plan, q: Phdr)
    requires PlanFor(img, opts, p) && |img.secs| == |p.secFoffs|
    requires img.base % PAGE == 0 && forall i :: 0 <= i < |img.secs| ==> img.secs[i].va % PAGE == 0
    requires q in Phdrs(img, opts, p) && q.kind == PT_LOAD
    ensures q.align == PAGE && q.offset % PAGE == q.vaddr % PAGE
  {
    hide IsPlan, Phdrs, SizesOf, Writable, HasFlag, AlignUp;
    var z := SizesOf(img, opts);
    LoadIs(img, opts, p, q);
    AddressesFollowOffsets(img.base, img.secs, z, p);
    HeaderOnPage(img.base, img.secs, z, p);
    if i: nat :| i < |img.secs| && q == SectionPhdr(img, p, i) {
      SectionsInOrder(img.base, img.secs, z, p, i);
      SumOnPage(img.base, img.secs[i].va);
    }
  }

  lemma HeaderOnPage(base: nat, secs: seq<Section>, z: Sizes, p: Plan)
    requires IsPlan(base, secs, z, p)
    ensures p.hdrFoff % PAGE == 0
  {
    hide Follows, NextFoff, AlignUp;
    FoffsGrow(secs, p.dataFoff, |secs|);
  }

  // ------------------------------------------------------------------------
  // Writable targets
  // ------------------------------------------------------------------------

  predicate IsWritable(q: Phdr) { q.flags / PF_W % 2 == 1 }

  /** Eight bytes at a writable segment's addresses. */
  ghost predicate InWritable(ps: seq<Phdr>, at: nat) {
    exists q :: q in ps && q.kind == PT_LOAD && IsWritable(q) && q.vaddr <= at && at + 8 <= q.vaddr + q.memsz
  }

  lemma SectionWritable(img: Image, opts: Options, p: Plan, i: nat, at: nat)
    requires |img.secs| == |p.secFoffs| && InSection(img, i, at) && !Stripped(opts, img.secs[i]) && Writable(img, i)
    ensures InWritable(Phdrs(img, opts, p), img.base + at)
  {
    hide Phdrs, HasFlag, Writable;
    SectionListed(img, opts, p, i);
    var q := SectionPhdr(img, p, i);
    assert IsWritable(q);
  }

  lemma {:induction false} IatSectionIn(secs: seq<Section>, imports: seq<Import>, j: nat)
    requires j < |imports|
    ensures SectionOf(secs, imports[j].iatRva) in IatSections(secs, imports)
  {
    hide SectionOf;
    if j < |imports| - 1 { IatSectionIn(secs, imports[..|imports| - 1], j); }
  }

  lemma SlotWritable(img: Image, opts: Options, p: Plan, j: nat, i: nat)
    requires |img.secs| == |p.secFoffs| && SectionsOk(img) && j < |img.imports|
    requires InSection(img, i, img.imports[j].iatRva)
    requires !Stripped(opts, img.secs[i])
    ensures InWritable(Phdrs(img, opts, p), img.base + img.imports[j].iatRva)
  {
    hide Phdrs, InWritable, IatSections, HoldsReloc, HasFlag, SectionsOk, Stripped;
    SectionIs(img, i, img.imports[j].iatRva);
    IatSectionIn(img.secs, img.imports, j);
    SectionWritable(img, opts, p, i, img.imports[j].iatRva);
  }

  lemma PointerWritable(img: Image, opts: Options, p: Plan, ps: seq<nat>, k: nat, i: nat)
    requires |img.secs| == |p.secFoffs| && img.relocs == RelocList(img, ps) && k < |ps| && InSection(img, i, ps[k])
    requires !Stripped(opts, img.secs[i])
    ensures InWritable(Phdrs(img, opts, p), img.base + ps[k])
  {
    hide Phdrs, InWritable, IatSections, HasFlag, RelocList, Stripped;
    assert img.relocs[k] == Reloc(img.base + ps[k], Stored(img, ps[k]));
    hide Stored;
    assert HoldsReloc(img, img.secs[i]);
    SectionWritable(img, opts, p, i, ps[k]);
  }

  /** The address is in a section that is dropped from the output. */
  ghost predicate InStripped(img: Image, opts: Options, at: nat) {
    exists i: nat, k: nat :: InData(img, i, k) && Stripped(opts, img.secs[i]) && at == img.base + img.secs[i].va + k
  }

  ghost predicate InData(img: Image, i: nat, k: nat) { i < |img.secs| && k < Extent(img.secs[i]) }

  lemma StrippedUnwritable(img: Image, opts: Options, p: Plan, at: nat)
    requires Settled(img, opts, p) && SectionsOk(img) && InStripped(img, opts, at)
    ensures !InWritable(Phdrs(img, opts, p), at)
  {
    SettledSections(img, opts, p);
    hide Phdrs, Settled, SectionsOk, Stripped;
    var i: nat, k: nat :| InData(img, i, k) && Stripped(opts, img.secs[i]) && at == img.base + img.secs[i].va + k;
    forall q | q in Phdrs(img, opts, p) && q.kind == PT_LOAD ensures !(q.vaddr <= at && at + 8 <= q.vaddr + q.memsz) {
      StrippedUnmapped(img, opts, p, i, k, q);
      CoversMaps(q, at);
    }
  }

  lemma CoversMaps(q: Phdr, at: nat)
    requires q.kind == PT_LOAD
    ensures q.vaddr <= at < q.vaddr + q.memsz ==> Maps(q, at)
  {
  }

  lemma KeptSection(img: Image, opts: Options, i: nat, at: nat)
    requires SectionsOk(img) && InSection(img, i, at)
    ensures InStripped(img, opts, img.base + at) <==> Stripped(opts, img.secs[i])
  {
    hide Stripped;
    SectionIs(img, i, at);
    assert InData(img, i, at - img.secs[i].va);
    if InStripped(img, opts, img.base + at) {
      var j: nat, k: nat :| InData(img, j, k) && Stripped(opts, img.secs[j]) && img.base + at == img.base
        + img.secs[j].va + k;
      SectionIs(img, j, at);
    }
  }

  /** A relocation of section data is to writable memory exactly when its section is kept. */
  lemma SectionTarget(img: Image, opts: Options, p: Plan, ps: seq<nat>, i: nat, at: nat)
    requires Settled(img, opts, p) && SectionsOk(img) && i < |img.secs| && InSection(img, i, at)
    requires img.relocs == RelocList(img, ps)
    requires (exists j :: 0 <= j < |img.imports| && img.imports[j].iatRva == at) || at in ps
    ensures InWritable(Phdrs(img, opts, p), img.base + at) <==> !InStripped(img, opts, img.base + at)
  {
    hide Phdrs, SectionsOk, InWritable, RelocList, Stripped, InStripped, InSection;
    KeptSection(img, opts, i, at);
    SettledSections(img, opts, p);
    hide Settled;
    if Stripped(opts, img.secs[i]) {
      StrippedUnwritable(img, opts, p, img.base + at);
    } else if j :| 0 <= j < |img.imports| && img.imports[j].iatRva == at {
      SlotWritable(img, opts, p, j, i);
    } else {
      var k :| 0 <= k < |ps| && ps[k] == at;
      PointerWritable(img, opts, p, ps, k, i);
    }
  }

  lemma SynthWritable(img: Image, opts: Options, p: Plan, at: nat)
    requires |img.secs| == |p.secFoffs| && p.synthVa <= at && at + 8 <= p.synthVa + SynthSize(p)
    ensures InWritable(Phdrs(img, opts, p), at)
  {
    hide Phdrs;
    SynthListed(img, opts, p);
    assert IsWritable(SynthPhdr(p));
  }

  lemma RestOffsets(img: Image, opts: Options, p: Plan, i: nat)
    requires Settled(img, opts, p) && |img.imports| + |img.relocs| <= i < |Relas(img, opts, p.tramp.va)|
    ensures var r := Relas(img, opts, p.tramp.va)[i]; p.synthVa <= r.offset && r.offset + 8 <= p.synthVa + SynthSize(p)
  {
    hide UniqueNames, SymIndex;
  }

  lemma BelowSections(img: Image, opts: Options, at: nat)
    requires at < img.base
    ensures !InStripped(img, opts, at)
  {
    hide Stripped;
  }

  /** Where the relocations are: slots, kept sites, then the trampoline's. */
  lemma RelaOffsets(img: Image, opts: Options, p: Plan, ps: seq<nat>, i: nat)
    requires img.relocs == RelocList(img, ps) && i < |Relas(img, opts, p.tramp.va)|
    ensures var at, m := Relas(img, opts, p.tramp.va)[i].offset, |img.imports|;
      && (i < m ==> at == img.base + img.imports[i].iatRva)
      && (m <= i < m + |ps| ==> at == img.base + ps[i - m])
  {
    hide SlotRela, TlsRelas, SymIndex, Stored;
  }

  lemma SectionTargets(img: Image, opts: Options, p: Plan, ps: seq<nat>, at: nat)
    requires Settled(img, opts, p) && SectionsOk(img) && Inside(img, at) && img.relocs == RelocList(img, ps)
    requires (exists j :: 0 <= j < |img.imports| && img.imports[j].iatRva == at) || at in ps
    ensures |img.secs| == |p.secFoffs|
    ensures InWritable(Phdrs(img, opts, p), img.base + at) <==> !InStripped(img, opts, img.base + at)
  {
    hide Phdrs, InWritable, Settled, SectionsOk, RelocList, InStripped, InSection;
    SettledSections(img, opts, p);
    var s := SectionHolding(img, at);
    SectionTarget(img, opts, p, ps, s, at);
  }

  /** A pointer in a dropped section keeps its relocation, to an address that no segment maps. */
  lemma DroppedTarget(img: Image, opts: Options, p: Plan, sites: seq<nat>, i: nat, j: nat)
    requires Convertible(img, opts, p, sites) && j < |PointerSites(img.imports, sites)|
    requires InSection(img, i, PointerSites(img.imports, sites)[j]) && Stripped(opts, img.secs[i])
    ensures |img.secs| == |p.secFoffs|
    ensures var at, k := img.base + PointerSites(img.imports, sites)[j], |img.imports| + j;
      && k < |Relas(img, opts, p.tramp.va)| && Relas(img, opts, p.tramp.va)[k].offset == at
      && !InWritable(Phdrs(img, opts, p), at) && forall q :: q in Phdrs(img, opts, p) ==> !Maps(q, at)
  {
    hide Convertible, Phdrs, InWritable, Settled, SectionsOk, TablesFit, NamesOk, RelocsOf, RelocList, PointerSites,
         Relas, InStripped, Inside, Stripped, Maps;
    IsSettled(img, opts, p, sites);
    SettledSections(img, opts, p);
    ConvertibleFits(img, opts, p, sites);
    RelocsAre(img, sites);
    var ps := PointerSites(img.imports, sites);
    RelaRoom(img, opts, p, ps);
    RelaOffsets(img, opts, p, ps, |img.imports| + j);
    KeptSection(img, opts, i, ps[j]);
    StrippedUnwritable(img, opts, p, img.base + ps[j]);
    forall q | q in Phdrs(img, opts, p) ensures !Maps(q, img.base + ps[j]) {
      StrippedUnmapped(img, opts, p, i, ps[j] - img.secs[i].va, q);
    }
  }

  lemma RelaRoom(img: Image, opts: Options, p: Plan, ps: seq<nat>)
    requires img.relocs == RelocList(img, ps)
    ensures |Relas(img, opts, p.tramp.va)| >= |img.imports| + |ps|
  {
    hide SlotRela, TlsRelas, SymIndex, Stored;
  }

  /** Every relocation's eight target bytes are in a writable PT_LOAD, exactly when they are not in a section that
      --strip-pdata drops. */
  lemma TargetsWritable(img: Image, opts: Options, p: Plan, sites: seq<nat>, i: nat)
    requires Convertible(img, opts, p, sites) && |img.secs| == |p.secFoffs| && i < |Relas(img, opts, p.tramp.va)|
    ensures var at := Relas(img, opts, p.tramp.va)[i].offset;
      InWritable(Phdrs(img, opts, p), at) <==> !InStripped(img, opts, at)
    ensures !opts.stripPdata ==> !InStripped(img, opts, Relas(img, opts, p.tramp.va)[i].offset)
  {
    hide Convertible, Phdrs, InWritable, Settled, SectionsOk, TablesFit, NamesOk, RelocsOf, RelocList, PointerSites,
         Relas, InStripped, Inside;
    IsSettled(img, opts, p, sites);
    ConvertibleFits(img, opts, p, sites);
    RelocsAre(img, sites);
    PointerSitesOk(img, sites);
    var m, ps, at := |img.imports|, PointerSites(img.imports, sites), Relas(img, opts, p.tramp.va)[i].offset;
    NoneStripped(img, opts, at);
    RelaOffsets(img, opts, p, ps, i);
    if i < m {
      SectionTargets(img, opts, p, ps, img.imports[i].iatRva);
    } else if i < m + |ps| {
      assert ps[i - m] in ps;
      SectionTargets(img, opts, p, ps, ps[i - m]);
    } else {
      RestOffsets(img, opts, p, i);
      SynthWritable(img, opts, p, at);
      SynthEnds(img, opts, p);
      BelowSections(img, opts, at);
    }
  }

  lemma SectionHolding(img: Image, at: nat) returns (s: nat)
    requires Inside(img, at)
    ensures s < |img.secs| && InSection(img, s, at)
  {
    s :| InSection(img, s, at);
  }

  lemma SynthEnds(img: Image, opts: Options, p: Plan)
    requires Settled(img, opts, p)
    ensures p.synthVa + SynthSize(p) <= img.base
  {
  }

  lemma NoneStripped(img: Image, opts: Options, at: nat)
    ensures !opts.stripPdata ==> !InStripped(img, opts, at)
  {
  }

  // ------------------------------------------------------------------------
  // Ranges
  // ------------------------------------------------------------------------

  /** The file range at `at` of the given size is this content. */
  ghost predicate Holds(file: seq<byte>, at: nat, size: nat, content: seq<byte>) {
    size == |content| && Placed(file, Piece(at, content))
  }

  /** The data of the kept sections, header by header. */
  function SectionContents(img: Image, opts: Options, p: Plan, n: nat): (cs: seq<seq<byte>>)
    requires n <= |img.secs| == |p.secFoffs|
    ensures |cs| == |SectionPhdrs(img, opts, p, n)|
  {
    if n == 0 then []
    else SectionContents(img, opts, p, n - 1) + (if Stripped(opts, img.secs[n - 1]) then [] else [Chunk(img, n - 1)])
  }

  function RelroContents(img: Image, opts: Options, p: Plan): (cs: seq<seq<byte>>)
    requires |img.secs| == |p.secFoffs|
    ensures |cs| == |RelroPhdrs(img, opts, p)|
  {
    match RelroSection(img, opts)
    case None => []
    case Some(i) => [Chunk(img, i)]
  }

  /** The headers as the last segment should have them: from the input, then zeros. */
  function HeaderContent(img: Image): (s: seq<byte>)
    ensures |s| == img.headers
  {
    HeaderBytes(img) + Zeros(img.headers - |HeaderBytes(img)|)
  }

  /** What each program header's file range should hold, in the order of the headers. */
  function PhdrContents(img: Image, opts: Options, p: Plan): (cs: seq<seq<byte>>)
    requires |img.secs| == |p.secFoffs|
    ensures |cs| == |Phdrs(img, opts, p)|
  {
    [Flatten(PhdrRows(Phdrs(img, opts, p))), opts.interp + [0], Emit([], TablePieces(img, opts, p)),
     Flatten(DynRows(Dynamic(img, opts, p)))]
    + SectionContents(img, opts, p, |img.secs|) + RelroContents(img, opts, p) + [[], HeaderContent(img)]
  }

  lemma {:induction false} SectionRangesHold(img: Image, opts: Options, p: Plan, n: nat, j: nat)
    requires PlanFor(img, opts, p) && n <= |img.secs| == |p.secFoffs| && j < |SectionPhdrs(img, opts, p, n)|
    ensures var q := SectionPhdrs(img, opts, p, n)[j];
      Holds(OutputFile(img, opts, p), q.offset, q.filesz, SectionContents(img, opts, p, n)[j])
  {
    hide PlanFor, OutputFile, Placed, Chunk, Stripped, HasFlag, Writable;
    if j < |SectionPhdrs(img, opts, p, n - 1)| {
      SectionRangesHold(img, opts, p, n - 1, j);
    } else {
      SectionPlaced(img, opts, p, n - 1);
    }
  }

  lemma RelroRangeHolds(img: Image, opts: Options, p: Plan)
    requires PlanFor(img, opts, p) && |img.secs| == |p.secFoffs| && RelroPhdrs(img, opts, p) != []
    ensures var q := RelroPhdrs(img, opts, p)[0];
      Holds(OutputFile(img, opts, p), q.offset, q.filesz, RelroContents(img, opts, p)[0])
  {
    hide PlanFor, OutputFile, Placed, Chunk;
    SectionPlaced(img, opts, p, RelroSection(img, opts).value);
  }

  /** The synthetic segment is the file up to the end of the trampoline. */
  lemma SynthRangeHolds(img: Image, opts: Options, p: Plan)
    requires PlanFor(img, opts, p) && |img.secs| == |p.secFoffs|
    ensures Holds(OutputFile(img, opts, p), 0, SynthPhdr(p).filesz, Emit([], TablePieces(img, opts, p)))
  {
    hide PlanFor, TablePieces, SectionPieces, HeaderPiece, TailPieces, Emit;
    TablesOrdered(img, opts, p);
    var a, b := TablePieces(img, opts, p),
        SectionPieces(img, p, |img.secs|) + ([HeaderPiece(img, p)] + TailPieces(img, opts, p));
    EmitLength([], a);
    assert a + b == Pieces(img, opts, p);
    EmitApp([], a, b);
    EmitKeeps(Emit([], a), b);
  }

  lemma SelfRangeHolds(img: Image, opts: Options, p: Plan)
    requires PlanFor(img, opts, p) && |img.secs| == |p.secFoffs|
    ensures var q := SelfPhdr(p, PhdrCount(img, opts, p));
      Holds(OutputFile(img, opts, p), q.offset, q.filesz, Flatten(PhdrRows(Phdrs(img, opts, p))))
  {
    hide PlanFor, OutputFile, Flatten, Phdrs, PhdrRows, FileHeader, EhdrBytes, PhdrCount;
    FrontPlaced(img, opts, p);
    PieceSizes(img, opts, p);
    var file, front, rows := OutputFile(img, opts, p), Front(img, opts, p), Flatten(PhdrRows(Phdrs(img, opts, p)));
    assert front[EHDR_SIZE..] == rows;
    assert file[EHDR_SIZE..|front|] == file[..|front|][EHDR_SIZE..];
  }

  // ------------------------------------------------------------------------
  // The headers of the input, mapped last
  // ------------------------------------------------------------------------

  lemma HeaderIsNext(img: Image, opts: Options, p: Plan)
    requires PlanFor(img, opts, p) && |img.secs| == |p.secFoffs|
    ensures var ps := Pieces(img, opts, p); var n := |TablePieces(img, opts, p)| + |img.secs|;
      && n < |ps| && ps[n] == HeaderPiece(img, p) && Ordered(0, ps)
      && (opts.keepShdr ==> n + 1 < |ps| && ps[n + 1] == TailPieces(img, opts, p)[0])
      && (!opts.keepShdr ==> n + 1 == |ps|)
  {
    hide PlanFor, TablePieces, Chunk, HeaderBytes, Shstrtab, Shdrs, Flatten, Ordered;
    PiecesOrdered(img, opts, p);
  }

  lemma {:induction false} LastEnds(n: nat, ps: seq<Piece>)
    requires ps != []
    ensures EndOf(n, ps) == ps[|ps| - 1].at + |ps[|ps| - 1].bytes|
    decreases |ps|
  {
    if |ps| > 1 { LastEnds(ps[0].at + |ps[0].bytes|, ps[1..]); }
  }

  /** With section headers the file goes on past the headers of the input, with zeros where the input ran out. */
  lemma HeaderKept(img: Image, opts: Options, p: Plan)
    requires PlanFor(img, opts, p) && |img.secs| == |p.secFoffs| && opts.keepShdr
    ensures Placed(OutputFile(img, opts, p), Piece(p.hdrFoff, HeaderContent(img)))
  {
    hide PlanFor, TablePieces, SectionPieces, Pieces, HeaderBytes, Shstrtab, Shdrs, Flatten, Emit, Ordered, AlignUp;
    HeaderIsNext(img, opts, p);
    var ps, n := Pieces(img, opts, p), |TablePieces(img, opts, p)| + |img.secs|;
    var file, h := Emit([], ps), HeaderBytes(img);
    EmitPlaces([], ps, n);
    EmitGap([], ps, n);
    var e, at := p.hdrFoff + |h|, ShstrFoff(p, img.headers);
    assert p.hdrFoff + img.headers <= at;
    ThenZeros(file, p.hdrFoff, h, at, img.headers);
  }

  /** Content followed by zeros up to `at`, seen up to some point of the zeros. */
  lemma ThenZeros(file: seq<byte>, from: nat, h: seq<byte>, at: nat, n: nat)
    requires Placed(file, Piece(from, h)) && from + |h| <= from + n <= at <= |file|
    requires file[from + |h|..at] == Zeros(at - (from + |h|))
    ensures Placed(file, Piece(from, h + Zeros(n - |h|)))
  {
    var e := from + |h|;
    var want := h + Zeros(n - |h|);
    var got := file[from..from + n];
    forall i | 0 <= i < n ensures got[i] == want[i] {
      if i < |h| { assert got[i] == file[from..e][i]; } else { assert got[i] == file[e..at][i - |h|]; }
    }
  }

  /** Without them the file ends with the headers that the input has. */
  lemma HeaderEnds(img: Image, opts: Options, p: Plan)
    requires PlanFor(img, opts, p) && |img.secs| == |p.secFoffs| && !opts.keepShdr
    ensures |OutputFile(img, opts, p)| == p.hdrFoff + |HeaderBytes(img)|
    ensures Placed(OutputFile(img, opts, p), HeaderPiece(img, p))
  {
    hide PlanFor, TablePieces, SectionPieces, Pieces, HeaderBytes, Emit, Ordered, EndOf;
    HeaderIsNext(img, opts, p);
    var ps := Pieces(img, opts, p);
    LastEnds(0, ps);
    EmitLength([], ps);
    EmitPlaces([], ps, |ps| - 1);
  }

  /** The last PT_LOAD's range is in the file, with the headers and then zeros, exactly when SizeOfHeaders does not pass
      the end of the input or section headers are written after it. */
  lemma HeaderRangeHolds(img: Image, opts: Options, p: Plan)
    requires PlanFor(img, opts, p) && |img.secs| == |p.secFoffs|
    ensures var q := HeaderPhdr(img, p);
      && (Holds(OutputFile(img, opts, p), q.offset, q.filesz, HeaderContent(img))
          <==> img.headers <= |img.buf| || opts.keepShdr)
      && (q.offset + q.filesz <= |OutputFile(img, opts, p)| <==> img.headers <= |img.buf| || opts.keepShdr)
  {
    hide PlanFor, OutputFile, AlignUp;
    if opts.keepShdr {
      HeaderKept(img, opts, p);
    } else {
      HeaderEnds(img, opts, p);
      if img.headers <= |img.buf| { assert HeaderBytes(img) + Zeros(0) == HeaderBytes(img); }
    }
  }

  /** Any other input, converted without section headers, has a PT_LOAD that runs past the end of its file by just what
      its SizeOfHeaders claims too much. */
  lemma HeaderRunsPast(img: Image, opts: Options, p: Plan)
    requires PlanFor(img, opts, p) && |img.secs| == |p.secFoffs| && img.headers > |img.buf| && !opts.keepShdr
    ensures var q := HeaderPhdr(img, p);
      q.offset + q.filesz == |OutputFile(img, opts, p)| + (img.headers - |img.buf|)
  {
    hide PlanFor, OutputFile, AlignUp;
    HeaderEnds(img, opts, p);
  }

  // ------------------------------------------------------------------------
  // Every program header
  // ------------------------------------------------------------------------

  /** Which headers and contents come first. */
  lemma FirstRows(img: Image, opts: Options, p: Plan)
    requires |img.secs| == |p.secFoffs|
    ensures var ps, cs := Phdrs(img, opts, p), PhdrContents(img, opts, p);
      && |ps| >= 6
      && ps[0] == SelfPhdr(p, PhdrCount(img, opts, p)) && cs[0] == Flatten(PhdrRows(ps))
      && ps[1] == InterpPhdr(opts, p) && cs[1] == opts.interp + [0]
      && ps[2] == SynthPhdr(p) && cs[2] == Emit([], TablePieces(img, opts, p))
      && ps[3] == DynamicPhdr(opts, p) && cs[3] == Flatten(DynRows(Dynamic(img, opts, p)))
  {
    hide Flatten, PhdrRows, DynRows, Dynamic, TablePieces, Emit, SectionPhdrs, SectionContents, RelroPhdrs,
         RelroContents, HeaderContent, HeaderPhdr, SynthPhdr, SelfPhdr, InterpPhdr, DynamicPhdr, StackPhdr;
  }

  lemma InterpRangeHolds(img: Image, opts: Options, p: Plan)
    requires PlanFor(img, opts, p) && |img.secs| == |p.secFoffs|
    ensures var q := InterpPhdr(opts, p); Holds(OutputFile(img, opts, p), q.offset, q.filesz, opts.interp + [0])
  {
    hide PlanFor, OutputFile, Placed, FrontPiece, HeaderPiece, HashPiece, TailPieces;
    OtherPiecesPlaced(img, opts, p);
  }

  lemma DynamicRangeHolds(img: Image, opts: Options, p: Plan)
    requires PlanFor(img, opts, p) && |img.secs| == |p.secFoffs|
    ensures var q := DynamicPhdr(opts, p);
      Holds(OutputFile(img, opts, p), q.offset, q.filesz, Flatten(DynRows(Dynamic(img, opts, p))))
  {
    hide PlanFor, OutputFile, Placed, Flatten, DynRows, Dynamic, DynsymPiece, DynstrPiece, RelaPiece, TrampolinePiece,
         DynCount;
    PieceDynamic(img, opts, p);
    TablesPlaced(img, opts, p);
  }

  lemma FixedRangesHold(img: Image, opts: Options, p: Plan, j: nat)
    requires PlanFor(img, opts, p) && |img.secs| == |p.secFoffs| && j < 4
    ensures j < |Phdrs(img, opts, p)|
    ensures var q := Phdrs(img, opts, p)[j];
      Holds(OutputFile(img, opts, p), q.offset, q.filesz, PhdrContents(img, opts, p)[j])
  {
    hide PlanFor, OutputFile, Holds, Flatten, PhdrRows, DynRows, Dynamic, TablePieces, Emit, SynthPhdr, SelfPhdr,
         InterpPhdr, DynamicPhdr, PhdrCount, Phdrs, PhdrContents;
    FirstRows(img, opts, p);
    SelfRangeHolds(img, opts, p);
    InterpRangeHolds(img, opts, p);
    SynthOffset(p);
    SynthRangeHolds(img, opts, p);
    DynamicRangeHolds(img, opts, p);
  }

  /** Which header and which content are at j, past the first four. */
  lemma LaterRow(img: Image, opts: Options, p: Plan, j: nat)
    requires |img.secs| == |p.secFoffs| && 4 <= j < |Phdrs(img, opts, p)|
    ensures var q, c := Phdrs(img, opts, p)[j], PhdrContents(img, opts, p)[j];
      var n := |SectionPhdrs(img, opts, p, |img.secs|)|; var m := 4 + n + |RelroPhdrs(img, opts, p)|;
      && |Phdrs(img, opts, p)| == m + 2
      && (j < 4 + n ==>
            q == SectionPhdrs(img, opts, p, |img.secs|)[j - 4] && c == SectionContents(img, opts, p, |img.secs|)[j - 4])
      && (4 + n <= j < m ==> q == RelroPhdrs(img, opts, p)[0] && c == RelroContents(img, opts, p)[0])
      && (j == m ==> q == StackPhdr() && c == [])
      && (j == m + 1 ==> q == HeaderPhdr(img, p) && c == HeaderContent(img))
  {
    hide Flatten, PhdrRows, DynRows, Dynamic, TablePieces, Emit, SectionPhdrs, SectionContents, RelroPhdrs,
         RelroContents, HeaderContent, HeaderPhdr, SynthPhdr, SelfPhdr, InterpPhdr, DynamicPhdr, StackPhdr;
  }

  /** Every range but that of the headers of the input holds the content built for it. */
  lemma EarlierRangesHold(img: Image, opts: Options, p: Plan, j: nat)
    requires PlanFor(img, opts, p) && |img.secs| == |p.secFoffs| && j + 1 < |Phdrs(img, opts, p)|
    ensures var q := Phdrs(img, opts, p)[j];
      Holds(OutputFile(img, opts, p), q.offset, q.filesz, PhdrContents(img, opts, p)[j])
  {
    hide PlanFor, OutputFile, Placed, Phdrs, PhdrContents, SectionPhdrs, SectionContents, RelroPhdrs, RelroContents,
         PhdrCount;
    var n := |SectionPhdrs(img, opts, p, |img.secs|)|;
    if j < 4 {
      FixedRangesHold(img, opts, p, j);
    } else {
      LaterRow(img, opts, p, j);
      if j < 4 + n {
        SectionRangesHold(img, opts, p, |img.secs|, j - 4);
      } else if j < 4 + n + |RelroPhdrs(img, opts, p)| {
        RelroRangeHolds(img, opts, p);
      } else {
        NothingPlaced(OutputFile(img, opts, p));
      }
    }
  }

  lemma SynthOffset(p: Plan)
    ensures SynthPhdr(p).offset == 0
  {
  }

  lemma NothingPlaced(file: seq<byte>)
    ensures Placed(file, Piece(0, []))
  {
  }

  /** Every program header's file range holds exactly the content built for it, with one exact exception: the headers of
      the input, when they pass its end and nothing is written after them. */
  lemma SegmentsHold(img: Image, opts: Options, p: Plan, j: nat)
    requires PlanFor(img, opts, p) && |img.secs| == |p.secFoffs| && j < |Phdrs(img, opts, p)|
    ensures var q := Phdrs(img, opts, p)[j];
      Holds(OutputFile(img, opts, p), q.offset, q.filesz, PhdrContents(img, opts, p)[j])
      <==> (j == |Phdrs(img, opts, p)| - 1 ==> img.headers <= |img.buf| || opts.keepShdr)
  {
    hide PlanFor, OutputFile, Holds, Phdrs, PhdrContents, SectionPhdrs, RelroPhdrs, HeaderPhdr, HeaderContent,
         PhdrCount;
    if j + 1 < |Phdrs(img, opts, p)| {
      EarlierRangesHold(img, opts, p, j);
    } else {
      FirstRows(img, opts, p);
      LaterRow(img, opts, p, j);
      HeaderRangeHolds(img, opts, p);
    }
  }

  lemma OtherPiecesPlaced(img: Image, opts: Options, p: Plan)
    requires PlanFor(img, opts, p) && |img.secs| == |p.secFoffs|
    ensures var file := OutputFile(img, opts, p);
      && Placed(file, FrontPiece(img, opts, p)) && Placed(file, InterpPiece(opts, p))
      && Placed(file, HeaderPiece(img, p))
      && (opts.so ==> Placed(file, HashPiece(img, opts, p)))
      && forall q :: q in TailPieces(img, opts, p) ==> Placed(file, q)
  {
    hide PlanFor, FrontPiece, InterpPiece, DynsymPiece, DynstrPiece, HashPiece, RelaPiece, DynamicPiece,
         TrampolinePiece, HashData, SectionPieces, HeaderPiece, TailPieces, OutputFile, Placed;
    var t, ps := TablePieces(img, opts, p), Pieces(img, opts, p);
    assert t[0] == FrontPiece(img, opts, p) && t[1] == InterpPiece(opts, p);
    assert ps[|t| + |img.secs|] == HeaderPiece(img, p);
    forall q | q in ps ensures Placed(OutputFile(img, opts, p), q) { PiecePlaced(img, opts, p, q); }
    if opts.so {
      HashNotEmpty(img, opts);
      assert t[4] == HashPiece(img, opts, p);
    }
    var tail := TailPieces(img, opts, p);
    forall q | q in tail ensures q in ps {
      var k :| 0 <= k < |tail| && tail[k] == q;
      assert ps[|ps| - |tail| + k] == q;
    }
  }

  lemma HashNotEmpty(img: Image, opts: Options)
    requires opts.so
    ensures HashData(img, opts) != []
  {
    var w := HashTable.HashWords(Dynsym(img, opts, 0), Dynstr(img, opts));
    hide Dynsym, Dynstr, HashTable.HashWords, Flatten;
    FlattenLength(HashTable.WordRows(w), 4);
  }

  // ------------------------------------------------------------------------
  // Every section header
  // ------------------------------------------------------------------------

  /** What each section header's range should hold; nothing for the null header and for sections without data. */
  function ShdrContents(img: Image, opts: Options, p: Plan): seq<seq<byte>>
    requires |img.secs| == |p.secFoffs|
  {
    [[]] + TableContents(img, opts, p) + Chunks(img) + [Shstrtab(img, opts, p)]
  }

  function TableContents(img: Image, opts: Options, p: Plan): (cs: seq<seq<byte>>)
    ensures |cs| == |TableShdrs(img, opts, p)|
  {
    [DynsymPiece(img, opts, p).bytes, DynstrPiece(img, opts, p).bytes]
    + (if opts.so then [HashPiece(img, opts, p).bytes] else [])
    + [RelaPiece(img, opts, p).bytes, DynamicPiece(img, opts, p).bytes, InterpPiece(opts, p).bytes]
  }

  function Chunks(img: Image): (cs: seq<seq<byte>>)
    ensures |cs| == |img.secs| && forall i :: 0 <= i < |cs| ==> cs[i] == Chunk(img, i)
  {
    seq(|img.secs|, i requires 0 <= i < |img.secs| => Chunk(img, i))
  }

  lemma TableHeadersHold(img: Image, opts: Options, p: Plan, k: nat)
    requires PlanFor(img, opts, p) && |img.secs| == |p.secFoffs| && k < |TableShdrs(img, opts, p)|
    ensures var h := TableShdrs(img, opts, p)[k].header;
      Holds(OutputFile(img, opts, p), h.offset, h.size, TableContents(img, opts, p)[k])
  {
    hide PlanFor, OutputFile, Placed, Flatten, Dynsym, Relas, Dynamic, Dynstr, HashData, RelaCount, SymbolNames,
         FrontPiece, HeaderPiece, TailPieces;
    PieceSizes(img, opts, p);
    TablesPlaced(img, opts, p);
    OtherPiecesPlaced(img, opts, p);
  }

  lemma SectionHeaderHolds(img: Image, opts: Options, p: Plan, i: nat)
    requires PlanFor(img, opts, p) && i < |img.secs| == |p.secFoffs|
    ensures var h := SectionShdr(img, p, i).header;
      h.kind == SHT_NOBITS || Holds(OutputFile(img, opts, p), h.offset, h.size, Chunk(img, i))
  {
    hide PlanFor, OutputFile, Placed, Chunk, HasFlag, CStr;
    SectionPlaced(img, opts, p, i);
  }

  /** Row k of the table, without its name. */
  lemma ShdrRow(img: Image, opts: Options, p: Plan, k: nat)
    requires |img.secs| == |p.secFoffs| && k < |Shdrs(img, opts, p)|
    ensures var h, t := Shdrs(img, opts, p)[k], |TableShdrs(img, opts, p)|;
      && |Shdrs(img, opts, p)| == t + |img.secs| + 2
      && (k == 0 ==> h == Shdr(0, 0, 0, 0, 0, 0, 0, 0, 0, 0))
      && (1 <= k <= t ==> h == TableShdrs(img, opts, p)[k - 1].header.(name := h.name))
      && (t < k <= t + |img.secs| ==> h == SectionShdr(img, p, k - 1 - t).header.(name := h.name))
      && (k == t + |img.secs| + 1 ==> h == StrtabShdr(p, |Shstrtab(img, opts, p)|, img.headers).header.(name := h.name))
  {
    hide TableShdrs, SectionShdr, StrtabShdr, Shstrtab, Strings;
  }

  /** Every row of the section header table describes the file as written, and the table is where the file header
      says. */
  lemma SectionHeadersHold(img: Image, opts: Options, p: Plan, k: nat)
    requires PlanFor(img, opts, p) && |img.secs| == |p.secFoffs| && opts.keepShdr && k < |Shdrs(img, opts, p)|
    ensures |ShdrContents(img, opts, p)| == |Shdrs(img, opts, p)|
    ensures var h := Shdrs(img, opts, p)[k];
      h.kind == SHT_NOBITS || Holds(OutputFile(img, opts, p), h.offset, h.size, ShdrContents(img, opts, p)[k])
    ensures Placed(OutputFile(img, opts, p), Piece(FileHeader(img, opts, p).shoff, Flatten(ShdrRows(Shdrs(img, opts,
        p)))))
  {
    hide PlanFor, OutputFile, Placed, Chunk, Shdrs, TableShdrs, SectionShdr, TableContents, Shstrtab, ShFoff, Flatten,
         SafeEntry, PhdrCount;
    ShdrRow(img, opts, p, k);
    OtherPiecesPlaced(img, opts, p);
    TailIs(img, opts, p);
    var t := |TableShdrs(img, opts, p)|;
    if k == 0 {
      NothingPlaced(OutputFile(img, opts, p));
    } else if k <= t {
      TableHeadersHold(img, opts, p, k - 1);
    } else if k <= t + |img.secs| {
      SectionHeaderHolds(img, opts, p, k - 1 - t);
    }
  }

  lemma TailIs(img: Image, opts: Options, p: Plan)
    requires |img.secs| == |p.secFoffs| && opts.keepShdr
    ensures Piece(ShstrFoff(p, img.headers), Shstrtab(img, opts, p)) in TailPieces(img, opts, p)
    ensures Piece(ShFoff(img, opts, p), Flatten(ShdrRows(Shdrs(img, opts, p)))) in TailPieces(img, opts, p)
  {
    hide ShFoff, ShstrFoff, Shstrtab, Shdrs, Flatten;
  }

  lemma {:induction false} CStrNulFree(s: seq<byte>)
    ensures NulFree(CStr(s))
  {
    if s != [] && s[0] != 0 { CStrNulFree(s[1..]); }
  }

  /** Each section header's name offset is that of its name in the section header string table. */
  lemma HeaderNames(img: Image, opts: Options, p: Plan, k: nat)
    requires |img.secs| == |p.secFoffs| && k + 1 < |Shdrs(img, opts, p)|
    ensures var at := Shdrs(img, opts, p)[k + 1].name;
      at < |Shstrtab(img, opts, p)| && CStr(Shstrtab(img, opts, p)[at..]) == ShNames(img, opts, p)[k]
  {
    hide Strings, SectionShdr, TableShdrs, CStr;
    var strtab := StrtabShdr(p, |Shstrtab(img, opts, p)|, img.headers);
    var hs := TableShdrs(img, opts, p) + SectionShdrs(img, p) + [strtab];
    assert NamesOf(hs) == ShNames(img, opts, p);
    NameNulFree(img, opts, p, hs[k]);
    StringAt([0], ShNames(img, opts, p), k);
  }

  lemma NameNulFree(img: Image, opts: Options, p: Plan, h: Named)
    requires |img.secs| == |p.secFoffs|
    requires h in TableShdrs(img, opts, p) || h in SectionShdrs(img, p) || h.name == N_SHSTRTAB
    ensures NulFree(h.name)
  {
    hide CStr, SizesOf;
    if h in SectionShdrs(img, p) {
      var i: nat :| i < |img.secs| && SectionShdrs(img, p)[i] == h;
      CStrNulFree(img.secs[i].name);
    }
  }

  // ------------------------------------------------------------------------
  // What the kernel does with the headers
  // ------------------------------------------------------------------------

  lemma SecondIsInterp(file: seq<byte>, ps: seq<Phdr>)
    requires |ps| >= 2 && ps[0].kind != 3 && ps[1].kind == 3 && ps[1].offset + ps[1].filesz <= |file|
    ensures InterpreterIn(file, ps) == file[ps[1].offset..ps[1].offset + ps[1].filesz]
  {
    assert ps[1..][0] == ps[1];
    assert InterpreterIn(file, ps) == InterpreterIn(file, ps[1..]);
  }

  /** The kernel finds the interpreter that was asked for, with its terminator. */
  lemma InterpreterRead(img: Image, opts: Options, p: Plan, sites: seq<nat>)
    requires Convertible(img, opts, p, sites)
    ensures var file := OutputFile(img, opts, p); InterpreterIn(file, ReadPhdrs(file)) == opts.interp + [0]
  {
    hide OutputFile, Convertible, ReadPhdrs, InterpreterIn, PlanFor, SectionPhdrs, RelroPhdrs, PhdrCount;
    PhdrsRead(img, opts, p, sites);
    PlanSections2(img, opts, p, sites);
    InterpRangeHolds(img, opts, p);
    SecondIsInterp(OutputFile(img, opts, p), Phdrs(img, opts, p));
  }

  predicate Right(q: Phdr, bit: nat)
    requires bit > 0
  {
    q.flags / bit % 2 == 1
  }

  predicate Flagged(s: Section, bit: nat)
    requires bit > 0
  {
    s.characteristics / bit % 2 == 1
  }

  lemma SectionRights(img: Image, p: Plan, i: nat)
    requires i < |img.secs| == |p.secFoffs|
    ensures var q, s := SectionPhdr(img, p, i), img.secs[i];
      && (Right(q, 1) <==> Flagged(s, 0x2000_0000)) && (Right(q, 4) <==> Flagged(s, 0x4000_0000))
      && (Right(q, 2) <==> Writable(img, i))
  {
    hide Writable;
  }

  /** Read from the file, the one segment that maps a byte of a kept section is executable, readable and writable as the
      section's own characteristics say, and writable besides if the section holds an import slot or a relocation. */
  lemma SegmentRights(img: Image, opts: Options, p: Plan, sites: seq<nat>, i: nat, k: nat, q: Phdr)
    requires Convertible(img, opts, p, sites) && i < |img.secs| && k < Extent(img.secs[i])
    requires q in ReadPhdrs(OutputFile(img, opts, p)) && Maps(q, img.base + img.secs[i].va + k)
    ensures var s := img.secs[i];
      && (Right(q, 1) <==> Flagged(s, 0x2000_0000)) && (Right(q, 4) <==> Flagged(s, 0x4000_0000))
      && (Right(q, 2) <==> Flagged(s, 0x8000_0000) || i in IatSections(img.secs, img.imports) || HoldsReloc(img, s))
  {
    hide OutputFile, Convertible, ReadPhdrs, Phdrs, Settled, SectionsOk, SitesOk, RelocsOf, TablesFit, NamesOk, Maps,
         SectionPhdr, Right, IatSections, HoldsReloc;
    PhdrsRead(img, opts, p, sites);
    IsSettled(img, opts, p, sites);
    ConvertibleFits(img, opts, p, sites);
    OnlySection(img, opts, p, i, k, q);
    SectionRights(img, p, i);
  }

  lemma {:induction false} SlotSections(img: Image, n: nat, j: nat)
    requires j < n <= |img.imports|
    ensures SectionOf(img.secs, img.imports[j].iatRva) in IatSections(img.secs, img.imports[..n])
  {
    hide SectionOf;
    assert img.imports[..n][..n - 1] == img.imports[..n - 1];
    if j < n - 1 { SlotSections(img, n - 1, j); }
  }

  lemma {:induction false} SlotSectionsOnly(img: Image, n: nat, x: int)
    requires n <= |img.imports| && x in IatSections(img.secs, img.imports[..n])
    ensures exists j :: 0 <= j < n && SectionOf(img.secs, img.imports[j].iatRva) == x
  {
    hide SectionOf;
    assert img.imports[..n][..n - 1] == img.imports[..n - 1];
    if x in IatSections(img.secs, img.imports[..n - 1]) { SlotSectionsOnly(img, n - 1, x); }
  }

  ghost predicate NoneTwice(s: seq<int>) { forall a, b :: 0 <= a < b < |s| ==> s[a] != s[b] }

  lemma OneMore(s: seq<int>, x: int)
    requires NoneTwice(s) && x !in s
    ensures NoneTwice(s + [x])
  {
    var t := s + [x];
    forall a, b | 0 <= a < b < |t| ensures t[a] != t[b] { assert a < |s| && s[a] in s; }
  }

  lemma {:induction false} SectionsOnce(img: Image, n: nat)
    requires n <= |img.imports|
    ensures NoneTwice(IatSections(img.secs, img.imports[..n]))
  {
    hide SectionOf;
    if n > 0 {
      var was, x := IatSections(img.secs, img.imports[..n - 1]), SectionOf(img.secs, img.imports[n - 1].iatRva);
      assert img.imports[..n][..n - 1] == img.imports[..n - 1];
      SectionsOnce(img, n - 1);
      hide NoneTwice;
      if x !in was { OneMore(was, x); }
    }
  }

  /** All import slots are in section i. */
  ghost predicate SlotsIn(img: Image, i: nat) {
    img.imports != [] && forall j :: 0 <= j < |img.imports| ==> SectionOf(img.secs, img.imports[j].iatRva) == i
  }

  lemma RelroIs(img: Image, opts: Options, i: nat)
    requires i < |img.secs|
    ensures RelroSection(img, opts) == Some(i) <==> SlotsIn(img, i) && !Stripped(opts, img.secs[i])
  {
    hide SectionOf, Stripped, IatSections;
    var n := |img.imports|;
    var held := IatSections(img.secs, img.imports);
    assert img.imports[..n] == img.imports;
    SectionsOnce(img, n);
    assert |held| > 1 ==> held[0] != held[1];
    if SlotsIn(img, i) {
      SlotSections(img, n, 0);
      forall a | 0 <= a < |held| ensures held[a] == i {
        assert held[a] in held;
        SlotSectionsOnly(img, n, held[a]);
      }
      assert |held| <= 1;
    }
    assert |held| == 1 && held[0] == i ==> held == [i];
    if held == [i] {
      assert held[0] == i && i in held && forall x :: x in held ==> x == i;
      SlotSectionsOnly(img, n, i);
      forall j | 0 <= j < n ensures SectionOf(img.secs, img.imports[j].iatRva) == i { SlotSections(img, n, j); }
    }
  }

  /** Read from the file, a PT_GNU_RELRO range covers every import slot; there is one exactly when one kept section
      holds them all. The stack is readable and writable and not executable. */
  lemma RelroCovers(img: Image, opts: Options, p: Plan, sites: seq<nat>)
    requires Convertible(img, opts, p, sites)
    ensures var ps := ReadPhdrs(OutputFile(img, opts, p));
      && ((exists q :: q in ps && q.kind == 0x6474_e552)
          <==> exists i: nat :: i < |img.secs| && SlotsIn(img, i) && !Stripped(opts, img.secs[i]))
      && (forall q, j :: q in ps && q.kind == 0x6474_e552 && 0 <= j < |img.imports| ==>
            InRelro(q, img.base + img.imports[j].iatRva))
      && (exists q :: q in ps && q.kind == 0x6474_e551 && q.flags == 6)
  {
    hide OutputFile, Convertible, ReadPhdrs, Phdrs, PlanFor, SlotsIn, Stripped, RelroPhdrs, RelroSection, SectionsOk,
         SitesOk, RelocsOf, TablesFit, NamesOk, InRelro;
    PhdrsRead(img, opts, p, sites);
    PlanSections2(img, opts, p, sites);
    ConvertibleFits(img, opts, p, sites);
    var ps := Phdrs(img, opts, p);
    RelroListed(img, opts, p);
    forall i: nat | i < |img.secs|
      ensures RelroSection(img, opts) == Some(i) <==> SlotsIn(img, i) && !Stripped(opts, img.secs[i])
    {
      RelroIs(img, opts, i);
    }
    RelroBound(img, opts);
    forall q, j | q in ps && q.kind == 0x6474_e552 && 0 <= j < |img.imports|
      ensures InRelro(q, img.base + img.imports[j].iatRva)
    {
      SlotInRelro(img, opts, p, sites, q, j);
    }
  }

  predicate InRelro(q: Phdr, at: nat) { q.vaddr <= at && at + 8 <= q.vaddr + q.memsz }

  lemma RelroBound(img: Image, opts: Options)
    ensures RelroSection(img, opts).Some? ==> RelroSection(img, opts).value < |img.secs|
  {
  }

  lemma RelroListed(img: Image, opts: Options, p: Plan)
    requires |img.secs| == |p.secFoffs|
    ensures var ps := Phdrs(img, opts, p);
      && (forall q :: q in ps && q.kind == 0x6474_e552 <==> q in RelroPhdrs(img, opts, p))
      && (RelroPhdrs(img, opts, p) != [] <==> RelroSection(img, opts).Some?)
      && (RelroPhdrs(img, opts, p) != [] ==> RelroPhdrs(img, opts, p)[0] in RelroPhdrs(img, opts, p))
      && StackPhdr() in ps && StackPhdr().kind == 0x6474_e551 && StackPhdr().flags == 6
  {
    hide RelroSection, Stripped, HasFlag, Writable, SectionPhdrs, PhdrCount;
    var ps, rs := Phdrs(img, opts, p), RelroPhdrs(img, opts, p);
    forall q | q in ps && q.kind == 0x6474_e552 ensures q in rs { PhdrIs(img, opts, p, q); }
    assert forall q :: q in rs ==> q in ps;
  }

  lemma SlotInRelro(img: Image, opts: Options, p: Plan, sites: seq<nat>, q: Phdr, j: nat)
    requires |img.secs| == |p.secFoffs| && SectionsOk(img) && SitesOk(img, sites) && j < |img.imports|
    requires q in Phdrs(img, opts, p) && q.kind == 0x6474_e552
    ensures InRelro(q, img.base + img.imports[j].iatRva)
  {
    hide Phdrs, Stripped, RelroSection, SectionsOk, InSection;
    RelroListed(img, opts, p);
    RelroBound(img, opts);
    var at := img.imports[j].iatRva;
    assert Inside(img, at);
    var s := SectionHolding(img, at);
    RelroIs(img, opts, RelroSection(img, opts).value);
    HeldAt(img, s, at);
  }

  lemma HeldAt(img: Image, s: nat, at: nat)
    requires SectionsOk(img) && InSection(img, s, at)
    ensures SectionOf(img.secs, at) == s && img.secs[s].va <= at && at + 8 <= img.secs[s].va + img.secs[s].rawsz
  {
    SectionIs(img, s, at);
  }

  /** What q describes in the file is, in memory, where q says: some PT_LOAD takes it there. */
  ghost predicate TakenBy(q: Phdr, l: Phdr) {
    && l.kind == 1 && l.vaddr <= q.vaddr && q.vaddr + q.filesz <= l.vaddr + l.filesz
    && q.vaddr - l.vaddr == q.offset - l.offset
  }

  lemma TablesTaken(img: Image, opts: Options, p: Plan)
    requires PlanFor(img, opts, p) && |img.secs| == |p.secFoffs|
    ensures var l := SynthPhdr(p);
      TakenBy(SelfPhdr(p, PhdrCount(img, opts, p)), l) && TakenBy(InterpPhdr(opts, p), l)
      && TakenBy(DynamicPhdr(opts, p), l)
  {
    SizesAre(img, opts);
    hide SizesOf, PhdrCount, DynCount, Shadow;
    var z, n := SizesOf(img, opts), PhdrCount(img, opts, p);
    assert IsPlan(img.base, img.secs, z, p);
    hide IsPlan, PlanFor;
    ShadowsAre(img.base, img.secs, z, p);
    PartsInOrder(img.base, img.secs, z, p);
    assert n * PHDR_SIZE <= PhdrsMax(|img.secs|) * PHDR_SIZE;
  }

  lemma SizesAre(img: Image, opts: Options)
    ensures SizesOf(img, opts).interp == |opts.interp| + 1 && SizesOf(img, opts).dyns == DynCount(opts)
  {
    hide Dynstr, SymbolNames, HashData, RelaCount;
  }

  lemma ShadowsAre(base: nat, secs: seq<Section>, z: Sizes, p: Plan)
    requires IsPlan(base, secs, z, p)
    ensures p.interp.va - p.synthVa == p.interp.foff && p.dynamic.va - p.synthVa == p.dynamic.foff
  {
    AddressesFollowOffsets(base, secs, z, p);
    hide IsPlan;
  }

  /** Read from the file: the program headers themselves, the interpreter, the dynamic section and the RELRO range are
      each mapped where their header says. */
  lemma NestedHeaders(img: Image, opts: Options, p: Plan, sites: seq<nat>, q: Phdr)
    requires Convertible(img, opts, p, sites) && q in ReadPhdrs(OutputFile(img, opts, p))
    requires q.kind in [2, 3, 6, 0x6474_e552]
    ensures exists l :: l in ReadPhdrs(OutputFile(img, opts, p)) && TakenBy(q, l)
  {
    hide OutputFile, Convertible, ReadPhdrs, Phdrs, PlanFor, RelroPhdrs, PhdrCount, TakenBy, SectionPhdr;
    PhdrsRead(img, opts, p, sites);
    PlanSections2(img, opts, p, sites);
    TablesTaken(img, opts, p);
    SynthListed(img, opts, p);
    PhdrIs(img, opts, p, q);
    if q in RelroPhdrs(img, opts, p) { RelroTaken(img, opts, p, q); } else { SectionKinds(img, p); }
  }

  lemma SectionKinds(img: Image, p: Plan)
    requires |img.secs| == |p.secFoffs|
    ensures forall i: nat :: i < |img.secs| ==> SectionPhdr(img, p, i).kind == 1
  {
    hide Writable, HasFlag;
  }

  lemma RelroTaken(img: Image, opts: Options, p: Plan, q: Phdr)
    requires |img.secs| == |p.secFoffs| && q in RelroPhdrs(img, opts, p)
    ensures exists l :: l in Phdrs(img, opts, p) && TakenBy(q, l)
  {
    hide Phdrs, IatSections, Writable, HasFlag, Stripped;
    var i := RelroSection(img, opts).value;
    SectionListed(img, opts, p, i);
    assert TakenBy(q, SectionPhdr(img, p, i));
  }

  // ------------------------------------------------------------------------
  // What the section headers say of each other
  // ------------------------------------------------------------------------

  lemma TableRows(img: Image, opts: Options, p: Plan)
    ensures var ns := TableShdrs(img, opts, p); var t := if opts.so then 6 else 5;
      && |ns| == t && ns[0].header.kind == 11 && ns[0].header.addr == p.dynsym.va
      && ns[1].header.kind == 3 && ns[1].header.addr == p.dynstr.va
      && (forall i :: 0 <= i < t && ns[i].header.kind in [11, 6] ==> ns[i].header.link == 2)
      && (forall i :: 0 <= i < t && ns[i].header.kind in [5, 4] ==> ns[i].header.link == 1)
  {
    hide SizesOf;
  }

  lemma PlacedRows(img: Image, opts: Options, p: Plan)
    requires |img.secs| == |p.secFoffs|
    ensures var hs, ns, t := Shdrs(img, opts, p), TableShdrs(img, opts, p), |TableShdrs(img, opts, p)|;
      && |hs| == t + |img.secs| + 2 && hs[0].kind == 0 && hs[|hs| - 1].kind == 3
      && (forall i :: 1 <= i <= t ==> hs[i] == ns[i - 1].header.(name := hs[i].name))
      && (forall i :: t < i <= t + |img.secs| ==> hs[i] == SectionShdr(img, p, i - 1 - t).header.(name := hs[i].name))
  {
    hide TableShdrs, SectionShdr, StrOff, Shstrtab;
    var all := TableShdrs(img, opts, p) + SectionShdrs(img, p) + [StrtabShdr(p, |Shstrtab(img, opts, p)|, img.headers)];
    assert Shdrs(img, opts, p)[1..] == Placing(all);
    var hs := Shdrs(img, opts, p);
    assert forall i :: 1 <= i < |hs| ==> hs[i] == hs[1..][i - 1];
  }

  /** The links lead where their types say: .dynsym and .dynamic to the string table, .hash and .rela.dyn to .dynsym,
      and the flags of a PE section's header are its own. */
  lemma SectionHeaderLinks(img: Image, opts: Options, p: Plan)
    requires |img.secs| == |p.secFoffs|
    ensures var hs := Shdrs(img, opts, p); var t := if opts.so then 6 else 5;
      && |hs| == t + |img.secs| + 2
      && (forall i :: 0 <= i < |hs| && hs[i].kind in [11, 6] ==> LinksTo(hs, i, 3, p.dynstr.va))
      && (forall i :: 0 <= i < |hs| && hs[i].kind in [5, 4] ==> LinksTo(hs, i, 11, p.dynsym.va))
      && (forall i :: t < i <= t + |img.secs| ==> HeaderOfSection(hs[i], img, i - 1 - t))
  {
    hide Shdrs, TableShdrs;
    TableRows(img, opts, p);
    PlacedRows(img, opts, p);
    SectionRows(img, p);
    hide SectionShdr;
  }

  lemma SectionRows(img: Image, p: Plan)
    requires |img.secs| == |p.secFoffs|
    ensures forall i, name :: 0 <= i < |img.secs| ==>
      HeaderOfSection(SectionShdr(img, p, i).header.(name := name), img, i)
  {
  }

  predicate LinksTo(hs: seq<Shdr>, i: nat, kind: nat, addr: nat)
    requires i < |hs|
  {
    hs[i].link < |hs| && hs[hs[i].link].kind == kind && hs[hs[i].link].addr == addr
  }

  predicate HeaderOfSection(h: Shdr, img: Image, i: nat)
    requires i < |img.secs|
  {
    var s := img.secs[i];
    && h.addr == img.base + s.va && h.size == (if s.rawsz == 0 then s.virtsz else s.rawsz)
    && (h.kind == 8 || h.kind == 1) && (h.kind == 8 <==> s.rawsz == 0)
    && h.flags == 2 + (if Flagged(s, 0x8000_0000) then 1 else 0) + (if Flagged(s, 0x2000_0000) then 4 else 0)
  }
}
