/** What a loader reads back from the converted file: its segments, its dynamic section, its relocations and the
    names of its symbols are the ones that were built. */
module FileReads {
  import opened Bytes
  import opened ElfFormat
  import opened PeImage
  import opened PeLoader
  import opened Layout
  import opened Names
  import HashTable
  import opened Output
  import opened Build
  import opened Assemble
  import opened ElfLoader

  // ------------------------------------------------------------------------
  // Inputs
  // ------------------------------------------------------------------------

  /** The tables fit their fields: symbol indexes and string offsets have 32 bits. */
  ghost predicate TablesFit(img: Image, opts: Options) {
    && |Dynstr(img, opts)| < U32 && |img.imports| + |img.relocs| + 10 < U32 && |opts.interp| + 1 < U32
    && img.tls.template < U64 && img.tls.index < U64 && img.tls.callbacks < U64
  }

  /** Import names are C strings. */
  ghost predicate NamesOk(img: Image) {
    forall j :: 0 <= j < |img.imports| ==> NulFree(img.imports[j].dll) && NulFree(img.imports[j].func)
  }

  /** The parser takes no more sections than this. */
  const MAX_SECTIONS: nat := 96

  /** A well-formed image whose synthetic segment ends at or below its base. */
  ghost predicate Convertible(img: Image, opts: Options, p: Plan, sites: seq<nat>) {
    && PlanFor(img, opts, p) && p.synthEnd <= img.base
    && SectionsOk(img) && |img.secs| <= MAX_SECTIONS
    && SitesOk(img, sites) && img.relocs == RelocsOf(img, sites)
    && TablesFit(img, opts) && NamesOk(img)
  }

  // ------------------------------------------------------------------------
  // Where things are
  // ------------------------------------------------------------------------

  function SynthSize(p: Plan): nat { p.tramp.foff + TRAMPOLINE_SIZE }

  /** The plan's numbers that the rest relies on. */
  ghost predicate Settled(img: Image, opts: Options, p: Plan) {
    && |img.secs| == |p.secFoffs| && |img.secs| <= MAX_SECTIONS
    && p.synthVa % PAGE == 0 && p.synthVa + SynthSize(p) <= p.synthEnd <= img.base && p.synthEnd % PAGE == 0
    && p.synthEnd < p.synthVa + SynthSize(p) + PAGE
    && Shadow(p.synthVa, p.interp) && Shadow(p.synthVa, p.dynsym) && Shadow(p.synthVa, p.dynstr)
    && Shadow(p.synthVa, p.rela) && Shadow(p.synthVa, p.dynamic) && Shadow(p.synthVa, p.tramp)
    && p.interp.foff <= p.dynsym.foff <= p.dynstr.foff <= p.rela.foff <= p.dynamic.foff <= p.tramp.foff
  }

  lemma IsSettled(img: Image, opts: Options, p: Plan, sites: seq<nat>)
    requires Convertible(img, opts, p, sites)
    ensures Settled(img, opts, p)
  {
    hide SizesOf, SitesOk, TablesFit, NamesOk, RelocsOf;
    var z := SizesOf(img, opts);
    AddressesFollowOffsets(img.base, img.secs, z, p);
    PartsInOrder(img.base, img.secs, z, p);
    SynthOnPage(img.base, z);
    PlanSections(img, opts, p);
    hide AlignUp, Follows, SectionsPlaced;
  }

  lemma HashSize(img: Image, opts: Options)
    ensures |HashData(img, opts)| <= 4 * (4 + 2 * |SymbolNames(img, opts)|)
  {
    if opts.so {
      hide HashTable.HashWords, SymbolNames;
      var w := HashTable.HashWords(Dynsym(img, opts, 0), Dynstr(img, opts));
      hide Dynsym, Dynstr, Flatten;
      FlattenLength(HashTable.WordRows(w), 4);
    }
  }

  lemma NamesCount(img: Image, opts: Options)
    ensures |SymbolNames(img, opts)| <= |img.imports| + 2
  {
    UniqueHolds(img.imports);
  }

  ghost predicate SizesSmall(z: Sizes) {
    z.interp < U32 && z.syms <= U32 && z.dynstr < U32 && z.hash <= 12 * U32 && z.relas <= U32 && z.dyns <= 14
  }

  lemma SizesAreSmall(img: Image, opts: Options)
    requires TablesFit(img, opts)
    ensures SizesSmall(SizesOf(img, opts))
  {
    hide SymbolNames, Dynstr, HashData;
    HashSize(img, opts);
    NamesCount(img, opts);
  }

  lemma TablesSmall(z: Sizes)
    requires SizesSmall(z)
    ensures TablesSize(z) < 0x100 * U32
  {
    hide AlignUp;
  }

  lemma RawSmall(img: Image)
    requires SectionsOk(img)
    ensures forall i :: 0 <= i < |img.secs| ==> img.secs[i].rawsz < U32
  {
    assert forall i :: 0 <= i < |img.secs| ==> SectionOk(img, img.secs[i]);
    hide AlignUp;
  }

  /** No offset in the file comes near 2^64. */
  lemma OffsetsSmall(img: Image, opts: Options, p: Plan, sites: seq<nat>)
    requires Convertible(img, opts, p, sites)
    ensures p.hdrFoff < 0x1000 * U32 && forall i :: 0 <= i < |p.secFoffs| ==> p.secFoffs[i] < 0x1000 * U32
  {
    hide SitesOk, NamesOk, RelocsOf, SectionsOk, TablesFit, TablesSize, SizesOf, AlignUp, NextFoff, HeadersEnd,
         UsesFallback, Chained, Follows;
    var z := SizesOf(img, opts);
    SizesAreSmall(img, opts);
    TablesSmall(z);
    HeadersEndIs(|img.secs|);
    RawSmall(img);
    SectionsChained(img, opts, p);
    FoffsBounded(img.secs, p.dataFoff);
    TrampolineAt(img.base, img.secs, z, p);
    assert p.dataFoff < p.tramp.foff + TRAMPOLINE_SIZE + PAGE;
  }

  // ------------------------------------------------------------------------
  // The program headers
  // ------------------------------------------------------------------------

  lemma {:induction false} SectionPhdrsFrom(img: Image, opts: Options, p: Plan, n: nat, q: Phdr)
    requires n <= |img.secs| == |p.secFoffs|
    ensures q in SectionPhdrs(img, opts, p, n)
      <==> exists i: nat :: i < n && !Stripped(opts, img.secs[i]) && q == SectionPhdr(img, p, i)
  {
    hide SectionPhdr, Stripped;
    if n > 0 {
      SectionPhdrsFrom(img, opts, p, n - 1, q);
    }
  }

  /** The headers there can be. */
  lemma PhdrIs(img: Image, opts: Options, p: Plan, q: Phdr)
    requires |img.secs| == |p.secFoffs| && q in Phdrs(img, opts, p)
    ensures || q == SelfPhdr(p, PhdrCount(img, opts, p)) || q == InterpPhdr(opts, p) || q == SynthPhdr(p)
            || q == DynamicPhdr(opts, p) || q == StackPhdr() || q == HeaderPhdr(img, p) || q in RelroPhdrs(img, opts, p)
            || exists i: nat :: i < |img.secs| && !Stripped(opts, img.secs[i]) && q == SectionPhdr(img, p, i)
  {
    hide SelfPhdr, InterpPhdr, SynthPhdr, DynamicPhdr, StackPhdr, HeaderPhdr, RelroPhdrs, SectionPhdrs, SectionPhdr,
         PhdrCount;
    SectionPhdrsFrom(img, opts, p, |img.secs|, q);
  }

  lemma LoadIs(img: Image, opts: Options, p: Plan, q: Phdr)
    requires |img.secs| == |p.secFoffs| && q in Phdrs(img, opts, p) && q.kind == PT_LOAD
    ensures q == SynthPhdr(p) || q == HeaderPhdr(img, p)
         || exists i: nat :: i < |img.secs| && !Stripped(opts, img.secs[i]) && q == SectionPhdr(img, p, i)
  {
    hide SynthPhdr, HeaderPhdr, RelroPhdrs, SectionPhdr, PhdrCount, Phdrs;
    PhdrIs(img, opts, p, q);
  }

  lemma SectionListed(img: Image, opts: Options, p: Plan, i: nat)
    requires |img.secs| == |p.secFoffs| && i < |img.secs| && !Stripped(opts, img.secs[i])
    ensures SectionPhdr(img, p, i) in Phdrs(img, opts, p)
  {
    hide SelfPhdr, InterpPhdr, SynthPhdr, DynamicPhdr, StackPhdr, HeaderPhdr, RelroPhdrs, SectionPhdrs, SectionPhdr,
         PhdrCount;
    SectionPhdrsFrom(img, opts, p, |img.secs|, SectionPhdr(img, p, i));
  }

  lemma SectionPhdrFits(img: Image, p: Plan, i: nat)
    requires SectionsOk(img) && i < |img.secs| == |p.secFoffs| && p.secFoffs[i] < 0x1000 * U32
    ensures PhdrFits(SectionPhdr(img, p, i))
  {
    assert SectionOk(img, img.secs[i]);
    hide SectionsOk, AlignUp, HasFlag, Writable;
  }

  lemma OtherPhdrsFit(img: Image, opts: Options, p: Plan)
    requires Settled(img, opts, p) && p.hdrFoff < 0x1000 * U32 && img.headers < U32 && img.base + U32 <= U64
    requires |opts.interp| + 1 < U32
    ensures PhdrFits(SelfPhdr(p, PhdrCount(img, opts, p))) && PhdrFits(InterpPhdr(opts, p)) && PhdrFits(SynthPhdr(p))
    ensures PhdrFits(DynamicPhdr(opts, p)) && PhdrFits(StackPhdr()) && PhdrFits(HeaderPhdr(img, p))
  {
    var n := PhdrCount(img, opts, p);
    hide AlignUp, PhdrCount;
  }

  lemma RelroFits(img: Image, opts: Options, p: Plan, q: Phdr)
    requires SectionsOk(img) && |img.secs| == |p.secFoffs| && q in RelroPhdrs(img, opts, p)
    requires forall i :: 0 <= i < |p.secFoffs| ==> p.secFoffs[i] < 0x1000 * U32
    ensures PhdrFits(q)
  {
    var i := RelroSection(img, opts).value;
    hide RelroSection;
    assert SectionOk(img, img.secs[i]);
    hide SectionsOk, AlignUp;
  }

  /** Every header fits its fields. */
  lemma PhdrsFit(img: Image, opts: Options, p: Plan, sites: seq<nat>, q: Phdr)
    requires Convertible(img, opts, p, sites) && |img.secs| == |p.secFoffs| && q in Phdrs(img, opts, p)
    ensures PhdrFits(q)
  {
    hide PlanFor, SitesOk, RelocsOf, NamesOk, Phdrs, PhdrCount, SizesOf, UsesFallback, PhdrFits, Settled, SectionPhdr,
         RelroPhdrs, SelfPhdr, InterpPhdr, SynthPhdr, DynamicPhdr, StackPhdr, HeaderPhdr, Dynstr;
    IsSettled(img, opts, p, sites);
    OffsetsSmall(img, opts, p, sites);
    OtherPhdrsFit(img, opts, p);
    PhdrIs(img, opts, p, q);
    if q in RelroPhdrs(img, opts, p) {
      RelroFits(img, opts, p, q);
    } else if i: nat :| i < |img.secs| && q == SectionPhdr(img, p, i) {
      SectionPhdrFits(img, p, i);
    }
  }

  lemma FrontPlaced(img: Image, opts: Options, p: Plan)
    requires PlanFor(img, opts, p) && |img.secs| == |p.secFoffs|
    ensures var file, front := OutputFile(img, opts, p), Front(img, opts, p);
      |front| <= |file| && file[..|front|] == front
  {
    hide Front, PlanFor, InterpPiece, DynsymPiece, DynstrPiece, HashPiece, RelaPiece, DynamicPiece, TrampolinePiece,
         HashData, SectionPieces, HeaderPiece, TailPieces, OutputFile;
    var q := FrontPiece(img, opts, p);
    assert TablePieces(img, opts, p)[0] == q;
    assert Pieces(img, opts, p)[0] == q;
    PiecePlaced(img, opts, p, q);
  }

  /** A loader reads exactly the program headers that were built, and the type of the file. */
  lemma PhdrsRead(img: Image, opts: Options, p: Plan, sites: seq<nat>)
    requires Convertible(img, opts, p, sites)
    ensures |img.secs| == |p.secFoffs|
    ensures var file := OutputFile(img, opts, p);
      && ReadPhdrs(file) == Phdrs(img, opts, p)
      && forall bias :: RunBias(file, bias) == if opts.pie || opts.so then bias else 0
  {
    hide Phdrs, OutputFile, Convertible;
    PlanSections2(img, opts, p, sites);
    FrontPlaced(img, opts, p);
    var ps, e := Phdrs(img, opts, p), FileHeader(img, opts, p);
    forall i | 0 <= i < |ps| ensures PhdrFits(ps[i]) { PhdrsFit(img, opts, p, sites, ps[i]); }
    hide Shdrs, ShFoff, SafeEntry, PhdrFits, ReadPhdrs, Flatten, EhdrBytes;
    ReadPhdrsBack(OutputFile(img, opts, p), e, ps);
  }

  lemma PlanSections2(img: Image, opts: Options, p: Plan, sites: seq<nat>)
    requires Convertible(img, opts, p, sites)
    ensures PlanFor(img, opts, p) && |img.secs| == |p.secFoffs| <= MAX_SECTIONS
  {
    PlanSections(img, opts, p);
  }

  lemma EntryBelow(img: Image, i: nat)
    requires SectionsOk(img) && i <= |img.secs|
    ensures SafeEntry(img, i) < U64
    decreases |img.secs| - i
  {
    if i < |img.secs| {
      assert SectionOk(img, img.secs[i]);
      hide SectionsOk, HasFlag;
      EntryBelow(img, i + 1);
    }
  }

  lemma HeaderPart(file: seq<byte>, e: Ehdr)
    requires |file| >= EHDR_SIZE && file[..EHDR_SIZE] == EhdrBytes(e) && (e.kind == 2 || e.kind == 3) && e.phnum < U16
    ensures Acceptable(file) && (e.entry < U64 ==> EntryOf(file) == e.entry)
    ensures (e.shoff < U64 ==> Field(file, 40, 8) == e.shoff) && (e.shnum < U16 ==> Field(file, 60, 2) == e.shnum)
    ensures e.shstrndx < U16 ==> Field(file, 62, 2) == e.shstrndx
  {
    var head := EhdrBytes(e);
    EhdrRead(e);
    EhdrRest(e);
    hide EhdrBytes, Field;
    FrontField(file, head, 16, 2);
    FrontField(file, head, 18, 2);
    FrontField(file, head, 20, 4);
    FrontField(file, head, 24, 8);
    FrontField(file, head, 40, 8);
    FrontField(file, head, 54, 2);
    FrontField(file, head, 60, 2);
    FrontField(file, head, 62, 2);
    assert file[..7] == file[..EHDR_SIZE][..7];
  }

  /** A loader accepts the file, and its entry point is the trampoline or, in a shared object, the byte chosen for it;
      with section headers kept, the file header leads to them and to their names. */
  lemma HeaderRead(img: Image, opts: Options, p: Plan)
    requires PlanFor(img, opts, p) && |img.secs| == |p.secFoffs| && |img.secs| <= MAX_SECTIONS
    ensures var file, n := OutputFile(img, opts, p), |Shdrs(img, opts, p)|;
      var entry := if opts.so then SafeEntry(img, 0) else p.tramp.va;
      && Acceptable(file) && (entry < U64 ==> EntryOf(file) == entry)
      && (opts.keepShdr && ShFoff(img, opts, p) < U64 && n < U16 ==>
            Field(file, 40, 8) == ShFoff(img, opts, p) && Field(file, 60, 2) == n && Field(file, 62, 2) == n - 1)
  {
    hide Phdrs, OutputFile, PlanFor, SafeEntry, Shdrs, ShFoff, PhdrCount, Flatten, EhdrBytes, Field;
    FrontPlaced(img, opts, p);
    var file, e := OutputFile(img, opts, p), FileHeader(img, opts, p);
    ShdrsNotEmpty(img, opts, p);
    assert file[..EHDR_SIZE] == file[..|Front(img, opts, p)|][..EHDR_SIZE];
    assert file[..EHDR_SIZE] == EhdrBytes(e);
    HeaderPart(file, e);
  }

  lemma ShdrsNotEmpty(img: Image, opts: Options, p: Plan)
    requires |img.secs| == |p.secFoffs|
    ensures |Shdrs(img, opts, p)| >= 1
  {
    hide Placing;
  }
}
