/** The dynamic section, the relocations and the symbol names that a loader finds in memory are those built. */
module TablesRead {
  import opened Common
  import opened Bytes
  import opened ElfFormat
  import opened PeImage
  import opened PeLoader
  import opened Layout
  import opened Names
  import opened Output
  import opened Build
  import opened Assemble
  import opened ElfLoader
  import opened FileReads
  import opened Mapping

  // ------------------------------------------------------------------------
  // Placed tables
  // ------------------------------------------------------------------------

  /** The pieces that a loader reads through memory. */
  function Tables(img: Image, opts: Options, p: Plan): seq<Piece> {
    [DynsymPiece(img, opts, p), DynstrPiece(img, opts, p), RelaPiece(img, opts, p), DynamicPiece(img, opts, p),
        TrampolinePiece(img, p)]
  }

  lemma TablesPlaced(img: Image, opts: Options, p: Plan)
    requires PlanFor(img, opts, p) && |img.secs| == |p.secFoffs|
    ensures var file := OutputFile(img, opts, p);
      && Placed(file, DynsymPiece(img, opts, p)) && Placed(file, DynstrPiece(img, opts, p))
      && Placed(file, RelaPiece(img, opts, p)) && Placed(file, DynamicPiece(img, opts, p))
      && Placed(file, TrampolinePiece(img, p))
  {
    hide PlanFor, FrontPiece, InterpPiece, DynsymPiece, DynstrPiece, HashPiece, RelaPiece, DynamicPiece,
         TrampolinePiece, HashData, SectionPieces, HeaderPiece, TailPieces, OutputFile, Placed;
    var t, ps := TablePieces(img, opts, p), Pieces(img, opts, p);
    forall q | q in t ensures Placed(OutputFile(img, opts, p), q) {
      assert q in ps;
      PiecePlaced(img, opts, p, q);
    }
    var n := |t|;
    assert t[2] == DynsymPiece(img, opts, p) && t[3] == DynstrPiece(img, opts, p);
    assert t[n - 3] == RelaPiece(img, opts, p) && t[n - 2] == DynamicPiece(img, opts, p);
    assert t[n - 1] == TrampolinePiece(img, p);
  }

  lemma SectionPlaced(img: Image, opts: Options, p: Plan, i: nat)
    requires PlanFor(img, opts, p) && i < |img.secs| == |p.secFoffs|
    ensures Placed(OutputFile(img, opts, p), Piece(p.secFoffs[i], Chunk(img, i)))
  {
    hide PlanFor, TablePieces, HeaderPiece, TailPieces, OutputFile, Placed, Chunk;
    var n := |TablePieces(img, opts, p)|;
    assert Pieces(img, opts, p)[n + i] == Piece(p.secFoffs[i], Chunk(img, i));
    PiecePlaced(img, opts, p, Piece(p.secFoffs[i], Chunk(img, i)));
  }

  /** The tables end before the synthetic segment does. */
  lemma TablesInside(img: Image, opts: Options, p: Plan)
    requires PlanFor(img, opts, p)
    ensures |img.secs| == |p.secFoffs|
    ensures forall q :: q in Tables(img, opts, p) ==> q.at + |q.bytes| <= SynthSize(p)
  {
    hide PlanFor, FrontPiece, InterpPiece, Trampoline, HashPiece, Flatten, Dynsym, Dynstr, Relas, Dynamic;
    TablesChained(img, opts, p);
  }

  /** Reading o..o+n of a table from memory. */
  lemma TableRead(img: Image, opts: Options, p: Plan, sites: seq<nat>, q: Piece, o: nat, n: nat)
    requires Convertible(img, opts, p, sites) && |img.secs| == |p.secFoffs| && o + n <= |q.bytes|
    requires q in Tables(img, opts, p)
    ensures MapBytes(OutputFile(img, opts, p), Phdrs(img, opts, p), p.synthVa + q.at + o, n) == q.bytes[o..o + n]
  {
    hide DynsymPiece, DynstrPiece, RelaPiece, DynamicPiece, TrampolinePiece, OutputFile, Phdrs, PlanFor, SectionsOk,
         SitesOk, RelocsOf, TablesFit, NamesOk, Settled, Placed, UsesFallback, MapBytes;
    IsSettled(img, opts, p, sites);
    TablesPlaced(img, opts, p);
    TablesInside(img, opts, p);
    TableBytes(img, opts, p, OutputFile(img, opts, p), q, o, n);
  }

  // ------------------------------------------------------------------------
  // The dynamic section
  // ------------------------------------------------------------------------

  lemma {:induction false} TagIs(ds: seq<Dyn>, j: nat, tag: nat)
    requires j < |ds| && ds[j].tag == tag != DT_NULL && forall i :: 0 <= i < j ==>
      ds[i].tag != tag && ds[i].tag != DT_NULL
    ensures Tag(ds, tag) == ds[j].val
  {
    if j > 0 { TagIs(ds[1..], j - 1, tag); }
  }

  /** The entries that the loader needs. */
  lemma Tags(img: Image, opts: Options, p: Plan)
    ensures var ds := Dynamic(img, opts, p);
      && Tag(ds, DT_STRTAB) == p.dynstr.va && Tag(ds, DT_STRSZ) == |Dynstr(img, opts)|
      && Tag(ds, DT_SYMTAB) == p.dynsym.va
      && Tag(ds, DT_RELA) == p.rela.va && Tag(ds, DT_RELASZ) == RelaCount(img, opts) * RELA_SIZE
  {
    hide Tag, Dynstr, RelaCount;
    var ds := Dynamic(img, opts, p);
    var a := if opts.inject == [] then 0 else 1;
    var b := if opts.so then a + 1 else a;
    TagIs(ds, 2 + a, DT_STRTAB);
    TagIs(ds, 3 + a, DT_STRSZ);
    TagIs(ds, 4 + a, DT_SYMTAB);
    TagIs(ds, 6 + b, DT_RELA);
    TagIs(ds, 7 + b, DT_RELASZ);
  }

  /** DT_RELAENT and DT_SYMENT give the sizes of the entries, and DT_FLAGS_1 asks for everything to be bound at once. */
  lemma FixedTags(img: Image, opts: Options, p: Plan)
    ensures var ds := Dynamic(img, opts, p); Tag(ds, 9) == 24 && Tag(ds, 11) == 24 && Tag(ds, 0x6fff_fffb) == 1
  {
    hide Tag, Dynstr, RelaCount;
    var ds := Dynamic(img, opts, p);
    var a := if opts.inject == [] then 0 else 1;
    var b := if opts.so then a + 1 else a;
    TagIs(ds, 5 + a, 11);
    TagIs(ds, 8 + b, 9);
    TagIs(ds, 10 + b, 0x6fff_fffb);
  }

  lemma DynamicFits(img: Image, opts: Options, p: Plan)
    requires Settled(img, opts, p) && TablesFit(img, opts) && img.base + U32 <= U64 && p.hash.va < U64
    ensures forall i :: 0 <= i < |Dynamic(img, opts, p)| ==> DynFits(Dynamic(img, opts, p)[i])
  {
    assert RelaCount(img, opts) <= U32;
    assert |opts.shim| + |opts.inject| <= |Dynstr(img, opts)|;
    hide RelaCount, Dynstr;
  }

  lemma FourthIsDynamic(ps: seq<Phdr>)
    requires |ps| >= 4 && ps[0].kind != PT_DYNAMIC && ps[1].kind != PT_DYNAMIC && ps[2].kind != PT_DYNAMIC
    requires ps[3].kind == PT_DYNAMIC
    ensures DynamicOf(ps) == ps[3]
  {
    assert ps[1..][0] == ps[1] && ps[1..][1..] == ps[2..];
    assert ps[2..][0] == ps[2] && ps[2..][1..] == ps[3..];
    assert DynamicOf(ps[3..]) == ps[3..][0];
    assert DynamicOf(ps[2..]) == DynamicOf(ps[3..]);
    assert DynamicOf(ps[1..]) == DynamicOf(ps[2..]);
  }

  lemma DynamicSegment(img: Image, opts: Options, p: Plan)
    requires |img.secs| == |p.secFoffs|
    ensures DynamicOf(Phdrs(img, opts, p)) == DynamicPhdr(opts, p)
  {
    hide DynamicOf, SectionPhdrs, RelroPhdrs, PhdrCount, HeaderPhdr, StackPhdr;
    FourthIsDynamic(Phdrs(img, opts, p));
  }

  lemma HashAddress(img: Image, opts: Options, p: Plan, sites: seq<nat>)
    requires Convertible(img, opts, p, sites)
    ensures p.hash.va < U64 && img.base + U32 <= U64
  {
    hide SizesOf, SitesOk, TablesFit, NamesOk, RelocsOf, AlignUp, SectionsPlaced, UsesFallback;
    var z := SizesOf(img, opts);
    AddressesFollowOffsets(img.base, img.secs, z, p);
    PartsInOrder(img.base, img.secs, z, p);
    IsSettled(img, opts, p, sites);
  }

  lemma PieceDynamic(img: Image, opts: Options, p: Plan)
    requires |img.secs| == |p.secFoffs|
    ensures DynamicPiece(img, opts, p).at == p.dynamic.foff
    ensures |DynamicPiece(img, opts, p).bytes| == DynCount(opts) * DYN_SIZE
  {
    hide Dynamic, Flatten, DynRows;
    PieceSizes(img, opts, p);
  }

  lemma DynamicBytes(img: Image, opts: Options, p: Plan, sites: seq<nat>)
    requires Convertible(img, opts, p, sites) && |img.secs| == |p.secFoffs|
    ensures MapBytes(OutputFile(img, opts, p), Phdrs(img, opts, p), p.dynamic.va, DynCount(opts) * DYN_SIZE)
         == Flatten(DynRows(Dynamic(img, opts, p)))
  {
    hide OutputFile, Phdrs, Convertible, Dynamic, Settled, Flatten, MapBytes, DynCount, DynsymPiece, RelaPiece,
         DynstrPiece, TrampolinePiece;
    var q := DynamicPiece(img, opts, p);
    PieceDynamic(img, opts, p);
    TableRead(img, opts, p, sites, q, 0, |q.bytes|);
    IsSettled(img, opts, p, sites);
    SettledParts(img, opts, p);
    assert q.bytes[0..0 + |q.bytes|] == q.bytes;
  }

  /** The dynamic section read from memory is the one built. */
  lemma DynamicRead(img: Image, opts: Options, p: Plan, sites: seq<nat>)
    requires Convertible(img, opts, p, sites) && |img.secs| == |p.secFoffs|
    ensures DynsOf(OutputFile(img, opts, p), Phdrs(img, opts, p)) == Dynamic(img, opts, p)
  {
    hide OutputFile, Phdrs, Convertible, Dynamic, Settled, TablesFit, Flatten, MapBytes, ReadDyns, DynFits, DynCount,
         DynRows, DynamicOf;
    IsSettled(img, opts, p, sites);
    HashAddress(img, opts, p, sites);
    ConvertibleFits(img, opts, p, sites);
    DynamicFits(img, opts, p);
    DynamicSegment(img, opts, p);
    DynamicBytes(img, opts, p, sites);
    ReadDynsBack(Dynamic(img, opts, p));
  }

  lemma ConvertibleFits(img: Image, opts: Options, p: Plan, sites: seq<nat>)
    requires Convertible(img, opts, p, sites)
    ensures TablesFit(img, opts) && SectionsOk(img) && SitesOk(img, sites) && NamesOk(img)
    ensures img.relocs == RelocsOf(img, sites)
  {
  }

  lemma SettledParts(img: Image, opts: Options, p: Plan)
    requires Settled(img, opts, p)
    ensures p.dynamic.va == p.synthVa + p.dynamic.foff && p.rela.va == p.synthVa + p.rela.foff
    ensures p.dynsym.va == p.synthVa + p.dynsym.foff && p.dynstr.va == p.synthVa + p.dynstr.foff
    ensures p.tramp.va == p.synthVa + p.tramp.foff
  {
  }

  // ------------------------------------------------------------------------
  // The relocations
  // ------------------------------------------------------------------------

  lemma StoredSmall(img: Image, at: nat)
    ensures Stored(img, at) < U64
  {
    var off := RvaToOffset(img.secs, at);
    if off.Some? && off.value + 8 <= |img.buf| {
      LeOfFromLe(img.buf[off.value..off.value + 8]);
      Pow256Widths();
    }
  }

  lemma RelocFits(img: Image, ps: seq<nat>, k: nat)
    requires SectionsOk(img) && k < |ps| && Inside(img, ps[k])
    ensures RelocList(img, ps)[k].va < U64 && RelocList(img, ps)[k].addend < U64
  {
    StoredSmall(img, ps[k]);
    InsideBound(img, ps[k]);
    hide Stored, Inside;
  }

  lemma ImportFits(img: Image, opts: Options, j: nat)
    requires SectionsOk(img) && TablesFit(img, opts) && j < |img.imports| && Inside(img, img.imports[j].iatRva)
    ensures RelaFits(ImportRelas(img)[j])
  {
    hide Inside, UniqueNames, SymIndex, Dynstr;
    InsideBound(img, img.imports[j].iatRva);
    SymIndexes(img.imports, j, j);
    UniqueHolds(img.imports);
  }

  lemma ExtrasFit(img: Image, opts: Options, p: Plan)
    requires Settled(img, opts, p) && TablesFit(img, opts) && img.base + U32 <= U64
    ensures RelaFits(SlotRela(img, p.tramp.va))
    ensures forall i :: 0 <= i < |TlsRelas(img.tls, p.tramp.va)| ==> RelaFits(TlsRelas(img.tls, p.tramp.va)[i])
  {
    hide UniqueNames, Dynstr;
    UniqueHolds(img.imports);
  }

  lemma RelasFit(img: Image, opts: Options, p: Plan, sites: seq<nat>)
    requires Convertible(img, opts, p, sites)
    ensures forall i :: 0 <= i < |Relas(img, opts, p.tramp.va)| ==> RelaFits(Relas(img, opts, p.tramp.va)[i])
  {
    hide Convertible, Settled, TablesFit, SectionsOk, RelocsOf, Inside, ImportRelas, TlsRelas, SlotRela, RelaFits,
         RelocList, PointerSites;
    IsSettled(img, opts, p, sites);
    HashAddress(img, opts, p, sites);
    ConvertibleFits(img, opts, p, sites);
    ExtrasFit(img, opts, p);
    forall j | 0 <= j < |img.imports| ensures RelaFits(ImportRelas(img)[j]) { ImportFits(img, opts, j); }
    RelocRelasFit(img, sites);
  }

  lemma RelocRelasFit(img: Image, sites: seq<nat>)
    requires SectionsOk(img) && SitesOk(img, sites) && img.relocs == RelocsOf(img, sites)
    ensures forall k :: 0 <= k < |img.relocs| ==> RelaFits(RelocRelas(img.relocs)[k])
  {
    hide SectionsOk, RelocsOf, Inside, RelocList, PointerSites;
    RelocsAre(img, sites);
    PointerSitesOk(img, sites);
    var ps := PointerSites(img.imports, sites);
    forall k | 0 <= k < |img.relocs| ensures RelaFits(RelocRelas(img.relocs)[k]) { RelocFits(img, ps, k); }
  }

  lemma PieceRela(img: Image, opts: Options, p: Plan)
    requires |img.secs| == |p.secFoffs|
    ensures RelaPiece(img, opts, p).at == p.rela.foff
    ensures |RelaPiece(img, opts, p).bytes| == RelaCount(img, opts) * RELA_SIZE
  {
    hide Relas, Flatten, RelaRows, RelaCount;
    PieceSizes(img, opts, p);
  }

  lemma RelaTableRead(img: Image, opts: Options, p: Plan, sites: seq<nat>)
    requires Convertible(img, opts, p, sites) && |img.secs| == |p.secFoffs|
    ensures MapBytes(OutputFile(img, opts, p), Phdrs(img, opts, p), p.rela.va, RelaCount(img, opts) * RELA_SIZE)
         == Flatten(RelaRows(Relas(img, opts, p.tramp.va)))
  {
    hide OutputFile, Phdrs, Convertible, Settled, Flatten, MapBytes, RelaRows, Relas, RelaCount, DynsymPiece,
         DynamicPiece, DynstrPiece, TrampolinePiece;
    var q := RelaPiece(img, opts, p);
    PieceRela(img, opts, p);
    TableRead(img, opts, p, sites, q, 0, |q.bytes|);
    IsSettled(img, opts, p, sites);
    SettledParts(img, opts, p);
    assert q.bytes[0..0 + |q.bytes|] == q.bytes;
  }

  /** The relocations read from memory are the ones built. */
  lemma RelasRead(img: Image, opts: Options, p: Plan, sites: seq<nat>)
    requires Convertible(img, opts, p, sites) && |img.secs| == |p.secFoffs|
    ensures RelasOf(OutputFile(img, opts, p), Phdrs(img, opts, p), Dynamic(img, opts, p))
         == Relas(img, opts, p.tramp.va)
  {
    hide OutputFile, Phdrs, Convertible, Dynamic, Flatten, MapBytes, ReadRelas, RelaRows, RelaFits, Relas, RelaCount,
         Tag, Dynstr;
    RelasFit(img, opts, p, sites);
    Tags(img, opts, p);
    RelaTableRead(img, opts, p, sites);
    ReadRelasBack(Relas(img, opts, p.tramp.va));
  }

  // ------------------------------------------------------------------------
  // Symbol names
  // ------------------------------------------------------------------------

  lemma {:induction false} StringsShorter(names: seq<Name>, i: nat)
    requires i <= |names|
    ensures |Strings(names[..i])| <= |Strings(names)|
  {
    if i == |names| {
      assert names[..i] == names;
    } else {
      assert names[..|names| - 1][..i] == names[..i];
      StringsShorter(names[..|names| - 1], i);
    }
  }

  /** Symbol i + 1 has the string offset of name i. */
  lemma SymbolAt(img: Image, opts: Options, tramp: nat, i: nat)
    requires TablesFit(img, opts) && tramp < U64 && i < |SymbolNames(img, opts)|
    ensures var y := Dynsym(img, opts, tramp)[i + 1];
      y.name == StrOff(|DynstrHead(opts)|, SymbolNames(img, opts), i) && SymFits(y)
  {
    hide UniqueNames, Strings, DynstrHead;
    var names := SymbolNames(img, opts);
    var n := |UniqueNames(img.imports)| + 1;
    StringsShorter(names, i);
    if i < n { assert names[..n][..i] == names[..i]; }
  }

  lemma LoweredNulFree(s: Name)
    requires NulFree(s)
    ensures NulFree(Lowered(s))
  {
  }

  lemma StemNulFree(s: Name)
    requires NulFree(s)
    ensures NulFree(Stem(s))
  {
    if DOT in s {
      var n: nat :| n < |s| && Stem(s) == s[..n];
    }
  }

  lemma SymNameNulFree(dll: Name, func: Name)
    requires NulFree(dll) && NulFree(func)
    ensures NulFree(SymName(dll, func))
  {
    hide Stem, Lowered;
    StemNulFree(dll);
    LoweredNulFree(Stem(dll));
  }

  lemma AllNulFree(img: Image, opts: Options, i: nat)
    requires NamesOk(img) && i < |SymbolNames(img, opts)|
    ensures NulFree(SymbolNames(img, opts)[i])
  {
    hide UniqueNames, SymName;
    UniqueHolds(img.imports);
    var u := UniqueNames(img.imports);
    if i < |u| {
      assert u[i] in u;
      var j :| 0 <= j < |img.imports| && NameOf(img.imports[j]) == u[i];
      SymNameNulFree(img.imports[j].dll, img.imports[j].func);
    }
  }

  lemma SymRow(img: Image, opts: Options, p: Plan, i: nat)
    requires i < |Dynsym(img, opts, p.tramp.va)|
    ensures var q := DynsymPiece(img, opts, p);
      i * SYM_SIZE
        + SYM_SIZE <= |q.bytes| && q.bytes[i * SYM_SIZE..i * SYM_SIZE + SYM_SIZE]
          == SymBytes(Dynsym(img, opts, p.tramp.va)[i])
  {
    hide Flatten, Dynsym, SymBytes;
    FlattenAt(SymRows(Dynsym(img, opts, p.tramp.va)), SYM_SIZE, i);
  }

  lemma SymbolBytesRead(img: Image, opts: Options, p: Plan, sites: seq<nat>, i: nat)
    requires Convertible(img, opts, p, sites) && |img.secs| == |p.secFoffs| && i < |Dynsym(img, opts, p.tramp.va)|
    ensures MapBytes(OutputFile(img, opts, p), Phdrs(img, opts, p), p.dynsym.va + i * SYM_SIZE, SYM_SIZE)
         == SymBytes(Dynsym(img, opts, p.tramp.va)[i])
  {
    hide OutputFile, Phdrs, Convertible, Settled, Flatten, MapBytes, Dynsym, SymBytes, SymRows;
    IsSettled(img, opts, p, sites);
    SettledParts(img, opts, p);
    SymRow(img, opts, p, i);
    TableRead(img, opts, p, sites, DynsymPiece(img, opts, p), i * SYM_SIZE, SYM_SIZE);
  }

  lemma SymbolOffsetRead(img: Image, opts: Options, p: Plan, sites: seq<nat>, i: nat)
    requires Convertible(img, opts, p, sites) && |img.secs| == |p.secFoffs| && i < |SymbolNames(img, opts)|
    ensures ReadSymName(MapBytes(OutputFile(img, opts, p), Phdrs(img, opts, p), p.dynsym.va + (i + 1) * SYM_SIZE,
        SYM_SIZE))
         == StrOff(|DynstrHead(opts)|, SymbolNames(img, opts), i)
  {
    hide OutputFile, Phdrs, Convertible, Settled, MapBytes, TablesFit, SymbolNames, Dynsym, StrOff, DynstrHead,
         SymFits, SymBytes, ReadSymName;
    IsSettled(img, opts, p, sites);
    HashAddress(img, opts, p, sites);
    ConvertibleFits(img, opts, p, sites);
    TrampBelow(img, opts, p);
    SymbolAt(img, opts, p.tramp.va, i);
    SymbolBytesRead(img, opts, p, sites, i + 1);
    SymRoundTrip(Dynsym(img, opts, p.tramp.va)[i + 1]);
  }

  lemma DynstrRead(img: Image, opts: Options, p: Plan, sites: seq<nat>)
    requires Convertible(img, opts, p, sites) && |img.secs| == |p.secFoffs|
    ensures MapBytes(OutputFile(img, opts, p), Phdrs(img, opts, p), p.dynstr.va, |Dynstr(img, opts)|)
         == Dynstr(img, opts)
  {
    hide OutputFile, Phdrs, Convertible, Settled, MapBytes, Dynstr, DynsymPiece, RelaPiece, DynamicPiece,
         TrampolinePiece;
    IsSettled(img, opts, p, sites);
    SettledParts(img, opts, p);
    var d := DynstrPiece(img, opts, p);
    TableRead(img, opts, p, sites, d, 0, |d.bytes|);
    assert d.bytes[0..0 + |d.bytes|] == d.bytes;
  }

  /** The name of symbol i + 1, read through memory, is name i of the list. */
  lemma SymbolRead(img: Image, opts: Options, p: Plan, sites: seq<nat>, i: nat)
    requires Convertible(img, opts, p, sites) && |img.secs| == |p.secFoffs| && i < |SymbolNames(img, opts)|
    ensures SymbolName(OutputFile(img, opts, p), Phdrs(img, opts, p), Dynamic(img, opts, p), i + 1)
         == SymbolNames(img, opts)[i]
  {
    hide OutputFile, Phdrs, Convertible, Dynamic, MapBytes, Tag, SymbolNames, CStr, Strings, DynstrHead, ReadSymName,
         NamesOk, TablesFit, SectionsOk, SitesOk, RelocsOf;
    ConvertibleFits(img, opts, p, sites);
    Tags(img, opts, p);
    SymbolOffsetRead(img, opts, p, sites, i);
    DynstrRead(img, opts, p, sites);
    AllNulFree(img, opts, i);
    StringAt(DynstrHead(opts), SymbolNames(img, opts), i);
  }

  lemma TrampBelow(img: Image, opts: Options, p: Plan)
    requires Settled(img, opts, p) && img.base + U32 <= U64
    ensures p.tramp.va + TRAMPOLINE_SIZE <= img.base < U64
  {
  }

  // ------------------------------------------------------------------------
  // Libraries
  // ------------------------------------------------------------------------

  lemma {:induction false} NothingNeeded(ds: seq<Dyn>, tab: seq<byte>)
    requires forall i :: 0 <= i < |ds| ==> ds[i].tag != 1
    ensures Needed(ds, tab) == []
  {
    if ds != [] && ds[0].tag != 0 { NothingNeeded(ds[1..], tab); }
  }

  lemma NeededCons(d: Dyn, ds: seq<Dyn>, tab: seq<byte>)
    requires d.tag == 1
    ensures Needed([d] + ds, tab) == [StringIn(tab, d.val)] + Needed(ds, tab)
  {
    assert ([d] + ds)[1..] == ds;
  }

  lemma NeededAre(img: Image, opts: Options, p: Plan, tab: seq<byte>)
    ensures Needed(Dynamic(img, opts, p), tab)
         == [StringIn(tab, 1)] + (if opts.inject == [] then [] else [StringIn(tab, InjectOff(opts))])
    ensures Tag(Dynamic(img, opts, p), 29) == 1 + |opts.shim| + 1
  {
    hide Needed, StringIn, Dynstr, RelaCount, Tag, InjectOff;
    var ds := Dynamic(img, opts, p);
    if opts.inject == [] {
      NothingNeeded(ds[1..], tab);
      assert ds == [ds[0]] + ds[1..];
      NeededCons(ds[0], ds[1..], tab);
      TagIs(ds, 1, 29);
    } else {
      NothingNeeded(ds[2..], tab);
      assert ds[1..] == [ds[1]] + ds[2..] && ds == [ds[0]] + ds[1..];
      NeededCons(ds[1], ds[2..], tab);
      NeededCons(ds[0], ds[1..], tab);
      TagIs(ds, 2, 29);
    }
  }

  lemma StringIs(tab: seq<byte>, head: seq<byte>, s: Name, rest: seq<byte>)
    requires tab == head + (s + [0] + rest) && NulFree(s)
    ensures StringIn(tab, |head|) == s
  {
    assert tab[|head|..] == s + [0] + rest;
    CStrIs(s, rest);
  }

  /** The strings at the front of the table. */
  lemma HeadStrings(img: Image, opts: Options)
    requires NulFree(opts.shim) && NulFree(opts.inject)
    ensures var tab := Dynstr(img, opts);
      && StringIn(tab, 1) == opts.shim && StringIn(tab, 1 + |opts.shim| + 1) == ORIGIN
      && (opts.inject != [] ==> StringIn(tab, InjectOff(opts)) == opts.inject)
  {
    hide SymbolNames, Strings, StringIn;
    var tab, names := Dynstr(img, opts), Strings(SymbolNames(img, opts));
    var tail := (if opts.inject == [] then [] else opts.inject + [0]) + names;
    var a, b := [0] + opts.shim + [0], [0] + opts.shim + [0] + ORIGIN + [0];
    assert tab == [0] + (opts.shim + [0] + (ORIGIN + [0] + tail));
    StringIs(tab, [0], opts.shim, ORIGIN + [0] + tail);
    assert tab == a + (ORIGIN + [0] + tail);
    StringIs(tab, a, ORIGIN, tail);
    if opts.inject != [] {
      assert tab == b + (opts.inject + [0] + names);
      StringIs(tab, b, opts.inject, names);
    }
  }

  /** ld.so loads the shim and then what was asked to be injected, and looks for them beside the program. */
  lemma LibrariesRead(img: Image, opts: Options, p: Plan, sites: seq<nat>)
    requires Convertible(img, opts, p, sites) && NulFree(opts.shim) && NulFree(opts.inject)
    ensures LibrariesOf(OutputFile(img, opts, p)) == [opts.shim] + (if opts.inject == [] then [] else [opts.inject])
    ensures RunpathOf(OutputFile(img, opts, p)) == [0x24, 0x4f, 0x52, 0x49, 0x47, 0x49, 0x4e]
  {
    hide OutputFile, Phdrs, Convertible, Dynamic, MapBytes, Tag, Dynstr, Needed, StringIn, InjectOff, ReadPhdrs,
         DynsOf, RelaCount;
    PhdrsRead(img, opts, p, sites);
    DynamicRead(img, opts, p, sites);
    Tags(img, opts, p);
    DynstrRead(img, opts, p, sites);
    NeededAre(img, opts, p, Dynstr(img, opts));
    HeadStrings(img, opts);
  }
}
