/** The converter preserves meaning: the converted file, loaded by an ELF loader at any bias, has at every section
    byte what the PE image has when a PE loader maps it that far from its base. */
module LoadEquiv {
  import opened Bytes
  import opened ElfFormat
  import opened PeImage
  import opened PeLoader
  import opened Layout
  import opened Names
  import opened Output
  import opened Build
  import opened Assemble
  import opened ElfLoader
  import opened FileReads
  import opened Mapping
  import opened TablesRead

  /** Imports resolve by the symbol name that the converter gives them. */
  function BySymbol(resolve: Name -> nat): (seq<byte>, seq<byte>) -> nat {
    (dll, func) => resolve(SymName(dll, func)) % U64
  }

  // ------------------------------------------------------------------------
  // Which relocation writes a section byte
  // ------------------------------------------------------------------------

  ghost predicate Quiet(rs: seq<Rela>, a: nat) { forall j :: 0 <= j < |rs| ==> !Writes(rs[j], a) }

  /** The trampoline's own relocations are all below the image base. */
  lemma ExtrasBelow(img: Image, opts: Options, p: Plan, a: nat)
    requires Settled(img, opts, p) && img.base <= a
    ensures Quiet([SlotRela(img, p.tramp.va)] + (if opts.so then TlsRelas(img.tls, p.tramp.va) else []), a)
  {
    hide UniqueNames;
  }

  /** A run of relocations of which only number j of the middle part writes the byte. */
  lemma AppliedMiddle(mem: nat -> byte, names: nat -> Name, resolve: Name -> nat, bias: int, x: seq<Rela>, y: seq<Rela>,
                      z: seq<Rela>, j: nat, a: nat)
    requires j < |y| && Writes(y[j], a) && (forall k :: j < k < |y| ==> !Writes(y[k], a)) && Quiet(z, a)
    ensures Applied(mem, names, resolve, bias, x + y + z, a)
         == Le(8, RelaValue(names, resolve, bias, y[j]))[a - y[j].offset]
  {
    hide Applied, Writes, RelaValue, Le;
    var all := x + y + z;
    assert all[|x| + j] == y[j];
    forall k | |x| + j < k < |all| ensures !Writes(all[k], a) {
      if k < |x| + |y| { assert all[k] == y[k - |x|]; } else { assert all[k] == z[k - |x| - |y|]; }
    }
    WritesHas(y[j], a);
    AppliedAt(mem, names, resolve, bias, all, |x| + j, a);
  }

  lemma WritesHas(r: Rela, a: nat)
    requires Writes(r, a)
    ensures r.offset <= a < r.offset + 8
  {
  }

  lemma AppliedQuiet(mem: nat -> byte, names: nat -> Name, resolve: Name -> nat, bias: int, x: seq<Rela>, y: seq<Rela>,
                     z: seq<Rela>, a: nat)
    requires Quiet(x, a) && Quiet(y, a) && Quiet(z, a)
    ensures Applied(mem, names, resolve, bias, x + y + z, a) == mem(a)
  {
    hide Applied, Writes;
    var all := x + y + z;
    forall k | 0 <= k < |all| ensures !Writes(all[k], a) {
      if k < |x| { assert all[k] == x[k]; }
      else if k < |x| + |y| { assert all[k] == y[k - |x|]; }
      else { assert all[k] == z[k - |x| - |y|]; }
    }
    AppliedOutside(mem, names, resolve, bias, all, a);
  }

  lemma ImportWrites(img: Image, j: nat, rva: nat)
    requires j < |img.imports|
    ensures Writes(ImportRelas(img)[j], img.base + rva) <==> Covers(img.imports[j].iatRva, rva)
  {
    hide SymIndex;
  }

  lemma RelocWrites(img: Image, ps: seq<nat>, k: nat, rva: nat)
    requires img.relocs == RelocList(img, ps) && k < |ps|
    ensures Writes(RelocRelas(img.relocs)[k], img.base + rva) <==> Covers(ps[k], rva)
    ensures RelocRelas(img.relocs)[k].addend == Stored(img, ps[k])
    ensures RelocRelas(img.relocs)[k].kind == R_X86_64_RELATIVE
    ensures RelocRelas(img.relocs)[k].offset == img.base + ps[k]
  {
    hide Stored;
  }

  // ------------------------------------------------------------------------
  // The three kinds of section byte
  // ------------------------------------------------------------------------

  ghost function Rest(img: Image, opts: Options, p: Plan): seq<Rela> {
    [SlotRela(img, p.tramp.va)] + (if opts.so then TlsRelas(img.tls, p.tramp.va) else [])
  }

  lemma RelasSplit(img: Image, opts: Options, p: Plan)
    ensures Relas(img, opts, p.tramp.va) == ImportRelas(img) + RelocRelas(img.relocs) + Rest(img, opts, p)
  {
    hide ImportRelas, RelocRelas, SlotRela, TlsRelas;
    var a, b, c := ImportRelas(img) + RelocRelas(img.relocs), [SlotRela(img, p.tramp.va)],
        if opts.so then TlsRelas(img.tls, p.tramp.va) else [];
    assert a + b + c == a + (b + c);
  }

  /** Symbol names are read right at the indexes that imports use. */
  ghost predicate NamesRight(img: Image, names: nat -> Name) {
    forall j :: 0 <= j < |img.imports| ==> names(SymIndex(img.imports, j)) == NameOf(img.imports[j])
  }

  lemma AtSlot(img: Image, opts: Options, p: Plan, sites: seq<nat>, mem: nat -> byte, names: nat -> Name,
               resolve: Name -> nat, bias: int, j: nat, rva: nat)
    requires Settled(img, opts, p) && SitesOk(img, sites) && NamesRight(img, names)
    requires img.relocs == RelocList(img, PointerSites(img.imports, sites))
    requires j < |img.imports| && Covers(img.imports[j].iatRva, rva)
    ensures Applied(mem, names, resolve, bias, Relas(img, opts, p.tramp.va), img.base + rva)
         == Le(8, BySymbol(resolve)(img.imports[j].dll, img.imports[j].func))[rva - img.imports[j].iatRva]
  {
    hide Applied, Settled, Relas, RelocRelas, ImportRelas, PointerSites, RelocList, Le, SymName, SymIndex, Inside,
         Rest, Quiet;
    var a := img.base + rva;
    var x, y, z := ImportRelas(img), RelocRelas(img.relocs), Rest(img, opts, p);
    var ps := PointerSites(img.imports, sites);
    RelasSplit(img, opts, p);
    QuietRest(img, opts, p, a);
    PointerSitesOk(img, sites);
    SlotQuiet(img, ps, j, rva);
    forall k | j < k < |x| ensures !Writes(x[k], a) {
      assert Apart8(img.imports[j].iatRva, img.imports[k].iatRva);
      ImportWrites(img, k, rva);
    }
    ImportWrites(img, j, rva);
    QuietJoin(y, z, a);
    EmptyFirst(x, y, z);
    AppliedMiddle(mem, names, resolve, bias, [], x, y + z, j, a);
    ImportValue(img, names, resolve, bias, j);
  }

  lemma EmptyFirst(x: seq<Rela>, y: seq<Rela>, z: seq<Rela>)
    ensures x + y + z == [] + x + (y + z)
  {
  }

  lemma QuietJoin(y: seq<Rela>, z: seq<Rela>, a: nat)
    requires Quiet(y, a) && Quiet(z, a)
    ensures Quiet(y + z, a)
  {
    hide Writes;
    var all := y + z;
    forall k | 0 <= k < |all| ensures !Writes(all[k], a) {
      if k < |y| { assert all[k] == y[k]; } else { assert all[k] == z[k - |y|]; }
    }
  }

  lemma QuietRest(img: Image, opts: Options, p: Plan, a: nat)
    requires Settled(img, opts, p) && img.base <= a
    ensures Quiet(Rest(img, opts, p), a)
  {
    ExtrasBelow(img, opts, p, a);
  }

  /** No pointer site touches a slot. */
  lemma SlotQuiet(img: Image, ps: seq<nat>, j: nat, rva: nat)
    requires img.relocs == RelocList(img, ps) && j < |img.imports| && Covers(img.imports[j].iatRva, rva)
    requires forall k :: 0 <= k < |ps| ==> Apart8(ps[k], img.imports[j].iatRva)
    ensures Quiet(RelocRelas(img.relocs), img.base + rva)
  {
    hide Writes, RelocRelas, RelocList;
    forall k | 0 <= k < |ps| ensures !Writes(RelocRelas(img.relocs)[k], img.base + rva) {
      RelocWrites(img, ps, k, rva);
    }
  }

  lemma ImportValue(img: Image, names: nat -> Name, resolve: Name -> nat, bias: int, j: nat)
    requires NamesRight(img, names) && j < |img.imports|
    ensures RelaValue(names, resolve, bias, ImportRelas(img)[j])
         == BySymbol(resolve)(img.imports[j].dll, img.imports[j].func)
    ensures ImportRelas(img)[j].offset == img.base + img.imports[j].iatRva
  {
    hide SymName, SymIndex;
  }

  lemma AtPointer(img: Image, opts: Options, p: Plan, ps: seq<nat>, mem: nat -> byte, names: nat -> Name,
                  resolve: Name -> nat, bias: int, j: nat, rva: nat)
    requires Settled(img, opts, p) && img.relocs == RelocList(img, ps) && AllApart(ps)
    requires j < |ps| && Covers(ps[j], rva)
    ensures Applied(mem, names, resolve, bias, Relas(img, opts, p.tramp.va), img.base + rva)
         == Le(8, (Stored(img, ps[j]) + bias) % U64)[rva - ps[j]]
  {
    hide Applied, Settled, Relas, RelocRelas, ImportRelas, RelocList, Le, Stored, Rest;
    var a := img.base + rva;
    var x, y, z := ImportRelas(img), RelocRelas(img.relocs), Rest(img, opts, p);
    RelasSplit(img, opts, p);
    QuietRest(img, opts, p, a);
    hide Quiet;
    forall k | j < k < |y| ensures !Writes(y[k], a) {
      assert Apart8(ps[j], ps[k]);
      RelocWrites(img, ps, k, rva);
    }
    RelocWrites(img, ps, j, rva);
    AppliedMiddle(mem, names, resolve, bias, x, y, z, j, a);
  }

  lemma AtRest(img: Image, opts: Options, p: Plan, ps: seq<nat>, mem: nat -> byte, names: nat -> Name,
               resolve: Name -> nat, bias: int, rva: nat)
    requires Settled(img, opts, p) && img.relocs == RelocList(img, ps) && Untouched(ps, rva)
    requires forall j :: 0 <= j < |img.imports| ==> !Covers(img.imports[j].iatRva, rva)
    ensures Applied(mem, names, resolve, bias, Relas(img, opts, p.tramp.va), img.base + rva) == mem(img.base + rva)
  {
    hide Applied, Settled, Relas, RelocRelas, ImportRelas, RelocList, Rest, Writes;
    var a := img.base + rva;
    var x, y, z := ImportRelas(img), RelocRelas(img.relocs), Rest(img, opts, p);
    RelasSplit(img, opts, p);
    QuietRest(img, opts, p, a);
    forall k | 0 <= k < |x| ensures !Writes(x[k], a) { ImportWrites(img, k, rva); }
    forall k | 0 <= k < |y| ensures !Writes(y[k], a) { RelocWrites(img, ps, k, rva); }
    AppliedQuiet(mem, names, resolve, bias, x, y, z, a);
  }

  /** Where no slot is, the section data in the output is the section data of the input. */
  lemma ChunkIs(img: Image, i: nat, k: nat)
    requires i < |img.secs| && k < img.secs[i].rawsz
    requires forall j :: 0 <= j < |img.imports| ==> !Covers(img.imports[j].iatRva, img.secs[i].va + k)
    ensures Chunk(img, i)[k] == RawByte(img, i, k)
  {
    hide RawByte;
  }

  // ------------------------------------------------------------------------
  // The theorem
  // ------------------------------------------------------------------------

  /** Applied to the mapped file, the relocations give the memory of the loaded PE image. */
  lemma BytesAgree(img: Image, opts: Options, p: Plan, sites: seq<nat>, mem: nat -> byte, names: nat -> Name,
                   resolve: Name -> nat, bias: int, i: nat, k: nat)
    requires Settled(img, opts, p) && SectionsOk(img) && SitesOk(img, sites) && img.relocs == RelocsOf(img, sites)
    requires NamesRight(img, names)
    requires i < |img.secs| && k < Extent(img.secs[i])
    requires mem(img.base + img.secs[i].va + k) == if k < img.secs[i].rawsz then Chunk(img, i)[k] else 0
    ensures Applied(mem, names, resolve, bias, Relas(img, opts, p.tramp.va), img.base + (img.secs[i].va + k))
         == Memory(img, sites, bias, BySymbol(resolve), img.secs[i].va + k)
  {
    hide Applied, Settled, SectionsOk, SitesOk, RelocsOf, NamesRight, Relas, Memory, Stored, MappedByte, PointerSites,
         RelocList, Chunk, RawByte, Le, AllApart, Inside;
    var rva, ps := img.secs[i].va + k, PointerSites(img.imports, sites);
    var lookup := BySymbol(resolve);
    hide BySymbol;
    RelocsFromSites(img, sites);
    PointerSitesOk(img, sites);
    MemoryIs(img, sites, bias, lookup, rva);
    assert img.base + img.secs[i].va + k == img.base + rva;
    if j: nat :| j < |img.imports| && Covers(img.imports[j].iatRva, rva) {
      AtSlot(img, opts, p, sites, mem, names, resolve, bias, j, rva);
    } else if j: nat :| j < |ps| && Covers(ps[j], rva) {
      AtPointer(img, opts, p, ps, mem, names, resolve, bias, j, rva);
    } else {
      AtRest(img, opts, p, ps, mem, names, resolve, bias, rva);
      MappedIs(img, i, k);
      if k < img.secs[i].rawsz { ChunkIs(img, i, k); } else { PastRaw(img, i, k); }
    }
  }

  lemma RelocsFromSites(img: Image, sites: seq<nat>)
    requires SectionsOk(img) && SitesOk(img, sites) && img.relocs == RelocsOf(img, sites)
    ensures img.relocs == RelocList(img, PointerSites(img.imports, sites))
  {
    hide SectionsOk, RelocsOf, RelocList, PointerSites, Inside;
    RelocsAre(img, sites);
  }

  lemma PastRaw(img: Image, i: nat, k: nat)
    requires i < |img.secs| && k >= img.secs[i].rawsz
    ensures RawByte(img, i, k) == 0
  {
  }

  lemma NameRight(img: Image, opts: Options, p: Plan, sites: seq<nat>, j: nat)
    requires Convertible(img, opts, p, sites) && |img.secs| == |p.secFoffs| && j < |img.imports|
    ensures SymbolName(OutputFile(img, opts, p), Phdrs(img, opts, p), Dynamic(img, opts, p), SymIndex(img.imports, j))
         == NameOf(img.imports[j])
  {
    hide OutputFile, Phdrs, Dynamic, Convertible, SymbolName, UniqueNames, NameOf, SymIndex;
    SymIndexes(img.imports, j, j);
    var k := SymIndex(img.imports, j) - 1;
    assert SymbolNames(img, opts)[k] == UniqueNames(img.imports)[k];
    SymbolRead(img, opts, p, sites, k);
  }

  lemma NamesAreRight(img: Image, opts: Options, p: Plan, sites: seq<nat>)
    requires Convertible(img, opts, p, sites) && |img.secs| == |p.secFoffs|
    ensures NamesRight(img, SymbolsOf(OutputFile(img, opts, p), Phdrs(img, opts, p), Dynamic(img, opts, p)))
  {
    hide OutputFile, Phdrs, Dynamic, Convertible, SymbolName, NameOf, SymIndex;
    forall j | 0 <= j < |img.imports|
      ensures SymbolName(OutputFile(img, opts, p), Phdrs(img, opts, p), Dynamic(img, opts, p), SymIndex(img.imports, j))
           == NameOf(img.imports[j])
    {
      NameRight(img, opts, p, sites, j);
    }
  }

  /** The loader's memory, in terms of what was built. */
  lemma ElfByteIs(img: Image, opts: Options, p: Plan, sites: seq<nat>, resolve: Name -> nat, bias: int, a: nat)
    requires Convertible(img, opts, p, sites) && |img.secs| == |p.secFoffs|
    ensures var file, ps, ds := OutputFile(img, opts, p), Phdrs(img, opts, p), Dynamic(img, opts, p);
      var b := if opts.pie || opts.so then bias else 0;
      ElfByte(file, bias, resolve, b + a)
        == Applied(Mapped(file, ps), SymbolsOf(file, ps, ds), resolve, b, Relas(img, opts, p.tramp.va), a)
  {
    hide OutputFile, Phdrs, Dynamic, Convertible, Applied, Mapped, SymbolsOf, RelasOf, DynsOf, ReadPhdrs, RunBias,
         Relas;
    PhdrsRead(img, opts, p, sites);
    DynamicRead(img, opts, p, sites);
    RelasRead(img, opts, p, sites);
  }

  lemma SectionInMemory(img: Image, opts: Options, p: Plan, sites: seq<nat>, i: nat, k: nat)
    requires Convertible(img, opts, p, sites) && |img.secs| == |p.secFoffs|
    requires i < |img.secs| && k < Extent(img.secs[i]) && !Stripped(opts, img.secs[i])
    ensures Mapped(OutputFile(img, opts, p), Phdrs(img, opts, p))(img.base + img.secs[i].va + k)
         == if k < img.secs[i].rawsz then Chunk(img, i)[k] else 0
  {
    hide OutputFile, Phdrs, Convertible, Settled, SectionsOk, SitesOk, RelocsOf, TablesFit, NamesOk, MapByte, Chunk,
         Placed, Stripped, PlanFor;
    IsSettled(img, opts, p, sites);
    ConvertibleFits(img, opts, p, sites);
    PlanSections2(img, opts, p, sites);
    SectionPlaced(img, opts, p, i);
    SectionMapped(img, opts, p, OutputFile(img, opts, p), i, k);
  }

  /** For every well-formed image, every option and every load bias, each section byte of the loaded ELF file is the
      byte of the PE image loaded at the same distance from its base. ET_EXEC files load at distance 0. */
  lemma LoadsTheSame(img: Image, opts: Options, p: Plan, sites: seq<nat>, resolve: Name -> nat, bias: int, i: nat,
                     k: nat)
    requires Convertible(img, opts, p, sites) && |img.secs| == |p.secFoffs|
    requires i < |img.secs| && k < Extent(img.secs[i]) && !Stripped(opts, img.secs[i])
    ensures var b := if opts.pie || opts.so then bias else 0;
      ElfByte(OutputFile(img, opts, p), bias, resolve, b + (img.base + (img.secs[i].va + k)))
      == Memory(img, sites, b, BySymbol(resolve), img.secs[i].va + k)
  {
    hide OutputFile, Phdrs, Dynamic, Convertible, Settled, SectionsOk, SitesOk, RelocsOf, TablesFit, NamesOk,
         NamesRight, Applied, Mapped, SymbolsOf, Relas, Memory, Chunk, Stripped, BySymbol, ElfByte;
    var b := if opts.pie || opts.so then bias else 0;
    ElfByteIs(img, opts, p, sites, resolve, bias, img.base + (img.secs[i].va + k));
    NamesAreRight(img, opts, p, sites);
    IsSettled(img, opts, p, sites);
    ConvertibleFits(img, opts, p, sites);
    SectionInMemory(img, opts, p, sites, i, k);
    var file, ps, ds := OutputFile(img, opts, p), Phdrs(img, opts, p), Dynamic(img, opts, p);
    BytesAgree(img, opts, p, sites, Mapped(file, ps), SymbolsOf(file, ps, ds), resolve, b, i, k);
  }
}
