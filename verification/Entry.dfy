/** Entering the converted file: where the kernel starts an executable, what dlsym finds in a shared object, and what is
    at the entry point that a shared object should never be entered at (elf_write.hpp, elf_build.hpp). */
module Entry {
  import opened Common
  import opened Bytes
  import opened ElfFormat
  import opened PeImage
  import opened PeLoader
  import opened Layout
  import opened Names
  import opened Build
  import opened Assemble
  import opened ElfLoader
  import opened FileReads
  import opened Mapping
  import opened TablesRead
  import opened LoadEquiv
  import opened Processor
  import opened Startup
  import Exports

  /** "_entrypoint" */
  const EXPORTED: Name := [0x5f, 0x65, 0x6e, 0x74, 0x72, 0x79, 0x70, 0x6f, 0x69, 0x6e, 0x74]

  /** "shim_register_tls" */
  const CALLED: Name :=
    [0x73, 0x68, 0x69, 0x6d, 0x5f, 0x72, 0x65, 0x67, 0x69, 0x73, 0x74, 0x65, 0x72, 0x5f, 0x74, 0x6c, 0x73]

  /** Where the program of a file is entered: at e_entry, or at what dlsym(handle, "_entrypoint") gives. */
  function StartOf(file: seq<byte>, so: bool): Option<nat> {
    if so then DlSym(file, EXPORTED) else Some(EntryOf(file))
  }

  /** From the bytes of the file alone: a loader accepts it, and entered where it says, at any bias, with any stack, it
      calls shim_register_tls with the TLS record and then enters the PE entry point. */
  ghost predicate ProgramStarts(file: seq<byte>, img: Image, opts: Options) {
    && Acceptable(file) && StartOf(file, opts.so).Some?
    && forall resolve: Name -> nat, bias: int, sp: int, rdi: int, left: int ::
         StartsRight(file, img, opts, StartOf(file, opts.so).value, resolve, bias, sp, rdi, left)
  }

  ghost predicate StartsRight(file: seq<byte>, img: Image, opts: Options, at: nat, resolve: Name -> nat, bias: int,
                              sp: int, rdi: int, left: int)
  {
    var b := RunBias(file, bias);
    StartsWell(MemoryOf(file, bias, resolve), b + at, sp, rdi, left, resolve(CALLED) % U64, LoadedTls(img, opts, b),
               b + img.base + img.epRva)
  }

  lemma EntryRead(img: Image, opts: Options, p: Plan, sites: seq<nat>)
    requires Convertible(img, opts, p, sites)
    ensures |img.secs| == |p.secFoffs| && Acceptable(OutputFile(img, opts, p))
    ensures EntryOf(OutputFile(img, opts, p)) == if opts.so then SafeEntry(img, 0) else p.tramp.va
  {
    hide OutputFile, Convertible, PlanFor, SafeEntry, Acceptable, EntryOf, SectionsOk, SitesOk, RelocsOf, TablesFit,
         NamesOk, ShFoff, Shdrs, Field;
    PlanSections2(img, opts, p, sites);
    ConvertibleFits(img, opts, p, sites);
    Exports.Reachable(img, opts, p, sites);
    EntryBelow(img, 0);
    HeaderRead(img, opts, p);
  }

  lemma StartIs(img: Image, opts: Options, p: Plan, sites: seq<nat>)
    requires Convertible(img, opts, p, sites)
    ensures |img.secs| == |p.secFoffs| && StartOf(OutputFile(img, opts, p), opts.so) == Some(p.tramp.va)
  {
    hide OutputFile, Convertible, SafeEntry, EntryOf, DlSym;
    EntryRead(img, opts, p, sites);
    if opts.so { Exports.EntrypointAddress(img, opts, p, sites); }
  }

  /** Every converted program, whatever its options, starts. */
  lemma ConvertedStarts(img: Image, opts: Options, p: Plan, sites: seq<nat>)
    requires Convertible(img, opts, p, sites) && Converts(img, opts, p)
    ensures ProgramStarts(OutputFile(img, opts, p), img, opts)
  {
    hide OutputFile, Convertible, SafeEntry, Acceptable, StartOf, StartsWell, MemoryOf, LoadedTls, RunBias, JumpFits;
    EntryRead(img, opts, p, sites);
    StartIs(img, opts, p, sites);
    var file := OutputFile(img, opts, p);
    forall resolve: Name -> nat, bias: int, sp: int, rdi: int, left: int
      ensures StartsRight(file, img, opts, p.tramp.va, resolve, bias, sp, rdi, left)
    {
      PhdrsRead(img, opts, p, sites);
      TrampolineRuns(img, opts, p, sites, resolve, bias, sp, rdi, left);
    }
  }

  /** The addresses in the record follow the image exactly if it is a shared object, or nothing moved, or there are
      none: an executable built with --pie and loaded at another address passes the addresses of the file. */
  lemma RecordFollows(img: Image, opts: Options, b: int)
    requires img.tls.template < U64 && img.tls.index < U64 && img.tls.callbacks < U64
    ensures var t, r := img.tls, LoadedTls(img, opts, b);
      MovesWith(t.template, r.template, b) && MovesWith(t.index, r.index, b) && MovesWith(t.callbacks, r.callbacks, b)
      <==> opts.so || b % U64 == 0 || (t.template == 0 && t.index == 0 && t.callbacks == 0)
  {
    Unmoved(img.tls.template, b);
    Unmoved(img.tls.index, b);
    Unmoved(img.tls.callbacks, b);
  }

  predicate MovesWith(v: nat, r: nat, b: int) { r == if v == 0 then 0 else (v + b) % U64 }

  lemma Unmoved(v: nat, b: int)
    requires v < U64
    ensures (v + b) % U64 == v <==> b % U64 == 0
  {
    if (v + b) % U64 == v {
      var q := (v + b) / U64;
      assert b == U64 * q;
      Shifted(0, -q);
    }
    if b % U64 == 0 {
      Shifted(v, -(b / U64));
      assert v - U64 * -(b / U64) == v + b;
    }
  }

  // ------------------------------------------------------------------------
  // The entry point of a shared object
  // ------------------------------------------------------------------------

  /** The byte found: in an executable section, the first 0xC3 of its data, with none in the executable sections before
      it. */
  ghost predicate FirstReturn(img: Image, from: nat, i: nat, k: nat) {
    && from <= i < |img.secs| && img.secs[i].characteristics / 0x2000_0000 % 2 == 1
    && k < |InFile(img, img.secs[i])| && InFile(img, img.secs[i])[k] == 0xC3
    && 0xC3 !in InFile(img, img.secs[i])[..k]
    && forall j :: from <= j < i && img.secs[j].characteristics / 0x2000_0000 % 2 == 1 ==>
         0xC3 !in InFile(img, img.secs[j])
  }

  lemma {:induction false} EntryFound(img: Image, from: nat) returns (i: nat, k: nat)
    requires from <= |img.secs| && SafeEntry(img, from) != 0
    ensures FirstReturn(img, from, i, k) && SafeEntry(img, from) == img.base + img.secs[i].va + k
    decreases |img.secs| - from
  {
    hide InFile, FirstRet;
    var s := img.secs[from];
    var r := FirstRet(InFile(img, s));
    if HasFlag(s, SCN_EXECUTE) && r.Some? {
      i, k := from, r.value;
    } else {
      i, k := EntryFound(img, from + 1);
    }
  }

  /** There is none exactly when no executable section has such a byte, for any base but zero. */
  lemma {:induction false} NoEntry(img: Image, from: nat)
    requires from <= |img.secs| && img.base > 0
    ensures SafeEntry(img, from) == 0 <==>
      forall j :: from <= j < |img.secs| && img.secs[j].characteristics / 0x2000_0000 % 2 == 1 ==>
        0xC3 !in InFile(img, img.secs[j])
    decreases |img.secs| - from
  {
    hide InFile, FirstRet;
    if from < |img.secs| {
      NoEntry(img, from + 1);
      var r := FirstRet(InFile(img, img.secs[from]));
      if r.Some? { assert InFile(img, img.secs[from])[r.value] in InFile(img, img.secs[from]); }
    }
  }

  /** When a conversion is refused: no 32-bit jump reaches the entry point, or a shared object has nowhere to enter. */
  lemma ConvertsIff(img: Image, opts: Options, p: Plan)
    requires img.base > 0
    ensures Converts(img, opts, p) <==>
      && (exists d: int :: -0x8000_0000 <= d < 0x8000_0000 && Reaches(img, p.tramp.va, d))
      && (opts.so ==> exists j :: 0 <= j < |img.secs| && img.secs[j].characteristics / 0x2000_0000 % 2 == 1
                                  && 0xC3 in InFile(img, img.secs[j]))
  {
    hide JumpFits, SafeEntry, InFile, Reaches;
    JumpFitsIff(img, p.tramp.va);
    NoEntry(img, 0);
  }

  /** The loader writes an import's address or moves a pointer there. */
  ghost predicate Rewritten(img: Image, sites: seq<nat>, rva: nat) {
    || (exists j :: 0 <= j < |img.imports| && Covers(img.imports[j].iatRva, rva))
    || (exists j :: 0 <= j < |PointerSites(img.imports, sites)| && Covers(PointerSites(img.imports, sites)[j], rva))
  }

  ghost predicate Loads(img: Image, opts: Options, p: Plan, rva: nat, resolve: Name -> nat, bias: int, x: byte)
    requires |img.secs| == |p.secFoffs|
  {
    ElfByte(OutputFile(img, opts, p), bias, resolve, bias + (img.base + rva)) == x
  }

  /** Wherever relocations may write: the loaded byte is what they make of the mapped one. */
  lemma LoadedByRelas(img: Image, opts: Options, p: Plan, sites: seq<nat>, rva: nat, resolve: Name -> nat, bias: int)
    returns (mem: nat -> byte, names: nat -> Name)
    requires Convertible(img, opts, p, sites) && |img.secs| == |p.secFoffs| && opts.so
    ensures mem == Mapped(OutputFile(img, opts, p), Phdrs(img, opts, p)) && NamesRight(img, names)
    ensures Loads(img, opts, p, rva, resolve, bias,
                  Applied(mem, names, resolve, bias, Relas(img, opts, p.tramp.va), img.base + rva))
  {
    hide OutputFile, Phdrs, Dynamic, Convertible, NamesRight, Applied, SymbolsOf, Relas, ElfByte, Mapped;
    var file, hs, ds := OutputFile(img, opts, p), Phdrs(img, opts, p), Dynamic(img, opts, p);
    mem, names := Mapped(file, hs), SymbolsOf(file, hs, ds);
    ElfByteIs(img, opts, p, sites, resolve, bias, img.base + rva);
    NamesAreRight(img, opts, p, sites);
  }

  lemma Facts(img: Image, opts: Options, p: Plan, sites: seq<nat>)
    requires Convertible(img, opts, p, sites)
    ensures Settled(img, opts, p) && SitesOk(img, sites) && AllApart(PointerSites(img.imports, sites))
    ensures img.relocs == RelocList(img, PointerSites(img.imports, sites))
  {
    hide Convertible, Settled, SectionsOk, SitesOk, RelocsOf, TablesFit, NamesOk, RelocList, PointerSites, AllApart,
         Inside;
    IsSettled(img, opts, p, sites);
    ConvertibleFits(img, opts, p, sites);
    RelocsFromSites(img, sites);
    PointerSitesOk(img, sites);
  }

  lemma SlotLoads(img: Image, opts: Options, p: Plan, sites: seq<nat>, rva: nat, resolve: Name -> nat, bias: int,
                  j: nat)
    requires Convertible(img, opts, p, sites) && |img.secs| == |p.secFoffs| && opts.so
    requires j < |img.imports| && Covers(img.imports[j].iatRva, rva)
    ensures Loads(img, opts, p, rva, resolve, bias,
                  Le(8, resolve(NameOf(img.imports[j])) % U64)[rva - img.imports[j].iatRva])
  {
    hide OutputFile, Convertible, Settled, SitesOk, NamesRight, Applied, Relas, Loads, PointerSites, RelocList, Le,
         NameOf, Mapped, BySymbol;
    Facts(img, opts, p, sites);
    var mem, names := LoadedByRelas(img, opts, p, sites, rva, resolve, bias);
    AtSlot(img, opts, p, sites, mem, names, resolve, bias, j, rva);
    NamedBy(img, j, resolve);
  }

  lemma PointerLoads(img: Image, opts: Options, p: Plan, sites: seq<nat>, rva: nat, resolve: Name -> nat, bias: int,
                     j: nat)
    requires Convertible(img, opts, p, sites) && |img.secs| == |p.secFoffs| && opts.so
    requires j < |PointerSites(img.imports, sites)| && Covers(PointerSites(img.imports, sites)[j], rva)
    ensures var at := PointerSites(img.imports, sites)[j];
      Loads(img, opts, p, rva, resolve, bias, Le(8, (Stored(img, at) + bias) % U64)[rva - at])
  {
    hide OutputFile, Convertible, Settled, SitesOk, NamesRight, Applied, Relas, Loads, PointerSites, RelocList, Le,
         Mapped, Stored, AllApart;
    Facts(img, opts, p, sites);
    var mem, names := LoadedByRelas(img, opts, p, sites, rva, resolve, bias);
    AtPointer(img, opts, p, PointerSites(img.imports, sites), mem, names, resolve, bias, j, rva);
  }

  /** A section byte of the loaded file, of a kept section or a dropped one. */
  lemma OtherLoads(img: Image, opts: Options, p: Plan, sites: seq<nat>, i: nat, k: nat, resolve: Name -> nat, bias: int)
    requires Convertible(img, opts, p, sites) && |img.secs| == |p.secFoffs| && opts.so
    requires i < |img.secs| && k < img.secs[i].rawsz && !Rewritten(img, sites, img.secs[i].va + k)
    ensures Loads(img, opts, p, img.secs[i].va + k, resolve, bias,
                  if Stripped(opts, img.secs[i]) then 0 else RawByte(img, i, k))
  {
    hide OutputFile, Convertible, Settled, SitesOk, NamesRight, Applied, Relas, Loads, PointerSites, RelocList,
         Stripped, RawByte, Phdrs, MapByte;
    var rva := img.secs[i].va + k;
    Facts(img, opts, p, sites);
    var mem, names := LoadedByRelas(img, opts, p, sites, rva, resolve, bias);
    AtRest(img, opts, p, PointerSites(img.imports, sites), mem, names, resolve, bias, rva);
    RestByte(img, opts, p, sites, i, k);
  }

  lemma NamedBy(img: Image, j: nat, resolve: Name -> nat)
    requires j < |img.imports|
    ensures BySymbol(resolve)(img.imports[j].dll, img.imports[j].func) == resolve(NameOf(img.imports[j])) % U64
  {
    hide SymName;
  }

  lemma DroppedByte(img: Image, opts: Options, p: Plan, i: nat, k: nat, file: seq<byte>)
    requires Settled(img, opts, p) && SectionsOk(img) && i < |img.secs| == |p.secFoffs| && k < img.secs[i].rawsz
    requires Stripped(opts, img.secs[i])
    ensures MapByte(file, Phdrs(img, opts, p), img.base + img.secs[i].va + k) == 0
  {
    hide Phdrs, Settled, SectionsOk, Stripped, MapByte, Maps;
    var a := img.base + img.secs[i].va + k;
    forall q | q in Phdrs(img, opts, p) ensures !Maps(q, a) { StrippedUnmapped(img, opts, p, i, k, q); }
    NothingMaps(file, Phdrs(img, opts, p), a);
  }

  /** The mapped byte of a section where no slot is. */
  lemma RestByte(img: Image, opts: Options, p: Plan, sites: seq<nat>, i: nat, k: nat)
    requires Convertible(img, opts, p, sites) && i < |img.secs| == |p.secFoffs| && k < img.secs[i].rawsz
    requires forall j :: 0 <= j < |img.imports| ==> !Covers(img.imports[j].iatRva, img.secs[i].va + k)
    ensures MapByte(OutputFile(img, opts, p), Phdrs(img, opts, p), img.base + (img.secs[i].va + k))
         == if Stripped(opts, img.secs[i]) then 0 else RawByte(img, i, k)
  {
    hide OutputFile, Phdrs, Convertible, Settled, SectionsOk, SitesOk, RelocsOf, TablesFit, NamesOk, Stripped, RawByte,
         MapByte, Chunk, Covers;
    assert img.base + img.secs[i].va + k == img.base + (img.secs[i].va + k);
    if Stripped(opts, img.secs[i]) {
      IsSettled(img, opts, p, sites);
      ConvertibleFits(img, opts, p, sites);
      DroppedByte(img, opts, p, i, k, OutputFile(img, opts, p));
    } else {
      SectionInMemory(img, opts, p, sites, i, k);
      ChunkIs(img, i, k);
    }
  }

  lemma {:induction false} NothingMaps(file: seq<byte>, ps: seq<Phdr>, a: nat)
    requires forall q :: q in ps ==> !Maps(q, a)
    ensures MapByte(file, ps, a) == 0
  {
    hide Maps, SegmentByte;
    if ps != [] {
      assert ps[|ps| - 1] in ps;
      NothingMaps(file, ps[..|ps| - 1], a);
    }
  }

  /** The entry point of a shared object returns at once, wherever it is loaded and however symbols resolve, if and only
      if its section is kept and the byte chosen is in no import slot and no pointer. */
  lemma SafeEntryReturns(img: Image, opts: Options, p: Plan, sites: seq<nat>, i: nat, k: nat)
    requires Convertible(img, opts, p, sites) && |img.secs| == |p.secFoffs| && opts.so && FirstReturn(img, 0, i, k)
    requires SafeEntry(img, 0) == img.base + img.secs[i].va + k
    ensures var file := OutputFile(img, opts, p);
      (forall resolve: Name -> nat, bias: int :: ReturnsAt(file, bias, resolve))
      <==> !Stripped(opts, img.secs[i]) && !Rewritten(img, sites, img.secs[i].va + k)
  {
    hide OutputFile, Convertible, Stripped, Rewritten, ReturnsAt, SafeEntry;
    var file, rva := OutputFile(img, opts, p), img.secs[i].va + k;
    EntryRead(img, opts, p, sites);
    if !Stripped(opts, img.secs[i]) && !Rewritten(img, sites, rva) {
      forall resolve: Name -> nat, bias: int ensures ReturnsAt(file, bias, resolve) {
        SafeByte(img, opts, p, sites, i, k, resolve, bias);
      }
    } else {
      var resolve, bias := SpoiledByte(img, opts, p, sites, i, k);
      assert !ReturnsAt(file, bias, resolve);
    }
  }

  /** The byte at the entry point of the loaded shared object is 0xC3. */
  ghost predicate ReturnsAt(file: seq<byte>, bias: int, resolve: Name -> nat) {
    ElfByte(file, bias, resolve, bias + EntryOf(file)) == 0xC3
  }

  lemma InFileByte(img: Image, i: nat, k: nat)
    requires i < |img.secs| && k < |InFile(img, img.secs[i])|
    ensures k < img.secs[i].rawsz && RawByte(img, i, k) == InFile(img, img.secs[i])[k]
  {
  }

  lemma SafeByte(img: Image, opts: Options, p: Plan, sites: seq<nat>, i: nat, k: nat, resolve: Name -> nat, bias: int)
    requires Convertible(img, opts, p, sites) && |img.secs| == |p.secFoffs| && opts.so && FirstReturn(img, 0, i, k)
    requires EntryOf(OutputFile(img, opts, p)) == img.base + img.secs[i].va + k
    requires !Stripped(opts, img.secs[i]) && !Rewritten(img, sites, img.secs[i].va + k)
    ensures ReturnsAt(OutputFile(img, opts, p), bias, resolve)
  {
    hide OutputFile, Convertible, Stripped, Rewritten, ElfByte, RawByte, InFile, EntryOf;
    InFileByte(img, i, k);
    OtherLoads(img, opts, p, sites, i, k, resolve, bias);
    assert bias + (img.base + (img.secs[i].va + k)) == bias + (img.base + img.secs[i].va + k);
  }

  lemma ZeroBytes(e: nat)
    requires e < 8
    ensures Le(8, 0)[e] == 0
  {
    LittleEndian(0, 0, 0, 0, 0, 4);
    LittleEndian(0, 0, 0, 0, 0, 0);
  }

  lemma ReturnSpoiled(img: Image, opts: Options, p: Plan, i: nat, k: nat, resolve: Name -> nat, bias: int)
    requires |img.secs| == |p.secFoffs| && i < |img.secs|
    requires EntryOf(OutputFile(img, opts, p)) == img.base + img.secs[i].va + k
    requires Loads(img, opts, p, img.secs[i].va + k, resolve, bias, 0)
    ensures !ReturnsAt(OutputFile(img, opts, p), bias, resolve)
  {
    hide OutputFile, ElfByte, EntryOf;
    assert bias + (img.base + (img.secs[i].va + k)) == bias + (img.base + img.secs[i].va + k);
  }

  /** Otherwise there is a loading after which it is zero. */
  lemma SpoiledByte(img: Image, opts: Options, p: Plan, sites: seq<nat>, i: nat, k: nat)
    returns (resolve: Name -> nat, bias: int)
    requires Convertible(img, opts, p, sites) && |img.secs| == |p.secFoffs| && opts.so && FirstReturn(img, 0, i, k)
    requires EntryOf(OutputFile(img, opts, p)) == img.base + img.secs[i].va + k
    requires Stripped(opts, img.secs[i]) || Rewritten(img, sites, img.secs[i].va + k)
    ensures !ReturnsAt(OutputFile(img, opts, p), bias, resolve)
  {
    hide OutputFile, Convertible, Stripped, Loads, RawByte, InFile, EntryOf, Le, Stored, PointerSites, NameOf,
         ReturnsAt;
    InFileByte(img, i, k);
    var rva, ps := img.secs[i].va + k, PointerSites(img.imports, sites);
    resolve, bias := _ => 0, 0;
    if j :| 0 <= j < |img.imports| && Covers(img.imports[j].iatRva, rva) {
      ZeroBytes(rva - img.imports[j].iatRva);
      SlotLoads(img, opts, p, sites, rva, resolve, bias, j);
    } else if j :| 0 <= j < |ps| && Covers(ps[j], rva) {
      bias := 0 - Stored(img, ps[j]);
      ZeroBytes(rva - ps[j]);
      PointerLoads(img, opts, p, sites, rva, resolve, bias, j);
    } else {
      OtherLoads(img, opts, p, sites, i, k, resolve, bias);
    }
    ReturnSpoiled(img, opts, p, i, k, resolve, bias);
  }
}
