/** Symbol lookup in a converted shared object (--so): what the DT_HASH table finds. */
module Exports {
  import opened Common
  import opened Bytes
  import opened ElfFormat
  import opened PeImage
  import opened Layout
  import opened Names
  import opened HashTable
  import opened Build
  import opened Output
  import opened Assemble
  import opened PeLoader
  import opened ElfLoader
  import opened FileReads
  import opened Mapping
  import opened TablesRead
  import Segments
  import SymbolHash

  // ------------------------------------------------------------------------
  // The table depends on names alone
  // ------------------------------------------------------------------------

  ghost predicate SameNames(a: seq<Sym>, b: seq<Sym>) {
    |a| == |b| && forall i :: 0 <= i < |a| ==> a[i].name == b[i].name
  }

  lemma KeySame(a: seq<Sym>, b: seq<Sym>, tab: seq<byte>, i: nat)
    requires SameNames(a, b) && i < |a|
    ensures Key(a, tab, i) == Key(b, tab, i)
  {
    hide SysvHash, CStr;
  }

  lemma {:induction false} LatestSame(a: seq<Sym>, b: seq<Sym>, tab: seq<byte>, k: int, i: nat)
    requires SameNames(a, b) && i <= |a|
    ensures Latest(a, tab, k, i) == Latest(b, tab, k, i)
  {
    hide Key;
    if i > 1 {
      KeySame(a, b, tab, i - 1);
      LatestSame(a, b, tab, k, i - 1);
    }
  }

  lemma LinkSame(a: seq<Sym>, b: seq<Sym>, tab: seq<byte>, i: nat)
    requires SameNames(a, b) && i < |a|
    ensures Link(a, tab, i) == Link(b, tab, i)
  {
    hide Key, Latest;
    KeySame(a, b, tab, i);
    LatestSame(a, b, tab, Key(a, tab, i), i);
  }

  lemma HashSame(a: seq<Sym>, b: seq<Sym>, tab: seq<byte>)
    requires SameNames(a, b) && a != []
    ensures HashBytes(a, tab) == HashBytes(b, tab)
  {
    hide Latest, Link, Flatten, WordRows;
    forall i | 0 <= i < |a|
      ensures Latest(a, tab, i, |a|) == Latest(b, tab, i, |a|) && Link(a, tab, i) == Link(b, tab, i)
    {
      LatestSame(a, b, tab, i, |a|);
      LinkSame(a, b, tab, i);
    }
    assert HashWords(a, tab) == HashWords(b, tab);
  }

  // ------------------------------------------------------------------------
  // Lookups in the built tables
  // ------------------------------------------------------------------------

  /** Symbol i + 1 reads as name i. */
  lemma SymbolText(img: Image, opts: Options, tramp: nat, i: nat)
    requires TablesFit(img, opts) && NamesOk(img) && tramp < U64 && i < |SymbolNames(img, opts)|
    ensures Dynsym(img, opts, tramp)[i + 1].name < |Dynstr(img, opts)|
    ensures SymText(Dynsym(img, opts, tramp), Dynstr(img, opts), i + 1) == SymbolNames(img, opts)[i]
  {
    hide TablesFit, NamesOk, Dynsym, SymbolNames, Strings, CStr, DynstrHead;
    SymbolAt(img, opts, tramp, i);
    AllNulFree(img, opts, i);
    StringAt(DynstrHead(opts), SymbolNames(img, opts), i);
  }

  lemma AllInside(img: Image, opts: Options, tramp: nat)
    requires TablesFit(img, opts) && NamesOk(img) && tramp < U64
    ensures NamesInside(Dynsym(img, opts, tramp), Dynstr(img, opts)) && |Dynsym(img, opts, tramp)| < U32
  {
    hide TablesFit, NamesOk, Dynsym, Dynstr, SymbolNames;
    forall i | 1 <= i < |Dynsym(img, opts, tramp)| ensures Dynsym(img, opts, tramp)[i].name < |Dynstr(img, opts)| {
      SymbolText(img, opts, tramp, i - 1);
    }
    SymbolCount(img, opts);
  }

  lemma SymbolCount(img: Image, opts: Options)
    requires TablesFit(img, opts)
    ensures 1 + |SymbolNames(img, opts)| < U32
  {
    NamesCount(img, opts);
    hide SymbolNames, Dynstr;
  }

  lemma NamesUnmoved(img: Image, opts: Options, tramp: nat)
    ensures SameNames(Dynsym(img, opts, 0), Dynsym(img, opts, tramp))
  {
    hide SymbolNames, UndefinedSyms, StrOff, UniqueNames;
  }

  /** What a lookup in the written table gives: the last symbol of that name, found exactly when there is one. */
  lemma LookupFinds(img: Image, opts: Options, tramp: nat, name: Name)
    requires opts.so && TablesFit(img, opts) && NamesOk(img) && tramp < U64
    ensures var syms, tab := Dynsym(img, opts, tramp), Dynstr(img, opts);
      var y := Lookup(HashData(img, opts), syms, tab, name);
      && y < |syms|
      && (y > 0 ==> SymbolNames(img, opts)[y - 1] == name
                    && forall i :: y <= i < |SymbolNames(img, opts)| ==> SymbolNames(img, opts)[i] != name)
      && (y == 0 ==> name !in SymbolNames(img, opts))
  {
    hide TablesFit, NamesOk, Dynsym, Dynstr, SymbolNames, HashBytes, Lookup, SymText, Scan;
    var syms, tab, names := Dynsym(img, opts, tramp), Dynstr(img, opts), SymbolNames(img, opts);
    AllInside(img, opts, tramp);
    NamesUnmoved(img, opts, tramp);
    HashSame(Dynsym(img, opts, 0), syms, tab);
    LookupIsScan(syms, tab, name);
    ScanIs(syms, tab, name, |syms|);
    forall i | 0 <= i < |names| ensures SymText(syms, tab, i + 1) == names[i] { SymbolText(img, opts, tramp, i); }
    var y := Scan(syms, tab, name, |syms|);
    forall i | y <= i < |names| ensures names[i] != name { assert SymText(syms, tab, i + 1) != name; }
    if y > 0 { assert SymText(syms, tab, y - 1 + 1) == names[y - 1]; }
  }

  /** `_entrypoint` is always the exported trampoline, even if some import has that very name. */
  lemma EntrypointFound(img: Image, opts: Options, tramp: nat)
    requires opts.so && TablesFit(img, opts) && NamesOk(img) && tramp < U64
    ensures var syms := Dynsym(img, opts, tramp);
      var y := Lookup(HashData(img, opts), syms, Dynstr(img, opts), ENTRYPOINT);
      y == |syms| - 1 && syms[y].shndx != SHN_UNDEF && syms[y].value == tramp
  {
    LookupFinds(img, opts, tramp, ENTRYPOINT);
    hide TablesFit, NamesOk, Dynstr, Lookup, HashData, UniqueNames, UndefinedSyms, StrOff;
    var names := SymbolNames(img, opts);
    assert names[|names| - 1] == ENTRYPOINT;
  }

  /** An import is found at the index its relocation uses, exactly when its prefixed name is not one that the converter
      adds itself; those names find the converter's symbol. */
  lemma ImportFound(img: Image, opts: Options, tramp: nat, j: nat)
    requires opts.so && TablesFit(img, opts) && NamesOk(img) && tramp < U64 && j < |img.imports|
    ensures var name := NameOf(img.imports[j]);
      Lookup(HashData(img, opts), Dynsym(img, opts, tramp), Dynstr(img, opts), name) == SymIndex(img.imports, j)
      <==> name != REGISTER_TLS && name != ENTRYPOINT
  {
    hide TablesFit, NamesOk, Dynstr, Lookup, HashData, UniqueNames, Dynsym, NameOf, SymIndex, SymbolNames;
    var name := NameOf(img.imports[j]);
    LookupFinds(img, opts, tramp, name);
    SymIndexes(img.imports, j, j);
    if name != REGISTER_TLS && name != ENTRYPOINT {
      OnePlace(img, opts, SymIndex(img.imports, j) - 1, name);
    } else {
      LaterPlace(img, opts, name);
    }
  }

  /** "shim", ".dll" and "register_tls" */
  const SHIM: Name := [0x73, 0x68, 0x69, 0x6d]
  const DLL: Name := [0x2e, 0x64, 0x6c, 0x6c]
  const REGISTER: Name := [0x72, 0x65, 0x67, 0x69, 0x73, 0x74, 0x65, 0x72, 0x5f, 0x74, 0x6c, 0x73]

  lemma ShimStem(dll: Name)
    requires dll == SHIM || dll == SHIM + DLL
    ensures Stem(dll) == SHIM
  {
    if dll == SHIM + DLL {
      assert dll[4] == DOT && DOT !in dll[5..] && DOT !in dll[..4];
      var n: nat :| n < |dll| && Stem(dll) == dll[..n] && dll[n] == DOT && DOT !in dll[n + 1..];
      hide Stem;
      assert dll[..4] == SHIM;
    } else {
      assert DOT !in dll;
    }
  }

  lemma ShimName(dll: Name)
    requires dll == SHIM || dll == SHIM + DLL
    ensures SymName(dll, REGISTER) == REGISTER_TLS
  {
    ShimStem(dll);
    hide Stem;
    var low := Lowered(SHIM);
    hide Lowered;
    assert low == SHIM;
    assert SHIM + [UNDERSCORE] + REGISTER == REGISTER_TLS;
  }

  /** An import of register_tls from shim.dll is one that is not found: its name leads to the converter's own symbol. */
  lemma ShimImportMissed(img: Image, opts: Options, tramp: nat, j: nat)
    requires opts.so && TablesFit(img, opts) && NamesOk(img) && tramp < U64 && j < |img.imports|
    requires (img.imports[j].dll == SHIM || img.imports[j].dll == SHIM + DLL) && img.imports[j].func == REGISTER
    ensures Lookup(HashData(img, opts), Dynsym(img, opts, tramp), Dynstr(img, opts), REGISTER_TLS)
         == |UniqueNames(img.imports)| + 1 > SymIndex(img.imports, j)
  {
    hide TablesFit, NamesOk, Dynstr, Lookup, HashData, UniqueNames, Dynsym, SymIndex, SymName;
    ShimName(img.imports[j].dll);
    LookupFinds(img, opts, tramp, REGISTER_TLS);
    SymIndexes(img.imports, j, j);
    var n, names := |UniqueNames(img.imports)|, SymbolNames(img, opts);
    assert names[n] == REGISTER_TLS && names[n + 1] == ENTRYPOINT && |names| == n + 2;
  }

  /** A name that the converter adds is in the list past the imports. */
  lemma LaterPlace(img: Image, opts: Options, name: Name)
    requires opts.so && (name == REGISTER_TLS || name == ENTRYPOINT)
    ensures exists i :: |UniqueNames(img.imports)| <= i < |SymbolNames(img, opts)| && SymbolNames(img, opts)[i] == name
  {
    hide UniqueNames;
    var n, names := |UniqueNames(img.imports)|, SymbolNames(img, opts);
    assert names[n] == REGISTER_TLS && names[n + 1] == ENTRYPOINT;
  }

  /** A name that the converter does not add is in the list once. */
  lemma OnePlace(img: Image, opts: Options, k: nat, name: Name)
    requires k < |UniqueNames(img.imports)| && UniqueNames(img.imports)[k] == name && name != REGISTER_TLS
    requires name != ENTRYPOINT
    ensures name in SymbolNames(img, opts)
    ensures var names := SymbolNames(img, opts); forall i :: 0 <= i < |names| && names[i] == name ==> i == k
  {
    hide UniqueNames;
    UniqueHolds(img.imports);
    var u, names := UniqueNames(img.imports), SymbolNames(img, opts);
    assert names[k] == u[k];
    forall i | 0 <= i < |names| && names[i] == name ensures i == k { assert i < |u| ==> names[i] == u[i]; }
  }

  // ------------------------------------------------------------------------
  // Through the loaded file
  // ------------------------------------------------------------------------

  lemma HashTag(img: Image, opts: Options, p: Plan)
    requires opts.so
    ensures Tag(Dynamic(img, opts, p), DT_HASH) == p.hash.va
  {
    hide Tag, Dynstr, RelaCount;
    TagIs(Dynamic(img, opts, p), if opts.inject == [] then 6 else 7, DT_HASH);
  }

  lemma HashPlaced(img: Image, opts: Options, p: Plan, sites: seq<nat>)
    requires Convertible(img, opts, p, sites) && opts.so && |img.secs| == |p.secFoffs|
    ensures var q := HashPiece(img, opts, p);
      && Placed(OutputFile(img, opts, p), q) && q.at + |q.bytes| <= SynthSize(p) && p.hash.va == p.synthVa + q.at
  {
    hide SizesOf, SitesOk, TablesFit, NamesOk, RelocsOf, UsesFallback, SectionsOk, OutputFile, Placed, HashData,
         IsPlan, Flatten, Dynsym, Relas, Dynamic, Dynstr, Trampoline, Front, Shdrs, Shstrtab, HeaderBytes;
    Segments.OtherPiecesPlaced(img, opts, p);
    TablesChained(img, opts, p);
    AddressesFollowOffsets(img.base, img.secs, SizesOf(img, opts), p);
  }

  /** Word k of the table, read through DT_HASH. */
  lemma HashWordRead(img: Image, opts: Options, p: Plan, sites: seq<nat>, k: nat)
    requires Convertible(img, opts, p, sites) && opts.so && |img.secs| == |p.secFoffs|
    requires 4 * k + 4 <= |HashData(img, opts)|
    ensures HashWord(OutputFile(img, opts, p), Phdrs(img, opts, p), Dynamic(img, opts, p), k)
         == TableWord(HashData(img, opts), k)
  {
    hide OutputFile, Phdrs, Dynamic, Convertible, Settled, SectionsOk, HashData, MapBytes, Tag, FromLe, Placed;
    HashTag(img, opts, p);
    HashPlaced(img, opts, p, sites);
    IsSettled(img, opts, p, sites);
    ConvertibleFits(img, opts, p, sites);
    TableBytes(img, opts, p, OutputFile(img, opts, p), HashPiece(img, opts, p), 4 * k, 4);
  }

  lemma HashLength(img: Image, opts: Options)
    requires opts.so
    ensures |HashData(img, opts)| == 4 * (2 + 2 * |Dynsym(img, opts, 0)|)
  {
    var w := HashWords(Dynsym(img, opts, 0), Dynstr(img, opts));
    hide Dynsym, Dynstr, HashWords, Flatten;
    FlattenLength(WordRows(w), 4);
  }

  /** The words of the written table. */
  lemma HashTableIs(img: Image, opts: Options, tramp: nat, i: nat)
    requires opts.so && TablesFit(img, opts) && i < |Dynsym(img, opts, tramp)|
    ensures var syms, hash := Dynsym(img, opts, tramp), HashData(img, opts);
      && |hash| == 4 * (2 + 2 * |syms|) && |syms| == |Dynsym(img, opts, 0)| < U32
      && TableWord(hash, 0) == |syms| && TableWord(hash, 1) == |syms|
      && Chain(hash, i) == Link(syms, Dynstr(img, opts), i) && (i > 0 ==> Chain(hash, i) < i)
      && Bucket(hash, i) < |syms|
  {
    hide Dynsym, Dynstr, HashBytes, Chain, Link, Latest, HashWords;
    SymbolCount(img, opts);
    HashLength(img, opts);
    NamesUnmoved(img, opts, tramp);
    var syms, tab := Dynsym(img, opts, tramp), Dynstr(img, opts);
    HashSame(Dynsym(img, opts, 0), syms, tab);
    TableIs(syms, tab, i);
    WordIs(syms, tab, 1);
    SecondWord(syms, tab);
  }

  lemma SecondWord(syms: seq<Sym>, tab: seq<byte>)
    requires syms != []
    ensures HashWords(syms, tab)[1] == |syms|
  {
    hide Latest, Link;
  }

  /** Following a chain through the loaded file is following it in the tables. */
  lemma {:induction false} WalkRead(img: Image, opts: Options, p: Plan, sites: seq<nat>, name: Name, y: nat)
    requires Convertible(img, opts, p, sites) && opts.so && |img.secs| == |p.secFoffs|
    ensures WalkChain(OutputFile(img, opts, p), Phdrs(img, opts, p), Dynamic(img, opts, p), name, y)
         == Walk(HashData(img, opts), Dynsym(img, opts, p.tramp.va), Dynstr(img, opts), name, y)
    decreases y
  {
    hide OutputFile, Phdrs, Dynamic, Convertible, Settled, HashData, Dynsym, Dynstr, TablesFit, SymbolNames,
         SymbolName, HashWord, TableWord, Chain, Link, SymText, NamesOk, SectionsOk, SitesOk, RelocsOf;
    ConvertibleFits(img, opts, p, sites);
    Reachable(img, opts, p, sites);
    var n := |Dynsym(img, opts, p.tramp.va)|;
    HashTableIs(img, opts, p.tramp.va, 0);
    HashWordRead(img, opts, p, sites, 0);
    HashWordRead(img, opts, p, sites, 1);
    if 0 < y < n {
      HashTableIs(img, opts, p.tramp.va, y);
      HashWordRead(img, opts, p, sites, 2 + n + y);
      ChainIs(HashData(img, opts), n, y);
      SymbolRead(img, opts, p, sites, y - 1);
      SymbolText(img, opts, p.tramp.va, y - 1);
      if SymText(Dynsym(img, opts, p.tramp.va), Dynstr(img, opts), y) != name {
        WalkRead(img, opts, p, sites, name, Chain(HashData(img, opts), y));
      }
    }
  }

  lemma ChainIs(hash: seq<byte>, n: nat, y: nat)
    requires TableWord(hash, 0) == n
    ensures Chain(hash, y) == TableWord(hash, 2 + n + y)
  {
  }

  lemma Reachable(img: Image, opts: Options, p: Plan, sites: seq<nat>)
    requires Convertible(img, opts, p, sites)
    ensures p.tramp.va < U64
  {
    hide Convertible, Settled;
    IsSettled(img, opts, p, sites);
    HashAddress(img, opts, p, sites);
    TrampBelow(img, opts, p);
  }

  /** A lookup in the loaded file, through DT_HASH, DT_SYMTAB and DT_STRTAB, is the lookup in the tables that were
      built. */
  lemma LookupRead(img: Image, opts: Options, p: Plan, sites: seq<nat>, name: Name)
    requires Convertible(img, opts, p, sites) && opts.so && |img.secs| == |p.secFoffs|
    ensures LookupSymbol(OutputFile(img, opts, p), Phdrs(img, opts, p), Dynamic(img, opts, p), name)
         == Lookup(HashData(img, opts), Dynsym(img, opts, p.tramp.va), Dynstr(img, opts), name)
  {
    hide OutputFile, Phdrs, Dynamic, Convertible, HashData, Dynsym, Dynstr, TablesFit, HashWord, TableWord, Walk,
         WalkChain, SysvHash, GabiHash, Chain, Link, SymbolNames;
    SymbolHash.HashAgrees(name);
    ConvertibleFits(img, opts, p, sites);
    var n := |Dynsym(img, opts, p.tramp.va)|;
    var b := SysvHash(name) % n;
    HashTableIs(img, opts, p.tramp.va, b);
    HashWordRead(img, opts, p, sites, 0);
    HashWordRead(img, opts, p, sites, 2 + b);
    WalkRead(img, opts, p, sites, name, Bucket(HashData(img, opts), b));
  }

  /** In the loaded shared object `_entrypoint` is the exported trampoline: the last symbol, defined, at its address. */
  lemma EntrypointLoads(img: Image, opts: Options, p: Plan, sites: seq<nat>)
    requires Convertible(img, opts, p, sites) && opts.so && |img.secs| == |p.secFoffs|
    ensures var y := LookupSymbol(OutputFile(img, opts, p), Phdrs(img, opts, p), Dynamic(img, opts, p), ENTRYPOINT);
      && 0 < y == |Dynsym(img, opts, p.tramp.va)| - 1
      && MapBytes(OutputFile(img, opts, p), Phdrs(img, opts, p), p.dynsym.va + y * SYM_SIZE, SYM_SIZE)
         == SymBytes(Sym(Dynsym(img, opts, p.tramp.va)[y].name, STB_GLOBAL_FUNC, 1, p.tramp.va, TRAMPOLINE_SIZE))
  {
    hide OutputFile, Phdrs, Dynamic, Convertible, HashData, Dynstr, TablesFit, Lookup, LookupSymbol, MapBytes,
         SymBytes, UniqueNames, UndefinedSyms, StrOff, NamesOk, SectionsOk, SitesOk, RelocsOf;
    ConvertibleFits(img, opts, p, sites);
    Reachable(img, opts, p, sites);
    LookupRead(img, opts, p, sites, ENTRYPOINT);
    EntrypointFound(img, opts, p.tramp.va);
    SymbolBytesRead(img, opts, p, sites, |Dynsym(img, opts, p.tramp.va)| - 1);
  }

  /** So dlsym(handle, "_entrypoint") is the trampoline. */
  lemma EntrypointAddress(img: Image, opts: Options, p: Plan, sites: seq<nat>)
    requires Convertible(img, opts, p, sites) && opts.so && |img.secs| == |p.secFoffs|
    ensures DlSym(OutputFile(img, opts, p), [0x5f, 0x65, 0x6e, 0x74, 0x72, 0x79, 0x70, 0x6f, 0x69, 0x6e, 0x74])
         == Some(p.tramp.va)
  {
    hide OutputFile, Phdrs, Dynamic, Convertible, LookupSymbol, MapBytes, SymBytes, ReadSym, UniqueNames, Dynsym,
         ReadPhdrs, DynsOf, Tag, Settled, TablesFit, NamesOk, SectionsOk, SitesOk, RelocsOf;
    var y := |Dynsym(img, opts, p.tramp.va)| - 1;
    EntrypointLoads(img, opts, p, sites);
    PhdrsRead(img, opts, p, sites);
    DynamicRead(img, opts, p, sites);
    Tags(img, opts, p);
    Reachable(img, opts, p, sites);
    ConvertibleFits(img, opts, p, sites);
    SymbolAt(img, opts, p.tramp.va, y - 1);
    SymRoundTrip(Sym(Dynsym(img, opts, p.tramp.va)[y].name, STB_GLOBAL_FUNC, 1, p.tramp.va, TRAMPOLINE_SIZE));
  }

  /** In the loaded shared object a name is found exactly when it is among the symbol names, at its last symbol. */
  lemma LoadedLookup(img: Image, opts: Options, p: Plan, sites: seq<nat>, name: Name)
    requires Convertible(img, opts, p, sites) && opts.so && |img.secs| == |p.secFoffs|
    ensures var y := LookupSymbol(OutputFile(img, opts, p), Phdrs(img, opts, p), Dynamic(img, opts, p), name);
      && y <= |SymbolNames(img, opts)| && (y == 0 <==> name !in SymbolNames(img, opts))
      && (y > 0 ==> SymbolNames(img, opts)[y - 1] == name
                    && forall i :: y <= i < |SymbolNames(img, opts)| ==> SymbolNames(img, opts)[i] != name)
  {
    hide OutputFile, Phdrs, Dynamic, Convertible, HashData, Dynstr, Dynsym, TablesFit, Lookup, LookupSymbol,
         SymbolNames, NamesOk, SectionsOk, SitesOk, RelocsOf;
    ConvertibleFits(img, opts, p, sites);
    Reachable(img, opts, p, sites);
    LookupRead(img, opts, p, sites, name);
    LookupFinds(img, opts, p.tramp.va, name);
  }
}
