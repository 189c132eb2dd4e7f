/** The startup trampoline of the loaded file: where it jumps, what it calls and the TLS record it passes. */
module Startup {
  import opened Bytes
  import opened ElfFormat
  import opened PeImage
  import opened PeLoader
  import opened Layout
  import opened Names
  import opened Output
  import opened Build
  import opened Assemble
  import opened ElfLoader
  import opened FileReads
  import opened Mapping
  import opened TablesRead
  import opened LoadEquiv
  import opened Processor

  // ------------------------------------------------------------------------
  // The jump
  // ------------------------------------------------------------------------

  lemma SignedBack(d: int)
    requires -0x8000_0000 <= d < 0x8000_0000
    ensures Signed32(d % U32) == d
  {
    if d < 0 { assert d % U32 == d + U32; }
  }

  lemma DistanceIs(img: Image, tramp: nat)
    ensures (tramp + 23 + JumpDistance(img, tramp)) % U64 == (img.base + img.epRva) % U64
  {
    var d := img.base + img.epRva - (tramp + 23);
    assert d == U64 * (d / U64) + d % U64;
    Shifted(img.base + img.epRva, d / U64);
    Shifted(img.base + img.epRva, d / U64 + 1);
  }

  lemma Shifted(x: int, q: int)
    ensures (x - U64 * q) % U64 == x % U64
  {
  }

  /** The jump is refused exactly when no signed 32-bit distance reaches the entry point. */
  lemma JumpFitsIff(img: Image, tramp: nat)
    ensures JumpFits(img, tramp) <==>
      exists d: int :: -0x8000_0000 <= d < 0x8000_0000 && Reaches(img, tramp, d)
  {
    DistanceIs(img, tramp);
    var x := JumpDistance(img, tramp);
    assert Reaches(img, tramp, x);
    if d: int :| -0x8000_0000 <= d < 0x8000_0000 && Reaches(img, tramp, d) {
      hide JumpDistance;
      OneDistance(tramp + 23, x, d);
    }
  }

  predicate Reaches(img: Image, tramp: nat, d: int) { (tramp + 23 + d) % U64 == (img.base + img.epRva) % U64 }

  lemma OneDistance(a: int, x: int, d: int)
    requires (a + x) % U64 == (a + d) % U64
    requires -0x8000_0000_0000_0000 <= x < 0x8000_0000_0000_0000 && -0x8000_0000 <= d < 0x8000_0000
    ensures x == d
  {
    assert x - d == U64 * ((a + x) / U64 - (a + d) / U64);
  }

  /** The four bytes after the jump opcode, taken from the next instruction, lead to the PE entry point. */
  lemma JumpLands(img: Image, tramp: nat)
    requires JumpFits(img, tramp)
    ensures Trampoline(img, tramp)[18] == 0xe9
    ensures (tramp + 23 + Signed32(Field(Trampoline(img, tramp), 19, 4))) % U64 == (img.base + img.epRva) % U64
  {
    hide Le, FromLe, JumpDistance, TlsInfo, Field;
    var d := JumpDistance(img, tramp);
    assert Trampoline(img, tramp)[19..19 + 4] == Le(4, d % U32);
    FieldOfLe(Trampoline(img, tramp), 19, 4, d % U32);
    SignedBack(d);
    DistanceIs(img, tramp);
  }

  // ------------------------------------------------------------------------
  // The record in memory
  // ------------------------------------------------------------------------

  /** A TLS address as the program sees it: moved with the image, null if there is none. */
  function Moved(v: nat, bias: int): nat { if v == 0 then 0 else (v + bias) % U64 }

  /** The trampoline after loading: the call slot filled and, in a shared object, the TLS addresses moved. */
  function LoadedTrampoline(img: Image, opts: Options, tramp: nat, resolve: Name -> nat, bias: int): (s: seq<byte>)
    ensures |s| == TRAMPOLINE_SIZE
  {
    var t, tls := Trampoline(img, tramp), img.tls;
    t[..TRAMP_SLOT] + Le(8, resolve(REGISTER_TLS) % U64)
    + (if opts.so
       then TlsInfo(tls.(template := Moved(tls.template, bias), index := Moved(tls.index, bias),
           callbacks := Moved(tls.callbacks, bias)))
       else TlsInfo(tls))
  }

  lemma SectionRelasAbove(img: Image, opts: Options, p: Plan, sites: seq<nat>, a: nat)
    requires Settled(img, opts, p) && SectionsOk(img) && SitesOk(img, sites) && img.relocs == RelocsOf(img, sites)
    requires a < img.base
    ensures Quiet(ImportRelas(img) + RelocRelas(img.relocs), a)
  {
    hide Settled, SectionsOk, SitesOk, RelocsOf, PointerSites, RelocList, Stored, SymIndex;
    RelocsFromSites(img, sites);
    assert forall k :: 0 <= k < |img.relocs| ==> img.relocs[k].va >= img.base by {
      RelocsAbove(img, PointerSites(img.imports, sites));
    }
  }

  lemma RelocsAbove(img: Image, ps: seq<nat>)
    requires img.relocs == RelocList(img, ps)
    ensures forall k :: 0 <= k < |img.relocs| ==> img.relocs[k].va >= img.base
  {
    hide Stored;
  }

  /** Byte d of the trampoline when relocation j of its own is the one that writes it. */
  lemma RestAt(img: Image, opts: Options, p: Plan, mem: nat -> byte, names: nat -> Name, resolve: Name -> nat,
               bias: int, j: nat, a: nat)
    requires j < |Rest(img, opts, p)| && Writes(Rest(img, opts, p)[j], a)
    requires forall k :: j < k < |Rest(img, opts, p)| ==> !Writes(Rest(img, opts, p)[k], a)
    ensures var r := Rest(img, opts, p)[j];
      Applied(mem, names, resolve, bias, Relas(img, opts, p.tramp.va), a)
        == Le(8, RelaValue(names, resolve, bias, r))[a - r.offset]
  {
    hide Applied, Relas, Rest, Writes, RelaValue, Le, ImportRelas, RelocRelas;
    RelasSplit(img, opts, p);
    var x, y := ImportRelas(img) + RelocRelas(img.relocs), Rest(img, opts, p);
    assert x + y + [] == x + y;
    AppliedMiddle(mem, names, resolve, bias, x, y, [], j, a);
  }

  lemma RestQuiet(img: Image, opts: Options, p: Plan, mem: nat -> byte, names: nat -> Name, resolve: Name -> nat,
                  bias: int, a: nat)
    requires Quiet(ImportRelas(img) + RelocRelas(img.relocs), a) && Quiet(Rest(img, opts, p), a)
    ensures Applied(mem, names, resolve, bias, Relas(img, opts, p.tramp.va), a) == mem(a)
  {
    hide Applied, Relas, Rest, Writes, ImportRelas, RelocRelas;
    RelasSplit(img, opts, p);
    var x, y := ImportRelas(img) + RelocRelas(img.relocs), Rest(img, opts, p);
    assert x + y + [] == x + y;
    AppliedQuiet(mem, names, resolve, bias, x, y, [], a);
  }

  /** Which of the trampoline's relocations, if any, writes byte d: the call slot's or that of a non-null TLS address.
      */
  ghost predicate Writer(img: Image, opts: Options, p: Plan, d: nat, j: nat, kind: nat, sym: nat, at: nat, v: nat) {
    && j < |Rest(img, opts, p)| && Rest(img, opts, p)[j] == Rela(p.tramp.va + at, sym, kind, v) && at <= d < at + 8
    && forall k :: j < k < |Rest(img, opts, p)| ==> !Writes(Rest(img, opts, p)[k], p.tramp.va + d)
  }

  lemma SlotWriter(img: Image, opts: Options, p: Plan, d: nat)
    requires 24 <= d < 32
    ensures Writer(img, opts, p, d, 0, R_X86_64_64, |UniqueNames(img.imports)| + 1, 24, 0)
  {
    hide UniqueNames;
  }

  lemma FieldWriter(img: Image, opts: Options, p: Plan, at: nat, v: nat, d: nat) returns (j: nat)
    requires opts.so && v != 0 && at <= d < at + 8
    requires at in [32, 64, 72]
    requires v == if at == 32 then img.tls.template else if at == 64 then img.tls.index else img.tls.callbacks
    ensures Writer(img, opts, p, d, j, R_X86_64_RELATIVE, 0, at, v)
  {
    hide UniqueNames;
    var a, b := if img.tls.template == 0 then 0 else 1, if img.tls.index == 0 then 0 else 1;
    j := if at == 32 then 1 else if at == 64 then 1 + a else 1 + a + b;
  }

  lemma NoWriter(img: Image, opts: Options, p: Plan, d: nat)
    requires !(24 <= d < 32) && (opts.so && 32 <= d < 40 ==> img.tls.template == 0)
    requires (opts.so && 64 <= d < 72 ==> img.tls.index == 0) && (opts.so && 72 <= d < 80 ==> img.tls.callbacks == 0)
    ensures Quiet(Rest(img, opts, p), p.tramp.va + d)
  {
    hide UniqueNames;
  }

  // ------------------------------------------------------------------------
  // Byte by byte
  // ------------------------------------------------------------------------

  lemma InfoAt(tls: Tls, f: nat, e: nat)
    requires f < 6 && e < 8
    ensures TlsInfo(tls)[8 * f + e]
         == Le(8, [tls.template, tls.templateSize, tls.zeroFill, tls.alignment, tls.index, tls.callbacks][f])[e]
  {
    hide Le;
  }

  /** The value that the trampoline's field at 32 + 8f should have once loaded. */
  function FieldValue(img: Image, opts: Options, bias: int, f: nat): nat
    requires f < 6
  {
    var tls := img.tls;
    var v := [tls.template, tls.templateSize, tls.zeroFill, tls.alignment, tls.index, tls.callbacks][f];
    if opts.so && f in [0, 4, 5] then Moved(v, bias) else v
  }

  lemma LoadedField(img: Image, opts: Options, tramp: nat, resolve: Name -> nat, bias: int, f: nat, e: nat)
    requires f < 6 && e < 8
    ensures LoadedTrampoline(img, opts, tramp, resolve, bias)[32 + 8 * f + e]
         == Le(8, FieldValue(img, opts, bias, f))[e]
  {
    hide Le, Trampoline, TlsInfo, Moved;
    var tls := img.tls;
    var moved := tls.(template := Moved(tls.template, bias), index := Moved(tls.index, bias),
        callbacks := Moved(tls.callbacks, bias));
    InfoAt(tls, f, e);
    InfoAt(moved, f, e);
  }

  lemma RawField(img: Image, tramp: nat, f: nat, e: nat)
    requires f < 6 && e < 8
    ensures Trampoline(img, tramp)[32 + 8 * f + e]
         == Le(8, [img.tls.template, img.tls.templateSize, img.tls.zeroFill, img.tls.alignment, img.tls.index,
             img.tls.callbacks][f])[e]
  {
    hide Le, TlsInfo;
    InfoAt(img.tls, f, e);
  }

  /** A byte of the TLS record. */
  lemma RecordByte(img: Image, opts: Options, p: Plan, sites: seq<nat>, mem: nat -> byte, names: nat -> Name,
                   resolve: Name -> nat, bias: int, f: nat, e: nat)
    requires f < 6 && e < 8 && Quiet(ImportRelas(img) + RelocRelas(img.relocs), p.tramp.va + (32 + 8 * f + e))
    requires mem(p.tramp.va + (32 + 8 * f + e)) == Trampoline(img, p.tramp.va)[32 + 8 * f + e]
    ensures Applied(mem, names, resolve, bias, Relas(img, opts, p.tramp.va), p.tramp.va + (32 + 8 * f + e))
         == LoadedTrampoline(img, opts, p.tramp.va, resolve, bias)[32 + 8 * f + e]
  {
    hide Applied, Relas, Rest, Le, Trampoline, LoadedTrampoline, ImportRelas, RelocRelas, Quiet;
    var d, at := 32 + 8 * f + e, 32 + 8 * f;
    var tls := img.tls;
    var v := [tls.template, tls.templateSize, tls.zeroFill, tls.alignment, tls.index, tls.callbacks][f];
    LoadedField(img, opts, p.tramp.va, resolve, bias, f, e);
    RawField(img, p.tramp.va, f, e);
    if opts.so && f in [0, 4, 5] && v != 0 {
      var j := FieldWriter(img, opts, p, at, v, d);
      RestAt(img, opts, p, mem, names, resolve, bias, j, p.tramp.va + d);
    } else {
      NoWriter(img, opts, p, d);
      RestQuiet(img, opts, p, mem, names, resolve, bias, p.tramp.va + d);
    }
  }

  lemma SlotByte(img: Image, opts: Options, p: Plan, mem: nat -> byte, names: nat -> Name, resolve: Name -> nat,
                 bias: int, d: nat)
    requires 24 <= d < 32 && names(|UniqueNames(img.imports)| + 1) == REGISTER_TLS
    ensures Applied(mem, names, resolve, bias, Relas(img, opts, p.tramp.va), p.tramp.va + d)
         == LoadedTrampoline(img, opts, p.tramp.va, resolve, bias)[d]
  {
    hide Applied, Relas, Rest, Le, Trampoline, UniqueNames, TlsInfo, Moved;
    SlotWriter(img, opts, p, d);
    RestAt(img, opts, p, mem, names, resolve, bias, 0, p.tramp.va + d);
  }

  lemma CodeByte(img: Image, opts: Options, p: Plan, mem: nat -> byte, names: nat -> Name, resolve: Name -> nat,
                 bias: int, d: nat)
    requires d < 24 && Quiet(ImportRelas(img) + RelocRelas(img.relocs), p.tramp.va + d)
    requires mem(p.tramp.va + d) == Trampoline(img, p.tramp.va)[d]
    ensures Applied(mem, names, resolve, bias, Relas(img, opts, p.tramp.va), p.tramp.va + d)
         == LoadedTrampoline(img, opts, p.tramp.va, resolve, bias)[d]
  {
    hide Applied, Relas, Rest, Le, Trampoline, TlsInfo, Moved, ImportRelas, RelocRelas, Quiet;
    NoWriter(img, opts, p, d);
    RestQuiet(img, opts, p, mem, names, resolve, bias, p.tramp.va + d);
  }

  // ------------------------------------------------------------------------
  // The theorem
  // ------------------------------------------------------------------------

  lemma RegisterTlsRead(img: Image, opts: Options, p: Plan, sites: seq<nat>)
    requires Convertible(img, opts, p, sites) && |img.secs| == |p.secFoffs|
    ensures SymbolsOf(OutputFile(img, opts, p), Phdrs(img, opts, p), Dynamic(img, opts,
        p))(|UniqueNames(img.imports)| + 1)
         == REGISTER_TLS
  {
    hide OutputFile, Phdrs, Dynamic, Convertible, SymbolName, UniqueNames;
    var k := |UniqueNames(img.imports)|;
    assert SymbolNames(img, opts)[k] == REGISTER_TLS;
    SymbolRead(img, opts, p, sites, k);
  }

  lemma TrampolineQuiet(img: Image, opts: Options, p: Plan, sites: seq<nat>, d: nat)
    requires Convertible(img, opts, p, sites) && d < TRAMPOLINE_SIZE
    ensures Quiet(ImportRelas(img) + RelocRelas(img.relocs), p.tramp.va + d)
  {
    hide Convertible, Settled, SectionsOk, SitesOk, RelocsOf, TablesFit, NamesOk, Quiet, ImportRelas, RelocRelas;
    IsSettled(img, opts, p, sites);
    ConvertibleFits(img, opts, p, sites);
    HashAddress(img, opts, p, sites);
    TrampBelow(img, opts, p);
    SectionRelasAbove(img, opts, p, sites, p.tramp.va + d);
  }

  lemma TrampolineMapped(img: Image, opts: Options, p: Plan, sites: seq<nat>, d: nat)
    requires Convertible(img, opts, p, sites) && |img.secs| == |p.secFoffs| && d < TRAMPOLINE_SIZE
    ensures MapByte(OutputFile(img, opts, p), Phdrs(img, opts, p), p.tramp.va + d) == Trampoline(img, p.tramp.va)[d]
  {
    hide OutputFile, Phdrs, Convertible, Settled, SectionsOk, SitesOk, RelocsOf, TablesFit, NamesOk, MapByte, Placed,
         Trampoline, PlanFor, DynsymPiece, DynstrPiece, RelaPiece, DynamicPiece;
    IsSettled(img, opts, p, sites);
    ConvertibleFits(img, opts, p, sites);
    PlanSections2(img, opts, p, sites);
    TablesPlaced(img, opts, p);
    SettledParts(img, opts, p);
    TableByte(img, opts, p, OutputFile(img, opts, p), TrampolinePiece(img, p), d);
  }

  /** Once loaded, the trampoline calls shim_register_tls and passes it, in a shared object, the TLS directory with its
      addresses moved by the bias; in an executable, the TLS directory as it stands. */
  lemma TrampolineLoads(img: Image, opts: Options, p: Plan, sites: seq<nat>, resolve: Name -> nat, bias: int, d: nat)
    requires Convertible(img, opts, p, sites) && |img.secs| == |p.secFoffs| && d < TRAMPOLINE_SIZE
    ensures var b := if opts.pie || opts.so then bias else 0;
      ElfByte(OutputFile(img, opts, p), bias, resolve, b + (p.tramp.va + d))
        == LoadedTrampoline(img, opts, p.tramp.va, resolve, b)[d]
  {
    hide OutputFile, Phdrs, Dynamic, Convertible, Applied, MapByte, SymbolsOf, Relas, ElfByte, LoadedTrampoline,
         Trampoline, Quiet, UniqueNames, ImportRelas, RelocRelas;
    var b := if opts.pie || opts.so then bias else 0;
    ElfByteIs(img, opts, p, sites, resolve, bias, p.tramp.va + d);
    TrampolineQuiet(img, opts, p, sites, d);
    TrampolineMapped(img, opts, p, sites, d);
    var file, ps, ds := OutputFile(img, opts, p), Phdrs(img, opts, p), Dynamic(img, opts, p);
    var mem, names := Mapped(file, ps), SymbolsOf(file, ps, ds);
    if d < 24 {
      CodeByte(img, opts, p, mem, names, resolve, b, d);
    } else if d < 32 {
      RegisterTlsRead(img, opts, p, sites);
      SlotByte(img, opts, p, mem, names, resolve, b, d);
    } else {
      var f, e := (d - 32) / 8, (d - 32) % 8;
      assert d == 32 + 8 * f + e;
      RecordByte(img, opts, p, sites, mem, names, resolve, b, f, e);
    }
  }

  // ------------------------------------------------------------------------
  // Running it
  // ------------------------------------------------------------------------

  /** Memory holds these bytes at an address. */
  ghost predicate Has(m: int -> byte, a: int, s: seq<byte>) { forall i :: 0 <= i < |s| ==> m(a + i) == s[i] }

  lemma HasBytes(m: int -> byte, a: int, s: seq<byte>, o: nat, n: nat)
    requires Has(m, a, s) && o + n <= |s|
    ensures Fetched(m, a + o, n) == s[o..o + n]
  {
    var got, want := Fetched(m, a + o, n), s[o..o + n];
    forall i | 0 <= i < n ensures got[i] == want[i] { assert m(a + (o + i)) == s[o + i]; }
  }

  lemma WordLoaded(m: int -> byte, a: int, s: seq<byte>, o: nat, n: nat, v: nat)
    requires Has(m, a, s) && o + n <= |s| && s[o..o + n] == Le(n, v)
    requires (n == 4 && v < U32) || (n == 8 && v < U64)
    ensures Load(m, a + o, n) == v
  {
    hide Le, FromLe, Has;
    HasBytes(m, a, s, o, n);
    FieldOfLe(s, o, n, v);
  }

  /** The code of the trampoline, whatever is in the slot and the record. */
  ghost predicate Code(t: seq<byte>, d: nat, target: nat) {
    && |t| == TRAMPOLINE_SIZE
    && t[..19] == [0x48, 0x83, 0xe4, 0xf0, 0x48, 0x8d, 0x3d, 0x15, 0, 0, 0, 0xff, 0x15, 0x07, 0, 0, 0, 0x50, 0xe9]
    && t[19..23] == Le(4, d) && t[24..32] == Le(8, target)
  }

  /** The displacements of the lea and of the call. */
  lemma Displacements()
    ensures Le(4, 0x15) == [0x15, 0, 0, 0] && Le(4, 7) == [7, 0, 0, 0]
  {
    LittleEndian(0x15, 0, 0, 0, 0, 0);
    LittleEndian(7, 0, 0, 0, 0, 0);
    assert Le(0, 0) == [];
  }

  lemma CodeAt(m: int -> byte, at: int, t: seq<byte>, d: nat, target: nat, o: nat, n: nat)
    requires Has(m, at, t) && Code(t, d, target) && o + n <= 19
    ensures Fetched(m, at + o, n) == t[..19][o..o + n] == t[o..o + n]
  {
    hide Has, Fetched;
    HasBytes(m, at, t, o, n);
  }

  lemma FirstTwo(m: int -> byte, at: int, t: seq<byte>, d: nat, target: nat, sp: int, rdi: int)
    requires Has(m, at, t) && Code(t, d, target)
    ensures Step(m, Cpu(at, sp, rdi)) == Next(Cpu(at + 4, sp - sp % 16, rdi))
    ensures Step(m, Cpu(at + 4, sp, rdi)) == Next(Cpu(at + 11, sp, at + 32))
  {
    hide Le, FromLe, Has, Load, Fetched;
    Displacements();
    CodeAt(m, at, t, d, target, 0, 4);
    CodeAt(m, at, t, d, target, 4, 4);
    CodeAt(m, at, t, d, target, 4, 3);
    CodeAt(m, at, t, d, target, 7, 4);
    assert Fetched(m, at + 0, 4) == [0x48, 0x83, 0xe4, 0xf0];
    assert Fetched(m, at + 4, 4)[1] == 0x8d && Fetched(m, at + 4, 3) == [0x48, 0x8d, 0x3d];
    WordLoaded(m, at, t, 7, 4, 0x15);
    assert at + 4 + 3 == at + 7;
  }

  lemma TheCall(m: int -> byte, at: int, t: seq<byte>, d: nat, target: nat, sp: int, rdi: int)
    requires Has(m, at, t) && Code(t, d, target) && target < U64
    ensures Step(m, Cpu(at + 11, sp, rdi)) == Called(target, Cpu(at + 17, sp, rdi))
  {
    hide Le, FromLe, Has, Load, Fetched;
    Displacements();
    CodeAt(m, at, t, d, target, 11, 4);
    CodeAt(m, at, t, d, target, 11, 3);
    CodeAt(m, at, t, d, target, 11, 2);
    CodeAt(m, at, t, d, target, 13, 4);
    assert Fetched(m, at + 11, 4)[0] == 0xff && Fetched(m, at + 11, 3)[0] == 0xff;
    assert Fetched(m, at + 11, 2) == [0xff, 0x15];
    WordLoaded(m, at, t, 13, 4, 7);
    WordLoaded(m, at, t, 24, 8, target);
    assert at + 11 + 2 == at + 13 && at + 11 + 6 + 7 == at + 24;
  }

  lemma ThePush(m: int -> byte, at: int, t: seq<byte>, d: nat, target: nat, sp: int, rdi: int)
    requires Has(m, at, t) && Code(t, d, target)
    ensures Step(m, Cpu(at + 17, sp, rdi)) == Next(Cpu(at + 18, sp - 8, rdi))
  {
    hide Le, FromLe, Load;
    assert t[17] == t[..19][17];
    assert m(at + 17) == 0x50;
    hide Has;
    assert Fetched(m, at + 17, 4)[0] == 0x50 && Fetched(m, at + 17, 3)[0] == 0x50 && Fetched(m, at + 17, 2)[0] == 0x50;
  }

  lemma TheJump(m: int -> byte, at: int, t: seq<byte>, d: nat, target: nat, sp: int, rdi: int)
    requires Has(m, at, t) && Code(t, d, target) && d < U32
    ensures Step(m, Cpu(at + 18, sp, rdi)) == Jumped(Cpu(at + 23 + Signed32(d), sp, rdi))
  {
    hide Le, FromLe, Load;
    assert t[18] == t[..19][18];
    assert m(at + 18) == 0xe9;
    hide Has;
    assert Fetched(m, at + 18, 4)[0] == 0xe9 && Fetched(m, at + 18, 3)[0] == 0xe9 && Fetched(m, at + 18, 2)[0] == 0xe9;
    WordLoaded(m, at, t, 19, 4, d);
    assert at + 18 + 1 == at + 19;
  }

  lemma CodeRuns(m: int -> byte, at: int, t: seq<byte>, d: nat, target: nat, sp: int, rdi: int, left: int)
    requires Has(m, at, t) && Code(t, d, target) && d < U32 && target < U64
    ensures var sp' := sp - sp % 16;
      Started(m, at, sp, rdi, left) == Start(target, at + 32, sp', at + 23 + Signed32(d), sp' - 8)
  {
    hide Has, Code, Step;
    var sp' := sp - sp % 16;
    FirstTwo(m, at, t, d, target, sp, rdi);
    FirstTwo(m, at, t, d, target, sp', rdi);
    TheCall(m, at, t, d, target, sp', at + 32);
    ThePush(m, at, t, d, target, sp', left);
    TheJump(m, at, t, d, target, sp' - 8, left);
  }

  lemma TrampolineCode(img: Image, opts: Options, tramp: nat, resolve: Name -> nat, bias: int)
    ensures Code(LoadedTrampoline(img, opts, tramp, resolve, bias), JumpDistance(img, tramp) % U32,
                 resolve(REGISTER_TLS) % U64)
  {
    hide Le, JumpDistance, TlsInfo, Moved;
    var t, s := LoadedTrampoline(img, opts, tramp, resolve, bias), Trampoline(img, tramp);
    assert t[..24] == s[..24];
    assert t[..19] == s[..24][..19] && t[19..23] == s[..24][19..23];
    assert s[19..23] == Le(4, JumpDistance(img, tramp) % U32);
  }

  /** The record that the program should get: addresses as in the file, or moved with a shared object. */
  function LoadedTls(img: Image, opts: Options, b: int): Tls {
    var t := img.tls;
    var size, fill, align := t.templateSize % U64, t.zeroFill % U64, t.alignment % U64;
    if opts.so then Tls(Moved(t.template, b), size, fill, align, Moved(t.index, b), Moved(t.callbacks, b))
    else Tls(t.template, size, fill, align, t.index, t.callbacks)
  }

  lemma Wraps(v: nat)
    ensures Le(8, v) == Le(8, v % U64)
  {
    Pow256Widths();
    LeSame(8, v, v % U64, v / U64);
  }

  /** A field of the record, read from the loaded trampoline. */
  lemma FieldLoaded(m: int -> byte, at: int, t: seq<byte>, f: nat, v: nat)
    requires Has(m, at, t) && |t| == TRAMPOLINE_SIZE && f < 6
    requires forall e :: 0 <= e < 8 ==> t[32 + 8 * f + e] == Le(8, v)[e]
    ensures Load(m, at + 32 + 8 * f, 8) == v % U64
  {
    hide Has, Le, Load;
    Wraps(v);
    var o := 32 + 8 * f;
    forall e | 0 <= e < 8 ensures t[o..o + 8][e] == Le(8, v)[e] { assert t[o + e] == Le(8, v)[e]; }
    assert t[o..o + 8] == Le(8, v);
    WordLoaded(m, at, t, o, 8, v % U64);
    assert at + o == at + 32 + 8 * f;
  }

  lemma RecordLoaded(img: Image, opts: Options, tramp: nat, resolve: Name -> nat, b: int, m: int -> byte, at: int)
    requires Has(m, at, LoadedTrampoline(img, opts, tramp, resolve, b))
    requires img.tls.template < U64 && img.tls.index < U64 && img.tls.callbacks < U64
    ensures TlsRecord(m, at + 32) == LoadedTls(img, opts, b)
  {
    hide Has, Le, Load, LoadedTrampoline;
    var t := LoadedTrampoline(img, opts, tramp, resolve, b);
    forall f: nat | f < 6 ensures Load(m, at + 32 + 8 * f, 8) == FieldValue(img, opts, b, f) % U64 {
      forall e: nat | e < 8 ensures t[32 + 8 * f + e] == Le(8, FieldValue(img, opts, b, f))[e] {
        LoadedField(img, opts, tramp, resolve, b, f, e);
      }
      FieldLoaded(m, at, t, f, FieldValue(img, opts, b, f));
    }
    FieldsAre(img, opts, b, m, at);
  }

  lemma FieldsAre(img: Image, opts: Options, b: int, m: int -> byte, at: int)
    requires forall f: nat {:trigger FieldValue(img, opts, b, f)} ::
      f < 6 ==> Load(m, at + 32 + 8 * f, 8) == FieldValue(img, opts, b, f) % U64
    requires img.tls.template < U64 && img.tls.index < U64 && img.tls.callbacks < U64
    ensures TlsRecord(m, at + 32) == LoadedTls(img, opts, b)
  {
    hide Load;
    var a, c := FieldValue(img, opts, b, 0), FieldValue(img, opts, b, 1);
    var d, e := FieldValue(img, opts, b, 2), FieldValue(img, opts, b, 3);
    var g, h := FieldValue(img, opts, b, 4), FieldValue(img, opts, b, 5);
    assert at + 32 + 8 * 0 == at + 32;
  }

  function MemoryOf(file: seq<byte>, bias: int, resolve: Name -> nat): int -> byte {
    x => ElfByte(file, bias, resolve, x)
  }

  lemma TrampolineInMemory(img: Image, opts: Options, p: Plan, sites: seq<nat>, resolve: Name -> nat, bias: int)
    requires Convertible(img, opts, p, sites) && |img.secs| == |p.secFoffs|
    ensures var b := if opts.pie || opts.so then bias else 0;
      Has(MemoryOf(OutputFile(img, opts, p), bias, resolve), b + p.tramp.va,
          LoadedTrampoline(img, opts, p.tramp.va, resolve, b))
  {
    hide OutputFile, Convertible, ElfByte, LoadedTrampoline;
    var b := if opts.pie || opts.so then bias else 0;
    forall d | 0 <= d < TRAMPOLINE_SIZE
      ensures ElfByte(OutputFile(img, opts, p), bias, resolve, b + p.tramp.va + d)
           == LoadedTrampoline(img, opts, p.tramp.va, resolve, b)[d]
    {
      TrampolineLoads(img, opts, p, sites, resolve, bias, d);
      assert b + p.tramp.va + d == b + (p.tramp.va + d);
    }
  }

  /** The start that a converted program should make: shim_register_tls is called on an aligned stack with the address
      of the TLS record, and then the PE entry point is entered with the stack as after a call. */
  ghost predicate StartsWell(m: int -> byte, at: int, sp: int, rdi: int, left: int, target: nat, tls: Tls, entry: int) {
    var r := Started(m, at, sp, rdi, left);
    && r.Start? && r.target == target && TlsRecord(m, r.arg) == tls && r.callSp % 16 == 0
    && r.entry % U64 == entry % U64 && r.entrySp % 16 == 8
  }

  /** Entered at the trampoline, the loaded program makes that start. */
  lemma TrampolineRuns(img: Image, opts: Options, p: Plan, sites: seq<nat>, resolve: Name -> nat, bias: int, sp: int,
                       rdi: int, left: int)
    requires Convertible(img, opts, p, sites) && |img.secs| == |p.secFoffs| && JumpFits(img, p.tramp.va)
    ensures var b := if opts.pie || opts.so then bias else 0;
      StartsWell(MemoryOf(OutputFile(img, opts, p), bias, resolve), b + p.tramp.va, sp, rdi, left,
                 resolve(REGISTER_TLS) % U64, LoadedTls(img, opts, b), b + img.base + img.epRva)
  {
    hide OutputFile, Convertible, LoadedTrampoline, MemoryOf, Has, Code, Started, TlsRecord, LoadedTls, Trampoline,
         TablesFit;
    var b := if opts.pie || opts.so then bias else 0;
    var m, at := MemoryOf(OutputFile(img, opts, p), bias, resolve), b + p.tramp.va;
    var t, d := LoadedTrampoline(img, opts, p.tramp.va, resolve, b), JumpDistance(img, p.tramp.va) % U32;
    TrampolineInMemory(img, opts, p, sites, resolve, bias);
    TrampolineCode(img, opts, p.tramp.va, resolve, b);
    CodeRuns(m, at, t, d, resolve(REGISTER_TLS) % U64, sp, rdi, left);
    TlsFits(img, opts, p, sites);
    RecordLoaded(img, opts, p.tramp.va, resolve, b, m, at);
    SignedBack(JumpDistance(img, p.tramp.va));
    DistanceIs(img, p.tramp.va);
    hide JumpDistance;
    AlsoMoved(p.tramp.va + 23 + JumpDistance(img, p.tramp.va), img.base + img.epRva, b);
  }

  lemma AlsoMoved(x: int, y: int, b: int)
    requires x % U64 == y % U64
    ensures (b + x) % U64 == (b + y) % U64
  {
    assert x - y == U64 * (x / U64 - y / U64);
    Shifted(b + x, x / U64 - y / U64);
  }

  lemma TlsFits(img: Image, opts: Options, p: Plan, sites: seq<nat>)
    requires Convertible(img, opts, p, sites)
    ensures img.tls.template < U64 && img.tls.index < U64 && img.tls.callbacks < U64
  {
    hide Dynstr, PlanFor, SitesOk, SectionsOk, RelocsOf, NamesOk;
  }
}
