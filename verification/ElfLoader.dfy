/** What a dynamic loader does with an ELF file, from the bytes of the file alone: map the PT_LOAD segments, find
    the dynamic section, and run the relocations. System V gABI, chapter 5; section 4.4.1 of the x86-64 psABI. */
module ElfLoader {
  import opened Common
  import opened Bytes
  import opened ElfFormat
  import opened PeImage
  import opened Names

  // ------------------------------------------------------------------------
  // Segments
  // ------------------------------------------------------------------------

  /** What the kernel and ld.so ask of a file before they map it: ELF, 64 bits, little-endian, version 1, x86-64, an
      executable (2) or shared object (3), program headers of 56 bytes. */
  predicate Acceptable(file: seq<byte>) {
    && |file| >= 64 && file[..7] == [0x7f, 0x45, 0x4c, 0x46, 2, 1, 1]
    && Field(file, 18, 2) == 62 && Field(file, 20, 4) == 1 && (Field(file, 16, 2) == 2 || Field(file, 16, 2) == 3)
    && Field(file, 54, 2) == 56
  }

  /** Where the kernel enters an executable. */
  function EntryOf(file: seq<byte>): nat {
    if |file| < EHDR_SIZE then 0 else Field(file, 24, 8)
  }

  const NO_PHDR: Phdr := Phdr(0, 0, 0, 0, 0, 0, 0)

  function ReadPhdrAt(file: seq<byte>, at: nat): Phdr {
    if at + PHDR_SIZE <= |file| then ReadPhdr(file[at..at + PHDR_SIZE]) else NO_PHDR
  }

  /** The program header table that the file header points at. */
  function ReadPhdrs(file: seq<byte>): seq<Phdr> {
    if |file| < EHDR_SIZE then []
    else seq(Field(file, 56, 2), i requires 0 <= i => ReadPhdrAt(file, Field(file, 32, 8) + i * PHDR_SIZE))
  }

  /** PT_LOAD is 1. Whole pages are mapped. */
  predicate Maps(q: Phdr, a: nat) {
    q.kind == 1 && q.vaddr / PAGE * PAGE <= a < AlignUp(q.vaddr + q.memsz, PAGE)
  }

  function SegmentByte(file: seq<byte>, q: Phdr, a: nat): byte {
    if q.vaddr <= a < q.vaddr + q.filesz && q.offset + (a - q.vaddr) < |file| then file[q.offset + (a - q.vaddr)] else 0
  }

  /** Segments are mapped in order, each over what was there. */
  function MapByte(file: seq<byte>, ps: seq<Phdr>, a: nat): byte {
    if ps == [] then 0
    else
      var q := ps[|ps| - 1];
      if Maps(q, a) then SegmentByte(file, q, a) else MapByte(file, ps[..|ps| - 1], a)
  }

  function MapBytes(file: seq<byte>, ps: seq<Phdr>, a: nat, n: nat): (s: seq<byte>)
    ensures |s| == n && forall i :: 0 <= i < n ==> s[i] == MapByte(file, ps, a + i)
  {
    seq<byte>(n, i requires 0 <= i => MapByte(file, ps, a + i))
  }

  /** A byte that one segment alone maps. */
  lemma {:induction false} OnlyMap(file: seq<byte>, ps: seq<Phdr>, a: nat, q: Phdr)
    requires q in ps && Maps(q, a) && forall r :: r in ps && Maps(r, a) ==> r == q
    ensures MapByte(file, ps, a) == SegmentByte(file, q, a)
  {
    hide Maps, SegmentByte;
    var init, last := ps[..|ps| - 1], ps[|ps| - 1];
    assert ps == init + [last];
    assert last in ps;
    if !Maps(last, a) {
      assert q in init;
      forall r | r in init && Maps(r, a) ensures r == q { assert r in ps; }
      OnlyMap(file, init, a, q);
    }
  }

  // ------------------------------------------------------------------------
  // The dynamic section
  // ------------------------------------------------------------------------

  /** The first PT_DYNAMIC (2) segment. */
  function DynamicOf(ps: seq<Phdr>): Phdr {
    if ps == [] then NO_PHDR else if ps[0].kind == 2 then ps[0] else DynamicOf(ps[1..])
  }

  function ReadDyns(mem: seq<byte>): seq<Dyn> {
    if |mem| < DYN_SIZE then [] else [ReadDyn(mem[..DYN_SIZE])] + ReadDyns(mem[DYN_SIZE..])
  }

  function ReadRelas(mem: seq<byte>): seq<Rela> {
    if |mem| < RELA_SIZE then [] else [ReadRela(mem[..RELA_SIZE])] + ReadRelas(mem[RELA_SIZE..])
  }

  /** The value of a tag, looked for up to DT_NULL (0). */
  function Tag(ds: seq<Dyn>, tag: nat): nat {
    if ds == [] || ds[0].tag == 0 then 0 else if ds[0].tag == tag then ds[0].val else Tag(ds[1..], tag)
  }

  function DynsOf(file: seq<byte>, ps: seq<Phdr>): seq<Dyn> {
    var q := DynamicOf(ps);
    ReadDyns(MapBytes(file, ps, q.vaddr, q.memsz))
  }

  /** DT_RELA is 7 and DT_RELASZ 8. */
  function RelasOf(file: seq<byte>, ps: seq<Phdr>, ds: seq<Dyn>): seq<Rela> {
    ReadRelas(MapBytes(file, ps, Tag(ds, 7), Tag(ds, 8)))
  }

  /** The name of a symbol, through the symbol table (6) and the string table (5, of size 10). */
  function SymbolName(file: seq<byte>, ps: seq<Phdr>, ds: seq<Dyn>, i: nat): Name {
    var at := ReadSymName(MapBytes(file, ps, Tag(ds, 6) + i * SYM_SIZE, SYM_SIZE));
    var tab := MapBytes(file, ps, Tag(ds, 5), Tag(ds, 10));
    if at < |tab| then CStr(tab[at..]) else []
  }

  // ------------------------------------------------------------------------
  // Libraries
  // ------------------------------------------------------------------------

  function StringIn(tab: seq<byte>, at: nat): Name { if at < |tab| then CStr(tab[at..]) else [] }

  /** The string of every DT_NEEDED (1), in order. */
  function Needed(ds: seq<Dyn>, tab: seq<byte>): seq<Name> {
    if ds == [] || ds[0].tag == 0 then []
    else (if ds[0].tag == 1 then [StringIn(tab, ds[0].val)] else []) + Needed(ds[1..], tab)
  }

  function StringTable(file: seq<byte>): seq<byte> {
    var ps := ReadPhdrs(file);
    var ds := DynsOf(file, ps);
    MapBytes(file, ps, Tag(ds, 5), Tag(ds, 10))
  }

  /** The libraries that ld.so loads. */
  function LibrariesOf(file: seq<byte>): seq<Name> { Needed(DynsOf(file, ReadPhdrs(file)), StringTable(file)) }

  /** Where it looks for them: DT_RUNPATH (29). */
  function RunpathOf(file: seq<byte>): Name {
    StringIn(StringTable(file), Tag(DynsOf(file, ReadPhdrs(file)), 29))
  }

  /** The program interpreter that the kernel runs, from the first PT_INTERP (3) segment. */
  function InterpreterIn(file: seq<byte>, ps: seq<Phdr>): seq<byte> {
    if ps == [] then []
    else if ps[0].kind != 3 then InterpreterIn(file, ps[1..])
    else if ps[0].offset + ps[0].filesz <= |file| then file[ps[0].offset..ps[0].offset + ps[0].filesz]
    else []
  }

  // ------------------------------------------------------------------------
  // Symbol lookup
  // ------------------------------------------------------------------------

  /** Exclusive or of two four-bit numbers. */
  function XorNibble(a: nat, b: nat): nat {
    (if Bit(a, 8) != Bit(b, 8) then 8 else 0) + (if Bit(a, 4) != Bit(b, 4) then 4 else 0)
    + (if Bit(a, 2) != Bit(b, 2) then 2 else 0) + (if Bit(a, 1) != Bit(b, 1) then 1 else 0)
  }

  predicate Bit(a: nat, p: nat)
    requires p > 0
  {
    a / p % 2 == 1
  }

  /** The gABI's hash of one more character: of the 32 bits of 16 h + c the low 28 stay, with the top four folded by
      exclusive or into bits 4 to 7. */
  function GabiStep(h: nat, c: byte): nat {
    var t := (16 * h + c) % 0x1_0000_0000;
    var top, low := t / 0x1000_0000, t % 0x1000_0000;
    low / 256 * 256 + XorNibble(low / 16 % 16, top) * 16 + low % 16
  }

  function GabiHash(name: Name): nat {
    if name == [] then 0 else GabiStep(GabiHash(name[..|name| - 1]), name[|name| - 1])
  }

  /** Word k of the DT_HASH (4) table. */
  function HashWord(file: seq<byte>, ps: seq<Phdr>, ds: seq<Dyn>, k: nat): nat {
    FromLe(MapBytes(file, ps, Tag(ds, 4) + 4 * k, 4))
  }

  /** Following a chain from symbol y; nbucket and nchain are the first two words. */
  function WalkChain(file: seq<byte>, ps: seq<Phdr>, ds: seq<Dyn>, name: Name, y: nat): nat
    decreases y
  {
    if y == 0 || y >= HashWord(file, ps, ds, 1) then 0
    else if SymbolName(file, ps, ds, y) == name then y
    else
      var next := HashWord(file, ps, ds, 2 + HashWord(file, ps, ds, 0) + y);
      if next >= y then 0 else WalkChain(file, ps, ds, name, next)
  }

  /** The gABI's lookup, all of it through mapped memory: the index of a symbol with that name, or 0. */
  function LookupSymbol(file: seq<byte>, ps: seq<Phdr>, ds: seq<Dyn>, name: Name): nat {
    var n := HashWord(file, ps, ds, 0);
    if n == 0 then 0 else WalkChain(file, ps, ds, name, HashWord(file, ps, ds, 2 + GabiHash(name) % n))
  }

  /** dlsym: the address of a defined global symbol, before the bias. */
  function DlSym(file: seq<byte>, name: Name): Option<nat> {
    var ps := ReadPhdrs(file);
    var ds := DynsOf(file, ps);
    var y := LookupSymbol(file, ps, ds, name);
    var sym := ReadSym(MapBytes(file, ps, Tag(ds, 6) + y * SYM_SIZE, SYM_SIZE));
    if y == 0 || sym.shndx == 0 || sym.info / 16 != 1 then None else Some(sym.value)
  }

  // ------------------------------------------------------------------------
  // Relocations
  // ------------------------------------------------------------------------

  /** R_X86_64_64 (1) is S + A and R_X86_64_RELATIVE (8) is B + A, in 64 bits. */
  function RelaValue(names: nat -> Name, resolve: Name -> nat, bias: int, r: Rela): nat {
    if r.kind == 1 then (resolve(names(r.sym)) + r.addend) % U64 else (bias + r.addend) % U64
  }

  predicate Writes(r: Rela, a: nat) {
    (r.kind == 1 || r.kind == 8) && r.offset <= a < r.offset + 8
  }

  /** Memory after the relocations, run in order; addresses are those of the file, before the bias. */
  function Applied(mem: nat -> byte, names: nat -> Name, resolve: Name -> nat, bias: int, relas: seq<Rela>,
                   a: nat): byte
  {
    if relas == [] then mem(a)
    else
      var r := relas[|relas| - 1];
      if Writes(r, a) then Le(8, RelaValue(names, resolve, bias, r))[a - r.offset]
      else Applied(mem, names, resolve, bias, relas[..|relas| - 1], a)
  }

  /** ET_DYN (3) files are mapped at a bias, others where they say. */
  function RunBias(file: seq<byte>, bias: int): int {
    if |file| >= EHDR_SIZE && Field(file, 16, 2) == 3 then bias else 0
  }

  function Mapped(file: seq<byte>, ps: seq<Phdr>): nat -> byte { a => MapByte(file, ps, a) }

  function SymbolsOf(file: seq<byte>, ps: seq<Phdr>, ds: seq<Dyn>): nat -> Name { i => SymbolName(file, ps, ds, i) }

  /** Memory of the loaded file. */
  function ElfByte(file: seq<byte>, bias: int, resolve: Name -> nat, x: int): byte {
    var b := RunBias(file, bias);
    var ps := ReadPhdrs(file);
    var ds := DynsOf(file, ps);
    if x < b then 0
    else Applied(Mapped(file, ps), SymbolsOf(file, ps, ds), resolve, b, RelasOf(file, ps, ds), x - b)
  }

  lemma {:induction false} AppliedOutside(mem: nat -> byte, names: nat -> Name, resolve: Name -> nat, bias: int,
                                          relas: seq<Rela>, a: nat)
    requires forall j :: 0 <= j < |relas| ==> !Writes(relas[j], a)
    ensures Applied(mem, names, resolve, bias, relas, a) == mem(a)
  {
    if relas != [] {
      assert !Writes(relas[|relas| - 1], a);
      AppliedOutside(mem, names, resolve, bias, relas[..|relas| - 1], a);
    }
  }

  /** A byte that relocation j alone writes. */
  lemma {:induction false} AppliedAt(mem: nat -> byte, names: nat -> Name, resolve: Name -> nat, bias: int,
                                     relas: seq<Rela>, j: nat, a: nat)
    requires j < |relas| && Writes(relas[j], a) && forall k :: j < k < |relas| ==> !Writes(relas[k], a)
    ensures Applied(mem, names, resolve, bias, relas, a)
         == Le(8, RelaValue(names, resolve, bias, relas[j]))[a - relas[j].offset]
  {
    var n := |relas| - 1;
    if j < n {
      assert !Writes(relas[n], a);
      AppliedAt(mem, names, resolve, bias, relas[..n], j, a);
    }
  }

  // ------------------------------------------------------------------------
  // Reading tables back
  // ------------------------------------------------------------------------

  lemma {:induction false} ReadDynsBack(ds: seq<Dyn>)
    requires forall i :: 0 <= i < |ds| ==> DynFits(ds[i])
    ensures ReadDyns(Flatten(DynRows(ds))) == ds
  {
    if ds == [] {
      assert DynRows(ds) == [];
    } else {
      hide DynFits, ReadDyn, DynBytes;
      var mem := Flatten(DynRows(ds));
      assert DynRows(ds)[1..] == DynRows(ds[1..]);
      assert mem == DynBytes(ds[0]) + Flatten(DynRows(ds[1..]));
      assert mem[..DYN_SIZE] == DynBytes(ds[0]) && mem[DYN_SIZE..] == Flatten(DynRows(ds[1..]));
      DynRoundTrip(ds[0]);
      ReadDynsBack(ds[1..]);
    }
  }

  lemma {:induction false} ReadRelasBack(rs: seq<Rela>)
    requires forall i :: 0 <= i < |rs| ==> RelaFits(rs[i])
    ensures ReadRelas(Flatten(RelaRows(rs))) == rs
  {
    if rs == [] {
      assert RelaRows(rs) == [];
    } else {
      hide RelaFits, ReadRela, RelaBytes;
      var mem := Flatten(RelaRows(rs));
      assert RelaRows(rs)[1..] == RelaRows(rs[1..]);
      assert mem == RelaBytes(rs[0]) + Flatten(RelaRows(rs[1..]));
      assert mem[..RELA_SIZE] == RelaBytes(rs[0]) && mem[RELA_SIZE..] == Flatten(RelaRows(rs[1..]));
      RelaRoundTrip(rs[0]);
      ReadRelasBack(rs[1..]);
    }
  }

  /** Reading the program headers of a file that starts with this header and these rows. */
  lemma ReadPhdrsBack(file: seq<byte>, e: Ehdr, ps: seq<Phdr>)
    requires e.phnum == |ps| < U16 && e.kind < U16 && (forall i :: 0 <= i < |ps| ==> PhdrFits(ps[i]))
    requires var front := EhdrBytes(e) + Flatten(PhdrRows(ps)); |front| <= |file| && file[..|front|] == front
    ensures ReadPhdrs(file) == ps && |file| >= EHDR_SIZE && Field(file, 16, 2) == e.kind
  {
    hide PhdrFits, ReadPhdr, PhdrBytes, EhdrBytes, Flatten, FromLe;
    var head, body := EhdrBytes(e), Flatten(PhdrRows(ps));
    var front := head + body;
    FlattenLength(PhdrRows(ps), PHDR_SIZE);
    EhdrRead(e);
    FrontField(file, head, 16, 2);
    FrontField(file, head, 32, 8);
    FrontField(file, head, 56, 2);
    forall i | 0 <= i < |ps| ensures ReadPhdrAt(file, EHDR_SIZE + i * PHDR_SIZE) == ps[i] {
      FlattenAt(PhdrRows(ps), PHDR_SIZE, i);
      var at := i * PHDR_SIZE;
      var a, b := EHDR_SIZE + at, EHDR_SIZE + at + PHDR_SIZE;
      PartOfPrefix(file, |front|, a, b);
      assert front[a..b] == body[at..at + PHDR_SIZE];
      PhdrRoundTrip(ps[i]);
    }
  }

  lemma PartOfPrefix(s: seq<byte>, n: nat, a: nat, b: nat)
    requires a <= b <= n <= |s|
    ensures s[..n][a..b] == s[a..b]
  {
  }

  lemma FrontField(file: seq<byte>, head: seq<byte>, at: nat, n: nat)
    requires |head| == EHDR_SIZE <= |file| && file[..EHDR_SIZE] == head && at + n <= EHDR_SIZE
    ensures Field(file, at, n) == Field(head, at, n)
  {
    hide FromLe;
    assert file[at..at + n] == file[..EHDR_SIZE][at..at + n];
  }
}
