/** The ELF64 structures the converter writes (elf_types.hpp), field by field, and reading them back.
    System V gABI, chapters 4 and 5. */
module ElfFormat {
  import opened Bytes

  const EHDR_SIZE: nat := 64
  const PHDR_SIZE: nat := 56
  const SYM_SIZE: nat := 24
  const RELA_SIZE: nat := 24
  const DYN_SIZE: nat := 16
  const SHDR_SIZE: nat := 64

  const ET_EXEC: nat := 2
  const ET_DYN: nat := 3
  const EM_X86_64: nat := 62

  const PT_LOAD: nat := 1
  const PT_DYNAMIC: nat := 2
  const PT_INTERP: nat := 3
  const PT_PHDR: nat := 6
  const PT_GNU_STACK: nat := 0x6474e551
  const PT_GNU_RELRO: nat := 0x6474e552

  const PF_X: nat := 1
  const PF_W: nat := 2
  const PF_R: nat := 4

  const R_X86_64_64: nat := 1
  const R_X86_64_RELATIVE: nat := 8

  const DT_NULL: nat := 0
  const DT_NEEDED: nat := 1
  const DT_HASH: nat := 4
  const DT_STRTAB: nat := 5
  const DT_SYMTAB: nat := 6
  const DT_RELA: nat := 7
  const DT_RELASZ: nat := 8
  const DT_RELAENT: nat := 9
  const DT_STRSZ: nat := 10
  const DT_SYMENT: nat := 11
  const DT_DEBUG: nat := 21
  const DT_RUNPATH: nat := 29
  const DT_FLAGS_1: nat := 0x6ffffffb

  const STB_GLOBAL_FUNC: nat := 18
  const SHN_UNDEF: nat := 0

  /** p_paddr is always p_vaddr and is not kept apart. */
  datatype Phdr = Phdr(kind: nat, flags: nat, offset: nat, vaddr: nat, filesz: nat, memsz: nat, align: nat)

  datatype Rela = Rela(offset: nat, sym: nat, kind: nat, addend: nat)

  datatype Sym = Sym(name: nat, info: nat, shndx: nat, value: nat, size: nat)

  datatype Dyn = Dyn(tag: nat, val: nat)

  datatype Shdr = Shdr(name: nat, kind: nat, flags: nat, addr: nat, offset: nat, size: nat, link: nat, info: nat,
                       align: nat, entsize: nat)

  /** The fields of the file header that vary. */
  datatype Ehdr = Ehdr(kind: nat, entry: nat, phnum: nat, shoff: nat, shnum: nat, shstrndx: nat)

  ghost predicate PhdrFits(p: Phdr) {
    p.kind < U32 && p.flags < U32 && p.offset < U64 && p.vaddr < U64 && p.filesz < U64 && p.memsz < U64 && p.align < U64
  }

  ghost predicate RelaFits(r: Rela) { r.offset < U64 && r.sym < U32 && r.kind < U32 && r.addend < U64 }

  ghost predicate SymFits(y: Sym) { y.name < U32 && y.info < 256 && y.shndx < U16 && y.value < U64 && y.size < U64 }

  ghost predicate DynFits(d: Dyn) { d.tag < U64 && d.val < U64 }

  // ------------------------------------------------------------------------
  // Writing
  // ------------------------------------------------------------------------

  function PhdrBytes(p: Phdr): (s: seq<byte>)
    ensures |s| == PHDR_SIZE
  {
    Le(4, p.kind) + Le(4, p.flags) + Le(8, p.offset) + Le(8, p.vaddr) + Le(8, p.vaddr) + Le(8, p.filesz)
    + Le(8, p.memsz) + Le(8, p.align)
  }

  /** r_info is the symbol index above the relocation type. */
  function RelaBytes(r: Rela): (s: seq<byte>)
    ensures |s| == RELA_SIZE
  {
    Le(8, r.offset) + Le(4, r.kind) + Le(4, r.sym) + Le(8, r.addend)
  }

  function SymBytes(y: Sym): (s: seq<byte>)
    ensures |s| == SYM_SIZE
  {
    Le(4, y.name) + Le(1, y.info) + Le(1, 0) + Le(2, y.shndx) + Le(8, y.value) + Le(8, y.size)
  }

  function DynBytes(d: Dyn): (s: seq<byte>)
    ensures |s| == DYN_SIZE
  {
    Le(8, d.tag) + Le(8, d.val)
  }

  function ShdrBytes(h: Shdr): (s: seq<byte>)
    ensures |s| == SHDR_SIZE
  {
    Le(4, h.name) + Le(4, h.kind) + Le(8, h.flags) + Le(8, h.addr) + Le(8, h.offset) + Le(8, h.size) + Le(4, h.link)
    + Le(4, h.info) + Le(8, h.align) + Le(8, h.entsize)
  }

  function EhdrBytes(e: Ehdr): (s: seq<byte>)
    ensures |s| == EHDR_SIZE
  {
    [0x7f, 0x45, 0x4c, 0x46, 2, 1, 1, 0, 0, 0, 0, 0, 0, 0, 0, 0]
    + Le(2, e.kind) + Le(2, EM_X86_64) + Le(4, 1) + Le(8, e.entry) + Le(8, EHDR_SIZE) + Le(8, e.shoff)
    + Le(4, 0) + Le(2, EHDR_SIZE) + Le(2, PHDR_SIZE) + Le(2, e.phnum) + Le(2, SHDR_SIZE) + Le(2, e.shnum)
    + Le(2, e.shstrndx)
  }

  function PhdrRows(ps: seq<Phdr>): (rows: seq<seq<byte>>)
    ensures |rows| == |ps| && AllWidth(rows, PHDR_SIZE) && forall i :: 0 <= i < |ps| ==> rows[i] == PhdrBytes(ps[i])
  {
    seq(|ps|, i requires 0 <= i < |ps| => PhdrBytes(ps[i]))
  }

  function RelaRows(rs: seq<Rela>): (rows: seq<seq<byte>>)
    ensures |rows| == |rs| && AllWidth(rows, RELA_SIZE) && forall i :: 0 <= i < |rs| ==> rows[i] == RelaBytes(rs[i])
  {
    seq(|rs|, i requires 0 <= i < |rs| => RelaBytes(rs[i]))
  }

  function SymRows(ys: seq<Sym>): (rows: seq<seq<byte>>)
    ensures |rows| == |ys| && AllWidth(rows, SYM_SIZE) && forall i :: 0 <= i < |ys| ==> rows[i] == SymBytes(ys[i])
  {
    seq(|ys|, i requires 0 <= i < |ys| => SymBytes(ys[i]))
  }

  function DynRows(ds: seq<Dyn>): (rows: seq<seq<byte>>)
    ensures |rows| == |ds| && AllWidth(rows, DYN_SIZE) && forall i :: 0 <= i < |ds| ==> rows[i] == DynBytes(ds[i])
  {
    seq(|ds|, i requires 0 <= i < |ds| => DynBytes(ds[i]))
  }

  function ShdrRows(hs: seq<Shdr>): (rows: seq<seq<byte>>)
    ensures |rows| == |hs| && AllWidth(rows, SHDR_SIZE) && forall i :: 0 <= i < |hs| ==> rows[i] == ShdrBytes(hs[i])
  {
    seq(|hs|, i requires 0 <= i < |hs| => ShdrBytes(hs[i]))
  }

  // ------------------------------------------------------------------------
  // Reading
  // ------------------------------------------------------------------------

  function Field(s: seq<byte>, at: nat, n: nat): nat
    requires at + n <= |s|
  {
    FromLe(s[at..at + n])
  }

  function ReadPhdr(s: seq<byte>): Phdr
    requires |s| == PHDR_SIZE
  {
    Phdr(Field(s, 0, 4), Field(s, 4, 4), Field(s, 8, 8), Field(s, 16, 8), Field(s, 32, 8), Field(s, 40, 8),
         Field(s, 48, 8))
  }

  function ReadRela(s: seq<byte>): Rela
    requires |s| == RELA_SIZE
  {
    Rela(Field(s, 0, 8), Field(s, 12, 4), Field(s, 8, 4), Field(s, 16, 8))
  }

  function ReadSymName(s: seq<byte>): nat
    requires |s| == SYM_SIZE
  {
    Field(s, 0, 4)
  }

  function ReadSym(s: seq<byte>): Sym
    requires |s| == SYM_SIZE
  {
    Sym(Field(s, 0, 4), s[4], Field(s, 6, 2), Field(s, 8, 8), Field(s, 16, 8))
  }

  function ReadDyn(s: seq<byte>): Dyn
    requires |s| == DYN_SIZE
  {
    Dyn(Field(s, 0, 8), Field(s, 8, 8))
  }

  lemma FieldOfLe(s: seq<byte>, at: nat, n: nat, v: nat)
    requires at + n <= |s| && s[at..at + n] == Le(n, v)
    requires (n == 2 && v < U16) || (n == 4 && v < U32) || (n == 8 && v < U64)
    ensures Field(s, at, n) == v
  {
    Pow256Widths();
    FromLeOfLe(n, v);
  }

  lemma PhdrRoundTrip(p: Phdr)
    requires PhdrFits(p)
    ensures ReadPhdr(PhdrBytes(p)) == p
  {
    hide Le, Field;
    var s := PhdrBytes(p);
    var a, b, c, d, e, f, g := Le(4, p.kind), Le(4, p.flags), Le(8, p.offset), Le(8, p.vaddr), Le(8, p.filesz),
        Le(8, p.memsz), Le(8, p.align);
    assert s[0..4] == a;
    assert s[4..8] == b;
    assert s[8..16] == c;
    assert s[16..24] == d;
    assert s[32..40] == e;
    assert s[40..48] == f;
    assert s[48..] == g;
    assert s[48..56] == s[48..];
    FieldOfLe(s, 0, 4, p.kind);
    FieldOfLe(s, 4, 4, p.flags);
    FieldOfLe(s, 8, 8, p.offset);
    FieldOfLe(s, 16, 8, p.vaddr);
    FieldOfLe(s, 32, 8, p.filesz);
    FieldOfLe(s, 40, 8, p.memsz);
    FieldOfLe(s, 48, 8, p.align);
  }

  lemma RelaRoundTrip(r: Rela)
    requires RelaFits(r)
    ensures ReadRela(RelaBytes(r)) == r
  {
    hide Le, Field;
    var s := RelaBytes(r);
    assert s[0..8] == Le(8, r.offset);
    assert s[8..12] == Le(4, r.kind);
    assert s[12..16] == Le(4, r.sym);
    assert s[16..] == Le(8, r.addend);
    assert s[16..24] == s[16..];
    FieldOfLe(s, 0, 8, r.offset);
    FieldOfLe(s, 8, 4, r.kind);
    FieldOfLe(s, 12, 4, r.sym);
    FieldOfLe(s, 16, 8, r.addend);
  }

  lemma SymRoundTrip(y: Sym)
    requires SymFits(y)
    ensures ReadSymName(SymBytes(y)) == y.name && ReadSym(SymBytes(y)) == y
  {
    OneByte(y.info);
    hide Le, Field;
    var s := SymBytes(y);
    assert s[0..4] == Le(4, y.name);
    assert s[4] == Le(1, y.info)[0];
    assert s[6..8] == Le(2, y.shndx);
    assert s[8..16] == Le(8, y.value);
    assert s[16..] == Le(8, y.size);
    assert s[16..24] == s[16..];
    FieldOfLe(s, 0, 4, y.name);
    FieldOfLe(s, 6, 2, y.shndx);
    FieldOfLe(s, 8, 8, y.value);
    FieldOfLe(s, 16, 8, y.size);
  }

  lemma OneByte(v: nat)
    requires v < 256
    ensures Le(1, v) == [v]
  {
    assert Le(0, v / 256) == [];
  }

  lemma DynRoundTrip(d: Dyn)
    requires DynFits(d)
    ensures ReadDyn(DynBytes(d)) == d
  {
    hide Le, Field;
    var s := DynBytes(d);
    assert s[0..8] == Le(8, d.tag);
    assert s[8..16] == Le(8, d.val);
    FieldOfLe(s, 0, 8, d.tag);
    FieldOfLe(s, 8, 8, d.val);
  }

  /** What a loader reads from the file header: the type, where the program headers are and how many. */
  lemma EhdrRead(e: Ehdr)
    requires e.kind < U16 && e.phnum < U16
    ensures var s := EhdrBytes(e);
      Field(s, 16, 2) == e.kind && Field(s, 32, 8) == EHDR_SIZE && Field(s, 56, 2) == e.phnum
  {
    hide Le, Field;
    var s := EhdrBytes(e);
    assert s[16..18] == Le(2, e.kind);
    assert s[32..40] == Le(8, EHDR_SIZE);
    assert s[56..58] == Le(2, e.phnum);
    FieldOfLe(s, 16, 2, e.kind);
    FieldOfLe(s, 32, 8, EHDR_SIZE);
    FieldOfLe(s, 56, 2, e.phnum);
  }

  /** The rest of it: what identifies the file, the machine, the entry point, the sizes and the section headers. */
  lemma EhdrRest(e: Ehdr)
    ensures var s := EhdrBytes(e);
      && s[..7] == [0x7f, 0x45, 0x4c, 0x46, 2, 1, 1] && Field(s, 18, 2) == 62 && Field(s, 20, 4) == 1
      && (e.entry < U64 ==> Field(s, 24, 8) == e.entry) && (e.shoff < U64 ==> Field(s, 40, 8) == e.shoff)
      && Field(s, 52, 2) == 64 && Field(s, 54, 2) == 56 && Field(s, 58, 2) == 64
      && (e.shnum < U16 ==> Field(s, 60, 2) == e.shnum) && (e.shstrndx < U16 ==> Field(s, 62, 2) == e.shstrndx)
  {
    hide Le, Field;
    var s := EhdrBytes(e);
    assert s[18..20] == Le(2, 62) && s[20..24] == Le(4, 1) && s[24..32] == Le(8, e.entry);
    assert s[40..48] == Le(8, e.shoff) && s[52..54] == Le(2, 64) && s[54..56] == Le(2, 56);
    assert s[58..60] == Le(2, 64) && s[60..62] == Le(2, e.shnum) && s[62..] == Le(2, e.shstrndx);
    assert s[62..64] == s[62..];
    FieldOfLe(s, 18, 2, 62);
    FieldOfLe(s, 20, 4, 1);
    FieldOfLe(s, 52, 2, 64);
    FieldOfLe(s, 54, 2, 56);
    FieldOfLe(s, 58, 2, 64);
    if e.entry < U64 { FieldOfLe(s, 24, 8, e.entry); }
    if e.shoff < U64 { FieldOfLe(s, 40, 8, e.shoff); }
    if e.shnum < U16 { FieldOfLe(s, 60, 2, e.shnum); }
    if e.shstrndx < U16 { FieldOfLe(s, 62, 2, e.shstrndx); }
  }
}
