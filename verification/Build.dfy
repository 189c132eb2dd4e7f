/** What the converter builds (elf_build.hpp, Builder) and where the writer puts it (elf_write.hpp, pe2elf.cpp):
    every table as a function of the image, the options and the plan. */
module Build {
  import opened Common
  import opened Bytes
  import opened ElfFormat
  import opened PeImage
  import PeLoader
  import opened Layout
  import opened Names
  import opened HashTable
  import opened Output

  datatype Options = Options(interp: Name, shim: Name, inject: Name, keepShdr: bool, stripPdata: bool, pie: bool,
      so: bool)

  /** "$ORIGIN", "shim_register_tls", "_entrypoint", ".pdata" */
  const ORIGIN: Name := [0x24, 0x4f, 0x52, 0x49, 0x47, 0x49, 0x4e]
  const REGISTER_TLS: Name :=
    [0x73, 0x68, 0x69, 0x6d, 0x5f, 0x72, 0x65, 0x67, 0x69, 0x73, 0x74, 0x65, 0x72, 0x5f, 0x74, 0x6c, 0x73]
  const ENTRYPOINT: Name := [0x5f, 0x65, 0x6e, 0x74, 0x72, 0x79, 0x70, 0x6f, 0x69, 0x6e, 0x74]
  const PDATA: Name := [0x2e, 0x70, 0x64, 0x61, 0x74, 0x61]

  const TRAMP_SLOT: nat := 24
  const TRAMP_TLS: nat := 32

  // ------------------------------------------------------------------------
  // Strings and symbols
  // ------------------------------------------------------------------------

  function DynstrHead(opts: Options): seq<byte> {
    [0] + opts.shim + [0] + ORIGIN + [0] + (if opts.inject == [] then [] else opts.inject + [0])
  }

  function InjectOff(opts: Options): nat { 1 + |opts.shim| + 1 + |ORIGIN| + 1 }

  function SymbolNames(img: Image, opts: Options): seq<Name> {
    UniqueNames(img.imports) + [REGISTER_TLS] + (if opts.so then [ENTRYPOINT] else [])
  }

  function Dynstr(img: Image, opts: Options): seq<byte> { DynstrHead(opts) + Strings(SymbolNames(img, opts)) }

  function StrOff(head: nat, names: seq<Name>, i: nat): nat
    requires i <= |names|
  {
    head + |Strings(names[..i])|
  }

  function Undefined(at: nat): Sym { Sym(at, STB_GLOBAL_FUNC, SHN_UNDEF, 0, 0) }

  /** An undefined function symbol for each name, starting with the string offsets given. */
  function UndefinedSyms(head: nat, names: seq<Name>): (ys: seq<Sym>)
    ensures |ys| == |names| && forall i :: 0 <= i < |names| ==> ys[i] == Undefined(StrOff(head, names, i))
  {
    seq(|names|, i requires 0 <= i < |names| => Undefined(StrOff(head, names, i)))
  }

  /** The null symbol, the imports and shim_register_tls; in --so mode the trampoline is exported last. */
  function Dynsym(img: Image, opts: Options, tramp: nat): (ys: seq<Sym>)
    ensures |ys| == 1 + |SymbolNames(img, opts)|
  {
    var head, names := |DynstrHead(opts)|, SymbolNames(img, opts);
    var n := |UniqueNames(img.imports)| + 1;
    [Sym(0, 0, 0, 0, 0)] + UndefinedSyms(head, names[..n])
    + (if opts.so then [Sym(StrOff(head, names, n), STB_GLOBAL_FUNC, 1, tramp, TRAMPOLINE_SIZE)] else [])
  }

  function HashData(img: Image, opts: Options): seq<byte> {
    if opts.so then HashBytes(Dynsym(img, opts, 0), Dynstr(img, opts)) else []
  }

  // ------------------------------------------------------------------------
  // Relocations
  // ------------------------------------------------------------------------

  function ImportRelas(img: Image): (rs: seq<Rela>)
    ensures |rs| == |img.imports|
    ensures forall i :: 0 <= i < |rs| ==>
      rs[i] == Rela(img.base + img.imports[i].iatRva, SymIndex(img.imports, i), R_X86_64_64, 0)
  {
    seq(|img.imports|, i requires 0 <= i < |img.imports| =>
      Rela(img.base + img.imports[i].iatRva, SymIndex(img.imports, i), R_X86_64_64, 0))
  }

  function RelocRelas(relocs: seq<Reloc>): (rs: seq<Rela>)
    ensures |rs| == |relocs|
    ensures forall i :: 0 <= i < |rs| ==> rs[i] == Rela(relocs[i].va, 0, R_X86_64_RELATIVE, relocs[i].addend)
  {
    seq(|relocs|, i requires 0 <= i < |relocs| => Rela(relocs[i].va, 0, R_X86_64_RELATIVE, relocs[i].addend))
  }

  function TlsRela(value: nat, at: nat): (rs: seq<Rela>)
    ensures |rs| == if value == 0 then 0 else 1
  {
    if value == 0 then [] else [Rela(at, 0, R_X86_64_RELATIVE, value)]
  }

  function TlsRelas(tls: Tls, tramp: nat): seq<Rela> {
    TlsRela(tls.template, tramp + TRAMP_TLS) + TlsRela(tls.index, tramp + TRAMP_TLS + 32)
    + TlsRela(tls.callbacks, tramp + TRAMP_TLS + 40)
  }

  function SlotRela(img: Image, tramp: nat): Rela {
    Rela(tramp + TRAMP_SLOT, |UniqueNames(img.imports)| + 1, R_X86_64_64, 0)
  }

  function Relas(img: Image, opts: Options, tramp: nat): (rs: seq<Rela>)
    ensures |rs| == RelaCount(img, opts)
  {
    ImportRelas(img) + RelocRelas(img.relocs) + [SlotRela(img, tramp)]
      + (if opts.so then TlsRelas(img.tls, tramp) else [])
  }

  function RelaCount(img: Image, opts: Options): nat {
    |img.imports| + |img.relocs| + 1 + (if opts.so then |TlsRelas(img.tls, 0)| else 0)
  }

  // ------------------------------------------------------------------------
  // The plan and the dynamic section
  // ------------------------------------------------------------------------

  function DynCount(opts: Options): nat { 12 + (if opts.inject == [] then 0 else 1) + (if opts.so then 1 else 0) }

  function SizesOf(img: Image, opts: Options): Sizes {
    Sizes(|opts.interp| + 1, 1 + |SymbolNames(img, opts)|, |Dynstr(img, opts)|, |HashData(img, opts)|, RelaCount(img,
        opts),
          DynCount(opts))
  }

  ghost predicate PlanFor(img: Image, opts: Options, p: Plan) {
    IsPlan(img.base, img.secs, SizesOf(img, opts), p)
  }

  function Dynamic(img: Image, opts: Options, p: Plan): (ds: seq<Dyn>)
    ensures |ds| == DynCount(opts)
  {
    [Dyn(DT_NEEDED, 1)] + (if opts.inject == [] then [] else [Dyn(DT_NEEDED, InjectOff(opts))])
    + [Dyn(DT_RUNPATH, 1 + |opts.shim| + 1), Dyn(DT_STRTAB, p.dynstr.va), Dyn(DT_STRSZ, |Dynstr(img, opts)|),
       Dyn(DT_SYMTAB, p.dynsym.va), Dyn(DT_SYMENT, SYM_SIZE)]
    + (if opts.so then [Dyn(DT_HASH, p.hash.va)] else [])
    + [Dyn(DT_RELA, p.rela.va), Dyn(DT_RELASZ, RelaCount(img, opts) * RELA_SIZE), Dyn(DT_RELAENT, RELA_SIZE),
       Dyn(DT_DEBUG, 0), Dyn(DT_FLAGS_1, 1), Dyn(DT_NULL, 0)]
  }

  // ------------------------------------------------------------------------
  // The startup trampoline
  // ------------------------------------------------------------------------

  /** The jump distance as a signed 64-bit number. */
  function JumpDistance(img: Image, tramp: nat): int {
    var d := (img.base + img.epRva - (tramp + 23)) % U64;
    if d < 0x8000_0000_0000_0000 then d else d - U64
  }

  predicate JumpFits(img: Image, tramp: nat) { -0x8000_0000 <= JumpDistance(img, tramp) < 0x8000_0000 }

  function TlsInfo(tls: Tls): (s: seq<byte>)
    ensures |s| == 48
  {
    Le(8, tls.template) + Le(8, tls.templateSize) + Le(8, tls.zeroFill) + Le(8, tls.alignment) + Le(8, tls.index)
    + Le(8, tls.callbacks)
  }

  function Trampoline(img: Image, tramp: nat): (s: seq<byte>)
    ensures |s| == TRAMPOLINE_SIZE
  {
    [0x48, 0x83, 0xe4, 0xf0, 0x48, 0x8d, 0x3d, 0x15, 0, 0, 0, 0xff, 0x15, 0x07, 0, 0, 0, 0x50, 0xe9]
    + Le(4, JumpDistance(img, tramp) % U32) + [0x90, 0, 0, 0, 0, 0, 0, 0, 0] + TlsInfo(img.tls)
  }

  // ------------------------------------------------------------------------
  // Section data
  // ------------------------------------------------------------------------

  /** The section indexes that hold import slots, in order of first use. */
  function IatSections(secs: seq<Section>, imports: seq<Import>): seq<int> {
    if imports == [] then []
    else
      var held, i := IatSections(secs, imports[..|imports| - 1]), SectionOf(secs, imports[|imports| - 1].iatRva);
      if i in held then held else held + [i]
  }

  /** Import j's slot is whole in the data of section i and has byte k of it. */
  predicate SlotByte(img: Image, imp: Import, i: nat, k: nat)
    requires i < |img.secs|
  {
    && SectionOf(img.secs, imp.iatRva) == i
    && imp.iatRva - img.secs[i].va + 8 <= img.secs[i].rawsz
    && imp.iatRva - img.secs[i].va <= k < imp.iatRva - img.secs[i].va + 8
  }

  predicate Slotted(img: Image, n: nat, i: nat, k: nat)
    requires i < |img.secs| && n <= |img.imports|
  {
    exists j :: 0 <= j < n && SlotByte(img, img.imports[j], i, k)
  }

  /** A section's file data with its import slots zeroed. */
  function Chunk(img: Image, i: nat): (s: seq<byte>)
    requires i < |img.secs|
    ensures |s| == img.secs[i].rawsz
    ensures forall k :: 0 <= k < |s| ==>
      s[k] == if Slotted(img, |img.imports|, i, k) then 0 else PeLoader.RawByte(img, i, k)
  {
    seq(img.secs[i].rawsz, k requires 0 <= k => if Slotted(img, |img.imports|, i, k) then 0 else PeLoader.RawByte(img,
        i, k))
  }

  function HeaderBytes(img: Image): (s: seq<byte>)
    ensures |s| <= img.headers
  {
    img.buf[..if img.headers > |img.buf| then |img.buf| else img.headers]
  }

  // ------------------------------------------------------------------------
  // Program headers
  // ------------------------------------------------------------------------

  predicate Stripped(opts: Options, s: Section) { opts.stripPdata && PDATA <= s.name }

  /** Some relocation is in the section. */
  predicate HoldsReloc(img: Image, s: Section) {
    exists j :: 0 <= j < |img.relocs| && img.base + s.va <= img.relocs[j].va < img.base + s.va + Extent(s)
  }

  predicate Writable(img: Image, i: nat)
    requires i < |img.secs|
  {
    HasFlag(img.secs[i], SCN_WRITE) || i in IatSections(img.secs, img.imports) || HoldsReloc(img, img.secs[i])
  }

  function SectionPhdr(img: Image, p: Plan, i: nat): Phdr
    requires i < |img.secs| && |p.secFoffs| == |img.secs|
  {
    var s := img.secs[i];
    Phdr(PT_LOAD,
         (if HasFlag(s, SCN_READ) then PF_R else 0) + (if Writable(img, i) then PF_W else 0)
           + (if HasFlag(s, SCN_EXECUTE) then PF_X else 0),
         p.secFoffs[i], img.base + s.va, s.rawsz, Extent(s), PAGE)
  }

  function SectionPhdrs(img: Image, opts: Options, p: Plan, n: nat): (ps: seq<Phdr>)
    requires n <= |img.secs| == |p.secFoffs|
    ensures |ps| <= n
  {
    if n == 0 then []
    else
      var here := if Stripped(opts, img.secs[n - 1]) then [] else [SectionPhdr(img, p, n - 1)];
      SectionPhdrs(img, opts, p, n - 1) + here
  }

  /** The one section with import slots, if there is only one and it is kept. */
  function RelroSection(img: Image, opts: Options): Option<nat> {
    var held := IatSections(img.secs, img.imports);
    if |held| == 1 && 0 <= held[0] < |img.secs| && !Stripped(opts, img.secs[held[0]]) then Some(held[0]) else None
  }

  function RelroPhdrs(img: Image, opts: Options, p: Plan): (ps: seq<Phdr>)
    requires |img.secs| == |p.secFoffs|
    ensures |ps| <= 1
    ensures forall q :: q in ps ==> q.kind == PT_GNU_RELRO
  {
    match RelroSection(img, opts)
    case None => []
    case Some(i) =>
      assert i < |img.secs|;
      var s := img.secs[i];
      [Phdr(PT_GNU_RELRO, PF_R, p.secFoffs[i], img.base + s.va, s.rawsz, s.rawsz, 1)]
  }

  function SynthPhdr(p: Plan): Phdr {
    var size := p.tramp.foff + TRAMPOLINE_SIZE;
    Phdr(PT_LOAD, PF_R + PF_W + PF_X, 0, p.synthVa, size, size, PAGE)
  }

  function DynamicPhdr(opts: Options, p: Plan): Phdr {
    Phdr(PT_DYNAMIC, PF_R + PF_W, p.dynamic.foff, p.dynamic.va, DynCount(opts) * DYN_SIZE, DynCount(opts) * DYN_SIZE, 8)
  }

  function HeaderPhdr(img: Image, p: Plan): Phdr {
    Phdr(PT_LOAD, PF_R, p.hdrFoff, img.base, img.headers, AlignUp(img.headers, PAGE), PAGE)
  }

  function StackPhdr(): Phdr { Phdr(PT_GNU_STACK, PF_R + PF_W, 0, 0, 0, 0, 0x10) }

  function SelfPhdr(p: Plan, n: nat): Phdr {
    Phdr(PT_PHDR, PF_R, EHDR_SIZE, p.synthVa + EHDR_SIZE, n * PHDR_SIZE, n * PHDR_SIZE, 8)
  }

  function InterpPhdr(opts: Options, p: Plan): Phdr {
    Phdr(PT_INTERP, PF_R, p.interp.foff, p.interp.va, |opts.interp| + 1, |opts.interp| + 1, 1)
  }

  function PhdrCount(img: Image, opts: Options, p: Plan): (n: nat)
    requires |img.secs| == |p.secFoffs|
    ensures n <= PhdrsMax(|img.secs|)
  {
    4 + |SectionPhdrs(img, opts, p, |img.secs|)| + |RelroPhdrs(img, opts, p)| + 2
  }

  function Phdrs(img: Image, opts: Options, p: Plan): (ps: seq<Phdr>)
    requires |img.secs| == |p.secFoffs|
    ensures |ps| == PhdrCount(img, opts, p)
  {
    [SelfPhdr(p, PhdrCount(img, opts, p)), InterpPhdr(opts, p), SynthPhdr(p), DynamicPhdr(opts, p)]
    + SectionPhdrs(img, opts, p, |img.secs|) + RelroPhdrs(img, opts, p) + [StackPhdr(), HeaderPhdr(img, p)]
  }
}
