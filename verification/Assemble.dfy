/** The output file (elf_write.hpp, Writer::write; pe2elf.cpp, Converter::convert): its pieces, their offsets, and
    that no offset is ever passed before its piece is due. */
module Assemble {
  import opened Common
  import opened Bytes
  import opened ElfFormat
  import opened PeImage
  import opened Layout
  import opened Names
  import HashTable
  import opened Output
  import opened Build

  const SHT_PROGBITS: nat := 1
  const SHT_STRTAB: nat := 3
  const SHT_RELA: nat := 4
  const SHT_HASH: nat := 5
  const SHT_DYNAMIC: nat := 6
  const SHT_NOBITS: nat := 8
  const SHT_DYNSYM: nat := 11
  const SHF_WRITE: nat := 1
  const SHF_ALLOC: nat := 2
  const SHF_EXECINSTR: nat := 4

  const RET: byte := 0xc3

  // ------------------------------------------------------------------------
  // Section headers
  // ------------------------------------------------------------------------

  /** ".dynsym", ".dynstr", ".hash", ".rela.dyn", ".dynamic", ".interp", ".shstrtab" */
  const N_DYNSYM: Name := [0x2e, 0x64, 0x79, 0x6e, 0x73, 0x79, 0x6d]
  const N_DYNSTR: Name := [0x2e, 0x64, 0x79, 0x6e, 0x73, 0x74, 0x72]
  const N_HASH: Name := [0x2e, 0x68, 0x61, 0x73, 0x68]
  const N_RELA: Name := [0x2e, 0x72, 0x65, 0x6c, 0x61, 0x2e, 0x64, 0x79, 0x6e]
  const N_DYNAMIC: Name := [0x2e, 0x64, 0x79, 0x6e, 0x61, 0x6d, 0x69, 0x63]
  const N_INTERP: Name := [0x2e, 0x69, 0x6e, 0x74, 0x65, 0x72, 0x70]
  const N_SHSTRTAB: Name := [0x2e, 0x73, 0x68, 0x73, 0x74, 0x72, 0x74, 0x61, 0x62]

  /** A section header and its name before the name has an offset. */
  datatype Named = Named(name: Name, header: Shdr)

  function SectionShdr(img: Image, p: Plan, i: nat): Named
    requires i < |img.secs| == |p.secFoffs|
  {
    var s := img.secs[i];
    var flags := SHF_ALLOC + (if HasFlag(s, SCN_WRITE) then SHF_WRITE else 0)
      + (if HasFlag(s, SCN_EXECUTE) then SHF_EXECINSTR else 0);
    Named(CStr(s.name),
          if s.rawsz == 0 then Shdr(0, SHT_NOBITS, flags, img.base + s.va, 0, s.virtsz, 0, 0, PAGE, 0)
          else Shdr(0, SHT_PROGBITS, flags, img.base + s.va, p.secFoffs[i], s.rawsz, 0, 0, PAGE, 0))
  }

  /** The headers of the tables the converter adds. */
  function TableShdrs(img: Image, opts: Options, p: Plan): seq<Named> {
    var z := SizesOf(img, opts);
    [Named(N_DYNSYM, Shdr(0, SHT_DYNSYM, SHF_ALLOC, p.dynsym.va, p.dynsym.foff, z.syms * SYM_SIZE, 2, 1, 8, SYM_SIZE)),
     Named(N_DYNSTR, Shdr(0, SHT_STRTAB, SHF_ALLOC, p.dynstr.va, p.dynstr.foff, z.dynstr, 0, 0, 1, 0))]
    + (if opts.so then [Named(N_HASH, Shdr(0, SHT_HASH, SHF_ALLOC, p.hash.va, p.hash.foff, z.hash, 1, 0, 8,
        4))] else [])
    + [Named(N_RELA, Shdr(0, SHT_RELA, SHF_ALLOC, p.rela.va, p.rela.foff, z.relas * RELA_SIZE, 1, 0, 8, RELA_SIZE)),
       Named(N_DYNAMIC, Shdr(0, SHT_DYNAMIC, SHF_ALLOC + SHF_WRITE, p.dynamic.va, p.dynamic.foff, z.dyns * DYN_SIZE, 2,
           0, 8, DYN_SIZE)),
       Named(N_INTERP, Shdr(0, SHT_PROGBITS, SHF_ALLOC, p.interp.va, p.interp.foff, z.interp, 0, 0, 1, 0))]
  }

  function SectionShdrs(img: Image, p: Plan): (hs: seq<Named>)
    requires |img.secs| == |p.secFoffs|
    ensures |hs| == |img.secs| && forall i :: 0 <= i < |hs| ==> hs[i] == SectionShdr(img, p, i)
  {
    seq(|img.secs|, i requires 0 <= i < |img.secs| => SectionShdr(img, p, i))
  }

  function StrtabShdr(p: Plan, size: nat, headers: nat): Named {
    var at := ShstrFoff(p, headers);
    Named(N_SHSTRTAB, Shdr(0, SHT_STRTAB, 0, p.synthVa + at, at, size, 0, 0, 1, 0))
  }

  function NamesOf(hs: seq<Named>): (ns: seq<Name>)
    ensures |ns| == |hs| && forall i :: 0 <= i < |hs| ==> ns[i] == hs[i].name
  {
    seq(|hs|, i requires 0 <= i < |hs| => hs[i].name)
  }

  function ShNames(img: Image, opts: Options, p: Plan): seq<Name>
    requires |img.secs| == |p.secFoffs|
  {
    NamesOf(TableShdrs(img, opts, p) + SectionShdrs(img, p)) + [N_SHSTRTAB]
  }

  function Shstrtab(img: Image, opts: Options, p: Plan): seq<byte>
    requires |img.secs| == |p.secFoffs|
  {
    [0] + Strings(ShNames(img, opts, p))
  }

  /** Each header with the string offset of its name. */
  function Placing(hs: seq<Named>): (rs: seq<Shdr>)
    ensures |rs| == |hs|
    ensures forall i :: 0 <= i < |hs| ==> rs[i] == hs[i].header.(name := StrOff(1, NamesOf(hs), i))
  {
    seq(|hs|, i requires 0 <= i < |hs| => hs[i].header.(name := StrOff(1, NamesOf(hs), i)))
  }

  function Shdrs(img: Image, opts: Options, p: Plan): seq<Shdr>
    requires |img.secs| == |p.secFoffs|
  {
    [Shdr(0, 0, 0, 0, 0, 0, 0, 0, 0, 0)]
    + Placing(TableShdrs(img, opts, p) + SectionShdrs(img, p) + [StrtabShdr(p, |Shstrtab(img, opts, p)|, img.headers)])
  }

  /** The section header string table starts past everything else in the file. */
  function ShstrFoff(p: Plan, headers: nat): nat { AlignUp(p.hdrFoff + headers, 8) }

  function ShFoff(img: Image, opts: Options, p: Plan): nat
    requires |img.secs| == |p.secFoffs|
  {
    AlignUp(ShstrFoff(p, img.headers) + |Shstrtab(img, opts, p)|, 8)
  }

  // ------------------------------------------------------------------------
  // The file header
  // ------------------------------------------------------------------------

  function FirstRet(s: seq<byte>): (r: Option<nat>)
    ensures r.Some? ==> r.value < |s| && s[r.value] == RET && RET !in s[..r.value]
    ensures r.None? ==> RET !in s
  {
    if s == [] then None
    else if s[0] == RET then Some(0)
    else match FirstRet(s[1..]) case None => None case Some(k) => assert s[..k + 1] == [s[0]] + s[1..][..k]; Some(k + 1)
  }

  /** A section's bytes that are in the file. */
  function InFile(img: Image, s: Section): (r: seq<byte>)
    ensures |r| <= s.rawsz
  {
    if s.raw >= |img.buf| then []
    else if s.raw + s.rawsz <= |img.buf| then img.buf[s.raw..s.raw + s.rawsz]
    else img.buf[s.raw..]
  }

  /** The address of the first RET byte of an executable section, from section i on; 0 if there is none. */
  function SafeEntry(img: Image, i: nat): nat
    requires i <= |img.secs|
    decreases |img.secs| - i
  {
    if i == |img.secs| then 0
    else
      var s := img.secs[i];
      var k := FirstRet(InFile(img, s));
      if HasFlag(s, SCN_EXECUTE) && k.Some? then img.base + s.va + k.value else SafeEntry(img, i + 1)
  }

  function FileHeader(img: Image, opts: Options, p: Plan): Ehdr
    requires |img.secs| == |p.secFoffs|
  {
    var n := |Shdrs(img, opts, p)|;
    Ehdr(if opts.pie || opts.so then ET_DYN else ET_EXEC, if opts.so then SafeEntry(img, 0) else p.tramp.va,
         PhdrCount(img, opts, p), if opts.keepShdr then ShFoff(img, opts, p) else 0, if opts.keepShdr then n else 0,
         if opts.keepShdr then n - 1 else 0)
  }

  // ------------------------------------------------------------------------
  // The pieces
  // ------------------------------------------------------------------------

  function Front(img: Image, opts: Options, p: Plan): seq<byte>
    requires |img.secs| == |p.secFoffs|
  {
    EhdrBytes(FileHeader(img, opts, p)) + Flatten(PhdrRows(Phdrs(img, opts, p)))
  }

  function FrontPiece(img: Image, opts: Options, p: Plan): Piece
    requires |img.secs| == |p.secFoffs|
  {
    Piece(0, Front(img, opts, p))
  }

  function InterpPiece(opts: Options, p: Plan): Piece { Piece(p.interp.foff, opts.interp + [0]) }

  function DynsymPiece(img: Image, opts: Options, p: Plan): Piece {
    Piece(p.dynsym.foff, Flatten(SymRows(Dynsym(img, opts, p.tramp.va))))
  }

  function DynstrPiece(img: Image, opts: Options, p: Plan): Piece { Piece(p.dynstr.foff, Dynstr(img, opts)) }

  function HashPiece(img: Image, opts: Options, p: Plan): Piece { Piece(p.hash.foff, HashData(img, opts)) }

  function RelaPiece(img: Image, opts: Options, p: Plan): Piece {
    Piece(p.rela.foff, Flatten(RelaRows(Relas(img, opts, p.tramp.va))))
  }

  function DynamicPiece(img: Image, opts: Options, p: Plan): Piece {
    Piece(p.dynamic.foff, Flatten(DynRows(Dynamic(img, opts, p))))
  }

  function TrampolinePiece(img: Image, p: Plan): Piece { Piece(p.tramp.foff, Trampoline(img, p.tramp.va)) }

  function TablePieces(img: Image, opts: Options, p: Plan): seq<Piece>
    requires |img.secs| == |p.secFoffs|
  {
    [FrontPiece(img, opts, p), InterpPiece(opts, p), DynsymPiece(img, opts, p), DynstrPiece(img, opts, p)]
    + (if HashData(img, opts) == [] then [] else [HashPiece(img, opts, p)])
    + [RelaPiece(img, opts, p), DynamicPiece(img, opts, p), TrampolinePiece(img, p)]
  }

  function SectionPieces(img: Image, p: Plan, n: nat): (ps: seq<Piece>)
    requires n <= |img.secs| == |p.secFoffs|
    ensures |ps| == n && forall i :: 0 <= i < n ==> ps[i] == Piece(p.secFoffs[i], Chunk(img, i))
  {
    seq(n, i requires 0 <= i < n => Piece(p.secFoffs[i], Chunk(img, i)))
  }

  function HeaderPiece(img: Image, p: Plan): Piece { Piece(p.hdrFoff, HeaderBytes(img)) }

  function TailPieces(img: Image, opts: Options, p: Plan): seq<Piece>
    requires |img.secs| == |p.secFoffs|
  {
    if opts.keepShdr then
      [Piece(ShstrFoff(p, img.headers), Shstrtab(img, opts, p)),
       Piece(ShFoff(img, opts, p), Flatten(ShdrRows(Shdrs(img, opts, p))))]
    else []
  }

  function Pieces(img: Image, opts: Options, p: Plan): seq<Piece>
    requires |img.secs| == |p.secFoffs|
  {
    TablePieces(img, opts, p) + SectionPieces(img, p, |img.secs|) + [HeaderPiece(img, p)] + TailPieces(img, opts, p)
  }

  /** The file that convert writes, when it writes one. */
  function OutputFile(img: Image, opts: Options, p: Plan): seq<byte>
    requires |img.secs| == |p.secFoffs|
  {
    Emit([], Pieces(img, opts, p))
  }

  predicate Converts(img: Image, opts: Options, p: Plan) {
    JumpFits(img, p.tramp.va) && (opts.so ==> SafeEntry(img, 0) != 0)
  }

  // ------------------------------------------------------------------------
  // In order
  // ------------------------------------------------------------------------

  lemma PieceSizes(img: Image, opts: Options, p: Plan)
    requires |img.secs| == |p.secFoffs|
    ensures var z := SizesOf(img, opts);
      && |FrontPiece(img, opts, p).bytes| == EHDR_SIZE + PhdrCount(img, opts, p) * PHDR_SIZE
      && |InterpPiece(opts, p).bytes| == z.interp && |DynsymPiece(img, opts, p).bytes| == z.syms * SYM_SIZE
      && |DynstrPiece(img, opts, p).bytes| == z.dynstr && |HashPiece(img, opts, p).bytes| == z.hash
      && |RelaPiece(img, opts, p).bytes| == z.relas * RELA_SIZE
      && |DynamicPiece(img, opts, p).bytes| == z.dyns * DYN_SIZE
  {
    hide Flatten, Dynstr, HashData, Trampoline, Phdrs, Dynsym, Relas, Dynamic, FileHeader, PhdrCount, RelaCount,
         SymbolNames;
    FlattenLength(PhdrRows(Phdrs(img, opts, p)), PHDR_SIZE);
    FlattenLength(SymRows(Dynsym(img, opts, p.tramp.va)), SYM_SIZE);
    FlattenLength(RelaRows(Relas(img, opts, p.tramp.va)), RELA_SIZE);
    FlattenLength(DynRows(Dynamic(img, opts, p)), DYN_SIZE);
  }

  lemma TablesChained(img: Image, opts: Options, p: Plan)
    requires PlanFor(img, opts, p)
    ensures |img.secs| == |p.secFoffs|
    ensures Before(FrontPiece(img, opts, p), InterpPiece(opts, p))
    ensures Before(InterpPiece(opts, p), DynsymPiece(img, opts, p))
    ensures Before(DynsymPiece(img, opts, p), DynstrPiece(img, opts, p))
    ensures Before(DynstrPiece(img, opts, p), HashPiece(img, opts, p))
    ensures Before(HashPiece(img, opts, p), RelaPiece(img, opts, p))
    ensures Before(DynstrPiece(img, opts, p), RelaPiece(img, opts, p))
    ensures Before(RelaPiece(img, opts, p), DynamicPiece(img, opts, p))
    ensures Before(DynamicPiece(img, opts, p), TrampolinePiece(img, p))
    ensures FrontPiece(img, opts, p).at == 0 && p.tramp.foff + TRAMPOLINE_SIZE <= p.dataFoff
  {
    hide IsPlan, SizesOf, Front, Phdrs, Dynsym, Relas, Dynamic, Flatten, PhdrCount, Trampoline, HashData, Dynstr;
    PartsInOrder(img.base, img.secs, SizesOf(img, opts), p);
    PlanSections(img, opts, p);
    PieceSizes(img, opts, p);
  }

  lemma PlanSections(img: Image, opts: Options, p: Plan)
    requires PlanFor(img, opts, p)
    ensures |img.secs| == |p.secFoffs|
  {
    hide SizesOf, Follows, NextFoff;
  }

  lemma TablesOrdered(img: Image, opts: Options, p: Plan)
    requires PlanFor(img, opts, p)
    ensures |img.secs| == |p.secFoffs| && Ordered(0, TablePieces(img, opts, p))
    ensures EndOf(0, TablePieces(img, opts, p)) == p.tramp.foff + TRAMPOLINE_SIZE <= p.dataFoff
  {
    hide PlanFor, FrontPiece, InterpPiece, DynsymPiece, DynstrPiece, HashPiece, RelaPiece, DynamicPiece, Trampoline,
         HashData, Ordered, EndOf, Before;
    TablesChained(img, opts, p);
    var ps := TablePieces(img, opts, p);
    assert Chained(ps);
    assert ps[|ps| - 1] == TrampolinePiece(img, p);
    ChainedOrdered(0, ps);
  }

  lemma SectionsChained(img: Image, opts: Options, p: Plan)
    requires PlanFor(img, opts, p)
    ensures |img.secs| == |p.secFoffs|
    ensures Chained(SectionPieces(img, p, |img.secs|)) && p.dataFoff <= p.hdrFoff
    ensures forall i :: 0 <= i < |img.secs| ==>
      p.dataFoff <= p.secFoffs[i] && p.secFoffs[i] + img.secs[i].rawsz <= p.hdrFoff
  {
    hide IsPlan, SizesOf, Chunk;
    PlanSections(img, opts, p);
    PartsInOrder(img.base, img.secs, SizesOf(img, opts), p);
    forall i | 0 <= i < |img.secs|
      ensures p.dataFoff <= p.secFoffs[i] && p.secFoffs[i] + img.secs[i].rawsz <= p.hdrFoff
      ensures forall j :: i < j < |img.secs| ==> p.secFoffs[i] + img.secs[i].rawsz <= p.secFoffs[j]
    {
      SectionsInOrder(img.base, img.secs, SizesOf(img, opts), p, i);
    }
  }

  lemma TailChained(img: Image, opts: Options, p: Plan)
    requires |img.secs| == |p.secFoffs|
    ensures Chained([HeaderPiece(img, p)] + TailPieces(img, opts, p))
  {
    hide AlignUp, Shdrs, Shstrtab, Flatten;
  }

  /** For every image and every plan made for it, the writer is never past an offset when it pads to it. */
  lemma PiecesOrdered(img: Image, opts: Options, p: Plan)
    requires PlanFor(img, opts, p)
    ensures |img.secs| == |p.secFoffs| && Ordered(0, Pieces(img, opts, p))
  {
    hide PlanFor, TablePieces, Ordered, EndOf, HeaderBytes, TailPieces, Chunk, Chained;
    TablesOrdered(img, opts, p);
    SectionsChained(img, opts, p);
    TailChained(img, opts, p);
    var a, b, c := TablePieces(img, opts, p), SectionPieces(img, p, |img.secs|),
        [HeaderPiece(img, p)] + TailPieces(img, opts, p);
    JoinOrdered(a, b, p.dataFoff);
    JoinOrdered(a + b, c, p.hdrFoff);
    assert a + b + c == Pieces(img, opts, p);
  }

  /** So every piece is in the file at its planned offset. */
  lemma PiecePlaced(img: Image, opts: Options, p: Plan, q: Piece)
    requires PlanFor(img, opts, p) && |img.secs| == |p.secFoffs| && q in Pieces(img, opts, p)
    ensures Placed(OutputFile(img, opts, p), q)
  {
    hide PlanFor, Emit, Ordered, Placed, TablePieces, SectionPieces, HeaderPiece, TailPieces;
    PiecesOrdered(img, opts, p);
    Located(Pieces(img, opts, p), q);
  }

  lemma Located(ps: seq<Piece>, q: Piece)
    requires Ordered(0, ps) && q in ps
    ensures Placed(Emit([], ps), q)
  {
    hide Emit, Ordered, Placed;
    var i: nat :| i < |ps| && ps[i] == q;
    EmitPlaces([], ps, i);
  }
}
