/** The writer and the stages of a conversion (elf_write.hpp, Writer::write; pe2elf.cpp, Converter::convert). */
module Converter {
  import opened Common
  import opened Bytes
  import opened ElfFormat
  import opened PeImage
  import PeLoader
  import opened Layout
  import opened Names
  import HashTable
  import opened Output
  import opened Build
  import opened Assemble
  import opened Builder
  import Segments
  import ElfLoader
  import FileReads

  /** Everything that the writer takes from the builder is as it should be. */
  ghost predicate Complete(t: Tables, p: Plan)
    reads t
  {
    && |t.img.secs| == |p.secFoffs|
    && t.interp == t.opts.interp + [0] && t.dynstr == Dynstr(t.img, t.opts)
    && t.dynsym == Dynsym(t.img, t.opts, p.tramp.va)
    && t.hash == HashData(t.img, t.opts) && t.rela == Relas(t.img, t.opts, p.tramp.va)
    && t.dynamic == Dynamic(t.img, t.opts, p)
    && t.tramp == Trampoline(t.img, p.tramp.va) && t.phdrs == Phdrs(t.img, t.opts, p) && Copied(t)
    && (t.opts.keepShdr ==> t.shdrs == Shdrs(t.img, t.opts, p) && t.shstrtab == Shstrtab(t.img, t.opts, p))
    && (t.opts.so ==> t.safeEntry == SafeEntry(t.img, 0))
  }

  /** Exactly the sections with import slots have a patched copy, and it is right. */
  ghost predicate Copied(t: Tables)
    reads t
  {
    && (forall i :: i in t.patched <==> i in IatSections(t.img.secs, t.img.imports))
    && (forall i :: i in t.patched ==> 0 <= i < |t.img.secs| && t.patched[i] == Chunk(t.img, i))
  }

  // ------------------------------------------------------------------------
  // The writer
  // ------------------------------------------------------------------------

  function HeaderOf(t: Tables, p: Plan, shoff: nat): Ehdr
    reads t
  {
    Ehdr(if t.opts.pie || t.opts.so then ET_DYN else ET_EXEC, if t.opts.so then t.safeEntry else p.tramp.va, |t.phdrs|,
         if t.opts.keepShdr then shoff else 0, if t.opts.keepShdr then |t.shdrs| else 0,
         if t.opts.keepShdr && |t.shdrs| > 0 then |t.shdrs| - 1 else 0)
  }

  lemma {:induction false} RowsSnoc(ps: seq<Phdr>, q: Phdr)
    ensures Flatten(PhdrRows(ps + [q])) == Flatten(PhdrRows(ps)) + PhdrBytes(q)
  {
    hide PhdrBytes;
    if ps == [] {
      assert PhdrRows([] + [q]) == [PhdrBytes(q)];
      assert Flatten([PhdrBytes(q)]) == PhdrBytes(q) + Flatten([PhdrBytes(q)][1..]);
    } else {
      RowsSnoc(ps[1..], q);
      assert (ps + [q])[1..] == ps[1..] + [q];
      assert PhdrRows(ps + [q])[1..] == PhdrRows((ps + [q])[1..]);
      assert PhdrRows(ps)[1..] == PhdrRows(ps[1..]);
      assert PhdrRows(ps + [q])[0] == PhdrRows(ps)[0] == PhdrBytes(ps[0]);
      Assoc(PhdrBytes(ps[0]), Flatten(PhdrRows(ps[1..])), PhdrBytes(q));
    }
  }

  method WriteRows(out: OutBuf, ps: seq<Phdr>)
    modifies out
    ensures out.data == old(out.data) + Flatten(PhdrRows(ps))
  {
    hide PhdrBytes, Flatten, PhdrRows;
    ghost var head := out.data;
    var i := 0;
    NoRows();
    assert ps[..0] == [] && head + [] == head;
    while i < |ps|
      invariant 0 <= i <= |ps| && out.data == head + Flatten(PhdrRows(ps[..i]))
    {
      assert ps[..i + 1] == ps[..i] + [ps[i]];
      RowsSnoc(ps[..i], ps[i]);
      Assoc(head, Flatten(PhdrRows(ps[..i])), PhdrBytes(ps[i]));
      out.Append(PhdrBytes(ps[i]));
      i := i + 1;
    }
    assert ps[..i] == ps;
  }

  /** The file header and the program headers, one after the other. */
  method WriteFront(out: OutBuf, t: Tables, p: Plan, shoff: nat)
    requires out.data == [] && out as object != t as object && Complete(t, p)
    requires t.opts.keepShdr ==> shoff == ShFoff(t.img, t.opts, p)
    modifies out
    ensures |t.img.secs| == |p.secFoffs| && out.data == Emit([], [FrontPiece(t.img, t.opts, p)])
  {
    hide EhdrBytes, FileHeader, Flatten, Phdrs, Complete, HeaderOf, PhdrRows, Emit, ShFoff;
    HeaderIs(t, p, shoff);
    out.Append(EhdrBytes(HeaderOf(t, p, shoff)));
    assert out.data == EhdrBytes(HeaderOf(t, p, shoff));
    WriteRows(out, t.phdrs);
    EmitOne([], FrontPiece(t.img, t.opts, p));
  }

  lemma HeaderIs(t: Tables, p: Plan, shoff: nat)
    requires Complete(t, p) && (t.opts.keepShdr ==> shoff == ShFoff(t.img, t.opts, p))
    ensures |t.img.secs| == |p.secFoffs| && HeaderOf(t, p, shoff) == FileHeader(t.img, t.opts, p)
    ensures t.phdrs == Phdrs(t.img, t.opts, p)
  {
    hide ShFoff, Shstrtab, Placing, TableShdrs, SafeEntry, SectionPhdrs, RelroPhdrs, Dynstr, Dynsym, HashData, Relas,
         Dynamic, Trampoline, Copied;
  }

  lemma NoRows()
    ensures Flatten(PhdrRows([])) == []
  {
  }

  lemma TablesComplete(t: Tables, p: Plan)
    requires Complete(t, p)
    ensures t.interp == InterpPiece(t.opts, p).bytes && t.dynstr == DynstrPiece(t.img, t.opts, p).bytes
    ensures t.hash == HashData(t.img, t.opts)
    ensures Flatten(SymRows(t.dynsym)) == DynsymPiece(t.img, t.opts, p).bytes
    ensures Flatten(RelaRows(t.rela)) == RelaPiece(t.img, t.opts, p).bytes
    ensures Flatten(DynRows(t.dynamic)) == DynamicPiece(t.img, t.opts, p).bytes
    ensures t.tramp == TrampolinePiece(t.img, p).bytes
  {
    hide Shdrs, Shstrtab, Phdrs, SafeEntry, Dynstr, Dynsym, HashData, Relas, Dynamic, Trampoline, Copied, Flatten,
         SymRows, RelaRows, DynRows;
  }

  lemma TailComplete(t: Tables, p: Plan)
    requires Complete(t, p)
    ensures |t.img.secs| == |p.secFoffs| && Copied(t)
    ensures t.opts.keepShdr ==> t.shdrs == Shdrs(t.img, t.opts, p) && t.shstrtab == Shstrtab(t.img, t.opts, p)
  {
    hide Shdrs, Shstrtab, Phdrs, SafeEntry, Dynstr, Dynsym, HashData, Relas, Dynamic, Trampoline, Copied;
  }

  method WriteTables(out: OutBuf, t: Tables, p: Plan, shoff: nat)
    requires out.data == [] && out as object != t as object && Complete(t, p)
    requires t.opts.keepShdr ==> shoff == ShFoff(t.img, t.opts, p)
    modifies out
    ensures out.data == Emit([], TablePieces(t.img, t.opts, p))
  {
    hide Complete, Emit, FrontPiece, DynsymPiece, DynstrPiece, RelaPiece, DynamicPiece, TrampolinePiece, InterpPiece,
         HashData, Copied, Flatten, SymRows, RelaRows, DynRows, HashPiece, ShFoff;
    TablesComplete(t, p);
    WriteFront(out, t, p, shoff);
    ghost var img, opts := t.img, t.opts;
    ghost var done := [FrontPiece(img, opts, p)];
    PieceOffsets(img, opts, p);
    out.Put(p.interp.foff, t.interp, done);
    done := done + [InterpPiece(opts, p)];
    out.Put(p.dynsym.foff, Flatten(SymRows(t.dynsym)), done);
    done := done + [DynsymPiece(img, opts, p)];
    out.Put(p.dynstr.foff, t.dynstr, done);
    done := done + [DynstrPiece(img, opts, p)];
    if t.hash != [] {
      out.Put(p.hash.foff, t.hash, done);
      done := done + [HashPiece(img, opts, p)];
    }
    out.Put(p.rela.foff, Flatten(RelaRows(t.rela)), done);
    done := done + [RelaPiece(img, opts, p)];
    out.Put(p.dynamic.foff, Flatten(DynRows(t.dynamic)), done);
    done := done + [DynamicPiece(img, opts, p)];
    out.Put(p.tramp.foff, t.tramp, done);
    done := done + [TrampolinePiece(img, p)];
    assert done == TablePieces(img, opts, p);
  }

  lemma PieceOffsets(img: Image, opts: Options, p: Plan)
    ensures InterpPiece(opts, p).at == p.interp.foff && DynsymPiece(img, opts, p).at == p.dynsym.foff
    ensures DynstrPiece(img, opts, p).at == p.dynstr.foff && RelaPiece(img, opts, p).at == p.rela.foff
    ensures DynamicPiece(img, opts, p).at == p.dynamic.foff && TrampolinePiece(img, p).at == p.tramp.foff
    ensures HashPiece(img, opts, p) == Piece(p.hash.foff, HashData(img, opts))
  {
    hide Dynsym, Relas, Dynamic, Trampoline, HashData, Dynstr, Flatten;
  }

  /** The raw data that the writer takes straight from the input. */
  method SectionFromInput(img: Image, i: nat) returns (s: seq<byte>)
    requires i < |img.secs| && RawInside(img, i)
    ensures |s| == img.secs[i].rawsz && forall k :: 0 <= k < |s| ==> s[k] == PeLoader.RawByte(img, i, k)
  {
    var sec := img.secs[i];
    if (sec.raw + sec.rawsz) % U32 <= |img.buf| { return img.buf[sec.raw..sec.raw + sec.rawsz]; }
    var avail := if sec.raw < |img.buf| then |img.buf| - sec.raw else 0;
    s := if avail > 0 then img.buf[sec.raw..sec.raw + avail] else [];
    var z := avail;
    while z < sec.rawsz
      invariant avail <= z <= sec.rawsz && |s| == z && forall k :: 0 <= k < z ==> s[k] == PeLoader.RawByte(img, i, k)
    {
      s := s + [0];
      z := z + 1;
    }
  }

  lemma NoSlots(img: Image, i: nat, k: nat)
    requires i < |img.secs| && i !in IatSections(img.secs, img.imports)
    ensures !Slotted(img, |img.imports|, i, k)
  {
    forall j | 0 <= j < |img.imports| ensures !SlotByte(img, img.imports[j], i, k) {
      Segments.IatSectionIn(img.secs, img.imports, j);
    }
  }

  lemma RawIsChunk(img: Image, i: nat, s: seq<byte>)
    requires i < |img.secs| && (i !in IatSections(img.secs, img.imports) || img.secs[i].rawsz == 0)
    requires |s| == img.secs[i].rawsz && forall k :: 0 <= k < |s| ==> s[k] == PeLoader.RawByte(img, i, k)
    ensures s == Chunk(img, i)
  {
    hide PeLoader.RawByte, IatSections, Slotted;
    var c := Chunk(img, i);
    forall k | 0 <= k < |s| ensures s[k] == c[k] { NoSlots(img, i, k); }
  }

  method SectionData(t: Tables, i: nat) returns (s: seq<byte>)
    requires i < |t.img.secs| && RawInside(t.img, i) && Copied(t)
    ensures s == Chunk(t.img, i)
  {
    if i in t.patched && t.patched[i] != [] { return t.patched[i]; }
    s := SectionFromInput(t.img, i);
    RawIsChunk(t.img, i, s);
  }

  /** A raw range that passes the writer's 32-bit test is in the input; otherwise the source would read past it. */
  ghost predicate RawInside(img: Image, i: nat)
    requires i < |img.secs|
  {
    (img.secs[i].raw + img.secs[i].rawsz) % U32 <= |img.buf| ==> img.secs[i].raw + img.secs[i].rawsz <= |img.buf|
  }

  ghost predicate RawSound(img: Image) {
    forall i :: 0 <= i < |img.secs| ==> RawInside(img, i)
  }

  method WriteSections(out: OutBuf, t: Tables, p: Plan, ghost done: seq<Piece>)
    requires out as object != t as object && |t.img.secs| == |p.secFoffs| && Copied(t) && RawSound(t.img)
    requires out.data == Emit([], done)
    modifies out
    ensures out.data == Emit([], done + SectionPieces(t.img, p, |t.img.secs|))
  {
    hide Emit, Chunk, Copied;
    var i := 0;
    assert done + SectionPieces(t.img, p, 0) == done;
    while i < |t.img.secs|
      invariant 0 <= i <= |t.img.secs| && Copied(t) && out.data == Emit([], done + SectionPieces(t.img, p, i))
    {
      var s := SectionData(t, i);
      out.Put(p.secFoffs[i], s, done + SectionPieces(t.img, p, i));
      ghost var q := Piece(p.secFoffs[i], s);
      assert SectionPieces(t.img, p, i + 1) == SectionPieces(t.img, p, i) + [q];
      Assoc(done, SectionPieces(t.img, p, i), [q]);
      i := i + 1;
    }
  }

  method WriteTail(out: OutBuf, t: Tables, p: Plan, shoff: nat, ghost done: seq<Piece>)
    requires out as object != t as object && Complete(t, p) && out.data == Emit([], done)
    requires t.opts.keepShdr ==> shoff == ShFoff(t.img, t.opts, p)
    modifies out
    ensures out.data == Emit([], done + ([HeaderPiece(t.img, p)] + TailPieces(t.img, t.opts, p)))
  {
    hide Emit, Complete, Copied, Shdrs, Shstrtab, Flatten, ShFoff, ShstrFoff, ShdrRows;
    TailComplete(t, p);
    var img := t.img;
    var size := if img.headers > |img.buf| then |img.buf| else img.headers;
    ghost var h := HeaderPiece(img, p);
    out.Put(p.hdrFoff, img.buf[..size], done);
    if t.opts.keepShdr {
      ghost var a, b := TailPieces(img, t.opts, p)[0], TailPieces(img, t.opts, p)[1];
      out.Put(ShstrFoff(p, img.headers), t.shstrtab, done + [h]);
      out.Put(shoff, Flatten(ShdrRows(t.shdrs)), done + [h] + [a]);
      assert done + [h] + [a] + [b] == done + ([h] + [a, b]);
    } else {
      assert done + [h] == done + ([h] + []);
    }
  }

  /** Writer::write up to the file write. */
  method Write(t: Tables, p: Plan, shoff: nat) returns (file: seq<byte>)
    requires Complete(t, p) && RawSound(t.img) && (t.opts.keepShdr ==> shoff == ShFoff(t.img, t.opts, p))
    ensures |t.img.secs| == |p.secFoffs| && file == OutputFile(t.img, t.opts, p)
  {
    hide Complete, Copied, Emit, TablePieces, SectionPieces, HeaderPiece, TailPieces, Shdrs, Shstrtab, ShFoff, RawSound;
    TailComplete(t, p);
    var out := new OutBuf();
    WriteTables(out, t, p, shoff);
    ghost var a, b, c := TablePieces(t.img, t.opts, p), SectionPieces(t.img, p, |t.img.secs|),
        [HeaderPiece(t.img, p)] + TailPieces(t.img, t.opts, p);
    WriteSections(out, t, p, a);
    WriteTail(out, t, p, shoff, a + b);
    assert a + b + c == Pieces(t.img, t.opts, p);
    file := out.data;
  }

  // ------------------------------------------------------------------------
  // The stages
  // ------------------------------------------------------------------------

  lemma PendingCount(img: Image, opts: Options)
    ensures |PendingRelas(img, opts)| == RelaCount(img, opts)
  {
    hide UniqueNames;
  }

  /** The end of everything placed so far, folded over the sections and the headers: the headers are always last. */
  method LastEnd(img: Image, opts: Options, p: Plan) returns (end: nat)
    requires PlanFor(img, opts, p)
    ensures end == p.hdrFoff + img.headers
  {
    SectionsChained(img, opts, p);
    hide PlanFor, Chunk;
    end := p.dataFoff;
    var i := 0;
    while i < |img.secs|
      invariant 0 <= i <= |img.secs| && end <= p.hdrFoff
    {
      var e := p.secFoffs[i] + img.secs[i].rawsz;
      end := if end < e then e else end;
      i := i + 1;
    }
    var h := p.hdrFoff + img.headers;
    end := if end < h then h else end;
  }

  /** The tables that do not need the plan, and the plan they lead to. */
  method Prepare(t: Tables) returns (p: Plan)
    requires t.dynstr == [] && t.dynsym == [] && t.rela == [] && t.hash == [] && t.tlsVaRela == [-1, -1, -1]
    modifies t`interp, t`dynstr, t`dynsym, t`rela, t`hash, t`symIndex, t`shimOff, t`rpathOff, t`injectOff, t`tlsSym,
             t`tlsRela, t`entrySym, t`tlsVaRela
    ensures PlanFor(t.img, t.opts, p)
    ensures Prepared(t, p)
    ensures StringsNoted(t)
  {
    hide Dynstr, Dynsym, HashData, Relas, PendingRelas, RelaCount, IsPlan, SymbolNames, InjectOff, SymIndex;
    t.BuildSyntheticSections();
    PendingCount(t.img, t.opts);
    p := ComputePlan(t.img.base, t.img.secs, Sizes(|t.interp|, |t.dynsym|, |t.dynstr|, |t.hash|, |t.rela|,
        DynCount(t.opts)));
    t.FinalizeTlsCall(p.tramp.va + TRAMP_SLOT);
  }

  /** The offsets of the fixed strings that the dynamic section needs. */
  ghost predicate StringsNoted(t: Tables)
    reads t
  {
    && t.shimOff == 1 && t.rpathOff == 1 + |t.opts.shim| + 1
    && (t.opts.inject != [] ==> t.injectOff == InjectOff(t.opts))
  }

  /** The tables that Prepare has made. */
  ghost predicate Prepared(t: Tables, p: Plan)
    reads t
  {
    && t.interp == t.opts.interp + [0] && t.dynstr == Dynstr(t.img, t.opts)
    && t.dynsym == Dynsym(t.img, t.opts, p.tramp.va) && t.hash == HashData(t.img, t.opts)
    && t.rela == Relas(t.img, t.opts, p.tramp.va)
  }

  /** Where to enter, and the trampoline: the two stages that can fail. */
  method ChooseEntry(t: Tables, p: Plan) returns (ok: bool)
    modifies t`safeEntry, t`tramp
    ensures ok <==> Converts(t.img, t.opts, p)
    ensures ok ==> t.tramp == Trampoline(t.img, p.tramp.va) && (t.opts.so ==> t.safeEntry == SafeEntry(t.img, 0))
  {
    hide SafeEntry, Trampoline, JumpFits;
    if t.opts.so {
      t.safeEntry := t.FindSafeEntry();
      if t.safeEntry == 0 { return false; }
    }
    ok := t.BuildTrampoline(p);
  }

  /** The dynamic section, the patched sections and the program headers. */
  method FillTables(t: Tables, p: Plan)
    requires |t.img.secs| == |p.secFoffs| && SlotsSound(t.img) && t.dynamic == [] && t.patched == map[]
    requires Prepared(t, p) && StringsNoted(t) && |t.tramp| == TRAMPOLINE_SIZE
    modifies t`dynamic, t`patched, t`phdrs
    ensures t.dynamic == Dynamic(t.img, t.opts, p) && Copied(t) && t.phdrs == Phdrs(t.img, t.opts, p)
  {
    hide Dynstr, Dynsym, HashData, Relas, RelaCount, InjectOff, Dynamic, DynCount, Phdrs, IatSections, Chunk,
         SlotsSound;
    t.BuildDynamic(p);
    var held := FindIatSections(t.img.secs, t.img.imports);
    t.PatchRdata(held);
    t.BuildPhdrs(p, held);
  }

  /** The section headers, if they are kept, and where they go. */
  method FillHeaders(t: Tables, p: Plan) returns (shoff: nat)
    requires PlanFor(t.img, t.opts, p) && |t.img.secs| == |p.secFoffs| && Prepared(t, p)
    requires |t.dynamic| == DynCount(t.opts)
    modifies t`shdrs, t`shstrtab
    ensures t.opts.keepShdr ==> t.shdrs == Shdrs(t.img, t.opts, p) && t.shstrtab == Shstrtab(t.img, t.opts, p)
    ensures t.opts.keepShdr ==> shoff == ShFoff(t.img, t.opts, p)
  {
    hide Dynstr, HashData, Relas, RelaCount, SymbolNames, DynCount, Shdrs, Shstrtab, PlanFor, ShFoff;
    shoff := 0;
    if t.opts.keepShdr {
      HashIff(t.img, t.opts);
      t.BuildShdrs(p);
      shoff := PlaceShdrs(t, p);
    }
  }

  /** The stages after the plan. */
  method Complement(t: Tables, p: Plan) returns (ok: bool, shoff: nat)
    requires PlanFor(t.img, t.opts, p) && SlotsSound(t.img) && t.dynamic == [] && t.patched == map[]
    requires Prepared(t, p) && StringsNoted(t)
    modifies t`safeEntry, t`tramp, t`dynamic, t`patched, t`phdrs, t`shdrs, t`shstrtab
    ensures ok <==> Converts(t.img, t.opts, p)
    ensures ok ==> Complete(t, p) && (t.opts.keepShdr ==> shoff == ShFoff(t.img, t.opts, p))
  {
    hide Dynstr, Dynsym, HashData, Relas, SafeEntry, Trampoline, Dynamic, Phdrs, Shdrs, Shstrtab, SlotsSound,
         Chunk, IatSections, PlanFor, ShFoff, Converts, InjectOff;
    PlanSections(t.img, t.opts, p);
    shoff := 0;
    ok := ChooseEntry(t, p);
    if !ok { return; }
    FillTables(t, p);
    shoff := FillHeaders(t, p);
  }

  method PlaceShdrs(t: Tables, p: Plan) returns (shoff: nat)
    requires PlanFor(t.img, t.opts, p) && |t.img.secs| == |p.secFoffs| && t.shstrtab == Shstrtab(t.img, t.opts, p)
    ensures shoff == ShFoff(t.img, t.opts, p)
  {
    hide PlanFor, Shstrtab;
    var last := LastEnd(t.img, t.opts, p);
    var shstrFoff := AlignUp(last, 8);
    shoff := AlignUp(shstrFoff + |t.shstrtab|, 8);
  }

  lemma HashIff(img: Image, opts: Options)
    ensures opts.so <==> HashData(img, opts) != []
  {
    if opts.so { Segments.HashNotEmpty(img, opts); }
    hide HashTable.HashBytes, Dynsym, Dynstr;
  }

  /** convert, from the collected image to the bytes of the file: it fails exactly when the jump does not reach the
      entry point or a shared object has no byte to enter at, and otherwise gives the file laid out by the plan. */
  method Convert(img: Image, opts: Options) returns (r: Option<seq<byte>>, p: Plan)
    requires SlotsSound(img) && RawSound(img)
    ensures PlanFor(img, opts, p) && |img.secs| == |p.secFoffs|
    ensures r == if Converts(img, opts, p) then Some(OutputFile(img, opts, p)) else None
    ensures r.Some? && p.tramp.va < U64 && |img.secs| <= FileReads.MAX_SECTIONS ==>
      ElfLoader.Acceptable(r.value) && (!opts.so ==> ElfLoader.EntryOf(r.value) == p.tramp.va)
  {
    hide Dynstr, Dynsym, HashData, Relas, PlanFor, Converts, Complete, OutputFile, SlotsSound, RawSound, ShFoff,
         InjectOff, ElfLoader.Acceptable, ElfLoader.EntryOf, SafeEntry, Shdrs;
    var t := new Tables(img, opts);
    p := Prepare(t);
    PlanSections(img, opts, p);
    var ok, shoff := Complement(t, p);
    if !ok { return None, p; }
    var file := Write(t, p, shoff);
    r := Some(file);
    if |img.secs| <= FileReads.MAX_SECTIONS { FileReads.HeaderRead(img, opts, p); }
  }

  /** The image that reaches the builder: relocations collected, and applied in the file when --base asks for it. */
  ghost function WithRelocs(img: Image, sites: seq<nat>): Image { img.(relocs := RelocsOf(img, sites)) }

  ghost function AtBase(img: Image, rebaseTo: nat): Option<Image> {
    if rebaseTo == 0 then Some(img) else Rebased(img, rebaseTo)
  }

  /** convert from the relocation directory on; the TLS directory is read from the rebased file. */
  method Run(pe: PeFile, start: nat, end: nat, rebaseTo: nat, tlsRva: nat, opts: Options)
    returns (r: Option<seq<byte>>, p: Plan)
    requires end <= |pe.img.buf| && pe.img.relocs == [] && Ends(pe.img.buf, start, end, end)
    requires SlotsSound(pe.img) && RawSound(pe.img)
    modifies pe
    ensures var input := AtBase(WithRelocs(old(pe.img), Sites(old(pe.img.buf), start, end, end)), rebaseTo);
      match input
      case None => r == None
      case Some(moved) => var img := WithTls(moved, tlsRva);
                        && |img.secs| == |p.secFoffs| && PlanFor(img, opts, p) && pe.img == img
                        && r == if Converts(img, opts, p) then Some(OutputFile(img, opts, p)) else None
  {
    hide Sites, Ends, RelocsOf, PlanFor, Converts, OutputFile, Patched, SitesSound, StoppedShort, TlsAt;
    ghost var bare := pe.img;
    pe.CollectRelocs(start, end);
    SitesBounds(bare.buf, start, end, end);
    SameRelocs(bare, pe.img, Sites(bare.buf, start, end, end));
    KeptSound(pe.img, Sites(bare.buf, start, end, end));
    if rebaseTo != 0 {
      var ok := pe.Rebase(rebaseTo);
      if !ok {
        var z := Part(0, 0);
        return None, Plan(0, 0, z, z, z, z, z, z, z, 0, [], 0);
      }
    }
    pe.CollectTls(tlsRva);
    StaysSound(bare, pe.img);
    r, p := Convert(pe.img, opts);
  }

  lemma StaysSound(a: Image, b: Image)
    requires SlotsSound(a) && RawSound(a) && a.secs == b.secs && a.imports == b.imports && |a.buf| == |b.buf|
    ensures SlotsSound(b) && RawSound(b)
  {
    forall j | 0 <= j < |b.imports| ensures SlotSound(b, b.imports[j].iatRva) {
      assert SlotSound(a, a.imports[j].iatRva);
    }
    forall i | 0 <= i < |b.secs| ensures RawInside(b, i) { assert RawInside(a, i); }
  }

  lemma {:induction false} SameRelocs(a: Image, b: Image, sites: seq<nat>)
    requires a.buf == b.buf && a.secs == b.secs && a.base == b.base && a.imports == b.imports
    ensures RelocsOf(a, sites) == RelocsOf(b, sites)
  {
    hide RelocAt;
    if sites != [] {
      RelocAtSame(a, b, sites[|sites| - 1]);
      SameRelocs(a, b, sites[..|sites| - 1]);
    }
  }
}
