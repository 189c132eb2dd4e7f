/** The builder itself (elf_build.hpp, Builder): the object whose tables grow and are patched step by step, each step
    proved against the table it should leave. */
module Builder {
  import opened Common
  import opened Bytes
  import opened ElfFormat
  import opened PeImage
  import PeLoader
  import opened Layout
  import opened Names
  import HashTable
  import opened Build
  import opened Assemble

  // ------------------------------------------------------------------------
  // Steps in terms of the tables
  // ------------------------------------------------------------------------

  /** The relocations before finalize_tls_call: the trampoline's own have no offset yet. */
  function PendingExtras(img: Image, opts: Options): seq<Rela> {
    [Rela(0, |UniqueNames(img.imports)| + 1, R_X86_64_64, 0)] + (if opts.so then PendingTls(img.tls) else [])
  }

  function PendingTls(tls: Tls): seq<Rela> { TlsRela(tls.template, 0) + TlsRela(tls.index, 0) + TlsRela(tls.callbacks,
      0) }

  function PendingRelas(img: Image, opts: Options): seq<Rela> {
    ImportRelas(img) + RelocRelas(img.relocs) + PendingExtras(img, opts)
  }

  lemma StringsSnoc(names: seq<Name>, x: Name)
    ensures Strings(names + [x]) == Strings(names) + x + [0]
  {
    assert (names + [x])[..|names|] == names;
  }

  lemma UndefinedSnoc(head: nat, names: seq<Name>, x: Name)
    ensures UndefinedSyms(head, names + [x]) == UndefinedSyms(head, names) + [Undefined(head + |Strings(names)|)]
  {
    hide Strings, Undefined;
    var more := names + [x];
    assert more[..|names|] == names;
    assert forall i :: 0 <= i < |names| ==> more[..i] == names[..i];
  }

  class Tables {
    const img: Image
    const opts: Options

    var interp: seq<byte>
    var dynstr: seq<byte>
    var dynsym: seq<Sym>
    var rela: seq<Rela>
    var dynamic: seq<Dyn>
    var tramp: seq<byte>
    var hash: seq<byte>
    var patched: map<int, seq<byte>>
    var phdrs: seq<Phdr>
    var shdrs: seq<Shdr>
    var shstrtab: seq<byte>

    var symIndex: seq<nat>
    var shimOff: nat
    var rpathOff: nat
    var injectOff: nat
    var tlsSym: nat
    var tlsRela: nat
    var entrySym: nat
    var safeEntry: nat

    /** Where the relocations of the three TLS addresses are, or -1. */
    var tlsVaRela: seq<int>

    constructor (img: Image, opts: Options)
      ensures this.img == img && this.opts == opts
      ensures dynstr == [] && dynsym == [] && rela == [] && dynamic == [] && hash == [] && patched == map[]
      ensures tlsVaRela == [-1, -1, -1]
    {
      this.img, this.opts := img, opts;
      interp, dynstr, dynsym, rela, dynamic, tramp, hash := [], [], [], [], [], [], [];
      patched, phdrs, shdrs, shstrtab, symIndex := map[], [], [], [], [];
      shimOff, rpathOff, injectOff, tlsSym, tlsRela, entrySym, safeEntry := 0, 0, 0, 0, 0, 0, 0;
      tlsVaRela := [-1, -1, -1];
    }

    // ----------------------------------------------------------------------
    // Strings and symbols
    // ----------------------------------------------------------------------

    /** The fixed strings at the front of the string table. */
    method StartStrings()
      requires dynstr == []
      modifies this`dynstr, this`shimOff, this`rpathOff, this`injectOff
      ensures dynstr == DynstrHead(opts)
      ensures shimOff == 1 && rpathOff == 1 + |opts.shim| + 1 && (opts.inject != [] ==> injectOff == InjectOff(opts))
    {
      dynstr := dynstr + [0];
      shimOff := |dynstr|;
      dynstr := dynstr + opts.shim + [0];
      rpathOff := |dynstr|;
      dynstr := dynstr + ORIGIN + [0];
      if opts.inject != [] {
        injectOff := |dynstr|;
        dynstr := dynstr + opts.inject + [0];
      }
    }

    method AddUndefined(name: Name, ghost head: nat, ghost before: seq<Name>)
      requires |dynstr| == head + |Strings(before)| && dynsym == [Sym(0, 0, 0, 0, 0)] + UndefinedSyms(head, before)
      modifies this`dynstr, this`dynsym
      ensures dynstr == old(dynstr) + name + [0] && |dynstr| == head + |Strings(before + [name])|
      ensures dynsym == [Sym(0, 0, 0, 0, 0)] + UndefinedSyms(head, before + [name])
    {
      hide Strings, UndefinedSyms;
      StringsSnoc(before, name);
      UndefinedSnoc(head, before, name);
      var at := |dynstr|;
      dynstr := dynstr + name + [0];
      Assoc([Sym(0, 0, 0, 0, 0)], UndefinedSyms(head, before), [Undefined(at)]);
      dynsym := dynsym + [Undefined(at)];
    }

    method AddNames(names: seq<Name>)
      requires dynsym == [Sym(0, 0, 0, 0, 0)]
      modifies this`dynstr, this`dynsym
      ensures dynstr == old(dynstr) + Strings(names)
      ensures dynsym == [Sym(0, 0, 0, 0, 0)] + UndefinedSyms(|old(dynstr)|, names)
    {
      ghost var head := |dynstr|;
      var k := 0;
      assert names[..0] == [] && Strings([]) == [] && UndefinedSyms(head, []) == [];
      hide Strings, UndefinedSyms;
      while k < |names|
        invariant 0 <= k <= |names| && dynstr == old(dynstr) + Strings(names[..k])
        invariant dynsym == [Sym(0, 0, 0, 0, 0)] + UndefinedSyms(head, names[..k])
      {
        assert names[..k + 1] == names[..k] + [names[k]];
        StringsSnoc(names[..k], names[k]);
        Assoc4(old(dynstr), Strings(names[..k]), names[k], [0]);
        AddUndefined(names[k], head, names[..k]);
        k := k + 1;
      }
      assert names[..k] == names;
    }

    // ----------------------------------------------------------------------
    // Relocations
    // ----------------------------------------------------------------------

    method AddImportRelas()
      requires rela == [] && |symIndex| == |img.imports| && forall i :: 0 <= i < |symIndex| ==>
        symIndex[i] == SymIndex(img.imports, i)
      modifies this`rela
      ensures rela == ImportRelas(img)
    {
      var i := 0;
      while i < |img.imports|
        invariant 0 <= i <= |img.imports| && rela == ImportRelas(img)[..i]
      {
        rela := rela + [Rela(img.base + img.imports[i].iatRva, symIndex[i], R_X86_64_64, 0)];
        i := i + 1;
      }
    }

    method AddRelocRelas()
      modifies this`rela
      ensures rela == old(rela) + RelocRelas(img.relocs)
    {
      var i := 0;
      while i < |img.relocs|
        invariant 0 <= i <= |img.relocs| && rela == old(rela) + RelocRelas(img.relocs)[..i]
      {
        rela := rela + [Rela(img.relocs[i].va, 0, R_X86_64_RELATIVE, img.relocs[i].addend)];
        i := i + 1;
      }
    }

    /** add_tls_va_reloc */
    method AddTlsVaRela(which: nat, va: nat)
      requires which < |tlsVaRela| == 3
      modifies this`rela, this`tlsVaRela
      ensures rela == old(rela) + TlsRela(va, 0)
      ensures tlsVaRela == old(tlsVaRela)[which := if va == 0 then old(tlsVaRela)[which] else |old(rela)|]
    {
      if va == 0 { return; }
      tlsVaRela := tlsVaRela[which := |rela|];
      rela := rela + [Rela(0, 0, R_X86_64_RELATIVE, va)];
    }

    /** The imports and relocations part: everything up to the symbol that the trampoline calls. */
    method BuildImports()
      requires dynsym == [] && rela == [] && dynstr == DynstrHead(opts)
      modifies this`dynstr, this`dynsym, this`rela, this`symIndex
      ensures dynstr == DynstrHead(opts) + Strings(UniqueNames(img.imports))
      ensures dynsym == [Sym(0, 0, 0, 0, 0)] + UndefinedSyms(|DynstrHead(opts)|, UniqueNames(img.imports))
      ensures rela == ImportRelas(img) + RelocRelas(img.relocs)
      ensures |symIndex| == |img.imports| && forall i :: 0 <= i < |symIndex| ==> symIndex[i] == SymIndex(img.imports, i)
    {
      hide DynstrHead, Strings, UniqueNames, UndefinedSyms, SymIndex, ImportRelas, RelocRelas;
      var names, idx := AssignIndexes(img.imports);
      symIndex := idx;
      dynsym := [Sym(0, 0, 0, 0, 0)];
      AddNames(names);
      AddImportRelas();
      AddRelocRelas();
    }

    /** shim_register_tls and its placeholder relocation. */
    method AddRegisterTls()
      requires dynstr == DynstrHead(opts) + Strings(UniqueNames(img.imports))
      requires dynsym == [Sym(0, 0, 0, 0, 0)] + UndefinedSyms(|DynstrHead(opts)|, UniqueNames(img.imports))
      modifies this`dynstr, this`dynsym, this`rela, this`tlsSym, this`tlsRela
      ensures var names := UniqueNames(img.imports) + [REGISTER_TLS];
        && dynstr == DynstrHead(opts) + Strings(names)
        && dynsym == [Sym(0, 0, 0, 0, 0)] + UndefinedSyms(|DynstrHead(opts)|, names)
      ensures tlsRela == |old(rela)| && tlsSym == |UniqueNames(img.imports)| + 1
      ensures rela == old(rela) + [Rela(0, |UniqueNames(img.imports)| + 1, R_X86_64_64, 0)]
    {
      hide DynstrHead, Strings, UniqueNames;
      ghost var u := UniqueNames(img.imports);
      tlsSym := |dynsym|;
      StringsSnoc(u, REGISTER_TLS);
      Assoc4(DynstrHead(opts), Strings(u), REGISTER_TLS, [0]);
      AddUndefined(REGISTER_TLS, |DynstrHead(opts)|, u);
      tlsRela := |rela|;
      rela := rela + [Rela(0, tlsSym, R_X86_64_64, 0)];
    }

    /** The exported entry point. */
    method AddEntrypoint(ghost names: seq<Name>)
      requires opts.so && names == UniqueNames(img.imports) + [REGISTER_TLS]
      requires dynstr == DynstrHead(opts) + Strings(names)
      requires dynsym == [Sym(0, 0, 0, 0, 0)] + UndefinedSyms(|DynstrHead(opts)|, names)
      modifies this`dynstr, this`dynsym, this`entrySym
      ensures dynstr == Dynstr(img, opts) && dynsym == Dynsym(img, opts, 0) && entrySym == |dynsym| - 1
    {
      hide DynstrHead, Strings, UniqueNames;
      entrySym := |dynsym|;
      var at := |dynstr|;
      StringsSnoc(names, ENTRYPOINT);
      Assoc4(DynstrHead(opts), Strings(names), ENTRYPOINT, [0]);
      dynstr := dynstr + ENTRYPOINT + [0];
      dynsym := dynsym + [Sym(at, STB_GLOBAL_FUNC, 1, 0, TRAMPOLINE_SIZE)];
      assert SymbolNames(img, opts) == names + [ENTRYPOINT];
      assert (names + [ENTRYPOINT])[..|names|] == names;
    }

    /** What --so adds: the exported entry, the relocations of the TLS addresses, and the hash over the whole table. */
    method AddExports(ghost names: seq<Name>)
      requires opts.so && names == UniqueNames(img.imports) + [REGISTER_TLS] && tlsVaRela == [-1, -1, -1]
      requires dynstr == DynstrHead(opts) + Strings(names)
      requires dynsym == [Sym(0, 0, 0, 0, 0)] + UndefinedSyms(|DynstrHead(opts)|, names)
      modifies this`dynstr, this`dynsym, this`rela, this`hash, this`entrySym, this`tlsVaRela
      ensures dynstr == Dynstr(img, opts) && dynsym == Dynsym(img, opts, 0) && entrySym == |dynsym| - 1
      ensures hash == HashData(img, opts)
      ensures rela
           == old(rela) + TlsRela(img.tls.template, 0) + TlsRela(img.tls.index, 0) + TlsRela(img.tls.callbacks, 0)
      ensures var n, a := |old(rela)|, |TlsRela(img.tls.template, 0)|; var b := |TlsRela(img.tls.index, 0)|;
        tlsVaRela
          == [if img.tls.template == 0 then -1 else n, if img.tls.index == 0 then -1 else n + a,
              if img.tls.callbacks == 0 then -1 else n + a + b]
    {
      hide DynstrHead, Strings, UniqueNames, UndefinedSyms, HashTable.HashBytes, Dynstr, Dynsym;
      AddEntrypoint(names);
      AddTlsVaRela(0, img.tls.template);
      AddTlsVaRela(1, img.tls.index);
      AddTlsVaRela(2, img.tls.callbacks);
      hash := HashTable.BuildHash(dynsym, dynstr);
    }

    /** build_synthetic_sections */
    method BuildSyntheticSections()
      requires dynstr == [] && dynsym == [] && rela == [] && hash == [] && tlsVaRela == [-1, -1, -1]
      modifies this`interp, this`dynstr, this`dynsym, this`rela, this`hash, this`symIndex, this`shimOff, this`rpathOff,
               this`injectOff, this`tlsSym, this`tlsRela, this`entrySym, this`tlsVaRela
      ensures interp == opts.interp + [0] && dynstr == Dynstr(img, opts) && dynsym == Dynsym(img, opts, 0)
      ensures rela == PendingRelas(img, opts) && hash == HashData(img, opts)
      ensures |symIndex| == |img.imports| && forall i :: 0 <= i < |img.imports| ==>
        symIndex[i] == SymIndex(img.imports, i)
      ensures shimOff == 1 && rpathOff == 1 + |opts.shim| + 1 && (opts.inject != [] ==> injectOff == InjectOff(opts))
      ensures ReadyToFinalize()
    {
      hide DynstrHead, Strings, UniqueNames, UndefinedSyms, ImportRelas, RelocRelas, SymIndex, HashData, Dynstr,
           Dynsym, PendingRelas;
      interp := opts.interp + [0];
      StartStrings();
      BuildImports();
      AddRegisterTls();
      ghost var names := UniqueNames(img.imports) + [REGISTER_TLS];
      ghost var front := ImportRelas(img) + RelocRelas(img.relocs);
      if opts.so { AddExports(names); } else { NoExports(img, opts, names); }
      PendingIs(img, opts, rela, front);
    }

    /** The recorded positions are those of the placeholders. */
    ghost predicate ReadyToFinalize()
      reads this
    {
      && tlsRela == |img.imports| + |img.relocs| && |tlsVaRela| == 3
      && tlsVaRela[0] == (if opts.so && img.tls.template != 0 then tlsRela + 1 else -1)
      && tlsVaRela[1] == (if opts.so && img.tls.index != 0 then tlsRela + 1 + |TlsRela(img.tls.template, 0)| else -1)
      && tlsVaRela[2] == (if opts.so && img.tls.callbacks != 0
                          then tlsRela + 1 + |TlsRela(img.tls.template, 0)| + |TlsRela(img.tls.index, 0)| else -1)
      && (opts.so ==> entrySym == |dynsym| - 1)
    }

    method SetTlsOffset(which: nat, at: nat)
      requires which < |tlsVaRela|
      modifies this`rela
      ensures rela == SetOffset(old(rela), tlsVaRela[which], at)
    {
      var i := tlsVaRela[which];
      if 0 <= i < |rela| { rela := rela[i := rela[i].(offset := at)]; }
    }

    /** finalize_tls_call */
    method FinalizeTlsCall(slotVa: nat)
      requires slotVa >= TRAMP_SLOT && rela == PendingRelas(img, opts) && dynsym == Dynsym(img, opts, 0)
      requires ReadyToFinalize()
      modifies this`rela, this`dynsym
      ensures rela == Relas(img, opts, slotVa - TRAMP_SLOT) && dynsym == Dynsym(img, opts, slotVa - TRAMP_SLOT)
    {
      FillRelas(slotVa);
      if opts.so {
        var tramp := slotVa - TRAMP_SLOT;
        EntryFilled(img, opts, tramp);
        if entrySym < |dynsym| { dynsym := dynsym[entrySym := dynsym[entrySym].(value := tramp)]; }
      } else {
        hide UniqueNames, UndefinedSyms;
      }
    }

    method FillRelas(slotVa: nat)
      requires slotVa >= TRAMP_SLOT && rela == PendingRelas(img, opts) && ReadyToFinalize()
      modifies this`rela
      ensures rela == Relas(img, opts, slotVa - TRAMP_SLOT)
    {
      hide PendingRelas, Relas, TlsRela;
      var tramp := slotVa - TRAMP_SLOT;
      RelasFilled(img, opts, tramp);
      if tlsRela < |rela| { rela := rela[tlsRela := rela[tlsRela].(offset := slotVa)]; }
      if opts.so {
        SetTlsOffset(0, tramp + TRAMP_TLS);
        SetTlsOffset(1, tramp + TRAMP_TLS + 32);
        SetTlsOffset(2, tramp + TRAMP_TLS + 40);
      }
    }

    /** find_safe_entry */
    method FindSafeEntry() returns (va: nat)
      ensures va == SafeEntry(img, 0)
    {
      var i := 0;
      hide FirstRet, InFile, HasFlag;
      while i < |img.secs|
        invariant 0 <= i <= |img.secs| && SafeEntry(img, 0) == SafeEntry(img, i)
      {
        var s := img.secs[i];
        if HasFlag(s, SCN_EXECUTE) {
          var bytes := ReadAvailable(s);
          var k := ScanForRet(bytes);
          if k.Some? { return img.base + s.va + k.value; }
        }
        i := i + 1;
      }
      va := 0;
    }

    method ReadAvailable(s: Section) returns (bytes: seq<byte>)
      ensures bytes == InFile(img, s)
    {
      var avail := if s.raw < |img.buf| then |img.buf| - s.raw else 0;
      var scan := if s.rawsz < avail then s.rawsz else avail;
      bytes := if scan == 0 then [] else img.buf[s.raw..s.raw + scan];
    }

    // ----------------------------------------------------------------------
    // The trampoline and the dynamic section
    // ----------------------------------------------------------------------

    /** build_trampoline: fails when the jump does not reach. The code and the record fill the 80 bytes, so no padding
        is left to add. */
    method BuildTrampoline(p: Plan) returns (ok: bool)
      modifies this`tramp
      ensures ok <==> JumpFits(img, p.tramp.va)
      ensures ok ==> tramp == Trampoline(img, p.tramp.va)
    {
      var d := JumpDistance(img, p.tramp.va);
      if !(-0x8000_0000 <= d < 0x8000_0000) { return false; }
      hide Le, JumpDistance, TlsInfo;
      tramp := [0x48, 0x83, 0xe4, 0xf0, 0x48, 0x8d, 0x3d, 0x15, 0, 0, 0, 0xff, 0x15, 0x07, 0, 0, 0, 0x50, 0xe9]
        + Le(4, d % U32) + [0x90, 0, 0, 0, 0, 0, 0, 0, 0];
      tramp := tramp + TlsInfo(img.tls);
      ok := true;
    }

    /** build_dynamic */
    method BuildDynamic(p: Plan)
      requires dynamic == [] && dynstr == Dynstr(img, opts) && |rela| == RelaCount(img, opts)
      requires shimOff == 1 && rpathOff == 1 + |opts.shim| + 1 && (opts.inject != [] ==> injectOff == InjectOff(opts))
      modifies this`dynamic
      ensures dynamic == Dynamic(img, opts, p)
    {
      hide Dynstr, RelaCount;
      dynamic := [Dyn(DT_NEEDED, shimOff)];
      if opts.inject != [] { dynamic := dynamic + [Dyn(DT_NEEDED, injectOff)]; }
      dynamic := dynamic + [Dyn(DT_RUNPATH, rpathOff), Dyn(DT_STRTAB, p.dynstr.va), Dyn(DT_STRSZ, |dynstr|),
                            Dyn(DT_SYMTAB, p.dynsym.va), Dyn(DT_SYMENT, SYM_SIZE)];
      if opts.so { dynamic := dynamic + [Dyn(DT_HASH, p.hash.va)]; }
      dynamic := dynamic + [Dyn(DT_RELA, p.rela.va), Dyn(DT_RELASZ, |rela| * RELA_SIZE), Dyn(DT_RELAENT, RELA_SIZE),
                            Dyn(DT_DEBUG, 0), Dyn(DT_FLAGS_1, 1), Dyn(DT_NULL, 0)];
    }

    // ----------------------------------------------------------------------
    // Section data
    // ----------------------------------------------------------------------

    /** A section's bytes from the file, zero-filled to its raw size. */
    method RawCopy(i: nat) returns (s: seq<byte>)
      requires i < |img.secs|
      ensures |s| == img.secs[i].rawsz && forall k :: 0 <= k < |s| ==> s[k] == PeLoader.RawByte(img, i, k)
    {
      var sec := img.secs[i];
      if sec.raw >= |img.buf| { return seq(sec.rawsz, _ => 0); }
      var avail := |img.buf| - sec.raw;
      if avail > sec.rawsz { avail := sec.rawsz; }
      s := img.buf[sec.raw..sec.raw + avail] + seq(sec.rawsz - avail, _ => 0);
    }

    /** The copy of one section with its import slots zeroed. */
    method ZeroSlots(i: nat) returns (s: seq<byte>)
      requires i < |img.secs| && SlotsSound(img)
      ensures s == Chunk(img, i)
    {
      s := RawCopy(i);
      var sec := img.secs[i];
      var j := 0;
      hide PeLoader.RawByte;
      while j < |img.imports|
        invariant 0 <= j <= |img.imports| && |s| == sec.rawsz
        invariant forall k :: 0 <= k < |s| ==> s[k] == if Slotted(img, j, i, k) then 0 else PeLoader.RawByte(img, i, k)
      {
        s := ZeroSlot(i, j, s);
        j := j + 1;
      }
    }

    method ZeroSlot(i: nat, j: nat, s: seq<byte>) returns (t: seq<byte>)
      requires i < |img.secs| && j < |img.imports| && |s| == img.secs[i].rawsz && SlotsSound(img)
      requires forall k :: 0 <= k < |s| ==> s[k] == if Slotted(img, j, i, k) then 0 else PeLoader.RawByte(img, i, k)
      ensures |t| == |s| && forall k :: 0 <= k < |t| ==>
        t[k] == if Slotted(img, j + 1, i, k) then 0 else PeLoader.RawByte(img, i, k)
    {
      hide PeLoader.RawByte;
      t := s;
      var imp := img.imports[j];
      assert SlotSound(img, imp.iatRva);
      var at := FindSection(img.secs, imp.iatRva);
      if at == i {
        var off := imp.iatRva - img.secs[i].va;
        if (off + 8) % U32 <= |s| { t := s[..off] + [0, 0, 0, 0, 0, 0, 0, 0] + s[off + 8..]; }
      }
      forall k | 0 <= k < |t| ensures t[k] == if Slotted(img, j + 1, i, k) then 0 else PeLoader.RawByte(img, i, k) {
        SlottedMore(img, j, i, k);
      }
    }

    /** patch_rdata */
    method PatchRdata(held: seq<int>)
      requires held == IatSections(img.secs, img.imports) && SlotsSound(img) && patched == map[]
      modifies this`patched
      ensures forall i :: i in patched <==> i in held
      ensures forall i :: i in patched ==> 0 <= i < |img.secs| && patched[i] == Chunk(img, i)
    {
      assert forall j :: 0 <= j < |img.imports| ==> SlotSound(img, img.imports[j].iatRva);
      HeldIn(img.secs, img.imports);
      var n := 0;
      hide Chunk, IatSections;
      while n < |held|
        invariant 0 <= n <= |held|
        invariant forall i :: i in patched <==> i in held[..n]
        invariant forall i :: i in patched ==> 0 <= i < |img.secs| && patched[i] == Chunk(img, i)
      {
        assert held[n] in held;
        var s := ZeroSlots(held[n]);
        patched := patched[held[n] := s];
        n := n + 1;
      }
    }

    // ----------------------------------------------------------------------
    // Program headers
    // ----------------------------------------------------------------------

    method AnyReloc(s: Section) returns (found: bool)
      ensures found == HoldsReloc(img, s)
    {
      var j := 0;
      while j < |img.relocs|
        invariant 0 <= j <= |img.relocs|
        invariant forall k :: 0 <= k < j ==> !(img.base + s.va <= img.relocs[k].va < img.base + s.va + Extent(s))
      {
        if img.base + s.va <= img.relocs[j].va < img.base + s.va + Extent(s) { return true; }
        j := j + 1;
      }
      found := false;
    }

    method AddSectionPhdr(p: Plan, held: seq<int>, i: nat)
      requires i < |img.secs| == |p.secFoffs| && held == IatSections(img.secs, img.imports)
      modifies this`phdrs
      ensures phdrs == old(phdrs) + [SectionPhdr(img, p, i)]
    {
      var s := img.secs[i];
      var reloc := AnyReloc(s);
      hide HoldsReloc, IatSections, HasFlag;
      var w := HasFlag(s, SCN_WRITE) || i in held || reloc;
      var flags := (if HasFlag(s, SCN_READ) then PF_R else 0) + (if w then PF_W else 0)
        + (if HasFlag(s, SCN_EXECUTE) then PF_X else 0);
      phdrs := phdrs + [Phdr(PT_LOAD, flags, p.secFoffs[i], img.base + s.va, s.rawsz, Extent(s), PAGE)];
    }

    /** The section loop: a header for each section that is kept; the index for PT_GNU_RELRO, or -1. */
    method AddSectionPhdrs(p: Plan, held: seq<int>) returns (relro: int)
      requires |img.secs| == |p.secFoffs| && held == IatSections(img.secs, img.imports)
      modifies this`phdrs
      ensures phdrs == old(phdrs) + SectionPhdrs(img, opts, p, |img.secs|)
      ensures relro == match RelroSection(img, opts) case None => -1 case Some(i) => i
    {
      relro := -1;
      var i := 0;
      hide IatSections, SectionPhdr, Stripped;
      while i < |img.secs|
        invariant 0 <= i <= |img.secs| && phdrs == old(phdrs) + SectionPhdrs(img, opts, p, i)
        invariant relro == if |held| == 1 && 0 <= held[0] < i && !Stripped(opts, img.secs[held[0]]) then held[0] else -1
      {
        if !Stripped(opts, img.secs[i]) {
          if i in held && |held| == 1 { relro := i; }
          AddSectionPhdr(p, held, i);
        }
        i := i + 1;
      }
    }

    /** build_phdrs */
    method BuildPhdrs(p: Plan, held: seq<int>)
      requires |img.secs| == |p.secFoffs| && held == IatSections(img.secs, img.imports)
      requires |interp| == |opts.interp| + 1 && |dynamic| == DynCount(opts) && |tramp| == TRAMPOLINE_SIZE
      modifies this`phdrs
      ensures phdrs == Phdrs(img, opts, p)
    {
      hide IatSections, SectionPhdrs, HeaderPhdr, StackPhdr, DynCount, RelroSection, AlignUp;
      var self := Phdr(PT_PHDR, PF_R, EHDR_SIZE, p.synthVa + EHDR_SIZE, 0, 0, 8);
      var size := p.tramp.foff + |tramp|;
      ghost var front := [InterpPhdr(opts, p), SynthPhdr(p), DynamicPhdr(opts, p)];
      phdrs := [self, Phdr(PT_INTERP, PF_R, p.interp.foff, p.interp.va, |interp|, |interp|, 1),
                Phdr(PT_LOAD, PF_R + PF_W + PF_X, 0, p.synthVa, size, size, PAGE),
                Phdr(PT_DYNAMIC, PF_R + PF_W, p.dynamic.foff, p.dynamic.va, |dynamic| * DYN_SIZE, |dynamic| * DYN_SIZE,
                    8)];
      assert phdrs == [self] + front;
      var relro := AddSectionPhdrs(p, held);
      AddLastPhdrs(p, relro);
      var total := |phdrs| * PHDR_SIZE;
      ghost var mid, tail := SectionPhdrs(img, opts, p, |img.secs|),
          RelroPhdrs(img, opts, p) + [StackPhdr(), HeaderPhdr(img, p)];
      hide SelfPhdr, InterpPhdr, SynthPhdr, DynamicPhdr, RelroPhdrs;
      assert phdrs == [self] + front + mid + tail;
      FirstPatched(img, opts, p, self, phdrs);
      phdrs := phdrs[0 := phdrs[0].(filesz := total, memsz := total)];
    }

    method AddLastPhdrs(p: Plan, relro: int)
      requires |img.secs| == |p.secFoffs| && relro == match RelroSection(img, opts) case None => -1 case Some(i) => i
      modifies this`phdrs
      ensures phdrs == old(phdrs) + (RelroPhdrs(img, opts, p) + [StackPhdr(), HeaderPhdr(img, p)])
    {
      RelroIn(img, opts);
      hide RelroSection, AlignUp;
      if relro >= 0 {
        var s := img.secs[relro];
        phdrs := phdrs + [Phdr(PT_GNU_RELRO, PF_R, p.secFoffs[relro], img.base + s.va, s.rawsz, s.rawsz, 1)];
      }
      phdrs := phdrs + [Phdr(PT_GNU_STACK, PF_R + PF_W, 0, 0, 0, 0, 0x10)];
      phdrs := phdrs + [Phdr(PT_LOAD, PF_R, p.hdrFoff, img.base, img.headers, AlignUp(img.headers, PAGE), PAGE)];
    }

    // ----------------------------------------------------------------------
    // Section headers
    // ----------------------------------------------------------------------

    ghost predicate Listed(hs: seq<Named>)
      reads this
    {
      shstrtab == [0] + Strings(NamesOf(hs)) && shdrs == [Shdr(0, 0, 0, 0, 0, 0, 0, 0, 0, 0)] + Placing(hs)
    }

    /** The lambda that adds a section header, and add_shstrtab. */
    method AddShdr(name: Name, h: Shdr, ghost hs: seq<Named>)
      requires Listed(hs)
      modifies this`shdrs, this`shstrtab
      ensures Listed(hs + [Named(name, h)])
    {
      hide Strings, Placing, NamesOf;
      PlacingSnoc(hs, Named(name, h));
      StringsSnoc(NamesOf(hs), name);
      Assoc4([0], Strings(NamesOf(hs)), name, [0]);
      Assoc([Shdr(0, 0, 0, 0, 0, 0, 0, 0, 0, 0)], Placing(hs), [h.(name := |shstrtab|)]);
      var at := |shstrtab|;
      shstrtab := shstrtab + name + [0];
      shdrs := shdrs + [h.(name := at)];
    }

    method AddTableShdrs(p: Plan)
      requires Listed([]) && |dynsym| == 1 + |SymbolNames(img, opts)| && dynstr == Dynstr(img, opts)
      requires hash == HashData(img, opts)
      requires |rela| == RelaCount(img, opts) && |dynamic| == DynCount(opts) && |interp| == |opts.interp| + 1
      requires opts.so <==> hash != []
      modifies this`shdrs, this`shstrtab
      ensures Listed(TableShdrs(img, opts, p))
    {
      hide Listed, Dynstr, HashData, RelaCount, DynCount, SymbolNames;
      var a := Shdr(0, SHT_DYNSYM, SHF_ALLOC, p.dynsym.va, p.dynsym.foff, |dynsym| * SYM_SIZE, 2, 1, 8, SYM_SIZE);
      var b := Shdr(0, SHT_STRTAB, SHF_ALLOC, p.dynstr.va, p.dynstr.foff, |dynstr|, 0, 0, 1, 0);
      var c := Shdr(0, SHT_HASH, SHF_ALLOC, p.hash.va, p.hash.foff, |hash|, 1, 0, 8, 4);
      var d := Shdr(0, SHT_RELA, SHF_ALLOC, p.rela.va, p.rela.foff, |rela| * RELA_SIZE, 1, 0, 8, RELA_SIZE);
      var e := Shdr(0, SHT_DYNAMIC, SHF_ALLOC + SHF_WRITE, p.dynamic.va, p.dynamic.foff, |dynamic| * DYN_SIZE, 2, 0, 8,
          DYN_SIZE);
      var f := Shdr(0, SHT_PROGBITS, SHF_ALLOC, p.interp.va, p.interp.foff, |interp|, 0, 0, 1, 0);
      ghost var hs: seq<Named> := [];
      AddShdr(N_DYNSYM, a, hs);
      hs := hs + [Named(N_DYNSYM, a)];
      AddShdr(N_DYNSTR, b, hs);
      hs := hs + [Named(N_DYNSTR, b)];
      if hash != [] {
        AddShdr(N_HASH, c, hs);
        hs := hs + [Named(N_HASH, c)];
      }
      AddShdr(N_RELA, d, hs);
      hs := hs + [Named(N_RELA, d)];
      AddShdr(N_DYNAMIC, e, hs);
      hs := hs + [Named(N_DYNAMIC, e)];
      AddShdr(N_INTERP, f, hs);
      hs := hs + [Named(N_INTERP, f)];
      assert hs == TableShdrs(img, opts, p);
    }

    method AddSectionShdr(p: Plan, i: nat, ghost hs: seq<Named>)
      requires Listed(hs) && i < |img.secs| == |p.secFoffs|
      modifies this`shdrs, this`shstrtab
      ensures Listed(hs + [SectionShdr(img, p, i)])
    {
      hide Listed, HasFlag, CStr;
      var s := img.secs[i];
      var flags := SHF_ALLOC + (if HasFlag(s, SCN_WRITE) then SHF_WRITE else 0)
        + (if HasFlag(s, SCN_EXECUTE) then SHF_EXECINSTR else 0);
      var bss := s.rawsz == 0;
      var h := Shdr(0, if bss then SHT_NOBITS else SHT_PROGBITS, flags, img.base + s.va,
          if bss then 0 else p.secFoffs[i],
                    if bss then s.virtsz else s.rawsz, 0, 0, PAGE, 0);
      AddShdr(CStr(s.name), h, hs);
    }

    method AddSectionShdrs(p: Plan, ghost hs: seq<Named>)
      requires Listed(hs) && |img.secs| == |p.secFoffs|
      modifies this`shdrs, this`shstrtab
      ensures Listed(hs + SectionShdrs(img, p))
    {
      hide Listed, SectionShdr;
      var i := 0;
      ghost var all := SectionShdrs(img, p);
      assert hs + all[..0] == hs;
      while i < |img.secs|
        invariant 0 <= i <= |img.secs| && Listed(hs + all[..i])
      {
        AddSectionShdr(p, i, hs + all[..i]);
        assert all[..i + 1] == all[..i] + [all[i]];
        Assoc(hs, all[..i], [all[i]]);
        i := i + 1;
      }
      assert all[..i] == all;
    }

    method StartShdrs()
      modifies this`shdrs, this`shstrtab
      ensures Listed([])
    {
      shstrtab, shdrs := [0], [Shdr(0, 0, 0, 0, 0, 0, 0, 0, 0, 0)];
    }

    /** build_shdrs, and the size of the string table that convert sets afterwards. */
    method BuildShdrs(p: Plan)
      requires |img.secs| == |p.secFoffs| && |dynsym| == 1 + |SymbolNames(img, opts)| && dynstr == Dynstr(img, opts)
      requires hash == HashData(img, opts)
      requires |rela| == RelaCount(img, opts) && |dynamic| == DynCount(opts) && |interp| == |opts.interp| + 1
      requires opts.so <==> hash != []
      modifies this`shdrs, this`shstrtab
      ensures shdrs == Shdrs(img, opts, p) && shstrtab == Shstrtab(img, opts, p)
    {
      hide Listed, Dynstr, HashData, RelaCount, DynCount, SymbolNames, TableShdrs, SectionShdrs, AlignUp, Shdrs,
           Shstrtab;
      StartShdrs();
      AddTableShdrs(p);
      ghost var hs := TableShdrs(img, opts, p);
      AddSectionShdrs(p, hs);
      hs := hs + SectionShdrs(img, p);
      var at := ShstrFoff(p, img.headers);
      AddShdr(N_SHSTRTAB, Shdr(0, SHT_STRTAB, 0, p.synthVa + at, at, 0, 0, 0, 1, 0), hs);
      ShdrsDone(img, opts, p, this, hs);
      shdrs := shdrs[|shdrs| - 1 := shdrs[|shdrs| - 1].(size := |shstrtab|)];
    }
  }

  lemma NoExports(img: Image, opts: Options, names: seq<Name>)
    requires !opts.so && names == UniqueNames(img.imports) + [REGISTER_TLS]
    ensures Dynstr(img, opts) == DynstrHead(opts) + Strings(names) && HashData(img, opts) == []
    ensures Dynsym(img, opts, 0) == [Sym(0, 0, 0, 0, 0)] + UndefinedSyms(|DynstrHead(opts)|, names)
  {
    hide DynstrHead, Strings, UniqueNames, UndefinedSyms;
    assert SymbolNames(img, opts) == names;
    assert names[..|names|] == names;
  }

  lemma PendingIs(img: Image, opts: Options, rela: seq<Rela>, front: seq<Rela>)
    requires front == ImportRelas(img) + RelocRelas(img.relocs)
    requires var slot := front + [Rela(0, |UniqueNames(img.imports)| + 1, R_X86_64_64, 0)];
      rela == if opts.so
              then slot + TlsRela(img.tls.template, 0) + TlsRela(img.tls.index, 0) + TlsRela(img.tls.callbacks, 0)
              else slot
    ensures rela == PendingRelas(img, opts)
  {
    hide ImportRelas, RelocRelas, UniqueNames, TlsRela;
    var s, a, b, c := [Rela(0, |UniqueNames(img.imports)| + 1, R_X86_64_64, 0)], TlsRela(img.tls.template, 0),
        TlsRela(img.tls.index, 0), TlsRela(img.tls.callbacks, 0);
    if opts.so { Assoc4(front + s, a, b, c); Assoc(front, s, a + b + c); } else { assert s + [] == s; }
  }

  // ------------------------------------------------------------------------
  // Filling in the trampoline's relocations
  // ------------------------------------------------------------------------

  function SetOffset(rs: seq<Rela>, i: int, at: nat): (r: seq<Rela>)
    ensures |r| == |rs|
  {
    if 0 <= i < |rs| then rs[i := rs[i].(offset := at)] else rs
  }

  lemma SetPast(front: seq<Rela>, rest: seq<Rela>, k: nat, at: nat)
    requires k < |rest|
    ensures SetOffset(front + rest, |front| + k, at) == front + SetOffset(rest, k, at)
  {
  }

  /** Position k of the placeholders, or -1 where there is none. */
  function Position(present: bool, k: nat): int { if present then k else -1 }

  lemma ExtrasFilled(img: Image, opts: Options, tramp: nat)
    ensures var n, tls := |UniqueNames(img.imports)|, img.tls;
      var a, b := |TlsRela(tls.template, 0)|, |TlsRela(tls.index, 0)|;
      var e0 := SetOffset(PendingExtras(img, opts), 0, tramp + 24);
      var e1 := SetOffset(e0, Position(opts.so && tls.template != 0, 1), tramp + 32);
      var e2 := SetOffset(e1, Position(opts.so && tls.index != 0, 1 + a), tramp + 64);
      var e3 := SetOffset(e2, Position(opts.so && tls.callbacks != 0, 1 + a + b), tramp + 72);
      e3 == [SlotRela(img, tramp)] + (if opts.so then TlsRelas(tls, tramp) else [])
  {
    hide UniqueNames;
  }

  lemma EntryFilled(img: Image, opts: Options, tramp: nat)
    requires opts.so
    ensures var ys := Dynsym(img, opts, 0); var n := |ys| - 1;
      Dynsym(img, opts, tramp) == ys[n := ys[n].(value := tramp)]
  {
    hide UniqueNames, UndefinedSyms, StrOff;
  }

  /** Setting the offsets one after the other, wherever the placeholders are, gives the final relocations. */
  lemma RelasFilled(img: Image, opts: Options, tramp: nat)
    ensures var m, tls := |img.imports| + |img.relocs|, img.tls;
      var a, b := |TlsRela(tls.template, 0)|, |TlsRela(tls.index, 0)|;
      var r0 := SetOffset(PendingRelas(img, opts), m, tramp + 24);
      var r1 := SetOffset(r0, Position(opts.so && tls.template != 0, m + 1), tramp + 32);
      var r2 := SetOffset(r1, Position(opts.so && tls.index != 0, m + 1 + a), tramp + 64);
      var r3 := SetOffset(r2, Position(opts.so && tls.callbacks != 0, m + 1 + a + b), tramp + 72);
      |PendingRelas(img, opts)| > m && r3 == Relas(img, opts, tramp)
  {
    hide UniqueNames, ImportRelas, RelocRelas, SetOffset;
    var front := ImportRelas(img) + RelocRelas(img.relocs);
    var m, tls := |front|, img.tls;
    var a, b := |TlsRela(tls.template, 0)|, |TlsRela(tls.index, 0)|;
    var p0, p1, p2 := opts.so && tls.template != 0, opts.so && tls.index != 0, opts.so && tls.callbacks != 0;
    var e := PendingExtras(img, opts);
    var e0 := SetOffset(e, 0, tramp + 24);
    var e1 := SetOffset(e0, Position(p0, 1), tramp + 32);
    var e2 := SetOffset(e1, Position(p1, 1 + a), tramp + 64);
    ExtrasFilled(img, opts, tramp);
    SetPast(front, e, 0, tramp + 24);
    if p0 {
      SetPast(front, e0, 1, tramp + 32);
    } else {
      SetNothing(front + e0, tramp + 32);
      SetNothing(e0, tramp + 32);
    }
    if p1 {
      SetPast(front, e1, 1 + a, tramp + 64);
    } else {
      SetNothing(front + e1, tramp + 64);
      SetNothing(e1, tramp + 64);
    }
    if p2 {
      SetPast(front, e2, 1 + a + b, tramp + 72);
    } else {
      SetNothing(front + e2, tramp + 72);
      SetNothing(e2, tramp + 72);
    }
    RelasFront(img, opts, tramp);
  }

  lemma SetNothing(rs: seq<Rela>, at: nat)
    ensures SetOffset(rs, -1, at) == rs
  {
  }

  lemma RelasFront(img: Image, opts: Options, tramp: nat)
    ensures Relas(img, opts, tramp)
         == ImportRelas(img) + RelocRelas(img.relocs)
           + ([SlotRela(img, tramp)] + (if opts.so then TlsRelas(img.tls, tramp) else []))
  {
    hide ImportRelas, RelocRelas, SlotRela, TlsRelas;
    Assoc(ImportRelas(img) + RelocRelas(img.relocs), [SlotRela(img, tramp)], if opts.so then TlsRelas(img.tls,
        tramp) else []);
  }

  // ------------------------------------------------------------------------
  // Searches
  // ------------------------------------------------------------------------

  method ScanForRet(s: seq<byte>) returns (k: Option<nat>)
    ensures k == FirstRet(s)
  {
    var i := 0;
    while i < |s|
      invariant 0 <= i <= |s| && RET !in s[..i]
    {
      if s[i] == RET { return Some(i); }
      i := i + 1;
    }
    assert s[..i] == s;
    k := None;
  }

  /** The end of collect_imports: which sections hold slots. */
  method FindIatSections(secs: seq<Section>, imports: seq<Import>) returns (held: seq<int>)
    ensures held == IatSections(secs, imports)
  {
    held := [];
    var n := 0;
    assert imports[..0] == [];
    hide SectionOf;
    while n < |imports|
      invariant 0 <= n <= |imports| && held == IatSections(secs, imports[..n])
    {
      assert imports[..n + 1][..n] == imports[..n];
      var i := FindSection(secs, imports[n].iatRva);
      if i !in held { held := held + [i]; }
      n := n + 1;
    }
    assert imports[..n] == imports;
  }

  /** Every slot is in some section, as collect_imports sees to, and one that passes the 32-bit test of its end is
      whole in the section's data; otherwise the source would write past its copy. */
  ghost predicate SlotsSound(img: Image) {
    forall j :: 0 <= j < |img.imports| ==> SlotSound(img, img.imports[j].iatRva)
  }

  ghost predicate SlotSound(img: Image, rva: nat) {
    var i := SectionOf(img.secs, rva);
    i >= 0 && var off := rva - img.secs[i].va; (off + 8) % U32 <= img.secs[i].rawsz ==> off + 8 <= img.secs[i].rawsz
  }

  lemma {:induction false} HeldIn(secs: seq<Section>, imports: seq<Import>)
    requires forall j :: 0 <= j < |imports| ==> SectionOf(secs, imports[j].iatRva) >= 0
    ensures forall i :: i in IatSections(secs, imports) ==> 0 <= i < |secs|
  {
    if imports != [] { HeldIn(secs, imports[..|imports| - 1]); }
  }

  lemma SlottedMore(img: Image, j: nat, i: nat, k: nat)
    requires i < |img.secs| && j < |img.imports|
    ensures Slotted(img, j + 1, i, k) <==> Slotted(img, j, i, k) || SlotByte(img, img.imports[j], i, k)
  {
    hide SlotByte;
  }

  lemma RelroIn(img: Image, opts: Options)
    ensures RelroSection(img, opts).Some? ==> RelroSection(img, opts).value < |img.secs|
  {
  }

  lemma FirstPatched(img: Image, opts: Options, p: Plan, self: Phdr, ps: seq<Phdr>)
    requires |img.secs| == |p.secFoffs| && self == Phdr(PT_PHDR, PF_R, EHDR_SIZE, p.synthVa + EHDR_SIZE, 0, 0, 8)
    requires ps
         == [self] + [InterpPhdr(opts, p), SynthPhdr(p), DynamicPhdr(opts, p)] + SectionPhdrs(img, opts, p, |img.secs|)
                   + (RelroPhdrs(img, opts, p) + [StackPhdr(), HeaderPhdr(img, p)])
    ensures |ps| == PhdrCount(img, opts, p)
    ensures ps[0 := ps[0].(filesz := |ps| * PHDR_SIZE, memsz := |ps| * PHDR_SIZE)] == Phdrs(img, opts, p)
  {
    hide InterpPhdr, SynthPhdr, DynamicPhdr, StackPhdr, HeaderPhdr, RelroPhdrs, SectionPhdrs;
  }

  lemma PlacingSnoc(hs: seq<Named>, x: Named)
    ensures NamesOf(hs + [x]) == NamesOf(hs) + [x.name]
    ensures Placing(hs + [x]) == Placing(hs) + [x.header.(name := 1 + |Strings(NamesOf(hs))|)]
  {
    hide Strings;
    var more := hs + [x];
    assert NamesOf(more) == NamesOf(hs) + [x.name];
    assert NamesOf(more)[..|hs|] == NamesOf(hs);
    assert forall i :: 0 <= i < |hs| ==> NamesOf(more)[..i] == NamesOf(hs)[..i];
  }

  lemma ShdrsDone(img: Image, opts: Options, p: Plan, t: Tables, hs: seq<Named>)
    requires |img.secs| == |p.secFoffs| && hs == TableShdrs(img, opts, p) + SectionShdrs(img, p)
    requires var at := ShstrFoff(p, img.headers);
      t.Listed(hs + [Named(N_SHSTRTAB, Shdr(0, SHT_STRTAB, 0, p.synthVa + at, at, 0, 0, 0, 1, 0))])
    ensures t.shstrtab == Shstrtab(img, opts, p)
    ensures |t.shdrs| > 0
    ensures var ss := t.shdrs; ss[|ss| - 1 := ss[|ss| - 1].(size := |t.shstrtab|)] == Shdrs(img, opts, p)
  {
    hide Strings, TableShdrs, SectionShdrs, Placing, NamesOf;
    var at := ShstrFoff(p, img.headers);
    var bare := Named(N_SHSTRTAB, Shdr(0, SHT_STRTAB, 0, p.synthVa + at, at, 0, 0, 0, 1, 0));
    PlacingSnoc(hs, bare);
    PlacingSnoc(hs, StrtabShdr(p, |Shstrtab(img, opts, p)|, img.headers));
  }
}
