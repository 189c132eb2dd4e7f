/** The layout plan (elf_plan.hpp): where every part of the output goes, in the file and in memory. */
module Layout {
  import opened Bytes
  import opened ElfFormat
  import opened PeImage

  const TRAMPOLINE_SIZE: nat := 80
  const PHDRS_ASSUMED: nat := 20
  const SYNTH_MARGIN: nat := 0x10000
  const SYNTH_FALLBACK: nat := 0x20_0000

  /** What compute_plan is told about the tables: byte sizes and entry counts. */
  datatype Sizes = Sizes(interp: nat, syms: nat, dynstr: nat, hash: nat, relas: nat, dyns: nat)

  datatype Part = Part(va: nat, foff: nat)

  /** elf_foff of each section is kept here, next to the rest of the plan. */
  datatype Plan = Plan(synthVa: nat, synthEnd: nat, interp: Part, dynsym: Part, dynstr: Part, hash: Part, rela: Part,
                       dynamic: Part, tramp: Part, dataFoff: nat, secFoffs: seq<nat>, hdrFoff: nat)

  function TablesSize(z: Sizes): nat {
    AlignUp(z.interp, 8) + AlignUp(z.syms * SYM_SIZE, 8) + AlignUp(z.dynstr, 8) + AlignUp(z.hash, 8)
    + AlignUp(z.relas * RELA_SIZE, 8) + AlignUp(z.dyns * DYN_SIZE, 8)
  }

  /** The room kept free below the image base; it counts 20 program headers, however many there will be. */
  function SynthRoom(z: Sizes): nat {
    AlignUp(TablesSize(z) + TRAMPOLINE_SIZE + EHDR_SIZE + PHDRS_ASSUMED * PHDR_SIZE, PAGE)
  }

  function PhdrsMax(n: nat): nat { 4 + n + 2 + 1 }

  function HeadersEnd(n: nat): nat { AlignUp(EHDR_SIZE + PhdrsMax(n) * PHDR_SIZE, 8) }

  predicate UsesFallback(base: nat, z: Sizes) { base < SynthRoom(z) + SYNTH_MARGIN }

  function SynthVa(base: nat, z: Sizes): nat {
    if UsesFallback(base, z) then SYNTH_FALLBACK else (base - SynthRoom(z) - PAGE) / PAGE * PAGE
  }

  /** compute_plan: the running address and the running file offset, then the section offsets. */
  method ComputePlan(base: nat, secs: seq<Section>, z: Sizes) returns (p: Plan)
    ensures IsPlan(base, secs, z, p)
  {
    hide AlignUp, SectionsPlaced;
    var need := AlignUp(z.interp, 8) + AlignUp(z.syms * SYM_SIZE, 8) + AlignUp(z.dynstr, 8) + AlignUp(z.hash, 8)
      + AlignUp(z.relas * RELA_SIZE, 8) + AlignUp(z.dyns * DYN_SIZE, 8) + TRAMPOLINE_SIZE;
    need := AlignUp(need + EHDR_SIZE + PHDRS_ASSUMED * PHDR_SIZE, PAGE);
    var synth := if base < need + SYNTH_MARGIN then SYNTH_FALLBACK else (base - need - PAGE) / PAGE * PAGE;
    var end := HeadersEnd(|secs|);
    var va, foff := synth + end, end;
    var interp := Part(va, foff);
    va, foff := va + AlignUp(z.interp, 8), foff + AlignUp(z.interp, 8);
    var dynsym := Part(va, foff);
    va, foff := va + AlignUp(z.syms * SYM_SIZE, 8), foff + AlignUp(z.syms * SYM_SIZE, 8);
    var dynstr := Part(va, foff);
    va, foff := va + AlignUp(z.dynstr, 8), foff + AlignUp(z.dynstr, 8);
    var hash := Part(va, foff);
    va, foff := va + AlignUp(z.hash, 8), foff + AlignUp(z.hash, 8);
    var rela := Part(va, foff);
    va, foff := va + AlignUp(z.relas * RELA_SIZE, 8), foff + AlignUp(z.relas * RELA_SIZE, 8);
    var dynamic := Part(va, foff);
    va, foff := va + AlignUp(z.dyns * DYN_SIZE, 8), foff + AlignUp(z.dyns * DYN_SIZE, 8);
    var tramp := Part(va, foff);
    va, foff := va + TRAMPOLINE_SIZE, foff + TRAMPOLINE_SIZE;
    var data := AlignUp(foff, PAGE);
    var offs, hdr := PlaceSections(secs, data);
    p := Plan(synth, AlignUp(va, PAGE), interp, dynsym, dynstr, hash, rela, dynamic, tramp, data, offs, hdr);
  }

  method PlaceSections(secs: seq<Section>, start: nat) returns (offs: seq<nat>, end: nat)
    ensures SectionsPlaced(secs, start, offs, end)
  {
    offs, end := [], start;
    var i := 0;
    while i < |secs|
      invariant 0 <= i <= |secs| && |offs| == i && end == NextFoff(secs[..i], start)
      invariant forall j :: 0 <= j < i ==> offs[j] == NextFoff(secs[..j], start)
    {
      assert secs[..i + 1][..i] == secs[..i];
      offs := offs + [end];
      end := AlignUp(end + secs[i].rawsz, PAGE);
      i := i + 1;
    }
    assert secs[..i] == secs;
  }

  // ------------------------------------------------------------------------
  // What a plan is
  // ------------------------------------------------------------------------

  /** A part that starts past content of the given size placed at `at`, eight-byte aligned. */
  predicate Follows(at: Part, size: nat, next: Part) {
    next.foff == at.foff + AlignUp(size, 8) && next.va - at.va == next.foff - at.foff
  }

  /** The first page past the data of all these sections, placed one after the other from start. */
  function NextFoff(secs: seq<Section>, start: nat): nat {
    if secs == [] then start else AlignUp(NextFoff(secs[..|secs| - 1], start) + secs[|secs| - 1].rawsz, PAGE)
  }

  predicate SectionsPlaced(secs: seq<Section>, start: nat, offs: seq<nat>, end: nat) {
    && |offs| == |secs| && end == NextFoff(secs, start)
    && forall i :: 0 <= i < |offs| ==> offs[i] == NextFoff(secs[..i], start)
  }

  predicate IsPlan(base: nat, secs: seq<Section>, z: Sizes, p: Plan) {
    && p.synthVa == SynthVa(base, z)
    && p.interp == Part(p.synthVa + HeadersEnd(|secs|), HeadersEnd(|secs|))
    && Follows(p.interp, z.interp, p.dynsym)
    && Follows(p.dynsym, z.syms * SYM_SIZE, p.dynstr)
    && Follows(p.dynstr, z.dynstr, p.hash)
    && Follows(p.hash, z.hash, p.rela)
    && Follows(p.rela, z.relas * RELA_SIZE, p.dynamic)
    && Follows(p.dynamic, z.dyns * DYN_SIZE, p.tramp)
    && p.synthEnd == AlignUp(p.tramp.va + TRAMPOLINE_SIZE, PAGE)
    && p.dataFoff == AlignUp(p.tramp.foff + TRAMPOLINE_SIZE, PAGE)
    && SectionsPlaced(secs, p.dataFoff, p.secFoffs, p.hdrFoff)
  }

  // ------------------------------------------------------------------------
  // Properties of every plan
  // ------------------------------------------------------------------------

  ghost predicate Shadow(synth: nat, q: Part) { q.va == synth + q.foff && q.foff % 8 == 0 }

  lemma FollowsShadow(synth: nat, at: Part, size: nat, next: Part)
    requires Shadow(synth, at) && Follows(at, size, next)
    ensures Shadow(synth, next) && at.foff + size <= next.foff
  {
    hide AlignUp;
  }

  lemma SynthOnPage(base: nat, z: Sizes)
    ensures SynthVa(base, z) % PAGE == 0
  {
    hide SynthRoom;
  }

  lemma HeadersAligned(n: nat)
    ensures HeadersEnd(n) % 8 == 0
  {
  }

  /** In memory the synthetic parts keep their file offsets, from a page boundary on. */
  lemma AddressesFollowOffsets(base: nat, secs: seq<Section>, z: Sizes, p: Plan)
    requires IsPlan(base, secs, z, p)
    ensures p.synthVa % PAGE == 0
    ensures Shadow(p.synthVa, p.interp) && Shadow(p.synthVa, p.dynsym) && Shadow(p.synthVa, p.dynstr)
    ensures Shadow(p.synthVa, p.hash) && Shadow(p.synthVa, p.rela) && Shadow(p.synthVa, p.dynamic)
    ensures Shadow(p.synthVa, p.tramp)
  {
    hide SectionsPlaced, Follows, AlignUp, SynthVa, HeadersEnd;
    SynthOnPage(base, z);
    HeadersAligned(|secs|);
    FollowsShadow(p.synthVa, p.interp, z.interp, p.dynsym);
    FollowsShadow(p.synthVa, p.dynsym, z.syms * SYM_SIZE, p.dynstr);
    FollowsShadow(p.synthVa, p.dynstr, z.dynstr, p.hash);
    FollowsShadow(p.synthVa, p.hash, z.hash, p.rela);
    FollowsShadow(p.synthVa, p.rela, z.relas * RELA_SIZE, p.dynamic);
    FollowsShadow(p.synthVa, p.dynamic, z.dyns * DYN_SIZE, p.tramp);
  }

  /** No part starts before the content planned for the part ahead of it ends. */
  lemma PartsInOrder(base: nat, secs: seq<Section>, z: Sizes, p: Plan)
    requires IsPlan(base, secs, z, p)
    ensures EHDR_SIZE + PhdrsMax(|secs|) * PHDR_SIZE <= p.interp.foff
    ensures p.interp.foff + z.interp <= p.dynsym.foff && p.dynsym.foff + z.syms * SYM_SIZE <= p.dynstr.foff
    ensures p.dynstr.foff + z.dynstr <= p.hash.foff && p.hash.foff + z.hash <= p.rela.foff
    ensures p.rela.foff + z.relas * RELA_SIZE <= p.dynamic.foff && p.dynamic.foff + z.dyns * DYN_SIZE <= p.tramp.foff
    ensures p.tramp.foff + TRAMPOLINE_SIZE <= p.dataFoff <= p.hdrFoff && p.dataFoff % PAGE == 0
    ensures z.hash == 0 ==> p.hash.foff == p.rela.foff
  {
    hide AlignUp, NextFoff;
    assert z.hash == 0 ==> AlignUp(z.hash, 8) == 0;
    FoffsGrow(secs, p.dataFoff, 0);
    assert secs[..0] == [];
    NoSections(p.dataFoff);
  }

  lemma NoSections(start: nat)
    ensures NextFoff([], start) == start
  {
  }

  lemma {:induction false} FoffsGrow(secs: seq<Section>, start: nat, i: nat)
    requires i <= |secs|
    ensures NextFoff(secs[..i], start) <= NextFoff(secs, start)
    ensures i < |secs| ==> NextFoff(secs[..i], start) + secs[i].rawsz <= NextFoff(secs, start)
    ensures start % PAGE == 0 ==> NextFoff(secs, start) % PAGE == 0
  {
    if i == |secs| {
      assert secs[..i] == secs;
      if secs != [] { FoffsGrow(secs[..i - 1], start, i - 1); }
    } else {
      var init := secs[..|secs| - 1];
      assert init[..i] == secs[..i];
      FoffsGrow(init, start, i);
    }
  }

  /** Section data is placed in order, on page boundaries, before the headers. */
  lemma SectionsInOrder(base: nat, secs: seq<Section>, z: Sizes, p: Plan, i: nat)
    requires IsPlan(base, secs, z, p) && i < |secs|
    ensures p.dataFoff <= p.secFoffs[i] && p.secFoffs[i] + secs[i].rawsz <= p.hdrFoff
    ensures p.secFoffs[i] % PAGE == 0 && p.hdrFoff % PAGE == 0
    ensures forall j :: i < j < |secs| ==> p.secFoffs[i] + secs[i].rawsz <= p.secFoffs[j]
  {
    PartsInOrder(base, secs, z, p);
    hide AlignUp, NextFoff, Follows;
    NoSections(p.dataFoff);
    assert secs[..i][..0] == [];
    FoffsGrow(secs[..i], p.dataFoff, 0);
    FoffsGrow(secs[..i], p.dataFoff, i);
    FoffsGrow(secs, p.dataFoff, i);
    forall j | i < j < |secs| ensures p.secFoffs[i] + secs[i].rawsz <= p.secFoffs[j] {
      assert secs[..j][..i] == secs[..i] && secs[..j][i] == secs[i];
      FoffsGrow(secs[..j], p.dataFoff, i);
    }
  }

  /** The file stays below 2^64 bytes. */
  lemma {:induction false} FoffsBounded(secs: seq<Section>, start: nat)
    requires forall i :: 0 <= i < |secs| ==> secs[i].rawsz < U32
    ensures NextFoff(secs, start) <= start + |secs| * 0x2_0000_0000
  {
    if secs != [] {
      var init := secs[..|secs| - 1];
      assert forall i :: 0 <= i < |init| ==> init[i] == secs[i];
      FoffsBounded(init, start);
      hide AlignUp;
    }
  }

  /** How far the synthetic segment reaches. */
  lemma TrampolineAt(base: nat, secs: seq<Section>, z: Sizes, p: Plan)
    requires IsPlan(base, secs, z, p)
    ensures p.tramp.foff == HeadersEnd(|secs|) + TablesSize(z)
  {
    hide AlignUp, SectionsPlaced;
  }

  lemma HeadersEndIs(n: nat)
    ensures HeadersEnd(n) == 456 + 56 * n
  {
    assert EHDR_SIZE + PhdrsMax(n) * PHDR_SIZE == 8 * (57 + 7 * n);
    assert (8 * (57 + 7 * n) + 7) / 8 == 57 + 7 * n;
  }

  lemma PagesFit(base: nat, room: nat, synth: nat, used: nat)
    requires base % PAGE == 0 && room % PAGE == 0 && room + PAGE <= base && synth == (base - room - PAGE) / PAGE * PAGE
    ensures synth == base - room - PAGE
    ensures AlignUp(synth + used, PAGE) <= base <==> used <= room + PAGE
  {
    assert (base - room - PAGE) % PAGE == 0;
    var x := synth + used;
    if x <= base {
      assert AlignUp(x, PAGE) < base + PAGE;
    }
  }

  /** Outside the fallback, the segment ends at or below the image base exactly when the program headers that
      were not counted fit the rounding and the spare page; up to 86 sections they always do. */
  lemma SynthBelowBase(base: nat, secs: seq<Section>, z: Sizes, p: Plan)
    requires IsPlan(base, secs, z, p) && base % PAGE == 0 && !UsesFallback(base, z)
    ensures p.synthEnd <= base <==> 456 + 56 * |secs| + TablesSize(z) + TRAMPOLINE_SIZE <= SynthRoom(z) + PAGE
    ensures |secs| <= 86 ==> p.synthEnd <= base
  {
    AddressesFollowOffsets(base, secs, z, p);
    TrampolineAt(base, secs, z, p);
    HeadersEndIs(|secs|);
    hide TablesSize, AlignUp, Follows, SectionsPlaced, HeadersEnd;
    PagesFit(base, SynthRoom(z), p.synthVa, p.tramp.foff + TRAMPOLINE_SIZE);
  }

  /** With 87 sections the segment can run over the image base. These are the sizes for the default options, no imports
      and 103 relocations. */
  lemma SynthOverBase(secs: seq<Section>, p: Plan)
    requires |secs| == 87 && IsPlan(0x1_4000_0000, secs, Sizes(28, 2, 42, 0, 104, 12), p)
    ensures !UsesFallback(0x1_4000_0000, Sizes(28, 2, 42, 0, 104, 12)) && p.synthEnd > 0x1_4000_0000
  {
    hide IsPlan, TablesSize, SynthRoom;
    var z := Sizes(28, 2, 42, 0, 104, 12);
    DefaultSizes();
    SynthBelowBase(0x1_4000_0000, secs, z, p);
  }

  lemma DefaultSizes()
    ensures TablesSize(Sizes(28, 2, 42, 0, 104, 12)) == 2816 && SynthRoom(Sizes(28, 2, 42, 0, 104, 12)) == 4096
  {
    var z := Sizes(28, 2, 42, 0, 104, 12);
    assert Up8(28) == 32 && Up8(48) == 48 && Up8(42) == 48 && Up8(0) == 0;
    assert Up8(2496) == 2496 && Up8(192) == 192;
    assert UpPage(4080) == 4096;
    hide Up8, UpPage;
  }
}
