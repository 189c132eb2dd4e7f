/** The assumptions of the load theorem can all hold: a small image with a pointer, an import and a plan. */
module Witness {
  import opened Bytes
  import opened PeImage
  import opened PeLoader
  import opened Layout
  import opened Names
  import opened Build
  import opened Assemble
  import opened ElfLoader
  import opened FileReads
  import opened Segments
  import Exports
  import Entry

  /** Any headers, and then one section at 0x1000 of 16 zero bytes: a pointer and an import slot. */
  function Small(hdr: seq<byte>, name: Name): Image {
    Image(hdr + seq(16, _ => 0), [Section(0x1000, |hdr|, 16, 16, 0, name)], 0x1_4000_0000, 0x1000, |hdr|,
          [Import([0x6b], [0x66], 0x1008)], [Reloc(0x1_4000_1000, 0)], Tls(0, 0, 0, 0, 0, 0))
  }

  function Plain(strip: bool): Options { Options([0x2f], [0x73], [], false, strip, true, false) }

  lemma SmallSections(hdr: seq<byte>, name: Name)
    requires |hdr| <= 0x1000
    ensures var img := Small(hdr, name);
      && SectionsOk(img) && InSection(img, 0, 0x1000) && InSection(img, 0, 0x1008)
      && SitesOk(img, [0x1000]) && NamesOk(img)
  {
    var img := Small(hdr, name);
    assert SectionOk(img, img.secs[0]);
    assert InSection(img, 0, 0x1000) && InSection(img, 0, 0x1008);
    assert Apart8(0x1000, 0x1008);
  }

  lemma SmallRelocs(hdr: seq<byte>, name: Name)
    requires |hdr| <= 0x1000
    ensures RelocsOf(Small(hdr, name), [0x1000]) == Small(hdr, name).relocs
  {
    hide PointerSites, RelocsOf, Stored, SectionsOk, RvaToOffset, FromLe;
    var img := Small(hdr, name);
    SmallSections(hdr, name);
    SmallPointers(hdr, name);
    StoredAt(img, 0, 0x1000);
    assert img.buf[|hdr|..|hdr| + 8] == [0, 0, 0, 0, 0, 0, 0, 0];
    ZeroWord();
    RelocsAre(img, [0x1000]);
  }

  lemma SmallPointers(hdr: seq<byte>, name: Name)
    ensures PointerSites(Small(hdr, name).imports, [0x1000]) == [0x1000]
  {
    var imports := Small(hdr, name).imports;
    assert [0x1000][..0] == [] && PointerSites(imports, []) == [];
    assert !IsSlot(imports, 0x1000);
    assert PointerSites(imports, [0x1000]) == [] + [0x1000];
  }

  lemma SmallNames(hdr: seq<byte>, name: Name, strip: bool)
    ensures SymbolNames(Small(hdr, name), Plain(strip)) == [SymName([0x6b], [0x66]), REGISTER_TLS]
    ensures |SymName([0x6b], [0x66])| == 3
  {
    hide SymName;
    var imports := Small(hdr, name).imports;
    assert imports[..0] == [] && UniqueNames([]) == [];
    assert UniqueNames(imports) == [] + [NameOf(imports[0])];
    NameLength();
  }

  lemma NameLength()
    ensures |SymName([0x6b], [0x66])| == 3
  {
    assert DOT !in [0x6b];
  }

  lemma SmallDynstr(hdr: seq<byte>, name: Name, strip: bool)
    ensures |Dynstr(Small(hdr, name), Plain(strip))| == 33
  {
    hide SymName, UniqueNames;
    SmallNames(hdr, name, strip);
    var a := SymName([0x6b], [0x66]);
    var one: seq<Name>, names: seq<Name> := [a], [a, REGISTER_TLS];
    assert names[..1] == one && one[..0] == [];
    assert Strings([]) == [];
    assert Strings(one) == [] + a + [0];
    assert Strings(names) == Strings(one) + REGISTER_TLS + [0];
  }

  lemma SmallRoom(hdr: seq<byte>, name: Name, strip: bool)
    ensures var img, opts := Small(hdr, name), Plain(strip);
      !UsesFallback(img.base, SizesOf(img, opts)) && TablesFit(img, opts)
  {
    hide SymbolNames, Dynstr;
    SmallNames(hdr, name, strip);
    SmallDynstr(hdr, name, strip);
    var z := SizesOf(Small(hdr, name), Plain(strip));
    assert z == Sizes(2, 3, 33, 0, 3, 12);
    hide SizesOf;
    assert TablesSize(z) < 0x1000;
  }

  method SmallPlan(hdr: seq<byte>, name: Name, strip: bool) returns (p: Plan)
    requires |hdr| <= 0x1000
    ensures Convertible(Small(hdr, name), Plain(strip), p, [0x1000])
  {
    hide IsPlan, SectionsOk, SitesOk, TablesFit, NamesOk, UsesFallback, SizesOf, RelocsOf;
    var img, opts := Small(hdr, name), Plain(strip);
    SmallSections(hdr, name);
    SmallRelocs(hdr, name);
    SmallRoom(hdr, name, strip);
    p := ComputePlan(img.base, img.secs, SizesOf(img, opts));
    SmallBase(img, opts, p);
  }

  lemma SmallBase(img: Image, opts: Options, p: Plan)
    requires PlanFor(img, opts, p) && SectionsOk(img) && |img.secs| == 1 && !UsesFallback(img.base, SizesOf(img, opts))
    ensures p.synthEnd <= img.base
  {
    hide IsPlan, UsesFallback, SizesOf;
    SynthBelowBase(img.base, img.secs, SizesOf(img, opts), p);
  }

  // ------------------------------------------------------------------------
  // A pointer in a section that is dropped
  // ------------------------------------------------------------------------

  /** With its section named .pdata and --strip-pdata, the relocation of the pointer writes where nothing is mapped. */
  lemma StrippedTarget(hdr: seq<byte>, name: Name, p: Plan)
    requires |hdr| <= 0x1000 && PDATA <= name && Convertible(Small(hdr, name), Plain(true), p, [0x1000])
    ensures var img, opts := Small(hdr, name), Plain(true);
      && |img.secs| == |p.secFoffs| && |Relas(img, opts, p.tramp.va)| > 1
      && Relas(img, opts, p.tramp.va)[1].offset == img.base + 0x1000
      && !InWritable(Phdrs(img, opts, p), img.base + 0x1000)
      && forall q :: q in Phdrs(img, opts, p) ==> !Maps(q, img.base + 0x1000)
  {
    var img, opts := Small(hdr, name), Plain(true);
    SmallSections(hdr, name);
    SmallPointers(hdr, name);
    hide SectionsOk, SitesOk, Phdrs, PointerSites, Convertible, InWritable, Maps, Relas;
    DroppedTarget(img, opts, p, [0x1000], 0, 0);
  }

  // ------------------------------------------------------------------------
  // An entry point that the loader writes over
  // ------------------------------------------------------------------------

  /** Any headers, and then one executable section of 16 bytes; the only 0xC3 is in its import slot. */
  function Trap(hdr: seq<byte>): Image {
    Image(hdr + [0, 0, 0, 0, 0, 0, 0, 0, 0xC3, 0, 0, 0, 0, 0, 0, 0],
          [Section(0x1000, |hdr|, 16, 16, 0x6000_0000, [])], 0x1_4000_0000, 0x1000, |hdr|,
          [Import([0x6b], [0x66], 0x1008)], [], Tls(0, 0, 0, 0, 0, 0))
  }

  function SharedObject(): Options { Options([0x2f], [0x73], [], false, false, true, true) }

  lemma TrapSections(hdr: seq<byte>)
    requires |hdr| <= 0x1000
    ensures var img := Trap(hdr); SectionsOk(img) && SitesOk(img, []) && NamesOk(img) && RelocsOf(img, []) == []
  {
    var img := Trap(hdr);
    assert SectionOk(img, img.secs[0]);
    assert InSection(img, 0, 0x1008);
  }

  lemma TrapNames(hdr: seq<byte>)
    ensures SymbolNames(Trap(hdr), SharedObject()) == [SymName([0x6b], [0x66]), REGISTER_TLS, ENTRYPOINT]
  {
    hide SymName;
    var imports := Trap(hdr).imports;
    assert imports[..0] == [] && UniqueNames([]) == [];
    assert UniqueNames(imports) == [] + [NameOf(imports[0])];
  }

  lemma TrapDynstr(hdr: seq<byte>)
    ensures |Dynstr(Trap(hdr), SharedObject())| == 45
  {
    hide SymName, UniqueNames;
    TrapNames(hdr);
    NameLength();
    var a := SymName([0x6b], [0x66]);
    var one: seq<Name>, two: seq<Name>, names: seq<Name> := [a], [a, REGISTER_TLS], [a, REGISTER_TLS, ENTRYPOINT];
    assert names[..2] == two && two[..1] == one && one[..0] == [];
    assert Strings([]) == [];
    assert Strings(one) == [] + a + [0];
    assert Strings(two) == Strings(one) + REGISTER_TLS + [0];
    assert Strings(names) == Strings(two) + ENTRYPOINT + [0];
  }

  lemma TrapRoom(hdr: seq<byte>)
    ensures var img, opts := Trap(hdr), SharedObject();
      !UsesFallback(img.base, SizesOf(img, opts)) && TablesFit(img, opts)
  {
    hide SymbolNames, Dynstr, HashData, Dynsym;
    TrapNames(hdr);
    TrapDynstr(hdr);
    var img, opts := Trap(hdr), SharedObject();
    Exports.HashLength(img, opts);
    assert |Dynsym(img, opts, 0)| == 4;
    var z := SizesOf(img, opts);
    assert z == Sizes(2, 4, 45, 40, 2, 13);
    hide SizesOf;
    assert TablesSize(z) < 0x1000;
  }

  lemma Earlier(s: seq<byte>, i: nat, j: nat)
    requires i < |s| && j < |s|
    ensures i < j ==> s[i] in s[..j]
  {
    if i < j { assert s[..j][i] == s[i]; }
  }

  lemma TrapEntry(hdr: seq<byte>)
    ensures var img := Trap(hdr);
      && Entry.FirstReturn(img, 0, 0, 8) && SafeEntry(img, 0) == img.base + img.secs[0].va + 8
      && Entry.Rewritten(img, [], img.secs[0].va + 8)
  {
    var img := Trap(hdr);
    var s := img.secs[0];
    var data := InFile(img, s);
    assert data == [0, 0, 0, 0, 0, 0, 0, 0, 0xC3, 0, 0, 0, 0, 0, 0, 0];
    assert data[..8] == [0, 0, 0, 0, 0, 0, 0, 0];
    var r := FirstRet(data);
    hide FirstRet, InFile;
    assert 0xC3 in data by { assert data[8] == 0xC3; }
    assert r.Some?;
    Earlier(data, 8, r.value);
    Earlier(data, r.value, 8);
    assert r.value == 8;
    assert Covers(img.imports[0].iatRva, s.va + 8);
  }

  /** Converted with --so it meets every assumption, and its entry point is not safe: what the loader writes into the
      slot is there instead of the return. */
  method TrapPlan(hdr: seq<byte>) returns (p: Plan)
    requires |hdr| <= 0x1000
    ensures Convertible(Trap(hdr), SharedObject(), p, []) && |Trap(hdr).secs| == |p.secFoffs|
    ensures exists resolve: Name -> nat, bias: int ::
      !Entry.ReturnsAt(OutputFile(Trap(hdr), SharedObject(), p), bias, resolve)
  {
    hide IsPlan, SectionsOk, SitesOk, TablesFit, NamesOk, UsesFallback, SizesOf, RelocsOf, OutputFile, SafeEntry,
         Entry.ReturnsAt, Entry.FirstReturn, Entry.Rewritten, PointerSites;
    var img, opts := Trap(hdr), SharedObject();
    TrapSections(hdr);
    TrapRoom(hdr);
    p := ComputePlan(img.base, img.secs, SizesOf(img, opts));
    SmallBase(img, opts, p);
    TrapEntry(hdr);
    PlanSections2(img, opts, p, []);
    Entry.SafeEntryReturns(img, opts, p, [], 0, 8);
  }

  // ------------------------------------------------------------------------
  // Too many sections
  // ------------------------------------------------------------------------

  /** Section i: a page at 0x1000 (i + 1); the first has 103 pointers as its data, the others none. */
  function CrowdedSection(i: nat): Section {
    if i == 0 then Section(0x1000, 0x1000, 824, 0x1000, 0, []) else Section(0x1000 * (i + 1), 0, 0, 0x1000, 0, [])
  }

  function CrowdedSites(): (ps: seq<nat>)
    ensures |ps| == 103 && forall j :: 0 <= j < 103 ==> ps[j] == 0x1000 + 8 * j
  {
    seq(103, j requires 0 <= j => 0x1000 + 8 * j)
  }

  /** Any page of headers, and then the pointers. */
  function CrowdedBare(hdr: seq<byte>): Image {
    Image(hdr + seq(824, _ => 0), seq(87, i requires 0 <= i => CrowdedSection(i)), 0x1_4000_0000, 0x1000, |hdr|, [], [],
          Tls(0, 0, 0, 0, 0, 0))
  }

  /** An image of 87 sections, well-formed in every other way. */
  function Crowded(hdr: seq<byte>): Image {
    CrowdedBare(hdr).(relocs := RelocsOf(CrowdedBare(hdr), CrowdedSites()))
  }

  /** "/lib64/ld-linux-x86-64.so.2" and "winapi_shim.so" */
  function Defaults(): Options {
    Options([0x2f, 0x6c, 0x69, 0x62, 0x36, 0x34, 0x2f, 0x6c, 0x64, 0x2d, 0x6c, 0x69, 0x6e, 0x75, 0x78, 0x2d, 0x78, 0x38,
             0x36, 0x2d, 0x36, 0x34, 0x2e, 0x73, 0x6f, 0x2e, 0x32],
            [0x77, 0x69, 0x6e, 0x61, 0x70, 0x69, 0x5f, 0x73, 0x68, 0x69, 0x6d, 0x2e, 0x73, 0x6f],
            [], true, false, false, false)
  }

  lemma CrowdedSections(hdr: seq<byte>)
    requires |hdr| == 0x1000
    ensures SectionsOk(CrowdedBare(hdr)) && SitesOk(CrowdedBare(hdr), CrowdedSites())
  {
    var img, ps := CrowdedBare(hdr), CrowdedSites();
    forall i | 0 <= i < |img.secs| ensures SectionOk(img, img.secs[i]) { assert img.secs[i] == CrowdedSection(i); }
    forall i, j | 0 <= i < j < |img.secs| ensures SectionsApart(img.secs[i], img.secs[j]) {
      assert img.secs[i] == CrowdedSection(i) && img.secs[j] == CrowdedSection(j);
    }
    forall j | 0 <= j < |ps| ensures Inside(img, ps[j]) {
      assert img.secs[0] == CrowdedSection(0);
      assert InSection(img, 0, ps[j]);
    }
  }

  lemma {:induction false} AllPointers(sites: seq<nat>)
    ensures PointerSites([], sites) == sites
  {
    if sites != [] {
      var init, last := sites[..|sites| - 1], sites[|sites| - 1];
      AllPointers(init);
      assert !IsSlot([], last);
      assert sites == init + [last];
    }
  }

  lemma CrowdedRelocs(hdr: seq<byte>)
    requires |hdr| == 0x1000
    ensures |Crowded(hdr).relocs| == 103
  {
    hide SectionsOk, RelocsOf, PointerSites, Stored;
    CrowdedSections(hdr);
    RelocsAre(CrowdedBare(hdr), CrowdedSites());
    AllPointers(CrowdedSites());
  }

  lemma CrowdedSizes(hdr: seq<byte>)
    requires |hdr| == 0x1000
    ensures SizesOf(Crowded(hdr), Defaults()) == Sizes(28, 2, 42, 0, 104, 12)
  {
    CrowdedRelocs(hdr);
    hide RelocsOf;
    var img, opts := Crowded(hdr), Defaults();
    assert img.imports == [] && UniqueNames(img.imports) == [];
    assert SymbolNames(img, opts) == [REGISTER_TLS];
    var names: seq<Name> := [REGISTER_TLS];
    assert names[..0] == [] && Strings([]) == [];
    assert Strings(names) == [] + REGISTER_TLS + [0];
  }

  /** A well-formed image, converted with the default options, whose synthetic segment runs over its own base. */
  method CrowdedPlan(hdr: seq<byte>) returns (p: Plan)
    requires |hdr| == 0x1000
    ensures SectionsOk(Crowded(hdr)) && |Crowded(hdr).secs| == 87
    ensures PlanFor(Crowded(hdr), Defaults(), p) && !UsesFallback(Crowded(hdr).base, SizesOf(Crowded(hdr), Defaults()))
    ensures p.synthEnd > Crowded(hdr).base
  {
    hide IsPlan, SizesOf, RelocsOf, UsesFallback;
    CrowdedSections(hdr);
    p := ComputePlan(Crowded(hdr).base, Crowded(hdr).secs, SizesOf(Crowded(hdr), Defaults()));
    CrowdedSizes(hdr);
    SynthOverBase(Crowded(hdr).secs, p);
  }
}
