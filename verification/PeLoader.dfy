/** What loading a PE image at some distance from its preferred base does to memory: map the sections,
    add the distance at every DIR64 site, fill the import address table. The reference that the converted
    file is measured against. ".reloc Section" and ".idata Section" of the Microsoft PE format. */
module PeLoader {
  import opened Common
  import opened Bytes
  import opened PeImage

  // ------------------------------------------------------------------------
  // The loader
  // ------------------------------------------------------------------------

  /** Byte k of section i: file data, then zeros. */
  function RawByte(img: Image, i: nat, k: nat): byte
    requires i < |img.secs|
  {
    var s := img.secs[i];
    if k < s.rawsz && s.raw + k < |img.buf| then img.buf[s.raw + k] else 0
  }

  function MappedByte(img: Image, rva: nat): byte {
    var i := SectionOf(img.secs, rva);
    if i < 0 then 0 else RawByte(img, i, rva - img.secs[i].va)
  }

  predicate Covers(at: nat, rva: nat) { at <= rva < at + 8 }

  /** Memory after adding delta at the sites in order, reading each pointer as the earlier ones left it. */
  function RelocatedByte(img: Image, sites: seq<nat>, delta: int, rva: nat): byte
    decreases |sites|, 0
  {
    if sites == [] then MappedByte(img, rva)
    else
      var init, last := sites[..|sites| - 1], sites[|sites| - 1];
      if Covers(last, rva) then Le(8, (Pointer(img, init, delta, last) + delta) % U64)[rva - last]
      else RelocatedByte(img, init, delta, rva)
  }

  /** Eight bytes of memory. */
  function Window(img: Image, sites: seq<nat>, delta: int, at: nat): (w: seq<byte>)
    ensures |w| == 8 && forall d :: 0 <= d < 8 ==> w[d] == RelocatedByte(img, sites, delta, at + d)
    decreases |sites|, 1
  {
    [RelocatedByte(img, sites, delta, at), RelocatedByte(img, sites, delta, at + 1),
     RelocatedByte(img, sites, delta, at + 2), RelocatedByte(img, sites, delta, at + 3),
     RelocatedByte(img, sites, delta, at + 4), RelocatedByte(img, sites, delta, at + 5),
     RelocatedByte(img, sites, delta, at + 6), RelocatedByte(img, sites, delta, at + 7)]
  }

  function Pointer(img: Image, sites: seq<nat>, delta: int, at: nat): nat
    decreases |sites|, 2
  {
    FromLe(Window(img, sites, delta, at))
  }

  /** Memory after the import slots are filled in order. */
  function LoadedByte(img: Image, imports: seq<Import>, sites: seq<nat>, delta: int,
                      lookup: (seq<byte>, seq<byte>) -> nat, rva: nat): byte
    decreases |imports|
  {
    if imports == [] then RelocatedByte(img, sites, delta, rva)
    else
      var last := imports[|imports| - 1];
      if Covers(last.iatRva, rva) then Le(8, lookup(last.dll, last.func))[rva - last.iatRva]
      else LoadedByte(img, imports[..|imports| - 1], sites, delta, lookup, rva)
  }

  /** The memory of a loaded image, byte by byte. */
  function Memory(img: Image, sites: seq<nat>, delta: int, lookup: (seq<byte>, seq<byte>) -> nat, rva: nat): byte {
    LoadedByte(img, img.imports, sites, delta, lookup, rva)
  }

  // ------------------------------------------------------------------------
  // Well-formed images
  // ------------------------------------------------------------------------

  ghost predicate Apart8(a: nat, b: nat) { a + 8 <= b || b + 8 <= a }

  ghost predicate SectionOk(img: Image, s: Section) {
    && s.va % PAGE == 0 && s.va + Extent(s) < U32 && AlignUp(img.headers, PAGE) <= s.va
    && s.raw + s.rawsz <= |img.buf|
  }

  ghost predicate SectionsApart(a: Section, b: Section) {
    a.va + Extent(a) <= b.va || b.va + Extent(b) <= a.va
  }

  ghost predicate SectionsOk(img: Image) {
    && |img.buf| < U32 && img.headers < U32
    && img.base % PAGE == 0 && img.base + U32 <= U64
    && (forall i :: 0 <= i < |img.secs| ==> SectionOk(img, img.secs[i]))
    && (forall i, j :: 0 <= i < j < |img.secs| ==> SectionsApart(img.secs[i], img.secs[j]))
  }

  /** Eight bytes of raw data of section i. */
  ghost predicate InSection(img: Image, i: nat, at: nat) {
    i < |img.secs| && img.secs[i].va <= at && at + 8 <= img.secs[i].va + img.secs[i].rawsz
  }

  ghost predicate Inside(img: Image, at: nat) { exists i :: InSection(img, i, at) }

  ghost predicate SitesOk(img: Image, sites: seq<nat>) {
    && (forall i :: 0 <= i < |sites| ==> Inside(img, sites[i]))
    && (forall i, j :: 0 <= i < j < |sites| ==> Apart8(sites[i], sites[j]))
    && (forall i :: 0 <= i < |img.imports| ==> Inside(img, img.imports[i].iatRva))
    && (forall i, j :: 0 <= i < j < |img.imports| ==> Apart8(img.imports[i].iatRva, img.imports[j].iatRva))
    && (forall i, j :: 0 <= i < |sites| && 0 <= j < |img.imports| ==>
          sites[i] == img.imports[j].iatRva || Apart8(sites[i], img.imports[j].iatRva))
  }

  // ------------------------------------------------------------------------
  // Lookups in well-formed images
  // ------------------------------------------------------------------------

  lemma SectionIs(img: Image, i: nat, rva: nat)
    requires SectionsOk(img) && i < |img.secs| && img.secs[i].va <= rva < img.secs[i].va + Extent(img.secs[i])
    ensures SectionOf(img.secs, rva) == i
  {
    var j := SectionOf(img.secs, rva);
    assert SectionOk(img, img.secs[i]);
    assert Contains(img.secs[i], rva);
    assert j >= 0;
    assert SectionOk(img, img.secs[j]);
    assert j < i ==> SectionsApart(img.secs[j], img.secs[i]);
  }

  lemma {:induction false} OffsetSkips(secs: seq<Section>, rva: nat, i: nat)
    requires i < |secs| && InRawData(secs[i], rva) && forall j :: 0 <= j < i ==> !Contains(secs[j], rva)
    ensures RvaToOffset(secs, rva) == Some((secs[i].raw + (rva - secs[i].va)) % U32)
  {
    if i > 0 {
      assert !Contains(secs[0], rva);
      OffsetSkips(secs[1..], rva, i - 1);
    }
  }

  lemma OffsetIs(img: Image, i: nat, rva: nat)
    requires SectionsOk(img) && i < |img.secs| && img.secs[i].va <= rva < img.secs[i].va + img.secs[i].rawsz
    ensures RvaToOffset(img.secs, rva) == Some(img.secs[i].raw + (rva - img.secs[i].va))
    ensures img.secs[i].raw + (rva - img.secs[i].va) < |img.buf|
  {
    assert SectionOk(img, img.secs[i]);
    SectionIs(img, i, rva);
    OffsetSkips(img.secs, rva, i);
  }

  /** The pointer stored in the file at a site. */
  function Stored(img: Image, at: nat): nat {
    match RvaToOffset(img.secs, at)
    case None => 0
    case Some(off) => if off + 8 <= |img.buf| then Word(img.buf, off, 8) else 0
  }

  lemma MappedIs(img: Image, i: nat, k: nat)
    requires SectionsOk(img) && i < |img.secs| && k < Extent(img.secs[i])
    ensures MappedByte(img, img.secs[i].va + k) == RawByte(img, i, k)
  {
    SectionIs(img, i, img.secs[i].va + k);
  }

  lemma StoredAt(img: Image, i: nat, at: nat)
    requires SectionsOk(img) && InSection(img, i, at)
    ensures var off := img.secs[i].raw + (at - img.secs[i].va);
      off + 8 <= |img.buf| && RvaToOffset(img.secs, at) == Some(off) && Stored(img, at) == Word(img.buf, off, 8)
  {
    OffsetIs(img, i, at);
    OffsetIs(img, i, at + 7);
    hide RvaToOffset, SectionsOk;
  }

  lemma RawIs(img: Image, i: nat, at: nat, x: nat)
    requires SectionsOk(img) && InSection(img, i, at) && at <= x < at + 8
    ensures var off := img.secs[i].raw + (x - img.secs[i].va);
      off < |img.buf| && MappedByte(img, x) == img.buf[off]
  {
    OffsetIs(img, i, x);
    MappedIs(img, i, x - img.secs[i].va);
    hide RvaToOffset, SectionsOk, MappedByte;
  }

  /** A site's file bytes are what is mapped there. */
  lemma StoredBytes(img: Image, i: nat, at: nat)
    requires SectionsOk(img) && InSection(img, i, at)
    ensures var off := img.secs[i].raw + (at - img.secs[i].va);
      && off + 8 <= |img.buf| && Stored(img, at) == Word(img.buf, off, 8)
      && RvaToOffset(img.secs, at) == Some(off)
      && forall x :: at <= x < at + 8 ==> MappedByte(img, x) == img.buf[off + (x - at)]
  {
    StoredAt(img, i, at);
    hide MappedByte, RvaToOffset, SectionsOk;
    forall x | at <= x < at + 8
      ensures MappedByte(img, x) == img.buf[img.secs[i].raw + (at - img.secs[i].va) + (x - at)]
    {
      RawIs(img, i, at, x);
    }
  }

  // ------------------------------------------------------------------------
  // Closed form of the loaded memory
  // ------------------------------------------------------------------------

  ghost predicate Untouched(sites: seq<nat>, rva: nat) {
    forall j :: 0 <= j < |sites| ==> !Covers(sites[j], rva)
  }

  lemma {:induction false} RelocatedOutside(img: Image, sites: seq<nat>, delta: int, rva: nat)
    requires Untouched(sites, rva)
    ensures RelocatedByte(img, sites, delta, rva) == MappedByte(img, rva)
  {
    if sites != [] {
      assert !Covers(sites[|sites| - 1], rva);
      RelocatedOutside(img, sites[..|sites| - 1], delta, rva);
    }
  }

  ghost predicate AllApart(sites: seq<nat>) {
    forall i, j :: 0 <= i < j < |sites| ==> Apart8(sites[i], sites[j])
  }

  lemma PointerOutside(img: Image, sites: seq<nat>, delta: int, i: nat, at: nat)
    requires SectionsOk(img) && InSection(img, i, at) && forall j :: 0 <= j < |sites| ==> Apart8(sites[j], at)
    ensures Pointer(img, sites, delta, at) == Stored(img, at)
  {
    StoredBytes(img, i, at);
    var off := img.secs[i].raw + (at - img.secs[i].va);
    var b := img.buf[off..off + 8];
    hide RelocatedByte, MappedByte, RvaToOffset, SectionsOk, Window, FromLe;
    forall x | at <= x < at + 8
      ensures RelocatedByte(img, sites, delta, x) == b[x - at]
    {
      RelocatedOutside(img, sites, delta, x);
    }
    WindowIs(img, sites, delta, at, b);
  }

  lemma WindowIs(img: Image, sites: seq<nat>, delta: int, at: nat, b: seq<byte>)
    requires |b| == 8 && forall x :: at <= x < at + 8 ==> RelocatedByte(img, sites, delta, x) == b[x - at]
    ensures Window(img, sites, delta, at) == b
  {
    hide RelocatedByte;
    var w := Window(img, sites, delta, at);
    forall d | 0 <= d < 8 ensures w[d] == b[d] { assert RelocatedByte(img, sites, delta, at + d) == b[at + d - at]; }
  }

  /** At a site the loaded pointer is the stored one plus the distance, whatever the order of the sites. */
  lemma {:induction false} RelocatedAt(img: Image, sites: seq<nat>, delta: int, j: nat, rva: nat)
    requires SectionsOk(img) && AllApart(sites) && (forall k :: 0 <= k < |sites| ==> Inside(img, sites[k]))
    requires j < |sites| && Covers(sites[j], rva)
    ensures RelocatedByte(img, sites, delta, rva) == Le(8, (Stored(img, sites[j]) + delta) % U64)[rva - sites[j]]
  {
    hide SectionsOk, MappedByte, Stored, RvaToOffset;
    var n := |sites| - 1;
    var init := sites[..n];
    if j == n {
      PointerLast(img, sites, delta);
    } else {
      assert Apart8(sites[j], sites[n]);
      assert forall k :: 0 <= k < n ==> init[k] == sites[k];
      hide Pointer;
      RelocatedAt(img, init, delta, j, rva);
    }
  }

  lemma PointerLast(img: Image, sites: seq<nat>, delta: int)
    requires SectionsOk(img) && sites != [] && AllApart(sites) && Inside(img, sites[|sites| - 1])
    ensures Pointer(img, sites[..|sites| - 1], delta, sites[|sites| - 1]) == Stored(img, sites[|sites| - 1])
  {
    var n := |sites| - 1;
    var init, last := sites[..n], sites[n];
    var i: nat :| InSection(img, i, last);
    hide SectionsOk, Pointer, Stored;
    forall k | 0 <= k < |init| ensures Apart8(init[k], last) { assert Apart8(sites[k], sites[n]); }
    PointerOutside(img, init, delta, i, last);
  }

  lemma {:induction false} LoadedOutside(img: Image, imports: seq<Import>, sites: seq<nat>, delta: int,
                                         lookup: (seq<byte>, seq<byte>) -> nat, rva: nat)
    requires forall j :: 0 <= j < |imports| ==> !Covers(imports[j].iatRva, rva)
    ensures LoadedByte(img, imports, sites, delta, lookup, rva) == RelocatedByte(img, sites, delta, rva)
  {
    if imports != [] {
      assert !Covers(imports[|imports| - 1].iatRva, rva);
      LoadedOutside(img, imports[..|imports| - 1], sites, delta, lookup, rva);
    }
  }

  lemma {:induction false} LoadedAt(img: Image, imports: seq<Import>, sites: seq<nat>, delta: int,
                                    lookup: (seq<byte>, seq<byte>) -> nat, j: nat, rva: nat)
    requires j < |imports| && Covers(imports[j].iatRva, rva)
    requires forall a, b :: 0 <= a < b < |imports| ==> Apart8(imports[a].iatRva, imports[b].iatRva)
    ensures LoadedByte(img, imports, sites, delta, lookup, rva)
         == Le(8, lookup(imports[j].dll, imports[j].func))[rva - imports[j].iatRva]
  {
    var n := |imports| - 1;
    if j < n {
      assert Apart8(imports[j].iatRva, imports[n].iatRva);
      var init := imports[..n];
      assert forall k :: 0 <= k < n ==> init[k] == imports[k];
      LoadedAt(img, init, sites, delta, lookup, j, rva);
    }
  }

  // ------------------------------------------------------------------------
  // The sites that collect_relocs keeps
  // ------------------------------------------------------------------------

  ghost predicate IsSlot(imports: seq<Import>, rva: nat) {
    exists j :: 0 <= j < |imports| && imports[j].iatRva == rva
  }

  /** The sites that are not import slots. */
  ghost function PointerSites(imports: seq<Import>, sites: seq<nat>): seq<nat> {
    if sites == [] then []
    else
      var init, last := sites[..|sites| - 1], sites[|sites| - 1];
      PointerSites(imports, init) + (if IsSlot(imports, last) then [] else [last])
  }

  lemma {:induction false} PointerSitesFrom(imports: seq<Import>, sites: seq<nat>)
    ensures var ps := PointerSites(imports, sites);
      forall x :: x in ps <==> x in sites && !IsSlot(imports, x)
  {
    if sites != [] {
      var init, last := sites[..|sites| - 1], sites[|sites| - 1];
      PointerSitesFrom(imports, init);
      assert sites == init + [last];
    }
  }

  lemma {:induction false} PointerSitesApart(imports: seq<Import>, sites: seq<nat>)
    requires AllApart(sites)
    ensures AllApart(PointerSites(imports, sites))
  {
    if sites != [] {
      var n := |sites| - 1;
      var init, last := sites[..n], sites[n];
      assert forall k :: 0 <= k < n ==> init[k] == sites[k];
      PointerSitesApart(imports, init);
      PointerSitesFrom(imports, init);
      var ps := PointerSites(imports, init);
      forall k | 0 <= k < |ps| ensures Apart8(ps[k], last) {
        assert ps[k] in init;
        var j :| 0 <= j < n && sites[j] == ps[k];
        assert Apart8(sites[j], sites[n]);
      }
    }
  }

  ghost function RelocList(img: Image, ps: seq<nat>): (r: seq<Reloc>)
    ensures |r| == |ps|
    ensures forall i :: 0 <= i < |ps| ==> r[i] == Reloc(img.base + ps[i], Stored(img, ps[i]))
  {
    seq(|ps|, i requires 0 <= i < |ps| => Reloc(img.base + ps[i], Stored(img, ps[i])))
  }

  lemma SlotIsIat(img: Image, rva: nat)
    requires SectionsOk(img) && rva < U32 && forall j :: 0 <= j < |img.imports| ==> img.imports[j].iatRva < U32
    ensures (img.base + rva) % U64 == img.base + rva
    ensures IsIat(img.imports, img.base, (img.base + rva) % U64) <==> IsSlot(img.imports, rva)
  {
    assert forall j :: 0 <= j < |img.imports| ==>
      (img.base + img.imports[j].iatRva) % U64 == img.base + img.imports[j].iatRva;
  }

  lemma InsideBound(img: Image, at: nat)
    requires SectionsOk(img) && Inside(img, at)
    ensures at + 8 < U32
  {
    var i: nat :| InSection(img, i, at);
    assert SectionOk(img, img.secs[i]);
  }

  /** collect_relocs keeps exactly the sites that are not import slots, with what is stored there. */
  lemma {:induction false} RelocsAre(img: Image, sites: seq<nat>)
    requires SectionsOk(img) && (forall i :: 0 <= i < |sites| ==> Inside(img, sites[i]))
    requires forall j :: 0 <= j < |img.imports| ==> Inside(img, img.imports[j].iatRva)
    ensures RelocsOf(img, sites) == RelocList(img, PointerSites(img.imports, sites))
  {
    hide RelocAt, SectionsOk, RelocList, Inside, PointerSites, RelocsOf;
    if sites == [] {
      RelocsNone(img);
    } else {
      var n := |sites| - 1;
      var init, last := sites[..n], sites[n];
      assert forall k :: 0 <= k < n ==> init[k] == sites[k];
      RelocsAre(img, init);
      RelocIs(img, last);
      PointerSitesStep(img.imports, sites);
      RelocsStep(img, sites);
      RelocListSnoc(img, PointerSites(img.imports, init), last);
    }
  }

  lemma RelocsNone(img: Image)
    ensures RelocsOf(img, []) == RelocList(img, PointerSites(img.imports, []))
  {
  }

  lemma RelocListSnoc(img: Image, ps: seq<nat>, x: nat)
    ensures RelocList(img, ps + [x]) == RelocList(img, ps) + [Reloc(img.base + x, Stored(img, x))]
    ensures ps + [] == ps && RelocList(img, ps) + [] == RelocList(img, ps)
  {
    hide Stored;
  }

  lemma PointerSitesStep(imports: seq<Import>, sites: seq<nat>)
    requires sites != []
    ensures PointerSites(imports, sites) == PointerSites(imports, sites[..|sites| - 1])
      + (if IsSlot(imports, sites[|sites| - 1]) then [] else [sites[|sites| - 1]])
  {
  }

  lemma RelocsStep(img: Image, sites: seq<nat>)
    requires sites != []
    ensures RelocsOf(img, sites) == RelocsOf(img, sites[..|sites| - 1]) + RelocAt(img, sites[|sites| - 1])
  {
  }

  lemma RelocIs(img: Image, at: nat)
    requires SectionsOk(img) && Inside(img, at)
    requires forall j :: 0 <= j < |img.imports| ==> Inside(img, img.imports[j].iatRva)
    ensures RelocAt(img, at) == if IsSlot(img.imports, at) then [] else [Reloc(img.base + at, Stored(img, at))]
  {
    var i: nat :| InSection(img, i, at);
    StoredAt(img, i, at);
    InsideBound(img, at);
    forall j | 0 <= j < |img.imports| ensures img.imports[j].iatRva < U32 { InsideBound(img, img.imports[j].iatRva); }
    SlotIsIat(img, at);
  }

  /** The loaded memory in closed form: import slots, then pointers, then the mapped bytes. */
  lemma MemoryIs(img: Image, sites: seq<nat>, delta: int, lookup: (seq<byte>, seq<byte>) -> nat, rva: nat)
    requires SectionsOk(img) && SitesOk(img, sites)
    ensures var ps := PointerSites(img.imports, sites); var m := Memory(img, sites, delta, lookup, rva);
      && (forall j :: 0 <= j < |img.imports| && Covers(img.imports[j].iatRva, rva) ==>
            m == Le(8, lookup(img.imports[j].dll, img.imports[j].func))[rva - img.imports[j].iatRva])
      && ((forall j :: 0 <= j < |img.imports| ==> !Covers(img.imports[j].iatRva, rva)) ==>
            && (forall k :: 0 <= k < |ps| && Covers(ps[k], rva) ==>
                  m == Le(8, (Stored(img, ps[k]) + delta) % U64)[rva - ps[k]])
            && (Untouched(ps, rva) ==> m == MappedByte(img, rva)))
  {
    hide RelocatedByte, MappedByte, Stored, LoadedByte, PointerSites, Le;
    forall j | 0 <= j < |img.imports| && Covers(img.imports[j].iatRva, rva)
      ensures Memory(img, sites, delta, lookup, rva)
           == Le(8, lookup(img.imports[j].dll, img.imports[j].func))[rva - img.imports[j].iatRva]
    {
      LoadedAt(img, img.imports, sites, delta, lookup, j, rva);
    }
    if forall j :: 0 <= j < |img.imports| ==> !Covers(img.imports[j].iatRva, rva) {
      LoadedOutside(img, img.imports, sites, delta, lookup, rva);
      PointerSitesFrom(img.imports, sites);
      var ps := PointerSites(img.imports, sites);
      forall k | 0 <= k < |ps| && Covers(ps[k], rva)
        ensures RelocatedByte(img, sites, delta, rva) == Le(8, (Stored(img, ps[k]) + delta) % U64)[rva - ps[k]]
      {
        assert ps[k] in sites;
        var i :| 0 <= i < |sites| && sites[i] == ps[k];
        RelocatedAt(img, sites, delta, i, rva);
      }
      if Untouched(ps, rva) {
        forall i | 0 <= i < |sites| ensures !Covers(sites[i], rva) {
          if !IsSlot(img.imports, sites[i]) { assert sites[i] in ps; }
        }
        RelocatedOutside(img, sites, delta, rva);
      }
    }
  }

  /** The kept sites are inside raw data, apart from each other and from every import slot. */
  lemma PointerSitesOk(img: Image, sites: seq<nat>)
    requires SitesOk(img, sites)
    ensures var ps := PointerSites(img.imports, sites);
      && AllApart(ps) && (forall k :: 0 <= k < |ps| ==> Inside(img, ps[k]))
      && (forall k, j :: 0 <= k < |ps| && 0 <= j < |img.imports| ==> Apart8(ps[k], img.imports[j].iatRva))
  {
    PointerSitesApart(img.imports, sites);
    PointerSitesFrom(img.imports, sites);
    var ps := PointerSites(img.imports, sites);
    forall k | 0 <= k < |ps|
      ensures Inside(img, ps[k])
      ensures forall j :: 0 <= j < |img.imports| ==> Apart8(ps[k], img.imports[j].iatRva)
    {
      assert ps[k] in ps;
      var i :| 0 <= i < |sites| && sites[i] == ps[k];
      assert Inside(img, sites[i]);
    }
  }
}
