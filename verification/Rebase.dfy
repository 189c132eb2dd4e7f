/** Patching the relocations in the file against running them at load time (pe_image.hpp, PeImage::rebase): when the two
    give the same memory. */
module Rebase {
  import opened Common
  import opened Bytes
  import opened PeImage
  import opened PeLoader

  /** Where a site's bytes are in the file. */
  ghost function FileOff(img: Image, at: nat): nat {
    match RvaToOffset(img.secs, at)
    case None => 0
    case Some(off) => off
  }

  ghost predicate AllInside(img: Image, ps: seq<nat>) {
    forall k :: 0 <= k < |ps| ==> Inside(img, ps[k])
  }

  ghost predicate InSite(img: Image, at: nat, o: nat) { FileOff(img, at) <= o < FileOff(img, at) + 8 }

  lemma SiteOffIs(img: Image, at: nat)
    requires SectionsOk(img) && Inside(img, at)
    ensures FileOff(img, at) + 8 <= |img.buf|
    ensures SiteOffset(img.secs, img.base, Reloc(img.base + at, Stored(img, at)), |img.buf|) == Some(FileOff(img, at))
    ensures Stored(img, at) == Word(img.buf, FileOff(img, at), 8)
  {
    var i: nat :| InSection(img, i, at);
    StoredAt(img, i, at);
    InsideBound(img, at);
    hide SectionsOk, Stored;
    assert (img.base + at - img.base) % U32 == at;
  }

  lemma StoredFits(img: Image, at: nat)
    requires SectionsOk(img) && Inside(img, at)
    ensures Stored(img, at) < U64
    ensures FileOff(img, at) + 8 <= |img.buf|
    ensures Le(8, Stored(img, at)) == img.buf[FileOff(img, at)..FileOff(img, at) + 8]
  {
    SiteOffIs(img, at);
    var f := FileOff(img, at);
    hide SectionsOk, Stored, FileOff, SiteOffset;
    LeOfFromLe(img.buf[f..f + 8]);
    Pow256Widths();
  }

  // ------------------------------------------------------------------------
  // The patched file
  // ------------------------------------------------------------------------

  /** How many of the sites have their bytes at file offset f. */
  ghost function Count(img: Image, ps: seq<nat>, f: nat): nat {
    if ps == [] then 0 else Count(img, ps[..|ps| - 1], f) + (if FileOff(img, ps[|ps| - 1]) == f then 1 else 0)
  }

  /** Two sites have the same file bytes or none in common. */
  ghost predicate NoStraddle(img: Image, ps: seq<nat>) {
    forall j, k :: 0 <= j < |ps| && 0 <= k < |ps| ==> SameOrApart(img, ps[j], ps[k])
  }

  ghost predicate SameOrApart(img: Image, a: nat, b: nat) {
    FileOff(img, a) == FileOff(img, b) || Apart8(FileOff(img, a), FileOff(img, b))
  }

  /** A site patched m times. */
  ghost function Moved(img: Image, at: nat, m: nat, delta: int): nat { (Stored(img, at) + m * delta) % U64 }

  ghost predicate PatchedSite(img: Image, at: nat, m: nat, delta: int, b: seq<byte>) {
    && FileOff(img, at) + 8 <= |b|
    && b[FileOff(img, at)..FileOff(img, at) + 8] == Le(8, Moved(img, at, m, delta))
  }

  /** Each site's bytes moved by delta as often as a site has them, every other byte as it was. */
  ghost predicate PatchedFile(img: Image, ps: seq<nat>, delta: int, b: seq<byte>) {
    && |b| == |img.buf|
    && (forall k :: 0 <= k < |ps| ==> PatchedSite(img, ps[k], Count(img, ps, FileOff(img, ps[k])), delta, b))
    && (forall o :: 0 <= o < |b| && (forall k :: 0 <= k < |ps| ==> !InSite(img, ps[k], o)) ==> b[o] == img.buf[o])
  }

  lemma {:induction false} CountNone(img: Image, ps: seq<nat>, f: nat)
    ensures Count(img, ps, f) == 0 <==> forall k :: 0 <= k < |ps| ==> FileOff(img, ps[k]) != f
  {
    hide FileOff;
    if ps != [] {
      var init, last := ps[..|ps| - 1], ps[|ps| - 1];
      CountNone(img, init, f);
      assert ps == init + [last];
      if Count(img, init, f) == 0 {
        assert forall k :: 0 <= k < |init| ==> ps[k] == init[k];
      } else {
        var k :| 0 <= k < |init| && FileOff(img, init[k]) == f;
        assert FileOff(img, ps[k]) == f;
      }
    }
  }

  lemma CountMore(img: Image, ps: seq<nat>, at: nat, f: nat)
    ensures Count(img, ps + [at], f) == Count(img, ps, f) + (if FileOff(img, at) == f then 1 else 0)
  {
    assert (ps + [at])[..|ps|] == ps;
  }

  lemma OnceMore(s: nat, m: nat, delta: int)
    ensures ((s + m * delta) % U64 + delta) % U64 == (s + (m + 1) * delta) % U64
  {
    var x := s + m * delta;
    assert x + delta == s + (m + 1) * delta;
    AddAfterMod(x, delta);
  }

  lemma AddAfterMod(x: int, y: int)
    ensures (x % U64 + y) % U64 == (x + y) % U64
  {
  }

  lemma SameStored(img: Image, a: nat, b: nat)
    requires SectionsOk(img) && Inside(img, a) && Inside(img, b) && FileOff(img, a) == FileOff(img, b)
    ensures Stored(img, a) == Stored(img, b)
  {
    SiteOffIs(img, a);
    SiteOffIs(img, b);
  }

  lemma WordOfLe(b: seq<byte>, f: nat, v: nat)
    requires f + 8 <= |b| && v < U64 && b[f..f + 8] == Le(8, v)
    ensures Word(b, f, 8) == v
  {
    Pow256Widths();
    FromLeOfLe(8, v);
  }

  /** The word that patching a site finds: what the sites before it with the same bytes have left. */
  lemma WordSoFar(img: Image, ps: seq<nat>, delta: int, b: seq<byte>, at: nat)
    requires SectionsOk(img) && Inside(img, at) && AllInside(img, ps) && PatchedFile(img, ps, delta, b)
    requires forall k :: 0 <= k < |ps| ==> SameOrApart(img, ps[k], at)
    ensures FileOff(img, at) + 8 <= |b|
    ensures Word(b, FileOff(img, at), 8) == Moved(img, at, Count(img, ps, FileOff(img, at)), delta)
  {
    hide Stored, FileOff, PatchedSite, SiteOffset, SectionsOk, Inside, Count;
    SiteOffIs(img, at);
    var f := FileOff(img, at);
    CountNone(img, ps, f);
    if k :| 0 <= k < |ps| && FileOff(img, ps[k]) == f {
      WordAgain(img, ps, delta, b, at, k);
    } else {
      forall o | f <= o < f + 8 ensures b[o] == img.buf[o] {
        assert forall k :: 0 <= k < |ps| ==> SameOrApart(img, ps[k], at) ==> !InSite(img, ps[k], o);
      }
      assert b[f..f + 8] == img.buf[f..f + 8];
      StoredFits(img, at);
    }
  }

  lemma WordAgain(img: Image, ps: seq<nat>, delta: int, b: seq<byte>, at: nat, k: nat)
    requires SectionsOk(img) && Inside(img, at) && AllInside(img, ps) && PatchedFile(img, ps, delta, b)
    requires k < |ps| && FileOff(img, ps[k]) == FileOff(img, at)
    ensures FileOff(img, at) + 8 <= |b|
    ensures Word(b, FileOff(img, at), 8) == Moved(img, at, Count(img, ps, FileOff(img, at)), delta)
  {
    hide Stored, FileOff, SectionsOk, Inside, Count, Le, FromLe;
    assert Inside(img, ps[k]);
    SameStored(img, ps[k], at);
    var f := FileOff(img, at);
    assert PatchedSite(img, ps[k], Count(img, ps, f), delta, b);
    WordOfLe(b, f, Moved(img, at, Count(img, ps, f), delta));
  }

  lemma PatchOne(img: Image, ps: seq<nat>, delta: int, b: seq<byte>, at: nat)
    requires SectionsOk(img) && Inside(img, at) && AllInside(img, ps) && PatchedFile(img, ps, delta, b)
    requires forall k :: 0 <= k < |ps| ==> SameOrApart(img, ps[k], at)
    ensures FileOff(img, at) + 8 <= |b|
    ensures PatchedFile(img, ps + [at], delta, Patch(b, FileOff(img, at), (Word(b, FileOff(img, at), 8) + delta) % U64))
  {
    hide Le, FromLe, Stored, Inside, FileOff, SectionsOk, Count, Word, PatchedSite;
    WordSoFar(img, ps, delta, b, at);
    var f := FileOff(img, at);
    var m := Count(img, ps, f);
    OnceMore(Stored(img, at), m, delta);
    var v := Moved(img, at, m + 1, delta);
    var c := Patch(b, f, v);
    assert c[f..f + 8] == Le(8, v);
    var qs := ps + [at];
    forall k | 0 <= k < |qs| ensures PatchedSite(img, qs[k], Count(img, qs, FileOff(img, qs[k])), delta, c) {
      CountMore(img, ps, at, FileOff(img, qs[k]));
      if k < |ps| {
        assert Inside(img, ps[k]) && SameOrApart(img, ps[k], at);
        assert PatchedSite(img, ps[k], Count(img, ps, FileOff(img, ps[k])), delta, b);
        if FileOff(img, ps[k]) == f { SameStored(img, ps[k], at); }
        SiteAfter(img, ps[k], Count(img, ps, FileOff(img, ps[k])), delta, b, f, v, m);
      } else {
        PatchedHere(img, at, m + 1, delta, c);
      }
    }
    forall o | 0 <= o < |c| && forall k :: 0 <= k < |qs| ==> !InSite(img, qs[k], o) ensures c[o] == img.buf[o] {
      assert !InSite(img, qs[|ps|], o);
      forall k | 0 <= k < |ps| ensures !InSite(img, ps[k], o) { assert qs[k] == ps[k]; }
    }
  }

  lemma PatchedHere(img: Image, at: nat, m: nat, delta: int, c: seq<byte>)
    requires FileOff(img, at) + 8 <= |c| && c[FileOff(img, at)..FileOff(img, at) + 8] == Le(8, Moved(img, at, m, delta))
    ensures PatchedSite(img, at, m, delta, c)
  {
  }

  /** An earlier site after one more patch: moved again if it has the same bytes, untouched if it has none of them. */
  lemma SiteAfter(img: Image, q: nat, n: nat, delta: int, b: seq<byte>, f: nat, v: nat, m: nat)
    requires PatchedSite(img, q, n, delta, b) && f + 8 <= |b| && (FileOff(img, q) == f || Apart8(FileOff(img, q), f))
    requires FileOff(img, q) == f ==> n == m && v == Moved(img, q, m + 1, delta)
    ensures PatchedSite(img, q, if FileOff(img, q) == f then n + 1 else n, delta, Patch(b, f, v))
  {
    hide Le, Stored, FileOff;
    var g, c := FileOff(img, q), Patch(b, f, v);
    if g == f { assert c[f..f + 8] == Le(8, v); } else { assert c[g..g + 8] == b[g..g + 8]; }
  }

  lemma PatchedSnoc(img: Image, init: seq<nat>, last: nat, delta: int)
    requires SectionsOk(img) && Inside(img, last)
    requires Patched(img.buf, img.secs, img.base, RelocList(img, init), delta).Some?
    ensures FileOff(img, last) + 8 <= |img.buf|
    ensures var b := Patched(img.buf, img.secs, img.base, RelocList(img, init), delta).value;
      var f := FileOff(img, last);
      Patched(img.buf, img.secs, img.base, RelocList(img, init + [last]), delta)
      == Some(Patch(b, f, (Word(b, f, 8) + delta) % U64))
  {
    hide SectionsOk, Stored, Inside, SiteOffset, Patch, FileOff, Word, RelocList;
    RelocListSnoc(img, init, last);
    SiteOffIs(img, last);
    var rs := RelocList(img, init) + [Reloc(img.base + last, Stored(img, last))];
    var n := |rs| - 1;
    assert rs[..n] == RelocList(img, init) && rs[n] == Reloc(img.base + last, Stored(img, last));
  }

  lemma PatchedNone(img: Image, delta: int)
    ensures Patched(img.buf, img.secs, img.base, RelocList(img, []), delta) == Some(img.buf)
    ensures PatchedFile(img, [], delta, img.buf)
  {
  }

  /** The file that the patches leave, computed from the input alone. */
  ghost function PatchedData(img: Image, ps: seq<nat>, delta: int): (b: seq<byte>)
    ensures |b| == |img.buf|
  {
    match Patched(img.buf, img.secs, img.base, RelocList(img, ps), delta)
    case None => img.buf
    case Some(b) => b
  }

  /** Patching never fails on sites inside raw data. */
  lemma {:induction false} PatchedSome(img: Image, ps: seq<nat>, delta: int)
    requires SectionsOk(img) && AllInside(img, ps)
    ensures Patched(img.buf, img.secs, img.base, RelocList(img, ps), delta) == Some(PatchedData(img, ps, delta))
  {
    hide SectionsOk, Inside, Patch, FileOff, Patched, Word, RelocList, Stored;
    if ps == [] {
      PatchedNone(img, delta);
    } else {
      var n := |ps| - 1;
      assert forall k :: 0 <= k < n ==> ps[..n][k] == ps[k];
      PatchedSome(img, ps[..n], delta);
      assert ps == ps[..n] + [ps[n]];
      assert Inside(img, ps[n]);
      PatchedSnoc(img, ps[..n], ps[n], delta);
    }
  }

  lemma PatchSame(b: seq<byte>, f: nat)
    requires f + 8 <= |b|
    ensures Patch(b, f, (Word(b, f, 8) + 0) % U64) == b
  {
    Pow256Widths();
    LeOfFromLe(b[f..f + 8]);
    hide Le, FromLe;
    assert forall i :: f <= i < f + 8 ==> b[f..f + 8][i - f] == b[i];
  }

  /** Moving by nothing changes nothing. */
  lemma {:induction false} PatchedByZero(img: Image, ps: seq<nat>)
    requires SectionsOk(img) && AllInside(img, ps)
    ensures PatchedData(img, ps, 0) == img.buf
  {
    hide SectionsOk, Inside, Patch, FileOff, Patched, Word, RelocList, Stored;
    if ps == [] {
      PatchedNone(img, 0);
    } else {
      var n := |ps| - 1;
      assert forall k :: 0 <= k < n ==> ps[..n][k] == ps[k];
      PatchedByZero(img, ps[..n]);
      PatchedSome(img, ps[..n], 0);
      assert ps == ps[..n] + [ps[n]];
      assert Inside(img, ps[n]);
      PatchedSnoc(img, ps[..n], ps[n], 0);
      PatchSame(img.buf, FileOff(img, ps[n]));
    }
  }

  /** Where no two windows straddle, the patches leave the file described above. */
  lemma {:induction false} PatchedIs(img: Image, ps: seq<nat>, delta: int)
    requires SectionsOk(img) && AllInside(img, ps) && NoStraddle(img, ps)
    ensures PatchedFile(img, ps, delta, PatchedData(img, ps, delta))
  {
    hide SectionsOk, Stored, Inside, Patch, FileOff, PatchedFile, Patched, Word, RelocList, SameOrApart;
    if ps == [] {
      PatchedNone(img, delta);
    } else {
      var n := |ps| - 1;
      var init, last := ps[..n], ps[n];
      assert forall k :: 0 <= k < n ==> init[k] == ps[k];
      PatchedIs(img, init, delta);
      assert ps == init + [last];
      assert Inside(img, ps[n]);
      assert AllInside(img, init);
      forall k | 0 <= k < n ensures SameOrApart(img, init[k], last) { assert SameOrApart(img, ps[k], ps[n]); }
      PatchedSome(img, init, delta);
      PatchedSnoc(img, init, last, delta);
      PatchOne(img, init, delta, PatchedData(img, init, delta), last);
    }
  }

  // ------------------------------------------------------------------------
  // One byte
  // ------------------------------------------------------------------------

  ghost predicate InSlot(img: Image, rva: nat) {
    exists j :: 0 <= j < |img.imports| && Covers(img.imports[j].iatRva, rva)
  }

  /** The file byte under byte k of section i is what loading wants: the site's moved byte, or the original one. */
  ghost predicate RightByte(img: Image, ps: seq<nat>, delta: int, b: seq<byte>, i: nat, k: nat) {
    && i < |img.secs| && |b| == |img.buf| && img.secs[i].raw + k < |b|
    && var rva, x := img.secs[i].va + k, b[img.secs[i].raw + k];
    && (forall j :: 0 <= j < |ps| && Covers(ps[j], rva) ==> x == Le(8, Moved(img, ps[j], 1, delta))[rva - ps[j]])
    && (Untouched(ps, rva) ==> x == img.buf[img.secs[i].raw + k])
  }

  /** Byte k of section i comes out right: it is in an import slot, or past the file's data, or patched to what loading
      wants there. */
  ghost predicate ByteFine(img: Image, ps: seq<nat>, delta: int, i: nat, k: nat) {
    i < |img.secs| && (InSlot(img, img.secs[i].va + k) || k >= img.secs[i].rawsz
                       || RightByte(img, ps, delta, PatchedData(img, ps, delta), i, k))
  }

  /** Byte k of section i is file data of the site at `at`. */
  ghost predicate Shares(img: Image, at: nat, i: nat, k: nat) {
    i < |img.secs| && k < img.secs[i].rawsz && InSite(img, at, img.secs[i].raw + k)
  }

  /** A byte that a site covers is in the site's section, and is its file data. */
  lemma SiteByte(img: Image, at: nat, i: nat, k: nat)
    requires SectionsOk(img) && Inside(img, at) && i < |img.secs| && k < Extent(img.secs[i])
    requires Covers(at, img.secs[i].va + k)
    ensures InSection(img, i, at) && Shares(img, at, i, k)
    ensures FileOff(img, at) == img.secs[i].raw + (at - img.secs[i].va)
  {
    var j: nat :| InSection(img, j, at);
    StoredAt(img, j, at);
    SectionIs(img, i, img.secs[i].va + k);
    SectionIs(img, j, img.secs[i].va + k);
  }

  lemma RawMapped(img: Image, b: seq<byte>, i: nat, k: nat)
    requires SectionsOk(img) && |b| == |img.buf| && i < |img.secs| && k < Extent(img.secs[i])
    ensures var s := img.secs[i];
      MappedByte(img.(buf := b), s.va + k) == if k < s.rawsz then (if s.raw + k < |b| then b[s.raw + k] else 0) else 0
  {
    SectionIs(img, i, img.secs[i].va + k);
    hide SectionsOk;
  }

  lemma RelocatedNone(img: Image, rva: nat)
    ensures RelocatedByte(img, [], 0, rva) == MappedByte(img, rva)
  {
  }

  lemma SlotAgrees(img: Image, sites: seq<nat>, delta: int, b: seq<byte>, lookup: (seq<byte>, seq<byte>) -> nat,
                   rva: nat)
    requires SectionsOk(img) && SitesOk(img, sites) && InSlot(img, rva)
    ensures LoadedByte(img.(buf := b), img.imports, [], 0, lookup, rva) == Memory(img, sites, delta, lookup, rva)
  {
    var j :| 0 <= j < |img.imports| && Covers(img.imports[j].iatRva, rva);
    hide SectionsOk, LoadedByte, RelocatedByte;
    LoadedAt(img.(buf := b), img.imports, [], 0, lookup, j, rva);
    LoadedAt(img, img.imports, sites, delta, lookup, j, rva);
  }

  /** Any file of the same length loads as the original relocated exactly where its data is right. */
  lemma AnyFileAgrees(img: Image, sites: seq<nat>, delta: int, b: seq<byte>, lookup: (seq<byte>, seq<byte>) -> nat,
                      i: nat, k: nat)
    requires SectionsOk(img) && SitesOk(img, sites) && |b| == |img.buf| && i < |img.secs| && k < Extent(img.secs[i])
    ensures var rva := img.secs[i].va + k;
      (LoadedByte(img.(buf := b), img.imports, [], 0, lookup, rva) == Memory(img, sites, delta, lookup, rva))
      <==> InSlot(img, rva) || k >= img.secs[i].rawsz
           || RightByte(img, PointerSites(img.imports, sites), delta, b, i, k)
  {
    hide SitesOk, PointerSites, Memory, LoadedByte, MappedByte, Stored, Le;
    var rva, ps := img.secs[i].va + k, PointerSites(img.imports, sites);
    assert SectionOk(img, img.secs[i]);
    hide SectionsOk;
    if InSlot(img, rva) {
      SlotAgrees(img, sites, delta, b, lookup, rva);
    } else {
      LoadedOutside(img.(buf := b), img.imports, [], 0, lookup, rva);
      RelocatedNone(img.(buf := b), rva);
      RawMapped(img, b, i, k);
      RawMapped(img, img.buf, i, k);
      assert img.(buf := img.buf) == img;
      MemoryIs(img, sites, delta, lookup, rva);
      if k >= img.secs[i].rawsz { PastSites(img, sites, i, k); }
    }
  }

  lemma PastSites(img: Image, sites: seq<nat>, i: nat, k: nat)
    requires SectionsOk(img) && SitesOk(img, sites) && i < |img.secs| && img.secs[i].rawsz <= k < Extent(img.secs[i])
    ensures Untouched(PointerSites(img.imports, sites), img.secs[i].va + k)
  {
    hide SectionsOk, SitesOk, PointerSites, Inside, Shares, FileOff;
    var ps := PointerSites(img.imports, sites);
    PointerSitesOk(img, sites);
    forall j | 0 <= j < |ps| ensures !Covers(ps[j], img.secs[i].va + k) {
      assert Inside(img, ps[j]);
      if Covers(ps[j], img.secs[i].va + k) { SiteByte(img, ps[j], i, k); }
    }
  }

  /** The base does not matter to what is mapped, nor the distance when nothing is relocated. */
  lemma {:induction false} SlotsOnly(a: Image, b: Image, imports: seq<Import>, d: int,
                                     lookup: (seq<byte>, seq<byte>) -> nat, rva: nat)
    requires a.secs == b.secs && a.buf == b.buf
    ensures LoadedByte(a, imports, [], d, lookup, rva) == LoadedByte(b, imports, [], 0, lookup, rva)
  {
    if imports != [] { SlotsOnly(a, b, imports[..|imports| - 1], d, lookup, rva); }
  }

  lemma SectionHolds(img: Image, rva: nat)
    requires SectionsOk(img) && SectionOf(img.secs, rva) >= 0
    ensures var s := img.secs[SectionOf(img.secs, rva)]; s.va <= rva < s.va + Extent(s)
  {
    assert SectionOk(img, img.secs[SectionOf(img.secs, rva)]);
  }

  // ------------------------------------------------------------------------
  // The law
  // ------------------------------------------------------------------------

  /** What rebase leaves behind, however the windows lie. */
  lemma RebasedIs(img: Image, sites: seq<nat>, newBase: nat)
    requires SectionsOk(img) && SitesOk(img, sites) && img.relocs == RelocsOf(img, sites)
    ensures Rebased(img, newBase).Some? <==> newBase == img.base || img.relocs != []
    ensures Rebased(img, newBase).Some? ==>
      var b := PatchedData(img, PointerSites(img.imports, sites), newBase - img.base);
      Rebased(img, newBase).value == img.(buf := b, base := newBase, relocs := [])
  {
    hide SectionsOk, PatchedData, Patched, PointerSites, RelocsOf, Inside;
    var ps := PointerSites(img.imports, sites);
    RelocsAre(img, sites);
    PointerSitesOk(img, sites);
    assert AllInside(img, ps);
    hide SitesOk;
    PatchedSome(img, ps, newBase - img.base);
    PatchedByZero(img, ps);
  }

  /** Byte by byte: the rebased image loaded as it stands, at any distance, and the original relocated to the new base
      agree exactly at the fine bytes. */
  lemma RebasedByte(img: Image, sites: seq<nat>, newBase: nat, r: Image, d: int, lookup: (seq<byte>, seq<byte>) -> nat,
                    i: nat, k: nat)
    requires SectionsOk(img) && SitesOk(img, sites) && img.relocs == RelocsOf(img, sites)
    requires Rebased(img, newBase) == Some(r) && i < |img.secs| && k < Extent(img.secs[i])
    ensures var rva := img.secs[i].va + k;
      (Memory(r, [], d, lookup, rva) == Memory(img, sites, newBase - img.base, lookup, rva))
      <==> ByteFine(img, PointerSites(img.imports, sites), newBase - img.base, i, k)
  {
    hide SectionsOk, SitesOk, PatchedData, PointerSites, LoadedByte, RelocsOf, RightByte, Rebased, InSlot;
    RebasedIs(img, sites, newBase);
    AnyFileAgrees(img, sites, newBase - img.base, r.buf, lookup, i, k);
    SlotsOnly(r, img.(buf := r.buf), img.imports, d, lookup, img.secs[i].va + k);
  }

  /** rebase succeeds exactly when there is nothing to move or something to move it with. The result loaded as it stands
      is, at every section byte, the original loaded at the new base if and only if every byte is fine. */
  lemma RebaseIsLoad(img: Image, sites: seq<nat>, newBase: nat, lookup: (seq<byte>, seq<byte>) -> nat)
    requires SectionsOk(img) && SitesOk(img, sites) && img.relocs == RelocsOf(img, sites)
    ensures Rebased(img, newBase).Some? <==> newBase == img.base || img.relocs != []
    ensures Rebased(img, newBase).Some? ==>
      var r := Rebased(img, newBase).value; var ps := PointerSites(img.imports, sites);
      && r.buf == PatchedData(img, ps, newBase - img.base)
      && ((forall rva: nat :: SectionOf(img.secs, rva) >= 0 ==>
             Memory(r, [], 0, lookup, rva) == Memory(img, sites, newBase - img.base, lookup, rva))
          <==> AllFine(img, ps, newBase - img.base))
  {
    hide SectionsOk, SitesOk, PatchedData, PointerSites, Memory, RelocsOf, ByteFine, Rebased;
    var ps, delta := PointerSites(img.imports, sites), newBase - img.base;
    RebasedIs(img, sites, newBase);
    if Rebased(img, newBase).Some? {
      var r := Rebased(img, newBase).value;
      if AllFine(img, ps, delta) {
        forall rva: nat | SectionOf(img.secs, rva) >= 0
          ensures Memory(r, [], 0, lookup, rva) == Memory(img, sites, delta, lookup, rva)
        {
          FineAgrees(img, sites, newBase, r, lookup, rva);
        }
      }
      if forall rva: nat :: SectionOf(img.secs, rva) >= 0 ==>
           Memory(r, [], 0, lookup, rva) == Memory(img, sites, delta, lookup, rva)
      {
        AgreesFine(img, sites, newBase, r, lookup);
      }
    }
  }

  lemma FineAgrees(img: Image, sites: seq<nat>, newBase: nat, r: Image, lookup: (seq<byte>, seq<byte>) -> nat, rva: nat)
    requires SectionsOk(img) && SitesOk(img, sites) && img.relocs == RelocsOf(img, sites)
    requires Rebased(img, newBase) == Some(r)
    requires SectionOf(img.secs, rva) >= 0 && AllFine(img, PointerSites(img.imports, sites), newBase - img.base)
    ensures Memory(r, [], 0, lookup, rva) == Memory(img, sites, newBase - img.base, lookup, rva)
  {
    hide SectionsOk, SitesOk, PointerSites, Memory, RelocsOf, ByteFine, Rebased;
    var i := SectionOf(img.secs, rva);
    SectionHolds(img, rva);
    assert InData(img, i, rva - img.secs[i].va);
    assert ByteFine(img, PointerSites(img.imports, sites), newBase - img.base, i, rva - img.secs[i].va);
    RebasedByte(img, sites, newBase, r, 0, lookup, i, rva - img.secs[i].va);
  }

  lemma AgreesFine(img: Image, sites: seq<nat>, newBase: nat, r: Image, lookup: (seq<byte>, seq<byte>) -> nat)
    requires SectionsOk(img) && SitesOk(img, sites) && img.relocs == RelocsOf(img, sites)
    requires Rebased(img, newBase) == Some(r)
    requires forall rva: nat :: SectionOf(img.secs, rva) >= 0 ==>
      Memory(r, [], 0, lookup, rva) == Memory(img, sites, newBase - img.base, lookup, rva)
    ensures AllFine(img, PointerSites(img.imports, sites), newBase - img.base)
  {
    hide SectionsOk, SitesOk, PointerSites, Memory, RelocsOf, ByteFine, Rebased;
    forall i: nat, k: nat | InData(img, i, k)
      ensures ByteFine(img, PointerSites(img.imports, sites), newBase - img.base, i, k)
    {
      SectionIs(img, i, img.secs[i].va + k);
      RebasedByte(img, sites, newBase, r, 0, lookup, i, k);
    }
  }

  ghost predicate InData(img: Image, i: nat, k: nat) { i < |img.secs| && k < Extent(img.secs[i]) }

  ghost predicate AllFine(img: Image, ps: seq<nat>, delta: int) {
    forall i: nat, k: nat {:trigger ByteFine(img, ps, delta, i, k)} ::
      InData(img, i, k) ==> ByteFine(img, ps, delta, i, k)
  }

  // ------------------------------------------------------------------------
  // Windows that do not straddle
  // ------------------------------------------------------------------------

  /** What the patches have made of byte k of section i, which is file data of the site at `at`. */
  ghost function PatchedByte(img: Image, ps: seq<nat>, delta: int, at: nat, i: nat, k: nat): byte
    requires Shares(img, at, i, k)
  {
    Le(8, Moved(img, at, Count(img, ps, FileOff(img, at)), delta))[img.secs[i].raw + k - FileOff(img, at)]
  }

  /** What loading gives there: moved once if some site covers the byte, unmoved if none does. */
  ghost function WantedByte(img: Image, ps: seq<nat>, delta: int, at: nat, i: nat, k: nat): byte
    requires Shares(img, at, i, k)
  {
    Le(8, Moved(img, at, if Untouched(ps, img.secs[i].va + k) then 0 else 1, delta))[img.secs[i].raw + k - FileOff(img,
        at)]
  }

  /** Byte k of section i is no site's file data, or in an import slot, or moved as often as loading moves it. */
  ghost predicate WindowFine(img: Image, ps: seq<nat>, delta: int, i: nat, k: nat) {
    InSlot(img, if i < |img.secs| then img.secs[i].va + k else 0) ||
    forall j :: 0 <= j < |ps| && Shares(img, ps[j], i, k) ==>
      PatchedByte(img, ps, delta, ps[j], i, k) == WantedByte(img, ps, delta, ps[j], i, k)
  }

  /** The file byte under byte k of section i after patching. */
  lemma FileByte(img: Image, ps: seq<nat>, delta: int, b: seq<byte>, i: nat, k: nat)
    requires SectionsOk(img) && PatchedFile(img, ps, delta, b) && i < |img.secs| && k < img.secs[i].rawsz
    ensures img.secs[i].raw + k < |b|
    ensures forall j :: 0 <= j < |ps| && Shares(img, ps[j], i, k) ==>
      b[img.secs[i].raw + k] == PatchedByte(img, ps, delta, ps[j], i, k)
    ensures (forall j :: 0 <= j < |ps| ==> !Shares(img, ps[j], i, k)) ==>
      b[img.secs[i].raw + k] == img.buf[img.secs[i].raw + k]
  {
    hide Le, Stored, FileOff, Count, Moved;
    assert SectionOk(img, img.secs[i]);
    hide SectionsOk;
    var o := img.secs[i].raw + k;
    forall j | 0 <= j < |ps| && Shares(img, ps[j], i, k) ensures b[o] == PatchedByte(img, ps, delta, ps[j], i, k) {
      var f := FileOff(img, ps[j]);
      assert PatchedSite(img, ps[j], Count(img, ps, f), delta, b);
      assert b[f..f + 8][o - f] == b[o];
    }
    if forall j :: 0 <= j < |ps| ==> !Shares(img, ps[j], i, k) {
      forall j | 0 <= j < |ps| ensures !InSite(img, ps[j], o) { assert !Shares(img, ps[j], i, k); }
    }
  }

  /** A shared byte's original value is the site's own stored byte. */
  lemma SharedByte(img: Image, at: nat, i: nat, k: nat)
    requires SectionsOk(img) && Inside(img, at) && Shares(img, at, i, k)
    ensures img.secs[i].raw + k < |img.buf|
    ensures Le(8, Moved(img, at, 0, 0))[img.secs[i].raw + k - FileOff(img, at)] == img.buf[img.secs[i].raw + k]
    ensures forall delta :: Moved(img, at, 0, delta) == Moved(img, at, 0, 0)
  {
    hide SectionsOk, Inside, Stored, FileOff, Le;
    StoredFits(img, at);
    var f, o := FileOff(img, at), img.secs[i].raw + k;
    assert Moved(img, at, 0, 0) == Stored(img, at);
    assert forall delta :: Moved(img, at, 0, delta) == Stored(img, at);
    assert img.buf[f..f + 8][o - f] == img.buf[o];
  }

  /** What loading at a distance gives at a byte outside the slots, in terms of a site whose file data it is. */
  lemma LoadedShared(img: Image, sites: seq<nat>, delta: int, lookup: (seq<byte>, seq<byte>) -> nat, i: nat, k: nat,
                     j: nat)
    requires SectionsOk(img) && SitesOk(img, sites) && NoStraddle(img, PointerSites(img.imports, sites))
    requires i < |img.secs| && k < Extent(img.secs[i]) && !InSlot(img, img.secs[i].va + k)
    requires j < |PointerSites(img.imports, sites)| && Shares(img, PointerSites(img.imports, sites)[j], i, k)
    ensures var ps := PointerSites(img.imports, sites);
      Memory(img, sites, delta, lookup, img.secs[i].va + k) == WantedByte(img, ps, delta, ps[j], i, k)
  {
    hide SectionsOk, SitesOk, PointerSites, Memory, Stored, FileOff, Inside, Le, MappedByte;
    var rva, ps := img.secs[i].va + k, PointerSites(img.imports, sites);
    MemoryIs(img, sites, delta, lookup, rva);
    PointerSitesOk(img, sites);
    assert Inside(img, ps[j]);
    if Untouched(ps, rva) {
      SharedByte(img, ps[j], i, k);
      RawMapped(img, img.buf, i, k);
      assert img.(buf := img.buf) == img;
    } else {
      var c :| 0 <= c < |ps| && Covers(ps[c], rva);
      assert Inside(img, ps[c]);
      SiteByte(img, ps[c], i, k);
      assert SameOrApart(img, ps[c], ps[j]);
      SameStored(img, ps[c], ps[j]);
    }
  }

  /** A byte that is no site's file data is no site's byte: loading leaves it alone. */
  lemma LoadedUnshared(img: Image, sites: seq<nat>, delta: int, lookup: (seq<byte>, seq<byte>) -> nat, i: nat, k: nat)
    requires SectionsOk(img) && SitesOk(img, sites)
    requires i < |img.secs| && k < Extent(img.secs[i]) && !InSlot(img, img.secs[i].va + k)
    requires var ps := PointerSites(img.imports, sites); forall j :: 0 <= j < |ps| ==> !Shares(img, ps[j], i, k)
    ensures Memory(img, sites, delta, lookup, img.secs[i].va + k) == MappedByte(img, img.secs[i].va + k)
  {
    hide SectionsOk, SitesOk, PointerSites, Memory, Stored, FileOff, Inside, Le, MappedByte, Shares;
    var rva, ps := img.secs[i].va + k, PointerSites(img.imports, sites);
    MemoryIs(img, sites, delta, lookup, rva);
    PointerSitesOk(img, sites);
    forall j | 0 <= j < |ps| ensures !Covers(ps[j], rva) {
      assert Inside(img, ps[j]) && !Shares(img, ps[j], i, k);
      if Covers(ps[j], rva) { SiteByte(img, ps[j], i, k); }
    }
  }

  /** Loading the patched file as it stands and relocating the original agree at a byte exactly when it is fine. */
  lemma ByteAgrees(img: Image, sites: seq<nat>, delta: int, b: seq<byte>, lookup: (seq<byte>, seq<byte>) -> nat, i: nat,
                   k: nat)
    requires SectionsOk(img) && SitesOk(img, sites) && NoStraddle(img, PointerSites(img.imports, sites))
    requires PatchedFile(img, PointerSites(img.imports, sites), delta, b) && i < |img.secs| && k < Extent(img.secs[i])
    ensures var rva := img.secs[i].va + k;
      (LoadedByte(img.(buf := b), img.imports, [], 0, lookup, rva) == Memory(img, sites, delta, lookup, rva))
      <==> WindowFine(img, PointerSites(img.imports, sites), delta, i, k)
  {
    hide SectionsOk, SitesOk, PointerSites, PatchedFile, Memory, LoadedByte, MappedByte, Shares, PatchedByte,
         WantedByte, NoStraddle;
    var rva, ps := img.secs[i].va + k, PointerSites(img.imports, sites);
    if InSlot(img, rva) {
      SlotAgrees(img, sites, delta, b, lookup, rva);
    } else {
      LoadedOutside(img.(buf := b), img.imports, [], 0, lookup, rva);
      RelocatedNone(img.(buf := b), rva);
      PatchedLength(img, ps, delta, b);
      RawMapped(img, b, i, k);
      if k < img.secs[i].rawsz { FileByte(img, ps, delta, b, i, k); }
      if j :| 0 <= j < |ps| && Shares(img, ps[j], i, k) {
        SharesRaw(img, ps[j], i, k);
        FineOne(img, sites, delta, lookup, i, k, j, b);
      } else {
        LoadedUnshared(img, sites, delta, lookup, i, k);
        RawMapped(img, img.buf, i, k);
        assert img.(buf := img.buf) == img;
      }
    }
  }

  lemma PatchedLength(img: Image, ps: seq<nat>, delta: int, b: seq<byte>)
    requires PatchedFile(img, ps, delta, b)
    ensures |b| == |img.buf|
  {
  }

  lemma SharesRaw(img: Image, at: nat, i: nat, k: nat)
    requires Shares(img, at, i, k)
    ensures i < |img.secs| && k < img.secs[i].rawsz
  {
  }

  /** Among the sites that share a byte, one speaks for all. */
  lemma FineOne(img: Image, sites: seq<nat>, delta: int, lookup: (seq<byte>, seq<byte>) -> nat, i: nat, k: nat, j: nat,
                b: seq<byte>)
    requires SectionsOk(img) && SitesOk(img, sites) && NoStraddle(img, PointerSites(img.imports, sites))
    requires PatchedFile(img, PointerSites(img.imports, sites), delta, b)
    requires i < |img.secs| && k < img.secs[i].rawsz && !InSlot(img, img.secs[i].va + k)
    requires j < |PointerSites(img.imports, sites)| && Shares(img, PointerSites(img.imports, sites)[j], i, k)
    ensures img.secs[i].raw + k < |b|
    ensures WindowFine(img, PointerSites(img.imports, sites), delta, i, k)
      <==> b[img.secs[i].raw + k] == Memory(img, sites, delta, lookup, img.secs[i].va + k)
  {
    hide SectionsOk, SitesOk, PointerSites, PatchedFile, Memory, Shares, PatchedByte, WantedByte, NoStraddle;
    var ps := PointerSites(img.imports, sites);
    FileByte(img, ps, delta, b, i, k);
    forall c | 0 <= c < |ps| && Shares(img, ps[c], i, k)
      ensures Memory(img, sites, delta, lookup, img.secs[i].va + k) == WantedByte(img, ps, delta, ps[c], i, k)
    {
      LoadedShared(img, sites, delta, lookup, i, k, c);
    }
  }

  /** So where no two windows straddle, a byte is fine exactly when the sites that share its file data move it as often
      as loading does. */
  lemma FineIs(img: Image, sites: seq<nat>, delta: int, i: nat, k: nat)
    requires SectionsOk(img) && SitesOk(img, sites) && NoStraddle(img, PointerSites(img.imports, sites))
    requires i < |img.secs| && k < Extent(img.secs[i])
    ensures var ps := PointerSites(img.imports, sites);
      ByteFine(img, ps, delta, i, k) <==> WindowFine(img, ps, delta, i, k)
  {
    hide SectionsOk, SitesOk, PointerSites, PatchedFile, PatchedData, Memory, LoadedByte, NoStraddle, RightByte,
         WindowFine, Inside, InSlot;
    var ps, lookup := PointerSites(img.imports, sites), (dll: seq<byte>, func: seq<byte>) => 0;
    PointerSitesOk(img, sites);
    assert AllInside(img, ps);
    PatchedIs(img, ps, delta);
    ByteAgrees(img, sites, delta, PatchedData(img, ps, delta), lookup, i, k);
    AnyFileAgrees(img, sites, delta, PatchedData(img, ps, delta), lookup, i, k);
  }

  // ------------------------------------------------------------------------
  // Sites with file data of their own
  // ------------------------------------------------------------------------

  /** No section byte but the site's own eight is backed by its file data. Holds whenever sections share no data. */
  ghost predicate Alone(img: Image, at: nat) {
    forall i: nat, k: nat :: Shares(img, at, i, k) ==> Covers(at, img.secs[i].va + k)
  }

  ghost predicate AllAlone(img: Image, ps: seq<nat>) {
    forall k :: 0 <= k < |ps| ==> Alone(img, ps[k])
  }

  lemma RawApartAlone(img: Image, at: nat)
    requires SectionsOk(img) && Inside(img, at)
    requires forall i, j :: 0 <= i < j < |img.secs| ==>
      img.secs[i].raw + img.secs[i].rawsz <= img.secs[j].raw || img.secs[j].raw + img.secs[j].rawsz <= img.secs[i].raw
    ensures Alone(img, at)
  {
    var j: nat :| InSection(img, j, at);
    StoredAt(img, j, at);
    hide SectionsOk, Stored;
  }

  lemma OffsApart(img: Image, a: nat, b: nat)
    requires SectionsOk(img) && Alone(img, a) && Inside(img, a) && Inside(img, b) && Apart8(a, b)
    ensures Apart8(FileOff(img, a), FileOff(img, b))
  {
    var j: nat :| InSection(img, j, b);
    StoredAt(img, j, b);
    hide SectionsOk, Stored, Inside;
    var fa, fb := FileOff(img, a), FileOff(img, b);
    hide FileOff;
    var o := if fa < fb then fb else fa;
    assert o < fa + 8 && o < fb + 8 ==> Shares(img, a, j, o - img.secs[j].raw);
  }

  /** Sites with data of their own have windows of their own, and each is patched once. */
  lemma {:induction false} CountOne(img: Image, ps: seq<nat>, k: nat)
    requires k < |ps| && forall j :: 0 <= j < |ps| && j != k ==> FileOff(img, ps[j]) != FileOff(img, ps[k])
    ensures Count(img, ps, FileOff(img, ps[k])) == 1
  {
    hide FileOff;
    var n := |ps| - 1;
    var init := ps[..n];
    assert forall j :: 0 <= j < n ==> init[j] == ps[j];
    if k == n { CountNone(img, init, FileOff(img, ps[k])); } else { CountOne(img, init, k); }
  }

  lemma AloneApart(img: Image, ps: seq<nat>, j: nat, k: nat)
    requires SectionsOk(img) && AllInside(img, ps) && AllApart(ps) && AllAlone(img, ps) && j < |ps| && k < |ps|
    requires j != k
    ensures Apart8(FileOff(img, ps[j]), FileOff(img, ps[k]))
  {
    hide SectionsOk, Inside, FileOff, Alone;
    assert if j < k then Apart8(ps[j], ps[k]) else Apart8(ps[k], ps[j]);
    assert Alone(img, ps[j]) && Inside(img, ps[j]) && Inside(img, ps[k]);
    OffsApart(img, ps[j], ps[k]);
  }

  /** So an image whose kept sites have file data of their own, and any image whose sections share none, is rebased
      right, wherever it goes. */
  lemma AloneIsFine(img: Image, sites: seq<nat>, delta: int)
    requires SectionsOk(img) && SitesOk(img, sites) && AllAlone(img, PointerSites(img.imports, sites))
    ensures NoStraddle(img, PointerSites(img.imports, sites)) && AllFine(img, PointerSites(img.imports, sites), delta)
  {
    hide SectionsOk, SitesOk, PointerSites, Inside, FileOff, Alone, Count, AllApart, ByteFine, PatchedByte, WantedByte;
    var ps := PointerSites(img.imports, sites);
    PointerSitesOk(img, sites);
    assert AllInside(img, ps);
    forall j, k | 0 <= j < |ps| && 0 <= k < |ps| ensures SameOrApart(img, ps[j], ps[k]) {
      if j != k { AloneApart(img, ps, j, k); }
    }
    forall i: nat, k: nat | InData(img, i, k) ensures ByteFine(img, ps, delta, i, k) {
      forall j | 0 <= j < |ps| && Shares(img, ps[j], i, k)
        ensures PatchedByte(img, ps, delta, ps[j], i, k) == WantedByte(img, ps, delta, ps[j], i, k)
      {
        AloneByte(img, ps, delta, i, k, j);
      }
      FineIs(img, sites, delta, i, k);
    }
  }

  lemma AloneByte(img: Image, ps: seq<nat>, delta: int, i: nat, k: nat, j: nat)
    requires SectionsOk(img) && AllInside(img, ps) && AllApart(ps) && AllAlone(img, ps) && j < |ps|
    requires Shares(img, ps[j], i, k)
    ensures PatchedByte(img, ps, delta, ps[j], i, k) == WantedByte(img, ps, delta, ps[j], i, k)
  {
    hide SectionsOk, Inside, FileOff, Count, AllApart, Le, Moved;
    assert Alone(img, ps[j]);
    assert Covers(ps[j], img.secs[i].va + k);
    hide AllAlone, Alone;
    forall c | 0 <= c < |ps| && c != j ensures FileOff(img, ps[c]) != FileOff(img, ps[j]) { AloneApart(img, ps, c, j); }
    CountOne(img, ps, j);
  }

  // ------------------------------------------------------------------------
  // Shared file data
  // ------------------------------------------------------------------------

  /** Any headers, and then two sections with the same file data and a pointer in the first. */
  ghost function SharedImage(hdr: seq<byte>): Image {
    Image(hdr + [0, 0, 0, 0, 0, 0, 0, 0], [Section(0x1000, |hdr|, 8, 8, 0, []), Section(0x2000, |hdr|, 8, 8, 0, [])],
          0x1_4000_0000, 0x1000, |hdr|, [], [Reloc(0x1_4000_1000, 0)], Tls(0, 0, 0, 0, 0, 0))
  }

  lemma SharedSections(hdr: seq<byte>)
    requires |hdr| <= 0x1000
    ensures var img := SharedImage(hdr); SectionsOk(img) && InSection(img, 0, 0x1000) && SitesOk(img, [0x1000])
  {
    var img := SharedImage(hdr);
    assert SectionOk(img, img.secs[0]) && SectionOk(img, img.secs[1]) && SectionsApart(img.secs[0], img.secs[1]);
    assert InSection(img, 0, 0x1000);
  }

  lemma SharedPointers(hdr: seq<byte>)
    ensures PointerSites(SharedImage(hdr).imports, [0x1000]) == [0x1000]
  {
    var imports := SharedImage(hdr).imports;
    assert [0x1000][..0] == [] && PointerSites(imports, []) == [];
    assert !IsSlot(imports, 0x1000);
    assert PointerSites(imports, [0x1000]) == [] + [0x1000];
  }

  /** The image is well-formed, and its relocations are those of its one site. */
  lemma SharedSites(hdr: seq<byte>)
    requires |hdr| <= 0x1000
    ensures var img := SharedImage(hdr);
      SectionsOk(img) && SitesOk(img, [0x1000]) && RelocsOf(img, [0x1000]) == img.relocs
  {
    hide PointerSites, RelocsOf, Stored, SectionsOk, RvaToOffset, FromLe;
    var img := SharedImage(hdr);
    SharedSections(hdr);
    SharedPointers(hdr);
    StoredAt(img, 0, 0x1000);
    ZeroWord();
    assert img.buf[|hdr|..|hdr| + 8] == [0, 0, 0, 0, 0, 0, 0, 0];
    RelocsAre(img, [0x1000]);
  }

  /** Loading leaves the second section's copy as it is. */
  lemma SharedLoaded(hdr: seq<byte>, lookup: (seq<byte>, seq<byte>) -> nat)
    requires |hdr| <= 0x1000
    ensures Memory(SharedImage(hdr), [0x1000], 1, lookup, 0x2000) == 0
  {
    var img := SharedImage(hdr);
    SharedSites(hdr);
    hide SectionsOk, SitesOk, RelocsOf, PointerSites;
    MappedIs(img, 1, 0);
    hide MappedByte;
    assert Untouched([0x1000], 0x2000);
    RelocatedOutside(img, [0x1000], 1, 0x2000);
  }

  /** Where data is shared the two differ, whatever the headers are: the patch moves the second section's copy too. */
  lemma SharedDataDiffers(hdr: seq<byte>, lookup: (seq<byte>, seq<byte>) -> nat)
    requires |hdr| <= 0x1000
    ensures var img := SharedImage(hdr); var r := Rebased(img, img.base + 1);
      && r.Some? && Memory(r.value, [], 0, lookup, 0x2000) == 1
      && Memory(r.value, [], 0, lookup, 0x2000) != Memory(img, [0x1000], 1, lookup, 0x2000)
  {
    SharedPatch(hdr);
    SharedLoaded(hdr, lookup);
    hide SectionsOk, Patched, RelocatedByte;
    var img := SharedImage(hdr);
    var r := Rebased(img, img.base + 1).value;
    assert r.imports == [];
    RelocatedNone(r, 0x2000);
    MappedIs(img.(buf := r.buf), 1, 0);
  }

  lemma SharedBytes(hdr: seq<byte>)
    requires |hdr| <= 0x1000
    ensures var img := SharedImage(hdr);
      |img.buf| == |hdr| + 8 && Patched(img.buf, img.secs, img.base, img.relocs, 1) == Some(Patch(img.buf, |hdr|, 1))
  {
    hide SiteOffset, Patch, FromLe;
    var img := SharedImage(hdr);
    SharedOffset(hdr);
    ZeroWord();
    assert img.buf[|hdr|..|hdr| + 8] == [0, 0, 0, 0, 0, 0, 0, 0];
    var r := img.relocs;
    assert r[..0] == [];
    assert Patched(img.buf, img.secs, img.base, [], 1) == Some(img.buf);
  }

  lemma SameLength(img: Image, b: seq<byte>)
    requires SectionsOk(img) && |b| == |img.buf|
    ensures SectionsOk(img.(buf := b))
  {
    var other := img.(buf := b);
    forall i | 0 <= i < |img.secs| ensures SectionOk(other, img.secs[i]) { assert SectionOk(img, img.secs[i]); }
  }

  lemma SharedPatch(hdr: seq<byte>)
    requires |hdr| <= 0x1000
    ensures var img := SharedImage(hdr); var r := Patched(img.buf, img.secs, img.base, img.relocs, 1);
      r.Some? && |r.value| > |hdr| && r.value[|hdr|] == 1 && SectionsOk(img.(buf := r.value))
  {
    hide SectionsOk, SitesOk, RelocsOf, PointerSites, FileOff, Patched;
    var img := SharedImage(hdr);
    SharedSites(hdr);
    SharedBytes(hdr);
    SameLength(img, Patch(img.buf, |hdr|, 1));
  }

  lemma SharedOffset(hdr: seq<byte>)
    requires |hdr| <= 0x1000
    ensures var img := SharedImage(hdr); SiteOffset(img.secs, img.base, img.relocs[0], |img.buf|) == Some(|hdr|)
  {
    var img := SharedImage(hdr);
    assert (0x1_4000_1000 - 0x1_4000_0000) % U32 == 0x1000;
    assert InRawData(img.secs[0], 0x1000);
  }
}
