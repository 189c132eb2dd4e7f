/** Rebasing in the file and relocating at load time, seen through the converted files. */
module RebasedFile {
  import opened Common
  import opened Bytes
  import opened PeImage
  import opened PeLoader
  import opened Rebase
  import opened Layout
  import opened Names
  import opened Build
  import opened Assemble
  import opened ElfLoader
  import opened FileReads
  import opened LoadEquiv

  /** convert with --base: the loaded file has at a section byte what a PE loader that maps the original image at the
      new base has there, exactly when the byte is fine. That is so whatever the bias: the relocations are spent, and
      a file built with --pie as well still points into the new base wherever it is put. */
  lemma RebasedLoadsTheSame(img: Image, newBase: nat, tls: Tls, r: Image, opts: Options, p: Plan, sites: seq<nat>,
                            resolve: Name -> nat, bias: int, i: nat, k: nat)
    requires SectionsOk(img) && SitesOk(img, sites) && img.relocs == RelocsOf(img, sites)
    requires Rebased(img, newBase).Some? && r == Rebased(img, newBase).value.(tls := tls)
    requires Convertible(r, opts, p, []) && |r.secs| == |p.secFoffs|
    requires i < |img.secs| && k < Extent(img.secs[i]) && !Stripped(opts, img.secs[i])
    ensures var b := if opts.pie || opts.so then bias else 0;
      ElfByte(OutputFile(r, opts, p), bias, resolve, b + (newBase + (img.secs[i].va + k)))
        == Memory(img, sites, newBase - img.base, BySymbol(resolve), img.secs[i].va + k)
      <==> ByteFine(img, PointerSites(img.imports, sites), newBase - img.base, i, k)
  {
    hide SectionsOk, SitesOk, PointerSites, RelocsOf, Rebased, Convertible, OutputFile, ElfByte, Memory, BySymbol,
         Stripped, PatchedData, ByteFine;
    var b, moved := if opts.pie || opts.so then bias else 0, Rebased(img, newBase).value;
    RebasedIs(img, sites, newBase);
    RebasedByte(img, sites, newBase, moved, b, BySymbol(resolve), i, k);
    SameMemory(r, moved, b, BySymbol(resolve), img.secs[i].va + k);
    LoadsTheSame(r, opts, p, [], resolve, bias, i, k);
  }

  lemma SameMemory(a: Image, b: Image, d: int, lookup: (seq<byte>, seq<byte>) -> nat, rva: nat)
    requires a.secs == b.secs && a.buf == b.buf && a.imports == b.imports
    ensures Memory(a, [], d, lookup, rva) == Memory(b, [], d, lookup, rva)
  {
    SlotsOnly(a, b, a.imports, d, lookup, rva);
    SlotsOnly(b, b, a.imports, d, lookup, rva);
  }

  // ------------------------------------------------------------------------
  // The TLS directory
  // ------------------------------------------------------------------------

  /** The directory as the loaded image has it. */
  ghost function Directory(img: Image, sites: seq<nat>, delta: int, lookup: (seq<byte>, seq<byte>) -> nat, rva: nat)
    : (dir: seq<byte>)
    ensures |dir| == TLS_SIZE
  {
    seq<byte>(TLS_SIZE, k requires 0 <= k => Memory(img, sites, delta, lookup, rva + k))
  }

  /** collect_tls after rebase reads the directory that the image loaded at the new base has in memory, exactly if its
      bytes are fine. The directory is byte o and on of section i. */
  lemma TlsIsLoaded(img: Image, sites: seq<nat>, newBase: nat, r: Image, lookup: (seq<byte>, seq<byte>) -> nat, i: nat,
                    o: nat)
    requires SectionsOk(img) && SitesOk(img, sites) && img.relocs == RelocsOf(img, sites)
    requires Rebased(img, newBase) == Some(r) && i < |img.secs| && o + TLS_SIZE <= img.secs[i].rawsz
    requires img.secs[i].va + o > 0
    requires forall a :: img.secs[i].va + o <= a < img.secs[i].va + o + TLS_SIZE ==> !InSlot(img, a)
    ensures var off, rva, delta := img.secs[i].raw + o, img.secs[i].va + o, newBase - img.base;
      var ps := PointerSites(img.imports, sites);
      && off + TLS_SIZE <= |r.buf| && TlsAt(r.buf, r.secs, rva) == Some(TlsOf(r.buf[off..off + TLS_SIZE]))
      && (r.buf[off..off + TLS_SIZE] == Directory(img, sites, delta, lookup, rva) <==>
          forall k: nat :: o <= k < o + TLS_SIZE ==> ByteFine(img, ps, delta, i, k))
  {
    hide SitesOk, PointerSites, RelocsOf, Rebased, Memory, PatchedData, ByteFine, TlsOf, InSlot, RvaToOffset;
    var s, ps, delta := img.secs[i], PointerSites(img.imports, sites), newBase - img.base;
    var off := s.raw + o;
    RebasedIs(img, sites, newBase);
    OffsetIs(img, i, s.va + o);
    assert SectionOk(img, s);
    hide SectionsOk;
    var got, want := r.buf[off..off + TLS_SIZE], Directory(img, sites, delta, lookup, s.va + o);
    forall k | o <= k < o + TLS_SIZE ensures got[k - o] == want[k - o] <==> ByteFine(img, ps, delta, i, k) {
      assert !InSlot(img, s.va + k);
      UnslottedByte(img, sites, newBase, r, lookup, i, k);
      assert s.va + o + (k - o) == s.va + k;
    }
    AllEqual(got, want, o, (k: nat) => ByteFine(img, ps, delta, i, k));
  }

  lemma AllEqual(got: seq<byte>, want: seq<byte>, o: nat, fine: nat -> bool)
    requires |got| == |want| && forall k: nat :: o <= k < o + |got| ==> (got[k - o] == want[k - o] <==> fine(k))
    ensures got == want <==> forall k: nat :: o <= k < o + |got| ==> fine(k)
  {
    if forall k: nat :: o <= k < o + |got| ==> fine(k) {
      forall j | 0 <= j < |got| ensures got[j] == want[j] { assert fine(o + j); }
    }
  }

  lemma UnslottedByte(img: Image, sites: seq<nat>, newBase: nat, r: Image, lookup: (seq<byte>, seq<byte>) -> nat,
                      i: nat, k: nat)
    requires SectionsOk(img) && SitesOk(img, sites) && img.relocs == RelocsOf(img, sites)
    requires Rebased(img, newBase) == Some(r) && i < |img.secs| && k < img.secs[i].rawsz
    requires !InSlot(img, img.secs[i].va + k)
    ensures img.secs[i].raw + k < |r.buf|
    ensures r.buf[img.secs[i].raw + k] == Memory(img, sites, newBase - img.base, lookup, img.secs[i].va + k)
      <==> ByteFine(img, PointerSites(img.imports, sites), newBase - img.base, i, k)
  {
    hide SitesOk, PointerSites, RelocsOf, Rebased, PatchedData, ByteFine, LoadedByte, RelocatedByte, MappedByte;
    assert SectionOk(img, img.secs[i]);
    hide SectionsOk;
    var rva := img.secs[i].va + k;
    RebasedIs(img, sites, newBase);
    RebasedByte(img, sites, newBase, r, 0, lookup, i, k);
    LoadedOutside(r, r.imports, [], 0, lookup, rva);
    RelocatedNone(r, rva);
    RawMapped(img, r.buf, i, k);
    MappedSame(r, img.(buf := r.buf), rva);
  }

  lemma MappedSame(a: Image, b: Image, rva: nat)
    requires a.secs == b.secs && a.buf == b.buf
    ensures MappedByte(a, rva) == MappedByte(b, rva)
  {
  }
}
