/** Where the converted file's segments land: the synthetic segment and each section keep to their own pages. */
module Mapping {
  import opened Bytes
  import opened ElfFormat
  import opened PeImage
  import opened PeLoader
  import opened Layout
  import opened Output
  import opened Build
  import opened Assemble
  import opened ElfLoader
  import opened FileReads

  lemma PagesAbove(x: nat, b: nat)
    requires x <= b && b % PAGE == 0
    ensures AlignUp(x, PAGE) <= b
  {
  }

  lemma OnPage(x: nat)
    requires x % PAGE == 0
    ensures x / PAGE * PAGE == x && AlignUp(x, PAGE) == x
  {
  }

  lemma SumOnPage(x: nat, y: nat)
    requires x % PAGE == 0 && y % PAGE == 0
    ensures (x + y) % PAGE == 0
  {
  }

  // ------------------------------------------------------------------------
  // The range of pages of each segment
  // ------------------------------------------------------------------------

  lemma SynthPages(img: Image, opts: Options, p: Plan, a: nat)
    requires Settled(img, opts, p)
    ensures Maps(SynthPhdr(p), a) <==> p.synthVa <= a < p.synthEnd
  {
    OnPage(p.synthVa);
    PagesAbove(p.synthVa + SynthSize(p), p.synthEnd);
    SamePage(p.synthVa + SynthSize(p), p.synthEnd);
    hide AlignUp;
  }

  lemma SamePage(x: nat, e: nat)
    requires x <= e < x + PAGE && e % PAGE == 0
    ensures AlignUp(x, PAGE) == e
  {
  }

  lemma HeaderPages(img: Image, p: Plan, a: nat)
    requires SectionsOk(img)
    ensures Maps(HeaderPhdr(img, p), a) <==> img.base <= a < img.base + AlignUp(img.headers, PAGE)
  {
    var h := AlignUp(img.headers, PAGE);
    OnPage(img.base);
    SumOnPage(img.base, h);
    OnPage(img.base + h);
    hide AlignUp, SectionsOk;
  }

  lemma SectionPages(img: Image, p: Plan, i: nat, a: nat)
    requires SectionsOk(img) && i < |img.secs| == |p.secFoffs|
    ensures (img.base + img.secs[i].va) % PAGE == 0
    ensures Maps(SectionPhdr(img, p, i), a) <==>
      img.base + img.secs[i].va <= a < AlignUp(img.base + img.secs[i].va + Extent(img.secs[i]), PAGE)
  {
    assert SectionOk(img, img.secs[i]);
    SumOnPage(img.base, img.secs[i].va);
    OnPage(img.base + img.secs[i].va);
    hide AlignUp, SectionsOk, Writable, HasFlag;
  }

  // ------------------------------------------------------------------------
  // One segment for each byte
  // ------------------------------------------------------------------------

  /** Only the synthetic segment maps its addresses. */
  lemma OnlySynth(img: Image, opts: Options, p: Plan, a: nat, q: Phdr)
    requires Settled(img, opts, p) && SectionsOk(img) && p.synthVa <= a < p.synthEnd
    requires q in Phdrs(img, opts, p) && Maps(q, a)
    ensures q == SynthPhdr(p)
  {
    hide SectionsOk, Phdrs, SynthPhdr, HeaderPhdr, SectionPhdr, AlignUp, Shadow;
    LoadIs(img, opts, p, q);
    HeaderPages(img, p, a);
    if i: nat :| i < |img.secs| && q == SectionPhdr(img, p, i) { SectionPages(img, p, i, a); }
  }

  lemma SectionsKeepPages(img: Image, i: nat, j: nat, k: nat)
    requires SectionsOk(img) && i < |img.secs| && j < |img.secs| && i != j && k < Extent(img.secs[i])
    requires (img.base + img.secs[i].va) % PAGE == 0
    ensures var a := img.base + img.secs[i].va + k;
      a < img.base + img.secs[j].va || AlignUp(img.base + img.secs[j].va + Extent(img.secs[j]), PAGE) <= a
  {
    assert if i < j then SectionsApart(img.secs[i], img.secs[j]) else SectionsApart(img.secs[j], img.secs[i]);
    hide SectionsOk;
    if img.secs[j].va + Extent(img.secs[j]) <= img.secs[i].va {
      PagesAbove(img.base + img.secs[j].va + Extent(img.secs[j]), img.base + img.secs[i].va);
    }
    hide AlignUp;
  }

  lemma AboveHeaders(img: Image, i: nat)
    requires SectionsOk(img) && i < |img.secs|
    ensures AlignUp(img.headers, PAGE) <= img.secs[i].va
  {
    assert SectionOk(img, img.secs[i]);
  }

  lemma MapsLoads(q: Phdr, a: nat)
    requires Maps(q, a)
    ensures q.kind == PT_LOAD
  {
  }

  /** Only a section's own segment maps its bytes. */
  lemma OnlySection(img: Image, opts: Options, p: Plan, i: nat, k: nat, q: Phdr)
    requires Settled(img, opts, p) && SectionsOk(img) && i < |img.secs| && k < Extent(img.secs[i])
    requires q in Phdrs(img, opts, p) && Maps(q, img.base + img.secs[i].va + k)
    ensures q == SectionPhdr(img, p, i)
  {
    var a := img.base + img.secs[i].va + k;
    hide Phdrs, SynthPhdr, HeaderPhdr, SectionPhdr, AlignUp, Shadow, Maps, SectionsOk;
    MapsLoads(q, a);
    LoadIs(img, opts, p, q);
    HeaderPages(img, p, a);
    SynthPages(img, opts, p, a);
    SectionPages(img, p, i, a);
    AboveHeaders(img, i);
    if j: nat :| j < |img.secs| && q == SectionPhdr(img, p, j) {
      SectionPages(img, p, j, a);
      if j != i { SectionsKeepPages(img, i, j, k); }
    }
  }

  /** A section that is dropped is mapped by no segment. */
  lemma StrippedUnmapped(img: Image, opts: Options, p: Plan, i: nat, k: nat, q: Phdr)
    requires Settled(img, opts, p) && SectionsOk(img) && i < |img.secs| && k < Extent(img.secs[i])
    requires Stripped(opts, img.secs[i])
    requires q in Phdrs(img, opts, p)
    ensures !Maps(q, img.base + img.secs[i].va + k)
  {
    var a := img.base + img.secs[i].va + k;
    hide Phdrs, SynthPhdr, HeaderPhdr, SectionPhdr, AlignUp, Shadow, SectionsOk, Stripped, Maps;
    SectionPages(img, p, i, a);
    AboveHeaders(img, i);
    HeaderPages(img, p, a);
    SynthPages(img, opts, p, a);
    if Maps(q, a) {
      MapsLoads(q, a);
      LoadIs(img, opts, p, q);
      if j: nat :| j < |img.secs| && !Stripped(opts, img.secs[j]) && q == SectionPhdr(img, p, j) {
        SectionPages(img, p, j, a);
        SectionsKeepPages(img, i, j, k);
      }
    }
  }

  // ------------------------------------------------------------------------
  // The bytes
  // ------------------------------------------------------------------------

  lemma SynthListed(img: Image, opts: Options, p: Plan)
    requires |img.secs| == |p.secFoffs|
    ensures SynthPhdr(p) in Phdrs(img, opts, p)
  {
    hide SelfPhdr, InterpPhdr, SynthPhdr, DynamicPhdr, StackPhdr, HeaderPhdr, RelroPhdrs, SectionPhdrs, PhdrCount;
    assert Phdrs(img, opts, p)[2] == SynthPhdr(p);
  }

  lemma SynthByte(img: Image, opts: Options, p: Plan, file: seq<byte>, o: nat)
    requires Settled(img, opts, p) && SectionsOk(img) && o < SynthSize(p) && o < |file|
    ensures MapByte(file, Phdrs(img, opts, p), p.synthVa + o) == file[o]
  {
    var a := p.synthVa + o;
    hide Phdrs, SectionsOk, Maps, Shadow;
    SynthListed(img, opts, p);
    SynthPages(img, opts, p, a);
    forall q | q in Phdrs(img, opts, p) && Maps(q, a) ensures q == SynthPhdr(p) { OnlySynth(img, opts, p, a, q); }
    OnlyMap(file, Phdrs(img, opts, p), a, SynthPhdr(p));
  }

  lemma TableByte(img: Image, opts: Options, p: Plan, file: seq<byte>, q: Piece, j: nat)
    requires Settled(img, opts, p) && SectionsOk(img) && Placed(file, q) && q.at + |q.bytes| <= SynthSize(p)
    requires j < |q.bytes|
    ensures MapByte(file, Phdrs(img, opts, p), p.synthVa + q.at + j) == q.bytes[j]
  {
    hide Phdrs, SectionsOk, MapByte, Maps, Shadow;
    assert p.synthVa + q.at + j == p.synthVa + (q.at + j);
    SynthByte(img, opts, p, file, q.at + j);
    assert file[q.at..q.at + |q.bytes|][j] == q.bytes[j];
  }

  lemma MapBytesAre(file: seq<byte>, ps: seq<Phdr>, a: nat, want: seq<byte>)
    requires forall i :: 0 <= i < |want| ==> MapByte(file, ps, a + i) == want[i]
    ensures MapBytes(file, ps, a, |want|) == want
  {
    hide MapByte;
  }

  /** A stretch of a placed table is in memory at the table's address. */
  lemma TableBytes(img: Image, opts: Options, p: Plan, file: seq<byte>, q: Piece, o: nat, n: nat)
    requires Settled(img, opts, p) && SectionsOk(img) && Placed(file, q) && q.at + |q.bytes| <= SynthSize(p)
    requires o + n <= |q.bytes|
    ensures MapBytes(file, Phdrs(img, opts, p), p.synthVa + q.at + o, n) == q.bytes[o..o + n]
  {
    var ps, want := Phdrs(img, opts, p), q.bytes[o..o + n];
    hide Phdrs, SectionsOk, Settled, MapByte, Maps, MapBytes, Placed;
    forall i | 0 <= i < n ensures MapByte(file, ps, p.synthVa + q.at + o + i) == want[i] {
      TableByte(img, opts, p, file, q, o + i);
      assert p.synthVa + q.at + (o + i) == p.synthVa + q.at + o + i;
    }
    MapBytesAre(file, ps, p.synthVa + q.at + o, want);
  }

  lemma SectionSegment(img: Image, p: Plan, file: seq<byte>, i: nat, k: nat)
    requires i < |img.secs| == |p.secFoffs| && k < Extent(img.secs[i])
    requires Placed(file, Piece(p.secFoffs[i], Chunk(img, i)))
    ensures SegmentByte(file, SectionPhdr(img, p, i), img.base + img.secs[i].va + k)
         == if k < img.secs[i].rawsz then Chunk(img, i)[k] else 0
  {
    hide Writable, HasFlag;
    if k < img.secs[i].rawsz {
      var c := Chunk(img, i);
      assert file[p.secFoffs[i]..p.secFoffs[i] + |c|][k] == c[k];
    }
  }

  /** A kept section's own segment is the one that maps its bytes. */
  lemma SectionAlone(img: Image, opts: Options, p: Plan, file: seq<byte>, i: nat, k: nat)
    requires Settled(img, opts, p) && SectionsOk(img) && i < |img.secs| && k < Extent(img.secs[i])
    requires !Stripped(opts, img.secs[i])
    ensures |img.secs| == |p.secFoffs|
    ensures var a := img.base + img.secs[i].va + k;
      MapByte(file, Phdrs(img, opts, p), a) == SegmentByte(file, SectionPhdr(img, p, i), a)
  {
    SettledSections(img, opts, p);
    hide Phdrs, SectionsOk, Maps, Settled, SectionPhdr, SegmentByte, MapByte, Stripped, AlignUp;
    var a, ps, s := img.base + img.secs[i].va + k, Phdrs(img, opts, p), SectionPhdr(img, p, i);
    SectionListed(img, opts, p, i);
    SectionPages(img, p, i, a);
    forall q | q in ps && Maps(q, a) ensures q == s { OnlySection(img, opts, p, i, k, q); }
    OnlyMap(file, ps, a, s);
  }

  lemma SettledSections(img: Image, opts: Options, p: Plan)
    requires Settled(img, opts, p)
    ensures |img.secs| == |p.secFoffs|
  {
  }

  /** A section's bytes are in memory at its address, then zeros. */
  lemma SectionMapped(img: Image, opts: Options, p: Plan, file: seq<byte>, i: nat, k: nat)
    requires Settled(img, opts, p) && SectionsOk(img) && i < |img.secs| && k < Extent(img.secs[i])
    requires !Stripped(opts, img.secs[i])
    requires Placed(file, Piece(p.secFoffs[i], Chunk(img, i)))
    ensures MapByte(file, Phdrs(img, opts, p), img.base + img.secs[i].va + k)
         == if k < img.secs[i].rawsz then Chunk(img, i)[k] else 0
  {
    hide Phdrs, SectionsOk, Settled, Chunk, SectionPhdr, SegmentByte, MapByte, Placed, Stripped;
    SectionAlone(img, opts, p, file, i, k);
    SectionSegment(img, p, file, i, k);
  }
}
