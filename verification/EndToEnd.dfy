/** A whole conversion, from the image and its relocation directory to the memory of the loaded result. */
module EndToEnd {
  import opened Common
  import opened Bytes
  import opened PeImage
  import opened PeLoader
  import opened Rebase
  import opened Layout
  import opened Names
  import opened Build
  import opened Assemble
  import opened Builder
  import opened ElfLoader
  import opened FileReads
  import opened LoadEquiv
  import opened RebasedFile
  import opened Converter
  import opened RelocDirectory
  import opened Entry

  function Bias(opts: Options, bias: int): int { if opts.pie || opts.so then bias else 0 }

  /** Byte k of section i of the loaded file, built for the given base, is that of the image loaded there. */
  ghost predicate SameByte(file: seq<byte>, base: nat, img: Image, sites: seq<nat>, d: int, opts: Options,
                           resolve: Name -> nat, bias: int, i: nat, k: nat)
  {
    InData(img, i, k) && !Stripped(opts, img.secs[i]) ==>
      ElfByte(file, bias, resolve, Bias(opts, bias) + (base + (img.secs[i].va + k)))
        == Memory(img, sites, d, BySymbol(resolve), img.secs[i].va + k)
  }

  /** The file loads as the image, at every bias and however symbols resolve. */
  ghost predicate LoadsAs(file: seq<byte>, img: Image, sites: seq<nat>, opts: Options) {
    forall resolve: Name -> nat, bias: int, i: nat, k: nat ::
      SameByte(file, img.base, img, sites, Bias(opts, bias), opts, resolve, bias, i, k)
  }

  /** Byte k of section i of the loaded file is that of the image moved to another base, exactly if it is fine. */
  ghost predicate MovedByte(file: seq<byte>, base: nat, img: Image, sites: seq<nat>, opts: Options,
                            resolve: Name -> nat, bias: int, i: nat, k: nat)
  {
    InData(img, i, k) && !Stripped(opts, img.secs[i]) ==>
      (SameByte(file, base, img, sites, base - img.base, opts, resolve, bias, i, k)
       <==> ByteFine(img, PointerSites(img.imports, sites), base - img.base, i, k))
  }

  ghost predicate LoadsMoved(file: seq<byte>, base: nat, img: Image, sites: seq<nat>, opts: Options) {
    forall resolve: Name -> nat, bias: int, i: nat, k: nat ::
      MovedByte(file, base, img, sites, opts, resolve, bias, i, k)
  }

  lemma ConvertedLoads(img: Image, opts: Options, p: Plan, sites: seq<nat>)
    requires Convertible(img, opts, p, sites) && |img.secs| == |p.secFoffs|
    ensures LoadsAs(OutputFile(img, opts, p), img, sites, opts)
  {
    hide Convertible, OutputFile, ElfByte, Memory, BySymbol, Stripped;
    forall resolve: Name -> nat, bias: int, i: nat, k: nat
      ensures SameByte(OutputFile(img, opts, p), img.base, img, sites, Bias(opts, bias), opts, resolve, bias, i, k)
    {
      if InData(img, i, k) && !Stripped(opts, img.secs[i]) { LoadsTheSame(img, opts, p, sites, resolve, bias, i, k); }
    }
  }

  lemma MovedLoads(img: Image, newBase: nat, tls: Tls, r: Image, opts: Options, p: Plan, sites: seq<nat>)
    requires SectionsOk(img) && SitesOk(img, sites) && img.relocs == RelocsOf(img, sites)
    requires Rebased(img, newBase).Some? && r == Rebased(img, newBase).value.(tls := tls)
    requires Convertible(r, opts, p, []) && |r.secs| == |p.secFoffs|
    ensures LoadsMoved(OutputFile(r, opts, p), newBase, img, sites, opts)
  {
    hide SectionsOk, SitesOk, RelocsOf, PointerSites, Rebased, Convertible, OutputFile, ElfByte, Memory, BySymbol,
         Stripped, ByteFine;
    forall resolve: Name -> nat, bias: int, i: nat, k: nat
      ensures MovedByte(OutputFile(r, opts, p), newBase, img, sites, opts, resolve, bias, i, k)
    {
      if InData(img, i, k) && !Stripped(opts, img.secs[i]) {
        RebasedLoadsTheSame(img, newBase, tls, r, opts, p, sites, resolve, bias, i, k);
      }
    }
  }

  /** convert: the bytes it writes load as the input image with the DIR64 sites of its relocation directory, and start
      as it should. */
  method Converted(pe: PeFile, start: nat, end: nat, tlsRva: nat, opts: Options)
    returns (r: Option<seq<byte>>, p: Plan)
    requires end <= |pe.img.buf| && pe.img.relocs == [] && Ends(pe.img.buf, start, end, end)
    requires SlotsSound(pe.img) && RawSound(pe.img)
    modifies pe
    ensures var sites := Sites(old(pe.img.buf), start, end, end);
      var img := WithTls(WithRelocs(old(pe.img), sites), tlsRva);
      && PlanFor(img, opts, p) && (r.Some? <==> Converts(img, opts, p))
      && (r.Some? && Convertible(img, opts, p, sites) ==>
            LoadsAs(r.value, img, sites, opts) && ProgramStarts(r.value, img, opts))
  {
    hide ProgramStarts, Sites, Ends, RelocsOf, PlanFor, Converts, OutputFile, Convertible, LoadsAs, SlotsSound,
         RawSound, TlsAt;
    ghost var sites := Sites(pe.img.buf, start, end, end);
    ghost var img := WithTls(WithRelocs(pe.img, sites), tlsRva);
    r, p := Run(pe, start, end, 0, tlsRva, opts);
    if Convertible(img, opts, p, sites) && Converts(img, opts, p) {
      ConvertedLoads(img, opts, p, sites);
      ConvertedStarts(img, opts, p, sites);
    }
  }

  /** In terms of what the linker wrote: a file with these relocation blocks at its directory loads with every address
      in them relocated, and starts. */
  method ConvertedProgram(pe: PeFile, start: nat, end: nat, tlsRva: nat, opts: Options, ghost blocks: seq<Block>)
    returns (r: Option<seq<byte>>, p: Plan)
    requires Written(pe.img.buf, start, end, blocks) && pe.img.relocs == [] && SlotsSound(pe.img) && RawSound(pe.img)
    modifies pe
    ensures var img := WithTls(WithRelocs(old(pe.img), Addresses(blocks)), tlsRva);
      && (r.Some? <==> Converts(img, opts, p))
      && (r.Some? && Convertible(img, opts, p, Addresses(blocks)) ==>
            LoadsAs(r.value, img, Addresses(blocks), opts) && ProgramStarts(r.value, img, opts))
  {
    hide ProgramStarts, Sites, Ends, RelocsOf, PlanFor, Converts, Convertible, LoadsAs, SlotsSound, RawSound, TlsAt,
         Written, Addresses;
    SitesWritten(pe.img.buf, start, end, blocks);
    r, p := Converted(pe, start, end, tlsRva, opts);
  }

  /** convert --base: the bytes it writes load as the input image at the new base, exactly at the fine bytes. */
  method ConvertedAt(pe: PeFile, start: nat, end: nat, newBase: nat, tlsRva: nat, opts: Options)
    returns (r: Option<seq<byte>>, p: Plan)
    requires end <= |pe.img.buf| && pe.img.relocs == [] && Ends(pe.img.buf, start, end, end) && newBase > 0
    requires SlotsSound(pe.img) && RawSound(pe.img)
    modifies pe
    ensures var sites := Sites(old(pe.img.buf), start, end, end); var img := WithRelocs(old(pe.img), sites);
      var moved := Rebased(img, newBase);
      && (r.Some? <==> moved.Some? && Converts(WithTls(moved.value, tlsRva), opts, p))
      && (r.Some? && SectionsOk(img) && SitesOk(img, sites)
          && Convertible(WithTls(moved.value, tlsRva), opts, p, []) ==>
            LoadsMoved(r.value, newBase, img, sites, opts)
            && ProgramStarts(r.value, WithTls(moved.value, tlsRva), opts))
  {
    hide Sites, Ends, RelocsOf, PlanFor, Converts, OutputFile, Convertible, LoadsMoved, SlotsSound, RawSound,
         ProgramStarts, SectionsOk, SitesOk, PointerSites, Rebased, TlsAt;
    ghost var sites := Sites(pe.img.buf, start, end, end);
    ghost var bare := pe.img;
    ghost var img := WithRelocs(bare, sites);
    r, p := Run(pe, start, end, newBase, tlsRva, opts);
    ghost var moved := Rebased(img, newBase);
    if r.Some? && SectionsOk(img) && SitesOk(img, sites) && Convertible(WithTls(moved.value, tlsRva), opts, p, []) {
      SitesFixed(bare, sites);
      ghost var done := WithTls(moved.value, tlsRva);
      MovedLoads(img, newBase, done.tls, done, opts, p, sites);
      ConvertedStarts(done, opts, p, []);
    }
  }

  /** Which relocations an image has does not depend on the relocations it had. */
  lemma {:induction false} SitesFixed(img: Image, sites: seq<nat>)
    ensures RelocsOf(WithRelocs(img, sites), sites) == RelocsOf(img, sites)
  {
    SameRelocs(img, WithRelocs(img, sites), sites);
  }
}
