/** The parsed PE image (pe_image.hpp): section lookups, the base relocation directory, and rebasing.
    Formats: ".reloc Section" of the Microsoft PE format. */
module PeImage {
  import opened Common
  import opened Bytes

  const SCN_EXECUTE: nat := 0x2000_0000
  const SCN_READ: nat := 0x4000_0000
  const SCN_WRITE: nat := 0x8000_0000

  const REL_DIR64: nat := 10

  datatype Section = Section(va: nat, raw: nat, rawsz: nat, virtsz: nat, characteristics: nat, name: seq<byte>)

  /** The greater of the sizes in memory and in the file. */
  function Extent(s: Section): (n: nat)
    ensures n >= s.virtsz && n >= s.rawsz && (n == s.virtsz || n == s.rawsz)
  {
    if s.virtsz < s.rawsz then s.rawsz else s.virtsz
  }

  predicate HasFlag(s: Section, bit: nat)
    requires bit > 0
  {
    s.characteristics / bit % 2 == 1
  }

  datatype Import = Import(dll: seq<byte>, func: seq<byte>, iatRva: nat)

  /** A DIR64 site that becomes a relative relocation: its address and the pointer stored there. */
  datatype Reloc = Reloc(va: nat, addend: nat)

  const TLS_SIZE: nat := 40

  datatype Tls = Tls(template: nat, templateSize: nat, zeroFill: nat, alignment: nat, index: nat, callbacks: nat)

  datatype Image = Image(buf: seq<byte>, secs: seq<Section>, base: nat, epRva: nat, headers: nat,
                         imports: seq<Import>, relocs: seq<Reloc>, tls: Tls)

  // ------------------------------------------------------------------------
  // Section lookups
  // ------------------------------------------------------------------------

  /** rva >= va && rva < end, where end is computed in 32 bits. */
  predicate Contains(s: Section, rva: nat) { s.va <= rva < (s.va + Extent(s)) % U32 }

  predicate InRawData(s: Section, rva: nat) { Contains(s, rva) && rva - s.va < s.rawsz }

  function RvaToOffset(secs: seq<Section>, rva: nat): Option<nat> {
    if secs == [] then None
    else if InRawData(secs[0], rva) then Some((secs[0].raw + (rva - secs[0].va)) % U32)
    else RvaToOffset(secs[1..], rva)
  }

  /** The first section that contains the address, or -1. */
  function SectionOf(secs: seq<Section>, rva: nat): (i: int)
    ensures -1 <= i < |secs|
    ensures i >= 0 ==> Contains(secs[i], rva)
    ensures forall j :: 0 <= j < (if i < 0 then |secs| else i) ==> !Contains(secs[j], rva)
  {
    if secs == [] then -1
    else if Contains(secs[0], rva) then 0
    else var k := SectionOf(secs[1..], rva); if k < 0 then -1 else k + 1
  }

  method FindOffset(secs: seq<Section>, rva: nat) returns (r: Option<nat>)
    ensures r == RvaToOffset(secs, rva)
  {
    var i := 0;
    assert secs[0..] == secs;
    while i < |secs|
      invariant 0 <= i <= |secs|
      invariant RvaToOffset(secs, rva) == RvaToOffset(secs[i..], rva)
    {
      var e := secs[i];
      assert secs[i..][0] == e && secs[i..][1..] == secs[i + 1..];
      var end := (e.va + Extent(e)) % U32;
      if rva >= e.va && rva < end {
        var delta := rva - e.va;
        if delta < e.rawsz { return Some((e.raw + delta) % U32); }
      }
      i := i + 1;
    }
    r := None;
  }

  method FindSection(secs: seq<Section>, rva: nat) returns (r: int)
    ensures r == SectionOf(secs, rva)
  {
    r := 0;
    assert secs[0..] == secs;
    while r < |secs|
      invariant 0 <= r <= |secs|
      invariant SectionOf(secs, rva) == (if SectionOf(secs[r..], rva) < 0 then -1 else r + SectionOf(secs[r..], rva))
    {
      assert secs[r..][0] == secs[r] && secs[r..][1..] == secs[r + 1..];
      var end := (secs[r].va + Extent(secs[r])) % U32;
      if rva >= secs[r].va && rva < end { return; }
      r := r + 1;
    }
    r := -1;
  }

  // ------------------------------------------------------------------------
  // The base relocation directory
  // ------------------------------------------------------------------------

  function Word(buf: seq<byte>, at: nat, n: nat): nat
    requires at + n <= |buf|
  {
    FromLe(buf[at..at + n])
  }

  function BlockVa(buf: seq<byte>, cur: nat): nat
    requires cur + 8 <= |buf|
  {
    Word(buf, cur, 4)
  }

  function BlockSize(buf: seq<byte>, cur: nat): nat
    requires cur + 8 <= |buf|
  {
    Word(buf, cur + 4, 4)
  }

  /** The DIR64 sites among entries i.. of the block at cur; entries past the end of the file end it. */
  function BlockSites(buf: seq<byte>, cur: nat, i: nat): seq<nat>
    requires cur + 8 <= |buf|
    decreases |buf| - i
  {
    if i >= (BlockSize(buf, cur) - 8) / 2 || cur + 8 + 2 * i + 2 > |buf| then []
    else
      var e := Word(buf, cur + 8 + 2 * i, 2);
      (if e / 0x1000 == REL_DIR64 then [(BlockVa(buf, cur) + e % 0x1000) % U32] else []) + BlockSites(buf, cur, i + 1)
  }

  /** Where the block loop stops. */
  predicate Stops(buf: seq<byte>, cur: nat, end: nat)
    requires end <= |buf|
  {
    cur + 8 > end || BlockSize(buf, cur) < 8
  }

  /** The cursor has 32 bits. */
  function NextBlock(buf: seq<byte>, cur: nat): nat
    requires cur + 8 <= |buf|
  {
    (cur + BlockSize(buf, cur)) % U32
  }

  /** The block loop stops within n blocks. A block size can take the cursor back, so it need not stop at all. */
  ghost predicate Ends(buf: seq<byte>, cur: nat, end: nat, n: nat)
    requires end <= |buf|
    decreases n
  {
    Stops(buf, cur, end) || (n > 0 && Ends(buf, NextBlock(buf, cur), end, n - 1))
  }

  /** The DIR64 sites of the directory, block after block, over at most n blocks. */
  ghost function Sites(buf: seq<byte>, cur: nat, end: nat, n: nat): seq<nat>
    requires end <= |buf|
    decreases n
  {
    if n == 0 || Stops(buf, cur, end) then []
    else BlockSites(buf, cur, 0) + Sites(buf, NextBlock(buf, cur), end, n - 1)
  }

  predicate IsIat(imports: seq<Import>, base: nat, va: nat) {
    exists i :: 0 <= i < |imports| && (base + imports[i].iatRva) % U64 == va
  }

  /** What one site contributes: nothing if it is outside the raw data or is an import slot. */
  function RelocAt(img: Image, rva: nat): seq<Reloc> {
    match RvaToOffset(img.secs, rva)
    case None => []
    case Some(off) =>
      if off + 8 > |img.buf| || IsIat(img.imports, img.base, (img.base + rva) % U64) then []
      else [Reloc((img.base + rva) % U64, Word(img.buf, off, 8))]
  }

  function RelocsOf(img: Image, sites: seq<nat>): seq<Reloc> {
    if sites == [] then [] else RelocsOf(img, sites[..|sites| - 1]) + RelocAt(img, sites[|sites| - 1])
  }

  // ------------------------------------------------------------------------
  // Rebasing
  // ------------------------------------------------------------------------

  function Patch(buf: seq<byte>, off: nat, v: nat): (r: seq<byte>)
    requires off + 8 <= |buf|
    ensures |r| == |buf|
    ensures forall i :: 0 <= i < |buf| ==> r[i] == if off <= i < off + 8 then Le(8, v)[i - off] else buf[i]
  {
    buf[..off] + Le(8, v) + buf[off + 8..]
  }

  /** The test before a patch: both the end of the eight bytes and the file size are taken in 32 bits. */
  predicate SiteAccepted(off: nat, size: nat) { (off + 8) % U32 <= size % U32 }

  /** The file offset of a relocation's eight bytes, if they pass the test and are in the file. */
  function SiteOffset(secs: seq<Section>, base: nat, r: Reloc, size: nat): Option<nat> {
    match RvaToOffset(secs, (r.va - base) % U32)
    case None => None
    case Some(off) => if !SiteAccepted(off, size) || off + 8 > size then None else Some(off)
  }

  /** What passes the test is in the file; otherwise the source would write past it. */
  ghost predicate SiteSound(secs: seq<Section>, base: nat, r: Reloc, size: nat) {
    match RvaToOffset(secs, (r.va - base) % U32)
    case None => true
    case Some(off) => SiteAccepted(off, size) ==> off + 8 <= size
  }

  ghost predicate SitesSound(img: Image) {
    forall k :: 0 <= k < |img.relocs| ==> SiteSound(img.secs, img.base, img.relocs[k], |img.buf|)
  }

  /** Adding delta at every site, in order; None where the source reports an error. */
  function Patched(buf: seq<byte>, secs: seq<Section>, base: nat, relocs: seq<Reloc>, delta: int)
    : (r: Option<seq<byte>>)
    ensures r.Some? ==> |r.value| == |buf|
  {
    if relocs == [] then Some(buf)
    else
      match Patched(buf, secs, base, relocs[..|relocs| - 1], delta)
      case None => None
      case Some(b) =>
        match SiteOffset(secs, base, relocs[|relocs| - 1], |buf|)
        case None => None
        case Some(off) => Some(Patch(b, off, (Word(b, off, 8) + delta) % U64))
  }

  /** PeImage::rebase. */
  function Rebased(img: Image, newBase: nat): Option<Image> {
    if newBase == img.base then Some(img.(relocs := []))
    else if img.relocs == [] then None
    else
      match Patched(img.buf, img.secs, img.base, img.relocs, newBase - img.base)
      case None => None
      case Some(b) => Some(img.(buf := b, base := newBase, relocs := []))
  }

  /** The fields of a 40-byte TLS directory; a template that ends before it starts is empty. */
  function TlsOf(dir: seq<byte>): (t: Tls)
    requires |dir| == TLS_SIZE
  {
    var start, end := Word(dir, 0, 8), Word(dir, 8, 8);
    Tls(start, if end > start then end - start else 0, Word(dir, 32, 4), Word(dir, 36, 4), Word(dir, 16, 8),
        Word(dir, 24, 8))
  }

  /** The directory at an address, if there is one and it is whole in the file. */
  function TlsAt(buf: seq<byte>, secs: seq<Section>, rva: nat): Option<Tls> {
    if rva == 0 then None
    else
      match RvaToOffset(secs, rva)
      case None => None
      case Some(off) => if off + TLS_SIZE > |buf| then None else Some(TlsOf(buf[off..off + TLS_SIZE]))
  }

  /** The image with its TLS record read; without a directory the record stays as it was. */
  function WithTls(img: Image, rva: nat): Image {
    match TlsAt(img.buf, img.secs, rva)
    case None => img
    case Some(t) => img.(tls := t)
  }

  // ------------------------------------------------------------------------
  // The object that the source updates
  // ------------------------------------------------------------------------

  class PeFile {
    var img: Image

    constructor (img: Image)
      ensures this.img == img
    {
      this.img := img;
    }

    method IsIatVa(va: nat) returns (b: bool)
      ensures b == IsIat(img.imports, img.base, va)
    {
      var i := 0;
      while i < |img.imports|
        invariant 0 <= i <= |img.imports|
        invariant forall j :: 0 <= j < i ==> (img.base + img.imports[j].iatRva) % U64 != va
      {
        if (img.base + img.imports[i].iatRva) % U64 == va { return true; }
        i := i + 1;
      }
      b := false;
    }

    /** What the loop does for one DIR64 entry. */
    method AddSite(rva: nat)
      modifies this
      ensures img == old(img).(relocs := old(img).relocs + RelocAt(old(img), rva))
    {
      var off := FindOffset(img.secs, rva);
      if off.None? { assert img.relocs + [] == img.relocs; return; }
      if off.value + 8 > |img.buf| { assert img.relocs + [] == img.relocs; return; }
      var va := (img.base + rva) % U64;
      var iat := IsIatVa(va);
      if !iat {
        img := img.(relocs := img.relocs + [Reloc(va, Word(img.buf, off.value, 8))]);
      } else {
        assert img.relocs + [] == img.relocs;
      }
    }

    /** One entry of the block at cur. */
    method CollectEntry(cur: nat, i: nat, ghost bare: Image, ghost now: seq<nat>) returns (ghost more: seq<nat>)
      requires cur + 8 <= |img.buf| && i < (BlockSize(img.buf, cur) - 8) / 2 && cur + 8 + 2 * i + 2 <= |img.buf|
      requires img.buf == bare.buf && Collected(img, bare, now)
      modifies this
      ensures img.buf == bare.buf && Collected(img, bare, more)
      ensures more + BlockSites(bare.buf, cur, i + 1) == now + BlockSites(bare.buf, cur, i)
    {
      hide Collected, BlockSites, RelocAt, Word;
      var e := Word(img.buf, cur + 8 + 2 * i, 2);
      BlockStep(bare.buf, cur, i, now);
      more := now;
      if e / 0x1000 == REL_DIR64 {
        var rva := (BlockVa(img.buf, cur) + e % 0x1000) % U32;
        CollectedMore(img, bare, now, rva);
        AddSite(rva);
        more := now + [rva];
      }
    }

    /** The entries of one block. */
    method CollectBlock(cur: nat, ghost bare: Image, ghost done: seq<nat>)
      requires cur + 8 <= |img.buf| && BlockSize(img.buf, cur) >= 8 && Collected(img, bare, done)
      modifies this
      ensures img.buf == bare.buf && Collected(img, bare, done + BlockSites(bare.buf, cur, 0))
    {
      CollectedIs(img, bare, done);
      var n := (BlockSize(img.buf, cur) - 8) / 2;
      var i := 0;
      ghost var all := done + BlockSites(bare.buf, cur, 0);
      ghost var now: seq<nat> := done;
      hide Collected, BlockSites, Word;
      while i < n && cur + 8 + 2 * i + 2 <= |img.buf|
        invariant 0 <= i && img.buf == bare.buf && Collected(img, bare, now)
        invariant now + BlockSites(bare.buf, cur, i) == all
        decreases n - i
      {
        now := CollectEntry(cur, i, bare, now);
        i := i + 1;
      }
      BlockEnd(bare.buf, cur, i, now);
    }

    /** collect_relocs from the directory's file range on: the blocks up to its end. */
    method CollectRelocs(start: nat, end: nat)
      requires end <= |img.buf| && img.relocs == [] && Ends(img.buf, start, end, end)
      modifies this
      ensures img == old(img).(relocs := RelocsOf(old(img), Sites(old(img).buf, start, end, end)))
    {
      ghost var n := end;
      hide Collected, Sites, Ends, BlockSites, RelocsOf, Word;
      ghost var bare := img;
      var cur: nat := start;
      ghost var done: seq<nat>, left: nat := [], n;
      NothingCollected(img, start, end, n);
      while cur + 8 <= end && BlockSize(img.buf, cur) >= 8
        invariant img.buf == bare.buf && Collected(img, bare, done)
        invariant done + Sites(bare.buf, cur, end, left) == Sites(bare.buf, start, end, n)
        invariant Ends(bare.buf, cur, end, left)
        decreases left
      {
        cur, done := NextOne(cur, end, left, bare, done);
        left := left - 1;
      }
      SitesEnd(bare.buf, cur, end, left, done);
      CollectedIs(img, bare, done);
    }

    /** One block of the loop. */
    method NextOne(cur: nat, end: nat, ghost left: nat, ghost bare: Image, ghost done: seq<nat>)
      returns (next: nat, ghost more: seq<nat>)
      requires cur + 8 <= end <= |img.buf| && BlockSize(img.buf, cur) >= 8 && img.buf == bare.buf
      requires Collected(img, bare, done) && Ends(bare.buf, cur, end, left)
      modifies this
      ensures left > 0 && img.buf == bare.buf && Collected(img, bare, more) && Ends(bare.buf, next, end, left - 1)
      ensures more + Sites(bare.buf, next, end, left - 1) == done + Sites(bare.buf, cur, end, left)
    {
      hide Collected, Sites, Ends, BlockSites, RelocsOf, Word;
      SitesStep(bare.buf, cur, end, left, done);
      CollectBlock(cur, bare, done);
      more := done + BlockSites(bare.buf, cur, 0);
      next := (cur + BlockSize(img.buf, cur)) % U32;
    }

    /** Adding delta at one site. */
    method PatchSite(re: Reloc, delta: int) returns (ok: bool)
      requires SiteSound(img.secs, img.base, re, |img.buf|)
      modifies this
      ensures ok <==> SiteOffset(old(img).secs, old(img).base, re, |old(img).buf|).Some?
      ensures !ok ==> img == old(img)
      ensures ok ==>
        var off := SiteOffset(old(img).secs, old(img).base, re, |old(img).buf|).value;
        off + 8 <= |old(img).buf|
        && img == old(img).(buf := Patch(old(img).buf, off, (Word(old(img).buf, off, 8) + delta) % U64))
    {
      var rva := (re.va - img.base) % U32;
      var off := FindOffset(img.secs, rva);
      if off.None? || (off.value + 8) % U32 > |img.buf| % U32 { return false; }
      var val := (Word(img.buf, off.value, 8) + delta) % U64;
      img := img.(buf := Patch(img.buf, off.value, val));
      ok := true;
    }

    /** rebase: patches every site in the file data, moves the base and drops the relocations. */
    method Rebase(newBase: nat) returns (ok: bool)
      requires SitesSound(img)
      modifies this
      ensures ok <==> Rebased(old(img), newBase).Some?
      ensures ok ==> img == Rebased(old(img), newBase).value
      ensures !ok ==>
        if old(img).relocs == [] then img == old(img) else StoppedShort(old(img), img, newBase - old(img).base)
    {
      hide PatchedUpTo, StoppedShort, Patched;
      if newBase == img.base {
        img := img.(relocs := []);
        return true;
      }
      if img.relocs == [] { return false; }
      ghost var start := img;
      ok := PatchAll(newBase - img.base);
      if ok {
        AllPatched(start, img, newBase - start.base);
        PatchedIsOnlyData(start, img, |start.relocs|, newBase - start.base);
        img := img.(base := newBase, relocs := []);
      }
    }

    /** collect_tls: reads the TLS directory from the file as it now is. */
    method CollectTls(rva: nat)
      modifies this
      ensures img == WithTls(old(img), rva)
    {
      if rva == 0 { return; }
      var off := FindOffset(img.secs, rva);
      if off.None? || off.value + TLS_SIZE > |img.buf| { return; }
      var dir := img.buf[off.value..off.value + TLS_SIZE];
      img := img.(tls := TlsOf(dir));
    }

    /** The loop over the relocations; after a failure those before the bad one are already patched. */
    method PatchAll(delta: int) returns (ok: bool)
      requires SitesSound(img)
      modifies this
      ensures ok <==> Patched(old(img).buf, old(img).secs, old(img).base, old(img).relocs, delta).Some?
      ensures ok ==> PatchedUpTo(old(img), img, |old(img).relocs|, delta)
      ensures !ok ==> StoppedShort(old(img), img, delta)
    {
      hide PatchedUpTo, StoppedShort, Patched, SiteSound;
      ghost var start := img;
      var i := 0;
      NothingPatched(start, delta);
      while i < |img.relocs|
        invariant 0 <= i <= |start.relocs| && PatchedUpTo(start, img, i, delta) && img.relocs == start.relocs
      {
        var done := PatchNext(start, i, delta);
        if !done { return false; }
        i := i + 1;
      }
      AllPatched(start, img, delta);
      ok := true;
    }

    /** One round of the loop. */
    method PatchNext(ghost start: Image, i: nat, delta: int) returns (ok: bool)
      requires i < |img.relocs| && PatchedUpTo(start, img, i, delta) && SitesSound(start)
      modifies this
      ensures img.relocs == old(img).relocs
      ensures ok ==> PatchedUpTo(start, img, i + 1, delta)
      ensures !ok ==> StoppedShort(start, img, delta)
      ensures !ok ==> Patched(start.buf, start.secs, start.base, start.relocs, delta).None?
    {
      hide Patched, Patch, SiteOffset, SiteSound, Word;
      assert SiteSound(start.secs, start.base, start.relocs[i], |start.buf|);
      PatchedStep(start.buf, start.secs, start.base, start.relocs, delta, i);
      ok := PatchSite(img.relocs[i], delta);
      if !ok { PatchedStops(start.buf, start.secs, start.base, start.relocs, delta, i + 1); }
    }
  }

  /** img is start with its first i relocations applied to the file data. */
  ghost predicate PatchedUpTo(start: Image, img: Image, i: nat, delta: int) {
    && i <= |start.relocs| && img == start.(buf := img.buf) && |img.buf| == |start.buf|
    && Patched(start.buf, start.secs, start.base, start.relocs[..i], delta) == Some(img.buf)
  }

  /** img is start with the relocations before the first one outside the file applied. */
  ghost predicate StoppedShort(start: Image, img: Image, delta: int) {
    exists i :: 0 <= i < |start.relocs| && PatchedUpTo(start, img, i, delta)
      && SiteOffset(start.secs, start.base, start.relocs[i], |start.buf|).None?
  }

  lemma NothingPatched(start: Image, delta: int)
    ensures PatchedUpTo(start, start, 0, delta)
  {
    assert start.relocs[..0] == [];
  }

  lemma PatchedIsOnlyData(start: Image, img: Image, i: nat, delta: int)
    requires PatchedUpTo(start, img, i, delta)
    ensures img == start.(buf := img.buf)
  {
  }

  lemma AllPatched(start: Image, img: Image, delta: int)
    requires PatchedUpTo(start, img, |start.relocs|, delta)
    ensures Patched(start.buf, start.secs, start.base, start.relocs, delta) == Some(img.buf)
  {
    assert start.relocs[..|start.relocs|] == start.relocs;
  }

  /** img is bare with the relocations of the sites done so far. */
  ghost predicate Collected(img: Image, bare: Image, done: seq<nat>) {
    bare.relocs == [] && img == bare.(relocs := RelocsOf(bare, done))
  }

  lemma NothingCollected(img: Image, start: nat, end: nat, n: nat)
    requires img.relocs == [] && end <= |img.buf|
    ensures Collected(img, img, []) && [] + Sites(img.buf, start, end, n) == Sites(img.buf, start, end, n)
  {
  }

  lemma CollectedMore(img: Image, bare: Image, done: seq<nat>, rva: nat)
    requires Collected(img, bare, done)
    ensures Collected(img.(relocs := img.relocs + RelocAt(img, rva)), bare, done + [rva])
  {
    RelocAtSame(img, bare, rva);
    assert (done + [rva])[..|done|] == done;
  }

  lemma CollectedIs(img: Image, bare: Image, done: seq<nat>)
    requires Collected(img, bare, done)
    ensures img == bare.(relocs := RelocsOf(bare, done))
  {
  }

  lemma SitesStep(buf: seq<byte>, cur: nat, end: nat, n: nat, done: seq<nat>)
    requires cur + 8 <= end <= |buf| && BlockSize(buf, cur) >= 8 && Ends(buf, cur, end, n)
    ensures n > 0 && Ends(buf, NextBlock(buf, cur), end, n - 1)
    ensures done + Sites(buf, cur, end, n)
         == done + BlockSites(buf, cur, 0) + Sites(buf, NextBlock(buf, cur), end, n - 1)
  {
    Assoc(done, BlockSites(buf, cur, 0), Sites(buf, NextBlock(buf, cur), end, n - 1));
  }

  lemma SitesEnd(buf: seq<byte>, cur: nat, end: nat, n: nat, done: seq<nat>)
    requires end <= |buf| && Stops(buf, cur, end)
    ensures done + Sites(buf, cur, end, n) == done
  {
  }

  /** However many blocks are allowed, a loop that stops finds the same sites. */
  lemma {:induction false} SitesSettled(buf: seq<byte>, cur: nat, end: nat, n: nat, m: nat)
    requires end <= |buf| && Ends(buf, cur, end, n) && n <= m
    ensures Ends(buf, cur, end, m) && Sites(buf, cur, end, m) == Sites(buf, cur, end, n)
    decreases n
  {
    hide BlockSites, Word;
    if !Stops(buf, cur, end) { SitesSettled(buf, NextBlock(buf, cur), end, n - 1, m - 1); }
  }

  lemma {:induction false} SiteBounds(buf: seq<byte>, cur: nat, i: nat)
    requires cur + 8 <= |buf|
    ensures forall k :: 0 <= k < |BlockSites(buf, cur, i)| ==> BlockSites(buf, cur, i)[k] < U32
    decreases |buf| - i
  {
    hide Word;
    if i < (BlockSize(buf, cur) - 8) / 2 && cur + 8 + 2 * i + 2 <= |buf| { SiteBounds(buf, cur, i + 1); }
  }

  lemma {:induction false} SitesBounds(buf: seq<byte>, cur: nat, end: nat, n: nat)
    requires end <= |buf|
    ensures forall k :: 0 <= k < |Sites(buf, cur, end, n)| ==> Sites(buf, cur, end, n)[k] < U32
    decreases n
  {
    hide BlockSites, Word;
    if n > 0 && !Stops(buf, cur, end) {
      SiteBounds(buf, cur, 0);
      SitesBounds(buf, NextBlock(buf, cur), end, n - 1);
    }
  }

  // ------------------------------------------------------------------------
  // When the block loop stops
  // ------------------------------------------------------------------------

  /** The cursors of the blocks that the loop goes past, among the first n. */
  ghost function Visited(buf: seq<byte>, cur: nat, end: nat, n: nat): set<nat>
    requires end <= |buf|
    decreases n
  {
    if n == 0 || Stops(buf, cur, end) then {} else {cur} + Visited(buf, NextBlock(buf, cur), end, n - 1)
  }

  lemma {:induction false} EndsLater(buf: seq<byte>, cur: nat, end: nat, n: nat, m: nat)
    requires end <= |buf| && Ends(buf, cur, end, n) && n <= m
    ensures Ends(buf, cur, end, m)
    decreases n
  {
    hide BlockSize;
    if !Stops(buf, cur, end) { EndsLater(buf, NextBlock(buf, cur), end, n - 1, m - 1); }
  }

  /** From every block that a stopping loop goes past, it stops within as many blocks. */
  lemma {:induction false} VisitedEnds(buf: seq<byte>, cur: nat, end: nat, n: nat, v: nat)
    requires end <= |buf| && Ends(buf, cur, end, n) && v in Visited(buf, cur, end, n)
    ensures Ends(buf, v, end, n)
    decreases n
  {
    hide BlockSize;
    if v != cur {
      VisitedEnds(buf, NextBlock(buf, cur), end, n - 1, v);
      EndsLater(buf, v, end, n - 1, n);
    }
  }

  lemma {:induction false} VisitedInside(buf: seq<byte>, cur: nat, end: nat, n: nat)
    requires end <= |buf|
    ensures Visited(buf, cur, end, n) <= Below(end)
    decreases n
  {
    hide BlockSize;
    if n > 0 && !Stops(buf, cur, end) { VisitedInside(buf, NextBlock(buf, cur), end, n - 1); }
  }

  /** A loop that stops in n blocks and no sooner goes past n different blocks: one seen again would go round for
      ever. */
  lemma {:induction false} AllDifferent(buf: seq<byte>, cur: nat, end: nat, n: nat)
    requires end <= |buf| && Ends(buf, cur, end, n) && (n > 0 ==> !Ends(buf, cur, end, n - 1))
    ensures |Visited(buf, cur, end, n)| == n
    decreases n
  {
    hide BlockSize;
    if n > 0 {
      var next := NextBlock(buf, cur);
      AllDifferent(buf, next, end, n - 1);
      if cur in Visited(buf, next, end, n - 1) { VisitedEnds(buf, next, end, n - 1, cur); }
    }
  }

  ghost function Below(n: nat): (s: set<nat>)
    ensures |s| == n && forall k: nat :: k in s <==> k < n
  {
    if n == 0 then {} else Below(n - 1) + {n - 1}
  }

  lemma SubsetSize(a: set<nat>, b: set<nat>)
    requires a <= b
    ensures |a| <= |b|
    decreases |a|
  {
    if x :| x in a { SubsetSize(a - {x}, b - {x}); }
  }

  /** The least number of blocks in which a stopping loop stops. */
  lemma {:induction false} Least(buf: seq<byte>, cur: nat, end: nat, n: nat) returns (m: nat)
    requires end <= |buf| && Ends(buf, cur, end, n)
    ensures m <= n && Ends(buf, cur, end, m) && (m > 0 ==> !Ends(buf, cur, end, m - 1))
  {
    hide Ends;
    m := n;
    if n > 0 && Ends(buf, cur, end, n - 1) { m := Least(buf, cur, end, n - 1); }
  }

  /** The block loop stops at all if and only if it stops within as many blocks as the directory's end has bytes before
      it, which can be tried before the call. */
  lemma EndsIff(buf: seq<byte>, cur: nat, end: nat)
    requires end <= |buf|
    ensures (exists n: nat :: Ends(buf, cur, end, n)) <==> Ends(buf, cur, end, end)
  {
    hide Ends, Visited;
    if n: nat :| Ends(buf, cur, end, n) {
      var m := Least(buf, cur, end, n);
      AllDifferent(buf, cur, end, m);
      VisitedInside(buf, cur, end, m);
      SubsetSize(Visited(buf, cur, end, m), Below(end));
      EndsLater(buf, cur, end, m, end);
    }
  }

  /** Every block that the loop comes to ends below 2^32; blocks inside the directory do. */
  ghost predicate Forward(buf: seq<byte>, cur: nat, end: nat)
    requires end <= |buf|
    decreases end - cur
  {
    Stops(buf, cur, end)
    || (cur + BlockSize(buf, cur) < U32 && Forward(buf, cur + BlockSize(buf, cur), end))
  }

  /** Then the loop stops, within an eighth as many blocks as there are bytes. */
  lemma {:induction false} ForwardEnds(buf: seq<byte>, cur: nat, end: nat)
    requires end <= |buf| && Forward(buf, cur, end)
    ensures Ends(buf, cur, end, if cur < end then (end - cur) / 8 else 0)
    decreases end - cur
  {
    hide BlockSize;
    if !Stops(buf, cur, end) {
      var next := NextBlock(buf, cur);
      ForwardEnds(buf, next, end);
      EndsLater(buf, next, end, if next < end then (end - next) / 8 else 0, (end - cur) / 8 - 1);
    }
  }

  /** Blocks that are inside their directory, as the format has them. */
  ghost predicate BlocksInside(buf: seq<byte>, cur: nat, end: nat)
    requires end <= |buf|
    decreases end - cur
  {
    Stops(buf, cur, end) || (cur + BlockSize(buf, cur) <= end && BlocksInside(buf, cur + BlockSize(buf, cur), end))
  }

  lemma {:induction false} InsideForward(buf: seq<byte>, cur: nat, end: nat)
    requires end <= |buf| && end < U32 && BlocksInside(buf, cur, end)
    ensures Forward(buf, cur, end)
    decreases end - cur
  {
    hide BlockSize;
    if !Stops(buf, cur, end) { InsideForward(buf, cur + BlockSize(buf, cur), end); }
  }

  /** So the loop stops on every directory whose blocks are inside it. */
  lemma InsideEnds(buf: seq<byte>, cur: nat, end: nat)
    requires end <= |buf| && end < U32 && BlocksInside(buf, cur, end)
    ensures Ends(buf, cur, end, end)
  {
    hide Forward, BlocksInside, Ends;
    InsideForward(buf, cur, end);
    ForwardEnds(buf, cur, end);
    EndsLater(buf, cur, end, if cur < end then (end - cur) / 8 else 0, end);
  }

  /** Wherever a block of 8 bytes is followed by one of 2^32 - 8, the second takes the cursor back to the first, and the
      loop never stops. */
  lemma {:induction false} CycleNeverEnds(buf: seq<byte>, c: nat, end: nat, n: nat)
    requires c + 16 <= end <= |buf| && end < U32 && BlockSize(buf, c) == 8 && BlockSize(buf, c + 8) == U32 - 8
    ensures !Ends(buf, c, end, n) && !Ends(buf, c + 8, end, n)
  {
    hide BlockSize;
    assert NextBlock(buf, c) == c + 8 && NextBlock(buf, c + 8) == c;
    if n > 0 { CycleNeverEnds(buf, c, end, n - 1); }
  }

  lemma BlockEnd(buf: seq<byte>, cur: nat, i: nat, now: seq<nat>)
    requires cur + 8 <= |buf| && (i >= (BlockSize(buf, cur) - 8) / 2 || cur + 8 + 2 * i + 2 > |buf|)
    ensures now + BlockSites(buf, cur, i) == now
  {
  }

  lemma BlockStep(buf: seq<byte>, cur: nat, i: nat, now: seq<nat>)
    requires cur + 8 <= |buf| && i < (BlockSize(buf, cur) - 8) / 2 && cur + 8 + 2 * i + 2 <= |buf|
    ensures var e := Word(buf, cur + 8 + 2 * i, 2);
      now + BlockSites(buf, cur, i) ==
        if e / 0x1000 == REL_DIR64 then now + [(BlockVa(buf, cur) + e % 0x1000) % U32] + BlockSites(buf, cur, i + 1)
        else now + BlockSites(buf, cur, i + 1)
  {
    hide Word;
    var e, rest := Word(buf, cur + 8 + 2 * i, 2), BlockSites(buf, cur, i + 1);
    var here := if e / 0x1000 == REL_DIR64 then [(BlockVa(buf, cur) + e % 0x1000) % U32] else [];
    assert BlockSites(buf, cur, i) == here + rest;
    Assoc(now, here, rest);
    assert here == [] ==> now + here == now;
  }

  lemma PatchedStep(buf: seq<byte>, secs: seq<Section>, base: nat, relocs: seq<Reloc>, delta: int, i: nat)
    requires i < |relocs| && Patched(buf, secs, base, relocs[..i], delta).Some?
    ensures var b := Patched(buf, secs, base, relocs[..i], delta).value;
      Patched(buf, secs, base, relocs[..i + 1], delta) ==
        (match SiteOffset(secs, base, relocs[i], |buf|)
         case None => None
         case Some(off) => Some(Patch(b, off, (Word(b, off, 8) + delta) % U64)))
  {
    assert relocs[..i + 1][..i] == relocs[..i] && relocs[..i + 1][i] == relocs[i];
  }

  lemma RelocAtSame(a: Image, b: Image, rva: nat)
    requires a.buf == b.buf && a.secs == b.secs && a.base == b.base && a.imports == b.imports
    ensures RelocAt(a, rva) == RelocAt(b, rva)
  {
  }

  lemma {:induction false} PatchedStops(buf: seq<byte>, secs: seq<Section>, base: nat, relocs: seq<Reloc>, delta: int,
                                        k: nat)
    requires k <= |relocs| && Patched(buf, secs, base, relocs[..k], delta).None?
    ensures Patched(buf, secs, base, relocs, delta).None?
    decreases |relocs| - k
  {
    if k < |relocs| {
      assert relocs[..k + 1][..k] == relocs[..k];
      PatchedStops(buf, secs, base, relocs, delta, k + 1);
    } else {
      assert relocs[..k] == relocs;
    }
  }

  // ------------------------------------------------------------------------
  // rebase on what collect_relocs kept
  // ------------------------------------------------------------------------

  lemma KeptRva(base: nat, rva: nat)
    requires rva < U32
    ensures ((base + rva) % U64 - base) % U32 == rva
  {
    var q := (base + rva) / U64;
    assert (base + rva) % U64 == base + rva - U64 * q;
    WrapsAway(rva, U32 * q);
  }

  lemma WrapsAway(x: nat, m: int)
    requires x < U32
    ensures (x - U32 * m) % U32 == x
  {
  }

  /** A kept relocation is found again, eight bytes inside the file. */
  lemma KeptInside(img: Image, rva: nat)
    requires rva < U32 && RelocAt(img, rva) != []
    ensures SiteSound(img.secs, img.base, RelocAt(img, rva)[0], |img.buf|)
    ensures |img.buf| < U32 ==> SiteOffset(img.secs, img.base, RelocAt(img, rva)[0], |img.buf|).Some?
  {
    KeptRva(img.base, rva);
  }

  /** So none of rebase's checks can fail on what collect_relocs kept, in a file below 4 GiB, and nothing is written
      outside the file whatever its size. */
  lemma {:induction false} KeptSites(img: Image, sites: seq<nat>, k: nat)
    requires (forall i :: 0 <= i < |sites| ==> sites[i] < U32) && k < |RelocsOf(img, sites)|
    ensures SiteSound(img.secs, img.base, RelocsOf(img, sites)[k], |img.buf|)
    ensures |img.buf| < U32 ==> SiteOffset(img.secs, img.base, RelocsOf(img, sites)[k], |img.buf|).Some?
  {
    hide RelocAt, SiteOffset, SiteSound;
    var n := |sites| - 1;
    if k < |RelocsOf(img, sites[..n])| {
      KeptSites(img, sites[..n], k);
    } else {
      KeptInside(img, sites[n]);
      OneAtMost(img, sites[n]);
    }
  }

  lemma KeptSound(img: Image, sites: seq<nat>)
    requires (forall i :: 0 <= i < |sites| ==> sites[i] < U32) && img.relocs == RelocsOf(img, sites)
    ensures SitesSound(img)
  {
    hide RelocsOf, SiteSound;
    forall k | 0 <= k < |img.relocs| ensures SiteSound(img.secs, img.base, img.relocs[k], |img.buf|) {
      KeptSites(img, sites, k);
    }
  }

  lemma OneAtMost(img: Image, rva: nat)
    ensures |RelocAt(img, rva)| <= 1
  {
  }

  lemma {:induction false} PatchedAll(buf: seq<byte>, secs: seq<Section>, base: nat, relocs: seq<Reloc>, delta: int)
    requires forall k :: 0 <= k < |relocs| ==> SiteOffset(secs, base, relocs[k], |buf|).Some?
    ensures Patched(buf, secs, base, relocs, delta).Some?
  {
    hide SiteOffset, Patch, Word;
    if relocs != [] {
      var n := |relocs| - 1;
      PatchedAll(buf, secs, base, relocs[..n], delta);
      assert SiteOffset(secs, base, relocs[n], |buf|).Some?;
    }
  }

  /** rebase of a collected image, whatever the input below 4 GiB, fails only for want of relocations. */
  lemma RebaseSucceeds(img: Image, sites: seq<nat>, newBase: nat)
    requires (forall i :: 0 <= i < |sites| ==> sites[i] < U32) && img.relocs == RelocsOf(img, sites) && |img.buf| < U32
    ensures Rebased(img, newBase).Some? <==> newBase == img.base || img.relocs != []
  {
    hide RelocsOf, SiteOffset, Patched;
    forall k | 0 <= k < |img.relocs| ensures SiteOffset(img.secs, img.base, img.relocs[k], |img.buf|).Some? {
      KeptSites(img, sites, k);
    }
    PatchedAll(img.buf, img.secs, img.base, img.relocs, newBase - img.base);
  }
}
