/** The base relocation and TLS directories as a linker writes them (PE Format, ".reloc Section" and ".tls Section"),
    and that collect_relocs and collect_tls read back what was written. */
module RelocDirectory {
  import opened Bytes
  import opened PeImage

  // ------------------------------------------------------------------------
  // The writer
  // ------------------------------------------------------------------------

  /** One 16-bit entry: a type in the top four bits and an offset into the page. */
  datatype Entry = Dir64(off: nat) | Other(kind: nat, off: nat)

  datatype Block = Block(page: nat, entries: seq<Entry>)

  ghost predicate EntryOk(e: Entry) { e.off < 4096 && (e.Other? ==> e.kind < 16 && e.kind != 10) }

  ghost predicate BlockOk(b: Block) {
    b.page < 0x1_0000_0000 && 8 + 2 * |b.entries| < 0x1_0000_0000
    && forall i :: 0 <= i < |b.entries| ==> EntryOk(b.entries[i])
  }

  function EntryBytes(e: Entry): (s: seq<byte>)
    ensures |s| == 2
  {
    match e
    case Dir64(off) => Le(2, 10 * 4096 + off)
    case Other(kind, off) => Le(2, kind * 4096 + off)
  }

  function EntryRows(es: seq<Entry>): (rows: seq<seq<byte>>)
    ensures |rows| == |es| && AllWidth(rows, 2) && forall i :: 0 <= i < |es| ==> rows[i] == EntryBytes(es[i])
  {
    seq(|es|, i requires 0 <= i < |es| => EntryBytes(es[i]))
  }

  /** VirtualAddress, SizeOfBlock and the entries. */
  function BlockBytes(b: Block): (s: seq<byte>)
    ensures |s| >= 8
  {
    Le(4, b.page) + Le(4, 8 + 2 * |b.entries|) + Flatten(EntryRows(b.entries))
  }

  function DirectoryBytes(bs: seq<Block>): seq<byte> {
    if bs == [] then [] else BlockBytes(bs[0]) + DirectoryBytes(bs[1..])
  }

  /** The addresses that the 64-bit entries name, in order. */
  function Named(page: nat, es: seq<Entry>): seq<nat> {
    if es == [] then []
    else (if es[0].Dir64? then [(page + es[0].off) % 0x1_0000_0000] else []) + Named(page, es[1..])
  }

  function Addresses(bs: seq<Block>): seq<nat> {
    if bs == [] then [] else Named(bs[0].page, bs[0].entries) + Addresses(bs[1..])
  }

  // ------------------------------------------------------------------------
  // Reading one block
  // ------------------------------------------------------------------------

  ghost predicate At(buf: seq<byte>, at: nat, s: seq<byte>) { at + |s| <= |buf| && buf[at..at + |s|] == s }

  lemma PartAt(buf: seq<byte>, at: nat, a: seq<byte>, b: seq<byte>)
    requires At(buf, at, a + b)
    ensures At(buf, at, a) && At(buf, at + |a|, b)
  {
    var s := a + b;
    assert buf[at..at + |a|] == buf[at..at + |s|][..|a|] == a;
    assert buf[at + |a|..at + |a| + |b|] == buf[at..at + |s|][|a|..] == b;
  }

  lemma WordAt(buf: seq<byte>, at: nat, n: nat, v: nat)
    requires At(buf, at, Le(n, v)) && v < Pow256(n)
    ensures at + n <= |buf| && Word(buf, at, n) == v
  {
    FromLeOfLe(n, v);
  }

  lemma BlockLength(b: Block)
    ensures |BlockBytes(b)| == 8 + 2 * |b.entries|
  {
    FlattenLength(EntryRows(b.entries), 2);
  }

  lemma BlockHead(buf: seq<byte>, at: nat, b: Block)
    requires At(buf, at, BlockBytes(b)) && BlockOk(b)
    ensures at + 8 <= |buf| && BlockVa(buf, at) == b.page && BlockSize(buf, at) == 8 + 2 * |b.entries|
    ensures At(buf, at + 8, Flatten(EntryRows(b.entries)))
  {
    hide Le, FromLe, Flatten, EntryRows;
    Pow256Widths();
    var page, size, rest := Le(4, b.page), Le(4, 8 + 2 * |b.entries|), Flatten(EntryRows(b.entries));
    PartAt(buf, at, page + size, rest);
    PartAt(buf, at, page, size);
    WordAt(buf, at, 4, b.page);
    WordAt(buf, at + 4, 4, 8 + 2 * |b.entries|);
  }

  lemma RowAt(buf: seq<byte>, at: nat, es: seq<Entry>, i: nat)
    requires At(buf, at, Flatten(EntryRows(es))) && i < |es|
    ensures At(buf, at + 2 * i, EntryBytes(es[i]))
  {
    hide EntryBytes, Flatten;
    var all := Flatten(EntryRows(es));
    FlattenAt(EntryRows(es), 2, i);
    assert buf[at + 2 * i..at + 2 * i + 2] == buf[at..at + |all|][i * 2..i * 2 + 2];
  }

  /** The type and the offset of an entry. */
  lemma EntryRead(buf: seq<byte>, at: nat, e: Entry)
    requires At(buf, at, EntryBytes(e)) && EntryOk(e)
    ensures at + 2 <= |buf|
    ensures Word(buf, at, 2) / 0x1000 == (if e.Dir64? then 10 else e.kind) && Word(buf, at, 2) % 0x1000 == e.off
  {
    hide Le, FromLe;
    Pow256Widths();
    var kind := if e.Dir64? then 10 else e.kind;
    WordAt(buf, at, 2, kind * 4096 + e.off);
  }

  lemma NamedStep(page: nat, es: seq<Entry>, i: nat)
    requires i < |es|
    ensures Named(page, es[i..])
         == (if es[i].Dir64? then [(page + es[i].off) % 0x1_0000_0000] else []) + Named(page, es[i + 1..])
  {
    assert es[i..][0] == es[i] && es[i..][1..] == es[i + 1..];
  }

  lemma {:induction false} EntriesRead(buf: seq<byte>, at: nat, b: Block, i: nat)
    requires At(buf, at, BlockBytes(b)) && BlockOk(b) && i <= |b.entries|
    ensures at + 8 <= |buf| && BlockSites(buf, at, i) == Named(b.page, b.entries[i..])
    decreases |b.entries| - i
  {
    hide BlockBytes, EntryBytes, Flatten, EntryRows, Word, BlockVa, BlockSize, Named;
    BlockHead(buf, at, b);
    if i < |b.entries| {
      EntriesRead(buf, at, b, i + 1);
      NamedStep(b.page, b.entries, i);
      RowAt(buf, at + 8, b.entries, i);
      assert EntryOk(b.entries[i]);
      EntryRead(buf, at + 8 + 2 * i, b.entries[i]);
    } else {
      assert b.entries[i..] == [];
      NamedNone(b.page);
    }
  }

  lemma NamedNone(page: nat)
    ensures Named(page, []) == []
  {
  }

  // ------------------------------------------------------------------------
  // Reading the directory
  // ------------------------------------------------------------------------

  ghost predicate BlocksOk(bs: seq<Block>) { forall i :: 0 <= i < |bs| ==> BlockOk(bs[i]) }

  /** The directory is at start and takes it up to end, or leaves only zeros. */
  ghost predicate Written(buf: seq<byte>, start: nat, end: nat, bs: seq<Block>) {
    && BlocksOk(bs) && start + |DirectoryBytes(bs)| <= end <= |buf| && end < U32
    && At(buf, start, DirectoryBytes(bs))
    && forall k :: start + |DirectoryBytes(bs)| <= k < end ==> buf[k] == 0
  }

  lemma {:induction false} ZeroBytes(s: seq<byte>)
    requires forall i :: 0 <= i < |s| ==> s[i] == 0
    ensures FromLe(s) == 0
  {
    if s != [] { ZeroBytes(s[1..]); }
  }

  lemma WrittenNext(buf: seq<byte>, start: nat, end: nat, bs: seq<Block>)
    requires Written(buf, start, end, bs) && bs != []
    ensures At(buf, start, BlockBytes(bs[0])) && Written(buf, start + |BlockBytes(bs[0])|, end, bs[1..])
  {
    hide BlockBytes, BlockOk, At;
    var block, rest := BlockBytes(bs[0]), DirectoryBytes(bs[1..]);
    assert DirectoryBytes(bs) == block + rest;
    hide DirectoryBytes;
    PartAt(buf, start, block, rest);
    assert forall i :: 0 <= i < |bs[1..]| ==> bs[1..][i] == bs[i + 1];
  }

  /** For every list of blocks, wherever it is in the file: the loop stops after the last block, and the sites it has
      found are exactly the addresses written, in order. */
  lemma {:induction false} DirectoryRead(buf: seq<byte>, start: nat, end: nat, bs: seq<Block>)
    requires Written(buf, start, end, bs)
    ensures Ends(buf, start, end, |bs|) && Sites(buf, start, end, |bs|) == Addresses(bs)
    decreases |bs|
  {
    hide BlockBytes, BlockSites, BlockOk, Named, BlockVa;
    if bs == [] {
      if start + 8 <= end { ZeroBytes(buf[start + 4..start + 8]); }
    } else {
      var b := bs[0];
      hide DirectoryBytes;
      WrittenNext(buf, start, end, bs);
      assert BlockOk(b);
      BlockHead(buf, start, b);
      BlockLength(b);
      EntriesRead(buf, start, b, 0);
      assert b.entries[0..] == b.entries;
      WrittenInside(buf, start + |BlockBytes(b)|, end, bs[1..]);
      hide BlockSize;
      assert NextBlock(buf, start) == start + |BlockBytes(b)|;
      DirectoryRead(buf, start + |BlockBytes(b)|, end, bs[1..]);
    }
  }

  lemma WrittenInside(buf: seq<byte>, start: nat, end: nat, bs: seq<Block>)
    requires Written(buf, start, end, bs)
    ensures start <= end <= |buf| && end < U32
  {
  }

  lemma {:induction false} BlocksFit(bs: seq<Block>)
    ensures 8 * |bs| <= |DirectoryBytes(bs)|
  {
    if bs != [] { BlocksFit(bs[1..]); }
  }

  /** So in the terms of the conversion, which allows as many blocks as there are bytes. */
  lemma SitesWritten(buf: seq<byte>, start: nat, end: nat, bs: seq<Block>)
    requires Written(buf, start, end, bs)
    ensures end <= |buf| && Ends(buf, start, end, end) && Sites(buf, start, end, end) == Addresses(bs)
  {
    DirectoryRead(buf, start, end, bs);
    BlocksFit(bs);
    hide DirectoryBytes, Addresses, Sites, Ends;
    SitesSettled(buf, start, end, |bs|, end);
  }

  // ------------------------------------------------------------------------
  // The TLS directory
  // ------------------------------------------------------------------------

  /** StartAddressOfRawData, EndAddressOfRawData, AddressOfIndex, AddressOfCallBacks, SizeOfZeroFill and
      Characteristics. */
  function TlsBytes(start: nat, end: nat, index: nat, callbacks: nat, zeroFill: nat, flags: nat): (s: seq<byte>)
    ensures |s| == 40
  {
    Le(8, start) + Le(8, end) + Le(8, index) + Le(8, callbacks) + Le(4, zeroFill) + Le(4, flags)
  }

  lemma TlsWritten(start: nat, end: nat, index: nat, callbacks: nat, zeroFill: nat, flags: nat)
    requires start < U64 && end < U64 && index < U64 && callbacks < U64 && zeroFill < U32 && flags < U32
    ensures TlsOf(TlsBytes(start, end, index, callbacks, zeroFill, flags))
         == Tls(start, if end > start then end - start else 0, zeroFill, flags, index, callbacks)
  {
    hide Le, FromLe;
    Pow256Widths();
    var s := TlsBytes(start, end, index, callbacks, zeroFill, flags);
    assert At(s, 0, Le(8, start)) && At(s, 8, Le(8, end)) && At(s, 16, Le(8, index)) && At(s, 24, Le(8, callbacks));
    assert At(s, 32, Le(4, zeroFill)) && At(s, 36, Le(4, flags));
    WordAt(s, 0, 8, start);
    WordAt(s, 8, 8, end);
    WordAt(s, 16, 8, index);
    WordAt(s, 24, 8, callbacks);
    WordAt(s, 32, 4, zeroFill);
    WordAt(s, 36, 4, flags);
  }
}
