/** The DT_HASH table (elf_build.hpp: elf_sysv_hash, build_hash) and the lookup that reads it.
    System V gABI, chapter 5, "Hash Table". */
module HashTable {
  import opened Common
  import opened Bytes
  import opened Bits
  import opened ElfFormat
  import opened Names

  // ------------------------------------------------------------------------
  // The hash function
  // ------------------------------------------------------------------------

  /** The loop body, in 32 bits: shift the next character in, fold the top four bits back and clear them. */
  function HashStep(h: nat, c: byte): nat {
    var t := (h * 16 % U32 + c) % U32;
    var g := And(t, 0xf000_0000);
    And(if g != 0 then Xor(t, g / 0x100_0000) else t, U32 - 1 - g)
  }

  function SysvHash(s: Name): nat {
    if s == [] then 0 else HashStep(SysvHash(s[..|s| - 1]), s[|s| - 1])
  }

  method ElfSysvHash(s: Name) returns (r: nat)
    ensures r == SysvHash(s)
  {
    r := 0;
    var i := 0;
    hide HashStep;
    while i < |s|
      invariant 0 <= i <= |s| && r == SysvHash(s[..i])
    {
      assert s[..i + 1][..i] == s[..i];
      r := HashStep(r, s[i]);
      i := i + 1;
    }
    assert s[..i] == s;
  }

  // ------------------------------------------------------------------------
  // The table
  // ------------------------------------------------------------------------

  function SymText(syms: seq<Sym>, tab: seq<byte>, i: nat): Name
    requires i < |syms|
  {
    if syms[i].name < |tab| then CStr(tab[syms[i].name..]) else []
  }

  /** The bucket of symbol i, or -1 for a symbol whose name is outside the string table. */
  function Key(syms: seq<Sym>, tab: seq<byte>, i: nat): (k: int)
    requires i < |syms|
    ensures -1 <= k < |syms|
  {
    if syms[i].name < |tab| then SysvHash(SymText(syms, tab, i)) % |syms| else -1
  }

  /** The greatest symbol index below i, other than 0, in bucket b; 0 if there is none. */
  function Latest(syms: seq<Sym>, tab: seq<byte>, b: int, i: nat): (j: nat)
    requires i <= |syms|
    ensures j == 0 || 1 <= j < i
  {
    if i <= 1 then 0 else if Key(syms, tab, i - 1) == b then i - 1 else Latest(syms, tab, b, i - 1)
  }

  lemma {:induction false} LatestIs(syms: seq<Sym>, tab: seq<byte>, b: int, i: nat)
    requires i <= |syms|
    ensures var j := Latest(syms, tab, b, i);
      (j != 0 ==> Key(syms, tab, j) == b) && forall m :: j < m < i && 1 <= m ==> Key(syms, tab, m) != b
  {
    hide Key;
    if i > 1 { LatestIs(syms, tab, b, i - 1); }
  }

  function Link(syms: seq<Sym>, tab: seq<byte>, i: nat): nat
    requires i < |syms|
  {
    if i == 0 || Key(syms, tab, i) < 0 then 0 else Latest(syms, tab, Key(syms, tab, i), i)
  }

  /** nbucket, nchain, the buckets and the chains; nbucket is nchain. */
  function HashWords(syms: seq<Sym>, tab: seq<byte>): (w: seq<nat>)
    requires syms != []
    ensures |w| == 2 + 2 * |syms|
  {
    var n := |syms|;
    [n, n] + seq(n, b requires 0 <= b < n => Latest(syms, tab, b, n))
      + seq(n, i requires 0 <= i < n => Link(syms, tab, i))
  }

  function WordRows(w: seq<nat>): (rows: seq<seq<byte>>)
    ensures |rows| == |w| && AllWidth(rows, 4) && forall i :: 0 <= i < |w| ==> rows[i] == Le(4, w[i])
  {
    seq(|w|, i requires 0 <= i < |w| => Le(4, w[i]))
  }

  function HashBytes(syms: seq<Sym>, tab: seq<byte>): seq<byte>
    requires syms != []
  {
    Flatten(WordRows(HashWords(syms, tab)))
  }

  lemma {:induction false} WordsSnoc(w: seq<nat>, x: nat)
    ensures Flatten(WordRows(w + [x])) == Flatten(WordRows(w)) + Le(4, x)
  {
    hide Le;
    if w == [] {
      assert WordRows([] + [x]) == [Le(4, x)];
      assert Flatten([Le(4, x)]) == Le(4, x) + Flatten([Le(4, x)][1..]);
    } else {
      WordsSnoc(w[1..], x);
      assert (w + [x])[1..] == w[1..] + [x];
      assert WordRows(w + [x])[1..] == WordRows((w + [x])[1..]);
      assert WordRows(w)[1..] == WordRows(w[1..]);
      assert WordRows(w + [x])[0] == WordRows(w)[0] == Le(4, w[0]);
      Assoc(Le(4, w[0]), Flatten(WordRows(w[1..])), Le(4, x));
    }
  }

  /** The table's arrays after the symbols below i are entered. */
  ghost predicate Entered(syms: seq<Sym>, tab: seq<byte>, i: nat, buckets: seq<nat>, chain: seq<nat>) {
    && |buckets| == |chain| == |syms| && i <= |syms|
    && (forall b :: 0 <= b < |buckets| ==> buckets[b] == Latest(syms, tab, b, i))
    && (forall j :: 0 <= j < |chain| ==> chain[j] == if j < i then Link(syms, tab, j) else 0)
  }

  lemma EnteredMore(syms: seq<Sym>, tab: seq<byte>, i: nat, buckets: seq<nat>, chain: seq<nat>)
    requires 1 <= i < |syms| && Entered(syms, tab, i, buckets, chain)
    ensures var b := Key(syms, tab, i);
      if b < 0 then Entered(syms, tab, i + 1, buckets, chain)
      else Entered(syms, tab, i + 1, buckets[b := i], chain[i := buckets[b]])
  {
    hide Key;
  }

  /** build_hash. The source's table has one bucket for an empty symbol table; here symbol 0 is always there. */
  method BuildHash(syms: seq<Sym>, tab: seq<byte>) returns (hash: seq<byte>)
    requires syms != []
    ensures hash == HashBytes(syms, tab)
  {
    hide Latest, Link, SysvHash, CStr, HashWords, Entered;
    var n := |syms|;
    var buckets, chain := new nat[n](_ => 0), new nat[n](_ => 0);
    NothingEntered(syms, tab, buckets[..], chain[..]);
    var i := 1;
    while i < n
      invariant 1 <= i <= n && buckets.Length == chain.Length == n && Entered(syms, tab, i, buckets[..], chain[..])
      modifies buckets, chain
    {
      EnteredMore(syms, tab, i, buckets[..], chain[..]);
      if syms[i].name < |tab| {
        var h := ElfSysvHash(CStr(tab[syms[i].name..]));
        var b := h % n;
        ghost var bs: seq<nat>, cs: seq<nat> := buckets[..], chain[..];
        chain[i] := buckets[b];
        buckets[b] := i;
        assert buckets[..] == bs[b := i] && chain[..] == cs[i := bs[b]];
      }
      i := i + 1;
    }
    AllEntered(syms, tab, buckets[..], chain[..]);
    hash := PushWords([n, n] + buckets[..] + chain[..]);
  }

  lemma NothingEntered(syms: seq<Sym>, tab: seq<byte>, buckets: seq<nat>, chain: seq<nat>)
    requires syms != [] && |buckets| == |chain| == |syms|
    requires forall i :: 0 <= i < |syms| ==> buckets[i] == 0 && chain[i] == 0
    ensures Entered(syms, tab, 1, buckets, chain)
  {
  }

  lemma AllEntered(syms: seq<Sym>, tab: seq<byte>, buckets: seq<nat>, chain: seq<nat>)
    requires syms != [] && Entered(syms, tab, |syms|, buckets, chain)
    ensures [|syms|, |syms|] + buckets + chain == HashWords(syms, tab)
  {
    hide Latest, Link;
  }

  /** push32, once for each word. */
  method PushWords(w: seq<nat>) returns (out: seq<byte>)
    ensures out == Flatten(WordRows(w))
  {
    out := [];
    var i := 0;
    hide Le, Flatten, WordRows;
    NoWords();
    while i < |w|
      invariant 0 <= i <= |w| && out == Flatten(WordRows(w[..i]))
    {
      assert w[..i + 1] == w[..i] + [w[i]];
      WordsSnoc(w[..i], w[i]);
      out := out + Le(4, w[i]);
      i := i + 1;
    }
    assert w[..i] == w;
  }

  lemma NoWords()
    ensures Flatten(WordRows([])) == []
  {
  }

  // ------------------------------------------------------------------------
  // Looking a name up
  // ------------------------------------------------------------------------

  function TableWord(hash: seq<byte>, k: nat): nat {
    if 4 * k + 4 <= |hash| then Field(hash, 4 * k, 4) else 0
  }

  function Bucket(hash: seq<byte>, b: nat): nat { TableWord(hash, 2 + b) }

  function Chain(hash: seq<byte>, i: nat): nat { TableWord(hash, 2 + TableWord(hash, 0) + i) }

  /** Following a chain from symbol y; a link that does not fall would be followed for ever, and ends this. */
  function Walk(hash: seq<byte>, syms: seq<Sym>, tab: seq<byte>, name: Name, y: nat): nat
    decreases y
  {
    if y == 0 || y >= |syms| then 0
    else if SymText(syms, tab, y) == name then y
    else if Chain(hash, y) >= y then 0
    else Walk(hash, syms, tab, name, Chain(hash, y))
  }

  /** The lookup of the gABI, on the bytes of the table. */
  function Lookup(hash: seq<byte>, syms: seq<Sym>, tab: seq<byte>, name: Name): nat {
    var n := TableWord(hash, 0);
    if n == 0 then 0 else Walk(hash, syms, tab, name, Bucket(hash, SysvHash(name) % n))
  }

  /** A linear scan from the end: the greatest index other than 0 with that name, or 0. */
  function Scan(syms: seq<Sym>, tab: seq<byte>, name: Name, i: nat): nat
    requires i <= |syms|
  {
    if i <= 1 then 0 else if SymText(syms, tab, i - 1) == name then i - 1 else Scan(syms, tab, name, i - 1)
  }

  lemma {:induction false} ScanIs(syms: seq<Sym>, tab: seq<byte>, name: Name, i: nat)
    requires i <= |syms|
    ensures var j := Scan(syms, tab, name, i);
      && (j == 0 || (1 <= j < i && SymText(syms, tab, j) == name))
      && forall m :: j < m < i && 1 <= m ==> SymText(syms, tab, m) != name
  {
    hide SymText;
    if i > 1 { ScanIs(syms, tab, name, i - 1); }
  }

  ghost predicate NamesInside(syms: seq<Sym>, tab: seq<byte>) {
    forall i :: 1 <= i < |syms| ==> syms[i].name < |tab|
  }

  lemma WordIs(syms: seq<Sym>, tab: seq<byte>, k: nat)
    requires syms != [] && |syms| < U32 && k < 2 + 2 * |syms|
    ensures TableWord(HashBytes(syms, tab), k) == HashWords(syms, tab)[k]
  {
    hide Latest, Link, Flatten, Le, FromLe;
    var w := HashWords(syms, tab);
    assert w[k] < U32 by { WordSmall(syms, tab, k); }
    hide HashWords;
    var rows := WordRows(w);
    FlattenAt(rows, 4, k);
    assert k * 4 == 4 * k;
    FieldOfLe(HashBytes(syms, tab), 4 * k, 4, w[k]);
  }

  lemma WordSmall(syms: seq<Sym>, tab: seq<byte>, k: nat)
    requires syms != [] && |syms| < U32 && k < 2 + 2 * |syms|
    ensures HashWords(syms, tab)[k] < U32
  {
  }

  /** What the table's bytes say: the head of each bucket, and a link to the next lower symbol of the bucket. */
  lemma TableIs(syms: seq<Sym>, tab: seq<byte>, i: nat)
    requires syms != [] && |syms| < U32 && i < |syms|
    ensures var hash := HashBytes(syms, tab);
      && TableWord(hash, 0) == |syms| && Bucket(hash, i) == Latest(syms, tab, i, |syms|)
      && Chain(hash, i) == Link(syms, tab, i) && (i > 0 ==> Chain(hash, i) < i)
  {
    hide Latest, Key, HashBytes, TableWord;
    WordIs(syms, tab, 0);
    WordIs(syms, tab, 2 + i);
    WordIs(syms, tab, 2 + |syms| + i);
  }

  /** Following a bucket finds the last symbol with the name among those below i. */
  lemma {:induction false} WalkIsScan(syms: seq<Sym>, tab: seq<byte>, name: Name, i: nat)
    requires syms != [] && |syms| < U32 && NamesInside(syms, tab) && i <= |syms|
    ensures var b := SysvHash(name) % |syms|;
      Walk(HashBytes(syms, tab), syms, tab, name, Latest(syms, tab, b, i)) == Scan(syms, tab, name, i)
    decreases i
  {
    var b := SysvHash(name) % |syms|;
    var y := Latest(syms, tab, b, i);
    ScanSkips(syms, tab, name, i, y);
    LatestIs(syms, tab, b, i);
    if y > 0 {
      TableIs(syms, tab, y);
      hide SysvHash, HashBytes, Chain, CStr, SymText;
      WalkIsScan(syms, tab, name, y);
      assert Scan(syms, tab, name, y + 1) == if SymText(syms, tab, y) == name then y else Scan(syms, tab, name, y);
    }
  }

  /** Symbols outside the name's bucket do not have the name. */
  lemma {:induction false} ScanSkips(syms: seq<Sym>, tab: seq<byte>, name: Name, i: nat, y: nat)
    requires syms != [] && NamesInside(syms, tab) && i <= |syms| && y == Latest(syms, tab, SysvHash(name) % |syms|, i)
    ensures Scan(syms, tab, name, i) == if y == 0 then 0 else Scan(syms, tab, name, y + 1)
  {
    hide SysvHash, HashStep, Key, SymText, NamesInside;
    var b := SysvHash(name) % |syms|;
    if i > 1 && Key(syms, tab, i - 1) != b {
      KeyTells(syms, tab, name, i - 1);
      ScanSkips(syms, tab, name, i - 1, y);
    }
  }

  lemma KeyTells(syms: seq<Sym>, tab: seq<byte>, name: Name, i: nat)
    requires NamesInside(syms, tab) && 1 <= i < |syms|
    ensures SymText(syms, tab, i) == name ==> Key(syms, tab, i) == SysvHash(name) % |syms|
  {
    hide SysvHash, SymText;
  }

  /** The table finds a name exactly when a scan of the symbol table does, and finds the last symbol with it. */
  lemma LookupIsScan(syms: seq<Sym>, tab: seq<byte>, name: Name)
    requires syms != [] && |syms| < U32 && NamesInside(syms, tab)
    ensures Lookup(HashBytes(syms, tab), syms, tab, name) == Scan(syms, tab, name, |syms|)
  {
    var b := SysvHash(name) % |syms|;
    TableIs(syms, tab, b);
    WalkIsScan(syms, tab, name, |syms|);
  }
}
