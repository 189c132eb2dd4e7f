/** Machine words, little-endian fields and fixed-width rows, shared by every other module. */
module Bytes {

  type byte = x: int | 0 <= x < 256

  const U16: int := 0x1_0000
  const U32: int := 0x1_0000_0000
  const U64: int := 0x1_0000_0000_0000_0000

  const PAGE: nat := 0x1000

  // ------------------------------------------------------------------------
  // Powers
  // ------------------------------------------------------------------------

  ghost function Pow256(n: nat): (p: nat)
    ensures p > 0
  {
    if n == 0 then 1 else 256 * Pow256(n - 1)
  }

  // ------------------------------------------------------------------------
  // Little-endian fields
  // ------------------------------------------------------------------------

  /** The low n bytes of v, least significant first: what memcpy of an n-byte field writes. */
  function Le(n: nat, v: nat): (s: seq<byte>)
    ensures |s| == n
  {
    if n == 0 then [] else [v % 256] + Le(n - 1, v / 256)
  }

  /** The value of a little-endian field. */
  function FromLe(s: seq<byte>): nat {
    if s == [] then 0 else s[0] + 256 * FromLe(s[1..])
  }

  lemma LeMore(n: nat, x: byte, z: nat)
    ensures Le(n + 1, x + 256 * z) == [x] + Le(n, z)
  {
    var v := x + 256 * z;
    assert v % 256 == x && v / 256 == z;
  }

  /** The digits in base 256, least significant first. */
  lemma LittleEndian(a: byte, b: byte, c: byte, d: byte, rest: nat, n: nat)
    ensures Le(n + 2, a + 0x100 * b + 0x1_0000 * rest) == [a, b] + Le(n, rest)
    ensures Le(n + 4, a + 0x100 * b + 0x1_0000 * c + 0x100_0000 * d + 0x1_0000_0000 * rest)
         == [a, b, c, d] + Le(n, rest)
  {
    hide Le;
    LeMore(n + 1, a, b + 0x100 * rest);
    LeMore(n, b, rest);
    LeMore(n + 3, a, b + 0x100 * c + 0x1_0000 * d + 0x100_0000 * rest);
    LeMore(n + 2, b, c + 0x100 * d + 0x1_0000 * rest);
    LeMore(n + 1, c, d + 0x100 * rest);
    LeMore(n, d, rest);
    Prefixed(a, b, c, d, Le(n, rest));
  }

  lemma Prefixed(a: byte, b: byte, c: byte, d: byte, s: seq<byte>)
    ensures [a] + ([b] + s) == [a, b] + s && [a] + ([b] + ([c] + ([d] + s))) == [a, b, c, d] + s
  {
  }

  lemma {:induction false} FromLeOfLe(n: nat, v: nat)
    requires v < Pow256(n)
    ensures FromLe(Le(n, v)) == v
  {
    if n > 0 {
      FromLeOfLe(n - 1, v / 256);
      assert Le(n, v)[1..] == Le(n - 1, v / 256);
    }
  }

  /** A field of n bytes does not see what is above them. */
  lemma {:induction false} LeSame(n: nat, v: nat, w: nat, k: nat)
    requires v == w + Pow256(n) * k
    ensures Le(n, v) == Le(n, w)
  {
    if n > 0 {
      var z := Pow256(n - 1) * k;
      assert Pow256(n) * k == 256 * z;
      assert v % 256 == w % 256 && v / 256 == w / 256 + z;
      LeSame(n - 1, v / 256, w / 256, k);
    }
  }

  lemma {:induction false} LeOfFromLe(s: seq<byte>)
    ensures FromLe(s) < Pow256(|s|)
    ensures Le(|s|, FromLe(s)) == s
  {
    if s != [] {
      LeOfFromLe(s[1..]);
      assert s == [s[0]] + s[1..];
      assert FromLe(s) % 256 == s[0] && FromLe(s) / 256 == FromLe(s[1..]);
    }
  }

  lemma Pow256Widths()
    ensures Pow256(1) == 256 && Pow256(2) == U16 && Pow256(4) == U32 && Pow256(8) == U64
  {
    assert Pow256(2) == 256 * Pow256(1);
    assert Pow256(3) == 256 * Pow256(2);
    assert Pow256(4) == 256 * Pow256(3);
    assert Pow256(5) == 256 * Pow256(4);
    assert Pow256(6) == 256 * Pow256(5);
    assert Pow256(7) == 256 * Pow256(6);
  }

  /** Eight zero bytes are the number zero. */
  lemma ZeroWord()
    ensures FromLe([0, 0, 0, 0, 0, 0, 0, 0]) == 0
  {
    assert Le(1, 0) == [0];
    assert Le(2, 0) == [0, 0];
    assert Le(3, 0) == [0, 0, 0];
    assert Le(4, 0) == [0, 0, 0, 0];
    assert Le(5, 0) == [0, 0, 0, 0, 0];
    assert Le(6, 0) == [0, 0, 0, 0, 0, 0];
    assert Le(7, 0) == [0, 0, 0, 0, 0, 0, 0];
    assert Le(8, 0) == [0, 0, 0, 0, 0, 0, 0, 0];
    FromLeOfLe(8, 0);
  }

  // ------------------------------------------------------------------------
  // Fixed-width rows
  // ------------------------------------------------------------------------

  /** Rows laid end to end, as a vector of equal-sized structs is in memory. */
  function Flatten(rows: seq<seq<byte>>): seq<byte> {
    if rows == [] then [] else rows[0] + Flatten(rows[1..])
  }

  ghost predicate AllWidth(rows: seq<seq<byte>>, w: nat) {
    forall i :: 0 <= i < |rows| ==> |rows[i]| == w
  }

  lemma {:induction false} FlattenLength(rows: seq<seq<byte>>, w: nat)
    requires AllWidth(rows, w)
    ensures |Flatten(rows)| == |rows| * w
  {
    if rows != [] {
      FlattenLength(rows[1..], w);
      assert |rows| * w == w + (|rows| - 1) * w;
    }
  }

  lemma {:induction false} FlattenAt(rows: seq<seq<byte>>, w: nat, i: nat)
    requires AllWidth(rows, w) && i < |rows|
    ensures 0 <= i * w <= i * w + w <= |Flatten(rows)|
    ensures Flatten(rows)[i * w..i * w + w] == rows[i]
  {
    FlattenLength(rows[1..], w);
    if i == 0 {
      assert 0 * w == 0;
    } else {
      FlattenAt(rows[1..], w, i - 1);
      assert i * w == w + (i - 1) * w;
      var rest := Flatten(rows[1..]);
      assert Flatten(rows)[i * w..i * w + w] == rest[(i - 1) * w..(i - 1) * w + w];
    }
  }

  // ------------------------------------------------------------------------
  // Alignment
  // ------------------------------------------------------------------------

  function Up8(v: nat): (r: nat)
    ensures v <= r < v + 8 && r % 8 == 0
  {
    (v + 7) / 8 * 8
  }

  function UpPage(v: nat): (r: nat)
    ensures v <= r < v + PAGE && r % PAGE == 0
  {
    (v + 0xfff) / 0x1000 * 0x1000
  }

  /** align_up for the two alignments the converter uses. */
  function AlignUp(v: nat, a: nat): (r: nat)
    requires a == 8 || a == PAGE
    ensures v <= r < v + a
    ensures r % a == 0
  {
    if a == 8 then Up8(v) else UpPage(v)
  }
}
