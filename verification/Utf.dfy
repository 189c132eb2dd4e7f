/** The UTF-8 and UTF-16 codecs of the shim (shim.cpp, shim_kernel32_string.hpp), against the
    syntax of section 4 of RFC 3629 and the pair encoding of sections 2.1 and 2.2 of RFC 2781. */
module Utf {
  import opened Bytes

  type u16 = x: int | 0 <= x < 0x1_0000

  const REPLACEMENT: nat := 0xFFFD

  /** A Unicode scalar value: what either encoding can carry. */
  ghost predicate Scalar(c: nat) { c <= 0x10FFFF && !(0xD800 <= c <= 0xDFFF) }

  ghost predicate Scalars(cs: seq<nat>) { forall i :: 0 <= i < |cs| ==> Scalar(cs[i]) }

  // ------------------------------------------------------------------------
  // Well-formed text
  // ------------------------------------------------------------------------

  predicate Tail(b: byte) { 0x80 <= b <= 0xBF }

  /** UTF8-char of section 4 of RFC 3629, its four alternatives by length. */
  predicate Utf8Char(s: seq<byte>) {
    || (|s| == 1 && s[0] <= 0x7F)
    || (|s| == 2 && 0xC2 <= s[0] <= 0xDF && Tail(s[1]))
    || (|s| == 3 && Tail(s[2]) && (|| (s[0] == 0xE0 && 0xA0 <= s[1] <= 0xBF)
                                   || (0xE1 <= s[0] <= 0xEC && Tail(s[1]))
                                   || (s[0] == 0xED && 0x80 <= s[1] <= 0x9F)
                                   || (0xEE <= s[0] <= 0xEF && Tail(s[1]))))
    || (|s| == 4 && Tail(s[2]) && Tail(s[3]) && (|| (s[0] == 0xF0 && 0x90 <= s[1] <= 0xBF)
                                                 || (0xF1 <= s[0] <= 0xF3 && Tail(s[1]))
                                                 || (s[0] == 0xF4 && 0x80 <= s[1] <= 0x8F)))
  }

  ghost predicate StartsWithChar(s: seq<byte>) {
    exists k :: 1 <= k <= |s| && Utf8Char(s[..k])
  }

  ghost predicate WellFormed8(s: seq<byte>) {
    s == [] || exists k :: 1 <= k <= |s| && Utf8Char(s[..k]) && WellFormed8(s[k..])
  }

  predicate High(u: int) { 0xD800 <= u <= 0xDBFF }

  predicate Low(u: int) { 0xDC00 <= u <= 0xDFFF }

  ghost predicate WellFormed16(w: seq<u16>) {
    || w == []
    || (!High(w[0]) && !Low(w[0]) && WellFormed16(w[1..]))
    || (|w| >= 2 && High(w[0]) && Low(w[1]) && WellFormed16(w[2..]))
  }

  // ------------------------------------------------------------------------
  // Encoding one code point, as both conversions write it
  // ------------------------------------------------------------------------

  function Utf8Of(c: nat): (s: seq<byte>)
    requires c <= 0x10FFFF
    ensures 1 <= |s| <= 4
  {
    if c < 0x80 then [c]
    else if c < 0x800 then [0xC0 + c / 64, 0x80 + c % 64]
    else if c < 0x1_0000 then [0xE0 + c / 4096, 0x80 + c / 64 % 64, 0x80 + c % 64]
    else [0xF0 + c / 0x4_0000, 0x80 + c / 4096 % 64, 0x80 + c / 64 % 64, 0x80 + c % 64]
  }

  function Utf16Of(c: nat): (w: seq<u16>)
    requires c <= 0x10FFFF
    ensures 1 <= |w| <= 2
  {
    if c < 0x1_0000 then [c]
    else [0xD800 + (c - 0x1_0000) / 1024, 0xDC00 + (c - 0x1_0000) % 1024]
  }

  function Encode8(cs: seq<nat>): seq<byte>
    requires forall i :: 0 <= i < |cs| ==> cs[i] <= 0x10FFFF
  {
    if cs == [] then [] else Utf8Of(cs[0]) + Encode8(cs[1..])
  }

  function Encode16(cs: seq<nat>): seq<u16>
    requires forall i :: 0 <= i < |cs| ==> cs[i] <= 0x10FFFF
  {
    if cs == [] then [] else Utf16Of(cs[0]) + Encode16(cs[1..])
  }

  // ------------------------------------------------------------------------
  // Decoding
  // ------------------------------------------------------------------------

  datatype Next = Next(len: nat, cp: nat, bad: bool)

  /** How many continuation bytes a lead byte announces; 0 for a byte that cannot lead. */
  function TailCount(b: byte): nat {
    if 0xC2 <= b <= 0xDF then 1 else if 0xE0 <= b <= 0xEF then 2 else if 0xF0 <= b <= 0xF4 then 3 else 0
  }

  /** The payload of the first i continuation bytes after the lead byte's own. */
  function Collected(s: seq<byte>, i: nat): nat
    requires i < |s|
  {
    if i == 0 then
      if TailCount(s[0]) == 1 then s[0] % 32 else if TailCount(s[0]) == 2 then s[0] % 16 else s[0] % 8
    else Collected(s, i - 1) * 64 + s[i] % 64
  }

  predicate Follows(s: seq<byte>, i: nat) { i < |s| && Tail(s[i]) }

  /** The checks on a complete sequence of n continuation bytes. */
  function Finish(n: nat, v: nat): (r: Next)
    ensures r.cp <= 0x10FFFF && r.len == n + 1
  {
    if (n == 2 && v < 0x800) || (n == 3 && v < 0x1_0000) || v > 0x10FFFF || 0xD800 <= v <= 0xDFFF
    then Next(n + 1, REPLACEMENT, true)
    else Next(n + 1, v, false)
  }

  /** What utf8_next returns on the bytes up to the end of the text. */
  function Utf8Next(s: seq<byte>): (r: Next)
    requires s != []
    ensures 1 <= r.len <= |s| && r.len <= 4
    ensures r.cp <= 0x10FFFF
  {
    var n := TailCount(s[0]);
    if s[0] < 0x80 then Next(1, s[0], false)
    else if n == 0 || !Follows(s, 1) then Next(1, REPLACEMENT, true)
    else if n == 1 then Finish(1, Collected(s, 1))
    else if !Follows(s, 2) then Next(2, REPLACEMENT, true)
    else if n == 2 then Finish(2, Collected(s, 2))
    else if !Follows(s, 3) then Next(3, REPLACEMENT, true)
    else Finish(3, Collected(s, 3))
  }

  function Decode8(s: seq<byte>): (cs: seq<nat>)
    ensures |cs| <= |s|
    ensures forall i :: 0 <= i < |cs| ==> cs[i] <= 0x10FFFF
  {
    if s == [] then [] else [Utf8Next(s).cp] + Decode8(s[Utf8Next(s).len..])
  }

  /** No byte of the text was replaced. */
  predicate Clean8(s: seq<byte>) {
    s == [] || (!Utf8Next(s).bad && Clean8(s[Utf8Next(s).len..]))
  }

  function Utf16Next(w: seq<u16>): (r: Next)
    requires w != []
    ensures 1 <= r.len <= |w| && r.cp <= 0x10FFFF
  {
    if |w| >= 2 && High(w[0]) && Low(w[1])
    then Next(2, 0x1_0000 + 1024 * (w[0] as int - 0xD800) + (w[1] as int - 0xDC00), false)
    else if High(w[0]) || Low(w[0]) then Next(1, REPLACEMENT, true)
    else Next(1, w[0], false)
  }

  function Decode16(w: seq<u16>): (cs: seq<nat>)
    ensures forall i :: 0 <= i < |cs| ==> cs[i] <= 0x10FFFF
  {
    if w == [] then [] else [Utf16Next(w).cp] + Decode16(w[Utf16Next(w).len..])
  }

  predicate Clean16(w: seq<u16>) {
    w == [] || (!Utf16Next(w).bad && Clean16(w[Utf16Next(w).len..]))
  }

  /** UTF-8 to UTF-16 and back, as the shim converts. */
  function Widen(s: seq<byte>): seq<u16> { Encode16(Decode8(s)) }

  function Narrow(w: seq<u16>): seq<byte> { Encode8(Decode16(w)) }

  // ------------------------------------------------------------------------
  // One code point: utf8_next is exactly the grammar
  // ------------------------------------------------------------------------

  lemma Digits(a: nat, b: nat, c: nat, d: nat)
    requires b < 64 && c < 64 && d < 64
    ensures var v := ((a * 64 + b) * 64 + c) * 64 + d;
      && v % 64 == d && v / 64 % 64 == c && v / 4096 % 64 == b && v / 0x4_0000 == a && v / 4096 == a * 64 + b
      && v / 64 == (a * 64 + b) * 64 + c
  {
    var v1 := a * 64 + b;
    var v2 := v1 * 64 + c;
    var v := v2 * 64 + d;
    assert v / 64 == v2 && v2 / 64 == v1 && v1 / 64 == a;
    assert v / 4096 == v / 64 / 64;
    assert v / 0x4_0000 == v / 4096 / 64;
  }

  lemma Undigits(c: nat)
    ensures c == ((c / 0x4_0000 * 64 + c / 4096 % 64) * 64 + c / 64 % 64) * 64 + c % 64
    ensures c == (c / 4096 * 64 + c / 64 % 64) * 64 + c % 64
    ensures c == c / 64 * 64 + c % 64
  {
    assert c / 4096 == c / 64 / 64;
    assert c / 0x4_0000 == c / 4096 / 64;
  }

  lemma Payload(b: byte)
    ensures Tail(b) ==> b % 64 == b - 0x80
    ensures TailCount(b) == 1 ==> b % 32 == b - 0xC0
    ensures TailCount(b) == 2 ==> b % 16 == b - 0xE0
    ensures TailCount(b) == 3 ==> b % 8 == b - 0xF0
  {
  }

  /** The digits of the value collected from n continuation bytes. */
  lemma CollectedValue(s: seq<byte>, n: nat)
    requires 1 <= n < |s| && n == TailCount(s[0]) && forall i :: 1 <= i <= n ==> Tail(s[i])
    ensures n == 1 ==> Collected(s, 1) == 64 * (s[0] as int - 0xC0) + (s[1] as int - 0x80)
    ensures n == 2 ==> Collected(s, 2) == 4096 * (s[0] as int - 0xE0) + 64 * (s[1] as int - 0x80) + (s[2] as int - 0x80)
    ensures n == 3 ==> Collected(s, 3) == 0x4_0000 * (s[0] as int - 0xF0) + 4096 * (s[1] as int - 0x80)
                                          + 64 * (s[2] as int - 0x80) + (s[3] as int - 0x80)
  {
    Payload(s[0]);
    Payload(s[1]);
    assert Collected(s, 1) == Collected(s, 0) * 64 + s[1] % 64;
    if n >= 2 { Payload(s[2]); assert Collected(s, 2) == Collected(s, 1) * 64 + s[2] % 64; }
    if n >= 3 { Payload(s[3]); assert Collected(s, 3) == Collected(s, 2) * 64 + s[3] % 64; }
  }

  lemma Char2(a: byte, b: byte, v: nat)
    requires TailCount(a) == 1 && Tail(b) && v == 64 * (a as int - 0xC0) + (b as int - 0x80)
    ensures 0x80 <= v < 0x800 && Utf8Of(v) == [a, b]
  {
    Digits(0, 0, a - 0xC0, b - 0x80);
  }

  lemma Next2(s: seq<byte>)
    requires |s| >= 2 && TailCount(s[0]) == 1 && Tail(s[1])
    ensures Utf8Next(s) == Next(2, Collected(s, 1), false)
    ensures Scalar(Collected(s, 1)) && Utf8Of(Collected(s, 1)) == s[..2]
  {
    hide Collected, Utf8Of;
    assert s[..2] == [s[0], s[1]];
    CollectedValue(s, 1);
    Char2(s[0], s[1], Collected(s, 1));
  }

  lemma Char3(a: byte, b: byte, c: byte, v: nat)
    requires TailCount(a) == 2 && Tail(b) && Tail(c)
    requires v == 4096 * (a as int - 0xE0) + 64 * (b as int - 0x80) + (c as int - 0x80)
    ensures Utf8Char([a, b, c]) <==> 0x800 <= v && !(0xD800 <= v <= 0xDFFF)
    ensures 0x800 <= v ==> v < 0x1_0000 && Utf8Of(v) == [a, b, c]
  {
    Digits(0, a - 0xE0, b - 0x80, c - 0x80);
  }

  lemma Char4(a: byte, b: byte, c: byte, d: byte, v: nat)
    requires TailCount(a) == 3 && Tail(b) && Tail(c) && Tail(d)
    requires v == 0x4_0000 * (a as int - 0xF0) + 4096 * (b as int - 0x80) + 64 * (c as int - 0x80) + (d as int - 0x80)
    ensures Utf8Char([a, b, c, d]) <==> 0x1_0000 <= v <= 0x10FFFF
    ensures 0x1_0000 <= v <= 0x10FFFF ==> Utf8Of(v) == [a, b, c, d]
  {
    Digits(a - 0xF0, b - 0x80, c - 0x80, d - 0x80);
  }

  lemma Next3(s: seq<byte>)
    requires |s| >= 3 && TailCount(s[0]) == 2 && Tail(s[1]) && Tail(s[2])
    ensures Utf8Next(s) == (if Utf8Char(s[..3]) then Next(3, Collected(s, 2), false) else Next(3, REPLACEMENT, true))
    ensures Utf8Char(s[..3]) ==> Scalar(Collected(s, 2)) && Utf8Of(Collected(s, 2)) == s[..3]
  {
    hide Collected, Utf8Of, Utf8Char;
    assert s[..3] == [s[0], s[1], s[2]];
    CollectedValue(s, 2);
    Char3(s[0], s[1], s[2], Collected(s, 2));
  }

  lemma Next4(s: seq<byte>)
    requires |s| >= 4 && TailCount(s[0]) == 3 && Tail(s[1]) && Tail(s[2]) && Tail(s[3])
    ensures Utf8Next(s) == (if Utf8Char(s[..4]) then Next(4, Collected(s, 3), false) else Next(4, REPLACEMENT, true))
    ensures Utf8Char(s[..4]) ==> Scalar(Collected(s, 3)) && Utf8Of(Collected(s, 3)) == s[..4]
  {
    hide Collected, Utf8Of, Utf8Char;
    assert s[..4] == [s[0], s[1], s[2], s[3]];
    CollectedValue(s, 3);
    Char4(s[0], s[1], s[2], s[3], Collected(s, 3));
  }

  /** The length of the only UTF8-char that can start with b; 0 if none can. */
  function CharLen(b: byte): nat {
    if b < 0x80 then 1 else if TailCount(b) == 0 then 0 else 1 + TailCount(b)
  }

  ghost predicate TailsPresent(s: seq<byte>)
    requires s != []
  {
    CharLen(s[0]) <= |s| && forall i :: 1 <= i < CharLen(s[0]) ==> Tail(s[i])
  }

  lemma NextCut(s: seq<byte>)
    requires s != [] && TailCount(s[0]) > 0 && !TailsPresent(s)
    ensures Utf8Next(s).bad && Utf8Next(s).cp == REPLACEMENT
  {
  }

  /** utf8_next accepts a text exactly when it starts with a UTF8-char of RFC 3629, and then it
      consumes that character and returns the scalar value it encodes. */
  lemma Utf8NextExact(s: seq<byte>)
    requires s != []
    ensures !Utf8Next(s).bad <==> StartsWithChar(s)
    ensures forall k :: 1 <= k <= |s| && Utf8Char(s[..k]) ==> k == Utf8Next(s).len
    ensures Scalar(Utf8Next(s).cp)
    ensures !Utf8Next(s).bad ==> Utf8Char(s[..Utf8Next(s).len]) && Utf8Of(Utf8Next(s).cp) == s[..Utf8Next(s).len]
    ensures Utf8Next(s).bad ==> Utf8Next(s).cp == 0xFFFD
  {
    var n := CharLen(s[0]);
    assert forall k :: 1 <= k <= |s| && Utf8Char(s[..k]) ==> k == n && TailsPresent(s);
    if s[0] >= 0x80 && TailCount(s[0]) > 0 {
      if TailsPresent(s) {
        if n == 2 { Next2(s); } else if n == 3 { Next3(s); } else { Next4(s); }
      } else {
        NextCut(s);
      }
    }
  }

  /** Where a text is malformed one U+FFFD stands for the first byte and the continuation bytes that follow it, of which
      no more than it announces are taken; reading goes on with the first byte that is not one of them. */
  lemma Utf8Resumes(s: seq<byte>)
    requires s != [] && !StartsWithChar(s)
    ensures var r := Utf8Next(s);
      var most := if 0xC2 <= s[0] <= 0xDF then 1 else if 0xE0 <= s[0] <= 0xEF then 2 else if 0xF0 <= s[0] <= 0xF4 then 3
                  else 0;
      && r.cp == 0xFFFD && r.len <= 1 + most && (forall i :: 1 <= i < r.len ==> 0x80 <= s[i] <= 0xBF)
      && (r.len == 1 + most || r.len == |s| || !(0x80 <= s[r.len] <= 0xBF))
  {
    Utf8NextExact(s);
    hide Collected;
  }

  /** What one code point is written as, utf8_next reads back, whatever follows. */
  lemma Utf8OfNext(c: nat, rest: seq<byte>)
    requires Scalar(c)
    ensures Utf8Char(Utf8Of(c))
    ensures Utf8Next(Utf8Of(c) + rest) == Next(|Utf8Of(c)|, c, false)
  {
    var s := Utf8Of(c) + rest;
    var k := |Utf8Of(c)|;
    assert s[..k] == Utf8Of(c);
    hide Utf8Next, Collected;
    Undigits(c);
    if k > 1 { CollectedValue(s, k - 1); }
    if k == 2 { Next2(s); } else if k == 3 { Next3(s); } else if k == 4 { Next4(s); }
  }

  lemma Utf16OfNext(c: nat, rest: seq<u16>)
    requires Scalar(c)
    ensures Utf16Next(Utf16Of(c) + rest) == Next(|Utf16Of(c)|, c, false)
  {
  }

  lemma Utf16NextExact(w: seq<u16>)
    requires w != []
    ensures Utf16Next(w).bad <==> (High(w[0]) && !(|w| >= 2 && Low(w[1]))) || Low(w[0])
    ensures !Utf16Next(w).bad ==> Utf16Of(Utf16Next(w).cp) == w[..Utf16Next(w).len]
    ensures Utf16Next(w).len == if |w| >= 2 && High(w[0]) && Low(w[1]) then 2 else 1
    ensures Utf16Next(w).bad ==> Utf16Next(w).cp == 0xFFFD
    ensures |w| >= 2 && 0xD800 <= w[0] < 0xDC00 && 0xDC00 <= w[1] < 0xE000 ==>
      Utf16Next(w) == Next(2, 0x1_0000 + 0x400 * (w[0] as int - 0xD800) + (w[1] as int - 0xDC00), false)
    ensures w[0] < 0xD800 || w[0] >= 0xE000 ==> Utf16Next(w) == Next(1, w[0], false)
  {
  }

  // ------------------------------------------------------------------------
  // Whole texts
  // ------------------------------------------------------------------------

  lemma {:induction false} Decode8Scalars(s: seq<byte>)
    ensures Scalars(Decode8(s))
  {
    if s != [] {
      Utf8NextExact(s);
      Decode8Scalars(s[Utf8Next(s).len..]);
    }
  }

  lemma {:induction false} Decode16Scalars(w: seq<u16>)
    ensures Scalars(Decode16(w))
  {
    if w != [] { Decode16Scalars(w[Utf16Next(w).len..]); }
  }

  lemma {:induction false} Decode8OfEncode8(cs: seq<nat>)
    requires Scalars(cs)
    ensures Decode8(Encode8(cs)) == cs && WellFormed8(Encode8(cs))
  {
    if cs != [] {
      var head, rest := Utf8Of(cs[0]), Encode8(cs[1..]);
      Decode8OfEncode8(cs[1..]);
      Utf8OfNext(cs[0], rest);
      assert Encode8(cs) == head + rest;
      assert (head + rest)[|head|..] == rest && (head + rest)[..|head|] == head;
    }
  }

  lemma {:induction false} Decode16OfEncode16(cs: seq<nat>)
    requires Scalars(cs)
    ensures Decode16(Encode16(cs)) == cs && WellFormed16(Encode16(cs))
  {
    if cs != [] {
      var head, rest := Utf16Of(cs[0]), Encode16(cs[1..]);
      Decode16OfEncode16(cs[1..]);
      Utf16OfNext(cs[0], rest);
      assert Encode16(cs) == head + rest;
      assert (head + rest)[|head|..] == rest;
    }
  }

  lemma {:induction false} Encode8OfDecode8(s: seq<byte>)
    ensures Clean8(s) <==> WellFormed8(s)
    ensures WellFormed8(s) ==> Encode8(Decode8(s)) == s
  {
    hide Utf8Next, Utf8Char, Utf8Of, Scalar;
    if s != [] {
      var r := Utf8Next(s);
      Utf8NextExact(s);
      Encode8OfDecode8(s[r.len..]);
      assert Decode8(s)[1..] == Decode8(s[r.len..]);
      if WellFormed8(s) { assert s == s[..r.len] + s[r.len..]; }
    }
  }

  lemma {:induction false} Encode16OfDecode16(w: seq<u16>)
    ensures Clean16(w) <==> WellFormed16(w)
    ensures WellFormed16(w) ==> Encode16(Decode16(w)) == w
  {
    hide Utf16Next, Utf16Of;
    if w != [] {
      var r := Utf16Next(w);
      Utf16NextExact(w);
      Encode16OfDecode16(w[r.len..]);
      assert Decode16(w)[1..] == Decode16(w[r.len..]);
      if WellFormed16(w) { assert w == w[..r.len] + w[r.len..]; }
    }
  }

  /** Either conversion gives well-formed text on any input at all. */
  lemma OutputsWellFormed(s: seq<byte>, w: seq<u16>)
    ensures WellFormed16(Widen(s)) && WellFormed8(Narrow(w))
  {
    Decode8Scalars(s);
    Decode16Scalars(w);
    Decode16OfEncode16(Decode8(s));
    Decode8OfEncode8(Decode16(w));
  }

  /** The round trip is the identity exactly on well-formed UTF-8, and a second one changes nothing. */
  lemma Utf8RoundTrip(s: seq<byte>)
    ensures Narrow(Widen(s)) == s <==> WellFormed8(s)
    ensures Narrow(Widen(Narrow(Widen(s)))) == Narrow(Widen(s))
  {
    Decode8Scalars(s);
    Decode16OfEncode16(Decode8(s));
    assert Narrow(Widen(s)) == Encode8(Decode8(s));
    Decode8OfEncode8(Decode8(s));
    Encode8OfDecode8(s);
    Decode8Scalars(Encode8(Decode8(s)));
  }

  lemma Utf16RoundTrip(w: seq<u16>)
    ensures Widen(Narrow(w)) == w <==> WellFormed16(w)
    ensures Widen(Narrow(Widen(Narrow(w)))) == Widen(Narrow(w))
  {
    Decode16Scalars(w);
    Decode8OfEncode8(Decode16(w));
    assert Widen(Narrow(w)) == Encode16(Decode16(w));
    Decode16OfEncode16(Decode16(w));
    Encode16OfDecode16(w);
    Decode16Scalars(Encode16(Decode16(w)));
  }

  /** UTF-16 units never outnumber UTF-8 bytes. */
  lemma {:induction false} WidenLength(s: seq<byte>)
    ensures |Widen(s)| <= |s|
  {
    if s != [] {
      var r := Utf8Next(s);
      WidenLength(s[r.len..]);
      Utf8NextExact(s);
      assert |Utf16Of(r.cp)| <= r.len;
      assert Decode8(s)[1..] == Decode8(s[r.len..]);
    }
  }
}
