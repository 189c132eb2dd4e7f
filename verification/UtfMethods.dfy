/** The conversion loops themselves: utf8_next, utf8_to_wchar, MultiByteToWideChar,
    WideCharToMultiByte and the environment block (shim.cpp, shim_kernel32_string.hpp). */
module UtfMethods {
  import opened Common
  import opened Bytes
  import opened Utf

  datatype Error = NoError | InvalidParameter | NoTranslation | InsufficientBuffer

  // ------------------------------------------------------------------------
  // utf8_next
  // ------------------------------------------------------------------------

  /** utf8_next on the bytes of s from p up to e; bad is sticky, as the out-parameter is. */
  method NextCodePoint(s: seq<byte>, p: nat, e: nat, bad: bool) returns (len: nat, cp: nat, bad': bool)
    requires p < e <= |s|
    ensures var r := Utf8Next(s[p..e]); len == r.len && cp == r.cp && bad' == (bad || r.bad)
  {
    ghost var t := s[p..e];
    var c := s[p];
    if c < 0x80 { return 1, c, bad; }
    var n: nat, v: nat;
    if 0xC2 <= c <= 0xDF { n, v := 1, c % 32; }
    else if 0xE0 <= c <= 0xEF { n, v := 2, c % 16; }
    else if 0xF0 <= c <= 0xF4 { n, v := 3, c % 8; }
    else { return 1, REPLACEMENT, true; }
    var i := 1;
    while i <= n
      invariant 1 <= i <= n + 1 && n == TailCount(t[0]) && i <= |t|
      invariant forall k :: 1 <= k < i ==> Follows(t, k)
      invariant v == Collected(t, i - 1)
    {
      if p + i >= e || !(0x80 <= s[p + i] <= 0xBF) {
        assert !Follows(t, i);
        return i, REPLACEMENT, true;
      }
      assert t[i] == s[p + i];
      v := v * 64 + s[p + i] % 64;
      i := i + 1;
    }
    if (n == 2 && v < 0x800) || (n == 3 && v < 0x1_0000) || v > 0x10FFFF || 0xD800 <= v <= 0xDFFF {
      return n + 1, REPLACEMENT, true;
    }
    return n + 1, v, bad;
  }

  // ------------------------------------------------------------------------
  // Prefixes of a text cut between code points
  // ------------------------------------------------------------------------

  /** How many whole code points fit in room UTF-16 units. */
  function Fit(cs: seq<nat>, room: nat): (k: nat)
    requires forall i :: 0 <= i < |cs| ==> cs[i] <= 0x10FFFF
    ensures k <= |cs|
  {
    if cs == [] || |Utf16Of(cs[0])| > room then 0 else 1 + Fit(cs[1..], room - |Utf16Of(cs[0])|)
  }

  /** Fit is the most code points that fit: it fits, and one more does not. */
  lemma {:induction false} FitIsMost(cs: seq<nat>, room: nat)
    requires forall i :: 0 <= i < |cs| ==> cs[i] <= 0x10FFFF
    ensures |Encode16(cs[..Fit(cs, room)])| <= room
    ensures Fit(cs, room) < |cs| ==> |Encode16(cs[..Fit(cs, room) + 1])| > room
  {
    if cs != [] {
      var k := Fit(cs, room);
      var u := |Utf16Of(cs[0])|;
      if u <= room {
        FitIsMost(cs[1..], room - u);
        assert cs[..k][1..] == cs[1..][..k - 1];
        if k < |cs| { assert cs[..k + 1][1..] == cs[1..][..k]; }
      } else {
        assert cs[..1][1..] == [];
      }
    }
  }

  lemma FitAll(cs: seq<nat>, room: nat)
    requires forall i :: 0 <= i < |cs| ==> cs[i] <= 0x10FFFF
    requires |Encode16(cs)| <= room
    ensures Fit(cs, room) == |cs|
  {
    if cs != [] { FitAll(cs[1..], room - |Utf16Of(cs[0])|); }
  }

  // ------------------------------------------------------------------------
  // Decoding and storing one code point
  // ------------------------------------------------------------------------

  lemma {:induction false} Encode16Snoc(cs: seq<nat>, c: nat)
    requires (forall i :: 0 <= i < |cs| ==> cs[i] <= 0x10FFFF) && c <= 0x10FFFF
    ensures Encode16(cs + [c]) == Encode16(cs) + Utf16Of(c)
  {
    hide Utf16Of;
    if cs == [] {
      assert [] + [c] == [c];
      assert Encode16([c]) == Utf16Of(c) + Encode16([]);
    } else {
      Encode16Snoc(cs[1..], c);
      assert (cs + [c])[1..] == cs[1..] + [c];
      assert Utf16Of(cs[0]) + (Encode16(cs[1..]) + Utf16Of(c)) == Encode16(cs) + Utf16Of(c);
    }
  }

  lemma {:induction false} Encode8Snoc(cs: seq<nat>, c: nat)
    requires (forall i :: 0 <= i < |cs| ==> cs[i] <= 0x10FFFF) && c <= 0x10FFFF
    ensures Encode8(cs + [c]) == Encode8(cs) + Utf8Of(c)
  {
    hide Utf8Of;
    if cs == [] {
      assert [] + [c] == [c];
      assert Encode8([c]) == Utf8Of(c) + Encode8([]);
    } else {
      Encode8Snoc(cs[1..], c);
      assert (cs + [c])[1..] == cs[1..] + [c];
      assert Utf8Of(cs[0]) + (Encode8(cs[1..]) + Utf8Of(c)) == Encode8(cs) + Utf8Of(c);
    }
  }

  ghost predicate InRange(cs: seq<nat>) { forall i :: 0 <= i < |cs| ==> cs[i] <= 0x10FFFF }

  /** A decoding loop has read t[..p] as the code points cs[..k] of the whole text. */
  ghost predicate Reading(t: seq<byte>, p: nat, cs: seq<nat>, k: nat, bad: bool) {
    && p <= |t| && k <= |cs| && cs == Decode8(t)
    && Decode8(t[p..]) == cs[k..]
    && (Clean8(t) <==> !bad && Clean8(t[p..]))
  }

  lemma ReadingStart(t: seq<byte>)
    ensures Reading(t, 0, Decode8(t), 0, false)
  {
    assert t[0..] == t;
  }

  lemma ReadingEnd(t: seq<byte>, cs: seq<nat>, k: nat, bad: bool)
    requires Reading(t, |t|, cs, k, bad)
    ensures k == |cs| && cs[..k] == Decode8(t) && (WellFormed8(t) <==> !bad)
  {
    assert t[|t|..] == [];
    assert |cs[k..]| == 0;
    Encode8OfDecode8(t);
  }

  lemma ReadingBad(t: seq<byte>, p: nat, cs: seq<nat>, k: nat)
    requires Reading(t, p, cs, k, true)
    ensures !WellFormed8(t)
  {
    Encode8OfDecode8(t);
  }

  /** One utf8_next of a conversion loop. */
  method Advance(t: seq<byte>, p: nat, bad: bool, ghost cs: seq<nat>, ghost k: nat)
    returns (p': nat, cp: nat, bad': bool)
    requires Reading(t, p, cs, k, bad) && p < |t|
    ensures p < p' && k < |cs| && cs[k] == cp <= 0x10FFFF && Reading(t, p', cs, k + 1, bad')
    ensures bad ==> bad'
  {
    var len;
    len, cp, bad' := NextCodePoint(t, p, |t|, bad);
    hide Utf8Next;
    ghost var rest := t[p..];
    assert t[p..|t|] == rest;
    assert rest[len..] == t[p + len..];
    assert cs[k..][0] == cs[k] && cs[k..][1..] == cs[k + 1..];
    p' := p + len;
  }

  /** dst holds, from position at, the UTF-16 form of cs[..k] in n units, and is as it was elsewhere. */
  ghost predicate Stored16(dst: seq<u16>, before: seq<u16>, at: nat, cs: seq<nat>, k: nat, n: nat) {
    && InRange(cs) && k <= |cs| && |dst| == |before| && at + n <= |dst|
    && n == |Encode16(cs[..k])|
    && dst == before[..at] + Encode16(cs[..k]) + before[at + n..]
  }

  lemma Stored16Start(dst: seq<u16>, at: nat, cs: seq<nat>)
    requires InRange(cs) && at <= |dst|
    ensures Stored16(dst, dst, at, cs, 0, 0)
  {
    assert cs[..0] == [];
    assert dst == dst[..at] + [] + dst[at..];
  }

  lemma Stored16Step(dst: seq<u16>, before: seq<u16>, at: nat, cs: seq<nat>, k: nat, n: nat)
    requires Stored16(dst, before, at, cs, k, n) && k < |cs| && at + n + |Utf16Of(cs[k])| <= |dst|
    ensures Stored16(dst[..at + n] + Utf16Of(cs[k]) + dst[at + n + |Utf16Of(cs[k])|..], before, at, cs, k + 1,
        n + |Utf16Of(cs[k])|)
  {
    Encode16Snoc(cs[..k], cs[k]);
    assert cs[..k + 1] == cs[..k] + [cs[k]];
    hide Encode16, Utf16Of;
    var u, e := Utf16Of(cs[k]), Encode16(cs[..k]);
    assert dst[..at + n] == before[..at] + e;
    assert dst[at + n + |u|..] == before[at + n + |u|..];
    assert before[..at] + e + u + before[at + n + |u|..] == before[..at] + (e + u) + before[at + n + |u|..];
  }

  /** The one or two assignments that store a code point. */
  method Put16(dst: array<u16>, at: nat, cp: nat) returns (end: nat)
    requires cp <= 0x10FFFF && at + |Utf16Of(cp)| <= dst.Length
    modifies dst
    ensures end == at + |Utf16Of(cp)|
    ensures dst[..] == old(dst[..])[..at] + Utf16Of(cp) + old(dst[..])[end..]
  {
    if cp < 0x1_0000 {
      dst[at] := cp;
      end := at + 1;
    } else {
      var c := cp - 0x1_0000;
      dst[at] := 0xD800 + c / 1024;
      dst[at + 1] := 0xDC00 + c % 1024;
      end := at + 2;
    }
  }

  function Units(cp: nat): nat { if cp < 0x1_0000 then 1 else 2 }

  lemma UnitsCount(cp: nat)
    requires cp <= 0x10FFFF
    ensures |Utf16Of(cp)| == Units(cp)
  {
  }

  method Store16(dst: array<u16>, ghost before: seq<u16>, at: nat, n: nat, cp: nat, ghost cs: seq<nat>, ghost k: nat)
    returns (n': nat)
    requires Stored16(dst[..], before, at, cs, k, n) && k < |cs| && cs[k] == cp <= 0x10FFFF
    requires at + n + Units(cp) <= dst.Length
    modifies dst
    ensures Stored16(dst[..], before, at, cs, k + 1, n') && n' == n + Units(cp)
  {
    hide *;
    UnitsCount(cp);
    Stored16Step(dst[..], before, at, cs, k, n);
    var end := Put16(dst, at + n, cp);
    n' := end - at;
  }

  // ------------------------------------------------------------------------
  // utf8_to_wchar
  // ------------------------------------------------------------------------

  lemma FitStep(cs: seq<nat>, k: nat, room: nat)
    requires k < |cs| && InRange(cs)
    ensures var u := Units(cs[k]);
      if u <= room then Fit(cs[k..], room) == 1 + Fit(cs[k + 1..], room - u) else Fit(cs[k..], room) == 0
  {
    assert cs[k..][1..] == cs[k + 1..];
  }

  /** utf8_to_wchar into the dstsz units of dst from position at: the longest prefix of the text,
      cut between code points, that leaves room for the terminator. */
  method Utf8ToWchar(src: seq<byte>, dst: array<u16>, at: nat, dstsz: nat) returns (n: nat)
    requires 0 !in src
    requires at + dstsz <= dst.Length
    modifies dst
    ensures dstsz == 0 ==> n == 0 && dst[..] == old(dst[..])
    ensures dstsz > 0 ==> n < dstsz && var cs := Decode8(src)[..Fit(Decode8(src), dstsz - 1)];
      && n == |Encode16(cs)|
      && dst[..] == old(dst[..at]) + Encode16(cs) + [0] + old(dst[at + n + 1..])
  {
    if dstsz == 0 { return 0; }
    ghost var before := dst[..];
    ghost var cs := Decode8(src);
    ghost var k: nat;
    n, k := FillFrom(src, dst, at, dstsz);
    ghost var text := Encode16(cs[..k]);
    assert dst[..] == before[..at] + text + before[at + n..];
    hide *;
    dst[at + n] := 0;
    assert dst[..] == before[..at] + text + [0] + before[at + n + 1..];
  }

  /** Its conversion loop, before the terminator is stored. */
  method FillFrom(src: seq<byte>, dst: array<u16>, at: nat, dstsz: nat) returns (n: nat, ghost k: nat)
    requires dstsz > 0 && at + dstsz <= dst.Length
    modifies dst
    ensures n < dstsz && k == Fit(Decode8(src), dstsz - 1)
    ensures Stored16(dst[..], old(dst[..]), at, Decode8(src), k, n)
  {
    ghost var before := dst[..];
    ghost var cs := Decode8(src);
    var s, bad, full := 0, false, false;
    n, k := 0, 0;
    ReadingStart(src);
    Stored16Start(dst[..], at, cs);
    assert cs[0..] == cs && InRange(cs);
    hide Reading, Stored16, Decode8, Fit, InRange;
    while s < |src| && n + 1 < dstsz && !full
      invariant s <= |src| && n < dstsz && k <= |cs|
      invariant Reading(src, s, cs, if full then k + 1 else k, bad)
      invariant Stored16(dst[..], before, at, cs, k, n)
      invariant Fit(cs, dstsz - 1) == k + Fit(cs[k..], dstsz - 1 - n)
      invariant full ==> Fit(cs[k..], dstsz - 1 - n) == 0
      decreases |src| - s
    {
      var cp;
      s, cp, bad := Advance(src, s, bad, cs, k);
      ReadingBounds(src, s, cs, k + 1, bad);
      FitStep(cs, k, dstsz - 1 - n);
      if cp >= 0x1_0000 && n + 2 >= dstsz {
        full := true;
      } else {
        n := Store16(dst, before, at, n, cp, cs, k);
        k := k + 1;
      }
    }
    FitNone(src, s, cs, k, dstsz - 1 - n, bad, full);
  }

  lemma ReadingBounds(t: seq<byte>, p: nat, cs: seq<nat>, k: nat, bad: bool)
    requires Reading(t, p, cs, k, bad)
    ensures p <= |t| && k <= |cs|
  {
  }

  /** The loop stops at the end of the text, with one unit left, or before a pair that does not fit. */
  lemma FitNone(src: seq<byte>, p: nat, cs: seq<nat>, k: nat, room: nat, bad: bool, full: bool)
    requires k <= |cs| && InRange(cs)
    requires full ==> Fit(cs[k..], room) == 0
    requires !full ==> Reading(src, p, cs, k, bad) && (p == |src| || room == 0)
    ensures Fit(cs[k..], room) == 0
  {
    if !full && p == |src| { ReadingEnd(src, cs, k, bad); }
  }

  // ------------------------------------------------------------------------
  // MultiByteToWideChar
  // ------------------------------------------------------------------------

  /** Length of a zero-terminated text. */
  function StrLen(s: seq<int>): (n: nat)
    requires 0 in s
    ensures n < |s| && s[n] == 0 && 0 !in s[..n]
  {
    if s[0] == 0 then 0 else
      var m := StrLen(s[1..]);
      assert s[..m + 1] == [s[0]] + s[1..][..m];
      1 + m
  }

  /** The caller's part: a negative length means zero-terminated, any other stays in the buffer. */
  predicate Readable<T>(src: Option<seq<T>>, srclen: int, terminated: bool) {
    src.Some? ==> if srclen < 0 then terminated else srclen <= |src.value|
  }

  predicate BadCall<T>(src: Option<seq<T>>, srclen: int, noDst: bool, dstlen: int) {
    src.None? || srclen == 0 || dstlen < 0 || (dstlen > 0 && noDst)
  }

  function Text8(src: seq<byte>, srclen: int): seq<byte>
    requires if srclen < 0 then 0 in src else srclen <= |src|
  {
    if srclen < 0 then src[..StrLen(src) + 1] else src[..srclen]
  }

  function Text16(src: seq<u16>, srclen: int): seq<u16>
    requires if srclen < 0 then 0 in src else srclen <= |src|
  {
    if srclen < 0 then src[..StrLen(src) + 1] else src[..srclen]
  }

  datatype Reply = Reply(n: nat, error: Error)

  /** What a conversion of a text to out must answer: the count in either mode, success exactly
      when the text is acceptable and the result fits. */
  ghost predicate Answers(r: Reply, strict: bool, wellFormed: bool, out: nat, dstlen: int) {
    && (r.error.NoError? <==> (strict ==> wellFormed) && (dstlen == 0 || out <= dstlen))
    && (r.error.NoError? ==> r.n == out)
    && (!r.error.NoError? ==> r.n == 0)
    && (r.error.NoTranslation? ==> strict && !wellFormed)
    && (r.error.InsufficientBuffer? ==> out > dstlen > 0)
    && !r.error.InvalidParameter?
  }

  lemma {:induction false} Encode16Prefix(cs: seq<nat>, k: nat)
    requires k <= |cs| && forall i :: 0 <= i < |cs| ==> cs[i] <= 0x10FFFF
    ensures |Encode16(cs[..k])| <= |Encode16(cs)|
  {
    if k > 0 {
      Encode16Prefix(cs[1..], k - 1);
      assert cs[..k][1..] == cs[1..][..k - 1];
    }
  }

  method MultiByteToWideChar(strict: bool, src: Option<seq<byte>>, srclen: int, dst: array?<u16>, dstlen: int)
    returns (r: Reply)
    requires Readable(src, srclen, src.Some? && 0 in src.value)
    requires dst != null ==> dstlen <= dst.Length
    modifies dst
    ensures BadCall(src, srclen, dst == null, dstlen) ==> r == Reply(0, InvalidParameter)
    ensures !BadCall(src, srclen, dst == null, dstlen) ==>
      var t := Text8(src.value, srclen);
      && Answers(r, strict, WellFormed8(t), |Widen(t)|, dstlen)
      && (r.error.NoError? && dstlen > 0 ==>
            dst[..r.n] == Widen(t) && dst[r.n..] == old(dst[r.n..]))
    ensures dst != null && dstlen <= 0 ==> dst[..] == old(dst[..])
  {
    if BadCall(src, srclen, dst == null, dstlen) { return Reply(0, InvalidParameter); }
    r := Widening(strict, Text8(src.value, srclen), dst, dstlen);
  }

  lemma BadAnswer(out: nat, dstlen: nat)
    ensures Answers(Reply(0, NoTranslation), true, false, out, dstlen)
  {
  }

  lemma Encode16Count(cs: seq<nat>, k: nat)
    requires k < |cs| && InRange(cs)
    ensures |Encode16(cs[..k + 1])| == |Encode16(cs[..k])| + Units(cs[k])
  {
    Encode16Snoc(cs[..k], cs[k]);
    assert cs[..k + 1] == cs[..k] + [cs[k]];
  }

  ghost function Contents16(dst: array?<u16>): seq<u16>
    reads dst
  {
    if dst == null then [] else dst[..]
  }

  /** The state of the conversion: n units counted, and stored when there is a buffer. */
  ghost predicate Held16(dst: seq<u16>, before: seq<u16>, dstlen: nat, cs: seq<nat>, k: nat, n: nat) {
    && InRange(cs) && k <= |cs| && n == |Encode16(cs[..k])|
    && if dstlen == 0 then dst == before else n <= dstlen && Stored16(dst, before, 0, cs, k, n)
  }

  /** One turn of the loop; a result other than NoError ends the call. */
  method WidenOne(strict: bool, t: seq<byte>, p: nat, bad: bool, dst: array?<u16>, dstlen: nat, n: nat,
                  ghost before: seq<u16>, ghost cs: seq<nat>, ghost k: nat)
    returns (p': nat, bad': bool, n': nat, error: Error)
    requires dstlen > 0 ==> dst != null && dstlen <= dst.Length
    requires Reading(t, p, cs, k, bad) && p < |t| && (strict ==> !bad)
    requires Held16(Contents16(dst), before, dstlen, cs, k, n)
    modifies dst
    ensures error.NoError? ==> p < p' <= |t| && k < |cs| && Reading(t, p', cs, k + 1, bad') && (strict ==> !bad')
    ensures error.NoError? ==> Held16(Contents16(dst), before, dstlen, cs, k + 1, n')
    ensures !error.NoError? ==> Answers(Reply(0, error), strict, WellFormed8(t), |Widen(t)|, dstlen)
    ensures dstlen == 0 ==> Contents16(dst) == old(Contents16(dst))
  {
    hide *;
    var c;
    p', c, bad' := Advance(t, p, bad, cs, k);
    n', error := n, NoError;
    ReadingBounds(t, p', cs, k + 1, bad');
    if bad' && strict {
      ReadingBad(t, p', cs, k + 1);
      BadAnswer(|Widen(t)|, dstlen);
      error := NoTranslation;
    } else if dstlen > 0 && n + Units(c) > dstlen {
      Full16(t, p', bad', Contents16(dst), before, dstlen, cs, k, n, strict);
      error := InsufficientBuffer;
    } else {
      n' := HeldStore16(dst, before, dstlen, n, c, cs, k);
    }
  }

  lemma Full16(t: seq<byte>, p: nat, bad: bool, dst: seq<u16>, before: seq<u16>, dstlen: nat, cs: seq<nat>, k: nat,
               n: nat, strict: bool)
    requires Reading(t, p, cs, k + 1, bad) && Held16(dst, before, dstlen, cs, k, n)
    requires cs[k] <= 0x10FFFF && n + Units(cs[k]) > dstlen > 0
    ensures Answers(Reply(0, InsufficientBuffer), strict, WellFormed8(t), |Widen(t)|, dstlen)
  {
    Encode16Count(cs, k);
    Encode16Prefix(cs, k + 1);
  }

  method HeldStore16(dst: array?<u16>, ghost before: seq<u16>, dstlen: nat, n: nat, c: nat, ghost cs: seq<nat>,
                     ghost k: nat)
    returns (n': nat)
    requires dstlen > 0 ==> dst != null && dstlen <= dst.Length
    requires Held16(Contents16(dst), before, dstlen, cs, k, n) && k < |cs| && cs[k] == c <= 0x10FFFF
    requires dstlen > 0 ==> n + Units(c) <= dstlen
    modifies dst
    ensures Held16(Contents16(dst), before, dstlen, cs, k + 1, n')
    ensures dstlen == 0 ==> Contents16(dst) == old(Contents16(dst))
  {
    hide Encode16, Utf8Of, Stored16;
    Encode16Count(cs, k);
    if dstlen > 0 { var n'' := Store16(dst, before, 0, n, c, cs, k); }
    n' := n + Units(c);
  }

  /** The conversion loop of MultiByteToWideChar. */
  method Widening(strict: bool, t: seq<byte>, dst: array?<u16>, dstlen: nat) returns (r: Reply)
    requires dstlen > 0 ==> dst != null && dstlen <= dst.Length
    modifies dst
    ensures Answers(r, strict, WellFormed8(t), |Widen(t)|, dstlen)
    ensures r.error.NoError? && dstlen > 0 ==> dst[..r.n] == Widen(t) && dst[r.n..] == old(dst[r.n..])
    ensures dst != null && dstlen == 0 ==> dst[..] == old(dst[..])
  {
    ghost var before := Contents16(dst);
    ghost var cs, k := Decode8(t), 0;
    var p, n: nat, bad := 0, 0, false;
    ReadingStart(t);
    if dstlen > 0 { Stored16Start(dst[..], 0, cs); }
    assert Held16(before, before, dstlen, cs, k, n) by { assert Encode16(cs[..0]) == []; }
    hide Reading, Held16, Decode8;
    while p < |t|
      invariant p <= |t|
      invariant Reading(t, p, cs, k, bad) && (strict ==> !bad)
      invariant Held16(Contents16(dst), before, dstlen, cs, k, n)
      decreases |t| - p
    {
      var error;
      p, bad, n, error := WidenOne(strict, t, p, bad, dst, dstlen, n, before, cs, k);
      if !error.NoError? { return Reply(0, error); }
      k := k + 1;
    }
    ReadingEnd(t, cs, k, bad);
    Held16Whole(Contents16(dst), before, dstlen, cs, k, n);
    r := Reply(n, NoError);
  }

  lemma Held16Whole(dst: seq<u16>, before: seq<u16>, dstlen: nat, cs: seq<nat>, k: nat, n: nat)
    requires Held16(dst, before, dstlen, cs, k, n) && k == |cs|
    ensures n == |Encode16(cs)| && (dstlen > 0 ==> n <= dstlen)
    ensures if dstlen > 0 then n <= |dst| && dst[..n] == Encode16(cs) && dst[n..] == before[n..] else dst == before
  {
    hide Encode16;
    assert cs[..k] == cs;
    if dstlen > 0 {
      assert before[..0] + Encode16(cs) + before[n..] == Encode16(cs) + before[n..];
    }
  }

  // ------------------------------------------------------------------------
  // WideCharToMultiByte
  // ------------------------------------------------------------------------

  /** The loop has read w[..p] as the code points cs[..k] of the whole text. */
  ghost predicate Reading16(w: seq<u16>, p: nat, cs: seq<nat>, k: nat, bad: bool) {
    && p <= |w| && k <= |cs| && cs == Decode16(w)
    && Decode16(w[p..]) == cs[k..]
    && (Clean16(w) <==> !bad && Clean16(w[p..]))
  }

  lemma Reading16Start(w: seq<u16>)
    ensures Reading16(w, 0, Decode16(w), 0, false)
  {
    assert w[0..] == w;
  }

  lemma Reading16End(w: seq<u16>, cs: seq<nat>, k: nat, bad: bool)
    requires Reading16(w, |w|, cs, k, bad)
    ensures k == |cs| && cs[..k] == Decode16(w) && (WellFormed16(w) <==> !bad)
  {
    assert w[|w|..] == [];
    assert |cs[k..]| == 0;
    Encode16OfDecode16(w);
  }

  lemma Reading16Bad(w: seq<u16>, p: nat, cs: seq<nat>, k: nat)
    requires Reading16(w, p, cs, k, true)
    ensures !WellFormed16(w)
  {
    Encode16OfDecode16(w);
  }

  lemma Reading16Bounds(w: seq<u16>, p: nat, cs: seq<nat>, k: nat, bad: bool)
    requires Reading16(w, p, cs, k, bad)
    ensures p <= |w| && k <= |cs|
  {
  }

  /** One code point of a UTF-16 text, a lone surrogate replaced. */
  method Advance16(w: seq<u16>, p: nat, bad: bool, ghost cs: seq<nat>, ghost k: nat)
    returns (p': nat, cp: nat, bad': bool)
    requires Reading16(w, p, cs, k, bad) && p < |w|
    ensures p < p' && k < |cs| && cs[k] == cp <= 0x10FFFF && Reading16(w, p', cs, k + 1, bad')
    ensures bad ==> bad'
  {
    ghost var rest := w[p..];
    p', cp, bad' := p + 1, w[p], bad;
    if High(cp) && p' < |w| && Low(w[p']) {
      cp := 0x1_0000 + 1024 * (cp - 0xD800) + (w[p'] as int - 0xDC00);
      p' := p' + 1;
    } else if 0xD800 <= cp <= 0xDFFF {
      cp, bad' := REPLACEMENT, true;
    }
    assert Utf16Next(rest) == Next(p' - p, cp, 0xD800 <= w[p] <= 0xDFFF && p' == p + 1);
    assert rest[p' - p..] == w[p'..];
    assert cs[k..][0] == cs[k] && cs[k..][1..] == cs[k + 1..];
  }

  /** dst holds the UTF-8 form of cs[..k] in its first n bytes, and is as it was after them. */
  ghost predicate Stored8(dst: seq<byte>, before: seq<byte>, cs: seq<nat>, k: nat, n: nat) {
    && InRange(cs) && k <= |cs| && |dst| == |before| && n <= |dst|
    && n == |Encode8(cs[..k])|
    && dst == Encode8(cs[..k]) + before[n..]
  }

  lemma Stored8Start(dst: seq<byte>, cs: seq<nat>)
    requires InRange(cs)
    ensures Stored8(dst, dst, cs, 0, 0)
  {
    assert cs[..0] == [];
    assert dst == [] + dst[0..];
  }

  lemma Encode8Count(cs: seq<nat>, k: nat)
    requires k < |cs| && InRange(cs)
    ensures Encode8(cs[..k + 1]) == Encode8(cs[..k]) + Utf8Of(cs[k])
  {
    Encode8Snoc(cs[..k], cs[k]);
    assert cs[..k + 1] == cs[..k] + [cs[k]];
  }

  lemma {:induction false} Encode8Prefix(cs: seq<nat>, k: nat)
    requires k <= |cs| && InRange(cs)
    ensures |Encode8(cs[..k])| <= |Encode8(cs)|
  {
    if k > 0 {
      Encode8Prefix(cs[1..], k - 1);
      assert cs[..k][1..] == cs[1..][..k - 1];
    }
  }

  /** memcpy of the bytes of one code point. */
  method Store8(dst: array<byte>, ghost before: seq<byte>, n: nat, b: seq<byte>, ghost cs: seq<nat>, ghost k: nat)
    requires Stored8(dst[..], before, cs, k, n) && k < |cs| && b == Utf8Of(cs[k])
    requires n + |b| <= dst.Length
    modifies dst
    ensures Stored8(dst[..], before, cs, k + 1, n + |b|)
  {
    Encode8Count(cs, k);
    ghost var head := Encode8(cs[..k]);
    assert dst[..] == head + before[n..];
    Copy8(dst, n, b);
    hide *;
    assert (head + before[n..])[..n] == head;
    assert (head + before[n..])[n + |b|..] == before[n + |b|..];
  }

  method Copy8(dst: array<byte>, n: nat, b: seq<byte>)
    requires n + |b| <= dst.Length
    modifies dst
    ensures dst[..] == old(dst[..])[..n] + b + old(dst[..])[n + |b|..]
  {
    ghost var before := dst[..];
    var i := 0;
    while i < |b|
      invariant 0 <= i <= |b|
      invariant dst[..] == before[..n] + b[..i] + before[n + i..]
    {
      dst[n + i] := b[i];
      i := i + 1;
    }
    assert b[..i] == b;
  }

  method WideCharToMultiByte(strict: bool, src: Option<seq<u16>>, srclen: int, dst: array?<byte>, dstlen: int)
    returns (r: Reply)
    requires Readable(src, srclen, src.Some? && 0 in src.value)
    requires dst != null ==> dstlen <= dst.Length
    modifies dst
    ensures BadCall(src, srclen, dst == null, dstlen) ==> r == Reply(0, InvalidParameter)
    ensures !BadCall(src, srclen, dst == null, dstlen) ==>
      var w := Text16(src.value, srclen);
      && Answers(r, strict, WellFormed16(w), |Narrow(w)|, dstlen)
      && (r.error.NoError? && dstlen > 0 ==>
            dst[..r.n] == Narrow(w) && dst[r.n..] == old(dst[r.n..]))
    ensures dst != null && dstlen <= 0 ==> dst[..] == old(dst[..])
  {
    if BadCall(src, srclen, dst == null, dstlen) { return Reply(0, InvalidParameter); }
    r := Narrowing(strict, Text16(src.value, srclen), dst, dstlen);
  }

  ghost function Contents8(dst: array?<byte>): seq<byte>
    reads dst
  {
    if dst == null then [] else dst[..]
  }

  /** The state of the conversion: n units counted, and stored when there is a buffer. */
  ghost predicate Held8(dst: seq<byte>, before: seq<byte>, dstlen: nat, cs: seq<nat>, k: nat, n: nat) {
    && InRange(cs) && k <= |cs| && n == |Encode8(cs[..k])|
    && if dstlen == 0 then dst == before else n <= dstlen && Stored8(dst, before, cs, k, n)
  }

  /** One turn of the loop; a result other than NoError ends the call. */
  method NarrowOne(strict: bool, t: seq<u16>, p: nat, bad: bool, dst: array?<byte>, dstlen: nat, n: nat,
                   ghost before: seq<byte>, ghost cs: seq<nat>, ghost k: nat)
    returns (p': nat, bad': bool, n': nat, error: Error)
    requires dstlen > 0 ==> dst != null && dstlen <= dst.Length
    requires Reading16(t, p, cs, k, bad) && p < |t| && (strict ==> !bad)
    requires Held8(Contents8(dst), before, dstlen, cs, k, n)
    modifies dst
    ensures error.NoError? ==> p < p' <= |t| && k < |cs| && Reading16(t, p', cs, k + 1, bad') && (strict ==> !bad')
    ensures error.NoError? ==> Held8(Contents8(dst), before, dstlen, cs, k + 1, n')
    ensures !error.NoError? ==> Answers(Reply(0, error), strict, WellFormed16(t), |Narrow(t)|, dstlen)
    ensures dstlen == 0 ==> Contents8(dst) == old(Contents8(dst))
  {
    hide *;
    var c;
    p', c, bad' := Advance16(t, p, bad, cs, k);
    n', error := n, NoError;
    Reading16Bounds(t, p', cs, k + 1, bad');
    if bad' && strict {
      Reading16Bad(t, p', cs, k + 1);
      BadAnswer(|Narrow(t)|, dstlen);
      error := NoTranslation;
    } else if dstlen > 0 && n + |Utf8Of(c)| > dstlen {
      Full8(t, p', bad', Contents8(dst), before, dstlen, cs, k, n, strict);
      error := InsufficientBuffer;
    } else {
      n' := HeldStore8(dst, before, dstlen, n, c, cs, k);
    }
  }

  lemma Full8(t: seq<u16>, p: nat, bad: bool, dst: seq<byte>, before: seq<byte>, dstlen: nat, cs: seq<nat>, k: nat,
              n: nat, strict: bool)
    requires Reading16(t, p, cs, k + 1, bad) && Held8(dst, before, dstlen, cs, k, n)
    requires cs[k] <= 0x10FFFF && n + |Utf8Of(cs[k])| > dstlen > 0
    ensures Answers(Reply(0, InsufficientBuffer), strict, WellFormed16(t), |Narrow(t)|, dstlen)
  {
    Encode8Count(cs, k);
    Encode8Prefix(cs, k + 1);
  }

  method HeldStore8(dst: array?<byte>, ghost before: seq<byte>, dstlen: nat, n: nat, c: nat, ghost cs: seq<nat>,
                    ghost k: nat)
    returns (n': nat)
    requires dstlen > 0 ==> dst != null && dstlen <= dst.Length
    requires Held8(Contents8(dst), before, dstlen, cs, k, n) && k < |cs| && cs[k] == c <= 0x10FFFF
    requires dstlen > 0 ==> n + |Utf8Of(c)| <= dstlen
    modifies dst
    ensures Held8(Contents8(dst), before, dstlen, cs, k + 1, n')
    ensures dstlen == 0 ==> Contents8(dst) == old(Contents8(dst))
  {
    hide Encode8, Utf8Of, Stored8;
    Encode8Count(cs, k);
    if dstlen > 0 { Store8(dst, before, n, Utf8Of(c), cs, k); }
    n' := n + |Utf8Of(c)|;
  }

  /** The conversion loop of WideCharToMultiByte. */
  method Narrowing(strict: bool, t: seq<u16>, dst: array?<byte>, dstlen: nat) returns (r: Reply)
    requires dstlen > 0 ==> dst != null && dstlen <= dst.Length
    modifies dst
    ensures Answers(r, strict, WellFormed16(t), |Narrow(t)|, dstlen)
    ensures r.error.NoError? && dstlen > 0 ==> dst[..r.n] == Narrow(t) && dst[r.n..] == old(dst[r.n..])
    ensures dst != null && dstlen == 0 ==> dst[..] == old(dst[..])
  {
    ghost var before := Contents8(dst);
    ghost var cs, k := Decode16(t), 0;
    var p, n: nat, bad := 0, 0, false;
    Reading16Start(t);
    if dstlen > 0 { Stored8Start(dst[..], cs); }
    assert Held8(before, before, dstlen, cs, k, n) by { assert Encode8(cs[..0]) == []; }
    hide Reading16, Held8, Decode16;
    while p < |t|
      invariant p <= |t|
      invariant Reading16(t, p, cs, k, bad) && (strict ==> !bad)
      invariant Held8(Contents8(dst), before, dstlen, cs, k, n)
      decreases |t| - p
    {
      var error;
      p, bad, n, error := NarrowOne(strict, t, p, bad, dst, dstlen, n, before, cs, k);
      if !error.NoError? { return Reply(0, error); }
      k := k + 1;
    }
    Reading16End(t, cs, k, bad);
    Held8Whole(Contents8(dst), before, dstlen, cs, k, n);
    r := Reply(n, NoError);
  }

  lemma Held8Whole(dst: seq<byte>, before: seq<byte>, dstlen: nat, cs: seq<nat>, k: nat, n: nat)
    requires Held8(dst, before, dstlen, cs, k, n) && k == |cs|
    ensures n == |Encode8(cs)| && (dstlen > 0 ==> n <= dstlen)
    ensures if dstlen > 0 then n <= |dst| && dst[..n] == Encode8(cs) && dst[n..] == before[n..] else dst == before
  {
    hide Encode8;
    assert cs[..k] == cs;
  }

  // ------------------------------------------------------------------------
  // The environment block
  // ------------------------------------------------------------------------

  /** Every entry with its terminator. */
  ghost function Block(env: seq<seq<byte>>): seq<u16> {
    if env == [] then [] else Block(env[..|env| - 1]) + Widen(env[|env| - 1]) + [0]
  }

  /** The units the narrow block needs, but for the final terminator. */
  function NarrowSize(env: seq<seq<byte>>): nat {
    if env == [] then 0 else NarrowSize(env[..|env| - 1]) + |env[|env| - 1]| + 1
  }

  lemma {:induction false} NarrowSizeMonotone(env: seq<seq<byte>>, i: nat)
    requires i <= |env|
    ensures NarrowSize(env[..i]) <= NarrowSize(env)
    decreases |env|
  {
    if i < |env| {
      NarrowSizeMonotone(env[..|env| - 1], i);
      assert env[..|env| - 1][..i] == env[..i];
    } else {
      assert env[..i] == env;
    }
  }

  /** build_env_block: the wide block is allocated with one unit for every byte of the narrow one.
      That is always enough: no entry is ever cut short. */
  method BuildWideEnvironment(env: seq<seq<byte>>) returns (block: array<u16>, used: nat)
    requires forall i :: 0 <= i < |env| ==> 0 !in env[i]
    ensures fresh(block) && used <= block.Length == NarrowSize(env) + 1
    ensures block[..used] == Block(env) + [0]
  {
    var total := NarrowSize(env) + 1;
    block := new u16[total];
    var wp: nat := 0;
    for i := 0 to |env|
      invariant wp <= NarrowSize(env[..i]) < total
      invariant block[..wp] == Block(env[..i])
    {
      NarrowSizeMonotone(env, i + 1);
      assert env[..i + 1][..i] == env[..i] && env[..i + 1][i] == env[i];
      ghost var done := block[..wp];
      var n := Utf8ToWchar(env[i], block, wp, total - wp);
      EntryFits(env[i], total - wp);
      assert block[..wp + n + 1] == done + Widen(env[i]) + [0];
      wp := wp + n + 1;
    }
    assert env[..|env|] == env;
    block[wp] := 0;
    used := wp + 1;
  }

  /** An entry given as many units as it has bytes, and one more, is converted whole. */
  lemma EntryFits(entry: seq<byte>, room: nat)
    requires room > |entry|
    ensures |Widen(entry)| <= |entry|
    ensures Decode8(entry)[..Fit(Decode8(entry), room - 1)] == Decode8(entry)
  {
    WidenLength(entry);
    FitAll(Decode8(entry), room - 1);
  }
}
