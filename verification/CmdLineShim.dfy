/** The command line end to end: the buffers that rebuild_cmdline fills (shim.cpp), the block that
    CommandLineToArgvW fills (shim_kernel32_tail.hpp), and the round trip through UTF-16. */
module CmdLineShim {
  import opened Common
  import opened Bytes
  import opened Utf
  import opened UtfMethods
  import opened CmdLine

  // ------------------------------------------------------------------------
  // Conversion commutes with quoting
  // ------------------------------------------------------------------------

  ghost predicate AsciiStart(s: seq<byte>) { s == [] || s[0] < 0x80 }

  lemma WidenStep(s: seq<byte>)
    requires s != []
    ensures Widen(s) == Utf16Of(Utf8Next(s).cp) + Widen(s[Utf8Next(s).len..])
  {
    hide Utf8Next, Utf16Of;
    assert Decode8(s)[1..] == Decode8(s[Utf8Next(s).len..]);
  }

  lemma WidenAscii(c: byte, s: seq<byte>)
    requires c < 0x80
    ensures Widen([c] + s) == [c] + Widen(s)
  {
    WidenStep([c] + s);
    assert ([c] + s)[1..] == s;
  }

  /** utf8_next depends on the bytes it consumes and on whether the next one continues them. */
  lemma NextSame(s: seq<byte>, t: seq<byte>)
    requires s != [] && |t| >= Utf8Next(s).len
    requires forall i :: 0 <= i < Utf8Next(s).len ==> t[i] == s[i]
    requires Follows(s, Utf8Next(s).len) <==> Follows(t, Utf8Next(s).len)
    ensures Utf8Next(t) == Utf8Next(s)
  {
    var n := Utf8Next(s).len;
    assert forall i :: 0 <= i < n ==> (Follows(s, i) <==> Follows(t, i));
    CollectedSame(s, t, n);
  }

  lemma CollectedSame(s: seq<byte>, t: seq<byte>, n: nat)
    requires 1 <= n <= |s| && n <= |t| && forall i :: 0 <= i < n ==> t[i] == s[i]
    ensures n > 1 ==> Collected(s, 1) == Collected(t, 1)
    ensures n > 2 ==> Collected(s, 2) == Collected(t, 2)
    ensures n > 3 ==> Collected(s, 3) == Collected(t, 3)
  {
    assert Collected(s, 0) == Collected(t, 0);
  }

  /** What utf8_next reads never reaches over an ASCII byte. */
  lemma NextBoundary(a: seq<byte>, b: seq<byte>)
    requires a != [] && AsciiStart(b)
    ensures Utf8Next(a + b) == Utf8Next(a)
  {
    hide Utf8Next;
    NextSame(a, a + b);
  }

  lemma {:induction false} WidenAppend(a: seq<byte>, b: seq<byte>)
    requires AsciiStart(b)
    ensures Widen(a + b) == Widen(a) + Widen(b)
  {
    hide Utf8Next, Utf16Of, Widen;
    if a == [] {
      assert a + b == b;
      WidenNothing();
    } else {
      var n := Utf8Next(a);
      NextBoundary(a, b);
      WidenStep(a);
      WidenStep(a + b);
      assert (a + b)[n.len..] == a[n.len..] + b;
      WidenAppend(a[n.len..], b);
      assert Utf16Of(n.cp) + (Widen(a[n.len..]) + Widen(b)) == Widen(a) + Widen(b);
    }
  }

  lemma WidenNothing()
    ensures Widen([]) == []
  {
  }

  ghost predicate AllHigh(s: seq<int>) { forall i :: 0 <= i < |s| ==> s[i] >= 0x80 }

  /** A byte outside ASCII is read together with others outside ASCII, as units outside ASCII. */
  lemma NextHigh(a: seq<byte>)
    requires a != [] && a[0] >= 0x80
    ensures AllHigh(a[..Utf8Next(a).len]) && AllHigh(Utf16Of(Utf8Next(a).cp))
  {
    var n := Utf8Next(a);
    Utf8NextExact(a);
    forall i | 0 < i < n.len ensures a[i] >= 0x80 { assert Follows(a, i); }
    assert !n.bad ==> Utf8Of(n.cp)[0] == a[0];
  }

  lemma {:induction false} WidenMembers(a: seq<byte>, c: byte)
    requires c < 0x80
    ensures c in a <==> c in Widen(a)
  {
    hide Utf8Next, Utf16Of, Widen;
    WidenNothing();
    if a != [] {
      if a[0] < 0x80 {
        assert a == [a[0]] + a[1..];
        WidenAscii(a[0], a[1..]);
        WidenMembers(a[1..], c);
      } else {
        var n := Utf8Next(a);
        NextHigh(a);
        WidenStep(a);
        WidenMembers(a[n.len..], c);
        assert a == a[..n.len] + a[n.len..];
      }
    }
  }

  lemma {:induction false} EscapeHigh(x: seq<int>, r: seq<int>, bs: nat)
    requires x != [] && AllHigh(x)
    ensures Escape(x + r, bs) == x + Escape(r, 0)
    ensures Trailing(x + r, bs) == Trailing(r, 0)
  {
    var s := x + r;
    assert s[1..] == x[1..] + r;
    if |x| == 1 {
      assert s[1..] == r;
    } else {
      EscapeHigh(x[1..], r, 0);
    }
    assert x == [x[0]] + x[1..];
  }

  ghost function AsBytes(s: seq<int>): (r: seq<byte>)
    requires forall x :: x in s ==> 0 <= x < 256
    ensures r == s
  {
    assert forall i :: 0 <= i < |s| ==> s[i] in s;
    s
  }

  ghost function EscapeBytes(a: seq<byte>, bs: nat): (r: seq<byte>)
    ensures r == Escape(a, bs)
  {
    AsBytes(Escape(a, bs))
  }

  lemma {:induction false} WidenSlashes(n: nat, s: seq<byte>)
    ensures Widen(AsBytes(Slashes(n)) + s) == Slashes(n) + Widen(s)
  {
    hide Widen;
    if n == 0 {
      assert AsBytes(Slashes(0)) + s == s;
      assert Slashes(0) + Widen(s) == Widen(s);
    } else {
      WidenSlashes(n - 1, s);
      OneSlashFirst(n - 1);
      var rest := AsBytes(Slashes(n - 1));
      Assoc([SLASH], rest, s);
      WidenAscii(SLASH, rest + s);
      Assoc([SLASH], Slashes(n - 1), Widen(s));
    }
  }

  lemma OneSlashFirst(n: nat)
    ensures Slashes(n + 1) == [SLASH] + Slashes(n) && AsBytes(Slashes(n + 1)) == [SLASH] + AsBytes(Slashes(n))
  {
  }

  /** Escaping bytes and widening is widening and escaping units. */
  lemma {:induction false} WidenEscape(a: seq<byte>, bs: nat)
    ensures Widen(EscapeBytes(a, bs)) == Escape(Widen(a), bs)
    ensures Trailing(a, bs) == Trailing(Widen(a), bs)
    decreases |a|
  {
    hide Utf8Next, Utf16Of, Widen;
    WidenNothing();
    if a == [] {
    } else if a[0] < 0x80 {
      var c, a' := a[0], a[1..];
      assert a == [c] + a';
      WidenAscii(c, a');
      assert ([c] + Widen(a'))[1..] == Widen(a');
      var bs' := if c == SLASH then bs + 1 else 0;
      WidenEscape(a', bs');
      WidenAscii(c, EscapeBytes(a', bs'));
      if c == QUOTE {
        WidenSlashes(bs + 1, [c] + EscapeBytes(a', 0));
        assert EscapeBytes(a, bs) == AsBytes(Slashes(bs + 1)) + ([c] + EscapeBytes(a', 0));
        assert Slashes(bs + 1) + ([c] + Escape(Widen(a'), 0)) == Slashes(bs + 1) + [c] + Escape(Widen(a'), 0);
      } else {
        assert EscapeBytes(a, bs) == [c] + EscapeBytes(a', bs');
      }
    } else {
      WidenEscape(a[Utf8Next(a).len..], 0);
      WidenEscapeHigh(a, bs);
    }
  }

  lemma WidenEscapeHigh(a: seq<byte>, bs: nat)
    requires a != [] && a[0] >= 0x80
    requires Widen(EscapeBytes(a[Utf8Next(a).len..], 0)) == Escape(Widen(a[Utf8Next(a).len..]), 0)
    requires Trailing(a[Utf8Next(a).len..], 0) == Trailing(Widen(a[Utf8Next(a).len..]), 0)
    ensures Widen(EscapeBytes(a, bs)) == Escape(Widen(a), bs)
    ensures Trailing(a, bs) == Trailing(Widen(a), bs)
  {
    hide Utf8Next, Utf16Of, Widen;
    var n := Utf8Next(a);
    var x, r := a[..n.len], a[n.len..];
    NextHigh(a);
    WidenStep(a);
    assert a == x + r;
    EscapeHigh(x, r, bs);
    EscapeHigh(Utf16Of(n.cp), Widen(r), bs);
    var e := EscapeBytes(r, 0);
    EscapeStart(r, 0);
    NextSame(a, x + e);
    WidenStep(x + e);
    assert (x + e)[n.len..] == e;
    assert EscapeBytes(a, bs) == x + e;
  }

  /** Escaping keeps the first byte, or puts a backslash before a quote. */
  lemma EscapeStart(r: seq<int>, bs: nat)
    ensures Escape(r, bs) == [] <==> r == []
    ensures r != [] ==> Escape(r, bs)[0] == r[0] || (r[0] == QUOTE && Escape(r, bs)[0] == SLASH)
  {
  }

  // ------------------------------------------------------------------------
  // The whole line
  // ------------------------------------------------------------------------

  ghost function WidenAll(args: seq<seq<byte>>): (r: seq<seq<u16>>)
    ensures |r| == |args|
  {
    if args == [] then [] else [Widen(args[0])] + WidenAll(args[1..])
  }

  ghost predicate AllBytes(s: seq<int>) { forall i :: 0 <= i < |s| ==> 0 <= s[i] < 256 }

  lemma JoinBytes(a: seq<int>, b: seq<int>)
    requires AllBytes(a) && AllBytes(b)
    ensures AllBytes(a + b)
  {
  }

  lemma ArgPrintsBytes(a: seq<byte>)
    ensures AllBytes(PrintArg(a)) && AllBytes(PrintFirst(a))
  {
    var e := Escape(a, 0);
    forall i | 0 <= i < |e| ensures 0 <= e[i] < 256 { assert e[i] in e; }
    JoinBytes([QUOTE], e);
    JoinBytes([QUOTE] + e, Slashes(Trailing(a, 0)));
    JoinBytes([QUOTE] + e + Slashes(Trailing(a, 0)), [QUOTE]);
  }

  lemma {:induction false} RestPrintsBytes(args: seq<seq<byte>>)
    ensures AllBytes(PrintRest(args))
  {
    if args != [] {
      hide PrintArg, PrintFirst;
      ArgPrintsBytes(args[0]);
      RestPrintsBytes(args[1..]);
      JoinBytes([SPACE], PrintArg(args[0]));
      JoinBytes([SPACE] + PrintArg(args[0]), PrintRest(args[1..]));
    }
  }

  lemma PrintBytes(args: seq<seq<byte>>)
    ensures forall x :: x in PrintRest(args) ==> 0 <= x < 256
    ensures args != [] ==> forall x :: x in Line(args) ==> 0 <= x < 256
  {
    hide PrintArg, PrintFirst, PrintRest;
    RestPrintsBytes(args);
    if args != [] {
      ArgPrintsBytes(args[0]);
      RestPrintsBytes(args[1..]);
      JoinBytes(PrintFirst(args[0]), PrintRest(args[1..]));
    }
  }

  /** The line rebuild_cmdline prints, as bytes. */
  ghost function LineBytes(args: seq<seq<byte>>): (r: seq<byte>)
    requires args != []
    ensures r == Line(args)
  {
    PrintBytes(args);
    AsBytes(Line(args))
  }

  ghost function RestBytes(args: seq<seq<byte>>): (r: seq<byte>)
    ensures r == PrintRest(args)
  {
    PrintBytes(args);
    AsBytes(PrintRest(args))
  }

  lemma WidenQuotes(a: seq<byte>, first: bool)
    ensures NeedsQuotes(a, first) <==> NeedsQuotes(Widen(a), first)
    ensures FirstSafe(a) <==> FirstSafe(Widen(a))
    ensures a != [] ==> Widen(a) != [] && (a[0] == QUOTE <==> Widen(a)[0] == QUOTE)
  {
    WidenMembers(a, SPACE);
    WidenMembers(a, TAB);
    WidenMembers(a, QUOTE);
    if a != [] {
      WidenStep(a);
      if a[0] < 0x80 { assert a == [a[0]] + a[1..]; WidenAscii(a[0], a[1..]); } else { NextHigh(a); }
    }
  }

  ghost function ArgBytes(a: seq<byte>): (r: seq<byte>)
    ensures r == PrintArg(a)
  {
    AsBytes(PrintArg(a))
  }

  lemma WrappedTail(e: seq<int>, t: seq<int>, r: seq<int>)
    ensures [QUOTE] + (e + (t + ([QUOTE] + r))) == [QUOTE] + e + t + [QUOTE] + r
  {
  }

  lemma WidenArg(a: seq<byte>, rest: seq<byte>)
    requires AsciiStart(rest)
    ensures Widen(ArgBytes(a) + rest) == PrintArg(Widen(a)) + Widen(rest)
  {
    WidenQuotes(a, false);
    WidenEscape(a, 0);
    hide Widen, Escape, Trailing, NeedsQuotes, Slashes;
    var e, n := EscapeBytes(a, 0), Trailing(a, 0);
    if NeedsQuotes(a, false) {
      var close := [QUOTE] + rest;
      var tail := AsBytes(Slashes(n)) + close;
      WidenAscii(QUOTE, rest);
      WidenSlashes(n, close);
      assert AsciiStart(tail);
      WidenAppend(e, tail);
      WidenAscii(QUOTE, e + tail);
      WrappedTail(e, Slashes(n), rest);
      WrappedTail(Widen(e), Slashes(n), Widen(rest));
    } else {
      WidenAppend(e, rest);
    }
  }

  lemma {:induction false} WidenRest(args: seq<seq<byte>>)
    ensures Widen(RestBytes(args)) == PrintRest(WidenAll(args))
  {
    hide Widen, PrintArg;
    WidenNothing();
    if args != [] {
      var rest := RestBytes(args[1..]);
      WidenRest(args[1..]);
      WidenArg(args[0], rest);
      WidenAscii(SPACE, ArgBytes(args[0]) + rest);
      assert RestBytes(args) == [SPACE] + (ArgBytes(args[0]) + rest);
      assert WidenAll(args)[1..] == WidenAll(args[1..]);
      var w := PrintArg(Widen(args[0]));
      assert [SPACE] + (w + Widen(rest)) == [SPACE] + w + Widen(rest);
    }
  }

  ghost function FirstBytes(a: seq<byte>): (r: seq<byte>)
    ensures r == PrintFirst(a)
  {
    AsBytes(PrintFirst(a))
  }

  lemma Wrapped(w: seq<int>, r: seq<int>)
    ensures [QUOTE] + (w + ([QUOTE] + r)) == [QUOTE] + w + [QUOTE] + r
  {
  }

  lemma WidenFirst(a: seq<byte>, rest: seq<byte>)
    requires AsciiStart(rest)
    ensures Widen(FirstBytes(a) + rest) == PrintFirst(Widen(a)) + Widen(rest)
  {
    WidenQuotes(a, true);
    hide Widen, NeedsQuotes;
    if NeedsQuotes(a, true) {
      var close := [QUOTE] + rest;
      WidenAscii(QUOTE, rest);
      WidenAppend(a, close);
      WidenAscii(QUOTE, a + close);
      Wrapped(a, rest);
      Wrapped(Widen(a), Widen(rest));
    } else {
      WidenAppend(a, rest);
    }
  }

  /** The law of the pair: printing any argument vector, converting the line to UTF-16 and splitting
      it gives the UTF-16 form of every argument exactly when argv[0] is safe. */
  lemma CommandLineRoundTrip(args: seq<seq<byte>>)
    requires args != []
    ensures Parse(Widen(LineBytes(args))) == WidenAll(args) <==> FirstSafe(args[0])
  {
    hide Widen, Parse, PrintFirst, PrintRest, FirstSafe;
    var rest := RestBytes(args[1..]);
    WidenRest(args[1..]);
    WidenFirst(args[0], rest);
    WidenQuotes(args[0], true);
    assert LineBytes(args) == FirstBytes(args[0]) + rest;
    assert WidenAll(args)[1..] == WidenAll(args[1..]);
    LineRoundTrip(WidenAll(args));
  }

  // ------------------------------------------------------------------------
  // rebuild_cmdline
  // ------------------------------------------------------------------------

  const CMDLINE_SIZE: nat := 32768

  /** The entries of /proc/self/cmdline, each ended by a zero byte or the end. */
  function NulIndex(s: seq<byte>): (n: nat)
    ensures n <= |s| && 0 !in s[..n] && (n < |s| ==> s[n] == 0)
  {
    if s == [] || s[0] == 0 then 0 else
      assert s[..1 + NulIndex(s[1..])] == [s[0]] + s[1..][..NulIndex(s[1..])];
      1 + NulIndex(s[1..])
  }

  function Entries(raw: seq<byte>): (args: seq<seq<byte>>)
    ensures raw != [] ==> args != []
    ensures forall i :: 0 <= i < |args| ==> 0 !in args[i]
    decreases |raw|
  {
    if raw == [] then [] else
      var n := NulIndex(raw);
      [raw[..n]] + (if n < |raw| then Entries(raw[n + 1..]) else [])
  }

  /** What is left of the block at p. */
  ghost function From(raw: seq<byte>, p: nat): seq<byte> { if p <= |raw| then raw[p..] else [] }

  lemma EntriesStep(raw: seq<byte>)
    requires raw != []
    ensures Entries(raw) != [] && Entries(raw)[0] == raw[..NulIndex(raw)]
    ensures Entries(raw)[1..] == Entries(From(raw, NulIndex(raw) + 1))
  {
  }

  lemma AfterIs(raw: seq<byte>, p: nat, n: nat)
    requires p <= |raw|
    ensures From(raw[p..], n + 1) == From(raw, p + n + 1)
  {
  }

  lemma NothingLeft(done: seq<int>)
    ensures done + PrintRest(Entries([])) == done
  {
  }

  /** What the kernel reports for an argument vector. */
  function Joined(args: seq<seq<byte>>): seq<byte> {
    if args == [] then [] else args[0] + [0] + Joined(args[1..])
  }

  lemma {:induction false} EntriesOfJoined(args: seq<seq<byte>>)
    requires forall i :: 0 <= i < |args| ==> 0 !in args[i]
    ensures Entries(Joined(args)) == args
  {
    if args != [] {
      var raw := Joined(args);
      EntriesOfJoined(args[1..]);
      NulIndexIs(raw, |args[0]|);
      assert raw[..|args[0]|] == args[0] && raw[|args[0]| + 1..] == Joined(args[1..]);
    }
  }

  /** From the kernel's zero-separated argument block to the split wide line: every argument comes back in its UTF-16
      form, exactly when argv[0] is safe. */
  lemma BlockRoundTrip(args: seq<seq<byte>>)
    requires args != [] && forall i :: 0 <= i < |args| ==> 0 !in args[i]
    ensures Parse(Widen(LineBytes(Entries(Joined(args))))) == WidenAll(args) <==> FirstSafe(args[0])
  {
    hide Widen, Parse, FirstSafe, Entries, Joined;
    EntriesOfJoined(args);
    CommandLineRoundTrip(args);
  }

  lemma NulIndexIs(s: seq<byte>, n: nat)
    requires n < |s| && s[n] == 0 && 0 !in s[..n]
    ensures NulIndex(s) == n
  {
    if n > 0 {
      assert s[..n][0] == s[0] && s[1..][..n - 1] == s[..n][1..];
      NulIndexIs(s[1..], n - 1);
    }
  }

  /** The process-wide buffers that GetCommandLineA and GetCommandLineW return. */
  class CommandLineBuffers {
    const narrow: array<byte>
    const wide: array<u16>

    constructor ()
      ensures narrow.Length == CMDLINE_SIZE && wide.Length == CMDLINE_SIZE
      ensures fresh(narrow) && fresh(wide)
    {
      narrow := new byte[CMDLINE_SIZE];
      wide := new u16[CMDLINE_SIZE];
    }

    ghost predicate Valid() {
      narrow.Length == CMDLINE_SIZE && wide.Length == CMDLINE_SIZE
    }

    /** done is everything printed so far; the buffer holds as much of it as fits before the terminator. */
    ghost predicate Holds(done: seq<int>, out: nat)
      reads narrow
      requires Valid()
    {
      && out == (if |done| <= CMDLINE_SIZE - 1 then |done| else CMDLINE_SIZE - 1)
      && narrow[..out] == done[..out]
    }

    /** if( out<cap ) g_cmdline[out++] = c */
    method Put(c: byte, out: nat, ghost done: seq<int>) returns (out': nat)
      requires Valid() && Holds(done, out)
      modifies narrow
      ensures Holds(done + [c], out')
    {
      out' := out;
      if out < CMDLINE_SIZE - 1 {
        narrow[out] := c;
        out' := out + 1;
      }
    }

    method PutSlashes(n: nat, start: nat, ghost done: seq<int>) returns (out: nat)
      requires Valid() && Holds(done, start)
      modifies narrow
      ensures Holds(done + Slashes(n), out)
    {
      out := start;
      assert done + Slashes(0) == done;
      for k := 0 to n
        invariant Holds(done + Slashes(k), out)
      {
        out := Put(SLASH, out, done + Slashes(k));
        assert done + Slashes(k) + [SLASH] == done + Slashes(k + 1);
      }
    }

    /** The loop over the characters of one argument. */
    method PutText(arg: seq<byte>, first: bool, start: nat, ghost done: seq<int>) returns (out: nat, bs: nat)
      requires Valid() && Holds(done, start)
      modifies narrow
      ensures Holds(done + (if first then arg else Escape(arg, 0)), out)
      ensures bs == Trailing(arg, 0) || first
    {
      hide Holds, Escape, Trailing, Slashes;
      out, bs := start, 0;
      ghost var text: seq<int> := [];
      assert done + text == done && arg[0..] == arg;
      for i := 0 to |arg|
        invariant Holds(done + text, out)
        invariant TextSoFar(arg, i, first, text, bs)
      {
        var c := arg[i];
        TextStep(arg, i, first, text, bs);
        if !first && c == QUOTE {
          out := PutSlashes(bs + 1, out, done + text);
          Assoc(done, text, Slashes(bs + 1));
          text := text + Slashes(bs + 1);
          bs := 0;
        } else {
          bs := if c == SLASH then bs + 1 else 0;
        }
        out := Put(c, out, done + text);
        Assoc(done, text, [c]);
        text := text + [c];
      }
      TextDone(arg, first, text, bs);
    }

    method PutFirst(arg: seq<byte>) returns (out: nat)
      requires Valid()
      modifies narrow
      ensures Holds(PrintFirst(arg), out)
    {
      out := 0;
      ghost var d: seq<int> := [];
      var q := NeedsQuotes(arg, true);
      if q { out := Put(QUOTE, out, d); d := [QUOTE]; assert [] + [QUOTE] == d; }
      var bs;
      out, bs := PutText(arg, true, out, d);
      if q { out := Put(QUOTE, out, d + arg); } else { assert d + arg == arg; }
    }

    method PutLater(arg: seq<byte>, start: nat, ghost done: seq<int>) returns (out: nat)
      requires Valid() && Holds(done, start)
      modifies narrow
      ensures Holds(done + ([SPACE] + PrintArg(arg)), out)
    {
      hide Holds, Escape, Trailing, Slashes;
      LaterPieces(arg, done);
      out := Put(SPACE, start, done);
      ghost var d := done + [SPACE];
      var q := NeedsQuotes(arg, false);
      if q { out := Put(QUOTE, out, d); d := d + [QUOTE]; }
      var bs;
      out, bs := PutText(arg, false, out, d);
      if q {
        out := PutSlashes(bs, out, d + Escape(arg, 0));
        out := Put(QUOTE, out, d + Escape(arg, 0) + Slashes(bs));
      }
    }

    /** Printing the entries of raw one after another. */
    method PutEntries(raw: seq<byte>) returns (out: nat)
      requires Valid() && raw != []
      modifies narrow
      ensures Holds(Line(Entries(raw)), out)
    {
      hide Holds, PrintArg, PrintFirst, PrintRest, Entries, NulIndex;
      var n := NulIndex(raw);
      ghost var all := Entries(raw);
      EntriesStep(raw);
      out := PutFirst(raw[..n]);
      ghost var done := PrintFirst(all[0]);
      var p := n + 1;
      AfterIs(raw, 0, n);
      while p < |raw|
        invariant 0 <= p && Holds(done, out)
        invariant done + PrintRest(Entries(From(raw, p))) == Line(all)
        decreases |raw| - p
      {
        p, out, done := PutNext(raw, p, out, done);
      }
      assert From(raw, p) == [];
      NothingLeft(done);
    }

    /** One entry of the block after the first. */
    method PutNext(raw: seq<byte>, p: nat, out: nat, ghost done: seq<int>)
      returns (next: nat, out': nat, ghost more: seq<int>)
      requires Valid() && p < |raw| && Holds(done, out)
      modifies narrow
      ensures next > p && Holds(more, out')
      ensures more + PrintRest(Entries(From(raw, next))) == done + PrintRest(Entries(From(raw, p)))
    {
      hide Holds, PrintArg, PrintRest, Entries, NulIndex;
      var n := NulIndex(raw[p..]);
      ghost var args := Entries(raw[p..]);
      EntriesStep(raw[p..]);
      AfterIs(raw, p, n);
      out' := PutLater(raw[p..][..n], out, done);
      more := done + ([SPACE] + PrintArg(args[0]));
      RestPieces(done, args);
      next := p + n + 1;
    }

    /** rebuild_cmdline. An override is copied as it is; otherwise the entries are printed; both are cut
        to the buffer. The wide copy always holds the whole narrow text. */
    method Rebuild(override: Option<seq<byte>>, raw: seq<byte>)
      requires Valid()
      requires override.Some? ==> 0 !in override.value && override.value != []
      modifies narrow, wide
      ensures override.None? && raw == [] ==> narrow[0] == 0 && wide[..] == old(wide[..])
      ensures override.Some? || raw != [] ==>
        var full := if override.Some? then override.value else LineBytes(Entries(raw));
        var text := if |full| < CMDLINE_SIZE then full else full[..CMDLINE_SIZE - 1];
        && narrow[..|text| + 1] == text + [0]
        && |Widen(text)| < CMDLINE_SIZE && wide[..|Widen(text)| + 1] == Widen(text) + [0]
    {
      hide Holds, Widen, Line;
      if override.Some? {
        var out := CopyOverride(override.value);
        Finish(out, override.value);
      } else if raw == [] {
        narrow[0] := 0;
      } else {
        var out := PutEntries(raw);
        LineNulFree(Entries(raw));
        Finish(out, LineBytes(Entries(raw)));
      }
    }

    method CopyOverride(line: seq<byte>) returns (out: nat)
      requires Valid()
      modifies narrow
      ensures Holds(line, out)
    {
      var n := if |line| > CMDLINE_SIZE - 1 then CMDLINE_SIZE - 1 else |line|;
      out := 0;
      while out < n
        invariant 0 <= out <= n
        invariant narrow[..out] == line[..out]
      {
        narrow[out] := line[out];
        out := out + 1;
      }
    }

    /** The terminator and the wide copy. */
    method Finish(out: nat, ghost full: seq<byte>)
      requires Valid() && Holds(full, out) && 0 !in full
      modifies narrow, wide
      ensures var text := if |full| < CMDLINE_SIZE then full else full[..CMDLINE_SIZE - 1];
        && narrow[..|text| + 1] == text + [0]
        && |Widen(text)| < CMDLINE_SIZE && wide[..|Widen(text)| + 1] == Widen(text) + [0]
    {
      ghost var text := full[..out];
      assert text == if |full| < CMDLINE_SIZE then full else full[..CMDLINE_SIZE - 1];
      narrow[out] := 0;
      var line := narrow[..out];
      assert line == text;
      WidenText(line);
      hide Fit;
      var n := Utf8ToWchar(line, wide, 0, CMDLINE_SIZE);
      assert wide[..n + 1] == Widen(text) + [0];
      assert narrow[..out + 1] == text + [0];
    }
  }

  /** What PutText has printed of an argument after i characters. */
  ghost predicate TextSoFar(arg: seq<int>, i: nat, first: bool, text: seq<int>, bs: nat)
    requires i <= |arg|
  {
    if first then text == arg[..i]
    else text + Escape(arg[i..], bs) == Escape(arg, 0) && Trailing(arg[i..], bs) == Trailing(arg, 0)
  }

  lemma TextStep(arg: seq<int>, i: nat, first: bool, text: seq<int>, bs: nat)
    requires i < |arg| && TextSoFar(arg, i, first, text, bs)
    ensures !first && arg[i] == QUOTE ==> TextSoFar(arg, i + 1, first, text + Slashes(bs + 1) + [arg[i]], 0)
    ensures first || arg[i] != QUOTE ==>
      TextSoFar(arg, i + 1, first, text + [arg[i]], if arg[i] == SLASH then bs + 1 else 0)
  {
    var c, rest := arg[i], arg[i + 1..];
    assert arg[i..][0] == c && arg[i..][1..] == rest;
    if first {
      assert arg[..i + 1] == arg[..i] + [c];
    } else if c == QUOTE {
      var e := Escape(rest, 0);
      assert Escape(arg[i..], bs) == Slashes(bs + 1) + [QUOTE] + e;
      assert text + (Slashes(bs + 1) + [QUOTE] + e) == text + Slashes(bs + 1) + [QUOTE] + e;
    } else {
      var bs' := if c == SLASH then bs + 1 else 0;
      Assoc(text, [c], Escape(rest, bs'));
    }
  }

  lemma TextDone(arg: seq<int>, first: bool, text: seq<int>, bs: nat)
    requires TextSoFar(arg, |arg|, first, text, bs)
    ensures text == if first then arg else Escape(arg, 0)
    ensures first || bs == Trailing(arg, 0)
  {
    assert arg[|arg|..] == [] && arg[..|arg|] == arg;
    assert text + [] == text;
  }

  lemma WidenText(text: seq<byte>)
    requires |text| < CMDLINE_SIZE
    ensures |Widen(text)| <= |text|
    ensures Decode8(text)[..Fit(Decode8(text), CMDLINE_SIZE - 1)] == Decode8(text)
  {
    EntryFits(text, CMDLINE_SIZE);
  }

  lemma {:induction false} RestNulFree(args: seq<seq<byte>>)
    requires forall i :: 0 <= i < |args| ==> 0 !in args[i]
    ensures 0 !in PrintRest(args)
  {
    if args != [] { RestNulFree(args[1..]); }
  }

  lemma LineNulFree(args: seq<seq<byte>>)
    requires args != [] && forall i :: 0 <= i < |args| ==> 0 !in args[i]
    ensures 0 !in Line(args)
  {
    RestNulFree(args[1..]);
  }

  lemma LaterPieces(arg: seq<int>, done: seq<int>)
    ensures NeedsQuotes(arg, false) ==>
      var quoted := [QUOTE] + Escape(arg, 0) + Slashes(Trailing(arg, 0)) + [QUOTE];
      && done + [SPACE] + [QUOTE] + Escape(arg, 0) + Slashes(Trailing(arg, 0)) + [QUOTE] == done + ([SPACE] + quoted)
      && quoted == PrintArg(arg)
    ensures !NeedsQuotes(arg, false) ==> done + [SPACE] + Escape(arg, 0) == done + ([SPACE] + PrintArg(arg))
  {
    hide Escape, Trailing, Slashes;
    var e, t := Escape(arg, 0), Slashes(Trailing(arg, 0));
    Assoc(done, [SPACE], PrintArg(arg));
    if NeedsQuotes(arg, false) {
      var d := done + [SPACE];
      Assoc4(d, [QUOTE], e, t);
      Assoc(d, [QUOTE] + e + t, [QUOTE]);
    }
  }

  lemma RestPieces(done: seq<int>, args: seq<seq<int>>)
    requires args != []
    ensures done + ([SPACE] + PrintArg(args[0])) + PrintRest(args[1..]) == done + PrintRest(args)
  {
    hide PrintArg;
    Assoc(done, [SPACE] + PrintArg(args[0]), PrintRest(args[1..]));
  }
}
