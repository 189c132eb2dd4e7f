/** Printing an argument vector as a Windows command line (rebuild_cmdline, shim.cpp) and splitting
    one again (CommandLineToArgvW, shim_kernel32_tail.hpp). Both work on any kind of text unit:
    the printer on UTF-8 bytes, the parser on UTF-16 units. */
module CmdLine {
  import opened Common
  import opened Bytes
  import opened Utf

  const QUOTE := 34
  const SLASH := 92
  const SPACE := 32
  const TAB := 9

  predicate Blank(c: int) { c == SPACE || c == TAB }

  ghost predicate NoBlank(s: seq<int>) { SPACE !in s && TAB !in s }

  // ------------------------------------------------------------------------
  // The printer
  // ------------------------------------------------------------------------

  function Slashes(n: nat): (r: seq<int>)
    ensures |r| == n && forall i :: 0 <= i < n ==> r[i] == SLASH
  {
    seq(n, _ => SLASH)
  }

  /** An argument's text inside quotes, after bs backslashes that are already out. */
  function Escape(s: seq<int>, bs: nat): (r: seq<int>)
    ensures forall x :: x in r ==> x in s || x == SLASH
  {
    if s == [] then []
    else if s[0] == QUOTE then Slashes(bs + 1) + [QUOTE] + Escape(s[1..], 0)
    else [s[0]] + Escape(s[1..], if s[0] == SLASH then bs + 1 else 0)
  }

  /** How many backslashes the text ends in. */
  function Trailing(s: seq<int>, bs: nat): nat {
    if s == [] then bs else Trailing(s[1..], if s[0] == SLASH then bs + 1 else 0)
  }

  predicate NeedsQuotes(s: seq<int>, first: bool) {
    s == [] || SPACE in s || TAB in s || (!first && QUOTE in s)
  }

  function PrintFirst(s: seq<int>): seq<int> {
    if NeedsQuotes(s, true) then [QUOTE] + s + [QUOTE] else s
  }

  function PrintArg(s: seq<int>): seq<int> {
    if NeedsQuotes(s, false) then [QUOTE] + Escape(s, 0) + Slashes(Trailing(s, 0)) + [QUOTE] else Escape(s, 0)
  }

  /** The arguments after the first, each after one space. */
  function PrintRest(args: seq<seq<int>>): (r: seq<int>)
    ensures args == [] <==> r == []
    ensures r != [] ==> r[0] == SPACE
  {
    if args == [] then [] else [SPACE] + PrintArg(args[0]) + PrintRest(args[1..])
  }

  function Line(args: seq<seq<int>>): seq<int>
    requires args != []
  {
    PrintFirst(args[0]) + PrintRest(args[1..])
  }

  // ------------------------------------------------------------------------
  // The parser
  // ------------------------------------------------------------------------

  function SlashRun(s: seq<int>): (n: nat)
    ensures n <= |s| && s[..n] == Slashes(n)
    ensures n < |s| ==> s[n] != SLASH
  {
    if s != [] && s[0] == SLASH then
      var m := SlashRun(s[1..]);
      assert s[..m + 1] == [s[0]] + s[1..][..m];
      m + 1
    else 0
  }

  datatype Parsed = Parsed(text: seq<int>, rest: seq<int>)

  /** One argument from inside or outside quotes: its text, and the line from where it ends. */
  function ParseArg(s: seq<int>, quoted: bool): (r: Parsed)
    ensures |r.text| + |r.rest| <= |s|
    ensures r.rest == [] || Blank(r.rest[0])
    ensures s != [] && (quoted || !Blank(s[0])) ==> |r.rest| < |s|
    decreases |s|
  {
    if s == [] || (!quoted && Blank(s[0])) then Parsed([], s)
    else if s[0] == SLASH then
      var b := SlashRun(s);
      var t := s[b..];
      if t != [] && t[0] == QUOTE then
        if b % 2 == 1 then Emit(Slashes(b / 2) + [QUOTE], ParseArg(t[1..], quoted))
        else Emit(Slashes(b / 2), ParseArg(t, quoted))
      else Emit(Slashes(b), ParseArg(t, quoted))
    else if s[0] == QUOTE then
      if quoted && |s| > 1 && s[1] == QUOTE then Emit([QUOTE], ParseArg(s[2..], true))
      else ParseArg(s[1..], !quoted)
    else Emit([s[0]], ParseArg(s[1..], quoted))
  }

  function Emit(prefix: seq<int>, p: Parsed): Parsed { Parsed(prefix + p.text, p.rest) }

  function SkipBlanks(s: seq<int>): (r: seq<int>)
    ensures |r| <= |s|
    ensures r != [] ==> !Blank(r[0])
    ensures s != [] && Blank(s[0]) ==> |r| < |s|
  {
    if s != [] && Blank(s[0]) then SkipBlanks(s[1..]) else s
  }

  function ParseRest(s: seq<int>): seq<seq<int>>
    decreases |s|
  {
    var t := SkipBlanks(s);
    if t == [] then []
    else var p := ParseArg(t, false); [p.text] + ParseRest(p.rest)
  }

  /** Up to the first unit that ends the first argument. */
  function Until(s: seq<int>, quote: bool): (n: nat)
    ensures n <= |s|
    ensures forall i :: 0 <= i < n ==> !(if quote then s[i] == QUOTE else Blank(s[i]))
    ensures n < |s| ==> if quote then s[n] == QUOTE else Blank(s[n])
  {
    if s == [] || (if quote then s[0] == QUOTE else Blank(s[0])) then 0 else 1 + Until(s[1..], quote)
  }

  function ParseFirst(s: seq<int>): Parsed {
    if s != [] && s[0] == QUOTE then
      var n := Until(s[1..], true);
      Parsed(s[1..][..n], if n < |s[1..]| then s[1..][n + 1..] else [])
    else
      var n := Until(s, false);
      Parsed(s[..n], s[n..])
  }

  function Parse(line: seq<int>): seq<seq<int>> {
    var p := ParseFirst(line);
    [p.text] + ParseRest(p.rest)
  }

  // ------------------------------------------------------------------------
  // One argument round-trips
  // ------------------------------------------------------------------------

  ghost predicate EndsArg(rest: seq<int>) { rest == [] || Blank(rest[0]) }

  lemma {:induction false} SlashRunOf(n: nat, t: seq<int>)
    requires t == [] || t[0] != SLASH
    ensures SlashRun(Slashes(n) + t) == n && (Slashes(n) + t)[n..] == t
  {
    if n > 0 {
      SlashRunOf(n - 1, t);
      assert (Slashes(n) + t)[1..] == Slashes(n - 1) + t;
    } else {
      assert Slashes(0) + t == t;
    }
  }

  /** Backslashes that no quote follows stand for themselves. */
  lemma SlashesLiteral(n: nat, t: seq<int>, quoted: bool)
    requires t == [] || (t[0] != SLASH && t[0] != QUOTE)
    ensures ParseArg(Slashes(n) + t, quoted) == Emit(Slashes(n), ParseArg(t, quoted))
  {
    SlashRunOf(n, t);
    if n == 0 {
      assert Slashes(n) + t == t;
      assert Slashes(n) + ParseArg(t, quoted).text == ParseArg(t, quoted).text;
    }
  }

  /** Backslashes before a quote: half of them, and the odd one escapes the quote. */
  lemma SlashesQuoted(n: nat, t: seq<int>, quoted: bool)
    requires t != [] && t[0] == QUOTE
    ensures n % 2 == 1 ==> ParseArg(Slashes(n) + t, quoted) == Emit(Slashes(n / 2) + [QUOTE], ParseArg(t[1..], quoted))
    ensures n % 2 == 0 ==> ParseArg(Slashes(n) + t, quoted) == Emit(Slashes(n / 2), ParseArg(t, quoted))
  {
    SlashRunOf(n, t);
    if n == 0 {
      assert Slashes(n) + t == t;
      assert Slashes(0) + ParseArg(t, quoted).text == ParseArg(t, quoted).text;
    }
  }

  lemma SlashesMore(n: nat, t: seq<int>)
    ensures Slashes(n) + ([SLASH] + t) == Slashes(n + 1) + t
  {
    assert Slashes(n + 1) == Slashes(n) + [SLASH];
    Assoc(Slashes(n), [SLASH], t);
  }

  lemma SlashesAdd(n: nat, m: nat)
    ensures Slashes(n) + Slashes(m) == Slashes(n + m)
  {
  }

  lemma ParseOrdinary(c: int, t: seq<int>, quoted: bool)
    requires c != SLASH && c != QUOTE && (quoted || !Blank(c))
    ensures ParseArg([c] + t, quoted) == Emit([c], ParseArg(t, quoted))
  {
    assert ([c] + t)[1..] == t;
  }

  lemma ParseClosing(rest: seq<int>)
    requires EndsArg(rest)
    ensures ParseArg([QUOTE] + rest, true) == Parsed([], rest)
  {
    var s := [QUOTE] + rest;
    assert s[1..] == rest;
    assert ParseArg(s, true) == ParseArg(rest, false);
  }

  lemma ParseOpening(t: seq<int>)
    ensures ParseArg([QUOTE] + t, false) == ParseArg(t, true)
  {
    assert ([QUOTE] + t)[1..] == t;
  }

  /** What is printed after an opening quote, with bs backslashes of it already out. */
  ghost function QuotedTail(s: seq<int>, bs: nat, rest: seq<int>): seq<int> {
    Escape(s, bs) + Slashes(Trailing(s, bs)) + [QUOTE] + rest
  }

  lemma QuotedTailStep(s: seq<int>, bs: nat, rest: seq<int>)
    requires s != []
    ensures s[0] == QUOTE ==> QuotedTail(s, bs, rest) == Slashes(bs + 1) + ([QUOTE] + QuotedTail(s[1..], 0, rest))
    ensures s[0] == SLASH ==> QuotedTail(s, bs, rest) == [SLASH] + QuotedTail(s[1..], bs + 1, rest)
    ensures s[0] != QUOTE && s[0] != SLASH ==> QuotedTail(s, bs, rest) == [s[0]] + QuotedTail(s[1..], 0, rest)
  {
    var bs' := if s[0] == SLASH then bs + 1 else 0;
    var e, t := Escape(s[1..], bs'), Slashes(Trailing(s[1..], bs'));
    assert QuotedTail(s[1..], bs', rest) == e + t + [QUOTE] + rest;
    if s[0] == QUOTE {
      assert Slashes(bs + 1) + [QUOTE] + e + t + [QUOTE] + rest
          == Slashes(bs + 1) + ([QUOTE] + (e + t + [QUOTE] + rest));
    } else {
      assert [s[0]] + e + t + [QUOTE] + rest == [s[0]] + (e + t + [QUOTE] + rest);
    }
  }

  lemma QuotedSlash(s: seq<int>, bs: nat, rest: seq<int>)
    requires s != [] && s[0] == SLASH
    requires ParseArg(Slashes(bs + 1) + QuotedTail(s[1..], bs + 1, rest), true)
         == Parsed(Slashes(bs + 1) + s[1..], rest)
    ensures ParseArg(Slashes(bs) + QuotedTail(s, bs, rest), true) == Parsed(Slashes(bs) + s, rest)
  {
    hide *;
    QuotedTailStep(s, bs, rest);
    SlashesMore(bs, QuotedTail(s[1..], bs + 1, rest));
    SlashesMore(bs, s[1..]);
    assert s == [SLASH] + s[1..];
  }

  lemma QuotedQuote(s: seq<int>, bs: nat, rest: seq<int>)
    requires s != [] && s[0] == QUOTE
    requires ParseArg(QuotedTail(s[1..], 0, rest), true) == Parsed(s[1..], rest)
    ensures ParseArg(Slashes(bs) + QuotedTail(s, bs, rest), true) == Parsed(Slashes(bs) + s, rest)
  {
    hide ParseArg, QuotedTail, Slashes;
    var tail := QuotedTail(s[1..], 0, rest);
    QuotedTailStep(s, bs, rest);
    SlashesAdd(bs, bs + 1);
    Assoc(Slashes(bs), Slashes(bs + 1), [QUOTE] + tail);
    SlashesQuoted(bs + (bs + 1), [QUOTE] + tail, true);
    assert ([QUOTE] + tail)[1..] == tail;
    Assoc(Slashes(bs), [QUOTE], s[1..]);
    assert s == [QUOTE] + s[1..];
  }

  lemma QuotedOrdinary(s: seq<int>, bs: nat, rest: seq<int>)
    requires s != [] && s[0] != QUOTE && s[0] != SLASH
    requires ParseArg(QuotedTail(s[1..], 0, rest), true) == Parsed(s[1..], rest)
    ensures ParseArg(Slashes(bs) + QuotedTail(s, bs, rest), true) == Parsed(Slashes(bs) + s, rest)
  {
    QuotedTailStep(s, bs, rest);
    hide ParseArg, QuotedTail, Slashes;
    var tail := QuotedTail(s[1..], 0, rest);
    SlashesLiteral(bs, [s[0]] + tail, true);
    ParseOrdinary(s[0], tail, true);
    assert [s[0]] + s[1..] == s;
  }

  /** The quoted form of s, with bs backslashes before it already read, parses back to s. */
  lemma {:induction false} QuotedRoundTrip(s: seq<int>, bs: nat, rest: seq<int>)
    requires EndsArg(rest)
    ensures ParseArg(Slashes(bs) + QuotedTail(s, bs, rest), true) == Parsed(Slashes(bs) + s, rest)
  {
    hide ParseArg, Slashes, Escape, Trailing, QuotedTail;
    if s == [] {
      EmptyTail(bs, rest);
      SlashesQuoted(bs + bs, [QUOTE] + rest, true);
      ParseClosing(rest);
    } else if s[0] == SLASH {
      QuotedRoundTrip(s[1..], bs + 1, rest);
      QuotedSlash(s, bs, rest);
    } else {
      QuotedRoundTrip(s[1..], 0, rest);
      assert Slashes(0) + QuotedTail(s[1..], 0, rest) == QuotedTail(s[1..], 0, rest) && Slashes(0) + s[1..] == s[1..];
      if s[0] == QUOTE { QuotedQuote(s, bs, rest); } else { QuotedOrdinary(s, bs, rest); }
    }
  }

  lemma EmptyTail(bs: nat, rest: seq<int>)
    ensures Slashes(bs) + QuotedTail([], bs, rest) == Slashes(bs + bs) + ([QUOTE] + rest)
  {
    SlashesAdd(bs, bs);
    assert Slashes(bs) + ([] + Slashes(bs) + [QUOTE] + rest) == Slashes(bs) + Slashes(bs) + ([QUOTE] + rest);
  }

  lemma PlainStep(s: seq<int>, bs: nat, rest: seq<int>)
    requires s != [] && s[0] != QUOTE && !Blank(s[0])
    requires s[0] == SLASH ==>
      ParseArg(Slashes(bs + 1) + (s[1..] + rest), false) == Parsed(Slashes(bs + 1) + s[1..], rest)
    requires s[0] != SLASH ==> ParseArg(s[1..] + rest, false) == Parsed(s[1..], rest)
    ensures ParseArg(Slashes(bs) + (s + rest), false) == Parsed(Slashes(bs) + s, rest)
  {
    hide ParseArg, Slashes;
    var c, s' := s[0], s[1..];
    assert s == [c] + s';
    Assoc([c], s', rest);
    if c == SLASH {
      SlashesMore(bs, s' + rest);
      SlashesMore(bs, s');
    } else {
      SlashesLiteral(bs, [c] + (s' + rest), false);
      ParseOrdinary(c, s' + rest, false);
    }
  }

  /** Text without blanks or quotes needs no quoting. */
  lemma {:induction false} PlainRoundTrip(s: seq<int>, bs: nat, rest: seq<int>)
    requires NoBlank(s) && QUOTE !in s && EndsArg(rest)
    ensures ParseArg(Slashes(bs) + (s + rest), false) == Parsed(Slashes(bs) + s, rest)
  {
    assert ParseArg(rest, false) == Parsed([], rest);
    hide ParseArg, Slashes;
    if s == [] {
      assert s + rest == rest;
      SlashesLiteral(bs, rest, false);
    } else {
      PlainRoundTrip(s[1..], if s[0] == SLASH then bs + 1 else 0, rest);
      assert Slashes(0) + (s[1..] + rest) == s[1..] + rest && Slashes(0) + s[1..] == s[1..];
      PlainStep(s, bs, rest);
    }
  }

  lemma {:induction false} EscapePlain(s: seq<int>, bs: nat)
    requires QUOTE !in s
    ensures Escape(s, bs) == s
  {
    if s != [] { EscapePlain(s[1..], if s[0] == SLASH then bs + 1 else 0); }
  }

  /** Any argument after the first is read back whole, whatever its blanks, quotes, backslashes. */
  lemma ArgRoundTrip(s: seq<int>, rest: seq<int>)
    requires EndsArg(rest)
    ensures PrintArg(s) != [] && !Blank(PrintArg(s)[0])
    ensures ParseArg(PrintArg(s) + rest, false) == Parsed(s, rest)
  {
    hide ParseArg, Escape, Trailing, Slashes;
    assert Slashes(0) + s == s;
    if NeedsQuotes(s, false) {
      var body := QuotedTail(s, 0, rest);
      QuotedRoundTrip(s, 0, rest);
      assert Slashes(0) + body == body;
      ParseOpening(body);
      assert PrintArg(s) + rest == [QUOTE] + body;
    } else {
      EscapePlain(s, 0);
      PlainRoundTrip(s, 0, rest);
      assert Slashes(0) + (s + rest) == s + rest;
    }
  }

  lemma {:induction false} RestRoundTrip(args: seq<seq<int>>)
    ensures ParseRest(PrintRest(args)) == args
  {
    hide ParseArg, PrintArg;
    if args != [] {
      var line, rest := PrintRest(args), PrintRest(args[1..]);
      ArgRoundTrip(args[0], rest);
      RestRoundTrip(args[1..]);
      assert line[1..] == PrintArg(args[0]) + rest;
      assert SkipBlanks(line) == line[1..] by { assert SkipBlanks(line[1..]) == line[1..]; }
      assert args == [args[0]] + args[1..];
    }
  }

  // ------------------------------------------------------------------------
  // The first argument
  // ------------------------------------------------------------------------

  lemma UntilIs(s: seq<int>, n: nat, quote: bool)
    requires n <= |s| && forall i :: 0 <= i < n ==> !(if quote then s[i] == QUOTE else Blank(s[i]))
    requires n < |s| ==> if quote then s[n] == QUOTE else Blank(s[n])
    ensures Until(s, quote) == n
  {
    var m := Until(s, quote);
    assert m >= n;
  }

  /** argv[0] is only wrapped in quotes, never escaped: it survives exactly when it has no quote,
      or has no blank and does not start with a quote. */
  ghost predicate FirstSafe(s: seq<int>) {
    QUOTE !in s || (NoBlank(s) && s[0] != QUOTE)
  }

  lemma FirstRoundTrip(s: seq<int>, rest: seq<int>)
    requires EndsArg(rest)
    ensures FirstSafe(s) ==> ParseFirst(PrintFirst(s) + rest) == Parsed(s, rest)
    ensures !FirstSafe(s) ==> QUOTE !in ParseFirst(PrintFirst(s) + rest).text
  {
    hide Until;
    var line := PrintFirst(s) + rest;
    if NeedsQuotes(s, true) {
      FirstWrapped(s, rest);
    } else if s[0] != QUOTE {
      UntilIs(line, |s|, false);
      assert line[..|s|] == s && line[|s|..] == rest;
    }
  }

  lemma FirstWrapped(s: seq<int>, rest: seq<int>)
    ensures QUOTE !in s ==> ParseFirst([QUOTE] + s + [QUOTE] + rest) == Parsed(s, rest)
  {
    hide Until;
    var line := [QUOTE] + s + [QUOTE] + rest;
    var t := line[1..];
    assert t == s + [QUOTE] + rest;
    if QUOTE !in s {
      UntilIs(t, |s|, true);
      assert t[..|s|] == s && t[|s| + 1..] == rest;
    }
  }

  /** Splitting a printed line gives the arguments back if and only if the first one is safe. */
  lemma LineRoundTrip(args: seq<seq<int>>)
    requires args != []
    ensures Parse(Line(args)) == args <==> FirstSafe(args[0])
  {
    var rest := PrintRest(args[1..]);
    FirstRoundTrip(args[0], rest);
    RestRoundTrip(args[1..]);
    assert args == [args[0]] + args[1..];
    if !FirstSafe(args[0]) {
      assert Parse(Line(args))[0] != args[0];
    }
  }

  // ------------------------------------------------------------------------
  // Lines that nobody printed
  // ------------------------------------------------------------------------

  /** The documented rule: 2n backslashes before a quote are n and the quote opens or closes; 2n + 1 are n and the quote
      stands for itself; so does a doubled quote inside quotes. */
  lemma BackslashRule(n: nat, t: seq<int>)
    ensures ParseArg(seq(2 * n, _ => 92) + ([34] + t), false) == Emit(seq(n, _ => 92), ParseArg(t, true))
    ensures ParseArg(seq(2 * n + 1, _ => 92) + ([34] + t), false) == Emit(seq(n, _ => 92) + [34], ParseArg(t, false))
    ensures ParseArg(seq(2 * n + 1, _ => 92) + ([34] + t), true) == Emit(seq(n, _ => 92) + [34], ParseArg(t, true))
    ensures ParseArg([34] + ([34] + t), true) == Emit([34], ParseArg(t, true))
  {
    hide ParseArg, Emit;
    assert seq(2 * n, _ => 92) == Slashes(2 * n) && seq(2 * n + 1, _ => 92) == Slashes(2 * n + 1);
    assert seq(n, _ => 92) == Slashes(n);
    hide Slashes;
    var q := [34] + t;
    assert q[1..] == t && 2 * n / 2 == n && (2 * n + 1) / 2 == n;
    SlashesQuoted(2 * n, q, false);
    SlashesQuoted(2 * n + 1, q, false);
    SlashesQuoted(2 * n + 1, q, true);
    ParseOpening(t);
    DoubledQuote(t);
  }

  lemma DoubledQuote(t: seq<int>)
    ensures ParseArg([34] + ([34] + t), true) == Emit([34], ParseArg(t, true))
  {
    var s := [34] + ([34] + t);
    assert s[1] == 34 && s[2..] == t;
  }

  /** Text with no space, tab or quote. */
  ghost predicate Plain(s: seq<int>) { s != [] && 32 !in s && 9 !in s && 34 !in s }

  /** Any run of spaces and tabs, but not none. */
  ghost predicate Gap(s: seq<int>) { s != [] && forall i :: 0 <= i < |s| ==> s[i] == 32 || s[i] == 9 }

  /** Arguments with a gap before each. */
  ghost function Spaced(gaps: seq<seq<int>>, args: seq<seq<int>>): seq<int>
    requires |gaps| == |args|
  {
    if args == [] then [] else gaps[0] + (args[0] + Spaced(gaps[1..], args[1..]))
  }

  ghost predicate SpacedOk(gaps: seq<seq<int>>, args: seq<seq<int>>) {
    && |gaps| == |args|
    && (forall i :: 0 <= i < |gaps| ==> Gap(gaps[i])) && (forall i :: 0 <= i < |args| ==> Plain(args[i]))
  }

  lemma {:induction false} GapSkipped(gap: seq<int>, t: seq<int>)
    requires (forall i :: 0 <= i < |gap| ==> gap[i] == 32 || gap[i] == 9) && (t == [] || !Blank(t[0]))
    ensures SkipBlanks(gap + t) == t
  {
    if gap == [] {
      assert gap + t == t;
    } else {
      assert (gap + t)[1..] == gap[1..] + t;
      GapSkipped(gap[1..], t);
    }
  }

  lemma SpacedStarts(gaps: seq<seq<int>>, args: seq<seq<int>>, end: seq<int>)
    requires SpacedOk(gaps, args) && (end == [] || Gap(end))
    ensures EndsArg(Spaced(gaps, args) + end)
  {
    if args == [] { assert [] + end == end; }
  }

  lemma {:induction false} SpacedSplit(gaps: seq<seq<int>>, args: seq<seq<int>>, end: seq<int>)
    requires SpacedOk(gaps, args) && (end == [] || Gap(end))
    ensures ParseRest(Spaced(gaps, args) + end) == args
    decreases |args|
  {
    hide ParseRest;
    if args == [] {
      assert Spaced(gaps, args) + end == end;
      OnlyGap(end);
    } else {
      var rest := Spaced(gaps[1..], args[1..]) + end;
      assert Spaced(gaps, args) + end == gaps[0] + (args[0] + rest);
      assert SpacedOk(gaps[1..], args[1..]);
      SpacedSplit(gaps[1..], args[1..], end);
      SpacedStarts(gaps[1..], args[1..], end);
      OneSplit(gaps[0], args[0], rest);
      assert args == [args[0]] + args[1..];
    }
  }

  lemma OnlyGap(end: seq<int>)
    requires end == [] || Gap(end)
    ensures ParseRest(end) == []
  {
    hide SkipBlanks;
    assert end == end + [];
    GapSkipped(end, []);
  }

  lemma OneSplit(gap: seq<int>, arg: seq<int>, rest: seq<int>)
    requires Gap(gap) && Plain(arg) && EndsArg(rest)
    ensures ParseRest(gap + (arg + rest)) == [arg] + ParseRest(rest)
  {
    hide ParseArg, SkipBlanks, Slashes;
    assert !Blank((arg + rest)[0]) by { assert arg[0] in arg; }
    GapSkipped(gap, arg + rest);
    PlainRoundTrip(arg, 0, rest);
    assert Slashes(0) + (arg + rest) == arg + rest && Slashes(0) + arg == arg;
  }

  /** Arguments without blanks or quotes, with any spaces and tabs between and after them, are split at those. */
  lemma PlainLine(first: seq<int>, gaps: seq<seq<int>>, args: seq<seq<int>>, end: seq<int>)
    requires Plain(first) && SpacedOk(gaps, args) && (end == [] || Gap(end))
    ensures Parse(first + (Spaced(gaps, args) + end)) == [first] + args
  {
    hide ParseRest, Until, Spaced;
    var rest := Spaced(gaps, args) + end;
    var line := first + rest;
    SpacedStarts(gaps, args, end);
    SpacedSplit(gaps, args, end);
    UntilIs(line, |first|, false);
    assert line[..|first|] == first && line[|first|..] == rest;
  }
}
