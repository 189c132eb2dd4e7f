/** CommandLineToArgvW as the source runs it: one block holding the pointers and then the text,
    filled by moving p over the line and d over the text (shim_kernel32_tail.hpp). */
module ArgvBlock {
  import opened Common
  import opened Bytes
  import opened Utf
  import opened CmdLine

  const NULL: int := -1

  /** The allocated block: len/2+3 pointers (as offsets into the text) and 2*len+2 text units. */
  class Block {
    const argv: array<int>
    const text: array<u16>

    constructor (len: nat)
      ensures fresh(argv) && fresh(text) && argv as object != text as object
      ensures argv.Length == len / 2 + 3 && text.Length == 2 * len + 2
    {
      argv := new int[len / 2 + 3];
      text := new u16[2 * len + 2];
    }

    /** The block for an empty line: one pointer and the null, and the program's own path. */
    constructor ForPath(n: nat)
      ensures fresh(argv) && fresh(text) && argv as object != text as object
      ensures argv.Length == 2 && text.Length == n + 1
    {
      argv := new int[2];
      text := new u16[n + 1];
    }
  }

  /** From offset at, the text holds arg and its terminator. */
  ghost predicate HoldsArg(text: seq<int>, at: int, arg: seq<int>) {
    0 <= at && at + |arg| < |text| && text[at..at + |arg|] == arg && text[at + |arg|] == 0
  }

  ghost predicate HoldsArgs(argv: seq<int>, text: seq<int>, args: seq<seq<int>>) {
    && |args| < |argv|
    && forall i :: 0 <= i < |args| ==> HoldsArg(text, argv[i], args[i])
  }

  /** The argument being written from offset at has the units out so far, up to d. */
  ghost predicate Writing(text: seq<int>, at: nat, d: nat, out: seq<int>) {
    at <= d <= |text| && text[at..d] == out
  }

  // ------------------------------------------------------------------------
  // Writing units
  // ------------------------------------------------------------------------

  method PutUnit(text: array<u16>, at: nat, d: nat, c: u16, ghost out: seq<int>)
    requires d < text.Length && Writing(text[..], at, d, out)
    modifies text
    ensures Writing(text[..], at, d + 1, out + [c])
    ensures text[..at] == old(text[..at])
  {
    text[d] := c;
    assert text[at..d + 1] == out + [c];
  }

  method PutSlashes(text: array<u16>, at: nat, start: nat, n: nat, ghost out: seq<int>) returns (d: nat)
    requires start + n <= text.Length && Writing(text[..], at, start, out)
    modifies text
    ensures d == start + n && Writing(text[..], at, d, out + Slashes(n))
    ensures text[..at] == old(text[..at])
  {
    d := start;
    assert out + Slashes(0) == out;
    for i := 0 to n
      invariant d == start + i && Writing(text[..], at, d, out + Slashes(i))
      invariant text[..at] == old(text[..at])
    {
      PutUnit(text, at, d, SLASH, out + Slashes(i));
      assert out + Slashes(i) + [SLASH] == out + Slashes(i + 1);
      d := d + 1;
    }
  }

  // ------------------------------------------------------------------------
  // One argument
  // ------------------------------------------------------------------------

  /** Inside an argument that starts at text offset at: what is out so far, followed by what the rest
      of the line parses to, is the whole argument. */
  ghost predicate Parsing(line: seq<int>, p: nat, quoted: bool, out: seq<int>, whole: Parsed) {
    p <= |line| && Emit(out, ParseArg(line[p..], quoted)) == whole
  }

  method CountSlashes(line: seq<u16>, p: nat) returns (q: nat)
    requires p <= |line|
    ensures q == p + SlashRun(line[p..]) && q <= |line|
  {
    q := p;
    while q < |line| && line[q] == SLASH
      invariant p <= q <= |line|
      invariant SlashRun(line[p..]) == q - p + SlashRun(line[q..])
    {
      assert line[q..][1..] == line[q + 1..];
      q := q + 1;
    }
  }

  lemma StepSlashes(line: seq<int>, p: nat, quoted: bool, out: seq<int>, whole: Parsed)
    requires Parsing(line, p, quoted, out, whole) && p < |line| && line[p] == SLASH
    ensures var b := SlashRun(line[p..]); var q := p + b;
      && b > 0 && q <= |line|
      && (if q < |line| && line[q] == QUOTE then
            if b % 2 == 1 then Parsing(line, q + 1, quoted, out + Slashes(b / 2) + [QUOTE], whole)
            else Parsing(line, q, quoted, out + Slashes(b / 2), whole)
          else Parsing(line, q, quoted, out + Slashes(b), whole))
  {
    hide Slashes, ParseArg, SlashRun, Parsing;
    var s := line[p..];
    var b := SlashRun(s);
    var q := p + b;
    assert s[b..] == line[q..];
    ParseSlashRun(s, quoted);
    if q < |line| && line[q] == QUOTE {
      assert line[q..][1..] == line[q + 1..];
      if b % 2 == 1 {
        ParsingOn(line, p, q + 1, quoted, out, Slashes(b / 2) + [QUOTE], whole);
        Assoc(out, Slashes(b / 2), [QUOTE]);
      } else {
        ParsingOn(line, p, q, quoted, out, Slashes(b / 2), whole);
      }
    } else {
      ParsingOn(line, p, q, quoted, out, Slashes(b), whole);
    }
  }

  /** Moving past text that parses to x. */
  lemma ParsingOn(line: seq<int>, p: nat, q: nat, quoted: bool, out: seq<int>, x: seq<int>, whole: Parsed)
    requires Parsing(line, p, quoted, out, whole) && q <= |line|
    requires ParseArg(line[p..], quoted) == Emit(x, ParseArg(line[q..], quoted))
    ensures Parsing(line, q, quoted, out + x, whole)
  {
    hide ParseArg;
    Assoc(out, x, ParseArg(line[q..], quoted).text);
  }

  lemma ParseSlashRun(s: seq<int>, quoted: bool)
    requires s != [] && s[0] == SLASH
    ensures var b := SlashRun(s); var t := s[b..];
      && b > 0
      && ParseArg(s, quoted) == (if t != [] && t[0] == QUOTE then
                                   if b % 2 == 1 then Emit(Slashes(b / 2) + [QUOTE], ParseArg(t[1..], quoted))
                                   else Emit(Slashes(b / 2), ParseArg(t, quoted))
                                 else Emit(Slashes(b), ParseArg(t, quoted)))
  {
  }

  lemma StepQuote(line: seq<int>, p: nat, quoted: bool, out: seq<int>, whole: Parsed)
    requires Parsing(line, p, quoted, out, whole) && p < |line| && line[p] == QUOTE
    ensures if quoted && p + 1 < |line| && line[p + 1] == QUOTE
            then Parsing(line, p + 2, true, out + [QUOTE], whole)
            else Parsing(line, p + 1, !quoted, out, whole)
  {
    var s := line[p..];
    assert s[1..] == line[p + 1..];
    if quoted && p + 1 < |line| && line[p + 1] == QUOTE {
      assert s[2..] == line[p + 2..];
      Assoc(out, [QUOTE], ParseArg(line[p + 2..], true).text);
    }
  }

  lemma StepOrdinary(line: seq<int>, p: nat, quoted: bool, out: seq<int>, whole: Parsed)
    requires Parsing(line, p, quoted, out, whole) && p < |line| && line[p] != QUOTE && line[p] != SLASH
    requires quoted || !Blank(line[p])
    ensures Parsing(line, p + 1, quoted, out + [line[p]], whole)
  {
    assert line[p..][1..] == line[p + 1..];
    Assoc(out, [line[p]], ParseArg(line[p + 1..], quoted).text);
  }

  lemma StepEnd(line: seq<int>, p: nat, quoted: bool, out: seq<int>, whole: Parsed)
    requires Parsing(line, p, quoted, out, whole)
    requires p == |line| || (!quoted && Blank(line[p]))
    ensures out == whole.text && line[p..] == whole.rest
  {
    assert p == |line| ==> line[p..] == [];
    assert out + [] == out;
  }

  /** The branch for a run of backslashes. */
  method TakeSlashes(line: seq<u16>, p: nat, quoted: bool, text: array<u16>, at: nat, d: nat, ghost out: seq<int>,
                     ghost whole: Parsed)
    returns (p': nat, d': nat, ghost out': seq<int>)
    requires p < |line| && line[p] == SLASH && Parsing(line, p, quoted, out, whole)
    requires Writing(text[..], at, d, out) && d + (|line| - p) < text.Length
    modifies text
    ensures p < p' <= |line| && Parsing(line, p', quoted, out', whole)
    ensures Writing(text[..], at, d', out') && d' - d <= p' - p
    ensures text[..at] == old(text[..at])
  {
    hide Parsing, Writing;
    StepSlashes(line, p, quoted, out, whole);
    var q := CountSlashes(line, p);
    var b := q - p;
    var escapes := q < |line| && line[q] == QUOTE;
    var keep := if escapes then b / 2 else b;
    d' := PutSlashes(text, at, d, keep, out);
    out' := out + Slashes(keep);
    p' := q;
    if escapes && b % 2 == 1 {
      PutUnit(text, at, d', line[p'], out');
      p', d', out' := p' + 1, d' + 1, out' + [QUOTE];
    }
  }

  /** One step of the loop over an argument. */
  method TakeStep(line: seq<u16>, p: nat, quoted: bool, text: array<u16>, at: nat, d: nat, ghost out: seq<int>,
                  ghost whole: Parsed)
    returns (p': nat, quoted': bool, d': nat, ghost out': seq<int>)
    requires p < |line| && (quoted || !Blank(line[p])) && Parsing(line, p, quoted, out, whole)
    requires Writing(text[..], at, d, out) && d + (|line| - p) < text.Length
    modifies text
    ensures p < p' <= |line| && Parsing(line, p', quoted', out', whole)
    ensures Writing(text[..], at, d', out') && d' - d <= p' - p
    ensures text[..at] == old(text[..at])
  {
    hide Parsing, Writing;
    p', quoted', d', out' := p, quoted, d, out;
    if line[p] == SLASH {
      p', d', out' := TakeSlashes(line, p, quoted, text, at, d, out, whole);
    } else if line[p] == QUOTE {
      StepQuote(line, p, quoted, out, whole);
      if quoted && p + 1 < |line| && line[p + 1] == QUOTE {
        PutUnit(text, at, d, QUOTE, out);
        p', d', out' := p + 2, d + 1, out + [QUOTE];
      } else {
        p', quoted' := p + 1, !quoted;
      }
    } else {
      StepOrdinary(line, p, quoted, out, whole);
      PutUnit(text, at, d, line[p], out);
      p', d', out' := p + 1, d + 1, out + [line[p]];
    }
  }

  /** The loop over one argument, and its terminator. */
  method TakeArgument(line: seq<u16>, start: nat, text: array<u16>, at: nat) returns (p: nat, d: nat)
    requires start < |line| && !Blank(line[start]) && at + (|line| - start) < text.Length
    modifies text
    ensures start < p <= |line| && at < d <= text.Length && d - 1 - at <= p - start
    ensures var whole := ParseArg(line[start..], false);
      line[p..] == whole.rest && HoldsArg(text[..d], at, whole.text)
    ensures text[..at] == old(text[..at])
  {
    hide Parsing, Writing, ParseArg, HoldsArg;
    p, d := start, at;
    var quoted := false;
    ghost var whole := ParseArg(line[start..], false);
    ghost var out: seq<int> := [];
    NothingTaken(line, start, text[..], at);
    while p < |line| && (quoted || !Blank(line[p]))
      invariant start <= p <= |line| && Parsing(line, p, quoted, out, whole)
      invariant p == start ==> !quoted
      invariant Writing(text[..], at, d, out) && d - at <= p - start
      invariant text[..at] == old(text[..at])
      decreases |line| - p
    {
      p, quoted, d, out := TakeStep(line, p, quoted, text, at, d, out, whole);
    }
    StepEnd(line, p, quoted, out, whole);
    WritingBound(text[..], at, d, out);
    Terminate(text, at, d, out);
    d := d + 1;
  }

  lemma NothingTaken(line: seq<int>, start: nat, text: seq<u16>, at: nat)
    requires start <= |line| && at <= |text|
    ensures Parsing(line, start, false, [], ParseArg(line[start..], false)) && Writing(text, at, at, [])
  {
    hide ParseArg;
    var whole := ParseArg(line[start..], false);
    assert [] + whole.text == whole.text;
  }

  lemma WritingBound(text: seq<u16>, at: nat, d: nat, out: seq<int>)
    requires Writing(text, at, d, out)
    ensures at <= d <= |text|
  {
  }

  method Terminate(text: array<u16>, at: nat, d: nat, ghost out: seq<int>)
    requires d < text.Length && Writing(text[..], at, d, out)
    modifies text
    ensures HoldsArg(text[..d + 1], at, out)
    ensures text[..at] == old(text[..at])
  {
    text[d] := 0;
    assert text[..d + 1][at..d] == out;
  }

  /** The first argument: up to the second quote, or up to a blank. */
  method TakeFirst(line: seq<u16>, text: array<u16>) returns (p: nat, d: nat)
    requires line != [] && text.Length == 2 * |line| + 2
    modifies text
    ensures p <= |line| && 0 < d <= p + 1
    ensures line[p..] == ParseFirst(line).rest && HoldsArg(text[..d], 0, ParseFirst(line).text)
    ensures p == |line| || Blank(line[p]) || p >= 1
  {
    var quote := line[0] == QUOTE;
    p := if quote then 1 else 0;
    ghost var s := line[p..];
    assert line[0..] == line;
    d := CopyUntil(line, p, quote, text);
    p := p + d;
    assert ParseFirst(line).text == s[..d];
    if quote && p < |line| {
      assert s[d + 1..] == line[p + 1..];
      p := p + 1;
    } else {
      assert s[d..] == line[p..];
    }
    Terminate(text, 0, d, s[..d]);
    d := d + 1;
  }

  method CopyUntil(line: seq<u16>, start: nat, quote: bool, text: array<u16>) returns (d: nat)
    requires start <= |line| <= text.Length
    modifies text
    ensures d == Until(line[start..], quote) && Writing(text[..], 0, d, line[start..][..d])
  {
    ghost var s := line[start..];
    d := 0;
    var p := start;
    while p < |line| && (if quote then line[p] != QUOTE else !Blank(line[p]))
      invariant d <= |s| && p == start + d
      invariant Until(s, quote) == d + Until(line[p..], quote)
      invariant Writing(text[..], 0, d, s[..d])
    {
      hide Writing;
      assert line[p..][1..] == line[p + 1..];
      assert s[d] == line[p] && s[..d + 1] == s[..d] + [s[d]];
      PutUnit(text, 0, d, line[p], s[..d]);
      p, d := p + 1, d + 1;
    }
  }

  method SkipOver(line: seq<u16>, start: nat) returns (p: nat)
    requires start <= |line|
    ensures start <= p <= |line| && line[p..] == SkipBlanks(line[start..])
    ensures p == |line| || !Blank(line[p])
    ensures start < |line| && Blank(line[start]) ==> start < p
  {
    p := start;
    while p < |line| && Blank(line[p])
      invariant start <= p <= |line|
      invariant SkipBlanks(line[start..]) == SkipBlanks(line[p..])
      invariant p == start || start < p
    {
      assert line[p..][1..] == line[p + 1..];
      p := p + 1;
    }
  }

  /** Writing argument number argc keeps the earlier ones. */
  lemma AnotherArg(argv: seq<int>, argv': seq<int>, text: seq<int>, text': seq<int>, args: seq<seq<int>>, arg: seq<int>)
    requires HoldsArgs(argv, text, args) && |args| + 1 < |argv| == |argv'|
    requires text <= text' && HoldsArg(text', |text|, arg)
    requires argv' == argv[|args| := |text|]
    ensures HoldsArgs(argv', text', args + [arg])
  {
    forall i | 0 <= i < |args|
      ensures HoldsArg(text', argv'[i], args[i])
    {
      assert HoldsArg(text, argv[i], args[i]);
      var a, n := argv[i], |args[i]|;
      assert text'[a..a + n] == text[a..a + n];
    }
  }

  /** shell32_CommandLineToArgvW. Every write to the block is in bounds: with a line of len units at most
      len/2 + 2 arguments are stored, and their text with terminators fits 2*len + 2 units. */
  method CommandLineToArgvW(line: seq<u16>, self: seq<u16>) returns (block: Block, argc: nat)
    ensures argc < block.argv.Length && block.argv[argc] == NULL
    ensures var args := if line == [] then [self] else Parse(line);
      argc == |args| && HoldsArgs(block.argv[..], block.text[..], args)
  {
    if line == [] {
      block := new Block.ForPath(|self|);
      argc := 1;
      var i := 0;
      while i < |self|
        invariant 0 <= i <= |self| && Writing(block.text[..], 0, i, self[..i])
      {
        PutUnit(block.text, 0, i, self[i], self[..i]);
        assert self[..i] + [self[i]] == self[..i + 1];
        i := i + 1;
      }
      assert self[..i] == self;
      Terminate(block.text, 0, i, self);
      assert block.text[..i + 1] == block.text[..];
      block.argv[0], block.argv[1] := 0, NULL;
      return;
    }
    block := new Block(|line|);
    argc := Fill(line, block.argv, block.text);
    block.argv[argc] := NULL;
  }

  /** Between two arguments: args are stored, and the line from p still holds the others. */
  ghost predicate Filled(line: seq<int>, p: nat, argv: seq<int>, text: seq<int>, d: nat, args: seq<seq<int>>) {
    && p <= |line| && d <= |text|
    && 2 * |args| <= p + 2 && d <= p + |args|
    && (p < |line| && !Blank(line[p]) ==> 2 * |args| <= p + 1)
    && HoldsArgs(argv, text[..d], args)
    && args + ParseRest(line[p..]) == Parse(line)
  }

  lemma FilledMore(line: seq<int>, p: nat, p': nat, q: nat, argv: seq<int>, argv': seq<int>, text: seq<int>,
                   text': seq<int>, d: nat, e: nat, args: seq<seq<int>>)
    requires Filled(line, p, argv, text, d, args) && |args| + 1 < |argv|
    requires p <= p' < |line| && line[p'..] == SkipBlanks(line[p..]) && (Blank(line[p]) ==> p < p')
    requires var whole := ParseArg(line[p'..], false);
      p' < q <= |line| && line[q..] == whole.rest && d < e <= |text'| && HoldsArg(text'[..e], d, whole.text)
    requires e - 1 - d <= q - p' && text'[..d] == text[..d] && argv' == argv[|args| := d]
    ensures Filled(line, q, argv', text', e, args + [ParseArg(line[p'..], false).text])
  {
    var whole := ParseArg(line[p'..], false);
    assert ParseRest(line[p..]) == [whole.text] + ParseRest(whole.rest);
    assert args + ([whole.text] + ParseRest(whole.rest)) == args + [whole.text] + ParseRest(whole.rest);
    hide ParseArg, ParseRest, Parse, SkipBlanks;
    assert text'[..e][..d] == text[..d];
    AnotherArg(argv, argv', text[..d], text'[..e], args, whole.text);
    assert q == |line| || Blank(line[q]) by { assert whole.rest == [] || Blank(whole.rest[0]); }
  }

  lemma FilledAll(line: seq<int>, p: nat, argv: seq<int>, text: seq<int>, d: nat, args: seq<seq<int>>)
    requires Filled(line, p, argv, text, d, args) && SkipBlanks(line[p..]) == []
    ensures args == Parse(line) && HoldsArgs(argv, text, args) && |args| <= |line| / 2 + 2
  {
    assert ParseRest(line[p..]) == [] && args + [] == args;
    forall i | 0 <= i < |args| ensures HoldsArg(text, argv[i], args[i]) {
      assert HoldsArg(text[..d], argv[i], args[i]);
      assert text[argv[i]..argv[i] + |args[i]|] == text[..d][argv[i]..argv[i] + |args[i]|];
    }
  }

  method Fill(line: seq<u16>, argv: array<int>, text: array<u16>) returns (argc: nat)
    requires argv as object != text as object
    requires line != [] && argv.Length == |line| / 2 + 3 && text.Length == 2 * |line| + 2
    modifies argv, text
    ensures argc <= |line| / 2 + 2 && argc == |Parse(line)|
    ensures HoldsArgs(argv[..], text[..], Parse(line))
  {
    argv[0] := 0;
    argc := 1;
    var p, d := TakeFirst(line, text);
    ghost var args := [ParseFirst(line).text];
    assert Filled(line, p, argv[..], text[..], d, args);
    while true
      invariant p <= |line| && argc == |args| && 2 * argc <= p + 2 && d <= p + argc
      invariant Filled(line, p, argv[..], text[..], d, args)
      decreases |line| - p
    {
      hide Filled, Parse, ParseArg, ParseFirst, SkipBlanks, HoldsArg;
      var q := SkipOver(line, p);
      if q == |line| { break; }
      RoomForMore(line, p, argv[..], text[..], d, args, q);
      ghost var argv0, text0 := argv[..], text[..];
      argv[argc] := d;
      var end, e := TakeArgument(line, q, text, d);
      FilledMore(line, p, q, end, argv0, argv[..], text0, text[..], d, e, args);
      args := args + [ParseArg(line[q..], false).text];
      p, d, argc := end, e, argc + 1;
      FilledBounds(line, p, argv[..], text[..], d, args);
    }
    FilledAll(line, p, argv[..], text[..], d, args);
  }

  lemma FilledBounds(line: seq<int>, p: nat, argv: seq<int>, text: seq<int>, d: nat, args: seq<seq<int>>)
    requires Filled(line, p, argv, text, d, args)
    ensures p <= |line| && 2 * |args| <= p + 2 && d <= p + |args|
  {
  }

  /** Before the next argument there is a pointer left for it and one for the null, and room for its text. */
  lemma RoomForMore(line: seq<int>, p: nat, argv: seq<int>, text: seq<int>, d: nat, args: seq<seq<int>>, q: nat)
    requires Filled(line, p, argv, text, d, args) && p <= q < |line|
    requires |argv| == |line| / 2 + 3 && |text| == 2 * |line| + 2
    ensures |args| + 1 < |argv| && d + (|line| - q) < |text|
  {
  }
}
