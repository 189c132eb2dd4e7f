/** The program's own command line, from the kernel's argument block to the split wide arguments: rebuild_cmdline and
    then CommandLineToArgvW on what it left (shim.cpp, shim_kernel32_tail.hpp). */
module CmdLineRun {
  import opened Common
  import opened Bytes
  import opened Utf
  import opened CmdLine
  import opened CmdLineShim
  import opened ArgvBlock

  /** The wide text up to its terminator. */
  method WideText(wide: array<u16>, ghost text: seq<u16>) returns (s: seq<u16>)
    requires 0 !in text && |text| < wide.Length && wide[..|text| + 1] == text + [0]
    ensures s == text
  {
    var n := 0;
    assert wide[|text|] == (text + [0])[|text|];
    while wide[n] != 0
      invariant 0 <= n <= |text|
      decreases |text| - n
    {
      assert n < |text|;
      n := n + 1;
    }
    s := wide[..n];
    assert s == wide[..|text| + 1][..n];
  }

  lemma LineNotEmpty(args: seq<seq<byte>>)
    requires args != []
    ensures LineBytes(args) != [] && Widen(LineBytes(args)) != []
  {
    hide Widen;
    assert PrintFirst(args[0]) != [];
    WidenQuotes(LineBytes(args), true);
  }

  /** For every argument vector whose line fits the buffer and whose first entry is safe, the program finds the UTF-16
      form of each argument, and the null after them. */
  method SplitOwnLine(buffers: CommandLineBuffers, raw: seq<byte>, self: seq<u16>, ghost args: seq<seq<byte>>)
    returns (block: Block, argc: nat)
    requires buffers.Valid() && args != [] && (forall i :: 0 <= i < |args| ==> 0 !in args[i])
    requires raw == Joined(args) && |LineBytes(args)| < CMDLINE_SIZE
    modifies buffers.narrow, buffers.wide
    ensures argc < block.argv.Length && block.argv[argc] == NULL
    ensures FirstSafe(args[0]) ==> argc == |args| && HoldsArgs(block.argv[..], block.text[..], WidenAll(args))
  {
    hide Widen, Parse, FirstSafe, Entries, Joined, HoldsArgs, Line;
    EntriesOfJoined(args);
    RawNotEmpty(args);
    LineNulFree(args);
    LineNotEmpty(args);
    CommandLineRoundTrip(args);
    buffers.Rebuild(None, raw);
    ghost var text := Widen(LineBytes(args));
    WidenMembers(LineBytes(args), 0);
    var line := WideText(buffers.wide, text);
    block, argc := CommandLineToArgvW(line, self);
  }

  lemma RawNotEmpty(args: seq<seq<byte>>)
    requires args != []
    ensures Joined(args) != []
  {
  }
}
