/** Symbol names and the dynamic string table (elf_build.hpp: make_elf_sym_name, build_synthetic_sections). */
module Names {
  import opened Common
  import opened Bytes
  import opened PeImage

  type Name = seq<byte>

  const DOT: byte := 0x2e
  const UNDERSCORE: byte := 0x5f

  // ------------------------------------------------------------------------
  // "KERNEL32.dll", "ExitProcess" -> "kernel32_ExitProcess"
  // ------------------------------------------------------------------------

  function ToLower(c: byte): byte { if 0x41 <= c <= 0x5a then c + 32 else c }

  function Lowered(s: Name): (r: Name)
    ensures |r| == |s| && forall i :: 0 <= i < |s| ==> r[i] == ToLower(s[i])
  {
    seq(|s|, i requires 0 <= i < |s| => ToLower(s[i]))
  }

  /** Everything before the last dot, or all of it. */
  function Stem(dll: Name): (r: Name)
    ensures DOT !in dll ==> r == dll
    ensures DOT in dll ==> exists n: nat :: n < |dll| && r == dll[..n] && dll[n] == DOT && DOT !in dll[n + 1..]
  {
    StemCut(dll, |dll|);
    Cut(dll, |dll|)
  }

  function Cut(dll: Name, n: nat): Name
    requires n <= |dll|
  {
    if n == 0 then dll else if dll[n - 1] == DOT then dll[..n - 1] else Cut(dll, n - 1)
  }

  lemma {:induction false} StemCut(dll: Name, n: nat)
    requires n <= |dll| && DOT !in dll[n..]
    ensures DOT !in dll ==> Cut(dll, n) == dll
    ensures DOT in dll ==>
      exists m: nat :: m < |dll| && Cut(dll, n) == dll[..m] && dll[m] == DOT && DOT !in dll[m + 1..]
  {
    if n == 0 {
      assert dll[0..] == dll;
    } else if dll[n - 1] != DOT {
      assert dll[n - 1..] == [dll[n - 1]] + dll[n..];
      StemCut(dll, n - 1);
    }
  }

  function SymName(dll: Name, func: Name): Name { Lowered(Stem(dll)) + [UNDERSCORE] + func }

  function NameOf(imp: Import): Name { SymName(imp.dll, imp.func) }

  /** What names a DLL is its file name up to the last dot, capital or small: "KERNEL32.dll" is kernel32. */
  lemma DllSpellings(stem: Name, other: Name, ext: Name, func: Name)
    requires 0x2e !in ext && |stem| == |other|
    requires forall i :: 0 <= i < |stem| ==>
      stem[i] == other[i] || (0x41 <= stem[i] <= 0x5a && other[i] == stem[i] + 32)
    requires forall i :: 0 <= i < |other| ==> !(0x41 <= other[i] <= 0x5a)
    ensures SymName(stem + [0x2e] + ext, func) == other + [0x5f] + func
  {
    var dll, k := stem + [0x2e] + ext, |stem|;
    assert dll[k] == DOT && dll[k + 1..] == ext;
    var n: nat :| n < |dll| && Stem(dll) == dll[..n] && dll[n] == DOT && DOT !in dll[n + 1..];
    hide Stem;
    Later(dll, n, k);
    Later(dll, k, n);
    assert n == k;
    assert dll[..k] == stem;
    assert Lowered(stem) == other;
  }

  lemma Later(s: Name, i: nat, j: nat)
    requires i < |s| && j < |s|
    ensures i < j ==> s[j] in s[i + 1..]
  {
    if i < j { assert s[i + 1..][j - i - 1] == s[j]; }
  }

  method MakeSymName(dll: Name, func: Name) returns (sym: Name)
    ensures sym == SymName(dll, func)
  {
    var dot := |dll|;
    while dot > 0 && dll[dot - 1] != DOT
      invariant 0 <= dot <= |dll| && Cut(dll, |dll|) == Cut(dll, dot)
    {
      dot := dot - 1;
    }
    var prefix := if dot > 0 then dll[..dot - 1] else dll;
    prefix := Lower(prefix);
    sym := prefix + [UNDERSCORE] + func;
  }

  method Lower(s: Name) returns (r: Name)
    ensures r == Lowered(s)
  {
    r := s;
    var i := 0;
    while i < |r|
      invariant 0 <= i <= |r| == |s|
      invariant forall j :: 0 <= j < |s| ==> r[j] == if j < i then ToLower(s[j]) else s[j]
    {
      r := r[i := ToLower(r[i])];
      i := i + 1;
    }
  }

  // ------------------------------------------------------------------------
  // One symbol for each distinct name
  // ------------------------------------------------------------------------

  /** The first place of x, or |names|. */
  function Find(names: seq<Name>, x: Name): (k: nat)
    ensures k <= |names|
    ensures k < |names| ==> names[k] == x
    ensures forall j :: 0 <= j < k ==> names[j] != x
  {
    if names == [] then 0 else if names[0] == x then 0 else 1 + Find(names[1..], x)
  }

  /** The names in order of first use. */
  function UniqueNames(imports: seq<Import>): seq<Name> {
    if imports == [] then []
    else
      var u, x := UniqueNames(imports[..|imports| - 1]), NameOf(imports[|imports| - 1]);
      if x in u then u else u + [x]
  }

  /** Symbol indexes start at 1, past the null symbol. */
  function SymIndex(imports: seq<Import>, i: nat): nat
    requires i < |imports|
  {
    Find(UniqueNames(imports), NameOf(imports[i])) + 1
  }

  lemma {:induction false} UniqueHolds(imports: seq<Import>)
    ensures forall i :: 0 <= i < |imports| ==> NameOf(imports[i]) in UniqueNames(imports)
    ensures forall x :: x in UniqueNames(imports) ==> exists i :: 0 <= i < |imports| && NameOf(imports[i]) == x
    ensures forall a, b :: 0 <= a < b < |UniqueNames(imports)| ==> UniqueNames(imports)[a] != UniqueNames(imports)[b]
    ensures |UniqueNames(imports)| <= |imports|
  {
    hide NameOf;
    if imports != [] {
      var init, last := imports[..|imports| - 1], imports[|imports| - 1];
      UniqueHolds(init);
      assert forall i :: 0 <= i < |init| ==> init[i] == imports[i];
      var u := UniqueNames(imports);
      forall x | x in u ensures exists i :: 0 <= i < |imports| && NameOf(imports[i]) == x {
        if x in UniqueNames(init) {
          var i :| 0 <= i < |init| && NameOf(init[i]) == x;
          assert NameOf(imports[i]) == x;
        } else {
          assert NameOf(imports[|imports| - 1]) == x;
        }
      }
    }
  }

  /** Every import's index is that of a symbol with its name; two imports share an index exactly when they share a
      name. */
  lemma SymIndexes(imports: seq<Import>, i: nat, j: nat)
    requires i < |imports| && j < |imports|
    ensures 1 <= SymIndex(imports, i) <= |UniqueNames(imports)|
    ensures UniqueNames(imports)[SymIndex(imports, i) - 1] == NameOf(imports[i])
    ensures SymIndex(imports, i) == SymIndex(imports, j) <==> NameOf(imports[i]) == NameOf(imports[j])
  {
    hide NameOf, UniqueNames;
    UniqueHolds(imports);
  }

  method FindName(names: seq<Name>, x: Name) returns (k: nat)
    ensures k == Find(names, x)
  {
    k := 0;
    while k < |names|
      invariant 0 <= k <= |names| && forall j :: 0 <= j < k ==> names[j] != x
    {
      if names[k] == x { return; }
      k := k + 1;
    }
  }

  ghost predicate Points(names: seq<Name>, k: nat, x: Name) { 1 <= k <= |names| && names[k - 1] == x }

  /** Names and indexes after the first n imports. */
  ghost predicate Assigned(imports: seq<Import>, n: nat, names: seq<Name>, idx: seq<nat>) {
    && n <= |imports| && |idx| == n && names == UniqueNames(imports[..n])
    && forall i :: 0 <= i < n ==> Points(names, idx[i], NameOf(imports[i]))
  }

  lemma UniqueStep(imports: seq<Import>, n: nat)
    requires n < |imports|
    ensures var u, x := UniqueNames(imports[..n]), NameOf(imports[n]);
      UniqueNames(imports[..n + 1]) == if Find(u, x) < |u| then u else u + [x]
  {
    hide NameOf;
    assert imports[..n + 1][..n] == imports[..n];
  }

  lemma PointsStay(names: seq<Name>, k: nat, x: Name, y: Name)
    requires Points(names, k, x)
    ensures Points(names + [y], k, x)
  {
  }

  lemma AssignedSeen(imports: seq<Import>, n: nat, names: seq<Name>, idx: seq<nat>, k: nat)
    requires n < |imports| && Assigned(imports, n, names, idx) && Points(names, k, NameOf(imports[n]))
    requires UniqueNames(imports[..n + 1]) == names
    ensures Assigned(imports, n + 1, names, idx + [k])
  {
    hide NameOf, UniqueNames, Points;
    var more := idx + [k];
    forall i | 0 <= i < n + 1 ensures Points(names, more[i], NameOf(imports[i])) {
      if i < n { assert Points(names, idx[i], NameOf(imports[i])); }
    }
  }

  lemma AssignedNew(imports: seq<Import>, n: nat, names: seq<Name>, idx: seq<nat>)
    requires n < |imports| && Assigned(imports, n, names, idx)
    requires UniqueNames(imports[..n + 1]) == names + [NameOf(imports[n])]
    ensures Assigned(imports, n + 1, names + [NameOf(imports[n])], idx + [|names| + 1])
  {
    var x := NameOf(imports[n]);
    assert Points(names + [x], |names| + 1, x);
    hide NameOf, UniqueNames, Points;
    var more := idx + [|names| + 1];
    forall i | 0 <= i < n + 1 ensures Points(names + [x], more[i], NameOf(imports[i])) {
      if i < n { PointsStay(names, idx[i], NameOf(imports[i]), x); }
    }
  }

  lemma AssignedNames(imports: seq<Import>, n: nat, names: seq<Name>, idx: seq<nat>)
    requires Assigned(imports, n, names, idx)
    ensures n <= |imports| && UniqueNames(imports[..n]) == names
  {
  }

  lemma AssignedMore(imports: seq<Import>, n: nat, names: seq<Name>, idx: seq<nat>)
    requires n < |imports| && Assigned(imports, n, names, idx)
    ensures var x := NameOf(imports[n]); var k := Find(names, x);
      if k < |names| then Assigned(imports, n + 1, names, idx + [k + 1])
      else Assigned(imports, n + 1, names + [x], idx + [|names| + 1])
  {
    hide NameOf, UniqueNames, Find, Assigned;
    UniqueStep(imports, n);
    AssignedNames(imports, n, names, idx);
    var k := Find(names, NameOf(imports[n]));
    if k < |names| {
      AssignedSeen(imports, n, names, idx, k + 1);
    } else {
      AssignedNew(imports, n, names, idx);
    }
  }

  lemma AssignedAll(imports: seq<Import>, names: seq<Name>, idx: seq<nat>)
    requires Assigned(imports, |imports|, names, idx)
    ensures names == UniqueNames(imports)
    ensures |idx| == |imports| && forall i :: 0 <= i < |imports| ==> idx[i] == SymIndex(imports, i)
  {
    hide NameOf, UniqueNames, Find;
    assert imports[..|imports|] == imports;
    UniqueHolds(imports);
    forall i | 0 <= i < |imports| ensures idx[i] == SymIndex(imports, i) {
      assert Points(names, idx[i], NameOf(imports[i]));
    }
  }

  /** The loop that gives each import its symbol index. */
  method AssignIndexes(imports: seq<Import>) returns (names: seq<Name>, idx: seq<nat>)
    ensures names == UniqueNames(imports)
    ensures |idx| == |imports| && forall i :: 0 <= i < |imports| ==> idx[i] == SymIndex(imports, i)
  {
    names, idx := [], [];
    var n := 0;
    assert Assigned(imports, 0, names, idx);
    hide SymName, Assigned, Find, UniqueNames;
    while n < |imports|
      invariant 0 <= n <= |imports| && Assigned(imports, n, names, idx)
    {
      AssignedMore(imports, n, names, idx);
      var sym := MakeSymName(imports[n].dll, imports[n].func);
      var k := FindName(names, sym);
      if k < |names| {
        idx := idx + [k + 1];
      } else {
        idx := idx + [|names| + 1];
        names := names + [sym];
      }
      n := n + 1;
    }
    AssignedAll(imports, names, idx);
  }

  // ------------------------------------------------------------------------
  // String tables
  // ------------------------------------------------------------------------

  ghost predicate NulFree(s: Name) { 0 !in s }

  /** The C string at the start of s. */
  function CStr(s: seq<byte>): Name {
    if s == [] || s[0] == 0 then [] else [s[0]] + CStr(s[1..])
  }

  lemma {:induction false} CStrIs(s: Name, rest: seq<byte>)
    requires NulFree(s)
    ensures CStr(s + [0] + rest) == s
  {
    var t := s + [0] + rest;
    if s != [] {
      assert t[1..] == s[1..] + [0] + rest;
      CStrIs(s[1..], rest);
      assert s == [s[0]] + s[1..];
    }
  }

  /** Names end to end, each with its terminating zero. */
  function Strings(names: seq<Name>): seq<byte> {
    if names == [] then [] else Strings(names[..|names| - 1]) + names[|names| - 1] + [0]
  }

  lemma {:induction false} StringAt(head: seq<byte>, names: seq<Name>, i: nat)
    requires i < |names| && NulFree(names[i])
    ensures var at := |head| + |Strings(names[..i])|; var tab := head + Strings(names);
      at < |tab| && CStr(tab[at..]) == names[i]
  {
    var rest := StringsFrom(names, i);
    var tab, a := head + Strings(names), head + Strings(names[..i]);
    assert tab == a + (names[i] + [0] + rest);
    assert tab[|a|..] == names[i] + [0] + rest;
    CStrIs(names[i], rest);
  }

  /** What follows name i in the table. */
  lemma {:induction false} StringsFrom(names: seq<Name>, i: nat) returns (rest: seq<byte>)
    requires i < |names|
    ensures Strings(names) == Strings(names[..i]) + (names[i] + [0] + rest)
  {
    var n := |names| - 1;
    if i == n {
      rest := [];
      assert Strings(names[..i]) + names[i] + [0] == Strings(names[..i]) + (names[i] + [0] + []);
    } else {
      var r := StringsFrom(names[..n], i);
      assert names[..n][..i] == names[..i];
      rest := r + names[n] + [0];
      assert Strings(names) == Strings(names[..n]) + names[n] + [0];
      Assoc4(Strings(names[..i]), names[i] + [0], r, names[n] + [0]);
      assert Strings(names[..n]) + names[n] + [0] == Strings(names[..n]) + (names[n] + [0]);
      assert r + names[n] + [0] == r + (names[n] + [0]);
    }
  }

}
