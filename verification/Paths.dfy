/** Lexical path folding (GetFullPathNameW, shim_kernel32_misc.hpp) and the two path translations it
    sits between (win_path_to_posix and posix_to_win_path, shim.cpp). */
module Paths {
  import opened Common
  import opened Bytes

  const SEP: byte := 47
  const DOT: byte := 46
  const BACK: byte := 92
  const COLON: byte := 58
  const QUESTION: byte := 63
  const DRIVE: byte := 67
  const PATH_MAX: nat := 4096

  type Name = seq<byte>

  // ------------------------------------------------------------------------
  // Components
  // ------------------------------------------------------------------------

  function SepIndex(s: seq<byte>): (n: nat)
    ensures n <= |s| && SEP !in s[..n] && (n < |s| ==> s[n] == SEP)
  {
    if s == [] || s[0] == SEP then 0 else
      assert s[..1 + SepIndex(s[1..])] == [s[0]] + s[1..][..SepIndex(s[1..])];
      1 + SepIndex(s[1..])
  }

  function AfterSep(s: seq<byte>): seq<byte> {
    if SepIndex(s) < |s| then s[SepIndex(s) + 1..] else []
  }

  /** The components of a path, empty ones included. */
  function Components(s: seq<byte>): (cs: seq<Name>)
    ensures forall i :: 0 <= i < |cs| ==> SEP !in cs[i]
    decreases |s|
  {
    if s == [] then [] else [s[..SepIndex(s)]] + Components(AfterSep(s))
  }

  predicate IsDotDot(c: Name) { c == [DOT, DOT] }

  predicate IsDropped(c: Name) { c == [] || c == [DOT] }

  /** A component that survives folding. */
  ghost predicate Proper(c: Name) { c != [] && SEP !in c && c != [DOT] && c != [DOT, DOT] }

  ghost predicate AllProper(cs: seq<Name>) { forall i :: 0 <= i < |cs| ==> Proper(cs[i]) }

  // ------------------------------------------------------------------------
  // The reference: a stack of components
  // ------------------------------------------------------------------------

  function Push(st: seq<Name>, c: Name): seq<Name> {
    if IsDotDot(c) then (if st == [] then [] else st[..|st| - 1])
    else if IsDropped(c) then st
    else st + [c]
  }

  function Fold(st: seq<Name>, cs: seq<Name>): seq<Name>
    decreases cs
  {
    if cs == [] then st else Fold(Push(st, cs[0]), cs[1..])
  }

  function Join(st: seq<Name>): seq<byte> {
    if st == [] then [] else Join(st[..|st| - 1]) + [SEP] + st[|st| - 1]
  }

  function Render(st: seq<Name>): (r: seq<byte>)
    ensures r != []
  {
    if st == [] then [SEP] else Join(st)
  }

  /** A rendered stack with the separator that a directory spelling keeps. */
  function RenderDir(st: seq<Name>, trailing: bool): (r: seq<byte>)
    ensures r != []
  {
    Render(st) + (if st != [] && trailing then [SEP] else [])
  }

  /** The absolute path that a POSIX path names: a relative one starts from the current directory. */
  function FullPath(cwd: seq<Name>, path: seq<byte>): seq<byte>
    requires path != []
  {
    var st := Fold(if path[0] == SEP then [] else cwd, Components(path));
    RenderDir(st, path[|path| - 1] == SEP)
  }

  // ------------------------------------------------------------------------
  // The bounded fold of the source
  // ------------------------------------------------------------------------

  /** A component is refused when the buffer could not take a separator and it. */
  predicate TooLong(st: seq<Name>, c: Name) {
    !IsDotDot(c) && !IsDropped(c) && |Render(st)| + 1 + |c| >= PATH_MAX
  }

  function BoundedFold(st: seq<Name>, cs: seq<Name>): Option<seq<Name>>
    decreases cs
  {
    if cs == [] then Some(st)
    else if TooLong(st, cs[0]) then None
    else BoundedFold(Push(st, cs[0]), cs[1..])
  }

  function BoundedPath(cwd: seq<Name>, path: seq<byte>): Option<seq<byte>>
    requires path != []
  {
    match BoundedFold(if path[0] == SEP then [] else cwd, Components(path))
    case None => None
    case Some(st) =>
      if st != [] && path[|path| - 1] == SEP then
        if |Render(st)| + 1 >= PATH_MAX then None else Some(Render(st) + [SEP])
      else Some(Render(st))
  }

  /** What the bounded fold answers is the stack fold's answer, and it answers exactly when no
      component on the way is too long for the buffer. */
  lemma {:induction false} BoundedFoldIsFold(st: seq<Name>, cs: seq<Name>)
    ensures BoundedFold(st, cs).Some? ==> BoundedFold(st, cs).value == Fold(st, cs)
    ensures BoundedFold(st, cs).Some? <==> forall k :: 0 <= k < |cs| ==> !TooLong(Fold(st, cs[..k]), cs[k])
    decreases cs
  {
    if cs != [] {
      var st' := Push(st, cs[0]);
      BoundedFoldIsFold(st', cs[1..]);
      assert Fold(st, cs[..0]) == st;
      assert forall k :: 0 < k < |cs| ==> cs[..k][1..] == cs[1..][..k - 1] && cs[k] == cs[1..][k - 1];
      assert forall k :: 0 < k < |cs| ==> Fold(st, cs[..k]) == Fold(st', cs[1..][..k - 1]);
      if BoundedFold(st', cs[1..]).None? {
        var m :| 0 <= m < |cs[1..]| && TooLong(Fold(st', cs[1..][..m]), cs[1..][m]);
        assert cs[..m + 1][1..] == cs[1..][..m] && cs[1..][m] == cs[m + 1];
        assert Fold(st, cs[..m + 1]) == Fold(st', cs[1..][..m]);
        assert TooLong(Fold(st, cs[..m + 1]), cs[m + 1]);
      }
    }
  }

  lemma BoundedPathIsFull(cwd: seq<Name>, path: seq<byte>)
    requires path != []
    ensures BoundedPath(cwd, path).Some? ==> BoundedPath(cwd, path).value == FullPath(cwd, path)
  {
    var st := if path[0] == SEP then [] else cwd;
    BoundedFoldIsFold(st, Components(path));
    assert Render(Fold(st, Components(path))) + [] == Render(Fold(st, Components(path)));
  }

  // ------------------------------------------------------------------------
  // Folding leaves no dots, and folding again changes nothing
  // ------------------------------------------------------------------------

  lemma {:induction false} FoldProper(st: seq<Name>, cs: seq<Name>)
    requires AllProper(st) && forall i :: 0 <= i < |cs| ==> SEP !in cs[i]
    ensures AllProper(Fold(st, cs))
    decreases cs
  {
    if cs != [] { FoldProper(Push(st, cs[0]), cs[1..]); }
  }

  lemma {:induction false} FoldOfProper(st: seq<Name>, cs: seq<Name>)
    requires AllProper(cs)
    ensures Fold(st, cs) == st + cs
    decreases cs
  {
    if cs == [] {
      assert st + [] == st;
    } else {
      FoldOfProper(st + [cs[0]], cs[1..]);
      assert st + [cs[0]] + cs[1..] == st + cs;
    }
  }

  lemma SepIndexIs(s: seq<byte>, n: nat)
    requires n <= |s| && SEP !in s[..n] && (n < |s| ==> s[n] == SEP)
    ensures SepIndex(s) == n
  {
    if n > 0 {
      assert s[..n][0] == s[0] && s[1..][..n - 1] == s[..n][1..];
      SepIndexIs(s[1..], n - 1);
    }
  }

  lemma ComponentsAfterSep(s: seq<byte>)
    ensures Components([SEP] + s) == [[]] + Components(s)
  {
    var t := [SEP] + s;
    assert SepIndex(t) == 0 && t[1..] == s && t[..0] == [];
  }

  /** The components after rest, which starts a new one or is empty. */
  ghost function Onward(rest: seq<byte>): seq<Name> {
    if rest == [] then [] else Components(rest[1..])
  }

  lemma ComponentsOfName(c: Name, rest: seq<byte>)
    requires c != [] && SEP !in c && (rest == [] || rest[0] == SEP)
    ensures Components(c + rest) == [c] + Onward(rest)
  {
    SepIndexIs(c + rest, |c|);
    assert (c + rest)[..|c|] == c;
    if rest != [] { assert (c + rest)[|c| + 1..] == rest[1..]; }
  }

  /** Splitting a list of joined names. */
  lemma {:induction false} ComponentsOfJoin(cs: seq<Name>, rest: seq<byte>)
    requires AllProper(cs) && cs != [] && (rest == [] || rest[0] == SEP)
    ensures Components(Join(cs) + rest) == [[]] + cs + Onward(rest)
    decreases |cs|
  {
    hide Components, Onward;
    var last, init := cs[|cs| - 1], cs[..|cs| - 1];
    var tail := [SEP] + (last + rest);
    ComponentsOfName(last, rest);
    assert cs == init + [last];
    assert Join(cs) + rest == Join(init) + tail;
    if init == [] {
      assert Join(init) + tail == tail;
      ComponentsAfterSep(last + rest);
      assert [[]] + ([last] + Onward(rest)) == [[]] + cs + Onward(rest);
    } else {
      ComponentsOfJoin(init, tail);
      OnwardIs(last + rest);
      assert [[]] + init + ([last] + Onward(rest)) == [[]] + cs + Onward(rest);
    }
  }

  lemma OnwardIs(s: seq<byte>)
    ensures Onward([SEP] + s) == Components(s)
  {
    assert ([SEP] + s)[1..] == s;
  }

  /** A folded path, with or without a trailing separator, folds to itself from any directory. */
  lemma RenderFixed(cwd: seq<Name>, st: seq<Name>, trailing: bool)
    requires AllProper(st)
    ensures var path := RenderDir(st, trailing); path[0] == SEP && FullPath(cwd, path) == path
  {
    if st == [] {
      assert Components([SEP]) == [[]] by { ComponentsAfterSep([]); assert [SEP] + [] == [SEP]; }
      assert [SEP] + [] == [SEP];
      assert Fold([], [[]]) == Fold([], []);
    } else {
      var rest := if trailing then [SEP] else [];
      var path := Join(st) + rest;
      ComponentsOfJoin(st, rest);
      assert Onward(rest) == [] by { if trailing { assert rest[1..] == []; } }
      assert Components(path) == [[]] + st by { assert [[]] + st + [] == [[]] + st; }
      assert ([[]] + st)[1..] == st;
      FoldOfProper([], st);
      assert [] + st == st;
      JoinStart(st);
      JoinEnd(st);
    }
  }

  lemma {:induction false} JoinStart(st: seq<Name>)
    requires st != []
    ensures Join(st) != [] && Join(st)[0] == SEP
  {
    if |st| > 1 { JoinStart(st[..|st| - 1]); }
  }

  lemma JoinEnd(st: seq<Name>)
    requires AllProper(st) && st != []
    ensures Join(st)[|Join(st)| - 1] != SEP
  {
    var last := st[|st| - 1];
    assert last[|last| - 1] in last;
  }

  /** Folding leaves no empty, "." or ".." component, and is idempotent. */
  lemma FullPathIdempotent(cwd: seq<Name>, cwd': seq<Name>, path: seq<byte>)
    requires AllProper(cwd) && path != []
    ensures var full := FullPath(cwd, path);
      && full != [] && full[0] == SEP
      && (exists st, trailing :: AllProper(st) && full == RenderDir(st, trailing))
      && FullPath(cwd', full) == full
  {
    var st := Fold(if path[0] == SEP then [] else cwd, Components(path));
    FoldProper(if path[0] == SEP then [] else cwd, Components(path));
    var trailing := path[|path| - 1] == SEP;
    RenderFixed(cwd', st, trailing);
    assert AllProper(st) && FullPath(cwd, path) == RenderDir(st, trailing);
  }

  // ------------------------------------------------------------------------
  // What the dots, the separators and the current directory mean
  // ------------------------------------------------------------------------

  /** Folding a path is folding what is before any of its separators and then what is after it. */
  lemma {:induction false} FoldAcross(st: seq<Name>, x: seq<byte>, z: seq<byte>)
    ensures Fold(st, Components(x + [SEP] + z)) == Fold(Fold(st, Components(x)), Components(z))
    decreases |x|
  {
    hide Components;
    if x == [] {
      assert x + [SEP] + z == [SEP] + z;
      ComponentsAfterSep(z);
      assert Components([]) == [] by { NoComponents(); }
      FoldCons(st, [], Components(z));
    } else {
      var k := SepIndex(x);
      var head, path := x[..k], x + [SEP] + z;
      SepIndexIs(path, k);
      assert path[..k] == head;
      ComponentStep(path);
      ComponentStep(x);
      FoldCons(st, head, Components(AfterSep(path)));
      FoldCons(st, head, Components(AfterSep(x)));
      if k == |x| {
        assert AfterSep(path) == z && AfterSep(x) == [];
        NoComponents();
      } else {
        assert AfterSep(path) == AfterSep(x) + [SEP] + z;
        FoldAcross(Push(st, head), AfterSep(x), z);
      }
    }
  }

  lemma NoComponents()
    ensures Components([]) == []
  {
  }

  lemma FoldCons(st: seq<Name>, c: Name, cs: seq<Name>)
    ensures Fold(st, [c] + cs) == Fold(Push(st, c), cs)
  {
    assert ([c] + cs)[1..] == cs;
  }

  /** A component at the end of a path or before a separator is pushed. */
  lemma FoldName(st: seq<Name>, c: Name, y: seq<byte>)
    requires c != [] && SEP !in c && (y == [] || y[0] == SEP)
    ensures Fold(st, Components(c + y)) == Fold(Push(st, c), Onward(y))
  {
    hide Components, Onward, Push;
    ComponentsOfName(c, y);
    FoldCons(st, c, Onward(y));
  }

  /** Paths that start and end alike differ only through the stacks they leave. */
  lemma SameFold(cwd: seq<Name>, p: seq<byte>, q: seq<byte>)
    requires p != [] && q != [] && p[0] == q[0] && (p[|p| - 1] == SEP <==> q[|q| - 1] == SEP)
    requires var st := if p[0] == SEP then [] else cwd; Fold(st, Components(p)) == Fold(st, Components(q))
    ensures FullPath(cwd, p) == FullPath(cwd, q)
  {
  }

  ghost predicate StartsAnew(y: seq<byte>) { y == [] || y[0] == SEP }

  /** A name and ".." push and pop. */
  lemma PushAndPop(st: seq<Name>, c: Name, y: seq<byte>)
    requires Proper(c) && StartsAnew(y)
    ensures Fold(st, Components(c + [SEP] + ([DOT, DOT] + y))) == Fold(st, Onward(y))
  {
    hide Components, Onward, Fold;
    FoldAcross(st, c, [DOT, DOT] + y);
    FoldName(st, c, []);
    OnwardNone();
    FoldNone(st + [c]);
    assert c + [] == c;
    FoldName(st + [c], [DOT, DOT], y);
    assert Push(st + [c], [DOT, DOT]) == st;
  }

  lemma FoldNone(st: seq<Name>)
    ensures Fold(st, []) == st
  {
  }

  /** A name and ".." after it are no more than ".": "x/c/.." is "x/.", wherever they stand. */
  lemma DotDotCancels(cwd: seq<Name>, x: seq<byte>, c: Name, y: seq<byte>)
    requires Proper(c) && StartsAnew(y)
    ensures FullPath(cwd, x + [SEP] + (c + [SEP] + ([DOT, DOT] + y))) == FullPath(cwd, x + [SEP] + ([DOT] + y))
  {
    hide Components, Onward, Fold, FullPath, Proper, StartsAnew;
    var z := c + [SEP] + ([DOT, DOT] + y);
    var p, q := x + [SEP] + z, x + [SEP] + ([DOT] + y);
    var start := if p[0] == SEP then [] else cwd;
    var st := Fold(start, Components(x));
    FoldAcross(start, x, z);
    FoldAcross(start, x, [DOT] + y);
    PushAndPop(st, c, y);
    OneDot(st, y);
    EndsAlike(p, q, y, [DOT]);
    SameFold(cwd, p, q);
  }

  lemma OneDot(st: seq<Name>, y: seq<byte>)
    requires StartsAnew(y)
    ensures Fold(st, Components([DOT] + y)) == Fold(st, Onward(y))
  {
    FoldName(st, [DOT], y);
  }

  lemma OnwardNone()
    ensures Onward([]) == []
  {
  }

  lemma EndsAlike(p: seq<byte>, q: seq<byte>, y: seq<byte>, last: seq<byte>)
    requires |last| <= |p| && |last| <= |q|
    requires |p| >= |last| + |y| && p[|p| - |y| - |last|..] == last + y
    requires |q| >= |last| + |y| && q[|q| - |y| - |last|..] == last + y && last != []
    ensures p[|p| - 1] == q[|q| - 1]
  {
    var e := last + y;
    assert p[|p| - 1] == p[|p| - |e|..][|e| - 1];
    assert q[|q| - 1] == q[|q| - |e|..][|e| - 1];
  }

  /** "." stands for nothing: "x/." is "x" unless that would add or drop a trailing separator. */
  lemma DotDrops(cwd: seq<Name>, x: seq<byte>, y: seq<byte>)
    requires StartsAnew(y) && x + y != [] && (y == [] ==> x[|x| - 1] != SEP)
    ensures FullPath(cwd, x + [SEP] + ([DOT] + y)) == FullPath(cwd, x + y)
  {
    hide Components, Onward;
    var p, q := x + [SEP] + ([DOT] + y), x + y;
    var start := if p[0] == SEP then [] else cwd;
    var st := Fold(start, Components(x));
    FoldAcross(start, x, [DOT] + y);
    FoldName(st, [DOT], y);
    if y == [] {
      assert x + y == x;
      OnwardNone();
    } else {
      assert x + y == x + [SEP] + y[1..];
      FoldAcross(start, x, y[1..]);
      assert [SEP] + y[1..] == y;
      OnwardIs(y[1..]);
    }
    SameFold(cwd, p, q);
  }

  /** So "x/c/.." is "x". */
  lemma DotDotRemoves(cwd: seq<Name>, x: seq<byte>, c: Name, y: seq<byte>)
    requires Proper(c) && StartsAnew(y) && x + y != [] && (y == [] ==> x[|x| - 1] != SEP)
    ensures FullPath(cwd, x + [SEP] + (c + [SEP] + ([DOT, DOT] + y))) == FullPath(cwd, x + y)
  {
    hide FullPath;
    DotDotCancels(cwd, x, c, y);
    DotDrops(cwd, x, y);
  }

  /** There is nothing above the root. */
  lemma RootHasNoParent(cwd: seq<Name>, y: seq<byte>)
    requires StartsAnew(y)
    ensures FullPath(cwd, [SEP] + ([DOT, DOT] + y)) == FullPath(cwd, [SEP] + y)
  {
    hide Components, Onward;
    var p, q := [SEP] + ([DOT, DOT] + y), [SEP] + y;
    assert p == [] + [SEP] + ([DOT, DOT] + y) && q == [] + [SEP] + y;
    FoldAcross([], [], [DOT, DOT] + y);
    FoldAcross([], [], y);
    NoComponents();
    FoldName([], [DOT, DOT], y);
    if y == [] {
      OnwardNone();
      assert Fold([], Components([SEP])) == [] by { assert [SEP] + y == [SEP]; }
    } else {
      assert [SEP] + y[1..] == y;
      OnwardIs(y[1..]);
      ComponentsAfterSep(y[1..]);
      FoldCons([], [], Components(y[1..]));
    }
    RootAlike(cwd, p, q);
  }

  lemma RootAlike(cwd: seq<Name>, p: seq<byte>, q: seq<byte>)
    requires p != [] && q != [] && p[0] == q[0] == SEP && Fold([], Components(p)) == Fold([], Components(q))
    requires Fold([], Components(p)) == [] || (p[|p| - 1] == SEP <==> q[|q| - 1] == SEP)
    ensures FullPath(cwd, p) == FullPath(cwd, q)
  {
  }

  /** Two separators are one. */
  lemma SeparatorsMerge(cwd: seq<Name>, x: seq<byte>, z: seq<byte>)
    ensures FullPath(cwd, x + [SEP] + ([SEP] + z)) == FullPath(cwd, x + [SEP] + z)
  {
    hide Components;
    var p, q := x + [SEP] + ([SEP] + z), x + [SEP] + z;
    var start := if p[0] == SEP then [] else cwd;
    FoldAcross(start, x, [SEP] + z);
    FoldAcross(start, x, z);
    ComponentsAfterSep(z);
    FoldCons(Fold(start, Components(x)), [], Components(z));
    SameFold(cwd, p, q);
  }

  /** A relative path is one from the current directory, as that directory is spelt. */
  lemma RelativePath(cwd: seq<Name>, cwd': seq<Name>, path: seq<byte>)
    requires AllProper(cwd) && path != [] && path[0] != SEP
    ensures FullPath(cwd, path) == FullPath(cwd', Render(cwd) + [SEP] + path)
  {
    hide Components, Render;
    var p := Render(cwd) + [SEP] + path;
    RenderFolds(cwd);
    FoldAcross([], Render(cwd), path);
    assert p[|p| - 1] == path[|path| - 1];
  }

  lemma RenderFolds(st: seq<Name>)
    requires AllProper(st)
    ensures Render(st)[0] == SEP && Fold([], Components(Render(st))) == st
  {
    RefoldComponents(st, false);
    hide Components;
    assert RenderDir(st, false) == Render(st);
    FoldCons([], [], st);
    FoldOfProper([], st);
    assert [] + st == st;
    if st != [] { JoinStart(st); }
  }

  // ------------------------------------------------------------------------
  // The in-place buffer loop
  // ------------------------------------------------------------------------

  /** The buffer holds the rendered stack in its first n bytes. */
  ghost predicate Shows(full: seq<byte>, n: nat, st: seq<Name>) {
    n <= |full| && full[..n] == Render(st) && AllProper(st)
  }

  lemma RenderSizes(st: seq<Name>)
    requires AllProper(st)
    ensures |Render(st)| >= 1 && (|Render(st)| == 1 <==> st == [])
    ensures st != [] ==> Render(st) == Join(st)
  {
    if st != [] { assert st[|st| - 1] != []; }
  }

  /** The two steps of "..": back over the last name, then over its separator unless that is the root. */
  method PopName(full: array<byte>, n: nat, ghost st: seq<Name>) returns (m: nat)
    requires Shows(full[..], n, st)
    ensures m <= n && Shows(full[..], m, Push(st, [DOT, DOT]))
  {
    RenderSizes(st);
    if st != [] { PopRender(st); }
    m := n;
    ghost var keep := if st == [] then 1 else |Join(st[..|st| - 1])| + 1;
    while m > 1 && full[m - 1] != SEP
      invariant keep <= m <= n
      decreases m
    {
      assert st != [] ==> full[..n][m - 1] == Render(st)[m - 1];
      m := m - 1;
    }
    assert full[..n][m - 1] == Render(st)[m - 1];
    if m > 1 { m := m - 1; }
    assert full[..m] == full[..n][..m];
  }

  /** The last name of a rendered stack, and what is before it. */
  lemma PopRender(st: seq<Name>)
    requires AllProper(st) && st != []
    ensures var init := st[..|st| - 1]; var k := |Join(init)|;
      && k < |Render(st)| && Render(st)[k] == SEP && Render(st)[..k] == Join(init)
      && (forall i :: k < i < |Render(st)| ==> Render(st)[i] != SEP)
      && (init == [] <==> k == 0)
      && Render(init) == (if init == [] then Render(st)[..1] else Render(st)[..k])
  {
    var init, last := st[..|st| - 1], st[|st| - 1];
    var k := |Join(init)|;
    var r := Render(st);
    assert r == Join(init) + [SEP] + last;
    forall i | k < i < |r| ensures r[i] != SEP { assert r[i] == last[i - k - 1]; }
    if init != [] { JoinStart(init); }
  }

  /** Appending a name, with a separator unless the buffer shows the root. */
  method PushName(full: array<byte>, n: nat, name: seq<byte>, ghost st: seq<Name>) returns (m: nat)
    requires full.Length == PATH_MAX && Shows(full[..], n, st) && Proper(name) && n + 1 + |name| < PATH_MAX
    modifies full
    ensures m < PATH_MAX && Shows(full[..], m, st + [name])
  {
    RenderSizes(st);
    JoinMore(st, name);
    ghost var head := Join(st) + [SEP];
    m := n;
    if n > 1 {
      full[m] := SEP;
      m := m + 1;
      assert full[..m] == Render(st) + [SEP];
    }
    assert full[..m] == head;
    m := CopyBytes(full, m, name);
    assert full[..m] == head + name;
  }

  lemma JoinMore(st: seq<Name>, name: Name)
    requires AllProper(st) && Proper(name)
    ensures Render(st + [name]) == Join(st) + [SEP] + name && AllProper(st + [name])
  {
    assert (st + [name])[..|st|] == st;
  }

  /** memcpy of a component to the end of the buffer. */
  method CopyBytes(full: array<byte>, at: nat, name: seq<byte>) returns (m: nat)
    requires at + |name| <= full.Length
    modifies full
    ensures m == at + |name| && full[..m] == old(full[..at]) + name
  {
    var i := 0;
    while i < |name|
      invariant 0 <= i <= |name|
      invariant full[..at + i] == old(full[..at]) + name[..i]
    {
      full[at + i] := name[i];
      i := i + 1;
    }
    m := at + |name|;
  }

  /** The component loop of GetFullPathNameW on its buffer. */
  method FoldInto(full: array<byte>, start: nat, path: seq<byte>, ghost cwd: seq<Name>)
    returns (ok: bool, n: nat, ghost st: seq<Name>)
    requires full.Length == PATH_MAX && start < PATH_MAX && Shows(full[..], start, cwd)
    modifies full
    ensures ok <==> BoundedFold(cwd, Components(path)).Some?
    ensures ok ==> n < PATH_MAX && st == BoundedFold(cwd, Components(path)).value && Shows(full[..], n, st)
  {
    hide *;
    var p := 0;
    n, st, ok := start, cwd, true;
    ghost var rest := path;
    assert path[0..] == path;
    while p < |path|
      invariant n < PATH_MAX && Shows(full[..], n, st)
      invariant rest == if p <= |path| then path[p..] else []
      invariant BoundedFold(cwd, Components(path)) == BoundedFold(st, Components(rest))
      decreases |path| - p
    {
      var k := SepIndex(path[p..]);
      var name := path[p..][..k];
      FoldStep(st, rest);
      AfterSepIs(path, p, k);
      ok, n := TakeName(full, n, name, st);
      if !ok { return; }
      st, rest := Push(st, name), AfterSep(rest);
      p := p + k + 1;
    }
    FoldDone(st);
  }

  lemma FoldDone(st: seq<Name>)
    ensures BoundedFold(st, Components([])) == Some(st)
  {
  }

  /** One component of the path. */
  method TakeName(full: array<byte>, n: nat, name: seq<byte>, ghost st: seq<Name>) returns (ok: bool, m: nat)
    requires full.Length == PATH_MAX && n < PATH_MAX && Shows(full[..], n, st) && SEP !in name
    modifies full
    ensures ok <==> !TooLong(st, name)
    ensures ok ==> m < PATH_MAX && Shows(full[..], m, Push(st, name))
  {
    ShowsLength(full[..], n, st);
    hide Shows, Render;
    ok, m := true, n;
    if IsDotDot(name) {
      m := PopName(full, n, st);
    } else if !IsDropped(name) {
      if n + 1 + |name| >= PATH_MAX { ok := false; return; }
      m := PushName(full, n, name, st);
    }
  }

  lemma FoldStep(st: seq<Name>, rest: seq<byte>)
    requires rest != []
    ensures var name := rest[..SepIndex(rest)];
      BoundedFold(st, Components(rest)) ==
        (if TooLong(st, name) then None else BoundedFold(Push(st, name), Components(AfterSep(rest))))
  {
    ComponentStep(rest);
    assert Components(rest)[1..] == Components(AfterSep(rest));
  }

  lemma ComponentStep(rest: seq<byte>)
    requires rest != []
    ensures Components(rest) == [rest[..SepIndex(rest)]] + Components(AfterSep(rest))
  {
  }

  lemma AfterSepIs(path: seq<byte>, p: nat, k: nat)
    requires p < |path| && k == SepIndex(path[p..])
    ensures AfterSep(path[p..]) == if p + k + 1 <= |path| then path[p + k + 1..] else []
  {
    if p + k < |path| { assert path[p..][k + 1..] == path[p + k + 1..]; }
  }

  lemma ShowsLength(full: seq<byte>, n: nat, st: seq<Name>)
    requires Shows(full, n, st)
    ensures |Render(st)| == n
  {
  }

  /** GetFullPathNameW from the POSIX path on: the buffer loop gives exactly the bounded stack fold. */
  method GetFullPath(path: seq<byte>, cwd: seq<byte>, ghost cwdNames: seq<Name>) returns (r: Option<seq<byte>>)
    requires path != [] && |cwd| < PATH_MAX
    requires AllProper(cwdNames) && cwd == Render(cwdNames)
    ensures r == BoundedPath(cwdNames, path)
    ensures r.Some? ==> r.value == FullPath(cwdNames, path)
  {
    BoundedPathIsFull(cwdNames, path);
    hide BoundedFold, Components, FullPath;
    var full := new byte[PATH_MAX];
    var n := StartBuffer(full, path[0] == SEP, cwd);
    ghost var base := if path[0] == SEP then [] else cwdNames;
    assert Shows(full[..], n, base);
    var ok;
    ghost var st;
    ok, n, st := FoldInto(full, n, path, base);
    if !ok { return None; }
    RenderSizes(st);
    ShowsLength(full[..], n, st);
    hide Render;
    r := Trailing(full, n, path[|path| - 1] == SEP, st);
  }

  /** The trailing separator, and the finished text. */
  method Trailing(full: array<byte>, n: nat, kept: bool, ghost st: seq<Name>) returns (r: Option<seq<byte>>)
    requires full.Length == PATH_MAX && Shows(full[..], n, st) && (n > 1 <==> st != []) && n == |Render(st)|
    modifies full
    ensures r == if st != [] && kept
                 then (if |Render(st)| + 1 >= PATH_MAX then None else Some(Render(st) + [SEP]))
                 else Some(Render(st))
  {
    hide Render;
    if n > 1 && kept {
      if n + 1 >= PATH_MAX { return None; }
      ghost var was := full[..n];
      full[n] := SEP;
      assert full[..n + 1] == was + [SEP];
      return Some(full[..n + 1]);
    }
    r := Some(full[..n]);
  }

  method StartBuffer(full: array<byte>, absolute: bool, cwd: seq<byte>) returns (n: nat)
    requires full.Length == PATH_MAX && |cwd| < PATH_MAX
    modifies full
    ensures n < PATH_MAX && full[..n] == if absolute then [SEP] else cwd
  {
    full[0] := SEP;
    n := 1;
    if !absolute {
      n := 0;
      while n < |cwd|
        invariant 0 <= n <= |cwd| && full[..n] == cwd[..n]
      {
        full[n] := cwd[n];
        n := n + 1;
      }
    }
  }

  // ------------------------------------------------------------------------
  // The two translations
  // ------------------------------------------------------------------------

  predicate Letter(b: byte) { 65 <= b <= 90 || 97 <= b <= 122 }

  /** Without an extended-path or device prefix and without a drive letter. */
  function Stripped(path: seq<byte>): seq<byte> {
    var extended := |path| >= 4 && path[0] == BACK && path[1] == BACK && path[2] in [QUESTION, DOT] && path[3] == BACK;
    var a := if extended then path[4..] else path;
    if |a| >= 2 && Letter(a[0]) && a[1] == COLON then a[2..] else a
  }

  function Swap(s: seq<byte>, from: byte, to: byte): (r: seq<byte>)
    ensures |r| == |s|
    ensures forall i :: 0 <= i < |s| ==> r[i] == if s[i] == from then to else s[i]
  {
    seq(|s|, i requires 0 <= i < |s| => if s[i] == from then to else s[i])
  }

  function Cut(s: seq<byte>, size: nat): seq<byte>
    requires size > 0
  {
    if |s| < size then s else s[..size - 1]
  }

  /** win_path_to_posix into a buffer of outsz bytes. */
  function WinToPosix(path: seq<byte>, outsz: nat): seq<byte>
    requires outsz > 0
  {
    var out := Cut(Swap(Stripped(path), BACK, SEP), outsz);
    if out == [] then [SEP] else out
  }

  /** posix_to_win_path into a buffer of wsz bytes. */
  function PosixToWin(path: seq<byte>, wsz: nat): seq<byte>
    requires wsz >= 4
  {
    Cut((if path != [] && path[0] == SEP then [DRIVE, COLON] else []) + Swap(path, SEP, BACK), wsz)
  }

  /** Given one byte the source still stores "/" and its terminator: it stays inside the size it is given exactly when
      that is not one. */
  method WinPathToPosix(path: seq<byte>, out: array<byte>, outsz: nat) returns (n: nat)
    requires 0 !in path && outsz <= out.Length && (outsz == 1 ==> out.Length > 1)
    modifies out
    ensures outsz == 0 ==> n == 0 && out[..] == old(out[..])
    ensures outsz > 0 ==> n < out.Length && out[n] == 0 && out[..n] == WinToPosix(path, outsz)
    ensures outsz > 0 ==> (n < outsz <==> outsz != 1)
  {
    if outsz == 0 { return 0; }
    var p := SkipPrefixes(path);
    hide Stripped, Swap;
    n := CopySwapped(path, p, BACK, SEP, out, 0, outsz);
    assert out[..n] == Cut(Swap(Stripped(path), BACK, SEP), outsz) by {
      assert [] + Swap(path[p..], BACK, SEP) == Swap(path[p..], BACK, SEP);
    }
    if n == 0 {
      out[0], out[1] := SEP, 0;
      n := 1;
      assert out[..n] == [SEP];
    }
  }

  method SkipPrefixes(path: seq<byte>) returns (p: nat)
    ensures p <= |path| && path[p..] == Stripped(path)
  {
    p := 0;
    if |path| >= 4 && path[0] == BACK && path[1] == BACK && (path[2] == QUESTION || path[2] == DOT) && path[3] == BACK {
      p := p + 4;
    }
    if p + 2 <= |path| && Letter(path[p]) && path[p + 1] == COLON { p := p + 2; }
  }

  /** The copying loop that both translations end in. */
  method CopySwapped(src: seq<byte>, from: nat, a: byte, b: byte, out: array<byte>, at: nat, outsz: nat)
    returns (n: nat)
    requires from <= |src| && at < outsz <= out.Length
    modifies out
    ensures n < outsz && out[n] == 0
    ensures out[..n] == Cut(old(out[..at]) + Swap(src[from..], a, b), outsz)
  {
    var p := from;
    n := at;
    ghost var tail := Swap(src[from..], a, b);
    ghost var whole := old(out[..at]) + tail;
    assert forall k :: from <= k < |src| ==> tail[k - from] == if src[k] == a then b else src[k];
    hide Swap;
    while p < |src| && n + 1 < outsz
      invariant from <= p <= |src| && n == at + (p - from) < outsz
      invariant out[..n] == whole[..n]
    {
      out[n] := if src[p] == a then b else src[p];
      assert whole[n] == tail[p - from] == out[n];
      assert whole[..n + 1] == whole[..n] + [whole[n]];
      p, n := p + 1, n + 1;
    }
    assert |whole| == at + (|src| - from);
    assert whole[..n] == Cut(whole, outsz);
    out[n] := 0;
    assert out[..n] == whole[..n];
  }

  method PosixToWinPath(path: seq<byte>, win: array<byte>, wsz: nat) returns (n: nat)
    requires 0 !in path && wsz <= win.Length
    modifies win
    ensures wsz < 4 ==> n == 0 && win[..] == old(win[..])
    ensures wsz >= 4 ==> n < wsz && win[n] == 0 && win[..n] == PosixToWin(path, wsz)
  {
    if wsz < 4 { return 0; }
    var i := 0;
    if path != [] && path[0] == SEP {
      win[0], win[1] := DRIVE, COLON;
      i := 2;
    }
    assert win[..i] == if path != [] && path[0] == SEP then [DRIVE, COLON] else [];
    assert path[0..] == path;
    n := CopySwapped(path, 0, SEP, BACK, win, i, wsz);
  }

  /** Neither a prefix nor a drive letter to strip. */
  predicate Bare(s: seq<byte>) {
    && !(|s| >= 2 && (65 <= s[0] <= 90 || 97 <= s[0] <= 122) && s[1] == 58)
    && !(|s| >= 4 && s[0] == 92 && s[1] == 92 && s[3] == 92)
  }

  /** With a drive letter in front, an extended-path or device prefix, or both, a path is the same: its text with every
      backslash a slash. */
  lemma Spellings(s: seq<byte>, d: byte, sign: byte, size: nat)
    requires Bare(s) && s != [] && |s| < size && (65 <= d <= 90 || 97 <= d <= 122) && (sign == 63 || sign == 46)
    ensures var r := WinToPosix(s, size);
      && |r| == |s| && (forall i :: 0 <= i < |s| ==> r[i] == if s[i] == 92 then 47 else s[i])
      && WinToPosix([d, 58] + s, size) == r && WinToPosix([92, 92, sign, 92] + s, size) == r
      && WinToPosix([92, 92, sign, 92, d, 58] + s, size) == r
  {
    hide Swap;
    var e := [92, 92, sign, 92];
    assert Stripped(s) == s;
    assert ([d, 58] + s)[2..] == s;
    assert (e + s)[4..] == s;
    assert ([92, 92, sign, 92, d, 58] + s)[4..] == [d, 58] + s;
  }

  /** An absolute path is put on drive C, with every slash a backslash. */
  lemma DriveC(path: seq<byte>, size: nat)
    requires path != [] && path[0] == 47 && |path| + 2 < size
    ensures var w := PosixToWin(path, size);
      |w| == |path| + 2 && w[0] == 67 && w[1] == 58 && w[2] == 92
      && forall i :: 0 <= i < |path| ==> w[i + 2] == if path[i] == 47 then 92 else path[i]
  {
  }

  /** An absolute path without backslashes that fits survives both translations. */
  lemma TranslationsInvert(full: seq<byte>)
    requires full != [] && full[0] == SEP && BACK !in full && |full| + 2 < PATH_MAX
    ensures WinToPosix(PosixToWin(full, PATH_MAX), PATH_MAX) == full
  {
    var win := PosixToWin(full, PATH_MAX);
    assert win == [DRIVE, COLON] + Swap(full, SEP, BACK);
    assert Stripped(win) == win[2..] == Swap(full, SEP, BACK);
    assert Swap(Swap(full, SEP, BACK), BACK, SEP) == full;
  }

  lemma {:induction false} JoinGrows(st: seq<Name>, k: nat)
    requires k <= |st|
    ensures |Join(st[..k])| <= |Join(st)|
  {
    if k == |st| {
      assert st[..k] == st;
    } else {
      assert st[..|st| - 1][..k] == st[..k];
      JoinGrows(st[..|st| - 1], k);
    }
  }

  /** Names whose join fits the buffer are folded again without any being refused. */
  lemma BoundedFoldFits(st: seq<Name>)
    requires AllProper(st) && |Join(st)| + 1 < PATH_MAX
    ensures BoundedFold([], st) == Some(st)
  {
    hide BoundedFold, TooLong, Join, Fold;
    BoundedFoldIsFold([], st);
    FoldOfProper([], st);
    assert [] + st == st;
    forall k | 0 <= k < |st| ensures !TooLong(Fold([], st[..k]), st[k]) { RoomForName(st, k); }
  }

  lemma RoomForName(st: seq<Name>, k: nat)
    requires AllProper(st) && |Join(st)| + 1 < PATH_MAX && k < |st|
    ensures !TooLong(Fold([], st[..k]), st[k])
  {
    hide Fold;
    FoldOfProper([], st[..k]);
    assert [] + st[..k] == st[..k];
    JoinGrows(st, k + 1);
    assert st[..k + 1][..k] == st[..k];
  }

  /** A folded path that fits is not only its own fold: the bounded loop answers it. */
  lemma BoundedFixed(cwd: seq<Name>, st: seq<Name>, trailing: bool)
    requires AllProper(st) && |RenderDir(st, trailing)| + 1 < PATH_MAX
    ensures var path := RenderDir(st, trailing); BoundedPath(cwd, path) == Some(path)
  {
    var path := RenderDir(st, trailing);
    RenderFixed(cwd, st, trailing);
    RefoldComponents(st, trailing);
    BoundedFoldFits(st);
    hide Components;
    assert ([[]] + st)[1..] == st;
    assert BoundedFold([], [[]] + st) == BoundedFold([], st);
    assert Render(st) + [] == Render(st);
    if st != [] { JoinEnd(st); }
  }

  lemma RefoldComponents(st: seq<Name>, trailing: bool)
    requires AllProper(st)
    ensures Components(RenderDir(st, trailing)) == [[]] + st
  {
    if st == [] {
      ComponentsAfterSep([]);
      assert [SEP] + [] == [SEP];
    } else {
      var rest := if trailing then [SEP] else [];
      ComponentsOfJoin(st, rest);
      assert Onward(rest) == [] by { if trailing { assert rest[1..] == []; } }
      assert [[]] + st + [] == [[]] + st;
    }
  }

  /** Giving GetFullPathNameW its own answer back, as the Windows path it returned, gives the same answer from any
      directory: the second call succeeds and changes nothing. */
  lemma FullPathStable(cwd: seq<Name>, cwd': seq<Name>, path: seq<byte>)
    requires AllProper(cwd) && path != [] && BoundedPath(cwd, path).Some?
    requires BACK !in BoundedPath(cwd, path).value && |BoundedPath(cwd, path).value| + 2 < PATH_MAX
    ensures var full := BoundedPath(cwd, path).value;
      BoundedPath(cwd', WinToPosix(PosixToWin(full, PATH_MAX), PATH_MAX)) == Some(full)
  {
    hide Components, BoundedFold, PosixToWin, WinToPosix;
    BoundedPathIsFull(cwd, path);
    var full := BoundedPath(cwd, path).value;
    FullPathIdempotent(cwd, cwd', path);
    TranslationsInvert(full);
    var st, trailing :| AllProper(st) && full == RenderDir(st, trailing);
    BoundedFixed(cwd', st, trailing);
  }
}
