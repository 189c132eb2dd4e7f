/** The vectored exception handler list (shim_kernel32_veh.hpp): a doubly linked heap list that
    refines a sequence of distinct entries. */
module Veh {
  import opened Common
  type Handler = nat

  const MAX_SNAPSHOT: nat := 32
  const CONTINUE_EXECUTION: int := -1

  class Entry {
    var prev: Entry?
    var next: Entry?
    const fn: Handler

    constructor (fn: Handler)
      ensures this.fn == fn && prev == null && next == null
    {
      this.fn := fn;
      prev, next := null, null;
    }
  }

  function Reversed<T>(s: seq<T>): (r: seq<T>)
    ensures |r| == |s|
  {
    if s == [] then [] else Reversed(s[1..]) + [s[0]]
  }

  lemma {:induction false} ReversedAt<T>(s: seq<T>, k: nat)
    requires k < |s|
    ensures Reversed(s)[k] == s[|s| - 1 - k]
  {
    if k < |s| - 1 { ReversedAt(s[1..], k); }
  }

  /** The handlers of a list of entries. */
  ghost function Handlers(s: seq<Entry>): (r: seq<Handler>)
    ensures |r| == |s| && forall i :: 0 <= i < |s| ==> r[i] == s[i].fn
  {
    if s == [] then [] else Handlers(s[..|s| - 1]) + [s[|s| - 1].fn]
  }

  /** How many handlers of a snapshot are called: up to and including the first that continues
      execution. The k-th call's result is what that handler answers then. */
  function Calls(snap: seq<Handler>, answer: (nat, Handler) -> int, k: nat): (n: nat)
    requires k <= |snap|
    ensures k <= n <= |snap|
    decreases |snap| - k
  {
    if k == |snap| then k
    else if answer(k, snap[k]) == CONTINUE_EXECUTION then k + 1
    else Calls(snap, answer, k + 1)
  }

  lemma {:induction false} CallsStopAtFirst(snap: seq<Handler>, answer: (nat, Handler) -> int, k: nat)
    requires k <= |snap|
    ensures var n := Calls(snap, answer, k);
      && (forall i :: k <= i < n - 1 ==> answer(i, snap[i]) != -1)
      && (n < |snap| ==> k < n && answer(n - 1, snap[n - 1]) == -1)
    decreases |snap| - k
  {
    if k < |snap| && answer(k, snap[k]) != CONTINUE_EXECUTION { CallsStopAtFirst(snap, answer, k + 1); }
  }

  ghost predicate Distinct<T>(s: seq<T>) {
    forall i, j :: 0 <= i < j < |s| ==> s[i] != s[j]
  }

  /** The i-th entry, or null off either end. */
  ghost function At(s: seq<Entry>, i: int): Entry? {
    if 0 <= i < |s| then s[i] else null
  }

  ghost predicate Linked(s: seq<Entry>, i: nat)
    requires i < |s|
    reads s
  {
    s[i].prev == At(s, i - 1) && s[i].next == At(s, i + 1)
  }

  class HandlerList {
    var head: Entry?
    var tail: Entry?
    ghost var entries: seq<Entry>

    /** The links spell out entries in both directions. */
    ghost predicate Valid()
      reads this, entries
    {
      && (forall i :: 0 <= i < |entries| ==> Linked(entries, i))
      && head == At(entries, 0) && tail == At(entries, |entries| - 1)
      && Distinct(entries)
    }

    constructor ()
      ensures Valid() && entries == []
    {
      head, tail, entries := null, null, [];
    }

    /** AddVectoredExceptionHandler: the new entry goes to the chosen end. */
    method Add(first: bool, handler: Option<Handler>) returns (e: Entry?)
      requires Valid()
      modifies this, entries
      ensures Valid()
      ensures handler.None? ==> e == null && entries == old(entries)
      ensures handler.Some? ==> e != null && fresh(e) && e.fn == handler.value
      ensures handler.Some? ==> entries == if first then [e] + old(entries) else old(entries) + [e]
    {
      if handler.None? { return null; }
      var n := new Entry(handler.value);
      ghost var was := entries;
      assert forall i :: 0 <= i < |was| ==> Linked(was, i);
      if first {
        n.next := head;
        if head != null { head.prev := n; }
        head := n;
        if tail == null { tail := n; }
        entries := [n] + was;
        forall i | 0 <= i < |entries| ensures Linked(entries, i) {
          if i > 0 { assert old(Linked(was, i - 1)); }
        }
      } else {
        n.prev := tail;
        if tail != null { tail.next := n; }
        tail := n;
        if head == null { head := n; }
        entries := was + [n];
        forall i | 0 <= i < |entries| ensures Linked(entries, i) {
          if i < |was| { assert old(Linked(was, i)); }
        }
      }
      e := n;
    }

    /** The search loop: whether the handle is in the list, by following next. */
    method Find(e: Entry) returns (found: bool, ghost k: nat)
      requires Valid()
      ensures found <==> e in entries
      ensures found ==> k < |entries| && entries[k] == e
    {
      var p := head;
      k := 0;
      while p != null && p != e
        invariant k <= |entries|
        invariant p == At(entries, k)
        invariant e !in entries[..k]
        decreases |entries| - k
      {
        assert Linked(entries, k);
        p := p.next;
        k := k + 1;
      }
      found := p != null;
    }

    /** RemoveVectoredExceptionHandler: drops exactly that entry, or does nothing. */
    method Remove(handle: Entry?) returns (removed: bool)
      requires Valid()
      modifies this, entries
      ensures Valid()
      ensures removed <==> handle in old(entries)
      ensures !removed ==> entries == old(entries)
      ensures removed ==> exists k ::
        0 <= k < |old(entries)| && old(entries)[k] == handle && entries == old(entries)[..k] + old(entries)[k + 1..]
      ensures removed ==> handle !in entries
    {
      if handle == null { return false; }
      var e: Entry := handle;
      ghost var k;
      removed, k := Find(e);
      if removed {
        ghost var was := entries;
        Unlink(e, k);
        assert was[k] == handle && entries == was[..k] + was[k + 1..];
      }
    }

    /** Relinking the neighbours of the k-th entry. */
    method Unlink(e: Entry, ghost k: nat)
      requires Valid() && k < |entries| && entries[k] == e
      modifies this, entries
      ensures Valid()
      ensures entries == old(entries)[..k] + old(entries)[k + 1..]
    {
      ghost var was := entries;
      assert Linked(was, k) && (k > 0 ==> Linked(was, k - 1)) && (k + 1 < |was| ==> Linked(was, k + 1));
      if e.prev != null { e.prev.next := e.next; } else { head := e.next; }
      if e.next != null { e.next.prev := e.prev; } else { tail := e.prev; }
      entries := was[..k] + was[k + 1..];
      forall i | 0 <= i < |entries| ensures Linked(entries, i) {
        var j := if i < k then i else i + 1;
        assert old(Linked(was, j)) && entries[i] == was[j];
        assert was[j].next == (if j == k - 1 then At(was, k + 1) else At(was, j + 1));
        assert was[j].prev == (if j == k + 1 then At(was, k - 1) else At(was, j - 1));
      }
    }

    /** Following next from the head visits the entries in order. */
    method WalkForward() returns (seen: seq<Entry>)
      requires Valid()
      ensures seen == entries
    {
      seen := [];
      var p := head;
      while p != null
        invariant |seen| <= |entries| && seen == entries[..|seen|]
        invariant p == At(entries, |seen|)
        decreases |entries| - |seen|
      {
        assert Linked(entries, |seen|);
        seen := seen + [p];
        p := p.next;
      }
    }

    /** Following prev from the tail visits them in the opposite order. */
    method WalkBackward() returns (seen: seq<Entry>)
      requires Valid()
      ensures seen == Reversed(entries)
      ensures |seen| == |entries| && forall i :: 0 <= i < |seen| ==> seen[i] == entries[|entries| - 1 - i]
    {
      seen := [];
      ghost var k := |entries|;
      var p := tail;
      assert entries[k..] == [];
      while p != null
        invariant 0 <= k <= |entries| && seen == Reversed(entries[k..])
        invariant p == At(entries, k - 1)
        decreases k
      {
        assert Linked(entries, k - 1);
        assert entries[k - 1..][1..] == entries[k..];
        seen := seen + [p];
        p := p.prev;
        k := k - 1;
      }
      assert entries[0..] == entries;
      forall i | 0 <= i < |seen| ensures seen[i] == entries[|entries| - 1 - i] { ReversedAt(entries, i); }
    }

    /** run_vectored_handlers: the first 32 handlers in order, up to the first that continues execution. */
    method Dispatch(answer: (nat, Handler) -> int) returns (r: int, called: seq<Handler>)
      requires Valid()
      ensures var snap := Handlers(entries[..if |entries| < MAX_SNAPSHOT then |entries| else MAX_SNAPSHOT]);
        && called == snap[..Calls(snap, answer, 0)]
        && |called| <= |entries| && |snap| == (if |entries| < 32 then |entries| else 32)
        && (forall i :: 0 <= i < |called| ==> called[i] == entries[i].fn)
        && r == if called != [] && answer(|called| - 1, called[|called| - 1]) == CONTINUE_EXECUTION then -1 else 0
    {
      var snap := Snapshot();
      var n := |snap|;
      called := [];
      var i := 0;
      while i < n
        invariant 0 <= i <= n && called == snap[..i]
        invariant Calls(snap, answer, 0) == Calls(snap, answer, i)
        invariant i > 0 ==> answer(i - 1, snap[i - 1]) != CONTINUE_EXECUTION
      {
        called := called + [snap[i]];
        r := answer(i, snap[i]);
        if r == CONTINUE_EXECUTION { return; }
        i := i + 1;
      }
      r := 0;
    }

    method Snapshot() returns (snap: seq<Handler>)
      requires Valid()
      ensures snap == Handlers(entries[..if |entries| < MAX_SNAPSHOT then |entries| else MAX_SNAPSHOT])
    {
      snap := [];
      ghost var n := 0;
      var p := head;
      while p != null && |snap| < MAX_SNAPSHOT
        invariant n == |snap| <= MAX_SNAPSHOT && n <= |entries| && snap == Handlers(entries[..n])
        invariant p == At(entries, n)
        decreases |entries| - n
      {
        assert Linked(entries, n);
        assert entries[..n + 1][..n] == entries[..n];
        snap := snap + [p.fn];
        p := p.next;
        n := n + 1;
      }
    }
  }
}
