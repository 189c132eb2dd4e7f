/** The handle table as the source updates it, and the wait-all round of WaitForMultipleObjects with
    its rollback (shim_kernel32_sync.hpp, shim_kernel32_thread.hpp), on the state of module Handles. */
module WaitAll {
  import opened Common
  import opened Handles

  const INVALID_HANDLE: int := -1

  /** GetCurrentThread's pseudo handle: a thread that waits on itself is answered with a timeout. */
  const CURRENT_THREAD: int := -2

  /** handle_to_idx: handles are slot index plus one. */
  function HandleToIdx(h: int): (i: int)
    ensures i == -1 || 0 <= i < MAX_HANDLES
  {
    if h < 1 || h > MAX_HANDLES then -1 else h - 1
  }

  function IdxToHandle(i: nat): int { i + 1 }

  lemma HandleIndexInverse(i: nat, h: int)
    requires i < MAX_HANDLES
    ensures HandleToIdx(IdxToHandle(i)) == i
    ensures HandleToIdx(h) >= 0 ==> IdxToHandle(HandleToIdx(h)) == h
  {
  }

  datatype WaitResult = Object0 | Timeout | Failed

  // ------------------------------------------------------------------------
  // What a number of waits does to one object
  // ------------------------------------------------------------------------

  /** The body after n successful waits of one thread. */
  function AfterWaits(b: Body, t: Thread, n: nat): Body {
    if n == 0 then b else
    match b
    case MutexBody(_, d) => MutexBody(Some(t), d + n)
    case EventBody(manual, signaled) => if manual then b else EventBody(false, false)
    case SemBody(v) => if n <= v then SemBody(v - n) else b
    case FindBody(_, _) => b
  }

  /** n successful waits in a row are possible. */
  ghost predicate CanWait(b: Body, t: Thread, n: nat) {
    n > 0 ==>
      match b
      case MutexBody(owner, _) => owner == None || owner == Some(t)
      case EventBody(manual, signaled) => signaled && (manual || n == 1)
      case SemBody(v) => n <= v
      case FindBody(_, _) => false
  }

  lemma OneMoreWait(b: Body, t: Thread, n: nat)
    requires Sound(b) && CanWait(b, t, n) && CanTake(AfterWaits(b, t, n), t)
    ensures CanWait(b, t, n + 1) && Taken(AfterWaits(b, t, n), t) == AfterWaits(b, t, n + 1)
  {
  }

  /** Undoing a wait takes back exactly one. */
  lemma OneUndo(b: Body, t: Thread, n: nat)
    requires Sound(b) && CanWait(b, t, n + 1)
    ensures CanWait(b, t, n) && Given(AfterWaits(b, t, n + 1), t) == AfterWaits(b, t, n)
  {
  }

  // ------------------------------------------------------------------------
  // The table
  // ------------------------------------------------------------------------

  ghost predicate Settled(s: State, t: Thread) {
    && Inv(s) && t < |s.calls| && s.calls[t].Idle?
    && forall o :: 0 <= o < |s.objs| ==> Sound(s.objs[o].body)
  }

  /** The waitable object a handle names. */
  function ObjectOf(s: State, h: int): Option<Obj> {
    var i := HandleToIdx(h);
    if i < 0 || i >= |s.slots| || s.slots[i].kind !in {Mutex, Event, Semaphore} then None else Some(s.slots[i].obj)
  }

  class Table {
    var st: State

    constructor (threads: nat)
      ensures st == Init(threads)
    {
      st := Init(threads);
    }

    /** handle_alloc_sync and handle_alloc_find: the first free slot from 3 on. */
    method Alloc(t: Thread) returns (h: int)
      requires Inv(st) && t < |st.calls| && st.calls[t].Created?
      modifies this
      ensures Inv(st)
      ensures h == INVALID_HANDLE ==> Enabled(old(st), TableFull(t)) && st == Exec(old(st), TableFull(t))
      ensures h != INVALID_HANDLE ==>
        && HandleToIdx(h) >= 0 && Enabled(old(st), Insert(t, HandleToIdx(h)))
        && st == Exec(old(st), Insert(t, HandleToIdx(h)))
    {
      assert st.calls[t].obj < |st.objs|;
      var i := FIRST_SLOT;
      while i < MAX_HANDLES
        invariant FIRST_SLOT <= i <= MAX_HANDLES && st == old(st)
        invariant forall j :: FIRST_SLOT <= j < i ==> st.slots[j].kind != Free
      {
        if st.slots[i].kind == Free {
          ExecInv(st, Insert(t, i));
          st := Exec(st, Insert(t, i));
          return IdxToHandle(i);
        }
        i := i + 1;
      }
      ExecInv(st, TableFull(t));
      st := Exec(st, TableFull(t));
      h := INVALID_HANDLE;
    }

    /** CloseHandle with no other thread stepping in: the standard streams and pseudo handles are left alone, an
        unused slot is an error, and any other slot is cleared; a counted one then drops its reference. */
    method Close(t: Thread, h: int) returns (ok: bool)
      requires Settled(st, t)
      modifies this
      ensures Inv(st)
      ensures ok <==> HandleToIdx(h) < FIRST_SLOT || old(st).slots[HandleToIdx(h)].kind != Free
      ensures HandleToIdx(h) < FIRST_SLOT || !ok ==> st == old(st)
      ensures HandleToIdx(h) >= FIRST_SLOT && ok ==>
        var i := HandleToIdx(h); var o := old(st).slots[i].obj;
        if old(st).slots[i].kind in {File, Module} then st == old(st).(slots := old(st).slots[i := Slot(Free, 0)])
        else
          && t < |st.calls| && o < |st.objs| && st.slots == old(st).slots[i := Slot(Free, 0)]
          && st.objs[o].refcount == old(st).objs[o].refcount - 1
          && st.calls[t] == (if st.objs[o].refcount == 0 then Dying(o, false) else Idle)
    {
      var i := HandleToIdx(h);
      if i <= 2 { return true; }
      if st.slots[i].kind == Free { return false; }
      if st.slots[i].kind in {File, Module} {
        ExecInv(st, ClosePlain(t, i));
        st := Exec(st, ClosePlain(t, i));
        return true;
      }
      CloseCounted(t, i);
      ok := true;
    }

    method CloseCounted(t: Thread, i: nat)
      requires Settled(st, t) && FIRST_SLOT <= i < |st.slots| && st.slots[i].kind !in {Free, File, Module}
      modifies this
      ensures Inv(st)
      ensures var o := old(st).slots[i].obj;
        && t < |st.calls| && o < |st.objs| && o < |old(st).objs| && st.slots == old(st).slots[i := Slot(Free, 0)]
        && st.objs[o].refcount == old(st).objs[o].refcount - 1
        && st.calls[t] == (if st.objs[o].refcount == 0 then Dying(o, false) else Idle)
    {
      var o := st.slots[i].obj;
      assert Enabled(st, CloseSlot(t, i));
      ExecInv(st, CloseSlot(t, i));
      st := Exec(st, CloseSlot(t, i));
      assert Enabled(st, Drop(t, o));
      ExecInv(st, Drop(t, o));
      st := Exec(st, Drop(t, o));
    }

    /** WaitForSingleObject(h, 0) with no other thread stepping in: retain, try, release. */
    method WaitNow(t: Thread, h: int) returns (r: WaitResult)
      requires Settled(st, t)
      modifies this
      ensures Settled(st, t)
      ensures ObjectOf(old(st), h) == None ==> r == (if h == CURRENT_THREAD then Timeout else Failed) && st == old(st)
      ensures ObjectOf(old(st), h).Some? ==>
        var o := ObjectOf(old(st), h).value;
        && o < |old(st).objs|
        && r == (if CanTake(old(st).objs[o].body, t) then Object0 else Timeout)
        && st == (if r == Object0 then SetBody(old(st), o, Taken(old(st).objs[o].body, t)) else old(st))
    {
      if h == CURRENT_THREAD { return Timeout; }
      var i := HandleToIdx(h);
      if i < 0 || st.slots[i].kind !in {Mutex, Event, Semaphore} { return Failed; }
      var o := st.slots[i].obj;
      hide Settled;
      WaitSteps(st, t, i);
      hide Exec;
      st := Exec(st, Retain(t, i, Wait));
      if CanTake(st.objs[o].body, t) {
        st := Exec(st, Take(t, o));
        r := Object0;
      } else {
        st := Exec(st, GiveUp(t, o));
        r := Timeout;
      }
      st := Exec(st, Release(t, o));
    }

    /** undo_wait_acquire with no other thread stepping in. */
    method UndoNow(t: Thread, h: int)
      requires Settled(st, t)
      modifies this
      ensures Settled(st, t)
      ensures ObjectOf(old(st), h) == None ==> st == old(st)
      ensures ObjectOf(old(st), h).Some? ==>
        var o := ObjectOf(old(st), h).value;
        o < |old(st).objs| && st == SetBody(old(st), o, Given(old(st).objs[o].body, t))
    {
      var i := HandleToIdx(h);
      if i < 0 || st.slots[i].kind !in {Mutex, Event, Semaphore} { return; }
      var o := st.slots[i].obj;
      hide Settled;
      UndoSteps(st, t, i);
      hide Exec;
      st := Exec(st, Retain(t, i, Undo));
      st := Exec(st, Give(t, o));
      st := Exec(st, Release(t, o));
    }

    /** The acquiring loop of a round: how many handles were acquired, and why it stopped. */
    method AcquireInTurn(t: Thread, handles: seq<int>) returns (r: WaitResult, acquired: nat)
      requires Settled(st, t)
      modifies this
      ensures Settled(st, t) && acquired <= |handles| && Waited(old(st), st, t, handles[..acquired])
      ensures r == Object0 ==> acquired == |handles|
      ensures r != Object0 ==> acquired < |handles| && Stuck(old(st), t, handles, acquired, r)
      ensures r == Object0 <==> Obtainable(old(st), t, handles)
    {
      acquired, r := 0, Object0;
      Waited0(st, t, handles);
      ghost var s0 := st;
      assert Settled(s0, t);
      hide Settled, Waited, ObjectOf, Stuck, Obtainable;
      while acquired < |handles| && r == Object0
        invariant 0 <= acquired <= |handles| && Settled(st, t)
        invariant Waited(s0, st, t, handles[..acquired])
        invariant r != Object0 ==> acquired < |handles| && Stuck(s0, t, handles, acquired, r)
        decreases |handles| - acquired, r == Object0
      {
        ghost var s := st;
        SameObject(s0, s, t, handles[..acquired], handles[acquired]);
        r := WaitNow(t, handles[acquired]);
        if r == Object0 {
          WaitedMore(s0, s, t, handles, acquired);
          acquired := acquired + 1;
        } else {
          NotTaken(s0, s, t, handles, acquired, r);
        }
      }
      if r == Object0 {
        assert handles[..acquired] == handles;
        WaitedObtainable(s0, st, t, handles);
      } else {
        StuckUnobtainable(s0, t, handles, acquired, r);
      }
    }

    /** The rollback of a round, in the order of acquisition. */
    method UndoInTurn(t: Thread, handles: seq<int>, acquired: nat, ghost s0: State)
      requires Settled(st, t) && Settled(s0, t) && acquired <= |handles| && Waited(s0, st, t, handles[..acquired])
      modifies this
      ensures st == s0
    {
      var j := 0;
      assert handles[0..acquired] == handles[..acquired];
      hide Settled, Waited, ObjectOf;
      while j < acquired
        invariant 0 <= j <= acquired && Settled(st, t)
        invariant Waited(s0, st, t, handles[j..acquired])
      {
        ghost var s := st;
        SameObject(s0, s, t, handles[j..acquired], handles[j]);
        WaitedLess(s0, s, t, handles, j, acquired);
        UndoNow(t, handles[j]);
        j := j + 1;
      }
      WaitedNone(s0, st, t, handles[j..acquired]);
    }

    /** One round of the wait-all loop: wait on each handle in turn, undo what was acquired if one fails. */
    method WaitAllRound(t: Thread, handles: seq<int>) returns (r: WaitResult)
      requires Settled(st, t)
      modifies this
      ensures Settled(st, t)
      ensures r != Object0 ==> st == old(st)
      ensures r == Object0 <==> Obtainable(old(st), t, handles)
      ensures r == Object0 ==> AcquiredEach(old(st), st, t, handles)
      ensures r != Object0 ==> exists k :: 0 <= k < |handles| && Stuck(old(st), t, handles, k, r)
    {
      var acquired;
      ghost var s0 := st;
      r, acquired := AcquireInTurn(t, handles);
      if r == Object0 {
        assert handles[..acquired] == handles;
        WaitedAll(s0, st, t, handles);
      } else {
        UndoInTurn(t, handles, acquired, s0);
      }
    }
  }

  lemma WaitTakes(s: State, t: Thread, i: nat, s1: State)
    requires Settled(s, t) && i < |s.slots| && s.slots[i].kind in {Mutex, Event, Semaphore}
    requires s.slots[i].obj < |s.objs| && s.objs[s.slots[i].obj].refcount > 0 && CanTake(s.objs[s.slots[i].obj].body, t)
    requires Enabled(s, Retain(t, i, Wait)) && s1 == Exec(s, Retain(t, i, Wait))
    ensures var o := s.slots[i].obj; var s' := SetBody(s, o, Taken(s.objs[o].body, t));
      && Enabled(s1, Take(t, o)) && Enabled(Exec(s1, Take(t, o)), Release(t, o))
      && Exec(Exec(s1, Take(t, o)), Release(t, o)) == s' && Settled(s', t)
  {
    var o := s.slots[i].obj;
    var b := s.objs[o].body;
    assert Sound(b);
    ReleaseUndoesRetain(s, t, i, Wait, Taken(b, t), true);
    BodyOnly(s, t, o, Taken(b, t));
    hide Settled;
    assert Exec(s1, Take(t, o)) == Released(s1, t, o, Taken(b, t), true);
  }

  lemma WaitGivesUp(s: State, t: Thread, i: nat, s1: State)
    requires t < |s.calls| && s.calls[t].Idle? && i < |s.slots| && s.slots[i].kind in {Mutex, Event, Semaphore}
    requires s.slots[i].obj < |s.objs| && s.objs[s.slots[i].obj].refcount > 0
    requires Enabled(s, Retain(t, i, Wait)) && s1 == Exec(s, Retain(t, i, Wait))
    ensures var o := s.slots[i].obj;
      && Enabled(s1, GiveUp(t, o)) && Enabled(Exec(s1, GiveUp(t, o)), Release(t, o))
      && Exec(Exec(s1, GiveUp(t, o)), Release(t, o)) == s
  {
    var o := s.slots[i].obj;
    var b := s.objs[o].body;
    ReleaseUndoesRetain(s, t, i, Wait, b, false);
    assert SetBody(s1, o, b) == s1 && SetBody(s, o, b) == s;
    assert Exec(s1, GiveUp(t, o)) == Released(s1, t, o, b, false);
  }

  /** The three steps of an uninterrupted WaitForSingleObject(h, 0) amount to one change of the body. */
  lemma WaitSteps(s: State, t: Thread, i: nat)
    requires Settled(s, t) && i < |s.slots| && s.slots[i].kind in {Mutex, Event, Semaphore}
    ensures Enabled(s, Retain(t, i, Wait))
    ensures var o := s.slots[i].obj; var s1 := Exec(s, Retain(t, i, Wait));
      && o < |s.objs| && o < |s1.objs| && s1.objs[o].body == s.objs[o].body
      && (if CanTake(s.objs[o].body, t) then
            var s' := SetBody(s, o, Taken(s.objs[o].body, t));
            && Enabled(s1, Take(t, o)) && Enabled(Exec(s1, Take(t, o)), Release(t, o))
            && Exec(Exec(s1, Take(t, o)), Release(t, o)) == s' && Settled(s', t)
          else
            && Enabled(s1, GiveUp(t, o)) && Enabled(Exec(s1, GiveUp(t, o)), Release(t, o))
            && Exec(Exec(s1, GiveUp(t, o)), Release(t, o)) == s)
  {
    SlotCounts(s, i);
    var o := s.slots[i].obj;
    var s1 := Exec(s, Retain(t, i, Wait));
    assert s1.objs[o].body == s.objs[o].body;
    if CanTake(s.objs[o].body, t) { WaitTakes(s, t, i, s1); } else { WaitGivesUp(s, t, i, s1); }
  }

  lemma UndoSteps(s: State, t: Thread, i: nat)
    requires Settled(s, t) && i < |s.slots| && s.slots[i].kind in {Mutex, Event, Semaphore}
    ensures Enabled(s, Retain(t, i, Undo))
    ensures var o := s.slots[i].obj; var s1 := Exec(s, Retain(t, i, Undo));
      && o < |s.objs| && Enabled(s1, Give(t, o)) && Enabled(Exec(s1, Give(t, o)), Release(t, o))
      && var s' := SetBody(s, o, Given(s.objs[o].body, t));
         Exec(Exec(s1, Give(t, o)), Release(t, o)) == s' && Settled(s', t)
  {
    SlotCounts(s, i);
    var o := s.slots[i].obj;
    var b := s.objs[o].body;
    var s1 := Exec(s, Retain(t, i, Undo));
    assert Sound(b);
    ReleaseUndoesRetain(s, t, i, Undo, Given(b, t), false);
    BodyOnly(s, t, o, Given(b, t));
    hide Settled;
    assert Exec(s1, Give(t, o)) == Released(s1, t, o, Given(b, t), false);
  }

  /** The retained object with body b, its call finished. */
  function Released(s: State, t: Thread, o: Obj, b: Body, acquired: bool): State
    requires t < |s.calls| && o < |s.objs|
  {
    SetCall(SetBody(s, o, b), t, Holding(o, Done(acquired)))
  }

  lemma SlotCounts(s: State, i: nat)
    requires Inv(s) && i < |s.slots| && s.slots[i].kind !in {Free, File, Module}
    ensures s.slots[i].obj < |s.objs| && s.objs[s.slots[i].obj].refcount > 0
  {
    var o := s.slots[i].obj;
    assert ObjInv(s, o);
    assert i in SlotsOf(s, o);
    hide SlotsOf, Owners, Destroyers;
    assert |SlotsOf(s, o)| > 0;
  }

  lemma ReleaseUndoesRetain(s: State, t: Thread, i: nat, op: Op, b: Body, c: bool)
    requires t < |s.calls| && s.calls[t].Idle? && i < |s.slots| && s.slots[i].obj < |s.objs|
    requires Accepts(op, s.slots[i].kind) && s.objs[s.slots[i].obj].refcount > 0
    ensures var o := s.slots[i].obj;
      Exec(Released(Exec(s, Retain(t, i, op)), t, o, b, c), Release(t, o)) == SetBody(s, o, b)
  {
    var o := s.slots[i].obj;
    var s2 := Exec(Released(Exec(s, Retain(t, i, op)), t, o, b, c), Release(t, o));
    assert s2.objs[o] == s.objs[o].(body := b);
    assert s2.calls == s.calls && s2.objs == SetBody(s, o, b).objs;
  }

  lemma BodyOnly(s: State, t: Thread, o: Obj, b: Body)
    requires Settled(s, t) && o < |s.objs| && KindOf(b) == KindOf(s.objs[o].body) && Sound(b)
    ensures Settled(SetBody(s, o, b), t)
  {
    var s' := SetBody(s, o, b);
    forall x | 0 <= x < |s'.objs| ensures ObjInv(s', x) {
      assert ObjInv(s, x);
      ObjSets(s, s'.objs, x);
    }
    forall u | 0 <= u < |s'.calls| ensures Private(s', u) { assert Private(s, u); }
  }

  // ------------------------------------------------------------------------
  // The account of a round
  // ------------------------------------------------------------------------

  /** How many of the handles name o. */
  function Named(s: State, handles: seq<int>, o: Obj): nat {
    if handles == [] then 0
    else (if ObjectOf(s, handles[0]) == Some(o) then 1 else 0) + Named(s, handles[1..], o)
  }

  /** s is s0 after one successful wait for each of the handles. */
  ghost predicate Waited(s0: State, s: State, t: Thread, handles: seq<int>) {
    && s.slots == s0.slots && s.calls == s0.calls && |s.objs| == |s0.objs|
    && (forall k :: 0 <= k < |handles| ==> ObjectOf(s0, handles[k]).Some?)
    && forall o :: 0 <= o < |s0.objs| ==> WaitedOn(s0.objs[o], s.objs[o], t, Named(s0, handles, o))
  }

  ghost predicate WaitedOn(x0: ObjState, x: ObjState, t: Thread, n: nat) {
    CanWait(x0.body, t, n) && x == x0.(body := AfterWaits(x0.body, t, n))
  }

  /** Every listed handle was acquired exactly once: a mutex is that much deeper and owned by t, a semaphore
      that much lower, an auto-reset event is taken by the one handle that names it. */
  ghost predicate AcquiredEach(s0: State, s: State, t: Thread, handles: seq<int>) {
    && s.slots == s0.slots && s.calls == s0.calls && |s.objs| == |s0.objs|
    && (forall k :: 0 <= k < |handles| ==> ObjectOf(s0, handles[k]).Some?)
    && forall o :: 0 <= o < |s0.objs| ==>
         var n := Named(s0, handles, o); var b, b' := s0.objs[o].body, s.objs[o].body;
         && s.objs[o].refcount == s0.objs[o].refcount
         && (n == 0 ==> b' == b)
         && (b.MutexBody? && n > 0 ==> b' == MutexBody(Some(t), b.depth + n))
         && (b.SemBody? ==> b'.SemBody? && b'.value == b.value - n)
         && (b.EventBody? && !b.manual ==> n <= 1 && (n == 1 ==> b.signaled && b' == EventBody(false, false)))
         && (b.EventBody? && b.manual ==> b' == b)
  }

  /** Every handle names an object, and each object can be waited on as often as it is named. */
  ghost predicate Obtainable(s: State, t: Thread, handles: seq<int>) {
    && (forall k :: 0 <= k < |handles| ==> ObjectOf(s, handles[k]).Some?)
    && forall o :: 0 <= o < |s.objs| ==> CanWait(s.objs[o].body, t, Named(s, handles, o))
  }

  /** Handle k stops the round: it names nothing, or its object cannot be waited on once more. */
  ghost predicate Stuck(s: State, t: Thread, handles: seq<int>, k: nat, r: WaitResult)
    requires k < |handles|
  {
    match ObjectOf(s, handles[k])
    case None => r == if handles[k] == CURRENT_THREAD then Timeout else Failed
    case Some(o) => r == Timeout && o < |s.objs| && !CanWait(s.objs[o].body, t, Named(s, handles[..k + 1], o))
  }

  /** Where n + 1 waits are possible, the last is still possible after n. */
  lemma StillOne(b: Body, t: Thread, n: nat)
    requires Sound(b) && CanWait(b, t, n + 1)
    ensures CanTake(AfterWaits(b, t, n), t)
  {
  }

  lemma FewerWaits(b: Body, t: Thread, n: nat, m: nat)
    requires CanWait(b, t, m) && n <= m
    ensures CanWait(b, t, n)
  {
  }

  lemma NotTaken(s0: State, s: State, t: Thread, handles: seq<int>, k: nat, r: WaitResult)
    requires k < |handles| && Settled(s0, t) && Waited(s0, s, t, handles[..k])
    requires match ObjectOf(s0, handles[k])
      case None => r == (if handles[k] == CURRENT_THREAD then Timeout else Failed)
      case Some(o) => r == Timeout && o < |s.objs| && !CanTake(s.objs[o].body, t)
    ensures Stuck(s0, t, handles, k, r)
  {
    match ObjectOf(s0, handles[k])
    case None =>
    case Some(o) =>
      assert handles[..k + 1] == handles[..k] + [handles[k]];
      NamedSnoc(s0, handles[..k], handles[k], o);
      var n := Named(s0, handles[..k], o);
      assert WaitedOn(s0.objs[o], s.objs[o], t, n) && Sound(s0.objs[o].body);
      if CanWait(s0.objs[o].body, t, n + 1) { StillOne(s0.objs[o].body, t, n); }
  }

  lemma WaitedObtainable(s0: State, s: State, t: Thread, handles: seq<int>)
    requires Waited(s0, s, t, handles)
    ensures Obtainable(s0, t, handles)
  {
    hide ObjectOf, Named;
    assert forall o :: 0 <= o < |s0.objs| ==> WaitedOn(s0.objs[o], s.objs[o], t, Named(s0, handles, o));
  }

  lemma {:induction false} NamedPrefix(s: State, handles: seq<int>, k: nat, o: Obj)
    requires k <= |handles|
    ensures Named(s, handles[..k], o) <= Named(s, handles, o)
    decreases handles
  {
    if k > 0 {
      NamedPrefix(s, handles[1..], k - 1, o);
      assert handles[..k][1..] == handles[1..][..k - 1];
    }
  }

  lemma StuckUnobtainable(s: State, t: Thread, handles: seq<int>, k: nat, r: WaitResult)
    requires k < |handles| && Stuck(s, t, handles, k, r)
    ensures !Obtainable(s, t, handles)
  {
    if Obtainable(s, t, handles) {
      var o := ObjectOf(s, handles[k]).value;
      NamedPrefix(s, handles, k + 1, o);
      FewerWaits(s.objs[o].body, t, Named(s, handles[..k + 1], o), Named(s, handles, o));
    }
  }

  lemma WaitedAll(s0: State, s: State, t: Thread, handles: seq<int>)
    requires Waited(s0, s, t, handles)
    ensures AcquiredEach(s0, s, t, handles)
  {
    hide ObjectOf, Named;
    assert forall o :: 0 <= o < |s0.objs| ==> WaitedOn(s0.objs[o], s.objs[o], t, Named(s0, handles, o));
  }

  lemma Waited0(s: State, t: Thread, handles: seq<int>)
    ensures Waited(s, s, t, handles[..0])
  {
  }

  lemma WaitedNone(s0: State, s: State, t: Thread, none: seq<int>)
    requires Waited(s0, s, t, none) && none == []
    ensures s == s0
  {
    assert forall o :: 0 <= o < |s0.objs| ==> WaitedOn(s0.objs[o], s.objs[o], t, 0);
    assert s.objs == s0.objs;
  }

  lemma SameObject(s0: State, s: State, t: Thread, done: seq<int>, h: int)
    requires Waited(s0, s, t, done)
    ensures ObjectOf(s, h) == ObjectOf(s0, h)
  {
  }

  lemma {:induction false} NamedSnoc(s: State, hs: seq<int>, h: int, o: Obj)
    ensures Named(s, hs + [h], o) == Named(s, hs, o) + (if ObjectOf(s, h) == Some(o) then 1 else 0)
  {
    if hs == [] {
      assert ([] + [h])[1..] == [];
    } else {
      NamedSnoc(s, hs[1..], h, o);
      assert (hs + [h])[1..] == hs[1..] + [h];
    }
  }

  lemma WaitedMore(s0: State, s: State, t: Thread, handles: seq<int>, k: nat)
    requires k < |handles| && Waited(s0, s, t, handles[..k]) && Settled(s0, t)
    requires ObjectOf(s0, handles[k]).Some?
    requires var o := ObjectOf(s0, handles[k]).value; o < |s.objs| && CanTake(s.objs[o].body, t)
    ensures var o := ObjectOf(s0, handles[k]).value;
      Waited(s0, SetBody(s, o, Taken(s.objs[o].body, t)), t, handles[..k + 1])
  {
    var r := ObjectOf(s0, handles[k]).value;
    var s' := SetBody(s, r, Taken(s.objs[r].body, t));
    assert handles[..k + 1] == handles[..k] + [handles[k]];
    forall o | 0 <= o < |s0.objs|
      ensures WaitedOn(s0.objs[o], s'.objs[o], t, Named(s0, handles[..k + 1], o))
    {
      NamedSnoc(s0, handles[..k], handles[k], o);
      var n := Named(s0, handles[..k], o);
      assert WaitedOn(s0.objs[o], s.objs[o], t, n) && Sound(s0.objs[o].body);
      if o == r { OneMoreWait(s0.objs[o].body, t, n); }
    }
  }

  lemma WaitedLess(s0: State, s: State, t: Thread, handles: seq<int>, j: nat, m: nat)
    requires j < m <= |handles| && Waited(s0, s, t, handles[j..m]) && Settled(s0, t)
    ensures ObjectOf(s0, handles[j]).Some?
    ensures var o := ObjectOf(s0, handles[j]).value;
      o < |s.objs| ==> Waited(s0, SetBody(s, o, Given(s.objs[o].body, t)), t, handles[j + 1..m])
  {
    assert handles[j..m][0] == handles[j] && handles[j..m][1..] == handles[j + 1..m];
    var r := ObjectOf(s0, handles[j]).value;
    if r < |s.objs| {
      var s' := SetBody(s, r, Given(s.objs[r].body, t));
      forall o | 0 <= o < |s0.objs|
        ensures WaitedOn(s0.objs[o], s'.objs[o], t, Named(s0, handles[j + 1..m], o))
      {
        var n := Named(s0, handles[j + 1..m], o);
        assert WaitedOn(s0.objs[o], s.objs[o], t, Named(s0, handles[j..m], o)) && Sound(s0.objs[o].body);
        if o == r { OneUndo(s0.objs[o].body, t, n); }
      }
      ghost var rest := handles[j + 1..m];
      forall k | 0 <= k < |rest| ensures ObjectOf(s0, rest[k]).Some? {
        assert rest[k] == handles[j..m][k + 1];
      }
    }
  }
}
