/** The handle table and the reference counts of what its slots point to, as atomic steps of many
    callers (shim.cpp, shim_kernel32_sync.hpp, shim_kernel32_file.hpp). A step is one critical section
    under g_handles_mu, or one action on a retained object outside it. */
module Handles {
  import opened Common

  type Obj = nat
  type Thread = nat

  const MAX_HANDLES: nat := 4096
  const FIRST_SLOT: nat := 3
  const SEM_VALUE_MAX: nat := 0x7fff_ffff

  datatype Kind = Free | File | Module | Find | Mutex | Event | Semaphore

  datatype Slot = Slot(kind: Kind, obj: Obj)

  /** The part of an object that its own lock or semaphore protects. */
  datatype Body =
    | MutexBody(owner: Option<Thread>, depth: nat)
    | EventBody(manual: bool, signaled: bool)
    | SemBody(value: nat)
    | FindBody(count: nat, next: nat)

  function KindOf(b: Body): Kind {
    match b
    case MutexBody(_, _) => Mutex
    case EventBody(_, _) => Event
    case SemBody(_) => Semaphore
    case FindBody(_, _) => Find
  }

  /** A heap object; destroyed counts how often it was freed, born is its body when it was made. */
  datatype ObjState = ObjState(refcount: int, destroyed: nat, body: Body, born: Body)

  /** What a caller that has retained an object is going to do with it. */
  datatype Op =
    | Wait
    | Unlock
    | Set
    | Reset
    | Post(left: nat)
    | Undo
    | Next
    | Fetch
    | Store(index: nat)
    | Done(acquired: bool)

  /** Where a caller is between two critical sections. */
  datatype Call =
    | Idle
    | Created(obj: Obj)
    | Abandoned(obj: Obj)
    | Holding(obj: Obj, op: Op)
    | Closing(obj: Obj)
    | Dying(obj: Obj, locked: bool)

  datatype State = State(slots: seq<Slot>, objs: seq<ObjState>, calls: seq<Call>)

  /** Slots 0, 1 and 2 are the standard streams. */
  function Init(threads: nat): State {
    State(seq(MAX_HANDLES, i => if i < FIRST_SLOT then Slot(File, 0) else Slot(Free, 0)), [], seq(threads, _ => Idle))
  }

  // ------------------------------------------------------------------------
  // Steps
  // ------------------------------------------------------------------------

  datatype Step =
    | Create(t: Thread, body: Body)
    | Insert(t: Thread, slot: nat)
    | TableFull(t: Thread)
    | FreeAbandoned(t: Thread)
    | OpenPlain(t: Thread, slot: nat, kind: Kind)
    | ClosePlain(t: Thread, slot: nat)
    | Retain(t: Thread, slot: nat, op: Op)
    | Take(t: Thread, obj: Obj)
    | GiveUp(t: Thread, obj: Obj)
    | Spurious(t: Thread, obj: Obj)
    | Give(t: Thread, obj: Obj)
    | Clear(t: Thread, obj: Obj)
    | PostsDone(t: Thread, obj: Obj)
    | Check(t: Thread, obj: Obj)
    | FetchName(t: Thread, obj: Obj)
    | StoreNext(t: Thread, obj: Obj)
    | Release(t: Thread, obj: Obj)
    | CloseSlot(t: Thread, slot: nat)
    | Drop(t: Thread, obj: Obj)
    | UnlockDying(t: Thread, obj: Obj)
    | Destroy(t: Thread, obj: Obj)

  /** Which calls accept which kind of slot. */
  predicate Accepts(op: Op, k: Kind) {
    match op
    case Wait => k == Mutex || k == Event || k == Semaphore
    case Undo => k == Mutex || k == Event || k == Semaphore
    case Unlock => k == Mutex
    case Set => k == Event
    case Reset => k == Event
    case Post(_) => k == Semaphore
    case Next => k == Find
    case Fetch => false
    case Store(_) => false
    case Done(_) => false
  }

  /** The slot that the allocation loop stops at. */
  predicate FirstFree(slots: seq<Slot>, i: nat) {
    && FIRST_SLOT <= i < |slots| && slots[i].kind == Free
    && forall j :: FIRST_SLOT <= j < i ==> slots[j].kind != Free
  }

  predicate CanTake(b: Body, t: Thread) {
    match b
    case MutexBody(owner, _) => owner == None || owner == Some(t)
    case EventBody(_, signaled) => signaled
    case SemBody(v) => v > 0
    case FindBody(_, _) => false
  }

  /** A wait that succeeds. */
  function Taken(b: Body, t: Thread): Body
    requires CanTake(b, t)
  {
    match b
    case MutexBody(_, d) => MutexBody(Some(t), d + 1)
    case EventBody(manual, _) => EventBody(manual, manual)
    case SemBody(v) => SemBody(v - 1)
  }

  /** Unlocking a mutex one does not own fails and changes nothing. */
  function Unlocked(b: Body, t: Thread): Body {
    match b
    case MutexBody(owner, d) =>
      if owner == Some(t) && d > 0 then MutexBody(if d == 1 then None else owner, d - 1) else b
    case _ => b
  }

  /** What ReleaseMutex, SetEvent, one sem_post, and the undo of a wait do to the body. A semaphore at its greatest
      value stays there. */
  function Given(b: Body, t: Thread): Body {
    match b
    case MutexBody(_, _) => Unlocked(b, t)
    case EventBody(manual, _) => EventBody(manual, true)
    case SemBody(v) => SemBody(if v < SEM_VALUE_MAX then v + 1 else v)
    case FindBody(_, _) => b
  }

  predicate Gives(op: Op) { op.Unlock? || op.Set? || op.Undo? || (op.Post? && op.left > 0) }

  predicate CallIs(s: State, t: Thread, c: Call) { t < |s.calls| && s.calls[t] == c }

  predicate Holds(s: State, t: Thread, o: Obj, op: Op) { CallIs(s, t, Holding(o, op)) && o < |s.objs| }

  /** An object as its constructor leaves it. A find context is made with its first name already read. */
  predicate Newborn(b: Body, t: Thread) {
    match b
    case MutexBody(owner, d) => (owner == None && d == 0) || (owner == Some(t) && d == 1)
    case EventBody(_, _) => true
    case SemBody(v) => v <= SEM_VALUE_MAX
    case FindBody(count, next) => count > 0 && next == 1
  }

  /** Whether the code can be at this step. Nothing here asks that an object still exists. */
  predicate Enabled(s: State, step: Step) {
    && step.t < |s.calls|
    && var c := s.calls[step.t];
    match step
    case Create(t, b) => c.Idle? && Newborn(b, t)
    case Insert(_, i) => c.Created? && c.obj < |s.objs| && FirstFree(s.slots, i)
    case TableFull(_) => c.Created? && forall j :: FIRST_SLOT <= j < |s.slots| ==> s.slots[j].kind != Free
    case FreeAbandoned(_) => c.Abandoned? && c.obj < |s.objs|
    case OpenPlain(_, i, k) => c.Idle? && FirstFree(s.slots, i) && (k == File || k == Module)
    case ClosePlain(_,
        i) => c.Idle? && FIRST_SLOT <= i < |s.slots| && (s.slots[i].kind == File || s.slots[i].kind == Module)
    case Retain(_, i, op) => c.Idle? && i < |s.slots| && Accepts(op, s.slots[i].kind) && s.slots[i].obj < |s.objs|
    case Take(t, o) => Holds(s, t, o, Wait) && CanTake(s.objs[o].body, t)
    case GiveUp(t, o) => Holds(s, t, o, Wait)
    case Spurious(t, o) => Holds(s, t, o, Wait) && s.objs[o].body.EventBody?
    case Give(t, o) => c.Holding? && c.obj == o < |s.objs| && Gives(c.op)
    case Clear(t, o) => Holds(s, t, o, Reset) && s.objs[o].body.EventBody?
    case PostsDone(t, o) => Holds(s, t, o, Post(0))
    case Check(t, o) => Holds(s, t, o, Next) && s.objs[o].body.FindBody?
    case FetchName(t, o) => Holds(s, t, o, Fetch) && s.objs[o].body.FindBody?
    case StoreNext(t, o) => c.Holding? && c.obj == o < |s.objs| && c.op.Store? && s.objs[o].body.FindBody?
    case Release(t, o) => c.Holding? && c.obj == o < |s.objs| && c.op.Done?
    case CloseSlot(_, i) =>
      c.Idle? && FIRST_SLOT <= i < |s.slots| && s.slots[i].kind !in {Free, File, Module} && s.slots[i].obj < |s.objs|
    case Drop(t, o) => c == Closing(o) && o < |s.objs|
    case UnlockDying(t, o) => c == Dying(o, true) && o < |s.objs|
    case Destroy(t, o) => c == Dying(o, false) && o < |s.objs|
  }

  function SetCall(s: State, t: Thread, c: Call): State
    requires t < |s.calls|
  {
    s.(calls := s.calls[t := c])
  }

  function SetBody(s: State, o: Obj, b: Body): State
    requires o < |s.objs|
  {
    s.(objs := s.objs[o := s.objs[o].(body := b)])
  }

  function AddRef(s: State, o: Obj, n: int): State
    requires o < |s.objs|
  {
    s.(objs := s.objs[o := s.objs[o].(refcount := s.objs[o].refcount + n)])
  }

  function Freed(s: State, o: Obj): State
    requires o < |s.objs|
  {
    s.(objs := s.objs[o := s.objs[o].(destroyed := s.objs[o].destroyed + 1)])
  }

  /** Dropping one reference: the caller that brings the count to zero destroys the object. */
  function Unref(s: State, t: Thread, o: Obj, locked: bool): State
    requires o < |s.objs| && t < |s.calls|
  {
    var s' := AddRef(s, o, -1);
    SetCall(s', t, if s'.objs[o].refcount == 0 then Dying(o, locked) else Idle)
  }

  function Exec(s: State, step: Step): State
    requires Enabled(s, step)
  {
    var t := step.t;
    var c := s.calls[t];
    match step
    case Create(_, b) => State(s.slots, s.objs + [ObjState(1, 0, b, b)], s.calls[t := Created(|s.objs|)])
    case Insert(_, i) => SetCall(s, t, Idle).(slots := s.slots[i := Slot(KindOf(s.objs[c.obj].body), c.obj)])
    case TableFull(_) => SetCall(s, t, Abandoned(c.obj))
    case FreeAbandoned(_) => SetCall(Freed(s, c.obj), t, Idle)
    case OpenPlain(_, i, k) => s.(slots := s.slots[i := Slot(k, 0)])
    case ClosePlain(_, i) => s.(slots := s.slots[i := Slot(Free, 0)])
    case Retain(_, i, op) => SetCall(AddRef(s, s.slots[i].obj, 1), t, Holding(s.slots[i].obj, op))
    case Take(_, o) => SetCall(SetBody(s, o, Taken(s.objs[o].body, t)), t, Holding(o, Done(true)))
    case GiveUp(_, o) => SetCall(s, t, Holding(o, Done(false)))
    case Spurious(_, _) => s
    case Give(_, o) =>
      SetCall(SetBody(s, o, Given(s.objs[o].body, t)), t,
              Holding(o, if c.op.Post? then Post(c.op.left - 1) else Done(false)))
    case Clear(_, o) => SetCall(SetBody(s, o, EventBody(s.objs[o].body.manual, false)), t, Holding(o, Done(false)))
    case PostsDone(_, o) => SetCall(s, t, Holding(o, Done(false)))
    case Check(_, o) => SetCall(s, t, Holding(o,
        if s.objs[o].body.next < s.objs[o].body.count then Fetch else Done(false)))
    case FetchName(_, o) => SetCall(s, t, Holding(o, Store(s.objs[o].body.next)))
    case StoreNext(_, o) =>
      SetCall(SetBody(s, o, FindBody(s.objs[o].body.count, c.op.index + 1)), t, Holding(o, Done(false)))
    case Release(_, o) => Unref(s, t, o, c.op.acquired && s.objs[o].body.MutexBody?)
    case CloseSlot(_, i) => SetCall(s, t, Closing(s.slots[i].obj)).(slots := s.slots[i := Slot(Free, 0)])
    case Drop(_, o) => Unref(s, t, o, false)
    case UnlockDying(_, o) => SetCall(SetBody(s, o, Unlocked(s.objs[o].body, t)), t, Dying(o, false))
    case Destroy(_, o) => SetCall(Freed(s, o), t, Idle)
  }

  /** The object a step reads or writes, if any. */
  function Touched(s: State, step: Step): Option<Obj>
    requires Enabled(s, step)
  {
    var c := s.calls[step.t];
    match step
    case Create(_, _) => None
    case Insert(_, _) => Some(c.obj)
    case TableFull(_) => None
    case FreeAbandoned(_) => Some(c.obj)
    case OpenPlain(_, _, _) => None
    case ClosePlain(_, _) => None
    case Retain(_, i, _) => Some(s.slots[i].obj)
    case CloseSlot(_, _) => None
    case _ => Some(step.obj)
  }

  // ------------------------------------------------------------------------
  // The invariant
  // ------------------------------------------------------------------------

  predicate Points(x: Slot, o: Obj) { x.kind !in {Free, File, Module} && x.obj == o }

  /** The call owns a reference that the count includes. */
  predicate Owns(c: Call, o: Obj) { (c.Created? || c.Abandoned? || c.Holding? || c.Closing?) && c.obj == o }

  predicate Destroys(c: Call, o: Obj) { c.Dying? && c.obj == o }

  ghost function SlotsOf(s: State, o: Obj): set<nat> { set i | 0 <= i < |s.slots| && Points(s.slots[i], o) }

  ghost function Owners(s: State, o: Obj): set<nat> { set t | 0 <= t < |s.calls| && Owns(s.calls[t], o) }

  ghost function Destroyers(s: State, o: Obj): set<nat> { set t | 0 <= t < |s.calls| && Destroys(s.calls[t], o) }

  /** A live object's count is its slots plus the calls that hold it, and exactly one call destroys it
      once the count is zero; a destroyed object was destroyed once and nothing refers to it. */
  ghost predicate Balanced(x: ObjState, slots: set<nat>, owners: set<nat>, destroyers: set<nat>) {
    && |destroyers| <= 1
    && (x.destroyed == 0 ==>
          x.refcount == |slots| + |owners| && (x.refcount == 0 <==> destroyers != {}))
    && (x.destroyed > 0 ==> x.destroyed == 1 && slots == {} && owners == {} && destroyers == {})
  }

  ghost predicate ObjInv(s: State, o: Obj)
    requires o < |s.objs|
  {
    Balanced(s.objs[o], SlotsOf(s, o), Owners(s, o), Destroyers(s, o))
  }

  ghost predicate InRange(s: State) {
    && |s.slots| == MAX_HANDLES
    && (forall i :: 0 <= i < |s.slots| && s.slots[i].kind !in {Free, File, Module} ==>
          s.slots[i].obj < |s.objs| && s.slots[i].kind == KindOf(s.objs[s.slots[i].obj].body))
    && (forall t :: 0 <= t < |s.calls| && !s.calls[t].Idle? ==> s.calls[t].obj < |s.objs|)
  }

  /** A new object is its creator's alone until it is in the table. */
  ghost predicate Private(s: State, t: Thread)
    requires t < |s.calls|
  {
    var c := s.calls[t];
    c.Created? || c.Abandoned? ==> c.obj < |s.objs| && s.objs[c.obj].refcount == 1 && s.objs[c.obj].destroyed == 0
  }

  ghost predicate Inv(s: State) {
    && InRange(s)
    && (forall o :: 0 <= o < |s.objs| ==> ObjInv(s, o))
    && (forall t :: 0 <= t < |s.calls| ==> Private(s, t))
  }

  // ------------------------------------------------------------------------
  // Changing one call or one slot
  // ------------------------------------------------------------------------

  ghost function With(a: set<nat>, x: nat, present: bool): set<nat> {
    if present then a + {x} else a - {x}
  }

  lemma WithSame(a: set<nat>, x: nat, present: bool)
    requires present <==> x in a
    ensures With(a, x, present) == a
  {
  }

  lemma WithCount(a: set<nat>, x: nat)
    ensures x !in a ==> |With(a, x, true)| == |a| + 1
    ensures x in a ==> |With(a, x, false)| == |a| - 1
  {
  }

  lemma CallSets(s: State, t: Thread, c: Call, o: Obj)
    requires t < |s.calls|
    ensures var s' := SetCall(s, t, c);
      && SlotsOf(s', o) == SlotsOf(s, o)
      && Owners(s', o) == With(Owners(s, o), t, Owns(c, o))
      && Destroyers(s', o) == With(Destroyers(s, o), t, Destroys(c, o))
    ensures t in Owners(s, o) <==> Owns(s.calls[t], o)
    ensures t in Destroyers(s, o) <==> Destroys(s.calls[t], o)
  {
  }

  lemma SlotSets(s: State, i: nat, x: Slot, o: Obj)
    requires i < |s.slots|
    ensures var s' := s.(slots := s.slots[i := x]);
      && SlotsOf(s', o) == With(SlotsOf(s, o), i, Points(x, o))
      && Owners(s', o) == Owners(s, o) && Destroyers(s', o) == Destroyers(s, o)
    ensures i in SlotsOf(s, o) <==> Points(s.slots[i], o)
  {
  }

  lemma ObjSets(s: State, objs: seq<ObjState>, o: Obj)
    ensures var s' := s.(objs := objs);
      SlotsOf(s', o) == SlotsOf(s, o) && Owners(s', o) == Owners(s, o) && Destroyers(s', o) == Destroyers(s, o)
  {
  }

  // ------------------------------------------------------------------------
  // Every step keeps the invariant of every object
  // ------------------------------------------------------------------------

  lemma Singleton(a: set<nat>, t: nat)
    requires t in a && |a| == 1
    ensures a == {t}
  {
    WithCount(a, t);
    assert a - {t} == {};
  }

  lemma OneOwner(s: State, t: Thread)
    requires Inv(s) && t < |s.calls| && (s.calls[t].Created? || s.calls[t].Abandoned?)
    ensures var o := s.calls[t].obj;
      o < |s.objs| && s.objs[o].destroyed == 0 && s.objs[o].refcount == 1
      && Owners(s, o) == {t} && SlotsOf(s, o) == {} && Destroyers(s, o) == {}
  {
    var o := s.calls[t].obj;
    assert Private(s, t) && ObjInv(s, o);
    CallSets(s, t, s.calls[t], o);
    hide SlotsOf, Owners, Destroyers;
    assert |Owners(s, o)| > 0;
    Singleton(Owners(s, o), t);
  }

  /** A call that destroys an object is the only one left to refer to it. */
  lemma LiveWhileDying(s: State, t: Thread)
    requires Inv(s) && t < |s.calls| && s.calls[t].Dying?
    ensures var r := s.calls[t].obj;
      r < |s.objs| && s.objs[r].destroyed == 0 && s.objs[r].refcount == 0
      && SlotsOf(s, r) == {} && Owners(s, r) == {} && Destroyers(s, r) == {t}
  {
    var r := s.calls[t].obj;
    assert ObjInv(s, r);
    CallSets(s, t, s.calls[t], r);
    hide SlotsOf, Owners, Destroyers;
    assert |Destroyers(s, r)| == 1;
    Singleton(Destroyers(s, r), t);
  }

  lemma NothingRefersTo(s: State, o: Obj)
    requires InRange(s) && o >= |s.objs|
    ensures SlotsOf(s, o) == {} && Owners(s, o) == {} && Destroyers(s, o) == {}
  {
  }

  /** Steps that change neither the count of o nor who refers to it. */
  lemma ActKeeps(s: State, objs: seq<ObjState>, t: Thread, c: Call, o: Obj)
    requires t < |s.calls| && o < |s.objs| <= |objs| && ObjInv(s, o)
    requires objs[o].refcount == s.objs[o].refcount && objs[o].destroyed == s.objs[o].destroyed
    requires Owns(c, o) <==> Owns(s.calls[t], o)
    requires Destroys(c, o) <==> Destroys(s.calls[t], o)
    ensures ObjInv(SetCall(s.(objs := objs), t, c), o)
  {
    var s1 := s.(objs := objs);
    ObjSets(s, objs, o);
    CallSets(s1, t, c, o);
    hide SlotsOf, Owners, Destroyers, With;
    WithSame(Owners(s1, o), t, Owns(c, o));
    WithSame(Destroyers(s1, o), t, Destroys(c, o));
  }

  lemma CreateKeeps(s: State, t: Thread, b: Body)
    requires InRange(s) && t < |s.calls| && s.calls[t].Idle?
    ensures ObjInv(SetCall(s.(objs := s.objs + [ObjState(1, 0, b, b)]), t, Created(|s.objs|)), |s.objs|)
  {
    var n := |s.objs|;
    var s1 := s.(objs := s.objs + [ObjState(1, 0, b, b)]);
    NothingRefersTo(s, n);
    ObjSets(s, s1.objs, n);
    CallSets(s1, t, Created(n), n);
    hide SlotsOf, Owners, Destroyers;
  }

  lemma InsertKeeps(s: State, t: Thread, i: nat, x: Slot, o: Obj)
    requires t < |s.calls| && s.calls[t].Created? && i < |s.slots| && s.slots[i].kind == Free
    requires Points(x, s.calls[t].obj) && o < |s.objs| && ObjInv(s, o)
    ensures ObjInv(SetCall(s, t, Idle).(slots := s.slots[i := x]), o)
  {
    var s1 := SetCall(s, t, Idle);
    CallSets(s, t, Idle, o);
    SlotSets(s1, i, x, o);
    hide SlotsOf, Owners, Destroyers, With;
    WithCount(SlotsOf(s, o), i);
    WithCount(Owners(s, o), t);
    WithSame(Destroyers(s, o), t, false);
    if o != s.calls[t].obj {
      WithSame(Owners(s, o), t, false);
      WithSame(SlotsOf(s, o), i, false);
    }
    assert s.objs[o].destroyed > 0 ==> t !in Owners(s, o);
  }

  lemma FreeAbandonedKeeps(s: State, t: Thread, o: Obj)
    requires Inv(s) && t < |s.calls| && s.calls[t].Abandoned? && o < |s.objs|
    ensures ObjInv(SetCall(Freed(s, s.calls[t].obj), t, Idle), o)
  {
    OneOwner(s, t);
    FreedKeeps(s, t, s.calls[t].obj, o);
  }

  lemma DestroyKeeps(s: State, t: Thread, o: Obj)
    requires Inv(s) && t < |s.calls| && o < |s.objs| && s.calls[t].Dying?
    ensures ObjInv(SetCall(Freed(s, s.calls[t].obj), t, Idle), o)
  {
    LiveWhileDying(s, t);
    FreedKeeps(s, t, s.calls[t].obj, o);
  }

  lemma FreedKeeps(s: State, t: Thread, r: Obj, o: Obj)
    requires Inv(s) && t < |s.calls| && o < |s.objs| && r < |s.objs| && !s.calls[t].Idle? && s.calls[t].obj == r
    requires s.objs[r].destroyed == 0 && SlotsOf(s, r) == {} && Owners(s, r) + Destroyers(s, r) == {t}
    ensures ObjInv(SetCall(Freed(s, r), t, Idle), o)
  {
    var s1 := Freed(s, r);
    assert ObjInv(s, o);
    ObjSets(s, s1.objs, o);
    CallSets(s1, t, Idle, o);
    hide SlotsOf, Owners, Destroyers;
    if o != r {
      WithSame(Owners(s, o), t, false);
      WithSame(Destroyers(s, o), t, false);
    } else {
      assert Owners(s, r) - {t} == {} && Destroyers(s, r) - {t} == {};
    }
  }

  lemma PlainKeeps(s: State, i: nat, x: Slot, o: Obj)
    requires i < |s.slots| && o < |s.objs| && ObjInv(s, o)
    requires s.slots[i].kind in {Free, File, Module} && x.kind in {Free, File, Module}
    ensures ObjInv(s.(slots := s.slots[i := x]), o)
  {
    SlotSets(s, i, x, o);
    hide SlotsOf, Owners, Destroyers, With;
    WithSame(SlotsOf(s, o), i, false);
  }

  lemma RetainKeeps(s: State, t: Thread, i: nat, op: Op, o: Obj)
    requires t < |s.calls| && s.calls[t].Idle? && i < |s.slots| && o < |s.objs| && ObjInv(s, o)
    requires s.slots[i].kind !in {Free, File, Module} && s.slots[i].obj < |s.objs|
    ensures ObjInv(SetCall(AddRef(s, s.slots[i].obj, 1), t, Holding(s.slots[i].obj, op)), o)
  {
    var r := s.slots[i].obj;
    var s1 := AddRef(s, r, 1);
    ObjSets(s, s1.objs, o);
    CallSets(s1, t, Holding(r, op), o);
    SlotSets(s, i, s.slots[i], o);
    hide SlotsOf, Owners, Destroyers, With;
    WithCount(Owners(s, o), t);
    WithSame(Destroyers(s, o), t, false);
    if o == r {
      assert |SlotsOf(s, o)| > 0;
    } else {
      WithSame(Owners(s, o), t, false);
    }
  }

  lemma UnrefKeeps(s: State, t: Thread, r: Obj, locked: bool, o: Obj)
    requires t < |s.calls| && o < |s.objs| && r < |s.objs| && ObjInv(s, o)
    requires s.calls[t] == Closing(r) || (s.calls[t].Holding? && s.calls[t].obj == r)
    ensures ObjInv(Unref(s, t, r, locked), o)
  {
    var s1 := AddRef(s, r, -1);
    var c := if s1.objs[r].refcount == 0 then Dying(r, locked) else Idle;
    ObjSets(s, s1.objs, o);
    CallSets(s1, t, c, o);
    hide SlotsOf, Owners, Destroyers, With;
    WithCount(Owners(s, o), t);
    WithCount(Destroyers(s, o), t);
    if o == r {
      assert |Owners(s, o)| > 0 && Destroyers(s, o) == {};
      if c.Idle? { WithSame(Destroyers(s, o), t, false); }
      else { assert t in With(Destroyers(s, o), t, true) by { WithIn(Destroyers(s, o), t); } }
    } else {
      WithSame(Owners(s, o), t, false);
      WithSame(Destroyers(s, o), t, false);
    }
  }

  lemma WithIn(a: set<nat>, x: nat)
    ensures x in With(a, x, true)
  {
  }

  lemma CloseSlotKeeps(s: State, t: Thread, i: nat, o: Obj)
    requires t < |s.calls| && s.calls[t].Idle? && i < |s.slots| && o < |s.objs| && ObjInv(s, o)
    requires s.slots[i].kind !in {Free, File, Module}
    ensures ObjInv(SetCall(s, t, Closing(s.slots[i].obj)).(slots := s.slots[i := Slot(Free, 0)]), o)
  {
    var r := s.slots[i].obj;
    var s1 := SetCall(s, t, Closing(r));
    CallSets(s, t, Closing(r), o);
    SlotSets(s1, i, Slot(Free, 0), o);
    hide SlotsOf, Owners, Destroyers, With;
    WithCount(Owners(s, o), t);
    WithCount(SlotsOf(s, o), i);
    WithSame(Destroyers(s, o), t, false);
    if o != r {
      WithSame(Owners(s, o), t, false);
      WithSame(SlotsOf(s, o), i, false);
    }
  }

  /** The state after a step whose only effect is on one object's body and on the caller. */
  ghost predicate ActsOnly(s: State, s': State, t: Thread) {
    && t < |s.calls| && |s'.objs| == |s.objs|
    && (exists c :: s' == SetCall(s.(objs := s'.objs), t, c)
          && (forall o {:trigger Owns(c, o)} :: Owns(c, o) <==> Owns(s.calls[t], o))
          && (forall o {:trigger Destroys(c, o)} :: Destroys(c, o) <==> Destroys(s.calls[t], o)))
    && forall o :: 0 <= o < |s.objs| ==>
         s'.objs[o].refcount == s.objs[o].refcount && s'.objs[o].destroyed == s.objs[o].destroyed
  }

  predicate IsAct(step: Step) {
    step.TableFull? || step.Take? || step.GiveUp? || step.Spurious? || step.Give? || step.Clear? || step.PostsDone?
    || step.Check? || step.FetchName? || step.StoreNext? || step.UnlockDying?
  }

  lemma ActStep(s: State, step: Step)
    requires Enabled(s, step) && IsAct(step)
    ensures ActsOnly(s, Exec(s, step), step.t)
  {
    var s' := Exec(s, step);
    var c := s'.calls[step.t];
    assert s' == SetCall(s.(objs := s'.objs), step.t, c);
    assert forall o {:trigger Owns(c, o)} :: Owns(c, o) <==> Owns(s.calls[step.t], o);
    assert forall o {:trigger Destroys(c, o)} :: Destroys(c, o) <==> Destroys(s.calls[step.t], o);
  }

  lemma ActObjInv(s: State, step: Step, o: Obj)
    requires Enabled(s, step) && IsAct(step) && o < |s.objs| && ObjInv(s, o)
    ensures o < |Exec(s, step).objs| && ObjInv(Exec(s, step), o)
  {
    ActStep(s, step);
    var s' := Exec(s, step);
    hide Exec, Enabled, ObjInv;
    var c :| s' == SetCall(s.(objs := s'.objs), step.t, c)
      && (forall o {:trigger Owns(c, o)} :: Owns(c, o) <==> Owns(s.calls[step.t], o))
      && (forall o {:trigger Destroys(c, o)} :: Destroys(c, o) <==> Destroys(s.calls[step.t], o));
    ActKeeps(s, s'.objs, step.t, c, o);
  }

  lemma CreateObjInv(s: State, t: Thread, b: Body, o: Obj)
    requires Inv(s) && Enabled(s, Create(t, b)) && o < |Exec(s, Create(t, b)).objs|
    ensures ObjInv(Exec(s, Create(t, b)), o)
  {
    var objs := s.objs + [ObjState(1, 0, b, b)];
    assert Exec(s, Create(t, b)) == SetCall(s.(objs := objs), t, Created(|s.objs|));
    if o == |s.objs| {
      CreateKeeps(s, t, b);
    } else {
      assert ObjInv(s, o) && objs[o] == s.objs[o];
      hide ObjInv;
      ActKeeps(s, objs, t, Created(|s.objs|), o);
    }
  }

  /** Every step keeps the count of every object. */
  lemma ExecObjInv(s: State, step: Step, o: Obj)
    requires Inv(s) && Enabled(s, step) && o < |Exec(s, step).objs|
    ensures ObjInv(Exec(s, step), o)
  {
    if step.Create? {
      CreateObjInv(s, step.t, step.body, o);
    } else {
      assert ObjInv(s, o);
      var t := step.t;
      if IsAct(step) {
        ActObjInv(s, step, o);
      } else {
        hide ObjInv, InRange;
        match step
        case Insert(_, i) => InsertKeeps(s, t, i, Slot(KindOf(s.objs[s.calls[t].obj].body), s.calls[t].obj), o);
        case FreeAbandoned(_) => FreeAbandonedKeeps(s, t, o);
        case OpenPlain(_, i, k) => PlainKeeps(s, i, Slot(k, 0), o);
        case ClosePlain(_, i) => PlainKeeps(s, i, Slot(Free, 0), o);
        case Retain(_, i, op) => RetainKeeps(s, t, i, op, o);
        case Release(_, r) => UnrefKeeps(s, t, r, s.calls[t].op.acquired && s.objs[r].body.MutexBody?, o);
        case CloseSlot(_, i) => CloseSlotKeeps(s, t, i, o);
        case Drop(_, r) => UnrefKeeps(s, t, r, false, o);
        case Destroy(_, r) => DestroyKeeps(s, t, o);
      }
    }
  }

  /** A find context stays, or some caller stores its next position. */
  predicate FindMoved(step: Step, call: Call, o: Obj, f: Body, f': Body)
    requires f.FindBody?
  {
    if step.StoreNext? && step.obj == o && call.Holding? && call.op.Store?
    then f' == FindBody(f.count, call.op.index + 1)
    else f' == f
  }

  predicate ChangesBody(step: Step, o: Obj) { (step.Take? || step.Give? || step.Clear?) && step.obj == o }

  /** What a step does to the body of an object that exists. */
  lemma ExecBody(s: State, step: Step, o: Obj)
    requires Enabled(s, step) && o < |s.objs|
    ensures var s' := Exec(s, step);
      && o < |s'.objs| && s'.objs[o].born == s.objs[o].born
      && (step.Take? && step.obj == o ==> s'.objs[o].body == Taken(s.objs[o].body, step.t))
      && (step.Give? && step.obj == o ==> s'.objs[o].body == Given(s.objs[o].body, step.t))
      && (step.Clear? && step.obj == o ==> s'.objs[o].body == EventBody(s.objs[o].body.manual, false))
      && (!ChangesBody(step, o) && !s.objs[o].body.FindBody? ==>
            s'.objs[o].body == s.objs[o].body || s'.objs[o].body == Unlocked(s.objs[o].body, step.t))
      && (s.objs[o].body.FindBody? ==> FindMoved(step, s.calls[step.t], o, s.objs[o].body, s'.objs[o].body))
      && KindOf(s'.objs[o].body) == KindOf(s.objs[o].body)
  {
  }

  lemma ExecCalls(s: State, step: Step)
    requires InRange(s) && Enabled(s, step)
    ensures var s' := Exec(s, step);
      && |s'.calls| == |s.calls| && |s'.objs| >= |s.objs|
      && (forall t :: 0 <= t < |s.calls| && t != step.t ==> s'.calls[t] == s.calls[t])
      && (!s'.calls[step.t].Idle? ==> s'.calls[step.t].obj < |s'.objs|)
  {
  }

  lemma ExecSlots(s: State, step: Step)
    requires InRange(s) && Enabled(s, step)
    ensures var s' := Exec(s, step);
      && |s'.slots| == |s.slots|
      && forall i :: 0 <= i < |s.slots| ==>
           || s'.slots[i] == s.slots[i] || s'.slots[i].kind in {Free, File, Module}
           || (s'.slots[i].obj < |s.objs| && s'.slots[i].kind == KindOf(s.objs[s'.slots[i].obj].body))
  {
  }

  lemma ExecInRange(s: State, step: Step)
    requires InRange(s) && Enabled(s, step)
    ensures InRange(Exec(s, step)) && |Exec(s, step).calls| == |s.calls|
  {
    var s' := Exec(s, step);
    ExecCalls(s, step);
    ExecSlots(s, step);
    forall o | 0 <= o < |s.objs| ensures KindOf(s'.objs[o].body) == KindOf(s.objs[o].body) { ExecBody(s, step, o); }
    hide Exec, Enabled, KindOf;
  }

  /** Only the caller's own reference, or one found through a slot, is ever counted or freed. */
  lemma ExecRefs(s: State, step: Step, o: Obj)
    requires Enabled(s, step) && o < |s.objs|
    ensures var s' := Exec(s, step);
      && o < |s'.objs|
      && (|| (s'.objs[o].refcount == s.objs[o].refcount && s'.objs[o].destroyed == s.objs[o].destroyed)
          || Owns(s.calls[step.t], o) || Destroys(s.calls[step.t], o)
          || (step.Retain? && step.slot < |s.slots| && Points(s.slots[step.slot], o)))
  {
  }

  /** An object that is still private to its creator is not counted or freed by anyone else. */
  lemma ExecPrivateOther(s: State, step: Step, u: Thread)
    requires Inv(s) && Enabled(s, step) && u < |s.calls| && u != step.t
    ensures Private(Exec(s, step), u)
  {
    ExecCalls(s, step);
    var s' := Exec(s, step);
    if s.calls[u].Created? || s.calls[u].Abandoned? {
      OneOwner(s, u);
      var o := s.calls[u].obj;
      CallSets(s, step.t, s.calls[step.t], o);
      ExecRefs(s, step, o);
      if step.Retain? && step.slot < |s.slots| { SlotSets(s, step.slot, s.slots[step.slot], o); }
      hide SlotsOf, Owners, Destroyers, ObjInv, InRange, Exec, Enabled;
      assert step.t !in Owners(s, o) && step.t !in Destroyers(s, o);
    }
  }

  lemma ExecPrivateSelf(s: State, step: Step)
    requires Inv(s) && Enabled(s, step)
    ensures step.t < |Exec(s, step).calls| && Private(Exec(s, step), step.t)
  {
    hide ObjInv, InRange;
    assert Private(s, step.t);
  }

  /** The invariant is kept by every step of every caller. */
  lemma ExecInv(s: State, step: Step)
    requires Inv(s) && Enabled(s, step)
    ensures Inv(Exec(s, step))
  {
    ExecInRange(s, step);
    var s' := Exec(s, step);
    forall o | 0 <= o < |s'.objs| ensures ObjInv(s', o) { ExecObjInv(s, step, o); }
    forall u | 0 <= u < |s'.calls| ensures Private(s', u) {
      if u == step.t { ExecPrivateSelf(s, step); } else { ExecPrivateOther(s, step, u); }
    }
  }

  lemma InitInv(threads: nat)
    ensures Inv(Init(threads))
  {
  }

  /** No step reads or writes an object that has been destroyed. */
  lemma TouchesLive(s: State, step: Step)
    requires Inv(s) && Enabled(s, step) && Touched(s, step).Some?
    ensures Touched(s, step).value < |s.objs| && s.objs[Touched(s, step).value].destroyed == 0
  {
    var o := Touched(s, step).value;
    var t := step.t;
    assert o < |s.objs|;
    assert ObjInv(s, o);
    CallSets(s, t, s.calls[t], o);
    if step.Retain? { SlotSets(s, step.slot, s.slots[step.slot], o); }
    hide SlotsOf, Owners, Destroyers;
    assert (step.Retain? && step.slot in SlotsOf(s, o)) || t in Owners(s, o) || t in Destroyers(s, o);
  }

  // ------------------------------------------------------------------------
  // Whole runs
  // ------------------------------------------------------------------------

  /** A run: any interleaving of any callers' steps from the empty table. */
  ghost predicate IsRun(states: seq<State>, steps: seq<Step>) {
    && |states| == |steps| + 1
    && (exists n: nat :: states[0] == Init(n))
    && forall i :: 0 <= i < |steps| ==> Enabled(states[i], steps[i]) && states[i + 1] == Exec(states[i], steps[i])
  }

  lemma {:induction false} RunInv(states: seq<State>, steps: seq<Step>, k: nat)
    requires IsRun(states, steps) && k <= |steps|
    ensures Inv(states[k])
  {
    if k == 0 {
      var n: nat :| states[0] == Init(n);
      InitInv(n);
    } else {
      RunInv(states, steps, k - 1);
      assert Enabled(states[k - 1], steps[k - 1]);
      ExecInv(states[k - 1], steps[k - 1]);
    }
  }

  /** In every run and at every moment: a live object's count is its slots plus the calls in flight that
      hold it, every object is destroyed at most once, and the next step touches no destroyed object. */
  lemma RunsAreSafe(states: seq<State>, steps: seq<Step>, k: nat, o: Obj)
    requires IsRun(states, steps) && k <= |steps| && o < |states[k].objs|
    ensures var x := states[k].objs[o];
      && x.destroyed <= 1
      && (x.destroyed == 0 ==> x.refcount == |SlotsOf(states[k], o)| + |Owners(states[k], o)|)
      && (x.destroyed == 1 ==> SlotsOf(states[k], o) == {} && Owners(states[k], o) == {})
    ensures k < |steps| && Touched(states[k], steps[k]) == Some(o) ==> states[k].objs[o].destroyed == 0
  {
    RunInv(states, steps, k);
    assert ObjInv(states[k], o);
    if k < |steps| && Touched(states[k], steps[k]) == Some(o) { TouchesLive(states[k], steps[k]); }
  }

  // ------------------------------------------------------------------------
  // No wake is invented
  // ------------------------------------------------------------------------

  /** Successful waits on o. */
  function Takes(steps: seq<Step>, o: Obj): nat {
    if steps == [] then 0
    else Takes(steps[..|steps| - 1], o) + (if steps[|steps| - 1].Take? && steps[|steps| - 1].obj == o then 1 else 0)
  }

  /** Posts, sets and undone waits on o. */
  function Gifts(steps: seq<Step>, o: Obj): nat {
    if steps == [] then 0
    else Gifts(steps[..|steps| - 1], o) + (if steps[|steps| - 1].Give? && steps[|steps| - 1].obj == o then 1 else 0)
  }

  /** A post to a semaphore that is already at its greatest value. */
  predicate Overflows(s: State, step: Step, o: Obj) {
    step.Give? && step.obj == o < |s.objs| && s.objs[o].body == SemBody(SEM_VALUE_MAX)
  }

  /** Posts on o that were lost that way. */
  function Lost(states: seq<State>, steps: seq<Step>, o: Obj): nat
    requires |steps| <= |states|
  {
    if steps == [] then 0
    else
      var n := |steps| - 1;
      Lost(states, steps[..n], o) + (if Overflows(states[n], steps[n], o) then 1 else 0)
  }

  function Flag(b: bool): nat { if b then 1 else 0 }

  /** A recursive mutex has an owner exactly while it is locked, and a semaphore keeps to its greatest value. */
  ghost predicate Sound(b: Body) {
    && (b.MutexBody? ==> (b.owner == None <==> b.depth == 0))
    && (b.SemBody? ==> b.value <= SEM_VALUE_MAX)
  }

  /** The account of one object after some steps. */
  ghost predicate Accounted(x: ObjState, takes: nat, gifts: nat, lost: nat) {
    && KindOf(x.body) == KindOf(x.born)
    && (x.body.SemBody? ==> x.body.value + takes + lost == x.born.value + gifts)
    && (x.body.EventBody? ==> x.body.manual == x.born.manual)
    && (x.body.FindBody? ==> x.body.count == x.born.count)
    && Sound(x.body)
    && (x.body.EventBody? && !x.body.manual ==> takes + Flag(x.body.signaled) <= Flag(x.born.signaled) + gifts)
  }

  lemma StepAccounted(s: State, step: Step, o: Obj, takes: nat, gifts: nat, lost: nat)
    requires Enabled(s, step) && o < |s.objs| && Accounted(s.objs[o], takes, gifts, lost)
    ensures o < |Exec(s, step).objs|
    ensures Accounted(Exec(s, step).objs[o],
                      takes + (if step.Take? && step.obj == o then 1 else 0),
                      gifts + (if step.Give? && step.obj == o then 1 else 0),
                      lost + (if Overflows(s, step, o) then 1 else 0))
  {
    ExecBody(s, step, o);
    var x := Exec(s, step).objs[o];
    hide Exec;
  }

  /** An object that a step makes starts with a clean account; one that is not there yet is not acted on. */
  lemma NewAccounted(s: State, step: Step, o: Obj)
    requires Enabled(s, step) && o >= |s.objs|
    ensures o < |Exec(s, step).objs| ==> Accounted(Exec(s, step).objs[o], 0, 0, 0)
    ensures !(step.Take? && step.obj == o) && !(step.Give? && step.obj == o) && !Overflows(s, step, o)
  {
  }

  lemma TotalsStep(states: seq<State>, steps: seq<Step>, k: nat, o: Obj)
    requires k < |steps| && |steps| <= |states|
    ensures Takes(steps[..k + 1], o) == Takes(steps[..k], o) + (if steps[k].Take? && steps[k].obj == o then 1 else 0)
    ensures Gifts(steps[..k + 1], o) == Gifts(steps[..k], o) + (if steps[k].Give? && steps[k].obj == o then 1 else 0)
    ensures Lost(states, steps[..k + 1], o)
         == Lost(states, steps[..k], o) + (if Overflows(states[k], steps[k], o) then 1 else 0)
  {
    assert steps[..k + 1][..k] == steps[..k];
    hide Overflows;
  }

  lemma {:induction false} RunAccounted(states: seq<State>, steps: seq<Step>, k: nat, o: Obj)
    requires IsRun(states, steps) && k <= |steps|
    ensures o < |states[k].objs| ==>
      Accounted(states[k].objs[o], Takes(steps[..k], o), Gifts(steps[..k], o), Lost(states, steps[..k], o))
    ensures o >= |states[k].objs| ==> Takes(steps[..k], o) == Gifts(steps[..k], o) == Lost(states, steps[..k], o) == 0
  {
    if k > 0 {
      var s, step := states[k - 1], steps[k - 1];
      assert Enabled(s, step) && states[k] == Exec(s, step);
      RunAccounted(states, steps, k - 1, o);
      hide IsRun, Enabled, Exec, Accounted, Overflows, Takes, Gifts, Lost;
      TotalsStep(states, steps, k - 1, o);
      if o < |s.objs| {
        StepAccounted(s, step, o, Takes(steps[..k - 1], o), Gifts(steps[..k - 1], o), Lost(states, steps[..k - 1], o));
      } else {
        NewAccounted(s, step, o);
      }
    }
  }

  /** Over every interleaving a semaphore's value is what it started with plus the posts that were not lost to its
      greatest value, less successful waits; an auto-reset event lets through no more waits than it was signalled. */
  lemma NoWakeInvented(states: seq<State>, steps: seq<Step>, k: nat, o: Obj)
    requires IsRun(states, steps) && k <= |steps| && o < |states[k].objs|
    ensures var x := states[k].objs[o];
      && KindOf(x.body) == KindOf(x.born)
      && (x.body.SemBody? ==>
            x.body.value == x.born.value + Gifts(steps[..k], o) - Lost(states, steps[..k], o) - Takes(steps[..k], o))
      && Sound(x.body)
      && (x.body.EventBody? && !x.body.manual ==>
            Takes(steps[..k], o) + Flag(x.body.signaled) <= Flag(x.born.signaled) + Gifts(steps[..k], o))
  {
    RunAccounted(states, steps, k, o);
  }
}
