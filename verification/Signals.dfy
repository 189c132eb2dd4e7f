/** What a wait on a handle finds, told from the history of the object alone: no wake is lost and none is invented, a
    mutex has one holder, and a call does what it was made to do, in every interleaving (shim_kernel32_sync.hpp). */
module Signals {
  import opened Common
  import opened Handles

  // ------------------------------------------------------------------------
  // Histories
  // ------------------------------------------------------------------------

  /** A wake: a SetEvent, a ReleaseMutex, one post, or a wait undone. */
  predicate Gave(step: Step, o: Obj) { step.Give? && step.obj == o }

  predicate Took(step: Step, o: Obj) { step.Take? && step.obj == o }

  predicate Cleared(step: Step, o: Obj) { step.Clear? && step.obj == o }

  predicate Unlocks(step: Step, o: Obj) { (step.Give? || step.UnlockDying?) && step.obj == o }

  predicate ActsOn(step: Step, o: Obj) { Gave(step, o) || Took(step, o) || Cleared(step, o) || Unlocks(step, o) }

  /** What turns an event off: ResetEvent, and in an auto-reset event the wait that it lets through. */
  predicate TurnsOff(step: Step, o: Obj, manual: bool) { Cleared(step, o) || (!manual && Took(step, o)) }

  /** The event was set, or made set, and has not been turned off since. */
  ghost predicate Raised(steps: seq<Step>, o: Obj, manual: bool, born: bool) {
    || (born && forall i :: 0 <= i < |steps| ==> !TurnsOff(steps[i], o, manual))
    || (exists j :: 0 <= j < |steps| && Gave(steps[j], o)
                    && forall i :: j < i < |steps| ==> !TurnsOff(steps[i], o, manual))
  }

  /** How often thread u holds the mutex: waits that succeeded less releases, of which those past the last count for
      nothing. */
  function HeldBy(steps: seq<Step>, o: Obj, born: Body, u: Thread): nat
    requires born.MutexBody?
  {
    if steps == [] then (if born.owner == Some(u) then born.depth else 0)
    else
      var n, last := HeldBy(steps[..|steps| - 1], o, born, u), steps[|steps| - 1];
      if Took(last, o) && last.t == u then n + 1
      else if Unlocks(last, o) && last.t == u && n > 0 then n - 1
      else n
  }

  /** Posts less waits, with posts past 2^31 - 1 lost. */
  function Count(steps: seq<Step>, o: Obj, born: nat): int {
    if steps == [] then born
    else
      var n, last := Count(steps[..|steps| - 1], o, born), steps[|steps| - 1];
      if Gave(last, o) && n < 0x7fff_ffff then n + 1 else if Took(last, o) then n - 1 else n
  }

  /** The history lets thread t have the object. */
  ghost predicate MayHave(steps: seq<Step>, o: Obj, born: Body, t: Thread) {
    match born
    case MutexBody(_, _) => forall u: Thread :: u != t ==> HeldBy(steps, o, born, u) == 0
    case EventBody(manual, signaled) => Raised(steps, o, manual, signaled)
    case SemBody(value) => Count(steps, o, value) > 0
    case FindBody(_, _) => false
  }

  // ------------------------------------------------------------------------
  // One step
  // ------------------------------------------------------------------------

  lemma RaisedStep(steps: seq<Step>, step: Step, o: Obj, manual: bool, born: bool)
    ensures Raised(steps + [step], o, manual, born)
      <==> Gave(step, o) || (Raised(steps, o, manual, born) && !TurnsOff(step, o, manual))
  {
    hide Gave, TurnsOff;
    var all := steps + [step];
    var n := |steps|;
    assert all[n] == step && forall i :: 0 <= i < n ==> all[i] == steps[i];
    if Gave(step, o) {
      assert Gave(all[n], o);
    } else if Raised(steps, o, manual, born) && !TurnsOff(step, o, manual) {
      if j :| 0 <= j < n && Gave(steps[j], o) && forall i :: j < i < n ==> !TurnsOff(steps[i], o, manual) {
        assert Gave(all[j], o);
        forall i | j < i < |all| ensures !TurnsOff(all[i], o, manual) { if i < n { assert all[i] == steps[i]; } }
      }
    } else if Raised(all, o, manual, born) {
      RaisedBefore(steps, step, o, manual, born);
    }
  }

  lemma RaisedBefore(steps: seq<Step>, step: Step, o: Obj, manual: bool, born: bool)
    requires Raised(steps + [step], o, manual, born) && !Gave(step, o)
    ensures Raised(steps, o, manual, born) && !TurnsOff(step, o, manual)
  {
    hide Gave, TurnsOff;
    var all, n := steps + [step], |steps|;
    assert all[n] == step && forall i :: 0 <= i < n ==> all[i] == steps[i];
    if born && forall i :: 0 <= i < |all| ==> !TurnsOff(all[i], o, manual) {
      assert !TurnsOff(all[n], o, manual);
      forall i | 0 <= i < n ensures !TurnsOff(steps[i], o, manual) { assert !TurnsOff(all[i], o, manual); }
    } else {
      var j :| 0 <= j < |all| && Gave(all[j], o) && forall i :: j < i < |all| ==> !TurnsOff(all[i], o, manual);
      assert j < n && Gave(steps[j], o) && !TurnsOff(all[n], o, manual);
      forall i | j < i < n ensures !TurnsOff(steps[i], o, manual) { assert !TurnsOff(all[i], o, manual); }
    }
  }

  /** The body of an object is what its history says. */
  ghost predicate Told(x: ObjState, steps: seq<Step>, o: Obj) {
    match x.born
    case MutexBody(_, _) =>
      && x.body.MutexBody? && Sound(x.body)
      && forall u: Thread :: HeldBy(steps, o, x.born, u) == if x.body.owner == Some(u) then x.body.depth else 0
    case EventBody(manual, signaled) => x.body == EventBody(manual, Raised(steps, o, manual, signaled))
    case SemBody(value) => x.body.SemBody? && x.body.value == Count(steps, o, value)
    case FindBody(_, _) => x.body.FindBody?
  }

  /** What a step does to an object: only these four kinds of step do anything to one that can be waited on. */
  lemma BodyStep(s: State, step: Step, o: Obj)
    requires Enabled(s, step) && o < |s.objs| && !s.objs[o].body.FindBody?
    ensures var s' := Exec(s, step);
      && o < |s'.objs| && s'.objs[o].born == s.objs[o].born
      && (Took(step, o) ==> CanTake(s.objs[o].body, step.t) && s'.objs[o].body == Taken(s.objs[o].body, step.t))
      && (Gave(step, o) ==> s'.objs[o].body == Given(s.objs[o].body, step.t))
      && (Cleared(step, o) ==>
            s.objs[o].body.EventBody? && s'.objs[o].body == EventBody(s.objs[o].body.manual, false))
      && (step.UnlockDying? && step.obj == o ==> s'.objs[o].body == Unlocked(s.objs[o].body, step.t))
      && (!ActsOn(step, o) ==> s'.objs[o].body == s.objs[o].body)
  {
  }

  lemma EventTold(s: State, step: Step, o: Obj, steps: seq<Step>)
    requires Enabled(s, step) && o < |s.objs| && s.objs[o].born.EventBody? && Told(s.objs[o], steps, o)
    ensures o < |Exec(s, step).objs| && Told(Exec(s, step).objs[o], steps + [step], o)
  {
    BodyStep(s, step, o);
    var x, x' := s.objs[o], Exec(s, step).objs[o];
    hide Exec, Enabled, Raised;
    RaisedStep(steps, step, o, x.born.manual, x.born.signaled);
  }

  lemma SemTold(s: State, step: Step, o: Obj, steps: seq<Step>)
    requires Enabled(s, step) && o < |s.objs| && s.objs[o].born.SemBody? && Told(s.objs[o], steps, o)
    ensures o < |Exec(s, step).objs| && Told(Exec(s, step).objs[o], steps + [step], o)
  {
    BodyStep(s, step, o);
    hide Exec, Enabled;
    assert (steps + [step])[..|steps|] == steps;
  }

  lemma MutexTold(s: State, step: Step, o: Obj, steps: seq<Step>)
    requires Enabled(s, step) && o < |s.objs| && s.objs[o].born.MutexBody? && Told(s.objs[o], steps, o)
    ensures o < |Exec(s, step).objs| && Told(Exec(s, step).objs[o], steps + [step], o)
  {
    BodyStep(s, step, o);
    var x, x' := s.objs[o], Exec(s, step).objs[o];
    hide Exec, Enabled;
    assert (steps + [step])[..|steps|] == steps;
    forall u: Thread
      ensures HeldBy(steps + [step], o, x.born, u) == if x'.body.owner == Some(u) then x'.body.depth else 0
    {
      assert HeldBy(steps, o, x.born, u) == if x.body.owner == Some(u) then x.body.depth else 0;
    }
  }

  lemma StepTold(s: State, step: Step, o: Obj, steps: seq<Step>)
    requires Enabled(s, step) && o < |s.objs| && Told(s.objs[o], steps, o)
    ensures o < |Exec(s, step).objs| && Told(Exec(s, step).objs[o], steps + [step], o)
  {
    match s.objs[o].born
    case MutexBody(_, _) => MutexTold(s, step, o, steps);
    case EventBody(_, _) => EventTold(s, step, o, steps);
    case SemBody(_) => SemTold(s, step, o, steps);
    case FindBody(_, _) => ExecBody(s, step, o);
  }

  // ------------------------------------------------------------------------
  // Objects that are not there yet
  // ------------------------------------------------------------------------

  ghost predicate Unacted(steps: seq<Step>, o: Obj) { forall i :: 0 <= i < |steps| ==> !ActsOn(steps[i], o) }

  lemma {:induction false} UnactedHeld(steps: seq<Step>, o: Obj, born: Body, u: Thread)
    requires Unacted(steps, o) && born.MutexBody?
    ensures HeldBy(steps, o, born, u) == if born.owner == Some(u) then born.depth else 0
  {
    if steps != [] {
      assert !ActsOn(steps[|steps| - 1], o);
      UnactedHeld(steps[..|steps| - 1], o, born, u);
    }
  }

  lemma {:induction false} UnactedCount(steps: seq<Step>, o: Obj, born: nat)
    requires Unacted(steps, o)
    ensures Count(steps, o, born) == born
  {
    if steps != [] {
      assert !ActsOn(steps[|steps| - 1], o);
      UnactedCount(steps[..|steps| - 1], o, born);
    }
  }

  lemma NewTold(x: ObjState, steps: seq<Step>, o: Obj)
    requires Unacted(steps, o) && x.body == x.born && Sound(x.body)
    ensures Told(x, steps, o)
  {
    match x.born
    case MutexBody(_, _) =>
      forall u: Thread ensures HeldBy(steps, o, x.born, u) == if x.body.owner == Some(u) then x.body.depth else 0 {
        UnactedHeld(steps, o, x.born, u);
      }
    case EventBody(manual, signaled) =>
      forall i | 0 <= i < |steps| ensures !TurnsOff(steps[i], o, manual) && !Gave(steps[i], o) {
        assert !ActsOn(steps[i], o);
      }
    case SemBody(value) => UnactedCount(steps, o, value);
    case FindBody(_, _) =>
  }

  /** A step makes at most one object, as its constructor leaves it, and acts on none that is not there. */
  lemma CreatedBody(s: State, step: Step, o: Obj)
    requires Enabled(s, step) && o >= |s.objs|
    ensures !ActsOn(step, o) && |Exec(s, step).objs| >= |s.objs|
    ensures o < |Exec(s, step).objs| ==>
      Exec(s, step).objs[o].body == Exec(s, step).objs[o].born && Sound(Exec(s, step).objs[o].body)
  {
  }

  // ------------------------------------------------------------------------
  // Whole runs
  // ------------------------------------------------------------------------

  lemma {:induction false} RunTold(states: seq<State>, steps: seq<Step>, k: nat, o: Obj)
    requires IsRun(states, steps) && k <= |steps|
    ensures o < |states[k].objs| ==> Told(states[k].objs[o], steps[..k], o)
    ensures o >= |states[k].objs| ==> Unacted(steps[..k], o)
  {
    hide Told, ActsOn;
    if k > 0 {
      var s, step := states[k - 1], steps[k - 1];
      assert Enabled(s, step) && states[k] == Exec(s, step);
      hide IsRun, Enabled, Exec;
      RunTold(states, steps, k - 1, o);
      assert steps[..k] == steps[..k - 1] + [step];
      if o < |s.objs| {
        StepTold(s, step, o, steps[..k - 1]);
      } else {
        CreatedBody(s, step, o);
        if o < |states[k].objs| { NewTold(states[k].objs[o], steps[..k], o); }
      }
    }
  }

  /** In every run and at every moment, a thread that is waiting on an object can have it if and only if the object's
      history lets it. */
  lemma WaitSucceedsIff(states: seq<State>, steps: seq<Step>, k: nat, t: Thread, o: Obj)
    requires IsRun(states, steps) && k <= |steps| && Holds(states[k], t, o, Wait)
    ensures Enabled(states[k], Take(t, o)) <==> MayHave(steps[..k], o, states[k].objs[o].born, t)
  {
    RunTold(states, steps, k, o);
    hide IsRun, Exec, HeldBy, Count, Raised;
    var x := states[k].objs[o];
    if x.born.MutexBody? {
      MutexFree(x, steps[..k], o, t);
    }
  }

  lemma MutexFree(x: ObjState, steps: seq<Step>, o: Obj, t: Thread)
    requires x.born.MutexBody? && Told(x, steps, o)
    ensures CanTake(x.body, t) <==> forall u: Thread :: u != t ==> HeldBy(steps, o, x.born, u) == 0
  {
    hide HeldBy;
    var owner := x.body.owner;
    forall u: Thread ensures HeldBy(steps, o, x.born, u) == if owner == Some(u) then x.body.depth else 0 {}
    if owner != None {
      assert owner == Some(owner.value) && x.body.depth > 0;
      assert HeldBy(steps, o, x.born, owner.value) > 0;
    }
  }

  /** No wake is lost: an event that was set and not turned off since can be had by whoever waits on it. */
  lemma NoWakeLost(states: seq<State>, steps: seq<Step>, j: nat, k: nat, t: Thread, o: Obj)
    requires IsRun(states, steps) && j < k <= |steps| && Holds(states[k], t, o, Wait)
    requires states[k].objs[o].born.EventBody? && Gave(steps[j], o)
    requires forall i :: j < i < k ==> !TurnsOff(steps[i], o, states[k].objs[o].born.manual)
    ensures Enabled(states[k], Take(t, o))
  {
    hide Enabled, Exec;
    WaitSucceedsIff(states, steps, k, t, o);
    var past, manual := steps[..k], states[k].objs[o].born.manual;
    assert Gave(past[j], o) && forall i :: j < i < |past| ==> !TurnsOff(past[i], o, manual);
  }

  /** Mutual exclusion: in every run no two threads hold a mutex. */
  lemma OneHolder(states: seq<State>, steps: seq<Step>, k: nat, o: Obj, u: Thread, v: Thread)
    requires IsRun(states, steps) && k <= |steps| && o < |states[k].objs| && states[k].objs[o].born.MutexBody?
    requires HeldBy(steps[..k], o, states[k].objs[o].born, u) > 0
    requires HeldBy(steps[..k], o, states[k].objs[o].born, v) > 0
    ensures u == v
  {
    hide IsRun, Exec, HeldBy;
    RunTold(states, steps, k, o);
  }

  // ------------------------------------------------------------------------
  // What a call does
  // ------------------------------------------------------------------------

  datatype Work = Work(gives: nat, clears: nat, takes: nat)

  /** What thread t has done to o. */
  function WorkOf(steps: seq<Step>, t: Thread, o: Obj): Work {
    if steps == [] then Work(0, 0, 0)
    else
      var w, last := WorkOf(steps[..|steps| - 1], t, o), steps[|steps| - 1];
      if last.t != t then w
      else if Gave(last, o) then w.(gives := w.gives + 1)
      else if Cleared(last, o) then w.(clears := w.clears + 1)
      else if Took(last, o) then w.(takes := w.takes + 1)
      else w
  }

  /** The wakes that a call is made for: n of ReleaseSemaphore(n), one of the others that give. */
  function Due(op: Op): nat {
    match op
    case Post(n) => n
    case Set => 1
    case Unlock => 1
    case Undo => 1
    case _ => 0
  }

  /** A call made as op that is now at cur has done w: what is still to do and what is done add up, and a call that is
      done has given what it was made for, cleared once if it is a ResetEvent, and taken the object if it says so. */
  ghost predicate Underway(op: Op, cur: Op, w: Work) {
    && w.gives + Due(cur) == Due(op)
    && w.clears + (if cur.Reset? then 1 else 0) == (if op.Reset? then 1 else 0)
    && w.takes == (if cur.Done? && cur.acquired then 1 else 0)
    && (cur.Done? || cur == op || (cur.Post? && op.Post?) || (op.Next? && (cur.Fetch? || cur.Store?)))
    && (cur.Done? && cur.acquired ==> op.Wait?)
    && !op.Fetch? && !op.Store? && !op.Done?
  }

  /** Thread t holds o for a call made as op, and has done w so far. */
  ghost predicate Working(s: State, t: Thread, o: Obj, op: Op, w: Work) {
    t < |s.calls| && s.calls[t].Holding? && s.calls[t].obj == o && Underway(op, s.calls[t].op, w)
  }

  /** What one step of its own does to a call that holds an object. */
  lemma OwnStep(s: State, step: Step, o: Obj)
    requires Enabled(s, step) && s.calls[step.t].Holding? && s.calls[step.t].obj == o && !step.Release?
    ensures step.t < |Exec(s, step).calls|
    ensures var c, c' := s.calls[step.t].op, Exec(s, step).calls[step.t];
      && c'.Holding? && c'.obj == o
      && (Gave(step, o) ==> Gives(c) && c'.op == if c.Post? then Post(c.left - 1) else Done(false))
      && (Took(step, o) ==> c.Wait? && c'.op == Done(true))
      && (Cleared(step, o) ==> c.Reset? && c'.op == Done(false))
      && (!Gave(step, o) && !Took(step, o) && !Cleared(step, o) ==>
            || c'.op == c || ((c.Wait? || c == Post(0)) && c'.op == Done(false))
            || ((c.Next? || c.Fetch? || c.Store?) && (c'.op.Fetch? || c'.op.Store? || c'.op == Done(false))))
  {
  }

  lemma OtherStep(s: State, step: Step, t: Thread)
    requires Enabled(s, step) && t < |s.calls| && t != step.t
    ensures t < |Exec(s, step).calls| && Exec(s, step).calls[t] == s.calls[t]
  {
  }

  lemma CallStep(s: State, step: Step, t: Thread, o: Obj, op: Op, steps: seq<Step>)
    requires Enabled(s, step) && Working(s, t, o, op, WorkOf(steps, t, o)) && !(step.Release? && step.t == t)
    ensures Working(Exec(s, step), t, o, op, WorkOf(steps + [step], t, o))
  {
    hide Exec, Underway, WorkOf, Gave, Took, Cleared;
    assert step.t < |s.calls|;
    hide Enabled;
    DoneMore(steps, step, t, o);
    if step.t == t {
      OwnStep(s, step, o);
      if Gave(step, o) {
        GaveMore(op, s.calls[t].op, WorkOf(steps, t, o));
      } else {
        MovedOn(op, s.calls[t].op, Exec(s, step).calls[t].op, WorkOf(steps, t, o), Took(step, o), Cleared(step, o));
      }
    } else {
      OtherStep(s, step, t);
    }
  }

  lemma DoneMore(steps: seq<Step>, step: Step, t: Thread, o: Obj)
    ensures var w, w' := WorkOf(steps, t, o), WorkOf(steps + [step], t, o);
      && (step.t != t ==> w' == w)
      && (step.t == t && Gave(step, o) ==> w' == w.(gives := w.gives + 1))
      && (step.t == t && Cleared(step, o) ==> w' == w.(clears := w.clears + 1))
      && (step.t == t && Took(step, o) ==> w' == w.(takes := w.takes + 1))
      && (!Gave(step, o) && !Cleared(step, o) && !Took(step, o) ==> w' == w)
      && !(Took(step, o) && Cleared(step, o)) && !(Took(step, o) && Gave(step, o))
      && !(Gave(step, o) && Cleared(step, o))
  {
    assert (steps + [step])[..|steps|] == steps;
  }

  lemma GaveMore(op: Op, c: Op, w: Work)
    requires Underway(op, c, w) && Gives(c)
    ensures Underway(op, if c.Post? then Post(c.left - 1) else Done(false), w.(gives := w.gives + 1))
  {
  }

  /** A step that gives nothing. */
  lemma MovedOn(op: Op, c: Op, c': Op, w: Work, took: bool, cleared: bool)
    requires Underway(op, c, w) && !(took && cleared)
    requires took ==> c.Wait? && c' == Done(true)
    requires cleared ==> c.Reset? && c' == Done(false)
    requires !took && !cleared ==>
      || c' == c || ((c.Wait? || c == Post(0)) && c' == Done(false))
      || ((c.Next? || c.Fetch? || c.Store?) && (c'.Fetch? || c'.Store? || c' == Done(false)))
    ensures Underway(op, c', Work(w.gives, w.clears + (if cleared then 1 else 0), w.takes + (if took then 1 else 0)))
  {
  }

  lemma RetainStep(s: State, t: Thread, slot: nat, op: Op)
    requires Enabled(s, Retain(t, slot, op))
    ensures slot < |s.slots| && Working(Exec(s, Retain(t, slot, op)), t, s.slots[slot].obj, op, Work(0, 0, 0))
  {
  }

  /** From the step that retains the object to the one that lets it go, a call is always where its work says. */
  lemma {:induction false} CallDoes(states: seq<State>, steps: seq<Step>, i: nat, k: nat, t: Thread, slot: nat, op: Op)
    requires IsRun(states, steps) && i < k <= |steps| && steps[i] == Retain(t, slot, op)
    requires forall j :: i < j < k ==> !(steps[j].Release? && steps[j].t == t)
    ensures slot < |states[i].slots|
    ensures var o := states[i].slots[slot].obj; Working(states[k], t, o, op, WorkOf(steps[i + 1..k], t, o))
  {
    hide Enabled, Exec, Working;
    RunStep(states, steps, k - 1);
    hide IsRun;
    var s, step := states[k - 1], steps[k - 1];
    if k == i + 1 {
      assert steps[i + 1..k] == [];
      RetainStep(s, t, slot, op);
    } else {
      CallDoes(states, steps, i, k - 1, t, slot, op);
      assert steps[i + 1..k] == steps[i + 1..k - 1] + [step];
      CallStep(s, step, t, states[i].slots[slot].obj, op, steps[i + 1..k - 1]);
    }
  }

  lemma RunStep(states: seq<State>, steps: seq<Step>, k: nat)
    requires IsRun(states, steps) && k < |steps|
    ensures |states| == |steps| + 1 && Enabled(states[k], steps[k]) && states[k + 1] == Exec(states[k], steps[k])
  {
    hide Enabled, Exec;
  }

  /** ReleaseSemaphore(n) that is done has posted n times, and the others that give have given once. */
  lemma DoneGave(states: seq<State>, steps: seq<Step>, i: nat, k: nat, t: Thread, slot: nat, op: Op)
    requires IsRun(states, steps) && i < k <= |steps| && steps[i] == Retain(t, slot, op)
    requires forall j :: i < j < k ==> !(steps[j].Release? && steps[j].t == t)
    requires t < |states[k].calls| && states[k].calls[t].Holding? && states[k].calls[t].op.Done?
    ensures slot < |states[i].slots|
    ensures var w := WorkOf(steps[i + 1..k], t, states[i].slots[slot].obj);
      && (op.Post? ==> w.gives == op.left) && (op.Set? || op.Unlock? || op.Undo? ==> w.gives == 1)
      && (op.Reset? ==> w.gives == 0 && w.clears == 1)
      && (op.Wait? ==> w.gives == 0 && w.takes == if states[k].calls[t].op.acquired then 1 else 0)
  {
    CallDoes(states, steps, i, k, t, slot, op);
    hide IsRun;
  }
}
