/** FindNextFileW on a retained context: the test, the read of the name and the store of the next position are three
    steps with no lock around them (shim_kernel32_file.hpp:439-453). Exactly when every name read is one of the
    context's. */
module FindNext {
  import opened Common
  import opened Handles

  // ------------------------------------------------------------------------
  // Calls on one context
  // ------------------------------------------------------------------------

  /** About to test whether there is a next name. */
  predicate Tests(c: Call, o: Obj) { c == Holding(o, Next) }

  /** Past the test, about to read the position and the name there. */
  predicate Fetches(c: Call, o: Obj) { c == Holding(o, Fetch) }

  /** About to store the position after the one read. */
  predicate Stores(c: Call, o: Obj) { c.Holding? && c.obj == o && c.op.Store? }

  ghost function Testers(s: State, o: Obj): set<nat> { set t | 0 <= t < |s.calls| && Tests(s.calls[t], o) }

  ghost function Fetchers(s: State, o: Obj): set<nat> { set t | 0 <= t < |s.calls| && Fetches(s.calls[t], o) }

  predicate IsFind(s: State, o: Obj) { o < |s.objs| && s.objs[o].body.FindBody? }

  predicate Passes(s: State, step: Step, o: Obj) {
    step.Check? && step.obj == o && IsFind(s, o) && s.objs[o].body.next < s.objs[o].body.count
  }

  /** The greatest position there can be without another read: the context's, or one about to be stored. */
  function PeakOver(calls: seq<Call>, o: Obj, next: nat): nat {
    if calls == [] then next
    else
      var p, c := PeakOver(calls[..|calls| - 1], o, next), calls[|calls| - 1];
      if Stores(c, o) && c.op.index + 1 > p then c.op.index + 1 else p
  }

  function Peak(s: State, o: Obj): nat
    requires IsFind(s, o)
  {
    PeakOver(s.calls, o, s.objs[o].body.next)
  }

  predicate StoresAtMost(c: Call, o: Obj, p: nat) { Stores(c, o) ==> c.op.index + 1 <= p }

  lemma {:induction false} PeakOverIs(calls: seq<Call>, o: Obj, next: nat)
    ensures var p := PeakOver(calls, o, next);
      && next <= p && (forall t :: 0 <= t < |calls| ==> StoresAtMost(calls[t], o, p))
      && (p == next || exists t :: 0 <= t < |calls| && Stores(calls[t], o) && calls[t].op.index + 1 == p)
  {
    if calls != [] {
      var init, c := calls[..|calls| - 1], calls[|calls| - 1];
      PeakOverIs(init, o, next);
      var p := PeakOver(init, o, next);
      forall t | 0 <= t < |calls| ensures StoresAtMost(calls[t], o, PeakOver(calls, o, next)) {
        if t < |init| { assert StoresAtMost(init[t], o, p); }
      }
      if PeakOver(calls, o, next) == p && p != next {
        var t :| 0 <= t < |init| && Stores(init[t], o) && init[t].op.index + 1 == p;
        assert Stores(calls[t], o);
      }
    }
  }

  lemma PeakIs(s: State, o: Obj)
    requires IsFind(s, o)
    ensures var p := Peak(s, o);
      && s.objs[o].body.next <= p && (forall t :: 0 <= t < |s.calls| ==> StoresAtMost(s.calls[t], o, p))
      && (p == s.objs[o].body.next
          || exists t :: 0 <= t < |s.calls| && Stores(s.calls[t], o) && s.calls[t].op.index + 1 == p)
  {
    PeakOverIs(s.calls, o, s.objs[o].body.next);
  }

  lemma PeakAtMost(s: State, o: Obj, p: nat)
    requires IsFind(s, o) && s.objs[o].body.next <= p
    requires forall t :: 0 <= t < |s.calls| ==> StoresAtMost(s.calls[t], o, p)
    ensures Peak(s, o) <= p
  {
    hide Peak;
    PeakIs(s, o);
    if t :| 0 <= t < |s.calls| && Stores(s.calls[t], o) && s.calls[t].op.index + 1 == Peak(s, o) {
      assert StoresAtMost(s.calls[t], o, p);
    }
  }

  // ------------------------------------------------------------------------
  // One step
  // ------------------------------------------------------------------------

  /** A call that joins: it has just retained the context to read from it. */
  predicate Joins(s: State, step: Step, o: Obj) {
    step.Retain? && step.op.Next? && step.slot < |s.slots| && s.slots[step.slot].obj == o
  }

  predicate On(step: Step, o: Obj) { (step.Check? || step.FetchName? || step.StoreNext?) && step.obj == o }

  predicate Apart(c: Call, o: Obj) { !Tests(c, o) && !Fetches(c, o) && !Stores(c, o) }

  /** What a step does to its own call and to the position. */
  lemma StepCall(s: State, step: Step, o: Obj)
    requires InRange(s) && Enabled(s, step) && IsFind(s, o)
    ensures var s' := Exec(s, step);
      && IsFind(s', o) && |s'.calls| == |s.calls| && step.t < |s.calls|
      && (forall u :: 0 <= u < |s.calls| && u != step.t ==> s'.calls[u] == s.calls[u])
      && var c, c', f, f' := s.calls[step.t], s'.calls[step.t], s.objs[o].body, s'.objs[o].body;
      && f'.count == f.count
      && (step.Check? && step.obj == o ==>
            Tests(c, o) && f' == f && (if f.next < f.count then Fetches(c', o) else Apart(c', o)))
      && (step.FetchName? && step.obj == o ==> Fetches(c, o) && c' == Holding(o, Store(f.next)) && f' == f)
      && (step.StoreNext? && step.obj == o ==> Stores(c, o) && Apart(c', o) && f'.next == c.op.index + 1)
      && (Joins(s, step, o) ==> Apart(c, o) && Tests(c', o) && f' == f)
      && (!On(step, o) && !Joins(s, step, o) ==> Apart(c, o) && Apart(c', o) && f' == f)
  {
    hide Exec, Enabled, InRange;
    ExecCalls(s, step);
    StepBody(s, step, o);
    OwnCall(s, step, o);
    if Joins(s, step, o) || !On(step, o) { OtherCall(s, step, o); }
  }

  lemma OwnCall(s: State, step: Step, o: Obj)
    requires Enabled(s, step) && IsFind(s, o)
    ensures step.t < |s.calls| == |Exec(s, step).calls|
    ensures var c, c', f := s.calls[step.t], Exec(s, step).calls[step.t], s.objs[o].body;
      && (step.Check? && step.obj == o ==>
            Tests(c, o) && if f.next < f.count then Fetches(c', o) else Apart(c', o))
      && (step.FetchName? && step.obj == o ==> Fetches(c, o) && c' == Holding(o, Store(f.next)))
      && (step.StoreNext? && step.obj == o ==> Stores(c, o) && Apart(c', o))
  {
  }

  lemma OtherCall(s: State, step: Step, o: Obj)
    requires InRange(s) && Enabled(s, step) && IsFind(s, o) && !On(step, o)
    ensures step.t < |s.calls| == |Exec(s, step).calls|
    ensures Apart(s.calls[step.t], o)
    ensures if Joins(s, step, o) then Tests(Exec(s, step).calls[step.t], o) else Apart(Exec(s, step).calls[step.t], o)
  {
    OtherBefore(s, step, o);
    hide InRange;
  }

  lemma OtherBefore(s: State, step: Step, o: Obj)
    requires Enabled(s, step) && IsFind(s, o) && !On(step, o)
    ensures step.t < |s.calls| && Apart(s.calls[step.t], o)
  {
    hide Exec;
  }

  lemma StepBody(s: State, step: Step, o: Obj)
    requires Enabled(s, step) && IsFind(s, o)
    ensures var s' := Exec(s, step);
      && IsFind(s', o) && s'.objs[o].body.count == s.objs[o].body.count
      && (!(step.StoreNext? && step.obj == o) ==> s'.objs[o].body == s.objs[o].body)
      && (step.StoreNext? && step.obj == o ==> s'.objs[o].body.next == s.calls[step.t].op.index + 1)
  {
    ExecBody(s, step, o);
  }

  lemma SetsStep(s: State, s': State, t: Thread, o: Obj)
    requires |s'.calls| == |s.calls| && t < |s.calls|
    requires forall u :: 0 <= u < |s.calls| && u != t ==> s'.calls[u] == s.calls[u]
    ensures Fetchers(s', o) == if Fetches(s'.calls[t], o) then Fetchers(s, o) + {t} else Fetchers(s, o) - {t}
    ensures Testers(s', o) == if Tests(s'.calls[t], o) then Testers(s, o) + {t} else Testers(s, o) - {t}
    ensures t in Fetchers(s, o) <==> Fetches(s.calls[t], o)
    ensures t in Testers(s, o) <==> Tests(s.calls[t], o)
  {
  }

  /** The peak rises by at most one, and only when a position is read. */
  lemma PeakStep(s: State, step: Step, o: Obj)
    requires InRange(s) && Enabled(s, step) && IsFind(s, o)
    ensures IsFind(Exec(s, step), o)
    ensures Peak(Exec(s, step), o) <= Peak(s, o) + (if step.FetchName? && step.obj == o then 1 else 0)
  {
    var s' := Exec(s, step);
    StepCall(s, step, o);
    hide Exec, Enabled, InRange, Peak;
    PeakIs(s, o);
    var p := Peak(s, o) + (if step.FetchName? && step.obj == o then 1 else 0);
    assert StoresAtMost(s.calls[step.t], o, Peak(s, o));
    forall t | 0 <= t < |s'.calls| ensures StoresAtMost(s'.calls[t], o, p) {
      assert StoresAtMost(s.calls[t], o, Peak(s, o));
    }
    PeakAtMost(s', o, p);
  }

  // ------------------------------------------------------------------------
  // Safe states
  // ------------------------------------------------------------------------

  /** No call is past the test, or all that are can read one after the other without passing the names. */
  ghost predicate Safe(s: State, o: Obj)
    requires IsFind(s, o)
  {
    Fetchers(s, o) == {} || Peak(s, o) + |Fetchers(s, o)| <= s.objs[o].body.count
  }

  /** Every step but a passing test keeps a state safe. */
  lemma SafeStep(s: State, step: Step, o: Obj)
    requires InRange(s) && Enabled(s, step) && IsFind(s, o) && Safe(s, o) && !Passes(s, step, o)
    ensures IsFind(Exec(s, step), o) && Safe(Exec(s, step), o)
  {
    var s' := Exec(s, step);
    StepCall(s, step, o);
    PeakStep(s, step, o);
    hide Exec, Enabled, InRange, Peak;
    SetsStep(s, s', step.t, o);
    hide Fetchers, Testers;
  }

  /** In a safe state the next name read is one of the context's. */
  lemma SafeReads(s: State, t: Thread, o: Obj)
    requires Enabled(s, FetchName(t, o)) && Safe(s, o)
    ensures s.objs[o].body.next < s.objs[o].body.count
  {
    hide Peak;
    assert t in Fetchers(s, o);
    PeakIs(s, o);
  }

  // ------------------------------------------------------------------------
  // Schedules
  // ------------------------------------------------------------------------

  /** Any schedule of any callers' steps from a state on. */
  ghost predicate IsPath(states: seq<State>, steps: seq<Step>) {
    && |states| == |steps| + 1
    && forall i :: 0 <= i < |steps| ==> Goes(states[i], steps[i], states[i + 1])
  }

  ghost predicate Goes(s: State, step: Step, s': State) { Enabled(s, step) && s' == Exec(s, step) }

  /** The step reads a name of o past the last. */
  predicate Overreads(s: State, step: Step, o: Obj) {
    step.FetchName? && step.obj == o && IsFind(s, o) && s.objs[o].body.next >= s.objs[o].body.count
  }

  ghost predicate ReadsStay(states: seq<State>, steps: seq<Step>, o: Obj)
    requires |steps| <= |states|
  {
    forall k :: 0 <= k < |steps| ==> !Overreads(states[k], steps[k], o)
  }

  ghost predicate NoPass(states: seq<State>, steps: seq<Step>, o: Obj)
    requires |steps| <= |states|
  {
    forall k :: 0 <= k < |steps| ==> !Passes(states[k], steps[k], o)
  }

  ghost predicate NoJoin(states: seq<State>, steps: seq<Step>, o: Obj)
    requires |steps| <= |states|
  {
    forall k :: 0 <= k < |steps| ==> !Joins(states[k], steps[k], o)
  }

  lemma {:induction false} PathSafe(states: seq<State>, steps: seq<Step>, o: Obj, k: nat)
    requires IsPath(states, steps) && NoPass(states, steps, o) && k <= |steps|
    requires InRange(states[0]) && IsFind(states[0], o) && Safe(states[0], o)
    ensures InRange(states[k]) && IsFind(states[k], o) && Safe(states[k], o)
  {
    if k > 0 {
      PathSafe(states, steps, o, k - 1);
      var s, step := states[k - 1], steps[k - 1];
      assert Goes(s, step, states[k - 1 + 1]) && !Passes(s, step, o);
      ExecInRange(s, step);
      hide Exec, Enabled, InRange, Safe;
      SafeStep(s, step, o);
    }
  }

  lemma SafePath(states: seq<State>, steps: seq<Step>, o: Obj)
    requires IsPath(states, steps) && NoPass(states, steps, o)
    requires InRange(states[0]) && IsFind(states[0], o) && Safe(states[0], o)
    ensures ReadsStay(states, steps, o)
  {
    hide Exec, InRange, Safe, Enabled;
    forall k | 0 <= k < |steps| ensures !Overreads(states[k], steps[k], o) {
      PathSafe(states, steps, o, k);
      assert Goes(states[k], steps[k], states[k + 1]);
      if steps[k].FetchName? && steps[k].obj == o { SafeReads(states[k], steps[k].t, o); }
    }
  }

  lemma PathCons(s: State, step: Step, states: seq<State>, steps: seq<Step>)
    requires IsPath(states, steps) && Goes(s, step, states[0])
    ensures IsPath([s] + states, [step] + steps)
  {
    hide Goes;
    var ss, ts := [s] + states, [step] + steps;
    forall i | 0 <= i < |ts| ensures Goes(ss[i], ts[i], ss[i + 1]) {
      if i > 0 { assert Goes(states[i - 1], steps[i - 1], states[i - 1 + 1]); }
    }
  }

  // ------------------------------------------------------------------------
  // Unsafe states overrun
  // ------------------------------------------------------------------------

  /** A schedule of reads and stores alone whose last step reads past the names. */
  ghost predicate Overruns(states: seq<State>, steps: seq<Step>, o: Obj) {
    && IsPath(states, steps) && steps != []
    && (forall k :: 0 <= k < |steps| ==> On(steps[k], o))
    && Overreads(states[|steps| - 1], steps[|steps| - 1], o)
  }

  lemma OverrunCons(s: State, step: Step, states: seq<State>, steps: seq<Step>, o: Obj)
    requires Overruns(states, steps, o) && Goes(s, step, states[0]) && On(step, o)
    ensures Overruns([s] + states, [step] + steps, o)
  {
    hide Goes, On;
    PathCons(s, step, states, steps);
    var ss, ts := [s] + states, [step] + steps;
    assert ss[|ts| - 1] == states[|steps| - 1] && ts[|ts| - 1] == steps[|steps| - 1];
    forall k | 0 <= k < |ts| ensures On(ts[k], o) { if k > 0 { assert On(steps[k - 1], o); } }
  }

  ghost predicate NoChecks(steps: seq<Step>) { forall k :: 0 <= k < |steps| ==> !steps[k].Check? }

  /** Storing the greatest position about to be stored brings the context to the peak. */
  lemma StorePeak(s: State, o: Obj) returns (t: Thread)
    requires InRange(s) && IsFind(s, o) && s.objs[o].body.next < Peak(s, o)
    ensures Enabled(s, StoreNext(t, o))
    ensures var s' := Exec(s, StoreNext(t, o));
      && InRange(s') && IsFind(s', o) && s'.objs[o].body.next == Peak(s, o) == Peak(s', o)
      && s'.objs[o].body.count == s.objs[o].body.count && Fetchers(s', o) == Fetchers(s, o)
  {
    PeakIs(s, o);
    t :| 0 <= t < |s.calls| && Stores(s.calls[t], o) && s.calls[t].op.index + 1 == Peak(s, o);
    var step := StoreNext(t, o);
    var s' := Exec(s, step);
    ExecInRange(s, step);
    StepCall(s, step, o);
    PeakStep(s, step, o);
    hide Exec, Enabled, InRange, Peak;
    PeakIs(s', o);
    SetsStep(s, s', t, o);
  }

  /** One call reads and stores: the position moves by one, and one call fewer is past the test. */
  lemma ReadAndStore(s: State, o: Obj, t: Thread) returns (s1: State, s2: State)
    requires InRange(s) && IsFind(s, o) && s.objs[o].body.next == Peak(s, o) && t in Fetchers(s, o)
    ensures Goes(s, FetchName(t, o), s1) && Goes(s1, StoreNext(t, o), s2)
    ensures InRange(s2) && IsFind(s2, o) && s2.objs[o].body.next == Peak(s2, o) == Peak(s, o) + 1
    ensures s2.objs[o].body.count == s.objs[o].body.count && Fetchers(s2, o) == Fetchers(s, o) - {t}
  {
    s1 := Exec(s, FetchName(t, o));
    ExecInRange(s, FetchName(t, o));
    StepCall(s, FetchName(t, o), o);
    PeakStep(s, FetchName(t, o), o);
    s2 := Exec(s1, StoreNext(t, o));
    ExecInRange(s1, StoreNext(t, o));
    StepCall(s1, StoreNext(t, o), o);
    PeakStep(s1, StoreNext(t, o), o);
    hide Exec, Enabled, InRange, Peak;
    PeakIs(s2, o);
    SetsStep(s, s1, t, o);
    SetsStep(s1, s2, t, o);
  }

  /** From an unsafe state the calls past the test, taken one after the other, read past the names. */
  lemma {:induction false} UnsafeOverruns(s: State, o: Obj) returns (states: seq<State>, steps: seq<Step>)
    requires InRange(s) && IsFind(s, o) && !Safe(s, o)
    ensures Overruns(states, steps, o) && NoChecks(steps) && states[0] == s
    decreases if Peak(s, o) <= s.objs[o].body.count then s.objs[o].body.count - Peak(s, o) + 1 else 0,
              Peak(s, o) - s.objs[o].body.next
  {
    hide Exec, Enabled, InRange, Peak, Fetchers;
    PeakIs(s, o);
    var f := s.objs[o].body;
    if f.next < Peak(s, o) {
      var t := StorePeak(s, o);
      var s' := Exec(s, StoreNext(t, o));
      var rest, more := UnsafeOverruns(s', o);
      OverrunCons(s, StoreNext(t, o), rest, more, o);
      states, steps := [s] + rest, [StoreNext(t, o)] + more;
    } else {
      var t := SomeFetcher(s, o);
      if f.next >= f.count {
        states, steps := LastRead(s, t, o);
      } else {
        var s1, s2 := ReadAndStore(s, o, t);
        FewerFetchers(s, s2, o, t);
        var rest, more := UnsafeOverruns(s2, o);
        OverrunCons(s1, StoreNext(t, o), rest, more, o);
        OverrunCons(s, FetchName(t, o), [s1] + rest, [StoreNext(t, o)] + more, o);
        states, steps := [s] + ([s1] + rest), [FetchName(t, o)] + ([StoreNext(t, o)] + more);
      }
    }
  }

  lemma SomeFetcher(s: State, o: Obj) returns (t: Thread)
    requires Fetchers(s, o) != {}
    ensures t in Fetchers(s, o)
  {
    t :| t in Fetchers(s, o);
  }

  lemma FewerFetchers(s: State, s': State, o: Obj, t: Thread)
    requires t in Fetchers(s, o) && Fetchers(s', o) == Fetchers(s, o) - {t}
    ensures |Fetchers(s', o)| == |Fetchers(s, o)| - 1
  {
  }

  lemma LastRead(s: State, t: Thread, o: Obj) returns (states: seq<State>, steps: seq<Step>)
    requires IsFind(s, o) && t in Fetchers(s, o) && s.objs[o].body.next >= s.objs[o].body.count
    ensures Overruns(states, steps, o) && NoChecks(steps) && states[0] == s
  {
    var step := FetchName(t, o);
    states, steps := [s, Exec(s, step)], [step];
    assert Goes(states[0], steps[0], states[1]);
  }

  /** The exact condition: from any state, every schedule in which no further test passes reads only names of the
      context if and only if the state is safe. */
  lemma SafeIff(s: State, o: Obj)
    requires InRange(s) && IsFind(s, o)
    ensures Safe(s, o) <==>
      forall states, steps {:trigger IsPath(states, steps)} ::
        IsPath(states, steps) && states[0] == s && NoPass(states, steps, o) ==> ReadsStay(states, steps, o)
  {
    hide InRange, Safe, IsPath, NoPass, ReadsStay;
    if Safe(s, o) {
      forall states, steps |
          && IsPath(states, steps) && |states| > 0 && states[0] == s
          && |steps| <= |states| && NoPass(states, steps, o)
        ensures ReadsStay(states, steps, o)
      {
        SafePath(states, steps, o);
      }
      PathsNotEmpty();
    } else {
      var states, steps := UnsafeOverruns(s, o);
      OverrunStays(states, steps, o);
    }
  }

  lemma PathsNotEmpty()
    ensures forall states, steps {:trigger IsPath(states, steps)} :: IsPath(states, steps) ==> |states| == |steps| + 1
  {
  }

  lemma OverrunStays(states: seq<State>, steps: seq<Step>, o: Obj)
    requires Overruns(states, steps, o) && NoChecks(steps)
    ensures IsPath(states, steps) && |states| > 0 && NoPass(states, steps, o) && !ReadsStay(states, steps, o)
  {
  }

  // ------------------------------------------------------------------------
  // So many calls at once
  // ------------------------------------------------------------------------

  /** No call is past the test of the context. */
  ghost predicate Quiet(s: State, o: Obj) {
    Fetchers(s, o) == {} && forall t :: 0 <= t < |s.calls| ==> !Stores(s.calls[t], o)
  }

  lemma QuietPeak(s: State, o: Obj)
    requires IsFind(s, o) && Quiet(s, o)
    ensures Peak(s, o) == s.objs[o].body.next
  {
    hide Peak;
    PeakIs(s, o);
  }

  /** Enough names for the calls that are there and for those that will pass. */
  ghost predicate Ample(s: State, o: Obj)
    requires IsFind(s, o)
  {
    Peak(s, o) + |Fetchers(s, o)| + |Testers(s, o)| <= s.objs[o].body.count
  }

  lemma AmpleStep(s: State, step: Step, o: Obj)
    requires InRange(s) && Enabled(s, step) && IsFind(s, o) && Ample(s, o) && !Joins(s, step, o)
    ensures IsFind(Exec(s, step), o) && Ample(Exec(s, step), o)
  {
    var s' := Exec(s, step);
    StepCall(s, step, o);
    PeakStep(s, step, o);
    hide Exec, Enabled, InRange, Peak;
    SetsStep(s, s', step.t, o);
    hide Fetchers, Testers;
  }

  /** No name is left, and every test fails. */
  ghost predicate Spent(s: State, o: Obj)
    requires IsFind(s, o)
  {
    Quiet(s, o) && s.objs[o].body.next >= s.objs[o].body.count
  }

  lemma SpentStep(s: State, step: Step, o: Obj)
    requires InRange(s) && Enabled(s, step) && IsFind(s, o) && Spent(s, o)
    ensures IsFind(Exec(s, step), o) && Spent(Exec(s, step), o)
  {
    var s' := Exec(s, step);
    StepCall(s, step, o);
    hide Exec, Enabled, InRange;
    SetsStep(s, s', step.t, o);
    forall t | 0 <= t < |s'.calls| ensures !Stores(s'.calls[t], o) { assert !Stores(s.calls[t], o); }
  }

  /** The calls between retaining the context and being done with it. */
  ghost function Busy(s: State, o: Obj): set<nat> { set t | 0 <= t < |s.calls| && !Apart(s.calls[t], o) }

  /** One call at most, which has found a name if it is past the test. */
  ghost predicate Lone(s: State, o: Obj)
    requires IsFind(s, o)
  {
    |Busy(s, o)| <= 1 && (Fetchers(s, o) != {} ==> s.objs[o].body.next < s.objs[o].body.count)
  }

  lemma BusyStep(s: State, s': State, t: Thread, o: Obj)
    requires |s'.calls| == |s.calls| && t < |s.calls|
    requires forall u :: 0 <= u < |s.calls| && u != t ==> s'.calls[u] == s.calls[u]
    ensures Busy(s', o) == if Apart(s'.calls[t], o) then Busy(s, o) - {t} else Busy(s, o) + {t}
    ensures t in Busy(s, o) <==> !Apart(s.calls[t], o)
    ensures Fetchers(s, o) <= Busy(s, o) && Fetchers(s', o) <= Busy(s', o)
  {
  }

  lemma OnlyOne(a: set<nat>, t: nat)
    requires t in a && |a| <= 1
    ensures a == {t}
  {
    assert |a - {t}| == |a| - 1;
    assert a == {t} + (a - {t});
  }

  lemma LoneStep(s: State, step: Step, o: Obj)
    requires InRange(s) && Enabled(s, step) && IsFind(s, o) && Lone(s, o) && !Joins(s, step, o)
    ensures IsFind(Exec(s, step), o) && Lone(Exec(s, step), o)
  {
    var s' := Exec(s, step);
    StepCall(s, step, o);
    hide Exec, Enabled, InRange;
    SetsStep(s, s', step.t, o);
    BusyStep(s, s', step.t, o);
    if On(step, o) {
      OnlyOne(Busy(s, o), step.t);
      hide Busy, Fetchers, Testers;
    } else {
      hide Busy, Fetchers, Testers;
    }
  }

  /** One of the three holds throughout. */
  ghost predicate Sheltered(s: State, o: Obj) {
    IsFind(s, o) && InRange(s) && (Lone(s, o) || Spent(s, o) || Ample(s, o))
  }

  lemma ShelteredStep(s: State, step: Step, o: Obj)
    requires Sheltered(s, o) && Enabled(s, step) && !Joins(s, step, o)
    ensures Sheltered(Exec(s, step), o)
  {
    hide Exec, Enabled, InRange, Lone, Spent, Ample;
    ExecInRange(s, step);
    if Lone(s, o) {
      LoneStep(s, step, o);
    } else if Spent(s, o) {
      SpentStep(s, step, o);
    } else {
      AmpleStep(s, step, o);
    }
  }

  lemma ShelteredReads(s: State, t: Thread, o: Obj)
    requires Sheltered(s, o) && Enabled(s, FetchName(t, o))
    ensures s.objs[o].body.next < s.objs[o].body.count
  {
    hide Peak, InRange;
    assert t in Fetchers(s, o);
    PeakIs(s, o);
  }

  lemma {:induction false} ShelteredPath(states: seq<State>, steps: seq<Step>, o: Obj, k: nat)
    requires IsPath(states, steps) && NoJoin(states, steps, o) && Sheltered(states[0], o) && k <= |steps|
    ensures Sheltered(states[k], o)
  {
    if k > 0 {
      hide Sheltered, Exec, Enabled, Joins;
      ShelteredPath(states, steps, o, k - 1);
      assert Goes(states[k - 1], steps[k - 1], states[k - 1 + 1]) && !Joins(states[k - 1], steps[k - 1], o);
      ShelteredStep(states[k - 1], steps[k - 1], o);
    }
  }

  lemma ShelteredStays(states: seq<State>, steps: seq<Step>, o: Obj)
    requires IsPath(states, steps) && NoJoin(states, steps, o) && Sheltered(states[0], o)
    ensures ReadsStay(states, steps, o)
  {
    hide Sheltered, Exec, Enabled, Joins;
    forall k | 0 <= k < |steps| ensures !Overreads(states[k], steps[k], o) {
      ShelteredPath(states, steps, o, k);
      assert Goes(states[k], steps[k], states[k + 1]);
      if steps[k].FetchName? && steps[k].obj == o { ShelteredReads(states[k], steps[k].t, o); }
    }
  }

  /** One more call passes the test; nothing else changes. */
  lemma PassOne(s: State, o: Obj, t: Thread) returns (s': State)
    requires InRange(s) && IsFind(s, o) && s.objs[o].body.next < s.objs[o].body.count && t in Testers(s, o)
    ensures Goes(s, Check(t, o), s') && InRange(s') && IsFind(s', o) && s'.objs[o].body == s.objs[o].body
    ensures Fetchers(s', o) == Fetchers(s, o) + {t} && Testers(s', o) == Testers(s, o) - {t} && t !in Fetchers(s, o)
    ensures Peak(s', o) <= Peak(s, o)
  {
    var step := Check(t, o);
    s' := Exec(s, step);
    ExecInRange(s, step);
    StepCall(s, step, o);
    PeakStep(s, step, o);
    hide Exec, Enabled, InRange, Peak;
    SetsStep(s, s', t, o);
  }

  /** All the calls about to test pass first, and then read: past the names if there are too few for all of them. */
  lemma {:induction false} TogetherOverrun(s: State, o: Obj) returns (states: seq<State>, steps: seq<Step>)
    requires InRange(s) && IsFind(s, o) && s.objs[o].body.next < s.objs[o].body.count
    requires s.objs[o].body.next + |Fetchers(s, o)| + |Testers(s, o)| > s.objs[o].body.count
    requires Fetchers(s, o) != {} || Testers(s, o) != {}
    ensures Overruns(states, steps, o) && states[0] == s
    decreases |Testers(s, o)|
  {
    hide Exec, Enabled, InRange, Peak;
    if Testers(s, o) == {} {
      PeakIs(s, o);
      states, steps := UnsafeOverruns(s, o);
    } else {
      var t := SomeTester(s, o);
      var s' := PassOne(s, o, t);
      hide Fetchers, Testers;
      assert |Fetchers(s', o)| == |Fetchers(s, o)| + 1 && |Testers(s', o)| == |Testers(s, o)| - 1;
      var rest, more := TogetherOverrun(s', o);
      OverrunCons(s, Check(t, o), rest, more, o);
      states, steps := [s] + rest, [Check(t, o)] + more;
    }
  }

  lemma SomeTester(s: State, o: Obj) returns (t: Thread)
    requires Testers(s, o) != {}
    ensures t in Testers(s, o)
  {
    t :| t in Testers(s, o);
  }

  lemma QuietBusy(s: State, o: Obj)
    requires Quiet(s, o)
    ensures Busy(s, o) == Testers(s, o)
  {
    forall t | t in Busy(s, o) ensures t in Testers(s, o) {
      assert t !in Fetchers(s, o);
      assert !Fetches(s.calls[t], o);
    }
  }

  lemma OverrunJoins(states: seq<State>, steps: seq<Step>, o: Obj)
    requires Overruns(states, steps, o)
    ensures IsPath(states, steps) && |states| > 0 && NoJoin(states, steps, o) && !ReadsStay(states, steps, o)
  {
    forall k | 0 <= k < |steps| ensures !Joins(states[k], steps[k], o) { assert On(steps[k], o); }
  }

  /** For a caller: so many calls on one context, all about to test and no others to come, read only its names in every
      schedule if and only if there is at most one of them, or no name is left, or there is a name for each. */
  lemma AtOnceIff(s: State, o: Obj)
    requires InRange(s) && IsFind(s, o) && Quiet(s, o)
    ensures var k, f := |Testers(s, o)|, s.objs[o].body;
      (k <= 1 || f.next >= f.count || f.next + k <= f.count) <==>
      forall states, steps {:trigger IsPath(states, steps)} ::
        IsPath(states, steps) && states[0] == s && NoJoin(states, steps, o) ==> ReadsStay(states, steps, o)
  {
    var k, f := |Testers(s, o)|, s.objs[o].body;
    if k <= 1 || f.next >= f.count || f.next + k <= f.count {
      QuietPeak(s, o);
      QuietBusy(s, o);
      assert Sheltered(s, o);
      hide InRange, IsPath, NoJoin, ReadsStay, Sheltered;
      forall states, steps |
          && IsPath(states, steps) && |states| > 0 && states[0] == s
          && |steps| <= |states| && NoJoin(states, steps, o)
        ensures ReadsStay(states, steps, o)
      {
        ShelteredStays(states, steps, o);
      }
      PathsNotEmpty();
    } else {
      hide InRange, IsPath, NoJoin, ReadsStay;
      var states, steps := TogetherOverrun(s, o);
      OverrunJoins(states, steps, o);
    }
  }

  // ------------------------------------------------------------------------
  // Whole runs
  // ------------------------------------------------------------------------

  lemma NewSafe(s: State, step: Step, o: Obj)
    requires InRange(s) && Enabled(s, step) && o >= |s.objs| && IsFind(Exec(s, step), o)
    ensures Safe(Exec(s, step), o)
  {
    var s' := Exec(s, step);
    assert forall t :: 0 <= t < |s'.calls| ==> !Fetches(s'.calls[t], o);
    assert Fetchers(s', o) == {};
  }

  lemma FindStays(s: State, step: Step, o: Obj)
    requires Enabled(s, step) && o < |s.objs| && IsFind(Exec(s, step), o)
    ensures IsFind(s, o)
  {
    ExecBody(s, step, o);
  }

  lemma RunGoes(states: seq<State>, steps: seq<Step>, k: nat)
    requires IsRun(states, steps) && k < |steps|
    ensures InRange(states[k]) && Goes(states[k], steps[k], states[k + 1])
  {
    hide Exec, Enabled;
    RunInv(states, steps, k);
  }

  lemma NoneAtFirst(states: seq<State>, steps: seq<Step>, o: Obj)
    requires IsRun(states, steps)
    ensures !IsFind(states[0], o)
  {
    hide Exec, Enabled;
  }

  /** One step of a run, from a context that may just have been made. */
  lemma StepSafe(s: State, step: Step, o: Obj)
    requires InRange(s) && Enabled(s, step) && IsFind(Exec(s, step), o)
    requires o < |s.objs| ==> IsFind(s, o) && Safe(s, o) && !Passes(s, step, o)
    ensures Safe(Exec(s, step), o)
  {
    hide Exec, Enabled, Safe, InRange, IsFind;
    if o < |s.objs| { SafeStep(s, step, o); } else { NewSafe(s, step, o); }
  }

  /** In every run in which each test that passes leaves a safe state, every state is safe. */
  lemma {:induction false} RunSafe(states: seq<State>, steps: seq<Step>, n: nat, o: Obj)
    requires IsRun(states, steps) && n <= |steps| && IsFind(states[n], o)
    requires forall k :: 0 <= k < n && Passes(states[k], steps[k], o) ==>
               IsFind(states[k + 1], o) && Safe(states[k + 1], o)
    ensures Safe(states[n], o)
  {
    assert |states| == |steps| + 1;
    hide Exec, Enabled, Safe, InRange, IsRun, IsFind, Passes;
    if n == 0 {
      NoneAtFirst(states, steps, o);
    } else {
      var s, step := states[n - 1], steps[n - 1];
      RunGoes(states, steps, n - 1);
      if Passes(s, step, o) {
        assert Safe(states[n - 1 + 1], o);
      } else {
        if o < |s.objs| {
          FindStays(s, step, o);
          RunSafe(states, steps, n - 1, o);
        }
        StepSafe(s, step, o);
      }
    }
  }

  /** A test that passes with no other call past the test leaves a safe state. */
  lemma AlonePasses(s: State, step: Step, o: Obj)
    requires InRange(s) && Enabled(s, step) && Passes(s, step, o) && Quiet(s, o)
    ensures IsFind(Exec(s, step), o) && Safe(Exec(s, step), o)
  {
    var s' := Exec(s, step);
    StepCall(s, step, o);
    PeakStep(s, step, o);
    hide Exec, Enabled, InRange, Peak;
    QuietPeak(s, o);
    SetsStep(s, s', step.t, o);
  }

  /** So calls on one context that do not overlap read only its names, in every run. */
  lemma SerialisedReadsInRange(states: seq<State>, steps: seq<Step>, n: nat, o: Obj)
    requires IsRun(states, steps) && n < |steps|
    requires forall k :: 0 <= k < n && Passes(states[k], steps[k], o) ==> Quiet(states[k], o)
    ensures !Overreads(states[n], steps[n], o)
  {
    hide Exec, Safe, Quiet, ObjInv, InRange, Private;
    assert Enabled(states[n], steps[n]);
    if steps[n].FetchName? && steps[n].obj == o {
      forall k | 0 <= k < n && Passes(states[k], steps[k], o)
        ensures IsFind(states[k + 1], o) && Safe(states[k + 1], o)
      {
        RunInv(states, steps, k);
        assert Enabled(states[k], steps[k]) && states[k + 1] == Exec(states[k], steps[k]);
        hide Enabled, IsRun;
        AlonePasses(states[k], steps[k], o);
      }
      RunSafe(states, steps, n, o);
      SafeReads(states[n], steps[n].t, o);
    }
  }

  // ------------------------------------------------------------------------
  // A run that reads past the names
  // ------------------------------------------------------------------------

  lemma Opening() returns (s1: State, s2: State, s3: State, s4: State)
    ensures Goes(Init(2), Create(0, FindBody(2, 1)), s1) && Goes(s1, Insert(0, 3), s2)
    ensures Goes(s2, Retain(0, 3, Next), s3) && Goes(s3, Retain(1, 3, Next), s4)
    ensures s4.calls == [Holding(0, Next), Holding(0, Next)] && |s4.objs| == 1 && s4.objs[0].body == FindBody(2, 1)
  {
    s1 := Exec(Init(2), Create(0, FindBody(2, 1)));
    assert FirstFree(s1.slots, 3);
    s2 := Exec(s1, Insert(0, 3));
    assert s2.slots[3] == Slot(Find, 0) && s2.calls == [Idle, Idle];
    s3 := Exec(s2, Retain(0, 3, Next));
    assert s3.slots[3] == Slot(Find, 0) && s3.calls == [Holding(0, Next), Idle];
    s4 := Exec(s3, Retain(1, 3, Next));
  }

  /** Two names, the first of them already given out; two callers find that there is one more, and the second reads the
      position after it. */
  lemma Overrun() returns (states: seq<State>, steps: seq<Step>)
    ensures IsRun(states, steps) && |steps| == 9 && steps[8] == FetchName(1, 0)
    ensures IsFind(states[8], 0) && states[8].objs[0].body.next == states[8].objs[0].body.count == 2
  {
    hide Enabled, Exec, Init;
    var s1, s2, s3, s4 := Opening();
    var s5, s6, s7, s8, s9 := Racing(s4);
    states := [Init(2), s1, s2, s3, s4, s5, s6, s7, s8, s9];
    steps := [Create(0, FindBody(2, 1)), Insert(0, 3), Retain(0, 3, Next), Retain(1, 3, Next), Check(0, 0), Check(1, 0),
              FetchName(0, 0), StoreNext(0, 0), FetchName(1, 0)];
    forall i | 0 <= i < |steps| ensures Enabled(states[i], steps[i]) && states[i + 1] == Exec(states[i], steps[i]) {
      assert Goes(states[i], steps[i], states[i + 1]);
    }
  }

  lemma Racing(s: State) returns (s1: State, s2: State, s3: State, s4: State, s5: State)
    requires s.calls == [Holding(0, Next), Holding(0, Next)] && |s.objs| == 1 && s.objs[0].body == FindBody(2, 1)
    ensures Goes(s, Check(0, 0), s1)
    ensures Goes(s1, Check(1, 0), s2)
    ensures Goes(s2, FetchName(0, 0), s3)
    ensures Goes(s3, StoreNext(0, 0), s4)
    ensures Goes(s4, FetchName(1, 0), s5)
    ensures |s4.objs| == 1 && s4.objs[0].body == FindBody(2, 2)
  {
    s1 := Exec(s, Check(0, 0));
    assert s1.calls == [Holding(0, Fetch), Holding(0, Next)];
    s2 := Exec(s1, Check(1, 0));
    assert s2.calls == [Holding(0, Fetch), Holding(0, Fetch)];
    s3 := Exec(s2, FetchName(0, 0));
    assert s3.calls == [Holding(0, Store(1)), Holding(0, Fetch)];
    s4 := Exec(s3, StoreNext(0, 0));
    s5 := Exec(s4, FetchName(1, 0));
  }
}
