/** What the wrapper system guarantees across frames: the registry of running coroutines
    follows the task, a pending future ends the frame without resuming the coroutine, a
    program whose bindings ask for the types their futures produce never panics, and
    `sleep` / `next_frame` suspend for as long as they promise. */
module DriverProperties {
  import opened Wrappers
  import opened Runtime
  import opened Driver

  // ----- the registry follows the task -----

  /** The task's name is in `RunningTask::systems` exactly while the task holds a coroutine. */
  predicate Registered(st: TaskState, systems: set<string>, id: string)
  {
    st.coroutine.Some? <==> id in systems
  }

  /** How the polling loop can end: on completion the task is emptied and its name
      removed; otherwise the coroutine keeps its program, the registry is untouched, a
      suspension leaves a future to poll and a panic leaves none and poisons the coroutine. */
  lemma {:induction false} RunLoopShape(st: TaskState, systems: set<string>, id: string, now: int)
    requires Resumable(st)
    ensures var r := RunLoop(st, systems, id, now);
      Startable(r.state) &&
      r.systems == (if r.outcome.Completed? then systems - {id} else systems) &&
      (r.outcome.Completed? <==> r.state.coroutine.None?) &&
      (r.outcome.Completed? ==> r.state.fut.None?) &&
      (r.outcome.Suspended? ==> r.state.fut.Some?) &&
      (r.outcome.SystemPanicked? ==> r.state.fut.None? && r.state.coroutine.value.poisoned) &&
      (r.state.coroutine.Some? ==> r.state.coroutine.value.program == st.coroutine.value.program)
    decreases Remaining(st)
  {
    if st.fut.Some? && PollAt(st.fut.value, now).0.Pending? {
    } else {
      var asyncResult := if st.fut.Some? then Some(PollAt(st.fut.value, now).0.value) else None;
      var resumed := ResumeSpec(st.coroutine.value, true, asyncResult, now);
      if resumed.0.Yielded? {
        RunLoopShape(TaskState(Some(resumed.1), Some(resumed.0.fut)), systems, id, now);
      }
    }
  }

  /** One frame keeps the registry in step with the task and changes no other name in it;
      the task it leaves may be given to the next frame. */
  lemma TickKeepsRegistry(st: TaskState, systems: set<string>, id: string, program: seq<Step>, now: int)
    requires Startable(st) && Registered(st, systems, id)
    ensures var r := TickSpec(st, systems, id, program, now);
      Registered(r.state, r.systems, id) && r.systems - {id} == systems - {id} && Startable(r.state)
  {
    if st.coroutine.None? {
      RunLoopShape(st.(coroutine := Some(Coroutine(program, 0, false))), systems + {id}, id, now);
    } else {
      RunLoopShape(st, systems, id, now);
    }
  }

  /** The first frame creates the coroutine from the system body and registers the name;
      a later frame resumes the stored coroutine, whatever body it is given. */
  lemma {:induction false} FirstTickStarts(st: TaskState, systems: set<string>, id: string, program: seq<Step>, now: int)
    requires st.coroutine.None?
    ensures var r := TickSpec(st, systems, id, program, now);
      (r.outcome.Completed? ==> r.systems == systems - {id} && r.state == TaskState(None, None)) &&
      (!r.outcome.Completed? ==> r.systems == systems + {id} && r.state.coroutine.Some? &&
                                 r.state.coroutine.value.program == program)
  {
    RunLoopShape(st.(coroutine := Some(Coroutine(program, 0, false))), systems + {id}, id, now);
  }

  lemma LaterTickIgnoresBody(st: TaskState, systems: set<string>, id: string, program: seq<Step>, other: seq<Step>, now: int)
    requires st.coroutine.Some? && Startable(st)
    ensures TickSpec(st, systems, id, program, now) == TickSpec(st, systems, id, other, now)
  {
  }

  /** A future that is still pending ends the frame at once: the coroutine is not resumed,
      and only the future (as the poll left it) changes. */
  lemma PendingDoesNotResume(st: TaskState, systems: set<string>, id: string, program: seq<Step>, now: int)
    requires st.coroutine.Some? && Startable(st)
    requires st.fut.Some? && PollAt(st.fut.value, now).0.Pending?
    ensures TickSpec(st, systems, id, program, now)
         == TickResult(Suspended, TaskState(st.coroutine, Some(PollAt(st.fut.value, now).1)), systems)
  {
  }

  // ----- well-typed programs do not panic -----

  /** The type of the value a suspension resumes with. */
  function SpecTag(spec: FutureSpec): TypeTag
  {
    match spec
    case SleepFor(_) => InstantType
    case NextFrameSpec => UnitType
    case ReadyWith(v) => TagOf(v)
  }

  lemma LaunchTag(spec: FutureSpec, now: int)
    ensures OutputTag(Launch(spec, now)) == SpecTag(spec)
  {
  }

  /** Every `let p: R = yield e` names the type `e` produces. */
  predicate WellTyped(program: seq<Step>)
  {
    forall k :: 0 <= k < |program| && program[k].use.Bind? ==> program[k].use.tag == SpecTag(program[k].suspend)
  }

  /** The task between two frames: either empty, or suspended after its `pc`-th
      suspension on a future of the type that suspension asked for. */
  predicate AtRest(st: TaskState, program: seq<Step>)
  {
    (st.coroutine.None? && st.fut.None?) ||
    (st.coroutine.Some? && st.coroutine.value.program == program && !st.coroutine.value.poisoned &&
     1 <= st.coroutine.value.pc <= |program| && st.fut.Some? &&
     OutputTag(st.fut.value) == SpecTag(program[st.coroutine.value.pc - 1].suspend))
  }

  /** The task inside the polling loop: the coroutine has made `pc` suspensions and holds
      a future of the type the last of them asked for (none before the first). */
  predicate Running(st: TaskState, program: seq<Step>)
  {
    st.coroutine.Some? && st.coroutine.value.program == program && !st.coroutine.value.poisoned &&
    st.coroutine.value.pc <= |program| &&
    (st.coroutine.value.pc == 0 ==> st.fut.None?) &&
    (st.coroutine.value.pc > 0 ==>
       st.fut.Some? && OutputTag(st.fut.value) == SpecTag(program[st.coroutine.value.pc - 1].suspend))
  }

  lemma {:induction false} RunLoopWellTyped(st: TaskState, systems: set<string>, id: string, program: seq<Step>, now: int)
    requires WellTyped(program) && Running(st, program)
    ensures Resumable(st)
    ensures var r := RunLoop(st, systems, id, now);
      !r.outcome.SystemPanicked? && AtRest(r.state, program) &&
      (r.outcome.Suspended? <==> r.state.coroutine.Some?)
    decreases Remaining(st)
  {
    var co := st.coroutine.value;
    if st.fut.Some? {
      PollKeepsOutputTag(st.fut.value, now);
    }
    if st.fut.Some? && PollAt(st.fut.value, now).0.Pending? {
    } else {
      var asyncResult := if st.fut.Some? then Some(PollAt(st.fut.value, now).0.value) else None;
      var resumed := ResumeSpec(co, true, asyncResult, now);
      if co.pc < |program| {
        LaunchTag(program[co.pc].suspend, now);
        assert resumed.0.Yielded?;
        RunLoopWellTyped(TaskState(Some(resumed.1), Some(resumed.0.fut)), systems, id, program, now);
      }
    }
  }

  /** A frame over a well-typed body never panics and leaves the task at rest: suspended
      exactly when it still holds a coroutine. */
  lemma TickNeverPanics(st: TaskState, systems: set<string>, id: string, program: seq<Step>, now: int)
    requires WellTyped(program) && AtRest(st, program)
    ensures Startable(st)
    ensures var r := TickSpec(st, systems, id, program, now);
      !r.outcome.SystemPanicked? && AtRest(r.state, program) &&
      (r.outcome.Suspended? <==> r.state.coroutine.Some?)
  {
    if st.coroutine.None? {
      RunLoopWellTyped(st.(coroutine := Some(Coroutine(program, 0, false))), systems + {id}, id, program, now);
    } else {
      RunLoopWellTyped(st, systems, id, program, now);
    }
  }

  // ----- a panic is final -----

  /** A frame always leaves a task the next frame may be given. */
  lemma TickLeavesStartable(st: TaskState, systems: set<string>, id: string, program: seq<Step>, now: int)
    requires Startable(st)
    ensures Startable(TickSpec(st, systems, id, program, now).state)
  {
    if st.coroutine.None? {
      RunLoopShape(st.(coroutine := Some(Coroutine(program, 0, false))), systems + {id}, id, now);
    } else {
      RunLoopShape(st, systems, id, now);
    }
  }

  /** The frames the system runs at the times `times`, one after another. */
  function RunFrames(st: TaskState, systems: set<string>, id: string, program: seq<Step>, times: seq<int>): (rs: seq<TickResult>)
    requires Startable(st)
    ensures |rs| == |times|
    decreases |times|
  {
    if times == [] then []
    else
      var r := TickSpec(st, systems, id, program, times[0]);
      TickLeavesStartable(st, systems, id, program, times[0]);
      [r] + RunFrames(r.state, r.systems, id, program, times[1..])
  }

  /** A coroutine with no pending future that has panicked panics again, at once, and
      nothing changes: not the task, not the registry. */
  lemma PoisonedStaysPanicked(st: TaskState, systems: set<string>, id: string, program: seq<Step>, now: int)
    requires st.coroutine.Some? && st.coroutine.value.poisoned && st.fut.None? && Startable(st)
    ensures TickSpec(st, systems, id, program, now) == TickResult(SystemPanicked(ResumedAfterPanic), st, systems)
  {
  }

  lemma {:induction false} PoisonedPanicsEveryFrame(st: TaskState, systems: set<string>, id: string, program: seq<Step>, times: seq<int>)
    requires st.coroutine.Some? && st.coroutine.value.poisoned && st.fut.None? && Startable(st)
    ensures forall i :: 0 <= i < |times| ==>
      RunFrames(st, systems, id, program, times)[i] == TickResult(SystemPanicked(ResumedAfterPanic), st, systems)
    decreases |times|
  {
    if times != [] {
      PoisonedStaysPanicked(st, systems, id, program, times[0]);
      PoisonedPanicsEveryFrame(st, systems, id, program, times[1..]);
    }
  }

  /** Once a frame panics, every later frame panics with "resumed after panicking" and
      leaves the task and the registry as the panicking frame left them; the panicking
      frame itself changes the registry only by registering a coroutine it created. */
  lemma AfterPanicEveryFrame(st: TaskState, systems: set<string>, id: string, program: seq<Step>, now: int, later: seq<int>)
    requires Startable(st) && TickSpec(st, systems, id, program, now).outcome.SystemPanicked?
    ensures var r := TickSpec(st, systems, id, program, now);
      r.systems == (if st.coroutine.None? then systems + {id} else systems) && Startable(r.state) &&
      forall i :: 0 <= i < |later| ==>
        RunFrames(r.state, r.systems, id, program, later)[i] == TickResult(SystemPanicked(ResumedAfterPanic), r.state, r.systems)
  {
    var r := TickSpec(st, systems, id, program, now);
    if st.coroutine.None? {
      RunLoopShape(st.(coroutine := Some(Coroutine(program, 0, false))), systems + {id}, id, now);
    } else {
      RunLoopShape(st, systems, id, now);
    }
    PoisonedPanicsEveryFrame(r.state, r.systems, id, program, later);
  }

  /** A coroutine suspended at a `let p: R = yield e` whose future becomes ready with a
      value that is not an `R` panics in `result` with the downcast message; the
      coroutine is poisoned, its future is gone and the registry is untouched. */
  lemma WrongBindPanics(st: TaskState, systems: set<string>, id: string, program: seq<Step>, now: int, tag: TypeTag)
    requires st.coroutine.Some? && !st.coroutine.value.poisoned
    requires 0 < st.coroutine.value.pc <= |st.coroutine.value.program|
    requires st.coroutine.value.program[st.coroutine.value.pc - 1].use == Bind(tag)
    requires st.fut.Some? && PollAt(st.fut.value, now).0.Ready?
    requires TagOf(PollAt(st.fut.value, now).0.value) != tag
    ensures Startable(st)
    ensures TickSpec(st, systems, id, program, now)
         == TickResult(SystemPanicked(DowncastFailed), TaskState(Some(st.coroutine.value.(poisoned := true)), None), systems)
  {
  }

  /** `let t: Instant = yield next_frame()`: the first frame suspends; the second panics
      with the downcast message and keeps the name registered; the third panics on the
      poisoned coroutine and changes nothing. */
  lemma MismatchedBindPanics(systems: set<string>, id: string, t1: int, t2: int, t3: int)
    ensures var program := [Step(NextFrameSpec, Bind(InstantType))];
      var r1 := TickSpec(TaskState(None, None), systems, id, program, t1);
      var r2 := TickSpec(r1.state, r1.systems, id, program, t2);
      var r3 := TickSpec(r2.state, r2.systems, id, program, t3);
      r1.outcome == Suspended &&
      r2.outcome == SystemPanicked(DowncastFailed) && id in r2.systems &&
      r3 == TickResult(SystemPanicked(ResumedAfterPanic), r2.state, r2.systems)
  {
  }

  // ----- suspensions that are ready at once -----

  /** Every suspension from the `from`-th on is on a future that is ready when first polled. */
  predicate ImmediateFrom(program: seq<Step>, from: nat)
  {
    forall k :: from <= k < |program| ==> program[k].suspend.ReadyWith?
  }

  lemma {:induction false} ImmediateRunCompletes(st: TaskState, systems: set<string>, id: string, program: seq<Step>, now: int)
    requires WellTyped(program) && Running(st, program)
    requires st.coroutine.value.pc > 0 ==> st.fut.value.Immediate?
    requires ImmediateFrom(program, st.coroutine.value.pc)
    ensures Resumable(st)
    ensures RunLoop(st, systems, id, now) == TickResult(Completed, TaskState(None, None), systems - {id})
    decreases Remaining(st)
  {
    var co := st.coroutine.value;
    var asyncResult := if st.fut.Some? then Some(PollAt(st.fut.value, now).0.value) else None;
    var resumed := ResumeSpec(co, true, asyncResult, now);
    if co.pc < |program| {
      LaunchTag(program[co.pc].suspend, now);
      assert resumed.0.Yielded?;
      ImmediateRunCompletes(TaskState(Some(resumed.1), Some(resumed.0.fut)), systems, id, program, now);
    }
  }

  /** A body whose every suspension is ready at once runs to completion in its first frame. */
  lemma ImmediateBodyCompletesAtOnce(systems: set<string>, id: string, program: seq<Step>, now: int)
    requires WellTyped(program) && ImmediateFrom(program, 0)
    ensures TickSpec(TaskState(None, None), systems, id, program, now)
         == TickResult(Completed, TaskState(None, None), systems - {id})
  {
    ImmediateRunCompletes(TaskState(Some(Coroutine(program, 0, false)), None), systems + {id}, id, program, now);
    assert (systems + {id}) - {id} == systems - {id};
  }

  // ----- sleep and next_frame across frames -----

  /** `yield sleep(d)` with `d > 0`: the first frame registers the name and suspends on a
      sleep until `t0 + d`; any frame before that stays suspended without change; the first
      frame at or after it completes and unregisters the name. */
  lemma SleepScenario(d: nat, systems: set<string>, id: string, t0: int, t1: int, t2: int)
    requires 0 < d && t1 < t0 + d <= t2
    ensures var program := [Step(SleepFor(d), Discard)];
      var r0 := TickSpec(TaskState(None, None), systems, id, program, t0);
      r0 == TickResult(Suspended, TaskState(Some(Coroutine(program, 1, false)), Some(Sleep(t0 + d))), systems + {id}) &&
      TickSpec(r0.state, r0.systems, id, program, t1) == r0 &&
      TickSpec(r0.state, r0.systems, id, program, t2) == TickResult(Completed, TaskState(None, None), systems - {id})
  {
    var program := [Step(SleepFor(d), Discard)];
    var s0 := TaskState(Some(Coroutine(program, 0, false)), None);
    var s1 := TaskState(Some(Coroutine(program, 1, false)), Some(Sleep(t0 + d)));
    assert RunLoop(s0, systems + {id}, id, t0) == RunLoop(s1, systems + {id}, id, t0);
    assert (systems + {id}) - {id} == systems - {id};
  }

  /** `yield sleep(0)` does not suspend across frames at all. */
  lemma ZeroSleepCompletesAtOnce(systems: set<string>, id: string, t0: int)
    ensures TickSpec(TaskState(None, None), systems, id, [Step(SleepFor(0), Discard)], t0)
         == TickResult(Completed, TaskState(None, None), systems - {id})
  {
  }

  /** `yield next_frame()` suspends for exactly one frame, whatever the clock says. */
  lemma NextFrameScenario(systems: set<string>, id: string, t0: int, t1: int)
    ensures var program := [Step(NextFrameSpec, Discard)];
      var r0 := TickSpec(TaskState(None, None), systems, id, program, t0);
      var r1 := TickSpec(r0.state, r0.systems, id, program, t1);
      r0.outcome == Suspended && r0.systems == systems + {id} && r0.state.fut == Some(NextFrame(false)) &&
      r1 == TickResult(Completed, TaskState(None, None), systems - {id})
  {
  }
}
