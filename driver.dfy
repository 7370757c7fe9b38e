/** The wrapper system the macro emits around the coroutine: run once per frame, it
    creates the coroutine on the first call, then alternates between polling the future
    the coroutine is suspended on and resuming the coroutine, until a future is pending
    or the coroutine completes. */
module Driver {
  import opened Wrappers
  import opened Runtime

  /** The two fields of the task the driver reads and writes. */
  datatype TaskState = TaskState(coroutine: Option<Coroutine>, fut: Option<Future>)

  /** How a call of the wrapper system ends. */
  datatype Outcome =
    | Suspended               // a future was pending: wait for the next frame
    | Completed               // the coroutine returned
    | SystemPanicked(msg: string)

  datatype TickResult = TickResult(outcome: Outcome, state: TaskState, systems: set<string>)

  predicate Resumable(st: TaskState)
  {
    st.coroutine.Some? && st.coroutine.value.pc <= |st.coroutine.value.program|
  }

  /** Suspensions still ahead of the coroutine, plus one for its completion. */
  function Remaining(st: TaskState): nat
  {
    if Resumable(st) then |st.coroutine.value.program| - st.coroutine.value.pc + 1 else 0
  }

  /** The polling loop, from a state with a coroutine. */
  function RunLoop(st: TaskState, systems: set<string>, id: string, now: int): TickResult
    requires Resumable(st)
    decreases Remaining(st)
  {
    if st.fut.Some? && PollAt(st.fut.value, now).0.Pending? then
      TickResult(Suspended, st.(fut := Some(PollAt(st.fut.value, now).1)), systems)
    else
      var asyncResult := if st.fut.Some? then Some(PollAt(st.fut.value, now).0.value) else None;
      var resumed := ResumeSpec(st.coroutine.value, true, asyncResult, now);
      match resumed.0
      case Yielded(f) => RunLoop(TaskState(Some(resumed.1), Some(f)), systems, id, now)
      case Complete => TickResult(Completed, TaskState(None, None), systems - {id})
      case Panicked(m) => TickResult(SystemPanicked(m), TaskState(Some(resumed.1), None), systems)
  }

  /** A task the driver may be given: no coroutine yet, or one that is not past its end. */
  predicate Startable(st: TaskState)
  {
    st.coroutine.Some? ==> st.coroutine.value.pc <= |st.coroutine.value.program|
  }

  /** One call of the wrapper system. */
  function TickSpec(st: TaskState, systems: set<string>, id: string, program: seq<Step>, now: int): TickResult
    requires Startable(st)
  {
    if st.coroutine.None? then RunLoop(st.(coroutine := Some(Coroutine(program, 0, false))), systems + {id}, id, now)
    else RunLoop(st, systems, id, now)
  }

  /** The emitted wrapper function. `params` is the system's parameter bundle for this
      frame and `now` the time every `Instant::now()` of the frame reads. */
  method Tick<P>(task: Task, running: RunningTask, id: string, program: seq<Step>, params: P, now: int)
    returns (outcome: Outcome)
    requires Startable(TaskState(task.coroutine, task.fut))
    modifies task, running
    ensures TickResult(outcome, TaskState(task.coroutine, task.fut), running.systems)
         == TickSpec(old(TaskState(task.coroutine, task.fut)), old(running.systems), id, program, now)
    ensures running.registerSystems == old(running.registerSystems) && task.init == old(task.init)
  {
    ghost var expected := TickSpec(TaskState(task.coroutine, task.fut), running.systems, id, program, now);
    if task.coroutine.None? {
      task.coroutine := Some(Coroutine(program, 0, false));
      running.systems := running.systems + {id};
    }
    while true
      invariant Resumable(TaskState(task.coroutine, task.fut))
      invariant RunLoop(TaskState(task.coroutine, task.fut), running.systems, id, now) == expected
      invariant running.registerSystems == old(running.registerSystems) && task.init == old(task.init)
      decreases Remaining(TaskState(task.coroutine, task.fut))
    {
      var asyncResult: Option<AnyValue> := None;
      if task.fut.Some? {
        var polled := PollAt(task.fut.value, now);
        task.fut := Some(polled.1);
        match polled.0 {
          case Ready(v) =>
            asyncResult := Some(v);
            task.fut := None;
          case Pending =>
            return Suspended;
        }
      }
      var input := new TaskInput(Some(params), asyncResult);
      var res, co := Resume(task.coroutine.value, input, now);
      match res {
        case Yielded(f) =>
          task.coroutine := Some(co);
          task.fut := Some(f);
        case Complete =>
          task.coroutine := None;
          task.fut := None;
          running.systems := running.systems - {id};
          return Completed;
        case Panicked(m) =>
          task.coroutine := Some(co);
          return SystemPanicked(m);
      }
    }
  }
}
