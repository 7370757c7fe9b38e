/** The runtime crate: the values futures produce, the two suspension futures, the
    coroutine input, the per-system task state and the registry of running coroutines. */
module Runtime {
  import opened Wrappers

  // ----- Box<dyn Any + Send> -----

  /** The type a boxed value was created with; `downcast::<R>` succeeds exactly when it is `R`. */
  datatype TypeTag = UnitType | InstantType | NamedType(name: string)

  /** The values the futures of this crate produce, and values of any other type. */
  datatype AnyValue =
    | UnitValue                                 // `()`, from `next_frame`
    | InstantValue(at: int)                     // an `Instant`, from `sleep`
    | OtherValue(tag: string, payload: seq<int>)

  function TagOf(v: AnyValue): TypeTag
  {
    match v
    case UnitValue => UnitType
    case InstantValue(_) => InstantType
    case OtherValue(tag, _) => NamedType(tag)
  }

  const DowncastFailed: string := "Failed to downcast async result"
  const DataMissing: string := "TaskInput data_ptr is None"

  /** `take().and_then(|v| v.downcast::<R>().ok()).expect(..)`: the stored value when it is
      present and has the requested type; a panic otherwise. */
  function Downcast(stored: Option<AnyValue>, tag: TypeTag): (r: Result<AnyValue, string>)
    ensures r.Success? <==> stored.Some? && TagOf(stored.value) == tag
    ensures r.Success? ==> r.value == stored.value
    ensures r.Failure? ==> r.error == DowncastFailed
  {
    if stored.Some? && TagOf(stored.value) == tag then Success(stored.value) else Failure(DowncastFailed)
  }

  // ----- the futures -----

  /** A suspended future. `Immediate` stands for any future that is ready when first
      polled (the example programs' `noop()`). */
  datatype Future =
    | Sleep(target: int)
    | NextFrame(firstPoll: bool)
    | Immediate(value: AnyValue)

  datatype Poll = Pending | Ready(value: AnyValue)

  /** `sleep(duration)` at time `now`: the target is fixed when the future is created. */
  function SleepUntil(now: int, duration: nat): Future
  {
    Sleep(now + duration)
  }

  function NewNextFrame(): Future
  {
    NextFrame(true)
  }

  /** One poll at time `now`: the result, and the future as the poll leaves it. */
  function PollAt(f: Future, now: int): (Poll, Future)
  {
    match f
    case Sleep(target) => if now >= target then (Ready(InstantValue(now)), f) else (Pending, f)
    case NextFrame(first) => if first then (Pending, NextFrame(false)) else (Ready(UnitValue), f)
    case Immediate(v) => (Ready(v), f)
  }

  /** A sleep is ready exactly when the clock has reached its start plus its duration, and
      it then carries the current instant; with duration 0 the very first poll is ready. */
  lemma SleepReadyIff(start: int, duration: nat, now: int)
    ensures PollAt(SleepUntil(start, duration), now).0.Ready? <==> now >= start + duration
    ensures PollAt(SleepUntil(start, duration), now).0.Ready? ==>
      PollAt(SleepUntil(start, duration), now).0.value == InstantValue(now)
    ensures PollAt(SleepUntil(start, duration), now).1 == SleepUntil(start, duration)
  {
  }

  /** Once a sleep is ready it stays ready at every later time. */
  lemma SleepStaysReady(f: Future, now: int, later: int)
    requires f.Sleep? && PollAt(f, now).0.Ready? && now <= later
    ensures PollAt(f, later).0.Ready?
  {
  }

  /** `next_frame()` is pending on its first poll and ready with `()` on every later one. */
  lemma NextFrameTwoPolls(now: int, later: int)
    ensures PollAt(NewNextFrame(), now) == (Pending, NextFrame(false))
    ensures PollAt(PollAt(NewNextFrame(), now).1, later) == (Ready(UnitValue), NextFrame(false))
  {
  }

  /** The tag of what a future produces when it becomes ready. */
  function OutputTag(f: Future): TypeTag
  {
    match f
    case Sleep(_) => InstantType
    case NextFrame(_) => UnitType
    case Immediate(v) => TagOf(v)
  }

  /** A poll never changes what a future will produce, and a ready value has that type. */
  lemma PollKeepsOutputTag(f: Future, now: int)
    ensures OutputTag(PollAt(f, now).1) == OutputTag(f)
    ensures PollAt(f, now).0.Ready? ==> TagOf(PollAt(f, now).0.value) == OutputTag(f)
  {
  }

  // ----- TaskInput -----

  /** What the coroutine receives on each resume: the parameter bundle (a raw pointer in
      the source) and the value of the future it last suspended on. */
  class TaskInput<T> {
    var data: Option<T>
    var asyncResult: Option<AnyValue>

    constructor(data: Option<T>, asyncResult: Option<AnyValue>)
      ensures this.data == data && this.asyncResult == asyncResult
    {
      this.data := data;
      this.asyncResult := asyncResult;
    }

    /** `data_mut`: the parameters, or a panic when there are none. */
    function DataMut(): (r: Result<T, string>)
      reads this
      ensures r.Success? <==> data.Some?
      ensures r.Success? ==> r.value == data.value
      ensures r.Failure? ==> r.error == DataMissing
    {
      if data.Some? then Success(data.value) else Failure(DataMissing)
    }

    /** `result::<R>`: takes the stored value out and downcasts it. */
    method TakeResult(tag: TypeTag) returns (r: Result<AnyValue, string>)
      modifies this
      ensures asyncResult.None? && data == old(data)
      ensures r == Downcast(old(asyncResult), tag)
    {
      var stored := asyncResult;
      asyncResult := None;
      r := Downcast(stored, tag);
    }

    /** `async_result.take()`, whose value is dropped. */
    method DiscardResult()
      modifies this
      ensures asyncResult.None? && data == old(data)
    {
      asyncResult := None;
    }
  }

  // ----- the coroutine -----

  /** What the program's suspension statement passes to `yield`. */
  datatype FutureSpec = SleepFor(duration: nat) | NextFrameSpec | ReadyWith(value: AnyValue)

  /** How the statement after a suspension uses the resumed value: `let p: R = yield e`
      binds it with type `R`, a bare `yield e;` discards it. */
  datatype Use = Bind(tag: TypeTag) | Discard

  datatype Step = Step(suspend: FutureSpec, use: Use)

  /** The coroutine a system body becomes, seen at its suspension points: the prelude, then
      for each step a suspension followed by the use of its value and the prelude again,
      and finally completion. `pc` counts the suspensions already made. A coroutine that
      panicked may not be resumed again. */
  datatype Coroutine = Coroutine(program: seq<Step>, pc: nat, poisoned: bool)

  datatype Resumed = Yielded(fut: Future) | Complete | Panicked(msg: string)

  const ResumedAfterPanic: string := "coroutine resumed after panicking"

  /** The future a suspension creates at time `now`. */
  function Launch(spec: FutureSpec, now: int): Future
  {
    match spec
    case SleepFor(d) => SleepUntil(now, d)
    case NextFrameSpec => NewNextFrame()
    case ReadyWith(v) => Immediate(v)
  }

  /** One resume: use the value of the previous suspension (if any), run the prelude,
      then suspend on the next future or complete. */
  function ResumeSpec(co: Coroutine, hasData: bool, asyncResult: Option<AnyValue>, now: int): (r: (Resumed, Coroutine))
    requires co.pc <= |co.program|
    ensures r.1.program == co.program && r.1.pc <= |r.1.program|
    ensures r.0.Yielded? ==> r.1 == co.(pc := co.pc + 1) && r.1.pc <= |co.program|
    ensures r.0.Panicked? ==> r.1.poisoned
  {
    if co.poisoned then (Panicked(ResumedAfterPanic), co)
    else
      var used := if co.pc == 0 then Success(UnitValue) else UseValue(co.program[co.pc - 1].use, asyncResult);
      if used.Failure? then (Panicked(used.error), co.(poisoned := true))
      else if !hasData then (Panicked(DataMissing), co.(poisoned := true))
      else if co.pc == |co.program| then (Complete, co)
      else (Yielded(Launch(co.program[co.pc].suspend, now)), co.(pc := co.pc + 1))
  }

  function UseValue(u: Use, asyncResult: Option<AnyValue>): Result<AnyValue, string>
  {
    match u
    case Bind(tag) => Downcast(asyncResult, tag)
    case Discard => Success(UnitValue)
  }

  /** Resuming the coroutine with a `TaskInput`, which the coroutine consumes. */
  method Resume<T>(co: Coroutine, input: TaskInput<T>, now: int) returns (res: Resumed, next: Coroutine)
    requires co.pc <= |co.program|
    modifies input
    ensures (res, next) == ResumeSpec(co, old(input.data).Some?, old(input.asyncResult), now)
  {
    if co.poisoned {
      return Panicked(ResumedAfterPanic), co;
    }
    if co.pc > 0 {
      match co.program[co.pc - 1].use {
        case Bind(tag) =>
          var v := input.TakeResult(tag);
          if v.Failure? {
            return Panicked(v.error), co.(poisoned := true);
          }
        case Discard =>
          input.DiscardResult();
      }
    }
    var params := input.DataMut();
    if params.Failure? {
      return Panicked(params.error), co.(poisoned := true);
    }
    if co.pc == |co.program| {
      return Complete, co;
    }
    res := Yielded(Launch(co.program[co.pc].suspend, now));
    next := co.(pc := co.pc + 1);
  }

  // ----- Task -----

  /** The per-system `Local` state: the coroutine once created, and the future it is
      suspended on. `init` is declared but never read or written by the driver. */
  class Task {
    var coroutine: Option<Coroutine>
    var fut: Option<Future>
    var init: bool

    /** `Task::default()` */
    constructor()
      ensures coroutine.None? && fut.None? && !init
    {
      coroutine := None;
      fut := None;
      init := false;
    }
  }

  // ----- RunningTask -----

  /** An id of a registered one-shot system. */
  datatype SystemId = SystemId(index: nat)

  /** The registry resource: the names of the coroutines currently running, and the
      system id registered under each name. */
  class RunningTask {
    var systems: set<string>
    var registerSystems: map<string, SystemId>

    constructor()
      ensures systems == {} && registerSystems == map[]
    {
      systems := {};
      registerSystems := map[];
    }

    /** `register_coroutine(system, name)`; `id` is what `register_system_cached` returned. */
    method RegisterCoroutine(name: string, id: SystemId) returns (r: SystemId)
      modifies this
      ensures r == id
      ensures registerSystems == old(registerSystems)[name := id]
      ensures systems == old(systems)
    {
      registerSystems := registerSystems[name := id];
      r := id;
    }

    /** The ids `update_running_tasks` runs: every registered id whose name is running. */
    function ToRun(): set<SystemId>
      reads this
    {
      set k | k in registerSystems && k in systems :: registerSystems[k]
    }

    /** `update_running_tasks`: one `run_system` per registered name that is running, in
        the map's iteration order. Two names registered with the same id queue it twice. */
    method UpdateRunningTasks() returns (queued: seq<SystemId>)
      ensures forall id :: id in queued <==> id in ToRun()
      ensures systems == {} ==> queued == []
      ensures |queued| == |registerSystems.Keys * systems|
      ensures exists order: seq<string> ::
        Enumerates(order, registerSystems.Keys * systems) &&
        (forall i :: 0 <= i < |order| ==> order[i] in registerSystems) &&
        ValuesAt(order, registerSystems) == queued
    {
      queued := [];
      ghost var order: seq<string> := [];
      if systems == {} {
        assert Enumerates(order, registerSystems.Keys * systems);
        return;
      }
      var m, running := registerSystems, systems;
      var todo := m.Keys;
      ghost var done: set<string> := {};
      assert Enumerates(order, done * running);
      while todo != {}
        invariant QueueSoFar(m, running, todo, done, order, queued)
        decreases |todo|
      {
        var k :| k in todo;
        if k in running {
          QueueStep(m, running, todo, done, order, queued, k);
          queued := queued + [m[k]];
          order := order + [k];
        } else {
          QueueSkip(m, running, todo, done, order, queued, k);
        }
        todo := todo - {k};
        done := done + {k};
      }
      assert done * running == m.Keys * running;
      QueueFromEnumeration(order, m, running);
    }
  }

  /** `order` lists the names of `s`, each exactly once. */
  ghost predicate Enumerates(order: seq<string>, s: set<string>)
  {
    (forall i, j :: 0 <= i < j < |order| ==> order[i] != order[j]) &&
    (forall k :: k in order <==> k in s)
  }

  /** The ids registered under the names of `order`, in that order. */
  function ValuesAt(order: seq<string>, m: map<string, SystemId>): (r: seq<SystemId>)
    requires forall i :: 0 <= i < |order| ==> order[i] in m
    ensures |r| == |order| && forall i :: 0 <= i < |order| ==> r[i] == m[order[i]]
  {
    if order == [] then [] else ValuesAt(order[..|order| - 1], m) + [m[order[|order| - 1]]]
  }

  /** The loop of `update_running_tasks` part way: the names `done` have been visited, those
      still in `todo` have not, and `queued` holds the ids of the running names visited, in
      the order `order` visited them. */
  ghost predicate QueueSoFar(m: map<string, SystemId>, running: set<string>, todo: set<string>,
                             done: set<string>, order: seq<string>, queued: seq<SystemId>)
  {
    todo + done == m.Keys && todo * done == {} &&
    Enumerates(order, done * running) &&
    (forall i :: 0 <= i < |order| ==> order[i] in m) &&
    ValuesAt(order, m) == queued
  }

  lemma QueueStep(m: map<string, SystemId>, running: set<string>, todo: set<string>,
                  done: set<string>, order: seq<string>, queued: seq<SystemId>, k: string)
    requires QueueSoFar(m, running, todo, done, order, queued)
    requires k in todo && k in running
    ensures QueueSoFar(m, running, todo - {k}, done + {k}, order + [k], queued + [m[k]])
  {
    assert k !in done by {
      assert k in todo * done ==> false;
    }
    ValuesAtSnoc(order, k, m);
    EnumeratesSnoc(order, done * running, k);
    assert (done + {k}) * running == done * running + {k};
  }

  lemma QueueSkip(m: map<string, SystemId>, running: set<string>, todo: set<string>,
                  done: set<string>, order: seq<string>, queued: seq<SystemId>, k: string)
    requires QueueSoFar(m, running, todo, done, order, queued)
    requires k in todo && k !in running
    ensures QueueSoFar(m, running, todo - {k}, done + {k}, order, queued)
  {
    assert (done + {k}) * running == done * running;
  }

  lemma EnumeratesSnoc(order: seq<string>, s: set<string>, k: string)
    requires Enumerates(order, s) && k !in s
    ensures Enumerates(order + [k], s + {k})
  {
  }

  /** A list that names each element of a set once is as long as the set is large. */
  lemma {:induction false} EnumerationSize(order: seq<string>, s: set<string>)
    requires Enumerates(order, s)
    ensures |order| == |s|
    decreases |order|
  {
    if order != [] {
      var last := order[|order| - 1];
      var prefix := order[..|order| - 1];
      assert order == prefix + [last];
      assert last !in prefix;
      EnumerationSize(prefix, s - {last});
    } else {
      assert forall k :: k in s ==> k in order;
    }
  }

  /** What the queue built from an enumeration of the running registered names holds. */
  lemma QueueFromEnumeration(order: seq<string>, m: map<string, SystemId>, running: set<string>)
    requires Enumerates(order, m.Keys * running)
    requires forall i :: 0 <= i < |order| ==> order[i] in m
    ensures forall id :: id in ValuesAt(order, m) <==> id in (set k | k in m && k in running :: m[k])
    ensures |ValuesAt(order, m)| == |m.Keys * running|
  {
    EnumerationSize(order, m.Keys * running);
    ValuesAtMembers(order, m, m.Keys * running);
  }

  lemma ValuesAtMembers(order: seq<string>, m: map<string, SystemId>, s: set<string>)
    requires Enumerates(order, s)
    requires forall i :: 0 <= i < |order| ==> order[i] in m
    ensures forall id :: id in ValuesAt(order, m) <==> exists k :: k in s && k in m && m[k] == id
  {
    var r := ValuesAt(order, m);
    forall id | id in r ensures exists k :: k in s && k in m && m[k] == id {
      var i :| 0 <= i < |r| && r[i] == id;
      assert order[i] in order;
    }
    forall id | exists k :: k in s && k in m && m[k] == id ensures id in r {
      var k :| k in s && k in m && m[k] == id;
      var i :| 0 <= i < |order| && order[i] == k;
      assert r[i] == id;
    }
  }

  lemma ValuesAtSnoc(order: seq<string>, k: string, m: map<string, SystemId>)
    requires forall i :: 0 <= i < |order| ==> order[i] in m
    requires k in m
    ensures ValuesAt(order + [k], m) == ValuesAt(order, m) + [m[k]]
  {
    assert (order + [k])[..|order|] == order;
  }
}
