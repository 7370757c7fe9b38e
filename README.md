# bevy_coroutine_system, modelled in Dafny

`bevy_coroutine_system` lets a Bevy system run over several frames. The
`#[coroutine_system]` attribute turns an ordinary system function into three
things:

- a `SystemParam` bundle struct;
- a coroutine whose body is the function body, with every `yield` made into a
  suspension point;
- a wrapper system. Each frame, the wrapper polls the future the coroutine is
  suspended on and resumes the coroutine until a future is pending or the
  coroutine completes.

The runtime crate provides the task state, the coroutine input, the registry
of running coroutines, and the two suspension futures `sleep` and `next_frame`.

The project models both crates.

- `syntax.dfy`: the part of Rust syntax the attribute inspects, as datatypes.
  These are types, patterns, expressions, statements and the function item.
- `lifetimes.dfy`:
  - the lifetime requirement of a parameter type and its `merge`;
  - `analyze_lifetime_requirements`;
  - `add_lifetimes_to_type`.

  Each is a specification function plus a method that follows the source's
  loops and in-place segment rewrite.
- `lifetime_properties.dfy`:
  - the requirement is the name table joined over every visited path segment;
  - erasing all lifetimes undoes the rewrite, and the only lifetimes it
    introduces are `'w`, `'s` and `'static`;
  - the rewrite keeps every lifetime already written. Removing what it adds
    gives back the type as written, except that elided reference lifetimes
    now read `'static`;
  - every lifetime the analysis asks for appears in the rewritten type.
- `naming.dfy`: the CamelCase `…Params` struct name. It is proved equal to a
  left-to-right reference definition. The lemmas show that a name made of
  words joined by `_` yields the capitalised words followed by `Params`.
- `transform.dfy`: the body rewrite, as functions and as the source's
  mutually recursive procedures with their statement and match-arm loops.
- `transform_properties.dfy`: the rewritten body is undone by a `Restore`
  function, up to the spelling of the yields. The lemmas also prove:
  - each suspension point is the triple "yield, bind or discard, fetch the
    parameters again";
  - the expected statement count.
- `signature.dfy`:
  - the attribute's entry: signature checks, the parameter loop, and the
    phantom field;
  - the whole expansion;
  - lemmas that characterise when a function is rejected;
  - a lemma that the struct uses both `'w` and `'s`, as Bevy demands.
- `runtime.dfy`:
  - `Box<dyn Any>` values as tagged values and their downcast;
  - the `sleep`, `next_frame` and immediately-ready futures;
  - `TaskInput` (`data_mut`, `result`) and `Task` with its `Default`;
  - `RunningTask`, with `register_coroutine` and `update_running_tasks`;
  - the coroutine as an abstract program of suspension steps.
- `driver.dfy`: the per-frame wrapper loop, as an imperative method over
  `Task` and `RunningTask`. It is proved equal to a functional `TickSpec`.
- `driver_properties.dfy`: properties of a frame and of sequences of frames.
  - The registry entry follows the task.
  - A pending future ends the frame without resuming.
  - A program whose bindings name the types their futures produce never panics.
  - A binding of the wrong type panics, and after any panic every later frame
    panics on the poisoned coroutine without changing anything.
  - A chain of ready futures completes in one frame, when the body's bindings
    name the types their futures produce.
  - `sleep(d)` and `next_frame()` suspend for as long as they promise.

The macro's emitted code names the runtime types `CoroutineTask`,
`CoroutineTaskInput` and `RunningCoroutines`. The runtime crate defines them
as `Task`, `TaskInput` and `RunningTask`. The model treats each pair as one
type.

## Model

| member | source | states |
|---|---|---|
| Lifetimes.MergeIsLeastUpperBound | bevy_coroutine_system_macro/src/lib.rs:523-532 | `merge` is the join of the two-flag lattice: both arguments are below the result and every common upper bound is above it |
| Lifetimes.MergeLaws | bevy_coroutine_system_macro/src/lib.rs:523-532 | `none()` is the identity of `merge`; `merge` is commutative, associative and idempotent |
| Lifetimes.TablesAgree | bevy_coroutine_system_macro/src/lib.rs:629-684 | the lifetimes inserted for a name are `'w` exactly when the analysis table asks for `'w`, `'s` exactly when it asks for `'s`, and nothing else |
| Lifetimes.AnalyzeLifetimeRequirements | bevy_coroutine_system_macro/src/lib.rs:535-586 | the loops over tuple elements, path segments and generic arguments compute the structural requirement: a reference gives its element's requirement, a tuple the merge of its elements, a path the table entries of its segments merged with those of its type arguments, anything else none |
| LifetimeProperties.RequirementIsTableOverVisited | bevy_coroutine_system_macro/src/lib.rs:535-586 | the requirement of a type is the name table joined over exactly the path segments the analysis visits |
| Lifetimes.AddLifetimesToType | bevy_coroutine_system_macro/src/lib.rs:589-714 | the recursive rewrite with its in-place segment loop computes `AddLifetimes`: a reference keeps its lifetime or gets `'static`; tuples and type arguments are rewritten element by element; table names get their lifetimes prepended to the rewritten arguments; other types are unchanged |
| Lifetimes.AddLifetimesToSegment | bevy_coroutine_system_macro/src/lib.rs:625-703 | one segment: lifetimes added to a bare table name, prepended to an angle-bracketed list whose type arguments are rewritten, parenthesized arguments untouched |
| LifetimeProperties.AddLifetimesOnlyAddsLifetimes | bevy_coroutine_system_macro/src/lib.rs:589-714 | erasing every lifetime from the rewritten type gives the original type with its lifetimes erased: mutability, qualified self, non-lifetime arguments and their order, and all other types are preserved |
| LifetimeProperties.AddLifetimesIntroducesOnlyKnownNames | bevy_coroutine_system_macro/src/lib.rs:597-684 | the only lifetimes the rewrite adds are `'w`, `'s` and `'static` |
| LifetimeProperties.AddLifetimesKeepsLifetimes | bevy_coroutine_system_macro/src/lib.rs:597-684 | every lifetime the type already names is still named after the rewrite: a written reference lifetime is kept and lifetime arguments are carried over |
| LifetimeProperties.StripAddedUndoesAddLifetimes | bevy_coroutine_system_macro/src/lib.rs:589-714 | removing the lifetimes that the rewrite puts in front of a table name's arguments gives back the type as written, up to `'static` in elided references and `<>` read as no arguments; so no lifetime is dropped or renamed, and no argument is lost or reordered |
| LifetimeProperties.AddLifetimesCovers | bevy_coroutine_system_macro/src/lib.rs:637-700 | every lifetime the table owes a visited, non-parenthesized segment appears in the rewritten type |
| LifetimeProperties.RequiredLifetimesAppear | bevy_coroutine_system_macro/src/lib.rs:535-714 | when table names are not given parenthesized arguments, the rewritten type mentions `'w` when the analysis needs `'w`, and `'s` when it needs `'s` |
| LifetimeProperties.PlainPathUnchanged | bevy_coroutine_system_macro/src/lib.rs:637-658 | a one-segment path without arguments whose name is not in the table is left as it is |
| LifetimeProperties.QueryExample | bevy_coroutine_system_macro/src/lib.rs:659-699 | `Query<&Transform, With<Player>>` becomes `Query<'w, 's, &'static Transform, With<Player>>` |
| Naming.Piece | bevy_coroutine_system_macro/src/lib.rs:119-127 | the piece emitted for one character holds `_` exactly when that character is `_` at the start of a word |
| Naming.CamelCaseIsStreaming | bevy_coroutine_system_macro/src/lib.rs:119-127 | the index-based `map`/`collect` (look back at `i - 1`) equals a left-to-right pass that capitalises after `_` and drops the other `_` |
| Naming.UnderscoreSurvives | bevy_coroutine_system_macro/src/lib.rs:119-127 | the result contains `_` exactly when the input has `_` at index 0 or right after another `_` |
| Naming.ParamsSuffix | bevy_coroutine_system_macro/src/lib.rs:118-127 | every struct name ends with `Params` |
| Naming.ParamsStructNameOfWords | bevy_coroutine_system_macro/src/lib.rs:118-127 | for words without `_` joined by single `_`, the struct name is the words each with its first letter uppercased, then `Params` |
| Naming.BoxAnimationExample | bevy_coroutine_system_macro/src/lib.rs:118-127 | `box_animation` gives `BoxAnimationParams` |
| Transform.YieldOperand | bevy_coroutine_system_macro/src/lib.rs:305-363 | an expression is a suspension point exactly when it is `yield e` with an operand, or a `yield!`/`yield_async!` macro (by last path segment) whose body parses as an expression; the operand is the suspended-on future |
| Transform.ExpandOne | bevy_coroutine_system_macro/src/lib.rs:301-393 | a statement becomes three statements when it is a suspension point and one otherwise |
| Transform.TransformStatements | bevy_coroutine_system_macro/src/lib.rs:295-397 | the `for` loop that pushes into `new_stmts` computes `ExpandStatements`, each statement contributing its pieces in order |
| Transform.TransformStatementsEntry | bevy_coroutine_system_macro/src/lib.rs:302-392 | the nested `if let`s for one statement give the yield/bind-or-discard/prelude triple for a suspension point, the statement itself for an operand-less `yield` or a non-yield macro, and the rewritten expression for any other expression statement |
| Transform.TransformStatement | bevy_coroutine_system_macro/src/lib.rs:400-415 | an expression statement is rewritten keeping its semicolon; every other statement is kept verbatim |
| Transform.TransformExpression | bevy_coroutine_system_macro/src/lib.rs:418-507 | blocks, `if`/`else`, `while`, `loop`, `for` and `match` are rebuilt with their bodies and arm bodies rewritten; every other expression is kept |
| Transform.TransformFunctionBody | bevy_coroutine_system_macro/src/lib.rs:271-292 | the coroutine body is the parameter prelude followed by the rewritten statements |
| TransformProperties.FunctionBodyRoundTrip | bevy_coroutine_system_macro/src/lib.rs:271-507 | restoring the emitted body gives back the original statements (with yields spelled `yield e` and loop labels dropped): the rewrite loses and invents nothing |
| TransformProperties.RestoreTransformExpr | bevy_coroutine_system_macro/src/lib.rs:418-507 | conditions, patterns, iterators, scrutinees, guards and commas come out of the rewrite unchanged |
| TransformProperties.FunctionBodyLowered | bevy_coroutine_system_macro/src/lib.rs:277-397 | the body starts with the prelude, and at every nesting depth each emitted yield is directly followed by a bind or discard and then by the prelude for the same parameter names |
| TransformProperties.ExpandStatementsLength | bevy_coroutine_system_macro/src/lib.rs:301-394 | a statement list grows by exactly two statements per top-level suspension point |
| TransformProperties.PassThrough | bevy_coroutine_system_macro/src/lib.rs:388-413 | item and statement-macro statements are emitted once each, verbatim |
| Signature.ArgError | bevy_coroutine_system_macro/src/lib.rs:82-105 | a parameter is accepted exactly when it is typed and its pattern is a plain identifier |
| Signature.CollectCharacterized | bevy_coroutine_system_macro/src/lib.rs:76-115 | the parameter loop fails exactly when some parameter is a receiver or a non-identifier pattern, with the error of the first such parameter; otherwise names and rewritten types follow the parameters in order and the requirement merges all declared types |
| Signature.CollectParams | bevy_coroutine_system_macro/src/lib.rs:82-115 | the loop with its early returns computes `Collect` |
| Signature.PhantomCoversMissing | bevy_coroutine_system_macro/src/lib.rs:132-161 | there is a phantom field exactly when not both lifetimes are needed, and its type mentions exactly the missing ones (`(&'w (), &'s ())`, `&'w ()` or `&'s ()`) |
| Signature.ExpandRejects | bevy_coroutine_system_macro/src/lib.rs:63-115 | a function is rejected exactly when it has a return type, a receiver or a non-identifier parameter pattern; the return type is checked first |
| Signature.ExpandFields | bevy_coroutine_system_macro/src/lib.rs:132-160 | an accepted function's struct has one field per parameter, named as the parameter and typed with lifetimes added, in declaration order |
| Signature.StructUsesBothLifetimes | bevy_coroutine_system_macro/src/lib.rs:130-161 | when table names are not given parenthesized arguments, the fields and the phantom field together mention both `'w` and `'s` |
| Signature.CoroutineSystem | bevy_coroutine_system_macro/src/lib.rs:54-268 | the attribute entry computes the expansion: error or struct name, fields, phantom field, rewritten body and id `module_path::name` |
| Signature.ExampleStructName | bevy_coroutine_system_macro/src/lib.rs:244-253 | `box_animation` gets struct `BoxAnimationParams` and id `<module path>::box_animation` |
| Runtime.Downcast | bevy_coroutine_system/src/lib.rs:111-116 | the downcast succeeds exactly when a value is present and has the requested type, returns that value, and otherwise fails with the downcast message |
| Runtime.SleepReadyIff | bevy_coroutine_system/src/lib.rs:145-167 | a sleep created at `start` for `d` is ready exactly when `now >= start + d`, carries the instant `now`, and is not changed by polling |
| Runtime.SleepStaysReady | bevy_coroutine_system/src/lib.rs:155-161 | a sleep that is ready stays ready at any later time |
| Runtime.NextFrameTwoPolls | bevy_coroutine_system/src/lib.rs:177-200 | `next_frame()` is pending on its first poll, which clears `first_poll`, and ready with `()` afterwards |
| Runtime.PollKeepsOutputTag | bevy_coroutine_system/src/lib.rs:145-200 | polling never changes the type a future produces, and a ready value has that type |
| Runtime.TaskInput.constructor | bevy_coroutine_system_macro/src/lib.rs:216-219 | the input holds the parameters and the previous future's value |
| Runtime.TaskInput.DataMut | bevy_coroutine_system/src/lib.rs:101-105 | `data_mut` returns the parameters when present and panics with its message otherwise |
| Runtime.TaskInput.TakeResult | bevy_coroutine_system/src/lib.rs:111-116 | `result` empties `async_result` and returns its downcast |
| Runtime.TaskInput.DiscardResult | bevy_coroutine_system_macro/src/lib.rs:349-352 | `async_result.take()` empties the slot and leaves the parameters alone |
| Runtime.ResumeSpec | bevy_coroutine_system_macro/src/lib.rs:277-372 | a resume keeps the program, advances by exactly one step when it yields, and poisons the coroutine when it panics |
| Runtime.Resume | bevy_coroutine_system_macro/src/lib.rs:311-371 | resuming the coroutine with an input: a bind or discard of the previous value, then the prelude's `data_mut`, then the next yield or completion |
| Runtime.Task.constructor | bevy_coroutine_system/src/lib.rs:66-74 | `Task::default()` has no coroutine, no future and `init == false` |
| Runtime.RunningTask.constructor | bevy_coroutine_system/src/lib.rs:119-126 | the registry starts with no running names and no registered systems |
| Runtime.RunningTask.RegisterCoroutine | bevy_coroutine_system/src/lib.rs:37-43 | registering a name maps it to the system id, overwriting an earlier entry, returns the id and leaves the running names alone |
| Runtime.RunningTask.UpdateRunningTasks | bevy_coroutine_system/src/lib.rs:128-137 | the loop queues exactly the registered ids whose names are running, and nothing when no name is running; the queue is the registered ids read along some order that lists each running registered name exactly once, so an id that is registered under two running names is queued twice |
| Driver.Tick | bevy_coroutine_system_macro/src/lib.rs:183-240 | one frame of the wrapper system with its loop computes `TickSpec`: create and register on the first frame, return on a pending future, resume on a ready one, store and re-poll a yielded future in the same frame, clear and unregister on completion |
| DriverProperties.RunLoopShape | bevy_coroutine_system_macro/src/lib.rs:196-239 | the loop ends in one of three ways: completion, which empties the task and removes the name; suspension, which leaves a future; a panic, which poisons the coroutine. Only completion changes the registry |
| DriverProperties.TickKeepsRegistry | bevy_coroutine_system_macro/src/lib.rs:184-232 | a name is in `systems` exactly while its task holds a coroutine, a frame keeps that so, and no other name changes |
| DriverProperties.FirstTickStarts | bevy_coroutine_system_macro/src/lib.rs:184-193 | a frame without a coroutine creates it from the body and registers the name, unless it completes in that same frame |
| DriverProperties.LaterTickIgnoresBody | bevy_coroutine_system_macro/src/lib.rs:184-193 | once a coroutine exists, the frame depends only on the stored coroutine |
| DriverProperties.PendingDoesNotResume | bevy_coroutine_system_macro/src/lib.rs:200-213 | a pending future ends the frame at once: the coroutine is not resumed, and only the polled future is stored back |
| DriverProperties.RunLoopWellTyped | bevy_coroutine_system_macro/src/lib.rs:196-239 | inside the loop, a coroutine whose bindings name their futures' types never panics and stops at rest |
| DriverProperties.TickNeverPanics | bevy_coroutine_system/src/lib.rs:111-116 | for such a body, no frame panics on `result` or `data_mut`, and every frame leaves the task at rest: suspended exactly when it still holds a coroutine |
| DriverProperties.WrongBindPanics | bevy_coroutine_system/src/lib.rs:111-116 | in any program, a coroutine resumed at a binding of type `R` whose future is ready with a value of some other type panics with the downcast message; the coroutine is poisoned, its future dropped and the registry unchanged |
| DriverProperties.PoisonedStaysPanicked | bevy_coroutine_system_macro/src/lib.rs:222-223 | a frame that resumes a poisoned coroutine panics with "coroutine resumed after panicking" and changes neither the task nor the registry |
| DriverProperties.PoisonedPanicsEveryFrame | bevy_coroutine_system_macro/src/lib.rs:196-239 | over any number of frames, at any times, a poisoned coroutine without a future panics in each frame with the same message and the same state |
| DriverProperties.AfterPanicEveryFrame | bevy_coroutine_system_macro/src/lib.rs:183-240 | after any frame that panics, every later frame panics on the poisoned coroutine and leaves the task and the registry as that frame left them; the panicking frame changes the registry only by registering a coroutine it created |
| DriverProperties.MismatchedBindPanics | bevy_coroutine_system/src/lib.rs:111-116 | for the body `let t: Instant = yield next_frame()`, the first frame suspends, the second panics with the downcast message and keeps the name registered, and the third panics on the poisoned coroutine with the task and registry unchanged |
| DriverProperties.ImmediateRunCompletes | bevy_coroutine_system_macro/src/lib.rs:222-227 | when every remaining future is ready at once and every binding of the body names the type its future produces, the loop runs the coroutine to completion within the frame |
| DriverProperties.ImmediateBodyCompletesAtOnce | bevy_coroutine_system_macro/src/lib.rs:183-240 | a body whose every future is ready at once, and whose bindings name the types their futures produce, completes in its first frame and leaves the registry without its name |
| DriverProperties.SleepScenario | bevy_coroutine_system/src/lib.rs:145-167 | `yield sleep(d)` registers and suspends on a sleep until `t0 + d`; frames before that change nothing; the first frame at or after it completes and unregisters |
| DriverProperties.ZeroSleepCompletesAtOnce | bevy_coroutine_system/src/lib.rs:155-157 | `yield sleep(0)` completes in the frame that creates it |
| DriverProperties.NextFrameScenario | bevy_coroutine_system/src/lib.rs:177-200 | `yield next_frame()` suspends for exactly one frame, whatever the clock says |

## Left out

- Panics are not propagated. A panic is modelled as the outcome of the frame it
  happens in, and the task is left as the panic leaves it. By default Bevy
  propagates a system panic and the app stops. So the later frames of
  `DriverProperties.AfterPanicEveryFrame`, `DriverProperties.PoisonedPanicsEveryFrame`
  and `DriverProperties.MismatchedBindPanics` happen only if the host catches the panic.
- `syn` and `quote` token streams are not modelled. The emitted statements are
  datatypes, and the `params`/`&mut params.n` prelude is one `FetchParams(names)`
  statement.
- Whether a macro body parses as an expression is not modelled here. It is
  input to the model: the `parsed` field of a macro call.
- Bevy plumbing is left out: `#[derive(SystemParam)]`, `Local`, `ResMut`,
  `commands.run_system`, `register_system_cached` and the `plugin` setup. The
  id `register_system_cached` returns is a parameter of `RegisterCoroutine`, and
  `UpdateRunningTasks` returns the queued ids instead of issuing commands.
- The wrapper function's own signature is not modelled. That covers the
  `'static` instance of the bundle type and the `#[allow]` attributes.
- The `params` vector of the parameter loop is filled but never read, so it is
  not modelled.
- The raw-pointer handover of the parameters is not modelled. The model passes
  them, without `NonNull` aliasing, as a per-resume value.
- `Box<dyn Any>` is not modelled as such. Values carry a type tag, and a
  downcast compares tags.
- `Waker`, `Context` and wall-clock `Instant::now()` are not modelled. Time is
  one integer per frame, shared by every `Instant::now()` of the frame,
  including the two reads inside one `sleep` poll.
- `Instant + Duration` overflow is not modelled.
- Futures are values, not boxed objects. A poll returns the future as it
  leaves it, and the driver stores that back. This stands for the in-place
  `first_poll` flip.
- The coroutine is not Rust code. It is an abstract program of suspension
  steps, each naming the future it yields and how the next statement uses the
  value. The computation between suspensions is not modelled.
- Spawned-thread futures are not modelled. Neither are the examples'
  `noop()` and `spawn_blocking_task`; `ReadyWith` stands for any future that
  is ready on its first poll.
- Runtime.RunningTask.UpdateRunningTasks: the HashMap's iteration order is not
  modelled. The method visits the names in an order it chooses, and its contract
  says only that the queue follows some order that lists each running registered
  name exactly once. Which ids are queued, and how many times each, is fixed.
- `systems` is a `HashMap<&str, ()>` used as a set, and is modelled as a set.
- Driver.Tick: the source's `else { break; }` is not modelled. It runs when
  the task has no coroutine at the top of the loop. The coroutine is set
  before the loop and is cleared only on the path that returns, so that
  branch cannot run.
- Runtime.Task.constructor: `init` is carried, but nothing in the driver reads
  or writes it.
- Lifetimes.MergeIsLeastUpperBound: `merge(&mut self, other)` is modelled as a
  value function `Merge`. The struct is `Copy`, so `req.merge(x)` is
  `req := req.Merge(x)`, which is how the methods use it.
- Naming.Piece: `to_uppercase` is modelled for ASCII letters only. Unicode case
  mapping is not modelled.
- Transform.TransformExpression: loop and block labels are dropped. The
  source's `quote!` templates omit them, so the model does the same.
- A `let … else` diverging block is not modelled.
- Attributes of rewritten constructs are not modelled.
- The deprecated `yield_async!` `macro_rules` in the runtime crate is not
  modelled. It expands to an empty block.
- A macro written as a statement of its own is a statement macro (`MacroStmt`).
  The rewrite keeps it verbatim through `transform_statement`'s fallback. Only
  a yield macro in expression position or as a `let` initializer becomes a
  suspension point. The model follows the code.
- No step cap is modelled. The source has none: a frame ends only at a
  pending future, completion or a panic. The model's programs are finite, so
  every frame ends.
- The five example programs are not modelled. They are Bevy application
  setup, rendering and input handling.
