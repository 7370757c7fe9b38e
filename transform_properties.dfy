/** What the body rewrite preserves and what shape its output has. */
module TransformProperties {
  import opened Wrappers
  import opened Syntax
  import opened Transform

  // ----- what the rewrite forgets -----

  /** The input with the three things the rewrite does not keep erased: which spelling a
      suspension used (`yield e`, `yield!(e)` or `yield_async!(e)` all become `yield e`),
      whether a suspending expression statement had a semicolon, and loop and block labels. */
  function Normalize(ss: seq<Stmt>): (r: seq<Stmt>)
    ensures |r| == |ss|
  {
    if |ss| == 0 then [] else [NormalizeOne(ss[0])] + Normalize(ss[1..])
  }

  function NormalizeOne(s: Stmt): Stmt
  {
    match s
    case Let(pat, init) =>
      if init.Some? && YieldOperand(init.value).Some? then Let(pat, Some(Yield(YieldOperand(init.value))))
      else s
    case ExprStmt(e, semi) =>
      if YieldOperand(e).Some? then ExprStmt(Yield(YieldOperand(e)), true)
      else if e.Yield? || e.MacroCall? then s
      else ExprStmt(NormalizeExpr(e), semi)
    case _ => s
  }

  function NormalizeExpr(e: Expr): Expr
  {
    match e
    case Block(_, ss) => Block(None, Normalize(ss))
    case If(c, t, el) => If(c, Normalize(t), if el.Some? then Some(NormalizeExpr(el.value)) else None)
    case While(_, c, b) => While(None, c, Normalize(b))
    case Loop(_, b) => Loop(None, Normalize(b))
    case For(_, p, it, b) => For(None, p, it, Normalize(b))
    case Match(sc, arms) => Match(sc, NormalizeArms(arms))
    case _ => e
  }

  function NormalizeArms(arms: seq<Arm>): seq<Arm>
  {
    if |arms| == 0 then [] else [NormalizeArm(arms[0])] + NormalizeArms(arms[1..])
  }

  function NormalizeArm(arm: Arm): Arm
  {
    Arm(arm.pat, arm.guard, NormalizeExpr(arm.body), arm.comma)
  }

  // ----- reading the output back -----

  /** Reads emitted statements back as source statements: a suspension and the statement
      that uses its value become one statement again, the parameter prelude is dropped. */
  function Restore(out: seq<OutStmt>): seq<Stmt>
  {
    if |out| == 0 then []
    else RestoreHead(out[0], if |out| >= 2 then Some(out[1]) else None, |out| >= 3)
         + Restore(out[HeadLength(out)..])
  }

  /** How many emitted statements the first source statement takes up. */
  function HeadLength(out: seq<OutStmt>): (n: nat)
    requires |out| > 0
    ensures 1 <= n <= |out|
  {
    if out[0].YieldPoint? && |out| >= 3 then 3 else 1
  }

  /** The source statement an emitted statement `first` stands for, given the one after
      it and whether the list is long enough to hold a whole triple. */
  function RestoreHead(first: OutStmt, second: Option<OutStmt>, whole: bool): seq<Stmt>
  {
    match first
    case YieldPoint(e) =>
      if whole && second.Some? && second.value.BindResult? then [Let(second.value.pat, Some(Yield(Some(e))))]
      else if whole then [ExprStmt(Yield(Some(e)), true)]
      else []
    case Verbatim(s) => [s]
    case OutExprStmt(oe, semi) => [ExprStmt(RestoreExpr(oe), semi)]
    case _ => []
  }

  function RestoreExpr(oe: OutExpr): Expr
  {
    match oe
    case OBlock(ss) => Block(None, Restore(ss))
    case OIf(c, t, el) => If(c, Restore(t), if el.Some? then Some(RestoreExpr(el.value)) else None)
    case OWhile(c, b) => While(None, c, Restore(b))
    case OLoop(b) => Loop(None, Restore(b))
    case OFor(p, it, b) => For(None, p, it, Restore(b))
    case OMatch(sc, arms) => Match(sc, RestoreArms(arms))
    case OVerbatim(e) => e
  }

  function RestoreArms(arms: seq<OutArm>): seq<Arm>
  {
    if |arms| == 0 then [] else [RestoreArm(arms[0])] + RestoreArms(arms[1..])
  }

  function RestoreArm(arm: OutArm): Arm
  {
    Arm(arm.pat, arm.guard, RestoreExpr(arm.body), arm.comma)
  }

  // ----- the round trip -----

  lemma {:induction false} RestoreExpandStatements(ss: seq<Stmt>, names: seq<string>)
    ensures Restore(ExpandStatements(ss, names)) == Normalize(ss)
    decreases ss, 1
  {
    if |ss| > 0 {
      var head := ExpandOne(ss[0], names);
      var rest := ExpandStatements(ss[1..], names);
      var out := head + rest;
      assert out == ExpandStatements(ss, names);
      assert HeadLength(out) == |head|;
      assert out[|head|..] == rest;
      RestoreExpandOne(ss[0], names, rest);
      RestoreExpandStatements(ss[1..], names);
    }
  }

  lemma {:induction false} RestoreExpandOne(s: Stmt, names: seq<string>, rest: seq<OutStmt>)
    ensures var out := ExpandOne(s, names) + rest;
      RestoreHead(out[0], if |out| >= 2 then Some(out[1]) else None, |out| >= 3) == [NormalizeOne(s)]
    decreases s, 0
  {
    match s
    case Let(pat, init) =>
    case ExprStmt(e, semi) =>
      if YieldOperand(e).None? && !e.Yield? && !e.MacroCall? {
        RestoreTransformExpr(e, names);
      }
    case _ =>
  }

  lemma {:induction false} RestoreTransformExpr(e: Expr, names: seq<string>)
    ensures RestoreExpr(TransformExpr(e, names)) == NormalizeExpr(e)
    decreases e
  {
    match e
    case Block(_, ss) => RestoreExpandStatements(ss, names);
    case If(c, t, el) =>
      RestoreExpandStatements(t, names);
      if el.Some? {
        RestoreTransformExpr(el.value, names);
      }
    case While(_, c, b) => RestoreExpandStatements(b, names);
    case Loop(_, b) => RestoreExpandStatements(b, names);
    case For(_, p, it, b) => RestoreExpandStatements(b, names);
    case Match(sc, arms) => RestoreTransformArms(arms, names);
    case _ =>
  }

  lemma {:induction false} RestoreTransformArms(arms: seq<Arm>, names: seq<string>)
    ensures RestoreArms(TransformArms(arms, names)) == NormalizeArms(arms)
    decreases arms
  {
    if |arms| > 0 {
      RestoreTransformArm(arms[0], names);
      RestoreTransformArms(arms[1..], names);
    }
  }

  lemma {:induction false} RestoreTransformArm(arm: Arm, names: seq<string>)
    ensures RestoreArm(TransformArm(arm, names)) == NormalizeArm(arm)
    decreases arm
  {
    RestoreTransformExpr(arm.body, names);
  }

  /** The emitted coroutine body reads back as the original body, up to the spelling of
      suspensions, the semicolons of suspending statements and labels: the rewrite keeps
      every statement, in order, and every header of a compound expression untouched. */
  lemma FunctionBodyRoundTrip(body: seq<Stmt>, names: seq<string>)
    ensures Restore(FunctionBody(body, names)) == Normalize(body)
  {
    var out := FunctionBody(body, names);
    assert HeadLength(out) == 1;
    assert out[1..] == ExpandStatements(body, names);
    RestoreExpandStatements(body, names);
  }

  // ----- the shape of the output -----

  /** Every suspension is followed by the use of its value and then the prelude; a use
      of a value and a prelude after the first position only ever come right after a
      suspension. */
  predicate TriplesWellFormed(out: seq<OutStmt>, names: seq<string>)
  {
    (forall i :: 0 <= i < |out| && out[i].YieldPoint? ==>
       i + 2 < |out| && (out[i + 1].BindResult? || out[i + 1].DiscardResult?) && out[i + 2] == FetchParams(names))
    && (forall i :: 0 <= i < |out| && (out[i].BindResult? || out[i].DiscardResult?) ==>
          1 <= i && out[i - 1].YieldPoint?)
    && (forall i :: 0 <= i < |out| && out[i].FetchParams? ==> 2 <= i && out[i - 2].YieldPoint?)
  }

  /** A rewritten statement list: well-formed triples, no statement left as written that
      still suspends, and every nested body rewritten the same way. */
  predicate Lowered(out: seq<OutStmt>, names: seq<string>)
  {
    TriplesWellFormed(out, names)
    && (forall i :: 0 <= i < |out| ==> LoweredStmt(out[i], names))
  }

  predicate LoweredStmt(s: OutStmt, names: seq<string>)
  {
    match s
    case Verbatim(stmt) => StmtYieldOperand(stmt).None?
    case OutExprStmt(oe, _) => LoweredExpr(oe, names)
    case _ => true
  }

  predicate LoweredExpr(oe: OutExpr, names: seq<string>)
  {
    match oe
    case OBlock(ss) => Lowered(ss, names)
    case OIf(_, t, el) => Lowered(t, names) && (el.Some? ==> LoweredExpr(el.value, names))
    case OWhile(_, b) => Lowered(b, names)
    case OLoop(b) => Lowered(b, names)
    case OFor(_, _, b) => Lowered(b, names)
    case OMatch(_, arms) => LoweredArms(arms, names)
    case OVerbatim(_) => true
  }

  predicate LoweredArms(arms: seq<OutArm>, names: seq<string>)
  {
    forall i :: 0 <= i < |arms| ==> LoweredArm(arms[i], names)
  }

  predicate LoweredArm(arm: OutArm, names: seq<string>)
  {
    LoweredExpr(arm.body, names)
  }

  lemma TriplesWellFormedConcat(h: seq<OutStmt>, r: seq<OutStmt>, names: seq<string>)
    requires TriplesWellFormed(h, names) && TriplesWellFormed(r, names)
    ensures TriplesWellFormed(h + r, names)
  {
    var out := h + r;
    forall i | 0 <= i < |out| && out[i].YieldPoint?
      ensures i + 2 < |out| && (out[i + 1].BindResult? || out[i + 1].DiscardResult?) && out[i + 2] == FetchParams(names)
    {
      if i < |h| { assert h[i].YieldPoint?; } else { assert r[i - |h|].YieldPoint?; }
    }
    forall i | 0 <= i < |out| && (out[i].BindResult? || out[i].DiscardResult?)
      ensures 1 <= i && out[i - 1].YieldPoint?
    {
      if i < |h| { assert h[i] == out[i]; } else { assert r[i - |h|] == out[i]; }
    }
    forall i | 0 <= i < |out| && out[i].FetchParams?
      ensures 2 <= i && out[i - 2].YieldPoint?
    {
      if i < |h| { assert h[i] == out[i]; } else { assert r[i - |h|] == out[i]; }
    }
  }

  lemma {:induction false} ExpandStatementsLowered(ss: seq<Stmt>, names: seq<string>)
    ensures Lowered(ExpandStatements(ss, names), names)
    decreases ss, 1
  {
    if |ss| > 0 {
      var h := ExpandOne(ss[0], names);
      var r := ExpandStatements(ss[1..], names);
      ExpandOneLowered(ss[0], names);
      ExpandStatementsLowered(ss[1..], names);
      TriplesWellFormedConcat(h, r, names);
      var out := h + r;
      forall i | 0 <= i < |out|
        ensures LoweredStmt(out[i], names)
      {
        if i < |h| { assert h[i] == out[i]; } else { assert r[i - |h|] == out[i]; }
      }
    }
  }

  lemma {:induction false} ExpandOneLowered(s: Stmt, names: seq<string>)
    ensures Lowered(ExpandOne(s, names), names)
    decreases s, 0
  {
    match s
    case ExprStmt(e, semi) =>
      if YieldOperand(e).None? && !e.Yield? && !e.MacroCall? {
        TransformExprLowered(e, names);
      }
    case _ =>
  }

  lemma {:induction false} TransformExprLowered(e: Expr, names: seq<string>)
    ensures LoweredExpr(TransformExpr(e, names), names)
    decreases e
  {
    match e
    case Block(_, ss) => ExpandStatementsLowered(ss, names);
    case If(c, t, el) =>
      ExpandStatementsLowered(t, names);
      if el.Some? {
        TransformExprLowered(el.value, names);
      }
    case While(_, c, b) => ExpandStatementsLowered(b, names);
    case Loop(_, b) => ExpandStatementsLowered(b, names);
    case For(_, p, it, b) => ExpandStatementsLowered(b, names);
    case Match(sc, arms) =>
      forall i | 0 <= i < |arms|
        ensures LoweredArm(TransformArms(arms, names)[i], names)
      {
        TransformArmsAt(arms, i, names);
        TransformExprLowered(arms[i].body, names);
      }
    case _ =>
  }

  lemma {:induction false} TransformArmsAt(arms: seq<Arm>, i: nat, names: seq<string>)
    requires i < |arms|
    ensures TransformArms(arms, names)[i] == TransformArm(arms[i], names)
    decreases i
  {
    if i > 0 {
      TransformArmsAt(arms[1..], i - 1, names);
    }
  }

  /** The whole emitted body starts with the prelude and is otherwise a lowered list. */
  lemma FunctionBodyLowered(body: seq<Stmt>, names: seq<string>)
    ensures FunctionBody(body, names)[0] == FetchParams(names)
    ensures Lowered(ExpandStatements(body, names), names)
  {
    ExpandStatementsLowered(body, names);
  }

  // ----- how much the output grows -----

  /** The number of statements of the list itself (not of nested bodies) that suspend. */
  function TopLevelYields(ss: seq<Stmt>): nat
  {
    if |ss| == 0 then 0 else (if StmtYieldOperand(ss[0]).Some? then 1 else 0) + TopLevelYields(ss[1..])
  }

  /** Each suspending statement becomes three statements and every other one stays one. */
  lemma {:induction false} ExpandStatementsLength(ss: seq<Stmt>, names: seq<string>)
    ensures |ExpandStatements(ss, names)| == |ss| + 2 * TopLevelYields(ss)
    decreases ss
  {
    if |ss| > 0 {
      ExpandStatementsLength(ss[1..], names);
    }
  }

  /** A statement list with no suspension at top level keeps its length; statements that
      are neither expressions nor `let` pass through unchanged. */
  lemma {:induction false} PassThrough(ss: seq<Stmt>, names: seq<string>)
    requires forall i :: 0 <= i < |ss| ==> ss[i].Item? || ss[i].MacroStmt?
    ensures ExpandStatements(ss, names) == seq(|ss|, i requires 0 <= i < |ss| => Verbatim(ss[i]))
    decreases ss
  {
    if |ss| > 0 {
      PassThrough(ss[1..], names);
    }
  }
}
