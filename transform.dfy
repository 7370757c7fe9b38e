/** The rewrite of the function body into a coroutine body.

    Every statement-level `yield e` (or `yield!(e)` / `yield_async!(e)` macro) becomes
    three statements: the suspension itself, the use of the resumed value, and the
    prelude that fetches the system parameters again (they are only borrowed for the
    duration of one resume). Blocks, `if`/`else`, `while`, `loop`, `for` and `match`
    are entered; their headers are carried over untouched. */
module Transform {
  import opened Wrappers
  import opened Syntax

  // ----- the emitted statements -----

  datatype OutStmt =
    | YieldPoint(future: Expr)         // `__coroutine_input = yield e;`
    | BindResult(pat: Pat)             // `let p = __coroutine_input.result();`
    | DiscardResult                    // `let _ = __coroutine_input.async_result.take();`
    | FetchParams(names: seq<string>)  // `let params = __coroutine_input.data_mut();` and one `let n = &mut params.n;` per name
    | Verbatim(stmt: Stmt)             // the statement as it was written
    | OutExprStmt(expr: OutExpr, semi: bool)

  datatype OutExpr =
    | OBlock(stmts: seq<OutStmt>)
    | OIf(cond: Expr, thenBranch: seq<OutStmt>, elseBranch: Option<OutExpr>)
    | OWhile(cond: Expr, body: seq<OutStmt>)
    | OLoop(body: seq<OutStmt>)
    | OFor(pat: Pat, iter: Expr, body: seq<OutStmt>)
    | OMatch(scrutinee: Expr, arms: seq<OutArm>)
    | OVerbatim(expr: Expr)

  datatype OutArm = OutArm(pat: Pat, guard: Option<Expr>, body: OutExpr, comma: bool)

  // ----- recognising suspension points -----

  /** A macro is a yield macro when the last segment of its path is `yield` or `yield_async`. */
  predicate IsYieldMacro(path: seq<string>)
  {
    |path| > 0 && (path[|path| - 1] == "yield" || path[|path| - 1] == "yield_async")
  }

  /** The future an expression in statement or initializer position suspends on, if any. */
  function YieldOperand(e: Expr): (r: Option<Expr>)
    ensures r.Some? <==> (e.Yield? && e.operand.Some?) || (e.MacroCall? && IsYieldMacro(e.path) && e.parsed.Some?)
    ensures e.Yield? && r.Some? ==> r == e.operand
    ensures e.MacroCall? && r.Some? ==> r == e.parsed
  {
    match e
    case Yield(Some(x)) => Some(x)
    case MacroCall(path, Some(x)) => if IsYieldMacro(path) then Some(x) else None
    case _ => None
  }

  /** The future a statement suspends on: a `let` whose initializer yields, or an
      expression statement that yields. */
  function StmtYieldOperand(s: Stmt): Option<Expr>
  {
    match s
    case Let(_, Some(init)) => YieldOperand(init)
    case ExprStmt(e, _) => YieldOperand(e)
    case _ => None
  }

  // ----- the rewrite, as functions -----

  function ExpandStatements(ss: seq<Stmt>, names: seq<string>): seq<OutStmt>
  {
    if |ss| == 0 then [] else ExpandOne(ss[0], names) + ExpandStatements(ss[1..], names)
  }

  function ExpandOne(s: Stmt, names: seq<string>): (r: seq<OutStmt>)
    ensures |r| == if StmtYieldOperand(s).Some? then 3 else 1
  {
    match s
    case Let(pat, init) =>
      if init.Some? && YieldOperand(init.value).Some? then
        [YieldPoint(YieldOperand(init.value).value), BindResult(pat), FetchParams(names)]
      else [Verbatim(s)]
    case ExprStmt(e, semi) =>
      if YieldOperand(e).Some? then [YieldPoint(YieldOperand(e).value), DiscardResult, FetchParams(names)]
      else if e.Yield? || e.MacroCall? then [Verbatim(s)]
      else [OutExprStmt(TransformExpr(e, names), semi)]
    case _ => [Verbatim(s)]
  }

  function TransformExpr(e: Expr, names: seq<string>): OutExpr
  {
    match e
    case Block(_, ss) => OBlock(ExpandStatements(ss, names))
    case If(c, t, el) =>
      OIf(c, ExpandStatements(t, names), if el.Some? then Some(TransformExpr(el.value, names)) else None)
    case While(_, c, b) => OWhile(c, ExpandStatements(b, names))
    case Loop(_, b) => OLoop(ExpandStatements(b, names))
    case For(_, p, it, b) => OFor(p, it, ExpandStatements(b, names))
    case Match(sc, arms) => OMatch(sc, TransformArms(arms, names))
    case _ => OVerbatim(e)
  }

  function TransformArms(arms: seq<Arm>, names: seq<string>): (r: seq<OutArm>)
    ensures |r| == |arms|
  {
    if |arms| == 0 then [] else [TransformArm(arms[0], names)] + TransformArms(arms[1..], names)
  }

  function TransformArm(arm: Arm, names: seq<string>): OutArm
  {
    OutArm(arm.pat, arm.guard, TransformExpr(arm.body, names), arm.comma)
  }

  /** The whole coroutine body: the prelude, then the rewritten statements. */
  function FunctionBody(body: seq<Stmt>, names: seq<string>): seq<OutStmt>
  {
    [FetchParams(names)] + ExpandStatements(body, names)
  }

  // ----- the rewrite, as the macro performs it -----

  lemma ExpandStatementsSnoc(ss: seq<Stmt>, s: Stmt, names: seq<string>)
    ensures ExpandStatements(ss + [s], names) == ExpandStatements(ss, names) + ExpandOne(s, names)
  {
    if |ss| > 0 {
      assert (ss + [s])[1..] == ss[1..] + [s];
      ExpandStatementsSnoc(ss[1..], s, names);
    } else {
      assert [s][1..] == [];
    }
  }

  lemma TransformArmsSnoc(arms: seq<Arm>, arm: Arm, names: seq<string>)
    ensures TransformArms(arms + [arm], names) == TransformArms(arms, names) + [TransformArm(arm, names)]
  {
    if |arms| > 0 {
      assert (arms + [arm])[1..] == arms[1..] + [arm];
      TransformArmsSnoc(arms[1..], arm, names);
    } else {
      assert [arm][1..] == [];
    }
  }

  /** The statement loop: each statement contributes its pieces in order. */
  method TransformStatements(stmts: seq<Stmt>, names: seq<string>) returns (out: seq<OutStmt>)
    ensures out == ExpandStatements(stmts, names)
    decreases stmts, 2
  {
    out := [];
    for i := 0 to |stmts|
      invariant out == ExpandStatements(stmts[..i], names)
    {
      var pieces := TransformStatementsEntry(stmts[i], names);
      ExpandStatementsSnoc(stmts[..i], stmts[i], names);
      assert stmts[..i + 1] == stmts[..i] + [stmts[i]];
      out := out + pieces;
    }
    assert stmts[..|stmts|] == stmts;
  }

  /** The body of the statement loop for one statement. */
  method TransformStatementsEntry(stmt: Stmt, names: seq<string>) returns (pieces: seq<OutStmt>)
    ensures pieces == ExpandOne(stmt, names)
    decreases stmt, 1
  {
    match stmt {
      case Let(pat, init) =>
        if init.Some? {
          var e := init.value;
          if e.Yield? {
            if e.operand.Some? {
              return [YieldPoint(e.operand.value), BindResult(pat), FetchParams(names)];
            }
          } else if e.MacroCall? {
            if IsYieldMacro(e.path) && e.parsed.Some? {
              return [YieldPoint(e.parsed.value), BindResult(pat), FetchParams(names)];
            }
          }
        }
        pieces := [Verbatim(stmt)];
      case ExprStmt(e, semi) =>
        if e.Yield? {
          if e.operand.Some? {
            return [YieldPoint(e.operand.value), DiscardResult, FetchParams(names)];
          }
        } else if e.MacroCall? {
          if IsYieldMacro(e.path) && e.parsed.Some? {
            return [YieldPoint(e.parsed.value), DiscardResult, FetchParams(names)];
          }
        } else {
          var transformed := TransformExpression(e, names);
          return [OutExprStmt(transformed, semi)];
        }
        pieces := [Verbatim(stmt)];
      case MacroStmt(_, _) =>
        var transformed := TransformStatement(stmt, names);
        pieces := [transformed];
      case Item(_) =>
        var transformed := TransformStatement(stmt, names);
        pieces := [transformed];
    }
  }

  /** A single statement outside the `let` and expression cases of the loop. */
  method TransformStatement(stmt: Stmt, names: seq<string>) returns (out: OutStmt)
    ensures stmt.ExprStmt? ==> out == OutExprStmt(TransformExpr(stmt.expr, names), stmt.semi)
    ensures !stmt.ExprStmt? ==> out == Verbatim(stmt)
    decreases stmt, 0
  {
    match stmt {
      case ExprStmt(e, semi) =>
        var transformed := TransformExpression(e, names);
        out := OutExprStmt(transformed, semi);
      case _ =>
        out := Verbatim(stmt);
    }
  }

  method TransformExpression(e: Expr, names: seq<string>) returns (out: OutExpr)
    ensures out == TransformExpr(e, names)
    decreases e, 3
  {
    match e {
      case Block(_, ss) =>
        var body := TransformStatements(ss, names);
        out := OBlock(body);
      case If(c, t, el) =>
        var thenBody := TransformStatements(t, names);
        if el.Some? {
          var elseOut := TransformExpression(el.value, names);
          out := OIf(c, thenBody, Some(elseOut));
        } else {
          out := OIf(c, thenBody, None);
        }
      case While(_, c, b) =>
        var body := TransformStatements(b, names);
        out := OWhile(c, body);
      case Loop(_, b) =>
        var body := TransformStatements(b, names);
        out := OLoop(body);
      case For(_, p, it, b) =>
        var body := TransformStatements(b, names);
        out := OFor(p, it, body);
      case Match(sc, arms) =>
        var outArms: seq<OutArm> := [];
        for i := 0 to |arms|
          invariant outArms == TransformArms(arms[..i], names)
        {
          var body := TransformExpression(arms[i].body, names);
          TransformArmsSnoc(arms[..i], arms[i], names);
          assert arms[..i + 1] == arms[..i] + [arms[i]];
          outArms := outArms + [OutArm(arms[i].pat, arms[i].guard, body, arms[i].comma)];
        }
        assert arms[..|arms|] == arms;
        out := OMatch(sc, outArms);
      case _ =>
        out := OVerbatim(e);
    }
  }

  method TransformFunctionBody(body: seq<Stmt>, names: seq<string>) returns (out: seq<OutStmt>)
    ensures out == FunctionBody(body, names)
  {
    out := [FetchParams(names)];
    var rest := TransformStatements(body, names);
    out := out + rest;
  }
}
