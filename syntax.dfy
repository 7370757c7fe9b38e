/** The part of Rust's syntax tree that the `#[coroutine_system]` macro looks at.
    Token streams are replaced by these datatypes; anything the macro never
    inspects is kept as opaque text. */
module Syntax {
  import opened Wrappers

  /** Types (syn::Type). Only references, tuples and paths are inspected. */
  datatype Ty =
    | TRef(lifetime: Option<string>, mutable: bool, elem: Ty)
    | TTuple(elems: seq<Ty>)
    | TPath(qself: Option<Ty>, segments: seq<Segment>)
    | TOther(text: string)   // arrays, slices, fn pointers, `impl Trait`, ...

  /** One segment `Ident<args>` of a path. */
  datatype Segment = Segment(ident: string, args: PathArgs)

  datatype PathArgs =
    | NoArgs
    | Angle(args: seq<GenericArg>)     // `<...>`
    | Parenthesized(text: string)      // `Fn(A) -> B`

  datatype GenericArg =
    | TypeArg(ty: Ty)
    | LifetimeArg(name: string)        // the name without its leading quote
    | OtherArg(text: string)           // const arguments, associated-type bindings, ...

  /** Patterns (syn::Pat). */
  datatype Pat =
    | PIdent(name: string, mutable: bool)   // `x`, `mut x`; also `ref x`, `ref mut x` and `x @ p`, which syn parses as identifier patterns too
    | PTyped(pat: Pat, ty: Ty)              // `x: T` in a `let`
    | PWild                                 // `_`
    | POther(text: string)                  // tuple, struct, slice patterns, ...

  /** Expressions (syn::Expr). Only the forms the rewrite distinguishes get a case
      of their own; every other expression is `Other`, whose operands the rewrite
      never visits. */
  datatype Expr =
    | Yield(operand: Option<Expr>)
    | MacroCall(path: seq<string>, parsed: Option<Expr>)   // `parsed` is None when the tokens do not parse as an expression
    | Block(lbl: Option<string>, stmts: seq<Stmt>)
    | If(cond: Expr, thenBranch: seq<Stmt>, elseBranch: Option<Expr>)
    | While(lbl: Option<string>, cond: Expr, body: seq<Stmt>)
    | Loop(lbl: Option<string>, body: seq<Stmt>)
    | For(lbl: Option<string>, pat: Pat, iter: Expr, body: seq<Stmt>)
    | Match(scrutinee: Expr, arms: seq<Arm>)
    | Other(head: string, operands: seq<Expr>)

  datatype Arm = Arm(pat: Pat, guard: Option<Expr>, body: Expr, comma: bool)

  /** Statements (syn::Stmt). */
  datatype Stmt =
    | Let(pat: Pat, init: Option<Expr>)
    | ExprStmt(expr: Expr, semi: bool)
    | MacroStmt(path: seq<string>, parsed: Option<Expr>)   // a macro in statement position
    | Item(text: string)                                 // a nested `fn`, `struct`, `use`, ...

  datatype ReturnType = DefaultReturn | Explicit(ty: Ty)

  /** A function parameter (syn::FnArg). */
  datatype FnArg = Receiver(text: string) | Typed(pat: Pat, ty: Ty)

  /** The annotated function (syn::ItemFn). */
  datatype ItemFn = ItemFn(vis: string, name: string, output: ReturnType, inputs: seq<FnArg>, body: seq<Stmt>)
}
