/** The entry of the `#[coroutine_system]` attribute: the checks on the annotated
    function's signature, the loop that collects its parameters, and the declarations
    the macro emits from them (the parameter bundle struct, the coroutine body and the
    system id). */
module Signature {
  import opened Wrappers
  import opened Syntax
  import opened Lifetimes
  import opened LifetimeProperties
  import opened Naming
  import opened Transform

  /** The three compile errors the macro can emit instead of an expansion. */
  datatype SigError =
    | ReturnTypeGiven   // "coroutine_system functions must not have a return type"
    | SelfParameter     // "coroutine_system functions cannot have self parameters"
    | ComplexPattern    // "coroutine_system only supports simple parameter patterns"

  /** What the parameter loop has gathered: names and rewritten types, in declaration
      order, and the merged lifetime requirement of the declared types. */
  datatype Collected = Collected(names: seq<string>, types: seq<Ty>, req: LifetimeRequirement)

  /** The error one parameter raises, if any. */
  function ArgError(arg: FnArg): (r: Option<SigError>)
    ensures r.None? <==> arg.Typed? && arg.pat.PIdent?
  {
    match arg
    case Receiver(_) => Some(SelfParameter)
    case Typed(pat, _) => if pat.PIdent? then None else Some(ComplexPattern)
  }

  /** The parameter loop as a left fold that stops at the first error. */
  function Collect(inputs: seq<FnArg>): (r: Result<Collected, SigError>)
    ensures r.Success? ==> |r.value.names| == |r.value.types| == |inputs|
  {
    if |inputs| == 0 then Success(Collected([], [], LifetimeRequirement.NoneRequired()))
    else
      match Collect(inputs[..|inputs| - 1])
      case Failure(e) => Failure(e)
      case Success(c) =>
        var arg := inputs[|inputs| - 1];
        if ArgError(arg).Some? then Failure(ArgError(arg).value)
        else Success(Collected(c.names + [arg.pat.name], c.types + [AddLifetimes(arg.ty)], c.req.Merge(Requirement(arg.ty))))
  }

  /** The declared type of every parameter (a receiver, which is rejected anyway, counts as opaque). */
  function DeclaredTypes(inputs: seq<FnArg>): (r: seq<Ty>)
    ensures |r| == |inputs|
    ensures forall i :: 0 <= i < |inputs| && inputs[i].Typed? ==> r[i] == inputs[i].ty
  {
    if |inputs| == 0 then []
    else DeclaredTypes(inputs[..|inputs| - 1]) + [DeclaredType(inputs[|inputs| - 1])]
  }

  function DeclaredType(arg: FnArg): Ty
  {
    match arg
    case Receiver(text) => TOther(text)
    case Typed(_, ty) => ty
  }

  lemma {:induction false} CollectFailsAtFirstBadParameter(inputs: seq<FnArg>)
    ensures Collect(inputs).Failure? <==> exists i :: 0 <= i < |inputs| && ArgError(inputs[i]).Some?
    ensures Collect(inputs).Failure? ==>
      exists i :: 0 <= i < |inputs| && ArgError(inputs[i]) == Some(Collect(inputs).error)
                  && forall j :: 0 <= j < i ==> ArgError(inputs[j]).None?
    decreases |inputs|
  {
    if |inputs| > 0 {
      var prefix := inputs[..|inputs| - 1];
      CollectFailsAtFirstBadParameter(prefix);
      if Collect(prefix).Failure? {
        var i :| 0 <= i < |prefix| && ArgError(prefix[i]) == Some(Collect(prefix).error)
                 && forall j :: 0 <= j < i ==> ArgError(prefix[j]).None?;
        assert inputs[i] == prefix[i];
      } else {
        assert forall j :: 0 <= j < |prefix| ==> ArgError(inputs[j]).None?;
      }
    }
  }

  lemma {:induction false} CollectSucceeds(inputs: seq<FnArg>)
    requires Collect(inputs).Success?
    ensures var c := Collect(inputs).value;
      && |c.names| == |inputs| && |c.types| == |inputs|
      && (forall i :: 0 <= i < |inputs| ==>
            inputs[i].Typed? && inputs[i].pat.PIdent?
            && c.names[i] == inputs[i].pat.name && c.types[i] == AddLifetimes(inputs[i].ty))
      && c.req == RequirementAll(DeclaredTypes(inputs))
    decreases |inputs|
  {
    if |inputs| > 0 {
      var n := |inputs| - 1;
      var prefix := inputs[..n];
      assert Collect(prefix).Success?;
      CollectSucceeds(prefix);
      var c0 := Collect(prefix).value;
      var arg := inputs[n];
      assert ArgError(arg).None?;
      var c := Collect(inputs).value;
      assert c == Collected(c0.names + [arg.pat.name], c0.types + [AddLifetimes(arg.ty)], c0.req.Merge(Requirement(arg.ty)));
      forall i | 0 <= i < |inputs|
        ensures inputs[i].Typed? && inputs[i].pat.PIdent?
                && c.names[i] == inputs[i].pat.name && c.types[i] == AddLifetimes(inputs[i].ty)
      {
        if i < n {
          assert inputs[i] == prefix[i];
        }
      }
      var ts := DeclaredTypes(inputs);
      assert ts[..n] == DeclaredTypes(prefix);
      assert ts[n] == arg.ty;
    }
  }

  /** A function is rejected exactly when one of its parameters is a receiver or has a
      pattern other than a plain identifier; the first such parameter decides the error.
      Otherwise the names and the rewritten types are those of the parameters, in order,
      and the requirement is that of all declared types together. */
  lemma CollectCharacterized(inputs: seq<FnArg>)
    ensures Collect(inputs).Failure? <==> exists i :: 0 <= i < |inputs| && ArgError(inputs[i]).Some?
    ensures Collect(inputs).Failure? ==>
      exists i :: 0 <= i < |inputs| && ArgError(inputs[i]) == Some(Collect(inputs).error)
                  && forall j :: 0 <= j < i ==> ArgError(inputs[j]).None?
    ensures Collect(inputs).Success? ==>
      var c := Collect(inputs).value;
      && |c.names| == |inputs| && |c.types| == |inputs|
      && (forall i :: 0 <= i < |inputs| ==>
            c.names[i] == inputs[i].pat.name && c.types[i] == AddLifetimes(inputs[i].ty))
      && c.req == RequirementAll(DeclaredTypes(inputs))
  {
    CollectFailsAtFirstBadParameter(inputs);
    if Collect(inputs).Success? {
      CollectSucceeds(inputs);
    }
  }

  /** The parameter loop of the macro. */
  method CollectParams(inputs: seq<FnArg>) returns (r: Result<Collected, SigError>)
    ensures r == Collect(inputs)
  {
    var names: seq<string> := [];
    var types: seq<Ty> := [];
    var req := LifetimeRequirement.NoneRequired();
    for i := 0 to |inputs|
      invariant Collect(inputs[..i]) == Success(Collected(names, types, req))
    {
      assert inputs[..i + 1][..i] == inputs[..i];
      match inputs[i] {
        case Receiver(_) =>
          CollectStopsAtFailure(inputs, i + 1);
          return Failure(SelfParameter);
        case Typed(pat, ty) =>
          if pat.PIdent? {
            names := names + [pat.name];
          } else {
            CollectStopsAtFailure(inputs, i + 1);
            return Failure(ComplexPattern);
          }
          var tyReq := AnalyzeLifetimeRequirements(ty);
          req := req.Merge(tyReq);
          var rewritten := AddLifetimesToType(ty);
          types := types + [rewritten];
      }
    }
    assert inputs[..|inputs|] == inputs;
    r := Success(Collected(names, types, req));
  }

  /** Once a prefix fails, the whole list fails with the same error. */
  lemma {:induction false} CollectStopsAtFailure(inputs: seq<FnArg>, k: nat)
    requires k <= |inputs| && Collect(inputs[..k]).Failure?
    ensures Collect(inputs) == Collect(inputs[..k])
    decreases |inputs| - k
  {
    if k < |inputs| {
      assert inputs[..k + 1][..k] == inputs[..k];
      CollectStopsAtFailure(inputs, k + 1);
    } else {
      assert inputs[..k] == inputs;
    }
  }

  // ----- the parameter bundle struct -----

  const Unit: Ty := TTuple([])

  /** `&'l ()` */
  function RefUnit(l: string): Ty
  {
    TRef(Some(l), false, Unit)
  }

  /** `::std::marker::PhantomData<arg>` */
  function PhantomData(arg: Ty): Ty
  {
    TPath(None, [Segment("std", NoArgs), Segment("marker", NoArgs), Segment("PhantomData", Angle([TypeArg(arg)]))])
  }

  /** The type of the `_phantom` field, present when not both lifetimes are used by a
      parameter: it mentions exactly the missing ones. */
  function PhantomType(req: LifetimeRequirement): Option<Ty>
  {
    if req.needsW && req.needsS then None
    else if !req.needsW && !req.needsS then Some(PhantomData(TTuple([RefUnit(W), RefUnit(S)])))
    else if !req.needsW then Some(PhantomData(RefUnit(W)))
    else Some(PhantomData(RefUnit(S)))
  }

  function Missing(req: LifetimeRequirement): set<string>
  {
    (if req.needsW then {} else {W}) + (if req.needsS then {} else {S})
  }

  lemma PhantomDataLifetimes(arg: Ty)
    ensures LifetimesOf(PhantomData(arg)) == LifetimesOf(arg)
  {
    var segs := [Segment("std", NoArgs), Segment("marker", NoArgs), Segment("PhantomData", Angle([TypeArg(arg)]))];
    assert segs[..2][..1][..0] == [];
    assert LifetimesOfSegments(segs[..2][..1]) == {};
    assert LifetimesOfSegments(segs[..2]) == {};
    var args := [TypeArg(arg)];
    assert args[..0] == [];
    assert LifetimesOfArgs(args) == LifetimesOf(arg);
    assert LifetimesOfSegment(segs[2]) == LifetimesOf(arg);
    assert LifetimesOfSegments(segs) == LifetimesOfSegments(segs[..2]) + LifetimesOfSegment(segs[2]);
  }

  lemma RefUnitLifetimes(l: string)
    ensures LifetimesOf(RefUnit(l)) == {l}
  {
    assert LifetimesOf(Unit) == {};
  }

  /** The phantom field exists exactly when a lifetime is missing, and it names exactly
      the missing lifetimes, so that `<'w, 's>` are both used by the struct. */
  lemma PhantomCoversMissing(req: LifetimeRequirement)
    ensures PhantomType(req).Some? <==> !(req.needsW && req.needsS)
    ensures PhantomType(req).Some? ==> LifetimesOf(PhantomType(req).value) == Missing(req)
  {
    RefUnitLifetimes(W);
    RefUnitLifetimes(S);
    if !req.needsW && !req.needsS {
      var pair := [RefUnit(W), RefUnit(S)];
      assert pair[..1][..0] == [];
      assert LifetimesOfAll(pair[..1]) == {W};
      assert LifetimesOfAll(pair) == {W, S};
      PhantomDataLifetimes(TTuple(pair));
    } else if !req.needsW {
      PhantomDataLifetimes(RefUnit(W));
    } else if !req.needsS {
      PhantomDataLifetimes(RefUnit(S));
    }
  }

  // ----- the expansion -----

  datatype Field = Field(name: string, ty: Ty)

  /** The declarations the macro emits for an accepted function. The wrapper system
      function around them is the per-tick driver. */
  datatype Expansion = Expansion(
    structName: string,
    fields: seq<Field>,
    phantom: Option<Ty>,
    body: seq<OutStmt>,
    id: string)

  function Fields(names: seq<string>, types: seq<Ty>): (r: seq<Field>)
    requires |names| == |types|
    ensures |r| == |names| && forall i :: 0 <= i < |r| ==> r[i] == Field(names[i], types[i])
  {
    if |names| == 0 then [] else [Field(names[0], types[0])] + Fields(names[1..], types[1..])
  }

  /** `concat!(module_path!(), "::", name)` */
  function SystemId(modulePath: string, name: string): string
  {
    modulePath + "::" + name
  }

  function Expand(f: ItemFn, modulePath: string): Result<Expansion, SigError>
  {
    if f.output.Explicit? then Failure(ReturnTypeGiven)
    else
      match Collect(f.inputs)
      case Failure(e) => Failure(e)
      case Success(c) =>
        Success(Expansion(ParamsStructName(f.name), Fields(c.names, c.types), PhantomType(c.req),
                          FunctionBody(f.body, c.names), SystemId(modulePath, f.name)))
  }

  /** `coroutine_system`: validate the signature, collect the parameters, then build the
      struct, the rewritten body and the id. */
  method CoroutineSystem(f: ItemFn, modulePath: string) returns (r: Result<Expansion, SigError>)
    ensures r == Expand(f, modulePath)
  {
    if f.output.Explicit? {
      return Failure(ReturnTypeGiven);
    }
    var collected := CollectParams(f.inputs);
    if collected.Failure? {
      return Failure(collected.error);
    }
    var c := collected.value;
    CollectSucceeds(f.inputs);
    var structName := ParamsStructName(f.name);
    var body := TransformFunctionBody(f.body, c.names);
    r := Success(Expansion(structName, Fields(c.names, c.types), PhantomType(c.req), body, SystemId(modulePath, f.name)));
  }

  /** A function is rejected exactly when it has a return type, a receiver, or a
      parameter whose pattern is not a plain identifier; the return type is checked first. */
  lemma ExpandRejects(f: ItemFn, modulePath: string)
    ensures Expand(f, modulePath).Failure? <==>
      f.output.Explicit? || exists i :: 0 <= i < |f.inputs| && ArgError(f.inputs[i]).Some?
    ensures f.output.Explicit? ==> Expand(f, modulePath) == Failure(ReturnTypeGiven)
  {
    CollectCharacterized(f.inputs);
  }

  /** An accepted function yields one field per parameter, named and typed as the
      parameter with lifetimes added, in declaration order. */
  lemma ExpandFields(f: ItemFn, modulePath: string)
    requires Expand(f, modulePath).Success?
    ensures var x := Expand(f, modulePath).value;
      && |x.fields| == |f.inputs|
      && forall i :: 0 <= i < |f.inputs| ==>
           f.inputs[i].Typed? && f.inputs[i].pat.PIdent?
           && x.fields[i] == Field(f.inputs[i].pat.name, AddLifetimes(f.inputs[i].ty))
  {
    CollectCharacterized(f.inputs);
  }

  function FieldLifetimes(fields: seq<Field>): set<string>
  {
    if |fields| == 0 then {} else LifetimesOf(fields[0].ty) + FieldLifetimes(fields[1..])
  }

  lemma {:induction false} FieldLifetimesAt(fields: seq<Field>, i: nat)
    requires i < |fields|
    ensures LifetimesOf(fields[i].ty) <= FieldLifetimes(fields)
    decreases i
  {
    if i > 0 {
      FieldLifetimesAt(fields[1..], i - 1);
    }
  }

  lemma {:induction false} RequirementAllFrom(ts: seq<Ty>)
    ensures RequirementAll(ts).needsW ==> exists i :: 0 <= i < |ts| && Requirement(ts[i]).needsW
    ensures RequirementAll(ts).needsS ==> exists i :: 0 <= i < |ts| && Requirement(ts[i]).needsS
    decreases |ts|
  {
    if |ts| > 0 {
      var prefix := ts[..|ts| - 1];
      RequirementAllFrom(prefix);
      if RequirementAll(prefix).needsW {
        var i :| 0 <= i < |prefix| && Requirement(prefix[i]).needsW;
        assert ts[i] == prefix[i];
      }
      if RequirementAll(prefix).needsS {
        var i :| 0 <= i < |prefix| && Requirement(prefix[i]).needsS;
        assert ts[i] == prefix[i];
      }
    }
  }

  /** Bevy requires the struct's lifetimes `'w` and `'s` to be used: for parameter types
      that do not give a table name parenthesized arguments, the fields and the phantom
      field together mention both. */
  lemma StructUsesBothLifetimes(f: ItemFn, modulePath: string)
    requires Expand(f, modulePath).Success?
    requires forall i :: 0 <= i < |f.inputs| ==> TableNamesAngled(DeclaredType(f.inputs[i]))
    ensures var x := Expand(f, modulePath).value;
      W in FieldLifetimes(x.fields) + (if x.phantom.Some? then LifetimesOf(x.phantom.value) else {})
      && S in FieldLifetimes(x.fields) + (if x.phantom.Some? then LifetimesOf(x.phantom.value) else {})
  {
    CollectCharacterized(f.inputs);
    var c := Collect(f.inputs).value;
    var x := Expand(f, modulePath).value;
    var ts := DeclaredTypes(f.inputs);
    PhantomCoversMissing(c.req);
    RequirementAllFrom(ts);
    if c.req.needsW {
      var i :| 0 <= i < |ts| && Requirement(ts[i]).needsW;
      RequiredLifetimesAppear(f.inputs[i].ty);
      FieldLifetimesAt(x.fields, i);
    }
    if c.req.needsS {
      var i :| 0 <= i < |ts| && Requirement(ts[i]).needsS;
      RequiredLifetimesAppear(f.inputs[i].ty);
      FieldLifetimesAt(x.fields, i);
    }
  }

  /** The struct of the crate's example system `box_animation` is `BoxAnimationParams`. */
  lemma ExampleStructName(f: ItemFn, modulePath: string)
    requires f.name == "box_animation" && Expand(f, modulePath).Success?
    ensures Expand(f, modulePath).value.structName == "BoxAnimationParams"
    ensures Expand(f, modulePath).value.id == modulePath + "::box_animation"
  {
    BoxAnimationExample();
  }
}
