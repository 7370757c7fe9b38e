/** Lifetime analysis of the parameter types of a coroutine system:
    which of Bevy's two system-parameter lifetimes 'w and 's a type needs
    (`LifetimeRequirement`, `analyze_lifetime_requirements`), and the rewrite
    that writes those lifetimes into the type (`add_lifetimes_to_type`). */
module Lifetimes {
  import opened Wrappers
  import opened Syntax

  const W: string := "w"
  const S: string := "s"
  const Static: string := "static"

  /** The pair of flags `needs_w`/`needs_s`. The source's `merge(&mut self, other)`
      updates the flags in place; `req.merge(x)` is modelled as `req := req.Merge(x)`. */
  datatype LifetimeRequirement = LifetimeRequirement(needsW: bool, needsS: bool)
  {
    static function NoneRequired(): LifetimeRequirement {
      LifetimeRequirement(false, false)
    }

    function Merge(other: LifetimeRequirement): LifetimeRequirement {
      LifetimeRequirement(needsW || other.needsW, needsS || other.needsS)
    }
  }

  /** The order of the join-semilattice: `a` asks for no lifetime that `b` does not. */
  predicate Below(a: LifetimeRequirement, b: LifetimeRequirement) {
    (a.needsW ==> b.needsW) && (a.needsS ==> b.needsS)
  }

  /** `Merge` is the least upper bound for `Below`. */
  lemma MergeIsLeastUpperBound(a: LifetimeRequirement, b: LifetimeRequirement, c: LifetimeRequirement)
    ensures Below(a, a.Merge(b)) && Below(b, a.Merge(b))
    ensures Below(a, c) && Below(b, c) ==> Below(a.Merge(b), c)
  {
  }

  /** `none()` is the identity of `merge`, which is commutative, associative and idempotent. */
  lemma MergeLaws(a: LifetimeRequirement, b: LifetimeRequirement, c: LifetimeRequirement)
    ensures a.Merge(LifetimeRequirement.NoneRequired()) == a == LifetimeRequirement.NoneRequired().Merge(a)
    ensures a.Merge(b) == b.Merge(a)
    ensures a.Merge(b).Merge(c) == a.Merge(b.Merge(c))
    ensures a.Merge(a) == a
  {
  }

  /** The fixed name table of `analyze_lifetime_requirements`. */
  function NameRequirement(ident: string): LifetimeRequirement {
    if ident == "Commands" || ident == "Query" || ident == "EventReader" then LifetimeRequirement(true, true)
    else if ident == "Res" || ident == "ResMut" || ident == "EventWriter" then LifetimeRequirement(true, false)
    else if ident == "Local" then LifetimeRequirement(false, true)
    else LifetimeRequirement.NoneRequired()
  }

  /** The lifetimes `add_lifetimes_to_type` writes in front of a segment's arguments. */
  function NameLifetimes(ident: string): seq<string> {
    if ident == "Res" || ident == "ResMut" || ident == "EventWriter" then [W]
    else if ident == "Local" then [S]
    else if ident == "Commands" || ident == "Query" || ident == "EventReader" then [W, S]
    else []
  }

  /** The two tables of the source agree: a name gets exactly the lifetimes it is said to need. */
  lemma TablesAgree(ident: string)
    ensures (W in NameLifetimes(ident)) == NameRequirement(ident).needsW
    ensures (S in NameLifetimes(ident)) == NameRequirement(ident).needsS
    ensures forall l :: l in NameLifetimes(ident) ==> l == W || l == S
  {
  }

  // ---------------------------------------------------------------------------
  // analyze_lifetime_requirements, as a specification by type shape

  function Requirement(t: Ty): LifetimeRequirement
    decreases t
  {
    match t
    case TRef(_, _, elem) => Requirement(elem)
    case TTuple(elems) => RequirementAll(elems)
    case TPath(_, segments) => RequirementSegments(segments)
    case TOther(_) => LifetimeRequirement.NoneRequired()
  }

  function RequirementAll(ts: seq<Ty>): LifetimeRequirement
    decreases ts
  {
    if ts == [] then LifetimeRequirement.NoneRequired()
    else RequirementAll(ts[..|ts| - 1]).Merge(Requirement(ts[|ts| - 1]))
  }

  function RequirementSegments(segs: seq<Segment>): LifetimeRequirement
    decreases segs
  {
    if segs == [] then LifetimeRequirement.NoneRequired()
    else RequirementSegments(segs[..|segs| - 1]).Merge(RequirementSegment(segs[|segs| - 1]))
  }

  function RequirementSegment(seg: Segment): LifetimeRequirement
    decreases seg
  {
    NameRequirement(seg.ident).Merge(
      match seg.args
      case Angle(args) => RequirementArgs(args)
      case _ => LifetimeRequirement.NoneRequired())
  }

  function RequirementArgs(args: seq<GenericArg>): LifetimeRequirement
    decreases args
  {
    if args == [] then LifetimeRequirement.NoneRequired()
    else RequirementArgs(args[..|args| - 1]).Merge(RequirementArg(args[|args| - 1]))
  }

  function RequirementArg(arg: GenericArg): LifetimeRequirement
    decreases arg
  {
    match arg
    case TypeArg(ty) => Requirement(ty)
    case _ => LifetimeRequirement.NoneRequired()
  }

  /** `analyze_lifetime_requirements`: the recursion with its two folding loops. */
  method AnalyzeLifetimeRequirements(ty: Ty) returns (req: LifetimeRequirement)
    ensures req == Requirement(ty)
    decreases ty
  {
    match ty {
      case TRef(_, _, elem) =>
        req := AnalyzeLifetimeRequirements(elem);
      case TTuple(elems) =>
        req := LifetimeRequirement.NoneRequired();
        for i := 0 to |elems|
          invariant req == RequirementAll(elems[..i])
        {
          var r := AnalyzeLifetimeRequirements(elems[i]);
          assert elems[..i + 1][..i] == elems[..i];
          req := req.Merge(r);
        }
        assert elems[..|elems|] == elems;
      case TPath(_, segments) =>
        req := LifetimeRequirement.NoneRequired();
        for i := 0 to |segments|
          invariant req == RequirementSegments(segments[..i])
        {
          var segment := segments[i];
          var before := req;
          req := req.Merge(NameRequirement(segment.ident));
          if segment.args.Angle? {
            var args := segment.args.args;
            for j := 0 to |args|
              invariant req == before.Merge(NameRequirement(segment.ident)).Merge(RequirementArgs(args[..j]))
            {
              assert args[..j + 1][..j] == args[..j];
              if args[j].TypeArg? {
                var r := AnalyzeLifetimeRequirements(args[j].ty);
                req := req.Merge(r);
              }
            }
            assert args[..|args|] == args;
          }
          assert segments[..i + 1][..i] == segments[..i];
        }
        assert segments[..|segments|] == segments;
      case TOther(_) =>
        req := LifetimeRequirement.NoneRequired();
    }
  }

  // ---------------------------------------------------------------------------
  // add_lifetimes_to_type, as a specification

  function LifetimeArgs(names: seq<string>): (r: seq<GenericArg>)
    ensures |r| == |names| && forall i :: 0 <= i < |r| ==> r[i] == LifetimeArg(names[i])
  {
    if names == [] then [] else [LifetimeArg(names[0])] + LifetimeArgs(names[1..])
  }

  function AddLifetimes(t: Ty): Ty
    decreases t
  {
    match t
    case TRef(lifetime, mutable, elem) =>
      TRef(Some(if lifetime.Some? then lifetime.value else Static), mutable, AddLifetimes(elem))
    case TTuple(elems) => TTuple(AddLifetimesAll(elems))
    case TPath(qself, segments) => TPath(qself, AddLifetimesSegments(segments))
    case TOther(_) => t
  }

  function AddLifetimesAll(ts: seq<Ty>): (r: seq<Ty>)
    ensures |r| == |ts| && forall i :: 0 <= i < |ts| ==> r[i] == AddLifetimes(ts[i])
    decreases ts
  {
    if ts == [] then [] else AddLifetimesAll(ts[..|ts| - 1]) + [AddLifetimes(ts[|ts| - 1])]
  }

  function AddLifetimesSegments(segs: seq<Segment>): (r: seq<Segment>)
    ensures |r| == |segs| && forall i :: 0 <= i < |segs| ==> r[i] == AddLifetimesSegment(segs[i])
    decreases segs
  {
    if segs == [] then [] else AddLifetimesSegments(segs[..|segs| - 1]) + [AddLifetimesSegment(segs[|segs| - 1])]
  }

  function AddLifetimesSegment(seg: Segment): Segment
    decreases seg
  {
    var lifetimes := NameLifetimes(seg.ident);
    match seg.args
    case NoArgs => if lifetimes != [] then Segment(seg.ident, Angle(LifetimeArgs(lifetimes))) else seg
    case Angle(args) => Segment(seg.ident, Angle(LifetimeArgs(lifetimes) + AddLifetimesArgs(args)))
    case Parenthesized(_) => seg
  }

  function AddLifetimesArgs(args: seq<GenericArg>): (r: seq<GenericArg>)
    ensures |r| == |args| && forall i :: 0 <= i < |args| ==> r[i] == AddLifetimesArg(args[i])
    decreases args
  {
    if args == [] then [] else AddLifetimesArgs(args[..|args| - 1]) + [AddLifetimesArg(args[|args| - 1])]
  }

  function AddLifetimesArg(arg: GenericArg): GenericArg
    decreases arg
  {
    match arg
    case TypeArg(ty) => TypeArg(AddLifetimes(ty))
    case _ => arg
  }

  /** `add_lifetimes_to_type`: the recursion, the `map`s over tuple elements and
      generic arguments, and the loop that rewrites `segment.arguments` in place. */
  method AddLifetimesToType(ty: Ty) returns (r: Ty)
    ensures r == AddLifetimes(ty)
    decreases ty
  {
    match ty {
      case TRef(lifetime, mutable, elem) =>
        var e := AddLifetimesToType(elem);
        var l := if lifetime.Some? then lifetime.value else Static;
        r := TRef(Some(l), mutable, e);
      case TTuple(elems) =>
        var out: seq<Ty> := [];
        for i := 0 to |elems|
          invariant out == AddLifetimesAll(elems[..i])
        {
          var e := AddLifetimesToType(elems[i]);
          assert elems[..i + 1][..i] == elems[..i];
          out := out + [e];
        }
        assert elems[..|elems|] == elems;
        r := TTuple(out);
      case TPath(qself, segments) =>
        var path := segments;
        for i := 0 to |path|
          invariant |path| == |segments|
          invariant path[..i] == AddLifetimesSegments(segments[..i])
          invariant path[i..] == segments[i..]
        {
          var updated := AddLifetimesToSegment(path[i]);
          var before := path;
          path := path[i := updated];
          assert path[i + 1..] == before[i + 1..];
          assert segments[..i + 1][..i] == segments[..i];
          assert path[..i + 1] == path[..i] + [path[i]];
        }
        assert segments[..|segments|] == segments;
        assert path[..|path|] == path;
        r := TPath(qself, path);
      case TOther(_) =>
        r := ty;
    }
  }

  /** The body of the loop over `&mut path.segments`: the new `segment.arguments`. */
  method AddLifetimesToSegment(segment: Segment) returns (updated: Segment)
    ensures updated == AddLifetimesSegment(segment)
    decreases segment
  {
    var ident := segment.ident;
    var needsLifetimes := ident in {"Commands", "Query", "Local", "Res", "ResMut", "EventWriter", "EventReader"};
    updated := segment;
    match segment.args {
      case NoArgs =>
        if needsLifetimes {
          if ident == "Res" || ident == "ResMut" || ident == "EventWriter" {
            updated := Segment(ident, Angle([LifetimeArg(W)]));
            assert LifetimeArgs(NameLifetimes(ident)) == [LifetimeArg(W)];
          } else if ident == "Local" {
            updated := Segment(ident, Angle([LifetimeArg(S)]));
            assert LifetimeArgs(NameLifetimes(ident)) == [LifetimeArg(S)];
          } else {
            updated := Segment(ident, Angle([LifetimeArg(W), LifetimeArg(S)]));
            assert LifetimeArgs(NameLifetimes(ident)) == [LifetimeArg(W), LifetimeArg(S)];
          }
        }
      case Angle(args) =>
        var newArgs: seq<GenericArg> := [];
        for j := 0 to |args|
          invariant newArgs == AddLifetimesArgs(args[..j])
        {
          assert args[..j + 1][..j] == args[..j];
          match args[j] {
            case TypeArg(t) =>
              var t' := AddLifetimesToType(t);
              newArgs := newArgs + [TypeArg(t')];
            case _ =>
              newArgs := newArgs + [args[j]];
          }
        }
        assert args[..|args|] == args;
        if needsLifetimes {
          var finalArgs: seq<GenericArg> := [];
          if ident == "Res" || ident == "ResMut" || ident == "EventWriter" {
            finalArgs := finalArgs + [LifetimeArg(W)];
          } else if ident == "Local" {
            finalArgs := finalArgs + [LifetimeArg(S)];
          } else if ident == "Query" || ident == "Commands" || ident == "EventReader" {
            finalArgs := finalArgs + [LifetimeArg(W), LifetimeArg(S)];
          }
          assert finalArgs == LifetimeArgs(NameLifetimes(ident));
          finalArgs := finalArgs + newArgs;
          updated := Segment(ident, Angle(finalArgs));
        } else {
          updated := Segment(ident, Angle(newArgs));
          assert LifetimeArgs(NameLifetimes(ident)) + newArgs == newArgs;
        }
      case Parenthesized(_) =>
    }
  }
}
