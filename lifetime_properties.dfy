/** Properties of the lifetime analysis and of the lifetime rewrite:
    the analysis is the table lookup over every path segment it visits;
    the rewrite writes every lifetime the analysis asks for, keeps the
    lifetimes already written and changes nothing but lifetimes. */
module LifetimeProperties {
  import opened Wrappers
  import opened Syntax
  import opened Lifetimes

  // ---------------------------------------------------------------------------
  // The path segments the analysis visits (a reference definition)

  function Visited(t: Ty): set<Segment>
    decreases t
  {
    match t
    case TRef(_, _, elem) => Visited(elem)
    case TTuple(elems) => VisitedAll(elems)
    case TPath(_, segments) => VisitedSegments(segments)
    case TOther(_) => {}
  }

  function VisitedAll(ts: seq<Ty>): (r: set<Segment>)
    ensures forall s :: s in r ==> exists i :: 0 <= i < |ts| && s in Visited(ts[i])
    decreases ts
  {
    if ts == [] then {} else VisitedAll(ts[..|ts| - 1]) + Visited(ts[|ts| - 1])
  }

  function VisitedSegments(segs: seq<Segment>): (r: set<Segment>)
    ensures forall s :: s in r ==> exists i :: 0 <= i < |segs| && s in VisitedSegment(segs[i])
    decreases segs
  {
    if segs == [] then {} else VisitedSegments(segs[..|segs| - 1]) + VisitedSegment(segs[|segs| - 1])
  }

  function VisitedSegment(seg: Segment): set<Segment>
    decreases seg
  {
    {seg} + match seg.args
            case Angle(args) => VisitedArgs(args)
            case _ => {}
  }

  function VisitedArgs(args: seq<GenericArg>): (r: set<Segment>)
    ensures forall s :: s in r ==> exists i :: 0 <= i < |args| && s in VisitedArg(args[i])
    decreases args
  {
    if args == [] then {} else VisitedArgs(args[..|args| - 1]) + VisitedArg(args[|args| - 1])
  }

  function VisitedArg(arg: GenericArg): set<Segment>
    decreases arg
  {
    match arg
    case TypeArg(ty) => Visited(ty)
    case _ => {}
  }

  /** The requirement that the table assigns to a set of visited segments. */
  function Needs(v: set<Segment>): LifetimeRequirement {
    LifetimeRequirement(
      exists s :: s in v && NameRequirement(s.ident).needsW,
      exists s :: s in v && NameRequirement(s.ident).needsS)
  }

  lemma NeedsUnion(a: set<Segment>, b: set<Segment>)
    ensures Needs(a + b) == Needs(a).Merge(Needs(b))
  {
  }

  lemma NeedsSingleton(seg: Segment)
    ensures Needs({seg}) == NameRequirement(seg.ident)
  {
    var n := NameRequirement(seg.ident);
    if n.needsW { assert seg in {seg} && NameRequirement(seg.ident).needsW; }
    if n.needsS { assert seg in {seg} && NameRequirement(seg.ident).needsS; }
  }

  /** `analyze_lifetime_requirements` asks for 'w (resp. 's) exactly when some path
      segment it visits is named in the table with 'w (resp. 's). */
  lemma {:induction false} RequirementIsTableOverVisited(t: Ty)
    ensures Requirement(t) == Needs(Visited(t))
    decreases t
  {
    match t
    case TRef(_, _, elem) => RequirementIsTableOverVisited(elem);
    case TTuple(elems) => RequirementAllIsTable(elems);
    case TPath(_, segments) => RequirementSegmentsIsTable(segments);
    case TOther(_) =>
  }

  lemma {:induction false} RequirementAllIsTable(ts: seq<Ty>)
    ensures RequirementAll(ts) == Needs(VisitedAll(ts))
    decreases ts
  {
    if ts != [] {
      RequirementAllIsTable(ts[..|ts| - 1]);
      RequirementIsTableOverVisited(ts[|ts| - 1]);
      NeedsUnion(VisitedAll(ts[..|ts| - 1]), Visited(ts[|ts| - 1]));
    }
  }

  lemma {:induction false} RequirementSegmentsIsTable(segs: seq<Segment>)
    ensures RequirementSegments(segs) == Needs(VisitedSegments(segs))
    decreases segs
  {
    if segs != [] {
      RequirementSegmentsIsTable(segs[..|segs| - 1]);
      RequirementSegmentIsTable(segs[|segs| - 1]);
      NeedsUnion(VisitedSegments(segs[..|segs| - 1]), VisitedSegment(segs[|segs| - 1]));
    }
  }

  lemma {:induction false} RequirementSegmentIsTable(seg: Segment)
    ensures RequirementSegment(seg) == Needs(VisitedSegment(seg))
    decreases seg
  {
    NeedsSingleton(seg);
    match seg.args
    case Angle(args) =>
      RequirementArgsIsTable(args);
      NeedsUnion({seg}, VisitedArgs(args));
    case NoArgs =>
      assert VisitedSegment(seg) == {seg};
    case Parenthesized(_) =>
      assert VisitedSegment(seg) == {seg};
  }

  lemma {:induction false} RequirementArgsIsTable(args: seq<GenericArg>)
    ensures RequirementArgs(args) == Needs(VisitedArgs(args))
    decreases args
  {
    if args != [] {
      RequirementArgsIsTable(args[..|args| - 1]);
      RequirementArgIsTable(args[|args| - 1]);
      NeedsUnion(VisitedArgs(args[..|args| - 1]), VisitedArg(args[|args| - 1]));
    }
  }

  lemma {:induction false} RequirementArgIsTable(arg: GenericArg)
    ensures RequirementArg(arg) == Needs(VisitedArg(arg))
    decreases arg
  {
    match arg
    case TypeArg(ty) => RequirementIsTableOverVisited(ty);
    case _ =>
  }

  // ---------------------------------------------------------------------------
  // The lifetimes a type mentions

  function LifetimesOf(t: Ty): set<string>
    decreases t
  {
    match t
    case TRef(lifetime, _, elem) => (if lifetime.Some? then {lifetime.value} else {}) + LifetimesOf(elem)
    case TTuple(elems) => LifetimesOfAll(elems)
    case TPath(_, segments) => LifetimesOfSegments(segments)
    case TOther(_) => {}
  }

  function LifetimesOfAll(ts: seq<Ty>): (r: set<string>)
    ensures forall i, l :: 0 <= i < |ts| && l in LifetimesOf(ts[i]) ==> l in r
    decreases ts
  {
    if ts == [] then {} else LifetimesOfAll(ts[..|ts| - 1]) + LifetimesOf(ts[|ts| - 1])
  }

  function LifetimesOfSegments(segs: seq<Segment>): (r: set<string>)
    ensures forall i, l :: 0 <= i < |segs| && l in LifetimesOfSegment(segs[i]) ==> l in r
    decreases segs
  {
    if segs == [] then {} else LifetimesOfSegments(segs[..|segs| - 1]) + LifetimesOfSegment(segs[|segs| - 1])
  }

  function LifetimesOfSegment(seg: Segment): set<string>
    decreases seg
  {
    match seg.args
    case Angle(args) => LifetimesOfArgs(args)
    case _ => {}
  }

  function LifetimesOfArgs(args: seq<GenericArg>): (r: set<string>)
    ensures forall i, l :: 0 <= i < |args| && l in LifetimesOfArg(args[i]) ==> l in r
    decreases args
  {
    if args == [] then {} else LifetimesOfArgs(args[..|args| - 1]) + LifetimesOfArg(args[|args| - 1])
  }

  function LifetimesOfArg(arg: GenericArg): set<string>
    decreases arg
  {
    match arg
    case TypeArg(ty) => LifetimesOf(ty)
    case LifetimeArg(name) => {name}
    case OtherArg(_) => {}
  }

  /** A type in which no segment named in the lifetime table has parenthesized
      arguments (`Res(..)` is not a Rust type; the rewrite leaves such a segment alone). */
  predicate TableNamesAngled(t: Ty) {
    forall s :: s in Visited(t) && s.args.Parenthesized? ==> NameLifetimes(s.ident) == []
  }

  /** Every lifetime a visited segment is owed by the table appears in the rewritten type. */
  lemma {:induction false} AddLifetimesCovers(t: Ty)
    ensures forall s, l :: s in Visited(t) && !s.args.Parenthesized? && l in NameLifetimes(s.ident)
                           ==> l in LifetimesOf(AddLifetimes(t))
    decreases t
  {
    match t
    case TRef(lifetime, mutable, elem) =>
      AddLifetimesCovers(elem);
    case TTuple(elems) =>
      var out := AddLifetimesAll(elems);
      forall i | 0 <= i < |elems|
        ensures forall s, l :: s in Visited(elems[i]) && !s.args.Parenthesized? && l in NameLifetimes(s.ident)
                               ==> l in LifetimesOfAll(out)
      {
        AddLifetimesCovers(elems[i]);
        assert out[i] == AddLifetimes(elems[i]);
      }
    case TPath(qself, segments) =>
      var out := AddLifetimesSegments(segments);
      forall i | 0 <= i < |segments|
        ensures forall s, l :: s in VisitedSegment(segments[i]) && !s.args.Parenthesized? && l in NameLifetimes(s.ident)
                               ==> l in LifetimesOfSegments(out)
      {
        AddLifetimesSegmentCovers(segments[i]);
        assert out[i] == AddLifetimesSegment(segments[i]);
      }
    case TOther(_) =>
  }

  lemma {:induction false} AddLifetimesSegmentCovers(seg: Segment)
    ensures forall s, l :: s in VisitedSegment(seg) && !s.args.Parenthesized? && l in NameLifetimes(s.ident)
                           ==> l in LifetimesOfSegment(AddLifetimesSegment(seg))
    decreases seg
  {
    var lifetimes := NameLifetimes(seg.ident);
    var prefix := LifetimeArgs(lifetimes);
    match seg.args
    case NoArgs =>
      assert VisitedSegment(seg) == {seg};
      if lifetimes != [] {
        forall l | l in lifetimes ensures l in LifetimesOfArgs(prefix) {
          var i :| 0 <= i < |lifetimes| && lifetimes[i] == l;
          assert prefix[i] == LifetimeArg(l);
        }
      }
    case Parenthesized(_) =>
      assert VisitedSegment(seg) == {seg};
    case Angle(args) =>
      var rewritten := AddLifetimesArgs(args);
      var all := prefix + rewritten;
      assert AddLifetimesSegment(seg) == Segment(seg.ident, Angle(all));
      forall l | l in lifetimes ensures l in LifetimesOfArgs(all) {
        var i :| 0 <= i < |lifetimes| && lifetimes[i] == l;
        assert all[i] == LifetimeArg(l);
      }
      forall j | 0 <= j < |args|
        ensures forall s, l :: s in VisitedArg(args[j]) && !s.args.Parenthesized? && l in NameLifetimes(s.ident)
                               ==> l in LifetimesOfArgs(all)
      {
        assert all[|prefix| + j] == AddLifetimesArg(args[j]);
        match args[j]
        case TypeArg(ty) =>
          AddLifetimesCovers(ty);
          assert LifetimesOfArg(all[|prefix| + j]) == LifetimesOf(AddLifetimes(ty));
        case _ =>
      }
  }

  /** So when the table names are used as types, the rewritten type mentions 'w
      whenever the analysis asks for 'w, and 's whenever it asks for 's. */
  lemma RequiredLifetimesAppear(t: Ty)
    requires TableNamesAngled(t)
    ensures Requirement(t).needsW ==> W in LifetimesOf(AddLifetimes(t))
    ensures Requirement(t).needsS ==> S in LifetimesOf(AddLifetimes(t))
  {
    RequirementIsTableOverVisited(t);
    AddLifetimesCovers(t);
    forall s | s in Visited(t) && NameRequirement(s.ident).needsW ensures W in LifetimesOf(AddLifetimes(t)) {
      TablesAgree(s.ident);
    }
    forall s | s in Visited(t) && NameRequirement(s.ident).needsS ensures S in LifetimesOf(AddLifetimes(t)) {
      TablesAgree(s.ident);
    }
  }

  // ---------------------------------------------------------------------------
  // Nothing but lifetimes changes

  /** A type with every lifetime removed; `<>` with nothing left reads as no arguments. */
  function Erase(t: Ty): Ty
    decreases t
  {
    match t
    case TRef(_, mutable, elem) => TRef(None, mutable, Erase(elem))
    case TTuple(elems) => TTuple(EraseAll(elems))
    case TPath(qself, segments) => TPath(qself, EraseSegments(segments))
    case TOther(_) => t
  }

  function EraseAll(ts: seq<Ty>): (r: seq<Ty>)
    ensures |r| == |ts| && forall i :: 0 <= i < |ts| ==> r[i] == Erase(ts[i])
    decreases ts
  {
    if ts == [] then [] else EraseAll(ts[..|ts| - 1]) + [Erase(ts[|ts| - 1])]
  }

  function EraseSegments(segs: seq<Segment>): (r: seq<Segment>)
    ensures |r| == |segs| && forall i :: 0 <= i < |segs| ==> r[i] == EraseSegment(segs[i])
    decreases segs
  {
    if segs == [] then [] else EraseSegments(segs[..|segs| - 1]) + [EraseSegment(segs[|segs| - 1])]
  }

  function EraseSegment(seg: Segment): Segment
    decreases seg
  {
    match seg.args
    case Angle(args) =>
      var kept := EraseArgs(args);
      if kept == [] then Segment(seg.ident, NoArgs) else Segment(seg.ident, Angle(kept))
    case _ => seg
  }

  /** The generic arguments without the lifetime arguments, the rest erased. */
  function EraseArgs(args: seq<GenericArg>): seq<GenericArg>
    decreases args
  {
    if args == [] then []
    else EraseArgs(args[..|args| - 1])
         + (if args[|args| - 1].LifetimeArg? then [] else [EraseArg(args[|args| - 1])])
  }

  function EraseArg(arg: GenericArg): GenericArg
    decreases arg
  {
    match arg
    case TypeArg(ty) => TypeArg(Erase(ty))
    case _ => arg
  }

  lemma {:induction false} EraseArgsAppend(a: seq<GenericArg>, b: seq<GenericArg>)
    ensures EraseArgs(a + b) == EraseArgs(a) + EraseArgs(b)
    decreases |b|
  {
    if b != [] {
      var b' := b[..|b| - 1];
      assert (a + b)[..|a + b| - 1] == a + b';
      EraseArgsAppend(a, b');
    } else {
      assert a + b == a;
    }
  }

  lemma {:induction false} EraseLifetimeArgs(names: seq<string>)
    ensures EraseArgs(LifetimeArgs(names)) == []
    decreases |names|
  {
    if names != [] {
      var args := LifetimeArgs(names);
      assert args == [LifetimeArg(names[0])] + LifetimeArgs(names[1..]);
      EraseLifetimeArgs(names[1..]);
      EraseArgsAppend([LifetimeArg(names[0])], LifetimeArgs(names[1..]));
      assert EraseArgs([LifetimeArg(names[0])]) == [] by {
        assert [LifetimeArg(names[0])][..0] == [];
      }
    }
  }

  /** `add_lifetimes_to_type` adds lifetimes and changes nothing else: mutability,
      qualified selves, non-lifetime arguments and their order, and every other
      kind of type are as they were. */
  lemma {:induction false} AddLifetimesOnlyAddsLifetimes(t: Ty)
    ensures Erase(AddLifetimes(t)) == Erase(t)
    decreases t
  {
    match t
    case TRef(_, _, elem) => AddLifetimesOnlyAddsLifetimes(elem);
    case TTuple(elems) =>
      var out := AddLifetimesAll(elems);
      forall i | 0 <= i < |elems| ensures EraseAll(out)[i] == EraseAll(elems)[i] {
        AddLifetimesOnlyAddsLifetimes(elems[i]);
      }
      assert EraseAll(out) == EraseAll(elems);
    case TPath(qself, segments) =>
      var out := AddLifetimesSegments(segments);
      forall i | 0 <= i < |segments| ensures EraseSegments(out)[i] == EraseSegments(segments)[i] {
        AddLifetimesSegmentOnlyAddsLifetimes(segments[i]);
      }
      assert EraseSegments(out) == EraseSegments(segments);
    case TOther(_) =>
  }

  lemma {:induction false} AddLifetimesSegmentOnlyAddsLifetimes(seg: Segment)
    ensures EraseSegment(AddLifetimesSegment(seg)) == EraseSegment(seg)
    decreases seg
  {
    var lifetimes := NameLifetimes(seg.ident);
    match seg.args
    case NoArgs =>
      if lifetimes != [] {
        EraseLifetimeArgs(lifetimes);
      }
    case Parenthesized(_) =>
    case Angle(args) =>
      var all := LifetimeArgs(lifetimes) + AddLifetimesArgs(args);
      assert AddLifetimesSegment(seg) == Segment(seg.ident, Angle(all));
      AddLifetimesArgsOnlyAddsLifetimes(args);
      EraseLifetimeArgs(lifetimes);
      EraseArgsAppend(LifetimeArgs(lifetimes), AddLifetimesArgs(args));
      assert EraseArgs(all) == EraseArgs(args);
  }

  lemma {:induction false} AddLifetimesArgsOnlyAddsLifetimes(args: seq<GenericArg>)
    ensures EraseArgs(AddLifetimesArgs(args)) == EraseArgs(args)
    decreases args
  {
    if args != [] {
      var init := args[..|args| - 1];
      var last := args[|args| - 1];
      var out := AddLifetimesArgs(args);
      assert out == AddLifetimesArgs(init) + [AddLifetimesArg(last)];
      assert out[..|out| - 1] == AddLifetimesArgs(init);
      AddLifetimesArgsOnlyAddsLifetimes(init);
      AddLifetimesArgOnlyAddsLifetimes(last);
    }
  }

  lemma {:induction false} AddLifetimesArgOnlyAddsLifetimes(arg: GenericArg)
    ensures EraseArg(AddLifetimesArg(arg)) == EraseArg(arg)
    ensures AddLifetimesArg(arg).LifetimeArg? == arg.LifetimeArg?
    decreases arg
  {
    match arg
    case TypeArg(ty) => AddLifetimesOnlyAddsLifetimes(ty);
    case _ =>
  }

  /** The lifetimes the rewrite introduces are 'w, 's and 'static only. */
  lemma {:induction false} AddLifetimesIntroducesOnlyKnownNames(t: Ty)
    ensures LifetimesOf(AddLifetimes(t)) <= LifetimesOf(t) + {W, S, Static}
    decreases t
  {
    match t
    case TRef(_, _, elem) => AddLifetimesIntroducesOnlyKnownNames(elem);
    case TTuple(elems) =>
      AddLifetimesAllIntroducesOnlyKnownNames(elems);
    case TPath(qself, segments) =>
      AddLifetimesSegmentsIntroducesOnlyKnownNames(segments);
    case TOther(_) =>
  }

  lemma {:induction false} AddLifetimesAllIntroducesOnlyKnownNames(ts: seq<Ty>)
    ensures LifetimesOfAll(AddLifetimesAll(ts)) <= LifetimesOfAll(ts) + {W, S, Static}
    decreases ts
  {
    if ts != [] {
      var out := AddLifetimesAll(ts);
      assert out[..|out| - 1] == AddLifetimesAll(ts[..|ts| - 1]);
      AddLifetimesAllIntroducesOnlyKnownNames(ts[..|ts| - 1]);
      AddLifetimesIntroducesOnlyKnownNames(ts[|ts| - 1]);
    }
  }

  lemma {:induction false} AddLifetimesSegmentsIntroducesOnlyKnownNames(segs: seq<Segment>)
    ensures LifetimesOfSegments(AddLifetimesSegments(segs)) <= LifetimesOfSegments(segs) + {W, S, Static}
    decreases segs
  {
    if segs != [] {
      var out := AddLifetimesSegments(segs);
      assert out[..|out| - 1] == AddLifetimesSegments(segs[..|segs| - 1]);
      AddLifetimesSegmentsIntroducesOnlyKnownNames(segs[..|segs| - 1]);
      AddLifetimesSegmentIntroducesOnlyKnownNames(segs[|segs| - 1]);
    }
  }

  lemma {:induction false} AddLifetimesSegmentIntroducesOnlyKnownNames(seg: Segment)
    ensures LifetimesOfSegment(AddLifetimesSegment(seg)) <= LifetimesOfSegment(seg) + {W, S, Static}
    decreases seg
  {
    var lifetimes := NameLifetimes(seg.ident);
    TablesAgree(seg.ident);
    match seg.args
    case NoArgs =>
      LifetimesOfLifetimeArgs(lifetimes, []);
      assert LifetimeArgs(lifetimes) + [] == LifetimeArgs(lifetimes);
    case Parenthesized(_) =>
    case Angle(args) =>
      AddLifetimesArgsIntroducesOnlyKnownNames(args);
      LifetimesOfLifetimeArgs(lifetimes, AddLifetimesArgs(args));
  }

  /** Every lifetime the type names is still named after the rewrite. */
  lemma {:induction false} AddLifetimesKeepsLifetimes(t: Ty)
    ensures LifetimesOf(t) <= LifetimesOf(AddLifetimes(t))
    decreases t
  {
    match t
    case TRef(_, _, elem) => AddLifetimesKeepsLifetimes(elem);
    case TTuple(elems) =>
      AddLifetimesAllKeepsLifetimes(elems);
    case TPath(qself, segments) =>
      AddLifetimesSegmentsKeepsLifetimes(segments);
    case TOther(_) =>
  }

  lemma {:induction false} AddLifetimesAllKeepsLifetimes(ts: seq<Ty>)
    ensures LifetimesOfAll(ts) <= LifetimesOfAll(AddLifetimesAll(ts))
    decreases ts
  {
    if ts != [] {
      var out := AddLifetimesAll(ts);
      assert out[..|out| - 1] == AddLifetimesAll(ts[..|ts| - 1]);
      AddLifetimesAllKeepsLifetimes(ts[..|ts| - 1]);
      AddLifetimesKeepsLifetimes(ts[|ts| - 1]);
    }
  }

  lemma {:induction false} AddLifetimesSegmentsKeepsLifetimes(segs: seq<Segment>)
    ensures LifetimesOfSegments(segs) <= LifetimesOfSegments(AddLifetimesSegments(segs))
    decreases segs
  {
    if segs != [] {
      var out := AddLifetimesSegments(segs);
      assert out[..|out| - 1] == AddLifetimesSegments(segs[..|segs| - 1]);
      AddLifetimesSegmentsKeepsLifetimes(segs[..|segs| - 1]);
      AddLifetimesSegmentKeepsLifetimes(segs[|segs| - 1]);
    }
  }

  lemma {:induction false} AddLifetimesSegmentKeepsLifetimes(seg: Segment)
    ensures LifetimesOfSegment(seg) <= LifetimesOfSegment(AddLifetimesSegment(seg))
    decreases seg
  {
    match seg.args
    case NoArgs =>
    case Parenthesized(_) =>
    case Angle(args) =>
      AddLifetimesArgsKeepsLifetimes(args);
      LifetimesOfLifetimeArgs(NameLifetimes(seg.ident), AddLifetimesArgs(args));
  }

  lemma {:induction false} AddLifetimesArgsKeepsLifetimes(args: seq<GenericArg>)
    ensures LifetimesOfArgs(args) <= LifetimesOfArgs(AddLifetimesArgs(args))
    decreases args
  {
    if args != [] {
      var out := AddLifetimesArgs(args);
      assert out[..|out| - 1] == AddLifetimesArgs(args[..|args| - 1]);
      AddLifetimesArgsKeepsLifetimes(args[..|args| - 1]);
      AddLifetimesArgKeepsLifetimes(args[|args| - 1]);
    }
  }

  lemma {:induction false} AddLifetimesArgKeepsLifetimes(arg: GenericArg)
    ensures LifetimesOfArg(arg) <= LifetimesOfArg(AddLifetimesArg(arg))
    decreases arg
  {
    match arg
    case TypeArg(ty) => AddLifetimesKeepsLifetimes(ty);
    case _ =>
  }

  function Elems(names: seq<string>): set<string> {
    set l | l in names
  }

  lemma {:induction false} LifetimesOfLifetimeArgs(names: seq<string>, rest: seq<GenericArg>)
    ensures LifetimesOfArgs(LifetimeArgs(names) + rest) == Elems(names) + LifetimesOfArgs(rest)
    decreases |rest|
  {
    var all := LifetimeArgs(names) + rest;
    if rest == [] {
      assert all == LifetimeArgs(names);
      LifetimesOfLifetimeArgsOnly(names);
    } else {
      assert all[..|all| - 1] == LifetimeArgs(names) + rest[..|rest| - 1];
      LifetimesOfLifetimeArgs(names, rest[..|rest| - 1]);
    }
  }

  lemma {:induction false} LifetimesOfLifetimeArgsOnly(names: seq<string>)
    ensures LifetimesOfArgs(LifetimeArgs(names)) == Elems(names)
    decreases |names|
  {
    if names != [] {
      var init := names[..|names| - 1];
      var args := LifetimeArgs(names);
      assert args[..|args| - 1] == LifetimeArgs(init);
      LifetimesOfLifetimeArgsOnly(init);
      assert names == init + [names[|names| - 1]];
      assert Elems(names) == Elems(init) + {names[|names| - 1]};
    }
  }

  lemma {:induction false} AddLifetimesArgsIntroducesOnlyKnownNames(args: seq<GenericArg>)
    ensures LifetimesOfArgs(AddLifetimesArgs(args)) <= LifetimesOfArgs(args) + {W, S, Static}
    decreases args
  {
    if args != [] {
      var out := AddLifetimesArgs(args);
      assert out[..|out| - 1] == AddLifetimesArgs(args[..|args| - 1]);
      AddLifetimesArgsIntroducesOnlyKnownNames(args[..|args| - 1]);
      AddLifetimesArgIntroducesOnlyKnownNames(args[|args| - 1]);
    }
  }

  lemma {:induction false} AddLifetimesArgIntroducesOnlyKnownNames(arg: GenericArg)
    ensures LifetimesOfArg(AddLifetimesArg(arg)) <= LifetimesOfArg(arg) + {W, S, Static}
    decreases arg
  {
    match arg
    case TypeArg(ty) => AddLifetimesIntroducesOnlyKnownNames(ty);
    case _ =>
  }

  // ---------------------------------------------------------------------------
  // The lifetimes already written are kept: an inverse of the rewrite

  /** The type as the rewrite reads it: an elided reference lifetime is `'static`,
      and a table name with an empty `<>` is the bare name (both are rewritten alike). */
  function Canon(t: Ty): Ty
    decreases t
  {
    match t
    case TRef(lifetime, mutable, elem) =>
      TRef(Some(if lifetime.Some? then lifetime.value else Static), mutable, Canon(elem))
    case TTuple(elems) => TTuple(CanonAll(elems))
    case TPath(qself, segments) => TPath(qself, CanonSegments(segments))
    case TOther(_) => t
  }

  function CanonAll(ts: seq<Ty>): (r: seq<Ty>)
    ensures |r| == |ts| && forall i :: 0 <= i < |ts| ==> r[i] == Canon(ts[i])
    decreases ts
  {
    if ts == [] then [] else CanonAll(ts[..|ts| - 1]) + [Canon(ts[|ts| - 1])]
  }

  function CanonSegments(segs: seq<Segment>): (r: seq<Segment>)
    ensures |r| == |segs| && forall i :: 0 <= i < |segs| ==> r[i] == CanonSegment(segs[i])
    decreases segs
  {
    if segs == [] then [] else CanonSegments(segs[..|segs| - 1]) + [CanonSegment(segs[|segs| - 1])]
  }

  function CanonSegment(seg: Segment): Segment
    decreases seg
  {
    match seg.args
    case Angle(args) =>
      if NameLifetimes(seg.ident) != [] && args == [] then Segment(seg.ident, NoArgs)
      else Segment(seg.ident, Angle(CanonArgs(args)))
    case _ => seg
  }

  function CanonArgs(args: seq<GenericArg>): (r: seq<GenericArg>)
    ensures |r| == |args| && forall i :: 0 <= i < |args| ==> r[i] == CanonArg(args[i])
    decreases args
  {
    if args == [] then [] else CanonArgs(args[..|args| - 1]) + [CanonArg(args[|args| - 1])]
  }

  function CanonArg(arg: GenericArg): GenericArg
    decreases arg
  {
    match arg
    case TypeArg(ty) => TypeArg(Canon(ty))
    case _ => arg
  }

  /** Removes the lifetimes the rewrite puts in front of a table name's arguments,
      and nothing else: reference lifetimes and every other argument stay. */
  function StripAdded(t: Ty): Ty
    decreases t
  {
    match t
    case TRef(lifetime, mutable, elem) => TRef(lifetime, mutable, StripAdded(elem))
    case TTuple(elems) => TTuple(StripAddedAll(elems))
    case TPath(qself, segments) => TPath(qself, StripAddedSegments(segments))
    case TOther(_) => t
  }

  function StripAddedAll(ts: seq<Ty>): (r: seq<Ty>)
    ensures |r| == |ts| && forall i :: 0 <= i < |ts| ==> r[i] == StripAdded(ts[i])
    decreases ts
  {
    if ts == [] then [] else StripAddedAll(ts[..|ts| - 1]) + [StripAdded(ts[|ts| - 1])]
  }

  function StripAddedSegments(segs: seq<Segment>): (r: seq<Segment>)
    ensures |r| == |segs| && forall i :: 0 <= i < |segs| ==> r[i] == StripAddedSegment(segs[i])
    decreases segs
  {
    if segs == [] then [] else StripAddedSegments(segs[..|segs| - 1]) + [StripAddedSegment(segs[|segs| - 1])]
  }

  function StripAddedSegment(seg: Segment): Segment
    decreases seg
  {
    var lifetimes := NameLifetimes(seg.ident);
    var n := |lifetimes|;
    match seg.args
    case Angle(args) =>
      if n > 0 && n <= |args| && args[..n] == LifetimeArgs(lifetimes) then
        var rest := StripAddedArgs(args[n..]);
        if rest == [] then Segment(seg.ident, NoArgs) else Segment(seg.ident, Angle(rest))
      else Segment(seg.ident, Angle(StripAddedArgs(args)))
    case _ => seg
  }

  function StripAddedArgs(args: seq<GenericArg>): (r: seq<GenericArg>)
    ensures |r| == |args| && forall i :: 0 <= i < |args| ==> r[i] == StripAddedArg(args[i])
    decreases args
  {
    if args == [] then [] else StripAddedArgs(args[..|args| - 1]) + [StripAddedArg(args[|args| - 1])]
  }

  function StripAddedArg(arg: GenericArg): GenericArg
    decreases arg
  {
    match arg
    case TypeArg(ty) => TypeArg(StripAdded(ty))
    case _ => arg
  }

  /** Taking away what the rewrite adds gives back the type as written, up to the
      `'static` filled into elided references: no lifetime the type already names is
      dropped or renamed, and no argument is lost, reordered or changed. */
  lemma {:induction false} StripAddedUndoesAddLifetimes(t: Ty)
    ensures StripAdded(AddLifetimes(t)) == Canon(t)
    decreases t
  {
    match t
    case TRef(_, _, elem) => StripAddedUndoesAddLifetimes(elem);
    case TTuple(elems) =>
      var out := StripAddedAll(AddLifetimesAll(elems));
      forall i | 0 <= i < |elems| ensures out[i] == CanonAll(elems)[i] {
        StripAddedUndoesAddLifetimes(elems[i]);
      }
      assert out == CanonAll(elems);
    case TPath(_, segments) =>
      var out := StripAddedSegments(AddLifetimesSegments(segments));
      forall i | 0 <= i < |segments| ensures out[i] == CanonSegments(segments)[i] {
        StripAddedUndoesAddLifetimesSegment(segments[i]);
      }
      assert out == CanonSegments(segments);
    case TOther(_) =>
  }

  lemma {:induction false} StripAddedUndoesAddLifetimesSegment(seg: Segment)
    ensures StripAddedSegment(AddLifetimesSegment(seg)) == CanonSegment(seg)
    decreases seg
  {
    var lifetimes := NameLifetimes(seg.ident);
    var n := |lifetimes|;
    var prefix := LifetimeArgs(lifetimes);
    match seg.args
    case NoArgs =>
      if n > 0 {
        assert prefix[..n] == prefix;
        assert prefix[n..] == [];
      }
    case Parenthesized(_) =>
    case Angle(args) =>
      var rewritten := AddLifetimesArgs(args);
      var all := prefix + rewritten;
      assert AddLifetimesSegment(seg) == Segment(seg.ident, Angle(all));
      StripAddedUndoesAddLifetimesArgs(args);
      if n > 0 {
        assert all[..n] == prefix;
        assert all[n..] == rewritten;
      } else {
        assert all == rewritten;
      }
  }

  lemma {:induction false} StripAddedUndoesAddLifetimesArgs(args: seq<GenericArg>)
    ensures StripAddedArgs(AddLifetimesArgs(args)) == CanonArgs(args)
    decreases args
  {
    var out := StripAddedArgs(AddLifetimesArgs(args));
    forall i | 0 <= i < |args| ensures out[i] == CanonArgs(args)[i] {
      StripAddedUndoesAddLifetimesArg(args[i]);
    }
    assert out == CanonArgs(args);
  }

  lemma {:induction false} StripAddedUndoesAddLifetimesArg(arg: GenericArg)
    ensures StripAddedArg(AddLifetimesArg(arg)) == CanonArg(arg)
    decreases arg
  {
    match arg
    case TypeArg(ty) => StripAddedUndoesAddLifetimes(ty);
    case _ =>
  }

  /** A path of one plain segment without a table name is left alone. */
  lemma PlainPathUnchanged(name: string)
    requires NameLifetimes(name) == []
    ensures AddLifetimes(TPath(None, [Segment(name, NoArgs)])) == TPath(None, [Segment(name, NoArgs)])
  {
    var segs := [Segment(name, NoArgs)];
    assert segs[..0] == [];
    assert AddLifetimesSegments(segs) == segs;
  }

  /** `With<Player>` mentions no table name and is left alone. */
  lemma WithPlayerUnchanged()
    ensures AddLifetimes(TPath(None, [Segment("With", Angle([TypeArg(TPath(None, [Segment("Player", NoArgs)]))]))]))
         == TPath(None, [Segment("With", Angle([TypeArg(TPath(None, [Segment("Player", NoArgs)]))]))])
  {
    var player := TPath(None, [Segment("Player", NoArgs)]);
    PlainPathUnchanged("Player");
    var withSeg := Segment("With", Angle([TypeArg(player)]));
    var withArgs := AddLifetimesArgs([TypeArg(player)]);
    assert withArgs[0] == TypeArg(player);
    assert withArgs == [TypeArg(player)];
    assert NameLifetimes("With") == [];
    assert AddLifetimesSegment(withSeg) == withSeg;
    var withSegs := AddLifetimesSegments([withSeg]);
    assert withSegs[0] == withSeg;
  }

  /** The argument list of `Query<&Transform, With<Player>>` after the rewrite. */
  lemma QueryArgsExample()
    ensures
      var transform := TPath(None, [Segment("Transform", NoArgs)]);
      var with := TPath(None, [Segment("With", Angle([TypeArg(TPath(None, [Segment("Player", NoArgs)]))]))]);
      AddLifetimesArgs([TypeArg(TRef(None, false, transform)), TypeArg(with)])
        == [TypeArg(TRef(Some(Static), false, transform)), TypeArg(with)]
  {
    PlainPathUnchanged("Transform");
    WithPlayerUnchanged();
  }

  /** The `query` parameter of the `varied_inputs.rs` example system:
      `Query<&Transform, With<Player>>` becomes `Query<'w, 's, &'static Transform, With<Player>>`. */
  lemma QueryExample()
    ensures
      var transform := TPath(None, [Segment("Transform", NoArgs)]);
      var with := TPath(None, [Segment("With", Angle([TypeArg(TPath(None, [Segment("Player", NoArgs)]))]))]);
      var query := TPath(None, [Segment("Query", Angle([TypeArg(TRef(None, false, transform)), TypeArg(with)]))]);
      AddLifetimes(query) ==
        TPath(None, [Segment("Query", Angle([LifetimeArg(W), LifetimeArg(S),
                                             TypeArg(TRef(Some(Static), false, transform)), TypeArg(with)]))])
  {
    var transform := TPath(None, [Segment("Transform", NoArgs)]);
    var with := TPath(None, [Segment("With", Angle([TypeArg(TPath(None, [Segment("Player", NoArgs)]))]))]);
    var args := [TypeArg(TRef(None, false, transform)), TypeArg(with)];
    var out := [TypeArg(TRef(Some(Static), false, transform)), TypeArg(with)];
    QueryArgsExample();
    assert LifetimeArgs([W, S]) == [LifetimeArg(W), LifetimeArg(S)];
    assert NameLifetimes("Query") == [W, S];
    var querySeg := Segment("Query", Angle(args));
    var newSeg := Segment("Query", Angle([LifetimeArg(W), LifetimeArg(S)] + out));
    assert AddLifetimesSegment(querySeg) == newSeg;
    assert AddLifetimesSegments([querySeg])[0] == newSeg;
    assert [LifetimeArg(W), LifetimeArg(S)] + out
        == [LifetimeArg(W), LifetimeArg(S), TypeArg(TRef(Some(Static), false, transform)), TypeArg(with)];
  }
}
