/** Transitivity of assignability on fully applied types under declared variance: nominal types,
    functions, nullable types, intersections and bounded type variables, with no bindings. */
module Transitivity {
  import opened Options
  import opened Types
  import opened Hierarchy
  import opened Flexible
  import opened Assignable
  import opened Stability
  import opened Termination
  import opened Declarations

  /** What stands above a variable: its carried bound joined with the bounds it declares. */
  function JoinedBound(d: Decls, o: Oracle, symbol: Symbol): Ty
  {
    DeclaredUpper(o, symbol, d.bound(symbol), false)
  }

  ghost predicate BoundsInFragment(d: Decls, o: Oracle)
  {
    forall x {:trigger d.bound(x)} :: x in d.symbols ==> InFragment(d, JoinedBound(d, o, x))
  }

  /** The context binds nothing. */
  ghost predicate Unbound(cx: Ctx)
  {
    forall s: Symbol :: s !in cx
  }

  /** Nothing is bound, and the hierarchy is ranked within the scope. */
  ghost predicate InWorld(cx: Ctx, d: Decls, o: Oracle, r: Ranks)
  {
    Unbound(cx) && World(d.InScope(), o, r)
  }

  ghost predicate Setting(cx: Ctx, d: Decls, o: Oracle, r: Ranks)
  {
    Declares(d, o) && Coherent(d) && BoundsInFragment(d, o) && InWorld(cx, d, o, r)
  }

  /** The fragment lies in the scope, with nothing to capture. */
  lemma {:induction false} FragmentTame(d: Decls, t: Ty)
    requires InFragment(d, t)
    ensures Tame(d.InScope(), t) && Without({}, t) && Regular(t)
    decreases t, 0
  {
    match t
    case Obj(_, args) => AllFragmentTame(d, args);
    case Fun(params, ret, _, _, _) => AllFragmentTame(d, params); FragmentTame(d, ret);
    case Nullable(inner) => FragmentTame(d, inner);
    case Variable(_, _, bound) => FragmentTame(d, bound);
    case Intersection(parts) => AllFragmentTame(d, parts);
    case _ =>
  }

  lemma {:induction false} AllFragmentTame(d: Decls, ts: seq<Ty>)
    requires AllInFragment(d, ts)
    ensures AllTame(d.InScope(), ts) && AllWithout({}, ts) && AllRegular(ts)
    decreases ts, 1
  {
    if ts != [] {
      FragmentTame(d, ts[0]);
      AllFragmentTame(d, ts[1..]);
    }
  }

  /** Flexible equality is equality here. */
  lemma {:induction false} SameIsEqual(d: Decls, o: Oracle, l: Ty, r: Ty)
    requires InFragment(d, l) && InFragment(d, r) && SameFlexible(o, l, r)
    ensures l == r
    decreases Height(l) + Height(r), 1
  {
    assert SameArgument(o, l, r);
    if l.Obj? && r.Obj? {
      AllSameIsEqual(d, o, l.args, r.args);
    } else if l.Fun? && r.Fun? {
      AllSameIsEqual(d, o, l.params, r.params);
      SameIsEqual(d, o, l.ret, r.ret);
    } else if l.Nullable? && r.Nullable? {
      SameIsEqual(d, o, l.inner, r.inner);
    }
  }

  lemma {:induction false} AllSameIsEqual(d: Decls, o: Oracle, ls: seq<Ty>, rs: seq<Ty>)
    requires AllInFragment(d, ls) && AllInFragment(d, rs) && SameAll(o, ls, rs)
    ensures ls == rs
    decreases MaxHeight(ls) + MaxHeight(rs), 2, |ls|
  {
    if ls != [] && rs != [] {
      SameIsEqual(d, o, ls[0], rs[0]);
      AllSameIsEqual(d, o, ls[1..], rs[1..]);
      assert ls == [ls[0]] + ls[1..] && rs == [rs[0]] + rs[1..];
    }
  }

  // ---------------------------------------------------------------- the relation without levels

  /** Assignability itself: the answer at the joint weight, which is the answer at every level above. */
  ghost predicate Sub(cx: Ctx, o: Oracle, r: Ranks, a: Ty, b: Ty)
  {
    Assign(Depth(r, a) + Depth(r, b), cx, o, a, b) == Yes
  }

  function Verdict(b: bool): Answer { if b then Yes else No }

  lemma SubDecided(cx: Ctx, d: Decls, o: Oracle, r: Ranks, a: Ty, b: Ty)
    requires InWorld(cx, d, o, r) && InFragment(d, a) && InFragment(d, b)
    ensures Assign(Depth(r, a) + Depth(r, b), cx, o, a, b) != Exhausted
  {
    FragmentTame(d, a);
    FragmentTame(d, b);
    CoupledGuarded(d.InScope(), o, r, a, b);
    Terminates(Depth(r, a) + Depth(r, b), d.InScope(), cx, o, r, a, b);
  }

  lemma SubLevel(n: nat, cx: Ctx, o: Oracle, r: Ranks, a: Ty, b: Ty)
    requires n == Depth(r, a) + Depth(r, b)
    ensures Sub(cx, o, r, a, b) <==> Assign(n, cx, o, a, b) == Yes
  {
  }

  lemma SubAt(n: nat, cx: Ctx, d: Decls, o: Oracle, r: Ranks, a: Ty, b: Ty)
    requires InWorld(cx, d, o, r) && InFragment(d, a) && InFragment(d, b) && Depth(r, a) + Depth(r, b) <= n
    ensures Assign(n, cx, o, a, b) == Verdict(Sub(cx, o, r, a, b))
  {
    var level := Depth(r, a) + Depth(r, b);
    SubDecided(cx, d, o, r, a, b);
    SubLevel(level, cx, o, r, a, b);
    AnswerStable(level, n, cx, o, a, b);
  }

  ghost predicate SubEach(cx: Ctx, o: Oracle, r: Ranks, a: Ty, parts: seq<Ty>)
  {
    forall p <- parts :: Sub(cx, o, r, a, p)
  }

  ghost predicate SubSome(cx: Ctx, o: Oracle, r: Ranks, parts: seq<Ty>, b: Ty)
  {
    exists p <- parts :: Sub(cx, o, r, p, b)
  }

  lemma {:induction false} EachIs(m: nat, cx: Ctx, d: Decls, o: Oracle, r: Ranks, a: Ty, parts: seq<Ty>)
    requires InWorld(cx, d, o, r) && InFragment(d, a) && AllInFragment(d, parts)
    requires Depth(r, a) + MaxDepth(r, parts) <= m
    ensures AssignEach(m, cx, o, a, parts) == Verdict(SubEach(cx, o, r, a, parts))
    decreases |parts|
  {
    if parts != [] {
      SubAt(m, cx, d, o, r, a, parts[0]);
      EachIs(m, cx, d, o, r, a, parts[1..]);
      assert SubEach(cx, o, r, a, parts) <==> Sub(cx, o, r, a, parts[0]) && SubEach(cx, o, r, a, parts[1..]) by {
        assert forall t :: t in parts <==> t == parts[0] || t in parts[1..];
      }
    }
  }

  lemma {:induction false} SomeIs(m: nat, cx: Ctx, d: Decls, o: Oracle, r: Ranks, parts: seq<Ty>, b: Ty)
    requires InWorld(cx, d, o, r) && InFragment(d, b) && AllInFragment(d, parts)
    requires MaxDepth(r, parts) + Depth(r, b) <= m
    ensures AssignSome(m, cx, o, parts, b) == Verdict(SubSome(cx, o, r, parts, b))
    decreases |parts|
  {
    if parts != [] {
      SubAt(m, cx, d, o, r, parts[0], b);
      SomeIs(m, cx, d, o, r, parts[1..], b);
      assert SubSome(cx, o, r, parts, b) <==> Sub(cx, o, r, parts[0], b) || SubSome(cx, o, r, parts[1..], b) by {
        assert forall t :: t in parts <==> t == parts[0] || t in parts[1..];
      }
    }
  }

  ghost predicate SubPairs(cx: Ctx, o: Oracle, r: Ranks, subs: seq<Ty>, sups: seq<Ty>)
    requires |subs| == |sups|
  {
    forall i :: 0 <= i < |subs| ==> Sub(cx, o, r, subs[i], sups[i])
  }

  lemma {:induction false} PairsIs(m: nat, cx: Ctx, d: Decls, o: Oracle, r: Ranks, subs: seq<Ty>, sups: seq<Ty>)
    requires InWorld(cx, d, o, r) && |subs| == |sups| && AllInFragment(d, subs) && AllInFragment(d, sups)
    requires MaxDepth(r, subs) + MaxDepth(r, sups) <= m
    ensures AssignPairs(m, cx, o, subs, sups) == Verdict(SubPairs(cx, o, r, subs, sups))
    decreases |subs|
  {
    if subs != [] {
      SubAt(m, cx, d, o, r, subs[0], sups[0]);
      PairsIs(m, cx, d, o, r, subs[1..], sups[1..]);
      assert SubPairs(cx, o, r, subs, sups) <==>
        Sub(cx, o, r, subs[0], sups[0]) && SubPairs(cx, o, r, subs[1..], sups[1..]) by {
        assert forall i :: 1 <= i < |subs| ==> subs[i] == subs[1..][i - 1] && sups[i] == sups[1..][i - 1];
      }
    }
  }

  /** One argument pair under the declared variance of its slot. */
  ghost predicate ArgOk(cx: Ctx, o: Oracle, r: Ranks, v: Variance, a: Ty, p: Ty)
  {
    match v
    case Covariant => Sub(cx, o, r, a, p)
    case Contravariant => Sub(cx, o, r, p, a)
    case Invariant => a == p
  }

  ghost predicate ArgsOk(cx: Ctx, o: Oracle, r: Ranks, c: Name, i: nat, actual: seq<Ty>, expected: seq<Ty>)
    requires |actual| == |expected|
  {
    forall j :: 0 <= j < |actual| ==> ArgOk(cx, o, r, o.variance(c, i + j), actual[j], expected[j])
  }

  lemma InvariantIs(m: nat, cx: Ctx, d: Decls, o: Oracle, c: Name, i: nat, p: Ty, a: Ty)
    requires Unbound(cx) && InFragment(d, p) && InFragment(d, a)
    ensures InvariantFits(m, cx, o, Some(c), i, p, a) == Verdict(a == p)
  {
    if SameFlexible(o, a, p) {
      SameIsEqual(d, o, a, p);
    } else if a == p {
      FragmentTame(d, a);
      SameReflexive(o, a);
    }
  }

  lemma ArgIs(m: nat, cx: Ctx, d: Decls, o: Oracle, r: Ranks, c: Name, i: nat, p: Ty, a: Ty)
    requires InWorld(cx, d, o, r) && InFragment(d, p) && InFragment(d, a) && Depth(r, p) + Depth(r, a) <= m
    ensures ArgumentFits(m, cx, o, Some(c), i, p, a) == Verdict(ArgOk(cx, o, r, o.variance(c, i), a, p))
  {
    SubAt(m, cx, d, o, r, a, p);
    SubAt(m, cx, d, o, r, p, a);
    InvariantIs(m, cx, d, o, c, i, p, a);
  }

  lemma {:induction false} ArgsIs(
      m: nat, cx: Ctx, d: Decls, o: Oracle, r: Ranks, c: Name, i: nat, expected: seq<Ty>, actual: seq<Ty>)
    requires InWorld(cx, d, o, r) && |expected| == |actual| && AllInFragment(d, expected) && AllInFragment(d, actual)
    requires MaxDepth(r, expected) + MaxDepth(r, actual) <= m
    ensures ArgumentsFit(m, cx, o, Some(c), i, expected, actual) == Verdict(ArgsOk(cx, o, r, c, i, actual, expected))
    decreases |expected|
  {
    if expected != [] {
      ArgIs(m, cx, d, o, r, c, i, expected[0], actual[0]);
      ArgsIs(m, cx, d, o, r, c, i + 1, expected[1..], actual[1..]);
      ArgsOkStep(cx, o, r, c, i, actual, expected);
    }
  }

  lemma ArgsOkStep(cx: Ctx, o: Oracle, r: Ranks, c: Name, i: nat, actual: seq<Ty>, expected: seq<Ty>)
    requires |actual| == |expected| > 0
    ensures ArgsOk(cx, o, r, c, i, actual, expected) <==>
      ArgOk(cx, o, r, o.variance(c, i), actual[0], expected[0]) &&
        ArgsOk(cx, o, r, c, i + 1, actual[1..], expected[1..])
  {
    if ArgsOk(cx, o, r, c, i, actual, expected) {
      forall j | 0 <= j < |actual[1..]|
        ensures ArgOk(cx, o, r, o.variance(c, i + 1 + j), actual[1..][j], expected[1..][j])
      {
        assert i + 1 + j == i + (j + 1) && actual[1..][j] == actual[j + 1];
      }
      assert i + 0 == i;
    }
    if ArgOk(cx, o, r, o.variance(c, i), actual[0], expected[0])
      && ArgsOk(cx, o, r, c, i + 1, actual[1..], expected[1..])
    {
      forall j | 0 <= j < |actual| ensures ArgOk(cx, o, r, o.variance(c, i + j), actual[j], expected[j]) {
        if j > 0 {
          assert i + 1 + (j - 1) == i + j && actual[1..][j - 1] == actual[j];
        }
      }
    }
  }

  // ---------------------------------------------------------------- the arms, one by one

  /** The class arm: the applied source has the target's arity and fits it slot by slot. */
  ghost predicate SubObject(cx: Ctx, o: Oracle, r: Ranks, a: Ty, b: Ty)
    requires b.Obj?
  {
    var found := AppliedSupertype(o, a, b);
    found.Some? && |TypeArgs(found.value)| == |b.args| && ArgsOk(cx, o, r, b.name, 0, TypeArgs(found.value), b.args)
  }

  ghost predicate SubFun(cx: Ctx, o: Oracle, r: Ranks, a: Ty, b: Ty)
    requires a.Fun? && b.Fun?
  {
    && |a.params| == |b.params| && (a.isSuspend ==> b.isSuspend)
    && SubPairs(cx, o, r, b.params, a.params) && Sub(cx, o, r, a.ret, b.ret)
  }

  /** What the relation says of two different types of the fragment, arm by arm. */
  ghost predicate SubByArm(cx: Ctx, d: Decls, o: Oracle, r: Ranks, a: Ty, b: Ty)
  {
    if a.Nothing? then true
    else if b.Intersection? then SubEach(cx, o, r, a, b.parts)
    else if a.Intersection? then SubSome(cx, o, r, a.parts, b)
    else if b.Nullable? then
      if a.Nullable? then Sub(cx, o, r, a.inner, b)
      else if a.Variable? then a == b.inner || Sub(cx, o, r, JoinedBound(d, o, a.symbol), b)
      else Sub(cx, o, r, a, b.inner)
    else if a.Nullable? then false
    else if a.Variable? then Sub(cx, o, r, JoinedBound(d, o, a.symbol), b)
    else if b.Variable? then false
    else if IsAny(b) then true
    else if IsScalar(b) then false
    else if a.Fun? && b.Fun? then SubFun(cx, o, r, a, b)
    else b.Obj? && SubObject(cx, o, r, a, b)
  }

  lemma UpperIsJoined(cx: Ctx, d: Decls, o: Oracle, r: Ranks, v: Ty)
    requires BoundsInFragment(d, o) && InWorld(cx, d, o, r) && InFragment(d, v) && v.Variable?
    ensures UpperOf(cx, o, v) == JoinedBound(d, o, v.symbol)
    ensures InFragment(d, JoinedBound(d, o, v.symbol)) && Depth(r, JoinedBound(d, o, v.symbol)) < Depth(r, v)
  {
    FragmentTame(d, v);
    DeclaredUpperFit(d.InScope(), o, r, v, false, true);
    assert v.bound == d.bound(v.symbol);
  }

  lemma VariableArm(m: nat, cx: Ctx, d: Decls, o: Oracle, r: Ranks, a: Ty, b: Ty)
    requires BoundsInFragment(d, o) && InWorld(cx, d, o, r) && InFragment(d, a) && InFragment(d, b)
    requires Depth(r, a) + Depth(r, b) <= m + 1 && a.Variable?
    ensures AssignUpper(m, cx, o, a, b) == Verdict(Sub(cx, o, r, JoinedBound(d, o, a.symbol), b))
  {
    UpperIsJoined(cx, d, o, r, a);
    SubAt(m, cx, d, o, r, JoinedBound(d, o, a.symbol), b);
  }

  lemma NullableArm(m: nat, cx: Ctx, d: Decls, o: Oracle, r: Ranks, a: Ty, b: Ty)
    requires BoundsInFragment(d, o) && InWorld(cx, d, o, r) && InFragment(d, a) && InFragment(d, b)
    requires Depth(r, a) + Depth(r, b) <= m + 1 && b.Nullable? && ArmOf(a, b) == ByNullable
    ensures AssignToNullable(m, cx, o, a, b) == Verdict(SubByArm(cx, d, o, r, a, b))
  {
    if a.Nullable? {
      SubAt(m, cx, d, o, r, a.inner, b);
    } else if a.Variable? {
      VariableArm(m, cx, d, o, r, a, b);
    } else {
      SubAt(m, cx, d, o, r, a, b.inner);
    }
  }

  lemma CompositeArm(m: nat, cx: Ctx, d: Decls, o: Oracle, r: Ranks, a: Ty, b: Ty)
    requires InWorld(cx, d, o, r) && InFragment(d, a) && InFragment(d, b)
    requires Depth(r, a) + Depth(r, b) <= m + 1 && ArmOf(a, b) == ByComposite
    ensures AssignComposite(m, cx, o, a, b) == Verdict(SubByArm(cx, d, o, r, a, b))
  {
    if b.Intersection? {
      EachIs(m, cx, d, o, r, a, b.parts);
    } else {
      SomeIs(m, cx, d, o, r, a.parts, b);
    }
  }

  lemma {:induction xs} JoinedDepth(r: Ranks, xs: seq<Ty>, last: Ty)
    ensures MaxDepth(r, xs + [last]) == Max(MaxDepth(r, xs), Depth(r, last))
  {
    if xs != [] {
      assert (xs + [last])[1..] == xs[1..] + [last];
    } else {
      assert ([] + [last])[1..] == [];
    }
  }

  lemma ArgsInFragment(d: Decls, r: Ranks, t: Ty)
    requires (t.Obj? || t.Fun?) && InFragment(d, t)
    ensures AllInFragment(d, ArgsOf(t)) && MaxDepth(r, ArgsOf(t)) < Depth(r, t) && FullyApplied(d, t)
  {
    if t.Fun? {
      FragmentAt(d, t.params);
      FragmentAt(d, ArgsOf(t));
      JoinedDepth(r, t.params, t.ret);
    }
  }

  lemma {:induction false} FillInFragment(d: Decls, o: Oracle, h: Head, v: Variance, slot: Slot, xs: seq<Ty>)
    requires Suits(d, o, h, v, slot) && Covers(slot, |xs|) && AllInFragment(d, xs)
    ensures InFragment(d, Fill(slot, xs))
    decreases slot
  {
    if slot.Own? {
      FragmentAt(d, xs);
      assert xs[slot.index] in xs;
    } else if slot.Nested? {
      var args := Fill(slot, xs).args;
      forall t | t in args ensures InFragment(d, t) {
        var j: nat :| j < |args| && t == args[j];
        FillInFragment(d, o, h, Through(v, o.variance(slot.name, j)), slot.slots[j], xs);
      }
      FragmentAt(d, args);
    }
  }

  lemma FillAllInFragment(d: Decls, o: Oracle, h: Head, g: Head, slots: seq<Slot>, xs: seq<Ty>)
    requires Given(d, o, h, g, slots) && AllCover(slots, |xs|) && AllInFragment(d, xs)
    ensures AllInFragment(d, FillAll(slots, xs))
  {
    var args := FillAll(slots, xs);
    forall t | t in args ensures InFragment(d, t) {
      var j: nat :| j < |args| && t == args[j];
      FillInFragment(d, o, h, VarianceOf(o, g, j), slots[j], xs);
    }
    FragmentAt(d, args);
  }

  /** The arguments the worklist applies are in the fragment and no deeper than the source. */
  lemma AppliedInFragment(cx: Ctx, d: Decls, o: Oracle, r: Ranks, a: Ty, b: Ty)
    requires Setting(cx, d, o, r) && InFragment(d, a) && InFragment(d, b) && (a.Obj? || a.Fun?) && b.Obj?
    requires AppliedSupertype(o, a, b).Some?
    ensures var found := AppliedSupertype(o, a, b).value;
      found.Obj? && AllInFragment(d, found.args) && |found.args| == |b.args| && MaxDepth(r, found.args) <= Depth(r, a)
  {
    ArgsInFragment(d, r, a);
    var slots := WalkAncestor(d, o, a, b);
    var steps: nat :| Ancestor(d, steps, HeadOf(a), Cls(b.name), slots);
    AncestorShape(d, o, steps, HeadOf(a), Cls(b.name), slots);
    FillAllInFragment(d, o, HeadOf(a), Cls(b.name), slots, ArgsOf(a));
    AppliedWithin(d, o, r, a, b);
  }

  lemma AppliedWithin(d: Decls, o: Oracle, r: Ranks, a: Ty, b: Ty)
    requires World(d.InScope(), o, r) && InFragment(d, a) && AppliedSupertype(o, a, b).Some?
    ensures MaxDepth(r, TypeArgs(AppliedSupertype(o, a, b).value)) <= Depth(r, a)
  {
    FragmentTame(d, a);
    AppliedFit(d.InScope(), o, r, a, b, Depth(r, a), true);
  }

  lemma ObjectArm(m: nat, cx: Ctx, d: Decls, o: Oracle, r: Ranks, a: Ty, b: Ty)
    requires Setting(cx, d, o, r) && InFragment(d, a) && InFragment(d, b) && (a.Obj? || a.Fun?) && b.Obj?
    requires Depth(r, a) + Depth(r, b) <= m + 1
    ensures AssignObject(m, cx, o, a, b) == Verdict(SubObject(cx, o, r, a, b))
  {
    var found := AppliedSupertype(o, a, b);
    if found.Some? {
      AppliedInFragment(cx, d, o, r, a, b);
      ArgsIs(m, cx, d, o, r, b.name, 0, b.args, found.value.args);
    }
  }

  /** No class of the fragment is a function classifier, so none is a function. */
  lemma NoFunctionObjects(cx: Ctx, d: Decls, o: Oracle, r: Ranks, a: Ty, f: Ty)
    requires Setting(cx, d, o, r) && InFragment(d, a) && a.Obj? && InFragment(d, f) && f.Fun?
    ensures AppliedSupertype(o, a, FunctionApplication(f)).None?
  {
    var target := FunctionApplication(f);
    if AppliedSupertype(o, a, target).Some? {
      var slots := WalkAncestor(d, o, a, target);
      var steps: nat :| Ancestor(d, steps, HeadOf(a), Cls(target.name), slots);
      AncestorShape(d, o, steps, HeadOf(a), Cls(target.name), slots);
    }
  }

  lemma ShapeArm(m: nat, cx: Ctx, d: Decls, o: Oracle, r: Ranks, a: Ty, b: Ty)
    requires Setting(cx, d, o, r) && InFragment(d, a) && InFragment(d, b) && ArmOf(a, b) == ByShape
    requires Depth(r, a) + Depth(r, b) <= m + 1
    ensures AssignShape(m, cx, o, a, b) == Verdict(SubByArm(cx, d, o, r, a, b))
  {
    if a.Obj? && b.Fun? {
      NoFunctionObjects(cx, d, o, r, a, b);
    } else if a.Fun? && b.Fun? {
      if |a.params| == |b.params| {
        PairsIs(m, cx, d, o, r, b.params, a.params);
        SubAt(m, cx, d, o, r, a.ret, b.ret);
      }
    } else if b.Obj? {
      ObjectArm(m, cx, d, o, r, a, b);
    }
  }

  /** The group of arms that decides says what its equation says. */
  ghost predicate ArmIs(m: nat, cx: Ctx, d: Decls, o: Oracle, r: Ranks, a: Ty, b: Ty)
  {
    match ArmOf(a, b)
    case ByComposite => AssignComposite(m, cx, o, a, b) == Verdict(SubByArm(cx, d, o, r, a, b))
    case ByNullable => AssignToNullable(m, cx, o, a, b) == Verdict(SubByArm(cx, d, o, r, a, b))
    case ByVariable => a.Variable? ==> AssignUpper(m, cx, o, a, b) == Verdict(SubByArm(cx, d, o, r, a, b))
    case ByShape => AssignShape(m, cx, o, a, b) == Verdict(SubByArm(cx, d, o, r, a, b))
    case _ => true
  }

  lemma ArmAnswer(m: nat, cx: Ctx, d: Decls, o: Oracle, r: Ranks, a: Ty, b: Ty)
    requires Unbound(cx) && InFragment(d, a) && InFragment(d, b) && ArmIs(m, cx, d, o, r, a, b)
    ensures Assign(m + 1, cx, o, a, b) == Yes <==> a == b || SubByArm(cx, d, o, r, a, b)
  {
    if ArmOf(a, b).ByVariable? && a.Variable? {
      assert AssignVariable(m, cx, o, a, b) == AssignUpper(m, cx, o, a, b);
    }
  }

  /** The relation satisfies its own equations. */
  lemma SubIs(cx: Ctx, d: Decls, o: Oracle, r: Ranks, a: Ty, b: Ty)
    requires Setting(cx, d, o, r) && InFragment(d, a) && InFragment(d, b)
    ensures Sub(cx, o, r, a, b) <==> a == b || SubByArm(cx, d, o, r, a, b)
  {
    var m := Depth(r, a) + Depth(r, b) - 1;
    match ArmOf(a, b) {
      case ByComposite => CompositeArm(m, cx, d, o, r, a, b);
      case ByNullable => NullableArm(m, cx, d, o, r, a, b);
      case ByVariable => if a.Variable? { VariableArm(m, cx, d, o, r, a, b); }
      case ByShape => ShapeArm(m, cx, d, o, r, a, b);
      case _ =>
    }
    ArmAnswer(m, cx, d, o, r, a, b);
    SubLevel(m + 1, cx, o, r, a, b);
  }

  // ---------------------------------------------------------------- transitivity

  lemma {:induction false} PairsTransitive(
      cx: Ctx, d: Decls, o: Oracle, r: Ranks, xs: seq<Ty>, ys: seq<Ty>, zs: seq<Ty>, limit: nat)
    requires Setting(cx, d, o, r) && |xs| == |ys| == |zs|
    requires AllInFragment(d, xs) && AllInFragment(d, ys) && AllInFragment(d, zs)
    requires SubPairs(cx, o, r, xs, ys) && SubPairs(cx, o, r, ys, zs)
    requires MaxDepth(r, xs) + MaxDepth(r, ys) + MaxDepth(r, zs) < limit
    ensures SubPairs(cx, o, r, xs, zs)
    decreases limit, 0, |xs|
  {
    if xs != [] {
      Transitive(cx, d, o, r, xs[0], ys[0], zs[0]);
      PairsTail(cx, o, r, xs, ys);
      PairsTail(cx, o, r, ys, zs);
      PairsTransitive(cx, d, o, r, xs[1..], ys[1..], zs[1..], limit);
      forall i | 0 <= i < |xs| ensures Sub(cx, o, r, xs[i], zs[i]) {
        if i > 0 {
          assert Sub(cx, o, r, xs[1..][i - 1], zs[1..][i - 1]);
        }
      }
    }
  }

  lemma PairsTail(cx: Ctx, o: Oracle, r: Ranks, xs: seq<Ty>, ys: seq<Ty>)
    requires |xs| == |ys| > 0 && SubPairs(cx, o, r, xs, ys)
    ensures SubPairs(cx, o, r, xs[1..], ys[1..])
  {
    forall i | 0 <= i < |xs[1..]| ensures Sub(cx, o, r, xs[1..][i], ys[1..][i]) {
      assert xs[1..][i] == xs[i + 1] && ys[1..][i] == ys[i + 1];
    }
  }

  lemma {:induction false} IntoIntersection(cx: Ctx, d: Decls, o: Oracle, r: Ranks, a: Ty, b: Ty, c: Ty)
    requires Setting(cx, d, o, r) && InFragment(d, a) && InFragment(d, b) && InFragment(d, c)
    requires c.Intersection? && b != c && Sub(cx, o, r, a, b) && Sub(cx, o, r, b, c)
    ensures SubEach(cx, o, r, a, c.parts)
    decreases Depth(r, a) + Depth(r, b) + Depth(r, c), 0
  {
    SubIs(cx, d, o, r, b, c);
    FragmentAt(d, c.parts);
    MemberDepth(r, c.parts);
    forall p | p in c.parts ensures Sub(cx, o, r, a, p) {
      SubIs(cx, d, o, r, b, p);
      Transitive(cx, d, o, r, a, b, p);
    }
  }

  /** Classes and functions: the case where hierarchy, variance and contravariant flips meet. */
  lemma {:induction false} ReferencesTransitive(cx: Ctx, d: Decls, o: Oracle, r: Ranks, a: Ty, b: Ty, c: Ty)
    requires Setting(cx, d, o, r) && InFragment(d, a) && InFragment(d, b) && InFragment(d, c)
    requires (a.Obj? || a.Fun?) && (b.Obj? || b.Fun?) && (c.Obj? || c.Fun?)
    requires a != b && b != c && SubByArm(cx, d, o, r, a, b) && SubByArm(cx, d, o, r, b, c)
    ensures SubByArm(cx, d, o, r, a, c)
    decreases Depth(r, a) + Depth(r, b) + Depth(r, c), 1
  {
    if a.Fun? && b.Fun? && c.Fun? {
      PairsTransitive(cx, d, o, r, c.params, b.params, a.params, Depth(r, a) + Depth(r, b) + Depth(r, c));
      Transitive(cx, d, o, r, a.ret, b.ret, c.ret);
    } else if c.Obj? && !IsAny(c) {
      if b.Fun? {
        FunctionsTransitive(cx, d, o, r, a, b, c);
      } else {
        NothingAboveAny(cx, d, o, r, b, c);
        ObjectsTransitive(cx, d, o, r, a, b, c);
      }
    }
  }

  lemma NothingAboveAny(cx: Ctx, d: Decls, o: Oracle, r: Ranks, b: Ty, c: Ty)
    requires Setting(cx, d, o, r) && InFragment(d, b) && InFragment(d, c) && b.Obj? && c.Obj? && !IsAny(c)
    requires AppliedSupertype(o, b, c).Some?
    ensures !IsAny(b)
  {
    ArgsInFragment(d, r, b);
    var slots := WalkAncestor(d, o, b, c);
    var steps: nat :| Ancestor(d, steps, HeadOf(b), Cls(c.name), slots);
    if IsAny(b) {
      NoAncestors(d, steps, HeadOf(b), Cls(c.name), slots);
    }
  }

  lemma {:induction false} ElementAt(d: Decls, r: Ranks, ts: seq<Ty>, i: nat)
    requires i < |ts| && AllInFragment(d, ts)
    ensures InFragment(d, ts[i]) && Depth(r, ts[i]) <= MaxDepth(r, ts)
  {
    if i > 0 { ElementAt(d, r, ts[1..], i - 1); }
  }

  /** Arguments of one head compared slot by slot under its declared variance. */
  ghost predicate HeadArgsOk(cx: Ctx, o: Oracle, r: Ranks, h: Head, xs: seq<Ty>, ys: seq<Ty>)
  {
    |xs| == |ys| && forall k {:trigger xs[k]} :: 0 <= k < |xs| ==> ArgOk(cx, o, r, VarianceOf(o, h, k), xs[k], ys[k])
  }

  lemma ClassArgsOk(cx: Ctx, o: Oracle, r: Ranks, c: Name, xs: seq<Ty>, ys: seq<Ty>)
    requires |xs| == |ys| && ArgsOk(cx, o, r, c, 0, xs, ys)
    ensures HeadArgsOk(cx, o, r, Cls(c), xs, ys)
  {
    forall k | 0 <= k < |xs| ensures ArgOk(cx, o, r, VarianceOf(o, Cls(c), k), xs[k], ys[k]) {
      assert ArgOk(cx, o, r, o.variance(c, 0 + k), xs[k], ys[k]);
    }
  }

  lemma ArgReflexive(cx: Ctx, d: Decls, o: Oracle, r: Ranks, v: Variance, t: Ty)
    requires Setting(cx, d, o, r) && InFragment(d, t)
    ensures ArgOk(cx, o, r, v, t, t)
  {
    SubIs(cx, d, o, r, t, t);
  }

  /** A class is below itself when its arguments fit slot by slot. */
  lemma SameClassSub(cx: Ctx, d: Decls, o: Oracle, r: Ranks, a: Ty, b: Ty)
    requires Setting(cx, d, o, r) && InFragment(d, a) && InFragment(d, b) && a.Obj? && b.Obj? && a.name == b.name
    requires ArgsOk(cx, o, r, a.name, 0, a.args, b.args)
    ensures Sub(cx, o, r, a, b)
  {
    SubIs(cx, d, o, r, a, b);
    assert Matches(o, b.name, a) && AppliedSupertype(o, a, b) == Some(a);
    if IsScalar(b) { assert a == b; }
  }

  /** A template over arguments that fit one class slot by slot fits wherever it is suited to stand. */
  lemma {:induction false} FillMonotone(
      cx: Ctx, d: Decls, o: Oracle, r: Ranks, h: Head, v: Variance, slot: Slot, xs: seq<Ty>, ys: seq<Ty>)
    requires Setting(cx, d, o, r) && AllInFragment(d, xs) && AllInFragment(d, ys) && HeadArgsOk(cx, o, r, h, xs, ys)
    requires Suits(d, o, h, v, slot) && Covers(slot, |xs|)
    ensures ArgOk(cx, o, r, v, Fill(slot, xs), Fill(slot, ys))
    decreases slot
  {
    match slot
    case Own(k) =>
      FragmentAt(d, ys);
      assert ys[k] in ys;
      assert ArgOk(cx, o, r, VarianceOf(o, h, k), xs[k], ys[k]);
      if v != VarianceOf(o, h, k) { ArgReflexive(cx, d, o, r, v, ys[k]); }
    case Fixed(ty) => ArgReflexive(cx, d, o, r, v, ty);
    case Nested(name, slots) =>
      forall j: nat | j < |slots|
        ensures ArgOk(cx, o, r, Through(v, o.variance(name, j)), Fill(slots[j], xs), Fill(slots[j], ys))
      {
        FillMonotone(cx, d, o, r, h, Through(v, o.variance(name, j)), slots[j], xs, ys);
      }
      NestedMonotone(cx, d, o, r, h, v, slot, xs, ys);
  }

  lemma NestedMonotone(
      cx: Ctx, d: Decls, o: Oracle, r: Ranks, h: Head, v: Variance, slot: Slot, xs: seq<Ty>, ys: seq<Ty>)
    requires Setting(cx, d, o, r) && AllInFragment(d, xs) && AllInFragment(d, ys) && |xs| == |ys|
    requires slot.Nested? && Suits(d, o, h, v, slot) && Covers(slot, |xs|)
    requires forall j: nat :: j < |slot.slots| ==>
      ArgOk(cx, o, r, Through(v, o.variance(slot.name, j)), Fill(slot.slots[j], xs), Fill(slot.slots[j], ys))
    ensures ArgOk(cx, o, r, v, Fill(slot, xs), Fill(slot, ys))
  {
    FillInFragment(d, o, h, v, slot, xs);
    FillInFragment(d, o, h, v, slot, ys);
    var a, b := Fill(slot, xs), Fill(slot, ys);
    match v
    case Covariant => SameClassSub(cx, d, o, r, a, b);
    case Contravariant => SameClassSub(cx, d, o, r, b, a);
    case Invariant => assert a.args == b.args;
  }

  lemma {:induction false} SlotsTransitive(
      cx: Ctx, d: Decls, o: Oracle, r: Ranks, h: Head, c: Name, t: seq<Slot>, xs: seq<Ty>, ys: seq<Ty>, zs: seq<Ty>,
      limit: nat)
    requires Setting(cx, d, o, r) && AllInFragment(d, xs) && AllInFragment(d, ys) && AllInFragment(d, zs)
    requires HeadArgsOk(cx, o, r, h, xs, ys) && |t| == |zs| && AllCover(t, |ys|) && AllSuit(d, o, h, c, t)
    requires ArgsOk(cx, o, r, c, 0, FillAll(t, ys), zs)
    requires MaxDepth(r, FillAll(t, xs)) + MaxDepth(r, FillAll(t, ys)) + MaxDepth(r, zs) < limit
    ensures ArgsOk(cx, o, r, c, 0, FillAll(t, xs), zs)
    decreases limit, 0, 1
  {
    MemberDepth(r, FillAll(t, xs));
    MemberDepth(r, FillAll(t, ys));
    MemberDepth(r, zs);
    FragmentAt(d, zs);
    forall j: nat | j < |zs| ensures ArgOk(cx, o, r, o.variance(c, 0 + j), FillAll(t, xs)[j], zs[j]) {
      var x, y, z := FillAll(t, xs)[j], FillAll(t, ys)[j], zs[j];
      assert x in FillAll(t, xs) && y in FillAll(t, ys) && z in zs;
      FillInFragment(d, o, h, o.variance(c, j), t[j], xs);
      FillInFragment(d, o, h, o.variance(c, j), t[j], ys);
      FillMonotone(cx, d, o, r, h, o.variance(c, j), t[j], xs, ys);
      assert ArgOk(cx, o, r, o.variance(c, 0 + j), y, z);
      ArgTransitive(cx, d, o, r, o.variance(c, j), x, y, z, limit);
    }
  }

  lemma {:induction false} ArgTransitive(
      cx: Ctx, d: Decls, o: Oracle, r: Ranks, v: Variance, x: Ty, y: Ty, z: Ty, limit: nat)
    requires Setting(cx, d, o, r) && InFragment(d, x) && InFragment(d, y) && InFragment(d, z)
    requires ArgOk(cx, o, r, v, x, y) && ArgOk(cx, o, r, v, y, z)
    requires Depth(r, x) + Depth(r, y) + Depth(r, z) < limit
    ensures ArgOk(cx, o, r, v, x, z)
    decreases limit, 0, 0
  {
    match v
    case Covariant => Transitive(cx, d, o, r, x, y, z);
    case Contravariant => Transitive(cx, d, o, r, z, y, x);
    case Invariant =>
  }

  /** Where the middle type reaches the target's class, so does the source, through the same templates. */
  lemma ReachThrough(d: Decls, o: Oracle, a: Ty, mid: Ty, xs: seq<Ty>, m: nat, s: seq<Slot>, c: Ty)
    returns (t: seq<Slot>)
    requires Declares(d, o) && Coherent(d) && FullyApplied(d, a) && FullyApplied(d, mid)
    requires c.Obj? && c.name in d.classes && AppliedSupertype(o, mid, c).Some?
    requires Ancestor(d, m, HeadOf(a), HeadOf(mid), s) && AllCover(s, |ArgsOf(a)|) && xs == FillAll(s, ArgsOf(a))
    ensures AllCover(t, |ArgsOf(mid)|) && |xs| == |ArgsOf(mid)| && AllSuit(d, o, HeadOf(mid), c.name, t)
    ensures AppliedSupertype(o, mid, c) == Some(Obj(c.name, FillAll(t, ArgsOf(mid))))
    ensures AppliedSupertype(o, a, c) == Some(Obj(c.name, FillAll(t, xs)))
  {
    var n: nat;
    t, n := MiddleReaches(d, o, mid, c);
    AncestorShape(d, o, m, HeadOf(a), HeadOf(mid), s);
    AncestorCompose(d, m, n, HeadOf(a), HeadOf(mid), Cls(c.name), s, t);
    WalkFindsVia(d, o, m + n, a, c, s, t);
  }

  lemma MiddleReaches(d: Decls, o: Oracle, mid: Ty, c: Ty) returns (t: seq<Slot>, n: nat)
    requires Declares(d, o) && FullyApplied(d, mid) && c.Obj? && c.name in d.classes &&
      AppliedSupertype(o, mid, c).Some?
    ensures AllCover(t, |ArgsOf(mid)|) && Ancestor(d, n, HeadOf(mid), Cls(c.name), t)
    ensures AppliedSupertype(o, mid, c) == Some(Obj(c.name, FillAll(t, ArgsOf(mid))))
    ensures AllSuit(d, o, HeadOf(mid), c.name, t)
  {
    t := WalkAncestor(d, o, mid, c);
    n :| Ancestor(d, n, HeadOf(mid), Cls(c.name), t);
    AncestorShape(d, o, n, HeadOf(mid), Cls(c.name), t);
    assert forall j: nat :: j < |t| ==> VarianceOf(o, Cls(c.name), j) == o.variance(c.name, j);
  }

  lemma {:induction false} ObjectsTransitive(cx: Ctx, d: Decls, o: Oracle, r: Ranks, a: Ty, b: Ty, c: Ty)
    requires Setting(cx, d, o, r) && InFragment(d, a) && InFragment(d, b) && InFragment(d, c)
    requires (a.Obj? || a.Fun?) && b.Obj? && c.Obj? && SubObject(cx, o, r, a, b) && SubObject(cx, o, r, b, c)
    ensures SubObject(cx, o, r, a, c)
    decreases Depth(r, a) + Depth(r, b) + Depth(r, c), 0
  {
    var s, m := ObjectArgs(cx, d, o, r, a, b);
    var xs := FillAll(s, ArgsOf(a));
    var t := ReachThrough(d, o, a, b, xs, m, s, c);
    AppliedWithin(d, o, r, a, c);
    AppliedWithin(d, o, r, b, c);
    SlotsTransitive(cx, d, o, r, HeadOf(b), c.name, t, xs, b.args, c.args, Depth(r, a) + Depth(r, b) + Depth(r, c));
  }

  /** What of the source is compared with the target's arguments, and how it is reached. */
  lemma ObjectArgs(cx: Ctx, d: Decls, o: Oracle, r: Ranks, a: Ty, b: Ty) returns (s: seq<Slot>, m: nat)
    requires Setting(cx, d, o, r) && InFragment(d, a) && InFragment(d, b)
    requires (a.Obj? || a.Fun?) && b.Obj? && SubObject(cx, o, r, a, b)
    ensures FullyApplied(d, a) && FullyApplied(d, b)
    ensures AllCover(s, |ArgsOf(a)|) && Ancestor(d, m, HeadOf(a), HeadOf(b), s)
    ensures AllInFragment(d, FillAll(s, ArgsOf(a))) && HeadArgsOk(cx, o, r, HeadOf(b), FillAll(s, ArgsOf(a)), b.args)
  {
    ArgsInFragment(d, r, a);
    s := WalkAncestor(d, o, a, b);
    m :| Ancestor(d, m, HeadOf(a), Cls(b.name), s);
    AppliedInFragment(cx, d, o, r, a, b);
    ClassArgsOk(cx, o, r, b.name, FillAll(s, ArgsOf(a)), b.args);
  }

  /** A function below a function is below it slot by slot: parameters backwards, the result forwards. */
  lemma FunctionSlots(cx: Ctx, o: Oracle, r: Ranks, a: Ty, b: Ty)
    requires a.Fun? && b.Fun? && SubFun(cx, o, r, a, b)
    ensures HeadArgsOk(cx, o, r, HeadOf(b), ArgsOf(a), ArgsOf(b))
  {
    forall k | 0 <= k < |ArgsOf(a)| ensures ArgOk(cx, o, r, VarianceOf(o, HeadOf(b), k), ArgsOf(a)[k], ArgsOf(b)[k]) {
      if k < |a.params| {
        assert Sub(cx, o, r, b.params[k], a.params[k]);
      }
    }
  }

  /** A plain function reaches what a suspending one of its arity does. */
  lemma FunctionReaches(d: Decls, o: Oracle, a: Ty, b: Ty, m: nat, c: Name, t: seq<Slot>)
    requires Declares(d, o) && a.Fun? && b.Fun? && |a.params| == |b.params| && (a.isSuspend ==> b.isSuspend)
    requires d.Has(HeadOf(b)) && Ancestor(d, m, HeadOf(b), Cls(c), t) && !c.FunctionClass?
    ensures Ancestor(d, m, HeadOf(a), Cls(c), t)
  {
    if a.isSuspend != b.isSuspend {
      SuspendAlike(d, o, m, |b.params|, Cls(c), t);
    }
  }

  lemma FunctionsReach(d: Decls, o: Oracle, a: Ty, b: Ty, c: Ty) returns (t: seq<Slot>)
    requires Declares(d, o) && Coherent(d) && FullyApplied(d, a) && FullyApplied(d, b)
    requires a.Fun? && b.Fun? && |a.params| == |b.params| && (a.isSuspend ==> b.isSuspend)
    requires c.Obj? && c.name in d.classes && !c.name.FunctionClass? && AppliedSupertype(o, b, c).Some?
    ensures AllCover(t, |ArgsOf(b)|) && |ArgsOf(a)| == |ArgsOf(b)| && AllSuit(d, o, HeadOf(b), c.name, t)
    ensures AppliedSupertype(o, a, c) == Some(Obj(c.name, FillAll(t, ArgsOf(a))))
    ensures AppliedSupertype(o, b, c) == Some(Obj(c.name, FillAll(t, ArgsOf(b))))
  {
    var m: nat;
    t, m := MiddleReaches(d, o, b, c);
    FunctionReaches(d, o, a, b, m, c.name, t);
    WalkFindsAncestor(d, o, m, a, c, t);
  }

  /** Both functions reach the class, and what they make of it is compared slot by slot. */
  lemma {:induction false} FunctionsTransitive(cx: Ctx, d: Decls, o: Oracle, r: Ranks, a: Ty, b: Ty, c: Ty)
    requires Setting(cx, d, o, r) && InFragment(d, a) && InFragment(d, b) && InFragment(d, c)
    requires a.Fun? && b.Fun? && c.Obj? && SubFun(cx, o, r, a, b) && SubObject(cx, o, r, b, c)
    ensures SubObject(cx, o, r, a, c)
    decreases Depth(r, a) + Depth(r, b) + Depth(r, c), 0
  {
    ArgsInFragment(d, r, a);
    ArgsInFragment(d, r, b);
    var t := FunctionsReach(d, o, a, b, c);
    AppliedWithin(d, o, r, a, c);
    AppliedWithin(d, o, r, b, c);
    FunctionSlots(cx, o, r, a, b);
    SlotsTransitive(cx, d, o, r, HeadOf(b), c.name, t, ArgsOf(a), ArgsOf(b), c.args,
      Depth(r, a) + Depth(r, b) + Depth(r, c));
  }

  lemma {:induction false} ThroughIntersection(cx: Ctx, d: Decls, o: Oracle, r: Ranks, a: Ty, b: Ty, c: Ty)
    requires Setting(cx, d, o, r) && InFragment(d, a) && InFragment(d, b) && InFragment(d, c)
    requires b.Intersection? && !c.Intersection? && a != b && !a.Nothing?
    requires SubByArm(cx, d, o, r, a, b) && SubByArm(cx, d, o, r, b, c)
    ensures Sub(cx, o, r, a, c)
    decreases Depth(r, a) + Depth(r, b) + Depth(r, c), 0
  {
    FragmentAt(d, b.parts);
    MemberDepth(r, b.parts);
    var p :| p in b.parts && Sub(cx, o, r, p, c);
    Transitive(cx, d, o, r, a, p, c);
  }

  lemma {:induction false} FromIntersection(cx: Ctx, d: Decls, o: Oracle, r: Ranks, a: Ty, b: Ty, c: Ty)
    requires Setting(cx, d, o, r) && InFragment(d, a) && InFragment(d, b) && InFragment(d, c)
    requires a.Intersection? && !b.Intersection? && !c.Intersection? && SubByArm(cx, d, o, r, a, b) &&
      Sub(cx, o, r, b, c)
    ensures SubByArm(cx, d, o, r, a, c)
    decreases Depth(r, a) + Depth(r, b) + Depth(r, c), 0
  {
    FragmentAt(d, a.parts);
    MemberDepth(r, a.parts);
    var p :| p in a.parts && Sub(cx, o, r, p, b);
    Transitive(cx, d, o, r, p, b, c);
    assert SubSome(cx, o, r, a.parts, c);
  }

  lemma {:induction false} FromVariable(cx: Ctx, d: Decls, o: Oracle, r: Ranks, a: Ty, b: Ty, c: Ty)
    requires Setting(cx, d, o, r) && InFragment(d, a) && InFragment(d, b) && InFragment(d, c)
    requires a.Variable? && !b.Intersection? && !c.Intersection?
    requires SubByArm(cx, d, o, r, a, b) && SubByArm(cx, d, o, r, b, c) && Sub(cx, o, r, b, c)
    ensures Sub(cx, o, r, a, c) || SubByArm(cx, d, o, r, a, c)
    decreases Depth(r, a) + Depth(r, b) + Depth(r, c), 0
  {
    if b.Nullable? && a == b.inner {
      assert SubByArm(cx, d, o, r, b, c);
    } else {
      UpperIsJoined(cx, d, o, r, a);
      Transitive(cx, d, o, r, JoinedBound(d, o, a.symbol), b, c);
    }
  }

  lemma ThreeSubs(cx: Ctx, d: Decls, o: Oracle, r: Ranks, a: Ty, b: Ty, c: Ty)
    requires Setting(cx, d, o, r) && InFragment(d, a) && InFragment(d, b) && InFragment(d, c)
    ensures Sub(cx, o, r, a, b) <==> a == b || SubByArm(cx, d, o, r, a, b)
    ensures Sub(cx, o, r, b, c) <==> b == c || SubByArm(cx, d, o, r, b, c)
    ensures Sub(cx, o, r, a, c) <==> a == c || SubByArm(cx, d, o, r, a, c)
  {
    SubIs(cx, d, o, r, a, b);
    SubIs(cx, d, o, r, b, c);
    SubIs(cx, d, o, r, a, c);
  }

  /** Neither intersections nor a variable as the source: nullable types and what is under them. */
  lemma {:induction false} PlainTransitive(cx: Ctx, d: Decls, o: Oracle, r: Ranks, a: Ty, b: Ty, c: Ty)
    requires Setting(cx, d, o, r) && InFragment(d, a) && InFragment(d, b) && InFragment(d, c)
    requires !a.Intersection? && !b.Intersection? && !c.Intersection? && !a.Variable? && !a.Nothing? && a != b && b != c
    requires SubByArm(cx, d, o, r, a, b) && SubByArm(cx, d, o, r, b, c) && Sub(cx, o, r, b, c)
    ensures Sub(cx, o, r, a, c) || SubByArm(cx, d, o, r, a, c)
    decreases Depth(r, a) + Depth(r, b) + Depth(r, c), 2
  {
    if a.Nullable? {
      Transitive(cx, d, o, r, a.inner, b, c);
    } else if b.Nullable? {
      Transitive(cx, d, o, r, a, b.inner, c);
    } else if c.Nullable? {
      SubIs(cx, d, o, r, a, b);
      Transitive(cx, d, o, r, a, b, c.inner);
    } else {
      ReferencesTransitive(cx, d, o, r, a, b, c);
    }
  }

  lemma {:induction false} Transitive(cx: Ctx, d: Decls, o: Oracle, r: Ranks, a: Ty, b: Ty, c: Ty)
    requires Setting(cx, d, o, r) && InFragment(d, a) && InFragment(d, b) && InFragment(d, c)
    requires Sub(cx, o, r, a, b) && Sub(cx, o, r, b, c)
    ensures Sub(cx, o, r, a, c)
    decreases Depth(r, a) + Depth(r, b) + Depth(r, c), 3
  {
    ThreeSubs(cx, d, o, r, a, b, c);
    if a == b || b == c || a == c || a.Nothing? {
    } else if c.Intersection? {
      IntoIntersection(cx, d, o, r, a, b, c);
    } else if b.Intersection? {
      ThroughIntersection(cx, d, o, r, a, b, c);
    } else if a.Intersection? {
      FromIntersection(cx, d, o, r, a, b, c);
    } else if a.Variable? {
      FromVariable(cx, d, o, r, a, b, c);
    } else {
      PlainTransitive(cx, d, o, r, a, b, c);
    }
  }

  /** Assignability is transitive: two answers of yes, found at any depth, give the third at every
      depth that decides it. */
  lemma AssignTransitive(n: nat, m: nat, k: nat, cx: Ctx, d: Decls, o: Oracle, r: Ranks, a: Ty, b: Ty, c: Ty)
    requires Setting(cx, d, o, r) && InFragment(d, a) && InFragment(d, b) && InFragment(d, c)
    requires Assign(n, cx, o, a, b) == Yes && Assign(m, cx, o, b, c) == Yes
    requires k >= Depth(r, a) + Depth(r, c)
    ensures Assign(k, cx, o, a, c) == Yes
  {
    YesIsSub(n, cx, d, o, r, a, b);
    YesIsSub(m, cx, d, o, r, b, c);
    Transitive(cx, d, o, r, a, b, c);
    SubAt(k, cx, d, o, r, a, c);
  }

  lemma YesIsSub(n: nat, cx: Ctx, d: Decls, o: Oracle, r: Ranks, a: Ty, b: Ty)
    requires InWorld(cx, d, o, r) && InFragment(d, a) && InFragment(d, b) && Assign(n, cx, o, a, b) == Yes
    ensures Sub(cx, o, r, a, b)
  {
    var more := Max(n, Depth(r, a) + Depth(r, b));
    AnswerStable(n, more, cx, o, a, b);
    SubAt(more, cx, d, o, r, a, b);
  }
}
