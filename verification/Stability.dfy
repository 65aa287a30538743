/** Allowing deeper recursion never changes an answer, so an answer is a fact about the types. */
module Stability {
  import opened Options
  import opened Types
  import opened Hierarchy
  import opened Flexible
  import opened Assignable

  /** Allowing `k` levels instead of `m` leaves every answer found with `m` levels as it is. */
  ghost predicate StableAt(m: nat, k: nat, o: Oracle)
  {
    forall cx, sub, sup {:trigger Assign(m, cx, o, sub, sup), Assign(k, cx, o, sub, sup)} ::
      Refines(Assign(m, cx, o, sub, sup), Assign(k, cx, o, sub, sup))
  }

  /** `after` may only differ from `before` where `before` ran out. */
  predicate Refines(before: Answer, after: Answer)
  {
    before != Exhausted ==> after == before
  }

  lemma {:induction false} EachStable(m: nat, k: nat, cx: Ctx, o: Oracle, sub: Ty, parts: seq<Ty>)
    requires m <= k && StableAt(m, k, o)
    ensures Refines(AssignEach(m, cx, o, sub, parts), AssignEach(k, cx, o, sub, parts))
    decreases |parts|
  {
    if parts != [] {
      EachStable(m, k, cx, o, sub, parts[1..]);
    }
  }

  lemma {:induction false} SomeStable(m: nat, k: nat, cx: Ctx, o: Oracle, parts: seq<Ty>, sup: Ty)
    requires m <= k && StableAt(m, k, o)
    ensures Refines(AssignSome(m, cx, o, parts, sup), AssignSome(k, cx, o, parts, sup))
    decreases |parts|
  {
    if parts != [] {
      SomeStable(m, k, cx, o, parts[1..], sup);
    }
  }

  lemma {:induction false} AllStable(m: nat, k: nat, cx: Ctx, o: Oracle, subs: seq<Ty>, sup: Ty)
    requires m <= k && StableAt(m, k, o)
    ensures Refines(AssignAll(m, cx, o, subs, sup), AssignAll(k, cx, o, subs, sup))
    decreases |subs|
  {
    if subs != [] {
      AllStable(m, k, cx, o, subs[1..], sup);
    }
  }

  lemma {:induction false} PairsStable(m: nat, k: nat, cx: Ctx, o: Oracle, subs: seq<Ty>, sups: seq<Ty>)
    requires m <= k && StableAt(m, k, o) && |subs| == |sups|
    ensures Refines(AssignPairs(m, cx, o, subs, sups), AssignPairs(k, cx, o, subs, sups))
    decreases |subs|
  {
    if subs != [] {
      PairsStable(m, k, cx, o, subs[1..], sups[1..]);
    }
  }

  lemma {:induction false} ResolveStable(m: nat, k: nat, cx: Ctx, current: Ty, origin: Ty)
    requires m <= k
    ensures Resolve(m, cx, current, origin).Some? ==> Resolve(k, cx, current, origin) == Resolve(m, cx, current, origin)
  {
    if current.Variable? && current.symbol in cx && m > 0 {
      ResolveStable(m - 1, k - 1, cx, cx[current.symbol], origin);
    }
  }

  lemma ProjectionStable(m: nat, k: nat, cx: Ctx, o: Oracle, owner: Option<Name>, index: nat, p: Ty, a: Ty)
    requires m <= k && StableAt(m, k, o) && p.Projection?
    ensures Refines(ProjectionFits(m, cx, o, owner, index, p, a), ProjectionFits(k, cx, o, owner, index, p, a))
  {
    if IsOut(p) && IsIn(a) {
      SomeStable(m, k, cx, o, ReadableBounds(o, owner, index), p.inner);
    }
  }

  lemma InvariantStable(m: nat, k: nat, cx: Ctx, o: Oracle, owner: Option<Name>, index: nat, p: Ty, a: Ty)
    requires m <= k && StableAt(m, k, o)
    ensures Refines(InvariantFits(m, cx, o, owner, index, p, a), InvariantFits(k, cx, o, owner, index, p, a))
  {
    if IsIn(a) {
      AllStable(m, k, cx, o, ReadableBounds(o, owner, index), p);
    } else {
      ResolveStable(m, k, cx, a, a);
      ResolveStable(m, k, cx, p, p);
    }
  }

  lemma ArgumentStable(m: nat, k: nat, cx: Ctx, o: Oracle, owner: Option<Name>, index: nat, p: Ty, given: Ty)
    requires m <= k && StableAt(m, k, o)
    ensures Refines(ArgumentFits(m, cx, o, owner, index, p, given), ArgumentFits(k, cx, o, owner, index, p, given))
  {
    var a := if IsRaw(given) then given.inner else given;
    if p.Projection? {
      ProjectionStable(m, k, cx, o, owner, index, p, a);
    } else {
      InvariantStable(m, k, cx, o, owner, index, p, a);
    }
  }

  lemma {:induction false} ArgumentsStable(
      m: nat, k: nat, cx: Ctx, o: Oracle, owner: Option<Name>, index: nat, expected: seq<Ty>, actual: seq<Ty>)
    requires m <= k && StableAt(m, k, o)
    ensures Refines(ArgumentsFit(m, cx, o, owner, index, expected, actual),
      ArgumentsFit(k, cx, o, owner, index, expected, actual))
    decreases |expected|
  {
    if expected != [] && actual != [] {
      ArgumentStable(m, k, cx, o, owner, index, expected[0], actual[0]);
      ArgumentsStable(m, k, cx, o, owner, index + 1, expected[1..], actual[1..]);
    }
  }

  lemma ObjectStable(m: nat, k: nat, cx: Ctx, o: Oracle, sub: Ty, sup: Ty)
    requires m <= k && StableAt(m, k, o)
    ensures Refines(AssignObject(m, cx, o, sub, sup), AssignObject(k, cx, o, sub, sup))
  {
    var applied := AppliedSupertype(o, sub, sup);
    if applied.Some? {
      ArgumentsStable(m, k, cx, o, ObjectName(sup), 0, TypeArgs(sup), TypeArgs(applied.value));
    }
  }

  lemma ShapeStable(m: nat, k: nat, cx: Ctx, o: Oracle, sub: Ty, sup: Ty)
    requires m <= k && StableAt(m, k, o)
    ensures Refines(AssignShape(m, cx, o, sub, sup), AssignShape(k, cx, o, sub, sup))
  {
    if sub.Fun? && sup.Fun? {
      if |sub.params| == |sup.params| {
        PairsStable(m, k, cx, o, sup.params, sub.params);
      }
    } else if sup.Fun? {
      ObjectStable(m, k, cx, o, sub, FunctionApplication(sup));
    } else {
      ObjectStable(m, k, cx, o, sub, sup);
    }
  }

  lemma VariableStable(m: nat, k: nat, cx: Ctx, o: Oracle, sub: Ty, sup: Ty)
    requires m <= k && StableAt(m, k, o)
    ensures sub.Variable? ==> Refines(AssignUpper(m, cx, o, sub, sup), AssignUpper(k, cx, o, sub, sup))
    ensures sub.Variable? || sup.Variable? ==>
      Refines(AssignVariable(m, cx, o, sub, sup), AssignVariable(k, cx, o, sub, sup))
  {
  }

  lemma ToNullableStable(m: nat, k: nat, cx: Ctx, o: Oracle, sub: Ty, sup: Ty)
    requires m <= k && StableAt(m, k, o) && sup.Nullable?
    ensures Refines(AssignToNullable(m, cx, o, sub, sup), AssignToNullable(k, cx, o, sub, sup))
  {
    VariableStable(m, k, cx, o, sub, sup);
  }

  lemma NotNullStable(m: nat, k: nat, cx: Ctx, o: Oracle, sub: Ty, sup: Ty)
    requires m <= k && StableAt(m, k, o) && sub.NotNull?
    ensures Refines(AssignNotNull(m, cx, o, sub, sup), AssignNotNull(k, cx, o, sub, sup))
  {
  }

  lemma CompositeStable(m: nat, k: nat, cx: Ctx, o: Oracle, sub: Ty, sup: Ty)
    requires m <= k && StableAt(m, k, o) && (sup.NotNull? || sup.Intersection? || sub.Intersection?)
    ensures Refines(AssignComposite(m, cx, o, sub, sup), AssignComposite(k, cx, o, sub, sup))
  {
    if sup.Intersection? {
      EachStable(m, k, cx, o, sub, sup.parts);
    } else if sub.Intersection? {
      SomeStable(m, k, cx, o, sub.parts, sup);
    }
  }

  lemma FlexibleStable(m: nat, k: nat, cx: Ctx, o: Oracle, sub: Ty, sup: Ty)
    requires m <= k && StableAt(m, k, o) && (Flexing(sub) || Flexing(sup))
    ensures Refines(AssignFlexible(m, cx, o, sub, sup), AssignFlexible(k, cx, o, sub, sup))
  {
  }

  lemma OneLevelStable(m: nat, k: nat, cx: Ctx, o: Oracle, sub: Ty, sup: Ty)
    requires m <= k && StableAt(m, k, o)
    ensures Refines(Assign(m + 1, cx, o, sub, sup), Assign(k + 1, cx, o, sub, sup))
  {
    match ArmOf(sub, sup)
    case ByNotNull => NotNullStable(m, k, cx, o, sub, sup);
    case ByComposite => CompositeStable(m, k, cx, o, sub, sup);
    case ByFlexible => FlexibleStable(m, k, cx, o, sub, sup);
    case ByNullable => ToNullableStable(m, k, cx, o, sub, sup);
    case ByVariable => VariableStable(m, k, cx, o, sub, sup);
    case ByShape => ShapeStable(m, k, cx, o, sub, sup);
    case _ =>
  }

  lemma {:induction false} EveryLevelStable(m: nat, k: nat, o: Oracle)
    requires m <= k
    ensures StableAt(m, k, o)
  {
    if m > 0 {
      EveryLevelStable(m - 1, k - 1, o);
      forall cx, sub, sup ensures Refines(Assign(m, cx, o, sub, sup), Assign(k, cx, o, sub, sup)) {
        OneLevelStable(m - 1, k - 1, cx, o, sub, sup);
      }
    }
  }

  /** An answer reached within `n` levels is the answer within any number of levels from `n` on. */
  lemma AnswerStable(n: nat, more: nat, cx: Ctx, o: Oracle, sub: Ty, sup: Ty)
    requires n <= more && Assign(n, cx, o, sub, sup) != Exhausted
    ensures Assign(more, cx, o, sub, sup) == Assign(n, cx, o, sub, sup)
  {
    EveryLevelStable(n, more, o);
  }
}
