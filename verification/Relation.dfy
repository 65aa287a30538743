/** Assignability as a relation without levels, and its answer for every pair of types, arm by arm in the
    source's order (`assignable_inner` and `obj_assignable`, src/assignable.rs:195-497). */
module Relation {
  import opened Options
  import opened Types
  import opened Hierarchy
  import opened Flexible
  import opened Assignable
  import opened Stability

  /** The answer that some number of levels reaches, or `Exhausted` when none does. */
  ghost function Outcome(cx: Ctx, o: Oracle, a: Ty, b: Ty): Answer
  {
    if exists n: nat :: Assign(n, cx, o, a, b) == Yes then Yes
    else if exists n: nat :: Assign(n, cx, o, a, b) == No then No
    else Exhausted
  }

  /** From `n` levels on, the answer is the outcome. */
  ghost predicate Settled(n: nat, cx: Ctx, o: Oracle, a: Ty, b: Ty)
  {
    forall k: nat :: k >= n ==> Assign(k, cx, o, a, b) == Outcome(cx, o, a, b)
  }

  lemma SameAnswer(m: nat, k: nat, cx: Ctx, o: Oracle, a: Ty, b: Ty)
    requires Assign(m, cx, o, a, b) != Exhausted && Assign(k, cx, o, a, b) != Exhausted
    ensures Assign(m, cx, o, a, b) == Assign(k, cx, o, a, b)
  {
    if k < m { AnswerStable(k, m, cx, o, a, b); } else { AnswerStable(m, k, cx, o, a, b); }
  }

  /** An answer of any number of levels is the outcome. */
  lemma AnswerIsOutcome(m: nat, cx: Ctx, o: Oracle, a: Ty, b: Ty)
    requires Assign(m, cx, o, a, b) != Exhausted
    ensures Outcome(cx, o, a, b) == Assign(m, cx, o, a, b)
  {
    if n: nat :| Assign(n, cx, o, a, b) == Yes {
      SameAnswer(m, n, cx, o, a, b);
    }
  }

  lemma Settles(cx: Ctx, o: Oracle, a: Ty, b: Ty) returns (n: nat)
    ensures Settled(n, cx, o, a, b)
  {
    n := 0;
    if m: nat :| Assign(m, cx, o, a, b) != Exhausted {
      n := m;
      AnswerIsOutcome(m, cx, o, a, b);
      forall k: nat | k >= m ensures Assign(k, cx, o, a, b) == Assign(m, cx, o, a, b) {
        AnswerStable(m, k, cx, o, a, b);
      }
    }
  }

  // ---------------------------------------------------------------- the arms

  /** Every one of `parts` must take `a`. */
  ghost function EachOf(cx: Ctx, o: Oracle, a: Ty, parts: seq<Ty>): Answer
  {
    if parts == [] then Yes else Both(Outcome(cx, o, a, parts[0]), EachOf(cx, o, a, parts[1..]))
  }

  /** Some of `parts` must fit `b`. */
  ghost function SomeOf(cx: Ctx, o: Oracle, parts: seq<Ty>, b: Ty): Answer
  {
    if parts == [] then No else Either(Outcome(cx, o, parts[0], b), SomeOf(cx, o, parts[1..], b))
  }

  /** All of `subs` must fit `b`. */
  ghost function AllOf(cx: Ctx, o: Oracle, subs: seq<Ty>, b: Ty): Answer
  {
    if subs == [] then Yes else Both(Outcome(cx, o, subs[0], b), AllOf(cx, o, subs[1..], b))
  }

  ghost function PairsOf(cx: Ctx, o: Oracle, subs: seq<Ty>, sups: seq<Ty>): Answer
    requires |subs| == |sups|
  {
    if subs == [] then Yes
    else Both(Outcome(cx, o, subs[0], sups[0]), PairsOf(cx, o, subs[1..], sups[1..]))
  }

  /** A variable counts for its binding, or without one for all its bounds together. */
  ghost function VariableOf(cx: Ctx, o: Oracle, a: Ty, b: Ty): Answer
    requires a.Variable?
  {
    var bounds := o.variableBounds(a.symbol);
    var upper :=
      if a.symbol in cx then cx[a.symbol]
      else if bounds == [] then a.bound
      else MakeIntersection([a.bound] + bounds);
    if upper == a then No else Outcome(cx, o, upper, b)
  }

  /** `T & Any` counts for `T`, or for the non-null forms of the bounds of `T` together. */
  ghost function DefiniteOf(cx: Ctx, o: Oracle, original: Ty, b: Ty): Answer
  {
    var bounds := if original.Variable? then [original.bound] + o.variableBounds(original.symbol) else [];
    var tightened :=
      if |bounds| == 1 then NonNull(bounds[0])
      else MakeIntersection(seq(|bounds|, i requires 0 <= i < |bounds| => NonNull(bounds[i])));
    Either(Outcome(cx, o, original, b),
      if !original.Variable? || tightened == original then No else Outcome(cx, o, tightened, b))
  }

  /** What an argument read through an `in` projection may be: whatever the parameter's bounds admit. */
  ghost function Readable(o: Oracle, owner: Option<Name>, index: nat): seq<Ty>
  {
    if owner.None? || o.upperBounds(owner.value, index) == [] then [Nullable(Obj(AnyClass, []))]
    else o.upperBounds(owner.value, index)
  }

  /** A raw argument counts for its erasure. */
  ghost function SlotOf(cx: Ctx, o: Oracle, owner: Option<Name>, index: nat, p: Ty, given: Ty): Answer
  {
    ArgumentOf(cx, o, owner, index, p, if given.Projection? && given.mode == Raw then given.inner else given)
  }

  /** Argument `a` in a slot that expects `p`. */
  ghost function ArgumentOf(cx: Ctx, o: Oracle, owner: Option<Name>, index: nat, p: Ty, a: Ty): Answer
  {
    var bare := if a.Projection? && a.mode != Raw then a.inner else a;
    if p.Projection? then
      match p.mode
      case Star => Yes
      case Raw => Yes
      case Out =>
        if a.Projection? && a.mode == In then SomeOf(cx, o, Readable(o, owner, index), p.inner)
        else Outcome(Capture(cx, o, p.inner, a), o, bare, p.inner)
      case In =>
        if a.Projection? && (a.mode == Out || a.mode == Star) then (if p.inner == Nothing then Yes else No)
        else Outcome(cx, o, p.inner, bare)
    else if owner.Some? && o.variance(owner.value, index) == Covariant then Outcome(cx, o, a, p)
    else if owner.Some? && o.variance(owner.value, index) == Contravariant then Outcome(cx, o, p, a)
    else InvariantOf(cx, o, owner, index, p, a)
  }

  ghost function InvariantOf(cx: Ctx, o: Oracle, owner: Option<Name>, index: nat, p: Ty, a: Ty): Answer
  {
    if a.Projection? && a.mode == In then
      Both(Outcome(cx, o, p, a.inner), AllOf(cx, o, Readable(o, owner, index), p))
    else SameOf(cx, o, a, p)
  }

  /** What following bindings from `t` ends at, if it ends. */
  ghost function Followed(cx: Ctx, t: Ty): Option<Ty>
  {
    if n: nat :| Resolve(n, cx, t, t).Some? then Resolve(n, cx, t, t) else None
  }

  /** Invariant arguments are equal once variables are followed to what they are bound to. */
  ghost function SameOf(cx: Ctx, o: Oracle, a: Ty, p: Ty): Answer
  {
    var (left, right) := (Followed(cx, a), Followed(cx, p));
    if left.None? || right.None? then Exhausted
    else if SameFlexible(o, left.value, right.value) then Yes else No
  }

  ghost function SlotsOf(
      cx: Ctx, o: Oracle, owner: Option<Name>, index: nat, expected: seq<Ty>, actual: seq<Ty>): Answer
    decreases |expected|
  {
    if expected == [] || actual == [] then Yes
    else Both(
      SlotOf(cx, o, owner, index, expected[0], actual[0]),
      SlotsOf(cx, o, owner, index + 1, expected[1..], actual[1..]))
  }

  /** A class or function against an applied class: the class must be above it, and unless the target is bare
      it must fit slot by slot. */
  ghost function ClassOf(cx: Ctx, o: Oracle, a: Ty, name: Name, args: seq<Ty>): Answer
  {
    var applied := AppliedSupertype(o, a, Obj(name, args));
    if applied.None? || (args != [] && |args| != |TypeArgs(applied.value)|) then No
    else SlotsOf(cx, o, Some(name), 0, args, TypeArgs(applied.value))
  }

  ghost function ShapeOf(cx: Ctx, o: Oracle, a: Ty, b: Ty): Answer
  {
    if a.Obj? && b.Fun? then ClassOf(cx, o, a, FunctionClass(|b.params|, b.isSuspend), b.params + [b.ret])
    else if a.Fun? && b.Fun? then
      if |a.params| != |b.params| || (a.isSuspend && !b.isSuspend) then No
      else Both(PairsOf(cx, o, b.params, a.params), Outcome(cx, o, a.ret, b.ret))
    else if (a.Obj? || a.Fun?) && b.Obj? then ClassOf(cx, o, a, b.name, b.args)
    else if AppliedSupertype(o, a, b).Some? then Yes
    else No
  }

  ghost function VariablesOf(cx: Ctx, o: Oracle, a: Ty, b: Ty): Answer
    requires a.Variable? || b.Variable?
  {
    if a.Variable? && (!b.Variable? || a.symbol != b.symbol) then VariableOf(cx, o, a, b)
    else if b.symbol in cx && cx[b.symbol] != b then Outcome(cx, o, a, cx[b.symbol])
    else No
  }

  /** A target `X?`. */
  ghost function NullableOf(cx: Ctx, o: Oracle, a: Ty, b: Ty): Answer
    requires b.Nullable?
  {
    if a.Nullable? then Outcome(cx, o, a.inner, b)
    else if a.Variable? then
      if b.inner.Variable? && a.symbol == b.inner.symbol && a.inference == b.inner.inference then Yes
      else VariableOf(cx, o, a, b)
    else Outcome(cx, o, a, b.inner)
  }

  /** `T & Any` as a target, and intersections on either side. */
  ghost function CompositeOf(cx: Ctx, o: Oracle, a: Ty, b: Ty): Answer
    requires b.NotNull? || b.Intersection? || a.Intersection?
  {
    if b.NotNull? then Both(Outcome(cx, o, a, b.original), Outcome(cx, o, a, Obj(AnyClass, [])))
    else if b.Intersection? then EachOf(cx, o, a, b.parts)
    else SomeOf(cx, o, a.parts, b)
  }

  /** The forms that stand for another type or for an interval of types. */
  ghost function StandIn(cx: Ctx, o: Oracle, a: Ty, b: Ty): Option<Answer>
  {
    if b.Projection? && b.mode != Raw then Some(Outcome(cx, o, a, b.inner))
    else if a.Projection? && a.mode != Raw then Some(Outcome(cx, o, a.inner, b))
    else if b.Platform? then Some(Outcome(cx, o, a, MakeNullable(UpperFace(o, b.inner))))
    else if a.Platform? then Some(Either(Outcome(cx, o, a.inner, b), Outcome(cx, o, MakeNullable(a.inner), b)))
    else if b.Mutability? then Some(Outcome(cx, o, a, o.readOnlyFace(b.inner)))
    else if a.Mutability? then Some(Outcome(cx, o, a.inner, b))
    else None
  }

  /** The source's arms, each in terms of the outcomes it asks for. */
  ghost function ByArm(cx: Ctx, o: Oracle, a: Ty, b: Ty): Answer
  {
    if a == b then Yes
    else if a.Variable? && b.Variable? && a.symbol == b.symbol && a.inference == b.inference then Yes
    else if a.NotNull? then DefiniteOf(cx, o, a.original, b)
    else if a.Error? || b.Error? || a.Nothing? then Yes
    else if b.NotNull? || b.Intersection? || a.Intersection? then CompositeOf(cx, o, a, b)
    else if StandIn(cx, o, a, b).Some? then StandIn(cx, o, a, b).value
    else if a.Null? then (if b.Nullable? then Yes else No)
    else if b.Nullable? then NullableOf(cx, o, a, b)
    else if a.Nullable? then No
    else if a.Variable? || b.Variable? then VariablesOf(cx, o, a, b)
    else if b.Obj? && (b.name == AnyClass || b.name == JavaObject) then Yes
    else if b.Obj? && b.name.Scalar? && b.args == [] then No
    else ShapeOf(cx, o, a, b)
  }

  // ---------------------------------------------------------------- enough levels for a list

  lemma {:induction false} EachSettles(cx: Ctx, o: Oracle, a: Ty, parts: seq<Ty>) returns (n: nat)
    ensures forall m: nat :: m >= n ==> AssignEach(m, cx, o, a, parts) == EachOf(cx, o, a, parts)
  {
    n := 0;
    if parts != [] {
      var first := Settles(cx, o, a, parts[0]);
      var rest := EachSettles(cx, o, a, parts[1..]);
      n := Max(first, rest);
    }
  }

  lemma {:induction false} SomeSettles(cx: Ctx, o: Oracle, parts: seq<Ty>, b: Ty) returns (n: nat)
    ensures forall m: nat :: m >= n ==> AssignSome(m, cx, o, parts, b) == SomeOf(cx, o, parts, b)
  {
    n := 0;
    if parts != [] {
      var first := Settles(cx, o, parts[0], b);
      var rest := SomeSettles(cx, o, parts[1..], b);
      n := Max(first, rest);
    }
  }

  lemma {:induction false} AllSettles(cx: Ctx, o: Oracle, subs: seq<Ty>, b: Ty) returns (n: nat)
    ensures forall m: nat :: m >= n ==> AssignAll(m, cx, o, subs, b) == AllOf(cx, o, subs, b)
  {
    n := 0;
    if subs != [] {
      var first := Settles(cx, o, subs[0], b);
      var rest := AllSettles(cx, o, subs[1..], b);
      n := Max(first, rest);
    }
  }

  lemma {:induction false} PairsSettle(cx: Ctx, o: Oracle, subs: seq<Ty>, sups: seq<Ty>) returns (n: nat)
    requires |subs| == |sups|
    ensures forall m: nat :: m >= n ==> AssignPairs(m, cx, o, subs, sups) == PairsOf(cx, o, subs, sups)
  {
    n := 0;
    if subs != [] {
      var first := Settles(cx, o, subs[0], sups[0]);
      var rest := PairsSettle(cx, o, subs[1..], sups[1..]);
      n := Max(first, rest);
    }
  }

  // ---------------------------------------------------------------- enough levels for an argument

  lemma Follows(cx: Ctx, t: Ty) returns (n: nat)
    ensures forall m: nat :: m >= n ==> Resolve(m, cx, t, t) == Followed(cx, t)
  {
    n := 0;
    if k: nat :| Resolve(k, cx, t, t).Some? {
      n := k;
      forall i: nat | Resolve(i, cx, t, t).Some? ensures Resolve(i, cx, t, t) == Resolve(k, cx, t, t) {
        ResolveStable(i, Max(i, k), cx, t, t);
        ResolveStable(k, Max(i, k), cx, t, t);
      }
      forall m: nat | m >= k ensures Resolve(m, cx, t, t).Some? {
        ResolveStable(k, m, cx, t, t);
      }
    }
  }

  lemma SameSettles(cx: Ctx, o: Oracle, a: Ty, p: Ty) returns (n: nat)
    ensures forall m: nat :: m >= n ==>
      SameResolved(o, Resolve(m, cx, a, a), Resolve(m, cx, p, p)) == SameOf(cx, o, a, p)
  {
    var left := Follows(cx, a);
    var right := Follows(cx, p);
    n := Max(left, right);
  }

  lemma ProjectionSettles(cx: Ctx, o: Oracle, owner: Option<Name>, index: nat, p: Ty, a: Ty) returns (n: nat)
    requires p.Projection?
    ensures forall m: nat :: m >= n ==>
      ProjectionFits(m, cx, o, owner, index, p, a) == ArgumentOf(cx, o, owner, index, p, a)
  {
    n := 0;
    if IsOut(p) {
      if IsIn(a) {
        n := SomeSettles(cx, o, ReadableBounds(o, owner, index), p.inner);
      } else {
        n := Settles(Capture(cx, o, p.inner, a), o, Unprojected(a), p.inner);
      }
    } else if IsIn(p) {
      n := Settles(cx, o, p.inner, Unprojected(a));
    }
  }

  lemma InvariantSettles(cx: Ctx, o: Oracle, owner: Option<Name>, index: nat, p: Ty, a: Ty) returns (n: nat)
    ensures forall m: nat :: m >= n ==>
      InvariantFits(m, cx, o, owner, index, p, a) == InvariantOf(cx, o, owner, index, p, a)
  {
    if IsIn(a) {
      var lower := Settles(cx, o, p, a.inner);
      var bounds := AllSettles(cx, o, ReadableBounds(o, owner, index), p);
      n := Max(lower, bounds);
    } else {
      n := SameSettles(cx, o, a, p);
    }
  }

  lemma ArgumentSettles(cx: Ctx, o: Oracle, owner: Option<Name>, index: nat, p: Ty, given: Ty) returns (n: nat)
    ensures forall m: nat :: m >= n ==>
      ArgumentFits(m, cx, o, owner, index, p, given) == SlotOf(cx, o, owner, index, p, given)
  {
    var a := if IsRaw(given) then given.inner else given;
    if p.Projection? {
      n := ProjectionSettles(cx, o, owner, index, p, a);
    } else {
      var read := Settles(cx, o, a, p);
      var written := Settles(cx, o, p, a);
      var same := InvariantSettles(cx, o, owner, index, p, a);
      n := Max(Max(read, written), same);
    }
  }

  lemma {:induction false} ArgumentsSettle(
      cx: Ctx, o: Oracle, owner: Option<Name>, index: nat, expected: seq<Ty>, actual: seq<Ty>) returns (n: nat)
    ensures forall m: nat :: m >= n ==>
      ArgumentsFit(m, cx, o, owner, index, expected, actual) == SlotsOf(cx, o, owner, index, expected, actual)
    decreases |expected|
  {
    n := 0;
    if expected != [] && actual != [] {
      var first := ArgumentSettles(cx, o, owner, index, expected[0], actual[0]);
      var rest := ArgumentsSettle(cx, o, owner, index + 1, expected[1..], actual[1..]);
      n := Max(first, rest);
    }
  }

  // ---------------------------------------------------------------- enough levels for an arm

  lemma ClassSettles(cx: Ctx, o: Oracle, a: Ty, name: Name, args: seq<Ty>) returns (n: nat)
    ensures forall m: nat :: m >= n ==> AssignObject(m, cx, o, a, Obj(name, args)) == ClassOf(cx, o, a, name, args)
  {
    n := 0;
    var applied := AppliedSupertype(o, a, Obj(name, args));
    if applied.Some? {
      n := ArgumentsSettle(cx, o, Some(name), 0, args, TypeArgs(applied.value));
    }
  }

  lemma ShapeSettles(cx: Ctx, o: Oracle, a: Ty, b: Ty) returns (n: nat)
    ensures forall m: nat :: m >= n ==> AssignShape(m, cx, o, a, b) == ShapeOf(cx, o, a, b)
  {
    n := 0;
    if a.Obj? && b.Fun? {
      n := ClassSettles(cx, o, a, FunctionClass(|b.params|, b.isSuspend), b.params + [b.ret]);
    } else if a.Fun? && b.Fun? {
      if |a.params| == |b.params| {
        var params := PairsSettle(cx, o, b.params, a.params);
        var ret := Settles(cx, o, a.ret, b.ret);
        n := Max(params, ret);
      }
    } else if (a.Obj? || a.Fun?) && b.Obj? {
      n := ClassSettles(cx, o, a, b.name, b.args);
    }
  }

  lemma VariableSettles(cx: Ctx, o: Oracle, a: Ty, b: Ty) returns (n: nat)
    requires a.Variable?
    ensures forall m: nat :: m >= n ==> AssignUpper(m, cx, o, a, b) == VariableOf(cx, o, a, b)
  {
    var bounds := [a.bound] + o.variableBounds(a.symbol);
    assert ShapeAll(bounds, false) == bounds;
    n := Settles(cx, o, UpperOf(cx, o, a), b);
  }

  lemma VariablesSettle(cx: Ctx, o: Oracle, a: Ty, b: Ty) returns (n: nat)
    requires (a.Variable? || b.Variable?) && !SameVariable(a, b)
    ensures forall m: nat :: m >= n ==> AssignVariable(m, cx, o, a, b) == VariablesOf(cx, o, a, b)
  {
    if a.Variable? && (!b.Variable? || a.symbol != b.symbol) {
      n := VariableSettles(cx, o, a, b);
    } else if b.symbol in cx {
      n := Settles(cx, o, a, cx[b.symbol]);
    } else {
      n := 0;
    }
  }

  lemma {:induction a} PlainNonNull(a: Ty)
    requires !a.Nullable? && !a.Platform? && !a.Mutability?
    ensures NonNull(a) == a
  {
  }

  lemma NullableSettles(cx: Ctx, o: Oracle, a: Ty, b: Ty) returns (n: nat)
    requires b.Nullable? && !a.Platform? && !a.Mutability?
    ensures forall m: nat :: m >= n ==> AssignToNullable(m, cx, o, a, b) == NullableOf(cx, o, a, b)
  {
    if a.Nullable? {
      n := Settles(cx, o, a.inner, b);
    } else if a.Variable? {
      n := VariableSettles(cx, o, a, b);
    } else {
      PlainNonNull(a);
      n := Settles(cx, o, a, b.inner);
    }
  }

  lemma FlexibleSettles(cx: Ctx, o: Oracle, a: Ty, b: Ty) returns (n: nat)
    requires Flexing(a) || Flexing(b)
    ensures StandIn(cx, o, a, b).Some?
    ensures forall m: nat :: m >= n ==> AssignFlexible(m, cx, o, a, b) == StandIn(cx, o, a, b).value
  {
    if b.Projection? && b.mode != Raw {
      n := Settles(cx, o, a, b.inner);
    } else if a.Projection? && a.mode != Raw {
      n := Settles(cx, o, a.inner, b);
    } else if b.Platform? {
      n := Settles(cx, o, a, MakeNullable(UpperFace(o, b.inner)));
    } else if a.Platform? {
      var lower := Settles(cx, o, a.inner, b);
      var upper := Settles(cx, o, MakeNullable(a.inner), b);
      n := Max(lower, upper);
    } else if b.Mutability? {
      n := Settles(cx, o, a, o.readOnlyFace(b.inner));
    } else {
      n := Settles(cx, o, a.inner, b);
    }
  }

  lemma CompositeSettles(cx: Ctx, o: Oracle, a: Ty, b: Ty) returns (n: nat)
    requires b.NotNull? || b.Intersection? || a.Intersection?
    ensures forall m: nat :: m >= n ==> AssignComposite(m, cx, o, a, b) == CompositeOf(cx, o, a, b)
  {
    if b.NotNull? {
      var original := Settles(cx, o, a, b.original);
      var any := Settles(cx, o, a, ANY);
      n := Max(original, any);
    } else if b.Intersection? {
      n := EachSettles(cx, o, a, b.parts);
    } else {
      n := SomeSettles(cx, o, a.parts, b);
    }
  }

  /** The upper bound of a definitely non-null variable, as the source joins it. */
  lemma TightenedIs(o: Oracle, v: Ty)
    requires v.Variable?
    ensures var bounds := [v.bound] + o.variableBounds(v.symbol);
      DeclaredUpper(o, v.symbol, v.bound, true) ==
        if |bounds| == 1 then NonNull(bounds[0])
        else MakeIntersection(seq(|bounds|, i requires 0 <= i < |bounds| => NonNull(bounds[i])))
  {
    var bounds := [v.bound] + o.variableBounds(v.symbol);
    assert ShapeAll(bounds, true) == seq(|bounds|, i requires 0 <= i < |bounds| => NonNull(bounds[i]));
  }

  lemma DefiniteSettles(cx: Ctx, o: Oracle, a: Ty, b: Ty) returns (n: nat)
    requires a.NotNull?
    ensures forall m: nat :: m >= n ==> AssignNotNull(m, cx, o, a, b) == DefiniteOf(cx, o, a.original, b)
  {
    var v := a.original;
    n := Settles(cx, o, v, b);
    if v.Variable? {
      TightenedIs(o, v);
      var tight := Settles(cx, o, DeclaredUpper(o, v.symbol, v.bound, true), b);
      n := Max(n, tight);
    }
  }

  // ---------------------------------------------------------------- the relation

  /** Beyond `n` levels the answer is what the arms say. */
  ghost predicate Reached(n: nat, cx: Ctx, o: Oracle, a: Ty, b: Ty)
  {
    forall k: nat {:trigger Assign(k, cx, o, a, b)} :: k > n ==> Assign(k, cx, o, a, b) == ByArm(cx, o, a, b)
  }

  predicate Plain(a: Ty, b: Ty)
  {
    && a != b && !SameVariable(a, b) && !a.NotNull? && !a.Error? && !b.Error? && !a.Nothing?
    && !b.NotNull? && !b.Intersection? && !a.Intersection?
  }

  lemma NullableArms(cx: Ctx, o: Oracle, a: Ty, b: Ty) returns (n: nat)
    requires Plain(a, b) && !Flexing(a) && !Flexing(b) && !a.Null? && b.Nullable?
    ensures Reached(n, cx, o, a, b)
  {
    n := NullableSettles(cx, o, a, b);
    assert ArmOf(a, b) == ByNullable && ByArm(cx, o, a, b) == NullableOf(cx, o, a, b);
  }

  lemma VariableArms(cx: Ctx, o: Oracle, a: Ty, b: Ty) returns (n: nat)
    requires Plain(a, b) && !Flexing(a) && !Flexing(b) && !a.Null? && !b.Nullable? && !a.Nullable?
    requires a.Variable? || b.Variable?
    ensures Reached(n, cx, o, a, b)
  {
    n := VariablesSettle(cx, o, a, b);
    assert ArmOf(a, b) == ByVariable && ByArm(cx, o, a, b) == VariablesOf(cx, o, a, b);
  }

  lemma LateArms(cx: Ctx, o: Oracle, a: Ty, b: Ty) returns (n: nat)
    requires Plain(a, b) && !Flexing(a) && !Flexing(b) && !a.Null? && !b.Nullable?
    requires !a.Nullable? ==> !a.Variable? && !b.Variable?
    ensures Reached(n, cx, o, a, b)
  {
    n := 0;
    if !a.Nullable? {
      n := ShapeSettles(cx, o, a, b);
    }
  }

  lemma FlexibleArms(cx: Ctx, o: Oracle, a: Ty, b: Ty) returns (n: nat)
    requires Plain(a, b) && (Flexing(a) || Flexing(b))
    ensures Reached(n, cx, o, a, b)
  {
    n := FlexibleSettles(cx, o, a, b);
    assert ArmOf(a, b) == ByFlexible;
  }

  lemma CompositeArms(cx: Ctx, o: Oracle, a: Ty, b: Ty) returns (n: nat)
    requires a != b && !SameVariable(a, b) && !a.NotNull? && !a.Error? && !b.Error? && !a.Nothing?
    requires b.NotNull? || b.Intersection? || a.Intersection?
    ensures Reached(n, cx, o, a, b)
  {
    n := CompositeSettles(cx, o, a, b);
    assert ArmOf(a, b) == ByComposite;
  }

  lemma FirstArms(cx: Ctx, o: Oracle, a: Ty, b: Ty) returns (n: nat)
    requires a == b || SameVariable(a, b) || a.NotNull? || a.Error? || b.Error? || a.Nothing?
    ensures Reached(n, cx, o, a, b)
  {
    n := 0;
    if a != b && !SameVariable(a, b) && a.NotNull? {
      n := DefiniteSettles(cx, o, a, b);
      assert ArmOf(a, b) == ByNotNull;
    } else {
      assert ArmOf(a, b) == Always;
    }
  }

  lemma ArmsReached(cx: Ctx, o: Oracle, a: Ty, b: Ty) returns (n: nat)
    ensures Reached(n, cx, o, a, b)
  {
    if a == b || SameVariable(a, b) || a.NotNull? || a.Error? || b.Error? || a.Nothing? {
      n := FirstArms(cx, o, a, b);
    } else if b.NotNull? || b.Intersection? || a.Intersection? {
      n := CompositeArms(cx, o, a, b);
    } else if Flexing(a) || Flexing(b) {
      n := FlexibleArms(cx, o, a, b);
    } else if a.Null? {
      n := 0;
    } else if b.Nullable? {
      n := NullableArms(cx, o, a, b);
    } else if !a.Nullable? && (a.Variable? || b.Variable?) {
      n := VariableArms(cx, o, a, b);
    } else {
      n := LateArms(cx, o, a, b);
    }
  }

  /** Of every two types the relation says what its arms say, in the source's order, whatever they are. */
  lemma OutcomeIs(cx: Ctx, o: Oracle, a: Ty, b: Ty)
    ensures Outcome(cx, o, a, b) == ByArm(cx, o, a, b)
  {
    var reached := ArmsReached(cx, o, a, b);
    var settled := Settles(cx, o, a, b);
    assert Assign(Max(reached, settled) + 1, cx, o, a, b) == ByArm(cx, o, a, b);
  }

  // ---------------------------------------------------------------- Java arrays

  function ArrayOf(element: Ty): Ty { Obj(ArrayClass, [element]) }

  /** One argument against one slot. */
  lemma OneSlot(cx: Ctx, o: Oracle, a: Ty, p: Ty)
    requires o.sameClass(ArrayClass, ArrayClass)
    ensures ClassOf(cx, o, ArrayOf(a), ArrayClass, [p]) == SlotOf(cx, o, Some(ArrayClass), 0, p, a)
  {
    WalkToSelf(o, ArrayOf(a), ArrayOf(p));
    assert [p][1..] == [] && [a][1..] == [];
    assert SlotsOf(cx, o, Some(ArrayClass), 1, [], []) == Yes;
  }

  lemma InvariantArrays(cx: Ctx, o: Oracle, x: Ty, y: Ty)
    requires o.sameClass(ArrayClass, ArrayClass) && o.variance(ArrayClass, 0) == Invariant
    requires !x.Projection? && !y.Projection? && x != y
    ensures Outcome(cx, o, ArrayOf(y), ArrayOf(x)) == SameOf(cx, o, y, x)
  {
    OutcomeIs(cx, o, ArrayOf(y), ArrayOf(x));
    OneSlot(cx, o, y, x);
  }

  lemma ProjectedArrays(cx: Ctx, o: Oracle, x: Ty, y: Ty)
    requires o.sameClass(ArrayClass, ArrayClass) && !x.Projection? && !y.Projection?
    ensures Outcome(cx, o, ArrayOf(y), ArrayOf(Projection(Out, x))) == Outcome(Capture(cx, o, x, y), o, y, x)
  {
    OutcomeIs(cx, o, ArrayOf(y), ArrayOf(Projection(Out, x)));
    OneSlot(cx, o, y, Projection(Out, x));
  }

  /** A Java array accepts arrays of whatever its element accepts, although arrays are invariant: there the
      elements have to be equal. */
  lemma ArraysCovary(cx: Ctx, o: Oracle, x: Ty, y: Ty)
    requires o.sameClass(ArrayClass, ArrayClass) && o.variance(ArrayClass, 0) == Invariant
    requires !x.Projection? && !y.Projection? && x != y && o.readOnlyFace(ArrayOf(x)) == ArrayOf(x)
    ensures Outcome(cx, o, ArrayOf(y), Platform(ArrayOf(x))) == Outcome(Capture(cx, o, x, y), o, y, x)
    ensures Outcome(cx, o, ArrayOf(y), ArrayOf(x)) == SameOf(cx, o, y, x)
  {
    var covariant := ArrayOf(Projection(Out, x));
    assert MakeNullable(UpperFace(o, ArrayOf(x))) == Nullable(covariant);
    OutcomeIs(cx, o, ArrayOf(y), Platform(ArrayOf(x)));
    OutcomeIs(cx, o, ArrayOf(y), Nullable(covariant));
    ProjectedArrays(cx, o, x, y);
    InvariantArrays(cx, o, x, y);
  }
}
