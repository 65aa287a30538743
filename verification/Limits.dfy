/** Where termination and transitivity stop: programs in which a condition of the theorem fails, and the
    law with it. */
module Limits {
  import opened Options
  import opened Types
  import opened Hierarchy
  import opened Flexible
  import opened Assignable
  import opened Termination

  const A: Name := Class(0)
  const B: Name := Class(1)
  const C: Name := Class(2)
  const D: Name := Class(3)

  const AN_A: Ty := Obj(A, [])
  const A_B: Ty := Obj(B, [])

  /** Classes of one declared variance without unified names. */
  function OfVariance(classes: set<Name>, supers: Ty -> seq<Ty>, v: Variance, bounds: Symbol -> seq<Ty>): OracleData
  {
    OracleData(classes, supers, (a, b) => a == b, (_, _) => v, (_, _) => [NULLABLE_ANY], t => t, bounds)
  }

  // ---------------------------------------------------------------- one comparison at a time

  /** A class arm is decided by the arguments of the applied source, or by there being none. */
  lemma ObjectAnswer(n: nat, cx: Ctx, o: Oracle, sub: Ty, sup: Ty)
    requires sub.Obj? && sup.Obj? && sub != sup && !IsAny(sup) && !sup.name.Scalar?
    ensures var applied := AppliedSupertype(o, sub, sup);
      Assign(n + 1, cx, o, sub, sup) ==
        if applied.None? || (sup.args != [] && |sup.args| != |TypeArgs(applied.value)|) then No
        else ArgumentsFit(n, cx, o, Some(sup.name), 0, sup.args, TypeArgs(applied.value))
  {
    assert ArmOf(sub, sup) == ByShape;
    assert AssignShape(n, cx, o, sub, sup) == AssignObject(n, cx, o, sub, sup);
  }

  lemma OneArgument(n: nat, cx: Ctx, o: Oracle, owner: Option<Name>, p: Ty, a: Ty)
    ensures ArgumentsFit(n, cx, o, owner, 0, [p], [a]) == ArgumentFits(n, cx, o, owner, 0, p, a)
  {
    assert [p][1..] == [] && ArgumentsFit(n, cx, o, owner, 1, [], [a][1..]) == Yes;
  }

  /** One argument of the applied source against one of the target. */
  lemma AppliedAnswer(n: nat, cx: Ctx, o: Oracle, sub: Ty, sup: Ty, a: Ty, p: Ty)
    requires sub.Obj? && sup.Obj? && sub != sup && !IsAny(sup) && !sup.name.Scalar? && sup.args == [p]
    requires AppliedSupertype(o, sub, sup).Some? && TypeArgs(AppliedSupertype(o, sub, sup).value) == [a]
    ensures Assign(n + 1, cx, o, sub, sup) == ArgumentFits(n, cx, o, Some(sup.name), 0, p, a)
  {
    ObjectAnswer(n, cx, o, sub, sup);
    OneArgument(n, cx, o, Some(sup.name), p, a);
  }

  /** A class over one argument, compared with itself. */
  lemma UnaryAnswer(n: nat, cx: Ctx, o: Oracle, c: Name, a: Ty, p: Ty)
    requires c.Class? && o.sameClass(c, c) && a != p
    ensures Assign(n + 1, cx, o, Obj(c, [a]), Obj(c, [p])) == ArgumentFits(n, cx, o, Some(c), 0, p, a)
  {
    var sub, sup := Obj(c, [a]), Obj(c, [p]);
    assert sub.args[0] != sup.args[0];
    WalkToSelf(o, sub, sup);
    ObjectAnswer(n, cx, o, sub, sup);
    OneArgument(n, cx, o, Some(c), p, a);
  }

  /** Two class types without a common name and with nothing above the source. */
  lemma UnrelatedAnswer(n: nat, cx: Ctx, o: Oracle, sub: Ty, sup: Ty)
    requires sub.Obj? && sup.Obj? && !IsAny(sup) && !sup.name.Scalar?
    requires o.supers(sub) == [] && !o.sameClass(sub.name, sup.name) && sub != sup
    ensures Assign(n + 1, cx, o, sub, sup) == No
  {
    WalkToNothing(o, sub, sup);
    ObjectAnswer(n, cx, o, sub, sup);
  }

  /** A variable against a class, through what stands above it. */
  lemma VariableAnswer(n: nat, cx: Ctx, o: Oracle, v: Ty, t: Ty)
    requires v.Variable? && t.Obj? && UpperOf(cx, o, v) != v
    ensures Assign(n + 1, cx, o, v, t) == Assign(n, cx, o, UpperOf(cx, o, v), t)
  {
    assert ArmOf(v, t) == ByVariable && AssignVariable(n, cx, o, v, t) == AssignUpper(n, cx, o, v, t);
  }

  lemma TwoPartsAnswer(n: nat, cx: Ctx, o: Oracle, a: Ty, b: Ty, t: Ty)
    requires t.Obj?
    ensures Assign(n + 1, cx, o, Intersection([a, b]), t) == Either(Assign(n, cx, o, a, t), Assign(n, cx, o, b, t))
  {
    assert ArmOf(Intersection([a, b]), t) == ByComposite;
    assert [a, b][1..] == [b] && [b][1..] == [] && AssignSome(n, cx, o, [], t) == No;
    assert AssignSome(n, cx, o, [b], t) == Either(Assign(n, cx, o, b, t), No);
    assert Assign(n + 1, cx, o, Intersection([a, b]), t) == AssignSome(n, cx, o, [a, b], t);
  }

  // ---------------------------------------------------------------- termination: supertypes

  /** `class A : C<C<A>>` with `C` contravariant in its parameter. */
  function Expansive(): Oracle
  {
    OfVariance({C}, t => if t == AN_A then [Obj(C, [Obj(C, [AN_A])])] else [], Contravariant, _ => [])
  }

  /** Without a ranking of supertypes the relation can recurse for ever: asking whether `A` is a `C<A>`
      asks the same question again. */
  lemma {:induction false} ExpansiveNeverAnswers(n: nat, cx: Ctx)
    ensures Assign(n, cx, Expansive(), AN_A, Obj(C, [AN_A])) == Exhausted
  {
    if n > 0 {
      var o, target := Expansive(), Obj(C, [AN_A]);
      WalkOneStep(o, AN_A, target, Obj(C, [target]));
      ExpansiveNeverAnswers(n - 1, cx);
      ObjectAnswer(n - 1, cx, o, AN_A, target);
      OneArgument(n - 1, cx, o, Some(C), AN_A, target);
    }
  }

  // ---------------------------------------------------------------- termination: bounds

  const RECURSIVE: Ty := Variable(false, 0, NULLABLE_ANY)

  /** A variable `T : C<C<T>>`. */
  function RecursiveBound(): Oracle
  {
    OfVariance({}, _ => [], Contravariant, s => if s == 0 then [Obj(C, [Obj(C, [RECURSIVE])])] else [])
  }

  lemma RecursiveUpper(cx: Ctx)
    requires 0 !in cx
    ensures UpperOf(cx, RecursiveBound(), RECURSIVE) == Intersection([ANY, Obj(C, [Obj(C, [RECURSIVE])])])
  {
    var bound := Obj(C, [Obj(C, [RECURSIVE])]);
    assert ShapeAll([NULLABLE_ANY] + [bound], false) == [NULLABLE_ANY, bound];
    TwoParts(NULLABLE_ANY, Piece(ANY, true), bound, Piece(bound, false));
  }

  lemma TwoCores(p: Piece, q: Piece)
    requires p.core != q.core
    ensures Cores([p, q]) == [p.core, q.core]
  {
    assert [p, q][..1] == [p] && [p][..0] == [];
    assert Cores([p]) == [p.core];
  }

  lemma TwoPieces(left: Ty, p: Piece, right: Ty, q: Piece)
    requires Decompose(left, false) == [p] && Decompose(right, false) == [q]
    ensures DecomposeAll([left, right], false) == [p, q]
  {
    assert [left, right][1..] == [right] && [right][1..] == [] && DecomposeAll([], false) == [];
    assert DecomposeAll([right], false) == [q];
  }

  /** Two parts that are one piece each, one of them not nullable. */
  lemma TwoParts(left: Ty, p: Piece, right: Ty, q: Piece)
    requires Decompose(left, false) == [p] && Decompose(right, false) == [q] && p.core != q.core
    requires !(p.nullable && q.nullable) && p.core != Nothing && q.core != Nothing
    ensures MakeIntersection([left, right]) == Intersection([p.core, q.core])
  {
    TwoPieces(left, p, right, q);
    TwoCores(p, q);
    var pieces := DecomposeAll([left, right], false);
    assert pieces[0] in pieces && pieces[1] in pieces;
  }

  lemma RecursiveStep(n: nat, cx: Ctx)
    requires 0 !in cx && Assign(n, cx, RecursiveBound(), RECURSIVE, Obj(C, [RECURSIVE])) == Exhausted
    ensures var parts := [ANY, Obj(C, [Obj(C, [RECURSIVE])])];
      AssignSome(n + 1, cx, RecursiveBound(), parts, Obj(C, [RECURSIVE])) == Exhausted
  {
    var o, target, bound := RecursiveBound(), Obj(C, [RECURSIVE]), Obj(C, [Obj(C, [RECURSIVE])]);
    UnaryAnswer(n, cx, o, C, target, RECURSIVE);
    ContravariantAnswer(n, cx, o, C, RECURSIVE, target);
    UnrelatedAnswer(n, cx, o, ANY, target);
    assert [ANY, bound][1..] == [bound] && AssignSome(n + 1, cx, o, [bound], target) == Exhausted;
  }

  /** Without a ranking of bounds it can as well: a `T` is a `C<T>` if it is. */
  lemma {:induction false} RecursiveBoundNeverAnswers(n: nat, cx: Ctx)
    requires 0 !in cx
    ensures Assign(n, cx, RecursiveBound(), RECURSIVE, Obj(C, [RECURSIVE])) == Exhausted
  {
    if n >= 3 {
      RecursiveBoundNeverAnswers(n - 3, cx);
      RecursiveStep(n - 3, cx);
    }
    if n >= 1 {
      RecursiveBoundLevels(n, cx);
    }
  }

  /** From the variable to the intersection above it takes three levels. */
  lemma RecursiveBoundLevels(n: nat, cx: Ctx)
    requires 0 !in cx && n >= 1
    requires n >= 3 ==>
      AssignSome(n - 2, cx, RecursiveBound(), [ANY, Obj(C, [Obj(C, [RECURSIVE])])], Obj(C, [RECURSIVE])) == Exhausted
    ensures Assign(n, cx, RecursiveBound(), RECURSIVE, Obj(C, [RECURSIVE])) == Exhausted
  {
    var o, target, parts := RecursiveBound(), Obj(C, [RECURSIVE]), [ANY, Obj(C, [Obj(C, [RECURSIVE])])];
    RecursiveUpper(cx);
    assert AssignUpper(n - 1, cx, o, RECURSIVE, target) == Assign(n - 1, cx, o, Intersection(parts), target);
    if n >= 2 {
      assert Assign(n - 1, cx, o, Intersection(parts), target) == AssignSome(n - 2, cx, o, parts, target);
    }
  }

  // ---------------------------------------------------------------- termination: capture

  const LEFT: Ty := Variable(false, 1, NULLABLE_ANY)
  const RIGHT: Ty := Variable(false, 2, NULLABLE_ANY)

  /** Covariant classes with nothing above them. */
  function Containers(): Oracle { OfVariance({}, _ => [], Covariant, _ => []) }

  /** What capture makes of `C<R>, C<L>, R` against `L, R, L`: each variable a `C` of the other. */
  ghost predicate Crossed(cx: Ctx)
  {
    1 in cx && 2 in cx && cx[1] == Obj(C, [RIGHT]) && cx[2] == Obj(C, [LEFT])
  }

  /** Bound crosswise, each variable is below the other if it is. */
  lemma {:induction false} CrossedNeverAnswer(n: nat, cx: Ctx)
    requires Crossed(cx)
    ensures Assign(n, cx, Containers(), LEFT, RIGHT) == Exhausted
    ensures Assign(n, cx, Containers(), RIGHT, LEFT) == Exhausted
  {
    if n >= 3 {
      CrossedNeverAnswer(n - 3, cx);
      CrossedStep(n - 3, cx, LEFT, RIGHT);
      CrossedStep(n - 3, cx, RIGHT, LEFT);
    }
  }

  lemma CrossedStep(n: nat, cx: Ctx, v: Ty, w: Ty)
    requires v.Variable? && w.Variable? && v.symbol != w.symbol && v.symbol in cx && w.symbol in cx
    requires cx[v.symbol] == Obj(C, [w]) && cx[w.symbol] == Obj(C, [v])
    requires Assign(n, cx, Containers(), w, v) == Exhausted
    ensures Assign(n + 3, cx, Containers(), v, w) == Exhausted
  {
    var o := Containers();
    UnaryStep(n, cx, w, v);
    assert AssignVariable(n + 1, cx, o, Obj(C, [w]), w) == Assign(n + 1, cx, o, Obj(C, [w]), Obj(C, [v]));
    assert AssignUpper(n + 2, cx, o, v, w) == Assign(n + 2, cx, o, Obj(C, [w]), w);
  }

  lemma UnaryStep(n: nat, cx: Ctx, a: Ty, p: Ty)
    requires a.Variable? && p.Variable? && a.symbol != p.symbol && Assign(n, cx, Containers(), a, p) == Exhausted
    ensures Assign(n + 1, cx, Containers(), Obj(C, [a]), Obj(C, [p])) == Exhausted
  {
    UnaryAnswer(n, cx, Containers(), C, a, p);
  }

  function Pieces(): Ty { Obj(D, [Obj(C, [RIGHT]), Obj(C, [LEFT]), RIGHT]) }

  function Template(): Ty { Obj(D, [LEFT, RIGHT, LEFT]) }

  lemma CaptureThree(cx: Ctx, o: Oracle, s: Ty, t: Ty, u: Ty, a: Ty, b: Ty, c: Ty)
    ensures CaptureEach(cx, o, [s, t, u], [a, b, c]) == Capture(Capture(Capture(cx, o, s, a), o, t, b), o, u, c)
  {
    var first := Capture(cx, o, s, a);
    var second := Capture(first, o, t, b);
    assert [s, t, u][1..] == [t, u] && [a, b, c][1..] == [b, c] && [t, u][1..] == [u] && [b, c][1..] == [c];
    assert [u][1..] == [] && CaptureEach(second, o, [u], [c]) == Capture(second, o, u, c);
    assert CaptureEach(first, o, [t, u], [b, c]) == CaptureEach(second, o, [u], [c]);
  }

  lemma CaptureCrosses(cx: Ctx)
    requires 1 !in cx && 2 !in cx
    ensures Crossed(Capture(cx, Containers(), Template(), Pieces()))
  {
    var o, l, r := Containers(), Obj(C, [RIGHT]), Obj(C, [LEFT]);
    var first, second := cx[1 := l], cx[1 := l][2 := r];
    WalkToSelf(o, Pieces(), Template());
    CaptureThree(cx, o, LEFT, RIGHT, LEFT, l, r, RIGHT);
    assert Capture(cx, o, LEFT, l) == first && Capture(first, o, RIGHT, r) == second &&
      Capture(second, o, LEFT, RIGHT) == second;
  }

  lemma BoundBelow(n: nat, cx: Ctx, v: Ty)
    requires v.Variable? && v.symbol in cx && cx[v.symbol].Obj?
    ensures Assign(n, cx, Containers(), cx[v.symbol], v) != No
  {
    if n >= 2 {
      assert AssignVariable(n - 1, cx, Containers(), cx[v.symbol], v) == Yes;
    }
  }

  lemma ArgumentStep(
      n: nat, cx: Ctx, o: Oracle, owner: Option<Name>, index: nat, p: Ty, a: Ty, expected: seq<Ty>, actual: seq<Ty>)
    ensures ArgumentsFit(n, cx, o, owner, index, [p] + expected, [a] + actual) ==
      Both(ArgumentFits(n, cx, o, owner, index, p, a), ArgumentsFit(n, cx, o, owner, index + 1, expected, actual))
  {
    assert ([p] + expected)[1..] == expected && ([a] + actual)[1..] == actual;
  }

  lemma PiecesNeverFit(n: nat, cx: Ctx)
    requires Crossed(cx)
    ensures ArgumentsFit(n, cx, Containers(), Some(D), 0, Template().args, Pieces().args) == Exhausted
  {
    var o, l, r := Containers(), Obj(C, [RIGHT]), Obj(C, [LEFT]);
    BoundBelow(n, cx, LEFT);
    BoundBelow(n, cx, RIGHT);
    CrossedNeverAnswer(n, cx);
    ArgumentStep(n, cx, o, Some(D), 0, LEFT, l, [RIGHT, LEFT], [r, RIGHT]);
    ArgumentStep(n, cx, o, Some(D), 1, RIGHT, r, [LEFT], [RIGHT]);
    ArgumentStep(n, cx, o, Some(D), 2, LEFT, RIGHT, [], []);
    assert [LEFT] + [RIGHT, LEFT] == Template().args && [l] + [r, RIGHT] == Pieces().args;
    assert [RIGHT] + [LEFT] == [RIGHT, LEFT] && [r] + [RIGHT] == [r, RIGHT];
    assert [LEFT] + [] == [LEFT] && [RIGHT] + [] == [RIGHT];
  }

  lemma PiecesNeverAnswer(n: nat, cx: Ctx)
    requires Crossed(cx)
    ensures Assign(n, cx, Containers(), Pieces(), Template()) == Exhausted
  {
    if n > 0 {
      WalkToSelf(Containers(), Pieces(), Template());
      ObjectAnswer(n - 1, cx, Containers(), Pieces(), Template());
      PiecesNeverFit(n - 1, cx);
    }
  }

  /** An argument against an `out` projection is compared in the context that capture leaves. */
  lemma OutAnswer(n: nat, cx: Ctx, o: Oracle, c: Name, a: Ty, t: Ty)
    requires c.Class? && o.sameClass(c, c) && !a.Projection?
    ensures Assign(n + 1, cx, o, Obj(c, [a]), Obj(c, [Projection(Out, t)])) == Assign(n, Capture(cx, o, t, a), o, a, t)
  {
    UnaryAnswer(n, cx, o, c, a, Projection(Out, t));
  }

  /** Where both types mention variables that capture binds, the relation can recurse for ever although
      nothing is bound at first, no class has a supertype and no bound leads anywhere. */
  lemma CaptureNeverAnswers(n: nat, cx: Ctx)
    requires 1 !in cx && 2 !in cx
    ensures Assign(n, cx, Containers(), Obj(B, [Pieces()]), Obj(B, [Projection(Out, Template())])) == Exhausted
  {
    if n > 0 {
      CapturedPieces(n - 1, cx, Pieces(), Template());
    }
  }

  lemma CapturedPieces(n: nat, cx: Ctx, pieces: Ty, template: Ty)
    requires 1 !in cx && 2 !in cx && pieces == Pieces() && template == Template()
    ensures Assign(n + 1, cx, Containers(), Obj(B, [pieces]), Obj(B, [Projection(Out, template)])) == Exhausted
  {
    CaptureCrosses(cx);
    PiecesNeverAnswer(n, Capture(cx, Containers(), template, pieces));
    OutAnswer(n, cx, Containers(), B, pieces, template);
  }

  // ---------------------------------------------------------------- transitivity: nominal functions

  const PLAIN: Ty := Fun([], Unit, 0, false, false)
  const SUSPENDING: Ty := Fun([], Unit, 0, false, true)

  /** `class A : () -> Unit`. */
  function Callable(): Oracle
  {
    OfVariance({FunctionClass(0, false)},
      t => if t == AN_A then [Obj(FunctionClass(0, false), [Unit])] else [], Covariant, _ => [])
  }

  lemma CallableAnswer(n: nat, cx: Ctx, o: Oracle, sub: Ty, f: Ty)
    requires sub.Obj? && f.Fun?
    ensures Assign(n + 1, cx, o, sub, f) == AssignObject(n, cx, o, sub, FunctionApplication(f))
  {
    assert ArmOf(sub, f) == ByShape;
  }

  lemma ThunkAnswer(n: nat, cx: Ctx, o: Oracle, f: Ty, g: Ty)
    requires f.Fun? && g.Fun? && f.params == g.params == [] && f.ret == g.ret && f != g && n >= 1
    ensures Assign(n + 1, cx, o, f, g) == Decide(!f.isSuspend || g.isSuspend)
  {
    assert ArmOf(f, g) == ByShape && AssignPairs(n, cx, o, g.params, f.params) == Yes;
    assert Assign(n, cx, o, f.ret, g.ret) == Yes;
  }

  lemma CallableIsPlain(n: nat, cx: Ctx)
    requires n >= 1
    ensures AssignObject(n, cx, Callable(), AN_A, FunctionApplication(PLAIN)) == Yes
  {
    var o, parent := Callable(), Obj(FunctionClass(0, false), [Unit]);
    assert FunctionApplication(PLAIN) == parent;
    WalkOneStep(o, AN_A, parent, parent);
    OneArgument(n, cx, o, Some(parent.name), Unit, Unit);
    assert ArgumentFits(n, cx, o, Some(parent.name), 0, Unit, Unit) == Assign(n, cx, o, Unit, Unit) == Yes;
  }

  lemma CallableDoesNotSuspend(n: nat, cx: Ctx)
    ensures AssignObject(n, cx, Callable(), AN_A, FunctionApplication(SUSPENDING)) == No
  {
    WalkOneStep(Callable(), AN_A, FunctionApplication(SUSPENDING), Obj(FunctionClass(0, false), [Unit]));
  }

  /** Nominal functions break transitivity: an instance of `() -> Unit` is one, that is a
      `suspend () -> Unit`, but the instance is not. */
  lemma NominalFunctionNotTransitive(n: nat, cx: Ctx)
    requires n >= 1
    ensures Assign(n + 1, cx, Callable(), AN_A, PLAIN) == Yes
    ensures Assign(n + 1, cx, Callable(), PLAIN, SUSPENDING) == Yes
    ensures Assign(n + 1, cx, Callable(), AN_A, SUSPENDING) == No
  {
    CallableAnswer(n, cx, Callable(), AN_A, PLAIN);
    CallableAnswer(n, cx, Callable(), AN_A, SUSPENDING);
    CallableIsPlain(n, cx);
    CallableDoesNotSuspend(n, cx);
    ThunkAnswer(n, cx, Callable(), PLAIN, SUSPENDING);
  }

  // ---------------------------------------------------------------- transitivity: coherence

  const OVER_A: Ty := Obj(C, [AN_A])
  const OVER_B: Ty := Obj(C, [A_B])
  const A_D: Ty := Obj(D, [])
  const AN_E: Ty := Obj(Class(4), [])

  /** `class D : C<A>, E` where `class E : C<B>`. */
  function Diamond(): Oracle
  {
    OfVariance({C, Class(4)},
      t => if t == A_D then [OVER_A, AN_E] else if t == AN_E then [OVER_B] else [], Invariant, _ => [])
  }

  lemma NothingNewAboveE(seen: set<Name>)
    requires C in seen
    ensures Admit(Diamond().supers(AN_E), seen).0 == []
  {
    assert Admit([], seen) == ([], seen) && [OVER_B][..0] == [] && Admit([OVER_B], seen).0 == [];
  }

  lemma DiamondWalk(target: Ty)
    requires target == AN_E || target == OVER_B
    ensures AppliedSupertype(Diamond(), A_D, target) == Some(if target == AN_E then AN_E else OVER_A)
  {
    var o, seen := Diamond(), AboveBoth(A_D, OVER_A, AN_E);
    WalkTwoSteps(o, A_D, target, OVER_A, AN_E);
    NothingNewAboveE(seen);
    WalkLast(o, target.name, OVER_A, AN_E, seen);
  }

  lemma DiamondIsE(n: nat, cx: Ctx)
    ensures Assign(n + 1, cx, Diamond(), A_D, AN_E) == Yes
  {
    DiamondWalk(AN_E);
    ObjectAnswer(n, cx, Diamond(), A_D, AN_E);
  }

  lemma OverB(n: nat, cx: Ctx, sub: Ty)
    requires sub == A_D || sub == AN_E
    ensures Assign(n + 1, cx, Diamond(), sub, OVER_B) == if sub == AN_E then Yes else No
  {
    var o := Diamond();
    if sub == AN_E {
      WalkOneStep(o, AN_E, OVER_B, OVER_B);
      AppliedAnswer(n, cx, o, AN_E, OVER_B, A_B, A_B);
    } else {
      DiamondWalk(OVER_B);
      AppliedAnswer(n, cx, o, A_D, OVER_B, AN_A, A_B);
    }
    InvariantAnswers(n, cx, o);
  }

  /** An ancestor applied in two ways breaks transitivity: `D` is an `E`, every `E` is a `C<B>`, but the
      walk from `D` meets `C<A>`. */
  lemma IncoherentNotTransitive(n: nat, cx: Ctx)
    ensures Assign(n + 1, cx, Diamond(), A_D, AN_E) == Yes
    ensures Assign(n + 1, cx, Diamond(), AN_E, OVER_B) == Yes
    ensures Assign(n + 1, cx, Diamond(), A_D, OVER_B) == No
  {
    DiamondIsE(n, cx);
    OverB(n, cx, AN_E);
    OverB(n, cx, A_D);
  }

  lemma InvariantAnswers(m: nat, cx: Ctx, o: Oracle)
    requires o.variance(C, 0) == Invariant
    ensures ArgumentFits(m, cx, o, Some(C), 0, A_B, A_B) == Yes && ArgumentFits(m, cx, o, Some(C), 0, A_B, AN_A) == No
  {
    SameReflexive(o, A_B);
    assert !SameArgument(o, AN_A, A_B);
  }

  // ---------------------------------------------------------------- transitivity: declared variance

  /** `class C<out T> : D<T>` where `D` is contravariant. */
  function Backwards(): Oracle
  {
    OracleData({D}, (t: Ty) => if t.Obj? && t.name == C then [Obj(D, t.args)] else [], (a, b) => a == b,
      (name, _) => if name == D then Contravariant else Covariant, (_, _) => [NULLABLE_ANY], t => t, _ => [])
  }

  /** `C<T>` against `D<Any>` asks whether `Any` is a `T`. */
  lemma BackwardsAnswer(n: nat, cx: Ctx, t: Ty)
    requires !t.Projection?
    ensures Assign(n + 1, cx, Backwards(), Obj(C, [t]), Obj(D, [ANY])) == Assign(n, cx, Backwards(), ANY, t)
  {
    var o, sub, sup := Backwards(), Obj(C, [t]), Obj(D, [ANY]);
    WalkOneStep(o, sub, sup, Obj(D, [t]));
    AppliedAnswer(n, cx, o, sub, sup, t, ANY);
    ContravariantAnswer(n, cx, o, D, ANY, t);
  }

  lemma ContravariantAnswer(n: nat, cx: Ctx, o: Oracle, c: Name, p: Ty, a: Ty)
    requires o.variance(c, 0) == Contravariant && !p.Projection? && !IsRaw(a)
    ensures ArgumentFits(n, cx, o, Some(c), 0, p, a) == Assign(n, cx, o, p, a)
  {
  }

  /** A parameter in a slot its variance forbids breaks transitivity: a `C<A>` is a `C<Any>`, which is a
      `D<Any>`, but a `C<A>` is no `D<Any>`. */
  lemma InvalidVarianceNotTransitive(n: nat, cx: Ctx)
    ensures Assign(n + 2, cx, Backwards(), OVER_A, Obj(C, [ANY])) == Yes
    ensures Assign(n + 2, cx, Backwards(), Obj(C, [ANY]), Obj(D, [ANY])) == Yes
    ensures Assign(n + 2, cx, Backwards(), OVER_A, Obj(D, [ANY])) == No
  {
    var m, o := n + 1, Backwards();
    assert Assign(m, cx, o, AN_A, ANY) == Yes && Assign(m, cx, o, ANY, ANY) == Yes;
    UnaryAnswer(m, cx, o, C, AN_A, ANY);
    BackwardsAnswer(m, cx, ANY);
    BackwardsAnswer(m, cx, AN_A);
    UnrelatedAnswer(n, cx, o, ANY, AN_A);
  }

  // ---------------------------------------------------------------- transitivity: bindings

  const BOUND: Ty := Variable(false, 0, NULLABLE_ANY)

  /** `class C<T> : D<E<T>>`, all invariant. */
  function Wrapping(): Oracle
  {
    OfVariance({D},
      (t: Ty) => if t.Obj? && t.name == C then [Obj(D, [Obj(Class(4), t.args)])] else [], Invariant, _ => [])
  }

  /** `E` of a type. */
  function Wrapped(t: Ty): Ty { Obj(Class(4), [t]) }

  /** A binding breaks transitivity, since only a whole argument is resolved: with `T` bound to `A`, a
      `C<T>` is a `C<A>`, which is a `D<E<A>>`, but a `C<T>` is no `D<E<A>>`. */
  lemma BindingNotTransitive(n: nat, cx: Ctx)
    requires n >= 1 && 0 in cx && cx[0] == AN_A
    ensures Assign(n + 1, cx, Wrapping(), Obj(C, [BOUND]), OVER_A) == Yes
    ensures Assign(n + 1, cx, Wrapping(), OVER_A, Obj(D, [Wrapped(AN_A)])) == Yes
    ensures Assign(n + 1, cx, Wrapping(), Obj(C, [BOUND]), Obj(D, [Wrapped(AN_A)])) == No
  {
    BindingResolved(n, cx);
    WrappedAnswer(n, cx, AN_A);
    WrappedAnswer(n, cx, BOUND);
    NestedDiffer(Wrapping());
  }

  lemma BindingResolved(n: nat, cx: Ctx)
    requires n >= 1 && 0 in cx && cx[0] == AN_A
    ensures Assign(n + 1, cx, Wrapping(), Obj(C, [BOUND]), OVER_A) == Yes
  {
    UnaryAnswer(n, cx, Wrapping(), C, BOUND, AN_A);
    assert Resolve(n, cx, BOUND, BOUND) == Resolve(n - 1, cx, AN_A, BOUND) == Some(AN_A);
    SameReflexive(Wrapping(), AN_A);
  }

  lemma InvariantAnswer(n: nat, cx: Ctx, o: Oracle, c: Name, p: Ty, a: Ty)
    requires o.variance(c, 0) == Invariant && p.Obj? && a.Obj?
    ensures ArgumentFits(n, cx, o, Some(c), 0, p, a) == Decide(SameFlexible(o, a, p))
  {
  }

  lemma WrappedWalk(t: Ty)
    ensures AppliedSupertype(Wrapping(), Obj(C, [t]), Obj(D, [Wrapped(AN_A)])) == Some(Obj(D, [Wrapped(t)]))
  {
    WalkOneStep(Wrapping(), Obj(C, [t]), Obj(D, [Wrapped(AN_A)]), Obj(D, [Wrapped(t)]));
  }

  lemma WrappedAnswer(n: nat, cx: Ctx, t: Ty)
    ensures Assign(n + 1, cx, Wrapping(), Obj(C, [t]), Obj(D, [Wrapped(AN_A)])) ==
      Decide(SameFlexible(Wrapping(), Wrapped(t), Wrapped(AN_A)))
  {
    WrappedWalk(t);
    AppliedAnswer(n, cx, Wrapping(), Obj(C, [t]), Obj(D, [Wrapped(AN_A)]), Wrapped(t), Wrapped(AN_A));
    InvariantAnswer(n, cx, Wrapping(), D, Wrapped(AN_A), Wrapped(t));
  }

  lemma NestedDiffer(o: Oracle)
    ensures SameFlexible(o, Wrapped(AN_A), Wrapped(AN_A)) && !SameFlexible(o, Wrapped(BOUND), Wrapped(AN_A))
  {
    assert AllRegular([]) && [AN_A][1..] == [] && AllRegular([AN_A]);
    SameReflexive(o, Wrapped(AN_A));
    assert !SameFlexible(o, BOUND, AN_A) && !SameAll(o, [BOUND], [AN_A]);
    assert SameArgument(o, Wrapped(BOUND), Wrapped(AN_A)) == SameAll(o, [BOUND], [AN_A]);
  }

  // ---------------------------------------------------------------- transitivity: flexible and definite types

  /** A platform type stands between its faces: `A?` is an `A!`, which is an `A`, but an `A?` is no `A`. */
  lemma PlatformNotTransitive(n: nat, cx: Ctx)
    requires n >= 2
    ensures Assign(n, cx, Containers(), Nullable(AN_A), Platform(AN_A)) == Yes
    ensures Assign(n, cx, Containers(), Platform(AN_A), AN_A) == Yes
    ensures Assign(n, cx, Containers(), Nullable(AN_A), AN_A) == No
  {
    var o := Containers();
    assert UpperFace(o, AN_A) == AN_A;
    assert Assign(n - 1, cx, o, Nullable(AN_A), Nullable(AN_A)) == Yes && Assign(n - 1, cx, o, AN_A, AN_A) == Yes;
  }

  const T: Ty := Variable(false, 0, Nullable(AN_A))
  const S: Ty := Variable(false, 1, Intersection([T, ANY]))

  /** `T & Any` knows a non-null form of its bound that its subtypes do not: with `T : A?` and `S : T & Any`,
      an `S` is a `T & Any`, which is an `A`, but an `S` is no `A`. */
  lemma DefiniteNotTransitive(n: nat, cx: Ctx)
    requires n >= 5 && 0 !in cx && 1 !in cx
    ensures Assign(n, cx, Containers(), S, NotNull(T)) == Yes
    ensures Assign(n, cx, Containers(), NotNull(T), AN_A) == Yes
    ensures Assign(n, cx, Containers(), S, AN_A) == No
  {
    var o := Containers();
    ThroughBound(n - 1, cx, T);
    ThroughBound(n - 1, cx, ANY);
    ThroughBound(n, cx, AN_A);
    assert AssignSome(n - 3, cx, o, [T, ANY], T) == Yes;
    VariableBelow(n - 3, cx, T, ANY);
    assert [T, ANY][1..] == [ANY] && AssignSome(n - 3, cx, o, [ANY], ANY) == Yes;
    VariableBelow(n - 2, cx, T, AN_A);
    UnrelatedAnswer(n - 3, cx, o, ANY, AN_A);
    assert AssignSome(n - 2, cx, o, [ANY], AN_A) == No;
    VariableBelow(n - 1, cx, T, AN_A);
    assert DeclaredUpper(o, 0, Nullable(AN_A), true) == AN_A && Assign(n - 1, cx, o, AN_A, AN_A) == Yes;
  }

  lemma ThroughBound(n: nat, cx: Ctx, t: Ty)
    requires n >= 3 && 1 !in cx && (t.Obj? || t == T)
    ensures Assign(n, cx, Containers(), S, t) == AssignSome(n - 2, cx, Containers(), [T, ANY], t)
  {
    var o, upper := Containers(), Intersection([T, ANY]);
    assert UpperOf(cx, o, S) == upper && ArmOf(S, t) == ByVariable && ArmOf(upper, t) == ByComposite;
    assert Assign(n - 1, cx, o, upper, t) == AssignComposite(n - 2, cx, o, upper, t);
    assert AssignVariable(n - 1, cx, o, S, t) == AssignUpper(n - 1, cx, o, S, t) == Assign(n - 1, cx, o, upper, t);
  }

  lemma VariableBelow(n: nat, cx: Ctx, v: Ty, t: Ty)
    requires v.Variable? && v.symbol !in cx && v.bound.Nullable? && t.Obj?
    requires n >= 2
    ensures Assign(n, cx, Containers(), v, t) == No
  {
    assert UpperOf(cx, Containers(), v) == v.bound;
    assert AssignUpper(n - 1, cx, Containers(), v, t) == Assign(n - 1, cx, Containers(), v.bound, t) == No;
  }

  // ---------------------------------------------------------------- transitivity: projections

  /** Contravariant classes with nothing above them. */
  function Sinks(): Oracle { OfVariance({}, _ => [], Contravariant, _ => []) }

  /** A star in a contravariant slot breaks transitivity: a `C<*>` is a `C<A>`, which is a `C<in A>`, but a
      `C<*>` is no `C<in A>`. */
  lemma StarNotTransitive(n: nat, cx: Ctx)
    requires n >= 4
    ensures var (star, backwards) := (Obj(C, [Projection(Star, NULLABLE_ANY)]), Obj(C, [Projection(In, AN_A)]));
      && Assign(n, cx, Sinks(), star, OVER_A) == Yes
      && Assign(n, cx, Sinks(), OVER_A, backwards) == Yes
      && Assign(n, cx, Sinks(), star, backwards) == No
  {
    var m, o, star, backwards := n - 1, Sinks(), Projection(Star, NULLABLE_ANY), Projection(In, AN_A);
    UnaryAnswer(m, cx, o, C, star, AN_A);
    assert AssignToNullable(m - 2, cx, o, AN_A, NULLABLE_ANY) == Assign(m - 2, cx, o, AN_A, ANY) == Yes;
    assert Assign(m, cx, o, AN_A, star) == Assign(m - 1, cx, o, AN_A, NULLABLE_ANY) == Yes;
    UnaryAnswer(m, cx, o, C, AN_A, backwards);
    assert ProjectionFits(m, cx, o, Some(C), 0, backwards, AN_A) == Assign(m, cx, o, AN_A, AN_A) == Yes;
    UnaryAnswer(m, cx, o, C, star, backwards);
  }
}
