/** Where soundness stops: what the relation answers outside the theorem's conditions, and exactly when
    that answer is an inclusion all the same. */
module SoundnessLimits {
  import opened Options
  import opened Types
  import opened Hierarchy
  import opened Flexible
  import opened Assignable
  import opened Termination
  import opened Meaning
  import opened Limits

  // ---------------------------------------------------------------- comparisons with concrete types

  /** A type that stands for itself: a class, a function, `Unit`, `Nothing`, or a nullable form of one. */
  predicate Concrete(t: Ty)
  {
    match t
    case Unit => true
    case Nothing => true
    case Obj(_, _) => true
    case Fun(_, _, _, _, _) => true
    case Nullable(inner) => Concrete(inner)
    case _ => false
  }

  lemma {:induction false} BelowAny(n: nat, cx: Ctx, o: Oracle, t: Ty)
    requires Concrete(t) && n >= Height(t) + 1
    ensures Assign(n, cx, o, t, NULLABLE_ANY) == Yes
    decreases t
  {
    if t.Nullable? && t != NULLABLE_ANY {
      BelowAny(n - 1, cx, o, t.inner);
      assert AssignToNullable(n - 1, cx, o, t, NULLABLE_ANY) == Assign(n - 1, cx, o, t.inner, NULLABLE_ANY);
    } else if t.Unit? || t.Obj? || t.Fun? {
      assert Assign(n - 1, cx, o, t, ANY) == Yes;
      assert AssignToNullable(n - 1, cx, o, t, NULLABLE_ANY) == Assign(n - 1, cx, o, t, ANY);
    }
  }

  lemma OneDen(I: Interp, c: Name, arg: Ty)
    ensures Den(I, Obj(c, [arg])) == I.cls(c, [DenOfArg(I, arg)])
  {
    assert [arg][1..] == [] && ArgDens(I, []) == [];
    assert ArgDens(I, [arg]) == [DenOfArg(I, arg)];
  }

  /** One argument within another in the slot of a class is inclusion of the classes. */
  lemma OneIncluded(I: Interp, o: Oracle, c: Name, a: Ty, p: Ty)
    requires ClassesVary(I, o) && Contained(I, o, c, 0, DenOfArg(I, a), DenOfArg(I, p))
    ensures Den(I, Obj(c, [a])) <= Den(I, Obj(c, [p]))
  {
    OneDen(I, c, a);
    OneDen(I, c, p);
    var ds, es := [DenOfArg(I, a)], [DenOfArg(I, p)];
    assert forall i :: 0 <= i < |ds| ==> Contained(I, o, c, i, ds[i], es[i]);
    assert I.cls(c, ds) <= I.cls(c, es);
  }

  ghost const ALL: Values := NON_NULL + iset{NullValue}

  /** Everything but class `C` is as given; variables have no values, and parameters may be anything. */
  ghost function Around(ofC: seq<ArgDen> -> Values, others: Name -> Values, functions: Values): Interp
  {
    Interp((name, ds) => if name == C then ofC(ds) else others(name),
      (_, _, _) => functions, (_, _) => iset{}, (_, _) => ALL, functions)
  }

  lemma AnyWhole(I: Interp, cx: Ctx, o: Oracle)
    ensures Whole(I, cx, o, ANY) && Whole(I, cx, o, NULLABLE_ANY)
    ensures Den(I, NULLABLE_ANY) == I.cls(AnyClass, []) + iset{NullValue}
  {
    assert SlotsDenotable(I, cx, o, AnyClass, 0, []) && ArgDens(I, []) == [];
  }

  /** Classes of one variance, with nothing above them and no bounds. */
  function Flat(v: Variance): Oracle { OfVariance({}, _ => [], v, _ => []) }

  /** When class `C` varies as declared, such an interpretation models a program without supertypes. */
  lemma AroundModels(v: Variance, cx: Ctx, ofC: seq<ArgDen> -> Values, others: Name -> Values, functions: Values)
    requires forall s: Symbol :: s !in cx
    requires others(AnyClass) == others(JavaObject) == NON_NULL && functions <= NON_NULL
    requires forall n {:trigger others(n)} :: others(n) <= NON_NULL && (n.FunctionClass? ==> others(n) <= functions)
    requires forall ds {:trigger ofC(ds)} :: ofC(ds) <= ofC([]) && ofC(ds) <= NON_NULL
    requires var I := Around(ofC, others, functions);
      forall ds, es {:trigger ofC(ds), ofC(es)} ::
        |ds| == |es| && (forall i :: 0 <= i < |ds| ==> Contained(I, Flat(v), C, i, ds[i], es[i])) ==> ofC(ds) <= ofC(es)
    ensures Models(Around(ofC, others, functions), cx, Flat(v))
  {
    var I, o := Around(ofC, others, functions), Flat(v);
    forall c, ds, es | |ds| == |es| && (forall i :: 0 <= i < |ds| ==> Contained(I, o, c, i, ds[i], es[i]))
      ensures I.cls(c, ds) <= I.cls(c, es)
    {
      if c == C {
        assert ofC(ds) <= ofC(es);
      }
    }
    AnyWhole(I, cx, o);
    forall c, i: nat, b | b in ReadableBounds(o, Some(c), i) ensures Whole(I, cx, o, b) && I.top(c, i) <= Den(I, b) {
      assert b == NULLABLE_ANY;
    }
  }

  ghost function Just(e: Element): Values { iset{Ref(e)} }

  ghost predicate Empty(d: ArgDen) { (d.Exact? || d.OutDen? || d.InDen?) && d.values == iset{} }

  /** Any head of a concrete type but `Nothing` has a value when every head has one. */
  lemma ConcreteInhabited(I: Interp, t: Ty)
    requires Concrete(t) && t != Nothing
    requires I.unit != iset{} && forall c, ds {:trigger I.cls(c, ds)} :: I.cls(c, ds) != iset{}
    requires forall ps, a, s: bool {:trigger I.function_(ps, a, s)} :: I.function_(ps, a, s) != iset{}
    ensures Den(I, t) != iset{}
  {
    if t.Nullable? {
      assert NullValue in Den(I, t);
    }
  }

  // ---------------------------------------------------------------- a star or `out` in a contravariant slot

  /** In a contravariant slot a star is compared through its readable bound, the wrong way round: it fits
      every concrete argument. */
  lemma StarFitsAnything(n: nat, cx: Ctx, p: Ty)
    requires Concrete(p) && n >= Height(p) + 2
    ensures Assign(n + 1, cx, Flat(Contravariant), Obj(C, [Projection(Star, NULLABLE_ANY)]), Obj(C, [p])) == Yes
  {
    var o, star := Flat(Contravariant), Projection(Star, NULLABLE_ANY);
    UnaryAnswer(n, cx, o, C, star, p);
    BelowAny(n - 1, cx, o, p);
    assert Assign(n, cx, o, p, star) == Yes;
  }

  /** That is an inclusion where the argument has no values: for any class, oracle and model. */
  lemma BackwardsIncluded(I: Interp, cx: Ctx, o: Oracle, c: Name, arg: Ty, p: Ty)
    requires Models(I, cx, o) && o.variance(c, 0) == Contravariant && (IsStar(arg) || IsOut(arg)) && !p.Projection?
    requires Den(I, p) == iset{}
    ensures Den(I, Obj(c, [arg])) <= Den(I, Obj(c, [p]))
  {
    OneIncluded(I, o, c, arg, p);
  }

  /** A `C` that may be asked to take something is only the first; one that takes nothing is anything. */
  ghost function Takers(e: Element): seq<ArgDen> -> Values
  {
    (ds: seq<ArgDen>) =>
      if |ds| == 1 && (ds[0].Exact? || ds[0].InDen?) && ds[0].values != iset{} then Just(e) else NON_NULL
  }

  ghost function Everything(): Name -> Values { _ => NON_NULL }

  ghost function TakersInterp(e: Element): Interp { Around(Takers(e), Everything(), NON_NULL) }

  lemma TakersModel(cx: Ctx, e: Element)
    requires forall s: Symbol :: s !in cx
    ensures Models(TakersInterp(e), cx, Flat(Contravariant))
  {
    var I, o := TakersInterp(e), Flat(Contravariant);
    forall ds, es | |ds| == |es| && (forall i :: 0 <= i < |ds| ==> Contained(I, o, C, i, ds[i], es[i]))
      ensures Takers(e)(ds) <= Takers(e)(es)
    {
      if |ds| == 1 {
        assert Contained(I, o, C, 0, ds[0], es[0]);
      }
    }
    AroundModels(Contravariant, cx, Takers(e), Everything(), NON_NULL);
  }

  /** Every model includes it. */
  ghost predicate AlwaysIncluded(cx: Ctx, o: Oracle, sub: Ty, sup: Ty)
  {
    forall I: Interp :: Models(I, cx, o) ==> Den(I, sub) <= Den(I, sup)
  }

  lemma TakersRefute(arg: Ty, p: Ty, e: Element, f: Element)
    requires (IsStar(arg) || IsOut(arg)) && Concrete(p) && p != Nothing && e != f
    ensures !(Den(TakersInterp(e), Obj(C, [arg])) <= Den(TakersInterp(e), Obj(C, [p])))
  {
    var I := TakersInterp(e);
    assert Ref(e) in Just(e) && Ref(f) in NON_NULL && Ref(f) !in Just(e);
    ConcreteInhabited(I, p);
    OneDen(I, C, arg);
    OneDen(I, C, p);
  }

  /** The answer is an inclusion in every model exactly when the argument is `Nothing`: the guard the
      source places on an `in` target, and leaves out here. */
  lemma ContravariantExactly(cx: Ctx, arg: Ty, p: Ty, e: Element, f: Element)
    requires (forall s: Symbol :: s !in cx) && (IsStar(arg) || IsOut(arg)) && Concrete(p) && e != f
    ensures AlwaysIncluded(cx, Flat(Contravariant), Obj(C, [arg]), Obj(C, [p])) <==> p == Nothing
  {
    var o := Flat(Contravariant);
    if p == Nothing {
      forall I: Interp | Models(I, cx, o) ensures Den(I, Obj(C, [arg])) <= Den(I, Obj(C, [p])) {
        BackwardsIncluded(I, cx, o, C, arg, p);
      }
    } else {
      TakersModel(cx, e);
      TakersRefute(arg, p, e, f);
    }
  }

  // ---------------------------------------------------------------- capture

  const UNBOUND: Ty := Variable(false, 0, NULLABLE_ANY)

  /** A variable under `out` is captured rather than compared: every concrete argument fits that is not
      spelled nullable. */
  lemma CaptureFitsAnything(n: nat, cx: Ctx, a: Ty)
    requires (forall s: Symbol :: s !in cx) && Concrete(a) && n >= 2
    ensures Assign(n + 1, cx, Flat(Invariant), Obj(C, [a]), Obj(C, [Projection(Out, UNBOUND)])) ==
      Decide(!a.Nullable?)
  {
    var o, captured := Flat(Invariant), cx[0 := a];
    OutAnswer(n, cx, o, C, a, UNBOUND);
    assert Capture(cx, o, UNBOUND, a) == captured;
    if !a.Nothing? && !a.Nullable? {
      assert Assign(n - 1, captured, o, a, a) == Yes;
      assert Assign(n, captured, o, a, UNBOUND) == AssignVariable(n - 1, captured, o, a, UNBOUND);
    }
  }

  /** That is an inclusion where the variable has the values of the argument. */
  lemma CapturedIncluded(I: Interp, cx: Ctx, o: Oracle, c: Name, a: Ty, v: Ty)
    requires Models(I, cx, o) && o.variance(c, 0) != Contravariant && !a.Projection? && Den(I, a) <= Den(I, v)
    ensures Den(I, Obj(c, [a])) <= Den(I, Obj(c, [Projection(Out, v)]))
  {
    OneIncluded(I, o, c, a, Projection(Out, v));
  }

  /** A `C` of something is anything, a `C` of nothing only the first. */
  ghost function Boxes(e: Element): seq<ArgDen> -> Values
  {
    (ds: seq<ArgDen>) =>
      if |ds| == 1 && (ds[0].Exact? || ds[0].OutDen?) && ds[0].values == iset{} then Just(e) else NON_NULL
  }

  ghost function BoxesInterp(e: Element): Interp { Around(Boxes(e), Everything(), NON_NULL) }

  lemma BoxesModel(cx: Ctx, e: Element)
    requires forall s: Symbol :: s !in cx
    ensures Models(BoxesInterp(e), cx, Flat(Invariant))
  {
    var I, o := BoxesInterp(e), Flat(Invariant);
    forall ds, es | |ds| == |es| && (forall i :: 0 <= i < |ds| ==> Contained(I, o, C, i, ds[i], es[i]))
      ensures Boxes(e)(ds) <= Boxes(e)(es)
    {
      if |ds| == 1 {
        assert NullValue in I.top(C, 0);
        assert Contained(I, o, C, 0, ds[0], es[0]);
      }
    }
    AroundModels(Invariant, cx, Boxes(e), Everything(), NON_NULL);
  }

  lemma BoxesRefute(a: Ty, e: Element, f: Element)
    requires Concrete(a) && a != Nothing && e != f
    ensures !(Den(BoxesInterp(e), Obj(C, [a])) <= Den(BoxesInterp(e), Obj(C, [Projection(Out, UNBOUND)])))
  {
    var I := BoxesInterp(e);
    assert Ref(e) in Just(e) && Ref(f) in NON_NULL && Ref(f) !in Just(e);
    ConcreteInhabited(I, a);
    OneDen(I, C, a);
    OneDen(I, C, Projection(Out, UNBOUND));
  }

  /** With a variable nothing is known of, the answer is an inclusion in every model exactly when the
      argument is `Nothing`. */
  lemma CaptureExactly(cx: Ctx, a: Ty, e: Element, f: Element)
    requires (forall s: Symbol :: s !in cx) && Concrete(a) && e != f
    ensures AlwaysIncluded(cx, Flat(Invariant), Obj(C, [a]), Obj(C, [Projection(Out, UNBOUND)])) <==> a == Nothing
  {
    var o := Flat(Invariant);
    if a == Nothing {
      forall I: Interp | Models(I, cx, o) ensures Den(I, Obj(C, [a])) <= Den(I, Obj(C, [Projection(Out, UNBOUND)])) {
        CapturedIncluded(I, cx, o, C, a, UNBOUND);
      }
    } else {
      BoxesModel(cx, e);
      BoxesRefute(a, e, f);
    }
  }

  // ---------------------------------------------------------------- an `in` projection in a covariant slot

  /** In a covariant slot an `in` projection is compared through its lower bound. */
  lemma InReadsLowerBound(n: nat, cx: Ctx, lower: Ty, p: Ty)
    requires Concrete(p) && n >= 1
    ensures Assign(n + 1, cx, Flat(Covariant), Obj(C, [Projection(In, lower)]), Obj(C, [p])) ==
      Assign(n - 1, cx, Flat(Covariant), lower, p)
  {
    var o, arg := Flat(Covariant), Projection(In, lower);
    UnaryAnswer(n, cx, o, C, arg, p);
    assert ArgumentFits(n, cx, o, Some(C), 0, p, arg) == Assign(n, cx, o, arg, p);
    assert ArmOf(arg, p) == ByFlexible && Assign(n, cx, o, arg, p) == AssignFlexible(n - 1, cx, o, arg, p);
  }

  /** A nullable form of `Any`. */
  predicate TopType(t: Ty)
  {
    t.Nullable? && (IsAny(t.inner) || TopType(t.inner))
  }

  lemma {:induction t} TopHasAll(I: Interp, cx: Ctx, o: Oracle, t: Ty)
    requires Models(I, cx, o) && TopType(t)
    ensures Den(I, t) == ALL
  {
    if IsAny(t.inner) {
      assert Den(I, t.inner) == I.cls(t.inner.name, ArgDens(I, t.inner.args)) == NON_NULL;
    }
  }

  ghost function Two(e: Element, f: Element): Values { iset{Ref(e), Ref(f)} }

  /** A `C` of something in particular is the first, any other `C` the first or the second. */
  ghost function Producers(e: Element, f: Element): seq<ArgDen> -> Values
  {
    (ds: seq<ArgDen>) =>
      if |ds| == 1 && (ds[0].Exact? || ds[0].OutDen?) && ds[0].values != ALL then Just(e) else Two(e, f)
  }

  /** Instances of everything but `Any` are the first only. */
  ghost function Few(e: Element): Name -> Values
  {
    name => if name == AnyClass || name == JavaObject then NON_NULL else Just(e)
  }

  ghost function ProducersInterp(e: Element, f: Element): Interp { Around(Producers(e, f), Few(e), Just(e)) }

  lemma ProducersModel(cx: Ctx, e: Element, f: Element)
    requires forall s: Symbol :: s !in cx
    ensures Models(ProducersInterp(e, f), cx, Flat(Covariant))
  {
    var I, o := ProducersInterp(e, f), Flat(Covariant);
    forall ds, es | |ds| == |es| && (forall i :: 0 <= i < |ds| ==> Contained(I, o, C, i, ds[i], es[i]))
      ensures Producers(e, f)(ds) <= Producers(e, f)(es)
    {
      if |ds| == 1 {
        assert Contained(I, o, C, 0, ds[0], es[0]);
      }
    }
    AroundModels(Covariant, cx, Producers(e, f), Few(e), Just(e));
  }

  lemma {:induction false} ThirdMissing(t: Ty, e: Element, f: Element, g: Element)
    requires Concrete(t) && !IsAny(t) && !TopType(t) && g != e && g != f
    ensures Ref(g) !in Den(ProducersInterp(e, f), t)
    decreases t
  {
    if t.Nullable? {
      ThirdMissing(t.inner, e, f, g);
    }
  }

  lemma ProducersRefute(lower: Ty, p: Ty, e: Element, f: Element, g: Element)
    requires Concrete(p) && !TopType(p) && e != f && g != e && g != f
    ensures !(Den(ProducersInterp(e, f), Obj(C, [Projection(In, lower)])) <= Den(ProducersInterp(e, f), Obj(C, [p])))
  {
    var I := ProducersInterp(e, f);
    assert Den(I, p) != ALL by {
      assert Ref(g) in ALL && NullValue in ALL;
      if IsAny(p) {
        assert NullValue !in Den(I, p);
      } else {
        ThirdMissing(p, e, f, g);
      }
    }
    OneDen(I, C, Projection(In, lower));
    OneDen(I, C, p);
    assert Ref(f) in Two(e, f) && Ref(f) !in Just(e);
  }

  /** The answer is an inclusion in every model exactly when the argument is a nullable form of `Any`. */
  lemma CovariantInExactly(cx: Ctx, lower: Ty, p: Ty, e: Element, f: Element, g: Element)
    requires (forall s: Symbol :: s !in cx) && Concrete(p) && e != f && g != e && g != f
    ensures AlwaysIncluded(cx, Flat(Covariant), Obj(C, [Projection(In, lower)]), Obj(C, [p])) <==> TopType(p)
  {
    var o := Flat(Covariant);
    if TopType(p) {
      forall I: Interp | Models(I, cx, o) ensures Den(I, Obj(C, [Projection(In, lower)])) <= Den(I, Obj(C, [p])) {
        TopHasAll(I, cx, o, p);
        OneIncluded(I, o, C, Projection(In, lower), p);
      }
    } else {
      ProducersModel(cx, e, f);
      ProducersRefute(lower, p, e, f, g);
    }
  }

  // ---------------------------------------------------------------- bounds that hide a null

  /** Variables that are pieces carry one bound each. */
  ghost predicate OneBoundEach(pieces: seq<Piece>)
  {
    forall p, q :: p in pieces && q in pieces && SameVariable(p.core, q.core) ==> p.core == q.core
  }

  predicate Named(t: Ty, inference: bool, symbol: Symbol)
  {
    t.Variable? && t.inference == inference && t.symbol == symbol
  }

  ghost predicate NullByName(pieces: seq<Piece>, inference: bool, symbol: Symbol)
  {
    exists p :: p in pieces && !p.nullable && Named(p.core, inference, symbol)
  }

  /** Nothing but null, and that where a piece that is not nullable is a variable. */
  ghost function NullsInterp(pieces: seq<Piece>): Interp
  {
    Interp((_, _) => iset{}, (_, _, _) => iset{},
      (inference: bool, symbol: Symbol) => if NullByName(pieces, inference, symbol) then iset{NullValue} else iset{},
      (_, _) => iset{}, iset{})
  }

  /** A core has null there exactly when it stands among the pieces without its `?`. */
  lemma NullsOf(pieces: seq<Piece>, core: Ty)
    requires CoreForm(core) && core.Variable?
    ensures NullValue in Den(NullsInterp(pieces), core) <==> Bare(pieces, core)
  {
    if NullByName(pieces, core.inference, core.symbol) {
      var p :| p in pieces && !p.nullable && Named(p.core, core.inference, core.symbol);
      assert SameVariable(p.core, core);
    }
    if Bare(pieces, core) {
      var p :| p in pieces && !p.nullable && (p.core == core || SameVariable(p.core, core));
      assert Named(p.core, core.inference, core.symbol) && NullByName(pieces, core.inference, core.symbol);
    }
  }

  lemma NullsRefute(parts: seq<Ty>)
    requires parts != [] && AllProper(parts) && OneBoundEach(DecomposeAll(parts, false)) && !KeepsNull(parts)
    ensures var I := NullsInterp(DecomposeAll(parts, false));
      && NullFreeHeads(I) && HonestCores(I, DecomposeAll(parts, false)) && ShareNull(I, parts)
      && NullValue !in Den(I, MakeIntersection(parts))
  {
    var pieces := DecomposeAll(parts, false);
    var I := NullsInterp(pieces);
    DecomposeAllNull(I, parts, false);
    forall p | p in pieces ensures NeverNull(p.core) ==> NullValue !in Den(I, p.core) {
      if p.core.Variable? {
        NullsOf(pieces, p.core);
      }
    }
    forall p | p in pieces ensures InPiece(I, NullValue, p) {
      if !p.nullable {
        assert p.core.Variable? && Bare(pieces, p.core);
        NullsOf(pieces, p.core);
      }
    }
    assert NullInAll(I, pieces);
    IntersectionHasNull(I, parts);
    var q :| q in pieces && q.nullable && !Bare(pieces, q.core);
    if q.core.Variable? { NullsOf(pieces, q.core); }
  }

  /** The guard on bounds is exact: the canonical intersection keeps the null its parts share, whatever
      classes, functions and variables mean, if and only if the parts keep null. */
  lemma NullKeptExactly(parts: seq<Ty>)
    requires parts != [] && AllProper(parts) && OneBoundEach(DecomposeAll(parts, false))
    ensures KeepsNull(parts) <==>
      forall I: Interp :: NullFreeHeads(I) && HonestCores(I, DecomposeAll(parts, false)) && ShareNull(I, parts) ==>
        NullValue in Den(I, MakeIntersection(parts))
  {
    if KeepsNull(parts) {
      forall I: Interp | NullFreeHeads(I) && HonestCores(I, DecomposeAll(parts, false)) && ShareNull(I, parts)
        ensures NullValue in Den(I, MakeIntersection(parts))
      {
        KeptNull(I, parts);
      }
    } else {
      NullsRefute(parts);
    }
  }

  /** A variable that carries the bound `T` and declares `A?` besides. */
  const HIDING: Ty := Variable(false, 1, UNBOUND)

  function TwoBounds(): Oracle
  {
    OfVariance({}, _ => [], Invariant, s => if s == 1 then [Nullable(AN_A)] else [])
  }

  /** Every variable has null and nothing else. */
  ghost function OnlyNull(): Interp
  {
    Interp((_, _) => NON_NULL, (_, _, _) => NON_NULL, (_, _) => iset{NullValue}, (_, _) => ALL, NON_NULL)
  }

  lemma HidingUpper(cx: Ctx)
    requires 1 !in cx
    ensures UpperOf(cx, TwoBounds(), HIDING) == Intersection([UNBOUND, AN_A])
    ensures !KeepsNull([UNBOUND, Nullable(AN_A)])
  {
    var p, q := Piece(UNBOUND, false), Piece(AN_A, true);
    assert ShapeAll([UNBOUND] + [Nullable(AN_A)], false) == [UNBOUND, Nullable(AN_A)];
    TwoParts(UNBOUND, p, Nullable(AN_A), q);
    TwoPieces(UNBOUND, p, Nullable(AN_A), q);
    assert !NeverNull(UNBOUND) && p in [p, q] && q in [p, q] && !Bare([p, q], AN_A);
  }

  lemma TwoBoundsModel(cx: Ctx)
    requires forall s: Symbol :: s !in cx
    ensures Models(OnlyNull(), cx, TwoBounds())
  {
    var I, o := OnlyNull(), TwoBounds();
    AnyWhole(I, cx, o);
    assert SlotsDenotable(I, cx, o, A, 0, []) && ArgDens(I, []) == [] && Whole(I, cx, o, AN_A);
    assert InBound(I, cx, o, 1, Nullable(AN_A));
    forall c, i: nat, b | b in ReadableBounds(o, Some(c), i) ensures Whole(I, cx, o, b) && I.top(c, i) <= Den(I, b) {
      assert b == NULLABLE_ANY;
    }
  }

  lemma HidingAnswers(n: nat, cx: Ctx)
    requires n >= 1 && 0 !in cx && 1 !in cx
    ensures Assign(n + 3, cx, TwoBounds(), HIDING, AN_A) == Yes
  {
    var o := TwoBounds();
    HidingUpper(cx);
    assert UpperOf(cx, o, UNBOUND) == NULLABLE_ANY;
    VariableAnswer(n, cx, o, UNBOUND, AN_A);
    TwoPartsAnswer(n + 1, cx, o, UNBOUND, AN_A, AN_A);
    VariableAnswer(n + 2, cx, o, HIDING, AN_A);
    assert Assign(n, cx, o, NULLABLE_ANY, AN_A) == No && Assign(n + 1, cx, o, AN_A, AN_A) == Yes;
  }

  /** So a type-variable bound hides the null of the bound beside it: the variable is assignable to `A`,
      although both its bounds, and the variable itself, may be null. */
  lemma VariableBoundHidesNull(n: nat, cx: Ctx)
    requires n >= 1 && forall s: Symbol :: s !in cx
    ensures Assign(n + 3, cx, TwoBounds(), HIDING, AN_A) == Yes
    ensures Models(OnlyNull(), cx, TwoBounds()) && !KeepsNull([UNBOUND, Nullable(AN_A)])
    ensures Den(OnlyNull(), HIDING) <= Den(OnlyNull(), UNBOUND)
    ensures Den(OnlyNull(), HIDING) <= Den(OnlyNull(), Nullable(AN_A))
    ensures !(Den(OnlyNull(), HIDING) <= Den(OnlyNull(), AN_A))
  {
    TwoBoundsModel(cx);
    HidingUpper(cx);
    HidingAnswers(n, cx);
    assert NullValue in Den(OnlyNull(), HIDING) && ArgDens(OnlyNull(), []) == [] && NullValue !in Den(OnlyNull(), AN_A);
  }
}
