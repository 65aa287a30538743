/** A weight that falls at every recursive comparison, so the relation terminates wherever symbols,
    bindings and class parameters expand along a ranking, also while capture binds variables. */
module Termination {
  import opened Options
  import opened Types
  import opened Hierarchy
  import opened Flexible
  import opened Assignable

  /** How much deeper than its spelling a symbol or a classifier may expand; 0 where not listed. */
  datatype Ranks = Ranks(symbols: map<Symbol, nat>, classes: map<Name, nat>)
  {
    function Of(s: Symbol): nat { if s in symbols then symbols[s] else 0 }

    function OfClass(n: Name): nat { if n in classes then classes[n] else 0 }
  }

  /** The weight. A variable outweighs the intersection of its bounds and its binding, a definitely
      non-null type outweighs its original, a platform type outweighs its nullable upper face. */
  function Depth(r: Ranks, t: Ty): (d: nat)
    ensures d >= 1
    decreases t, 0
  {
    match t
    case Obj(name, args) => 1 + Max(r.OfClass(name), MaxDepth(r, args))
    case Fun(params, ret, _, _, _) => 1 + Max(MaxDepth(r, params), Depth(r, ret))
    case Nullable(inner) => 1 + Depth(r, inner)
    case Platform(inner) => 3 + Depth(r, inner)
    case Mutability(inner) => 1 + Depth(r, inner)
    case Projection(_, inner) => 1 + Depth(r, inner)
    case Variable(_, symbol, bound) => 3 + Max(r.Of(symbol), Depth(r, bound))
    case NotNull(original) => 1 + Depth(r, original)
    case Intersection(parts) => 1 + MaxDepth(r, parts)
    case _ => 1
  }

  function MaxDepth(r: Ranks, ts: seq<Ty>): nat
    decreases ts, 1
  {
    if ts == [] then 0 else Max(Depth(r, ts[0]), MaxDepth(r, ts[1..]))
  }

  lemma {:induction ts} MemberDepth(r: Ranks, ts: seq<Ty>)
    ensures forall t <- ts :: Depth(r, t) <= MaxDepth(r, ts)
  {
  }

  // ---------------------------------------------------------------- the part of a program in view

  /** The classifiers and variables a comparison may meet, whether projections and flexible types are
      among its types, the variables bound from the start and those that capture may bind. What
      capture binds is no deeper than `cap`. */
  datatype Scope = Scope(
    bound: set<Symbol>,
    capturable: set<Symbol>,
    symbols: iset<Symbol>,
    classes: iset<Name>,
    flexible: bool,
    cap: nat)
  {
    function Known(): set<Symbol> { bound + capturable }
  }

  /** Every variable that capture could bind in `t` is one of `known`. */
  predicate Closed(known: set<Symbol>, t: Ty)
    decreases t, 0
  {
    match t
    case Variable(_, symbol, _) => symbol in known
    case Obj(_, args) => AllClosed(known, args)
    case Fun(params, ret, _, _, _) => AllClosed(known, params) && Closed(known, ret)
    case Nullable(inner) => Closed(known, inner)
    case Platform(inner) => Closed(known, inner)
    case Mutability(inner) => Closed(known, inner)
    case Projection(_, inner) => Closed(known, inner)
    case NotNull(original) => Closed(known, original)
    case Intersection(parts) => AllClosed(known, parts)
    case _ => true
  }

  predicate AllClosed(known: set<Symbol>, ts: seq<Ty>)
    decreases ts, 1
  {
    ts == [] || (Closed(known, ts[0]) && AllClosed(known, ts[1..]))
  }

  /** No symbol of `hidden` is mentioned in `t`, not even in the bound of a variable. */
  predicate Without(hidden: set<Symbol>, t: Ty)
    decreases t, 0
  {
    match t
    case Variable(_, symbol, bound) => symbol !in hidden && Without(hidden, bound)
    case Obj(_, args) => AllWithout(hidden, args)
    case Fun(params, ret, _, _, _) => AllWithout(hidden, params) && Without(hidden, ret)
    case Nullable(inner) => Without(hidden, inner)
    case Platform(inner) => Without(hidden, inner)
    case Mutability(inner) => Without(hidden, inner)
    case Projection(_, inner) => Without(hidden, inner)
    case NotNull(original) => Without(hidden, original)
    case Intersection(parts) => AllWithout(hidden, parts)
    case _ => true
  }

  predicate AllWithout(hidden: set<Symbol>, ts: seq<Ty>)
    decreases ts, 1
  {
    ts == [] || (Without(hidden, ts[0]) && AllWithout(hidden, ts[1..]))
  }

  /** A type does not feel the ranks of symbols it does not mention. */
  lemma {:induction false} DepthWithout(hidden: set<Symbol>, r: Ranks, q: Ranks, t: Ty)
    requires r.classes == q.classes && forall s: Symbol :: s !in hidden ==> r.Of(s) == q.Of(s)
    requires Without(hidden, t)
    ensures Depth(r, t) == Depth(q, t)
    decreases t, 0
  {
    match t
    case Variable(_, _, bound) => DepthWithout(hidden, r, q, bound);
    case Obj(_, args) => MaxDepthWithout(hidden, r, q, args);
    case Fun(params, ret, _, _, _) => MaxDepthWithout(hidden, r, q, params); DepthWithout(hidden, r, q, ret);
    case Nullable(inner) => DepthWithout(hidden, r, q, inner);
    case Platform(inner) => DepthWithout(hidden, r, q, inner);
    case Mutability(inner) => DepthWithout(hidden, r, q, inner);
    case Projection(_, inner) => DepthWithout(hidden, r, q, inner);
    case NotNull(original) => DepthWithout(hidden, r, q, original);
    case Intersection(parts) => MaxDepthWithout(hidden, r, q, parts);
    case _ =>
  }

  lemma {:induction false} MaxDepthWithout(hidden: set<Symbol>, r: Ranks, q: Ranks, ts: seq<Ty>)
    requires r.classes == q.classes && forall s: Symbol :: s !in hidden ==> r.Of(s) == q.Of(s)
    requires AllWithout(hidden, ts)
    ensures MaxDepth(r, ts) == MaxDepth(q, ts)
    decreases ts, 1
  {
    if ts != [] {
      DepthWithout(hidden, r, q, ts[0]);
      MaxDepthWithout(hidden, r, q, ts[1..]);
    }
  }

  /** `t` lies in the scope, and no `out` projection in it, nor one a platform array widens to, has a
      variable the scope does not know. */
  ghost predicate Tame(w: Scope, t: Ty)
    decreases t, 0
  {
    match t
    case Variable(_, symbol, bound) => symbol in w.symbols && Tame(w, bound)
    case Obj(name, args) => name in w.classes && AllTame(w, args)
    case Fun(params, ret, _, _, s) => FunctionClass(|params|, s) in w.classes && AllTame(w, params) && Tame(w, ret)
    case Nullable(inner) => Tame(w, inner)
    case Platform(inner) => w.flexible && Tame(w, inner) && Closed(w.Known(), inner)
    case Mutability(inner) => w.flexible && Tame(w, inner)
    case Projection(mode, inner) => w.flexible && Tame(w, inner) && (mode == Out ==> Closed(w.Known(), inner))
    case NotNull(original) => Tame(w, original)
    case Intersection(parts) => AllTame(w, parts)
    case _ => true
  }

  ghost predicate AllTame(w: Scope, ts: seq<Ty>)
    decreases ts, 1
  {
    ts == [] || (Tame(w, ts[0]) && AllTame(w, ts[1..]))
  }

  /** Fit to be compared: in the scope, no deeper than `limit`, and on demand `free` of variables that
      capture may bind. */
  ghost predicate Fit(w: Scope, r: Ranks, t: Ty, limit: nat, free: bool)
  {
    Tame(w, t) && Depth(r, t) <= limit && (free ==> Without(w.capturable, t))
  }

  ghost predicate AllFit(w: Scope, r: Ranks, ts: seq<Ty>, limit: nat, free: bool)
  {
    forall t <- ts :: Fit(w, r, t, limit, free)
  }

  // ---------------------------------------------------------------- ranked hierarchies

  /** A bound of a variable: what capture may bind is bounded freely. */
  ghost predicate BoundFit(w: Scope, r: Ranks, s: Symbol, b: Ty)
  {
    Fit(w, r, b, r.Of(s), false) && (s in w.capturable || Without(w.capturable, b))
  }

  ghost predicate BoundsFit(w: Scope, o: Oracle, r: Ranks)
  {
    forall s, b <- o.variableBounds(s) :: s in w.symbols ==> BoundFit(w, r, s, b)
  }

  /** The class of `t` and its arguments expand no deeper than `limit`. */
  ghost predicate Spread(w: Scope, r: Ranks, t: Ty, limit: nat, free: bool)
  {
    && Tame(w, t) && (free ==> Without(w.capturable, t))
    && MaxDepth(r, TypeArgs(t)) <= limit
    && (ClassName(t).Some? ==> r.OfClass(ClassName(t).value) <= limit)
  }

  /** Arguments of a supertype are no deeper than the subtype. Templates over a class's own
      parameters give this, and so does `class C : K<C>`. */
  ghost predicate SupersFit(w: Scope, o: Oracle, r: Ranks)
  {
    forall from, to {:trigger Reaches(o, from, to)} ::
      Tame(w, from) && Reaches(o, from, to) ==> Spread(w, r, to, Depth(r, from), Without(w.capturable, from))
  }

  ghost predicate FaceFit(w: Scope, r: Ranks, t: Ty, face: Ty)
  {
    Fit(w, r, face, Depth(r, t), Without(w.capturable, t)) && (Closed(w.Known(), t) ==> Closed(w.Known(), face))
  }

  ghost predicate FacesFit(w: Scope, o: Oracle, r: Ranks)
  {
    w.flexible ==> forall t {:trigger o.readOnlyFace(t)} :: Tame(w, t) ==> FaceFit(w, r, t, o.readOnlyFace(t))
  }

  ghost predicate ParametersFit(w: Scope, o: Oracle, r: Ranks)
  {
    w.flexible ==> forall c, i: nat, b <- o.upperBounds(c, i) :: c in w.classes ==>
      Fit(w, r, b, Max(2, r.OfClass(c)), true)
  }

  ghost predicate NamesRanked(w: Scope, o: Oracle, r: Ranks)
  {
    && (forall a, b :: o.sameClass(a, b) && a in w.classes && b in w.classes ==> r.OfClass(a) == r.OfClass(b))
    && AnyClass in w.classes && r.OfClass(AnyClass) == 0
    && (forall arity: nat, isSuspend :: r.OfClass(FunctionClass(arity, isSuspend)) == 0)
    && w.cap >= 2 && (forall s <- w.capturable :: r.Of(s) >= w.cap)
  }

  /** What the oracle answers within the scope expands downwards in the ranking and brings no
      variable to capture with it. */
  ghost predicate World(w: Scope, o: Oracle, r: Ranks)
  {
    BoundsFit(w, o, r) && SupersFit(w, o, r) && FacesFit(w, o, r) && ParametersFit(w, o, r) && NamesRanked(w, o, r)
  }

  /** Bindings expand downwards, and mention no variable that capture may bind. */
  ghost predicate Bindings(w: Scope, r: Ranks, cx: Ctx)
  {
    w.bound <= cx.Keys && forall s <- cx :: Fit(w, r, cx[s], r.Of(s), true)
  }

  /** Supertypes no deeper than their subtypes, step by step, are enough. */
  lemma StepsFit(w: Scope, o: Oracle, r: Ranks)
    requires forall t, s <- o.supers(t) :: Tame(w, t) ==> Fit(w, r, s, Depth(r, t), Without(w.capturable, t))
    ensures SupersFit(w, o, r)
  {
    forall from, to | Tame(w, from) && Reaches(o, from, to)
      ensures Spread(w, r, to, Depth(r, from), Without(w.capturable, from))
    {
      var steps: nat :| ReachesIn(o, steps, from, to);
      StepsDown(w, o, r, steps, from, to);
      SpreadWithin(w, r, to);
    }
  }

  lemma {:induction false} StepsDown(w: Scope, o: Oracle, r: Ranks, steps: nat, from: Ty, to: Ty)
    requires forall t, s <- o.supers(t) :: Tame(w, t) ==> Fit(w, r, s, Depth(r, t), Without(w.capturable, t))
    requires Tame(w, from) && ReachesIn(o, steps, from, to)
    ensures Fit(w, r, to, Depth(r, from), Without(w.capturable, from))
  {
    if steps > 0 {
      var mid :| ReachesIn(o, steps - 1, from, mid) && Step(o, mid, to);
      StepsDown(w, o, r, steps - 1, from, mid);
    }
  }

  lemma {:induction t} SpreadWithin(w: Scope, r: Ranks, t: Ty)
    ensures MaxDepth(r, TypeArgs(t)) < Depth(r, t)
    ensures ClassName(t).Some? ==> r.OfClass(ClassName(t).value) < Depth(r, t)
  {
  }

  // ---------------------------------------------------------------- capture

  lemma {:induction false} CaptureInert(cx: Ctx, o: Oracle, template: Ty, actual: Ty)
    requires Closed(cx.Keys, template)
    ensures Capture(cx, o, template, actual) == cx
    decreases template, 0
  {
    match template
    case Obj(_, args) =>
      var applied := AppliedSupertype(o, actual, template);
      if applied.Some? { CaptureEachInert(cx, o, args, TypeArgs(applied.value)); }
    case Fun(params, ret, _, _, _) =>
      var function_ := Unprojected(actual);
      if function_.Fun? {
        CaptureEachInert(cx, o, params, function_.params);
        CaptureInert(cx, o, ret, function_.ret);
      }
    case NotNull(original) => CaptureInert(cx, o, original, NonNull(Unprojected(actual)));
    case Nullable(inner) => CaptureInert(cx, o, inner, NonNull(Unprojected(actual)));
    case Platform(inner) => CaptureInert(cx, o, inner, NonNull(Unprojected(actual)));
    case Mutability(inner) => CaptureInert(cx, o, inner, NonNull(Unprojected(actual)));
    case Projection(_, inner) => CaptureInert(cx, o, inner, NonNull(Unprojected(actual)));
    case Intersection(parts) => CapturePartsInert(cx, o, parts, actual);
    case _ =>
  }

  lemma {:induction false} CaptureEachInert(cx: Ctx, o: Oracle, templates: seq<Ty>, actuals: seq<Ty>)
    requires AllClosed(cx.Keys, templates)
    ensures CaptureEach(cx, o, templates, actuals) == cx
    decreases templates, 1
  {
    if templates != [] && actuals != [] {
      CaptureInert(cx, o, templates[0], actuals[0]);
      CaptureEachInert(cx, o, templates[1..], actuals[1..]);
    }
  }

  lemma {:induction false} CapturePartsInert(cx: Ctx, o: Oracle, parts: seq<Ty>, actual: Ty)
    requires AllClosed(cx.Keys, parts)
    ensures CaptureParts(cx, o, parts, actual) == cx
    decreases parts, 1
  {
    if parts != [] {
      CaptureInert(cx, o, parts[0], actual);
      CapturePartsInert(cx, o, parts[1..], actual);
    }
  }

  /** A template that mentions nothing capturable is closed under the variables bound from the start. */
  lemma {:induction false} ClosedWithout(w: Scope, known: set<Symbol>, t: Ty)
    requires Closed(w.Known(), t) && Without(w.capturable, t) && w.bound <= known
    ensures Closed(known, t)
    decreases t, 0
  {
    match t
    case Obj(_, args) => AllClosedWithout(w, known, args);
    case Fun(params, ret, _, _, _) => AllClosedWithout(w, known, params); ClosedWithout(w, known, ret);
    case Nullable(inner) => ClosedWithout(w, known, inner);
    case Platform(inner) => ClosedWithout(w, known, inner);
    case Mutability(inner) => ClosedWithout(w, known, inner);
    case Projection(_, inner) => ClosedWithout(w, known, inner);
    case NotNull(original) => ClosedWithout(w, known, original);
    case Intersection(parts) => AllClosedWithout(w, known, parts);
    case _ =>
  }

  lemma {:induction false} AllClosedWithout(w: Scope, known: set<Symbol>, ts: seq<Ty>)
    requires AllClosed(w.Known(), ts) && AllWithout(w.capturable, ts) && w.bound <= known
    ensures AllClosed(known, ts)
    decreases ts, 1
  {
    if ts != [] {
      ClosedWithout(w, known, ts[0]);
      AllClosedWithout(w, known, ts[1..]);
    }
  }

  // ---------------------------------------------------------------- what one level may be compared

  lemma {:induction false} FitSeq(w: Scope, r: Ranks, ts: seq<Ty>, limit: nat, free: bool)
    ensures AllTame(w, ts) && MaxDepth(r, ts) <= limit && (free ==> AllWithout(w.capturable, ts))
      <==> AllFit(w, r, ts, limit, free)
  {
    if ts != [] {
      FitSeq(w, r, ts[1..], limit, free);
      assert forall t :: t in ts <==> t == ts[0] || t in ts[1..];
      assert AllFit(w, r, ts, limit, free) <==> Fit(w, r, ts[0], limit, free) && AllFit(w, r, ts[1..], limit, free);
    }
  }

  lemma {:induction t} TypeArgsTame(w: Scope, t: Ty)
    requires Tame(w, t)
    ensures AllTame(w, TypeArgs(t)) && (Without(w.capturable, t) ==> AllWithout(w.capturable, TypeArgs(t)))
    ensures ClassName(t).Some? ==> ClassName(t).value in w.classes
  {
  }

  lemma SpreadArgs(w: Scope, r: Ranks, t: Ty, limit: nat, free: bool)
    requires Spread(w, r, t, limit, free)
    ensures AllFit(w, r, TypeArgs(t), limit, free)
  {
    TypeArgsTame(w, t);
    FitSeq(w, r, TypeArgs(t), limit, free);
  }

  lemma MakeNullableFit(w: Scope, r: Ranks, t: Ty, limit: nat, free: bool)
    requires Fit(w, r, t, limit, free)
    ensures Fit(w, r, MakeNullable(t), limit + 1, free)
  {
  }

  lemma NonNullFit(w: Scope, r: Ranks, t: Ty, limit: nat, free: bool)
    requires Fit(w, r, t, limit, free)
    ensures Fit(w, r, NonNull(t), limit, free)
  {
  }

  lemma PlatformShapeFit(w: Scope, r: Ranks, face: Ty, limit: nat, free: bool)
    requires w.flexible && Fit(w, r, face, limit, free) && Closed(w.Known(), face)
    ensures Fit(w, r, PlatformShape(face), limit + 1, free)
  {
    if PlatformShape(face) != face {
      var element := face.args[0];
      FitSeq(w, r, face.args, limit - 1, free);
      assert Fit(w, r, element, limit - 1, free) && AllClosed(w.Known(), face.args);
      var projected := [Projection(Out, element)];
      assert Fit(w, r, projected[0], limit, free);
      FitSeq(w, r, projected, limit, free);
    }
  }

  lemma UpperFaceFit(w: Scope, o: Oracle, r: Ranks, inner: Ty, free: bool)
    requires World(w, o, r) && w.flexible && Tame(w, inner) && Closed(w.Known(), inner)
    requires free ==> Without(w.capturable, inner)
    ensures Fit(w, r, UpperFace(o, inner), Depth(r, inner) + 1, free)
  {
    assert FaceFit(w, r, inner, o.readOnlyFace(inner));
    PlatformShapeFit(w, r, o.readOnlyFace(inner), Depth(r, inner), free);
  }

  ghost predicate PieceFit(w: Scope, r: Ranks, p: Piece, limit: nat, free: bool)
  {
    Fit(w, r, p.core, limit, free)
  }

  lemma {:induction false} DecomposeFit(w: Scope, r: Ranks, t: Ty, inherited: bool, limit: nat, free: bool)
    requires Fit(w, r, t, limit, free)
    ensures forall p <- Decompose(t, inherited) :: PieceFit(w, r, p, limit, free)
    decreases t, 0
  {
    match t
    case Nullable(inner) => DecomposeFit(w, r, inner, true, limit, free);
    case Platform(inner) => DecomposeFit(w, r, inner, true, limit, free);
    case Mutability(inner) => DecomposeFit(w, r, inner, inherited, limit, free);
    case Intersection(parts) => DecomposeAllFit(w, r, parts, inherited, limit, free);
    case _ =>
  }

  lemma {:induction false} DecomposeAllFit(w: Scope, r: Ranks, parts: seq<Ty>, inherited: bool, limit: nat, free: bool)
    requires AllTame(w, parts) && MaxDepth(r, parts) <= limit && (free ==> AllWithout(w.capturable, parts))
    ensures forall p <- DecomposeAll(parts, inherited) :: PieceFit(w, r, p, limit, free)
    decreases parts, 1
  {
    if parts != [] {
      DecomposeFit(w, r, parts[0], inherited, limit, free);
      DecomposeAllFit(w, r, parts[1..], inherited, limit, free);
    }
  }

  lemma CoresFit(w: Scope, r: Ranks, parts: seq<Ty>, limit: nat, free: bool)
    requires AllFit(w, r, parts, limit, free)
    ensures AllFit(w, r, Cores(DecomposeAll(parts, false)), limit, free)
  {
    FitSeq(w, r, parts, limit, free);
    DecomposeAllFit(w, r, parts, false, limit, free);
    var pieces := DecomposeAll(parts, false);
    forall c | c in Cores(pieces) ensures Fit(w, r, c, limit, free) {
      var p :| p in pieces && p.core == c;
      assert PieceFit(w, r, p, limit, free);
    }
  }

  lemma JoinedFit(w: Scope, r: Ranks, cores: seq<Ty>, limit: nat, free: bool)
    requires AllFit(w, r, cores, limit, free) && cores != []
    ensures Fit(w, r, if |cores| == 1 then cores[0] else Intersection(cores), limit + 1, free)
  {
    FitSeq(w, r, cores, limit, free);
    assert Fit(w, r, cores[0], limit, free);
  }

  lemma MakeIntersectionFit(w: Scope, r: Ranks, parts: seq<Ty>, limit: nat, free: bool)
    requires AllFit(w, r, parts, limit, free) && limit >= 1
    ensures Fit(w, r, MakeIntersection(parts), limit + 2, free)
  {
    CoresFit(w, r, parts, limit, free);
    var pieces := DecomposeAll(parts, false);
    var cores := Cores(pieces);
    if pieces != [] {
      assert pieces[0].core in cores;
      JoinedFit(w, r, cores, limit, free);
      MakeNullableFit(w, r, if |cores| == 1 then cores[0] else Intersection(cores), limit + 1, free);
    }
  }

  lemma DeclaredUpperFit(w: Scope, o: Oracle, r: Ranks, v: Ty, tighten: bool, free: bool)
    requires World(w, o, r) && v.Variable? && Fit(w, r, v, Depth(r, v), free)
    ensures Fit(w, r, DeclaredUpper(o, v.symbol, v.bound, tighten), Depth(r, v) - 1, free)
  {
    var limit := Max(r.Of(v.symbol), Depth(r, v.bound));
    NonNullFit(w, r, v.bound, limit, free);
    var declared := o.variableBounds(v.symbol);
    if declared != [] {
      var shaped := ShapeAll([v.bound] + declared, tighten);
      forall t | t in shaped ensures Fit(w, r, t, limit, free) {
        var i :| 0 <= i < |shaped| && t == shaped[i];
        var b := ([v.bound] + declared)[i];
        assert i > 0 ==> b in declared && BoundFit(w, r, v.symbol, b);
        NonNullFit(w, r, b, limit, free);
      }
      MakeIntersectionFit(w, r, shaped, limit, free);
    }
  }

  lemma UpperFit(w: Scope, cx: Ctx, o: Oracle, r: Ranks, v: Ty, free: bool)
    requires World(w, o, r) && Bindings(w, r, cx) && v.Variable? && Fit(w, r, v, Depth(r, v), free)
    ensures Fit(w, r, UpperOf(cx, o, v), Depth(r, v) - 1, free)
  {
    DeclaredUpperFit(w, o, r, v, false, free);
  }

  /** What the walk answers has arguments no deeper than the type it started from. */
  lemma AppliedFit(w: Scope, o: Oracle, r: Ranks, sub: Ty, sup: Ty, limit: nat, free: bool)
    requires World(w, o, r) && Fit(w, r, sub, limit, free) && AppliedSupertype(o, sub, sup).Some?
    ensures Spread(w, r, AppliedSupertype(o, sub, sup).value, limit, free)
    ensures AllFit(w, r, TypeArgs(AppliedSupertype(o, sub, sup).value), limit, free)
  {
    WorklistOnPath(o, sub, sup);
    SpreadArgs(w, r, AppliedSupertype(o, sub, sup).value, limit, free);
  }

  // ---------------------------------------------------------------- capturing

  /** Capture keeps the bindings in order while it takes pieces of a type no deeper than `cap` that
      mentions nothing capturable. */
  lemma {:induction false} CaptureFits(w: Scope, o: Oracle, r: Ranks, cx: Ctx, template: Ty, actual: Ty)
    requires World(w, o, r) && Bindings(w, r, cx) && Closed(w.Known(), template) && Fit(w, r, actual, w.cap, true)
    ensures Bindings(w, r, Capture(cx, o, template, actual))
    decreases template, 1
  {
    match template
    case Variable(_, _, _) => CaptureVariableFits(w, o, r, cx, template, actual);
    case Obj(_, args) =>
      var applied := AppliedSupertype(o, actual, template);
      if applied.Some? {
        AppliedFit(w, o, r, actual, template, w.cap, true);
        CaptureEachFits(w, o, r, cx, args, TypeArgs(applied.value));
      }
    case Fun(_, _, _, _, _) => CaptureFunctionFits(w, o, r, cx, template, actual);
    case NotNull(original) => CaptureInnerFits(w, o, r, cx, original, actual);
    case Nullable(inner) => CaptureInnerFits(w, o, r, cx, inner, actual);
    case Platform(inner) => CaptureInnerFits(w, o, r, cx, inner, actual);
    case Mutability(inner) => CaptureInnerFits(w, o, r, cx, inner, actual);
    case Projection(_, inner) => CaptureInnerFits(w, o, r, cx, inner, actual);
    case Intersection(parts) => CapturePartsFits(w, o, r, cx, parts, actual);
    case _ =>
  }

  lemma CaptureVariableFits(w: Scope, o: Oracle, r: Ranks, cx: Ctx, v: Ty, actual: Ty)
    requires NamesRanked(w, o, r) && Bindings(w, r, cx) && v.Variable? && v.symbol in w.Known()
    requires Fit(w, r, actual, w.cap, true)
    ensures Bindings(w, r, Capture(cx, o, v, actual))
  {
    var captured := Capture(cx, o, v, actual);
    forall s | s in captured ensures Fit(w, r, captured[s], r.Of(s), true) {
      if s !in cx {
        assert s in w.capturable;
      }
    }
  }

  lemma {:induction false} CaptureInnerFits(w: Scope, o: Oracle, r: Ranks, cx: Ctx, template: Ty, actual: Ty)
    requires World(w, o, r) && Bindings(w, r, cx) && Closed(w.Known(), template) && Fit(w, r, actual, w.cap, true)
    ensures Bindings(w, r, Capture(cx, o, template, NonNull(Unprojected(actual))))
    decreases template, 2
  {
    NonNullFit(w, r, Unprojected(actual), w.cap, true);
    CaptureFits(w, o, r, cx, template, NonNull(Unprojected(actual)));
  }

  lemma {:induction false} CaptureFunctionFits(w: Scope, o: Oracle, r: Ranks, cx: Ctx, template: Ty, actual: Ty)
    requires World(w, o, r) && Bindings(w, r, cx) && Closed(w.Known(), template) && Fit(w, r, actual, w.cap, true)
    requires template.Fun?
    ensures Bindings(w, r, Capture(cx, o, template, actual))
    decreases template, 0
  {
    var function_ := Unprojected(actual);
    if function_.Fun? {
      FunctionParts(w, r, function_, w.cap, true);
      CaptureEachFits(w, o, r, cx, template.params, function_.params);
      CaptureFits(w, o, r, CaptureEach(cx, o, template.params, function_.params), template.ret, function_.ret);
    }
  }

  lemma FunctionParts(w: Scope, r: Ranks, f: Ty, limit: nat, free: bool)
    requires f.Fun? && Fit(w, r, f, limit, free)
    ensures AllFit(w, r, f.params, limit - 1, free) && Fit(w, r, f.ret, limit - 1, free)
  {
    FitSeq(w, r, f.params, limit - 1, free);
  }

  lemma {:induction false} CaptureEachFits(w: Scope, o: Oracle, r: Ranks, cx: Ctx, templates: seq<Ty>, actuals: seq<Ty>)
    requires World(w, o, r) && Bindings(w, r, cx) && AllClosed(w.Known(), templates) &&
      AllFit(w, r, actuals, w.cap, true)
    ensures Bindings(w, r, CaptureEach(cx, o, templates, actuals))
    decreases templates, 0
  {
    if templates != [] && actuals != [] {
      CaptureFits(w, o, r, cx, templates[0], actuals[0]);
      CaptureEachFits(w, o, r, Capture(cx, o, templates[0], actuals[0]), templates[1..], actuals[1..]);
    }
  }

  lemma {:induction false} CapturePartsFits(w: Scope, o: Oracle, r: Ranks, cx: Ctx, parts: seq<Ty>, actual: Ty)
    requires World(w, o, r) && Bindings(w, r, cx) && AllClosed(w.Known(), parts) && Fit(w, r, actual, w.cap, true)
    ensures Bindings(w, r, CaptureParts(cx, o, parts, actual))
    decreases parts, 1
  {
    if parts != [] {
      CaptureFits(w, o, r, cx, parts[0], actual);
      CapturePartsFits(w, o, r, Capture(cx, o, parts[0], actual), parts[1..], actual);
    }
  }

  // ---------------------------------------------------------------- every level is enough

  /** Capture cannot lead from either side to the other: neither mentions a capturable variable, or
      one mentions none and fits under the cap. */
  predicate Apart(w: Scope, a: nat, freeA: bool, b: nat, freeB: bool)
  {
    (freeA && freeB) || (freeA && a <= w.cap) || (freeB && b <= w.cap)
  }

  /** One of the two types mentions no variable that capture may bind. */
  predicate Coupled(w: Scope, r: Ranks, sub: Ty, sup: Ty)
  {
    Apart(w, Depth(r, sub), Without(w.capturable, sub), Depth(r, sup), Without(w.capturable, sup))
  }

  /** Each piece of `actual` that capture binds to a variable of `template` mentions no capturable
      variable and fits under the cap. A variable that meets itself is not bound. */
  ghost predicate Orderly(w: Scope, o: Oracle, r: Ranks, template: Ty, actual: Ty)
    decreases template, 1
  {
    Without(w.capturable, template) || Fit(w, r, actual, w.cap, true) || OrderlyPieces(w, o, r, template, actual)
  }

  ghost predicate OrderlyPieces(w: Scope, o: Oracle, r: Ranks, template: Ty, actual: Ty)
    decreases template, 0
  {
    match template
    case Obj(_, args) =>
      var applied := AppliedSupertype(o, actual, template);
      applied.Some? ==> AllOrderly(w, o, r, args, TypeArgs(applied.value))
    case Fun(params, ret, _, _, _) =>
      var f := Unprojected(actual);
      f.Fun? ==> AllOrderly(w, o, r, params, f.params) && Orderly(w, o, r, ret, f.ret)
    case Nullable(inner) => Orderly(w, o, r, inner, NonNull(Unprojected(actual)))
    case Projection(_, inner) => Orderly(w, o, r, inner, NonNull(Unprojected(actual)))
    case _ => template.Variable? && actual == template
  }

  ghost predicate AllOrderly(w: Scope, o: Oracle, r: Ranks, templates: seq<Ty>, actuals: seq<Ty>)
    decreases templates, 2
  {
    templates == [] || actuals == [] ||
      (Orderly(w, o, r, templates[0], actuals[0]) && AllOrderly(w, o, r, templates[1..], actuals[1..]))
  }

  /** Down to `k` levels of arguments the types are equal, or their parts are such that one of them
      mentions no variable that capture may bind. */
  ghost predicate Aligned(k: nat, w: Scope, o: Oracle, r: Ranks, sub: Ty, sup: Ty)
    decreases k, 0
  {
    sub == sup || Coupled(w, r, sub, sup) || (k > 0 && AlignedParts(k - 1, w, o, r, sub, sup))
  }

  ghost predicate AlignedParts(k: nat, w: Scope, o: Oracle, r: Ranks, sub: Ty, sup: Ty)
    decreases k, 3
  {
    if sup.Nullable? && sub.Nullable? then Aligned(k, w, o, r, sub.inner, sup)
    else if sup.Nullable? then (sub.Obj? || sub.Fun?) && Aligned(k, w, o, r, sub, sup.inner)
    else if sub.Fun? && sup.Fun? then
      |sub.params| == |sup.params| ==>
        AlignedPairs(k, w, o, r, sup.params, sub.params) && Aligned(k, w, o, r, sub.ret, sup.ret)
    else if (sub.Obj? || sub.Fun?) && sup.Obj? then
      var applied := AppliedSupertype(o, sub, sup);
      applied.Some? ==> AlignedArgs(k, w, o, r, ObjectName(sup), 0, sup.args, TypeArgs(applied.value))
    else false
  }

  ghost predicate AlignedPairs(k: nat, w: Scope, o: Oracle, r: Ranks, subs: seq<Ty>, sups: seq<Ty>)
    requires |subs| == |sups|
    decreases k, 2
  {
    forall i :: 0 <= i < |subs| ==> Aligned(k, w, o, r, subs[i], sups[i])
  }

  ghost predicate AlignedArgs(
      k: nat, w: Scope, o: Oracle, r: Ranks, owner: Option<Name>, index: nat, expected: seq<Ty>, actual: seq<Ty>)
    decreases k, 2, |expected|
  {
    expected == [] || actual == [] ||
      (AlignedArg(k, w, o, r, owner, index, expected[0], actual[0]) &&
      AlignedArgs(k, w, o, r, owner, index + 1, expected[1..], actual[1..]))
  }

  ghost predicate AlignedArg(
      k: nat, w: Scope, o: Oracle, r: Ranks, owner: Option<Name>, index: nat, p: Ty, given: Ty)
    decreases k, 1, 2
  {
    AlignedSlot(k, w, o, r, VarianceAt(o, owner, index), p, if IsRaw(given) then given.inner else given)
  }

  /** What the slot compares is aligned, and what it captures is in order. */
  ghost predicate AlignedSlot(k: nat, w: Scope, o: Oracle, r: Ranks, variance: Variance, p: Ty, a: Ty)
    decreases k, 1, 1
  {
    if IsOut(p) then !IsIn(a) && Orderly(w, o, r, p.inner, a) && Aligned(k, w, o, r, Unprojected(a), p.inner)
    else if IsIn(p) then Aligned(k, w, o, r, p.inner, Unprojected(a))
    else if p.Projection? then true
    else if variance.Covariant? then Aligned(k, w, o, r, a, p)
    else if variance.Contravariant? then Aligned(k, w, o, r, p, a)
    else !IsIn(a)
  }

  function VarianceAt(o: Oracle, owner: Option<Name>, index: nat): Variance
  {
    if owner.Some? then o.variance(owner.value, index) else Invariant
  }

  /** The guard of the theorem: the types are aligned as deep as they go. */
  ghost predicate Guarded(w: Scope, o: Oracle, r: Ranks, sub: Ty, sup: Ty)
  {
    exists k: nat :: Aligned(k, w, o, r, sub, sup)
  }

  lemma CoupledGuarded(w: Scope, o: Oracle, r: Ranks, sub: Ty, sup: Ty)
    requires Coupled(w, r, sub, sup)
    ensures Guarded(w, o, r, sub, sup)
  {
    assert Aligned(0, w, o, r, sub, sup);
  }

  /** `m` levels decide every comparison of weight at most `m`, whatever has been captured. */
  ghost predicate DecidedAt(m: nat, w: Scope, o: Oracle, r: Ranks)
  {
    forall cx, sub, sup {:trigger Assign(m, cx, o, sub, sup)} ::
      Bindings(w, r, cx) && Tame(w, sub) && Tame(w, sup) && Guarded(w, o, r, sub, sup) ==>
        Depth(r, sub) + Depth(r, sup) <= m ==> Assign(m, cx, o, sub, sup) != Exhausted
  }

  /** What decides one comparison of a source within `a` and a target within `b`. */
  ghost predicate Ready(m: nat, w: Scope, cx: Ctx, o: Oracle, r: Ranks, a: nat, freeA: bool, b: nat, freeB: bool)
  {
    World(w, o, r) && DecidedAt(m, w, o, r) && Bindings(w, r, cx) && a + b <= m && Apart(w, a, freeA, b, freeB)
  }

  /** The comparison in hand is at most one level heavier than what `m` levels decide. */
  ghost predicate Pending(m: nat, w: Scope, cx: Ctx, o: Oracle, r: Ranks, sub: Ty, sup: Ty)
  {
    && World(w, o, r) && DecidedAt(m, w, o, r) && Bindings(w, r, cx)
    && Tame(w, sub) && Tame(w, sup) && Coupled(w, r, sub, sup)
    && Depth(r, sub) + Depth(r, sup) <= m + 1
  }

  lemma OneDecided(
      m: nat, w: Scope, cx: Ctx, o: Oracle, r: Ranks, sub: Ty, sup: Ty, a: nat, freeA: bool, b: nat, freeB: bool)
    requires Ready(m, w, cx, o, r, a, freeA, b, freeB) && Fit(w, r, sub, a, freeA) && Fit(w, r, sup, b, freeB)
    ensures Assign(m, cx, o, sub, sup) != Exhausted
  {
    CoupledGuarded(w, o, r, sub, sup);
  }

  lemma {:induction false} EachDecided(
      m: nat, w: Scope, cx: Ctx, o: Oracle, r: Ranks, sub: Ty, parts: seq<Ty>, a: nat, freeA: bool, b: nat, freeB: bool)
    requires Ready(m, w, cx, o, r, a, freeA, b, freeB) && Fit(w, r, sub, a, freeA) && AllFit(w, r, parts, b, freeB)
    ensures AssignEach(m, cx, o, sub, parts) != Exhausted
    decreases |parts|
  {
    if parts != [] {
      assert Fit(w, r, parts[0], b, freeB);
      OneDecided(m, w, cx, o, r, sub, parts[0], a, freeA, b, freeB);
      EachDecided(m, w, cx, o, r, sub, parts[1..], a, freeA, b, freeB);
    }
  }

  lemma {:induction false} SomeDecided(
      m: nat, w: Scope, cx: Ctx, o: Oracle, r: Ranks, parts: seq<Ty>, sup: Ty, a: nat, freeA: bool, b: nat, freeB: bool)
    requires Ready(m, w, cx, o, r, a, freeA, b, freeB) && AllFit(w, r, parts, a, freeA) && Fit(w, r, sup, b, freeB)
    ensures AssignSome(m, cx, o, parts, sup) != Exhausted
    ensures AssignAll(m, cx, o, parts, sup) != Exhausted
    decreases |parts|
  {
    if parts != [] {
      assert Fit(w, r, parts[0], a, freeA);
      OneDecided(m, w, cx, o, r, parts[0], sup, a, freeA, b, freeB);
      SomeDecided(m, w, cx, o, r, parts[1..], sup, a, freeA, b, freeB);
    }
  }

  lemma {:induction false} PairsDecided(
      m: nat, w: Scope, cx: Ctx, o: Oracle, r: Ranks, subs: seq<Ty>, sups: seq<Ty>, a: nat, freeA: bool, b: nat,
      freeB: bool)
    requires Ready(m, w, cx, o, r, a, freeA, b, freeB) && |subs| == |sups|
    requires AllFit(w, r, subs, a, freeA) && AllFit(w, r, sups, b, freeB)
    ensures AssignPairs(m, cx, o, subs, sups) != Exhausted
    decreases |subs|
  {
    if subs != [] {
      assert Fit(w, r, subs[0], a, freeA) && Fit(w, r, sups[0], b, freeB);
      OneDecided(m, w, cx, o, r, subs[0], sups[0], a, freeA, b, freeB);
      PairsDecided(m, w, cx, o, r, subs[1..], sups[1..], a, freeA, b, freeB);
    }
  }

  /** Both sides of a pending comparison, within their own weights. */
  lemma SidesFit(m: nat, w: Scope, cx: Ctx, o: Oracle, r: Ranks, sub: Ty, sup: Ty)
    returns (a: nat, freeA: bool, b: nat, freeB: bool)
    requires Pending(m, w, cx, o, r, sub, sup)
    ensures a == Depth(r, sub) - 1 && b == Depth(r, sup) - 1
    ensures Fit(w, r, sub, a + 1, freeA) && Fit(w, r, sup, b + 1, freeB)
    ensures Ready(m, w, cx, o, r, a, freeA, b + 1, freeB) && Ready(m, w, cx, o, r, a + 1, freeA, b, freeB)
    ensures Ready(m, w, cx, o, r, b, freeB, a + 1, freeA)
    ensures freeA == Without(w.capturable, sub) && freeB == Without(w.capturable, sup)
  {
    a, b := Depth(r, sub) - 1, Depth(r, sup) - 1;
    freeA, freeB := Without(w.capturable, sub), Without(w.capturable, sup);
  }

  lemma NotNullDecided(m: nat, w: Scope, cx: Ctx, o: Oracle, r: Ranks, sub: Ty, sup: Ty)
    requires Pending(m, w, cx, o, r, sub, sup) && sub.NotNull?
    ensures AssignNotNull(m, cx, o, sub, sup) != Exhausted
  {
    var a, freeA, b, freeB := SidesFit(m, w, cx, o, r, sub, sup);
    OneDecided(m, w, cx, o, r, sub.original, sup, a, freeA, b + 1, freeB);
    if sub.original.Variable? {
      DeclaredUpperFit(w, o, r, sub.original, true, freeA);
      var tightened := DeclaredUpper(o, sub.original.symbol, sub.original.bound, true);
      OneDecided(m, w, cx, o, r, tightened, sup, a, freeA, b + 1, freeB);
    }
  }

  lemma AnyFits(w: Scope, o: Oracle, r: Ranks)
    requires World(w, o, r)
    ensures Fit(w, r, ANY, 1, true) && Fit(w, r, NULLABLE_ANY, 2, true)
  {
    assert MaxDepth(r, []) == 0 && Depth(r, ANY) == 1;
    assert AllTame(w, []) && AllWithout(w.capturable, []);
    assert Tame(w, ANY) && Without(w.capturable, ANY);
  }

  lemma DefiniteDecided(m: nat, w: Scope, cx: Ctx, o: Oracle, r: Ranks, sub: Ty, sup: Ty)
    requires Pending(m, w, cx, o, r, sub, sup) && sup.NotNull?
    ensures Assign(m, cx, o, sub, sup.original) != Exhausted && Assign(m, cx, o, sub, ANY) != Exhausted
  {
    var a, freeA, b, freeB := SidesFit(m, w, cx, o, r, sub, sup);
    AnyFits(w, o, r);
    OneDecided(m, w, cx, o, r, sub, sup.original, a + 1, freeA, b, freeB);
    OneDecided(m, w, cx, o, r, sub, ANY, a + 1, freeA, 1, true);
  }

  lemma CompositeDecided(m: nat, w: Scope, cx: Ctx, o: Oracle, r: Ranks, sub: Ty, sup: Ty)
    requires Pending(m, w, cx, o, r, sub, sup) && (sup.NotNull? || sup.Intersection? || sub.Intersection?)
    ensures AssignComposite(m, cx, o, sub, sup) != Exhausted
  {
    if sup.NotNull? {
      DefiniteDecided(m, w, cx, o, r, sub, sup);
    } else {
      var a, freeA, b, freeB := SidesFit(m, w, cx, o, r, sub, sup);
      if sup.Intersection? {
        FitSeq(w, r, sup.parts, b, freeB);
        EachDecided(m, w, cx, o, r, sub, sup.parts, a + 1, freeA, b, freeB);
      } else {
        FitSeq(w, r, sub.parts, a, freeA);
        SomeDecided(m, w, cx, o, r, sub.parts, sup, a, freeA, b + 1, freeB);
      }
    }
  }

  lemma FlexibleTargetDecided(m: nat, w: Scope, cx: Ctx, o: Oracle, r: Ranks, sub: Ty, sup: Ty)
    requires Pending(m, w, cx, o, r, sub, sup) && Flexing(sup)
    ensures sup.Projection? ==> Assign(m, cx, o, sub, sup.inner) != Exhausted
    ensures sup.Platform? ==> Assign(m, cx, o, sub, MakeNullable(UpperFace(o, sup.inner))) != Exhausted
    ensures sup.Mutability? ==> Assign(m, cx, o, sub, o.readOnlyFace(sup.inner)) != Exhausted
  {
    var a, freeA, b, freeB := SidesFit(m, w, cx, o, r, sub, sup);
    if sup.Projection? {
      OneDecided(m, w, cx, o, r, sub, sup.inner, a + 1, freeA, b, freeB);
    } else if sup.Platform? {
      UpperFaceFit(w, o, r, sup.inner, freeB);
      MakeNullableFit(w, r, UpperFace(o, sup.inner), Depth(r, sup.inner) + 1, freeB);
      OneDecided(m, w, cx, o, r, sub, MakeNullable(UpperFace(o, sup.inner)), a + 1, freeA, b, freeB);
    } else {
      assert FaceFit(w, r, sup.inner, o.readOnlyFace(sup.inner));
      OneDecided(m, w, cx, o, r, sub, o.readOnlyFace(sup.inner), a + 1, freeA, b, freeB);
    }
  }

  lemma FlexibleSourceDecided(m: nat, w: Scope, cx: Ctx, o: Oracle, r: Ranks, sub: Ty, sup: Ty)
    requires Pending(m, w, cx, o, r, sub, sup) && Flexing(sub)
    ensures Assign(m, cx, o, sub.inner, sup) != Exhausted
    ensures sub.Platform? ==> Assign(m, cx, o, MakeNullable(sub.inner), sup) != Exhausted
  {
    var a, freeA, b, freeB := SidesFit(m, w, cx, o, r, sub, sup);
    OneDecided(m, w, cx, o, r, sub.inner, sup, a, freeA, b + 1, freeB);
    if sub.Platform? {
      MakeNullableFit(w, r, sub.inner, Depth(r, sub.inner), freeA);
      OneDecided(m, w, cx, o, r, MakeNullable(sub.inner), sup, a, freeA, b + 1, freeB);
    }
  }

  lemma FlexibleDecided(m: nat, w: Scope, cx: Ctx, o: Oracle, r: Ranks, sub: Ty, sup: Ty)
    requires Pending(m, w, cx, o, r, sub, sup) && (Flexing(sub) || Flexing(sup))
    ensures AssignFlexible(m, cx, o, sub, sup) != Exhausted
  {
    if Flexing(sup) {
      FlexibleTargetDecided(m, w, cx, o, r, sub, sup);
    }
    if Flexing(sub) {
      FlexibleSourceDecided(m, w, cx, o, r, sub, sup);
    }
  }

  lemma UpperDecided(m: nat, w: Scope, cx: Ctx, o: Oracle, r: Ranks, sub: Ty, sup: Ty)
    requires Pending(m, w, cx, o, r, sub, sup) && sub.Variable?
    ensures AssignUpper(m, cx, o, sub, sup) != Exhausted
  {
    var a, freeA, b, freeB := SidesFit(m, w, cx, o, r, sub, sup);
    UpperFit(w, cx, o, r, sub, freeA);
    OneDecided(m, w, cx, o, r, UpperOf(cx, o, sub), sup, a, freeA, b + 1, freeB);
  }

  lemma ToNullableDecided(m: nat, w: Scope, cx: Ctx, o: Oracle, r: Ranks, sub: Ty, sup: Ty)
    requires Pending(m, w, cx, o, r, sub, sup) && sup.Nullable?
    ensures AssignToNullable(m, cx, o, sub, sup) != Exhausted
  {
    var a, freeA, b, freeB := SidesFit(m, w, cx, o, r, sub, sup);
    if sub.Nullable? {
      OneDecided(m, w, cx, o, r, sub.inner, sup, a, freeA, b + 1, freeB);
    } else if sub.Variable? {
      UpperDecided(m, w, cx, o, r, sub, sup);
    } else {
      NonNullFit(w, r, sub, a + 1, freeA);
      OneDecided(m, w, cx, o, r, NonNull(sub), sup.inner, a + 1, freeA, b, freeB);
    }
  }

  lemma VariableDecided(m: nat, w: Scope, cx: Ctx, o: Oracle, r: Ranks, sub: Ty, sup: Ty)
    requires Pending(m, w, cx, o, r, sub, sup) && (sub.Variable? || sup.Variable?)
    ensures AssignVariable(m, cx, o, sub, sup) != Exhausted
  {
    if sub.Variable? {
      UpperDecided(m, w, cx, o, r, sub, sup);
    }
    if sup.Variable? && sup.symbol in cx {
      var a, freeA, b, freeB := SidesFit(m, w, cx, o, r, sub, sup);
      OneDecided(m, w, cx, o, r, sub, cx[sup.symbol], a + 1, freeA, b, freeB);
    }
  }

  lemma {:induction false} ResolveDecided(m: nat, w: Scope, cx: Ctx, r: Ranks, current: Ty, origin: Ty)
    requires Bindings(w, r, cx) && Depth(r, current) <= m
    ensures Resolve(m, cx, current, origin).Some?
  {
    if current.Variable? && current.symbol in cx {
      ResolveDecided(m - 1, w, cx, r, cx[current.symbol], origin);
    }
  }

  // ---------------------------------------------------------------- arguments

  /** The class whose parameters the arguments fill expands within `limit`. */
  ghost predicate OwnerWithin(w: Scope, r: Ranks, owner: Option<Name>, limit: nat)
  {
    owner.Some? ==> owner.value in w.classes && r.OfClass(owner.value) <= limit
  }

  lemma ReadableFit(w: Scope, o: Oracle, r: Ranks, owner: Option<Name>, index: nat, limit: nat)
    requires World(w, o, r) && w.flexible && limit >= 2 && OwnerWithin(w, r, owner, limit)
    ensures AllFit(w, r, ReadableBounds(o, owner, index), limit, true)
  {
    AnyFits(w, o, r);
  }

  /** An argument pair: `p` of the target within `b`, `given` of the applied source within `a`. */
  lemma ArgumentDecided(
      m: nat, w: Scope, cx: Ctx, o: Oracle, r: Ranks, owner: Option<Name>, index: nat, p: Ty, given: Ty,
      a: nat, freeA: bool, b: nat, freeB: bool)
    requires Ready(m, w, cx, o, r, a, freeA, b, freeB) && Fit(w, r, p, b, freeB) && Fit(w, r, given, a, freeA)
    requires OwnerWithin(w, r, owner, a)
    ensures ArgumentFits(m, cx, o, owner, index, p, given) != Exhausted
  {
    var actual := if IsRaw(given) then given.inner else given;
    if p.Projection? {
      ProjectionDecided(m, w, cx, o, r, owner, index, p, actual, a, freeA, b, freeB);
    } else {
      InvariantDecided(m, w, cx, o, r, owner, index, p, actual, a, freeA, b, freeB);
      OneDecided(m, w, cx, o, r, actual, p, a, freeA, b, freeB);
      OneDecided(m, w, cx, o, r, p, actual, b, freeB, a, freeA);
    }
  }

  lemma InvariantDecided(
      m: nat, w: Scope, cx: Ctx, o: Oracle, r: Ranks, owner: Option<Name>, index: nat, p: Ty, actual: Ty,
      a: nat, freeA: bool, b: nat, freeB: bool)
    requires Ready(m, w, cx, o, r, a, freeA, b, freeB) && Fit(w, r, p, b, freeB) && Fit(w, r, actual, a, freeA)
    requires OwnerWithin(w, r, owner, a)
    ensures InvariantFits(m, cx, o, owner, index, p, actual) != Exhausted
  {
    if IsIn(actual) {
      ReadDecided(m, w, cx, o, r, owner, index, p, a, freeA, b, freeB);
      OneDecided(m, w, cx, o, r, p, actual.inner, b, freeB, a, freeA);
    } else {
      ResolveDecided(m, w, cx, r, actual, actual);
      ResolveDecided(m, w, cx, r, p, p);
    }
  }

  /** An argument read through its `in` projection yields what the parameter's bounds admit. */
  lemma ReadDecided(
      m: nat, w: Scope, cx: Ctx, o: Oracle, r: Ranks, owner: Option<Name>, index: nat, p: Ty,
      a: nat, freeA: bool, b: nat, freeB: bool)
    requires Ready(m, w, cx, o, r, a, freeA, b, freeB) && Fit(w, r, p, b, freeB) && w.flexible && a >= 2
    requires OwnerWithin(w, r, owner, a)
    ensures AssignSome(m, cx, o, ReadableBounds(o, owner, index), p) != Exhausted
    ensures AssignAll(m, cx, o, ReadableBounds(o, owner, index), p) != Exhausted
  {
    ReadableFit(w, o, r, owner, index, a);
    SomeDecided(m, w, cx, o, r, ReadableBounds(o, owner, index), p, a, true, b, freeB);
  }

  lemma ProjectionDecided(
      m: nat, w: Scope, cx: Ctx, o: Oracle, r: Ranks, owner: Option<Name>, index: nat, p: Ty, actual: Ty,
      a: nat, freeA: bool, b: nat, freeB: bool)
    requires Ready(m, w, cx, o, r, a, freeA, b, freeB) && Fit(w, r, p, b, freeB) && Fit(w, r, actual, a, freeA)
    requires OwnerWithin(w, r, owner, a) && p.Projection?
    ensures ProjectionFits(m, cx, o, owner, index, p, actual) != Exhausted
  {
    assert Fit(w, r, p.inner, b, freeB) && Fit(w, r, Unprojected(actual), a, freeA);
    if IsOut(p) {
      if IsIn(actual) {
        ReadDecided(m, w, cx, o, r, owner, index, p.inner, a, freeA, b, freeB);
      } else {
        CapturedDecided(m, w, cx, o, r, p.inner, actual, a, freeA, b, freeB);
      }
    } else if IsIn(p) {
      OneDecided(m, w, cx, o, r, p.inner, Unprojected(actual), b, freeB, a, freeA);
    }
  }

  /** The comparison against an `out` bound, in the context that capture leaves. */
  lemma CapturedDecided(
      m: nat, w: Scope, cx: Ctx, o: Oracle, r: Ranks, template: Ty, actual: Ty, a: nat, freeA: bool, b: nat,
      freeB: bool)
    requires Ready(m, w, cx, o, r, a, freeA, b, freeB) && Fit(w, r, template, b, freeB) && Fit(w, r, actual, a, freeA)
    requires Closed(w.Known(), template)
    ensures Assign(m, Capture(cx, o, template, actual), o, Unprojected(actual), template) != Exhausted
  {
    if freeB {
      ClosedWithout(w, cx.Keys, template);
      CaptureInert(cx, o, template, actual);
    } else {
      CaptureFits(w, o, r, cx, template, actual);
    }
    var captured := Capture(cx, o, template, actual);
    OneDecided(m, w, captured, o, r, Unprojected(actual), template, a, freeA, b, freeB);
  }

  lemma {:induction false} ArgumentsDecided(
      m: nat, w: Scope, cx: Ctx, o: Oracle, r: Ranks, owner: Option<Name>, index: nat, expected: seq<Ty>,
      actual: seq<Ty>,
      a: nat, freeA: bool, b: nat, freeB: bool)
    requires Ready(m, w, cx, o, r, a, freeA, b, freeB) && OwnerWithin(w, r, owner, a)
    requires AllFit(w, r, expected, b, freeB) && AllFit(w, r, actual, a, freeA)
    ensures ArgumentsFit(m, cx, o, owner, index, expected, actual) != Exhausted
    decreases |expected|
  {
    if expected != [] && actual != [] {
      assert Fit(w, r, expected[0], b, freeB) && Fit(w, r, actual[0], a, freeA);
      ArgumentDecided(m, w, cx, o, r, owner, index, expected[0], actual[0], a, freeA, b, freeB);
      ArgumentsDecided(m, w, cx, o, r, owner, index + 1, expected[1..], actual[1..], a, freeA, b, freeB);
    }
  }

  lemma ObjectDecided(m: nat, w: Scope, cx: Ctx, o: Oracle, r: Ranks, sub: Ty, sup: Ty)
    requires Pending(m, w, cx, o, r, sub, sup) && sup.Obj?
    ensures AssignObject(m, cx, o, sub, sup) != Exhausted
  {
    var a, freeA, b, freeB := SidesFit(m, w, cx, o, r, sub, sup);
    var applied := AppliedSupertype(o, sub, sup);
    if applied.Some? {
      AppliedFit(w, o, r, sub, sup, a + 1, freeA);
      WorklistOnPath(o, sub, sup);
      TypeArgsTame(w, applied.value);
      FitSeq(w, r, sup.args, b, freeB);
      ArgumentsDecided(m, w, cx, o, r, ObjectName(sup), 0, sup.args, TypeArgs(applied.value), a + 1, freeA, b, freeB);
    }
  }

  lemma FunctionApplicationFit(w: Scope, o: Oracle, r: Ranks, t: Ty, free: bool)
    requires World(w, o, r) && t.Fun? && Fit(w, r, t, Depth(r, t), free)
    ensures Fit(w, r, FunctionApplication(t), Depth(r, t), free)
  {
    FunctionParts(w, r, t, Depth(r, t), free);
    FitSeq(w, r, t.params + [t.ret], Depth(r, t) - 1, free);
  }

  lemma FunctionsDecided(m: nat, w: Scope, cx: Ctx, o: Oracle, r: Ranks, sub: Ty, sup: Ty)
    requires Pending(m, w, cx, o, r, sub, sup) && sub.Fun? && sup.Fun? && |sub.params| == |sup.params|
    ensures AssignPairs(m, cx, o, sup.params, sub.params) != Exhausted &&
      Assign(m, cx, o, sub.ret, sup.ret) != Exhausted
  {
    var a, freeA, b, freeB := SidesFit(m, w, cx, o, r, sub, sup);
    FunctionParts(w, r, sub, a + 1, freeA);
    FunctionParts(w, r, sup, b + 1, freeB);
    PairsDecided(m, w, cx, o, r, sup.params, sub.params, b, freeB, a, freeA);
    OneDecided(m, w, cx, o, r, sub.ret, sup.ret, a, freeA, b, freeB);
  }

  lemma CallableDecided(m: nat, w: Scope, cx: Ctx, o: Oracle, r: Ranks, sub: Ty, sup: Ty)
    requires Pending(m, w, cx, o, r, sub, sup) && sup.Fun?
    ensures AssignObject(m, cx, o, sub, FunctionApplication(sup)) != Exhausted
  {
    FunctionApplicationFit(w, o, r, sup, Without(w.capturable, sup));
    ObjectDecided(m, w, cx, o, r, sub, FunctionApplication(sup));
  }

  lemma ShapeDecided(m: nat, w: Scope, cx: Ctx, o: Oracle, r: Ranks, sub: Ty, sup: Ty)
    requires Pending(m, w, cx, o, r, sub, sup)
    ensures AssignShape(m, cx, o, sub, sup) != Exhausted
  {
    if sup.Fun? {
      CallableDecided(m, w, cx, o, r, sub, sup);
      if sub.Fun? && |sub.params| == |sup.params| {
        FunctionsDecided(m, w, cx, o, r, sub, sup);
      }
    } else if sup.Obj? {
      ObjectDecided(m, w, cx, o, r, sub, sup);
    }
    ShapeAnswers(m, cx, o, sub, sup);
  }

  lemma ShapeAnswers(m: nat, cx: Ctx, o: Oracle, sub: Ty, sup: Ty)
    requires sup.Fun? ==> AssignObject(m, cx, o, sub, FunctionApplication(sup)) != Exhausted
    requires sub.Fun? && sup.Fun? && |sub.params| == |sup.params| ==>
      AssignPairs(m, cx, o, sup.params, sub.params) != Exhausted && Assign(m, cx, o, sub.ret, sup.ret) != Exhausted
    requires sup.Obj? ==> AssignObject(m, cx, o, sub, sup) != Exhausted
    ensures AssignShape(m, cx, o, sub, sup) != Exhausted
  {
  }

  /** `m` levels are enough for the group of arms that decides this comparison. */
  ghost predicate ArmDecided(m: nat, cx: Ctx, o: Oracle, sub: Ty, sup: Ty)
  {
    match ArmOf(sub, sup)
    case ByNotNull => AssignNotNull(m, cx, o, sub, sup) != Exhausted
    case ByComposite => AssignComposite(m, cx, o, sub, sup) != Exhausted
    case ByFlexible => AssignFlexible(m, cx, o, sub, sup) != Exhausted
    case ByNullable => AssignToNullable(m, cx, o, sub, sup) != Exhausted
    case ByVariable => AssignVariable(m, cx, o, sub, sup) != Exhausted
    case ByShape => AssignShape(m, cx, o, sub, sup) != Exhausted
    case _ => true
  }

  lemma ArmAnswers(m: nat, cx: Ctx, o: Oracle, sub: Ty, sup: Ty)
    requires ArmDecided(m, cx, o, sub, sup)
    ensures Assign(m + 1, cx, o, sub, sup) != Exhausted
  {
  }

  /** One comparison asks only for comparisons that `m` levels decide. */
  lemma LevelDecided(m: nat, w: Scope, cx: Ctx, o: Oracle, r: Ranks, sub: Ty, sup: Ty)
    requires Pending(m, w, cx, o, r, sub, sup)
    ensures ArmDecided(m, cx, o, sub, sup)
  {
    match ArmOf(sub, sup)
    case ByNotNull => NotNullDecided(m, w, cx, o, r, sub, sup);
    case ByComposite => CompositeDecided(m, w, cx, o, r, sub, sup);
    case ByFlexible => FlexibleDecided(m, w, cx, o, r, sub, sup);
    case ByNullable => ToNullableDecided(m, w, cx, o, r, sub, sup);
    case ByVariable => VariableDecided(m, w, cx, o, r, sub, sup);
    case ByShape => ShapeDecided(m, w, cx, o, r, sub, sup);
    case _ =>
  }

  // ---------------------------------------------------------------- aligned types

  lemma {:induction false} OrderlyFits(w: Scope, o: Oracle, r: Ranks, cx: Ctx, template: Ty, actual: Ty)
    requires World(w, o, r) && Bindings(w, r, cx) && Closed(w.Known(), template) && Orderly(w, o, r, template, actual)
    ensures Bindings(w, r, Capture(cx, o, template, actual))
    decreases template, 1
  {
    if Without(w.capturable, template) {
      ClosedWithout(w, cx.Keys, template);
      CaptureInert(cx, o, template, actual);
    } else if Fit(w, r, actual, w.cap, true) {
      CaptureFits(w, o, r, cx, template, actual);
    } else {
      OrderlyPiecesFit(w, o, r, cx, template, actual);
    }
  }

  lemma {:induction false} OrderlyPiecesFit(w: Scope, o: Oracle, r: Ranks, cx: Ctx, template: Ty, actual: Ty)
    requires World(w, o, r) && Bindings(w, r, cx) && Closed(w.Known(), template)
    requires OrderlyPieces(w, o, r, template, actual)
    ensures Bindings(w, r, Capture(cx, o, template, actual))
    decreases template, 0
  {
    match template
    case Obj(_, args) =>
      var applied := AppliedSupertype(o, actual, template);
      if applied.Some? { AllOrderlyFit(w, o, r, cx, args, TypeArgs(applied.value)); }
    case Fun(params, ret, _, _, _) =>
      var f := Unprojected(actual);
      if f.Fun? {
        AllOrderlyFit(w, o, r, cx, params, f.params);
        OrderlyFits(w, o, r, CaptureEach(cx, o, params, f.params), ret, f.ret);
      }
    case Nullable(inner) => OrderlyFits(w, o, r, cx, inner, NonNull(Unprojected(actual)));
    case Projection(_, inner) => OrderlyFits(w, o, r, cx, inner, NonNull(Unprojected(actual)));
    case _ =>
  }

  lemma {:induction false} AllOrderlyFit(
      w: Scope, o: Oracle, r: Ranks, cx: Ctx, templates: seq<Ty>, actuals: seq<Ty>)
    requires World(w, o, r) && Bindings(w, r, cx) && AllClosed(w.Known(), templates)
    requires AllOrderly(w, o, r, templates, actuals)
    ensures Bindings(w, r, CaptureEach(cx, o, templates, actuals))
    decreases templates, 2
  {
    if templates != [] && actuals != [] {
      OrderlyFits(w, o, r, cx, templates[0], actuals[0]);
      AllOrderlyFit(w, o, r, Capture(cx, o, templates[0], actuals[0]), templates[1..], actuals[1..]);
    }
  }

  /** What decides one aligned comparison of a source within `a` and a target within `b`. */
  ghost predicate Prepared(m: nat, w: Scope, cx: Ctx, o: Oracle, r: Ranks, a: nat, b: nat)
  {
    World(w, o, r) && DecidedAt(m, w, o, r) && Bindings(w, r, cx) && a + b <= m
  }

  lemma AlignedDecided(k: nat, m: nat, w: Scope, cx: Ctx, o: Oracle, r: Ranks, sub: Ty, sup: Ty, a: nat, b: nat)
    requires Prepared(m, w, cx, o, r, a, b) && Fit(w, r, sub, a, false) && Fit(w, r, sup, b, false)
    requires Aligned(k, w, o, r, sub, sup)
    ensures Assign(m, cx, o, sub, sup) != Exhausted
  {
    assert Guarded(w, o, r, sub, sup);
  }

  lemma AlignedProjectionDecided(
      k: nat, m: nat, w: Scope, cx: Ctx, o: Oracle, r: Ranks, owner: Option<Name>, index: nat, p: Ty, actual: Ty,
      a: nat, b: nat)
    requires Prepared(m, w, cx, o, r, a, b) && Fit(w, r, p, b, false) && Fit(w, r, actual, a, false)
    requires p.Projection? && AlignedSlot(k, w, o, r, VarianceAt(o, owner, index), p, actual)
    ensures ProjectionFits(m, cx, o, owner, index, p, actual) != Exhausted
  {
    assert Fit(w, r, p.inner, b, false) && Fit(w, r, Unprojected(actual), a, false);
    if IsOut(p) {
      OrderlyFits(w, o, r, cx, p.inner, actual);
      AlignedDecided(k, m, w, Capture(cx, o, p.inner, actual), o, r, Unprojected(actual), p.inner, a, b);
    } else if IsIn(p) {
      AlignedDecided(k, m, w, cx, o, r, p.inner, Unprojected(actual), b, a);
    }
  }

  lemma AlignedPlainDecided(
      k: nat, m: nat, w: Scope, cx: Ctx, o: Oracle, r: Ranks, variance: Variance, p: Ty, actual: Ty, a: nat, b: nat)
    requires Prepared(m, w, cx, o, r, a, b) && Fit(w, r, p, b, false) && Fit(w, r, actual, a, false)
    requires !p.Projection? && AlignedSlot(k, w, o, r, variance, p, actual)
    ensures variance.Covariant? ==> Assign(m, cx, o, actual, p) != Exhausted
    ensures variance.Contravariant? ==> Assign(m, cx, o, p, actual) != Exhausted
  {
    if variance.Covariant? {
      AlignedDecided(k, m, w, cx, o, r, actual, p, a, b);
    } else if variance.Contravariant? {
      AlignedDecided(k, m, w, cx, o, r, p, actual, b, a);
    }
  }

  lemma SameDecided(
      m: nat, w: Scope, cx: Ctx, o: Oracle, r: Ranks, owner: Option<Name>, index: nat, p: Ty, actual: Ty, a: nat,
      b: nat)
    requires Prepared(m, w, cx, o, r, a, b) && Depth(r, p) <= b && Depth(r, actual) <= a && !IsIn(actual)
    ensures InvariantFits(m, cx, o, owner, index, p, actual) != Exhausted
  {
    ResolveDecided(m, w, cx, r, actual, actual);
    ResolveDecided(m, w, cx, r, p, p);
  }

  lemma AlignedArgDecided(
      k: nat, m: nat, w: Scope, cx: Ctx, o: Oracle, r: Ranks, owner: Option<Name>, index: nat, p: Ty, given: Ty,
      a: nat, b: nat)
    requires Prepared(m, w, cx, o, r, a, b) && Fit(w, r, p, b, false) && Fit(w, r, given, a, false)
    requires AlignedArg(k, w, o, r, owner, index, p, given)
    ensures ArgumentFits(m, cx, o, owner, index, p, given) != Exhausted
  {
    var actual := if IsRaw(given) then given.inner else given;
    if p.Projection? {
      AlignedProjectionDecided(k, m, w, cx, o, r, owner, index, p, actual, a, b);
    } else {
      AlignedPlainDecided(k, m, w, cx, o, r, VarianceAt(o, owner, index), p, actual, a, b);
      if VarianceAt(o, owner, index).Invariant? {
        SameDecided(m, w, cx, o, r, owner, index, p, actual, a, b);
      }
    }
  }

  lemma {:induction false} AlignedArgsDecided(
      k: nat, m: nat, w: Scope, cx: Ctx, o: Oracle, r: Ranks, owner: Option<Name>, index: nat, expected: seq<Ty>,
      actual: seq<Ty>, a: nat, b: nat)
    requires Prepared(m, w, cx, o, r, a, b) && AllFit(w, r, expected, b, false) && AllFit(w, r, actual, a, false)
    requires AlignedArgs(k, w, o, r, owner, index, expected, actual)
    ensures ArgumentsFit(m, cx, o, owner, index, expected, actual) != Exhausted
    decreases |expected|
  {
    if expected != [] && actual != [] {
      assert Fit(w, r, expected[0], b, false) && Fit(w, r, actual[0], a, false);
      AlignedArgDecided(k, m, w, cx, o, r, owner, index, expected[0], actual[0], a, b);
      AlignedArgsDecided(k, m, w, cx, o, r, owner, index + 1, expected[1..], actual[1..], a, b);
    }
  }

  lemma AlignedObjectDecided(k: nat, m: nat, w: Scope, cx: Ctx, o: Oracle, r: Ranks, sub: Ty, sup: Ty, a: nat, b: nat)
    requires Prepared(m, w, cx, o, r, a, b) && Fit(w, r, sub, a, false) && Fit(w, r, sup, b + 1, false)
    requires (sub.Obj? || sub.Fun?) && sup.Obj? && AlignedParts(k, w, o, r, sub, sup)
    ensures AssignObject(m, cx, o, sub, sup) != Exhausted
  {
    var applied := AppliedSupertype(o, sub, sup);
    if applied.Some? {
      AppliedFit(w, o, r, sub, sup, a, false);
      FitSeq(w, r, sup.args, b, false);
      AlignedArgsDecided(k, m, w, cx, o, r, ObjectName(sup), 0, sup.args, TypeArgs(applied.value), a, b);
    }
  }

  lemma {:induction false} AlignedPairsDecided(
      k: nat, m: nat, w: Scope, cx: Ctx, o: Oracle, r: Ranks, subs: seq<Ty>, sups: seq<Ty>, a: nat, b: nat)
    requires Prepared(m, w, cx, o, r, a, b) && AllFit(w, r, subs, a, false) && AllFit(w, r, sups, b, false)
    requires |subs| == |sups| && AlignedPairs(k, w, o, r, subs, sups)
    ensures AssignPairs(m, cx, o, subs, sups) != Exhausted
    decreases |subs|
  {
    if subs != [] {
      assert Fit(w, r, subs[0], a, false) && Fit(w, r, sups[0], b, false);
      AlignedDecided(k, m, w, cx, o, r, subs[0], sups[0], a, b);
      assert AlignedPairs(k, w, o, r, subs[1..], sups[1..]);
      AlignedPairsDecided(k, m, w, cx, o, r, subs[1..], sups[1..], a, b);
    }
  }

  lemma AlignedFunctionsDecided(
      k: nat, m: nat, w: Scope, cx: Ctx, o: Oracle, r: Ranks, sub: Ty, sup: Ty, a: nat, b: nat)
    requires Prepared(m, w, cx, o, r, a, b) && Fit(w, r, sub, a + 1, false) && Fit(w, r, sup, b, false)
    requires sub.Fun? && sup.Fun? && |sub.params| == |sup.params| && AlignedParts(k, w, o, r, sub, sup)
    ensures AssignPairs(m, cx, o, sup.params, sub.params) != Exhausted
    ensures Assign(m, cx, o, sub.ret, sup.ret) != Exhausted
  {
    FunctionParts(w, r, sub, a + 1, false);
    FunctionParts(w, r, sup, b, false);
    AlignedPairsDecided(k, m, w, cx, o, r, sup.params, sub.params, b - 1, a);
    AlignedDecided(k, m, w, cx, o, r, sub.ret, sup.ret, a, b - 1);
  }

  lemma AlignedShapeDecided(k: nat, m: nat, w: Scope, cx: Ctx, o: Oracle, r: Ranks, sub: Ty, sup: Ty, a: nat, b: nat)
    requires Prepared(m, w, cx, o, r, a + 1, b) && Fit(w, r, sub, a + 1, false) && Fit(w, r, sup, b + 1, false)
    requires !sup.Nullable? && AlignedParts(k, w, o, r, sub, sup)
    ensures AssignShape(m, cx, o, sub, sup) != Exhausted
  {
    if sup.Obj? {
      AlignedObjectDecided(k, m, w, cx, o, r, sub, sup, a + 1, b);
    } else if |sub.params| == |sup.params| {
      AlignedFunctionsDecided(k, m, w, cx, o, r, sub, sup, a, b + 1);
    }
  }

  lemma AlignedNullableDecided(
      k: nat, m: nat, w: Scope, cx: Ctx, o: Oracle, r: Ranks, sub: Ty, sup: Ty, a: nat, b: nat)
    requires Prepared(m, w, cx, o, r, a + 1, b) && Fit(w, r, sub, a + 1, false) && Fit(w, r, sup, b + 1, false)
    requires sup.Nullable? && AlignedParts(k, w, o, r, sub, sup)
    ensures AssignToNullable(m, cx, o, sub, sup) != Exhausted
  {
    if sub.Nullable? {
      AlignedDecided(k, m, w, cx, o, r, sub.inner, sup, a, b + 1);
    } else {
      AlignedDecided(k, m, w, cx, o, r, sub, sup.inner, a + 1, b);
    }
  }

  /** Types aligned by their parts are compared as nullable types or by their shape. */
  lemma AlignedArm(k: nat, w: Scope, o: Oracle, r: Ranks, sub: Ty, sup: Ty)
    requires AlignedParts(k, w, o, r, sub, sup)
    ensures var arm := ArmOf(sub, sup);
      arm.Always? || arm.Never? || if sup.Nullable? then arm.ByNullable? else arm.ByShape?
  {
  }

  lemma AlignedPartsDecided(k: nat, m: nat, w: Scope, cx: Ctx, o: Oracle, r: Ranks, sub: Ty, sup: Ty)
    requires World(w, o, r) && DecidedAt(m, w, o, r) && Bindings(w, r, cx) && Tame(w, sub) && Tame(w, sup)
    requires AlignedParts(k, w, o, r, sub, sup) && Depth(r, sub) + Depth(r, sup) <= m + 1
    ensures ArmDecided(m, cx, o, sub, sup)
  {
    var a, b := Depth(r, sub) - 1, Depth(r, sup) - 1;
    AlignedArm(k, w, o, r, sub, sup);
    if ArmOf(sub, sup).ByNullable? {
      AlignedNullableDecided(k, m, w, cx, o, r, sub, sup, a, b);
    } else if ArmOf(sub, sup).ByShape? {
      AlignedShapeDecided(k, m, w, cx, o, r, sub, sup, a, b);
    }
  }

  lemma AlignedLevelDecided(k: nat, m: nat, w: Scope, cx: Ctx, o: Oracle, r: Ranks, sub: Ty, sup: Ty)
    requires World(w, o, r) && DecidedAt(m, w, o, r) && Bindings(w, r, cx) && Tame(w, sub) && Tame(w, sup)
    requires Aligned(k, w, o, r, sub, sup) && Depth(r, sub) + Depth(r, sup) <= m + 1
    ensures ArmDecided(m, cx, o, sub, sup)
  {
    if sub == sup {
      assert ArmOf(sub, sup) == Always;
    } else if Coupled(w, r, sub, sup) {
      LevelDecided(m, w, cx, o, r, sub, sup);
    } else {
      AlignedPartsDecided(k - 1, m, w, cx, o, r, sub, sup);
    }
  }

  lemma NextLevelDecided(m: nat, w: Scope, o: Oracle, r: Ranks)
    requires World(w, o, r) && DecidedAt(m, w, o, r)
    ensures DecidedAt(m + 1, w, o, r)
  {
    forall cx, sub, sup |
        Bindings(w, r, cx) && Tame(w, sub) && Tame(w, sup) && Guarded(w, o, r, sub, sup) &&
        Depth(r, sub) + Depth(r, sup) <= m + 1
      ensures Assign(m + 1, cx, o, sub, sup) != Exhausted
    {
      var k: nat :| Aligned(k, w, o, r, sub, sup);
      AlignedLevelDecided(k, m, w, cx, o, r, sub, sup);
      ArmAnswers(m, cx, o, sub, sup);
    }
  }

  lemma NothingWeightless(w: Scope, o: Oracle, r: Ranks)
    ensures DecidedAt(0, w, o, r)
  {
    assert forall t :: Depth(r, t) > 0;
  }

  lemma {:induction false} EveryLevelDecided(m: nat, w: Scope, o: Oracle, r: Ranks)
    requires World(w, o, r)
    ensures DecidedAt(m, w, o, r)
  {
    if m == 0 {
      NothingWeightless(w, o, r);
    } else {
      EveryLevelDecided(m - 1, w, o, r);
      NextLevelDecided(m - 1, w, o, r);
    }
  }

  /** The relation terminates: it never recurses deeper than the joint weight of the two types, in
      whatever context capture leads to, when the two are equal or one of them mentions nothing that
      capture may bind, or their arguments are such in turn. */
  lemma Terminates(n: nat, w: Scope, cx: Ctx, o: Oracle, r: Ranks, sub: Ty, sup: Ty)
    requires World(w, o, r) && Bindings(w, r, cx) && Tame(w, sub) && Tame(w, sup) && Guarded(w, o, r, sub, sup)
    requires Depth(r, sub) + Depth(r, sup) <= n
    ensures Assign(n, cx, o, sub, sup) != Exhausted
  {
    EveryLevelDecided(n, w, o, r);
  }
}
