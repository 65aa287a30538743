/** What capture is for: it finds the arguments that make a template out of an applied type
    (`capture_projection_parameters`, src/assignable.rs:502-551). */
module Capturing {
  import opened Options
  import opened Types
  import opened Hierarchy
  import opened Assignable

  /** Every class is itself. */
  ghost predicate Reflexive(o: Oracle)
  {
    forall n: Name :: o.sameClass(n, n)
  }

  // ---------------------------------------------------------------- templates

  /** Classes, functions, nullable, flexible and projected types over variables, and `T & Any`. */
  predicate Template(t: Ty)
    decreases t, 0
  {
    match t
    case Obj(_, args) => AllTemplates(args)
    case Fun(params, ret, _, _, _) => AllTemplates(params) && Template(ret)
    case Nullable(inner) => SolidTemplate(inner) && Template(inner)
    case Platform(inner) => SolidTemplate(inner) && Template(inner)
    case Mutability(inner) => SolidTemplate(inner) && Template(inner)
    case NotNull(original) => original.Variable?
    case Projection(mode, inner) => mode != Raw && (inner.Nullable? || SolidTemplate(inner)) && Template(inner)
    case _ => t.Variable? || t.Unit? || t.Null? || t.Nothing?
  }

  /** No `?`, projection or interval on the outside. */
  predicate SolidTemplate(t: Ty)
  {
    !t.Nullable? && !t.Projection? && !t.Platform? && !t.Mutability?
  }

  predicate AllTemplates(ts: seq<Ty>)
    decreases ts, 1
  {
    ts == [] || (Template(ts[0]) && AllTemplates(ts[1..]))
  }

  /** The variables of a template. */
  function Variables(t: Ty): set<Symbol>
    decreases t, 0
  {
    match t
    case Variable(_, symbol, _) => {symbol}
    case Obj(_, args) => AllVariables(args)
    case Fun(params, ret, _, _, _) => AllVariables(params) + Variables(ret)
    case Nullable(inner) => Variables(inner)
    case Platform(inner) => Variables(inner)
    case Mutability(inner) => Variables(inner)
    case NotNull(original) => Variables(original)
    case Projection(_, inner) => Variables(inner)
    case _ => {}
  }

  function AllVariables(ts: seq<Ty>): set<Symbol>
    decreases ts, 1
  {
    if ts == [] then {} else Variables(ts[0]) + AllVariables(ts[1..])
  }

  /** The template with its variables replaced. */
  function Instance(given: Ctx, t: Ty): Ty
    decreases t, 0
  {
    match t
    case Variable(_, symbol, _) => if symbol in given then given[symbol] else t
    case Obj(name, args) => Obj(name, AllInstances(given, args))
    case Fun(params, ret, c, r, s) => Fun(AllInstances(given, params), Instance(given, ret), c, r, s)
    case Nullable(inner) => Nullable(Instance(given, inner))
    case Platform(inner) => Platform(Instance(given, inner))
    case Mutability(inner) => Mutability(Instance(given, inner))
    case NotNull(original) => Instance(given, original)
    case Projection(mode, inner) => Projection(mode, Instance(given, inner))
    case _ => t
  }

  function AllInstances(given: Ctx, ts: seq<Ty>): (r: seq<Ty>)
    decreases ts, 1
  {
    if ts == [] then [] else [Instance(given, ts[0])] + AllInstances(given, ts[1..])
  }

  /** Each of `symbols` is given a type that is not nullable, no projection and no variable. */
  ghost predicate Solid(given: Ctx, symbols: set<Symbol>)
  {
    forall s <- symbols :: s in given && SolidType(given[s])
  }

  predicate SolidType(t: Ty) { SolidTemplate(t) && !t.Variable? }

  /** The bindings of `cx`, and those of `given` for the `symbols` that `cx` leaves open. */
  function Completed(cx: Ctx, given: Ctx, symbols: set<Symbol>): Ctx
    requires symbols <= given.Keys
  {
    map s | s in cx.Keys + symbols :: if s in cx then cx[s] else given[s]
  }

  // ---------------------------------------------------------------- recovery

  lemma CompletedTwice(cx: Ctx, given: Ctx, a: set<Symbol>, b: set<Symbol>)
    requires a <= given.Keys && b <= given.Keys
    ensures Completed(Completed(cx, given, a), given, b) == Completed(cx, given, a + b)
  {
  }

  lemma CompletedNone(cx: Ctx, given: Ctx)
    ensures Completed(cx, given, {}) == cx
  {
  }

  /** Under a `?` or a projection, the argument comes without its own `?`. */
  lemma InnerInstance(given: Ctx, t: Ty)
    requires Template(t) && SolidTemplate(t) && Solid(given, Variables(t))
    ensures NonNull(Unprojected(Instance(given, t))) == Instance(given, t)
  {
  }

  /** Whatever types a template is made of, capture binds each variable that is still open to the type it
      stands for, and changes no other binding. */
  lemma {:induction false} CaptureRecovers(cx: Ctx, o: Oracle, given: Ctx, t: Ty)
    requires Reflexive(o) && Template(t) && Solid(given, Variables(t))
    ensures Capture(cx, o, t, Instance(given, t)) == Completed(cx, given, Variables(t))
    decreases t, 0
  {
    match t
    case Variable(_, symbol, _) =>
    case Obj(name, args) =>
      WalkToSelf(o, Instance(given, t), t);
      CaptureEachRecovers(cx, o, given, args);
    case Fun(params, ret, _, _, _) =>
      CaptureEachRecovers(cx, o, given, params);
      CaptureRecovers(Completed(cx, given, AllVariables(params)), o, given, ret);
      CompletedTwice(cx, given, AllVariables(params), Variables(ret));
    case Nullable(inner) => WrappedRecovers(cx, o, given, t, inner);
    case Platform(inner) => WrappedRecovers(cx, o, given, t, inner);
    case Mutability(inner) => WrappedRecovers(cx, o, given, t, inner);
    case NotNull(original) => WrappedRecovers(cx, o, given, t, original);
    case Projection(_, inner) => ProjectedRecovers(cx, o, given, inner);
    case _ => CompletedNone(cx, given);
  }

  lemma {:induction false} WrappedRecovers(cx: Ctx, o: Oracle, given: Ctx, t: Ty, inner: Ty)
    requires t in {Nullable(inner), Platform(inner), Mutability(inner), NotNull(inner)}
    requires Reflexive(o) && Template(t) && SolidTemplate(inner) && Solid(given, Variables(inner))
    ensures Capture(cx, o, t, Instance(given, t)) == Completed(cx, given, Variables(inner))
    decreases inner, 1
  {
    InnerInstance(given, inner);
    CaptureRecovers(cx, o, given, inner);
  }

  lemma {:induction false} ProjectedRecovers(cx: Ctx, o: Oracle, given: Ctx, inner: Ty)
    requires Reflexive(o) && Template(inner) && (inner.Nullable? || SolidTemplate(inner))
    requires Solid(given, Variables(inner))
    ensures Capture(cx, o, inner, NonNull(Instance(given, inner))) == Completed(cx, given, Variables(inner))
    decreases inner, 1
  {
    if inner.Nullable? {
      InnerInstance(given, inner.inner);
      CaptureRecovers(cx, o, given, inner.inner);
    } else {
      InnerInstance(given, inner);
      CaptureRecovers(cx, o, given, inner);
    }
  }

  lemma {:induction false} CaptureEachRecovers(cx: Ctx, o: Oracle, given: Ctx, ts: seq<Ty>)
    requires Reflexive(o) && AllTemplates(ts) && Solid(given, AllVariables(ts))
    ensures CaptureEach(cx, o, ts, AllInstances(given, ts)) == Completed(cx, given, AllVariables(ts))
    decreases ts, 1
  {
    if ts == [] {
      CompletedNone(cx, given);
    } else {
      CaptureRecovers(cx, o, given, ts[0]);
      CaptureEachRecovers(Completed(cx, given, Variables(ts[0])), o, given, ts[1..]);
      CompletedTwice(cx, given, Variables(ts[0]), AllVariables(ts[1..]));
    }
  }

  /** Against an intersection of variables, every one of them that is open is bound to the whole argument. */
  lemma CaptureMeets(cx: Ctx, o: Oracle, parts: seq<Ty>, actual: Ty)
    requires SolidType(actual) && OnlyVariables(parts)
    ensures Capture(cx, o, Intersection(parts), actual) == Bound(cx, AllVariables(parts), actual)
  {
    PartsMeet(cx, o, parts, actual);
  }

  predicate OnlyVariables(parts: seq<Ty>) { parts == [] || (parts[0].Variable? && OnlyVariables(parts[1..])) }

  /** The bindings of `cx`, and `t` for the `symbols` that `cx` leaves open. */
  function Bound(cx: Ctx, symbols: set<Symbol>, t: Ty): Ctx
  {
    map s | s in cx.Keys + symbols :: if s in cx then cx[s] else t
  }

  lemma {:induction false} PartsMeet(cx: Ctx, o: Oracle, parts: seq<Ty>, actual: Ty)
    requires SolidType(actual) && OnlyVariables(parts)
    ensures CaptureParts(cx, o, parts, actual) == Bound(cx, AllVariables(parts), actual)
    decreases |parts|
  {
    if parts == [] {
      BoundNone(cx, actual);
    } else {
      OneMeets(cx, o, parts[0], actual);
      PartsMeet(Bound(cx, Variables(parts[0]), actual), o, parts[1..], actual);
      BoundTwice(cx, Variables(parts[0]), AllVariables(parts[1..]), actual);
    }
  }

  lemma BoundNone(cx: Ctx, t: Ty)
    ensures Bound(cx, {}, t) == cx
  {
  }

  lemma OneMeets(cx: Ctx, o: Oracle, v: Ty, actual: Ty)
    requires SolidType(actual) && v.Variable?
    ensures Capture(cx, o, v, actual) == Bound(cx, Variables(v), actual)
  {
    assert Variables(v) == {v.symbol} && Unprojected(actual) == actual;
  }

  lemma BoundTwice(cx: Ctx, a: set<Symbol>, b: set<Symbol>, t: Ty)
    ensures Bound(Bound(cx, a, t), b, t) == Bound(cx, a + b, t)
  {
  }
}
