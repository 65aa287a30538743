/** Where null may go: the literal's targets, and the types that fit `Any`, exactly as their values say
    (src/assignable.rs:282-303, 353-371). */
module NullLiteral {
  import opened Options
  import opened Types
  import opened Hierarchy
  import opened Flexible
  import opened Assignable
  import opened Meaning

  /** Null fits: a nullable type, every platform type, the error type, and what such types make up. */
  predicate TakesNull(o: Oracle, t: Ty)
    decreases Height(t), 0
  {
    match t
    case Null => true
    case Error => true
    case Nullable(_) => true
    case Platform(_) => true
    case Mutability(inner) => TakesNull(o, o.readOnlyFace(inner))
    case Projection(mode, inner) => mode != Raw && TakesNull(o, inner)
    case Intersection(parts) => AllTakeNull(o, parts)
    case _ => false
  }

  predicate AllTakeNull(o: Oracle, ts: seq<Ty>)
    decreases MaxHeight(ts), 1, |ts|
  {
    ts == [] || (TakesNull(o, ts[0]) && AllTakeNull(o, ts[1..]))
  }

  lemma {:induction t} MadeNullable(t: Ty)
    ensures MakeNullable(t).Nullable? || MakeNullable(t).Null? || MakeNullable(t).Error?
  {
  }

  lemma NullAtOnce(n: nat, cx: Ctx, o: Oracle, t: Ty)
    requires n >= 1 && (t.Nullable? || t.Null? || t.Error?)
    ensures Assign(n, cx, o, Null, t) == Yes
  {
    assert ArmOf(Null, t) == Always;
  }

  ghost predicate NullAnswered(n: nat, cx: Ctx, o: Oracle, t: Ty)
  {
    Assign(n, cx, o, Null, t) == Decide(TakesNull(o, t))
  }

  lemma PlatformAnswer(n: nat, cx: Ctx, o: Oracle, t: Ty)
    requires n >= 2 && t.Platform?
    ensures NullAnswered(n, cx, o, t)
  {
    assert ArmOf(Null, t) == ByFlexible;
    MadeNullable(UpperFace(o, t.inner));
    NullAtOnce(n - 1, cx, o, MakeNullable(UpperFace(o, t.inner)));
  }

  /** A flexible collection and a projection pass the literal on. */
  lemma PassedOn(n: nat, cx: Ctx, o: Oracle, t: Ty)
    requires n >= 1 && (t.Mutability? || (t.Projection? && t.mode != Raw))
    requires t.Mutability? ==> NullAnswered(n - 1, cx, o, o.readOnlyFace(t.inner))
    requires t.Projection? ==> NullAnswered(n - 1, cx, o, t.inner)
    ensures NullAnswered(n, cx, o, t)
  {
    assert ArmOf(Null, t) == ByFlexible;
  }

  /** The null literal against any type at all. */
  lemma {:induction false} NullAnswer(n: nat, cx: Ctx, o: Oracle, t: Ty)
    requires n >= Height(t)
    ensures Assign(n, cx, o, Null, t) == Decide(TakesNull(o, t))
    decreases Height(t), 0
  {
    if t.Nullable? || t.Null? || t.Error? {
      NullAtOnce(n, cx, o, t);
    } else if t.Platform? {
      PlatformAnswer(n, cx, o, t);
    } else if t.Mutability? || (t.Projection? && t.mode != Raw) {
      if t.Mutability? { NullAnswer(n - 1, cx, o, o.readOnlyFace(t.inner)); }
      if t.Projection? { NullAnswer(n - 1, cx, o, t.inner); }
      PassedOn(n, cx, o, t);
    } else if t.NotNull? {
      NullAnswer(n - 1, cx, o, t.original);
      assert ArmOf(Null, ANY) == Never && Assign(n - 1, cx, o, Null, ANY) == No;
      assert ArmOf(Null, t) == ByComposite;
    } else if t.Intersection? {
      NullEach(n - 1, cx, o, t.parts);
      assert ArmOf(Null, t) == ByComposite;
    } else {
      assert ArmOf(Null, t) == Never;
    }
  }

  lemma {:induction false} NullEach(n: nat, cx: Ctx, o: Oracle, ts: seq<Ty>)
    requires n >= MaxHeight(ts)
    ensures AssignEach(n, cx, o, Null, ts) == Decide(AllTakeNull(o, ts))
    decreases MaxHeight(ts), 1, |ts|
  {
    if ts != [] {
      NullAnswer(n, cx, o, ts[0]);
      NullEach(n, cx, o, ts[1..]);
    }
  }

  // ---------------------------------------------------------------- what the values say

  /** No variable decides whether `t` has null: its head, or a `?` on it, does. */
  predicate Concrete(t: Ty)
    decreases t, 0
  {
    match t
    case Variable(_, _, _) => false
    case Projection(_, inner) => Concrete(inner)
    case Intersection(parts) => AllConcrete(parts)
    case _ => true
  }

  predicate AllConcrete(ts: seq<Ty>)
    decreases ts, 1
  {
    ts == [] || (Concrete(ts[0]) && AllConcrete(ts[1..]))
  }

  lemma {:induction false} TakesNullMeans(I: Interp, cx: Ctx, o: Oracle, t: Ty)
    requires NullFreeHeads(I) && Denotable(I, cx, o, t) && Concrete(t)
    ensures TakesNull(o, t) <==> NullValue in Den(I, t)
    decreases t, 0
  {
    match t
    case Obj(name, args) => assert I.cls(name, ArgDens(I, args)) <= NON_NULL;
    case Fun(params, ret, _, _, s) => assert I.function_(DenSeq(I, params), Den(I, ret), s) <= NON_NULL;
    case Projection(_, inner) => TakesNullMeans(I, cx, o, inner);
    case Intersection(parts) => AllTakeNullMeans(I, cx, o, parts);
    case _ =>
  }

  lemma {:induction false} AllTakeNullMeans(I: Interp, cx: Ctx, o: Oracle, ts: seq<Ty>)
    requires NullFreeHeads(I) && AllWhole(I, cx, o, ts) && AllConcrete(ts)
    ensures AllTakeNull(o, ts) <==> NullValue in Common(I, ts)
    decreases ts, 1
  {
    if ts != [] {
      TakesNullMeans(I, cx, o, ts[0]);
      AllTakeNullMeans(I, cx, o, ts[1..]);
    }
  }

  /** Null is assignable to a concrete type exactly when it is one of its values, in any model. */
  lemma NullExactly(n: nat, I: Interp, cx: Ctx, o: Oracle, t: Ty)
    requires Models(I, cx, o) && Denotable(I, cx, o, t) && Concrete(t) && n >= Height(t)
    ensures Assign(n, cx, o, Null, t) == if NullValue in Den(I, t) then Yes else No
  {
    NullAnswer(n, cx, o, t);
    TakesNullMeans(I, cx, o, t);
  }

  /** A concrete type is assignable to `Any` exactly when null is none of its values, in any model. */
  lemma {:induction false} AnyExactly(n: nat, I: Interp, cx: Ctx, o: Oracle, t: Ty)
    requires Models(I, cx, o) && Denotable(I, cx, o, t) && Concrete(t) && Unmarked(t)
    requires n >= Height(t)
    ensures Assign(n, cx, o, t, ANY) == if NullValue in Den(I, t) then No else Yes
    decreases t, 0
  {
    TakesNullMeans(I, cx, o, t);
    if t.Projection? {
      AnyExactly(n - 1, I, cx, o, t.inner);
      assert ArmOf(t, ANY) == ByFlexible;
    } else if t.Intersection? {
      AnySome(n - 1, I, cx, o, t.parts);
      assert ArmOf(t, ANY) == ByComposite;
    } else if t.Nullable? || t.Null? {
      assert ArmOf(t, ANY) == Never;
    } else {
      assert ArmOf(t, ANY) == Always;
    }
  }

  lemma {:induction false} AnySome(n: nat, I: Interp, cx: Ctx, o: Oracle, ts: seq<Ty>)
    requires Models(I, cx, o) && AllWhole(I, cx, o, ts) && AllConcrete(ts) && AllUnmarked(ts) && n >= MaxHeight(ts)
    ensures AssignSome(n, cx, o, ts, ANY) == if NullValue in Common(I, ts) then No else Yes
    decreases ts, 1
  {
    if ts != [] {
      AnyExactly(n, I, cx, o, ts[0]);
      AnySome(n, I, cx, o, ts[1..]);
    }
  }

  /** No definitely non-null form decides it either. */
  predicate Unmarked(t: Ty)
    decreases t, 0
  {
    match t
    case NotNull(_) => false
    case Projection(_, inner) => Unmarked(inner)
    case Intersection(parts) => AllUnmarked(parts)
    case _ => true
  }

  predicate AllUnmarked(ts: seq<Ty>)
    decreases ts, 1
  {
    ts == [] || (Unmarked(ts[0]) && AllUnmarked(ts[1..]))
  }
}
