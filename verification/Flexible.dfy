/** Equality of generic arguments in which a Java type stands for the interval it was read from
    (`same_flexible_type_with` and its helpers, src/assignable.rs:553-667). */
module Flexible {
  import opened Types
  import opened Hierarchy

  /** The upper face of a flexible array also projects its element. */
  function PlatformShape(t: Ty): Ty
  {
    if t.Obj? && t.name == ArrayClass && |t.args| == 1 && !(t.args[0].Projection? && t.args[0].mode != Raw)
    then Obj(ArrayClass, [Projection(Out, t.args[0])])
    else t
  }

  function UpperFace(o: Oracle, inner: Ty): Ty
  {
    PlatformShape(o.readOnlyFace(inner))
  }

  lemma PlatformShapeHeight(t: Ty)
    ensures Height(PlatformShape(t)) <= Height(t) + 1
  {
    if PlatformShape(t) != t {
      assert t.args[1..] == [] && MaxHeight(t.args) == Height(t.args[0]);
      var projected := [Projection(Out, t.args[0])];
      assert projected[1..] == [] && MaxHeight(projected) == 1 + Height(t.args[0]);
    }
  }

  lemma UpperFaceHeight(o: Oracle, inner: Ty)
    ensures Height(UpperFace(o, inner)) <= Height(inner) + 1
    ensures Height(MakeNullable(UpperFace(o, inner))) <= Height(inner) + 2
  {
    PlatformShapeHeight(o.readOnlyFace(inner));
    MakeNullableHeight(UpperFace(o, inner));
  }

  function SameFlexible(o: Oracle, left: Ty, right: Ty): bool
    decreases Height(left) + Height(right), 1
  {
    if left.Platform? then
      if right.Platform? then FlexibleMatches(o, left.inner, right.inner) || FlexibleMatches(o, right.inner, left.inner)
      else FlexibleMatches(o, left.inner, right)
    else if right.Platform? then FlexibleMatches(o, right.inner, left)
    else if left.Mutability? then
      if right.Mutability? then SameArgument(o, left.inner, right.inner)
      else MutabilityMatches(o, left.inner, right)
    else if right.Mutability? then MutabilityMatches(o, right.inner, left)
    else SameArgument(o, left, right)
  }

  /** `other` is one of the four bounds of the interval a platform type over `inner` spans. */
  function FlexibleMatches(o: Oracle, inner: Ty, other: Ty): bool
    decreases Height(inner) + Height(other) + 2, 1
  {
    var upper := UpperFace(o, inner);
    UpperFaceHeight(o, inner);
    MakeNullableHeight(inner);
    || SameArgument(o, other, inner)
    || SameArgument(o, other, MakeNullable(inner))
    || (upper != inner && (SameArgument(o, other, upper) || SameArgument(o, other, MakeNullable(upper))))
  }

  function MutabilityMatches(o: Oracle, inner: Ty, other: Ty): bool
    decreases Height(inner) + Height(other), 1
  {
    SameArgument(o, other, inner) || SameArgument(o, other, o.readOnlyFace(inner))
  }

  function SameArgument(o: Oracle, left: Ty, right: Ty): bool
    decreases Height(left) + Height(right), 0
  {
    if left.Variable? && right.Variable? then SameVariable(left, right)
    else if left.NotNull? && right.NotNull? then SameFlexible(o, left.original, right.original)
    else if left.NotNull? && right.Variable? then
      !BoundAdmitsNull(right.bound, {}) && SameVariable(left.original, right)
    else if left.Variable? && right.NotNull? then !BoundAdmitsNull(left.bound, {}) && SameVariable(right.original, left)
    else if left.Obj? && right.Obj? then left.name == right.name && SameAll(o, left.args, right.args)
    else if SameWrapper(left, right) then SameFlexible(o, left.inner, right.inner)
    else if (IsRaw(left) && IsStar(right)) || (IsStar(left) && IsRaw(right)) then true
    else if IsRaw(left) then SameFlexible(o, left.inner, right)
    else if IsRaw(right) then SameFlexible(o, left, right.inner)
    else if IsStar(left) && IsStar(right) then true
    else if IsStar(left) && IsOut(right) then SameFlexible(o, left.inner, right.inner)
    else if IsOut(left) && IsStar(right) then SameFlexible(o, right.inner, left.inner)
    else if left.Fun? && right.Fun? then
      SameShape(left, right) && SameAll(o, left.params, right.params) && SameFlexible(o, left.ret, right.ret)
    else left == right
  }

  predicate IsStar(t: Ty) { t.Projection? && t.mode == Star }
  predicate IsRaw(t: Ty) { t.Projection? && t.mode == Raw }
  predicate IsOut(t: Ty) { t.Projection? && t.mode == Out }
  predicate IsIn(t: Ty) { t.Projection? && t.mode == In }

  /** Both nullable, both platform, both `in` or both `out`. */
  predicate SameWrapper(left: Ty, right: Ty)
  {
    || (left.Nullable? && right.Nullable?)
    || (left.Platform? && right.Platform?)
    || (IsIn(left) && IsIn(right))
    || (IsOut(left) && IsOut(right))
  }

  predicate SameShape(left: Ty, right: Ty)
    requires left.Fun? && right.Fun?
  {
    left.contexts == right.contexts && left.receiver == right.receiver && left.isSuspend == right.isSuspend
  }

  /** Equal lengths and every pair of elements the same. */
  function SameAll(o: Oracle, lefts: seq<Ty>, rights: seq<Ty>): bool
    decreases MaxHeight(lefts) + MaxHeight(rights), 2, |lefts|
  {
    if lefts == [] || rights == [] then lefts == rights
    else SameFlexible(o, lefts[0], rights[0]) && SameAll(o, lefts[1..], rights[1..])
  }

  // ---------------------------------------------------------------- what the spellings stand for

  /** The symbols met along the bounds a type carries, and the type they end at. */
  function BoundChain(t: Ty): (seq<Symbol>, Ty)
  {
    if t.Variable? then
      var (rest, end) := BoundChain(t.bound);
      ([t.symbol] + rest, end)
    else ([], t)
  }

  ghost predicate Unmet(symbols: seq<Symbol>, seen: set<Symbol>)
  {
    forall i :: 0 <= i < |symbols| ==> symbols[i] !in seen
  }

  ghost predicate MetOnce(symbols: seq<Symbol>)
  {
    forall i, j :: 0 <= i < j < |symbols| ==> symbols[i] != symbols[j]
  }

  lemma UnmetFront(x: Symbol, rest: seq<Symbol>, seen: set<Symbol>)
    ensures Unmet([x] + rest, seen) && MetOnce([x] + rest) <==>
      x !in seen && Unmet(rest, seen + {x}) && MetOnce(rest)
  {
    var symbols := [x] + rest;
    assert forall i :: 0 <= i < |rest| ==> rest[i] == symbols[i + 1];
    assert forall i :: 1 <= i < |symbols| ==> symbols[i] == rest[i - 1];
    if Unmet(symbols, seen) && MetOnce(symbols) {
      assert symbols[0] == x;
    }
  }

  /** A bound admits null exactly when the chain it starts ends at a type that does and meets no symbol twice. */
  lemma {:induction false} AdmitsNullIs(t: Ty, seen: set<Symbol>)
    ensures var (symbols, end) := BoundChain(t);
      BoundAdmitsNull(t, seen) <==>
        (end.Nullable? || end.Platform? || end.Null?) && Unmet(symbols, seen) && MetOnce(symbols)
  {
    if t.Variable? {
      AdmitsNullIs(t.bound, seen + {t.symbol});
      UnmetFront(t.symbol, BoundChain(t.bound).0, seen);
    }
  }

  ghost predicate PairwiseSame(o: Oracle, ls: seq<Ty>, rs: seq<Ty>)
  {
    |ls| == |rs| && forall i :: 0 <= i < |ls| ==> SameFlexible(o, ls[i], rs[i])
  }

  lemma {:induction false} SameAllIs(o: Oracle, ls: seq<Ty>, rs: seq<Ty>)
    ensures SameAll(o, ls, rs) <==> PairwiseSame(o, ls, rs)
    decreases |ls|
  {
    if ls != [] && rs != [] {
      SameAllIs(o, ls[1..], rs[1..]);
      assert forall i :: 1 <= i < |ls| ==> ls[i] == ls[1..][i - 1];
      assert forall i :: 1 <= i < |rs| ==> rs[i] == rs[1..][i - 1];
    }
  }

  /** Classes by name and arguments, functions by shape and signature, variables by symbol. */
  lemma HeadsAgree(o: Oracle, l: Ty, r: Ty)
    ensures l.Obj? && r.Obj? ==> (SameFlexible(o, l, r) <==> l.name == r.name && PairwiseSame(o, l.args, r.args))
    ensures l.Fun? && r.Fun? ==> (SameFlexible(o, l, r) <==>
      && l.contexts == r.contexts && l.receiver == r.receiver && l.isSuspend == r.isSuspend
      && PairwiseSame(o, l.params, r.params) && SameFlexible(o, l.ret, r.ret))
    ensures l.Variable? && r.Variable? ==>
      (SameFlexible(o, l, r) <==> l.symbol == r.symbol && l.inference == r.inference)
    ensures l.Nullable? && r.Nullable? ==> (SameFlexible(o, l, r) <==> SameFlexible(o, l.inner, r.inner))
  {
    if l.Obj? && r.Obj? { SameAllIs(o, l.args, r.args); }
    if l.Fun? && r.Fun? { SameAllIs(o, l.params, r.params); }
  }

  /** A star is every other star and raw argument, and the `out` projection of its readable bound; a raw
      argument is its erasure otherwise. */
  lemma ProjectionsAgree(o: Oracle, l: Ty, r: Ty)
    requires l.Projection?
    ensures l.mode == Star && r.Projection? && (r.mode == Star || r.mode == Raw) ==> SameFlexible(o, l, r)
    ensures l.mode == Raw && r.Projection? && r.mode == Star ==> SameFlexible(o, l, r)
    ensures l.mode == Star && r.Projection? && r.mode == Out ==>
      (SameFlexible(o, l, r) <==> SameFlexible(o, l.inner, r.inner))
    ensures l.mode == Out && r.Projection? && r.mode == Star ==>
      (SameFlexible(o, l, r) <==> SameFlexible(o, r.inner, l.inner))
    ensures l.mode == Raw && Plain(r) ==> (SameFlexible(o, l, r) <==> SameFlexible(o, l.inner, r))
    ensures r.Projection? && l.mode == r.mode && (l.mode == In || l.mode == Out) ==>
      (SameFlexible(o, l, r) <==> SameFlexible(o, l.inner, r.inner))
    ensures r.Projection? && l.mode == In && r.mode != In && r.mode != Raw ==> !SameFlexible(o, l, r)
  {
  }

  /** `T & Any` is `T & Any` however it is spelled: as the wrapper, or as a variable whose bound excludes null. */
  lemma DefiniteAgrees(o: Oracle, l: Ty, v: Ty)
    requires l.NotNull? && v.Variable?
    ensures SameFlexible(o, l, v) <==>
      && !BoundAdmitsNull(v.bound, {}) && l.original.Variable?
      && l.original.symbol == v.symbol && l.original.inference == v.inference
    ensures SameFlexible(o, v, l) <==> SameFlexible(o, l, v)
  {
  }

  /** A flexible collection is whatever its mutable or its read-only face is. */
  lemma MutabilityAgrees(o: Oracle, l: Ty, r: Ty)
    requires l.Mutability? && !r.Platform?
    ensures r.Mutability? ==> (SameFlexible(o, l, r) <==> SameArgument(o, l.inner, r.inner))
    ensures !r.Mutability? ==> (SameFlexible(o, l, r) <==>
      SameArgument(o, r, l.inner) || SameArgument(o, r, o.readOnlyFace(l.inner)))
    ensures !r.Mutability? ==> (SameFlexible(o, r, l) <==> SameFlexible(o, l, r))
  {
  }

  // ---------------------------------------------------------------- laws

  /** The head of a type that stands for itself: no projection and no flexible interval. */
  predicate Plain(t: Ty)
  {
    !t.Projection? && !t.Platform? && !t.Mutability?
  }

  /** Every raw argument in `t` carries a plain erasure, or the platform type over one, which is the
      form a Java bound is erased to. */
  predicate Regular(t: Ty)
    decreases t, 0
  {
    match t
    case Obj(_, args) => AllRegular(args)
    case Fun(params, ret, _, _, _) => AllRegular(params) && Regular(ret)
    case Nullable(inner) => Regular(inner)
    case Platform(inner) => Regular(inner) && Plain(inner)
    case Mutability(inner) => Regular(inner)
    case NotNull(original) => Regular(original)
    case Projection(mode, inner) =>
      Regular(inner) && (mode == Raw ==> Plain(if inner.Platform? then inner.inner else inner))
    case _ => true
  }

  predicate AllRegular(ts: seq<Ty>)
    decreases ts, 1
  {
    ts == [] || (Regular(ts[0]) && AllRegular(ts[1..]))
  }

  /** Read-only faces of plain types are plain, and introduce no irregular raw argument. */
  ghost predicate RegularFaces(o: Oracle)
  {
    forall t {:trigger o.readOnlyFace(t)} :: Regular(t) ==>
      Regular(o.readOnlyFace(t)) && (Plain(t) ==> Plain(o.readOnlyFace(t)))
  }

  lemma {:induction false} SameReflexive(o: Oracle, t: Ty)
    requires Regular(t)
    ensures SameFlexible(o, t, t)
    ensures SameArgument(o, t, t)
    decreases t, 0
  {
    match t
    case Obj(_, args) => SameAllReflexive(o, args);
    case Fun(params, ret, _, _, _) =>
      SameAllReflexive(o, params);
      SameReflexive(o, ret);
    case Nullable(inner) => SameReflexive(o, inner);
    case Platform(inner) =>
      SameReflexive(o, inner);
      assert FlexibleMatches(o, inner, inner);
    case Mutability(inner) => SameReflexive(o, inner);
    case NotNull(original) => SameReflexive(o, original);
    case Projection(mode, inner) =>
      SameReflexive(o, inner);
      if mode == Raw && inner.Platform? {
        SameReflexive(o, inner.inner);
      }
      if mode == Raw {
        if inner.Platform? {
          assert SameArgument(o, t, inner.inner) == SameFlexible(o, inner, inner.inner);
          assert FlexibleMatches(o, inner.inner, t);
        } else {
          assert SameFlexible(o, inner, t) == SameArgument(o, inner, t);
        }
      }
    case _ =>
  }

  lemma {:induction false} SameAllReflexive(o: Oracle, ts: seq<Ty>)
    requires AllRegular(ts)
    ensures SameAll(o, ts, ts)
    decreases ts, 1
  {
    if ts != [] {
      SameReflexive(o, ts[0]);
      SameAllReflexive(o, ts[1..]);
    }
  }

  /** One of the four bounds `FlexibleMatches` tries. */
  ghost predicate IsFace(o: Oracle, inner: Ty, face: Ty)
  {
    || face == inner
    || face == MakeNullable(inner)
    || face == UpperFace(o, inner)
    || face == MakeNullable(UpperFace(o, inner))
  }

  lemma FaceMatches(o: Oracle, inner: Ty, other: Ty, face: Ty)
    requires IsFace(o, inner, face) && SameArgument(o, other, face)
    ensures FlexibleMatches(o, inner, other)
  {
  }

  lemma MatchingFace(o: Oracle, inner: Ty, other: Ty) returns (face: Ty)
    requires FlexibleMatches(o, inner, other)
    ensures IsFace(o, inner, face) && SameArgument(o, other, face)
  {
    if SameArgument(o, other, inner) {
      face := inner;
    } else if SameArgument(o, other, MakeNullable(inner)) {
      face := MakeNullable(inner);
    } else if SameArgument(o, other, UpperFace(o, inner)) {
      face := UpperFace(o, inner);
    } else {
      face := MakeNullable(UpperFace(o, inner));
    }
  }

  lemma FlexibleMatchesFaces(o: Oracle, inner: Ty, other: Ty)
    ensures FlexibleMatches(o, inner, other) <==> exists face :: IsFace(o, inner, face) && SameArgument(o, other, face)
  {
    if FlexibleMatches(o, inner, other) {
      var face := MatchingFace(o, inner, other);
    }
    if face :| IsFace(o, inner, face) && SameArgument(o, other, face) {
      FaceMatches(o, inner, other, face);
    }
  }

  /** A platform type equals what one of its faces equals; two of them are equal when the lower face of either
      equals some face of the other. */
  lemma PlatformsAgree(o: Oracle, l: Ty, r: Ty)
    requires l.Platform?
    ensures !r.Platform? ==>
      (SameFlexible(o, l, r) <==> exists face :: IsFace(o, l.inner, face) && SameArgument(o, r, face))
    ensures !r.Platform? ==> (SameFlexible(o, r, l) <==> SameFlexible(o, l, r))
    ensures r.Platform? ==> (SameFlexible(o, l, r) <==>
      || (exists face :: IsFace(o, l.inner, face) && SameArgument(o, r.inner, face))
      || (exists face :: IsFace(o, r.inner, face) && SameArgument(o, l.inner, face)))
  {
    FlexibleMatchesFaces(o, l.inner, r);
    if r.Platform? {
      FlexibleMatchesFaces(o, l.inner, r.inner);
      FlexibleMatchesFaces(o, r.inner, l.inner);
    }
  }

  lemma FaceRegular(o: Oracle, inner: Ty, face: Ty)
    requires RegularFaces(o) && Regular(inner) && IsFace(o, inner, face)
    ensures Regular(face) && Height(face) <= Height(inner) + 2
    ensures Plain(inner) ==> Plain(face)
  {
    UpperFaceHeight(o, inner);
    MakeNullableHeight(inner);
    var read := o.readOnlyFace(inner);
    if PlatformShape(read) != read {
      assert AllRegular(read.args) && Regular(read.args[0]);
      var projected := Projection(Out, read.args[0]);
      assert Regular(projected) && [projected][1..] == [] && AllRegular([projected]);
    }
    MakeNullableRegular(inner);
    MakeNullableRegular(PlatformShape(read));
  }

  lemma MakeNullableRegular(t: Ty)
    requires Regular(t)
    ensures Regular(MakeNullable(t)) && (Plain(t) ==> Plain(MakeNullable(t)))
  {
  }

  lemma {:induction false} SameSymmetric(o: Oracle, left: Ty, right: Ty)
    requires RegularFaces(o) && Regular(left) && Regular(right)
    ensures SameFlexible(o, left, right) == SameFlexible(o, right, left)
    decreases Height(left) + Height(right), 2
  {
    if !left.Platform? && !right.Platform? {
      if left.Mutability? && right.Mutability? {
        SameArgumentSymmetric(o, left.inner, right.inner);
      } else if !left.Mutability? && !right.Mutability? {
        SameArgumentSymmetric(o, left, right);
      }
    }
  }

  lemma {:induction false} SameArgumentSymmetric(o: Oracle, left: Ty, right: Ty)
    requires RegularFaces(o) && Regular(left) && Regular(right)
    ensures SameArgument(o, left, right) == SameArgument(o, right, left)
    decreases Height(left) + Height(right), 1
  {
    if left.Projection? || right.Projection? {
      ProjectionSymmetric(o, left, right);
    } else if left.Fun? && right.Fun? {
      FunSymmetric(o, left, right);
    } else if left.Obj? && right.Obj? {
      SameAllSymmetric(o, left.args, right.args);
    } else if left.NotNull? && right.NotNull? {
      SameSymmetric(o, left.original, right.original);
    } else if SameWrapper(left, right) {
      SameSymmetric(o, left.inner, right.inner);
    } else {
      OtherSymmetric(o, left, right);
    }
  }

  lemma {:induction false} FunSymmetric(o: Oracle, left: Ty, right: Ty)
    requires RegularFaces(o) && Regular(left) && Regular(right) && left.Fun? && right.Fun?
    ensures SameArgument(o, left, right) == SameArgument(o, right, left)
    decreases Height(left) + Height(right), 0
  {
    SameAllSymmetric(o, left.params, right.params);
    SameSymmetric(o, left.ret, right.ret);
  }

  /** Variables, `T & Any` against a variable, and shapes that compare by equality. */
  lemma OtherSymmetric(o: Oracle, left: Ty, right: Ty)
    requires !left.Projection? && !right.Projection? && !SameWrapper(left, right)
    requires !(left.Fun? && right.Fun?) && !(left.Obj? && right.Obj?) && !(left.NotNull? && right.NotNull?)
    ensures SameArgument(o, left, right) == SameArgument(o, right, left)
  {
  }

  lemma {:induction false} ProjectionSymmetric(o: Oracle, left: Ty, right: Ty)
    requires RegularFaces(o) && Regular(left) && Regular(right)
    requires left.Projection? || right.Projection?
    ensures SameArgument(o, left, right) == SameArgument(o, right, left)
    decreases Height(left) + Height(right), 0, 1
  {
    if IsRaw(left) && IsRaw(right) {
      RawsSymmetric(o, left.inner, right.inner);
    } else if IsRaw(left) {
      RawSideSymmetric(o, left, right);
    } else if IsRaw(right) {
      RawSideSymmetric(o, right, left);
    } else {
      UseSiteSymmetric(o, left, right);
    }
  }

  lemma RawLeft(o: Oracle, raw: Ty, other: Ty)
    requires IsRaw(raw) && !IsRaw(other)
    ensures SameArgument(o, raw, other) == (IsStar(other) || SameFlexible(o, raw.inner, other))
  {
  }

  lemma RawRight(o: Oracle, raw: Ty, other: Ty)
    requires IsRaw(raw) && !IsRaw(other)
    ensures SameArgument(o, other, raw) == (IsStar(other) || SameFlexible(o, other, raw.inner))
  {
  }

  lemma {:induction false} RawSideSymmetric(o: Oracle, raw: Ty, other: Ty)
    requires RegularFaces(o) && Regular(raw) && Regular(other) && IsRaw(raw) && !IsRaw(other)
    ensures SameArgument(o, raw, other) == SameArgument(o, other, raw)
    decreases Height(raw) + Height(other), 0, 0
  {
    RawLeft(o, raw, other);
    RawRight(o, raw, other);
    SameSymmetric(o, raw.inner, other);
  }

  lemma {:induction false} UseSiteSymmetric(o: Oracle, left: Ty, right: Ty)
    requires RegularFaces(o) && Regular(left) && Regular(right) && (left.Projection? || right.Projection?)
    requires !IsRaw(left) && !IsRaw(right)
    ensures SameArgument(o, left, right) == SameArgument(o, right, left)
    decreases Height(left) + Height(right), 0, 0
  {
    if SameWrapper(left, right) {
      SameSymmetric(o, left.inner, right.inner);
    }
  }

  /** Two raw arguments compare their erasures, each read at any bound of its interval. */
  lemma {:induction false} RawsSymmetric(o: Oracle, e: Ty, f: Ty)
    requires RegularFaces(o) && Regular(Projection(Raw, e)) && Regular(Projection(Raw, f))
    ensures SameArgument(o, Projection(Raw, e), Projection(Raw, f)) ==
      SameArgument(o, Projection(Raw, f), Projection(Raw, e))
    decreases Height(e) + Height(f) + 1, 0
  {
    if e.Platform? && f.Platform? {
      RawIntervals(o, e, f);
      RawIntervals(o, f, e);
      forall x, y | IsFace(o, e.inner, x) && IsFace(o, f.inner, y)
        ensures SameArgument(o, x, y) == SameArgument(o, y, x)
      {
        FaceRegular(o, e.inner, x);
        FaceRegular(o, f.inner, y);
        SameArgumentSymmetric(o, x, y);
      }
    } else if e.Platform? {
      RawIntervalAgainstPlain(o, e, f);
    } else if f.Platform? {
      RawIntervalAgainstPlain(o, f, e);
    } else {
      RawErasures(o, e, f);
      RawErasures(o, f, e);
      SameSymmetric(o, e, f);
    }
  }

  lemma RawErasures(o: Oracle, e: Ty, f: Ty)
    requires Plain(e)
    ensures SameArgument(o, Projection(Raw, e), Projection(Raw, f)) == SameFlexible(o, e, f)
  {
    assert SameFlexible(o, e, Projection(Raw, f)) == SameArgument(o, e, Projection(Raw, f));
  }

  /** A raw argument against a type of its own: the erasure decides. */
  lemma RawAgainst(o: Oracle, f: Ty, other: Ty)
    requires Plain(other)
    ensures SameArgument(o, Projection(Raw, f), other) == SameFlexible(o, f, other)
  {
  }

  lemma RawIntervalAgainstPlain(o: Oracle, e: Ty, f: Ty)
    requires RegularFaces(o) && Regular(Projection(Raw, e)) && Regular(f)
    requires e.Platform? && Plain(f)
    ensures SameArgument(o, Projection(Raw, e), Projection(Raw, f)) ==
      SameArgument(o, Projection(Raw, f), Projection(Raw, e))
  {
    var rawE, rawF := Projection(Raw, e), Projection(Raw, f);
    FlexibleMatchesFaces(o, e.inner, rawF);
    FlexibleMatchesFaces(o, e.inner, f);
    forall x | IsFace(o, e.inner, x) ensures SameArgument(o, rawF, x) == SameArgument(o, f, x) {
      FaceRegular(o, e.inner, x);
      RawAgainst(o, f, x);
    }
    assert SameArgument(o, rawE, rawF) == SameFlexible(o, e, rawF) == FlexibleMatches(o, e.inner, rawF);
    RawErasures(o, f, e);
    assert SameFlexible(o, f, e) == FlexibleMatches(o, e.inner, f);
  }

  /** Some bound of `e` is the same argument as some bound of `f`. */
  ghost predicate FacesMeet(o: Oracle, e: Ty, f: Ty)
    requires e.Platform? && f.Platform?
  {
    exists x, y :: IsFace(o, e.inner, x) && IsFace(o, f.inner, y) && SameArgument(o, x, y)
  }

  lemma RawIntervals(o: Oracle, e: Ty, f: Ty)
    requires RegularFaces(o) && Regular(Projection(Raw, e)) && e.Platform? && f.Platform?
    ensures SameArgument(o, Projection(Raw, e), Projection(Raw, f)) == FacesMeet(o, e, f)
  {
    var rawF := Projection(Raw, f);
    FlexibleMatchesFaces(o, e.inner, rawF);
    forall x | IsFace(o, e.inner, x)
      ensures SameArgument(o, rawF, x) == exists y :: IsFace(o, f.inner, y) && SameArgument(o, x, y)
    {
      FaceRegular(o, e.inner, x);
      RawAgainst(o, f, x);
      FlexibleMatchesFaces(o, f.inner, x);
      assert SameFlexible(o, f, x) == FlexibleMatches(o, f.inner, x);
    }
    assert SameArgument(o, Projection(Raw, e), rawF) == SameFlexible(o, e, rawF) == FlexibleMatches(o, e.inner, rawF);
  }

  lemma {:induction false} SameAllSymmetric(o: Oracle, lefts: seq<Ty>, rights: seq<Ty>)
    requires RegularFaces(o) && AllRegular(lefts) && AllRegular(rights)
    ensures SameAll(o, lefts, rights) == SameAll(o, rights, lefts)
    decreases MaxHeight(lefts) + MaxHeight(rights), 3, |lefts|
  {
    if lefts != [] && rights != [] {
      SameSymmetric(o, lefts[0], rights[0]);
      SameAllSymmetric(o, lefts[1..], rights[1..]);
    }
  }

  /** Symmetry does need the condition on erasures, and stars are what it keeps out: a raw argument whose
      erasure is a plain type or a projection compares alike both ways with a raw argument of plain erasure
      if and only if its own erasure is no star. */
  lemma RawOverStarAsymmetric(o: Oracle, e: Ty, f: Ty)
    requires RegularFaces(o) && Regular(e) && Regular(f) && Plain(f) && !e.Platform? && !e.Mutability? && !IsRaw(e)
    ensures SameFlexible(o, Projection(Raw, e), Projection(Raw, f)) ==
      SameFlexible(o, Projection(Raw, f), Projection(Raw, e))
      <==> !IsStar(e)
  {
    var rawE, rawF := Projection(Raw, e), Projection(Raw, f);
    assert SameFlexible(o, rawE, rawF) == SameFlexible(o, e, rawF) == SameArgument(o, e, rawF);
    RawErasures(o, f, e);
    assert SameFlexible(o, rawF, rawE) == SameFlexible(o, f, e) == SameArgument(o, f, e);
    if Plain(e) {
      RawsSymmetric(o, e, f);
    } else if !IsStar(e) {
      assert SameArgument(o, e, rawF) == SameFlexible(o, e, f) == SameArgument(o, e, f);
    }
  }
}
