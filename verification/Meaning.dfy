/** What types mean: the values they denote in an interpretation, the types and interpretations the
    soundness theorem speaks of, and what canonical intersections keep. */
module Meaning {
  import opened Options
  import opened Types
  import opened Hierarchy
  import opened Flexible
  import opened Assignable
  import opened Termination

  type Element(==, !new)

  datatype Value = NullValue | Ref(element: Element)

  type Values = iset<Value>

  ghost const NON_NULL: Values := iset v: Value | v != NullValue

  /** What one generic argument says about its slot. */
  datatype ArgDen = Exact(values: Values) | OutDen(values: Values) | InDen(values: Values) | StarDen

  datatype Interp = Interp(
    cls: (Name, seq<ArgDen>) -> Values,
    function_: (seq<Values>, Values, bool) -> Values,
    variable: (bool, Symbol) -> Values,
    top: (Name, nat) -> Values,
    unit: Values)

  // ---------------------------------------------------------------- denotations

  ghost function Den(I: Interp, t: Ty): Values
    decreases t, 0
  {
    match t
    case Unit => I.unit
    case Null => iset{NullValue}
    case Obj(name, args) => I.cls(name, ArgDens(I, args))
    case Fun(params, ret, _, _, isSuspend) => I.function_(DenSeq(I, params), Den(I, ret), isSuspend)
    case Nullable(inner) => Den(I, inner) + iset{NullValue}
    case Projection(_, inner) => Den(I, inner)
    case Variable(inference, symbol, _) => I.variable(inference, symbol)
    case NotNull(original) => Den(I, original) - iset{NullValue}
    case Intersection(parts) => Common(I, parts)
    case _ => iset{}
  }

  ghost function DenSeq(I: Interp, ts: seq<Ty>): (r: seq<Values>)
    ensures |r| == |ts|
    decreases ts, 1
  {
    if ts == [] then [] else [Den(I, ts[0])] + DenSeq(I, ts[1..])
  }

  /** The values every one of `parts` has. */
  ghost function Common(I: Interp, parts: seq<Ty>): Values
    decreases parts, 1
  {
    if parts == [] then NON_NULL + iset{NullValue} else Den(I, parts[0]) * Common(I, parts[1..])
  }

  ghost function ArgDens(I: Interp, args: seq<Ty>): (r: seq<ArgDen>)
    ensures |r| == |args|
    decreases args, 1
  {
    if args == [] then []
    else
      [ShapeDen(args[0], Den(I, args[0]))] + ArgDens(I, args[1..])
  }

  ghost function ShapeDen(arg: Ty, den: Values): ArgDen
  {
    if IsOut(arg) then OutDen(den)
    else if IsIn(arg) then InDen(den)
    else if IsStar(arg) then StarDen
    else Exact(den)
  }

  ghost function DenOfArg(I: Interp, arg: Ty): ArgDen
  {
    ShapeDen(arg, Den(I, arg))
  }

  lemma {:induction false} DenSeqAt(I: Interp, ts: seq<Ty>, i: nat)
    requires i < |ts|
    ensures DenSeq(I, ts)[i] == Den(I, ts[i])
  {
    if i > 0 { DenSeqAt(I, ts[1..], i - 1); }
  }

  lemma {:induction false} ArgDensAt(I: Interp, args: seq<Ty>, i: nat)
    requires i < |args|
    ensures ArgDens(I, args)[i] == DenOfArg(I, args[i])
  {
    if i > 0 { ArgDensAt(I, args[1..], i - 1); }
  }

  ghost predicate InAll(I: Interp, parts: seq<Ty>, v: Value)
  {
    forall p <- parts :: v in Den(I, p)
  }

  lemma {:induction false} CommonAt(I: Interp, parts: seq<Ty>, v: Value)
    ensures v in Common(I, parts) <==> InAll(I, parts, v)
  {
    if parts != [] {
      CommonAt(I, parts[1..], v);
      assert forall p :: p in parts <==> p == parts[0] || p in parts[1..];
      assert InAll(I, parts, v) <==> v in Den(I, parts[0]) && InAll(I, parts[1..], v);
    }
  }

  // ---------------------------------------------------------------- the fragment

  /** Whether argument denotation `d` lies within `e` in slot `i` of class `c`. A slot read through a
      star, or through an `in` projection, yields anything the parameter's bounds admit. */
  ghost predicate Contained(I: Interp, o: Oracle, c: Name, i: nat, d: ArgDen, e: ArgDen)
  {
    match e
    case StarDen => true
    case OutDen(values) => if d.StarDen? || d.InDen? then I.top(c, i) <= values else d.values <= values
    case InDen(values) => if d.StarDen? || d.OutDen? then values == iset{} else values <= d.values
    case Exact(values) =>
      match o.variance(c, i)
      case Covariant => if d.StarDen? || d.InDen? then I.top(c, i) <= values else d.values <= values
      case Contravariant => if d.StarDen? || d.OutDen? then values == iset{} else values <= d.values
      case Invariant =>
        if d.Exact? then d.values == values
        else d.InDen? && values <= d.values && I.top(c, i) <= values
  }

  /** No value of `t` is null, as its head or the bound it carries shows. */
  predicate NeverNull(t: Ty)
    decreases t, 0
  {
    match t
    case Unit => true
    case Nothing => true
    case Obj(_, _) => true
    case Fun(_, _, _, _, _) => true
    case NotNull(_) => true
    case Variable(_, _, bound) => NeverNull(bound)
    case Intersection(parts) => SomeNeverNull(parts)
    case _ => false
  }

  predicate SomeNeverNull(parts: seq<Ty>)
    decreases parts, 1
  {
    parts != [] && (NeverNull(parts[0]) || SomeNeverNull(parts[1..]))
  }

  /** The canonical intersection of `parts` keeps the null they share: every part is nullable, or one is
      not and never null, or each nullable core stands beside itself without its `?`. */
  predicate KeepsNull(parts: seq<Ty>)
  {
    var pieces := DecomposeAll(parts, false);
    || (forall p <- pieces :: p.nullable)
    || (exists p <- pieces :: !p.nullable && NeverNull(p.core))
    || (forall q <- pieces :: q.nullable ==> Bare(pieces, q.core))
  }

  predicate Bare(pieces: seq<Piece>, core: Ty)
  {
    exists p <- pieces :: !p.nullable && (p.core == core || SameVariable(p.core, core))
  }

  /** The types the theorem speaks of, under an interpretation: no error, platform, flexible or raw
      form; each variable inside the bound it carries; each star's readable bound covering its
      parameter; no projection against the declared variance of its slot; and nothing to capture. */
  ghost predicate Denotable(I: Interp, cx: Ctx, o: Oracle, t: Ty)
    decreases t, 0
  {
    match t
    case Unit => true
    case Null => true
    case Nothing => true
    case Obj(name, args) => SlotsDenotable(I, cx, o, name, 0, args)
    case Fun(params, ret, _, _, _) => AllWhole(I, cx, o, params) && !ret.Projection? && Denotable(I, cx, o, ret)
    case Nullable(inner) => !inner.Projection? && Denotable(I, cx, o, inner)
    case Projection(mode, inner) => mode != Raw && !inner.Projection? && Denotable(I, cx, o, inner)
    case Variable(inference, symbol, bound) =>
      && !bound.Projection? && Denotable(I, cx, o, bound)
      && I.variable(inference, symbol) <= Den(I, bound)
      && (BoundAdmitsNull(bound, {}) || NeverNull(bound))
      && (o.variableBounds(symbol) == [] || KeepsNull([bound] + o.variableBounds(symbol)))
    case NotNull(original) => !original.Projection? && Denotable(I, cx, o, original)
    case Intersection(parts) => parts != [] && AllWhole(I, cx, o, parts)
    case _ => false
  }

  ghost predicate AllWhole(I: Interp, cx: Ctx, o: Oracle, ts: seq<Ty>)
    decreases ts, 1
  {
    ts == [] || (!ts[0].Projection? && Denotable(I, cx, o, ts[0]) && AllWhole(I, cx, o, ts[1..]))
  }

  ghost predicate SlotsDenotable(I: Interp, cx: Ctx, o: Oracle, c: Name, i: nat, args: seq<Ty>)
    decreases args, 1
  {
    args == [] || (
      && Denotable(I, cx, o, args[0])
      && SlotFits(I, cx, o, c, i, args[0], Den(I, args[0]))
      && SlotsDenotable(I, cx, o, c, i + 1, args[1..]))
  }

  ghost predicate SlotFits(I: Interp, cx: Ctx, o: Oracle, c: Name, i: nat, arg: Ty, den: Values)
  {
    && (IsOut(arg) ==> Closed(cx.Keys, arg.inner))
    && (IsStar(arg) ==> I.top(c, i) <= den)
    && (o.variance(c, i) == Covariant ==> !IsIn(arg))
    && (o.variance(c, i) == Contravariant ==> !IsOut(arg) && !IsStar(arg))
  }

  /** A denotable type that is not a projection. */
  ghost predicate Whole(I: Interp, cx: Ctx, o: Oracle, t: Ty)
  {
    !t.Projection? && Denotable(I, cx, o, t)
  }

  // ---------------------------------------------------------------- interpretations

  /** Classes and functions lie within their supertypes. What the oracle answers for a nullable form of
      a class is never asked for. */
  ghost predicate SubtypesIncluded(I: Interp, cx: Ctx, o: Oracle)
  {
    && o.supers(Unit) == []
    && forall t, s <- o.supers(t) :: (t.Obj? || t.Fun?) && Denotable(I, cx, o, t) ==>
         s.Obj? && Denotable(I, cx, o, s) && Den(I, t) <= Den(I, s)
  }

  ghost predicate ClassesVary(I: Interp, o: Oracle)
  {
    && (forall c, ds, es {:trigger I.cls(c, ds), I.cls(c, es)} ::
          |ds| == |es| && (forall i :: 0 <= i < |ds| ==> Contained(I, o, c, i, ds[i], es[i])) ==>
            I.cls(c, ds) <= I.cls(c, es))
    && (forall c, ds {:trigger I.cls(c, ds)} :: I.cls(c, ds) <= I.cls(c, []))
    && (forall ds {:trigger I.cls(AnyClass, ds)} :: I.cls(AnyClass, ds) == NON_NULL)
    && (forall ds {:trigger I.cls(JavaObject, ds)} :: I.cls(JavaObject, ds) == NON_NULL)
  }

  /** Classes the platform unifies have the same instances and the same parameters. */
  ghost predicate AliasesAgree(I: Interp, o: Oracle)
  {
    forall a, b :: o.sameClass(a, b) ==>
      && (forall ds {:trigger I.cls(a, ds)} :: I.cls(a, ds) <= I.cls(b, ds))
      && (forall i: nat {:trigger I.top(a, i)} {:trigger I.top(b, i)} :: I.top(a, i) == I.top(b, i))
      && (forall i: nat {:trigger o.variance(a, i)} {:trigger o.variance(b, i)} :: o.variance(a, i) == o.variance(b, i))
  }

  ghost predicate FunctionsVary(I: Interp)
  {
    && (forall ps, qs, a, b, s: bool, t: bool {:trigger I.function_(ps, a, s), I.function_(qs, b, t)} ::
          |ps| == |qs| && (forall i :: 0 <= i < |ps| ==> qs[i] <= ps[i]) && a <= b && (s ==> t) ==>
          I.function_(ps, a, s) <= I.function_(qs, b, t))
    && (forall ps, a, s: bool {:trigger I.function_(ps, a, s)} ::
          I.cls(FunctionClass(|ps|, s),
            seq(|ps| + 1, i requires 0 <= i < |ps| + 1 => Exact(if i < |ps| then ps[i] else a)))
          <= I.function_(ps, a, s))
  }

  /** Each variable lies inside all its declared bounds and equals its binding. */
  ghost predicate VariablesInBounds(I: Interp, cx: Ctx, o: Oracle)
  {
    && (forall s, b <- o.variableBounds(s) :: InBound(I, cx, o, s, b))
    && (forall s <- cx :: EqualsBinding(I, cx, o, s))
  }

  ghost predicate InBound(I: Interp, cx: Ctx, o: Oracle, s: Symbol, b: Ty)
  {
    Whole(I, cx, o, b) && I.variable(false, s) <= Den(I, b) && I.variable(true, s) <= Den(I, b)
  }

  ghost predicate EqualsBinding(I: Interp, cx: Ctx, o: Oracle, s: Symbol)
    requires s in cx
  {
    Whole(I, cx, o, cx[s]) && I.variable(false, s) == Den(I, cx[s]) == I.variable(true, s)
  }

  ghost predicate ParametersInBounds(I: Interp, cx: Ctx, o: Oracle)
  {
    forall c, i: nat, b <- ReadableBounds(o, Some(c), i) :: Whole(I, cx, o, b) && I.top(c, i) <= Den(I, b)
  }

  /** Null belongs to no class, no function and not to `Unit`. */
  ghost predicate NullFreeHeads(I: Interp)
  {
    && I.unit <= NON_NULL
    && (forall c, ds {:trigger I.cls(c, ds)} :: I.cls(c, ds) <= NON_NULL)
    && (forall ps, a, s: bool {:trigger I.function_(ps, a, s)} :: I.function_(ps, a, s) <= NON_NULL)
  }

  /** An interpretation closed under the hierarchy, the declared variances and the declared bounds. */
  ghost predicate Models(I: Interp, cx: Ctx, o: Oracle)
  {
    && SubtypesIncluded(I, cx, o)
    && ClassesVary(I, o)
    && AliasesAgree(I, o)
    && FunctionsVary(I)
    && VariablesInBounds(I, cx, o)
    && ParametersInBounds(I, cx, o)
    && NullFreeHeads(I)
  }

  // ---------------------------------------------------------------- intersections of bounds

  /** `v` belongs to a piece: to its core, or as the null its `?` admits. */
  ghost predicate InPiece(I: Interp, v: Value, p: Piece)
  {
    v in Den(I, p.core) || (p.nullable && v == NullValue)
  }

  lemma {:induction false} WholeAt(I: Interp, cx: Ctx, o: Oracle, ts: seq<Ty>)
    ensures AllWhole(I, cx, o, ts) <==> forall t <- ts :: Whole(I, cx, o, t)
  {
    if ts != [] {
      WholeAt(I, cx, o, ts[1..]);
      assert forall t :: t in ts <==> t == ts[0] || t in ts[1..];
      assert AllWhole(I, cx, o, ts) <==> Whole(I, cx, o, ts[0]) && AllWhole(I, cx, o, ts[1..]);
    }
  }

  lemma {:induction false} DecomposeSound(I: Interp, cx: Ctx, o: Oracle, t: Ty, inherited: bool, v: Value)
    requires Whole(I, cx, o, t)
    requires v in Den(I, t) || (inherited && v == NullValue)
    ensures Decompose(t, inherited) != []
    ensures forall p <- Decompose(t, inherited) :: Whole(I, cx, o, p.core) && InPiece(I, v, p)
    decreases t, 0
  {
    match t
    case Nullable(inner) => DecomposeSound(I, cx, o, inner, true, v);
    case Intersection(parts) =>
      WholeAt(I, cx, o, parts);
      CommonAt(I, parts, v);
      DecomposeAllSound(I, cx, o, parts, inherited, v);
    case _ =>
  }

  lemma {:induction false} DecomposeAllSound(I: Interp, cx: Ctx, o: Oracle, parts: seq<Ty>, inherited: bool, v: Value)
    requires forall p <- parts :: Whole(I, cx, o, p) && (v in Den(I, p) || (inherited && v == NullValue))
    ensures parts != [] ==> DecomposeAll(parts, inherited) != []
    ensures forall p <- DecomposeAll(parts, inherited) :: Whole(I, cx, o, p.core) && InPiece(I, v, p)
    decreases parts, 1
  {
    if parts != [] {
      DecomposeSound(I, cx, o, parts[0], inherited, v);
      DecomposeAllSound(I, cx, o, parts[1..], inherited, v);
    }
  }

  lemma {:induction false} NeverNullHolds(I: Interp, cx: Ctx, o: Oracle, t: Ty)
    requires NullFreeHeads(I) && Denotable(I, cx, o, t) && NeverNull(t)
    ensures NullValue !in Den(I, t)
    decreases t, 0
  {
    match t
    case Obj(name, args) => assert I.cls(name, ArgDens(I, args)) <= NON_NULL;
    case Fun(params, ret, _, _, s) => assert I.function_(DenSeq(I, params), Den(I, ret), s) <= NON_NULL;
    case Variable(_, _, bound) => NeverNullHolds(I, cx, o, bound);
    case Intersection(parts) => SomeNeverNullHolds(I, cx, o, parts);
    case _ =>
  }

  lemma {:induction false} SomeNeverNullHolds(I: Interp, cx: Ctx, o: Oracle, parts: seq<Ty>)
    requires NullFreeHeads(I) && AllWhole(I, cx, o, parts) && SomeNeverNull(parts)
    ensures NullValue !in Common(I, parts)
    decreases parts, 1
  {
    if NeverNull(parts[0]) {
      NeverNullHolds(I, cx, o, parts[0]);
    } else {
      SomeNeverNullHolds(I, cx, o, parts[1..]);
    }
  }

  /** Null is in every part of `parts`. */
  ghost predicate ShareNull(I: Interp, parts: seq<Ty>)
  {
    forall p <- parts :: NullValue in Den(I, p)
  }

  /** The forms a bound takes: no error, flexible, platform or projected type in it, as far as `?` and
      intersections are looked through. */
  predicate Proper(t: Ty)
    decreases t, 0
  {
    match t
    case Nullable(inner) => Proper(inner)
    case Intersection(parts) => parts != [] && AllProper(parts)
    case NotNull(original) => Proper(original)
    case _ => t.Unit? || t.Null? || t.Nothing? || t.Obj? || t.Fun? || t.Variable?
  }

  predicate AllProper(ts: seq<Ty>)
    decreases ts, 1
  {
    ts == [] || (Proper(ts[0]) && AllProper(ts[1..]))
  }

  lemma {:induction false} WholeProper(I: Interp, cx: Ctx, o: Oracle, t: Ty)
    requires Whole(I, cx, o, t)
    ensures Proper(t)
    decreases t, 0
  {
    match t
    case Nullable(inner) => WholeProper(I, cx, o, inner);
    case Intersection(parts) => AllWholeProper(I, cx, o, parts);
    case NotNull(original) => WholeProper(I, cx, o, original);
    case _ =>
  }

  lemma {:induction false} AllWholeProper(I: Interp, cx: Ctx, o: Oracle, ts: seq<Ty>)
    requires AllWhole(I, cx, o, ts)
    ensures AllProper(ts)
    decreases ts, 1
  {
    if ts != [] {
      WholeProper(I, cx, o, ts[0]);
      AllWholeProper(I, cx, o, ts[1..]);
    }
  }

  /** A core that decomposing leaves. */
  predicate CoreForm(t: Ty)
  {
    Proper(t) && !t.Nullable? && !t.Intersection? && !t.Null?
  }

  ghost predicate NullInAll(I: Interp, pieces: seq<Piece>)
  {
    forall p <- pieces :: InPiece(I, NullValue, p)
  }

  predicate CoreForms(pieces: seq<Piece>)
  {
    forall p <- pieces :: CoreForm(p.core)
  }

  /** Null is in a type exactly when it is in all its pieces. */
  lemma {:induction false} DecomposeNull(I: Interp, t: Ty, inherited: bool)
    requires Proper(t)
    ensures Decompose(t, inherited) != [] && CoreForms(Decompose(t, inherited))
    ensures NullValue in Den(I, t) || inherited <==> NullInAll(I, Decompose(t, inherited))
    decreases t, 0
  {
    if t.Nullable? {
      DecomposeNull(I, t.inner, true);
    } else if t.Intersection? {
      CommonAt(I, t.parts, NullValue);
      DecomposeAllNull(I, t.parts, inherited);
    } else {
      var pieces := Decompose(t, inherited);
      assert pieces == [pieces[0]] && forall p :: p in pieces <==> p == pieces[0];
      assert InPiece(I, NullValue, pieces[0]) <==> NullValue in Den(I, t) || inherited;
      assert CoreForm(pieces[0].core);
    }
  }

  lemma {:induction false} DecomposeAllNull(I: Interp, parts: seq<Ty>, inherited: bool)
    requires AllProper(parts)
    ensures (parts != [] ==> DecomposeAll(parts, inherited) != []) && CoreForms(DecomposeAll(parts, inherited))
    ensures ShareNull(I, parts) || inherited <==> NullInAll(I, DecomposeAll(parts, inherited))
    decreases parts, 1
  {
    if parts != [] {
      var rest := parts[1..];
      DecomposeNull(I, parts[0], inherited);
      DecomposeAllNull(I, rest, inherited);
      assert ShareNull(I, parts) <==> NullValue in Den(I, parts[0]) && ShareNull(I, rest) by {
        assert forall p :: p in parts <==> p == parts[0] || p in rest;
      }
      NullInBoth(I, Decompose(parts[0], inherited), DecomposeAll(rest, inherited));
    }
  }

  lemma NullInBoth(I: Interp, left: seq<Piece>, right: seq<Piece>)
    ensures NullInAll(I, left + right) <==> NullInAll(I, left) && NullInAll(I, right)
    ensures CoreForms(left + right) <==> CoreForms(left) && CoreForms(right)
  {
    assert forall p :: p in left + right <==> p in left || p in right;
  }

  lemma JoinedHolds(I: Interp, cores: seq<Ty>, v: Value)
    requires cores != []
    ensures v in Den(I, if |cores| == 1 then cores[0] else Intersection(cores)) <==> forall c <- cores :: v in Den(I, c)
  {
    CommonAt(I, cores, v);
    assert |cores| == 1 ==> forall c <- cores :: c == cores[0];
  }

  lemma CoresHold(I: Interp, pieces: seq<Piece>, v: Value)
    ensures (forall c <- Cores(pieces) :: v in Den(I, c)) <==> forall p <- pieces :: v in Den(I, p.core)
  {
    if forall c <- Cores(pieces) :: v in Den(I, c) {
      forall p | p in pieces ensures v in Den(I, p.core) {
        assert p.core in Cores(pieces);
      }
    }
  }

  lemma JoinedHasNull(I: Interp, pieces: seq<Piece>)
    requires pieces != [] && CoreForms(pieces)
    ensures var cores := Cores(pieces);
      var joined := if |cores| == 1 then cores[0] else Intersection(cores);
      && cores != [] && NullValue in Den(I, MakeNullable(joined))
      && (NullValue in Den(I, joined) <==> forall p <- pieces :: NullValue in Den(I, p.core))
  {
    var cores := Cores(pieces);
    assert pieces[0].core in cores;
    assert cores[0] in cores && forall c <- cores :: CoreForm(c);
    MakeNullableHasNull(I, if |cores| == 1 then cores[0] else Intersection(cores));
    JoinedHolds(I, cores, NullValue);
    CoresHold(I, pieces, NullValue);
  }

  /** The canonical form of parts that share null has it exactly when every piece is nullable or every
      core has it. */
  lemma IntersectionHasNull(I: Interp, parts: seq<Ty>)
    requires parts != [] && AllProper(parts) && ShareNull(I, parts)
    ensures var pieces := DecomposeAll(parts, false);
      NullValue in Den(I, MakeIntersection(parts)) <==>
        (forall p <- pieces :: p.nullable) || (forall p <- pieces :: NullValue in Den(I, p.core))
  {
    DecomposeAllNull(I, parts, false);
    JoinedHasNull(I, DecomposeAll(parts, false));
  }

  /** No core has null that its head or the bound it carries rules out. */
  ghost predicate HonestCores(I: Interp, pieces: seq<Piece>)
  {
    forall p <- pieces :: NeverNull(p.core) ==> NullValue !in Den(I, p.core)
  }

  /** Where the parts keep null, their canonical form has the null they share. */
  lemma KeptNull(I: Interp, parts: seq<Ty>)
    requires parts != [] && AllProper(parts) && ShareNull(I, parts) && HonestCores(I, DecomposeAll(parts, false))
    requires KeepsNull(parts)
    ensures NullValue in Den(I, MakeIntersection(parts))
  {
    IntersectionHasNull(I, parts);
    DecomposeAllNull(I, parts, false);
    var pieces := DecomposeAll(parts, false);
    assert forall p <- pieces :: !p.nullable ==> NullValue in Den(I, p.core) by {
      assert forall p <- pieces :: InPiece(I, NullValue, p);
    }
    if !(forall p <- pieces :: p.nullable) {
      forall q | q in pieces ensures NullValue in Den(I, q.core) {
        assert InPiece(I, NullValue, q);
        if q.nullable {
          BareHasNull(I, pieces, q.core);
        }
      }
    }
  }

  lemma BareHasNull(I: Interp, pieces: seq<Piece>, core: Ty)
    requires NullInAll(I, pieces) && Bare(pieces, core)
    ensures NullValue in Den(I, core)
  {
    var p :| p in pieces && !p.nullable && (p.core == core || SameVariable(p.core, core));
    assert InPiece(I, NullValue, p);
  }

  /** The canonical intersection keeps every value all parts share, null included where the parts keep it. */
  lemma MakeIntersectionSound(I: Interp, cx: Ctx, o: Oracle, parts: seq<Ty>, v: Value)
    requires NullFreeHeads(I) && parts != [] && forall p <- parts :: Whole(I, cx, o, p) && v in Den(I, p)
    requires v == NullValue ==> KeepsNull(parts)
    ensures v in Den(I, MakeIntersection(parts))
  {
    DecomposeAllSound(I, cx, o, parts, false, v);
    if v == NullValue {
      WholeAt(I, cx, o, parts);
      AllWholeProper(I, cx, o, parts);
      forall p | p in DecomposeAll(parts, false) && NeverNull(p.core) ensures NullValue !in Den(I, p.core) {
        NeverNullHolds(I, cx, o, p.core);
      }
      KeptNull(I, parts);
    } else {
      var pieces := DecomposeAll(parts, false);
      var cores := Cores(pieces);
      assert pieces[0].core in cores;
      forall c | c in cores ensures v in Den(I, c) {
        var p :| p in pieces && p.core == c;
      }
      CommonAt(I, cores, v);
      MakeNullableKeeps(I, if |cores| == 1 then cores[0] else Intersection(cores), v);
    }
  }

  lemma CoreWhole(I: Interp, cx: Ctx, o: Oracle, pieces: seq<Piece>, c: Ty, v: Value)
    requires forall p <- pieces :: Whole(I, cx, o, p.core) && InPiece(I, v, p)
    requires c in Cores(pieces)
    ensures Whole(I, cx, o, c)
  {
  }

  lemma {:induction t} MakeNullableHasNull(I: Interp, t: Ty)
    requires Proper(t) || t.Intersection?
    ensures NullValue in Den(I, MakeNullable(t))
  {
  }

  lemma {:induction t} MakeNullableKeeps(I: Interp, t: Ty, v: Value)
    requires v in Den(I, t)
    ensures v in Den(I, MakeNullable(t))
  {
  }

  lemma {:induction t} NonNullKeeps(I: Interp, cx: Ctx, o: Oracle, t: Ty, v: Value)
    requires Whole(I, cx, o, t) && v in Den(I, t) && v != NullValue
    ensures Whole(I, cx, o, NonNull(t)) && v in Den(I, NonNull(t))
  {
  }

  // ---------------------------------------------------------------- what the shape operations mean

  lemma {:induction false} MakeNullableMeans(I: Interp, cx: Ctx, o: Oracle, t: Ty)
    requires Whole(I, cx, o, t)
    ensures Den(I, MakeNullable(t)) == Den(I, t) + iset{NullValue}
    decreases t
  {
    if t.NotNull? { MakeNullableMeans(I, cx, o, t.original); }
  }

  lemma {:induction false} NonNullMeans(I: Interp, cx: Ctx, o: Oracle, t: Ty, v: Value)
    requires Whole(I, cx, o, t) && v != NullValue
    ensures v in Den(I, NonNull(t)) <==> v in Den(I, t)
    decreases t
  {
    if t.Nullable? { NonNullMeans(I, cx, o, t.inner, v); }
  }

  ghost predicate InCores(I: Interp, pieces: seq<Piece>, v: Value)
  {
    forall p <- pieces :: v in Den(I, p.core)
  }

  lemma InBothCores(I: Interp, left: seq<Piece>, right: seq<Piece>, v: Value)
    ensures InCores(I, left + right, v) <==> InCores(I, left, v) && InCores(I, right, v)
  {
    assert forall p :: p in left + right <==> p in left || p in right;
  }

  lemma {:induction false} DecomposeMeans(I: Interp, t: Ty, inherited: bool, v: Value)
    requires Proper(t) && v != NullValue
    ensures v in Den(I, t) <==> InCores(I, Decompose(t, inherited), v)
    decreases t, 0
  {
    if t.Nullable? {
      DecomposeMeans(I, t.inner, true, v);
    } else if t.Intersection? {
      CommonAt(I, t.parts, v);
      DecomposeAllMeans(I, t.parts, inherited, v);
    } else {
      var pieces := Decompose(t, inherited);
      assert pieces == [pieces[0]] && forall p :: p in pieces <==> p == pieces[0];
    }
  }

  lemma {:induction false} DecomposeAllMeans(I: Interp, parts: seq<Ty>, inherited: bool, v: Value)
    requires AllProper(parts) && v != NullValue
    ensures InAll(I, parts, v) <==> InCores(I, DecomposeAll(parts, inherited), v)
    decreases parts, 1
  {
    if parts != [] {
      var rest := parts[1..];
      DecomposeMeans(I, parts[0], inherited, v);
      DecomposeAllMeans(I, rest, inherited, v);
      InBothCores(I, Decompose(parts[0], inherited), DecomposeAll(rest, inherited), v);
      assert InAll(I, parts, v) <==> v in Den(I, parts[0]) && InAll(I, rest, v) by {
        assert forall p :: p in parts <==> p == parts[0] || p in rest;
      }
    }
  }

  lemma {:induction t} MakeNullableAdds(I: Interp, t: Ty, v: Value)
    requires v != NullValue && (Proper(t) || t.Intersection?)
    ensures v in Den(I, MakeNullable(t)) <==> v in Den(I, t)
  {
  }

  /** Null apart, the canonical intersection has exactly the values all parts share. */
  lemma MakeIntersectionMeans(I: Interp, parts: seq<Ty>, v: Value)
    requires parts != [] && AllProper(parts) && v != NullValue
    ensures v in Den(I, MakeIntersection(parts)) <==> InAll(I, parts, v)
  {
    var pieces := DecomposeAll(parts, false);
    DecomposeAllNull(I, parts, false);
    DecomposeAllMeans(I, parts, false, v);
    if exists p <- pieces :: p.core == Nothing {
      assert !InCores(I, pieces, v);
    } else {
      var cores := Cores(pieces);
      JoinedHasNull(I, pieces);
      assert forall c <- cores :: CoreForm(c);
      JoinedHolds(I, cores, v);
      CoresHold(I, pieces, v);
      assert cores[0] in cores;
      MakeNullableAdds(I, if |cores| == 1 then cores[0] else Intersection(cores), v);
    }
  }
}
