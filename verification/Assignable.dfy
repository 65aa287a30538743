/** The assignability relation (`assignable_inner` and what it calls, src/assignable.rs:69-570). */
module Assignable {
  import opened Options
  import opened Types
  import opened Hierarchy
  import opened Flexible

  /** The answer of a comparison, or `Exhausted` when the source would recurse deeper than allowed. */
  datatype Answer = Yes | No | Exhausted

  function Decide(b: bool): Answer { if b then Yes else No }

  /** `left && right`, whose right side is not evaluated after a `No`. */
  function Both(left: Answer, right: Answer): Answer { if left.Yes? then right else left }

  /** `left || right`, whose right side is not evaluated after a `Yes`. */
  function Either(left: Answer, right: Answer): Answer { if left.No? then right else left }

  /** Inferred type-variable bindings. */
  type Ctx = map<Symbol, Ty>

  /** The intersection of the bound a variable carries and the bounds it declares. `tighten` takes
      the non-null form of each. */
  function DeclaredUpper(o: Oracle, symbol: Symbol, bound: Ty, tighten: bool): Ty
  {
    var declared := o.variableBounds(symbol);
    if declared == [] then Shape(bound, tighten)
    else MakeIntersection(ShapeAll([bound] + declared, tighten))
  }

  function Shape(t: Ty, tighten: bool): Ty { if tighten then NonNull(t) else t }

  function ShapeAll(ts: seq<Ty>, tighten: bool): (r: seq<Ty>)
    ensures |r| == |ts| && forall i :: 0 <= i < |ts| ==> r[i] == Shape(ts[i], tighten)
  {
    seq(|ts|, i requires 0 <= i < |ts| => Shape(ts[i], tighten))
  }

  /** What stands above a source variable: its inferred binding, or else its bounds. */
  function UpperOf(cx: Ctx, o: Oracle, v: Ty): Ty
    requires v.Variable?
  {
    if v.symbol in cx then cx[v.symbol] else DeclaredUpper(o, v.symbol, v.bound, false)
  }

  /** The declared bounds of a classifier's parameter, `Any?` when it declares none. */
  function ReadableBounds(o: Oracle, owner: Option<Name>, index: nat): (r: seq<Ty>)
    ensures r != []
  {
    if owner.Some? && o.upperBounds(owner.value, index) != [] then o.upperBounds(owner.value, index) else [NULLABLE_ANY]
  }

  /** A use-site projection or a flexible interval, which is consumed before its content is compared. */
  predicate Flexing(t: Ty)
  {
    (t.Projection? && t.mode != Raw) || t.Platform? || t.Mutability?
  }

  /** Which group of arms decides a comparison. */
  datatype Arm = Always | Never | ByNotNull | ByComposite | ByFlexible | ByNullable | ByVariable | ByShape

  /** The source's order of arms: a group decides alone once its condition is the first to hold. */
  function ArmOf(sub: Ty, sup: Ty): Arm
  {
    if sub == sup || SameVariable(sub, sup) then Always
    else if sub.NotNull? then ByNotNull
    else if sub.Error? || sup.Error? || sub.Nothing? then Always
    else if sup.NotNull? || sup.Intersection? || sub.Intersection? then ByComposite
    else if Flexing(sub) || Flexing(sup) then ByFlexible
    else if sub.Null? then (if sup.Nullable? then Always else Never)
    else if sup.Nullable? then ByNullable
    else if sub.Nullable? then Never
    else if sub.Variable? || sup.Variable? then ByVariable
    else if IsAny(sup) then Always
    else if IsScalar(sup) then Never
    else ByShape
  }

  /** One comparison, `n` levels deep at most. */
  function Assign(n: nat, cx: Ctx, o: Oracle, sub: Ty, sup: Ty): Answer
    decreases n, 0
  {
    if n == 0 then Exhausted
    else
      match ArmOf(sub, sup)
      case Always => Yes
      case Never => No
      case ByNotNull => AssignNotNull(n - 1, cx, o, sub, sup)
      case ByComposite => AssignComposite(n - 1, cx, o, sub, sup)
      case ByFlexible => AssignFlexible(n - 1, cx, o, sub, sup)
      case ByNullable => AssignToNullable(n - 1, cx, o, sub, sup)
      case ByVariable => AssignVariable(n - 1, cx, o, sub, sup)
      case ByShape => AssignShape(n - 1, cx, o, sub, sup)
  }

  function AssignComposite(m: nat, cx: Ctx, o: Oracle, sub: Ty, sup: Ty): Answer
    requires sup.NotNull? || sup.Intersection? || sub.Intersection?
    decreases m, 2
  {
    if sup.NotNull? then Both(Assign(m, cx, o, sub, sup.original), Assign(m, cx, o, sub, ANY))
    else if sup.Intersection? then AssignEach(m, cx, o, sub, sup.parts)
    else AssignSome(m, cx, o, sub.parts, sup)
  }

  function AssignFlexible(m: nat, cx: Ctx, o: Oracle, sub: Ty, sup: Ty): Answer
    requires Flexing(sub) || Flexing(sup)
    decreases m, 1
  {
    if sup.Projection? && sup.mode != Raw then Assign(m, cx, o, sub, sup.inner)
    else if sub.Projection? && sub.mode != Raw then Assign(m, cx, o, sub.inner, sup)
    else if sup.Platform? then Assign(m, cx, o, sub, MakeNullable(UpperFace(o, sup.inner)))
    else if sub.Platform? then Either(Assign(m, cx, o, sub.inner, sup), Assign(m, cx, o, MakeNullable(sub.inner), sup))
    else if sup.Mutability? then Assign(m, cx, o, sub, o.readOnlyFace(sup.inner))
    else Assign(m, cx, o, sub.inner, sup)
  }

  /** `T & Any` as a source: through `T`, or through the non-null form of its bounds. */
  function AssignNotNull(m: nat, cx: Ctx, o: Oracle, sub: Ty, sup: Ty): Answer
    requires sub.NotNull?
    decreases m, 1
  {
    var original := sub.original;
    Either(
      Assign(m, cx, o, original, sup),
      if original.Variable? then
        var tightened := DeclaredUpper(o, original.symbol, original.bound, true);
        if tightened == original then No else Assign(m, cx, o, tightened, sup)
      else No)
  }

  /** Every component of a target intersection, in order. */
  function AssignEach(m: nat, cx: Ctx, o: Oracle, sub: Ty, parts: seq<Ty>): Answer
    decreases m, 1, 1, |parts|
  {
    if parts == [] then Yes
    else Both(Assign(m, cx, o, sub, parts[0]), AssignEach(m, cx, o, sub, parts[1..]))
  }

  /** Some component of a list of sources, in order. */
  function AssignSome(m: nat, cx: Ctx, o: Oracle, parts: seq<Ty>, sup: Ty): Answer
    decreases m, 1, 1, |parts|
  {
    if parts == [] then No
    else Either(Assign(m, cx, o, parts[0], sup), AssignSome(m, cx, o, parts[1..], sup))
  }

  /** Every one of a list of sources, in order. */
  function AssignAll(m: nat, cx: Ctx, o: Oracle, subs: seq<Ty>, sup: Ty): Answer
    decreases m, 1, 1, |subs|
  {
    if subs == [] then Yes
    else Both(Assign(m, cx, o, subs[0], sup), AssignAll(m, cx, o, subs[1..], sup))
  }

  function AssignToNullable(m: nat, cx: Ctx, o: Oracle, sub: Ty, sup: Ty): Answer
    requires sup.Nullable?
    decreases m, 2
  {
    if sub.Nullable? then Assign(m, cx, o, sub.inner, sup)
    else if SameVariable(sub, sup.inner) then Yes
    else if sub.Variable? then AssignUpper(m, cx, o, sub, sup)
    else Assign(m, cx, o, NonNull(sub), sup.inner)
  }

  function AssignUpper(m: nat, cx: Ctx, o: Oracle, sub: Ty, sup: Ty): Answer
    requires sub.Variable?
    decreases m, 1
  {
    var upper := UpperOf(cx, o, sub);
    if upper == sub then No else Assign(m, cx, o, upper, sup)
  }

  function AssignVariable(m: nat, cx: Ctx, o: Oracle, sub: Ty, sup: Ty): Answer
    requires sub.Variable? || sup.Variable?
    decreases m, 2
  {
    if sub.Variable? && sup.Variable? && sub.symbol != sup.symbol then AssignUpper(m, cx, o, sub, sup)
    else if sup.Variable? then
      if sup.symbol in cx && cx[sup.symbol] != sup then Assign(m, cx, o, sub, cx[sup.symbol]) else No
    else AssignUpper(m, cx, o, sub, sup)
  }

  /** The declared function classifier of a function type's signature. */
  function FunctionApplication(t: Ty): Ty
    requires t.Fun?
  {
    Obj(FunctionClass(|t.params|, t.isSuspend), t.params + [t.ret])
  }

  function AssignShape(m: nat, cx: Ctx, o: Oracle, sub: Ty, sup: Ty): Answer
    decreases m, 5
  {
    if sub.Obj? && sup.Fun? then AssignObject(m, cx, o, sub, FunctionApplication(sup))
    else if sub.Fun? && sup.Fun? then
      if |sub.params| == |sup.params| && (!sub.isSuspend || sup.isSuspend) then
        Both(AssignPairs(m, cx, o, sup.params, sub.params), Assign(m, cx, o, sub.ret, sup.ret))
      else No
    else if (sub.Obj? || sub.Fun?) && sup.Obj? then AssignObject(m, cx, o, sub, sup)
    else Decide(AppliedSupertype(o, sub, sup).Some?)
  }

  function AssignPairs(m: nat, cx: Ctx, o: Oracle, subs: seq<Ty>, sups: seq<Ty>): Answer
    requires |subs| == |sups|
    decreases m, 1, 1, |subs|
  {
    if subs == [] then Yes
    else Both(Assign(m, cx, o, subs[0], sups[0]), AssignPairs(m, cx, o, subs[1..], sups[1..]))
  }

  function AssignObject(m: nat, cx: Ctx, o: Oracle, sub: Ty, sup: Ty): Answer
    decreases m, 4
  {
    var applied := AppliedSupertype(o, sub, sup);
    if applied.None? then No
    else
      var expected, actual := TypeArgs(sup), TypeArgs(applied.value);
      if expected != [] && |expected| != |actual| then No
      else ArgumentsFit(m, cx, o, ObjectName(sup), 0, expected, actual)
  }

  /** Arguments from `index` on; `expected` may be empty for a bare target. */
  function ArgumentsFit(
      m: nat, cx: Ctx, o: Oracle, owner: Option<Name>, index: nat, expected: seq<Ty>, actual: seq<Ty>): Answer
    decreases m, 3, |expected|
  {
    if expected == [] || actual == [] then Yes
    else Both(
      ArgumentFits(m, cx, o, owner, index, expected[0], actual[0]),
      ArgumentsFit(m, cx, o, owner, index + 1, expected[1..], actual[1..]))
  }

  function ArgumentFits(m: nat, cx: Ctx, o: Oracle, owner: Option<Name>, index: nat, p: Ty, given: Ty): Answer
    decreases m, 2
  {
    var a := if IsRaw(given) then given.inner else given;
    if p.Projection? then ProjectionFits(m, cx, o, owner, index, p, a)
    else
      match (if owner.Some? then o.variance(owner.value, index) else Invariant)
      case Covariant => Assign(m, cx, o, a, p)
      case Contravariant => Assign(m, cx, o, p, a)
      case Invariant => InvariantFits(m, cx, o, owner, index, p, a)
  }

  function ProjectionFits(m: nat, cx: Ctx, o: Oracle, owner: Option<Name>, index: nat, p: Ty, a: Ty): Answer
    requires p.Projection?
    decreases m, 1, 2
  {
    match p.mode
    case Star => Yes
    case Raw => Yes
    case Out =>
      if IsIn(a) then AssignSome(m, cx, o, ReadableBounds(o, owner, index), p.inner)
      else Assign(m, Capture(cx, o, p.inner, a), o, Unprojected(a), p.inner)
    case In =>
      if IsOut(a) || IsStar(a) then Decide(p.inner.Nothing?)
      else Assign(m, cx, o, p.inner, Unprojected(a))
  }

  function InvariantFits(m: nat, cx: Ctx, o: Oracle, owner: Option<Name>, index: nat, p: Ty, a: Ty): Answer
    decreases m, 1, 2
  {
    if IsIn(a) then Both(Assign(m, cx, o, p, a.inner), AssignAll(m, cx, o, ReadableBounds(o, owner, index), p))
    else SameResolved(o, Resolve(m, cx, a, a), Resolve(m, cx, p, p))
  }

  function SameResolved(o: Oracle, left: Option<Ty>, right: Option<Ty>): Answer
  {
    if left.None? || right.None? then Exhausted else Decide(SameFlexible(o, left.value, right.value))
  }

  /** Follow bindings from a variable until one is missing or leads back to where it started. */
  function Resolve(m: nat, cx: Ctx, current: Ty, origin: Ty): Option<Ty>
    decreases m
  {
    if !current.Variable? || current.symbol !in cx then Some(current)
    else
      var next := cx[current.symbol];
      if next == current || next == origin then Some(current)
      else if m == 0 then None
      else Resolve(m - 1, cx, next, origin)
  }

  /** Bind the unbound variables of an `out` bound to the matching pieces of the actual argument. */
  function Capture(cx: Ctx, o: Oracle, template: Ty, actual: Ty): Ctx
    decreases template, 0
  {
    match template
    case Variable(_, symbol, _) =>
      if symbol !in cx && actual != template then cx[symbol := Unprojected(actual)] else cx
    case Obj(_, args) =>
      var applied := AppliedSupertype(o, actual, template);
      if applied.None? then cx else CaptureEach(cx, o, args, TypeArgs(applied.value))
    case Fun(params, ret, _, _, _) =>
      var function_ := Unprojected(actual);
      if !function_.Fun? then cx
      else Capture(CaptureEach(cx, o, params, function_.params), o, ret, function_.ret)
    case NotNull(original) => Capture(cx, o, original, NonNull(Unprojected(actual)))
    case Nullable(inner) => Capture(cx, o, inner, NonNull(Unprojected(actual)))
    case Platform(inner) => Capture(cx, o, inner, NonNull(Unprojected(actual)))
    case Mutability(inner) => Capture(cx, o, inner, NonNull(Unprojected(actual)))
    case Projection(_, inner) => Capture(cx, o, inner, NonNull(Unprojected(actual)))
    case Intersection(parts) => CaptureParts(cx, o, parts, actual)
    case _ => cx
  }

  function CaptureEach(cx: Ctx, o: Oracle, templates: seq<Ty>, actuals: seq<Ty>): Ctx
    decreases templates, 1
  {
    if templates == [] || actuals == [] then cx
    else CaptureEach(Capture(cx, o, templates[0], actuals[0]), o, templates[1..], actuals[1..])
  }

  function CaptureParts(cx: Ctx, o: Oracle, parts: seq<Ty>, actual: Ty): Ctx
    decreases parts, 1
  {
    if parts == [] then cx
    else CaptureParts(Capture(cx, o, parts[0], actual), o, parts[1..], actual)
  }
}
