/** The structural view of Kotlin types that assignability takes apart (src/types/ty_kind.rs), and
    the shape operations the relation uses (src/types.rs, src/types/intersection.rs).

    Two groups of source variants that the relation treats alike are one constructor each here:
    `Variable` is a declared type parameter or an inference variable, told apart by `inference`;
    `Projection` is a use-site projection or a raw argument, told apart by `mode`. */
module Types {

  import opened Options

  datatype ScalarKind =
    IntK | ByteK | ShortK | LongK | FloatK | DoubleK | BooleanK | CharK | UByteK | UShortK | UIntK | ULongK

  /** Classifier identities. Those the relation mentions by name have their own constructor. */
  datatype Name =
    | AnyClass
    | JavaObject
    | ArrayClass
    | Scalar(kind: ScalarKind)
    | FunctionClass(arity: nat, isSuspend: bool)
    | Class(id: nat)

  type Symbol = nat

  datatype Mode = In | Out | Star | Raw

  datatype Ty =
    | Unit
    | Null
    | Nothing
    | Error
    | Pending
    | Obj(name: Name, args: seq<Ty>)
    | Fun(params: seq<Ty>, ret: Ty, contexts: nat, receiver: bool, isSuspend: bool)
    | Nullable(inner: Ty)
    | Platform(inner: Ty)
    | Mutability(inner: Ty)
    | Projection(mode: Mode, inner: Ty)
    | Variable(inference: bool, symbol: Symbol, bound: Ty)
    | NotNull(original: Ty)
    | Intersection(parts: seq<Ty>)

  const ANY: Ty := Obj(AnyClass, [])
  const NULLABLE_ANY: Ty := Nullable(ANY)

  /** `T?`: idempotent, and it reopens `T & Any` and `T!`. */
  function MakeNullable(t: Ty): Ty
  {
    match t
    case NotNull(original) => MakeNullable(original)
    case Nullable(_) => t
    case Null => t
    case Error => t
    case Platform(inner) => Nullable(inner)
    case _ => Nullable(t)
  }

  function NonNull(t: Ty): Ty
  {
    match t
    case Nullable(inner) => NonNull(inner)
    case Platform(inner) => NonNull(inner)
    case Mutability(inner) => inner
    case _ => t
  }

  /** The class identity a source-level lookup reads off a type. */
  function ClassName(t: Ty): Option<Name>
  {
    match t
    case Obj(name, _) => Some(name)
    case NotNull(original) => ClassName(original)
    case Nullable(inner) => ClassName(inner)
    case Platform(inner) => ClassName(inner)
    case Mutability(inner) => ClassName(inner)
    case Variable(_, _, bound) => ClassName(bound)
    case _ => None
  }

  function ObjectName(t: Ty): Option<Name>
  {
    match t
    case Obj(name, _) => Some(name)
    case NotNull(original) => ObjectName(original)
    case Platform(inner) => ObjectName(inner)
    case Mutability(inner) => ObjectName(inner)
    case Variable(_, _, bound) => ObjectName(bound)
    case _ => None
  }

  function TypeArgs(t: Ty): seq<Ty>
  {
    match t
    case Obj(_, args) => args
    case Platform(inner) => TypeArgs(inner)
    case Mutability(inner) => TypeArgs(inner)
    case Variable(_, _, bound) => TypeArgs(bound)
    case _ => []
  }

  /** The type under an `in`, `out` or star projection; every other type is itself. */
  function Unprojected(t: Ty): Ty
  {
    if t.Projection? && t.mode != Raw then t.inner else t
  }

  predicate IsAny(t: Ty)
  {
    t.Obj? && (t.name == AnyClass || t.name == JavaObject)
  }

  predicate IsScalar(t: Ty)
  {
    t.Obj? && t.name.Scalar? && t.args == []
  }

  predicate SameVariable(left: Ty, right: Ty)
  {
    left.Variable? && right.Variable? && left.inference == right.inference && left.symbol == right.symbol
  }

  /** Whether following a chain of carried bounds ends at a type that admits null. A symbol met
      before ends the chain. */
  function BoundAdmitsNull(t: Ty, seen: set<Symbol>): bool
  {
    match t
    case Nullable(_) => true
    case Platform(_) => true
    case Null => true
    case Variable(_, symbol, bound) => symbol !in seen && BoundAdmitsNull(bound, seen + {symbol})
    case _ => false
  }

  // ---------------------------------------------------------------- intersections

  /** One component of an intersection being built: its core and whether `?` was stripped from it. */
  datatype Piece = Piece(core: Ty, nullable: bool)

  function Decompose(t: Ty, inherited: bool): seq<Piece>
    decreases t, 0
  {
    match t
    case Error => []
    case Nullable(inner) => Decompose(inner, true)
    case Platform(inner) => Decompose(inner, true)
    case Mutability(inner) => Decompose(inner, inherited)
    case Intersection(parts) => DecomposeAll(parts, inherited)
    case Null => [Piece(Nothing, true)]
    case _ => [Piece(t, inherited)]
  }

  function DecomposeAll(parts: seq<Ty>, inherited: bool): seq<Piece>
    decreases parts, 1
  {
    if parts == [] then [] else Decompose(parts[0], inherited) + DecomposeAll(parts[1..], inherited)
  }

  /** The distinct cores, each at its first occurrence. */
  function Cores(pieces: seq<Piece>): (r: seq<Ty>)
    ensures forall c :: c in r <==> exists p <- pieces :: p.core == c
    ensures forall i, j :: 0 <= i < j < |r| ==> r[i] != r[j]
  {
    if pieces == [] then []
    else
      var before := Cores(pieces[..|pieces| - 1]);
      var core := pieces[|pieces| - 1].core;
      assert pieces == pieces[..|pieces| - 1] + [pieces[|pieces| - 1]];
      if core in before then before else before + [core]
  }

  /** `A & B & ...`, before its components are put in name order. */
  function MakeIntersection(parts: seq<Ty>): Ty
  {
    var pieces := DecomposeAll(parts, false);
    var allNullable := forall p <- pieces :: p.nullable;
    if pieces == [] then Nothing
    else if exists p <- pieces :: p.core == Nothing then
      if allNullable then Nullable(Nothing) else Nothing
    else
      var cores := Cores(pieces);
      var joined := if |cores| == 1 then cores[0] else Intersection(cores);
      if allNullable then MakeNullable(joined) else joined
  }

  // ---------------------------------------------------------------- height

  function Max(a: nat, b: nat): nat { if a >= b then a else b }

  /** The nesting height of a type's spelling. A platform type counts the nullable upper face it may
      be read as. */
  function Height(t: Ty): (h: nat)
    ensures h >= 1
    decreases t, 0
  {
    match t
    case Obj(_, args) => 1 + MaxHeight(args)
    case Fun(params, ret, _, _, _) => 1 + Max(MaxHeight(params), Height(ret))
    case Nullable(inner) => 1 + Height(inner)
    case Platform(inner) => 3 + Height(inner)
    case Mutability(inner) => 1 + Height(inner)
    case Projection(_, inner) => 1 + Height(inner)
    case Variable(_, _, bound) => 1 + Height(bound)
    case NotNull(original) => 1 + Height(original)
    case Intersection(parts) => 1 + MaxHeight(parts)
    case _ => 1
  }

  function MaxHeight(ts: seq<Ty>): nat
    decreases ts, 1
  {
    if ts == [] then 0 else Max(Height(ts[0]), MaxHeight(ts[1..]))
  }

  lemma MakeNullableHeight(t: Ty)
    ensures Height(MakeNullable(t)) <= Height(t) + 1
  {
  }
}
