/** Folding integer constants in their source width (src/integer_constant.rs:57-148). */
module IntegerConstant {
  import opened Options
  import Types

  const WIDTH := 0x1_0000_0000
  const I32_MIN := -0x8000_0000

  type I32 = x: int | -0x8000_0000 <= x < 0x8000_0000
  type U64 = x: nat | x < 0x1_0000_0000_0000_0000

  datatype Constant = Signed(value: I32) | Unsigned(magnitude: U64) | DivisionByZero

  datatype Op = Add | Subtract | Multiply | Divide | Remainder

  // ---------------------------------------------------------------- machine arithmetic

  /** The 32-bit two's complement value congruent to `n`. */
  function Wrap(n: int): I32 { (n + 0x8000_0000) % WIDTH - 0x8000_0000 }

  /** Division towards zero, and what it leaves. */
  function Quotient(a: int, b: int): int
    requires b != 0
  {
    if a >= 0 then a / b else -((-a) / b)
  }

  function Rest(a: int, b: int): int
    requires b != 0
  {
    a - Quotient(a, b) * b
  }

  lemma Product(q: int, b: int)
    requires b >= 1
    ensures q >= 1 ==> q * b >= q && q * b >= b && (b >= 2 ==> q * b >= 2 * q)
    ensures q <= -1 ==> q * b <= q && q * b <= -b && (b >= 2 ==> q * b <= 2 * q)
  {
    assert q * b == q * (b - 1) + q == (q - 1) * b + b == (q + 1) * b - b;
    assert b >= 2 ==> q * b == q * (b - 2) + 2 * q;
  }

  /** Euclidean division of a natural number. */
  lemma Magnitude(a: nat, b: int)
    requires b != 0
    ensures var q: int := a / b;
      && a == q * b + a % b
      && (b > 0 ==> 0 <= q <= a) && (b < 0 ==> 0 <= -q <= a)
      && (b >= 2 ==> 2 * q <= a) && (b <= -2 ==> -2 * q <= a)
  {
    var q: int, r := a / b, a % b;
    assert a == q * b + r;
    assert q * b == (-q) * (-b);
    if b > 0 {
      Product(q, b);
    } else {
      Product(-q, -b);
    }
  }

  /** The remainder is smaller than the divisor and takes the dividend's sign. */
  lemma RestBounds(a: int, b: int)
    requires b != 0
    ensures -(if b < 0 then -b else b) < Rest(a, b) < if b < 0 then -b else b
    ensures (a >= 0 ==> Rest(a, b) >= 0) && (a <= 0 ==> Rest(a, b) <= 0)
  {
    if a >= 0 {
      Magnitude(a, b);
    } else {
      Magnitude(-a, b);
      var q := (-a) / b;
      assert (-q) * b == -(q * b);
    }
  }

  lemma QuotientFits(a: I32, b: I32)
    requires b != 0 && !(a == I32_MIN && b == -1)
    ensures -0x8000_0000 <= Quotient(a, b) < 0x8000_0000
  {
    var n: int := a;
    if n >= 0 {
      Magnitude(n, b);
    } else {
      Magnitude(-n, b);
    }
  }

  function CheckedDivide(a: I32, b: I32): Option<I32>
  {
    if b == 0 || (a == I32_MIN && b == -1) then None
    else
      QuotientFits(a, b);
      Some(Quotient(a, b))
  }

  function CheckedRemainder(a: I32, b: I32): Option<I32>
  {
    if b == 0 || (a == I32_MIN && b == -1) then None
    else
      RestBounds(a, b);
      Some(Rest(a, b))
  }

  // ---------------------------------------------------------------- folding

  function FoldSigned(op: Op, a: I32, b: I32): Option<I32>
  {
    match op
    case Add => Some(Wrap(a + b))
    case Subtract => Some(Wrap(a - b))
    case Multiply => Some(Wrap(a * b))
    case Divide =>
      var q := CheckedDivide(a, b);
      if q.Some? then q else if a == I32_MIN && b == -1 then Some(I32_MIN) else None
    case Remainder =>
      var r := CheckedRemainder(a, b);
      if r.Some? then r else if a == I32_MIN && b == -1 then Some(0) else None
  }

  function FoldUnsigned(op: Op, a: nat, b: nat): (r: Option<nat>)
    requires a < WIDTH && b < WIDTH
    ensures r.Some? ==> r.value < WIDTH
  {
    match op
    case Add => Some((a + b) % WIDTH)
    case Subtract => Some((a - b) % WIDTH)
    case Multiply => Some((a * b) % WIDTH)
    case Divide => if b == 0 then None else (Magnitude(a, b); Some(a / b))
    case Remainder => if b == 0 then None else Some(a % b)
  }

  predicate Divides(op: Op) { op.Divide? || op.Remainder? }

  function Fold(left: Constant, op: Op, right: Constant): Option<Constant>
  {
    if left.DivisionByZero? && !right.Unsigned? then Some(DivisionByZero)
    else if left.Signed? && right.DivisionByZero? then Some(DivisionByZero)
    else if left.Signed? && right.Signed? then
      if Divides(op) && right.value == 0 then Some(DivisionByZero)
      else
        var value := FoldSigned(op, left.value, right.value);
        if value.None? then None else Some(Signed(value.value))
    else if left.Unsigned? && right.Unsigned? then
      if left.magnitude >= WIDTH || right.magnitude >= WIDTH then None
      else
        var value := FoldUnsigned(op, left.magnitude, right.magnitude);
        if value.None? then None else Some(Unsigned(value.value))
    else None
  }

  /** A constant expression. */
  datatype Tree = Leaf(constant: Constant) | Node(op: Op, left: Tree, right: Tree)

  function FoldTree(t: Tree): Option<Constant>
  {
    match t
    case Leaf(constant) => Some(constant)
    case Node(op, left, right) =>
      var (a, b) := (FoldTree(left), FoldTree(right));
      if a.None? || b.None? then None else Fold(a.value, op, b.value)
  }

  predicate AllSigned(t: Tree)
  {
    match t
    case Leaf(constant) => !constant.Unsigned?
    case Node(_, left, right) => AllSigned(left) && AllSigned(right)
  }

  predicate AllNumbers(t: Tree)
  {
    match t
    case Leaf(constant) => constant.Signed?
    case Node(_, left, right) => AllNumbers(left) && AllNumbers(right)
  }

  predicate AllUnsigned(t: Tree)
  {
    match t
    case Leaf(constant) => constant.Unsigned?
    case Node(_, left, right) => AllUnsigned(left) && AllUnsigned(right)
  }

  /** Every magnitude is a `UInt`. */
  predicate InWidth(t: Tree)
  {
    match t
    case Leaf(constant) => constant.Unsigned? ==> constant.magnitude < WIDTH
    case Node(_, left, right) => InWidth(left) && InWidth(right)
  }

  predicate Zero(c: Option<Constant>) { c == Some(Signed(0)) || c == Some(Unsigned(0)) }

  /** Some part divides, or takes a remainder, by something that folds to zero. */
  predicate DividesByZero(t: Tree)
  {
    match t
    case Leaf(_) => false
    case Node(op, left, right) => DividesByZero(left) || DividesByZero(right) || (Divides(op) && Zero(FoldTree(right)))
  }

  predicate NoDivision(t: Tree)
  {
    match t
    case Leaf(_) => true
    case Node(op, left, right) => !Divides(op) && NoDivision(left) && NoDivision(right)
  }

  /** The value without any width. */
  function Exact(t: Tree): int
    requires NoDivision(t)
  {
    match t
    case Leaf(constant) =>
      (match constant
       case Signed(value) => value
       case Unsigned(magnitude) => magnitude
       case DivisionByZero => 0)
    case Node(op, left, right) =>
      if op.Add? then Exact(left) + Exact(right)
      else if op.Subtract? then Exact(left) - Exact(right)
      else Exact(left) * Exact(right)
  }

  // ---------------------------------------------------------------- when folding succeeds

  /** Signed arithmetic always folds, to a signed constant or to a division by zero. */
  lemma {:induction false} SignedFolds(t: Tree)
    requires AllSigned(t)
    ensures FoldTree(t).Some? && !FoldTree(t).value.Unsigned?
  {
    if t.Node? {
      SignedFolds(t.left);
      SignedFolds(t.right);
    }
  }

  lemma {:induction false} UnsignedFolds(t: Tree)
    requires AllUnsigned(t) && InWidth(t)
    ensures FoldTree(t).Some? <==> !DividesByZero(t)
    ensures FoldTree(t).Some? ==> FoldTree(t).value.Unsigned? && FoldTree(t).value.magnitude < WIDTH
  {
    if t.Node? {
      UnsignedFolds(t.left);
      UnsignedFolds(t.right);
    }
  }

  /** What folds has leaves of one signedness, and its magnitudes are in width below an operation. */
  lemma {:induction false} FoldedIsUniform(t: Tree)
    requires FoldTree(t).Some?
    ensures if FoldTree(t).value.Unsigned? then AllUnsigned(t) && (t.Leaf? || InWidth(t)) else AllSigned(t)
    ensures t.Node? && FoldTree(t).value.Unsigned? ==> FoldTree(t).value.magnitude < WIDTH
  {
    if t.Node? {
      FoldedIsUniform(t.left);
      FoldedIsUniform(t.right);
    }
  }

  /** An expression folds exactly when it is signed throughout, or unsigned throughout, in width below every
      operation and without a division by zero. */
  lemma FoldsExactly(t: Tree)
    ensures FoldTree(t).Some? <==>
      AllSigned(t) || (AllUnsigned(t) && (t.Leaf? || (InWidth(t) && !DividesByZero(t))))
  {
    if FoldTree(t).Some? {
      FoldedIsUniform(t);
    }
    if AllSigned(t) {
      SignedFolds(t);
    }
    if AllUnsigned(t) && InWidth(t) {
      UnsignedFolds(t);
    }
  }

  /** Signed arithmetic has no magnitude exactly when some part divides by a folded zero. */
  lemma {:induction false} DivisionByZeroExactly(t: Tree)
    requires AllNumbers(t)
    ensures FoldTree(t) == Some(DivisionByZero) <==> DividesByZero(t)
    ensures FoldTree(t).Some? && !FoldTree(t).value.Unsigned?
  {
    if t.Node? {
      DivisionByZeroExactly(t.left);
      DivisionByZeroExactly(t.right);
    }
  }

  // ---------------------------------------------------------------- wrapping once

  lemma WrapShift(n: int, k: int)
    ensures Wrap(n + k * WIDTH) == Wrap(n)
  {
  }

  /** How far wrapping moves a value. */
  lemma Wrapped(n: int) returns (k: int)
    ensures n == Wrap(n) + k * WIDTH
  {
    k := (n + 0x8000_0000) / WIDTH;
  }

  lemma WrapSum(a: int, b: int)
    ensures Wrap(Wrap(a) + Wrap(b)) == Wrap(a + b)
    ensures Wrap(Wrap(a) - Wrap(b)) == Wrap(a - b)
  {
    var k := Wrapped(a);
    var l := Wrapped(b);
    WrapShift(Wrap(a) + Wrap(b), k + l);
    WrapShift(Wrap(a) - Wrap(b), k - l);
  }

  lemma WrapProduct(a: int, b: int)
    ensures Wrap(Wrap(a) * Wrap(b)) == Wrap(a * b)
  {
    var k := Wrapped(a);
    var l := Wrapped(b);
    var (x, y) := (Wrap(a), Wrap(b));
    Expand(x, y, k, l);
    WrapShift(x * y, x * l + k * y + k * l * WIDTH);
  }

  lemma Expand(x: int, y: int, k: int, l: int)
    ensures (x + k * WIDTH) * (y + l * WIDTH) == x * y + (x * l + k * y + k * l * WIDTH) * WIDTH
  {
    var m, n := k * WIDTH, l * WIDTH;
    assert (x + m) * (y + n) == x * y + x * n + m * y + m * n;
    assert x * n == x * l * WIDTH && m * y == k * y * WIDTH && m * n == k * l * WIDTH * WIDTH;
  }

  /** Wrapping at every step is wrapping once: without division, a signed expression folds to its exact
      value reduced to 32 bits. */
  lemma {:induction false} WrapsOnce(t: Tree)
    requires AllNumbers(t) && NoDivision(t)
    ensures FoldTree(t) == Some(Signed(Wrap(Exact(t))))
  {
    if t.Node? {
      WrapsOnce(t.left);
      WrapsOnce(t.right);
      if t.op.Multiply? {
        WrapProduct(Exact(t.left), Exact(t.right));
      } else {
        WrapSum(Exact(t.left), Exact(t.right));
      }
    }
  }

  lemma ModuloShift(n: int, k: int)
    ensures (n + k * WIDTH) % WIDTH == n % WIDTH
  {
  }

  lemma ModuloSteps(a: int, b: int)
    ensures (a % WIDTH + b % WIDTH) % WIDTH == (a + b) % WIDTH
    ensures (a % WIDTH - b % WIDTH) % WIDTH == (a - b) % WIDTH
    ensures (a % WIDTH * (b % WIDTH)) % WIDTH == (a * b) % WIDTH
  {
    var (x, y, k, l) := (a % WIDTH, b % WIDTH, a / WIDTH, b / WIDTH);
    assert a == x + k * WIDTH && b == y + l * WIDTH;
    ModuloShift(x + y, k + l);
    ModuloShift(x - y, k - l);
    Expand(x, y, k, l);
    ModuloShift(x * y, x * l + k * y + k * l * WIDTH);
  }

  /** The same without a sign: the exact value modulo 2^32. */
  lemma {:induction false} UnsignedWrapsOnce(t: Tree)
    requires AllUnsigned(t) && InWidth(t) && NoDivision(t)
    ensures FoldTree(t) == Some(Unsigned(Exact(t) % WIDTH))
  {
    if t.Node? {
      UnsignedWrapsOnce(t.left);
      UnsignedWrapsOnce(t.right);
      ModuloSteps(Exact(t.left), Exact(t.right));
    }
  }

  // ---------------------------------------------------------------- division

  /** Folded back together, quotient times divisor plus remainder is the dividend, also for the minimum
      divided by -1; the quotient is exact everywhere else. */
  lemma DivisionGivesBack(a: I32, b: I32)
    requires b != 0
    ensures var (x, y) := (Leaf(Signed(a)), Leaf(Signed(b)));
      FoldTree(Node(Add, Node(Multiply, Node(Divide, x, y), y), Node(Remainder, x, y))) == Some(Signed(a))
    ensures !(a == I32_MIN && b == -1) ==> FoldSigned(Divide, a, b) == Some(Quotient(a, b))
  {
    var (x, y) := (Leaf(Signed(a)), Leaf(Signed(b)));
    var q, r := FoldSigned(Divide, a, b).value, FoldSigned(Remainder, a, b).value;
    assert FoldTree(Node(Divide, x, y)) == Some(Signed(q)) && FoldTree(Node(Remainder, x, y)) == Some(Signed(r));
    assert FoldTree(Node(Multiply, Node(Divide, x, y), y)) == Some(Signed(Wrap(q * b)));
    PartsGiveBack(a, b, q, r);
  }

  lemma PartsGiveBack(a: I32, b: I32, q: I32, r: I32)
    requires b != 0 && FoldSigned(Divide, a, b) == Some(q) && FoldSigned(Remainder, a, b) == Some(r)
    ensures Wrap(Wrap(q * b) + r) == a
  {
    PartsSum(a, b, q, r);
    WrapPart(q * b, r);
    if a == I32_MIN && b == -1 {
      assert Wrap(0x8000_0000) == I32_MIN;
    } else {
      assert Wrap(a) == a;
    }
  }

  lemma PartsSum(a: I32, b: I32, q: I32, r: I32)
    requires b != 0 && FoldSigned(Divide, a, b) == Some(q) && FoldSigned(Remainder, a, b) == Some(r)
    ensures q * b + r == if a == I32_MIN && b == -1 then 0x8000_0000 else a
  {
    if a == I32_MIN && b == -1 {
      assert q == I32_MIN && r == 0;
    } else {
      assert q == Quotient(a, b) && r == Rest(a, b);
    }
  }

  lemma WrapPart(n: int, r: I32)
    ensures Wrap(Wrap(n) + r) == Wrap(n + r)
  {
    WrapSum(n, r);
    assert Wrap(r) == r;
  }

  /** The same for unsigned numbers, whose remainder is below the divisor. */
  lemma UnsignedDivisionGivesBack(a: U64, b: U64)
    requires a < WIDTH && 0 < b < WIDTH
    ensures var (x, y) := (Leaf(Unsigned(a)), Leaf(Unsigned(b)));
      && FoldTree(Node(Add, Node(Multiply, Node(Divide, x, y), y), Node(Remainder, x, y))) == Some(Unsigned(a))
      && FoldTree(Node(Remainder, x, y)).Some? && FoldTree(Node(Remainder, x, y)).value.magnitude < b
  {
    var (x, y) := (Leaf(Unsigned(a)), Leaf(Unsigned(b)));
    var q, r := FoldUnsigned(Divide, a, b).value, FoldUnsigned(Remainder, a, b).value;
    assert FoldTree(Node(Divide, x, y)) == Some(Unsigned(q)) && FoldTree(Node(Remainder, x, y)) == Some(Unsigned(r));
    UnsignedParts(a, b, q, r);
    assert FoldTree(Node(Multiply, Node(Divide, x, y), y)) == Some(Unsigned(q * b));
  }

  lemma UnsignedParts(a: nat, b: nat, q: nat, r: nat)
    requires a < WIDTH && 0 < b < WIDTH && q < WIDTH && r < WIDTH && q == a / b && r == a % b
    ensures r < b && q * b < WIDTH
    ensures FoldUnsigned(Multiply, q, b) == Some(q * b) && FoldUnsigned(Add, q * b, r) == Some(a)
  {
    Magnitude(a, b);
    var n := q * b;
    assert n + r == a && 0 <= n by {
      Product(q, b);
    }
    assert n % WIDTH == n && (n + r) % WIDTH == a;
  }

  // ---------------------------------------------------------------- ranges

  predicate Fits(c: Constant, target: Types.ScalarKind)
  {
    match c
    case Signed(value) =>
      (match target
       case ByteK => -0x80 <= value < 0x80
       case ShortK => -0x8000 <= value < 0x8000
       case IntK => true
       case LongK => true
       case _ => false)
    case DivisionByZero => target.IntK? || target.LongK?
    case Unsigned(magnitude) =>
      (match target
       case UByteK => magnitude < 0x100
       case UShortK => magnitude < 0x1_0000
       case UIntK => magnitude < WIDTH
       case ULongK => true
       case _ => false)
  }

  /** The bits of an integer type; other types have none. */
  function Bits(target: Types.ScalarKind): Option<nat>
  {
    match target
    case ByteK => Some(8)
    case UByteK => Some(8)
    case ShortK => Some(16)
    case UShortK => Some(16)
    case IntK => Some(32)
    case UIntK => Some(32)
    case LongK => Some(64)
    case ULongK => Some(64)
    case _ => None
  }

  predicate IsUnsigned(target: Types.ScalarKind)
  {
    target.UByteK? || target.UShortK? || target.UIntK? || target.ULongK?
  }

  function Power(n: nat): nat { if n == 0 then 1 else 2 * Power(n - 1) }

  lemma Powers()
    ensures Power(7) == 0x80 && Power(8) == 0x100 && Power(15) == 0x8000 && Power(16) == 0x1_0000
    ensures Power(31) == 0x8000_0000 && Power(32) == WIDTH
    ensures Power(63) == 0x8000_0000 * WIDTH && Power(64) == WIDTH * WIDTH
  {
    assert Power(12) == 0x1000 && Power(20) == 0x10_0000 && Power(28) == 0x1000_0000;
    assert Power(40) == 0x100 * WIDTH && Power(48) == 0x1_0000 * WIDTH && Power(56) == 0x100_0000 * WIDTH;
  }

  predicate InHalves(value: int, half: int) { -half <= value < half }

  /** The powers at the widths there are. */
  lemma Sizes(target: Types.ScalarKind)
    requires Bits(target).Some?
    ensures var b := Bits(target).value;
      && Power(b) == 2 * Power(b - 1)
      && Power(b) == if b == 8 then 0x100 else if b == 16 then 0x1_0000 else if b == 32 then WIDTH else WIDTH * WIDTH
  {
    Powers();
  }

  /** A signed constant fits exactly the signed types whose two's complement range includes it. */
  lemma SignedFits(value: I32, target: Types.ScalarKind)
    ensures Fits(Signed(value), target) <==>
      !IsUnsigned(target) && Bits(target).Some? && InHalves(value, Power(Bits(target).value - 1))
  {
    if Bits(target).Some? { Sizes(target); }
  }

  /** An unsigned constant fits exactly the unsigned types wide enough for its magnitude. */
  lemma UnsignedFits(magnitude: U64, target: Types.ScalarKind)
    ensures Fits(Unsigned(magnitude), target) <==> IsUnsigned(target) && magnitude < Power(Bits(target).value)
  {
    if IsUnsigned(target) { Sizes(target); }
  }

  /** A division by zero fits exactly the types that take every `Int`. */
  lemma DivisionByZeroFits(target: Types.ScalarKind)
    ensures Fits(DivisionByZero, target) <==> forall value: I32 :: Fits(Signed(value), target)
  {
    assert !Fits(Signed(0x7FFF_FFFF), target) || target.IntK? || target.LongK?;
  }

  function Ladder(unsigned: bool): seq<Types.ScalarKind>
  {
    if unsigned then [Types.UByteK, Types.UShortK, Types.UIntK] else [Types.ByteK, Types.ShortK, Types.IntK]
  }

  /** How many rungs of the ladder refuse the constant. */
  function Refusals(c: Constant, ladder: seq<Types.ScalarKind>): nat
  {
    if ladder == [] then 0 else Refusals(c, ladder[..|ladder| - 1]) + if Fits(c, ladder[|ladder| - 1]) then 0 else 1
  }

  /** The last constant refused most often. */
  function LastMost(values: seq<Constant>, ladder: seq<Types.ScalarKind>): (r: Constant)
    requires values != []
    ensures r in values && forall c <- values :: Refusals(c, ladder) <= Refusals(r, ladder)
  {
    var last := values[|values| - 1];
    if |values| == 1 then last
    else
      var before := LastMost(values[..|values| - 1], ladder);
      assert values == values[..|values| - 1] + [last];
      if Refusals(last, ladder) >= Refusals(before, ladder) then last else before
  }

  function Representative(values: seq<Constant>): Option<Constant>
  {
    if values == [] || exists c <- values :: c.Unsigned? != values[0].Unsigned? then None
    else Some(LastMost(values, Ladder(values[0].Unsigned?)))
  }

  lemma RefusalsCount(c: Constant, ladder: seq<Types.ScalarKind>)
    requires |ladder| == 3
    ensures Refusals(c, ladder) ==
      (if Fits(c, ladder[0]) then 0 else 1) + (if Fits(c, ladder[1]) then 0 else 1) +
      (if Fits(c, ladder[2]) then 0 else 1)
  {
    var two := ladder[..2];
    var one := two[..1];
    assert one[..0] == [] && one[0] == ladder[0] && two[1] == ladder[1];
    assert Refusals(c, one) == if Fits(c, ladder[0]) then 0 else 1;
  }

  /** The representative fits a type, of any width, exactly when every constituent does; there is one unless
      the list is empty or mixes signed and unsigned. */
  lemma RepresentativeFits(values: seq<Constant>, target: Types.ScalarKind)
    ensures Representative(values).Some? <==>
      values != [] && ((forall c <- values :: c.Unsigned?) || (forall c <- values :: !c.Unsigned?))
    ensures Representative(values).Some? ==>
      Representative(values).value in values
      && (Fits(Representative(values).value, target) <==> forall c <- values :: Fits(c, target))
  {
    if values != [] {
      assert values[0] in values;
      assert (exists c <- values :: c.Unsigned? != values[0].Unsigned?) <==>
        !((forall c <- values :: c.Unsigned?) || (forall c <- values :: !c.Unsigned?));
    }
    if Representative(values).Some? {
      var unsigned := values[0].Unsigned?;
      var r := Representative(values).value;
      forall c | c in values && Fits(r, target) ensures Fits(c, target) {
        RefusalsCount(c, Ladder(unsigned));
        RefusalsCount(r, Ladder(unsigned));
      }
    }
  }

  /** A constituent is more narrowly typed: some type takes it and not `r`. */
  ghost predicate Narrower(c: Constant, r: Constant)
  {
    exists target :: Fits(c, target) && !Fits(r, target)
  }

  lemma {:induction false} LastMostIs(values: seq<Constant>, ladder: seq<Types.ScalarKind>) returns (i: nat)
    requires values != []
    ensures i < |values| && values[i] == LastMost(values, ladder)
    ensures forall j :: i < j < |values| ==> Refusals(values[j], ladder) < Refusals(values[i], ladder)
  {
    var n := |values| - 1;
    i := n;
    if n > 0 && Refusals(values[n], ladder) < Refusals(LastMost(values[..n], ladder), ladder) {
      i := LastMostIs(values[..n], ladder);
      assert forall j :: i < j < n ==> values[..n][j] == values[j];
    }
  }

  /** Of the constituents no type tells apart from it, the representative is the last. */
  lemma RepresentativeLast(values: seq<Constant>) returns (i: nat)
    requires Representative(values).Some?
    ensures i < |values| && Representative(values) == Some(values[i])
    ensures forall j :: i < j < |values| ==> Narrower(values[j], values[i])
  {
    var ladder := Ladder(values[0].Unsigned?);
    i := LastMostIs(values, ladder);
    forall j | i < j < |values| ensures Narrower(values[j], values[i]) {
      RefusalsCount(values[j], ladder);
      RefusalsCount(values[i], ladder);
      var k :| 0 <= k < 3 && Fits(values[j], ladder[k]) && !Fits(values[i], ladder[k]);
    }
  }
}
