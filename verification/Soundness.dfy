/** Assignability read as inclusion of value sets: a `Yes` is an inclusion in every interpretation closed
    under the hierarchy. */
module Soundness {
  import opened Options
  import opened Types
  import opened Hierarchy
  import opened Flexible
  import opened Assignable
  import opened Termination
  import opened Meaning

  // ---------------------------------------------------------------- flexible equality

  lemma BoundKeepsNullOut(I: Interp, cx: Ctx, o: Oracle, wrapped: Ty, v: Ty)
    requires NullFreeHeads(I) && Denotable(I, cx, o, v) && v.Variable?
    requires !BoundAdmitsNull(v.bound, {}) && SameVariable(wrapped, v)
    ensures Den(I, NotNull(wrapped)) == Den(I, v)
  {
    assert Den(I, wrapped) == Den(I, v);
    NeverNullHolds(I, cx, o, v.bound);
  }

  /** Arguments that are equal as flexible types fit each other's slot, and denote the same values
      when neither is a projection. */
  ghost predicate Interchangeable(l: Ty, r: Ty, dl: Values, dr: Values)
  {
    if !l.Projection? && !r.Projection? then dl == dr
    else l.Projection? && r.Projection? && (if l.mode == r.mode then l.mode != Star ==> dl == dr
      else !IsIn(l) && !IsIn(r) && dl == dr)
  }

  lemma {:induction false} SameMeans(I: Interp, cx: Ctx, o: Oracle, l: Ty, r: Ty)
    requires Models(I, cx, o) && Denotable(I, cx, o, l) && Denotable(I, cx, o, r)
    requires SameFlexible(o, l, r)
    ensures Interchangeable(l, r, Den(I, l), Den(I, r))
    decreases Height(l) + Height(r), 1
  {
    assert SameArgument(o, l, r);
    if l.Obj? && r.Obj? {
      SameObjects(I, cx, o, l, r);
    } else if l.Fun? && r.Fun? {
      SameDens(I, cx, o, l.params, r.params);
      SameMeans(I, cx, o, l.ret, r.ret);
    } else if l.NotNull? || r.NotNull? {
      SameNotNullMeans(I, cx, o, l, r);
    } else if SameWrapper(l, r) || (IsStar(l) && IsOut(r)) || (IsOut(l) && IsStar(r)) {
      SameWrappedMeans(I, cx, o, l, r);
    }
  }

  lemma {:induction false} SameObjects(I: Interp, cx: Ctx, o: Oracle, l: Ty, r: Ty)
    requires Models(I, cx, o) && Denotable(I, cx, o, l) && Denotable(I, cx, o, r)
    requires SameArgument(o, l, r) && l.Obj? && r.Obj?
    ensures Den(I, l) == Den(I, r)
    decreases Height(l) + Height(r), 0
  {
    SameSlots(I, cx, o, l.name, 0, l.args, r.args);
    SlotsInclude(I, cx, o, l.name, l.args, r.args);
    SlotsInclude(I, cx, o, l.name, r.args, l.args);
  }

  lemma {:induction false} SameNotNullMeans(I: Interp, cx: Ctx, o: Oracle, l: Ty, r: Ty)
    requires Models(I, cx, o) && Denotable(I, cx, o, l) && Denotable(I, cx, o, r)
    requires SameArgument(o, l, r) && (l.NotNull? || r.NotNull?)
    ensures Interchangeable(l, r, Den(I, l), Den(I, r))
    decreases Height(l) + Height(r), 0
  {
    if l.NotNull? && r.NotNull? {
      SameMeans(I, cx, o, l.original, r.original);
    } else if l.NotNull? && r.Variable? {
      BoundKeepsNullOut(I, cx, o, l.original, r);
    } else if l.Variable? && r.NotNull? {
      BoundKeepsNullOut(I, cx, o, r.original, l);
    }
  }

  lemma {:induction false} SameWrappedMeans(I: Interp, cx: Ctx, o: Oracle, l: Ty, r: Ty)
    requires Models(I, cx, o) && Denotable(I, cx, o, l) && Denotable(I, cx, o, r) && SameArgument(o, l, r)
    requires SameWrapper(l, r) || (IsStar(l) && IsOut(r)) || (IsOut(l) && IsStar(r))
    ensures Interchangeable(l, r, Den(I, l), Den(I, r))
    decreases Height(l) + Height(r), 0
  {
    if IsOut(l) && IsStar(r) {
      SameMeans(I, cx, o, r.inner, l.inner);
    } else {
      SameMeans(I, cx, o, l.inner, r.inner);
    }
  }

  lemma {:induction false} SameDens(I: Interp, cx: Ctx, o: Oracle, ls: seq<Ty>, rs: seq<Ty>)
    requires Models(I, cx, o) && AllWhole(I, cx, o, ls) && AllWhole(I, cx, o, rs) && SameAll(o, ls, rs)
    ensures DenSeq(I, ls) == DenSeq(I, rs)
    decreases MaxHeight(ls) + MaxHeight(rs), 2, |ls|
  {
    if ls != [] && rs != [] {
      SameMeans(I, cx, o, ls[0], rs[0]);
      SameDens(I, cx, o, ls[1..], rs[1..]);
    }
  }

  /** Every slot of `ls` from `i` on lies within the same slot of `rs`, and the other way round. */
  ghost predicate SlotsEqual(I: Interp, o: Oracle, c: Name, i: nat, ls: seq<Ty>, rs: seq<Ty>)
  {
    && |ls| == |rs|
    && forall j :: 0 <= j < |ls| ==>
      && Contained(I, o, c, i + j, DenOfArg(I, ls[j]), DenOfArg(I, rs[j]))
      && Contained(I, o, c, i + j, DenOfArg(I, rs[j]), DenOfArg(I, ls[j]))
  }

  lemma SlotEqual(I: Interp, cx: Ctx, o: Oracle, c: Name, i: nat, l: Ty, r: Ty)
    requires Denotable(I, cx, o, l) && Denotable(I, cx, o, r)
    requires SlotFits(I, cx, o, c, i, l, Den(I, l)) && SlotFits(I, cx, o, c, i, r, Den(I, r))
    requires Interchangeable(l, r, Den(I, l), Den(I, r))
    ensures Contained(I, o, c, i, DenOfArg(I, l), DenOfArg(I, r))
    ensures Contained(I, o, c, i, DenOfArg(I, r), DenOfArg(I, l))
  {
  }

  lemma {:induction false} SameSlots(I: Interp, cx: Ctx, o: Oracle, c: Name, i: nat, ls: seq<Ty>, rs: seq<Ty>)
    requires Models(I, cx, o) && SameAll(o, ls, rs)
    requires SlotsDenotable(I, cx, o, c, i, ls) && SlotsDenotable(I, cx, o, c, i, rs)
    ensures SlotsEqual(I, o, c, i, ls, rs)
    decreases MaxHeight(ls) + MaxHeight(rs), 2, |ls|
  {
    if ls != [] && rs != [] {
      SameMeans(I, cx, o, ls[0], rs[0]);
      SlotEqual(I, cx, o, c, i, ls[0], rs[0]);
      SameSlots(I, cx, o, c, i + 1, ls[1..], rs[1..]);
      forall j | 0 <= j < |ls|
        ensures Contained(I, o, c, i + j, DenOfArg(I, ls[j]), DenOfArg(I, rs[j]))
        ensures Contained(I, o, c, i + j, DenOfArg(I, rs[j]), DenOfArg(I, ls[j]))
      {
        if j > 0 {
          assert ls[j] == ls[1..][j - 1] && rs[j] == rs[1..][j - 1];
          assert i + j == i + 1 + (j - 1);
        }
      }
    }
  }

  /** Class inclusion from slot inclusion. */
  lemma SlotsInclude(I: Interp, cx: Ctx, o: Oracle, c: Name, ls: seq<Ty>, rs: seq<Ty>)
    requires ClassesVary(I, o) && |ls| == |rs|
    requires forall j :: 0 <= j < |ls| ==> Contained(I, o, c, j, DenOfArg(I, ls[j]), DenOfArg(I, rs[j]))
    ensures Den(I, Obj(c, ls)) <= Den(I, Obj(c, rs))
  {
    var ds, es := ArgDens(I, ls), ArgDens(I, rs);
    forall j | 0 <= j < |ds| ensures Contained(I, o, c, j, ds[j], es[j]) {
      ArgDensAt(I, ls, j);
      ArgDensAt(I, rs, j);
    }
    assert I.cls(c, ds) <= I.cls(c, es);
  }

  // ---------------------------------------------------------------- the theorem

  /** Every `Yes` of `m` levels is an inclusion. */
  ghost predicate SoundAt(m: nat, I: Interp, cx: Ctx, o: Oracle)
  {
    forall sub, sup {:trigger Assign(m, cx, o, sub, sup)} ::
      Denotable(I, cx, o, sub) && Denotable(I, cx, o, sup) && Assign(m, cx, o, sub, sup) == Yes ==>
      Den(I, sub) <= Den(I, sup)
  }

  ghost predicate Given(m: nat, I: Interp, cx: Ctx, o: Oracle, sub: Ty, sup: Ty)
  {
    Models(I, cx, o) && SoundAt(m, I, cx, o) && Denotable(I, cx, o, sub) && Denotable(I, cx, o, sup)
  }

  /** A value of a variable has the shape of each of its bounds. */
  lemma BoundsHold(I: Interp, cx: Ctx, o: Oracle, v: Ty, tighten: bool, value: Value)
    requires Models(I, cx, o) && Denotable(I, cx, o, v) && v.Variable? && value in Den(I, v)
    requires tighten ==> value != NullValue
    ensures forall t <- ShapeAll([v.bound] + o.variableBounds(v.symbol), tighten) ::
      Whole(I, cx, o, t) && value in Den(I, t)
  {
    var bounds := [v.bound] + o.variableBounds(v.symbol);
    var shaped := ShapeAll(bounds, tighten);
    forall t | t in shaped ensures Whole(I, cx, o, t) && value in Den(I, t) {
      var i :| 0 <= i < |shaped| && t == shaped[i];
      assert i > 0 ==> bounds[i] in o.variableBounds(v.symbol) && InBound(I, cx, o, v.symbol, bounds[i]);
      assert Whole(I, cx, o, bounds[i]) && value in Den(I, bounds[i]);
      if tighten { NonNullKeeps(I, cx, o, bounds[i], value); }
    }
  }

  lemma MakeIntersectionWhole(I: Interp, cx: Ctx, o: Oracle, parts: seq<Ty>, v: Value)
    requires parts != [] && forall p <- parts :: Whole(I, cx, o, p) && v in Den(I, p)
    ensures Whole(I, cx, o, MakeIntersection(parts))
  {
    DecomposeAllSound(I, cx, o, parts, false, v);
    var pieces := DecomposeAll(parts, false);
    var cores := Cores(pieces);
    WholeAt(I, cx, o, cores);
    forall c | c in cores ensures Whole(I, cx, o, c) {
      CoreWhole(I, cx, o, pieces, c, v);
    }
    assert pieces[0].core in cores;
    MakeNullableDenotable(I, cx, o, if |cores| == 1 then cores[0] else Intersection(cores));
  }

  /** The upper bound of a variable is denotable and has every value of the variable. */
  lemma DeclaredUpperSound(I: Interp, cx: Ctx, o: Oracle, v: Ty, tighten: bool, value: Value)
    requires Models(I, cx, o) && Denotable(I, cx, o, v) && v.Variable? && value in Den(I, v)
    requires tighten ==> value != NullValue
    ensures value in Den(I, DeclaredUpper(o, v.symbol, v.bound, tighten))
    ensures Denotable(I, cx, o, DeclaredUpper(o, v.symbol, v.bound, tighten))
  {
    var declared := o.variableBounds(v.symbol);
    if declared == [] {
      if tighten { NonNullKeeps(I, cx, o, v.bound, value); }
    } else {
      var bounds := [v.bound] + declared;
      BoundsHold(I, cx, o, v, tighten, value);
      if !tighten { assert ShapeAll(bounds, tighten) == bounds; }
      MakeIntersectionSound(I, cx, o, ShapeAll(bounds, tighten), value);
      MakeIntersectionWhole(I, cx, o, ShapeAll(bounds, tighten), value);
    }
  }

  lemma BindingMeans(I: Interp, cx: Ctx, o: Oracle, v: Ty)
    requires Models(I, cx, o) && v.Variable? && v.symbol in cx
    ensures Whole(I, cx, o, cx[v.symbol]) && Den(I, v) == Den(I, cx[v.symbol])
  {
    assert EqualsBinding(I, cx, o, v.symbol);
  }

  lemma {:induction t} MakeNullableDenotable(I: Interp, cx: Ctx, o: Oracle, t: Ty)
    requires Whole(I, cx, o, t)
    ensures Whole(I, cx, o, MakeNullable(t))
  {
  }

  lemma NotNullSound(m: nat, I: Interp, cx: Ctx, o: Oracle, sub: Ty, sup: Ty)
    requires Given(m, I, cx, o, sub, sup) && sub.NotNull? && AssignNotNull(m, cx, o, sub, sup) == Yes
    ensures Den(I, sub) <= Den(I, sup)
  {
    var original := sub.original;
    if Assign(m, cx, o, original, sup) != Yes {
      forall value | value in Den(I, sub) ensures value in Den(I, sup) {
        DeclaredUpperSound(I, cx, o, original, true, value);
      }
    }
  }

  lemma {:induction false} EachSound(m: nat, I: Interp, cx: Ctx, o: Oracle, sub: Ty, parts: seq<Ty>)
    requires Models(I, cx, o) && SoundAt(m, I, cx, o) && Denotable(I, cx, o, sub) && AllWhole(I, cx, o, parts)
    requires AssignEach(m, cx, o, sub, parts) == Yes && Den(I, sub) <= NON_NULL + iset{NullValue}
    ensures Den(I, sub) <= Common(I, parts)
    decreases |parts|
  {
    if parts != [] {
      EachSound(m, I, cx, o, sub, parts[1..]);
    }
  }

  lemma {:induction false} SomeSound(m: nat, I: Interp, cx: Ctx, o: Oracle, parts: seq<Ty>, sup: Ty)
    requires SoundAt(m, I, cx, o) && Denotable(I, cx, o, sup) && AllWhole(I, cx, o, parts)
    requires AssignSome(m, cx, o, parts, sup) == Yes
    ensures Common(I, parts) <= Den(I, sup)
    ensures exists p <- parts :: Den(I, p) <= Den(I, sup)
    decreases |parts|
  {
    if Assign(m, cx, o, parts[0], sup) != Yes {
      SomeSound(m, I, cx, o, parts[1..], sup);
      var p :| p in parts[1..] && Den(I, p) <= Den(I, sup);
      assert p in parts;
    } else {
      assert parts[0] in parts;
    }
  }

  lemma {:induction false} AllSound(m: nat, I: Interp, cx: Ctx, o: Oracle, subs: seq<Ty>, sup: Ty)
    requires SoundAt(m, I, cx, o) && Denotable(I, cx, o, sup) && AllWhole(I, cx, o, subs)
    requires AssignAll(m, cx, o, subs, sup) == Yes
    ensures forall s <- subs :: Den(I, s) <= Den(I, sup)
    decreases |subs|
  {
    if subs != [] {
      AllSound(m, I, cx, o, subs[1..], sup);
    }
  }

  lemma CompositeSound(m: nat, I: Interp, cx: Ctx, o: Oracle, sub: Ty, sup: Ty)
    requires Given(m, I, cx, o, sub, sup) && (sup.NotNull? || sup.Intersection? || sub.Intersection?)
    requires AssignComposite(m, cx, o, sub, sup) == Yes
    ensures Den(I, sub) <= Den(I, sup)
  {
    if sup.NotNull? {
      assert ArgDens(I, []) == [];
      assert Den(I, ANY) == NON_NULL;
      assert Denotable(I, cx, o, ANY);
    } else if sup.Intersection? {
      EachSound(m, I, cx, o, sub, sup.parts);
    } else {
      SomeSound(m, I, cx, o, sub.parts, sup);
    }
  }

  lemma UpperSound(m: nat, I: Interp, cx: Ctx, o: Oracle, sub: Ty, sup: Ty)
    requires Given(m, I, cx, o, sub, sup) && sub.Variable? && AssignUpper(m, cx, o, sub, sup) == Yes
    ensures Den(I, sub) <= Den(I, sup)
  {
    if sub.symbol in cx {
      BindingMeans(I, cx, o, sub);
    } else {
      forall value | value in Den(I, sub) ensures value in Den(I, sup) {
        DeclaredUpperSound(I, cx, o, sub, false, value);
      }
    }
  }

  lemma ToNullableSound(m: nat, I: Interp, cx: Ctx, o: Oracle, sub: Ty, sup: Ty)
    requires Given(m, I, cx, o, sub, sup) && sup.Nullable? && AssignToNullable(m, cx, o, sub, sup) == Yes
    ensures Den(I, sub) <= Den(I, sup)
  {
    if !sub.Nullable? && !SameVariable(sub, sup.inner) && sub.Variable? {
      UpperSound(m, I, cx, o, sub, sup);
    }
  }

  lemma VariableSound(m: nat, I: Interp, cx: Ctx, o: Oracle, sub: Ty, sup: Ty)
    requires Given(m, I, cx, o, sub, sup) && (sub.Variable? || sup.Variable?)
    requires AssignVariable(m, cx, o, sub, sup) == Yes
    ensures Den(I, sub) <= Den(I, sup)
  {
    if !sup.Variable? || (sub.Variable? && sub.symbol != sup.symbol) {
      UpperSound(m, I, cx, o, sub, sup);
    } else {
      BindingMeans(I, cx, o, sup);
    }
  }

  lemma FlexibleSound(m: nat, I: Interp, cx: Ctx, o: Oracle, sub: Ty, sup: Ty)
    requires Given(m, I, cx, o, sub, sup) && (Flexing(sub) || Flexing(sup))
    requires AssignFlexible(m, cx, o, sub, sup) == Yes
    ensures Den(I, sub) <= Den(I, sup)
  {
  }

  // ---------------------------------------------------------------- arguments

  lemma ReadableWhole(I: Interp, cx: Ctx, o: Oracle, c: Name, i: nat)
    requires Models(I, cx, o)
    ensures AllWhole(I, cx, o, ReadableBounds(o, Some(c), i))
    ensures forall b <- ReadableBounds(o, Some(c), i) :: I.top(c, i) <= Den(I, b)
  {
    WholeAt(I, cx, o, ReadableBounds(o, Some(c), i));
    forall b | b in ReadableBounds(o, Some(c), i) ensures Whole(I, cx, o, b) && I.top(c, i) <= Den(I, b) {
    }
  }

  /** An argument of the applied source and the target's argument in the same slot of class `c`. */
  ghost predicate Slot(m: nat, I: Interp, cx: Ctx, o: Oracle, c: Name, i: nat, p: Ty, a: Ty)
  {
    && Models(I, cx, o) && SoundAt(m, I, cx, o)
    && Denotable(I, cx, o, p) && SlotFits(I, cx, o, c, i, p, Den(I, p))
    && Denotable(I, cx, o, a) && SlotFits(I, cx, o, c, i, a, Den(I, a))
  }

  lemma ProjectionSound(m: nat, I: Interp, cx: Ctx, o: Oracle, c: Name, i: nat, p: Ty, a: Ty)
    requires Slot(m, I, cx, o, c, i, p, a) && p.Projection?
    requires ProjectionFits(m, cx, o, Some(c), i, p, a) == Yes
    ensures Contained(I, o, c, i, DenOfArg(I, a), DenOfArg(I, p))
  {
    if IsOut(p) {
      if IsIn(a) {
        ReadableWhole(I, cx, o, c, i);
        SomeSound(m, I, cx, o, ReadableBounds(o, Some(c), i), p.inner);
      } else {
        CaptureInert(cx, o, p.inner, a);
      }
    }
  }

  lemma {:induction false} ResolveMeans(m: nat, I: Interp, cx: Ctx, o: Oracle, current: Ty, origin: Ty)
    requires Models(I, cx, o) && Denotable(I, cx, o, current) && Resolve(m, cx, current, origin).Some?
    ensures var t := Resolve(m, cx, current, origin).value;
      Denotable(I, cx, o, t) && Den(I, t) == Den(I, current) && (t.Projection? ==> t == current)
      && (current.Projection? ==> t == current)
  {
    if current.Variable? && current.symbol in cx {
      BindingMeans(I, cx, o, current);
      var next := cx[current.symbol];
      if next != current && next != origin {
        ResolveMeans(m - 1, I, cx, o, next, origin);
      }
    }
  }

  lemma InvariantSound(m: nat, I: Interp, cx: Ctx, o: Oracle, c: Name, i: nat, p: Ty, a: Ty)
    requires Slot(m, I, cx, o, c, i, p, a) && !p.Projection? && o.variance(c, i) == Invariant
    requires InvariantFits(m, cx, o, Some(c), i, p, a) == Yes
    ensures Contained(I, o, c, i, DenOfArg(I, a), DenOfArg(I, p))
  {
    if IsIn(a) {
      ReadableWhole(I, cx, o, c, i);
      AllSound(m, I, cx, o, ReadableBounds(o, Some(c), i), p);
      var b := ReadableBounds(o, Some(c), i)[0];
      assert b in ReadableBounds(o, Some(c), i);
    } else {
      ResolveMeans(m, I, cx, o, a, a);
      ResolveMeans(m, I, cx, o, p, p);
      SameMeans(I, cx, o, Resolve(m, cx, a, a).value, Resolve(m, cx, p, p).value);
    }
  }

  lemma ArgumentSound(m: nat, I: Interp, cx: Ctx, o: Oracle, c: Name, i: nat, p: Ty, a: Ty)
    requires Slot(m, I, cx, o, c, i, p, a)
    requires ArgumentFits(m, cx, o, Some(c), i, p, a) == Yes
    ensures Contained(I, o, c, i, DenOfArg(I, a), DenOfArg(I, p))
  {
    if p.Projection? {
      ProjectionSound(m, I, cx, o, c, i, p, a);
    } else if o.variance(c, i) == Invariant {
      InvariantSound(m, I, cx, o, c, i, p, a);
    }
  }

  lemma {:induction false} ArgumentsSound(
      m: nat, I: Interp, cx: Ctx, o: Oracle, c: Name, i: nat, expected: seq<Ty>, actual: seq<Ty>)
    requires Models(I, cx, o) && SoundAt(m, I, cx, o) && |expected| == |actual|
    requires SlotsDenotable(I, cx, o, c, i, expected) && SlotsDenotable(I, cx, o, c, i, actual)
    requires ArgumentsFit(m, cx, o, Some(c), i, expected, actual) == Yes
    ensures AllContained(I, o, c, i, actual, expected)
    decreases |expected|
  {
    if expected != [] {
      ArgumentSound(m, I, cx, o, c, i, expected[0], actual[0]);
      ArgumentsSound(m, I, cx, o, c, i + 1, expected[1..], actual[1..]);
      ContainedFront(I, o, c, i, actual, expected);
    }
  }

  ghost predicate AllContained(I: Interp, o: Oracle, c: Name, i: nat, ls: seq<Ty>, rs: seq<Ty>)
  {
    |ls| == |rs| && forall j :: 0 <= j < |ls| ==> Contained(I, o, c, i + j, DenOfArg(I, ls[j]), DenOfArg(I, rs[j]))
  }

  lemma ContainedFront(I: Interp, o: Oracle, c: Name, i: nat, ls: seq<Ty>, rs: seq<Ty>)
    requires |ls| == |rs| > 0 && Contained(I, o, c, i, DenOfArg(I, ls[0]), DenOfArg(I, rs[0]))
    requires AllContained(I, o, c, i + 1, ls[1..], rs[1..])
    ensures AllContained(I, o, c, i, ls, rs)
  {
    forall j | 0 <= j < |ls| ensures Contained(I, o, c, i + j, DenOfArg(I, ls[j]), DenOfArg(I, rs[j])) {
      if j > 0 {
        assert ls[j] == ls[1..][j - 1] && rs[j] == rs[1..][j - 1];
        assert i + j == i + 1 + (j - 1);
      }
    }
  }

  /** Slots of a class are slots of every class the platform unifies with it. */
  lemma {:induction false} AliasSlots(I: Interp, cx: Ctx, o: Oracle, a: Name, b: Name, i: nat, args: seq<Ty>)
    requires AliasesAgree(I, o) && o.sameClass(a, b) && SlotsDenotable(I, cx, o, a, i, args)
    ensures SlotsDenotable(I, cx, o, b, i, args)
    decreases |args|
  {
    if args != [] {
      assert I.top(a, i) == I.top(b, i) && o.variance(a, i) == o.variance(b, i);
      AliasSlots(I, cx, o, a, b, i + 1, args[1..]);
    }
  }

  lemma {:induction false} ReachedSound(I: Interp, cx: Ctx, o: Oracle, steps: nat, from: Ty, to: Ty)
    requires Models(I, cx, o) && (from.Obj? || from.Fun?) && Denotable(I, cx, o, from) && ReachesIn(o, steps, from, to)
    ensures Denotable(I, cx, o, to) && Den(I, from) <= Den(I, to)
    ensures from.Obj? || steps > 0 ==> to.Obj?
  {
    if steps > 0 {
      var mid :| ReachesIn(o, steps - 1, from, mid) && Step(o, mid, to);
      ReachedSound(I, cx, o, steps - 1, from, mid);
    }
  }

  lemma SlotsContained(I: Interp, cx: Ctx, o: Oracle, c: Name, ls: seq<Ty>, rs: seq<Ty>)
    requires ClassesVary(I, o) && AllContained(I, o, c, 0, ls, rs)
    ensures Den(I, Obj(c, ls)) <= Den(I, Obj(c, rs))
  {
    forall j | 0 <= j < |ls| ensures Contained(I, o, c, j, DenOfArg(I, ls[j]), DenOfArg(I, rs[j])) {
      assert Contained(I, o, c, 0 + j, DenOfArg(I, ls[j]), DenOfArg(I, rs[j]));
    }
    SlotsInclude(I, cx, o, c, ls, rs);
  }

  /** The applied source, an instantiation of a class unified with the target's, fits the target. */
  lemma AppliedSound(m: nat, I: Interp, cx: Ctx, o: Oracle, applied: Ty, sup: Ty)
    requires Given(m, I, cx, o, applied, sup) && applied.Obj? && sup.Obj? && o.sameClass(applied.name, sup.name)
    requires sup.args != [] ==> |sup.args| == |applied.args|
    requires ArgumentsFit(m, cx, o, Some(sup.name), 0, sup.args, applied.args) == Yes
    ensures Den(I, applied) <= Den(I, sup)
  {
    assert I.cls(applied.name, ArgDens(I, applied.args)) <= I.cls(sup.name, ArgDens(I, applied.args));
    if sup.args != [] {
      AliasSlots(I, cx, o, applied.name, sup.name, 0, applied.args);
      ArgumentsSound(m, I, cx, o, sup.name, 0, sup.args, applied.args);
      SlotsContained(I, cx, o, sup.name, applied.args, sup.args);
    } else {
      assert ArgDens(I, sup.args) == [];
      assert I.cls(sup.name, ArgDens(I, applied.args)) <= I.cls(sup.name, []);
    }
  }

  lemma ObjectSound(m: nat, I: Interp, cx: Ctx, o: Oracle, sub: Ty, sup: Ty)
    requires Given(m, I, cx, o, sub, sup) && (sub.Obj? || sub.Fun?) && sup.Obj?
    requires AssignObject(m, cx, o, sub, sup) == Yes
    ensures Den(I, sub) <= Den(I, sup)
  {
    var applied := AppliedSupertype(o, sub, sup).value;
    WorklistOnPath(o, sub, sup);
    var steps: nat :| ReachesIn(o, steps, sub, applied);
    ReachedSound(I, cx, o, steps, sub, applied);
    AppliedSound(m, I, cx, o, applied, sup);
  }

  lemma {:induction false} PairsSound(m: nat, I: Interp, cx: Ctx, o: Oracle, subs: seq<Ty>, sups: seq<Ty>)
    requires SoundAt(m, I, cx, o) && |subs| == |sups| && AllWhole(I, cx, o, subs) && AllWhole(I, cx, o, sups)
    requires AssignPairs(m, cx, o, subs, sups) == Yes
    ensures forall i :: 0 <= i < |subs| ==> DenSeq(I, subs)[i] <= DenSeq(I, sups)[i]
    decreases |subs|
  {
    if subs != [] {
      PairsSound(m, I, cx, o, subs[1..], sups[1..]);
    }
  }

  lemma {:induction false} WholeSlots(I: Interp, cx: Ctx, o: Oracle, c: Name, i: nat, args: seq<Ty>)
    requires AllWhole(I, cx, o, args)
    ensures SlotsDenotable(I, cx, o, c, i, args)
    decreases |args|
  {
    if args != [] {
      WholeSlots(I, cx, o, c, i + 1, args[1..]);
    }
  }

  /** Instances of a function classifier are functions of that signature. */
  lemma FunctionApplicationSound(I: Interp, cx: Ctx, o: Oracle, t: Ty)
    requires Models(I, cx, o) && t.Fun? && Denotable(I, cx, o, t)
    ensures Denotable(I, cx, o, FunctionApplication(t))
    ensures Den(I, FunctionApplication(t)) <= Den(I, t)
  {
    var args := t.params + [t.ret];
    WholeAt(I, cx, o, t.params);
    WholeAt(I, cx, o, args);
    WholeSlots(I, cx, o, FunctionClass(|t.params|, t.isSuspend), 0, args);
    var ps, a := DenSeq(I, t.params), Den(I, t.ret);
    var exact := seq(|ps| + 1, i requires 0 <= i < |ps| + 1 => Exact(if i < |ps| then ps[i] else a));
    forall i | 0 <= i < |args| ensures ArgDens(I, args)[i] == exact[i] {
      ArgDensAt(I, args, i);
      assert args[i] in args;
      if i < |ps| { DenSeqAt(I, t.params, i); }
    }
    assert ArgDens(I, args) == exact;
    assert I.function_(ps, a, t.isSuspend) == Den(I, t);
  }

  lemma ShapeSound(m: nat, I: Interp, cx: Ctx, o: Oracle, sub: Ty, sup: Ty)
    requires Given(m, I, cx, o, sub, sup) && ArmOf(sub, sup) == ByShape
    requires AssignShape(m, cx, o, sub, sup) == Yes
    ensures Den(I, sub) <= Den(I, sup)
  {
    if sub.Obj? && sup.Fun? {
      FunctionApplicationSound(I, cx, o, sup);
      ObjectSound(m, I, cx, o, sub, FunctionApplication(sup));
    } else if sub.Fun? && sup.Fun? {
      PairsSound(m, I, cx, o, sup.params, sub.params);
      assert I.function_(DenSeq(I, sub.params), Den(I, sub.ret), sub.isSuspend)
          <= I.function_(DenSeq(I, sup.params), Den(I, sup.ret), sup.isSuspend);
    } else if (sub.Obj? || sub.Fun?) && sup.Obj? {
      ObjectSound(m, I, cx, o, sub, sup);
    } else {
      OnlyNamedTargets(o, sub, sup);
    }
  }

  /** The remaining shapes are never assignable: the target has no class, or the source is `Unit`. */
  lemma OnlyNamedTargets(o: Oracle, sub: Ty, sup: Ty)
    requires sub.Unit? ==> o.supers(Unit) == []
    requires sub.Unit? || !sup.Obj?
    requires sup.Unit? || sup.Null? || sup.Nothing? || sup.Obj? || sup.Fun?
    ensures AppliedSupertype(o, sub, sup).None?
  {
    if sub.Unit? && sup.Obj? {
      var target := sup.name;
      assert Walk(o, target, [Unit], {}) == Walk(o, target, [], {}) by {
        assert [Unit][..0] + [] == [];
      }
    }
  }

  lemma LevelSound(m: nat, I: Interp, cx: Ctx, o: Oracle, sub: Ty, sup: Ty)
    requires Given(m, I, cx, o, sub, sup) && Assign(m + 1, cx, o, sub, sup) == Yes
    ensures Den(I, sub) <= Den(I, sup)
  {
    match ArmOf(sub, sup)
    case Always => AlwaysSound(I, cx, o, sub, sup);
    case ByNotNull => NotNullSound(m, I, cx, o, sub, sup);
    case ByComposite => CompositeSound(m, I, cx, o, sub, sup);
    case ByFlexible => FlexibleSound(m, I, cx, o, sub, sup);
    case ByNullable => ToNullableSound(m, I, cx, o, sub, sup);
    case ByVariable => VariableSound(m, I, cx, o, sub, sup);
    case ByShape => ShapeSound(m, I, cx, o, sub, sup);
    case Never =>
  }

  lemma AlwaysSound(I: Interp, cx: Ctx, o: Oracle, sub: Ty, sup: Ty)
    requires Models(I, cx, o) && Denotable(I, cx, o, sub) && Denotable(I, cx, o, sup) && ArmOf(sub, sup) == Always
    ensures Den(I, sub) <= Den(I, sup)
  {
    if sub != sup && !SameVariable(sub, sup) && IsAny(sup) && !sub.Nothing? {
      assert Den(I, sup) == I.cls(sup.name, ArgDens(I, sup.args)) == NON_NULL;
      match sub
      case Obj(name, args) => assert I.cls(name, ArgDens(I, args)) <= NON_NULL;
      case Fun(params, ret, _, _, s) => assert I.function_(DenSeq(I, params), Den(I, ret), s) <= NON_NULL;
      case _ =>
    }
  }

  lemma {:induction false} EveryLevelSound(m: nat, I: Interp, cx: Ctx, o: Oracle)
    requires Models(I, cx, o)
    ensures SoundAt(m, I, cx, o)
  {
    if m > 0 {
      EveryLevelSound(m - 1, I, cx, o);
      forall sub, sup | Denotable(I, cx, o, sub) && Denotable(I, cx, o, sup) && Assign(m, cx, o, sub, sup) == Yes
        ensures Den(I, sub) <= Den(I, sup)
      {
        LevelSound(m - 1, I, cx, o, sub, sup);
      }
    }
  }

  /** Whenever the relation answers yes, every interpretation of the hierarchy agrees: all values of
      the source are values of the target. */
  lemma Sound(n: nat, I: Interp, cx: Ctx, o: Oracle, sub: Ty, sup: Ty)
    requires Models(I, cx, o) && Denotable(I, cx, o, sub) && Denotable(I, cx, o, sup)
    requires Assign(n, cx, o, sub, sup) == Yes
    ensures Den(I, sub) <= Den(I, sup)
  {
    EveryLevelSound(n, I, cx, o);
  }

  /** So null never reaches a target that does not have it. */
  lemma NullNeverFlows(n: nat, I: Interp, cx: Ctx, o: Oracle, sub: Ty, sup: Ty)
    requires Models(I, cx, o) && Denotable(I, cx, o, sub) && Denotable(I, cx, o, sup)
    requires NullValue in Den(I, sub) && (sup.NotNull? || sup.Obj? || sup.Fun? || sup.Unit? || sup.Nothing?)
    ensures Assign(n, cx, o, sub, sup) != Yes
  {
    NonNullHead(I, cx, o, sup);
    if Assign(n, cx, o, sub, sup) == Yes {
      Sound(n, I, cx, o, sub, sup);
    }
  }

  lemma NonNullHead(I: Interp, cx: Ctx, o: Oracle, t: Ty)
    requires Models(I, cx, o) && (t.NotNull? || t.Obj? || t.Fun? || t.Unit? || t.Nothing?)
    ensures NullValue !in Den(I, t)
  {
    match t
    case Obj(name, args) => assert I.cls(name, ArgDens(I, args)) <= NON_NULL;
    case Fun(params, ret, _, _, s) => assert I.function_(DenSeq(I, params), Den(I, ret), s) <= NON_NULL;
    case _ =>
  }
}
