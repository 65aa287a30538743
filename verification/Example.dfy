/** A hierarchy that meets the conditions of the theorems: covariant collections, one of them of lists, a
    class comparable with itself, and function types below their classifiers and `Function<out R>`. */
module Example {
  import opened Options
  import opened Types
  import opened Hierarchy
  import opened Assignable
  import opened Termination
  import opened Declarations
  import opened Transitivity

  const COLLECTION: Name := Class(0)
  const LIST: Name := Class(1)
  const TABLE: Name := Class(2)
  const COMPARABLE: Name := Class(3)
  const WORD: Name := Class(4)
  const FUNCTION: Name := Class(5)

  const A_WORD: Ty := Obj(WORD, [])

  /** `List<out T> : Collection<T>`, `Table<out T> : Collection<List<T>>`, `Word : Comparable<Word>`, and
      every function classifier with the result of its functions below `Function`. */
  function ParentsOf(n: Name): seq<Parent>
  {
    match n
    case FunctionClass(arity, _) => [Parent(FUNCTION, [Own(arity)])]
    case Class(id) =>
      if n == LIST then [Parent(COLLECTION, [Own(0)])]
      else if n == TABLE then [Parent(COLLECTION, [Nested(LIST, [Own(0)])])]
      else if n == WORD then [Parent(COMPARABLE, [Fixed(A_WORD)])]
      else []
    case _ => []
  }

  function ArityOf(n: Name): nat
  {
    if n.FunctionClass? then n.arity + 1
    else if n in {COLLECTION, LIST, TABLE, COMPARABLE, FUNCTION} then 1
    else 0
  }

  /** Any variable may be met. */
  predicate Named(s: Symbol) { true }

  /** The declarations, with function types of at most `limit` parameters. */
  ghost function Books(limit: nat): Decls
  {
    Decls(
      ArityOf,
      ParentsOf,
      (arity: nat, isSuspend: bool) => [Parent(FunctionClass(arity, isSuspend), Identity(arity + 1))],
      _ => NULLABLE_ANY,
      iset n: Name | n.FunctionClass? ==> n.arity <= limit,
      iset s: Symbol | Named(s))
  }

  function OnlyArgument(args: seq<Ty>): seq<Ty> { if |args| == 1 then args else [] }

  function ListOf(args: seq<Ty>): seq<Ty> { if |args| == 1 then [Obj(LIST, args)] else [] }

  function ResultOf(arity: nat, args: seq<Ty>): seq<Ty> { if |args| == arity + 1 then [args[arity]] else [] }

  function Supertypes(limit: nat, t: Ty): seq<Ty>
  {
    if t.Fun? then (if |t.params| <= limit then [FunctionApplication(t)] else [])
    else if ClassName(t).None? then []
    else
      match ClassName(t).value
      case FunctionClass(arity, _) => if arity <= limit then [Obj(FUNCTION, ResultOf(arity, TypeArgs(t)))] else []
      case Class(id) =>
        if Class(id) == LIST then [Obj(COLLECTION, OnlyArgument(TypeArgs(t)))]
        else if Class(id) == TABLE then [Obj(COLLECTION, ListOf(TypeArgs(t)))]
        else if Class(id) == WORD then [Obj(COMPARABLE, [A_WORD])]
        else []
      case _ => []
  }

  function VarianceIn(n: Name, i: nat): Variance
  {
    if n == COMPARABLE || (n.FunctionClass? && i < n.arity) then Contravariant else Covariant
  }

  function Classifiers(limit: nat): set<Name>
  {
    set arity: nat, isSuspend: bool | 0 <= arity <= limit :: FunctionClass(arity, isSuspend)
  }

  function Library(limit: nat): Oracle
  {
    OracleData(
      {COLLECTION, COMPARABLE, FUNCTION} + Classifiers(limit),
      t => Supertypes(limit, t), (a, b) => a == b, VarianceIn, (_, _) => [NULLABLE_ANY], t => t, _ => [])
  }

  // ---------------------------------------------------------------- declarations

  /** The one way each class is applied above another. */
  ghost function Way(limit: nat, h: Head, g: Head): seq<Slot>
  {
    if g == h then Identity(Books(limit).Arity(h))
    else if h.FunHead? then if g == Cls(FUNCTION) then [Own(h.arity)] else Identity(h.arity + 1)
    else if h.name.FunctionClass? then [Own(h.name.arity)]
    else if h.name == TABLE then [Nested(LIST, [Own(0)])]
    else if h.name == WORD then [Fixed(A_WORD)]
    else [Own(0)]
  }

  ghost predicate Above(h: Head, g: Head)
  {
    || (h.FunHead? && (g == Cls(FunctionClass(h.arity, h.isSuspend)) || g == Cls(FUNCTION)))
    || (h.Cls? && h.name.FunctionClass? && g == Cls(FUNCTION))
    || (h.Cls? && h.name in {LIST, TABLE} && g == Cls(COLLECTION))
    || (h == Cls(WORD) && g == Cls(COMPARABLE))
  }

  lemma {:induction false} OneWay(limit: nat, steps: nat, h: Head, g: Head, slots: seq<Slot>)
    requires Ancestor(Books(limit), steps, h, g, slots)
    ensures slots == Way(limit, h, g) && (g == h || Above(h, g))
  {
    if steps > 0 {
      var mid, via, p := AncestorBack(Books(limit), steps, h, g, slots);
      OneWay(limit, steps - 1, h, mid, via);
      if mid == h {
        FirstStep(limit, h, p, g, slots);
      } else {
        SecondStep(limit, h, mid, via, p, g, slots);
      }
    }
  }

  lemma FirstStep(limit: nat, h: Head, p: Parent, g: Head, slots: seq<Slot>)
    requires Declared(Books(limit), h, p, g) && Composes(Identity(Books(limit).Arity(h)), p.slots, slots)
    ensures slots == Way(limit, h, g) && Above(h, g)
  {
    var identity := Identity(Books(limit).Arity(h));
    if h.Cls? && h.name == TABLE {
      assert Subst(p.slots[0], identity).slots == [Own(0)];
    }
  }

  /** Only function classifiers have anything above them that is above something itself. */
  lemma SecondStep(limit: nat, h: Head, mid: Head, via: seq<Slot>, p: Parent, g: Head, slots: seq<Slot>)
    requires Above(h, mid) && via == Way(limit, h, mid) && mid != h
    requires Declared(Books(limit), mid, p, g) && Composes(via, p.slots, slots)
    ensures slots == Way(limit, h, g) && Above(h, g)
  {
  }

  lemma BooksCoherent(limit: nat)
    ensures Coherent(Books(limit))
  {
    var d := Books(limit);
    forall m: nat, n: nat, h, g, s, t | d.Has(h) && Ancestor(d, m, h, g, s) && Ancestor(d, n, h, g, t) ensures s == t {
      OneWay(limit, m, h, g, s);
      OneWay(limit, n, h, g, t);
    }
  }

  lemma HeadValid(limit: nat, h: Head)
    requires Books(limit).Has(h)
    ensures ParentsValid(Books(limit), Library(limit), h)
  {
    var d, o := Books(limit), Library(limit);
    forall p | p in d.Parents(h) ensures ParentValid(d, o, h, p) {
      if h == Cls(WORD) {
        assert AllInFragment(d, []) && InFragment(d, A_WORD);
      }
      if h == Cls(TABLE) {
        assert Suits(d, o, h, Through(Covariant, o.variance(LIST, 0)), Own(0));
      }
    }
  }

  lemma SupersOfHead(limit: nat, t: Ty)
    ensures SupersApplied(Books(limit), Library(limit), t)
  {
    if FullyApplied(Books(limit), t) {
      HeadValid(limit, HeadOf(t));
      ParentsApplied(limit, t);
    }
  }

  lemma ParentsApplied(limit: nat, t: Ty)
    requires FullyApplied(Books(limit), t)
    requires forall p <- Books(limit).Parents(HeadOf(t)) :: AllCover(p.slots, |ArgsOf(t)|)
    ensures Supertypes(limit, t) == Apply(Books(limit).Parents(HeadOf(t)), ArgsOf(t))
  {
    if t.Fun? {
      FillIdentity(ArgsOf(t));
    } else if t.name == TABLE {
      assert Fill(Nested(LIST, [Own(0)]), t.args) == Obj(LIST, t.args);
    }
    var supers, expected := Supertypes(limit, t), Apply(Books(limit).Parents(HeadOf(t)), ArgsOf(t));
    assert |supers| == |expected| && (supers != [] ==> supers[0] == expected[0]);
  }

  /** The names above a class. */
  function NamesAbove(limit: nat, n: Name): set<Name>
  {
    if n.FunctionClass? && n.arity <= limit then {FUNCTION}
    else if n == LIST || n == TABLE then {COLLECTION}
    else if n == WORD then {COMPARABLE}
    else {}
  }

  lemma SupertypeNames(limit: nat, t: Ty)
    requires ClassName(t).Some?
    ensures NamesOf(Supertypes(limit, t)) == NamesAbove(limit, ClassName(t).value)
  {
    var supers := Supertypes(limit, t);
    assert supers == [] || (|supers| == 1 && supers[0] in supers && ClassName(supers[0]).Some?);
  }

  lemma LibraryDeclares(limit: nat)
    ensures Declares(Books(limit), Library(limit))
  {
    var d, o := Books(limit), Library(limit);
    forall h | d.Has(h) ensures ParentsValid(d, o, h) {
      HeadValid(limit, h);
    }
    forall t ensures SupersApplied(d, o, t) {
      SupersOfHead(limit, t);
    }
    forall a, b | ClassName(a).Some? && ClassName(a) == ClassName(b)
      ensures NamesOf(o.supers(a)) == NamesOf(o.supers(b))
    {
      SupertypeNames(limit, a);
      SupertypeNames(limit, b);
    }
    assert forall n: nat, p <- d.functionParents(n, true) :: Twin(n, p) in d.functionParents(n, false);
  }

  // ---------------------------------------------------------------- ranking

  /** Every class at rank 0. */
  ghost predicate Flat(r: Ranks)
  {
    forall n {:trigger r.OfClass(n)} :: r.OfClass(n) == 0
  }

  /** The classes above others. */
  predicate Root(n: Name) { n == COLLECTION || n == COMPARABLE || n == FUNCTION || n.FunctionClass? }

  /** What a walk meets behind its start. */
  ghost predicate Reached(w: Scope, r: Ranks, t: Ty, limit: nat, free: bool)
  {
    t.Obj? && Root(t.name) && t.name in w.classes && AllFit(w, r, t.args, limit, free)
  }

  /** A scope of the library: its function classifiers, and every other class. */
  ghost predicate OfLibrary(w: Scope, limit: nat)
  {
    w.classes == (iset n: Name | n.FunctionClass? ==> n.arity <= limit)
  }

  lemma WordFits(w: Scope, r: Ranks, limit: nat)
    requires OfLibrary(w, limit) && Flat(r)
    ensures Fit(w, r, A_WORD, 1, true)
  {
    assert AllTame(w, []) && AllWithout(w.capturable, []) && MaxDepth(r, []) == 0;
  }

  lemma ListFits(w: Scope, r: Ranks, limit: nat, args: seq<Ty>, depth: nat, free: bool)
    requires OfLibrary(w, limit) && Flat(r) && AllFit(w, r, args, depth, free)
    ensures AllFit(w, r, ListOf(args), depth + 1, free)
  {
    FitSeq(w, r, args, depth, free);
  }

  lemma SupertypeReached(w: Scope, r: Ranks, limit: nat, t: Ty, s: Ty, free: bool)
    requires OfLibrary(w, limit) && Flat(r) && Fit(w, r, t, Depth(r, t), free) && s in Supertypes(limit, t)
    ensures Reached(w, r, s, Depth(r, t), free)
  {
    if t.Fun? {
      FunctionParts(w, r, t, Depth(r, t), free);
      assert forall x <- s.args :: x in t.params || x == t.ret;
    } else {
      var depth := Depth(r, t) - 1;
      SpreadWithin(w, r, t);
      TypeArgsTame(w, t);
      FitSeq(w, r, TypeArgs(t), depth, free);
      WordFits(w, r, limit);
      ListFits(w, r, limit, TypeArgs(t), depth, free);
      ClassReached(w, r, limit, t, s, depth, free);
    }
  }

  lemma ClassReached(w: Scope, r: Ranks, limit: nat, t: Ty, s: Ty, depth: nat, free: bool)
    requires OfLibrary(w, limit) && !t.Fun? && s in Supertypes(limit, t) && Fit(w, r, A_WORD, 1, true)
    requires AllFit(w, r, TypeArgs(t), depth, free) && AllFit(w, r, ListOf(TypeArgs(t)), depth + 1, free)
    ensures Reached(w, r, s, depth + 1, free)
  {
    assert forall x <- s.args :: x in TypeArgs(t) || x in ListOf(TypeArgs(t)) || x == A_WORD;
  }

  lemma RootsAbove(w: Scope, r: Ranks, limit: nat, t: Ty, s: Ty, depth: nat, free: bool)
    requires OfLibrary(w, limit) && Reached(w, r, t, depth, free) && s in Supertypes(limit, t)
    ensures Reached(w, r, s, depth, free)
  {
  }

  lemma {:induction false} WalkReached(w: Scope, r: Ranks, limit: nat, steps: nat, from: Ty, to: Ty, free: bool)
    requires OfLibrary(w, limit) && Flat(r) && Fit(w, r, from, Depth(r, from), free)
    requires steps > 0 && ReachesIn(Library(limit), steps, from, to)
    ensures Reached(w, r, to, Depth(r, from), free)
  {
    var mid :| ReachesIn(Library(limit), steps - 1, from, mid) && Step(Library(limit), mid, to);
    if steps > 1 {
      WalkReached(w, r, limit, steps - 1, from, mid, free);
      RootsAbove(w, r, limit, mid, to, Depth(r, from), free);
    } else {
      SupertypeReached(w, r, limit, from, to, free);
    }
  }

  lemma LibrarySupersFit(w: Scope, r: Ranks, limit: nat)
    requires OfLibrary(w, limit) && Flat(r)
    ensures SupersFit(w, Library(limit), r)
  {
    var o := Library(limit);
    forall from, to | Tame(w, from) && Reaches(o, from, to)
      ensures Spread(w, r, to, Depth(r, from), Without(w.capturable, from))
    {
      var steps: nat :| ReachesIn(o, steps, from, to);
      if steps > 0 {
        WalkReached(w, r, limit, steps, from, to, Without(w.capturable, from));
        FitSeq(w, r, to.args, Depth(r, from), Without(w.capturable, from));
      } else {
        SpreadWithin(w, r, from);
      }
    }
  }

  lemma LibraryWorld(w: Scope, r: Ranks, limit: nat)
    requires OfLibrary(w, limit) && Flat(r) && w.cap >= 2 && forall s <- w.capturable :: r.Of(s) >= w.cap
    ensures World(w, Library(limit), r)
  {
    LibrarySupersFit(w, r, limit);
    assert NamesRanked(w, Library(limit), r);
    assert AllTame(w, []) && AllWithout(w.capturable, []) && MaxDepth(r, []) == 0;
    assert Fit(w, r, NULLABLE_ANY, 2, true);
  }

  lemma BooksBounds(limit: nat)
    ensures BoundsInFragment(Books(limit), Library(limit))
  {
    var d, o := Books(limit), Library(limit);
    assert AllInFragment(d, []) && InFragment(d, ANY) && InFragment(d, NULLABLE_ANY);
    forall x ensures InFragment(d, JoinedBound(d, o, x)) {
      assert JoinedBound(d, o, x) == NULLABLE_ANY;
    }
  }

  /** The conditions of transitivity can be met, also by a class comparable with itself and a collection
      of lists; and the types of the example lie in the fragment. */
  lemma ConditionsMet(limit: nat, cx: Ctx, r: Ranks)
    requires Unbound(cx) && Flat(r)
    ensures Setting(cx, Books(limit), Library(limit), r)
    ensures InFragment(Books(limit), Obj(TABLE, [A_WORD]))
    ensures InFragment(Books(limit), Obj(COLLECTION, [Obj(LIST, [A_WORD])]))
    ensures limit >= 1 ==> InFragment(Books(limit), Fun([A_WORD], A_WORD, 0, false, false))
  {
    var d := Books(limit);
    BooksCoherent(limit);
    LibraryDeclares(limit);
    LibraryWorld(d.InScope(), r, limit);
    BooksBounds(limit);
    assert AllInFragment(d, []) && InFragment(d, A_WORD);
    OneInFragment(d, TABLE, A_WORD);
    OneInFragment(d, LIST, A_WORD);
    OneInFragment(d, COLLECTION, Obj(LIST, [A_WORD]));
    assert [A_WORD][1..] == [] && AllInFragment(d, [A_WORD]);
  }

  lemma OneInFragment(d: Decls, name: Name, arg: Ty)
    requires name in d.classes && !name.FunctionClass? && d.arity(name) == 1 && InFragment(d, arg)
    ensures InFragment(d, Obj(name, [arg]))
  {
    assert [arg][1..] == [] && AllInFragment(d, []);
  }

  // ---------------------------------------------------------------- capture

  /** Ranked above the weight of `sub`, variables that `sub` does not mention can hold any piece of it. */
  function CaptureRanks(r: Ranks, hidden: set<Symbol>, cap: nat): Ranks
  {
    Ranks(r.symbols + map s | s in hidden :: cap, r.classes)
  }

  ghost function CaptureScope(limit: nat, hidden: set<Symbol>, cap: nat): Scope
  {
    Scope({}, hidden, iset s: Symbol | Named(s), iset n: Name | n.FunctionClass? ==> n.arity <= limit, true, cap)
  }

  lemma CaptureFlat(r: Ranks, hidden: set<Symbol>, cap: nat)
    requires Flat(r)
    ensures Flat(CaptureRanks(r, hidden, cap))
  {
    forall name ensures CaptureRanks(r, hidden, cap).OfClass(name) == 0 {
      assert r.OfClass(name) == 0;
    }
  }

  /** Where the source mentions none of the variables that capture binds, every comparison in the library
      ends, whatever the target, in both directions. */
  lemma CaptureEnds(n: nat, limit: nat, cx: Ctx, r: Ranks, hidden: set<Symbol>, cap: nat, sub: Ty, sup: Ty)
    requires Unbound(cx) && Flat(r) && Without(hidden, sub) && cap >= 2 && cap >= Depth(r, sub)
    requires Tame(CaptureScope(limit, hidden, cap), sub) && Tame(CaptureScope(limit, hidden, cap), sup)
    requires n >= Depth(r, sub) + Depth(CaptureRanks(r, hidden, cap), sup)
    ensures Assign(n, cx, Library(limit), sub, sup) != Exhausted
    ensures Assign(n, cx, Library(limit), sup, sub) != Exhausted
  {
    var w, q := CaptureScope(limit, hidden, cap), CaptureRanks(r, hidden, cap);
    DepthWithout(hidden, r, q, sub);
    CaptureFlat(r, hidden, cap);
    LibraryWorld(w, q, limit);
    BothEnd(n, w, cx, Library(limit), q, sub, sup);
  }

  lemma BothEnd(n: nat, w: Scope, cx: Ctx, o: Oracle, r: Ranks, sub: Ty, sup: Ty)
    requires World(w, o, r) && Unbound(cx) && w.bound == {} && Tame(w, sub) && Tame(w, sup)
    requires Without(w.capturable, sub) && Depth(r, sub) <= w.cap && Depth(r, sub) + Depth(r, sup) <= n
    ensures Assign(n, cx, o, sub, sup) != Exhausted && Assign(n, cx, o, sup, sub) != Exhausted
  {
    CoupledGuarded(w, o, r, sub, sup);
    CoupledGuarded(w, o, r, sup, sub);
    Terminates(n, w, cx, o, r, sub, sup);
    Terminates(n, w, cx, o, r, sup, sub);
  }

  const ELEMENT: Ty := Variable(false, 0, NULLABLE_ANY)

  lemma OneArgument(w: Scope, r: Ranks, known: set<Symbol>, name: Name, arg: Ty)
    ensures Tame(w, Obj(name, [arg])) <==> name in w.classes && Tame(w, arg)
    ensures Depth(r, Obj(name, [arg])) == 1 + Max(r.OfClass(name), Depth(r, arg))
    ensures Closed(known, Obj(name, [arg])) <==> Closed(known, arg)
    ensures Without(known, Obj(name, [arg])) <==> Without(known, arg)
  {
    assert [arg][1..] == [] && AllTame(w, []) && AllClosed(known, []) && AllWithout(known, []) && MaxDepth(r, []) == 0;
  }

  /** `Table<Word>`, and what it is compared with. */
  lemma WordShapes(w: Scope, limit: nat, r: Ranks, hidden: set<Symbol>)
    requires OfLibrary(w, limit) && Flat(r) && w.flexible && 0 in w.Known() && 0 in w.symbols && r.Of(0) <= 2
    ensures Tame(w, Obj(TABLE, [A_WORD])) && Without(hidden, Obj(TABLE, [A_WORD]))
    ensures Depth(r, Obj(TABLE, [A_WORD])) == 2
    ensures var target := Obj(COLLECTION, [Projection(Out, Obj(LIST, [ELEMENT]))]);
      Tame(w, target) && Depth(r, target) <= 8
  {
    WordFits(w, r, limit);
    OneArgument(w, r, hidden, TABLE, A_WORD);
    OneArgument(w, r, w.Known(), LIST, ELEMENT);
    OneArgument(w, r, hidden, COLLECTION, Projection(Out, Obj(LIST, [ELEMENT])));
    assert AllTame(w, []) && MaxDepth(r, []) == 0 && AllWithout(hidden, []);
  }

  lemma WordCaptured(limit: nat, cx: Ctx)
    requires Unbound(cx)
    ensures Capture(cx, Library(limit), Obj(LIST, [ELEMENT]), Obj(LIST, [A_WORD])) == cx[0 := A_WORD]
  {
    var o, words, template := Library(limit), Obj(LIST, [A_WORD]), Obj(LIST, [ELEMENT]);
    WalkToSelf(o, words, template);
    assert AppliedSupertype(o, words, template) == Some(words);
    OneCaptured(cx, o, ELEMENT, A_WORD);
  }

  lemma OneCaptured(cx: Ctx, o: Oracle, template: Ty, actual: Ty)
    ensures CaptureEach(cx, o, [template], [actual]) == Capture(cx, o, template, actual)
  {
    var captured := Capture(cx, o, template, actual);
    assert [template][1..] == [] && [actual][1..] == [];
    assert CaptureEach(captured, o, [], []) == captured;
  }

  /** Capture does bind there: `Table<Word>` against `Collection<out List<T>>` binds `T` to `Word`. */
  lemma CaptureBindsWord(n: nat, limit: nat, cx: Ctx, r: Ranks, hidden: set<Symbol>)
    requires n >= 10 && Unbound(cx) && Flat(r) && r.symbols == map[] && hidden == {0}
    ensures Assign(n, cx, Library(limit), Obj(TABLE, [A_WORD]),
      Obj(COLLECTION, [Projection(Out, Obj(LIST, [ELEMENT]))])) != Exhausted
    ensures Capture(cx, Library(limit), Obj(LIST, [ELEMENT]), Obj(LIST, [A_WORD])) == cx[0 := A_WORD]
  {
    WordCaptured(limit, cx);
    CaptureFlat(r, hidden, 2);
    WordShapes(CaptureScope(limit, hidden, 2), limit, r, hidden);
    WordShapes(CaptureScope(limit, hidden, 2), limit, CaptureRanks(r, hidden, 2), hidden);
    CaptureEnds(n, limit, cx, r, hidden, 2, Obj(TABLE, [A_WORD]),
      Obj(COLLECTION, [Projection(Out, Obj(LIST, [ELEMENT]))]));
  }

  // ---------------------------------------------------------------- a variable on both sides

  /** The target `Collection<out Collection<T>>`, and `Collection<T>` in its bound. */
  const ELEMENTS: Ty := Obj(COLLECTION, [ELEMENT])
  const SHARED: Ty := Obj(COLLECTION, [Projection(Out, ELEMENTS)])

  lemma SharedShapes(w: Scope, limit: nat, r: Ranks)
    requires OfLibrary(w, limit) && Flat(r) && w.flexible && 0 in w.Known() && 0 in w.symbols && r.Of(0) <= 2
    ensures Tame(w, Obj(TABLE, [ELEMENT])) && Tame(w, SHARED)
    ensures Depth(r, Obj(TABLE, [ELEMENT])) <= 6 && Depth(r, SHARED) <= 8
  {
    OneArgument(w, r, w.Known(), TABLE, ELEMENT);
    OneArgument(w, r, w.Known(), COLLECTION, ELEMENT);
    OneArgument(w, r, w.Known(), COLLECTION, Projection(Out, ELEMENTS));
    assert AllTame(w, []) && MaxDepth(r, []) == 0;
  }

  /** Capture takes `List<T>` through `Collection<T>` to the same variable, which it leaves unbound. */
  lemma SharedOrderly(w: Scope, limit: nat, r: Ranks)
    ensures Orderly(w, Library(limit), r, ELEMENTS, Obj(LIST, [ELEMENT]))
    ensures Aligned(1, w, Library(limit), r, Obj(LIST, [ELEMENT]), ELEMENTS)
  {
    var o := Library(limit);
    WalkOneStep(o, Obj(LIST, [ELEMENT]), ELEMENTS, ELEMENTS);
    assert OrderlyPieces(w, o, r, ELEMENT, ELEMENT) && Aligned(0, w, o, r, ELEMENT, ELEMENT);
    OneOrderly(w, o, r, ELEMENT, ELEMENT);
    assert AlignedArg(0, w, o, r, Some(COLLECTION), 0, ELEMENT, ELEMENT);
    OneAligned(0, w, o, r, COLLECTION, ELEMENT, ELEMENT);
  }

  lemma OneAligned(k: nat, w: Scope, o: Oracle, r: Ranks, owner: Name, p: Ty, given: Ty)
    ensures AlignedArgs(k, w, o, r, Some(owner), 0, [p], [given]) <==> AlignedArg(k, w, o, r, Some(owner), 0, p, given)
  {
    assert [p][1..] == [] && [given][1..] == [] && AlignedArgs(k, w, o, r, Some(owner), 1, [], []);
  }

  lemma OneOrderly(w: Scope, o: Oracle, r: Ranks, template: Ty, actual: Ty)
    ensures AllOrderly(w, o, r, [template], [actual]) <==> Orderly(w, o, r, template, actual)
  {
    assert [template][1..] == [] && AllOrderly(w, o, r, [], []);
  }

  lemma SharedGuarded(w: Scope, limit: nat, r: Ranks)
    ensures Guarded(w, Library(limit), r, Obj(TABLE, [ELEMENT]), SHARED)
  {
    var o := Library(limit);
    var given, p := Obj(LIST, [ELEMENT]), Projection(Out, ELEMENTS);
    WalkOneStep(o, Obj(TABLE, [ELEMENT]), SHARED, Obj(COLLECTION, [given]));
    SharedOrderly(w, limit, r);
    assert AlignedArg(1, w, o, r, Some(COLLECTION), 0, p, given);
    OneAligned(1, w, o, r, COLLECTION, p, given);
    assert Aligned(2, w, o, r, Obj(TABLE, [ELEMENT]), SHARED);
  }

  /** The guard lets the same unbound variable stand on both sides: `Table<T>` against
      `Collection<out Collection<T>>` ends. */
  lemma SharedEnds(n: nat, limit: nat, cx: Ctx, r: Ranks)
    requires n >= 14 && Unbound(cx) && Flat(r) && r.symbols == map[]
    ensures Assign(n, cx, Library(limit), Obj(TABLE, [ELEMENT]), SHARED) != Exhausted
  {
    var w, q := CaptureScope(limit, {0}, 2), CaptureRanks(r, {0}, 2);
    CaptureFlat(r, {0}, 2);
    LibraryWorld(w, q, limit);
    SharedShapes(w, limit, q);
    SharedGuarded(w, limit, q);
    Terminates(n, w, cx, Library(limit), q, Obj(TABLE, [ELEMENT]), SHARED);
  }
}
