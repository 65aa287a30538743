/** Declared supertypes: templates over a class's own parameters, valid for its declared variance, and
    what the hierarchy walk makes of them. */
module Declarations {
  import opened Options
  import opened Types
  import opened Hierarchy
  import opened Termination

  /** A supertype argument as declared: a parameter of the declaring class, a fixed type, or a class
      applied to arguments of these kinds. */
  datatype Slot = Own(index: nat) | Fixed(ty: Ty) | Nested(name: Name, slots: seq<Slot>)

  /** A direct supertype `name<slots[0], slots[1], ...>`. */
  datatype Parent = Parent(name: Name, slots: seq<Slot>)

  /** What has declared supertypes: a class, or the function types of one arity, whose parameters are
      the function's own parameters and then its result. */
  datatype Head = Cls(name: Name) | FunHead(arity: nat, isSuspend: bool)

  /** The declarations of a hierarchy, and the classifiers and variables a comparison may meet. */
  datatype Decls = Decls(
    arity: Name -> nat,
    parents: Name -> seq<Parent>,
    functionParents: (nat, bool) -> seq<Parent>,
    bound: Symbol -> Ty,
    classes: iset<Name>,
    symbols: iset<Symbol>)
  {
    function Arity(h: Head): nat { if h.Cls? then arity(h.name) else h.arity + 1 }

    function Parents(h: Head): seq<Parent>
    {
      if h.Cls? then parents(h.name) else functionParents(h.arity, h.isSuspend)
    }

    ghost predicate Has(h: Head)
    {
      (if h.Cls? then h.name else FunctionClass(h.arity, h.isSuspend)) in classes
    }

    /** Nothing is bound, nothing can be captured, and no type is projected or flexible. */
    function InScope(): Scope { Scope({}, {}, symbols, classes, false, 2) }
  }

  function HeadOf(t: Ty): Head
    requires t.Obj? || t.Fun?
  {
    if t.Obj? then Cls(t.name) else FunHead(|t.params|, t.isSuspend)
  }

  function ArgsOf(t: Ty): seq<Ty>
    requires t.Obj? || t.Fun?
  {
    if t.Obj? then t.args else t.params + [t.ret]
  }

  /** Fully applied classes, functions, `Nothing`, intersections, variables that carry their own bound, and
      the nullable forms of these. */
  ghost predicate InFragment(d: Decls, t: Ty)
    decreases t, 0
  {
    match t
    case Nothing => true
    case Obj(name, args) =>
      name in d.classes && !name.FunctionClass? && |args| == d.arity(name) && AllInFragment(d, args)
    case Fun(params, ret, _, _, s) =>
      FunctionClass(|params|, s) in d.classes && AllInFragment(d, params) && InFragment(d, ret)
    case Nullable(inner) => !inner.Nullable? && InFragment(d, inner)
    case Variable(inference, symbol, bound) =>
      symbol in d.symbols && !inference && bound == d.bound(symbol) && InFragment(d, bound)
    case Intersection(parts) => AllInFragment(d, parts)
    case _ => false
  }

  ghost predicate AllInFragment(d: Decls, ts: seq<Ty>)
    decreases ts, 1
  {
    ts == [] || (InFragment(d, ts[0]) && AllInFragment(d, ts[1..]))
  }

  lemma {:induction false} FragmentAt(d: Decls, ts: seq<Ty>)
    ensures AllInFragment(d, ts) <==> forall t <- ts :: InFragment(d, t)
  {
    if ts != [] {
      FragmentAt(d, ts[1..]);
      assert forall t :: t in ts <==> t == ts[0] || t in ts[1..];
      assert (forall t <- ts :: InFragment(d, t)) <==> InFragment(d, ts[0]) && forall t <- ts[1..] :: InFragment(d, t);
    }
  }

  // ---------------------------------------------------------------- templates

  predicate Covers(slot: Slot, arity: nat)
  {
    match slot
    case Own(index) => index < arity
    case Fixed(_) => true
    case Nested(_, slots) => forall j :: 0 <= j < |slots| ==> Covers(slots[j], arity)
  }

  predicate AllCover(slots: seq<Slot>, arity: nat)
  {
    forall j :: 0 <= j < |slots| ==> Covers(slots[j], arity)
  }

  function Fill(slot: Slot, xs: seq<Ty>): Ty
    requires Covers(slot, |xs|)
  {
    match slot
    case Own(index) => xs[index]
    case Fixed(ty) => ty
    case Nested(name, slots) => Obj(name, seq(|slots|, j requires 0 <= j < |slots| => Fill(slots[j], xs)))
  }

  function FillAll(slots: seq<Slot>, xs: seq<Ty>): (r: seq<Ty>)
    requires AllCover(slots, |xs|)
    ensures |r| == |slots|
  {
    seq(|slots|, j requires 0 <= j < |slots| => Fill(slots[j], xs))
  }

  /** A template over the parameters of a supertype, put in terms of the class that applies it to `via`. */
  function Subst(slot: Slot, via: seq<Slot>): Slot
    requires Covers(slot, |via|)
  {
    match slot
    case Own(index) => via[index]
    case Fixed(_) => slot
    case Nested(name, slots) => Nested(name, seq(|slots|, j requires 0 <= j < |slots| => Subst(slots[j], via)))
  }

  function SubstAll(slots: seq<Slot>, via: seq<Slot>): (r: seq<Slot>)
    requires AllCover(slots, |via|)
    ensures |r| == |slots|
  {
    seq(|slots|, j requires 0 <= j < |slots| => Subst(slots[j], via))
  }

  function Identity(n: nat): (r: seq<Slot>)
    ensures |r| == n && AllCover(r, n)
  {
    seq(n, i requires 0 <= i => Own(i))
  }

  lemma FillIdentity(xs: seq<Ty>)
    ensures FillAll(Identity(|xs|), xs) == xs
  {
  }

  lemma SubstIdentity(via: seq<Slot>)
    ensures SubstAll(Identity(|via|), via) == via
  {
  }

  lemma {:induction false} FillSubst(slot: Slot, via: seq<Slot>, xs: seq<Ty>)
    requires Covers(slot, |via|) && AllCover(via, |xs|)
    ensures Covers(Subst(slot, via), |xs|)
    ensures Fill(Subst(slot, via), xs) == Fill(slot, FillAll(via, xs))
  {
    if slot.Nested? {
      var slots := slot.slots;
      forall j | 0 <= j < |slots|
        ensures Covers(Subst(slots[j], via), |xs|) && Fill(Subst(slots[j], via), xs) == Fill(slots[j], FillAll(via, xs))
      {
        FillSubst(slots[j], via, xs);
      }
      var substituted := Subst(slot, via);
      assert forall j :: 0 <= j < |slots| ==> substituted.slots[j] == Subst(slots[j], via);
      assert Fill(substituted, xs).args == Fill(slot, FillAll(via, xs)).args;
    }
  }

  lemma FillAllSubst(slots: seq<Slot>, via: seq<Slot>, xs: seq<Ty>)
    requires AllCover(slots, |via|) && AllCover(via, |xs|)
    ensures AllCover(SubstAll(slots, via), |xs|)
    ensures FillAll(SubstAll(slots, via), xs) == FillAll(slots, FillAll(via, xs))
  {
    forall j | 0 <= j < |slots|
      ensures Covers(SubstAll(slots, via)[j], |xs|)
      ensures Fill(SubstAll(slots, via)[j], xs) == Fill(slots[j], FillAll(via, xs))
    {
      FillSubst(slots[j], via, xs);
    }
  }

  lemma {:induction false} SubstSubst(slot: Slot, next: seq<Slot>, via: seq<Slot>)
    requires Covers(slot, |next|) && AllCover(next, |via|)
    ensures Covers(Subst(slot, next), |via|)
    ensures Subst(Subst(slot, next), via) == Subst(slot, SubstAll(next, via))
  {
    if slot.Nested? {
      var slots := slot.slots;
      forall j | 0 <= j < |slots|
        ensures Covers(Subst(slots[j], next), |via|)
        ensures Subst(Subst(slots[j], next), via) == Subst(slots[j], SubstAll(next, via))
      {
        SubstSubst(slots[j], next, via);
      }
      var substituted := Subst(slot, next);
      assert forall j :: 0 <= j < |slots| ==> substituted.slots[j] == Subst(slots[j], next);
      assert Subst(substituted, via).slots == Subst(slot, SubstAll(next, via)).slots;
    }
  }

  lemma SubstAllSubst(slots: seq<Slot>, next: seq<Slot>, via: seq<Slot>)
    requires AllCover(slots, |next|) && AllCover(next, |via|)
    ensures AllCover(SubstAll(slots, next), |via|)
    ensures SubstAll(SubstAll(slots, next), via) == SubstAll(slots, SubstAll(next, via))
  {
    forall j | 0 <= j < |slots|
      ensures Covers(SubstAll(slots, next)[j], |via|)
      ensures Subst(SubstAll(slots, next)[j], via) == Subst(slots[j], SubstAll(next, via))
    {
      SubstSubst(slots[j], next, via);
    }
  }

  // ---------------------------------------------------------------- valid declarations

  ghost function VarianceOf(o: Oracle, h: Head, i: nat): Variance
  {
    if h.Cls? then o.variance(h.name, i) else if i < h.arity then Contravariant else Covariant
  }

  /** A parameter declared `w` may stand in a supertype's slot declared `v`. */
  predicate Allowed(v: Variance, w: Variance)
  {
    w == Invariant || v == w
  }

  /** The variance of a slot declared `w` inside a slot of variance `v`. */
  function Through(v: Variance, w: Variance): Variance
  {
    if v == Invariant || w == Invariant then Invariant
    else if v == w then Covariant
    else Contravariant
  }

  /** `slot` of `h` may stand where the variance is `v`: its parameters are allowed there, and whatever
      else it names is in the fragment. */
  ghost predicate Suits(d: Decls, o: Oracle, h: Head, v: Variance, slot: Slot)
    decreases slot
  {
    match slot
    case Own(index) => index < d.Arity(h) && Allowed(v, VarianceOf(o, h, index))
    case Fixed(ty) => InFragment(d, ty)
    case Nested(name, slots) =>
      && name in d.classes && !name.FunctionClass? && |slots| == d.arity(name)
      && forall j: nat :: j < |slots| ==> Suits(d, o, h, Through(v, o.variance(name, j)), slots[j])
  }

  ghost predicate AllSuit(d: Decls, o: Oracle, h: Head, c: Name, slots: seq<Slot>)
  {
    forall j: nat :: j < |slots| ==> Suits(d, o, h, o.variance(c, j), slots[j])
  }

  ghost predicate ParentsValid(d: Decls, o: Oracle, h: Head)
  {
    forall p <- d.Parents(h) :: ParentValid(d, o, h, p)
  }

  /** A function type may have its own classifier above it, and no class may have a function classifier. */
  ghost predicate ParentValid(d: Decls, o: Oracle, h: Head, p: Parent)
  {
    && p.name in d.classes && |p.slots| == d.arity(p.name) && AllSuit(d, o, h, p.name, p.slots)
    && AllCover(p.slots, d.Arity(h))
    && (p.name.FunctionClass? ==> h.FunHead? && p.name == FunctionClass(h.arity, h.isSuspend))
  }

  function Apply(parents: seq<Parent>, args: seq<Ty>): (r: seq<Ty>)
    requires forall p <- parents :: AllCover(p.slots, |args|)
    ensures |r| == |parents|
  {
    seq(|parents|, i requires 0 <= i < |parents| => Obj(parents[i].name, FillAll(parents[i].slots, args)))
  }

  /** A nominal or function type in scope, with as many arguments as its head has parameters. */
  ghost predicate FullyApplied(d: Decls, t: Ty)
  {
    (t.Obj? || t.Fun?) && d.Has(HeadOf(t)) && |ArgsOf(t)| == d.Arity(HeadOf(t))
  }

  /** The supertypes of a fully applied type are its head's parents, applied to its arguments. */
  ghost predicate SupersApplied(d: Decls, o: Oracle, t: Ty)
  {
    FullyApplied(d, t) ==> ParentsValid(d, o, HeadOf(t)) && o.supers(t) == Apply(d.Parents(HeadOf(t)), ArgsOf(t))
  }

  /** The parent of plain functions that stands for a parent of suspending ones. */
  function Twin(n: nat, p: Parent): Parent
  {
    if p.name == FunctionClass(n, true) then Parent(FunctionClass(n, false), p.slots) else p
  }

  /** Apart from their own classifier, suspending functions inherit nothing plain ones do not. */
  ghost predicate FunctionsAlike(d: Decls)
  {
    && (forall n: nat, p <- d.functionParents(n, true) :: Twin(n, p) in d.functionParents(n, false))
    && (forall n: nat :: d.parents(FunctionClass(n, true)) == d.parents(FunctionClass(n, false)))
  }

  ghost predicate HeadsValid(d: Decls, o: Oracle)
  {
    forall h {:trigger d.Parents(h)} :: d.Has(h) ==> ParentsValid(d, o, h)
  }

  /** `d` is the hierarchy `o` answers for within the scope: supertypes are valid templates applied to
      the class's arguments. */
  ghost predicate Declares(d: Decls, o: Oracle)
  {
    && HeadsValid(d, o)
    && (forall t {:trigger o.supers(t)} :: SupersApplied(d, o, t))
    && (forall a, b :: a in d.classes && b in d.classes ==> (o.sameClass(a, b) <==> a == b))
    && d.parents(AnyClass) == [] && d.parents(JavaObject) == []
    && FunctionsAlike(d)
    && NamesUniform(o)
  }

  // ---------------------------------------------------------------- ancestors

  /** `g` is reached from `h` in `steps` declared steps, applied to the templates `slots` over `h`. */
  ghost predicate Ancestor(d: Decls, steps: nat, h: Head, g: Head, slots: seq<Slot>)
  {
    if steps == 0 then g == h && slots == Identity(d.Arity(h))
    else exists mid, via: seq<Slot>, p ::
      Ancestor(d, steps - 1, h, mid, via) && Declared(d, mid, p, g) && Composes(via, p.slots, slots)
  }

  predicate Declared(d: Decls, mid: Head, p: Parent, g: Head)
  {
    p in d.Parents(mid) && g == Cls(p.name)
  }

  predicate Composes(via: seq<Slot>, next: seq<Slot>, slots: seq<Slot>)
  {
    AllCover(next, |via|) && slots == SubstAll(next, via)
  }

  /** Every two ways from a class in scope to an ancestor apply it to the same arguments. */
  ghost predicate Coherent(d: Decls)
  {
    forall m: nat, n: nat, h, g, s, t {:trigger Ancestor(d, m, h, g, s), Ancestor(d, n, h, g, t)} ::
      d.Has(h) && Ancestor(d, m, h, g, s) && Ancestor(d, n, h, g, t) ==> s == t
  }

  lemma AncestorBack(d: Decls, steps: nat, h: Head, g: Head, slots: seq<Slot>)
    returns (mid: Head, via: seq<Slot>, p: Parent)
    requires steps > 0 && Ancestor(d, steps, h, g, slots)
    ensures Ancestor(d, steps - 1, h, mid, via) && Declared(d, mid, p, g) && Composes(via, p.slots, slots)
  {
    mid, via, p :| Ancestor(d, steps - 1, h, mid, via) && Declared(d, mid, p, g) && Composes(via, p.slots, slots);
  }

  /** A template fit for an invariant place is fit for any. */
  lemma {:induction false} SuitsAnywhere(d: Decls, o: Oracle, h: Head, v: Variance, slot: Slot)
    requires Suits(d, o, h, Invariant, slot)
    ensures Suits(d, o, h, v, slot)
    decreases slot
  {
    if slot.Nested? {
      forall j: nat | j < |slot.slots| ensures Suits(d, o, h, Through(v, o.variance(slot.name, j)), slot.slots[j]) {
        assert Suits(d, o, h, Through(Invariant, o.variance(slot.name, j)), slot.slots[j]);
        SuitsAnywhere(d, o, h, Through(v, o.variance(slot.name, j)), slot.slots[j]);
      }
    }
  }

  /** Every argument given to `mid` suits the parameter it is given for. */
  ghost predicate Given(d: Decls, o: Oracle, h: Head, mid: Head, via: seq<Slot>)
  {
    |via| == d.Arity(mid) && forall k: nat :: k < |via| ==> Suits(d, o, h, VarianceOf(o, mid, k), via[k])
  }

  lemma {:induction false} SuitsSubst(d: Decls, o: Oracle, h: Head, mid: Head, via: seq<Slot>, v: Variance, slot: Slot)
    requires Given(d, o, h, mid, via) && Suits(d, o, mid, v, slot) && Covers(slot, |via|)
    ensures Suits(d, o, h, v, Subst(slot, via))
    decreases slot
  {
    match slot
    case Own(index) =>
      assert Suits(d, o, h, VarianceOf(o, mid, index), via[index]);
      if v != VarianceOf(o, mid, index) { SuitsAnywhere(d, o, h, v, via[index]); }
    case Fixed(_) =>
    case Nested(name, slots) =>
      forall j: nat | j < |slots|
        ensures Suits(d, o, h, Through(v, o.variance(name, j)), Subst(slots[j], via))
      {
        SuitsSubst(d, o, h, mid, via, Through(v, o.variance(name, j)), slots[j]);
      }
  }

  lemma {:induction false} SuitsCovers(d: Decls, o: Oracle, h: Head, v: Variance, slot: Slot)
    requires Suits(d, o, h, v, slot)
    ensures Covers(slot, d.Arity(h))
    decreases slot
  {
    if slot.Nested? {
      forall j: nat | j < |slot.slots| ensures Covers(slot.slots[j], d.Arity(h)) {
        SuitsCovers(d, o, h, Through(v, o.variance(slot.name, j)), slot.slots[j]);
      }
    }
  }

  /** Ancestors stay in scope, and templates compose under the declared variances. */
  lemma {:induction false} AncestorShape(d: Decls, o: Oracle, steps: nat, h: Head, g: Head, slots: seq<Slot>)
    requires Declares(d, o) && d.Has(h) && Ancestor(d, steps, h, g, slots)
    ensures d.Has(g) && Given(d, o, h, g, slots) && AllCover(slots, d.Arity(h))
    ensures g != h ==> g.Cls? && (h.Cls? ==> !g.name.FunctionClass?)
  {
    if steps > 0 {
      var mid, via, p := AncestorBack(d, steps, h, g, slots);
      AncestorShape(d, o, steps - 1, h, mid, via);
      assert ParentsValid(d, o, mid) && ParentValid(d, o, mid, p);
      forall j: nat | j < |slots| ensures Suits(d, o, h, o.variance(p.name, j), slots[j]) {
        SuitsSubst(d, o, h, mid, via, o.variance(p.name, j), p.slots[j]);
      }
    }
    forall j | 0 <= j < |slots| ensures Covers(slots[j], d.Arity(h)) {
      SuitsCovers(d, o, h, VarianceOf(o, g, j), slots[j]);
    }
  }

  /** `g` is an ancestor of `h`, applied through the templates `s` and then `t`. */
  ghost predicate AncestorVia(d: Decls, steps: nat, h: Head, g: Head, s: seq<Slot>, t: seq<Slot>)
  {
    AllCover(t, |s|) && Ancestor(d, steps, h, g, SubstAll(t, s))
  }

  lemma ViaSelf(d: Decls, m: nat, h: Head, mid: Head, g: Head, s: seq<Slot>, t: seq<Slot>)
    requires Ancestor(d, m, h, mid, s) && |s| == d.Arity(mid) && Ancestor(d, 0, mid, g, t)
    ensures AncestorVia(d, m, h, g, s, t)
  {
    SubstIdentity(s);
  }

  lemma ViaParent(
      d: Decls, steps: nat, h: Head, last: Head, s: seq<Slot>, via: seq<Slot>, p: Parent, g: Head, t: seq<Slot>)
    requires AncestorVia(d, steps, h, last, s, via) && Declared(d, last, p, g) && Composes(via, p.slots, t)
    ensures AncestorVia(d, steps + 1, h, g, s, t)
  {
    SubstAllSubst(p.slots, via, s);
    assert Composes(SubstAll(via, s), p.slots, SubstAll(t, s));
  }

  /** Ancestors of an ancestor. */
  lemma {:induction false} AncestorCompose(
      d: Decls, m: nat, n: nat, h: Head, mid: Head, g: Head, s: seq<Slot>, t: seq<Slot>)
    requires Ancestor(d, m, h, mid, s) && |s| == d.Arity(mid) && Ancestor(d, n, mid, g, t)
    ensures AncestorVia(d, m + n, h, g, s, t)
    decreases n
  {
    if n == 0 {
      ViaSelf(d, m, h, mid, g, s, t);
    } else {
      var last, via, p := AncestorBack(d, n, mid, g, t);
      AncestorCompose(d, m, n - 1, h, mid, last, s, via);
      ViaParent(d, m + n - 1, h, last, s, via, p, g, t);
    }
  }

  function TwinHead(n: nat, h: Head): Head
  {
    if h == FunHead(n, true) then FunHead(n, false)
    else if h == Cls(FunctionClass(n, true)) then Cls(FunctionClass(n, false))
    else h
  }

  /** What a suspending function type reaches, a plain one of its arity reaches in as many steps. */
  lemma {:induction false} SuspendAlike(d: Decls, o: Oracle, steps: nat, n: nat, g: Head, slots: seq<Slot>)
    requires Declares(d, o) && d.Has(FunHead(n, true)) && Ancestor(d, steps, FunHead(n, true), g, slots)
    ensures Ancestor(d, steps, FunHead(n, false), TwinHead(n, g), slots)
  {
    if steps > 0 {
      var mid, via, p := AncestorBack(d, steps, FunHead(n, true), g, slots);
      SuspendAlike(d, o, steps - 1, n, mid, via);
      AncestorShape(d, o, steps - 1, FunHead(n, true), mid, via);
      var q := ParentAlike(d, o, n, mid, p, g);
    }
  }

  lemma ParentAlike(d: Decls, o: Oracle, n: nat, mid: Head, p: Parent, g: Head) returns (q: Parent)
    requires Declares(d, o) && d.Has(mid) && (mid.Cls? || mid == FunHead(n, true)) && Declared(d, mid, p, g)
    ensures q.slots == p.slots && Declared(d, TwinHead(n, mid), q, TwinHead(n, g))
  {
    assert FunctionsAlike(d) && ParentsValid(d, o, mid) && ParentValid(d, o, mid, p);
    q := if mid.FunHead? then Twin(n, p) else p;
    if mid.FunHead? {
      assert p in d.functionParents(n, true) && q in d.functionParents(n, false);
    } else if mid.name == FunctionClass(n, true) {
      assert d.parents(FunctionClass(n, true)) == d.parents(FunctionClass(n, false));
    }
  }

  // ---------------------------------------------------------------- the walk over declarations

  lemma ParentStep(d: Decls, o: Oracle, t: Ty, p: Parent)
    requires Declares(d, o) && FullyApplied(d, t) && p in d.Parents(HeadOf(t))
    ensures AllCover(p.slots, |ArgsOf(t)|) && Step(o, t, Obj(p.name, FillAll(p.slots, ArgsOf(t))))
  {
    assert SupersApplied(d, o, t) && ParentValid(d, o, HeadOf(t), p);
    var i :| 0 <= i < |d.Parents(HeadOf(t))| && d.Parents(HeadOf(t))[i] == p;
    assert o.supers(t)[i] == Obj(p.name, FillAll(p.slots, ArgsOf(t)));
  }

  lemma {:induction false} AncestorReached(d: Decls, o: Oracle, steps: nat, t: Ty, g: Head, slots: seq<Slot>)
    requires Declares(d, o) && FullyApplied(d, t) && steps > 0 && Ancestor(d, steps, HeadOf(t), g, slots)
    ensures g.Cls? && AllCover(slots, |ArgsOf(t)|) && ReachesIn(o, steps, t, Obj(g.name, FillAll(slots, ArgsOf(t))))
  {
    AncestorShape(d, o, steps, HeadOf(t), g, slots);
    var mid, via, p := AncestorBack(d, steps, HeadOf(t), g, slots);
    AncestorShape(d, o, steps - 1, HeadOf(t), mid, via);
    var from := if steps == 1 then t else Obj(mid.name, FillAll(via, ArgsOf(t)));
    if steps > 1 {
      AncestorReached(d, o, steps - 1, t, mid, via);
    } else {
      FillIdentity(ArgsOf(t));
    }
    assert HeadOf(from) == mid && FullyApplied(d, from) && ArgsOf(from) == FillAll(via, ArgsOf(t));
    ParentStep(d, o, from, p);
    FillAllSubst(p.slots, via, ArgsOf(t));
  }

  /** A step of the walk follows a declared parent. */
  lemma StepParent(d: Decls, o: Oracle, t: Ty, to: Ty) returns (p: Parent)
    requires Declares(d, o) && FullyApplied(d, t) && Step(o, t, to)
    ensures p in d.Parents(HeadOf(t)) && ParentValid(d, o, HeadOf(t), p)
    ensures AllCover(p.slots, |ArgsOf(t)|) && to == Obj(p.name, FillAll(p.slots, ArgsOf(t)))
  {
    assert SupersApplied(d, o, t);
    var i :| 0 <= i < |o.supers(t)| && o.supers(t)[i] == to;
    p := d.Parents(HeadOf(t))[i];
  }

  lemma {:induction false} ReachedAncestor(d: Decls, o: Oracle, steps: nat, t: Ty, to: Ty)
    returns (slots: seq<Slot>)
    requires Declares(d, o) && FullyApplied(d, t) && steps > 0 && ReachesIn(o, steps, t, to)
    ensures to.Obj? && Ancestor(d, steps, HeadOf(t), Cls(to.name), slots)
    ensures AllCover(slots, |ArgsOf(t)|) && to.args == FillAll(slots, ArgsOf(t)) && FullyApplied(d, to)
  {
    var from :| ReachesIn(o, steps - 1, t, from) && Step(o, from, to);
    var via := Identity(d.Arity(HeadOf(t)));
    if steps > 1 {
      via := ReachedAncestor(d, o, steps - 1, t, from);
    } else {
      FillIdentity(ArgsOf(t));
    }
    var p := StepParent(d, o, from, to);
    slots := SubstAll(p.slots, via);
    FillAllSubst(p.slots, via, ArgsOf(t));
    assert Declared(d, HeadOf(from), p, Cls(to.name)) && Composes(via, p.slots, slots);
  }

  /** The worklist finds a declared ancestor, under its one instantiation. */
  lemma WalkFindsAncestor(d: Decls, o: Oracle, steps: nat, t: Ty, target: Ty, slots: seq<Slot>)
    requires Declares(d, o) && Coherent(d) && FullyApplied(d, t) && target.Obj?
    requires Ancestor(d, steps, HeadOf(t), Cls(target.name), slots)
    ensures AllCover(slots, |ArgsOf(t)|)
    ensures AppliedSupertype(o, t, target) == Some(Obj(target.name, FillAll(slots, ArgsOf(t))))
  {
    AncestorShape(d, o, steps, HeadOf(t), Cls(target.name), slots);
    var to := Obj(target.name, FillAll(slots, ArgsOf(t)));
    if steps == 0 {
      FillIdentity(ArgsOf(t));
      assert ReachesIn(o, 0, t, to);
    } else {
      AncestorReached(d, o, steps, t, Cls(target.name), slots);
    }
    WorklistExact(o, t, target);
    assert Reaches(o, t, to) && Matches(o, target.name, to);
    var other := WalkAncestor(d, o, t, target);
  }

  /** What the worklist finds is a declared ancestor. */
  lemma WalkAncestor(d: Decls, o: Oracle, t: Ty, target: Ty) returns (slots: seq<Slot>)
    requires Declares(d, o) && FullyApplied(d, t) && target.Obj? && target.name in d.classes
    requires AppliedSupertype(o, t, target).Some?
    ensures exists steps: nat :: Ancestor(d, steps, HeadOf(t), Cls(target.name), slots)
    ensures AllCover(slots, |ArgsOf(t)|)
    ensures AppliedSupertype(o, t, target) == Some(Obj(target.name, FillAll(slots, ArgsOf(t))))
  {
    WorklistOnPath(o, t, target);
    var to := AppliedSupertype(o, t, target).value;
    var steps: nat :| ReachesIn(o, steps, t, to);
    if steps == 0 {
      slots := Identity(d.Arity(HeadOf(t)));
      FillIdentity(ArgsOf(t));
      assert Ancestor(d, 0, HeadOf(t), Cls(target.name), slots);
    } else {
      slots := ReachedAncestor(d, o, steps, t, to);
    }
  }

  lemma WalkFindsVia(d: Decls, o: Oracle, steps: nat, t: Ty, target: Ty, s: seq<Slot>, via: seq<Slot>)
    requires Declares(d, o) && Coherent(d) && FullyApplied(d, t) && target.Obj? && AllCover(s, |ArgsOf(t)|)
    requires AncestorVia(d, steps, HeadOf(t), Cls(target.name), s, via)
    ensures AppliedSupertype(o, t, target) == Some(Obj(target.name, FillAll(via, FillAll(s, ArgsOf(t)))))
  {
    WalkFindsAncestor(d, o, steps, t, target, SubstAll(via, s));
    FillAllSubst(via, s, ArgsOf(t));
  }

  lemma {:induction false} NoAncestors(d: Decls, steps: nat, h: Head, g: Head, slots: seq<Slot>)
    requires d.Parents(h) == [] && Ancestor(d, steps, h, g, slots)
    ensures g == h
  {
    if steps > 0 {
      var mid, via, p := AncestorBack(d, steps, h, g, slots);
      NoAncestors(d, steps - 1, h, mid, via);
    }
  }
}
