/** What the types of the example library mean: a model of a hierarchy with generic, nested and
    self-referring supertypes, and what soundness says of it. */
module LibraryValues {
  import opened Options
  import opened Types
  import opened Hierarchy
  import opened Assignable
  import opened Termination
  import opened Declarations
  import opened Transitivity
  import opened Meaning
  import opened Soundness
  import opened Example

  /** The things there are of each kind, and what each of them holds. */
  datatype Stock = Stock(
    lists: iset<Element>,
    tables: iset<Element>,
    collections: iset<Element>,
    words: iset<Element>,
    holds: Element -> Values)

  ghost predicate Shelved(s: Stock) { s.lists <= s.collections && s.tables <= s.collections }

  ghost const ALL: Values := NON_NULL + iset{NullValue}

  /** Whether what a thing holds suits its type argument. */
  ghost predicate Suited(d: ArgDen, held: Values)
  {
    match d
    case Exact(values) => held <= values
    case OutDen(values) => held <= values
    case _ => true
  }

  ghost function Holding(s: Stock, things: iset<Element>, ds: seq<ArgDen>): Values
  {
    iset v: Value | v.Ref? && v.element in things && (|ds| == 1 ==> Suited(ds[0], s.holds(v.element)))
  }

  ghost function Instances(s: Stock, name: Name, ds: seq<ArgDen>): Values
  {
    if name == LIST then Holding(s, s.lists, ds)
    else if name == COLLECTION then Holding(s, s.collections, ds)
    else if name == TABLE then Holding(s, s.tables, if |ds| == 1 then [Exact(Holding(s, s.lists, ds))] else [])
    else if name == WORD then iset v: Value | v.Ref? && v.element in s.words
    else NON_NULL
  }

  ghost function Contents(s: Stock): Interp
  {
    Interp((name, ds) => Instances(s, name, ds), (_, _, _) => NON_NULL, (_, _) => iset{}, (_, _) => ALL, NON_NULL)
  }

  lemma HoldingVaries(s: Stock, limit: nat, things: iset<Element>, c: Name, d: ArgDen, e: ArgDen)
    requires Contained(Contents(s), Library(limit), c, 0, d, e) && VarianceIn(c, 0) == Covariant
    ensures Holding(s, things, [d]) <= Holding(s, things, [e])
  {
    forall v | v in Holding(s, things, [d]) ensures v in Holding(s, things, [e]) {
      assert s.holds(v.element) <= ALL;
    }
  }

  lemma InstancesVary(s: Stock, limit: nat, c: Name, ds: seq<ArgDen>, es: seq<ArgDen>)
    requires |ds| == |es| && forall i :: 0 <= i < |ds| ==> Contained(Contents(s), Library(limit), c, i, ds[i], es[i])
    ensures Instances(s, c, ds) <= Instances(s, c, es)
  {
    if |ds| == 1 && c in {LIST, COLLECTION, TABLE} {
      assert ds == [ds[0]] && es == [es[0]];
      HoldingVaries(s, limit, s.lists, c, ds[0], es[0]);
      HoldingVaries(s, limit, s.collections, c, ds[0], es[0]);
    }
  }

  lemma LibraryVaries(s: Stock, limit: nat)
    ensures ClassesVary(Contents(s), Library(limit))
  {
    var I, o := Contents(s), Library(limit);
    forall c, ds, es | |ds| == |es| && (forall i :: 0 <= i < |ds| ==> Contained(I, o, c, i, ds[i], es[i]))
      ensures I.cls(c, ds) <= I.cls(c, es)
    {
      InstancesVary(s, limit, c, ds, es);
    }
  }

  lemma {:induction false} OneSlot(I: Interp, cx: Ctx, o: Oracle, c: Name, arg: Ty)
    ensures SlotsDenotable(I, cx, o, c, 0, [arg]) <==>
      Denotable(I, cx, o, arg) && SlotFits(I, cx, o, c, 0, arg, Den(I, arg))
    ensures ArgDens(I, [arg]) == [DenOfArg(I, arg)]
  {
    assert [arg][1..] == [] && SlotsDenotable(I, cx, o, c, 1, []);
  }

  /** A slot of a class with covariant parameters is a slot of any other, and of no worse a reading. */
  lemma {:induction false} SlotAt(I: Interp, cx: Ctx, o: Oracle, c: Name, i: nat, args: seq<Ty>, k: nat)
    requires SlotsDenotable(I, cx, o, c, i, args) && k < |args|
    ensures Denotable(I, cx, o, args[k]) && SlotFits(I, cx, o, c, i + k, args[k], Den(I, args[k]))
    decreases |args|
  {
    if k > 0 { SlotAt(I, cx, o, c, i + 1, args[1..], k - 1); }
  }

  /** The lists over one argument are denotable, and so is what is above lists, tables and functions. */
  lemma AboveDenotable(s: Stock, limit: nat, cx: Ctx, t: Ty, arg: Ty)
    requires Denotable(Contents(s), cx, Library(limit), arg)
    requires t == Obj(COLLECTION, [arg]) || t == Obj(LIST, [arg]) || t == Obj(FUNCTION, [arg])
    requires SlotFits(Contents(s), cx, Library(limit), t.name, 0, arg, Den(Contents(s), arg))
    ensures Denotable(Contents(s), cx, Library(limit), t)
  {
    OneSlot(Contents(s), cx, Library(limit), t.name, arg);
  }

  lemma WordDenotable(s: Stock, limit: nat, cx: Ctx)
    ensures Denotable(Contents(s), cx, Library(limit), A_WORD)
    ensures Denotable(Contents(s), cx, Library(limit), Obj(COMPARABLE, [A_WORD]))
  {
    assert SlotsDenotable(Contents(s), cx, Library(limit), WORD, 0, []);
    OneSlot(Contents(s), cx, Library(limit), COMPARABLE, A_WORD);
  }

  ghost predicate Includes(s: Stock, limit: nat, cx: Ctx, t: Ty, above: Ty)
  {
    above.Obj? && Denotable(Contents(s), cx, Library(limit), above) && Den(Contents(s), t) <= Den(Contents(s), above)
  }

  lemma BareIncluded(s: Stock, limit: nat, cx: Ctx, t: Ty, name: Name)
    requires Shelved(s) && name in {COLLECTION, FUNCTION} && t.Obj?
    requires name == COLLECTION ==> t.name in {LIST, TABLE}
    ensures Includes(s, limit, cx, t, Obj(name, []))
  {
    assert SlotsDenotable(Contents(s), cx, Library(limit), name, 0, []) && ArgDens(Contents(s), []) == [];
  }

  lemma ListIncluded(s: Stock, limit: nat, cx: Ctx, t: Ty)
    requires Shelved(s) && Denotable(Contents(s), cx, Library(limit), t) && t.Obj? && t.name == LIST
    ensures Includes(s, limit, cx, t, Obj(COLLECTION, OnlyArgument(t.args)))
  {
    var I, o := Contents(s), Library(limit);
    if |t.args| == 1 {
      var arg := t.args[0];
      assert t.args == [arg];
      OneSlot(I, cx, o, LIST, arg);
      AboveDenotable(s, limit, cx, Obj(COLLECTION, [arg]), arg);
    } else {
      BareIncluded(s, limit, cx, t, COLLECTION);
    }
  }

  lemma TableIncluded(s: Stock, limit: nat, cx: Ctx, t: Ty)
    requires Shelved(s) && Denotable(Contents(s), cx, Library(limit), t) && t.Obj? && t.name == TABLE
    ensures Includes(s, limit, cx, t, Obj(COLLECTION, ListOf(t.args)))
  {
    var I, o := Contents(s), Library(limit);
    if |t.args| == 1 {
      var arg := t.args[0];
      assert t.args == [arg];
      OneSlot(I, cx, o, TABLE, arg);
      AboveDenotable(s, limit, cx, Obj(LIST, [arg]), arg);
      OneSlot(I, cx, o, COLLECTION, Obj(LIST, [arg]));
      AboveDenotable(s, limit, cx, Obj(COLLECTION, [Obj(LIST, [arg])]), Obj(LIST, [arg]));
    } else {
      BareIncluded(s, limit, cx, t, COLLECTION);
    }
  }

  lemma ClassifierIncluded(s: Stock, limit: nat, cx: Ctx, t: Ty)
    requires Denotable(Contents(s), cx, Library(limit), t) && t.Obj? && t.name.FunctionClass?
    requires Shelved(s)
    ensures Includes(s, limit, cx, t, Obj(FUNCTION, ResultOf(t.name.arity, t.args)))
  {
    var I, o := Contents(s), Library(limit);
    if |t.args| == t.name.arity + 1 {
      SlotAt(I, cx, o, t.name, 0, t.args, t.name.arity);
      AboveDenotable(s, limit, cx, Obj(FUNCTION, [t.args[t.name.arity]]), t.args[t.name.arity]);
    } else {
      BareIncluded(s, limit, cx, t, FUNCTION);
    }
  }

  lemma FunctionIncluded(s: Stock, limit: nat, cx: Ctx, t: Ty)
    requires Denotable(Contents(s), cx, Library(limit), t) && t.Fun?
    ensures Includes(s, limit, cx, t, FunctionApplication(t))
  {
    var I, o := Contents(s), Library(limit);
    WholeAt(I, cx, o, t.params);
    WholeAt(I, cx, o, t.params + [t.ret]);
    WholeSlots(I, cx, o, FunctionClass(|t.params|, t.isSuspend), 0, t.params + [t.ret]);
  }

  lemma SupertypeIncluded(s: Stock, limit: nat, cx: Ctx, t: Ty, above: Ty)
    requires Shelved(s) && Denotable(Contents(s), cx, Library(limit), t) && (t.Obj? || t.Fun?)
    requires above in Supertypes(limit, t)
    ensures Includes(s, limit, cx, t, above)
  {
    if t.Fun? {
      FunctionIncluded(s, limit, cx, t);
    } else if t.name.FunctionClass? {
      ClassifierIncluded(s, limit, cx, t);
    } else if t.name == LIST {
      ListIncluded(s, limit, cx, t);
    } else if t.name == TABLE {
      TableIncluded(s, limit, cx, t);
    } else {
      WordDenotable(s, limit, cx);
    }
  }

  lemma SupertypesIncluded(s: Stock, limit: nat, cx: Ctx)
    requires Shelved(s)
    ensures SubtypesIncluded(Contents(s), cx, Library(limit))
  {
    var I, o := Contents(s), Library(limit);
    forall t, above | above in o.supers(t) && (t.Obj? || t.Fun?) && Denotable(I, cx, o, t)
      ensures above.Obj? && Denotable(I, cx, o, above) && Den(I, t) <= Den(I, above)
    {
      SupertypeIncluded(s, limit, cx, t, above);
    }
  }

  lemma AnyDenotable(I: Interp, cx: Ctx, o: Oracle)
    ensures Denotable(I, cx, o, ANY) && Denotable(I, cx, o, NULLABLE_ANY)
  {
    assert SlotsDenotable(I, cx, o, AnyClass, 0, []);
  }

  lemma ParametersIncluded(s: Stock, limit: nat, cx: Ctx)
    ensures ParametersInBounds(Contents(s), cx, Library(limit))
  {
    var I, o := Contents(s), Library(limit);
    AnyDenotable(I, cx, o);
    assert ArgDens(I, []) == [] && Den(I, NULLABLE_ANY) == ALL;
    forall c, i: nat, b | b in ReadableBounds(o, Some(c), i) ensures Whole(I, cx, o, b) && I.top(c, i) <= Den(I, b) {
      assert b == NULLABLE_ANY;
    }
  }

  /** Every stock is a model of the library. */
  lemma LibraryModels(s: Stock, limit: nat, cx: Ctx)
    requires Shelved(s) && Unbound(cx)
    ensures Models(Contents(s), cx, Library(limit))
  {
    SupertypesIncluded(s, limit, cx);
    LibraryVaries(s, limit);
    ParametersIncluded(s, limit, cx);
  }

  // ---------------------------------------------------------------- what soundness rules out

  /** A value the target lacks refutes the comparison. */
  lemma Rejected(n: nat, I: Interp, cx: Ctx, o: Oracle, sub: Ty, sup: Ty, v: Value)
    requires Models(I, cx, o) && Denotable(I, cx, o, sub) && Denotable(I, cx, o, sup)
    requires v in Den(I, sub) && v !in Den(I, sup)
    ensures Assign(n, cx, o, sub, sup) != Yes
  {
    if Assign(n, cx, o, sub, sup) == Yes {
      Sound(n, I, cx, o, sub, sup);
    }
  }

  lemma ThingIn(s: Stock, limit: nat, cx: Ctx, name: Name, arg: Ty, e: Element)
    requires name in {LIST, COLLECTION} && Whole(Contents(s), cx, Library(limit), arg)
    ensures Denotable(Contents(s), cx, Library(limit), Obj(name, [arg]))
    ensures Ref(e) in Den(Contents(s), Obj(name, [arg])) <==>
      e in (if name == LIST then s.lists else s.collections) && s.holds(e) <= Den(Contents(s), arg)
  {
    OneSlot(Contents(s), cx, Library(limit), name, arg);
    AboveDenotable(s, limit, cx, Obj(name, [arg]), arg);
  }

  /** One list, which holds null. */
  ghost function NullList(e: Element): Stock { Stock(iset{e}, iset{}, iset{e}, iset{}, _ => iset{NullValue}) }

  /** A list of nullable elements is no collection of non-null ones: some list holds null. */
  lemma NullableElementsRejected(n: nat, limit: nat, cx: Ctx, e: Element)
    requires Unbound(cx)
    ensures Assign(n, cx, Library(limit), Obj(LIST, [NULLABLE_ANY]), Obj(COLLECTION, [ANY])) != Yes
  {
    var s := NullList(e);
    LibraryModels(s, limit, cx);
    AnyDenotable(Contents(s), cx, Library(limit));
    ThingIn(s, limit, cx, LIST, NULLABLE_ANY, e);
    ThingIn(s, limit, cx, COLLECTION, ANY, e);
    Rejected(n, Contents(s), cx, Library(limit), Obj(LIST, [NULLABLE_ANY]), Obj(COLLECTION, [ANY]), Ref(e));
  }

  /** One collection that is no list. */
  ghost function NoLists(e: Element): Stock { Stock(iset{}, iset{}, iset{e}, iset{}, _ => iset{}) }

  /** The supertype edge runs one way: no collection is assignable to a list, whatever their elements. */
  lemma CollectionsAreNoLists(n: nat, limit: nat, cx: Ctx, t: Ty, u: Ty, e: Element)
    requires Unbound(cx)
    requires Whole(Contents(NoLists(e)), cx, Library(limit), t) && Whole(Contents(NoLists(e)), cx, Library(limit), u)
    ensures Assign(n, cx, Library(limit), Obj(COLLECTION, [t]), Obj(LIST, [u])) != Yes
  {
    var s := NoLists(e);
    LibraryModels(s, limit, cx);
    ThingIn(s, limit, cx, COLLECTION, t, e);
    ThingIn(s, limit, cx, LIST, u, e);
    Rejected(n, Contents(s), cx, Library(limit), Obj(COLLECTION, [t]), Obj(LIST, [u]), Ref(e));
  }
}
