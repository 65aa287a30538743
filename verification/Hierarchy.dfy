/** The class-hierarchy oracle and the worklist that maps a type through it
    (`TypeOracle` and `applied_supertype`, src/assignable.rs). */
module Hierarchy {
  import opened Options
  import opened Types

  datatype Variance = Covariant | Contravariant | Invariant

  datatype OracleData = OracleData(
    classes: set<Name>,
    supers: Ty -> seq<Ty>,
    sameClass: (Name, Name) -> bool,
    variance: (Name, nat) -> Variance,
    upperBounds: (Name, nat) -> seq<Ty>,
    readOnlyFace: Ty -> Ty,
    variableBounds: Symbol -> seq<Ty>)

  /** The classifiers of a program are finitely many, and a read-only face is no taller than the
      mutable face it belongs to. */
  ghost predicate ValidOracle(o: OracleData)
  {
    && (forall t, s <- o.supers(t) :: ClassName(s).Some? ==> ClassName(s).value in o.classes)
    && (forall t {:trigger o.readOnlyFace(t)} :: Height(o.readOnlyFace(t)) <= Height(t))
  }

  type Oracle = o: OracleData | ValidOracle(o)
    witness OracleData({}, _ => [], (a, b) => a == b, (_, _) => Invariant, (_, _) => [NULLABLE_ANY], t => t, _ => [])

  predicate Matches(o: Oracle, target: Name, t: Ty)
  {
    ClassName(t).Some? && o.sameClass(ClassName(t).value, target)
  }

  /** The supertypes of `direct` pushed when `seen` names are already visited, with the names
      visited afterwards. A supertype without a class name is never pushed. */
  function Admit(direct: seq<Ty>, seen: set<Name>): (r: (seq<Ty>, set<Name>))
    ensures r.1 == seen + NamesOf(r.0)
    ensures forall t <- r.0 :: t in direct && ClassName(t).Some? && ClassName(t).value !in seen
    ensures forall t <- direct :: ClassName(t).Some? ==> ClassName(t).value in r.1
  {
    if direct == [] then ([], seen)
    else
      var (kept, visited) := Admit(direct[..|direct| - 1], seen);
      var t := direct[|direct| - 1];
      if ClassName(t).Some? && ClassName(t).value !in visited then
        assert NamesOf(kept + [t]) == NamesOf(kept) + {ClassName(t).value} by {
          assert forall x :: x in kept + [t] <==> x in kept || x == t;
        }
        (kept + [t], visited + {ClassName(t).value})
      else (kept, visited)
  }

  function NamesOf(ts: seq<Ty>): set<Name>
  {
    set t | t in ts && ClassName(t).Some? :: ClassName(t).value
  }

  /** The worklist from a given stack, whose top is its last element. */
  function Walk(o: Oracle, target: Name, stack: seq<Ty>, seen: set<Name>): Option<Ty>
    decreases |o.classes - seen|, |stack|
  {
    if stack == [] then None
    else
      var cur := stack[|stack| - 1];
      if Matches(o, target, cur) then Some(cur)
      else
        var (pushed, visited) := Admit(o.supers(cur), seen);
        AdmitProgress(o, cur, seen);
        Walk(o, target, stack[..|stack| - 1] + pushed, visited)
  }

  lemma AdmitProgress(o: Oracle, cur: Ty, seen: set<Name>)
    ensures var (pushed, visited) := Admit(o.supers(cur), seen);
      && seen <= visited
      && (pushed == [] ==> visited == seen)
      && (pushed != [] ==> |o.classes - visited| < |o.classes - seen|)
  {
    var (pushed, visited) := Admit(o.supers(cur), seen);
    if pushed != [] {
      var name := ClassName(pushed[0]).value;
      assert pushed[0] in pushed;
      assert name in o.classes - seen && name in visited;
      SmallerSet(o.classes - visited, o.classes - seen, name);
    } else {
      assert NamesOf([]) == {};
    }
  }

  lemma SmallerSet<T>(a: set<T>, b: set<T>, x: T)
    requires a <= b && x in b && x !in a
    ensures |a| < |b|
  {
    SubsetSize(a, b - {x});
  }

  lemma SubsetSize<T>(a: set<T>, b: set<T>)
    requires a <= b
    ensures |a| <= |b|
  {
    if a != {} {
      var x :| x in a;
      SubsetSize(a - {x}, b - {x});
    }
  }

  function StartNames(sub: Ty): set<Name>
  {
    if ClassName(sub).Some? then {ClassName(sub).value} else {}
  }

  function AppliedSupertype(o: Oracle, sub: Ty, sup: Ty): Option<Ty>
  {
    if ClassName(sup).None? then None else Walk(o, ClassName(sup).value, [sub], StartNames(sub))
  }

  /** The worklist as the source runs it. */
  method AppliedSupertypeLoop(o: Oracle, sub: Ty, sup: Ty) returns (found: Option<Ty>)
    ensures found == AppliedSupertype(o, sub, sup)
  {
    if ClassName(sup).None? {
      return None;
    }
    var target := ClassName(sup).value;
    var seen := {};
    if ClassName(sub).Some? {
      seen := seen + {ClassName(sub).value};
    }
    assert seen == StartNames(sub);
    var stack := [sub];
    while stack != []
      invariant Walk(o, target, stack, seen) == AppliedSupertype(o, sub, sup)
      decreases |o.classes - seen|, |stack|
    {
      var cur := stack[|stack| - 1];
      if Matches(o, target, cur) {
        return Some(cur);
      }
      AdmitProgress(o, cur, seen);
      var (pushed, visited) := Admit(o.supers(cur), seen);
      stack, seen := stack[..|stack| - 1] + pushed, visited;
    }
    return None;
  }

  // ---------------------------------------------------------------- short walks

  lemma WalkToSelf(o: Oracle, sub: Ty, sup: Ty)
    requires ClassName(sup).Some? && Matches(o, ClassName(sup).value, sub)
    ensures AppliedSupertype(o, sub, sup) == Some(sub)
  {
  }

  lemma WalkToNothing(o: Oracle, sub: Ty, sup: Ty)
    requires ClassName(sup).Some? && !Matches(o, ClassName(sup).value, sub) && o.supers(sub) == []
    ensures AppliedSupertype(o, sub, sup) == None
  {
    var seen := StartNames(sub);
    assert [sub][..0] + [] == [] && Admit([], seen) == ([], seen);
    assert Walk(o, ClassName(sup).value, [sub], seen) == Walk(o, ClassName(sup).value, [], seen);
  }

  lemma AdmitPush(direct: seq<Ty>, t: Ty, seen: set<Name>)
    ensures var (kept, visited) := Admit(direct, seen);
      Admit(direct + [t], seen) ==
        if ClassName(t).Some? && ClassName(t).value !in visited
        then (kept + [t], visited + {ClassName(t).value}) else (kept, visited)
  {
    assert (direct + [t])[..|direct|] == direct;
  }

  lemma FirstStep(o: Oracle, target: Name, sub: Ty)
    requires !Matches(o, target, sub)
    ensures var (pushed, seen) := Admit(o.supers(sub), StartNames(sub));
      Walk(o, target, [sub], StartNames(sub)) == Walk(o, target, pushed, seen)
  {
    var (pushed, seen) := Admit(o.supers(sub), StartNames(sub));
    assert [sub][..0] + pushed == pushed;
  }

  lemma AdmitOne(parent: Ty, seen: set<Name>)
    requires ClassName(parent).Some? && ClassName(parent).value !in seen
    ensures Admit([parent], seen) == ([parent], seen + {ClassName(parent).value})
  {
    AdmitPush([], parent, seen);
    assert [] + [parent] == [parent];
  }

  lemma WalkAlone(o: Oracle, target: Name, t: Ty, seen: set<Name>)
    requires !Matches(o, target, t) && o.supers(t) == []
    ensures Walk(o, target, [t], seen) == None
  {
    assert [t][..0] + [] == [] && Admit([], seen) == ([], seen);
  }

  lemma ToParent(o: Oracle, target: Name, sub: Ty, parent: Ty)
    requires o.supers(sub) == [parent] && !Matches(o, target, sub)
    requires ClassName(parent).Some? && ClassName(parent) != ClassName(sub)
    ensures Walk(o, target, [sub], StartNames(sub)) ==
      Walk(o, target, [parent], StartNames(sub) + StartNames(parent))
  {
    FirstStep(o, target, sub);
    AdmitOne(parent, StartNames(sub));
  }

  lemma WalkOneStep(o: Oracle, sub: Ty, sup: Ty, parent: Ty)
    requires ClassName(sup).Some? && o.supers(sub) == [parent]
    requires !Matches(o, ClassName(sup).value, sub)
    requires ClassName(parent).Some? && ClassName(parent) != ClassName(sub)
    ensures Matches(o, ClassName(sup).value, parent) ==> AppliedSupertype(o, sub, sup) == Some(parent)
    ensures !Matches(o, ClassName(sup).value, parent) && o.supers(parent) == [] ==>
      AppliedSupertype(o, sub, sup) == None
  {
    var target, seen := ClassName(sup).value, StartNames(sub) + StartNames(parent);
    ToParent(o, target, sub, parent);
    if Matches(o, target, parent) {
      assert Walk(o, target, [parent], seen) == Some(parent);
    } else if o.supers(parent) == [] {
      WalkAlone(o, target, parent, seen);
    }
  }

  lemma AdmitTwo(first: Ty, last: Ty, seen: set<Name>)
    requires ClassName(first).Some? && ClassName(last).Some? && ClassName(first) != ClassName(last)
    requires ClassName(first).value !in seen && ClassName(last).value !in seen
    ensures Admit([first, last], seen) == ([first, last], seen + {ClassName(first).value} + {ClassName(last).value})
  {
    AdmitOne(first, seen);
    AdmitPush([first], last, seen);
    assert [first] + [last] == [first, last];
  }

  /** Where the walk stands once it has looked at two parents of different names. */
  function AboveBoth(sub: Ty, first: Ty, last: Ty): set<Name>
  {
    StartNames(sub) + StartNames(first) + StartNames(last)
  }

  /** Two parents of different names: the last is met first, and the first when the last leads nowhere new. */
  lemma WalkTwoSteps(o: Oracle, sub: Ty, sup: Ty, first: Ty, last: Ty)
    requires ClassName(sup).Some? && o.supers(sub) == [first, last] && !Matches(o, ClassName(sup).value, sub)
    requires ClassName(first).Some? && ClassName(last).Some? && ClassName(sub).Some?
    requires ClassName(first) != ClassName(sub) && ClassName(last) != ClassName(sub) &&
      ClassName(first) != ClassName(last)
    ensures AppliedSupertype(o, sub, sup) == Walk(o, ClassName(sup).value, [first, last], AboveBoth(sub, first, last))
  {
    AdmitTwo(first, last, StartNames(sub));
    FirstStep(o, ClassName(sup).value, sub);
  }

  lemma WalkLast(o: Oracle, target: Name, first: Ty, last: Ty, seen: set<Name>)
    ensures Matches(o, target, last) ==> Walk(o, target, [first, last], seen) == Some(last)
    ensures Matches(o, target, first) && !Matches(o, target, last) && Admit(o.supers(last), seen).0 == [] ==>
              Walk(o, target, [first, last], seen) == Some(first)
  {
    assert [first, last][..1] + [] == [first];
  }

  // ---------------------------------------------------------------- reachability

  /** One step of the walk: to a direct supertype that has a class name. */
  ghost predicate Step(o: Oracle, from: Ty, to: Ty)
  {
    to in o.supers(from) && ClassName(to).Some?
  }

  ghost predicate ReachesIn(o: Oracle, steps: nat, from: Ty, to: Ty)
  {
    if steps == 0 then from == to
    else exists mid :: ReachesIn(o, steps - 1, from, mid) && Step(o, mid, to)
  }

  ghost predicate Reaches(o: Oracle, from: Ty, to: Ty)
  {
    exists steps: nat :: ReachesIn(o, steps, from, to)
  }

  lemma ReachesSelf(o: Oracle, t: Ty)
    ensures Reaches(o, t, t)
  {
    assert ReachesIn(o, 0, t, t);
  }

  lemma ReachesStep(o: Oracle, from: Ty, mid: Ty, to: Ty)
    requires Reaches(o, from, mid) && Step(o, mid, to)
    ensures Reaches(o, from, to)
  {
    var steps: nat :| ReachesIn(o, steps, from, mid);
    assert ReachesIn(o, steps + 1, from, to);
  }

  /** Supertype names depend on a type's class name only. */
  ghost predicate NamesUniform(o: Oracle)
  {
    forall a, b {:trigger NamesOf(o.supers(a)), NamesOf(o.supers(b))} ::
      ClassName(a).Some? && ClassName(a) == ClassName(b) ==>
        NamesOf(o.supers(a)) == NamesOf(o.supers(b))
  }

  /** What the pending stack and the processed types say at every step of the walk. */
  ghost predicate WalkInvariant(o: Oracle, target: Name, from: Ty, stack: seq<Ty>, seen: set<Name>, done: set<Ty>)
  {
    && (forall t <- stack :: Reaches(o, from, t))
    && (forall t <- done :: !Matches(o, target, t))
    && (forall t <- done :: NamesOf(o.supers(t)) <= seen)
    && (from in stack || from in done)
    && (forall n <- seen :: exists t :: (t in stack || t in done) && ClassName(t) == Some(n))
  }

  lemma WalkStep(o: Oracle, target: Name, from: Ty, rest: seq<Ty>, cur: Ty, seen: set<Name>, done: set<Ty>)
    requires WalkInvariant(o, target, from, rest + [cur], seen, done)
    requires !Matches(o, target, cur)
    ensures var (pushed, visited) := Admit(o.supers(cur), seen);
      WalkInvariant(o, target, from, rest + pushed, visited, done + {cur})
  {
    var (pushed, visited) := Admit(o.supers(cur), seen);
    assert cur in rest + [cur];
    forall t | t in rest + pushed ensures Reaches(o, from, t) {
      if t in rest {
        assert t in rest + [cur];
      } else {
        ReachesStep(o, from, cur, t);
      }
    }
    forall n | n in visited
      ensures exists t :: (t in rest + pushed || t in done + {cur}) && ClassName(t) == Some(n)
    {
      if n in seen {
        var t :| (t in rest + [cur] || t in done) && ClassName(t) == Some(n);
        assert t in rest + pushed || t in done + {cur};
      } else {
        var t :| t in pushed && ClassName(t) == Some(n);
        assert t in rest + pushed;
      }
    }
  }

  /** What the walk owes its caller. */
  ghost predicate WalkOutcome(o: Oracle, target: Name, from: Ty, found: Option<Ty>)
  {
    && (found.Some? ==> Matches(o, target, found.value) && Reaches(o, from, found.value))
    && (found.None? && NamesUniform(o) ==> NoMatchReachable(o, target, from))
  }

  ghost predicate NoMatchReachable(o: Oracle, target: Name, from: Ty)
  {
    forall t :: Reaches(o, from, t) ==> !Matches(o, target, t)
  }

  lemma {:induction false} WalkSound(o: Oracle, target: Name, from: Ty, stack: seq<Ty>, seen: set<Name>, done: set<Ty>)
    requires WalkInvariant(o, target, from, stack, seen, done)
    ensures WalkOutcome(o, target, from, Walk(o, target, stack, seen))
    decreases |o.classes - seen|, |stack|
  {
    if stack == [] {
      if NamesUniform(o) {
        StackEmpty(o, target, from, seen, done);
      }
    } else {
      var cur, rest := stack[|stack| - 1], stack[..|stack| - 1];
      assert stack == rest + [cur];
      if Matches(o, target, cur) {
        assert cur in stack;
      } else {
        var (pushed, visited) := Admit(o.supers(cur), seen);
        AdmitProgress(o, cur, seen);
        WalkStep(o, target, from, rest, cur, seen, done);
        WalkSound(o, target, from, rest + pushed, visited, done + {cur});
        assert Walk(o, target, stack, seen) == Walk(o, target, rest + pushed, visited);
      }
    }
  }

  lemma StackEmpty(o: Oracle, target: Name, from: Ty, seen: set<Name>, done: set<Ty>)
    requires WalkInvariant(o, target, from, [], seen, done) && NamesUniform(o)
    ensures NoMatchReachable(o, target, from)
  {
    forall t | Reaches(o, from, t) ensures !Matches(o, target, t) {
      var steps: nat :| ReachesIn(o, steps, from, t);
      NothingBeyond(o, target, from, seen, done, steps, t);
    }
  }

  /** With an empty stack, the name of everything reachable was processed under some instantiation. */
  lemma {:induction false} NothingBeyond(
      o: Oracle, target: Name, from: Ty, seen: set<Name>, done: set<Ty>, steps: nat, t: Ty)
    requires WalkInvariant(o, target, from, [], seen, done) && NamesUniform(o)
    requires ReachesIn(o, steps, from, t)
    ensures !Matches(o, target, t)
    ensures exists twin :: twin in done && NamesOf(o.supers(twin)) == NamesOf(o.supers(t))
  {
    if steps == 0 {
      assert from in done;
    } else {
      var mid :| ReachesIn(o, steps - 1, from, mid) && Step(o, mid, t);
      NothingBeyond(o, target, from, seen, done, steps - 1, mid);
      var twin :| twin in done && NamesOf(o.supers(twin)) == NamesOf(o.supers(mid));
      assert ClassName(t).value in NamesOf(o.supers(mid));
      var same :| same in done && ClassName(same) == Some(ClassName(t).value);
      assert NamesOf(o.supers(same)) == NamesOf(o.supers(t));
    }
  }

  /** The walk answers exactly when some class matching the target is reachable, although it drops
      every later instantiation of a name it has met; what it answers lies on a supertype path. */
  lemma WorklistExact(o: Oracle, sub: Ty, sup: Ty)
    requires NamesUniform(o) && ClassName(sup).Some?
    ensures AppliedSupertype(o, sub, sup).Some? <==>
      exists t :: Reaches(o, sub, t) && Matches(o, ClassName(sup).value, t)
    ensures AppliedSupertype(o, sub, sup).Some? ==>
      Reaches(o, sub, AppliedSupertype(o, sub, sup).value) &&
      Matches(o, ClassName(sup).value, AppliedSupertype(o, sub, sup).value)
  {
    StartInvariant(o, ClassName(sup).value, sub);
    WalkSound(o, ClassName(sup).value, sub, [sub], StartNames(sub), {});
  }

  /** That the answer is on a path needs nothing of the oracle. */
  lemma WorklistOnPath(o: Oracle, sub: Ty, sup: Ty)
    requires AppliedSupertype(o, sub, sup).Some?
    ensures Reaches(o, sub, AppliedSupertype(o, sub, sup).value)
    ensures Matches(o, ClassName(sup).value, AppliedSupertype(o, sub, sup).value)
  {
    StartInvariant(o, ClassName(sup).value, sub);
    WalkSound(o, ClassName(sup).value, sub, [sub], StartNames(sub), {});
  }

  lemma StartInvariant(o: Oracle, target: Name, sub: Ty)
    ensures WalkInvariant(o, target, sub, [sub], StartNames(sub), {})
  {
    ReachesSelf(o, sub);
    assert sub in [sub];
  }

  /** Every class reachable from `from` that matches `target` is reached under one instantiation. */
  ghost predicate OneInstantiation(o: Oracle, from: Ty, target: Name)
  {
    forall a, b :: Reaches(o, from, a) && Reaches(o, from, b) && Matches(o, target, a) && Matches(o, target, b) ==>
      a == b
  }

  /** Two oracles that list the same supertypes in different orders. */
  ghost predicate SameUpToOrder(o: Oracle, p: Oracle)
  {
    && (forall t, s :: s in o.supers(t) <==> s in p.supers(t))
    && (forall a, b :: o.sameClass(a, b) == p.sameClass(a, b))
  }

  lemma WorklistOrderIndependent(o: Oracle, p: Oracle, sub: Ty, sup: Ty)
    requires NamesUniform(o) && SameUpToOrder(o, p)
    requires ClassName(sup).Some? ==> OneInstantiation(o, sub, ClassName(sup).value)
    ensures AppliedSupertype(o, sub, sup) == AppliedSupertype(p, sub, sup)
  {
    if ClassName(sup).Some? {
      var target := ClassName(sup).value;
      UniformUpToOrder(o, p);
      WorklistExact(o, sub, sup);
      WorklistExact(p, sub, sup);
      forall t | Reaches(o, sub, t) ensures Reaches(p, sub, t) {
        ReachesSameUpToOrder(o, p, sub, t);
      }
      forall t | Reaches(p, sub, t) ensures Reaches(o, sub, t) {
        ReachesSameUpToOrder(p, o, sub, t);
      }
      assert forall t :: Matches(o, target, t) == Matches(p, target, t);
      var found, twin := AppliedSupertype(o, sub, sup), AppliedSupertype(p, sub, sup);
      if found.Some? {
        assert Reaches(p, sub, found.value) && Matches(p, target, found.value);
      }
      if twin.Some? {
        assert Reaches(o, sub, twin.value) && Matches(o, target, twin.value);
      }
    }
  }

  lemma UniformUpToOrder(o: Oracle, p: Oracle)
    requires NamesUniform(o) && SameUpToOrder(o, p)
    ensures NamesUniform(p)
  {
    forall t ensures NamesOf(p.supers(t)) == NamesOf(o.supers(t)) {
    }
  }

  lemma ReachesSameUpToOrder(o: Oracle, p: Oracle, from: Ty, to: Ty)
    requires SameUpToOrder(o, p) && Reaches(o, from, to)
    ensures Reaches(p, from, to)
  {
    var steps: nat :| ReachesIn(o, steps, from, to);
    StepsSameUpToOrder(o, p, steps, from, to);
  }

  lemma {:induction false} StepsSameUpToOrder(o: Oracle, p: Oracle, steps: nat, from: Ty, to: Ty)
    requires SameUpToOrder(o, p) && ReachesIn(o, steps, from, to)
    ensures ReachesIn(p, steps, from, to)
  {
    if steps > 0 {
      var mid :| ReachesIn(o, steps - 1, from, mid) && Step(o, mid, to);
      StepsSameUpToOrder(o, p, steps - 1, from, mid);
      assert Step(p, mid, to);
    }
  }

  // ---------------------------------------------------------------- which supertype is met first

  /** What is listed with no earlier namesake. */
  predicate FirstNamed(direct: seq<Ty>, seen: set<Name>, i: nat)
  {
    && i < |direct| && ClassName(direct[i]).Some? && ClassName(direct[i]).value !in seen
    && forall j :: 0 <= j < i ==> ClassName(direct[j]) != ClassName(direct[i])
  }

  /** `t` is listed after position `i`. */
  ghost predicate ListedAfter(direct: seq<Ty>, i: int, t: Ty)
  {
    exists j :: i < j < |direct| && 0 <= j && direct[j] == t
  }

  /** `direct[i]` is pushed at `p`, and above it only what is listed after it. */
  ghost predicate PushedAt(direct: seq<Ty>, i: nat, pushed: seq<Ty>, p: nat)
    requires i < |direct|
  {
    p < |pushed| && pushed[p] == direct[i] && forall q :: p < q < |pushed| ==> ListedAfter(direct, i, pushed[q])
  }

  lemma PushedStill(rest: seq<Ty>, last: Ty, i: nat, kept: seq<Ty>, pushed: seq<Ty>, p: nat)
    requires i < |rest| && PushedAt(rest, i, kept, p) && (pushed == kept || pushed == kept + [last])
    ensures PushedAt(rest + [last], i, pushed, p)
  {
    forall q | p < q < |pushed| ensures ListedAfter(rest + [last], i, pushed[q]) {
      if q < |kept| {
        var j :| i < j < |rest| && rest[j] == kept[q];
        assert (rest + [last])[j] == pushed[q];
      } else {
        assert (rest + [last])[|rest|] == pushed[q];
      }
    }
  }

  lemma {:induction false} AdmitAt(direct: seq<Ty>, seen: set<Name>, i: nat) returns (p: nat)
    requires FirstNamed(direct, seen, i)
    ensures PushedAt(direct, i, Admit(direct, seen).0, p)
    decreases |direct|
  {
    var n := |direct| - 1;
    var rest, last := direct[..n], direct[n];
    assert direct == rest + [last];
    AdmitPush(rest, last, seen);
    if i < n {
      p := AdmitAt(rest, seen, i);
      PushedStill(rest, last, i, Admit(rest, seen).0, Admit(direct, seen).0, p);
    } else {
      p := |Admit(rest, seen).0|;
      NotAdmitted(rest, seen, ClassName(last).value);
    }
  }

  lemma {:induction false} NotAdmitted(direct: seq<Ty>, seen: set<Name>, name: Name)
    requires name !in seen && forall j :: 0 <= j < |direct| ==> ClassName(direct[j]) != Some(name)
    ensures name !in Admit(direct, seen).1
  {
    if direct != [] {
      NotAdmitted(direct[..|direct| - 1], seen, name);
    }
  }

  lemma {:induction false} StepThen(o: Oracle, from: Ty, mid: Ty, steps: nat, to: Ty)
    requires Step(o, from, mid) && ReachesIn(o, steps, mid, to)
    ensures ReachesIn(o, steps + 1, from, to)
  {
    if steps == 0 {
      assert ReachesIn(o, 0, from, from);
    } else {
      var last :| ReachesIn(o, steps - 1, mid, last) && Step(o, last, to);
      StepThen(o, from, mid, steps - 1, last);
    }
  }

  lemma NoMatchAbove(o: Oracle, target: Name, from: Ty, mid: Ty)
    requires NoMatchReachable(o, target, from) && Step(o, from, mid)
    ensures NoMatchReachable(o, target, mid)
  {
    forall t | Reaches(o, mid, t) ensures !Matches(o, target, t) {
      var steps: nat :| ReachesIn(o, steps, mid, t);
      StepThen(o, from, mid, steps, t);
    }
  }

  /** What leads to no match is worked off before what lies below it on the stack. */
  lemma {:induction false} WalkSkips(o: Oracle, target: Name, stack: seq<Ty>, n: nat, seen: set<Name>)
    returns (visited: set<Name>)
    requires n <= |stack| && forall i :: n <= i < |stack| ==> NoMatchReachable(o, target, stack[i])
    ensures Walk(o, target, stack, seen) == Walk(o, target, stack[..n], visited)
    decreases |o.classes - seen|, |stack|
  {
    visited := seen;
    if n < |stack| {
      var cur := stack[|stack| - 1];
      var (pushed, more) := Admit(o.supers(cur), seen);
      var next := stack[..|stack| - 1] + pushed;
      ReachesSelf(o, cur);
      AdmitProgress(o, cur, seen);
      forall i | n <= i < |next| ensures NoMatchReachable(o, target, next[i]) {
        if i >= |stack| - 1 {
          assert next[i] in pushed;
          NoMatchAbove(o, target, cur, next[i]);
        }
      }
      visited := WalkSkips(o, target, next, n, more);
      assert next[..n] == stack[..n];
    } else {
      assert stack[..n] == stack;
    }
  }

  lemma TopMatches(o: Oracle, target: Name, stack: seq<Ty>, p: nat, seen: set<Name>)
    requires p < |stack| && Matches(o, target, stack[p])
    requires forall i :: p < i < |stack| ==> NoMatchReachable(o, target, stack[i])
    ensures Walk(o, target, stack, seen) == Some(stack[p])
  {
    var visited := WalkSkips(o, target, stack, p + 1, seen);
    assert stack[..p + 1][p] == stack[p];
  }

  /** Of several direct supertypes that match, the walk answers the last that no earlier one shares its name
      with, when nothing listed after it leads to a match. */
  lemma LastMatchWins(o: Oracle, sub: Ty, sup: Ty, i: nat)
    requires ClassName(sup).Some? && !Matches(o, ClassName(sup).value, sub)
    requires FirstNamed(o.supers(sub), StartNames(sub), i) && Matches(o, ClassName(sup).value, o.supers(sub)[i])
    requires forall j :: i < j < |o.supers(sub)| ==> NoMatchReachable(o, ClassName(sup).value, o.supers(sub)[j])
    ensures AppliedSupertype(o, sub, sup) == Some(o.supers(sub)[i])
  {
    var (pushed, seen) := Admit(o.supers(sub), StartNames(sub));
    var p := AdmitAt(o.supers(sub), StartNames(sub), i);
    forall q | p < q < |pushed| ensures NoMatchReachable(o, ClassName(sup).value, pushed[q]) {
      assert ListedAfter(o.supers(sub), i, pushed[q]);
    }
    FirstStep(o, ClassName(sup).value, sub);
    TopMatches(o, ClassName(sup).value, pushed, p, seen);
  }
}
