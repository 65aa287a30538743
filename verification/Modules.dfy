/** Folding the modules of a test into build units: a `dependsOn` target compiles into the modules that
    refine it (`module_units`, src/conformance.rs:862-968). */
module Modules {

  import opened Options

  type File = (string, string)

  datatype Module = Module(
    name: string,
    deps: seq<string>,
    friends: seq<string>,
    dependsOn: seq<string>,
    files: seq<File>,
    javaFiles: seq<File>)

  datatype Fragment = Fragment(name: string, kotlinFileCount: nat, refined: seq<string>)

  datatype Unit = Unit(
    name: string,
    deps: seq<string>,
    friends: seq<string>,
    files: seq<File>,
    commonFileCount: nat,
    javaFiles: seq<File>,
    fragments: seq<Fragment>)

  /** The first module of that name. */
  function Find(modules: seq<Module>, name: string): (r: Option<Module>)
    ensures r.Some? ==> r.value in modules && r.value.name == name
    ensures r.None? ==> forall m <- modules :: m.name != name
  {
    if modules == [] then None
    else if modules[0].name == name then Some(modules[0])
    else Find(modules[1..], name)
  }

  ghost function Names(modules: seq<Module>): set<string> { set m <- modules :: m.name }

  // ---------------------------------------------------------------- the depth-first fold

  /** `add_chain`: the names visited and the chain after visiting `name`. */
  function Visit(
      modules: seq<Module>, name: string, seen: set<string>, out: seq<Module>): (r: (set<string>, seq<Module>))
    ensures seen <= r.0
    decreases Names(modules) - seen, 1, 0
  {
    if name in seen then (seen, out)
    else
      var found := Find(modules, name);
      if found.None? then (seen + {name}, out)
      else
        assert name in Names(modules) - seen;
        var (seen', out') := VisitAll(modules, found.value.dependsOn, seen + {name}, out);
        (seen', out' + [found.value])
  }

  function VisitAll(
      modules: seq<Module>, names: seq<string>, seen: set<string>, out: seq<Module>): (r: (set<string>, seq<Module>))
    ensures seen <= r.0
    decreases Names(modules) - seen, 2, |names|
  {
    if names == [] then (seen, out)
    else
      var (seen', out') := Visit(modules, names[0], seen, out);
      VisitAll(modules, names[1..], seen', out')
  }

  function Chain(modules: seq<Module>, name: string): seq<Module> { Visit(modules, name, {}, []).1 }

  /** The fold as the source runs it, on a visited set and a chain it extends. */
  class ChainBuilder {
    var seen: set<string>
    var out: seq<Module>

    constructor ()
      ensures seen == {} && out == []
    {
      seen, out := {}, [];
    }

    method Add(modules: seq<Module>, name: string)
      modifies this
      ensures (seen, out) == Visit(modules, name, old(seen), old(out))
      decreases Names(modules) - seen, 1
    {
      if name in seen {
        return;
      }
      seen := seen + {name};
      var found := Find(modules, name);
      if found.None? {
        return;
      }
      var m := found.value;
      assert name in Names(modules) - old(seen);
      for i := 0 to |m.dependsOn|
        invariant old(seen) + {name} <= seen
        invariant VisitAll(modules, m.dependsOn, old(seen) + {name}, old(out)) ==
          VisitAll(modules, m.dependsOn[i..], seen, out)
      {
        assert m.dependsOn[i..][1..] == m.dependsOn[i + 1..];
        Add(modules, m.dependsOn[i]);
      }
      out := out + [m];
    }
  }

  // ---------------------------------------------------------------- what a chain is

  ghost predicate DistinctNames(modules: seq<Module>)
  {
    forall i, j :: 0 <= i < j < |modules| ==> modules[i].name != modules[j].name
  }

  /** `rank` falls along every `dependsOn` edge. */
  ghost predicate Acyclic(modules: seq<Module>, rank: string -> nat)
  {
    forall m <- modules, d <- m.dependsOn :: rank(d) < rank(m.name)
  }

  /** Some chain of `dependsOn` edges through declared modules leads from `from` to `to`. */
  ghost predicate Reaches(modules: seq<Module>, steps: nat, from: string, to: string)
  {
    if steps == 0 then from == to && Find(modules, to).Some?
    else exists mid :: Edge(modules, from, mid) && Reaches(modules, steps - 1, mid, to)
  }

  ghost predicate Edge(modules: seq<Module>, from: string, to: string)
  {
    Find(modules, from).Some? && to in Find(modules, from).value.dependsOn
  }

  ghost predicate Reachable(modules: seq<Module>, from: string, to: string)
  {
    exists steps: nat :: Reaches(modules, steps, from, to)
  }

  /** Every declared module a member of `chain` depends on comes before it. */
  ghost predicate DependencyFirst(modules: seq<Module>, chain: seq<Module>)
  {
    forall i :: 0 <= i < |chain| ==> Ready(modules, chain[..i], chain[i])
  }

  ghost predicate Ready(modules: seq<Module>, before: seq<Module>, m: Module)
  {
    forall d <- m.dependsOn :: Find(modules, d).Some? ==> d in Names(before)
  }

  /** The state of a fold over an acyclic hierarchy: everything visited below `bound` is in the chain. */
  ghost predicate FoldState(modules: seq<Module>, rank: string -> nat, seen: set<string>, out: seq<Module>, bound: nat)
  {
    && DistinctNames(out)
    && Names(out) <= seen
    && (forall m <- out :: Find(modules, m.name) == Some(m))
    && DependencyFirst(modules, out)
    && (forall x <- seen :: Find(modules, x).Some? && rank(x) < bound ==> x in Names(out))
  }

  /** What visiting adds: new modules below `bound`, each reached from one of `from`. */
  ghost predicate Extends(
      modules: seq<Module>, rank: string -> nat, seen: set<string>, out: seq<Module>, seen': set<string>,
      out': seq<Module>,
      bound: nat, from: seq<string>)
  {
    && seen <= seen' && out <= out'
    && (forall x <- from :: x in seen')
    && (forall x <- seen' - seen :: Find(modules, x).Some? ==> x in Names(out'))
    && (forall m <- out'[|out|..] ::
      m.name !in seen && rank(m.name) < bound && exists x <- from :: Reachable(modules, x, m.name))
  }

  lemma ReachSelf(modules: seq<Module>, name: string)
    requires Find(modules, name).Some?
    ensures Reachable(modules, name, name)
  {
    assert Reaches(modules, 0, name, name);
  }

  lemma ReachEdge(modules: seq<Module>, from: string, mid: string, to: string)
    requires Edge(modules, from, mid) && Reachable(modules, mid, to)
    ensures Reachable(modules, from, to)
  {
    var steps: nat :| Reaches(modules, steps, mid, to);
    assert Reaches(modules, steps + 1, from, to);
  }

  lemma NamesPush(out: seq<Module>, m: Module)
    ensures Names(out + [m]) == Names(out) + {m.name}
  {
    assert forall x :: x in out + [m] <==> x in out || x == m;
  }

  /** Appending a module whose dependencies are all in the chain. */
  lemma DependencyFirstPush(modules: seq<Module>, out: seq<Module>, m: Module)
    requires DependencyFirst(modules, out) && Ready(modules, out, m)
    ensures DependencyFirst(modules, out + [m])
  {
    forall i | 0 <= i < |out + [m]| ensures Ready(modules, (out + [m])[..i], (out + [m])[i]) {
      assert i < |out| ==> (out + [m])[..i] == out[..i];
      assert (out + [m])[..|out|] == out;
    }
  }

  lemma {:induction false} VisitFolds(
      modules: seq<Module>, rank: string -> nat, name: string, seen: set<string>, out: seq<Module>, bound: nat)
    requires Acyclic(modules, rank) && rank(name) < bound && FoldState(modules, rank, seen, out, bound)
    ensures var (seen', out') := Visit(modules, name, seen, out);
      && FoldState(modules, rank, seen', out', bound)
      && Extends(modules, rank, seen, out, seen', out', bound, [name])
      && (name !in seen && Find(modules, name).Some? ==> out' != [] && Some(out'[|out'| - 1]) == Find(modules, name))
    decreases Names(modules) - seen, 1, 0
  {
    if name !in seen {
      var found := Find(modules, name);
      if found.Some? {
        var m := found.value;
        assert name in Names(modules) - seen;
        VisitAllFolds(modules, rank, m.dependsOn, seen + {name}, out, rank(name));
        var (seen', out') := VisitAll(modules, m.dependsOn, seen + {name}, out);
        ModuleAppended(modules, rank, m, seen, out, seen', out', bound);
      }
    }
  }

  /** After a module's dependencies, the module itself. */
  lemma ModuleAppended(
      modules: seq<Module>, rank: string -> nat, m: Module, seen: set<string>, out: seq<Module>,
      seen': set<string>, out': seq<Module>, bound: nat)
    requires Acyclic(modules, rank) && Find(modules, m.name) == Some(m) && m.name !in seen && rank(m.name) < bound
    requires FoldState(modules, rank, seen, out, bound) && FoldState(modules, rank, seen', out', rank(m.name))
    requires Extends(modules, rank, seen + {m.name}, out, seen', out', rank(m.name), m.dependsOn)
    ensures FoldState(modules, rank, seen', out' + [m], bound)
    ensures Extends(modules, rank, seen, out, seen', out' + [m], bound, [m.name])
  {
    AppendedState(modules, rank, m, seen, out, seen', out', bound);
    AppendedExtends(modules, rank, m, seen, out, seen', out', bound);
  }

  lemma AppendedState(
      modules: seq<Module>, rank: string -> nat, m: Module, seen: set<string>, out: seq<Module>,
      seen': set<string>, out': seq<Module>, bound: nat)
    requires Acyclic(modules, rank) && Find(modules, m.name) == Some(m) && m.name !in seen && rank(m.name) < bound
    requires FoldState(modules, rank, seen, out, bound) && FoldState(modules, rank, seen', out', rank(m.name))
    requires Extends(modules, rank, seen + {m.name}, out, seen', out', rank(m.name), m.dependsOn)
    ensures FoldState(modules, rank, seen', out' + [m], bound)
  {
    NamesPush(out', m);
    NotYet(modules, rank, m, seen, out, seen', out');
    forall d | d in m.dependsOn && Find(modules, d).Some? ensures d in Names(out') {
      assert d in seen' && rank(d) < rank(m.name);
    }
    DependencyFirstPush(modules, out', m);
    assert forall x <- out' :: x.name in Names(out');
  }

  /** The module being visited is not in the chain before it is appended. */
  lemma NotYet(
      modules: seq<Module>, rank: string -> nat, m: Module, seen: set<string>, out: seq<Module>, seen': set<string>,
      out': seq<Module>)
    requires m.name !in seen && Names(out) <= seen
    requires Extends(modules, rank, seen + {m.name}, out, seen', out', rank(m.name), m.dependsOn)
    ensures m.name !in Names(out')
  {
    assert out' == out + out'[|out|..];
    assert forall x <- out' :: x in out || x in out'[|out|..];
    assert forall x <- out :: x.name in Names(out);
  }

  lemma AppendedExtends(
      modules: seq<Module>, rank: string -> nat, m: Module, seen: set<string>, out: seq<Module>,
      seen': set<string>, out': seq<Module>, bound: nat)
    requires Find(modules, m.name) == Some(m) && m.name !in seen && rank(m.name) < bound
    requires Extends(modules, rank, seen + {m.name}, out, seen', out', rank(m.name), m.dependsOn)
    ensures Extends(modules, rank, seen, out, seen', out' + [m], bound, [m.name])
  {
    NamesPush(out', m);
    assert (out' + [m])[|out|..] == out'[|out|..] + [m];
    forall x | x in out'[|out|..]
      ensures x.name !in seen && rank(x.name) < bound && Reachable(modules, m.name, x.name)
    {
      var d :| d in m.dependsOn && Reachable(modules, d, x.name);
      ReachEdge(modules, m.name, d, x.name);
    }
    ReachSelf(modules, m.name);
    assert m.name in [m.name];
  }

  lemma {:induction false} VisitAllFolds(
      modules: seq<Module>, rank: string -> nat, names: seq<string>, seen: set<string>, out: seq<Module>, bound: nat)
    requires Acyclic(modules, rank) && FoldState(modules, rank, seen, out, bound)
    requires forall x <- names :: rank(x) < bound
    ensures var (seen', out') := VisitAll(modules, names, seen, out);
      FoldState(modules, rank, seen', out', bound) && Extends(modules, rank, seen, out, seen', out', bound, names)
    decreases Names(modules) - seen, 2, |names|
  {
    if names != [] {
      VisitFolds(modules, rank, names[0], seen, out, bound);
      var (mid, chain) := Visit(modules, names[0], seen, out);
      VisitAllFolds(modules, rank, names[1..], mid, chain, bound);
      var (seen', out') := VisitAll(modules, names[1..], mid, chain);
      ExtendsTwice(modules, rank, names, seen, out, mid, chain, seen', out', bound);
    }
  }

  lemma ExtendsTwice(
      modules: seq<Module>, rank: string -> nat, names: seq<string>, seen: set<string>, out: seq<Module>,
      mid: set<string>, chain: seq<Module>, seen': set<string>, out': seq<Module>, bound: nat)
    requires names != []
    requires Extends(modules, rank, seen, out, mid, chain, bound, [names[0]])
    requires Extends(modules, rank, mid, chain, seen', out', bound, names[1..])
    ensures Extends(modules, rank, seen, out, seen', out', bound, names)
  {
    assert out'[|out|..] == chain[|out|..] + out'[|chain|..];
    assert out' == chain + out'[|chain|..];
    assert forall m <- chain :: m in out';
    forall m | m in out'[|out|..]
      ensures m.name !in seen && rank(m.name) < bound && exists x <- names :: Reachable(modules, x, m.name)
    {
      if m in chain[|out|..] {
        assert names[0] in names;
      } else {
        var x :| x in names[1..] && Reachable(modules, x, m.name);
        assert x in names;
      }
    }
    assert forall x <- names :: x == names[0] || x in names[1..];
  }

  /** A chain as the fold leaves it, before it is seen to be closed. */
  ghost predicate FoldedChain(modules: seq<Module>, name: string, chain: seq<Module>)
  {
    && DistinctNames(chain)
    && DependencyFirst(modules, chain)
    && chain != [] && Some(chain[|chain| - 1]) == Find(modules, name)
    && (forall m <- chain :: Find(modules, m.name) == Some(m))
    && forall m <- chain :: Reachable(modules, name, m.name)
  }

  lemma ChainFolds(modules: seq<Module>, rank: string -> nat, name: string)
    requires Acyclic(modules, rank) && Find(modules, name).Some?
    ensures FoldedChain(modules, name, Chain(modules, name))
  {
    VisitFolds(modules, rank, name, {}, [], rank(name) + 1);
    var chain := Chain(modules, name);
    assert chain[0..] == chain;
    forall m | m in chain ensures Reachable(modules, name, m.name) {
      assert m in chain[0..];
    }
  }

  lemma ClosedChain(modules: seq<Module>, name: string, chain: seq<Module>, x: string)
    requires FoldedChain(modules, name, chain)
    ensures x in Names(chain) <==> Reachable(modules, name, x)
  {
    if Reachable(modules, name, x) {
      var steps: nat :| Reaches(modules, steps, name, x);
      assert chain[|chain| - 1] in chain;
      ClosedUnderReach(modules, chain, steps, name, x);
    }
  }

  /** A unit's chain is the transitive closure of its `dependsOn` edges over declared modules: without
      repetition, every dependency before what depends on it, and the unit itself last. */
  lemma ChainIsClosure(modules: seq<Module>, rank: string -> nat, name: string)
    requires Acyclic(modules, rank) && Find(modules, name).Some?
    ensures var chain := Chain(modules, name);
      && DistinctNames(chain)
      && DependencyFirst(modules, chain)
      && chain != [] && Some(chain[|chain| - 1]) == Find(modules, name)
      && (forall m <- chain :: Find(modules, m.name) == Some(m))
      && forall x :: x in Names(chain) <==> Reachable(modules, name, x)
  {
    ChainFolds(modules, rank, name);
    forall x ensures x in Names(Chain(modules, name)) <==> Reachable(modules, name, x) {
      ClosedChain(modules, name, Chain(modules, name), x);
    }
  }

  lemma {:induction false} ClosedUnderReach(
      modules: seq<Module>, chain: seq<Module>, steps: nat, from: string, to: string)
    requires DependencyFirst(modules, chain) && (forall m <- chain :: Find(modules, m.name) == Some(m))
    requires from in Names(chain) && Reaches(modules, steps, from, to)
    ensures to in Names(chain)
  {
    if steps > 0 {
      var mid :| Edge(modules, from, mid) && Reaches(modules, steps - 1, mid, to);
      ReachedDeclared(modules, steps - 1, mid, to);
      DependencyIn(modules, chain, from, mid);
      ClosedUnderReach(modules, chain, steps - 1, mid, to);
    }
  }

  lemma DependencyIn(modules: seq<Module>, chain: seq<Module>, from: string, to: string)
    requires DependencyFirst(modules, chain) && (forall m <- chain :: Find(modules, m.name) == Some(m))
    requires from in Names(chain) && Edge(modules, from, to) && Find(modules, to).Some?
    ensures to in Names(chain)
  {
    var m :| m in chain && m.name == from;
    var i :| 0 <= i < |chain| && chain[i] == m;
    assert Ready(modules, chain[..i], chain[i]);
    assert forall x <- chain[..i] :: x in chain;
  }

  lemma ReachedDeclared(modules: seq<Module>, steps: nat, from: string, to: string)
    requires Reaches(modules, steps, from, to)
    ensures Find(modules, from).Some?
  {
  }

  // ---------------------------------------------------------------- which modules are built

  /** What some module depends on: never built on its own. */
  function Targets(modules: seq<Module>): set<string> { set m <- modules, d <- m.dependsOn :: d }

  /** Modules no other refines, in declaration order. */
  function Built(modules: seq<Module>, refined: set<string>): (r: seq<Module>)
    ensures forall m :: m in r <==> m in modules && m.name !in refined
  {
    if modules == [] then []
    else
      var last := modules[|modules| - 1];
      assert modules == modules[..|modules| - 1] + [last];
      Built(modules[..|modules| - 1], refined) + (if last.name in refined then [] else [last])
  }

  /** `at` picks positions from the front to the back of a list of length `n`. */
  predicate Rising(at: seq<nat>, n: nat)
  {
    (forall i :: 0 <= i < |at| ==> at[i] < n) && forall i, j :: 0 <= i < j < |at| ==> at[i] < at[j]
  }

  /** `at` holds exactly the positions before `n` whose modules are not refined. */
  ghost predicate Unrefined(modules: seq<Module>, refined: set<string>, at: seq<nat>, n: nat)
    requires n <= |modules|
  {
    forall k: nat :: k < n ==> (k in at <==> modules[k].name !in refined)
  }

  /** `built` is what stands at the positions `at`, in their order. */
  ghost predicate StandsAt(modules: seq<Module>, at: seq<nat>, built: seq<Module>)
    requires Rising(at, |modules|)
  {
    |built| == |at| && forall i :: 0 <= i < |at| ==> built[i] == modules[at[i]]
  }

  /** `at` holds the positions, among the first `n`, of the modules that are built. */
  ghost predicate InOrder(modules: seq<Module>, refined: set<string>, n: nat, at: seq<nat>)
    requires n <= |modules|
  {
    Rising(at, n) && Unrefined(modules, refined, at, n) && StandsAt(modules, at, Built(modules[..n], refined))
  }

  /** The built modules stand in declaration order, each as often as it is declared; what stands between
      them is refined. */
  lemma {:induction false} BuiltInOrder(modules: seq<Module>, refined: set<string>, n: nat) returns (at: seq<nat>)
    requires n <= |modules|
    ensures InOrder(modules, refined, n, at)
  {
    if n == 0 {
      at := [];
    } else {
      at := BuiltInOrder(modules, refined, n - 1);
      at := NextInOrder(modules, refined, n - 1, at);
    }
  }

  lemma NextInOrder(modules: seq<Module>, refined: set<string>, n: nat, before: seq<nat>) returns (at: seq<nat>)
    requires n < |modules| && InOrder(modules, refined, n, before)
    ensures InOrder(modules, refined, n + 1, at)
  {
    var last := modules[n];
    assert modules[..n + 1][..n] == modules[..n];
    if last.name in refined {
      at := before;
      assert n !in at;
    } else {
      at := before + [n];
      assert forall k :: k in at <==> k in before || k == n;
    }
  }

  /** Every module is compiled somewhere: some built unit reaches it. */
  lemma {:induction false} EveryModuleFolded(modules: seq<Module>, rank: string -> nat, m: Module, height: nat)
    returns (unit: Module)
    requires Acyclic(modules, rank) && DistinctNames(modules) && m in modules
    requires forall x <- modules :: rank(x.name) <= height
    ensures unit in Built(modules, Targets(modules)) && Reachable(modules, unit.name, m.name)
    decreases height - rank(m.name)
  {
    FindDistinct(modules, m);
    if m.name !in Targets(modules) {
      ReachSelf(modules, m.name);
      unit := m;
    } else {
      var above :| above in modules && m.name in above.dependsOn;
      FindDistinct(modules, above);
      unit := EveryModuleFolded(modules, rank, above, height);
      var steps: nat :| Reaches(modules, steps, unit.name, above.name);
      ReachThen(modules, steps, unit.name, above.name, m.name);
    }
  }

  lemma {:induction false} FindDistinct(modules: seq<Module>, m: Module)
    requires DistinctNames(modules) && m in modules
    ensures Find(modules, m.name) == Some(m)
  {
    var i :| 0 <= i < |modules| && modules[i] == m;
    if i > 0 {
      assert modules[0].name != modules[i].name;
      assert modules[1..][i - 1] == m;
      FindDistinct(modules[1..], m);
    }
  }

  lemma {:induction false} ReachThen(modules: seq<Module>, steps: nat, from: string, mid: string, to: string)
    requires Reaches(modules, steps, from, mid) && Edge(modules, mid, to) && Find(modules, to).Some?
    ensures Reachable(modules, from, to)
  {
    if steps == 0 {
      ReachSelf(modules, to);
      ReachEdge(modules, from, to, to);
    } else {
      var next :| Edge(modules, from, next) && Reaches(modules, steps - 1, next, mid);
      ReachThen(modules, steps - 1, next, mid, to);
      ReachEdge(modules, from, next, to);
    }
  }
}
