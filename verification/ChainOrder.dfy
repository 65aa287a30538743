/** The order in which a chain lists its members: what each direct dependency brings, in the order these are
    declared, each module at its first occurrence (`add_chain`, src/conformance.rs:869-886). */
module ChainOrder {
  import opened Options
  import opened Modules

  function NamesIn(ms: seq<Module>): set<string> { set m <- ms :: m.name }

  /** The modules whose names are not among `seen`, in order. */
  function Unseen(ms: seq<Module>, seen: set<string>): seq<Module>
  {
    if ms == [] then []
    else
      var last := ms[|ms| - 1];
      Unseen(ms[..|ms| - 1], seen) + if last.name in seen then [] else [last]
  }

  /** The chains of several modules one after another, each without what came before. */
  function Chains(modules: seq<Module>, names: seq<string>): seq<Module>
  {
    if names == [] then []
    else
      var before := Chains(modules, names[..|names| - 1]);
      before + Unseen(Chain(modules, names[|names| - 1]), NamesIn(before))
  }

  // ---------------------------------------------------------------- what a visit depends on

  lemma UnseenPush(ms: seq<Module>, last: Module, seen: set<string>)
    ensures Unseen(ms + [last], seen) == Unseen(ms, seen) + if last.name in seen then [] else [last]
  {
    assert (ms + [last])[..|ms|] == ms;
  }

  lemma {:induction false} UnseenConcat(a: seq<Module>, b: seq<Module>, seen: set<string>)
    ensures Unseen(a + b, seen) == Unseen(a, seen) + Unseen(b, seen)
  {
    if b == [] {
      assert a + b == a;
    } else {
      var rest, last := b[..|b| - 1], b[|b| - 1];
      UnseenConcat(a, rest, seen);
      UnseenPush(a + rest, last, seen);
      UnseenPush(rest, last, seen);
      assert b == rest + [last] && a + b == a + rest + [last];
    }
  }

  lemma {:induction false} UnseenNone(ms: seq<Module>, seen: set<string>)
    requires NamesIn(ms) <= seen
    ensures Unseen(ms, seen) == []
  {
    if ms != [] {
      var rest, last := ms[..|ms| - 1], ms[|ms| - 1];
      assert last in ms && NamesIn(rest) <= NamesIn(ms);
      UnseenNone(rest, seen);
    }
  }

  lemma {:induction false} UnseenSame(ms: seq<Module>, a: set<string>, b: set<string>)
    requires forall m <- ms :: m.name in a <==> m.name in b
    ensures Unseen(ms, a) == Unseen(ms, b)
  {
    if ms != [] {
      assert ms[|ms| - 1] in ms && forall m <- ms[..|ms| - 1] :: m in ms;
      UnseenSame(ms[..|ms| - 1], a, b);
    }
  }

  /** A visit appends to the chain, whatever is in it. */
  lemma {:induction false} VisitAppends(modules: seq<Module>, name: string, seen: set<string>, out: seq<Module>)
    ensures var (s, added) := Visit(modules, name, seen, []); Visit(modules, name, seen, out) == (s, out + added)
    decreases Names(modules) - seen, 1, 0
  {
    if name in seen || Find(modules, name).None? {
      assert out + [] == out;
    } else {
      var m := Find(modules, name).value;
      assert name in Names(modules) - seen;
      VisitAllAppends(modules, m.dependsOn, seen + {name}, out);
      VisitAllAppends(modules, m.dependsOn, seen + {name}, []);
      var added := VisitAll(modules, m.dependsOn, seen + {name}, []).1;
      assert out + (added + [m]) == out + added + [m];
    }
  }

  lemma {:induction false} VisitAllAppends(
      modules: seq<Module>, names: seq<string>, seen: set<string>, out: seq<Module>)
    ensures var (s, added) := VisitAll(modules, names, seen, []);
      VisitAll(modules, names, seen, out) == (s, out + added)
    decreases Names(modules) - seen, 2, |names|
  {
    if names == [] {
      assert out + [] == out;
    } else {
      VisitAppends(modules, names[0], seen, out);
      var (mid, added) := Visit(modules, names[0], seen, []);
      VisitAllAppends(modules, names[1..], mid, out + added);
      VisitAllAppends(modules, names[1..], mid, added);
      var more := VisitAll(modules, names[1..], mid, []).1;
      assert out + (added + more) == out + added + more;
    }
  }

  lemma {:induction false} VisitAllPush(
      modules: seq<Module>, names: seq<string>, last: string, seen: set<string>, out: seq<Module>)
    ensures var (mid, chain) := VisitAll(modules, names, seen, out);
      VisitAll(modules, names + [last], seen, out) == Visit(modules, last, mid, chain)
    decreases |names|
  {
    if names == [] {
      assert [last][1..] == [];
    } else {
      var (mid, chain) := Visit(modules, names[0], seen, out);
      assert (names + [last])[1..] == names[1..] + [last];
      VisitAllPush(modules, names[1..], last, mid, chain);
    }
  }

  /** What the modules of `within` depend on is in `within` or in `seen`. */
  ghost predicate Closed(modules: seq<Module>, within: set<string>, seen: set<string>)
  {
    forall x <- within :: Find(modules, x).Some? ==> forall d <- Find(modules, x).value.dependsOn :: d in within + seen
  }

  /** Everything a visit marks has its dependencies marked as well. */
  lemma {:induction false} VisitCloses(modules: seq<Module>, name: string, seen: set<string>)
    ensures var s := Visit(modules, name, seen, []).0; name in s && seen <= s && Closed(modules, s - seen, seen)
    decreases Names(modules) - seen, 1, 0
  {
    if name !in seen && Find(modules, name).Some? {
      assert name in Names(modules) - seen;
      VisitAllCloses(modules, Find(modules, name).value.dependsOn, seen + {name});
    }
  }

  lemma {:induction false} VisitAllCloses(modules: seq<Module>, names: seq<string>, seen: set<string>)
    ensures var s := VisitAll(modules, names, seen, []).0;
      (forall x <- names :: x in s) && seen <= s && Closed(modules, s - seen, seen)
    decreases Names(modules) - seen, 2, |names|
  {
    if names != [] {
      VisitCloses(modules, names[0], seen);
      var (mid, added) := Visit(modules, names[0], seen, []);
      VisitAllCloses(modules, names[1..], mid);
      VisitAllAppends(modules, names[1..], mid, added);
    }
  }

  /** Visiting inside a closed set stays inside it. */
  lemma {:induction false} VisitStays(modules: seq<Module>, name: string, seen: set<string>, done: set<string>)
    requires Closed(modules, done, seen) && name in done + seen
    ensures var (s, added) := Visit(modules, name, seen, []); s <= seen + done && NamesIn(added) <= done
    decreases Names(modules) - seen, 1, 0
  {
    if name !in seen && Find(modules, name).Some? {
      assert name in Names(modules) - seen;
      VisitAllStays(modules, Find(modules, name).value.dependsOn, seen + {name}, done);
    }
  }

  lemma {:induction false} VisitAllStays(
      modules: seq<Module>, names: seq<string>, seen: set<string>, done: set<string>)
    requires Closed(modules, done, seen) && forall x <- names :: x in done + seen
    ensures var (s, added) := VisitAll(modules, names, seen, []); s <= seen + done && NamesIn(added) <= done
    decreases Names(modules) - seen, 2, |names|
  {
    if names != [] {
      VisitStays(modules, names[0], seen, done);
      var (mid, added) := Visit(modules, names[0], seen, []);
      assert forall x <- names[1..] :: x in names;
      VisitAllStays(modules, names[1..], mid, done);
      VisitAllAppends(modules, names[1..], mid, added);
    }
  }

  /** With a closed set already visited, a visit adds what it would have added, less that set. */
  lemma {:induction false} VisitBeyond(modules: seq<Module>, name: string, seen: set<string>, done: set<string>)
    requires Closed(modules, done, seen)
    ensures var (s, added) := Visit(modules, name, seen, []);
      Visit(modules, name, seen + done, []) == (s + done, Unseen(added, done))
    decreases Names(modules) - seen, 1, 0
  {
    if name in done && name !in seen {
      VisitStays(modules, name, seen, done);
      var (s, added) := Visit(modules, name, seen, []);
      UnseenNone(added, done);
      assert s + done == seen + done;
    } else if name !in seen && Find(modules, name).Some? {
      var m := Find(modules, name).value;
      assert name in Names(modules) - seen;
      VisitAllBeyond(modules, m.dependsOn, seen + {name}, done);
      assert seen + done + {name} == seen + {name} + done;
      UnseenConcat(VisitAll(modules, m.dependsOn, seen + {name}, []).1, [m], done);
    } else {
      assert seen + {name} + done == seen + done + {name};
    }
  }

  lemma {:induction false} VisitAllBeyond(
      modules: seq<Module>, names: seq<string>, seen: set<string>, done: set<string>)
    requires Closed(modules, done, seen)
    ensures var (s, added) := VisitAll(modules, names, seen, []);
      VisitAll(modules, names, seen + done, []) == (s + done, Unseen(added, done))
    decreases Names(modules) - seen, 2, |names|
  {
    if names != [] {
      VisitBeyond(modules, names[0], seen, done);
      var (mid, added) := Visit(modules, names[0], seen, []);
      VisitAllBeyond(modules, names[1..], mid, done);
      VisitAllAppends(modules, names[1..], mid, added);
      VisitAllAppends(modules, names[1..], mid + done, Unseen(added, done));
      UnseenConcat(added, VisitAll(modules, names[1..], mid, []).1, done);
    }
  }

  /** A module above everything visited makes no difference. */
  lemma {:induction false} VisitBelow(
      modules: seq<Module>, rank: string -> nat, name: string, seen: set<string>, top: string)
    requires Acyclic(modules, rank) && rank(name) < rank(top)
    ensures var (s, added) := Visit(modules, name, seen, []);
      Visit(modules, name, seen + {top}, []) == (s + {top}, added)
    decreases Names(modules) - seen, 1, 0
  {
    if name !in seen && Find(modules, name).Some? {
      assert name in Names(modules) - seen;
      VisitAllBelow(modules, rank, Find(modules, name).value.dependsOn, seen + {name}, top);
      assert seen + {top} + {name} == seen + {name} + {top};
    } else {
      assert seen + {name} + {top} == seen + {top} + {name};
    }
  }

  lemma {:induction false} VisitAllBelow(
      modules: seq<Module>, rank: string -> nat, names: seq<string>, seen: set<string>, top: string)
    requires Acyclic(modules, rank) && forall x <- names :: rank(x) < rank(top)
    ensures var (s, added) := VisitAll(modules, names, seen, []);
      VisitAll(modules, names, seen + {top}, []) == (s + {top}, added)
    decreases Names(modules) - seen, 2, |names|
  {
    if names != [] {
      VisitBelow(modules, rank, names[0], seen, top);
      var (mid, added) := Visit(modules, names[0], seen, []);
      VisitAllBelow(modules, rank, names[1..], mid, top);
      VisitAllAppends(modules, names[1..], mid, added);
      VisitAllAppends(modules, names[1..], mid + {top}, added);
    }
  }

  // ---------------------------------------------------------------- the order of a chain

  /** A dependency visited after others adds its own chain, less what they brought. */
  lemma NextChain(modules: seq<Module>, rank: string -> nat, m: Module, names: seq<string>, name: string)
    requires Acyclic(modules, rank) && forall x <- names + [name] :: rank(x) < rank(m.name)
    ensures var chain := VisitAll(modules, names, {m.name}, []).1;
      VisitAll(modules, names + [name], {m.name}, []).1 == chain + Unseen(Chain(modules, name), NamesIn(chain))
  {
    var (done, chain) := VisitAll(modules, names, {m.name}, []);
    VisitAllPush(modules, names, name, {m.name}, []);
    VisitAppends(modules, name, done, chain);
    VisitAllCloses(modules, names, {m.name});
    assert {m.name} + (done - {m.name}) == done;
    VisitBeyond(modules, name, {m.name}, done - {m.name});
    assert name in names + [name];
    VisitBelow(modules, rank, name, {}, m.name);
    assert {} + {m.name} == {m.name};
    SameUnseen(modules, rank, m, names, name);
  }

  lemma SameUnseen(modules: seq<Module>, rank: string -> nat, m: Module, names: seq<string>, name: string)
    requires Acyclic(modules, rank) && rank(name) < rank(m.name) && forall x <- names :: rank(x) < rank(m.name)
    ensures var (done, chain) := VisitAll(modules, names, {m.name}, []);
      Unseen(Chain(modules, name), done - {m.name}) == Unseen(Chain(modules, name), NamesIn(chain))
  {
    var (done, chain) := VisitAll(modules, names, {m.name}, []);
    VisitAllFolds(modules, rank, names, {m.name}, [], rank(m.name));
    VisitFolds(modules, rank, name, {}, [], rank(name) + 1);
    var other := Chain(modules, name);
    assert other[0..] == other;
    UnseenSame(other, done - {m.name}, NamesIn(chain));
  }

  lemma {:induction false} DependenciesChain(
      modules: seq<Module>, rank: string -> nat, m: Module, names: seq<string>)
    requires Acyclic(modules, rank) && forall x <- names :: rank(x) < rank(m.name)
    ensures VisitAll(modules, names, {m.name}, []).1 == Chains(modules, names)
  {
    if names != [] {
      var n := |names| - 1;
      assert names == names[..n] + [names[n]];
      DependenciesChain(modules, rank, m, names[..n]);
      NextChain(modules, rank, m, names[..n], names[n]);
    }
  }

  /** A chain is the chains of the direct dependencies in the order declared, each without what came before,
      and then the module itself. */
  lemma ChainUnfolds(modules: seq<Module>, rank: string -> nat, m: Module)
    requires Acyclic(modules, rank) && Find(modules, m.name) == Some(m)
    ensures Chain(modules, m.name) == Chains(modules, m.dependsOn) + [m]
  {
    DependenciesChain(modules, rank, m, m.dependsOn);
    assert {} + {m.name} == {m.name};
  }
}
