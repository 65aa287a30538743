/** The build units of a test: what each folded chain contributes to its files, fragments, dependencies
    and friends (`module_units`, src/conformance.rs:891-968). */
module ModuleUnits {
  import opened Options
  import opened Modules

  /** A built module and its chain. */
  datatype Folded = Folded(leaf: Module, chain: seq<Module>)

  function FoldAll(modules: seq<Module>, built: seq<Module>): (r: seq<Folded>)
    ensures |r| == |built| && forall i :: 0 <= i < |r| ==> r[i] == Folded(built[i], Chain(modules, built[i].name))
  {
    seq(|built|, i requires 0 <= i < |built| => Folded(built[i], Chain(modules, built[i].name)))
  }

  predicate Folds(f: Folded, name: string) { exists m <- f.chain :: m.name == name }

  /** The first built unit that folds `name` in, or `name` itself. */
  function Representative(built: seq<Folded>, name: string): string
  {
    if built == [] then name
    else if Folds(built[0], name) then built[0].leaf.name
    else Representative(built[1..], name)
  }

  /** Each element at its first occurrence. */
  function Firsts(s: seq<string>): (r: seq<string>)
    ensures forall x :: x in r <==> x in s
    ensures forall i, j :: 0 <= i < j < |r| ==> r[i] != r[j]
  {
    if s == [] then []
    else
      var before, last := Firsts(s[..|s| - 1]), s[|s| - 1];
      assert s == s[..|s| - 1] + [last];
      if last in before then before else before + [last]
  }

  /** Dependencies remapped to what is built, without references to the unit itself. */
  function Remap(names: seq<string>, self: string, built: seq<Folded>): (r: seq<string>)
  {
    if names == [] then []
    else
      var before, last := Remap(names[..|names| - 1], self, built), Representative(built, names[|names| - 1]);
      if last == self then before else before + [last]
  }

  /** The unit's own dependencies first, then those of the source sets it folds. */
  function DepList(chain: seq<Module>, self: string, built: seq<Folded>): seq<string>
  {
    if chain == [] then []
    else
      var m := chain[|chain| - 1];
      Remap(m.deps, self, built) + Remap(m.friends, self, built) + DepList(chain[..|chain| - 1], self, built)
  }

  function FriendList(chain: seq<Module>, self: string, built: seq<Folded>): seq<string>
  {
    if chain == [] then []
    else Remap(chain[|chain| - 1].friends, self, built) + FriendList(chain[..|chain| - 1], self, built)
  }

  function Files(chain: seq<Module>): seq<File>
  {
    if chain == [] then [] else Files(chain[..|chain| - 1]) + chain[|chain| - 1].files
  }

  function JavaFiles(chain: seq<Module>): seq<File>
  {
    if chain == [] then [] else JavaFiles(chain[..|chain| - 1]) + chain[|chain| - 1].javaFiles
  }

  function Fragments(chain: seq<Module>): (r: seq<Fragment>)
    ensures |r| == |chain|
    ensures forall i :: 0 <= i < |r| ==> r[i] == Fragment(chain[i].name, |chain[i].files|, chain[i].dependsOn)
  {
    seq(|chain|, i requires 0 <= i < |chain| => Fragment(chain[i].name, |chain[i].files|, chain[i].dependsOn))
  }

  /** The files of the first `n` fragments. */
  function Offset(fragments: seq<Fragment>, n: nat): nat
    requires n <= |fragments|
  {
    if n == 0 then 0 else Offset(fragments, n - 1) + fragments[n - 1].kotlinFileCount
  }

  function UnitOf(f: Folded, built: seq<Folded>): Unit
  {
    var fragments := Fragments(f.chain);
    Unit(
      f.leaf.name,
      Firsts(DepList(f.chain, f.leaf.name, built)),
      Firsts(FriendList(f.chain, f.leaf.name, built)),
      Files(f.chain),
      Offset(fragments, if fragments == [] then 0 else |fragments| - 1),
      JavaFiles(f.chain),
      fragments)
  }

  function BuiltUnits(modules: seq<Module>): seq<Folded> { FoldAll(modules, Built(modules, Targets(modules))) }

  function UnitsUpTo(built: seq<Folded>, n: nat): (r: seq<Unit>)
    requires n <= |built|
    ensures |r| == n && forall i :: 0 <= i < n ==> r[i] == UnitOf(built[i], built)
  {
    seq(n, i requires 0 <= i < n => UnitOf(built[i], built))
  }

  lemma UnitsPush(built: seq<Folded>, n: nat)
    requires n < |built|
    ensures UnitsUpTo(built, n + 1) == UnitsUpTo(built, n) + [UnitOf(built[n], built)]
  {
    var longer, shorter := UnitsUpTo(built, n + 1), UnitsUpTo(built, n) + [UnitOf(built[n], built)];
    forall i | 0 <= i < n + 1 ensures longer[i] == shorter[i] {
    }
  }

  function Units(modules: seq<Module>): (r: seq<Unit>)
    ensures |r| == |BuiltUnits(modules)|
  {
    UnitsUpTo(BuiltUnits(modules), |BuiltUnits(modules)|)
  }

  // ---------------------------------------------------------------- files and fragments

  lemma {:induction false} OffsetFiles(chain: seq<Module>, n: nat)
    requires n <= |chain|
    ensures Offset(Fragments(chain), n) == |Files(chain[..n])|
  {
    if n > 0 {
      OffsetFiles(chain, n - 1);
      assert chain[..n][..n - 1] == chain[..n - 1];
    }
  }

  lemma {:induction false} FilesPrefix(chain: seq<Module>, n: nat)
    requires n <= |chain|
    ensures Files(chain[..n]) <= Files(chain)
    decreases |chain|
  {
    if n < |chain| {
      FilesPrefix(chain[..|chain| - 1], n);
      assert chain[..|chain| - 1][..n] == chain[..n];
    } else {
      assert chain[..n] == chain;
    }
  }

  /** Fragment `j`'s slice of the files. */
  ghost predicate Cut(u: Unit, chain: seq<Module>, j: nat)
  {
    && |u.fragments| == |chain| && j < |chain|
    && u.fragments[j].name == chain[j].name && u.fragments[j].refined == chain[j].dependsOn
    && Offset(u.fragments, j) <= Offset(u.fragments, j + 1) <= |u.files|
    && u.files[Offset(u.fragments, j)..Offset(u.fragments, j + 1)] == chain[j].files
  }

  lemma CutAt(f: Folded, built: seq<Folded>, j: nat)
    requires j < |f.chain|
    ensures Cut(UnitOf(f, built), f.chain, j)
  {
    OffsetFiles(f.chain, j);
    OffsetFiles(f.chain, j + 1);
    FilesPrefix(f.chain, j + 1);
    assert f.chain[..j + 1][..j] == f.chain[..j];
    assert Files(f.chain[..j + 1]) == Files(f.chain[..j]) + f.chain[j].files;
  }

  /** The fragment counts cut the unit's file list into the files of each chain member, in chain order,
      leaving nothing over; the common prefix ends where the unit's own files begin. */
  ghost predicate FilesCut(u: Unit, chain: seq<Module>)
  {
    && |u.fragments| == |chain| && Offset(u.fragments, |u.fragments|) == |u.files|
    && (forall j :: 0 <= j < |chain| ==> Cut(u, chain, j))
    && (chain != [] ==> u.commonFileCount <= |u.files| && u.files[u.commonFileCount..] == chain[|chain| - 1].files)
  }

  lemma FragmentsPartition(f: Folded, built: seq<Folded>)
    ensures FilesCut(UnitOf(f, built), f.chain)
  {
    var u := UnitOf(f, built);
    OffsetFiles(f.chain, |f.chain|);
    assert f.chain[..|f.chain|] == f.chain;
    forall j | 0 <= j < |f.chain| ensures Cut(u, f.chain, j) {
      CutAt(f, built, j);
    }
    if f.chain != [] {
      OwnFilesLast(f, built);
    }
  }

  /** How many Java files the first `n` modules have. */
  function JavaOffset(chain: seq<Module>, n: nat): nat
    requires n <= |chain|
  {
    if n == 0 then 0 else JavaOffset(chain, n - 1) + |chain[n - 1].javaFiles|
  }

  /** Member `j`'s slice of the Java files. */
  ghost predicate JavaCut(u: Unit, chain: seq<Module>, j: nat)
    requires j < |chain|
  {
    && JavaOffset(chain, j) <= JavaOffset(chain, j + 1) <= |u.javaFiles|
    && u.javaFiles[JavaOffset(chain, j)..JavaOffset(chain, j + 1)] == chain[j].javaFiles
  }

  ghost predicate JavaFilesCut(u: Unit, chain: seq<Module>)
  {
    JavaOffset(chain, |chain|) == |u.javaFiles| && forall j :: 0 <= j < |chain| ==> JavaCut(u, chain, j)
  }

  lemma {:induction false} JavaOffsetFiles(chain: seq<Module>, n: nat)
    requires n <= |chain|
    ensures JavaOffset(chain, n) == |JavaFiles(chain[..n])|
  {
    if n > 0 {
      JavaOffsetFiles(chain, n - 1);
      assert chain[..n][..n - 1] == chain[..n - 1];
    }
  }

  /** A unit's Java files are those of its chain's members, in chain order, and nothing over. */
  lemma JavaFilesInOrder(f: Folded, built: seq<Folded>)
    ensures JavaFilesCut(UnitOf(f, built), f.chain)
  {
    JavaOffsetFiles(f.chain, |f.chain|);
    assert f.chain[..|f.chain|] == f.chain;
    forall j | 0 <= j < |f.chain| ensures JavaCut(UnitOf(f, built), f.chain, j) {
      JavaPrefix(f.chain, j);
      JavaOffsetFiles(f.chain, j);
      JavaOffsetFiles(f.chain, j + 1);
      assert f.chain[..j + 1][..j] == f.chain[..j];
    }
  }

  lemma {:induction false} JavaPrefix(chain: seq<Module>, j: nat)
    requires j < |chain|
    ensures JavaFiles(chain[..j]) + chain[j].javaFiles <= JavaFiles(chain)
    decreases |chain|
  {
    if j < |chain| - 1 {
      JavaPrefix(chain[..|chain| - 1], j);
      assert chain[..|chain| - 1][..j] == chain[..j];
    }
  }

  lemma OwnFilesLast(f: Folded, built: seq<Folded>)
    requires f.chain != []
    ensures var u := UnitOf(f, built);
      u.commonFileCount <= |u.files| && u.files[u.commonFileCount..] == f.chain[|f.chain| - 1].files
  {
    OffsetFiles(f.chain, |f.chain| - 1);
  }

  lemma DependsEarlier(modules: seq<Module>, chain: seq<Module>, j: nat, name: string) returns (i: nat)
    requires DependencyFirst(modules, chain) && j < |chain| && name in chain[j].dependsOn && Find(modules, name).Some?
    ensures i < j && chain[i].name == name
  {
    assert Ready(modules, chain[..j], chain[j]);
    var m :| m in chain[..j] && m.name == name;
    i :| 0 <= i < j && chain[..j][i] == m;
  }

  /** What a fragment refines is a fragment of the same unit, and then an earlier one, exactly when it is
      declared. */
  lemma RefinesEarlier(
      modules: seq<Module>, rank: string -> nat, unit: string, chain: seq<Module>, j: nat, name: string)
    requires Acyclic(modules, rank) && Find(modules, unit).Some? && chain == Chain(modules, unit)
    requires j < |chain| && name in Fragments(chain)[j].refined
    ensures (exists i :: 0 <= i < |chain| && Fragments(chain)[i].name == name) <==> Find(modules, name).Some?
    ensures (exists i :: 0 <= i < j && Fragments(chain)[i].name == name) <==> Find(modules, name).Some?
  {
    ChainIsClosure(modules, rank, unit);
    if Find(modules, name).Some? {
      var i := DependsEarlier(modules, chain, j, name);
      assert Fragments(chain)[i].name == name;
    } else {
      forall i | 0 <= i < |chain| ensures Fragments(chain)[i].name != name {
        assert chain[i] in chain && Find(modules, chain[i].name) == Some(chain[i]);
      }
    }
  }

  /** One module that depends on a name nobody declares is a unit whose one fragment refines that name. */
  lemma UndeclaredRefined(m: Module, missing: string)
    requires m.dependsOn == [missing] && missing != m.name
    ensures var units := Units([m]);
      && |units| == 1 && units[0].name == m.name
      && units[0].fragments == [Fragment(m.name, |m.files|, [missing])]
      && forall f <- units[0].fragments :: f.name != missing
  {
    var modules := [m];
    assert Find(modules[1..], missing).None? && Find(modules, missing).None?;
    var seen := {m.name};
    assert Visit(modules, missing, seen, []) == (seen + {missing}, []);
    assert [missing][1..] == [] && VisitAll(modules, [], seen + {missing}, []) == (seen + {missing}, []);
    assert VisitAll(modules, [missing], seen, []) == (seen + {missing}, []);
    assert {} + {m.name} == seen && [] + [m] == [m];
    assert Chain(modules, m.name) == [m];
    assert Targets(modules) == {missing} by {
      assert m in modules && missing in m.dependsOn;
      assert forall x <- modules :: x == m;
    }
    assert modules[..0] == [] && Built(modules, {missing}) == [m];
    var built := BuiltUnits(modules);
    assert built == [Folded(m, [m])];
    assert UnitsUpTo(built, 1)[0] == UnitOf(built[0], built);
  }

  // ---------------------------------------------------------------- dependencies and friends

  lemma {:induction false} RemapExact(names: seq<string>, self: string, built: seq<Folded>, x: string)
    ensures x in Remap(names, self, built) <==> x != self && exists d <- names :: x == Representative(built, d)
  {
    if names != [] {
      var rest, last := names[..|names| - 1], names[|names| - 1];
      RemapExact(rest, self, built, x);
      var r := Representative(built, last);
      assert Remap(names, self, built) == Remap(rest, self, built) + (if r == self then [] else [r]);
      assert forall d :: d in names <==> d in rest || d == last;
      assert x == r ==> exists d <- names :: x == Representative(built, d);
    }
  }

  /** `x` represents a dependency or friend of a chain member. */
  ghost predicate Wanted(chain: seq<Module>, built: seq<Folded>, x: string)
  {
    exists m <- chain, d <- m.deps + m.friends :: x == Representative(built, d)
  }

  ghost predicate Befriended(chain: seq<Module>, built: seq<Folded>, x: string)
  {
    exists m <- chain, d <- m.friends :: x == Representative(built, d)
  }

  lemma {:induction false} DepListExact(chain: seq<Module>, self: string, built: seq<Folded>, x: string)
    ensures x in DepList(chain, self, built) <==> x != self && Wanted(chain, built, x)
  {
    if chain != [] {
      var rest, m := chain[..|chain| - 1], chain[|chain| - 1];
      DepListExact(rest, self, built, x);
      RemapExact(m.deps, self, built, x);
      RemapExact(m.friends, self, built, x);
      assert forall y :: y in chain <==> y in rest || y == m;
      assert forall d :: d in m.deps + m.friends <==> d in m.deps || d in m.friends;
    }
  }

  lemma {:induction false} FriendListExact(chain: seq<Module>, self: string, built: seq<Folded>, x: string)
    ensures x in FriendList(chain, self, built) <==> x != self && Befriended(chain, built, x)
  {
    if chain != [] {
      var rest, m := chain[..|chain| - 1], chain[|chain| - 1];
      FriendListExact(rest, self, built, x);
      RemapExact(m.friends, self, built, x);
      assert forall y :: y in chain <==> y in rest || y == m;
    }
  }

  lemma {:induction false} RepresentativeFolds(built: seq<Folded>, name: string)
    requires exists f <- built :: Folds(f, name)
    ensures exists i :: FirstToFold(built, i, name)
  {
    if Folds(built[0], name) {
      assert FirstToFold(built, 0, name);
    } else {
      assert forall f :: f in built <==> f == built[0] || f in built[1..];
      RepresentativeFolds(built[1..], name);
      var i :| FirstToFold(built[1..], i, name);
      assert built[1..][i] == built[i + 1];
      forall j | 0 <= j < i + 1 ensures !Folds(built[j], name) {
        if j > 0 { assert built[1..][j - 1] == built[j]; }
      }
      assert FirstToFold(built, i + 1, name);
    }
  }

  ghost predicate FirstToFold(built: seq<Folded>, i: int, name: string)
  {
    && 0 <= i < |built| && Folds(built[i], name) && Representative(built, name) == built[i].leaf.name
    && forall j :: 0 <= j < i ==> !Folds(built[j], name)
  }

  /** Every classpath name a module gives is a declared module. */
  ghost predicate DependenciesDeclared(modules: seq<Module>)
  {
    forall m <- modules, d <- m.deps + m.friends :: Find(modules, d).Some?
  }

  /** A declared module is folded by some built unit. */
  lemma DeclaredIsFolded(modules: seq<Module>, rank: string -> nat, name: string, height: nat)
    requires Acyclic(modules, rank) && DistinctNames(modules) && Find(modules, name).Some?
    requires forall x <- modules :: rank(x.name) <= height
    ensures exists i :: FirstToFold(BuiltUnits(modules), i, name)
  {
    var leaf := EveryModuleFolded(modules, rank, Find(modules, name).value, height);
    var built := Built(modules, Targets(modules));
    var k :| 0 <= k < |built| && built[k] == leaf;
    FindDistinct(modules, leaf);
    ChainIsClosure(modules, rank, leaf.name);
    assert name in Names(Chain(modules, leaf.name));
    assert BuiltUnits(modules)[k] == Folded(leaf, Chain(modules, leaf.name));
    assert Folds(BuiltUnits(modules)[k], name);
    RepresentativeFolds(BuiltUnits(modules), name);
  }

  /** A unit's dependencies are, once each, the units other than itself that stand for what its chain
      depends on; its friends are those among them that stand for a friend of its chain. */
  ghost predicate DependsExactly(f: Folded, built: seq<Folded>, u: Unit)
  {
    && (forall i, j :: 0 <= i < j < |u.deps| ==> u.deps[i] != u.deps[j])
    && (forall i, j :: 0 <= i < j < |u.friends| ==> u.friends[i] != u.friends[j])
    && (forall x :: x in u.deps <==> x != u.name && Wanted(f.chain, built, x))
    && (forall x :: x in u.friends <==> x != u.name && Befriended(f.chain, built, x))
    && (forall x <- u.friends :: x in u.deps)
  }

  lemma UnitDependsExactly(f: Folded, built: seq<Folded>)
    ensures DependsExactly(f, built, UnitOf(f, built))
  {
    forall x
      ensures x in DepList(f.chain, f.leaf.name, built) <==> x != f.leaf.name && Wanted(f.chain, built, x)
      ensures x in FriendList(f.chain, f.leaf.name, built) <==> x != f.leaf.name && Befriended(f.chain, built, x)
      ensures Befriended(f.chain, built, x) ==> Wanted(f.chain, built, x)
    {
      DepListExact(f.chain, f.leaf.name, built, x);
      FriendListExact(f.chain, f.leaf.name, built, x);
      if Befriended(f.chain, built, x) {
        var m, d :| m in f.chain && d in m.friends && x == Representative(built, d);
        assert d in m.deps + m.friends;
      }
    }
  }

  /** The units of a test: one for each module that no other refines, as they are declared, each with what its
      chain contributes. */
  lemma UnitParts(modules: seq<Module>, i: nat)
    requires i < |Units(modules)|
    ensures var (u, built) := (Units(modules)[i], Built(modules, Targets(modules)));
      && |Units(modules)| == |built| && u.name == built[i].name
      && FilesCut(u, Chain(modules, u.name)) && JavaFilesCut(u, Chain(modules, u.name))
      && DependsExactly(Folded(built[i], Chain(modules, u.name)), BuiltUnits(modules), u)
  {
    var f := BuiltUnits(modules)[i];
    FragmentsPartition(f, BuiltUnits(modules));
    JavaFilesInOrder(f, BuiltUnits(modules));
    UnitDependsExactly(f, BuiltUnits(modules));
  }

  /** Each dependency of a unit is the name of another unit. */
  lemma DependenciesAreUnits(
      modules: seq<Module>, rank: string -> nat, height: nat, built: seq<Folded>, k: nat, x: string)
    requires Acyclic(modules, rank) && DistinctNames(modules) && DependenciesDeclared(modules)
    requires forall m <- modules :: rank(m.name) <= height
    requires built == BuiltUnits(modules) && k < |built| && x in UnitOf(built[k], built).deps
    ensures exists i :: 0 <= i < |built| && i != k && built[i].leaf.name == x
  {
    DepListExact(built[k].chain, built[k].leaf.name, built, x);
    var m, d :| m in built[k].chain && d in m.deps + m.friends && x == Representative(built, d);
    var leaf := Built(modules, Targets(modules))[k];
    FindDistinct(modules, leaf);
    ChainIsClosure(modules, rank, leaf.name);
    DeclaredIsFolded(modules, rank, d, height);
    var i :| FirstToFold(built, i, d);
    assert built[i].leaf.name == x;
  }

  // ---------------------------------------------------------------- the order of dependencies

  /** The classpath names a module gives, its dependencies ahead of its friends. */
  function Given(m: Module, friendsOnly: bool): seq<string> { if friendsOnly then m.friends else m.deps + m.friends }

  /** `x` stands for the `k`-th name that member `i` gives. */
  ghost predicate Mention(chain: seq<Module>, built: seq<Folded>, friendsOnly: bool, x: string, i: int, k: int)
  {
    0 <= i < |chain| && 0 <= k < |Given(chain[i], friendsOnly)| &&
      x == Representative(built, Given(chain[i], friendsOnly)[k])
  }

  /** Some mention of `x` comes before every mention of `y`, reading from the unit's own module back. */
  ghost predicate FirstMentioned(chain: seq<Module>, built: seq<Folded>, friendsOnly: bool, x: string, y: string)
  {
    exists i, k :: Mention(chain, built, friendsOnly, x, i, k) &&
      forall j, l :: Mention(chain, built, friendsOnly, y, j, l) ==> j < i || (j == i && k < l)
  }

  ghost predicate Ordered(chain: seq<Module>, built: seq<Folded>, friendsOnly: bool, list: seq<string>)
  {
    forall a, b :: 0 <= a < b < |list| ==> FirstMentioned(chain, built, friendsOnly, list[a], list[b])
  }

  /** The unfiltered list, with where each entry is mentioned. */
  ghost predicate Traced(
      chain: seq<Module>, built: seq<Folded>, friendsOnly: bool, self: string, list: seq<string>, at: seq<(int, int)>)
  {
    Located(chain, built, friendsOnly, list, at) && Backwards(at) && Complete(chain, built, friendsOnly, self, at)
  }

  ghost predicate Located(
      chain: seq<Module>, built: seq<Folded>, friendsOnly: bool, list: seq<string>, at: seq<(int, int)>)
  {
    |at| == |list| && forall p :: 0 <= p < |at| ==> Mention(chain, built, friendsOnly, list[p], at[p].0, at[p].1)
  }

  /** From the last member back, and forwards in each. */
  ghost predicate Backwards(at: seq<(int, int)>)
  {
    forall p, q :: 0 <= p < q < |at| ==> at[q].0 < at[p].0 || (at[q].0 == at[p].0 && at[p].1 < at[q].1)
  }

  ghost predicate Complete(
      chain: seq<Module>, built: seq<Folded>, friendsOnly: bool, self: string, at: seq<(int, int)>)
  {
    forall x, i, k :: Mention(chain, built, friendsOnly, x, i, k) && x != self ==> (i, k) in at
  }

  /** Positions of the names that are not remapped to the unit itself. */
  ghost function Positions(names: seq<string>, self: string, built: seq<Folded>, i: int): (r: seq<(int, int)>)
    ensures |r| == |Remap(names, self, built)|
    ensures forall p :: 0 <= p < |r| ==>
      r[p].0 == i && 0 <= r[p].1 < |names| && Remap(names, self, built)[p] == Representative(built, names[r[p].1])
    ensures forall p, q :: 0 <= p < q < |r| ==> r[p].1 < r[q].1
    ensures forall k :: 0 <= k < |names| && Representative(built, names[k]) != self ==> (i, k) in r
  {
    if names == [] then []
    else
      var n := |names| - 1;
      var before := Positions(names[..n], self, built, i);
      if Representative(built, names[n]) == self then before else before + [(i, n)]
  }

  lemma {:induction false} RemapConcat(a: seq<string>, b: seq<string>, self: string, built: seq<Folded>)
    ensures Remap(a + b, self, built) == Remap(a, self, built) + Remap(b, self, built)
  {
    if b == [] {
      assert a + b == a;
    } else {
      RemapConcat(a, b[..|b| - 1], self, built);
      assert (a + b)[..|a + b| - 1] == a + b[..|b| - 1];
    }
  }

  /** The names of every member, remapped, from the last member back. */
  ghost function Mentions(chain: seq<Module>, self: string, built: seq<Folded>, friendsOnly: bool): seq<string>
  {
    if friendsOnly then FriendList(chain, self, built) else DepList(chain, self, built)
  }

  lemma MentionsStep(chain: seq<Module>, m: Module, self: string, built: seq<Folded>, friendsOnly: bool)
    ensures Mentions(chain + [m], self, built, friendsOnly) ==
      Remap(Given(m, friendsOnly), self, built) + Mentions(chain, self, built, friendsOnly)
  {
    assert (chain + [m])[..|chain|] == chain;
    RemapConcat(m.deps, m.friends, self, built);
  }

  lemma {:induction false} MentionsTraced(chain: seq<Module>, self: string, built: seq<Folded>, friendsOnly: bool)
    returns (at: seq<(int, int)>)
    ensures Traced(chain, built, friendsOnly, self, Mentions(chain, self, built, friendsOnly), at)
  {
    if chain == [] {
      at := [];
    } else {
      var n := |chain| - 1;
      var before := MentionsTraced(chain[..n], self, built, friendsOnly);
      MentionsStep(chain[..n], chain[n], self, built, friendsOnly);
      assert chain == chain[..n] + [chain[n]];
      var own := Positions(Given(chain[n], friendsOnly), self, built, n);
      at := own + before;
      TracedPush(
        chain[..n], chain[n], built, friendsOnly, self, Mentions(chain[..n], self, built, friendsOnly), before);
    }
  }

  lemma TracedPush(
      chain: seq<Module>, m: Module, built: seq<Folded>, friendsOnly: bool, self: string, list: seq<string>,
      before: seq<(int, int)>)
    requires Traced(chain, built, friendsOnly, self, list, before)
    ensures Traced(chain + [m], built, friendsOnly, self, Remap(Given(m, friendsOnly), self, built) + list,
      Positions(Given(m, friendsOnly), self, built, |chain|) + before)
  {
    var own := Positions(Given(m, friendsOnly), self, built, |chain|);
    var names := Given(m, friendsOnly);
    LocatedPush(chain, m, built, friendsOnly, Remap(names, self, built), own, list, before);
    assert Backwards(own + before);
    forall x, i, k | Mention(chain + [m], built, friendsOnly, x, i, k) && x != self ensures (i, k) in own + before {
      if i < |chain| {
        assert Mention(chain, built, friendsOnly, x, i, k);
        assert (i, k) in before;
      } else {
        assert (i, k) in own;
      }
    }
  }

  lemma LocatedPush(
      chain: seq<Module>, m: Module, built: seq<Folded>, friendsOnly: bool, added: seq<string>, own: seq<(int, int)>,
      list: seq<string>, before: seq<(int, int)>)
    requires Located(chain, built, friendsOnly, list, before) && |own| == |added|
    requires forall p :: 0 <= p < |own| ==> Mention(chain + [m], built, friendsOnly, added[p], own[p].0, own[p].1)
    ensures Located(chain + [m], built, friendsOnly, added + list, own + before)
  {
    forall p | 0 <= p < |before|
      ensures Mention(chain + [m], built, friendsOnly, list[p], before[p].0, before[p].1)
    {
      assert Mention(chain, built, friendsOnly, list[p], before[p].0, before[p].1);
    }
  }

  /** What is kept stands in the order of first occurrences. */
  lemma {:induction false} FirstsInOrder(s: seq<string>, a: nat, b: nat) returns (p: nat)
    requires a < b < |Firsts(s)|
    ensures p < |s| && s[p] == Firsts(s)[a] && forall q :: 0 <= q < |s| && s[q] == Firsts(s)[b] ==> p < q
  {
    var n := |s| - 1;
    var before := Firsts(s[..n]);
    if b < |before| {
      p := FirstsInOrder(s[..n], a, b);
    } else {
      assert before[a] in s[..n];
      p :| 0 <= p < n && s[..n][p] == before[a];
    }
  }

  lemma FirstsOrdered(
      chain: seq<Module>, built: seq<Folded>, friendsOnly: bool, self: string, list: seq<string>, at: seq<(int, int)>)
    requires Traced(chain, built, friendsOnly, self, list, at) && self !in list
    ensures Ordered(chain, built, friendsOnly, Firsts(list))
  {
    forall a, b | 0 <= a < b < |Firsts(list)|
      ensures FirstMentioned(chain, built, friendsOnly, Firsts(list)[a], Firsts(list)[b])
    {
      var x, y := Firsts(list)[a], Firsts(list)[b];
      var p := FirstsInOrder(list, a, b);
      assert x in list && y in list;
      forall j, l | Mention(chain, built, friendsOnly, y, j, l)
        ensures j < at[p].0 || (j == at[p].0 && at[p].1 < l)
      {
        assert (j, l) in at;
        var q :| 0 <= q < |at| && at[q] == (j, l);
        assert list[q] == y;
      }
      assert Mention(chain, built, friendsOnly, x, at[p].0, at[p].1);
    }
  }

  /** A unit's own dependencies come first and those of the source sets it folds after them, each module's
      dependencies ahead of its friends, in the order given. */
  lemma DependenciesInOrder(f: Folded, built: seq<Folded>)
    ensures Ordered(f.chain, built, false, UnitOf(f, built).deps)
    ensures Ordered(f.chain, built, true, UnitOf(f, built).friends)
  {
    var self := f.leaf.name;
    var at := MentionsTraced(f.chain, self, built, false);
    DepListExact(f.chain, self, built, self);
    FirstsOrdered(f.chain, built, false, self, DepList(f.chain, self, built), at);
    at := MentionsTraced(f.chain, self, built, true);
    FriendListExact(f.chain, self, built, self);
    FirstsOrdered(f.chain, built, true, self, FriendList(f.chain, self, built), at);
  }

  // ---------------------------------------------------------------- building them

  lemma {:induction false} RepresentativePush(built: seq<Folded>, f: Folded, name: string)
    ensures Representative(built + [f], name) ==
      if exists g <- built :: Folds(g, name) then Representative(built, name)
      else if Folds(f, name) then f.leaf.name else name
  {
    if built != [] {
      assert (built + [f])[1..] == built[1..] + [f];
      RepresentativePush(built[1..], f, name);
      assert forall g :: g in built <==> g == built[0] || g in built[1..];
    } else {
      assert [f][1..] == [];
    }
  }

  function Lookup(representative: map<string, string>, name: string): string
  {
    if name in representative then representative[name] else name
  }

  ghost predicate Represents(representative: map<string, string>, built: seq<Folded>)
  {
    forall name :: Lookup(representative, name) == Representative(built, name)
  }

  /** The representatives as the source collects them: the first unit to fold a name keeps it. */
  method CollectRepresentatives(built: seq<Folded>) returns (representative: map<string, string>)
    ensures Represents(representative, built)
  {
    representative := map[];
    for i := 0 to |built|
      invariant forall name :: name in representative <==> exists g <- built[..i] :: Folds(g, name)
      invariant forall name :: Lookup(representative, name) == Representative(built[..i], name)
    {
      var f := built[i];
      ghost var before := representative;
      for j := 0 to |f.chain|
        invariant forall name :: name in representative <==> name in before || name in Names(f.chain[..j])
        invariant forall name <- representative ::
          representative[name] == if name in before then before[name] else f.leaf.name
      {
        var name := f.chain[j].name;
        assert f.chain[..j + 1] == f.chain[..j] + [f.chain[j]];
        NamesPush(f.chain[..j], f.chain[j]);
        if name !in representative {
          representative := representative[name := f.leaf.name];
        }
      }
      assert f.chain[..|f.chain|] == f.chain && built[..i + 1] == built[..i] + [f];
      forall name ensures name in representative <==> exists g <- built[..i + 1] :: Folds(g, name) {
        assert Folds(f, name) <==> name in Names(f.chain);
        assert f in built[..i + 1];
        assert forall g :: g in built[..i + 1] <==> g in built[..i] || g == f;
      }
      forall name ensures Lookup(representative, name) == Representative(built[..i + 1], name) {
        RepresentativePush(built[..i], f, name);
        assert Folds(f, name) <==> name in Names(f.chain);
      }
    }
    assert built[..|built|] == built;
  }

  lemma FirstsPush(s: seq<string>, x: string)
    ensures Firsts(s + [x]) == if x in s then Firsts(s) else Firsts(s) + [x]
  {
    assert (s + [x])[..|s|] == s;
  }

  /** A deduplicated list under construction: `seen` is what the unfiltered list `all` holds. */
  ghost predicate Collected(all: seq<string>, seen: set<string>, kept: seq<string>)
  {
    kept == Firsts(all) && forall x :: x in seen <==> x in all
  }

  /** `if seen.insert(r) { kept.push(r) }`. */
  method AddFirst(r: string, seen: set<string>, kept: seq<string>, ghost all: seq<string>)
    returns (seen': set<string>, kept': seq<string>)
    requires Collected(all, seen, kept)
    ensures Collected(all + [r], seen', kept')
  {
    FirstsPush(all, r);
    seen', kept' := seen + {r}, if r in seen then kept else kept + [r];
  }

  /** One more name of a module, remapped. */
  lemma RemapPush(
      all: seq<string>, names: seq<string>, j: nat, self: string, representative: map<string, string>,
      built: seq<Folded>)
    requires j < |names| && Represents(representative, built)
    ensures var r := Lookup(representative, names[j]);
      all + Remap(names[..j + 1], self, built) == all + Remap(names[..j], self, built) + if r == self then [] else [r]
  {
    assert names[..j + 1][..j] == names[..j];
    assert Lookup(representative, names[j]) == Representative(built, names[j]);
  }

  /** A module's classpath dependencies, added to the lists of its unit. */
  method AddDeps(
      m: Module, self: string, ghost built: seq<Folded>, representative: map<string, string>,
      seen: set<string>, deps: seq<string>, ghost all: seq<string>)
    returns (seen': set<string>, deps': seq<string>)
    requires Represents(representative, built)
    requires Collected(all, seen, deps)
    ensures Collected(all + Remap(m.deps, self, built), seen', deps')
  {
    seen', deps' := seen, deps;
    assert all + [] == all;
    for j := 0 to |m.deps|
      invariant Collected(all + Remap(m.deps[..j], self, built), seen', deps')
    {
      var r := Lookup(representative, m.deps[j]);
      RemapPush(all, m.deps, j, self, representative, built);
      ghost var known := all + Remap(m.deps[..j], self, built);
      assert known + [] == known;
      if r != self {
        seen', deps' := AddFirst(r, seen', deps', known);
      }
    }
    assert m.deps[..|m.deps|] == m.deps;
  }

  /** A module's friends, which are dependencies as well. */
  method AddFriends(
      m: Module, self: string, ghost built: seq<Folded>, representative: map<string, string>,
      seen: set<string>, seenFriends: set<string>, deps: seq<string>, friends: seq<string>,
      ghost all: seq<string>, ghost friendly: seq<string>)
    returns (seen': set<string>, seenFriends': set<string>, deps': seq<string>, friends': seq<string>)
    requires Represents(representative, built)
    requires Collected(all, seen, deps) && Collected(friendly, seenFriends, friends)
    ensures Collected(all + Remap(m.friends, self, built), seen', deps')
    ensures Collected(friendly + Remap(m.friends, self, built), seenFriends', friends')
  {
    seen', seenFriends', deps', friends' := seen, seenFriends, deps, friends;
    assert all + [] == all && friendly + [] == friendly;
    for j := 0 to |m.friends|
      invariant Collected(all + Remap(m.friends[..j], self, built), seen', deps')
      invariant Collected(friendly + Remap(m.friends[..j], self, built), seenFriends', friends')
    {
      var r := Lookup(representative, m.friends[j]);
      RemapPush(all, m.friends, j, self, representative, built);
      RemapPush(friendly, m.friends, j, self, representative, built);
      ghost var known, wanted :=
        all + Remap(m.friends[..j], self, built), friendly + Remap(m.friends[..j], self, built);
      assert known + [] == known && wanted + [] == wanted;
      if r == self {
        continue;
      }
      seen', deps' := AddFirst(r, seen', deps', known);
      seenFriends', friends' := AddFirst(r, seenFriends', friends', wanted);
    }
    assert m.friends[..|m.friends|] == m.friends;
  }

  /** The chain member before the ones already handled, from the back. */
  lemma ListsStep(chain: seq<Module>, i: nat, self: string, built: seq<Folded>, all: seq<string>, friendly: seq<string>)
    requires i < |chain|
    ensures all + DepList(chain[..i + 1], self, built) ==
      all + Remap(chain[i].deps, self, built) + Remap(chain[i].friends, self, built) + DepList(chain[..i], self, built)
    ensures friendly + FriendList(chain[..i + 1], self, built) ==
      friendly + Remap(chain[i].friends, self, built) + FriendList(chain[..i], self, built)
  {
    assert chain[..i + 1][..i] == chain[..i];
  }

  method CollectDependencies(f: Folded, ghost built: seq<Folded>, representative: map<string, string>)
    returns (deps: seq<string>, friends: seq<string>)
    requires Represents(representative, built)
    ensures deps == Firsts(DepList(f.chain, f.leaf.name, built))
    ensures friends == Firsts(FriendList(f.chain, f.leaf.name, built))
  {
    deps, friends := [], [];
    var self := f.leaf.name;
    var seen: set<string>, seenFriends: set<string> := {}, {};
    ghost var all: seq<string>, friendly: seq<string> := [], [];
    ghost var allDeps, allFriends := DepList(f.chain, self, built), FriendList(f.chain, self, built);
    var i := |f.chain|;
    assert f.chain[..i] == f.chain;
    while i > 0
      invariant 0 <= i <= |f.chain|
      invariant Collected(all, seen, deps) && Collected(friendly, seenFriends, friends)
      invariant allDeps == all + DepList(f.chain[..i], self, built)
      invariant allFriends == friendly + FriendList(f.chain[..i], self, built)
    {
      i := i - 1;
      ListsStep(f.chain, i, self, built, all, friendly);
      seen, deps := AddDeps(f.chain[i], self, built, representative, seen, deps, all);
      all := all + Remap(f.chain[i].deps, self, built);
      seen, seenFriends, deps, friends :=
        AddFriends(f.chain[i], self, built, representative, seen, seenFriends, deps, friends, all, friendly);
      all, friendly := all + Remap(f.chain[i].friends, self, built), friendly + Remap(f.chain[i].friends, self, built);
    }
    assert all + [] == all && friendly + [] == friendly;
  }

  /** The chain, folded by the stateful visitor, of every module that is built. */
  method FoldBuilt(modules: seq<Module>) returns (built: seq<Folded>)
    ensures built == BuiltUnits(modules)
  {
    var targets := Targets(modules);
    built := [];
    for i := 0 to |modules|
      invariant built == FoldAll(modules, Built(modules[..i], targets))
    {
      assert modules[..i + 1][..i] == modules[..i];
      if modules[i].name !in targets {
        var builder := new ChainBuilder();
        builder.Add(modules, modules[i].name);
        built := built + [Folded(modules[i], builder.out)];
      }
    }
    assert modules[..|modules|] == modules;
  }

  /** The files of every chain member but the last. */
  method CountCommonFiles(chain: seq<Module>) returns (count: nat)
    ensures count == Offset(Fragments(chain), if chain == [] then 0 else |chain| - 1)
  {
    count := 0;
    var shared := if |chain| == 0 then 0 else |chain| - 1;
    for j := 0 to shared
      invariant count == Offset(Fragments(chain), j)
    {
      count := count + |chain[j].files|;
    }
  }

  method CollectFiles(chain: seq<Module>) returns (files: seq<File>, javaFiles: seq<File>)
    ensures files == Files(chain) && javaFiles == JavaFiles(chain)
  {
    files, javaFiles := [], [];
    for j := 0 to |chain|
      invariant files == Files(chain[..j]) && javaFiles == JavaFiles(chain[..j])
    {
      assert chain[..j + 1][..j] == chain[..j];
      files, javaFiles := files + chain[j].files, javaFiles + chain[j].javaFiles;
    }
    assert chain[..|chain|] == chain;
  }

  method ModuleUnits(modules: seq<Module>) returns (units: seq<Unit>)
    ensures units == Units(modules)
  {
    var built := FoldBuilt(modules);
    var representative := CollectRepresentatives(built);
    units := [];
    for i := 0 to |built|
      invariant units == UnitsUpTo(built, i)
    {
      var unit := BuildUnit(built[i], built, representative);
      UnitsPush(built, i);
      units := units + [unit];
    }
  }

  method BuildUnit(f: Folded, ghost built: seq<Folded>, representative: map<string, string>) returns (unit: Unit)
    requires Represents(representative, built)
    ensures unit == UnitOf(f, built)
  {
    var count := CountCommonFiles(f.chain);
    var files, javaFiles := CollectFiles(f.chain);
    var deps, friends := CollectDependencies(f, built, representative);
    unit := Unit(f.leaf.name, deps, friends, files, count, javaFiles, Fragments(f.chain));
  }
}
