/** Grouping one source's body work by the declaration subtree that is reparsed to check it
    (`body_check_groups`, src/compiler.rs:556-586, `active_body_check_groups`, src/compiler.rs:592-720). */
module BodyGroups {
  import opened Options
  import opened Sorting

  type U32 = x: nat | x < 0x1_0000_0000

  const U32_MAX: U32 := 0xFFFF_FFFF

  type Decl = nat

  datatype Span = Span(lo: U32, hi: U32)

  datatype Kind = Classifier | Property | Function | OtherKind

  datatype Header = Header(kind: Kind, localClass: bool)

  datatype Anchor = Anchor(kind: Kind, owner: Option<Decl>)

  datatype Work = Work(declaration: Decl, kind: nat)

  /** The live parser unit: what has a span, a header, an anchor and a checker root in it, and its stable
      declarations by identity. */
  datatype Source = Source(
    spans: map<Decl, Span>,
    headers: map<Decl, Header>,
    anchors: map<Decl, Anchor>,
    roots: map<Decl, Decl>,
    stable: seq<Decl>)

  datatype Group = Group(root: Decl, bodies: set<Decl>, work: seq<Work>, locals: seq<Decl>)

  // ---------------------------------------------------------------- lexical order

  type Key = (U32, U32, Decl)

  function KeyOf(src: Source, d: Decl): Key
  {
    if d in src.spans then (src.spans[d].lo, src.spans[d].hi, d) else (U32_MAX, U32_MAX, d)
  }

  predicate KeyLe(a: Key, b: Key)
  {
    a.0 < b.0 || (a.0 == b.0 && (a.1 < b.1 || (a.1 == b.1 && a.2 <= b.2)))
  }

  function WorkOrder(src: Source): (Work, Work) -> bool
  {
    (a: Work, b: Work) => KeyLe(KeyOf(src, a.declaration), KeyOf(src, b.declaration))
  }

  function GroupOrder(src: Source): (Group, Group) -> bool
  {
    (a: Group, b: Group) => KeyLe(KeyOf(src, a.root), KeyOf(src, b.root))
  }

  // ---------------------------------------------------------------- innermost candidates

  /** The first index of least width among those that have one. */
  function FirstMin(widths: seq<Option<nat>>): (r: Option<nat>)
    ensures r.Some? ==> r.value < |widths| && widths[r.value].Some?
  {
    if widths == [] then None
    else
      var n := |widths| - 1;
      var before := FirstMin(widths[..n]);
      if widths[n].Some? && (before.None? || widths[n].value < widths[before.value].value) then Some(n) else before
  }

  lemma {:induction false} FirstMinIs(widths: seq<Option<nat>>, k: nat)
    requires k < |widths| && widths[k].Some?
    ensures var r := FirstMin(widths);
      r.Some? && widths[r.value].value <= widths[k].value && (k < r.value ==> widths[r.value].value < widths[k].value)
  {
    var n := |widths| - 1;
    if k < n {
      FirstMinIs(widths[..n], k);
    }
  }

  /** `span.hi - span.lo` in 32 bits. */
  function Width(s: Span): (w: nat)
    ensures w < 0x1_0000_0000 && (s.lo + w) % 0x1_0000_0000 == s.hi
  {
    if s.lo <= s.hi then s.hi - s.lo else 0x1_0000_0000 + s.hi - s.lo
  }

  predicate Encloses(outer: Span, inner: Span) { outer.lo <= inner.lo && inner.hi <= outer.hi }

  // ---------------------------------------------------------------- roots

  function OrdinaryRoot(src: Source, d: Decl): Decl { if d in src.roots then src.roots[d] else d }

  predicate IsLocalClass(src: Source, d: Decl) { d in src.headers && src.headers[d].localClass }

  predicate Orphaned(src: Source, root: Decl)
  {
    && root in src.anchors && src.anchors[root].kind.Classifier? && src.anchors[root].owner.None?
    && IsLocalClass(src, root)
  }

  function OwnerWidth(src: Source, root: Decl, candidate: Decl): Option<nat>
    requires root in src.spans
  {
    if candidate != root && candidate in src.spans && Encloses(src.spans[candidate], src.spans[root])
       && src.spans[candidate] != src.spans[root]
    then Some(Width(src.spans[candidate]))
    else None
  }

  function OwnerWidths(src: Source, root: Decl, work: seq<Work>): (r: seq<Option<nat>>)
    requires root in src.spans
    ensures |r| == |work| && forall i :: 0 <= i < |r| ==> r[i] == OwnerWidth(src, root, work[i].declaration)
  {
    seq(|work|, i requires 0 <= i < |work| => OwnerWidth(src, root, work[i].declaration))
  }

  /** The root a unit is checked under: a local classifier without an owner joins the innermost piece of
      work around it. */
  function RootOf(src: Source, work: seq<Work>, d: Decl): Decl
  {
    var root := OrdinaryRoot(src, d);
    if Orphaned(src, root) && root in src.spans then
      var owner := FirstMin(OwnerWidths(src, root, work));
      if owner.Some? then OrdinaryRoot(src, work[owner.value].declaration) else root
    else root
  }

  /** An orphaned local classifier joins the root of the innermost piece of work around it, the earliest of
      equals; only with none around it does it stay its own root. */
  lemma OrphanJoinsInnermost(src: Source, work: seq<Work>, d: Decl)
    requires var root := OrdinaryRoot(src, d); Orphaned(src, root) && root in src.spans
    ensures var root := OrdinaryRoot(src, d);
      if forall k :: 0 <= k < |work| ==>
        OwnerWidth(src, root, work[k].declaration).None? then RootOf(src, work, d) == root
      else exists k: nat :: Owns(src, root, work, k) && RootOf(src, work, d) == OrdinaryRoot(src, work[k].declaration)
  {
    var root := OrdinaryRoot(src, d);
    var widths := OwnerWidths(src, root, work);
    forall k | 0 <= k < |work| && widths[k].Some?
      ensures FirstMin(widths).Some? && widths[FirstMin(widths).value].value <= widths[k].value
      ensures k < FirstMin(widths).value ==> widths[FirstMin(widths).value].value < widths[k].value
    {
      FirstMinIs(widths, k);
    }
    if FirstMin(widths).Some? {
      assert Owns(src, root, work, FirstMin(widths).value);
    }
  }

  ghost predicate Owns(src: Source, root: Decl, work: seq<Work>, k: nat)
    requires root in src.spans
  {
    && k < |work| && OwnerWidth(src, root, work[k].declaration).Some?
    && forall j :: 0 <= j < |work| && OwnerWidth(src, root, work[j].declaration).Some? ==>
         && OwnerWidth(src, root, work[k].declaration).value <= OwnerWidth(src, root, work[j].declaration).value
         && (j < k ==>
           OwnerWidth(src, root, work[k].declaration).value < OwnerWidth(src, root, work[j].declaration).value)
  }

  // ---------------------------------------------------------------- grouping

  predicate HasRoot(groups: seq<Group>, root: Decl) { exists g <- groups :: g.root == root }

  function PositionOf(groups: seq<Group>, root: Decl): (r: nat)
    requires HasRoot(groups, root)
    ensures r < |groups| && groups[r].root == root && forall i :: 0 <= i < r ==> groups[i].root != root
  {
    if groups[0].root == root then 0
    else
      assert groups == [groups[0]] + groups[1..];
      PositionOf(groups[1..], root) + 1
  }

  function Opened(groups: seq<Group>, root: Decl): (r: seq<Group>)
    ensures HasRoot(r, root)
  {
    if HasRoot(groups, root) then groups
    else
      var g := Group(root, {}, [], []);
      assert g in groups + [g];
      groups + [g]
  }

  function Placed(g: Group, unit: Work): Group { g.(bodies := g.bodies + {unit.declaration}, work := g.work + [unit]) }

  function AddWork(groups: seq<Group>, root: Decl, unit: Work): seq<Group>
  {
    var open := Opened(groups, root);
    open[PositionOf(open, root) := Placed(open[PositionOf(open, root)], unit)]
  }

  function GroupWork(rooted: seq<(Decl, Work)>): seq<Group>
  {
    if rooted == [] then []
    else AddWork(GroupWork(rooted[..|rooted| - 1]), rooted[|rooted| - 1].0, rooted[|rooted| - 1].1)
  }

  method BodyCheckGroups(rooted: seq<(Decl, Work)>) returns (groups: seq<Group>)
    ensures groups == GroupWork(rooted)
  {
    groups := [];
    for i := 0 to |rooted|
      invariant groups == GroupWork(rooted[..i])
    {
      assert rooted[..i + 1][..i] == rooted[..i];
      var (root, unit) := rooted[i];
      if !HasRoot(groups, root) {
        groups := groups + [Group(root, {}, [], [])];
      }
      assert groups == Opened(GroupWork(rooted[..i]), root);
      var position := PositionOf(groups, root);
      groups := groups[position := Placed(groups[position], unit)];
    }
    assert rooted[..|rooted|] == rooted;
  }

  function Rooted(src: Source, work: seq<Work>): (r: seq<(Decl, Work)>)
    ensures |r| == |work| && forall i :: 0 <= i < |r| ==> r[i] == (RootOf(src, work, work[i].declaration), work[i])
  {
    seq(|work|, i requires 0 <= i < |work| => (RootOf(src, work, work[i].declaration), work[i]))
  }

  // ---------------------------------------------------------------- declarations without a body

  /** Declarations whose header metadata needs a semantic group: classifiers, and properties and functions at
      the top level. */
  predicate Eligible(src: Source, d: Decl)
  {
    && d in src.headers
    && match src.headers[d].kind
       case Classifier => true
       case Property => d in src.anchors && src.anchors[d].owner.None?
       case Function => d in src.anchors && src.anchors[d].owner.None?
       case OtherKind => false
  }

  function GroupWidth(src: Source, inner: Span, g: Group): Option<nat>
  {
    if g.work != [] && g.root in src.spans && Encloses(src.spans[g.root], inner) then Some(Width(src.spans[g.root]))
    else None
  }

  function GroupWidths(src: Source, inner: Span, groups: seq<Group>): (r: seq<Option<nat>>)
    ensures |r| == |groups| && forall i :: 0 <= i < |r| ==> r[i] == GroupWidth(src, inner, groups[i])
  {
    seq(|groups|, i requires 0 <= i < |groups| => GroupWidth(src, inner, groups[i]))
  }

  function EnclosingGroup(src: Source, groups: seq<Group>, d: Decl): (r: Option<nat>)
    ensures r.Some? ==> r.value < |groups|
  {
    if IsLocalClass(src, d) && d in src.spans then FirstMin(GroupWidths(src, src.spans[d], groups)) else None
  }

  function AddDeclaration(src: Source, groups: seq<Group>, d: Decl): seq<Group>
  {
    if !Eligible(src, d) || HasRoot(groups, d) then groups
    else
      var enclosing := EnclosingGroup(src, groups, d);
      if enclosing.Some? then
        groups[enclosing.value := groups[enclosing.value].(locals := groups[enclosing.value].locals + [d])]
      else groups + [Group(d, {}, [], [])]
  }

  function AddDeclarations(src: Source, groups: seq<Group>, stable: seq<Decl>): seq<Group>
  {
    if stable == [] then groups
    else AddDeclaration(src, AddDeclarations(src, groups, stable[..|stable| - 1]), stable[|stable| - 1])
  }

  function Groups(src: Source, work: seq<Work>): seq<Group>
  {
    var ordered := Sort(WorkOrder(src), work);
    Sort(GroupOrder(src), AddDeclarations(src, GroupWork(Rooted(src, ordered)), src.stable))
  }

  method RootWork(src: Source, ordered: seq<Work>) returns (rooted: seq<(Decl, Work)>)
    ensures rooted == Rooted(src, ordered)
  {
    rooted := [];
    for i := 0 to |ordered|
      invariant rooted == Rooted(src, ordered)[..i]
    {
      var root := OrdinaryRoot(src, ordered[i].declaration);
      if Orphaned(src, root) && root in src.spans {
        var owner := FirstMin(OwnerWidths(src, root, ordered));
        if owner.Some? {
          root := OrdinaryRoot(src, ordered[owner.value].declaration);
        }
      }
      assert root == RootOf(src, ordered, ordered[i].declaration);
      rooted := rooted + [(root, ordered[i])];
    }
  }

  method AddMetadata(src: Source, base: seq<Group>) returns (groups: seq<Group>)
    ensures groups == AddDeclarations(src, base, src.stable)
  {
    groups := base;
    for i := 0 to |src.stable|
      invariant groups == AddDeclarations(src, base, src.stable[..i])
    {
      var d := src.stable[i];
      assert src.stable[..i + 1][..i] == src.stable[..i];
      if !Eligible(src, d) || HasRoot(groups, d) {
        continue;
      }
      var enclosing := EnclosingGroup(src, groups, d);
      if enclosing.Some? {
        var position := enclosing.value;
        groups := groups[position := groups[position].(locals := groups[position].locals + [d])];
        continue;
      }
      groups := groups + [Group(d, {}, [], [])];
    }
    assert src.stable[..|src.stable|] == src.stable;
  }

  method ActiveBodyCheckGroups(src: Source, work: seq<Work>) returns (groups: seq<Group>)
    ensures groups == Groups(src, work)
  {
    var rooted := RootWork(src, Sort(WorkOrder(src), work));
    groups := BodyCheckGroups(rooted);
    groups := AddMetadata(src, groups);
    groups := Sort(GroupOrder(src), groups);
  }

  // ---------------------------------------------------------------- totals over groups

  function WorkOf(g: Group): multiset<Work> { multiset(g.work) }

  function LocalsOf(g: Group): multiset<Decl> { multiset(g.locals) }

  function Total<T(!new)>(part: Group -> multiset<T>, groups: seq<Group>): multiset<T>
  {
    if groups == [] then multiset{} else Total(part, groups[..|groups| - 1]) + part(groups[|groups| - 1])
  }

  lemma TotalPush<T(!new)>(part: Group -> multiset<T>, groups: seq<Group>, g: Group)
    ensures Total(part, groups + [g]) == Total(part, groups) + part(g)
  {
    assert (groups + [g])[..|groups|] == groups;
  }

  /** Giving one group something more. */
  lemma {:induction false} TotalAdd<T(!new)>(
      part: Group -> multiset<T>, groups: seq<Group>, i: nat, g: Group, extra: multiset<T>)
    requires i < |groups| && part(g) == part(groups[i]) + extra
    ensures Total(part, groups[i := g]) == Total(part, groups) + extra
  {
    var n := |groups| - 1;
    var r := groups[i := g];
    if i < n {
      assert groups[..n][i] == groups[i];
      TotalAdd(part, groups[..n], i, g, extra);
      assert r[..n] == groups[..n][i := g] && r[n] == groups[n];
      assert Total(part, r) == Total(part, groups[..n]) + extra + part(groups[n]);
    } else {
      assert r[..n] == groups[..n];
      assert Total(part, r) == Total(part, groups[..n]) + (part(groups[n]) + extra);
    }
  }

  lemma {:induction false} TotalInsert<T(!new)>(
      part: Group -> multiset<T>, le: (Group, Group) -> bool, groups: seq<Group>, g: Group)
    ensures Total(part, Insert(le, groups, g)) == Total(part, groups) + part(g)
  {
    if groups == [] || le(groups[|groups| - 1], g) {
      TotalPush(part, groups, g);
    } else {
      var n := |groups| - 1;
      TotalInsert(part, le, groups[..n], g);
      TotalPush(part, Insert(le, groups[..n], g), groups[n]);
    }
  }

  lemma {:induction false} TotalSort<T(!new)>(
      part: Group -> multiset<T>, le: (Group, Group) -> bool, groups: seq<Group>)
    ensures Total(part, Sort(le, groups)) == Total(part, groups)
  {
    if groups != [] {
      var n := |groups| - 1;
      TotalSort(part, le, groups[..n]);
      TotalInsert(part, le, Sort(le, groups[..n]), groups[n]);
    }
  }

  // ---------------------------------------------------------------- one group per root

  ghost predicate DistinctRoots(groups: seq<Group>)
  {
    forall i, j :: 0 <= i < j < |groups| ==> groups[i].root != groups[j].root
  }

  /** The units with that root, in order. */
  function Selected(rooted: seq<(Decl, Work)>, root: Decl): seq<Work>
  {
    if rooted == [] then []
    else
      var (r, unit) := rooted[|rooted| - 1];
      Selected(rooted[..|rooted| - 1], root) + if r == root then [unit] else []
  }

  function Declarations(work: seq<Work>): set<Decl> { set unit <- work :: unit.declaration }

  /** A group holds exactly the work of its root. */
  ghost predicate Holds(rooted: seq<(Decl, Work)>, g: Group)
  {
    g.work == Selected(rooted, g.root) && g.bodies == Declarations(g.work)
  }

  lemma DeclarationsPush(work: seq<Work>, unit: Work)
    ensures Declarations(work + [unit]) == Declarations(work) + {unit.declaration}
  {
    assert forall x :: x in work + [unit] <==> x in work || x == unit;
  }

  lemma OpenedKeeps(rooted: seq<(Decl, Work)>, groups: seq<Group>, root: Decl)
    requires DistinctRoots(groups) && (forall g <- groups :: Holds(rooted, g) && g.locals == [])
    requires forall p <- rooted :: HasRoot(groups, p.0)
    ensures var open := Opened(groups, root);
      && DistinctRoots(open) && (forall g <- open :: Holds(rooted, g) && g.locals == [])
      && (forall d :: HasRoot(open, d) <==> HasRoot(groups, d) || d == root)
  {
    if !HasRoot(groups, root) {
      SelectedNone(rooted, root);
      var g := Group(root, {}, [], []);
      assert forall x :: x in groups + [g] <==> x in groups || x == g;
    }
  }

  lemma {:induction false} SelectedNone(rooted: seq<(Decl, Work)>, root: Decl)
    requires forall p <- rooted :: p.0 != root
    ensures Selected(rooted, root) == []
  {
    if rooted != [] {
      assert rooted[|rooted| - 1] in rooted;
      SelectedNone(rooted[..|rooted| - 1], root);
    }
  }

  ghost predicate Grouped(rooted: seq<(Decl, Work)>, groups: seq<Group>)
  {
    && DistinctRoots(groups)
    && (forall g <- groups :: Holds(rooted, g) && g.locals == [])
    && (forall p <- rooted :: HasRoot(groups, p.0))
  }

  lemma HasRootUpdate(groups: seq<Group>, i: nat, g: Group, d: Decl)
    requires i < |groups| && g.root == groups[i].root
    ensures HasRoot(groups[i := g], d) <==> HasRoot(groups, d)
  {
    if HasRoot(groups, d) {
      var k :| 0 <= k < |groups| && groups[k].root == d;
      assert groups[i := g][k].root == d;
    }
    if HasRoot(groups[i := g], d) {
      var k :| 0 <= k < |groups| && groups[i := g][k].root == d;
      assert groups[k].root == d;
    }
  }

  lemma AddWorkGrouped(rooted: seq<(Decl, Work)>, groups: seq<Group>, root: Decl, unit: Work)
    requires Grouped(rooted, groups)
    ensures Grouped(rooted + [(root, unit)], AddWork(groups, root, unit))
  {
    OpenedKeeps(rooted, groups, root);
    var open := Opened(groups, root);
    var at := PositionOf(open, root);
    var r := AddWork(groups, root, unit);
    var next := rooted + [(root, unit)];
    assert next[..|rooted|] == rooted;
    forall i | 0 <= i < |r| ensures Holds(next, r[i]) && r[i].locals == [] {
      assert open[i] in open;
      if i == at {
        DeclarationsPush(open[i].work, unit);
      } else {
        assert open[i].root != root;
      }
    }
    forall p | p in next ensures HasRoot(r, p.0) {
      assert p in rooted || p == (root, unit);
      HasRootUpdate(open, at, r[at], p.0);
    }
  }

  lemma {:induction false} GroupWorkGrouped(rooted: seq<(Decl, Work)>)
    ensures Grouped(rooted, GroupWork(rooted))
  {
    if rooted != [] {
      var n := |rooted| - 1;
      GroupWorkGrouped(rooted[..n]);
      AddWorkGrouped(rooted[..n], GroupWork(rooted[..n]), rooted[n].0, rooted[n].1);
      assert rooted == rooted[..n] + [(rooted[n].0, rooted[n].1)];
    }
  }

  function UnitsOf(rooted: seq<(Decl, Work)>): (r: seq<Work>)
    ensures |r| == |rooted| && forall i :: 0 <= i < |r| ==> r[i] == rooted[i].1
  {
    if rooted == [] then [] else UnitsOf(rooted[..|rooted| - 1]) + [rooted[|rooted| - 1].1]
  }

  lemma AddWorkConserves(groups: seq<Group>, root: Decl, unit: Work)
    ensures Total(WorkOf, AddWork(groups, root, unit)) == Total(WorkOf, groups) + multiset{unit}
  {
    var open := Opened(groups, root);
    if !HasRoot(groups, root) {
      TotalPush(WorkOf, groups, Group(root, {}, [], []));
    }
    var at := PositionOf(open, root);
    TotalAdd(WorkOf, open, at, Placed(open[at], unit), multiset{unit});
  }

  lemma {:induction false} GroupWorkConserves(rooted: seq<(Decl, Work)>)
    ensures Total(WorkOf, GroupWork(rooted)) == multiset(UnitsOf(rooted))
  {
    if rooted != [] {
      var n := |rooted| - 1;
      GroupWorkConserves(rooted[..n]);
      AddWorkConserves(GroupWork(rooted[..n]), rooted[n].0, rooted[n].1);
    }
  }

  // ---------------------------------------------------------------- one place per declaration

  ghost predicate Ascending(stable: seq<Decl>) { forall i, j :: 0 <= i < j < |stable| ==> stable[i] < stable[j] }

  /** `d` is in one place: the root of a group or a local classifier of one group, never both. */
  ghost predicate OnePlace(groups: seq<Group>, d: Decl)
  {
    Total(LocalsOf, groups)[d] == if HasRoot(groups, d) then 0 else 1
  }

  /** The span of `outer` is around the span of `inner`. */
  ghost predicate Around(src: Source, outer: Decl, inner: Decl)
  {
    && outer in src.spans && inner in src.spans
    && src.spans[outer].lo <= src.spans[inner].lo && src.spans[inner].hi <= src.spans[outer].hi
  }

  /** A local classifier is with the innermost group of work around it. */
  ghost predicate Innermost(src: Source, groups: seq<Group>, g: Group, d: Decl)
  {
    && d in src.headers && src.headers[d].localClass && g.work != [] && Around(src, g.root, d)
    && forall h <- groups :: h.work != [] && Around(src, h.root, d) ==>
         Width(src.spans[g.root]) <= Width(src.spans[h.root])
  }

  /** `groups` still has the working groups of `base` in place, and otherwise only empty ones. */
  ghost predicate Refined(src: Source, base: seq<Group>, groups: seq<Group>)
  {
    && |base| <= |groups|
    && (forall i :: 0 <= i < |base| ==> groups[i] == base[i].(locals := groups[i].locals))
    && (forall i :: |base| <= i < |groups| ==> groups[i].work == [] && groups[i].bodies == {})
  }

  ghost predicate Housed(src: Source, base: seq<Group>, groups: seq<Group>, done: seq<Decl>)
  {
    && Refined(src, base, groups) && DistinctRoots(groups)
    && (forall i :: |base| <= i < |groups| ==> groups[i].root in done)
    && Counted(src, groups, done)
  }

  ghost predicate Counted(src: Source, groups: seq<Group>, done: seq<Decl>)
  {
    && (forall d <- done :: Eligible(src, d) ==> OnePlace(groups, d))
    && (forall d :: d !in done || !Eligible(src, d) ==> Total(LocalsOf, groups)[d] == 0)
  }

  ghost predicate LocalsInnermost(src: Source, base: seq<Group>, groups: seq<Group>)
  {
    forall g <- groups, d <- g.locals :: Innermost(src, base, g, d)
  }

  /** No working group encloses `d`, or `d` is not local: it needs a group of its own. */
  ghost predicate Alone(src: Source, groups: seq<Group>, d: Decl)
  {
    d in src.headers && src.headers[d].localClass ==> forall h <- groups :: h.work != [] ==> !Around(src, h.root, d)
  }

  ghost predicate AllAlone(src: Source, base: seq<Group>, groups: seq<Group>)
  {
    |base| <= |groups| && forall i :: |base| <= i < |groups| ==> Alone(src, base, groups[i].root)
  }

  lemma {:induction false} NoLocals(groups: seq<Group>)
    requires forall g <- groups :: g.locals == []
    ensures Total(LocalsOf, groups) == multiset{}
  {
    if groups != [] {
      NoLocals(groups[..|groups| - 1]);
    }
  }

  /** The counts after declaration `d` found its place. */
  lemma CountsAfter(src: Source, groups: seq<Group>, r: seq<Group>, done: seq<Decl>, d: Decl, joined: bool)
    requires Eligible(src, d) && d !in done && !HasRoot(groups, d)
    requires Counted(src, groups, done)
    requires Total(LocalsOf, r) == Total(LocalsOf, groups) + if joined then multiset{d} else multiset{}
    requires forall x :: HasRoot(r, x) <==> HasRoot(groups, x) || (!joined && x == d)
    ensures Counted(src, r, done + [d])
  {
    assert forall x :: x in done + [d] <==> x in done || x == d;
    assert Total(LocalsOf, groups)[d] == 0;
    forall x ensures Total(LocalsOf, r)[x] == Total(LocalsOf, groups)[x] + if joined && x == d then 1 else 0 {
    }
  }

  /** Giving a declaration a group of its own. */
  lemma OwnGroup(src: Source, base: seq<Group>, groups: seq<Group>, done: seq<Decl>, d: Decl)
    requires Housed(src, base, groups, done) && d !in done && !HasRoot(groups, d) && Eligible(src, d)
    ensures Housed(src, base, groups + [Group(d, {}, [], [])], done + [d])
  {
    var r := groups + [Group(d, {}, [], [])];
    OwnCounted(src, groups, done, d);
    assert forall i :: 0 <= i < |groups| ==> groups[i] in groups;
    assert forall i :: |base| <= i < |r| ==> r[i].root in done + [d];
  }

  lemma OwnCounted(src: Source, groups: seq<Group>, done: seq<Decl>, d: Decl)
    requires Counted(src, groups, done) && d !in done && !HasRoot(groups, d) && Eligible(src, d)
    ensures Counted(src, groups + [Group(d, {}, [], [])], done + [d])
  {
    var g := Group(d, {}, [], []);
    var r := groups + [g];
    TotalPush(LocalsOf, groups, g);
    forall x ensures HasRoot(r, x) <==> HasRoot(groups, x) || x == d {
      assert r[|groups|].root == d;
      assert forall h :: h in r <==> h in groups || h == g;
    }
    CountsAfter(src, groups, r, done, d, false);
  }

  /** Handing a declaration to a working group. */
  lemma JoinGroup(src: Source, base: seq<Group>, groups: seq<Group>, done: seq<Decl>, d: Decl, at: nat)
    requires Housed(src, base, groups, done) && d !in done && !HasRoot(groups, d) && Eligible(src, d)
    requires at < |base|
    ensures Housed(src, base, groups[at := groups[at].(locals := groups[at].locals + [d])], done + [d])
  {
    JoinCounted(src, groups, done, d, at);
  }

  lemma JoinCounted(src: Source, groups: seq<Group>, done: seq<Decl>, d: Decl, at: nat)
    requires Counted(src, groups, done) && d !in done && !HasRoot(groups, d) && Eligible(src, d) && at < |groups|
    ensures Counted(src, groups[at := groups[at].(locals := groups[at].locals + [d])], done + [d])
  {
    var g := groups[at].(locals := groups[at].locals + [d]);
    var r := groups[at := g];
    TotalAdd(LocalsOf, groups, at, g, multiset{d});
    forall x ensures HasRoot(r, x) <==> HasRoot(groups, x) {
      HasRootUpdate(groups, at, g, x);
    }
    CountsAfter(src, groups, r, done, d, true);
  }

  lemma SkipDeclaration(src: Source, base: seq<Group>, groups: seq<Group>, done: seq<Decl>, d: Decl)
    requires Housed(src, base, groups, done) && d !in done && (HasRoot(groups, d) || !Eligible(src, d))
    ensures Housed(src, base, groups, done + [d])
  {
    assert forall x :: x in done + [d] <==> x in done || x == d;
  }

  /** The enclosing group is a working one, and no working group is closer. */
  lemma EnclosingIs(src: Source, base: seq<Group>, groups: seq<Group>, d: Decl)
    requires Refined(src, base, groups) && EnclosingGroup(src, groups, d).Some?
    ensures var at := EnclosingGroup(src, groups, d).value; at < |base| && Innermost(src, base, groups[at], d)
  {
    var at := EnclosingGroup(src, groups, d).value;
    var widths := GroupWidths(src, src.spans[d], groups);
    assert widths[at].Some?;
    forall h | h in base && h.work != [] && Around(src, h.root, d)
      ensures Width(src.spans[groups[at].root]) <= Width(src.spans[h.root])
    {
      var k :| 0 <= k < |base| && base[k] == h;
      assert GroupWidth(src, src.spans[d], groups[k]) == GroupWidth(src, src.spans[d], h);
      FirstMinIs(widths, k);
    }
  }

  lemma NothingEncloses(src: Source, base: seq<Group>, groups: seq<Group>, d: Decl)
    requires Refined(src, base, groups) && EnclosingGroup(src, groups, d).None?
    ensures Alone(src, base, d)
  {
    if IsLocalClass(src, d) && d in src.spans {
      forall h | h in base && h.work != [] ensures !Around(src, h.root, d) {
        var k :| 0 <= k < |base| && base[k] == h;
        assert GroupWidth(src, src.spans[d], groups[k]) == GroupWidth(src, src.spans[d], h);
        if GroupWidth(src, src.spans[d], groups[k]).Some? {
          FirstMinIs(GroupWidths(src, src.spans[d], groups), k);
        }
      }
    }
  }

  ghost predicate Settled(src: Source, base: seq<Group>, groups: seq<Group>, done: seq<Decl>)
  {
    Housed(src, base, groups, done) && LocalsInnermost(src, base, groups) && AllAlone(src, base, groups)
  }

  lemma SettleOne(src: Source, base: seq<Group>, groups: seq<Group>, done: seq<Decl>, d: Decl)
    requires Settled(src, base, groups, done) && d !in done
    ensures Settled(src, base, AddDeclaration(src, groups, d), done + [d])
  {
    if !Eligible(src, d) || HasRoot(groups, d) {
      SkipDeclaration(src, base, groups, done, d);
    } else if EnclosingGroup(src, groups, d).Some? {
      SettleLocal(src, base, groups, done, d);
    } else {
      OwnGroup(src, base, groups, done, d);
      OwnInnermost(src, base, groups, d);
      NothingEncloses(src, base, groups, d);
    }
  }

  lemma SettleLocal(src: Source, base: seq<Group>, groups: seq<Group>, done: seq<Decl>, d: Decl)
    requires Settled(src, base, groups, done) && d !in done
    requires Eligible(src, d) && !HasRoot(groups, d) && EnclosingGroup(src, groups, d).Some?
    ensures Settled(src, base, AddDeclaration(src, groups, d), done + [d])
  {
    var at := EnclosingGroup(src, groups, d).value;
    EnclosingIs(src, base, groups, d);
    JoinGroup(src, base, groups, done, d, at);
    JoinInnermost(src, base, groups, d, at);
  }

  lemma {:induction false} DeclarationsHoused(src: Source, base: seq<Group>, stable: seq<Decl>)
    requires Ascending(stable) && DistinctRoots(base) && forall g <- base :: g.locals == []
    ensures Settled(src, base, AddDeclarations(src, base, stable), stable)
  {
    if stable == [] {
      NoLocals(base);
    } else {
      var n := |stable| - 1;
      DeclarationsHoused(src, base, stable[..n]);
      SettleOne(src, base, AddDeclarations(src, base, stable[..n]), stable[..n], stable[n]);
      assert stable == stable[..n] + [stable[n]];
    }
  }

  lemma JoinInnermost(src: Source, base: seq<Group>, groups: seq<Group>, d: Decl, at: nat)
    requires LocalsInnermost(src, base, groups) && at < |groups| && Innermost(src, base, groups[at], d)
    ensures LocalsInnermost(src, base, groups[at := groups[at].(locals := groups[at].locals + [d])])
  {
    var g := groups[at].(locals := groups[at].locals + [d]);
    var r := groups[at := g];
    forall h, x | h in r && x in h.locals ensures Innermost(src, base, h, x) {
      if h in groups {
      } else {
        assert h == g;
        assert groups[at] in groups;
        assert x in groups[at].locals || x == d;
        assert Innermost(src, base, groups[at], x);
      }
    }
  }

  lemma OwnInnermost(src: Source, base: seq<Group>, groups: seq<Group>, d: Decl)
    requires LocalsInnermost(src, base, groups)
    ensures LocalsInnermost(src, base, groups + [Group(d, {}, [], [])])
  {
    var g := Group(d, {}, [], []);
    assert forall h :: h in groups + [g] <==> h in groups || h == g;
  }

  // ---------------------------------------------------------------- the groups

  lemma OrdersTotal(src: Source)
    ensures TotalPreorder(WorkOrder(src)) && TotalPreorder(GroupOrder(src))
  {
  }

  /** Every piece of work is in one group and no group adds any; there is one group per root; each holds
      the work of its root in lexical order and marks exactly the declarations of that work. */
  lemma WorkPartitioned(src: Source, work: seq<Work>)
    requires Ascending(src.stable)
    ensures var ordered := Sort(WorkOrder(src), work);
      && SortedBy(WorkOrder(src), ordered)
      && Total(WorkOf, Groups(src, work)) == multiset(work)
      && DistinctRoots(Groups(src, work))
      && forall g <- Groups(src, work) :: Holds(Rooted(src, ordered), g)
  {
    OrdersTotal(src);
    SortSorted(WorkOrder(src), work);
    var ordered := Sort(WorkOrder(src), work);
    var rooted := Rooted(src, ordered);
    var base := GroupWork(rooted);
    GroupWorkGrouped(rooted);
    GroupWorkConserves(rooted);
    assert UnitsOf(rooted) == ordered;
    DeclarationsHoused(src, base, src.stable);
    var more := AddDeclarations(src, base, src.stable);
    RefinedKeepsWork(src, base, more);
    RefinedHolds(src, rooted, base, more);
    TotalSort(WorkOf, GroupOrder(src), more);
    SortKeepsRoots(src, more);
  }

  // ---------------------------------------------------------------- where work goes

  /** `a` comes no later than `b` in the source: by where they start, then end, then by identity. What has no
      span comes last. */
  ghost predicate NoLater(src: Source, a: Decl, b: Decl)
  {
    if a in src.spans && b in src.spans then
      var (s, t) := (src.spans[a], src.spans[b]);
      s.lo < t.lo || (s.lo == t.lo && (s.hi < t.hi || (s.hi == t.hi && a <= b)))
    else if a !in src.spans && b !in src.spans then a <= b
    else if b !in src.spans then src.spans[a] == Span(U32_MAX, U32_MAX) ==> a <= b
    else src.spans[b] == Span(U32_MAX, U32_MAX) && a <= b
  }

  lemma KeysInOrder(src: Source, a: Decl, b: Decl)
    ensures KeyLe(KeyOf(src, a), KeyOf(src, b)) <==> NoLater(src, a, b)
  {
  }

  /** A local classifier that the parser hoisted: nothing owns it, but it has a place in the source. */
  ghost predicate Hoisted(src: Source, d: Decl)
  {
    && d in src.anchors && src.anchors[d].kind.Classifier? && src.anchors[d].owner.None?
    && d in src.headers && src.headers[d].localClass && d in src.spans
  }

  /** The work around a hoisted classifier, in a wider span. */
  ghost predicate Hosts(src: Source, d: Decl, unit: Work)
  {
    unit.declaration != d && Around(src, unit.declaration, d) && src.spans[unit.declaration] != src.spans[d]
  }

  /** The narrowest of the work around `d`, and of those the earliest. */
  ghost predicate Host(src: Source, work: seq<Work>, d: Decl, unit: Work)
  {
    && unit in work && Hosts(src, d, unit)
    && forall w <- work :: Hosts(src, d, w) ==>
      var (mine, other) := (Width(src.spans[unit.declaration]), Width(src.spans[w.declaration]));
      mine < other || (mine == other && NoLater(src, unit.declaration, w.declaration))
  }

  /** The group a unit belongs to: that of its own checker root, or of its host's when that root is a hoisted
      local classifier inside other work. */
  ghost predicate Belongs(src: Source, work: seq<Work>, unit: Work, root: Decl)
  {
    var own := OrdinaryRoot(src, unit.declaration);
    if Hoisted(src, own) && exists w <- work :: Hosts(src, own, w) then
      exists host :: Host(src, work, own, host) && root == OrdinaryRoot(src, host.declaration)
    else root == own
  }

  lemma SortedMembers(src: Source, work: seq<Work>)
    ensures var ordered := Sort(WorkOrder(src), work);
      SortedBy(WorkOrder(src), ordered) && forall w :: w in ordered <==> w in work
  {
    OrdersTotal(src);
    var ordered := Sort(WorkOrder(src), work);
    SortSorted(WorkOrder(src), work);
    assert forall w :: w in ordered <==> w in multiset(ordered);
    assert forall w :: w in work <==> w in multiset(work);
  }

  lemma HostAt(src: Source, work: seq<Work>, d: Decl, k: nat)
    requires d in src.spans && Owns(src, d, work, k) && SortedBy(WorkOrder(src), work)
    ensures Host(src, work, d, work[k])
  {
    forall w | w in work && Hosts(src, d, w)
      ensures var (mine, other) := (Width(src.spans[work[k].declaration]), Width(src.spans[w.declaration]));
        mine < other || (mine == other && NoLater(src, work[k].declaration, w.declaration))
    {
      var j :| 0 <= j < |work| && work[j] == w;
      assert OwnerWidth(src, d, work[j].declaration).Some?;
      KeysInOrder(src, work[k].declaration, w.declaration);
      if k < j { assert WorkOrder(src)(work[k], work[j]); }
    }
  }

  lemma RootBelongs(src: Source, work: seq<Work>, ordered: seq<Work>, unit: Work)
    requires SortedBy(WorkOrder(src), ordered) && forall w :: w in ordered <==> w in work
    ensures Belongs(src, work, unit, RootOf(src, ordered, unit.declaration))
  {
    var own := OrdinaryRoot(src, unit.declaration);
    if Hoisted(src, own) {
      OrphanJoinsInnermost(src, ordered, unit.declaration);
      var root := RootOf(src, ordered, unit.declaration);
      if k: nat :| Owns(src, own, ordered, k) && root == OrdinaryRoot(src, ordered[k].declaration) {
        HostAt(src, ordered, own, k);
        assert ordered[k] in work && Hosts(src, own, ordered[k]);
        assert Host(src, work, own, ordered[k]);
      } else {
        forall w | w in work ensures !Hosts(src, own, w) {
          var j :| 0 <= j < |ordered| && ordered[j] == w;
        }
      }
    }
  }

  lemma {:induction false} SelectedIs(rooted: seq<(Decl, Work)>, root: Decl, unit: Work)
    ensures unit in Selected(rooted, root) <==> (root, unit) in rooted
  {
    if rooted != [] {
      var rest, last := rooted[..|rooted| - 1], rooted[|rooted| - 1];
      SelectedIs(rest, root, unit);
      assert forall x :: x in rooted <==> x in rest || x == last;
      assert Selected(rooted, root) == Selected(rest, root) + if last.0 == root then [last.1] else [];
    }
  }

  /** Every root has a group in the end. */
  lemma RootsKept(src: Source, rooted: seq<(Decl, Work)>, base: seq<Group>, groups: seq<Group>, sorted: seq<Group>)
    requires Grouped(rooted, base) && Refined(src, base, groups) && forall g :: g in sorted <==> g in groups
    ensures forall p <- rooted :: HasRoot(sorted, p.0)
  {
    forall p | p in rooted ensures HasRoot(sorted, p.0) {
      assert HasRoot(base, p.0);
      var k :| 0 <= k < |base| && base[k].root == p.0;
      assert groups[k] in groups && groups[k] in sorted;
    }
  }

  lemma RootsGrouped(src: Source, work: seq<Work>)
    requires Ascending(src.stable)
    ensures forall p <- Rooted(src, Sort(WorkOrder(src), work)) :: HasRoot(Groups(src, work), p.0)
  {
    var rooted := Rooted(src, Sort(WorkOrder(src), work));
    var base := GroupWork(rooted);
    GroupWorkGrouped(rooted);
    DeclarationsHoused(src, base, src.stable);
    var more := AddDeclarations(src, base, src.stable);
    SortKeepsRoots(src, more);
    RootsKept(src, rooted, base, more, Groups(src, work));
  }

  /** Each unit is in the group it belongs to and in no other. */
  lemma WorkPlaced(src: Source, work: seq<Work>, unit: Work)
    requires Ascending(src.stable) && unit in work
    ensures exists g <- Groups(src, work) :: unit in g.work
    ensures forall g <- Groups(src, work) :: unit in g.work ==> Belongs(src, work, unit, g.root)
  {
    WorkPartitioned(src, work);
    RootsGrouped(src, work);
    UnitRooted(src, work, unit);
    var root := RootOf(src, Sort(WorkOrder(src), work), unit.declaration);
    var g :| g in Groups(src, work) && g.root == root;
  }

  /** A unit is selected for one root, the one it belongs to. */
  lemma UnitRooted(src: Source, work: seq<Work>, unit: Work)
    requires unit in work
    ensures var rooted := Rooted(src, Sort(WorkOrder(src), work));
      var own := RootOf(src, Sort(WorkOrder(src), work), unit.declaration);
      && (own, unit) in rooted && Belongs(src, work, unit, own)
      && forall root :: unit in Selected(rooted, root) <==> root == own
  {
    var ordered := Sort(WorkOrder(src), work);
    var rooted := Rooted(src, ordered);
    SortedMembers(src, work);
    RootBelongs(src, work, ordered, unit);
    var i :| 0 <= i < |ordered| && ordered[i] == unit;
    assert rooted[i] in rooted;
    forall root ensures unit in Selected(rooted, root) <==> root == RootOf(src, ordered, unit.declaration) {
      SelectedIs(rooted, root, unit);
    }
  }

  // ---------------------------------------------------------------- the order of work and groups

  /** The units of one declaration, as they come. */
  function UnitsAt(work: seq<Work>, d: Decl): seq<Work>
  {
    if work == [] then []
    else
      var last := work[|work| - 1];
      UnitsAt(work[..|work| - 1], d) + if last.declaration == d then [last] else []
  }

  lemma {:induction false} UnitsAlike(src: Source, work: seq<Work>, x: Work)
    ensures UnitsAt(work, x.declaration) == Alike(WorkOrder(src), work, x)
  {
    if work != [] {
      UnitsAlike(src, work[..|work| - 1], x);
      KeysInOrder(src, work[|work| - 1].declaration, x.declaration);
      KeysInOrder(src, x.declaration, work[|work| - 1].declaration);
    }
  }

  /** The units of one declaration stay in the order given. */
  lemma UnitsSorted(src: Source, work: seq<Work>, d: Decl)
    ensures UnitsAt(Sort(WorkOrder(src), work), d) == UnitsAt(work, d)
  {
    var x := Work(d, 0);
    OrdersTotal(src);
    UnitsAlike(src, work, x);
    UnitsAlike(src, Sort(WorkOrder(src), work), x);
    SortStable(WorkOrder(src), work, x);
  }

  lemma {:induction false} SelectedUnits(rooted: seq<(Decl, Work)>, root: Decl, d: Decl)
    requires forall p <- rooted :: p.1.declaration == d ==> p.0 == root
    ensures UnitsAt(Selected(rooted, root), d) == UnitsAt(UnitsOf(rooted), d)
  {
    if rooted != [] {
      var rest, last := rooted[..|rooted| - 1], rooted[|rooted| - 1];
      assert last in rooted && forall p <- rest :: p in rooted;
      SelectedUnits(rest, root, d);
      var before := Selected(rest, root);
      assert UnitsOf(rooted)[..|rest|] == UnitsOf(rest);
      assert (before + [last.1])[..|before|] == before && before + [] == before;
    }
  }

  ghost predicate InSourceOrder(src: Source, work: seq<Work>)
  {
    forall i, j :: 0 <= i < j < |work| ==> NoLater(src, work[i].declaration, work[j].declaration)
  }

  lemma {:induction false} SelectedInOrder(src: Source, rooted: seq<(Decl, Work)>, root: Decl)
    requires InSourceOrder(src, UnitsOf(rooted))
    ensures InSourceOrder(src, Selected(rooted, root))
  {
    if rooted != [] {
      var n := |rooted| - 1;
      var units := UnitsOf(rooted);
      assert UnitsOf(rooted[..n]) == units[..n];
      SelectedInOrder(src, rooted[..n], root);
      forall i | 0 <= i < |Selected(rooted[..n], root)|
        ensures NoLater(src, Selected(rooted[..n], root)[i].declaration, rooted[n].1.declaration)
      {
        SelectedIs(rooted[..n], root, Selected(rooted[..n], root)[i]);
        var k :| 0 <= k < n && rooted[k] == (root, Selected(rooted[..n], root)[i]);
        assert units[k] == rooted[k].1 && units[n] == rooted[n].1;
      }
    }
  }

  /** A group checks its work in source order, each declaration's units in the order given; the groups come in
      the source order of their roots. */
  lemma WorkOrdered(src: Source, work: seq<Work>)
    requires Ascending(src.stable)
    ensures var groups := Groups(src, work);
      && (forall i, j :: 0 <= i < j < |groups| ==> NoLater(src, groups[i].root, groups[j].root))
      && (forall g <- groups :: InSourceOrder(src, g.work))
      && (forall g <- groups, d <- g.bodies :: UnitsAt(g.work, d) == UnitsAt(work, d))
  {
    var groups := Groups(src, work);
    var ordered := Sort(WorkOrder(src), work);
    WorkPartitioned(src, work);
    MetadataPartitioned(src, work);
    forall i, j | 0 <= i < j < |groups| ensures NoLater(src, groups[i].root, groups[j].root) {
      assert GroupOrder(src)(groups[i], groups[j]);
      KeysInOrder(src, groups[i].root, groups[j].root);
    }
    SortedInOrder(src, ordered);
    forall g | g in groups
      ensures InSourceOrder(src, g.work) && forall d <- g.bodies :: UnitsAt(g.work, d) == UnitsAt(work, d)
    {
      HeldInOrder(src, work, g);
    }
  }

  lemma SortedInOrder(src: Source, ordered: seq<Work>)
    requires SortedBy(WorkOrder(src), ordered)
    ensures InSourceOrder(src, ordered)
  {
    forall i, j | 0 <= i < j < |ordered| ensures NoLater(src, ordered[i].declaration, ordered[j].declaration) {
      assert WorkOrder(src)(ordered[i], ordered[j]);
      KeysInOrder(src, ordered[i].declaration, ordered[j].declaration);
    }
  }

  lemma HeldInOrder(src: Source, work: seq<Work>, g: Group)
    requires Holds(Rooted(src, Sort(WorkOrder(src), work)), g) && InSourceOrder(src, Sort(WorkOrder(src), work))
    ensures InSourceOrder(src, g.work) && forall d <- g.bodies :: UnitsAt(g.work, d) == UnitsAt(work, d)
  {
    var rooted := Rooted(src, Sort(WorkOrder(src), work));
    assert UnitsOf(rooted) == Sort(WorkOrder(src), work);
    SelectedInOrder(src, rooted, g.root);
    forall d | d in g.bodies ensures UnitsAt(g.work, d) == UnitsAt(work, d) {
      var unit :| unit in g.work && unit.declaration == d;
      SelectedIs(rooted, g.root, unit);
      SelectedUnits(rooted, g.root, d);
      UnitsSorted(src, work, d);
    }
  }

  // ---------------------------------------------------------------- totals of the groups

  lemma RefinedKeepsWork(src: Source, base: seq<Group>, groups: seq<Group>)
    requires Refined(src, base, groups)
    ensures Total(WorkOf, groups) == Total(WorkOf, base)
  {
    SameTotal(base, groups[..|base|]);
    EmptyTail(groups, |base|);
  }

  lemma {:induction false} SameTotal(a: seq<Group>, b: seq<Group>)
    requires |a| == |b| && forall i :: 0 <= i < |a| ==> a[i].work == b[i].work
    ensures Total(WorkOf, a) == Total(WorkOf, b)
  {
    if a != [] {
      SameTotal(a[..|a| - 1], b[..|a| - 1]);
    }
  }

  lemma {:induction false} EmptyTail(groups: seq<Group>, n: nat)
    requires n <= |groups| && forall i :: n <= i < |groups| ==> groups[i].work == []
    ensures Total(WorkOf, groups) == Total(WorkOf, groups[..n])
    decreases |groups|
  {
    if n < |groups| {
      EmptyTail(groups[..|groups| - 1], n);
      assert groups[..|groups| - 1][..n] == groups[..n];
    } else {
      assert groups[..n] == groups;
    }
  }

  /** A group without work has a root that no unit has. */
  lemma RefinedHolds(src: Source, rooted: seq<(Decl, Work)>, base: seq<Group>, groups: seq<Group>)
    requires Grouped(rooted, base) && Refined(src, base, groups) && DistinctRoots(groups)
    ensures forall g <- groups :: Holds(rooted, g)
  {
    forall i | 0 <= i < |groups| ensures Holds(rooted, groups[i]) {
      if i < |base| {
        assert base[i] in base;
      } else {
        forall p | p in rooted ensures p.0 != groups[i].root {
          assert HasRoot(base, p.0);
          var k :| 0 <= k < |base| && base[k].root == p.0;
          assert groups[k].root == p.0;
        }
        SelectedNone(rooted, groups[i].root);
      }
    }
  }

  lemma MembersOf(a: seq<Group>, b: seq<Group>)
    requires multiset(a) == multiset(b)
    ensures forall g :: g in a <==> g in b
  {
    assert forall g :: g in a <==> g in multiset(a);
    assert forall g :: g in b <==> g in multiset(b);
  }

  lemma {:induction false} InsertKeepsRoots(le: (Group, Group) -> bool, groups: seq<Group>, g: Group)
    requires DistinctRoots(groups) && !HasRoot(groups, g.root)
    ensures DistinctRoots(Insert(le, groups, g))
  {
    var n := |groups| - 1;
    if groups != [] && !le(groups[n], g) {
      InsertKeepsRoots(le, groups[..n], g);
      var r := Insert(le, groups[..n], g);
      forall i | 0 <= i < |r| ensures r[i].root != groups[n].root {
        assert r[i] in multiset(r);
        assert r[i] in groups[..n] || r[i] == g;
      }
    } else {
      assert forall i :: 0 <= i < |groups| ==> groups[i] in groups;
    }
  }

  lemma {:induction false} SortKeepsRootsBy(le: (Group, Group) -> bool, groups: seq<Group>)
    requires DistinctRoots(groups)
    ensures DistinctRoots(Sort(le, groups))
  {
    if groups != [] {
      var n := |groups| - 1;
      SortKeepsRootsBy(le, groups[..n]);
      MembersOf(Sort(le, groups[..n]), groups[..n]);
      InsertKeepsRoots(le, Sort(le, groups[..n]), groups[n]);
    }
  }

  lemma SortKeepsRoots(src: Source, groups: seq<Group>)
    requires DistinctRoots(groups)
    ensures DistinctRoots(Sort(GroupOrder(src), groups))
    ensures forall g :: g in Sort(GroupOrder(src), groups) <==> g in groups
  {
    SortKeepsRootsBy(GroupOrder(src), groups);
    MembersOf(Sort(GroupOrder(src), groups), groups);
  }

  /** Header metadata of `d` is consumed with some group: it is a classifier, or a top-level property or
      function. */
  ghost predicate HandedOff(src: Source, d: Decl)
  {
    && d in src.headers && !src.headers[d].kind.OtherKind?
    && (src.headers[d].kind.Classifier? || (d in src.anchors && src.anchors[d].owner.None?))
  }

  /** Every declaration with metadata to hand off is in one place, and no other is; a local classifier is
      with the innermost working group around it, and an empty group stands only for a declaration that no
      working group could take; the groups come in lexical order. */
  lemma MetadataPartitioned(src: Source, work: seq<Work>)
    requires Ascending(src.stable)
    ensures var groups := Groups(src, work);
      && SortedBy(GroupOrder(src), groups)
      && (forall d <- src.stable :: HandedOff(src, d) ==> OnePlace(groups, d))
      && (forall d :: d !in src.stable || !HandedOff(src, d) ==> Total(LocalsOf, groups)[d] == 0)
      && (forall g <- groups :: g.work == [] ==> g.root in src.stable && Alone(src, groups, g.root))
      && (forall g <- groups, d <- g.locals :: Innermost(src, groups, g, d))
      && (forall g <- groups :: Ascending(g.locals))
  {
    OrdersTotal(src);
    var rooted := Rooted(src, Sort(WorkOrder(src), work));
    var base := GroupWork(rooted);
    GroupWorkGrouped(rooted);
    DeclarationsHoused(src, base, src.stable);
    var more := AddDeclarations(src, base, src.stable);
    SortSorted(GroupOrder(src), more);
    SortKeepsRoots(src, more);
    LocalsAscend(src, base, src.stable);
    TotalSort(LocalsOf, GroupOrder(src), more);
    WorkingHasWork(rooted, base);
    InnermostAgain(src, base, more);
    AloneAgain(src, base, more);
  }

  /** A group takes local classifiers in the order of their identities. */
  lemma {:induction false} LocalsAscend(src: Source, base: seq<Group>, stable: seq<Decl>)
    requires Ascending(stable) && forall g <- base :: g.locals == []
    ensures forall g <- AddDeclarations(src, base, stable) :: Ascending(g.locals) && forall d <- g.locals :: d in stable
  {
    if stable != [] {
      var n := |stable| - 1;
      var before, d := AddDeclarations(src, base, stable[..n]), stable[n];
      LocalsAscend(src, base, stable[..n]);
      forall g | g in AddDeclaration(src, before, d)
        ensures Ascending(g.locals) && forall x <- g.locals :: x in stable
      {
        if g !in before && g != Group(d, {}, [], []) {
          var at := EnclosingGroup(src, before, d).value;
          assert before[at] in before && g.locals == before[at].locals + [d];
          var locals := before[at].locals;
          forall i | 0 <= i < |locals| ensures locals[i] < d {
            assert locals[i] in stable[..n];
            var k :| 0 <= k < n && stable[k] == locals[i];
          }
        }
      }
    }
  }

  lemma AloneAgain(src: Source, base: seq<Group>, groups: seq<Group>)
    requires Refined(src, base, groups) && AllAlone(src, base, groups) && forall g <- base :: g.work != []
    ensures forall g <- groups :: g.work == [] ==> Alone(src, groups, g.root)
  {
    assert forall i :: 0 <= i < |base| ==> base[i] in base;
    forall g | g in groups && g.work == [] ensures Alone(src, groups, g.root) {
      var k :| 0 <= k < |groups| && groups[k] == g;
      assert k >= |base|;
      assert Alone(src, base, g.root);
      if IsLocalClass(src, g.root) {
        forall h | h in groups && h.work != [] ensures !Around(src, h.root, g.root) {
          var j :| 0 <= j < |groups| && groups[j] == h;
          assert base[j] in base && base[j].root == h.root;
        }
      }
    }
  }

  /** Every group that grouping opens has work. */
  lemma {:induction false} WorkingHasWork(rooted: seq<(Decl, Work)>, groups: seq<Group>)
    requires groups == GroupWork(rooted)
    ensures forall g <- groups :: g.work != []
  {
    if rooted != [] {
      var n := |rooted| - 1;
      var before := GroupWork(rooted[..n]);
      WorkingHasWork(rooted[..n], before);
      var open := Opened(before, rooted[n].0);
      forall i | 0 <= i < |groups| ensures groups[i].work != [] {
        if i != PositionOf(open, rooted[n].0) && i < |before| {
          assert before[i] in before;
        }
      }
    }
  }

  lemma InnermostAgain(src: Source, base: seq<Group>, groups: seq<Group>)
    requires Refined(src, base, groups) && LocalsInnermost(src, base, groups)
    ensures LocalsInnermost(src, groups, groups)
  {
    forall g, d | g in groups && d in g.locals ensures Innermost(src, groups, g, d) {
      assert Innermost(src, base, g, d);
      forall h | h in groups && h.work != [] && Around(src, h.root, d)
        ensures Width(src.spans[g.root]) <= Width(src.spans[h.root])
      {
        var k :| 0 <= k < |groups| && groups[k] == h;
        assert k < |base| && base[k] in base;
      }
    }
  }
}
