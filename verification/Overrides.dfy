/** Inheritance of default arguments along override edges, in rounds, as a breadth-first least fixpoint
    (`inherit_override_default_work`, src/frontend.rs:660-771). */
module Overrides {
  import opened Options
  import opened Sorting
  import opened Defaults

  /** One override edge: the overriding callable's declaration and the overridden one's, where the
      module resolves them. */
  datatype Edge = Edge(target: Option<Decl>, overridden: Option<Decl>)

  /** The items of `work` that supply `t`, in order. */
  function ItemsOf(work: seq<Item>, t: Decl): (r: seq<Item>)
    ensures forall i :: i in r <==> i in work && i.target == t
  {
    if work == [] then []
    else
      var last := work[|work| - 1];
      assert work == work[..|work| - 1] + [last];
      ItemsOf(work[..|work| - 1], t) + (if last.target == t then [last] else [])
  }

  /** The same expressions, supplied to `t`. */
  function Retarget(items: seq<Item>, t: Decl): (r: seq<Item>)
    ensures |r| == |items| && forall j :: 0 <= j < |r| ==>
      r[j] == Item(t, items[j].provider, InheritedOverride, items[j].mask)
  {
    seq(|items|, j requires 0 <= j < |items| => Item(t, items[j].provider, InheritedOverride, items[j].mask))
  }

  function Union(items: seq<Item>, n: nat): (r: seq<bool>)
    requires forall i <- items :: |i.mask| == n
    ensures |r| == n && forall k :: 0 <= k < n ==> (r[k] <==> exists i <- items :: i.mask[k])
  {
    if items == [] then seq(n, _ => false)
    else
      var last := items[|items| - 1];
      assert items == items[..|items| - 1] + [last];
      Or(Union(items[..|items| - 1], n), last.mask)
  }

  /** Whether a round lets `e` pass its overridden side's defaults on, given the work the round began
      with and what it has added so far. */
  predicate Passes(masks: Masks, work: seq<Item>, added: seq<Item>, e: Edge)
  {
    && e.target.Some? && ItemsOf(work, e.target.value) == [] && ItemsOf(added, e.target.value) == []
    && e.overridden.Some? && ItemsOf(work, e.overridden.value) != []
    && e.target.value in masks
    && (forall i <- ItemsOf(work, e.overridden.value) :: |i.mask| == |masks[e.target.value]|)
    && true in Union(ItemsOf(work, e.overridden.value), |masks[e.target.value]|)
  }

  function RoundStep(masks: Masks, work: seq<Item>, added: seq<Item>, e: Edge): (Masks, seq<Item>)
  {
    if !Passes(masks, work, added, e) then (masks, added)
    else
      var t, items := e.target.value, ItemsOf(work, e.overridden.value);
      (masks[t := Or(masks[t], Union(items, |masks[t]|))], added + Retarget(items, t))
  }

  /** One round: the headers and the additions after every edge. */
  function Round(masks: Masks, work: seq<Item>, edges: seq<Edge>): (Masks, seq<Item>)
  {
    if edges == [] then (masks, [])
    else
      var (before, added) := Round(masks, work, edges[..|edges| - 1]);
      RoundStep(before, work, added, edges[|edges| - 1])
  }

  // ---------------------------------------------------------------- override chains

  /** `e` leads from `t` to `o`, two callables of one arity. */
  predicate Leads(shape: Masks, e: Edge, t: Decl, o: Decl)
  {
    e == Edge(Some(t), Some(o)) && t in shape && o in shape && |shape[t]| == |shape[o]|
  }

  ghost predicate Link(shape: Masks, edges: seq<Edge>, t: Decl, o: Decl)
  {
    exists e <- edges :: Leads(shape, e, t, o)
  }

  ghost predicate Chain(shape: Masks, edges: seq<Edge>, n: nat, t: Decl, o: Decl)
  {
    if n == 0 then t == o
    else exists mid :: Link(shape, edges, t, mid) && Chain(shape, edges, n - 1, mid, o)
  }

  /** Callables that a chain of at most `n` links joins to base work. */
  ghost function Level(shape: Masks, edges: seq<Edge>, base: seq<Item>, n: nat): set<Decl>
  {
    if n == 0 then Targets(base)
    else Level(shape, edges, base, n - 1) + Fed(shape, edges, Level(shape, edges, base, n - 1))
  }

  /** The callables one link away from `from`. */
  ghost function Fed(shape: Masks, edges: seq<Edge>, from: set<Decl>): set<Decl>
  {
    set e <- edges | e.target.Some? && e.overridden.Some? && e.overridden.value in from
      && Leads(shape, e, e.target.value, e.overridden.value) :: e.target.value
  }

  /** `item` carries base work to its target along a chain of `n` links, and no shorter chain joins
      that target to any base work. */
  ghost predicate Nearest(shape: Masks, edges: seq<Edge>, base: seq<Item>, n: nat, item: Item)
  {
    && n > 0 && item.relation == InheritedOverride
    && item.target !in Level(shape, edges, base, n - 1)
    && exists b <- base ::
      item.provider == b.provider && item.mask == b.mask && Chain(shape, edges, n, item.target, b.target)
  }

  /** Some chain of at most `n` links joins `t` to base work. */
  ghost predicate Within(shape: Masks, edges: seq<Edge>, base: seq<Item>, n: nat, t: Decl)
  {
    exists m: nat, o :: m <= n && o in Targets(base) && Chain(shape, edges, m, t, o)
  }

  /** Levels are exactly the callables within reach. */
  lemma {:induction false} LevelIsReach(shape: Masks, edges: seq<Edge>, base: seq<Item>, n: nat, t: Decl)
    ensures t in Level(shape, edges, base, n) <==> Within(shape, edges, base, n, t)
  {
    if n == 0 {
      if t in Targets(base) { assert Chain(shape, edges, 0, t, t); }
    } else {
      LevelIsReach(shape, edges, base, n - 1, t);
      if t in Fed(shape, edges, Level(shape, edges, base, n - 1)) {
        var e :| e in edges && e.target == Some(t) && e.overridden.Some?
          && e.overridden.value in Level(shape, edges, base, n - 1) && Leads(shape, e, t, e.overridden.value);
        var mid := e.overridden.value;
        LevelIsReach(shape, edges, base, n - 1, mid);
        var m: nat, o :| m <= n - 1 && o in Targets(base) && Chain(shape, edges, m, mid, o);
        assert Link(shape, edges, t, mid) && Chain(shape, edges, m + 1, t, o);
      }
      if Within(shape, edges, base, n, t) && !Within(shape, edges, base, n - 1, t) {
        var m: nat, o :| m <= n && o in Targets(base) && Chain(shape, edges, m, t, o);
        assert m == n by {
          if m < n { assert Within(shape, edges, base, n - 1, t); }
        }
        var mid :| Link(shape, edges, t, mid) && Chain(shape, edges, n - 1, mid, o);
        LevelIsReach(shape, edges, base, n - 1, mid);
        assert Within(shape, edges, base, n - 1, mid);
        var e :| e in edges && Leads(shape, e, t, mid);
        assert t in Fed(shape, edges, Level(shape, edges, base, n - 1));
      }
      assert Within(shape, edges, base, n - 1, t) ==> Within(shape, edges, base, n, t);
    }
  }

  // ---------------------------------------------------------------- one round

  lemma {:induction false} RetargetOwns(work: seq<Item>, o: Decl, t: Decl, k: nat)
    ensures Owners(Retarget(ItemsOf(work, o), t), t, k) == Owners(work, o, k)
  {
    if work != [] {
      var rest, last := work[..|work| - 1], work[|work| - 1];
      RetargetOwns(rest, o, t, k);
      if last.target == o {
        assert Retarget(ItemsOf(work, o), t) ==
          Retarget(ItemsOf(rest, o), t) + [Item(t, last.provider, InheritedOverride, last.mask)];
        OwnersPush(Retarget(ItemsOf(rest, o), t), Item(t, last.provider, InheritedOverride, last.mask), t, k);
      } else {
        assert ItemsOf(work, o) == ItemsOf(rest, o);
      }
    }
  }

  lemma {:induction false} UnionOwned(work: seq<Item>, o: Decl, n: nat, k: nat)
    requires k < n && forall i <- ItemsOf(work, o) :: |i.mask| == n
    ensures Union(ItemsOf(work, o), n)[k] <==> Owners(work, o, k) > 0
  {
    if work != [] {
      var rest, last := work[..|work| - 1], work[|work| - 1];
      UnionOwned(rest, o, n, k);
      if last.target == o {
        assert ItemsOf(work, o) == ItemsOf(rest, o) + [last];
        assert last in ItemsOf(work, o);
        if Union(ItemsOf(work, o), n)[k] && !last.mask[k] {
          var i :| i in ItemsOf(work, o) && i.mask[k];
          assert i in ItemsOf(rest, o);
        }
      } else {
        assert ItemsOf(work, o) == ItemsOf(rest, o);
      }
    }
  }

  lemma ItemsOfNone(work: seq<Item>, t: Decl)
    ensures ItemsOf(work, t) == [] <==> t !in Targets(work)
  {
    if ItemsOf(work, t) != [] {
      assert ItemsOf(work, t)[0] in ItemsOf(work, t);
    }
    if t in Targets(work) {
      var i :| i in work && i.target == t;
      assert i in ItemsOf(work, t);
    }
  }

  /** For sound work an edge passes defaults on exactly when it links a callable without work to one
      the round began with. */
  lemma PassesIs(masks: Masks, work: seq<Item>, added: seq<Item>, e: Edge)
    requires Sound(work, masks)
    ensures Passes(masks, work, added, e) <==>
      && e.target.Some? && e.overridden.Some? && e.overridden.value in Targets(work)
      && e.target.value !in Targets(work) && e.target.value !in Targets(added)
      && Leads(masks, e, e.target.value, e.overridden.value)
  {
    if e.target.Some? && e.overridden.Some? {
      var t, o := e.target.value, e.overridden.value;
      ItemsOfNone(work, t);
      ItemsOfNone(added, t);
      ItemsOfNone(work, o);
      if o in Targets(work) {
        var i :| i in work && i.target == o;
        assert ItemFits(i, masks) && i in ItemsOf(work, o);
        assert forall j <- ItemsOf(work, o) :: ItemFits(j, masks);
        if t in masks && |masks[t]| == |masks[o]| {
          var k: nat :| k < |i.mask| && i.mask[k];
          assert Union(ItemsOf(work, o), |masks[t]|)[k];
        }
      }
    }
  }

  /** The additions to one target: all its overridden side's items, retargeted. */
  ghost predicate Copied(masks: Masks, work: seq<Item>, edges: seq<Edge>, item: Item)
  {
    exists o :: Link(masks, edges, item.target, o) && item in Retarget(ItemsOf(work, o), item.target)
  }

  /** Slots that had exactly one provider have one still. */
  ghost predicate StillProvided(work: seq<Item>, start: Masks, more: seq<Item>, masks: Masks)
  {
    forall t :: ExactlyProvided(work, start, t) ==> ExactlyProvided(more, masks, t)
  }

  /** What a round owes, after some of its edges, to the work and headers it began with. */
  ghost predicate RoundSound(start: Masks, work: seq<Item>, edges: seq<Edge>, masks: Masks, added: seq<Item>)
  {
    && Sound(work + added, masks)
    && SameShape(masks, start)
    && Targets(added) == Fed(start, edges, Targets(work)) - Targets(work)
    && (forall d <- masks :: d !in Targets(added) ==> masks[d] == start[d])
    && StillProvided(work, start, work + added, masks)
    && (forall i <- added :: Copied(start, work, edges, i))
  }

  lemma CopiedMore(start: Masks, work: seq<Item>, edges: seq<Edge>, e: Edge, added: seq<Item>)
    requires forall i <- added :: Copied(start, work, edges, i)
    ensures forall i <- added :: Copied(start, work, edges + [e], i)
  {
    forall i | i in added ensures Copied(start, work, edges + [e], i) {
      var o :| Link(start, edges, i.target, o) && i in Retarget(ItemsOf(work, o), i.target);
      assert Link(start, edges + [e], i.target, o);
    }
  }

  lemma NotPassed(start: Masks, work: seq<Item>, edges: seq<Edge>, masks: Masks, added: seq<Item>, e: Edge)
    requires Sound(work, masks) && RoundSound(start, work, edges, masks, added) && !Passes(masks, work, added, e)
    ensures RoundSound(start, work, edges + [e], masks, added)
  {
    PassesIs(masks, work, added, e);
    FedPush(start, edges, e, Targets(work));
    CopiedMore(start, work, edges, e, added);
  }

  /** What an edge adds: one item for each of the overridden side's, slot for slot. */
  lemma RetargetFit(masks: Masks, work: seq<Item>, t: Decl, o: Decl)
    requires t in masks && ItemsOf(work, o) != []
    requires forall i <- ItemsOf(work, o) :: |i.mask| == |masks[t]| && true in i.mask
    ensures var items := Retarget(ItemsOf(work, o), t); Targets(items) == {t} && forall i <- items :: ItemFits(i, masks)
  {
    var items := Retarget(ItemsOf(work, o), t);
    forall i | i in items ensures ItemFits(i, masks) && i.target == t {
      var j :| 0 <= j < |items| && items[j] == i;
      assert ItemsOf(work, o)[j] in ItemsOf(work, o);
    }
    assert items[0] in items;
  }

  /** The passed mask marks exactly the slots the added items own. */
  lemma PassedMask(masks: Masks, work: seq<Item>, t: Decl, o: Decl)
    requires t in masks && ItemsOf(work, o) != [] && forall k: nat :: Owners(work, o, k) <= 1
    requires forall i <- ItemsOf(work, o) :: |i.mask| == |masks[t]| && true in i.mask
    requires forall k: nat :: k < |masks[t]| ==> !masks[t][k]
    ensures var joined := Or(masks[t], Union(ItemsOf(work, o), |masks[t]|));
      ExactlyProvided(Retarget(ItemsOf(work, o), t), masks[t := joined], t)
  {
    var after := masks[t := Or(masks[t], Union(ItemsOf(work, o), |masks[t]|))];
    var items := Retarget(ItemsOf(work, o), t);
    RetargetFit(masks, work, t, o);
    forall k: nat ensures Owners(items, t, k) == if k < |after[t]| && after[t][k] then 1 else 0 {
      RetargetOwns(work, o, t, k);
      if k < |after[t]| {
        UnionOwned(work, o, |masks[t]|, k);
      } else {
        NoOwnerBeyond(items, masks, t, k);
      }
    }
  }

  lemma {:induction false} NoOwnerBeyond(items: seq<Item>, masks: Masks, t: Decl, k: nat)
    requires t in masks && k >= |masks[t]| && forall i <- items :: ItemFits(i, masks)
    ensures Owners(items, t, k) == 0
  {
    if items != [] {
      assert ItemFits(items[|items| - 1], masks);
      NoOwnerBeyond(items[..|items| - 1], masks, t, k);
    }
  }

  /** What passing an edge needs and does, spelled out. */
  ghost predicate Passing(masks: Masks, work: seq<Item>, added: seq<Item>, t: Decl, o: Decl)
  {
    && t in masks && t !in Targets(work + added) && ItemsOf(work, o) != []
    && (forall i <- ItemsOf(work, o) :: |i.mask| == |masks[t]| && true in i.mask)
    && (forall k: nat :: Owners(work, o, k) <= 1)
  }

  lemma PassesPassing(masks: Masks, work: seq<Item>, added: seq<Item>, e: Edge)
    requires Sound(work, masks) && Passes(masks, work, added, e)
    ensures Passing(masks, work, added, e.target.value, e.overridden.value)
  {
    PassesIs(masks, work, added, e);
    TargetsConcat(work, added);
    forall i | i in ItemsOf(work, e.overridden.value) ensures true in i.mask {
      assert ItemFits(i, masks);
    }
  }

  /** Work grown by one target's retargeted items stays sound, and exactly provided callables stay so;
      the target does if it was, that is if it had neither items nor defaults. */
  lemma PassedWork(masks: Masks, work: seq<Item>, added: seq<Item>, t: Decl, o: Decl)
    requires Sound(work + added, masks) && Passing(masks, work, added, t, o)
    ensures var after := masks[t := Or(masks[t], Union(ItemsOf(work, o), |masks[t]|))];
      var more := added + Retarget(ItemsOf(work, o), t);
      && Sound(work + more, after)
      && forall u :: ExactlyProvided(work + added, masks, u) ==> ExactlyProvided(work + more, after, u)
  {
    var after := masks[t := Or(masks[t], Union(ItemsOf(work, o), |masks[t]|))];
    var items := Retarget(ItemsOf(work, o), t);
    RetargetFit(masks, work, t, o);
    forall k: nat ensures Owners(items, t, k) <= 1 {
      RetargetOwns(work, o, t, k);
    }
    assert work + (added + items) == (work + added) + items;
    AddedSound(work + added, items, masks, after, t);
    NoItemNoOwner(work + added, t);
    if ExactlyProvided(work + added, masks, t) {
      PassedMask(masks, work, t, o);
    }
    AddedKeeps(work + added, items, masks, after, t);
  }

  lemma AddedKeeps(work: seq<Item>, items: seq<Item>, before: Masks, after: Masks, t: Decl)
    requires t !in Targets(work) && Targets(items) <= {t}
    requires before.Keys == after.Keys && forall u <- before :: u != t ==> after[u] == before[u]
    requires ExactlyProvided(work, before, t) ==> ExactlyProvided(items, after, t)
    ensures forall u :: ExactlyProvided(work, before, u) ==> ExactlyProvided(work + items, after, u)
  {
    NoItemNoOwner(work, t);
    forall u | ExactlyProvided(work, before, u) ensures ExactlyProvided(work + items, after, u) {
      forall k: nat ensures Owners(work + items, u, k) == Owners(work, u, k) + Owners(items, u, k) {
        OwnersConcat(work, items, u, k);
      }
      if u != t { NoItemNoOwner(items, u); }
    }
  }

  lemma Passed(start: Masks, work: seq<Item>, edges: seq<Edge>, masks: Masks, added: seq<Item>, e: Edge)
    requires Sound(work, masks) && RoundSound(start, work, edges, masks, added) && Passes(masks, work, added, e)
    ensures var (after, more) := RoundStep(masks, work, added, e); RoundSound(start, work, edges + [e], after, more)
  {
    var (after, more) := RoundStep(masks, work, added, e);
    var t, o := e.target.value, e.overridden.value;
    PassesPassing(masks, work, added, e);
    PassedWork(masks, work, added, t, o);
    PassedTargets(start, work, edges, masks, added, e);
    PassedCopies(start, work, edges, masks, added, e);
    PassedKeeps(start, work, masks, added, after, more);
  }

  lemma PassedKeeps(start: Masks, work: seq<Item>, masks: Masks, added: seq<Item>, after: Masks, more: seq<Item>)
    requires StillProvided(work, start, work + added, masks) && StillProvided(work + added, masks, work + more, after)
    ensures StillProvided(work, start, work + more, after)
  {
  }

  lemma PassedAdds(work: seq<Item>, masks: Masks, added: seq<Item>, e: Edge)
    requires Sound(work, masks) && Passes(masks, work, added, e)
    ensures Targets(RoundStep(masks, work, added, e).1) == Targets(added) + {e.target.value}
  {
    var t, o := e.target.value, e.overridden.value;
    PassesPassing(masks, work, added, e);
    RetargetFit(masks, work, t, o);
    TargetsConcat(added, Retarget(ItemsOf(work, o), t));
  }

  lemma PassedTargets(start: Masks, work: seq<Item>, edges: seq<Edge>, masks: Masks, added: seq<Item>, e: Edge)
    requires Sound(work, masks) && Passes(masks, work, added, e) && SameShape(masks, start)
    requires Targets(added) == Fed(start, edges, Targets(work)) - Targets(work)
    ensures Targets(RoundStep(masks, work, added, e).1) == Fed(start, edges + [e], Targets(work)) - Targets(work)
    ensures Targets(RoundStep(masks, work, added, e).1) == Targets(added) + {e.target.value}
  {
    PassesIs(masks, work, added, e);
    PassedAdds(work, masks, added, e);
    FedPush(start, edges, e, Targets(work));
  }

  lemma PassedCopies(start: Masks, work: seq<Item>, edges: seq<Edge>, masks: Masks, added: seq<Item>, e: Edge)
    requires Sound(work, masks) && Passes(masks, work, added, e) && SameShape(masks, start)
    requires forall i <- added :: Copied(start, work, edges, i)
    ensures forall i <- RoundStep(masks, work, added, e).1 :: Copied(start, work, edges + [e], i)
  {
    var t, o := e.target.value, e.overridden.value;
    PassesIs(masks, work, added, e);
    CopiedMore(start, work, edges, e, added);
    assert Leads(start, e, t, o) && e in edges + [e];
    assert Link(start, edges + [e], t, o);
    var items := Retarget(ItemsOf(work, o), t);
    assert forall i <- items :: i.target == t;
  }

  lemma {:induction false} RoundIsSound(masks: Masks, work: seq<Item>, edges: seq<Edge>)
    requires Sound(work, masks)
    ensures var (after, added) := Round(masks, work, edges); RoundSound(masks, work, edges, after, added)
  {
    if edges == [] {
      assert work + [] == work;
    } else {
      var rest, e := edges[..|edges| - 1], edges[|edges| - 1];
      RoundIsSound(masks, work, rest);
      var (before, added) := Round(masks, work, rest);
      assert edges == rest + [e];
      if Passes(before, work, added, e) {
        Passed(masks, work, rest, before, added, e);
      } else {
        NotPassed(masks, work, rest, before, added, e);
      }
    }
  }

  lemma FedPush(shape: Masks, edges: seq<Edge>, e: Edge, from: set<Decl>)
    ensures Fed(shape, edges + [e], from) == Fed(shape, edges, from) + Fed(shape, [e], from)
  {
    assert forall x :: x in edges + [e] <==> x in edges || x in [e];
  }

  // ---------------------------------------------------------------- which edge passes what

  /** `e` leads from `t` to a callable of its arity that has work. */
  ghost predicate Feeds(start: Masks, work: seq<Item>, e: Edge, t: Decl)
  {
    e.overridden.Some? && e.overridden.value in Targets(work) && Leads(start, e, t, e.overridden.value)
  }

  ghost predicate FirstFeed(start: Masks, work: seq<Item>, edges: seq<Edge>, t: Decl, i: int)
  {
    0 <= i < |edges| && Feeds(start, work, edges[i], t) && forall j :: 0 <= j < i ==> !Feeds(start, work, edges[j], t)
  }

  /** `item` is work of `o` handed to `t`. */
  ghost predicate HandedOn(work: seq<Item>, o: Decl, t: Decl, item: Item)
  {
    exists b <- work :: b.target == o && item == Item(t, b.provider, InheritedOverride, b.mask)
  }

  ghost predicate Marked(work: seq<Item>, o: Decl, k: nat)
  {
    exists b <- work :: b.target == o && k < |b.mask| && b.mask[k]
  }

  /** `t` gets exactly the work of `o` and the marks that go with it. */
  ghost predicate Inherits(start: Masks, work: seq<Item>, after: Masks, added: seq<Item>, t: Decl, o: Decl)
  {
    && t in start && t in after && |after[t]| == |start[t]|
    && (forall item: Item :: item.target == t ==> (item in added <==> HandedOn(work, o, t, item)))
    && forall k: nat :: k < |start[t]| ==> (after[t][k] <==> start[t][k] || Marked(work, o, k))
  }

  lemma StepInherits(start: Masks, work: seq<Item>, masks: Masks, added: seq<Item>, e: Edge, t: Decl)
    requires Sound(work, masks) && SameShape(masks, start) && t !in Targets(work) && t !in Targets(added)
    requires Feeds(start, work, e, t) && masks[t] == start[t]
    ensures var (after, more) := RoundStep(masks, work, added, e);
      Inherits(start, work, after, more, t, e.overridden.value)
  {
    var o := e.overridden.value;
    PassesIs(masks, work, added, e);
    var items := ItemsOf(work, o);
    var handed := Retarget(items, t);
    forall item: Item | item.target == t ensures item in added + handed <==> HandedOn(work, o, t, item) {
      if item in handed {
        var j :| 0 <= j < |handed| && handed[j] == item;
        assert items[j] in items;
      }
      if HandedOn(work, o, t, item) {
        var b :| b in work && b.target == o && item == Item(t, b.provider, InheritedOverride, b.mask);
        assert b in items;
        var j :| 0 <= j < |items| && items[j] == b;
        assert handed[j] == item;
      }
    }
    forall k: nat | k < |start[t]| ensures Union(items, |masks[t]|)[k] <==> Marked(work, o, k) {
    }
  }

  /** An edge of another callable, or a later one of the same, changes nothing of what `t` got. */
  lemma StepLeaves(start: Masks, work: seq<Item>, masks: Masks, added: seq<Item>, e: Edge, t: Decl, o: Decl)
    requires Sound(work, masks) && Inherits(start, work, masks, added, t, o)
    requires t in Targets(added) || e.target != Some(t)
    ensures var (after, more) := RoundStep(masks, work, added, e); Inherits(start, work, after, more, t, o)
  {
    PassesIs(masks, work, added, e);
    if Passes(masks, work, added, e) {
      var handed := Retarget(ItemsOf(work, e.overridden.value), e.target.value);
      assert forall item :: item in added + handed <==> item in added || item in handed;
    }
  }

  lemma RoundPush(masks: Masks, work: seq<Item>, edges: seq<Edge>, e: Edge)
    ensures var (before, added) := Round(masks, work, edges);
      Round(masks, work, edges + [e]) == RoundStep(before, work, added, e)
  {
    assert (edges + [e])[..|edges|] == edges;
  }

  ghost predicate FedBy(masks: Masks, work: seq<Item>, edges: seq<Edge>, t: Decl, o: Decl)
  {
    var (after, added) := Round(masks, work, edges); Inherits(masks, work, after, added, t, o)
  }

  lemma LastFeeds(masks: Masks, work: seq<Item>, rest: seq<Edge>, e: Edge, t: Decl)
    requires Sound(work, masks) && t !in Targets(work) && Feeds(masks, work, e, t)
    requires forall x <- rest :: !Feeds(masks, work, x, t)
    ensures FedBy(masks, work, rest + [e], t, e.overridden.value)
  {
    var (before, added) := Round(masks, work, rest);
    RoundIsSound(masks, work, rest);
    SoundBefore(work, added, before);
    RoundPush(masks, work, rest, e);
    StepInherits(masks, work, before, added, e, t);
  }

  lemma EarlierFeeds(masks: Masks, work: seq<Item>, rest: seq<Edge>, e: Edge, t: Decl, o: Decl)
    requires Sound(work, masks) && t !in Targets(work) && FedBy(masks, work, rest, t, o)
    requires exists x <- rest :: Feeds(masks, work, x, t)
    ensures FedBy(masks, work, rest + [e], t, o)
  {
    var (before, added) := Round(masks, work, rest);
    RoundIsSound(masks, work, rest);
    SoundBefore(work, added, before);
    RoundPush(masks, work, rest, e);
    assert t in Fed(masks, rest, Targets(work));
    StepLeaves(masks, work, before, added, e, t, o);
  }

  /** In a round a callable without work takes it from the first of its edges that leads to any, all of it and
      nothing else. */
  lemma {:induction false} FirstEdgeFeeds(masks: Masks, work: seq<Item>, edges: seq<Edge>, t: Decl, i: int)
    requires Sound(work, masks) && t !in Targets(work) && FirstFeed(masks, work, edges, t, i)
    ensures FedBy(masks, work, edges, t, edges[i].overridden.value)
    decreases |edges|
  {
    var n := |edges| - 1;
    var rest := edges[..n];
    assert edges == rest + [edges[n]];
    if i == n {
      LastFeeds(masks, work, rest, edges[n], t);
    } else {
      FirstEdgeFeeds(masks, work, rest, t, i);
      assert rest[i] in rest;
      EarlierFeeds(masks, work, rest, edges[n], t, edges[i].overridden.value);
    }
  }

  lemma SoundBefore(work: seq<Item>, added: seq<Item>, masks: Masks)
    requires Sound(work + added, masks)
    ensures Sound(work, masks)
  {
    forall t, k: nat ensures Owners(work, t, k) <= 1 {
      OwnersConcat(work, added, t, k);
    }
    forall i | i in work ensures ItemFits(i, masks) {
      assert i in work + added;
    }
  }

  // ---------------------------------------------------------------- all rounds

  lemma LevelsGrow(shape: Masks, edges: seq<Edge>, base: seq<Item>, m: nat, n: nat)
    requires m <= n
    ensures Level(shape, edges, base, m) <= Level(shape, edges, base, n)
  {
    forall t | t in Level(shape, edges, base, m) ensures t in Level(shape, edges, base, n) {
      LevelIsReach(shape, edges, base, m, t);
      LevelIsReach(shape, edges, base, n, t);
      var k: nat, o :| k <= m && o in Targets(base) && Chain(shape, edges, k, t, o);
      assert Within(shape, edges, base, n, t);
    }
  }

  ghost predicate Keeps(base: seq<Item>, work: seq<Item>) { forall i <- base :: i in work }

  /** Every item is base work or comes from base work along a shortest chain. */
  ghost predicate AllNearest(start: Masks, edges: seq<Edge>, base: seq<Item>, work: seq<Item>, n: nat)
  {
    forall i <- work :: i in base || Inherited(start, edges, base, n, i)
  }

  /** Only targets of inherited items had their headers changed. */
  ghost predicate Untouched(start: Masks, base: seq<Item>, masks: Masks, work: seq<Item>)
  {
    forall d <- masks :: d !in Targets(work) - Targets(base) ==> d in start && masks[d] == start[d]
  }

  /** After `n` rounds: the callables with work are those `n` links may reach, every inherited item is a
      nearest one, and whatever was exactly provided still is. */
  ghost predicate AfterRounds(start: Masks, edges: seq<Edge>, base: seq<Item>, masks: Masks, work: seq<Item>, n: nat)
  {
    && Sound(work, masks)
    && SameShape(masks, start)
    && Targets(work) == Level(start, edges, base, n)
    && Untouched(start, base, masks, work)
    && Keeps(base, work)
    && AllNearest(start, edges, base, work, n)
    && StillProvided(base, start, work, masks)
  }

  ghost predicate Inherited(start: Masks, edges: seq<Edge>, base: seq<Item>, n: nat, item: Item)
  {
    exists m: nat :: m <= n && Nearest(start, edges, base, m, item)
  }

  /** No equal-arity edge leads from a callable without work to one with work. */
  ghost predicate Complete(start: Masks, edges: seq<Edge>, work: seq<Item>)
  {
    forall e <- edges, t, o :: Leads(start, e, t, o) && o in Targets(work) ==> t in Targets(work)
  }

  lemma LinkShape(a: Masks, b: Masks, edges: seq<Edge>, t: Decl, o: Decl)
    requires SameShape(a, b) && Link(a, edges, t, o)
    ensures Link(b, edges, t, o)
  {
    var e :| e in edges && Leads(a, e, t, o);
    assert Leads(b, e, t, o);
  }

  lemma FedShape(a: Masks, b: Masks, edges: seq<Edge>, from: set<Decl>)
    requires SameShape(a, b)
    ensures Fed(a, edges, from) == Fed(b, edges, from)
  {
    forall e, t, o ensures Leads(a, e, t, o) == Leads(b, e, t, o) {
    }
  }

  /** An edge out of a callable without work ends at the newest level. */
  lemma NewestLevel(start: Masks, edges: seq<Edge>, base: seq<Item>, n: nat, t: Decl, o: Decl)
    requires Link(start, edges, t, o) && t !in Level(start, edges, base, n)
    ensures n > 0 ==> o !in Level(start, edges, base, n - 1)
  {
    var e :| e in edges && Leads(start, e, t, o);
    if n > 0 {
      var from := Level(start, edges, base, n - 1);
      assert o in from ==> t in Fed(start, edges, from);
    }
  }

  /** Work at the newest level came by a chain of as many links as there were rounds. */
  lemma NewestItem(start: Masks, edges: seq<Edge>, base: seq<Item>, n: nat, from: Item) returns (b: Item)
    requires from in base || Inherited(start, edges, base, n, from)
    requires n > 0 ==> from.target !in Level(start, edges, base, n - 1)
    ensures b in base && from.provider == b.provider && from.mask == b.mask &&
      Chain(start, edges, n, from.target, b.target)
  {
    if from in base {
      b := from;
      assert from.target in Targets(base);
      if n > 0 {
        LevelsGrow(start, edges, base, 0, n - 1);
      }
    } else {
      var m: nat :| m <= n && Nearest(start, edges, base, m, from);
      b :| b in base && from.provider == b.provider && from.mask == b.mask &&
        Chain(start, edges, m, from.target, b.target);
      if m < n {
        assert b.target in Targets(base);
        assert Within(start, edges, base, n - 1, from.target);
        LevelIsReach(start, edges, base, n - 1, from.target);
      }
    }
  }

  /** An item copied from the newest level is nearest one link further out. */
  lemma CopiedNearest(
      start: Masks, edges: seq<Edge>, base: seq<Item>, masks: Masks, work: seq<Item>, n: nat, item: Item)
    requires SameShape(masks, start) && forall i <- work :: i in base || Inherited(start, edges, base, n, i)
    requires Copied(masks, work, edges, item) && item.target !in Level(start, edges, base, n)
    ensures Nearest(start, edges, base, n + 1, item)
  {
    var t := item.target;
    var o :| Link(masks, edges, t, o) && item in Retarget(ItemsOf(work, o), t);
    LinkShape(masks, start, edges, t, o);
    NewestLevel(start, edges, base, n, t, o);
    var j :| 0 <= j < |ItemsOf(work, o)| && item == Retarget(ItemsOf(work, o), t)[j];
    var from := ItemsOf(work, o)[j];
    assert from in ItemsOf(work, o);
    var b := NewestItem(start, edges, base, n, from);
    assert Chain(start, edges, n + 1, t, b.target);
  }

  lemma ItemsAdvance(
      start: Masks, edges: seq<Edge>, base: seq<Item>, masks: Masks, work: seq<Item>, n: nat, added: seq<Item>)
    requires SameShape(masks, start) && Targets(work) == Level(start, edges, base, n)
    requires forall i <- work :: i in base || Inherited(start, edges, base, n, i)
    requires forall i <- added :: Copied(masks, work, edges, i) && i.target !in Targets(work)
    ensures forall i <- work + added :: i in base || Inherited(start, edges, base, n + 1, i)
  {
    forall i | i in work + added ensures i in base || Inherited(start, edges, base, n + 1, i) {
      if i in work {
        if i !in base {
          var m: nat :| m <= n && Nearest(start, edges, base, m, i);
          assert m <= n + 1;
        }
      } else {
        CopiedNearest(start, edges, base, masks, work, n, i);
      }
    }
  }

  /** A round's targets are the next level, and its items are nearest ones. */
  lemma RoundReaches(
      start: Masks, edges: seq<Edge>, base: seq<Item>, masks: Masks, work: seq<Item>, n: nat, added: seq<Item>)
    requires SameShape(masks, start) && Targets(work) == Level(start, edges, base, n)
    requires AllNearest(start, edges, base, work, n)
    requires Targets(added) == Fed(masks, edges, Targets(work)) - Targets(work)
    requires forall i <- added :: Copied(masks, work, edges, i)
    ensures Targets(work + added) == Level(start, edges, base, n + 1)
    ensures AllNearest(start, edges, base, work + added, n + 1)
  {
    FedShape(masks, start, edges, Targets(work));
    TargetsConcat(work, added);
    forall i | i in added ensures i.target !in Targets(work) {
      assert i.target in Targets(added);
    }
    ItemsAdvance(start, edges, base, masks, work, n, added);
  }

  lemma RoundUntouched(start: Masks, base: seq<Item>, masks: Masks, work: seq<Item>, after: Masks, added: seq<Item>)
    requires SameShape(masks, start) && SameShape(after, masks) && Untouched(start, base, masks, work)
    requires forall d <- after :: d !in Targets(added) ==> after[d] == masks[d]
    requires Targets(work + added) == Targets(work) + Targets(added) && Targets(added) !! Targets(base)
    ensures Untouched(start, base, after, work + added)
  {
  }

  lemma RoundAdvances(
      start: Masks, edges: seq<Edge>, base: seq<Item>, masks: Masks, work: seq<Item>, n: nat, after: Masks,
      added: seq<Item>)
    requires AfterRounds(start, edges, base, masks, work, n) && RoundSound(masks, work, edges, after, added)
    ensures AfterRounds(start, edges, base, after, work + added, n + 1)
  {
    RoundReaches(start, edges, base, masks, work, n, added);
    AddedApart(start, edges, base, masks, work, n, added);
    RoundUntouched(start, base, masks, work, after, added);
    RoundProvides(start, base, masks, work, after, added);
  }

  lemma AddedApart(
      start: Masks, edges: seq<Edge>, base: seq<Item>, masks: Masks, work: seq<Item>, n: nat, added: seq<Item>)
    requires Targets(work) == Level(start, edges, base, n)
    requires Targets(added) == Fed(masks, edges, Targets(work)) - Targets(work)
    ensures Targets(work + added) == Targets(work) + Targets(added) && Targets(added) !! Targets(base)
  {
    TargetsConcat(work, added);
    LevelsGrow(start, edges, base, 0, n);
  }

  lemma RoundProvides(start: Masks, base: seq<Item>, masks: Masks, work: seq<Item>, after: Masks, added: seq<Item>)
    requires StillProvided(base, start, work, masks) && StillProvided(work, masks, work + added, after) &&
      Keeps(base, work)
    ensures StillProvided(base, start, work + added, after) && Keeps(base, work + added)
  {
  }

  lemma NothingAdded(start: Masks, edges: seq<Edge>, masks: Masks, work: seq<Item>)
    requires SameShape(masks, start) && Fed(masks, edges, Targets(work)) <= Targets(work)
    ensures Complete(start, edges, work)
  {
    FedShape(masks, start, edges, Targets(work));
    forall e, t, o | e in edges && Leads(start, e, t, o) && o in Targets(work) ensures t in Targets(work) {
      assert t in Fed(start, edges, Targets(work));
    }
  }

  lemma GroupPush(work: seq<Item>, item: Item, t: Decl)
    ensures ItemsOf(work + [item], t) == ItemsOf(work, t) + (if item.target == t then [item] else [])
  {
    assert (work + [item])[..|work|] == work;
  }

  method GroupByTarget(work: seq<Item>) returns (providers: map<Decl, seq<Item>>)
    ensures forall t :: t in providers <==> ItemsOf(work, t) != []
    ensures forall t <- providers :: providers[t] == ItemsOf(work, t)
  {
    providers := map[];
    for i := 0 to |work|
      invariant forall t :: t in providers <==> ItemsOf(work[..i], t) != []
      invariant forall t <- providers :: providers[t] == ItemsOf(work[..i], t)
    {
      var item := work[i];
      assert work[..i + 1] == work[..i] + [item];
      forall t ensures ItemsOf(work[..i + 1], t) == ItemsOf(work[..i], t) + (if item.target == t then [item] else []) {
        GroupPush(work[..i], item, t);
      }
      var before := if item.target in providers then providers[item.target] else [];
      providers := providers[item.target := before + [item]];
    }
    assert work[..|work|] == work;
  }

  method PassEdge(
      headers: HeaderArena, providers: map<Decl, seq<Item>>, ghost work: seq<Item>, added: seq<Item>, e: Edge)
    returns (more: seq<Item>)
    requires forall t :: t in providers <==> ItemsOf(work, t) != []
    requires forall t <- providers :: providers[t] == ItemsOf(work, t)
    modifies headers
    ensures (headers.masks, more) == RoundStep(old(headers.masks), work, added, e)
  {
    more := added;
    if e.target.None? || e.target.value in providers || ItemsOf(added, e.target.value) != [] {
      return;
    }
    var t := e.target.value;
    if e.overridden.None? || e.overridden.value !in providers || t !in headers.masks {
      return;
    }
    var inherited, arity := providers[e.overridden.value], |headers.masks[t]|;
    if exists p: Item :: p in inherited && |p.mask| != arity {
      return;
    }
    var defaults := Union(inherited, arity);
    if true in defaults {
      headers.SetDefaults(t, defaults);
      more := added + Retarget(inherited, t);
    }
  }

  method InheritRound(headers: HeaderArena, work: seq<Item>, edges: seq<Edge>) returns (added: seq<Item>)
    modifies headers
    ensures (headers.masks, added) == Round(old(headers.masks), work, edges)
  {
    var providers := GroupByTarget(work);
    added := [];
    for i := 0 to |edges|
      invariant (headers.masks, added) == Round(old(headers.masks), work, edges[..i])
    {
      assert edges[..i + 1][..i] == edges[..i];
      added := PassEdge(headers, providers, work, added, edges[i]);
    }
    assert edges[..|edges|] == edges;
  }

  ghost function EdgeTargets(edges: seq<Edge>): set<Decl> { set e <- edges | e.target.Some? :: e.target.value }

  /** Rounds until one adds nothing, which is a fixpoint of the edges. */
  method InheritOverrideDefaultWork(headers: HeaderArena, edges: seq<Edge>, base: seq<Item>)
    returns (work: seq<Item>, ghost rounds: nat)
    requires Sound(base, headers.masks)
    modifies headers
    ensures AfterRounds(old(headers.masks), edges, base, headers.masks, work, rounds)
    ensures Complete(old(headers.masks), edges, work)
  {
    work, rounds := base, 0;
    ghost var start := headers.masks;
    NoRounds(start, edges, base);
    while true
      invariant AfterRounds(start, edges, base, headers.masks, work, rounds)
      decreases EdgeTargets(edges) - Targets(work)
    {
      ghost var masks := headers.masks;
      var added := InheritRound(headers, work, edges);
      OneRound(start, edges, base, masks, work, rounds);
      work, rounds := work + added, rounds + 1;
      if added == [] {
        break;
      }
    }
    TidyAfterRounds(start, edges, base, headers.masks, work, rounds);
    work := Tidy(work);
  }

  lemma NoRounds(start: Masks, edges: seq<Edge>, base: seq<Item>)
    requires Sound(base, start)
    ensures AfterRounds(start, edges, base, start, base, 0)
  {
  }

  lemma OneRound(start: Masks, edges: seq<Edge>, base: seq<Item>, masks: Masks, work: seq<Item>, n: nat)
    requires AfterRounds(start, edges, base, masks, work, n)
    ensures var (after, added) := Round(masks, work, edges);
      && AfterRounds(start, edges, base, after, work + added, n + 1)
      && (added == [] ==> Complete(start, edges, work + added))
      && (added != [] ==> EdgeTargets(edges) - Targets(work + added) < EdgeTargets(edges) - Targets(work))
  {
    var (after, added) := Round(masks, work, edges);
    RoundIsSound(masks, work, edges);
    RoundAdvances(start, edges, base, masks, work, n, after, added);
    if added == [] {
      NothingLeft(start, edges, masks, work, after, added);
      assert work + added == work;
    } else {
      Progress(edges, masks, work, added, after);
    }
  }

  lemma NothingLeft(start: Masks, edges: seq<Edge>, masks: Masks, work: seq<Item>, after: Masks, added: seq<Item>)
    requires SameShape(masks, start) && RoundSound(masks, work, edges, after, added) && added == []
    ensures Complete(start, edges, work)
  {
    assert Targets(added) == {};
    NothingAdded(start, edges, masks, work);
  }

  /** A round that adds work adds it to the target of an edge that had none. */
  lemma Progress(edges: seq<Edge>, masks: Masks, work: seq<Item>, added: seq<Item>, after: Masks)
    requires RoundSound(masks, work, edges, after, added) && added != []
    ensures EdgeTargets(edges) - Targets(work + added) < EdgeTargets(edges) - Targets(work)
  {
    TargetsConcat(work, added);
    assert added[0].target in Targets(added);
    var e :| e in edges && e.target == Some(added[0].target);
    assert added[0].target in EdgeTargets(edges);
  }

  lemma TidyAfterRounds(start: Masks, edges: seq<Edge>, base: seq<Item>, masks: Masks, work: seq<Item>, n: nat)
    requires AfterRounds(start, edges, base, masks, work, n)
    ensures AfterRounds(start, edges, base, masks, Tidy(work), n) && Targets(Tidy(work)) == Targets(work)
  {
    TidyKeeps(work, masks);
    forall i ensures i in Tidy(work) <==> i in work {
      assert i in multiset(work) <==> i in multiset(Tidy(work));
    }
    assert Targets(Tidy(work)) == Targets(work);
    forall t | ExactlyProvided(work, masks, t) ensures ExactlyProvided(Tidy(work), masks, t) {
    }
  }

  /** The fixpoint is least: any set that has the base targets and is closed under the edges has every
      callable that got work. */
  lemma {:induction false} FixpointLeast(shape: Masks, edges: seq<Edge>, base: seq<Item>, n: nat, closed: set<Decl>)
    requires Targets(base) <= closed && Fed(shape, edges, closed) <= closed
    ensures Level(shape, edges, base, n) <= closed
  {
    if n > 0 {
      FixpointLeast(shape, edges, base, n - 1, closed);
      assert Fed(shape, edges, Level(shape, edges, base, n - 1)) <= Fed(shape, edges, closed);
    }
  }

  /** Over the whole pipeline each default slot of a surviving callable has exactly one provider. */
  lemma PipelineExact(
      masks: Masks, pairs: seq<Pair>, stubs: seq<Decl>, edges: seq<Edge>, after: Masks, work: seq<Item>, rounds: nat)
    requires DistinctActuals(pairs) && DistinctDecls(stubs)
    requires var (merged, inherited) := MergeAll(masks, pairs);
      AfterRounds(merged, edges, Tidy(OwnItems(merged, stubs, Involved(inherited)) + inherited), after, work, rounds)
    ensures forall t <- stubs :: t in after && (forall p <- pairs :: p.common != t) ==> ExactlyProvided(work, after, t)
    ensures forall t, k: nat :: Owners(work, t, k) <= 1
  {
    InitialWorkSound(masks, pairs, stubs);
    var (merged, inherited) := MergeAll(masks, pairs);
    var base := Tidy(OwnItems(merged, stubs, Involved(inherited)) + inherited);
    forall t | t in stubs && t in after && (forall p <- pairs :: p.common != t)
      ensures ExactlyProvided(work, after, t)
    {
      assert ExactlyProvided(base, merged, t);
    }
  }
}
