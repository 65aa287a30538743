/** Which declaration supplies each default argument: the merge of `expect` and `actual` headers, the
    enumeration of self-owned defaults, and the inheritance of defaults along override edges
    (src/frontend.rs:419-771). */
module Defaults {
  import opened Sorting

  import opened Options

  type Decl = nat

  datatype Relation = SameDeclaration | ActualizedDeclaration | InheritedOverride

  /** One provider of default expressions: `mask` marks the target's parameters it supplies. */
  datatype Item = Item(target: Decl, provider: Decl, relation: Relation, mask: seq<bool>)

  type Masks = map<Decl, seq<bool>>

  /** The parameter flags of every callable header. A declaration that is no callable has none. */
  class HeaderArena {
    var masks: Masks

    constructor (masks: Masks)
      ensures this.masks == masks
    {
      this.masks := masks;
    }

    /** Marks parameters as defaulted; a mark already there stays. */
    method SetDefaults(d: Decl, defaults: seq<bool>)
      requires d in masks && |defaults| == |masks[d]|
      modifies this
      ensures masks == old(masks)[d := Or(old(masks)[d], defaults)]
    {
      masks := masks[d := Or(masks[d], defaults)];
    }
  }

  function Or(a: seq<bool>, b: seq<bool>): (r: seq<bool>)
    requires |a| == |b|
    ensures |r| == |a| && forall k :: 0 <= k < |r| ==> r[k] == (a[k] || b[k])
  {
    seq(|a|, k requires 0 <= k < |a| => a[k] || b[k])
  }

  function Without(a: seq<bool>, b: seq<bool>): (r: seq<bool>)
    requires |a| == |b|
    ensures |r| == |a| && forall k :: 0 <= k < |r| ==> r[k] == (a[k] && !b[k])
  {
    seq(|a|, k requires 0 <= k < |a| => a[k] && !b[k])
  }

  // ---------------------------------------------------------------- who owns a slot

  /** 1 when `item` supplies parameter `k` of `t`. */
  function Owns(item: Item, t: Decl, k: nat): nat
  {
    if item.target == t && k < |item.mask| && item.mask[k] then 1 else 0
  }

  /** How many items of `work` supply parameter `k` of `t`. */
  function Owners(work: seq<Item>, t: Decl, k: nat): nat
  {
    if work == [] then 0 else Owners(work[..|work| - 1], t, k) + Owns(work[|work| - 1], t, k)
  }

  /** Every default slot of `t` has exactly one provider, and no other slot has any. */
  ghost predicate ExactlyProvided(work: seq<Item>, masks: Masks, t: Decl)
  {
    t in masks && forall k: nat :: Owners(work, t, k) == if k < |masks[t]| && masks[t][k] then 1 else 0
  }

  /** No slot of any target has two providers; masks fit their targets and are not empty. */
  ghost predicate Sound(work: seq<Item>, masks: Masks)
  {
    && (forall t, k: nat :: Owners(work, t, k) <= 1)
    && (forall i <- work :: ItemFits(i, masks))
  }

  ghost predicate ItemFits(i: Item, masks: Masks)
  {
    i.target in masks && |i.mask| == |masks[i.target]| && true in i.mask
  }

  lemma {:induction false} OwnersConcat(a: seq<Item>, b: seq<Item>, t: Decl, k: nat)
    ensures Owners(a + b, t, k) == Owners(a, t, k) + Owners(b, t, k)
  {
    if b == [] {
      assert a + b == a;
    } else {
      OwnersConcat(a, b[..|b| - 1], t, k);
      assert (a + b)[..|a + b| - 1] == a + b[..|b| - 1];
    }
  }

  lemma OwnersPush(a: seq<Item>, x: Item, t: Decl, k: nat)
    ensures Owners(a + [x], t, k) == Owners(a, t, k) + Owns(x, t, k)
  {
    assert (a + [x])[..|a|] == a;
  }

  lemma {:induction false} OwnersInsert(le: (Item, Item) -> bool, s: seq<Item>, x: Item, t: Decl, k: nat)
    ensures Owners(Insert(le, s, x), t, k) == Owners(s, t, k) + Owns(x, t, k)
  {
    if s == [] || le(s[|s| - 1], x) {
      OwnersPush(s, x, t, k);
    } else {
      var rest, last := s[..|s| - 1], s[|s| - 1];
      OwnersInsert(le, rest, x, t, k);
      OwnersPush(Insert(le, rest, x), last, t, k);
    }
  }

  lemma {:induction false} OwnersSort(le: (Item, Item) -> bool, s: seq<Item>, t: Decl, k: nat)
    ensures Owners(Sort(le, s), t, k) == Owners(s, t, k)
  {
    if s != [] {
      OwnersSort(le, s[..|s| - 1], t, k);
      OwnersInsert(le, Sort(le, s[..|s| - 1]), s[|s| - 1], t, k);
    }
  }

  lemma {:induction false} OwnerCounted(work: seq<Item>, i: nat, k: nat)
    requires i < |work|
    ensures Owners(work, work[i].target, k) >= Owns(work[i], work[i].target, k)
  {
    if i < |work| - 1 { OwnerCounted(work[..|work| - 1], i, k); }
  }

  /** A slot with one owner is owned by no two items, so no item is repeated. */
  lemma SoundDistinct(work: seq<Item>, masks: Masks)
    requires Sound(work, masks)
    ensures forall i, j :: 0 <= i < j < |work| ==> work[i] != work[j]
  {
    forall i, j | 0 <= i < j < |work| ensures work[i] != work[j] {
      if work[i] == work[j] {
        var x := work[i];
        assert x in work && ItemFits(x, masks);
        var k: nat :| k < |x.mask| && x.mask[k];
        var before, rest := work[..j], work[j + 1..];
        assert before[i] == x && work == before + [x] + rest;
        OwnersPush(before, x, x.target, k);
        OwnersConcat(before + [x], rest, x.target, k);
        OwnerCounted(before, i, k);
      }
    }
  }

  /** The order in which items are kept: by provider, target, relation and mask. */
  function Before(a: Item, b: Item): bool
  {
    if a.provider != b.provider then a.provider < b.provider
    else if a.target != b.target then a.target < b.target
    else if a.relation != b.relation then Rank(a.relation) < Rank(b.relation)
    else MaskBefore(a.mask, b.mask)
  }

  function Rank(r: Relation): nat
  {
    match r case SameDeclaration => 0 case ActualizedDeclaration => 1 case InheritedOverride => 2
  }

  predicate MaskBefore(a: seq<bool>, b: seq<bool>)
  {
    if a == [] then true
    else if b == [] then false
    else if a[0] != b[0] then !a[0]
    else MaskBefore(a[1..], b[1..])
  }

  function Tidy(work: seq<Item>): seq<Item> { Dedup(Sort(Before, work)) }

  /** `a` comes before `b`: by provider, then target, then from the declaration's own defaults to inherited
      ones, then the mask that is false where the two first differ. */
  ghost predicate Precedes(a: Item, b: Item)
  {
    a.provider <= b.provider && (a.provider == b.provider ==>
      a.target <= b.target && (a.target == b.target ==>
        && (a.relation.InheritedOverride? ==> b.relation.InheritedOverride?)
        && (b.relation.SameDeclaration? ==> a.relation.SameDeclaration?)
        && (a.relation == b.relation ==> a.mask <= b.mask || exists k :: FirstDifference(a.mask, b.mask, k))))
  }

  ghost predicate FirstDifference(a: seq<bool>, b: seq<bool>, k: int)
  {
    0 <= k < |a| && k < |b| && a[..k] == b[..k] && !a[k] && b[k]
  }

  lemma {:induction false} MaskBeforeIs(a: seq<bool>, b: seq<bool>)
    ensures MaskBefore(a, b) <==> a <= b || exists k :: FirstDifference(a, b, k)
  {
    if a != [] && b != [] && a[0] == b[0] {
      MaskBeforeIs(a[1..], b[1..]);
      if k :| FirstDifference(a[1..], b[1..], k) {
        assert a[..k + 1] == [a[0]] + a[1..][..k] && b[..k + 1] == [b[0]] + b[1..][..k];
        assert FirstDifference(a, b, k + 1);
      }
      if k :| FirstDifference(a, b, k) {
        assert a[1..][..k - 1] == a[..k][1..] && b[1..][..k - 1] == b[..k][1..];
        assert FirstDifference(a[1..], b[1..], k - 1);
      }
      assert a == [a[0]] + a[1..] && b == [b[0]] + b[1..];
    } else if a != [] && b != [] && !a[0] {
      assert FirstDifference(a, b, 0);
    }
  }

  lemma {:induction false} MaskBeforeTotal(a: seq<bool>, b: seq<bool>)
    ensures MaskBefore(a, b) || MaskBefore(b, a)
    ensures MaskBefore(a, b) && MaskBefore(b, a) ==> a == b
  {
    if a != [] && b != [] && a[0] == b[0] {
      MaskBeforeTotal(a[1..], b[1..]);
      assert a == [a[0]] + a[1..] && b == [b[0]] + b[1..];
    }
  }

  lemma {:induction false} MaskBeforeTransitive(a: seq<bool>, b: seq<bool>, c: seq<bool>)
    requires MaskBefore(a, b) && MaskBefore(b, c)
    ensures MaskBefore(a, c)
  {
    if a != [] && b != [] && c != [] && a[0] == b[0] == c[0] {
      MaskBeforeTransitive(a[1..], b[1..], c[1..]);
    }
  }

  lemma BeforeTotal()
    ensures TotalPreorder(Before) && forall a, b :: Before(a, b) && Before(b, a) ==> a == b
  {
    forall a, b ensures Before(a, b) || Before(b, a) ensures Before(a, b) && Before(b, a) ==> a == b {
      MaskBeforeTotal(a.mask, b.mask);
    }
    forall a, b, c | Before(a, b) && Before(b, c) ensures Before(a, c) {
      if MaskBefore(a.mask, b.mask) && MaskBefore(b.mask, c.mask) {
        MaskBeforeTransitive(a.mask, b.mask, c.mask);
      }
    }
  }

  /** Work is kept as a strictly ordered list of the same items: nothing else has these three properties. */
  lemma TidyOrdered(work: seq<Item>)
    ensures forall i :: i in Tidy(work) <==> i in work
    ensures forall i, j :: 0 <= i < j < |Tidy(work)| ==>
      Precedes(Tidy(work)[i], Tidy(work)[j]) && Tidy(work)[i] != Tidy(work)[j]
  {
    TidyMembers(work);
    BeforeTotal();
    SortSorted(Before, work);
    DedupOrdered(Before, Sort(Before, work));
    forall i, j | 0 <= i < j < |Tidy(work)| ensures Precedes(Tidy(work)[i], Tidy(work)[j]) {
      MaskBeforeIs(Tidy(work)[i].mask, Tidy(work)[j].mask);
    }
  }

  lemma TidyMembers(work: seq<Item>)
    ensures forall i :: i in Tidy(work) <==> i in work
  {
    assert forall i :: i in Sort(Before, work) <==> i in multiset(Sort(Before, work));
    assert forall i :: i in work <==> i in multiset(work);
  }

  /** Sorting and deduplicating sound work loses nothing. */
  lemma TidyKeeps(work: seq<Item>, masks: Masks)
    requires Sound(work, masks)
    ensures Sound(Tidy(work), masks) && multiset(Tidy(work)) == multiset(work)
    ensures forall t, k: nat :: Owners(Tidy(work), t, k) == Owners(work, t, k)
  {
    var sorted := Sort(Before, work);
    forall t, k: nat ensures Owners(sorted, t, k) == Owners(work, t, k) {
      OwnersSort(Before, work, t, k);
    }
    forall i | i in sorted ensures ItemFits(i, masks) {
      assert i in multiset(sorted);
    }
    SoundDistinct(sorted, masks);
    DedupDistinct(sorted);
  }

  // ---------------------------------------------------------------- expect and actual

  /** An `expect` declaration and the `actual` one matched with it. */
  datatype Pair = Pair(common: Decl, actual: Decl)

  ghost predicate DistinctActuals(pairs: seq<Pair>)
  {
    forall i, j :: 0 <= i < j < |pairs| ==> pairs[i].actual != pairs[j].actual
  }

  /** Both are callables of one arity and the `expect` one has a default. */
  predicate Mergeable(masks: Masks, p: Pair)
  {
    p.common in masks && p.actual in masks && |masks[p.common]| == |masks[p.actual]| && true in masks[p.common]
  }

  /** The actual keeps its own defaults; the expect supplies the others. */
  function PairItems(masks: Masks, p: Pair): seq<Item>
    requires Mergeable(masks, p)
  {
    UnlessEmpty(Item(p.actual, p.actual, SameDeclaration, masks[p.actual])) +
    UnlessEmpty(Item(p.actual, p.common, ActualizedDeclaration, Without(masks[p.common], masks[p.actual])))
  }

  function UnlessEmpty(item: Item): seq<Item> { if true in item.mask then [item] else [] }

  function MergePair(masks: Masks, p: Pair): (Masks, seq<Item>)
  {
    if !Mergeable(masks, p) then (masks, [])
    else (masks[p.actual := Or(masks[p.actual], masks[p.common])], PairItems(masks, p))
  }

  /** The headers and the work after every pair. */
  function MergeAll(masks: Masks, pairs: seq<Pair>): (Masks, seq<Item>)
  {
    if pairs == [] then (masks, [])
    else
      var (before, work) := MergeAll(masks, pairs[..|pairs| - 1]);
      var (after, items) := MergePair(before, pairs[|pairs| - 1]);
      (after, work + items)
  }

  method Actualize(headers: HeaderArena, pairs: seq<Pair>) returns (work: seq<Item>)
    modifies headers
    ensures (headers.masks, work) == MergeAll(old(headers.masks), pairs)
  {
    work := [];
    for i := 0 to |pairs|
      invariant (headers.masks, work) == MergeAll(old(headers.masks), pairs[..i])
    {
      var p := pairs[i];
      assert pairs[..i + 1][..i] == pairs[..i];
      ghost var done := work;
      assert done + [] == done;
      if p.common !in headers.masks || p.actual !in headers.masks {
        continue;
      }
      var common, own := headers.masks[p.common], headers.masks[p.actual];
      if |common| != |own| || true !in common {
        continue;
      }
      ghost var items := PairItems(headers.masks, p);
      headers.SetDefaults(p.actual, Or(common, own));
      assert Or(own, Or(common, own)) == Or(own, common);
      if true in own {
        work := work + [Item(p.actual, p.actual, SameDeclaration, own)];
      }
      var inherited := Without(common, own);
      if true in inherited {
        work := work + [Item(p.actual, p.common, ActualizedDeclaration, inherited)];
      }
      assert work == done + items;
    }
    assert pairs[..|pairs|] == pairs;
  }

  ghost function Actuals(pairs: seq<Pair>): set<Decl> { set p <- pairs :: p.actual }

  /** What merging owes: sound work for actuals only, each provided exactly when it got an item, and
      every other header as it was. */
  ghost predicate Merged(work: seq<Item>, masks: Masks, before: Masks, met: set<Decl>)
  {
    && Sound(work, masks)
    && SameShape(masks, before)
    && (forall d <- masks :: d !in Targets(work) ==> masks[d] == before[d])
    && Targets(work) <= met
    && (forall t <- Targets(work) :: ExactlyProvided(work, masks, t))
  }

  ghost predicate SameShape(masks: Masks, before: Masks)
  {
    masks.Keys == before.Keys && forall d <- masks :: |masks[d]| == |before[d]|
  }

  ghost function Targets(work: seq<Item>): set<Decl> { set i <- work :: i.target }

  lemma {:induction false} NoItemNoOwner(work: seq<Item>, t: Decl)
    requires t !in Targets(work)
    ensures forall k: nat :: Owners(work, t, k) == 0
  {
    if work != [] {
      assert work[|work| - 1] in work && Targets(work[..|work| - 1]) <= Targets(work);
      NoItemNoOwner(work[..|work| - 1], t);
    }
  }

  ghost function SlotCount(masks: Masks, p: Pair, t: Decl, k: nat): nat
    requires Mergeable(masks, p)
  {
    if t == p.actual && k < |masks[t]| && (masks[t][k] || masks[p.common][k]) then 1 else 0
  }

  lemma UnlessEmptyOwns(item: Item, t: Decl, k: nat)
    ensures Owners(UnlessEmpty(item), t, k) == Owns(item, t, k)
  {
    if true in item.mask {
      assert [] + [item] == [item];
      OwnersPush([], item, t, k);
    }
  }

  /** One pair's items share its slots out: the actual's own, and the rest of the expect's. */
  lemma PairItemsOwn(masks: Masks, p: Pair, t: Decl, k: nat)
    requires Mergeable(masks, p)
    ensures Owners(PairItems(masks, p), t, k) == SlotCount(masks, p, t, k)
  {
    var own, inherited := masks[p.actual], Without(masks[p.common], masks[p.actual]);
    var a, b := Item(p.actual, p.actual, SameDeclaration, own),
      Item(p.actual, p.common, ActualizedDeclaration, inherited);
    UnlessEmptyOwns(a, t, k);
    UnlessEmptyOwns(b, t, k);
    OwnersConcat(UnlessEmpty(a), UnlessEmpty(b), t, k);
  }

  lemma PairItemsFit(masks: Masks, p: Pair)
    requires Mergeable(masks, p)
    ensures Targets(PairItems(masks, p)) == {p.actual}
    ensures forall i <- PairItems(masks, p) :: ItemFits(i, masks)
  {
    var own, inherited := masks[p.actual], Without(masks[p.common], masks[p.actual]);
    var j :| 0 <= j < |masks[p.common]| && masks[p.common][j];
    assert own[j] || inherited[j];
    var items := PairItems(masks, p);
    assert forall i <- items :: i.target == p.actual && ItemFits(i, masks);
    assert items[0] in items;
  }

  lemma {:induction false} MergeAllSound(masks: Masks, pairs: seq<Pair>)
    requires DistinctActuals(pairs)
    ensures var (after, work) := MergeAll(masks, pairs); Merged(work, after, masks, Actuals(pairs))
  {
    if pairs != [] {
      var rest, p := pairs[..|pairs| - 1], pairs[|pairs| - 1];
      MergeAllSound(masks, rest);
      var (before, work) := MergeAll(masks, rest);
      forall q | q in Actuals(rest) ensures q in Actuals(pairs) && q != p.actual {
        var x :| x in rest && x.actual == q;
        assert x in pairs;
      }
      assert p in pairs;
      assert Actuals(pairs) == Actuals(rest) + {p.actual} by {
        assert pairs == rest + [p];
      }
      if Mergeable(before, p) {
        MergedStep(masks, before, work, p, Actuals(rest));
      } else {
        assert work + [] == work;
      }
    }
  }

  /** Adding a new target's items to merged work. */
  lemma MergedStep(masks: Masks, before: Masks, work: seq<Item>, p: Pair, met: set<Decl>)
    requires Merged(work, before, masks, met) && p.actual !in met && Mergeable(before, p)
    ensures var after := before[p.actual := Or(before[p.actual], before[p.common])];
      Merged(work + PairItems(before, p), after, masks, met + {p.actual})
  {
    var items := PairItems(before, p);
    var after := before[p.actual := Or(before[p.actual], before[p.common])];
    PairItemsFit(before, p);
    ExactlyMerged(before, p, after);
    AddedSound(work, items, before, after, p.actual);
    AddedProvided(work, items, before, after, p.actual);
    MergedAdded(masks, before, after, work, items, p.actual, met);
  }

  lemma MergedAdded(
      masks: Masks, before: Masks, after: Masks, work: seq<Item>, items: seq<Item>, t: Decl, met: set<Decl>)
    requires Merged(work, before, masks, met) && Targets(items) == {t} && t in before
    requires SameShape(after, before) && forall d <- after :: d != t ==> after[d] == before[d]
    requires Sound(work + items, after)
    requires forall u <- Targets(work) + {t} :: ExactlyProvided(work + items, after, u)
    ensures Merged(work + items, after, masks, met + {t})
  {
    TargetsConcat(work, items);
  }

  lemma ExactlyMerged(before: Masks, p: Pair, after: Masks)
    requires Mergeable(before, p) && after == before[p.actual := Or(before[p.actual], before[p.common])]
    ensures ExactlyProvided(PairItems(before, p), after, p.actual)
  {
    forall k: nat ensures Owners(PairItems(before, p), p.actual, k) == SlotCount(before, p, p.actual, k) {
      PairItemsOwn(before, p, p.actual, k);
    }
  }

  /** Other targets stay exactly provided, and the new one is if its items are. */
  lemma AddedProvided(work: seq<Item>, items: seq<Item>, before: Masks, after: Masks, t: Decl)
    requires t !in Targets(work) && Targets(items) <= {t}
    requires forall u <- Targets(work) :: ExactlyProvided(work, before, u) && u in after && after[u] == before[u]
    ensures forall u <- Targets(work) :: ExactlyProvided(work + items, after, u)
    ensures ExactlyProvided(items, after, t) ==> ExactlyProvided(work + items, after, t)
  {
    forall u, k: nat ensures Owners(work + items, u, k) == Owners(work, u, k) + Owners(items, u, k) {
      OwnersConcat(work, items, u, k);
    }
    NoItemNoOwner(work, t);
    forall u | u in Targets(work) ensures ExactlyProvided(work + items, after, u) {
      NoItemNoOwner(items, u);
    }
  }

  lemma TargetsConcat(a: seq<Item>, b: seq<Item>)
    ensures Targets(a + b) == Targets(a) + Targets(b)
  {
    assert forall i :: i in a + b <==> i in a || i in b;
  }

  /** Items for one target that had none, at most one to a slot, keep work sound. */
  lemma AddedSound(work: seq<Item>, items: seq<Item>, before: Masks, after: Masks, t: Decl)
    requires Sound(work, before) && t !in Targets(work) && Targets(items) <= {t}
    requires SameShape(after, before) && (forall i <- items :: ItemFits(i, before))
    requires forall k: nat :: Owners(items, t, k) <= 1
    ensures Sound(work + items, after)
  {
    NoItemNoOwner(work, t);
    forall u, k: nat ensures Owners(work + items, u, k) <= 1 {
      OwnersConcat(work, items, u, k);
      if u != t { NoItemNoOwner(items, u); }
    }
    forall i | i in work + items ensures ItemFits(i, after) {
      assert i in work || i in items;
      assert ItemFits(i, before);
    }
  }

  /** `i` is what pair `n` contributes: the defaults its actual had from the start, or those that only its
      `expect` has once the pairs before it are merged. */
  ghost predicate FromPair(masks: Masks, pairs: seq<Pair>, n: nat, i: Item)
    requires n < |pairs|
  {
    var (before, p) := (MergeAll(masks, pairs[..n]).0, pairs[n]);
    && Mergeable(before, p) && i.target == p.actual && p.actual in masks && before[p.actual] == masks[p.actual]
    && i in [
      Item(p.actual, p.actual, SameDeclaration, masks[p.actual]),
      Item(p.actual, p.common, ActualizedDeclaration, Without(before[p.common], masks[p.actual]))]
  }

  lemma {:induction false} MergeProviders(masks: Masks, pairs: seq<Pair>, i: Item)
    requires DistinctActuals(pairs) && i in MergeAll(masks, pairs).1
    ensures exists n: nat :: n < |pairs| && FromPair(masks, pairs, n, i)
  {
    var last := |pairs| - 1;
    var rest, p := pairs[..last], pairs[last];
    var (before, work) := MergeAll(masks, rest);
    if i in work {
      MergeProviders(masks, rest, i);
      var n: nat :| n < |rest| && FromPair(masks, rest, n, i);
      assert rest[..n] == pairs[..n] && FromPair(masks, pairs, n, i);
    } else {
      MergeAllSound(masks, rest);
      ActualUntouched(masks, rest, p.actual);
      assert FromPair(masks, pairs, last, i);
    }
  }

  lemma ProvidersMerged(masks: Masks, pairs: seq<Pair>)
    requires DistinctActuals(pairs)
    ensures forall i <- MergeAll(masks, pairs).1 ::
      i.provider == i.target || exists p <- pairs :: i.provider == p.common
  {
    forall i | i in MergeAll(masks, pairs).1
      ensures i.provider == i.target || exists p <- pairs :: i.provider == p.common
    {
      MergeProviders(masks, pairs, i);
      var n: nat :| n < |pairs| && FromPair(masks, pairs, n, i);
      assert pairs[n] in pairs;
    }
  }

  /** Merging changes actuals only. */
  lemma {:induction false} ActualUntouched(masks: Masks, pairs: seq<Pair>, d: Decl)
    requires forall p <- pairs :: p.actual != d
    ensures d in MergeAll(masks, pairs).0 <==> d in masks
    ensures d in masks ==> MergeAll(masks, pairs).0[d] == masks[d]
  {
    if pairs != [] {
      ActualUntouched(masks, pairs[..|pairs| - 1], d);
      assert pairs[|pairs| - 1] in pairs;
    }
  }

  /** Some item has `provider` supply parameter `k` of `t`. */
  ghost predicate Supplied(work: seq<Item>, t: Decl, k: nat, provider: Decl, relation: Relation)
  {
    exists i <- work :: i.target == t && i.provider == provider && i.relation == relation && Owns(i, t, k) == 1
  }

  /** What a pair owes its actual, whose marks were `own`: every default of the `expect` reaches an actual of
      its arity, supplied by whichever of the two declares it, the actual first. */
  ghost predicate Actualized(p: Pair, own: seq<bool>, common: seq<bool>, after: seq<bool>, work: seq<Item>)
  {
    if |common| == |own| && true in common then
      && |after| == |own|
      && forall k :: 0 <= k < |own| ==>
        && (after[k] <==> own[k] || common[k])
        && (own[k] ==> Supplied(work, p.actual, k, p.actual, SameDeclaration))
        && (common[k] && !own[k] ==> Supplied(work, p.actual, k, p.common, ActualizedDeclaration))
    else after == own && p.actual !in Targets(work)
  }

  /** The parameter marks of a declaration; one that is no callable has none to merge. */
  function MarksOf(masks: Masks, d: Decl): seq<bool> { if d in masks then masks[d] else [] }

  lemma PairActualized(masks: Masks, p: Pair, work: seq<Item>)
    requires p.actual in masks && p.actual !in Targets(work)
    ensures var (after, items) := MergePair(masks, p);
      p.actual in after && Actualized(p, masks[p.actual], MarksOf(masks, p.common), after[p.actual], work + items)
  {
    var (after, items) := MergePair(masks, p);
    TargetsConcat(work, items);
    if Mergeable(masks, p) {
      var own, common := masks[p.actual], masks[p.common];
      forall k | 0 <= k < |own|
        ensures own[k] ==> Supplied(work + items, p.actual, k, p.actual, SameDeclaration)
        ensures common[k] && !own[k] ==> Supplied(work + items, p.actual, k, p.common, ActualizedDeclaration)
      {
        if own[k] {
          assert Item(p.actual, p.actual, SameDeclaration, own) in items;
        } else if common[k] {
          assert Without(common, own)[k];
          assert Item(p.actual, p.common, ActualizedDeclaration, Without(common, own)) in items;
        }
      }
    }
  }

  /** Later pairs leave an actual they do not name alone. */
  lemma ActualizedStays(p: Pair, own: seq<bool>, common: seq<bool>, after: seq<bool>, work: seq<Item>, more: seq<Item>)
    requires Actualized(p, own, common, after, work) && p.actual !in Targets(more)
    ensures Actualized(p, own, common, after, work + more)
  {
    TargetsConcat(work, more);
    assert forall i <- work :: i in work + more;
  }

  lemma PairTargets(masks: Masks, p: Pair)
    ensures Targets(MergePair(masks, p).1) <= {p.actual}
    ensures forall d :: d != p.actual ==> MarksOf(MergePair(masks, p).0, d) == MarksOf(masks, d)
    ensures MergePair(masks, p).0.Keys == masks.Keys
  {
    if Mergeable(masks, p) { PairItemsFit(masks, p); }
  }

  lemma MergeAllPush(masks: Masks, pairs: seq<Pair>, p: Pair)
    ensures var (before, work) := MergeAll(masks, pairs);
      var (after, items) := MergePair(before, p);
      MergeAll(masks, pairs + [p]) == (after, work + items)
  {
    assert (pairs + [p])[..|pairs|] == pairs;
  }

  ghost predicate PairDone(masks: Masks, pairs: seq<Pair>, n: nat, common: seq<bool>)
    requires n < |pairs| && pairs[n].actual in masks
  {
    var ((after, work), p) := (MergeAll(masks, pairs), pairs[n]);
    p.actual in after && Actualized(p, masks[p.actual], common, after[p.actual], work)
  }

  lemma LastDone(masks: Masks, pairs: seq<Pair>, p: Pair)
    requires DistinctActuals(pairs) && (forall q <- pairs :: q.actual != p.actual) && p.actual in masks
    ensures PairDone(masks, pairs + [p], |pairs|, MarksOf(MergeAll(masks, pairs).0, p.common))
  {
    MergeAllSound(masks, pairs);
    ActualUntouched(masks, pairs, p.actual);
    MergeAllPush(masks, pairs, p);
    PairActualized(MergeAll(masks, pairs).0, p, MergeAll(masks, pairs).1);
  }

  lemma EarlierDone(masks: Masks, pairs: seq<Pair>, n: nat, p: Pair, common: seq<bool>)
    requires n < |pairs| && pairs[n].actual in masks && pairs[n].actual != p.actual
    requires PairDone(masks, pairs, n, common)
    ensures PairDone(masks, pairs + [p], n, common)
  {
    var (before, work) := MergeAll(masks, pairs);
    MergeAllPush(masks, pairs, p);
    PairTargets(before, p);
    ActualizedStays(
      pairs[n], masks[pairs[n].actual], common, before[pairs[n].actual], work, MergePair(before, p).1);
  }

  lemma DistinctBefore(pairs: seq<Pair>)
    requires DistinctActuals(pairs) && pairs != []
    ensures var (rest, last) := (pairs[..|pairs| - 1], pairs[|pairs| - 1]);
      DistinctActuals(rest) && forall p <- rest :: p.actual != last.actual
  {
    var rest := pairs[..|pairs| - 1];
    forall p | p in rest ensures p.actual != pairs[|pairs| - 1].actual {
      var i :| 0 <= i < |rest| && rest[i] == p;
      assert pairs[i] == p;
    }
  }

  /** Every pair of callables does what it owes, with the marks that its `expect` has when it is met. */
  lemma {:induction false} PairsActualize(masks: Masks, pairs: seq<Pair>, n: nat)
    requires DistinctActuals(pairs) && n < |pairs| && pairs[n].actual in masks
    ensures PairDone(masks, pairs, n, MarksOf(MergeAll(masks, pairs[..n]).0, pairs[n].common))
    decreases |pairs|
  {
    var last := |pairs| - 1;
    var rest, p := pairs[..last], pairs[n];
    MergeAllPush(masks, rest, pairs[last]);
    assert pairs == rest + [pairs[last]];
    DistinctBefore(pairs);
    if n == last {
      LastDone(masks, rest, p);
    } else {
      assert rest[..n] == pairs[..n];
      PairsActualize(masks, rest, n);
      EarlierDone(masks, rest, n, pairs[last], MarksOf(MergeAll(masks, rest[..n]).0, p.common));
    }
  }

  /** No actual is the `expect` of another pair. */
  ghost predicate NoChains(pairs: seq<Pair>)
  {
    forall i, j :: 0 <= i < |pairs| && 0 <= j < |pairs| && i != j ==> pairs[i].actual != pairs[j].common
  }

  /** From the headers alone: every pair of callables of one arity hands the defaults of the `expect` to the
      actual, and says which of the two supplies each. */
  lemma DefaultsActualized(masks: Masks, pairs: seq<Pair>, n: nat)
    requires DistinctActuals(pairs) && NoChains(pairs) && n < |pairs| && pairs[n].actual in masks
    ensures PairDone(masks, pairs, n, MarksOf(masks, pairs[n].common))
  {
    PairsActualize(masks, pairs, n);
    ActualUntouched(masks, pairs[..n], pairs[n].common);
  }

  // ---------------------------------------------------------------- self-owned defaults

  function Involved(inherited: seq<Item>): set<Decl>
  {
    (set i <- inherited :: i.provider) + (set i <- inherited :: i.target)
  }

  function OwnItem(masks: Masks, d: Decl, skip: set<Decl>): seq<Item>
  {
    if d in skip || d !in masks then [] else UnlessEmpty(Item(d, d, SameDeclaration, masks[d]))
  }

  function OwnItems(masks: Masks, stubs: seq<Decl>, skip: set<Decl>): seq<Item>
  {
    if stubs == [] then [] else OwnItems(masks, stubs[..|stubs| - 1], skip) + OwnItem(masks, stubs[|stubs| - 1], skip)
  }

  method SignatureDefaultWork(headers: HeaderArena, stubs: seq<Decl>, inherited: seq<Item>) returns (work: seq<Item>)
    ensures work == Tidy(OwnItems(headers.masks, stubs, Involved(inherited)) + inherited)
  {
    var skip := Involved(inherited);
    work := [];
    for i := 0 to |stubs|
      invariant work == OwnItems(headers.masks, stubs[..i], skip)
    {
      assert stubs[..i + 1][..i] == stubs[..i];
      work := work + OwnItem(headers.masks, stubs[i], skip);
    }
    assert stubs[..|stubs|] == stubs;
    work := Tidy(work + inherited);
  }

  ghost predicate DistinctDecls(ds: seq<Decl>)
  {
    forall i, j :: 0 <= i < j < |ds| ==> ds[i] != ds[j]
  }

  ghost function OwnCount(masks: Masks, stubs: seq<Decl>, skip: set<Decl>, t: Decl, k: nat): nat
  {
    if t in stubs && t !in skip && t in masks && k < |masks[t]| && masks[t][k] then 1 else 0
  }

  lemma {:induction false} OwnItemsOwn(masks: Masks, stubs: seq<Decl>, skip: set<Decl>, t: Decl, k: nat)
    requires DistinctDecls(stubs)
    ensures Owners(OwnItems(masks, stubs, skip), t, k) == OwnCount(masks, stubs, skip, t, k)
  {
    if stubs != [] {
      var rest, d := stubs[..|stubs| - 1], stubs[|stubs| - 1];
      OwnItemsOwn(masks, rest, skip, t, k);
      OwnersConcat(OwnItems(masks, rest, skip), OwnItem(masks, d, skip), t, k);
      OwnItemOwns(masks, d, skip, t, k);
      assert stubs == rest + [d] && d !in rest;
      OwnCountPush(masks, rest, d, skip, t, k);
    }
  }

  lemma OwnCountPush(masks: Masks, rest: seq<Decl>, d: Decl, skip: set<Decl>, t: Decl, k: nat)
    requires d !in rest
    ensures OwnCount(masks, rest + [d], skip, t, k) ==
      OwnCount(masks, rest, skip, t, k) + OwnCount(masks, [d], skip, t, k)
  {
  }

  lemma OwnItemOwns(masks: Masks, d: Decl, skip: set<Decl>, t: Decl, k: nat)
    ensures Owners(OwnItem(masks, d, skip), t, k) == OwnCount(masks, [d], skip, t, k)
  {
    if d !in skip && d in masks {
      UnlessEmptyOwns(Item(d, d, SameDeclaration, masks[d]), t, k);
    }
  }

  lemma {:induction false} OwnItemsFit(masks: Masks, stubs: seq<Decl>, skip: set<Decl>)
    ensures forall i <- OwnItems(masks, stubs, skip) :: ItemFits(i, masks) && i.target !in skip
  {
    if stubs != [] {
      OwnItemsFit(masks, stubs[..|stubs| - 1], skip);
    }
  }

  /** After merging and the enumeration of self-owned defaults, every default slot of a callable that
      is no pair's `expect` has exactly one provider, and no slot of any callable has two. */
  lemma InitialWorkSound(masks: Masks, pairs: seq<Pair>, stubs: seq<Decl>)
    requires DistinctActuals(pairs) && DistinctDecls(stubs)
    ensures var (after, inherited) := MergeAll(masks, pairs);
      var work := Tidy(OwnItems(after, stubs, Involved(inherited)) + inherited);
      && Sound(work, after)
      && forall t <- stubs :: t in after && (forall p <- pairs :: p.common != t) ==> ExactlyProvided(work, after, t)
  {
    var (after, inherited) := MergeAll(masks, pairs);
    var own := OwnItems(after, stubs, Involved(inherited));
    MergeAllSound(masks, pairs);
    ListedSound(after, stubs, inherited);
    TidyKeeps(own + inherited, after);
    forall t | t in stubs && t in after && (forall p <- pairs :: p.common != t)
      ensures ExactlyProvided(Tidy(own + inherited), after, t)
    {
      ProvidersMerged(masks, pairs);
      ListedProvided(after, stubs, inherited, t);
    }
  }

  lemma OwnersListed(masks: Masks, stubs: seq<Decl>, inherited: seq<Item>, t: Decl, k: nat)
    requires DistinctDecls(stubs)
    ensures var skip := Involved(inherited);
      Owners(OwnItems(masks, stubs, skip) + inherited, t, k) ==
        OwnCount(masks, stubs, skip, t, k) + Owners(inherited, t, k)
    ensures t !in Targets(inherited) ==> Owners(inherited, t, k) == 0
  {
    OwnersConcat(OwnItems(masks, stubs, Involved(inherited)), inherited, t, k);
    OwnItemsOwn(masks, stubs, Involved(inherited), t, k);
    if t !in Targets(inherited) { NoItemNoOwner(inherited, t); }
  }

  /** Self-owned items and inherited ones have no target in common. */
  lemma ListedSound(masks: Masks, stubs: seq<Decl>, inherited: seq<Item>)
    requires DistinctDecls(stubs) && Sound(inherited, masks)
    ensures Sound(OwnItems(masks, stubs, Involved(inherited)) + inherited, masks)
  {
    var own := OwnItems(masks, stubs, Involved(inherited));
    OwnItemsFit(masks, stubs, Involved(inherited));
    assert Targets(inherited) <= Involved(inherited);
    forall t, k: nat ensures Owners(own + inherited, t, k) <= 1 {
      OwnersListed(masks, stubs, inherited, t, k);
    }
    assert forall i <- own + inherited :: i in own || i in inherited;
  }

  lemma ListedProvided(masks: Masks, stubs: seq<Decl>, inherited: seq<Item>, t: Decl)
    requires DistinctDecls(stubs) && t in stubs && t in masks
    requires forall i <- inherited :: i.provider == t ==> i.target == t
    requires t in Targets(inherited) ==> ExactlyProvided(inherited, masks, t)
    ensures ExactlyProvided(OwnItems(masks, stubs, Involved(inherited)) + inherited, masks, t)
  {
    var own := OwnItems(masks, stubs, Involved(inherited));
    assert t in Involved(inherited) <==> t in Targets(inherited);
    forall k: nat
      ensures Owners(own + inherited, t, k) == if k < |masks[t]| && masks[t][k] then 1 else 0
    {
      OwnersListed(masks, stubs, inherited, t, k);
    }
  }

  lemma {:induction false} OwnItemsSupply(masks: Masks, stubs: seq<Decl>, skip: set<Decl>, t: Decl, k: nat)
    requires t in stubs && t !in skip && t in masks && k < |masks[t]| && masks[t][k]
    ensures Supplied(OwnItems(masks, stubs, skip), t, k, t, SameDeclaration)
  {
    var rest, d := stubs[..|stubs| - 1], stubs[|stubs| - 1];
    var item := Item(t, t, SameDeclaration, masks[t]);
    assert item.mask[k];
    if d == t {
      assert item in OwnItem(masks, t, skip);
    } else {
      OwnItemsSupply(masks, rest, skip, t, k);
      assert forall i <- OwnItems(masks, rest, skip) :: i in OwnItems(masks, stubs, skip);
    }
    assert Owns(item, t, k) == 1;
  }

  /** Who supplies a default slot of `t` to begin with: `t` itself if it declares the default, and otherwise
      the `expect` of its pair. */
  ghost predicate SuppliedFirst(masks: Masks, pairs: seq<Pair>, t: Decl, k: nat, work: seq<Item>)
    requires t in masks && k < |masks[t]|
  {
    && (masks[t][k] ==> Supplied(work, t, k, t, SameDeclaration))
    && forall p <- pairs :: p.actual == t && |MarksOf(masks, p.common)| == |masks[t]| ==>
      MarksOf(masks, p.common)[k] && !masks[t][k] ==> Supplied(work, t, k, p.common, ActualizedDeclaration)
  }

  lemma SuppliedAmong(work: seq<Item>, all: seq<Item>, t: Decl, k: nat, provider: Decl, relation: Relation)
    requires Supplied(work, t, k, provider, relation) && forall i <- work :: i in all
    ensures Supplied(all, t, k, provider, relation)
  {
  }

  /** After enumeration each default slot is supplied by the declaration that has it in the source. */
  lemma InitialProviders(masks: Masks, pairs: seq<Pair>, stubs: seq<Decl>, t: Decl, k: nat)
    requires DistinctActuals(pairs) && NoChains(pairs) && DistinctDecls(stubs)
    requires t in stubs && t in masks && k < |masks[t]| && forall p <- pairs :: p.common != t
    ensures var (after, inherited) := MergeAll(masks, pairs);
      SuppliedFirst(masks, pairs, t, k, Tidy(OwnItems(after, stubs, Involved(inherited)) + inherited))
  {
    var (after, inherited) := MergeAll(masks, pairs);
    var own := OwnItems(after, stubs, Involved(inherited));
    var work := Tidy(own + inherited);
    TidyMembers(own + inherited);
    if n :| 0 <= n < |pairs| && pairs[n].actual == t {
      PairSupplies(masks, pairs, stubs, n, k, work);
    } else {
      EnumeratedExactly(masks, pairs, stubs, t);
    }
  }

  lemma PairSupplies(masks: Masks, pairs: seq<Pair>, stubs: seq<Decl>, n: nat, k: nat, work: seq<Item>)
    requires DistinctActuals(pairs) && NoChains(pairs) && n < |pairs| && pairs[n].actual in stubs
    requires pairs[n].actual in masks && k < |masks[pairs[n].actual]|
    requires forall p <- pairs :: p.common != pairs[n].actual
    requires var (after, inherited) := MergeAll(masks, pairs);
      forall i :: i in OwnItems(after, stubs, Involved(inherited)) + inherited ==> i in work
    ensures SuppliedFirst(masks, pairs, pairs[n].actual, k, work)
  {
    var (after, inherited) := MergeAll(masks, pairs);
    var t := pairs[n].actual;
    DefaultsActualized(masks, pairs, n);
    ProvidersMerged(masks, pairs);
    if t !in Targets(inherited) && masks[t][k] {
      OwnItemsSupply(after, stubs, Involved(inherited), t, k);
    }
    forall p | p in pairs && p.actual == t ensures p == pairs[n] {
    }
  }

  /** `t` supplies a default that some actual of its arity lacks. */
  ghost predicate ProvidesActual(masks: Masks, pairs: seq<Pair>, t: Decl)
    requires t in masks
  {
    exists n: nat, k: nat :: n < |pairs| && pairs[n].common == t && Lacks(masks, t, pairs[n].actual, k)
  }

  predicate Lacks(masks: Masks, t: Decl, actual: Decl, k: nat)
    requires t in masks
  {
    actual in masks && |masks[actual]| == |masks[t]| && k < |masks[t]| && masks[t][k] && !masks[actual][k]
  }

  lemma ProvidesInvolved(masks: Masks, pairs: seq<Pair>, t: Decl)
    requires DistinctActuals(pairs) && NoChains(pairs) && t in masks && forall p <- pairs :: p.actual != t
    ensures ProvidesActual(masks, pairs, t) <==> t in Involved(MergeAll(masks, pairs).1)
  {
    var inherited := MergeAll(masks, pairs).1;
    if ProvidesActual(masks, pairs, t) {
      var n: nat, k: nat :| n < |pairs| && pairs[n].common == t && Lacks(masks, t, pairs[n].actual, k);
      DefaultsActualized(masks, pairs, n);
      assert Supplied(inherited, pairs[n].actual, k, t, ActualizedDeclaration);
    } else if t in Involved(inherited) {
      MergeAllSound(masks, pairs);
      var i :| i in inherited && (i.provider == t || i.target == t);
      assert i.target in Actuals(pairs) && ItemFits(i, MergeAll(masks, pairs).0);
      LackedBy(masks, pairs, i);
    }
  }

  lemma LackedBy(masks: Masks, pairs: seq<Pair>, i: Item)
    requires DistinctActuals(pairs) && NoChains(pairs) && i in MergeAll(masks, pairs).1
    requires i.provider in masks && (forall p <- pairs :: p.actual != i.provider) && true in i.mask
    ensures ProvidesActual(masks, pairs, i.provider)
  {
    MergeProviders(masks, pairs, i);
    var n: nat :| n < |pairs| && FromPair(masks, pairs, n, i);
    assert pairs[n] in pairs && i.provider == pairs[n].common;
    ActualUntouched(masks, pairs[..n], pairs[n].common);
    var k: nat :| k < |i.mask| && i.mask[k];
    assert Lacks(masks, i.provider, pairs[n].actual, k);
  }

  /** An `expect` that supplies an actual has no work of its own; any other declaration with defaults
      supplies them itself. */
  lemma EnumeratedExactly(masks: Masks, pairs: seq<Pair>, stubs: seq<Decl>, t: Decl)
    requires DistinctActuals(pairs) && NoChains(pairs)
    requires t in stubs && t in masks && forall p <- pairs :: p.actual != t
    ensures var (after, inherited) := MergeAll(masks, pairs);
      var work := Tidy(OwnItems(after, stubs, Involved(inherited)) + inherited);
      if ProvidesActual(masks, pairs, t) then t !in Targets(work)
      else forall k: nat :: k < |masks[t]| && masks[t][k] ==> Supplied(work, t, k, t, SameDeclaration)
  {
    var (after, inherited) := MergeAll(masks, pairs);
    var own := OwnItems(after, stubs, Involved(inherited));
    TidyMembers(own + inherited);
    ProvidesInvolved(masks, pairs, t);
    ActualUntouched(masks, pairs, t);
    if ProvidesActual(masks, pairs, t) {
      OwnItemsFit(after, stubs, Involved(inherited));
      MergeAllSound(masks, pairs);
      assert t !in Targets(inherited);
    } else {
      forall k: nat | k < |masks[t]| && masks[t][k] ensures Supplied(Tidy(own + inherited), t, k, t, SameDeclaration) {
        OwnItemsSupply(after, stubs, Involved(inherited), t, k);
      }
    }
  }
}
