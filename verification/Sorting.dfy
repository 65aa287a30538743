/** The library sorts the source calls, as functions: a stable sort by a comparison, and the removal of
    elements equal to their predecessor. */
module Sorting {

  /** `x` after every element of `s` from the back that is not above it. */
  function Insert<T>(le: (T, T) -> bool, s: seq<T>, x: T): (r: seq<T>)
    ensures multiset(r) == multiset(s) + multiset{x}
  {
    if s == [] || le(s[|s| - 1], x) then s + [x]
    else
      assert s == s[..|s| - 1] + [s[|s| - 1]];
      Insert(le, s[..|s| - 1], x) + [s[|s| - 1]]
  }

  function Sort<T>(le: (T, T) -> bool, s: seq<T>): (r: seq<T>)
    ensures multiset(r) == multiset(s)
  {
    if s == [] then []
    else
      assert s == s[..|s| - 1] + [s[|s| - 1]];
      Insert(le, Sort(le, s[..|s| - 1]), s[|s| - 1])
  }

  function Dedup<T(==,!new)>(s: seq<T>): (r: seq<T>)
    ensures forall x :: x in r <==> x in s
    ensures |r| <= |s| && (s != [] ==> r != [] && r[|r| - 1] == s[|s| - 1])
  {
    if |s| <= 1 then s
    else
      assert s == s[..|s| - 1] + [s[|s| - 1]];
      var before := Dedup(s[..|s| - 1]);
      if s[|s| - 1] == s[|s| - 2] then before else before + [s[|s| - 1]]
  }

  ghost predicate TotalPreorder<T(!new)>(le: (T, T) -> bool)
  {
    && (forall x, y :: le(x, y) || le(y, x))
    && (forall x, y, z :: le(x, y) && le(y, z) ==> le(x, z))
  }

  ghost predicate SortedBy<T>(le: (T, T) -> bool, s: seq<T>)
  {
    forall i, j :: 0 <= i < j < |s| ==> le(s[i], s[j])
  }

  lemma {:induction false} InsertSorted<T(!new)>(le: (T, T) -> bool, s: seq<T>, x: T)
    requires TotalPreorder(le) && SortedBy(le, s)
    ensures SortedBy(le, Insert(le, s, x))
  {
    if s != [] && !le(s[|s| - 1], x) {
      var last, rest := s[|s| - 1], s[..|s| - 1];
      InsertSorted(le, rest, x);
      var r := Insert(le, rest, x);
      forall y | y in r ensures le(y, last) {
        assert y in multiset(r);
        if y != x { assert y in rest; }
      }
    } else {
      forall i | 0 <= i < |s| ensures le(s[i], x) {
        if i < |s| - 1 { assert le(s[i], s[|s| - 1]); }
      }
    }
  }

  lemma {:induction false} SortSorted<T(!new)>(le: (T, T) -> bool, s: seq<T>)
    requires TotalPreorder(le)
    ensures SortedBy(le, Sort(le, s))
  {
    if s != [] {
      SortSorted(le, s[..|s| - 1]);
      InsertSorted(le, Sort(le, s[..|s| - 1]), s[|s| - 1]);
    }
  }

  /** Distinct neighbours are all kept. */
  lemma {:induction false} DedupDistinct<T(!new)>(s: seq<T>)
    requires forall i, j :: 0 <= i < j < |s| ==> s[i] != s[j]
    ensures Dedup(s) == s
  {
    if |s| > 1 {
      DedupDistinct(s[..|s| - 1]);
      assert s == s[..|s| - 1] + [s[|s| - 1]];
    }
  }

  /** In a sorted list equal elements are neighbours, so each is kept once. */
  lemma {:induction false} DedupOrdered<T(!new)>(le: (T, T) -> bool, s: seq<T>)
    requires SortedBy(le, s) && forall x, y :: le(x, y) && le(y, x) ==> x == y
    ensures SortedBy(le, Dedup(s)) && forall i, j :: 0 <= i < j < |Dedup(s)| ==> Dedup(s)[i] != Dedup(s)[j]
  {
    if |s| > 1 {
      var rest, last := s[..|s| - 1], s[|s| - 1];
      DedupOrdered(le, rest);
      var before := Dedup(rest);
      forall i | 0 <= i < |before| ensures le(before[i], last) && (before[i] == last ==> s[|s| - 2] == last) {
        assert before[i] in before;
        var k :| 0 <= k < |rest| && rest[k] == before[i];
        assert le(s[k], last);
        if k < |s| - 2 { assert le(s[k], s[|s| - 2]) && le(s[|s| - 2], last); }
      }
    }
  }

  /** The elements of `s` that the order does not tell from `x`, as they come. */
  function Alike<T>(le: (T, T) -> bool, s: seq<T>, x: T): seq<T>
  {
    if s == [] then []
    else
      var last := s[|s| - 1];
      Alike(le, s[..|s| - 1], x) + if le(last, x) && le(x, last) then [last] else []
  }

  lemma AlikePush<T>(le: (T, T) -> bool, s: seq<T>, y: T, x: T)
    ensures Alike(le, s + [y], x) == Alike(le, s, x) + if le(y, x) && le(x, y) then [y] else []
  {
    assert (s + [y])[..|s|] == s;
  }

  lemma {:induction false} InsertStable<T(!new)>(le: (T, T) -> bool, s: seq<T>, y: T, x: T)
    requires TotalPreorder(le) && SortedBy(le, s)
    ensures Alike(le, Insert(le, s, y), x) == Alike(le, s + [y], x)
  {
    if s != [] && !le(s[|s| - 1], y) {
      var last, rest := s[|s| - 1], s[..|s| - 1];
      InsertStable(le, rest, y, x);
      AlikePush(le, Insert(le, rest, y), last, x);
      AlikePush(le, rest, y, x);
      AlikePush(le, s, y, x);
      assert !(le(last, x) && le(x, y));
    }
  }

  /** Sorting is stable: elements the order does not tell apart stay in the order they had. */
  lemma {:induction false} SortStable<T(!new)>(le: (T, T) -> bool, s: seq<T>, x: T)
    requires TotalPreorder(le)
    ensures Alike(le, Sort(le, s), x) == Alike(le, s, x)
  {
    if s != [] {
      var rest, last := s[..|s| - 1], s[|s| - 1];
      SortStable(le, rest, x);
      SortSorted(le, rest);
      InsertStable(le, Sort(le, rest), last, x);
      AlikePush(le, Sort(le, rest), last, x);
    }
  }
}
