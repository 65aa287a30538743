/** The stride sampler of the conformance corpus (`evenly_sample`, src/conformance.rs:52-73), with products
    taken in the 64-bit `usize` the source computes them in. */
module Sampling {

  /** Products wrap here. */
  const USIZE: nat := 0x1_0000_0000_0000_0000

  /** The index the `k`-th sample is due at. */
  function Stride(k: nat, total: nat, limit: nat): nat
    requires limit > 0
  {
    k * total / limit
  }

  /** A non-zero multiple is at least one `limit` away from zero. */
  lemma Scale(n: int, limit: int)
    requires limit > 0
    ensures n >= 1 ==> n * limit >= limit
    ensures n <= -1 ==> n * limit <= -limit
  {
    assert n * limit == (n - 1) * limit + limit == (n + 1) * limit - limit;
    if n >= 1 {
      assert (n - 1) * limit >= 0;
    } else if n <= -1 {
      assert (-(n + 1)) * limit >= 0;
      assert (-(n + 1)) * limit == -((n + 1) * limit);
    }
  }

  lemma QuotientMonotone(a: nat, b: nat, limit: nat)
    requires limit > 0 && a <= b
    ensures a / limit <= b / limit
  {
    var p, q := a / limit, b / limit;
    assert a == p * limit + a % limit && b == q * limit + b % limit;
    assert (q - p) * limit == q * limit - p * limit;
    Scale(q - p, limit);
  }

  lemma QuotientOf(q: nat, r: nat, limit: nat)
    requires limit > 0 && r < limit
    ensures (q * limit + r) / limit == q
  {
    var x := q * limit + r;
    var p := x / limit;
    assert x == p * limit + x % limit;
    assert (q - p) * limit == q * limit - p * limit;
    Scale(q - p, limit);
  }

  lemma SumOf(p: nat, q: nat, r: nat, limit: nat)
    requires r < 2 * limit
    ensures (p * limit + q * limit + r) / limit in {p + q, p + q + 1}
  {
    assert p * limit + q * limit == (p + q) * limit;
    if r < limit {
      QuotientOf(p + q, r, limit);
    } else {
      assert (p + q + 1) * limit == (p + q) * limit + limit;
      QuotientOf(p + q + 1, r - limit, limit);
    }
  }

  lemma QuotientSum(a: nat, b: nat, limit: nat)
    requires limit > 0
    ensures (a + b) / limit - a / limit in {b / limit, b / limit + 1}
  {
    SumOf(a / limit, b / limit, a % limit + b % limit, limit);
    assert a + b == a / limit * limit + b / limit * limit + (a % limit + b % limit);
  }

  /** Consecutive samples are as evenly spaced as whole indices allow. */
  lemma StrideEven(k: nat, total: nat, limit: nat)
    requires limit > 0
    ensures Stride(k + 1, total, limit) - Stride(k, total, limit) in {total / limit, total / limit + 1}
  {
    assert (k + 1) * total == k * total + total;
    QuotientSum(k * total, total, limit);
  }

  lemma StrideInRange(k: nat, total: nat, limit: nat)
    requires k < limit <= total
    ensures Stride(k, total, limit) < total
  {
    var d := limit - k;
    assert d * total >= total by { Scale(d, total); }
    assert (limit - k) * total == limit * total - k * total;
    assert k * total <= total * limit - total;
    assert total * limit - total <= (total - 1) * limit + (limit - 1) by {
      assert (total - 1) * limit == total * limit - limit;
    }
    QuotientMonotone(k * total, (total - 1) * limit + (limit - 1), limit);
    QuotientOf(total - 1, limit - 1, limit);
  }

  /** No item is taken twice: due indices strictly increase and stay inside the list. */
  lemma {:induction false} StrideIncreases(j: nat, k: nat, total: nat, limit: nat)
    requires j < k < limit <= total
    ensures Stride(j, total, limit) < Stride(k, total, limit) < total
    decreases k
  {
    StrideInRange(k, total, limit);
    StrideEven(k - 1, total, limit);
    assert total / limit >= 1 by { QuotientMonotone(limit, total, limit); }
    if j < k - 1 {
      StrideIncreases(j, k - 1, total, limit);
    }
  }

  /** Whether the product behind the `k`-th index is the exact one. */
  predicate Exact(k: nat, total: nat) { k * total < USIZE }

  /** The index the `k`-th sample is due at, as computed. */
  function Due(k: nat, total: nat, limit: nat): nat
    requires limit > 0
  {
    k * total % USIZE / limit
  }

  lemma ProductMonotone(a: nat, b: nat, x: nat)
    requires a <= b
    ensures a * x <= b * x
  {
    assert b * x - a * x == (b - a) * x;
  }

  lemma ExactBelow(j: nat, k: nat, total: nat)
    requires j <= k && Exact(k, total)
    ensures Exact(j, total)
  {
    ProductMonotone(j, k, total);
  }

  lemma DueExact(k: nat, total: nat, limit: nat)
    requires limit > 0 && Exact(k, total)
    ensures Due(k, total, limit) == Stride(k, total, limit)
  {
  }

  /** The first product to wrap falls back to an index already passed, so nothing is due from there on. */
  lemma WrapFallsBack(k: nat, total: nat, limit: nat)
    requires k > 0 && limit > 0 && total < USIZE && Exact(k - 1, total) && !Exact(k, total)
    ensures Due(k, total, limit) <= Stride(k - 1, total, limit)
  {
    assert k * total == (k - 1) * total + total;
    assert k * total % USIZE == k * total - USIZE;
    QuotientMonotone(k * total % USIZE, (k - 1) * total, limit);
  }

  lemma StrideRises(k: nat, total: nat, limit: nat)
    requires 0 < limit <= total
    ensures Stride(k, total, limit) < Stride(k + 1, total, limit)
  {
    StrideEven(k, total, limit);
    QuotientMonotone(limit, total, limit);
  }

  /** Where the counter stands before `index`: the last sample is behind it, the next one is not. */
  ghost predicate Awaits(k: nat, total: nat, limit: nat, index: nat)
    requires limit > 0
  {
    && (k > 0 ==> Exact(k - 1, total) && Stride(k - 1, total, limit) < index)
    && (k < limit && Exact(k, total) ==> index <= Stride(k, total, limit))
  }

  /** An index that is due is due exactly; one that is not leaves the counter waiting. */
  lemma DueStep(k: nat, total: nat, limit: nat, index: nat)
    requires 0 < limit < total < USIZE && k < limit && Awaits(k, total, limit, index)
    ensures index == Due(k, total, limit) ==> Exact(k, total) && index == Stride(k, total, limit)
    ensures index == Due(k, total, limit) ==> Awaits(k + 1, total, limit, index + 1)
    ensures index != Due(k, total, limit) ==> Awaits(k, total, limit, index + 1)
  {
    StrideRises(k, total, limit);
    if Exact(k, total) {
      DueExact(k, total, limit);
    } else if k > 0 {
      WrapFallsBack(k, total, limit);
    }
  }

  /** The `k`-th item is the one due `k`-th, as long as no product wraps. */
  ghost predicate SampledBy<T>(items: seq<T>, limit: nat, sample: seq<T>)
    requires 0 < limit <= |items|
  {
    && |sample| <= limit
    && forall k :: 0 <= k < |sample| ==>
      k * |items| < USIZE && k * |items| / limit < |items| && sample[k] == items[k * |items| / limit]
  }

  /** One counter compared with one index finds every due item until a product wraps, and none after: the
      sample is complete if and only if no product below the limit wraps. */
  method EvenlySample<T>(items: seq<T>, limit: nat) returns (sample: seq<T>)
    requires |items| < USIZE && limit < USIZE
    ensures limit == 0 ==> sample == []
    ensures 0 < limit && |items| <= limit ==> sample == items
    ensures 0 < limit < |items| ==> SampledBy(items, limit, sample)
    ensures 0 < limit < |items| ==> (|sample| == limit <==> Exact(limit - 1, |items|))
  {
    if limit == 0 {
      return [];
    }
    if limit >= |items| {
      return items;
    }
    var total := |items|;
    sample := [];
    for index := 0 to total
      invariant SampledBy(items, limit, sample)
      invariant Awaits(|sample|, total, limit, index)
    {
      if |sample| < limit {
        DueStep(|sample|, total, limit, index);
      }
      if |sample| < limit && index == Due(|sample|, total, limit) {
        sample := sample + [items[index]];
      }
    }
    if |sample| < limit {
      StrideInRange(|sample|, total, limit);
      if Exact(limit - 1, total) { ExactBelow(|sample|, limit - 1, total); }
    }
  }
}
