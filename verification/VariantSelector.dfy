/** Deterministic choice among weighted variants: 10,000 buckets walked along the cumulated weights. */
module VariantSelection {
  import opened Options

  const BUCKETS: int := 10000

  function Total(weights: seq<real>): real
  {
    Cumulative(weights, |weights|)
  }

  /** The sum of the first `n` weights. */
  function Cumulative(weights: seq<real>, n: nat): real
    requires n <= |weights|
  {
    if n == 0 then 0.0 else Cumulative(weights, n - 1) + weights[n - 1]
  }

  predicate NonNegative(weights: seq<real>)
  {
    forall i :: 0 <= i < |weights| ==> weights[i] >= 0.0
  }

  /** What registration stores: non-negative weights that sum to one. */
  ghost predicate Normalized(weights: seq<real>)
  {
    weights != [] && NonNegative(weights) && Total(weights) == 1.0
  }

  /** The sum of weights that are not negative is positive exactly if one of them is. */
  lemma {:induction false} TotalIsPositiveIff(weights: seq<real>, n: nat)
    requires NonNegative(weights) && n <= |weights|
    ensures Cumulative(weights, n) >= 0.0
    ensures Cumulative(weights, n) > 0.0 <==> exists i :: 0 <= i < n && weights[i] > 0.0
  {
    if n > 0 {
      TotalIsPositiveIff(weights, n - 1);
    }
  }

  function Normalize(weights: seq<real>, total: real): seq<real>
    requires total > 0.0
  {
    seq(|weights|, i requires 0 <= i < |weights| => weights[i] / total)
  }

  lemma SumOfQuotients(a: real, b: real, total: real)
    requires total > 0.0
    ensures a / total + b / total == (a + b) / total
  {
  }

  lemma {:induction false} CumulativeOfNormalize(weights: seq<real>, total: real, n: nat)
    requires total > 0.0 && n <= |weights|
    ensures Cumulative(Normalize(weights, total), n) == Cumulative(weights, n) / total
  {
    if n > 0 {
      CumulativeOfNormalize(weights, total, n - 1);
      SumOfQuotients(Cumulative(weights, n - 1), weights[n - 1], total);
    }
  }

  lemma QuotientIsNonNegative(w: real, total: real)
    requires w >= 0.0 && total > 0.0
    ensures w / total >= 0.0
  {
  }

  lemma NormalizeIsNormalized(weights: seq<real>)
    requires weights != [] && NonNegative(weights) && Total(weights) > 0.0
    ensures Normalized(Normalize(weights, Total(weights)))
  {
    CumulativeOfNormalize(weights, Total(weights), |weights|);
    assert Total(weights) / Total(weights) == 1.0;
    assert |Normalize(weights, Total(weights))| == |weights|;
    forall i | 0 <= i < |weights|
      ensures Normalize(weights, Total(weights))[i] >= 0.0
    {
      QuotientIsNonNegative(weights[i], Total(weights));
    }
  }

  /** The walk from variant `i` on: the first whose cumulated weight exceeds the position, else the last variant. */
  function Walk(weights: seq<real>, bucket: int, i: nat): (chosen: nat)
    requires i <= |weights| && weights != []
    ensures chosen < |weights|
    decreases |weights| - i
  {
    if i == |weights| then |weights| - 1
    else if bucket as real / 100.0 < 100.0 * Cumulative(weights, i + 1) then i
    else Walk(weights, bucket, i + 1)
  }

  function Chosen(weights: seq<real>, bucket: int): nat
    requires weights != []
  {
    Walk(weights, bucket, 0)
  }

  function UserKey(userId: string): string
  {
    if userId == "" then "_anonymous" else userId
  }

  class ABTestVariantSelector {
    const bucketOf: (string, string) -> int     // the hash of flag and user, modulo the number of buckets
    var variants: map<string, (seq<string>, seq<real>)>
    var stats: map<string, map<string, int>>

    ghost predicate Valid()
      reads this
    {
      && (forall flag :: flag in variants ==>
                           |variants[flag].0| == |variants[flag].1| && Normalized(variants[flag].1) && flag in stats)
      && (forall flag, user :: 0 <= bucketOf(flag, user) < BUCKETS)
    }

    constructor (bucketOf: (string, string) -> int)
      requires forall flag, user :: 0 <= bucketOf(flag, user) < BUCKETS
      ensures Valid() && variants == map[] && stats == map[] && this.bucketOf == bucketOf
    {
      this.bucketOf := bucketOf;
      variants := map[];
      stats := map[];
    }

    /** Refuses empty or mismatched lists, negative weights and a zero sum. Known counters are kept. */
    method RegisterVariants(flag: string, names: seq<string>, weights: seq<real>) returns (ok: bool)
      requires Valid()
      modifies this
      ensures Valid()
      ensures ok <==> flag != "" && names != [] && |names| == |weights| && NonNegative(weights) && Total(weights) > 0.0
      ensures ok <==>
              && flag != "" && names != [] && |names| == |weights|
              && (forall i :: 0 <= i < |weights| ==> weights[i] >= 0.0)
              && exists i :: 0 <= i < |weights| && weights[i] > 0.0
      ensures !ok ==> variants == old(variants) && stats == old(stats)
      ensures ok ==>
                && variants == old(variants)[flag := (names, Normalize(weights, Total(weights)))]
                && stats == old(stats)[flag := WithNames(if flag in old(stats) then old(stats)[flag] else map[], names)]
                && (forall name :: name in stats[flag] <==>
                      name in names || (flag in old(stats) && name in old(stats)[flag]))
                && (forall name :: name in stats[flag] ==>
                      stats[flag][name] ==
                      if flag in old(stats) && name in old(stats)[flag] then old(stats)[flag][name] else 0)
    {
      if flag == "" || names == [] || |names| != |weights| || !NonNegative(weights) {
        return false;
      }
      var total := Total(weights);
      TotalIsPositiveIff(weights, |weights|);
      if total <= 0.0 {
        return false;
      }
      NormalizeIsNormalized(weights);
      variants := variants[flag := (names, Normalize(weights, total))];
      stats := stats[flag := WithNames(if flag in stats then stats[flag] else map[], names)];
      ok := true;
    }

    /** `None` is the error for an unknown flag. */
    method SelectVariant(flag: string, userId: string) returns (chosen: Option<string>)
      requires Valid()
      modifies this`stats
      ensures Valid()
      ensures chosen.None? <==> flag !in variants
      ensures chosen.None? ==> stats == old(stats)
      ensures chosen.Some? ==>
                && variants[flag].0 != []
                && chosen.value == variants[flag].0[Chosen(variants[flag].1, bucketOf(flag, UserKey(userId)))]
                && stats == old(stats)[flag := Counted(old(stats)[flag], chosen.value)]
      ensures chosen.Some? && userId != "" ==>
                chosen.value == variants[flag].0[Chosen(variants[flag].1, bucketOf(flag, userId))]
      ensures chosen.Some? && userId == "" ==>
                chosen.value == variants[flag].0[Chosen(variants[flag].1, bucketOf(flag, "_anonymous"))]
      ensures chosen.Some? ==>
                && stats.Keys == old(stats).Keys && chosen.value in stats[flag]
                && (forall other :: other in stats && other != flag ==> stats[other] == old(stats)[other])
                && stats[flag].Keys == old(stats)[flag].Keys + {chosen.value}
                && (forall name :: name in old(stats)[flag] ==>
                      stats[flag][name] == old(stats)[flag][name] + (if name == chosen.value then 1 else 0))
                && (chosen.value !in old(stats)[flag] ==> stats[flag][chosen.value] == 1)
    {
      if flag !in variants {
        return None;
      }
      var (names, weights) := variants[flag];
      var user := UserKey(userId);
      var bucket := bucketOf(flag, user);
      var position := bucket as real / 100.0;
      var cumulative := 0.0;
      var index := |names| - 1;
      var i := 0;
      while i < |names|
        invariant 0 <= i <= |names|
        invariant cumulative == 100.0 * Cumulative(weights, i)
        invariant index == |names| - 1
        invariant Chosen(weights, bucket) == Walk(weights, bucket, i)
      {
        cumulative := cumulative + weights[i] * 100.0;
        if position < cumulative {
          index := i;
          break;
        }
        i := i + 1;
      }
      chosen := Some(names[index]);
      stats := stats[flag := Counted(stats[flag], names[index])];
    }
  }

  function WithNames(counters: map<string, int>, names: seq<string>): map<string, int>
  {
    counters + map name | name in names && name !in counters :: 0
  }

  function Counted(counters: map<string, int>, name: string): map<string, int>
  {
    counters[name := (if name in counters then counters[name] else 0) + 1]
  }

  // ---- each variant's share ---------------------------------------------------------------------------

  /** The first bucket at or above `x`. */
  function Ceil(x: real): (c: int)
    ensures x <= c as real < x + 1.0
  {
    -((-x).Floor)
  }

  lemma AtOrAbove(b: int, x: real)
    ensures b as real >= x <==> b >= Ceil(x)
  {
  }

  lemma CumulativeGrows(weights: seq<real>, m: nat, n: nat)
    requires NonNegative(weights) && m <= n <= |weights|
    ensures Cumulative(weights, m) <= Cumulative(weights, n)
  {
    if m < n {
      CumulativeGrows(weights, m, n - 1);
    }
  }

  /** Where variant `i`'s buckets begin; where the last one's end is `Border(weights, |weights|)`. */
  function Border(weights: seq<real>, i: nat): int
    requires i <= |weights|
  {
    Ceil(10000.0 * Cumulative(weights, i))
  }

  lemma {:induction false} WalkStopsInRange(weights: seq<real>, bucket: int, i: nat)
    requires Normalized(weights) && 0 <= bucket < BUCKETS && i < |weights|
    requires Border(weights, i) <= bucket
    ensures var c := Walk(weights, bucket, i); i <= c && Border(weights, c) <= bucket < Border(weights, c + 1)
    decreases |weights| - i
  {
    AtOrAbove(bucket, 10000.0 * Cumulative(weights, i + 1));
    if bucket < Border(weights, i + 1) {
      assert bucket as real < 10000.0 * Cumulative(weights, i + 1);
    } else {
      assert bucket as real >= 10000.0 * Cumulative(weights, i + 1);
      assert i + 1 < |weights|;
      WalkStopsInRange(weights, bucket, i + 1);
    }
  }

  lemma BordersGrow(weights: seq<real>, m: nat, n: nat)
    requires NonNegative(weights) && m <= n <= |weights|
    ensures Border(weights, m) <= Border(weights, n)
  {
    CumulativeGrows(weights, m, n);
    AtOrAbove(Border(weights, n), 10000.0 * Cumulative(weights, m));
  }

  /**
   * Each variant gets one contiguous range of the 10,000 buckets. The ranges follow each other from 0 to 10,000, so
   * the fallback is never needed, each differs by less than one bucket from its exact share, and a variant of
   * weight zero gets none.
   */
  lemma VariantShares(weights: seq<real>, i: nat)
    requires Normalized(weights) && i < |weights|
    ensures Border(weights, 0) == 0 && Border(weights, |weights|) == BUCKETS
    ensures forall bucket :: 0 <= bucket < BUCKETS ==>
              (Chosen(weights, bucket) == i <==> Border(weights, i) <= bucket < Border(weights, i + 1))
    ensures -1.0 < (Border(weights, i + 1) - Border(weights, i)) as real - 10000.0 * weights[i] < 1.0
    ensures weights[i] == 0.0 ==> Border(weights, i + 1) == Border(weights, i)
    ensures Border(weights, i) <= Border(weights, i + 1)
  {
    BordersGrow(weights, i, i + 1);
    forall bucket | 0 <= bucket < BUCKETS
      ensures Chosen(weights, bucket) == i <==> Border(weights, i) <= bucket < Border(weights, i + 1)
    {
      WalkStopsInRange(weights, bucket, 0);
      var c := Chosen(weights, bucket);
      if c < i {
        BordersGrow(weights, c + 1, i);
      } else if i < c {
        BordersGrow(weights, i + 1, c);
      }
    }
    var from, to := 10000.0 * Cumulative(weights, i), 10000.0 * Cumulative(weights, i + 1);
    assert Border(weights, i) as real >= from && Border(weights, i + 1) as real >= to;
  }
}
