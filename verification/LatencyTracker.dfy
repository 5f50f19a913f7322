/** The latency histogram: one counter per power of two, and the percentile read off it. */
module LatencyTrackers {
  import opened Types
  import opened Powers

  const BUCKETS: nat := 64

  /** The index of the highest set bit. */
  function HighestBit(x: nat): nat
    requires x > 0
  {
    if x == 1 then 0 else 1 + HighestBit(x / 2)
  }

  /** Leading zeros of a non-zero 64-bit word. */
  function LeadingZeros(x: u64): int
    requires x > 0
  {
    63 - HighestBit(x)
  }

  /** `x | 1`. */
  function OrOne(x: u64): u64 {
    x - x % 2 + 1
  }

  function Bucket(x: u64): int {
    63 - LeadingZeros(OrOne(x))
  }

  lemma {:induction false} HighestBitBounds(x: nat)
    requires x > 0
    ensures Pow2(HighestBit(x)) <= x < 2 * Pow2(HighestBit(x))
  {
    if x > 1 {
      HighestBitBounds(x / 2);
    }
  }

  /** Bucket `b` holds exactly the samples from `2^b` to below `2^(b+1)`, zero counting as one. */
  lemma BucketBounds(x: u64)
    ensures 0 <= Bucket(x) < 64
    ensures Pow2(Bucket(x)) <= Max(x, 1) < 2 * Pow2(Bucket(x))
  {
    var b := HighestBit(OrOne(x));
    HighestBitBounds(OrOne(x));
    if b >= 64 {
      PowMonotone(64, b);
      Pow64();
    }
    if b == 0 {
      assert Pow2(0) == 1;
    } else {
      assert Pow2(b) == 2 * Pow2(b - 1);
    }
  }

  lemma BucketMonotone(x: u64, y: u64)
    requires x <= y
    ensures Bucket(x) <= Bucket(y)
  {
    BucketBounds(x);
    BucketBounds(y);
    if Bucket(x) > Bucket(y) {
      PowMonotone(Bucket(y) + 1, Bucket(x));
    }
  }

  /** How many samples fall into bucket `b`, and into `b` or a lower one. */
  function Tally(s: seq<u64>, b: nat): (n: nat)
    ensures n <= |s|
  {
    if s == [] then 0 else Tally(s[..|s| - 1], b) + (if Bucket(s[|s| - 1]) == b then 1 else 0)
  }

  function TallyUpTo(s: seq<u64>, b: int): (n: nat)
    ensures n <= |s|
  {
    if s == [] then 0 else TallyUpTo(s[..|s| - 1], b) + (if Bucket(s[|s| - 1]) <= b then 1 else 0)
  }

  /** The counters up to and including bucket `b` added up. */
  function Through(counts: seq<u64>, b: int): nat
    requires b < |counts|
  {
    if b < 0 then 0 else Through(counts, b - 1) + counts[b]
  }

  ghost predicate Counts(counts: seq<u64>, s: seq<u64>) {
    |counts| == BUCKETS && forall b :: 0 <= b < BUCKETS ==> counts[b] == Wrap(Tally(s, b))
  }

  lemma {:induction false} TallyStep(s: seq<u64>, b: nat)
    ensures TallyUpTo(s, b) == TallyUpTo(s, b - 1) + Tally(s, b)
  {
    if s != [] {
      TallyStep(s[..|s| - 1], b);
    }
  }

  lemma {:induction false} TallyNone(s: seq<u64>)
    ensures TallyUpTo(s, -1) == 0
  {
    if s != [] {
      TallyNone(s[..|s| - 1]);
      BucketBounds(s[|s| - 1]);
    }
  }

  lemma {:induction false} ThroughCounts(counts: seq<u64>, s: seq<u64>, b: int)
    requires Counts(counts, s) && |s| < U64 && -1 <= b < BUCKETS
    ensures Through(counts, b) == TallyUpTo(s, b)
    decreases b + 1
  {
    if b < 0 {
      TallyNone(s);
    } else {
      ThroughCounts(counts, s, b - 1);
      TallyStep(s, b);
    }
  }

  /** Counting one more sample. */
  lemma CountsRecord(counts: seq<u64>, s: seq<u64>, x: u64)
    requires Counts(counts, s)
    ensures 0 <= Bucket(x) < BUCKETS
    ensures Counts(counts[Bucket(x) := Wrap(counts[Bucket(x)] as int + 1)], s + [x])
  {
    hide Bucket;
    BucketBounds(x);
    assert (s + [x])[..|s + [x]| - 1] == s;
    forall b | 0 <= b < BUCKETS
      ensures Tally(s + [x], b) == Tally(s, b) + (if Bucket(x) == b then 1 else 0)
    {
    }
  }

  lemma {:induction false} TallyAll(s: seq<u64>)
    ensures TallyUpTo(s, BUCKETS - 1) == |s|
  {
    if s != [] {
      TallyAll(s[..|s| - 1]);
      BucketBounds(s[|s| - 1]);
    }
  }

  // ----- Order statistics -----

  ghost predicate Ascending(t: seq<u64>) {
    forall i, j :: 0 <= i <= j < |t| ==> t[i] <= t[j]
  }

  /** `t` is `s` sorted. */
  ghost predicate SortedFrom(t: seq<u64>, s: seq<u64>) {
    Ascending(t) && multiset(t) == multiset(s)
  }

  lemma {:induction false} TallyConcat(s: seq<u64>, t: seq<u64>, b: int)
    ensures TallyUpTo(s + t, b) == TallyUpTo(s, b) + TallyUpTo(t, b)
  {
    if t == [] {
      assert s + t == s;
    } else {
      TallyConcat(s, t[..|t| - 1], b);
      assert (s + t)[..|s + t| - 1] == s + t[..|t| - 1];
    }
  }

  lemma TallySplit(t: seq<u64>, k: nat, b: int)
    requires k <= |t|
    ensures TallyUpTo(t, b) == TallyUpTo(t[..k], b) + TallyUpTo(t[k..], b)
  {
    TallyConcat(t[..k], t[k..], b);
    assert t == t[..k] + t[k..];
  }

  lemma TallyRemove(t: seq<u64>, k: nat, b: int)
    requires k < |t|
    ensures TallyUpTo(t, b) == TallyUpTo(t[..k] + t[k + 1..], b) + (if Bucket(t[k]) <= b then 1 else 0)
  {
    TallyOne(t[k], b);
    hide TallyUpTo, Bucket;
    TallyConcat(t[..k], t[k + 1..], b);
    TallyConcat([t[k]], t[k + 1..], b);
    TallySplit(t, k, b);
    DropIs(t, k);
  }

  lemma DropIs(t: seq<u64>, k: nat)
    requires k < |t|
    ensures t[k..] == [t[k]] + t[k + 1..]
  {
  }

  lemma TallyOne(x: u64, b: int)
    ensures TallyUpTo([x], b) == if Bucket(x) <= b then 1 else 0
  {
    assert [x][..0] == [];
  }

  lemma RemoveOne(s: seq<u64>, t: seq<u64>) returns (k: nat)
    requires s != [] && multiset(s) == multiset(t)
    ensures k < |t| && t[k] == s[|s| - 1]
    ensures multiset(s[..|s| - 1]) == multiset(t[..k] + t[k + 1..])
  {
    var x := s[|s| - 1];
    assert x in multiset(t);
    k :| 0 <= k < |t| && t[k] == x;
    TakenOut(s, |s| - 1);
    TakenOut(t, k);
    assert s[..|s| - 1] + s[|s|..] == s[..|s| - 1];
  }

  lemma TakenOut(t: seq<u64>, k: nat)
    requires k < |t|
    ensures multiset(t[..k] + t[k + 1..]) == multiset(t) - multiset{t[k]}
  {
    assert t == t[..k] + [t[k]] + t[k + 1..];
  }

  /** Sorting does not change how many samples lie at or below a bucket. */
  lemma {:induction false} TallyPermutes(s: seq<u64>, t: seq<u64>, b: int)
    requires multiset(s) == multiset(t)
    ensures TallyUpTo(s, b) == TallyUpTo(t, b)
    decreases |s|
  {
    if s == [] {
      assert |multiset(t)| == 0;
    } else {
      var k := RemoveOne(s, t);
      TallyPermutes(s[..|s| - 1], t[..k] + t[k + 1..], b);
      TallyRemove(t, k, b);
    }
  }

  lemma {:induction false} TallyEvery(t: seq<u64>, b: int)
    ensures (forall i :: 0 <= i < |t| ==> Bucket(t[i]) <= b) ==> TallyUpTo(t, b) == |t|
    ensures (forall i :: 0 <= i < |t| ==> Bucket(t[i]) > b) ==> TallyUpTo(t, b) == 0
  {
    if t != [] {
      TallyEvery(t[..|t| - 1], b);
    }
  }

  /** In sorted order, at least `rank` samples lie at or below bucket `b` just when the `rank`-th one does. */
  lemma TallySorted(t: seq<u64>, rank: nat, b: int)
    requires Ascending(t) && 1 <= rank <= |t|
    ensures TallyUpTo(t, b) >= rank <==> Bucket(t[rank - 1]) <= b
  {
    hide Bucket;
    if Bucket(t[rank - 1]) <= b {
      forall i | 0 <= i < rank
        ensures Bucket(t[..rank][i]) <= b
      {
        BucketMonotone(t[i], t[rank - 1]);
      }
      TallyEvery(t[..rank], b);
      assert TallyUpTo(t[..rank], b) == |t[..rank]| == rank;
      TallySplit(t, rank, b);
    } else {
      var k := rank - 1;
      forall i | 0 <= i < |t| - k
        ensures Bucket(t[k..][i]) > b
      {
        BucketMonotone(t[k], t[k + i]);
      }
      TallyEvery(t[k..], b);
      assert TallyUpTo(t[k..], b) == 0 && TallyUpTo(t[..k], b) <= |t[..k]| == k;
      TallySplit(t, k, b);
    }
  }

  /** The bucket `get_percentile` stops at: the first whose cumulative count reaches the rank. */
  ghost predicate Chosen(counts: seq<u64>, rank: nat, b: nat) {
    && b < |counts| && Through(counts, b) >= rank
    && forall j :: 0 <= j < b ==> Through(counts, j) < rank
  }

  /** It is the bucket of the `rank`-th smallest sample, so its lower bound is within a factor of two. */
  lemma ChosenHoldsRank(counts: seq<u64>, s: seq<u64>, t: seq<u64>, rank: nat, b: nat)
    requires Counts(counts, s) && |s| < U64
    requires SortedFrom(t, s) && 1 <= rank <= |s|
    ensures |t| == |s|
    ensures Chosen(counts, rank, b) <==> b == Bucket(t[rank - 1])
    ensures Chosen(counts, rank, b) ==> Pow2(b) <= Max(t[rank - 1], 1) < 2 * Pow2(b)
  {
    assert |t| == |multiset(t)| == |multiset(s)| == |s|;
    forall j | 0 <= j < BUCKETS
      ensures Through(counts, j) >= rank <==> Bucket(t[rank - 1]) <= j
    {
      ThroughCounts(counts, s, j);
      TallyPermutes(s, t, j);
      TallySorted(t, rank, j);
    }
    BucketBounds(t[rank - 1]);
  }

  /** A larger rank is never answered with a smaller bucket. */
  lemma RankMonotone(counts: seq<u64>, rank: nat, rank': nat, b: nat, b': nat)
    requires rank <= rank' && Chosen(counts, rank, b) && Chosen(counts, rank', b')
    ensures b <= b' && Pow2(b) <= Pow2(b')
  {
    PowMonotone(b, b');
  }

  /** A rank that rounds down to zero is answered with bucket zero, whatever was recorded: right exactly when the
      smallest sample is below two. */
  lemma RankZero(counts: seq<u64>, s: seq<u64>, t: seq<u64>, b: nat)
    requires Counts(counts, s) && 0 < |s| < U64 && SortedFrom(t, s)
    requires Chosen(counts, 0, b)
    ensures b == 0
    ensures |t| == |s| && (Chosen(counts, 1, b) <==> t[0] < 2)
  {
    assert Through(counts, 0) >= 0;
    ChosenHoldsRank(counts, s, t, 1, b);
    BucketBounds(t[0]);
    assert Pow2(0) == 1;
    if t[0] < 2 && Bucket(t[0]) > 0 {
      PowMonotone(1, Bucket(t[0]));
    }
  }

  lemma {:induction false} ThroughGrows(first: seq<u64>, second: seq<u64>, b: int)
    requires b < |first| == |second|
    requires forall i :: 0 <= i < |first| ==> first[i] <= second[i]
    ensures Through(first, b) <= Through(second, b)
  {
    if b >= 0 {
      ThroughGrows(first, second, b - 1);
    }
  }

  lemma {:induction false} ThroughOrdered(counts: seq<u64>, a: int, b: int)
    requires a <= b < |counts|
    ensures Through(counts, a) <= Through(counts, b)
    decreases b - a
  {
    if a < b {
      ThroughOrdered(counts, a, b - 1);
    }
  }

  lemma {:induction false} SomeChosen(counts: seq<u64>, rank: nat, n: nat)
    requires n < |counts| && rank <= Through(counts, n)
    ensures exists b: nat :: Chosen(counts, rank, b)
  {
    if n == 0 || rank > Through(counts, n - 1) {
      forall j | 0 <= j < n
        ensures Through(counts, j) < rank
      {
        ThroughOrdered(counts, j, n - 1);
      }
      assert Chosen(counts, rank, n);
    } else {
      SomeChosen(counts, rank, n - 1);
    }
  }

  /** The same with the cumulative count as it runs, modulo 2^64. */
  ghost predicate Stops(counts: seq<u64>, rank: nat, b: nat) {
    && b < |counts| && Wrap(Through(counts, b)) >= rank
    && forall j :: 0 <= j < b ==> Wrap(Through(counts, j)) < rank
  }

  /** While the counters sum up to less than 2^64, the scan stops at the bucket chosen. */
  lemma StopsAtChosen(counts: seq<u64>, rank: nat, b: nat)
    requires counts != [] && Through(counts, |counts| - 1) < U64
    ensures Stops(counts, rank, b) <==> Chosen(counts, rank, b)
  {
    forall j | 0 <= j < |counts|
      ensures Wrap(Through(counts, j)) == Through(counts, j)
    {
      ThroughOrdered(counts, j, |counts| - 1);
      WrapNext(Through(counts, j));
    }
  }

  /** With `record` running between the two passes the counters of the second pass are at least those of the first: the
      scan still stops, at a bucket no higher than without those records, as long as they sum up to less than 2^64. */
  lemma ScanStops(first: seq<u64>, second: seq<u64>, rank: nat)
    requires 0 < |first| == |second| && Through(second, |second| - 1) < U64
    requires forall i :: 0 <= i < |first| ==> first[i] <= second[i]
    requires rank <= Wrap(Through(first, |first| - 1))
    ensures exists b: nat :: Stops(second, rank, b)
    ensures forall b: nat, c: nat :: Stops(first, rank, b) && Stops(second, rank, c) ==> c <= b
  {
    hide Stops;
    ThroughGrows(first, second, |first| - 1);
    WrapNext(Through(first, |first| - 1));
    SomeChosen(second, rank, |second| - 1);
    var b: nat :| Chosen(second, rank, b);
    StopsAtChosen(second, rank, b);
    forall b: nat, c: nat | Stops(first, rank, b) && Stops(second, rank, c)
      ensures c <= b
    {
      StopsAtChosen(first, rank, b);
      StopsAtChosen(second, rank, c);
      ThroughGrows(first, second, b);
    }
  }

  /** An input beyond that: the records between the passes wrap the cumulative count, and the scan stops nowhere. */
  lemma ScanFalls(b: nat)
    ensures !Stops([3, U64 - 2], 5, b)
  {
    var counts: seq<u64> := [3, U64 - 2];
    assert Through(counts, -1) == 0;
    assert Through(counts, 0) == 0 + 3;
    assert Through(counts, 1) == 3 + (U64 - 2);
  }

  lemma ThroughStart(counts: seq<u64>)
    requires counts != []
    ensures Through(counts, -1) == 0
  {
  }

  lemma ThroughStep(counts: seq<u64>, b: nat)
    requires b < |counts|
    ensures Through(counts, b) == Through(counts, b - 1) + counts[b]
  {
  }

  lemma NoWrap(counts: seq<u64>, s: seq<u64>)
    requires Counts(counts, s) && |s| < U64
    ensures Through(counts, BUCKETS - 1) == |s|
    ensures forall b :: -1 <= b < BUCKETS ==> Through(counts, b) <= |s|
  {
    forall b | -1 <= b < BUCKETS
      ensures Through(counts, b) <= |s|
    {
      ThroughCounts(counts, s, b);
    }
    ThroughCounts(counts, s, BUCKETS - 1);
    TallyAll(s);
  }

  /** The rank a percentile asks for, before floating-point rounding. */
  function Rank(total: nat, pct: real): int {
    (total as real * pct).Floor
  }

  lemma RankBounds(total: nat, pct: real)
    requires 0.0 <= pct
    ensures 0 <= Rank(total, pct)
    ensures Rank(total, pct) as real <= total as real * pct < Rank(total, pct) as real + 1.0
    ensures pct <= 1.0 ==> Rank(total, pct) <= total
  {
    assert total as real * pct >= total as real * 0.0;
    if pct <= 1.0 {
      assert total as real * pct <= total as real * 1.0;
    }
  }

  /** What the caller learns from the bucket chosen. */
  ghost predicate Locates(ticks: int, s: seq<u64>, rank: nat) {
    forall t {:trigger SortedFrom(t, s)} :: SortedFrom(t, s) && 1 <= rank <= |s|
      ==> |t| == |s| && ticks <= Max(t[rank - 1], 1) < 2 * ticks
  }

  lemma EmptyLocates(s: seq<u64>, rank: nat)
    ensures s == [] ==> Locates(0, s, rank)
  {
  }

  lemma Answer(counts: seq<u64>, s: seq<u64>, rank: nat, b: nat)
    requires Counts(counts, s) && 0 < |s| < U64
    requires b < |counts| && Through(counts, b) >= rank
    requires forall j :: 0 <= j < b ==> Through(counts, j) < rank
    ensures b < 64 && 0 < Pow2(b) < U64 && Locates(Pow2(b), s, rank)
    ensures rank == 0 ==> Pow2(b) == 1
  {
    PowMonotone(b, 63);
    PowPositive(b);
    Pow64();
    assert Through(counts, 0) >= 0;
    forall t | SortedFrom(t, s) && 1 <= rank <= |s|
      ensures |t| == |s| && Pow2(b) <= Max(t[rank - 1], 1) < 2 * Pow2(b)
    {
      ChosenHoldsRank(counts, s, t, rank, b);
    }
  }

  // ----- The class -----

  class LatencyTracker {
    const buckets: array<u64>

    /** Everything recorded since the last reset. */
    ghost var samples: seq<u64>

    ghost predicate Valid()
      reads this, buckets
    {
      buckets.Length == BUCKETS && Counts(buckets[..], samples)
    }

    constructor ()
      ensures Valid() && samples == [] && fresh(buckets) && buckets.Length == 64
    {
      buckets := new u64[BUCKETS];
      samples := [];
      new;
      Reset();
    }

    method Record(tscDelta: u64)
      requires Valid()
      modifies this, buckets
      ensures Valid() && samples == old(samples) + [tscDelta]
    {
      var bucket := 63 - LeadingZeros(OrOne(tscDelta));
      assert bucket == Bucket(tscDelta);
      hide Bucket, Tally;
      CountsRecord(buckets[..], samples, tscDelta);
      buckets[bucket] := Wrap(buckets[bucket] as int + 1);
      samples := samples + [tscDelta];
    }

    method Reset()
      requires buckets.Length == BUCKETS
      modifies this, buckets
      ensures Valid() && samples == []
    {
      for i := 0 to BUCKETS
        invariant forall j :: 0 <= j < i ==> buckets[j] == 0
      {
        buckets[i] := 0;
      }
      samples := [];
    }

    /** The first loop of `get_percentile`. */
    method Total() returns (total: u64)
      requires Valid() && |samples| < U64
      ensures total == |samples|
    {
      ghost var counts := buckets[..];
      NoWrap(counts, samples);
      ThroughStart(counts);
      hide *;
      total := 0;
      for i := 0 to BUCKETS
        invariant total == Through(counts, i - 1)
      {
        ThroughStep(counts, i);
        WrapNext(total + buckets[i]);
        total := Wrap(total + buckets[i]);
      }
    }

    /** The second loop: the lower bound of the first bucket that the cumulative count reaches the rank in. */
    method AtRank(target: u64) returns (ticks: u64)
      requires Valid() && 0 < |samples| < U64
      ensures target <= |samples| ==> Locates(ticks, samples, target)
      ensures ticks == 0 <==> target > |samples|
      ensures ticks != 0 ==> exists b: nat :: b < 64 && ticks == Pow2(b)
      ensures target == 0 ==> ticks == 1
    {
      ghost var counts := buckets[..];
      NoWrap(counts, samples);
      ThroughStart(counts);
      hide *;
      var cumulative: u64 := 0;
      for i := 0 to BUCKETS
        invariant cumulative == Through(counts, i - 1)
        invariant forall j :: 0 <= j < i ==> Through(counts, j) < target
      {
        ThroughStep(counts, i);
        WrapNext(cumulative + buckets[i]);
        cumulative := Wrap(cumulative + buckets[i]);
        if cumulative >= target {
          Answer(counts, samples, target, i);
          ticks := Pow2(i);
          return;
        }
      }
      assert Through(counts, BUCKETS - 1) < target;
      ticks := 0;
    }

    /** The percentile in ticks. The rank asked for is the number of samples times the percentile, rounded down; the answer is
        the power of two that the sample at that rank reaches, if there is one: within a factor of two of it. The fall-through
        zero of a non-empty histogram is reached exactly for ranks beyond the last sample, so never for a percentile up
        to 1. */
    method GetPercentile(pct: real) returns (ticks: u64, ghost rank: nat)
      requires Valid() && |samples| < U64 && 0.0 <= pct && |samples| as real * pct < 18446744073709551616.0
      ensures rank as real <= |samples| as real * pct < rank as real + 1.0
      ensures rank <= |samples| ==> Locates(ticks, samples, rank)
      ensures ticks == 0 <==> samples == [] || rank > |samples|
      ensures ticks != 0 ==> exists b: nat :: b < 64 && ticks == Pow2(b)
      ensures pct <= 1.0 ==> rank <= |samples|
      ensures samples != [] && rank == 0 ==> ticks == 1
    {
      RankBounds(|samples|, pct);
      rank := Rank(|samples|, pct);
      EmptyLocates(samples, rank);
      hide *;
      var total := Total();
      if total == 0 {
        return 0, rank;
      }
      ticks := AtRank(Rank(total, pct));
    }
  }
}
