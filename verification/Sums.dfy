/** Sums of quantities, and the modular arithmetic of unsigned counters. */
module Sums {
  import opened Types

  function Sum(q: seq<int>): int {
    if q == [] then 0 else q[0] + Sum(q[1..])
  }

  lemma {:induction false} SumConcat(a: seq<int>, b: seq<int>)
    ensures Sum(a + b) == Sum(a) + Sum(b)
  {
    if a == [] {
      assert a + b == b;
    } else {
      SumConcat(a[1..], b);
      assert (a + b)[1..] == a[1..] + b;
    }
  }

  lemma SumSplit(q: seq<int>, k: nat)
    requires k < |q|
    ensures Sum(q) == Sum(q[..k]) + q[k] + Sum(q[k+1..])
  {
    assert q == q[..k] + ([q[k]] + q[k+1..]);
    SumConcat(q[..k], [q[k]] + q[k+1..]);
    assert ([q[k]] + q[k+1..])[1..] == q[k+1..];
  }

  lemma SumRemoveAt(q: seq<int>, k: nat)
    requires k < |q|
    ensures Sum(q[..k] + q[k+1..]) == Sum(q) - q[k]
  {
    SumSplit(q, k);
    SumConcat(q[..k], q[k+1..]);
  }

  lemma SumUpdate(q: seq<int>, k: nat, x: int)
    requires k < |q|
    ensures Sum(q[k := x]) == Sum(q) - q[k] + x
  {
    SumSplit(q, k);
    SumSplit(q[k := x], k);
    assert q[k := x][..k] == q[..k] && q[k := x][k+1..] == q[k+1..];
  }

  lemma SumPush(q: seq<int>, x: int)
    ensures Sum(q + [x]) == Sum(q) + x
  {
    SumConcat(q, [x]);
  }

  /** An unsigned counter that tracks a total modulo its width still does after both move by `d`. */
  lemma CounterStep64(total: int, d: int)
    ensures (total % U64 + d) % U64 == (total + d) % U64
  {
  }

  lemma CounterStep32(total: int, d: int)
    ensures (total % U32 + d) % U32 == (total + d) % U32
  {
  }
}
