/** Powers of two, and remainders. */
module Powers {
  import opened Types

  function Pow2(k: nat): nat {
    if k == 0 then 1 else 2 * Pow2(k - 1)
  }

  lemma {:induction false} PowPositive(k: nat)
    ensures Pow2(k) > 0
  {
    if k > 0 {
      PowPositive(k - 1);
    }
  }

  lemma {:induction false} PowMonotone(k: nat, n: nat)
    requires k <= n
    ensures Pow2(k) <= Pow2(n)
    decreases n - k
  {
    if k < n {
      PowMonotone(k, n - 1);
    }
  }

  lemma Pow64()
    ensures Pow2(64) == U64 && Pow2(63) == I63 && Pow2(32) == U32
  {
    assert Pow2(8) == 0x100;
    assert Pow2(64) == 2 * Pow2(63);
    hide Pow2;
    PowSum(8, 8);
    PowSum(16, 16);
    PowSum(32, 32);
  }

  lemma {:induction false} PowSum(a: nat, b: nat)
    ensures Pow2(a + b) == Pow2(a) * Pow2(b)
  {
    hide Pow2;
    if b == 0 {
      PowZero();
    } else {
      PowSum(a, b - 1);
      PowStep(a + b);
      PowStep(b);
      DoubleProduct(Pow2(a), Pow2(b - 1));
    }
  }

  lemma PowZero()
    ensures Pow2(0) == 1
  {
  }

  lemma PowStep(k: nat)
    requires k > 0
    ensures Pow2(k) == 2 * Pow2(k - 1)
  {
  }

  lemma DoubleProduct(x: int, y: int)
    ensures x * (2 * y) == 2 * (x * y)
  {
  }

  lemma Quotient(x: int, q: int, r: int, m: int)
    requires 0 <= r < m && x == q * m + r
    ensures x % m == r
  {
    OneRemainder(q, r, x / m, x % m, m);
  }

  lemma OneRemainder(q: int, r: int, q': int, r': int, m: int)
    requires 0 <= r < m && 0 <= r' < m && q * m + r == q' * m + r'
    ensures r == r'
  {
    SmallMultiple(q - q', m);
  }

  /** Only the zero multiple of `m` lies strictly between `-m` and `m`. */
  lemma SmallMultiple(d: int, m: int)
    requires m > 0
    ensures d >= 1 ==> d * m >= m
    ensures d <= -1 ==> d * m <= -m
  {
    assert d * m == (d - 1) * m + m == (d + 1) * m - m;
  }

  /** Multiples of the modulus drop out of a remainder. */
  lemma DropMultiple(x: int, q: int, w: int, m: int)
    requires m > 0 && x == q * m + w
    ensures x % m == w % m
  {
    assert x == (q + w / m) * m + w % m by {
      assert (q + w / m) * m == q * m + (w / m) * m;
    }
    Quotient(x, q + w / m, w % m, m);
  }

  lemma NestedMultiple(q: int, d: int, c: int)
    ensures q * (d * c) == (q * d) * c
  {
  }
}
