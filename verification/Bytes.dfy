/** A byte. */
module ByteType {
  type byte = bv8

  lemma ByteValue(x: int)
    requires 0 <= x < 256
    ensures (x as byte) as int == x
  {
  }

  lemma ByteBack(b: byte)
    ensures 0 <= b as int < 256 && (b as int) as byte == b
  {
  }
}

/** Little-endian integers as byte sequences. */
module Bytes {
  import opened Types
  import opened ByteType
  import opened Powers

  function Pow256(k: nat): nat {
    if k == 0 then 1 else 256 * Pow256(k - 1)
  }

  /** The low `k` bytes of `n`, least significant first. */
  function LittleEndian(n: nat, k: nat): (b: seq<byte>)
    ensures |b| == k
  {
    if k == 0 then [] else [(n % 256) as byte] + LittleEndian(n / 256, k - 1)
  }

  function FromLittleEndian(b: seq<byte>): nat {
    if b == [] then 0 else b[0] as int + 256 * FromLittleEndian(b[1..])
  }

  lemma {:induction false} LittleEndianRoundTrip(n: nat, k: nat)
    requires n < Pow256(k)
    ensures FromLittleEndian(LittleEndian(n, k)) == n
  {
    if k > 0 {
      LittleEndianRoundTrip(n / 256, k - 1);
      assert LittleEndian(n, k)[1..] == LittleEndian(n / 256, k - 1);
      ByteValue(n % 256);
    }
  }

  /** Byte `i` of a little-endian field is the `i`-th digit of the value to the base 256. */
  lemma {:induction false} LittleEndianAt(n: nat, k: nat, i: nat)
    requires i < k
    ensures Pow256(i) > 0 && LittleEndian(n, k)[i] as int == n / Pow256(i) % 256
  {
    if i == 0 {
      ByteValue(n % 256);
    } else {
      LittleEndianAt(n / 256, k - 1, i - 1);
      assert LittleEndian(n, k)[i] == LittleEndian(n / 256, k - 1)[i - 1];
      DivideTwice(n, Pow256(i - 1));
    }
  }

  lemma DivideTwice(n: nat, p: nat)
    requires p > 0
    ensures n / 256 / p == n / (256 * p)
  {
    var q, r := n / 256 / p, n / 256 % p;
    assert n / 256 == q * p + r;
    assert n == (q * p + r) * 256 + n % 256 == q * (256 * p) + (r * 256 + n % 256) by {
      assert (q * p) * 256 == q * (256 * p);
    }
    OneQuotient(q, r * 256 + n % 256, n / (256 * p), n % (256 * p), 256 * p);
  }

  lemma OneQuotient(q: int, r: int, q': int, r': int, m: int)
    requires 0 <= r < m && 0 <= r' < m && q * m + r == q' * m + r'
    ensures q == q'
  {
    SmallMultiple(q - q', m);
  }

  /** Reading a field and writing it gives the same bytes. */
  lemma {:induction false} LittleEndianBack(b: seq<byte>)
    ensures LittleEndian(FromLittleEndian(b), |b|) == b
  {
    if b == [] {
    } else {
      LittleEndianBack(b[1..]);
      hide *;
      BackStep(b, FromLittleEndian(b[1..]));
      assert b == [b[0]] + b[1..];
    }
  }

  lemma BackStep(b: seq<byte>, rest: nat)
    requires b != [] && rest == FromLittleEndian(b[1..])
    ensures LittleEndian(FromLittleEndian(b), |b|) == [b[0]] + LittleEndian(rest, |b| - 1)
  {
    var n := FromLittleEndian(b);
    assert n == b[0] as int + 256 * rest;
    hide *;
    ByteBack(b[0]);
    Digits(b[0] as int, rest);
    LittleEndianStep(n, |b|);
  }

  lemma LittleEndianStep(n: nat, k: nat)
    requires k > 0
    ensures LittleEndian(n, k) == [(n % 256) as byte] + LittleEndian(n / 256, k - 1)
  {
  }

  lemma Digits(a: int, rest: int)
    requires 0 <= a < 256
    ensures (a + 256 * rest) % 256 == a && (a + 256 * rest) / 256 == rest
  {
  }

  lemma TwoBytes(n: seq<byte>)
    requires |n| == 2
    ensures FromLittleEndian(n) == n[0] as int + 256 * (n[1] as int)
  {
    assert n[1..][1..] == [];
    assert FromLittleEndian([]) == 0;
    assert FromLittleEndian(n[1..]) == n[1] as int;
  }

  lemma Widths()
    ensures Pow256(1) == 0x100 && Pow256(2) == 0x1_0000 && Pow256(4) == U32 && Pow256(8) == U64
  {
    assert Pow256(1) == 256 * Pow256(0);
    assert Pow256(2) == 256 * Pow256(1);
    assert Pow256(3) == 256 * Pow256(2);
    assert Pow256(4) == 256 * Pow256(3);
    assert Pow256(5) == 256 * Pow256(4);
    assert Pow256(6) == 256 * Pow256(5);
    assert Pow256(7) == 256 * Pow256(6);
    assert Pow256(8) == 256 * Pow256(7);
  }

  function Zeros(n: nat): (z: seq<byte>)
    ensures |z| == n && forall i :: 0 <= i < n ==> z[i] == 0
  {
    seq(n, _ => 0)
  }

  /** A field reads as zero when its bytes are zero. */
  lemma {:induction false} ZeroField(b: seq<byte>)
    requires forall i :: 0 <= i < |b| ==> b[i] == 0
    ensures FromLittleEndian(b) == 0
  {
    if b != [] {
      ZeroField(b[1..]);
      assert b[0] as int == 0;
    }
  }

  lemma {:induction false} FromLittleEndianBound(b: seq<byte>)
    ensures FromLittleEndian(b) < Pow256(|b|)
  {
    if b != [] {
      FromLittleEndianBound(b[1..]);
      assert b[0] as int < 256;
    }
  }

  /** Writes `bytes` into the buffer from `pos` on. */
  method CopyInto(buf: array<byte>, pos: nat, bytes: seq<byte>)
    requires pos + |bytes| <= buf.Length
    modifies buf
    ensures buf[..] == old(buf[..pos]) + bytes + old(buf[pos + |bytes|..])
  {
    var i := 0;
    while i < |bytes|
      invariant 0 <= i <= |bytes|
      invariant buf[..] == old(buf[..pos]) + bytes[..i] + old(buf[pos + i..])
    {
      buf[pos + i] := bytes[i];
      assert bytes[..i+1] == bytes[..i] + [bytes[i]];
      assert old(buf[pos + i..])[1..] == old(buf[pos + i + 1..]);
      i := i + 1;
    }
    assert bytes[..i] == bytes;
  }
}
