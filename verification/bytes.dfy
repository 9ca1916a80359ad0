/** Machine words of the CAB image: bytes, 32-bit `unsigned int` fields in
    the host's native byte order, fixed here as little-endian, the 32-bit wrap-around of `unsigned int` arithmetic, and the bits of a
    number. */
module Bytes {

  /** An `unsigned char`. */
  type byte = x: int | 0 <= x < 256

  const TWO_TO_THE_32: int := 0x1_0000_0000

  /** An `unsigned int`. */
  type u32 = x: int | 0 <= x < TWO_TO_THE_32

  /** The value an `unsigned int` expression takes when the exact result is `n`. */
  function Wrap32(n: nat): (r: u32)
    ensures n < TWO_TO_THE_32 ==> r == n
    ensures r <= n
  {
    n % TWO_TO_THE_32
  }

  function Pow2(k: nat): (p: nat)
    ensures p >= 1
  {
    if k == 0 then 1 else 2 * Pow2(k - 1)
  }

  /** Bit `k` of `n`, counting from the least significant bit. */
  function Bit(n: nat, k: nat): (r: nat)
    ensures r <= 1
  {
    if k == 0 then n % 2 else Bit(n / 2, k - 1)
  }

  lemma HalfQuotient(n: nat, k: nat)
    requires 1 <= k < 8
    ensures n / 2 / Pow2(k - 1) == n / Pow2(k)
  {
    if k == 1 {
      assert Pow2(1) == 2;
    } else if k == 2 {
      assert Pow2(1) == 2 && Pow2(2) == 4;
    } else if k == 3 {
      assert Pow2(2) == 4 && Pow2(3) == 8;
    } else if k == 4 {
      assert Pow2(3) == 8 && Pow2(4) == 16;
    } else if k == 5 {
      assert Pow2(4) == 16 && Pow2(5) == 32;
    } else if k == 6 {
      assert Pow2(5) == 32 && Pow2(6) == 64;
    } else {
      assert Pow2(6) == 64 && Pow2(7) == 128;
    }
  }

  /** Bit `k` of a byte is the parity of the byte divided by `2^k`. */
  lemma {:induction false} BitIsQuotient(n: nat, k: nat)
    requires k < 8
    ensures Bit(n, k) == n / Pow2(k) % 2
  {
    if k > 0 {
      BitIsQuotient(n / 2, k - 1);
      HalfQuotient(n, k);
    }
  }

  /** Adding the power of two of a clear bit sets that bit and no other. */
  lemma {:induction false} BitOfAddedPower(n: nat, p: nat, q: nat)
    requires Bit(n, p) == 0
    ensures Bit(n + Pow2(p), q) == if q == p then 1 else Bit(n, q)
  {
    if p == 0 {
      if q != 0 {
        assert (n + 1) / 2 == n / 2;
      }
    } else {
      assert (n + Pow2(p)) / 2 == n / 2 + Pow2(p - 1);
      if q != 0 {
        BitOfAddedPower(n / 2, p - 1, q - 1);
      }
    }
  }

  /** Subtracting the power of two of a set bit clears that bit and no other. */
  lemma {:induction false} BitOfSubtractedPower(n: nat, p: nat, q: nat)
    requires Bit(n, p) == 1
    ensures n >= Pow2(p)
    ensures Bit(n - Pow2(p), q) == if q == p then 0 else Bit(n, q)
  {
    if p == 0 {
      if q != 0 {
        assert (n - 1) / 2 == n / 2;
      }
    } else {
      BitOfSubtractedPower(n / 2, p - 1, 0);
      assert (n - Pow2(p)) / 2 == n / 2 - Pow2(p - 1);
      if q != 0 {
        BitOfSubtractedPower(n / 2, p - 1, q - 1);
      }
    }
  }

  /** Setting a clear bit below `k` keeps a number below `2^k`. */
  lemma {:induction false} AddedPowerBound(n: nat, p: nat, k: nat)
    requires n < Pow2(k) && p < k && Bit(n, p) == 0
    ensures n + Pow2(p) < Pow2(k)
  {
    if p > 0 {
      AddedPowerBound(n / 2, p - 1, k - 1);
    }
  }

  /** Numbers below `2^k` are equal when their `k` low bits are. */
  lemma {:induction false} BitsDetermine(n: nat, m: nat, k: nat)
    requires n < Pow2(k) && m < Pow2(k)
    requires forall q | 0 <= q < k :: Bit(n, q) == Bit(m, q)
    ensures n == m
  {
    if k > 0 {
      assert Bit(n, 0) == Bit(m, 0);
      forall q | 0 <= q < k - 1
        ensures Bit(n / 2, q) == Bit(m / 2, q)
      {
        assert Bit(n, q + 1) == Bit(m, q + 1);
      }
      BitsDetermine(n / 2, m / 2, k - 1);
    }
  }

  /** The four bytes of `x` as they lie in memory, least significant first. */
  function EncodeU32(x: u32): (r: seq<byte>)
    ensures |r| == 4
  {
    [x % 256, x / 256 % 256, x / 256 / 256 % 256, x / 256 / 256 / 256]
  }

  /** The `unsigned int` stored in four bytes, least significant first. */
  function DecodeU32(b: seq<byte>): (x: u32)
    requires |b| == 4
  {
    b[0] as int + 256 * (b[1] as int + 256 * (b[2] as int + 256 * b[3] as int))
  }

  lemma Join(a: int, k: int)
    requires 0 <= a < 256
    ensures (a + 256 * k) % 256 == a && (a + 256 * k) / 256 == k
  {
  }

  lemma Split(n: int)
    requires 0 <= n
    ensures n == n % 256 + 256 * (n / 256)
  {
  }

  /** Reading back the four bytes written for `x` gives `x`. */
  lemma DecodeEncodeU32(x: u32)
    ensures DecodeU32(EncodeU32(x)) == x
  {
    var q1 := x / 256;
    var q2 := q1 / 256;
    Split(x);
    Split(q1);
    Split(q2);
  }

  /** Every four bytes are the encoding of the `unsigned int` they hold. */
  lemma EncodeDecodeU32(b: seq<byte>)
    requires |b| == 4
    ensures EncodeU32(DecodeU32(b)) == b
  {
    var x := DecodeU32(b);
    var t2 := b[2] as int + 256 * b[3] as int;
    var t1 := b[1] as int + 256 * t2;
    assert x == b[0] as int + 256 * t1;
    Join(b[0], t1);
    Join(b[1], t2);
    Join(b[2], b[3]);
  }
}
