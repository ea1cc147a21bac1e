/**
 * Bytes and the bit operations the codec performs on them.
 *
 * A byte is an integer in 0..255. The Go code manipulates bytes with `>>`, `&`
 * and `|=`; each use is a single-bit test or a single-bit set, modelled here by
 * `BitAt` ((x >> k) & 1 == 1) and `SetBit` (x | (1 << k)).
 */
module Bits {

  type byte = x: int | 0 <= x < 256

  function Pow2(k: nat): (p: nat)
    ensures p >= 1
  {
    if k == 0 then 1 else 2 * Pow2(k - 1)
  }

  /** Bit k of x, counting from the least significant bit: (x >> k) & 1 == 1. */
  function BitAt(x: nat, k: nat): (bit: bool)
  {
    if k == 0 then x % 2 == 1 else BitAt(x / 2, k - 1)
  }

  /** x | (1 << k). */
  function SetBit(x: nat, k: nat): (withBit: nat)
  {
    if BitAt(x, k) then x else x + Pow2(k)
  }

  /** Bit t of a byte counting from the most significant end: (b >> (7 - t)) & 1 == 1. */
  function MsbBit(b: byte, t: nat): (bit: bool)
    requires t < 8
  {
    BitAt(b, 7 - t)
  }

  /** Setting bit k sets exactly that bit and keeps every other one. */
  lemma {:induction false} SetBitSpec(x: nat, k: nat, j: nat)
    ensures BitAt(SetBit(x, k), j) == (j == k || BitAt(x, j))
  {
    if BitAt(x, k) {
    } else if k == 0 {
      assert x % 2 == 0;
      if j > 0 {
        assert (x + 1) / 2 == x / 2;
      }
    } else {
      var h := x / 2;
      assert Pow2(k) == 2 * Pow2(k - 1);
      assert (x + Pow2(k)) / 2 == h + Pow2(k - 1);
      assert !BitAt(h, k - 1);
      if j > 0 {
        SetBitSpec(h, k - 1, j - 1);
      }
    }
  }

  lemma SetBitAll(x: nat, k: nat)
    ensures forall j: nat :: BitAt(SetBit(x, k), j) == (j == k || BitAt(x, j))
  {
    forall j: nat
      ensures BitAt(SetBit(x, k), j) == (j == k || BitAt(x, j))
    {
      SetBitSpec(x, k, j);
    }
  }

  lemma ZeroBits()
    ensures forall j: nat :: !BitAt(0, j)
  {
    forall j: nat
      ensures !BitAt(0, j)
    {
      BitAtBeyond(0, j, 0);
    }
  }

  /** Setting a bit below position n keeps a value below 2^n. */
  lemma {:induction false} SetBitBound(x: nat, k: nat, n: nat)
    requires x < Pow2(n) && k < n
    ensures SetBit(x, k) < Pow2(n)
  {
    if !BitAt(x, k) {
      assert Pow2(n) == 2 * Pow2(n - 1);
      if k == 0 {
        assert x % 2 == 0;
      } else {
        var h := x / 2;
        assert Pow2(k) == 2 * Pow2(k - 1);
        assert !BitAt(h, k - 1);
        SetBitBound(h, k - 1, n - 1);
        assert h + Pow2(k - 1) < Pow2(n - 1);
      }
    }
  }

  lemma SetBitByte(x: byte, k: nat)
    requires k < 8
    ensures SetBit(x, k) < 256
  {
    assert Pow2(8) == 256;
    SetBitBound(x, k, 8);
  }

  /** A value below 2^n has no bit at position n or above. */
  lemma {:induction false} BitAtBeyond(x: nat, k: nat, n: nat)
    requires x < Pow2(n) && n <= k
    ensures !BitAt(x, k)
  {
    if n == 0 {
      if k > 0 {
        BitAtBeyond(x / 2, k - 1, 0);
      }
    } else {
      assert Pow2(n) == 2 * Pow2(n - 1);
      BitAtBeyond(x / 2, k - 1, n - 1);
    }
  }

  /** A value in [2^n, 2^(n+1)) has bit n set. */
  lemma {:induction false} BitAtTop(x: nat, n: nat)
    requires Pow2(n) <= x < 2 * Pow2(n)
    ensures BitAt(x, n)
  {
    if n > 0 {
      assert Pow2(n) == 2 * Pow2(n - 1);
      BitAtTop(x / 2, n - 1);
    }
  }

  /** Two values below 2^n with the same n low bits are equal. */
  lemma {:induction false} BitsDetermine(x: nat, y: nat, n: nat)
    requires x < Pow2(n) && y < Pow2(n)
    requires forall k: nat :: k < n ==> BitAt(x, k) == BitAt(y, k)
    ensures x == y
  {
    if n > 0 {
      assert BitAt(x, 0) == BitAt(y, 0);
      assert Pow2(n) == 2 * Pow2(n - 1);
      forall k: nat | k < n - 1
        ensures BitAt(x / 2, k) == BitAt(y / 2, k)
      {
        assert BitAt(x, k + 1) == BitAt(y, k + 1);
      }
      BitsDetermine(x / 2, y / 2, n - 1);
    }
  }

  /** Bit 7 of a byte (the test `b & 0x80 != 0`) is set exactly for values 128..255. */
  lemma HighBit(b: byte)
    ensures BitAt(b, 7) <==> b >= 128
  {
    assert Pow2(7) == 128;
    if b >= 128 {
      BitAtTop(b, 7);
    } else {
      BitAtBeyond(b, 7, 7);
    }
  }

  /** For a value below 128, `v | 0x80` is v + 128. */
  lemma SetHighBit(v: nat)
    requires v < 128
    ensures SetBit(v, 7) == v + 128
  {
    assert Pow2(7) == 128;
    BitAtBeyond(v, 7, 7);
  }
}
