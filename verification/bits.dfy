/**
 Little-endian bit strings and the unsigned integers they denote.

 Bit `z` of a string has weight `2^z`. Bytes (Python ints 0 .. 255) and
 lanes (64-bit unsigned words) are both read through these functions.
 */
module Bits {

  function Pow2(n: nat): (p: nat)
    ensures p >= 1
  {
    if n == 0 then 1 else 2 * Pow2(n - 1)
  }

  /** The unsigned value of a little-endian bit string. */
  function FromBits(bits: seq<bool>): (v: nat)
    ensures v < Pow2(|bits|)
    decreases |bits|
  {
    if |bits| == 0 then 0
    else (if bits[0] then 1 else 0) + 2 * FromBits(bits[1..])
  }

  /** Bit `k` of `v`: the remainder mod 2 after `k` halvings. */
  function Bit(v: nat, k: nat): bool
    decreases k
  {
    if k == 0 then v % 2 == 1 else Bit(v / 2, k - 1)
  }

  /** The `width` low bits of `v`, least significant first. */
  function ToBits(v: nat, width: nat): (bits: seq<bool>)
    ensures |bits| == width
  {
    seq(width, k requires 0 <= k < width => Bit(v, k))
  }

  /** Writing a value that fits in `width` bits and reading it back gives the value. */
  lemma {:induction false} FromToBits(v: nat, width: nat)
    requires v < Pow2(width)
    ensures FromBits(ToBits(v, width)) == v
    decreases width
  {
    if width > 0 {
      FromToBits(v / 2, width - 1);
      assert ToBits(v, width)[1..] == ToBits(v / 2, width - 1);
    }
  }

  /** Bit `k` of the value of a bit string is the string's bit `k`. */
  lemma {:induction false} BitOfFromBits(bits: seq<bool>, k: nat)
    requires k < |bits|
    ensures Bit(FromBits(bits), k) == bits[k]
    decreases k
  {
    var v := FromBits(bits);
    assert v % 2 == 1 <==> bits[0];
    if k > 0 {
      assert v / 2 == FromBits(bits[1..]);
      BitOfFromBits(bits[1..], k - 1);
    }
  }

  /** Reading a bit string and writing the value back at the same width gives the string. */
  lemma ToFromBits(bits: seq<bool>)
    ensures ToBits(FromBits(bits), |bits|) == bits
  {
    forall k | 0 <= k < |bits|
      ensures ToBits(FromBits(bits), |bits|)[k] == bits[k]
    {
      BitOfFromBits(bits, k);
    }
  }

  lemma Pow2Eight()
    ensures Pow2(8) == 256
  {
  }

  /** The value of a concatenation: the second string's bits sit above the first's. */
  lemma {:induction false} FromBitsAppend(a: seq<bool>, b: seq<bool>)
    ensures FromBits(a + b) == FromBits(a) + Pow2(|a|) * FromBits(b)
    decreases |a|
  {
    if |a| > 0 {
      var ab := a + b;
      assert ab[0] == a[0] && ab[1..] == a[1..] + b;
      FromBitsAppend(a[1..], b);
      var p, f := Pow2(|a| - 1), FromBits(b);
      assert Pow2(|a|) == 2 * p;
      DoubleProduct(p, f);
    } else {
      assert a + b == b;
    }
  }

  lemma DoubleProduct(p: nat, f: nat)
    ensures 2 * (p * f) == (2 * p) * f
  {
  }

  /** Zero has no bit set. */
  lemma {:induction false} ZeroBit(k: nat)
    ensures !Bit(0, k)
    decreases k
  {
    if k > 0 {
      ZeroBit(k - 1);
    }
  }

  lemma ZeroBits(width: nat)
    ensures ToBits(0, width) == seq(width, _ => false)
  {
    forall k | 0 <= k < width
      ensures !ToBits(0, width)[k]
    {
      ZeroBit(k);
    }
  }
}
