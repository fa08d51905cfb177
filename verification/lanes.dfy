/**
 Lanes of the Keccak state: 64-bit unsigned words, as 64 bits with bit
 `z` of weight `2^z` (the `z` coordinate of FIPS 202).

 The draft works on NumPy `uint64` words with `^`, `&`, `~`, `|`, `<<`
 and `>>`. Shifts drop the bits that leave the word, as 64-bit shifts do;
 a shift by 64 leaves nothing. Every rotation is written in the draft as a
 pair of shifts joined by OR, and is written the same way here.
 */
module Lanes {
  import opened Bits

  const LaneBits: nat := 64

  type Lane = v: seq<bool> | |v| == LaneBits witness seq(64, _ => false)

  /** The lane with every bit equal to `b`. */
  function Fill(b: bool): Lane
  {
    seq(LaneBits, _ => b)
  }

  const ZeroLane: Lane := Fill(false)

  /** The unsigned value of a lane. */
  function Value(v: Lane): (n: nat)
    ensures n < Pow2(LaneBits)
  {
    FromBits(v)
  }

  function Xor(a: Lane, b: Lane): Lane
  {
    seq(LaneBits, z requires 0 <= z < LaneBits => a[z] != b[z])
  }

  function And(a: Lane, b: Lane): Lane
  {
    seq(LaneBits, z requires 0 <= z < LaneBits => a[z] && b[z])
  }

  function Or(a: Lane, b: Lane): Lane
  {
    seq(LaneBits, z requires 0 <= z < LaneBits => a[z] || b[z])
  }

  /** `~v` */
  function Not(v: Lane): Lane
  {
    seq(LaneBits, z requires 0 <= z < LaneBits => !v[z])
  }

  /** `v << n` on a 64-bit word: bits move up by n, the top n bits are lost. */
  function Shl(v: Lane, n: nat): Lane
  {
    seq(LaneBits, z requires 0 <= z < LaneBits => if z >= n then v[z - n] else false)
  }

  /** `v >> n` on a 64-bit word: bits move down by n, the bottom n bits are lost. */
  function Shr(v: Lane, n: nat): Lane
  {
    seq(LaneBits, z requires 0 <= z < LaneBits => if z + n < LaneBits then v[z + n] else false)
  }

  /** `v << r | v >> (64 - r)` */
  function Rotl(v: Lane, r: nat): Lane
    requires r <= LaneBits
  {
    Or(Shl(v, r), Shr(v, LaneBits - r))
  }

  /** `v >> r | v << (64 - r)` */
  function Rotr(v: Lane, r: nat): Lane
    requires r <= LaneBits
  {
    Or(Shr(v, r), Shl(v, LaneBits - r))
  }

  /** The shift pair is a rotation: bit z of the result is bit z - r (mod 64) of the lane. */
  lemma RotlBit(v: Lane, r: nat, z: nat)
    requires r <= LaneBits && z < LaneBits
    ensures Rotl(v, r)[z] == v[(z - r) % 64]
  {
  }

  /** Bit z of a right rotation is bit z + r (mod 64) of the lane. */
  lemma RotrBit(v: Lane, r: nat, z: nat)
    requires r <= LaneBits && z < LaneBits
    ensures Rotr(v, r)[z] == v[(z + r) % 64]
  {
  }

  /** Rotating by 0 or by 64 leaves a lane as it is: the shift by 64 contributes nothing. */
  lemma RotlByZero(v: Lane)
    ensures Rotl(v, 0) == v
    ensures Rotl(v, 64) == v
  {
    forall z | 0 <= z < LaneBits
      ensures Rotl(v, 0)[z] == v[z] && Rotl(v, 64)[z] == v[z]
    {
      RotlBit(v, 0, z);
      RotlBit(v, 64, z);
    }
  }

  /** Rotating right by r undoes rotating left by r, and the other way round. */
  lemma RotrUndoesRotl(v: Lane, r: nat)
    requires r <= LaneBits
    ensures Rotr(Rotl(v, r), r) == v
    ensures Rotl(Rotr(v, r), r) == v
  {
    forall z | 0 <= z < LaneBits
      ensures Rotr(Rotl(v, r), r)[z] == v[z] && Rotl(Rotr(v, r), r)[z] == v[z]
    {
      RotrBit(Rotl(v, r), r, z);
      RotlBit(v, r, (z + r) % 64);
      RotlBit(Rotr(v, r), r, z);
      RotrBit(v, r, (z - r) % 64);
    }
  }

  /** The draft's `>> 1 | << 63` is the same word as a left rotation by 63. */
  lemma RotrOneIsRotl63(v: Lane)
    ensures Rotr(v, 1) == Rotl(v, 63)
  {
    forall z | 0 <= z < LaneBits
      ensures Rotr(v, 1)[z] == Rotl(v, 63)[z]
    {
      RotrBit(v, 1, z);
      RotlBit(v, 63, z);
    }
  }

  /** Rotation distributes over XOR. */
  lemma RotlXor(a: Lane, b: Lane, r: nat)
    requires r <= LaneBits
    ensures Rotl(Xor(a, b), r) == Xor(Rotl(a, r), Rotl(b, r))
  {
    forall z | 0 <= z < LaneBits
      ensures Rotl(Xor(a, b), r)[z] == Xor(Rotl(a, r), Rotl(b, r))[z]
    {
      RotlBit(Xor(a, b), r, z);
      RotlBit(a, r, z);
      RotlBit(b, r, z);
    }
  }

  lemma RotrXor(a: Lane, b: Lane, r: nat)
    requires r <= LaneBits
    ensures Rotr(Xor(a, b), r) == Xor(Rotr(a, r), Rotr(b, r))
  {
    forall z | 0 <= z < LaneBits
      ensures Rotr(Xor(a, b), r)[z] == Xor(Rotr(a, r), Rotr(b, r))[z]
    {
      RotrBit(Xor(a, b), r, z);
      RotrBit(a, r, z);
      RotrBit(b, r, z);
    }
  }

  /** XOR with the same lane on both sides cancels. */
  lemma XorCancels(a: Lane, b: Lane, d: Lane)
    ensures Xor(Xor(a, d), Xor(b, d)) == Xor(a, b)
  {
  }

  /** The zero lane is fixed by every rotation. */
  lemma RotlOfZero(r: nat)
    requires r <= LaneBits
    ensures Rotl(ZeroLane, r) == ZeroLane
  {
  }

  lemma RotrOfZero(r: nat)
    requires r <= LaneBits
    ensures Rotr(ZeroLane, r) == ZeroLane
  {
  }

  lemma XorOfZero()
    ensures Xor(ZeroLane, ZeroLane) == ZeroLane
  {
  }

  /** The chi term of three equal lanes is that lane. */
  lemma ChiTermOfEqual(v: Lane)
    ensures Xor(v, And(Not(v), v)) == v
  {
  }

  /** XORing one lane into each of five lanes XORs it once into their parity. */
  lemma XorFiveWithOne(a0: Lane, a1: Lane, a2: Lane, a3: Lane, a4: Lane, d: Lane)
    ensures Xor(Xor(Xor(Xor(Xor(a0, d), Xor(a1, d)), Xor(a2, d)), Xor(a3, d)), Xor(a4, d))
         == Xor(Xor(Xor(Xor(Xor(a0, a1), a2), a3), a4), d)
  {
  }

  /** Bit z of the chi term `a ^ (~b & c)`. */
  lemma ChiTermBit(a: Lane, b: Lane, c: Lane, z: nat)
    requires z < LaneBits
    ensures Xor(a, And(Not(b), c))[z] == (a[z] != (!b[z] && c[z]))
  {
  }

  /** Bit z of the inverse chi term `a ^ (~b & (c ^ (~d & e)))`. */
  lemma ChiInverseTermBit(a: Lane, b: Lane, c: Lane, d: Lane, e: Lane, z: nat)
    requires z < LaneBits
    ensures Xor(a, And(Not(b), Xor(c, And(Not(d), e))))[z] == (a[z] != (!b[z] && (c[z] != (!d[z] && e[z]))))
  {
  }

  /** Left rotation commutes with the chi term `a ^ (~b & c)`. */
  lemma RotlChiTerm(a: Lane, b: Lane, c: Lane, r: nat)
    requires r <= LaneBits
    ensures Rotl(Xor(a, And(Not(b), c)), r) == Xor(Rotl(a, r), And(Not(Rotl(b, r)), Rotl(c, r)))
  {
    forall z | 0 <= z < LaneBits
      ensures Rotl(Xor(a, And(Not(b), c)), r)[z] == Xor(Rotl(a, r), And(Not(Rotl(b, r)), Rotl(c, r)))[z]
    {
      RotlBit(Xor(a, And(Not(b), c)), r, z);
      RotlBit(a, r, z);
      RotlBit(b, r, z);
      RotlBit(c, r, z);
    }
  }

  /** Bit z of `a ^ (rotl1(l) ^ rotr1(r))` is bit z of a flipped by bit z - 1 of l and bit z + 1 of r. */
  lemma XorRotationsBit(a: Lane, l: Lane, r: Lane, z: nat)
    requires z < LaneBits
    ensures Xor(a, Xor(Rotl(l, 1), Rotr(r, 1)))[z] == ((a[z] != l[(z + 63) % 64]) != r[(z + 1) % 64])
  {
    RotlBit(l, 1, z);
    RotrBit(r, 1, z);
  }

  /** Adding a multiple of 64 does not change a remainder mod 64. */
  lemma ModAddMultiple(t: int, k: int)
    ensures (t + 64 * k) % 64 == t % 64
  {
    var q, m := t / 64, t % 64;
    assert t == 64 * q + m;
    assert t + 64 * k == 64 * (q + k) + m;
  }

  /** Two offsets taken off a bit position in either order land on the same bit. */
  lemma SubtractTwice(z: nat, a: nat, b: nat)
    requires z < LaneBits && a <= LaneBits && b <= LaneBits
    ensures ((z - b) % 64 - a) % 64 == ((z - a) % 64 - b) % 64
  {
    var q1, q2 := (z - b) / 64, (z - a) / 64;
    assert (z - b) % 64 - a == (z - a - b) + 64 * (-q1);
    ModAddMultiple(z - a - b, -q1);
    assert (z - a) % 64 - b == (z - a - b) + 64 * (-q2);
    ModAddMultiple(z - a - b, -q2);
  }

  /** Rotations commute. */
  lemma RotlCommute(v: Lane, a: nat, b: nat)
    requires a <= LaneBits && b <= LaneBits
    ensures Rotl(Rotl(v, a), b) == Rotl(Rotl(v, b), a)
  {
    forall z | 0 <= z < LaneBits
      ensures Rotl(Rotl(v, a), b)[z] == Rotl(Rotl(v, b), a)[z]
    {
      RotlCommuteBit(v, a, b, z);
    }
  }

  lemma RotlCommuteBit(v: Lane, a: nat, b: nat, z: nat)
    requires a <= LaneBits && b <= LaneBits && z < LaneBits
    ensures Rotl(Rotl(v, a), b)[z] == Rotl(Rotl(v, b), a)[z]
  {
    RotlBit(Rotl(v, a), b, z);
    RotlBit(v, a, (z - b) % 64);
    RotlBit(Rotl(v, b), a, z);
    RotlBit(v, b, (z - a) % 64);
    SubtractTwice(z, a, b);
  }
}
