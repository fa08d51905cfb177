/**
 The start of `Keccak_256`: one block of input is loaded into the zero
 state, padded, and handed to `Keccak_subfuncs`.

 The sizes follow a 256-bit output: the rate is (1600 - 2 * 256) / 8 = 136
 bytes and the capacity the remaining 64 bytes of the 200-byte state.

 As written, the copy loop stops after 200 - 136 = 64 bytes, the capacity
 rather than the rate, so only the first 64 input bytes reach the state
 (`LoadAsWritten`). The padding then writes 0x80 at the input's length
 and, for inputs shorter than 135 bytes, 0x01 in the last byte of the
 rate; for an input of 135 bytes it writes 0x81 in that byte first, and
 the loop's first step overwrites it with 0x80 (`PadAsWritten`). Inputs of 136 bytes or more get no padding. Only one
 block is ever absorbed, and `Keccak256` permutes this block.

 `Load` and `Pad` are the definitions that bound and that order evidently
 intend: the input is copied up to the rate, and a 135-byte input keeps
 its 0x81. `Absorb`, and everything stated about it, uses them, and
 `Keccak256Corrected` permutes the corrected block.
 */
module Sponge {
  import opened StateArray
  import opened KeccakF

  /** `rate = (1600 - 256 * 2) // 8` */
  const Rate: nat := (1600 - 256 * 2) / 8

  /** `capacity = 1600 // 8 - rate` */
  const Capacity: nat := 1600 / 8 - Rate

  /** The copy loop's bound as written: `len(state_str) - rate`. */
  const CopyBoundAsWritten: nat := KeccakBytes - Rate

  /** The sizes for a 256-bit output: a 136-byte rate, a 64-byte capacity, and the copy bound 64. */
  lemma Sizes()
    ensures Rate == 136 && Capacity == 64 && Rate + Capacity == KeccakBytes
    ensures CopyBoundAsWritten == Capacity
  {
  }

  function Min(a: nat, b: nat): nat
  {
    if a <= b then a else b
  }

  // ---------------------------------------------------------------- loading

  /** The zero state after the first `count` iterations of the copy loop. */
  function Copied(input: seq<Byte>, count: nat): (st: Buffer)
    requires count <= |input| && count <= KeccakBytes
    ensures forall i :: 0 <= i < KeccakBytes ==> st[i] == if i < count then input[i] else 0
    decreases count
  {
    if count == 0 then ZeroBuffer() else Copied(input, count - 1)[count - 1 := input[count - 1]]
  }

  /**
   The copy loop as written: `zip(inputBytes, range(len(state_str) - rate))`
   stops after the shorter of the input and 64 iterations.
   */
  function LoadAsWritten(input: seq<Byte>): (st: Buffer)
    ensures forall i :: 0 <= i < KeccakBytes ==> st[i] == if i < |input| && i < CopyBoundAsWritten then input[i] else 0
  {
    Copied(input, Min(|input|, CopyBoundAsWritten))
  }

  /** The copy loop bounded by the rate: up to 136 bytes of input. */
  function Load(input: seq<Byte>): (st: Buffer)
    ensures forall i :: 0 <= i < KeccakBytes ==> st[i] == if i < |input| && i < Rate then input[i] else 0
  {
    Copied(input, Min(|input|, Rate))
  }

  // ---------------------------------------------------------------- padding

  /**
   Iterations `it .. lenDiff - 1` of the padding loop: iteration 0 writes
   0x80 at the offset, iteration `lenDiff - 1` (when it is not also
   iteration 0) writes 0x01 at `offset + lenDiff - 1`, and the others write
   nothing.
   */
  function PadLoop(st: Buffer, offset: nat, lenDiff: nat, it: nat): (r: Buffer)
    requires offset + lenDiff <= KeccakBytes && it <= lenDiff
    ensures forall i :: 0 <= i < KeccakBytes ==>
      r[i] ==
        (if it == 0 && lenDiff > 0 && i == offset then 0x80
        else if 1 < lenDiff && it < lenDiff && i == offset + lenDiff - 1 then 0x01
        else st[i])
    decreases lenDiff - it
  {
    if it == lenDiff then st
    else if it == 0 then PadLoop(st[offset := 0x80], offset, lenDiff, it + 1)
    else if it == lenDiff - 1 then PadLoop(st[offset + it := 0x01], offset, lenDiff, it + 1)
    else PadLoop(st, offset, lenDiff, it + 1)
  }

  /**
   The padding as written, for an input of `len` bytes: with
   `len_diff = 200 - capacity - len`, nothing happens unless `len_diff > 0`;
   then 0x81 is written at `len` when `len_diff == 1`, and the loop runs.
   */
  function PadAsWritten(st: Buffer, len: nat): (r: Buffer)
    ensures forall i :: 0 <= i < KeccakBytes ==>
      r[i] ==
        (if len < Rate && i == len then 0x80
        else if len + 1 < Rate && i == Rate - 1 then 0x01
        else st[i])
  {
    var lenDiff := KeccakBytes - Capacity - len;
    if lenDiff > 0 then
      var marked := if lenDiff == 1 then st[len := 0x81] else st;
      PadLoop(marked, len, lenDiff, 0)
    else
      st
  }

  /** The padding with the 0x81 written after the loop, so that the loop cannot overwrite it. */
  function Pad(st: Buffer, len: nat): (r: Buffer)
    ensures forall i :: 0 <= i < KeccakBytes ==>
      r[i] ==
        (if len + 1 == Rate && i == len then 0x81
        else if len < Rate && i == len then 0x80
        else if len + 1 < Rate && i == Rate - 1 then 0x01
        else st[i])
  {
    var lenDiff := KeccakBytes - Capacity - len;
    if lenDiff > 0 then
      var padded := PadLoop(st, len, lenDiff, 0);
      if lenDiff == 1 then padded[len := 0x81] else padded
    else
      st
  }

  // ------------------------------------------------------------- absorbing

  /** The 200 bytes `Keccak_256` hands to `Keccak_subfuncs`, as written, byte by byte. */
  function AbsorbAsWritten(input: seq<Byte>): (r: Buffer)
    ensures forall i :: 0 <= i < KeccakBytes ==>
      r[i] ==
        (if i < |input| && i < CopyBoundAsWritten then input[i]
        else if |input| < Rate && i == |input| then 0x80
        else if |input| + 1 < Rate && i == Rate - 1 then 0x01
        else 0)
  {
    PadAsWritten(LoadAsWritten(input), |input|)
  }

  /** The first block: the input up to the rate, then the padding, then zeros. */
  function Absorb(input: seq<Byte>): (r: Buffer)
    ensures forall i :: 0 <= i < KeccakBytes ==>
      r[i] ==
        (if i < |input| && i < Rate then input[i]
        else if |input| + 1 == Rate && i == |input| then 0x81
        else if |input| < Rate && i == |input| then 0x80
        else if |input| + 1 < Rate && i == Rate - 1 then 0x01
        else 0)
  {
    Pad(Load(input), |input|)
  }

  /** As written, the block depends on the input only through its length and first 64 bytes. */
  lemma AsWrittenSeesOnlyPrefix(a: seq<Byte>, b: seq<Byte>)
    requires |a| == |b|
    requires a[..Min(|a|, CopyBoundAsWritten)] == b[..Min(|b|, CopyBoundAsWritten)]
    ensures AbsorbAsWritten(a) == AbsorbAsWritten(b)
  {
    var n := Min(|a|, CopyBoundAsWritten);
    forall i | 0 <= i < KeccakBytes
      ensures AbsorbAsWritten(a)[i] == AbsorbAsWritten(b)[i]
    {
      if i < n {
        assert a[..n][i] == b[..n][i];
      }
    }
  }

  /** As written, two 65-byte inputs that differ in their last byte give the same block. */
  lemma AsWrittenDropsInputByte()
    ensures var a: seq<Byte> := seq(65, _ => 0);
      var b := a[64 := 1];
      a != b && AbsorbAsWritten(a) == AbsorbAsWritten(b)
  {
    var a: seq<Byte> := seq(65, _ => 0);
    var b := a[64 := 1];
    assert a[64] != b[64];
    assert a[..64] == b[..64];
    AsWrittenSeesOnlyPrefix(a, b);
  }

  /**
   As written, the last byte of the rate carries the final padding bit 0x01
   for every short input except one of 135 bytes, whose block ends in 0x80.
   */
  lemma AsWrittenFinalBit(input: seq<Byte>)
    requires |input| < Rate
    ensures AbsorbAsWritten(input)[Rate - 1] % 2 == 1 <==> |input| + 1 < Rate
    ensures |input| + 1 == Rate ==> AbsorbAsWritten(input)[Rate - 1] == 0x80
  {
  }

  /** For every input shorter than the rate the block starts with the input and ends its rate with 0x01 set. */
  lemma AbsorbFinalBit(input: seq<Byte>)
    requires |input| < Rate
    ensures Absorb(input)[..|input|] == input
    ensures Absorb(input)[|input|] / 0x80 == 1
    ensures Absorb(input)[Rate - 1] % 2 == 1
  {
    forall i | 0 <= i < |input|
      ensures Absorb(input)[i] == input[i]
    {
    }
  }

  /** The capacity part of the block, bytes 136 .. 199, stays zero. */
  lemma CapacityStaysZero(input: seq<Byte>, i: nat)
    requires Rate <= i < KeccakBytes
    ensures Absorb(input)[i] == 0
    ensures AbsorbAsWritten(input)[i] == 0
  {
  }

  /** The padded block tells apart any two inputs shorter than the rate. */
  lemma AbsorbInjective(a: seq<Byte>, b: seq<Byte>)
    requires |a| < Rate && |b| < Rate
    requires Absorb(a) == Absorb(b)
    ensures a == b
  {
    if |a| < |b| {
      ShorterDiffers(a, b);
    } else if |b| < |a| {
      ShorterDiffers(b, a);
    } else {
      AbsorbFinalBit(a);
      AbsorbFinalBit(b);
    }
  }

  /** A shorter input's block differs from a longer one's after the shorter input ends. */
  lemma ShorterDiffers(a: seq<Byte>, b: seq<Byte>)
    requires |a| < |b| < Rate
    ensures Absorb(a) != Absorb(b)
  {
    if |b| + 1 < Rate {
      assert Absorb(a)[|b|] == 0 && Absorb(b)[|b|] == 0x80;
    } else {
      assert Absorb(a)[Rate - 1] == 0x01 && Absorb(b)[Rate - 1] == 0x81;
    }
  }

  /**
   For an input of at most 64 bytes the two bounds of the copy loop agree,
   and 0x81 is never needed, so the block as written is the corrected one.
   */
  lemma AbsorbAgreesWithinCopyBound(input: seq<Byte>)
    requires |input| <= CopyBoundAsWritten
    ensures AbsorbAsWritten(input) == Absorb(input)
  {
    forall i | 0 <= i < KeccakBytes
      ensures AbsorbAsWritten(input)[i] == Absorb(input)[i]
    {
    }
  }

  // ------------------------------------------------------------- the hash

  /**
   What `Keccak_256` computes before it returns: the permutation of the
   block its copy loop and padding build, as `Keccak_subfuncs` writes it out.
   */
  function Keccak256(input: seq<Byte>): (r: Result<Buffer>)
    ensures r.Success?
    ensures View(r.value) == Permute(View(AbsorbAsWritten(input)))
  {
    var block := AbsorbAsWritten(input);
    assert block[..KeccakBytes] == block;
    Subfuncs(block)
  }

  /** The same call on the corrected block. */
  function Keccak256Corrected(input: seq<Byte>): (r: Result<Buffer>)
    ensures r.Success?
    ensures View(r.value) == Permute(View(Absorb(input)))
  {
    var block := Absorb(input);
    assert block[..KeccakBytes] == block;
    Subfuncs(block)
  }

  /** On inputs of at most 64 bytes the draft and the corrected block give the same permuted state. */
  lemma CorrectedAgreesWithinCopyBound(input: seq<Byte>)
    requires |input| <= CopyBoundAsWritten
    ensures Keccak256(input) == Keccak256Corrected(input)
  {
    AbsorbAgreesWithinCopyBound(input);
  }
}
