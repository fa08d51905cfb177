/**
 The permutation `Keccak_subfuncs`: 24 rounds over the 5 x 5 lanes a
 200-byte buffer is viewed as, each round theta, rho, pi and chi in that
 order. The draft has no iota step (its line for it is unfinished), so a
 round here is the four steps alone, and every round is the same map.

 Two consequences, both false of Keccak-f[1600] with its round constants:
 the all-zero state is a fixed point, and rotating every lane by the same
 amount before the permutation rotates every lane of the result by it.
 */
module KeccakF {
  import opened Lanes
  import opened StateArray
  import opened RoundSteps

  const NumRounds: nat := 24

  datatype Error = BufferTooSmall

  datatype Result<T> = Success(value: T) | Failure(error: Error)

  /** One round of the draft: theta, then rho, then pi, then chi. */
  function Round(s: State): State
  {
    Chi(Pi(Rho(Theta(s))))
  }

  /** `n` rounds, one after the other. */
  function Rounds(s: State, n: nat): State
    decreases n
  {
    if n == 0 then s else Round(Rounds(s, n - 1))
  }

  function Permute(s: State): State
  {
    Rounds(s, NumRounds)
  }

  /**
   `Keccak_subfuncs(state)`: the buffer is viewed as 5 x 5 lanes, which
   needs at least 200 bytes (NumPy refuses a shorter buffer; a longer one
   is viewed through its first 200 bytes); the 24 rounds run, and the
   lanes are written out as 200 bytes in C order.
   */
  function Subfuncs(buf: seq<Byte>): (r: Result<Buffer>)
    ensures r.Success? <==> |buf| >= KeccakBytes
    ensures r.Success? ==> View(r.value) == Permute(View(buf[..KeccakBytes]))
  {
    if |buf| < KeccakBytes then
      Failure(BufferTooSmall)
    else
      var out := Permute(View(buf[..KeccakBytes]));
      ViewOfImage(out);
      Success(ToBytes(out))
  }

  /** The round loop of `Keccak_subfuncs`, step by step on a working array. */
  method KeccakSubfuncs(state: seq<Byte>) returns (r: Result<Buffer>)
    ensures r == Subfuncs(state)
  {
    if |state| < KeccakBytes {
      return Failure(BufferTooSmall);
    }
    var stateArr := View(state[..KeccakBytes]);
    var round := 0;
    while round < NumRounds
      invariant round <= NumRounds
      invariant stateArr == Rounds(View(state[..KeccakBytes]), round)
    {
      stateArr := Theta(stateArr);
      stateArr := Rho(stateArr);
      stateArr := Pi(stateArr);
      stateArr := Chi(stateArr);
      round := round + 1;
    }
    return Success(ToBytes(stateArr));
  }

  /** Running m rounds and then n more is running m + n rounds. */
  lemma {:induction false} RoundsCompose(s: State, m: nat, n: nat)
    ensures Rounds(Rounds(s, m), n) == Rounds(s, m + n)
    decreases n
  {
    if n > 0 {
      RoundsCompose(s, m, n - 1);
    }
  }

  /**
   With no round constant every round is the same map, so a round before
   the permutation is a round after it.
   */
  lemma PermuteCommutesWithRound(s: State)
    ensures Permute(Round(s)) == Round(Permute(s))
  {
    assert Rounds(s, 1) == Round(s);
    RoundsCompose(s, 1, NumRounds);
    assert Rounds(s, 1 + NumRounds) == Round(Rounds(s, NumRounds));
  }

  // ------------------------------------------------------------ zero state

  lemma ThetaOfZeroAt(x: nat, y: nat)
    requires x < PlanesSlices && y < PlanesSlices
    ensures Theta(ZeroState)[y][x] == ZeroState[y][x]
  {
    assert ZeroState[y][x] == ZeroLane;
    forall x' | 0 <= x' < PlanesSlices
      ensures ColumnParity(ZeroState, x') == ZeroLane
    {
      assert ZeroState[0][x'] == ZeroState[1][x'] == ZeroState[2][x'] == ZeroState[3][x'] == ZeroState[4][x'] == ZeroLane;
      XorOfZero();
    }
    ThetaAddsColumnTerm(ZeroState, x, y);
    RotlOfZero(1);
    RotrOfZero(1);
    XorOfZero();
  }

  lemma ThetaOfZero()
    ensures Theta(ZeroState) == ZeroState
  {
    forall y | 0 <= y < PlanesSlices
      ensures Theta(ZeroState)[y] == ZeroState[y]
    {
      forall x | 0 <= x < PlanesSlices
        ensures Theta(ZeroState)[y][x] == ZeroState[y][x]
      {
        ThetaOfZeroAt(x, y);
      }
    }
  }

  lemma RhoOfZero()
    ensures Rho(ZeroState) == ZeroState
  {
    forall y | 0 <= y < PlanesSlices
      ensures Rho(ZeroState)[y] == ZeroState[y]
    {
      forall x | 0 <= x < PlanesSlices
        ensures Rho(ZeroState)[y][x] == ZeroState[y][x]
      {
        RotlOfZero(RhoOffset(x, y));
      }
    }
  }

  /** Pi maps a state whose lanes are all equal to itself. */
  lemma PiOfUniform(v: Lane)
    ensures Pi(Uniform(v)) == Uniform(v)
  {
    forall y | 0 <= y < PlanesSlices
      ensures Pi(Uniform(v))[y] == Uniform(v)[y]
    {
      forall x | 0 <= x < PlanesSlices
        ensures Pi(Uniform(v))[y][x] == Uniform(v)[y][x]
      {
        PiOfUniformAt(v, x, y);
      }
    }
  }

  lemma PiOfUniformAt(v: Lane, x: nat, y: nat)
    requires x < PlanesSlices && y < PlanesSlices
    ensures Pi(Uniform(v))[y][x] == v
  {
    var u := Uniform(v);
    assert Pi(u)[y][x] == u[x][(x + 3 * y) % 5];
  }

  /** Chi maps a state whose lanes are all equal to itself: `v ^ (~v & v)` is `v`. */
  lemma ChiOfUniform(v: Lane)
    ensures Chi(Uniform(v)) == Uniform(v)
  {
    forall y | 0 <= y < PlanesSlices
      ensures Chi(Uniform(v))[y] == Uniform(v)[y]
    {
      forall x | 0 <= x < PlanesSlices
        ensures Chi(Uniform(v))[y][x] == Uniform(v)[y][x]
      {
        ChiOfUniformAt(v, x, y);
      }
    }
  }

  lemma ChiOfUniformAt(v: Lane, x: nat, y: nat)
    requires x < PlanesSlices && y < PlanesSlices
    ensures Chi(Uniform(v))[y][x] == v
  {
    var r := Uniform(v)[y];
    assert Chi(Uniform(v))[y] == ChiRow(r);
    assert r[x] == v && r[(x + 1) % 5] == v && r[(x + 2) % 5] == v;
    ChiTermOfEqual(v);
  }

  /** Without round constants a round maps the all-zero state to itself. */
  lemma RoundOfZero()
    ensures Round(ZeroState) == ZeroState
  {
    ThetaOfZero();
    RhoOfZero();
    PiOfUniform(ZeroLane);
    ChiOfUniform(ZeroLane);
  }

  lemma {:induction false} RoundsOfZero(n: nat)
    ensures Rounds(ZeroState, n) == ZeroState
    decreases n
  {
    if n > 0 {
      RoundsOfZero(n - 1);
      RoundOfZero();
    }
  }

  /** The 200 zero bytes come out of `Keccak_subfuncs` as 200 zero bytes. */
  lemma SubfuncsOfZeros()
    ensures Subfuncs(ZeroBuffer()) == Success(ZeroBuffer())
  {
    var zeros := ZeroBuffer();
    assert zeros[..KeccakBytes] == zeros;
    ZeroImage();
    RoundsOfZero(NumRounds);
  }

  // -------------------------------------------------------- rotation along z

  /** A round commutes with rotating every lane by the same amount. */
  lemma RoundCommutesWithRotation(s: State, r: nat)
    requires r <= LaneBits
    ensures Round(RotateLanes(s, r)) == RotateLanes(Round(s), r)
  {
    ThetaCommutesWithRotation(s, r);
    RhoCommutesWithRotation(Theta(s), r);
    PiCommutesWithRotation(Rho(Theta(s)), r);
    ChiCommutesWithRotation(Pi(Rho(Theta(s))), r);
  }

  lemma {:induction false} RoundsCommuteWithRotation(s: State, r: nat, n: nat)
    requires r <= LaneBits
    ensures Rounds(RotateLanes(s, r), n) == RotateLanes(Rounds(s, n), r)
    decreases n
  {
    if n > 0 {
      RoundsCommuteWithRotation(s, r, n - 1);
      RoundCommutesWithRotation(Rounds(s, n - 1), r);
    }
  }

  /** The whole permutation commutes with rotating every lane by the same amount. */
  lemma PermuteCommutesWithRotation(s: State, r: nat)
    requires r <= LaneBits
    ensures Permute(RotateLanes(s, r)) == RotateLanes(Permute(s), r)
  {
    RoundsCommuteWithRotation(s, r, NumRounds);
  }
}
