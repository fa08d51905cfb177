/**
 The four round steps the draft writes out in `Keccak_subfuncs`: theta,
 rho, pi and chi, each a pure map from state to state.

 Theta and rho are modelled as the draft writes them, which is not what
 FIPS 202 prescribes: theta's column term is `rotl1(C[x-1]) ^ rotr1(C[x+1])`
 where section 3.2.1 of FIPS 202 has `C[x-1] ^ rotl1(C[x+1])`, and the rho
 table is the FIPS 202 offset table transposed. Pi and chi agree with
 sections 3.2.3 and 3.2.4 of FIPS 202.
 */
module RoundSteps {
  import opened Lanes
  import opened StateArray
  import Permutations

  /** Every lane rotated left by the same amount: a shift of the whole state along z. */
  function RotateLanes(s: State, r: nat): State
    requires r <= LaneBits
  {
    seq(PlanesSlices, y requires 0 <= y < PlanesSlices =>
      seq(PlanesSlices, x requires 0 <= x < PlanesSlices => Rotl(s[y][x], r)))
  }

  // ---------------------------------------------------------------- theta

  /** Column parity `C[x]` of FIPS 202: the XOR of the five lanes of column x. */
  function ColumnParity(s: State, x: nat): Lane
    requires x < PlanesSlices
  {
    Xor(Xor(Xor(Xor(s[0][x], s[1][x]), s[2][x]), s[3][x]), s[4][x])
  }

  /** `state_arr << 1 | state_arr >> 63`, lane by lane. */
  function LeftShift(v: Lane): Lane
  {
    Or(Shl(v, 1), Shr(v, 63))
  }

  /** `state_arr >> 1 | state_arr << 63`, lane by lane. */
  function RightShift(v: Lane): Lane
  {
    Or(Shr(v, 1), Shl(v, 63))
  }

  /** `leftFlat[x]`: zero, XORed with `leftShift[y][x]` for y = 0 .. 4. */
  function LeftFlat(s: State, x: nat): Lane
    requires x < PlanesSlices
  {
    Xor(Xor(Xor(Xor(Xor(ZeroLane, LeftShift(s[0][x])), LeftShift(s[1][x])), LeftShift(s[2][x])),
        LeftShift(s[3][x])), LeftShift(s[4][x]))
  }

  /** `rightFlat[x]`: the same with `rightShift`. */
  function RightFlat(s: State, x: nat): Lane
    requires x < PlanesSlices
  {
    Xor(Xor(Xor(Xor(Xor(ZeroLane, RightShift(s[0][x])), RightShift(s[1][x])), RightShift(s[2][x])),
        RightShift(s[3][x])), RightShift(s[4][x]))
  }

  /** `columnsXORed[x]`, with Python's non-negative `%` on `x - 1`. */
  function ThetaColumn(s: State, x: nat): Lane
    requires x < PlanesSlices
  {
    Xor(LeftFlat(s, (x - 1) % 5), RightFlat(s, (x + 1) % 5))
  }

  /** `columnsXORed`: the five column terms. */
  function ThetaColumns(s: State): (d: Plane)
  {
    seq(PlanesSlices, x requires 0 <= x < PlanesSlices => ThetaColumn(s, x))
  }

  /** Every lane of column x XORed with `d[x]`: the draft's double loop `state_arr[y][x] ^= columnsXORed[x]`. */
  function XorColumns(s: State, d: Plane): State
  {
    seq(PlanesSlices, y requires 0 <= y < PlanesSlices =>
      seq(PlanesSlices, x requires 0 <= x < PlanesSlices => Xor(s[y][x], d[x])))
  }

  /** Theta: every lane of column x is XORed with `columnsXORed[x]`. */
  function Theta(s: State): State
  {
    XorColumns(s, ThetaColumns(s))
  }

  /** XORing the five lanes of a column, each rotated left by one, is rotating the column parity. */
  lemma LeftFlatIsRotatedParity(s: State, x: nat)
    requires x < PlanesSlices
    ensures LeftFlat(s, x) == Rotl(ColumnParity(s, x), 1)
  {
    var c := ColumnParity(s, x);
    forall z | 0 <= z < LaneBits
      ensures LeftFlat(s, x)[z] == Rotl(c, 1)[z]
    {
      RotlBit(c, 1, z);
    }
  }

  lemma RightFlatIsRotatedParity(s: State, x: nat)
    requires x < PlanesSlices
    ensures RightFlat(s, x) == Rotr(ColumnParity(s, x), 1)
  {
    var c := ColumnParity(s, x);
    forall z | 0 <= z < LaneBits
      ensures RightFlat(s, x)[z] == Rotr(c, 1)[z]
    {
      RotrBit(c, 1, z);
    }
  }

  /** The value theta XORs into column x is `rotl1(C[x-1]) ^ rotr1(C[x+1])` in terms of the column parities. */
  lemma ThetaColumnIsRotatedParities(s: State, x: nat)
    requires x < PlanesSlices
    ensures ThetaColumn(s, x) == Xor(Rotl(ColumnParity(s, (x + 4) % 5), 1), Rotr(ColumnParity(s, (x + 1) % 5), 1))
  {
    assert (x - 1) % 5 == (x + 4) % 5;
    LeftFlatIsRotatedParity(s, (x + 4) % 5);
    RightFlatIsRotatedParity(s, (x + 1) % 5);
  }

  /** Theta XORs one and the same value into all five lanes of column x, and that value is `rotl1(C[x-1]) ^ rotr1(C[x+1])`. */
  lemma ThetaAddsColumnTerm(s: State, x: nat, y: nat)
    requires x < PlanesSlices && y < PlanesSlices
    ensures Theta(s)[y][x] == Xor(s[y][x], Xor(Rotl(ColumnParity(s, (x + 4) % 5), 1), Rotr(ColumnParity(s, (x + 1) % 5), 1)))
  {
    ThetaColumnIsRotatedParities(s, x);
  }

  /**
   Theta bit by bit: bit z of lane (x, y) is flipped by the parity of column
   x - 1 at bit z - 1 and by the parity of column x + 1 at bit z + 1.
   */
  lemma ThetaBit(s: State, x: nat, y: nat, z: nat)
    requires x < PlanesSlices && y < PlanesSlices && z < LaneBits
    ensures Theta(s)[y][x][z]
         == ((s[y][x][z] != ColumnParity(s, (x + 4) % 5)[(z + 63) % 64]) != ColumnParity(s, (x + 1) % 5)[(z + 1) % 64])
  {
    ThetaAddsColumnTerm(s, x, y);
    XorRotationsBit(s[y][x], ColumnParity(s, (x + 4) % 5), ColumnParity(s, (x + 1) % 5), z);
  }

  /** XORing a value into each column keeps the XOR of any two lanes of one column. */
  lemma XorColumnsKeepsDifferences(s: State, d: Plane, x: nat, y1: nat, y2: nat)
    requires x < PlanesSlices && y1 < PlanesSlices && y2 < PlanesSlices
    ensures Xor(XorColumns(s, d)[y1][x], XorColumns(s, d)[y2][x]) == Xor(s[y1][x], s[y2][x])
  {
    XorCancels(s[y1][x], s[y2][x], d[x]);
  }

  /** Two lanes of one column keep their XOR through theta. */
  lemma ThetaKeepsColumnDifferences(s: State, x: nat, y1: nat, y2: nat)
    requires x < PlanesSlices && y1 < PlanesSlices && y2 < PlanesSlices
    ensures Xor(Theta(s)[y1][x], Theta(s)[y2][x]) == Xor(s[y1][x], s[y2][x])
  {
    XorColumnsKeepsDifferences(s, ThetaColumns(s), x, y1, y2);
  }

  /** XORing one value into the five lanes of column x moves the column's parity by that value. */
  lemma XorColumnsParity(s: State, d: Plane, x: nat)
    requires x < PlanesSlices
    ensures ColumnParity(XorColumns(s, d), x) == Xor(ColumnParity(s, x), d[x])
  {
    XorFiveWithOne(s[0][x], s[1][x], s[2][x], s[3][x], s[4][x], d[x]);
  }

  /** Five copies of the column term cancel to one: theta moves the parity of column x by that term. */
  lemma ThetaColumnParity(s: State, x: nat)
    requires x < PlanesSlices
    ensures ColumnParity(Theta(s), x) == Xor(ColumnParity(s, x), ThetaColumn(s, x))
  {
    XorColumnsParity(s, ThetaColumns(s), x);
  }

  /** The parity of a column of rotated lanes is the rotated parity. */
  lemma ParityOfRotated(s: State, r: nat, x: nat)
    requires r <= LaneBits && x < PlanesSlices
    ensures ColumnParity(RotateLanes(s, r), x) == Rotl(ColumnParity(s, x), r)
  {
    var t := RotateLanes(s, r);
    assert t[0][x] == Rotl(s[0][x], r) && t[1][x] == Rotl(s[1][x], r) && t[2][x] == Rotl(s[2][x], r);
    assert t[3][x] == Rotl(s[3][x], r) && t[4][x] == Rotl(s[4][x], r);
    RotlXor(s[0][x], s[1][x], r);
    RotlXor(Xor(s[0][x], s[1][x]), s[2][x], r);
    RotlXor(Xor(Xor(s[0][x], s[1][x]), s[2][x]), s[3][x], r);
    RotlXor(Xor(Xor(Xor(s[0][x], s[1][x]), s[2][x]), s[3][x]), s[4][x], r);
  }

  lemma ThetaLaneCommutesWithRotation(s: State, r: nat, x: nat, y: nat)
    requires r <= LaneBits && x < PlanesSlices && y < PlanesSlices
    ensures Theta(RotateLanes(s, r))[y][x] == RotateLanes(Theta(s), r)[y][x]
  {
    var t := RotateLanes(s, r);
    var cl, cr := ColumnParity(s, (x + 4) % 5), ColumnParity(s, (x + 1) % 5);
    ThetaAddsColumnTerm(s, x, y);
    ThetaAddsColumnTerm(t, x, y);
    ParityOfRotated(s, r, (x + 4) % 5);
    ParityOfRotated(s, r, (x + 1) % 5);
    RotlCommute(cl, r, 1);
    RotrOneIsRotl63(Rotl(cr, r));
    RotrOneIsRotl63(cr);
    RotlCommute(cr, r, 63);
    RotlXor(Rotl(cl, 1), Rotr(cr, 1), r);
    RotlXor(s[y][x], Xor(Rotl(cl, 1), Rotr(cr, 1)), r);
  }

  /** Theta commutes with rotating every lane by the same amount. */
  lemma ThetaCommutesWithRotation(s: State, r: nat)
    requires r <= LaneBits
    ensures Theta(RotateLanes(s, r)) == RotateLanes(Theta(s), r)
  {
    forall y | 0 <= y < PlanesSlices
      ensures Theta(RotateLanes(s, r))[y] == RotateLanes(Theta(s), r)[y]
    {
      forall x | 0 <= x < PlanesSlices
        ensures Theta(RotateLanes(s, r))[y][x] == RotateLanes(Theta(s), r)[y][x]
      {
        ThetaLaneCommutesWithRotation(s, r, x, y);
      }
    }
  }

  // ------------------------------------------------------------------ rho

  /** `RHO_SHIFTS`, row by row as the draft lists it. */
  const RhoShifts: seq<seq<nat>> :=
    [ [0, 36, 3, 41, 18],
      [1, 44, 10, 45, 2],
      [62, 6, 43, 15, 61],
      [28, 55, 25, 21, 56],
      [27, 20, 39, 8, 14] ]

  /** The draft rotates `state_arr[y][x]`, lane (x, y), by `RHO_SHIFTS[y][x]`. */
  function RhoOffset(x: nat, y: nat): (r: nat)
    requires x < PlanesSlices && y < PlanesSlices
    ensures r < LaneBits
  {
    RhoShifts[y][x]
  }

  /** Rho: `state_arr << RHO_SHIFTS | state_arr >> (64 - RHO_SHIFTS)`, lane by lane. */
  function Rho(s: State): State
  {
    seq(PlanesSlices, y requires 0 <= y < PlanesSlices =>
      seq(PlanesSlices, x requires 0 <= x < PlanesSlices => Rotl(s[y][x], RhoOffset(x, y))))
  }

  /** The inverse of rho: every lane rotated right by the same offset. */
  function RhoInverse(s: State): State
  {
    seq(PlanesSlices, y requires 0 <= y < PlanesSlices =>
      seq(PlanesSlices, x requires 0 <= x < PlanesSlices => Rotr(s[y][x], RhoOffset(x, y))))
  }

  /** Rho is invertible: rotating every lane back by its offset undoes it, in either order. */
  lemma RhoInvertible(s: State)
    ensures RhoInverse(Rho(s)) == s
    ensures Rho(RhoInverse(s)) == s
  {
    forall y | 0 <= y < PlanesSlices
      ensures RhoInverse(Rho(s))[y] == s[y] && Rho(RhoInverse(s))[y] == s[y]
    {
      forall x | 0 <= x < PlanesSlices
        ensures RhoInverse(Rho(s))[y][x] == s[y][x] && Rho(RhoInverse(s))[y][x] == s[y][x]
      {
        RotrUndoesRotl(s[y][x], RhoOffset(x, y));
      }
    }
  }

  /** Lane (0, 0) has offset 0 and passes through rho unchanged; the shift by 64 of its pair contributes nothing. */
  lemma RhoKeepsOrigin(s: State)
    ensures Rho(s)[0][0] == s[0][0]
  {
    RotlByZero(s[0][0]);
  }

  /** Rho commutes with rotating every lane by the same amount. */
  lemma RhoCommutesWithRotation(s: State, r: nat)
    requires r <= LaneBits
    ensures Rho(RotateLanes(s, r)) == RotateLanes(Rho(s), r)
  {
    forall y | 0 <= y < PlanesSlices
      ensures Rho(RotateLanes(s, r))[y] == RotateLanes(Rho(s), r)[y]
    {
      forall x | 0 <= x < PlanesSlices
        ensures Rho(RotateLanes(s, r))[y][x] == RotateLanes(Rho(s), r)[y][x]
      {
        RotlCommute(s[y][x], r, RhoOffset(x, y));
      }
    }
  }

  /**
   The lane walk of FIPS 202 section 3.2.2 that fixes the rho offsets: it
   starts at lane (1, 0) and steps (x, y) to (y, 2x + 3y mod 5); the lane
   reached at step t, for t = 0 .. 23, is rotated by (t + 1)(t + 2)/2 mod 64.
   The walk visits each of the 24 lanes other than (0, 0) once.
   */
  function RhoWalk(t: nat): (p: (nat, nat))
    ensures p.0 < PlanesSlices && p.1 < PlanesSlices
  {
    if t == 0 then (1, 0) else var (x, y) := RhoWalk(t - 1); (y, (2 * x + 3 * y) % 5)
  }

  /** The 24 steps of the walk, evaluated. */
  lemma WalkValues()
    ensures RhoWalk(0) == (1, 0) && RhoWalk(1) == (0, 2) && RhoWalk(2) == (2, 1) && RhoWalk(3) == (1, 2) && RhoWalk(4) == (2, 3) && RhoWalk(5) == (3, 3) && RhoWalk(6) == (3, 0) && RhoWalk(7) == (0, 1) && RhoWalk(8) == (1, 3) && RhoWalk(9) == (3, 1) && RhoWalk(10) == (1, 4) && RhoWalk(11) == (4, 4) && RhoWalk(12) == (4, 0) && RhoWalk(13) == (0, 3) && RhoWalk(14) == (3, 4) && RhoWalk(15) == (4, 3) && RhoWalk(16) == (3, 2) && RhoWalk(17) == (2, 2) && RhoWalk(18) == (2, 0) && RhoWalk(19) == (0, 4) && RhoWalk(20) == (4, 2) && RhoWalk(21) == (2, 4) && RhoWalk(22) == (4, 1) && RhoWalk(23) == (1, 1)
  {
  }

  /** The standard offset of the lane reached at step t of the walk. */
  function StandardOffset(t: nat): (r: nat)
    ensures r < LaneBits
  {
    ((t + 1) * (t + 2) / 2) % 64
  }

  /**
   `RHO_SHIFTS` is the standard offset table transposed: the draft rotates
   lane (x, y) by the offset FIPS 202 gives to lane (y, x). The two agree
   on the five diagonal lanes and differ on all twenty others.
   */
  lemma RhoOffsetsAreStandardTransposed(x: nat, y: nat)
    requires x < PlanesSlices && y < PlanesSlices && !(x == 0 && y == 0)
    ensures exists t :: t < 24 && RhoWalk(t) == (y, x) && RhoOffset(x, y) == StandardOffset(t)
  {
    if x == 0 {
      StandardColumn0(x, y);
    } else if x == 1 {
      StandardColumn1(x, y);
    } else if x == 2 {
      StandardColumn2(x, y);
    } else if x == 3 {
      StandardColumn3(x, y);
    } else {
      StandardColumn4(x, y);
    }
  }

  lemma StandardColumn0(x: nat, y: nat)
    requires x == 0 && 0 < y < PlanesSlices
    ensures exists t :: t < 24 && RhoWalk(t) == (y, x) && RhoOffset(x, y) == StandardOffset(t)
  {
    WalkValues();
    if y == 1 {
      assert RhoWalk(0) == (y, x);
    } else if y == 2 {
      assert RhoWalk(18) == (y, x);
    } else if y == 3 {
      assert RhoWalk(6) == (y, x);
    } else {
      assert RhoWalk(12) == (y, x);
    }
  }

  lemma StandardColumn1(x: nat, y: nat)
    requires x == 1 && y < PlanesSlices
    ensures exists t :: t < 24 && RhoWalk(t) == (y, x) && RhoOffset(x, y) == StandardOffset(t)
  {
    WalkValues();
    if y == 0 {
      assert RhoWalk(7) == (y, x);
    } else if y == 1 {
      assert RhoWalk(23) == (y, x);
    } else if y == 2 {
      assert RhoWalk(2) == (y, x);
    } else if y == 3 {
      assert RhoWalk(9) == (y, x);
    } else {
      assert RhoWalk(22) == (y, x);
    }
  }

  lemma StandardColumn2(x: nat, y: nat)
    requires x == 2 && y < PlanesSlices
    ensures exists t :: t < 24 && RhoWalk(t) == (y, x) && RhoOffset(x, y) == StandardOffset(t)
  {
    WalkValues();
    if y == 0 {
      assert RhoWalk(1) == (y, x);
    } else if y == 1 {
      assert RhoWalk(3) == (y, x);
    } else if y == 2 {
      assert RhoWalk(17) == (y, x);
    } else if y == 3 {
      assert RhoWalk(16) == (y, x);
    } else {
      assert RhoWalk(20) == (y, x);
    }
  }

  lemma StandardColumn3(x: nat, y: nat)
    requires x == 3 && y < PlanesSlices
    ensures exists t :: t < 24 && RhoWalk(t) == (y, x) && RhoOffset(x, y) == StandardOffset(t)
  {
    WalkValues();
    if y == 0 {
      assert RhoWalk(13) == (y, x);
    } else if y == 1 {
      assert RhoWalk(8) == (y, x);
    } else if y == 2 {
      assert RhoWalk(4) == (y, x);
    } else if y == 3 {
      assert RhoWalk(5) == (y, x);
    } else {
      assert RhoWalk(15) == (y, x);
    }
  }

  lemma StandardColumn4(x: nat, y: nat)
    requires x == 4 && y < PlanesSlices
    ensures exists t :: t < 24 && RhoWalk(t) == (y, x) && RhoOffset(x, y) == StandardOffset(t)
  {
    WalkValues();
    if y == 0 {
      assert RhoWalk(19) == (y, x);
    } else if y == 1 {
      assert RhoWalk(10) == (y, x);
    } else if y == 2 {
      assert RhoWalk(21) == (y, x);
    } else if y == 3 {
      assert RhoWalk(14) == (y, x);
    } else {
      assert RhoWalk(11) == (y, x);
    }
  }

  // ------------------------------------------------------------------- pi

  /** Pi: the new lane (x, y) is the old lane ((x + 3y) mod 5, x), `state[y][x] = state_arr[x][(x+3*y)%5]`. */
  function Pi(s: State): State
  {
    seq(PlanesSlices, y requires 0 <= y < PlanesSlices =>
      seq(PlanesSlices, x requires 0 <= x < PlanesSlices => s[x][(x + 3 * y) % 5]))
  }

  /** Where pi sends lane (c, r): to (r, (2c + 3r) mod 5). Read back, this undoes pi. */
  function PiInverse(s: State): State
  {
    seq(PlanesSlices, r requires 0 <= r < PlanesSlices =>
      seq(PlanesSlices, c requires 0 <= c < PlanesSlices => s[(2 * c + 3 * r) % 5][r]))
  }

  /** The two coordinate maps of pi undo each other. */
  lemma PiCoordinates(a: nat, b: nat)
    requires a < PlanesSlices && b < PlanesSlices
    ensures (b + 3 * ((2 * a + 3 * b) % 5)) % 5 == a
    ensures (2 * ((a + 3 * b) % 5) + 3 * a) % 5 == b
  {
    var q1, u := (2 * a + 3 * b) / 5, (2 * a + 3 * b) % 5;
    assert 2 * a + 3 * b == 5 * q1 + u;
    assert b + 3 * u == a + 5 * (a + 2 * b - 3 * q1);
    AddMultipleOfFive(a, a + 2 * b - 3 * q1);
    var q2, v := (a + 3 * b) / 5, (a + 3 * b) % 5;
    assert a + 3 * b == 5 * q2 + v;
    assert 2 * v + 3 * a == b + 5 * (a + b - 2 * q2);
    AddMultipleOfFive(b, a + b - 2 * q2);
  }

  lemma PiInvertibleAt(s: State, x: nat, y: nat)
    requires x < PlanesSlices && y < PlanesSlices
    ensures PiInverse(Pi(s))[y][x] == s[y][x] && Pi(PiInverse(s))[y][x] == s[y][x]
  {
    PiCoordinates(x, y);
    var c := (2 * x + 3 * y) % 5;
    assert PiInverse(Pi(s))[y][x] == Pi(s)[c][y];
    assert Pi(s)[c][y] == s[y][(y + 3 * c) % 5];
    var d := (x + 3 * y) % 5;
    assert Pi(PiInverse(s))[y][x] == PiInverse(s)[x][d];
    assert PiInverse(s)[x][d] == s[(2 * d + 3 * x) % 5][x];
  }

  /** Pi only moves lanes: undoing it restores the state, in either order. */
  lemma PiInvertible(s: State)
    ensures PiInverse(Pi(s)) == s
    ensures Pi(PiInverse(s)) == s
  {
    forall y | 0 <= y < PlanesSlices
      ensures PiInverse(Pi(s))[y] == s[y] && Pi(PiInverse(s))[y] == s[y]
    {
      forall x | 0 <= x < PlanesSlices
        ensures PiInverse(Pi(s))[y][x] == s[y][x] && Pi(PiInverse(s))[y][x] == s[y][x]
      {
        PiInvertibleAt(s, x, y);
      }
    }
  }

  /** Flat position the lane at flat position `k` of the pi output is read from. */
  function PiSource(k: nat): (j: nat)
    requires k < KeccakLanes
    ensures j < KeccakLanes
  {
    var x, y := k % 5, k / 5;
    5 * x + (x + 3 * y) % 5
  }

  /** Flat position the lane at flat position `j` is moved to: `PiInverse` read in C order. */
  function PiTarget(j: nat): (k: nat)
    requires j < KeccakLanes
    ensures k < KeccakLanes
  {
    var c, r := j % 5, j / 5;
    5 * ((2 * c + 3 * r) % 5) + r
  }

  /** Every output position gets back from its source position: the source map is one to one. */
  lemma PiTargetOfSource(k: nat)
    requires k < KeccakLanes
    ensures PiTarget(PiSource(k)) == k
  {
    var x, y := k % 5, k / 5;
    var c := (x + 3 * y) % 5;
    Split5(x, c);
    PiCoordinates(x, y);
  }

  /** Pi keeps the multiset of lane values. */
  lemma PiKeepsLanes(s: State)
    ensures multiset(Flat(Pi(s))) == multiset(Flat(s))
  {
    var p := seq(KeccakLanes, k requires 0 <= k < KeccakLanes => PiSource(k));
    forall i, j | 0 <= i < j < KeccakLanes
      ensures p[i] != p[j]
    {
      PiTargetOfSource(i);
      PiTargetOfSource(j);
    }
    forall k | 0 <= k < KeccakLanes
      ensures Flat(Pi(s))[k] == Flat(s)[p[k]]
    {
      var x, y := k % 5, k / 5;
      var c := (x + 3 * y) % 5;
      FlatAt(s, c, x);
    }
    Permutations.InjectiveRearrangementKeepsMultiset(Flat(Pi(s)), Flat(s), p);
  }

  /** Pi commutes with rotating every lane by the same amount: it only moves lanes. */
  lemma PiCommutesWithRotation(s: State, r: nat)
    requires r <= LaneBits
    ensures Pi(RotateLanes(s, r)) == RotateLanes(Pi(s), r)
  {
    forall y | 0 <= y < PlanesSlices
      ensures Pi(RotateLanes(s, r))[y] == RotateLanes(Pi(s), r)[y]
    {
      forall x | 0 <= x < PlanesSlices
        ensures Pi(RotateLanes(s, r))[y][x] == RotateLanes(Pi(s), r)[y][x]
      {
      }
    }
  }

  // ------------------------------------------------------------------ chi

  /** Chi on one row of five lanes: `A[x] ^ (~A[x+1] & A[x+2])`, all read from the row as it was. */
  function ChiRow(r: Plane): Plane
  {
    seq(PlanesSlices, x requires 0 <= x < PlanesSlices => ChiLane(r, x))
  }

  /** Lane x of a row after chi: `A[x] ^ (~A[x+1] & A[x+2])`, indices mod 5. */
  function ChiLane(r: Plane, x: nat): Lane
    requires x < PlanesSlices
  {
    Xor(r[x], And(Not(r[(x + 1) % 5]), r[(x + 2) % 5]))
  }

  /** Chi, written into a fresh array from the staged copy, row by row. */
  function Chi(s: State): State
  {
    seq(PlanesSlices, y requires 0 <= y < PlanesSlices => ChiRow(s[y]))
  }

  /** Output row y depends only on input row y. */
  lemma ChiRowLocal(s: State, t: State, y: nat)
    requires y < PlanesSlices
    requires s[y] == t[y]
    ensures Chi(s)[y] == Chi(t)[y]
  {
  }

  lemma ChiLaneCommutesWithRotation(s: State, r: nat, x: nat, y: nat)
    requires r <= LaneBits && x < PlanesSlices && y < PlanesSlices
    ensures Chi(RotateLanes(s, r))[y][x] == RotateLanes(Chi(s), r)[y][x]
  {
    var a, b, c := s[y][x], s[y][(x + 1) % 5], s[y][(x + 2) % 5];
    var t := RotateLanes(s, r);
    assert t[y][x] == Rotl(a, r) && t[y][(x + 1) % 5] == Rotl(b, r) && t[y][(x + 2) % 5] == Rotl(c, r);
    assert Chi(t)[y][x] == Xor(Rotl(a, r), And(Not(Rotl(b, r)), Rotl(c, r)));
    assert Chi(s)[y][x] == Xor(a, And(Not(b), c));
    RotlChiTerm(a, b, c, r);
  }

  /** Chi commutes with rotating every lane by the same amount: it acts on each bit slice z alike. */
  lemma ChiCommutesWithRotation(s: State, r: nat)
    requires r <= LaneBits
    ensures Chi(RotateLanes(s, r)) == RotateLanes(Chi(s), r)
  {
    forall y | 0 <= y < PlanesSlices
      ensures Chi(RotateLanes(s, r))[y] == RotateLanes(Chi(s), r)[y]
    {
      forall x | 0 <= x < PlanesSlices
        ensures Chi(RotateLanes(s, r))[y][x] == RotateLanes(Chi(s), r)[y][x]
      {
        ChiLaneCommutesWithRotation(s, r, x, y);
      }
    }
  }

  /**
   The inverse of chi on a row of five lanes:
   `A[x] ^ (~A[x+1] & (A[x+2] ^ (~A[x+3] & A[x+4])))`.
   */
  function ChiRowInverse(r: Plane): Plane
  {
    seq(PlanesSlices, x requires 0 <= x < PlanesSlices => ChiInverseLane(r, x))
  }

  function ChiInverseLane(r: Plane, x: nat): Lane
    requires x < PlanesSlices
  {
    Xor(r[x], And(Not(r[(x + 1) % 5]), Xor(r[(x + 2) % 5], And(Not(r[(x + 3) % 5]), r[(x + 4) % 5]))))
  }

  function ChiInverse(s: State): State
  {
    seq(PlanesSlices, y requires 0 <= y < PlanesSlices => ChiRowInverse(s[y]))
  }

  /** Bit z of the five lanes of a row, lane 0 first. */
  function Column(r: Plane, z: nat): (c: seq<bool>)
    requires z < LaneBits
    ensures |c| == PlanesSlices
  {
    [r[0][z], r[1][z], r[2][z], r[3][z], r[4][z]]
  }

  /** Two rows that agree at every bit position are equal. */
  lemma PlanesAgree(u: Plane, r: Plane)
    requires forall z :: 0 <= z < LaneBits ==> Column(u, z) == Column(r, z)
    ensures u == r
  {
    forall x | 0 <= x < PlanesSlices
      ensures u[x] == r[x]
    {
      forall z | 0 <= z < LaneBits
        ensures u[x][z] == r[x][z]
      {
        assert Column(u, z)[x] == Column(r, z)[x];
      }
    }
  }

  /** Chi on five bits, one from each lane of a row. */
  function ChiBits(b: seq<bool>): (c: seq<bool>)
    requires |b| == PlanesSlices
    ensures |c| == PlanesSlices
  {
    [b[0] != (!b[1] && b[2]), b[1] != (!b[2] && b[3]), b[2] != (!b[3] && b[4]), b[3] != (!b[4] && b[0]), b[4] != (!b[0] && b[1])]
  }

  function ChiInverseBits(b: seq<bool>): (c: seq<bool>)
    requires |b| == PlanesSlices
    ensures |c| == PlanesSlices
  {
    [ b[0] != (!b[1] && (b[2] != (!b[3] && b[4]))), b[1] != (!b[2] && (b[3] != (!b[4] && b[0]))),
      b[2] != (!b[3] && (b[4] != (!b[0] && b[1]))), b[3] != (!b[4] && (b[0] != (!b[1] && b[2]))),
      b[4] != (!b[0] && (b[1] != (!b[2] && b[3]))) ]
  }

  /** On five bits the chi map and its inverse undo each other. */
  lemma ChiBitsInvertible(b: seq<bool>)
    requires |b| == PlanesSlices
    ensures ChiInverseBits(ChiBits(b)) == b
    ensures ChiBits(ChiInverseBits(b)) == b
  {
  }

  /** Bit z of lane x of a row after chi. */
  lemma ChiRowBit(r: Plane, x: nat, z: nat)
    requires x < PlanesSlices && z < LaneBits
    ensures ChiRow(r)[x][z] == (r[x][z] != (!r[(x + 1) % 5][z] && r[(x + 2) % 5][z]))
  {
    assert ChiRow(r)[x] == ChiLane(r, x);
    ChiTermBit(r[x], r[(x + 1) % 5], r[(x + 2) % 5], z);
  }

  /** Bit z of lane x of a row after the inverse of chi. */
  lemma ChiRowInverseBit(r: Plane, x: nat, z: nat)
    requires x < PlanesSlices && z < LaneBits
    ensures ChiRowInverse(r)[x][z]
         == (r[x][z] != (!r[(x + 1) % 5][z] && (r[(x + 2) % 5][z] != (!r[(x + 3) % 5][z] && r[(x + 4) % 5][z]))))
  {
    assert ChiRowInverse(r)[x] == ChiInverseLane(r, x);
    ChiInverseTermBit(r[x], r[(x + 1) % 5], r[(x + 2) % 5], r[(x + 3) % 5], r[(x + 4) % 5], z);
  }

  /** Chi acts on a row bit position by bit position. */
  lemma ColumnOfChiRow(r: Plane, z: nat)
    requires z < LaneBits
    ensures Column(ChiRow(r), z) == ChiBits(Column(r, z))
  {
    ChiRowBit(r, 0, z);
    ChiRowBit(r, 1, z);
    ChiRowBit(r, 2, z);
    ChiRowBit(r, 3, z);
    ChiRowBit(r, 4, z);
  }

  lemma ColumnOfChiRowInverse(r: Plane, z: nat)
    requires z < LaneBits
    ensures Column(ChiRowInverse(r), z) == ChiInverseBits(Column(r, z))
  {
    ChiRowInverseBit(r, 0, z);
    ChiRowInverseBit(r, 1, z);
    ChiRowInverseBit(r, 2, z);
    ChiRowInverseBit(r, 3, z);
    ChiRowInverseBit(r, 4, z);
  }

  lemma ChiRowInvertible(r: Plane)
    ensures ChiRowInverse(ChiRow(r)) == r
    ensures ChiRow(ChiRowInverse(r)) == r
  {
    var u, v := ChiRowInverse(ChiRow(r)), ChiRow(ChiRowInverse(r));
    forall z | 0 <= z < LaneBits
      ensures Column(u, z) == Column(r, z) && Column(v, z) == Column(r, z)
    {
      ColumnOfChiRow(r, z);
      ColumnOfChiRowInverse(ChiRow(r), z);
      ColumnOfChiRowInverse(r, z);
      ColumnOfChiRow(ChiRowInverse(r), z);
      ChiBitsInvertible(Column(r, z));
    }
    PlanesAgree(u, r);
    PlanesAgree(v, r);
  }

  /** Chi is a bijection: its row inverse undoes it, in either order. */
  lemma ChiInvertible(s: State)
    ensures ChiInverse(Chi(s)) == s
    ensures Chi(ChiInverse(s)) == s
  {
    forall y | 0 <= y < PlanesSlices
      ensures ChiInverse(Chi(s))[y] == s[y] && Chi(ChiInverse(s))[y] == s[y]
    {
      var c, d := Chi(s), ChiInverse(s);
      assert c[y] == ChiRow(s[y]) && d[y] == ChiRowInverse(s[y]);
      assert ChiInverse(c)[y] == ChiRowInverse(c[y]) && Chi(d)[y] == ChiRow(d[y]);
      ChiRowInvertible(s[y]);
    }
  }
}
