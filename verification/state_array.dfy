/**
 The 1600-bit Keccak state and its byte layout.

 `Keccak_subfuncs` views a 200-byte buffer as a 5 x 5 array of 64-bit lanes
 in C order, so that `state_arr[y][x]` is lane (x, y) and lives at bytes
 `8 * (5 * y + x) .. 8 * (5 * y + x) + 8`, least significant byte first.
 At the end the array is written back in the same order. Here the state
 is the same 5 x 5 array: a sequence of five planes (rows) y, each a
 sequence of five lanes x, so that `s[y][x]` is `state_arr[y][x]`.
 */
module StateArray {
  import opened Bits
  import opened Lanes

  /** Bytes in the state (`KECCAK_BYTES`). */
  const KeccakBytes: nat := 200
  /** Lanes in the state (`KECCAK_LANES`). */
  const KeccakLanes: nat := 25
  /** Lanes per row and per column (`KECCAK_PLANES_SLICES`). */
  const PlanesSlices: nat := 5
  /** Bytes per lane. */
  const LaneBytes: nat := 8

  /** A byte as Python holds it in a `bytearray`: an integer 0 .. 255. */
  type Byte = b: int | 0 <= b < 256

  /** A row of the array: the five lanes (0, y) .. (4, y). */
  type Plane = r: seq<Lane> | |r| == PlanesSlices witness seq(5, _ => ZeroLane)

  type State = s: seq<Plane> | |s| == PlanesSlices witness seq(5, _ => seq(5, _ => ZeroLane))

  /** Bytes that have the size of a whole state. */
  type Buffer = b: seq<Byte> | |b| == KeccakBytes witness seq(200, _ => 0)

  /** The 200 zero bytes. */
  function ZeroBuffer(): Buffer
  {
    seq(KeccakBytes, _ => 0)
  }

  /** Lane (x, y) of the state, `state_arr[y][x]`. */
  function LaneAt(s: State, x: nat, y: nat): Lane
    requires x < PlanesSlices && y < PlanesSlices
  {
    s[y][x]
  }

  /** The state with every lane equal to `v`. */
  function Uniform(v: Lane): State
  {
    seq(PlanesSlices, _ => seq(PlanesSlices, _ => v))
  }

  /** The state with every lane zero. */
  const ZeroState: State := Uniform(ZeroLane)

  /** The 25 lanes in C order: lane (x, y) at position `5 * y + x`. */
  function Flat(s: State): (f: seq<Lane>)
    ensures |f| == KeccakLanes
  {
    seq(KeccakLanes, k requires 0 <= k < KeccakLanes => s[k / 5][k % 5])
  }

  lemma Split5(q: nat, r: nat)
    requires r < 5
    ensures (5 * q + r) / 5 == q && (5 * q + r) % 5 == r
  {
  }

  lemma AddMultipleOfFive(a: int, k: int)
    requires 0 <= a < 5
    ensures (a + 5 * k) % 5 == a
  {
  }

  lemma Split8(q: nat, r: nat)
    requires r < 8
    ensures (8 * q + r) / 8 == q && (8 * q + r) % 8 == r
  {
  }

  /** Lane (x, y) sits at position `5 * y + x` of the flat sequence. */
  lemma FlatAt(s: State, x: nat, y: nat)
    requires x < PlanesSlices && y < PlanesSlices
    ensures 5 * y + x < KeccakLanes && Flat(s)[5 * y + x] == s[y][x]
  {
    Split5(y, x);
  }

  /** The eight bits of a byte, least significant first. */
  function ByteBits(b: Byte): (bits: seq<bool>)
    ensures |bits| == 8
  {
    ToBits(b, 8)
  }

  function ByteOfBits(bits: seq<bool>): Byte
    requires |bits| == 8
  {
    Pow2Eight();
    FromBits(bits)
  }

  /** The lane eight bytes denote, the first byte the least significant. */
  function BytesToLane(bs: seq<Byte>): Lane
    requires |bs| == LaneBytes
  {
    seq(LaneBits, z requires 0 <= z < LaneBits => ByteBits(bs[z / 8])[z % 8])
  }

  /** The eight bytes of a lane, least significant first (`tobytes` on a little-endian host). */
  function LaneToBytes(v: Lane): (bs: seq<Byte>)
    ensures |bs| == LaneBytes
  {
    seq(LaneBytes, j requires 0 <= j < LaneBytes => ByteOfBits(v[8 * j .. 8 * j + 8]))
  }

  /** The value of a little-endian byte string: byte j has weight 256^j. */
  function LittleEndian(bs: seq<Byte>): nat
  {
    if |bs| == 0 then 0 else bs[0] + 256 * LittleEndian(bs[1..])
  }

  /** The bits of a byte string, byte after byte. */
  function BitsOfBytes(bs: seq<Byte>): (bits: seq<bool>)
    ensures |bits| == 8 * |bs|
  {
    if |bs| == 0 then [] else ByteBits(bs[0]) + BitsOfBytes(bs[1..])
  }

  lemma {:induction false} BitsOfBytesAt(bs: seq<Byte>, z: nat)
    requires z < 8 * |bs|
    ensures BitsOfBytes(bs)[z] == ByteBits(bs[z / 8])[z % 8]
    decreases |bs|
  {
    var q, r := z / 8, z % 8;
    assert z == 8 * q + r && r < 8;
    var head, tail := ByteBits(bs[0]), BitsOfBytes(bs[1..]);
    assert BitsOfBytes(bs) == head + tail;
    if q > 0 {
      var z' := z - 8;
      assert z' == 8 * (q - 1) + r;
      assert z' / 8 == q - 1 && z' % 8 == r;
      BitsOfBytesAt(bs[1..], z');
    }
  }

  lemma {:induction false} BitsOfBytesValue(bs: seq<Byte>)
    ensures FromBits(BitsOfBytes(bs)) == LittleEndian(bs)
    decreases |bs|
  {
    if |bs| > 0 {
      BitsOfBytesValue(bs[1..]);
      FromBitsAppend(ByteBits(bs[0]), BitsOfBytes(bs[1..]));
      Pow2Eight();
      FromToBits(bs[0], 8);
    }
  }

  /** The lane of eight bytes has the little-endian value of those bytes. */
  lemma LaneValueIsLittleEndian(bs: seq<Byte>)
    requires |bs| == LaneBytes
    ensures Value(BytesToLane(bs)) == LittleEndian(bs)
  {
    forall z | 0 <= z < LaneBits
      ensures BytesToLane(bs)[z] == BitsOfBytes(bs)[z]
    {
      BitsOfBytesAt(bs, z);
    }
    assert BytesToLane(bs) == BitsOfBytes(bs);
    BitsOfBytesValue(bs);
  }

  /** Eight bytes read as a lane and written back are the same bytes. */
  lemma LaneOfBytesRoundTrip(bs: seq<Byte>)
    requires |bs| == LaneBytes
    ensures LaneToBytes(BytesToLane(bs)) == bs
  {
    var v := BytesToLane(bs);
    forall j | 0 <= j < LaneBytes
      ensures LaneToBytes(v)[j] == bs[j]
    {
      assert v[8 * j .. 8 * j + 8] == ByteBits(bs[j]) by {
        forall k | 0 <= k < 8
          ensures v[8 * j + k] == ByteBits(bs[j])[k]
        {
          assert (8 * j + k) / 8 == j && (8 * j + k) % 8 == k;
        }
      }
      Pow2Eight();
      FromToBits(bs[j], 8);
    }
  }

  /** A lane written as bytes and read back is the same lane. */
  lemma BytesOfLaneRoundTrip(v: Lane)
    ensures BytesToLane(LaneToBytes(v)) == v
  {
    forall z | 0 <= z < LaneBits
      ensures BytesToLane(LaneToBytes(v))[z] == v[z]
    {
      BytesOfLaneBit(v, z);
    }
  }

  lemma BytesOfLaneBit(v: Lane, z: nat)
    requires z < LaneBits
    ensures BytesToLane(LaneToBytes(v))[z] == v[z]
  {
    var j, k := z / 8, z % 8;
    var chunk := v[8 * j .. 8 * j + 8];
    assert LaneToBytes(v)[j] == ByteOfBits(chunk);
    Pow2Eight();
    ToFromBits(chunk);
    assert BytesToLane(LaneToBytes(v))[z] == ByteBits(LaneToBytes(v)[j])[k];
    assert chunk[k] == v[z];
  }

  /** Where lane (x, y) starts in the buffer. */
  function Offset(x: nat, y: nat): (o: nat)
    requires x < PlanesSlices && y < PlanesSlices
    ensures o + LaneBytes <= KeccakBytes
  {
    8 * (5 * y + x)
  }

  /** The 5 x 5 lanes a 200-byte buffer is viewed as: lane (x, y) from bytes `8 * (5y + x) ..`. */
  function View(buf: Buffer): State
  {
    seq(PlanesSlices, y requires 0 <= y < PlanesSlices =>
      seq(PlanesSlices, x requires 0 <= x < PlanesSlices =>
        BytesToLane(buf[Offset(x, y) .. Offset(x, y) + 8])))
  }

  /** The 200 bytes of a state, lane after lane in C order, each lane least significant byte first. */
  function ToBytes(s: State): Buffer
  {
    seq(KeccakBytes, i requires 0 <= i < KeccakBytes => LaneToBytes(s[i / 8 / 5][i / 8 % 5])[i % 8])
  }

  /** Byte `i` of a buffer is byte `i % 8` of lane (i / 8 % 5, i / 8 / 5). */
  lemma Position(i: nat)
    requires i < KeccakBytes
    ensures i / 8 / 5 < PlanesSlices && i / 8 % 5 < PlanesSlices
    ensures i == Offset(i / 8 % 5, i / 8 / 5) + i % 8
  {
  }

  /** The 8 bytes of the image of a state where lane (x, y) starts are the image of that lane. */
  lemma LaneBytesOfImage(s: State, x: nat, y: nat)
    requires x < PlanesSlices && y < PlanesSlices
    ensures ToBytes(s)[Offset(x, y) .. Offset(x, y) + 8] == LaneToBytes(s[y][x])
  {
    var o := Offset(x, y);
    var slice := ToBytes(s)[o .. o + 8];
    forall j | 0 <= j < LaneBytes
      ensures slice[j] == LaneToBytes(s[y][x])[j]
    {
      Split8(5 * y + x, j);
      Split5(y, x);
    }
  }

  /** Lane (x, y) is stored at bytes `8 * (5y + x) ..` of the image, and has their little-endian value. */
  lemma LaneLayout(s: State, x: nat, y: nat)
    requires x < PlanesSlices && y < PlanesSlices
    ensures ToBytes(s)[8 * (5 * y + x) .. 8 * (5 * y + x) + 8] == LaneToBytes(LaneAt(s, x, y))
    ensures Value(LaneAt(s, x, y)) == LittleEndian(ToBytes(s)[8 * (5 * y + x) .. 8 * (5 * y + x) + 8])
  {
    var v := LaneAt(s, x, y);
    LaneBytesOfImage(s, x, y);
    BytesOfLaneRoundTrip(v);
    LaneValueIsLittleEndian(LaneToBytes(v));
  }

  /** Writing a state out and viewing the bytes again gives the same lanes. */
  lemma ViewOfImage(s: State)
    ensures View(ToBytes(s)) == s
  {
    forall y | 0 <= y < PlanesSlices
      ensures View(ToBytes(s))[y] == s[y]
    {
      forall x | 0 <= x < PlanesSlices
        ensures View(ToBytes(s))[y][x] == s[y][x]
      {
        LaneBytesOfImage(s, x, y);
        BytesOfLaneRoundTrip(s[y][x]);
      }
    }
  }

  lemma ImageOfViewAt(buf: Buffer, i: nat)
    requires i < KeccakBytes
    ensures ToBytes(View(buf))[i] == buf[i]
  {
    Position(i);
    var x, y, j := i / 8 % 5, i / 8 / 5, i % 8;
    var chunk := buf[Offset(x, y) .. Offset(x, y) + 8];
    assert View(buf)[y][x] == BytesToLane(chunk);
    LaneOfBytesRoundTrip(chunk);
    assert chunk[j] == buf[i];
  }

  /** Viewing a buffer as lanes and writing the lanes out gives the same 200 bytes. */
  lemma ImageOfView(buf: Buffer)
    ensures ToBytes(View(buf)) == buf
  {
    forall i | 0 <= i < KeccakBytes
      ensures ToBytes(View(buf))[i] == buf[i]
    {
      ImageOfViewAt(buf, i);
    }
  }

  /** The zero buffer is viewed as the zero state, and the zero state is written as the zero buffer. */
  lemma ZeroImage()
    ensures View(seq(KeccakBytes, _ => 0)) == ZeroState
    ensures ToBytes(ZeroState) == seq(KeccakBytes, _ => 0)
  {
    var zeros: Buffer := seq(KeccakBytes, _ => 0);
    ZeroBits(8);
    forall y | 0 <= y < PlanesSlices
      ensures View(zeros)[y] == ZeroState[y]
    {
      forall x | 0 <= x < PlanesSlices
        ensures View(zeros)[y][x] == ZeroLane
      {
        forall z | 0 <= z < LaneBits
          ensures !View(zeros)[y][x][z]
        {
          assert zeros[Offset(x, y) + z / 8] == 0;
        }
      }
    }
    assert View(zeros) == ZeroState;
    ImageOfView(zeros);
  }
}
