/** The byte-level step mappings of keccak_p agree with FIPS 202: read
    through the implementation's coordinate shift, each byte-level step is the
    standard step, and one call of the permutation is Keccak-p[b, nr]. */
module KeccakFips {
  import opened Bytes
  import opened Layout
  import opened Fips202
  import opened KeccakSteps

  /** The standard state array an internal byte state stands for: standard
      lane (x, y) is internal lane ((x + 2) % 5, (y + 2) % 5). */
  function View(t: seq<byte>, W: int): (A: StateArray)
    requires IsBytes(t, W)
    ensures IsState(A, 8 * W)
  {
    seq(5, x requires 0 <= x < 5 =>
      seq(5, y requires 0 <= y < 5 =>
        seq(8 * W, z requires 0 <= z < 8 * W =>
          Bit(LaneByte(t, W, (x + 2) % 5, (y + 2) % 5, z / 8), z % 8))))
  }

  lemma ViewAt(t: seq<byte>, W: int, x: int, y: int, z: int)
    requires IsBytes(t, W) && 0 <= x < 5 && 0 <= y < 5 && 0 <= z < 8 * W
    ensures InLane(W, (x + 2) % 5, (y + 2) % 5, z / 8)
    ensures View(t, W)[x][y][z] == Bit(LaneByte(t, W, (x + 2) % 5, (y + 2) % 5, z / 8), z % 8)
  {
  }

  /** ViewAt for a position whose byte and bit are already known. */
  lemma ViewBit(t: seq<byte>, W: int, x: int, y: int, z: int, zb: int, k: nat)
    requires IsBytes(t, W) && 0 <= x < 5 && 0 <= y < 5 && 0 <= z < 8 * W
    requires z / 8 == zb && z % 8 == k
    ensures InLane(W, (x + 2) % 5, (y + 2) % 5, zb) && k < 8
    ensures View(t, W)[x][y][z] == Bit(LaneByte(t, W, (x + 2) % 5, (y + 2) % 5, zb), k)
  {
    ViewAt(t, W, x, y, z);
  }

  /** ViewAt with the internal lane, the byte and the bit passed in. */
  lemma ViewLane(t: seq<byte>, W: int, x: int, y: int, z: int, X: int, Y: int, zb: int, k: nat)
    requires IsBytes(t, W) && 0 <= x < 5 && 0 <= y < 5 && 0 <= z < 8 * W
    requires Internal(x, y, z, X, Y, zb, k)
    ensures InLane(W, X, Y, zb) && k < 8
    ensures View(t, W)[x][y][z] == Bit(LaneByte(t, W, X, Y, zb), k)
  {
    ViewAt(t, W, x, y, z);
  }

  /** (X, Y) is the internal lane holding standard lane (x, y), and bit z
      of a lane is bit k of its byte zb. */
  predicate Internal(x: int, y: int, z: int, X: int, Y: int, zb: int, k: int) {
    X == (x + 2) % 5 && Y == (y + 2) % 5 && zb == z / 8 && k == z % 8
  }

  lemma StateExt(A: StateArray, B: StateArray, w: nat)
    requires IsState(A, w) && IsState(B, w)
    requires forall x, y, z | 0 <= x < 5 && 0 <= y < 5 && 0 <= z < w :: A[x][y][z] == B[x][y][z]
    ensures A == B
  {
    forall x | 0 <= x < 5 ensures A[x] == B[x] {
      forall y | 0 <= y < 5 ensures A[x][y] == B[x][y] {
        assert forall z | 0 <= z < w :: A[x][y][z] == B[x][y][z];
      }
    }
  }

  /** Bit z of the standard lane (x, y) of a byte string is bit z % 8 of its
      byte Idx(W, x, y, z / 8). */
  lemma FromBytesAt(s: seq<byte>, W: int, x: int, y: int, z: int)
    requires IsBytes(s, W) && 0 <= x < 5 && 0 <= y < 5 && 0 <= z < 8 * W
    ensures InLane(W, x, y, z / 8)
    ensures FromBytes(s, W)[x][y][z] == Bit(LaneByte(s, W, x, y, z / 8), z % 8)
  {
    var m := 5 * y + x;
    BitPosition(W, m, z);
    IdxLaneNumber(W, x, y, z / 8);
    IdxBound(W, x, y, z / 8);
    assert FromBytes(s, W)[x][y][z] == BitsOf(s)[8 * W * m + z];
  }

  lemma ShiftInViewAt(s: seq<byte>, W: int, x: int, y: int, z: int)
    requires IsBytes(s, W) && 0 <= x < 5 && 0 <= y < 5 && 0 <= z < 8 * W
    ensures View(ShiftIn(s, W), W)[x][y][z] == FromBytes(s, W)[x][y][z]
  {
    FromBytesAt(s, W, x, y, z);
    var x', y', zb := (x + 2) % 5, (y + 2) % 5, z / 8;
    ShiftBack(x);
    ShiftBack(y);
    IdxBound(W, x', y', zb);
    var j := Idx(W, x', y', zb);
    IdxBound(W, x, y, zb);
    UnshiftIdxAt(W, x', y', zb);
    assert ShiftIn(s, W)[j] == s[Idx(W, x, y, zb)];
    assert LaneByte(ShiftIn(s, W), W, x', y', zb) == ShiftIn(s, W)[j];
    ViewAt(ShiftIn(s, W), W, x, y, z);
  }

  /** The shift-in loop: the internal state it produces stands for the
      standard state it was given. */
  lemma ShiftInView(s: seq<byte>, W: int)
    requires IsBytes(s, W)
    ensures View(ShiftIn(s, W), W) == FromBytes(s, W)
  {
    forall x, y, z | 0 <= x < 5 && 0 <= y < 5 && 0 <= z < 8 * W
      ensures View(ShiftIn(s, W), W)[x][y][z] == FromBytes(s, W)[x][y][z]
    {
      ShiftInViewAt(s, W, x, y, z);
    }
    StateExt(View(ShiftIn(s, W), W), FromBytes(s, W), 8 * W);
  }

  lemma ShiftOutViewAt(t: seq<byte>, W: int, x: int, y: int, z: int)
    requires IsBytes(t, W) && 0 <= x < 5 && 0 <= y < 5 && 0 <= z < 8 * W
    ensures FromBytes(ShiftOut(t, W), W)[x][y][z] == View(t, W)[x][y][z]
  {
    FromBytesAt(ShiftOut(t, W), W, x, y, z);
    var zb := z / 8;
    IdxBound(W, x, y, zb);
    var i := Idx(W, x, y, zb);
    ShiftIdxAt(W, x, y, zb);
    IdxBound(W, (x + 2) % 5, (y + 2) % 5, zb);
    assert ShiftOut(t, W)[i] == t[ShiftIdx(i, W)];
    ViewAt(t, W, x, y, z);
  }

  /** The shift-out loop: the standard state it produces is the one the
      internal state stood for. */
  lemma ShiftOutView(t: seq<byte>, W: int)
    requires IsBytes(t, W)
    ensures FromBytes(ShiftOut(t, W), W) == View(t, W)
  {
    forall x, y, z | 0 <= x < 5 && 0 <= y < 5 && 0 <= z < 8 * W
      ensures FromBytes(ShiftOut(t, W), W)[x][y][z] == View(t, W)[x][y][z]
    {
      ShiftOutViewAt(t, W, x, y, z);
    }
    StateExt(FromBytes(ShiftOut(t, W), W), View(t, W), 8 * W);
  }

  // ---- theta

  /** The five bits of standard column (x, z), internal lanes y = 2, 3, 4, 0, 1. */
  lemma ViewColumn(t: seq<byte>, W: int, x: int, z: int)
    requires IsBytes(t, W) && 0 <= x < 5 && 0 <= z < 8 * W
    ensures 0 <= (x + 2) % 5 < 5 && 0 <= z / 8 < W
    ensures var X, zb, k := (x + 2) % 5, z / 8, z % 8;
      && View(t, W)[x][0][z] == Bit(LaneByte(t, W, X, 2, zb), k)
      && View(t, W)[x][1][z] == Bit(LaneByte(t, W, X, 3, zb), k)
      && View(t, W)[x][2][z] == Bit(LaneByte(t, W, X, 4, zb), k)
      && View(t, W)[x][3][z] == Bit(LaneByte(t, W, X, 0, zb), k)
      && View(t, W)[x][4][z] == Bit(LaneByte(t, W, X, 1, zb), k)
  {
    ViewAt(t, W, x, 0, z);
    ViewAt(t, W, x, 1, z);
    ViewAt(t, W, x, 2, z);
    ViewAt(t, W, x, 3, z);
    ViewAt(t, W, x, 4, z);
  }

  /** A bit of a column parity byte is the XOR of that bit of the five lanes. */
  lemma ParityByteBit(t: seq<byte>, W: int, x: int, z: int, k: nat)
    requires IsBytes(t, W) && 0 <= x < 5 && 0 <= z < W && k < 8
    ensures Bit(ParityByte(t, W, x, z), k)
         == ((((Bit(LaneByte(t, W, x, 0, z), k) != Bit(LaneByte(t, W, x, 1, z), k))
               != Bit(LaneByte(t, W, x, 2, z), k)) != Bit(LaneByte(t, W, x, 3, z), k))
             != Bit(LaneByte(t, W, x, 4, z), k))
  {
    var b0, b1, b2 := LaneByte(t, W, x, 0, z), LaneByte(t, W, x, 1, z), LaneByte(t, W, x, 2, z);
    var b3, b4 := LaneByte(t, W, x, 3, z), LaneByte(t, W, x, 4, z);
    var p := ParityByte(t, W, x, z);
    assert p == b0 ^ b1 ^ b2 ^ b3 ^ b4;
    BitXor5(b0, b1, b2, b3, b4, k);
  }

  lemma ParityAt(t: seq<byte>, W: int, x: int, z: int)
    requires IsBytes(t, W) && 0 <= x < 5 && 0 <= z < 8 * W
    ensures 0 <= (x + 2) % 5 < 5 && 0 <= z / 8 < W
    ensures Parity(View(t, W), 8 * W, x, z) == Bit(ParityByte(t, W, (x + 2) % 5, z / 8), z % 8)
  {
    ViewColumn(t, W, x, z);
    ParityByteBit(t, W, (x + 2) % 5, z / 8, z % 8);
  }

  lemma ColumnParityAt(t: seq<byte>, W: int, x: int, z: int)
    requires IsBytes(t, W) && 0 <= x < 5 && 0 <= z < W
    ensures RowByte(ColumnParity(t, W), W, x, z) == ParityByte(t, W, x, z)
  {
    RowIdx(W, x, z);
  }

  lemma EffectAt(C: seq<byte>, W: int, x: int, z: int)
    requires ValidLaneBytes(W) && |C| == 5 * W && 0 <= x < 5 && 0 <= z < W
    ensures RowByte(ThetaEffect(C, W), W, x, z) == EffectByte(C, W, x, z)
  {
    RowIdx(W, x, z);
  }

  /** Byte z of D[x], from the column parities of the state. */
  lemma ThetaEffectAt(t: seq<byte>, W: int, x: int, z: int)
    requires IsBytes(t, W) && 0 <= x < 5 && 0 <= z < W
    ensures 0 <= (z + W - 1) % W < W
    ensures RowByte(ThetaEffect(ColumnParity(t, W), W), W, x, z)
         == ParityByte(t, W, (x + 4) % 5, z)
            ^ (ParityByte(t, W, (x + 1) % 5, z) << 1)
            ^ (ParityByte(t, W, (x + 1) % 5, (z + W - 1) % W) >> 7)
  {
    var C := ColumnParity(t, W);
    EffectAt(C, W, x, z);
    ColumnParityAt(t, W, (x + 4) % 5, z);
    ColumnParityAt(t, W, (x + 1) % 5, z);
    ColumnParityAt(t, W, (x + 1) % 5, (z + W - 1) % W);
  }

  lemma ThetaByteAt(t: seq<byte>, W: int, x: int, y: int, z: int)
    requires IsBytes(t, W) && InLane(W, x, y, z)
    ensures 0 <= (z + W - 1) % W < W
    ensures LaneByte(KeccakSteps.Theta(t, W), W, x, y, z)
         == LaneByte(t, W, x, y, z)
            ^ (ParityByte(t, W, (x + 4) % 5, z)
               ^ (ParityByte(t, W, (x + 1) % 5, z) << 1)
               ^ (ParityByte(t, W, (x + 1) % 5, (z + W - 1) % W) >> 7))
  {
    IdxCoord(W, x, y, z);
    var i := Idx(W, x, y, z);
    var D := ThetaEffect(ColumnParity(t, W), W);
    assert KeccakSteps.Theta(t, W) == XorEffect(t, D, W);
    XorEffectAt(t, D, W, i);
    RowByteSame(D, W, LaneX(i, W), LaneZ(i, W), x, z);
    ThetaEffectAt(t, W, x, z);
  }

  /** Byte i after theta's third loop. */
  lemma XorEffectAt(s: seq<byte>, D: seq<byte>, W: int, i: int)
    requires IsBytes(s, W) && |D| == 5 * W && 0 <= i < 25 * W
    ensures 0 <= LaneX(i, W) < 5 && 0 <= LaneZ(i, W) < W
    ensures XorEffect(s, D, W)[i] == s[i] ^ RowByte(D, W, LaneX(i, W), LaneZ(i, W))
  {
    CoordIdx(i, W);
  }

  lemma RowByteSame(D: seq<byte>, W: int, x: int, z: int, x': int, z': int)
    requires ValidLaneBytes(W) && |D| == 5 * W && 0 <= x < 5 && 0 <= z < W && x == x' && z == z'
    ensures RowByte(D, W, x, z) == RowByte(D, W, x', z')
  {
  }

  /** Bit k of rot1(p2, p3): p2 shifted left by one, with the top bit of p3
      carried into bit 0. */
  lemma CarryBit(p2: byte, p3: byte, k: nat)
    requires k < 8
    ensures Bit((p2 << 1) ^ (p3 >> 7), k) == (if k >= 1 then Bit(p2, k - 1) else Bit(p3, 7))
  {
    BitXor(p2 << 1, p3 >> 7, k);
    BitShiftLeftOne(p2, k);
    BitShiftRightSeven(p3, k);
  }

  /** A bit of a ^ (p1 ^ rot1(p2, p3)). */
  lemma ThetaBit(a: byte, p1: byte, p2: byte, p3: byte, k: nat)
    requires k < 8
    ensures Bit(a ^ (p1 ^ (p2 << 1) ^ (p3 >> 7)), k)
         == (Bit(a, k) != ((Bit(p1, k) != (if k >= 1 then Bit(p2, k - 1) else Bit(p3, 7)))))
  {
    var r := (p2 << 1) ^ (p3 >> 7);
    CarryBit(p2, p3, k);
    assert p1 ^ (p2 << 1) ^ (p3 >> 7) == p1 ^ r;
    BitXor(p1, r, k);
    BitXor(a, p1 ^ r, k);
  }

  /** v is what theta makes of bit a, bit k of byte zb of a lane in internal
      column X: a XOR the parity of column X + 4 at the same bit XOR the
      parity of column X + 1 one bit lower (bit 7 of byte zp when k is 0). */
  predicate ThetaBits(t: seq<byte>, W: int, X: int, zb: int, k: nat, zp: int, a: bool, v: bool)
    requires IsBytes(t, W) && 0 <= X < 5 && 0 <= zb < W && 0 <= zp < W && k < 8
  {
    v == (a != ((Bit(ParityByte(t, W, (X + 4) % 5, zb), k)
                 != (if k >= 1 then Bit(ParityByte(t, W, (X + 1) % 5, zb), k - 1)
                     else Bit(ParityByte(t, W, (X + 1) % 5, zp), 7)))))
  }

  /** The bit of standard position (x, y, z) after the byte-level theta. */
  lemma ThetaViewBits(t: seq<byte>, W: int, x: int, y: int, z: int, X: int, Y: int, zb: int, k: nat, zp: int)
    requires IsBytes(t, W) && 0 <= x < 5 && 0 <= y < 5 && 0 <= z < 8 * W
    requires Internal(x, y, z, X, Y, zb, k) && zp == (zb + W - 1) % W
    ensures 0 <= X < 5 && 0 <= zb < W && 0 <= zp < W && k < 8
    ensures ThetaBits(t, W, X, zb, k, zp, View(t, W)[x][y][z], View(KeccakSteps.Theta(t, W), W)[x][y][z])
  {
    ViewLane(KeccakSteps.Theta(t, W), W, x, y, z, X, Y, zb, k);
    ViewLane(t, W, x, y, z, X, Y, zb, k);
    ThetaByteAt(t, W, X, Y, zb);
    ThetaBit(LaneByte(t, W, X, Y, zb), ParityByte(t, W, (X + 4) % 5, zb), ParityByte(t, W, (X + 1) % 5, zb),
             ParityByte(t, W, (X + 1) % 5, zp), k);
  }

  /** The same bit after the standard theta. */
  lemma FipsThetaBits(t: seq<byte>, W: int, x: int, y: int, z: int, X: int, zb: int, k: nat, p: int, zp: int)
    requires IsBytes(t, W) && 0 <= x < 5 && 0 <= y < 5 && 0 <= z < 8 * W
    requires X == (x + 2) % 5 && zb == z / 8 && k == z % 8
    requires p == (z - 1) % (8 * W) && zp == (zb + W - 1) % W
    ensures 0 <= X < 5 && 0 <= zb < W && 0 <= zp < W && k < 8
    ensures ThetaBits(t, W, X, zb, k, zp, View(t, W)[x][y][z], Fips202.Theta(View(t, W), 8 * W)[x][y][z])
  {
    ThetaValue(View(t, W), 8 * W, x, y, z);
    LeftParity(t, W, x, z, X, zb, k);
    RightParity(t, W, x, z, X, zb, k, p, zp);
  }

  /** The parity of column x - 1 at the same z. */
  lemma LeftParity(t: seq<byte>, W: int, x: int, z: int, X: int, zb: int, k: nat)
    requires IsBytes(t, W) && 0 <= x < 5 && 0 <= z < 8 * W
    requires X == (x + 2) % 5 && zb == z / 8 && k == z % 8
    ensures 0 <= (x - 1) % 5 < 5 && 0 <= X < 5 && 0 <= zb < W && k < 8
    ensures Parity(View(t, W), 8 * W, (x - 1) % 5, z) == Bit(ParityByte(t, W, (X + 4) % 5, zb), k)
  {
    Neighbours(x);
    ParityAt(t, W, (x - 1) % 5, z);
  }

  /** The parity of column x + 1 at z - 1: a bit of the same byte, or bit 7
      of the byte below. */
  lemma RightParity(t: seq<byte>, W: int, x: int, z: int, X: int, zb: int, k: nat, p: int, zp: int)
    requires IsBytes(t, W) && 0 <= x < 5 && 0 <= z < 8 * W
    requires X == (x + 2) % 5 && zb == z / 8 && k == z % 8
    requires p == (z - 1) % (8 * W) && zp == (zb + W - 1) % W
    ensures 0 <= (x + 1) % 5 < 5 && 0 <= p < 8 * W && 0 <= X < 5 && 0 <= zb < W && 0 <= zp < W && k < 8
    ensures Parity(View(t, W), 8 * W, (x + 1) % 5, p)
         == (if k >= 1 then Bit(ParityByte(t, W, (X + 1) % 5, zb), k - 1)
             else Bit(ParityByte(t, W, (X + 1) % 5, zp), 7))
  {
    if k >= 1 {
      RightParitySame(t, W, x, z, X, zb, k, p);
    } else {
      RightParityBelow(t, W, x, z, X, zb, k, p, zp);
    }
  }

  /** RightParity when bit z - 1 lies in the same byte. */
  lemma RightParitySame(t: seq<byte>, W: int, x: int, z: int, X: int, zb: int, k: nat, p: int)
    requires IsBytes(t, W) && 0 <= x < 5 && 0 <= z < 8 * W
    requires X == (x + 2) % 5 && zb == z / 8 && k == z % 8 && k >= 1
    requires p == (z - 1) % (8 * W)
    ensures 0 <= (x + 1) % 5 < 5 && 0 <= p < 8 * W && 0 <= X < 5 && 0 <= zb < W && k < 8
    ensures Parity(View(t, W), 8 * W, (x + 1) % 5, p) == Bit(ParityByte(t, W, (X + 1) % 5, zb), k - 1)
  {
    PreviousBitSame(z, W);
    var pk := k - 1;
    RightParityAt(t, W, x, z, X, p, zb, pk);
  }

  /** RightParity when bit z - 1 is bit 7 of the byte below. */
  lemma RightParityBelow(t: seq<byte>, W: int, x: int, z: int, X: int, zb: int, k: nat, p: int, zp: int)
    requires IsBytes(t, W) && 0 <= x < 5 && 0 <= z < 8 * W
    requires X == (x + 2) % 5 && zb == z / 8 && k == z % 8 && k == 0
    requires p == (z - 1) % (8 * W) && zp == (zb + W - 1) % W
    ensures 0 <= (x + 1) % 5 < 5 && 0 <= p < 8 * W && 0 <= X < 5 && 0 <= zp < W
    ensures Parity(View(t, W), 8 * W, (x + 1) % 5, p) == Bit(ParityByte(t, W, (X + 1) % 5, zp), 7)
  {
    PreviousBitBelow(z, W);
    var pk := 7;
    RightParityAt(t, W, x, z, X, p, zp, pk);
  }

  /** The parity of column x + 1 at bit p, which lies at bit pk of byte pb. */
  lemma RightParityAt(t: seq<byte>, W: int, x: int, z: int, X: int, p: int, pb: int, pk: nat)
    requires IsBytes(t, W) && 0 <= x < 5 && 0 <= z < 8 * W && X == (x + 2) % 5
    requires p == (z - 1) % (8 * W) && pb == p / 8 && pk == p % 8
    ensures 0 <= (x + 1) % 5 < 5 && 0 <= p < 8 * W && 0 <= pb < W
    ensures Parity(View(t, W), 8 * W, (x + 1) % 5, p) == Bit(ParityByte(t, W, (X + 1) % 5, pb), pk)
  {
    Neighbours(x);
    var x1, X1 := (x + 1) % 5, (X + 1) % 5;
    assert X1 == (x1 + 2) % 5;
    ParityAtBits(t, W, x1, p, X1, pb, pk);
  }

  /** ParityAt with the internal column, byte and bit passed in. */
  lemma ParityAtBits(t: seq<byte>, W: int, x: int, z: int, X: int, zb: int, k: nat)
    requires IsBytes(t, W) && 0 <= x < 5 && 0 <= z < 8 * W
    requires X == (x + 2) % 5 && zb == z / 8 && k == z % 8
    ensures 0 <= X < 5 && 0 <= zb < W && k < 8
    ensures Parity(View(t, W), 8 * W, x, z) == Bit(ParityByte(t, W, X, zb), k)
  {
    ParityAt(t, W, x, z);
  }

  lemma ThetaAt(t: seq<byte>, W: int, x: int, y: int, z: int, X: int, Y: int, zb: int, k: nat, p: int, zp: int)
    requires IsBytes(t, W) && 0 <= x < 5 && 0 <= y < 5 && 0 <= z < 8 * W
    requires Internal(x, y, z, X, Y, zb, k) && p == (z - 1) % (8 * W) && zp == (zb + W - 1) % W
    ensures View(KeccakSteps.Theta(t, W), W)[x][y][z] == Fips202.Theta(View(t, W), 8 * W)[x][y][z]
  {
    ThetaViewBits(t, W, x, y, z, X, Y, zb, k, zp);
    FipsThetaBits(t, W, x, y, z, X, zb, k, p, zp);
  }

  /** theta, read through the coordinate shift, is theta of FIPS 202. */
  lemma ThetaMatches(t: seq<byte>, W: int)
    requires IsBytes(t, W)
    ensures View(KeccakSteps.Theta(t, W), W) == Fips202.Theta(View(t, W), 8 * W)
  {
    forall x, y, z | 0 <= x < 5 && 0 <= y < 5 && 0 <= z < 8 * W
      ensures View(KeccakSteps.Theta(t, W), W)[x][y][z] == Fips202.Theta(View(t, W), 8 * W)[x][y][z]
    {
      ThetaAt(t, W, x, y, z, (x + 2) % 5, (y + 2) % 5, z / 8, z % 8, (z - 1) % (8 * W), (z / 8 + W - 1) % W);
    }
    StateExt(View(KeccakSteps.Theta(t, W), W), Fips202.Theta(View(t, W), 8 * W), 8 * W);
  }

  // ---- pi

  lemma PiIndex(t: seq<byte>, W: int, i: int)
    requires IsBytes(t, W) && 0 <= i < 25 * W
    ensures InLane(W, LaneX(i, W), LaneY(i, W), LaneZ(i, W))
    ensures KeccakSteps.Pi(t, W)[i]
         == LaneByte(t, W, PiSource(LaneX(i, W), LaneY(i, W)), LaneX(i, W), LaneZ(i, W))
  {
    CoordIdx(i, W);
  }

  lemma PiByteAt(t: seq<byte>, W: int, x: int, y: int, z: int)
    requires IsBytes(t, W) && InLane(W, x, y, z)
    ensures LaneByte(KeccakSteps.Pi(t, W), W, x, y, z) == LaneByte(t, W, PiSource(x, y), x, z)
  {
    IdxCoord(W, x, y, z);
    PiIndex(t, W, Idx(W, x, y, z));
  }

  /** The source lane of pi, after the shift: standard lane (sx, x) with
      sx = (x + 3y) % 5 is internal lane (PiSource(X, Y), X). */
  lemma PiShift(x: int, y: int, X: int, Y: int, sx: int)
    requires 0 <= x < 5 && 0 <= y < 5
    requires X == (x + 2) % 5 && Y == (y + 2) % 5 && sx == (x + 3 * y) % 5
    ensures 0 <= sx < 5 && (sx + 2) % 5 == PiSource(X, Y)
  {
    ShiftValue(x);
    ShiftValue(y);
    var q := (x + 3 * y) / 5;
    assert sx + 2 == (x + 3 * y + 2) + 5 * -q;
    ModShift(x + 3 * y + 2, 5, -q);
    var c := 4 - 3 * (if y < 3 then 0 else 1) - (if x < 3 then 0 else 1);
    assert 3 * (Y + 3) + X + 3 + 2 == (x + 3 * y + 2) + 5 * c;
    ModShift(x + 3 * y + 2, 5, c);
  }

  lemma PiAt(t: seq<byte>, W: int, x: int, y: int, z: int, X: int, Y: int, zb: int, k: nat, sx: int)
    requires IsBytes(t, W) && 0 <= x < 5 && 0 <= y < 5 && 0 <= z < 8 * W
    requires Internal(x, y, z, X, Y, zb, k) && sx == (x + 3 * y) % 5
    ensures View(KeccakSteps.Pi(t, W), W)[x][y][z] == Fips202.Pi(View(t, W), 8 * W)[x][y][z]
  {
    ViewLane(KeccakSteps.Pi(t, W), W, x, y, z, X, Y, zb, k);
    PiByteAt(t, W, X, Y, zb);
    PiValue(View(t, W), 8 * W, x, y, z);
    PiShift(x, y, X, Y, sx);
    ViewLane(t, W, sx, x, z, PiSource(X, Y), X, zb, k);
  }

  /** pi, read through the coordinate shift, is pi of FIPS 202. */
  lemma PiMatches(t: seq<byte>, W: int)
    requires IsBytes(t, W)
    ensures View(KeccakSteps.Pi(t, W), W) == Fips202.Pi(View(t, W), 8 * W)
  {
    forall x, y, z | 0 <= x < 5 && 0 <= y < 5 && 0 <= z < 8 * W
      ensures View(KeccakSteps.Pi(t, W), W)[x][y][z] == Fips202.Pi(View(t, W), 8 * W)[x][y][z]
    {
      PiAt(t, W, x, y, z, (x + 2) % 5, (y + 2) % 5, z / 8, z % 8, (x + 3 * y) % 5);
    }
    StateExt(View(KeccakSteps.Pi(t, W), W), Fips202.Pi(View(t, W), 8 * W), 8 * W);
  }

  // ---- chi

  lemma ChiByteAt(t: seq<byte>, W: int, x: int, y: int, z: int)
    requires IsBytes(t, W) && InLane(W, x, y, z)
    ensures LaneByte(KeccakSteps.Chi(t, W), W, x, y, z) == ChiByte(t, W, x, y, z)
  {
    IdxCoord(W, x, y, z);
  }

  /** A bit of a ^ (~b & c). */
  lemma ChiBit(a: byte, b: byte, c: byte, k: nat)
    requires k < 8
    ensures Bit(a ^ ((0xff ^ b) & c), k) == (Bit(a, k) != (!Bit(b, k) && Bit(c, k)))
  {
    var nb := 0xff ^ b;
    var m := nb & c;
    BitComplement(b, k);
    BitAnd(nb, c, k);
    BitXor(a, m, k);
  }

  /** v is what chi makes of bit k of byte zb of internal lane (X, Y). */
  predicate ChiBits(t: seq<byte>, W: int, X: int, Y: int, zb: int, k: nat, v: bool)
    requires IsBytes(t, W) && InLane(W, X, Y, zb) && k < 8
  {
    v == (Bit(LaneByte(t, W, X, Y, zb), k)
          != (!Bit(LaneByte(t, W, (X + 1) % 5, Y, zb), k) && Bit(LaneByte(t, W, (X + 2) % 5, Y, zb), k)))
  }

  lemma ChiViewAt(t: seq<byte>, W: int, x: int, y: int, z: int, X: int, Y: int, zb: int, k: nat)
    requires IsBytes(t, W) && 0 <= x < 5 && 0 <= y < 5 && 0 <= z < 8 * W
    requires Internal(x, y, z, X, Y, zb, k)
    ensures InLane(W, X, Y, zb) && k < 8
    ensures ChiBits(t, W, X, Y, zb, k, View(KeccakSteps.Chi(t, W), W)[x][y][z])
  {
    ViewLane(KeccakSteps.Chi(t, W), W, x, y, z, X, Y, zb, k);
    ChiByteAt(t, W, X, Y, zb);
    ChiBit(LaneByte(t, W, X, Y, zb), LaneByte(t, W, (X + 1) % 5, Y, zb), LaneByte(t, W, (X + 2) % 5, Y, zb), k);
  }

  lemma FipsChiAt(t: seq<byte>, W: int, x: int, y: int, z: int, X: int, Y: int, zb: int, k: nat)
    requires IsBytes(t, W) && 0 <= x < 5 && 0 <= y < 5 && 0 <= z < 8 * W
    requires Internal(x, y, z, X, Y, zb, k)
    ensures InLane(W, X, Y, zb) && k < 8
    ensures ChiBits(t, W, X, Y, zb, k, Fips202.Chi(View(t, W), 8 * W)[x][y][z])
  {
    ChiValue(View(t, W), 8 * W, x, y, z);
    ViewLane(t, W, x, y, z, X, Y, zb, k);
    Neighbours(x);
    ViewLane(t, W, (x + 1) % 5, y, z, (X + 1) % 5, Y, zb, k);
    ViewLane(t, W, (x + 2) % 5, y, z, (X + 2) % 5, Y, zb, k);
  }

  lemma ChiAt(t: seq<byte>, W: int, x: int, y: int, z: int, X: int, Y: int, zb: int, k: nat)
    requires IsBytes(t, W) && 0 <= x < 5 && 0 <= y < 5 && 0 <= z < 8 * W
    requires Internal(x, y, z, X, Y, zb, k)
    ensures View(KeccakSteps.Chi(t, W), W)[x][y][z] == Fips202.Chi(View(t, W), 8 * W)[x][y][z]
  {
    ChiViewAt(t, W, x, y, z, X, Y, zb, k);
    FipsChiAt(t, W, x, y, z, X, Y, zb, k);
  }

  /** chi, read through the coordinate shift, is chi of FIPS 202. */
  lemma ChiMatches(t: seq<byte>, W: int)
    requires IsBytes(t, W)
    ensures View(KeccakSteps.Chi(t, W), W) == Fips202.Chi(View(t, W), 8 * W)
  {
    forall x, y, z | 0 <= x < 5 && 0 <= y < 5 && 0 <= z < 8 * W
      ensures View(KeccakSteps.Chi(t, W), W)[x][y][z] == Fips202.Chi(View(t, W), 8 * W)[x][y][z]
    {
      ChiAt(t, W, x, y, z, (x + 2) % 5, (y + 2) % 5, z / 8, z % 8);
    }
    StateExt(View(KeccakSteps.Chi(t, W), W), Fips202.Chi(View(t, W), 8 * W), 8 * W);
  }

  // ---- rho

  /** The rotation rho applies to internal lane (X, Y), (t + 1)(t + 2)/2 for
      the step t at which the source's walk reaches it, is the offset Table 2
      of FIPS 202 gives the standard lane (x, y) it holds. */
  lemma WalkOffset(x: int, y: int, X: int, Y: int)
    requires 0 <= x < 5 && 0 <= y < 5 && !(x == 0 && y == 0)
    requires X == (x + 2) % 5 && Y == (y + 2) % 5
    ensures 0 <= X < 5 && 0 <= Y < 5 && !(X == 2 && Y == 2)
    ensures 0 <= WalkIndex(X, Y) < 24
    ensures Triangular(WalkIndex(X, Y)) == RhoOffset(x, y)
  {
  }

  lemma RhoByteAt(t: seq<byte>, W: int, x: int, y: int, z: int)
    requires IsBytes(t, W) && InLane(W, x, y, z)
    ensures LaneByte(KeccakSteps.Rho(t, W), W, x, y, z) == RhoByte(t, W, x, y, z)
  {
    IdxCoord(W, x, y, z);
  }

  /** Bit k of a rotated byte: bit k - bs of the source byte, or bit
      k + 8 - bs of the byte below it, where bs = off % 8. */
  lemma RotatedBit(t: seq<byte>, W: int, X: int, Y: int, zb: int, off: nat, k: nat, bs: nat, src: int, below: int)
    requires IsBytes(t, W) && InLane(W, X, Y, zb) && k < 8
    requires bs == off % 8 && src == (zb + W - (off / 8) % W) % W && below == (src + W - 1) % W
    ensures 0 <= src < W && 0 <= below < W
    ensures Bit(RotatedByte(t, W, X, Y, zb, off), k)
         == if k >= bs then Bit(LaneByte(t, W, X, Y, src), k - bs)
            else Bit(LaneByte(t, W, X, Y, below), k + 8 - bs)
  {
    RotatedByteIs(t, W, X, Y, zb, off, bs, src, below);
    SmallBv(bs);
    BitShiftPairBv(LaneByte(t, W, X, Y, src), LaneByte(t, W, X, Y, below), bs as bv8, k);
  }

  /** A rotated byte, named by its bit shift and its two source bytes. */
  lemma RotatedByteIs(t: seq<byte>, W: int, X: int, Y: int, zb: int, off: nat, bs: nat, src: int, below: int)
    requires IsBytes(t, W) && InLane(W, X, Y, zb)
    requires bs == off % 8 && src == (zb + W - (off / 8) % W) % W && below == (src + W - 1) % W
    ensures 0 <= src < W && 0 <= below < W && bs < 8
    ensures RotatedByte(t, W, X, Y, zb, off)
         == (LaneByte(t, W, X, Y, src) << (bs as bv8)) | (LaneByte(t, W, X, Y, below) >> (8 - bs as bv8))
  {
    ShiftAmountIsBv(bs);
  }

  /** Bit z of a lane rotated left by off is bit p = (z - off) mod w before. */
  lemma RotatedViewBit(t: seq<byte>, W: int, x: int, y: int, z: int, X: int, Y: int, zb: int, k: nat,
                       off: nat, bs: nat, src: int, below: int, p: int)
    requires IsBytes(t, W) && 0 <= x < 5 && 0 <= y < 5 && 0 <= z < 8 * W
    requires Internal(x, y, z, X, Y, zb, k)
    requires bs == off % 8 && src == (zb + W - (off / 8) % W) % W && below == (src + W - 1) % W
    requires p == (z - off) % (8 * W)
    ensures 0 <= p < 8 * W && InLane(W, X, Y, zb) && k < 8
    ensures View(t, W)[x][y][p] == Bit(RotatedByte(t, W, X, Y, zb, off), k)
  {
    RotatedBit(t, W, X, Y, zb, off, k, bs, src, below);
    RotateSource(z, W, off, zb, k, bs, src, below, p);
    if k >= bs {
      ViewLane(t, W, x, y, p, X, Y, src, k - bs);
    } else {
      ViewLane(t, W, x, y, p, X, Y, below, k + 8 - bs);
    }
  }

  /** A bit of rho's output is a bit of its lane rotated by the rho offset. */
  lemma RhoViewRotated(t: seq<byte>, W: int, x: int, y: int, z: int, X: int, Y: int, zb: int, k: nat, off: nat)
    requires IsBytes(t, W) && 0 <= x < 5 && 0 <= y < 5 && 0 <= z < 8 * W && !(x == 0 && y == 0)
    requires Internal(x, y, z, X, Y, zb, k) && off == RhoOffset(x, y)
    ensures InLane(W, X, Y, zb) && k < 8
    ensures View(KeccakSteps.Rho(t, W), W)[x][y][z] == Bit(RotatedByte(t, W, X, Y, zb, off), k)
  {
    ViewLane(KeccakSteps.Rho(t, W), W, x, y, z, X, Y, zb, k);
    RhoByteAt(t, W, X, Y, zb);
    WalkOffset(x, y, X, Y);
  }

  lemma RhoRotatedAt(t: seq<byte>, W: int, x: int, y: int, z: int, X: int, Y: int, zb: int, k: nat, off: nat, p: int)
    requires IsBytes(t, W) && 0 <= x < 5 && 0 <= y < 5 && 0 <= z < 8 * W && !(x == 0 && y == 0)
    requires Internal(x, y, z, X, Y, zb, k) && off == RhoOffset(x, y) && p == (z - off) % (8 * W)
    ensures 0 <= p < 8 * W
    ensures View(KeccakSteps.Rho(t, W), W)[x][y][z] == View(t, W)[x][y][p]
  {
    RhoViewRotated(t, W, x, y, z, X, Y, zb, k, off);
    RotatedViewBit(t, W, x, y, z, X, Y, zb, k, off, off % 8, (zb + W - (off / 8) % W) % W,
                   ((zb + W - (off / 8) % W) % W + W - 1) % W, p);
  }

  /** rho leaves lane (0, 0), internal lane (2, 2), as it is: its offset is 0. */
  lemma RhoCopiedAt(t: seq<byte>, W: int, z: int, zb: int, k: nat, off: nat, p: int)
    requires IsBytes(t, W) && 0 <= z < 8 * W && zb == z / 8 && k == z % 8
    requires off == RhoOffset(0, 0) && p == (z - off) % (8 * W)
    ensures p == z
    ensures View(KeccakSteps.Rho(t, W), W)[0][0][z] == View(t, W)[0][0][p]
  {
    assert off == 0;
    DivModUnique(z, 8 * W, 0, z);
    ViewLane(KeccakSteps.Rho(t, W), W, 0, 0, z, 2, 2, zb, k);
    RhoByteAt(t, W, 2, 2, zb);
    ViewLane(t, W, 0, 0, z, 2, 2, zb, k);
  }

  lemma RhoAt(t: seq<byte>, W: int, x: int, y: int, z: int, X: int, Y: int, zb: int, k: nat, off: nat, p: int)
    requires IsBytes(t, W) && 0 <= x < 5 && 0 <= y < 5 && 0 <= z < 8 * W
    requires Internal(x, y, z, X, Y, zb, k) && off == RhoOffset(x, y) && p == (z - off) % (8 * W)
    ensures View(KeccakSteps.Rho(t, W), W)[x][y][z] == Fips202.Rho(View(t, W), 8 * W)[x][y][z]
  {
    RhoValue(View(t, W), 8 * W, x, y, z, p);
    RhoShiftedAt(t, W, x, y, z, X, Y, zb, k, off, p);
  }

  /** Bit z of any lane after rho is bit (z - off) mod w of it before. */
  lemma RhoShiftedAt(t: seq<byte>, W: int, x: int, y: int, z: int, X: int, Y: int, zb: int, k: nat, off: nat, p: int)
    requires IsBytes(t, W) && 0 <= x < 5 && 0 <= y < 5 && 0 <= z < 8 * W
    requires Internal(x, y, z, X, Y, zb, k) && off == RhoOffset(x, y) && p == (z - off) % (8 * W)
    ensures 0 <= p < 8 * W
    ensures View(KeccakSteps.Rho(t, W), W)[x][y][z] == View(t, W)[x][y][p]
  {
    if x == 0 && y == 0 {
      RhoCopiedAt(t, W, z, zb, k, off, p);
    } else {
      RhoRotatedAt(t, W, x, y, z, X, Y, zb, k, off, p);
    }
  }

  /** rho, read through the coordinate shift, is rho of FIPS 202. */
  lemma RhoMatches(t: seq<byte>, W: int)
    requires IsBytes(t, W)
    ensures View(KeccakSteps.Rho(t, W), W) == Fips202.Rho(View(t, W), 8 * W)
  {
    forall x, y, z | 0 <= x < 5 && 0 <= y < 5 && 0 <= z < 8 * W
      ensures View(KeccakSteps.Rho(t, W), W)[x][y][z] == Fips202.Rho(View(t, W), 8 * W)[x][y][z]
    {
      RhoAt(t, W, x, y, z, (x + 2) % 5, (y + 2) % 5, z / 8, z % 8, RhoOffset(x, y), (z - RhoOffset(x, y)) % (8 * W));
    }
    StateExt(View(KeccakSteps.Rho(t, W), W), Fips202.Rho(View(t, W), 8 * W), 8 * W);
  }

  // ---- iota

  lemma RcContributionNext(ir: int, z: int, j: nat)
    ensures RcContribution(ir, z, j + 1) == RcContribution(ir, z, j) ^ RcTerm(ir, j, z)
  {
  }

  /** Bit k of what iteration j XORs into byte zb: set exactly at bit
      position 2^j - 1, when rc(j + 7 ir) is 1. */
  lemma RcTermBit(ir: int, j: nat, zb: int, k: nat)
    requires k < 8
    ensures Bit(RcTerm(ir, j, zb), k) == (Pow2(j) - 1 == 8 * zb + k && Fips202.RcBit(j + 7 * ir))
  {
    var pos := Pow2(j) - 1;
    var r := RcByte(j + 7 * ir);
    RcByteIsRcBit(j + 7 * ir);
    if pos / 8 == zb {
      ShiftAmountValue(pos % 8);
      BitUnitShift(r, ShiftAmount(pos % 8), k);
    } else {
      BitZero(k);
    }
  }

  /** One iteration j of iota's second loop, against step 3 of Algorithm 6
      for a lane of w = 2^l bits, at the position 2^j - 1 step 3 assigns:
      no earlier iteration has touched it, so XORing bit rc(j + 7 ir) into
      it is the assignment. */
  lemma RcContributionHit(w: nat, l: nat, ir: int, zb: int, k: nat, j: nat)
    requires Pow2(l) == w && k < 8 && 0 <= 8 * zb + k < w && j <= l
    requires Pow2(j) - 1 == 8 * zb + k
    requires Bit(RcContribution(ir, zb, j), k) == RoundConstant(w, l, ir, j)[8 * zb + k]
    ensures Bit(RcContribution(ir, zb, j + 1), k) == RoundConstant(w, l, ir, j + 1)[8 * zb + k]
  {
    var p := 8 * zb + k;
    RcContributionNext(ir, zb, j);
    RcTermBit(ir, j, zb, k);
    RoundConstantStep(w, l, ir, j, p);
    RoundConstantUnset(w, l, ir, j, p);
    BitXor(RcContribution(ir, zb, j), RcTerm(ir, j, zb), k);
  }

  /** The same iteration at every other position: the bit is kept. */
  lemma RcContributionMiss(w: nat, l: nat, ir: int, zb: int, k: nat, j: nat)
    requires Pow2(l) == w && k < 8 && 0 <= 8 * zb + k < w && j <= l
    requires Pow2(j) - 1 != 8 * zb + k
    requires Bit(RcContribution(ir, zb, j), k) == RoundConstant(w, l, ir, j)[8 * zb + k]
    ensures Bit(RcContribution(ir, zb, j + 1), k) == RoundConstant(w, l, ir, j + 1)[8 * zb + k]
  {
    var p := 8 * zb + k;
    RcContributionNext(ir, zb, j);
    RcTermBit(ir, j, zb, k);
    RoundConstantStep(w, l, ir, j, p);
    BitXor(RcContribution(ir, zb, j), RcTerm(ir, j, zb), k);
  }

  /** The bytes iota's second loop XORs into lane (2, 2) carry, bit for bit,
      the round constant RC of Algorithm 6: the XOR of a bit into a position
      no earlier step has set is the assignment of step 3. */
  lemma {:induction false} RcContributionBit(w: nat, l: nat, ir: int, zb: int, k: nat, jn: nat)
    requires Pow2(l) == w && k < 8 && 0 <= 8 * zb + k < w && jn <= l + 1
    ensures Bit(RcContribution(ir, zb, jn), k) == RoundConstant(w, l, ir, jn)[8 * zb + k]
    decreases jn
  {
    if jn == 0 {
      BitZero(k);
    } else {
      var j := jn - 1;
      RcContributionBit(w, l, ir, zb, k, j);
      if Pow2(j) - 1 == 8 * zb + k {
        RcContributionHit(w, l, ir, zb, k, j);
      } else {
        RcContributionMiss(w, l, ir, zb, k, j);
      }
    }
  }

  /** The XOR of the full loop's contribution into a byte of lane (0, 0)
      flips bit k exactly where the round constant has a one. */
  lemma RoundConstantXor(w: nat, l: nat, ir: int, a: byte, zb: int, k: nat, z: int, jn: nat)
    requires Pow2(l) == w && jn == l + 1 && k < 8 && z == 8 * zb + k && 0 <= z < w
    ensures Bit(a ^ RcContribution(ir, zb, jn), k) == (Bit(a, k) != RoundConstant(w, l, ir, jn)[z])
  {
    BitXor(a, RcContribution(ir, zb, jn), k);
    RcContributionBit(w, l, ir, zb, k, jn);
  }

  /** iota on lane (0, 0): bit z is flipped by bit z of the round constant. */
  lemma IotaLaneAt(t: seq<byte>, W: int, ir: int, z: int, zb: int, k: nat, l: nat)
    requires IsBytes(t, W) && 0 <= z < 8 * W && zb == z / 8 && k == z % 8 && l == LaneLog(W) && Pow2(l) == 8 * W
    ensures View(KeccakSteps.Iota(t, W, ir), W)[0][0][z]
         == (View(t, W)[0][0][z] != RoundConstant(8 * W, l, ir, l + 1)[z])
  {
    ViewLane(KeccakSteps.Iota(t, W, ir), W, 0, 0, z, 2, 2, zb, k);
    ViewLane(t, W, 0, 0, z, 2, 2, zb, k);
    IotaLaneBit(t, W, ir, z, zb, k, l);
  }

  /** Bit k of byte zb of lane (0, 0), internal lane (2, 2), after iota. */
  lemma IotaLaneBit(t: seq<byte>, W: int, ir: int, z: int, zb: int, k: nat, l: nat)
    requires IsBytes(t, W) && 0 <= z < 8 * W && z == 8 * zb + k && 0 <= zb < W && k < 8
    requires l == LaneLog(W) && Pow2(l) == 8 * W
    ensures Bit(LaneByte(KeccakSteps.Iota(t, W, ir), W, 2, 2, zb), k)
         == (Bit(LaneByte(t, W, 2, 2, zb), k) != RoundConstant(8 * W, l, ir, l + 1)[z])
  {
    var w, jn := 8 * W, l + 1;
    IotaLaneByte(t, W, ir, zb, l, jn);
    RoundConstantXor(w, l, ir, LaneByte(t, W, 2, 2, zb), zb, k, z, jn);
  }

  /** Byte zb of lane (0, 0), internal lane (2, 2), after iota. */
  lemma IotaLaneByte(t: seq<byte>, W: int, ir: int, zb: int, l: nat, jn: nat)
    requires IsBytes(t, W) && 0 <= zb < W && l == LaneLog(W) && jn == l + 1
    ensures LaneByte(KeccakSteps.Iota(t, W, ir), W, 2, 2, zb) == LaneByte(t, W, 2, 2, zb) ^ RcContribution(ir, zb, jn)
  {
    var base := 5 * W * 2 + W * 2;
    var i := base + zb;
    IdxBound(W, 2, 2, zb);
    assert Idx(W, 2, 2, zb) == i;
    assert base <= i < 5 * W * 2 + W * 3 && zb == i - base;
    IotaByteIn(t, W, ir, i);
    RcContributionSame(ir, i - (5 * W * 2 + W * 2), zb, LaneLog(W) + 1, jn);
    assert KeccakSteps.Iota(t, W, ir)[i] == IotaByte(t, W, ir, i);
  }

  lemma IotaByteIn(t: seq<byte>, W: int, ir: int, i: int)
    requires IsBytes(t, W) && 0 <= i < 25 * W && 5 * W * 2 + W * 2 <= i < 5 * W * 2 + W * 3
    ensures IotaByte(t, W, ir, i) == t[i] ^ RcContribution(ir, i - (5 * W * 2 + W * 2), LaneLog(W) + 1)
  {
  }

  lemma RcContributionSame(ir: int, z: int, z': int, jn: nat, jn': nat)
    requires z == z' && jn == jn'
    ensures RcContribution(ir, z, jn) == RcContribution(ir, z', jn')
  {
  }

  /** iota leaves every other lane as it is. */
  lemma IotaOtherAt(t: seq<byte>, W: int, ir: int, x: int, y: int, z: int, X: int, Y: int, zb: int, k: nat)
    requires IsBytes(t, W) && 0 <= x < 5 && 0 <= y < 5 && 0 <= z < 8 * W
    requires (x != 0 || y != 0) && Internal(x, y, z, X, Y, zb, k)
    ensures View(KeccakSteps.Iota(t, W, ir), W)[x][y][z] == View(t, W)[x][y][z]
  {
    ViewLane(KeccakSteps.Iota(t, W, ir), W, x, y, z, X, Y, zb, k);
    ViewLane(t, W, x, y, z, X, Y, zb, k);
    IotaOtherByte(t, W, ir, X, Y, zb);
  }

  lemma IotaOtherByte(t: seq<byte>, W: int, ir: int, X: int, Y: int, zb: int)
    requires IsBytes(t, W) && InLane(W, X, Y, zb) && (X != 2 || Y != 2)
    ensures LaneByte(KeccakSteps.Iota(t, W, ir), W, X, Y, zb) == LaneByte(t, W, X, Y, zb)
  {
    IdxBound(W, X, Y, zb);
    var c := 5 * Y + X;
    var i := Idx(W, X, Y, zb);
    assert i == c * W + zb;
    if c <= 11 {
      MulLe(c, 11, W);
    } else {
      MulLe(13, c, W);
    }
    IotaByteOut(t, W, ir, i);
    assert KeccakSteps.Iota(t, W, ir)[i] == IotaByte(t, W, ir, i);
  }

  lemma IotaByteOut(t: seq<byte>, W: int, ir: int, i: int)
    requires IsBytes(t, W) && 0 <= i < 25 * W && (i < 12 * W || i >= 13 * W)
    ensures IotaByte(t, W, ir, i) == t[i]
  {
  }

  lemma IotaAt(t: seq<byte>, W: int, ir: int, x: int, y: int, z: int, X: int, Y: int, zb: int, k: nat, l: nat)
    requires IsBytes(t, W) && 0 <= x < 5 && 0 <= y < 5 && 0 <= z < 8 * W
    requires Internal(x, y, z, X, Y, zb, k) && l == LaneLog(W)
    ensures View(KeccakSteps.Iota(t, W, ir), W)[x][y][z] == Fips202.Iota(View(t, W), 8 * W, l, ir)[x][y][z]
  {
    IotaValue(View(t, W), 8 * W, l, ir, x, y, z);
    if x == 0 && y == 0 {
      IotaLaneAt(t, W, ir, z, zb, k, l);
    } else {
      IotaOtherAt(t, W, ir, x, y, z, X, Y, zb, k);
    }
  }

  /** iota, read through the coordinate shift, is iota of FIPS 202 with
      l = log2(w). */
  lemma IotaMatches(t: seq<byte>, W: int, ir: int)
    requires IsBytes(t, W)
    ensures View(KeccakSteps.Iota(t, W, ir), W) == Fips202.Iota(View(t, W), 8 * W, LaneLog(W), ir)
  {
    forall x, y, z | 0 <= x < 5 && 0 <= y < 5 && 0 <= z < 8 * W
      ensures View(KeccakSteps.Iota(t, W, ir), W)[x][y][z] == Fips202.Iota(View(t, W), 8 * W, LaneLog(W), ir)[x][y][z]
    {
      IotaAt(t, W, ir, x, y, z, (x + 2) % 5, (y + 2) % 5, z / 8, z % 8, LaneLog(W));
    }
    StateExt(View(KeccakSteps.Iota(t, W, ir), W), Fips202.Iota(View(t, W), 8 * W, LaneLog(W), ir), 8 * W);
  }

  // ---- rounds and the permutation

  /** One byte-level round, read through the coordinate shift, is Rnd of
      FIPS 202 (section 3.3). */
  lemma RoundMatches(t: seq<byte>, W: int, ir: int)
    requires IsBytes(t, W)
    ensures View(KeccakSteps.Round(t, W, ir), W) == Rnd(View(t, W), 8 * W, LaneLog(W), ir)
  {
    var t1 := KeccakSteps.Theta(t, W);
    var t2 := KeccakSteps.Rho(t1, W);
    var t3 := KeccakSteps.Pi(t2, W);
    var t4 := KeccakSteps.Chi(t3, W);
    ThetaMatches(t, W);
    RhoMatches(t1, W);
    PiMatches(t2, W);
    ChiMatches(t3, W);
    IotaMatches(t4, W, ir);
  }

  lemma {:induction false} RoundsMatch(t: seq<byte>, W: int, lo: int, hi: int)
    requires IsBytes(t, W)
    ensures View(KeccakSteps.Rounds(t, W, lo, hi), W) == Fips202.Rounds(View(t, W), 8 * W, LaneLog(W), lo, hi)
    decreases hi - lo
  {
    if lo < hi {
      RoundsMatch(t, W, lo, hi - 1);
      RoundMatches(KeccakSteps.Rounds(t, W, lo, hi - 1), W, hi - 1);
    }
  }

  /** keccak_p(b, 0) runs no round, so a call gives back the state it was
      given: shift-out undoes shift-in. */
  lemma PermuteZero(s: seq<byte>, W: int)
    requires IsBytes(s, W)
    ensures Permute(s, W, 0) == s
  {
    RoundsNone(ShiftIn(s, W), W, FirstRound(LaneLog(W), 0), FullRounds(LaneLog(W)));
    ShiftRoundTrip(s, W);
  }

  /** One call of the permutation keccak_p(200 W, n) returns is
      Keccak-p[200 W, n] of FIPS 202 on the state's bit string. */
  lemma PermuteMatches(s: seq<byte>, W: int, n: nat)
    requires IsBytes(s, W)
    ensures FromBytes(Permute(s, W, n), W) == KeccakP(FromBytes(s, W), 8 * W, LaneLog(W), n)
  {
    var l := LaneLog(W);
    PermuteView(s, W, n);
    RoundsView(s, W, Fips202.FirstRound(l, n), FullRounds(l));
  }

  /** The permutation's result, read as a standard state, is the view of
      the internal state after the rounds. */
  lemma PermuteView(s: seq<byte>, W: int, n: nat)
    requires IsBytes(s, W)
    ensures FromBytes(Permute(s, W, n), W)
         == View(KeccakSteps.Rounds(ShiftIn(s, W), W, Fips202.FirstRound(LaneLog(W), n), FullRounds(LaneLog(W))), W)
  {
    ShiftOutView(KeccakSteps.Rounds(ShiftIn(s, W), W, Fips202.FirstRound(LaneLog(W), n), FullRounds(LaneLog(W))), W);
  }

  /** The view of the internal state after the rounds is FIPS 202's rounds
      on the standard state. */
  lemma RoundsView(s: seq<byte>, W: int, lo: int, hi: int)
    requires IsBytes(s, W)
    ensures View(KeccakSteps.Rounds(ShiftIn(s, W), W, lo, hi), W)
         == Fips202.Rounds(FromBytes(s, W), 8 * W, LaneLog(W), lo, hi)
  {
    ShiftInView(s, W);
    RoundsMatch(ShiftIn(s, W), W, lo, hi);
  }

  /** The shift-out loop undoes the shift-in loop, and the other way round. */
  lemma ShiftRoundTrip(s: seq<byte>, W: int)
    requires IsBytes(s, W)
    ensures ShiftOut(ShiftIn(s, W), W) == s
    ensures ShiftIn(ShiftOut(s, W), W) == s
  {
    forall i | 0 <= i < 25 * W ensures ShiftOut(ShiftIn(s, W), W)[i] == s[i] {
      ShiftIdxInverse(i, W);
    }
    forall j | 0 <= j < 25 * W ensures ShiftIn(ShiftOut(s, W), W)[j] == s[j] {
      ShiftIdxInverse(j, W);
    }
  }

  // ---- rc: the source's register against Algorithm 5

  /** The source's 8-bit register for the bit string R of Algorithm 5: R[i]
      is bit 7 - i, so R = 10000000 is 0x80. */
  function Encode(R: seq<bool>): bv16
    requires |R| == 8
  {
    (if R[0] then 0x80 else 0) | (if R[1] then 0x40 else 0) | (if R[2] then 0x20 else 0)
    | (if R[3] then 0x10 else 0) | (if R[4] then 0x08 else 0) | (if R[5] then 0x04 else 0)
    | (if R[6] then 0x02 else 0) | (if R[7] then 0x01 else 0)
  }

  /** One iteration of the source's loop is steps 3a-3f of Algorithm 5. */
  lemma LfsrStepEncode(R: seq<bool>)
    requires |R| == 8
    ensures KeccakSteps.LfsrStep(Encode(R)) == Encode(Fips202.LfsrStep(R))
  {
  }

  lemma {:induction false} LfsrEncode(k: nat)
    ensures Lfsr(k) == Encode(LfsrState(k))
  {
    if k > 0 {
      LfsrEncode(k - 1);
      LfsrStepEncode(LfsrState(k - 1));
    }
  }

  /** The register's low bit is R[7]. */
  lemma EncodeLow(R: seq<bool>)
    requires |R| == 8
    ensures (Encode(R) & 1) as byte == if R[7] then 1 else 0
  {
  }

  /** The register's top bit is R[0]. */
  lemma EncodeHigh(R: seq<bool>)
    requires |R| == 8
    ensures (Encode(R) & 0x80 != 0) == R[0]
  {
  }

  lemma LfsrStateNext(k: nat)
    ensures LfsrState(k + 1)[0] == LfsrState(k)[7]
  {
  }

  /** For 0 <= t < 255 the source's rc is rc of Algorithm 5: t - 1
      iterations and the register's low bit R[7] give the R[0] that t
      iterations give. */
  lemma AsWrittenIsRcBit(t: int)
    requires 0 <= t < 255
    ensures RcAsWritten(t) == if Fips202.RcBit(t) then 1 else 0
  {
    assert t % 255 == t;
    if t > 0 {
      var k := t - 1;
      LfsrEncode(k);
      EncodeLow(LfsrState(k));
      LfsrStateNext(k);
    }
  }

  /** The byte-level rc is rc of Algorithm 5 for every t. */
  lemma RcByteIsRcBit(t: int)
    ensures RcByte(t) == if Fips202.RcBit(t) then 1 else 0
  {
    var u := t % 255;
    AsWrittenIsRcBit(u);
    assert u % 255 == u;
  }

  /** On 0 <= t < 255 the reduction changes nothing: the source's rc is
      the corrected one. */
  lemma RcAsWrittenAgrees(t: int)
    requires 0 <= t < 255
    ensures RcAsWritten(t) == RcByte(t)
  {
    assert t % 255 == t;
  }

  /** With at most 12 + 2 l rounds every round index is at least 0, so every
      argument iota passes to rc lies in [0, 255), where the source's rc
      and Algorithm 5 agree. */
  lemma RcArgumentInRange(W: int, n: nat, ir: int, j: nat)
    requires ValidLaneBytes(W) && n <= FullRounds(LaneLog(W))
    requires FirstRound(LaneLog(W), n) <= ir < FullRounds(LaneLog(W)) && j <= LaneLog(W)
    ensures 0 <= j + 7 * ir < 255 && RcAsWritten(j + 7 * ir) == RcByte(j + 7 * ir)
  {
    RcAsWrittenAgrees(j + 7 * ir);
  }

  /** rc as written answers a bit, and 0 for every negative t: its loop
      does not run. */
  lemma RcAsWrittenNegative(t: int)
    ensures RcAsWritten(t) <= 1
    ensures t < 0 ==> RcAsWritten(t) == 0
  {
    assert Lfsr(0) & 1 == 0;
  }

  /** keccak_p(1600, 60) starts at round index 12 + 2 * 6 - 60 = -36, whose
      iota asks for rc(5 + 7 * -36) = rc(-247).  For a negative t the
      source's loop does not run and rc answers 0, while Algorithm 5 reduces
      t modulo 255 first: rc(-247) = rc(8) = 1. */
  lemma RcNegativeCounterexample()
    ensures LaneLog(8) == 6 && FirstRound(LaneLog(8), 60) == -36 && 5 <= LaneLog(8)
    ensures 5 + 7 * FirstRound(LaneLog(8), 60) == -247
    ensures RcAsWritten(-247) == 0 && RcByte(-247) == 1 && Fips202.RcBit(-247)
  {
    assert LaneLog(8) == 6;
    assert -247 % 255 == 8;
    assert Lfsr(7) & 1 == 1;
    RcByteIsRcBit(-247);
  }
}
