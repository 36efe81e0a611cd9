/** The byte layout of a Keccak state: 25 lanes of W bytes each, lane (x, y)
    starting at byte 5*W*y + W*x, byte z of a lane holding its bits 8z..8z+7.
    Also the small integer facts (division, powers of two) the layout needs. */
module Layout {

  /** Bytes per lane supported by a byte-oriented state: widths 200, 400, 800
      and 1600 bits. */
  predicate ValidLaneBytes(W: int) {
    W == 1 || W == 2 || W == 4 || W == 8
  }

  function Pow2(j: nat): (p: nat)
    ensures p >= 1
  {
    if j == 0 then 1 else 2 * Pow2(j - 1)
  }

  /** Integer base-2 logarithm, rounded down; on powers of two it is what
      Math.log2 computes. */
  function Log2(n: nat): nat
    requires n >= 1
  {
    if n == 1 then 0 else 1 + Log2(n / 2)
  }

  /** l = log2 of the lane length in bits, which is 8*W. */
  function LaneLog(W: int): (l: nat)
    requires ValidLaneBytes(W)
    ensures 3 <= l <= 6 && Pow2(l) == 8 * W
  {
    assert Pow2(3) == 8 && Pow2(4) == 16 && Pow2(5) == 32 && Pow2(6) == 64;
    assert Log2(8) == 3 && Log2(16) == 4 && Log2(32) == 5 && Log2(64) == 6;
    Log2(8 * W)
  }

  lemma Pow2Monotone(i: nat, j: nat)
    requires i < j
    ensures Pow2(i) < Pow2(j)
    decreases j
  {
    if i < j - 1 { Pow2Monotone(i, j - 1); }
  }

  lemma Pow2MonotoneLe(i: nat, j: nat)
    requires i <= j
    ensures Pow2(i) <= Pow2(j)
  {
    if i < j { Pow2Monotone(i, j); }
  }

  /** Index of byte z of lane (x, y). */
  function Idx(W: int, x: int, y: int, z: int): int {
    5 * W * y + W * x + z
  }

  predicate InLane(W: int, x: int, y: int, z: int) {
    0 <= x < 5 && 0 <= y < 5 && 0 <= z < W
  }

  /** Coordinates of byte i. */
  function LaneX(i: int, W: int): int requires W > 0 { (i / W) % 5 }
  function LaneY(i: int, W: int): int requires W > 0 { i / W / 5 }
  function LaneZ(i: int, W: int): int requires W > 0 { i % W }

  lemma DivModUnique(a: int, m: int, q: int, r: int)
    requires m > 0 && 0 <= r < m && a == q * m + r
    ensures a / m == q && a % m == r
  {
    var q', r' := a / m, a % m;
    assert a == q' * m + r';
    if q' > q {
      MulAtLeast(q' - q, m);
      assert false;
    } else if q' < q {
      MulAtLeast(q - q', m);
      assert false;
    }
  }

  lemma MulAtLeast(k: int, m: int)
    requires k >= 1 && m > 0
    ensures k * m >= m
  {
  }

  /** The layout is a bijection between lane coordinates and [0, 25*W). */
  lemma IdxCoord(W: int, x: int, y: int, z: int)
    requires W > 0 && InLane(W, x, y, z)
    ensures 0 <= Idx(W, x, y, z) < 25 * W
    ensures LaneX(Idx(W, x, y, z), W) == x
    ensures LaneY(Idx(W, x, y, z), W) == y
    ensures LaneZ(Idx(W, x, y, z), W) == z
  {
    var i := Idx(W, x, y, z);
    assert i == (5 * y + x) * W + z;
    DivModUnique(i, W, 5 * y + x, z);
    assert (5 * y + x) * W <= 24 * W by { MulLe(5 * y + x, 24, W); }
  }

  /** The byte after the last byte of lane (x, y) is the first byte of the
      next lane. */
  lemma IdxCarry(W: int, x: int, y: int)
    ensures Idx(W, x, y, W) == Idx(W, x + 1, y, 0)
    ensures Idx(W, 5, y, 0) == Idx(W, 0, y + 1, 0)
  {
  }

  /** The byte after row x of a 5 W-byte scratch buffer starts row x + 1. */
  lemma RowCarry(W: int, x: int)
    ensures W * x + W == W * (x + 1)
  {
  }

  lemma MulCancelLt(a: int, b: int, m: int)
    requires m > 0 && a * m < b * m
    ensures a < b
  {
    if a >= b {
      MulLe(b, a, m);
      assert false;
    }
  }

  lemma MulLe(a: int, b: int, m: int)
    requires a <= b && m >= 0
    ensures a * m <= b * m
  {
  }

  lemma CoordIdx(i: int, W: int)
    requires W > 0 && 0 <= i < 25 * W
    ensures InLane(W, LaneX(i, W), LaneY(i, W), LaneZ(i, W))
    ensures Idx(W, LaneX(i, W), LaneY(i, W), LaneZ(i, W)) == i
  {
    MulCancelLt(i / W, 25, W);
  }

  /** Bounds of the index of byte z of lane (x, y). */
  lemma IdxBound(W: int, x: int, y: int, z: int)
    requires W > 0 && InLane(W, x, y, z)
    ensures 0 <= Idx(W, x, y, z) < 25 * W
  {
    MulLe(5 * y + x, 24, W);
  }

  /** Row buffers (C and D of theta) hold byte z of column x at x*W + z. */
  lemma RowCoord(i: int, W: int)
    requires W > 0 && 0 <= i < 5 * W
    ensures 0 <= i / W < 5 && 0 <= i % W < W && i == W * (i / W) + i % W
  {
    MulCancelLt(i / W, 5, W);
  }

  lemma RowIdx(W: int, x: int, z: int)
    requires W > 0 && 0 <= x < 5 && 0 <= z < W
    ensures 0 <= W * x + z < 5 * W
    ensures (W * x + z) / W == x && (W * x + z) % W == z
  {
    MulLe(x, 4, W);
    DivModUnique(W * x + z, W, x, z);
  }

  /** Lane (x, y) is lane number 5y + x, of W bytes each. */
  lemma IdxLaneNumber(W: int, x: int, y: int, z: int)
    ensures Idx(W, x, y, z) == W * (5 * y + x) + z
  {
  }

  /** Bit z of lane number m (lanes of 8W bits) is bit z % 8 of byte
      W*m + z/8. */
  lemma BitPosition(W: int, m: int, z: int)
    requires W > 0 && 0 <= z
    ensures (8 * W * m + z) / 8 == W * m + z / 8 && (8 * W * m + z) % 8 == z % 8
  {
    var k := W * m;
    assert 8 * W * m == 8 * k;
    DivModUnique(8 * k + z, 8, k + z / 8, z % 8);
  }

  /** Moving a coordinate by +2 and then by +3 modulo 5 gives it back. */
  lemma ShiftBack(x: int)
    requires 0 <= x < 5
    ensures ((x + 2) % 5 + 3) % 5 == x && ((x + 3) % 5 + 2) % 5 == x
    ensures 0 <= (x + 2) % 5 < 5 && 0 <= (x + 3) % 5 < 5
  {
  }

  /** The coordinate shift by 2, without the remainder. */
  lemma ShiftValue(x: int)
    requires 0 <= x < 5
    ensures (x + 2) % 5 == if x < 3 then x + 2 else x - 3
  {
  }

  /** The neighbouring columns x - 1 and x + 1 of theta, after the shift by 2. */
  lemma Neighbours(x: int)
    requires 0 <= x < 5
    ensures ((x - 1) % 5 + 2) % 5 == ((x + 2) % 5 + 4) % 5
    ensures ((x + 1) % 5 + 2) % 5 == ((x + 2) % 5 + 1) % 5
  {
  }

  /** The bit before bit z of a lane of 8W bits, when z is not the first bit
      of its byte: the bit below in the same byte. */
  lemma PreviousBitSame(z: int, W: int)
    requires W > 0 && 0 <= z < 8 * W && z % 8 >= 1
    ensures (z - 1) % (8 * W) / 8 == z / 8 && (z - 1) % (8 * W) % 8 == z % 8 - 1
  {
    DivModUnique(z - 1, 8 * W, 0, z - 1);
  }

  /** The bit before the first bit of byte z / 8: bit 7 of the byte below,
      cyclically (byte W - 1 below byte 0). */
  lemma PreviousBitBelow(z: int, W: int)
    requires W > 0 && 0 <= z < 8 * W && z % 8 == 0
    ensures (z - 1) % (8 * W) / 8 == (z / 8 + W - 1) % W && (z - 1) % (8 * W) % 8 == 7
  {
    if z >= 1 {
      DivModUnique(z - 1, 8 * W, 0, z - 1);
      DivModUnique(z / 8 + W - 1, W, 1, z / 8 - 1);
    } else {
      DivModUnique(-1, 8 * W, -1, 8 * W - 1);
      DivModUnique(W - 1, W, 0, W - 1);
    }
  }

  lemma ModShift(a: int, m: int, k: int)
    requires m > 0
    ensures (a + m * k) % m == a % m
  {
    assert (a / m + k) * m == (a / m) * m + m * k;
    DivModUnique(a + m * k, m, a / m + k, a % m);
  }

  /** Rotating a lane of 8W bits left by off, bit z = 8 zb + k comes from bit
      p = (z - off) mod 8W.  With off = 8 q + bs, that bit lies in byte
      src = (zb + W - q % W) % W when k >= bs, and in the byte below src
      otherwise. */
  lemma RotatePosition(z: int, W: int, off: int, zb: int, k: int, q: int, bs: int, src: int, below: int, p: int)
    requires W > 0 && 0 <= z < 8 * W && off >= 0
    requires zb == z / 8 && k == z % 8 && q == off / 8 && bs == off % 8
    requires src == (zb + W - q % W) % W && below == (src + W - 1) % W && p == (z - off) % (8 * W)
    ensures k >= bs ==> p == 8 * src + (k - bs)
    ensures k < bs ==> p == 8 * below + (k + 8 - bs)
  {
    RotateSplit(z, W, off, zb, k, q, bs, src, (zb - q) / W, (zb - q) % W);
    if k >= bs {
      RotateSame(z - off, W, (zb - q) / W, src, k - bs, p);
    } else if src >= 1 {
      RotateBelow(z - off, W, (zb - q) / W, src, below, k + 8 - bs, p);
    } else {
      RotateWrap(z - off, W, (zb - q) / W, src, below, k + 8 - bs, p);
    }
  }

  /** z - off split at the lane length: d whole turns, then byte src. */
  lemma RotateSplit(z: int, W: int, off: int, zb: int, k: int, q: int, bs: int, src: int, d: int, r: int)
    requires W > 0 && 0 <= z < 8 * W && off >= 0
    requires zb == z / 8 && k == z % 8 && q == off / 8 && bs == off % 8
    requires src == (zb + W - q % W) % W && d == (zb - q) / W && r == (zb - q) % W
    ensures src == r && 0 <= r < W && z - off == d * (8 * W) + 8 * r + (k - bs)
  {
    assert q == W * (q / W) + q % W;
    ModShift(zb - q, W, q / W + 1);
    assert zb - q + W * (q / W + 1) == zb + W - q % W;
    assert z - off == 8 * (zb - q) + (k - bs);
    assert zb - q == W * d + r;
  }

  lemma RotateSame(a: int, W: int, d: int, r: int, j: int, p: int)
    requires W > 0 && 0 <= r < W && 0 <= j < 8 && a == d * (8 * W) + 8 * r + j && p == a % (8 * W)
    ensures p == 8 * r + j
  {
    DivModUnique(a, 8 * W, d, 8 * r + j);
  }

  lemma RotateBelow(a: int, W: int, d: int, r: int, below: int, j: int, p: int)
    requires W > 0 && 1 <= r < W && 0 <= j < 8 && a == d * (8 * W) + 8 * r + j - 8
    requires below == (r + W - 1) % W && p == a % (8 * W)
    ensures p == 8 * below + j
  {
    DivModUnique(r + W - 1, W, 1, r - 1);
    DivModUnique(a, 8 * W, d, 8 * (r - 1) + j);
  }

  lemma RotateWrap(a: int, W: int, d: int, r: int, below: int, j: int, p: int)
    requires W > 0 && r == 0 && 0 <= j < 8 && a == d * (8 * W) + 8 * r + j - 8
    requires below == (r + W - 1) % W && p == a % (8 * W)
    ensures p == 8 * below + j
  {
    DivModUnique(W - 1, W, 0, W - 1);
    assert a == (d - 1) * (8 * W) + 8 * (W - 1) + j;
    DivModUnique(a, 8 * W, d - 1, 8 * (W - 1) + j);
  }

  /** RotatePosition, as the byte and bit of the source position. */
  lemma RotateSource(z: int, W: int, off: int, zb: int, k: int, bs: int, src: int, below: int, p: int)
    requires W > 0 && 0 <= z < 8 * W && off >= 0
    requires zb == z / 8 && k == z % 8 && bs == off % 8
    requires src == (zb + W - (off / 8) % W) % W && below == (src + W - 1) % W && p == (z - off) % (8 * W)
    ensures 0 <= p < 8 * W
    ensures k >= bs ==> p / 8 == src && p % 8 == k - bs
    ensures k < bs ==> p / 8 == below && p % 8 == k + 8 - bs
  {
    RotatePosition(z, W, off, zb, k, off / 8, bs, src, below, p);
    if k >= bs {
      DivModUnique(p, 8, src, k - bs);
    } else {
      DivModUnique(p, 8, below, k + 8 - bs);
    }
  }
}
