/** The step mappings of keccak_p (src/keccak.ts) as byte-level functions, in
    the implementation's own coordinates.  On entry the permutation moves
    standard lane (x, y) to internal lane ((x + 2) % 5, (y + 2) % 5), so the
    standard lane (0, 0) lives at internal lane (2, 2); every function below
    reads and writes internal coordinates, exactly as the loops do. */
module KeccakSteps {
  import opened Bytes
  import opened Layout
  import Fips202

  predicate IsBytes(s: seq<byte>, W: int) {
    ValidLaneBytes(W) && |s| == 25 * W
  }

  /** Byte z of internal lane (x, y). */
  function LaneByte(s: seq<byte>, W: int, x: int, y: int, z: int): byte
    requires IsBytes(s, W) && InLane(W, x, y, z)
  {
    IdxBound(W, x, y, z);
    s[Idx(W, x, y, z)]
  }

  // ---- theta: the column parities C, the effect D, and the new state

  function ParityByte(s: seq<byte>, W: int, x: int, z: int): byte
    requires IsBytes(s, W) && 0 <= x < 5 && 0 <= z < W
  {
    LaneByte(s, W, x, 0, z) ^ LaneByte(s, W, x, 1, z) ^ LaneByte(s, W, x, 2, z)
    ^ LaneByte(s, W, x, 3, z) ^ LaneByte(s, W, x, 4, z)
  }

  /** The scratch buffer C after the first theta loop: byte z of column x at x*W + z. */
  function ColumnParity(s: seq<byte>, W: int): (C: seq<byte>)
    requires IsBytes(s, W)
    ensures |C| == 5 * W
  {
    seq(5 * W, i requires 0 <= i < 5 * W => RowCoord(i, W); ParityByte(s, W, i / W, i % W))
  }

  /** Byte z of row x of a 5W-byte scratch buffer (C or D), kept at W x + z. */
  function RowByte(C: seq<byte>, W: int, x: int, z: int): byte
    requires ValidLaneBytes(W) && |C| == 5 * W && 0 <= x < 5 && 0 <= z < W
  {
    RowIdx(W, x, z);
    C[W * x + z]
  }

  /** Byte z of D[x] = C[x-1] ^ rot1(C[x+1]), the rotation a shift with carry
      from the byte below (the last byte's top bit wraps to byte 0). */
  function EffectByte(C: seq<byte>, W: int, x: int, z: int): byte
    requires ValidLaneBytes(W) && |C| == 5 * W && 0 <= x < 5 && 0 <= z < W
  {
    RowByte(C, W, (x + 4) % 5, z)
    ^ (RowByte(C, W, (x + 1) % 5, z) << 1)
    ^ (RowByte(C, W, (x + 1) % 5, (z + W - 1) % W) >> 7)
  }

  /** The scratch buffer D after the second theta loop. */
  function ThetaEffect(C: seq<byte>, W: int): (D: seq<byte>)
    requires ValidLaneBytes(W) && |C| == 5 * W
    ensures |D| == 5 * W
  {
    seq(5 * W, i requires 0 <= i < 5 * W => RowCoord(i, W); EffectByte(C, W, i / W, i % W))
  }

  /** The third theta loop: every byte XORed with the effect byte of its column. */
  function XorEffect(s: seq<byte>, D: seq<byte>, W: int): (s': seq<byte>)
    requires IsBytes(s, W) && |D| == 5 * W
    ensures IsBytes(s', W)
  {
    seq(25 * W, i requires 0 <= i < 25 * W =>
      CoordIdx(i, W);
      s[i] ^ RowByte(D, W, LaneX(i, W), LaneZ(i, W)))
  }

  function Theta(s: seq<byte>, W: int): (s': seq<byte>)
    requires IsBytes(s, W)
    ensures IsBytes(s', W)
  {
    XorEffect(s, ThetaEffect(ColumnParity(s, W), W), W)
  }

  // ---- rho

  /** The internal lanes rho visits, t = 0 .. 23: (3, 2), then
      (x, y) <- (y, (2(x + 3) + 3(y + 3) + 2) % 5). */
  const Walk: seq<(int, int)> :=
    [(3, 2), (2, 4), (4, 3), (3, 4), (4, 0), (0, 0), (0, 2), (2, 3),
     (3, 0), (0, 3), (3, 1), (1, 1), (1, 2), (2, 0), (0, 1), (1, 0),
     (0, 4), (4, 4), (4, 2), (2, 1), (1, 4), (4, 1), (1, 3), (3, 3)]

  /** The step at which rho visits internal lane (x, y); -1 for lane (2, 2),
      which rho copies unrotated. */
  function WalkIndex(x: int, y: int): int
    requires 0 <= x < 5 && 0 <= y < 5
  {
    var table := [[ 5, 14,  6,  9, 16],
                  [15, 11, 12, 22, 20],
                  [13, 19, -1,  7,  1],
                  [ 8, 10,  0, 23,  3],
                  [ 4, 21, 18,  2, 17]];
    table[x][y]
  }

  /** The rotation amount (t + 1)(t + 2)/2 of the lane visited at step t. */
  function Triangular(t: int): int {
    (t + 1) * (t + 2) / 2
  }

  /** Byte z of internal lane (x, y) rotated left by off bits: a byte shift
      of (off >> 3) % W and a bit shift of off & 7, carrying the top bits of
      the byte below (none when the bit shift is 0). */
  function RotatedByte(s: seq<byte>, W: int, x: int, y: int, z: int, off: nat): byte
    requires IsBytes(s, W) && InLane(W, x, y, z)
  {
    var byteShift := off / 8;
    var bitShift := ShiftAmount(off % 8);
    var src := (z + W - byteShift % W) % W;
    var below := (src + W - 1) % W;
    (LaneByte(s, W, x, y, src) << bitShift) | (LaneByte(s, W, x, y, below) >> (8 - bitShift))
  }

  /** Byte z of internal lane (x, y) after rho: lane (2, 2) is copied, every
      other lane is rotated by the amount of the step that visits it. */
  function RhoByte(s: seq<byte>, W: int, x: int, y: int, z: int): byte
    requires IsBytes(s, W) && InLane(W, x, y, z)
  {
    if x == 2 && y == 2 then LaneByte(s, W, x, y, z)
    else RotatedByte(s, W, x, y, z, Triangular(WalkIndex(x, y)))
  }

  function Rho(s: seq<byte>, W: int): (s': seq<byte>)
    requires IsBytes(s, W)
    ensures IsBytes(s', W)
  {
    seq(25 * W, i requires 0 <= i < 25 * W =>
      CoordIdx(i, W);
      RhoByte(s, W, LaneX(i, W), LaneY(i, W), LaneZ(i, W)))
  }

  // ---- pi: internal lane (x, y) comes from internal lane (PiSource(x, y), x)

  function PiSource(x: int, y: int): (x': int)
    ensures 0 <= x' < 5
  {
    (3 * (y + 3) + x + 3 + 2) % 5
  }

  function Pi(s: seq<byte>, W: int): (s': seq<byte>)
    requires IsBytes(s, W)
    ensures IsBytes(s', W)
  {
    seq(25 * W, i requires 0 <= i < 25 * W =>
      CoordIdx(i, W);
      LaneByte(s, W, PiSource(LaneX(i, W), LaneY(i, W)), LaneX(i, W), LaneZ(i, W)))
  }

  // ---- chi

  /** Byte z of internal lane (x, y) after chi: a ^ (~b & c) with b, c the
      same byte of lanes x + 1 and x + 2. */
  function ChiByte(s: seq<byte>, W: int, x: int, y: int, z: int): byte
    requires IsBytes(s, W) && InLane(W, x, y, z)
  {
    LaneByte(s, W, x, y, z)
    ^ ((0xff ^ LaneByte(s, W, (x + 1) % 5, y, z)) & LaneByte(s, W, (x + 2) % 5, y, z))
  }

  function Chi(s: seq<byte>, W: int): (s': seq<byte>)
    requires IsBytes(s, W)
    ensures IsBytes(s', W)
  {
    seq(25 * W, i requires 0 <= i < 25 * W =>
      CoordIdx(i, W);
      ChiByte(s, W, LaneX(i, W), LaneY(i, W), LaneZ(i, W)))
  }

  // ---- rc: the LFSR as the source steps it, on a 9-bit register

  /** One iteration of rc's loop: bit 0 is fed back into bits 8, 4, 3 and 2,
      then the register is shifted right by one and cut to eight bits. */
  function LfsrStep(a: bv16): bv16 {
    ((a ^ ((a << 8) & 0x100) ^ ((a << 4) & 0x010) ^ ((a << 3) & 0x008) ^ ((a << 2) & 0x004)) >> 1) & 0xff
  }

  /** The register after k iterations, starting from 0x80. */
  function Lfsr(k: nat): bv16 {
    if k == 0 then 0x80 else LfsrStep(Lfsr(k - 1))
  }

  /** rc as the source computes it: 1 for t = 0, otherwise bit 0 of the
      register after t - 1 iterations (none when t < 1). */
  function RcAsWritten(t: int): byte {
    if t == 0 then 1 else (Lfsr(if t >= 1 then t - 1 else 0) & 1) as byte
  }

  /** The round-constant bit rc(t) of Algorithm 5 as a byte 0 or 1: the
      source's computation after the reduction t mod 255 of step 1 of
      Algorithm 5 (KeccakFips.RcByteIsRcBit links it to Fips202.RcBit). */
  function RcByte(t: int): byte {
    RcAsWritten(t % 255)
  }

  // ---- iota

  /** What iteration j of iota's second loop XORs into byte z of internal
      lane (2, 2): rc(j + 7 ir) shifted to bit position 2^j - 1, when that
      position falls in byte z. */
  function RcTerm(ir: int, j: nat, z: int): byte {
    var pos := Pow2(j) - 1;
    if pos / 8 == z then RcByte(j + 7 * ir) << ShiftAmount(pos % 8) else 0
  }

  /** What the first jn iterations of the loop XOR into byte z. */
  function RcContribution(ir: int, z: int, jn: nat): byte {
    if jn == 0 then 0 else RcContribution(ir, z, jn - 1) ^ RcTerm(ir, jn - 1, z)
  }

  /** iota with round index ir: only internal lane (2, 2), the standard
      lane (0, 0), which occupies bytes 12 W up to 13 W, changes. */
  function Iota(s: seq<byte>, W: int, ir: int): (s': seq<byte>)
    requires IsBytes(s, W)
    ensures IsBytes(s', W)
  {
    seq(25 * W, i requires 0 <= i < 25 * W => IotaByte(s, W, ir, i))
  }

  /** Byte i after iota: the bytes of internal lane (2, 2) get the round
      constant's bits, every other byte is copied. */
  function IotaByte(s: seq<byte>, W: int, ir: int, i: int): byte
    requires IsBytes(s, W) && 0 <= i < 25 * W
  {
    if 5 * W * 2 + W * 2 <= i < 5 * W * 2 + W * 3
    then s[i] ^ RcContribution(ir, i - (5 * W * 2 + W * 2), LaneLog(W) + 1)
    else s[i]
  }

  // ---- round and permutation

  function Round(s: seq<byte>, W: int, ir: int): (s': seq<byte>)
    requires IsBytes(s, W)
    ensures IsBytes(s', W)
  {
    Iota(Chi(Pi(Rho(Theta(s, W), W), W), W), W, ir)
  }

  /** Rounds lo .. hi-1, in that order. */
  function Rounds(s: seq<byte>, W: int, lo: int, hi: int): (s': seq<byte>)
    requires IsBytes(s, W)
    ensures IsBytes(s', W)
    decreases hi - lo
  {
    if hi <= lo then s else Round(Rounds(s, W, lo, hi - 1), W, hi - 1)
  }

  /** No rounds at all. */
  lemma RoundsNone(s: seq<byte>, W: int, lo: int, hi: int)
    requires IsBytes(s, W) && hi <= lo
    ensures Rounds(s, W, lo, hi) == s
  {
  }

  /** One more round at the end. */
  lemma RoundsNext(s: seq<byte>, W: int, lo: int, i: int)
    requires IsBytes(s, W) && lo <= i
    ensures Rounds(s, W, lo, i + 1) == Round(Rounds(s, W, lo, i), W, i)
  {
  }

  /** Where the shift-in loop stores standard byte i (and where the shift-out
      loop fetches it from): x and y both moved by +2 modulo 5. */
  function ShiftIdx(i: int, W: int): int
    requires W > 0
  {
    Idx(W, (i / W + 2) % 5, (i / W / 5 + 2) % 5, i % W)
  }

  /** The inverse map: internal byte j holds standard byte UnshiftIdx(j). */
  function UnshiftIdx(j: int, W: int): int
    requires W > 0
  {
    Idx(W, (LaneX(j, W) + 3) % 5, (LaneY(j, W) + 3) % 5, LaneZ(j, W))
  }

  lemma ShiftIdxInverse(i: int, W: int)
    requires W > 0 && 0 <= i < 25 * W
    ensures 0 <= ShiftIdx(i, W) < 25 * W && UnshiftIdx(ShiftIdx(i, W), W) == i
    ensures 0 <= UnshiftIdx(i, W) < 25 * W && ShiftIdx(UnshiftIdx(i, W), W) == i
  {
    ShiftThenUnshift(i, W);
    UnshiftThenShift(i, W);
  }

  lemma ShiftThenUnshift(i: int, W: int)
    requires W > 0 && 0 <= i < 25 * W
    ensures 0 <= ShiftIdx(i, W) < 25 * W && UnshiftIdx(ShiftIdx(i, W), W) == i
  {
    CoordIdx(i, W);
    var q := i / W;
    var x, y, z := q % 5, q / 5, i % W;
    var x', y' := (q + 2) % 5, (q / 5 + 2) % 5;
    assert x' == (x + 2) % 5;
    IdxCoord(W, x', y', z);
    var j := Idx(W, x', y', z);
    assert ShiftIdx(i, W) == j;
    assert (x' + 3) % 5 == x && (y' + 3) % 5 == y;
    assert UnshiftIdx(j, W) == Idx(W, x, y, z);
  }

  lemma UnshiftThenShift(j: int, W: int)
    requires W > 0 && 0 <= j < 25 * W
    ensures 0 <= UnshiftIdx(j, W) < 25 * W && ShiftIdx(UnshiftIdx(j, W), W) == j
  {
    CoordIdx(j, W);
    var x, y, z := LaneX(j, W), LaneY(j, W), LaneZ(j, W);
    var x', y' := (x + 3) % 5, (y + 3) % 5;
    IdxCoord(W, x', y', z);
    var i := Idx(W, x', y', z);
    assert UnshiftIdx(j, W) == i;
    var q := i / W;
    assert q % 5 == x' && q / 5 == y';
    assert (q + 2) % 5 == x && (q / 5 + 2) % 5 == y;
    assert ShiftIdx(i, W) == Idx(W, x, y, z);
  }

  lemma ShiftIdxAt(W: int, x: int, y: int, z: int)
    requires W > 0 && InLane(W, x, y, z)
    ensures ShiftIdx(Idx(W, x, y, z), W) == Idx(W, (x + 2) % 5, (y + 2) % 5, z)
  {
    IdxCoord(W, x, y, z);
    var q := Idx(W, x, y, z) / W;
    assert q % 5 == x && q / 5 == y;
    assert (q + 2) % 5 == (x + 2) % 5;
  }

  lemma UnshiftIdxAt(W: int, x: int, y: int, z: int)
    requires W > 0 && InLane(W, x, y, z)
    ensures UnshiftIdx(Idx(W, x, y, z), W) == Idx(W, (x + 3) % 5, (y + 3) % 5, z)
  {
    IdxCoord(W, x, y, z);
  }

  /** The state after the shift-in loop. */
  function ShiftIn(s: seq<byte>, W: int): (t: seq<byte>)
    requires IsBytes(s, W)
    ensures IsBytes(t, W)
  {
    seq(25 * W, j requires 0 <= j < 25 * W => ShiftIdxInverse(j, W); s[UnshiftIdx(j, W)])
  }

  /** The state after the shift-out loop. */
  function ShiftOut(t: seq<byte>, W: int): (s: seq<byte>)
    requires IsBytes(t, W)
    ensures IsBytes(s, W)
  {
    seq(25 * W, i requires 0 <= i < 25 * W => ShiftIdxInverse(i, W); t[ShiftIdx(i, W)])
  }

  /** What one call of the permutation returned by keccak_p(200 W, n) does to S. */
  function Permute(s: seq<byte>, W: int, n: nat): (s': seq<byte>)
    requires IsBytes(s, W)
    ensures IsBytes(s', W)
  {
    ShiftOut(Rounds(ShiftIn(s, W), W, Fips202.FirstRound(LaneLog(W), n), Fips202.FullRounds(LaneLog(W))), W)
  }
}
