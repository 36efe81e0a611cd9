/** The Keccak-p[b, nr] permutation as FIPS 202 defines it, on the state
    array A[x][y][z] of booleans (x, y in 0..4, z in 0..w-1, w = b/25), in the
    standard coordinates of section 3.1.  This is the reference the byte-level
    implementation is proved against; nothing here follows the byte layout. */
module Fips202 {
  import opened Bytes
  import opened Layout

  type StateArray = seq<seq<seq<bool>>>

  predicate IsState(A: StateArray, w: nat) {
    |A| == 5 && forall x | 0 <= x < 5 :: |A[x]| == 5 && forall y | 0 <= y < 5 :: |A[x][y]| == w
  }

  /** Section 3.1.2: A[x, y, z] = S[w(5y + x) + z]. */
  function ToState(S: seq<bool>, w: nat): (A: StateArray)
    requires |S| == 25 * w
    ensures IsState(A, w)
  {
    seq(5, x requires 0 <= x < 5 =>
      seq(5, y requires 0 <= y < 5 =>
        seq(w, z requires 0 <= z < w =>
          MulLe(5 * y + x, 24, w);
          S[w * (5 * y + x) + z])))
  }

  /** Appendix B.1: bit k of byte i of a byte string is bit 8i + k of the
      bit string it stands for. */
  function BitsOf(s: seq<byte>): (S: seq<bool>)
    ensures |S| == 8 * |s|
  {
    seq(8 * |s|, i requires 0 <= i < 8 * |s| => Bit(s[i / 8], i % 8))
  }

  /** The state array a byte string of 25*W bytes stands for. */
  function FromBytes(s: seq<byte>, W: nat): (A: StateArray)
    requires |s| == 25 * W
    ensures IsState(A, 8 * W)
  {
    ToState(BitsOf(s), 8 * W)
  }

  // ---- theta, section 3.2.1 (Algorithm 1)

  function Parity(A: StateArray, w: nat, x: int, z: int): bool
    requires IsState(A, w) && 0 <= x < 5 && 0 <= z < w
  {
    (((A[x][0][z] != A[x][1][z]) != A[x][2][z]) != A[x][3][z]) != A[x][4][z]
  }

  function Theta(A: StateArray, w: nat): (A': StateArray)
    requires IsState(A, w) && w > 0
    ensures IsState(A', w)
  {
    seq(5, x requires 0 <= x < 5 =>
      seq(5, y requires 0 <= y < 5 =>
        seq(w, z requires 0 <= z < w =>
          (A[x][y][z] != Parity(A, w, (x - 1) % 5, z)) != Parity(A, w, (x + 1) % 5, (z - 1) % w))))
  }

  lemma ThetaValue(A: StateArray, w: nat, x: int, y: int, z: int)
    requires IsState(A, w) && w > 0 && 0 <= x < 5 && 0 <= y < 5 && 0 <= z < w
    ensures 0 <= (x - 1) % 5 < 5 && 0 <= (x + 1) % 5 < 5 && 0 <= (z - 1) % w < w
    ensures Theta(A, w)[x][y][z]
         == ((A[x][y][z] != Parity(A, w, (x - 1) % 5, z)) != Parity(A, w, (x + 1) % 5, (z - 1) % w))
  {
  }

  // ---- rho, section 3.2.2 (Algorithm 2); the offsets are those of Table 2

  function RhoOffset(x: int, y: int): nat
    requires 0 <= x < 5 && 0 <= y < 5
  {
    var table := [[  0,  36,   3, 105, 210],
                  [  1, 300,  10,  45,  66],
                  [190,   6, 171,  15, 253],
                  [ 28,  55, 153,  21, 120],
                  [ 91, 276, 231, 136,  78]];
    table[x][y]
  }

  function Rho(A: StateArray, w: nat): (A': StateArray)
    requires IsState(A, w) && w > 0
    ensures IsState(A', w)
  {
    seq(5, x requires 0 <= x < 5 =>
      seq(5, y requires 0 <= y < 5 =>
        seq(w, z requires 0 <= z < w => A[x][y][(z - RhoOffset(x, y)) % w])))
  }

  /** Bit z of lane (x, y) after rho is bit p = (z - offset) mod w before. */
  lemma RhoValue(A: StateArray, w: nat, x: int, y: int, z: int, p: int)
    requires IsState(A, w) && w > 0 && 0 <= x < 5 && 0 <= y < 5 && 0 <= z < w
    requires p == (z - RhoOffset(x, y)) % w
    ensures 0 <= p < w
    ensures Rho(A, w)[x][y][z] == A[x][y][p]
  {
  }

  // ---- pi, section 3.2.3 (Algorithm 3)

  function Pi(A: StateArray, w: nat): (A': StateArray)
    requires IsState(A, w)
    ensures IsState(A', w)
  {
    seq(5, x requires 0 <= x < 5 =>
      seq(5, y requires 0 <= y < 5 =>
        seq(w, z requires 0 <= z < w => A[(x + 3 * y) % 5][x][z])))
  }

  lemma PiValue(A: StateArray, w: nat, x: int, y: int, z: int)
    requires IsState(A, w) && 0 <= x < 5 && 0 <= y < 5 && 0 <= z < w
    ensures 0 <= (x + 3 * y) % 5 < 5
    ensures Pi(A, w)[x][y][z] == A[(x + 3 * y) % 5][x][z]
  {
  }

  // ---- chi, section 3.2.4 (Algorithm 4)

  function Chi(A: StateArray, w: nat): (A': StateArray)
    requires IsState(A, w)
    ensures IsState(A', w)
  {
    seq(5, x requires 0 <= x < 5 =>
      seq(5, y requires 0 <= y < 5 =>
        seq(w, z requires 0 <= z < w =>
          A[x][y][z] != (!A[(x + 1) % 5][y][z] && A[(x + 2) % 5][y][z]))))
  }

  lemma ChiValue(A: StateArray, w: nat, x: int, y: int, z: int)
    requires IsState(A, w) && 0 <= x < 5 && 0 <= y < 5 && 0 <= z < w
    ensures 0 <= (x + 1) % 5 < 5 && 0 <= (x + 2) % 5 < 5
    ensures Chi(A, w)[x][y][z] == (A[x][y][z] != (!A[(x + 1) % 5][y][z] && A[(x + 2) % 5][y][z]))
  {
  }

  // ---- rc, section 3.2.5 (Algorithm 5)

  /** Steps 3a-3f of Algorithm 5: R = 0 || R, four feedback XORs with R[8],
      then Trunc8. */
  function LfsrStep(R: seq<bool>): (R': seq<bool>)
    requires |R| == 8
    ensures |R'| == 8
  {
    var R9 := [false] + R;
    var R9 := R9[0 := R9[0] != R9[8]];
    var R9 := R9[4 := R9[4] != R9[8]];
    var R9 := R9[5 := R9[5] != R9[8]];
    var R9 := R9[6 := R9[6] != R9[8]];
    R9[..8]
  }

  /** R after k iterations of step 3, starting from R = 10000000. */
  function LfsrState(k: nat): (R: seq<bool>)
    ensures |R| == 8
  {
    if k == 0 then [true, false, false, false, false, false, false, false]
    else LfsrStep(LfsrState(k - 1))
  }

  function RcBit(t: int): bool {
    if t % 255 == 0 then true else LfsrState(t % 255)[0]
  }

  // ---- iota, section 3.2.5 (Algorithm 6)

  /** RC after step 3 has run for j = 0 .. jn-1. */
  function RoundConstant(w: nat, l: nat, ir: int, jn: nat): (RC: seq<bool>)
    requires Pow2(l) == w && jn <= l + 1
    ensures |RC| == w
  {
    if jn == 0 then seq(w, z => false)
    else
      var prev := RoundConstant(w, l, ir, jn - 1);
      Pow2MonotoneLe(jn - 1, l);
      prev[Pow2(jn - 1) - 1 := RcBit(jn - 1 + 7 * ir)]
  }

  function Iota(A: StateArray, w: nat, l: nat, ir: int): (A': StateArray)
    requires IsState(A, w) && Pow2(l) == w
    ensures IsState(A', w)
  {
    var RC := RoundConstant(w, l, ir, l + 1);
    seq(5, x requires 0 <= x < 5 =>
      seq(5, y requires 0 <= y < 5 =>
        seq(w, z requires 0 <= z < w =>
          if x == 0 && y == 0 then A[x][y][z] != RC[z] else A[x][y][z])))
  }

  lemma IotaValue(A: StateArray, w: nat, l: nat, ir: int, x: int, y: int, z: int)
    requires IsState(A, w) && Pow2(l) == w && 0 <= x < 5 && 0 <= y < 5 && 0 <= z < w
    ensures Iota(A, w, l, ir)[x][y][z]
         == if x == 0 && y == 0 then A[x][y][z] != RoundConstant(w, l, ir, l + 1)[z] else A[x][y][z]
  {
  }

  lemma RoundConstantStep(w: nat, l: nat, ir: int, j: nat, p: int)
    requires Pow2(l) == w && j <= l && 0 <= p < w
    ensures RoundConstant(w, l, ir, j + 1)[p]
         == if p == Pow2(j) - 1 then RcBit(j + 7 * ir) else RoundConstant(w, l, ir, j)[p]
  {
    Pow2MonotoneLe(j, l);
    assert RoundConstant(w, l, ir, j + 1) == RoundConstant(w, l, ir, j)[Pow2(j) - 1 := RcBit(j + 7 * ir)];
  }

  /** A position at or above 2^jn - 1 is not yet set after jn steps: the
      positions 2^j - 1 step 3 sets strictly increase. */
  lemma {:induction false} RoundConstantUnset(w: nat, l: nat, ir: int, jn: nat, p: int)
    requires Pow2(l) == w && jn <= l + 1 && 0 <= p < w && p >= Pow2(jn) - 1
    ensures !RoundConstant(w, l, ir, jn)[p]
    decreases jn
  {
    if jn > 0 {
      Pow2Monotone(jn - 1, jn);
      RoundConstantUnset(w, l, ir, jn - 1, p);
    }
  }

  // ---- section 3.3: the round, and Keccak-p as Algorithm 7

  function Rnd(A: StateArray, w: nat, l: nat, ir: int): (A': StateArray)
    requires IsState(A, w) && Pow2(l) == w
    ensures IsState(A', w)
  {
    Iota(Chi(Pi(Rho(Theta(A, w), w), w), w), w, l, ir)
  }

  /** Rounds lo, lo+1, ..., hi-1 applied in that order. */
  function Rounds(A: StateArray, w: nat, l: nat, lo: int, hi: int): (A': StateArray)
    requires IsState(A, w) && Pow2(l) == w
    ensures IsState(A', w)
    decreases hi - lo
  {
    if hi <= lo then A else Rnd(Rounds(A, w, l, lo, hi - 1), w, l, hi - 1)
  }

  /** The number of rounds of Keccak-f (section 3.4): 12 + 2l. */
  function FullRounds(l: nat): nat {
    12 + 2 * l
  }

  /** The index of the first of the last nr rounds of that schedule. */
  function FirstRound(l: nat, nr: nat): int {
    FullRounds(l) - nr
  }

  /** Algorithm 7: rounds 12+2l-nr .. 12+2l-1. */
  function KeccakP(A: StateArray, w: nat, l: nat, nr: nat): (A': StateArray)
    requires IsState(A, w) && Pow2(l) == w
    ensures IsState(A', w)
  {
    Rounds(A, w, l, FirstRound(l, nr), FullRounds(l))
  }

  // ---- section 5.1: the padding rule pad10*1 (Algorithm 9)

  /** pad10*1(x, m): a 1, then (-m - 2) mod x zeros, then a 1, so that
      m plus its length is a positive multiple of x. */
  function Pad101(x: nat, m: int): (P: seq<bool>)
    requires x > 0
    ensures |P| == (-m - 2) % x + 2
  {
    [true] + seq((-m - 2) % x, i => false) + [true]
  }

  /** Only the first and the last bit of the padding are 1. */
  lemma Pad101At(x: nat, m: int, i: int)
    requires x > 0 && 0 <= i < (-m - 2) % x + 2
    ensures Pad101(x, m)[i] == (i == 0 || i == (-m - 2) % x + 1)
  {
  }
}
