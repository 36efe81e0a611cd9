/** The sponge construction of FIPS 202 on bit strings: the string form of
    a state (section 3.1.3), Keccak-p on strings (Algorithm 7), SPONGE
    (Algorithm 8) with pad10*1, KECCAK[c] (section 5.2) and the SHA-3 and
    SHAKE functions of section 6.  Like Fips202 it is written from the
    standard alone and is the reference the byte-level sponge is proved
    against. */
module FipsSponge {
  import opened Layout
  import opened Fips202

  /** Section 3.1.3: S = Plane(0) || ... || Plane(4), where plane y is lane
      (0, y) || ... || lane (4, y), so A[x, y, z] is bit w(5y + x) + z. */
  function FromState(A: StateArray, w: nat): (S: seq<bool>)
    requires IsState(A, w)
    ensures |S| == 25 * w
  {
    seq(25 * w, i requires 0 <= i < 25 * w =>
      StateSplit(i, w);
      A[(i / w) % 5][(i / w) / 5][i % w])
  }

  /** A bit position of the string names a lane and a position in it. */
  lemma StateSplit(i: int, w: nat)
    requires 0 <= i < 25 * w
    ensures w > 0 && 0 <= (i / w) % 5 < 5 && 0 <= (i / w) / 5 < 5 && 0 <= i % w < w
    ensures i == w * (5 * ((i / w) / 5) + (i / w) % 5) + i % w
  {
    assert w > 0;
  }

  /** Bit w(5y + x) + z of a string is bit z of lane (x, y). */
  lemma StatePosition(w: nat, x: int, y: int, z: int)
    requires 0 <= x < 5 && 0 <= y < 5 && 0 <= z < w
    ensures 0 <= w * (5 * y + x) + z < 25 * w
    ensures (w * (5 * y + x) + z) / w == 5 * y + x && (w * (5 * y + x) + z) % w == z
  {
    MulLe(5 * y + x, 24, w);
    DivModUnique(w * (5 * y + x) + z, w, 5 * y + x, z);
  }

  /** Converting a string to a state array and back, or a state array to a
      string and back, gives what one started with. */
  lemma StateRoundTrip(S: seq<bool>, A: StateArray, w: nat)
    requires |S| == 25 * w && IsState(A, w)
    ensures FromState(ToState(S, w), w) == S
    ensures ToState(FromState(A, w), w) == A
  {
    forall i | 0 <= i < 25 * w
      ensures FromState(ToState(S, w), w)[i] == S[i]
    {
      StateSplit(i, w);
    }
    forall x, y, z | 0 <= x < 5 && 0 <= y < 5 && 0 <= z < w
      ensures ToState(FromState(A, w), w)[x][y][z] == A[x][y][z]
    {
      StatePosition(w, x, y, z);
    }
    StateEqual(ToState(FromState(A, w), w), A, w);
  }

  /** State arrays of the same width are equal when all their bits are. */
  lemma StateEqual(A: StateArray, B: StateArray, w: nat)
    requires IsState(A, w) && IsState(B, w)
    requires forall x, y, z | 0 <= x < 5 && 0 <= y < 5 && 0 <= z < w :: A[x][y][z] == B[x][y][z]
    ensures A == B
  {
    forall x | 0 <= x < 5 ensures A[x] == B[x] {
      forall y | 0 <= y < 5 ensures A[x][y] == B[x][y] {
      }
    }
  }

  /** Keccak-p[25w, nr] on a string, steps 1 and 4 of Algorithm 7 around
      the rounds. */
  function KeccakPString(S: seq<bool>, w: nat, l: nat, nr: nat): (S': seq<bool>)
    requires |S| == 25 * w && Pow2(l) == w
    ensures |S'| == 25 * w
  {
    FromState(KeccakP(ToState(S, w), w, l, nr), w)
  }

  /** S xor (P || 0^(|S| - |P|)): the block P XORed into the front of S. */
  function XorFront(S: seq<bool>, P: seq<bool>): (S': seq<bool>)
    requires |P| <= |S|
    ensures |S'| == |S|
  {
    seq(|S|, i requires 0 <= i < |S| => if i < |P| then S[i] != P[i] else S[i])
  }

  /** Steps 5 and 6 of Algorithm 8: the state after the first k r-bit
      blocks of P have been absorbed into 0^b. */
  function AbsorbBits(P: seq<bool>, r: nat, w: nat, l: nat, nr: nat, k: nat): (S: seq<bool>)
    requires 0 < r <= 25 * w && Pow2(l) == w && k * r <= |P|
    ensures |S| == 25 * w
  {
    if k == 0 then seq(25 * w, i => false)
    else
      MulLe(k - 1, k, r);
      KeccakPString(XorFront(AbsorbBits(P, r, w, l, nr, k - 1), P[(k - 1) * r..k * r]), w, l, nr)
  }

  /** Steps 8 to 10 of Algorithm 8, entered with the string Z squeezed so
      far: Z grows by Trunc_r(S); once it holds d bits its first d are the
      result, otherwise S is permuted and the steps repeat. */
  function SqueezeBits(S: seq<bool>, Z: seq<bool>, d: nat, r: nat, w: nat, l: nat, nr: nat): (Z': seq<bool>)
    requires 0 < r <= 25 * w && |S| == 25 * w && Pow2(l) == w
    ensures |Z'| == d
    decreases d - |Z|
  {
    var Z1 := Z + S[..r];
    if d <= |Z1| then Z1[..d]
    else SqueezeBits(KeccakPString(S, w, l, nr), Z1, d, r, w, l, nr)
  }

  /** Algorithm 8, SPONGE[Keccak-p[25w, nr], pad10*1, r](N, d). */
  function Sponge(N: seq<bool>, d: nat, r: nat, w: nat, l: nat, nr: nat): (Z: seq<bool>)
    requires 0 < r < 25 * w && Pow2(l) == w
    ensures |Z| == d
  {
    var P := N + Pad101(r, |N|);
    DivBelow(|P|, r);
    SqueezeBits(AbsorbBits(P, r, w, l, nr, |P| / r), [], d, r, w, l, nr)
  }

  /** pad10*1 makes the padded string a positive multiple of r bits, so
      step 4 of Algorithm 8 splits it into whole blocks. */
  lemma PaddedBlocks(N: seq<bool>, r: nat)
    requires r > 0
    ensures var P := N + Pad101(r, |N|); |P| % r == 0 && |P| / r >= 1 && (|P| / r) * r == |P|
  {
    var a := -|N| - 2;
    var q := a / r;
    assert a == q * r + a % r;
    var k := -q;
    assert |N| + (a % r + 2) == k * r;
    assert k >= 1 by {
      if k < 1 { MulLe(k, 0, r); }
    }
    DivModUnique(k * r, r, k, 0);
  }

  /** Whole blocks of r bits fit in a string of a bits. */
  lemma DivBelow(a: nat, r: nat)
    requires r > 0
    ensures 0 <= a / r && (a / r) * r <= a
  {
    assert a == (a / r) * r + a % r;
  }

  /** Section 5.2: KECCAK[c] is the sponge over Keccak-p[1600, 24] with
      pad10*1 and rate 1600 - c. */
  function Keccak(c: nat, N: seq<bool>, d: nat): (Z: seq<bool>)
    requires 0 < c < 1600
    ensures |Z| == d
  {
    assert Pow2(6) == 64 by { assert Pow2(3) == 8; }
    Sponge(N, d, 1600 - c, 64, 6, 24)
  }

  /** KECCAK[c] unfolded: the sponge with w = 64, l = 6, 24 rounds and
      rate 1600 - c. */
  lemma KeccakUnfold(c: nat, N: seq<bool>, d: nat)
    requires 0 < c < 1600
    ensures Pow2(6) == 64 && Keccak(c, N, d) == Sponge(N, d, 1600 - c, 64, 6, 24)
  {
    assert Pow2(6) == 64 by { assert Pow2(3) == 8; }
  }

  /** The sponge of equal arguments, however they are written. */
  lemma SpongeSame(N: seq<bool>, d: nat, r: nat, w: nat, l: nat, N': seq<bool>, d': nat, r': nat, w': nat, l': nat, nr: nat)
    requires 0 < r < 25 * w && Pow2(l) == w
    requires N == N' && d == d' && r == r' && w == w' && l == l'
    ensures Sponge(N, d, r, w, l, nr) == Sponge(N', d', r', w', l', nr)
  {
  }

  /** Section 6.1: SHA3-224, SHA3-256, SHA3-384 and SHA3-512, KECCAK[2d]
      on M || 01 with d output bits. */
  function Sha3(d: nat, M: seq<bool>): (Z: seq<bool>)
    requires d == 224 || d == 256 || d == 384 || d == 512
    ensures |Z| == d
  {
    Keccak(2 * d, M + [false, true], d)
  }

  /** Section 6.2: SHAKE128 and SHAKE256, KECCAK[2s] on M || 1111 with d
      output bits. */
  function Shake(s: nat, M: seq<bool>, d: nat): (Z: seq<bool>)
    requires s == 128 || s == 256
    ensures |Z| == d
  {
    Keccak(2 * s, M + [true, true, true, true], d)
  }
}
