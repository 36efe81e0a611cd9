/** The byte-level sponge of src/keccak.ts read as bits (Appendix B.1 of
    FIPS 202): the padded buffer is the message bits followed by pad10*1,
    absorbing and squeezing follow Algorithm 8, and so sha_3 and sha_3_xof
    compute KECCAK[c] of section 5.2 on the message followed by the suffix
    bits. */
module SpongeFips {
  import opened Bytes
  import opened Layout
  import opened Fips202
  import opened FipsSponge
  import opened KeccakSteps
  import KeccakFips
  import opened Padding
  import opened SpongeSpec
  import opened Hashes

  // ---- the bit strings of byte strings

  /** The bits of a concatenation are the concatenation of the bits. */
  lemma BitsOfAppend(a: seq<byte>, b: seq<byte>)
    ensures BitsOf(a + b) == BitsOf(a) + BitsOf(b)
  {
    forall i | 0 <= i < 8 * |a + b|
      ensures BitsOf(a + b)[i] == (BitsOf(a) + BitsOf(b))[i]
    {
      if i >= 8 * |a| {
        assert (i - 8 * |a|) / 8 == i / 8 - |a| && (i - 8 * |a|) % 8 == i % 8;
      }
    }
  }

  /** The bits of bytes lo .. hi-1 are bits 8 lo .. 8 hi - 1. */
  lemma BitsOfSlice(s: seq<byte>, lo: int, hi: int)
    requires 0 <= lo <= hi <= |s|
    ensures BitsOf(s[lo..hi]) == BitsOf(s)[8 * lo..8 * hi]
  {
    forall i | 0 <= i < 8 * (hi - lo)
      ensures BitsOf(s[lo..hi])[i] == BitsOf(s)[8 * lo..8 * hi][i]
    {
      assert (8 * lo + i) / 8 == lo + i / 8 && (8 * lo + i) % 8 == i % 8;
    }
  }

  /** The bits of the first k bytes are the first 8 k bits. */
  lemma BitsOfPrefix(s: seq<byte>, k: int)
    requires 0 <= k <= |s|
    ensures BitsOf(s[..k]) == BitsOf(s)[..8 * k]
  {
    assert s[..k] == s[0..k];
    BitsOfSlice(s, 0, k);
  }

  /** Zero bytes are zero bits. */
  lemma BitsOfZeros(k: nat)
    ensures BitsOf(Zeros(k)) == seq(8 * k, i => false)
  {
    forall i | 0 <= i < 8 * k
      ensures !BitsOf(Zeros(k))[i]
    {
      BitZero(i % 8);
    }
  }

  /** XORing a block of bytes into the state is, bit by bit, S xor (P || 0^c). */
  lemma XorBits(s: seq<byte>, p: seq<byte>)
    requires |p| <= |s|
    ensures BitsOf(XorBlock(s, p)) == XorFront(BitsOf(s), BitsOf(p))
  {
    forall i | 0 <= i < 8 * |s|
      ensures BitsOf(XorBlock(s, p))[i] == XorFront(BitsOf(s), BitsOf(p))[i]
    {
      var j := i / 8;
      var k := i % 8;
      var x := s[j];
      if j < |p| {
        var y := p[j];
        BitXor(x, y, k);
        assert XorBlock(s, p)[j] == x ^ y;
      } else {
        BitXor(x, 0, k);
        BitZero(k);
        assert XorBlock(s, p)[j] == x ^ 0;
      }
    }
  }

  /** One call of the permutation object, read as bits, is Keccak-p on the
      string: Algorithm 7 with the conversions of section 3.1. */
  lemma PermuteBits(s: seq<byte>, W: int, n: nat)
    requires IsBytes(s, W)
    ensures BitsOf(Permute(s, W, n)) == KeccakPString(BitsOf(s), 8 * W, LaneLog(W), n)
  {
    KeccakFips.PermuteMatches(s, W, n);
    var A := FromBytes(Permute(s, W, n), W);
    StateRoundTrip(BitsOf(Permute(s, W, n)), A, 8 * W);
  }

  // ---- padding

  /** With the suffix below bit b, adding the first padding byte keeps the
      b suffix bits and takes the padding's bits above them. */
  lemma SuffixMerge(x: byte, p0: byte, b: int, k: nat)
    requires 0 <= b <= 6 && k < 8 && x < (1 as byte) << ShiftAmount(b)
    requires p0 == (1 as byte) << ShiftAmount(b) || p0 == ((1 as byte) << ShiftAmount(b)) + 0x80
    ensures Bit(x + p0, k) == if k < b then Bit(x, k) else Bit(p0, k)
  {
    BitMask(x + p0, k);
    BitMask(x, k);
    BitMask(p0, k);
    if b == 0 {} else if b == 1 {} else if b == 2 {} else if b == 3 {}
    else if b == 4 {} else if b == 5 {} else {}
  }

  /** The byte x + p0 holds the low b bits of x and the bits of p0 above them. */
  lemma ByteMerge(x: byte, p0: byte, b: int)
    requires 0 <= b <= 6 && x < (1 as byte) << ShiftAmount(b)
    requires p0 == (1 as byte) << ShiftAmount(b) || p0 == ((1 as byte) << ShiftAmount(b)) + 0x80
    ensures BitsOf([x + p0]) == BitsOf([x])[..b] + BitsOf([p0])[b..]
  {
    forall k | 0 <= k < 8
      ensures BitsOf([x + p0])[k] == (BitsOf([x])[..b] + BitsOf([p0])[b..])[k]
    {
      SuffixMerge(x, p0, b, k);
    }
  }

  /** The padded buffer, read as bits, is the 8 M + b message bits
      followed by pad10*1(8 R, 8 M + b), M the padding start: the bit
      string step 1 of Algorithm 8 builds. */
  lemma PaddedBits(N: seq<byte>, b: int, R: int)
    requires R > 0 && 0 <= b <= 6 && (b != 0 ==> |N| >= 1)
    requires SuffixByte(N, b) < (1 as byte) << ShiftAmount(b)
    ensures 0 <= 8 * PadStart(N, b) + b <= 8 * |N|
    ensures BitsOf(Padded(N, b, R)) == BitsOf(N)[..8 * PadStart(N, b) + b] + Pad101(8 * R, 8 * PadStart(N, b) + b)
  {
    var M := PadStart(N, b);
    var P := Padded(N, b, R);
    var pad := PadBytes(R, M, b);
    var x := SuffixByte(N, b);
    PaddedLengthIs(N, b, R);
    PaddedShape(N, b, R);
    PadShape(R, M, b);
    PadIsPad101(R, M, b);
    ThreeParts(P, M, x + pad[0]);
    MergedBits(N[..M], x, pad, b, Pad101(8 * R, 8 * M + b));
    MessageBits(N, b);
  }

  /** A sequence is its prefix, the element at M and its suffix. */
  lemma ThreeParts(P: seq<byte>, M: int, y: byte)
    requires 0 <= M < |P| && P[M] == y
    ensures P == P[..M] + [y] + P[M + 1..]
  {
  }

  /** N up to the padding start, then the suffix byte's low b bits: the
      first 8 M + b bits of N. */
  lemma MessageBits(N: seq<byte>, b: int)
    requires 0 <= b <= 6 && (b != 0 ==> |N| >= 1)
    ensures 0 <= 8 * PadStart(N, b) + b <= 8 * |N|
    ensures BitsOf(N)[..8 * PadStart(N, b) + b] == BitsOf(N[..PadStart(N, b)]) + BitsOf([SuffixByte(N, b)])[..b]
  {
    var M := PadStart(N, b);
    if b != 0 {
      assert N == N[..M] + [N[M]];
      BitsOfAppend(N[..M], [N[M]]);
    } else {
      assert N == N[..M];
    }
  }

  /** front, then x plus the first padding byte, then the other padding
      bytes, read as bits: the bits of front, the low b bits of x, then the
      padding bits above its first b zeros. */
  lemma MergedBits(front: seq<byte>, x: byte, pad: seq<byte>, b: int, pb: seq<bool>)
    requires 0 <= b <= 6 && x < (1 as byte) << ShiftAmount(b) && |pad| >= 1
    requires pad[0] == (1 as byte) << ShiftAmount(b) || pad[0] == ((1 as byte) << ShiftAmount(b)) + 0x80
    requires BitsOf(pad) == seq(b, i => false) + pb
    ensures BitsOf(front + [x + pad[0]] + pad[1..]) == (BitsOf(front) + BitsOf([x])[..b]) + pb
  {
    var p0 := pad[0];
    var rest := pad[1..];
    BitsOfThree(front, x + p0, rest);
    ByteMerge(x, p0, b);
    PadTail(pad, b, pb);
    Regroup(BitsOf(front), BitsOf([x])[..b], BitsOf([p0])[b..], BitsOf(rest));
  }

  /** The bits of front, y and rest in a row. */
  lemma BitsOfThree(front: seq<byte>, y: byte, rest: seq<byte>)
    ensures BitsOf(front + [y] + rest) == BitsOf(front) + BitsOf([y]) + BitsOf(rest)
  {
    BitsOfAppend(front + [y], rest);
    BitsOfAppend(front, [y]);
  }

  /** Padding bits after the first b: the first byte's bits above b, then
      the other bytes' bits. */
  lemma PadTail(pad: seq<byte>, b: int, pb: seq<bool>)
    requires 0 <= b <= 8 && |pad| >= 1 && BitsOf(pad) == seq(b, i => false) + pb
    ensures pb == BitsOf([pad[0]])[b..] + BitsOf(pad[1..])
  {
    assert pad == [pad[0]] + pad[1..];
    BitsOfAppend([pad[0]], pad[1..]);
    assert pb == BitsOf(pad)[b..];
  }

  lemma Regroup<T>(A: seq<T>, B: seq<T>, C: seq<T>, D: seq<T>)
    ensures A + (B + C) + D == (A + B) + (C + D)
  {
  }

  // ---- absorbing and squeezing

  /** Absorbing the first k byte blocks of P, read as bits, is absorbing
      the first k blocks of 8 R bits of P's bits (steps 5 and 6 of
      Algorithm 8). */
  lemma {:induction false} AbsorbedBits(P: seq<byte>, R: int, W: int, n: nat, k: nat)
    requires ValidLaneBytes(W) && 0 < R <= 25 * W && k * R <= |P|
    ensures k <= |Chunks(P, R)| && k * (8 * R) <= |BitsOf(P)|
    ensures BitsOf(Absorbed(Zeros(25 * W), Chunks(P, R)[..k], W, n)) == AbsorbBits(BitsOf(P), 8 * R, 8 * W, LaneLog(W), n, k)
  {
    ChunkCount(P, R, k);
    if k == 0 {
      assert Chunks(P, R)[..0] == [];
      BitsOfZeros(25 * W);
    } else {
      MulStep(k, R);
      AbsorbedBits(P, R, W, n, k - 1);
      AbsorbedBitsStep(P, R, W, n, k);
    }
  }

  /** k blocks of R bytes fit in P exactly when k is at most the number of chunks. */
  lemma ChunkCount(P: seq<byte>, R: int, k: nat)
    requires 0 < R && k * R <= |P|
    ensures k <= |Chunks(P, R)| && k * (8 * R) <= |BitsOf(P)|
  {
    ChunksLength(P, R);
    FloorBound(|P|, R, k);
    MulEight(k, R);
  }

  lemma ChunksLength(P: seq<byte>, R: int)
    requires 0 < R
    ensures |Chunks(P, R)| == |P| / R
  {
    ChunksAt(P, R);
  }

  /** k whole blocks of R fit in a when k is at most a / R. */
  lemma FloorBound(a: int, R: int, k: int)
    requires 0 < R && 0 <= a && k * R <= a
    ensures k <= a / R
  {
    var q := a / R;
    assert a == q * R + a % R;
    assert (q + 1) * R == q * R + R;
    if k > q {
      MulLe(q + 1, k, R);
    }
  }

  lemma MulEight(k: int, R: int)
    ensures k * (8 * R) == 8 * (k * R)
  {
  }

  lemma MulStep(k: int, R: int)
    requires R >= 0
    ensures (k - 1) * R + R == k * R && (k - 1) * R <= k * R
  {
  }

  /** The bit bounds of block k - 1 of R bytes. */
  lemma BlockBounds(k: int, R: int)
    ensures 8 * ((k - 1) * R) == (k - 1) * (8 * R) && 8 * ((k - 1) * R + R) == k * (8 * R)
  {
    MulEight(k - 1, R);
    MulEight(k, R);
    assert (k - 1) * R + R == k * R;
  }

  /** One more block: if the first k - 1 blocks agree, the first k do. */
  lemma AbsorbedBitsStep(P: seq<byte>, R: int, W: int, n: nat, k: nat)
    requires ValidLaneBytes(W) && 0 < R <= 25 * W && 1 <= k && k * R <= |P|
    requires (k - 1) * R + R == k * R
    requires k <= |Chunks(P, R)| && (k - 1) * (8 * R) <= |BitsOf(P)| && k * (8 * R) <= |BitsOf(P)|
    requires BitsOf(Absorbed(Zeros(25 * W), Chunks(P, R)[..k - 1], W, n))
          == AbsorbBits(BitsOf(P), 8 * R, 8 * W, LaneLog(W), n, k - 1)
    ensures BitsOf(Absorbed(Zeros(25 * W), Chunks(P, R)[..k], W, n)) == AbsorbBits(BitsOf(P), 8 * R, 8 * W, LaneLog(W), n, k)
  {
    var blocks := Chunks(P, R);
    BlockBits(P, R, k);
    var s := Absorbed(Zeros(25 * W), blocks[..k - 1], W, n);
    AbsorbedNext(Zeros(25 * W), blocks, W, n, k - 1);
    AbsorbOneBits(s, blocks[k - 1], W, n);
  }

  /** Block k - 1 of the chunks of P, read as bits, is bits
      (k - 1) 8 R .. k 8 R - 1 of P. */
  lemma BlockBits(P: seq<byte>, R: int, k: int)
    requires 0 < R && 1 <= k && k * R <= |P|
    ensures k - 1 < |Chunks(P, R)| && |Chunks(P, R)[k - 1]| == R
    ensures 0 <= (k - 1) * (8 * R) <= k * (8 * R) <= |BitsOf(P)|
    ensures BitsOf(Chunks(P, R)[k - 1]) == BitsOf(P)[(k - 1) * (8 * R)..k * (8 * R)]
  {
    MulStep(k, R);
    MulLe(0, k - 1, R);
    ChunkCount(P, R, k);
    ChunkIs(P, R, k - 1);
    BitsOfSlice(P, (k - 1) * R, (k - 1) * R + R);
    BlockBounds(k, R);
  }

  /** Chunk j of a holds the l bytes from j l. */
  lemma ChunkIs(a: seq<byte>, l: int, j: int)
    requires l > 0 && 0 <= j < |Chunks(a, l)|
    ensures j * l + l <= |a| && Chunks(a, l)[j] == a[j * l..j * l + l]
  {
    ChunksAt(a, l);
  }

  /** Absorbing one block, read as bits: the block XORed into the front of
      the state, then Keccak-p on the string. */
  lemma AbsorbOneBits(s: seq<byte>, p: seq<byte>, W: int, n: nat)
    requires IsBytes(s, W) && |p| <= |s|
    ensures BitsOf(Permute(XorBlock(s, p), W, n)) == KeccakPString(XorFront(BitsOf(s), BitsOf(p)), 8 * W, LaneLog(W), n)
  {
    XorBits(s, p);
    PermuteBits(XorBlock(s, p), W, n);
  }

  /** Steps 8 to 10 of Algorithm 8 entered after m byte blocks have been
      squeezed from s (and fewer than D bytes are out) give the bits of
      the sponge's first D output bytes. */
  lemma {:induction false} SqueezedBits(s: seq<byte>, R: int, W: int, n: nat, D: nat, m: nat)
    requires IsBytes(s, W) && 0 < R <= 25 * W && (m == 0 || m * R < D)
    ensures SqueezeCount(D, R) * R >= D
    ensures SqueezeBits(BitsOf(Iterate(s, W, n, m)), BitsOf(Squeezed(s, R, W, n, m)), 8 * D, 8 * R, 8 * W, LaneLog(W), n)
         == BitsOf(Squeezed(s, R, W, n, SqueezeCount(D, R))[..D])
    decreases D - m * R
  {
    var t := Iterate(s, W, n, m);
    var Zm := Squeezed(s, R, W, n, m);
    var Z1 := Squeezed(s, R, W, n, m + 1);
    assert Z1 == Zm + t[..R];
    BitsOfAppend(Zm, t[..R]);
    BitsOfPrefix(t, R);
    assert BitsOf(Zm) + BitsOf(t)[..8 * R] == BitsOf(Z1);
    assert |Z1| == m * R + R;
    if D <= m * R + R {
      SqueezeCountUnique(D, R, m + 1);
      BitsOfPrefix(Z1, D);
    } else {
      PermuteBits(t, W, n);
      assert Iterate(s, W, n, m + 1) == Permute(t, W, n);
      SqueezedBits(s, R, W, n, D, m + 1);
    }
  }

  /** The sponge of src/keccak.ts, read as bits, is Algorithm 8 of FIPS 202
      with pad10*1 and Keccak-p[200 W, n] on the 8 M + b message bits
      (all of N, or N without the bits above b of its last byte), with
      8 (d / 8) output bits. */
  lemma SpongeBits(N: seq<byte>, d: int, b: int, R: int, W: int, n: nat)
    requires ValidLaneBytes(W) && 0 < R < 25 * W && d >= 0 && 0 <= b <= 6 && (b != 0 ==> |N| >= 1)
    requires SuffixByte(N, b) < (1 as byte) << ShiftAmount(b)
    ensures 0 <= 8 * PadStart(N, b) + b <= 8 * |N|
    ensures BitsOf(SpongeOutput(N, d, b, R, W, n))
         == FipsSponge.Sponge(BitsOf(N)[..8 * PadStart(N, b) + b], 8 * (d / 8), 8 * R, 8 * W, LaneLog(W), n)
  {
    var Nb := BitsOf(N)[..8 * PadStart(N, b) + b];
    var P := Padded(N, b, R);
    PaddedWhole(N, b, R);
    var k := |P| / R;
    var s := Absorbed(Zeros(25 * W), Chunks(P, R), W, n);
    AbsorbedAll(P, R, W, n, k);
    SqueezedAll(s, R, W, n, d / 8);
    SpongeUnfold(Nb, 8 * (d / 8), 8 * R, 8 * W, LaneLog(W), n, BitsOf(P), k);
  }

  /** The padded buffer is whole blocks of R bytes, and its bits are the
      message bits followed by pad10*1. */
  lemma PaddedWhole(N: seq<byte>, b: int, R: int)
    requires R > 0 && 0 <= b <= 6 && (b != 0 ==> |N| >= 1)
    requires SuffixByte(N, b) < (1 as byte) << ShiftAmount(b)
    ensures 0 <= 8 * PadStart(N, b) + b <= 8 * |N|
    ensures var P := Padded(N, b, R); var Nb := BitsOf(N)[..8 * PadStart(N, b) + b];
      (|P| / R) * R == |P| && BitsOf(P) == Nb + Pad101(8 * R, |Nb|)
  {
    PaddedBits(N, b, R);
    PaddedShape(N, b, R);
    BitBlocks(|Padded(N, b, R)|, R);
  }

  /** Absorbing all k blocks of a padded buffer, read as bits, is steps 5
      and 6 of Algorithm 8 on its bits. */
  lemma AbsorbedAll(P: seq<byte>, R: int, W: int, n: nat, k: nat)
    requires ValidLaneBytes(W) && 0 < R <= 25 * W && k * R == |P|
    ensures k * (8 * R) == |BitsOf(P)|
    ensures BitsOf(Absorbed(Zeros(25 * W), Chunks(P, R), W, n))
         == AbsorbBits(BitsOf(P), 8 * R, 8 * W, LaneLog(W), n, k)
  {
    DivModUnique(|P|, R, k, 0);
    MulEight(k, R);
    ChunksLength(P, R);
    assert Chunks(P, R)[..k] == Chunks(P, R);
    AbsorbedBits(P, R, W, n, k);
  }

  /** L bytes in whole blocks of R bytes are 8 L bits in whole blocks of
      8 R bits, as many of them. */
  lemma BitBlocks(L: int, R: int)
    requires 0 < R && 0 <= L && L % R == 0
    ensures (L / R) * R == L && (8 * L) / (8 * R) == L / R && (L / R) * (8 * R) == 8 * L
  {
    var k := L / R;
    assert L == k * R + L % R;
    MulEight(k, R);
    DivModUnique(8 * L, 8 * R, k, 0);
  }

  /** Squeezing D bytes from s, read as bits, is steps 8 to 10 of
      Algorithm 8 for 8 D bits, entered with nothing squeezed yet. */
  lemma SqueezedAll(s: seq<byte>, R: int, W: int, n: nat, D: nat)
    requires IsBytes(s, W) && 0 < R <= 25 * W
    ensures SqueezeBits(BitsOf(s), [], 8 * D, 8 * R, 8 * W, LaneLog(W), n)
         == BitsOf(Squeezed(s, R, W, n, SqueezeCount(D, R))[..D])
  {
    SqueezedBits(s, R, W, n, D, 0);
    assert Iterate(s, W, n, 0) == s;
    assert BitsOf(Squeezed(s, R, W, n, 0)) == [];
  }

  /** Algorithm 8 is absorbing the k blocks of the padded string, then
      squeezing. */
  lemma SpongeUnfold(N: seq<bool>, d: nat, r: nat, w: nat, l: nat, nr: nat, P: seq<bool>, k: nat)
    requires 0 < r < 25 * w && Pow2(l) == w
    requires P == N + Pad101(r, |N|) && k * r == |P|
    ensures FipsSponge.Sponge(N, d, r, w, l, nr) == SqueezeBits(AbsorbBits(P, r, w, l, nr, k), [], d, r, w, l, nr)
  {
    DivModUnique(|P|, r, k, 0);
  }

  // ---- the front ends

  /** The message sha_3 and sha_3_xof hand to the sponge: its padding
      starts after M, the byte sharing it is n (or nothing when b = 0), and
      its bits are the bits of M, then the low b bits of n. */
  lemma SuffixedBits(M: seq<byte>, n: byte, b: int)
    requires 0 <= b <= 6
    ensures var N := Suffixed(M, n, b);
      (b != 0 ==> |N| >= 1) && SuffixByte(N, b) == (if b == 0 then 0 else n)
      && PadStart(N, b) == |M| && 0 <= 8 * |M| + b <= 8 * |N|
      && BitsOf(N)[..8 * |M| + b] == BitsOf(M) + BitsOf([n])[..b]
  {
    if b != 0 {
      BitsOfAppend(M, [n]);
    } else {
      assert BitsOf(M)[..8 * |M|] == BitsOf(M);
    }
  }

  /** For c a multiple of 8, the rate 1600 - c is R = (1600 - c) / 8 whole
      bytes, and c / 2 bits rounded down to bytes are 8 (c / 16) bits. */
  lemma RateBytes(c: int)
    requires 0 < c <= 1592 && c % 8 == 0
    ensures 0 < (1600 - c) / 8 < 200 && 8 * ((1600 - c) / 8) == 1600 - c && 8 * ((c / 2) / 8) == 8 * (c / 16)
  {
  }

  /** The suffix n of b bits fits below the first padding bit. */
  lemma SuffixFits(n: byte, b: int)
    requires 0 <= b <= 6 && (b != 0 ==> n < (1 as byte) << ShiftAmount(b))
    ensures (if b == 0 then 0 else n) < (1 as byte) << ShiftAmount(b)
  {
    if b == 0 {
      assert ShiftAmount(0) == 0;
    }
  }

  /** The sponge run on M followed by the suffix n of b bits, read as
      bits: Algorithm 8 on the bits of M followed by the low b bits of n,
      with rate r = 8 R, w = 8 W, l = log2 w and dd = 8 (d / 8) output bits. */
  lemma SuffixedSponge(M: seq<byte>, n: byte, b: int, d: int, R: int, W: int, nr: nat, dd: nat, r: nat, w: nat, l: nat)
    requires ValidLaneBytes(W) && 0 < R < 25 * W && d >= 0 && 0 <= b <= 6
    requires b != 0 ==> n < (1 as byte) << ShiftAmount(b)
    requires dd == 8 * (d / 8) && r == 8 * R && w == 8 * W && l == LaneLog(W)
    ensures Pow2(l) == w && 0 < r < 25 * w
    ensures BitsOf(SpongeOutput(Suffixed(M, n, b), d, b, R, W, nr))
         == FipsSponge.Sponge(BitsOf(M) + BitsOf([n])[..b], dd, r, w, l, nr)
  {
    var N := Suffixed(M, n, b);
    SuffixedBits(M, n, b);
    SuffixFits(n, b);
    SpongeBits(N, d, b, R, W, nr);
    SpongeSame(BitsOf(N)[..8 * PadStart(N, b) + b], 8 * (d / 8), 8 * R, 8 * W, LaneLog(W),
      BitsOf(M) + BitsOf([n])[..b], dd, r, w, l, nr);
  }

  /** The sponge that sha_3 and sha_3_xof build from keccak_c(c), run on M
      followed by the suffix n of b bits for d output bits, read as bits:
      KECCAK[c] of X, the bits of M followed by the low b bits of n, with
      dd = 8 (d / 8) output bits. */
  lemma KeccakBits(M: seq<byte>, c: int, n: byte, b: int, d: int, X: seq<bool>, dd: nat)
    requires 0 < c <= 1592 && c % 8 == 0 && 0 <= b <= 6 && d >= 0
    requires b != 0 ==> n < (1 as byte) << ShiftAmount(b)
    requires X == BitsOf(M) + BitsOf([n])[..b] && dd == 8 * (d / 8)
    ensures BitsOf(SpongeOutput(Suffixed(M, n, b), d, b, (1600 - c) / 8, 8, 24)) == Keccak(c, X, dd)
  {
    RateBytes(c);
    assert LaneLog(8) == 6;
    SuffixedSponge(M, n, b, d, (1600 - c) / 8, 8, 24, dd, 1600 - c, 64, 6);
    KeccakUnfold(c, X, dd);
  }

  /** A sha_3(keccak_c, c, n, b) object with c a multiple of 8 and n held
      in its low b bits computes KECCAK[c] (section 5.2 of FIPS 202) of M
      followed by those b bits, with c / 2 output bits rounded down to whole
      bytes. */
  lemma Sha3Bits(M: seq<byte>, c: int, n: byte, b: int)
    requires 0 < c <= 1592 && c % 8 == 0 && 0 <= b <= 6
    requires b != 0 ==> n < (1 as byte) << ShiftAmount(b)
    ensures BitsOf(Sha3Output(M, c, n, b)) == Keccak(c, BitsOf(M) + BitsOf([n])[..b], 8 * (c / 16))
  {
    KeccakBits(M, c, n, b, c / 2, BitsOf(M) + BitsOf([n])[..b], 8 * (c / 16));
  }

  /** A sha_3_xof(keccak_c, c, n, b) object asked for D bytes computes
      KECCAK[c] of M followed by the b suffix bits, with 8 D output bits. */
  lemma Sha3XofBits(M: seq<byte>, D: int, c: int, n: byte, b: int)
    requires 0 < c <= 1592 && c % 8 == 0 && 0 <= D < 0x1000_0000 && 0 <= b <= 6
    requires b != 0 ==> n < (1 as byte) << ShiftAmount(b)
    ensures BitsOf(Sha3XofOutput(M, D, c, n, b)) == Keccak(c, BitsOf(M) + BitsOf([n])[..b], 8 * D)
  {
    KeccakBits(M, c, n, b, 8 * D, BitsOf(M) + BitsOf([n])[..b], 8 * D);
  }

  /** keccak256 is KECCAK[512] of the message with 256 output bits, the
      original Keccak-256 with no domain suffix. */
  lemma Keccak256Bits(M: seq<byte>)
    ensures BitsOf(Sha3Output(M, 512, 0, 0)) == Keccak(512, BitsOf(M), 256)
  {
    KeccakBits(M, 512, 0, 0, 512 / 2, BitsOf(M), 256);
  }

  /** sha_3(keccak_c, 512, 0b10, 2) is SHA3-256 of section 6.1 of FIPS 202:
      the suffix byte 0b10 holds the bits 0, 1. */
  lemma Sha3_256Bits(M: seq<byte>)
    ensures BitsOf(Sha3Output(M, 512, 2, 2)) == FipsSponge.Sha3(256, BitsOf(M))
  {
    SuffixBits(2, 2, [false, true]);
    KeccakBits(M, 512, 2, 2, 256, BitsOf(M) + [false, true], 256);
  }

  /** sha_3_xof(keccak_c, 2 s, 0b1111, 4) is SHAKE128 or SHAKE256 of section
      6.2 of FIPS 202 with 8 D output bits. */
  lemma ShakeBits(M: seq<byte>, D: int, s: int)
    requires (s == 128 || s == 256) && 0 <= D < 0x1000_0000
    ensures BitsOf(Sha3XofOutput(M, D, 2 * s, 0x0f, 4)) == Shake(s, BitsOf(M), 8 * D)
  {
    SuffixBits(0x0f, 4, [true, true, true, true]);
    KeccakBits(M, 2 * s, 0x0f, 4, 8 * D, BitsOf(M) + [true, true, true, true], 8 * D);
  }

  /** The low b bits of the suffix byte n, and n fitting below bit b. */
  lemma SuffixBits(n: byte, b: int, bits: seq<bool>)
    requires (n == 2 && b == 2 && bits == [false, true]) || (n == 0x0f && b == 4 && bits == [true, true, true, true])
    ensures 0 <= b <= 6 && n < (1 as byte) << ShiftAmount(b) && BitsOf([n])[..b] == bits
  {
    ShiftAmountValue(b);
    if b == 2 {
      assert (1 as byte) << ShiftAmount(2) == 4;
    } else {
      assert (1 as byte) << ShiftAmount(4) == 0x10;
    }
  }
}
