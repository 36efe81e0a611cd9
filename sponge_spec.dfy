/** What the function returned by sponge(f, pad10*1, r) in src/keccak.ts
    computes, as functions on byte strings: the padded buffer P, its
    R-byte blocks, the state after absorbing them, and the bytes squeezed
    out.  The permutation is KeccakSteps.Permute, what one call of the
    keccak_p object does to its state S. */
module SpongeSpec {
  import opened Bytes
  import opened Layout
  import opened KeccakSteps
  import opened Padding

  function Zeros(k: nat): (z: seq<byte>)
    ensures |z| == k
  {
    seq(k, i => 0)
  }

  // ---- the block chunker

  /** _3d403e_(a, l): the slices a[start..start + l] for start = 0, l, 2l,
      ... as long as they fit; a shorter tail is dropped. */
  function Chunks(a: seq<byte>, l: int): seq<seq<byte>>
    requires l > 0
  {
    ChunksFrom(a, l, 0)
  }

  function ChunksFrom(a: seq<byte>, l: int, start: nat): seq<seq<byte>>
    requires l > 0
    decreases |a| - start
  {
    if start + l <= |a| then [a[start..start + l]] + ChunksFrom(a, l, start + l) else []
  }

  /** The chunker yields (|a| - start) / l slices, slice k being the l bytes
      from start + k l. */
  lemma {:induction false} ChunksFromAt(a: seq<byte>, l: int, start: nat)
    requires l > 0 && start <= |a|
    ensures |ChunksFrom(a, l, start)| == (|a| - start) / l
    ensures forall k | 0 <= k < |ChunksFrom(a, l, start)| ::
      start + k * l + l <= |a| && ChunksFrom(a, l, start)[k] == a[start + k * l..start + k * l + l]
    decreases |a| - start
  {
    var cs := ChunksFrom(a, l, start);
    if start + l <= |a| {
      ChunksFromAt(a, l, start + l);
      var rest := ChunksFrom(a, l, start + l);
      DivModUnique(|a| - start, l, (|a| - start - l) / l + 1, (|a| - start - l) % l);
      forall k | 0 <= k < |cs|
        ensures start + k * l + l <= |a| && cs[k] == a[start + k * l..start + k * l + l]
      {
        if k > 0 {
          assert cs[k] == rest[k - 1];
          assert start + l + (k - 1) * l == start + k * l;
        }
      }
    } else {
      DivModUnique(|a| - start, l, 0, |a| - start);
    }
  }

  /** _3d403e_(a, l) yields |a| / l slices of l bytes, slice k being
      a[k l .. k l + l]. */
  lemma ChunksAt(a: seq<byte>, l: int)
    requires l > 0
    ensures |Chunks(a, l)| == |a| / l
    ensures forall k | 0 <= k < |Chunks(a, l)| ::
      k * l + l <= |a| && Chunks(a, l)[k] == a[k * l..k * l + l]
  {
    ChunksFromAt(a, l, 0);
  }

  // ---- building P

  /** The length of P: ceil((|N| + [b = 0]) / R) R. */
  function PaddedLength(N: seq<byte>, b: int, R: int): int
    requires R > 0
  {
    CeilDiv(|N| + (if b == 0 then 1 else 0), R) * R
  }

  /** Where the padding goes: at |N|, or at |N| - 1 when the last byte of N
      carries the b suffix bits. */
  function PadStart(N: seq<byte>, b: int): int {
    |N| - (if b == 0 then 0 else 1)
  }

  /** The padding fits P exactly: it starts at or before the end of N and
      ends at the end of P. */
  lemma PaddedLengthIs(N: seq<byte>, b: int, R: int)
    requires R > 0 && (b != 0 ==> |N| >= 1)
    ensures 0 <= PadStart(N, b) <= |N| <= PaddedLength(N, b, R)
    ensures PadStart(N, b) + PadLength(R, PadStart(N, b)) == PaddedLength(N, b, R)
  {
    assert PadStart(N, b) + 1 == |N| + (if b == 0 then 1 else 0);
  }

  /** P after P.set(N) and the padding loop: N, then zeros, with the
      padding bytes added from PadStart(N, b) on. */
  function Padded(N: seq<byte>, b: int, R: int): (P: seq<byte>)
    requires R > 0 && 0 <= b < 8 && (b != 0 ==> |N| >= 1)
    ensures |P| == PaddedLength(N, b, R)
  {
    PaddedLengthIs(N, b, R);
    var M := PadStart(N, b);
    var pad := PadBytes(R, M, b);
    PaddedWith(N, M, pad, PaddedLength(N, b, R))
  }

  /** len bytes: N followed by zeros, with pad added from index M on. */
  function PaddedWith(N: seq<byte>, M: int, pad: seq<byte>, len: nat): (P: seq<byte>)
    ensures |P| == len
  {
    seq(len, i requires 0 <= i < len => PaddedByte(N, M, pad, i))
  }

  function PaddedByte(N: seq<byte>, M: int, pad: seq<byte>, i: int): byte
    requires 0 <= i
  {
    (if i < |N| then N[i] else 0) + (if M <= i < M + |pad| then pad[i - M] else 0)
  }

  /** The byte that shares P[M] with the first padding byte: the last byte
      of N, holding the b suffix bits, or nothing when b = 0. */
  function SuffixByte(N: seq<byte>, b: int): byte
    requires b != 0 ==> |N| >= 1
  {
    if b == 0 then 0 else N[|N| - 1]
  }

  /** P is the least multiple of R holding N and at least one padding byte:
      N up to the padding start, the suffix byte plus the first padding
      byte there, the rest of the padding after it. */
  lemma PaddedShape(N: seq<byte>, b: int, R: int)
    requires R > 0 && 0 <= b < 8 && (b != 0 ==> |N| >= 1)
    ensures var P := Padded(N, b, R); var M := PadStart(N, b); var pad := PadBytes(R, M, b);
      var least := |N| + (if b == 0 then 1 else 0);
      |P| % R == 0 && least <= |P| < least + R
      && 0 <= M < |P| && P[..M] == N[..M] && P[M] == SuffixByte(N, b) + pad[0]
      && P[M + 1..] == pad[1..]
  {
    PaddedLengthIs(N, b, R);
    var P := Padded(N, b, R);
    var M := PadStart(N, b);
    var pad := PadBytes(R, M, b);
    var q := CeilDiv(|N| + (if b == 0 then 1 else 0), R);
    DivModUnique(q * R, R, q, 0);
    assert P[..M] == N[..M];
    assert P[M + 1..] == pad[1..];
  }

  /** With b <= 6 and the suffix below 1 << b, no addition carries: P[M] is
      the suffix OR 1 << b, OR 0x80 when the padding is one byte; the last
      byte is 0x80 otherwise, and the bytes between are zero. */
  lemma PaddedSuffix(N: seq<byte>, b: int, R: int)
    requires R > 0 && 0 <= b <= 6 && (b != 0 ==> |N| >= 1)
    requires SuffixByte(N, b) < (1 as byte) << ShiftAmount(b)
    ensures var P := Padded(N, b, R); var M := PadStart(N, b); var L := |P| - M;
      0 <= M < |P|
      && P[M] == SuffixByte(N, b) | ((1 as byte) << ShiftAmount(b)) | (if L == 1 then 0x80 else 0)
      && (L > 1 ==> P[|P| - 1] == 0x80)
      && (forall k | M < k < |P| - 1 :: P[k] == 0)
  {
    var P := Padded(N, b, R);
    var M := PadStart(N, b);
    var pad := PadBytes(R, M, b);
    PaddedShape(N, b, R);
    PadShape(R, M, b);
    assert |P| - M == |pad|;
    SuffixNoCarry(SuffixByte(N, b), b, if |pad| == 1 then 0x80 else 0);
    forall k | M < k < |P| - 1
      ensures P[k] == 0
    {
      assert P[k] == P[M + 1..][k - M - 1] == pad[k - M];
    }
    if |pad| > 1 {
      assert P[|P| - 1] == P[M + 1..][|P| - M - 2];
    }
  }

  /** Adding 1 << b (and possibly 0x80) to a byte below 1 << b sets bits
      that are clear, so nothing carries. */
  lemma SuffixNoCarry(x: byte, b: int, top: byte)
    requires 0 <= b <= 6 && x < (1 as byte) << ShiftAmount(b) && (top == 0 || top == 0x80)
    ensures x + (((1 as byte) << ShiftAmount(b)) + top) == x | ((1 as byte) << ShiftAmount(b)) | top
  {
    if b == 0 {} else if b == 1 {} else if b == 2 {} else if b == 3 {}
    else if b == 4 {} else if b == 5 {} else {}
  }

  // ---- absorbing

  /** f.S[i] ^= p[i] for every i < B: p has R < B bytes and p[i] beyond
      them is undefined, which the XOR takes as 0. */
  function XorBlock(s: seq<byte>, p: seq<byte>): (s': seq<byte>)
    ensures |s'| == |s|
  {
    seq(|s|, i requires 0 <= i < |s| => s[i] ^ (if i < |p| then p[i] else 0))
  }

  /** XORing a block of |p| <= |s| bytes changes the first |p| bytes of the
      state, each by its byte of p, and leaves the rest alone. */
  lemma XorBlockRate(s: seq<byte>, p: seq<byte>)
    requires |p| <= |s|
    ensures XorBlock(s, p)[|p|..] == s[|p|..]
    ensures forall i | 0 <= i < |p| :: XorBlock(s, p)[i] == s[i] ^ p[i]
  {
    assert XorBlock(s, p)[|p|..] == s[|p|..];
  }

  /** The state after absorbing the blocks in order: each XORed in, then
      the permutation. */
  function Absorbed(s: seq<byte>, blocks: seq<seq<byte>>, W: int, n: nat): (s': seq<byte>)
    requires IsBytes(s, W)
    ensures IsBytes(s', W)
    decreases |blocks|
  {
    if |blocks| == 0 then s
    else Permute(XorBlock(Absorbed(s, blocks[..|blocks| - 1], W, n), blocks[|blocks| - 1]), W, n)
  }

  /** Absorbing one more block. */
  lemma AbsorbedNext(s: seq<byte>, blocks: seq<seq<byte>>, W: int, n: nat, k: int)
    requires IsBytes(s, W) && 0 <= k < |blocks|
    ensures Absorbed(s, blocks[..k + 1], W, n) == Permute(XorBlock(Absorbed(s, blocks[..k], W, n), blocks[k]), W, n)
  {
    assert blocks[..k + 1][..k] == blocks[..k];
  }

  // ---- squeezing

  /** The state after k further calls of the permutation. */
  function Iterate(s: seq<byte>, W: int, n: nat, k: nat): (s': seq<byte>)
    requires IsBytes(s, W)
    ensures IsBytes(s', W)
  {
    if k == 0 then s else Permute(Iterate(s, W, n, k - 1), W, n)
  }

  /** Z after m rounds of the squeezing loop: the first R bytes of the
      state, the state permuted, its first R bytes, and so on. */
  function Squeezed(s: seq<byte>, R: int, W: int, n: nat, m: nat): (Z: seq<byte>)
    requires IsBytes(s, W) && 0 <= R <= 25 * W
    ensures |Z| == m * R
  {
    if m == 0 then [] else Squeezed(s, R, W, n, m - 1) + Iterate(s, W, n, m - 1)[..R]
  }

  /** Byte k R + i of the squeezed bytes is byte i of the state after k
      further permutations. */
  lemma {:induction false} SqueezedAt(s: seq<byte>, R: int, W: int, n: nat, m: nat, k: nat, i: int)
    requires IsBytes(s, W) && 0 <= R <= 25 * W && k < m && 0 <= i < R
    ensures 0 <= k * R + i < m * R && Squeezed(s, R, W, n, m)[k * R + i] == Iterate(s, W, n, k)[i]
  {
    var Z0 := Squeezed(s, R, W, n, m - 1);
    var block := Iterate(s, W, n, m - 1)[..R];
    assert Squeezed(s, R, W, n, m) == Z0 + block;
    assert (k + 1) * R == k * R + R;
    if k < m - 1 {
      SqueezedAt(s, R, W, n, m - 1, k, i);
      MulLe(k + 1, m - 1, R);
      assert (m - 1) * R + R == m * R;
    } else {
      assert k * R == |Z0|;
    }
  }

  /** The number of blocks the squeezing loop copies: it always copies one,
      and stops once it holds at least D bytes. */
  function SqueezeCount(D: int, R: int): (q: nat)
    requires R > 0
    ensures q >= 1 && q * R >= D && (q == 1 || (q - 1) * R < D)
  {
    if D <= 0 then 1 else CeilDiv(D, R)
  }

  /** The squeezing loop stops after exactly SqueezeCount(D, R) blocks: any
      m >= 1 with m R >= D whose predecessor fell short is that count. */
  lemma SqueezeCountUnique(D: int, R: int, m: nat)
    requires R > 0 && m >= 1 && m * R >= D && (m == 1 || (m - 1) * R < D)
    ensures m == SqueezeCount(D, R)
  {
    var q := SqueezeCount(D, R);
    if m > q {
      MulLe(q, m - 1, R);
    } else if m < q {
      MulLe(m, q - 1, R);
    }
  }

  /** Z, of ceil((D + 1) / R) R bytes, has room for one more block while
      fewer than D + 1 bytes are out. */
  lemma BlockFits(D: int, R: int, m: nat)
    requires R > 0 && m * R <= D
    ensures (m + 1) * R <= CeilDiv(D + 1, R) * R
  {
    var q := CeilDiv(D + 1, R);
    if m >= q {
      MulLe(q, m, R);
    }
    MulLe(m + 1, q, R);
  }

  /** The output of sponge(keccak_p(200 W, n), pad10*1, 8 R)(N, d, b): P
      built, absorbed block by block into the zero state, then d / 8 bytes
      squeezed out. */
  function SpongeOutput(N: seq<byte>, d: int, b: int, R: int, W: int, n: nat): (Z: seq<byte>)
    requires ValidLaneBytes(W) && 0 < R < 25 * W && d >= 0 && 0 <= b < 8 && (b != 0 ==> |N| >= 1)
    ensures |Z| == d / 8
  {
    var P := Padded(N, b, R);
    var s := Absorbed(Zeros(25 * W), Chunks(P, R), W, n);
    Squeezed(s, R, W, n, SqueezeCount(d / 8, R))[..d / 8]
  }

  /** SpongeOutput of equal arguments, written differently. */
  lemma SpongeOutputSame(N: seq<byte>, d: int, b: int, R: int, W: int, n: nat, R': int, W': int, n': nat)
    requires ValidLaneBytes(W) && 0 < R < 25 * W && d >= 0 && 0 <= b < 8 && (b != 0 ==> |N| >= 1)
    requires R == R' && W == W' && n == n'
    ensures SpongeOutput(N, d, b, R, W, n) == SpongeOutput(N, d, b, R', W', n')
  {
  }
}
