/** sponge(f, pad10*1, r) of src/keccak.ts: the returned function as an
    object holding the permutation object f it was built with, which every
    call clears and reuses.  Its one method is proved to compute
    SpongeSpec.SpongeOutput. */
module Sponge {
  import opened Bytes
  import opened Layout
  import opened KeccakSteps
  import opened Padding
  import opened SpongeSpec
  import opened KeccakPermutation

  /** Z.set(S.slice(0, R), i): R bytes of S copied into Z from index i, the
      rest of Z unchanged.  The requires is the bound under which the set
      does not throw. */
  method CopyBlock(Z: array<byte>, S: array<byte>, i: int, R: int)
    requires 0 <= i && 0 <= R <= S.Length && i + R <= Z.Length && Z != S
    modifies Z
    ensures Z[..i + R] == old(Z[..i]) + S[..R] && Z[i + R..] == old(Z[i + R..])
  {
    var k := 0;
    while k < R
      invariant 0 <= k <= R
      invariant Z[..i] == old(Z[..i]) && Z[i..i + k] == S[..k] && Z[i + R..] == old(Z[i + R..])
    {
      Z[i + k] := S[k];
      k := k + 1;
    }
    assert Z[..i + R] == Z[..i] + Z[i..i + R];
  }

  /** for (i = 0; i < f.B; i++) f.S[i] ^= p[i]: the block XORed into the
      first |p| bytes, p[i] past its end being undefined and taken as 0. */
  method XorInto(S: array<byte>, p: seq<byte>)
    modifies S
    ensures S[..] == XorBlock(old(S[..]), p)
  {
    ghost var s := S[..];
    var i := 0;
    while i < S.Length
      invariant 0 <= i <= S.Length
      invariant forall j | 0 <= j < S.Length :: S[j] == if j < i then XorBlock(s, p)[j] else s[j]
    {
      S[i] := S[i] ^ (if i < |p| then p[i] else 0);
      i := i + 1;
    }
  }

  /** f.S.fill(0). */
  method Clear(S: array<byte>)
    modifies S
    ensures S[..] == Zeros(S.Length)
  {
    var i := 0;
    while i < S.Length
      invariant 0 <= i <= S.Length
      invariant forall j | 0 <= j < i :: S[j] == 0
    {
      S[i] := 0;
      i := i + 1;
    }
  }

  /** P.set(N): N copied to the front of a, the rest of a unchanged. */
  method SetPrefix(a: array<byte>, N: seq<byte>)
    requires |N| <= a.Length
    modifies a
    ensures forall t | 0 <= t < a.Length :: a[t] == if t < |N| then N[t] else old(a[t])
  {
    var k := 0;
    while k < |N|
      invariant 0 <= k <= |N|
      invariant forall t | 0 <= t < a.Length :: a[t] == if t < k then N[t] else old(a[t])
    {
      a[k] := N[k];
      k := k + 1;
    }
  }

  /** for (i = 0, j = M; i < |pad|; i++, j++) P[j] += pad[i]: the padding
      added, modulo 256, from index M on. */
  method AddAt(a: array<byte>, pad: seq<byte>, M: int)
    requires 0 <= M && M + |pad| <= a.Length
    modifies a
    ensures forall t | 0 <= t < |pad| :: a[M + t] == old(a[M + t]) + pad[t]
    ensures forall t | 0 <= t < a.Length && !(M <= t < M + |pad|) :: a[t] == old(a[t])
  {
    var i, j := 0, M;
    while i < |pad|
      invariant 0 <= i <= |pad| && j == M + i
      invariant forall t | 0 <= t < i :: a[M + t] == old(a[M + t]) + pad[t]
      invariant forall t | 0 <= t < a.Length && !(M <= t < j) :: a[t] == old(a[t])
    {
      a[j] := a[j] + pad[i];
      i, j := i + 1, j + 1;
    }
  }

  /** The buffer P of the sponge: ceil((|N| + [b = 0]) / R) R zero bytes,
      N copied in, then the pad10*1 bytes added from index |N| - [b != 0]. */
  method BuildPadded(N: seq<byte>, b: int, R: int) returns (P: seq<byte>)
    requires R > 0 && 0 <= b < 8 && (b != 0 ==> |N| >= 1)
    ensures P == Padded(N, b, R)
  {
    PaddedLengthIs(N, b, R);
    var M := |N| - (if b == 0 then 0 else 1);
    var pad := PadOneZeroStarOne(R, M, b);
    P := FillPadded(N, M, pad, CeilDiv(|N| + (if b == 0 then 1 else 0), R) * R);
  }

  /** new Uint8Array(len), P.set(N), then pad added from index M. */
  method FillPadded(N: seq<byte>, M: int, pad: seq<byte>, len: int) returns (P: seq<byte>)
    requires 0 <= M && |N| <= len && M + |pad| <= len
    ensures P == PaddedWith(N, M, pad, len)
  {
    var a := new byte[len](_ => 0);
    SetPrefix(a, N);
    ghost var withN := a[..];
    AddAt(a, pad, M);
    P := a[..];
    forall t | 0 <= t < len
      ensures P[t] == PaddedWith(N, M, pad, len)[t]
    {
      assert withN[t] == if t < |N| then N[t] else 0;
      if M <= t < M + |pad| {
        assert a[M + (t - M)] == withN[M + (t - M)] + pad[t - M];
      }
    }
  }

  /** The squeezing loop's state after m blocks: m R bytes of Z written and
      fewer than D of them, unless no block is out yet. */
  ghost predicate SqueezedSoFar(zi: seq<byte>, s: seq<byte>, R: int, W: int, n: nat, D: int, m: nat)
  {
    IsBytes(s, W) && 0 < R <= 25 * W && |zi| == m * R && |zi| <= D && (m == 0 || |zi| < D)
    && zi == Squeezed(s, R, W, n, m)
  }

  /** The squeezing loop's state when it stops: the m-th block reached D. */
  ghost predicate SqueezeFinal(zi: seq<byte>, s: seq<byte>, R: int, W: int, n: nat, D: int, m: nat)
  {
    IsBytes(s, W) && 0 < R <= 25 * W && m >= 1 && |zi| == m * R && D <= |zi| && (m == 1 || (m - 1) * R < D)
    && zi == Squeezed(s, R, W, n, m)
  }

  /** After block m + 1 is out, the loop either goes on or stops. */
  lemma SqueezeAdvance(zi: seq<byte>, s: seq<byte>, R: int, W: int, n: nat, D: int, m: nat)
    requires IsBytes(s, W) && 0 < R <= 25 * W && (m == 0 || m * R < D) && zi == Squeezed(s, R, W, n, m + 1)
    ensures |zi| < D ==> SqueezedSoFar(zi, s, R, W, n, D, m + 1)
    ensures D <= |zi| ==> SqueezeFinal(zi, s, R, W, n, D, m + 1)
  {
  }

  /** When the loop stops, the first D bytes of Z are those of the
      SqueezeCount(D, R) blocks. */
  lemma SqueezeDone(z: seq<byte>, i: int, s: seq<byte>, R: int, W: int, n: nat, D: int, m: nat)
    requires 0 <= D <= i <= |z| && SqueezeFinal(z[..i], s, R, W, n, D, m)
    ensures m == SqueezeCount(D, R)
    ensures z[..D] == Squeezed(s, R, W, n, SqueezeCount(D, R))[..D]
  {
    SqueezeCountUnique(D, R, m);
    assert z[..i][..D] == z[..D];
  }

  class SpongeFunction {
    /** The permutation object shared by every call. */
    const f: KeccakP
    /** The rate in bits. */
    const r: int

    /** The rate is at least one byte and less than the width. */
    predicate Valid()
    {
      f.Valid() && 8 <= r && r / 8 < f.B
    }

    /** sponge(f, pad10*1, r). */
    constructor (f: KeccakP, r: int)
      requires f.Valid() && 8 <= r && r / 8 < f.B
      ensures Valid() && this.f == f && this.r == r
    {
      this.f := f;
      this.r := r;
    }

    /** The function returned by sponge, applied to N with output length d
        bits and b suffix bits in the last byte of N.  The permutation runs
        once per block of P and once more for every squeezed block after the
        first. */
    method Apply(N: seq<byte>, d: int, b: int) returns (Z: seq<byte>)
      requires Valid() && 0 <= d < 0x8000_0000 && 0 <= b < 8 && (b != 0 ==> |N| >= 1)
      modifies f, f.C, f.D, f.S0, f.S1
      ensures Valid()
      ensures Z == SpongeOutput(N, d, b, r / 8, f.W, f.n)
      ensures f.calls == old(f.calls) + |Padded(N, b, r / 8)| / (r / 8) + SqueezeCount(d / 8, r / 8) - 1
    {
      var D := d / 8;
      var R := r / 8;
      Clear(f.Cur());
      var P := BuildPadded(N, b, R);
      Absorb(P, R);
      Z := Squeeze(D, R);
    }

    /** The absorbing loop: each R-byte slice of P XORed into the state,
        then the permutation applied. */
    method Absorb(P: seq<byte>, R: int)
      requires Valid() && R == r / 8
      modifies f, f.C, f.D, f.S0, f.S1
      ensures Valid()
      ensures f.S() == Absorbed(old(f.S()), Chunks(P, R), f.W, f.n)
      ensures f.calls == old(f.calls) + |P| / R
    {
      var chunks := Chunks(P, R);
      ChunksAt(P, R);
      ghost var s := f.S();
      var k := 0;
      while k < |chunks|
        invariant 0 <= k <= |chunks|
        invariant f.S() == Absorbed(s, chunks[..k], f.W, f.n)
        invariant f.calls == old(f.calls) + k
      {
        XorInto(f.Cur(), chunks[k]);
        f.Permute();
        AbsorbedNext(s, chunks, f.W, f.n, k);
        k := k + 1;
      }
      assert chunks[..k] == chunks;
    }

    /** The squeezing loop: R bytes of the state copied into Z, and the
        permutation applied again while fewer than D bytes are out; Z cut
        to D bytes. */
    method Squeeze(D: int, R: int) returns (Z: seq<byte>)
      requires Valid() && R == r / 8 && 0 <= D
      modifies f, f.C, f.D, f.S0, f.S1
      ensures Valid()
      ensures Z == Squeezed(old(f.S()), R, f.W, f.n, SqueezeCount(D, R))[..D]
      ensures f.calls == old(f.calls) + SqueezeCount(D, R) - 1
    {
      ghost var s := f.S();
      var z := new byte[CeilDiv(D + 1, R) * R](_ => 0);
      var i := 0;
      ghost var m: nat := 0;
      while true
        invariant 0 <= i <= z.Length && SqueezedSoFar(z[..i], s, R, f.W, f.n, D, m)
        invariant f.S() == Iterate(s, f.W, f.n, m) && f.calls == old(f.calls) + m
        decreases D - i
      {
        SqueezeBlock(z, i, R, s, m, D);
        i := i + R;
        m := m + 1;
        if !(i < D) {
          break;
        }
        NextBlock(s, m);
      }
      SqueezeDone(z[..], i, s, R, f.W, f.n, D, m);
      Z := z[..D];
    }

    /** Z.set(f.S.slice(0, R), i) in the squeezing loop: the block of the
        state after m further permutations appended to the m blocks out;
        the next block still fits in Z. */
    method SqueezeBlock(z: array<byte>, i: int, R: int, ghost s: seq<byte>, ghost m: nat, ghost D: int)
      requires Valid() && R == r / 8 && z != f.S0 && z != f.S1 && 0 <= D && z.Length == CeilDiv(D + 1, R) * R
      requires 0 <= i <= z.Length && SqueezedSoFar(z[..i], s, R, f.W, f.n, D, m)
      requires f.S() == Iterate(s, f.W, f.n, m)
      modifies z
      ensures i + R <= z.Length && z[..i + R] == Squeezed(s, R, f.W, f.n, m + 1)
      ensures i + R < D ==> SqueezedSoFar(z[..i + R], s, R, f.W, f.n, D, m + 1)
      ensures D <= i + R ==> SqueezeFinal(z[..i + R], s, R, f.W, f.n, D, m + 1)
    {
      BlockFits(D, R, m);
      CopyBlock(z, f.Cur(), i, R);
      SqueezeAdvance(z[..i + R], s, R, f.W, f.n, D, m);
    }

    /** f() between two squeezed blocks: the state after m further
        permutations. */
    method NextBlock(ghost s: seq<byte>, ghost m: nat)
      requires Valid() && IsBytes(s, f.W) && m >= 1 && f.S() == Iterate(s, f.W, f.n, m - 1)
      modifies f, f.C, f.D, f.S0, f.S1
      ensures Valid() && f.S() == Iterate(s, f.W, f.n, m) && f.calls == old(f.calls) + 1
    {
      f.Permute();
    }
  }
}
