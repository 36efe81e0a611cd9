/** keccak_c, sha_3 and sha_3_xof of src/keccak.ts, and keccak256 of
    src/concrete/keccak256.ts: the sponge over Keccak-p[1600, 24] with
    rate 1600 - c, and the hash objects that append a suffix byte to the
    message before calling it. */
module Hashes {
  import opened Bytes
  import opened Layout
  import opened Padding
  import opened SpongeSpec
  import opened KeccakPermutation
  import opened Sponge
  import Fips202

  /** keccak_c(c): sponge(keccak_p(1600, 24), pad10*1, 1600 - c).  The
      permutation object is Keccak-f[1600], whose lanes are 8 bytes. */
  method KeccakC(c: int) returns (k: SpongeFunction)
    requires 0 < c <= 1592
    ensures fresh(k) && fresh(k.f) && fresh(k.f.C) && fresh(k.f.D) && fresh(k.f.S0) && fresh(k.f.S1)
    ensures k.Valid() && k.r == 1600 - c && k.f.W == 8 && k.f.n == 24 && k.f.calls == 0
    ensures k.f.n == Fips202.FullRounds(LaneLog(k.f.W))
  {
    var f := new KeccakP(1600, 24);
    assert LaneLog(8) == 6;
    k := new SpongeFunction(f, 1600 - c);
  }

  /** The bytes handed to the sponge: M, followed by the suffix byte n when
      the suffix has b > 0 bits. */
  function Suffixed(M: seq<byte>, n: byte, b: int): (N: seq<byte>)
    ensures b != 0 ==> |N| >= 1
  {
    if b == 0 then M else M + [n]
  }

  /** new Uint8Array(|M| + [b != 0]), M copied in, n stored last when
      b != 0. */
  method AppendSuffix(M: seq<byte>, n: byte, b: int) returns (N: seq<byte>)
    ensures N == Suffixed(M, n, b)
  {
    var a := new byte[|M| + (if b == 0 then 0 else 1)](_ => 0);
    SetPrefix(a, M);
    if b != 0 {
      a[a.Length - 1] := n;
    }
    N := a[..];
  }

  /** The output of a sha_3(keccak_c, c, n, b) object on M. */
  function Sha3Output(M: seq<byte>, c: int, n: byte, b: int): (Z: seq<byte>)
    requires 0 < c <= 1592 && 0 <= b < 8
    ensures |Z| == c / 16
  {
    SpongeOutput(Suffixed(M, n, b), c / 2, b, (1600 - c) / 8, 8, 24)
  }

  /** sha_3(keccak_c, c, n, b): a hash object holding one keccak_c(c)
      sponge, shared by all its calls. */
  class Sha3 {
    const keccak: SpongeFunction
    const c: int
    const n: byte
    const b: int

    predicate Valid()
    {
      keccak.Valid() && keccak.r == 1600 - c && keccak.f.W == 8 && keccak.f.n == 24
      && 0 < c <= 1592 && 0 <= b < 8
    }

    constructor (c: int, n: byte, b: int)
      requires 0 < c <= 1592 && 0 <= b < 8
      ensures Valid() && this.c == c && this.n == n && this.b == b && keccak.f.calls == 0
      ensures fresh(keccak) && fresh(keccak.f) && fresh(keccak.f.C) && fresh(keccak.f.D)
      ensures fresh(keccak.f.S0) && fresh(keccak.f.S1)
    {
      var k := KeccakC(c);
      keccak := k;
      this.c := c;
      this.n := n;
      this.b := b;
    }

    /** The hash of M: c / 2 bits, that is c / 16 bytes, squeezed from the
        suffixed message; one permutation per block of the padded message
        and one per further output block. */
    method Hash(M: seq<byte>) returns (Z: seq<byte>)
      requires Valid()
      modifies keccak.f, keccak.f.C, keccak.f.D, keccak.f.S0, keccak.f.S1
      ensures Valid()
      ensures Z == Sha3Output(M, c, n, b) && |Z| == c / 16
      ensures keccak.f.calls == old(keccak.f.calls)
        + |Padded(Suffixed(M, n, b), b, keccak.r / 8)| / (keccak.r / 8) + SqueezeCount(c / 2 / 8, keccak.r / 8) - 1
    {
      var N := AppendSuffix(M, n, b);
      var d := c / 2;
      Z := keccak.Apply(N, d, b);
      SpongeOutputSame(N, d, b, keccak.r / 8, keccak.f.W, keccak.f.n, (1600 - c) / 8, 8, 24);
    }
  }

  /** The output of a sha_3_xof(keccak_c, c, n, b) object on M, D bytes. */
  function Sha3XofOutput(M: seq<byte>, D: int, c: int, n: byte, b: int): (Z: seq<byte>)
    requires 0 < c <= 1592 && 0 <= b < 8 && 0 <= D < 0x1000_0000
    ensures |Z| == D
  {
    SpongeOutput(Suffixed(M, n, b), 8 * D, b, (1600 - c) / 8, 8, 24)
  }

  /** sha_3_xof(keccak_c, c, n, b): like Sha3, with the output length in
      bytes given on each call. */
  class Sha3Xof {
    const keccak: SpongeFunction
    const c: int
    const n: byte
    const b: int

    predicate Valid()
    {
      keccak.Valid() && keccak.r == 1600 - c && keccak.f.W == 8 && keccak.f.n == 24
      && 0 < c <= 1592 && 0 <= b < 8
    }

    constructor (c: int, n: byte, b: int)
      requires 0 < c <= 1592 && 0 <= b < 8
      ensures Valid() && this.c == c && this.n == n && this.b == b && keccak.f.calls == 0
      ensures fresh(keccak) && fresh(keccak.f) && fresh(keccak.f.C) && fresh(keccak.f.D)
      ensures fresh(keccak.f.S0) && fresh(keccak.f.S1)
    {
      var k := KeccakC(c);
      keccak := k;
      this.c := c;
      this.n := n;
      this.b := b;
    }

    /** D bytes squeezed from the suffixed message.  D << 3 is a 32-bit
        shift, exact for D < 2^28. */
    method Hash(M: seq<byte>, D: int) returns (Z: seq<byte>)
      requires Valid() && 0 <= D < 0x1000_0000
      modifies keccak.f, keccak.f.C, keccak.f.D, keccak.f.S0, keccak.f.S1
      ensures Valid()
      ensures Z == Sha3XofOutput(M, D, c, n, b) && |Z| == D
    {
      var N := AppendSuffix(M, n, b);
      var d := D * 8;
      Z := keccak.Apply(N, d, b);
      SpongeOutputSame(N, d, b, keccak.r / 8, keccak.f.W, keccak.f.n, (1600 - c) / 8, 8, 24);
    }
  }

  /** keccak256 = sha_3(keccak_c, 512, 0b0, 0): capacity 512, no suffix. */
  method Keccak256() returns (h: Sha3)
    ensures fresh(h) && h.Valid() && h.c == 512 && h.n == 0 && h.b == 0 && h.keccak.f.calls == 0
    ensures fresh(h.keccak) && fresh(h.keccak.f) && fresh(h.keccak.f.C) && fresh(h.keccak.f.D)
    ensures fresh(h.keccak.f.S0) && fresh(h.keccak.f.S1)
  {
    h := new Sha3(512, 0, 0);
  }

  /** Keccak-256 pads the message itself (no suffix) to the least multiple
      of 136 bytes above |M|: 0x01 at index |M| and 0x80 last, merged into
      0x81 when |M| mod 136 = 135, zeros between. */
  lemma Keccak256Padding(M: seq<byte>)
    ensures var P := Padded(Suffixed(M, 0, 0), 0, 136);
      |P| % 136 == 0 && |M| < |P| <= |M| + 136 && P[..|M|] == M
      && P[|M|] == (if |M| % 136 == 135 then 0x81 else 0x01)
      && (|M| % 136 != 135 ==> P[|P| - 1] == 0x80)
      && (forall k | |M| < k < |P| - 1 :: P[k] == 0)
  {
    var P := Padded(M, 0, 136);
    PaddedShape(M, 0, 136);
    PaddedSuffix(M, 0, 136);
    PaddedLengthIs(M, 0, 136);
    PadLengthLeast(136, |M|);
    var L := |P| - |M|;
    assert L == PadLength(136, |M|);
    if |M| % 136 == 135 {
      assert FillsBlocks(136, |M|, 1);
      assert L == 1;
    } else {
      assert L != 1;
    }
  }

  /** One call of keccak256 on M: 32 bytes; the permutation runs once per
      136-byte block of the padded message, |M| / 136 + 1 times, and never
      again while squeezing since 32 <= 136. */
  method Keccak256Hash(h: Sha3, M: seq<byte>) returns (Z: seq<byte>)
    requires h.Valid() && h.c == 512 && h.n == 0 && h.b == 0
    modifies h.keccak.f, h.keccak.f.C, h.keccak.f.D, h.keccak.f.S0, h.keccak.f.S1
    ensures h.Valid() && |Z| == 32 && Z == Sha3Output(M, 512, 0, 0)
    ensures h.keccak.f.calls == old(h.keccak.f.calls) + |M| / 136 + 1
  {
    Z := h.Hash(M);
    Keccak256Calls(M, h.c, h.n, h.b, h.keccak.r);
  }

  /** The permutation count of Sha3.Hash with c = 512 and no suffix. */
  lemma Keccak256Calls(M: seq<byte>, c: int, n: byte, b: int, r: int)
    requires c == 512 && n == 0 && b == 0 && r == 1600 - c
    ensures |Padded(Suffixed(M, n, b), b, r / 8)| / (r / 8) + SqueezeCount(c / 2 / 8, r / 8) - 1 == |M| / 136 + 1
  {
    Keccak256Padding(M);
    var P := Padded(M, 0, 136);
    DivModUnique(|P|, 136, |M| / 136 + 1, 0);
    assert SqueezeCount(32, 136) == 1;
  }

  /** The object is shared by every call, yet two calls on the same message
      return the same digest: each call clears the state first. */
  method Keccak256Twice(h: Sha3, M: seq<byte>) returns (Z1: seq<byte>, Z2: seq<byte>)
    requires h.Valid() && h.c == 512 && h.n == 0 && h.b == 0
    modifies h.keccak.f, h.keccak.f.C, h.keccak.f.D, h.keccak.f.S0, h.keccak.f.S1
    ensures Z1 == Z2 && |Z1| == 32
  {
    Z1 := Keccak256Hash(h, M);
    Z2 := Keccak256Hash(h, M);
  }
}
