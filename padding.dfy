/** padOneZeroStarOne of src/keccak.ts: the pad10*1 rule of section 5.1 of
    FIPS 202 in the byte-oriented form of its Appendix B.2, returning only
    the padding bytes to be added after the message. */
module Padding {
  import opened Bytes
  import opened Layout
  import Fips202

  /** Math.ceil(a / X) for a >= 0 and X > 0: the least q with q X >= a. */
  function CeilDiv(a: int, X: int): (q: int)
    requires a >= 0 && X > 0
    ensures q >= 0 && q * X >= a && (q - 1) * X < a
  {
    var r := a % X;
    DivModUnique(a + X - 1, X, if r == 0 then a / X else a / X + 1, if r == 0 then X - 1 else r - 1);
    (a + X - 1) / X
  }

  /** The number of padding bytes, ceil((M + 1) / X) X - M. */
  function PadLength(X: int, M: int): int
    requires X > 0 && M >= 0
  {
    CeilDiv(M + 1, X) * X - M
  }

  /** M bytes followed by L padding bytes fill whole blocks of X bytes. */
  predicate FillsBlocks(X: int, M: int, L: int)
    requires X > 0
  {
    (M + L) % X == 0
  }

  /** The padding length is X - M mod X: between 1 and X, it makes M + L a
      multiple of X, and no smaller positive length does. */
  lemma PadLengthLeast(X: int, M: int)
    requires X > 0 && M >= 0
    ensures 1 <= PadLength(X, M) <= X && FillsBlocks(X, M, PadLength(X, M))
    ensures forall L | 1 <= L < PadLength(X, M) :: !FillsBlocks(X, M, L)
  {
    var q, r := M / X, M % X;
    DivModUnique(M + X, X, q + 1, r);
    assert CeilDiv(M + 1, X) == q + 1;
    assert PadLength(X, M) == X - r;
    DivModUnique(M + (X - r), X, q + 1, 0);
    forall L | 1 <= L < X - r
      ensures !FillsBlocks(X, M, L)
    {
      DivModUnique(M + L, X, q, r + L);
    }
  }

  /** The bytes padOneZeroStarOne(X, M, b) returns: L zero bytes, 1 << b
      added to the first and 0x80 to the last, in Uint8Array arithmetic
      (modulo 256). */
  function PadBytes(X: int, M: int, b: int): (P: seq<byte>)
    requires X > 0 && M >= 0 && 0 <= b < 8
    ensures |P| == PadLength(X, M)
  {
    PadLengthLeast(X, M);
    var L := PadLength(X, M);
    seq(L, i requires 0 <= i < L => PadByte(L, b, i))
  }

  /** Byte i of L padding bytes. */
  function PadByte(L: int, b: int, i: int): byte
    requires 0 <= b < 8
  {
    (if i == 0 then (1 as byte) << ShiftAmount(b) else 0) + (if i == L - 1 then 0x80 else 0)
  }

  /** padOneZeroStarOne: a fresh array of ceil((M + 1) / X) X - M zero
      bytes, 1 << b added to its first byte, 0x80 to its last. */
  method PadOneZeroStarOne(X: int, M: int, b: int) returns (P: seq<byte>)
    requires X > 0 && M >= 0 && 0 <= b < 8
    ensures P == PadBytes(X, M, b)
  {
    PadLengthLeast(X, M);
    var a := new byte[CeilDiv(M + 1, X) * X - M](i => 0);
    a[0] := a[0] + ((1 as byte) << ShiftAmount(b));
    a[a.Length - 1] := a[a.Length - 1] + 0x80;
    P := a[..];
  }

  /** The shape of the padding: 1 << b first, 0x80 last, zeros between;
      a single byte carries both, and for b <= 6 their sum does not wrap. */
  lemma PadShape(X: int, M: int, b: int)
    requires X > 0 && M >= 0 && 0 <= b < 8
    ensures var P := PadBytes(X, M, b);
      1 <= |P| <= X
      && (|P| == 1 ==> P[0] == ((1 as byte) << ShiftAmount(b)) + 0x80)
      && (|P| > 1 ==> P[0] == (1 as byte) << ShiftAmount(b) && P[|P| - 1] == 0x80)
      && (forall i | 0 < i < |P| - 1 :: P[i] == 0)
      && (b <= 6 ==> P[0] as int == Pow2(b) + (if |P| == 1 then 0x80 else 0))
  {
    PadLengthLeast(X, M);
    if b <= 6 {
      OneShifted(b);
    }
  }

  lemma OneShifted(b: int)
    requires 0 <= b <= 6
    ensures ((1 as byte) << ShiftAmount(b)) as int == Pow2(b)
    ensures (((1 as byte) << ShiftAmount(b)) + 0x80) as int == Pow2(b) + 0x80
    ensures ((1 as byte) << ShiftAmount(b)) + 0x80 == ((1 as byte) << ShiftAmount(b)) | 0x80
  {
    if b == 0 {} else if b == 1 {} else if b == 2 {} else if b == 3 {}
    else if b == 4 {} else if b == 5 {} else {}
  }

  /** For b <= 6 the padding bytes, read as bits the way Appendix B.1 of
      FIPS 202 reads bytes, are b zero bits (left for the last b bits of the
      message) followed by pad10*1(8 X, 8 M + b) of Algorithm 9. */
  lemma PadIsPad101(X: int, M: int, b: int)
    requires X > 0 && M >= 0 && 0 <= b <= 6
    ensures Fips202.BitsOf(PadBytes(X, M, b)) == seq(b, i => false) + Fips202.Pad101(8 * X, 8 * M + b)
  {
    var L := PadLength(X, M);
    PadZeroCount(X, M, b);
    var bits := Fips202.BitsOf(PadBytes(X, M, b));
    var spec := seq(b, i => false) + Fips202.Pad101(8 * X, 8 * M + b);
    forall i | 0 <= i < 8 * L
      ensures bits[i] == spec[i]
    {
      PadBitAt(X, M, b, i);
    }
  }

  /** The number of zeros pad10*1 puts between its two ones. */
  lemma PadZeroCount(X: int, M: int, b: int)
    requires X > 0 && M >= 0 && 0 <= b <= 6
    ensures (-(8 * M + b) - 2) % (8 * X) == 8 * PadLength(X, M) - b - 2
  {
    PadLengthLeast(X, M);
    var L := PadLength(X, M);
    var k := (M + L) / X;
    assert M + L == k * X;
    assert -(8 * M + b) - 2 == (-k) * (8 * X) + (8 * L - b - 2);
    DivModUnique(-(8 * M + b) - 2, 8 * X, -k, 8 * L - b - 2);
  }

  lemma PadBitAt(X: int, M: int, b: int, i: int)
    requires X > 0 && M >= 0 && 0 <= b <= 6 && 0 <= i < 8 * PadLength(X, M)
    requires (-(8 * M + b) - 2) % (8 * X) == 8 * PadLength(X, M) - b - 2
    ensures Fips202.BitsOf(PadBytes(X, M, b))[i] == (seq(b, i => false) + Fips202.Pad101(8 * X, 8 * M + b))[i]
  {
    var L := PadLength(X, M);
    PadLengthLeast(X, M);
    PadByteBits(L, b, i / 8, i % 8);
    assert Fips202.BitsOf(PadBytes(X, M, b))[i] == Bit(PadByte(L, b, i / 8), i % 8);
    if i >= b {
      Fips202.Pad101At(8 * X, 8 * M + b, i - b);
    }
  }

  /** Bit k of padding byte z: bit b of the first byte and bit 7 of the last. */
  lemma PadByteBits(L: int, b: int, z: int, k: nat)
    requires 0 <= b <= 6 && 0 <= z < L && k < 8
    ensures Bit(PadByte(L, b, z), k) == ((z == 0 && k == b) || (z == L - 1 && k == 7))
  {
    var one := (1 as byte) << ShiftAmount(b);
    ShiftAmountValue(b);
    BitUnitShift(1, ShiftAmount(b), k);
    BitUnitShift(1, 7, k);
    assert (1 as byte) << (7 as bv8) == 0x80;
    if z == 0 && z == L - 1 {
      OneShifted(b);
      BitOr(one, 0x80, k);
    } else if z == 0 {
      assert PadByte(L, b, z) == one;
    } else if z == L - 1 {
      assert PadByte(L, b, z) == 0x80;
    } else {
      assert PadByte(L, b, z) == 0;
      BitZero(k);
    }
  }

  /** With b = 7 and a single padding byte, 0x80 + 0x80 wraps to 0: the
      padding then has no bit set. */
  lemma PadSevenWraps(X: int, M: int)
    requires X > 0 && M >= 0 && (M + 1) % X == 0
    ensures PadBytes(X, M, 7) == [0]
  {
    PadLengthLeast(X, M);
    assert FillsBlocks(X, M, 1);
    assert PadLength(X, M) == 1;
    assert PadByte(1, 7, 0) == 0;
    assert PadBytes(X, M, 7)[0] == PadByte(1, 7, 0);
  }
}
