/** Bits of a byte and the bit-level facts about byte operations that the
    step mappings use.  Bit k of a byte is its k-th least significant bit,
    the convention of FIPS 202 Appendix B.1.  */
module Bytes {

  type byte = bv8

  /** The byte whose only set bit is bit k. */
  function Mask(k: nat): (m: byte)
    requires k < 8
    ensures m == 0x01 || m == 0x02 || m == 0x04 || m == 0x08
         || m == 0x10 || m == 0x20 || m == 0x40 || m == 0x80
  {
    if k == 0 then 0x01 else if k == 1 then 0x02 else if k == 2 then 0x04
    else if k == 3 then 0x08 else if k == 4 then 0x10 else if k == 5 then 0x20
    else if k == 6 then 0x40 else 0x80
  }

  /** Bit k (0 = least significant) of v.  Written recursively so that the
      verifier treats a bit of a symbolic position as a value of its own and
      does not reason about the whole byte each time one is named. */
  predicate Bit(v: byte, k: nat)
    requires k < 8
    decreases k
  {
    if k == 0 then v & 1 == 1 else Bit(v >> 1, k - 1)
  }

  /** Bit k is the bit that Mask(k) selects. */
  lemma {:induction false} BitMask(v: byte, k: nat)
    requires k < 8
    ensures Bit(v, k) == (v & Mask(k) != 0)
    decreases k
  {
    if k > 0 {
      BitMask(v >> 1, k - 1);
      assert ((v >> 1) & Mask(k - 1) != 0) == (v & Mask(k) != 0);
    }
  }

  lemma {:induction false} BitXor(a: byte, b: byte, k: nat)
    requires k < 8
    ensures Bit(a ^ b, k) == (Bit(a, k) != Bit(b, k))
    decreases k
  {
    if k > 0 {
      assert (a ^ b) >> 1 == (a >> 1) ^ (b >> 1);
      BitXor(a >> 1, b >> 1, k - 1);
    }
  }

  /** Bit k of the XOR of five bytes, the shape of a column parity. */
  lemma BitXor5(b0: byte, b1: byte, b2: byte, b3: byte, b4: byte, k: nat)
    requires k < 8
    ensures Bit(b0 ^ b1 ^ b2 ^ b3 ^ b4, k)
         == ((((Bit(b0, k) != Bit(b1, k)) != Bit(b2, k)) != Bit(b3, k)) != Bit(b4, k))
  {
    var c1 := b0 ^ b1;
    BitXor(b0, b1, k);
    var c2 := c1 ^ b2;
    BitXor(c1, b2, k);
    var c3 := c2 ^ b3;
    BitXor(c2, b3, k);
    BitXor(c3, b4, k);
    assert Bit(c3 ^ b4, k) == (Bit(c3, k) != Bit(b4, k));
  }

  lemma BitOr(a: byte, b: byte, k: nat)
    requires k < 8
    ensures Bit(a | b, k) == (Bit(a, k) || Bit(b, k))
  {
    BitMask(a | b, k);
    BitMask(a, k);
    BitMask(b, k);
  }

  lemma BitAnd(a: byte, b: byte, k: nat)
    requires k < 8
    ensures Bit(a & b, k) == (Bit(a, k) && Bit(b, k))
  {
    BitMask(a & b, k);
    BitMask(a, k);
    BitMask(b, k);
  }

  lemma BitComplement(a: byte, k: nat)
    requires k < 8
    ensures Bit(0xff ^ a, k) == !Bit(a, k)
  {
    BitMask(0xff ^ a, k);
    BitMask(a, k);
  }

  lemma BitShiftLeftOne(a: byte, k: nat)
    requires k < 8
    ensures Bit(a << 1, k) == (1 <= k && Bit(a, k - 1))
  {
    BitShr(a << 1, k);
    if 1 <= k {
      BitShr(a, k - 1);
    }
  }

  lemma BitShiftRightSeven(a: byte, k: nat)
    requires k < 8
    ensures Bit(a >> 7, k) == (k == 0 && Bit(a, 7))
  {
    BitShr(a >> 7, k);
    BitShr(a, 7);
  }

  /** A byte that is 0 or 1, shifted left by s, has bit k set exactly when
      it is 1 and k is s. */
  lemma BitUnitShift(r: byte, s: bv8, k: nat)
    requires r == 0 || r == 1
    requires s < 8 && k < 8
    ensures Bit(r << s, k) == (r == 1 && k == s as int)
  {
    BitShr(r << s, k);
  }

  // The shift amount is a bit-vector in the two lemmas below: with an integer
  // amount the same facts are much more expensive to check.
  lemma BitShiftLeftBv(a: byte, s: bv8, k: nat)
    requires s <= 8 && k < 8
    ensures Bit(a << s, k) == (s as int <= k && Bit(a, k - s as int))
  {
    var kb := k as bv8;
    SmallBv(k);
    BitShr(a << s, k);
    ShiftLeftBit(a, s, kb);
    if s as int <= k {
      SmallBvDiff(k, s);
      BitShr(a, k - s as int);
    }
  }

  lemma BitShiftRightBv(a: byte, s: bv8, k: nat)
    requires s <= 8 && k < 8
    ensures Bit(a >> s, k) == (k + s as int < 8 && Bit(a, k + s as int))
  {
    var kb := k as bv8;
    SmallBv(k);
    BitShr(a >> s, k);
    ShiftRightBit(a, s, kb);
    if k + s as int < 8 {
      SmallBvSum(k, s);
      BitShr(a, k + s as int);
    }
  }

  /** The two shift facts above on bit-vectors alone. */
  lemma ShiftLeftBit(a: byte, s: bv8, kb: bv8)
    requires s <= 8 && kb < 8
    ensures ((a << s) >> kb) & 1 == if s <= kb then (a >> (kb - s)) & 1 else 0
  {
  }

  lemma ShiftRightBit(a: byte, s: bv8, kb: bv8)
    requires s <= 8 && kb < 8
    ensures ((a >> s) >> kb) & 1 == if kb + s < 8 then (a >> (kb + s)) & 1 else 0
  {
  }

  lemma SmallBvDiff(k: nat, s: bv8)
    requires k < 8 && s as int <= k
    ensures (k - s as int) as bv8 == (k as bv8) - s
  {
    if k == 0 {} else if k == 1 {} else if k == 2 {} else if k == 3 {}
    else if k == 4 {} else if k == 5 {} else if k == 6 {} else {}
  }

  lemma SmallBvSum(k: nat, s: bv8)
    requires k < 8 && s <= 8 && k + s as int < 8
    ensures (k + s as int) as bv8 == (k as bv8) + s
  {
    if k == 0 {} else if k == 1 {} else if k == 2 {} else if k == 3 {}
    else if k == 4 {} else if k == 5 {} else if k == 6 {} else {}
  }

  /** Bit k of v is the low bit of v shifted right by k. */
  lemma BitShr(v: byte, k: nat)
    requires k < 8
    ensures Bit(v, k) == ((v >> k as bv8) & 1 == 1)
  {
    if k == 0 {} else if k == 1 {} else if k == 2 {} else if k == 3 {}
    else if k == 4 {} else if k == 5 {} else if k == 6 {} else {}
  }

  /** Bit k of (a << bs) | (b >> (8 - bs)), the byte a rotation by bs bits
      builds from two neighbouring bytes. */
  lemma BitShiftPair(a: byte, b: byte, bs: nat, k: nat)
    requires bs < 8 && k < 8
    ensures Bit((a << bs) | (b >> (8 - bs)), k)
         == if k >= bs then Bit(a, k - bs) else Bit(b, k + 8 - bs)
  {
    // the same fact with a bit-vector shift amount is much cheaper to check
    var v := bs as bv8;
    assert v as int == bs;
    assert a << bs == a << v;
    assert b >> (8 - bs) == b >> (8 - v);
    BitShiftPairBv(a, b, v, k);
  }

  lemma BitShiftPairBv(a: byte, b: byte, bs: bv8, k: nat)
    requires bs < 8 && k < 8
    ensures Bit((a << bs) | (b >> (8 - bs)), k)
         == if k >= bs as int then Bit(a, k - bs as int) else Bit(b, k + 8 - bs as int)
  {
    BitOr(a << bs, b >> (8 - bs), k);
    BitShiftLeftBv(a, bs, k);
    BitShiftRightBv(b, 8 - bs, k);
  }

  /** A bit position 0 .. 7 as a shift amount, written out so that no
      integer-to-bit-vector conversion is involved. */
  function ShiftAmount(k: int): (s: bv8)
    requires 0 <= k < 8
    ensures s < 8
  {
    if k == 0 then 0 else if k == 1 then 1 else if k == 2 then 2 else if k == 3 then 3
    else if k == 4 then 4 else if k == 5 then 5 else if k == 6 then 6 else 7
  }

  lemma ShiftAmountValue(k: int)
    requires 0 <= k < 8
    ensures ShiftAmount(k) as int == k
  {
  }

  lemma ShiftAmountIsBv(k: int)
    requires 0 <= k < 8
    ensures ShiftAmount(k) == k as bv8
  {
    if k == 0 {} else if k == 1 {} else if k == 2 {} else if k == 3 {}
    else if k == 4 {} else if k == 5 {} else if k == 6 {} else {}
  }

  /** A bit position, as a shift amount and back. */
  lemma SmallBv(n: nat)
    requires n < 8
    ensures (n as bv8) as int == n
  {
  }

  lemma BitZero(k: nat)
    requires k < 8
    ensures !Bit(0, k)
  {
    BitMask(0, k);
  }

  /** Two bytes with the same eight bits are equal. */
  lemma BitsDetermineByte(a: byte, b: byte)
    requires forall k | 0 <= k < 8 :: Bit(a, k) == Bit(b, k)
    ensures a == b
  {
    assert Bit(a, 0) == Bit(b, 0) && Bit(a, 1) == Bit(b, 1);
    assert Bit(a, 2) == Bit(b, 2) && Bit(a, 3) == Bit(b, 3);
    assert Bit(a, 4) == Bit(b, 4) && Bit(a, 5) == Bit(b, 5);
    assert Bit(a, 6) == Bit(b, 6) && Bit(a, 7) == Bit(b, 7);
  }
}
