/** The loops of the step mappings of keccak_p (src/keccak.ts), as methods
    over the two state buffers and the scratch rows.  Each reads one array and
    writes another; each is proved to leave in the written array exactly the
    byte-level function of KeccakSteps for its step. */
module StepLoops {
  import opened Bytes
  import opened Layout
  import opened KeccakSteps
  import KeccakFips

  /** The first k bytes of a agree with T. */
  predicate Filled(a: array<byte>, T: seq<byte>, k: int)
    reads a
  {
    0 <= k <= a.Length && k <= |T| && forall i | 0 <= i < k :: a[i] == T[i]
  }

  /** Byte W x + z of C after theta's first loop, as that loop computes it. */
  lemma ParityRow(s: seq<byte>, W: int, x: int)
    requires IsBytes(s, W) && 0 <= x < 5
    ensures forall z | 0 <= z < W :: ColumnParity(s, W)[W * x + z] == ParityByte(s, W, x, z)
  {
    forall z | 0 <= z < W
      ensures ColumnParity(s, W)[W * x + z] == ParityByte(s, W, x, z)
    {
      RowIdx(W, x, z);
    }
  }

  /** The parity of column (x, z) as theta's first loop computes it. */
  lemma ParityByteIs(s: seq<byte>, W: int, x: int, z: int)
    requires IsBytes(s, W) && 0 <= x < 5 && 0 <= z < W
    ensures 0 <= 5 * W * 0 + W * x + z < 25 * W && 0 <= 5 * W * 1 + W * x + z < 25 * W
    ensures 0 <= 5 * W * 2 + W * x + z < 25 * W && 0 <= 5 * W * 3 + W * x + z < 25 * W
    ensures 0 <= 5 * W * 4 + W * x + z < 25 * W
    ensures ParityByte(s, W, x, z)
         == s[5 * W * 0 + W * x + z] ^ s[5 * W * 1 + W * x + z] ^ s[5 * W * 2 + W * x + z]
            ^ s[5 * W * 3 + W * x + z] ^ s[5 * W * 4 + W * x + z]
  {
    ParityBounds(W, x, z);
  }

  lemma ParityBounds(W: int, x: int, z: int)
    requires ValidLaneBytes(W) && 0 <= x < 5 && 0 <= z < W
    ensures 0 <= W * x + z < 5 * W
    ensures 0 <= 5 * W * 0 + W * x + z < 25 * W && 0 <= 5 * W * 1 + W * x + z < 25 * W
    ensures 0 <= 5 * W * 2 + W * x + z < 25 * W && 0 <= 5 * W * 3 + W * x + z < 25 * W
    ensures 0 <= 5 * W * 4 + W * x + z < 25 * W
  {
    RowIdx(W, x, z);
  }

  /** Byte W x + z of D after theta's second loop: byte z of D[x]. */
  lemma EffectRow(Cs: seq<byte>, W: int, x: int)
    requires ValidLaneBytes(W) && |Cs| == 5 * W && 0 <= x < 5
    ensures forall z | 0 <= z < W :: ThetaEffect(Cs, W)[W * x + z] == EffectByte(Cs, W, x, z)
  {
    forall z | 0 <= z < W
      ensures ThetaEffect(Cs, W)[W * x + z] == EffectByte(Cs, W, x, z)
    {
      RowIdx(W, x, z);
    }
  }

  /** Byte z of D[x] as theta's second loop computes it, and the bounds of
      the three indices it reads. */
  lemma EffectByteIs(Cs: seq<byte>, W: int, x: int, z: int)
    requires ValidLaneBytes(W) && |Cs| == 5 * W && 0 <= x < 5 && 0 <= z < W
    ensures 0 <= W * x + z < 5 * W
    ensures 0 <= W * ((x + 4) % 5) + z < 5 * W
    ensures 0 <= W * ((x + 1) % 5) + z < 5 * W
    ensures 0 <= W * ((x + 1) % 5) + (z + W - 1) % W < 5 * W
    ensures EffectByte(Cs, W, x, z)
         == Cs[W * ((x + 4) % 5) + z] ^ (Cs[W * ((x + 1) % 5) + z] << 1) ^ (Cs[W * ((x + 1) % 5) + (z + W - 1) % W] >> 7)
  {
    EffectBounds(W, x, z);
  }

  /** The indices theta's second loop reads and writes lie in a row buffer. */
  lemma EffectBounds(W: int, x: int, z: int)
    requires ValidLaneBytes(W) && 0 <= x < 5 && 0 <= z < W
    ensures 0 <= W * x + z < 5 * W
    ensures 0 <= W * ((x + 4) % 5) + z < 5 * W
    ensures 0 <= W * ((x + 1) % 5) + z < 5 * W
    ensures 0 <= W * ((x + 1) % 5) + (z + W - 1) % W < 5 * W
  {
    RowIdx(W, x, z);
    RowIdx(W, (x + 4) % 5, z);
    RowIdx(W, (x + 1) % 5, z);
    RowIdx(W, (x + 1) % 5, (z + W - 1) % W);
  }

  /** Byte Idx(W, x, y, z) after theta's third loop, as that loop computes it. */
  lemma XorRow(s: seq<byte>, Ds: seq<byte>, W: int, x: int, y: int, z: int)
    requires IsBytes(s, W) && |Ds| == 5 * W && InLane(W, x, y, z)
    ensures 0 <= 5 * W * y + W * x + z < 25 * W && 0 <= W * x + z < 5 * W
    ensures XorEffect(s, Ds, W)[5 * W * y + W * x + z] == s[5 * W * y + W * x + z] ^ Ds[W * x + z]
  {
    XorAt(s, Ds, W, x, y, z);
    RowIdx(W, x, z);
  }

  lemma XorAt(s: seq<byte>, Ds: seq<byte>, W: int, x: int, y: int, z: int)
    requires IsBytes(s, W) && |Ds| == 5 * W && InLane(W, x, y, z)
    ensures 0 <= Idx(W, x, y, z) < 25 * W
    ensures XorEffect(s, Ds, W)[Idx(W, x, y, z)] == s[Idx(W, x, y, z)] ^ RowByte(Ds, W, x, z)
  {
    IdxCoord(W, x, y, z);
  }

  /** The byte after lane (x, y) starts lane (x + 1, y). */
  lemma LaneCarry(W: int, x: int, y: int)
    ensures 5 * W * y + W * x + W == 5 * W * y + W * (x + 1)
  {
  }

  /** The byte after plane y starts plane y + 1. */
  lemma PlaneCarry(W: int, y: int)
    ensures 5 * W * y + W * 5 == 5 * W * (y + 1)
  {
  }

  /** Row x of theta's first loop: the z loop. */
  method ParityRowInto(cur: array<byte>, C: array<byte>, W: int, x: int, ghost CP: seq<byte>)
    requires ValidLaneBytes(W) && cur.Length == 25 * W && C.Length == 5 * W && C != cur && 0 <= x < 5
    requires Filled(C, CP, W * x) && |CP| == 5 * W
    requires forall z | 0 <= z < W :: CP[W * x + z] == ParityByte(cur[..], W, x, z)
    modifies C
    ensures Filled(C, CP, W * x + W)
  {
    var z := 0;
    while z < W
      invariant 0 <= z <= W && Filled(C, CP, W * x + z)
    {
      ParityByteIs(cur[..], W, x, z);
      ParityBounds(W, x, z);
      ParityCell(cur, C, W, x, z, CP);
      z := z + 1;
    }
  }

  /** One byte of theta's first loop: C[W x + z] is the XOR of byte z of
      the five lanes of column x. */
  method ParityCell(cur: array<byte>, C: array<byte>, W: int, x: int, z: int, ghost CP: seq<byte>)
    requires ValidLaneBytes(W) && cur.Length == 25 * W && C.Length == 5 * W && C != cur && 0 <= x < 5 && 0 <= z < W
    requires 0 <= W * x + z < 5 * W
    requires 0 <= 5 * W * 0 + W * x + z < 25 * W && 0 <= 5 * W * 1 + W * x + z < 25 * W
    requires 0 <= 5 * W * 2 + W * x + z < 25 * W && 0 <= 5 * W * 3 + W * x + z < 25 * W
    requires 0 <= 5 * W * 4 + W * x + z < 25 * W
    requires Filled(C, CP, W * x + z) && |CP| == 5 * W
    requires CP[W * x + z] == cur[5 * W * 0 + W * x + z] ^ cur[5 * W * 1 + W * x + z] ^ cur[5 * W * 2 + W * x + z]
                              ^ cur[5 * W * 3 + W * x + z] ^ cur[5 * W * 4 + W * x + z]
    modifies C
    ensures Filled(C, CP, W * x + z + 1)
  {
    C[W * x + z] := cur[5 * W * 0 + W * x + z] ^ cur[5 * W * 1 + W * x + z] ^ cur[5 * W * 2 + W * x + z]
                    ^ cur[5 * W * 3 + W * x + z] ^ cur[5 * W * 4 + W * x + z];
  }

  /** theta's first loop, over columns x. */
  method ParityInto(cur: array<byte>, C: array<byte>, W: int)
    requires ValidLaneBytes(W) && cur.Length == 25 * W && C.Length == 5 * W && C != cur
    modifies C
    ensures C[..] == ColumnParity(cur[..], W)
  {
    ghost var CP := ColumnParity(cur[..], W);
    var x := 0;
    while x < 5
      invariant 0 <= x <= 5 && Filled(C, CP, W * x)
    {
      ParityRow(cur[..], W, x);
      ParityRowInto(cur, C, W, x, CP);
      RowCarry(W, x);
      x := x + 1;
    }
    assert C[..] == CP;
  }

  /** Row x of theta's second loop: the z loop. */
  method EffectRowInto(C: array<byte>, D: array<byte>, W: int, x: int, ghost DE: seq<byte>)
    requires ValidLaneBytes(W) && C.Length == 5 * W && D.Length == 5 * W && C != D && 0 <= x < 5
    requires Filled(D, DE, W * x) && |DE| == 5 * W
    requires forall z | 0 <= z < W :: DE[W * x + z] == EffectByte(C[..], W, x, z)
    modifies D
    ensures Filled(D, DE, W * x + W)
  {
    var z := 0;
    while z < W
      invariant 0 <= z <= W && Filled(D, DE, W * x + z)
    {
      EffectByteIs(C[..], W, x, z);
      D[W * x + z] := C[W * ((x + 4) % 5) + z]
                      ^ (C[W * ((x + 1) % 5) + z] << 1)
                      ^ (C[W * ((x + 1) % 5) + (z + W - 1) % W] >> 7);
      z := z + 1;
    }
  }

  /** theta's second loop, over rows x. */
  method EffectInto(C: array<byte>, D: array<byte>, W: int)
    requires ValidLaneBytes(W) && C.Length == 5 * W && D.Length == 5 * W && C != D
    modifies D
    ensures D[..] == ThetaEffect(C[..], W)
  {
    ghost var DE := ThetaEffect(C[..], W);
    var x := 0;
    while x < 5
      invariant 0 <= x <= 5 && Filled(D, DE, W * x)
    {
      EffectRow(C[..], W, x);
      EffectRowInto(C, D, W, x, DE);
      RowCarry(W, x);
      x := x + 1;
    }
    assert D[..] == DE;
  }

  /** Lane (x, y) of theta's third loop: the z loop. */
  method XorEffectLane(cur: array<byte>, nxt: array<byte>, D: array<byte>, W: int, x: int, y: int, ghost T: seq<byte>)
    requires ValidLaneBytes(W) && cur.Length == 25 * W && nxt.Length == 25 * W && D.Length == 5 * W
    requires nxt != cur && nxt != D && 0 <= x < 5 && 0 <= y < 5
    requires T == XorEffect(cur[..], D[..], W) && Filled(nxt, T, 5 * W * y + W * x)
    modifies nxt
    ensures Filled(nxt, T, 5 * W * y + W * x + W)
  {
    var z := 0;
    while z < W
      invariant 0 <= z <= W && Filled(nxt, T, 5 * W * y + W * x + z)
    {
      XorRow(cur[..], D[..], W, x, y, z);
      nxt[5 * W * y + W * x + z] := cur[5 * W * y + W * x + z] ^ D[W * x + z];
      z := z + 1;
    }
  }

  /** theta's third loop, over planes y and lanes x. */
  method XorEffectInto(cur: array<byte>, nxt: array<byte>, D: array<byte>, W: int)
    requires ValidLaneBytes(W) && cur.Length == 25 * W && nxt.Length == 25 * W && D.Length == 5 * W
    requires nxt != cur && nxt != D
    modifies nxt
    ensures nxt[..] == XorEffect(cur[..], D[..], W)
  {
    ghost var T := XorEffect(cur[..], D[..], W);
    var y := 0;
    while y < 5
      invariant 0 <= y <= 5 && Filled(nxt, T, 5 * W * y)
    {
      var x := 0;
      while x < 5
        invariant 0 <= x <= 5 && Filled(nxt, T, 5 * W * y + W * x)
      {
        XorEffectLane(cur, nxt, D, W, x, y, T);
        LaneCarry(W, x, y);
        x := x + 1;
      }
      PlaneCarry(W, y);
      y := y + 1;
    }
    assert nxt[..] == T;
  }

  // ---- lanes written one at a time

  /** Lane (x, y) of a holds its target, and nothing outside it changed. */
  predicate LaneWritten(a: seq<byte>, a0: seq<byte>, T: seq<byte>, W: int, x: int, y: int)
  {
    |a| == 25 * W && |a0| == 25 * W && |T| == 25 * W
    && 0 <= 5 * W * y + W * x && 5 * W * y + W * x + W <= 25 * W
    && (forall i | 5 * W * y + W * x <= i < 5 * W * y + W * x + W :: a[i] == T[i])
    && (forall i | 0 <= i < 25 * W && !(5 * W * y + W * x <= i < 5 * W * y + W * x + W) :: a[i] == a0[i])
  }

  lemma LaneBounds(W: int, x: int, y: int)
    requires ValidLaneBytes(W) && 0 <= x < 5 && 0 <= y < 5
    ensures 0 <= 5 * W * y + W * x && 5 * W * y + W * x + W <= 25 * W
  {
    IdxBound(W, x, y, W - 1);
  }

  /** The lane a byte index falls in. */
  lemma LaneOfIndex(W: int, i: int)
    requires W > 0 && 0 <= i < 25 * W
    ensures 0 <= i / W < 25 && W * (i / W) <= i < W * (i / W) + W
  {
    MulCancelLt(i / W, 25, W);
  }

  /** Every index of lane m lies in lane m and in no other. */
  lemma InLaneRange(W: int, m: int, i: int)
    requires W > 0 && W * m <= i < W * m + W
    ensures i / W == m
  {
    DivModUnique(i, W, m, i - W * m);
  }

  /** Copy lane (x, y) of cur into nxt: the z loop of a copy. */
  method CopyLane(cur: array<byte>, nxt: array<byte>, W: int, x: int, y: int, ghost T: seq<byte>)
    requires ValidLaneBytes(W) && cur.Length == 25 * W && nxt.Length == 25 * W && nxt != cur
    requires 0 <= x < 5 && 0 <= y < 5 && |T| == 25 * W
    requires forall i | 5 * W * y + W * x <= i < 5 * W * y + W * x + W :: T[i] == cur[i]
    modifies nxt
    ensures LaneWritten(nxt[..], old(nxt[..]), T, W, x, y)
  {
    LaneBounds(W, x, y);
    var z := 0;
    while z < W
      invariant 0 <= z <= W
      invariant forall i | 5 * W * y + W * x <= i < 5 * W * y + W * x + z :: nxt[i] == T[i]
      invariant forall i | 0 <= i < 25 * W && !(5 * W * y + W * x <= i < 5 * W * y + W * x + z) :: nxt[i] == old(nxt[i])
    {
      nxt[5 * W * y + W * x + z] := cur[5 * W * y + W * x + z];
      z := z + 1;
    }
  }

  // ---- rho

  /** Whether rho has written byte i once its walk has done t steps: lane
      (2, 2) is written before the walk, lane Walk[u] at step u. */
  predicate Visited(i: int, W: int, t: int)
    requires W > 0
  {
    var m := i / W;
    0 <= m < 25 && WalkIndex(m % 5, m / 5) < t
  }

  predicate RhoDone(a: seq<byte>, T: seq<byte>, W: int, t: int)
    requires W > 0
  {
    |a| == 25 * W && |T| == 25 * W
    && forall i | 0 <= i < 25 * W && Visited(i, W, t) :: a[i] == T[i]
  }

  /** WalkIndex numbers the walk: the lane the walk visits at step t has
      number t, and the lane numbered t is the lane visited at step t. */
  lemma WalkNumbered(t: int)
    requires 0 <= t < 24
    ensures 0 <= Walk[t].0 < 5 && 0 <= Walk[t].1 < 5 && WalkIndex(Walk[t].0, Walk[t].1) == t
  {
  }

  lemma WalkIndexInverse(x: int, y: int)
    requires 0 <= x < 5 && 0 <= y < 5 && !(x == 2 && y == 2)
    ensures 0 <= WalkIndex(x, y) < 24 && Walk[WalkIndex(x, y)] == (x, y)
  {
  }

  /** The source's update (x, y) <- (y, (2(x + 3) + 3(y + 3) + 2) % 5) steps
      along the walk, which never visits lane (2, 2). */
  lemma WalkNext(t: int, x: int, y: int)
    requires 0 <= t < 24 && (x, y) == Walk[t]
    ensures !(x == 2 && y == 2)
    ensures t + 1 < 24 ==> (y, (2 * (x + 3) + 3 * (y + 3) + 2) % 5) == Walk[t + 1]
  {
  }

  /** After lane (2, 2) is copied, rho's bookkeeping holds at step 0. */
  lemma RhoStart(a: seq<byte>, a0: seq<byte>, T: seq<byte>, W: int)
    requires ValidLaneBytes(W) && LaneWritten(a, a0, T, W, 2, 2)
    ensures RhoDone(a, T, W, 0)
  {
    forall i | 0 <= i < 25 * W && Visited(i, W, 0)
      ensures a[i] == T[i]
    {
      LaneOfIndex(W, i);
      var m := i / W;
      if m != 12 {
        WalkIndexInverse(m % 5, m / 5);
        assert false;
      }
      var z := i - (5 * W * 2 + W * 2);
      assert 0 <= z < W && i == 5 * W * 2 + W * 2 + z;
    }
  }

  /** Writing lane Walk[t] moves rho's bookkeeping from step t to t + 1. */
  lemma RhoStep(a: seq<byte>, a0: seq<byte>, T: seq<byte>, W: int, t: int, x: int, y: int)
    requires ValidLaneBytes(W) && 0 <= t < 24 && (x, y) == Walk[t]
    requires RhoDone(a0, T, W, t) && LaneWritten(a, a0, T, W, x, y)
    ensures RhoDone(a, T, W, t + 1)
  {
    forall i | 0 <= i < 25 * W && Visited(i, W, t + 1)
      ensures a[i] == T[i]
    {
      if !(5 * W * y + W * x <= i < 5 * W * y + W * x + W) {
        RhoStepOutside(W, t, x, y, i);
      }
    }
  }

  /** A byte outside lane Walk[t] that is visited by step t + 1 was
      already visited by step t. */
  lemma RhoStepOutside(W: int, t: int, x: int, y: int, i: int)
    requires ValidLaneBytes(W) && 0 <= t < 24 && (x, y) == Walk[t]
    requires 0 <= i < 25 * W && Visited(i, W, t + 1)
    requires !(5 * W * y + W * x <= i < 5 * W * y + W * x + W)
    ensures Visited(i, W, t)
  {
    WalkNumbered(t);
    LaneOfIndex(W, i);
    var m := i / W;
    IdxLaneNumber(W, x, y, 0);
    assert m != 5 * y + x;
    if m != 12 {
      WalkIndexInverse(m % 5, m / 5);
    }
  }

  /** After 24 steps every lane has been written. */
  lemma RhoFinish(a: seq<byte>, T: seq<byte>, W: int)
    requires ValidLaneBytes(W) && RhoDone(a, T, W, 24)
    ensures a == T
  {
    forall i | 0 <= i < 25 * W
      ensures a[i] == T[i]
    {
      LaneOfIndex(W, i);
      var m := i / W;
      if m != 12 {
        WalkIndexInverse(m % 5, m / 5);
      }
    }
  }

  /** Byte z of lane (x, y) after rho, as rho's z loop computes it. */
  lemma RotatedCell(s: seq<byte>, W: int, x: int, y: int, z: int, off: nat, byteShift: int, bitShift: bv8,
                    src: int, below: int)
    requires IsBytes(s, W) && InLane(W, x, y, z)
    requires byteShift == off / 8 && bitShift == ShiftAmount(off % 8)
    requires src == (z + W - byteShift % W) % W && below == (src + W - 1) % W
    ensures 0 <= 5 * W * y + W * x + src < 25 * W && 0 <= 5 * W * y + W * x + below < 25 * W
    ensures RotatedByte(s, W, x, y, z, off)
         == (s[5 * W * y + W * x + src] << bitShift) | (s[5 * W * y + W * x + below] >> (8 - bitShift))
  {
    IdxBound(W, x, y, src);
    IdxBound(W, x, y, below);
  }

  /** Lane (x, y) of rho: byte z is the lane rotated left by off bits. */
  method RotateLane(cur: array<byte>, nxt: array<byte>, W: int, x: int, y: int, off: nat,
                    byteShift: int, bitShift: bv8, ghost T: seq<byte>)
    requires ValidLaneBytes(W) && cur.Length == 25 * W && nxt.Length == 25 * W && nxt != cur
    requires 0 <= x < 5 && 0 <= y < 5 && |T| == 25 * W
    requires byteShift == off / 8 && bitShift == ShiftAmount(off % 8)
    requires forall z | 0 <= z < W :: T[5 * W * y + W * x + z] == RotatedByte(cur[..], W, x, y, z, off)
    modifies nxt
    ensures LaneWritten(nxt[..], old(nxt[..]), T, W, x, y)
  {
    LaneBounds(W, x, y);
    var z := 0;
    while z < W
      invariant 0 <= z <= W
      invariant forall i | 5 * W * y + W * x <= i < 5 * W * y + W * x + z :: nxt[i] == T[i]
      invariant forall i | 0 <= i < 25 * W && !(5 * W * y + W * x <= i < 5 * W * y + W * x + z) :: nxt[i] == old(nxt[i])
    {
      var src := (z + W - byteShift % W) % W;
      var below := (src + W - 1) % W;
      RotatedCell(cur[..], W, x, y, z, off, byteShift, bitShift, src, below);
      RotateCell(cur, nxt, W, x, y, z, bitShift, src, below, T);
      z := z + 1;
    }
  }

  /** One byte of rho's z loop: the source byte shifted left, with the top
      bits of the byte below it carried in. */
  method RotateCell(cur: array<byte>, nxt: array<byte>, W: int, x: int, y: int, z: int,
                    bitShift: bv8, src: int, below: int, ghost T: seq<byte>)
    requires cur.Length == 25 * W && nxt.Length == 25 * W && nxt != cur && |T| == 25 * W && bitShift < 8
    requires 0 <= 5 * W * y + W * x + z < 25 * W
    requires 0 <= 5 * W * y + W * x + src < 25 * W && 0 <= 5 * W * y + W * x + below < 25 * W
    requires T[5 * W * y + W * x + z]
          == (cur[5 * W * y + W * x + src] << bitShift) | (cur[5 * W * y + W * x + below] >> (8 - bitShift))
    modifies nxt
    ensures nxt[..] == old(nxt[..])[5 * W * y + W * x + z := T[5 * W * y + W * x + z]]
  {
    var hi := cur[5 * W * y + W * x + src] << bitShift;
    var lo := cur[5 * W * y + W * x + below] >> (8 - bitShift);
    nxt[5 * W * y + W * x + z] := hi | lo;
  }

  /** The target of lane (2, 2): rho copies it. */
  lemma RhoCopyTarget(s: seq<byte>, W: int)
    requires IsBytes(s, W)
    ensures forall i | 5 * W * 2 + W * 2 <= i < 5 * W * 2 + W * 2 + W :: Rho(s, W)[i] == s[i]
  {
    forall i | 5 * W * 2 + W * 2 <= i < 5 * W * 2 + W * 2 + W
      ensures Rho(s, W)[i] == s[i]
    {
      RhoCopyByte(s, W, i - (5 * W * 2 + W * 2));
    }
  }

  lemma RhoCopyByte(s: seq<byte>, W: int, z: int)
    requires IsBytes(s, W) && 0 <= z < W
    ensures 0 <= 5 * W * 2 + W * 2 + z < 25 * W
    ensures Rho(s, W)[5 * W * 2 + W * 2 + z] == s[5 * W * 2 + W * 2 + z]
  {
    IdxBound(W, 2, 2, z);
    KeccakFips.RhoByteAt(s, W, 2, 2, z);
  }

  /** The target of lane Walk[t]: rotated by the t-th triangular number. */
  lemma RhoRotateTarget(s: seq<byte>, W: int, t: int, x: int, y: int, off: nat)
    requires IsBytes(s, W) && 0 <= t < 24 && (x, y) == Walk[t] && off == Triangular(t)
    ensures forall z | 0 <= z < W :: Rho(s, W)[5 * W * y + W * x + z] == RotatedByte(s, W, x, y, z, off)
  {
    forall z | 0 <= z < W
      ensures Rho(s, W)[5 * W * y + W * x + z] == RotatedByte(s, W, x, y, z, off)
    {
      RhoRotateByte(s, W, t, x, y, z, off);
    }
  }

  lemma RhoRotateByte(s: seq<byte>, W: int, t: int, x: int, y: int, z: int, off: nat)
    requires IsBytes(s, W) && 0 <= t < 24 && (x, y) == Walk[t] && off == Triangular(t) && 0 <= z < W
    ensures 0 <= x < 5 && 0 <= y < 5 && 0 <= 5 * W * y + W * x + z < 25 * W
    ensures Rho(s, W)[5 * W * y + W * x + z] == RotatedByte(s, W, x, y, z, off)
  {
    WalkNumbered(t);
    WalkNext(t, x, y);
    IdxBound(W, x, y, z);
    KeccakFips.RhoByteAt(s, W, x, y, z);
  }

  /** rho: lane (2, 2) copied, then the 24 other lanes along the walk, each
      rotated by (t + 1)(t + 2)/2 bits. */
  method RhoInto(cur: array<byte>, nxt: array<byte>, W: int)
    requires ValidLaneBytes(W) && cur.Length == 25 * W && nxt.Length == 25 * W && nxt != cur
    modifies nxt
    ensures nxt[..] == Rho(cur[..], W)
  {
    ghost var T := Rho(cur[..], W);
    ghost var a0 := nxt[..];
    RhoCopyTarget(cur[..], W);
    CopyLane(cur, nxt, W, 2, 2, T);
    RhoStart(nxt[..], a0, T, W);
    var x, y := 3, 2;
    var t := 0;
    while t < 24
      invariant 0 <= t <= 24 && 0 <= x < 5 && 0 <= y < 5
      invariant t < 24 ==> (x, y) == Walk[t]
      invariant RhoDone(nxt[..], T, W, t)
    {
      var off := (t + 1) * (t + 2) / 2;
      var byteShift := off / 8;
      var bitShift := ShiftAmount(off % 8);
      RhoRotateTarget(cur[..], W, t, x, y, off);
      ghost var before := nxt[..];
      RotateLane(cur, nxt, W, x, y, off, byteShift, bitShift, T);
      RhoStep(nxt[..], before, T, W, t, x, y);
      WalkNext(t, x, y);
      var a := x;
      x := y;
      y := (2 * (a + 3) + 3 * (y + 3) + 2) % 5;
      t := t + 1;
    }
    RhoFinish(nxt[..], T, W);
  }

  // ---- pi, chi and the copy: the y, x, z loops

  /** Byte z of lane (x, y) after pi, as pi's loop reads it. */
  lemma PiCell(s: seq<byte>, W: int, x: int, y: int, z: int)
    requires IsBytes(s, W) && InLane(W, x, y, z)
    ensures 0 <= 5 * W * y + W * x + z < 25 * W
    ensures 0 <= 5 * W * x + W * ((3 * (y + 3) + x + 3 + 2) % 5) + z < 25 * W
    ensures Pi(s, W)[5 * W * y + W * x + z] == s[5 * W * x + W * ((3 * (y + 3) + x + 3 + 2) % 5) + z]
  {
    IdxBound(W, x, y, z);
    IdxBound(W, PiSource(x, y), x, z);
    KeccakFips.PiByteAt(s, W, x, y, z);
  }

  /** Lane (x, y) of pi: the z loop. */
  method PiLane(cur: array<byte>, nxt: array<byte>, W: int, x: int, y: int, ghost T: seq<byte>)
    requires ValidLaneBytes(W) && cur.Length == 25 * W && nxt.Length == 25 * W && nxt != cur
    requires 0 <= x < 5 && 0 <= y < 5
    requires T == Pi(cur[..], W) && Filled(nxt, T, 5 * W * y + W * x)
    modifies nxt
    ensures Filled(nxt, T, 5 * W * y + W * x + W)
  {
    var z := 0;
    while z < W
      invariant 0 <= z <= W && Filled(nxt, T, 5 * W * y + W * x + z)
    {
      PiCell(cur[..], W, x, y, z);
      PiWrite(cur, nxt, W, x, y, z, T);
      z := z + 1;
    }
  }

  /** One byte of pi's loop: a copy from the source lane. */
  method PiWrite(cur: array<byte>, nxt: array<byte>, W: int, x: int, y: int, z: int, ghost T: seq<byte>)
    requires cur.Length == 25 * W && nxt.Length == 25 * W && nxt != cur
    requires 0 <= 5 * W * y + W * x + z < 25 * W
    requires 0 <= 5 * W * x + W * ((3 * (y + 3) + x + 3 + 2) % 5) + z < 25 * W
    requires Filled(nxt, T, 5 * W * y + W * x + z) && |T| == 25 * W
    requires T[5 * W * y + W * x + z] == cur[5 * W * x + W * ((3 * (y + 3) + x + 3 + 2) % 5) + z]
    modifies nxt
    ensures Filled(nxt, T, 5 * W * y + W * x + z + 1)
  {
    nxt[5 * W * y + W * x + z] := cur[5 * W * x + W * ((3 * (y + 3) + x + 3 + 2) % 5) + z];
  }

  /** pi: internal lane (x, y) gets internal lane (PiSource(x, y), x). */
  method PiInto(cur: array<byte>, nxt: array<byte>, W: int)
    requires ValidLaneBytes(W) && cur.Length == 25 * W && nxt.Length == 25 * W && nxt != cur
    modifies nxt
    ensures nxt[..] == Pi(cur[..], W)
  {
    ghost var T := Pi(cur[..], W);
    var y := 0;
    while y < 5
      invariant 0 <= y <= 5 && Filled(nxt, T, 5 * W * y)
    {
      var x := 0;
      while x < 5
        invariant 0 <= x <= 5 && Filled(nxt, T, 5 * W * y + W * x)
      {
        PiLane(cur, nxt, W, x, y, T);
        LaneCarry(W, x, y);
        x := x + 1;
      }
      PlaneCarry(W, y);
      y := y + 1;
    }
    assert nxt[..] == T;
  }

  /** Byte z of lane (x, y) after chi, as chi's loop reads it. */
  lemma ChiCell(s: seq<byte>, W: int, x: int, y: int, z: int)
    requires IsBytes(s, W) && InLane(W, x, y, z)
    ensures 0 <= 5 * W * y + W * x + z < 25 * W
    ensures 0 <= 5 * W * y + W * ((x + 1) % 5) + z < 25 * W
    ensures 0 <= 5 * W * y + W * ((x + 2) % 5) + z < 25 * W
    ensures Chi(s, W)[5 * W * y + W * x + z]
         == s[5 * W * y + W * x + z]
            ^ ((0xff ^ s[5 * W * y + W * ((x + 1) % 5) + z]) & s[5 * W * y + W * ((x + 2) % 5) + z])
  {
    IdxBound(W, x, y, z);
    IdxBound(W, (x + 1) % 5, y, z);
    IdxBound(W, (x + 2) % 5, y, z);
    KeccakFips.ChiByteAt(s, W, x, y, z);
  }

  /** Lane (x, y) of chi: the z loop. */
  method ChiLane(cur: array<byte>, nxt: array<byte>, W: int, x: int, y: int, ghost T: seq<byte>)
    requires ValidLaneBytes(W) && cur.Length == 25 * W && nxt.Length == 25 * W && nxt != cur
    requires 0 <= x < 5 && 0 <= y < 5
    requires T == Chi(cur[..], W) && Filled(nxt, T, 5 * W * y + W * x)
    modifies nxt
    ensures Filled(nxt, T, 5 * W * y + W * x + W)
  {
    var z := 0;
    while z < W
      invariant 0 <= z <= W && Filled(nxt, T, 5 * W * y + W * x + z)
    {
      ChiCell(cur[..], W, x, y, z);
      ChiWrite(cur, nxt, W, x, y, z, T);
      z := z + 1;
    }
  }

  /** One byte of chi's loop: a ^ (~b & c). */
  method ChiWrite(cur: array<byte>, nxt: array<byte>, W: int, x: int, y: int, z: int, ghost T: seq<byte>)
    requires cur.Length == 25 * W && nxt.Length == 25 * W && nxt != cur
    requires 0 <= 5 * W * y + W * x + z < 25 * W
    requires 0 <= 5 * W * y + W * ((x + 1) % 5) + z < 25 * W
    requires 0 <= 5 * W * y + W * ((x + 2) % 5) + z < 25 * W
    requires Filled(nxt, T, 5 * W * y + W * x + z) && |T| == 25 * W
    requires T[5 * W * y + W * x + z]
          == cur[5 * W * y + W * x + z]
             ^ ((0xff ^ cur[5 * W * y + W * ((x + 1) % 5) + z]) & cur[5 * W * y + W * ((x + 2) % 5) + z])
    modifies nxt
    ensures Filled(nxt, T, 5 * W * y + W * x + z + 1)
  {
    nxt[5 * W * y + W * x + z] := cur[5 * W * y + W * x + z]
      ^ ((0xff ^ cur[5 * W * y + W * ((x + 1) % 5) + z]) & cur[5 * W * y + W * ((x + 2) % 5) + z]);
  }

  /** chi: every byte combined with the same byte of the next two lanes of
      its row. */
  method ChiInto(cur: array<byte>, nxt: array<byte>, W: int)
    requires ValidLaneBytes(W) && cur.Length == 25 * W && nxt.Length == 25 * W && nxt != cur
    modifies nxt
    ensures nxt[..] == Chi(cur[..], W)
  {
    ghost var T := Chi(cur[..], W);
    var y := 0;
    while y < 5
      invariant 0 <= y <= 5 && Filled(nxt, T, 5 * W * y)
    {
      var x := 0;
      while x < 5
        invariant 0 <= x <= 5 && Filled(nxt, T, 5 * W * y + W * x)
      {
        ChiLane(cur, nxt, W, x, y, T);
        LaneCarry(W, x, y);
        x := x + 1;
      }
      PlaneCarry(W, y);
      y := y + 1;
    }
    assert nxt[..] == T;
  }

  /** Lane (x, y) of iota's copy loop. */
  method CopyLaneFilled(cur: array<byte>, nxt: array<byte>, W: int, x: int, y: int)
    requires ValidLaneBytes(W) && cur.Length == 25 * W && nxt.Length == 25 * W && nxt != cur
    requires 0 <= x < 5 && 0 <= y < 5 && Filled(nxt, cur[..], 5 * W * y + W * x)
    modifies nxt
    ensures Filled(nxt, cur[..], 5 * W * y + W * x + W)
  {
    LaneBounds(W, x, y);
    var z := 0;
    while z < W
      invariant 0 <= z <= W && Filled(nxt, cur[..], 5 * W * y + W * x + z)
    {
      nxt[5 * W * y + W * x + z] := cur[5 * W * y + W * x + z];
      z := z + 1;
    }
  }

  /** iota's first loop: the whole state copied. */
  method CopyInto(cur: array<byte>, nxt: array<byte>, W: int)
    requires ValidLaneBytes(W) && cur.Length == 25 * W && nxt.Length == 25 * W && nxt != cur
    modifies nxt
    ensures nxt[..] == cur[..]
  {
    var y := 0;
    while y < 5
      invariant 0 <= y <= 5 && Filled(nxt, cur[..], 5 * W * y)
    {
      var x := 0;
      while x < 5
        invariant 0 <= x <= 5 && Filled(nxt, cur[..], 5 * W * y + W * x)
      {
        CopyLaneFilled(cur, nxt, W, x, y);
        LaneCarry(W, x, y);
        x := x + 1;
      }
      PlaneCarry(W, y);
      y := y + 1;
    }
    assert nxt[..] == cur[..];
  }

  // ---- rc and iota

  /** rc(t) with the reduction t mod 255 of Algorithm 5 of FIPS 202: 1 when
      that is 0, otherwise bit 0 of the register after t mod 255 - 1 steps
      from 0x80. */
  method Rc(t: int) returns (r: byte)
    ensures r == RcByte(t)
  {
    var u := t % 255;
    if u == 0 {
      return 1;
    }
    var a: bv16 := 0x80;
    var s := 1;
    while s < u
      invariant 1 <= s <= u && a == Lfsr(s - 1)
    {
      a := LfsrStep(a);
      s := s + 1;
    }
    r := (a & 1) as byte;
  }

  /** Bit position 2^j - 1 of the lane, for j <= l, falls in byte (2^j - 1) / 8 < W. */
  lemma IotaPosition(W: int, j: nat, pos: int)
    requires ValidLaneBytes(W) && j <= LaneLog(W) && pos == Pow2(j) - 1
    ensures 0 <= pos / 8 < W && 0 <= 5 * W * 2 + W * 2 + pos / 8 < 25 * W
  {
    Pow2MonotoneLe(j, LaneLog(W));
  }

  /** The state after the copy and jn iterations of iota's second loop:
      every byte of lane (2, 2) XORed with what RcContribution says the
      first jn iterations XOR into it, every other byte the copied one. */
  function IotaSoFar(s: seq<byte>, W: int, ir: int, jn: nat): (a: seq<byte>)
    requires W > 0 && |s| == 25 * W
    ensures |a| == 25 * W
  {
    seq(25 * W, i requires 0 <= i < 25 * W => IotaSoFarByte(s, W, ir, jn, i))
  }

  function IotaSoFarByte(s: seq<byte>, W: int, ir: int, jn: nat, i: int): byte
    requires 0 <= i < |s|
  {
    if 5 * W * 2 + W * 2 <= i < 5 * W * 2 + W * 3 then s[i] ^ RcContribution(ir, i - (5 * W * 2 + W * 2), jn)
    else s[i]
  }

  /** Iteration j of the loop XORs rc(j + 7 ir), shifted to bit position
      pos = 2^j - 1, into byte k of lane (2, 2), the byte holding pos. */
  lemma IotaSoFarNext(s: seq<byte>, W: int, ir: int, j: nat, pos: int, term: byte, k: int)
    requires W > 0 && |s| == 25 * W
    requires pos == Pow2(j) - 1 && 0 <= pos / 8 < W && term == RcByte(j + 7 * ir) << ShiftAmount(pos % 8)
    requires k == 5 * W * 2 + W * 2 + pos / 8 && 0 <= k < 25 * W
    ensures IotaSoFar(s, W, ir, j + 1) == IotaSoFar(s, W, ir, j)[k := IotaSoFar(s, W, ir, j)[k] ^ term]
  {
    var a0 := IotaSoFar(s, W, ir, j);
    var a1 := IotaSoFar(s, W, ir, j + 1);
    forall i | 0 <= i < 25 * W
      ensures a1[i] == a0[k := a0[k] ^ term][i]
    {
      IotaSoFarNextAt(s, W, ir, j, pos, term, k, i, a0);
    }
  }

  lemma IotaSoFarNextAt(s: seq<byte>, W: int, ir: int, j: nat, pos: int, term: byte, k: int, i: int, a0: seq<byte>)
    requires W > 0 && |s| == 25 * W && 0 <= i < 25 * W
    requires pos == Pow2(j) - 1 && 0 <= pos / 8 < W && term == RcByte(j + 7 * ir) << ShiftAmount(pos % 8)
    requires k == 5 * W * 2 + W * 2 + pos / 8 && 0 <= k < 25 * W && a0 == IotaSoFar(s, W, ir, j)
    ensures IotaSoFar(s, W, ir, j + 1)[i] == a0[k := a0[k] ^ term][i]
  {
    IotaSoFarAt(s, W, ir, j, i);
    IotaSoFarAt(s, W, ir, j + 1, i);
    if i == k {
      IotaSoFarHit(s, W, ir, j, pos, term, k);
    } else {
      IotaSoFarMiss(s, W, ir, j, pos, term, k, i);
    }
  }

  lemma IotaSoFarAt(s: seq<byte>, W: int, ir: int, jn: nat, i: int)
    requires W > 0 && |s| == 25 * W && 0 <= i < 25 * W
    ensures IotaSoFar(s, W, ir, jn)[i] == IotaSoFarByte(s, W, ir, jn, i)
  {
  }

  /** The byte iteration j writes gains the term ... */
  lemma IotaSoFarHit(s: seq<byte>, W: int, ir: int, j: nat, pos: int, term: byte, k: int)
    requires W > 0 && |s| == 25 * W
    requires pos == Pow2(j) - 1 && 0 <= pos / 8 < W && term == RcByte(j + 7 * ir) << ShiftAmount(pos % 8)
    requires k == 5 * W * 2 + W * 2 + pos / 8 && 0 <= k < 25 * W
    ensures IotaSoFarByte(s, W, ir, j + 1, k) == IotaSoFarByte(s, W, ir, j, k) ^ term
  {
    var z := pos / 8;
    var c0 := RcContribution(ir, z, j);
    var c1 := RcContribution(ir, z, j + 1);
    IotaSoFarByteIn(s, W, ir, j, k, z);
    IotaSoFarByteIn(s, W, ir, j + 1, k, z);
    ContributionHit(ir, j, pos, term, z, c0, c1);
    XorHit(s[k], c0, term);
  }

  lemma IotaSoFarByteIn(s: seq<byte>, W: int, ir: int, jn: nat, i: int, z: int)
    requires 0 <= i < |s| && z == i - (5 * W * 2 + W * 2) && 0 <= z < W
    ensures IotaSoFarByte(s, W, ir, jn, i) == s[i] ^ RcContribution(ir, z, jn)
  {
  }

  /** ... and every other byte stays as it was. */
  lemma IotaSoFarMiss(s: seq<byte>, W: int, ir: int, j: nat, pos: int, term: byte, k: int, i: int)
    requires W > 0 && |s| == 25 * W && 0 <= i < 25 * W
    requires pos == Pow2(j) - 1 && 0 <= pos / 8 < W && term == RcByte(j + 7 * ir) << ShiftAmount(pos % 8)
    requires k == 5 * W * 2 + W * 2 + pos / 8 && i != k
    ensures IotaSoFarByte(s, W, ir, j + 1, i) == IotaSoFarByte(s, W, ir, j, i)
  {
    if 5 * W * 2 + W * 2 <= i < 5 * W * 2 + W * 3 {
      var z := i - (5 * W * 2 + W * 2);
      ContributionMiss(ir, j, pos, term, z, RcContribution(ir, z, j), RcContribution(ir, z, j + 1));
    }
  }

  /** Iteration j XORs term into the byte holding bit position pos ... */
  lemma ContributionHit(ir: int, j: nat, pos: int, term: byte, z: int, c0: byte, c1: byte)
    requires pos == Pow2(j) - 1 && term == RcByte(j + 7 * ir) << ShiftAmount(pos % 8) && z == pos / 8
    requires c0 == RcContribution(ir, z, j) && c1 == RcContribution(ir, z, j + 1)
    ensures c1 == c0 ^ term
  {
    KeccakFips.RcContributionNext(ir, z, j);
    RcTermAt(ir, j, z, pos, term);
  }

  /** ... and nothing into any other byte. */
  lemma ContributionMiss(ir: int, j: nat, pos: int, term: byte, z: int, c0: byte, c1: byte)
    requires pos == Pow2(j) - 1 && term == RcByte(j + 7 * ir) << ShiftAmount(pos % 8) && z != pos / 8
    requires c0 == RcContribution(ir, z, j) && c1 == RcContribution(ir, z, j + 1)
    ensures c1 == c0
  {
    KeccakFips.RcContributionNext(ir, z, j);
    RcTermAt(ir, j, z, pos, term);
    XorZero(c0);
  }

  /** What iteration j XORs into byte z: the shifted rc bit in the byte
      holding bit position pos, nothing elsewhere. */
  lemma RcTermAt(ir: int, j: nat, z: int, pos: int, term: byte)
    requires pos == Pow2(j) - 1 && term == RcByte(j + 7 * ir) << ShiftAmount(pos % 8)
    ensures RcTerm(ir, j, z) == if z == pos / 8 then term else 0
  {
  }

  lemma XorHit(v: byte, c: byte, t: byte)
    ensures (v ^ c) ^ t == v ^ (c ^ t)
  {
  }

  lemma XorZero(v: byte)
    ensures v == v ^ 0
  {
  }

  /** Before the second loop nothing has been XORed in ... */
  lemma IotaStart(s: seq<byte>, W: int, ir: int)
    requires W > 0 && |s| == 25 * W
    ensures IotaSoFar(s, W, ir, 0) == s
  {
    forall i | 0 <= i < 25 * W
      ensures IotaSoFar(s, W, ir, 0)[i] == s[i]
    {
      IotaSoFarAt(s, W, ir, 0, i);
      XorZero(s[i]);
    }
  }

  /** ... and after l + 1 iterations lane (2, 2) carries the whole round
      constant. */
  lemma IotaDone(s: seq<byte>, W: int, ir: int)
    requires ValidLaneBytes(W) && |s| == 25 * W
    ensures IotaSoFar(s, W, ir, LaneLog(W) + 1) == Iota(s, W, ir)
  {
    var jn := LaneLog(W) + 1;
    forall i | 0 <= i < 25 * W
      ensures IotaSoFar(s, W, ir, jn)[i] == Iota(s, W, ir)[i]
    {
      IotaDoneAt(s, W, ir, jn, i);
    }
  }

  lemma IotaDoneAt(s: seq<byte>, W: int, ir: int, jn: nat, i: int)
    requires ValidLaneBytes(W) && |s| == 25 * W && jn == LaneLog(W) + 1 && 0 <= i < 25 * W
    ensures IotaSoFar(s, W, ir, jn)[i] == Iota(s, W, ir)[i]
  {
    IotaSoFarAt(s, W, ir, jn, i);
    if 5 * W * 2 + W * 2 <= i < 5 * W * 2 + W * 3 {
      KeccakFips.IotaByteIn(s, W, ir, i);
    } else {
      KeccakFips.IotaByteOut(s, W, ir, i);
    }
  }

  /** iota: the state copied, then bit 2^j - 1 of lane (2, 2) XORed with
      rc(j + 7 ir) for j = 0 .. l. */
  method IotaInto(cur: array<byte>, nxt: array<byte>, W: int, ir: int)
    requires ValidLaneBytes(W) && cur.Length == 25 * W && nxt.Length == 25 * W && nxt != cur
    modifies nxt
    ensures nxt[..] == Iota(cur[..], W, ir)
  {
    ghost var c := cur[..];
    CopyInto(cur, nxt, W);
    IotaStart(c, W, ir);
    IotaBits(nxt, W, ir, c);
    IotaDone(c, W, ir);
  }

  /** nxt holds the state after iota's copy and its first j iterations. */
  ghost predicate IotaReached(a: seq<byte>, c: seq<byte>, W: int, ir: int, j: nat)
  {
    ValidLaneBytes(W) && |c| == 25 * W && j <= LaneLog(W) + 1 && a == IotaSoFar(c, W, ir, j)
  }

  /** iota's second loop, j = 0 .. l. */
  method IotaBits(nxt: array<byte>, W: int, ir: int, ghost c: seq<byte>)
    requires IotaReached(nxt[..], c, W, ir, 0)
    modifies nxt
    ensures IotaReached(nxt[..], c, W, ir, LaneLog(W) + 1)
  {
    var j := 0;
    while j < LaneLog(W) + 1
      invariant IotaReached(nxt[..], c, W, ir, j)
    {
      IotaBit(nxt, W, ir, j, c);
      j := j + 1;
    }
  }

  /** Iteration j of iota's second loop. */
  method IotaBit(nxt: array<byte>, W: int, ir: int, j: nat, ghost c: seq<byte>)
    requires IotaReached(nxt[..], c, W, ir, j) && j <= LaneLog(W)
    modifies nxt
    ensures IotaReached(nxt[..], c, W, ir, j + 1)
  {
    var pos := Pow2(j) - 1;
    IotaPosition(W, j, pos);
    var term := RcShifted(ir, j, pos);
    IotaSoFarNext(c, W, ir, j, pos, term, 5 * W * 2 + W * 2 + pos / 8);
    IotaWrite(nxt, W, pos, term, IotaSoFar(c, W, ir, j));
  }

  /** rc(j + 7 ir) moved to bit pos % 8 of its byte. */
  method RcShifted(ir: int, j: nat, pos: int) returns (term: byte)
    requires pos == Pow2(j) - 1
    ensures term == RcByte(j + 7 * ir) << ShiftAmount(pos % 8)
  {
    var r := Rc(j + 7 * ir);
    term := r << ShiftAmount(pos % 8);
  }

  /** One iteration of iota's second loop: the shifted bit term XORed into
      the byte of lane (2, 2) holding bit position pos. */
  method IotaWrite(nxt: array<byte>, W: int, pos: int, term: byte, ghost a: seq<byte>)
    requires nxt.Length == 25 * W && 0 <= 5 * W * 2 + W * 2 + pos / 8 < 25 * W && nxt[..] == a
    modifies nxt
    ensures nxt[..] == a[5 * W * 2 + W * 2 + pos / 8 := a[5 * W * 2 + W * 2 + pos / 8] ^ term]
  {
    nxt[5 * W * 2 + W * 2 + pos / 8] := nxt[5 * W * 2 + W * 2 + pos / 8] ^ term;
  }

  // ---- the shift into and out of the internal coordinates

  /** The first k bytes of c have been stored at their shifted places in a. */
  predicate Scattered(a: seq<byte>, c: seq<byte>, W: int, k: int)
    requires W > 0
  {
    |a| == 25 * W && |c| == 25 * W && 0 <= k <= 25 * W
    && forall i | 0 <= i < k :: 0 <= ShiftIdx(i, W) < 25 * W && a[ShiftIdx(i, W)] == c[i]
  }

  lemma ScatterStep(a: seq<byte>, a': seq<byte>, c: seq<byte>, W: int, k: int)
    requires W > 0 && Scattered(a, c, W, k) && k < 25 * W
    requires 0 <= ShiftIdx(k, W) < 25 * W && a' == a[ShiftIdx(k, W) := c[k]]
    ensures Scattered(a', c, W, k + 1)
  {
    forall i | 0 <= i < k
      ensures ShiftIdx(i, W) != ShiftIdx(k, W)
    {
      ShiftIdxInverse(i, W);
      ShiftIdxInverse(k, W);
    }
  }

  lemma ScatterDone(a: seq<byte>, c: seq<byte>, W: int)
    requires ValidLaneBytes(W) && Scattered(a, c, W, 25 * W)
    ensures a == ShiftIn(c, W)
  {
    forall j | 0 <= j < 25 * W
      ensures a[j] == ShiftIn(c, W)[j]
    {
      ShiftIdxInverse(j, W);
    }
  }

  /** The permutation's first loop: standard byte i stored at internal
      lane ((x + 2) % 5, (y + 2) % 5). */
  method ShiftInto(cur: array<byte>, nxt: array<byte>, W: int)
    requires ValidLaneBytes(W) && cur.Length == 25 * W && nxt.Length == 25 * W && nxt != cur
    modifies nxt
    ensures nxt[..] == ShiftIn(cur[..], W)
  {
    var i := 0;
    while i < 25 * W
      invariant 0 <= i <= 25 * W && Scattered(nxt[..], cur[..], W, i)
    {
      var k := 5 * W * ((i / W / 5 + 2) % 5) + W * ((i / W + 2) % 5) + i % W;
      ShiftIdxIs(i, W, k);
      ShiftIdxInverse(i, W);
      ghost var a := nxt[..];
      nxt[k] := cur[i];
      ScatterStep(a, nxt[..], cur[..], W, i);
      i := i + 1;
    }
    ScatterDone(nxt[..], cur[..], W);
  }

  /** Where the shift loops move byte i, as they compute it. */
  lemma ShiftIdxIs(i: int, W: int, k: int)
    requires W > 0 && k == 5 * W * ((i / W / 5 + 2) % 5) + W * ((i / W + 2) % 5) + i % W
    ensures ShiftIdx(i, W) == k
  {
  }

  /** Byte i after the shift-out loop is byte k of its input. */
  lemma ShiftOutCell(t: seq<byte>, W: int, i: int, k: int)
    requires IsBytes(t, W) && 0 <= i < 25 * W
    requires k == 5 * W * ((i / W / 5 + 2) % 5) + W * ((i / W + 2) % 5) + i % W
    ensures 0 <= k < 25 * W && ShiftOut(t, W)[i] == t[k]
  {
    ShiftIdxIs(i, W, k);
    ShiftIdxInverse(i, W);
    ShiftOutAt(t, W, i, k);
  }

  lemma ShiftOutAt(t: seq<byte>, W: int, i: int, k: int)
    requires IsBytes(t, W) && 0 <= i < 25 * W && k == ShiftIdx(i, W) && 0 <= k < 25 * W
    ensures ShiftOut(t, W)[i] == t[k]
  {
  }

  /** The permutation's last loop: standard byte i fetched back from
      internal lane ((x + 2) % 5, (y + 2) % 5). */
  method ShiftOutOf(cur: array<byte>, nxt: array<byte>, W: int)
    requires ValidLaneBytes(W) && cur.Length == 25 * W && nxt.Length == 25 * W && nxt != cur
    modifies nxt
    ensures nxt[..] == ShiftOut(cur[..], W)
  {
    ghost var T := ShiftOut(cur[..], W);
    var i := 0;
    while i < 25 * W
      invariant 0 <= i <= 25 * W && Filled(nxt, T, i)
    {
      var k := 5 * W * ((i / W / 5 + 2) % 5) + W * ((i / W + 2) % 5) + i % W;
      ShiftOutCell(cur[..], W, i, k);
      nxt[i] := cur[k];
      i := i + 1;
    }
    assert nxt[..] == T;
  }
}
