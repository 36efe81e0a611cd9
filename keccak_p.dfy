/** keccak_p(b, n) of src/keccak.ts as an object: two state buffers, one of
    them current, the scratch rows C and D, and the step mappings as methods
    that read the current buffer, write the other one and flip the selector.
    Each method is proved against the byte-level function of KeccakSteps for
    its step; KeccakFips relates those functions to FIPS 202. */
module KeccakPermutation {
  import opened Bytes
  import opened Layout
  import opened KeccakSteps
  import Fips202
  import KeccakFips
  import opened StepLoops

  class KeccakP {
    /** The permutation width in bits, in bytes, and the lane length in bytes. */
    const b: int
    const B: int
    const W: int
    /** The number of rounds one call applies. */
    const n: nat
    /** Scratch rows of theta: 5 W bytes each, row x at W x. */
    const C: array<byte>
    const D: array<byte>
    /** The two state buffers; sel picks the current one. */
    const S0: array<byte>
    const S1: array<byte>
    var sel: bv1
    /** How many times the permutation has been applied to this object. */
    ghost var calls: nat

    /** The widths and buffer sizes agree and the five arrays are distinct;
        it speaks only of constants, so no method can break it. */
    predicate Valid()
    {
      ValidLaneBytes(W) && B == 25 * W && b == 8 * B
      && C.Length == 5 * W && D.Length == 5 * W && S0.Length == 25 * W && S1.Length == 25 * W
      && C != D && C != S0 && C != S1 && D != S0 && D != S1 && S0 != S1
    }

    /** The buffer the step mappings read. */
    function Cur(): array<byte>
      reads this
    {
      if sel == 0 then S0 else S1
    }

    /** The buffer the step mappings write. */
    function Nxt(): array<byte>
      reads this
    {
      if sel == 0 then S1 else S0
    }

    /** The current state, what the object's S property returns. */
    function S(): (s: seq<byte>)
      reads this, S0, S1
      requires Valid()
      ensures IsBytes(s, W)
    {
      Cur()[..]
    }

    /** The buffer that is not current. */
    function Other(): (s: seq<byte>)
      reads this, S0, S1
      requires Valid()
      ensures IsBytes(s, W)
    {
      Nxt()[..]
    }

    constructor (b: int, n: nat)
      requires b == 200 || b == 400 || b == 800 || b == 1600
      ensures Valid() && this.b == b && this.n == n && B == b / 8 && W == b / 200
      ensures S() == seq(b / 8, i => 0) && Other() == seq(b / 8, i => 0)
      ensures fresh(C) && fresh(D) && fresh(S0) && fresh(S1) && calls == 0
    {
      this.b := b;
      this.n := n;
      B := b / 8;
      W := b / 200;
      C := new byte[5 * (b / 200)](i => 0);
      D := new byte[5 * (b / 200)](i => 0);
      S0 := new byte[b / 8](i => 0);
      S1 := new byte[b / 8](i => 0);
      sel := 0;
      calls := 0;
    }

    /** theta: the column parities into C, the effect into D, then every
        byte XORed with the effect on its column. */
    method Theta()
      requires Valid()
      modifies this, C, D, Nxt()
      ensures calls == old(calls)
      ensures Valid() && sel == old(sel) ^ 1
      ensures C[..] == ColumnParity(old(S()), W)
      ensures D[..] == ThetaEffect(C[..], W)
      ensures S() == KeccakSteps.Theta(old(S()), W)
      ensures Other() == old(S())
    {
      FillParity();
      FillEffect();
      ApplyEffect();
      sel := sel ^ 1;
    }

    /** theta's first loop: C[W x + z] is the parity of column (x, z). */
    method FillParity()
      requires Valid()
      modifies C
      ensures C[..] == ColumnParity(S(), W)
    {
      ParityInto(Cur(), C, W);
    }

    /** theta's second loop: D[x] = C[x - 1] ^ rot1(C[x + 1]), byte by byte. */
    method FillEffect()
      requires Valid()
      modifies D
      ensures D[..] == ThetaEffect(C[..], W)
    {
      EffectInto(C, D, W);
    }

    /** theta's third loop: every byte of the current state XORed with the
        effect byte of its column, into the other buffer. */
    method ApplyEffect()
      requires Valid()
      modifies Nxt()
      ensures Nxt()[..] == XorEffect(old(S()), D[..], W) && S() == old(S())
    {
      XorEffectInto(Cur(), Nxt(), D, W);
    }

    /** rho: lane (2, 2) copied, the other 24 lanes rotated along the walk
        from (3, 2). */
    method Rho()
      requires Valid()
      modifies this, Nxt()
      ensures calls == old(calls)
      ensures Valid() && sel == old(sel) ^ 1
      ensures S() == KeccakSteps.Rho(old(S()), W) && Other() == old(S())
    {
      RhoInto(Cur(), Nxt(), W);
      sel := sel ^ 1;
    }

    /** pi: every lane moved to its new position. */
    method Pi()
      requires Valid()
      modifies this, Nxt()
      ensures calls == old(calls)
      ensures Valid() && sel == old(sel) ^ 1
      ensures S() == KeccakSteps.Pi(old(S()), W) && Other() == old(S())
    {
      PiInto(Cur(), Nxt(), W);
      sel := sel ^ 1;
    }

    /** chi: every byte combined with the two bytes beside it in its row. */
    method Chi()
      requires Valid()
      modifies this, Nxt()
      ensures calls == old(calls)
      ensures Valid() && sel == old(sel) ^ 1
      ensures S() == KeccakSteps.Chi(old(S()), W) && Other() == old(S())
    {
      ChiInto(Cur(), Nxt(), W);
      sel := sel ^ 1;
    }

    /** iota(i): the state copied, then the round constant of round i XORed
        into lane (2, 2). */
    method Iota(i: int)
      requires Valid()
      modifies this, Nxt()
      ensures calls == old(calls)
      ensures Valid() && sel == old(sel) ^ 1
      ensures S() == KeccakSteps.Iota(old(S()), W, i) && Other() == old(S())
    {
      IotaInto(Cur(), Nxt(), W, i);
      sel := sel ^ 1;
    }

    /** round(i): theta, rho, pi, chi and iota(i), in that order. */
    method Round(i: int)
      requires Valid()
      modifies this, C, D, S0, S1
      ensures calls == old(calls)
      ensures Valid() && sel == old(sel) ^ 1
      ensures S() == KeccakSteps.Round(old(S()), W, i)
    {
      Theta();
      Rho();
      Pi();
      Chi();
      Iota(i);
    }

    /** The permutation itself: the shift into the internal coordinates,
        rounds 12 + 2 l - n .. 12 + 2 l - 1, the shift back. */
    method Permute()
      requires Valid()
      modifies this, C, D, S0, S1
      ensures Valid()
      ensures S() == KeccakSteps.Permute(old(S()), W, n)
      ensures Fips202.FromBytes(S(), W) == Fips202.KeccakP(Fips202.FromBytes(old(S()), W), 8 * W, LaneLog(W), n)
      ensures calls == old(calls) + 1
    {
      ghost var s := S();
      ghost var before := calls;
      ShiftIn();
      Rounds();
      ShiftOut();
      KeccakFips.PermuteMatches(s, W, n);
      calls := before + 1;
    }

    /** The permutation's middle loop: round(i) for i = 12 + 2 l - n ..
        12 + 2 l - 1, l = log2(8 W). */
    method Rounds()
      requires Valid()
      modifies this, C, D, S0, S1
      ensures calls == old(calls)
      ensures Valid()
      ensures S() == KeccakSteps.Rounds(old(S()), W, Fips202.FirstRound(LaneLog(W), n), Fips202.FullRounds(LaneLog(W)))
    {
      RoundsLoop(S(), Fips202.FirstRound(LaneLog(W), n), Fips202.FullRounds(LaneLog(W)));
    }

    /** for (i = lo; i < hi; i++) round(i), with lo = 12 + 2 l - n and
        hi = 12 + 2 l. */
    method RoundsLoop(ghost t: seq<byte>, lo: int, hi: int)
      requires Valid() && S() == t && lo <= hi
      modifies this, C, D, S0, S1
      ensures calls == old(calls)
      ensures Valid() && S() == KeccakSteps.Rounds(t, W, lo, hi)
    {
      var i := lo;
      KeccakSteps.RoundsNone(t, W, lo, i);
      while i < hi
        invariant Valid() && IsBytes(t, W) && lo <= i <= hi
        invariant S() == KeccakSteps.Rounds(t, W, lo, i) && calls == old(calls)
      {
        i := NextRound(t, lo, i);
      }
    }

    /** One iteration of the rounds loop: round(i), then i + 1. */
    method NextRound(ghost t: seq<byte>, ghost lo: int, i: int) returns (next: int)
      requires Valid() && IsBytes(t, W) && lo <= i && S() == KeccakSteps.Rounds(t, W, lo, i)
      modifies this, C, D, S0, S1
      ensures calls == old(calls)
      ensures Valid() && next == i + 1 && S() == KeccakSteps.Rounds(t, W, lo, next)
    {
      KeccakSteps.RoundsNext(t, W, lo, i);
      Round(i);
      next := i + 1;
    }

    /** The first loop of the permutation: standard byte i stored at internal
        lane ((x + 2) mod 5, (y + 2) mod 5). */
    method ShiftIn()
      requires Valid()
      modifies this, Nxt()
      ensures calls == old(calls)
      ensures Valid() && sel == old(sel) ^ 1
      ensures S() == KeccakSteps.ShiftIn(old(S()), W) && Other() == old(S())
    {
      ShiftInto(Cur(), Nxt(), W);
      sel := sel ^ 1;
    }

    /** The last loop of the permutation: every byte fetched back from where
        the first loop stored it. */
    method ShiftOut()
      requires Valid()
      modifies this, Nxt()
      ensures calls == old(calls)
      ensures Valid() && sel == old(sel) ^ 1
      ensures S() == KeccakSteps.ShiftOut(old(S()), W) && Other() == old(S())
    {
      ShiftOutOf(Cur(), Nxt(), W);
      sel := sel ^ 1;
    }
  }

  /** keccak_f(b): the permutation with 12 + 2 log2(b / 25) rounds, Keccak-f[b]
      of section 3.4 of FIPS 202. */
  method KeccakF(b: int) returns (f: KeccakP)
    requires b == 200 || b == 400 || b == 800 || b == 1600
    ensures fresh(f) && f.Valid() && f.b == b && f.W == b / 200
    ensures f.n == Fips202.FullRounds(LaneLog(f.W))
    ensures f.S() == seq(b / 8, i => 0) && f.calls == 0
  {
    assert b / 25 == 8 * (b / 200);
    f := new KeccakP(b, 12 + 2 * Log2(b / 25));
  }
}
