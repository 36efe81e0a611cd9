# Keccak: permutation, sponge and SHA-3 front ends

This project models the Keccak library in `src/keccak.ts` and its one concrete
instance `keccak256` in `src/concrete/keccak256.ts`, and proves properties of that model.

- `keccak_p(b, n)` returns a permutation object. It owns two state buffers of
  `b / 8` bytes, which it swaps between, and two scratch buffers `C` and `D`.
  Calling it applies the last `n` rounds of Keccak-p[b]. Each round is theta,
  rho, pi, chi and iota, each step writing the "other" buffer. Bytes move into
  an internal layout at the start of a call and back out at the end. In that
  layout every lane coordinate is shifted by 2.
- `keccak_f(b)` is the same permutation with 12 + 2 log2(b / 25) rounds.
- `sponge(f, pad, r)` works on byte strings. It clears the state, pads the
  input with `padOneZeroStarOne` (pad10*1 on bytes), XORs each rate-sized chunk
  into the state and permutes, and then squeezes rate-sized blocks until `d / 8`
  bytes are out.
- `keccak_c(c)` is that sponge over Keccak-p[1600, 24] with rate `1600 - c`.
- `sha_3` and `sha_3_xof` optionally append one byte `n` that holds a `b`-bit
  domain suffix. They then ask the sponge for `c / 2` bits or for `D` bytes.
- `keccak256` is `sha_3(keccak_c, 512, 0, 0)`: Keccak-256 with no suffix.

The model is layered:

- `Bytes` holds bytes as `bv8`, the bit-level facts about `& | ^ << >>`, and bit extraction.
- `Layout` holds the byte index `5Wy + Wx + z` of the state buffers and its
  coordinate arithmetic, for lane widths of W = 1, 2, 4 or 8 bytes.
- `Fips202` is an independent reference at the level of bits. It follows
  FIPS 202: state arrays (section 3.1), theta, rho, pi, chi, rc and iota
  (Algorithms 1-6), Rnd and Keccak-p (Algorithm 7), and pad10*1 (Algorithm 9).
  It also converts byte strings to bits as Appendix B.1 does.
- `KeccakSteps` gives one function per loop of the source: what the buffer
  holds after that loop, byte by byte, in the internal layout.
- `KeccakFips` proves that every step, a round, a run of rounds and a whole
  call of the permutation agree with `Fips202` on all inputs.
- `StepLoops` holds the array loops of the step mappings. Each is proved to
  fill its target buffer with the matching `KeccakSteps` function.
- `KeccakPermutation.KeccakP` is the permutation object as a class. It has the
  buffers, the swap bit `sel` and a ghost count of the calls made.
- `Padding` models `padOneZeroStarOne` and proves that, read as bits, its output is pad10*1 for b <= 6.
- `SpongeSpec` gives the functional sponge: the padded string, the absorbed
  state and the squeezed output.
- `Sponge.SpongeFunction` is the sponge as a class over a `KeccakP`, with its
  absorb and squeeze loops.
- `Hashes` models `keccak_c`, `sha_3`, `sha_3_xof` and `keccak256`.
- `FipsSponge` is SPONGE (Algorithm 8 of FIPS 202) on bit strings, with
  KECCAK[c] (section 5.2) and the SHA-3 and SHAKE functions (section 6),
  written from the standard alone.
- `SpongeFips` proves that the byte-level sponge, `keccak_c`, `sha_3`,
  `sha_3_xof` and `keccak256`, read as bits, are the `FipsSponge` functions.

## Model

| member | source | states |
|---|---|---|
| KeccakPermutation.KeccakP.constructor | src/keccak.ts:11-18 | B = b/8, W = B/25, C and D of 5W bytes, two zeroed state buffers of 25W bytes, all distinct and fresh; no call made yet |
| KeccakPermutation.KeccakP.S | src/keccak.ts:171 | the S getter returns the current buffer (the one `sel` selects, as `_e2_` does), a 25W-byte string |
| KeccakPermutation.KeccakP.Other | src/keccak.ts:32-34 | the non-current buffer is a 25W-byte string |
| KeccakPermutation.KeccakP.FillParity | src/keccak.ts:40-47 | C becomes the XOR of the five bytes of each column slice of the current state, and nothing else changes |
| KeccakPermutation.KeccakP.FillEffect | src/keccak.ts:48-53 | D[x][z] becomes C[x-1] XOR C[x+1] rotated left by one bit across the lane's bytes |
| KeccakPermutation.KeccakP.ApplyEffect | src/keccak.ts:54-59 | the other buffer becomes every byte of the state XORed with D of its column; the current state is kept |
| KeccakPermutation.KeccakP.Theta | src/keccak.ts:39-61 | after theta, C and D hold the parities and the effect, the current buffer is swapped, the new state is KeccakSteps.Theta of the old one, and the old state is left in the other buffer |
| KeccakPermutation.KeccakP.Rho | src/keccak.ts:67-89 | the new state is KeccakSteps.Rho of the old one: lane (2,2) copied, the 24 lanes of the walk each rotated by (t+1)(t+2)/2 bits |
| KeccakPermutation.KeccakP.Pi | src/keccak.ts:94-101 | the new state is KeccakSteps.Pi of the old one: lane (x,y) taken from lane ((3(y+3)+x+5) mod 5, x) |
| KeccakPermutation.KeccakP.Chi | src/keccak.ts:106-115 | the new state is KeccakSteps.Chi of the old one: a ^ (~b & c) along each row |
| KeccakPermutation.KeccakP.Iota | src/keccak.ts:139-148 | the new state is the old one with round constant ir (from the corrected rc) XORed into internal lane (2,2) |
| KeccakPermutation.KeccakP.Round | src/keccak.ts:154-160 | the new state is KeccakSteps.Round(old, W, i), which is theta, rho, pi, chi and then iota(i) with the corrected rc |
| KeccakPermutation.KeccakP.NextRound | src/keccak.ts:166-167 | one iteration of the round loop: the state goes from rounds lo..i-1 to rounds lo..i |
| KeccakPermutation.KeccakP.RoundsLoop | src/keccak.ts:166-167 | the round loop applies rounds lo, lo+1, ..., hi-1 in order |
| KeccakPermutation.KeccakP.Rounds | src/keccak.ts:166-167 | the loop runs rounds 12+2l-n .. 12+2l-1, where l = log2 of the lane width in bits |
| KeccakPermutation.KeccakP.ShiftIn | src/keccak.ts:163-165 | standard byte i moves to the internal position whose x and y are 2 higher (mod 5) |
| KeccakPermutation.KeccakP.ShiftOut | src/keccak.ts:168-170 | internal bytes move back to the standard layout |
| KeccakPermutation.KeccakP.Permute | src/keccak.ts:162-171 | one call is shift-in, the rounds and shift-out; read as a FIPS 202 state array, the new state is Keccak-p[b, n] of the old one (with the corrected rc); exactly one more call is counted |
| KeccakPermutation.KeccakF | src/keccak.ts:184-186 | keccak_f(b) has 12 + 2l rounds, a zero state and no calls yet |
| StepLoops.ParityInto | src/keccak.ts:40-47 | the first theta loop fills C with exactly KeccakSteps.ColumnParity of the state |
| StepLoops.EffectInto | src/keccak.ts:48-53 | the second theta loop fills D with exactly KeccakSteps.ThetaEffect of C |
| StepLoops.XorEffectInto | src/keccak.ts:54-59 | the third theta loop fills the target with exactly KeccakSteps.XorEffect of the state and D |
| StepLoops.RhoInto | src/keccak.ts:67-87 | the rho loops, the walk over (x, y) included, fill the target with exactly KeccakSteps.Rho |
| StepLoops.WalkNumbered | src/keccak.ts:70-86 | rho's walk visits lane Walk[t] at step t, and every such lane is one of the 25 |
| StepLoops.WalkIndexInverse | src/keccak.ts:70-86 | every lane other than (2,2) is visited exactly once in the 24 steps |
| StepLoops.PiInto | src/keccak.ts:94-100 | the pi loop fills the target with exactly KeccakSteps.Pi |
| StepLoops.ChiInto | src/keccak.ts:106-114 | the chi loop fills the target with exactly KeccakSteps.Chi |
| StepLoops.Rc | src/keccak.ts:121-133 | the corrected rc loop returns RcByte(t), rc(t mod 255) as a byte 0 or 1 |
| StepLoops.IotaInto | src/keccak.ts:140-146 | the copy loop and the round-constant loop (calling the corrected rc) fill the target with exactly KeccakSteps.Iota |
| StepLoops.CopyInto | src/keccak.ts:140-143 | iota's copy loop makes the target equal to the state |
| StepLoops.ShiftInto | src/keccak.ts:163-164 | the shift-in loop fills the target with exactly KeccakSteps.ShiftIn |
| StepLoops.ShiftOutOf | src/keccak.ts:168-169 | the shift-out loop fills the target with exactly KeccakSteps.ShiftOut |
| KeccakSteps.ShiftIdxInverse | src/keccak.ts:163-170 | the shift-in and shift-out index maps are inverse bijections on 0 .. 25W-1 |
| KeccakSteps.ShiftIdxAt | src/keccak.ts:164 | shift-in sends lane (x, y) to lane (x+2 mod 5, y+2 mod 5), same z |
| KeccakSteps.UnshiftIdxAt | src/keccak.ts:169 | shift-out reads lane (x, y) from lane (x+3 mod 5, y+3 mod 5), same z |
| KeccakSteps.RoundsNext | src/keccak.ts:166-167 | running rounds lo..i and then round i is running rounds lo..i+1 |
| KeccakSteps.RoundsNone | src/keccak.ts:166 | an empty range of rounds leaves the state unchanged |
| KeccakFips.ShiftInView | src/keccak.ts:163-165 | the internal layout after shift-in stands for the same FIPS 202 state array as the input bytes (A[x,y,z] at bit 64(5y+x)+z) |
| KeccakFips.ShiftOutView | src/keccak.ts:168-170 | shift-out turns the internal layout back into the standard byte string of the same state array |
| KeccakFips.ShiftRoundTrip | src/keccak.ts:163-170 | shift-out after shift-in, and shift-in after shift-out, are both the identity |
| KeccakFips.ThetaMatches | src/keccak.ts:39-61 | on every state, the byte-level theta is theta of section 3.2.1 of FIPS 202 |
| KeccakFips.RhoMatches | src/keccak.ts:67-89 | on every state, the byte-level rho is rho of section 3.2.2 of FIPS 202, with the offsets of its Table 2 |
| KeccakFips.PiMatches | src/keccak.ts:94-101 | on every state, the byte-level pi is pi of section 3.2.3 of FIPS 202 |
| KeccakFips.ChiMatches | src/keccak.ts:106-115 | on every state, the byte-level chi is chi of section 3.2.4 of FIPS 202 |
| KeccakFips.IotaMatches | src/keccak.ts:139-148 | on every state and round index, the byte-level iota (with the corrected rc) is iota of section 3.2.5 of FIPS 202 |
| KeccakFips.RoundMatches | src/keccak.ts:154-160 | one round (with the corrected rc) is Rnd of section 3.3 of FIPS 202 |
| KeccakFips.RoundsMatch | src/keccak.ts:166-167 | any run of rounds lo..hi-1 is the same run of Rnd |
| KeccakFips.RoundsView | src/keccak.ts:163-167 | shift-in followed by the rounds stands for the FIPS 202 rounds applied to the input's state array |
| KeccakFips.PermuteZero | src/keccak.ts:162-171 | keccak_p(b, 0) runs no round: one call leaves the state unchanged |
| KeccakFips.PermuteMatches | src/keccak.ts:162-171 | one call of the permutation (with the corrected rc) is Keccak-p[25w, n] of Algorithm 7 of FIPS 202 on the state's bits |
| KeccakFips.PermuteView | src/keccak.ts:162-171 | the same, stated through the internal view after the rounds |
| KeccakFips.LfsrEncode | src/keccak.ts:123-131 | the source's 9-bit register, stepped k times, encodes the 8-bit LFSR of Algorithm 5 of FIPS 202 after k steps |
| KeccakFips.AsWrittenIsRcBit | src/keccak.ts:121-133 | for 0 <= t < 255, rc as written returns rc(t) of Algorithm 5 of FIPS 202 |
| KeccakFips.RcAsWrittenAgrees | src/keccak.ts:121-133 | for 0 <= t < 255, rc as written equals the corrected rc |
| KeccakFips.RcByteIsRcBit | src/keccak.ts:121-133 | the corrected rc is rc(t) of Algorithm 5 of FIPS 202 for every integer t |
| KeccakFips.RcArgumentInRange | src/keccak.ts:144-146 | with at most 12+2l rounds, iota only calls rc with 0 <= j + 7i < 255, where the two agree |
| KeccakFips.RcAsWrittenNegative | src/keccak.ts:121-133 | rc as the source computes it (KeccakSteps.RcAsWritten) is 0 or 1, and 0 for every negative t because the loop does not run |
| KeccakFips.RcNegativeCounterexample | src/keccak.ts:121-133 | keccak_p(1600, 60) starts at round -36, whose iota asks for rc(5 + 7 * -36) = rc(-247); the source returns 0 there while rc(-247) = rc(8) = 1 |
| Fips202.RoundConstantStep | src/keccak.ts:144-146 | step j of the RC loop sets only bit 2^j - 1, to rc(j + 7 ir) |
| Fips202.RoundConstantUnset | src/keccak.ts:144-146 | RC bits at or above 2^j - 1 are still 0 after j steps |
| Fips202.Pad101At | src/keccak.ts:258-263 | pad10*1 has its only two ones at its first and last bit |
| Padding.CeilDiv | src/keccak.ts:226 | Math.ceil(a / X) is the least q with qX >= a |
| Padding.PadLengthLeast | src/keccak.ts:259 | the padding is 1 to X bytes long, and it is the shortest non-empty padding that completes a block |
| Padding.PadOneZeroStarOne | src/keccak.ts:258-263 | padOneZeroStarOne(X, M, b) returns exactly PadBytes(X, M, b) |
| Padding.PadShape | src/keccak.ts:258-263 | the padding is 1 << b in its first byte, 0x80 added to its last byte, and zero between |
| Padding.PadIsPad101 | src/keccak.ts:258-263 | for b <= 6, the padding bytes read as bits are b zeros followed by pad10*1(8X, 8M + b) of FIPS 202 |
| Padding.PadZeroCount | src/keccak.ts:259 | the number of zeros between the two ones is (-(8M + b) - 2) mod 8X |
| Padding.PadByteBits | src/keccak.ts:260-261 | bit k of padding byte z is set exactly for bit b of the first byte and bit 7 of the last byte |
| Padding.PadSevenWraps | src/keccak.ts:260-261 | with b = 7 and a one-byte padding, 0x80 + 0x80 wraps and the padding is [0] |
| SpongeSpec.ChunksAt | src/keccak.ts:194-197 | chunk k of the chunker is bytes kR .. kR+R-1, and there are floor(len / R) chunks |
| SpongeSpec.PaddedLengthIs | src/keccak.ts:226 | the padded length ceil((len N + [b = 0]) / R) R equals len M + the pad length |
| SpongeSpec.PaddedShape | src/keccak.ts:226-233 | P is whole blocks, keeps N's first M bytes, adds the suffix byte to pad[0] at M, and continues with the rest of pad |
| SpongeSpec.PaddedSuffix | src/keccak.ts:226-233 | when the suffix fits below bit b, byte M is suffix OR 1 << b (OR 0x80 for a one-byte padding), the last byte is 0x80 and the bytes between are 0 |
| SpongeSpec.XorBlockRate | src/keccak.ts:235-236 | XORing a chunk changes only the first R bytes, each by the chunk's byte |
| SpongeSpec.AbsorbedNext | src/keccak.ts:234-238 | absorbing one more chunk is XOR followed by one permutation |
| SpongeSpec.SqueezedAt | src/keccak.ts:239-246 | byte kR + i of the squeezed output is byte i of the state after k more permutations |
| SpongeSpec.SqueezeCountUnique | src/keccak.ts:241-245 | the squeeze loop runs exactly ceil(D / R) times, and at least once |
| SpongeSpec.BlockFits | src/keccak.ts:239-242 | every block written before i reaches D fits in Z's ceil((D+1)/R) R bytes |
| SpongeSpec.SpongeOutput | src/keccak.ts:222-248 | the sponge returns d >> 3 bytes |
| Sponge.CopyBlock | src/keccak.ts:242 | Z.set copies the first R state bytes to Z at offset i and leaves the rest of Z alone |
| Sponge.XorInto | src/keccak.ts:235-236 | the XOR loop leaves the state equal to XorBlock of the old state and the chunk |
| Sponge.Clear | src/keccak.ts:225 | f.S.fill(0) zeroes the state |
| Sponge.SetPrefix | src/keccak.ts:228 | P.set(N) copies N to the front and keeps the rest |
| Sponge.AddAt | src/keccak.ts:231-232 | the `+=` loop adds pad byte t (mod 256) to P[M + t] and keeps every other byte |
| Sponge.BuildPadded | src/keccak.ts:226-233 | the padded input built in the sponge is SpongeSpec.Padded(N, b, R) |
| Sponge.SqueezeDone | src/keccak.ts:244-247 | at the loop's exit, Z[..D] is the first D bytes of ceil(D/R) squeezed blocks |
| Sponge.SpongeFunction.constructor | src/keccak.ts:217-221 | the sponge keeps its permutation and rate |
| Sponge.SpongeFunction.Absorb | src/keccak.ts:234-238 | the state becomes Absorbed of the old state over the chunks, with one permutation per chunk |
| Sponge.SpongeFunction.SqueezeBlock | src/keccak.ts:242-243 | one more block of the current state is appended to Z |
| Sponge.SpongeFunction.NextBlock | src/keccak.ts:245 | one permutation between squeezed blocks |
| Sponge.SpongeFunction.Squeeze | src/keccak.ts:239-247 | the output is the first D bytes of SqueezeCount(D, R) = max(1, ceil(D/R)) blocks, with a permutation between blocks; SqueezeCount(D, R) - 1 calls are made (none for D = 0) |
| Sponge.SpongeFunction.Apply | src/keccak.ts:222-248 | the result is SpongeOutput(N, d, b, r >> 3) from a cleared state; the permutation is called len(P)/R + SqueezeCount(D, R) - 1 times, where SqueezeCount(D, R) = max(1, ceil(D/R)) |
| Hashes.KeccakC | src/keccak.ts:272-274 | keccak_c(c) is a sponge of rate 1600 - c over Keccak-f[1600] with 24 rounds |
| Hashes.Suffixed | src/keccak.ts:288-290 | with a suffix (b != 0) the message is one byte longer |
| Hashes.AppendSuffix | src/keccak.ts:288-290 | the copy of M with n written at the end when b != 0 is Suffixed(M, n, b) |
| Hashes.Sha3Output | src/keccak.ts:285-294 | sha_3 returns c / 16 bytes |
| Hashes.Sha3.constructor | src/keccak.ts:285-286 | sha_3 builds one keccak_c(c) sponge and keeps c, n and b |
| Hashes.Sha3.Hash | src/keccak.ts:287-293 | the digest is the sponge output for the suffixed message with d = c >> 1; it is c/16 bytes long |
| Hashes.Sha3XofOutput | src/keccak.ts:306-315 | sha_3_xof returns D bytes |
| Hashes.Sha3Xof.constructor | src/keccak.ts:306-307 | sha_3_xof builds one keccak_c(c) sponge and keeps c, n and b |
| Hashes.Sha3Xof.Hash | src/keccak.ts:308-314 | the output is the sponge output for the suffixed message with d = D << 3; it is D bytes long |
| Hashes.Keccak256 | src/concrete/keccak256.ts:3 | keccak256 is sha_3 with c = 512, n = 0 and b = 0 |
| Hashes.Keccak256Padding | src/concrete/keccak256.ts:3 | Keccak-256 pads M to a multiple of 136 bytes with 0x01 ... 0x80, or with the single byte 0x81 |
| Hashes.Keccak256Hash | src/concrete/keccak256.ts:3 | a Keccak-256 digest is 32 bytes and costs floor(len M / 136) + 1 permutations |
| Hashes.Keccak256Calls | src/concrete/keccak256.ts:3 | the general count of permutation calls is floor(len M / 136) + 1 for Keccak-256 |
| Hashes.Keccak256Twice | src/concrete/keccak256.ts:3 | hashing the same message twice with one object gives the same digest: the state is cleared at every call |
| FipsSponge.StateRoundTrip | src/keccak.ts:171 | reading a state string as a state array and back, or an array as a string and back, returns what one started with (the string layout of section 3.1.3 of FIPS 202 behind the byte buffer S) |
| FipsSponge.PaddedBlocks | src/keccak.ts:226-227 | the message followed by pad10*1 is a whole, positive number of r-bit blocks, as the buffer of ceil(...) * R bytes is |
| FipsSponge.KeccakUnfold | src/keccak.ts:272-274 | KECCAK[c] is the sponge over Keccak-p[1600, 24] with w = 64 and rate 1600 - c |
| SpongeFips.XorBits | src/keccak.ts:235-236 | XORing a chunk into the state buffer is, bit by bit, S xor (P \|\| 0) |
| SpongeFips.PermuteBits | src/keccak.ts:237 | one call of f, read as bits, is Keccak-p[200 W, n] on the state string |
| SpongeFips.PaddedBits | src/keccak.ts:226-233 | the padded buffer, read as bits, is the 8 M + b message bits followed by pad10*1(8 R, 8 M + b) |
| SpongeFips.AbsorbedBits | src/keccak.ts:234-238 | absorbing the first k byte chunks, read as bits, is absorbing the first k blocks of 8 R bits of the padded string (steps 5 and 6 of Algorithm 8) |
| SpongeFips.AbsorbedAll | src/keccak.ts:234-238 | absorbing every chunk of the padded buffer is absorbing all of its 8 R-bit blocks |
| SpongeFips.SqueezedBits | src/keccak.ts:239-247 | the squeeze loop's first D bytes, read as bits, are what steps 8 to 10 of Algorithm 8 return for 8 D bits |
| SpongeFips.SpongeBits | src/keccak.ts:217-249 | for b <= 6 and a suffix below bit b, the sponge's output read as bits is SPONGE (Algorithm 8 of FIPS 202) over Keccak-p with pad10*1 and rate 8 R on the 8 M + b message bits, for 8 (d / 8) output bits |
| SpongeFips.SuffixedSponge | src/keccak.ts:288-292 | the sponge run on M with the suffix byte n appended is SPONGE on the bits of M followed by the low b bits of n |
| SpongeFips.KeccakBits | src/keccak.ts:272-274 | keccak_c(c) on the suffixed message, read as bits, is KECCAK[c] of the bits of M followed by the b suffix bits |
| SpongeFips.Sha3Bits | src/keccak.ts:285-294 | sha_3(keccak_c, c, n, b) with c a multiple of 8 computes KECCAK[c] of M \|\| suffix with 8 (c / 16) output bits |
| SpongeFips.Sha3XofBits | src/keccak.ts:306-315 | sha_3_xof(keccak_c, c, n, b) asked for D bytes computes KECCAK[c] of M \|\| suffix with 8 D output bits |
| SpongeFips.Keccak256Bits | src/concrete/keccak256.ts:3 | keccak256 is KECCAK[512] of the message bits with 256 output bits and no suffix |
| SpongeFips.Sha3_256Bits | src/keccak.ts:285-294 | sha_3(keccak_c, 512, 0b10, 2) is SHA3-256 of section 6.1 of FIPS 202 |
| SpongeFips.ShakeBits | src/keccak.ts:306-315 | sha_3_xof(keccak_c, 2 s, 0b1111, 4) is SHAKE128 or SHAKE256 of section 6.2 of FIPS 202 with 8 D output bits |

## Left out

- Permutation widths 25, 50 and 100 bits are left out, because their lanes are
  smaller than a byte and the source's byte layout does not apply to them.
  KeccakP accepts only b = 200, 400, 800 or 1600.
- I/O is left out: test.ts, with its console output and test-vector file, is
  not part of this model. No hash value is computed.
- `keccak_p` returns a closure with the properties `b`, `B` and `S`. Here it is a
  class, and the closure call is `Permute`.
- The generator `_3d403e_` is modelled by the sequence of all chunks
  (SpongeSpec.Chunks). Its laziness plays no part, because P is not changed while it runs.
- The absorb loop runs i up to f.B but reads p[i] only below R. Beyond the chunk,
  `p[i]` is `undefined`, and `x ^ undefined` is x in JavaScript. XorBlock states this directly: bytes past the chunk are kept.
- `sponge`'s `pad` parameter is fixed to `padOneZeroStarOne`. The `if (pad)` branch
  with a missing rule is left out, because `keccak_c`, the only caller, always passes one.
- `sha_3`'s `k` parameter is fixed to `keccak_c` for the same reason.
- Sponge.SpongeFunction.Apply requires `b != 0 ==> len N >= 1`. For an empty N with b != 0,
  the source writes the padding from index -1, and JavaScript drops that
  write. `sha_3` and `sha_3_xof` always satisfy the requirement.
- Sponge.SpongeFunction.Apply requires d < 2^31, because `d >> 3` is a 32-bit shift. It requires
  0 <= d because for a negative d the source throws a RangeError: D = d >> 3 is negative, and the
  output array Z is then either empty, so that `Z.set` of R bytes overflows it, or of negative
  length. The model excludes that error case.
  It requires 0 <= b < 8, because `1 << b` must fit in a byte.
- Hashes.Sha3Xof.Hash requires D < 2^28, so that `D << 3` does not wrap as a 32-bit shift. It
  requires 0 <= D because a negative D makes `D << 3` negative, and the sponge then throws the
  RangeError described for Sponge.SpongeFunction.Apply. The model excludes that error case.
- Hashes.Sha3.Hash and Hashes.Sha3Xof.Hash take `n` as a byte. A Uint8Array stores
  `n` modulo 256, and null is stored as 0.
- Sponge.SpongeFunction.Apply keeps R = r >> 3 and does not require r to be a
  multiple of 8. Its output is related to Algorithm 8 of FIPS 202
  (SpongeFips.SpongeBits) only when b <= 6 and the suffix lies below bit b,
  with rate 8 R and 8 (d / 8) output bits. Nothing is stated for a rate or
  an output length that is not a whole number of bytes.
- KeccakPermutation.KeccakP.Iota XORs in the corrected rc(t mod 255) (see Findings). It is the
  source's iota only for round indices i >= 0, where every rc argument lies in [0, 255) and the two
  rcs agree (KeccakFips.RcArgumentInRange). For i < 0 the source's rc answers 0 and the model does not.
- KeccakPermutation.KeccakP.Round inherits that gap through Iota: it is the source's round only for i >= 0.
- KeccakPermutation.KeccakP.Permute computes Keccak-p[b, n] with the corrected rc. It agrees with the
  source only for n <= 12 + 2l, where every round index is at least 0 (KeccakFips.RcArgumentInRange).
  For n > 12 + 2l the source's permutation, which uses rc as written, is not modelled.
- StepLoops.IotaInto calls the corrected StepLoops.Rc, so it is the source's iota loop only for round
  indices i >= 0, for the same reason.
- KeccakPermutation.KeccakP.constructor takes n as a nat. For a negative n the source's round loop
  starts above 12 + 2l and runs no round. The model does not cover negative n.
- Hashes.KeccakC requires 0 < c <= 1592, so the rate 1600 - c is between 8 and 1599 bits and
  R = (1600 - c) >> 3 is between 1 and 199 bytes. Outside that range the source behaves as follows.
  For c = 0 (R = 200) it runs normally, but that case is not modelled. For c < 0 (R > 200) it XORs
  only the first 200 bytes of each chunk and leaves zero gaps between the squeezed blocks. For
  c >= 1593 (R <= 0) the chunker `_3d403e_` yields empty slices forever, so the absorb loop never
  ends. The model does not capture that non-termination.
- Sponge.SpongeFunction requires 8 <= r and r / 8 < B, that is 1 <= R < B bytes, for the reasons given
  for Hashes.KeccakC. A rate of r < 8 bits makes R = 0, and the source's absorb loop then never ends.
- SpongeSpec.PaddedSuffix states the absence of a carry in the suffix byte as a
  bitwise OR equality on bytes, not as an integer sum. It needs the suffix to
  lie below bit b. For b = 7 with a one-byte padding the sum wraps
  (Padding.PadSevenWraps), and pad10*1 holds only for b <= 6.
- No cryptographic property (preimage or collision resistance) is stated.

## Findings

| source | as written | input that shows it | evidently intended | confidence | as-written member | corrected member |
|---|---|---|---|---|---|---|
| src/keccak.ts:121-133 | `rc(t)` runs its LFSR loop t - 1 times and never reduces t mod 255, so every t < 0 returns 0 | keccak_p(1600, 60): its first round i = 12 + 2 * 6 - 60 = -36 calls rc(j + 7i) with t = -247 (j = 5), which returns 0, while Algorithm 5 of FIPS 202 gives rc(-247) = rc(8) = 1 | rc(t mod 255), as step 1 of Algorithm 5 says, which matters when n > 12 + 2l | not executed | KeccakFips.RcNegativeCounterexample (on KeccakSteps.RcAsWritten) | StepLoops.Rc and KeccakFips.RcByteIsRcBit (on KeccakSteps.RcByte) |
