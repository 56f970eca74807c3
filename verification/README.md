# LCA-1 verification model

A Dafny 4.11 model of the arithmetic and sponge code of LCA-1, and proofs about it. It covers
the software permutation and both sponge front ends of the firmware, the ML-KEM transform built
from the modelled butterflies, the RTL engine that runs the ML-KEM and ML-DSA transforms, modular multiplication in the forms
the repository keeps (bit-serial and pipelined RTL, two shift-add loops, K2-RED and Solinas
reduction), the freestanding allocator, and two streaming computations of the measurement tools.

Check everything with `dafny verify dfyconfig.toml`.

## How the model is laid out

| files | what they model |
|---|---|
| `Words`, `KeccakF1600`, `KeccakReference` | 64-bit lanes; the unrolled permutation and the plain nested-loop one, both against the step mappings of sections 3.2 to 3.4 of FIPS 202 |
| `LaneBits`, `KeccakBits` | the same bit by bit: byte order, lane operations, rotations, the step mappings, the offsets of rho and the round constants as FIPS 202 defines them |
| `SpongeSpec`, `SpongeLaws`, `Padding`, `Fips202` | the sponge of section 4 of FIPS 202 over an arbitrary permutation of 25 lanes; the one-shot and the incremental code in place; the laws that tie them together |
| `Field`, `Twiddles`, `NttLayers`, `NttInverse`, `NttLoops`, `Negacyclic` | the transform of section 4.3 of FIPS 203: its in-place loops, what they mean, their inverse, and multiplication modulo X^256 + 1 |
| `Montgomery`, `KemTwiddles`, `BaseMul` | 16-bit reductions, the Montgomery twiddle table, and the firmware's two-coefficient product |
| `DsaField`, `DsaTwiddles` | arithmetic modulo 8380417 and the engine's ML-DSA twiddle table |
| `Butterflies`, `AccelLayers`, `DsaLayers`, `NttAccel`, `AccelRuns` | the transform engine: its butterflies in 16- and 32-bit words, layers and what they mean, its registers and banks, and runs of all four commands from start to done |
| `ShiftAdd`, `FastMod` | modular multiplication as integer loops and as branch-free reductions |
| `LcaModmul`, `ModmulFast` | the bit-serial and the pipelined multiplier as clocked state machines |
| `SlotMask`, `Runtime` | the 32-slot allocator, `memset` and `memmove` over one byte memory |
| `Welford` | running statistics over exact reals |
| `VcdValues`, `VcdBlocks`, `StateLabels`, `VcdActivity`, `PowerTrace` | values of a dump, time blocks built from its records, activity states, samples at clock edges, and the trace contract |
| `Outcomes` | raised or returned, present or absent |
| `Numbers` | division with remainder and powers of two |

Code that changes state in place is modelled in place: lane arrays, the incremental context, the
RTL registers and banks, the allocator and the accumulators are arrays and classes, and each method is
proved equal to a function whose meaning the lemmas then establish.

## Conventions

- Integers are unbounded. Where width matters it is written out: `bv64` lanes, `bv8` bytes and the
  `bv32` slot mask, `int16_t` in `basemul`, and every truncation of the RTL (W-bit sums, 16-, 32-
  and 48-bit words, 8- and 9-bit indices). Python's
  `>>` and `&` with a mask on negative integers floor, which is what `/` and `%` by a positive
  number do here.
- A raised `ValueError` is `Raised`; a returned value is `Ok`.
- `f` in the sponge modules is any function on 25 lanes. `KeccakF1600.KeccakF` is the one the
  firmware runs.
- The two round-constant tables and the rotation offsets of the firmware and of the reference are
  the same numbers, so they appear once.

## Results worth knowing

- Incremental and one-shot absorption agree for every message exactly when the domain byte has bit
  7 clear or the message is not one byte short of a block: finalize XORs the last padding bit where
  `keccak_absorb` ORs it (`SpongeLaws.IncrementalMatchesOneShot`). All domain bytes in use (0x06 and
  0x1F) satisfy this.
- For one domain byte, padded messages determine the message exactly when the low seven bits of the
  domain byte are not all zero (`Padding.PaddingDeterminesMessage`).
- The 24 steps of `modmul` compute the product for all canonical operands exactly for moduli up to
  2^24 (`ShiftAdd.StepsSuffice`).
- `docs/FAST_REDUCTION.md:335-340` says the ML-DSA congruence of the fast reduction is not proved.
  For the integer model it is `FastMod.ReduceDsaIsMod`. The documentation's claim that the fast
  multiplier equals the shift-add one is `FastMod.ExecuteFaultsExactly`.
- `rtl/lca_modmul_fast.sv:294-296` says the last ML-DSA stage is canonical for every 48-bit payload.
  It is for every payload the stage before can deliver (`ModmulFast.DsaStages` covers every 48-bit
  product), but on its own exactly for payloads whose two folds are below twice the modulus
  (`ModmulFast.StageCCanonicalExactly`), and 2^48 - 1 is not one (`ModmulFast.StageCNotAlwaysCanonical`).
- `basemul` with overlapping buffers is right for every memory content exactly when no coefficient is
  overwritten before its last use: the result may start one word before the left factor, and no other
  overlap is harmless (`BaseMul.OverlapExactly`).
- The doc comment of `compute_cycle_activity` says the state label of an edge comes from the values
  latched at the previous edge. The code takes the values in force just before the edge's own block.
  The two labels agree for every rule set over some signals exactly when the same signals read 1 and
  the same read 0 in both and, if any of them reads 1 and so could mean busy, all have the same number
  (`VcdActivity.LatchedExactly`). They do when no block between the edges touches a state signal
  (`VcdActivity.QuietLabelIsLatched`), and not always (`VcdActivity.LabelNotAlwaysLatched`).
- Fitting a value to a declared width of 0 keeps it whole, because `value[-0:]` is everything; so
  fitting is reduction modulo 2^width exactly when the width is positive or the value is zero
  (`VcdValues.NormaliseKeepsNumber`). Declared widths are any integers, as in the parser.
- A trace built from value changes always passes its interval and timestamp checks. It is still
  refused when the clock rate rounds to zero, which is exactly when the sampling interval is two
  seconds or more (`PowerTrace.TraceFromRecords`).
- The engine never reduces ML-DSA sums between layers. Forward, nothing wraps for any input up to
  2080440319 in magnitude; back, where sums double in each of the eight layers, for any input up to
  8388607 (`AccelRuns.DsaForwardCommand`, `AccelRuns.DsaInverseCommand`).
- In the RTL, reset cancels even a response that is being taken at the same edge; the event log of
  `LcaModmul` records such a response as cancelled.

## Model

| member | source | states |
|---|---|---|
| KeccakF1600.MacroIsRotation | firmware/fips202_lca.c:23 | the shift-XOR macro is the reference's shift-OR rotation at every amount the code uses |
| KeccakF1600.Pass | firmware/fips202_lca.c:125-312 | one pass, with its A/E renaming and its reused BC and D temporaries, is two rounds of theta, rho, pi, chi and iota on every state |
| KeccakF1600.StatePermuteSw | firmware/fips202_lca.c:80-341 | the twelve unrolled passes leave the 24 rounds of Keccak-f[1600] in the state array; what a round does to each bit, its constants included, is stated by the KeccakBits rows |
| KeccakReference.TargetDecodes | test/fullchip_datapath_smoke.cc:103 | the lane coordinates can be recovered from the store index, so the scattered stores hit 25 different lanes |
| KeccakReference.TargetIsPi | test/fullchip_datapath_smoke.cc:103 | storing lane (x, y) at the computed index is the pi mapping of section 3.2.3 of FIPS 202 |
| KeccakReference.ThetaRhoPi | test/fullchip_datapath_smoke.cc:93-105 | the loops over columns and coordinates compute pi of rho of theta |
| KeccakReference.ChiBack | test/fullchip_datapath_smoke.cc:106-112 | chi is written back over the state without reading a lane it already overwrote |
| KeccakReference.KeccakReference | test/fullchip_datapath_smoke.cc:67-115 | the plain permutation is the same 24 rounds as the unrolled one, pinned bit by bit by the KeccakBits rows |
| LaneBits.BitOfByteOf | firmware/fips202_lca.c:51-55 | byte j that store64 writes is bits 8j to 8j + 7 of the lane, least significant bit first, against literal one-bit masks |
| LaneBits.BitOfLoad64 | firmware/fips202_lca.c:34-41 | bit 8j + k of a loaded lane is bit k of the j-th byte in memory |
| LaneBits.BitOfByteInLane | firmware/fips202_lca.c:482 | a byte shifted by 8j fills exactly bits 8j to 8j + 7 |
| LaneBits.Bitwise | firmware/fips202_lca.c:125-150 | XOR, AND, OR and NOT of lanes act on each bit alone |
| LaneBits.BitOfRotl | firmware/fips202_lca.c:23 | at every amount in use, bit i of a rotated lane is the bit n places below, modulo 64 |
| KeccakBits.ThetaBit | test/fullchip_datapath_smoke.cc:93-102 | theta on single bits, Algorithm 1 of FIPS 202 |
| KeccakBits.RhoBit | test/fullchip_datapath_smoke.cc:103 | rho on single bits, Algorithm 2 |
| KeccakBits.RhoIsWalk | test/fullchip_datapath_smoke.cc:82-86 | the rotation offsets are (t + 1)(t + 2)/2 modulo 64 along the walk (x, y) to (y, 2x + 3y), which visits every lane but (0, 0) |
| KeccakBits.PiBit | test/fullchip_datapath_smoke.cc:103 | pi on single bits, Algorithm 3 |
| KeccakBits.ChiBit | test/fullchip_datapath_smoke.cc:106-112 | chi on single bits, Algorithm 4 |
| KeccakBits.RoundConstantBits | firmware/fips202_lca.c:57-71 | every round constant is the one of Algorithms 5 and 6: bit 2^j - 1 is rc(j + 7i) of the degree-8 shift register for j from 0 to 6, every other bit is clear |
| KeccakBits.IotaBit | test/fullchip_datapath_smoke.cc:113 | iota changes lane (0, 0) alone, by those bits |
| SpongeSpec.LoadStore | firmware/fips202_lca.c:34-55 | load64 undoes store64 |
| SpongeSpec.FromBytesOfBytes | firmware/fips202_lca.c:34-55 | the byte view of a state determines its 25 lanes |
| SpongeSpec.BytesOfFromBytes | firmware/fips202_lca.c:34-55 | every 200 bytes are the byte view of some state |
| SpongeSpec.PadFills | firmware/fips202_lca.c:392-412 | the padded message has floor(len/r) + 1 blocks |
| SpongeLaws.AbsorbSplits | firmware/fips202_lca.c:473-495 | absorbing m1 then m2 leaves the state and cursor of absorbing m1 + m2 |
| SpongeLaws.AbsorbCursor | firmware/fips202_lca.c:473-495 | the cursor is the number of bytes absorbed so far modulo the rate |
| SpongeLaws.AbsorbOneBlock | firmware/fips202_lca.c:478-488 | one turn of the block loop is absorbing that many bytes one at a time |
| SpongeLaws.IncrementalMatchesOneShot | firmware/fips202_lca.c:382-413 | init, absorb and finalize reach the lanes keccak_absorb reaches if and only if the domain byte leaves bit 7 clear or the message is not one short of a block |
| SpongeLaws.LastPermutation | firmware/fips202_lca.c:407-437 | the state keccak_absorb leaves is one permutation short of the absorbed state of FIPS 202 |
| SpongeLaws.SqueezeSplits | firmware/fips202_lca.c:531-556 | squeezing n1 then n2 bytes gives the bytes and the state of squeezing n1 + n2 |
| SpongeLaws.SqueezeCounter | firmware/fips202_lca.c:531-556 | the counter is minus the number of bytes squeezed so far modulo the rate |
| SpongeLaws.SqueezeIsSponge | firmware/fips202_lca.c:531-556 | from a finalized state the bytes are the squeezing phase of FIPS 202, for every length |
| SpongeLaws.SqueezeWholeBlocks | firmware/fips202_lca.c:428-438 | squeezing n times the rate from a finalized state gives the bytes and state of keccak_squeezeblocks for n blocks |
| SpongeLaws.ShorterIsPrefix | firmware/fips202_lca.c:728-778 | a shorter output is a prefix of a longer one |
| SpongeLaws.AbsorbCallsConcat | firmware/fips202_lca.c:473-495 | any number of absorb calls is one absorb of the concatenation |
| SpongeLaws.SqueezeCallsTotal | firmware/fips202_lca.c:531-556 | the output of any number of squeeze calls is one squeeze of the total length |
| SpongeLaws.IncrementalRunIsSponge | firmware/fips202_lca.c:450-556 | for every split of input and output into calls the incremental interface computes the sponge of section 4 of FIPS 202 |
| Padding.PadIsPad101 | firmware/fips202_lca.c:401-409 | the byte padding is the domain suffix followed by pad10*1 of section 5.1 of FIPS 202, bit for bit |
| Padding.DomainSuffixes | firmware/fips202_lca.c:832 | the domain bytes the SHA-3 and SHAKE code uses carry the suffixes 01 and 1111 of sections 6.1 and 6.2 of FIPS 202 |
| Padding.PadInjective | firmware/fips202_lca.c:392-412 | equal padded blocks mean equal message and equal domain byte |
| Padding.PaddingDeterminesMessage | firmware/fips202_lca.c:392-412 | for one domain byte the blocks determine the message if and only if its low seven bits are not all zero |
| Padding.NoLowBitsCollide | firmware/fips202_lca.c:401-409 | the colliding pair when they are |
| Fips202.LoadLane | firmware/fips202_lca.c:34-41 | the byte loop computes Load64 of the eight bytes, which LaneBits.BitOfLoad64 shows to be the little-endian word |
| Fips202.StoreLane | firmware/fips202_lca.c:51-55 | the eight bytes of the lane, in the order of LaneBits.BitOfByteOf, are written and nothing else in memory changes |
| Fips202.XorByteIntoLane | firmware/fips202_lca.c:482 | XORing a shifted byte into a lane changes exactly one byte of the state |
| Fips202.XorBlock | firmware/fips202_lca.c:393-395 | XORing whole lanes is XORing the r message bytes into the front of the state |
| Fips202.PaddedBlock | firmware/fips202_lca.c:402-409 | the buffer ends up holding the padded rest, also when domain byte and final bit share a byte |
| Fips202.KeccakAbsorb | firmware/fips202_lca.c:382-413 | from any old lanes, the state of the padded message just before its last permutation |
| Fips202.KeccakSqueezeBlocks | firmware/fips202_lca.c:428-438 | exactly nblocks blocks are written, each the rate part after one more permutation, and the rest of the output stays |
| Fips202.WholeAndPartialBlocks | firmware/fips202_lca.c:728-747 | whole blocks plus the front of one more are the first bytes of the sponge |
| Fips202.Shake | firmware/fips202_lca.c:728-778 | one-shot SHAKE is the sponge of FIPS 202 for every message and output length, and writes nothing past the output length |
| Fips202.Sha3 | firmware/fips202_lca.c:826-839 | the one-shot digests are the sponge with domain byte 0x06 truncated to the digest length |
| Fips202.IncContext.Init | firmware/fips202_lca.c:450-457 | all lanes and the cursor are zero whatever malloc returned |
| Fips202.IncContext.XorBytes | firmware/fips202_lca.c:479-483 | the byte loop XORs n message bytes from the cursor on and touches no other byte |
| Fips202.IncContext.Absorb | firmware/fips202_lca.c:473-495 | absorbing is absorbing byte by byte; the cursor stays below the rate; the block loop terminates; no lane write leaves the 25 lanes |
| Fips202.IncContext.Finalize | firmware/fips202_lca.c:510-516 | domain byte at the cursor, final bit at the end of the rate, cursor reset |
| Fips202.IncContext.SqueezeBlocks | firmware/fips202_lca.c:546-555 | the block loop emits the byte-by-byte output and leaves the unused rest of the last block countable |
| Fips202.IncContext.Squeeze | firmware/fips202_lca.c:531-556 | squeezing is squeezing byte by byte, leftovers first; the leftover counter stays below the rate |
| Fips202.Sha3IncFinalize | firmware/fips202_lca.c:804-816 | finalize and one block give the front of the squeezed sponge state |
| Fips202.Sha3IncrementalIsSponge | firmware/fips202_lca.c:780-816 | for every split of the message the incremental digest is the one-shot digest |
| Twiddles.BitReverse | tests/test_external_vectors.py:44-49 | the loop reverses the low bits |
| Twiddles.BitRevInvolution | tests/test_external_vectors.py:44-49 | reversing twice restores every value that fits |
| Twiddles.RootIsSquare | tests/test_external_vectors.py:56-73 | the root of each block is the square of the twiddle its butterflies use |
| Twiddles.BitRevChild | tests/test_external_vectors.py:44-73 | doubling an index and adding a bit halves the reversed exponent and puts the bit on top |
| Twiddles.RootsOfLastLayer | tests/test_external_vectors.py:56-73 | after all n layers of a transform the exponents are 2 BitRev(i) + 1 over n bits; 7 for ML-KEM, 8 for ML-DSA |
| Twiddles.MirroredExponents | tests/test_external_vectors.py:83-93 | the exponents of mirrored blocks of a layer add up to half the order of the root, 128 for ML-KEM and 256 for ML-DSA |
| Twiddles.MirroredZetas | tests/test_external_vectors.py:83-93 | counting the twiddle index down and negating gives the inverse of the forward twiddle of the same block |
| Field.RootHalfway | tests/test_external_vectors.py:56-58 | 17^128 is -1 modulo 3329 |
| NttLayers.EvalIsPowerSum | tests/test_external_vectors.py:61-74 | the nested evaluation used in the proofs is the plain sum of coefficients times powers |
| NttLayers.ForwardKeeps | tests/test_external_vectors.py:67-73 | a layer takes f reduced modulo each block's polynomial to f reduced modulo its two factors |
| NttLayers.NttMeaning | tests/test_external_vectors.py:61-74 | Algorithm 9 of FIPS 203 means what section 4.3 says: output pair i is the sums of even and of odd coefficients times powers of 17^(2 BitRev7(i) + 1), for every polynomial |
| NttInverse.BackwardUndoes | tests/test_external_vectors.py:77-94 | inverse layer l undoes forward layer l up to a factor 2 |
| NttInverse.InverseOfForward | tests/test_external_vectors.py:61-94 | inverse_ntt(forward_ntt(f)) = f for every canonical polynomial |
| NttInverse.ForwardOfInverse | tests/test_external_vectors.py:61-94 | forward_ntt(inverse_ntt(g)) = g for every canonical polynomial |
| NttInverse.InverseScales | tests/test_external_vectors.py:77-94 | a constant factor passes through the inverse transform |
| NttLoops.Fips203Zetas | tests/test_external_vectors.py:56-58 | the table holds 17^BitRev7(i) mod 3329 |
| NttLoops.ForwardBlock | tests/test_external_vectors.py:71-72 | the inner loop, in place, replaces one block by the next layer and leaves the others; it raises exactly when the block holds a non-canonical coefficient |
| NttLoops.ForwardLayer | tests/test_external_vectors.py:68-72 | the middle loop computes one layer and advances the twiddle index to the next layer's first |
| NttLoops.ForwardNtt | tests/test_external_vectors.py:61-74 | the three nested loops compute the transform, and raise exactly on non-canonical input: no butterfly inside ever sees a non-canonical value |
| NttLoops.BackwardLayer | tests/test_external_vectors.py:88-92 | the same for the inverse, the twiddle index counting down |
| NttLoops.InverseNttInPlace | tests/test_external_vectors.py:77-94 | the loops and the final scaling compute the inverse transform, and raise exactly on non-canonical input |
| Negacyclic.NttMultiplies | tests/test_external_vectors.py:61-74 | the transform turns multiplication modulo X^256 + 1 into 128 products modulo X^2 - gamma_i (section 4.3.1 of FIPS 203) |
| Montgomery.ReduceMeetsContract | rtl/lca_ntt_accel.sv:106-115 | the engine's Montgomery reduction meets the contract assumed of the firmware's: exact division, no wrap, value * 2^-16 modulo 3329 below 3329 in magnitude |
| Montgomery.ReduceOfProduct | rtl/lca_ntt_accel.sv:106-115 | for every product of two 16-bit words the division is exact and nothing wraps |
| Montgomery.BarrettIsCentred | rtl/lca_ntt_accel.sv:117-125 | for every 16-bit value, the residue nearest to zero |
| KemTwiddles.TableIsMontgomery | firmware/ntt_mmio.c:14-31 | every table entry is 17^BitRev7(k) * 2^16 modulo 3329 |
| KemTwiddles.SlotZetaIsGamma | firmware/ntt_mmio.c:14-31 | the upper half of the table, negated for odd slots, holds the roots gamma_i in Montgomery form |
| BaseMul.BaseMul | firmware/ntt_mmio.c:39-46 | the five statements over one memory, wherever result and factors lie |
| BaseMul.SafeProduct | firmware/ntt_mmio.c:39-46 | where no coefficient is overwritten too early, the 16-bit code computes the product modulo X^2 - gamma times 2^-16 without wrapping and changes nothing else |
| BaseMul.OverlapExactly | firmware/ntt_mmio.c:39-46 | it is right for every memory content if and only if no coefficient is overwritten before its last use |
| BaseMul.FirmwareTwiddles | firmware/ntt_mmio.c:14-31 | the firmware's table provides the twiddles the 128 products need |
| BaseMul.NttMultiplication | firmware/ntt_mmio.c:35-46 | transform, multiply pairwise, transform back is multiplication modulo X^256 + 1 up to 2^-16 |
| BaseMul.MultiplySlots | firmware/ntt_mmio.c:39-46 | basemul on every slot, results reduced |
| BaseMul.MultiplyPolynomials | tests/test_external_vectors.py:61-94 | the same for the modelled loops composed |
| ShiftAdd.StepKeepsProduct | model/reference.py:37-45 | accumulated plus outstanding product is unchanged modulo q by one add-and-double step |
| ShiftAdd.ModMul | model/reference.py:29-46 | raises exactly on non-canonical operands; otherwise the product of a and the low 24 bits of b modulo q, for any q |
| ShiftAdd.StepsSuffice | model/reference.py:29-46 | 24 steps give a*b mod q for all canonical operands if and only if q is at most 2^24 |
| ShiftAdd.CtButterfly | model/reference.py:49-55 | raises exactly on a non-canonical input; otherwise, for any q, the canonical pair (a + bz, a - bz) mod q for the low 24 bits z of zeta, which is zeta itself up to q = 2^24 |
| ShiftAdd.GsButterfly | model/reference.py:58-63 | raises exactly on a non-canonical input; otherwise, for any q, the canonical pair (a + b, (a - b)z) mod q for the low 24 bits z of zeta |
| ShiftAdd.ExecuteReference | model/reference.py:66-75 | what each opcode returns and exactly when it raises; a multiplication ignores zeta |
| ShiftAdd.AddModChecked | model/modarith.py:32-38 | one subtraction reduces the sum; errors exactly on unsupported modulus or non-canonical operand |
| ShiftAdd.SubModChecked | model/modarith.py:41-46 | the difference modulo q, same errors |
| ShiftAdd.MulModShiftAdd | model/modarith.py:55-82 | a*b mod q in word_bits steps, for every width from 24 on; no inner addition ever raises |
| ShiftAdd.Butterfly | model/modarith.py:93-104 | the Cooley-Tukey pair, the product and the step count |
| FastMod.CondSubSubtracts | model/fastmod.py:80-92 | the borrow-selected add-back is a conditional subtraction for every width that holds both operands |
| FastMod.KRedIdentity | model/fastmod.py:100-129 | kred(C) = 13C - 3329 floor(C/256) for every integer, negative included |
| FastMod.KRedRanges | model/fastmod.py:100-129 | the two stated output ranges |
| FastMod.KRedRangesTight | model/fastmod.py:100-129 | both ends of both ranges are attained |
| FastMod.KemNormalizeReduces | model/fastmod.py:141-158 | two conditional subtractions reduce every value from -3329 to below 2*3329, more than the stated range |
| FastMod.KRed2NormScales | model/fastmod.py:161-167 | kred2_norm(C) = 169C mod 3329 on the 24-bit domain |
| FastMod.ReduceKemIsMod | model/fastmod.py:170-197 | reduce_kem(C) = C mod 3329 on the whole 24-bit domain |
| FastMod.DsaFoldIdentity | model/fastmod.py:212-231 | dsa_fold(C) = C - q floor(C/2^23) for every integer |
| FastMod.DsaFoldBounds | model/fastmod.py:234-266 | the four-step bound chain |
| FastMod.DsaFoldBoundsTight | model/fastmod.py:234-266 | each bound of the chain is reached |
| FastMod.ReduceDsaIsMod | model/fastmod.py:234-266 | reduce_dsa(C) = C mod 8380417 for all C below 2^46 |
| FastMod.MulModRaisesExactly | model/fastmod.py:297-303 | raises exactly on an unsupported modulus or a non-canonical operand, otherwise a*b mod q |
| FastMod.ExecuteFaultsExactly | model/fastmod.py:306-324 | for every selector and operands: no fault if and only if the selector is 0 and both operands are in 0..3328 or it is 1 and both are in 0..8380416; a fault carries zero, otherwise a*b mod q, which is also the value of the 24-step multiplier; nothing is raised |
| FastMod.FaultIsRaise | model/fastmod.py:288-324 | a request faults exactly where modulus_for_id raises or mulmod raises at the selected modulus |
| LcaModmul.Multiplier.Clock | rtl/lca_modmul.sv:49-90 | one clock edge: every register gets its next value computed from the values before the edge |
| LcaModmul.AddModIsReduction | rtl/lca_modmul.sv:32-45 | on canonical operands the truncated W-bit adder adds modulo q |
| LcaModmul.AddModOnWords | rtl/lca_modmul.sv:32-45 | on any words the adder takes the modulus off at most once and keeps W bits |
| LcaModmul.WorkingStep | rtl/lca_modmul.sv:49-90 | product + multiplicand * multiplier is unchanged modulo q by a busy edge, and one multiplier bit is used up |
| LcaModmul.StepKeepsInv | rtl/lca_modmul.sv:56-90 | every edge, whatever its inputs, keeps the invariant linking the registers to the log of requests and responses |
| LcaModmul.RunKeepsInv | rtl/lca_modmul.sv:56-90 | the invariant holds before every edge of every run |
| LcaModmul.ResponsesMatchRequests | rtl/lca_modmul.sv:92-129 | over every run, responses match accepted requests one for one and in order except those cancelled by reset; busy and rsp_valid are never both high; ready is exactly idle; the count stays below W while busy |
| LcaModmul.BusyCount | rtl/lca_modmul.sv:56-90 | m edges after acceptance the machine is busy with count m - 1 and its registers hold the request's partial product |
| LcaModmul.AnsweredAfterW | rtl/lca_modmul.sv:56-90 | a request accepted and not reset is answered with a*b mod q at exactly the W-th edge after it, for every W from 2 on |
| LcaModmul.ResponseHolds | rtl/lca_modmul.sv:92-129 | a response that is not taken keeps valid and data for any number of edges without reset |
| ModmulFast.HwKRed2NormScales | rtl/lca_modmul_fast.sv:93-121 | the 32-bit K2-RED chain gives 169C mod 3329 for every 24-bit word |
| ModmulFast.HwFinalCanonical | rtl/lca_modmul_fast.sv:141-149 | the borrow-selected subtraction is canonical if and only if its input is below twice the modulus |
| ModmulFast.KemStages | rtl/lca_modmul_fast.sv:205-236 | both ML-KEM stages at hardware width give C mod 3329 for every 24-bit product |
| ModmulFast.DsaStages | rtl/lca_modmul_fast.sv:205-236 | both ML-DSA stages at hardware width give C mod 8380417 for every 48-bit product |
| ModmulFast.StageCCanonicalExactly | rtl/lca_modmul_fast.sv:294-297 | the last stage alone is canonical if and only if two folds of its payload are below twice the modulus |
| ModmulFast.StageCNotAlwaysCanonical | rtl/lca_modmul_fast.sv:294-297 | a 48-bit payload for which it is not |
| ModmulFast.Pipeline.Clock | rtl/lca_modmul_fast.sv:242-269 | one clock edge of all three stage registers |
| ModmulFast.AnswerIsExecute | model/fastmod.py:320-324 | what the pipeline is held against is what the integer model returns |
| ModmulFast.StagesAnswer | rtl/lca_modmul_fast.sv:162-236 | the request check accepts exactly selector 0 with operands below 3329 and selector 1 with operands below 8380417; a request through all stages is answered with the product modulo q, a bad one with zero |
| ModmulFast.ResponsesInOrder | rtl/lca_modmul_fast.sv:242-269 | over every run with stalls, bubbles and resets, the k-th response since a reset answers the k-th accepted request; at most three are in flight |
| ModmulFast.ResponsesExactly | rtl/lca_modmul_fast.sv:162-269 | those responses spelled out: fault clear if and only if the request selects 0 with operands below 3329 or 1 with operands below 8380417, and then the product modulo that number, otherwise zero |
| ModmulFast.AnsweredAfterTwo | rtl/lca_modmul_fast.sv:198-203 | an accepted request is answered in the output register when the pipeline has advanced exactly twice, and stays there while it stalls |
| ModmulFast.AnsweredInThree | rtl/lca_modmul_fast.sv:198-269 | without back-pressure every offered request is accepted and answered three edges later |
| ModmulFast.StallFreezes | rtl/lca_modmul_fast.sv:198-203 | back-pressure changes no register and accepts nothing |
| ModmulFast.FaultIsZero | rtl/lca_modmul_fast.sv:352-354 | a faulting output register holds zero in every reachable state |
| Butterflies.CtIsExact | rtl/lca_ntt_accel.sv:166-172 | the forward butterfly in 16-bit words is (a + bz, a - bz) modulo 3329 without wrapping, growing by at most 3328 |
| Butterflies.GsIsExact | rtl/lca_ntt_accel.sv:173-181 | the inverse butterfly is (a + b, (b - a)z) modulo 3329, back below 3329 |
| Butterflies.KemButterfliesOnWords | rtl/lca_ntt_accel.sv:166-181 | on arbitrary words only the low 16 bits count, and sums and differences are cut to 16 bits |
| Butterflies.DsaReduceIsExact | rtl/lca_ntt_accel.sv:93-104 | mldsa_montgomery_reduce divides exactly, without wrapping: value * 2^-32 modulo 8380417, below 8380417 in magnitude |
| Butterflies.DsaButterfliesOnWords | rtl/lca_ntt_accel.sv:155-165 | on arbitrary 32-bit words sums and differences wrap at 32 bits and products are reduced exactly |
| Butterflies.DsaCtIsExact | rtl/lca_ntt_accel.sv:155-160 | the forward ML-DSA butterfly is (a + bz, a - bz) modulo 8380417, growing by at most 8380416 |
| Butterflies.DsaGsIsExact | rtl/lca_ntt_accel.sv:161-165 | the inverse ML-DSA butterfly is (a + b, (a - b)z), at most doubling |
| DsaTwiddles.DsaTableIsMontgomery | rtl/lca_ntt_zetas.svh:5-268 | every entry but the unused first is 1753^BitRev8(k) * 2^32 modulo 8380417 |
| AccelLayers.ForwardIsNtt | rtl/lca_ntt_accel.sv:166-172 | seven hardware layers are the transform of section 4.3 of FIPS 203 modulo 3329 for every input up to 9471 in magnitude |
| AccelLayers.InverseIsMontgomeryNtt | rtl/lca_ntt_accel.sv:173-181 | seven inverse layers and the scaling are the inverse transform times 2^16 for every input up to 16383 |
| DsaLayers.DsaForwardKeeps | rtl/lca_ntt_accel.sv:282-327 | a forward ML-DSA layer takes f modulo the polynomials of layer l to f modulo those of layer l + 1 |
| DsaLayers.DsaBackwardUndoes | rtl/lca_ntt_accel.sv:282-327 | an inverse layer takes twice as much of f back from layer l + 1 to layer l |
| DsaLayers.DsaForwardMeaning | rtl/lca_ntt_accel.sv:282-327 | eight forward layers leave f at the roots 1753^(2 BitRev8(i) + 1) of section 7.5 of FIPS 204, for every input up to 2080440319 in magnitude, without wrapping |
| DsaLayers.DsaInverseMeaning | rtl/lca_ntt_accel.sv:282-352 | eight inverse layers and the scaling take the values of f at the roots, up to 8388607 in magnitude, to f times 2^32 |
| NttAccel.AddressDetermined | rtl/lca_ntt_accel.sv:50-55 | parity and row determine the address, so the two banks hold 256 different words |
| NttAccel.ButterflyIsUpdate | rtl/lca_ntt_accel.sv:271-280 | writing the two results into opposite banks updates exactly those two logical words |
| NttAccel.LanesMakeWord | rtl/lca_ntt_accel.sv:225-233 | the byte lanes are the base-256 digits of the word |
| NttAccel.MergedLanes | rtl/lca_ntt_accel.sv:225-233 | each byte lane of a written word is the data's where its strobe is set and the old word's elsewhere |
| NttAccel.HostWrite | rtl/lca_ntt_accel.sv:223-234 | a host write to the idle engine replaces one logical word by that merge and changes nothing else; while busy or scrubbing it changes nothing |
| NttAccel.ResetEdge | rtl/lca_ntt_accel.sv:191-203 | a reset clears every control register and no word, and re-arms the scrub |
| NttAccel.Engine.Clock | rtl/lca_ntt_accel.sv:190-386 | one clock edge of registers and banks under every command, host write, scrub and reset |
| AccelRuns.StepKeepsBusy | rtl/lca_ntt_accel.sv:190-386 | busy exactly outside idle, done only inside it, and no host write lands while busy |
| AccelRuns.PeerParity | rtl/lca_ntt_accel.sv:15-17 | the two words of every butterfly of every layer lie in opposite banks |
| AccelRuns.StageStep | rtl/lca_ntt_accel.sv:271-327 | each butterfly edge moves to the next pair, block or layer of the schedule with its twiddle, and memory follows |
| AccelRuns.CommandCompletes | rtl/lca_ntt_accel.sv:237-360 | from an accepted start of any of the four commands, busy for exactly 1024, 1280, 896 or 1152 edges whatever the host does, then done with the transform of the memory started from |
| AccelRuns.ForwardCommand | rtl/lca_ntt_accel.sv:237-360 | command 2 leaves the transform of section 4.3 of FIPS 203 modulo 3329 |
| AccelRuns.InverseCommand | rtl/lca_ntt_accel.sv:237-360 | command 3 leaves the inverse transform times 2^16 |
| AccelRuns.DsaForwardCommand | rtl/lca_ntt_accel.sv:237-360 | command 0 leaves the values at the 256 roots of section 7.5 of FIPS 204, modulo 8380417 |
| AccelRuns.DsaInverseCommand | rtl/lca_ntt_accel.sv:237-360 | command 1 takes those values back to the polynomial times 2^32 |
| AccelRuns.ScrubCommand | rtl/lca_ntt_accel.sv:204-220 | a scrub launched in any state leaves 256 zero words after exactly 256 edges |
| SlotMask.HasAfterAdd | firmware/runtime.c:68-70 | marking a slot sets its bit and no other |
| SlotMask.HasAfterDrop | firmware/runtime.c:92 | releasing a slot clears its bit and no other |
| Runtime.Machine.Memset | firmware/runtime.c:41-47 | exactly count bytes from dest on become value |
| Runtime.Machine.Memmove | firmware/runtime.c:24-39 | for every overlap and length the destination range becomes the old source range and every other byte stays |
| Runtime.Machine.Malloc | firmware/runtime.c:62-76 | the loop allocates and scrubs the first free slot, or returns NULL |
| Runtime.Machine.Free | firmware/runtime.c:78-93 | NULL and pointers outside the pool change nothing; otherwise the block is scrubbed and its slot released |
| Runtime.StartInv | firmware/runtime.c:12-13 | the zero-initialised pool satisfies the invariant |
| Runtime.StepKeepsInv | firmware/runtime.c:62-93 | each malloc, well-behaved free or write to a held block keeps: mask bits are exactly the live blocks, free slots are all zero |
| Runtime.RunKeepsInv | firmware/runtime.c:62-93 | the same over every run |
| Runtime.RunKeepsObjects | firmware/runtime.c:62-93 | over every well-behaved run the live blocks are independent objects: each holds zeros overwritten by the writes to it since its malloc |
| Runtime.MallocIsFresh | firmware/runtime.c:62-76 | a returned block is not live, is zero, overlaps no live block, and no byte outside it changed |
| Runtime.FreeScrubs | firmware/runtime.c:78-93 | freeing a live block zeroes it and changes no other byte |
| Runtime.FreeExactly | firmware/runtime.c:78-93 | free of any pointer: outside the 6656 bytes of the pool nothing changes; inside, the 208 bytes of the block it falls in become zero, that mask bit clears and nothing else changes |
| Runtime.MallocTakesLowest | firmware/runtime.c:67-74 | the block returned is the lowest of the 32 blocks of 208 bytes that is not live |
| Runtime.MallocFailsExactly | firmware/runtime.c:62-76 | malloc returns NULL if and only if the size is 0 or above 208 or 32 blocks are live |
| Welford.StatsAreDefinitions | tools/tvla.py:62-74 | after any updates the accumulator holds the count, the mean and the sum of squared deviations from the mean |
| Welford.VarianceIsUnbiased | tools/tvla.py:76-81 | the variance is the unbiased sample variance |
| Welford.VarianceIsPairwise | tools/tvla.py:76-81 | the variance is the squared differences of all pairs over n(n - 1), with no mean in it |
| Welford.OrderDoesNotMatter | tools/tvla.py:62-74 | permuting the observations does not change the accumulator |
| Welford.Accumulator.Update | tools/tvla.py:70-74 | one in-place update |
| Welford.Accumulator.GetVariance | tools/tvla.py:76-81 | zero below two observations, otherwise m2/(count - 1) |
| Welford.FeedTrace | tools/tvla.py:261-262 | the inner loop feeds point i of a trace to accumulator i and to no other |
| Welford.Accumulate | tools/tvla.py:258-265 | accumulator i ends with the statistics of column i of the trace matrix |
| Welford.DegenerateExactly | tools/tvla.py:166-181 | a point is flagged degenerate if and only if both sets are constant there at different values; a returned statistic never divides by zero |
| Welford.WelchExactly | tools/tvla.py:166-181 | the statistic is refused exactly below two traces and zero exactly for equal constants; its value is the difference of the means over the root of Variance(xs)/|xs| + Variance(ys)/|ys| |
| VcdValues.DifferingIsMetric | tools/power_trace_from_vcd.py:308-319 | on values of one width the Hamming distance is a metric |
| VcdValues.HammingDistanceCounts | tools/power_trace_from_vcd.py:308-319 | the distance is the number of places at which the values, extended to one width if needed, differ |
| VcdValues.ExtendedDigit | tools/power_trace_from_vcd.py:151-161 | every digit of an extended value: the value at the right, its own first digit if unknown to the left, else zero, and x for an empty value |
| VcdValues.CutDigit | tools/power_trace_from_vcd.py:151-161 | a value too long keeps its last digits |
| VcdValues.BinaryDigit | tools/power_trace_from_vcd.py:365 | bit i of the number of a digit string is its i-th digit from the right |
| VcdValues.NormaliseKeepsNumber | tools/power_trace_from_vcd.py:151-161 | fitting a binary value to a width is reduction modulo 2^width if and only if the width is positive or the value zero |
| VcdValues.HammingDistanceAgrees | tools/power_trace_from_vcd.py:308-319 | for values of any widths and letter case the distance is symmetric, and zero if and only if they are equal or, for different widths, agree once extended |
| VcdBlocks.BuildBlocks | tools/power_trace_from_vcd.py:235-291 | raises exactly when a line is malformed or a stamp goes back; block times strictly increase from zero; a block starts at each record that opens a new time, with the earlier blocks holding exactly the earlier records; replaying the blocks is replaying the records |
| VcdBlocks.LastWriterWins | tools/power_trace_from_vcd.py:264-291 | an identifier has a value once a record has set it, and then what the last such record set: a declared vector or scalar fitted to its width, a real in small letters, other text as it stands; vectors of undeclared identifiers set nothing |
| StateLabels.LabelsAgreeExactly | tools/power_trace_from_vcd.py:351-371 | two value maps get the same label from every rule set over some signals if and only if the same signals read 1, the same read 0 and, if any reads 1, all have the same number |
| StateLabels.ClassifyExactly | tools/power_trace_from_vcd.py:351-371 | asserted reset is zeroize, else fault, else a busy design is kem or dsa by its modulus or the default, else idle; a signal without a value asserts nothing |
| StateLabels.CollectedLabel | tools/power_trace_from_vcd.py:474-504 | collecting the rule signals with x for unseen ones does not change the label |
| VcdActivity.EdgesAreRises | tools/power_trace_from_vcd.py:474-492 | the sampled blocks are exactly those where the replayed clock rises, in order |
| VcdActivity.TimeToNsExactly | tools/power_trace_from_vcd.py:440-447 | a stamp becomes the whole number of nanoseconds it is, and is refused exactly when it is none |
| VcdActivity.TogglesCount | tools/power_trace_from_vcd.py:494-501 | with one weight for all signals the activity is that weight times the number of changed places of all signals |
| VcdActivity.FirstDriveCounts | tools/power_trace_from_vcd.py:460-493 | a register without a value counts with every bit of its declared width when first driven to known digits |
| VcdActivity.CountToggles | tools/power_trace_from_vcd.py:497-501 | the loop that skips zero distances computes the weighted sum over all tracked signals |
| VcdActivity.SampleBlocks | tools/power_trace_from_vcd.py:474-512 | with its running dictionaries the loop produces one sample per rising edge, each defined by replay |
| VcdActivity.ComputeCycleActivity | tools/power_trace_from_vcd.py:450-520 | raises exactly when nothing is tracked, an edge is not at a whole nanosecond or there are fewer than two edges; otherwise sample i is the weighted Hamming distance between the values replayed to edges i - 1 and i |
| VcdActivity.LatchedExactly | tools/power_trace_from_vcd.py:456-503 | the documented label (values latched at the edge before) is the computed one for every rule set over some signals if and only if the values latched and those in force before the edge read the same |
| VcdActivity.LabelIsLatched | tools/power_trace_from_vcd.py:456-503 | a sample has the documented label when they read the same for its rules |
| VcdActivity.QuietLabelIsLatched | tools/power_trace_from_vcd.py:456-503 | in particular when no block between touches a state signal |
| VcdActivity.LabelNotAlwaysLatched | tools/power_trace_from_vcd.py:456-503 | four blocks for which it is not |
| VcdActivity.TimestampsIncrease | tools/power_trace_from_vcd.py:440-447 | increasing block times give nonnegative, strictly increasing nanosecond stamps |
| PowerTrace.Validate | model/power_contract.py:48-56 | the loop accepts exactly traces with names, samples that are nonnegative, of one of the six states and of positive clock rate, and strictly increasing timestamps |
| PowerTrace.RoundedIsNearest | tools/power_trace_from_vcd.py:600-603 | rounding gives the nearest integer, the even one of two |
| PowerTrace.IntervalIsMean | tools/power_trace_from_vcd.py:596-600 | the sampling interval is the time span over the number of intervals, rounded, in both branches |
| PowerTrace.IntervalIsPositive | tools/power_trace_from_vcd.py:601-602 | the refusal of a nonpositive interval never fires on increasing timestamps |
| PowerTrace.RatePositive | tools/power_trace_from_vcd.py:603 | the rounded clock rate is positive if and only if the interval is below two seconds |
| PowerTrace.BuildTrace | tools/power_trace_from_vcd.py:582-689 | for any samples, none included, what is returned and exactly when the trace is refused |
| PowerTrace.ActivityIsTraceable | tools/power_trace_from_vcd.py:450-520 | computed activity has nonnegative, increasing timestamps and allowed labels |
| PowerTrace.TraceFromRecords | tools/power_trace_from_vcd.py:904-911 | from records to trace: once activity is computed, the trace is accepted if and only if its names are set and the interval is below two seconds |

## Left out

- MMIO transfers and polling, the mailbox loop and entropy reads: they talk to hardware through registers that are not part of this model.
- `rtl/lca_butterfly.sv`, `rtl/lca_chip_top.sv`, `rtl/lca_keccak_f1600.sv`, `rtl/lca_secure_sram.sv` and the host link.
- NttAccel.Engine.Clock: a reset is taken at a clock edge instead of asynchronously.
- ModmulFast.Pipeline.Clock: the registers of a stage are one record.
- The body of PQClean's `montgomery_reduce` is not part of this model; `Montgomery.MontgomeryContract` states what is assumed of it, and the engine's own reduction is shown to meet it.
- The 26th word: the cursor of the incremental context is a field beside the 25 lanes instead of word 25 of the same array. Index checks show no lane write can reach it.
- The C sum `mlen + s_inc[25]` wraps for lengths within 200 bytes of the largest `size_t`; lengths are unbounded here.
- KeccakF1600.Pass: the body of the round loop stands as a method of its own; inner loops of other methods are factored out in the same way.
- The `shake*` and `sha3_*` context wrappers beyond the calls they make, and `exit` on allocation failure: thin wrappers.
- Runtime.StepKeepsInv: covers clients that free only what they hold, NULL or foreign pointers, and write only inside blocks they hold or outside the pool; freeing into the middle of a block is described by `Machine.Free` but not part of a well-behaved run.
- Floating point: statistics are over exact reals, the square root in `welch_t` is left unevaluated, and `assess` reads its series as rectangular down to the common length.
- TypeError for operands that are not integers: operands are integers here.
- VcdBlocks.BuildBlocks: lines are taken as already tokenised, any line the parser rejects being one malformed record; headers, command line, JSON, provenance and git probing are left out.
- VcdValues.HammingDistanceAgrees: lower-casing is that of ASCII letters.
- PowerTrace.TraceFromRecords: signal selection, name resolution and the final schema check are left out; `integrate_joules` too.
- PowerTrace.IntervalIsMean: rounds the exact mean, not the floating-point one.
- PowerTrace.BuildTrace: the two roundings are of exact quotients, not of floating-point ones; metadata is left out.
- `memcpy`, `memcmp`, SBOM, fabrication records, area tables and benchmarks: only easy members.
- Timing, power and side-channel statements.
