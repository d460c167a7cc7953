# Verified arithmetic, cipher modes and codecs

A Dafny model of the Mbed TLS routines that the kernel builds on, with proofs of what they
compute. Three parts:

1. **Big integers** (`bignum_core.c`, `bignum.c`, `bignum_mod.c`, `bignum_mod_raw.c`,
   `bn_mul.h`). Limb arrays of 32 or 64 bits are arrays updated in place, with the aliasing the
   code tolerates. Everything is stated through `Value`, the number a limb string stands for.
   From carry chains and multiply-accumulate the proofs go up to Montgomery multiplication,
   windowed exponentiation, long division, binary gcd, binary extended inverse and Miller-Rabin.
2. **Cipher modes** (`aes.c`, `cipher.c`, `cmac.c`, `ccm.c`) over a block cipher given as a pair
   of functions. Contexts are classes that take their data in pieces.
3. **Codecs** (`asn1write.c`, `asn1parse.c`, `base64.c`).

`dafny verify dfyconfig.toml` checks the whole project.

| file | content |
|---|---|
| Arith, Limbs, Bytes, Bits, NumberTheory | powers, congruences, limb and byte strings as numbers, exclusive or, primes and Fermat's theorem |
| Core, Shift, Montgomery, ExpMod | limb-array primitives, shifts, Montgomery multiplication, windowed exponentiation |
| Bignum, Division, LongDivision, ModExp | signed integers, division, reduction, modular exponentiation |
| Gcd, Inverse, SmallFactors, MillerRabin | gcd, modular inverse, trial division, primality |
| CoreIO, Modular, ModRaw | byte import and export, moduli and residues |
| Block, Xts, Cbc, Padding, CipherLayer, Cmac, CcmSpec, Ccm | block cipher, modes and their contexts |
| Der, Base64 | DER writer and parser, Base64 |

## Reading the model

- `BITS` is 32 or 64 and not fixed; every theorem holds for both. Wrap-around at limb width is
  explicit (`Wrap`, `Shl`), as are discarded carries.
- An address into a buffer is an array and an offset. `Framed` says that nothing outside the
  given window changed.
- The random generator of the primality test is a tape of limbs with arbitrary content.
- A callback is a function of its state, the tag and the content.
- Status codes are constructors of a datatype. Errors for bad input are modelled; running out
  of memory is not.
- Modes and codecs are defined twice: once by recursion, as the code goes through the data, and
  once written out, as the standard has it (`WrittenOut`, `Chained`, `MacWrittenOut`,
  `TagWrittenOut`, `EncodedValue`, `SignedValue`). Lemmas connect the two.
- A mode that works on pieces has a relation between everything that has arrived and everything
  that was put out (`Step`, `Seen`, `Sofar`, `MacOfBytes`). Every call keeps it, and a method over
  a list of pieces (`EncryptAll`, `DecryptAll`, `MacOfPieces`, `CryptPieces`) states the result for
  whole runs.

## Where the code and its promise differ

- `exp_mod` (bignum.c:1618-1730) reads the sign of A after X has been overwritten, does not
  reduce N - 0, and returns 1 for an exponent without limbs even modulo 1. `ExpModMpi` has these
  results, `ExpModIsPower` says exactly when they are A^E mod N, `ExpModDeviates` shows one input
  of each kind. The condition is on the arguments only: `Stripped` takes common divisors out of N;
  `ExpModNegative` gives the coprime, the divisible and the prime case.
- `gcd` (bignum.c:1767-1769) returns A itself for B = 0, so a negative A is not a gcd:
  `GcdMpi` states the equivalence.
- `mod_int` (bignum.c:1589-1599) shifts by half a limb and loses bits for large moduli:
  `ModIntExact` gives the moduli for which it is right.
- `mpi_check_small_factors` calls 2 not prime (`CheckSmallFactors`); its caller handles 2 before.
- Zero padding (cipher.c:970-998) cannot be undone for some messages: `ZeroFillRoundTrip`.
- `write_int` and `write_mpi` lose the sign of negative numbers: `IntRoundTrip`, `MpiRoundTrip`;
  `MpiNegative` has the exceptions.
- `mod_read` reports BUFFER_TOO_SMALL by the length of the buffer (bignum_core.c:208-212), although
  the header speaks of the value: `ReadAsPromised` says when both agree, `ReadRefusesZero` has an
  input on which they do not.
- CCM* without a tag has no length check (ccm.c:174-181): `TagCounterFreeUpTo` and
  `CountersDistinctUpTo` give the exact lengths up to which the counter blocks are fresh,
  `TaglessRunCounters` an accepted run beyond them. Runs with a tag stay below (`TaggedRunCounters`).
- The DER writers return the size as an int (asn1write.c:79): `SizeReturned` says when the caller
  learns it.

## Model
| member | source | states |
|---|---|---|
| Core.Add | mbedtls/library/bignum_core.c:405-421 | Value(X) + c * base^n = Value(A) + Value(B) with c at most 1, X possibly being A or B; nothing outside X changes |
| Core.AddIf | mbedtls/library/bignum_core.c:423-442 | the conditional addition adds A or nothing, with the true carry, and leaves the rest of the buffer alone |
| Core.Sub | mbedtls/library/bignum_core.c:444-459 | Value(X) - c * base^n = Value(A) - Value(B) with a borrow of at most 1, for any aliasing of X with A and B |
| Core.SubInt | mbedtls/library/bignum_core.c:971-984 | subtracting one limb from n limbs, with the exact borrow |
| Core.MulAddWide | mbedtls/library/bn_mul.h:1033-1043 | the double-width kernel returns both halves of s * b + c + d exactly |
| Core.MulAddHalf | mbedtls/library/bn_mul.h:1050-1070 | the half-limb kernel, with all its wrapping additions, loses no carry: the same exact s * b + c + d |
| Core.Mla | mbedtls/library/bignum_core.c:461-497 | d + b * s is exact over d_len limbs plus the returned carry, for all lengths, also when d is s |
| Core.Mul | mbedtls/library/bignum_core.c:499-508 | the schoolbook product equals A * B although every returned carry is discarded |
| Core.ProductBound | mbedtls/library/bn_mul.h:1033-1070 | s * b + c + d never exceeds two limbs, so the high limb takes every carry |
| Shift.ShiftL | mbedtls/library/bignum_core.c:370-403 | an in-place shift of any count multiplies by 2^count modulo base^n |
| Shift.ShiftR | mbedtls/library/bignum_core.c:330-368 | an in-place shift of any count divides by 2^count, rounding down |
| ExpMod.Clz | mbedtls/library/bignum_core.c:24-51 | the number of leading zero bits of a limb |
| ExpMod.Bitlen | mbedtls/library/bignum_core.c:53-66 | r bits: Value < 2^r and, unless r = 0, Value >= 2^(r-1) |
| Modular.LtCt | mbedtls/library/bignum_core.c:132-166 | the constant-time comparison that looks at every limb decides Value(A) < Value(B) |
| Montgomery.NewtonStep | mbedtls/library/bignum_core.c:513-524 | one Newton step squares the modulus for which x inverts n: it doubles the number of correct low bits |
| Montgomery.NewtonLimb | mbedtls/library/bignum_core.c:513-524 | the same for the limb arithmetic of the code, which wraps at limb width |
| Montgomery.MontmulInit | mbedtls/library/bignum_core.c:513-524 | for odd N the returned limb satisfies N * mm = -1 modulo 2^biL |
| Montgomery.ReductionDivides | mbedtls/library/bignum_core.c:526-580 | the chosen u1 makes T + u0 * B + u1 * N divisible by the base |
| Montgomery.ReductionBound | mbedtls/library/bignum_core.c:526-580 | T < B + N is kept by every step |
| Montgomery.ReductionRoom | mbedtls/library/bignum_core.c:526-580 | the two multiply-accumulates of a step fit into n + 2 limbs |
| Montgomery.MlaExact | mbedtls/library/bignum_core.c:526-580 | a multiply-accumulate that fits returns carry 0, so discarding it is right |
| Montgomery.StepCongruence | mbedtls/library/bignum_core.c:526-580 | a step keeps T * base^i = (low i limbs of A) * B modulo N |
| Montgomery.MontStep | mbedtls/library/bignum_core.c:526-580 | one step computes exactly (T + u0 * B + u1 * N) / base into the shifted window |
| Montgomery.FinalSubtraction | mbedtls/library/bignum_core.c:526-580 | (carry, borrow) = (1, 0) never occurs, and carry xor borrow tells which of T and T - N is the reduced one |
| Montgomery.Montmul | mbedtls/library/bignum_core.c:526-580 | X * base^n = A * B modulo N and X < N, for odd N, any A and B <= N, with X allowed to be A, B or N |
| ModExp.MontR2 | mbedtls/library/bignum_core.c:582-594 | X = base^2n mod N in exactly as many limbs as N |
| ExpMod.FormProduct | mbedtls/library/bignum_core.c:526-580 | the Montgomery product of the forms of a and b is the form of a * b |
| ExpMod.ToMontRep | mbedtls/library/bignum_core.c:999-1008 | the Montgomery form of A, in place if wanted |
| ExpMod.FromMontRep | mbedtls/library/bignum_core.c:1010-1020 | the number a mod N behind a Montgomery form, so converting there and back is the identity on numbers below N |
| ExpMod.PrecomputeWindow | mbedtls/library/bignum_core.c:722-747 | entry i of the window table is the Montgomery form of A^i, for every i below 2^window |
| ExpMod.TableLookup | mbedtls/library/bignum_core.c:808-832 | the constant-time scan and the direct access select the same table entry |
| ExpMod.FirstBit | mbedtls/library/bignum_core.c:761-801 | both starting positions lie above every one bit of the exponent |
| ExpMod.PoolFits | mbedtls/library/bignum_core.c:709-720 | table, selection and temporary never exceed exp_mod_working_limbs, although the public path may pick another window size |
| ExpMod.ExpIterate | mbedtls/library/bignum_core.c:849-933 | one turn of the loop keeps: X is the form of A^(exponent bits done), the window holds the bits not yet multiplied in, the table is intact |
| ExpMod.ExpLoop | mbedtls/library/bignum_core.c:849-933 | the loop over all remaining bits ends with the Montgomery form of A^E |
| ExpMod.ExpModOptionallySafe | mbedtls/library/bignum_core.c:849-969 | for odd N, every E and every A in Montgomery form the result is the Montgomery form of A^E mod N, on the secret and on the public path, within the working memory |
| ExpMod.FormUnique | mbedtls/library/bignum_core.c:849-969 | a Montgomery form is determined by its number, so the secret and the public path return the same limbs |
| ModExp.ExpModMpi | mbedtls/library/bignum.c:1618-1730 | status for each rejected argument, X untouched then; otherwise X is exactly ExpModValue, the cached radix stays valid |
| ModExp.ExpModIsPower | mbedtls/library/bignum.c:1618-1730 | the result is A^E mod N if and only if ExpModExact holds, a condition on the arguments: a negative base to an odd power needs a separate result object and an N that E common divisors with the base do not use up (do, when the object is shared), an exponent without limbs needs N != 1 |
| NumberTheory.StrippedMeaning | mbedtls/library/bignum.c:1711-1719 | n divides m^e exactly when taking the common divisor with m out of n, e times, leaves 1 |
| ModExp.ExpModNegative | mbedtls/library/bignum.c:1711-1719 | negative base, odd power: with a base coprime to N exact only in an object of its own, with a multiple of N only in a shared one, and for a prime N there is no third case |
| ModExp.ExpModBetween | mbedtls/library/bignum.c:1711-1719 | a base between the two cases, where the exponent decides |
| ModExp.ExpModDeviates | mbedtls/library/bignum.c:1618-1730 | one concrete input for each of the three failing families |
| Bignum.CmpMpi | mbedtls/library/bignum.c:935-979 | the sign of X - Y |
| Bignum.CmpInt | mbedtls/library/bignum.c:984-995 | the sign of X - z for a signed limb z |
| Bignum.Copy | mbedtls/library/bignum.c:307-344 | X = Y with sign, for X being Y as well, X never losing limbs |
| Bignum.AddAbs | mbedtls/library/bignum.c:1000-1056 | X is the sum of the magnitudes of A and B, for all aliasings |
| Bignum.SubAbs | mbedtls/library/bignum.c:1061-1107 | X is the difference of the magnitudes of A and B, or the error exactly when that of A is smaller |
| Bignum.AddMpi | mbedtls/library/bignum.c:1112-1148 | X = A + B for all signs and aliasings |
| Bignum.SubMpi | mbedtls/library/bignum.c:1112-1156 | X = A - B for all signs and aliasings |
| Bignum.MulMpi | mbedtls/library/bignum.c:1193-1248 | X = A * B for all signs and aliasings |
| Bignum.MulInt | mbedtls/library/bignum.c:1253-1284 | X = A * b for one limb b |
| Bignum.ShiftL | mbedtls/library/bignum.c:861-878 | X * 2^count without loss, growing X as needed |
| Bignum.ShiftR | mbedtls/library/bignum.c:883-889 | the magnitude divided by 2^count, the sign kept |
| Division.IntDivWide | mbedtls/library/bignum.c:1290-1388 | the double-width path: floor and remainder of (u1 * base + u0) / d when u1 < d, all ones otherwise |
| Division.EstimateDigit | mbedtls/library/bignum.c:1290-1388 | the correction loop ends at the true half-limb quotient digit |
| Division.DivideNormalized | mbedtls/library/bignum.c:1290-1388 | two half digits with wrapping intermediates give quotient and remainder of a normalized division |
| Division.IntDivHalf | mbedtls/library/bignum.c:1290-1388 | the portable half-limb path satisfies the same contract as the double-width path, for every divisor |
| Division.TestFails | mbedtls/library/bignum.c:1393-1511 | a digit the three-by-two-limb test rejects is too large |
| Division.TestPasses | mbedtls/library/bignum.c:1393-1511 | a digit that passes the test is at most one too large, whatever the top limb of the divisor |
| Division.FirstEstimate | mbedtls/library/bignum.c:1393-1511 | the first estimate of a quotient digit is never too small |
| LongDivision.EstimateQuotientDigit | mbedtls/library/bignum.c:1393-1511 | the estimated digit is the true one or one more |
| LongDivision.DivideDigit | mbedtls/library/bignum.c:1393-1511 | after the single add-back the digit is right: the partial remainder lies in [0, divisor * place) |
| LongDivision.DivideMagnitudes | mbedtls/library/bignum.c:1393-1511 | the whole loop: abs(A) = Z * abs(B) + remainder with remainder < abs(B) |
| LongDivision.DivMpi | mbedtls/library/bignum.c:1393-1511 | truncated quotient and remainder for all signs, error exactly for B = 0, either output optional, R allowed to be A or B |
| LongDivision.TruncatedDivision | mbedtls/library/bignum.c:1393-1511 | quotient and remainder are characterised by A = Q*B + R, abs(R) < abs(B) and R zero or of the sign of A |
| ModExp.ModMpi | mbedtls/library/bignum.c:1534-1555 | R = A mod B in [0, B), with the errors for B < 0 and B = 0; R may be A, and may be B where the code returns at all |
| Gcd.GetBit | mbedtls/library/bignum.c:395-402 | bit pos of the magnitude, 0 beyond the limbs |
| Gcd.Lsb | mbedtls/library/bignum.c:436-468 | the number of trailing zero bits, 0 for zero |
| Gcd.HalfDifference | mbedtls/library/bignum.c:1749-1850 | for odd a >= b, half the difference has the same odd common divisors as a and b, and fewer binary digits |
| Gcd.CommonTwos | mbedtls/library/bignum.c:1749-1850 | gcd(2^i a, 2^j b) = 2^min(i,j) gcd(a, b) for odd a and b |
| Gcd.GcdTurn | mbedtls/library/bignum.c:1813-1832 | one turn keeps the gcd of the odd parts and strictly decreases bitlen(TA) + bitlen(TB) |
| Gcd.GcdLoop | mbedtls/library/bignum.c:1811-1833 | the loop ends with TB equal to the gcd of the odd parts |
| Gcd.GcdMpi | mbedtls/library/bignum.c:1749-1850 | the result is the greatest common divisor if and only if B != 0 or A >= 0; for B = 0 it is A with its sign |
| Inverse.HalveExactly | mbedtls/library/bignum.c:1935-1957 | when the number is even and one coefficient is odd, the corrected coefficients are both even and combine to the same number |
| Inverse.RemoveTwos | mbedtls/library/bignum.c:1935-1957 | the inner loops keep C1 * TA + C2 * TB = T, every halving exact, and end with T odd |
| Inverse.Turn | mbedtls/library/bignum.c:1934-1968 | one turn keeps both combinations and coprimality and decreases TU + TV |
| Inverse.Coefficient | mbedtls/library/bignum.c:1924-1968 | the loop ends with V1 * TA = 1 modulo TB |
| Inverse.InvMod | mbedtls/library/bignum.c:1904-1987 | 0 <= X < N and A * X = 1 mod N, for even and odd N; BAD_INPUT exactly for N <= 1, NOT_ACCEPTABLE exactly when A and N are not coprime; X may be A or N |
| Inverse.InverseMeansCoprime | mbedtls/library/bignum.c:1904-1987 | a number with an inverse is coprime to N, so NOT_ACCEPTABLE means there is none |
| SmallFactors.ModInt | mbedtls/library/bignum.c:1560-1612 | the errors for b = 0 and b < 0, and otherwise ModIntValue, of which ModIntExact says when it is A mod b |
| SmallFactors.ModIntExact | mbedtls/library/bignum.c:1560-1612 | mod_int is right for every number if and only if the modulus is at most 2^biH or divides 2^biL |
| SmallFactors.ModIntWrong | mbedtls/library/bignum.c:1560-1612 | a concrete number that goes wrong for every other modulus |
| SmallFactors.LastTrial | mbedtls/library/bignum.c:1991-2015 | the table of gaps leads from 3 to 997 |
| SmallFactors.TrialIsPrime | mbedtls/library/bignum.c:2026-2050 | a trial divisor that no earlier one divides is prime |
| SmallFactors.PrimeIsTrial | mbedtls/library/bignum.c:1991-2015 | every odd prime up to 997 is among the trial divisors the table leads to |
| SmallFactors.TrialsComplete | mbedtls/library/bignum.c:1991-2050 | no trial divisor divides X exactly when no odd prime up to 997 does |
| SmallFactors.CheckSmallFactors | mbedtls/library/bignum.c:2026-2050 | the answer "certain prime" is right; every even number gets "not prime", which is wrong for 2 and for no other number; no answer means odd and divisible by no prime up to 997 |
| NumberTheory.Fermat | mbedtls/library/bignum.c:2055-2139 | a^(p-1) = 1 modulo a prime p that does not divide a, from the binomial theorem |
| NumberTheory.RootsOfOne | mbedtls/library/bignum.c:2055-2139 | modulo a prime the only square roots of 1 are 1 and -1 |
| MillerRabin.PrimeIsStrong | mbedtls/library/bignum.c:2055-2139 | no base condemns a prime |
| MillerRabin.StrongWrittenOut | mbedtls/library/bignum.c:2098-2131 | a base passes exactly when a^r is 1 or some a^(r*2^i), i < s, is -1 modulo X |
| MillerRabin.SharedFactor | mbedtls/library/bignum.c:2098-2131 | a base that shares a factor with X condemns it |
| MillerRabin.MaskedIsModulo | mbedtls/library/bignum.c:2084-2088 | the mask reduces the candidate modulo 2 to one less than the bit length of X - 1, when X has no leading zero limb |
| MillerRabin.CandidateReduced | mbedtls/library/bignum.c:2079-2088 | a draw of at most k bits, k the bit length of X - 1, is the candidate; of a longer one the low k - 1 bits are; every candidate is below 2^k |
| MillerRabin.DrawOnce | mbedtls/library/bignum.c:2079-2088 | the same of the number left in A |
| MillerRabin.SearchMeaning | mbedtls/library/bignum.c:2079-2096 | a search for a base succeeds exactly when one of the first 31 candidates on the tape lies between 1 and X - 1 |
| MillerRabin.SearchEnds | mbedtls/library/bignum.c:2079-2096 | the search ends behind the first usable candidate, or behind the 32nd draw if none of the first 31 is usable |
| MillerRabin.DrawBase | mbedtls/library/bignum.c:2079-2096 | the base is the first candidate on the tape with 1 < A < X - 1, failure comes after exactly 32 draws, and the tape is left behind the last draw |
| MillerRabin.Squarings | mbedtls/library/bignum.c:2108-2131 | the squaring loop passes exactly when some a^(r*2^i), i < s, is -1 |
| MillerRabin.Round | mbedtls/library/bignum.c:2098-2131 | a round passes exactly when X is a strong probable prime to the base |
| MillerRabin.DrawAndTest | mbedtls/library/bignum.c:2075-2131 | one pass of the loop is a run of one round, bad lengths and failed searches included |
| MillerRabin.Rounds | mbedtls/library/bignum.c:2055-2139 | X - 1 = r * 2^s, and the verdict is the one the tape determines: the rounds end at the first failed search or the first base X fails |
| MillerRabin.RunPasses | mbedtls/library/bignum.c:2075-2131 | a run that finds nothing wrong went through as many bases in range as there are rounds, and X passes them all |
| MillerRabin.RunCondemns | mbedtls/library/bignum.c:2075-2131 | no run over any tape condemns a prime |
| MillerRabin.PrimeRun | mbedtls/library/bignum.c:2075-2131 | a run over usable draws passes every prime |
| MillerRabin.CondemnedIsComposite | mbedtls/library/bignum.c:2055-2139 | a witness in range proves that X is not prime |
| MillerRabin.IsPrimeExt | mbedtls/library/bignum.c:2144-2173 | numbers below 2 and those with a trial divisor are judged exactly; for the others the verdict is that of the rounds over the tape; whatever the tape, a prime is never judged composite, and on a tape whose draws, reduced by the mask, lie in 2 .. X - 2 it is judged prime |
| MillerRabin.PassedAllRounds | mbedtls/library/bignum.c:2144-2173 | behind every probably prime from the rounds stand as many bases in range as rounds, all passed |
| CoreIO.ReadLe | mbedtls/library/bignum_core.c:203-224 | the little-endian value of the bytes, or BUFFER_TOO_SMALL with X untouched |
| CoreIO.BigendianToHost | mbedtls/library/bignum_core.c:82-110 | the loop from both ends converts every limb and reverses their order, the middle limb once |
| CoreIO.ReadBe | mbedtls/library/bignum_core.c:226-255 | the big-endian value of the bytes on hosts of either byte order |
| CoreIO.WriteLe | mbedtls/library/bignum_core.c:257-289 | the base-256 digits of the value, or BUFFER_TOO_SMALL exactly when the value needs more bytes |
| CoreIO.WriteBe | mbedtls/library/bignum_core.c:291-328 | the same, high byte first |
| CoreIO.WrittenIsRead | mbedtls/library/bignum_core.c:203-328 | what either writer puts out, the matching reader takes in |
| Modular.ModulusSetup | mbedtls/library/bignum_mod.c:137-151 | an odd modulus gets N * mm = -1 and base^2n mod N, or is cleared |
| Modular.RawRead | mbedtls/library/bignum_mod_raw.c:42-75 | the value of the buffer, rejected exactly when it does not fit or is not below N |
| Modular.ModRead | mbedtls/library/bignum_mod.c:317-344 | the residue represents the value in the buffer, Le(buf) or Be(buf) by its byte order, in either representation; the status for each rejected input, too small being decided by the length of the buffer |
| Modular.ReadAsPromised | mbedtls/library/bignum_mod.h:403-406 | the status is the one the header describes if and only if the buffer needs no more limbs than the modulus has, or the value does not fit them |
| Modular.ReadRefusesZero | mbedtls/library/bignum_mod.h:403-406 | zeros one byte longer than the limbs: the value 0 is refused as too large for the residue |
| Modular.ModWrite | mbedtls/library/bignum_mod.c:346-392 | the digits of the number a residue represents, which Le or Be of the buffer gives back, or BUFFER_TOO_SMALL exactly when they do not fit |
| Modular.RepresentsOne | mbedtls/library/bignum_mod_raw.c:190-216 | representations and numbers below N correspond one to one |
| Modular.EncodedExternal | mbedtls/library/bignum_mod_raw.c:42-93 | encoding the value of a buffer in its own length gives back the buffer |
| Modular.ReadThenWrite | mbedtls/library/bignum_mod.c:317-392 | mod_read followed by mod_write reproduces the bytes of every value below N in a buffer that needs no more limbs than N has, in both byte orders and representations; other buffers are refused |
| ModRaw.ModAdd | mbedtls/library/bignum_mod_raw.c:179-188 | (A + B) mod N through carry xor borrow |
| ModRaw.ModSub | mbedtls/library/bignum_mod_raw.c:95-103 | (A - B) mod N |
| ModRaw.ModNeg | mbedtls/library/bignum_mod_raw.c:264-274 | -A mod N, 0 for 0 |
| ModRaw.FixQuasiReduction | mbedtls/library/bignum_mod_raw.c:106-112 | X mod N for X < 2N |
| ModRaw.InverseByPower | mbedtls/library/bignum_mod_raw.c:157-177 | a * a^(p-2) = 1 modulo a prime p |
| ModRaw.InvPrime | mbedtls/library/bignum_mod_raw.c:148-177 | the Montgomery form of A^(N-2), inside the promised working memory: the inverse of A if N is prime and does not divide A, and 0 if N divides A |
| ModRaw.InverseUnique | mbedtls/library/bignum_mod_raw.c:157-177 | all inverses have the same Montgomery form |
| Xts.MulXIsTimesX | mbedtls/library/aes.c:1165-1178 | doubling on two 64-bit halves multiplies by x in GF(2)[x] modulo x^128 + x^7 + x^2 + x + 1 |
| Bits.TimesXBound | mbedtls/library/aes.c:1165-1178 | the reduction polynomial cancels the bit that left |
| Bits.EachBit | mbedtls/library/common.h:186-215 | exclusive or, and, or are what they are on every bit |
| Xts.CryptBlocks | mbedtls/library/aes.c:1224-1248 | every full block uses its own tweak, except that the last one of a decryption with leftover takes the next tweak and saves its own |
| Xts.Steal | mbedtls/library/aes.c:1251-1282 | ciphertext stealing: the tail gets the start of the last block, which is encrypted again with the tail in front |
| Xts.CryptXts | mbedtls/library/aes.c:1189-1285 | the whole operation, also written out: every block outside stealing is E(P xor T_j) xor T_j, and the last two are the stolen pair with the tweaks exchanged for decryption |
| Xts.CryptedWrittenOut | mbedtls/library/aes.c:1233-1285 | the definition by blocks agrees with the written-out form, in both directions and for every length |
| Xts.TweakPowers | mbedtls/library/aes.c:1218-1246 | T_0 is the encrypted data unit, and T_(j+1) is T_j times x modulo x^128 + x^7 + x^2 + x + 1 |
| Xts.StolenPair | mbedtls/library/aes.c:1251-1282 | the swapped tweaks of the decryption undo the stealing |
| Xts.XtsRoundTrip | mbedtls/library/aes.c:1189-1285 | decrypting the encryption gives back the data unit, with or without a partial last block |
| Cbc.CryptCbc | mbedtls/library/aes.c:1072-1147 | one call equals the block-by-block definition of CBC and leaves the chaining value for the next call |
| Cbc.CbcChained | mbedtls/library/aes.c:1072-1147 | every block is E(P_j xor C_(j-1)), or D(C_j) xor C_(j-1), the block before the first being the IV |
| Cbc.CbcByAppend | mbedtls/library/aes.c:1072-1147 | processing in two calls with the chaining value carried over is processing in one |
| Cbc.CbcBack | mbedtls/library/aes.c:1072-1147 | CBC decryption inverts CBC encryption |
| CipherLayer.Context.Update | mbedtls/library/cipher.c:650-734 | all whole blocks that may be released are, the rest waits: the step relation holds for waiting bytes plus input |
| CipherLayer.ReleasedAmount | mbedtls/library/cipher.c:650-734 | after any call all whole blocks are out, except that a padded decryption keeps 1 to size bytes |
| CipherLayer.StepTwice | mbedtls/library/cipher.c:650-734 | two updates release the same bytes as one update with both inputs |
| CipherLayer.Context.Finish | mbedtls/library/cipher.c:1071-1119 | the last block is padded or unpadded; the status for partial blocks and bad padding |
| CipherLayer.EncryptAll | mbedtls/library/cipher.c:650-734 | any sequence of updates and finish yields one CBC pass over the padded message; FULL_BLOCK_EXPECTED exactly for a partial message without padding |
| CipherLayer.DecryptAll | mbedtls/library/cipher.c:650-734 | any sequence of updates and finish yields the unpadded decryption; success exactly when there is one |
| CipherLayer.CipherRoundTrip | mbedtls/library/cipher.c:1071-1119 | for PKCS7, one-and-zeros and zeros-and-len the decryption of the encryption is the message and nothing else |
| CipherLayer.ZeroFillRoundTrip | mbedtls/library/cipher.c:970-998 | zero padding gives back the message if and only if it fills its blocks or does not end with a zero byte |
| CipherLayer.ZeroFillLoses | mbedtls/library/cipher.c:970-998 | the one-byte message 0 is lost under zero padding |
| Padding.AddPkcsPadding | mbedtls/library/cipher.c:831-840 | the block is the data and n - k bytes of value n - k |
| Padding.AddOneAndZerosPadding | mbedtls/library/cipher.c:883-893 | the block is the data, 0x80 and zeros |
| Padding.AddZerosAndLenPadding | mbedtls/library/cipher.c:927-937 | the block is the data, zeros and the padding length |
| Padding.GetPkcsPadding | mbedtls/library/cipher.c:847-876 | succeeds exactly on padded blocks and finds the data length, 0 otherwise |
| Padding.GetOneAndZerosPadding | mbedtls/library/cipher.c:895-920 | succeeds exactly on padded blocks and finds the data length |
| Padding.GetZerosAndLenPadding | mbedtls/library/cipher.c:939-967 | succeeds exactly on padded blocks and finds the data length; the length stored for other blocks is the wrapped difference |
| Padding.PkcsPadded | mbedtls/library/cipher.c:847-876 | a block is padded with k data bytes exactly when all bytes from k on are its size minus k |
| Padding.LenPadded | mbedtls/library/cipher.c:939-967 | zeros from k on, and the last byte the size minus k |
| Padding.OnePadded | mbedtls/library/cipher.c:895-920 | 0x80 at k and zeros behind it |
| Padding.GetZerosPadding | mbedtls/library/cipher.c:980-998 | the data ends with the last nonzero byte |
| Padding.PaddingUnique | mbedtls/library/cipher.c:831-967 | a block is padded in at most one way under the three readable schemes |
| Padding.PadThenFind | mbedtls/library/cipher.c:831-998 | finding undoes adding; for zero filling exactly when the data is empty or does not end with zero |
| Cmac.MultiplyByU | mbedtls/library/cmac.c:55-89 | multiplication by u modulo x^128 + x^7 + x^2 + x + 1 for 16 bytes and modulo x^64 + x^4 + x^3 + x + 1 for 8, a word at a time |
| Cmac.GenerateSubkeys | mbedtls/library/cmac.c:96-127 | K1 and K2 are the encrypted zero block multiplied by u once and twice, the polynomials written out |
| Cmac.SubkeysUnique | mbedtls/library/cmac.c:96-127 | the subkeys are determined by that |
| Cmac.MacAppend | mbedtls/library/cmac.c:198-266 | chaining over two runs of whole blocks is chaining over both |
| Cmac.MacIsLastOfCbc | mbedtls/library/cmac.c:198-266 | the chained state is the last block of CBC encryption |
| Cmac.MacWrittenOut | mbedtls/library/cmac.c:268-325 | the MAC is the last block of CBC encryption of the message with K1 added to a whole last block, or 0x80, zeros and K2 to any other |
| Cmac.CmacContext.Update | mbedtls/library/cmac.c:198-266 | the state covers all but the last 1 to block-size bytes of what has arrived, which wait in the buffer |
| Cmac.CmacContext.Finish | mbedtls/library/cmac.c:268-325 | the tag of sections 2.3 and 2.4 of RFC 4493, after which the context is as new |
| Cmac.MacOfPieces | mbedtls/library/cmac.c:198-325 | any way of cutting the message gives its MAC, also in the written-out form |
| Ccm.IncrementCtr | mbedtls/library/ccm.c:454-460 | the byte-wise increment with carry adds 1 to the low q bytes, modulo 2^(8q) |
| CcmSpec.TagCounterFreeUpTo | mbedtls/library/ccm.c:454-460 | no byte of the message is under the counter of the tag if and only if there are fewer than 2^(8q) blocks |
| CcmSpec.CountersDistinctUpTo | mbedtls/library/ccm.c:454-460 | no two blocks are under one counter if and only if there are at most 2^(8q) of them |
| Ccm.TaggedRunCounters | mbedtls/library/ccm.c:201-208 | an accepted run with a tag meets both conditions |
| Ccm.TaglessRunCounters | mbedtls/library/ccm.c:174-181 | a run without a tag that is accepted although it uses the counter of the tag and then repeats a counter |
| Ccm.StoreLength | mbedtls/library/ccm.c:197-204 | the length field holds the q low bytes, and something is left over exactly when the length needs more |
| Ccm.CcmContext.FirstBlockIfReady | mbedtls/library/ccm.c:156-221 | the first block is built and encrypted as soon as nonce and lengths are known, or the reason why not; status and whole new state in any state |
| Ccm.FormattedIs | mbedtls/library/ccm.c:183-204 | on a context that holds only the nonce this is the first block of section A.2.1 of NIST SP 800-38C |
| CcmSpec.FirstBlockTells | mbedtls/library/ccm.c:183-204 | byte 0 has bit 6 exactly with associated data, (t - 2) / 2 in bits 3 to 5, q - 1 below; nonce and message length follow |
| CcmSpec.FirstBlockIsNoCounter | mbedtls/library/ccm.c:183-256 | no first block is a counter block |
| CcmSpec.FormattingPrefixFree | mbedtls/library/ccm.c:183-350 | under one nonce the formatted input of one pair of associated data and message is never the beginning of that of another |
| Ccm.CcmContext.Starts | mbedtls/library/ccm.c:223-259 | nonce and mode: status and new state in any state, so also for a second call; a cleared context waits for the lengths, one that has them is ready for associated data, exactly when they are acceptable |
| Ccm.CcmContext.SetLengths | mbedtls/library/ccm.c:261-288 | the lengths: status and new state in any state, so also for a second call; a refusal changes nothing; from a cleared context or one with a nonce as above |
| CcmSpec.MacStep | mbedtls/library/ccm.c:325-346 | adding a portion at its offset and encrypting at the end of a block or of the data keeps the MAC of all bytes so far |
| Ccm.CcmContext.UpdateAd | mbedtls/library/ccm.c:290-357 | status and new state in any state, a refusal changes nothing; in a run, accepted exactly within the announced length, and then the MAC covers the data so far |
| Ccm.CcmContext.Update | mbedtls/library/ccm.c:359-471 | status and new state in any state, a refusal changes nothing; in a run, accepted exactly within the announced length and output size, MAC over the plaintext, key stream over the position, counter in step |
| Ccm.AdRunMac | mbedtls/library/ccm.c:321-350 | any number of calls with associated data amounts to the MAC of all of it |
| Ccm.RunAfter | mbedtls/library/ccm.c:388-466 | any number of calls with message data amounts to MAC and key stream of all of it |
| Ccm.CcmContext.Finish | mbedtls/library/ccm.c:473-508 | the MAC hidden under counter 0 and the context cleared; refused without any change exactly in the error state, with associated data missing or with an incomplete message |
| Ccm.MacTotal | mbedtls/library/ccm.c:156-508 | first block, associated data and message absorbed in turn make the MAC of the standard |
| CcmSpec.TagWrittenOut | mbedtls/library/ccm.c:183-508 | the tag is the last block of CBC encryption of flags, nonce, length, padded associated data and padded message, under the encrypted counter block 0 |
| CcmSpec.KeyedWrittenOut | mbedtls/library/ccm.c:106-135 | byte k of the message is under byte k mod 16 of the encrypted counter block 1 + k / 16 |
| Ccm.AcceptedMeans | mbedtls/library/ccm.c:174-288 | the accepted lengths of nonce, associated data, message and tag as numbers |
| Ccm.CryptPieces | mbedtls/library/ccm.c:223-544 | from a cleared context any split of associated data and message gives ciphertext and tag of section 6.1 of NIST SP 800-38C; refused exactly for lengths the code does not take |
| Ccm.AuthDecrypt | mbedtls/library/ccm.c:586-607 | success exactly when the tag is that of the decrypted message, zeros otherwise |
| Ccm.EncryptThenDecrypt | mbedtls/library/ccm.c:513-607 | auth_decrypt inverts encrypt_and_tag |
| Der.WriteLen | mbedtls/library/asn1write.c:24-54 | the length octets end at the old position, the rest of the buffer is untouched; refused exactly when too long or without room |
| Der.WriteLenAndTag | mbedtls/library/asn1write.c:69-80 | the header in front of content that is already there, exactly when it fits, and the size as the int the code returns |
| Der.SizeReturned | mbedtls/library/asn1write.c:79-79 | the caller learns the size if and only if it is below 2^31; up to 2^32 it is negative, above it is too small by 2^32 |
| Der.GetLen | mbedtls/library/asn1parse.c:28-59 | the length and the position behind it, or why there is none |
| Der.GetTag | mbedtls/library/asn1parse.c:61-76 | tag and length, the content lying inside the data |
| Der.LenRoundTrip | mbedtls/library/asn1write.c:24-54 | a written length is read back, and refused when the content is not there |
| Der.LenMinimal | mbedtls/library/asn1write.c:24-54 | no accepted encoding of a length is shorter than the written one |
| Der.LenOctetsForm | mbedtls/library/asn1write.c:24-54 | short form below 0x80, else 0x80 plus the number of octets that follow, without leading zero |
| Der.ParseLenForms | mbedtls/library/asn1parse.c:28-59 | every definite form of up to four octets is read, no other is |
| Der.TagRoundTrip | mbedtls/library/asn1write.c:69-80 | a written element parses to its content whatever follows |
| Der.WriteTaggedInt | mbedtls/library/asn1write.c:202-224 | the element for val, refused exactly without room; nothing behind it is touched |
| Der.GetTaggedInt | mbedtls/library/asn1parse.c:101-146 | accepted exactly when the content is not empty, not negative and below 2^31, and then its value |
| Der.IntRoundTrip | mbedtls/library/asn1write.c:202-224 | what was written for val is accepted, and is val if and only if val >= 0 |
| Der.WriteThenGetInt | mbedtls/library/asn1write.c:202-234 | writing and parsing in one run: the parser succeeds, gives val and ends at the end of the element |
| Der.WriteMpi | mbedtls/library/asn1write.c:101-139 | the element for a big integer exactly when it fits, its size as the int the code returns, refusal otherwise; nothing behind it is touched |
| Der.GetMpi | mbedtls/library/asn1parse.c:163-179 | the content as an unsigned number and the position behind it |
| Der.MpiRoundTrip | mbedtls/library/asn1write.c:101-139 | reading back gives the magnitude, so the number itself if and only if it is not negative, and ends at the end of the element |
| Der.MpiContentSigned | mbedtls/library/asn1write.c:101-139 | the content for a number that is not negative has that value in two's complement, in the fewest octets, and is the content write_int makes |
| Der.MpiNegative | mbedtls/library/asn1write.c:101-139 | the content for a negative number has its value exactly for 0 and for the least number of that many octets |
| Der.MpiAsInt | mbedtls/library/asn1parse.c:101-146 | get_int accepts what write_mpi puts out below 2^31, with the same value |
| Der.WriteBitstring | mbedtls/library/asn1write.c:312-339 | the number of unused bits and the bytes with the unused bits zero, exactly when they fit, the size as the int the code returns |
| Der.TrimBits | mbedtls/library/asn1write.c:278-307 | named bit strings lose their trailing zeros and nothing else |
| Der.WriteNamedBitstring | mbedtls/library/asn1write.c:268-310 | the bit string without its trailing zeros, exactly when it fits, the size as the int the code returns |
| Der.GetBitstring | mbedtls/library/asn1parse.c:182-214 | accepted exactly when it fills the data and has at most 7 unused bits |
| Der.BitstringRoundTrip | mbedtls/library/asn1write.c:312-339 | as many bits come back as were written, the same ones, with zeros behind them |
| Der.BitstringParses | mbedtls/library/asn1write.c:312-339 | the parser finds the whole content and ends at the end of the element |
| Der.KnownElements | mbedtls/library/asn1write.c:101-339 | the octets of the integer 128, of the bit string of section 8.6.4.2 of X.690 and of a sequence header |
| Der.TraverseSequenceOf | mbedtls/library/asn1parse.c:220-266 | the status of the header, a mismatch when the sequence does not fill the data, otherwise status and callback state of the walk over its content, every error in its place; success ends at the end of the data |
| Der.WalkMeaning | mbedtls/library/asn1parse.c:243-266 | a walk succeeds exactly when elements tile the content, each with the demanded tag, each reported one taken by the callback, which has then seen these and no others, in order |
| Base64.DecEnc | mbedtls/library/base64.c:27-57 | the value of the character of a value is the value |
| Base64.Alphabet | mbedtls/library/base64.c:27-57 | the characters are those of table 1 of RFC 4648 |
| Base64.EncDec | mbedtls/library/base64.c:27-57 | a character has a value exactly when it is in the alphabet |
| Base64.Encode | mbedtls/library/base64.c:62-124 | the encoding and a terminating zero, or the size that is needed, also without a destination |
| Base64.EncodedValue | mbedtls/library/base64.c:62-124 | in base 64 the digits are the bytes in base 256 followed by the spare zero bits, and equal signs complete the group |
| Base64.KnownEncodings | mbedtls/library/base64.c:62-124 | test vectors of section 10 of RFC 4648 |
| Base64.Validate | mbedtls/library/base64.c:140-185 | the first pass accepts exactly the texts with correct layout and shape, and counts characters and equal signs |
| Base64.KnownLayouts | mbedtls/library/base64.c:140-185 | a text with blanks and line ends in all allowed places, and three that are refused |
| Base64.AccumulatorStep | mbedtls/library/base64.c:224-248 | the 32-bit accumulator keeps the digits of the group although its high bits are shifted out |
| Base64.LengthAgrees | mbedtls/library/base64.c:187-209 | the length announced by the first pass is the length the second pass writes |
| Base64.Convert | mbedtls/library/base64.c:224-248 | the second pass writes the decoded bytes |
| Base64.Decode | mbedtls/library/base64.c:129-255 | decoded bytes or the exact reason, also without a destination; the corruption error is never returned |
| Base64.BreaksIgnored | mbedtls/library/base64.c:140-163 | LF and CRLF anywhere change neither the digits nor the layout |
| Base64.Base64RoundTrip | mbedtls/library/base64.c:62-255 | decoding the encoding gives back every byte string, also after line breaks have been inserted anywhere |

## Left out

- Constant-time behaviour, zeroisation and freeing, allocation failures and the limit on the number of limbs (except in modulus setup); assembly, SIMD and unrolled kernels.
- Kernel start-up, serial, page-table and protection-key code, and everything only declared in headers.
- The block ciphers themselves: a cipher is any pair of functions on blocks, decryption inverting encryption; a failing block cipher is not modelled.
- Other modes of the cipher layer (ECB, CFB, OFB, CTR, GCM, stream ciphers), key setup, PSA dispatch, and calls with the input buffer as output.
- Prime generation: a loop around the primality test whose end depends on the random source.
- Modular multiplication and inversion wrappers of bignum_mod.c, random residues and optimised reduction, which only select between members that are here; string and file conversion of big integers.
- DER types other than lengths, tags, integers, big integers and bit strings; algorithm identifiers and named data lists.
- Core.Mul: requires X to be another buffer than A and B, as bignum_core.h documents.
- LongDivision.DivMpi: requires Q to differ from A, B and R; the code reads the signs of A and B after it has written Q.
- ModExp.ExpModMpi: requires X to differ from E and N, which the code reads after writing X; a cached radix has to belong to the modulus.
- Modular.ModulusSetup: requires an odd modulus with at least one limb; the code reads the first limb before it checks, and the Montgomery constant has no meaning for an even one.
- ModRaw.InvPrime: requires A in Montgomery form and N odd and above 2.
- ModExp.ModMpi: requires R to differ from a positive B; with R the same object the loop at bignum.c:1548 does not end.
- MillerRabin.MaskedIsModulo: says nothing of an X with leading zero limbs, where the shift count of the code is out of range; the mask is then an arbitrary function of the limb and the count.
- MillerRabin.Rounds: a failing random generator is not modelled.
- Xts.CryptXts: input and output are disjoint; a data unit in place is not modelled.
- CipherLayer.Context.Update: the output buffer is a returned sequence, so writing in place is not modelled.
- Ccm.CcmContext.Update: the output buffer is a returned sequence, so writing in place is not modelled; what calls out of order leave in the context is stated by their functions, and no more is claimed of it.
- Der.WriteTaggedInt: says nothing about the bytes in front of the start position after a refusal; the code has written part of the element then.
