# FHEW gate bootstrapping and the negacyclic NTT, verified

This project models two parts of a lattice cryptography library and proves what they are for.

1. **FHEW Boolean gates** (`src/binfhe`). A bit is an LWE ciphertext `(a, b)` whose phase
   `b - <a, s>` is the bit times `q/4` plus noise. A gate adds or subtracts two ciphertexts,
   builds a lookup polynomial, rotates it blindly by the encrypted phase with AP or GINX
   accumulators, extracts an LWE sample, switches the key and switches the modulus. The
   project proves what every step does to the phase and how much noise it adds, and from
   that: every gate encodes the right bit with one fixed noise bound, and every Boolean
   circuit, of any size and depth, decrypts to its plaintext value.
2. **The negacyclic number-theoretic transform** (`src/core/extras/temp-ntt.cpp`). The
   in-place forward transform, pointwise product, in-place inverse and scaling agree modulo
   the prime with the schoolbook product, for every length `2^d` and any tables that obey
   the local root laws.

## Layout

| file | content |
|---|---|
| `Arith.dfy`, `Poly.dfy` | congruence, distance modulo q, powers; the ring `Z[X]/(X^n - c)` |
| `NttTree.dfy`, `Ntt.dfy` | the transform as a tree of ring splittings; the array methods |
| `Negacyclic.dfy` | powers of X, transposition, polynomials that agree up to an error |
| `Params.dfy` | parameter classes and their precomputed tables |
| `Decompose.dfy`, `Rgsw.dfy` | signed digits; RingGSW encryptions and the external product |
| `BlindRotate.dfy` | lookup polynomial, AP and GINX rotation |
| `Accumulators.dfy`, `Encryption.dfy`, `KeyGeneration.dfy` | the methods on accumulators, RingGSW encryption, key generation |
| `Lwe.dfy`, `Switching.dfy`, `Doubles.dfy` | LWE encryption with machine words; key and modulus switching; rounding in double precision |
| `Refresh.dfy`, `Gates.dfy`, `Circuits.dfy` | one whole bootstrapping; the gates; circuits |
| `Bootstrapping.dfy` | gate evaluation on ciphertext objects |
| `Programs.dfy` | straight-line programs over wires that share ciphertext objects |
| `Session.dfy` | encrypt, evaluate, decrypt; sample sessions for which all hypotheses hold |

The code changes state, so accumulators, parameter objects and arrays are objects that
methods update in place, with a postcondition that gives the whole new state by a function;
the theorems are about those functions. The correctness argument is modular: key generation
methods establish predicates on keys (`IsBootKey`, `FreshKey`), `KeyGeneration.GeneratedKeysWork`
turns them into the hypothesis `Works` of the gate theorems, and `Circuits.CircuitDecrypts`
is the end result. `Session.RunCircuit` composes the methods: what it encrypts, evaluates and
decrypts is the plaintext value, for any keys and parameters if the errors of the bootstrappings
performed fit; `Session.RunSession` does the same for straight-line programs,
whose wires may be read many times. `Session.SampleSession` builds parameters, keys and secrets
for which every hypothesis holds, for AP and for GINX.

The bounds on noise are worst-case bounds. `Gates.NamedSetsExceed` proves that the shipped
parameter sets cannot meet the inequality they lead to: these sets rely on errors being smaller
than they could be. `Gates.GateActual`, `Circuits.CircuitActual` and `Programs.RunActual` are the theorems
for them: they ask only that the errors that occur in the bootstrappings of a run be small.
What these errors are is not left to the hypotheses: `Rgsw.ExternalProductExact`,
`BlindRotate.ApLoopExact`, `BlindRotate.GinxLoopExact`, `Refresh.BootstrapExact` and
`Refresh.FinishExact` are congruences for all keys and parameters in which the noise is an explicit sum over
the steps. The bounds, and from them the worst-case theorems, are derived from these laws.

## Assumptions

* Random samples are arguments. Statements about noise are exact sums of the sampled errors, or
  deterministic bounds for errors up to `beta`; nothing is said about probability or security.
* `Supported`: `8 | q`, `q | 2N`, `Q` odd and at least 3, the gadget base a power of two,
  all bases at least 2. `WORD_SIZE` is `2^64`; where the program adds without reducing, the model
  wraps, and the condition under which that does not matter is stated (`WordsFit`).
* Logarithms are exact: the number of digits is the least `L` with `base^L >= modulus`.
  `RoundqQ` rounds the exact quotient. `Doubles.dfy` allows every operation in double precision
  a relative error of `2^-53`; numbers below `2^53` are converted to doubles exactly.
* The search for primes, and for a generator modulo `Q` once `2N` divides `Q - 1`, is taken to
  succeed, as it does for prime `Q`. `SAMPLE_Q` is a prime; its primality is not proved.
* Statements about the noise of GINX are about ternary secrets, the only ones its key generation accepts.
* Signed 32-bit integers wrap around in two's complement, which the language leaves undefined.
* Modular operations whose bodies are elsewhere in the library are their mathematical
  meaning, and the switch between coefficient and evaluation form is the identity.

Where the code and its comments differ, the model follows the code: AP key generation takes
`q` off twice for secrets in the upper half (harmless, `KeyGeneration.ApExponent`), encryption
of negative messages is wrong for some moduli (`Lwe.AlwaysHarmlessIff` says for which), NOT
leaves entries equal to `q` unreduced (`Gates.InRange` allows them), the decomposition is
not exact for every `Q` (`Decompose.ExactIff` says for which it is), and `NoiselessEmbedding`
does not reduce modulo `q`.

## Model

| member | source | states |
|---|---|---|
| `NttTree.NttMul` | src/core/extras/temp-ntt.cpp:102-125 | At every node of the splitting tree the transform of a product is the pointwise product of the transforms. |
| `NttTree.RoundTrip` | src/core/extras/temp-ntt.cpp:81-152 | The inverse transform and scaling by 1/n give back the polynomial modulo p, for every length 2^d. |
| `NttTree.ConvolutionTheorem` | src/core/extras/temp-ntt.cpp:63-152 | Transforms, pointwise product, inverse and scaling yield the negacyclic product modulo p. |
| `NttTree.TransformEvaluates` | src/core/extras/temp-ntt.cpp:42-95 | Entry i of the transform is the value of the polynomial at a root of X^n = -1, which is plus or minus an entry of the table: W[(n+i)/2], with a minus for odd i. |
| `Ntt.Forward` | src/core/extras/temp-ntt.cpp:81-95 | The in-place nested butterfly loops leave exactly what the level by level recursion with C's remainder gives, which modulo the prime is the tree transform. |
| `Ntt.Inverse` | src/core/extras/temp-ntt.cpp:132-148 | The same for the inverse loops, with one half left unreduced and remainders of negative numbers; the unreduced sums grow to n * mod at most. |
| `Ntt.Schoolbook` | src/core/extras/temp-ntt.cpp:63-74 | The double loop leaves exactly what its rows with C's remainder give, which modulo the prime is the product in the ring X^n = -1. |
| `Ntt.NttDummy` | src/core/extras/temp-ntt.cpp:63-152 | x and y end as their transforms: entry i is congruent to the value of the old polynomial at the root of X^n = -1 that the table gives for i. q and z end exactly as C's arithmetic leaves them, congruent to each other and to the product of the original inputs in the ring; if (n+2)*mod^2 < 2^31 and all numbers are at most mod to begin with, every intermediate value is a 32-bit integer. |
| `Ntt.ForwardAndBack` | src/core/extras/temp-ntt.cpp:81-152 | Forward loops, inverse loops and scaling on one array leave every entry congruent to what it was. |
| `Arith.TruncModIff` | src/core/extras/temp-ntt.cpp:66-150 | C's remainder is the one integer that is congruent to the dividend, smaller than the modulus and not of the opposite sign. |
| `Ntt.DummyTables` | src/core/extras/temp-ntt.cpp:42-45 | The two root tables of the program obey the local laws the theorems need, and 15 inverts 8 modulo 17. |
| `Ntt.DummyInRoom` | src/core/extras/temp-ntt.cpp:42-152 | For the length, the modulus and the tables of the program 32-bit integers are enough. |
| `Params.DigitCountLeast` | src/binfhe/include/ringcore.h:98-100 | The digit count is the least number of digits whose power of the base covers the modulus. |
| `Params.LWECryptoParams.Create` | src/binfhe/include/lwecore.h:56-68 | Moduli of more than 60 bits fail; otherwise the fields hold the arguments and the powers are filled. |
| `Params.LWECryptoParams.PreCompute` | src/binfhe/include/lwecore.h:73-83 | Appends exactly the powers of the base that cover Q. |
| `Params.RingGSWCryptoParams.Create` | src/binfhe/include/ringcore.h:66-89 | Fails exactly if the gadget base is not a power of two or 2N does not divide Q - 1, with the error of the first of the two; otherwise all tables are right. |
| `Params.RingGSWCryptoParams.PreCompute` | src/binfhe/include/ringcore.h:83-152 | If the root of unity exists: digit powers (AP only), gadget powers modulo Q, gate constants, and the monomial table (GINX only). |
| `Params.RingGSWCryptoParams.BuildMonomial` | src/binfhe/include/ringcore.h:136-151 | The coefficient updates give X^i - 1 or -X^i - 1, also when both hit coefficient 0. |
| `Params.RingGSWCryptoParams.FillMonomials` | src/binfhe/include/ringcore.h:134-152 | Entry m is X^m - 1 in the ring for every m below 2N. |
| `Decompose.ShiftsTakeDigit` | src/binfhe/lib/fhew.cpp:279-298 | Shifting a machine word left and back takes the residue in [-B/2, B/2), for negative values too. |
| `Decompose.DigitRange` | src/binfhe/lib/fhew.cpp:292-311 | Every digit lies in [-B/2, B/2). |
| `Decompose.Reconstruct` | src/binfhe/lib/fhew.cpp:286-312 | Digits times powers of the base, plus carry times the last power, give the value back. |
| `Decompose.CarryBit` | src/binfhe/lib/fhew.cpp:286-312 | For every coefficient modulo Q the final carry, which the program drops, is 0 or 1. |
| `Decompose.ExactIff` | src/binfhe/lib/fhew.cpp:286-312 | No coefficient leaves a carry if and only if (Q-3)(B-1) <= (B-2)(B^L-1). |
| `Accumulators.DecomposeCoefficient` | src/binfhe/lib/fhew.cpp:286-312 | Adds the digits of one coefficient to its column, row by row, and leaves everything else alone. |
| `Accumulators.SignedDigitDecompose` | src/binfhe/lib/fhew.cpp:256-315 | Digit l of component j is added to row j + 2l for all coefficients. |
| `Rgsw.ExternalProductExact` | src/binfhe/lib/fhew.cpp:318-352 | For every matrix, secret and message c*X^e, without any bound: the phase of the product is c*X^e times the phase, plus the digits times what the rows hold besides their gadget terms, minus c*X^e times base^digits times the phase of the dropped carries. |
| `Rgsw.ExternalProductPhase` | src/binfhe/lib/fhew.cpp:318-352 | For an encryption of c*X^e with errors up to beta that noise is at most 2*digits*N*(B/2)*beta plus the carry term. |
| `Accumulators.AddToACCAP` | src/binfhe/lib/fhew.cpp:318-352 | The accumulator becomes the external product of its old value with the key entry. |
| `BlindRotate.IndicesAreInverse` | src/binfhe/lib/fhew.cpp:383-392 | The two monomials that a GINX step selects are inverse to each other. |
| `BlindRotate.MuxSelects` | src/binfhe/lib/fhew.cpp:394-416 | Of the two MUX terms at most one is present, and it replaces a polynomial by its rotation. |
| `BlindRotate.GinxStepExact` | src/binfhe/lib/fhew.cpp:383-416 | For all matrices: one GINX step rotates the phase by the ternary secret coefficient times the entry, plus exactly (X^i - 1) times the noise of the one product and (X^j - 1) times that of the other. |
| `BlindRotate.GinxStepPhase` | src/binfhe/lib/fhew.cpp:383-416 | One GINX step rotates the phase by the ternary secret coefficient times the entry, with at most four product errors. |
| `Accumulators.AddToACCGINX` | src/binfhe/lib/fhew.cpp:358-417 | Both terms use the digits of the old accumulator; the accumulator becomes the value of one GINX step. |
| `BlindRotate.LookupByRotation` | src/binfhe/lib/fhew.cpp:438-460 | Rotating the lookup polynomial by any phase u brings the value for b - u to the constant coefficient. |
| `BlindRotate.ApDigitsPhase` | src/binfhe/lib/fhew.cpp:476-481 | The digit loop rotates by the exponents of the entries it uses, one product error per digit. |
| `BlindRotate.DigitsExponentIs` | src/binfhe/lib/fhew.cpp:476-481 | Those exponents add up to secret times entry, because the digits cover q. |
| `BlindRotate.ApLoopExact` | src/binfhe/lib/fhew.cpp:474-482 | For every key of the right shape and all secrets: the AP loops rotate the phase by the whole inner product, plus exactly the sum of the noise of all products, each rotated by the exponents that come after it. |
| `BlindRotate.ApLoopPhase` | src/binfhe/lib/fhew.cpp:474-482 | The AP loops rotate the phase by the whole inner product, with n * digits product errors; only digit values 1 to baseR - 1 are looked up. |
| `BlindRotate.GinxLoopExact` | src/binfhe/lib/fhew.cpp:483-488 | The same for the GINX loop and ternary secrets, which are all that its key generation accepts. |
| `BlindRotate.GinxLoopPhase` | src/binfhe/lib/fhew.cpp:483-488 | The GINX loop rotates by the same inner product, with 4n product errors. |
| `Encryption.MessageExponentIs` | src/binfhe/lib/fhew.cpp:57-63 | Reduction of a negative message with truncating remainders gives the exponent Factor*m modulo 2N. |
| `Encryption.RowEncryptsGadget` | src/binfhe/lib/fhew.cpp:68-96 | For every mask and every error, without any bound: the phase of a row is its gadget term plus the error, and its first column the mask plus what the gadget adds there, modulo Q. |
| `Encryption.EncryptAP` | src/binfhe/lib/fhew.cpp:42-99 | Every row is made from its samples and holds, exactly, its gadget term for X^(Factor*m), its mask and its error; if the errors are small the result is an encryption with that error. |
| `Encryption.EncryptGINX` | src/binfhe/lib/fhew.cpp:103-143 | The same for the bit m > 0: the gadget is added or nothing is. |
| `KeyGeneration.ApExponent` | src/binfhe/lib/fhew.cpp:185-194 | Taking q off twice and multiplying in 32-bit integers gives the exponent of the signed secret modulo 2N if and only if what wrap-around takes off the product is a multiple of q. |
| `KeyGeneration.SignedIntIff` | src/binfhe/lib/fhew.cpp:185-194 | The message of an entry is the one 32-bit signed integer congruent to the product. |
| `KeyGeneration.ApProductIs` | src/binfhe/lib/fhew.cpp:185-194 | The product is that of digit value, power and secret for secrets in the lower half, and of the secret minus 2q, not q, for those in the upper half. |
| `KeyGeneration.KeyGenAP` | src/binfhe/lib/fhew.cpp:157-198 | For every coefficient, nonzero digit value and position, entry (i, j, k) is made from its own samples: every row holds the gadget term for the power of X that the 32-bit product stands for, with exactly that mask and that error. If no product wraps harmfully and the errors are small, it is a key for blind rotation; and a switching key. |
| `KeyGeneration.ApMessagesAlwaysFit` | src/binfhe/lib/fhew.cpp:185-194 | No product can wrap harmfully for any secret if q divides 2^32, as it does in all shipped sets. |
| `KeyGeneration.KeyGenGINX` | src/binfhe/lib/fhew.cpp:202-250 | Fails exactly for secrets that are not ternary; otherwise the entries for (s = 1) and (s = -1) of every coefficient are made from their own samples, with exactly those masks and errors. |
| `KeyGeneration.GeneratedKeysWork` | src/binfhe/lib/fhew.cpp:145-250 | Generated keys meet every hypothesis of the gate and circuit theorems. |
| `Lwe.Encrypt` | src/binfhe/lib/lwe.cpp:54-76 | With wrapping words, the phase is (m % 4)*(q/4) + e minus what wrap-around takes off the whole sum, modulo q, for all messages and samples; so it is the promised one if and only if q divides that, as it does for every message that fits. |
| `Lwe.PromisedIs` | src/binfhe/lib/lwe.cpp:54-62 | The message counts modulo 4 with the sign of C's remainder; the promised phase is that remainder times q/4, plus the error. |
| `Lwe.AlwaysHarmlessIff` | src/binfhe/lib/lwe.cpp:54-76 | For a message m, dimension n and modulus q below 2^64, encryption is right for all errors and vectors if and only if t = (m % 4)*(q/4) is not negative and t + (n+1)*(q-1) < 2^64, or q divides 2^64. |
| `Lwe.HarmlessWhen` | src/binfhe/lib/lwe.cpp:54-76 | No error and no vectors, reduced or not, do any harm to a message that meets that condition. |
| `Lwe.NegativeMessageFails` | src/binfhe/lib/lwe.cpp:54-76 | A negative message that 4 does not divide goes wrong in every dimension, for every modulus from 4 on that does not divide 2^64. |
| `Lwe.MinusOneFails` | src/binfhe/lib/lwe.cpp:54-76 | For example -1 under the modulus 17 in every dimension, with zero vectors and no error. |
| `Lwe.Decrypt` | src/binfhe/lib/lwe.cpp:80-121 | Returns the decoding of the phase plus what wrap-around takes off the inner product; of the phase itself when words fit. |
| `Lwe.DecodeIff4` | src/binfhe/lib/lwe.cpp:102-111 | Decoding gives m below 4 exactly for those numbers that lie, shifted by q/8 and reduced, in the m-th of four half-open quarters of [0, q), for any modulus. |
| `Lwe.DecodeIff` | src/binfhe/lib/lwe.cpp:102-111 | Decoding gives the message if and only if the error lies in its window, for any modulus, also when 8 does not divide it. |
| `Lwe.LweRoundTrip` | src/binfhe/lib/lwe.cpp:54-121 | Any ciphertext with that phase decrypts to the message exactly for the errors of the window, which is [-q/8, q/8) when 8 divides q. |
| `Lwe.EncryptDecrypt` | src/binfhe/lib/lwe.cpp:54-121 | Encrypting and decrypting 0 to 3 under a modulus from 8 on gives the message if and only if the centred error lies in its window. |
| `Lwe.DeferredIff` | src/binfhe/lib/lwe.cpp:188-197 | Deferring the reduction agrees with reducing in every step on all inputs if and only if (n+1)(Q-1) < 2^64, unless Q divides 2^64. |
| `Lwe.NoiselessEmbedding` | src/binfhe/lib/lwe.cpp:243-255 | A zero vector and m*(q/4) in a machine word, not reduced modulo q. |
| `Switching.RoundExact` | src/binfhe/lib/lwe.cpp:125-131 | Q times the rounded quotient is q times the value plus the residue of -q*value in (-Q/2, Q/2], modulo q*Q; the quotient is below q. |
| `Switching.RoundError` | src/binfhe/lib/lwe.cpp:125-131 | Q times the exact quotient rounded is within Q/2 of q times the value, modulo q*Q, even where rounding wraps to 0; for rounding in double precision see the rows of `Doubles`. |
| `Doubles.DoublesRoundExactly` | src/binfhe/lib/lwe.cpp:125-131 | Three operations in double precision, each with relative error up to 2^-53, and rounding down can give one result only, the exactly rounded quotient, if 16*q*Q <= 2^53 and Q is odd. |
| `Doubles.DoublesNear` | src/binfhe/lib/lwe.cpp:125-131 | For all moduli, what they can give, times Q, is within Q/2 + 6*q*Q/2^53 + 1 of q times the value, modulo q*Q, and not negative. |
| `Switching.ModSwitch` | src/binfhe/lib/lwe.cpp:134-148 | All entries and b are rounded. |
| `Switching.ModSwitchExact` | src/binfhe/lib/lwe.cpp:125-148 | For every secret and all moduli: Q*phase_q is q*phase_Q plus exactly the residues of b minus the inner product of those of a with the secret, modulo q*Q. |
| `Switching.ModSwitchPhase` | src/binfhe/lib/lwe.cpp:125-148 | For a ternary secret, Q*phase_q is within (n+1)*(Q/2) of q*phase_Q modulo q*Q. |
| `Doubles.MaySwitchPhase` | src/binfhe/lib/lwe.cpp:125-148 | The same in double precision for all moduli, with that slack added to the Q/2 of every entry. |
| `Doubles.MaySwitchExactly` | src/binfhe/lib/lwe.cpp:125-148 | Where 16*q*Q <= 2^53 and Q is odd, modulus switching in double precision can give the exactly rounded ciphertext only. |
| `Switching.SwitchedKey` | src/binfhe/lib/lwe.cpp:163-166 | Switching the modulus of a secret keeps the signed integers it stands for. |
| `Switching.SignedIff` | src/binfhe/lib/lwe.cpp:163-166 | A stored entry stands for the one signed integer in (-q/2, q/2] that is congruent to it. |
| `Switching.KeySwitchGen` | src/binfhe/lib/lwe.cpp:151-207 | Entry (i, j, k) is made from its samples and has exactly the phase e + z_i*j*baseKS^k less what machine words take off, for all parameters. |
| `Switching.FreshKeySwitches` | src/binfhe/lib/lwe.cpp:151-207 | The generated key switches from one secret to the other, with the error of the samples. |
| `Switching.KeySwitch` | src/binfhe/lib/lwe.cpp:211-238 | The loops subtract exactly the entries selected by the digits of every coefficient. |
| `Switching.KeySwitchExact` | src/binfhe/lib/lwe.cpp:211-238 | For every ciphertext, reduced or not: the new phase is that of the numbers which the digits cover, minus the errors of the selected entries, exactly, modulo Q. |
| `Switching.KeySwitchPhase` | src/binfhe/lib/lwe.cpp:177-237 | For a reduced ciphertext the digits cover everything, so the new phase is the old one minus those errors. |
| `Switching.KeySwitchNear` | src/binfhe/lib/lwe.cpp:227-235 | That sum is at most N * digits * beta. |
| `Negacyclic.TransposeInner` | src/core/unittest/UnitTestPolyElements.cpp:568-591 | The inner product with the transposed polynomial is the constant coefficient of the ring product. |
| `Refresh.AccumulateExact` | src/binfhe/lib/fhew.cpp:474-488 | Whatever the key holds, AP and GINX rotate by the same exponent, each plus the explicit noise of its own loop. |
| `Refresh.AccumulatePhase` | src/binfhe/lib/fhew.cpp:474-488 | With keys of bounded error both rotate by that exponent up to the rotation error. |
| `Refresh.BootstrapExact` | src/binfhe/lib/fhew.cpp:438-490 | Whatever the keys and the parameters are: the phase of the accumulator is the lookup polynomial times X^(Factor*<negated a, s>), plus exactly the noise of the loops; its constant coefficient is the value looked up for the phase of the ciphertext, plus the constant coefficient of that noise, modulo Q. |
| `Refresh.BootstrapConstant` | src/binfhe/lib/fhew.cpp:438-490 | The constant coefficient of the accumulator's phase is the value looked up for the phase of the ciphertext, up to the rotation error. |
| `Refresh.ExtractPhase` | src/binfhe/lib/fhew.cpp:551-564 | The extracted sample's phase is Q8 plus the constant coefficient of the ring phase. |
| `Refresh.FinishExact` | src/binfhe/lib/fhew.cpp:546-571 | Whatever the keys and the parameters are: Q times the phase of the outcome is q times (the value looked up + Q8 + the noise of the rotation - the errors of the selected key entries), plus the rounding, modulo q*Q. |
| `Refresh.EighthsAre` | src/binfhe/lib/fhew.cpp:445-446 | Scaled to the common modulus, 2*Q8 differs from a quarter by at most 2q. |
| `Refresh.FinishPhase` | src/binfhe/lib/fhew.cpp:546-571 | A whole bootstrapping encodes the looked-up bit with noise at most betaOut, whatever the noise of the input. |
| `Refresh.FinishActual` | src/binfhe/lib/fhew.cpp:546-571 | With any keys and any way of rounding, the looked-up bit is encoded within betaOut if the constant coefficient of the rotation noise, the selected key errors and the rounding of this very run, all given by explicit sums, fit. |
| `Refresh.WorstErrors` | src/binfhe/lib/fhew.cpp:546-571 | With keys of bounded error the errors of every run are at most the worst-case bounds. |
| `Refresh.FinishDoubles` | src/binfhe/lib/fhew.cpp:546-571 | A whole bootstrapping whose last step is done in double precision encodes the looked-up bit, for all moduli. |
| `Refresh.NoiseFormula` | src/binfhe/lib/fhew.cpp:495-573 | The worst-case bounds as products: n times digits (or 4) times one product error, plus N times digits times the key error, and the inequality they must meet. |
| `Bootstrapping.RangeTest` | src/binfhe/lib/fhew.cpp:438-460 | Both branches of the range test decide the same half-open window, which may wrap around q. |
| `Bootstrapping.BuildLookup` | src/binfhe/lib/fhew.cpp:438-460 | The loop fills exactly the lookup polynomial, zero between the positions it uses. |
| `Bootstrapping.BootstrapCore` | src/binfhe/lib/fhew.cpp:419-491 | Fails exactly without keys; otherwise the accumulator is the blindly rotated lookup polynomial. |
| `Bootstrapping.EvalNOT` | src/binfhe/lib/fhew.cpp:622-635 | A fresh object holding q - a_i and q/4 - b. |
| `Bootstrapping.EvalBinGate` | src/binfhe/lib/fhew.cpp:495-573 | Fails exactly for one object given twice or missing keys; otherwise the gate's value; XOR and XNOR terminate. |
| `Bootstrapping.Bootstrap` | src/binfhe/lib/fhew.cpp:577-619 | Fails exactly without keys; otherwise the bootstrapped value. |
| `Bootstrapping.EvaluateCircuit` | src/binfhe/lib/fhew.cpp:495-635 | Evaluating a circuit on distinct input objects gives the value-level result or its error. |
| `Gates.NotInvolution` | src/binfhe/lib/fhew.cpp:628-634 | NOT twice is the identity on ciphertexts with entries in [0, q]. |
| `Gates.NotPhase` | src/binfhe/lib/fhew.cpp:628-634 | NOT turns the phase x into q/4 - x modulo q. |
| `Gates.NotTimesIs` | src/binfhe/lib/fhew.cpp:622-635 | Any number of NOTs gives the ciphertext or its negation. |
| `Gates.NotEncodes` | src/binfhe/lib/fhew.cpp:622-635 | NOT encodes the negated bit with the same noise bound. |
| `Gates.CombinePhase` | src/binfhe/lib/fhew.cpp:527-544 | The phase of the combination in terms of bits and noise, for sums and doubled differences. |
| `Gates.DirectGateExact` | src/binfhe/lib/fhew.cpp:526-572 | Whatever the keys, the parameters and the noise are: the phase of a direct gate is that of a bootstrapping of the combination with the range of the gate, noise included. |
| `Gates.BootstrapCtExact` | src/binfhe/lib/fhew.cpp:577-619 | The same for bootstrapping alone, with q/4 added and the range of AND. |
| `Gates.XorGateExact` | src/binfhe/lib/fhew.cpp:513-524 | The same for the three bootstrappings of XOR: the outcome is that of OR on the outcomes of AND for x and not y and of AND for not x and y. |
| `Gates.XnorGateExact` | src/binfhe/lib/fhew.cpp:513-524 | For all keys the phase of XNOR is q/4 minus that of XOR. |
| `Gates.GateConstants` | src/binfhe/lib/fhew.cpp:515-546 | A direct gate is right for all four operand pairs if and only if the combined noise lies in [-q/8, q/8), or [-3q/8, q/8) for the fast gates. |
| `Gates.BootstrapConstants` | src/binfhe/lib/fhew.cpp:587-593 | AND with q/4 added keeps both bits if and only if the noise lies in [-q/8, q/8). |
| `Gates.DirectGateCorrect` | src/binfhe/lib/fhew.cpp:526-572 | A bootstrapped gate encodes the right bit with noise at most betaOut. |
| `Gates.DirectGateActual` | src/binfhe/lib/fhew.cpp:526-572 | The same for any keys and any parameters, if the errors that occur in the run, not the worst-case ones, fit. |
| `Gates.GateActual` | src/binfhe/lib/fhew.cpp:495-573 | The same for all eight gates; for XOR and XNOR the errors of all three bootstrappings count. |
| `Gates.BootstrapActual` | src/binfhe/lib/fhew.cpp:577-619 | The same for bootstrapping alone. |
| `Gates.GateFitsAlways` | src/binfhe/lib/fhew.cpp:495-573 | With keys whose worst-case errors fit, the errors of every run of every gate fit. |
| `Gates.WorstCaseDimension` | src/binfhe/lib/fhew.cpp:526-572 | The worst-case inequality and the margin of the plain gates together imply 8n < q. |
| `Gates.NamedSetsExceed` | src/binfhe/lib/binfhecontext.cpp:43-122 | All ten shipped sets are of the supported kind, and none meets the worst-case inequality with the margin of the plain gates, whatever the keys are. |
| `Gates.GateCorrect` | src/binfhe/lib/fhew.cpp:495-573 | Every gate encodes the right bit with noise at most betaOut. |
| `Gates.FastGatesAgree` | src/binfhe/lib/fhew.cpp:513-544 | XOR and XNOR through AND, OR and NOT decrypt to the same bits as the fast gates. |
| `Gates.BootstrapCorrect` | src/binfhe/lib/fhew.cpp:577-619 | Bootstrapping keeps the bit and replaces the noise by at most betaOut. |
| `Circuits.ConstantEncodes` | src/binfhe/lib/binfhecontext.cpp:178-180 | A constant encodes its bit without noise. |
| `Circuits.HomEvalFails` | src/binfhe/lib/fhew.cpp:507-511 | Evaluation fails for exactly the circuits that use one input as both operands of a gate. |
| `Circuits.CircuitActual` | src/binfhe/lib/fhew.cpp:495-635 | For any keys and any parameters, a circuit of any size and depth encodes its plaintext value if the errors of all bootstrappings that its evaluation performs fit. |
| `Circuits.CircuitActualDecrypts` | src/binfhe/lib/fhew.cpp:495-635 | Such a circuit decrypts with the stored key to its plaintext value. |
| `Circuits.CircuitCorrect` | src/binfhe/lib/fhew.cpp:495-635 | With keys whose worst-case errors fit, every circuit encodes the plaintext value within the noise bound. |
| `Circuits.CircuitDecrypts` | src/binfhe/lib/fhew.cpp:495-635 | For every circuit, decryption with the stored key gives the plaintext value, if 32*beta < q and betaOut <= beta. |
| `Programs.RunFails` | src/binfhe/lib/fhew.cpp:507-511 | A program over wires, on which results are shared and copied, fails if and only if some gate gets one object as both operands. |
| `Programs.RunActual` | src/binfhe/lib/fhew.cpp:495-635 | After every other program all wires encode their plaintext bits, for any keys and parameters, if the errors of all bootstrappings that the run performs fit. |
| `Programs.RunDecrypts` | src/binfhe/lib/fhew.cpp:495-635 | All wires of such a run decrypt with the stored key to the plaintext bits. |
| `Programs.RunCorrect` | src/binfhe/lib/fhew.cpp:495-635 | With keys whose worst-case errors fit, all wires encode their plaintext bits within the noise bound after every program that does not fail. |
| `Programs.CircuitAsProgram` | src/binfhe/lib/fhew.cpp:495-635 | For all keys, parameters and inputs, evaluating a circuit is running the straight-line program it compiles to: both fail with the same error, or the last wire holds the value. |
| `Programs.RunProgram` | src/binfhe/lib/fhew.cpp:495-635 | Running the program on any sequence of ciphertext objects, which may contain one object many times, gives the value-level wires or error. |
| `Session.RunCircuit` | src/binfhe/lib/binfhecontext.cpp:137-180 | For any keys and parameters: encrypting bits, evaluating any circuit on the ciphertext objects and decrypting gives the decryption of the evaluation on textbook LWE encryptions of the bits, and the plaintext value if the errors of the bootstrappings of this evaluation fit, or the worst-case ones; it fails exactly when a gate gets one input twice. |
| `Session.RunSession` | src/binfhe/lib/binfhecontext.cpp:137-180 | The same for straight-line programs and all their wires; it fails exactly when a gate gets one object twice. |
| `Session.SampleSession` | src/binfhe/lib/fhew.cpp:145-250 | For AP and for GINX, parameters that the constructors accept, generated keys and secrets exist for which everything that a session assumes holds together, the worst-case hypotheses included. |
| `Circuits.SampleFits` | src/binfhe/lib/fhew.cpp:495-573 | The inequality can be met: an explicit set, with a prime Q that has a 2N-th root of unity, absorbs key errors up to 20 for AP and for GINX. |

## Left out

- Random sampling, failure probability and security: samples are arguments with bounds. How likely it is that the errors of a run with a shipped parameter set are as small as `Programs.RunActual` asks is not part of this model.
- Switching.RoundqQ: rounds the exact quotient, and gates and programs use it. Double precision can give another result for 16*q*Q > 2^53 only (of the shipped sets STD128Q); `Refresh.FinishActual` and `Refresh.FinishDoubles` cover that for one bootstrapping.
- Params.DigitCount: does not model floating-point logarithms; it is the exact ceiling.
- Accumulators.DecomposeCoefficient: the machine word is 64 bits wide; the shift lemma is proved for every width.
- Circuits.CircuitDecrypts: is conditional on the worst-case noise inequality `OutputFits` and on `32*beta < q`, which no shipped set meets together (`Gates.NamedSetsExceed`); `Circuits.CircuitActualDecrypts` asks for the errors of the evaluation instead.
- Bodies of the modular helpers (ModMulFast, ModAddFast, ModSubFast, Barrett constants) and of the polynomial class with its own transform: not part of this model, taken as exact arithmetic modulo the modulus.
- The 32-bit build branch of key-switch generation: covered by `Lwe.DeferredIff`, the method follows the 64-bit branch.
- OpenMP: the key generation loops are sequential here; their iterations are independent.
- Serialization, copy and move operations, comparison operators, and the context class that only forwards calls: no behaviour beyond what is modelled.
- The small, large and benchmark variants in `temp-ntt.cpp`: they call the transform of the library on its own vector type instead of running loops, and their results are not used.
- Printing and benchmarks: they compute nothing.
