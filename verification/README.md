# Chebyshev authentication and selective video encryption: a verified model

The repository holds a device-to-centre authentication protocol built on Chebyshev polynomials modulo a
composite number, the embedded firmware that evaluates those polynomials on 32-bit limbs, a streaming path
that fragments HEVC video over RTP and encrypts its I-frames with ZUC-256, and scripts that compare the
protocol with SM9. This project models the algorithmic core of these parts in Dafny and proves what they
promise. `dafny verify dfyconfig.toml` checks everything.

| file | what it covers |
|---|---|
| `Modular`, `NumberTheory` | congruences; Bezout and modular inverse; Fermat and Frobenius in the integers extended by a square root |
| `Chebyshev`, `Matrix` | the polynomials over the integers, their identities, and the square-and-multiply evaluation |
| `KeyRecovery` | T_e undoes T_d modulo p·q |
| `Protocol`, `ThreeParty` | registration, authentication, key agreement; the three-party exchange |
| `Limbs`, `BigInt`, `Firmware`, `MulMod` | the limb code of the firmware, refined to the integers |
| `Ladders`, `Comb`, `Sm4` | exponentiation ladders over any group; SM4 and CBC for any mixing function |
| `Fragmentation`, `Reassembly` | HEVC fragmentation units, from the sender to the receiver's pool of buffers |
| `Bits`, `ZucWords`, `Zuc`, `RtpCipher`, `AnnexB`, `Sm3` | stream cipher, packet and NAL encryption, streaming hash |
| `TimerQueue` | the media server's timer queue |

## Main results

- **The centre can read what a device sends.** For distinct odd primes p and q and e·d congruent to 1 modulo
  (p²−1)(q²−1), T_e(T_d(v)) is congruent to v modulo pq for every v (`KeyRecovery.Recovery`). The proof works
  in the integers extended by sqrt(v²−1), where T_n is a coordinate of a power: the binomial theorem and
  Euclid's lemma give Frobenius, hence T_p(v) ≡ v, and the index p²−1 acts as the identity.
- **Every honest run succeeds with one key** (`Protocol.HonestRun`), from any state of the centre, for any hash
  function, nonces and enrolment number, when the pseudonym is new and the three sent values are residues.
- **The firmware computes the same polynomial** (`Firmware.ChebyshevUnit.ChebyshevTn`, `Firmware.RunCalls`):
  limb arithmetic, shift-subtract reduction and matrix powers refine the three-term recurrence, for every
  256-bit index and any sequence of calls.
- **Interleaved NAL units come out once and intact** (`Reassembly.Receive`), through the real eight-slot pool,
  with any number of units one after the other under each timestamp.
- **The cipher makes the standard's steps** in every run, initialisation included, and its register never holds
  0 (`Zuc.EveryRun`): the bit reorganisation as arithmetic on the cells, the linear transforms bit by bit, the
  substitution byte by byte, and the tap sum modulo 2^31−1.
- **Exactly the first 64 bytes of an I-frame leave the client in clear**, however it is fragmented
  (`RtpCipher.ForwardUnit`).

## Where the code departs from what it promises

Each of these is stated exactly, with the condition under which the promise holds.

- `carry4` survives a call of `chebyshev_Tn`. With a modulus above 2^255 a call can leave it at 1
  (`Firmware.CarryLeak`), and the next call then follows the recurrence with 2x + 1; the unit is right for all
  inputs exactly when the carry is 0 (`Firmware.StaleCarry`), which moduli up to 2^255 guarantee.
- `chebyshev_Tn` does not reduce x, and the device passes it unreduced values (protocol.c:412-431). Without a
  stale carry and for every 256-bit x (`Firmware.UnreducedExact`): for n = 1 the result is right exactly when
  x < p; for n ≥ 2 the call ends exactly when the square of the doubled x is at most 287 bits longer than p
  (`Firmware.CallEnds`), and where it ends it is right for all n exactly when 2x < 2^256 + p or p divides 2^256.
  Modulo 3 and x = 2^255 it does not end (`Firmware.EndlessCall`); modulo 2^255 − 1 and x = 2^256 − 1 it returns
  −1 for 1 (`Firmware.WrappedCall`).
- `big_mod` does not end when the dividend is 288 or more bits longer than the modulus: every pass leaves the
  remainder and its bit position alone (`BigInt.ModStuck`, `BigInt.ModPass`). It ends with the right remainder
  otherwise (`BigInt.BigMod`, `BigInt.EndsExact`).
- `uint256_mulmod` subtracts only when strictly above the modulus. For every modulus below 2^255 and reduced
  operands the product is right exactly when no leading-bit prefix of it is a non-zero multiple of the modulus
  (`MulMod.ReducedProductExact`, `MulMod.ProductExact`). At the modulus 2^255 itself, or with operands above the
  modulus, such a prefix can occur and the result still be right (`MulMod.EdgeModulus`,
  `MulMod.UnreducedOperand`). For every modulus the register is the remainder at every bit exactly when there is
  no such prefix and no remainder of 2^255 or more is doubled (`MulMod.InvariantExact`).
- `FQ12.__pow__` returns the base for exponent 0, so it is right exactly for k > 0 or the identity
  (`Ladders.AddSubPow`).
- A timer added with interval 0 is filed under a timeout it does not have (`TimerQueue.Queue.AddTimer`). Removed
  before it fires, it leaves its event behind, whose callback is then called all the same
  (`TimerQueue.StaleEvent`). Every call still ends and fires each event at most once, in every state a run can
  reach (`TimerQueue.Queue.HandleTimerEvent`, `TimerQueue.RunOps`).
- The receiver deciphers every long packet whatever its type, so a packet the client left in clear comes back
  only when the keystream is zero (`RtpCipher.RoundTripExact`): wherever encryption changes an I-frame packet,
  the same packet under another type is damaged (`RtpCipher.ClearPacketDamaged`).
- A NAL unit of type 49 that fits one packet is taken for a fragment (`Reassembly.SendAndReceive`).
- Fragments carry no count, so a lost one in the middle of a unit goes unnoticed: the unit is delivered without
  its bytes. Without the first or the last fragment nothing is delivered, and without the last the slot stays
  open (`Fragmentation.LostFragment`). A refused allocation costs bytes or the unit in the same way
  (`Reassembly.Pool.FuProcess`).
- The nonce check of both ends accepts T_{|a−b|} as well as T_{a+b} (`Protocol.NonceCheckExact`,
  `Protocol.DifferencePasses`).
- The centre draws p and q without comparing them. Every value is recovered exactly when p ≠ q or e·d is 1
  modulo p as well (`KeyRecovery.RecoveryExact`); otherwise p itself comes back as another value
  (`KeyRecovery.EqualPrimesFail`).
- The centre keeps one session. When a second device asks before the first has answered, the first one's
  honest answer is refused (`Protocol.InterleavedSessions`). A request refused for its password still replaces
  the secret the centre holds (`Protocol.PasswordVerdict`, `Protocol.RefusedRequest`).
- The pass over I-frames undoes itself for every keystream exactly when at least 32 bytes stay clear
  (`AnnexB.SkipExact`); the split drops NAL units shorter than two bytes (`AnnexB.JoinSplit`). The second run
  over a written file splits it at the same places exactly when no start code begins inside an encrypted unit
  (`AnnexB.SecondSplitExact`), which a keystream can violate (`AnnexB.CodeWritten`).

## Modelling choices

- The hash, the S-boxes, SM3's compression and SM4's T are arbitrary functions. Nonces, clock readings,
  callback and allocator answers and the enrolment number are parameters.
- Limbs, bytes and counters carry their width in their type or an explicit wrap; `|` of bits that do not
  overlap is written as a sum. Python integers are unbounded. `int(str(a) + str(b))` is decimal concatenation.
- Scratch statics of the firmware that each call writes before it reads are locals; `carry4` is a field.
  A limb input that never aliases an output is passed as a value; outputs are arrays, and may alias an array
  input where the source does that.
- Messages the device only prints about (its own failed checks) are returned as booleans.
- Comments in the source about `big_sub` assume a ≥ b; its contract here covers the borrow as well, because
  two callers use the wrapped difference.

## Model

| member | source | states |
|---|---|---|
| `Chebyshev.Addition` | 认证协议仿真及对比/sever.py:162-181 | addition formulas for T and its companion U, from the recurrence |
| `Chebyshev.Norm` | 认证协议仿真及对比/sever.py:162-181 | T_n² − (x²−1)·U_n² = 1 for every n and x |
| `Chebyshev.Composition` | 认证协议仿真及对比/compare1_cheb.py:178-203 | T_a(T_b(x)) = T_ab(x) for all a, b, x |
| `Chebyshev.ThreeTerm` | 认证协议仿真及对比/sever.py:451-454 | T_a² + T_b² + T_{a+b}² = 2·T_a·T_b·T_{a+b} + 1 |
| `Chebyshev.Reduce` | 认证协议仿真及对比/sever.py:205-230 | congruent arguments give congruent values, for every modulus |
| `Chebyshev.Commutes` | 认证协议仿真及对比/compare1_cheb.py:178-203 | two parties applying a and b in either order, reducing in between, reach T_ab mod m |
| `Matrix.PowerAdd` | 认证协议仿真及对比/sever.py:188-203 | matrix powers add exponents |
| `Matrix.MulReduced` | 认证协议仿真及对比/sever.py:184-190 | reducing factors first does not change the reduced product |
| `Matrix.TransferPower` | 认证协议仿真及对比/sever.py:218-230 | the k-th power of the transfer matrix steps the recurrence k times |
| `Matrix.MatrixPower` | 认证协议仿真及对比/sever.py:192-203 | square-and-multiply gives the k-fold product mod p |
| `Matrix.ChebyshevMatrix` | 认证协议仿真及对比/sever.py:205-230 | the matrix evaluation is T_n(x) mod p for every n ≥ 0, x and p > 0 |
| `Matrix.ChebyshevPolynomial` | 认证协议仿真及对比/sever.py:162-181 | the loop evaluation is T_n(x) mod p too |
| `NumberTheory.ExtendedGcd` | 认证协议仿真及对比/sever.py:136-144 | Bezout coefficients of a common divisor |
| `NumberTheory.ModInverse` | 认证协议仿真及对比/sever.py:146-154 | an inverse below m, or a common divisor above 1 |
| `NumberTheory.InverseExists` | 认证协议仿真及对比/sever.py:146-154 | an inverse is found whenever one exists |
| `KeyRecovery.PrimeIndex` | 认证协议仿真及对比/sever.py:343-343 | modulo an odd prime p, T_p(v) ≡ v and U_p(v) is the (p−1)/2-th power of v²−1 |
| `KeyRecovery.OrderIndex` | 认证协议仿真及对比/sever.py:343-343 | T at p²−1 is 1 modulo p, for every v |
| `KeyRecovery.FixedIndex` | 认证协议仿真及对比/sever.py:343-343 | every index that is 1 modulo p²−1 fixes every v modulo p |
| `KeyRecovery.Recovery` | 认证协议仿真及对比/sever.py:388-389 | T_e undoes T_d modulo p·q, for every value |
| `KeyRecovery.AtPrimeExact` | 认证协议仿真及对比/sever.py:343-343 | T_n(p) ≡ p modulo p² iff n ≡ 1 modulo p, for n ≡ 1 modulo 4 |
| `KeyRecovery.SquareOrder` | 认证协议仿真及对比/sever.py:343-343 | the index p(p²−1) acts as 1 modulo p², for every v |
| `KeyRecovery.RecoveryExact` | 认证协议仿真及对比/sever.py:340-347 | every value comes back iff p ≠ q or e·d ≡ 1 modulo p |
| `KeyRecovery.EqualPrimesFail` | 认证协议仿真及对比/sever.py:340-343 | with p = q and e·d not 1 modulo p, the value p does not come back |
| `KeyRecovery.EqualPrimesExample` | 认证协议仿真及对比/sever.py:340-343 | p = q = 3, e = 5, d = 13 and the value 3 |
| `Protocol.XorCancel` | 认证协议仿真及对比/sever.py:429-430 | masking by XOR is undone by the same mask, from either side |
| `Protocol.XorBits` | 认证协议仿真及对比/sever.py:429-430 | each bit of the result is the sum of the two bits |
| `Protocol.CatIsText` | 认证协议仿真及对比/sever.py:362-366 | the number of the concatenated decimal digits, for two and for three numbers |
| `Protocol.LookupAppend` | 认证协议仿真及对比/sever.py:26-58 | a stored row is found when its name is new, and hides no earlier row |
| `Protocol.LookupSpec` | 认证协议仿真及对比/sever.py:26-58 | the first row of the name, or none |
| `Protocol.AuthenCenter.constructor` | 认证协议仿真及对比/sever.py:339-349 | the public key is T_sk(x) mod N and the store is empty |
| `Protocol.AuthenCenter.UserRegister` | 认证协议仿真及对比/sever.py:359-377 | the row stored, field by field from the credentials; A and the inverse of e, if any, returned |
| `Protocol.AuthenCenter.UserAuth` | 认证协议仿真及对比/sever.py:379-421 | wrong digest, unknown pseudonym, foreign A, wrong password, accepted: the verdict of each, and the secret kept or replaced |
| `Protocol.DecidedIs` | 认证协议仿真及对比/sever.py:379-421 | the same of the verdict function, for every store and request |
| `Protocol.AuthenCenter.SharedKeyGen` | 认证协议仿真及对比/sever.py:423-434 | the masked nonce and identity sent, and the session state kept |
| `Protocol.AuthenCenter.SharedKeyGen2` | 认证协议仿真及对比/sever.py:435-466 | accepts exactly when digest, identity and nonce check hold, and then derives the key |
| `Protocol.User.constructor` | 认证协议仿真及对比/User_simple.py:323-327 | a device without parameters |
| `Protocol.User.RegisterProc` | 认证协议仿真及对比/User_simple.py:339-345 | the parameters are stored |
| `Protocol.User.AuthPre` | 认证协议仿真及对比/User_simple.py:351-365 | self-check, missing key, or the three enciphered values |
| `Protocol.User.SharedKeyGen` | 认证协议仿真及对比/User_simple.py:367-396 | what is read from the centre's message, the two verdicts, and the answer |
| `Protocol.User.SharedKeyGen2` | 认证协议仿真及对比/User_simple.py:398-416 | the nonce is accepted or the old one kept; the key derived from it |
| `Protocol.IssuedPairInverts` | 认证协议仿真及对比/sever.py:367-389 | the issued pair inverts on every residue |
| `Protocol.PasswordVerdict` | 认证协议仿真及对比/sever.py:379-421 | an enrolled device with any password: accepted iff the authenticators agree; the secret is replaced either way |
| `Protocol.RefusedRequest` | 认证协议仿真及对比/sever.py:409-418 | a refused request that replaces the secret |
| `Protocol.HonestAuth` | 认证协议仿真及对比/sever.py:379-421 | a registered device with its own credentials is accepted |
| `Protocol.NonceCheckExact` | 认证协议仿真及对比/sever.py:451-458 | the check holds iff (TC − T_{a+b})(TC − T_{\|a−b\|}) ≡ 0 |
| `Protocol.HonestNonce` | 认证协议仿真及对比/User_simple.py:404-412 | the honest third value passes |
| `Protocol.DifferencePasses` | 认证协议仿真及对比/sever.py:454-455 | so does T_{\|a−b\|} |
| `Protocol.DifferenceExample` | 认证协议仿真及对比/sever.py:454-455 | a, b, x, n for which that is another value |
| `Protocol.HonestExchange` | 认证协议仿真及对比/sever.py:443-458 | each end reads the other's identity and nonce back, and the check passes |
| `Protocol.RequestSession` | 认证协议仿真及对比/sever.py:607-620 | an enrolled device is accepted and answered; the centre now holds its session |
| `Protocol.HonestAnswer` | 认证协议仿真及对比/sever.py:622-627 | the answer while the centre holds the session: all checks pass, keys equal |
| `Protocol.InterleavedSessions` | 认证协议仿真及对比/sever.py:607-627 | a second device's request in between: the first answer is refused, the second session succeeds |
| `Protocol.DifferentRequests` | 认证协议仿真及对比/User_simple.py:351-365 | devices with different pseudonyms send different enciphered ones |
| `Protocol.HonestSession` | 认证协议仿真及对比/User_simple.py:503-538 | one session from any state holding the enrolment: all checks pass, keys equal |
| `Protocol.HonestRun` | 认证协议仿真及对比/sever.py:596-627 | registration and session of a new device: all checks pass, keys equal |
| `ThreeParty.ServerKeysAgree` | 认证协议仿真及对比/compare1_cheb.py:169-202 | a party and the server derive the same key from the masked share: T_ac xor T_tc |
| `ThreeParty.Exchange` | 认证协议仿真及对比/compare1_cheb.py:142-210 | each shared key from the secrets of both ends, each authenticator and the session key as the hash of those |
| `BigInt.Clz32` | ch32v307代码/ChebyShev_eth/applications/ChebyShev.c:40-49 | leading zeros: 2^(31−m) ≤ x < 2^(32−m), 32 for 0 |
| `BigInt.BigCmp` | ch32v307代码/ChebyShev_eth/applications/ChebyShev.c:53-59 | three-way order of the numbers |
| `BigInt.BigAdd` | ch32v307代码/ChebyShev_eth/applications/ChebyShev.c:62-70 | sum with carry, also in place |
| `BigInt.BigSub` | ch32v307代码/ChebyShev_eth/applications/ChebyShev.c:73-88 | difference with borrow, also in place |
| `BigInt.BigShr1` | ch32v307代码/ChebyShev_eth/applications/ChebyShev.c:91-98 | halving, also in place |
| `BigInt.BigMul` | ch32v307代码/ChebyShev_eth/applications/ChebyShev.c:101-114 | the full product |
| `BigInt.MulRow` | ch32v307代码/ChebyShev_eth/applications/ChebyShev.c:105-113 | one row adds a[i]·b·2^(32i), with no 64-bit overflow |
| `BigInt.SubShifted` | ch32v307代码/ChebyShev_eth/applications/ChebyShev.c:117-132 | in-place difference of 512-bit numbers |
| `BigInt.Shl512` | ch32v307代码/ChebyShev_eth/applications/ChebyShev.c:144-165 | the shift, what it drops, and 0 for word shifts outside 0..8 |
| `BigInt.TopBit` | ch32v307代码/ChebyShev_eth/applications/ChebyShev.c:171-178 | position of the top set bit |
| `BigInt.ModPass` | ch32v307代码/ChebyShev_eth/applications/ChebyShev.c:193-211 | a pass on limbs: up to 287 bits it keeps the remainder class and the bit-position bound and makes progress; from 288 on it changes nothing |
| `BigInt.ModStuck` | ch32v307代码/ChebyShev_eth/applications/ChebyShev.c:193-211 | beyond 287 bits any number of passes changes nothing |
| `BigInt.BigMod` | ch32v307代码/ChebyShev_eth/applications/ChebyShev.c:168-213 | a mod m, or the low half for m = 0 |
| `BigInt.EndsExact` | ch32v307代码/ChebyShev_eth/applications/ChebyShev.c:193-211 | the loop ends iff the dividend is at most 287 bits longer than the modulus |
| `Firmware.DotMod` | ch32v307代码/ChebyShev_eth/applications/ChebyShev.c:217-224 | (x·y + z·w) mod m, in 256 bits for m = 0, and the carry of the addition |
| `Firmware.MatrixMul` | ch32v307代码/ChebyShev_eth/applications/ChebyShev.c:216-249 | matrix product mod m |
| `Firmware.IsZero` | ch32v307代码/ChebyShev_eth/applications/ChebyShev.c:268-272 | zero test on limbs |
| `Firmware.IsOne` | ch32v307代码/ChebyShev_eth/applications/ChebyShev.c:297-300 | one test on limbs |
| `Firmware.MatrixPow` | ch32v307代码/ChebyShev_eth/applications/ChebyShev.c:252-279 | the k-fold matrix product mod m for every 256-bit k, the unreduced identity for k = 0 |
| `Firmware.DoubleMod` | ch32v307代码/ChebyShev_eth/applications/ChebyShev.c:308-316 | 2x plus the incoming carry, the modulus subtracted once in 256 bits |
| `Firmware.DoubledMeaning` | ch32v307代码/ChebyShev_eth/applications/ChebyShev.c:308-316 | that is 2x + c modulo p for x < p, congruent to it below 2^256 + p, and its low bits for p = 0 |
| `Firmware.ChebyshevUnit.ChebyshevTn` | ch32v307代码/ChebyShev_eth/applications/ChebyShev.c:283-352 | both results against the recurrence with the doubled x, for every n, p and x whose call ends, and the carry left behind |
| `Firmware.SoundInput` | ch32v307代码/ChebyShev_eth/applications/ChebyShev.c:308-333 | every x < p is such an x, and the recurrence is that of 2x + carry |
| `Firmware.CallEnds` | ch32v307代码/ChebyShev_eth/applications/ChebyShev.c:308-333 | the first square can be reduced iff the requires of ChebyshevTn holds |
| `Firmware.WideModulusEnds` | ch32v307代码/ChebyShev_eth/applications/ChebyShev.c:308-333 | with p ≥ 2^224 every call ends |
| `Firmware.UnreducedExact` | ch32v307代码/ChebyShev_eth/applications/ChebyShev.c:297-333 | every x: right for n = 1 iff x < p; ends iff the square is short; right for all n ≥ 2 iff 2x < 2^256 + p or p divides 2^256 |
| `Firmware.EndlessCall` | ch32v307代码/ChebyShev_eth/applications/ChebyShev.c:308-333 | a call that does not end |
| `Firmware.WrappedCall` | ch32v307代码/ChebyShev_eth/applications/ChebyShev.c:313-316 | a call that ends with a wrong value |
| `Firmware.ZeroModulus` | ch32v307代码/ChebyShev_eth/applications/ChebyShev.c:308-350 | for p = 0 the polynomial is evaluated in 256 bits |
| `Firmware.NoCarryLeft` | ch32v307代码/ChebyShev_eth/applications/ChebyShev.c:341-350 | moduli up to 2^255 leave no carry |
| `Firmware.StaleCarry` | ch32v307代码/ChebyShev_eth/applications/ChebyShev.c:308-312 | T_n(x) for every n and x iff the carry is 0 |
| `Firmware.CarryLeak` | ch32v307代码/ChebyShev_eth/applications/ChebyShev.c:345-350 | T_3(1) modulo 2^256−1 leaves a carry |
| `Firmware.RunCalls` | ch32v307代码/ChebyShev_eth/applications/ChebyShev.c:283-352 | every call of any sequence returns T_n and T_{n−1} mod p |
| `Firmware.ProductsAgree` | ch32v307代码/ChebyShev_eth/applications/protocol.c:139-208 | the two modular products agree without a hit or overflow, for every modulus and every product big_mod can reduce |
| `MulMod.RegisterExact` | ch32v307代码/ChebyShev_eth/applications/protocol.c:169-204 | without a hit or overflow the register holds the prefix mod m at every bit, for every modulus |
| `MulMod.InvariantExact` | ch32v307代码/ChebyShev_eth/applications/protocol.c:169-204 | it does so at every bit iff there is no hit and no overflow; up to 2^255 nothing overflows |
| `MulMod.ZeroModulus` | ch32v307代码/ChebyShev_eth/applications/protocol.c:169-204 | for m = 0 the prefix in 256 bits |
| `MulMod.RegisterAtHit` | ch32v307代码/ChebyShev_eth/applications/protocol.c:185-203 | at the first hit it holds the modulus |
| `MulMod.RegisterAfterHit` | ch32v307代码/ChebyShev_eth/applications/protocol.c:169-204 | after the first hit it holds m plus the bits that followed, or has overflowed below those bits |
| `MulMod.RegisterGrows` | ch32v307代码/ChebyShev_eth/applications/protocol.c:169-204 | the former, while nothing can overflow |
| `MulMod.ProductRight` | ch32v307代码/ChebyShev_eth/applications/protocol.c:169-207 | without a hit or overflow the result is the product mod m, for all operands and moduli |
| `MulMod.ProductExact` | ch32v307代码/ChebyShev_eth/applications/protocol.c:185-203 | right iff no prefix is a non-zero multiple of m, for every m < 2^255 and product below m² or m(2^255 − m) |
| `MulMod.ReducedProductExact` | ch32v307代码/ChebyShev_eth/applications/protocol.c:139-207 | the same for operands below m |
| `MulMod.EdgeModulus` | ch32v307代码/ChebyShev_eth/applications/protocol.c:170-203 | at m = 2^255, 2^128·2^128 hits and is right |
| `MulMod.UnreducedOperand` | ch32v307代码/ChebyShev_eth/applications/protocol.c:170-203 | modulo 1, 2·(2^256 − 1) hits and is right |
| `MulMod.ProductWrong` | ch32v307代码/ChebyShev_eth/applications/protocol.c:185-203 | 2·3 mod 6 comes out as 6 |
| `MulMod.BitOfLimb` | ch32v307代码/ChebyShev_eth/applications/protocol.c:178-181 | bit i of the number from word i / 32 |
| `MulMod.ShiftLeft1` | ch32v307代码/ChebyShev_eth/applications/protocol.c:170-182 | doubling in 256 bits, then the new bit |
| `MulMod.StrictlyAbove` | ch32v307代码/ChebyShev_eth/applications/protocol.c:185-194 | strict comparison, equality counted as not above |
| `MulMod.UintMulMod` | ch32v307代码/ChebyShev_eth/applications/protocol.c:139-208 | the limb loop is the division on numbers, for every modulus |
| `Fragmentation.HeaderRoundTrip` | ch32v307代码/ChebyShev_eth/applications/rtsp.c:110-132 | type 49, the F and layer bits kept, S and E bits, the original type in the low six bits, and the original header rebuilt |
| `Fragmentation.CutIsFragmentation` | RK3588代码/src/xop/H265Source.cpp:84-126 | parts in order, at most 1420 bytes, bodies concatenating to the rest |
| `Fragmentation.PacketsAreFragments` | RK3588代码/src/xop/H265Source.cpp:59-126 | a NAL unit of at most 1420 bytes is sent whole, a longer one as a proper fragmentation into packets of 1420 bytes and a last one |
| `Fragmentation.HandleFrame` | RK3588代码/src/xop/H265Source.cpp:50-130 | packets are offered in order up to the first refusal |
| `Fragmentation.AssemblePart` | ch32v307代码/ChebyShev_eth/applications/rtsp.c:119-153 | what one fragment of a unit adds |
| `Fragmentation.FeedUnit` | ch32v307代码/ChebyShev_eth/applications/rtsp.c:105-154 | between units, the first k fragments of a unit are held, all of them delivered once |
| `Fragmentation.FeedFragments` | ch32v307代码/ChebyShev_eth/applications/rtsp.c:105-154 | the fragments of a unit, in order, yield 00 00 00 01 and its bytes, once |
| `Fragmentation.LostFirst` | ch32v307代码/ChebyShev_eth/applications/rtsp.c:117-118 | without the first fragment the others are ignored |
| `Fragmentation.LostFragment` | ch32v307代码/ChebyShev_eth/applications/rtsp.c:105-154 | any one fragment lost: what is delivered and held; a damaged unit comes out iff it was in the middle and not empty |
| `Reassembly.Pool.constructor` | ch32v307代码/ChebyShev_eth/applications/rtsp.c:202-203 | no unit is open |
| `Reassembly.Pool.BufferGet` | ch32v307代码/ChebyShev_eth/applications/rtsp.c:70-89 | finds, claims or evicts; one slot per timestamp is kept |
| `Reassembly.Pool.Reserve` | ch32v307代码/ChebyShev_eth/applications/rtsp.c:59-68 | enough capacity by doubling, or a refused request and no change |
| `Reassembly.Pool.FuProcess` | ch32v307代码/ChebyShev_eth/applications/rtsp.c:105-154 | the step on the map of open units, under any allocator answers; no other stamp changes, but slot 0's when a ninth unit starts |
| `Reassembly.OthersKept` | ch32v307代码/ChebyShev_eth/applications/rtsp.c:70-89 | the same of the step, whatever fails |
| `Reassembly.Pool.Append` | ch32v307代码/ChebyShev_eth/applications/rtsp.c:137-153 | the fragment's bytes and the finished unit, or what a refused allocation leaves |
| `Reassembly.FeedInTurn` | ch32v307代码/ChebyShev_eth/applications/rtsp.c:105-154 | units one after the other under one timestamp are all delivered |
| `Reassembly.PayloadInTurn` | ch32v307代码/ChebyShev_eth/applications/rtsp.c:117-153 | at every fragment: S finds nothing open, and a unit stays open exactly until E |
| `Reassembly.Locality` | ch32v307代码/ChebyShev_eth/applications/rtsp.c:117-153 | each timestamp depends only on its own payloads, whatever they are |
| `Reassembly.InterleavedUnits` | ch32v307代码/ChebyShev_eth/applications/rtsp.c:105-154 | every interleaved unit is delivered exactly once, intact and in order, none left open |
| `Reassembly.OpenIsInProgress` | ch32v307代码/ChebyShev_eth/applications/rtsp.c:70-89 | at every prefix, the open slots are exactly the units begun and not complete |
| `Reassembly.NoEviction` | ch32v307代码/ChebyShev_eth/applications/rtsp.c:85-88 | with at most eight units in progress nothing is evicted |
| `Reassembly.Drain` | ch32v307代码/ChebyShev_eth/applications/rtsp.c:205-254 | the pool's output over a whole trace is the map's |
| `Reassembly.Receive` | ch32v307代码/ChebyShev_eth/applications/rtsp.c:205-254 | through the pool: every unit exactly once and intact |
| `Reassembly.OnPayload` | ch32v307代码/ChebyShev_eth/applications/rtsp.c:226-254 | empty, single and fragment payloads, the eviction for a ninth unit included |
| `Reassembly.LonePacket` | ch32v307代码/ChebyShev_eth/applications/rtsp.c:233-238 | a whole unit of type 49 never comes out as itself |
| `Reassembly.SendAndReceive` | RK3588代码/src/xop/H265Source.cpp:50-130 | sender to receiver: identity for long units, iff type ≠ 49 for short ones |
| `Reassembly.SendUnit` | RK3588代码/src/xop/H265Source.cpp:50-130 | one unit through a pool in any valid state arrives once and intact |
| `Reassembly.SendAll` | ch32v307代码/ChebyShev_eth/applications/rtsp.c:205-254 | any list of units through one pool in any valid state, short ones included, arrives in order |
| `Ladders.Multiply` | 认证协议仿真及对比/compare_3_SM9.py:580-586 | binary expansion is n-fold addition |
| `Ladders.WindowTable` | 认证协议仿真及对比/compare_3_SM9.py:593-595 | the odd multiples below 32 |
| `Ladders.Window` | 认证协议仿真及对比/compare_3_SM9.py:606-608 | the longest window ending in 1 |
| `Ladders.SlidingWindow` | 认证协议仿真及对比/compare_3_SM9.py:588-612 | n-fold addition in any group, for every n ≥ 0 |
| `Ladders.AddSubPow` | 认证协议仿真及对比/compare_3_SM9.py:480-494 | the k-th power in any group for k > 0, the base for k = 0: right iff k > 0 or the base is the identity |
| `Comb.GetCombList` | 认证协议仿真及对比/compare_3_SM9.py:762-769 | entry a is the base to the bits of a spread 32 apart |
| `Comb.CombDigit` | 认证协议仿真及对比/compare_3_SM9.py:774-776 | every 32nd digit, gathered |
| `Comb.WordsStep` | 认证协议仿真及对比/compare_3_SM9.py:775-777 | doubling and adding a gathered digit brings one more bit of all eight words |
| `Comb.CombPow` | 认证协议仿真及对比/compare_3_SM9.py:773-778 | the r-th power for every r < 2^256 |
| `Comb.FixedBasePow` | 认证协议仿真及对比/compare_3_SM9.py:762-778 | table and loop together, for any base of any group |
| `Zuc.RotationParts` | ch32v307代码/ChebyShev_eth/applications/zuc256.c:76-79 | the joined parts share no bit |
| `Zuc.AddCells` | ch32v307代码/ChebyShev_eth/applications/zuc256.c:68-74 | a cell again, congruent to the sum modulo 2^31−1 |
| `Zuc.MulCell` | ch32v307代码/ChebyShev_eth/applications/zuc256.c:76-79 | a cell again, congruent to 2^n times the cell |
| `ZucWords.L1Bits` | ch32v307代码/ChebyShev_eth/applications/zuc256.c:81-84 | bit i of L1 is the sum of bits i, i−2, i−10, i−18 and i−24 of the word |
| `ZucWords.L2Bits` | ch32v307代码/ChebyShev_eth/applications/zuc256.c:86-89 | bit i of L2 is the sum of bits i, i−8, i−14, i−22 and i−30 |
| `ZucWords.SubstituteBytes` | ch32v307代码/ChebyShev_eth/applications/zuc256.c:91-98 | each byte is its table's image of the byte at its place |
| `ZucWords.MixIs` | ch32v307代码/ChebyShev_eth/applications/zuc256.c:114-129 | the word and the new registers of F, through those |
| `Zuc.Reorganised` | ch32v307代码/ChebyShev_eth/applications/zuc256.c:105-112 | the four words as arithmetic on the cells |
| `Zuc.NewCellSpec` | ch32v307代码/ChebyShev_eth/applications/zuc256.c:145-156 | the new cell is congruent to the tap sum |
| `Zuc.TapSum` | ch32v307代码/ChebyShev_eth/applications/zuc256.c:145-156 | the same with the sum written out |
| `Zuc.StepIs` | ch32v307代码/ChebyShev_eth/applications/zuc256.c:239-247 | a working step: output word, registers and cells, without the functions that compute them |
| `Zuc.WarmStepIs` | ch32v307代码/ChebyShev_eth/applications/zuc256.c:209-216 | a feedback step of initialisation likewise |
| `Zuc.WarmCell` | ch32v307代码/ChebyShev_eth/applications/zuc256.c:131-143 | ... plus u during initialisation |
| `Zuc.WorkCell` | ch32v307代码/ChebyShev_eth/applications/zuc256.c:145-156 | a working step keeps all cells in range |
| `Zuc.LoadedCells16` | ch32v307代码/ChebyShev_eth/applications/zuc256.c:160-180 | every loaded cell is in 1..2^31−1, for a 16-byte IV |
| `Zuc.LoadedCells25` | ch32v307代码/ChebyShev_eth/applications/zuc256.c:181-204 | every loaded cell is in 1..2^31−1, for a 25-byte IV |
| `Zuc.Placed16` | ch32v307代码/ChebyShev_eth/applications/zuc256.c:160-180 | which key byte, constant and IV byte each field of each cell holds, for a 16-byte IV |
| `Zuc.Placed25` | ch32v307代码/ChebyShev_eth/applications/zuc256.c:181-204 | the same for a 25-byte IV |
| `Zuc.EveryRun` | ch32v307代码/ChebyShev_eth/applications/zuc256.c:158-247 | for every key, IV and number of words: 32 feedback steps, the discarded step and every later one are those of the standard, all cells in range |
| `Zuc.KeyBytes` | ch32v307代码/ChebyShev_eth/applications/zuc256.c:271-276 | the bytes of a keystream word, most significant first |
| `Zuc.CryptTwice` | ch32v307代码/ChebyShev_eth/applications/zuc256.c:266-288 | encryption from the same state undoes itself |
| `Zuc.CryptSplit` | ch32v307代码/ChebyShev_eth/applications/zuc256.c:266-283 | cutting at multiples of four changes nothing |
| `Zuc.InitCipher` | ch32v307代码/ChebyShev_eth/applications/zuc256.c:226-237 | a context exactly for IV lengths 16 and 25 |
| `Zuc.Zuc256.constructor` | ch32v307代码/ChebyShev_eth/applications/zuc256.c:158-224 | the initial state |
| `Zuc.Zuc256.WarmUp` | ch32v307代码/ChebyShev_eth/applications/zuc256.c:209-216 | 32 feedback steps |
| `Zuc.Zuc256.LfsrInit` | ch32v307代码/ChebyShev_eth/applications/zuc256.c:131-143 | the register shifted with feedback |
| `Zuc.Zuc256.LfsrWork` | ch32v307代码/ChebyShev_eth/applications/zuc256.c:145-156 | the register shifted |
| `Zuc.Zuc256.KeystreamWord` | ch32v307代码/ChebyShev_eth/applications/zuc256.c:239-247 | one word and the next state: a working step of the standard |
| `Zuc.Zuc256.CryptRange` | ch32v307代码/ChebyShev_eth/applications/zuc256.c:266-288 | a range of a buffer enciphered, also in place, the rest untouched |
| `RtpCipher.SkipLeft` | ch32v307代码/ChebyShev_eth/applications/rtsp_rtp_client.c:249-259 | the static skip counter over a unit's fragments |
| `RtpCipher.UnitStep` | ch32v307代码/ChebyShev_eth/applications/rtsp_rtp_client.c:237-269 | one fragment with the counter the earlier ones left: which bytes are clear, and the counter after it |
| `RtpCipher.ForwardUnit` | ch32v307代码/ChebyShev_eth/applications/rtsp_rtp_client.c:189-281 | the client's packets: however a unit is fragmented, exactly its first 64 body bytes leave in clear |
| `RtpCipher.CipheredTwice` | ch32v307代码/ChebyShev_eth/applications/rtsp_rtp_client.c:213-221 | undone by itself when the IV lies in the clear prefix |
| `RtpCipher.HeaderParts` | ch32v307代码/ChebyShev_eth/applications/rtsp_rtp_client.c:171-185 | header length from CSRC count and extension |
| `RtpCipher.SinglePacket` | ch32v307代码/ChebyShev_eth/applications/rtsp_rtp_client.c:189-221 | types 19, 20 and 21 with more than 66 payload bytes: every byte after 66 under its keystream byte, the rest unchanged; other packets unchanged |
| `RtpCipher.ReceivedPacket` | ch32v307代码/ChebyShev_eth/applications/rtp_udp_receiver.c:62-96 | bytes 78 on deciphered, shorter packets unchanged |
| `RtpCipher.IntraRestored` | ch32v307代码/ChebyShev_eth/applications/rtp_udp_receiver.c:62-96 | every plain packet of types 19, 20 and 21 comes back |
| `RtpCipher.RoundTripExact` | ch32v307代码/ChebyShev_eth/applications/rtp_udp_receiver.c:62-96 | receiver after client is the identity iff I-frame, short, or silent keystream |
| `RtpCipher.ClearPacketDamaged` | ch32v307代码/ChebyShev_eth/applications/rtp_udp_receiver.c:72-81 | where encryption changes an I-frame packet, its clear counterpart is damaged |
| `RtpCipher.CipherInPlace` | ch32v307代码/ChebyShev_eth/applications/rtsp_rtp_client.c:216-221 | the tail of the buffer enciphered, the rest untouched |
| `RtpCipher.Client.ProcessRtpPacket` | ch32v307代码/ChebyShev_eth/applications/rtsp_rtp_client.c:189-281 | single units byte by byte, fragments with the skip counter, and what is left alone |
| `RtpCipher.Client.ProcessFragment` | ch32v307代码/ChebyShev_eth/applications/rtsp_rtp_client.c:237-269 | the fragment and the skip counter after it |
| `RtpCipher.DecryptRtpPacket` | ch32v307代码/ChebyShev_eth/applications/rtp_udp_receiver.c:62-107 | bytes 78 on of every long packet, whatever its type |
| `Sm3.Padded` | ch32v307代码/ChebyShev_eth/applications/SM3.c:251-264 | the standard's padding is a multiple of 64 bytes and extends the message |
| `Sm3.PaddedIsStandard` | ch32v307代码/ChebyShev_eth/applications/SM3.c:251-264 | byte by byte: the message, 0x80, the fewest zeros, the bit length in eight bytes |
| `Sm3.FoldBlock` | ch32v307代码/ChebyShev_eth/applications/SM3.c:182-194 | one more block is one more compression |
| `Sm3.PadLength` | ch32v307代码/ChebyShev_eth/applications/SM3.c:259-260 | the padding length of the code is the standard's |
| `Sm3.JoinHalves` | ch32v307代码/ChebyShev_eth/applications/SM3.c:252-257 | the two halves are the 64-bit length |
| `Sm3.Context.constructor` | ch32v307代码/ChebyShev_eth/applications/SM3.c:200-211 | nothing absorbed, the standard's initial value |
| `Sm3.Context.UpdateByte` | ch32v307代码/ChebyShev_eth/applications/SM3.c:220-231 | one byte absorbed, the buffer never left full |
| `Sm3.Context.CompressFull` | ch32v307代码/ChebyShev_eth/applications/SM3.c:225-230 | a full buffer moves into the state |
| `Sm3.Context.Update` | ch32v307代码/ChebyShev_eth/applications/SM3.c:219-232 | the input appended to the message |
| `Sm3.Context.Trailer` | ch32v307代码/ChebyShev_eth/applications/SM3.c:251-260 | padding and length from the counters |
| `Sm3.DigestBytes` | ch32v307代码/ChebyShev_eth/applications/SM3.c:266-274 | the words in order, each most significant byte first |
| `Sm3.Context.Done` | ch32v307代码/ChebyShev_eth/applications/SM3.c:246-275 | 32 bytes, the words of the fold over the padded message in order |
| `Sm3.JoinInOrder` | ch32v307代码/ChebyShev_eth/applications/SM3.c:219-232 | the chunks follow one another |
| `Sm3.HashChunks` | ch32v307代码/ChebyShev_eth/applications/SM3.c:283-288 | every chunking gives the same digest |
| `TimerQueue.Timer.constructor` | RK3588代码/src/net/Timer.h:26-33 | interval 0 is raised to 1 |
| `TimerQueue.Timer.SetNextTimeout` | RK3588代码/src/net/Timer.h:74-77 | the next timeout |
| `TimerQueue.Queue.AddTimer` | RK3588代码/src/net/Timer.cpp:8-20 | the new entry and event, and exactly when maps in step stay so |
| `TimerQueue.Queue.RemoveTimer` | RK3588代码/src/net/Timer.cpp:22-32 | the timer and its event are gone |
| `TimerQueue.Queue.GetTimeRemaining` | RK3588代码/src/net/Timer.cpp:40-54 | time to the first event, which for maps in step is the earliest timeout; 0 if passed, −1 without timers |
| `TimerQueue.Queue.HandleTimerEvent` | RK3588代码/src/net/Timer.cpp:56-77 | from every reachable state: ends, fires due events in order, each at most once, all unless the last timer goes; for maps in step exactly the due timers, rescheduled or removed |
| `TimerQueue.Queue.Fire` | RK3588代码/src/net/Timer.cpp:63-74 | one pass of the loop, also for an event whose timer is gone |
| `TimerQueue.ProgressStep` | RK3588代码/src/net/Timer.cpp:61-75 | the first due event has not fired yet, and firing it makes progress |
| `TimerQueue.KeyedAfter` | RK3588代码/src/net/Timer.cpp:61-75 | with one event per timer, firing the due events reschedules or removes exactly the due timers |
| `TimerQueue.RunOps` | RK3588代码/src/net/Timer.cpp:8-77 | every run keeps an event per live timer; with non-zero intervals the maps stay in step |
| `TimerQueue.StaleEvent` | RK3588代码/src/net/Timer.cpp:15-71 | interval 0, then removal: the event stays, its callback is called, and again as long as it answers true |
| `AnnexB.StartBytes` | 视频加密仿真代码/dec_error.py:232-233 | what a start code is, byte by byte |
| `AnnexB.FindStartCodes` | 视频加密仿真代码/dec_error.py:235-248 | the scan: codes in order and apart, none missed at a scanned position, none beyond |
| `AnnexB.Partition` | 视频加密仿真代码/dec_error.py:255-259 | the units between codes concatenate to the data |
| `AnnexB.SplitAnnexB` | 视频加密仿真代码/dec_error.py:250-263 | the units of at least two bytes, or no result without codes |
| `AnnexB.JoinSplit` | 视频加密仿真代码/dec_error.py:250-266 | join after split is the data from the first code on iff no unit is shorter than two bytes |
| `AnnexB.ChosenIs` | 视频加密仿真代码/dec_error.py:301-316 | types 19, 20 and 21 with more than skip bytes after the header |
| `AnnexB.FeatureIs` | 视频加密仿真代码/dec_error.py:283-287 | the first 32 bytes after the header, zeros for missing ones |
| `AnnexB.PassBytes` | 视频加密仿真代码/dec_error.py:294-337 | each unit byte by byte, under the keystream of its feature and of the number of enciphered units before it |
| `AnnexB.XorIOnly` | 视频加密仿真代码/dec_error.py:294-337 | the loop is the pass over the list, and that |
| `AnnexB.CipherTwice` | 视频加密仿真代码/dec_error.py:314-335 | the second pass selects the unit and derives the keystream again |
| `AnnexB.PassTwice` | 视频加密仿真代码/dec_error.py:294-337 | two passes are the identity for skip ≥ 32 |
| `AnnexB.SkipExact` | 视频加密仿真代码/dec_error.py:317-327 | ... and for every keystream and list only then |
| `AnnexB.Resplit` | 视频加密仿真代码/dec_error.py:235-266 | a written list splits into itself iff no start code begins inside a unit |
| `AnnexB.SecondSplitExact` | 视频加密仿真代码/dec_error.py:294-337 | the second run splits at the same places iff that holds of the encrypted list |
| `AnnexB.CodeWritten` | 视频加密仿真代码/dec_error.py:330-337 | a keystream that writes a start code |
| `AnnexB.XorFile` | 视频加密仿真代码/dec_error.py:294-337 | split, pass and join, or no result without start codes |
| `AnnexB.EncryptDecrypt` | 视频加密仿真代码/dec_error.py:294-337 | two runs on a file return its data from the first start code on, when the encrypted list is clean and no unit is short |
| `Sm4.RoundUndone` | 认证协议仿真及对比/compare_3_SM9.py:1081-1084 | a round between reversals undoes itself |
| `Sm4.ReversedKeysUndo` | 认证协议仿真及对比/compare_3_SM9.py:1079-1085 | reversed keys undo the transform, for any T and key list |
| `Sm4.TransformWords` | 认证协议仿真及对比/compare_3_SM9.py:1079-1085 | the standard's recurrence over words and round keys, its last four words reversed |
| `Sm4.OneRound` | 认证协议仿真及对比/compare_3_SM9.py:1079-1085 | the in-place block transform, by that recurrence |
| `Sm4.XorWords` | 认证协议仿真及对比/compare_3_SM9.py:1100-1113 | blocks are combined word by word |
| `Sm4.CbcEncrypt` | 认证协议仿真及对比/compare_3_SM9.py:1100-1104 | each block is the transform of the plaintext combined with the block before it, in place |
| `Sm4.CbcRoundTrip` | 认证协议仿真及对比/compare_3_SM9.py:1100-1122 | CBC decryption undoes CBC encryption |
| `Sm4.CbcDecBlock` | 认证协议仿真及对比/compare_3_SM9.py:1107-1113 | each plaintext block from two ciphertext blocks |
| `Sm4.CbcDecryptSequential` | 认证协议仿真及对比/compare_3_SM9.py:1116-1122 | the sequential loop |
| `Sm4.CbcDecryptParallel` | 认证协议仿真及对比/compare_3_SM9.py:1107-1113 | the parallel loop in any order gives the same result |

## Left out

- MulMod.ProductExact: products above both m² and m(2^255 − m), and moduli from 2^255 on, are outside the equivalence for the final result, where errors can cancel (MulMod.EdgeModulus, MulMod.UnreducedOperand); MulMod.ProductRight gives one direction there, MulMod.InvariantExact the equivalence for the register at every bit.
- Sm3.Context.Done: nothing is stated for messages of 2^64 bits or more, which the standard excludes.
- Firmware.ChebyshevUnit.ChebyshevTn: a doubled x whose square big_mod can reduce is required for n ≥ 2; the call does not end otherwise (Firmware.CallEnds).
- Comb.CombPow: exponents of 2^256 or more are outside; the script then reads only the leading 256 digits.
- RtpCipher.Client.ProcessRtpPacket: a fragment that is enciphered must leave room for its 16 IV bytes in the buffer; the code would read past it.
- The S-boxes of ZUC-256: arbitrary tables, with no cryptographic property stated.
- Prime generation, Miller-Rabin and the random source: primality and coprimality are hypotheses.
- The Jacobian point formulas, the FQ4 and FQ12 towers, the pairing and its final exponentiation: the ladders are proved over any group instead.
- get_kP_list and fast_kG, whose table rows advance by 128 against byte digits.
- Deciphering of fragments: client and receiver use different offsets and IV bytes there.
- Sockets, RTSP and SDP text, JSON files, threads and locks, drivers, logging and timing statistics.
- The H264, VP8, AAC and G711 packetisers, RingBuffer, MD5, and the plotting and simulation scripts: easier or repeated members.
