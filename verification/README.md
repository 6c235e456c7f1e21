# Verified models of klee-deps benchmarks and tools

This project models the algorithmic core of a repository of side-channel benchmarks and the tools around them, and
proves that each fast, in-place or rewritten form agrees with a short mathematical definition.

Checking everything: `dafny verify dfyconfig.toml`.

## What is modelled

* **Multi-limb modular exponentiation** (`Limbs`, `Mpi`, `MpiArith`, `MpiAdd`, `DivLemmas`, `MpiDiv`, `Congruence`,
  `Montgomery`, `ExpMod`). The bignum library as sliced: class `Mpi` with a sign and a growable buffer of 32-bit limbs,
  every routine in its imperative form, up to X = A^E mod N. The slice's own losses are kept and characterised: `cmp_int`
  leaves a sign field unset (sound exactly for z = 0), `add_abs` no longer copies A, `core_mla` drops its carry-out, and a
  negative base with a zero residue leaves N instead of 0.
* **Branch-free TLS record processing** (`ConstantTime`, `Hashing`, `Md32`, `CbcDigest`, `CopyMac`, `RemovePadding`,
  `TlsRecord`). Mask primitives on 32-bit words written out bit by bit, the constant-time digest for TLS and SSLv3, MAC
  extraction in both variants, padding removal and the streaming collector. The compression function is any function of
  chaining words and block. Findings: SSLv3 scans one block too few for a record of exactly 204 bytes (header included)
  without padding, and its inner hash stays zero (a finding about the arguments the function accepts: with the 20-byte
  secret of SHA-1 such a record would have 133 bytes, and no cipher with blocks of 8 or 16 bytes yields that); an odd MAC
  size above 1 comes out rotated, since the "multiple of md_size" is then none.
* **The LoopLimiter pass** (`Cfg`, `LoopShape`, `LoopPass`, `LoopSim`, `LoopRuns`, `LoopExample`). A control-flow-graph
  language with PHIs, the worklist that rewrites it in place in split and break mode, and a lock-step simulation against
  the original program. Finding: the pass counts executed latches, on i32. That is the number of back-edges exactly as
  long as no latch goes on inside its loop; loop-simplify form does not rule that out, so a loop can be cut after fewer
  back-edges than the limit (`LoopExample.LatchesCountTwice`).
* **Algorithms with a non-trivial invariant** (`RadixSort`, `Loki`, `DesTables`, `DesKeys`, `Des`, `DesStandard`,
  `DesPrograms`, `Twofish`, `TwofishStandard`, `Normalize`). Both DES programs are proved to be DES as FIPS 46-3 defines
  it, and the Twofish rounds to be those of the published cipher.
* **The worker lifecycle event loop** (`Workers`). Finding: a worker whose command is still running when it is
  force-finalized is always recorded with return code 0, the code of its finished copy, and not with 130 or 1
  (`Workers.RunningForcedToZero`).

## Where code and documentation disagree

* `loop-limiter/README.md:39-43` describes an after-loop target chosen among exit blocks and post-dominators for break
  mode; the code only widens the header's own exit branch (`loop-limiter/LoopLimiter.cpp:143-203`). The model follows
  the code.
* The sketch in `loop-limiter/README.md:9-18` checks the bound after the loop condition; the code checks it first, at
  the header (`loop-limiter/LoopLimiter.cpp:213-219`), so a loop of exactly max-iterations rounds is cut too
  (`LoopExample.CutBeforeTest`).
* `loop-limiter/README.md:30` says increments sit right before the back-edge; they sit before the terminator of each
  latch, which may also leave the loop.
* `benchmarks/openssl_almeida/ssl3_cbc_copy_mac.c:97-107` calls the spoiler a multiple of md_size; it is one exactly
  for even sizes and 1.

## Model

| member | source | states |
|---|---|---|
| `MpiCore.Mpi.Grow` | benchmarks/mbedtls-3.2.1/bignum_sliced.c:105-130 | grow: more than 10000 limbs is refused; otherwise the number keeps its value and gains zero limbs, never loses one |
| `MpiCore.Mpi.SubHlp` | benchmarks/mbedtls-3.2.1/bignum_sliced.c:446-463 | the limb-by-limb subtraction writes exactly the difference of the two windows and returns its borrow, also when it works in place |
| `Limbs.SubLimbsVal` | benchmarks/mbedtls-3.2.1/bignum_sliced.c:446-463 | that difference, read as a number, is l - r - c with the borrow owed to the next limb |
| `Limbs.SubLimbsBorrow` | benchmarks/mbedtls-3.2.1/bignum_sliced.c:446-463 | the borrow is set exactly when the subtrahend is larger |
| `MpiCore.Mpi.CoreMla` | benchmarks/mbedtls-3.2.1/bignum_sliced.c:569-744 | the 8x-unrolled loop, its remainder loop and the carry loop together add S * b into the window, the carry out of the window being dropped |
| `Limbs.MulAddCarry` | benchmarks/mbedtls-3.2.1/bignum_sliced.c:569-744 | the accumulated window is d + s * b modulo the size of the window, the dropped carry named |
| `Limbs.MulAddExact` | benchmarks/mbedtls-3.2.1/bignum_sliced.c:569-744 | nothing is dropped when the sum fits the window |
| `MpiArith.Copy` | benchmarks/mbedtls-3.2.1/bignum_sliced.c:132-167 | copy: value and sign of Y, truncated buffer rules, and exactly when the allocation limit makes it fail |
| `MpiArith.Lset` | benchmarks/mbedtls-3.2.1/bignum_sliced.c:169-180 | lset: the integer z with its sign, all higher limbs zero |
| `MpiArith.Clz` | benchmarks/mbedtls-3.2.1/bignum_sliced.c:182-194 | the scan over bits counts the leading zeros |
| `MpiArith.Bitlen` | benchmarks/mbedtls-3.2.1/bignum_sliced.c:196-215 | bitlen is the position of the highest set bit of the whole number |
| `MpiArith.ShiftL` | benchmarks/mbedtls-3.2.1/bignum_sliced.c:217-260 | shift_l multiplies by 2^count, growing exactly when the bits do not fit |
| `MpiArith.ShiftR` | benchmarks/mbedtls-3.2.1/bignum_sliced.c:262-304 | shift_r divides by 2^count, rounding down, and yields zero when everything is shifted out |
| `MpiArith.CmpAbs` | benchmarks/mbedtls-3.2.1/bignum_sliced.c:306-328 | cmp_abs is the sign of the difference of the absolute values |
| `MpiArith.CmpMpi` | benchmarks/mbedtls-3.2.1/bignum_sliced.c:330-381 | cmp_mpi is the sign of the difference, and the answers it gives for an unsigned zero operand |
| `MpiArith.CmpInt` | benchmarks/mbedtls-3.2.1/bignum_sliced.c:383-393 | cmp_int with the sign field of its local operand left unset: what it returns for either content of that field |
| `MpiArith.CmpIntSoundOnlyForZero` | benchmarks/mbedtls-3.2.1/bignum_sliced.c:383-393 | the unset field does not matter exactly when z is 0 |
| `MpiAdd.AddAbs` | benchmarks/mbedtls-3.2.1/bignum_sliced.c:395-444 | add_abs as sliced: X + B with full carry propagation, so A is used only when X aliases an operand |
| `MpiAdd.SubAbs` | benchmarks/mbedtls-3.2.1/bignum_sliced.c:465-509 | sub_abs: the difference of the absolute values, the error exactly when it would be negative |
| `MpiAdd.AddMpi` | benchmarks/mbedtls-3.2.1/bignum_sliced.c:511-538 | add_mpi: the signed sum under the aliasing the slice needs, and the sign it leaves |
| `MpiAdd.SubMpi` | benchmarks/mbedtls-3.2.1/bignum_sliced.c:540-567 | sub_mpi: the signed difference under the aliasing the slice needs |
| `MpiAdd.MulInt` | benchmarks/mbedtls-3.2.1/bignum_sliced.c:746-778 | mul_int: the product with a limb, in place or not, the buffer one limb longer than A |
| `MpiDiv.IntDivInt` | benchmarks/mbedtls-3.2.1/bignum_sliced.c:780-802 | two limbs by one: the quotient, or all ones when it does not fit |
| `DivLemmas.FirstEstimate` | benchmarks/mbedtls-3.2.1/bignum_sliced.c:885-909 | the two-by-one estimate is never below a digit that passes the three-by-two test |
| `DivLemmas.TrueDigitPasses` | benchmarks/mbedtls-3.2.1/bignum_sliced.c:894-909 | the true quotient digit passes the three-by-two test, so the decrement loop stops at or above it |
| `DivLemmas.PassingDigitClose` | benchmarks/mbedtls-3.2.1/bignum_sliced.c:894-932 | a digit that passes the test is at most one too large, so one add-back is enough |
| `MpiDiv.SettleDigit` | benchmarks/mbedtls-3.2.1/bignum_sliced.c:885-909 | the decrement loop terminates with a digit that is at least the true one and passes the test |
| `MpiDiv.LeadingDigit` | benchmarks/mbedtls-3.2.1/bignum_sliced.c:865-878 | with a 31-bit top limb the first loop subtracts at most three times and leaves the remainder |
| `MpiDiv.DivisionStep` | benchmarks/mbedtls-3.2.1/bignum_sliced.c:882-935 | one pass of the main loop: X becomes X mod Y * 2^(32 (i - t - 1)) |
| `MpiDiv.DivisionLoop` | benchmarks/mbedtls-3.2.1/bignum_sliced.c:881-936 | the main loop: from X < Y * 2^(32 (n - t)) to X mod Y |
| `MpiDiv.DivMpi` | benchmarks/mbedtls-3.2.1/bignum_sliced.c:804-953 | div_mpi: the absolute value of R is that of A modulo that of B, with the sign of A, division by zero reported exactly when B is zero, and sizes for which it cannot fail |
| `MpiDiv.ModMpi` | benchmarks/mbedtls-3.2.1/bignum_sliced.c:955-985 | mod_mpi: the residue in [0, B) for either sign of A, both errors exactly when they apply |
| `Montgomery.MontgInit` | benchmarks/mbedtls-3.2.1/bignum_sliced.c:987-1001 | the Newton iteration yields -1/N[0] modulo 2^32 for every odd low limb |
| `Montgomery.CondAssign` | benchmarks/mbedtls-3.2.1/bignum_sliced.c:1003-1006 | the assumed contract of the external conditional assignment: all limbs or none |
| `Montgomery.RunningBound` | benchmarks/mbedtls-3.2.1/bignum_sliced.c:1008-1047 | the running value stays below N + B |
| `Montgomery.RoundFits` | benchmarks/mbedtls-3.2.1/bignum_sliced.c:1023-1034 | no carry leaves the window of n + 2 limbs |
| `Montgomery.MontRound` | benchmarks/mbedtls-3.2.1/bignum_sliced.c:1023-1037 | one round clears the low limb and keeps t * 2^(32 i) = a * B + u * N |
| `Montgomery.MontFinish` | benchmarks/mbedtls-3.2.1/bignum_sliced.c:1039-1047 | the final subtraction without a branch: the value reduced below N |
| `Montgomery.Montmul` | benchmarks/mbedtls-3.2.1/bignum_sliced.c:1008-1047 | montmul: A * B / 2^(32 n) modulo N, below N, also when A aliases B |
| `Montgomery.Montred` | benchmarks/mbedtls-3.2.1/bignum_sliced.c:1049-1059 | montred: A / 2^(32 n) modulo N |
| `ExpMod.SafeCondAssign` | benchmarks/mbedtls-3.2.1/bignum_sliced.c:30-32 | the assumed contract of the external safe_cond_assign |
| `ExpMod.Select` | benchmarks/mbedtls-3.2.1/bignum_sliced.c:1061-1079 | select copies the table entry with the given index, sign included; the buffer grows to that of every entry it goes through |
| `ExpMod.BuildTable` | benchmarks/mbedtls-3.2.1/bignum_sliced.c:1185-1208 | the window table holds base^i in Montgomery form at index 1 and at every index in [2^(wsize-1), 2^wsize) |
| `ExpMod.WindowBit` | benchmarks/mbedtls-3.2.1/bignum_sliced.c:1229-1233 | what one more bit does to the window: a pending prefix that starts with a one bit, left-aligned in wbits |
| `ExpMod.AbsorbWindow` | benchmarks/mbedtls-3.2.1/bignum_sliced.c:1233-1246 | a full window multiplies the exponent consumed so far by 2^wsize and adds the window, looked up only at initialised indices |
| `ExpMod.ScanBit` | benchmarks/mbedtls-3.2.1/bignum_sliced.c:1220-1249 | one bit of the exponent: X stays base^(consumed prefix without the pending window) |
| `ExpMod.ScanExponent` | benchmarks/mbedtls-3.2.1/bignum_sliced.c:1209-1249 | the whole scan: X is base^pre with E = pre * 2^nbits + the pending bits |
| `ExpMod.ConsumedAll` | benchmarks/mbedtls-3.2.1/bignum_sliced.c:1209-1222 | the bits the scan has consumed at its end are all of E |
| `ExpMod.AbsorbPending` | benchmarks/mbedtls-3.2.1/bignum_sliced.c:1250-1262 | the trailing loop absorbs exactly the pending bits |
| `ExpMod.ExpModOdd` | benchmarks/mbedtls-3.2.1/bignum_sliced.c:1110-1281 | for odd N > 0 and E >= 0: window choice, setup, table, scan and reduction leave the stated result, and sizes for which nothing fails |
| `ExpMod.ExpMod` | benchmarks/mbedtls-3.2.1/bignum_sliced.c:1081-1281 | exp_mod end to end: bad input reported exactly for N <= 0, N even or E < 0; otherwise X is the result below, for any A, also when X aliases A |
| `ExpMod.ExpModCongruent` | benchmarks/mbedtls-3.2.1/bignum_sliced.c:1262-1269 | the result lies in [0, N] and is congruent to A^E modulo N |
| `ExpMod.ExpModExactWhen` | benchmarks/mbedtls-3.2.1/bignum_sliced.c:1262-1268 | it is A^E mod N exactly when A is not negative, or E is even, or the residue of abs(A)^E is not zero |
| `ExpMod.ExpModExactInputs` | benchmarks/mbedtls-3.2.1/bignum_sliced.c:1262-1268 | in terms of the inputs: unless A is negative, E odd, and dividing N by its greatest common divisor with A, E times over, leaves 1 |
| `Congruence.PowResidue` | benchmarks/mbedtls-3.2.1/bignum_sliced.c:1262-1268 | that division leaves 1 exactly when A^E has residue zero modulo N |
| `ExpMod.ExpModExactCoprime` | benchmarks/mbedtls-3.2.1/bignum_sliced.c:1262-1268 | so it is A^E mod N for every sign and exponent if A is invertible modulo N > 1 |
| `ExpMod.ExpModExactPrime` | benchmarks/mbedtls-3.2.1/bignum_sliced.c:1262-1268 | and for N prime or 1 exactly unless A is a negative multiple of N and E is odd |
| `Congruence.PrimeResidue` | benchmarks/mbedtls-3.2.1/bignum_sliced.c:1262-1268 | a power has residue zero modulo a prime exactly when its base has |
| `ExpMod.ExpModZeroResidue` | benchmarks/mbedtls-3.2.1/bignum_sliced.c:1262-1268 | the smallest failing case: (-1)^1 mod 1 comes out as 1 |
| `ConstantTime.BitLaws` | benchmarks/openssl_almeida/constant_time_locl.h:133-156 | the operators &, | and ^ written out on numbers act bit by bit |
| `ConstantTime.LtMask` | benchmarks/openssl_almeida/constant_time_locl.h:138-141 | constant_time_lt is all ones exactly when a < b, for all pairs of words |
| `ConstantTime.GeMask` | benchmarks/openssl_almeida/constant_time_locl.h:148-156 | constant_time_ge and its 8-bit form are the masks of a >= b |
| `ConstantTime.IsZeroMask` | benchmarks/openssl_almeida/constant_time_locl.h:158-161 | constant_time_is_zero is the mask of a == 0 |
| `ConstantTime.EqMask` | benchmarks/openssl_almeida/constant_time_locl.h:168-176 | constant_time_eq and its 8-bit form are the masks of a == b |
| `ConstantTime.SelectMask` | benchmarks/openssl_almeida/constant_time_locl.h:188-193 | constant_time_select picks by a mask |
| `ConstantTime.Select8Mask` | benchmarks/openssl_almeida/constant_time_locl.h:195-200 | the 8-bit select picks by a byte mask although the complement is taken on 32 bits |
| `Hashing.Terminated` | benchmarks/openssl_almeida/md32_common.h:363-390 | a message with 0x80, zeros and an 8-byte length fills whole blocks, the zeros being as few as possible (section 5.1.1 of FIPS 180-4) |
| `Hashing.PadAfterBlock` | benchmarks/openssl_almeida/ssl3_cbc_digest_record.c:725-744 | a whole key block in front of a message only lengthens the bit count of its padding |
| `Hashing.LengthField` | benchmarks/openssl_almeida/md32_common.h:377-380 | Nh and Nl written big-endian are the 64-bit length |
| `Hashing.BigEndianValue` | benchmarks/openssl_almeida/md32_common.h:377-380 | n big-endian bytes stand for the number modulo 256^n |
| `Hashing.WriteWords` | benchmarks/openssl_almeida/ssl3_cbc_digest_record.c:117-125 | HASH_MAKE_STRING and tls1_sha1_final_raw: the five chaining words are written as the 160-bit number h0:h1:h2:h3:h4 in twenty big-endian bytes |
| `Hashing.InitialBytes` | benchmarks/openssl_almeida/ssl3_cbc_digest_record.c:149-153 | the initial chaining words are 01 23 45 up to ef, fe dc ba down to 10, and f0 e1 d2 c3 in little-endian bytes |
| `Md32.ShaContext.constructor` | benchmarks/openssl_almeida/ssl3_cbc_digest_record.c:155-167 | the initial context is that of the empty message |
| `Md32.ShaContext.BlockDataOrder` | benchmarks/openssl_almeida/ssl3_cbc_digest_record.c:232-441 | the block loop folds the compression over all blocks, whatever the compression is |
| `Md32.ShaContext.Count` | benchmarks/openssl_almeida/md32_common.h:308-317 | the two counter words hold eight times the byte count modulo 2^64, carry and high part included |
| `Md32.ShaContext.Update` | benchmarks/openssl_almeida/md32_common.h:300-354 | HASH_UPDATE: chaining words, buffer, num and counter afterwards are those of the longer message |
| `Md32.ShaContext.Transform` | benchmarks/openssl_almeida/md32_common.h:356-361 | HASH_TRANSFORM compresses one block |
| `Md32.ShaContext.Final` | benchmarks/openssl_almeida/md32_common.h:363-400 | HASH_FINAL: one or two closing blocks, and the chaining words over the padded message as a 160-bit big-endian number; the buffer is cleared |
| `Md32.SplitLeavesNoTrace` | benchmarks/openssl_almeida/md32_common.h:300-354 | two contexts that absorbed the same message agree in every field, however it was split |
| `Md32.HashPieces` | benchmarks/openssl_almeida/md32_common.h:300-400 | any sequence of updates followed by final hashes the concatenation |
| `CbcDigest.CoversExactlyWhen` | benchmarks/openssl_almeida/ssl3_cbc_digest_record.c:663-724 | the scanned window contains the end of the message exactly when the message reaches it and one SSLv3 size is avoided |
| `CbcDigest.SlackSuffices` | benchmarks/openssl_almeida/ssl3_cbc_digest_record.c:663-724 | 313 bytes of padding in TLS and 57 in SSLv3 keep the end inside the window |
| `CbcDigest.SlackIsSharp` | benchmarks/openssl_almeida/ssl3_cbc_digest_record.c:663-724 | with one byte more a record can end before the window |
| `CbcDigest.LengthBytes` | benchmarks/openssl_almeida/ssl3_cbc_digest_record.c:746-757 | the length bytes are the big-endian bit count |
| `CbcDigest.TlsStart` | benchmarks/openssl_almeida/ssl3_cbc_digest_record.c:786-795 | TLS: the starting blocks fold the compression over header and data |
| `CbcDigest.SslStart` | benchmarks/openssl_almeida/ssl3_cbc_digest_record.c:760-785 | SSLv3: the same when the header is longer than a block |
| `CbcDigest.SelectByte` | benchmarks/openssl_almeida/ssl3_cbc_digest_record.c:812-851 | the five masked steps on a byte amount to: length byte, zero, 0x80 or message byte |
| `CbcDigest.WindowIsPadded` | benchmarks/openssl_almeida/ssl3_cbc_digest_record.c:805-853 | up to the last block the masked bytes are those of the padded message |
| `CbcDigest.BuildBlock` | benchmarks/openssl_almeida/ssl3_cbc_digest_record.c:809-853 | a masked block, its counter running on over header and data |
| `CbcDigest.ScanWindow` | benchmarks/openssl_almeida/ssl3_cbc_digest_record.c:797-862 | after the scan mac_out is the chaining value at the block of the length, as a big-endian number, picked up exactly once, and zero if that block lies behind the window |
| `CbcDigest.OuterKey` | benchmarks/openssl_almeida/ssl3_cbc_digest_record.c:738-740 | xoring the inner key block with 0x6a gives the outer key block |
| `CbcDigest.InnerHash` | benchmarks/openssl_almeida/ssl3_cbc_digest_record.c:640-862 | mac_out is the hash of key block, header and the first data_plus_mac_size - 20 bytes, except that it is twenty zeros at the one missed SSLv3 size and nothing when the SSLv3 sanity check fires |
| `CbcDigest.DigestExactlyWhen` | benchmarks/openssl_almeida/ssl3_cbc_digest_record.c:663-862 | that is the standard hash for every compression function exactly when the record does not have the missed size |
| `CbcDigest.MissedRecord` | benchmarks/openssl_almeida/ssl3_cbc_digest_record.c:663-724 | the missed size: an SSLv3 record of 204 bytes with its header, 20 of them MAC, and no padding |
| `CbcDigest.DigestRecord` | benchmarks/openssl_almeida/ssl3_cbc_digest_record.c:529-887 | what goes to the outer digest: for TLS that of section 2 of RFC 2104, for SSLv3 secret, second pad and inner hash, or zeros for the inner hash at the missed size |
| `TlsRecord.DigestByStreaming` | benchmarks/openssl_almeida/ssl3_cbc_digest_record.c:509-528 | what the streaming context makes of key block, header and data is the inner hash, and the constant-time digest is that under the outer key |
| `TlsRecord.OpenRecord` | benchmarks/openssl_almeida/ssl3_cbc_copy_mac.c:42-60 | padding removal, MAC extraction and digest in the order their comments demand: each meets the conditions of the next, and the results are the last 20 bytes and the HMAC of the rest |
| `CopyMac.Scan` | benchmarks/openssl_almeida/ssl3_cbc_copy_mac.c:109-118 | the scan puts every byte of the MAC in exactly one slot of the rotated buffer |
| `CopyMac.RotateMasked` | benchmarks/openssl_almeida/ssl3_cbc_copy_mac.c:131-139 | the masked double loop turns a buffer by the given offset |
| `CopyMac.RotateInPlace` | benchmarks/openssl_almeida/ssl3_cbc_copy_mac.c:121-129 | the variant with a wrapping read pointer turns it likewise |
| `CopyMac.CopyMac` | benchmarks/openssl_almeida/ssl3_cbc_copy_mac.c:62-141 | either variant yields the MAC turned by Drift(md_size); for even sizes the MAC itself |
| `CopyMac.ExactWhen` | benchmarks/openssl_almeida/ssl3_cbc_copy_mac.c:97-107 | the result is the MAC for every record exactly when md_size is even or 1 |
| `RemovePadding.ScanPadding` | benchmarks/openssl_almeida/tls1_cbc_remove_padding_patch.c:120-133 | the low byte of good survives exactly when the scanned trailing bytes all equal the padding length |
| `RemovePadding.Verdict` | benchmarks/openssl_almeida/tls1_cbc_remove_padding_patch.c:110-139 | good ends as the mask of acceptance |
| `RemovePadding.RemovePaddingFrom` | benchmarks/openssl_almeida/tls1_cbc_remove_padding_patch.c:68-145 | 0 exactly for publicly short records; otherwise 1 exactly when accepted, with IV skipped, length, data, input and type as stated, else -1 |
| `RemovePadding.AcceptedIsWellPadded` | benchmarks/openssl_almeida/tls1_cbc_remove_padding_patch.c:110-139 | for a MAC of at least one byte and padding lengths up to 254 the check is that of section 6.2.3.2 of RFC 5246 |
| `RemovePadding.ScanCompleteExactlyWhen` | benchmarks/openssl_almeida/tls1_cbc_remove_padding_patch.c:120-133 | for which lengths the scan of min(255, length - 1) bytes decides well-formed padding |
| `RemovePadding.KindCarriesPadding` | benchmarks/openssl_almeida/tls1_cbc_remove_padding_patch.c:140-142 | the padding size can be read back from the type |
| `LoopPass.LoopLimiter.constructor` | loop-limiter/LoopLimiter.cpp:93-112 | before the pass the code is the function itself |
| `LoopPass.LoopLimiter.InstrumentLoop` | loop-limiter/LoopLimiter.cpp:115-228 | one loop: reset before the preheader's terminator, header split or exit widened, increment in every latch; every source block keeps its described shape |
| `LoopPass.LoopLimiter.Rewrite` | loop-limiter/LoopLimiter.cpp:178-228 | the rewriting steps themselves, on the blocks that hold the terminators at that time |
| `LoopPass.LoopLimiter.Run` | loop-limiter/LoopLimiter.cpp:97-229 | the worklist instruments exactly the loops of the forest that have a preheader and a latch, at any depth and each once; its records hold their blocks, and the exit is widened exactly in break mode for a header with one way on and one way out |
| `LoopPass.InstrumentShape` | loop-limiter/LoopLimiter.cpp:178-228 | instrumenting one more loop keeps the shape of all source blocks and of all earlier splits, for any nesting order |
| `LoopShape.AppendAllAt` | loop-limiter/LoopLimiter.cpp:223-228 | increments reach exactly the latch blocks |
| `LoopSim.StepPlain` | loop-limiter/LoopLimiter.cpp:178-203 | a block without a split header behaves as in the original, its counter operations ticking every count once |
| `LoopSim.StepTop` | loop-limiter/LoopLimiter.cpp:205-219 | a split header exits silently exactly when its counter has reached the limit |
| `LoopSim.StepRest` | loop-limiter/LoopLimiter.cpp:205-219 | otherwise its rest completes the original block, also when the header is its own latch |
| `LoopSim.LeavingWidened` | loop-limiter/LoopLimiter.cpp:186-203 | in either polarity the widened branch leaves the loop exactly when the original would or the bound is reached |
| `LoopRuns.ErasedIsMonitored` | loop-limiter/LoopLimiter.cpp:114-229 | every run of the code, counters and added blocks erased, is a run of the counted original |
| `LoopRuns.MonitoredIsErased` | loop-limiter/LoopLimiter.cpp:114-229 | and every such run is reproduced by the code |
| `LoopRuns.CountsHold` | loop-limiter/LoopLimiter.cpp:178-228 | in every natural loop the i32 counter is the number of times its latches have run since the preheader, which is the back-edges and the times a latch went on inside the loop |
| `LoopRuns.CountIsBackEdgesExactlyWhen` | loop-limiter/LoopLimiter.cpp:222-228 | it is the number of back-edges exactly when no latch has gone on inside the loop since then, with the i32 overflow accounted for |
| `LoopRuns.LeavingLatchesCount` | loop-limiter/LoopLimiter.cpp:222-228 | with latches that go nowhere else in the loop it is the number of back-edges, and at most the limit |
| `LoopRuns.SplitModeSafety` | loop-limiter/LoopLimiter.cpp:204-228 | split mode: an erased run is a prefix of the original run from the same state, returns only where that does and in the same state, and exits silently only at a header whose latches have used up the limit |
| `LoopRuns.UsedUpBackEdges` | loop-limiter/LoopLimiter.cpp:204-228 | at such an exit back-edges and strayed latches make up the limit; the back-edges alone do if the latches leave the loop otherwise |
| `LoopRuns.Completeness` | loop-limiter/LoopLimiter.cpp:178-228 | either mode: an original run that never meets a header with the limit used up is reproduced in full, to the same final state |
| `LoopRuns.FewStaysBelow` | loop-limiter/LoopLimiter.cpp:178-228 | which is so for a run with fewer than limit back-edges in every loop, if the latches leave their loops otherwise |
| `LoopRuns.ExitsExactlyWhen` | loop-limiter/LoopLimiter.cpp:204-219 | split mode: the code exits silently exactly when the original comes to a header with the limit used up |
| `LoopRuns.EnteredAtMost` | loop-limiter/LoopLimiter.cpp:182-203 | either mode: between two runs of the preheader a loop is gone into from its header at most limit times, unless latches that go on inside the loop make the count overflow |
| `LoopRuns.PassResult` | loop-limiter/LoopLimiter.cpp:50-232 | what the pass leaves is code to which these theorems apply |
| `LoopRuns.EveryLoopBounded` | loop-limiter/LoopLimiter.cpp:114-228 | so every loop of the function with a preheader and a latch is bounded in the code the pass leaves |
| `LoopExample.SummationSums` | loop-limiter/test.c:4-10 | the graph of the test program, with PHIs in its header, computes the sum of the numbers below n |
| `LoopExample.InstrumentSummation` | loop-limiter/test.c:4-10 | the pass instruments the summation loop of the test program, alone and once, in the mode asked for, and leaves code that meets every condition of these theorems for every limit |
| `LoopExample.CutBeforeTest` | loop-limiter/LoopLimiter.cpp:213-219 | a run that would leave its loop after exactly limit rounds is cut as well, since the bound is checked first |
| `LoopExample.LatchesCountTwice` | loop-limiter/LoopLimiter.cpp:222-228 | a loop in loop-simplify form whose single latch goes on inside the loop, put through the pass: at limit 2 the code exits silently after one back-edge |
| `RadixSort.GetMax` | benchmarks/ghostrider/rsort.c:6-13 | the maximum of the elements |
| `RadixSort.CountDigits` | benchmarks/ghostrider/rsort.c:22-24 | how often each digit occurs |
| `RadixSort.SumUp` | benchmarks/ghostrider/rsort.c:26-29 | running totals: where the next digit begins |
| `RadixSort.Distribute` | benchmarks/ghostrider/rsort.c:31-36 | back to front every element goes to its own slot, giving the buckets in order |
| `RadixSort.SlotsFilledOnce` | benchmarks/ghostrider/rsort.c:31-36 | every output slot is that of exactly one element |
| `RadixSort.CountSort` | benchmarks/ghostrider/rsort.c:17-42 | countSort in place: the buckets of the old contents, digit by digit |
| `RadixSort.PassPermutes` | benchmarks/ghostrider/rsort.c:17-42 | a pass is a permutation |
| `RadixSort.PassStable` | benchmarks/ghostrider/rsort.c:31-36 | elements with equal digits keep their order |
| `RadixSort.PassSorts` | benchmarks/ghostrider/rsort.c:51-55 | a pass over an array sorted by its low digits sorts it by one digit more |
| `RadixSort.Shrinks` | benchmarks/ghostrider/rsort.c:54 | the quotient strictly decreases and exp stays within a 32-bit int for maxima below 10^9 |
| `RadixSort.RadixSort` | benchmarks/ghostrider/rsort.c:46-56 | a sorted permutation of the input |
| `Loki.Mult8` | benchmarks/appliedCryp/loki91.c:158-173 | mult8 with its sixteen rounds is the remainder of the unreduced polynomial product by the generator |
| `Loki.MulIsRemainder` | benchmarks/appliedCryp/loki91.c:166-168 | shift and reduction in step give that remainder, with a quotient |
| `Loki.RemainderUnique` | benchmarks/appliedCryp/loki91.c:166-168 | there is only one such remainder |
| `Loki.TimesXLinear` | benchmarks/appliedCryp/loki91.c:166-168 | the shift-and-reduce step is additive |
| `Loki.MulLinear` | benchmarks/appliedCryp/loki91.c:158-173 | the product is additive in its first factor |
| `Loki.MulComm` | benchmarks/appliedCryp/loki91.c:158-173 | the product is commutative on bytes, for every generator in [256, 511] |
| `Loki.MulAssociates` | benchmarks/appliedCryp/loki91.c:158-173 | the product is associative on bytes |
| `Loki.MulOne` | benchmarks/appliedCryp/loki91.c:158-173 | 1 is its unit |
| `Loki.PowerSquare` | benchmarks/appliedCryp/loki91.c:187-192 | squaring the base halves the exponent |
| `Loki.Exp8` | benchmarks/appliedCryp/loki91.c:175-193 | exp8 is the e-fold product, the remainder of the unreduced power by the generator, for every base but 0, exponent below 2^15 and generator, and 0 for base 0 |
| `Loki.PowerIsRemainder` | benchmarks/appliedCryp/loki91.c:175-193 | the e-fold product reduced at each step is the remainder of the unreduced power |
| `Loki.ZeroBase` | benchmarks/appliedCryp/loki91.c:181-182 | the special case of base 0 is the power exactly when the exponent is not 0 |
| `DesTables.Sbox1Range` | benchmarks/libg/des.c:229-239 | the entries of S-box 1 lie in its mask |
| `DesStandard.InitialBits` | benchmarks/libg/des.c:456-466 | the initial permutation moves every bit as the table IP of FIPS 46-3 says, apart from the rotation it adds |
| `DesStandard.FinalBits` | benchmarks/libg/des.c:468-479 | the final permutation moves every bit as the table of the inverse permutation says |
| `DesStandard.Sbox1Is` | benchmarks/libg/des.c:228-245 | the entries of the first table are those of S-box 1 of FIPS 46-3 put through P and rotated; likewise the other seven |
| `DesStandard.OddGroups` | benchmarks/libg/des.c:494 | the six bits that reach an odd S-box are a group of the expansion E xored with six subkey bits |
| `DesStandard.EvenGroups` | benchmarks/libg/des.c:489-493 | and those that reach an even one |
| `DesStandard.RoundIsStandard` | benchmarks/libg/des.c:488-498 | on rotated halves the round function is f of FIPS 46-3: E, subkey, S-boxes, P |
| `DesStandard.KeyGroupsAreChosen` | benchmarks/libg/des.c:577-620 | the subkey words of a round hold the eight groups of its round key, chosen by PC-1, the rotations and PC-2 |
| `DesStandard.CipherIsStandard` | benchmarks/libg/des.c:663-689 | initial permutation, sixteen rounds and final permutation are those of FIPS 46-3 |
| `DesTables.RotationsAddUp` | benchmarks/appliedCryp/des.c:54-55 | the total rotations of one schedule are the sums of the single rotations of the other |
| `DesKeys.RegistersAreKeyBits` | benchmarks/libg/des.c:542-568 | the two permutations and the table look-ups put the key bits into the registers in the order of the bitwise permuted choice 1 |
| `DesKeys.TurnedBy` | benchmarks/libg/des.c:572-575 | rotating a 28-bit register is turning its bits |
| `DesKeys.CookedAreShifted` | benchmarks/appliedCryp/des.c:83-101 | the subkey halves picked bit by bit and cooked are the masked shifts of the registers, with the words of the pair exchanged |
| `DesPrograms.DesKeySchedule` | benchmarks/libg/des.c:535-624 | des_key_schedule: all sixteen pairs, as masked shifts of the turned key bits |
| `DesPrograms.DesContext.SetKey` | benchmarks/libg/des.c:629-655 | des_setkey: the schedule, and its pairs reversed for decryption |
| `DesPrograms.KeyRegister.DesKey` | benchmarks/appliedCryp/des.c:104-136 | deskey: the cooked pairs at their places, for encryption and for decryption |
| `DesPrograms.SameSchedule` | benchmarks/appliedCryp/des.c:83-136 | the two key registers hold the same subkeys, words of each pair exchanged, in either direction |
| `DesPrograms.DesRound` | benchmarks/libg/des.c:488-498 | DES_ROUND xors in f of FIPS 46-3, on rotated halves |
| `Des.BoxesOr` | benchmarks/appliedCryp/des.c:336-349 | OR-ing the eight S-box outputs is XOR-ing them |
| `DesPrograms.DesContext.EcbCrypt` | benchmarks/libg/des.c:663-689 | des_ecb_crypt is DES of FIPS 46-3 under the subkeys of the mode |
| `DesPrograms.DesFunc` | benchmarks/appliedCryp/des.c:310-382 | desfunc is DES of FIPS 46-3 under the exchanged words |
| `DesPrograms.BothCrypt` | benchmarks/appliedCryp/des.c:163-170 | both implementations, from the key on, yield the bytes of FIPS 46-3, encrypting and decrypting |
| `DesPrograms.CryptedIsStandard` | benchmarks/libg/des.c:535-689 | key schedule and block function together are DES as FIPS 46-3 has it, for every key and block |
| `Des.FinalUndoesInitial` | benchmarks/libg/des.c:456-479 | the final permutation undoes the initial one |
| `Des.InitialUndoesFinal` | benchmarks/libg/des.c:456-479 | and the other way round |
| `Des.RoundsUndone` | benchmarks/libg/des.c:647-651 | rounds under the reversed pairs undo the rounds |
| `Des.CipherUndone` | benchmarks/libg/des.c:663-689 | the cipher under the reversed pairs is the inverse of the cipher |
| `DesPrograms.RoundTrip` | benchmarks/libg/des.c:663-689 | mode 0 sends the encrypted block and mode 1 gives the block back, under every key |
| `DesPrograms.CryptedUndone` | benchmarks/libg/des.c:663-689 | decryption under the subkeys of a key is the inverse of encryption |
| `Twofish.RoundUndone` | benchmarks/libg/twofish.c:1033-1046 | DECROUND undoes ENCROUND for arbitrary tables and keys |
| `Twofish.CyclesUndone` | benchmarks/libg/twofish.c:1051-1057 | eight cycles are undone by eight cycles in reverse |
| `Twofish.PackUnpack` | benchmarks/libg/twofish.c:1065-1071 | packing undoes unpacking under the same whitening words |
| `Twofish.Encrypt` | benchmarks/libg/twofish.c:1100-1132 | do_twofish_encrypt: whitening, eight cycles, whitening of the turned halves |
| `Twofish.Decrypt` | benchmarks/libg/twofish.c:1167-1199 | do_twofish_decrypt: the reverse cycles |
| `Twofish.RoundTrip` | benchmarks/libg/twofish.c:1100-1199 | the programs encrypt as stated and give the block back, for every context and block |
| `Twofish.DecryptedEncrypted` | benchmarks/libg/twofish.c:1100-1199 | decryption is the inverse of encryption for every context |
| `TwofishStandard.SecondG` | benchmarks/libg/twofish.c:1025-1031 | the second g macro is the first one after a rotation by eight |
| `TwofishStandard.RoundIsPaper` | benchmarks/libg/twofish.c:1033-1038 | ENCROUND is a round of the published cipher, without the exchange of halves |
| `TwofishStandard.EncryptedIsPaper` | benchmarks/libg/twofish.c:1100-1132 | the block comes out as sixteen published rounds on the whitened words give it, byte by byte |
| `Normalize.Subtract` | benchmarks/bearssl/bearssl_rsa_benchmark_common.h:106-112 | the borrow loop computes the difference modulo 256^128 and the borrow owed |
| `Normalize.Compare` | benchmarks/bearssl/bearssl_rsa_benchmark_common.h:113-116 | the branch-free scan decides greater and less |
| `Normalize.MoreThanHalf` | benchmarks/bearssl/bearssl_rsa_benchmark_common.h:9-18 | a modulus with its top bit set is at least half of all numbers of its length, so one subtraction is enough |
| `Normalize.NormalizeCiphertext` | benchmarks/bearssl/bearssl_rsa_benchmark_common.h:93-120 | a plain copy for any other length, else the value modulo the modulus, in place |
| `Normalize.NormalizeForBenchmark` | benchmarks/bearssl/bearssl_rsa_benchmark_common.h:93-120 | the same for the RSA modulus of the benchmarks |
| `Workers.SplitJoins` | scripts/experiments/parallel_klee_copies.py:306-308 | the split has no newline in any line, and its lines joined by newlines are the text |
| `Workers.SplitUnique` | scripts/experiments/parallel_klee_copies.py:306-308 | and it is the only such split |
| `Workers.SplitContinues` | scripts/experiments/parallel_klee_copies.py:306-308 | splitting the kept remainder with the next chunk continues the split of the whole text |
| `Workers.LinesIgnoreChunks` | scripts/experiments/parallel_klee_copies.py:306-310 | the emitted lines depend on the concatenated text only, not on where chunks end |
| `Workers.Worker.FinalizeWorker` | scripts/experiments/parallel_klee_copies.py:347-367 | finalize_worker: once, with the recorded code, else that of the process, of the copy, or 1 |
| `Workers.Worker.StartCopy` | scripts/experiments/parallel_klee_copies.py:188-206 | start_copy: a running copy, or a finalized worker with code 1 |
| `Workers.Worker.PollCopy` | scripts/experiments/parallel_klee_copies.py:209-243 | poll_copy_processes keeps the worker consistent and leaves a finalized one alone |
| `Workers.Worker.StartWorkerProcess` | scripts/experiments/parallel_klee_copies.py:246-281 | start_worker_process: both streams open with live handles, or a finalized worker with code 1 |
| `Workers.Worker.WriteOutput` | scripts/experiments/parallel_klee_copies.py:298-310 | write_worker_output: the handle is always there; log, lines and buffer follow the text |
| `Workers.Worker.CloseStream` | scripts/experiments/parallel_klee_copies.py:313-331 | close_worker_stream emits a last incomplete line |
| `Workers.Worker.FinalizeExited` | scripts/experiments/parallel_klee_copies.py:334-344 | finalize_exited_workers finalizes only with both streams drained, with the exit code of the process |
| `Workers.Worker.ForceFinalize` | scripts/experiments/parallel_klee_copies.py:404-427 | force_finalize_workers: closes the streams, then finalizes; a process still running is recorded with the zero of its copy, not with the given code |
| `Workers.SaidIsHeard` | scripts/experiments/parallel_klee_copies.py:284-310 | what a stream has said is the concatenation of the chunks read while it was open |
| `Workers.PiecesMakeNoDifference` | scripts/experiments/parallel_klee_copies.py:284-310 | reading a chunk in two pieces, anywhere among the events, leaves the whole worker the same |
| `Workers.CodeStays` | scripts/experiments/parallel_klee_copies.py:347-367 | once recorded, a return code stays through any events |
| `Workers.ExitIsRecorded` | scripts/experiments/parallel_klee_copies.py:334-360 | a command that exits once its streams have ended is recorded with its exit code, and with nothing before |
| `Workers.CopyFailureIsRecorded` | scripts/experiments/parallel_klee_copies.py:209-240 | a copy that fails is recorded with its exit code |
| `Workers.BatchRecordsExit` | scripts/experiments/parallel_klee_copies.py:109-154 | in a whole batch the exit code so recorded is the final one |
| `Workers.BatchRecordsCopyFailure` | scripts/experiments/parallel_klee_copies.py:109-154 | and so is that of a failed copy |
| `Workers.ForcedCodeExactlyWhen` | scripts/experiments/parallel_klee_copies.py:404-427 | the forced end records the code it is given, whatever it is, exactly when no code has been recorded and neither the process nor the copy has one |
| `Workers.RunningForcedToZero` | scripts/experiments/parallel_klee_copies.py:404-427 | so never for a command that is running: whatever has happened before, it is recorded with 0 |
| `Workers.InterruptedWithZero` | scripts/experiments/parallel_klee_copies.py:404-427 | the shortest such run: copy done, command started, interrupt with 130, recorded as 0 |
| `Workers.Deliver` | scripts/experiments/parallel_klee_copies.py:116-145 | whatever the event, the forced end included, its worker goes one step on as specified, the others stay, and a finalized worker keeps its return code and its one status entry |
| `Workers.RunBatch` | scripts/experiments/parallel_klee_copies.py:109-154 | for every interleaving of events each worker is what its own events make of it: finalized exactly once, streams closed, logs and emitted lines those of the chunks read while the stream was open; the overall code is zero exactly when all codes are |
| `Workers.Collect` | scripts/experiments/parallel_klee_copies.py:430-464 | the overall code is zero exactly when every worker's code is |

## Left out

- MpiCore.Mpi.Grow: the limb buffer is a `seq` field that the methods reassign rather than a heap array, so aliasing is modelled between numbers and not between overlapping pointers; allocation fails only by the 10000-limb limit.
- MpiAdd.AddAbs: freeing, zeroising and the alternative allocation paths are not modelled; the external conditional assignments carry their declared contracts.
- MpiDiv.DivMpi: the quotient is not an output, since the slice computes only the remainder.
- Md32.ShaContext.BlockDataOrder: the SHA-1 rounds are any compression function; the 64-byte buffer is a `seq` field.
- CbcDigest.InnerHash: records whose message ends before the scanned window; that takes 314 bytes of padding in TLS and 58 in SSLv3, more than a record can carry.
- CbcDigest.DigestRecord: the digests other than SHA-1, compiled out in the source, and the final outer digest call, a stub there.
- RemovePadding.RemovePaddingFrom: the padding-bug option and the AEAD branch; also the lucky13 variant of the function.
- LoopPass.LoopLimiter.Run: loop and preheader facts are assumed as the loop analysis reports them; white- and blacklists, statistics and warnings are not modelled; each source block's instructions other than PHIs are one state transformer.
- DesTables.Sbox1Range: the two copies of the S-boxes, equal entry by entry in the source, are one set of functions here.
- Twofish.Encrypt: the key set-up; tables, whitening words and round keys are arbitrary.
- Normalize.NormalizeForBenchmark: `runner_copy_bytes` is not part of this model beyond copying.
- Workers.RunBatch: processes, pipes, signals, files and per-chunk decoding are events and decoded text; an interrupt is taken between events, not inside one.
- The LOKI91 and DES block drivers, key files and I/O, and the remaining benchmark wrappers: thin calls.
- The libgcrypt power routine and the Dijkstra benchmark: the sliced code no longer computes a power, and the benchmark no shortest paths.
- Timing, leakage and zeroisation: functional correctness only.
