# Verified model of the signing core, the hashers, the message packer and the JSON tokenizer

The library signs transactions for an IoT client. This project models, in Dafny, the four parts of it whose correctness
is hard to see from reading them, and proves what each of them is for.

**Arithmetic and signing** (`bignum.c`, `ecdsa.c`). A number is an array of nine 30-bit limbs in 32-bit words, updated in
place and reduced lazily. Above the limbs sit multiplication with interleaved reduction, an almost-Montgomery inverse
that keeps two numbers in each nine-word register, affine and Jacobian point formulas, a recoding of scalars into 64 odd
signed digits, two different scalar multiplications, and the signing loop.
The modules follow that order: `Words`, `Digits`, `Congruence` (words, positional notation, integers modulo p);
`BignumBasics`, `BignumReduce`, `BignumMultiply`, `BignumConvert`, `BignumPower`; `AlmostInverse`, `PackedRegisters`,
`ComboRegister`, `BignumInverse`; `EllipticCurve`, `CurveEquation`, `CurvePoints`, `JacobianPoints`, `JacobianAdd`,
`JacobianDouble`; `GroupLaw`; `SignedDigits`, `Recoding`, `Orbit`, `WindowMultiply`, `CombMultiply`, `Secp256k1`; `Ecdsa`,
`DeterministicEcdsa`, `NonceFitness`.

**Hashing and random bits** (`sha2.c`, `sha3.c`, `hmac_drbg.c`, `rfc6979.c`): `Streaming`, `Sha256`, `Sha3`, `Rfc2104`,
`HmacDrbg`, `ReseedDeviation`, `Rfc6979`, `SeedDeviation`.

**The protobuf packer** (`pb_pack.c`): `PbPack`, and in `PbDecode` a reader that undoes it.

**The JSON tokenizer** (`jsmn.h`, without `JSMN_STRICT` and `JSMN_PARENT_LINKS`): `JsonScan`, `JsonTokens`, `JsonRun`,
`Jsmn`; `JsonTree` and `JsonParse` say what it makes of well-formed JSON, and `JsonLexemes` where its scans end.

Code that updates memory is modelled by methods over arrays and classes, with their frames; each is proved against a
function or predicate on mathematical values, and the theorems are about those. 32-bit and 64-bit words are subset types
of the integers, so every wrap-around is written out and every sum that must not wrap is proved not to. A C function that
is long here appears as several methods; the row names the one that carries its contract.

## What is assumed

These are hypotheses of the theorems, written as `requires` clauses, besides the ranges and the separation of arrays
that each routine asks of its callers.

- `Orbit.Cyclic(g, a, b, p, n)`: p is a prime above 3, n is odd, and g(i) is the i-th multiple of a base point of order
  n under the affine law of `EllipticCurve`. Associativity is not proved; `CurveEquation.PlusOnCurve` proves that the
  law does not leave the curve, `GroupLaw` its other laws, and `GroupLaw.OrderThree` that the hypothesis can be met.
- `Prime(p)`, and for signing `Prime(n)` (in `Ecdsa.Signing`): the field and the group order are prime. `Secp256k1` proves every other condition on the
  constants of the curve.
- `CombMultiply.Comb`: entry (i, j) of the precomputed table is (2j + 1) * 16^i * G.
- `Sha256.Compresses`, `Sha3.Permutes`: the compression function and the permutation are parameters, of which only the
  lengths are known. The theorems hold for every such function.
- Random numbers (the blinding factor of an attempt, the factor by which projective coordinates are randomised, and the
  nonce in the build without RFC 6979) are arbitrary numbers in their range. The signing theorems hold for every choice.
- `BignumPower.SquareRoot` and `FermatInverse` take one instance of Fermat's little theorem.

## Where code and text differ

- The reseeding of the generator stops after one round when there is no entropy, even if there is additional input.
  Section 10.1.2.2 of NIST SP 800-90A asks for a second round then. `ReseedDeviation.ReseedConforms` proves that the two
  agree for every compression function and state if and only if there is entropy or no additional input.
- RFC 6979 reduces the hash modulo the order before it goes into the seed; the code does not.
  `SeedDeviation.SeedConforms` proves that generator states and nonces agree, for every compression function and initial
  value, if and only if the hash is below the order; `SeedDeviation.HighDigest` is a hash for which they do not.
- The packer tests for a varint of value zero only when the whole type byte is zero. With other bits set in it, a zero
  leaves a key without a value. `PbDecode.DecodesToItems` proves that the message can be read back if and only if no item
  is like that, and `PbDecode.StrayExample` is the smallest message that cannot.
- The packer refuses a buffer that the message fills to its last byte; `PbPack.Pack` states exactly that.
- The comment above `point_jacobian_double` speaks of 8y^4 where the code, with its halved slope, subtracts y^4; the model
  follows the code.

## Model

| member | source | states |
|---|---|---|
| BignumBasics.BnAdd | src/crypto/bignum.c:921-930 | the carry loop adds modulo 2^270, exactly when the sum fits |
| BignumBasics.BnAddi | src/crypto/bignum.c:942-951 | adding a word to the lowest limb adds it to the number modulo 2^270; when that 32-bit sum wraps, exactly the 2^32 that is lost is missing |
| BignumBasics.BnSubtract | src/crypto/bignum.c:976-985 | the borrow loop, which adds the base and carries, subtracts modulo 2^270, also in place |
| BignumBasics.BnIsZero | src/crypto/bignum.c:241-250 | the loop of ORs tells whether the number is zero |
| BignumBasics.BnIsEqual | src/crypto/bignum.c:271-280 | the loop of XORs tells whether limbs and numbers agree |
| BignumBasics.BnIsLess | src/crypto/bignum.c:255-266 | the shift-and-OR accumulators compare two numbers |
| BignumBasics.BnCmov | src/crypto/bignum.c:285-296 | selection by masks copies exactly the chosen number, whatever aliases whatever |
| BignumBasics.BnLshift | src/crypto/bignum.c:300-309 | moving a bit from limb to limb, from the top down, doubles modulo 2^270 |
| BignumBasics.BnRshift | src/crypto/bignum.c:313-321 | moving a bit from limb to limb, from the bottom up, halves rounding down |
| BignumConvert.BnReadBe | src/crypto/bignum.c:83-100 | 32 bytes become normalised limbs of their big-endian value |
| BignumConvert.BnReadLe | src/crypto/bignum.c:119-136 | 32 bytes become normalised limbs of their little-endian value |
| BignumConvert.BnWriteBe | src/crypto/bignum.c:104-115 | the bytes written have the value of the limbs, and no other byte changes |
| BignumConvert.BnWriteLe | src/crypto/bignum.c:140-151 | the same in little-endian order |
| BignumConvert.BytesToWords | src/crypto/bignum.c:57-79 | grouping bytes by four into words keeps the little-endian value |
| BignumConvert.ReadStep | src/crypto/bignum.c:83-100 | one step of the regrouping splits word and remainder into a limb and a remainder without loss |
| BignumConvert.WriteStep | src/crypto/bignum.c:104-115 | one step back joins two limbs into a word without loss |
| BignumConvert.BeBytesUnique | src/crypto/bignum.c:83-115 | a big-endian byte string is determined by its value and length |
| BignumConvert.BeReadThenWrite | src/crypto/bignum.c:83-115 | big-endian bytes written for a normalised number that has the value of 32 given bytes are those bytes |
| BignumConvert.BeWriteThenRead | src/crypto/bignum.c:83-115 | normalised limbs that have the value of the big-endian bytes written for a normalised number are its limbs |
| BignumConvert.LeReadThenWrite | src/crypto/bignum.c:119-151 | the first statement for little-endian bytes |
| BignumConvert.LeWriteThenRead | src/crypto/bignum.c:119-151 | the second statement for little-endian bytes |
| BignumConvert.BeCopyBytes | src/crypto/bignum.c:83-115 | bn_read_be followed by bn_write_be copies any 32 bytes |
| BignumConvert.BeCopyLimbs | src/crypto/bignum.c:83-115 | bn_write_be followed by bn_read_be copies any normalised number below 2^256, limb by limb |
| BignumReduce.SumColumns | src/crypto/bignum.c:507-523 | the biased columns of x - coef * prime, before carrying, add up to the difference plus the bias |
| BignumReduce.FastModBound | src/crypto/bignum.c:502-523 | subtracting the quotient estimate of the top limb leaves a value in 0 .. 2 * prime - 1, for any nine 32-bit limbs |
| BignumReduce.BnFastMod | src/crypto/bignum.c:507-523 | for limbs of any size the result is normalised, below 2 * prime, and exactly that multiple of prime less |
| BignumReduce.BnMod | src/crypto/bignum.c:385-390 | a partly reduced number becomes its residue |
| BignumReduce.BnSubtractMod | src/crypto/bignum.c:963-973 | the result is a + 2 * prime - b, normalised, modulo 2^270 and exact when it fits, and no limb sum leaves 0 .. 2^32 - 1 |
| BignumReduce.BnAddMod | src/crypto/bignum.c:932-940 | the result is partly reduced and congruent to the sum |
| BignumReduce.BnSubi | src/crypto/bignum.c:953-958 | the result is a + prime - b modulo 2^270, exact when it fits; the word b is at most the lowest limb of the prime, as the source asserts |
| BignumReduce.BnMultK | src/crypto/bignum.c:373-381 | the result is partly reduced and congruent to k * x |
| BignumReduce.BnMultHalf | src/crypto/bignum.c:352-368 | twice the result is x, or x + prime when x is odd |
| BignumMultiply.ProductValue | src/crypto/bignum.c:395-423 | the 18 column sums of the schoolbook product add up to the product |
| BignumMultiply.BnMultiplyLong | src/crypto/bignum.c:395-423 | the 18 limbs are the product, and no 64-bit column sum overflows |
| BignumMultiply.EstimateBound | src/crypto/bignum.c:435-467 | the quotient estimate from the three top limbs fits 31 bits and is off by at most one |
| BignumMultiply.StepValue | src/crypto/bignum.c:425-468 | replacing the ten limbs of the window by window - estimate * prime keeps the residue and pulls the bound down |
| BignumMultiply.BnMultiplyReduceStep | src/crypto/bignum.c:425-468 | below 2^(30(i-7)) * 2 prime on entry, below 2^(30(i-8)) * 2 prime on exit, congruent, and limb i + 1 is zero |
| BignumMultiply.BnMultiplyReduce | src/crypto/bignum.c:470-489 | nine such steps leave a partly reduced number congruent to the product |
| BignumMultiply.BnMultiply | src/crypto/bignum.c:491-500 | for factors below 180 * prime the result is partly reduced and congruent to the product |
| BignumPower.PowerLimb | src/crypto/bignum.c:540-561 | one limb of square-and-multiply, with the early exit on the top limb, multiplies the exponent in |
| BignumPower.BnSqrt | src/crypto/bignum.c:529-567 | the result is the power (prime + 1) / 4, fully reduced |
| BignumPower.SquareRoot | src/crypto/bignum.c:525-567 | for a square and a prime of the form 4m + 3, that power squares to the argument |
| BignumPower.BnInverseSlow | src/crypto/bignum.c:572-608 | the result is the power prime - 2, fully reduced, when the lowest limb is at least 2 |
| BignumPower.FermatInverse | src/crypto/bignum.c:571-608 | that power times the argument is 1 modulo the prime |
| AlmostInverse.Start | src/crypto/bignum.c:652-686 | u = prime, v = x, s = 1, r = 0, k = 0 satisfy the invariant of the loop |
| AlmostInverse.Exchange | src/crypto/bignum.c:769-775 | exchanging the registers keeps the invariant for -x in place of x |
| AlmostInverse.Halve | src/crypto/bignum.c:703-745 | dividing one number by 2^j and multiplying the coefficient of the other by 2^j keeps the invariant with k + j |
| AlmostInverse.Reduce | src/crypto/bignum.c:779-815 | subtracting u from v and adding r and s keeps the invariant |
| AlmostInverse.ReduceBits | src/crypto/bignum.c:681 | the bound floor(log2 u) + floor(log2 v) + k <= 510 survives the subtraction |
| AlmostInverse.Finish | src/crypto/bignum.c:758-840 | when u = v both are 1, and the coefficients are below the prime and are 2^k / x and - 2^k / x |
| AlmostInverse.ProductsFit | src/crypto/bignum.c:629-680 | u * s and v * r stay at most the prime |
| AlmostInverse.Divide | src/crypto/bignum.c:838-897 | an almost inverse divided by 2^k is the inverse |
| PackedRegisters.HasRoom | src/crypto/bignum.c:629-631 | if the product of two numbers fits eight words and one fills l of them, the other fits the remaining 9 - l |
| PackedRegisters.RightShiftDone | src/crypto/bignum.c:723-735 | the word-by-word shift of the lower half divides it exactly and clears at most its top word |
| PackedRegisters.LeftShiftDone | src/crypto/bignum.c:737-742 | the word-by-word shift of the upper half, in the words the lower half gave up, multiplies it exactly |
| PackedRegisters.TotalValue | src/crypto/bignum.c:794-807 | the carry loop over the big-endian halves adds them without losing a carry |
| ComboRegister.Combo.ShiftLimbs | src/crypto/bignum.c:703-714 | dropping zero words from the register moves them from the first number to the second |
| ComboRegister.Combo.CountZeros | src/crypto/bignum.c:716-721 | j is the number of trailing zero bits of the lowest word |
| ComboRegister.Combo.ShiftBits | src/crypto/bignum.c:723-745 | the register holds both numbers side by side, and the shift divides the one and multiplies the other by 2^j |
| ComboRegister.Combo.MakeOdd | src/crypto/bignum.c:703-745 | the first number loses all its factors of two, the second gains them, and no bit of either is lost |
| ComboRegister.Combo.Compare | src/crypto/bignum.c:754-767 | comparing lengths and then words from the top compares the first numbers |
| ComboRegister.Combo.SubtractFirst | src/crypto/bignum.c:779-792 | subtraction over the lower words changes only the first number |
| ComboRegister.Combo.AddSecond | src/crypto/bignum.c:794-807 | addition over the upper words changes only the second number |
| BignumInverse.ToWords | src/crypto/bignum.c:637-652 | nine limbs become eight words of the same value |
| BignumInverse.HalveEven | src/crypto/bignum.c:693-752 | one halving on the packed registers is one halving of the integer algorithm, and k counts its bits |
| BignumInverse.ReduceEven | src/crypto/bignum.c:779-821 | one subtraction and addition on the packed registers is one step of the integer algorithm |
| BignumInverse.SourceAssertions | src/crypto/bignum.c:747-752 | the four parities the source asserts after the halving hold |
| BignumInverse.AlmostInvert | src/crypto/bignum.c:660-840 | the loop ends, with k <= 510 and s < prime such that x * s is 2^k modulo the prime |
| BignumInverse.NewtonStep | src/crypto/bignum.c:853-856 | one squaring doubles the number of correct low bits of the inverse |
| BignumInverse.NegatedInverse | src/crypto/bignum.c:842-856 | for every odd word the loop ends with - 1 / word modulo 2^32 |
| BignumInverse.FactorClears | src/crypto/bignum.c:860-888 | the factor makes the low k bits of s + factor * prime zero |
| BignumInverse.ColumnFits | src/crypto/bignum.c:865-897 | every column of the division stays within 64 bits |
| BignumInverse.DivideByPower | src/crypto/bignum.c:858-897 | one pass divides s by 2^k modulo the prime, for whole words and for the last bits |
| BignumInverse.DivideOut | src/crypto/bignum.c:858-897 | all passes together divide s by 2^k modulo the prime |
| BignumInverse.FromWords | src/crypto/bignum.c:899-907 | eight big-endian words become nine normalised limbs of the same value |
| BignumInverse.BnInverse | src/crypto/bignum.c:615-913 | for every x coprime to the modulus, limbs of any size, the result is below the modulus and its inverse |
| EllipticCurve.SumOnLine | src/crypto/ecdsa.c:41-131 | the sum of two points is the mirror image of a point on the line through them, with the tangent slope when they are equal |
| CurveEquation.ThirdIntersection | src/crypto/ecdsa.c:41-131 | the third point of a line through two points of the curve is on the curve |
| CurveEquation.PlusOnCurve | src/crypto/ecdsa.c:41-131 | the law does not leave the curve |
| GroupLaw.PlusNeutral | src/crypto/ecdsa.c:46-54 | infinity is neutral on both sides |
| GroupLaw.PlusInfinite | src/crypto/ecdsa.c:56-66 | two points of the curve add up to infinity if and only if they are opposite |
| GroupLaw.LineDecides | src/crypto/ecdsa.c:41-131 | the mirrored third point of any line through two points, the tangent if they are equal, is their sum |
| GroupLaw.PlusCommutes | src/crypto/ecdsa.c:41-91 | the order of the summands does not matter |
| GroupLaw.OrderThree | src/crypto/ecdsa.c:41-131 | over every field the point (0, 1) of y^2 = x^3 + 1 has multiples of order three, as `Cyclic` asks for |
| GroupLaw.FieldFive | src/crypto/ecdsa.c:41-131 | and such a field exists |
| CurvePoints.PointSetInfinity | src/crypto/ecdsa.c:134-137 | both coordinates zero stand for the point at infinity |
| CurvePoints.PointIsInfinity | src/crypto/ecdsa.c:141-143 | true exactly for the point at infinity |
| CurvePoints.PointIsEqual | src/crypto/ecdsa.c:146-148 | true exactly for the same point |
| CurvePoints.OppositeTest | src/crypto/ecdsa.c:150-164 | for distinct points of the curve the three tests of the source together mean opposite points |
| CurvePoints.PointIsNegativeOf | src/crypto/ecdsa.c:150-164 | for two points of the curve: true exactly when the second is the opposite of the first and not the same point, so for equal points 0 |
| CurvePoints.PointAdd | src/crypto/ecdsa.c:41-87 | in every case, infinity, equal and opposite points included, the second point becomes the sum, fully reduced and on the curve |
| CurvePoints.PointDouble | src/crypto/ecdsa.c:90-131 | the point becomes its double, infinity and points of order two included |
| JacobianPoints.ConditionalNegate | src/crypto/ecdsa.c:166-182 | unchanged for a mask of zeros, 2 * prime - a for a mask of ones |
| JacobianPoints.CurveToJacobian | src/crypto/ecdsa.c:202-216 | the coordinates stand for the same point, whatever random factor was drawn |
| JacobianPoints.JacobianToCurve | src/crypto/ecdsa.c:218-234 | the affine coordinates are those of the point, fully reduced |
| JacobianAdd.TopQuotient | src/crypto/ecdsa.c:290-303 | the quotient bn_fast_mod takes is exact for a normalised difference |
| JacobianAdd.DoublingTest | src/crypto/ecdsa.c:290-303 | comparing the reduced difference with the prime finds equal abscissas, and only them |
| EllipticCurve.JacobianAddition | src/crypto/ecdsa.c:236-354 | cross-multiplied, the formulas of both branches give the affine sum |
| JacobianAdd.PointJacobianAdd | src/crypto/ecdsa.c:236-354 | for coordinates only partly reduced, the second point becomes the affine sum in Jacobian coordinates, in the doubling branch too, with all coordinates below 2 * prime |
| EllipticCurve.JacobianDoubling | src/crypto/ecdsa.c:356-422 | cross-multiplied, the doubling formulas give the affine double |
| JacobianDouble.PointJacobianDouble | src/crypto/ecdsa.c:356-422 | the point becomes its affine double in Jacobian coordinates, all coordinates below 2 * prime |
| SignedDigits.LeadingValue | src/crypto/ecdsa.c:425-551 | the value of the leading digits, which the left-to-right loop accumulates |
| SignedDigits.TrailingValue | src/crypto/ecdsa.c:557-644 | the value of the trailing digits, which the right-to-left loop accumulates |
| SignedDigits.RecodedValue | src/crypto/ecdsa.c:438-460 | the 64 odd digits add up to k when k is odd and to k minus the order when it is even, read from either end |
| SignedDigits.LeadingBelowOrder | src/crypto/ecdsa.c:425-551 | every value the left-to-right loop accumulates is not zero and smaller than the order |
| SignedDigits.LeadingNotMultiple | src/crypto/ecdsa.c:425-551 | so no accumulated point is the point at infinity |
| SignedDigits.TrailingNotMultiple | src/crypto/ecdsa.c:557-644 | the same for the right-to-left loop |
| Recoding.Recode | src/crypto/ecdsa.c:438-466 | the masked carry loop leaves the recoded scalar in nine normalised limbs and tells whether the scalar is zero |
| Recoding.WindowAcross | src/crypto/ecdsa.c:519-533 | a five-bit window that crosses a limb boundary is put together from the two limbs |
| Recoding.NextWindow | src/crypto/ecdsa.c:519-533 | the limb index, the limb and the shift together read window i of the scalar, and are ready for the next |
| Recoding.SignedWindow | src/crypto/ecdsa.c:533-536 | from five bits, sign and index of the odd digit, with magnitude at most 15 |
| Recoding.WindowDigit | src/crypto/ecdsa.c:495-536 | the five-bit window determines the digit at its place |
| Recoding.ShiftFour | src/crypto/ecdsa.c:620-627 | the limb shift divides the scalar by 16 |
| Orbit.Mirror | src/crypto/ecdsa.c:538-547 | changing the sign of the accumulated point changes the sign of the multiple |
| Orbit.NoHalfTurn | src/crypto/ecdsa.c:509-548 | an affine multiple has a nonzero ordinate, and its double is affine |
| WindowMultiply.OddMultiples | src/crypto/ecdsa.c:479-491 | the table holds the first eight odd multiples of the point |
| WindowMultiply.NegateZ | src/crypto/ecdsa.c:538-547 | negating z stands for the opposite point |
| WindowMultiply.LeftRound | src/crypto/ecdsa.c:509-545 | four doublings, a sign change and an addition take the accumulator from the leading digits i + 1 to the leading digits i |
| WindowMultiply.PointMultiply | src/crypto/ecdsa.c:425-551 | for every k below the order the result is the k-th multiple of the point, zero included |
| CombMultiply.CombRound | src/crypto/ecdsa.c:617-638 | one row of the table takes the accumulator from the trailing digits i to the trailing digits i + 1 |
| WindowMultiply.NegateY | src/crypto/ecdsa.c:632-640 | negating y stands for the opposite point |
| CombMultiply.ScalarMultiply | src/crypto/ecdsa.c:557-644 | for every k below the order the result is the k-th multiple of G |
| CombMultiply.BothAgree | src/crypto/ecdsa.c:425-644 | both multiplications of G leave the same limbs, whatever each of them draws at random |
| Secp256k1.Limbs | src/crypto/secp256k1.c:26-60 | the limbs of the prime, the order, its half and the generator have the standard values |
| Secp256k1.Parameters | src/crypto/secp256k1.c:26-63 | prime and order are in the range all theorems ask for, and the generator is a reduced point of the curve |
| Ecdsa.ComputeS | src/crypto/ecdsa.c:707-716 | the blinding factor cancels: s * k is z + r * d modulo the order |
| Ecdsa.ReduceAbscissa | src/crypto/ecdsa.c:694-700 | r is the abscissa modulo the order, and bit 1 of the recovery byte tells whether one subtraction was needed |
| Ecdsa.LowS | src/crypto/ecdsa.c:723-727 | s ends up below half the order, as s or as order minus s, and the recovery byte says which |
| Ecdsa.NonceRecovered | src/crypto/ecdsa.c:661-758 | z / s + (r / s) * d is the nonce |
| Ecdsa.Verifies | src/crypto/ecdsa.c:661-758 | the point z / s * G + r / s * Q of a signature has abscissa r modulo the order, and the recovery byte singles it out |
| Ecdsa.SignatureUnique | src/crypto/ecdsa.c:661-758 | nonce, digest and key admit one signature at most: r, s and the recovery byte are determined |
| Ecdsa.AcceptedNotRejected | src/crypto/ecdsa.c:677-748 | a nonce with a canonical signature is not one the loop has a reason to reject |
| NonceFitness.SignatureExists | src/crypto/ecdsa.c:694-727 | a nonce in range that leads to no zero has a low-s signature |
| NonceFitness.RejectedExactly | src/crypto/ecdsa.c:677-748 | a nonce is rejected if and only if it has no signature that the caller takes |
| Ecdsa.Attempt | src/crypto/ecdsa.c:677-748 | one attempt writes a signature for its nonce, or the nonce is unfit for a stated reason |
| Ecdsa.EcdsaSignDigest | src/crypto/ecdsa.c:661-758 | the result 0 comes with the canonical low-s signature for the nonce of the last attempt, which is the first nonce that is not rejected; -1 comes after 10000 rejected ones |
| DeterministicEcdsa.NonceIsCandidate | src/crypto/ecdsa.c:670-685 | nonce i is the candidate of the generator after i states |
| DeterministicEcdsa.SignDeterministic | src/crypto/ecdsa.c:661-758 | in the default build the signature is for the first candidate of the generator seeded with key and digest that is not rejected; for a digest below the order these are the candidates of section 3.2 of RFC 6979 |
| Streaming.Extend | src/crypto/sha2.c:879-910 | bytes that do not fill the buffer only extend the tail |
| Streaming.Complete | src/crypto/sha2.c:860-904 | bytes that fill the buffer add one block to those compressed |
| Streaming.AbsorbAppend | src/crypto/sha2.c:889-904 | compressing whole blocks one after the other is compressing their concatenation |
| Sha256.PaddingShortest | src/crypto/sha2.c:916-959 | the padding is the shortest one section 5.1.1 of FIPS 180-4 allows |
| Sha256.PaddingMeans | src/crypto/sha2.c:916-959 | for every length the padding is the byte 0x80, zeros, and the number of bits modulo 2^64 in eight bytes, most significant first |
| Sha256.PaddingInjective | src/crypto/sha2.c:916-959 | different messages stay different when they are padded, however long they are |
| Sha256.WordsBigEndian | src/crypto/sha2.c:878-904 | the words of a block are the big-endian numbers in each four of its bytes |
| Sha256.BytesBigEndian | src/crypto/sha2.c:961-975 | each four bytes of the digest are the big-endian number of a word of the state |
| Sha256.Sha256Ctx.constructor | src/crypto/sha2.c:688-696 | a fresh context stands for the empty message |
| Sha256.Sha256Ctx.Update | src/crypto/sha2.c:850-914 | the context stands for the message so far followed by the data: state, tail and count |
| Sha256.Sha256Ctx.Final | src/crypto/sha2.c:916-975 | the digest is that of the message padded with a one bit, zeros and its length in bits |
| Sha256.HashPieces | src/crypto/sha2.c:688-975 | the digest depends on the concatenation of the pieces alone |
| Sha3.RateAndDigest | src/crypto/sha3.c:46-54 | for the four lengths the block is whole words and the digest is shorter than the block |
| Sha3.PaddingFills | src/crypto/sha3.c:329-350 | the padding fills the last block, with at least one byte |
| Sha3.PaddingAt | src/crypto/sha3.c:329-350 | every byte of the padding: the domain bits in the first, 0x80 in the last, both in one if there is only one, zeros between |
| Sha3.PaddingInjective | src/crypto/sha3.c:329-382 | different messages stay different when they are padded with the same domain bits |
| Sha3.LaneRead | src/crypto/sha3.c:217-260 | the lane read from a block is the little-endian number in its eight bytes |
| Sha3.LaneWritten | src/crypto/sha3.c:345-350 | the eight bytes written for a lane are the lane as a little-endian number |
| Sha3.LaneByteDigit | src/crypto/sha3.c:345-350 | byte n written for a lane is its digit n in base 256 |
| Sha3.BlockBytes | src/crypto/sha3.c:217-260 | after a block has been added, each byte of the state is the XOR of what it was and the byte of the block; the bytes behind the block stay |
| Words.XorBits | src/crypto/sha3.c:220-237 | bit i of an XOR is one if and only if the bits i of its arguments differ |
| Words.AndBits | src/crypto/bignum.c:285-296 | bit i of an AND is one if and only if both bits i are |
| Words.OrBits | src/crypto/bignum.c:241-250 | bit i of an OR is one if and only if one of the bits i is |
| Sha3.Sha3Ctx.constructor | src/crypto/sha3.c:46-54 | a fresh context stands for the empty message |
| Sha3.Sha3Ctx.ProcessBlock | src/crypto/sha3.c:217-267 | the permutation is applied to a state whose bytes are those of the old state XORed with the bytes of the block |
| Sha3.Sha3Ctx.Update | src/crypto/sha3.c:279-321 | the context stands for the message so far followed by the data; a finalised one does not change |
| Sha3.Sha3Ctx.Sha3Final | src/crypto/sha3.c:329-351 | the digest is squeezed from the message padded with 0x06 first and 0x80 last; a context finalised before is squeezed again as it is |
| Sha3.Sha3Ctx.KeccakFinal | src/crypto/sha3.c:360-382 | the same with 0x01 first, also for a context finalised before |
| Sha3.HashPieces | src/crypto/sha3.c:46-382 | the digest depends on the concatenation of the pieces alone |
| Rfc2104.HashAfterBlock | src/crypto/hmac_drbg.c:28-92 | a hash can be continued from the chaining value of its first block |
| Words.XorSplit | src/crypto/hmac_drbg.c:70-84 | XOR works on the low bits and on the rest of two numbers independently |
| Rfc2104.XorWord | src/crypto/hmac_drbg.c:70-84 | XORing a word with a repeated byte XORs each of its bytes |
| HmacDrbg.HashWithoutData | src/crypto/hmac_drbg.c:35-40 | the block with byte 0 and the padding in place, and length 776, gives the inner hash of V followed by a zero byte |
| HmacDrbg.HmacDrbgCtx.UpdateK | src/crypto/hmac_drbg.c:28-87 | the chaining values become those of the key HMAC(K, V, domain, data), with domain 0 when there is no data, although no key is stored |
| HmacDrbg.HmacDrbgCtx.UpdateV | src/crypto/hmac_drbg.c:89-92 | two compressions on the padded V are HMAC(K, V), with the padding still in place |
| HmacDrbg.HmacDrbgCtx.constructor | src/crypto/hmac_drbg.c:94-116 | the context stands for the reseeded blank state, which is the instantiation of section 10.1.2.3 of NIST SP 800-90A whenever there is entropy or no nonce |
| HmacDrbg.HmacDrbgCtx.Reseed | src/crypto/hmac_drbg.c:118-127 | the context stands for the state after one or two rounds, which is the update of section 10.1.2.2 whenever there is entropy or no additional input |
| HmacDrbg.HmacDrbgCtx.Generate | src/crypto/hmac_drbg.c:129-146 | bytes and state afterwards are those of section 10.1.2.5, for every length |
| ReseedDeviation.ReseedConforms | src/crypto/hmac_drbg.c:118-127 | reseeding agrees with the standard for every compression function and state if and only if there is entropy or no additional input |
| Rfc6979.ReducedAlready | src/crypto/rfc6979.c:29-32 | the 32 bytes of the hash are those of the reduced hash if and only if the hash is below the order |
| Rfc6979.OctetsValue | src/crypto/rfc6979.c:29-32 | int2octets of section 2.3.3 of RFC 6979 is undone by the big-endian value |
| SeedDeviation.NoncesDiffer | src/crypto/rfc6979.c:29-37 | for any two different hashes there is a compression function under which seeds and first nonces differ |
| SeedDeviation.SeedConforms | src/crypto/rfc6979.c:29-37 | seeds agree with those of the RFC for every compression function and initial value if and only if the hash is below the order, and so do the nonces |
| SeedDeviation.HighDigest | src/crypto/rfc6979.c:29-37 | for the digest of 32 bytes 0xFF and the order of secp256k1 they do not |
| Rfc6979.StandardBelowOrder | src/crypto/rfc6979.c:29-46 | for a hash below the order every nonce is that of section 3.2 of RFC 6979 |
| Rfc6979.SeedsAlike | src/crypto/rfc6979.c:29-32 | steps b to g of section 3.2 of RFC 6979 are the instantiation of the generator with key and hash |
| Rfc6979.GeneratesCandidate | src/crypto/rfc6979.c:35-37 | 32 bytes of output are the next candidate, and the state afterwards is that of step h.3 |
| Rfc6979.GenerateK | src/crypto/rfc6979.c:41-46 | the number read is the candidate |
| Rfc6979.InitRfc6979 | src/crypto/rfc6979.c:29-32 | the generator starts in the state of step g |
| PbPack.PutVarint | src/pb_pack.c:28-69 | the varint is written, and nothing for zero; a short buffer gets the leading groups, the last of them with its continuation bit cleared |
| PbPack.CutWhole | src/pb_pack.c:51-68 | a buffer that is long enough cuts nothing off: the loop writes the varint |
| PbPack.EncodeVarint | src/pb_pack.c:97-105 | the varint is written, one byte for zero, and a short buffer gets what PutVarint leaves there |
| PbPack.EncodeHeader | src/pb_pack.c:107-122 | any field number from 1 to 0x1FFFFFFF outside 19000 .. 19999 and a type are written as a varint, cut off in a short buffer; any other 32-bit field number is an error |
| PbPack.VarintIsZero | src/pb_pack.c:7-26 | true exactly for a type byte of 0 and a value of 0, in as many bytes as declared |
| PbPack.PutValue | src/pb_pack.c:28-135 | the value of each type that is not an embedded message |
| PbPack.PutDelimited | src/pb_pack.c:124-135 | the length as a varint, then the bytes |
| PbPack.MoveUp | src/pb_pack.c:202-203 | overlapping bytes arrive unharmed |
| PbPack.MakeRoom | src/pb_pack.c:197-207 | a longer length pushes the child up and goes in front of it |
| PbPack.PackChild | src/pb_pack.c:183-216 | the child packed behind a gap of one byte ends up behind its length |
| PbPack.NeedDone | src/pb_pack.c:146-247 | without an error the packer touches exactly its result |
| PbPack.Next | src/pb_pack.c:158-244 | what is written so far followed by the encoding of the rest is the encoding of all |
| PbPack.Pack | src/pb_pack.c:146-247 | one pass in place returns the length and writes the bytes of the encoding that knows every length beforehand, returns its error code otherwise, refuses a buffer that is filled to the last byte, and touches nothing else |
| PbDecode.VarintReadBack | src/pb_pack.c:97-105 | reading undoes the varint and leaves what follows |
| PbDecode.CutReadBack | src/pb_pack.c:51-68 | a varint cut off after n groups is read back as the value modulo 128^n |
| PbDecode.NumberBytes | src/pb_pack.c:28-58 | the value written for a varint item is the number whose base-256 digits are its bytes, 1, 2, 4 or 8 as declared and 8 for a declared length of 0 |
| PbDecode.WrittenOnce | src/pb_pack.c:28-58 | those digits determine the number |
| PbDecode.AbsentEmpty | src/pb_pack.c:158-221 | an item leaves no bytes in the message if and only if its data are null and its type exists, its type is 3 or 4, or its type byte is 0 and all its declared bytes are 0 |
| PbDecode.PackSucceeds | src/pb_pack.c:146-247 | there is an encoding if and only if, down the whole tree, every type exists and every item that is not left out has a field number |
| PbDecode.StrayMisread | src/pb_pack.c:218-221 | a zero with a stray type byte cannot be read back, whatever follows |
| PbDecode.DecodesToItems | src/pb_pack.c:146-247 | a packed message is read back, down the whole tree, byte by byte and with nothing but those items left out, if and only if it holds no stray zero |
| PbDecode.FieldCount | src/pb_pack.c:146-247 | without stray zeros the message has exactly one field for each item that is not left out |
| PbDecode.StrayExample | src/pb_pack.c:218-221 | the message of the single byte 0x08 |
| JsonScan.TallyAgrees | src/jsmn.h:288-519 | a parse that succeeds returns what counting without tokens returns |
| JsonScan.TallySuffices | src/jsmn.h:288-519 | with as many tokens as were counted memory does not run out, with fewer the parse fails |
| JsonTree.IsHexDigit | src/jsmn.h:257-271 | exactly 22 characters count as hexadecimal digits |
| JsonTree.NumberIsWord | src/jsmn.h:137-198 | every number of section 6 of RFC 8259 is an unquoted value |
| JsonTree.LiteralsAreWords | src/jsmn.h:137-198 | and so are true, false and null |
| JsonLexemes.PrimitiveEndIs | src/jsmn.h:137-198 | an unquoted value goes on over the ASCII characters from 33 to 126 but for comma, colon and closing brackets, ends in front of white space, those or the end of the text, and any other character is an error |
| JsonLexemes.HexEndIs | src/jsmn.h:257-271 | up to four of those digits are passed, fewer at the end of the text; another character is an error |
| JsonLexemes.StringEndIs | src/jsmn.h:203-283 | a string ends at the quote behind the first string body; it is invalid exactly behind a body with a bad escape and partial exactly where the text ends before the quote |
| JsonTokens.SoundAppend | src/jsmn.h:302-335 | a new token under its superior keeps every token faithful to the text, starts increasing, spans apart or nested, and sizes equal to the number of children |
| JsonTokens.SoundClose | src/jsmn.h:374-405 | closing the last open token keeps them so |
| JsonTokens.OpenLast | src/jsmn.h:376-402 | the last open token is the top of the stack of open containers, and closing it pops the stack |
| JsonTokens.SizesPlaced | src/jsmn.h:316-330 | the sizes add up to the number of tokens created under another one |
| JsonRun.SoundRun | src/jsmn.h:288-519 | every run keeps all that, whatever it returns; after a success every token is closed and the value is their number |
| JsonRun.RunVerdict | src/jsmn.h:288-519 | the value of a run, error codes included, is that of a machine with an explicit stack of brackets |
| JsonRun.ContainersOnly | src/jsmn.h:440-447 | the scan behind a comma, which also looks at the kind, finds the innermost open token |
| JsonRun.Resume | src/jsmn.h:288-519 | a run that ran out of tokens, continued with more, ends as one that had them from the start |
| JsonRun.CountFirst | src/jsmn.h:288-519 | counting first and then parsing with that many tokens does not run out, and a success uses all of them |
| JsonParse.BodyEnds | src/jsmn.h:203-283 | the scan of a string of JSON stops at its closing quote |
| JsonParse.WordEnds | src/jsmn.h:137-198 | the scan of a number or literal stops at the first delimiter behind it |
| JsonParse.ElementsRun | src/jsmn.h:288-519 | from the first element of an array on, the run adds the tokens of all elements in order, counts them in the size of the array, and closes it |
| JsonParse.MembersRun | src/jsmn.h:288-519 | from the first member of an object on, the run adds each key, counted by the object, and below it the tokens of its value, and closes the object |
| JsonParse.ParseTree | src/jsmn.h:288-519 | the text of any JSON tree, with any white space and ended by its length or by a zero, is parsed to the tokens of the tree in preorder with their spans, the number of members or elements as sizes, and 1 for a key |
| JsonParse.CountTree | src/jsmn.h:288-519 | counting without tokens gives the number of nodes of the tree |
| Jsmn.Parser.constructor | src/jsmn.h:525-529 | a fresh parser |
| Jsmn.Parser.AllocToken | src/jsmn.h:106-121 | the next token, with neither span nor children, or none, and no other token changes |
| Jsmn.Parser.ParsePrimitive | src/jsmn.h:137-198 | up to the first delimiter or the end of the text; on an error nothing changes |
| Jsmn.Parser.ScanHex | src/jsmn.h:257-271 | up to four hexadecimal digits, fewer only at the end of the text |
| Jsmn.Parser.ParseString | src/jsmn.h:203-283 | up to the first quote that is not escaped; on an error nothing changes |
| Jsmn.Parser.OpenBracket | src/jsmn.h:302-335 | one more open token, counted by its superior and superior itself from now on |
| Jsmn.Parser.CloseBracket | src/jsmn.h:374-405 | the two backward scans close the innermost open container of the right kind and find the one around it |
| Jsmn.Parser.Separator | src/jsmn.h:422-452 | the superior token behind white space, colons and commas |
| Jsmn.Parser.Character | src/jsmn.h:295-507 | one character of the main loop is one step of the run |
| Jsmn.Parser.Parse | src/jsmn.h:288-519 | value, position, tokens and superior token are those of the run, from any state an earlier call left |
| Jsmn.Parser.Count | src/jsmn.h:288-519 | without an array of tokens the value is the number of tokens, or the error of a lexeme |

## Left out

- bn_inverse of a number congruent to zero: the source calls it illegal input; the model asks for a number coprime to the modulus.
- Associativity of the curve addition, primality of prime and order, and the 512 entries of the precomputed table: hypotheses, see above.
- The rounds of the SHA-256 compression and of the Keccak permutation: parameters. SHA-1 and SHA-512, which repeat the structure of SHA-256.
- generate_k_random and rand.c: a rejection loop over a random source; its result is a parameter in its range.
- The wiping of stack and context, claims about constant time, and the aligned path of sha3_Update, which differs from the other in memory traffic only.
- ecdsa_get_public_key65 and other users of scalar multiplication.
- Ecdsa.EcdsaSignDigest: the model passes the callback for canonical signatures as a function of its arguments; a callback with a memory of its own is not covered.
- ComboRegister.Combo.CountZeros: the methods of the register stand for passages of one long function of the source.
- BignumInverse.DivideByPower: whole words and the last bits are one method with a parameter here, two passages in the source.
- PbPack.Declared: an item whose data are shorter than its type says, or a varint of another width than 1, 2, 4 or 8 bytes, makes the source read beyond them; buffers smaller than the message make it write beyond them. Both are preconditions. Widths below eight bytes make the source copy eight bytes and use as many as declared; the model reads only those.
- PbPack.Pack: big-endian hosts; field numbers above 255, which do not fit an item; buffers of 2^31 bytes and more.
- Jsmn.Parser.Parse: texts of 2^31 characters and more, where positions no longer fit an int. For a text that is not JSON the superior token is specified by the rule of the source for each character only.
- JSMN_STRICT and JSMN_PARENT_LINKS, which the build does not define.
- parse.c and rule.c, which bind tokens to C structures through raw pointers; abi_pack.c, abi_read_contract.c, u128.c, endian_conv.c, signer.c, utils.c: short members with no interplay.
- request.c, response.c, config.c, iotex_emb.c: network and configuration.
- bn_format, bn_divmod58, bn_divmod1000, bn_digitcount, bn_bitcount, bn_xor, the bit accessors and the conversions from machine integers: not used for signing.
