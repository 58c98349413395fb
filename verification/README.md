# The arithmetic and the protocols of an AirPlay receiver

A model of the parts of the receiver that compute: the Ed25519 and X25519 arithmetic it signs and
agrees on keys with, SHA-512, AES-CTR and AES-CBC streaming, the pair-verify exchange, the binary
property-list codec, the reorder buffer for audio packets and the RTSP/HTTP head parser. Code that
updates state in the source is imperative here too: classes with the source's fields, arrays that
are rewritten in place, loops with invariants. Fixed-width integers are the newtypes of
`MachineInts`, so that every intermediate result is shown to fit its width.

Each routine is proved against an independent specification, and the main results are about that
specification or tie several routines together:

* scalar arithmetic modulo l is exact for every input;
* both recodings keep the value, so the double-scalar multiplication returns aA + bB and the comb
  returns aB, on points in limbs;
* decoding inverts encoding, and succeeds exactly for the points of the curve;
* the points of the curve are an abelian group, associativity included, and the formulas compute in it;
* signatures made by the one routine are accepted by the other, for every seed and message, and a
  signature is accepted only if its equation holds;
* limb arithmetic modulo p is exact, within the limb bounds that the callers reach, and the point
  formulas built on it satisfy the addition law of the curve;
* the two X25519 implementations compute the same function, although one swaps late on 255 bits
  and the other early on 256, and that function multiplies points: either way both sides of an
  exchange get the same secret;
* hashing in pieces is the SHA-512 of the standard on the whole, and the only digest that the standard
  allows; a CTR stream does not depend on how its input is split either;
* two honest sides of a pair-verify accept each other, whatever their random strings are;
* the property-list reader returns a tree exactly where one stands in the file, whoever wrote it;
  reading back a written list gives the same tree exactly under a condition on the tree;
* no reordering, loss or repetition makes the audio buffer lose track of a packet;
* the head parser accepts exactly a grammar, and parsing a printed request head gives the request back.

## Modules

| files | what they hold |
|---|---|
| MachineInts, Words32, Wrappers, AbelianGroup, FieldPrime | integer widths, bytes and bits, little- and big-endian numbers, masks; missing results; groups and their multiples; roots and inverses modulo p |
| ScalarModL | `sc.c` |
| FieldElement, FieldMul, FieldBytes, FieldOps | `fe.c` |
| Points, EdwardsSum, EdwardsLaw, EdwardsGroup, CurveGroup | `ge.c`: formulas, their completeness, the addition law, the group of points, and limbs that hold its elements |
| SlidingWindow, ScalarMult, CombMult, PointEncoding, PointCodes | `ge.c`: recodings, multiplications, encoding |
| Sha512Words, Sha512Block, Sha512Stream, Ed25519 | `sha512.c`, `keypair.c`, `sign.c`, `verify.c` |
| Sha512Standard, Sha512Constants | FIPS 180-4 as relations, and where its constants come from |
| X25519 | `key_exchange.c` |
| DonnaProduct, DonnaReduce, DonnaBytes, DonnaLadder, LadderAgreement | `curve25519-donna.c`, and its agreement with `key_exchange.c` |
| MontgomeryStep, LadderPoints, KeyAgreement | what the ladder means on the curve, and that both sides of an exchange agree |
| PlistLayout, PlistWriter, PlistParse, PlistReader, PlistRoundTrip | `plist.cpp` |
| PlistFormat, PlistExact | the format, byte by byte, and that the reader answers by it |
| AudioReorder | `ap_mirroring_audio_stream_service.cpp` |
| AesCtr, AesCbc, PairVerify | `aes_ctr.c`, `aes_cbc.c`, `ap_crypto.cpp` |
| HttpMessage | `xtxp_message.h`, `xtxp_message.cpp`, for requests |
| HttpGrammar | the grammar of request heads, and that the parser accepts just that |

`dafny verify dfyconfig.toml` checks all of it.

## What is trusted

* p is prime, as Fermat's little theorem (`FieldPrime.Fermat`). It is a hypothesis where elements are
  inverted, roots taken or points added. That the points of the curve are a group in which the
  formulas of section 5.1.4 of RFC 8032 add and double (`Curve.Laws`, `Curve.Bijective`) follows from
  it (`EdwardsGroup.CurveLaws`, `EdwardsGroup.CurveBijective`); members that are about any such group
  take the laws as a hypothesis, and `Ed25519` and `KeyAgreement` discharge it.
* For signatures: that lB = 0, and what the tables of precomp_data.h mean (`IsOddTable`, `IsComb`;
  third-party/ed25519/precomp_data.h:1 and :45). The exchange of curve25519-donna needs neither.
* For every key the block cipher permutes 16-byte blocks (`Cipher.Valid`). The numbers
  in `Sha512Constants.PRIMES` are the first eighty primes.
* Memory allocation succeeds, also for zero bytes; the host is little-endian with 64-bit `long`, and
  shifts of negative numbers are arithmetic.
* Sockets, keys and the contents of precomputed tables are parameters.

## Where the code and its documentation differ

* Section 5.1.3 of RFC 8032 rejects an encoding of x = 0 with the sign bit set, and a y of p or more;
  `ge_frombytes_negate_vartime` takes both, and so does the specification (`PointCodes.Opposite`).
* `ed25519_verify` tests the top three bits of s, where section 5.1.7 of RFC 8032 wants s < l. The
  model follows the code.
* `fe_add` and `fe_sub` document bounds of 1.1 * 2^25 on their operands; the point formulas go
  beyond them, up to 1.52 * 2^26, and stay within what `fe_mul` accepts.
* `ge_p2_dbl` computes E and G of section 5.1.4 of RFC 8032 with the opposite signs. The point is the same.
* A comment in `fcontract` says that the first borrow pass borrows at most 19 from limb 0. It can be
  57, because limb 9 may be as low as -2^26 - 1 by then (`DonnaBytes.BorrowsFiftySeven`); the bound
  that the code needs still holds, and the last borrow of limb 0 is never needed. `input[4] <<= 6`
  does not fit an s32; the model lets it wrap.
* `curve25519_donna` takes 256 bits of the scalar where RFC 7748 takes 255. The results agree.
* The sizing pass takes the width of the length of a dictionary from twice its size, the writer from its
  size. Where the widths differ (128 to 255 entries, for example) the file cannot be read back.
* A double is written in host order and read in network order.
* Where the property-list reader would read outside its buffer the model answers `Undefined`. What was
  written for a well-sized tree never leads there.
* `http_message_parser::parse` does not clear the content type of the request that it fills.
* SHA-512 counts bits modulo 2^64, the standard modulo 2^128.
* A short last block makes `AES_cbc_encrypt` read sixteen bytes when decrypting and write sixteen when
  encrypting, so the buffers must be that long.

## Model

| member | source | states |
|---|---|---|
| ScalarModL.Reduce | third-party/ed25519/sc.c:36-348 | for every 64-byte input the low 32 bytes become the residue modulo l, in [0, l); the upper 32 stay; no int64 operation overflows |
| ScalarModL.MulAdd | third-party/ed25519/sc.c:363-810 | for all 32-byte a, b, c the output is exactly (ab + c) mod l, also when it overlaps an input |
| ScalarModL.ReduceLimbs | third-party/ed25519/sc.c:79-314 | the folds and carries shared by both routines: any 24 limbs below 2^31 become twelve 21-bit digits of the residue |
| ScalarModL.FoldLimb | third-party/ed25519/sc.c:79-85 | folding limb k moves the weighted sum by a multiple of l and touches exactly six lower limbs |
| ScalarModL.CarryRounded | third-party/ed25519/sc.c:121-123 | a rounded carry keeps the weighted sum and leaves a limb in [-2^20, 2^20) |
| ScalarModL.CarryFloor | third-party/ed25519/sc.c:239-241 | a floor carry keeps the weighted sum and leaves a limb in [0, 2^21) |
| ScalarModL.FoldLast | third-party/ed25519/sc.c:232-314 | after the rounded carries two folds with floor carries end in [0, l): the second fold only ever adds l or nothing |
| ScalarModL.AddIfNegative | third-party/ed25519/sc.c:275-314 | the second fold adds l exactly when the value is negative |
| ScalarModL.Multiply | third-party/ed25519/sc.c:448-471 | the 23 column sums weigh ab + c and fit the width of the later carries |
| ScalarModL.WideValue | third-party/ed25519/sc.c:37-60 | the 24 masked windows of 64 bytes tile the number they spell |
| ScalarModL.PackedValue | third-party/ed25519/sc.c:316-347 | the 32 bytes written spell the value of the twelve digits |
| SlidingWindow.Slide | third-party/ed25519/ge.c:25-58 | the signed-digit recoding keeps the value of every number below 2^255; every nonzero digit is odd and at most 15 in magnitude; only larger numbers can lose a carry off index 255, and then exactly 2^256 |
| SlidingWindow.Carry | third-party/ed25519/ge.c:44-51 | the carry loop is binary addition; it runs off the end exactly when all higher bits are ones |
| SlidingWindow.Absorb | third-party/ed25519/ge.c:38-40 | absorbing a bit into the window keeps the scan invariant, value included |
| SlidingWindow.Borrow | third-party/ed25519/ge.c:41-51 | borrowing keeps the scan invariant, up to 2^256 if the carry is lost |
| SlidingWindow.BreakLate | third-party/ed25519/ge.c:52-54 | the loop can only break at window width 5 or 6 |
| SlidingWindow.RunOff | third-party/ed25519/ge.c:44-51 | a lost carry implies a number of at least 2^255 |
| SlidingWindow.BitsValue | third-party/ed25519/ge.c:30-32 | the bits spread over r stand for the scalar |
| FieldMul.ProductValue | third-party/ed25519/fe.c:557-766 | the ten columns of products stand for f g modulo p |
| FieldMul.SquareColumns | third-party/ed25519/fe.c:983-1128 | the 55 products of squaring give the columns of multiplying by oneself |
| FieldMul.CarryTwelve | third-party/ed25519/fe.c:713-754 | the twelve carries keep the value modulo p and bring limbs within 1.01 * 2^25 and 1.01 * 2^24 |
| FieldMul.Mul | third-party/ed25519/fe.c:557-766 | for limbs within 1.65 * 2^26 and 1.65 * 2^25: f g modulo p in tight limbs, without overflow, aliasing allowed |
| FieldMul.Sq | third-party/ed25519/fe.c:983-1128 | the same for f f |
| FieldMul.Sq2 | third-party/ed25519/fe.c:1146-1301 | the same for 2 f f |
| FieldBytes.Mul121666 | third-party/ed25519/fe.c:780-834 | 121666 f modulo p in tight limbs |
| FieldBytes.FromBytes | third-party/ed25519/fe.c:298-361 | the low 255 bits as an element, in tight limbs |
| FieldBytes.QuotientByP | third-party/ed25519/fe.c:1409-1419 | the chained shifts give floor(h / p) for every h within 1.1 * 2^26 and 1.1 * 2^25 |
| FieldBytes.ToBytes | third-party/ed25519/fe.c:1387-1492 | the bytes spell the unique representative in [0, p) |
| FieldBytes.Reencode | third-party/ed25519/fe.c:298-361 | reading and writing gives the same bytes if and only if they spell a number below p |
| FieldBytes.Rereduce | third-party/ed25519/fe.c:1387-1492 | writing and reading keeps the value modulo p |
| FieldBytes.IsNegative | third-party/ed25519/fe.c:461-467 | the last bit of the residue |
| FieldBytes.IsNonzero | third-party/ed25519/fe.c:479-521 | 1 exactly for elements other than 0 |
| FieldOps.Add | third-party/ed25519/fe.c:82-124 | the sum, for any bounds that fit an int32 |
| FieldOps.Sub | third-party/ed25519/fe.c:1316-1358 | the difference |
| FieldOps.Cswap | third-party/ed25519/fe.c:198-260 | the masked exclusive ors exchange the two elements exactly for b == 1 |
| FieldOps.SqMany | third-party/ed25519/fe.c:393-397 | n squarings raise to the power 2^n |
| FieldOps.Invert | third-party/ed25519/fe.c:365-449 | the chain of squarings and products is z^(p-2) |
| FieldOps.Cmov | third-party/ed25519/fe.c:135-189 | the masked exclusive ors replace the element exactly for b == 1 |
| FieldOps.Neg | third-party/ed25519/fe.c:847-879 | the negative, in the same bounds |
| FieldOps.Pow22523 | third-party/ed25519/fe.c:882-965 | the chain of squarings and products is z^((p-5)/8) |
| Points.CurveConstants | third-party/ed25519/ge.c:133-139 | the limbs of d are -121665/121666 modulo p |
| Points.GeAdd | third-party/ed25519/ge.c:9-22 | E, F, G and H of section 5.1.4 of RFC 8032, in limbs that fe_mul accepts |
| Points.GeSub | third-party/ed25519/ge.c:441-455 | the same for -Q |
| Points.GeMadd | third-party/ed25519/ge.c:188-200 | the same for a precomputed point with Z = 1 |
| Points.GeMsub | third-party/ed25519/ge.c:207-220 | the same for its negative |
| Points.GeDouble | third-party/ed25519/ge.c:259-271 | the doubling formula with the signs of E and G flipped, in limbs that fe_mul accepts |
| Points.ToP3 | third-party/ed25519/ge.c:239-244 | the four products, in tight limbs, with XY = ZT |
| Points.ToCached | third-party/ed25519/ge.c:302-307 | Y+X, Y-X, Z and 2dT |
| Points.AdditionLaw | third-party/ed25519/ge.c:9-22 | on extended points the formulas satisfy the addition law of the curve in cross-multiplied form |
| Points.DoublingLaw | third-party/ed25519/ge.c:259-271 | on the curve the doubling formula adds a point to itself |
| EdwardsSum.Complete | third-party/ed25519/ge.c:9-22 | for any two points of the curve neither denominator of the addition law is 0, because d is not a square |
| EdwardsSum.AdditionLaw | third-party/ed25519/ge.c:9-22 | the formulas give the coordinates of the sum as quotients, nothing divided by 0, for any two points |
| EdwardsSum.DoublingLaw | third-party/ed25519/ge.c:259-271 | the doubling formula gives the sum of a point with itself in the same sense |
| EdwardsLaw.Closed | third-party/ed25519/ge.c:9-22 | the sum of two points of the curve is a point of the curve |
| EdwardsLaw.FractionsMeet | third-party/ed25519/ge.c:9-22 | written as fractions, (p + q) + r and p + (q + r) are the same for any three points of the curve |
| EdwardsLaw.Associative | third-party/ed25519/ge.c:9-22 | so the addition law is associative |
| EdwardsGroup.ParameterNonSquare | third-party/ed25519/ge.c:133-135 | d is not a square modulo p |
| EdwardsGroup.GroupOfPoints | third-party/ed25519/ge.c:9-22 | the points with coordinates below p are an abelian group under the addition law |
| EdwardsGroup.AddsPoints | third-party/ed25519/ge.c:9-22 | whatever coordinates stand for two elements, the addition formulas give coordinates of their sum |
| EdwardsGroup.DoublesPoints | third-party/ed25519/ge.c:259-271 | and the doubling formula coordinates of the double |
| EdwardsGroup.CurveLaws | third-party/ed25519/ge.c:9-22 | everything that the scalar multiplications assume of the group and the formulas holds of edwards25519 |
| EdwardsGroup.CurveBijective | third-party/ed25519/ge.c:302-307 | every point of the curve stands for exactly one element, and each element has coordinates |
| Points.SumOfNegatives | third-party/ed25519/ge.c:259-271 | flipping the signs leaves the point where it is |
| Points.Add3 | third-party/ed25519/ge.c:80-81 | addition and conversion in a row: bounds hold, XY = ZT holds and the result is the sum |
| Points.Sub3 | third-party/ed25519/ge.c:115-118 | the same for subtraction |
| Points.Double3 | third-party/ed25519/ge.c:78-79 | the same for doubling |
| CurveGroup.Double | third-party/ed25519/ge.c:259-271 | doubles the group element that the structure holds |
| CurveGroup.Convert | third-party/ed25519/ge.c:227-244 | the completed form holds the same element in tight limbs |
| CurveGroup.AddCached | third-party/ed25519/ge.c:9-22 | the sum of the elements held, for cached and for precomputed points |
| CurveGroup.SubCached | third-party/ed25519/ge.c:441-455 | the difference |
| ScalarMult.MakeTable | third-party/ed25519/ge.c:77-100 | the eight structures hold the odd multiples A, 3A, ..., 15A |
| ScalarMult.Entry | third-party/ed25519/ge.c:112-126 | a nonzero digit d of the recoding finds |d| A at index |d| / 2, which is in 0..7 |
| ScalarMult.Top | third-party/ed25519/ge.c:103-107 | the loop starts at the highest position where either recoding has a digit |
| ScalarMult.HornerStep | third-party/ed25519/ge.c:109-129 | one doubling and two digits are one step of Horner's rule for both scalars |
| ScalarMult.Round | third-party/ed25519/ge.c:109-129 | one round on limbs: double, then add or subtract the entries of both digits |
| ScalarMult.DoubleScalarMult | third-party/ed25519/ge.c:67-130 | the limbs returned hold aA + bB for all a, b below 2^255 (and what they hold for larger ones) |
| CombMult.Recode | third-party/ed25519/ge.c:394-411 | the radix-16 digits lie in -8..8 and keep the value |
| CombMult.Equal | third-party/ed25519/ge.c:333-341 | 1 exactly when the bytes are equal |
| CombMult.Magnitude | third-party/ed25519/ge.c:359-359 | subtracting twice the masked digit gives its magnitude |
| CombMult.ScanStep | third-party/ed25519/ge.c:363-370 | before and after each cmov the structure holds the entry found so far, or the neutral element |
| CombMult.Minus | third-party/ed25519/ge.c:371-373 | swapping y + x and y - x and negating 2dxy negates the element |
| CombMult.Select | third-party/ed25519/ge.c:356-375 | the constant-time scan leaves limbs that hold b * 256^pos * B, for every digit b |
| CombMult.Sixteenfold | third-party/ed25519/ge.c:420-427 | four doublings and conversions multiply by 16 |
| CombMult.ScalarMultBase | third-party/ed25519/ge.c:386-434 | the limbs hold aB for every a with a[31] <= 127: odd digits, times 16, then even digits make the whole sum |
| PointEncoding.RootOfMinusOne | third-party/ed25519/ge.c:137-139 | the limbs of sqrtm1 square to -1 modulo p |
| PointEncoding.ToBytes | third-party/ed25519/ge.c:321-330 | y / z below p, and the last bit of x / z on top |
| PointEncoding.TrialFinds | third-party/ed25519/ge.c:152-173 | if v x^2 == u has a root, the candidate or its product with sqrtm1 is x or -x |
| PointEncoding.DecodableIff | third-party/ed25519/ge.c:141-181 | decoding succeeds if and only if some x makes (x, y) a point of the curve |
| PointEncoding.FromBytesNegate | third-party/ed25519/ge.c:141-181 | success, and the coordinates that result, for all 32 bytes; bounds hold throughout |
| PointEncoding.CandidateFinds | third-party/ed25519/ge.c:152-173 | for the y of every curve point decoding succeeds and finds x or -x |
| PointCodes.CodeUnique | third-party/ed25519/ge.c:321-330 | the bytes depend on the group element only, not on the coordinates that hold it |
| PointCodes.NegatedUnique | third-party/ed25519/ge.c:141-181 | 32 bytes encode at most one point: its y, and an x with the sign of the top bit unless x = 0 |
| PointCodes.NegatedIsDecodable | third-party/ed25519/ge.c:152-173 | decoding succeeds wherever there is such a point |
| PointCodes.DecodedIsNegated | third-party/ed25519/ge.c:175-181 | and what decoding leaves is its negative, whichever root was found |
| PointCodes.CodeDecodes | third-party/ed25519/ge.c:141-181 | decode-and-negate inverts encode, for every group element |
| PointCodes.Encode | third-party/ed25519/ge.c:321-330 | from limbs that hold g, the bytes of g |
| PointCodes.Decode | third-party/ed25519/ge.c:141-181 | limbs that hold the negative of what the bytes encode, or -1 if they encode nothing |
| Sha512Block.Words.Compress | third-party/ed25519/sha512.c:92-140 | the eight-way unrolled rounds, whose macro renames registers, compute the hash step over any words; `Sha512Standard.HashStepIs` says that it is that of section 6.4.2 of FIPS 180-4 |
| Sha512Block.Words.RndRound | third-party/ed25519/sha512.c:112-128 | the two registers that the macro changes are the only ones that a round of the standard computes; the rest is renaming |
| Sha512Block.Words.FillSchedule | third-party/ed25519/sha512.c:102-110 | the 80 schedule words |
| Sha512Stream.Context.Update | third-party/ed25519/sha512.c:172-211 | after any sequence of calls the context stands for the concatenation of the inputs |
| Sha512Stream.Context.Final | third-party/ed25519/sha512.c:219-266 | the digest depends on the concatenation only: it is that of the padded message |
| Sha512Stream.PaddingIsStandard | third-party/ed25519/sha512.c:230-257 | below 2^64 bits the padding is that of section 5.1.2 of FIPS 180-4 |
| Sha512Words.ChIsChoice | third-party/ed25519/sha512.c:79 | the shortened Ch is the bitwise choice |
| Sha512Words.MajIsMajority | third-party/ed25519/sha512.c:80 | the shortened Maj is the bitwise majority |
| Sha512Words.RorRotates | third-party/ed25519/sha512.c:62-64 | ROR64c rotates by each of the ten amounts used |
| Sha512Words.LoadsBigEndian | third-party/ed25519/sha512.c:71-75 | LOAD64H reads eight bytes as a big-endian word |
| Sha512Words.WordsAgree | third-party/ed25519/sha512.c:62-89 | the macros and the functions of section 4.1.3 of FIPS 180-4 agree on every word |
| Sha512Words.Compress | third-party/ed25519/sha512.c:92-140 | with the macros of the source, one block is the hash step over the functions of the standard |
| Sha512Words.Sha512IsStandard | third-party/ed25519/sha512.c:268-277 | below 2^64 bits the digest is that of section 6.4 of FIPS 180-4 |
| Sha512Standard.RoundIs | third-party/ed25519/sha512.c:112-116 | a round of section 6.4.2 of FIPS 180-4, written as sums of words (h, Sigma1(e), Ch(e, f, g), the constant and the schedule word for T1; Sigma0(a) and Maj(a, b, c) for T2), is what the macro computes and nothing else is |
| Sha512Standard.HashStepIs | third-party/ed25519/sha512.c:92-140 | a schedule, eighty rounds and the final sums lead from one hash value to another exactly if the compression function does |
| Sha512Standard.PaddedUnique | third-party/ed25519/sha512.c:230-257 | a message has one padding: a one bit, zeros, and its bit length in sixteen bytes, no block too many |
| Sha512Standard.DigestIs | third-party/ed25519/sha512.c:145-277 | below 2^64 bits the bytes computed are a digest in the sense of sections 5.1.2 and 6.4 of FIPS 180-4, stated as relations without the functions of the model, and no others are |
| Sha512Constants.ConstantsAre | third-party/ed25519/sha512.c:17-58 | every K is the first 64 bits of the fractional part of the cube root of its prime, by integer inequalities |
| Sha512Constants.InitialIs | third-party/ed25519/sha512.c:153-160 | every initial hash word is that of the square root of its prime |
| Sha512Words.Hash | third-party/ed25519/sha512.c:268-277 | one update gives the digest of the message, for every message |
| Sha512Words.HashThree | third-party/ed25519/sign.c:23-27 | three updates hash the concatenation |
| Ed25519.Sign | third-party/ed25519/sign.c:7-31 | the signature encodes rB and holds s = (ka + r) mod l, r and k being the reduced hashes that section 5.1.6 of RFC 8032 prescribes |
| Ed25519.ConsttimeEqual | third-party/ed25519/verify.c:6-45 | 1 exactly when the 32 bytes are equal |
| Clamping.ClampedScalar | third-party/ed25519/keypair.c:10-12 | the clamped bytes stand for 2^254 + 8 ((n / 8) mod 2^251): a multiple of 8 in [2^254, 2^255) |
| Clamping.ScalarBits | third-party/ed25519/keypair.c:10-12 | bits 3 to 253 stay, bits 0 to 2 and 255 are clear, bit 254 is set |
| Clamping.Clamp | third-party/ed25519/keypair.c:10-12 | the three masks leave the clamped scalar in the first 32 bytes and every byte but the first and the last of them as it was |
| Ed25519.GroupEquation | third-party/ed25519/verify.c:68-70 | k(-A) + sB == rB although the clamped key is not reduced modulo l, because lB = 0 |
| Ed25519.CreateKeypair | third-party/ed25519/keypair.c:6-16 | the private key is the hash of the seed with its first half replaced by the scalar 2^254 + 8 ((n / 8) mod 2^251); the public key encodes that multiple of B |
| Ed25519.PublicKey | third-party/ed25519/keypair.c:14-15 | from 32 bytes to the encoded multiple of B, all on limbs |
| Ed25519.Checker | third-party/ed25519/verify.c:69-70 | the bytes of kA + sB, all on limbs |
| Ed25519.Verify | third-party/ed25519/verify.c:47-77 | answers 1 if and only if the top three bits of s are clear, the key decodes, to -A, and some R with the code sig[..32] has sB == R + kA, k being the reduced hash of R, A and the message |
| Ed25519.AcceptsPoint | third-party/ed25519/verify.c:53-74 | for a first half that encodes R the comparison of encodings is the equation sB == R + kA, because different elements have different codes |
| Ed25519.SecondHalf | third-party/ed25519/verify.c:53-74 | rejection: of two signatures of a message with the same first half both are accepted only if (s - t)B is zero |
| Ed25519.CodeInjective | third-party/ed25519/ge.c:321-330 | different group elements have different bytes |
| Ed25519.SignaturesAreAccepted | third-party/ed25519/verify.c:47-77 | every signature made with a matching pair is accepted, including that s < l passes the test of signature[63] |
| Ed25519.RoundTrip | third-party/ed25519/sign.c:7-31 | key generation, signing and verification in a row, down to the limbs, answer 1 for every seed and message |
| LittleEndian.BitOfBytes | third-party/ed25519/key_exchange.c:45-46 | e[t / 8] >> (t & 7) & 1 is bit t of the scalar |
| X25519.NamedProducts | third-party/ed25519/key_exchange.c:53-70 | 121666 E + BB equals 121665 E + AA, so the step is that of section 5 of RFC 7748 |
| X25519.Registers.LadderStep | third-party/ed25519/key_exchange.c:53-70 | one round computes the RFC's step, every limb within bounds |
| X25519.RunLadder | third-party/ed25519/key_exchange.c:38-74 | the ladder with deferred swaps computes the ladder with eager swaps, for every scalar |
| X25519.ToMontgomery | third-party/ed25519/key_exchange.c:29-36 | u = (1 + y) / (1 - y), dividing by the power p - 2 |
| X25519.KeyExchange | third-party/ed25519/key_exchange.c:4-79 | the secret is the canonical encoding of the RFC's function of the converted key and the scalar 2^254 + 8 ((n / 8) mod 2^251) |
| DonnaProduct.DiagonalFolds | third-party/curve25519/curve25519-donna.c:98-237 | nineteen long limbs with the upper nine folded in 19-fold are the columns of the product modulo p |
| DonnaReduce.Product | third-party/curve25519/curve25519-donna.c:98-199 | each long limb is the sum of its weighted pairs, below 14 * 2^54, and no cast to s32 loses a bit |
| DonnaReduce.SquareInner | third-party/curve25519/curve25519-donna.c:344-400 | the shortened sums are those of multiplying by oneself |
| DonnaReduce.DivBy26 | third-party/curve25519/curve25519-donna.c:246-257 | the shifts divide every int64 truncating toward zero |
| DonnaReduce.DivBy25 | third-party/curve25519/curve25519-donna.c:262-273 | the same for 2^25 |
| DonnaReduce.ReduceDegree | third-party/curve25519/curve25519-donna.c:205-237 | the lower limbs gain 19 times the upper ones, without overflow |
| DonnaReduce.DegreeReduced | third-party/curve25519/curve25519-donna.c:205-237 | so the ten limbs stand for the product modulo p |
| DonnaReduce.ReduceCoefficients | third-party/curve25519/curve25519-donna.c:278-319 | limbs up to 280 * 2^54 come below 2^26, the value modulo p unchanged, without overflow |
| DonnaReduce.Mul | third-party/curve25519/curve25519-donna.c:327-336 | limbs below 2^27 give the product modulo p in limbs below 2^26 |
| DonnaReduce.Square | third-party/curve25519/curve25519-donna.c:409-420 | the same for the square |
| DonnaReduce.Sum | third-party/curve25519/curve25519-donna.c:67-73 | the sum, in limbs below 2^27 |
| DonnaReduce.Difference | third-party/curve25519/curve25519-donna.c:77-82 | the difference, operands in the order of the source |
| DonnaReduce.Scaled | third-party/curve25519/curve25519-donna.c:85-90 | 121665 times the element, in limbs below 2^26 |
| DonnaBytes.FieldsWeigh | third-party/curve25519/curve25519-donna.c:423-441 | the ten masked fields tile the low 255 bits |
| DonnaBytes.Expand | third-party/curve25519/curve25519-donna.c:423-441 | reads the low 255 bits into limbs of 26 and 25 bits |
| DonnaBytes.BorrowPass | third-party/curve25519/curve25519-donna.c:483-506 | what every limb is after the pass; one pass leaves only limb 0 negative, by at most 57; another leaves none; the value modulo p stays |
| DonnaBytes.BorrowsFiftySeven | third-party/curve25519/curve25519-donna.c:494-505 | there are limbs from which the first pass leaves limb 0 at -57 |
| DonnaBytes.MakePositive | third-party/curve25519/curve25519-donna.c:482-530 | two borrow passes always suffice; the extra borrow of limb 0 has nothing to do |
| DonnaBytes.MakeReduced | third-party/curve25519/curve25519-donna.c:534-552 | two carry passes always suffice to bring every limb to its width |
| DonnaBytes.AtLeastPIs | third-party/curve25519/curve25519-donna.c:561-571 | the number is at least p exactly when limbs 1 to 9 are full and limb 0 is at least 0x3ffffed |
| DonnaBytes.SubtractP | third-party/curve25519/curve25519-donna.c:573-583 | subtracts p exactly from p up |
| Words32.ShiftsGather | third-party/curve25519/curve25519-donna.c:448-456 | five shifted conjunctions bring the conjunction of all 32 bits into the sign |
| DonnaBytes.Equal | third-party/curve25519/curve25519-donna.c:448-456 | the shifts of s32_eq give all ones exactly for equal words |
| DonnaBytes.BytesOfWrapped | third-party/curve25519/curve25519-donna.c:585-597 | a shifted limb that wraps around in 32 bits still has the right four bytes |
| DonnaBytes.Contract | third-party/curve25519/curve25519-donna.c:470-611 | from any limbs below 2^26 in magnitude the bytes spell the representative in [0, p) |
| DonnaLadder.Pairs.Step | third-party/curve25519/curve25519-donna.c:624-697 | one step of section 5 of RFC 7748, limbs below 2^26 before and after |
| DonnaLadder.SwapConditional | third-party/curve25519/curve25519-donna.c:708-718 | the masked exclusive ors exchange the two elements exactly for iswap == 1 |
| Words32.MaskSelects | third-party/curve25519/curve25519-donna.c:711-716 | exclusive or with the masked difference exchanges two words for 1 and keeps them for 0 |
| DonnaLadder.LadderByte | third-party/curve25519/curve25519-donna.c:737-765 | eight steps, high bit first, bring the exchanged buffers back where they were |
| DonnaLadder.Multiply | third-party/curve25519/curve25519-donna.c:725-770 | the eager ladder on all 256 bits, for every scalar |
| DonnaLadder.Recip | third-party/curve25519/curve25519-donna.c:775-840 | z^(2^255 - 21) |
| DonnaLadder.Donna | third-party/curve25519/curve25519-donna.c:844-863 | the canonical bytes of x2 / z2 after the 256-bit ladder on the scalar 2^254 + 8 ((n / 8) mod 2^251) |
| LadderAgreement.LadderScaled | third-party/curve25519/curve25519-donna.c:725-770 | with bit 255 clear the extra step only scales one point, by 4u |
| LadderAgreement.ZeroLadder | third-party/curve25519/curve25519-donna.c:725-770 | for u = 0 the ladder ends with z = 0, whatever the scalar |
| LadderAgreement.SameResult | third-party/curve25519/curve25519-donna.c:844-863 | curve25519-donna computes the function of RFC 7748 for every u |
| LadderAgreement.Agree | third-party/ed25519/key_exchange.c:4-79 | both implementations give the same 32 bytes for the same key in Edwards and in Montgomery form |
| MontgomeryStep.StepDoubles | third-party/ed25519/key_exchange.c:53-70 | the first half of the step doubles a curve point, read through u = (1 + y) / (1 - y) |
| MontgomeryStep.StepAdds | third-party/ed25519/key_exchange.c:53-70 | the second half adds two points whose difference has the coordinate x1 |
| LadderPoints.LadderReads | third-party/ed25519/key_exchange.c:38-74 | after any number of bits the ladder holds the coordinates of mB and (m + 1)B for the bits m looked at |
| LadderPoints.ResultIsMultiple | third-party/ed25519/key_exchange.c:38-79 | on the coordinate of B, u = 0 included, the function gives the coordinate of the multiple of B |
| LadderPoints.Exchanged | third-party/ed25519/key_exchange.c:4-79 | two scalars can be applied in either order |
| KeyAgreement.SecretsAgree | src/crypto/ap_crypto.cpp:34-81 | for any two private keys, from p being prime alone, both sides of a curve25519-donna exchange get the same 32 bytes |
| KeyAgreement.DonnaExchange | src/crypto/ap_crypto.cpp:34-81 | the same of the four calls |
| KeyAgreement.EncodedCoordinate | third-party/ed25519/key_exchange.c:29-36 | converting an encoded point gives its Montgomery coordinate |
| KeyAgreement.EdwardsExchange | third-party/ed25519/key_exchange.c:4-79 | key generation and key exchange on both sides give the same 32 bytes, for any two seeds |
| PlistLayout.ObjectsAreRefs | src/utils/plist.cpp:204-262 | objects are references plus one |
| PlistLayout.BytesAreBody | src/utils/plist.cpp:204-262 | the bytes written are the bytes sized plus refs * reflen, less the excess of mis-sized dictionaries |
| PlistLayout.EncodedLength | src/utils/plist.cpp:977-985 | the length of the file as the sizing pass predicts it |
| PlistWriter.Sizes.Analyze | src/utils/plist.cpp:204-262 | the three counters grow by objects, bytes and references of the tree |
| PlistWriter.Writer.SerializeString | src/utils/plist.cpp:264-284 | a string object and its offset, nothing else in either buffer |
| PlistWriter.Writer.SerializeObject | src/utils/plist.cpp:286-378 | preorder ids, interleaved keys and values, reserved reference slots: both buffers hold the layout of the tree and nothing else changed |
| PlistWriter.ToBplist | src/utils/plist.cpp:962-1022 | header, objects, offset table and trailer; the allocated buffer is exactly filled up |
| PlistReader.ReadObject | src/utils/plist.cpp:380-630 | on every input: a tree comes back only where it stands in the file in the sense of `PlistFormat.Stands`, always where it does, and the answer is undefined only if some number in the file has a width that the code shifts or reads out of bounds for |
| PlistReader.ReadBplist | src/utils/plist.cpp:918-960 | the same from the trailer on |
| PlistParse.MoreFuel | src/utils/plist.cpp:380-630 | where the recursion ends within a bound, a larger bound changes nothing |
| PlistExact.HeadIs | src/utils/plist.cpp:388-420 | the length and the start of the payload, for lengths in the type byte and behind it |
| PlistExact.LeafExact | src/utils/plist.cpp:429-511 | for each of the kinds without references the answer is a tree if and only if its bytes stand there: numbers, doubles, dates, data, strings and unicode strings |
| PlistExact.Sound | src/utils/plist.cpp:380-630 | what the reader returns stands in the file, children through references in any order, shared or not |
| PlistExact.Found | src/utils/plist.cpp:380-630 | a tree that stands in the file is returned, with no more depth than it has objects |
| PlistExact.StandsUnique | src/utils/plist.cpp:380-630 | at most one tree stands in a place |
| PlistExact.Exact | src/utils/plist.cpp:380-630 | so the answer is the tree exactly where one stands |
| PlistExact.DefinedUnlessWild | src/utils/plist.cpp:431-452 | the answer is defined unless a number of the file is wild |
| PlistExact.ExactlyOne | src/utils/plist.cpp:380-630 | in a file without cycles and wild numbers the answer is the tree that stands there, or null, and never anything else |
| PlistExact.FileExact | src/utils/plist.cpp:918-960 | the same for whole files, from the fields of the trailer |
| PlistRoundTrip.IntComesBack | src/utils/plist.cpp:70-160 | every int64 comes back from the width integer_length gives it |
| PlistRoundTrip.ObjectComesBack | src/utils/plist.cpp:380-630 | an object laid out at its offset is read back, children found through reference and offset |
| PlistRoundTrip.MisSizedFails | src/utils/plist.cpp:243-249 | a tree with a mis-sized dictionary is not read back at all |
| PlistRoundTrip.NoExcess | src/utils/plist.cpp:243-249 | the passes agree exactly when integer_length(2n) == integer_length(n) for every dictionary of 15 or more entries |
| PlistRoundTrip.ImageIsSame | src/utils/plist.cpp:286-306 | what comes back is the tree itself exactly when it has no null child and no double that byte reversal changes |
| PlistRoundTrip.RoundTrip | src/utils/plist.cpp:918-1022 | reading what was written gives the same tree if and only if every dictionary is well-sized, no child is null and every double is symmetric |
| PlistRoundTrip.EncodedStands | src/utils/plist.cpp:962-1022 | under the same condition, and no other, the tree stands in the file that the writer makes |
| PlistRoundTrip.BigDictionaryIsLost | src/utils/plist.cpp:243-249 | a dictionary of 128 entries does not come back |
| PlistRoundTrip.NullChildIsLost | src/utils/plist.cpp:286-306 | an array with a null child does not come back |
| PlistRoundTrip.OneIsLost | src/utils/plist.cpp:300-306 | the double 1.0 does not come back |
| PlistRoundTrip.WriteThenRead | src/utils/plist.cpp:918-1022 | the same of the two imperative routines in a row |
| AudioReorder.AudioStream.DataHandler | src/service/ap_mirroring_audio_stream_service.cpp:139-187 | what one datagram does to expected number, queue and deliveries; every packet is delivered, cached, late or dropped at a flush; at most ten wait, and a packet is dropped exactly when ten wait and it comes ahead of its turn; the current run is consecutive |
| AudioReorder.AudioStream.ProcessCached | src/service/ap_mirroring_audio_stream_service.cpp:241-253 | without flush: takes exactly the consecutive numbers off the queue; with flush: hands on the whole queue in order |
| AudioReorder.AudioStream.CachePacket | src/service/ap_mirroring_audio_stream_service.cpp:234-239 | the packet joins the queue |
| AudioReorder.RunGrows | src/service/ap_mirroring_audio_stream_service.cpp:159-166 | a consecutive run stays consecutive |
| AudioReorder.StaysOrdered | src/service/ap_mirroring_audio_stream_service.cpp:139-187 | deliveries strictly increasing and below the expected number, everything cached above it: a packet that is dropped or cached never breaks that; a flush breaks it if and only if 65535 or a number twice is cached; an expected packet if and only if it, or the consecutive cached numbers after it, come to 65535 or to a number cached twice (a first packet also if it is not below everything cached) |
| AudioReorder.SteadyKeeps | src/service/ap_mirroring_audio_stream_service.cpp:139-187 | while no cached number is 65535 or occurs twice, a packet with another number below 65535 keeps the order |
| AudioReorder.StaysSteady | src/service/ap_mirroring_audio_stream_service.cpp:139-187 | and leaves the queue so |
| AudioReorder.WrapLosesOrder | src/service/ap_mirroring_audio_stream_service.cpp:153-185 | 65535, 1, 0: the number after the wrap is delivered out of order and 0 is lost |
| AudioReorder.RepetitionBlocks | src/service/ap_mirroring_audio_stream_service.cpp:241-253 | 5, 7, 7, 6: the second 7 stays at the head of the queue below the expected number |
| AudioReorder.Play | src/service/ap_mirroring_audio_stream_service.cpp:139-187 | all of this for every run, in any order, with losses and repetitions; in order for distinct numbers below 65535 |
| AesCtr.Increment | third-party/opensslaes/aes_ctr.c:67-101 | adds one modulo 2^128 |
| AesCtr.Stream.Xcrypt | third-party/opensslaes/aes_ctr.c:116-140 | byte 16 j + k of the stream is the input byte exclusive or byte k of the cipher of iv + j modulo 2^128, big-endian, from the current position on, in place or not; nothing beyond length changes |
| AesCtr.AnySplit | third-party/opensslaes/aes_ctr.c:116-140 | pieces encrypt like the whole |
| AesCtr.SelfInverse | third-party/opensslaes/aes_ctr.c:116-140 | encrypting twice gives the data back |
| AesCbc.CbcEncrypt | third-party/opensslaes/aes_cbc.c:76-94 | the ciphertext of the zero-padded input and the last block as the new vector |
| AesCbc.EncryptedBlock | third-party/opensslaes/aes_cbc.c:76-94 | block j is the cipher of the bytes of block j, zeros behind the end, exclusive or the block before, or the vector |
| AesCbc.DecryptedByte | third-party/opensslaes/aes_cbc.c:95-111 | every byte is that of the deciphered block exclusive or that of the block before, or of the vector |
| AesCbc.CbcDecryptApart | third-party/opensslaes/aes_cbc.c:95-111 | the first length bytes of the plaintext; the vector is the last block read |
| AesCbc.CbcDecryptInPlace | third-party/opensslaes/aes_cbc.c:112-132 | the same in one buffer, whose bytes from length on stay |
| AesCbc.RoundTrip | third-party/opensslaes/aes_cbc.c:64-133 | decryption undoes encryption at every length |
| AesCbc.EncryptedSplit | third-party/opensslaes/aes_cbc.c:64-133 | calls may be split at block boundaries |
| AesCbc.DecryptedSplit | third-party/opensslaes/aes_cbc.c:64-133 | the same for decryption |
| PairVerify.KeyChain | src/crypto/ap_crypto.cpp:34-46 | the two key pairs, and the Montgomery public key of the private one |
| PairVerify.Party.InitPairVerifyAes | src/crypto/ap_crypto.cpp:75-107 | key and initial counter are the first 16 bytes of the hashes of "Pair-Verify-AES-Key" and "Pair-Verify-AES-IV", each followed by the secret; the stream starts at 0 |
| PairVerify.Party.SignPairSignature | src/crypto/ap_crypto.cpp:109-124 | a signature over both keys, encrypted at the stream position, which moves by 64 |
| PairVerify.Party.VerifyPairSignature | src/crypto/ap_crypto.cpp:126-137 | true exactly when what decrypts at the position is accepted for the keys in the other order |
| PairVerify.HonestPeerAccepted | src/crypto/ap_crypto.cpp:126-137 | what an honest peer encrypts at the same position is accepted |
| PairVerify.Exchange | src/crypto/ap_crypto.cpp:75-137 | two honest sides that know each other's public keys derive the same stream and accept each other |
| PairVerify.PairUp | src/crypto/ap_crypto.cpp:34-137 | from any random strings on: key chains, exchange of keys, exchange of signatures, both accepted |
| HttpMessage.HttpMessageParser.Consume | src/network/xtxp_message.h:232-336 | one character moves the machine as the transition function says, error cases included |
| HttpMessage.HttpMessageParser.Parse | src/network/xtxp_message.h:191-209 | runs the machine over the input after clearing everything but the content type |
| HttpMessage.Request.SerializeHead | src/network/xtxp_message.cpp:62-89 | prints every header once, then Content-Length and a nonempty Content-Type |
| HttpMessage.HeadComesBack | src/network/xtxp_message.h:191-336 | parsing the head of a well-formed request returns method, URI, scheme, length, type and headers, in whatever order they were printed |
| HttpMessage.StoredEffect | src/network/xtxp_message.h:310-327 | the header lines leave the last of each name, and nothing else |
| HttpMessage.CompleteAtEnd | src/network/xtxp_message.h:191-209 | if the only CRLFCRLF is at the end, parse answers true exactly when the last character completes the message; the machine is ready again either way |
| HttpGrammar.ParsesExactly | src/network/xtxp_message.h:191-336 | on input that ends with its first empty line the parser says yes exactly to the heads of a grammar over literal characters, and leaves the last value of each name, the number of Content-Length and the value of Content-Type |
| HttpGrammar.ParseHead | src/network/xtxp_message.h:191-209 | the same of the imperative parser |
| HttpGrammar.StrtolReads | src/network/xtxp_message.h:312-314 | blanks, at most one sign and digits are the number that they spell, clamped to 64 bits, whatever follows |
| HttpMessage.SerializeAndParse | src/network/xtxp_message.cpp:62-89 | serializing and parsing give the request back; the content type exactly when it was not empty or nothing else takes its place |

## Left out

- CurveGroup.Convert: also fills T where the source calls `ge_p1p1_to_p2`; nothing reads it there.
- The AES block function and its key schedule, FairPlay, and the key derivation for audio and video streams, which only feeds parameters to the ciphers here.
- The CFB and OFB modes, `ed25519_add_scalar` and `seed.c`: not used by the receiver.
- The response half of the HTTP parser and printer, and the bodies of messages: the same machine without headers that need a proof.
- PlistRoundTrip.RoundTrip: is about trees whose encoding has fewer than 2^32 bytes, with strings without NUL and primitives below 15, as the constructors of src/utils/plist.cpp:636-740 make them; it says nothing of dates and unicode strings, for which the writer writes nothing.
- PlistRoundTrip.WriteThenRead: is about the same trees.
- PlistReader.ReadObject: takes a bound on its depth, because the source does not return on cyclic references; by `PlistParse.MoreFuel` and `PlistExact.ExactlyOne` the bound does not matter where it does. Doubles are kept as their eight bytes, and the widening of four-byte floats is not modelled.
- PlistReader.ReadBplist: takes the same bound.
- Points.AdditionLaw: is the addition law multiplied out; `EdwardsSum.AdditionLaw` divides.
- Points.DoublingLaw: likewise; `EdwardsSum.DoublingLaw` divides.
- Sockets, threads, strands, timers, mDNS, HLS, configuration and logging.
- Timing: constant-time code is modelled for what it computes.
