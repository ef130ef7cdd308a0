# TKey: arithmetic, hashing, USB framing, flash and boot

This project models four parts of the Tillitis TKey firmware and proves what each of them is for.

- **Modular arithmetic of Monocypher.** Ten-limb field arithmetic modulo 2^255 - 19 (`FieldElement`, `FieldBytes`, `FieldOps`),
  exclusive or on signed words (`BitOps`), the inverse square root (`InvSqrt`, with `Fermat`), the X25519 ladder and the two
  functions built on it (`X25519`, `X25519Calls`), the Edwards point formulas (`EdwardsPoint`), Barrett and
  Montgomery reduction modulo L (`ScalarModL`, `ScalarInverse`), sliding windows and the signature ladder (`SlidingWindow`,
  `SignatureCheck`), the signed comb (`SignedComb`), Poly1305 (`Poly1305`) and the block references of Argon2 (`Argon2`).
  Words are integers of an explicit range, so that every bound the comments of the C code claim is an obligation here. The curve
  group is an arbitrary abelian group (`AbelianGroup`). What the ladder's formulas do in it is a hypothesis (`Montgomery`), and so
  are the precomputed tables (`Sound`) and, where a result says so, that a modulus has no zero divisors (`PrimeModulus`).
- **Streaming hashes.** SHA-512 (`Sha512`), BLAKE2s and BLAKE2b (`Blake2`, `Blake2s`, `Blake2b`) over bit-vector words, with the
  shared word buffer (`WordBuffer`, `Buffers`). Each class has a predicate `After(m)`: the context is what absorbing `m` leaves, in
  however many pieces. The reference definitions follow FIPS 180-4 and RFC 7693. The device identity of the firmware is
  `Blake2s.ComputeCdi`.
- **USB Mode Protocol.** The sender and reader on the FPGA (`UsbFrames`, `UsbReader`), and the USB controller as steps that
  interleave freely: the UART interrupt, USB IN completions, and the steps of its main loop (`UsbController`). CTS is modelled by
  what it promises: after a stop at most two more bytes arrive. `UsbController.EndToEnd` leads from the calls of `write` to what
  the endpoints are given.
- **Flash and boot.** NOR flash as bytes that erasing sets to 0xff and programming ands (`Flash`), the duplicated partition table
  (`PartitionTable`, with `ByteCasts` for its length words), storage areas (`Storage`), preloaded apps (`Preload`) and the boot
  state machine over chains of resets, between which apps may change flash (`Boot`).

The C code that updates objects, arrays or contexts in place appears as classes, arrays and loops, each proved against a
specification function or predicate; properties of several calls or whole runs are lemmas about those, or methods that make the
calls (`UsbController.Run`, `UsbController.EndToEnd`, `Storage.Run`, `Storage.DataKept`, `Preload.StoreThenLoad`, `Boot.Chain`).

## Where code and comments differ

- The precondition of `FE_CARRY` in monocypher.c says |t0| < 2^63. The first addition overflows for t0 >= 2^63 - 2^25, and only
  then (`FieldElement.RoundingFits`); no caller comes near it.
- The comment in `invsqrt` before the choice of factor names sqrt(-1) and x^((p-1)/4). The code compares with -sqrt(-1) and
  multiplies x^((p-5)/8), which is what the proof needs.
- `ge_double` returns all four coordinates of the RFC 8032 formulas negated: the same point.
- `preload_load` combines its two size checks so that only size 0 is rejected; `Preload.SizeCheckMisses` says exactly when that
  is the intended check. A size above 131072 still does not start an app: `load_flash_app` checks it afterwards
  (`Boot.Firmware.LoadFlashApp`).
- `read` in io.c does not compare the requested length with what is left of the frame. It stays in the frame exactly when the
  length fits (`UsbReader.ReadStaysInFrame`); when it does not, the reader is in step with the frames again only if some of them
  end exactly where its wrapped 8-bit length says (`UsbReader.ReadKeepsStep`), and `UsbReader.OneByteTooMany` is lost.
- `write` sends data for the UART bare, between the frames of other endpoints. The frames on the wire are those of the writes
  exactly when nothing is written bare (`UsbFrames.FramesOnly`); `UsbFrames.BareDataLooksFramed` is a write that the other side
  takes for a frame.

## Model

| member | source | states |
|---|---|---|
| FieldElement.FeMul | hw/application_fpga/tkey-libs/monocypher/monocypher.c:1225-1279 | no 64-bit overflow for limbs within 1.65 * 2^26 / 1.65 * 2^25, limbs come out within 1.1 * 2^25 / 1.1 * 2^24, and the value is the product modulo 2^255 - 19; h may be f or g |
| FieldElement.FeSq | hw/application_fpga/tkey-libs/monocypher/monocypher.c:1281-1325 | the shortened square sums give the same: bounded limbs whose value is the square modulo 2^255 - 19 |
| FieldElement.FeMulSmall | hw/application_fpga/tkey-libs/monocypher/monocypher.c:1205-1222 | the product with a small factor modulo 2^255 - 19, without overflow, in bounded limbs |
| FieldElement.FeCarry | hw/application_fpga/tkey-libs/monocypher/monocypher.c:1105-1120 | from any ready sums the carry chain stores limbs within the final bounds without changing the value modulo 2^255 - 19 |
| FieldElement.RoundingFits | hw/application_fpga/tkey-libs/monocypher/monocypher.c:1045-1055 | the first rounding of the chain stays in 64 bits if and only if t0 < 2^63 - 2^25; a magnitude below 2^63, as the comment has it, is not enough |
| FieldElement.CarryChain | hw/application_fpga/tkey-libs/monocypher/monocypher.c:1105-1120 | every one of the twelve carries fits in 64 bits, and each limb is its sum less the carry it gave plus the one it took |
| FieldElement.ProductValue | hw/application_fpga/tkey-libs/monocypher/monocypher.c:1241-1260 | the ten column sums, with their factors 2, 19 and 38, are the schoolbook product modulo 2^255 - 19 |
| FieldElement.SquareSumIsLimbSum | hw/application_fpga/tkey-libs/monocypher/monocypher.c:1293-1312 | each shortened square column equals the full ten-term column |
| FieldBytes.FeFromBytes | hw/application_fpga/tkey-libs/monocypher/monocypher.c:1128-1147 | reads 32 bytes as a little-endian number with bit 255 dropped, in bounded limbs |
| FieldBytes.FeToBytes | hw/application_fpga/tkey-libs/monocypher/monocypher.c:1161-1196 | writes the one little-endian number below 2^255 - 19 that has the value of the limbs, for every bounded limb vector, negative ones too |
| FieldBytes.Quotient255 | hw/application_fpga/tkey-libs/monocypher/monocypher.c:1161-1172 | the carry chain of the quotient is a floor division by 2^255 of the limbs plus the rounding of the top limb |
| FieldBytes.QuotientIsSign | hw/application_fpga/tkey-libs/monocypher/monocypher.c:1161-1172 | that quotient is 0 exactly when the value is not negative, and -1 otherwise |
| FieldBytes.ReduceFully | hw/application_fpga/tkey-libs/monocypher/monocypher.c:1168-1182 | after adding 19 times the quotient and carrying once more the limbs are the digits of the value modulo 2^255 - 19 |
| FieldBytes.PackedValue | hw/application_fpga/tkey-libs/monocypher/monocypher.c:1184-1192 | the eight words packed from ten limbs by shifts and ors spell the same number |
| FieldBytes.RoundTrip | hw/application_fpga/tkey-libs/monocypher/monocypher.c:1128-1196 | writing what was read gives the bytes back if and only if they encode a number below 2^255 - 19, and its residue in any case |
| FieldOps.Canonical | hw/application_fpga/tkey-libs/monocypher/monocypher.c:1128-1196 | fe_tobytes after fe_frombytes, on every 32-byte string: identity exactly on canonical encodings, reduction otherwise |
| FieldOps.Add | hw/application_fpga/tkey-libs/monocypher/monocypher.c:974 | limb sums are exact and stay inside the multiplication bound when at most three reduced elements are involved |
| FieldOps.Sub | hw/application_fpga/tkey-libs/monocypher/monocypher.c:975 | limb differences are exact and stay inside the multiplication bound likewise |
| FieldOps.Neg | hw/application_fpga/tkey-libs/monocypher/monocypher.c:973 | limb negation is exact and keeps the bound |
| FieldOps.Mul | hw/application_fpga/tkey-libs/monocypher/monocypher.c:1225-1279 | any product of sums of at most three reduced elements is within the precondition of fe_mul and comes out reduced |
| FieldOps.Square | hw/application_fpga/tkey-libs/monocypher/monocypher.c:1281-1325 | the same for squares |
| FieldOps.MulSmall | hw/application_fpga/tkey-libs/monocypher/monocypher.c:1205-1222 | the same for small factors |
| FieldOps.IsEqual | hw/application_fpga/tkey-libs/monocypher/monocypher.c:1338-1348 | true if and only if the values are equal modulo 2^255 - 19 |
| FieldOps.FeCSwap | hw/application_fpga/tkey-libs/monocypher/monocypher.c:977-985 | the ten masked exclusive ors, in place, swap all limbs for b = 1 and change none for b = 0 |
| FieldOps.FeCCopy | hw/application_fpga/tkey-libs/monocypher/monocypher.c:987-994 | the same masks copy all limbs for b = 1 and none for b = 0 |
| BitOps.MaskedXor | hw/application_fpga/tkey-libs/monocypher/monocypher.c:981-983 | for a mask of all ones or 0, x = (f ^ g) & mask takes f ^ x to g or leaves f, and g ^ x to f or leaves g, for words of either sign |
| InvSqrt.EighthPower | hw/application_fpga/tkey-libs/monocypher/monocypher.c:1411-1424 | the nested squaring loops raise x to the power (p-5)/8 = 2^252 - 3 exactly |
| InvSqrt.InverseSqrt | hw/application_fpga/tkey-libs/monocypher/monocypher.c:1407-1448 | 2^255 - 19 being prime: the flag is true if and only if x is a square modulo 2^255 - 19, 0 included; isr^2 * x = 1 for the other squares and sqrt(-1) for all non-squares; isr = 0 for 0. Without that hypothesis the same for each of the four values of x^((p-1)/4) |
| InvSqrt.FourRoots | hw/application_fpga/tkey-libs/monocypher/monocypher.c:1358-1364 | modulo a prime x^((p-1)/4) is one of 1, -1, sqrt(-1), -sqrt(-1) for every x but 0 |
| InvSqrt.SquareQuartic | hw/application_fpga/tkey-libs/monocypher/monocypher.c:1358-1366 | modulo a prime that is 1 or -1 for every square but 0 |
| Fermat.FermatLittle | hw/application_fpga/tkey-libs/monocypher/monocypher.c:1360-1364 | x^(m-1) = 1 modulo m for every x but 0 when m has no zero divisors |
| InvSqrt.Conclude | hw/application_fpga/tkey-libs/monocypher/monocypher.c:1426-1443 | the four cases of the quartic: the choice of factor made by the code gives the promised square root in each |
| InvSqrt.SqrtMinusOne | hw/application_fpga/tkey-libs/monocypher/monocypher.c:934-944 | the constant sqrtm1 is within the limb bounds and squares to -1 |
| InvSqrt.Invert | hw/application_fpga/tkey-libs/monocypher/monocypher.c:1458-1466 | 2^255 - 19 being prime, out * x = 1 for every x but 0; 0 for 0 |
| X25519.Step | hw/application_fpga/tkey-libs/monocypher/monocypher.c:1510-1529 | every field operation gets operands within its bound, and (P2, P3) becomes (2 P2, P2 + P3) by the formulas of section 5 of RFC 7748 |
| X25519.Advance | hw/application_fpga/tkey-libs/monocypher/monocypher.c:1502-1530 | with the two points in the order of bit b, one step leads from the multiples m, m+1 to 2m+b, 2m+b+1 |
| X25519.DiffAddSymmetric | hw/application_fpga/tkey-libs/monocypher/monocypher.c:1502-1530 | differential addition does not depend on the order of the two points, which is what lets the ladder swap them |
| X25519.Ladder | hw/application_fpga/tkey-libs/monocypher/monocypher.c:1487-1534 | for every scalar and bit count the loop with its delayed swaps ends at the multiple of section 5 of RFC 7748 that the scalar bits spell |
| X25519.Scalarmult | hw/application_fpga/tkey-libs/monocypher/monocypher.c:1487-1544 | for all byte strings the result is the affine x coordinate, below 2^255 - 19, of that multiple of the point with its top bit ignored, and 0 at infinity; every Z but 0 is inverted when 2^255 - 19 is prime |
| X25519.MultipleStands | hw/application_fpga/tkey-libs/monocypher/monocypher.c:1502-1530 | when doubling doubles and differential addition adds two points that differ by the base point, that multiple is [m]P in the group |
| X25519.ScalarStands | hw/application_fpga/tkey-libs/monocypher/monocypher.c:1487-1534 | so after n bits the ladder stands for [n low bits of the scalar]P |
| X25519Calls.CryptoX25519 | hw/application_fpga/tkey-libs/monocypher/monocypher.c:1546-1555 | the x coordinate of the multiple by the trimmed key, over 255 bits |
| X25519Calls.CryptoX25519Inverse | hw/application_fpga/tkey-libs/monocypher/monocypher.c:2790-2853 | the x coordinate of the multiple by a scalar below 2^256, over 256 bits; the scalar is the inverse of the trimmed key modulo L and divisible by 8 |
| X25519Calls.KeyInvertible | hw/application_fpga/tkey-libs/monocypher/monocypher.c:2790-2799 | no trimmed key is divisible by L |
| X25519Calls.InverseStands | hw/application_fpga/tkey-libs/monocypher/monocypher.c:2790-2853 | L being prime: from [key]Q plus any point of order 8 that ladder ends at Q, for every Q of order L |
| EdwardsPoint.Ge.Zero | hw/application_fpga/tkey-libs/monocypher/monocypher.c:1693-1699 | the neutral element (0, 1, 1, 0) |
| EdwardsPoint.Ge.Add | hw/application_fpga/tkey-libs/monocypher/monocypher.c:1773-1795 | the sum by the extended-coordinate formulas of section 5.1.4 of RFC 8032, with every multiplication in bounds; the coordinates of the result serve as temporaries in the order of the code, so that it may be the operand p |
| EdwardsPoint.Ge.Sub | hw/application_fpga/tkey-libs/monocypher/monocypher.c:1797-1805 | the sum with the negated point, by swapping the cached coordinates |
| EdwardsPoint.Ge.Madd | hw/application_fpga/tkey-libs/monocypher/monocypher.c:1807-1827 | the same sum with a precomputed point of Z = 1 |
| EdwardsPoint.Ge.Msub | hw/application_fpga/tkey-libs/monocypher/monocypher.c:1829-1836 | the same difference with a precomputed point of Z = 1 |
| EdwardsPoint.Ge.Double | hw/application_fpga/tkey-libs/monocypher/monocypher.c:1838-1855 | the doubling formulas of section 5.1.4 of RFC 8032 with all four coordinates negated, which is the same point |
| EdwardsPoint.Ge.Cache | hw/application_fpga/tkey-libs/monocypher/monocypher.c:1763-1769 | the cached form holds Y+X, Y-X, Z and T * 2d, ready for the additions |
| EdwardsPoint.AddIsEdwardsLaw | hw/application_fpga/tkey-libs/monocypher/monocypher.c:1773-1795 | the sum satisfies the twisted Edwards addition law with a = -1, cross-multiplied, and X * Y = Z * T again |
| EdwardsPoint.DoubleIsAdd | hw/application_fpga/tkey-libs/monocypher/monocypher.c:1838-1855 | on curve points doubling agrees with adding the point to itself, up to the factor -4 |
| EdwardsPoint.CurveConstant | hw/application_fpga/tkey-libs/monocypher/monocypher.c:936-952 | the constant D2 is 2 * (-121665 / 121666) and within the limb bounds |
| ScalarModL.MultiplyAdd | hw/application_fpga/tkey-libs/monocypher/monocypher.c:1573-1583 | p becomes p + a * b exactly, with no carry past 64 bits |
| ScalarModL.IsAboveL | hw/application_fpga/tkey-libs/monocypher/monocypher.c:1586-1596 | the two's complement carry is 1 if and only if x >= L |
| ScalarModL.RemoveL | hw/application_fpga/tkey-libs/monocypher/monocypher.c:1602-1611 | x becomes x - L exactly when x >= L |
| ScalarModL.RemainderFits | hw/application_fpga/tkey-libs/monocypher/monocypher.c:1614-1656 | the Barrett quotient is off by at most one for every 512-bit x, and a 256-bit truncated product is enough to recover the remainder |
| ScalarModL.BarrettRemainder | hw/application_fpga/tkey-libs/monocypher/monocypher.c:1620-1651 | after the truncated product and the subtraction the low eight words are congruent to x modulo L and below 2L |
| ScalarModL.ModL | hw/application_fpga/tkey-libs/monocypher/monocypher.c:1614-1656 | x mod L for every 512-bit x |
| ScalarModL.EddsaReduce | hw/application_fpga/tkey-libs/monocypher/monocypher.c:1658-1664 | 64 bytes reduced modulo L |
| ScalarModL.EddsaMulAdd | hw/application_fpga/tkey-libs/monocypher/monocypher.c:1667-1680 | (a * b + c) mod L for all 256-bit inputs |
| ScalarInverse.Redc | hw/application_fpga/tkey-libs/monocypher/monocypher.c:2752-2788 | for every x < L * 2^256 the result is below L and times 2^256 congruent to x modulo L |
| ScalarInverse.MontMul | hw/application_fpga/tkey-libs/monocypher/monocypher.c:2820-2828 | a Montgomery product keeps its operands in the range of redc and stands for the product |
| ScalarInverse.InverseModL | hw/application_fpga/tkey-libs/monocypher/monocypher.c:2790-2836 | square and multiply over the bits of L - 2 gives scalar^(L-2) mod L |
| ScalarInverse.AddXl | hw/application_fpga/tkey-libs/monocypher/monocypher.c:2421-2430 | s + (x mod 8) * L, exactly, whenever it fits in 256 bits |
| ScalarInverse.ClearCofactor | hw/application_fpga/tkey-libs/monocypher/monocypher.c:2838-2844 | adding (3s mod 8) * L never overflows and leaves a scalar congruent to s modulo L and to 0 modulo 8 |
| ScalarInverse.X25519InverseScalar | hw/application_fpga/tkey-libs/monocypher/monocypher.c:2790-2844 | for every private key: the inverse of the trimmed scalar modulo L, divisible by 8 |
| ScalarBits.BitsSpellNumber | hw/application_fpga/tkey-libs/monocypher/monocypher.c:1478-1482 | scalar_bit reads the binary digits of the little-endian number |
| ScalarBits.TopSplits | hw/application_fpga/tkey-libs/monocypher/monocypher.c:1502-1504 | a ladder from the top splits a scalar into the bits read and the bits still to read |
| SlidingWindow.SlideCtx.constructor | hw/application_fpga/tkey-libs/monocypher/monocypher.c:1917-1936 | starts just above the highest set bit of a scalar below 2^253, so that nothing of it is missed from any higher index on |
| SlidingWindow.SlideCtx.Step | hw/application_fpga/tkey-libs/monocypher/monocypher.c:1938-1962 | one step keeps the recoding exact: what has been returned, the digit waiting for its index and the bits not yet read add up to the scalar; each digit is 0 or odd and below 2^(width-1); the uint8 next_check never wraps while it still matters |
| SlidingWindow.ComputeWindow | hw/application_fpga/tkey-libs/monocypher/monocypher.c:1945-1951 | the signed value of a window, taking one from the bit above and adding the bit below |
| SlidingWindow.LowestBit | hw/application_fpga/tkey-libs/monocypher/monocypher.c:1952 | v & (~v + 1) is the lowest set bit of v in two's complement |
| SlidingWindow.Log2OfPower | hw/application_fpga/tkey-libs/monocypher/monocypher.c:1953-1956 | three masks find the logarithm of a power of two below 256 |
| SlidingWindow.SignedWindow | hw/application_fpga/tkey-libs/monocypher/monocypher.c:1943-1951 | cutting a signed window off the top of a scalar leaves the lower bits with the right borrow |
| SlidingWindow.WindowRange | hw/application_fpga/tkey-libs/monocypher/monocypher.c:1940-1951 | a window that starts where two bits differ is not zero and fits its width |
| SlidingWindow.SplitWindow | hw/application_fpga/tkey-libs/monocypher/monocypher.c:1952-1958 | shift and digit taken from the lowest bit give the window back, inside the window and in an int8 |
| SlidingWindow.ReturnDigit | hw/application_fpga/tkey-libs/monocypher/monocypher.c:1961 | returning the waiting digit at its index, and 0 elsewhere, keeps the sum: a pending digit is never overwritten before it is due |
| SlidingWindow.RecodedFully | hw/application_fpga/tkey-libs/monocypher/monocypher.c:1917-1962 | after index 0 the digits weighted by their powers of two sum to the scalar |
| SlidingWindow.DigitIndexesTable | hw/application_fpga/tkey-libs/monocypher/monocypher.c:2014-2021 | every digit of width w indexes one of 2^(w-2) odd multiples: 2 entries for width 3, 8 for width 5 |
| SignatureCheck.AddDigit | hw/application_fpga/tkey-libs/monocypher/monocypher.c:2014-2021 | in any abelian group, adding or subtracting the table entry of a digit adds that multiple of the point |
| SignatureCheck.Ladder | hw/application_fpga/tkey-libs/monocypher/monocypher.c:2000-2022 | the fused ladder ends with [h](-A) + [s]B, for all scalars below 2^253 |
| SignatureCheck.EquationDecided | hw/application_fpga/tkey-libs/monocypher/monocypher.c:2024-2036 | [8]([s]B - [h]A - R) = 0 if and only if [8][s]B = [8]R + [8][h]A |
| SignatureCheck.CheckEquation | hw/application_fpga/tkey-libs/monocypher/monocypher.c:1968-2037 | 0 exactly when both points decode, S < L, and the equation of section 5.1.7 of RFC 8032 holds; -1 otherwise |
| SignedComb.SignsSpellScalar | hw/application_fpga/tkey-libs/monocypher/monocypher.c:2165-2177 | the bits of (scalar / 2 + (2^256 - 1) / 2) mod L, read as +1 and -1, spell a number congruent to the scalar |
| SignedComb.SignsReadTwice | hw/application_fpga/tkey-libs/monocypher/monocypher.c:2174-2177 | reading bits as signs gives twice the number less all ones |
| SignedComb.Halves | hw/application_fpga/tkey-libs/monocypher/monocypher.c:2165-2172 | the two byte constants are 1/2 and (2^256 - 1)/2 modulo L |
| SignedComb.ColumnsSpellAll | hw/application_fpga/tkey-libs/monocypher/monocypher.c:2188-2196 | thirty-two columns of eight teeth, doubled between columns, spell all 256 signs |
| SignedComb.TeethIndex | hw/application_fpga/tkey-libs/monocypher/monocypher.c:2141-2146 | index and negation pick the entry whose value is that of the four teeth |
| SignedComb.SelectsOne | hw/application_fpga/tkey-libs/monocypher/monocypher.c:2147-2152 | the mask loop copies the entry at the index and no other |
| SignedComb.LookupAdd | hw/application_fpga/tkey-libs/monocypher/monocypher.c:2138-2157 | adds the multiple of the base point that the four teeth spell, of either comb |
| SignedComb.ScalarMultBase | hw/application_fpga/tkey-libs/monocypher/monocypher.c:2160-2206 | [scalar]B for every 256-bit scalar when B has order L |
| Poly1305.Multiply | hw/application_fpga/tkey-libs/monocypher/monocypher.c:334-340 | (h + c) * r in five columns modulo 2^130 - 5, with no 64-bit overflow |
| Poly1305.Reduce | hw/application_fpga/tkey-libs/monocypher/monocypher.c:342-348 | the partial reduction keeps the value modulo 2^130 - 5 and h4 <= 4 |
| Poly1305.Block | hw/application_fpga/tkey-libs/monocypher/monocypher.c:326-356 | one block maps h to (h + c) * r modulo 2^130 - 5 |
| Poly1305.PolyBlocks | hw/application_fpga/tkey-libs/monocypher/monocypher.c:310-363 | any number of blocks, absorbed in order |
| Poly1305.KeyWords | hw/application_fpga/tkey-libs/monocypher/monocypher.c:366-375 | masking the key words is the byte clamping of section 2.5 of RFC 8439 |
| Poly1305.Poly1305Ctx.Init | hw/application_fpga/tkey-libs/monocypher/monocypher.c:366-375 | nothing absorbed; r is the clamped first half of the key, the pad the second half |
| Poly1305.Poly1305Ctx.Update | hw/application_fpga/tkey-libs/monocypher/monocypher.c:377-411 | after any chunk the state is that of the whole message so far, however it was cut |
| Poly1305.Excess | hw/application_fpga/tkey-libs/monocypher/monocypher.c:423-431 | the carry propagation of h + 5 tells exactly whether h is at least 2^130 - 5 |
| Poly1305.FinalArith | hw/application_fpga/tkey-libs/monocypher/monocypher.c:423-437 | conditional subtraction and pad addition give (h mod p + s) mod 2^128 |
| Poly1305.Poly1305Ctx.Final | hw/application_fpga/tkey-libs/monocypher/monocypher.c:413-440 | the tag of section 2.5 of RFC 8439 for the whole message |
| Poly1305.Poly1305 | hw/application_fpga/tkey-libs/monocypher/monocypher.c:442-450 | the same in one call |
| Argon2.SegmentSize | hw/application_fpga/tkey-libs/monocypher/monocypher.c:752-754 | segments of at least two blocks that fit in the area whenever there are eight blocks a lane |
| Argon2.ReferencePosition | hw/application_fpga/tkey-libs/monocypher/monocypher.c:854-880 | with all uint32 wrap-around the reference is a block of the reference set: already filled, neither the current nor the previous block of its own lane, and outside the current slice of any other lane |
| Argon2.WindowIsReferenceSet | hw/application_fpga/tkey-libs/monocypher/monocypher.c:854-879 | the window reaches every block of the reference set of section 3.4 of RFC 9106, each at one offset, and no other block |
| Argon2.BlockAgrees | hw/application_fpga/tkey-libs/monocypher/monocypher.c:819-893 | filling a block reads only what two memories share that differ in the current slice of other lanes |
| Argon2.SegmentAgrees | hw/application_fpga/tkey-libs/monocypher/monocypher.c:816-895 | so a whole segment comes out the same in both |
| Argon2.SegmentFrame | hw/application_fpga/tkey-libs/monocypher/monocypher.c:816-895 | a segment writes nothing but its own cells |
| Argon2.EachAlone | hw/application_fpga/tkey-libs/monocypher/monocypher.c:807-897 | after the segments of a slice in any order, each cell is what its segment alone would have made of the memory before |
| Argon2.OrderIrrelevant | hw/application_fpga/tkey-libs/monocypher/monocypher.c:807-897 | the result of a slice does not depend on the order of its segments |
| Argon2.IndexSeed | hw/application_fpga/tkey-libs/monocypher/monocypher.c:832-852 | the index block, refreshed every 128 blocks, gives the same seeds as computing each from its counter |
| Argon2.FillSegmentInPlace | hw/application_fpga/tkey-libs/monocypher/monocypher.c:816-895 | the loop over a segment, in place, is FillSegment |
| Argon2.FillMemory | hw/application_fpga/tkey-libs/monocypher/monocypher.c:784-899 | all passes and slices in place, with the switch of Argon2id to data-dependent indexing |
| WordBuffer.PushByte | hw/application_fpga/tkey-libs/monocypher/monocypher-ed25519.c:180-186 | or-ing a byte into a zero place of a word appends it |
| WordBuffer.Push | hw/application_fpga/tkey-libs/monocypher/monocypher-ed25519.c:180-186 | the buffer holds the bytes so far, zero behind them |
| WordBuffer.PushWords | hw/application_fpga/tkey-libs/monocypher/monocypher-ed25519.c:252-262 | whole words loaded at once hold the same bytes as one by one |
| WordBuffer.PackUnpack | hw/application_fpga/tkey-libs/monocypher/monocypher-ed25519.c:82-104 | a word stored as bytes and loaded again is the same word, big- and little-endian |
| Sha512.NextWord | hw/application_fpga/tkey-libs/monocypher/monocypher-ed25519.c:163-168 | the sixteen-word window, updated in place, holds the next word of the eighty-word schedule |
| Sha512.Compress | hw/application_fpga/tkey-libs/monocypher/monocypher-ed25519.c:144-178 | the in-place compression is section 6.4.2 of FIPS 180-4 on the block before it was overwritten |
| Sha512.Incr | hw/application_fpga/tkey-libs/monocypher/monocypher-ed25519.c:188-194 | 128-bit addition in two words |
| Sha512.Sha512Ctx.Init | hw/application_fpga/tkey-libs/monocypher/monocypher-ed25519.c:196-210 | nothing absorbed |
| Sha512.Sha512Ctx.Update | hw/application_fpga/tkey-libs/monocypher/monocypher-ed25519.c:212-273 | after any chunk the state is that of the whole message: full blocks hashed, the rest in the buffer with zeros behind it |
| Sha512.ShortPadding | hw/application_fpga/tkey-libs/monocypher/monocypher-ed25519.c:275-300 | a tail of at most 111 bytes is padded into one block |
| Sha512.LongPadding | hw/application_fpga/tkey-libs/monocypher/monocypher-ed25519.c:275-300 | a longer tail is padded into two blocks |
| Sha512.Sha512Ctx.Pad | hw/application_fpga/tkey-libs/monocypher/monocypher-ed25519.c:275-300 | both ways hash the message padded as in section 5.1.2 of FIPS 180-4 |
| Sha512.Sha512Ctx.Final | hw/application_fpga/tkey-libs/monocypher/monocypher-ed25519.c:275-302 | the digest of the whole message |
| Sha512.Sha512 | hw/application_fpga/tkey-libs/monocypher/monocypher-ed25519.c:304-310 | the same in one call |
| Blake2.LazyIsLast | hw/application_fpga/tkey-libs/blake2s/blake2s.c:261-331 | when compression waits until more bytes come, the buffer is exactly the last block of section 3.3 of RFC 7693, padded, flagged, with the total length as counter |
| Blake2.ChainNext | hw/application_fpga/tkey-libs/blake2s/blake2s.c:268-276 | a full buffer that is not the last extends the chain by one unflagged block |
| Blake2s.G | hw/application_fpga/tkey-libs/blake2s/blake2s.c:81-112 | the mixing function of section 3.1 of RFC 7693, in place |
| Blake2s.Compress | hw/application_fpga/tkey-libs/blake2s/blake2s.c:118-209 | ten rounds with the message schedule, counter and flag, folded back into the state |
| Blake2s.Blake2sCtx.Init | hw/application_fpga/tkey-libs/blake2s/blake2s.c:218-255 | -1 exactly on bad lengths, changing nothing; otherwise the parameter block, and a key becomes a first block of 64 bytes |
| Blake2s.Blake2sCtx.Update | hw/application_fpga/tkey-libs/blake2s/blake2s.c:261-289 | after any chunk the state is that of the whole input |
| Blake2s.AbsorbedNext | hw/application_fpga/tkey-libs/blake2s/blake2s.c:268-276 | the two-word counter is the number of bytes compressed |
| Blake2s.LastBlock | hw/application_fpga/tkey-libs/blake2s/blake2s.c:295-331 | the final compression gives the digest of the whole input |
| Blake2s.Blake2sCtx.Final | hw/application_fpga/tkey-libs/blake2s/blake2s.c:295-331 | the digest, little-endian, cut to the asked length |
| Blake2s.Blake2sOneCall | hw/application_fpga/tkey-libs/blake2s/blake2s.c:337-352 | the same in one call, with its error return |
| Blake2s.ComputeCdi | hw/application_fpga/fw/tk1/main.c:113-160 | two or three updates in a row hash, keyed with the device secret, the domain byte, the digest and the user secret if there is one |
| Blake2b.RowsRepeat | hw/application_fpga/tkey-libs/monocypher/monocypher.c:463-477 | the last two rows of the twelve-row table repeat the first two, so ten permutations serve twelve rounds |
| Blake2b.Compress | hw/application_fpga/tkey-libs/monocypher/monocypher.c:461-528 | twelve unrolled rounds are the compression of section 3.2 of RFC 7693 |
| Blake2b.Blake2bCtx.KeyedInit | hw/application_fpga/tkey-libs/monocypher/monocypher.c:530-551 | the parameter block, and a key becomes a first block of 128 bytes |
| Blake2b.Blake2bCtx.Update | hw/application_fpga/tkey-libs/monocypher/monocypher.c:558-624 | byte, word and block paths leave the state of the whole message, however it was cut |
| Blake2b.LastBlock | hw/application_fpga/tkey-libs/monocypher/monocypher.c:626-636 | the final compression gives the digest of the whole message |
| Blake2b.Blake2bCtx.Final | hw/application_fpga/tkey-libs/monocypher/monocypher.c:626-636 | the digest, cut to the asked length |
| Blake2b.Keyed | hw/application_fpga/tkey-libs/monocypher/monocypher.c:638-651 | the same in one call |
| UsbFrames.Sender.WriteWithHeader | hw/application_fpga/tkey-libs/libcommon/io.c:59-74 | mode, length, payload on the wire |
| UsbFrames.Sender.Write | hw/application_fpga/tkey-libs/libcommon/io.c:92-120 | raw bytes to the UART or the QEMU port, framed chunks to every other endpoint |
| UsbFrames.ChunksFit | hw/application_fpga/tkey-libs/libcommon/io.c:107-119 | every chunk has 1 to 64 bytes |
| UsbFrames.ChunksCarryData | hw/application_fpga/tkey-libs/libcommon/io.c:107-119 | the payloads of the chunks concatenate to the data |
| UsbFrames.ChunksCarryNothingElse | hw/application_fpga/tkey-libs/libcommon/io.c:107-119 | and hold nothing for any other endpoint |
| UsbFrames.WriteAll | hw/application_fpga/tkey-libs/libcommon/io.c:92-120 | over any sequence of writes the UART carries frames for framed endpoints, bare bytes for IO_UART and nothing for IO_QEMU, in the order of the writes |
| UsbFrames.FramesOnly | hw/application_fpga/tkey-libs/libcommon/io.c:92-120 | that is the wire format of the frames alone if and only if nothing is written bare to IO_UART |
| UsbFrames.BareDataLooksFramed | hw/application_fpga/tkey-libs/libcommon/io.c:92-105 | a bare write of 08 01 41 is on the wire a CDC frame that nobody wrote |
| UsbFrames.FramesCarryWrites | hw/application_fpga/tkey-libs/libcommon/io.c:107-120 | the frames carry to each framed endpoint the concatenation of what was written to it, and to others nothing |
| UsbFrames.FrameAt | hw/usb_interface/ch552_fw/src/main.c:1636-1652 | a receiver at a frame boundary finds mode, length and payload of the next frame where it looks for them |
| UsbController.Push | hw/usb_interface/ch552_fw/src/main.c:1487-1490 | the interrupt appends a byte to the ring |
| UsbController.Take | hw/usb_interface/ch552_fw/src/main.c:1527-1531 | moving the output pointer drops bytes from the front |
| UsbController.ByteCountIsPending | hw/usb_interface/ch552_fw/src/main.c:1498-1508 | the pointer difference is the number of bytes in the ring |
| UsbController.CircularCopy | hw/usb_interface/ch552_fw/src/main.c:1511-1525 | copying in one or two parts takes the first bytes of the ring in order |
| UsbController.NeverFull | hw/usb_interface/ch552_fw/src/main.c:1543-1549 | while CTS allows another byte there is room for it; the ring never holds more than 138 of its 140 bytes |
| UsbController.Received | hw/usb_interface/ch552_fw/src/main.c:1483-1496 | the interrupt with its CTS check keeps ring and bound in every phase of a frame |
| UsbController.Controller.Uart1Isr | hw/usb_interface/ch552_fw/src/main.c:1483-1496 | one byte received, CTS stopped at 133, everything else untouched |
| UsbController.Controller.InDone | hw/usb_interface/ch552_fw/src/main.c:1290-1302 | an IN completion frees its endpoint and no other |
| UsbController.Controller.CountStep | hw/usb_interface/ch552_fw/src/main.c:1634 | the count is exact at that moment |
| UsbController.Controller.HeaderStep | hw/usb_interface/ch552_fw/src/main.c:1636-1670 | mode and length of the next frame are taken; an unknown mode stops the FPGA and halts for a reset |
| UsbController.Controller.CopyStep | hw/usb_interface/ch552_fw/src/main.c:1672-1845 | FrameBuf receives the payload exactly when all of it is there, the buffer is free, and FIDO has 64 bytes |
| UsbController.Controller.AdvanceStep | hw/usb_interface/ch552_fw/src/main.c:1684-1688 | exactly the payload leaves the ring |
| UsbController.Controller.StartStep | hw/usb_interface/ch552_fw/src/main.c:1687-1690 | the payload is marked for its endpoint and CTS is started |
| UsbController.Controller.UploadCdcStep | hw/usb_interface/ch552_fw/src/main.c:1871-1894 | the packet queued is the payload of the current frame, at most 64 bytes, when endpoint 2 is free; 64 bytes ask for a zero-length packet |
| UsbController.Controller.ZeroLengthStep | hw/usb_interface/ch552_fw/src/main.c:1896-1904 | one zero-length packet when due and endpoint 2 is free |
| UsbController.Controller.UploadFidoStep | hw/usb_interface/ch552_fw/src/main.c:1906-1923 | the frame ends at endpoint 3 |
| UsbController.Controller.UploadCcidStep | hw/usb_interface/ch552_fw/src/main.c:1925-1942 | the frame ends at endpoint 3 |
| UsbController.Controller.UploadDebugStep | hw/usb_interface/ch552_fw/src/main.c:1944-1971 | the packet queued is the payload filled up with zeros to 64 bytes, when endpoint 4 is free; the frame ends |
| UsbController.Controller.HandleCh552Step | hw/usb_interface/ch552_fw/src/main.c:1973-2002 | a request to set endpoints stops the FPGA and halts for a reset, anything else ends the frame |
| UsbController.Controller.EndDiscardStep | hw/usb_interface/ch552_fw/src/main.c:2004-2014 | a frame for an inactive endpoint ends without being delivered |
| UsbController.EndDelivered | hw/usb_interface/ch552_fw/src/main.c:1871-2014 | a finished frame extends what its own endpoint was given and nothing else |
| UsbController.Controller.MainStep | hw/usb_interface/ch552_fw/src/main.c:1596-2017 | the steps of a pass come in their order, and each keeps the invariant |
| UsbController.Run | hw/usb_interface/ch552_fw/src/main.c:1483-2017 | over every interleaving of interrupt, IN completions and loop steps the ring stays below 139 bytes, each of CDC, FIDO, CCID and DEBUG has been given a prefix of what the frames carry for it, and an active one all of it once everything has been taken and no frame waits |
| UsbController.EndToEnd | hw/usb_interface/ch552_fw/src/main.c:1483-2017 | the same from the calls of write on, when none of them is bare: what each endpoint is given is a prefix of what was written to it, in the end all of it |
| UsbController.Pass | hw/usb_interface/ch552_fw/src/main.c:1634-2014 | progress: one pass that finds the rest of a frame in the ring, and the endpoints free, delivers exactly that frame; CTS is started when the payload leaves the ring |
| UsbController.NotStuck | hw/usb_interface/ch552_fw/src/main.c:1487-1496 | no deadlock: while CTS is stopped the rest of the current frame is in the ring |
| UsbController.Unblock | hw/usb_interface/ch552_fw/src/main.c:1634-2014 | a stopped FPGA is started again after at most two passes with free endpoints |
| UsbController.AllDelivered | hw/usb_interface/ch552_fw/src/main.c:1634-2014 | with everything taken from the ring and no frame waiting, every active endpoint has been given all of its data |
| UsbReader.Reader.ReadSelect | hw/application_fpga/tkey-libs/libcommon/io.c:223-266 | returns the first frame that is wanted, skips exactly the unwanted ones before it, blocks when there is none, refuses masks with UART or QEMU |
| UsbReader.Reader.Discard | hw/application_fpga/tkey-libs/libcommon/io.c:184-194 | drops at most what the current frame holds |
| UsbReader.Reader.Read | hw/application_fpga/tkey-libs/libcommon/io.c:138-162 | error and empty returns touch nothing and need no bytes; otherwise nbytes are read and the 8-bit length goes down, wrapping |
| UsbReader.ReadStaysInFrame | hw/application_fpga/tkey-libs/libcommon/io.c:138-162 | reading n bytes takes nothing of a later frame if and only if n is at most what remains of the frame, which read does not check |
| UsbReader.ReadKeepsStep | hw/application_fpga/tkey-libs/libcommon/io.c:138-162 | the reader is in step with some later frames if and only if some frames end exactly where the wrapped length says, which allows n greater than what remains |
| UsbReader.OneByteTooMany | hw/application_fpga/tkey-libs/libcommon/io.c:138-162 | one byte too many before a one-byte CDC frame and the reader is in step with no frame |
| Flash.Chip.WriteData | hw/application_fpga/fw/tk1/flash.c:173-229 | rejects empty data and unaligned addresses without touching the chip; otherwise the pages together program exactly the data |
| Flash.Chip.SectorErase | hw/application_fpga/fw/tk1/flash.c:55-66 | the 4096 bytes around the address become 0xff, nothing else changes |
| Flash.Chip.Block64Erase | hw/application_fpga/fw/tk1/flash.c:82-93 | the same for 65536 bytes |
| Flash.ProgramErased | hw/application_fpga/fw/tk1/flash.c:173-229 | data programmed onto erased bytes reads back exactly and leaves all other bytes alone |
| Flash.ProgramSplit | hw/application_fpga/fw/tk1/flash.c:186-226 | programming two pieces one after the other is programming them joined |
| PartitionTable.TableRoundTrip | hw/application_fpga/fw/tk1/partition_table.h:60-95 | a table written to its packed layout and read back is the same table |
| PartitionTable.PartTableRead | hw/application_fpga/fw/tk1/partition_table.c:45-79 | the first of the two copies that passes its checksum, and an error only when neither does |
| PartitionTable.PartTableWrite | hw/application_fpga/fw/tk1/partition_table.c:81-104 | six flash operations: erase and two pages, for each copy |
| PartitionTable.CopiesAfter | hw/application_fpga/fw/tk1/partition_table.c:81-104 | after any number of them: the second copy is untouched until the first is complete |
| PartitionTable.WrittenIsStored | hw/application_fpga/fw/tk1/partition_table.c:45-104 | after all of them both copies hold the table and reading gives it back |
| PartitionTable.OneCrashIsAtomic | hw/application_fpga/fw/tk1/partition_table.c:45-104 | power lost at any of them, with the sector under way left in any state that passes the checksum only as the old or the new table: the next read gives the old or the new table, and the new one once the first copy is complete |
| Storage.Store.GetArea | hw/application_fpga/fw/tk1/storage.c:54-71 | the first area whose tag belongs to the running app |
| Storage.Store.Allocate | hw/application_fpga/fw/tk1/storage.c:73-118 | at most one area an app; a new one is erased, tagged, and in both tables |
| Storage.Store.Deallocate | hw/application_fpga/fw/tk1/storage.c:120-161 | the caller's area is erased and free in both tables; without one nothing happens |
| Storage.Store.EraseSector | hw/application_fpga/fw/tk1/storage.c:168-216 | exactly the asked sectors of the caller's area, and exactly for sector-aligned requests inside it |
| Storage.Store.WriteData | hw/application_fpga/fw/tk1/storage.c:222-264 | programs the caller's RAM at the offset in its own area, exactly for requests inside RAM and area |
| Storage.Store.ReadData | hw/application_fpga/fw/tk1/storage.c:272-315 | copies the bytes of its own area to the caller's RAM and touches no other RAM |
| Storage.Store.EraseAreas | hw/application_fpga/fw/tk1/storage.c:319-357 | only for the management app: all areas erased and free |
| Storage.StaysOneEach | hw/application_fpga/fw/tk1/storage.c:73-118 | tagging a free area for an app that has none keeps every app at no more than one area |
| Storage.NotShared | hw/application_fpga/fw/tk1/auth_app.c:64-77 | two apps never own the same area |
| Storage.WrittenReadsBack | hw/application_fpga/fw/tk1/storage.c:222-315 | data written to erased bytes of an area reads back exactly |
| Storage.Step | hw/application_fpga/fw/tk1/storage.c:54-357 | any call leaves every other app's area and entry alone, except erase_areas by the management app |
| Storage.Run | hw/application_fpga/fw/tk1/storage.c:54-357 | over every sequence of calls by any apps, each with its own identity and measured digest, the invariant holds, RAM and flash tables agree, only areas and table sectors change, and an app that does not run keeps its area and data unless an app with the allowed digest calls erase_areas |
| Storage.DataKept | hw/application_fpga/fw/tk1/storage.c:222-315 | what an app wrote to erased bytes it reads back after any calls of other apps, refused calls of erase_areas included |
| Preload.PreloadStore | hw/application_fpga/fw/tk1/preload_app.c:55-101 | programs the chunk in the slot, exactly for the management app, an empty slot, and requests inside RAM and slot |
| Preload.PreloadStoreFinalize | hw/application_fpga/fw/tk1/preload_app.c:103-156 | size, digest and signature of the slot in both tables, under the same conditions |
| Preload.PreloadDelete | hw/application_fpga/fw/tk1/preload_app.c:158-201 | the slot erased and empty in both tables |
| Preload.PreloadSetPubkey | hw/application_fpga/fw/tk1/preload_app.c:242-272 | the public key of the slot in both tables |
| Preload.PreloadLoad | hw/application_fpga/fw/tk1/preload_app.c:23-53 | for a table entry of any size but 0, RAM holds the app of the slot as far as app RAM goes, and nothing behind it has changed |
| Preload.SizeCheckMisses | hw/application_fpga/fw/tk1/preload_app.c:33-37 | the size check of preload_load accepts size 0x20001; it means what it should if and only if the size fits in a slot |
| Preload.StoreChunks | hw/application_fpga/fw/tk1/preload_app.c:55-101 | chunks stored one after the other program their concatenation |
| Preload.StoreThenLoad | hw/application_fpga/fw/tk1/preload_app.c:23-156 | an image stored in chunks in an erased slot and finalized loads back as the image |
| Boot.Firmware.PowerOn | hw/application_fpga/fw/tk1/main.c:513-536 | start-up reads the partition table and halts without one |
| Boot.Firmware.StartWhere | hw/application_fpga/fw/tk1/main.c:448-511 | next state, slot and digest to verify for each start type |
| Boot.Firmware.InitialCommands | hw/application_fpga/fw/tk1/main.c:173-273 | a load command is accepted exactly for sizes 1 to 131072; the failing commands are exactly the unknown ones and those of wrong length |
| Boot.Firmware.LoadingCommands | hw/application_fpga/fw/tk1/main.c:275-339 | each data command appends at most 127 bytes; the app is measured when the last one has come |
| Boot.DataCommand | hw/application_fpga/fw/tk1/main.c:291-302 | RAM holds the data of the commands so far, and all of it when nothing is left |
| Boot.CommandCount | hw/application_fpga/fw/tk1/main.c:275-339 | loading takes exactly ceil(size / 127) data commands |
| Boot.Firmware.LoadFlashApp | hw/application_fpga/fw/tk1/main.c:384-405 | fails exactly for an empty slot and for sizes above 131072; otherwise RAM holds the app of the slot and the digest is that of RAM |
| Boot.Firmware.LoadFlashStep | hw/application_fpga/fw/tk1/main.c:575-600 | the management app's digest is recorded, and only for its own start types |
| Boot.Firmware.StartStep | hw/application_fpga/fw/tk1/main.c:602-646 | the app starts if and only if its digest is the one asked for, and then the reset information has been cleared |
| Boot.Firmware.Step | hw/application_fpga/fw/tk1/main.c:548-657 | each pass of the state loop keeps the invariant, follows the conversation with the client, and keeps the outcome that flash and reset information decide |
| Boot.Firmware.StateLoop | hw/application_fpga/fw/tk1/main.c:548-657 | the loop ends, and where the conversation with the client leads |
| Boot.Settled | hw/application_fpga/fw/tk1/main.c:548-657 | commands after the app has come, or after a refusal, make no difference |
| Boot.Firmware.BootUp | hw/application_fpga/fw/tk1/main.c:513-657 | the outcome is exactly decided: a start from flash runs its app if and only if the slot is filled and the digest is the one asked for; a start from a client ends where the commands lead, running the app they spell if and only if its digest is the one asked for; without a table, or with an unknown start type, it halts |
| Boot.Firmware.RunningApp | hw/application_fpga/fw/tk1/main.c:602-646 | a running app is what was measured: digest of RAM, equal to the wanted digest if any; it is the management app only with the allowed digest; from the client, RAM is the data of its commands |
| Boot.Firmware.Reset | hw/application_fpga/fw/tk1/reset.c:20-62 | what the next boot reads, for a valid request: type, mask, digest, a measured identity mixing in the caller's own, and its data; nothing changes otherwise |
| Boot.OneBoot | hw/application_fpga/fw/tk1/main.c:513-657 | one boot from any flash contents: an app starts exactly when flash, reset information and commands say so; a started app is the one measured and wanted, with its identity; and what it leaves for the next boot |
| Boot.Chain | hw/application_fpga/fw/tk1/main.c:513-657 | over every chain of boots, with any flash contents before each, each started app is the one measured and wanted and has the identity that follows, each boot obeys the reset before it, and starts an app exactly when that reset, flash and commands say so |
| Boot.VerifiedReset | hw/application_fpga/fw/tk1/reset.c:20-62 | after a reset that asks for a digest, an app that starts has that digest |
| Boot.MeasuredReset | hw/application_fpga/fw/tk1/main.c:113-160 | after a reset with the seed bit the identity of the next app is the keyed hash over the measured identity, which is the hash of the identity before and the seed |

## Left out

- AbelianGroup, Sound: completeness of the point formulas, primality of 2^255 - 19 and L, and the numbers in b_window and b_comb are hypotheses, not results.
- InvSqrt.InverseSqrt: that 2^255 - 19 is prime is a hypothesis of the full statement (PrimeModulus), and so it is in InvSqrt.Invert and X25519.Scalarmult; each also says what holds without it.
- X25519.MultipleStands: that the doubling and differential addition formulas do so in the curve group is a hypothesis (Montgomery).
- SignatureCheck.CheckEquation: point decoding and encoding (ge_frombytes_neg_vartime, ge_tobytes) are parameters of the model.
- EdwardsPoint.Ge.Add: the group law is not derived from the formulas; the formulas are proved to satisfy the addition equation.
- FieldOps.Add: limb vectors are values here, so which C buffers overlap is visible only in the array methods FieldElement.FeMul, FeSq and FeMulSmall and FieldOps.FeCSwap and FeCCopy.
- FieldElement.FeMul: the unrolled C expression is written as ten sums over a function of two indices, in the same order of terms.
- FieldBytes.FeFromBytes: only the variant that drops one bit; the two-bit variant serves Elligator.
- FieldOps.FeCSwap: constant-time behaviour and wiping are not functional properties.
- X25519Calls.InverseStands: that L is prime is a hypothesis; without it the scalar is key^(L-2) modulo L.
- Argon2.FillMemory: the initial hash, extended_hash, g_rounds and the final xor of lanes are parameters or absent; the memory layout and order are exact.
- Sha512: HMAC, HKDF and the Ed25519 variants built on it.
- Blake2b.Keyed: crypto_blake2b is the case of an empty key.
- UsbController.Controller.MainStep: the direction from USB to UART, endpoint 0, bus reset, suspend and the wait for configuration.
- UsbController.Controller.ZeroLengthStep: where a zero-length packet falls among later data packets is not stated; it carries no data.
- UsbController.Controller.HandleCh552Step: the restart after a request to set endpoints is a new controller, built by the constructor.
- UsbController.Run: how soon the FPGA reacts to CTS is the hypothesis of two bytes; a wire with bare bytes between frames is not followed.
- Flash.Chip.WriteData: failing SPI transfers, status polling and power modes.
- PartitionTable.OneCrashIsAtomic: repeated power losses; the code does not repair a damaged second copy.
- Storage.Store.Allocate: the tag is a function that separates apps, standing for a 16-byte BLAKE2s of identity and nonce; the nonce is a parameter.
- Storage.Store.EraseAreas: a failing table write, since the modelled chip does not fail.
- Preload.PreloadLoad: for sizes above app RAM, the bytes that the code would copy beyond it; the boot ends in failure for them.
- Boot.Firmware.BootUp: readcommand, whose outcome depends on how the host cuts its USB frames; whole commands or failures are its input.
- Boot.Firmware.PowerOn: RAM scrambling appears as arbitrary contents of RAM.
- Boot.Chain: what the running app does to flash appears as arbitrary flash contents before the next boot; Storage.Run and Preload.StoreThenLoad say what its calls can do.
- Boot.Firmware.Reset: reset_data and get_metadata only copy bytes out.
- ChaCha20, AEAD, Elligator and the dirty X25519 keys, touch, LED, timers and the random number generator, Verilog, host tools and sample apps.
- Any claim of cryptographic strength: hashes are functions, and separation of tags is a hypothesis.
