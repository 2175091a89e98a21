# Mbed TLS arithmetic, modes and codecs in Dafny

This project models parts of the Mbed TLS 3.4.0 code that the HTTP client builds
against, and the client's chunked body reader, and proves what they compute.

**Multi-precision arithmetic.** A limb array stands for the sum of its limbs times
powers of 2^biL. The limb width biL is a constant left open: everything holds for every
power of two from 8 bits upwards, for both multiplication paths and on either byte
order. `Limbs`, `MulAddc`, `Core`, `Bits`, `WordDiv`, `CoreBytes`, `Mont` and `ExpCore`
follow `bignum_core.c`, `bn_mul.h` and the word division of `bignum.c`: methods on
arrays with offsets, in wrapping word arithmetic, each tied to a function on limb
sequences whose value is then proved. `Mpi*` follows `bignum.c`: a class `Mpi` with sign
and limb buffer, updated in place, aliasing included. `ModRaw`, `Residues` and `ModRuns`
follow `bignum_mod_raw.c` and `bignum_mod.c` up to whole runs over Z/m. `Gcd`, `Fermat`
and `MontRep` hold the number theory these rest on.

**CCM.** `CcmSpec` states RFC 3610 over any function on 16-byte blocks; `Ccm` is the
context with its fields; `CcmRuns` states what any split of the input does.

**XTS and Camellia.** `Xts` and `Camellia` prove the structure of the two ciphers for any
block permutation and any S-boxes; `Rfc3713` writes Camellia out as the standard does.

**Codecs.** `Der*`, `Base64` and `Chunked` prove that reading undoes writing, and what a
reader accepts.

`Status` (in `ReturnCodes`) with `:-` stands for return codes and MBEDTLS_MPI_CHK.

## Where the code differs from what one would expect

- `mbedtls_mpi_gcd(A, 0)` returns A, so it is the gcd exactly when B != 0 or A >= 0.
- `mbedtls_mpi_exp_mod` returns N instead of 0 exactly when the sign field of A is -1, E is
  odd and N divides A^E. A zero can have that sign: `mbedtls_mpi_shift_r` makes one of -1.
- `mbedtls_mpi_div_mpi` reads the signs of A and B after it has overwritten Q. With Q in
  place of an operand the quotient is wrong exactly when `SignLost` holds and
  abs(A) >= abs(B) (`MpiDiv.QuotientSignLost`: -4 / 2 gives 2). With Q in place of A and R
  wanted, the remainder is right exactly when `RemKept` holds (`MpiDiv.RemainderLost`).
- `mbedtls_mpi_mod_read` leaves a number that it refuses as too large in the residue. A
  residue below N stays below N exactly when the representation is invalid, the input is
  too long or its value is below N (`Residues.RefusedStays`: 3 modulo 3). A run keeps
  residues below N as long as such a residue is not used.
- `httpc_chunked_recv` stores a NUL at `tmp_buf[count - 1]`, which is index -1 exactly when
  the stream is at its end, as it is after a body that lacks its last size line
  (`Chunked.AtEnd`, `Chunked.RecvTruncated`).
- `asn1_write_tagged_int` writes the low octet of a negative int only, and
  `mbedtls_asn1_write_mpi` the magnitude of a negative number: each is read back exactly
  when it is not negative (`DerWrite.NegativeInt`, `DerMpi.NegativeMpi`).
- The ASN.1 writers count in `size_t` and return an int. With room enough the result is the
  number of octets exactly when that is below 2^31; larger ones come out negative or
  wrapped. A bit string of 2^32 - 4 octets gives 3 (`DerWrite.WrappedBitstring`). An octet
  string of 2^32 + 5 octets gives 7 and an element over the first five
  (`DerWrite.WrappedString`).
- CCM* without a tag takes messages of any length, so its counter can wrap around. The
  counter blocks differ exactly for messages of at most 256^q blocks, q being 15 minus the
  length of the nonce (`CcmSpec.CounterRepeats`, `CcmRuns.RepeatedKeyStream`).
- The comment in `mbedtls_mpi_div_mpi` refers to HAC 14.20, which normalises the divisor
  to have its top bit set; the code shifts it so that its bit length is biL - 1 modulo biL.
  The proofs need only a non-zero top limb.

## Model

| member | source | states |
|---|---|---|
| `MulAddc.WideExact` | component/mbedtls-3.4.0/library/bn_mul.h:1005-1022 | The double-width body leaves d + s*b + c in the pair (limb, carry), nothing lost |
| `MulAddc.HalvesExact` | component/mbedtls-3.4.0/library/bn_mul.h:1024-1051 | The half-limb body, with every step wrapping, leaves exactly d + s*b + c |
| `MulAddc.BodiesAgree` | component/mbedtls-3.4.0/library/bn_mul.h:1005-1051 | The two portable bodies give the same limb and carry for all operands |
| `Core.MulAddcX1` | component/mbedtls-3.4.0/library/bn_mul.h:1005-1051 | One step of the body advances the exact running sum d + s*b by one limb |
| `Core.MulAddcX8` | component/mbedtls-3.4.0/library/bn_mul.h:1053-1069 | The X8 unrolling is eight single steps of the same running sum |
| `WordDiv.Clz` | component/mbedtls-3.4.0/library/bignum_core.c:36-50 | Number of leading zero bits: a lies in [2^(biL-1-j), 2^(biL-j)) |
| `WordDiv.HalfDigit` | component/mbedtls-3.4.0/library/bignum.c:1302-1325 | One half-limb quotient digit: after estimate and corrections u*2^biH + w = q*d + x with x < d, all in wrapping arithmetic |
| `WordDiv.HalfWordDiv` | component/mbedtls-3.4.0/library/bignum.c:1277-1333 | Knuth division in half limbs, with normalisation undone, is exact division of a double limb |
| `WordDiv.WideDiv` | component/mbedtls-3.4.0/library/bignum.c:1263-1275 | The double-width path is exact division |
| `WordDiv.IntDivInt` | component/mbedtls-3.4.0/library/bignum.c:1237-1335 | For d != 0 and u1 < d both paths give floor quotient and remainder; otherwise all-ones |
| `Core.AddSeqVal` | component/mbedtls-3.4.0/library/bignum_core.c:356-372 | Sum limbs plus carry times 2^(biL*n) equal the sum of the operands |
| `Core.CoreAdd` | component/mbedtls-3.4.0/library/bignum_core.c:356-372 | In place or not, the array holds the sum limbs and the carry is returned; nothing else is written |
| `Core.CondAssign` | component/mbedtls-3.4.0/library/constant_time.c:353-377 | All limbs taken from A when the condition is 1, kept when it is 0 |
| `Arith.BitOpsAt` | component/mbedtls-3.4.0/library/common.h:124-136 | Exclusive or, and, or of numbers, bit by bit |
| `Core.CoreAddIf` | component/mbedtls-3.4.0/library/bignum_core.c:374-394 | Conditional addition through a mask: sum and carry, or unchanged with carry 0 |
| `Core.SubBorrow` | component/mbedtls-3.4.0/library/bignum_core.c:396-411 | Borrow 0 iff A >= B and the limbs are A - B; borrow 1 iff A < B and they are A - B + 2^(biL*n) |
| `Core.CoreSub` | component/mbedtls-3.4.0/library/bignum_core.c:396-411 | Array form of that subtraction, in place or not |
| `Core.SubIntSeqVal` | component/mbedtls-3.4.0/library/bignum_core.c:791-804 | A single limb taken off with the borrow rippling up: exact |
| `Core.CoreSubInt` | component/mbedtls-3.4.0/library/bignum_core.c:791-804 | Array form of subtracting a limb |
| `Core.MlaSeqVal` | component/mbedtls-3.4.0/library/bignum_core.c:413-449 | d + s*b modulo 2^(biL*d_len) with the exact carry, s clamped to d_len limbs |
| `Core.MlaFits` | component/mbedtls-3.4.0/library/bignum_core.c:413-449 | When d + s*b fits, the limbs hold it and the carry is 0 |
| `Core.MlaMultiply` | component/mbedtls-3.4.0/library/bignum_core.c:427-440 | Every split into 8-limb and 1-limb steps computes the same running sum |
| `Core.MlaExcess` | component/mbedtls-3.4.0/library/bignum_core.c:442-446 | The carry runs through the limbs of d beyond s |
| `Core.CoreMla` | component/mbedtls-3.4.0/library/bignum_core.c:413-449 | Array form: the limbs and carry of multiply-accumulate, s possibly being d |
| `Bits.CoreBitlen` | component/mbedtls-3.4.0/library/bignum_core.c:52-69 | The bit length b of the value: 2^(b-1) <= v < 2^b, 0 for zero |
| `Bits.ShiftRVal` | component/mbedtls-3.4.0/library/bignum_core.c:316-354 | A right shift by count is division by 2^count, for every count |
| `Bits.CoreShiftR` | component/mbedtls-3.4.0/library/bignum_core.c:316-354 | The two loops shift the array in place as that specification says |
| `CoreBytes.ReadLe` | component/mbedtls-3.4.0/library/bignum_core.c:189-210 | The limbs hold the little-endian value; too long an input is refused and nothing is written |
| `CoreBytes.BigendianToHost` | component/mbedtls-3.4.0/library/bignum_core.c:87-104 | On either byte order the limb becomes the big-endian value of its bytes in memory |
| `CoreBytes.BigendianLimbs` | component/mbedtls-3.4.0/library/bignum_core.c:106-134 | Limbs are reversed and each converted, the middle one once |
| `CoreBytes.ReadBe` | component/mbedtls-3.4.0/library/bignum_core.c:212-241 | The limbs hold the big-endian value, on either host byte order |
| `CoreBytes.WriteLe` | component/mbedtls-3.4.0/library/bignum_core.c:243-275 | The buffer holds the bytes of the value iff it fits, otherwise an error and an untouched buffer |
| `CoreBytes.WriteBe` | component/mbedtls-3.4.0/library/bignum_core.c:277-314 | The same, most significant byte first |
| `Bytes.LeCons` | component/mbedtls-3.4.0/library/bignum_core.c:189-210 | The value of a little-endian string: its first byte plus 256 times the rest |
| `Bytes.BeSnoc` | component/mbedtls-3.4.0/library/bignum_core.c:212-241 | The value of a big-endian string: its last byte plus 256 times the rest |
| `Mont.NewtonLimb` | component/mbedtls-3.4.0/library/bignum_core.c:454-465 | One wrapped Newton step doubles the number of correct bits of the inverse |
| `Mont.MontmulInit` | component/mbedtls-3.4.0/library/bignum_core.c:454-465 | For every odd N[0] the result is -N^-1 mod 2^biL, for every limb width |
| `Mont.RowVal` | component/mbedtls-3.4.0/library/bignum_core.c:478-487 | One row: T + u0*B + u1*N ends in a zero limb and its quotient is exact |
| `Mont.RowArith` | component/mbedtls-3.4.0/library/bignum_core.c:478-487 | After each row T stays below B + N and T*2^(biL*i) = A_i*B + u*N |
| `Mont.MontRows` | component/mbedtls-3.4.0/library/bignum_core.c:476-487 | The outer loop keeps that relation for all limbs of A |
| `Mont.ReducedVal` | component/mbedtls-3.4.0/library/bignum_core.c:499-516 | For T < 2N the pair (carry, borrow) = (1, 0) cannot occur and the selection gives T or T - N below N |
| `Mont.CoreMontmul` | component/mbedtls-3.4.0/library/bignum_core.c:467-517 | X < N and X*R = A*B (mod N), X overlapping A or B in any way, B possibly longer than N |
| `MontRep.RepMul` | component/mbedtls-3.4.0/library/bignum_core.c:467-517 | Montgomery product of the forms of a and b is the form of a*b |
| `MontRep.RepEnter` | component/mbedtls-3.4.0/library/bignum_core.c:818-827 | Multiplying by R^2 mod N enters Montgomery form |
| `MontRep.RepLeave` | component/mbedtls-3.4.0/library/bignum_core.c:829-839 | Multiplying by 1 leaves it with the canonical residue |
| `MontRep.MontDecSum` | component/mbedtls-3.4.0/library/bignum_mod_raw.c:113-197 | Sums and differences of forms are forms of sums and differences |
| `ExpCore.PrecomputeWindow` | component/mbedtls-3.4.0/library/bignum_core.c:661-686 | Entry k of the table stands for a^k, for all welem entries, within the scratch area |
| `ExpCore.TableLookup` | component/mbedtls-3.4.0/library/bignum_core.c:534-544 | Every entry is read and exactly the indexed one is kept |
| `ExpCore.ScanBit` | component/mbedtls-3.4.0/library/bignum_core.c:743-764 | exponent(X) + window stays the part of E read so far, and window < 2^windowBits |
| `ExpCore.CoreExpMod` | component/mbedtls-3.4.0/library/bignum_core.c:700-781 | X ends as a^E in Montgomery form for every multi-limb E; scratch writes stay inside exp_mod_working_limbs |
| `MpiObject.Grow` | component/mbedtls-3.4.0/library/bignum.c:99-124 | Zero limbs appended, value kept; refused exactly beyond 10000 limbs |
| `MpiObject.Copy` | component/mbedtls-3.4.0/library/bignum.c:198-237 | Same value and sign, buffer never shrunk, leading zero limbs not copied |
| `MpiObject.CmpAbs` | component/mbedtls-3.4.0/library/bignum.c:813-852 | Sign of abs(X) - abs(Y), whatever leading zero limbs either has |
| `MpiObject.CmpMpi` | component/mbedtls-3.4.0/library/bignum.c:857-903 | Sign of X - Y, zero equal to zero whatever its sign field |
| `MpiAdd.Lset` | component/mbedtls-3.4.0/library/bignum.c:268-282 | X becomes z, including the most negative value |
| `MpiAdd.CmpInt` | component/mbedtls-3.4.0/library/bignum.c:908-920 | Sign of X - z |
| `MpiAdd.AddAbs` | component/mbedtls-3.4.0/library/bignum.c:925-982 | abs(X) = abs(A) + abs(B) for every aliasing; a limb is added only when the sum needs it, failure only at the size limit |
| `MpiAdd.SubAbs` | component/mbedtls-3.4.0/library/bignum.c:987-1036 | abs(X) = abs(A) - abs(B) for every aliasing, NEGATIVE_VALUE iff abs(A) < abs(B) |
| `MpiAdd.AddSub` | component/mbedtls-3.4.0/library/bignum.c:1041-1072 | X = A +- B with signs; with cancelling signs it cannot fail and does not grow |
| `MpiAdd.AddMpi` | component/mbedtls-3.4.0/library/bignum.c:1077-1080 | X = A + B for every aliasing |
| `MpiAdd.SubMpi` | component/mbedtls-3.4.0/library/bignum.c:1085-1088 | X = A - B for every aliasing |
| `MpiShift.Bitlen` | component/mbedtls-3.4.0/library/bignum.c:350-353 | Bit length of abs(X) |
| `MpiShift.Lsb` | component/mbedtls-3.4.0/library/bignum.c:331-345 | The number of trailing zero bits; 0 for zero |
| `MpiShift.ShiftL` | component/mbedtls-3.4.0/library/bignum.c:750-796 | X * 2^count, no bit lost; the buffer grows to exactly the bits needed, failure iff that exceeds the limit |
| `MpiShift.ShiftR` | component/mbedtls-3.4.0/library/bignum.c:801-808 | abs(X) / 2^count with the sign kept |
| `MpiMul.MulInt` | component/mbedtls-3.4.0/library/bignum.c:1197-1231 | X = A*b exactly, also when X is A |
| `MpiMul.MulRows` | component/mbedtls-3.4.0/library/bignum.c:1169-1175 | Row by row the buffer holds A times the low limbs of B, no carry lost |
| `MpiMul.MulMpi` | component/mbedtls-3.4.0/library/bignum.c:1129-1192 | X = A*B with sign, also when X is A or B; zero is positive; ALLOC_FAILED iff the significant limbs of both exceed the limit |
| `MpiDiv.Normalise` | component/mbedtls-3.4.0/library/bignum.c:1377-1392 | Both operands shifted by the same k, the divisor's top limb non-zero, within one extra limb |
| `MpiDiv.FirstEstimate` | component/mbedtls-3.4.0/library/bignum.c:1405-1410 | The quotient digit estimated from one divisor limb is never too low |
| `MpiDiv.TestIsSound` | component/mbedtls-3.4.0/library/bignum.c:1412-1424 | If z times the two leading limbs exceeds the three leading limbs, z is too high |
| `MpiDiv.AtMostOneTooHigh` | component/mbedtls-3.4.0/library/bignum.c:1412-1424 | If it does not, z is at most one too high |
| `MpiDiv.EstimateDigit` | component/mbedtls-3.4.0/library/bignum.c:1405-1424 | The do-while loop ends with the digit or one more, and terminates |
| `MpiDiv.ApplyDigit` | component/mbedtls-3.4.0/library/bignum.c:1426-1435 | At most one add-back makes X = d*Y*b^e + X' with X' < Y*b^e |
| `MpiDiv.CountMultiples` | component/mbedtls-3.4.0/library/bignum.c:1398-1401 | The first digit loop counts how often Y goes into X, fewer than 2^biL times |
| `MpiDiv.LowerDigits` | component/mbedtls-3.4.0/library/bignum.c:1404-1436 | After every digit dividend = Z*Y + X with X below the remaining weight |
| `MpiDiv.QuotRem` | component/mbedtls-3.4.0/library/bignum.c:1337-1341 | The specification: A = Q*B + R, abs(R) < abs(B), R = 0 or of the sign of A |
| `MpiDiv.QuotRemUnique` | component/mbedtls-3.4.0/library/bignum.c:1337-1341 | These conditions determine Q and R |
| `MpiDiv.DivMpi` | component/mbedtls-3.4.0/library/bignum.c:1340-1460 | Q and R of that division, exact error conditions, either output absent, outputs in place of operands included: Q is right if and only if no sign is lost or abs(A) < abs(B), R if and only if Q is not A or RemKept holds |
| `MpiDiv.QuotientSignLost` | component/mbedtls-3.4.0/library/bignum.c:1438-1441 | -4 divided by 2 in place comes out as 2 |
| `MpiDiv.RemainderLost` | component/mbedtls-3.4.0/library/bignum.c:1367-1375 | 1 divided by 2 with Q in place of A leaves remainder 0 |
| `MpiDiv.LateRemRight` | component/mbedtls-3.4.0/library/bignum.c:1367-1451 | With Q in place of A the remainder stored is right exactly when A is 0, or abs(A) >= abs(B) and the signs agree or B divides A |
| `MpiMod.DivInt` | component/mbedtls-3.4.0/library/bignum.c:1465-1479 | Division by a signed limb, with the same if-and-only-if for Q in place of A |
| `MpiMod.ModMpi` | component/mbedtls-3.4.0/library/bignum.c:1484-1508 | R = A mod B in [0, B), also when R is A; exact error conditions |
| `MpiMod.ModInt` | component/mbedtls-3.4.0/library/bignum.c:1513-1567 | A mod b for 1 <= b <= 2^biH by half-limb steps, negative A included |
| `Gcds.GcdIsGreatest` | component/mbedtls-3.4.0/library/bignum.c:1949-1951 | Reference gcd: divides both, and every common divisor divides it |
| `MpiGcd.GcdStep` | component/mbedtls-3.4.0/library/bignum.c:2017-2037 | One pass keeps invariant (I) and lowers bitlen(TA) + bitlen(TB) |
| `MpiGcd.GcdMpi` | component/mbedtls-3.4.0/library/bignum.c:1951-2056 | Never fails; the result is the mathematical gcd if and only if B != 0 or A >= 0, otherwise A |
| `MpiGcd.NegativeWithZero` | component/mbedtls-3.4.0/library/bignum.c:1973-1976 | gcd(-2, 0) comes out as -2 |
| `MpiInv.HalvingExact` | component/mbedtls-3.4.0/library/bignum.c:2150-2156 | With TU even and TA, TB not both even, the halving of both coefficients is exact |
| `MpiInv.MakeOdd` | component/mbedtls-3.4.0/library/bignum.c:2147-2157 | The inner loop keeps x1*TA + x2*TB = t, ends with t odd, and bounds the coefficients |
| `MpiInv.Euclid` | component/mbedtls-3.4.0/library/bignum.c:2146-2180 | The loop terminates with TV = 1, so V1*TA + V2*TB = 1, without outgrowing three spare limbs |
| `MpiInv.InvMod` | component/mbedtls-3.4.0/library/bignum.c:2113-2199 | 0 <= X < N and A*X = 1 (mod N); NOT_ACCEPTABLE iff gcd(A, N) != 1, BAD_INPUT iff N <= 1 |
| `Gcds.InverseNeedsCoprime` | component/mbedtls-3.4.0/library/bignum.c:2131-2134 | An inverse exists only when the gcd is 1, so the refusal is right |
| `MpiExp.MontMul` | component/mbedtls-3.4.0/library/bignum.c:1595-1600 | Montgomery product on Mpi buffers, limbs beyond those of N ignored |
| `MpiExp.Select` | component/mbedtls-3.4.0/library/bignum.c:1634-1646 | Every entry is visited and the indexed one is kept |
| `MpiExp.SafeCondAssign` | component/mbedtls-3.4.0/library/constant_time.c:744-767 | Conditional copy of sign and limbs, zero limbs above |
| `MpiSlide.FillTable` | component/mbedtls-3.4.0/library/bignum.c:1799-1828 | The upper half of the table stands for the powers of A; only those and entry 1 are filled |
| `MpiSlide.SlideStep` | component/mbedtls-3.4.0/library/bignum.c:1835-1895 | One exponent bit: exponent of X and window together stay the bits read; a full window starts with a 1, so its entry is filled |
| `MpiSlide.SlideTail` | component/mbedtls-3.4.0/library/bignum.c:1900-1910 | The bits left in the window are worked off with entry 1 only |
| `MpiSlide.Exponentiate` | component/mbedtls-3.4.0/library/bignum.c:1830-1910 | The accumulator ends as A^E in Montgomery form for every E |
| `MpiExpMod.ComputeRR` | component/mbedtls-3.4.0/library/bignum.c:1764-1766 | R^2 mod N, failure exactly at the size limit or for N = 0 |
| `MpiExpMod.ExpMod` | component/mbedtls-3.4.0/library/bignum.c:1651-1946 | X = A^E (mod N) for odd N > 0 and E >= 0, exact BAD_INPUT condition; X in [0, N) except that X = N iff the sign field of A is -1, E is odd and N divides A^E; cached R^2 reused or filled in |
| `MpiExpMod.MultipleOfModulus` | component/mbedtls-3.4.0/library/bignum.c:1917-1920 | (-3)^1 mod 3 comes out as 3 |
| `Radix.DigitsValue` | component/mbedtls-3.4.0/library/bignum.c:456-489 | The digits of v in any radix stand for v and are valid |
| `Radix.EnoughSpace` | component/mbedtls-3.4.0/library/bignum.c:509-526 | The size computed leaves room for sign, digits and terminator |
| `Radix.BufferSizes` | component/mbedtls-3.4.0/library/bignum.c:509-526 | The sizes asked for eight bits in several radices |
| `MpiString.ReadString` | component/mbedtls-3.4.0/library/bignum.c:390-451 | The value of the text, its sign unless zero; INVALID_CHARACTER and ALLOC_FAILED each if and only if TextStatus says so |
| `MpiString.ReadHex` | component/mbedtls-3.4.0/library/bignum.c:418-431 | Radix 16: nibbles or-ed into place from the right give the value |
| `Radix.DigitTables` | component/mbedtls-3.4.0/library/bignum.c:360-388 | The value of a character is its place in 0123456789ABCDEF or 0123456789abcdef, and 255 if it is in neither |
| `Radix.DigitPrinted` | component/mbedtls-3.4.0/library/bignum.c:456-489 | A digit is printed as in the upper-case table |
| `MpiString.LowerCaseRead` | component/mbedtls-3.4.0/library/bignum.c:390-451 | 1a in radix 16 is read as 26 |
| `MpiString.ReadDigits` | component/mbedtls-3.4.0/library/bignum.c:433-440 | Other radices: the value; ALLOC_FAILED iff a valid digit follows a prefix that fills the limit, INVALID_CHARACTER iff otherwise some character is no digit |
| `MpiString.WriteHlp` | component/mbedtls-3.4.0/library/bignum.c:456-489 | The shortest digits, written from the end and moved to the front, with both failures exact |
| `MpiString.WriteHex` | component/mbedtls-3.4.0/library/bignum.c:541-557 | Two digits per byte from the first non-zero byte, one byte for zero |
| `MpiString.WriteString` | component/mbedtls-3.4.0/library/bignum.c:494-576 | Sign, digits and NUL in the buffer; the computed size always suffices, and in it ALLOC_FAILED comes exactly for radices below 16 and numbers within two limbs of the limit |
| `MpiString.NegativePrinted` | component/mbedtls-3.4.0/library/bignum.c:494-576 | -26 in radix 16 is printed as -1A with a NUL |
| `MpiString.ZeroPrinted` | component/mbedtls-3.4.0/library/bignum.c:541-557 | The texts of zero |
| `MpiString.TextRoundTrip` | component/mbedtls-3.4.0/library/bignum.c:390-576 | What is printed reads as the number printed, in every radix from 2 to 16 |
| `MpiString.PrintAndParse` | component/mbedtls-3.4.0/library/bignum.c:390-576 | write_string then read_string gives back the value, for every radix and every Mpi that can be printed; the status is exact |
| `ModRaw.LtCt` | component/mbedtls-3.4.0/library/constant_time.c:804-842 | Constant-time comparison: true iff A < B |
| `ModRaw.RawAdd` | component/mbedtls-3.4.0/library/bignum_mod_raw.c:188-197 | X = (A + B) mod N for residues below N, in place or not |
| `ModRaw.RawSub` | component/mbedtls-3.4.0/library/bignum_mod_raw.c:113-121 | X = (A - B) mod N |
| `ModRaw.RawNeg` | component/mbedtls-3.4.0/library/bignum_mod_raw.c:281-291 | X = -A mod N, zero giving zero |
| `ModRaw.RawMul` | component/mbedtls-3.4.0/library/bignum_mod_raw.c:136-144 | The element of X is the product of the elements of A and B |
| `ModRaw.RawToMont` | component/mbedtls-3.4.0/library/bignum_mod_raw.c:246-262 | In place conversion into Montgomery form |
| `ModRaw.RawFromMont` | component/mbedtls-3.4.0/library/bignum_mod_raw.c:264-279 | In place conversion out of Montgomery form |
| `ModRaw.RawInvPrime` | component/mbedtls-3.4.0/library/bignum_mod_raw.c:159-179 | The element of X is a^(N-2) mod N |
| `Fermat.LittleTheorem` | component/mbedtls-3.4.0/library/bignum_mod_raw.c:166-169 | a^(p-1) = 1 (mod p) for prime p and 0 < a < p |
| `ModRaw.PowerIsInverse` | component/mbedtls-3.4.0/library/bignum_mod_raw.c:166-169 | For prime N that power is the inverse of a |
| `Residues.ResidueSetup` | component/mbedtls-3.4.0/library/bignum_mod.c:37-50 | Accepted iff the size matches and the value is below N |
| `Residues.MontConstSquare` | component/mbedtls-3.4.0/library/bignum_mod.c:103-137 | R^2 mod N in exactly the limbs of N; exact failure condition |
| `Residues.ModulusSetup` | component/mbedtls-3.4.0/library/bignum_mod.c:139-172 | An odd modulus becomes ready with both Montgomery constants; failure clears it |
| `Residues.ModAdd` | component/mbedtls-3.4.0/library/bignum_mod.c:319-331 | Addition in Z/N in either representation, even N included, result below N; size mismatch refused with nothing written |
| `Residues.ModSub` | component/mbedtls-3.4.0/library/bignum_mod.c:208-220 | Subtraction in Z/N in either representation, even N included |
| `Residues.ModMul` | component/mbedtls-3.4.0/library/bignum_mod.c:180-203 | Multiplication in Z/N over a Montgomery modulus |
| `Residues.ModInv` | component/mbedtls-3.4.0/library/bignum_mod.c:222-311 | a^(N-2), and for prime N the inverse, in either representation; zero refused |
| `Residues.ModRead` | component/mbedtls-3.4.0/library/bignum_mod.c:351-378 | The element read iff it is below N, as the big-endian or little-endian value by the representation given; a residue below N stays so if and only if the representation is invalid, the input too long or its value below N |
| `Residues.RefusedStays` | component/mbedtls-3.4.0/library/bignum_mod_raw.c:54-86 | Reading the octet 3 modulo 3 is refused and leaves 3 in the residue |
| `Residues.ModWrite` | component/mbedtls-3.4.0/library/bignum_mod.c:380-419 | The bytes of the element iff they fit, with that big-endian or little-endian value, and the residue limb for limb as before in every case |
| `ModRuns.InverseUnique` | component/mbedtls-3.4.0/library/bignum_mod.c:270-311 | The inverse modulo a prime is unique |
| `ModRuns.StepReduced` | component/mbedtls-3.4.0/library/bignum_mod.c:180-419 | Every call keeps all elements in [0, m) |
| `ModRuns.ReadThenWrite` | component/mbedtls-3.4.0/library/bignum_mod.c:351-419 | Reading in one byte order and writing as many bytes gives them back, reversed when written in the other order |
| `ModRuns.DoCall` | component/mbedtls-3.4.0/library/bignum_mod.c:180-419 | One call of the interface answers and changes the residues as the call in Z/m does |
| `ModRuns.Execute` | component/mbedtls-3.4.0/library/bignum_mod.c:180-419 | Every run of read, add, sub, mul, inv and write gives the bytes and status codes of the same run in Z/m |
| `CcmSpec.FeedIsMac` | component/mbedtls-3.4.0/library/ccm.c:288-318 | Octet-wise absorption and a final flush are CBC-MAC of the zero-padded string |
| `CcmSpec.MacLast` | component/mbedtls-3.4.0/library/ccm.c:360-410 | One more block of CBC-MAC: xor and the block cipher |
| `CcmSpec.AuthIsMac` | component/mbedtls-3.4.0/library/ccm.c:142-198 | The authentication value is CBC-MAC from zero over B_0, the padded associated data with its length, and the padded message |
| `CcmSpec.FlagsFields` | component/mbedtls-3.4.0/library/ccm.c:164-178 | The flags of B_0 read back: presence of associated data, (t - 2) / 2 and q - 1 |
| `CcmSpec.FirstBlockInjective` | component/mbedtls-3.4.0/library/ccm.c:164-189 | B_0 determines nonce, lengths of message and tag, and presence of associated data |
| `CcmSpec.EncodedAd` | component/mbedtls-3.4.0/library/ccm.c:288-290 | Associated data is preceded by its length in two big-endian octets |
| `CcmSpec.PrefixFree` | component/mbedtls-3.4.0/library/ccm.c:142-431 | No authenticated string is the beginning of another: it determines nonce, associated data, message and tag length |
| `CcmSpec.PacketVector1` | component/mbedtls-3.4.0/library/ccm.c:142-236 | B_0, A_0 and A_1 of packet vector 1 of RFC 3610, octet by octet |
| `CcmSpec.PacketVector1Ad` | component/mbedtls-3.4.0/library/ccm.c:288-318 | The block of associated data of that vector |
| `CcmSpec.ShortMessage` | component/mbedtls-3.4.0/library/ccm.c:329-468 | A message of one block is masked with counter 1, its tag with counter 0 |
| `CcmSpec.AcceptedLengths` | component/mbedtls-3.4.0/library/ccm.c:155-265 | The lengths accepted, listed as in appendix A.1 of NIST SP 800-38C, and those of CCM* |
| `CcmSpec.CtrTwice` | component/mbedtls-3.4.0/library/ccm.c:113-133 | Counter-mode encryption undoes itself |
| `CcmSpec.SameCounter` | component/mbedtls-3.4.0/library/ccm.c:414-420 | Counter blocks are equal if and only if the counters agree modulo 256^q |
| `CcmSpec.CountersDistinct` | component/mbedtls-3.4.0/library/ccm.c:155-189 | The counter blocks of an accepted message differ pairwise if and only if it has at most 256^q blocks, and from the tag's block too if and only if it has fewer; always so with a tag |
| `CcmSpec.CounterRepeats` | component/mbedtls-3.4.0/library/ccm.c:343-348 | In CCM* without a tag and with a 13-octet nonce, block 65537 repeats the counter of block 1, and block 65536 that of the tag |
| `Ccm.Increment` | component/mbedtls-3.4.0/library/ccm.c:414-420 | The block of counter i becomes that of i + 1 |
| `Ccm.StoreLength` | component/mbedtls-3.4.0/library/ccm.c:182-189 | The length in q octets, and whether it did not fit |
| `Ccm.Context.FirstBlock` | component/mbedtls-3.4.0/library/ccm.c:142-198 | y becomes E(B_0) of RFC 3610 section 2.2, or an error iff the message is too long or the tag empty outside CCM* |
| `Ccm.Context.Starts` | component/mbedtls-3.4.0/library/ccm.c:200-236 | Nonce and counter block set; together with set_lengths in either order the session starts, accepted iff the lengths are allowed |
| `Ccm.Context.SetLengths` | component/mbedtls-3.4.0/library/ccm.c:238-265 | Lengths checked and recorded; the other order, with the same exact acceptance |
| `Ccm.Context.UpdateAd` | component/mbedtls-3.4.0/library/ccm.c:267-327 | Any piece of associated data up to the announced length extends the session by it; more is refused unchanged |
| `Ccm.Context.Update` | component/mbedtls-3.4.0/library/ccm.c:329-431 | Any piece of message gives its part of the key stream xor and extends the session by its plaintext |
| `Ccm.Context.Finish` | component/mbedtls-3.4.0/library/ccm.c:433-468 | The tag when all data is in, the context then clear; otherwise refused unchanged; for CCM* with no tag any message is complete |
| `Ccm.MsgYIsAuth` | component/mbedtls-3.4.0/library/ccm.c:267-431 | With all data in, y is the authentication value of RFC 3610 section 2.2 |
| `CcmRuns.Stream` | component/mbedtls-3.4.0/library/ccm.c:142-468 | From a clear context, either order of the first calls and any split of both inputs, CCM* with an empty tag included: ciphertext and tag of RFC 3610, context clear again |
| `CcmRuns.AuthCrypt` | component/mbedtls-3.4.0/library/ccm.c:473-504 | One shot equals the same specification; accepted exactly for the lengths that CCM, or CCM* in its modes, allows |
| `CcmRuns.CompareTags` | component/mbedtls-3.4.0/library/ccm.c:532-549 | Success iff the tags are equal |
| `CcmRuns.AuthDecrypt` | component/mbedtls-3.4.0/library/ccm.c:551-572 | The plaintext iff the tag is right, otherwise AUTH_FAILED and a zeroed output; BAD_INPUT iff the lengths are not allowed |
| `CcmRuns.OpenSeal` | component/mbedtls-3.4.0/library/ccm.c:473-572 | Opening what was sealed gives the plaintext, for every length accepted |
| `CcmRuns.RoundTrip` | component/mbedtls-3.4.0/library/ccm.c:473-572 | The two routines run one after the other give back the message, in CCM and CCM* |
| `CcmRuns.RepeatedKeyStream` | component/mbedtls-3.4.0/library/ccm.c:473-504 | Such a message is accepted, and its blocks 1 and 65537 are xored with the same octets |
| `Xts.DoubledIsTimesX` | component/mbedtls-3.4.0/library/aes.c:1121-1134 | The two 64-bit word operations multiply by x modulo x^128 + x^7 + x^2 + x + 1 |
| `Xts.TimesXUnique` | component/mbedtls-3.4.0/library/aes.c:1121-1134 | That remainder is unique |
| `Xts.GfMulX` | component/mbedtls-3.4.0/library/aes.c:1121-1134 | The same on sixteen little-endian bytes |
| `Xts.WholeBlocks` | component/mbedtls-3.4.0/library/aes.c:1174-1199 | Block j is masked with the initial tweak times x^j, the last one with the next tweak when decrypting a partial unit |
| `Xts.Steal` | component/mbedtls-3.4.0/library/aes.c:1201-1232 | Ciphertext stealing patches the previous block and leaves its head as the last bytes |
| `Xts.CryptXts` | component/mbedtls-3.4.0/library/aes.c:1139-1235 | The whole unit of IEEE Std 1619-2007 sections 5.3 and 5.4, for every length from 16 bytes to 2^20 blocks |
| `Xts.WholeBytes` | component/mbedtls-3.4.0/library/aes.c:1174-1199 | Block j of a unit of whole blocks is xored with tweak j, enciphered and xored again |
| `Xts.EncryptedSteals` | component/mbedtls-3.4.0/library/aes.c:1201-1232 | Section 5.3.2 of IEEE Std 1619-2007 told by units of whole blocks: head and tail of what the last whole block encrypts to |
| `Xts.EncryptedBytes` | component/mbedtls-3.4.0/library/aes.c:1201-1232 | The same on the bytes written |
| `Xts.DecryptedSteals` | component/mbedtls-3.4.0/library/aes.c:1174-1232 | Section 5.4.2 of IEEE Std 1619-2007 told by units of whole blocks |
| `Xts.UnitRoundTrip` | component/mbedtls-3.4.0/library/aes.c:1139-1235 | Decrypting undoes encrypting for any block permutation and its inverse, whole blocks or not |
| `Xts.BytesRoundTrip` | component/mbedtls-3.4.0/library/aes.c:1139-1235 | The same on byte strings |
| `Xts.EncryptAndDecrypt` | component/mbedtls-3.4.0/library/aes.c:1139-1235 | The routine run to encrypt and then to decrypt gives back the input, for every length accepted |
| `Camellia.FLInverse` | component/mbedtls-3.4.0/library/camellia.c:232-242 | FL and FLInv undo each other for every key |
| `Rfc3713.RoundIsF` | component/mbedtls-3.4.0/library/camellia.c:258-284 | camellia_feistel computes the F function of section 2.4.1 of RFC 3713, octet by octet |
| `Rfc3713.FLBits` | component/mbedtls-3.4.0/library/camellia.c:232-236 | FL bit by bit, as in section 2.4.2 |
| `Rfc3713.Weights` | component/mbedtls-3.4.0/library/camellia.c:265-274 | The octets of a word by their weights |
| `Rfc3713.LoadedWeights` | component/mbedtls-3.4.0/library/camellia.c:479-482 | The first octet of a block has the highest weight |
| `Camellia.StepUndone` | component/mbedtls-3.4.0/library/camellia.c:489-510 | With halves exchanged, the step at the mirrored position undoes a step, for any S-boxes |
| `Camellia.StepsUndone` | component/mbedtls-3.4.0/library/camellia.c:489-510 | Any number of steps with reversed keys takes back as many steps |
| `Camellia.SetKeyDec` | component/mbedtls-3.4.0/library/camellia.c:414-458 | The pointer walk reverses the key pairs between the whitening keys, for all key sizes |
| `Camellia.CryptWords` | component/mbedtls-3.4.0/library/camellia.c:476-514 | The round loop computes the network for 18 or 24 rounds |
| `Rfc3713.NetworkIs18` | component/mbedtls-3.4.0/library/camellia.c:484-520 | With 128-bit keys the network is the 18 rounds of section 2.3.1 written out, subkey by subkey |
| `Rfc3713.NetworkIs24` | component/mbedtls-3.4.0/library/camellia.c:484-520 | With longer keys it is the 24 rounds of section 2.3.2 |
| `Camellia.StoreOfLoad` | component/mbedtls-3.4.0/library/camellia.c:479-520 | Storing the loaded words gives back the bytes |
| `Camellia.LoadOfStore` | component/mbedtls-3.4.0/library/camellia.c:479-520 | Loading the stored bytes gives back the words |
| `Camellia.CryptEcb` | component/mbedtls-3.4.0/library/camellia.c:463-523 | Sixteen big-endian bytes through the network of 18 or 24 rounds and back to bytes; any other mode refused |
| `Camellia.NetworkUndone` | component/mbedtls-3.4.0/library/camellia.c:414-523 | The network with the reversed keys undoes the network, for any round keys and S-boxes |
| `Camellia.RoundTrip` | component/mbedtls-3.4.0/library/camellia.c:414-523 | Encrypting sixteen bytes, then decrypting with the derived context, gives them back |
| `Base64.Encode` | component/mbedtls-3.4.0/library/base64.c:39-101 | The encoding and a NUL, or the size needed |
| `Base64.EncodedDigit` | component/mbedtls-3.4.0/library/constant_time.c:383-395 | Digit v is the v-th character of the alphabet of RFC 1521 written out |
| `Base64.DecodedDigit` | component/mbedtls-3.4.0/library/constant_time.c:397-412 | Those characters are the digits, each standing for its place |
| `Base64.QuadNumber` | component/mbedtls-3.4.0/library/base64.c:67-78 | Three octets and their four digits are the same number of 24 bits |
| `Base64.EncodedExamples` | component/mbedtls-3.4.0/library/base64.c:39-101 | Man, Ma and M are encoded as TWFu, TWE= and TQ== |
| `Base64.FirstPass` | component/mbedtls-3.4.0/library/base64.c:118-162 | Accepts exactly the texts that Accepts describes, and counts digits and padding |
| `Base64.EnoughRoom` | component/mbedtls-3.4.0/library/base64.c:173-204 | For every accepted text the second pass writes no more than the n bytes the first pass computed |
| `Base64.SecondPass` | component/mbedtls-3.4.0/library/base64.c:181-206 | The decoded bytes, written within those n bytes |
| `Base64.Decode` | component/mbedtls-3.4.0/library/base64.c:106-209 | Decoded bytes, or the error that applies, for every input |
| `Base64.TakeEncoded` | component/mbedtls-3.4.0/library/base64.c:39-206 | An encoding decodes to its bytes behind any number of whole groups |
| `Base64.InsertBreak` | component/mbedtls-3.4.0/library/base64.c:118-140 | A LF or CRLF may be put anywhere but inside a CRLF |
| `Base64.RoundTrip` | component/mbedtls-3.4.0/library/base64.c:39-209 | decode(encode(x)) = x, whole or broken into lines |
| `Base64.Unbroken` | component/mbedtls-3.4.0/library/base64.c:39-209 | The encoding itself is such a text |
| `Base64.EncodeAndDecode` | component/mbedtls-3.4.0/library/base64.c:39-209 | The two routines run one after the other give back any byte string, in a buffer of exactly its length |
| `Chunked.ReadOneLine` | httpc/src/httpc.c:343-372 | The bytes up to the first CRLF, or a full buffer, or the end of the data; the LF is consumed; the count is 0 if and only if the stream was at its end |
| `Chunked.ChunkedRecv` | httpc/src/httpc.c:381-444 | One call reads a line, of any length, and as many bytes as it says with their CRLF, or fails and delivers nothing; the store into the line buffer is inside it if and only if the stream was not at its end |
| `Chunked.AtEnd` | httpc/src/httpc.c:408-413 | On the empty stream the store is at index -1 |
| `Chunked.RecvNext` | httpc/src/httpc.c:381-444 | On a body framed as in section 7.1 of RFC 9112 a call returns the next chunk and stops at the next size line; the zero size delivers no bytes |
| `Chunked.LowerCaseSize` | httpc/src/httpc.c:415-433 | A chunk of ten octets announced as a is returned |
| `Chunked.StrtoulExamples` | httpc/src/httpc.c:415-415 | What strtoul makes of blanks, signs, a prefix and other characters |
| `Chunked.RecvBody` | httpc/src/httpc.c:381-444 | Repeated calls return all chunks in order and leave the trailer |
| `Chunked.RecvPart` | httpc/src/httpc.c:429-440 | Of a chunk that is cut short the part that arrives is returned |
| `Chunked.RecvTruncated` | httpc/src/httpc.c:381-444 | A body cut off before its last size line: the call after the last chunk stores at index -1 |
| `Der.LenRoundTrip` | component/mbedtls-3.4.0/library/asn1write.c:31-93 | get_len reads back every written length up to 2^32 - 1 |
| `Der.GetLen` | component/mbedtls-3.4.0/library/asn1parse.c:39-99 | A length within the data and the bytes after at most five octets of it |
| `Der.LongLength` | component/mbedtls-3.4.0/library/asn1parse.c:55-92 | Section 8.1.3.5 of X.690: one to four octets give the length, leading zeros included |
| `Der.TagRoundTrip` | component/mbedtls-3.4.0/library/asn1parse.c:101-116 | Tag and length of a written element, and the position of its contents |
| `Der.IntContentMinimal` | component/mbedtls-3.4.0/library/asn1write.c:123-164 | No shorter contents with a clear top bit have the same value |
| `DerWrite.WriteLen` | component/mbedtls-3.4.0/library/asn1write.c:31-93 | The shortest form in front of what is there, exact error conditions, nothing behind the cursor touched |
| `DerWrite.WrittenLengths` | component/mbedtls-3.4.0/library/asn1write.c:31-93 | Lengths octet by octet, one for each form |
| `DerWrite.OutcomeIsSize` | component/mbedtls-3.4.0/library/asn1write.c:157-160 | The int returned is the number of octets written if and only if that is below 2^31, given the room |
| `DerWrite.WriteString` | component/mbedtls-3.4.0/library/asn1write.c:106-192 | Tag, length and contents, or the error that applies, and the exact result for every size: it is the number of octets if and only if that is below 2^31 and there is room; from 2^32 octets on the element is over the wrapped length |
| `DerWrite.WrappedString` | component/mbedtls-3.4.0/library/asn1write.c:106-121 | 2^32 + 5 octets have the result 7, and the element is over the first five |
| `DerWrite.WriteTaggedInt` | component/mbedtls-3.4.0/library/asn1write.c:235-261 | The contents of a non-negative int; of a negative one only its low octet |
| `DerWrite.WrittenInt` | component/mbedtls-3.4.0/library/asn1write.c:235-261 | 128 is written as 02 02 00 80 |
| `DerWrite.TaggedIntRoundTrip` | component/mbedtls-3.4.0/library/asn1write.c:235-261 | An int is read back if and only if it is not negative |
| `DerWrite.NegativeInt` | component/mbedtls-3.4.0/library/asn1write.c:235-261 | -256 is written so that it reads as 0 |
| `DerRead.GetTaggedInt` | component/mbedtls-3.4.0/library/asn1parse.c:139-184 | The value iff it is non-negative and below 2^31, whatever leading zeros |
| `DerRead.IntRoundTrip` | component/mbedtls-3.4.0/library/asn1parse.c:139-198 | Every non-negative int is read back, as INTEGER or ENUMERATED |
| `DerMpi.WriteMpi` | component/mbedtls-3.4.0/library/asn1write.c:123-164 | Shortest contents of an Mpi with a zero octet in front where needed; for every size the exact result, which is the number of octets if and only if that is below 2^31 and there is room |
| `DerMpi.FiveWritten` | component/mbedtls-3.4.0/library/asn1write.c:123-164 | 5 is written as 02 01 05 |
| `DerMpi.MpiSizeFits` | component/mbedtls-3.4.0/library/asn1write.c:123-164 | With limbs of up to 64 bits that is so for every Mpi |
| `DerMpi.GetMpi` | component/mbedtls-3.4.0/library/asn1parse.c:201-217 | The big-endian value of the contents, and the bytes after them |
| `DerMpi.MpiRoundTrip` | component/mbedtls-3.4.0/library/asn1write.c:123-164 | The magnitude is read back, so the number itself if and only if it is not negative, of any size |
| `DerMpi.WriteAndGet` | component/mbedtls-3.4.0/library/asn1parse.c:201-217 | write_mpi then get_mpi, status exact: the number comes back if and only if it is not negative |
| `DerMpi.NegativeMpi` | component/mbedtls-3.4.0/library/asn1write.c:123-164 | -1 comes back as 1 |
| `DerMpi.ReadBinary` | component/mbedtls-3.4.0/library/bignum.c:706-727 | The big-endian value in exactly the limbs its bytes need |
| `DerWrite.WriteBitstring` | component/mbedtls-3.4.0/library/asn1write.c:352-383 | Unused bits counted and zeroed; for every size the exact result, which is the number of octets if and only if that is below 2^31 and there is room |
| `DerWrite.WrittenBits` | component/mbedtls-3.4.0/library/asn1write.c:352-383 | Six bits of B7 are written as 03 02 02 B4; the first bit is the top bit of the first octet |
| `DerWrite.WrappedBitstring` | component/mbedtls-3.4.0/library/asn1write.c:352-383 | A bit string of 2^32 - 4 octets is written with the result 3 |
| `DerRead.BitstringRoundTrip` | component/mbedtls-3.4.0/library/asn1parse.c:220-252 | get_bitstring returns the octets and the number of unused bits |
| `DerRead.BitsKept` | component/mbedtls-3.4.0/library/asn1write.c:352-383 | The octets carry the bits written and zeros after them |
| `DerWrite.WriteNamedBitstring` | component/mbedtls-3.4.0/library/asn1write.c:308-350 | Bits up to the last one set, with the same exact result |
| `DerWrite.NamedRoundTrip` | component/mbedtls-3.4.0/library/asn1write.c:308-350 | Read back, only trailing zero bits are lost |
| `DerRead.TraverseSequenceOf` | component/mbedtls-3.4.0/library/asn1parse.c:258-304 | The elements the callback sees, in order, or the first error, its own included |
| `DerRead.VisitedByCallback` | component/mbedtls-3.4.0/library/asn1parse.c:289-298 | On a well-formed sequence the result is all elements, or the first answer of the callback that is not 0 |
| `DerRead.VisitedTiles` | component/mbedtls-3.4.0/library/asn1parse.c:258-387 | Success if and only if the elements tile the contents exactly and in order |
| `DerRead.GetSequenceOf` | component/mbedtls-3.4.0/library/asn1parse.c:377-387 | A successful split returns such a tiling |
| `DerRead.SequenceRoundTrip` | component/mbedtls-3.4.0/library/asn1parse.c:377-387 | A written SEQUENCE OF is split into what was put in |
| `DerWrite.WriteAlg` | component/mbedtls-3.4.0/library/asn1write.c:194-215 | OID and parameters, or NULL, in a SEQUENCE; the exact result for every size, which is the number of octets if and only if that is below 2^31 and there is room |
| `DerWrite.WrittenAlg` | component/mbedtls-3.4.0/library/asn1write.c:194-215 | An OID of one octet and NULL are written as 30 05 06 01 2A 05 00 |
| `DerRead.AlgRoundTrip` | component/mbedtls-3.4.0/library/asn1parse.c:389-435 | get_alg returns the OID and the parameters, or none |

## Left out

- Allocation: `calloc` never fails; the limit of 10000 limbs per number is modelled and is the only source of ALLOC_FAILED. `size_t` and lengths are unbounded, except where a wrap-around shows (the tag length field for an empty tag, the 32-bit accumulator of the base64 decoder, `unsigned long` and int of the chunk size, the int results of the ASN.1 writers).
- `x & 1`, `x & 0xFF` and `count & (biL - 1)` are written as remainders, and a shift by biL of a zero-masked limb as 0.
- Constant-time behaviour, zeroisation, and the byte representation of masks beyond `Core.CondAssign`.
- MpiMod.ModInt: only for divisors up to 2^biH, which is what the half-limb loop is for.
- MpiMod.ModMpi: R must not be B, because the final loop would not end.
- MpiDiv.DivMpi: Q and R must be two objects.
- MpiMod.DivInt: Q and R must be two objects.
- MpiExpMod.ExpMod: an allocation failure is bounded by a sufficient condition on the sizes, not an exact one; an all-zero table entry is modelled as an initialised empty number.
- MpiInv.InvMod: an allocation failure is excluded when N leaves three limbs and A two, not characterised exactly.
- Residues.ModMul: only for Montgomery moduli; the source has no check and reads the wrong union member otherwise.
- Residues.ModInv: only for odd moduli, as it goes through Montgomery form.
- ModRuns.Execute: residues have different buffers, the modulus is odd, inversion is for prime moduli, and a residue that `mod_read` refused is not used as an operand.
- CcmRuns.AuthCrypt: a context that an earlier error left unclean is not covered; `mbedtls_cipher_update` does not fail.
- Ccm.Context.Starts: called on a clear context or after set_lengths.
- Ccm.Context.SetLengths: called on a clear context or after starts.
- Ccm.Context.Update: called after the associated data is complete, as the interface asks; the code does not check it.
- Xts.CryptXts: input and output are different buffers.
- Camellia.CryptEcb: the encryption key schedule is not modelled (any round keys are allowed).
- Parsers: where the cursor stands after an error; `Der.GetLen` and `Der.GetTag` are functions of the bytes up to the end of the data, and the list that `get_sequence_of` links is a sequence of elements.
- Chunked.ChunkedRecv: the transport delivers what is asked for while it has it; nothing is modelled beyond a store outside the line buffer.
- DerWrite.WriteAlg: the octets written when an OID of 2^31 octets or more makes the int result of its writer negative or wrapped; the result itself is stated.
- Random numbers, prime generation and testing, file input and output, the assembly variants, AES itself and its other modes, sockets, TLS and the rest of the HTTP client: they would add I/O, probabilistic claims or table checks.
