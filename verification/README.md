# Verified core of the Spinel runtime

A Dafny model of four parts of Spinel's C runtime and proofs about it.
`dafny verify dfyconfig.toml` checks everything.

**Multi-precision integers** (`lib/sp_bigint.c`). The raw-limb routines work on
one flat limb memory in which a pointer is an index, so aliasing, overruns and
scratch layout are visible to the proofs; their contracts say which limbs
change. Signed integers are objects with a sign, limbs and a buffer flag.
Proved: every multiplication route gives the exact product, including Karatsuba
and Toom-3 in their own scratch layout at every recursion depth; Knuth division
with at most one add-back; floored division and shifts; modular powers by
Montgomery's method and by its fallback; two's complement bit operations on sign
and magnitude; printing and reading in bases 2 to 36, with the
divide-and-conquer base-10 printer in its shared scratch numbers. Files:
`Limbs`, `Mpn`, `Mul`, `Karatsuba`, `ToomSteps`, `Toom3`, `ToomSqr`, `Shifts`,
`Integers`, `LimbBits`, `MulMpz`, `Knuth`, `DivMpz`, `Barrett`, `Powers`,
`Montgomery`, `PowerMod`, `Bitwise`, `Radix`, `DecimalSize`, `LargePrinter`,
`Printing`.

**Nullable integer arrays** (`lib/sp_array.h`, `lib/sp_array.c`). A class with
the window, the buffer, the nil bitmap and its lower bound; each mutator is the
plain operation on a sequence of optional integers, in every state and over
every run. With it the amortized growth rule, the summation that stops before an
overflow, and the open-addressed set behind uniq, &, the union and -. Files:
`NilBits`, `Growth`, `IntArrays`, `ArrayRuns`, `SumPrefix`, `IntSets`, `Arith`.

**C extension handles** (`lib/sp_cext.c`). Conversions, nested arenas, errinfo,
fiber contexts and sweeps over a weak table; the invariant holds over every run,
for every hash function. File: `Handles`.

**Two-generation string lists** (`lib/sp_alloc.c`). Young and old sweeps that
relink the headers in place, and the adaptive schedule of major sweeps; safety
and reclamation over every run. Files: `StringHeap` (what a collection does to
the strings, and runs), `StringLists` (the linked lists).

Three results are negative. The code is modelled as it is, and each failure has
the exact condition under which the code is right:

- Barrett reduction keeps k + 1 bits of the difference. `BarrettExact` says for
  every operand exactly when that is enough, `BarrettExactInRange` gives the
  bound 3m ≤ 2^(k+1), and `BarrettFails` is a case inside the documented range
  where the answer is wrong. The comment in `mpz_mod`
  (lib/sp_bigint.c:3098-3101) takes x.sz ≤ 2·m.sz for x < 2^(2k); `ModFails`
  shows that it is not enough. `ModExact` says for every pair of operands when
  `mpz_mod` is the remainder, and `ModSafe` gives the condition a caller can
  check. `Integer#pow` with an even modulus of four limbs or more inherits the
  failure: `SquareWrong` and `PowModFails` give (n − 2^40)² mod n for n = 2^128
  − 7·2^61, `PowModExact` says for every modulus and every base that `mpz_mod`
  reduces exactly when all exponents are right, and `PowModSafe` what a caller
  can check.
- In-place subtraction can leave the limb 0 with sign 1, so results are stated
  on values. `mpz_get_str`, and with it `to_s(base)`, answers the empty text for
  such a zero and for nothing else (`PrintedEmpty`, `RightUpTo424`). Barrett's
  correcting subtractions hand one out: `EmptyPowerText` shows that
  (3·2^32).pow(3, 3·2^96).to_s(base) is empty. `to_s` in base 10 takes its path
  for small numbers (lib/sp_bigint.c:5649) and prints 0 (`ToS`).
- The divide-and-conquer printer hands the upper part of a split on in the
  variable that the next division uses for its quotient, and `udiv` clears the
  quotient before it copies a dividend shorter than the divisor
  (lib/sp_bigint.c:2806-2810). Such a part prints as zeros. `WrittenExact` and
  `OutputExact` say for every integer exactly when nothing is lost;
  `ShortNumbersPrinted` shows that up to 424 limbs nothing is, and `LargeFails`
  gives 10^4090 + 7·10^1024, of 425 limbs.

Integers are unbounded in Dafny, so widths are written out: limbs are numbers
below 2^32, what goes into a limb is proved to fit, and what wraps (two's
complement limbs, the sum's total, the cycle counter) wraps explicitly. `hide`
keeps definitions out of proofs that do not need them.

## Model

| member | source | states |
|---|---|---|
| `Mpn.Zero` | lib/sp_bigint.c:111-114 | the n limbs become zero and nothing else changes |
| `Mpn.CopyI` | lib/sp_bigint.c:835-840 | the destination holds the source number and nothing else changes |
| `Mpn.AddN` | lib/sp_bigint.c:2521-2531 | result + carry·B^n is the sum of the two n-limb numbers, also in place |
| `Mpn.Add` | lib/sp_bigint.c:2541-2557 | the same for a longer first operand, with the carry run through its upper limbs |
| `Mpn.SubN` | lib/sp_bigint.c:2566-2576 | result − borrow·B^n is the difference |
| `Mpn.Sub` | lib/sp_bigint.c:2586-2602 | the same for a longer first operand |
| `Mpn.AddMul1` | lib/sp_bigint.c:667-770 | the destination gains limb·source; what does not fit is the returned limb |
| `Mpn.AddAt` | lib/sp_bigint.c:844-861 | adds a number at an offset into a longer one; the ghost result is exactly what ran off its end |
| `Mpn.Cmp` | lib/sp_bigint.c:415-423 | the sign of the comparison of two equally long limb strings |
| `Mul.MulBasicLimbs` | lib/sp_bigint.c:865-877 | schoolbook product of any two limb ranges, exact in x_len + y_len limbs, nothing else written |
| `Mul.SqrBasicLimbs` | lib/sp_bigint.c:894-943 | off-diagonal rows, doubling and diagonal squares together give x² in 2n limbs |
| `Mul.SqrStep` | lib/sp_bigint.c:894-943 | taking the low limb off a number: its square, twice its row and the square of the rest make the square |
| `Karatsuba.ScratchMono` | lib/sp_bigint.c:965-989 | the scratch size grows with the operand length, so every recursion level fits in what the caller reserved |
| `Karatsuba.MulLimbs` | lib/sp_bigint.c:993-1112 | for all lengths, balanced or not: result = x·y in x_len + y_len limbs; outside the result and karatsuba_scratch_size(max) scratch limbs no limb changes |
| `Karatsuba.EvalSum` | lib/sp_bigint.c:1048-1064 | low + high half in e limbs without a lost carry, trimmed |
| `Karatsuba.MiddleTerm` | lib/sp_bigint.c:1082-1084 | z1 − z0 − z2 never underflows |
| `Karatsuba.NoBorrow` | lib/sp_bigint.c:1082-1084 | both borrows are zero because z1 ≥ z0 + z2 |
| `Karatsuba.FitsAt` | lib/sp_bigint.c:1086-1112 | the significant limbs of a partial product end inside the result at their offset |
| `Karatsuba.Combine` | lib/sp_bigint.c:1086-1112 | z0 + z1·B^half + z2·B^(2·half) written to exactly the result |
| `Karatsuba.Reassemble` | lib/sp_bigint.c:1066-1088 | the three products recombine to x·y |
| `ToomSteps.RShift1` | lib/sp_bigint.c:1181-1190 | half the number, the lost bit returned, also in place |
| `ToomSteps.DivExact3` | lib/sp_bigint.c:1197-1223 | multiplication by the inverse of 3 modulo the limb base divides a multiple of 3 exactly |
| `ToomSteps.Inv3` | lib/sp_bigint.c:1197-1223 | 0xAAAAAAAB is the inverse of 3 modulo 2^32 |
| `ToomSteps.Neg` | lib/sp_bigint.c:1299-1309 | two's complement negation modulo the buffer width |
| `ToomSteps.SubScaled` | lib/sp_bigint.c:1568-1577 | subtraction of 16·x or 2·x modulo the buffer width, with borrows above one |
| `ToomSteps.Interpolate` | lib/sp_bigint.c:1509-1604 | from the five point products, wrapping modulo the buffer width on the way, all inner coefficients come out exactly; both halvings and the division by 3 are exact |
| `ToomSteps.FirstDifferences` | lib/sp_bigint.c:1546-1560 | w1 − w0 − winf and ±wm1 − w0 − winf modulo the buffer width, for either sign of wm1 |
| `Toom3.ToomCoversKaratsuba` | lib/sp_bigint.c:1136-1174 | the Toom-3 scratch always suffices for the Karatsuba calls it falls back to |
| `Toom3.ScratchMono` | lib/sp_bigint.c:1136-1174 | the scratch size grows with the operand length |
| `Toom3.EvalOne` | lib/sp_bigint.c:1430-1437 | x0 + x1 + x2 for parts of any length, absent ones included |
| `Toom3.EvalTwo` | lib/sp_bigint.c:1313-1351 | x0 + 2·x1 + 4·x2 |
| `Toom3.EvalMinusOne` | lib/sp_bigint.c:1447-1462 | the magnitude of x0 − x1 + x2 and its sign |
| `Toom3.PointMul` | lib/sp_bigint.c:1482-1507 | a recursive product into a slot; the limbs it clears past its slot are zero again, although it writes 8 limbs more than the slot holds |
| `Toom3.PolyProduct` | lib/sp_bigint.c:1377-1394 | the product of two quadratics in B^third |
| `Toom3.PointIdentities` | lib/sp_bigint.c:1421-1428 | the five point values in terms of the five coefficients |
| `Toom3.Assemble` | lib/sp_bigint.c:1606-1631 | the five coefficients added at their offsets give the product polynomial |
| `Toom3.MulLimbs` | lib/sp_bigint.c:1355-1631 | for all operands result = x·y; only the result and the scratch region change, at every depth, in the source's own scratch layout |
| `ToomSqr.SqrLimbs` | lib/sp_bigint.c:1676-1862 | Toom-3 squaring gives x², in its own scratch layout |
| `Shifts.LShift` | lib/sp_bigint.c:2497-2512 | n limbs times 2^cnt; what leaves the top is returned |
| `Shifts.RShift` | lib/sp_bigint.c:2469-2484 | n limbs divided by 2^cnt; the returned limb holds the bits that left, at its top |
| `Integers.Mpz.constructor` | lib/sp_bigint.c:117-122 | a new integer is zero |
| `Integers.Trim` | lib/sp_bigint.c:367-374 | high zero limbs go, and the sign of what becomes empty is zero |
| `Integers.Stripped` | lib/sp_bigint.c:367-374 | the trimmed limbs are a prefix of the same value without a high zero |
| `Integers.Digits` | lib/sp_bigint.c:356-364 | same value, no high zero limb, but never fewer than one limb |
| `Integers.SetInt` | lib/sp_bigint.c:254-285 | the integer set has the given value |
| `Integers.Ucmp` | lib/sp_bigint.c:427-433 | the order of the magnitudes of normalized numbers, and what it says when one of them is empty |
| `Integers.AddMpz` | lib/sp_bigint.c:465-579 | x + y for all signs and lengths, whichever of the one-limb, equal-sign and opposite-sign paths is taken; z may be an operand |
| `Integers.SubMpz` | lib/sp_bigint.c:612-628 | x − y; the in-place path may leave the single limb 0 with sign 1, and nothing leaves a zero with sign −1 |
| `Integers.AddInt` | lib/sp_bigint.c:585-608 | the magnitude grows by n and a nonzero sign is kept |
| `Integers.CmpMpz` | lib/sp_bigint.c:3132-3142 | the sign of x − y; two zeros compare by their limb counts |
| `Integers.Mul2exp` | lib/sp_bigint.c:4098-4132 | x·2^e, or RangeError exactly when the bit limit is passed, then with nothing changed |
| `Integers.Div2exp` | lib/sp_bigint.c:4135-4200 | the magnitude divided by 2^e, rounding down, the sign kept |
| `Integers.Mod2exp` | lib/sp_bigint.c:4218-4276 | the low e bits of the magnitude |
| `LimbBits.OnesTest` | lib/sp_bigint.c:1872-1893 | (x & (x+1)) == 0 exactly for 2^k − 1 |
| `LimbBits.PowerTest` | lib/sp_bigint.c:1901-1919 | (x & (x−1)) == 0 exactly for 2^k |
| `LimbBits.ClearLowest` | lib/sp_bigint.c:1990-2032 | x & (x−1) takes off the lowest set bit |
| `MulMpz.AllOnes` | lib/sp_bigint.c:1872-1893 | n > 0 exactly for x = 2^n − 1, and 0 for every other integer |
| `MulMpz.PowerOfTwo` | lib/sp_bigint.c:1901-1919 | n > 0 exactly for x = 2^n, and 0 for 1 and every integer that is no power of two |
| `MulMpz.MulAllOnes` | lib/sp_bigint.c:2063-2109 | (2^n − 1)(2^m − 1) by shifts and subtractions |
| `MulMpz.MulSparse` | lib/sp_bigint.c:1990-2032 | the sum of the shifted dense operand over the set bits of the sparse one is the product |
| `MulMpz.MulBalance` | lib/sp_bigint.c:2202-2280 | a long operand cut into chunks of the short one's length; the chunk products add up to the product |
| `MulMpz.MulBasic` | lib/sp_bigint.c:774-829 | the signed schoolbook product |
| `MulMpz.Sqr` | lib/sp_bigint.c:2125-2193 | the exact square, by the power-of-two, all-ones, schoolbook or Toom-3 route |
| `MulMpz.MulTo` | lib/sp_bigint.c:2284-2432 | the exact signed product for every pair of operands, whichever route is dispatched; a RangeError only beyond the bit limit |
| `Knuth.EstimateDigit` | lib/sp_bigint.c:2866-2896 | the refined qhat is min(B − 1, floor(top three limbs / top two)); every product on the way stays below B² |
| `Knuth.DoubleLimb` | lib/sp_bigint.c:2866-2896 | the first estimate times a limb is below B², so the 64-bit product does not wrap |
| `Knuth.EstimateClose` | lib/sp_bigint.c:2866-2896 | an estimate from the top limbs of a normalized divisor is the true digit or one more |
| `Knuth.Estimate` | lib/sp_bigint.c:2866-2896 | for every window: qhat is the true quotient digit or one too large |
| `Knuth.SubtractDigit` | lib/sp_bigint.c:2898-2918 | the window less qhat times the divisor, modulo its width, and whether it went negative |
| `Knuth.RestoreDigit` | lib/sp_bigint.c:2920-2934 | one add-back makes the window right again |
| `Knuth.DivideDigit` | lib/sp_bigint.c:2866-2937 | one step: the true digit and the true remainder in place |
| `Knuth.DivideAll` | lib/sp_bigint.c:2860-2940 | all steps: x = q·y + r with r < y, in place |
| `DivMpz.DivByLimb` | lib/sp_bigint.c:2665-2794 | quotient and remainder by one limb |
| `DivMpz.DivLimb` | lib/sp_bigint.c:2665-2794 | the same through div_limb with its power-of-two path, also in place |
| `DivMpz.NormalizedTop` | lib/sp_bigint.c:2838-2844 | shifting by the leading zeros sets the divisor's top bit and carries nothing out |
| `DivMpz.UDiv` | lib/sp_bigint.c:2797-2949 | for any nonzero divisor, the quotient in the dividend's variable included: x = q·y + r and r < y on magnitudes, except that a shorter dividend overwritten by its quotient leaves 0 and 0 |
| `DivMpz.LossExact` | lib/sp_bigint.c:2797-2949 | the division law holds afterwards if and only if the quotient did not overwrite a dividend between 0 and the divisor |
| `DivMpz.FloorLaw` | lib/sp_bigint.c:2951-3042 | a = b·q + r with r zero or of b's sign and smaller in magnitude than b holds exactly for the floored quotient and remainder |
| `DivMpz.MDiv` | lib/sp_bigint.c:2952-2974 | the floored quotient for all signs |
| `DivMpz.MMod` | lib/sp_bigint.c:2977-3004 | the floored remainder for all signs |
| `DivMpz.MDivMod` | lib/sp_bigint.c:3007-3042 | both at once for all signs, the quotient in the dividend's variable included, with the same one exception as udiv |
| `DivMpz.LowBitsSet` | lib/sp_bigint.c:5589-5595 | whether the shift loses a set bit |
| `DivMpz.Shr` | lib/sp_bigint.c:5608-5619 | floor(x / 2^n), for negative x too |
| `DivMpz.Shl` | lib/sp_bigint.c:5597-5606 | x·2^n, or RangeError |
| `DivMpz.ShlThenShr` | lib/sp_bigint.c:5597-5619 | shr undoes shl |
| `Barrett.Q3Below` | lib/sp_bigint.c:4934-4970 | q3 never exceeds floor(x / m) |
| `Barrett.Q3Range` | lib/sp_bigint.c:4920-4970 | for x < 2^(2k), q3 is at least floor(x / m) − 2 |
| `Barrett.BarrettMu` | lib/sp_bigint.c:4921-4930 | mu = floor(2^(2k) / m) |
| `Barrett.BarrettExact` | lib/sp_bigint.c:4934-5007 | for every x the result is x mod m if and only if m divides the part of the difference above the k + 1 bits kept |
| `Barrett.BarrettExactInRange` | lib/sp_bigint.c:4972-5007 | for x < 2^(2k): exact if and only if the difference stays below 2^(k+1); 3m ≤ 2^(k+1) is enough |
| `Barrett.BarrettFails` | lib/sp_bigint.c:4972-5007 | a 128-bit modulus and an x < 2^256 for which the result is not x mod m |
| `Barrett.BarrettReduce` | lib/sp_bigint.c:4934-5007 | the method computes exactly that value, with at most three correcting subtractions, at most two for x < 2^(2k); after one the sign is 1 even if nothing is left |
| `Barrett.ModTo` | lib/sp_bigint.c:3082-3129 | mpz_mod leaves Residue with the sign of x, and that is the remainder under ModSafe's condition |
| `Barrett.ModExact` | lib/sp_bigint.c:3082-3129 | for every pair of operands: mpz_mod is the remainder if and only if Barrett reduction is not chosen or y divides what the k + 1 kept bits cut off |
| `Barrett.ModSafe` | lib/sp_bigint.c:3082-3129 | what a caller can check: fewer than 4 or more than 16 limbs, x shorter than y + 2 or longer than 2y limbs, or x < 2^(2k) and 3y ≤ 2^(k+1): it is the remainder |
| `Barrett.ModExactInRange` | lib/sp_bigint.c:3098-3112 | in the size window with x < 2^(2k): the remainder if and only if the difference is below 2^(k+1) |
| `Barrett.ModBarrett` | lib/sp_bigint.c:3098-3112 | the Barrett branch of mpz_mod computes Residue, on magnitudes, without an error |
| `Barrett.ModFails` | lib/sp_bigint.c:3098-3112 | mpz_mod is wrong for (2^256 − 1) mod 3·2^95, of 8 and 4 limbs: the size test x.sz ≤ 2·y.sz does not give x < 2^(2k) |
| `Montgomery.Setup` | lib/sp_bigint.c:5074-5095 | six Newton steps give −1/n0 modulo 2^32 for every odd n0 |
| `Montgomery.NewtonStep` | lib/sp_bigint.c:5088-5092 | a step squares the precision |
| `Montgomery.RedcRound` | lib/sp_bigint.c:5141-5154 | one round clears its limb |
| `Montgomery.NoLoss` | lib/sp_bigint.c:5116-5154 | no carry leaves the work buffer |
| `Montgomery.RedcMag` | lib/sp_bigint.c:5110-5161 | t·R = x + q·n with q < R, and t < 2n |
| `Montgomery.Redc` | lib/sp_bigint.c:5110-5172 | for x < R·n the result is below n and congruent to x·R^−1 |
| `Montgomery.CalcR2` | lib/sp_bigint.c:5179-5189 | R² mod n |
| `Montgomery.MontMul` | lib/sp_bigint.c:5237-5247 | every REDC input in the loop is below R·n, and the product stays in Montgomery form |
| `Montgomery.PowBit` | lib/sp_bigint.c:5236-5247 | one exponent bit |
| `Montgomery.PowM` | lib/sp_bigint.c:5196-5261 | base^exp mod n for every odd n, every base and every exponent magnitude |
| `PowerMod.PowInt` | lib/sp_bigint.c:4586-4671 | b^e mod n by Montgomery for odd n of two limbs and more, else exactly the run of reductions; a corrected last reduction leaves the sign 1 |
| `PowerMod.PowBig` | lib/sp_bigint.c:4498-4583 | the same for an exponent of any length, with Montgomery from four limbs on |
| `PowerMod.ExactIsRight` | lib/sp_bigint.c:4534-4571 | when every reduction of the run keeps its difference, the run is b^e mod n |
| `PowerMod.RightIffExact` | lib/sp_bigint.c:4534-4571 | for every modulus and base: the fallback is right for all exponents if and only if no reduction of any run loses a bit |
| `PowerMod.CheckedIsExact` | lib/sp_bigint.c:4534-4571 | fewer than four limbs, or 3n ≤ 2^(k+1): nothing is lost for any base and exponent |
| `PowerMod.PowMod` | lib/sp_bigint.c:5421-5446 | Integer#pow(exp, mod): the errors, the answer for every sign of base and modulus, and that it is base^exp floored modulo mod under the caller's checks |
| `PowerMod.PowModBig` | lib/sp_bigint.c:5448-5469 | the same for an exponent of any length |
| `PowerMod.PowRightIff` | lib/sp_bigint.c:5422-5470 | per exponent, for every base that mpz_mod reduces exactly: the answer is base^exp floored modulo mod if and only if Montgomery is chosen or the run is right |
| `PowerMod.PowModExact` | lib/sp_bigint.c:5422-5470 | for every such base: right for all exponents if and only if Montgomery is chosen or no run loses a bit |
| `PowerMod.PowModSafe` | lib/sp_bigint.c:5422-5470 | what a caller can check of base and modulus makes it right for every exponent and sign |
| `PowerMod.SquareWrong` | lib/sp_bigint.c:4534-4571 | (n − 2^40)² mod n for n = 2^128 − 7·2^61 comes out as 2^80 − 7·2^62 instead of 2^80 |
| `PowerMod.PowModFails` | lib/sp_bigint.c:5421-5446 | so Integer#pow is wrong for that base, exponent 2 and that modulus |
| `PowerMod.ZeroExponent` | lib/sp_bigint.c:5448-5469 | an exponent that is a zero with sign 1: right if and only if the base is not 0 modulo n |
| `PowerMod.ZeroWithSign` | lib/sp_bigint.c:4498-4665 | (3·2^32)^3 mod 3·2^96 is answered as a zero with sign 1 |
| `Bitwise.WordBit` | lib/sp_bigint.c:4278-4325 | the word operators act bit by bit |
| `Bitwise.BitOfLimb` | lib/sp_bigint.c:4278-4325 | bit 32i + j of a sign-extended limb string is bit j of limb i, or the sign |
| `Bitwise.BitsUnique` | lib/sp_bigint.c:4278-4448 | an integer is determined by its two's complement bits |
| `Bitwise.ZipAgrees` | lib/sp_bigint.c:4281-4448 | the operation on limbs and on signs is the operation on every bit |
| `Bitwise.Walk` | lib/sp_bigint.c:4306-4317 | the walk complements the operands and the result with running carries |
| `Bitwise.StoreWalk` | lib/sp_bigint.c:4318-4324 | a carry past the top limb becomes one more limb |
| `Bitwise.AndMpz` | lib/sp_bigint.c:4281-4325 | bit i of the result is bit i of x and bit i of y, for every i and all signs |
| `Bitwise.OrMpz` | lib/sp_bigint.c:4328-4387 | bit i of the result is bit i of x or bit i of y, for every i and all signs |
| `Bitwise.XorMpz` | lib/sp_bigint.c:4390-4448 | bit i of the result is whether bit i of x and bit i of y differ, for every i and all signs |
| `Radix.BitGroups` | lib/sp_bigint.c:3932-3962 | the digits of a power-of-two base have the number's value |
| `Radix.ToChunks` | lib/sp_bigint.c:3754-3777 | chunks of 10^9 with the number's value |
| `Radix.NineDigits` | lib/sp_bigint.c:3880-3893 | a lower chunk prints exactly nine digits |
| `Radix.TopDigits` | lib/sp_bigint.c:3895-3909 | the top chunk |
| `Radix.TenDigits` | lib/sp_bigint.c:3871-3912 | the digits of base 10 have the number's value |
| `Radix.LowLimits` | lib/sp_bigint.c:3302-3375 | the table entries are the stated powers of their base |
| `Radix.HighLimits` | lib/sp_bigint.c:3302-3375 | the table entries are the stated powers of their base |
| `Radix.TopLimits` | lib/sp_bigint.c:3302-3375 | the table entries are the stated powers of their base |
| `Radix.PowerDigits` | lib/sp_bigint.c:3984-4018 | the digits of the other bases have the number's value |
| `Radix.CanonUnique` | lib/sp_bigint.c:4021-4023 | a digit string without a leading zero is determined by its value |
| `Radix.ReadChunks` | lib/sp_bigint.c:3786-3828 | nine digits at a time from the right, underscores skipped |
| `Radix.FromChunks` | lib/sp_bigint.c:3837-3863 | the chunks' value in limbs, no high zero limb |
| `Radix.ReadDigits` | lib/sp_bigint.c:3272-3294 | left to right by multiplication and addition; a bad digit is the error return |
| `Radix.MulInt` | lib/sp_bigint.c:3163-3197 | the magnitude times n |
| `Radix.SetStr` | lib/sp_bigint.c:3212-3300 | accepts exactly the readable texts, and the integer is the one the text stands for |
| `Radix.RoundTrip` | lib/sp_bigint.c:3932-4035 | what the direct routes print in any base 2 to 36 reads back with the same sign and magnitude, and begins with a nonzero digit |
| `Radix.PrintedEmpty` | lib/sp_bigint.c:4021-4035 | the direct routes answer the empty text for a zero with sign 1, and for nothing else |
| `Radix.DigitTable` | lib/sp_bigint.c:3892-3906 | digit d is written as character d of 0-9a-z and read in either case |
| `Radix.OnlyDigits` | lib/sp_bigint.c:3272-3288 | no other character is read as a digit |
| `Radix.PrintedText` | lib/sp_bigint.c:4021-4035 | the text of a nonzero number, character by character: the minus sign, then the digit at each place from the highest to the lowest, and no more places than needed |
| `Radix.ReadNext` | lib/sp_bigint.c:3272-3294 | reading one more character multiplies by the base and adds the digit; an underscore changes nothing |
| `Radix.ReadSigned` | lib/sp_bigint.c:3219-3227 | a leading minus negates, a leading plus and no sign do not |
| `Radix.ReadableText` | lib/sp_bigint.c:3229-3290 | a text is accepted exactly if it consists of digits of the base, in either case, and underscores |
| `DecimalSize.EstimateEnough` | lib/sp_bigint.c:3710-3713 | 2^bits ≤ 10^(bits·30103/100000 + 2) for every number of bits, so the places reserved are always enough |
| `LargePrinter.DirectDigits` | lib/sp_bigint.c:3496-3539 | the digits of x padded with zeros to exactly nd places |
| `LargePrinter.FiveSplit` | lib/sp_bigint.c:3552-3563 | quotient and remainder by 5^k and a shift by k bits give the parts above and below 10^k |
| `LargePrinter.SplitNumber` | lib/sp_bigint.c:3565-3597 | the three steps of a split leave those parts, or zeros when the division loses its dividend |
| `LargePrinter.Recur` | lib/sp_bigint.c:3491-3636 | in the shared scratch numbers, in any depth, the recursion writes exactly Written(x): every lower part padded, every lost dividend as zeros |
| `LargePrinter.WrittenExact` | lib/sp_bigint.c:3491-3636 | for every number and number of places: the digits of x if and only if no division on the way loses its dividend |
| `LargePrinter.ShortNumbersSafe` | lib/sp_bigint.c:3541-3570 | nothing is lost below 4096 places |
| `LargePrinter.GetStrLarge` | lib/sp_bigint.c:3701-3740 | the text is LargeText, without leading zeros and after the sign; no error below the bit limit |
| `LargePrinter.LargeExact` | lib/sp_bigint.c:3701-3740 | that text is the canonical one if and only if nothing is lost |
| `LargePrinter.LargeReads` | lib/sp_bigint.c:3701-3740 | it reads back as the number if and only if nothing is lost |
| `LargePrinter.ShortNumbersPrinted` | lib/sp_bigint.c:3701-3740 | every number of at most 424 limbs is printed right |
| `LargePrinter.LargeFails` | lib/sp_bigint.c:3571-3637 | 10^4090 + 7·10^1024, of 425 limbs, is printed wrong, so 424 is the most |
| `Printing.GetStr` | lib/sp_bigint.c:3915-4035 | in every base the direct text, or past 700 estimated decimal digits the one of the divide-and-conquer printer |
| `Printing.LargeFrom` | lib/sp_bigint.c:3967-3971 | the divide-and-conquer printer takes over in base 10 from 73 limbs on |
| `Printing.OutputExact` | lib/sp_bigint.c:3915-4035 | for every integer: the answer is the numeral of its value if and only if it is not a zero with sign 1 and, past 700 estimated decimal digits, nothing is lost |
| `Printing.RightUpTo424` | lib/sp_bigint.c:3915-4035 | in base 10 up to 424 limbs and in every other base always: right if and only if it is not a zero with sign 1 |
| `Printing.LargeWrong` | lib/sp_bigint.c:3915-4035 | 10^4090 + 7·10^1024, whose 425 limbs exist, is printed as another number |
| `Printing.EqualDifferenceText` | lib/sp_bigint.c:4021-4035 | x − y in place for equal positive operands, then printed: the empty text |
| `Printing.EmptyPowerText` | lib/sp_bigint.c:5422-5447 | (3·2^32).pow(3, 3·2^96).to_s(base) is the empty text in every base |
| `Printing.PrintAndRead` | lib/sp_bigint.c:3212-3298 | printing and reading give the integer back if and only if nothing is lost |
| `Printing.ToInt` | lib/sp_bigint.c:5504-5525 | the value modulo 2^64 as a signed number, and the value itself on the small path of to_s |
| `Printing.ToS` | lib/sp_bigint.c:5628-5673 | to_s in base 10 is the numeral of the value if and only if nothing is lost; a zero with sign 1 prints 0 |
| `NilBits.SetRange` | lib/sp_array.h:81-85 | the bits of the range are set, in single bits and whole words |
| `NilBits.MoveBits` | lib/sp_array.h:106-116 | bit to+i takes bit from+i, the vacated bits are clear, overlap allowed |
| `NilBits.NextBit` | lib/sp_array.h:91-97 | the lowest set bit at or above a position |
| `NilBits.NilLoUp` | lib/sp_array.h:128-137 | the new bound is at or below the lowest set bit, and it is the none value exactly when no bit is set |
| `IntArrays.IntArray.constructor` | lib/sp_array.h:159 | a new array is empty, has no bitmap and 16 slots |
| `IntArrays.IntArray.NilFreeLen` | lib/sp_array.h:146-149 | the first that many elements are never nil |
| `IntArrays.IntArray.Get` | lib/sp_array.h:206 | the element, counted from the end for a negative index, nil outside |
| `IntArrays.IntArray.SetCap` | lib/sp_array.h:166 | a larger buffer keeps the elements; the bitmap follows |
| `IntArrays.IntArray.ClearNil` | lib/sp_array.h:222 | the bit is cleared, the bound stays below every nil, and a dropped bitmap held none |
| `IntArrays.IntArray.PushGrow` | lib/sp_array.h:172 | the same elements at the front of a buffer with room for one more: the old one if a slide freed half of it, else one of twice the size and one; moved counts the slots slid and copied |
| `IntArrays.IntArray.Push` | lib/sp_array.h:173 | the elements with v appended; window, capacity and slots moved as in the growth model |
| `IntArrays.IntArray.PushNil` | lib/sp_array.h:229 | the elements with a nil appended |
| `IntArrays.IntArray.Pop` | lib/sp_array.h:189 | the last element comes off; an empty array answers nil |
| `IntArrays.IntArray.Shift` | lib/sp_array.h:190 | the first element comes off |
| `IntArrays.IntArray.Unshift` | lib/sp_array.c:549-550 | v in front, with or without room before the window |
| `IntArrays.IntArray.UnshiftNil` | lib/sp_array.c:551 | a nil in front |
| `IntArrays.IntArray.SetSlow` | lib/sp_array.h:212 | a store past the end leaves a gap of nils |
| `IntArrays.IntArray.Set` | lib/sp_array.h:215 | s[i] = v for every index: from the end, in range, with a gap, or IndexError |
| `IntArrays.IntArray.SetNil` | lib/sp_array.h:227 | the same for nil |
| `IntArrays.StoredAt` | lib/sp_array.h:212 | index by index: the stored element, everything else as it was, nils in a gap |
| `IntArrays.IntArray.Insert` | lib/sp_array.c:493 | insertion at every index, padding with nils past the end |
| `IntArrays.IntArray.InsertNil` | lib/sp_array.c:494 | the same for nil |
| `IntArrays.InsertedAt` | lib/sp_array.c:493 | index by index: the new element, those before it as they were, those behind it one further |
| `IntArrays.IntArray.DeleteAt` | lib/sp_array.c:488 | the element is removed and returned; outside the array nothing happens |
| `IntArrays.IntArray.Pack` | lib/sp_array.c:36 | the window as values and nils |
| `IntArrays.IntArray.Unpack` | lib/sp_array.c:38 | the window becomes the given values and nils, bits and bound with it |
| `IntArrays.IntArray.Reverse` | lib/sp_array.c:345 | the reversed elements, by swaps or through pairs |
| `IntArrays.CountIsFloor` | lib/sp_array.c:355-357 | the C remainder expression is the floored remainder |
| `IntArrays.IntArray.Rotate` | lib/sp_array.c:351-408 | rotation by any count, by window, by headroom, in place or through pairs |
| `IntArrays.RotatedAt` | lib/sp_array.c:351-408 | element i afterwards is element (i + n) mod length, for every n |
| `IntArrays.IntArray.Splice` | lib/sp_array.c:131-165 | a[start, len] = values for every start and length: overwrite, tail shift, or a gap of nils |
| `IntArrays.IntArray.SpliceArray` | lib/sp_array.c:187-199 | the same for a whole array, nils included, which may be the array itself |
| `IntArrays.SplicedAt` | lib/sp_array.c:131-165 | index by index: what stays before, the new elements, what moves behind them, and nils in a gap; exactly the elements in reach are replaced |
| `IntArrays.IntArray.Append` | lib/sp_array.c:171-185 | concatenation, also of an array to itself |
| `IntArrays.IntArray.SliceOut` | lib/sp_array.c:1097-1120 | the removed span comes back as a new array and the rest stays, for every start and length |
| `ArrayRuns.Perform` | lib/sp_array.h:166-233 | every mutator, splices and concatenations of a second array included, is the plain operation on a sequence of optional integers; where the source raises nothing changes |
| `ArrayRuns.Run` | lib/sp_array.h:166-233 | the same over every run of operations, self-aliased ones included, from any valid state |
| `ArrayRuns.AppliedMeans` | lib/sp_array.h:166-233 | the plain operations at the ends, reversal and concatenation |
| `ArrayRuns.AppliedAtIndex` | lib/sp_array.h:192-233 | the plain operations at an index, from the end when it is negative, and out of reach |
| `ArrayRuns.AppliedBlock` | lib/sp_array.c:131-165 | rotation and splices, with their index rules |
| `Growth.StepPays` | lib/sp_array.h:167-173 | a push pays for four moved slots, which covers every slide and reallocation |
| `Growth.RunPays` | lib/sp_array.h:167-190 | the same over a run from any shape |
| `Growth.AmortizedGrowth` | lib/sp_array.h:167-190 | over every run of pushes, pops and shifts on a fresh array at most four slots are moved per push |
| `Growth.PushesCounted` | lib/sp_array.h:167-190 | the pushes the bound counts are the pushes of the run |
| `ArrayRuns.Queue` | lib/sp_array.h:167-233 | the same on the array itself: over every run of Push, Pop and Shift at most four slots moved per push, plus the starting credit |
| `Growth.GrownHasRoom` | lib/sp_array.h:167-173 | growing always leaves room for one more |
| `SumPrefix.PrefixSum` | lib/sp_array.h:292-316 | for every array and seed, negative ones too: the stopping index and the sum of the checked left-to-right fold |
| `SumPrefix.StopsOnce` | lib/sp_array.h:306-315 | that index is unique |
| `SumPrefix.StopsMeans` | lib/sp_array.h:306-315 | up to the index every partial sum is a signed 64-bit number, and the next one is not |
| `SumPrefix.SumAppend` | lib/sp_array.h:289-316 | the sum of the parts is the sum |
| `SumPrefix.FullSum` | lib/sp_array.h:292-305 | when the OR bound is small enough no prefix overflows and the wrapped total is exact |
| `IntSets.IntSet.constructor` | lib/sp_array.c:426-433 | an empty table at least twice the requested size |
| `IntSets.IntSet.Find` | lib/sp_array.c:434-438 | the probe ends, at the key or at a free slot that proves it absent |
| `IntSets.IntSet.Add` | lib/sp_array.c:440-446 | the key is in the set afterwards; true if it was not before; never more than half full |
| `IntSets.NotHeld` | lib/sp_array.c:434-438 | a free slot ends the search |
| `IntSets.Placed` | lib/sp_array.c:440-446 | a key put where its probe ended leaves every key findable |
| `IntSets.FirstsAre` | lib/sp_array.c:414-423 | what the operations keep: every element once |
| `IntSets.FirstsPrefix` | lib/sp_array.c:414-423 | in the order of first occurrence |
| `IntSets.UniqValues` | lib/sp_array.c:498-506 | uniq, hashed or scanned |
| `IntSets.UniqInPlace` | lib/sp_array.c:456-472 | uniq! in place, hashed or scanned |
| `IntSets.UnionValues` | lib/sp_array.c:527-537 | the union, hashed or scanned, is uniq of the concatenation |
| `IntSets.IntersectValues` | lib/sp_array.c:507-516 | &, hashed or scanned, is uniq of the left elements that are in the right |
| `IntSets.KeptStep` | lib/sp_array.c:507-516 | what & and - keep, element by element and in order |
| `IntSets.DifferenceValues` | lib/sp_array.c:540-548 | -, hashed or scanned, keeps the left elements that are not in the right, repeats included |
| `Handles.FindSlot` | lib/sp_cext.c:60-66 | the probe ends, at the value's handle or at a free slot that proves there is none |
| `Handles.Rebuild` | lib/sp_cext.c:67-75 | the new table holds exactly the old handles, each findable |
| `Handles.Extension.constructor` | lib/sp_cext.c:29-33 | no table, no handle, one fiber |
| `Handles.Extension.Pin` | lib/sp_cext.c:76-85 | inside an arena the handle is recorded and its pin count raised |
| `Handles.Extension.Grow` | lib/sp_cext.c:95-96 | after growth the table is under half full even with one more handle |
| `Handles.Extension.Convert` | lib/sp_cext.c:86-105 | nil, booleans, symbols and 63-bit integers are themselves; any other value gets its one canonical handle, pinned in an arena: a wrapped data object under the class its wrapper records, everything else as it is; no other handle changes its value |
| `Handles.KeyRoundTrip` | lib/sp_cext.c:106-115 | converting back gives the value |
| `Handles.Extension.SetErrinfo` | lib/sp_cext.c:24-28 | the new errinfo is pinned, the old one unpinned |
| `Handles.Extension.Enter` | lib/sp_cext.c:116-121 | a mark of the arena, one level deeper |
| `Handles.Extension.Restore` | lib/sp_cext.c:125-129 | the arena is cut back to the mark and every cut entry unpinned; a mark from deeper is the abort |
| `Handles.Extension.Save` | lib/sp_cext.c:165-168 | the running context is saved as it is |
| `Handles.Extension.Load` | lib/sp_cext.c:169-172 | the other fiber's context is the running one |
| `Handles.Extension.Dispose` | lib/sp_cext.c:173-178 | every reference of a dead fiber is unpinned |
| `Handles.Extension.MarkRoots` | lib/sp_cext.c:159-164 | exactly the pinned and the registered handles are marked |
| `Handles.Extension.Sweep` | lib/sp_cext.c:210-217 | for every old handle whether it is still there: pinned and numbered classes stay, objects go by their header, strings by tag byte, owner or slab, null payloads go, everything else goes by its mark; survivors are unmarked and can be found again |
| `Handles.LiveMeans` | lib/sp_cext.c:182-209 | case by case: pinned, numbered class, object by its header, string by tag byte, owner or slab, everything else by its own mark |
| `Handles.SweepSlots` | lib/sp_cext.c:210-217 | the walk: dead handles freed, their slots emptied, the count exact |
| `Handles.NoDangling` | lib/sp_cext.c:16-28 | every arena entry and errinfo of every fiber is a live pinned handle |
| `Handles.PinStep` | lib/sp_cext.c:16-18 | a pin matches one new reference |
| `Handles.UnpinStep` | lib/sp_cext.c:19-21 | an unpin matches one lost reference and the count was positive |
| `Handles.Step` | lib/sp_cext.c:76-217 | after any event the table, the pin counts and the contexts are right, and only a sweep frees, and only unpinned handles |
| `Handles.AllowedMeans` | lib/sp_cext.c:76-217 | which events a run takes and which it skips |
| `Handles.Run` | lib/sp_cext.c:76-217 | over every run: afterwards every arena entry and errinfo of every fiber is a pinned handle in the heap, and a handle pinned in every state of the run is still there with its value |
| `StringLists.SweepYoung` | lib/sp_alloc.c:852-886 | on the linked list: the survivors in reverse order, unmarked, the last one, their bytes and the bytes held before |
| `StringLists.SweepOld` | lib/sp_alloc.c:978-999 | dead headers are unlinked where they are; the list left is well formed and holds the survivors in order, unmarked; the counter is what they weigh |
| `StringLists.Lists.Allocate` | lib/sp_alloc.h:378 | a new string in front of the young list |
| `StringLists.Lists.Promote` | lib/sp_alloc.c:897-903 | the young survivors spliced in front of the old list, with their bytes |
| `StringLists.Lists.Begin` | lib/sp_alloc.c:1102-1136 | whether to sweep and whether it is a major: on schedule, or forced by the backstop |
| `StringLists.Lists.SweepGen` | lib/sp_alloc.c:1003-1024 | both lists after a minor or a major sweep, well formed and without a shared header |
| `StringLists.Lists.SweepGated` | lib/sp_alloc.c:1240-1250 | one collection as a whole, on the linked lists |
| `StringHeap.Retuned` | lib/sp_alloc.c:1142-1203 | only a major of a heap that is not fixed re-aims: the backstop is at least the floor and twice what was kept, and no more unless the floor is; the interval doubles or halves exactly under the stated conditions and stays one of 8 to 128 |
| `StringHeap.KeptIsOld` | lib/sp_alloc.c:1142-1203 | what was kept is what the major left of the old list and of the old slab strings; promotions do not count |
| `StringHeap.CollectedValid` | lib/sp_alloc.c:1003-1024 | the old byte counter equals the sum over the old list, and the interval stays one of 8 to 128 |
| `StringHeap.NextValid` | lib/sp_alloc.c:852-1024 | the same after every event |
| `StringHeap.KeptOne` | lib/sp_alloc.c:978-999 | a 0xfc string is kept as 0xfe, a 0xf8 string as 0xfa, a 0xf1 string as it is, and no other |
| `StringHeap.KeptAppend` | lib/sp_alloc.c:978-999 | string by string, in order |
| `StringHeap.KeptHas` | lib/sp_alloc.c:978-999 | exactly the strings marked 0xfc or 0xf8, without the mark, and the 0xf1 ones are kept |
| `StringHeap.SweptHas` | lib/sp_alloc.c:1003-1024 | what is there after a sweep, and where it comes from |
| `StringHeap.MarkedSurvive` | lib/sp_alloc.c:852-999 | no 0xfc, 0xf8 or 0xf1 string is freed by a collection, and one the sweep visits gets its unmarked tag back |
| `StringHeap.MarkThenCollect` | lib/sp_alloc.c:852-999 | a string marked by the mark phase is still there after any collection, with its old tag after a sweep that visits it |
| `StringHeap.NextMeans` | lib/sp_alloc.c:852-1024 | each event, string by string: a new string in front, 0xfe to 0xfc and 0xfa to 0xf8 for the marked, 0xf1 for the frozen |
| `StringHeap.UnmarkedFreed` | lib/sp_alloc.c:852-999 | what is left after a sweep had its mark, or is frozen, or is old and the sweep was minor |
| `StringHeap.MajorFreesUnmarked` | lib/sp_alloc.c:1102-1135 | past the backstop or on schedule a collection is a major unless it is minor-only, and leaves nothing unmarked |
| `StringHeap.MinorKeepsOld` | lib/sp_alloc.c:1102-1135 | every other collection leaves the old list as it is, behind what it promotes |
| `StringHeap.FrozenForever` | lib/sp_alloc.c:863-877 | over every run a 0xf1 string is never freed |
| `StringHeap.GoneBySecondMajor` | lib/sp_alloc.c:978-999 | over every run a string not marked again is gone by the second major sweep |
| `StringHeap.Cadence` | lib/sp_alloc.c:1102-1250 | over every run with the schedule on: any 128 sweeps contain a major or a scheduled major that a minor-only collection took away, however the interval adapts |
| `StringHeap.CycleStep` | lib/sp_alloc.c:1126-1130 | the 32-bit cycle counter wraps without disturbing the schedule |
| `StringHeap.GoneInTime` | lib/sp_alloc.c:1102-1250 | over every run with the schedule on, a string not marked again is gone after 128·(2 + majors taken away) sweeps |
| `StringHeap.QuietMeans` | lib/sp_alloc.c:852-1024 | a string that is not touched: no event of the run allocates, marks or freezes it |
| `StringHeap.SweepsSnoc` | lib/sp_alloc.c:1091-1101 | the sweeps that are counted are the collections over the young trigger |
| `StringHeap.NothingSkipped` | lib/sp_alloc.c:1240-1250 | without minor-only collections no major is taken away, so 256 sweeps are enough |
| `StringHeap.MinorOnlyKeeps` | lib/sp_alloc.c:1240-1250 | a run of minor-only collections has no major however long it is, and every old string stays, marked or not |

## Left out

- `mpz_pow`, `mpz_gcd` and `mpz_sqrt`: they add loops over operations proved here.
- PowerMod.PowMod: takes a modulus that is not a zero with sign 1, by which the source divides; PowerMod.PowInt and PowerMod.PowBig take a base that is not negative, as their callers do.
- Aliased results: `mpz_mul`, the bit operations and the Barrett and Montgomery routines are modelled for a result that is not an operand, and division for a quotient that may be the dividend, as the runtime calls them; `mpz_add` and `mpz_sub` are modelled for every aliasing.
- Storage of limbs: an integer's `p` is the used part of its buffer, so capacity and reallocation inside `mpz_realloc` are not modelled, nor are the scratch pool, out-of-memory paths and the 16-bit limb configuration.
- Unrolled loops of `mpn_addmul_1` and the specialised loops of `mpz_mul_basic` and `div_limb` are modelled by the plain loop they unroll.
- `mpn_add_var` and `mpn_sub_var` are modelled by the equal-length and shorter-operand forms their callers use.
- Printing.GetStr: does not model the caller's buffer size, so the stop at the buffer's end inside the division loop cannot happen; digits stand for their characters until the final reversal. The digit estimate is taken without the 32-bit overflow it would have past the bit limit.
- LargePrinter.Recur: the lower part of every split is a fresh number where the source keeps one buffer per depth; the scratch sizes and the cleanup after an error are not modelled.
- Printing.ToS: does not model the NULL integer, which prints 0; the C library's `%lld` is taken to print the canonical decimal text.
- NilBits.NextBit: walks bits where the source walks words and counts trailing zeros.
- Float, String, Poly and pointer arrays: they repeat the Integer array's logic.
- IntSets.UniqValues: takes the nil-free window as a sequence; arrays with nils take the element-wise scan, which is not modelled. The same holds for the other set operations. The hash's mask is written as a remainder, the table sizes being powers of two.
- Raising and boxing: an error is a result value and the state is unchanged.
- Arena buffers and registered addresses in `lib/sp_cext.c`: the arena is a sequence, and the handles that registered addresses hold are an input of the mark step.
- Handles.Extension.Convert: does not model how the payload is taken out of each value kind; a value is its tag, class and payload, the class a wrapper records and the address of a new handle, one that is not in use, are inputs.
- Handles.Extension.Sweep: the headers and tag bytes that `live` reads behind a pointer are an input of the sweep.
- The mark phase, the slab allocator, worker slots, sweeper threads and compare-and-swap details: the string model is the single-threaded build, and marks, slab bytes and the young trigger are inputs.
- Threshold retuning of the young generation: a heuristic with no promise attached.
