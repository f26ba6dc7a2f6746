# Verified models of the half-precision conversions, the megadriver installer and the ELF check

This project models four pieces of the repository in Dafny 4.11 and proves what they are for. `dafny verify dfyconfig.toml` checks all of it.

**Half-precision conversion, OpenCL header** (`include/CL/cl_half.h`). `cl_half_from_float` and `cl_half_from_double` are one algorithm at two sizes. It is stated once, as `Conversion.Convert`, for every pair of binary formats in which the source has spare precision and its denormals lie below half the smallest target number; the two C functions are then written out step by step on machine words, with every truncating cast, and proved to be its instances. The specification does not mention the algorithm: `Rounding` states sections 4.3.1 and 4.3.2 of IEEE 754-2019 over exact real numbers ("the nearest", "the closest that is not less"), proves that there is always exactly one such number, and derives order, bracketing and thresholds from the rules alone. `cl_half_to_float` is treated in the same way in `Widening`.

**Half-precision conversion, Mesa's own** (`src/util/half_float.c`, `src/util/half_float.h`, part of `src/util/softfloat.c`). These functions reach the same roundings by other means: rounding a scaled float to an integer, sticky-bit shifts, stepping to a neighbour, one multiplication by a magic power of two, and a detour over binary32 for doubles. Each is proved against the same specification, so it agrees with the OpenCL header bit for bit on everything but NaN payloads, and but for the doubles named below.

**Megadriver links** (`bin/install_megadrivers.py`). The library directory is a map from names to files and links; the script's loops are methods of a class over it. The main result is about whole runs: where every link leads, for any list of drivers in any order.

**ELF section check** (`android/package.py`, `unstripped_sections`). The reader is proved against the file layout of chapter 4 of the System V gABI, and against a writer.

## Files

| file | content |
|---|---|
| `Powers.dfy`, `Bits.dfy` | powers of two; shifts, masks, and/or, defined digit by digit, with C's truncating conversions |
| `Rounding.dfy` | the rounding rules over an ordered grid of numbers, existence, uniqueness, consequences |
| `Formats.dfy` | binary interchange formats of any precision and bias, and correct rounding to them |
| `Conversion.dfy`, `ConversionLaws.dfy` | the narrowing conversion, its correctness, and its laws |
| `Widening.dfy` | the widening conversion, exactness, round trips, agreement across source formats |
| `ClHalf.dfy` | `cl_half.h` on machine words |
| `MesaHalf.dfy`, `MesaDirected.dfy`, `MesaDouble.dfy` | Mesa's software conversions |
| `Paths.dfy`, `Megadrivers.dfy` | `os.path.splitext`, and the installer |
| `Elf.dfy` | the ELF64 section reader |

Integers are unbounded; where C truncates or wraps, the model says so with `ToU16`, `ToU32`, `ToU64`, `ToI16`, `ToI32`, `ToI64`. Values of floating-point data are exact reals.

## Two statements of the source that do not hold

- `src/util/half_float.h:198-200` says that folding the low bits of a double into a sticky bit works for all rounding modes. The folding itself does (`MesaDouble.ReducedConverts`). The cast to float that follows it does not: doubles of magnitude 2^128 and more become infinite floats, and nonzero ones up to 2^-150 become zero. `MesaDouble.DetourFails` gives one input of each kind, and `MesaDouble.DetourIsCorrectIff` says for every finite double and every mode exactly when the result is right. Rounding to nearest is always right.
- `bin/install_megadrivers.py:49-51` asserts that the suffix occurs in the megadriver's name, to make sure that it has the suffix. `lib.sox` passes the assertion for `so`, and the run still exits during clean-up, after removing `lib` (`Megadrivers.AssertionDoesNotSuffice`). The clean-up succeeds exactly when a dot-component of the base name is the suffix (`Paths.FoundIffComponent`).

## Model

| member | source | states |
|---|---|---|
| Conversion.ConvertIsCorrectlyRounded | include/CL/cl_half.h:109-229 | For every finite source and every mode, normal, denormal, underflow and overflow paths alike, the result is the half (in general: the target datum) that IEEE 754-2019 sections 4.3.1 and 4.3.2 prescribe for the exact value; for every pair of formats with a narrower target |
| Conversion.ShiftAndRoundCorrect | include/CL/cl_half.h:181-228 | Shifting, the rounding switch and the carry together deliver the correctly rounded datum, across the carry from denormal to normal and from the largest finite number to infinity |
| Conversion.OverflowPath | include/CL/cl_half.h:158-162 | From the first power of two beyond the range on, the overflow helper's magnitude is the correctly rounded one in every mode |
| Conversion.UnderflowPath | include/CL/cl_half.h:164-168 | Strictly between zero and half the smallest magnitude, the underflow helper's magnitude is the correctly rounded one in every mode |
| Conversion.MainPathRanges | include/CL/cl_half.h:170-186 | On both main paths the shift is between the precision difference and the source precision (13 to 24 for float, 42 to 53 for double) and leaves a value that fits the target's trailing significand |
| ConversionLaws.ConvertOfSpecial | include/CL/cl_half.h:135-150 | Infinities stay infinities; NaNs stay NaNs, are quieted, and keep the top bits of their payload |
| ConversionLaws.ConvertKeepsSign | include/CL/cl_half.h:228 | The result fits the target and has the sign of the source, zeros, infinities and NaNs included |
| ConversionLaws.ConvertSymmetric | include/CL/cl_half.h:61-103 | Negating the source and exchanging RTP with RTN flips exactly the sign bit of the result, for every source |
| ConversionLaws.ConvertDependsOnValue | include/CL/cl_half.h:235-355 | Finite data of any two source formats with the same sign and exact value convert to the same bits |
| ConversionLaws.ConvertMonotone | include/CL/cl_half.h:152-228 | In each mode, order among all sources that are not NaNs is preserved, also between different branches and infinities |
| ConversionLaws.ConvertBrackets | include/CL/cl_half.h:184-228 | RTN and RTP enclose the source, coincide exactly on representable values, nothing lies strictly between them otherwise, and RTE and RTZ each return one of the two |
| ConversionLaws.ConvertIsFloorOrSuccessor | include/CL/cl_half.h:181-228 | Every finite source has exactly one floor, the encoding of the largest target number not above it; the result's magnitude is that integer or that integer plus one, and when which |
| ConversionLaws.ConvertError | include/CL/cl_half.h:164-228 | Inside the range, RTE is off by at most half a unit in the last place of the source's binade and the other modes by less than one |
| ConversionLaws.HalfThresholds | include/CL/cl_half.h:158-179 | RTE gives infinity iff the magnitude is at least 65520 and zero iff it is at most 2^-25; RTP and RTN give infinity iff beyond 65504 in their direction; RTZ never does; and when each gives zero |
| Rounding.SteppedIsRounding | include/CL/cl_half.h:184-219 | Truncating and then perhaps stepping to the successor, as the switch decides, meets the IEEE rule of each mode |
| Rounding.RoundingUnique | include/CL/cl_half.h:41-50 | The rules of the four modes leave exactly one number, so the specification cannot be met by a wrong result |
| Rounding.RoundOfNumber | include/CL/cl_half.h:41-50 | A representable number rounds to itself in every mode |
| ClHalf.OverflowIsCorrect | include/CL/cl_half.h:61-82 | cl_half_handle_overflow returns the prescribed bits for every number of magnitude 65536 and more, in every mode and for both signs |
| ClHalf.UnderflowIsCorrect | include/CL/cl_half.h:87-103 | cl_half_handle_underflow returns the prescribed bits for every nonzero number below 2^-25, in every mode and for both signs |
| ClHalf.FromFloat | include/CL/cl_half.h:109-229 | The step-by-step function on 32-bit words, with its unsigned subtraction and truncating casts, is the parametric conversion, NaNs included, and returns the correctly rounded half of every finite float |
| ClHalf.FromDouble | include/CL/cl_half.h:235-355 | The same for 64-bit words |
| ClHalf.RoundMantissa | include/CL/cl_half.h:181-219 | The shift, halfway and mask words and the switch round the dropped bits as the mode demands, without loss in either word width |
| ClHalf.RoundAndAssemble | include/CL/cl_half.h:221-228 | The carry test and the assembly of the word give the magnitude after rounding, with the sign bit placed |
| ClHalf.ToFloat | include/CL/cl_half.h:361-428 | The step-by-step function is the parametric widening, and keeps sign and exact value of every finite half |
| ClHalf.Normalise | include/CL/cl_half.h:415-420 | The normalisation loop ends after one to ten shifts with the mantissa times that power of two, its leading bit at position ten, within 16 bits |
| ClHalf.ToFloatAndBack | include/CL/cl_half.h:361-428 | On machine words, cl_half_from_float undoes cl_half_to_float for every half in every mode; a NaN comes back quieted |
| Widening.WidenMagExact | include/CL/cl_half.h:402-426 | Widening keeps the exact value of every magnitude, denormals included |
| Widening.WidenExact | include/CL/cl_half.h:370-427 | Widening keeps sign and exact value of every finite datum and stays finite |
| Widening.WidenOfSpecial | include/CL/cl_half.h:383-400 | Widened infinities and NaNs keep sign and kind; the payload moves to the top and is quieted |
| Widening.WidenEmbeds | include/CL/cl_half.h:370-427 | Widening preserves and reflects order and is one-to-one on data that are not NaNs |
| Widening.RoundTrip | include/CL/cl_half.h:361-428 | Widening and converting back, in any mode, returns every datum; a NaN comes back with its quiet bit set |
| Widening.ConvertThroughWider | include/CL/cl_half.h:235-355 | Converting a float directly and converting its exact widening to double give the same half for every float, NaN payloads included |
| MesaHalf.RoundEvenOfCut | src/util/rounding.h:92-110 | Rounding s / 2^k to the nearest even integer is cutting s at bit k and rounding what was cut off |
| MesaHalf.ScalingIsExact | src/util/half_float.c:103 | The float multiplication by 2^24 delivers the exact product in every rounding direction, so the integer rounding that follows is the only one |
| MesaHalf.QuotientIsExact | src/util/half_float.c:117 | Converting the mantissa to float and dividing it by 2^13 deliver the exact results in every rounding direction |
| MesaHalf.SlowSmall | src/util/half_float.c:96-104 | Below the normal halves, rounding 2^24 times the float gives the significand of the correctly rounded half |
| MesaHalf.SlowNormal | src/util/half_float.c:110-118 | For normal halves, rounding the mantissa over 2^13 gives the rounded significand, at most 1024 |
| MesaHalf.FloatToHalfSlow | src/util/half_float.c:56-133 | _mesa_float_to_half_slow rounds every float that is not a NaN to nearest even, and keeps the top payload bits of a NaN without turning it into an infinity |
| MesaHalf.NaNStatusKept | src/util/half_float.c:84-93 | The half of a NaN, in arithmetic: the payload over 2^13, or 1 where that is zero, with the sign; it is a NaN, and quiet exactly if the float was |
| MesaHalf.JamIsSticky | src/util/softfloat.c:105-121 | For every nonzero distance the shift jams exactly the bits shifted off into the lowest bit |
| MesaHalf.RoundToZeroF16 | src/util/softfloat.c:185-207 | For every 16-bit exponent and every nonnegative significand, case by case: the largest finite half beyond the range, the significand over 16 at its exponent, the further shifted significand below, and zero at any exponent in range once nothing of it is left |
| MesaHalf.FloatToHalfRtzSlow | src/util/softfloat.c:1418-1466 | _mesa_float_to_half_rtz_slow rounds every float that is not a NaN toward zero; NaNs as in the nearest rounding |
| MesaDirected.TimesMagicExact | src/util/half_float.c:153-161 | The magic multiplication yields the half's value exactly: the product is 2^112 times the moved bits |
| MesaDirected.MagicProductIsCorrectlyRounded | src/util/half_float.c:153-161 | For every half, infinities and NaN patterns included, that product is a finite float, so a correctly rounding multiplication delivers it in every direction |
| MesaDirected.HalfToFloatSlow | src/util/half_float.c:146-172 | _mesa_half_to_float_slow equals cl_half_to_float on every half that is not a NaN, and keeps a NaN's payload and quiet bit |
| MesaDirected.NeighbourIsAdjacent | src/util/half_float.c:215-233 | The neighbour lies strictly beyond in the asked direction with nothing between, zeros of either sign included, and only the last infinity stays |
| MesaDirected.NextAfter16 | src/util/half_float.c:215-233 | util_nextafter16 returns that neighbour for every half, and a NaN unchanged |
| MesaDirected.NearestThenUp | src/util/half_float.c:235-242 | Rounding to nearest and stepping up when that fell below is rounding toward positive infinity |
| MesaDirected.NearestThenDown | src/util/half_float.c:244-251 | Rounding to nearest and stepping down when that fell above is rounding toward negative infinity |
| MesaDirected.FloatToFloat16Ru | src/util/half_float.c:235-242 | _mesa_float_to_float16_ru rounds every float that is not a NaN toward positive infinity; a NaN gets the word of the nearest rounding |
| MesaDirected.FloatToFloat16Rd | src/util/half_float.c:244-251 | _mesa_float_to_float16_rd rounds every float that is not a NaN toward negative infinity; a NaN gets the word of the nearest rounding |
| MesaDouble.ReducedRoundsToOdd | src/util/half_float.h:202-212 | The folded double is the double itself or the odd one of the two neighbouring multiples of 2^32, and nothing else is |
| MesaDouble.ReducedConverts | src/util/half_float.h:166-190 | Folding the low 32 bits into a sticky bit changes the correctly rounded half of no finite double in no mode |
| MesaDouble.CastIsExact | src/util/half_float.h:185-186 | In the range of normal floats the reduced double is exactly a float |
| MesaDouble.CastOfTiny | src/util/half_float.h:192-196 | Below the normal floats the cast stays tiny, and is zero exactly up to 2^-150 |
| MesaDouble.DetourIsCorrectIff | src/util/half_float.h:198-212 | For every finite double and every mode, the detour over float gives the correct half if and only if the double is not beyond the floats in a mode that must stay finite, nor nonzero and at most 2^-150 in a mode that must not reach zero |
| MesaDouble.DetourFails | src/util/half_float.h:198-200 | 2^128 toward zero comes out as infinity, 2^-150 upward as zero: the claim for all modes is false |
| MesaDouble.DetourOfLost | src/util/half_float.h:198-212 | Where the result is wrong, what it is: an infinity for magnitudes from 2^128 on, a zero below, with the sign of the double |
| MesaDouble.ReduceDoubleForF16 | src/util/half_float.h:202-212 | The masking, or-ing and cast compute the reduced double's nearest float |
| MesaDouble.DetourOfNaN | src/util/half_float.h:192-193 | A NaN comes out of the detour with the word of the direct conversion: sticky bit and cast disturb neither its quiet bit nor its top payload bits |
| MesaDouble.DoubleToFloat16 | src/util/half_float.h:214-236 | The four _mesa_double_to_float16 functions return the correct half of a finite double under exactly that condition, and otherwise the signed infinity or zero; for infinities and NaNs, payload included, they always agree with the direct conversion |
| MesaDouble.NormalHalfByValue | src/util/half_float.h:144-145 | A half that passes the denormal test is, by value, a zero, an infinity or of magnitude 2^-14 and more |
| MesaDouble.FloatIsHalf | src/util/half_float.h:133-146 | True for exactly those doubles that are a half other than a denormal or NaN: rounding twice on the way is harmless |
| Paths.BasenameIff | bin/install_megadrivers.py:59 | The base name is the slash-free rest after a directory part that is empty or ends in a slash, and nothing else is |
| Paths.SplitExtIff | bin/install_megadrivers.py:82 | A pair is what splitext returns if and only if it is the documented split: the parts make up the path, the extension is one dot-component of the file name, leading dots stay with the root, and it is empty only if there is none |
| Paths.FoundIffComponent | bin/install_megadrivers.py:82-91 | The suffix loop succeeds exactly when some dot-component of the file name, leading dots not counting, is the suffix |
| Paths.VisitedAre | bin/install_megadrivers.py:82-91 | The names it visits are exactly the prefixes ending before a dot that lies after the last component equal to the suffix |
| Paths.SplitExtBelow | bin/install_megadrivers.py:96-104 | Stripping extensions of the full path strips those of the base name only |
| Megadrivers.InstallOneEntries | bin/install_megadrivers.py:67-93 | One driver links itself to the megadriver and its version prefixes to itself, and changes nothing else |
| Megadrivers.InstallAllEntries | bin/install_megadrivers.py:67-93 | After any list of drivers every entry is what the last driver managing that name made of it; unmanaged names are as before |
| Megadrivers.InstallOneKeepsLinked | bin/install_megadrivers.py:67-93 | Every iteration keeps: each managed name links to the megadriver or to a strictly longer managed name, also when links are overwritten |
| Megadrivers.LinkedReaches | bin/install_megadrivers.py:67-93 | So following links from a managed name arrives at the megadriver in a bounded number of steps |
| Megadrivers.CleanUpKeepsMegadriver | bin/install_megadrivers.py:95-104 | The clean-up never removes the megadriver itself |
| Megadrivers.InstalledEntries | bin/install_megadrivers.py:67-104 | The final directory, name by name: exactly the old and the managed names less the version prefixes of the megadriver, managed ones as their last driver made them, the others as before |
| Megadrivers.AllServeIffDisjoint | bin/install_megadrivers.py:67-104 | After a finished run every managed name leads to an existing megadriver if and only if the managed names avoid the megadriver's own name (when it is in the same directory) and its version prefixes |
| Megadrivers.ReinstallIsIdempotent | bin/install_megadrivers.py:67-104 | Running the installation again changes nothing |
| Megadrivers.CleanedAre | bin/install_megadrivers.py:95-104 | The names removed are exactly the prefixes of the base name before a dot that lies after its last component equal to the suffix |
| Megadrivers.ContainsIff | bin/install_megadrivers.py:51 | The assertion holds if and only if the name is something, then the dot and suffix, then something |
| Megadrivers.LibDir.InstallDriver | bin/install_megadrivers.py:68-93 | The loop makes exactly those links, meets the preconditions of unlink and symlink, terminates, and reports whether the suffix was found |
| Megadrivers.LibDir.InstallDrivers | bin/install_megadrivers.py:67-93 | Drivers are installed up to and including the first without the suffix, where the script exits with that driver |
| Megadrivers.LibDir.CleanUp | bin/install_megadrivers.py:95-104 | Exactly the version prefixes of the megadriver's base name are removed, and the exit is taken iff the suffix is not among its components |
| Megadrivers.LibDir.Run | bin/install_megadrivers.py:40-104 | The final directory and the outcome of every run: assertion failure, exit at a driver, exit at the megadriver, or done |
| Megadrivers.AssertionDoesNotSuffice | bin/install_megadrivers.py:49-51 | A megadriver name that passes the assertion and still makes the clean-up exit |
| Elf.UnstrippedSections | android/package.py:29-45 | On any bytes the reader returns what its specification says: names, or the first error met |
| Elf.ReadOutcome | android/package.py:32-44 | On any bytes, exactly which give each of the four outcomes, in terms of the bytes: refused identification, index error, missing terminator, success |
| Elf.HeaderErrorIs | android/package.py:32-33 | Exactly which leading bytes are accepted, which make the script exit, and which are too short to tell |
| Elf.ReadReturnsLeftovers | android/package.py:34-45 | Whenever the reader succeeds, well-formed file or not, it returns the leftovers, in table order and with multiplicity, among the names held at the offsets it computes |
| Elf.ReadsDescribedImage | android/package.py:34-45 | For every well-formed image, whatever its table offset, entry size, section count and name sharing, the result lists the decoded names at an ascending sequence of positions, and those are exactly the positions of symbol table and debug sections |
| Elf.EmptyIffStripped | android/package.py:45 | The list is empty exactly when no section is the symbol table or a debug section |
| Elf.DecodingKeepsLeftovers | android/package.py:44-45 | Decoding with replacement characters neither hides a leftover section nor makes one up |
| Elf.WriteThenRead | android/package.py:29-45 | Reading what a writer wrote for any list of section names returns exactly the leftover ones, at ascending positions |
| Elf.FieldDigits | android/package.py:34-37 | A field of any bytes, cut off by the end of the file or not, is the number whose base-256 digits are the bytes there, lowest first |
| Elf.LittleEndianRoundTrip | android/package.py:34-37 | Little-endian fields of any size are read back as written |

## Left out

- Hardware paths of `_mesa_float_to_half`, `_mesa_half_to_float` and `_mesa_float_to_float16_rtz` (inline assembly): only the portable code is modelled.
- The C cast from double to float is taken to round to nearest and to quiet NaNs, keeping the top payload bits, as the parametric conversion does. The other floating-point arithmetic is proved exact, not assumed so, for units that do not flush denormals to zero.
- MesaHalf.RoundToZeroF16: takes a sign of 0 or 1 and a significand that is not negative, because C does not define shifts of negative numbers to the left and leaves those to the right to the implementation; no caller passes others.
- Union type-punning and undefined shifts in C: inputs and outputs are bit patterns, and `sign << 31` places the sign bit.
- `_mesa_uint16_div_64k_to_half` and the rest of `src/util/softfloat.c`: no further kind of property.
- In the installer: resolving DESTDIR and the library directories, relative paths, chdir, printing, permissions, creating the directory, and directories standing where a link should go. Driver names are keys of one directory, so a slash in a driver name is only seen by extension-stripping.
- Reading the file, and everything after the check in `android/package.py` (version strings, git, the zip archive).
- The remaining headers, build files and drivers of the repository.
