# Verified model of the erasure-coding kernel

The server side of this repository carries a C kernel for erasure coding: arithmetic in GF(2^w)
(`galois.c`), Reed-Solomon and RAID-6 generator matrices (`reed_sol.c`), Cauchy matrices
(`cauchy.c`) and minimal-density RAID-6 bit matrices (`liberation.c`). This project models the four
files in Dafny and proves what they are for: the fast forms of the arithmetic agree with polynomial
arithmetic, and the generator matrices recover the data from any k surviving devices. Some routines
also return, without complaint, matrices that do not; for these the exact condition is proved.

`dafny verify dfyconfig.toml` checks the whole project.

## How the C code appears here

- A word of w bits is a `nat` below 2^w. `x ^ y` is `Xor`, `x & (1 << i)` is `Bit`, masking with
  `(1 << n) - 1` is `Low`, `x << 1` is `2 * x` (reduced modulo 2^32 where a machine word is meant,
  in `PackedDouble`). Signed `int` elements are read as unsigned words.
- `Field(w, poly)` stands for a word size and its entry of `prim_poly`. The ring laws hold for every
  polynomial; only its low w bits matter. Field properties rest either on `NoCollision`, which is
  exactly that the log-table loop finishes, or on `IsField`, the absence of zero divisors. Both are
  proved for the entries of w = 4, 8, 16 and 32; for the other word sizes they are hypotheses, which
  up to w = 30 the log-table loop tests.
- `exit(1)` is a result (`Exit` or `false`), a `NULL` return is `null` or `Null`.
- The static tables of one word size are one object (`FieldTables.Tables`), an empty sequence being
  a `NULL` pointer; the object of w = 32 refers to that of w = 8, whose tables it builds first. The
  statics of one region doubling are one `Doubler`, those of `cauchy_n_ones` one `Memo`. They are
  filled lazily as in C.
- Matrices are flat arrays, row by row, filled and eliminated in place; `Flat` ties them to the
  matrix they hold. Calls of `galois_single_multiply` and `galois_single_divide` inside
  `reed_sol.c`, `cauchy.c` and the RAID-6 code stand for the product `Mul` and for `ReedSol.Divide`;
  that the dispatchers compute exactly these is proved in `FieldTables`.
- MDS is stated as: any k rows of the generator have a trivial kernel.

## Files

| file | content |
|---|---|
| Words, Indexing, Counting, Modular, Cycle | words and bits, flat indices, pigeonhole, residues |
| GaloisField, PolynomialRemainder, PrimitiveElement | the ring, its textbook definition, what a finished log table proves |
| FullOrder, MachineProducts, PowerProducts, Primitive4, Primitive8, Primitive16, Primitive32, StandardFields | the polynomials of `galois.c`: the order of x by its prime factors, worked out on machine words |
| BinaryMatrix, ShiftArithmetic, FieldTables, SplitTables, Regions | the routines of `galois.c` |
| Vectors, Matrices, Distribution, VandermondeCode, ReedSol | roots, MDS, the distribution matrix, the code it keeps, the in-place code |
| Lanes, PackedDouble, Raid6, Raid6Encode | packed lanes, the RAID-6 code and its encoder |
| Cauchy, CauchyCoding, CauchyWords, BitMatrixOnes | Cauchy matrices, the improvement step, which words make a code, density counting |
| BitCode, Liberation, BlaumRoth, BitMatrices | two-loss recovery over GF(2), the two bit-matrix codes |

## Where code and documentation differ

- `galois.h` says a region product is xored into the target only if a separate target is given. The
  w = 32 routine, and the w = 16 routine for multiplier 0, obey `add` without one. The model follows
  the code; `Regions.PromiseKeptIff` says when the promise is kept all the same.
- The RAID-6 encoder looks at w only when there are two or more data regions, so with one region any
  w succeeds.
- In the back-substitution of the binary inversion the update of `mat` is commented out; the result
  is still the inverse.

## Where a returned matrix is no code

- `reed_sol_r6_coding_matrix` takes any k; where the log tables can be built two lost devices are
  recoverable exactly for k <= 2^w - 1 (`Raid6.TablesServeRaid6`, first failure in `Raid6.R6FirstFailure`).
- `liberation_coding_bitmatrix` does not ask for a prime w; it works exactly if no number from 2 to
  k - 1 divides w (`BitMatrices.LiberationRecoversIff`). `blaum_roth_coding_bitmatrix` works exactly if
  none divides w + 1 (`BitMatrices.BlaumRothRecoversIff`).
- `cauchy_xy_coding_matrix` takes any words; `CauchyWords.XYIsCodeIff` says which make a code.

## Model

| member | source | states |
|---|---|---|
| GaloisField.MulXorLeft | VS2010_Workspace/for_all_kinds_of_servers/for_all_kinds_of_servers/galois.c:257-285 | shift multiplication distributes over xor in its left operand, for every word size and reduction polynomial |
| GaloisField.MulXorRight | VS2010_Workspace/for_all_kinds_of_servers/for_all_kinds_of_servers/galois.c:257-285 | and in its right operand |
| GaloisField.MulComm | VS2010_Workspace/for_all_kinds_of_servers/for_all_kinds_of_servers/galois.c:257-285 | shift multiplication is commutative, for every reduction polynomial |
| GaloisField.MulAssoc | VS2010_Workspace/for_all_kinds_of_servers/for_all_kinds_of_servers/galois.c:257-285 | shift multiplication is associative, for every reduction polynomial |
| GaloisField.MulOne | VS2010_Workspace/for_all_kinds_of_servers/for_all_kinds_of_servers/galois.c:257-285 | 1 is its two-sided unit |
| PolynomialRemainder.MulIsRemainder | VS2010_Workspace/for_all_kinds_of_servers/for_all_kinds_of_servers/galois.c:257-285 | the product is a remainder of the carry-less polynomial product on division by x^w + prim_poly[w]: a quotient is produced, and the remainder has degree below w |
| PolynomialRemainder.RemainderUnique | VS2010_Workspace/for_all_kinds_of_servers/for_all_kinds_of_servers/galois.c:257-285 | such a quotient and remainder are unique, so the previous row determines the product |
| ShiftArithmetic.ShiftMultiply | VS2010_Workspace/for_all_kinds_of_servers/for_all_kinds_of_servers/galois.c:257-285 | the scratch-array loops return that product |
| GaloisField.RegularIsInvertible | VS2010_Workspace/for_all_kinds_of_servers/for_all_kinds_of_servers/galois.c:563-591 | among the 2^w words exactly those that are no zero divisors have an inverse |
| BinaryMatrix.InvertBinaryMatrix | VS2010_Workspace/for_all_kinds_of_servers/for_all_kinds_of_servers/galois.c:516-561 | returns normally exactly when the original matrix over GF(2) is nonsingular, and then inv times the original matrix is the identity |
| BinaryMatrix.PivotColumn | VS2010_Workspace/for_all_kinds_of_servers/for_all_kinds_of_servers/galois.c:527-549 | one column of the elimination keeps inv times the original equal to mat, keeps the kernel, and makes one more column triangular; it gives up only on a singular matrix |
| BinaryMatrix.BackSubstitute | VS2010_Workspace/for_all_kinds_of_servers/for_all_kinds_of_servers/galois.c:551-560 | the back-substitution completes the inverse although mat is no longer updated |
| BinaryMatrix.NoPivotIsSingular | VS2010_Workspace/for_all_kinds_of_servers/for_all_kinds_of_servers/galois.c:532-537 | if no row can be swapped in, a nonzero kernel vector exists |
| BinaryMatrix.InverseIsRegular | VS2010_Workspace/for_all_kinds_of_servers/for_all_kinds_of_servers/galois.c:516-561 | a matrix with a left inverse is nonsingular |
| ShiftArithmetic.FirstRowInverts | VS2010_Workspace/for_all_kinds_of_servers/for_all_kinds_of_servers/galois.c:577-590 | row 0 of the inverse of the rows y, yx, yx^2, ... is the inverse of y |
| ShiftArithmetic.InvertibleIsRegular | VS2010_Workspace/for_all_kinds_of_servers/for_all_kinds_of_servers/galois.c:577-588 | if y has an inverse, the matrix of its shifts is nonsingular |
| ShiftArithmetic.ShiftInverse | VS2010_Workspace/for_all_kinds_of_servers/for_all_kinds_of_servers/galois.c:571-591 | exits exactly when y has no inverse, and otherwise returns z with z * y = 1 |
| ShiftArithmetic.ShiftDivide | VS2010_Workspace/for_all_kinds_of_servers/for_all_kinds_of_servers/galois.c:365-373 | -1 for b = 0, 0 for a = 0, else the quotient, or exit when b has no inverse |
| PrimitiveElement.StandardField | VS2010_Workspace/for_all_kinds_of_servers/for_all_kinds_of_servers/galois.c:10-46 | the entries of prim_poly are odd |
| StandardFields.Polynomials1To8 | VS2010_Workspace/for_all_kinds_of_servers/for_all_kinds_of_servers/galois.c:15-22 | prim_poly[1..8] as sums of powers of two, that is, by the exponents of their terms |
| StandardFields.Polynomials9To16 | VS2010_Workspace/for_all_kinds_of_servers/for_all_kinds_of_servers/galois.c:23-30 | prim_poly[9..16] by their exponents |
| StandardFields.Polynomials17To24 | VS2010_Workspace/for_all_kinds_of_servers/for_all_kinds_of_servers/galois.c:31-38 | prim_poly[17..24] by their exponents |
| StandardFields.Polynomials25To32 | VS2010_Workspace/for_all_kinds_of_servers/for_all_kinds_of_servers/galois.c:39-46 | prim_poly[25..32] by their exponents |
| FullOrder.FullOrderNoCollision | VS2010_Workspace/for_all_kinds_of_servers/for_all_kinds_of_servers/galois.c:138-149 | if x to the 2^w - 1 is 1 and x to no (2^w - 1) / q is, q a prime factor, the table loop meets no collision |
| StandardFields.StandardIsField | VS2010_Workspace/for_all_kinds_of_servers/for_all_kinds_of_servers/galois.c:18-46 | for w = 4, 8, 16 and 32 the polynomial passes that test: the table loop meets no collision and the words form a field, without a hypothesis |
| PrimitiveElement.PowerMul | VS2010_Workspace/for_all_kinds_of_servers/for_all_kinds_of_servers/galois.c:138-149 | powers of x multiply by adding exponents |
| PrimitiveElement.EveryWordIsPower | VS2010_Workspace/for_all_kinds_of_servers/for_all_kinds_of_servers/galois.c:138-149 | if the table loop meets no collision, every nonzero word is a power of x below 2^w - 1 |
| PrimitiveElement.PowerCycle | VS2010_Workspace/for_all_kinds_of_servers/for_all_kinds_of_servers/galois.c:138-149 | and x^(2^w - 1) = 1 |
| PrimitiveElement.TablesMakeField | VS2010_Workspace/for_all_kinds_of_servers/for_all_kinds_of_servers/galois.c:117-156 | and there are no zero divisors: a finished table is a run-time proof that the words form a field |
| FieldTables.TablesInverse | VS2010_Workspace/for_all_kinds_of_servers/for_all_kinds_of_servers/galois.c:117-156 | log and ilog are mutually inverse bijections between the nonzero words and 0..2^w-2, and the three copies of ilog agree |
| FieldTables.LogsMultiply | VS2010_Workspace/for_all_kinds_of_servers/for_all_kinds_of_servers/galois.c:158-168 | the doubled exponent stays inside the table and looks up the product |
| FieldTables.LogsDivide | VS2010_Workspace/for_all_kinds_of_servers/for_all_kinds_of_servers/galois.c:170-181 | the negative exponent stays inside the table and looks up the quotient |
| FieldTables.FillLogs | VS2010_Workspace/for_all_kinds_of_servers/for_all_kinds_of_servers/galois.c:138-149 | the loop calls exit exactly when two powers of x below 2^w - 1 coincide |
| FieldTables.Tables.CreateLogTables | VS2010_Workspace/for_all_kinds_of_servers/for_all_kinds_of_servers/galois.c:117-156 | -1 for w > 30, else 0 exactly when the powers do not collide; the tables then hold the powers |
| FieldTables.Tables.CreateMultTables | VS2010_Workspace/for_all_kinds_of_servers/for_all_kinds_of_servers/galois.c:183-232 | -1 for w >= 14, else 0 exactly when the powers do not collide; every entry then holds the product and the quotient |
| FieldTables.Tables.LogtableMultiply | VS2010_Workspace/for_all_kinds_of_servers/for_all_kinds_of_servers/galois.c:158-168 | equals shift multiplication for all operands |
| FieldTables.Tables.LogtableDivide | VS2010_Workspace/for_all_kinds_of_servers/for_all_kinds_of_servers/galois.c:170-181 | -1 for a zero divisor, else the z with z * y = x, for all operands |
| FieldTables.Tables.MulttableMultiply | VS2010_Workspace/for_all_kinds_of_servers/for_all_kinds_of_servers/galois.c:327-330 | equals shift multiplication for all operands |
| FieldTables.Tables.MulttableDivide | VS2010_Workspace/for_all_kinds_of_servers/for_all_kinds_of_servers/galois.c:375-378 | -1 for a zero divisor, else the z with z * y = x, for all operands |
| FieldTables.Tables.SingleMultiply | VS2010_Workspace/for_all_kinds_of_servers/for_all_kinds_of_servers/galois.c:287-325 | the same product whatever strategy the word size selects; it exits exactly when a needed table is missing and cannot be built, which for w = 32 means the tables of w = 8 |
| FieldTables.Tables.SingleDivide | VS2010_Workspace/for_all_kinds_of_servers/for_all_kinds_of_servers/galois.c:332-363 | -1 for a zero divisor, else the z with z * b = a, whatever the strategy; it exits exactly when a needed table is missing and cannot be built or, above w = 22, b has no inverse |
| FieldTables.DivideNeverExits | VS2010_Workspace/for_all_kinds_of_servers/for_all_kinds_of_servers/galois.c:332-363 | that never happens where the tables can be built and, above w = 22, there are no zero divisors |
| FieldTables.Tables.Inverse | VS2010_Workspace/for_all_kinds_of_servers/for_all_kinds_of_servers/galois.c:563-569 | -1 for 0, else the inverse; it exits exactly when the log tables cannot be built or, above w = 22, y has no inverse, and there it touches no table |
| FieldTables.QuotientsAgree | VS2010_Workspace/for_all_kinds_of_servers/for_all_kinds_of_servers/galois.c:332-378 | in a field all divide routines return the same value |
| SplitTables.ByteProducts | VS2010_Workspace/for_all_kinds_of_servers/for_all_kinds_of_servers/galois.c:738-753 | the product of two shifted bytes depends on the shifts only through their sum, so one table serves all pairs |
| FieldTables.Tables.CreateSplitTables | VS2010_Workspace/for_all_kinds_of_servers/for_all_kinds_of_servers/galois.c:722-755 | the product tables of w = 8 come first, and it exits exactly when the split tables are missing and those cannot be built; no table already there is lost |
| SplitTables.CreateTables | VS2010_Workspace/for_all_kinds_of_servers/for_all_kinds_of_servers/galois.c:738-753 | the seven tables hold the shifted byte products although only i = 0 and i = 3 are computed |
| SplitTables.SplitMultiply | VS2010_Workspace/for_all_kinds_of_servers/for_all_kinds_of_servers/galois.c:757-775 | equals shift multiplication for all 32-bit operands |
| Regions.W08RegionMultiply | VS2010_Workspace/for_all_kinds_of_servers/for_all_kinds_of_servers/galois.c:380-433 | every target element becomes the product of multby and the region element, or its old value xor that product if add is set and there is a separate target |
| Regions.W16RegionMultiply | VS2010_Workspace/for_all_kinds_of_servers/for_all_kinds_of_servers/galois.c:435-512 | the same with the zero-multiplier shortcut, which obeys add even in place and never needs tables |
| Regions.W32RegionMultiply | VS2010_Workspace/for_all_kinds_of_servers/for_all_kinds_of_servers/galois.c:633-695 | the same through the split tables; add is obeyed even in place; it exits, touching no region, exactly when those tables are missing and cannot be built |
| Regions.PromiseKeptIff | VS2010_Workspace/for_all_kinds_of_servers/for_all_kinds_of_servers/galois.h:42-61 | where add is obeyed in place, the header's promise holds exactly if add is unset, a separate target is given, or the region is all zero |
| Raid6Encode.RegionXor | VS2010_Workspace/for_all_kinds_of_servers/for_all_kinds_of_servers/galois.c:697-720 | r3 becomes the xor of r1 and r2 as they were, also when r3 is one of them |
| Vectors.TooManyRoots | VS2010_Workspace/for_all_kinds_of_servers/for_all_kinds_of_servers/reed_sol.c:215-221 | a polynomial over the field with as many distinct roots as coefficients is zero |
| Matrices.DevicesDetermineData | VS2010_Workspace/for_all_kinds_of_servers/for_all_kinds_of_servers/jerasure.h:25-38 | if a generator matrix is MDS, the contents of any k devices determine the data |
| Distribution.VandermondeMDS | VS2010_Workspace/for_all_kinds_of_servers/for_all_kinds_of_servers/reed_sol.c:195-223 | the extended Vandermonde matrix is MDS for 1 <= cols < rows <= 2^w + 1 |
| Distribution.VandermondeLeading | VS2010_Workspace/for_all_kinds_of_servers/for_all_kinds_of_servers/reed_sol.c:195-223 | all its leading blocks have a trivial kernel |
| Matrices.ScaleColumnMDS | VS2010_Workspace/for_all_kinds_of_servers/for_all_kinds_of_servers/reed_sol.c:259-304 | scaling a column, throughout or only below unit rows, keeps MDS |
| Matrices.AddColumnMDS | VS2010_Workspace/for_all_kinds_of_servers/for_all_kinds_of_servers/reed_sol.c:270-287 | adding a multiple of one column to another keeps MDS |
| Matrices.ScaleRowMDS | VS2010_Workspace/for_all_kinds_of_servers/for_all_kinds_of_servers/reed_sol.c:306-317 | scaling a row keeps MDS |
| Matrices.NoZeroEntry | VS2010_Workspace/for_all_kinds_of_servers/for_all_kinds_of_servers/reed_sol.c:292-317 | below unit rows an MDS matrix has no zero entry, so no normalising division sees a zero |
| Distribution.PivotInPlace | VS2010_Workspace/for_all_kinds_of_servers/for_all_kinds_of_servers/reed_sol.c:240-258 | the pivot search always stops at j = i, so rows are never swapped |
| Distribution.StageReady | VS2010_Workspace/for_all_kinds_of_servers/for_all_kinds_of_servers/reed_sol.c:237-288 | an elimination stage never exits, keeps MDS and the leading blocks, and finishes one more unit row |
| Distribution.StagesReady | VS2010_Workspace/for_all_kinds_of_servers/for_all_kinds_of_servers/reed_sol.c:236-288 | so the whole elimination succeeds and leaves unit rows on top of an MDS matrix |
| ReedSol.NeverExits | VS2010_Workspace/for_all_kinds_of_servers/for_all_kinds_of_servers/reed_sol.c:243-247 | the error exit of the elimination is unreachable |
| Distribution.NormalizeColumnsCorrect | VS2010_Workspace/for_all_kinds_of_servers/for_all_kinds_of_servers/reed_sol.c:289-304 | row cols becomes all ones; unit rows and MDS stay |
| Distribution.NormalizeRowsCorrect | VS2010_Workspace/for_all_kinds_of_servers/for_all_kinds_of_servers/reed_sol.c:306-317 | the first column of the later rows becomes ones; everything else stays |
| Distribution.DistributionCorrect | VS2010_Workspace/for_all_kinds_of_servers/for_all_kinds_of_servers/reed_sol.c:225-320 | the distribution matrix is MDS, has the identity on top, row cols all ones and first coding column all ones |
| VandermondeCode.DistributionCode | VS2010_Workspace/for_all_kinds_of_servers/for_all_kinds_of_servers/reed_sol.c:225-320 | elimination and normalisation keep the code: an injective linear map turns the data into a polynomial of which device r stores a fixed nonzero multiple of the value at r, the last device of the leading coefficient |
| VandermondeCode.DistributionUnique | VS2010_Workspace/for_all_kinds_of_servers/for_all_kinds_of_servers/reed_sol.c:225-320 | no other matrix with the identity on top, ones in row cols and ones in the first coding column has that code |
| ReedSol.ExtendedVandermonde | VS2010_Workspace/for_all_kinds_of_servers/for_all_kinds_of_servers/reed_sol.c:195-223 | null exactly when w < 30 and rows or columns exceed 2^w; else, on the array, row 0 is 1 before zeros, the last row zeros before a 1, and in row i between entry 0 is 1 and each next entry is i times the one before |
| ReedSol.SearchPivot | VS2010_Workspace/for_all_kinds_of_servers/for_all_kinds_of_servers/reed_sol.c:240-242 | the entries of column i are zero from row i up to the result and nonzero at it |
| ReedSol.EliminationStage | VS2010_Workspace/for_all_kinds_of_servers/for_all_kinds_of_servers/reed_sol.c:237-288 | the in-place stage computes the stage of the matrix, or exits exactly when there is no pivot |
| ReedSol.Eliminate | VS2010_Workspace/for_all_kinds_of_servers/for_all_kinds_of_servers/reed_sol.c:236-288 | the elimination loop computes all stages in place, or exits exactly when one of them fails |
| ReedSol.BigVandermondeDistribution | VS2010_Workspace/for_all_kinds_of_servers/for_all_kinds_of_servers/reed_sol.c:225-320 | never exits; null exactly for cols >= rows or, below w = 30, more than 2^w rows; otherwise the flat array holds the distribution matrix |
| ReedSol.VandermondeCodingMatrix | VS2010_Workspace/for_all_kinds_of_servers/for_all_kinds_of_servers/reed_sol.c:31-52 | never exits; null exactly for m = 0 or, below w = 30, k + m > 2^w; otherwise the coding rows of the distribution matrix |
| Raid6.R6CodingMatrix | VS2010_Workspace/for_all_kinds_of_servers/for_all_kinds_of_servers/reed_sol.c:11-29 | null unless w is 8, 16 or 32, else entry j of the first row is 1 and of the second row 2^j in the field |
| Raid6.R6RecoversIff | VS2010_Workspace/for_all_kinds_of_servers/for_all_kinds_of_servers/reed_sol.c:11-29 | RAID-6 recovers from every loss of two devices exactly if none of 2^1, ..., 2^(k-1) is 1 in the field |
| Raid6.TablesServeRaid6 | VS2010_Workspace/for_all_kinds_of_servers/for_all_kinds_of_servers/reed_sol.c:11-29 | where the log tables can be built that means exactly k <= 2^w - 1, although the routine takes every k |
| Raid6.R6FirstFailure | VS2010_Workspace/for_all_kinds_of_servers/for_all_kinds_of_servers/reed_sol.c:11-29 | the failing instance: with 2^w data devices the first and the last have the same column, and losing both loses data |
| StandardFields.StandardRaid6 | VS2010_Workspace/for_all_kinds_of_servers/for_all_kinds_of_servers/reed_sol.c:11-29 | with the polynomials of galois.c for w = 8, 16 and 32 RAID-6 recovers exactly for k < 2^w, without a hypothesis |
| PackedDouble.DoubleWordLane | VS2010_Workspace/for_all_kinds_of_servers/for_all_kinds_of_servers/reed_sol.c:58-166 | the masked word operation multiplies every 8-, 16- or 32-bit lane by 2 in the field |
| Raid6Encode.SpreadByte | VS2010_Workspace/for_all_kinds_of_servers/for_all_kinds_of_servers/reed_sol.c:88-106 | the static-mask loop copies a byte into all four lanes |
| Raid6Encode.SpreadHalf | VS2010_Workspace/for_all_kinds_of_servers/for_all_kinds_of_servers/reed_sol.c:134-152 | and a half-word into both |
| Raid6Encode.Doubler.Prepare | VS2010_Workspace/for_all_kinds_of_servers/for_all_kinds_of_servers/reed_sol.c:88-107 | the lazily set statics are right after the first call and on every later one |
| Raid6Encode.Doubler.RegionMultBy2 | VS2010_Workspace/for_all_kinds_of_servers/for_all_kinds_of_servers/reed_sol.c:58-166 | every word of the region is replaced by its doubled word, whichever call set the statics |
| Raid6Encode.R6Encode | VS2010_Workspace/for_all_kinds_of_servers/for_all_kinds_of_servers/reed_sol.c:168-193 | in every lane of every word region 0 is the product of the data lanes with ones and region 1 with 1, 2, 4, ... in the field of w; for an unsupported w and k > 1, and only then, 0 is returned with region 1 still the last data region |
| Raid6Encode.EncoderIsMatrixProduct | VS2010_Workspace/for_all_kinds_of_servers/for_all_kinds_of_servers/reed_sol.c:168-193 | lane by lane the xor of the words and their Horner value are the rows of the RAID-6 coding matrix times the data |
| BitCode.SurvivesTwoLosses | VS2010_Workspace/for_all_kinds_of_servers/for_all_kinds_of_servers/jerasure.h:34-38 | if all blocks and all sums of two blocks are invertible, any two of the k + 2 devices may be lost |
| BitCode.SurvivesIffGood | VS2010_Workspace/for_all_kinds_of_servers/for_all_kinds_of_servers/jerasure.h:34-38 | and only then: otherwise two different data sets agree on k of the devices |
| Liberation.BlockInvertible | VS2010_Workspace/for_all_kinds_of_servers/for_all_kinds_of_servers/liberation.c:32-42 | every Liberation block is invertible |
| Liberation.PairKernelTrivial | VS2010_Workspace/for_all_kinds_of_servers/for_all_kinds_of_servers/liberation.c:32-42 | the sum of the Liberation blocks a and a + d is invertible for odd w if no number from 2 to d divides w |
| Liberation.BlocksGoodIff | VS2010_Workspace/for_all_kinds_of_servers/for_all_kinds_of_servers/liberation.c:30-42 | for every w and k <= w the Liberation code survives any two losses exactly if no number from 2 to k - 1 divides w; in particular for every prime w |
| BitMatrices.LiberationCodingBitmatrix | VS2010_Workspace/for_all_kinds_of_servers/for_all_kinds_of_servers/liberation.c:11-44 | null exactly for k > w, else, on the array, P rows have their one at c = i, Q rows at c = (j + i) mod w and, for j > 0 in row j (w - 1) / 2 mod w, at c = (i + j - 1) mod w, and nothing else; it recovers from any two losses exactly if no number from 2 to k - 1 divides w |
| BitMatrices.LiberationSurvives | VS2010_Workspace/for_all_kinds_of_servers/for_all_kinds_of_servers/liberation.c:11-44 | for a prime w the array recovers the data from any k of the k + 2 devices |
| BlaumRoth.HalfIsHalf | VS2010_Workspace/for_all_kinds_of_servers/for_all_kinds_of_servers/liberation.c:202-207 | the case split on parity computes i / 2 modulo p |
| BlaumRoth.BlockInvertible | VS2010_Workspace/for_all_kinds_of_servers/for_all_kinds_of_servers/liberation.c:185-212 | every Blaum-Roth block is invertible, for every w |
| BlaumRoth.PairKernelTrivial | VS2010_Workspace/for_all_kinds_of_servers/for_all_kinds_of_servers/liberation.c:185-212 | the sum of the Blaum-Roth blocks a and a + d is invertible for odd w + 1 if no number from 2 to d divides w + 1 |
| BlaumRoth.EvenAgrees | VS2010_Workspace/for_all_kinds_of_servers/for_all_kinds_of_servers/liberation.c:185-212 | for even w + 1 blocks 0 and 2 agree on the vector set at the even positions |
| BlaumRoth.BlocksGoodIff | VS2010_Workspace/for_all_kinds_of_servers/for_all_kinds_of_servers/liberation.c:182-213 | for every w and k <= w the Blaum-Roth code survives any two losses exactly if no number from 2 to k - 1 divides w + 1; in particular whenever w + 1 is prime |
| BitMatrices.BlaumRothCodingBitmatrix | VS2010_Workspace/for_all_kinds_of_servers/for_all_kinds_of_servers/liberation.c:162-216 | null exactly for k > w, else, on the array and counted from 1, P rows have their one at c = l, Q rows at c = (l + j) mod (w + 1), and where that is 0 at j and at j / 2, and nothing else; it recovers from any two losses exactly if no number from 2 to k - 1 divides w + 1 |
| BitMatrices.BlaumRothSurvives | VS2010_Workspace/for_all_kinds_of_servers/for_all_kinds_of_servers/liberation.c:162-216 | for w + 1 a prime the array recovers the data from any k of the k + 2 devices |
| BitMatrices.MatrixSurvives | VS2010_Workspace/for_all_kinds_of_servers/for_all_kinds_of_servers/jerasure.h:27-38 | an array that holds good blocks recovers the data from any k of the k + 2 devices |
| BitMatrices.RecoversIff | VS2010_Workspace/for_all_kinds_of_servers/for_all_kinds_of_servers/jerasure.h:27-38 | and an array whose blocks are not good does not |
| BitMatrices.LiberationRecoversIff | VS2010_Workspace/for_all_kinds_of_servers/for_all_kinds_of_servers/liberation.c:11-44 | the Liberation array recovers from any two losses exactly if no number from 2 to k - 1 divides w |
| BitMatrices.BlaumRothRecoversIff | VS2010_Workspace/for_all_kinds_of_servers/for_all_kinds_of_servers/liberation.c:162-216 | the Blaum-Roth array recovers from any two losses exactly if no number from 2 to k - 1 divides w + 1 |
| BitMatrixOnes.FlipsExact | VS2010_Workspace/for_all_kinds_of_servers/for_all_kinds_of_servers/cauchy.c:69-76 | adjusting the count at the flipped bits alone keeps it exact |
| BitMatrixOnes.TurnWithTop | VS2010_Workspace/for_all_kinds_of_servers/for_all_kinds_of_servers/cauchy.c:69-76 | one turn with the top bit set multiplies by 2 and keeps the count exact, for w >= 2; for w = 1 the loop makes no turn |
| BitMatrixOnes.Memo.Fill | VS2010_Workspace/for_all_kinds_of_servers/for_all_kinds_of_servers/cauchy.c:53-63 | the memo holds the top bit times 2, for w = 1 the entry the lookup finds, and the positions of its ones |
| BitMatrixOnes.Memo.NOnes | VS2010_Workspace/for_all_kinds_of_servers/for_all_kinds_of_servers/cauchy.c:43-83 | the result is the number of pairs (r, c) below w for which bit r of 2^c times n is set, whatever calls filled the memo |
| Cauchy.CauchyMDS | VS2010_Workspace/for_all_kinds_of_servers/for_all_kinds_of_servers/cauchy.c:85-118 | a Cauchy matrix on words that are distinct and apart, under the identity, is MDS |
| Cauchy.SquareSubmatrix | VS2010_Workspace/for_all_kinds_of_servers/for_all_kinds_of_servers/cauchy.c:85-161 | every square submatrix of an MDS coding matrix is nonsingular |
| CauchyCoding.XYCodingMatrix | VS2010_Workspace/for_all_kinds_of_servers/for_all_kinds_of_servers/cauchy.c:103-118 | on the array, entry (i, j) is -1 if x_i = y_j and otherwise multiplies x_i xor y_j to 1 |
| CauchyWords.XYEntries | VS2010_Workspace/for_all_kinds_of_servers/for_all_kinds_of_servers/cauchy.c:103-118 | -1 marks exactly the coinciding words, and the other entries are inverses of the sums |
| CauchyWords.XYIsCodeIff | VS2010_Workspace/for_all_kinds_of_servers/for_all_kinds_of_servers/cauchy.c:103-118 | the matrix is a code exactly if no word is shared, none repeats in X (two or more data devices) and none in Y (two or more coding devices) |
| CauchyCoding.OriginalCodingMatrix | VS2010_Workspace/for_all_kinds_of_servers/for_all_kinds_of_servers/cauchy.c:85-101 | null exactly when k + m words do not fit; else, on the array, entry (i, j) multiplies i xor (m + j) to 1 |
| CauchyCoding.OriginalIsMDS | VS2010_Workspace/for_all_kinds_of_servers/for_all_kinds_of_servers/cauchy.c:85-101 | that matrix is MDS, and no denominator is zero |
| CauchyCoding.SearchDivisor | VS2010_Workspace/for_all_kinds_of_servers/for_all_kinds_of_servers/cauchy.c:137-153 | finds the first entry whose division leaves strictly the fewest ones, or none |
| CauchyCoding.ImproveRow | VS2010_Workspace/for_all_kinds_of_servers/for_all_kinds_of_servers/cauchy.c:136-159 | the row is kept or replaced by its division by one of its entries that has fewer ones in its bit matrices than the row, no more than any other division and fewer than every earlier one |
| CauchyCoding.ImproveCodingMatrix | VS2010_Workspace/for_all_kinds_of_servers/for_all_kinds_of_servers/cauchy.c:120-161 | on a matrix without zeros the array ends as the column-normalised matrix with every later row improved: row 0 is all ones, and no later row has more ones, counted in its bit matrices, than its normalised form (whose entries multiply the top entries back to the original) or any of its divisions |
| CauchyCoding.ImprovementIsFixed | VS2010_Workspace/for_all_kinds_of_servers/for_all_kinds_of_servers/cauchy.c:120-161 | improving an improved matrix changes nothing |
| CauchyCoding.ImprovementKeepsMDS | VS2010_Workspace/for_all_kinds_of_servers/for_all_kinds_of_servers/cauchy.c:120-161 | improving an MDS code leaves it MDS |
| CauchyCoding.ImprovedCauchyIsMDS | VS2010_Workspace/for_all_kinds_of_servers/for_all_kinds_of_servers/cauchy.c:103-161 | every Cauchy matrix on suitable words has no zero entry, so it can be improved, and improved it is MDS |
| CauchyCoding.ImprovedOriginalIsMDS | VS2010_Workspace/for_all_kinds_of_servers/for_all_kinds_of_servers/cauchy.c:85-161 | so is the improved original matrix, for all k + m <= 2^w |

## Left out

- `galois_log`, `galois_ilog` and the `galois_get_*_table` accessors: they only return tables.
- Allocation failure, `free`, pointer casts and the undefined behaviour of signed shifts.
- Region lengths that are no multiple of the machine word, and partially overlapping regions.
- The `ONEs` memo is kept as bit positions instead of one-bit words; matrix entries that are zero are
  outside the improvement step, which would multiply by the error value -1.
- BitMatrixOnes.TurnWithTop: w = 1 is left out, because the loop then makes no turn; `NOnes` covers it.
- ReedSol.ExtendedVandermonde: more than 2^30 + 1 rows at w = 30, because a row number is then no word
  and the signed shift by which the C code multiplies it overflows.
- ReedSol.BigVandermondeDistribution: more than 2^30 + 1 rows at w = 30, for the same reason.
- ReedSol.VandermondeCodingMatrix: k + m > 2^30 + 1 at w = 30, for the same reason.
- That the entries of `prim_poly` other than w = 4, 8, 16 and 32 are primitive: up to w = 30 it is what
  a finished log table shows.
- `liber8tion_coding_bitmatrix`, the `cbest_*` tables and `cauchy_good_general_coding_matrix`, which
  only chooses between such a table and the two Cauchy routines: fixed finite data.
- Decoding and bit-matrix scheduling: `jerasure.c` is not part of this model, so recovery is stated
  as injectivity of the generator.
- All networking, thread-pool, file and configuration code, and the second copy of the kernel under
  `j_lib_test`.
