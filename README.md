# LGML numerics core in Dafny

This project models the numeric core of the header-only C++ library LGML and proves properties of the model:

- **Linear system solver** (`linear-system-solver/linear_solver.hpp`).
  - Gauss–Jordan elimination on an augmented matrix stored in an array of rows.
  - Row swapping to find a pivot, pivot scaling, elimination below the pivot, then back substitution.
  - The model proves that every step keeps the solution set and that the result is the exact solution.
  - It also proves that the solver reports failure exactly when the coefficient matrix is singular.
- **Fractions** (`fraction/fraction.hpp`).
  - Signed `gcd` and `lcm`.
  - The class `Fraction`, which keeps itself in lowest terms with a positive denominator.
  - Its arithmetic operators, compound assignments and comparisons.
  - The model proves that `gcd`/`lcm` are a greatest common divisor and a least common multiple, and that the operators give the exact rational sum, difference, product and quotient.
- **Fixed-point numbers** (`fixedpoint/fixedpoint.hpp`).
  - The compile-time type tables `Type_Next_Greater_Than` and `Type_Max`, and `Pos_Min`/`Pos_Max`/`Pos_Min_Bool`/`Pos_Max_Bool`.
  - `EvaluateShift`.
  - `Fixed<T, Pos>`: construction, conversion between formats, arithmetic, comparisons, increments, `floor`/`ceil` and the accessors.
  - The C++ integer types are written out as ranges. Every store into a narrower signed type is modelled as explicit two's-complement narrowing (`FixedPoint.Narrow`).
  - `>>` is floor division by 2^k and `/` is C++ truncating division (`CppInt.CDiv`).
- **Vectors and matrices** (`vector/*.h`).
  - `Vector2`, `Vector3` and `Vector4`.
  - `Matrix4` with its 16-entry array and triple-loop product.
  - Matrix–vector products.
  - Scalars are modelled as `real`.

Entities whose state the C++ code updates in place are Dafny classes:

- `Matrix4` (array `m`);
- the compound assignments of `Fraction`, `Fixed` and `Vector3`;
- the solver's matrix and vector (arrays).

Values are datatypes. Every method is proved against a pure specification function. Module `SolverSpec` holds the reference linear algebra: matrix–vector product, solutions, singularity and row operations.

Two facts about the source are worth knowing:

- `Matrix4::operator*` composes in reverse order: `(a * b) * v == b * (a * v)` (`LinAlg.ProductActsInReverse`).
- `Fixed::floor()` and `Fixed::ceil()` never read `*this` (see Findings).

## Model

| member | source | states |
|---|---|---|
| LinearSystemSolver.SwapRows | linear-system-solver/linear_solver.hpp:37-51 | returns true exactly when some row below `row` has a nonzero entry in column `row`; then the first such row is swapped with `row`; otherwise the matrix is unchanged |
| LinearSystemSolver.ScaleRowWithPivot | linear-system-solver/linear_solver.hpp:53-61 | a zero pivot leaves the matrix unchanged; otherwise only row `row` changes, and it becomes that row divided by its pivot |
| LinearSystemSolver.SubtractScaledRow | linear-system-solver/linear_solver.hpp:114-122 | only the target row changes; it becomes target minus scale times source, entry by entry |
| LinearSystemSolver.BackSubstitution | linear-system-solver/linear_solver.hpp:63-77 | keeps the augmented shape and the solution set; on a unit upper triangular input it leaves the identity in the coefficient columns |
| LinearSystemSolver.EliminateColumn | linear-system-solver/linear_solver.hpp:94-124 | one pivot step keeps the solution set; if a pivot exists the matrix is in echelon form one column further; otherwise the matrix is unchanged and column i is zero from row i down |
| LinearSystemSolver.LinearSolver | linear-system-solver/linear_solver.hpp:79-135 | on a size mismatch returns false and changes nothing; otherwise succeeds exactly when the matrix is nonsingular; on success `vec` is the unique solution of the original system and `mat` is the identity augmented by it; on failure `vec` is unchanged |
| LinearSystemSolver.NoPivotIsSingular | linear-system-solver/linear_solver.hpp:96-100 | a column with no nonzero pivot candidate during elimination means the original matrix has a nonzero kernel vector |
| LinearSystemSolver.ReducedIsSolved | linear-system-solver/linear_solver.hpp:129-134 | once the coefficient part is the identity, its last column is the one and only solution, and the original matrix is nonsingular |
| LinearSystemSolver.SwapKeepsEchelon | linear-system-solver/linear_solver.hpp:96-100 | swapping a lower row into pivot position keeps the finished pivot columns |
| LinearSystemSolver.ScaleKeepsEchelon | linear-system-solver/linear_solver.hpp:103 | scaling by a nonzero pivot makes the diagonal entry 1 and keeps earlier pivots |
| LinearSystemSolver.EliminateKeepsShape | linear-system-solver/linear_solver.hpp:109-123 | subtracting the scaled pivot row zeroes the entry below the pivot and keeps the entries already cleared |
| LinearSystemSolver.ClearKeepsShape | linear-system-solver/linear_solver.hpp:69-76 | a back-substitution step zeroes one entry above the diagonal and keeps the unit columns to its right |
| SolverSpec.SwapSameSolutions | linear-system-solver/linear_solver.hpp:37-51 | swapping two rows changes neither the solution set nor the kernel |
| SolverSpec.ScaleSameSolutions | linear-system-solver/linear_solver.hpp:53-61 | dividing a row by a nonzero scalar changes neither the solution set nor the kernel |
| SolverSpec.SubtractSameSolutions | linear-system-solver/linear_solver.hpp:120-122 | subtracting a multiple of another row changes neither the solution set nor the kernel |
| SolverSpec.FirstNonzeroBelow | linear-system-solver/linear_solver.hpp:42-47 | the index found is the first row at or after `from` with a nonzero entry in the column, or the row count if there is none |
| SolverSpec.AugmentSatisfies | linear-system-solver/linear_solver.hpp:86-87 | the matrix a augmented by column b is satisfied exactly by the solutions of a x = b; its homogeneous form exactly by the kernel of a |
| SolverSpec.IdentitySolutions | linear-system-solver/linear_solver.hpp:131-132 | an augmented identity has its last column as the only solution |
| SolverSpec.StuckHasKernel | linear-system-solver/linear_solver.hpp:96-100 | an echelon matrix with no pivot in column i has a nonzero kernel vector |
| SolverSpec.UniqueSolutionNotSingular | linear-system-solver/linear_solver.hpp:134 | a matrix with exactly one solution for some right-hand side is nonsingular |
| Fractions.Gcd | fraction/fraction.hpp:33-58 | the loop computes Euclid's gcd of the absolute values with the product of the two signs applied |
| Fractions.GcdIsGreatestCommonDivisor | fraction/fraction.hpp:33-58 | the result divides both arguments and every common divisor divides it; it is zero exactly when both are zero and negative exactly when the signs differ; gcd(a, 0) == a |
| Fractions.LcmIsLeastCommonMultiple | fraction/fraction.hpp:60-63 | lcm is a nonnegative common multiple dividing every common multiple, and lcm * gcd == abs(a) * abs(b) |
| Fractions.Make | fraction/fraction.hpp:70-73 | construction gives lowest terms with a positive denominator; a zero numerator or denominator gives 0/1; otherwise the result is cross-equal to n/d |
| Fractions.MakeValue | fraction/fraction.hpp:70-73 | a constructed fraction stands for the rational n / d |
| Fractions.MakeSameIff | fraction/fraction.hpp:177-212 | two constructions give the same fraction exactly when their arguments are cross-equal |
| Fractions.MakeIdempotent | fraction/fraction.hpp:177-212 | simplifying an already simplified fraction changes nothing |
| Fractions.EqualIffSameValue | fraction/fraction.hpp:162-167 | two normalised fractions are equal exactly when they stand for the same rational |
| Fractions.Zero | fraction/fraction.hpp:69 | the default fraction is normalised and stands for 0 |
| Fractions.IsFractionIffNotWhole | fraction/fraction.hpp:79-84 | a normalised fraction is a proper fraction exactly when its denominator does not divide its numerator |
| Fractions.Plus | fraction/fraction.hpp:86-99 | the sum over the lcm of the denominators is normalised |
| Fractions.PlusIsSum | fraction/fraction.hpp:86-99 | `+` stands for the exact rational sum |
| Fractions.Minus | fraction/fraction.hpp:100-112 | the difference is normalised |
| Fractions.MinusIsDifference | fraction/fraction.hpp:100-112 | `-` stands for the exact rational difference |
| Fractions.Times | fraction/fraction.hpp:113-122 | the product is normalised |
| Fractions.TimesIsProduct | fraction/fraction.hpp:113-122 | `*` stands for the exact rational product |
| Fractions.Divide | fraction/fraction.hpp:123-135 | the quotient is normalised |
| Fractions.DivideIsQuotient | fraction/fraction.hpp:123-135 | `/` by a nonzero fraction stands for the exact quotient; `/` by zero gives 0/1 (the constructor's zero-denominator case) |
| Fractions.Eq | fraction/fraction.hpp:162-167 | `==` holds exactly when numerators and denominators agree |
| Fractions.Ne | fraction/fraction.hpp:169-174 | `!=` is the negation of `==` |
| Fractions.EqIsValueEquality | fraction/fraction.hpp:162-174 | on normalised fractions `==` and `!=` decide equality of the rational values |
| Fractions.MutableFraction.Default | fraction/fraction.hpp:69 | the default object holds 0/1 |
| Fractions.MutableFraction.constructor | fraction/fraction.hpp:70-73 | the object holds the simplified form of numerator/denominator (denominator 1 by default) |
| Fractions.MutableFraction.Simplify | fraction/fraction.hpp:177-212 | the fields become the lowest-terms form of the old fields, with a positive denominator and 0/1 for zero |
| Fractions.MutableFraction.AddAssign | fraction/fraction.hpp:137-142 | `+=` stores the sum and keeps the object normalised |
| Fractions.MutableFraction.SubAssign | fraction/fraction.hpp:143-148 | `-=` stores the difference and keeps the object normalised |
| Fractions.MutableFraction.MulAssign | fraction/fraction.hpp:149-154 | `*=` stores the product and keeps the object normalised |
| Fractions.MutableFraction.DivAssign | fraction/fraction.hpp:155-160 | `/=` stores the quotient and keeps the object normalised |
| FixedPoint.TypeMaxTable | fixedpoint/fixedpoint.hpp:72-123 | Type_Max is defined exactly on pairs of int8/int16/int32; it picks the wider of the two and is commutative and idempotent |
| FixedPoint.NextGreaterTable | fixedpoint/fixedpoint.hpp:41-68 | every type except int64 has a next wider type, and that type has twice the bits |
| FixedPoint.PosMin | fixedpoint/fixedpoint.hpp:125-128 | the smaller of the two positions |
| FixedPoint.PosMax | fixedpoint/fixedpoint.hpp:130-133 | the larger of the two positions |
| FixedPoint.PosMinBool | fixedpoint/fixedpoint.hpp:135-138 | true exactly when the first position is smaller |
| FixedPoint.PosMaxBool | fixedpoint/fixedpoint.hpp:140-143 | true exactly when the first position is larger |
| FixedPoint.PosDistance | fixedpoint/fixedpoint.hpp:125-143 | max minus min is the distance between the positions; exactly one of less, greater or equal holds |
| FixedPoint.NarrowSpec | fixedpoint/fixedpoint.hpp:179-182 | a stored value is in the type's range, is unchanged when it already fits, and differs from the original by a multiple of 2^bits |
| FixedPoint.Default | fixedpoint/fixedpoint.hpp:177 | the default value is raw 0 |
| FixedPoint.FromInt | fixedpoint/fixedpoint.hpp:179-182 | an integer n is stored as n * 2^pos, wrapped to the type |
| FixedPoint.GetValueFromInt | fixedpoint/fixedpoint.hpp:179-182 | when n * 2^pos fits, GetValue gives back n, GetFixed gives n * 2^pos and GetPoint gives pos |
| FixedPoint.Convert | fixedpoint/fixedpoint.hpp:185-188 | conversion keeps the target format and gives a value in range |
| FixedPoint.ConvertShifts | fixedpoint/fixedpoint.hpp:360-364 | converting to more fraction bits multiplies by 2^diff; converting to fewer bits floor-divides by 2^diff; each result is narrowed to Type_Max and then to the target type |
| FixedPoint.ConvertSameFormat | fixedpoint/fixedpoint.hpp:190-193 | copying a value of the same format gives the same value |
| FixedPoint.ConvertRoundTrip | fixedpoint/fixedpoint.hpp:185-188 | converting to k more fraction bits and back gives the original value, provided it fits |
| FixedPoint.FromInteger | fixedpoint/fixedpoint.hpp:366-371 | the raw value is stored, wrapped to the type |
| FixedPoint.Plus | fixedpoint/fixedpoint.hpp:195-201 | the result has the left operand's format and is in range |
| FixedPoint.Minus | fixedpoint/fixedpoint.hpp:203-209 | the result has the left operand's format and is in range |
| FixedPoint.Times | fixedpoint/fixedpoint.hpp:211-217 | the result has the left operand's format and is in range |
| FixedPoint.Divide | fixedpoint/fixedpoint.hpp:219-229 | the result has the left operand's format and is in range; a zero divisor after conversion is excluded |
| FixedPoint.PlusMinusSameFormat | fixedpoint/fixedpoint.hpp:195-209 | on equal formats `+` and `-` are the wrapped raw sum and difference, and are exact when that fits |
| FixedPoint.TimesSameFormat | fixedpoint/fixedpoint.hpp:211-217 | on equal formats `*` is the raw product shifted right by pos, which is the floor of the product over 2^pos, wrapped |
| FixedPoint.DivideSameFormat | fixedpoint/fixedpoint.hpp:219-229 | on equal formats `/` is the truncating quotient of the raw dividend shifted left by pos; the remainder is smaller than the divisor and has the dividend's sign |
| FixedPoint.NextGreaterHoldsProduct | fixedpoint/fixedpoint.hpp:216 | the product of two values of int8/int16/int32 always fits the next wider type |
| FixedPoint.NextGreaterHoldsShift | fixedpoint/fixedpoint.hpp:228 | a value shifted left by fewer than its type's digits fits the next wider type |
| FixedPoint.MixedPositionSum | fixedpoint/fixedpoint.hpp:195-201 | 1.0 at position 8 plus 1.0 at position 16 gives raw 2^17 at position 8, which reads 512.0, not 2.0: the sum is formed at the larger position and stored at the left operand's position without rescaling |
| FixedPoint.ComparisonsComplement | fixedpoint/fixedpoint.hpp:259-305 | `!=` negates `==`, `>=` negates `<`, `<=` negates `>`, and exactly one of `<`, `==`, `>` holds (at least one holds, and no two hold together) |
| FixedPoint.ComparisonsSameFormat | fixedpoint/fixedpoint.hpp:259-297 | on equal formats `<`, `>`, `<=` and `>=` compare the raw values, `==` is equality and `!=` is inequality |
| FixedPoint.Not | fixedpoint/fixedpoint.hpp:308-311 | `!` holds exactly when the raw value is zero |
| FixedPoint.GetValue | fixedpoint/fixedpoint.hpp:355 | the integer part is the floor of val / 2^pos |
| FixedPoint.OneFits | fixedpoint/fixedpoint.hpp:315 | `Fixed(1)` is raw 2^pos in every valid format |
| FixedPoint.IncrementDecrementStep | fixedpoint/fixedpoint.hpp:313-337 | `++` and `--` add and subtract 2^pos, wrapped, and are exact when that fits |
| FixedPoint.MutableFixed.constructor | fixedpoint/fixedpoint.hpp:190-193 | the copy holds the same value |
| FixedPoint.MutableFixed.AddAssign | fixedpoint/fixedpoint.hpp:231-236 | `+=` stores `this + right` |
| FixedPoint.MutableFixed.SubAssign | fixedpoint/fixedpoint.hpp:238-243 | `-=` stores `this - right` |
| FixedPoint.MutableFixed.MulAssign | fixedpoint/fixedpoint.hpp:245-250 | `*=` stores `this * right` |
| FixedPoint.MutableFixed.DivAssign | fixedpoint/fixedpoint.hpp:252-257 | `/=` stores `this / right` |
| FixedPoint.MutableFixed.PreIncrement | fixedpoint/fixedpoint.hpp:313-317 | adds Fixed(1) and returns the new value |
| FixedPoint.MutableFixed.PostIncrement | fixedpoint/fixedpoint.hpp:319-324 | adds Fixed(1) and returns the old value |
| FixedPoint.MutableFixed.PreDecrement | fixedpoint/fixedpoint.hpp:326-330 | subtracts Fixed(1) and returns the new value |
| FixedPoint.MutableFixed.PostDecrement | fixedpoint/fixedpoint.hpp:332-337 | subtracts Fixed(1) and returns the old value |
| FixedPoint.FloorAsWritten | fixedpoint/fixedpoint.hpp:339-344 | as written, floor returns raw 0 for every input |
| FixedPoint.CeilAsWritten | fixedpoint/fixedpoint.hpp:346-352 | as written, ceil returns raw 0 for every input |
| FixedPoint.FloorIntendedIsFloor | fixedpoint/fixedpoint.hpp:339-344 | clearing the fraction bits of `*this` gives the largest whole number not above the value, in range |
| FixedPoint.CeilIntendedIsCeil | fixedpoint/fixedpoint.hpp:346-352 | adding 2^pos - 1 and clearing the fraction bits gives the smallest whole number not below the value, when the addition fits |
| FixedPoint.FloorCeilCounterexample | fixedpoint/fixedpoint.hpp:339-352 | for 2.5 in Fixed<int8, 1> the intended floor is 2.0 and ceil is 3.0, not the 0 the code returns |
| Vec2.Default | vector/vector2.h:40 | the default vector is zero |
| Vec2.Copy | vector/vector2.h:42 | the copy equals the original |
| Vec2.AddSubInverse | vector/vector2.h:43-50 | `-` undoes `+`, `+` is commutative, and zero is its unit |
| Vec2.ScalarInverse | vector/vector2.h:55-70 | scalar `-` undoes scalar `+`, and scalar `/` undoes scalar `*` for a nonzero scalar |
| Vec2.DotBilinear | vector/vector2.h:51-54 | the dot product is symmetric and linear in its first argument |
| Vec3.Default | vector/vector3.h:38 | the default vector is zero |
| Vec3.AddSubInverse | vector/vector3.h:41-48 | `-` undoes `+`, `+` is commutative, and zero is its unit |
| Vec3.ScalarInverse | vector/vector3.h:50-65 | scalar `-` undoes scalar `+`, and scalar `/` undoes scalar `*` for a nonzero scalar |
| Vec3.DotBilinear | vector/vector3.h:122-126 | dot is symmetric and linear in its first argument |
| Vec3.CrossAntisymmetric | vector/vector3.h:128-135 | cross(u, v) == -cross(v, u), and cross(u, u) is zero |
| Vec3.CrossOrthogonal | vector/vector3.h:128-135 | cross(u, v) is orthogonal to both u and v |
| Vec3.LessIsStrictWeakOrder | vector/vector3.h:99-103 | `<` compares z in reverse, and is irreflexive, asymmetric and transitive, with transitive incomparability (a valid std::sort ordering) |
| Vec3.MutableVector3.Zero | vector/vector3.h:38 | the default object is zero |
| Vec3.MutableVector3.constructor | vector/vector3.h:39 | the object holds (a, b, c) |
| Vec3.MutableVector3.AddAssign | vector/vector3.h:67-71 | `+=` stores the sum |
| Vec3.MutableVector3.SubAssign | vector/vector3.h:72-76 | `-=` stores the difference |
| Vec3.MutableVector3.AddScalarAssign | vector/vector3.h:78-82 | scalar `+=` adds s to every component |
| Vec3.MutableVector3.SubScalarAssign | vector/vector3.h:83-87 | scalar `-=` subtracts s from every component |
| Vec3.MutableVector3.ScaleAssign | vector/vector3.h:88-92 | `*=` multiplies every component by s |
| Vec3.MutableVector3.DivScalarAssign | vector/vector3.h:93-97 | `/=` divides every component by a nonzero s |
| Vec4.Default | vector/vector4.h:16 | the default vector has a zero Vector3 part and w == 1 |
| Vec4.Make | vector/vector4.h:17 | the four arguments become x, y, z and w |
| Vec4.Make3 | vector/vector4.h:17 | with w omitted, w == 1 |
| Vec4.FromVector3 | vector/vector4.h:18 | the Vector3 part is the argument and w is d |
| Vec4.FromVector3Default | vector/vector4.h:18 | with d omitted, w == 1 |
| Vec4.SliceRebuild | vector/vector4.h:16-18 | rebuilding a Vector4 from its Vector3 part and w, or from its four components, gives it back |
| Mat4.Matrix4.constructor | vector/matrix4.h:36 | a new matrix owns a fresh array of 16 zeros |
| Mat4.Matrix4.Columns | vector/matrix4.h:37-46 | the four Vector4 arguments fill entries 0-3, 4-7, 8-11 and 12-15 |
| Mat4.Matrix4.Zero | vector/matrix4.h:48-51 | all sixteen entries become 0 |
| Mat4.Matrix4.Identity | vector/matrix4.h:52-56 | entries 0, 5, 10 and 15 become 1, the rest 0 |
| Mat4.Matrix4.Set | vector/matrix4.h:62-65 | writing through `operator[]` changes that entry only |
| Mat4.Matrix4.Multiply | vector/matrix4.h:69-80 | the triple loop leaves entry r + 4c of a fresh matrix equal to the sum over k of m[k + 4c] * mat[r + 4k] |
| Mat4.IdentityIsUnit | vector/matrix4.h:52-56 | the identity is a left and a right unit of `operator*` |
| Mat4.ZeroAnnihilates | vector/matrix4.h:48-51 | the zero matrix gives zero under `operator*` on either side |
| LinAlg.IdentityFixesVectors | vector/linealg.h:9-26 | the identity matrix leaves every Vector3 and every Vector4 unchanged |
| LinAlg.BasisPicksColumns | vector/linealg.h:19-26 | applied to the unit vectors, a matrix built from columns gives back each column |
| LinAlg.MulVector3IsSlicedMulVector4 | vector/linealg.h:9-16 | Matrix4 * Vector3 is the x, y, z of Matrix4 * Vector4 with w = 1; w is not divided out |
| LinAlg.TranslationColumn | vector/linealg.h:9-26 | entries 12-14 translate a Vector3 and do not affect a Vector4 with w = 0 |
| LinAlg.ProductActsInReverse | vector/matrix4.h:69-80 | applying `a * b` to a vector is the same as applying a first and then b |

## Left out

- Floating point is modelled as `real`, so rounding is not captured. This covers:
  - the float constructor of `Fixed` and `GetFloatFixed`/`GetFloatValue`;
  - the float trigonometric wrappers of `fixedpoint.hpp`;
  - `Fraction::DividedValue`.
- Square roots are not modelled: `length`, `unit`, `normalize` and `operator<` of `Vector2` are left out. `Vector2::operator<` compares lengths, so it is left out with them.
- `Print` in `linear_solver.hpp` and `Matrix4::c_ptr` are left out, because they are console I/O and raw pointer access.
- Fractions: ints are unbounded, so overflow of the numerator or denominator in C++ `int` is not modelled.
- The parameter types of `Fixed`'s integer constructors (char/short/int/long) are not modelled. `FromInt` takes any integer; only the shift and the store into `T` are modelled.
- Shifts and products before the final store are computed over exact integers. This includes the intermediate `Type_Max` and `Type_Next_Greater_Than` values. Each store into a type is then explicitly narrowed. `NextGreaterHoldsProduct` and `NextGreaterHoldsShift` show that the intermediates of the allowed types fit.
- Where C++ names `ERROR_NO_VALID_CAST`, `Type_Max` and `Type_Next_Greater_Than` give `None`. Operators on incompatible types are compile errors in C++, so their contracts require `Compatible`.
- `PreIncrement`, `PostIncrement`, `PreDecrement` and `PostDecrement` require int8/int16/int32, because `Fixed(1) + *this` needs `Type_Max<T, T>`.
- `Divide` and `MutableFixed.DivAssign` require a nonzero converted divisor, because C++ division by zero is undefined behaviour.
- The `Fixed` comparison functions `Lt`, `Gt`, `Le`, `Ge` and `Eq` have no row of their own. Their meaning is stated by `ComparisonsComplement` and `ComparisonsSameFormat`.
- `Matrix4.Get` has no row of its own. It is the const `operator[]` and is used in `Set`'s contract.
- `LinearSolver` requires a nonempty square matrix when the lengths agree:
  - the source asserts a nonzero size at line 67;
  - it builds rows of width N+1 from square input.
  - The row-length error at lines 117-118 therefore cannot happen on such input, and it appears only as a dead branch inside `EliminateColumn`.
- `EliminateColumn` and `Matrix4.Accumulate` do not exist as functions in the source. Each is the body of a source loop, made into a method so that its contract can be stated.
- The `int` instantiations (`Vector2<int>`, `Vector3<int>`, `Matrix4<int>`, declared at vector/linealg.h:28, vector/vector3.h:137 and vector/matrix4.h:83) are not modelled separately. Their scalar `/` truncates, and `Vec2.DivScalar`, `Vec3.DivScalar` and `Vec3.MutableVector3.DivScalarAssign` give the exact real quotient instead (for example `Vector2<int>(3, 3) / 2` is (1, 1) in C++ and (1.5, 1.5) here).
- Several functions model source code directly but have no row of their own, because the stated meaning is in the lemma named beside them:
  - `FixedPoint.EvaluateShift` (fixedpoint.hpp:145-161) and `FixedPoint.ConvertRaw` (`_Convert`, 360-364): `FixedPoint.ConvertShifts`;
  - `FixedPoint.CommonLeft` and `FixedPoint.CommonRight` (the conversions to the common format in every operator): `FixedPoint.SameFormatOperands` and `FixedPoint.MixedPositionSum`;
  - `FixedPoint.Narrow` (every store into a type): `FixedPoint.NarrowSpec`;
  - `FixedPoint.GetFixed` and `FixedPoint.GetPoint` (354, 358): `FixedPoint.GetValueFromInt`;
  - `FixedPoint.FloorIntended` and `FixedPoint.CeilIntended`: `FixedPoint.FloorIntendedIsFloor`, `FixedPoint.CeilIntendedIsCeil` and `FixedPoint.FloorCeilCounterexample`;
  - `Fractions.Lcm` (fraction.hpp:60-63): `Fractions.LcmIsLeastCommonMultiple`;
  - `Fractions.IsFraction` (fraction.hpp:79-84): `Fractions.IsFractionIffNotWhole`;
  - `Vec3.Less` (vector3.h:99-103): `Vec3.LessIsStrictWeakOrder`;
  - `Vec3.Cross` (vector3.h:128-135): `Vec3.CrossAntisymmetric` and `Vec3.CrossOrthogonal`;
  - `Vec4.Xyz` (the Vector3 base of vector4.h:13): `Vec4.SliceRebuild`;
  - `LinAlg.MulVector4` and `LinAlg.MulVector3` (linealg.h:9-26): `LinAlg.IdentityFixesVectors`, `LinAlg.BasisPicksColumns`, `LinAlg.MulVector3IsSlicedMulVector4` and `LinAlg.TranslationColumn`;
  - `Mat4.Product` (matrix4.h:69-80): `Mat4.Matrix4.Multiply`, `Mat4.IdentityIsUnit`, `Mat4.ZeroAnnihilates` and `LinAlg.ProductActsInReverse`.
- Vector scalar division requires a nonzero scalar, because IEEE division by zero has no `real` counterpart.
- The element-wise `Vector2` and `Vector3` operators have no contracts of their own; `AddSubInverse`, `ScalarInverse` and `DotBilinear` state their algebra.
- The matrix–vector operators of `linealg.h` take the matrix as its 16 entries. The functions read no object.
- Positive definiteness of the dot products is not stated.

## Findings

| source | as written | input that shows it | evidently intended | confidence | as-written member | corrected member |
|---|---|---|---|---|---|---|
| fixedpoint/fixedpoint.hpp:339-352 | `floor()` and `ceil()` start from a default-constructed temporary (raw 0) and never read `*this`, so both always return 0 | `Fixed<int8_t, 1>` with raw value 5 (2.5): floor and ceil both give 0 | floor clears the fraction bits of `_val`, giving 2.0; ceil first adds 2^pos - 1 and then clears, giving 3.0 | not executed | FixedPoint.FloorAsWritten, FixedPoint.CeilAsWritten, FixedPoint.FloorCeilCounterexample | FixedPoint.FloorIntendedIsFloor, FixedPoint.CeilIntendedIsCeil |
