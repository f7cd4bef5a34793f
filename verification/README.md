# ExMath fixed-size matrices, modelled in Dafny

ExMath is a small header-only C++ library of fixed-size matrices
(`ExMath/inc/ExMath_traits.hpp`). It has four parts, and each is a module here:

- **Shape and indexing** (`matrix_size_t`), module `MatrixSize` in `matrix_size.dfy`.
  A shape is a (rows, columns) pair with `elements = rows * columns` and
  `calc_idx(row, column) = row * columns + column`. The module proves that
  `calc_idx` maps the in-bounds positions one-to-one onto `[0, elements)`.
  It also proves that `calc_idx` is the row-major layout: cutting the flat
  storage into rows (`Rows`) and writing them out again (`Flatten`) are
  inverse to each other, and cell (r, c) of the rows is storage slot `calc_idx(r, c)`.
- **Capability classification** (`matrix_traits`, `is_*_v`, `type_promotion_traits`),
  modules `Traits` (`traits.dfy`) and `Promotion` (`promotion.dfy`).
  The source detects facts about a type by substitution failure. A type is modelled as a
  `TypeDesc` holding exactly those facts:
  - its `value_type`, if it declares one, and whether that type is `void`,
    an object type that cannot be passed by value (such as `std::atomic<int>`),
    or one that can;
  - its `matrix_size`, if it declares one;
  - the type of `u(i, j)` called through a `T const&`;
  - the type of `u(i, j)` called through a `T&`;
  - whether it is integral or floating point.

  `has_value_type`, `has_getter` and `has_setter` are computed from these facts,
  as the source's detectors compute them. `has_value_type` passes `value_type`
  by value, so it is false for `void` and for types that cannot be moved, while
  a getter and a setter only need a non-`void` `value_type`. The four
  `promotion_check` overloads become four enable conditions. They are proved
  pairwise exclusive, and an overload is enabled exactly when each operand either
  has a detected `value_type` or is arithmetic. An enabled overload is viable
  only if the sum in its return type can be formed; the model leaves that to
  the parameter `plus`, which returns no type where the sum is ill-formed.
- **Identity view** (`unit_matrix_t`), module `UnitMatrix` in `unit_matrix.dfy`:
  a datatype that carries only its shape and computes 1 on the diagonal and 0 elsewhere.
- **Owning container** (`matrix_t`) and `Internal::assign`, module `DenseMatrix` in `matrix.dfy`.
  It is a class over an `array<int>` that stands for `m_elements`. It has:
  - the three constructors;
  - the const accessor `Get`;
  - `Set`, for writes through the reference the mutable accessor returns;
  - `Assign`, the nested copy loop, proved against the rows view `Grid()`.

Three behaviours are modelled as the code has them, although a stricter design would reject them:

- The converting constructor accepts any read matrix. The code never compares the
  source's shape with the destination's, and the copy runs over the destination's shape.
  The model therefore only requires every read it makes to be defined. For example,
  a 3x3 `matrix_t` built from a 2x2 identity view reads as the 3x3 identity.
- The list constructor accepts up to `elements` arguments, not exactly that many.
  Aggregate initialisation zero-fills the rest, and only more arguments fail to compile.
- Out-of-bounds access is not checked by the code. It is a `requires`, not a reported error.

## Model

| member | source | states |
|---|---|---|
| `MatrixSize.Shape.CalcIdx` | ExMath/inc/ExMath_traits.hpp:16-18 | an in-bounds (row, column) has a flat index below `elements` |
| `MatrixSize.Shape.CalcIdxInjective` | ExMath/inc/ExMath_traits.hpp:18 | two in-bounds positions with the same flat index are the same position |
| `MatrixSize.Shape.CalcIdxRecovers` | ExMath/inc/ExMath_traits.hpp:18 | the row is the flat index divided by `columns`, the column is the remainder |
| `MatrixSize.Shape.CalcIdxOnto` | ExMath/inc/ExMath_traits.hpp:16-18 | every index below `elements` (`rows * columns`) is `calc_idx` of an in-bounds position, so the map is a bijection onto `[0, elements)`; in particular `elements` is non-zero only when both `rows` and `columns` are |
| `MatrixSize.Rows` | ExMath/inc/ExMath_traits.hpp:183-189 | storage of `rows * columns` values cuts into `rows` rows of `columns` values |
| `MatrixSize.RowsAt` | ExMath/inc/ExMath_traits.hpp:181-186 | cell (row, column) of the rows is storage slot `calc_idx(row, column)`: `calc_idx` is row-major order |
| `MatrixSize.FlattenRows` | ExMath/inc/ExMath_traits.hpp:18 | cutting storage into rows and concatenating them gives the storage back |
| `MatrixSize.RowsFlatten` | ExMath/inc/ExMath_traits.hpp:18 | concatenating a rows x columns grid gives `elements` values that cut back into the same grid |
| `MatrixSize.RowsUpdate` | ExMath/inc/ExMath_traits.hpp:186 | writing storage slot `calc_idx(row, column)` changes exactly cell (row, column) of the grid |
| `Traits.ArithmeticType` | ExMath/inc/ExMath_traits.hpp:88 | a built-in arithmetic type is a scalar, declares no `value_type` and is not a read matrix |
| `Traits.IsRMatrix` | ExMath/inc/ExMath_traits.hpp:78-85 | `is_r_matrix_v` holds exactly when the type has a passable `value_type`, a `matrix_size` and a getter; a well-formed read matrix is never a scalar |
| `Traits.IsRwMatrix` | ExMath/inc/ExMath_traits.hpp:79-86 | every `is_rw_matrix_v` type is a read matrix whose call through `T&` yields `value_type&` |
| `Traits.IsScalar` | ExMath/inc/ExMath_traits.hpp:88 | `is_scalar_v` holds exactly for integral and floating-point types, which have no `value_type`, `matrix_size`, getter or setter |
| `Traits.IsMatrixScalar` | ExMath/inc/ExMath_traits.hpp:81-87 | `is_matrix_scalar_v` is false for every type |
| `Traits.IsSameSizeMatrixAsWritten` | ExMath/inc/ExMath_traits.hpp:37-90 | the trait as written cannot be instantiated exactly when an operand lacks `matrix_size`, the fact `has_matrix_size` (`Traits.HasMatrixSize`) detects; otherwise it agrees with `IsSameSizeMatrix` |
| `Traits.SameSizeAsWrittenRejectsScalar` | ExMath/inc/ExMath_traits.hpp:90 | for `int` beside a matrix type the trait as written is ill-formed where the intended answer is false |
| `Traits.AccessorsNeedValueType` | ExMath/inc/ExMath_traits.hpp:26-78 | about `Traits.HasValueType`, `Traits.HasGetter` and `Traits.HasSetter`: a detected getter or setter implies a declared non-`void` `value_type`, which need not pass the by-value probe; `has_value_type` implies a declared passable `value_type`, and a declared `void` or non-movable one is neither detected nor a read matrix; `is_r_matrix` is exactly `has_value_type && has_matrix_size && has_getter` |
| `Traits.RwMatrixIsRMatrix` | ExMath/inc/ExMath_traits.hpp:78-79 | every read-write matrix is a read matrix |
| `Traits.ScalarIsNotMatrix` | ExMath/inc/ExMath_traits.hpp:78-88 | an arithmetic type is no matrix of either kind, and no read matrix is a scalar |
| `Traits.SameSizeSymmetric` | ExMath/inc/ExMath_traits.hpp:90 | `Traits.IsSameSizeMatrix`, the intended `is_same_size_matrix_v`, is symmetric and holds iff both are read matrices with equal rows and columns |
| `Promotion.Enabled` | ExMath/inc/ExMath_traits.hpp:95-124 | an enabled overload has each operand with a detected `value_type` or arithmetic, and any overload other than the first has an arithmetic operand |
| `Promotion.Contributed` | ExMath/inc/ExMath_traits.hpp:97-124 | an operand contributes its detected `value_type` to the sum, and an arithmetic operand contributes itself |
| `Promotion.EnabledExclusive` | ExMath/inc/ExMath_traits.hpp:95-128 | no two `promotion_check` enable conditions hold at once |
| `Promotion.SelectBranch` | ExMath/inc/ExMath_traits.hpp:95-131 | the selected overload is enabled; none is selected only when none is enabled; one is enabled iff each operand has a detected `value_type` or is arithmetic |
| `Promotion.NoBranchForNonNumeric` | ExMath/inc/ExMath_traits.hpp:104-123 | an operand with neither `value_type` nor an arithmetic type leaves no overload |
| `Promotion.PromotedType` | ExMath/inc/ExMath_traits.hpp:96-134 | `type_promotion_t` exists only when an overload is selected, and is the sum type of the element or scalar types that overload adds |
| `UnitMatrix.UnitMatrix.Get` | ExMath/inc/ExMath_traits.hpp:157-162 | the identity view reads 1 exactly on the diagonal and 0 exactly off it |
| `UnitMatrix.IsReadOnlyMatrix` | ExMath/inc/ExMath_traits.hpp:151-163 | for the type `unit_matrix_t<elem, rows, columns>` (`UnitMatrix.Descriptor`, which yields the element type by value through both call forms), as checked at examples/exa_1/exa_demo.cpp:25-26: the identity view is never a read-write matrix nor a scalar, and is a read matrix exactly when its element type passes by value (so not for `void`) |
| `DenseMatrix.Matrix.constructor` | ExMath/inc/ExMath_traits.hpp:171-189 | a default-constructed matrix reads 0 at every in-bounds position |
| `DenseMatrix.Matrix.FromList` | ExMath/inc/ExMath_traits.hpp:175-179 | the arguments fill the storage in row-major order, the rest is zero: (r, c) reads `args[calc_idx(r, c)]` or 0 |
| `DenseMatrix.Matrix.FromReadMatrix` | ExMath/inc/ExMath_traits.hpp:173 | a matrix converted from a read matrix reads what the source reads at every in-bounds position |
| `DenseMatrix.Matrix.Get` | ExMath/inc/ExMath_traits.hpp:181-184 | the const accessor reads cell (row, column) of the row-major grid |
| `DenseMatrix.Matrix.Set` | ExMath/inc/ExMath_traits.hpp:186 | a write through the mutable accessor changes only storage slot `calc_idx(row, column)`; reading it back gives the written value |
| `DenseMatrix.Assign` | ExMath/inc/ExMath_traits.hpp:139-148 | after the nested copy every in-bounds `lhs(r, c)` equals `rhs(r, c)` |
| `DenseMatrix.IsReadWriteMatrix` | ExMath/inc/ExMath_traits.hpp:165-190 | for the type `matrix_t<elem, rows, columns>` (`DenseMatrix.Descriptor`, yielding `value_type const&` and `value_type&`), as checked at examples/exa_1/exa_demo.cpp:28-31: a matrix type is never a scalar, 1x1 included; it is a read and a read-write matrix exactly when its element type passes by value, and a non-`void` element type always gives a getter and a setter |
| `DenseMatrix.SameSizeAsUnit` | examples/exa_1/exa_demo.cpp:33 | a matrix and an identity view are the same size iff both element types pass by value and their shapes are equal |
| `DenseMatrix.PromotionWithMatrix` | examples/exa_1/exa_demo.cpp:36 | two matrices enable an overload iff their element type passes by value; then the element-element one is selected and adds the element types, and a matrix with a scalar on either side adds element and scalar types; otherwise no promotion with a scalar exists |
| `DenseMatrix.IdentityCopy` | examples/exa_1/exa_demo.cpp:50 | a matrix converted from an identity view reads 1 on the diagonal and 0 elsewhere |

## Left out

- `operator+` (ExMath/inc/ExMath_traits.hpp:194-197): it is only declared and has no body, so element-wise addition is not modelled.
- The concrete type `type_promotion_t` names, such as float plus double giving double. C++'s arithmetic conversions decide it, so it is the parameter `plus` of `Promotion.PromotedType`.
- The detection machinery itself (`declval`, `enable_if`, overload resolution) is not modelled. Its observable outcome is recorded in `TypeDesc`. Qualifiers removed by `std::remove_cv_t` are not represented.
- Element values are `int`. Floating-point elements, and the conversions a converting constructor or the list constructor applies to its arguments, are not modelled.
- `index_t` is 32 bits wide and `rows * columns` can wrap in the source; shapes here are unbounded `nat`s.
- Out-of-range indices are excluded by `requires`. The source neither checks nor reports them.
- A zero-row or zero-column `matrix_t` declares a zero-length array, which standard C++ rejects. The model allows it.
- `matrix_t<void, rows, columns>` declares an array of `void` (ExMath/inc/ExMath_traits.hpp:189) and cannot be instantiated. `DenseMatrix.IsReadWriteMatrix`, `DenseMatrix.SameSizeAsUnit` and `DenseMatrix.PromotionWithMatrix` still answer for a `void` element type ("not a matrix", "no overload"), where the source does not compile. `unit_matrix_t<void, …>` is a valid type and is modelled as it is.
- `DenseMatrix.Matrix.Set`: the mutable accessor returns a reference that a caller may keep and write through later. The model only covers an immediate write; a reference kept across other calls is not modelled.
- `DenseMatrix.Assign`: the read matrix is a pure function of (row, column). A source whose storage is the destination's own is not modelled. The source calls `assign` only from a constructor, on a new object.
- The implicitly declared move assignment of `matrix_t` is not modelled. `m = u3` (examples/exa_1/exa_demo.cpp:56) builds a temporary `matrix_t` from `u3` with the converting constructor, which `DenseMatrix.Matrix.FromReadMatrix` models, and then move-assigns that temporary to `m`. The initialisation at examples/exa_1/exa_demo.cpp:50 uses the converting constructor alone.
- Which constructor overload is chosen when several could take the same arguments is not modelled.
- The demo program (examples/exa_1/exa_demo.cpp): `print_matrix` writes to `std::cout`, and the `-`, `*`, `+=` and scalar operators are commented out.

## Findings

| source | as written | input that shows it | evidently intended | confidence | as-written member | corrected member |
|---|---|---|---|---|---|---|
| ExMath/inc/ExMath_traits.hpp:90 | `is_same_size_matrix_v` names `T1::matrix_size::rows` and `T2::matrix_size::rows` unconditionally. `&&` short-circuits evaluation, not instantiation, so the variable template is ill-formed for any type without `matrix_size`. Inside the return type of `operator+` this is a hard error, not a substitution failure. | `T1 = int`, `T2 = matrix_t<float, 3, 3>`; likewise any `a + b` on two class-type operands without `matrix_size` where this global `operator+` is visible | false for such pairs, so that `operator+` drops out of overload resolution | medium, not executed | `Traits.IsSameSizeMatrixAsWritten`, `Traits.SameSizeAsWrittenRejectsScalar` | `Traits.IsSameSizeMatrix`, `Traits.SameSizeSymmetric` |
