/**
  Capability classification of types (`Internal::matrix_traits<T>` and the
  `is_*_v` variable templates).

  The source detects facts about a type `T` by substitution failure:
  whether `T::value_type` names a type and can be passed by value, whether
  `T::matrix_size::rows` and `T::matrix_size::columns` exist, what calling
  `u(i, j)` on a `T const&` yields, and what calling it on a `T&` yields. A
  `TypeDesc` records those facts, so every classification is an ordinary
  predicate over it.
*/
module Traits {
  import opened Wrappers
  import opened MatrixSize

  /** The spelling of a C++ type, such as "float". */
  type TypeId = string

  /**
    How a declared `value_type` behaves where the detectors use it: as a
    by-value parameter initialised from `std::declval<value_type>()`
    (`has_value_type`), and in `value_type const&` and `value_type&`
    (`has_getter`, `has_setter`).
  */
  datatype ValueKind =
    | Passable       // an object type that can be moved into a parameter, such as `float`
    | NotPassable    // an object type that cannot be moved, such as `std::atomic<int>`
    | Void           // `void`: neither a parameter nor a reference can have this type

  /** A declared `value_type`: its spelling and how it behaves. */
  datatype ValueType = ValueType(name: TypeId, kind: ValueKind)

  /** What the expression `u(i, j)` has as its type, for `i`, `j` of type `index_t const&`. */
  datatype CallResult =
    | NotCallable                // the call does not compile
    | ByValue(t: TypeId)         // a prvalue of type `t`
    | ByConstRef(t: TypeId)      // `t const&`
    | ByMutRef(t: TypeId)        // `t&`

  /** What the detection idioms can observe of one type. */
  datatype TypeDesc = TypeDesc(
    name: TypeId,
    valueType: Option<ValueType>,  // `T::value_type`, when declared
    matrixSize: Option<Shape>,     // `T::matrix_size::rows` and `::columns`, when declared
    constCall: CallResult,         // `std::declval<T const&>()(i, j)`
    mutCall: CallResult,           // `std::declval<T&>()(i, j)`
    isIntegral: bool,              // `std::is_integral_v<T>`
    isFloatingPoint: bool)         // `std::is_floating_point_v<T>`
  {
    /**
      A fundamental arithmetic type has no members and cannot be called,
      and no type is both integral and floating point.
    */
    ghost predicate WellFormed() {
      && !(isIntegral && isFloatingPoint)
      && ((isIntegral || isFloatingPoint) ==>
            valueType.None? && matrixSize.None? && constCall == NotCallable && mutCall == NotCallable)
    }
  }

  /** A built-in arithmetic type such as "int" or "float". */
  function ArithmeticType(name: TypeId, floating: bool): (t: TypeDesc)
    ensures t.WellFormed()
    ensures IsScalar(t) && !HasValueType(t) && !IsRMatrix(t)
  {
    TypeDesc(name, None, None, NotCallable, NotCallable, !floating, floating)
  }

  /**
    `has_value_type`: `T::value_type` is declared and the by-value probe
    `has_value_type_check<U>(std::declval<typename U::value_type>())`
    compiles, which rules out `void` and types that cannot be moved.
  */
  predicate HasValueType(t: TypeDesc)
  {
    match t.valueType
    case None => false
    case Some(v) => v.kind.Passable?
  }

  /** `has_matrix_size`: both `T::matrix_size::rows` and `T::matrix_size::columns` exist. */
  predicate HasMatrixSize(t: TypeDesc)
  {
    match t.matrixSize
    case None => false
    case Some(_) => true
  }

  /**
    `has_getter`: reading `u(i, j)` through a `T const&` yields `T::value_type`
    or `T::value_type const&`. Without a `value_type`, or with `void` as one,
    the `is_same` test cannot be formed and the detector answers false.
  */
  predicate HasGetter(t: TypeDesc)
  {
    match t.valueType
    case None => false
    case Some(v) =>
      !v.kind.Void? &&
      match t.constCall
      case ByValue(r) => r == v.name
      case ByConstRef(r) => r == v.name
      case _ => false
  }

  /** `has_setter`: `u(i, j)` through a `T&` yields `T::value_type&`. */
  predicate HasSetter(t: TypeDesc)
  {
    match t.valueType
    case None => false
    case Some(v) =>
      !v.kind.Void? &&
      match t.mutCall
      case ByMutRef(r) => r == v.name
      case _ => false
  }

  /** `is_r_matrix_v`: `has_value_type && has_matrix_size && has_getter`. */
  function IsRMatrix(t: TypeDesc): (b: bool)
    ensures b <==> t.valueType.Some? && t.valueType.value.kind == Passable && HasMatrixSize(t) && HasGetter(t)
    ensures b && t.WellFormed() ==> !IsScalar(t)
  {
    HasValueType(t) && HasMatrixSize(t) && HasGetter(t)
  }

  /** `is_rw_matrix_v`: `is_r_matrix && has_setter`. */
  function IsRwMatrix(t: TypeDesc): (b: bool)
    ensures b ==> IsRMatrix(t)
    ensures b ==> t.mutCall == ByMutRef(t.valueType.value.name)
  {
    IsRMatrix(t) && HasSetter(t)
  }

  /** `is_matrix_scalar_v`: the 1x1 test is commented out, leaving `is_r_matrix && false`. */
  function IsMatrixScalar(t: TypeDesc): (b: bool)
    ensures !b
  {
    IsRMatrix(t) && false
  }

  /** `is_scalar_v`: an integral or a floating-point type, which declares nothing a matrix needs. */
  function IsScalar(t: TypeDesc): (b: bool)
    ensures b <==> t.isIntegral || t.isFloatingPoint
    ensures b && t.WellFormed() ==> !HasValueType(t) && !HasMatrixSize(t) && !HasGetter(t) && !HasSetter(t)
  {
    t.isIntegral || t.isFloatingPoint
  }

  /** The shape of a type that declares one. */
  function SizeOf(t: TypeDesc): Shape
    requires HasMatrixSize(t)
  {
    t.matrixSize.value
  }

  /**
    `is_same_size_matrix_v` as the authors meant it: both types are read
    matrices and their shapes agree in rows and in columns; false otherwise.
  */
  predicate IsSameSizeMatrix(t1: TypeDesc, t2: TypeDesc)
  {
    && IsRMatrix(t1) && IsRMatrix(t2)
    && SizeOf(t1).rows == SizeOf(t2).rows
    && SizeOf(t1).columns == SizeOf(t2).columns
  }

  /**
    `is_same_size_matrix_v` as written: its initialiser names
    `T1::matrix_size::rows` and `T2::matrix_size::rows` unconditionally, and
    short-circuiting `&&` does not stop a template from being instantiated.
    For a type without `matrix_size` the instantiation is ill-formed (`None`)
    instead of `false`, and since the error lies outside the immediate
    context of `operator+`'s return type it is a hard error, not a
    substitution failure.
  */
  function IsSameSizeMatrixAsWritten(t1: TypeDesc, t2: TypeDesc): (r: Option<bool>)
    ensures r.None? <==> !HasMatrixSize(t1) || !HasMatrixSize(t2)
    ensures r.Some? ==> r.value == IsSameSizeMatrix(t1, t2)
  {
    if !HasMatrixSize(t1) || !HasMatrixSize(t2) then None
    else Some(IsRMatrix(t1) && IsRMatrix(t2)
              && SizeOf(t1).rows == SizeOf(t2).rows
              && SizeOf(t1).columns == SizeOf(t2).columns)
  }

  /** A scalar next to a matrix makes the as-written trait ill-formed where the intended one is false. */
  lemma SameSizeAsWrittenRejectsScalar(s: Shape)
    ensures var scalar := ArithmeticType("int", false);
            var matrix := TypeDesc("matrix", Some(ValueType("float", Passable)), Some(s),
                                   ByConstRef("float"), ByMutRef("float"), false, false);
            IsSameSizeMatrixAsWritten(scalar, matrix) == None && !IsSameSizeMatrix(scalar, matrix)
  {
  }

  /**
    A getter or a setter is only detected on a type that declares a
    non-`void` `value_type`, but that `value_type` need not pass the by-value
    probe, so `is_r_matrix` needs `has_value_type` in addition to `has_getter`.
    The probe itself rejects `void` and every type that cannot be moved.
  */
  lemma AccessorsNeedValueType(t: TypeDesc)
    ensures HasGetter(t) ==> t.valueType.Some? && t.valueType.value.kind != Void
    ensures HasSetter(t) ==> t.valueType.Some? && t.valueType.value.kind != Void
    ensures HasValueType(t) ==> t.valueType.Some? && t.valueType.value.kind == Passable
    ensures t.valueType.Some? && t.valueType.value.kind != Passable ==> !HasValueType(t) && !IsRMatrix(t)
    ensures IsRMatrix(t) <==> HasValueType(t) && HasMatrixSize(t) && HasGetter(t)
  {
  }

  /** Every read-write matrix is a read matrix. */
  lemma RwMatrixIsRMatrix(t: TypeDesc)
    ensures IsRwMatrix(t) ==> IsRMatrix(t)
  {
  }

  /** A well-formed scalar type is never a matrix of either kind, nor a matrix a scalar. */
  lemma ScalarIsNotMatrix(t: TypeDesc)
    requires t.WellFormed()
    ensures IsScalar(t) ==> !IsRMatrix(t) && !IsRwMatrix(t) && !HasValueType(t)
    ensures IsRMatrix(t) ==> !IsScalar(t)
  {
  }

  /** Same size is symmetric, and it holds exactly for two read matrices of equal shape. */
  lemma SameSizeSymmetric(t1: TypeDesc, t2: TypeDesc)
    ensures IsSameSizeMatrix(t1, t2) <==> IsSameSizeMatrix(t2, t1)
    ensures IsSameSizeMatrix(t1, t2) <==> IsRMatrix(t1) && IsRMatrix(t2) && SizeOf(t1) == SizeOf(t2)
  {
  }
}
