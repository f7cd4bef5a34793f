/**
  `unit_matrix_t<T, rows, columns>`: a read-only identity matrix that stores
  nothing and computes each value when it is read.
*/
module UnitMatrix {
  import opened Wrappers
  import opened MatrixSize
  import opened Traits

  /** The identity view of a given shape; the shape is all it carries. */
  datatype UnitMatrix = UnitMatrix(shape: Shape) {

    /**
      `operator() const`: 1 on the diagonal, 0 elsewhere. The source performs
      no bounds check and the value depends on nothing else, so every index
      pair yields a value.
    */
    function Get(row: nat, column: nat): (v: int)
      ensures v == 1 <==> row == column
      ensures v == 0 <==> row != column
    {
      if row == column then 1 else 0
    }
  }

  /**
    The type `unit_matrix_t<elem, s.rows, s.columns>`: it declares `value_type`
    and `matrix_size`, and its only call operator is `const&`-qualified and
    returns by value, so a call through a `T&` also selects it.
  */
  function Descriptor(elem: ValueType, s: Shape): TypeDesc
  {
    TypeDesc("unit_matrix_t", Some(elem), Some(s), ByValue(elem.name), ByValue(elem.name), false, false)
  }

  /**
    The identity view is never a read-write matrix nor a scalar; it is a read
    matrix exactly when its element type passes the by-value probe, so
    `unit_matrix_t<float, 3>` is one and `unit_matrix_t<void, 3>` is not.
  */
  lemma IsReadOnlyMatrix(elem: ValueType, s: Shape)
    ensures Descriptor(elem, s).WellFormed()
    ensures IsRMatrix(Descriptor(elem, s)) <==> elem.kind == Passable
    ensures !IsRwMatrix(Descriptor(elem, s))
    ensures !IsScalar(Descriptor(elem, s))
  {
  }
}
