/**
  `matrix_t<T, rows, columns>`, the owning matrix, and `Internal::assign`,
  the element-by-element copy its converting constructor performs.

  A read matrix handed to the converting constructor is represented by its
  read accessor `rhs(row, column)`; the shape that drives the copy is the
  destination's own.
*/
module DenseMatrix {
  import opened Wrappers
  import opened MatrixSize
  import opened Traits
  import opened Promotion
  import UnitMatrix

  /** A matrix that owns `shape.Elements()` values, stored row by row in `elements`. */
  class Matrix {
    const shape: Shape
    /** `m_elements`: the flat storage, in row-major order. */
    const elements: array<int>

    ghost predicate Valid() {
      elements.Length == shape.Elements()
    }

    /** The matrix as its rows: what every accessor reads and writes. */
    ghost function Grid(): (grid: seq<seq<int>>)
      requires Valid()
      reads elements
      ensures HasShape(grid, shape)
    {
      Rows(shape, elements[..])
    }

    /** `matrix_t()`: every value is zero (`m_elements[...] = {}`). */
    constructor (s: Shape)
      ensures Valid() && shape == s && fresh(elements)
      ensures elements[..] == seq(s.Elements(), _ => 0)
      ensures forall r: nat, c: nat | s.Contains(r, c) :: Get(r, c) == 0
    {
      shape := s;
      elements := new int[s.Elements()](_ => 0);
      new;
      forall r: nat, c: nat | s.Contains(r, c) ensures Get(r, c) == 0 {
        RowsAt(s, elements[..], r, c);
      }
    }

    /**
      `matrix_t(Us... args)`: `args` fill the storage from the front in
      row-major order and the rest stays zero. More arguments than elements
      do not compile.
    */
    constructor FromList(s: Shape, args: seq<int>)
      requires |args| <= s.Elements()
      ensures Valid() && shape == s && fresh(elements)
      ensures elements[..] == args + seq(s.Elements() - |args|, _ => 0)
      ensures forall r: nat, c: nat | s.Contains(r, c) ::
                Get(r, c) == if s.CalcIdx(r, c) < |args| then args[s.CalcIdx(r, c)] else 0
    {
      shape := s;
      elements := new int[s.Elements()](i => if 0 <= i < |args| then args[i] else 0);
      new;
      assert elements[..] == args + seq(s.Elements() - |args|, _ => 0);
      forall r: nat, c: nat | s.Contains(r, c)
        ensures Get(r, c) == if s.CalcIdx(r, c) < |args| then args[s.CalcIdx(r, c)] else 0
      {
        RowsAt(s, elements[..], r, c);
      }
    }

    /**
      `matrix_t(U const& val)` for a read matrix `val`: zero-initialise, then
      `Internal::assign(*this, val)`. The source does not compare the shape of
      `val` with `s`; every read it makes must be defined.
    */
    constructor FromReadMatrix(s: Shape, rhs: (nat, nat) --> int)
      requires forall r: nat, c: nat | s.Contains(r, c) :: rhs.requires(r, c)
      ensures Valid() && shape == s && fresh(elements)
      ensures forall r: nat, c: nat | s.Contains(r, c) :: Get(r, c) == rhs(r, c)
    {
      shape := s;
      elements := new int[s.Elements()](_ => 0);
      new;
      Assign(this, rhs);
    }

    /** `operator() const&`: the value at (row, column); the source does not check the bounds. */
    function Get(row: nat, column: nat): (v: int)
      requires Valid() && shape.Contains(row, column)
      reads elements
      ensures v == Grid()[row][column]
    {
      RowsAt(shape, elements[..], row, column);
      elements[shape.CalcIdx(row, column)]
    }

    /**
      A write through the reference `operator() &` returns: exactly the value
      at (row, column) changes.
    */
    method Set(row: nat, column: nat, v: int)
      requires Valid() && shape.Contains(row, column)
      modifies elements
      ensures elements[..] == old(elements[..])[shape.CalcIdx(row, column) := v]
      ensures Grid() == old(Grid())[row := old(Grid())[row][column := v]]
      ensures Get(row, column) == v
    {
      elements[shape.CalcIdx(row, column)] := v;
      RowsUpdate(shape, old(elements[..]), row, column, v);
    }
  }

  /**
    `Internal::assign(lhs, rhs)`: copy `rhs(r, c)` into `lhs(r, c)` row by row,
    column by column, over the shape of `lhs`.
  */
  method Assign(lhs: Matrix, rhs: (nat, nat) --> int)
    requires lhs.Valid()
    requires forall r: nat, c: nat | lhs.shape.Contains(r, c) :: rhs.requires(r, c)
    modifies lhs.elements
    ensures forall r: nat, c: nat | lhs.shape.Contains(r, c) :: lhs.Get(r, c) == rhs(r, c)
  {
    var rows, columns := lhs.shape.rows, lhs.shape.columns;
    var r: nat := 0;
    while r < rows
      invariant r <= rows
      invariant forall r': nat, c': nat | r' < r && c' < columns :: lhs.Grid()[r'][c'] == rhs(r', c')
    {
      var c: nat := 0;
      while c < columns
        invariant c <= columns
        invariant forall r': nat, c': nat | r' < r && c' < columns :: lhs.Grid()[r'][c'] == rhs(r', c')
        invariant forall c': nat | c' < c :: lhs.Grid()[r][c'] == rhs(r, c')
      {
        lhs.Set(r, c, rhs(r, c));
        c := c + 1;
      }
      r := r + 1;
    }
  }

  /**
    The type `matrix_t<elem, s.rows, s.columns>`: a `const&` call operator
    returning `value_type const&` and an `&` one returning `value_type&`.
  */
  function Descriptor(elem: ValueType, s: Shape): TypeDesc
  {
    TypeDesc("matrix_t", Some(elem), Some(s), ByConstRef(elem.name), ByMutRef(elem.name), false, false)
  }

  /**
    A matrix type is never a scalar, even at 1x1. It is a read and a
    read-write matrix exactly when its element type passes the by-value
    probe: `matrix_t<float, 3, 3>` is both, while `matrix_t<std::atomic<int>, 2, 2>`
    has a getter and a setter but no detected `value_type`, so it is neither.
  */
  lemma IsReadWriteMatrix(elem: ValueType, s: Shape)
    ensures Descriptor(elem, s).WellFormed()
    ensures IsRMatrix(Descriptor(elem, s)) <==> elem.kind == Passable
    ensures IsRwMatrix(Descriptor(elem, s)) <==> elem.kind == Passable
    ensures elem.kind != Void ==> HasGetter(Descriptor(elem, s)) && HasSetter(Descriptor(elem, s))
    ensures !IsScalar(Descriptor(elem, s))
  {
  }

  /**
    A matrix and an identity view are the same size exactly when both
    element types pass the by-value probe and the shapes are equal.
  */
  lemma SameSizeAsUnit(elem1: ValueType, s1: Shape, elem2: ValueType, s2: Shape)
    ensures IsSameSizeMatrix(Descriptor(elem1, s1), UnitMatrix.Descriptor(elem2, s2))
        <==> elem1.kind == Passable && elem2.kind == Passable && s1 == s2
  {
  }

  /**
    Promoting two matrices adds their element types, and promoting a matrix
    with an arithmetic scalar, on either side, adds the element type and the
    scalar type. A matrix whose element type fails the by-value probe enables
    no overload, with itself or with a scalar.
  */
  lemma PromotionWithMatrix(elem: ValueType, s: Shape, scalar: TypeId, floating: bool,
                            plus: (TypeId, TypeId) -> Option<TypeId>)
    ensures SelectBranch(Descriptor(elem, s), Descriptor(elem, s)).Some? <==> elem.kind == Passable
    ensures elem.kind == Passable ==>
      && SelectBranch(Descriptor(elem, s), Descriptor(elem, s)) == Some(BothElements)
      && PromotedType(Descriptor(elem, s), Descriptor(elem, s), plus) == plus(elem.name, elem.name)
      && PromotedType(Descriptor(elem, s), ArithmeticType(scalar, floating), plus) == plus(elem.name, scalar)
      && PromotedType(ArithmeticType(scalar, floating), Descriptor(elem, s), plus) == plus(scalar, elem.name)
    ensures elem.kind != Passable ==>
      && PromotedType(Descriptor(elem, s), ArithmeticType(scalar, floating), plus) == None
      && PromotedType(ArithmeticType(scalar, floating), Descriptor(elem, s), plus) == None
  {
  }

  /** A matrix converted from an identity view reads as the identity. */
  method IdentityCopy(s: Shape) returns (m: Matrix)
    ensures m.Valid() && m.shape == s && fresh(m.elements)
    ensures forall r: nat, c: nat | s.Contains(r, c) :: m.Get(r, c) == if r == c then 1 else 0
  {
    var unit := UnitMatrix.UnitMatrix(s);
    m := new Matrix.FromReadMatrix(s, (r: nat, c: nat) => unit.Get(r, c));
  }
}
