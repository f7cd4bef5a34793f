/**
  The shape of a fixed-size matrix (`matrix_size_t<rows, columns>`) and the
  row-major layout that maps a (row, column) position onto the flat element
  storage of a matrix.
*/
module MatrixSize {

  /** A (rows, columns) pair, fixed for a matrix type. */
  datatype Shape = Shape(rows: nat, columns: nat) {

    /** `elements`: how many values a matrix of this shape stores. */
    function Elements(): nat {
      rows * columns
    }

    /** The position (row, column) lies inside the matrix. */
    predicate Contains(row: nat, column: nat) {
      row < rows && column < columns
    }

    /** `calc_idx`: the flat index of (row, column) in row-major order. */
    function CalcIdx(row: nat, column: nat): (idx: nat)
      ensures Contains(row, column) ==> idx < Elements()
    {
      if Contains(row, column) then
        MulLeftMonotone(row + 1, rows, columns);
        row * columns + column
      else
        row * columns + column
    }

    /** Distinct positions inside the matrix have distinct flat indices. */
    lemma CalcIdxInjective(r1: nat, c1: nat, r2: nat, c2: nat)
      requires Contains(r1, c1) && Contains(r2, c2)
      requires CalcIdx(r1, c1) == CalcIdx(r2, c2)
      ensures r1 == r2 && c1 == c2
    {
      CalcIdxRecovers(r1, c1);
      CalcIdxRecovers(r2, c2);
    }

    /** The row and the column can be read back from the flat index. */
    lemma CalcIdxRecovers(row: nat, column: nat)
      requires Contains(row, column)
      ensures CalcIdx(row, column) / columns == row
      ensures CalcIdx(row, column) % columns == column
    {
      DivModUnique(CalcIdx(row, column), columns, row, column);
    }

    /** Every flat index below `Elements()` is the index of exactly the position it decodes to. */
    lemma CalcIdxOnto(idx: nat)
      requires idx < Elements()
      ensures columns > 0
      ensures Contains(idx / columns, idx % columns)
      ensures CalcIdx(idx / columns, idx % columns) == idx
    {
      assert columns > 0;
      var q, r := idx / columns, idx % columns;
      assert idx == q * columns + r;
      if q >= rows {
        MulLeftMonotone(rows, q, columns);
        assert false;
      }
    }
  }

  /** Multiplying by the same factor keeps the order. */
  lemma MulLeftMonotone(a: nat, b: nat, c: nat)
    requires a <= b
    ensures a * c <= b * c
  {
    assert b * c == a * c + (b - a) * c;
  }

  /** Quotient and remainder are determined by any split `q * d + r` with `r < d`. */
  lemma DivModUnique(n: nat, d: nat, q: nat, r: nat)
    requires r < d && n == q * d + r
    ensures n / d == q && n % d == r
  {
    var q', r' := n / d, n % d;
    assert n == q' * d + r';
    if q' > q {
      MulLeftMonotone(q + 1, q', d);
      assert false;
    } else if q' < q {
      MulLeftMonotone(q' + 1, q, d);
      assert false;
    }
  }

  /** A non-empty shape stores its first row followed by the elements of the remaining rows. */
  lemma ElementsFirstRow(s: Shape)
    requires s.rows > 0
    ensures s.Elements() == s.columns + Shape(s.rows - 1, s.columns).Elements()
  {
    assert s.rows * s.columns == s.columns + (s.rows - 1) * s.columns;
  }

  /** Position (row, column) lies one full row past position (row - 1, column) of the remaining rows. */
  lemma CalcIdxNextRow(s: Shape, row: nat, column: nat)
    requires row > 0 && s.rows > 0
    ensures s.CalcIdx(row, column) == s.columns + Shape(s.rows - 1, s.columns).CalcIdx(row - 1, column)
  {
    assert row * s.columns == s.columns + (row - 1) * s.columns;
  }

  /** A grid of `s.rows` rows of `s.columns` values each. */
  ghost predicate HasShape<T>(grid: seq<seq<T>>, s: Shape) {
    |grid| == s.rows && forall r :: 0 <= r < |grid| ==> |grid[r]| == s.columns
  }

  /** The flat storage of a matrix cut into its rows, first row first. */
  function Rows<T>(s: Shape, flat: seq<T>): (grid: seq<seq<T>>)
    requires |flat| == s.Elements()
    ensures HasShape(grid, s)
    decreases s.rows
  {
    if s.rows == 0 then []
    else
      ElementsFirstRow(s);
      [flat[..s.columns]] + Rows(Shape(s.rows - 1, s.columns), flat[s.columns..])
  }

  /** The rows of a grid written one after another. */
  function Flatten<T>(grid: seq<seq<T>>): seq<T> {
    if grid == [] then [] else grid[0] + Flatten(grid[1..])
  }

  /** Reading the grid at (row, column) reads the flat storage at `calc_idx(row, column)`. */
  lemma {:induction false} RowsAt<T>(s: Shape, flat: seq<T>, row: nat, column: nat)
    requires |flat| == s.Elements() && s.Contains(row, column)
    ensures s.CalcIdx(row, column) < |flat|
    ensures Rows(s, flat)[row][column] == flat[s.CalcIdx(row, column)]
    decreases s.rows
  {
    if row > 0 {
      var rest := Shape(s.rows - 1, s.columns);
      ElementsFirstRow(s);
      RowsAt(rest, flat[s.columns..], row - 1, column);
      CalcIdxNextRow(s, row, column);
    }
  }

  /** Cutting the storage into rows and writing them out again gives back the storage. */
  lemma {:induction false} FlattenRows<T>(s: Shape, flat: seq<T>)
    requires |flat| == s.Elements()
    ensures Flatten(Rows(s, flat)) == flat
    decreases s.rows
  {
    if s.rows > 0 {
      var rest := Shape(s.rows - 1, s.columns);
      ElementsFirstRow(s);
      FlattenRows(rest, flat[s.columns..]);
      assert Rows(s, flat)[1..] == Rows(rest, flat[s.columns..]);
      assert flat == flat[..s.columns] + flat[s.columns..];
    }
  }

  /** Writing out a grid of shape `s` gives storage of `s.Elements()` values that cuts back into the same grid. */
  lemma {:induction false} RowsFlatten<T>(s: Shape, grid: seq<seq<T>>)
    requires HasShape(grid, s)
    ensures |Flatten(grid)| == s.Elements()
    ensures Rows(s, Flatten(grid)) == grid
    decreases s.rows
  {
    if s.rows > 0 {
      var rest := Shape(s.rows - 1, s.columns);
      assert HasShape(grid[1..], rest) by {
        forall r | 0 <= r < |grid[1..]| ensures |grid[1..][r]| == s.columns {
          assert grid[1..][r] == grid[r + 1];
        }
      }
      RowsFlatten(rest, grid[1..]);
      ElementsFirstRow(s);
      var flat := Flatten(grid);
      assert flat == grid[0] + Flatten(grid[1..]);
      assert flat[..s.columns] == grid[0];
      assert flat[s.columns..] == Flatten(grid[1..]);
    } else {
      assert grid == [];
    }
  }

  /** Writing one value into the storage changes exactly one cell of the grid. */
  lemma RowsUpdate<T>(s: Shape, flat: seq<T>, row: nat, column: nat, v: T)
    requires |flat| == s.Elements() && s.Contains(row, column)
    ensures s.CalcIdx(row, column) < |flat|
    ensures Rows(s, flat[s.CalcIdx(row, column) := v]) == Rows(s, flat)[row := Rows(s, flat)[row][column := v]]
  {
    var idx := s.CalcIdx(row, column);
    var updated := flat[idx := v];
    var after, before := Rows(s, updated), Rows(s, flat);
    var expected := before[row := before[row][column := v]];
    forall r | 0 <= r < s.rows ensures after[r] == expected[r] {
      forall c | 0 <= c < s.columns ensures after[r][c] == expected[r][c] {
        RowsAt(s, updated, r, c);
        RowsAt(s, flat, r, c);
        if r != row || c != column {
          if s.CalcIdx(r, c) == idx {
            s.CalcIdxInjective(r, c, row, column);
          }
        }
      }
    }
  }
}
