/** The matrix object of matrix.c: a header with the row and column counts and a
    grid of entries that the operations fill and update cell by cell. */
module Matrices {
  import opened Shapes
  import opened Grids

  class Matrix {
    var rows: nat
    var cols: nat
    /** The entries, data[i, j] being row i, column j. */
    var data: array2<real>

    /** A live matrix: the header's counts are the extent of its entries. */
    ghost predicate Valid()
      reads this
    {
      data.Length0 == rows && data.Length1 == cols
    }

    function Dims(): (s: Shape)
      reads this
    {
      Shape(rows, cols)
    }

    /** The entries as a value. */
    ghost function Model(): (g: Grid)
      reads this, data
      requires Valid()
      ensures g.Wf() && g.Dims() == Dims()
      ensures forall i, j :: 0 <= i < rows && 0 <= j < cols ==> g.cells[i][j] == data[i, j]
    {
      var d := data;
      Grid(rows, cols, seq(d.Length0, i requires 0 <= i < d.Length0 reads d =>
        seq(d.Length1, j requires 0 <= j < d.Length1 reads d => d[i, j])))
    }

    /** The entries are exactly the cells of g: Model() == g, stated cell by cell. */
    ghost predicate Holds(g: Grid)
      reads this, data
    {
      Valid() && g.Wf() && g.Dims() == Dims() &&
      forall i, j :: 0 <= i < rows && 0 <= j < cols ==> data[i, j] == g.cells[i][j]
    }

    /** matrix_init: a fresh rows by columns matrix, each row zero-filled. */
    constructor Init(rows: nat, columns: nat)
      ensures Valid() && fresh(data)
      ensures Dims() == Shape(rows, columns)
      ensures Model() == Zeros(rows, columns)
    {
      this.rows := rows;
      this.cols := columns;
      var d := new real[rows, columns];
      for i := 0 to rows
        invariant forall p, q :: 0 <= p < i && 0 <= q < columns ==> d[p, q] == 0.0
      {
        forall j | 0 <= j < columns {
          d[i, j] := 0.0;
        }
      }
      data := d;
      new;
      Extensional(Model(), Zeros(rows, columns));
    }

    /** matrix_edit: fills every cell from a flat row-major buffer; the shape stays. */
    method Edit(flat: seq<real>)
      requires Valid() && rows * cols <= |flat|
      modifies data
      ensures Valid() && Model() == FromFlat(flat, rows, cols)
    {
      OffsetsInRange(rows, cols);
      for i := 0 to rows
        invariant forall p, q :: 0 <= p < i && 0 <= q < cols ==> data[p, q] == flat[Offset(cols, p, q)]
      {
        for j := 0 to cols
          invariant forall p, q :: 0 <= p < i && 0 <= q < cols ==> data[p, q] == flat[Offset(cols, p, q)]
          invariant forall q :: 0 <= q < j ==> data[i, q] == flat[Offset(cols, i, q)]
        {
          data[i, j] := flat[Offset(cols, i, j)];
        }
      }
      Extensional(Model(), FromFlat(flat, rows, cols));
    }

    /** matrix_copy: writes this matrix's cells over the same cells of dst.  Only this
        matrix's shape is looked at, so dst must be at least as large unless this
        matrix has no rows or no columns, when nothing is written; dst's other cells
        keep their value and its header is not touched. */
    method CopyTo(dst: Matrix)
      requires Valid() && dst.Valid()
      requires rows == 0 || cols == 0 || (rows <= dst.rows && cols <= dst.cols)
      modifies dst.data
      ensures Valid() && dst.Valid()
      ensures dst.Model() == CopyInto(old(dst.Model()), old(Model()))
      ensures Model() == old(Model())
    {
      for i := 0 to rows
        invariant forall p, q :: 0 <= p < dst.rows && 0 <= q < dst.cols ==>
          dst.data[p, q] == if p < i && q < cols then old(data[p, q]) else old(dst.data[p, q])
      {
        for j := 0 to cols
          invariant forall p, q :: 0 <= p < dst.rows && 0 <= q < dst.cols ==>
            dst.data[p, q] ==
              if (p < i || (p == i && q < j)) && q < cols then old(data[p, q]) else old(dst.data[p, q])
        {
          dst.data[i, j] := data[i, j];
        }
      }
      Extensional(dst.Model(), CopyInto(old(dst.Model()), old(Model())));
      if dst.data == data {
        // Shared storage forces equal shapes, so the copy rewrites each cell with itself.
        CopyIntoSameShape(old(dst.Model()), old(Model()));
        Extensional(Model(), dst.Model());
      } else {
        Extensional(Model(), old(Model()));
      }
    }

    /** One row of the loop of matrix_dup: row i of out becomes row i of this
        matrix; the other rows of out keep their value. */
    method CopyRow(out: array2<real>, i: nat)
      requires Valid() && i < rows && out != data
      requires out.Length0 == rows && out.Length1 == cols
      modifies out
      ensures forall q :: 0 <= q < cols ==> out[i, q] == data[i, q]
      ensures forall p, q :: 0 <= p < out.Length0 && 0 <= q < out.Length1 && p != i ==>
        out[p, q] == old(out[p, q])
    {
      for j := 0 to cols
        invariant forall q :: 0 <= q < j ==> out[i, q] == data[i, q]
        invariant forall p, q :: 0 <= p < out.Length0 && 0 <= q < out.Length1 && p != i ==>
          out[p, q] == old(out[p, q])
      {
        out[i, j] := data[i, j];
      }
    }

    /** matrix_dup: a freshly allocated matrix with this one's shape and cells; it
        shares no storage with this one. */
    method Dup() returns (copy: Matrix)
      requires Valid()
      ensures fresh(copy) && fresh(copy.data) && copy.data != data
      ensures copy.Valid() && copy.Model() == Model()
    {
      copy := new Matrix.Init(rows, cols);
      for i := 0 to rows
        modifies copy.data
        invariant forall p, q :: 0 <= p < i && 0 <= q < cols ==> copy.data[p, q] == data[p, q]
      {
        CopyRow(copy.data, i);
      }
      Extensional(copy.Model(), Model());
    }

    /** matrix_del: the header's counts are reset to zero, so a released matrix that
        had any row or column is no longer a live one. */
    method Del()
      requires Valid()
      modifies this
      ensures rows == 0 && cols == 0 && data == old(data)
      ensures old(rows) != 0 || old(cols) != 0 ==> !Valid()
    {
      rows := 0;
      cols := 0;
    }

    /** matrix_scale: every cell multiplied by scalar, in place; the shape stays. */
    method Scale(scalar: real)
      requires Valid()
      modifies data
      ensures Valid() && Model() == Grids.Scale(old(Model()), scalar)
    {
      for i := 0 to rows
        invariant forall p, q :: 0 <= p < rows && 0 <= q < cols ==>
          data[p, q] == if p < i then old(data[p, q]) * scalar else old(data[p, q])
      {
        for j := 0 to cols
          invariant forall p, q :: 0 <= p < rows && 0 <= q < cols ==>
            data[p, q] == if p < i || (p == i && q < j) then old(data[p, q]) * scalar else old(data[p, q])
        {
          data[i, j] := data[i, j] * scalar;
        }
      }
      Extensional(Model(), Grids.Scale(old(Model()), scalar));
    }
  }

  /** One row of the loop of add_matrices: cell (i, q) of out becomes the sum of the
      same cells of mat1 and mat2; the other rows of out keep their value. */
  method AddRow(mat1: Matrix, mat2: Matrix, out: array2<real>, i: nat)
    requires mat1.Valid() && mat2.Valid() && mat1.Dims() == mat2.Dims() && i < mat1.rows
    requires out != mat1.data && out != mat2.data
    requires out.Length0 == mat1.rows && out.Length1 == mat1.cols
    modifies out
    ensures forall q :: 0 <= q < mat1.cols ==> out[i, q] == mat1.data[i, q] + mat2.data[i, q]
    ensures forall p, q :: 0 <= p < out.Length0 && 0 <= q < out.Length1 && p != i ==>
      out[p, q] == old(out[p, q])
  {
    for j := 0 to mat1.cols
      invariant forall q :: 0 <= q < j ==> out[i, q] == mat1.data[i, q] + mat2.data[i, q]
      invariant forall p, q :: 0 <= p < out.Length0 && 0 <= q < out.Length1 && p != i ==>
        out[p, q] == old(out[p, q])
    {
      out[i, j] := mat1.data[i, j] + mat2.data[i, j];
    }
  }

  /** add_matrices, in the parameter order of its definition: output is only a
      placeholder and is neither read nor written; the operands summed are mat1 and
      mat2.  Null unless the two have the same size; otherwise a fresh matrix of
      mat1's shape holding the cell-by-cell sum, the operands untouched. */
  method AddMatrices(output: Matrix?, mat1: Matrix, mat2: Matrix) returns (sum: Matrix?)
    requires mat1.Valid() && mat2.Valid()
    ensures sum == null <==> SizeCheck(mat1.Dims(), mat2.Dims()) != SameSize
    ensures sum != null ==>
      fresh(sum) && fresh(sum.data) && sum.Valid() && sum.Model() == Add(mat1.Model(), mat2.Model())
  {
    if SizeCheck(mat1.Dims(), mat2.Dims()) != SameSize {
      return null;
    }
    sum := new Matrix.Init(mat1.rows, mat1.cols);
    for i := 0 to mat1.rows
      modifies sum.data
      invariant forall p, q :: 0 <= p < i && 0 <= q < mat1.cols ==>
        sum.data[p, q] == mat1.data[p, q] + mat2.data[p, q]
    {
      AddRow(mat1, mat2, sum.data, i);
    }
    Extensional(sum.Model(), Add(mat1.Model(), mat2.Model()));
  }

  /** The innermost loop of multiply_matrices: row i of mat1 against column j of
      mat2, accumulated in an int, so truncated toward zero after every step.
      a and b are the values of mat1 and mat2. */
  method TruncatedSum(mat1: Matrix, mat2: Matrix, i: nat, j: nat, ghost a: Grid, ghost b: Grid)
    returns (sum: int)
    requires mat1.Holds(a) && mat2.Holds(b)
    requires i < mat1.rows && j < mat2.cols && mat1.cols <= mat2.rows
    ensures sum == TruncDot(a, b, i, j, mat1.cols)
  {
    sum := 0;
    for k := 0 to mat1.cols
      invariant sum == TruncDot(a, b, i, j, k)
    {
      sum := TowardZero(MulAdd(sum as real, mat1.data[i, k], mat2.data[k, j]));
    }
  }

  /** One row of the loop of multiply_matrices: row i of out becomes row i of want,
      the truncated product of a and b; the other rows of out keep their value. */
  method TruncatedRow(mat1: Matrix, mat2: Matrix, out: array2<real>, i: nat,
                      ghost a: Grid, ghost b: Grid, ghost want: Grid)
    requires mat1.Holds(a) && mat2.Holds(b)
    requires i < mat1.rows && mat1.cols <= mat2.rows
    requires out != mat1.data && out != mat2.data
    requires out.Length0 == mat1.rows && out.Length1 == mat2.cols
    requires want == TruncProduct(a, b)
    modifies out
    ensures forall q :: 0 <= q < mat2.cols ==> out[i, q] == want.cells[i][q]
    ensures forall p, q :: 0 <= p < out.Length0 && 0 <= q < out.Length1 && p != i ==>
      out[p, q] == old(out[p, q])
  {
    for j := 0 to mat2.cols
      invariant forall q :: 0 <= q < j ==> out[i, q] == want.cells[i][q]
      invariant forall p, q :: 0 <= p < out.Length0 && 0 <= q < out.Length1 && p != i ==>
        out[p, q] == old(out[p, q])
    {
      var sum := TruncatedSum(mat1, mat2, i, j, a, b);
      out[i, j] := sum as real;
    }
  }

  /** multiply_matrices as written.  Null when SizeCheck gives 0; otherwise a fresh
      rows(mat1) by cols(mat2) matrix whose cell (i, j) is the sum over k < cols(mat1)
      of mat1[i][k] * mat2[k][j], accumulated in an int and so truncated toward zero
      after every step.  The guard also lets through equal-shape pairs wider than they
      are tall; when mat1 has a row, the loop then reads rows of mat2 that do not
      exist, and the precondition excludes exactly those reads.  The output argument is neither read
      nor written. */
  method MultiplyMatrices(mat1: Matrix, mat2: Matrix, output: Matrix?) returns (product: Matrix?)
    requires mat1.Valid() && mat2.Valid()
    requires SizeCheck(mat1.Dims(), mat2.Dims()) != 0 && 0 < mat1.rows ==> mat1.cols <= mat2.rows
    ensures product == null <==> SizeCheck(mat1.Dims(), mat2.Dims()) == 0
    ensures product != null ==>
      fresh(product) && fresh(product.data) && product.Valid() &&
      product.Model() == TruncProduct(mat1.Model(), mat2.Model())
  {
    if SizeCheck(mat1.Dims(), mat2.Dims()) == 0 {
      return null;
    }
    product := new Matrix.Init(mat1.rows, mat2.cols);
    ghost var a, b := mat1.Model(), mat2.Model();
    ghost var want := TruncProduct(a, b);
    for i := 0 to mat1.rows
      modifies product.data
      invariant forall p, q :: 0 <= p < i && 0 <= q < mat2.cols ==>
        product.data[p, q] == want.cells[p][q]
    {
      TruncatedRow(mat1, mat2, product.data, i, a, b, want);
    }
    Extensional(product.Model(), want);
  }

  /** The innermost loop of the corrected product: the exact sum of row i of mat1
      against column j of mat2. */
  method ExactSum(mat1: Matrix, mat2: Matrix, i: nat, j: nat, ghost a: Grid, ghost b: Grid)
    returns (sum: real)
    requires mat1.Holds(a) && mat2.Holds(b)
    requires i < mat1.rows && j < mat2.cols && mat1.cols <= mat2.rows
    ensures sum == Dot(a, b, i, j, mat1.cols)
  {
    sum := 0.0;
    for k := 0 to mat1.cols
      invariant sum == Dot(a, b, i, j, k)
    {
      sum := MulAdd(sum, mat1.data[i, k], mat2.data[k, j]);
    }
  }

  /** One row of the corrected product: row i of out becomes row i of want, the
      exact product of a and b; the other rows of out keep their value. */
  method ExactRow(mat1: Matrix, mat2: Matrix, out: array2<real>, i: nat,
                  ghost a: Grid, ghost b: Grid, ghost want: Grid)
    requires mat1.Holds(a) && mat2.Holds(b)
    requires i < mat1.rows && mat1.cols == mat2.rows
    requires out != mat1.data && out != mat2.data
    requires out.Length0 == mat1.rows && out.Length1 == mat2.cols
    requires want == Product(a, b)
    modifies out
    ensures forall q :: 0 <= q < mat2.cols ==> out[i, q] == want.cells[i][q]
    ensures forall p, q :: 0 <= p < out.Length0 && 0 <= q < out.Length1 && p != i ==>
      out[p, q] == old(out[p, q])
  {
    for j := 0 to mat2.cols
      invariant forall q :: 0 <= q < j ==> out[i, q] == want.cells[i][q]
      invariant forall p, q :: 0 <= p < out.Length0 && 0 <= q < out.Length1 && p != i ==>
        out[p, q] == old(out[p, q])
    {
      out[i, j] := ExactSum(mat1, mat2, i, j, a, b);
    }
  }

  /** The product multiply_matrices is documented to compute: null unless the
      columns of mat1 match the rows of mat2; otherwise a fresh rows(mat1) by
      cols(mat2) matrix holding the exact matrix product, accumulated without
      truncation. */
  method Multiply(mat1: Matrix, mat2: Matrix) returns (product: Matrix?)
    requires mat1.Valid() && mat2.Valid()
    ensures product == null <==> mat1.cols != mat2.rows
    ensures product != null ==>
      fresh(product) && fresh(product.data) && product.Valid() &&
      product.Model() == Product(mat1.Model(), mat2.Model())
  {
    if mat1.cols != mat2.rows {
      return null;
    }
    product := new Matrix.Init(mat1.rows, mat2.cols);
    ghost var a, b := mat1.Model(), mat2.Model();
    ghost var want := Product(a, b);
    for i := 0 to mat1.rows
      modifies product.data
      invariant forall p, q :: 0 <= p < i && 0 <= q < mat2.cols ==>
        product.data[p, q] == want.cells[p][q]
    {
      ExactRow(mat1, mat2, product.data, i, a, b, want);
    }
    Extensional(product.Model(), want);
  }
}
