/** Value model of a matrix's contents and the arithmetic of matrix.c on it. */
module Grids {
  import opened Shapes

  /** A rows by cols grid of entries, row-major: cells[i][j] is row i, column j. */
  datatype Grid = Grid(rows: nat, cols: nat, cells: seq<seq<real>>)
  {
    /** Every row holds exactly cols entries and there are exactly rows of them. */
    predicate Wf()
    {
      |cells| == rows && forall i :: 0 <= i < rows ==> |cells[i]| == cols
    }

    function Dims(): (s: Shape)
    {
      Shape(rows, cols)
    }
  }

  /** Two well-formed grids of one shape that agree cell by cell are equal. */
  lemma Extensional(g: Grid, h: Grid)
    requires g.Wf() && h.Wf() && g.Dims() == h.Dims()
    requires forall i, j :: 0 <= i < g.rows && 0 <= j < g.cols ==> g.cells[i][j] == h.cells[i][j]
    ensures g == h
  {
    forall i | 0 <= i < g.rows
      ensures g.cells[i] == h.cells[i]
    {
      assert forall j :: 0 <= j < g.cols ==> g.cells[i][j] == h.cells[i][j];
    }
  }

  /** The grid a fresh matrix holds: every row is zero-filled. */
  function Zeros(r: nat, c: nat): (g: Grid)
    ensures g.Wf() && g.Dims() == Shape(r, c)
    ensures forall i, j :: 0 <= i < r && 0 <= j < c ==> g.cells[i][j] == 0.0
  {
    Grid(r, c, seq(r, _ => seq(c, _ => 0.0)))
  }

  // ---------------------------------------------------------------------------
  // Row-major layout of a flat buffer

  /** Position of cell (i, j) in a row-major buffer whose rows hold c entries. */
  function Offset(c: nat, i: nat, j: nat): (n: nat)
  {
    i * c + j
  }

  lemma {:induction false} MulMono(a: nat, b: nat, c: nat)
    requires a <= b
    ensures a * c <= b * c
  {
    if a < b {
      MulMono(a, b - 1, c);
      assert (b - 1) * c + c == b * c;
    }
  }

  /** Every cell of an r by c grid has its offset before r * c. */
  lemma OffsetInRange(r: nat, c: nat, i: nat, j: nat)
    requires i < r && j < c
    ensures Offset(c, i, j) < r * c
  {
    MulMono(i + 1, r, c);
    assert (i + 1) * c == i * c + c;
  }

  lemma OffsetsInRange(r: nat, c: nat)
    ensures forall i, j :: 0 <= i < r && 0 <= j < c ==> Offset(c, i, j) < r * c
  {
    forall i, j | 0 <= i < r && 0 <= j < c
      ensures Offset(c, i, j) < r * c
    {
      OffsetInRange(r, c, i, j);
    }
  }

  /** Every offset before r * c is the offset of some cell; this gives one. */
  lemma CellAt(n: nat, r: nat, c: nat) returns (i: nat, j: nat)
    requires n < r * c
    ensures i < r && j < c && Offset(c, i, j) == n
  {
    i, j := n / c, n % c;
    assert n == i * c + j;
    if r <= i {
      MulMono(r, i, c);
    }
  }

  /** The grid read from a flat row-major buffer, as matrix_edit fills it. */
  function FromFlat(flat: seq<real>, r: nat, c: nat): (g: Grid)
    requires r * c <= |flat|
    ensures g.Wf() && g.Dims() == Shape(r, c)
    ensures forall i, j :: 0 <= i < r && 0 <= j < c ==>
      Offset(c, i, j) < |flat| && g.cells[i][j] == flat[Offset(c, i, j)]
  {
    OffsetsInRange(r, c);
    Grid(r, c, seq(r, i requires 0 <= i < r =>
      seq(c, j requires 0 <= j < c => flat[Offset(c, i, j)])))
  }

  /** Concatenation of rows, first row first. */
  function FlattenRows(rows: seq<seq<real>>): (flat: seq<real>)
  {
    if rows == [] then [] else rows[0] + FlattenRows(rows[1..])
  }

  lemma {:induction false} FlattenRowsLength(rows: seq<seq<real>>, c: nat)
    requires forall k :: 0 <= k < |rows| ==> |rows[k]| == c
    ensures |FlattenRows(rows)| == |rows| * c
  {
    if rows != [] {
      FlattenRowsLength(rows[1..], c);
      assert (|rows| - 1) * c + c == |rows| * c;
    }
  }

  /** Cell (i, j) lies one full row of c entries after cell (i - 1, j). */
  lemma OffsetStep(c: nat, i: nat, j: nat)
    requires 0 < i
    ensures Offset(c, i, j) == c + Offset(c, i - 1, j)
  {
    assert (i - 1) * c + c == i * c;
  }

  /** The entry at the offset of cell (i, j) in the concatenated rows is entry j of
      row i. */
  lemma {:induction false} FlattenRowsAt(rows: seq<seq<real>>, c: nat, i: nat, j: nat)
    requires forall k :: 0 <= k < |rows| ==> |rows[k]| == c
    requires i < |rows| && j < c
    ensures Offset(c, i, j) < |FlattenRows(rows)|
    ensures FlattenRows(rows)[Offset(c, i, j)] == rows[i][j]
  {
    var tail := FlattenRows(rows[1..]);
    assert FlattenRows(rows) == rows[0] + tail;
    if i == 0 {
      assert Offset(c, 0, j) == j;
    } else {
      FlattenRowsAt(rows[1..], c, i - 1, j);
      OffsetStep(c, i, j);
      assert rows[1..][i - 1] == rows[i];
    }
  }

  /** The row-major buffer holding a grid, as matrix_edit expects it. */
  function Flatten(g: Grid): (flat: seq<real>)
    requires g.Wf()
    ensures |flat| == g.rows * g.cols
  {
    FlattenRowsLength(g.cells, g.cols);
    FlattenRows(g.cells)
  }

  /** Reading back the buffer of a grid gives the grid. */
  lemma FromFlatFlatten(g: Grid)
    requires g.Wf()
    ensures FromFlat(Flatten(g), g.rows, g.cols) == g
  {
    var h := FromFlat(Flatten(g), g.rows, g.cols);
    forall i, j | 0 <= i < g.rows && 0 <= j < g.cols
      ensures h.cells[i][j] == g.cells[i][j]
    {
      FlattenRowsAt(g.cells, g.cols, i, j);
    }
    Extensional(h, g);
  }

  /** Laying out the grid read from a buffer gives back the first r * c entries. */
  lemma FlattenFromFlat(flat: seq<real>, r: nat, c: nat)
    requires r * c <= |flat|
    ensures Flatten(FromFlat(flat, r, c)) == flat[..r * c]
  {
    var g := FromFlat(flat, r, c);
    var out := Flatten(g);
    forall n | 0 <= n < r * c
      ensures out[n] == flat[n]
    {
      var i, j := CellAt(n, r, c);
      FlattenRowsAt(g.cells, c, i, j);
    }
  }

  // ---------------------------------------------------------------------------
  // Copy into a possibly larger grid

  /** dst with its top-left src.rows by src.cols block replaced by src; an empty src
      leaves dst as it is, whatever its counts. */
  function CopyInto(dst: Grid, src: Grid): (g: Grid)
    requires dst.Wf() && src.Wf()
    requires src.rows == 0 || src.cols == 0 || (src.rows <= dst.rows && src.cols <= dst.cols)
    ensures g.Wf() && g.Dims() == dst.Dims()
  {
    Grid(dst.rows, dst.cols, seq(dst.rows, i requires 0 <= i < dst.rows =>
      seq(dst.cols, j requires 0 <= j < dst.cols =>
        if i < src.rows && j < src.cols then src.cells[i][j] else dst.cells[i][j])))
  }

  /** Between matrices of one shape, copying makes the destination equal the source. */
  lemma CopyIntoSameShape(dst: Grid, src: Grid)
    requires dst.Wf() && src.Wf() && dst.Dims() == src.Dims()
    ensures CopyInto(dst, src) == src
  {
    Extensional(CopyInto(dst, src), src);
  }

  // ---------------------------------------------------------------------------
  // Scaling and addition

  /** Every cell multiplied by k. */
  function Scale(g: Grid, k: real): (s: Grid)
    requires g.Wf()
    ensures s.Wf() && s.Dims() == g.Dims()
  {
    Grid(g.rows, g.cols, seq(g.rows, i requires 0 <= i < g.rows =>
      seq(g.cols, j requires 0 <= j < g.cols => g.cells[i][j] * k)))
  }

  /** Scaling by one changes nothing. */
  lemma ScaleByOne(g: Grid)
    requires g.Wf()
    ensures Scale(g, 1.0) == g
  {
    Extensional(Scale(g, 1.0), g);
  }

  /** Scaling twice is scaling once by the product of the two factors. */
  lemma ScaleTwice(g: Grid, a: real, b: real)
    requires g.Wf()
    ensures Scale(Scale(g, a), b) == Scale(g, a * b)
  {
    Extensional(Scale(Scale(g, a), b), Scale(g, a * b));
  }

  /** Cell-by-cell sum of two grids of one shape. */
  function Add(a: Grid, b: Grid): (s: Grid)
    requires a.Wf() && b.Wf() && a.Dims() == b.Dims()
    ensures s.Wf() && s.Dims() == a.Dims()
  {
    Grid(a.rows, a.cols, seq(a.rows, i requires 0 <= i < a.rows =>
      seq(a.cols, j requires 0 <= j < a.cols => a.cells[i][j] + b.cells[i][j])))
  }

  /** The sum does not depend on the order of its operands. */
  lemma AddCommutative(a: Grid, b: Grid)
    requires a.Wf() && b.Wf() && a.Dims() == b.Dims()
    ensures Add(a, b) == Add(b, a)
  {
    Extensional(Add(a, b), Add(b, a));
  }

  /** Adding the zero grid changes nothing. */
  lemma AddZeros(a: Grid)
    requires a.Wf()
    ensures Add(a, Zeros(a.rows, a.cols)) == a
  {
    Extensional(Add(a, Zeros(a.rows, a.cols)), a);
  }

  /** Scaling distributes over the sum. */
  lemma ScaleAdd(a: Grid, b: Grid, k: real)
    requires a.Wf() && b.Wf() && a.Dims() == b.Dims()
    ensures Scale(Add(a, b), k) == Add(Scale(a, k), Scale(b, k))
  {
    Extensional(Scale(Add(a, b), k), Add(Scale(a, k), Scale(b, k)));
  }

  // ---------------------------------------------------------------------------
  // Products

  /** Conversion of a double to int: the fraction is dropped, rounding toward zero. */
  function TowardZero(x: real): (n: int)
    ensures 0.0 <= x ==> n as real <= x < n as real + 1.0
    ensures x < 0.0 ==> n as real - 1.0 < x <= n as real
  {
    if 0.0 <= x then x.Floor else -((-x).Floor)
  }

  /** x has no fractional part. */
  predicate IsIntegral(x: real)
  {
    x.Floor as real == x
  }

  /** Every cell of g has no fractional part. */
  predicate IntegralGrid(g: Grid)
    requires g.Wf()
  {
    forall i, j :: 0 <= i < g.rows && 0 <= j < g.cols ==> IsIntegral(g.cells[i][j])
  }

  /** One multiply-accumulate step of a running sum: acc + x * y. */
  function MulAdd(acc: real, x: real, y: real): (s: real)
  {
    acc + x * y
  }

  /** Left-to-right sum of a[i][k] * b[k][j] over k < n, in exact arithmetic. */
  function Dot(a: Grid, b: Grid, i: nat, j: nat, n: nat): (s: real)
    requires a.Wf() && b.Wf() && i < a.rows && j < b.cols && n <= a.cols && n <= b.rows
  {
    if n == 0 then 0.0 else MulAdd(Dot(a, b, i, j, n - 1), a.cells[i][n - 1], b.cells[n - 1][j])
  }

  /** The same sum, kept in an int: after every step the partial sum is truncated
      toward zero. */
  function TruncDot(a: Grid, b: Grid, i: nat, j: nat, n: nat): (s: int)
    requires a.Wf() && b.Wf() && i < a.rows && j < b.cols && n <= a.cols && n <= b.rows
  {
    if n == 0 then 0
    else TowardZero(MulAdd(TruncDot(a, b, i, j, n - 1) as real, a.cells[i][n - 1], b.cells[n - 1][j]))
  }

  /** The matrix product of an n by m and an m by p grid. */
  function Product(a: Grid, b: Grid): (p: Grid)
    requires a.Wf() && b.Wf() && a.cols == b.rows
    ensures p.Wf() && p.Dims() == Shape(a.rows, b.cols)
  {
    Grid(a.rows, b.cols, seq(a.rows, i requires 0 <= i < a.rows =>
      seq(b.cols, j requires 0 <= j < b.cols => Dot(a, b, i, j, a.cols))))
  }

  /** What multiply_matrices computes: a.rows by b.cols cells, each the truncating
      sum over the a.cols columns of a.  Defined whenever those reads stay inside b. */
  function TruncProduct(a: Grid, b: Grid): (p: Grid)
    requires a.Wf() && b.Wf() && (a.rows == 0 || a.cols <= b.rows)
    ensures p.Wf() && p.Dims() == Shape(a.rows, b.cols)
  {
    Grid(a.rows, b.cols, seq(a.rows, i requires 0 <= i < a.rows =>
      seq(b.cols, j requires 0 <= j < b.cols => TruncDot(a, b, i, j, a.cols) as real)))
  }

  /** An int converted to real and back is itself. */
  lemma FloorOfInt(k: int)
    ensures (k as real).Floor == k
  {
  }

  /** Conversion to real commutes with multiplication. */
  lemma IntProduct(m: int, n: int)
    ensures (m * n) as real == (m as real) * (n as real)
  {
  }

  /** Truncating a value with no fraction returns it. */
  lemma TowardZeroIntegral(x: real)
    requires IsIntegral(x)
    ensures TowardZero(x) as real == x
  {
    var m := x.Floor;
    assert -x == (-m) as real;
    FloorOfInt(-m);
  }

  /** Sums and products of values with no fraction have no fraction. */
  lemma IntegralClosed(x: real, y: real)
    requires IsIntegral(x) && IsIntegral(y)
    ensures IsIntegral(x + y) && IsIntegral(x * y)
  {
    var m, n := x.Floor, y.Floor;
    FloorOfInt(m + n);
    IntProduct(m, n);
    FloorOfInt(m * n);
    assert x * y == (m * n) as real;
  }

  /** On integral entries the truncating sum loses nothing: it is the exact sum. */
  lemma {:induction false} TruncDotExact(a: Grid, b: Grid, i: nat, j: nat, n: nat)
    requires a.Wf() && b.Wf() && i < a.rows && j < b.cols && n <= a.cols && n <= b.rows
    requires IntegralGrid(a) && IntegralGrid(b)
    ensures TruncDot(a, b, i, j, n) as real == Dot(a, b, i, j, n)
    ensures IsIntegral(Dot(a, b, i, j, n))
  {
    if n > 0 {
      TruncDotExact(a, b, i, j, n - 1);
      var x, y := a.cells[i][n - 1], b.cells[n - 1][j];
      assert IsIntegral(x) && IsIntegral(y);
      IntegralClosed(x, y);
      var prev := Dot(a, b, i, j, n - 1);
      IntegralClosed(prev, x * y);
      assert MulAdd(prev, x, y) == prev + x * y;
      TowardZeroIntegral(MulAdd(prev, x, y));
      assert TruncDot(a, b, i, j, n) == TowardZero(MulAdd(prev, x, y));
    }
  }

  /** With integral entries and matching inner dimensions, multiply_matrices
      returns the exact matrix product. */
  lemma TruncProductExact(a: Grid, b: Grid)
    requires a.Wf() && b.Wf() && a.cols == b.rows
    requires IntegralGrid(a) && IntegralGrid(b)
    ensures TruncProduct(a, b) == Product(a, b)
  {
    forall i, j | 0 <= i < a.rows && 0 <= j < b.cols
      ensures TruncProduct(a, b).cells[i][j] == Product(a, b).cells[i][j]
    {
      TruncDotExact(a, b, i, j, a.cols);
    }
    Extensional(TruncProduct(a, b), Product(a, b));
  }

  /** Truncation after every step loses more than truncating the final sum:
      [0.5 0.5] times the column [1 1] is 1 exactly, but 0 when each partial sum is
      truncated. */
  lemma PerStepTruncation()
    ensures var a := Grid(1, 2, [[0.5, 0.5]]);
            var b := Grid(2, 1, [[1.0], [1.0]]);
            a.Wf() && b.Wf() && a.cols == b.rows &&
            Product(a, b).cells[0][0] == 1.0 && TruncProduct(a, b).cells[0][0] == 0.0
  {
    var a := Grid(1, 2, [[0.5, 0.5]]);
    var b := Grid(2, 1, [[1.0], [1.0]]);
    assert Dot(a, b, 0, 0, 2) == 1.0 by {
      assert Dot(a, b, 0, 0, 1) == 0.5;
    }
    assert TruncDot(a, b, 0, 0, 2) == 0 by {
      assert TruncDot(a, b, 0, 0, 1) == 0;
    }
  }

  /** The n by n identity grid. */
  function Identity(n: nat): (g: Grid)
    ensures g.Wf() && g.Dims() == Shape(n, n)
  {
    Grid(n, n, seq(n, i => seq(n, j => if i == j then 1.0 else 0.0)))
  }

  /** The first k terms of row i of the identity against column j of a. */
  lemma {:induction false} DotIdentity(a: Grid, i: nat, j: nat, k: nat)
    requires a.Wf() && i < a.rows && j < a.cols && k <= a.rows
    ensures Dot(Identity(a.rows), a, i, j, k) == if i < k then a.cells[i][j] else 0.0
  {
    if k > 0 {
      DotIdentity(a, i, j, k - 1);
    }
  }

  /** Multiplying by the identity on the left returns the matrix unchanged.  This is
      a fact about the documented product: multiply_matrices as written returns
      NULL for the n by n identity times an n by p matrix unless p == n
      (Shapes.GuardIdentityLeft). */
  lemma ProductIdentityLeft(a: Grid)
    requires a.Wf()
    ensures Product(Identity(a.rows), a) == a
  {
    forall i, j | 0 <= i < a.rows && 0 <= j < a.cols
      ensures Product(Identity(a.rows), a).cells[i][j] == a.cells[i][j]
    {
      DotIdentity(a, i, j, a.rows);
    }
    Extensional(Product(Identity(a.rows), a), a);
  }
}
