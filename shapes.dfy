/** Shape classification of a pair of matrices (size_check). */
module Shapes {

  /** The row and column counts a matrix carries in its header. */
  datatype Shape = Shape(rows: nat, cols: nat)

  /** Return code for two matrices of the same size. */
  const SameSize: int := 1
  /** Return code for an m by n matrix paired with an n by m one. */
  const SwappedSize: int := 2

  /** Classifies two shapes: SameSize, SwappedSize, or 0 when neither holds.
      Equality is tested first, so an equal pair of square shapes is SameSize. */
  function SizeCheck(a: Shape, b: Shape): (r: int)
    ensures r == SameSize <==> a == b
    ensures r == SwappedSize <==> a != b && a.rows == b.cols && a.cols == b.rows
    ensures r == 0 <==> a != b && (a.rows != b.cols || a.cols != b.rows)
  {
    if a.rows == b.rows && a.cols == b.cols then SameSize
    else if a.rows == b.cols && a.cols == b.rows then SwappedSize
    else 0
  }

  /** The classification does not depend on the order of the two matrices. */
  lemma SizeCheckSymmetric(a: Shape, b: Shape)
    ensures SizeCheck(a, b) == SizeCheck(b, a)
  {
  }

  /** The guard of multiply_matrices only asks for a nonzero SizeCheck.  The pairs
      it lets through whose inner dimensions disagree are exactly the equal,
      non-square pairs (2 by 3 with 2 by 3, say). */
  lemma GuardAdmitsInnerMismatch(a: Shape, b: Shape)
    ensures (SizeCheck(a, b) != 0 && a.cols != b.rows) <==> (a == b && a.rows != a.cols)
  {
  }

  /** A concrete pair the guard admits although the product loop would read row 2
      of a two-row matrix: it passes the guard, yet its inner dimensions do not
      stay inside the second matrix, which the as-written product requires. */
  lemma GuardAdmitsTwoByThreePair()
    ensures SizeCheck(Shape(2, 3), Shape(2, 3)) == SameSize
    ensures !(SizeCheck(Shape(2, 3), Shape(2, 3)) != 0 ==> Shape(2, 3).cols <= Shape(2, 3).rows)
  {
  }

  /** The guard also errs the other way: of the pairs whose inner dimensions agree,
      it admits only those whose outer dimensions agree too, so an n by m times an
      m by p product with n != p is rejected. */
  lemma GuardRejectsCompatible(a: Shape, b: Shape)
    requires a.cols == b.rows
    ensures SizeCheck(a, b) != 0 <==> a.rows == b.cols
  {
  }

  /** A concrete compatible pair the guard rejects: 2 by 3 times 3 by 4. */
  lemma GuardRejectsTwoByThreeThreeByFour()
    ensures Shape(2, 3).cols == Shape(3, 4).rows
    ensures SizeCheck(Shape(2, 3), Shape(3, 4)) == 0
  {
  }

  /** The n by n identity times an n by p matrix passes the guard only when p == n. */
  lemma GuardIdentityLeft(n: nat, p: nat)
    ensures SizeCheck(Shape(n, n), Shape(n, p)) != 0 <==> p == n
  {
  }
}
