/** The naive dense matrix product of the benchmark (the same triple loop in
    C++ and Python). The operands are read-only lists of rows; the result is
    a freshly allocated n-by-n buffer, zero-initialised and then updated one
    cell at a time. Entries are exact integers. */
module MatrixMultiply {

  type Matrix = seq<seq<int>>

  /** What the loops index: with n the number of rows of `A`, every row of `A`
      and the first n rows of `B` have at least n entries. */
  predicate Conformant(A: Matrix, B: Matrix)
  {
    |B| >= |A| &&
    (forall i :: 0 <= i < |A| ==> |A[i]| >= |A|) &&
    (forall k :: 0 <= k < |A| ==> |B[k]| >= |A|)
  }

  /** An n-by-n matrix. */
  predicate IsSquare(M: Matrix)
  {
    forall i :: 0 <= i < |M| ==> |M[i]| == |M|
  }

  /** The partial dot product `A[i][0]*B[0][j] + ... + A[i][k-1]*B[k-1][j]`. */
  function DotPrefix(A: Matrix, B: Matrix, i: nat, j: nat, k: nat): int
    requires Conformant(A, B) && i < |A| && j < |A| && k <= |A|
  {
    if k == 0 then 0 else DotPrefix(A, B, i, j, k - 1) + A[i][k - 1] * B[k - 1][j]
  }

  /** The mathematical product restricted to n = |A|: cell (i, j) is the sum
      over k < n of A[i][k] * B[k][j]. */
  function Product(A: Matrix, B: Matrix): (C: Matrix)
    requires Conformant(A, B)
    ensures |C| == |A| && IsSquare(C)
  {
    seq(|A|, i requires 0 <= i < |A| => seq(|A|, j requires 0 <= j < |A| => DotPrefix(A, B, i, j, |A|)))
  }

  /** `matrix_multiplication_standard(A, B)`: n = number of rows of `A`;
      `C` starts as n-by-n zeros; for each (i, j) in row-major order the
      innermost loop adds `A[i][k] * B[k][j]` to `C[i][j]` for k = 0..n-1.
      The result is the product; `A` and `B` are values and are not changed. */
  method MatrixMultiplicationStandard(A: Matrix, B: Matrix) returns (C: array2<int>)
    requires Conformant(A, B)
    ensures fresh(C)
    ensures C.Length0 == |A| && C.Length1 == |A|
    ensures forall i, j :: 0 <= i < |A| && 0 <= j < |A| ==> C[i, j] == Product(A, B)[i][j]
  {
    var n := |A|;
    C := new int[n, n]((i, j) => 0);
    for i := 0 to n
      invariant forall r, c :: 0 <= r < i && 0 <= c < n ==> C[r, c] == DotPrefix(A, B, r, c, n)
      invariant forall r, c :: i <= r < n && 0 <= c < n ==> C[r, c] == 0
    {
      for j := 0 to n
        invariant forall r, c :: 0 <= r < i && 0 <= c < n ==> C[r, c] == DotPrefix(A, B, r, c, n)
        invariant forall c :: 0 <= c < j ==> C[i, c] == DotPrefix(A, B, i, c, n)
        invariant forall c :: j <= c < n ==> C[i, c] == 0
        invariant forall r, c :: i < r < n && 0 <= c < n ==> C[r, c] == 0
      {
        for k := 0 to n
          invariant C[i, j] == DotPrefix(A, B, i, j, k)
          invariant forall r, c :: 0 <= r < i && 0 <= c < n ==> C[r, c] == DotPrefix(A, B, r, c, n)
          invariant forall c :: 0 <= c < j ==> C[i, c] == DotPrefix(A, B, i, c, n)
          invariant forall c :: j < c < n ==> C[i, c] == 0
          invariant forall r, c :: i < r < n && 0 <= c < n ==> C[r, c] == 0
        {
          C[i, j] := C[i, j] + A[i][k] * B[k][j];
        }
      }
    }
  }

  /** The n-by-n identity matrix. */
  function Identity(n: nat): (I: Matrix)
    ensures |I| == n && IsSquare(I)
  {
    seq(n, i requires 0 <= i < n => seq(n, j requires 0 <= j < n => if i == j then 1 else 0))
  }

  /** Multiplying the identity by a row of sums picks out one term. */
  lemma {:induction false} IdentityDotPrefix(B: Matrix, i: nat, j: nat, k: nat)
    requires IsSquare(B) && i < |B| && j < |B| && k <= |B|
    ensures Conformant(Identity(|B|), B)
    ensures DotPrefix(Identity(|B|), B, i, j, k) == if i < k then B[i][j] else 0
  {
    if k > 0 {
      IdentityDotPrefix(B, i, j, k - 1);
    }
  }

  /** Identity times B is B. */
  lemma IdentityTimes(B: Matrix)
    requires IsSquare(B)
    ensures Conformant(Identity(|B|), B)
    ensures Product(Identity(|B|), B) == B
  {
    var P := Product(Identity(|B|), B);
    forall i | 0 <= i < |B| ensures P[i] == B[i] {
      forall j | 0 <= j < |B| ensures P[i][j] == B[i][j] {
        IdentityDotPrefix(B, i, j, |B|);
      }
    }
  }

  /** A row of sums against the identity picks out one term. */
  lemma {:induction false} DotPrefixIdentity(A: Matrix, i: nat, j: nat, k: nat)
    requires IsSquare(A) && i < |A| && j < |A| && k <= |A|
    ensures Conformant(A, Identity(|A|))
    ensures DotPrefix(A, Identity(|A|), i, j, k) == if j < k then A[i][j] else 0
  {
    if k > 0 {
      DotPrefixIdentity(A, i, j, k - 1);
    }
  }

  /** A times the identity is A. */
  lemma TimesIdentity(A: Matrix)
    requires IsSquare(A)
    ensures Conformant(A, Identity(|A|))
    ensures Product(A, Identity(|A|)) == A
  {
    var P := Product(A, Identity(|A|));
    forall i | 0 <= i < |A| ensures P[i] == A[i] {
      forall j | 0 <= j < |A| ensures P[i][j] == A[i][j] {
        DotPrefixIdentity(A, i, j, |A|);
      }
    }
  }

  /** With identity as the left operand, the benchmark's multiply returns a
      buffer holding exactly B; for n = 0 it returns an empty buffer. */
  method MultiplyByIdentity(B: Matrix) returns (C: array2<int>)
    requires IsSquare(B)
    ensures fresh(C)
    ensures C.Length0 == |B| && C.Length1 == |B|
    ensures forall i, j :: 0 <= i < |B| && 0 <= j < |B| ==> C[i, j] == B[i][j]
  {
    IdentityTimes(B);
    C := MatrixMultiplicationStandard(Identity(|B|), B);
  }
}
