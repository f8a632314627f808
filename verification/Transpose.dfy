/** The matrix transposition kernels (cachelab/trans.c). A is a matrix of N rows and M
    columns, B of M rows and N columns, tmp a scratch array. The kernels only move
    elements, so the element type is a parameter. */
module Transpose {

  const TMPCOUNT: nat := 256
  const SQUARE_BLOCK: nat := 8
  const SQUARE: nat := 32

  predicate Fits<T>(A: array2<T>, B: array2<T>) {
    A != B && A.Length0 == B.Length1 && A.Length1 == B.Length0
  }

  /** B is the transpose of A. */
  predicate Transposed<T(==)>(A: array2<T>, B: array2<T>)
    requires Fits(A, B)
    reads A, B
  {
    forall i, j :: 0 <= i < A.Length0 && 0 <= j < A.Length1 ==> B[j, i] == A[i, j]
  }

  /** Row `i` of A is copied as far as column `m`. */
  ghost predicate RowDone<T>(A: array2<T>, B: array2<T>, i: nat, m: nat)
    requires Fits(A, B) && i < A.Length0 && m <= A.Length1
    reads A, B
  {
    forall j :: 0 <= j < m ==> B[j, i] == A[i, j]
  }

  /** The rows of A below `n` are copied as far as column `m`. */
  ghost predicate RowsDone<T>(A: array2<T>, B: array2<T>, n: nat, m: nat)
    requires Fits(A, B) && n <= A.Length0 && m <= A.Length1
    reads A, B
  {
    forall i, j :: 0 <= i < n && 0 <= j < m ==> B[j, i] == A[i, j]
  }

  /** trans: the row-wise scan. */
  method Trans<T(==)>(A: array2<T>, B: array2<T>)
    requires Fits(A, B)
    modifies B
    ensures Transposed(A, B)
  {
    var N, M := A.Length0, A.Length1;
    for i := 0 to N
      invariant RowsDone(A, B, i, M)
    {
      for j := 0 to M
        invariant RowsDone(A, B, i, M)
        invariant RowDone(A, B, i, j)
      {
        B[j, i] := A[i, j];
      }
    }
  }

  /** trans_tmp: the same scan through a 2 x 2 scratch square. */
  method TransTmp<T(==)>(A: array2<T>, B: array2<T>, tmp: array<T>)
    requires Fits(A, B) && tmp.Length >= TMPCOUNT
    modifies B, tmp
    ensures Transposed(A, B)
    ensures tmp[4..] == old(tmp[4..])
  {
    var N, M := A.Length0, A.Length1;
    for i := 0 to N
      invariant RowsDone(A, B, i, M)
      invariant tmp[4..] == old(tmp[4..])
    {
      for j := 0 to M
        invariant RowsDone(A, B, i, M)
        invariant RowDone(A, B, i, j)
        invariant tmp[4..] == old(tmp[4..])
      {
        var di := i % 2;
        var dj := j % 2;
        tmp[2 * di + dj] := A[i, j];
        B[j, i] := tmp[2 * di + dj];
      }
    }
  }

  /** One row of one 8 x 8 block of transpose_square. The element on the diagonal of the
      matrix is parked in the scratch array while the rest of the row is copied, and is
      stored last, which the code does in the blocks with i == j only. */
  method CopyBlockRow<T(==)>(A: array2<T>, B: array2<T>, tmp: array<T>, i: nat, j: nat, i1: nat)
    requires Fits(A, B) && tmp.Length > 0
    requires i % SQUARE_BLOCK == 0 && i <= i1 < i + SQUARE_BLOCK <= A.Length0
    requires j % SQUARE_BLOCK == 0 && j + SQUARE_BLOCK <= A.Length1
    modifies B, tmp
    ensures forall c :: j <= c < j + SQUARE_BLOCK ==> B[c, i1] == A[i1, c]
    ensures forall r, c :: 0 <= r < A.Length0 && 0 <= c < A.Length1 && (r != i1 || !(j <= c < j + SQUARE_BLOCK))
              ==> B[c, r] == old(B[c, r])
    ensures tmp[1..] == old(tmp[1..])
  {
    for j1 := j to j + SQUARE_BLOCK
      invariant forall c :: j <= c < j1 && c != i1 ==> B[c, i1] == A[i1, c]
      invariant j <= i1 < j1 ==> tmp[0] == A[i1, i1]
      invariant forall r, c :: 0 <= r < A.Length0 && 0 <= c < A.Length1 && (r != i1 || !(j <= c < j + SQUARE_BLOCK))
                  ==> B[c, r] == old(B[c, r])
      invariant tmp[1..] == old(tmp[1..])
    {
      if i1 == j1 {
        tmp[0] := A[i1, i1];
      } else {
        B[j1, i1] := A[i1, j1];
      }
    }
    if i == j {
      B[i1, i1] := tmp[0];
    }
  }

  /** transpose_square: block by block, for any dimensions that are multiples of 8. */
  method TransposeSquare<T(==)>(A: array2<T>, B: array2<T>, tmp: array<T>)
    requires Fits(A, B) && tmp.Length >= TMPCOUNT
    requires A.Length0 % SQUARE_BLOCK == 0 && A.Length1 % SQUARE_BLOCK == 0
    modifies B, tmp
    ensures Transposed(A, B)
    ensures tmp[1..] == old(tmp[1..])
  {
    var N, M := A.Length0, A.Length1;
    var i := 0;
    while i < N
      invariant i <= N && i % SQUARE_BLOCK == 0
      invariant RowsDone(A, B, i, M)
      invariant tmp[1..] == old(tmp[1..])
    {
      var j := 0;
      while j < M
        invariant j <= M && j % SQUARE_BLOCK == 0
        invariant RowsDone(A, B, i, M)
        invariant RowsDone(A, B, i + SQUARE_BLOCK, j)
        invariant tmp[1..] == old(tmp[1..])
      {
        for i1 := i to i + SQUARE_BLOCK
          invariant RowsDone(A, B, i, M)
          invariant RowsDone(A, B, i + SQUARE_BLOCK, j)
          invariant RowsDone(A, B, i1, j + SQUARE_BLOCK)
          invariant tmp[1..] == old(tmp[1..])
        {
          CopyBlockRow(A, B, tmp, i, j, i1);
        }
        j := j + SQUARE_BLOCK;
      }
      i := i + SQUARE_BLOCK;
    }
  }

  /** transpose_submit: the blocked kernel for 32 x 32, the scan for everything else. */
  method TransposeSubmit<T(==)>(A: array2<T>, B: array2<T>, tmp: array<T>)
    requires Fits(A, B) && tmp.Length >= TMPCOUNT
    modifies B, tmp
    ensures Transposed(A, B)
    ensures tmp[1..] == old(tmp[1..])
  {
    if A.Length1 == A.Length0 {
      if A.Length1 == SQUARE {
        TransposeSquare(A, B, tmp);
      } else {
        Trans(A, B);
      }
    } else {
      Trans(A, B);
    }
  }

  /** is_transpose decides exactly the property the kernels promise. */
  method IsTranspose<T(==)>(A: array2<T>, B: array2<T>) returns (b: bool)
    requires Fits(A, B)
    ensures b == Transposed(A, B)
  {
    var N, M := A.Length0, A.Length1;
    for i := 0 to N
      invariant RowsDone(A, B, i, M)
    {
      for j := 0 to M
        invariant RowDone(A, B, i, j)
      {
        if A[i, j] != B[j, i] {
          return false;
        }
      }
    }
    return true;
  }

  /** All the kernels agree: a matrix has one transpose. */
  lemma KernelsAgree<T>(A: array2<T>, B: array2<T>, C: array2<T>)
    requires Fits(A, B) && Fits(A, C) && Transposed(A, B) && Transposed(A, C)
    ensures forall j, i :: 0 <= j < B.Length0 && 0 <= i < B.Length1 ==> B[j, i] == C[j, i]
  {
    forall j, i | 0 <= j < B.Length0 && 0 <= i < B.Length1
      ensures B[j, i] == C[j, i]
    {
      assert B[j, i] == A[i, j] && C[j, i] == A[i, j];
    }
  }
}
