/** Entries of A * B^T over the integers, and the two laws that determine them. */
module MatrixProduct {

  /** Row m of `a` times row n of `b` over k = 0, ..., len - 1. */
  ghost function RowProduct(a: (nat, nat) -> int, b: (nat, nat) -> int, m: nat, n: nat, len: nat): int {
    if len == 0 then 0 else RowProduct(a, b, m, n, len - 1) + a(m, len - 1) * b(n, len - 1)
  }

  /** A row with a single non-zero entry picks out that column of the other row. */
  lemma {:induction false} SingleEntry(a: (nat, nat) -> int, b: (nat, nat) -> int, m: nat, n: nat, len: nat, j: nat, v: int)
    requires forall k: nat :: k < len ==> a(m, k) == if k == j then v else 0
    ensures RowProduct(a, b, m, n, len) == if j < len then v * b(n, j) else 0
  {
    if len > 0 { SingleEntry(a, b, m, n, len - 1, j, v); }
  }

  /** The product of a sum of rows is the sum of their products. */
  lemma {:induction false} SumOfRows(a: (nat, nat) -> int, a': (nat, nat) -> int, sum: (nat, nat) -> int, b: (nat, nat) -> int,
                                     m: nat, n: nat, len: nat)
    requires forall k: nat :: k < len ==> sum(m, k) == a(m, k) + a'(m, k)
    ensures RowProduct(sum, b, m, n, len) == RowProduct(a, b, m, n, len) + RowProduct(a', b, m, n, len)
  {
    if len > 0 {
      SumOfRows(a, a', sum, b, m, n, len - 1);
      Distributes(a(m, len - 1), a'(m, len - 1), b(n, len - 1));
    }
  }

  lemma Distributes(x: int, y: int, z: int)
    ensures (x + y) * z == x * z + y * z
  {
  }
}
