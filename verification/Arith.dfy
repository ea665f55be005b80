/** Facts about products, quotients and remainders of naturals, each stated on few variables so that
    the nonlinear steps stay small. */
module Arith {

  lemma MulLe(a: nat, b: nat, c: nat)
    requires a <= b
    ensures a * c <= b * c && c * a <= c * b
  {
  }

  lemma MulLt(a: nat, b: nat, c: nat)
    requires a < b && c > 0
    ensures a * c < b * c && c * a < c * b
  {
  }

  lemma Distribute(a: int, b: int, c: int)
    ensures (a + b) * c == a * c + b * c
    ensures (a - b) * c == a * c - b * c
    ensures c * (a + b) == c * a + c * b
  {
  }

  lemma Associate(a: int, b: int, c: int)
    ensures (a * b) * c == a * (b * c)
    ensures (a * b) * c == (a * c) * b
  {
  }

  /** A row-major index lies in the matrix. */
  lemma RowIndex(row: nat, col: nat, rows: nat, cols: nat)
    requires row < rows && col < cols
    ensures 0 <= row * cols + col < rows * cols
  {
    MulLe(row + 1, rows, cols);
    Distribute(row, 1, cols);
  }

  /** Division with remainder is unique. */
  lemma DivModUnique(x: nat, d: nat, q: nat, r: nat)
    requires d > 0 && r < d && x == q * d + r
    ensures x / d == q && x % d == r
  {
    var q', r' := x / d, x % d;
    if q' < q {
      MulLe(q' + 1, q, d);
      Distribute(q', 1, d);
    } else if q < q' {
      MulLe(q + 1, q', d);
      Distribute(q, 1, d);
    }
  }

  /** `x` reassembled from quotient and remainder. */
  lemma DivMod(x: nat, d: nat)
    requires d > 0
    ensures x == (x / d) * d + x % d && x % d < d && x / d >= 0
  {
  }

  lemma DivLt(x: nat, d: nat, q: nat)
    requires d > 0 && x < q * d
    ensures x / d < q
  {
    if q <= x / d {
      MulLe(q, x / d, d);
    }
  }

  function Pow2(p: nat): (r: nat)
    ensures r > 0
  {
    if p == 0 then 1 else 2 * Pow2(p - 1)
  }

  lemma {:induction false} Pow2Add(a: nat, b: nat)
    ensures Pow2(a + b) == Pow2(a) * Pow2(b)
  {
    if a > 0 {
      Pow2Add(a - 1, b);
      Associate(2, Pow2(a - 1), Pow2(b));
    }
  }

  lemma {:induction false} Pow2Mono(a: nat, b: nat)
    requires a <= b
    ensures Pow2(a) <= Pow2(b)
  {
    if a < b { Pow2Mono(a, b - 1); }
  }
}
