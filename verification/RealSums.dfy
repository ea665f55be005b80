/** Finite sums of reals. */
module RealSums {

  /** f(0) + ... + f(n-1). */
  function Sum(f: nat -> real, n: nat): real {
    if n == 0 then 0.0 else Sum(f, n - 1) + f(n - 1)
  }

  lemma {:induction false} SumEq(f: nat -> real, g: nat -> real, n: nat)
    requires forall i :: 0 <= i < n ==> f(i) == g(i)
    ensures Sum(f, n) == Sum(g, n)
  {
    if n > 0 { SumEq(f, g, n - 1); }
  }

  lemma {:induction false} SumPlus(f: nat -> real, g: nat -> real, h: nat -> real, n: nat)
    requires forall i :: 0 <= i < n ==> h(i) == f(i) + g(i)
    ensures Sum(h, n) == Sum(f, n) + Sum(g, n)
  {
    if n > 0 { SumPlus(f, g, h, n - 1); }
  }

  lemma {:induction false} SumScale(c: real, f: nat -> real, h: nat -> real, n: nat)
    requires forall i :: 0 <= i < n ==> h(i) == c * f(i)
    ensures Sum(h, n) == c * Sum(f, n)
  {
    if n > 0 {
      SumScale(c, f, h, n - 1);
      assert c * (Sum(f, n - 1) + f(n - 1)) == c * Sum(f, n - 1) + c * f(n - 1);
    }
  }

  lemma {:induction false} SumScaleRight(f: nat -> real, c: real, h: nat -> real, n: nat)
    requires forall i :: 0 <= i < n ==> h(i) == f(i) * c
    ensures Sum(h, n) == Sum(f, n) * c
  {
    if n > 0 {
      SumScaleRight(f, c, h, n - 1);
      assert (Sum(f, n - 1) + f(n - 1)) * c == Sum(f, n - 1) * c + f(n - 1) * c;
    }
  }

  lemma {:induction false} SumNegate(f: nat -> real, h: nat -> real, n: nat)
    requires forall i :: 0 <= i < n ==> h(i) == -f(i)
    ensures Sum(h, n) == -Sum(f, n)
  {
    if n > 0 { SumNegate(f, h, n - 1); }
  }

  lemma {:induction false} SumSplit(f: nat -> real, g: nat -> real, a: nat, b: nat)
    requires forall i :: 0 <= i < b ==> g(i) == f(a + i)
    ensures Sum(f, a + b) == Sum(f, a) + Sum(g, b)
  {
    if b > 0 { SumSplit(f, g, a, b - 1); }
  }

  /** A sum over 2m terms whose halves are known. */
  lemma SumHalves(f: nat -> real, low: nat -> real, high: nat -> real, m: nat)
    requires forall i :: 0 <= i < m ==> f(i) == low(i)
    requires forall i :: 0 <= i < m ==> high(i) == f(m + i)
    ensures Sum(f, 2 * m) == Sum(low, m) + Sum(high, m)
  {
    SumEq(f, low, m);
    SumSplit(f, high, m, m);
  }

  /** Only the term at `k` can be nonzero. */
  lemma {:induction false} SumSingle(f: nat -> real, k: nat, n: nat)
    requires forall i :: 0 <= i < n && i != k ==> f(i) == 0.0
    ensures Sum(f, n) == if k < n then f(k) else 0.0
  {
    if n > 0 { SumSingle(f, k, n - 1); }
  }

  function RowSum(f: (nat, nat) -> real, n: nat): nat -> real {
    (i: nat) => Sum((j: nat) => f(i, j), n)
  }

  function ColSum(f: (nat, nat) -> real, m: nat): nat -> real {
    (j: nat) => Sum((i: nat) => f(i, j), m)
  }

  lemma {:induction false} SumExchange(f: (nat, nat) -> real, m: nat, n: nat)
    ensures Sum(RowSum(f, n), m) == Sum(ColSum(f, m), n)
  {
    if m == 0 {
      SumSingle(ColSum(f, m), n, n);
    } else {
      SumExchange(f, m - 1, n);
      SumPlus(ColSum(f, m - 1), (j: nat) => f(m - 1, j), ColSum(f, m), n);
    }
  }
}
