/** The fast Walsh-Hadamard transform of `had.py` and the rotation of both operands of a matrix product.
    Arithmetic is exact, over the reals. */
module Hadamard {
  import opened Arith
  import opened RealSums

  datatype Option<+T> = None | Some(value: T)

  // ---------------------------------------------------------------- the explicit matrix

  /** Bitwise and. */
  function And(i: nat, j: nat): nat {
    if i == 0 || j == 0 then 0
    else 2 * And(i / 2, j / 2) + if i % 2 == 1 && j % 2 == 1 then 1 else 0
  }

  function PopCount(n: nat): nat {
    if n == 0 then 0 else PopCount(n / 2) + n % 2
  }

  /** An odd number of bits is set in both. */
  predicate Flips(i: nat, j: nat) {
    PopCount(And(i, j)) % 2 == 1
  }

  /** Entry (i, j) of the Hadamard matrix: -1 to the number of bits i and j share. */
  function Sign(i: nat, j: nat): real {
    if Flips(i, j) then -1.0 else 1.0
  }

  /** Both lowest bits are set. */
  predicate LowFlips(i: nat, j: nat) {
    i % 2 == 1 && j % 2 == 1
  }

  lemma FlipsStep(i: nat, j: nat)
    ensures Flips(i, j) <==> (Flips(i / 2, j / 2) != LowFlips(i, j))
  {
    if i != 0 && j != 0 { CountStep(And(i, j), And(i / 2, j / 2), if LowFlips(i, j) then 1 else 0); }
  }

  lemma CountStep(a: nat, half: nat, bit: nat)
    requires bit < 2 && a == 2 * half + bit
    ensures PopCount(a) == PopCount(half) + bit
  {
    assert a / 2 == half && a % 2 == bit;
  }

  lemma {:induction false} SignSymmetric(i: nat, j: nat)
    ensures Sign(i, j) == Sign(j, i)
  {
    AndSymmetric(i, j);
  }

  lemma {:induction false} AndSymmetric(i: nat, j: nat)
    ensures And(i, j) == And(j, i)
  {
    if i != 0 && j != 0 { AndSymmetric(i / 2, j / 2); }
  }

  lemma FlipsHighStep(h: nat, i: nat, j: nat)
    requires Flips(h + i / 2, j / 2) == Flips(i / 2, j / 2) == Flips(i / 2, h + j / 2)
    requires Flips(h + i / 2, h + j / 2) == !Flips(i / 2, j / 2)
    ensures Flips(2 * h + i, j) == Flips(i, j) == Flips(i, 2 * h + j)
    ensures Flips(2 * h + i, 2 * h + j) == !Flips(i, j)
  {
    assert (2 * h + i) / 2 == h + i / 2 && (2 * h + j) / 2 == h + j / 2;
    FlipsStep(2 * h + i, j);
    FlipsStep(i, 2 * h + j);
    FlipsStep(2 * h + i, 2 * h + j);
    FlipsStep(i, j);
  }

  /** A shared bit above `i` and `j` flips the sign; an unshared one does not change it. */
  lemma {:induction false} FlipsHigh(q: nat, i: nat, j: nat)
    requires i < Pow2(q) && j < Pow2(q)
    ensures Flips(Pow2(q) + i, j) == Flips(i, j) == Flips(i, Pow2(q) + j)
    ensures Flips(Pow2(q) + i, Pow2(q) + j) == !Flips(i, j)
  {
    var m := Pow2(q);
    if q == 0 {
      FlipsStep(1, 1);
    } else {
      FlipsHigh(q - 1, i / 2, j / 2);
      FlipsHighStep(Pow2(q - 1), i, j);
    }
  }

  /** Sylvester's construction, which determines every sign: the matrix of order 1 is 1, and doubling repeats the matrix in
      three quarters and negates it in the last. */
  lemma SignDoubles(q: nat, i: nat, j: nat)
    requires i < Pow2(q) && j < Pow2(q)
    ensures Sign(0, 0) == 1.0
    ensures Sign(i, Pow2(q) + j) == Sign(Pow2(q) + i, j) == Sign(i, j)
    ensures Sign(Pow2(q) + i, Pow2(q) + j) == -Sign(i, j)
  {
    FlipsHigh(q, i, j);
  }

  // ---------------------------------------------------------------- the power-of-two test

  /** `had_util.is_pow2`. */
  predicate IsPow2(n: nat) {
    n > 0 && And(n, n - 1) == 0
  }

  lemma {:induction false} AndSelf(n: nat)
    ensures And(n, n) == n
  {
    if n > 0 { AndSelf(n / 2); }
  }

  ghost predicate PowerOfTwo(n: nat) {
    exists p: nat :: n == Pow2(p)
  }

  lemma PowerOfTwoHalf(n: nat)
    requires n > 1
    ensures PowerOfTwo(n) <==> n % 2 == 0 && PowerOfTwo(n / 2)
  {
    if p: nat :| n == Pow2(p) {
      assert p > 0 && n / 2 == Pow2(p - 1);
    }
    if n % 2 == 0 && PowerOfTwo(n / 2) {
      var p: nat :| n / 2 == Pow2(p);
      assert n == Pow2(p + 1);
    }
  }

  lemma {:induction false} IsPow2Exact(n: nat)
    ensures IsPow2(n) <==> PowerOfTwo(n)
  {
    if n == 1 {
      assert n == Pow2(0);
    } else if n > 1 {
      PowerOfTwoHalf(n);
      IsPow2Exact(n / 2);
      if n % 2 == 1 {
        AndSelf(n / 2);
      } else {
        assert And(n, n - 1) == 2 * And(n / 2, n / 2 - 1);
      }
    }
  }

  // ---------------------------------------------------------------- the butterfly

  /** One pass over a buffer viewed as (pairs, 2, inner). */
  function Pass(x: seq<real>, inner: nat): (y: seq<real>)
    requires inner > 0 && |x| % (2 * inner) == 0
    ensures |y| == |x|
  {
    seq(|x|, f requires 0 <= f < |x| => Entry(x, inner, f))
  }

  function Entry(x: seq<real>, inner: nat, f: nat): real
    requires inner > 0 && |x| % (2 * inner) == 0 && f < |x|
  {
    PairInside(|x|, inner, f);
    if (f / inner) % 2 == 0 then x[f] + x[f + inner] else x[f - inner] - x[f]
  }

  /** The partner of a position exists. */
  lemma PairInside(n: nat, inner: nat, f: nat)
    requires inner > 0 && n % (2 * inner) == 0 && f < n
    ensures if (f / inner) % 2 == 0 then f + inner < n else inner <= f
  {
    var pairs := n / (2 * inner);
    DivMod(n, 2 * inner);
    Associate(pairs, 2, inner);
    var h := f / inner;
    DivMod(f, inner);
    DivLt(f, inner, pairs * 2);
    if h % 2 == 0 {
      RowIndex(h + 1, f % inner, pairs * 2, inner);
      Distribute(h, 1, inner);
    } else {
      MulLe(1, h, inner);
    }
  }

  /** The buffer after q passes, with inner sizes 1, 2, ..., 2^(q-1). */
  function Passes(x: seq<real>, q: nat): (y: seq<real>)
    requires |x| % Pow2(q) == 0
    ensures |y| == |x|
  {
    if q == 0 then x
    else
      BlocksDouble(|x|, Pow2(q - 1));
      Pass(Passes(x, q - 1), Pow2(q - 1))
  }

  /** Row i of the m x m matrix with sign pattern `s`, times the block of `x` that starts at `lo`. */
  function BlockDot(s: (nat, nat) -> bool, i: nat, x: seq<real>, lo: nat, m: nat): real {
    Sum(Term(s, i, x, lo), m)
  }

  function Term(s: (nat, nat) -> bool, i: nat, x: seq<real>, lo: nat): nat -> real {
    (j: nat) => if lo + j < |x| then Flip(s(i, j), x[lo + j]) else 0.0
  }

  function Flip(b: bool, v: real): real {
    if b then -v else v
  }

  const FLIPS: (nat, nat) -> bool := (i: nat, j: nat) => Flips(i, j)

  /** How one more bit changes the sign pattern. */
  ghost predicate Doubles(s: (nat, nat) -> bool) {
    !s(0, 0) && forall q: nat, i: nat, j: nat :: DoublesAt(s, q, i, j)
  }

  ghost predicate DoublesAt(s: (nat, nat) -> bool, q: nat, i: nat, j: nat) {
    i < Pow2(q) && j < Pow2(q) ==>
      && s(Pow2(q) + i, j) == s(i, j) == s(i, Pow2(q) + j)
      && s(Pow2(q) + i, Pow2(q) + j) == !s(i, j)
  }

  lemma FlipsDoubles()
    ensures Doubles(FLIPS)
  {
    forall q: nat, i: nat, j: nat ensures DoublesAt(FLIPS, q, i, j) {
      if i < Pow2(q) && j < Pow2(q) { FlipsHigh(q, i, j); }
    }
  }

  /** A row of the lower half of the matrix: both halves of the block contribute with the row's own signs. */
  lemma DotDoublesLow(s: (nat, nat) -> bool, q: nat, i: nat, x: seq<real>, lo: nat)
    requires Doubles(s) && i < Pow2(q)
    ensures var m := Pow2(q);
      BlockDot(s, i, x, lo, 2 * m) == BlockDot(s, i, x, lo, m) + BlockDot(s, i, x, lo + m, m)
  {
    var m := Pow2(q);
    var f, g := Term(s, i, x, lo), Term(s, i, x, lo + m);
    forall j | 0 <= j < m ensures g(j) == f(m + j) {
      assert DoublesAt(s, q, i, j);
    }
    SumHalves(f, f, g, m);
  }

  /** A row of the upper half: the second half of the block contributes with the opposite signs. */
  lemma DotDoublesHigh(s: (nat, nat) -> bool, q: nat, i: nat, x: seq<real>, lo: nat)
    requires Doubles(s) && i < Pow2(q)
    ensures var m := Pow2(q);
      BlockDot(s, m + i, x, lo, 2 * m) == BlockDot(s, i, x, lo, m) - BlockDot(s, i, x, lo + m, m)
  {
    var m := Pow2(q);
    var f, g, h := Term(s, m + i, x, lo), Term(s, i, x, lo), Term(s, i, x, lo + m);
    var neg := (j: nat) => -h(j);
    forall j | 0 <= j < m ensures f(j) == g(j) && neg(j) == f(m + j) {
      assert DoublesAt(s, q, i, j);
    }
    SumNegate(h, neg, m);
    SumHalves(f, g, neg, m);
  }

  /** Position i of block h of size 2m, as a position of one of its halves. */
  lemma HalfIndex(m: nat, h: nat, i: nat)
    requires m > 0 && i < 2 * m
    ensures var f, half, i0 := h * (2 * m) + i, if i < m then 2 * h else 2 * h + 1, if i < m then i else i - m;
      f == half * m + i0 && f / m == half && f % m == i0
    ensures (2 * h) * m == h * (2 * m) && (2 * h + 1) * m == h * (2 * m) + m
  {
    Associate(h, 2, m);
    Distribute(2 * h, 1, m);
    DivModUnique(h * (2 * m) + i, m, if i < m then 2 * h else 2 * h + 1, if i < m then i else i - m);
  }

  lemma BlocksDouble(n: nat, m: nat)
    requires m > 0 && n % (2 * m) == 0
    ensures n % m == 0 && n / m == 2 * (n / (2 * m)) && n == (n / (2 * m)) * (2 * m)
  {
    var k := n / (2 * m);
    DivMod(n, 2 * m);
    Associate(k, 2, m);
    DivModUnique(n, m, k * 2, 0);
  }

  /** After q passes every aligned block of 2^q entries is its own transform. */
  lemma {:induction false} PassesTransform(s: (nat, nat) -> bool, x: seq<real>, q: nat, h: nat, i: nat)
    requires Doubles(s)
    requires |x| % Pow2(q) == 0 && i < Pow2(q) && h < |x| / Pow2(q)
    ensures h * Pow2(q) + i < |x|
    ensures Passes(x, q)[h * Pow2(q) + i] == BlockDot(s, i, x, h * Pow2(q), Pow2(q))
  {
    DivMod(|x|, Pow2(q));
    RowIndex(h, i, |x| / Pow2(q), Pow2(q));
    if q == 0 {
      var f := Term(s, i, x, h);
      assert Sum(f, 1) == Sum(f, 0) + f(0);
    } else {
      var m := Pow2(q - 1);
      BlocksDouble(|x|, m);
      var i0 := if i < m then i else i - m;
      PassesTransform(s, x, q - 1, 2 * h, i0);
      PassesTransform(s, x, q - 1, 2 * h + 1, i0);
      TransformStep(s, Passes(x, q - 1), x, q - 1, h, i);
    }
  }

  /** One pass turns the transforms of the halves of a block into the transform of the block. */
  lemma TransformStep(s: (nat, nat) -> bool, y: seq<real>, x: seq<real>, q: nat, h: nat, i: nat)
    requires Doubles(s) && i < 2 * Pow2(q)
    requires |y| == |x| && |x| % (2 * Pow2(q)) == 0 && h * (2 * Pow2(q)) + i < |x|
    requires var m := Pow2(q); var i0 := if i < m then i else i - m;
      && (2 * h) * m + i0 < |x| && (2 * h + 1) * m + i0 < |x|
      && y[(2 * h) * m + i0] == BlockDot(s, i0, x, (2 * h) * m, m)
      && y[(2 * h + 1) * m + i0] == BlockDot(s, i0, x, (2 * h + 1) * m, m)
    ensures Pass(y, Pow2(q))[h * (2 * Pow2(q)) + i] == BlockDot(s, i, x, h * (2 * Pow2(q)), 2 * Pow2(q))
  {
    var m := Pow2(q);
    HalfIndex(m, h, i);
    PassEntry(y, m, h, i);
    if i < m {
      DotDoublesLow(s, q, i, x, h * (2 * m));
    } else {
      DotDoublesHigh(s, q, i - m, x, h * (2 * m));
    }
  }

  /** One pass adds or subtracts the entries of the two halves of a block. */
  lemma PassEntry(y: seq<real>, m: nat, h: nat, i: nat)
    requires m > 0 && |y| % (2 * m) == 0 && i < 2 * m
    requires h * (2 * m) + i < |y|
    ensures var i0 := if i < m then i else i - m;
      && (2 * h) * m + i0 < |y| && (2 * h + 1) * m + i0 < |y|
      && Pass(y, m)[h * (2 * m) + i]
         == if i < m then y[(2 * h) * m + i0] + y[(2 * h + 1) * m + i0] else y[(2 * h) * m + i0] - y[(2 * h + 1) * m + i0]
  {
    HalfIndex(m, h, i);
    var f := h * (2 * m) + i;
    PairInside(|y|, m, f);
    assert Pass(y, m)[f] == Entry(y, m, f);
  }

  /** What `matmul_hadU` returns for `batch` rows of length `n`: every row multiplied by the explicit
      matrix, or nothing when the length fails the power-of-two assertion. */
  method MatmulHadU(x: seq<real>, batch: nat, n: nat) returns (r: Option<seq<real>>)
    requires |x| == batch * n
    ensures r.Some? <==> PowerOfTwo(n)
    ensures r.Some? ==> |r.value| == |x| && RowsTransformed(x, r.value, batch, n)
  {
    IsPow2Exact(n);
    if !IsPow2(n) {
      return None;
    }
    ghost var p: nat :| n == Pow2(p);
    var y := Transform(x, n, p, batch);
    r := Some(y);
    PassesRows(x, batch, p);
  }

  /** The two buffers and the loop over the passes. */
  method Transform(x: seq<real>, n: nat, ghost p: nat, ghost batch: nat) returns (y: seq<real>)
    requires n == Pow2(p) && |x| == batch * n
    ensures |x| % Pow2(p) == 0 && y == Passes(x, p)
  {
    var input := new real[|x|](k requires 0 <= k < |x| => x[k]);
    var output := new real[|x|](k requires 0 <= k < |x| => x[k]);
    var length, inner := n, 1;
    ghost var q := 0;
    DivModUnique(|x|, n, batch, 0);
    while length > 1
      invariant q <= p && inner == Pow2(q) && length == Pow2(p - q)
      invariant input != output && fresh(input) && fresh(output) && input.Length == output.Length == |x|
      invariant |x| % Pow2(q) == 0 && input[..] == Passes(x, q)
      decreases length
    {
      AlignedTo(x, p, q + 1);
      OnePass(input, output, inner);
      input, output := output, input;
      length, inner := length / 2, inner * 2;
      q := q + 1;
    }
    y := input[..];
  }

  /** Row b of `y` is row b of `x` times the explicit matrix. */
  ghost predicate RowsTransformed(x: seq<real>, y: seq<real>, batch: nat, n: nat)
    requires |x| == |y| == batch * n
  {
    forall b, i :: 0 <= b < batch && 0 <= i < n ==> RowEntry(x, y, batch, n, b, i)
  }

  ghost predicate RowEntry(x: seq<real>, y: seq<real>, batch: nat, n: nat, b: nat, i: nat)
    requires |x| == |y| == batch * n && b < batch && i < n
  {
    RowIndex(b, i, batch, n);
    y[b * n + i] == BlockDot(FLIPS, i, x, b * n, n)
  }

  lemma PassesRows(x: seq<real>, batch: nat, p: nat)
    requires |x| == batch * Pow2(p) && |x| % Pow2(p) == 0
    ensures RowsTransformed(x, Passes(x, p), batch, Pow2(p))
  {
    FlipsDoubles();
    DivModUnique(|x|, Pow2(p), batch, 0);
    forall b, i | 0 <= b < batch && 0 <= i < Pow2(p) ensures RowEntry(x, Passes(x, p), batch, Pow2(p), b, i) {
      RowIndex(b, i, batch, Pow2(p));
      PassesTransform(FLIPS, x, p, b, i);
    }
  }

  /** The two slice assignments of one round: sums into the even slices, differences into the odd ones. */
  method OnePass(input: array<real>, output: array<real>, inner: nat)
    requires input != output && input.Length == output.Length
    requires inner > 0 && input.Length % (2 * inner) == 0
    modifies output
    ensures output[..] == Pass(input[..], inner)
  {
    ghost var x := input[..];
    for f := 0 to input.Length
      invariant input[..] == x
      invariant forall k :: 0 <= k < f && (k / inner) % 2 == 0 ==> output[k] == Entry(x, inner, k)
    {
      if (f / inner) % 2 == 0 {
        PairInside(|x|, inner, f);
        output[f] := input[f] + input[f + inner];
      }
    }
    for f := 0 to input.Length
      invariant input[..] == x
      invariant forall k :: 0 <= k < |x| && (k < f || (k / inner) % 2 == 0) ==> output[k] == Entry(x, inner, k)
    {
      if (f / inner) % 2 == 1 {
        PairInside(|x|, inner, f);
        output[f] := input[f - inner] - input[f];
      }
    }
  }

  lemma {:induction false} AlignedTo(x: seq<real>, p: nat, q: nat)
    requires |x| % Pow2(p) == 0 && q <= p
    ensures |x| % Pow2(q) == 0
  {
    if q < p {
      BlocksDouble(|x|, Pow2(p - 1));
      AlignedTo(x, p - 1, q);
    }
  }
}
