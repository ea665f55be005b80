/** What the rotation in `had.py` rests on: the transform is its own inverse up to the factor n, the
    generated matrix has orthogonal rows and columns, and so rotating both operands of a product and
    dividing by K gives the product back. */
module HadamardRotation {
  import opened Arith
  import opened RealSums
  import opened Hadamard

  // ---------------------------------------------------------------- orthogonality

  /** The product of entries j of rows i and k. */
  function Agree(s: (nat, nat) -> bool, i: nat, k: nat): nat -> real {
    (j: nat) => if s(i, j) == s(k, j) then 1.0 else -1.0
  }

  lemma {:induction false} Orthogonal(s: (nat, nat) -> bool, p: nat, i: nat, k: nat)
    requires Doubles(s) && i < Pow2(p) && k < Pow2(p)
    ensures Sum(Agree(s, i, k), Pow2(p)) == if i == k then Pow2(p) as real else 0.0
  {
    if p == 0 {
      var f := Agree(s, i, k);
      assert Sum(f, 1) == Sum(f, 0) + f(0);
    } else {
      var m := Pow2(p - 1);
      var i0, k0 := if i < m then i else i - m, if k < m then k else k - m;
      Orthogonal(s, p - 1, i0, k0);
      AgreeHalves(s, p - 1, i, k);
    }
  }

  lemma AgreeHalves(s: (nat, nat) -> bool, q: nat, i: nat, k: nat)
    requires Doubles(s) && i < 2 * Pow2(q) && k < 2 * Pow2(q)
    ensures var m := Pow2(q);
      var i0, k0 := if i < m then i else i - m, if k < m then k else k - m;
      var half := Sum(Agree(s, i0, k0), m);
      Sum(Agree(s, i, k), 2 * m) == if (i < m) == (k < m) then half + half else 0.0
  {
    var m := Pow2(q);
    var i0, k0 := if i < m then i else i - m, if k < m then k else k - m;
    var f, g := Agree(s, i, k), Agree(s, i0, k0);
    var same := (i < m) == (k < m);
    var h := (j: nat) => if same then g(j) else -g(j);
    forall j | 0 <= j < m ensures f(j) == g(j) && h(j) == f(m + j) {
      assert DoublesAt(s, q, i0, j) && DoublesAt(s, q, k0, j);
    }
    SumHalves(f, g, h, m);
    if same { SumEq(h, g, m); } else { SumNegate(g, h, m); }
  }

  // ---------------------------------------------------------------- contraction over an orthogonal matrix

  /** Distinct columns are orthogonal and every column has squared length c. */
  ghost predicate Gram(h: (nat, nat) -> real, n: nat, c: real) {
    forall a, b :: 0 <= a < n && 0 <= b < n ==> ColumnsOk(h, n, c, a, b)
  }

  ghost predicate ColumnsOk(h: (nat, nat) -> real, n: nat, c: real, a: nat, b: nat) {
    Sum(ColumnProduct(h, a, b), n) == if a == b then c else 0.0
  }

  function ColumnProduct(h: (nat, nat) -> real, a: nat, b: nat): nat -> real {
    (r: nat) => h(r, a) * h(r, b)
  }

  function Weighted(h: (nat, nat) -> real, v: nat -> real, r: nat): nat -> real {
    (l: nat) => v(l) * h(r, l)
  }

  /** Row r of `h` times the vector v. */
  function Rotate(h: (nat, nat) -> real, v: nat -> real, n: nat): nat -> real {
    (r: nat) => Sum(Weighted(h, v, r), n)
  }

  function Dot(u: nat -> real, v: nat -> real, n: nat): real {
    Sum((k: nat) => u(k) * v(k), n)
  }

  /** Contracting a rotated vector with column k gives back entry k, times c. */
  lemma Project(h: (nat, nat) -> real, n: nat, c: real, v: nat -> real, k: nat)
    requires Gram(h, n, c) && k < n
    ensures Sum((r: nat) => h(r, k) * Rotate(h, v, n)(r), n) == c * v(k)
  {
    var f := (r: nat, l: nat) => h(r, k) * Weighted(h, v, r)(l);
    forall r | 0 <= r < n ensures h(r, k) * Rotate(h, v, n)(r) == RowSum(f, n)(r) {
      SumScale(h(r, k), Weighted(h, v, r), (l: nat) => f(r, l), n);
    }
    SumEq((r: nat) => h(r, k) * Rotate(h, v, n)(r), RowSum(f, n), n);
    SumExchange(f, n, n);
    forall l | 0 <= l < n ensures ColSum(f, n)(l) == if l == k then c * v(k) else 0.0 {
      forall r | 0 <= r < n ensures f(r, l) == v(l) * ColumnProduct(h, k, l)(r) {
        Reorder(h(r, k), v(l), h(r, l));
      }
      SumScale(v(l), ColumnProduct(h, k, l), (r: nat) => f(r, l), n);
      assert ColumnsOk(h, n, c, k, l);
    }
    SumSingle(ColSum(f, n), k, n);
  }

  lemma Reorder(a: real, b: real, c: real)
    ensures a * (b * c) == b * (a * c)
  {
  }

  /** Column k's share of a product of rotated vectors. */
  function Share(h: (nat, nat) -> real, u: nat -> real, y: nat -> real): (nat, nat) -> real {
    (r: nat, k: nat) => Weighted(h, u, r)(k) * y(r)
  }

  lemma ShareAt(h: (nat, nat) -> real, u: nat -> real, y: nat -> real, r: nat, k: nat)
    ensures Share(h, u, y)(r, k) == Weighted(h, u, r)(k) * y(r) == u(k) * (h(r, k) * y(r))
  {
    var w := Weighted(h, u, r)(k);
    assert w == u(k) * h(r, k);
    Associate3(u(k), h(r, k), y(r));
  }

  lemma ShareColumn(h: (nat, nat) -> real, n: nat, c: real, u: nat -> real, v: nat -> real, k: nat)
    requires Gram(h, n, c) && k < n
    ensures ColSum(Share(h, u, Rotate(h, v, n)), n)(k) == c * (u(k) * v(k))
  {
    var y := Rotate(h, v, n);
    var f := Share(h, u, y);
    var column := (r: nat) => h(r, k) * y(r);
    var shared := (r: nat) => f(r, k);
    forall r | 0 <= r < n ensures shared(r) == u(k) * column(r) {
      ShareAt(h, u, y, r, k);
    }
    SumScale(u(k), column, shared, n);
    Project(h, n, c, v, k);
    Reorder(u(k), c, v(k));
  }

  lemma ShareRow(h: (nat, nat) -> real, n: nat, u: nat -> real, y: nat -> real, r: nat)
    ensures RowSum(Share(h, u, y), n)(r) == Rotate(h, u, n)(r) * y(r)
  {
    var shared := (k: nat) => Share(h, u, y)(r, k);
    forall k | 0 <= k < n ensures shared(k) == Weighted(h, u, r)(k) * y(r) {
      ShareAt(h, u, y, r, k);
    }
    SumScaleRight(Weighted(h, u, r), y(r), shared, n);
  }

  function Times(u: nat -> real, v: nat -> real): nat -> real {
    (k: nat) => u(k) * v(k)
  }

  /** Rotating both vectors multiplies their dot product by c. */
  lemma RotatedDot(h: (nat, nat) -> real, n: nat, c: real, u: nat -> real, v: nat -> real)
    requires Gram(h, n, c)
    ensures Dot(Rotate(h, u, n), Rotate(h, v, n), n) == c * Dot(u, v, n)
  {
    var y := Rotate(h, v, n);
    var f := Share(h, u, y);
    var lhs := Times(Rotate(h, u, n), y);
    forall r | 0 <= r < n ensures lhs(r) == RowSum(f, n)(r) {
      ShareRow(h, n, u, y, r);
    }
    SumEq(lhs, RowSum(f, n), n);
    SumExchange(f, n, n);
    var rhs := Times(u, v);
    forall k | 0 <= k < n ensures ColSum(f, n)(k) == c * rhs(k) {
      ShareColumn(h, n, c, u, v, k);
    }
    SumScale(c, rhs, ColSum(f, n), n);
  }

  lemma Commute(a: real, b: real)
    ensures a * b == b * a
  {
  }

  lemma Associate3(a: real, b: real, c: real)
    ensures (a * b) * c == a * (b * c)
  {
  }

  // ---------------------------------------------------------------- the transform is an involution

  const SIGN: (nat, nat) -> real := (r: nat, l: nat) => Sign(r, l)

  function Vector(x: seq<real>): nat -> real {
    (l: nat) => if l < |x| then x[l] else 0.0
  }

  lemma FlipIsTimes(b: bool, v: real)
    ensures Flip(b, v) == v * if b then -1.0 else 1.0
  {
  }

  lemma BlockDotIsRotate(x: seq<real>, i: nat, n: nat)
    requires |x| == n
    ensures BlockDot(FLIPS, i, x, 0, n) == Rotate(SIGN, Vector(x), n)(i)
  {
    var f, g := Term(FLIPS, i, x, 0), Weighted(SIGN, Vector(x), i);
    forall j | 0 <= j < n ensures f(j) == g(j) {
      FlipIsTimes(Flips(i, j), x[j]);
      assert f(j) == Flip(Flips(i, j), x[j]);
      assert SIGN(i, j) == if Flips(i, j) then -1.0 else 1.0;
    }
    SumEq(f, g, n);
  }

  lemma SignGram(p: nat)
    ensures Gram(SIGN, Pow2(p), Pow2(p) as real)
  {
    var n, c := Pow2(p), Pow2(p) as real;
    FlipsDoubles();
    forall a, b | 0 <= a < n && 0 <= b < n ensures ColumnsOk(SIGN, n, c, a, b) {
      Orthogonal(FLIPS, p, a, b);
      var f, g := ColumnProduct(SIGN, a, b), Agree(FLIPS, a, b);
      forall r | 0 <= r < n ensures f(r) == g(r) {
        SignSymmetric(r, a);
        SignSymmetric(r, b);
      }
      SumEq(f, g, n);
    }
  }

  lemma TransformedRow(x: seq<real>, y: seq<real>, n: nat, r: nat)
    requires |x| == |y| == n && RowsTransformed(x, y, 1, n) && r < n
    ensures y[r] == Rotate(SIGN, Vector(x), n)(r)
  {
    assert RowEntry(x, y, 1, n, 0, r);
    BlockDotIsRotate(x, r, n);
  }

  /** Transforming twice multiplies by n. */
  lemma TwiceIsScaling(x: seq<real>, y: seq<real>, z: seq<real>, p: nat, i: nat)
    requires |x| == |y| == |z| == Pow2(p) && i < Pow2(p)
    requires RowsTransformed(x, y, 1, Pow2(p)) && RowsTransformed(y, z, 1, Pow2(p))
    ensures z[i] == Pow2(p) as real * x[i]
  {
    SignGram(p);
    TwoTransforms(x, y, z, Pow2(p), Pow2(p) as real, i);
  }

  lemma TwoTransforms(x: seq<real>, y: seq<real>, z: seq<real>, n: nat, c: real, i: nat)
    requires |x| == |y| == |z| == n && i < n && Gram(SIGN, n, c)
    requires RowsTransformed(x, y, 1, n) && RowsTransformed(y, z, 1, n)
    ensures z[i] == c * x[i]
  {
    TransformedRow(y, z, n, i);
    forall r | 0 <= r < n ensures Vector(y)(r) == Rotate(SIGN, Vector(x), n)(r) {
      TransformedRow(x, y, n, r);
    }
    RotateTwice(n, c, Vector(x), Vector(y), i);
  }

  lemma RotateTwice(n: nat, c: real, u: nat -> real, v: nat -> real, i: nat)
    requires Gram(SIGN, n, c) && i < n
    requires forall r :: 0 <= r < n ==> v(r) == Rotate(SIGN, u, n)(r)
    ensures Rotate(SIGN, v, n)(i) == c * u(i)
  {
    Project(SIGN, n, c, u, i);
    var f, g := Weighted(SIGN, v, i), (r: nat) => SIGN(r, i) * Rotate(SIGN, u, n)(r);
    forall r | 0 <= r < n ensures f(r) == g(r) {
      SignSymmetric(i, r);
      assert SIGN(i, r) == SIGN(r, i);
      Commute(v(r), SIGN(i, r));
    }
    SumEq(f, g, n);
  }

  // ---------------------------------------------------------------- the random matrix

  /** `random_hadamard_matrix`: the transform of a diagonal of random signs, row-major. */
  method RandomHadamardMatrix(bits: seq<nat>) returns (r: Option<seq<real>>)
    requires forall a :: 0 <= a < |bits| ==> bits[a] < 2
    ensures r.Some? <==> PowerOfTwo(|bits|)
    ensures r.Some? ==> IsRandomHadamard(bits, r.value)
  {
    var size := |bits|;
    var diagonal := seq(size * size, (f: nat) => DiagonalEntry(bits, f));
    r := MatmulHadU(diagonal, size, size);
    if r.Some? {
      forall a, b | 0 <= a < size && 0 <= b < size ensures HadamardEntry(bits, r.value, a, b) {
        assert RowEntry(diagonal, r.value, size, size, a, b);
        DiagonalRow(bits, diagonal, a, b);
      }
    }
  }

  function DiagonalEntry(bits: seq<nat>, f: nat): real {
    var n := |bits|;
    if n > 0 && f / n == f % n && f / n < n then RandomSign(bits[f / n]) else 0.0
  }

  /** `Q * 2 - 1`. */
  function RandomSign(bit: nat): real {
    (bit * 2 - 1) as real
  }

  /** Entry (a, b) is the explicit entry (b, a) with the sign drawn for row a. */
  ghost predicate IsRandomHadamard(bits: seq<nat>, had: seq<real>) {
    |had| == |bits| * |bits| && forall a, b :: 0 <= a < |bits| && 0 <= b < |bits| ==> HadamardEntry(bits, had, a, b)
  }

  ghost predicate HadamardEntry(bits: seq<nat>, had: seq<real>, a: nat, b: nat)
    requires |had| == |bits| * |bits| && a < |bits| && b < |bits|
  {
    MatrixAt(had, |bits|, a, b) == RandomSign(bits[a]) * Sign(b, a)
  }

  function MatrixAt(m: seq<real>, n: nat, a: nat, b: nat): real
    requires |m| == n * n && a < n && b < n
  {
    RowIndex(a, b, n, n);
    m[a * n + b]
  }

  /** A drawn 1 keeps its row of the symmetric sign matrix, a drawn 0 negates it. */
  lemma DrawnRows(bits: seq<nat>, had: seq<real>, a: nat, b: nat)
    requires IsRandomHadamard(bits, had) && a < |bits| && b < |bits|
    ensures bits[a] == 1 ==> MatrixAt(had, |bits|, a, b) == Sign(a, b)
    ensures bits[a] == 0 ==> MatrixAt(had, |bits|, a, b) == -Sign(a, b)
  {
    assert HadamardEntry(bits, had, a, b);
    SignSymmetric(a, b);
  }

  lemma DiagonalRow(bits: seq<nat>, diagonal: seq<real>, a: nat, b: nat)
    requires |diagonal| == |bits| * |bits| && a < |bits|
    requires forall f :: 0 <= f < |diagonal| ==> diagonal[f] == DiagonalEntry(bits, f)
    ensures BlockDot(FLIPS, b, diagonal, a * |bits|, |bits|) == RandomSign(bits[a]) * Sign(b, a)
  {
    var n := |bits|;
    var f := Term(FLIPS, b, diagonal, a * n);
    forall j | 0 <= j < n ensures f(j) == if j == a then RandomSign(bits[a]) * Sign(b, a) else 0.0 {
      RowIndex(a, j, n, n);
      DivModUnique(a * n + j, n, a, j);
      FlipIsTimes(Flips(b, j), diagonal[a * n + j]);
    }
    SumSingle(f, a, n);
  }

  lemma SignsSquare(bits: seq<nat>, a: nat, b: nat, c: nat)
    requires a < |bits| && bits[a] < 2
    ensures (RandomSign(bits[a]) * Sign(b, a)) * (RandomSign(bits[a]) * Sign(c, a)) == Agree(FLIPS, b, c)(a)
  {
  }

  /** Entry (r, k) of the matrix as a total function, and of its transpose. */
  function Had(bits: seq<nat>, had: seq<real>): (nat, nat) -> real
    requires |had| == |bits| * |bits|
  {
    (r: nat, k: nat) => if r < |bits| && k < |bits| then MatrixAt(had, |bits|, r, k) else 0.0
  }

  function HadTransposed(bits: seq<nat>, had: seq<real>): (nat, nat) -> real
    requires |had| == |bits| * |bits|
  {
    (r: nat, k: nat) => if r < |bits| && k < |bits| then MatrixAt(had, |bits|, k, r) else 0.0
  }

  lemma ColumnsAgree(bits: seq<nat>, had: seq<real>, a: nat, b: nat, r: nat)
    requires IsRandomHadamard(bits, had) && a < |bits| && b < |bits| && r < |bits| && bits[r] < 2
    ensures ColumnProduct(Had(bits, had), a, b)(r) == Agree(FLIPS, a, b)(r)
  {
    assert HadamardEntry(bits, had, r, a) && HadamardEntry(bits, had, r, b);
    SignsSquare(bits, r, a, b);
  }

  /** Had^T * Had = K * I. */
  lemma ColumnsOrthogonal(bits: seq<nat>, had: seq<real>, p: nat)
    requires |bits| == Pow2(p) && IsRandomHadamard(bits, had)
    requires forall a :: 0 <= a < |bits| ==> bits[a] < 2
    ensures Gram(Had(bits, had), |bits|, |bits| as real)
  {
    var n, c, h := |bits|, |bits| as real, Had(bits, had);
    FlipsDoubles();
    forall a, b | 0 <= a < n && 0 <= b < n ensures ColumnsOk(h, n, c, a, b) {
      var f, g := ColumnProduct(h, a, b), Agree(FLIPS, a, b);
      forall r | 0 <= r < n ensures f(r) == g(r) { ColumnsAgree(bits, had, a, b, r); }
      SumEq(f, g, n);
      Orthogonal(FLIPS, p, a, b);
    }
  }

  /** Had * Had^T = K * I. */
  lemma RowsOrthogonal(bits: seq<nat>, had: seq<real>, p: nat)
    requires |bits| == Pow2(p) && IsRandomHadamard(bits, had)
    requires forall a :: 0 <= a < |bits| ==> bits[a] < 2
    ensures Gram(HadTransposed(bits, had), |bits|, |bits| as real)
  {
    var n, c, h := |bits|, |bits| as real, HadTransposed(bits, had);
    forall a, b | 0 <= a < n && 0 <= b < n ensures ColumnsOk(h, n, c, a, b) {
      RowPair(bits, had, p, a, b);
    }
  }

  lemma RowPair(bits: seq<nat>, had: seq<real>, p: nat, a: nat, b: nat)
    requires |bits| == Pow2(p) && IsRandomHadamard(bits, had) && a < |bits| && b < |bits|
    requires bits[a] < 2 && bits[b] < 2
    ensures ColumnsOk(HadTransposed(bits, had), |bits|, |bits| as real, a, b)
  {
    var w := SignPair(bits[a], bits[b]);
    forall r | 0 <= r < |bits|
      ensures ColumnProduct(HadTransposed(bits, had), a, b)(r) == w * Agree(FLIPS, a, b)(r)
    {
      TransposedProduct(bits, had, a, b, r, w);
    }
    ScaledAgree(ColumnProduct(HadTransposed(bits, had), a, b), w, p, a, b);
  }

  lemma SignPair(x: nat, y: nat) returns (w: real)
    requires x < 2 && y < 2
    ensures w == RandomSign(x) * RandomSign(y) && (x == y ==> w == 1.0)
  {
    w := RandomSign(x) * RandomSign(y);
    UnitSign(x);
  }

  lemma ScaledAgree(f: nat -> real, w: real, p: nat, a: nat, b: nat)
    requires a < Pow2(p) && b < Pow2(p) && (a == b ==> w == 1.0)
    requires forall r :: 0 <= r < Pow2(p) ==> f(r) == w * Agree(FLIPS, a, b)(r)
    ensures Sum(f, Pow2(p)) == if a == b then Pow2(p) as real else 0.0
  {
    SumScale(w, Agree(FLIPS, a, b), f, Pow2(p));
    FlipsDoubles();
    Orthogonal(FLIPS, p, a, b);
  }

  lemma UnitSign(bit: nat)
    requires bit < 2
    ensures RandomSign(bit) * RandomSign(bit) == 1.0
  {
    assert RandomSign(bit) == if bit == 0 then -1.0 else 1.0;
  }

  lemma TransposedProduct(bits: seq<nat>, had: seq<real>, a: nat, b: nat, r: nat, w: real)
    requires IsRandomHadamard(bits, had) && a < |bits| && b < |bits| && r < |bits|
    requires w == RandomSign(bits[a]) * RandomSign(bits[b])
    ensures ColumnProduct(HadTransposed(bits, had), a, b)(r) == w * Agree(FLIPS, a, b)(r)
  {
    var x, y := RandomSign(bits[a]), RandomSign(bits[b]);
    TransposedEntry(bits, had, a, r);
    TransposedEntry(bits, had, b, r);
    FromEntries(HadTransposed(bits, had), x, y, a, b, r, w);
  }

  lemma FromEntries(h: (nat, nat) -> real, x: real, y: real, a: nat, b: nat, r: nat, w: real)
    requires h(r, a) == Flip(Flips(a, r), x) && h(r, b) == Flip(Flips(b, r), y) && w == x * y
    ensures ColumnProduct(h, a, b)(r) == w * Agree(FLIPS, a, b)(r)
  {
    FlipIsTimes(Flips(a, r), x);
    FlipIsTimes(Flips(b, r), y);
    SignsProduct(x, y, a, b, r);
    SameProduct(h(r, a), h(r, b), x * Sign(a, r), y * Sign(b, r));
  }

  lemma TransposedEntry(bits: seq<nat>, had: seq<real>, a: nat, r: nat)
    requires IsRandomHadamard(bits, had) && a < |bits| && r < |bits|
    ensures HadTransposed(bits, had)(r, a) == Flip(Flips(a, r), RandomSign(bits[a]))
  {
    assert HadamardEntry(bits, had, a, r);
    SignSymmetric(r, a);
    FlipIsTimes(Flips(a, r), RandomSign(bits[a]));
  }

  lemma SameProduct(p: real, q: real, p': real, q': real)
    requires p == p' && q == q'
    ensures p * q == p' * q'
  {
  }

  lemma SignsProduct(x: real, y: real, a: nat, b: nat, r: nat)
    ensures (x * Sign(a, r)) * (y * Sign(b, r)) == (x * y) * Agree(FLIPS, a, b)(r)
  {
    if Flips(a, r) == Flips(b, r) {
      assert Sign(a, r) * Sign(b, r) == 1.0;
    }
  }

  // ---------------------------------------------------------------- the rotated product

  /** Entry (m, n) of the product of A, given by its rows, and B, given by its columns. */
  function Product(a: (nat, nat) -> real, b: (nat, nat) -> real, depth: nat, m: nat, n: nat): real {
    Dot((k: nat) => a(m, k), (k: nat) => b(k, n), depth)
  }

  /** `einsum('bmk,rk->bmr')` and `einsum('bkn,rk->brn')` for one batch entry. */
  function RotateLeft(a: (nat, nat) -> real, h: (nat, nat) -> real, depth: nat): (nat, nat) -> real {
    (m: nat, r: nat) => Rotate(h, (k: nat) => a(m, k), depth)(r)
  }

  function RotateRight(b: (nat, nat) -> real, h: (nat, nat) -> real, depth: nat): (nat, nat) -> real {
    (r: nat, n: nat) => Rotate(h, (k: nat) => b(k, n), depth)(r)
  }

  lemma RotatedEntry(h: (nat, nat) -> real, depth: nat, a: (nat, nat) -> real, b: (nat, nat) -> real, m: nat, n: nat)
    requires depth > 0 && Gram(h, depth, depth as real)
    ensures Product(RotateLeft(a, h, depth), RotateRight(b, h, depth), depth, m, n) / depth as real == Product(a, b, depth, m, n)
  {
    var u, v := (k: nat) => a(m, k), (k: nat) => b(k, n);
    var ra, rb := RotateLeft(a, h, depth), RotateRight(b, h, depth);
    RotatedDot(h, depth, depth as real, u, v);
    SumEq((r: nat) => Rotate(h, u, depth)(r) * Rotate(h, v, depth)(r),
          (r: nat) => ((k: nat) => ra(m, k))(r) * ((k: nat) => rb(k, n))(r), depth);
  }

  /** Rotating both operands by the generated matrix and dividing by K leaves every entry of the product
      unchanged, whichever index of the matrix is contracted. */
  lemma RotationPreservesProduct(bits: seq<nat>, had: seq<real>, p: nat, a: (nat, nat) -> real, b: (nat, nat) -> real, m: nat, n: nat)
    requires |bits| == Pow2(p) && IsRandomHadamard(bits, had)
    requires forall i :: 0 <= i < |bits| ==> bits[i] < 2
    ensures var depth := |bits|; var h := Had(bits, had);
      Product(RotateLeft(a, h, depth), RotateRight(b, h, depth), depth, m, n) / depth as real == Product(a, b, depth, m, n)
    ensures var depth := |bits|; var h := HadTransposed(bits, had);
      Product(RotateLeft(a, h, depth), RotateRight(b, h, depth), depth, m, n) / depth as real == Product(a, b, depth, m, n)
  {
    ColumnsOrthogonal(bits, had, p);
    RowsOrthogonal(bits, had, p);
    RotatedEntry(Had(bits, had), |bits|, a, b, m, n);
    RotatedEntry(HadTransposed(bits, had), |bits|, a, b, m, n);
  }
}
